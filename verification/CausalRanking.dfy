/** Ranking issues by the highest severity they can affect. */
module CausalRanking {
  import opened Wrappers
  import opened CausalGraph

  datatype Issue = Issue(checkId: Id, severity: string, detail: int)

  const SEVERITY_ORDER := ["critical", "high", "medium", "low"]

  /** The position of a known severity, and the list's length for any other. */
  function SeverityRank(severity: string): nat {
    if severity == SEVERITY_ORDER[0] then 0
    else if severity == SEVERITY_ORDER[1] then 1
    else if severity == SEVERITY_ORDER[2] then 2
    else if severity == SEVERITY_ORDER[3] then 3
    else 4
  }

  /** A collation of check names: negative, zero or positive like a comparator. */
  type Collation = (string, string) -> int

  ghost predicate IsCollation(collate: Collation) {
    && (forall a, b :: collate(a, b) <= 0 || collate(b, a) <= 0)
    && (forall a, b, c :: collate(a, b) <= 0 && collate(b, c) <= 0 ==> collate(a, c) <= 0)
  }

  /** The collation never takes two different names for equal. */
  ghost predicate Separates(collate: Collation) {
    forall a, b :: collate(a, b) <= 0 && collate(b, a) <= 0 ==> a == b
  }

  // ---------- the rank of one issue ----------

  /** The first issue listed under an id. */
  function Find(issues: seq<Issue>, id: Id): Option<Issue> {
    if issues == [] then None
    else if issues[0].checkId == id then Some(issues[0])
    else Find(issues[1..], id)
  }

  /** The issue that a link says `issue` affects, if that effect is active and listed. */
  function Affected(link: Link, active: set<Id>, issues: seq<Issue>, issue: Issue): Option<Issue> {
    if link.cause == issue.checkId && link.effect in active then Find(issues, link.effect) else None
  }

  /** No issue affected ranks better, and the rank is that of the issue or of one it affects. */
  ghost predicate IsBestRank(links: seq<Link>, active: set<Id>, issues: seq<Issue>, issue: Issue, rank: nat) {
    && rank <= SeverityRank(issue.severity)
    && (forall i | 0 <= i < |links| ::
          var affected := Affected(links[i], active, issues, issue);
          affected.Some? ==> rank <= SeverityRank(affected.value.severity))
    && (rank == SeverityRank(issue.severity) ||
        exists i :: 0 <= i < |links| &&
          var affected := Affected(links[i], active, issues, issue);
          affected.Some? && rank == SeverityRank(affected.value.severity))
  }

  function EffectiveRank(links: seq<Link>, active: set<Id>, issues: seq<Issue>, issue: Issue): nat {
    if links == [] then SeverityRank(issue.severity)
    else
      var best := EffectiveRank(links[..|links| - 1], active, issues, issue);
      var affected := Affected(links[|links| - 1], active, issues, issue);
      if affected.Some? && SeverityRank(affected.value.severity) < best
      then SeverityRank(affected.value.severity) else best
  }

  lemma {:induction false} EffectiveRankIsBest(links: seq<Link>, active: set<Id>, issues: seq<Issue>, issue: Issue)
    ensures IsBestRank(links, active, issues, issue, EffectiveRank(links, active, issues, issue))
  {
    if links != [] {
      var before := links[..|links| - 1];
      EffectiveRankIsBest(before, active, issues, issue);
      assert forall i | 0 <= i < |before| :: before[i] == links[i];
    }
  }

  method FindIssue(issues: seq<Issue>, id: Id) returns (found: Option<Issue>)
    ensures found == Find(issues, id)
  {
    var i := 0;
    while i < |issues|
      invariant i <= |issues| && Find(issues, id) == Find(issues[i..], id)
    {
      if issues[i].checkId == id {
        return Some(issues[i]);
      }
      assert issues[i..][1..] == issues[i + 1..];
      i := i + 1;
    }
    return None;
  }

  method ComputeEffectiveRank(links: seq<Link>, active: set<Id>, issues: seq<Issue>, issue: Issue) returns (best: nat)
    ensures best == EffectiveRank(links, active, issues, issue)
    ensures IsBestRank(links, active, issues, issue, best)
  {
    best := SeverityRank(issue.severity);
    for k := 0 to |links|
      invariant best == EffectiveRank(links[..k], active, issues, issue)
    {
      assert links[..k + 1][..k] == links[..k];
      if links[k].cause == issue.checkId && links[k].effect in active {
        var found := FindIssue(issues, links[k].effect);
        if found.Some? && SeverityRank(found.value.severity) < best {
          best := SeverityRank(found.value.severity);
        }
      }
    }
    assert links[..|links|] == links;
    EffectiveRankIsBest(links, active, issues, issue);
  }

  // ---------- the order ----------

  /** What the order looks at: the graph, the issues as listed, and the collation of ids. */
  datatype Ranking = Ranking(links: seq<Link>, active: set<Id>, issues: seq<Issue>, collate: Collation)
  {
    function Rank(issue: Issue): nat {
      EffectiveRank(links, active, issues, issue)
    }

    /** The comparator does not put `b` strictly first. */
    predicate Before(a: Issue, b: Issue) {
      if Rank(a) != Rank(b) then Rank(a) < Rank(b)
      else if SeverityRank(a.severity) != SeverityRank(b.severity) then SeverityRank(a.severity) < SeverityRank(b.severity)
      else collate(a.checkId.name, b.checkId.name) <= 0
    }
  }

  ghost predicate Arranged<T>(before: (T, T) -> bool, items: seq<T>) {
    forall i, j | 0 <= i < j < |items| :: before(items[i], items[j])
  }

  ghost predicate Sorted(r: Ranking, issues: seq<Issue>) {
    Arranged((a, b) => r.Before(a, b), issues)
  }

  lemma ArrangedWithOneMore<T>(before: (T, T) -> bool, items: seq<T>, at: nat, item: T)
    requires at <= |items| && Arranged(before, items)
    requires forall k | 0 <= k < at :: before(items[k], item)
    requires forall k | at <= k < |items| :: before(item, items[k])
    ensures Arranged(before, items[..at] + [item] + items[at..])
    ensures multiset(items[..at] + [item] + items[at..]) == multiset(items) + multiset{item}
  {
    assert items == items[..at] + items[at..];
  }

  /** A listing has one arrangement, when items that may stand in either order are the same. */
  lemma {:induction false} ArrangementIsUnique<T>(before: (T, T) -> bool, a: seq<T>, b: seq<T>)
    requires Arranged(before, a) && Arranged(before, b) && multiset(a) == multiset(b)
    requires forall x, y | x in a && y in a && before(x, y) && before(y, x) :: x == y
    ensures a == b
  {
    if a == [] {
      assert |multiset(b)| == 0;
    } else {
      FirstIsSame(before, a, b);
      WithoutFirst(a);
      WithoutFirst(b);
      forall x | x in a[1..] ensures x in a {}
      ArrangementIsUnique(before, a[1..], b[1..]);
    }
  }

  lemma WithoutFirst<T>(items: seq<T>)
    requires items != []
    ensures multiset(items[1..]) == multiset(items) - multiset{items[0]}
  {
    assert items == [items[0]] + items[1..];
  }

  lemma FirstIsSame<T>(before: (T, T) -> bool, a: seq<T>, b: seq<T>)
    requires a != [] && Arranged(before, a) && Arranged(before, b) && multiset(a) == multiset(b)
    requires forall x, y | x in a && y in a && before(x, y) && before(y, x) :: x == y
    ensures b != [] && a[0] == b[0]
  {
    assert a[0] in multiset(b);
    var i :| 0 <= i < |b| && b[i] == a[0];
    assert b[0] in multiset(a);
    var j :| 0 <= j < |a| && a[j] == b[0];
  }

  lemma BeforeIsTotal(r: Ranking, a: Issue, b: Issue, c: Issue)
    requires IsCollation(r.collate)
    ensures r.Before(a, b) || r.Before(b, a)
    ensures r.Before(a, b) && r.Before(b, c) ==> r.Before(a, c)
    ensures Separates(r.collate) && r.Before(a, b) && r.Before(b, a) ==> a.checkId == b.checkId
  {
  }

  // ---------- issues the comparator does not tell apart ----------

  /** The issues that may stand on either side of this one, in the order listed. */
  function TiedWith(r: Ranking, issues: seq<Issue>, issue: Issue): seq<Issue> {
    if issues == [] then []
    else
      (if r.Before(issues[0], issue) && r.Before(issue, issues[0]) then [issues[0]] else [])
      + TiedWith(r, issues[1..], issue)
  }

  /** The same issues, and those that tie keep the order in which they were listed. */
  ghost predicate Stable(r: Ranking, ranked: seq<Issue>, issues: seq<Issue>) {
    && multiset(ranked) == multiset(issues)
    && forall issue :: TiedWith(r, ranked, issue) == TiedWith(r, issues, issue)
  }

  lemma {:induction false} TiedOfConcat(r: Ranking, a: seq<Issue>, b: seq<Issue>, issue: Issue)
    ensures TiedWith(r, a + b, issue) == TiedWith(r, a, issue) + TiedWith(r, b, issue)
  {
    if a == [] {
      assert a + b == b;
    } else {
      assert (a + b)[1..] == a[1..] + b;
      TiedOfConcat(r, a[1..], b, issue);
    }
  }

  lemma {:induction false} NoneTied(r: Ranking, issues: seq<Issue>, issue: Issue)
    requires forall k | 0 <= k < |issues| :: !r.Before(issues[k], issue) || !r.Before(issue, issues[k])
    ensures TiedWith(r, issues, issue) == []
  {
    if issues != [] {
      NoneTied(r, issues[1..], issue);
    }
  }

  lemma {:induction false} TiedContains(r: Ranking, issues: seq<Issue>, issue: Issue, other: Issue)
    ensures other in TiedWith(r, issues, issue) <==> other in issues && r.Before(other, issue) && r.Before(issue, other)
  {
    if issues != [] {
      TiedContains(r, issues[1..], issue, other);
    }
  }

  /** An issue put before others that all have to follow it comes last among those it ties with. */
  lemma TiedWithInserted(r: Ranking, front: seq<Issue>, issue: Issue, back: seq<Issue>, other: Issue)
    requires IsCollation(r.collate)
    requires forall k | 0 <= k < |back| :: !r.Before(back[k], issue)
    ensures TiedWith(r, front + [issue] + back, other) == TiedWith(r, (front + back) + [issue], other)
  {
    hide Ranking.Before;
    TiedOfConcat(r, front + [issue], back, other);
    TiedOfConcat(r, front, [issue], other);
    TiedOfConcat(r, front + back, [issue], other);
    TiedOfConcat(r, front, back, other);
    if r.Before(issue, other) && r.Before(other, issue) {
      forall k | 0 <= k < |back| ensures !r.Before(back[k], other) {
        BeforeIsTotal(r, back[k], other, issue);
      }
      NoneTied(r, back, other);
    } else {
      assert TiedWith(r, [issue], other) == [];
    }
  }

  /** Of two sorted listings with the same ties neither can start differently. */
  lemma FirstIsDetermined(r: Ranking, a: seq<Issue>, b: seq<Issue>)
    requires IsCollation(r.collate) && Sorted(r, a) && Sorted(r, b) && a != []
    requires forall issue :: TiedWith(r, a, issue) == TiedWith(r, b, issue)
    ensures b != [] && a[0] == b[0]
  {
    TiedContains(r, a, a[0], a[0]);
    TiedContains(r, b, a[0], a[0]);
    BeforeIsTotal(r, a[0], a[0], a[0]);
    TiedContains(r, a, b[0], b[0]);
    TiedContains(r, b, b[0], b[0]);
    BeforeIsTotal(r, b[0], b[0], b[0]);
    SortedFirst(r, a, b[0]);
    SortedFirst(r, b, a[0]);
    assert TiedWith(r, a, b[0])[0] == a[0];
    assert TiedWith(r, b, b[0])[0] == b[0];
  }

  lemma SortedFirst(r: Ranking, sorted: seq<Issue>, issue: Issue)
    requires IsCollation(r.collate) && Sorted(r, sorted) && issue in sorted
    ensures r.Before(sorted[0], issue)
  {
    BeforeIsTotal(r, issue, issue, issue);
    var i :| 0 <= i < |sorted| && sorted[i] == issue;
    var before := (a, b) => r.Before(a, b);
    assert i > 0 ==> before(sorted[0], sorted[i]);
  }

  lemma TailsTie(r: Ranking, a: seq<Issue>, b: seq<Issue>, issue: Issue)
    requires a != [] && b != [] && a[0] == b[0] && TiedWith(r, a, issue) == TiedWith(r, b, issue)
    ensures TiedWith(r, a[1..], issue) == TiedWith(r, b[1..], issue)
  {
    var n := |TiedWith(r, a, issue)| - |TiedWith(r, a[1..], issue)|;
    assert TiedWith(r, a, issue)[n..] == TiedWith(r, a[1..], issue);
    assert TiedWith(r, b, issue)[n..] == TiedWith(r, b[1..], issue);
  }

  /** A stable arrangement is the only one, whatever the ids and the collation. */
  lemma {:induction false} StableOrderIsUnique(r: Ranking, a: seq<Issue>, b: seq<Issue>)
    requires IsCollation(r.collate) && Sorted(r, a) && Sorted(r, b)
    requires forall issue :: TiedWith(r, a, issue) == TiedWith(r, b, issue)
    ensures a == b
    decreases |a|
  {
    if a == [] {
      if b != [] {
        FirstIsDetermined(r, b, a);
      }
    } else {
      FirstIsDetermined(r, a, b);
      forall issue ensures TiedWith(r, a[1..], issue) == TiedWith(r, b[1..], issue) {
        TailsTie(r, a, b, issue);
      }
      assert Sorted(r, a[1..]) && Sorted(r, b[1..]);
      StableOrderIsUnique(r, a[1..], b[1..]);
    }
  }

  /** Puts the issue after every one that does not have to follow it. */
  method InsertSorted(r: Ranking, sorted: seq<Issue>, issue: Issue) returns (longer: seq<Issue>)
    requires IsCollation(r.collate) && Sorted(r, sorted)
    ensures Sorted(r, longer) && Stable(r, longer, sorted + [issue])
  {
    hide Stable;
    var at := |sorted|;
    while at > 0 && !r.Before(sorted[at - 1], issue)
      invariant 0 <= at <= |sorted|
      invariant forall k | at <= k < |sorted| :: r.Before(issue, sorted[k]) && !r.Before(sorted[k], issue)
    {
      BeforeIsTotal(r, sorted[at - 1], issue, issue);
      at := at - 1;
    }
    if at > 0 {
      forall k | 0 <= k < at ensures r.Before(sorted[k], issue) {
        BeforeIsTotal(r, sorted[k], sorted[at - 1], issue);
      }
    }
    ArrangedWithOneMore((a, b) => r.Before(a, b), sorted, at, issue);
    InsertionIsStable(r, sorted, at, issue);
    longer := sorted[..at] + [issue] + sorted[at..];
  }

  lemma InsertionIsStable(r: Ranking, sorted: seq<Issue>, at: nat, issue: Issue)
    requires IsCollation(r.collate) && at <= |sorted|
    requires forall k | at <= k < |sorted| :: !r.Before(sorted[k], issue)
    ensures Stable(r, sorted[..at] + [issue] + sorted[at..], sorted + [issue])
  {
    assert sorted[..at] + sorted[at..] == sorted;
    forall other ensures TiedWith(r, sorted[..at] + [issue] + sorted[at..], other) == TiedWith(r, sorted + [issue], other) {
      TiedWithInserted(r, sorted[..at], issue, sorted[at..], other);
    }
  }

  lemma StableStep(r: Ranking, issues: seq<Issue>, ranked: seq<Issue>, issue: Issue, longer: seq<Issue>)
    requires Stable(r, ranked, issues) && Stable(r, longer, ranked + [issue])
    ensures Stable(r, longer, issues + [issue])
  {
    forall other ensures TiedWith(r, longer, other) == TiedWith(r, issues + [issue], other) {
      assert TiedWith(r, longer, other) == TiedWith(r, ranked + [issue], other);
      TiedOfConcat(r, ranked, [issue], other);
      TiedOfConcat(r, issues, [issue], other);
    }
  }

  /** A copy of the issues in the comparator's order; the list itself is left alone. */
  method RankWithCausalReach(links: seq<Link>, active: set<Id>, issues: seq<Issue>, collate: Collation)
    returns (ranked: seq<Issue>)
    requires IsCollation(collate)
    ensures multiset(ranked) == multiset(issues)
    ensures Sorted(Ranking(links, active, issues, collate), ranked)
    ensures Stable(Ranking(links, active, issues, collate), ranked, issues)
  {
    var r := Ranking(links, active, issues, collate);
    ranked := [];
    for n := 0 to |issues|
      invariant Sorted(r, ranked) && Stable(r, ranked, issues[..n])
    {
      var longer := InsertSorted(r, ranked, issues[n]);
      StableStep(r, issues[..n], ranked, issues[n], longer);
      assert issues[..n + 1] == issues[..n] + [issues[n]];
      ranked := longer;
    }
    assert issues[..|issues|] == issues;
  }

  // ---------- independence of the listing ----------

  ghost predicate DistinctIds(issues: seq<Issue>) {
    forall a, b | a in issues && b in issues && a.checkId == b.checkId :: a == b
  }

  lemma {:induction false} FindIsMembership(issues: seq<Issue>, issue: Issue)
    requires DistinctIds(issues) && issue in issues
    ensures Find(issues, issue.checkId) == Some(issue)
  {
    if issues[0].checkId != issue.checkId {
      FindIsMembership(issues[1..], issue);
    }
  }

  lemma {:induction false} FindFails(issues: seq<Issue>, id: Id)
    requires forall issue | issue in issues :: issue.checkId != id
    ensures Find(issues, id) == None
  {
    if issues != [] {
      FindFails(issues[1..], id);
    }
  }

  lemma FindIgnoresOrder(issues: seq<Issue>, issues': seq<Issue>, id: Id)
    requires DistinctIds(issues) && multiset(issues) == multiset(issues')
    ensures Find(issues, id) == Find(issues', id)
  {
    forall issue ensures issue in issues <==> issue in issues' {
      assert issue in issues <==> issue in multiset(issues);
    }
    if issue :| issue in issues && issue.checkId == id {
      FindIsMembership(issues, issue);
      FindIsMembership(issues', issue);
    } else {
      FindFails(issues, id);
      FindFails(issues', id);
    }
  }

  lemma {:induction false} RankIgnoresOrder(
    links: seq<Link>, active: set<Id>, issues: seq<Issue>, issues': seq<Issue>, issue: Issue)
    requires DistinctIds(issues) && multiset(issues) == multiset(issues')
    ensures EffectiveRank(links, active, issues, issue) == EffectiveRank(links, active, issues', issue)
  {
    if links != [] {
      RankIgnoresOrder(links[..|links| - 1], active, issues, issues', issue);
      FindIgnoresOrder(issues, issues', links[|links| - 1].effect);
    }
  }

  /** Listing the same issues in another order gives the same ranking. */
  lemma RankingIgnoresListing(
    links: seq<Link>, active: set<Id>, issues: seq<Issue>, issues': seq<Issue>, collate: Collation,
    ranked: seq<Issue>, ranked': seq<Issue>)
    requires IsCollation(collate) && Separates(collate) && DistinctIds(issues) && multiset(issues) == multiset(issues')
    requires multiset(ranked) == multiset(issues) && Sorted(Ranking(links, active, issues, collate), ranked)
    requires multiset(ranked') == multiset(issues') && Sorted(Ranking(links, active, issues', collate), ranked')
    ensures ranked == ranked'
  {
    var r, r' := Ranking(links, active, issues, collate), Ranking(links, active, issues', collate);
    forall a, b ensures r.Before(a, b) <==> r'.Before(a, b) {
      RankIgnoresOrder(links, active, issues, issues', a);
      RankIgnoresOrder(links, active, issues, issues', b);
    }
    forall x, y | x in ranked && y in ranked && r.Before(x, y) && r.Before(y, x) ensures x == y {
      BeforeIsTotal(r, x, y, y);
      assert x in multiset(ranked) && y in multiset(ranked);
    }
    ArrangementIsUnique((a, b) => r.Before(a, b), ranked, ranked');
  }

  // ---------- the order in plain words ----------

  /** Critical ranks before high, high before medium, medium before low, and low before anything else. */
  lemma SeveritiesInOrder(severity: string)
    ensures SeverityRank("critical") < SeverityRank("high") < SeverityRank("medium") < SeverityRank("low")
    ensures severity !in {"critical", "high", "medium", "low"} ==> SeverityRank("low") < SeverityRank(severity) == 4
  {
    assert "critical"[0] != "high"[0] && "medium"[0] != "low"[0];
  }

  /** The rank of an issue is the best among its own and those of the issues its links affect. */
  lemma RankIsTold(links: seq<Link>, active: set<Id>, issues: seq<Issue>, issue: Issue)
    ensures var rank := EffectiveRank(links, active, issues, issue);
            && rank <= SeverityRank(issue.severity)
            && (forall k, n | IsAffected(links, active, issues, issue, k, n) :: rank <= SeverityRank(issues[n].severity))
            && (rank == SeverityRank(issue.severity)
                || exists k, n :: IsAffected(links, active, issues, issue, k, n) && rank == SeverityRank(issues[n].severity))
  {
    EffectiveRankIsBest(links, active, issues, issue);
    var rank := EffectiveRank(links, active, issues, issue);
    forall k, n | IsAffected(links, active, issues, issue, k, n) ensures rank <= SeverityRank(issues[n].severity) {
      FirstIsFound(issues, links[k].effect, n);
    }
    if rank != SeverityRank(issue.severity) {
      var k :| 0 <= k < |links| && Affected(links[k], active, issues, issue).Some?
               && rank == SeverityRank(Affected(links[k], active, issues, issue).value.severity);
      var n := FoundIsFirst(issues, links[k].effect);
      assert IsAffected(links, active, issues, issue, k, n);
    }
  }

  /** The `k`th link leads from the issue to an active check, and the `n`th issue is the first listed under it. */
  ghost predicate IsAffected(links: seq<Link>, active: set<Id>, issues: seq<Issue>, issue: Issue, k: int, n: int) {
    && 0 <= k < |links| && links[k].cause == issue.checkId && links[k].effect in active
    && 0 <= n < |issues| && issues[n].checkId == links[k].effect
    && forall m | 0 <= m < n :: issues[m].checkId != links[k].effect
  }

  lemma {:induction false} FirstIsFound(issues: seq<Issue>, id: Id, n: nat)
    requires n < |issues| && issues[n].checkId == id && forall m | 0 <= m < n :: issues[m].checkId != id
    ensures Find(issues, id) == Some(issues[n])
  {
    if n > 0 {
      FirstIsFound(issues[1..], id, n - 1);
    }
  }

  lemma {:induction false} FoundIsFirst(issues: seq<Issue>, id: Id) returns (n: nat)
    requires Find(issues, id).Some?
    ensures n < |issues| && issues[n].checkId == id && forall m | 0 <= m < n :: issues[m].checkId != id
    ensures Find(issues, id) == Some(issues[n])
  {
    if issues[0].checkId == id {
      n := 0;
    } else {
      var rest := FoundIsFirst(issues[1..], id);
      n := rest + 1;
    }
  }

  /** Of two ranked issues the earlier has the better rank, or the same and the better severity, or the same again and no later id. */
  lemma SortedIsTold(r: Ranking, ranked: seq<Issue>, i: nat, j: nat)
    requires Sorted(r, ranked) && i < j < |ranked|
    ensures var a, b := ranked[i], ranked[j];
            var rankA, rankB := EffectiveRank(r.links, r.active, r.issues, a), EffectiveRank(r.links, r.active, r.issues, b);
            rankA < rankB
            || (rankA == rankB
                && (SeverityRank(a.severity) < SeverityRank(b.severity)
                    || (SeverityRank(a.severity) == SeverityRank(b.severity)
                        && r.collate(a.checkId.name, b.checkId.name) <= 0)))
  {
    var before := (a, b) => r.Before(a, b);
    assert before(ranked[i], ranked[j]);
  }
}
