/**
 * Breadth-first search over causal links, in either direction, recording the
 * path by which each check was found.
 */
module CausalSearch {
  import opened CausalGraph

  /** Towards causes the search stops after `DEPTH_LIMIT` links; towards effects it is unbounded. */
  datatype Direction = ToCauses | ToEffects

  const DEPTH_LIMIT := 4

  /** A way from the start of a search, built up one link at a time. */
  datatype Path = Start | Via(before: Path, last: Id)
  {
    function Depth(): nat {
      if Start? then 0 else before.Depth() + 1
    }

    /** The checks met, without the start. */
    function Nodes(): seq<Id> {
      if Start? then [] else before.Nodes() + [last]
    }
  }

  datatype Query = Query(direction: Direction, links: seq<Link>, active: set<Id>, start: Id)
  {
    function From(link: Link): Id {
      if direction == ToCauses then link.effect else link.cause
    }

    function To(link: Link): Id {
      if direction == ToCauses then link.cause else link.effect
    }

    function End(path: Path): Id {
      if path.Start? then start else path.last
    }

    /** Whether the search looks for links beyond a check that is `depth` links away. */
    predicate MayLeave(id: Id, depth: nat) {
      match direction
      case ToCauses => depth < DEPTH_LIMIT
      case ToEffects => id.name != ""
    }

    predicate Expandable(path: Path) {
      MayLeave(End(path), path.Depth())
    }

    /** Some link goes from one check to another that is active. */
    ghost predicate Leads(from: Id, to: Id) {
      to in active && exists i | 0 <= i < |links| :: From(links[i]) == from && To(links[i]) == to
    }

    /** Each check of the path is active and linked to the one before it. */
    ghost predicate IsWalk(path: Path) {
      path.Start? || (IsWalk(path.before) && Expandable(path.before) && Leads(End(path.before), path.last))
    }
  }

  // ---------- the search ----------

  /** The checks found so far. */
  ghost function Ids(log: seq<Path>): set<Id> {
    set path | path in log && path.Via? :: path.last
  }

  lemma IdsOfAppended(log: seq<Path>, before: Path, last: Id)
    ensures Ids(log + [Via(before, last)]) == Ids(log) + {last}
  {
    var path := Via(before, last);
    assert path in log + [path];
    assert forall p | p in log :: p in log + [path];
    assert forall p | p in log + [path] :: p in log || p == path;
  }

  /** The log after the first `k` links were tried from the end of `path`. */
  ghost function Scan(q: Query, path: Path, log: seq<Path>, k: nat): seq<Path>
    requires k <= |q.links|
  {
    if k == 0 then log else ScanLink(q, path, Scan(q, path, log, k - 1), q.links[k - 1])
  }

  /** One link: a check it leads to is recorded unless it was found before. */
  ghost function ScanLink(q: Query, path: Path, log: seq<Path>, link: Link): seq<Path> {
    if q.From(link) == q.End(path) && q.To(link) in q.active && q.To(link) !in Ids(log)
    then log + [Via(path, q.To(link))]
    else log
  }

  /** The log only grows, and each new entry is for a check not found before. */
  ghost predicate Extends(q: Query, log: seq<Path>, after: seq<Path>) {
    && log <= after
    && Ids(log) <= Ids(after) <= Ids(log) + q.active
    && (after == log || Ids(log) < Ids(after))
  }

  lemma {:induction false} ScanExtends(q: Query, path: Path, log: seq<Path>, k: nat)
    requires k <= |q.links|
    ensures Extends(q, log, Scan(q, path, log, k))
  {
    if k > 0 {
      ScanExtends(q, path, log, k - 1);
      IdsOfAppended(Scan(q, path, log, k - 1), path, q.To(q.links[k - 1]));
    }
  }

  ghost function ScanAll(q: Query, path: Path, log: seq<Path>): (after: seq<Path>)
    ensures Extends(q, log, after)
  {
    if q.Expandable(path) then
      ScanExtends(q, path, log, |q.links|);
      Scan(q, path, log, |q.links|)
    else log
  }

  /** Runs the search on, from the entry at `head`. */
  ghost function Search(q: Query, log: seq<Path>, head: nat): seq<Path>
    requires head <= |log|
    decreases q.active - Ids(log), |log| - head
  {
    if head == |log| then log else Search(q, ScanAll(q, log[head], log), head + 1)
  }

  /** The start, followed by one path for each check found. */
  ghost function SearchFrom(q: Query): seq<Path> {
    Search(q, [Start], 0)
  }

  /** Entries that are not expanded leave the search where it is. */
  lemma {:induction false} SearchSkips(q: Query, log: seq<Path>, head: nat)
    requires head <= |log|
    requires forall i | head <= i < |log| :: !q.Expandable(log[i])
    ensures Search(q, log, head) == log
    decreases |log| - head
  {
    if head < |log| {
      SearchSkips(q, log, head + 1);
    }
  }

  // ---------- what every step keeps ----------

  /** The check is recorded with a path of at most `size` links. */
  ghost predicate Reaches(log: seq<Path>, id: Id, size: nat) {
    exists path :: path in log && path.Via? && path.last == id && path.Depth() <= size
  }

  ghost predicate Distinct(log: seq<Path>) {
    forall i, j | 1 <= i < j < |log| && log[i].Via? && log[j].Via? :: log[i].last != log[j].last
  }

  ghost predicate Ordered(log: seq<Path>) {
    forall i, j | 0 <= i < j < |log| :: log[i].Depth() <= log[j].Depth()
  }

  ghost predicate AllWalks(q: Query, log: seq<Path>) {
    && log != [] && log[0] == Start
    && forall i | 1 <= i < |log| :: log[i].Via? && q.IsWalk(log[i])
  }

  ghost predicate NoDeeperThan(log: seq<Path>, depth: nat) {
    forall i | 0 <= i < |log| :: log[i].Depth() <= depth
  }

  ghost predicate Sound(q: Query, log: seq<Path>) {
    AllWalks(q, log) && Distinct(log) && Ordered(log)
  }

  /** Everything one link beyond `path` was found, by a path at most one longer. */
  ghost predicate Expanded(q: Query, path: Path, log: seq<Path>) {
    q.Expandable(path) ==> forall id :: q.Leads(q.End(path), id) ==> Reaches(log, id, path.Depth() + 1)
  }

  ghost predicate Invariant(q: Query, log: seq<Path>, head: nat) {
    && head <= |log|
    && Sound(q, log)
    && (head < |log| ==> NoDeeperThan(log, log[head].Depth() + 1))
    && forall i | 0 <= i < head :: Expanded(q, log[i], log)
  }

  lemma AppendKeepsSound(q: Query, log: seq<Path>, path: Path, to: Id)
    requires Sound(q, log) && NoDeeperThan(log, path.Depth() + 1)
    requires q.IsWalk(path) && q.Expandable(path) && q.Leads(q.End(path), to) && to !in Ids(log)
    ensures Sound(q, log + [Via(path, to)]) && NoDeeperThan(log + [Via(path, to)], path.Depth() + 1)
  {
    AppendKeepsDistinct(log, path, to);
    AppendKeepsOrdered(log, Via(path, to));
    assert q.IsWalk(Via(path, to));
  }

  lemma AppendKeepsDistinct(log: seq<Path>, path: Path, to: Id)
    requires Distinct(log) && to !in Ids(log)
    ensures Distinct(log + [Via(path, to)])
  {
    forall i | 1 <= i < |log| && log[i].Via? ensures log[i].last != to {
      assert log[i] in log;
    }
  }

  lemma AppendKeepsOrdered(log: seq<Path>, path: Path)
    requires Ordered(log) && NoDeeperThan(log, path.Depth())
    ensures Ordered(log + [path]) && NoDeeperThan(log + [path], path.Depth())
  {
  }

  /** A sound log that records every active check to which one of the first `k` links leads from the path's end. */
  ghost predicate Scanned(q: Query, path: Path, log: seq<Path>, k: nat)
    requires k <= |q.links|
  {
    && Sound(q, log)
    && NoDeeperThan(log, path.Depth() + 1)
    && forall i | 0 <= i < k ::
         q.From(q.links[i]) == q.End(path) && q.To(q.links[i]) in q.active ==> q.To(q.links[i]) in Ids(log)
  }

  lemma ScanStep(q: Query, path: Path, log: seq<Path>, k: nat)
    requires k < |q.links| && q.IsWalk(path) && q.Expandable(path)
    requires Scanned(q, path, log, k)
    ensures Scanned(q, path, ScanLink(q, path, log, q.links[k]), k + 1)
  {
    var to := q.To(q.links[k]);
    if q.From(q.links[k]) == q.End(path) && to in q.active && to !in Ids(log) {
      AppendKeepsSound(q, log, path, to);
      IdsOfAppended(log, path, to);
    }
  }

  /** Scanning keeps the search sound and misses no link. */
  lemma {:induction false} ScanKeepsSound(q: Query, path: Path, log: seq<Path>, k: nat)
    requires k <= |q.links|
    requires Scanned(q, path, log, 0)
    requires q.IsWalk(path) && q.Expandable(path)
    ensures Scanned(q, path, Scan(q, path, log, k), k)
  {
    hide Scanned, ScanLink;
    if k > 0 {
      ScanKeepsSound(q, path, log, k - 1);
      ScanStep(q, path, Scan(q, path, log, k - 1), k - 1);
    }
  }

  lemma ScanExpands(q: Query, path: Path, log: seq<Path>)
    requires Scanned(q, path, log, 0) && q.IsWalk(path)
    ensures var after := ScanAll(q, path, log);
            Scanned(q, path, after, 0) && Expanded(q, path, after)
  {
    if q.Expandable(path) {
      ScanKeepsSound(q, path, log, |q.links|);
    }
  }

  lemma ExpandedStays(q: Query, path: Path, log: seq<Path>, after: seq<Path>)
    requires log <= after && Expanded(q, path, log)
    ensures Expanded(q, path, after)
  {
    if q.Expandable(path) {
      forall id | q.Leads(q.End(path), id) ensures Reaches(after, id, path.Depth() + 1) {
        var known :| known in log && known.Via? && known.last == id && known.Depth() <= path.Depth() + 1;
        assert known in after;
      }
    }
  }

  lemma StepKeepsInvariant(q: Query, log: seq<Path>, head: nat)
    requires head < |log| && Invariant(q, log, head)
    ensures Invariant(q, ScanAll(q, log[head], log), head + 1)
  {
    var after := ScanAll(q, log[head], log);
    ScanExpands(q, log[head], log);
    if head + 1 < |after| {
      assert after[head].Depth() <= after[head + 1].Depth();
    }
    forall i | 0 <= i < head ensures Expanded(q, after[i], after) {
      ExpandedStays(q, log[i], log, after);
    }
  }

  lemma {:induction false} SearchKeepsInvariant(q: Query, log: seq<Path>, head: nat)
    requires Invariant(q, log, head)
    ensures Invariant(q, Search(q, log, head), |Search(q, log, head)|)
    decreases q.active - Ids(log), |log| - head
  {
    if head < |log| {
      StepKeepsInvariant(q, log, head);
      SearchKeepsInvariant(q, ScanAll(q, log[head], log), head + 1);
    }
  }

  /** A state the search from the start passes through. */
  ghost predicate Running(q: Query, log: seq<Path>, head: nat) {
    Invariant(q, log, head) && Search(q, log, head) == SearchFrom(q)
  }

  lemma RunningStarts(q: Query)
    ensures Running(q, [Start], 0)
  {
  }

  lemma RunningOn(q: Query, log: seq<Path>, head: nat)
    requires head < |log| && Running(q, log, head)
    ensures q.IsWalk(log[head]) && Scanned(q, log[head], log, 0)
    ensures Running(q, ScanAll(q, log[head], log), head + 1)
  {
    StepKeepsInvariant(q, log, head);
  }

  // ---------- what the search finds ----------

  lemma {:induction false} WalksAreFound(q: Query, log: seq<Path>, walk: Path)
    requires Invariant(q, log, |log|)
    requires walk.Via? && q.IsWalk(walk)
    ensures Reaches(log, walk.last, walk.Depth())
  {
    var known := Start;
    if walk.before.Via? {
      WalksAreFound(q, log, walk.before);
      known :| known in log && known.Via? && known.last == walk.before.last && known.Depth() <= walk.before.Depth();
    }
    KnownExtends(q, log, known, walk);
  }

  lemma KnownExtends(q: Query, log: seq<Path>, known: Path, walk: Path)
    requires Invariant(q, log, |log|) && known in log
    requires walk.Via? && q.IsWalk(walk)
    requires q.End(known) == q.End(walk.before) && known.Depth() <= walk.before.Depth()
    ensures Reaches(log, walk.last, walk.Depth())
  {
    var i :| 0 <= i < |log| && log[i] == known;
    assert Expanded(q, log[i], log);
    var path :| path in log && path.Via? && path.last == walk.last && path.Depth() <= known.Depth() + 1;
  }

  /** A path is recorded for every walk's end, at most as long as the walk. */
  ghost predicate FindsEveryWalk(q: Query, log: seq<Path>) {
    forall walk: Path {:trigger Reaches(log, walk.last, walk.Depth())} | walk.Via? && q.IsWalk(walk) ::
      Reaches(log, walk.last, walk.Depth())
  }

  /**
   * Whatever the shape of the graph, cycles included: each check that some walk
   * leads to is found exactly once, nothing else is found, and the recorded
   * path is a walk.
   */
  lemma SearchIsExact(q: Query)
    ensures Sound(q, SearchFrom(q)) && FindsEveryWalk(q, SearchFrom(q))
  {
    SearchKeepsInvariant(q, [Start], 0);
    forall walk: Path | walk.Via? && q.IsWalk(walk) ensures Reaches(SearchFrom(q), walk.last, walk.Depth()) {
      WalksAreFound(q, SearchFrom(q), walk);
    }
  }

  /** No walk to the same check is shorter than the recorded path. */
  lemma RecordedPathsAreShortest(q: Query, path: Path, walk: Path)
    requires path in SearchFrom(q) && path.Via? && walk.Via? && q.IsWalk(walk) && walk.last == path.last
    ensures path.Depth() <= walk.Depth()
  {
    SearchIsExact(q);
    var log := SearchFrom(q);
    assert Reaches(log, walk.last, walk.Depth());
    var best :| best in log && best.Via? && best.last == walk.last && best.Depth() <= walk.Depth();
    OnePathPerCheck(log, path, best);
  }

  lemma OnePathPerCheck(log: seq<Path>, path: Path, other: Path)
    requires Distinct(log) && log != [] && log[0] == Start
    requires path in log && other in log && path.Via? && other.Via? && path.last == other.last
    ensures path == other
  {
    var i :| 0 <= i < |log| && log[i] == path;
    var j :| 0 <= j < |log| && log[j] == other;
  }

  lemma FoundIffWalk(q: Query, id: Id)
    ensures id in Ids(SearchFrom(q)) <==> exists walk: Path :: walk.Via? && q.IsWalk(walk) && walk.last == id
  {
    SearchIsExact(q);
    if walk: Path :| walk.Via? && q.IsWalk(walk) && walk.last == id {
      assert Reaches(SearchFrom(q), id, walk.Depth());
    }
  }
}
