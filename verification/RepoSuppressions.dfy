/** Partition of scan rows into kept and ignored ones by a repository's suppression list. */
module RepoSuppressions {
  import opened Wrappers
  import opened GlobPatterns

  datatype Identity = Identity(checkId: string, relativePath: string, occurrence: string)

  /** A scan row; `identity` is absent for rows that are not code findings. */
  datatype Row = Row(number: int, identity: Option<Identity>)

  /** `NoDay` is an expiry text of the right shape that names no calendar day. */
  datatype Expiry = Never | NoDay | Day(day: int)

  datatype Suppression = Suppression(
    path: Option<string>, rule: Option<string>, fingerprint: Option<string>, reason: string, expires: Expiry)

  datatype Ignored = Ignored(row: Row, reason: string)

  type Fingerprinter = Identity -> string

  predicate IsExpired(entry: Suppression, today: int) {
    entry.expires.Day? && entry.expires.day < today
  }

  ghost predicate Hits(entry: Suppression, identity: Identity, fingerprint: string) {
    && (entry.rule.Some? ==> entry.rule.value == identity.checkId)
    && (entry.fingerprint.Some? ==> entry.fingerprint.value == fingerprint)
    && (entry.path.Some? ==> Covers(entry.path.value, identity.relativePath))
  }

  /** The entry suppresses the row on the given day. */
  ghost predicate Suppresses(entry: Suppression, row: Row, fingerprintOf: Fingerprinter, today: int) {
    && !IsExpired(entry, today)
    && row.identity.Some?
    && Hits(entry, row.identity.value, fingerprintOf(row.identity.value))
  }

  /** `first` is the position of the earliest entry that suppresses the row, or the list's length. */
  ghost predicate FirstSuppressor(entries: seq<Suppression>, row: Row, fingerprintOf: Fingerprinter, today: int, first: nat) {
    && first <= |entries|
    && (forall i | 0 <= i < first :: !Suppresses(entries[i], row, fingerprintOf, today))
    && (first < |entries| ==> Suppresses(entries[first], row, fingerprintOf, today))
  }

  /** Why a row is ignored, if it is. */
  ghost function Verdict(entries: seq<Suppression>, row: Row, fingerprintOf: Fingerprinter, today: int): Option<string> {
    if entries == [] then None
    else if Suppresses(entries[0], row, fingerprintOf, today) then Some(entries[0].reason)
    else Verdict(entries[1..], row, fingerprintOf, today)
  }

  type Judge = Row -> Option<string>

  ghost function JudgeOf(entries: seq<Suppression>, fingerprintOf: Fingerprinter, today: int): Judge {
    row => Verdict(entries, row, fingerprintOf, today)
  }

  /** The rows without a verdict, in order. */
  ghost function KeptRows(rows: seq<Row>, judge: Judge): seq<Row> {
    if rows == [] then []
    else
      var last := rows[|rows| - 1];
      KeptRows(rows[..|rows| - 1], judge) + if judge(last).None? then [last] else []
  }

  /** The rows with a verdict, in order and with its reason. */
  ghost function IgnoredRows(rows: seq<Row>, judge: Judge): seq<Ignored> {
    if rows == [] then []
    else
      var last := rows[|rows| - 1];
      IgnoredRows(rows[..|rows| - 1], judge) + if judge(last).None? then [] else [Ignored(last, judge(last).value)]
  }

  method Matches(entry: Suppression, identity: Identity, fingerprint: string) returns (matched: bool)
    ensures matched <==> Hits(entry, identity, fingerprint)
  {
    matched :=
      && (entry.rule.None? || entry.rule.value == identity.checkId)
      && (entry.fingerprint.None? || entry.fingerprint.value == fingerprint);
    if matched && entry.path.Some? {
      matched := PathMatchesSuppression(entry.path.value, identity.relativePath);
    }
  }

  method WithoutExpired(entries: seq<Suppression>, today: int) returns (active: seq<Suppression>)
    ensures active == Unexpired(entries, today)
  {
    hide Unexpired, IsExpired;
    active := [];
    assert entries[0..] == entries;
    for i := 0 to |entries|
      invariant active + Unexpired(entries[i..], today) == Unexpired(entries, today)
    {
      UnexpiredStep(active, entries, today, i);
      if !IsExpired(entries[i], today) { active := active + [entries[i]]; }
    }
    NoneUnexpired(active, entries, today);
  }

  function Unexpired(entries: seq<Suppression>, today: int): seq<Suppression> {
    if entries == [] then []
    else (if IsExpired(entries[0], today) then [] else [entries[0]]) + Unexpired(entries[1..], today)
  }

  /** Moving the next entry to those already kept, unless it has expired. */
  lemma UnexpiredStep(kept: seq<Suppression>, entries: seq<Suppression>, today: int, i: nat)
    requires i < |entries|
    ensures kept + Unexpired(entries[i..], today)
         == (if IsExpired(entries[i], today) then kept else kept + [entries[i]]) + Unexpired(entries[i + 1..], today)
  {
    hide IsExpired;
    assert entries[i..][1..] == entries[i + 1..];
  }

  lemma NoneUnexpired(kept: seq<Suppression>, entries: seq<Suppression>, today: int)
    ensures kept + Unexpired(entries[|entries|..], today) == kept
  {
  }

  /** Dropping the expired entries first changes no verdict. */
  lemma {:induction false} ExpiredEntriesAreInert(entries: seq<Suppression>, row: Row, fingerprintOf: Fingerprinter, today: int)
    ensures Verdict(Unexpired(entries, today), row, fingerprintOf, today) == Verdict(entries, row, fingerprintOf, today)
  {
    if entries != [] {
      ExpiredEntriesAreInert(entries[1..], row, fingerprintOf, today);
      var active := Unexpired(entries, today);
      if IsExpired(entries[0], today) {
        assert active == Unexpired(entries[1..], today);
      } else {
        assert active[1..] == Unexpired(entries[1..], today);
      }
    }
  }

  lemma {:induction false} VerdictIsFirst(
    entries: seq<Suppression>, row: Row, fingerprintOf: Fingerprinter, today: int, first: nat)
    requires FirstSuppressor(entries, row, fingerprintOf, today, first)
    ensures Verdict(entries, row, fingerprintOf, today)
         == if first < |entries| then Some(entries[first].reason) else None
  {
    if first > 0 {
      assert FirstSuppressor(entries[1..], row, fingerprintOf, today, first - 1);
      VerdictIsFirst(entries[1..], row, fingerprintOf, today, first - 1);
    }
  }

  method FindHit(active: seq<Suppression>, identity: Identity, fingerprint: string) returns (first: nat)
    ensures first <= |active|
    ensures forall i | 0 <= i < first :: !Hits(active[i], identity, fingerprint)
    ensures first < |active| ==> Hits(active[first], identity, fingerprint)
  {
    first := 0;
    while first < |active|
      invariant first <= |active|
      invariant forall i | 0 <= i < first :: !Hits(active[i], identity, fingerprint)
    {
      var hit := Matches(active[first], identity, fingerprint);
      if hit { return; }
      first := first + 1;
    }
  }

  method ApplyRepoSuppressions(rows: seq<Row>, entries: seq<Suppression>, fingerprintOf: Fingerprinter, today: int)
    returns (kept: seq<Row>, ignored: seq<Ignored>)
    ensures kept == KeptRows(rows, JudgeOf(entries, fingerprintOf, today))
    ensures ignored == IgnoredRows(rows, JudgeOf(entries, fingerprintOf, today))
  {
    var active := WithoutExpired(entries, today);
    kept, ignored := [], [];
    ghost var judge := JudgeOf(entries, fingerprintOf, today);
    for n := 0 to |rows|
      invariant kept == KeptRows(rows[..n], judge)
      invariant ignored == IgnoredRows(rows[..n], judge)
    {
      var row := rows[n];
      assert rows[..n + 1][..n] == rows[..n];
      ExpiredEntriesAreInert(entries, row, fingerprintOf, today);
      if row.identity.None? {
        VerdictIsFirst(active, row, fingerprintOf, today, |active|);
        kept := kept + [row];
      } else {
        var first := FindHit(active, row.identity.value, fingerprintOf(row.identity.value));
        ActiveEntriesAreUnexpired(entries, today);
        VerdictIsFirst(active, row, fingerprintOf, today, first);
        if first < |active| {
          ignored := ignored + [Ignored(row, active[first].reason)];
        } else {
          kept := kept + [row];
        }
      }
    }
    assert rows[..|rows|] == rows;
  }

  lemma {:induction false} ActiveEntriesAreUnexpired(entries: seq<Suppression>, today: int)
    ensures forall i | 0 <= i < |Unexpired(entries, today)| :: !IsExpired(Unexpired(entries, today)[i], today)
  {
    if entries != [] {
      ActiveEntriesAreUnexpired(entries[1..], today);
    }
  }

  /** `rows` is an order-preserving merge of the two lists: no row is lost, repeated or moved. */
  ghost predicate Merges(rows: seq<Row>, kept: seq<Row>, ignored: seq<Ignored>)
    decreases |rows|
  {
    if rows == [] then kept == [] && ignored == []
    else
      var n, k, i := |rows| - 1, |kept| - 1, |ignored| - 1;
      || (k >= 0 && kept[k] == rows[n] && Merges(rows[..n], kept[..k], ignored))
      || (i >= 0 && ignored[i].row == rows[n] && Merges(rows[..n], kept, ignored[..i]))
  }

  /** Every row ends up on exactly one side, as often as it occurred and in its order. */
  lemma {:induction false} PartitionConservesRows(rows: seq<Row>, judge: Judge)
    ensures Merges(rows, KeptRows(rows, judge), IgnoredRows(rows, judge))
  {
    if rows != [] {
      var n := |rows| - 1;
      PartitionConservesRows(rows[..n], judge);
      var kept, ignored := KeptRows(rows[..n], judge), IgnoredRows(rows[..n], judge);
      if judge(rows[n]).None? {
        assert ignored + [] == ignored;
        assert (kept + [rows[n]])[..|kept|] == kept;
      } else {
        assert kept + [] == kept;
        assert (ignored + [Ignored(rows[n], judge(rows[n]).value)])[..|ignored|] == ignored;
      }
    }
  }

  /** More entries at the end of the list never bring a row back and never change the reason an ignored row carries. */
  lemma {:induction false} LaterEntriesOnlyIgnoreMore(
    entries: seq<Suppression>, more: seq<Suppression>, row: Row, fingerprintOf: Fingerprinter, today: int)
    ensures Verdict(entries + more, row, fingerprintOf, today)
         == if Verdict(entries, row, fingerprintOf, today).Some?
            then Verdict(entries, row, fingerprintOf, today)
            else Verdict(more, row, fingerprintOf, today)
  {
    if entries == [] {
      assert entries + more == more;
    } else {
      assert (entries + more)[1..] == entries[1..] + more;
      LaterEntriesOnlyIgnoreMore(entries[1..], more, row, fingerprintOf, today);
    }
  }

  // ---------- one entry, one row ----------

  /** What a single entry does to a row, in terms of its fields; longer lists follow from their entries one by one. */
  lemma VerdictOfOneEntry(entry: Suppression, row: Row, fingerprintOf: Fingerprinter, today: int)
    ensures Verdict([], row, fingerprintOf, today) == None
    ensures Verdict([entry], row, fingerprintOf, today)
         == if && row.identity.Some?
               && !(entry.expires.Day? && entry.expires.day < today)
               && (entry.rule == None || entry.rule == Some(row.identity.value.checkId))
               && (entry.fingerprint == None || entry.fingerprint == Some(fingerprintOf(row.identity.value)))
               && (entry.path == None || Covers(entry.path.value, row.identity.value.relativePath))
            then Some(entry.reason) else None
  {
    hide Covers;
    assert [entry][1..] == [];
  }

  /** A row is kept exactly when it has no verdict, and ignored with exactly the reason its verdict gives. */
  lemma {:induction false} SidesFollowVerdicts(
    rows: seq<Row>, entries: seq<Suppression>, fingerprintOf: Fingerprinter, today: int, row: Row, reason: string)
    ensures var judge := JudgeOf(entries, fingerprintOf, today);
            && (row in KeptRows(rows, judge) <==> row in rows && Verdict(entries, row, fingerprintOf, today) == None)
            && (Ignored(row, reason) in IgnoredRows(rows, judge)
                <==> row in rows && Verdict(entries, row, fingerprintOf, today) == Some(reason))
    decreases |rows|
  {
    hide Verdict;
    if rows != [] {
      SidesFollowVerdicts(rows[..|rows| - 1], entries, fingerprintOf, today, row, reason);
      assert rows == rows[..|rows| - 1] + [rows[|rows| - 1]];
    }
  }
}
