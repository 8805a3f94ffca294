/** Joining fix prompts into one body of bounded length. */
module PromptBatch {

  const MAX_BODY_CHARS := 60000

  const SEPARATOR := "\n\n"

  function Join(entries: seq<string>): string {
    if entries == [] then ""
    else if |entries| == 1 then entries[0]
    else Join(entries[..|entries| - 1]) + SEPARATOR + entries[|entries| - 1]
  }

  /** Characters used up, counting the separator that would follow the last entry. */
  function Used(entries: seq<string>): nat {
    if entries == [] then 0 else Used(entries[..|entries| - 1]) + |entries[|entries| - 1]| + 2
  }

  lemma {:induction false} JoinedLength(entries: seq<string>)
    ensures entries == [] ==> Join(entries) == "" && Used(entries) == 0
    ensures entries != [] ==> |Join(entries)| + 2 == Used(entries)
  {
    if |entries| > 1 {
      JoinedLength(entries[..|entries| - 1]);
    } else if |entries| == 1 {
      assert Used(entries[..0]) == 0;
    }
  }

  lemma UsedAppended(entries: seq<string>, entry: string)
    ensures Used(entries + [entry]) == Used(entries) + |entry| + 2
  {
    assert (entries + [entry])[..|entries|] == entries;
  }

  lemma {:induction false} UsedGrows(entries: seq<string>, n: nat)
    requires n <= |entries|
    ensures Used(entries[..n]) <= Used(entries)
    ensures n < |entries| ==> Used(entries[..n]) + 2 <= Used(entries)
    decreases |entries|
  {
    if n < |entries| {
      var shorter := entries[..|entries| - 1];
      UsedGrows(shorter, n);
      assert shorter[..n] == entries[..n];
    } else {
      assert entries[..n] == entries;
    }
  }

  /** An entry that stops early says so. */
  ghost predicate IsCut(entry: string, full: string) {
    exists n :: 0 <= n <= |full| && entry == full[..n] + "\n..."
  }

  /** The entries used: complete ones, of which only the last may be cut instead. */
  ghost predicate Taken(entries: seq<string>, full: seq<string>) {
    && |entries| <= |full|
    && forall i | 0 <= i < |entries| ::
         entries[i] == full[i] || (i == |entries| - 1 && IsCut(entries[i], full[i]))
  }

  /** The loop's variables before an entry is cut: the first `i` entries are used in full. */
  ghost predicate AllTaken(entries: seq<string>, full: seq<string>, i: nat, remaining: int) {
    && i <= |full| && entries == full[..i]
    && remaining == MAX_BODY_CHARS - Used(entries) >= -2
  }

  /** Once an entry was cut the body is as long as it may be, and the complete entries would not have fitted. */
  ghost predicate CutShort(entries: seq<string>, full: seq<string>) {
    && entries != [] && Taken(entries, full)
    && Used(entries) == MAX_BODY_CHARS + 2 < Used(full)
  }

  lemma TakeWhole(entries: seq<string>, full: seq<string>, i: nat, remaining: int)
    requires AllTaken(entries, full, i, remaining) && i < |full| && |full[i]| <= remaining
    ensures AllTaken(entries + [full[i]], full, i + 1, remaining - (|full[i]| + 2))
  {
    hide Used;
    UsedAppended(entries, full[i]);
    assert entries + [full[i]] == full[..i + 1];
  }

  lemma TakeCut(entries: seq<string>, full: seq<string>, i: nat, remaining: int, cut: string)
    requires AllTaken(entries, full, i, remaining) && i < |full| && 4 < remaining < |full[i]|
    requires cut == full[i][..remaining - 4] + "\n..."
    ensures CutShort(entries + [cut], full)
  {
    hide Used, Taken;
    UsedAppended(entries, cut);
    UsedAppended(entries, full[i]);
    assert entries + [full[i]] == full[..i + 1];
    UsedGrows(full, i + 1);
    CutIsTaken(entries, full, cut, remaining - 4);
  }

  lemma CutIsTaken(entries: seq<string>, full: seq<string>, cut: string, n: nat)
    requires |entries| < |full| && entries == full[..|entries|]
    requires n <= |full[|entries|]| && cut == full[|entries|][..n] + "\n..."
    ensures Taken(entries + [cut], full)
  {
    assert IsCut(cut, full[|entries|]);
  }

  /** What the method promises of the body made of these entries. */
  ghost predicate IsBatch(entries: seq<string>, full: seq<string>, body: string, shortened: bool) {
    && Taken(entries, full) && body == Join(entries)
    && |body| <= MAX_BODY_CHARS
    && (shortened <==> body != Join(full))
    && (shortened ==> |body| >= MAX_BODY_CHARS - 6)
  }

  lemma WholeBatch(entries: seq<string>, full: seq<string>, i: nat, remaining: int)
    requires AllTaken(entries, full, i, remaining) && (i == |full| || remaining <= 4)
    ensures IsBatch(entries, full, Join(entries), |entries| < |full|)
  {
    hide Join, Used, Taken;
    JoinedLength(entries);
    JoinedLength(full);
    UsedGrows(full, i);
    PrefixIsTaken(full, i);
    if i == |full| {
      assert full[..i] == full;
    }
  }

  lemma PrefixIsTaken(full: seq<string>, i: nat)
    requires i <= |full|
    ensures Taken(full[..i], full)
  {
  }

  lemma CutBatch(entries: seq<string>, full: seq<string>)
    requires CutShort(entries, full)
    ensures IsBatch(entries, full, Join(entries), true)
  {
    hide Join, Used, Taken;
    JoinedLength(entries);
    JoinedLength(full);
  }

  /** `full` holds the complete entry of each prompt. */
  method FormatFixPromptBatch(full: seq<string>) returns (body: string, count: nat, shortened: bool)
    ensures |body| <= 60000
    ensures shortened <==> body != Join(full)
    ensures shortened ==> |body| >= 60000 - 6
    ensures exists entries :: Taken(entries, full) && body == Join(entries) && count == |entries|
  {
    hide Join, Used, Taken;
    var entries: seq<string> := [];
    var remaining: int := MAX_BODY_CHARS;
    shortened := false;
    NothingTaken(full);
    var i := 0;
    while i < |full| && !shortened && remaining > 4
      invariant !shortened ==> AllTaken(entries, full, i, remaining)
      invariant shortened ==> CutShort(entries, full)
      decreases |full| - i, !shortened
    {
      var entry := full[i];
      if |entry| > remaining {
        var cut := entry[..remaining - 4] + "\n...";
        TakeCut(entries, full, i, remaining, cut);
        entries := entries + [cut];
        shortened := true;
      } else {
        TakeWhole(entries, full, i, remaining);
        entries := entries + [entry];
        remaining := remaining - (|entry| + 2);
      }
      i := i + 1;
    }
    if shortened {
      CutBatch(entries, full);
    } else {
      WholeBatch(entries, full, i, remaining);
    }
    body := Join(entries);
    count := |entries|;
    shortened := shortened || |entries| < |full|;
  }

  lemma NothingTaken(full: seq<string>)
    ensures AllTaken([], full, 0, MAX_BODY_CHARS)
  {
  }

  /** What entries are taken, spelled out. */
  lemma TakenIsTold(entries: seq<string>, full: seq<string>)
    ensures Taken(entries, full) <==>
            && |entries| <= |full|
            && (forall i | 0 <= i < |entries| - 1 :: entries[i] == full[i])
            && (entries != [] ==>
                  var last := |entries| - 1;
                  entries[last] == full[last]
                  || exists n :: 0 <= n <= |full[last]| && entries[last] == full[last][..n] + "\n...")
  {
    if entries != [] && |entries| <= |full| {
      var last := |entries| - 1;
      assert IsCut(entries[last], full[last]) <==>
             exists n :: 0 <= n <= |full[last]| && entries[last] == full[last][..n] + "\n...";
    }
  }

  // ---------- the join ----------

  lemma JoinAppended(entries: seq<string>, entry: string)
    ensures Join(entries + [entry]) == if entries == [] then entry else Join(entries) + "\n\n" + entry
  {
    assert (entries + [entry])[..|entries|] == entries;
  }

  lemma Regroup(a: string, b: string, c: string, d: string)
    ensures a + b + c + "\n\n" + d == a + b + (c + "\n\n" + d)
  {
  }

  /** Joining puts a blank line between what was joined before and after, and nothing around a single entry. */
  lemma {:induction false} JoinOfConcat(first: seq<string>, second: seq<string>)
    requires first != [] && second != []
    ensures Join(first + second) == Join(first) + "\n\n" + Join(second)
    ensures |second| == 1 ==> Join(second) == second[0]
    decreases |second|
  {
    hide Join;
    var shorter, last := second[..|second| - 1], second[|second| - 1];
    assert second == shorter + [last] && first + second == (first + shorter) + [last];
    JoinAppended(shorter, last);
    JoinAppended(first + shorter, last);
    if shorter == [] {
      assert first + shorter == first;
    } else {
      JoinOfConcat(first, shorter);
      Regroup(Join(first), "\n\n", Join(shorter), last);
    }
  }
}
