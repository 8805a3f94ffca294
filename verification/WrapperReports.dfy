/**
 * What the wrapper tracker reports on every source, bracketed well or not, told
 * from the characters themselves: a call is reported exactly when the latest
 * signature is async and no wrapper before it is still open.
 */
module WrapperReports {
  import opened Wrappers
  import opened WrapperTracker

  // ---------- positions ----------

  /** The lines as one sequence: each line's start, then its characters. */
  function Sequence(lines: seq<Line>): seq<Event> {
    if lines == [] then []
    else Sequence(lines[..|lines| - 1]) + LineEvents(lines[|lines| - 1])
  }

  function LineEvents(line: Line): seq<Event> {
    [LineStart(line.signature)] + seq(|line.marks|, k requires 0 <= k < |line.marks| => Char(line.marks[k]))
  }

  /** Where a line starts in the sequence. */
  function Offset(lines: seq<Line>, n: nat): nat
    requires n <= |lines|
  {
    if n == 0 then 0 else Offset(lines, n - 1) + 1 + |lines[n - 1].marks|
  }

  lemma LineHolds(line: Line)
    ensures |LineEvents(line)| == 1 + |line.marks| && LineEvents(line)[0] == LineStart(line.signature)
    ensures forall k | 0 <= k < |line.marks| :: LineEvents(line)[1 + k] == Char(line.marks[k])
  {
  }

  /** This line and every mark of it stand in the sequence from the offset on. */
  ghost predicate HoldsLine(events: seq<Event>, offset: nat, line: Line) {
    && offset + |line.marks| < |events|
    && events[offset] == LineStart(line.signature)
    && forall k | 0 <= k < |line.marks| :: events[offset + 1 + k] == Char(line.marks[k])
  }

  lemma HeldMark(events: seq<Event>, offset: nat, line: Line, k: nat)
    requires HoldsLine(events, offset, line) && k < |line.marks|
    ensures offset + 1 + k < |events| && events[offset + 1 + k] == Char(line.marks[k])
  {
  }

  lemma HoldsLineAtEnd(before: seq<Event>, line: Line)
    ensures HoldsLine(before + LineEvents(line), |before|, line)
  {
    LineHolds(line);
    forall k | 0 <= k < |line.marks| ensures (before + LineEvents(line))[|before| + 1 + k] == Char(line.marks[k]) {
      assert (before + LineEvents(line))[|before| + 1 + k] == LineEvents(line)[1 + k];
    }
  }

  lemma HoldsLineStill(before: seq<Event>, offset: nat, line: Line, more: seq<Event>)
    requires HoldsLine(before, offset, line)
    ensures HoldsLine(before + more, offset, line)
  {
  }

  /** Every line stands in its place. */
  lemma {:induction false} SequenceHoldsLines(lines: seq<Line>, n: nat)
    requires n < |lines|
    ensures |Sequence(lines)| == Offset(lines, |lines|)
    ensures HoldsLine(Sequence(lines), Offset(lines, n), lines[n])
    decreases |lines|
  {
    hide HoldsLine, LineEvents;
    var before, last := lines[..|lines| - 1], lines[|lines| - 1];
    LineHolds(last);
    OffsetOfPrefix(lines, before, |before|);
    HoldsLineAtEnd(Sequence(before), last);
    if before != [] {
      SequenceHoldsLines(before, if n < |before| then n else 0);
    }
    if n < |before| {
      OffsetOfPrefix(lines, before, n);
      HoldsLineStill(Sequence(before), Offset(before, n), lines[n], LineEvents(last));
    }
  }

  lemma {:induction false} OffsetOfPrefix(lines: seq<Line>, before: seq<Line>, n: nat)
    requires n <= |before| <= |lines| && before == lines[..|before|]
    ensures Offset(lines, n) == Offset(before, n)
  {
    if n > 0 {
      OffsetOfPrefix(lines, before, n - 1);
      assert before[n - 1] == lines[n - 1];
    }
  }

  // ---------- what the characters say ----------

  function Opens(event: Event): bool {
    event.Char? && (event.mark.c == '{' || event.mark.c == '(')
  }

  function Closes(event: Event): bool {
    event.Char? && (event.mark.c == '}' || event.mark.c == ')')
  }

  /** Opening minus closing brackets before the `n`th event. */
  function DepthAt(events: seq<Event>, n: nat): int
    requires n <= |events|
  {
    if n == 0 then 0
    else DepthAt(events, n - 1) + if Opens(events[n - 1]) then 1 else if Closes(events[n - 1]) then -1 else 0
  }

  /** A wrapper begins at `p`, and no bracket closed before `n` has brought the depth back to where it began. */
  ghost predicate IsOpenAt(events: seq<Event>, p: int, n: nat)
    requires n <= |events|
  {
    && 0 <= p < n && events[p].Char? && events[p].mark.startsWrapper
    && forall x | p <= x < n && Closes(events[x]) :: DepthAt(events, x + 1) > DepthAt(events, p)
  }

  /** The number of lines begun. */
  function LineAt(events: seq<Event>, n: nat): nat
    requires n <= |events|
  {
    if n == 0 then 0 else LineAt(events, n - 1) + if events[n - 1].LineStart? then 1 else 0
  }

  /** The latest line with a signature has an async one. */
  function IsAsyncAt(events: seq<Event>, n: nat): bool
    requires n <= |events|
  {
    if n == 0 then false
    else match events[n - 1]
      case LineStart(Some(isAsync)) => isAsync
      case _ => IsAsyncAt(events, n - 1)
  }

  /** A call in an async function, begun while no wrapper is open; a wrapper that begins with the call counts. */
  ghost predicate IsReported(events: seq<Event>, n: nat)
    requires n < |events|
  {
    && events[n].Char? && events[n].mark.startsCall && IsAsyncAt(events, n)
    && !events[n].mark.startsWrapper
    && forall p :: !IsOpenAt(events, p, n)
  }

  /** The lines of the calls reported before the `n`th event, in order. */
  ghost function ReportsUpTo(events: seq<Event>, n: nat): seq<nat>
    requires n <= |events|
  {
    if n == 0 then []
    else ReportsUpTo(events, n - 1) + if IsReported(events, n - 1) then [LineAt(events, n - 1)] else []
  }

  // ---------- the tracker ----------

  function Steps(t: Tracker, events: seq<Event>, n: nat): Tracker
    requires n <= |events|
  {
    if n == 0 then t else AfterEvent(Steps(t, events, n - 1), events[n - 1])
  }

  function AsEvents(events: seq<Event>, n: nat): Events
    requires n <= |events|
    decreases |events| - n
  {
    if n == |events| then Done else Then(events[n], AsEvents(events, n + 1))
  }

  lemma {:induction false} RunIsSteps(t: Tracker, events: seq<Event>, n: nat)
    requires n <= |events|
    ensures Run(Steps(t, events, n), AsEvents(events, n)) == Steps(t, events, |events|)
    decreases |events| - n
  {
    hide AfterEvent;
    if n < |events| {
      RunIsSteps(t, events, n + 1);
    }
  }

  /** The recorded depths never decrease and never lie above the current one. */
  ghost predicate Ascends(open: seq<int>, depth: int) {
    && (forall i, j | 0 <= i < j < |open| :: open[i] <= open[j])
    && forall i | 0 <= i < |open| :: open[i] <= depth
  }

  lemma {:induction false} PoppedKeepsLower(open: seq<int>, depth: int, v: int)
    requires Ascends(open, depth + 1)
    ensures Popped(open, depth) <= open
    ensures v in Popped(open, depth) <==> v in open && v < depth
    ensures Ascends(Popped(open, depth), depth)
    decreases |open|
  {
    if open != [] && depth <= open[|open| - 1] {
      PoppedKeepsLower(open[..|open| - 1], depth, v);
      assert open == open[..|open| - 1] + [open[|open| - 1]];
    }
  }

  /** A wrapper open here began at this depth. */
  ghost predicate IsOpenFrom(events: seq<Event>, p: int, n: nat, depth: int)
    requires n <= |events|
  {
    IsOpenAt(events, p, n) && DepthAt(events, p) == depth
  }

  ghost predicate SomeOpenFrom(events: seq<Event>, n: nat, depth: int)
    requires n <= |events|
  {
    exists p :: IsOpenFrom(events, p, n, depth)
  }

  /** The stack holds exactly the depths at which the wrappers still open began. */
  ghost predicate HoldsOpen(events: seq<Event>, n: nat, open: seq<int>)
    requires n <= |events|
  {
    forall v :: v in open <==> SomeOpenFrom(events, n, v)
  }

  /** The tracker's variables before the `n`th event. */
  ghost predicate Tracks(events: seq<Event>, n: nat, t: Tracker)
    requires n <= |events|
  {
    && t.line == LineAt(events, n) && t.isAsync == IsAsyncAt(events, n) && t.depth == DepthAt(events, n)
    && t.findings == ReportsUpTo(events, n)
    && Ascends(t.open, t.depth) && HoldsOpen(events, n, t.open)
  }

  /** A wrapper begins with this event, at this depth. */
  ghost predicate BeginsHere(events: seq<Event>, n: nat, depth: int)
    requires n < |events|
  {
    events[n].Char? && events[n].mark.startsWrapper && DepthAt(events, n) == depth
  }

  /** Unless a bracket closes, the wrappers open stay so, and one that begins here joins them. */
  lemma OpenStays(events: seq<Event>, n: nat, p: int, v: int)
    requires n < |events| && !Closes(events[n])
    ensures IsOpenFrom(events, p, n + 1, v) <==> IsOpenFrom(events, p, n, v) || (p == n && BeginsHere(events, n, v))
  {
  }

  /** A closing bracket ends the wrappers to whose depth it returns. */
  lemma OpenCloses(events: seq<Event>, n: nat, p: int, v: int)
    requires n < |events| && Closes(events[n])
    ensures IsOpenFrom(events, p, n + 1, v) <==>
            (IsOpenFrom(events, p, n, v) || (p == n && BeginsHere(events, n, v))) && v < DepthAt(events, n + 1)
  {
  }

  lemma OpenAfter(events: seq<Event>, n: nat, p: int, v: int)
    requires n < |events|
    ensures IsOpenFrom(events, p, n + 1, v) <==>
            && (IsOpenFrom(events, p, n, v) || (p == n && BeginsHere(events, n, v)))
            && (Closes(events[n]) ==> v < DepthAt(events, n + 1))
  {
    hide IsOpenFrom, BeginsHere, DepthAt;
    if Closes(events[n]) {
      OpenCloses(events, n, p, v);
    } else {
      OpenStays(events, n, p, v);
    }
  }

  /** Which depths wrappers are open from after an event. */
  lemma DepthsAfter(events: seq<Event>, n: nat, v: int)
    requires n < |events|
    ensures SomeOpenFrom(events, n + 1, v) <==>
            && (SomeOpenFrom(events, n, v) || BeginsHere(events, n, v))
            && (Closes(events[n]) ==> v < DepthAt(events, n + 1))
  {
    hide IsOpenFrom, BeginsHere, DepthAt;
    if SomeOpenFrom(events, n + 1, v) {
      var p :| IsOpenFrom(events, p, n + 1, v);
      OpenAfter(events, n, p, v);
    }
    if SomeOpenFrom(events, n, v) {
      var p :| IsOpenFrom(events, p, n, v);
      OpenAfter(events, n, p, v);
    }
    OpenAfter(events, n, n, v);
  }

  /** The stack after a wrapper token, if one begins here. */
  function Pushed(event: Event, t: Tracker): seq<int> {
    if event.Char? && event.mark.startsWrapper then t.open + [t.depth] else t.open
  }

  lemma PushedHolds(events: seq<Event>, n: nat, t: Tracker, v: int)
    requires n < |events| && Tracks(events, n, t)
    ensures v in Pushed(events[n], t) <==>
            SomeOpenFrom(events, n, v) || BeginsHere(events, n, v)
    ensures Ascends(Pushed(events[n], t), t.depth)
  {
    hide IsOpenFrom, ReportsUpTo;
    assert v in t.open <==> SomeOpenFrom(events, n, v);
  }

  /** The stack after an event, told from the stack after the wrapper token that it may begin. */
  lemma StackAfter(t: Tracker, event: Event)
    ensures var t' := AfterEvent(t, event);
            if Closes(event) then t'.open == Popped(Pushed(event, t), t.depth - 1) && t'.depth == t.depth - 1
            else t'.open == Pushed(event, t) && t'.depth == if Opens(event) then t.depth + 1 else t.depth
  {
  }

  lemma StackIsTracked(events: seq<Event>, n: nat, t: Tracker, t': Tracker)
    requires n < |events| && Tracks(events, n, t) && t' == AfterEvent(t, events[n])
    ensures Ascends(t'.open, t'.depth) && HoldsOpen(events, n + 1, t'.open)
  {
    hide Tracks, IsOpenFrom, AfterEvent;
    forall v ensures v in t'.open <==> SomeOpenFrom(events, n + 1, v) {
      StackHolds(events, n, t, t', v);
    }
    StackHolds(events, n, t, t', 0);
  }

  lemma StackHolds(events: seq<Event>, n: nat, t: Tracker, t': Tracker, v: int)
    requires n < |events| && Tracks(events, n, t) && t' == AfterEvent(t, events[n])
    ensures v in t'.open <==> SomeOpenFrom(events, n + 1, v)
    ensures Ascends(t'.open, t'.depth)
  {
    hide IsOpenFrom, BeginsHere, HoldsOpen, ReportsUpTo, AfterEvent, Popped, Pushed;
    PushedHolds(events, n, t, v);
    StackAfter(t, events[n]);
    DepthsAfter(events, n, v);
    if Closes(events[n]) {
      PoppedKeepsLower(Pushed(events[n], t), t.depth - 1, v);
    }
  }

  lemma NothingOpen(events: seq<Event>, n: nat, t: Tracker)
    requires n < |events| && Tracks(events, n, t)
    ensures t.open == [] <==> forall p :: !IsOpenAt(events, p, n)
  {
    hide ReportsUpTo;
    if t.open != [] {
      assert t.open[0] in t.open;
      var p :| IsOpenFrom(events, p, n, t.open[0]);
      assert IsOpenAt(events, p, n);
    }
    if p :| IsOpenAt(events, p, n) {
      assert IsOpenFrom(events, p, n, DepthAt(events, p));
      assert DepthAt(events, p) in t.open;
    }
  }

  lemma EventIsTold(events: seq<Event>, n: nat, t: Tracker)
    requires n < |events| && Tracks(events, n, t)
    ensures Tracks(events, n + 1, AfterEvent(t, events[n]))
  {
    hide IsOpenAt, HoldsOpen;
    NothingOpen(events, n, t);
    StackIsTracked(events, n, t, AfterEvent(t, events[n]));
  }

  lemma {:induction false} StepsAreTold(events: seq<Event>, n: nat)
    requires n <= |events|
    ensures Tracks(events, n, Steps(INITIAL, events, n))
  {
    if n > 0 {
      StepsAreTold(events, n - 1);
      EventIsTold(events, n - 1, Steps(INITIAL, events, n - 1));
    }
  }

  // ---------- the lines ----------

  lemma {:induction false} LinesAreSequence(lines: seq<Line>, n: nat)
    requires n <= |lines|
    ensures |Sequence(lines)| == Offset(lines, |lines|) >= Offset(lines, n)
    ensures EventsFrom(lines, n) == AsEvents(Sequence(lines), Offset(lines, n))
    decreases |lines| - n
  {
    if n == |lines| {
      if n > 0 {
        SequenceHoldsLines(lines, n - 1);
      }
    } else {
      LinesAreSequence(lines, n + 1);
      SequenceHoldsLines(lines, n);
      MarksAreSequence(lines, n, 0);
    }
  }

  lemma {:induction false} MarksAreSequence(lines: seq<Line>, n: nat, k: nat)
    requires n < |lines| && k <= |lines[n].marks|
    requires Offset(lines, n + 1) <= |Sequence(lines)|
    requires EventsFrom(lines, n + 1) == AsEvents(Sequence(lines), Offset(lines, n + 1))
    ensures MarksFrom(lines[n].marks, k, EventsFrom(lines, n + 1)) == AsEvents(Sequence(lines), Offset(lines, n) + 1 + k)
    decreases |lines[n].marks| - k
  {
    hide HoldsLine, Sequence;
    if k < |lines[n].marks| {
      MarksAreSequence(lines, n, k + 1);
      SequenceHoldsLines(lines, n);
      HeldMark(Sequence(lines), Offset(lines, n), lines[n], k);
    }
  }

  /**
   * On every source the tracker's findings are the lines of exactly the calls
   * told above, in their order.
   */
  lemma FindingsAreReports(lines: seq<Line>)
    ensures var events := Sequence(lines);
            Run(INITIAL, EventsFrom(lines, 0)).findings == ReportsUpTo(events, |events|)
  {
    hide Tracks;
    var events := Sequence(lines);
    LinesAreSequence(lines, 0);
    RunIsSteps(INITIAL, events, 0);
    StepsAreTold(events, |events|);
    TrackedFindings(events, |events|, Steps(INITIAL, events, |events|));
  }

  lemma TrackedFindings(events: seq<Event>, n: nat, t: Tracker)
    requires n <= |events| && Tracks(events, n, t)
    ensures t.findings == ReportsUpTo(events, n)
  {
  }

  /** The latest signature up to this line is an async one. */
  ghost predicate LatestIsAsync(lines: seq<Line>, n: nat)
    requires n < |lines|
  {
    exists m :: 0 <= m <= n && lines[m].signature == Some(true) && forall j | m < j <= n :: lines[j].signature == None
  }

  lemma LatestGoesOn(lines: seq<Line>, n: nat)
    requires n < |lines|
    ensures LatestIsAsync(lines, n) <==>
            lines[n].signature == Some(true) || (lines[n].signature == None && n > 0 && LatestIsAsync(lines, n - 1))
  {
    if LatestIsAsync(lines, n) {
      var m :| 0 <= m <= n && lines[m].signature == Some(true) && forall j | m < j <= n :: lines[j].signature == None;
    }
    if lines[n].signature == None && n > 0 && LatestIsAsync(lines, n - 1) {
      var m :| 0 <= m < n && lines[m].signature == Some(true) && forall j | m < j < n :: lines[j].signature == None;
      assert 0 <= m <= n;
    }
  }

  /** Before each mark of a line, that line's number is current, and so is the latest signature up to it. */
  lemma {:induction false} MarkPosition(lines: seq<Line>, n: nat, k: nat)
    requires n < |lines| && k <= |lines[n].marks|
    ensures Offset(lines, n) + 1 + k <= |Sequence(lines)|
    ensures LineAt(Sequence(lines), Offset(lines, n) + 1 + k) == n + 1
    ensures IsAsyncAt(Sequence(lines), Offset(lines, n) + 1 + k) <==> LatestIsAsync(lines, n)
    decreases n, k
  {
    hide HoldsLine, Sequence, LatestIsAsync;
    var events := Sequence(lines);
    SequenceHoldsLines(lines, n);
    if k > 0 {
      MarkPosition(lines, n, k - 1);
      HeldMark(events, Offset(lines, n), lines[n], k - 1);
    } else {
      HeldStart(events, Offset(lines, n), lines[n]);
      LatestGoesOn(lines, n);
      if n > 0 {
        MarkPosition(lines, n - 1, |lines[n - 1].marks|);
      }
    }
  }

  lemma HeldStart(events: seq<Event>, offset: nat, line: Line)
    requires HoldsLine(events, offset, line)
    ensures offset + |line.marks| < |events| && events[offset] == LineStart(line.signature)
  {
  }

  /** Told from the lines: the mark is reported exactly if a call begins there, the latest signature is async and no wrapper is open. */
  lemma MarkIsReported(lines: seq<Line>, n: nat, k: nat)
    requires n < |lines| && k < |lines[n].marks|
    ensures var at := Offset(lines, n) + 1 + k;
            && at < |Sequence(lines)| && LineAt(Sequence(lines), at) == n + 1
            && (IsReported(Sequence(lines), at) <==>
                  && lines[n].marks[k].startsCall && LatestIsAsync(lines, n)
                  && !lines[n].marks[k].startsWrapper && forall p :: !IsOpenAt(Sequence(lines), p, at))
  {
    hide HoldsLine, Sequence, IsOpenAt;
    SequenceHoldsLines(lines, n);
    HeldMark(Sequence(lines), Offset(lines, n), lines[n], k);
    MarkPosition(lines, n, k);
  }

  /** A line's start is never reported. */
  lemma LineStartIsNotReported(lines: seq<Line>, n: nat)
    requires n < |lines|
    ensures Offset(lines, n) < |Sequence(lines)| && !IsReported(Sequence(lines), Offset(lines, n))
  {
    hide HoldsLine, Sequence;
    SequenceHoldsLines(lines, n);
    HeldStart(Sequence(lines), Offset(lines, n), lines[n]);
  }

  /** The number of the first `k` marks of a line that begin a call. */
  function Calls(line: Line, k: nat): nat
    requires k <= |line.marks|
  {
    if k == 0 then 0 else Calls(line, k - 1) + if line.marks[k - 1].startsCall then 1 else 0
  }

  /** The findings without wrappers: each line that follows an async signature, once for each call on it. */
  ghost function Uncovered(lines: seq<Line>, n: nat): seq<nat>
    requires n <= |lines|
  {
    if n == 0 then []
    else Uncovered(lines, n - 1)
         + if LatestIsAsync(lines, n - 1) then seq(Calls(lines[n - 1], |lines[n - 1].marks|), _ => n) else []
  }

  ghost predicate NoWrappers(lines: seq<Line>) {
    forall i, k | 0 <= i < |lines| && 0 <= k < |lines[i].marks| :: !lines[i].marks[k].startsWrapper
  }

  lemma {:induction false} NothingBegins(lines: seq<Line>, p: nat)
    requires NoWrappers(lines) && p < |Sequence(lines)|
    ensures Sequence(lines)[p].Char? ==> !Sequence(lines)[p].mark.startsWrapper
    decreases |lines|
  {
    var before, last := lines[..|lines| - 1], lines[|lines| - 1];
    if p < |Sequence(before)| {
      NothingBegins(before, p);
    } else {
      LineHolds(last);
      assert Sequence(lines)[p] == LineEvents(last)[p - |Sequence(before)|];
      assert lines[|lines| - 1] == last;
      if p > |Sequence(before)| {
        assert LineEvents(last)[1 + (p - |Sequence(before)| - 1)] == Char(last.marks[p - |Sequence(before)| - 1]);
      }
    }
  }

  lemma NothingIsOpen(lines: seq<Line>, n: nat)
    requires NoWrappers(lines) && n <= |Sequence(lines)|
    ensures forall p :: !IsOpenAt(Sequence(lines), p, n)
  {
    hide NoWrappers, Sequence;
    forall p ensures !IsOpenAt(Sequence(lines), p, n) {
      if 0 <= p < n {
        NothingBegins(lines, p);
      }
    }
  }

  lemma {:induction false} ReportsWithoutWrappers(lines: seq<Line>, n: nat, k: nat)
    requires NoWrappers(lines) && n < |lines| && k <= |lines[n].marks|
    ensures Offset(lines, n) + 1 + k <= |Sequence(lines)|
    ensures ReportsUpTo(Sequence(lines), Offset(lines, n) + 1 + k)
         == Uncovered(lines, n) + if LatestIsAsync(lines, n) then seq(Calls(lines[n], k), _ => n + 1) else []
    decreases n, k
  {
    hide Sequence, IsReported, LatestIsAsync, HoldsLine, NoWrappers, IsOpenAt;
    var events := Sequence(lines);
    SequenceHoldsLines(lines, n);
    HeldStart(events, Offset(lines, n), lines[n]);
    if k > 0 {
      ReportsWithoutWrappers(lines, n, k - 1);
      MarkIsReported(lines, n, k - 1);
      NothingIsOpen(lines, Offset(lines, n) + k);
      MarkStartsNothing(lines, n, k - 1);
      OneMore(Uncovered(lines, n), Calls(lines[n], k - 1), n + 1);
    } else {
      LineStartIsNotReported(lines, n);
      if n > 0 {
        ReportsWithoutWrappers(lines, n - 1, |lines[n - 1].marks|);
      } else {
        assert ReportsUpTo(events, 0) == [];
      }
    }
  }

  lemma MarkStartsNothing(lines: seq<Line>, n: nat, k: nat)
    requires NoWrappers(lines) && n < |lines| && k < |lines[n].marks|
    ensures !lines[n].marks[k].startsWrapper
  {
  }

  lemma OneMore(before: seq<nat>, count: nat, n: nat)
    ensures before + seq(count, _ => n) + [n] == before + seq(count + 1, _ => n)
    ensures before + seq(0, _ => n) == before
  {
  }

  /** Without wrappers the findings are each line after an async signature, once for each call on it. */
  lemma FindingsWithoutWrappers(lines: seq<Line>)
    requires NoWrappers(lines)
    ensures Run(INITIAL, EventsFrom(lines, 0)).findings == Uncovered(lines, |lines|)
  {
    hide Sequence, LatestIsAsync, NoWrappers;
    FindingsAreReports(lines);
    if lines != [] {
      ReportsWithoutWrappers(lines, |lines| - 1, |lines[|lines| - 1].marks|);
      SequenceHoldsLines(lines, 0);
    } else {
      NoLines();
    }
  }

  lemma NoLines()
    ensures Sequence([]) == []
  {
  }
}
