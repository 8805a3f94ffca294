/**
 * Finding blocking git calls in async functions: a stack of bracket depths
 * stands for the wrapper calls that lexically enclose the current position.
 */
module WrapperTracker {
  import opened Wrappers

  /** A character, and whether a wrapper token or a git call begins at it. */
  datatype Mark = Mark(c: char, startsWrapper: bool, startsCall: bool)

  /** A line, with its function signature if it has one: whether that is `async`. */
  datatype Line = Line(signature: Option<bool>, marks: seq<Mark>)

  // ---------- the scan ----------

  datatype Event = LineStart(signature: Option<bool>) | Char(mark: Mark)

  datatype Events = Done | Then(event: Event, rest: Events)

  /** The variables of the scan; `line` is the number of the current line. */
  datatype Tracker = Tracker(line: nat, isAsync: bool, depth: int, open: seq<int>, findings: seq<nat>)

  predicate IsOpening(c: char) { c == '{' || c == '(' }

  predicate IsClosing(c: char) { c == '}' || c == ')' }

  /** Drops the wrappers whose bracket has closed at this depth. */
  function Popped(open: seq<int>, depth: int): seq<int> {
    if open != [] && depth <= open[|open| - 1] then Popped(open[..|open| - 1], depth) else open
  }

  function AfterMark(t: Tracker, mark: Mark): Tracker {
    var open := if mark.startsWrapper then t.open + [t.depth] else t.open;
    var findings := if mark.startsCall && t.isAsync && open == [] then t.findings + [t.line] else t.findings;
    if IsOpening(mark.c) then t.(open := open, findings := findings, depth := t.depth + 1)
    else if IsClosing(mark.c) then t.(open := Popped(open, t.depth - 1), findings := findings, depth := t.depth - 1)
    else t.(open := open, findings := findings)
  }

  function AfterEvent(t: Tracker, event: Event): Tracker {
    match event
    case LineStart(signature) =>
      t.(line := t.line + 1, isAsync := if signature.Some? then signature.value else t.isAsync)
    case Char(mark) => AfterMark(t, mark)
  }

  function Run(t: Tracker, events: Events): Tracker
    decreases events
  {
    match events
    case Done => t
    case Then(event, rest) => Run(AfterEvent(t, event), rest)
  }

  const INITIAL := Tracker(0, false, 0, [], [])

  function MarksFrom(marks: seq<Mark>, k: nat, rest: Events): Events
    requires k <= |marks|
    decreases |marks| - k
  {
    if k == |marks| then rest else Then(Char(marks[k]), MarksFrom(marks, k + 1, rest))
  }

  /** The events of the lines from the `n`th on. */
  function EventsFrom(lines: seq<Line>, n: nat): Events
    requires n <= |lines|
    decreases |lines| - n
  {
    if n == |lines| then Done
    else Then(LineStart(lines[n].signature), MarksFrom(lines[n].marks, 0, EventsFrom(lines, n + 1)))
  }

  method InlineSyncGitCalls(lines: seq<Line>) returns (findings: seq<nat>)
    ensures findings == Run(INITIAL, EventsFrom(lines, 0)).findings
  {
    findings := [];
    var isAsync := false;
    var depth := 0;
    var openWrappers: seq<int> := [];
    ghost var final := Run(INITIAL, EventsFrom(lines, 0));
    for index := 0 to |lines|
      invariant Run(Tracker(index, isAsync, depth, openWrappers, findings), EventsFrom(lines, index)) == final
    {
      var line := lines[index];
      if line.signature.Some? {
        isAsync := line.signature.value;
      }
      for k := 0 to |line.marks|
        invariant Run(Tracker(index + 1, isAsync, depth, openWrappers, findings),
                      MarksFrom(line.marks, k, EventsFrom(lines, index + 1))) == final
      {
        depth, openWrappers, findings := Track(line.marks[k], index + 1, isAsync, depth, openWrappers, findings);
      }
    }
  }

  /** The body of the inner loop. */
  method Track(mark: Mark, line: nat, isAsync: bool, depth: int, open: seq<int>, findings: seq<nat>)
    returns (depth': int, open': seq<int>, findings': seq<nat>)
    ensures Tracker(line, isAsync, depth', open', findings') == AfterMark(Tracker(line, isAsync, depth, open, findings), mark)
  {
    depth', open', findings' := depth, open, findings;
    if mark.startsWrapper {
      open' := open' + [depth];
    }
    if mark.startsCall && isAsync && open' == [] {
      findings' := findings' + [line];
    }
    if IsOpening(mark.c) {
      depth' := depth' + 1;
    } else if IsClosing(mark.c) {
      depth' := depth' - 1;
      ghost var before := open';
      while open' != [] && depth' <= open'[|open'| - 1]
        invariant Popped(open', depth') == Popped(before, depth')
      {
        open' := open'[..|open'| - 1];
      }
    }
  }

  // ---------- well-nested sources ----------

  /**
   * A source whose brackets match.  `Wrapped` is a wrapper call: the mark its
   * name begins at, the rest of the name, and the bracketed arguments.
   */
  datatype Forest =
    | Empty
    | Leaf(event: Event, rest: Forest)
    | Group(open: Mark, inner: Forest, close: Mark, rest: Forest)
    | Wrapped(start: Mark, name: Name, open: Mark, inner: Forest, close: Mark, rest: Forest)

  datatype Name = NameEnd | NameChar(mark: Mark, tail: Name)

  ghost predicate IsPlain(mark: Mark) {
    !IsOpening(mark.c) && !IsClosing(mark.c) && !mark.startsWrapper
  }

  ghost predicate IsBracket(mark: Mark, opening: bool) {
    && (if opening then IsOpening(mark.c) else IsClosing(mark.c))
    && !mark.startsWrapper && !mark.startsCall
  }

  ghost predicate IsWrapperStart(mark: Mark) {
    !IsOpening(mark.c) && !IsClosing(mark.c) && mark.startsWrapper && !mark.startsCall
  }

  ghost predicate NameReads(name: Name) {
    name.NameChar? ==> IsPlain(name.mark) && !name.mark.startsCall && NameReads(name.tail)
  }

  /** Marks stand where the forest says: brackets begin no token, and only wrapper calls begin wrappers. */
  ghost predicate Nested(forest: Forest) {
    match forest
    case Empty => true
    case Leaf(event, rest) => (event.Char? ==> IsPlain(event.mark)) && Nested(rest)
    case Group(open, inner, close, rest) =>
      IsBracket(open, true) && Nested(inner) && IsBracket(close, false) && Nested(rest)
    case Wrapped(start, name, open, inner, close, rest) =>
      && IsWrapperStart(start) && NameReads(name) && IsBracket(open, true) && Nested(inner) && IsBracket(close, false) && Nested(rest)
  }

  function NameEvents(name: Name, after: Events): Events {
    match name
    case NameEnd => after
    case NameChar(mark, tail) => Then(Char(mark), NameEvents(tail, after))
  }

  /** The forest's marks in order, before those that come after it. */
  function Flat(forest: Forest, after: Events): Events
    decreases forest
  {
    match forest
    case Empty => after
    case Leaf(event, rest) => Then(event, Flat(rest, after))
    case Group(open, inner, close, rest) => Then(Char(open), Flat(inner, Then(Char(close), Flat(rest, after))))
    case Wrapped(start, name, open, inner, close, rest) =>
      Then(Char(start), NameEvents(name, Then(Char(open), Flat(inner, Then(Char(close), Flat(rest, after))))))
  }

  /** What the nesting itself says: the current line and signature, and the lines of the calls no wrapper encloses. */
  datatype Reading = Reading(line: nat, isAsync: bool, findings: seq<nat>)

  function ReadEvent(event: Event, r: Reading, covered: bool): Reading {
    match event
    case LineStart(signature) => Reading(r.line + 1, if signature.Some? then signature.value else r.isAsync, r.findings)
    case Char(mark) => if mark.startsCall && r.isAsync && !covered then r.(findings := r.findings + [r.line]) else r
  }

  function Read(forest: Forest, r: Reading, covered: bool): Reading
    decreases forest
  {
    match forest
    case Empty => r
    case Leaf(event, rest) => Read(rest, ReadEvent(event, r, covered), covered)
    case Group(_, inner, _, rest) => Read(rest, Read(inner, r, covered), covered)
    case Wrapped(_, _, _, inner, _, rest) => Read(rest, Read(inner, r, true), covered)
  }

  // ---------- the stack ----------

  ghost predicate Increasing(open: seq<int>) {
    forall i, j | 0 <= i < j < |open| :: open[i] < open[j]
  }

  /** The recorded depths increase and lie below the current one. */
  ghost predicate Below(open: seq<int>, depth: int) {
    Increasing(open) && forall i | 0 <= i < |open| :: open[i] < depth
  }

  function AsTracker(r: Reading, depth: int, open: seq<int>): Tracker {
    Tracker(r.line, r.isAsync, depth, open, r.findings)
  }

  lemma PoppedNothing(open: seq<int>, depth: int)
    requires Below(open, depth)
    ensures Popped(open, depth) == open
  {
  }

  lemma BelowDeeper(open: seq<int>, depth: int)
    requires Below(open, depth)
    ensures Below(open, depth + 1)
  {
  }

  lemma PoppedOwn(open: seq<int>, depth: int)
    requires Below(open, depth)
    ensures Popped(open + [depth], depth) == open
  {
    assert (open + [depth])[..|open|] == open;
  }

  lemma WrapperIsPushed(r: Reading, start: Mark, depth: int, open: seq<int>)
    requires IsWrapperStart(start) && Below(open, depth)
    ensures AfterMark(AsTracker(r, depth, open), start) == AsTracker(r, depth, open + [depth])
    ensures Below(open + [depth], depth + 1)
  {
  }

  lemma EventIsTracked(event: Event, r: Reading, depth: int, open: seq<int>)
    requires event.Char? ==> IsPlain(event.mark)
    ensures AfterEvent(AsTracker(r, depth, open), event) == AsTracker(ReadEvent(event, r, open != []), depth, open)
  {
  }

  lemma BracketOpens(r: Reading, left: Mark, depth: int, open: seq<int>)
    requires IsBracket(left, true)
    ensures AfterMark(AsTracker(r, depth, open), left) == AsTracker(r, depth + 1, open)
  {
  }

  /** A closing bracket leaves the wrappers outside it, and drops the one whose arguments it ends. */
  lemma BracketCloses(r: Reading, right: Mark, depth: int, open: seq<int>, inside: seq<int>)
    requires IsBracket(right, false) && Below(open, depth) && (inside == open || inside == open + [depth])
    ensures AfterMark(AsTracker(r, depth + 1, inside), right) == AsTracker(r, depth, open)
  {
    PoppedNothing(open, depth);
    PoppedOwn(open, depth);
  }

  lemma {:induction false} NameIsPassed(t: Tracker, name: Name, after: Events)
    requires NameReads(name)
    ensures Run(t, NameEvents(name, after)) == Run(t, after)
  {
    if name.NameChar? {
      NameIsPassed(t, name.tail, after);
    }
  }

  /** Through a well-nested forest the stack says exactly whether a wrapper encloses the position. */
  lemma {:induction false} ForestIsTracked(forest: Forest, r: Reading, depth: int, open: seq<int>, after: Events)
    requires Nested(forest) && Below(open, depth)
    ensures Run(AsTracker(r, depth, open), Flat(forest, after))
         == Run(AsTracker(Read(forest, r, open != []), depth, open), after)
    decreases forest, 1
  {
    hide Nested, Below, Run, AsTracker;
    match forest
    case Empty =>
    case Leaf(event, rest) => LeafIsTracked(event, rest, r, depth, open, after);
    case Group(left, inner, right, rest) => GroupIsTracked(left, inner, right, rest, r, depth, open, after);
    case Wrapped(start, name, left, inner, right, rest) =>
      WrappedIsTracked(start, name, left, inner, right, rest, r, depth, open, after);
  }

  lemma {:induction false} LeafIsTracked(event: Event, rest: Forest, r: Reading, depth: int, open: seq<int>, after: Events)
    requires Nested(Leaf(event, rest)) && Below(open, depth)
    ensures Run(AsTracker(r, depth, open), Flat(Leaf(event, rest), after))
         == Run(AsTracker(Read(Leaf(event, rest), r, open != []), depth, open), after)
    decreases Leaf(event, rest), 0
  {
    hide Below, AsTracker, AfterEvent, ReadEvent, IsPlain;
    EventIsTracked(event, r, depth, open);
    ForestIsTracked(rest, ReadEvent(event, r, open != []), depth, open, after);
  }

  lemma {:induction false} GroupIsTracked(
    left: Mark, inner: Forest, right: Mark, rest: Forest, r: Reading, depth: int, open: seq<int>, after: Events)
    requires Nested(Group(left, inner, right, rest)) && Below(open, depth)
    ensures Run(AsTracker(r, depth, open), Flat(Group(left, inner, right, rest), after))
         == Run(AsTracker(Read(Group(left, inner, right, rest), r, open != []), depth, open), after)
    decreases Group(left, inner, right, rest), 0
  {
    hide Below, AsTracker, AfterMark, IsBracket;
    var within := Read(inner, r, open != []);
    BracketOpens(r, left, depth, open);
    BelowDeeper(open, depth);
    ForestIsTracked(inner, r, depth + 1, open, Then(Char(right), Flat(rest, after)));
    BracketCloses(within, right, depth, open, open);
    ForestIsTracked(rest, within, depth, open, after);
  }

  lemma {:induction false} WrappedIsTracked(
    start: Mark, name: Name, left: Mark, inner: Forest, right: Mark, rest: Forest,
    r: Reading, depth: int, open: seq<int>, after: Events)
    requires Nested(Wrapped(start, name, left, inner, right, rest)) && Below(open, depth)
    ensures Run(AsTracker(r, depth, open), Flat(Wrapped(start, name, left, inner, right, rest), after))
         == Run(AsTracker(Read(Wrapped(start, name, left, inner, right, rest), r, open != []), depth, open), after)
    decreases Wrapped(start, name, left, inner, right, rest), 0
  {
    hide Below, AsTracker, AfterMark, IsBracket, IsWrapperStart, NameReads;
    var closing := Then(Char(right), Flat(rest, after));
    var arguments := Then(Char(left), Flat(inner, closing));
    var within := Read(inner, r, true);
    var longer := open + [depth];
    WrapperIsPushed(r, start, depth, open);
    NameIsPassed(AsTracker(r, depth, longer), name, arguments);
    BracketOpens(r, left, depth, longer);
    ForestIsTracked(inner, r, depth + 1, longer, closing);
    BracketCloses(within, right, depth, open, longer);
    ForestIsTracked(rest, within, depth, open, after);
  }

  /** In every state of a run the recorded depths increase. */
  ghost predicate StacksIncrease(t: Tracker, events: Events)
    decreases events
  {
    Increasing(t.open) &&
    match events
    case Done => true
    case Then(event, rest) => StacksIncrease(AfterEvent(t, event), rest)
  }

  lemma {:induction false} NameKeepsStack(t: Tracker, name: Name, after: Events)
    requires NameReads(name) && StacksIncrease(t, after)
    ensures StacksIncrease(t, NameEvents(name, after))
  {
    if name.NameChar? {
      NameKeepsStack(t, name.tail, after);
    }
  }

  lemma {:induction false} StackIncreasesThroughForest(
    forest: Forest, r: Reading, depth: int, open: seq<int>, after: Events)
    requires Nested(forest) && Below(open, depth)
    requires StacksIncrease(AsTracker(Read(forest, r, open != []), depth, open), after)
    ensures StacksIncrease(AsTracker(r, depth, open), Flat(forest, after))
    decreases forest, 1
  {
    hide Nested, Below, StacksIncrease, AsTracker;
    match forest
    case Empty =>
    case Leaf(event, rest) => StackIncreasesThroughLeaf(event, rest, r, depth, open, after);
    case Group(left, inner, right, rest) =>
      StackIncreasesThroughGroup(left, inner, right, rest, r, depth, open, after);
    case Wrapped(start, name, left, inner, right, rest) =>
      StackIncreasesThroughWrapper(start, name, left, inner, right, rest, r, depth, open, after);
  }

  lemma {:induction false} StackIncreasesThroughLeaf(
    event: Event, rest: Forest, r: Reading, depth: int, open: seq<int>, after: Events)
    requires Nested(Leaf(event, rest)) && Below(open, depth)
    requires StacksIncrease(AsTracker(Read(Leaf(event, rest), r, open != []), depth, open), after)
    ensures StacksIncrease(AsTracker(r, depth, open), Flat(Leaf(event, rest), after))
    decreases Leaf(event, rest), 0
  {
    hide AfterEvent, ReadEvent, IsPlain;
    EventIsTracked(event, r, depth, open);
    StackIncreasesThroughForest(rest, ReadEvent(event, r, open != []), depth, open, after);
  }

  lemma {:induction false} StackIncreasesThroughGroup(
    left: Mark, inner: Forest, right: Mark, rest: Forest, r: Reading, depth: int, open: seq<int>, after: Events)
    requires Nested(Group(left, inner, right, rest)) && Below(open, depth)
    requires StacksIncrease(AsTracker(Read(Group(left, inner, right, rest), r, open != []), depth, open), after)
    ensures StacksIncrease(AsTracker(r, depth, open), Flat(Group(left, inner, right, rest), after))
    decreases Group(left, inner, right, rest), 0
  {
    hide Below, AfterMark, IsBracket;
    var within := Read(inner, r, open != []);
    StackIncreasesThroughForest(rest, within, depth, open, after);
    StackIncreasesAtClose(within, right, depth, open, open, Flat(rest, after));
    BelowDeeper(open, depth);
    StackIncreasesThroughForest(inner, r, depth + 1, open, Then(Char(right), Flat(rest, after)));
    BracketOpens(r, left, depth, open);
  }

  lemma {:induction false} StackIncreasesThroughWrapper(
    start: Mark, name: Name, left: Mark, inner: Forest, right: Mark, rest: Forest,
    r: Reading, depth: int, open: seq<int>, after: Events)
    requires Nested(Wrapped(start, name, left, inner, right, rest)) && Below(open, depth)
    requires StacksIncrease(AsTracker(Read(Wrapped(start, name, left, inner, right, rest), r, open != []), depth, open), after)
    ensures StacksIncrease(AsTracker(r, depth, open), Flat(Wrapped(start, name, left, inner, right, rest), after))
    decreases Wrapped(start, name, left, inner, right, rest), 0
  {
    hide Below, AfterMark, IsBracket, IsWrapperStart, NameReads, StacksIncrease, AsTracker;
    var within, longer := Read(inner, r, true), open + [depth];
    StackIncreasesThroughForest(rest, within, depth, open, after);
    StackIncreasesAtClose(within, right, depth, open, longer, Flat(rest, after));
    WrapperIsPushed(r, start, depth, open);
    StackIncreasesThroughForest(inner, r, depth + 1, longer, Then(Char(right), Flat(rest, after)));
    StackIncreasesAtWrapper(r, start, name, left, depth, open, Flat(inner, Then(Char(right), Flat(rest, after))));
  }

  lemma StackIncreasesAtClose(r: Reading, right: Mark, depth: int, open: seq<int>, inside: seq<int>, after: Events)
    requires IsBracket(right, false) && Below(open, depth) && (inside == open || inside == open + [depth])
    requires StacksIncrease(AsTracker(r, depth, open), after)
    ensures StacksIncrease(AsTracker(r, depth + 1, inside), Then(Char(right), after))
  {
    BracketCloses(r, right, depth, open, inside);
  }

  lemma StackIncreasesAtWrapper(
    r: Reading, start: Mark, name: Name, left: Mark, depth: int, open: seq<int>, after: Events)
    requires IsWrapperStart(start) && NameReads(name) && IsBracket(left, true) && Below(open, depth)
    requires StacksIncrease(AsTracker(r, depth + 1, open + [depth]), after)
    ensures StacksIncrease(AsTracker(r, depth, open), Then(Char(start), NameEvents(name, Then(Char(left), after))))
  {
    var longer := open + [depth];
    BracketOpens(r, left, depth, longer);
    WrapperIsPushed(r, start, depth, open);
    NameKeepsStack(AsTracker(r, depth, longer), name, Then(Char(left), after));
  }

  /**
   * In a source whose brackets match, a call is reported exactly when the
   * latest signature is async and no wrapper call's brackets enclose it, and
   * the recorded depths increase at every step.
   */
  lemma ReportsUncoveredCalls(lines: seq<Line>, forest: Forest)
    requires Nested(forest) && EventsFrom(lines, 0) == Flat(forest, Done)
    ensures Run(INITIAL, EventsFrom(lines, 0)).findings == Read(forest, Reading(0, false, []), false).findings
    ensures StacksIncrease(INITIAL, EventsFrom(lines, 0))
  {
    hide Nested, Flat, EventsFrom;
    StackIncreasesThroughForest(forest, Reading(0, false, []), 0, [], Done);
    ForestIsTracked(forest, Reading(0, false, []), 0, [], Done);
  }
}
