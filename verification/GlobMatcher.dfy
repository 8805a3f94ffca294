/**
 * The glob simulation of the suppression matcher: every candidate offset is
 * advanced at once through a pair of swapped buffers.  It is proved to decide
 * whether the path can be split among the tokens.
 */
module GlobMatcher {
  import opened GlobTokens

  /** The pieces of a path that one token may consume. */
  ghost predicate Accepts(token: Token, piece: string) {
    match token
    case Literal(c) => piece == [c]
    case OneCharacter => |piece| == 1 && piece[0] != SEPARATOR
    case SegmentRun => SEPARATOR !in piece
    case PathRun => true
    case DescendantPrefix => piece == "" || piece[|piece| - 1] == SEPARATOR
  }

  /** An unanchored pattern may begin at any segment, an anchored one only at the front. */
  ghost predicate StartsAt(path: string, anchored: bool, offset: nat) {
    offset == 0 || (!anchored && offset <= |path| && path[offset - 1] == SEPARATOR)
  }

  /** A pattern has to stop at the end of the path or just before a separator. */
  ghost predicate EndsAt(path: string, offset: nat) {
    offset == |path| || (offset < |path| && path[offset] == SEPARATOR)
  }

  /** `cuts` divides a stretch of the path into one consecutive piece for each token. */
  ghost predicate IsSplit(tokens: seq<Token>, path: string, cuts: seq<nat>) {
    && |cuts| == |tokens| + 1
    && (forall i | 0 <= i < |cuts| :: cuts[i] <= |path|)
    && (forall i | 0 <= i < |tokens| ::
          cuts[i] <= cuts[i + 1] && Accepts(tokens[i], path[cuts[i]..cuts[i + 1]]))
  }

  ghost predicate Splits(tokens: seq<Token>, path: string, from: nat, to: nat) {
    exists cuts :: IsSplit(tokens, path, cuts) && cuts[0] == from && cuts[|tokens|] == to
  }

  /** Some permitted start leads to `offset`. */
  ghost predicate Reached(tokens: seq<Token>, path: string, anchored: bool, offset: nat) {
    exists from: nat :: StartsAt(path, anchored, from) && Splits(tokens, path, from, offset)
  }

  /** What a glob means. */
  ghost predicate GlobMatches(tokens: seq<Token>, path: string, anchored: bool) {
    exists offset: nat :: EndsAt(path, offset) && Reached(tokens, path, anchored, offset)
  }

  // ---------- one token ----------

  /** Offset `to` can be reached by letting the token consume a piece that begins at a marked offset. */
  ghost predicate StepsTo(token: Token, path: string, marks: seq<bool>, to: nat)
    requires to <= |path| < |marks|
  {
    exists from | 0 <= from <= to :: marks[from] && Accepts(token, path[from..to])
  }

  /** As `StepsTo`, with a piece that is not empty. */
  ghost predicate RunsTo(token: Token, path: string, marks: seq<bool>, to: nat)
    requires to <= |path| < |marks|
  {
    exists from | 0 <= from < to :: marks[from] && Accepts(token, path[from..to])
  }

  ghost predicate AdvancedBy(token: Token, path: string, before: seq<bool>, after: seq<bool>)
    requires |before| == |after| == |path| + 1
  {
    forall to | 0 <= to <= |path| :: after[to] <==> StepsTo(token, path, before, to)
  }

  lemma SingleCharacterStep(token: Token, path: string, marks: seq<bool>, to: nat)
    requires token.Literal? || token.OneCharacter?
    requires to <= |path| < |marks|
    ensures StepsTo(token, path, marks, to) <==>
            to > 0 && marks[to - 1] && Accepts(token, [path[to - 1]])
  {
    if to > 0 {
      assert path[to - 1..to] == [path[to - 1]];
    }
  }

  lemma SegmentRunStep(path: string, marks: seq<bool>, to: nat)
    requires to <= |path| < |marks|
    ensures StepsTo(SegmentRun, path, marks, to) <==> marks[to] || RunsTo(SegmentRun, path, marks, to)
    ensures to < |path| ==>
              (RunsTo(SegmentRun, path, marks, to + 1) <==>
               path[to] != SEPARATOR && StepsTo(SegmentRun, path, marks, to))
  {
    assert path[to..to] == "";
    if to < |path| {
      forall from | 0 <= from <= to
        ensures SEPARATOR !in path[from..to + 1] <==> SEPARATOR !in path[from..to] && path[to] != SEPARATOR
      {
        assert path[from..to + 1] == path[from..to] + [path[to]];
      }
    }
  }

  lemma DescendantStep(path: string, marks: seq<bool>, to: nat)
    requires to <= |path| < |marks|
    ensures StepsTo(DescendantPrefix, path, marks, to) <==>
            marks[to] || (to > 0 && path[to - 1] == SEPARATOR && exists from | 0 <= from < to :: marks[from])
  {
    assert path[to..to] == "";
    forall from | 0 <= from < to
      ensures Accepts(DescendantPrefix, path[from..to]) <==> path[to - 1] == SEPARATOR
    {
      assert path[from..to][to - from - 1] == path[to - 1];
    }
  }

  method AdvanceOneCharacter(token: Token, path: string, reached: array<bool>, next: array<bool>)
    returns (ghost work: nat)
    requires token.Literal? || token.OneCharacter?
    requires reached.Length == next.Length == |path| + 1 && reached != next
    modifies next
    ensures AdvancedBy(token, path, reached[..], next[..])
    ensures work <= 2 * next.Length
  {
    forall i | 0 <= i < next.Length { next[i] := false; }
    work := next.Length;
    for offset := 0 to |path|
      invariant forall to | 0 <= to <= |path| ::
          next[to] <==> 0 < to <= offset && reached[to - 1] && Accepts(token, [path[to - 1]])
      invariant work == next.Length + offset
    {
      if reached[offset] && (match token
                             case Literal(c) => path[offset] == c
                             case _ => path[offset] != SEPARATOR)
      {
        next[offset + 1] := true;
      }
      work := work + 1;
    }
    forall to | 0 <= to <= |path| ensures next[to] <==> StepsTo(token, path, reached[..], to) {
      SingleCharacterStep(token, path, reached[..], to);
    }
  }

  method AdvanceSegmentRun(path: string, reached: array<bool>, next: array<bool>) returns (ghost work: nat)
    requires reached.Length == next.Length == |path| + 1 && reached != next
    modifies next
    ensures AdvancedBy(SegmentRun, path, reached[..], next[..])
    ensures work <= 2 * next.Length
  {
    var open := false;
    work := 0;
    for offset := 0 to |path| + 1
      invariant offset <= |path| ==> (open <==> RunsTo(SegmentRun, path, reached[..], offset))
      invariant forall to | 0 <= to < offset :: next[to] <==> StepsTo(SegmentRun, path, reached[..], to)
      invariant work == offset
    {
      SegmentRunStep(path, reached[..], offset);
      if reached[offset] { open := true; }
      next[offset] := open;
      if offset < |path| && path[offset] == SEPARATOR { open := false; }
      work := work + 1;
    }
  }

  method AdvancePathRun(path: string, reached: array<bool>, next: array<bool>) returns (ghost work: nat)
    requires reached.Length == next.Length == |path| + 1 && reached != next
    modifies next
    ensures AdvancedBy(PathRun, path, reached[..], next[..])
    ensures work <= 2 * next.Length
  {
    var open := false;
    work := 0;
    for offset := 0 to |path| + 1
      invariant open <==> exists from | 0 <= from < offset :: reached[from]
      invariant forall to | 0 <= to < offset :: next[to] <==> exists from | 0 <= from <= to :: reached[from]
      invariant work == offset
    {
      if reached[offset] { open := true; }
      next[offset] := open;
      work := work + 1;
    }
  }

  method AdvanceDescendantPrefix(path: string, reached: array<bool>, next: array<bool>) returns (ghost work: nat)
    requires reached.Length == next.Length == |path| + 1 && reached != next
    modifies next
    ensures AdvancedBy(DescendantPrefix, path, reached[..], next[..])
    ensures work <= 2 * next.Length
  {
    forall i | 0 <= i < next.Length { next[i] := reached[i]; }
    work := next.Length;
    var open := false;
    for offset := 0 to |path|
      invariant open <==> exists from | 0 <= from < offset :: reached[from]
      invariant forall to | 0 <= to <= |path| ::
          next[to] <==> reached[to] ||
                        (0 < to <= offset && path[to - 1] == SEPARATOR && exists from | 0 <= from < to :: reached[from])
      invariant work == next.Length + offset
    {
      if reached[offset] { open := true; }
      if open && path[offset] == SEPARATOR { next[offset + 1] := true; }
      work := work + 1;
    }
    forall to | 0 <= to <= |path| ensures next[to] <==> StepsTo(DescendantPrefix, path, reached[..], to) {
      DescendantStep(path, reached[..], to);
    }
  }

  // ---------- all tokens ----------

  lemma SplitsNothing(path: string, from: nat, to: nat)
    ensures Splits([], path, from, to) <==> from == to <= |path|
  {
    if from == to <= |path| {
      assert IsSplit([], path, [from]);
    }
  }

  /** The first cuts of a split divide the same stretch among the first tokens. */
  lemma SplitPrefix(tokens: seq<Token>, more: seq<Token>, path: string, cuts: seq<nat>)
    requires IsSplit(tokens + more, path, cuts)
    ensures IsSplit(tokens, path, cuts[..|tokens| + 1])
  {
    forall i | 0 <= i < |tokens| ensures Accepts(tokens[i], path[cuts[i]..cuts[i + 1]]) {
      assert (tokens + more)[i] == tokens[i];
    }
  }

  lemma SplitAppended(tokens: seq<Token>, token: Token, path: string, cuts: seq<nat>, to: nat)
    requires IsSplit(tokens, path, cuts) && cuts[|tokens|] <= to <= |path|
    requires Accepts(token, path[cuts[|tokens|]..to])
    ensures IsSplit(tokens + [token], path, cuts + [to])
  {
  }

  lemma SplitsExtended(tokens: seq<Token>, token: Token, path: string, from: nat, to: nat)
    ensures Splits(tokens + [token], path, from, to) <==>
            exists mid: nat :: mid <= to <= |path| && Splits(tokens, path, from, mid) && Accepts(token, path[mid..to])
  {
    var extended := tokens + [token];
    if Splits(extended, path, from, to) {
      var cuts :| IsSplit(extended, path, cuts) && cuts[0] == from && cuts[|extended|] == to;
      SplitPrefix(tokens, [token], path, cuts);
      var mid := cuts[|tokens|];
      assert extended[|tokens|] == token;
      assert Splits(tokens, path, from, mid);
    }
    if mid: nat :| mid <= to <= |path| && Splits(tokens, path, from, mid) && Accepts(token, path[mid..to]) {
      var cuts :| IsSplit(tokens, path, cuts) && cuts[0] == from && cuts[|tokens|] == mid;
      SplitAppended(tokens, token, path, cuts, to);
    }
  }

  ghost predicate MarksReached(tokens: seq<Token>, path: string, anchored: bool, marks: seq<bool>) {
    && |marks| == |path| + 1
    && forall offset | 0 <= offset <= |path| :: marks[offset] <==> Reached(tokens, path, anchored, offset)
  }

  lemma ReachedExtended(tokens: seq<Token>, token: Token, path: string, anchored: bool, before: seq<bool>, after: seq<bool>)
    requires MarksReached(tokens, path, anchored, before)
    requires |after| == |path| + 1 && AdvancedBy(token, path, before, after)
    ensures MarksReached(tokens + [token], path, anchored, after)
  {
    forall to | 0 <= to <= |path|
      ensures StepsTo(token, path, before, to) <==> Reached(tokens + [token], path, anchored, to)
    {
      if StepsTo(token, path, before, to) {
        var mid :| 0 <= mid <= to && before[mid] && Accepts(token, path[mid..to]);
        var from: nat :| StartsAt(path, anchored, from) && Splits(tokens, path, from, mid);
        SplitsExtended(tokens, token, path, from, to);
      }
      if Reached(tokens + [token], path, anchored, to) {
        var from: nat :| StartsAt(path, anchored, from) && Splits(tokens + [token], path, from, to);
        SplitsExtended(tokens, token, path, from, to);
        var mid: nat :| mid <= to && Splits(tokens, path, from, mid) && Accepts(token, path[mid..to]);
        assert Reached(tokens, path, anchored, mid);
      }
    }
  }

  /** A set of offsets that died out stays empty whatever tokens follow. */
  lemma {:induction false} DeadEnd(tokens: seq<Token>, more: seq<Token>, path: string, anchored: bool)
    requires forall offset | 0 <= offset <= |path| :: !Reached(tokens, path, anchored, offset)
    ensures !GlobMatches(tokens + more, path, anchored)
  {
    if GlobMatches(tokens + more, path, anchored) {
      var to: nat :| EndsAt(path, to) && Reached(tokens + more, path, anchored, to);
      var from: nat :| StartsAt(path, anchored, from) && Splits(tokens + more, path, from, to);
      var cuts :| IsSplit(tokens + more, path, cuts) && cuts[0] == from && cuts[|tokens + more|] == to;
      SplitPrefix(tokens, more, path, cuts);
      assert Reached(tokens, path, anchored, cuts[|tokens|]);
    }
  }

  lemma DeadMarks(tokens: seq<Token>, more: seq<Token>, path: string, anchored: bool, marks: seq<bool>)
    requires MarksReached(tokens, path, anchored, marks) && forall i | 0 <= i < |marks| :: !marks[i]
    ensures !GlobMatches(tokens + more, path, anchored)
  {
    hide Reached, GlobMatches;
    DeadEnd(tokens, more, path, anchored);
  }

  /** After the last token the marks at an ending decide. */
  lemma EndsDecide(tokens: seq<Token>, path: string, anchored: bool, marks: seq<bool>)
    requires MarksReached(tokens, path, anchored, marks)
    ensures GlobMatches(tokens, path, anchored) <==>
            exists offset | 0 <= offset <= |path| :: marks[offset] && EndsAt(path, offset)
  {
    hide Reached;
  }

  lemma StartMarks(path: string, anchored: bool, marks: seq<bool>)
    requires |marks| == |path| + 1
    requires forall offset | 0 <= offset <= |path| :: marks[offset] <==> StartsAt(path, anchored, offset)
    ensures MarksReached([], path, anchored, marks)
  {
    forall offset | 0 <= offset <= |path|
      ensures Reached([], path, anchored, offset) <==> StartsAt(path, anchored, offset)
    {
      forall from: nat ensures Splits([], path, from, offset) <==> from == offset {
        SplitsNothing(path, from, offset);
      }
    }
  }

  method MarkStarts(path: string, anchored: bool, reached: array<bool>)
    requires reached.Length == |path| + 1
    requires forall i | 0 <= i < reached.Length :: !reached[i]
    modifies reached
    ensures MarksReached([], path, anchored, reached[..])
  {
    reached[0] := true;
    if !anchored {
      for offset := 0 to |path|
        invariant forall i | 0 <= i <= |path| :: reached[i] <==> i == 0 || (i <= offset && path[i - 1] == SEPARATOR)
      {
        if path[offset] == SEPARATOR { reached[offset + 1] := true; }
      }
    }
    StartMarks(path, anchored, reached[..]);
  }

  /** One pass of the outer loop: the token's own loop over the offsets, whatever `next` held before. */
  method Advance(token: Token, path: string, reached: array<bool>, next: array<bool>) returns (ghost work: nat)
    requires reached.Length == next.Length == |path| + 1 && reached != next
    modifies next
    ensures AdvancedBy(token, path, reached[..], next[..])
    ensures work <= 2 * next.Length
  {
    match token {
      case Literal(_) => work := AdvanceOneCharacter(token, path, reached, next);
      case OneCharacter => work := AdvanceOneCharacter(token, path, reached, next);
      case SegmentRun => work := AdvanceSegmentRun(path, reached, next);
      case PathRun => work := AdvancePathRun(path, reached, next);
      case DescendantPrefix => work := AdvanceDescendantPrefix(path, reached, next);
    }
  }

  method Includes(marks: array<bool>) returns (found: bool)
    ensures found <==> exists i | 0 <= i < marks.Length :: marks[i]
  {
    for i := 0 to marks.Length
      invariant forall j | 0 <= j < i :: !marks[j]
    {
      if marks[i] { return true; }
    }
    return false;
  }

  method AnyEnd(path: string, reached: array<bool>) returns (found: bool)
    requires reached.Length == |path| + 1
    ensures found <==> exists offset | 0 <= offset <= |path| :: reached[offset] && EndsAt(path, offset)
  {
    for offset := 0 to |path| + 1
      invariant forall i | 0 <= i < offset :: !(reached[i] && EndsAt(path, i))
    {
      if reached[offset] && (offset == |path| || path[offset] == SEPARATOR) { return true; }
    }
    return false;
  }

  /** Decides `GlobMatches`; `work` counts the passes over single offsets. */
  method MatchesGlobTokens(tokens: seq<Token>, path: string, anchored: bool) returns (matched: bool, ghost work: nat)
    ensures matched <==> GlobMatches(tokens, path, anchored)
    ensures work <= 3 * ((|tokens| + 1) * (|path| + 1))
  {
    hide GlobMatches, WorkBound;
    matched, work := Simulate(tokens, path, anchored, |path| + 1);
    WorkTotal(|tokens|, |path| + 1);
  }

  method Simulate(tokens: seq<Token>, path: string, anchored: bool, ghost size: nat)
    returns (matched: bool, ghost work: nat)
    requires size == |path| + 1
    ensures matched <==> GlobMatches(tokens, path, anchored)
    ensures work <= WorkBound(|tokens|, size) + size
  {
    hide Reached, GlobMatches, MarksReached, AdvancedBy, EndsAt;
    var reached := new bool[|path| + 1](_ => false);
    var next := new bool[|path| + 1](_ => false);
    MarkStarts(path, anchored, reached);
    work := size;
    for index := 0 to |tokens|
      invariant reached != next && fresh(reached) && fresh(next)
      invariant reached.Length == next.Length == |path| + 1
      invariant MarksReached(tokens[..index], path, anchored, reached[..])
      invariant work <= WorkBound(index, size)
    {
      ghost var spent := Advance(tokens[index], path, reached, next);
      ReachedExtended(tokens[..index], tokens[index], path, anchored, reached[..], next[..]);
      assert tokens[..index] + [tokens[index]] == tokens[..index + 1];
      reached, next := next, reached;
      work := work + spent + size;
      WorkGrows(index + 1, |tokens|, size);
      var alive := Includes(reached);
      if !alive {
        assert tokens[..index + 1] + tokens[index + 1..] == tokens;
        DeadMarks(tokens[..index + 1], tokens[index + 1..], path, anchored, reached[..]);
        return false, work;
      }
    }
    assert tokens[..|tokens|] == tokens;
    work := work + size;
    EndsDecide(tokens, path, anchored, reached[..]);
    matched := AnyEnd(path, reached);
  }

  /** One pass to mark the starts, and at most three for each token. */
  ghost function WorkBound(passes: nat, size: nat): nat {
    if passes == 0 then size else WorkBound(passes - 1, size) + 3 * size
  }

  lemma {:induction false} WorkGrows(passes: nat, total: nat, size: nat)
    requires passes <= total
    ensures WorkBound(passes, size) <= WorkBound(total, size)
  {
    if passes < total {
      WorkGrows(passes, total - 1, size);
    }
  }

  lemma {:induction false} WorkTotal(passes: nat, size: nat)
    ensures WorkBound(passes, size) == size + 3 * (passes * size)
    ensures WorkBound(passes, size) + size <= 3 * ((passes + 1) * size)
  {
    if passes > 0 {
      WorkTotal(passes - 1, size);
      Distributes(passes - 1, size);
    }
    Distributes(passes, size);
  }

  lemma Distributes(passes: nat, size: nat)
    ensures (passes + 1) * size == passes * size + size
  {
  }
}
