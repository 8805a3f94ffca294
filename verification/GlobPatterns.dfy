/** Whole suppression patterns: slashes, anchoring, and the laws a pattern obeys. */
module GlobPatterns {
  import opened GlobTokens
  import opened GlobMatcher

  function WithoutLeadingSlash(pattern: string): string {
    if pattern != "" && pattern[0] == SEPARATOR then pattern[1..] else pattern
  }

  function WithoutTrailingSlash(body: string): string {
    if body != "" && body[|body| - 1] == SEPARATOR then body[..|body| - 1] else body
  }

  function Body(pattern: string): string {
    WithoutTrailingSlash(WithoutLeadingSlash(pattern))
  }

  predicate Anchored(pattern: string) {
    (pattern != "" && pattern[0] == SEPARATOR) || SEPARATOR in Body(pattern)
  }

  function NormalizedCharacter(c: char): char {
    if c == '\\' then SEPARATOR else c
  }

  /** Backslashes become separators. */
  function Normalized(path: string): string {
    seq(|path|, i requires 0 <= i < |path| => NormalizedCharacter(path[i]))
  }

  /** What a suppression pattern covers. */
  ghost predicate Covers(pattern: string, path: string) {
    GlobMatches(Tokens(Body(pattern)), Normalized(path), Anchored(pattern))
  }

  method PathMatchesSuppression(pattern: string, relativePath: string) returns (matched: bool)
    ensures matched <==> Covers(pattern, relativePath)
  {
    hide GlobMatches, Normalized, Tokens;
    var body, anchored := StripPattern(pattern);
    var tokens := TokenizeGlob(body);
    ghost var work;
    matched, work := MatchesGlobTokens(tokens, Normalized(relativePath), anchored);
  }

  /** The pattern without its outer slashes, and whether a leading or an inner slash anchors it. */
  method StripPattern(pattern: string) returns (body: string, anchored: bool)
    ensures body == Body(pattern) && anchored == Anchored(pattern)
  {
    var leading := pattern != "" && pattern[0] == SEPARATOR;
    body := if leading then pattern[1..] else pattern;
    if body != "" && body[|body| - 1] == SEPARATOR {
      body := body[..|body| - 1];
    }
    anchored := leading || SEPARATOR in body;
  }

  // ---------- splits of neighbouring paths ----------

  /** A split looks only at the part of the path it divides. */
  lemma SplitsWithinPrefix(tokens: seq<Token>, path: string, cut: nat, from: nat, to: nat)
    requires to <= cut <= |path|
    ensures Splits(tokens, path, from, to) <==> Splits(tokens, path[..cut], from, to)
  {
    if Splits(tokens, path, from, to) {
      var cuts :| IsSplit(tokens, path, cuts) && cuts[0] == from && cuts[|tokens|] == to;
      SplitNarrows(tokens, path, cut, cuts);
    }
    if Splits(tokens, path[..cut], from, to) {
      var cuts :| IsSplit(tokens, path[..cut], cuts) && cuts[0] == from && cuts[|tokens|] == to;
      SplitWidens(tokens, path, cut, cuts);
    }
  }

  lemma SplitNarrows(tokens: seq<Token>, path: string, cut: nat, cuts: seq<nat>)
    requires cut <= |path| && IsSplit(tokens, path, cuts) && cuts[|tokens|] <= cut
    ensures IsSplit(tokens, path[..cut], cuts)
  {
    forall i | 0 <= i < |cuts| ensures cuts[i] <= cut {
      CutsAscend(tokens, path, cuts, i);
    }
    forall i | 0 <= i < |tokens| ensures Accepts(tokens[i], path[..cut][cuts[i]..cuts[i + 1]]) {
      assert path[..cut][cuts[i]..cuts[i + 1]] == path[cuts[i]..cuts[i + 1]];
    }
  }

  lemma SplitWidens(tokens: seq<Token>, path: string, cut: nat, cuts: seq<nat>)
    requires cut <= |path| && IsSplit(tokens, path[..cut], cuts)
    ensures IsSplit(tokens, path, cuts)
  {
    forall i | 0 <= i < |tokens| ensures Accepts(tokens[i], path[cuts[i]..cuts[i + 1]]) {
      assert path[..cut][cuts[i]..cuts[i + 1]] == path[cuts[i]..cuts[i + 1]];
    }
  }

  lemma {:induction false} CutsAscend(tokens: seq<Token>, path: string, cuts: seq<nat>, i: nat)
    requires IsSplit(tokens, path, cuts) && i <= |tokens|
    ensures cuts[i] <= cuts[|tokens|]
    decreases |tokens| - i
  {
    if i < |tokens| {
      CutsAscend(tokens, path, cuts, i + 1);
    }
  }

  lemma {:induction false} CutsStart(tokens: seq<Token>, path: string, cuts: seq<nat>, i: nat)
    requires IsSplit(tokens, path, cuts) && i <= |tokens|
    ensures cuts[0] <= cuts[i]
  {
    if i > 0 {
      CutsStart(tokens, path, cuts, i - 1);
    }
  }

  lemma ShiftedBack(tokens: seq<Token>, path: string, shift: nat, cuts: seq<nat>, from: nat, to: nat)
    requires shift <= |path| && IsSplit(tokens, path, cuts)
    requires cuts[0] == from + shift && cuts[|tokens|] == to + shift
    ensures Splits(tokens, path[shift..], from, to)
  {
    forall i | 0 <= i < |cuts| ensures shift <= cuts[i] {
      CutsStart(tokens, path, cuts, i);
    }
    var shifted: seq<nat> := seq(|cuts|, i requires 0 <= i < |cuts| => cuts[i] - shift);
    forall i | 0 <= i < |tokens|
      ensures path[shift..][shifted[i]..shifted[i + 1]] == path[cuts[i]..cuts[i + 1]]
    {
    }
    assert IsSplit(tokens, path[shift..], shifted);
  }

  lemma ShiftedForward(tokens: seq<Token>, path: string, shift: nat, cuts: seq<nat>)
    requires shift <= |path| && IsSplit(tokens, path[shift..], cuts)
    ensures Splits(tokens, path, cuts[0] + shift, cuts[|tokens|] + shift)
  {
    var shifted: seq<nat> := seq(|cuts|, i requires 0 <= i < |cuts| => cuts[i] + shift);
    forall i | 0 <= i < |tokens|
      ensures path[shifted[i]..shifted[i + 1]] == path[shift..][cuts[i]..cuts[i + 1]]
    {
    }
    assert IsSplit(tokens, path, shifted);
  }

  lemma SplitsOfSuffix(tokens: seq<Token>, path: string, shift: nat, from: nat, to: nat)
    requires shift <= |path|
    ensures Splits(tokens, path[shift..], from, to) <==> Splits(tokens, path, from + shift, to + shift)
  {
    if Splits(tokens, path[shift..], from, to) {
      var cuts :| IsSplit(tokens, path[shift..], cuts) && cuts[0] == from && cuts[|tokens|] == to;
      ShiftedForward(tokens, path, shift, cuts);
    }
    if Splits(tokens, path, from + shift, to + shift) {
      var cuts :| IsSplit(tokens, path, cuts) && cuts[0] == from + shift && cuts[|tokens|] == to + shift;
      ShiftedBack(tokens, path, shift, cuts, from, to);
    }
  }

  /** The first token consumes the front of the stretch, the others the rest. */
  lemma SplitsFirst(token: Token, tokens: seq<Token>, path: string, from: nat, to: nat)
    ensures Splits([token] + tokens, path, from, to) <==>
            exists mid: nat :: from <= mid <= |path| && Accepts(token, path[from..mid]) && Splits(tokens, path, mid, to)
  {
    var all := [token] + tokens;
    if Splits(all, path, from, to) {
      var cuts :| IsSplit(all, path, cuts) && cuts[0] == from && cuts[|all|] == to;
      SplitWithoutFirst(token, tokens, path, cuts);
      var mid := cuts[1];
      assert all[0] == token;
      assert Splits(tokens, path, mid, to);
    }
    if mid: nat :| from <= mid <= |path| && Accepts(token, path[from..mid]) && Splits(tokens, path, mid, to) {
      var rest :| IsSplit(tokens, path, rest) && rest[0] == mid && rest[|tokens|] == to;
      SplitWithFirst(token, tokens, path, from, rest);
    }
  }

  lemma SplitWithoutFirst(token: Token, tokens: seq<Token>, path: string, cuts: seq<nat>)
    requires IsSplit([token] + tokens, path, cuts)
    ensures IsSplit(tokens, path, cuts[1..])
  {
    forall i | 0 <= i < |tokens| ensures Accepts(tokens[i], path[cuts[1..][i]..cuts[1..][i + 1]]) {
      assert ([token] + tokens)[i + 1] == tokens[i];
    }
  }

  lemma SplitWithFirst(token: Token, tokens: seq<Token>, path: string, from: nat, rest: seq<nat>)
    requires IsSplit(tokens, path, rest) && from <= rest[0] && Accepts(token, path[from..rest[0]])
    ensures IsSplit([token] + tokens, path, [from] + rest)
  {
  }

  // ---------- a match on a directory covers everything beneath it ----------

  /** A path is matched exactly when it, or one of the directories above it, is consumed to its last character. */
  lemma MatchesThroughAncestor(tokens: seq<Token>, path: string, anchored: bool)
    ensures GlobMatches(tokens, path, anchored) <==>
            exists cut: nat :: EndsAt(path, cut) && Reached(tokens, path[..cut], anchored, cut)
  {
    forall cut: nat | cut <= |path|
      ensures Reached(tokens, path, anchored, cut) <==> Reached(tokens, path[..cut], anchored, cut)
    {
      ReachedWithinPrefix(tokens, path, anchored, cut);
    }
  }

  lemma ReachedWithinPrefix(tokens: seq<Token>, path: string, anchored: bool, cut: nat)
    requires cut <= |path|
    ensures Reached(tokens, path, anchored, cut) <==> Reached(tokens, path[..cut], anchored, cut)
  {
    forall from: nat
      ensures Splits(tokens, path, from, cut) <==> Splits(tokens, path[..cut], from, cut)
      ensures Splits(tokens, path, from, cut) ==> from <= cut
    {
      SplitsWithinPrefix(tokens, path, cut, from, cut);
      if Splits(tokens, path, from, cut) {
        var cuts :| IsSplit(tokens, path, cuts) && cuts[0] == from && cuts[|tokens|] == cut;
        CutsAscend(tokens, path, cuts, 0);
      }
    }
  }

  lemma DirectoryCoversChildren(pattern: string, directory: string, rest: string)
    requires Covers(pattern, directory)
    ensures Covers(pattern, directory + [SEPARATOR] + rest)
  {
    var tokens, anchored := Tokens(Body(pattern)), Anchored(pattern);
    var path, longer := Normalized(directory), Normalized(directory + [SEPARATOR] + rest);
    assert longer[..|path|] == path;
    assert longer[|path|] == SEPARATOR;
    MatchesThroughAncestor(tokens, path, anchored);
    var cut: nat :| EndsAt(path, cut) && Reached(tokens, path[..cut], anchored, cut);
    assert longer[..cut] == path[..cut];
    assert EndsAt(longer, cut) by {
      if cut < |path| {
        assert longer[cut] == path[cut];
      }
    }
    MatchesThroughAncestor(tokens, longer, anchored);
  }

  // ---------- patterns without a slash ----------

  ghost predicate SlashFree(pattern: string) {
    pattern != "" && SEPARATOR !in pattern
  }

  /** A pattern without a slash floats: it means the same as with a leading `**``/`. */
  lemma SlashFreeIsDescendant(pattern: string, path: string)
    requires SlashFree(pattern)
    ensures Covers(pattern, path) <==> Covers("**/" + pattern, path)
  {
    hide Reached, EndsAt, Normalized;
    var tokens, text := Tokens(pattern), Normalized(path);
    var deep := "**/" + pattern;
    assert Body(pattern) == pattern && Body(deep) == deep;
    assert deep[2] == SEPARATOR && Anchored(deep) && !Anchored(pattern);
    assert deep[3..] == pattern;
    assert Tokens(deep) == [DescendantPrefix] + tokens;
    forall offset: nat
      ensures Reached(tokens, text, false, offset) <==> Reached([DescendantPrefix] + tokens, text, true, offset)
    {
      FloatingStart(tokens, text, offset);
    }
  }

  lemma FloatingStart(tokens: seq<Token>, text: string, offset: nat)
    ensures Reached(tokens, text, false, offset) <==> Reached([DescendantPrefix] + tokens, text, true, offset)
  {
    var all := [DescendantPrefix] + tokens;
    SplitsFirst(DescendantPrefix, tokens, text, 0, offset);
    if Reached(tokens, text, false, offset) {
      var from: nat :| StartsAt(text, false, from) && Splits(tokens, text, from, offset);
      var cuts :| IsSplit(tokens, text, cuts) && cuts[0] == from && cuts[|tokens|] == offset;
      assert from <= |text| && Accepts(DescendantPrefix, text[0..from]);
      assert StartsAt(text, true, 0) && Splits(all, text, 0, offset);
    }
    if Reached(all, text, true, offset) {
      assert Splits(all, text, 0, offset);
      var mid: nat :| mid <= |text| && Accepts(DescendantPrefix, text[0..mid]) && Splits(tokens, text, mid, offset);
      assert StartsAt(text, false, mid);
    }
  }

  /** A pattern without a slash covers a path when, anchored, it covers what remains from some segment on. */
  lemma SlashFreeIsAnchoredSomewhere(pattern: string, path: string)
    requires SlashFree(pattern)
    ensures Covers(pattern, path) <==>
            exists start: nat ::
              start <= |path| && StartsAt(Normalized(path), false, start) && Covers([SEPARATOR] + pattern, path[start..])
  {
    var tokens, text := Tokens(pattern), Normalized(path);
    var rooted := [SEPARATOR] + pattern;
    assert rooted[1..] == pattern;
    assert Body(pattern) == pattern && Body(rooted) == pattern && Anchored(rooted) && !Anchored(pattern);
    forall start: nat | start <= |path|
      ensures Covers(rooted, path[start..]) <==>
              exists offset: nat :: EndsAt(text, offset) && Splits(tokens, text, start, offset)
    {
      assert Normalized(path[start..]) == text[start..];
      AnchoredOnSuffix(tokens, text, start);
    }
    if Covers(pattern, path) {
      var offset: nat :| EndsAt(text, offset) && Reached(tokens, text, false, offset);
      var from: nat :| StartsAt(text, false, from) && Splits(tokens, text, from, offset);
      assert from <= |path| && Covers(rooted, path[from..]);
    }
    if start: nat :| start <= |path| && StartsAt(text, false, start) && Covers(rooted, path[start..]) {
      var offset: nat :| EndsAt(text, offset) && Splits(tokens, text, start, offset);
      assert Reached(tokens, text, false, offset);
    }
  }

  lemma AnchoredOnSuffix(tokens: seq<Token>, text: string, start: nat)
    requires start <= |text|
    ensures GlobMatches(tokens, text[start..], true) <==>
            exists offset: nat :: EndsAt(text, offset) && Splits(tokens, text, start, offset)
  {
    var suffix := text[start..];
    if GlobMatches(tokens, suffix, true) {
      var to: nat :| EndsAt(suffix, to) && Reached(tokens, suffix, true, to);
      SplitsOfSuffix(tokens, text, start, 0, to);
      assert EndsAt(text, to + start);
    }
    if offset: nat :| EndsAt(text, offset) && Splits(tokens, text, start, offset) {
      var cuts :| IsSplit(tokens, text, cuts) && cuts[0] == start && cuts[|tokens|] == offset;
      CutsAscend(tokens, text, cuts, 0);
      var to: nat := offset - start;
      SplitsOfSuffix(tokens, text, start, 0, to);
      assert EndsAt(suffix, to);
      assert StartsAt(suffix, true, 0) && Reached(tokens, suffix, true, to);
    }
  }

  /** A trailing slash changes nothing. */
  lemma TrailingSlashIsIgnored(pattern: string, path: string)
    requires pattern != "" && pattern[|pattern| - 1] != SEPARATOR
    ensures Covers(pattern + [SEPARATOR], path) <==> Covers(pattern, path)
  {
    var slashed := pattern + [SEPARATOR];
    assert WithoutLeadingSlash(slashed) == WithoutLeadingSlash(pattern) + [SEPARATOR];
    assert Body(slashed) == WithoutLeadingSlash(pattern) == Body(pattern);
  }

  // ---------- patterns without metacharacters ----------

  ghost predicate Plain(pattern: string) {
    '*' !in pattern && '?' !in pattern
  }

  /** Anchored text without metacharacters covers that very path and what lies beneath it. */
  lemma PlainPatternCovers(pattern: string, path: string)
    requires Plain(pattern)
    ensures GlobMatches(Tokens(pattern), path, true) <==> path == pattern || pattern + [SEPARATOR] <= path
  {
    forall to: nat
      ensures Splits(Tokens(pattern), path, 0, to) <==> to == |pattern| <= |path| && path[..to] == pattern
    {
      PlainSplits(pattern, path, 0, to);
    }
    var whole := |pattern|;
    if path == pattern || pattern + [SEPARATOR] <= path {
      assert path[..whole] == pattern;
      assert EndsAt(path, whole) && StartsAt(path, true, 0) && Reached(Tokens(pattern), path, true, whole);
    }
    if whole <= |path| && path[..whole] == pattern && EndsAt(path, whole) {
      assert path == pattern || pattern + [SEPARATOR] <= path by {
        if whole < |path| {
          assert path[..whole + 1] == pattern + [SEPARATOR];
        }
      }
    }
  }

  lemma SplitsStart(tokens: seq<Token>, path: string, from: nat, to: nat)
    ensures Splits(tokens, path, from, to) ==> from <= |path|
  {
  }

  lemma PlainSplits(pattern: string, path: string, from: nat, to: nat)
    requires Plain(pattern)
    ensures Splits(Tokens(pattern), path, from, to) <==>
            to == from + |pattern| <= |path| && path[from..to] == pattern
  {
    hide Splits, Tokens;
    assert Tokens(pattern) + [] == Tokens(pattern);
    SplitsStart(Tokens(pattern), path, from, to);
    if from <= |path| {
      PlainFrontSplits(pattern, [], path, from, to);
      SplitsNothing(path, from + |pattern|, to);
    }
  }

  lemma HeadsAgree(pattern: string, path: string, from: nat, to: nat)
    requires pattern != "" && from < |path|
    ensures to == from + |pattern| <= |path| ==>
              (path[from..to] == pattern <==> path[from] == pattern[0] && path[from + 1..to] == pattern[1..])
  {
    if to == from + |pattern| <= |path| {
      assert path[from..to] == [path[from]] + path[from + 1..to];
      assert pattern == [pattern[0]] + pattern[1..];
    }
  }

  // ---------- patterns in plain words ----------

  /** A slash within a pattern anchors it as a leading one does. */
  lemma InnerSlashAnchors(a: string, b: string, path: string)
    requires a != "" && b != "" && b != "/" && a[0] != '/'
    ensures Covers(a + "/" + b, path) <==> Covers("/" + (a + "/" + b), path)
  {
    var pattern := a + "/" + b;
    assert ("/" + pattern)[1..] == pattern;
    assert Body(pattern) == Body("/" + pattern);
    assert Body(pattern)[|a|] == '/';
  }

  /** `slashed` is the path with `/` in place of every backslash. */
  ghost predicate IsSlashed(path: string, slashed: string) {
    |slashed| == |path| && forall i | 0 <= i < |path| :: slashed[i] == if path[i] == '\\' then '/' else path[i]
  }

  lemma SlashedIsNormalized(path: string, slashed: string)
    requires IsSlashed(path, slashed)
    ensures Normalized(path) == slashed
  {
  }

  /** Between slashes, an anchored pattern without metacharacters covers that very path and what lies beneath it. */
  lemma PlainPathIsCovered(a: string, path: string, slashed: string)
    requires '*' !in a && '?' !in a && IsSlashed(path, slashed)
    ensures Covers("/" + a + "/", path) <==> slashed == a || a + "/" <= slashed
  {
    RootedPattern(a, path, slashed);
    PlainPatternCovers(a, slashed);
  }

  lemma RootedPattern(body: string, path: string, slashed: string)
    requires IsSlashed(path, slashed)
    ensures Covers("/" + body + "/", path) <==> GlobMatches(Tokens(body), slashed, true)
  {
    hide GlobMatches, Tokens;
    var pattern := "/" + body + "/";
    assert pattern[1..] == body + "/";
    assert (body + "/")[..|body|] == body;
    SlashedIsNormalized(path, slashed);
  }

  lemma {:induction false} TokensOfPlain(a: string, rest: string)
    requires Plain(a)
    ensures Tokens(a + rest) == Tokens(a) + Tokens(rest)
    decreases |a|
  {
    if a == "" {
      assert a + rest == rest;
    } else {
      assert FirstToken(a + rest) == FirstToken(a) == Literal(a[0]);
      assert (a + rest)[1..] == a[1..] + rest;
      TokensOfPlain(a[1..], rest);
    }
  }

  lemma LiteralFirst(c: char, more: seq<Token>, path: string, from: nat, to: nat)
    ensures Splits([Literal(c)] + more, path, from, to) <==>
            from < |path| && path[from] == c && Splits(more, path, from + 1, to)
  {
    hide Splits;
    SplitsFirst(Literal(c), more, path, from, to);
    if from < |path| {
      assert path[from..from + 1] == [path[from]];
    }
  }

  /** Plain text at the front of a pattern is consumed as it is. */
  lemma {:induction false} PlainFrontSplits(a: string, more: seq<Token>, path: string, from: nat, to: nat)
    requires Plain(a) && from <= |path|
    ensures Splits(Tokens(a) + more, path, from, to) <==>
            from + |a| <= |path| && path[from..from + |a|] == a && Splits(more, path, from + |a|, to)
    decreases |a|
  {
    hide Splits;
    if a == "" {
      assert Tokens(a) + more == more;
    } else {
      var rest := a[1..];
      assert Tokens(a) + more == [Literal(a[0])] + (Tokens(rest) + more);
      LiteralFirst(a[0], Tokens(rest) + more, path, from, to);
      if from < |path| {
        PlainFrontSplits(rest, more, path, from + 1, to);
        HeadsAgree(a, path, from, from + |a|);
      }
    }
  }

  /** The path is these four texts, of which the last is empty or begins with a slash. */
  ghost predicate Joins(path: string, a: string, middle: string, b: string, rest: string) {
    path == a + middle + b + rest && (rest == "" || rest[0] == '/')
  }

  /** One metacharacter among plain text. */
  lemma OneMetacharacter(a: string, token: Token, b: string, path: string)
    requires Plain(a) && Plain(b)
    ensures GlobMatches(Tokens(a) + ([token] + Tokens(b)), path, true) <==>
            exists middle, rest :: Joins(path, a, middle, b, rest) && Accepts(token, middle)
  {
    hide GlobMatches, Joins, Accepts;
    if GlobMatches(Tokens(a) + ([token] + Tokens(b)), path, true) {
      var middle, rest := MetacharacterSplits(a, token, b, path);
    }
    if middle, rest :| Joins(path, a, middle, b, rest) && Accepts(token, middle) {
      MetacharacterFound(a, token, b, path, middle, rest);
    }
  }

  lemma MetacharacterSplits(a: string, token: Token, b: string, path: string) returns (middle: string, rest: string)
    requires Plain(a) && Plain(b) && GlobMatches(Tokens(a) + ([token] + Tokens(b)), path, true)
    ensures Joins(path, a, middle, b, rest) && Accepts(token, middle)
  {
    hide Splits, Accepts, Tokens;
    var to: nat :| EndsAt(path, to) && Reached(Tokens(a) + ([token] + Tokens(b)), path, true, to);
    PlainFrontSplits(a, [token] + Tokens(b), path, 0, to);
    SplitsFirst(token, Tokens(b), path, |a|, to);
    var mid: nat :| |a| <= mid <= |path| && Accepts(token, path[|a|..mid]) && Splits(Tokens(b), path, mid, to);
    PlainSplits(b, path, mid, to);
    middle, rest := path[|a|..mid], path[to..];
    FourParts(path, |a|, mid, to);
  }

  lemma FourParts(path: string, i: nat, j: nat, k: nat)
    requires i <= j <= k <= |path|
    ensures path == path[..i] + path[i..j] + path[j..k] + path[k..]
  {
    assert path[..j] == path[..i] + path[i..j];
    assert path[..k] == path[..j] + path[j..k];
  }

  lemma FourJoined(a: string, middle: string, b: string, rest: string)
    ensures var path, mid := a + middle + b + rest, |a| + |middle|;
            path[..|a|] == a && path[|a|..mid] == middle && path[mid..mid + |b|] == b && path[mid + |b|..] == rest
  {
  }

  lemma MetacharacterFound(a: string, token: Token, b: string, path: string, middle: string, rest: string)
    requires Plain(a) && Plain(b) && Joins(path, a, middle, b, rest) && Accepts(token, middle)
    ensures GlobMatches(Tokens(a) + ([token] + Tokens(b)), path, true)
  {
    hide Splits, Accepts, Tokens;
    var mid := |a| + |middle|;
    var to := mid + |b|;
    FourJoined(a, middle, b, rest);
    PlainSplits(b, path, mid, to);
    SplitsFirst(token, Tokens(b), path, |a|, to);
    PlainFrontSplits(a, [token] + Tokens(b), path, 0, to);
    assert StartsAt(path, true, 0) && Reached(Tokens(a) + ([token] + Tokens(b)), path, true, to);
    if rest != "" {
      assert path[to] == path[to..][0];
    }
    assert EndsAt(path, to);
  }

  lemma MetacharacterCovers(a: string, spelling: string, token: Token, b: string, path: string, slashed: string)
    requires Plain(a) && Plain(b) && IsSlashed(path, slashed)
    requires spelling + b != "" && FirstToken(spelling + b) == token && TokenSpelling(token) == spelling
    ensures Covers("/" + (a + spelling + b) + "/", path) <==>
            exists middle, rest :: Joins(slashed, a, middle, b, rest) && Accepts(token, middle)
  {
    hide GlobMatches, Joins, Accepts, Covers, FirstToken, TokenSpelling;
    assert a + spelling + b == a + (spelling + b);
    assert (spelling + b)[|spelling|..] == b;
    TokensOfPlain(a, spelling + b);
    RootedPattern(a + spelling + b, path, slashed);
    OneMetacharacter(a, token, b, slashed);
  }

  /** `?` stands for one character that is no slash. */
  lemma QuestionMarkCovers(a: string, b: string, path: string, slashed: string)
    requires '*' !in a && '?' !in a && '*' !in b && '?' !in b && IsSlashed(path, slashed)
    ensures Covers("/" + (a + "?" + b) + "/", path) <==>
            exists middle, rest :: Joins(slashed, a, middle, b, rest) && |middle| == 1 && middle[0] != '/'
  {
    hide Joins, Covers, Tokens, IsSlashed;
    MetacharacterCovers(a, "?", OneCharacter, b, path, slashed);
  }

  /** `*` stands for any text within one segment. */
  lemma StarCovers(a: string, b: string, path: string, slashed: string)
    requires '*' !in a && '?' !in a && '*' !in b && '?' !in b && IsSlashed(path, slashed)
    ensures Covers("/" + (a + "*" + b) + "/", path) <==>
            exists middle, rest :: Joins(slashed, a, middle, b, rest) && '/' !in middle
  {
    hide Joins, Covers, Tokens, IsSlashed;
    MetacharacterCovers(a, "*", SegmentRun, b, path, slashed);
  }

  /** `**` stands for any text, unless a slash follows it. */
  lemma DoubleStarCovers(a: string, b: string, path: string, slashed: string)
    requires '*' !in a && '?' !in a && '*' !in b && '?' !in b && IsSlashed(path, slashed)
    requires b == "" || b[0] != '/'
    ensures Covers("/" + (a + "**" + b) + "/", path) <==>
            exists middle, rest :: Joins(slashed, a, middle, b, rest)
  {
    hide Joins, Covers, Tokens, IsSlashed;
    MetacharacterCovers(a, "**", PathRun, b, path, slashed);
  }

  /** `**` with a slash after it stands for nothing, or any text that ends in a slash. */
  lemma DescendantCovers(a: string, b: string, path: string, slashed: string)
    requires '*' !in a && '?' !in a && '*' !in b && '?' !in b && IsSlashed(path, slashed)
    ensures Covers("/" + (a + "**/" + b) + "/", path) <==>
            exists middle, rest ::
              Joins(slashed, a, middle, b, rest) && (middle == "" || middle[|middle| - 1] == '/')
  {
    hide Joins, Covers, Tokens, IsSlashed;
    MetacharacterCovers(a, "**/", DescendantPrefix, b, path, slashed);
  }
}
