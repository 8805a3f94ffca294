/** The tokens of a suppression glob and the tokenizer that produces them. */
module GlobTokens {

  const SEPARATOR := '/'

  datatype Token =
    | Literal(character: char)
    | OneCharacter
    | SegmentRun
    | PathRun
    | DescendantPrefix

  /** How a token is written in a pattern. */
  function TokenSpelling(token: Token): string {
    match token
    case Literal(c) => [c]
    case OneCharacter => "?"
    case SegmentRun => "*"
    case PathRun => "**"
    case DescendantPrefix => "**/"
  }

  function Spelling(tokens: seq<Token>): string {
    if tokens == [] then "" else TokenSpelling(tokens[0]) + Spelling(tokens[1..])
  }

  /** The token that the tokenizer takes off the front of a nonempty pattern. */
  function FirstToken(body: string): (token: Token)
    requires body != ""
    ensures TokenSpelling(token) <= body
  {
    if body[0] == '*' && 1 < |body| && body[1] == '*' then
      if 2 < |body| && body[2] == SEPARATOR then DescendantPrefix else PathRun
    else if body[0] == '*' then SegmentRun
    else if body[0] == '?' then OneCharacter
    else Literal(body[0])
  }

  function Tokens(body: string): seq<Token>
    decreases |body|
  {
    if body == "" then []
    else [FirstToken(body)] + Tokens(body[|TokenSpelling(FirstToken(body))|..])
  }

  method TokenizeGlob(body: string) returns (tokens: seq<Token>)
    ensures tokens == Tokens(body)
    ensures Spelling(tokens) == body
  {
    hide Tokens, FirstToken;
    tokens := [];
    var index := 0;
    while index < |body|
      invariant 0 <= index <= |body|
      invariant tokens + Tokens(body[index..]) == Tokens(body)
    {
      var token, width := NextToken(body, index);
      PushOne(tokens, body, index);
      tokens := tokens + [token];
      index := index + width;
    }
    NothingLeft(tokens, body);
    TokenizingIsLossless(body);
  }

  /** The branches of the tokenizer's loop body. */
  method NextToken(body: string, index: nat) returns (token: Token, width: nat)
    requires index < |body|
    ensures token == FirstToken(body[index..])
    ensures width == |TokenSpelling(token)|
  {
    var character := body[index];
    if character == '*' && index + 1 < |body| && body[index + 1] == '*' {
      var swallowsSeparator := index + 2 < |body| && body[index + 2] == SEPARATOR;
      token := if swallowsSeparator then DescendantPrefix else PathRun;
      width := if swallowsSeparator then 3 else 2;
    } else if character == '*' {
      token, width := SegmentRun, 1;
    } else if character == '?' {
      token, width := OneCharacter, 1;
    } else {
      token, width := Literal(character), 1;
    }
  }

  /** Moving the first of the remaining tokens to those already pushed. */
  lemma PushOne(pushed: seq<Token>, body: string, index: nat)
    requires index < |body|
    ensures var first := FirstToken(body[index..]);
            && index + |TokenSpelling(first)| <= |body|
            && pushed + Tokens(body[index..]) == pushed + [first] + Tokens(body[index + |TokenSpelling(first)|..])
  {
    hide TokenSpelling, FirstToken;
    TokensStep(body, index);
  }

  lemma NothingLeft(pushed: seq<Token>, body: string)
    ensures pushed + Tokens(body[|body|..]) == pushed
  {
    assert body[|body|..] == "";
  }

  lemma TokensStep(body: string, index: nat)
    requires index < |body|
    ensures var first := FirstToken(body[index..]);
            && index + |TokenSpelling(first)| <= |body|
            && Tokens(body[index..]) == [first] + Tokens(body[index + |TokenSpelling(first)|..])
  {
    var rest := body[index..];
    var size := |TokenSpelling(FirstToken(rest))|;
    assert rest[size..] == body[index + size..];
  }

  /** No character of the pattern is lost: the spellings concatenate back to it. */
  lemma {:induction false} TokenizingIsLossless(body: string)
    ensures Spelling(Tokens(body)) == body
    decreases |body|
  {
    if body != "" {
      var first := FirstToken(body);
      var rest := body[|TokenSpelling(first)|..];
      assert TokenSpelling(first) + rest == body;
      TokenizingIsLossless(rest);
      assert Tokens(body)[1..] == Tokens(rest);
    }
  }

  /**
   * The token lists the tokenizer can produce: `*` and `?` are never literals,
   * a `*` is not followed by something that would have made it a `**`, and a
   * `**` is not followed by the separator it would have swallowed.
   */
  ghost predicate Canonical(tokens: seq<Token>) {
    && (forall i | 0 <= i < |tokens| :: tokens[i] != Literal('*') && tokens[i] != Literal('?'))
    && (forall i | 0 <= i < |tokens| - 1 ::
          && (tokens[i] == SegmentRun ==> TokenSpelling(tokens[i + 1])[0] != '*')
          && (tokens[i] == PathRun ==> tokens[i + 1] != Literal(SEPARATOR)))
  }

  lemma {:induction false} TokensAreCanonical(body: string)
    ensures Canonical(Tokens(body))
    decreases |body|
  {
    if body != "" {
      var rest := body[|TokenSpelling(FirstToken(body))|..];
      TokensAreCanonical(rest);
      var tokens := Tokens(body);
      forall i | 0 <= i < |tokens| - 1
        ensures tokens[i] == SegmentRun ==> TokenSpelling(tokens[i + 1])[0] != '*'
        ensures tokens[i] == PathRun ==> tokens[i + 1] != Literal(SEPARATOR)
      {
        assert tokens[i + 1] == Tokens(rest)[i];
        if i > 0 {
          assert tokens[i] == Tokens(rest)[i - 1];
        }
      }
    }
  }

  /** Tokenizing inverts spelling on canonical lists, so pattern texts and canonical lists correspond one to one. */
  lemma {:induction false} TokenizingInvertsSpelling(tokens: seq<Token>)
    ensures Canonical(tokens) <==> Tokens(Spelling(tokens)) == tokens
  {
    if Tokens(Spelling(tokens)) == tokens {
      TokensAreCanonical(Spelling(tokens));
    }
    if Canonical(tokens) {
      CanonicalTokenizesBack(tokens);
    }
  }

  lemma {:induction false} CanonicalTokenizesBack(tokens: seq<Token>)
    requires Canonical(tokens)
    ensures Tokens(Spelling(tokens)) == tokens
  {
    if tokens != [] {
      var rest := tokens[1..];
      assert Canonical(rest) by {
        forall i | 0 <= i < |rest| ensures rest[i] == tokens[i + 1] {}
      }
      CanonicalTokenizesBack(rest);
      FirstTokenOfSpelling(tokens);
      assert Spelling(tokens)[|TokenSpelling(tokens[0])|..] == Spelling(rest);
    }
  }

  lemma FirstTokenOfSpelling(tokens: seq<Token>)
    requires tokens != [] && Canonical(tokens)
    ensures Spelling(tokens) != "" && FirstToken(Spelling(tokens)) == tokens[0]
  {
    var body, rest := Spelling(tokens), tokens[1..];
    assert body == TokenSpelling(tokens[0]) + Spelling(rest);
    if rest != [] {
      assert Spelling(rest)[0] == TokenSpelling(rest[0])[0];
    }
    match tokens[0]
    case Literal(c) => assert body[0] == c;
    case OneCharacter =>
    case SegmentRun =>
    case PathRun =>
    case DescendantPrefix =>
  }
}
