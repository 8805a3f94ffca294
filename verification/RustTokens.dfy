/**
 * The lexical structure the scanner is meant to follow: a stream of tokens and
 * the text it is written as.  On every such text the scanner finds the brace
 * that closes the block, because it steps from token to token.
 */
module RustTokens {
  import opened Wrappers
  import opened RustScanner

  /** A block comment's text up to and including its terminator; nested comments are comments themselves. */
  datatype Comment = CloseComment | Text(c: char, rest: Comment) | Nest(inner: Comment, rest: Comment)

  /** A string literal's text up to and including its closing quote. */
  datatype Literal = CloseQuote | Plain(c: char, rest: Literal) | Escaped(c: char, rest: Literal)

  datatype Token =
    | OpenBrace
    | CloseBrace
    | Code(c: char)
    | LineComment(line: string)
    | BlockComment(comment: Comment)
    | Str(literal: Literal)
    | RawStr(isByte: bool, hashes: nat, content: string)
    | CharLit(character: string)
    | EscapedCharLit(c: char)
    | UnicodeCharLit(code: string)
    | Quote  // an apostrophe that opens no character literal, as in a lifetime

  // ---------- how tokens are written ----------

  function CommentText(comment: Comment): (text: string)
    ensures |text| >= 2
  {
    match comment
    case CloseComment => "*/"
    case Text(c, rest) => [c] + CommentText(rest)
    case Nest(inner, rest) => "/*" + (CommentText(inner) + CommentText(rest))
  }

  function LiteralText(literal: Literal): (text: string)
    ensures |text| >= 1
  {
    match literal
    case CloseQuote => "\""
    case Plain(c, rest) => [c] + LiteralText(rest)
    case Escaped(c, rest) => ['\\', c] + LiteralText(rest)
  }

  function RawOpener(isByte: bool, hashes: nat): string {
    (if isByte then "br" else "r") + Hashes(hashes) + "\""
  }

  function RawCloser(hashes: nat): string {
    "\"" + Hashes(hashes)
  }

  function Spelled(token: Token): (text: string)
    ensures |text| >= 1
  {
    match token
    case OpenBrace => "{"
    case CloseBrace => "}"
    case Code(c) => [c]
    case LineComment(line) => "//" + line + "\n"
    case BlockComment(comment) => "/*" + CommentText(comment)
    case Str(literal) => "\"" + LiteralText(literal)
    case RawStr(isByte, hashes, content) => RawOpener(isByte, hashes) + content + RawCloser(hashes)
    case CharLit(character) => "'" + character + "'"
    case EscapedCharLit(c) => "'\\" + [c] + "'"
    case UnicodeCharLit(code) => "'\\u" + code + "}'"
    case Quote => "'"
  }

  /** Tokens in order, and whatever text comes after them. */
  datatype Stream = Rest(text: string) | Next(token: Token, tail: Stream)

  function Spelling(stream: Stream): string {
    match stream
    case Rest(text) => text
    case Next(token, tail) => Spelled(token) + Spelling(tail)
  }

  // ---------- when a text is read as these tokens ----------

  /** No `/` of the comment's own text begins a nested comment, and no `*` ends it. */
  ghost predicate CommentReads(comment: Comment) {
    match comment
    case CloseComment => true
    case Text(c, rest) =>
      && !(c == '/' && CommentText(rest)[0] == '*')
      && !(c == '*' && CommentText(rest)[0] == '/')
      && CommentReads(rest)
    case Nest(inner, rest) => CommentReads(inner) && CommentReads(rest)
  }

  ghost predicate LiteralReads(literal: Literal) {
    match literal
    case CloseQuote => true
    case Plain(c, rest) => c != '"' && c != '\\' && LiteralReads(rest)
    case Escaped(_, rest) => LiteralReads(rest)
  }

  /** The terminator occurs no earlier than at the end of the content. */
  ghost predicate RawContentReads(content: string, hashes: nat) {
    forall k | 0 <= k < |content| :: !At(content + RawCloser(hashes), k, RawCloser(hashes))
  }

  /** The forms of character literal that the scanner knows. */
  ghost predicate CharLiteralReads(token: Token) {
    match token
    case CharLit(character) => character != "" && character[0] != '\\' && |character| == Utf8Length(character[0])
    case EscapedCharLit(c) => c != 'u'
    case UnicodeCharLit(code) => '}' !in code
    case _ => false
  }

  ghost predicate BeginsCharLiteral(text: string) {
    exists token :: CharLiteralReads(token) && Spelled(token) <= text
  }

  ghost predicate BeginsRawString(text: string) {
    exists isByte, hashes :: RawOpener(isByte, hashes) <= text
  }

  /** `inIdentifier` says that the byte before is an identifier byte; `after` is the text that follows the token. */
  ghost predicate Reads(inIdentifier: bool, token: Token, after: string) {
    match token
    case OpenBrace => true
    case CloseBrace => true
    case Code(c) =>
      && c != '{' && c != '}' && c != '"' && c != '\''
      && (c == '/' ==> after == "" || (after[0] != '/' && after[0] != '*'))
      && (c == 'r' || c == 'b' ==> inIdentifier || !BeginsRawString([c] + after))
    case LineComment(line) => '\n' !in line
    case BlockComment(comment) => CommentReads(comment)
    case Str(literal) => LiteralReads(literal)
    case RawStr(_, hashes, content) => !inIdentifier && RawContentReads(content, hashes)
    case CharLit(_) => CharLiteralReads(token)
    case EscapedCharLit(_) => CharLiteralReads(token)
    case UnicodeCharLit(_) => CharLiteralReads(token)
    case Quote => !BeginsCharLiteral("'" + after)
  }

  function EndsInIdentifier(text: string): bool {
    text != "" && IsIdentifierByte(text[|text| - 1])
  }

  /** Each token of the stream is read as such in its place. */
  ghost predicate AllRead(inIdentifier: bool, stream: Stream)
    decreases stream
  {
    match stream
    case Rest(_) => true
    case Next(token, tail) =>
      Reads(inIdentifier, token, Spelling(tail)) && AllRead(EndsInIdentifier(Spelled(token)), tail)
  }

  // ---------- brace depth ----------

  function DepthAfterToken(token: Token, depth: nat): (after: int)
    ensures depth > 0 ==> after >= 0
    ensures depth > 1 || (depth == 1 && token != CloseBrace) ==> after > 0
  {
    match token
    case OpenBrace => depth + 1
    case CloseBrace => depth - 1
    case _ => depth
  }

  /** Where a block that is `depth` deep ends, told from the tokens: just past the brace that closes it. */
  function StreamEnd(index: nat, stream: Stream, depth: nat): Option<nat>
    requires depth > 0
    decreases stream
  {
    match stream
    case Rest(_) => None
    case Next(token, tail) =>
      if token == CloseBrace && depth == 1 then Some(index + 1)
      else StreamEnd(index + |Spelled(token)|, tail, DepthAfterToken(token, depth))
  }

  /** The tokens reach to the end of the source, or at least to the end of the block. */
  ghost predicate Suffices(stream: Stream, depth: nat)
    requires depth > 0
    decreases stream
  {
    match stream
    case Rest(text) => text == ""
    case Next(token, tail) => (token == CloseBrace && depth == 1) || Suffices(tail, DepthAfterToken(token, depth))
  }

  // ---------- offsets ----------

  lemma ByteStands(source: string, index: nat)
    requires index < |source|
    ensures At(source, index, [source[index]])
  {
  }

  lemma TwoBytesStand(source: string, index: nat)
    requires index + 1 < |source|
    ensures At(source, index, [source[index], source[index + 1]])
  {
  }

  lemma SliceStands(source: string, from: nat, to: nat)
    requires from <= to <= |source|
    ensures At(source, from, source[from..to])
  {
  }

  lemma HeadAndTail(source: string, index: nat)
    requires index < |source|
    ensures source[index..] == [source[index]] + source[index + 1..]
  {
  }

  lemma AtSplit(source: string, index: nat, first: string, second: string)
    ensures At(source, index, first + second) <==> At(source, index, first) && At(source, index + |first|, second)
  {
    if index + |first| + |second| <= |source| {
      var whole := source[index..index + |first| + |second|];
      assert whole[..|first|] == source[index..index + |first|];
      assert whole[|first|..] == source[index + |first|..index + |first| + |second|];
      assert whole == whole[..|first|] + whole[|first|..];
    }
  }

  lemma AtByte(source: string, index: nat, text: string, k: nat)
    requires At(source, index, text) && k < |text|
    ensures index + |text| <= |source| && source[index + k] == text[k]
  {
    assert source[index + k] == source[index..index + |text|][k];
  }

  lemma AtWithin(source: string, index: nat, text: string, k: nat, part: string)
    requires At(source, index, text) && k + |part| <= |text|
    ensures At(source, index + k, part) <==> At(text, k, part)
  {
    var middle := text[k..k + |part|];
    assert text == text[..k] + (middle + text[k + |part|..]);
    AtSplit(source, index, text[..k], middle + text[k + |part|..]);
    AtSplit(source, index + k, middle, text[k + |part|..]);
  }

  // ---------- comments ----------

  lemma NestedOpens(source: string, index: nat, depth: nat)
    requires depth > 0 && At(source, index, "/*")
    ensures BlockCommentEnd(source, index, depth) == BlockCommentEnd(source, index + 2, depth + 1)
  {
    AtByte(source, index, "/*", 0);
    AtByte(source, index, "/*", 1);
  }

  lemma CommentCloses(source: string, index: nat, depth: nat)
    requires depth > 0 && At(source, index, "*/")
    ensures BlockCommentEnd(source, index, depth)
         == if depth == 1 then index + 2 else BlockCommentEnd(source, index + 2, depth - 1)
  {
    AtByte(source, index, "*/", 0);
    AtByte(source, index, "*/", 1);
  }

  lemma CommentContinues(source: string, index: nat, c: char, rest: Comment, depth: nat)
    requires depth > 0 && CommentReads(Text(c, rest)) && At(source, index, [c] + CommentText(rest))
    ensures BlockCommentEnd(source, index, depth) == BlockCommentEnd(source, index + 1, depth)
  {
    AtByte(source, index, [c] + CommentText(rest), 0);
    AtByte(source, index, [c] + CommentText(rest), 1);
  }

  lemma NestedParts(source: string, index: nat, inner: Comment, rest: Comment)
    requires At(source, index, CommentText(Nest(inner, rest)))
    ensures At(source, index, "/*") && At(source, index + 2, CommentText(inner))
    ensures At(source, index + 2 + |CommentText(inner)|, CommentText(rest))
    ensures |CommentText(Nest(inner, rest))| == 2 + |CommentText(inner)| + |CommentText(rest)|
  {
    hide At;
    AtSplit(source, index, "/*", CommentText(inner) + CommentText(rest));
    AtSplit(source, index + 2, CommentText(inner), CommentText(rest));
  }

  /** Where the scan of a comment at this depth goes on once the comment's own terminator is behind it. */
  function AfterComment(source: string, end: nat, depth: nat): nat
    requires depth > 0
  {
    if depth == 1 then end else BlockCommentEnd(source, end, depth - 1)
  }

  /** From within a comment the scan leaves it at its own terminator, at whatever depth. */
  lemma {:induction false} CommentIsSkipped(source: string, index: nat, comment: Comment, depth: nat)
    requires depth > 0 && CommentReads(comment) && At(source, index, CommentText(comment))
    ensures BlockCommentEnd(source, index, depth) == AfterComment(source, index + |CommentText(comment)|, depth)
    decreases comment, 1
  {
    hide At, BlockCommentEnd;
    match comment
    case CloseComment => CommentCloses(source, index, depth);
    case Text(c, rest) =>
      CommentContinues(source, index, c, rest, depth);
      AtSplit(source, index, [c], CommentText(rest));
      CommentIsSkipped(source, index + 1, rest, depth);
    case Nest(inner, rest) => NestIsSkipped(source, index, inner, rest, depth);
  }

  lemma {:induction false} NestIsSkipped(source: string, index: nat, inner: Comment, rest: Comment, depth: nat)
    requires depth > 0 && CommentReads(inner) && CommentReads(rest)
    requires At(source, index, CommentText(Nest(inner, rest)))
    ensures BlockCommentEnd(source, index, depth) == AfterComment(source, index + |CommentText(Nest(inner, rest))|, depth)
    decreases Nest(inner, rest), 0
  {
    hide At, CommentReads, BlockCommentEnd;
    NestedParts(source, index, inner, rest);
    NestedOpens(source, index, depth);
    CommentIsSkipped(source, index + 2, inner, depth + 1);
    CommentIsSkipped(source, index + 2 + |CommentText(inner)|, rest, depth);
  }

  lemma {:induction false} LineIsSkipped(source: string, index: nat, line: string)
    requires '\n' !in line && At(source, index, line + "\n")
    ensures LineCommentEnd(source, index) == index + |line| + 1
    decreases |line|
  {
    AtByte(source, index, line + "\n", 0);
    if line != "" {
      assert line + "\n" == [line[0]] + (line[1..] + "\n");
      AtSplit(source, index, [line[0]], line[1..] + "\n");
      LineIsSkipped(source, index + 1, line[1..]);
    }
  }

  // ---------- strings ----------

  lemma {:induction false} LiteralIsSkipped(source: string, index: nat, literal: Literal)
    requires LiteralReads(literal) && At(source, index, LiteralText(literal))
    ensures StringEnd(source, index) == index + |LiteralText(literal)|
    decreases literal
  {
    hide At;
    AtByte(source, index, LiteralText(literal), 0);
    match literal
    case CloseQuote =>
    case Plain(c, rest) =>
      AtSplit(source, index, [c], LiteralText(rest));
      LiteralIsSkipped(source, index + 1, rest);
    case Escaped(c, rest) =>
      AtSplit(source, index, ['\\', c], LiteralText(rest));
      LiteralIsSkipped(source, index + 2, rest);
  }

  lemma {:induction false} HashesAreCounted(source: string, index: nat, hashes: nat)
    requires At(source, index, Hashes(hashes)) && !Has(source, index + hashes, '#')
    ensures HashesEnd(source, index) == index + hashes
    decreases hashes
  {
    if hashes > 0 {
      assert Hashes(hashes) == ['#'] + Hashes(hashes - 1);
      AtSplit(source, index, ['#'], Hashes(hashes - 1));
      AtByte(source, index, Hashes(hashes), 0);
      HashesAreCounted(source, index + 1, hashes - 1);
    }
  }

  lemma {:induction false} HashesAreHashes(source: string, index: nat)
    requires index <= |source|
    ensures At(source, index, Hashes(HashesEnd(source, index) - index))
    decreases |source| - index
  {
    if Has(source, index, '#') {
      HashesAreHashes(source, index + 1);
      var n := HashesEnd(source, index) - index;
      assert Hashes(n) == ['#'] + Hashes(n - 1);
      AtSplit(source, index, ['#'], Hashes(n - 1));
      assert source[index..index + 1] == ['#'];
    }
  }

  lemma OpenerParts(source: string, index: nat, isByte: bool, hashes: nat)
    requires At(source, index, RawOpener(isByte, hashes))
    ensures var prefix := if isByte then "br" else "r";
            && At(source, index, prefix)
            && At(source, index + |prefix|, Hashes(hashes))
            && At(source, index + |prefix| + hashes, "\"")
  {
    hide At, Hashes;
    var prefix := if isByte then "br" else "r";
    assert RawOpener(isByte, hashes) == prefix + (Hashes(hashes) + "\"");
    AtSplit(source, index, prefix, Hashes(hashes) + "\"");
    AtSplit(source, index + |prefix|, Hashes(hashes), "\"");
  }

  lemma OpenerIsRecognised(source: string, index: nat, isByte: bool, hashes: nat)
    requires At(source, index, RawOpener(isByte, hashes))
    requires index == 0 || !IsIdentifierByte(source[index - 1])
    ensures RawStringHashes(source, index) == Some(RawOpening(index + |RawOpener(isByte, hashes)| - 1, hashes))
  {
    hide At, HashesEnd, Hashes;
    var prefix := if isByte then "br" else "r";
    OpenerParts(source, index, isByte, hashes);
    AtByte(source, index, prefix, 0);
    AtByte(source, index, prefix, |prefix| - 1);
    AtByte(source, index + |prefix| + hashes, "\"", 0);
    HashesAreCounted(source, index + |prefix|, hashes);
  }

  /** Where a raw string is recognised, its opening is spelled out. */
  lemma OpenerStands(source: string, index: nat)
    requires index < |source| && RawStringHashes(source, index).Some?
    ensures var opening := RawStringHashes(source, index).value;
            var opener := RawOpener(source[index] == 'b', opening.hashes);
            At(source, index, opener) && opening.quote + 1 == index + |opener|
  {
    hide At, HashesEnd, Hashes;
    var isByte := source[index] == 'b';
    var prefix := if isByte then "br" else "r";
    var start := index + |prefix|;
    var hashes := HashesEnd(source, start) - start;
    HashesAreHashes(source, start);
    if isByte {
      TwoBytesStand(source, index);
    } else {
      ByteStands(source, index);
    }
    ByteStands(source, start + hashes);
    AtSplit(source, start, Hashes(hashes), "\"");
    AtSplit(source, index, prefix, Hashes(hashes) + "\"");
    assert RawOpener(isByte, hashes) == prefix + (Hashes(hashes) + "\"");
  }

  lemma RecognisedIsOpener(source: string, index: nat)
    requires index < |source| && RawStringHashes(source, index).Some?
    ensures BeginsRawString(source[index..])
  {
    OpenerStands(source, index);
    assert RawOpener(source[index] == 'b', RawStringHashes(source, index).value.hashes) <= source[index..];
  }

  lemma {:induction false} RawContentIsSkipped(source: string, index: nat, content: string, hashes: nat, k: nat)
    requires k <= |content| && RawContentReads(content, hashes)
    requires At(source, index, content + RawCloser(hashes))
    ensures RawStringEnd(source, index + k, hashes) == index + |content| + 1 + hashes
    decreases |content| - k
  {
    hide At;
    AtSplit(source, index, content, RawCloser(hashes));
    AtByte(source, index + |content|, RawCloser(hashes), 0);
    if k < |content| {
      AtWithin(source, index, content + RawCloser(hashes), k, RawCloser(hashes));
      RawContentIsSkipped(source, index, content, hashes, k + 1);
    }
  }

  // ---------- character literals ----------

  lemma {:induction false} BraceIsFound(source: string, index: nat, code: string)
    requires '}' !in code && At(source, index, code + "}")
    ensures BraceFrom(source, index) == index + |code|
    decreases |code|
  {
    AtByte(source, index, code + "}", 0);
    if code != "" {
      assert code + "}" == [code[0]] + (code[1..] + "}");
      AtSplit(source, index, [code[0]], code[1..] + "}");
      BraceIsFound(source, index + 1, code[1..]);
    }
  }

  lemma PlainCharIsSkipped(source: string, index: nat, character: string)
    requires CharLiteralReads(CharLit(character)) && At(source, index, Spelled(CharLit(character)))
    ensures CharLiteralEnd(source, index) == index + |character| + 2
  {
    var text := Spelled(CharLit(character));
    AtByte(source, index, text, 0);
    AtByte(source, index, text, 1);
    AtByte(source, index, text, |text| - 1);
  }

  lemma EscapedCharIsSkipped(source: string, index: nat, c: char)
    requires c != 'u' && At(source, index, Spelled(EscapedCharLit(c)))
    ensures CharLiteralEnd(source, index) == index + 4
  {
    var text := Spelled(EscapedCharLit(c));
    AtByte(source, index, text, 0);
    AtByte(source, index, text, 1);
    AtByte(source, index, text, 2);
    AtByte(source, index, text, 3);
  }

  lemma UnicodeParts(source: string, index: nat, code: string)
    requires At(source, index, Spelled(UnicodeCharLit(code)))
    ensures At(source, index, "'\\") && At(source, index + 2, "u" + code + "}") && At(source, index + |code| + 4, "'")
  {
    var body := "u" + code + "}";
    assert Spelled(UnicodeCharLit(code)) == "'\\" + (body + "'");
    AtSplit(source, index, "'\\", body + "'");
    AtSplit(source, index + 2, body, "'");
  }

  lemma UnicodeCharIsSkipped(source: string, index: nat, code: string)
    requires '}' !in code && At(source, index, Spelled(UnicodeCharLit(code)))
    ensures CharLiteralEnd(source, index) == index + |code| + 5
  {
    UnicodeParts(source, index, code);
    AtByte(source, index, "'\\", 0);
    AtByte(source, index, "'\\", 1);
    AtByte(source, index + 2, "u" + code + "}", 0);
    AtByte(source, index + |code| + 4, "'", 0);
    BraceIsFound(source, index + 2, "u" + code);
  }

  /** When the scanner takes an apostrophe for the start of a literal, one of the known forms begins there. */
  lemma LiteralFormFound(source: string, index: nat)
    requires Has(source, index, '\'') && CharLiteralEnd(source, index) != index + 1
    ensures BeginsCharLiteral(source[index..])
  {
    if !Has(source, index + 1, '\\') {
      PlainFormFound(source, index);
    } else if Has(source, index + 2, 'u') {
      UnicodeFormFound(source, index);
    } else {
      FormFound(source, index, EscapedCharLit(source[index + 2]));
    }
  }

  lemma PlainFormFound(source: string, index: nat)
    requires Has(source, index, '\'') && CharLiteralEnd(source, index) != index + 1 && !Has(source, index + 1, '\\')
    ensures BeginsCharLiteral(source[index..])
  {
    FormFound(source, index, CharLit(source[index + 1..CharLiteralEnd(source, index) - 1]));
  }

  lemma UnicodeFormFound(source: string, index: nat)
    requires Has(source, index, '\'') && Has(source, index + 1, '\\') && Has(source, index + 2, 'u')
    requires Has(source, BraceFrom(source, index + 2) + 1, '\'')
    ensures BeginsCharLiteral(source[index..])
  {
    hide CharLiteralReads;
    var brace := BraceFrom(source, index + 2);
    BraceEndsCode(source, index + 2);
    assert brace > index + 2;
    var code := source[index + 3..brace];
    assert source[index + 2..brace] == ['u'] + code;
    assert source[index..brace + 2] == "'\\u" + code + "}'";
    FormFound(source, index, UnicodeCharLit(code));
  }

  lemma FormFound(source: string, index: nat, token: Token)
    requires CharLiteralReads(token)
    requires index + |Spelled(token)| <= |source|
    requires source[index..index + |Spelled(token)|] == Spelled(token)
    ensures BeginsCharLiteral(source[index..])
  {
    assert Spelled(token) <= source[index..];
  }

  lemma {:induction false} BraceEndsCode(source: string, index: nat)
    requires index <= |source|
    ensures '}' !in source[index..BraceFrom(source, index)]
    ensures BraceFrom(source, index) < |source| ==> source[BraceFrom(source, index)] == '}'
    decreases |source| - index
  {
    if index < |source| && source[index] != '}' {
      BraceEndsCode(source, index + 1);
      var end := BraceFrom(source, index);
      assert source[index..end] == [source[index]] + source[index + 1..end];
    }
  }

  // ---------- one token ----------

  ghost predicate InIdentifier(source: string, index: nat) {
    0 < index <= |source| && IsIdentifierByte(source[index - 1])
  }

  /** The text after a token, as it stands in the source. */
  ghost predicate Stands(source: string, index: nat, token: Token, after: string) {
    index + |Spelled(token)| <= |source| && source[index..] == Spelled(token) + after
  }

  lemma StandsAt(source: string, index: nat, token: Token, after: string)
    requires Stands(source, index, token, after)
    ensures At(source, index, Spelled(token))
  {
    assert source[index..][..|Spelled(token)|] == Spelled(token);
  }

  lemma RawStringParts(source: string, index: nat, isByte: bool, hashes: nat, content: string)
    requires At(source, index, Spelled(RawStr(isByte, hashes, content)))
    ensures At(source, index, RawOpener(isByte, hashes))
    ensures At(source, index + |RawOpener(isByte, hashes)|, content + RawCloser(hashes))
    ensures source[index] == 'r' || source[index] == 'b'
  {
    var opener, rest := RawOpener(isByte, hashes), content + RawCloser(hashes);
    assert Spelled(RawStr(isByte, hashes, content)) == opener + rest;
    AtSplit(source, index, opener, rest);
    AtByte(source, index, opener, 0);
  }

  lemma RawStringIsSkipped(source: string, index: nat, isByte: bool, hashes: nat, content: string)
    requires !InIdentifier(source, index) && RawContentReads(content, hashes)
    requires At(source, index, Spelled(RawStr(isByte, hashes, content)))
    ensures SkipFrom(source, index) == index + |Spelled(RawStr(isByte, hashes, content))|
  {
    hide At, RawContentReads, RawOpener, RawStringEnd, RawStringHashes;
    RawStringParts(source, index, isByte, hashes, content);
    OpenerIsRecognised(source, index, isByte, hashes);
    RawContentIsSkipped(source, index + |RawOpener(isByte, hashes)|, content, hashes, 0);
  }

  lemma LineCommentIsSkipped(source: string, index: nat, line: string)
    requires '\n' !in line && At(source, index, Spelled(LineComment(line)))
    ensures SkipFrom(source, index) == index + |line| + 3
  {
    AtByte(source, index, Spelled(LineComment(line)), 0);
    AtByte(source, index, Spelled(LineComment(line)), 1);
    assert Spelled(LineComment(line)) == "//" + (line + "\n");
    AtSplit(source, index, "//", line + "\n");
    LineIsSkipped(source, index + 2, line);
  }

  lemma BlockCommentIsSkipped(source: string, index: nat, comment: Comment)
    requires CommentReads(comment) && At(source, index, Spelled(BlockComment(comment)))
    ensures SkipFrom(source, index) == index + 2 + |CommentText(comment)|
  {
    hide At, CommentReads, CommentText, BlockCommentEnd;
    AtByte(source, index, Spelled(BlockComment(comment)), 0);
    AtByte(source, index, Spelled(BlockComment(comment)), 1);
    AtSplit(source, index, "/*", CommentText(comment));
    CommentIsSkipped(source, index + 2, comment, 1);
  }

  lemma CodeIsSkipped(source: string, index: nat, c: char, after: string)
    requires Stands(source, index, Code(c), after) && Reads(InIdentifier(source, index), Code(c), after)
    ensures source[index] == c && SkipFrom(source, index) == index + 1
  {
    hide At, HashesEnd, BeginsRawString;
    StandsAt(source, index, Code(c), after);
    AtByte(source, index, [c], 0);
    HeadAndTail(source, index);
    assert source[index + 1..] == after;
    if c == 'r' || c == 'b' {
      if RawStringHashes(source, index).Some? {
        RecognisedIsOpener(source, index);
      }
    }
  }

  ghost predicate IsBrace(token: Token) {
    token.OpenBrace? || token.CloseBrace?
  }

  /** Every token that is no brace is stepped over as a whole. */
  lemma TokenIsSkipped(source: string, index: nat, token: Token, after: string)
    requires !IsBrace(token)
    requires Stands(source, index, token, after) && Reads(InIdentifier(source, index), token, after)
    ensures source[index] != '{' && source[index] != '}'
    ensures SkipFrom(source, index) == index + |Spelled(token)|
  {
    hide At, CommentText, LiteralText, CommentReads, LiteralReads, RawContentReads, StringEnd, BlockCommentEnd, LineCommentEnd;
    StandsAt(source, index, token, after);
    AtByte(source, index, Spelled(token), 0);
    match token
    case Code(c) => CodeIsSkipped(source, index, c, after);
    case LineComment(line) => LineCommentIsSkipped(source, index, line);
    case BlockComment(comment) => BlockCommentIsSkipped(source, index, comment);
    case Str(literal) =>
      AtSplit(source, index, "\"", LiteralText(literal));
      LiteralIsSkipped(source, index + 1, literal);
    case RawStr(isByte, hashes, content) => RawStringIsSkipped(source, index, isByte, hashes, content);
    case CharLit(character) => PlainCharIsSkipped(source, index, character);
    case EscapedCharLit(c) => EscapedCharIsSkipped(source, index, c);
    case UnicodeCharLit(code) => UnicodeCharIsSkipped(source, index, code);
    case Quote =>
      if CharLiteralEnd(source, index) != index + 1 {
        LiteralFormFound(source, index);
      }
  }

  // ---------- whole streams ----------

  lemma TokenMovesOn(source: string, index: nat, token: Token, after: string)
    requires Stands(source, index, token, after)
    ensures source[index + |Spelled(token)|..] == after
    ensures InIdentifier(source, index + |Spelled(token)|) == EndsInIdentifier(Spelled(token))
  {
    StandsAt(source, index, token, after);
    AtByte(source, index, Spelled(token), |Spelled(token)| - 1);
    assert source[index..][|Spelled(token)|..] == source[index + |Spelled(token)|..];
  }

  /** The scanner's next step takes it over exactly this token. */
  ghost predicate StepsOver(source: string, index: nat, token: Token) {
    index < |source| &&
    match token
    case OpenBrace => source[index] == '{'
    case CloseBrace => source[index] == '}'
    case _ => source[index] != '{' && source[index] != '}' && SkipFrom(source, index) == index + |Spelled(token)|
  }

  lemma TokenIsStepped(source: string, index: nat, token: Token, after: string)
    requires Stands(source, index, token, after) && Reads(InIdentifier(source, index), token, after)
    ensures StepsOver(source, index, token)
  {
    StandsAt(source, index, token, after);
    AtByte(source, index, Spelled(token), 0);
    if !IsBrace(token) {
      TokenIsSkipped(source, index, token, after);
    }
  }

  /** The scanner's steps from `index` on are the tokens of the stream, which may run to the end of the source. */
  ghost predicate StepsAlong(source: string, index: nat, stream: Stream)
    decreases stream
  {
    match stream
    case Rest(text) => text == "" ==> index == |source|
    case Next(token, tail) => StepsOver(source, index, token) && StepsAlong(source, index + |Spelled(token)|, tail)
  }

  /** The stream is what the source holds from `index` on. */
  ghost predicate StreamStands(source: string, index: nat, stream: Stream) {
    index <= |source| && source[index..] == Spelling(stream) && AllRead(InIdentifier(source, index), stream)
  }

  lemma FirstTokenStands(source: string, index: nat, token: Token, tail: Stream)
    requires StreamStands(source, index, Next(token, tail))
    ensures StepsOver(source, index, token)
    ensures StreamStands(source, index + |Spelled(token)|, tail)
  {
    TokenIsStepped(source, index, token, Spelling(tail));
    TokenMovesOn(source, index, token, Spelling(tail));
  }

  lemma {:induction false} StreamIsStepped(source: string, index: nat, stream: Stream)
    requires StreamStands(source, index, stream)
    ensures StepsAlong(source, index, stream)
    decreases stream
  {
    hide Spelled, Reads, StepsOver, AllRead;
    match stream
    case Rest(_) =>
    case Next(token, tail) =>
      FirstTokenStands(source, index, token, tail);
      StreamIsStepped(source, index + |Spelled(token)|, tail);
  }

  /** One step of the scan changes the depth as its token does. */
  lemma StepChangesDepth(source: string, index: nat, token: Token, depth: nat)
    requires StepsOver(source, index, token) && depth > 0 && !(token == CloseBrace && depth == 1)
    ensures BlockEnd(source, index, depth) == BlockEnd(source, index + |Spelled(token)|, DepthAfterToken(token, depth))
  {
    hide SkipFrom;
  }

  /** A scan that steps from token to token finds the end of the block that the tokens tell. */
  lemma {:induction false} StepsFindTheEnd(source: string, index: nat, stream: Stream, depth: nat)
    requires StepsAlong(source, index, stream) && depth > 0 && Suffices(stream, depth)
    ensures BlockEnd(source, index, depth) == StreamEnd(index, stream, depth)
    decreases stream
  {
    hide Spelled, SkipFrom;
    match stream
    case Rest(_) =>
    case Next(token, tail) =>
      if !(token == CloseBrace && depth == 1) {
        StepChangesDepth(source, index, token, depth);
        StepsFindTheEnd(source, index + |Spelled(token)|, tail, DepthAfterToken(token, depth));
      }
  }

  lemma StreamPlaced(before: string, stream: Stream)
    requires AllRead(EndsInIdentifier(before), stream)
    ensures StreamStands(before + Spelling(stream), |before|, stream)
  {
    var source := before + Spelling(stream);
    assert source[|before|..] == Spelling(stream);
    assert InIdentifier(source, |before|) == EndsInIdentifier(before);
  }

  /**
   * After any text, the body of a block is followed to the brace that closes
   * it, or to the end of the source if nothing does: braces in strings, raw
   * strings, character literals and comments do not count.
   */
  lemma BlockEndsAtItsBrace(before: string, stream: Stream)
    requires AllRead(EndsInIdentifier(before), stream) && Suffices(stream, 1)
    ensures BlockEnd(before + Spelling(stream), |before|, 1) == StreamEnd(|before|, stream, 1)
  {
    StreamPlaced(before, stream);
    StreamIsStepped(before + Spelling(stream), |before|, stream);
    StepsFindTheEnd(before + Spelling(stream), |before|, stream, 1);
  }
}
