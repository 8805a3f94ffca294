/**
 * The other direction: wherever the scanner finds the end of a block, the
 * source divides into tokens that tell the same end.
 */
module RustReading {
  import opened Wrappers
  import opened RustScanner
  import opened RustTokens

  // ---------- comments and strings read back ----------

  /** What a comment's scan passed over is the text of a comment. */
  lemma {:induction false} CommentFound(source: string, index: nat, depth: nat) returns (comment: Comment)
    requires depth > 0 && BlockCommentEnd(source, index, depth) < |source|
    ensures CommentReads(comment) && At(source, index, CommentText(comment))
    ensures BlockCommentEnd(source, index, depth) == AfterComment(source, index + |CommentText(comment)|, depth)
    decreases |source| - index, 1
  {
    hide At, BlockCommentEnd;
    if At(source, index, "/*") {
      comment := NestFound(source, index, depth);
    } else if At(source, index, "*/") {
      comment := CloseComment;
      CommentCloses(source, index, depth);
    } else {
      CommentGoesOn(source, index, depth);
      var rest := CommentFound(source, index + 1, depth);
      comment := Text(source[index], rest);
      TextReads(source, index, rest);
    }
  }

  lemma {:induction false} NestFound(source: string, index: nat, depth: nat) returns (comment: Comment)
    requires depth > 0 && BlockCommentEnd(source, index, depth) < |source| && At(source, index, "/*")
    ensures CommentReads(comment) && At(source, index, CommentText(comment))
    ensures BlockCommentEnd(source, index, depth) == AfterComment(source, index + |CommentText(comment)|, depth)
    decreases |source| - index, 0
  {
    hide At, BlockCommentEnd;
    AtByte(source, index, "/*", 0);
    NestedOpens(source, index, depth);
    var inner := CommentFound(source, index + 2, depth + 1);
    var rest := CommentFound(source, index + 2 + |CommentText(inner)|, depth);
    comment := Nest(inner, rest);
    AtSplit(source, index + 2, CommentText(inner), CommentText(rest));
    AtSplit(source, index, "/*", CommentText(inner) + CommentText(rest));
  }

  /** One byte that begins neither a comment nor a terminator is passed over. */
  lemma CommentGoesOn(source: string, index: nat, depth: nat)
    requires depth > 0 && BlockCommentEnd(source, index, depth) < |source|
    requires !At(source, index, "/*") && !At(source, index, "*/")
    ensures index < |source| && BlockCommentEnd(source, index, depth) == BlockCommentEnd(source, index + 1, depth)
  {
    if index + 1 < |source| {
      assert source[index..index + 2] == [source[index], source[index + 1]];
    }
  }

  lemma TextReads(source: string, index: nat, rest: Comment)
    requires index < |source| && CommentReads(rest) && At(source, index + 1, CommentText(rest))
    requires !At(source, index, "/*") && !At(source, index, "*/")
    ensures CommentReads(Text(source[index], rest)) && At(source, index, CommentText(Text(source[index], rest)))
  {
    hide At;
    AtByte(source, index + 1, CommentText(rest), 0);
    TwoBytesStand(source, index);
    ByteStands(source, index);
    AtSplit(source, index, [source[index]], CommentText(rest));
  }

  lemma {:induction false} LiteralFound(source: string, index: nat) returns (literal: Literal)
    requires StringEnd(source, index) < |source|
    ensures LiteralReads(literal) && At(source, index, LiteralText(literal))
    ensures StringEnd(source, index) == index + |LiteralText(literal)|
    decreases |source| - index
  {
    hide At;
    if source[index] == '\\' {
      var rest := LiteralFound(source, index + 2);
      literal := Escaped(source[index + 1], rest);
      TwoBytesStand(source, index);
      AtSplit(source, index, ['\\', source[index + 1]], LiteralText(rest));
    } else if source[index] == '"' {
      literal := CloseQuote;
      ByteStands(source, index);
    } else {
      var rest := LiteralFound(source, index + 1);
      literal := Plain(source[index], rest);
      ByteStands(source, index);
      AtSplit(source, index, [source[index]], LiteralText(rest));
    }
  }

  lemma {:induction false} LineFound(source: string, index: nat)
    requires LineCommentEnd(source, index) < |source|
    ensures var end := LineCommentEnd(source, index);
            index < end && source[end - 1] == '\n' && '\n' !in source[index..end - 1]
    decreases |source| - index
  {
    if source[index] != '\n' {
      LineFound(source, index + 1);
      var end := LineCommentEnd(source, index);
      assert source[index..end - 1] == [source[index]] + source[index + 1..end - 1];
    }
  }

  /** The scan of raw content stops at the first terminator. */
  lemma {:induction false} TerminatorFound(source: string, index: nat, hashes: nat)
    requires RawStringEnd(source, index, hashes) < |source|
    ensures var close := RawStringEnd(source, index, hashes) - 1 - hashes;
            && index <= close && At(source, close, RawCloser(hashes))
            && forall k | index <= k < close :: !At(source, k, RawCloser(hashes))
    decreases |source| - index
  {
    hide At;
    if !At(source, index, RawCloser(hashes)) {
      TerminatorFound(source, index + 1, hashes);
    }
  }

  lemma RawContentFound(source: string, index: nat, hashes: nat) returns (content: string)
    requires RawStringEnd(source, index, hashes) < |source|
    ensures RawContentReads(content, hashes) && At(source, index, content + RawCloser(hashes))
    ensures RawStringEnd(source, index, hashes) == index + |content| + 1 + hashes
  {
    TerminatorFound(source, index, hashes);
    var close := RawStringEnd(source, index, hashes) - 1 - hashes;
    content := source[index..close];
    AtSplit(source, index, content, RawCloser(hashes));
    forall k | 0 <= k < |content| ensures !At(content + RawCloser(hashes), k, RawCloser(hashes)) {
      AtWithin(source, index, content + RawCloser(hashes), k, RawCloser(hashes));
    }
  }

  // ---------- tokens read back ----------

  /** The token stands here and is what the scanner's next step passes over. */
  ghost predicate IsNext(source: string, index: nat, token: Token)
    requires index < |source|
  {
    && !IsBrace(token) && At(source, index, Spelled(token))
    && SkipFrom(source, index) == index + |Spelled(token)|
    && Reads(InIdentifier(source, index), token, source[index + |Spelled(token)|..])
  }

  lemma LineCommentIsNext(source: string, index: nat) returns (token: Token)
    requires index < |source| && source[index] == '/' && Has(source, index + 1, '/') && SkipFrom(source, index) < |source|
    ensures IsNext(source, index, token)
  {
    hide At, LineCommentEnd;
    var line := LineRead(source, index + 2);
    token := LineComment(line);
    TwoBytesStand(source, index);
    LineStands(source, index, line);
  }

  lemma LineRead(source: string, index: nat) returns (line: string)
    requires LineCommentEnd(source, index) < |source|
    ensures '\n' !in line && At(source, index, line) && At(source, index + |line|, "\n")
    ensures LineCommentEnd(source, index) == index + |line| + 1
  {
    hide At, LineCommentEnd;
    LineFound(source, index);
    var end := LineCommentEnd(source, index) - 1;
    line := source[index..end];
    SliceStands(source, index, end);
    ByteStands(source, end);
  }

  lemma LineStands(source: string, index: nat, line: string)
    requires At(source, index, "//") && At(source, index + 2, line) && At(source, index + 2 + |line|, "\n")
    ensures At(source, index, Spelled(LineComment(line)))
  {
    hide At;
    AtSplit(source, index, "//", line);
    AtSplit(source, index, "//" + line, "\n");
  }

  lemma BlockCommentIsNext(source: string, index: nat) returns (token: Token)
    requires index < |source| && source[index] == '/' && Has(source, index + 1, '*') && SkipFrom(source, index) < |source|
    ensures IsNext(source, index, token)
  {
    hide At, CommentReads, CommentText, BlockCommentEnd;
    var comment := CommentFound(source, index + 2, 1);
    token := BlockComment(comment);
    TwoBytesStand(source, index);
    AtSplit(source, index, "/*", CommentText(comment));
  }

  lemma StringIsNext(source: string, index: nat) returns (token: Token)
    requires index < |source| && source[index] == '"' && SkipFrom(source, index) < |source|
    ensures IsNext(source, index, token)
  {
    hide At, StringEnd, LiteralText, LiteralReads;
    var literal := LiteralFound(source, index + 1);
    token := Str(literal);
    ByteStands(source, index);
    AtSplit(source, index, "\"", LiteralText(literal));
  }

  lemma RawStringIsNext(source: string, index: nat) returns (token: Token)
    requires index < |source| && (source[index] == 'r' || source[index] == 'b') && SkipFrom(source, index) < |source|
    requires RawStringHashes(source, index).Some?
    ensures IsNext(source, index, token)
  {
    hide At, RawContentReads, RawOpener, RawStringEnd, HashesEnd, Hashes;
    var opening, isByte := RawStringHashes(source, index).value, source[index] == 'b';
    OpenerStands(source, index);
    var opener := RawOpener(isByte, opening.hashes);
    var content := RawContentFound(source, opening.quote + 1, opening.hashes);
    token := RawStr(isByte, opening.hashes, content);
    RawStringStands(source, index, isByte, opening.hashes, content);
  }

  lemma RawStringStands(source: string, index: nat, isByte: bool, hashes: nat, content: string)
    requires At(source, index, RawOpener(isByte, hashes))
    requires At(source, index + |RawOpener(isByte, hashes)|, content + RawCloser(hashes))
    ensures At(source, index, Spelled(RawStr(isByte, hashes, content)))
  {
    hide At, RawOpener, RawCloser;
    var opener, closer := RawOpener(isByte, hashes), RawCloser(hashes);
    AtSplit(source, index + |opener|, content, closer);
    AtSplit(source, index, opener, content);
    AtSplit(source, index, opener + content, closer);
  }

  /** A literal that begins here is what the scanner takes. */
  lemma CharLiteralIsTaken(source: string, index: nat, token: Token)
    requires CharLiteralReads(token) && At(source, index, Spelled(token))
    ensures index < |source| && CharLiteralEnd(source, index) == index + |Spelled(token)| > index + 1
  {
    match token
    case CharLit(character) => PlainCharIsSkipped(source, index, character);
    case EscapedCharLit(c) => EscapedCharIsSkipped(source, index, c);
    case UnicodeCharLit(code) => UnicodeCharIsSkipped(source, index, code);
  }

  lemma PrefixStands(source: string, index: nat, text: string)
    requires index <= |source|
    ensures text <= source[index..] <==> At(source, index, text)
  {
    if index + |text| <= |source| {
      assert source[index..][..|text|] == source[index..index + |text|];
    }
  }

  lemma ApostropheIsNext(source: string, index: nat) returns (token: Token)
    requires index < |source| && source[index] == '\''
    ensures IsNext(source, index, token)
  {
    hide At, BeginsCharLiteral;
    if CharLiteralEnd(source, index) != index + 1 {
      LiteralFormFound(source, index);
      token :| CharLiteralReads(token) && Spelled(token) <= source[index..];
      PrefixStands(source, index, Spelled(token));
      CharLiteralIsTaken(source, index, token);
    } else {
      token := Quote;
      ByteStands(source, index);
      HeadAndTail(source, index);
      NoLiteralBegins(source, index);
    }
  }

  lemma NoLiteralBegins(source: string, index: nat)
    requires index < |source| && CharLiteralEnd(source, index) == index + 1
    ensures !BeginsCharLiteral(source[index..])
  {
    forall token | CharLiteralReads(token) ensures !(Spelled(token) <= source[index..]) {
      if Spelled(token) <= source[index..] {
        PrefixStands(source, index, Spelled(token));
        CharLiteralIsTaken(source, index, token);
      }
    }
  }

  lemma NoRawStringBegins(source: string, index: nat)
    requires index < |source| && !InIdentifier(source, index) && RawStringHashes(source, index).None?
    ensures !BeginsRawString(source[index..])
  {
    forall isByte, hashes ensures !(RawOpener(isByte, hashes) <= source[index..]) {
      if RawOpener(isByte, hashes) <= source[index..] {
        PrefixStands(source, index, RawOpener(isByte, hashes));
        OpenerIsRecognised(source, index, isByte, hashes);
      }
    }
  }

  /** Where the scanner moves on by one byte that belongs to no longer token. */
  ghost predicate IsPlain(source: string, index: nat)
    requires index < |source|
  {
    match source[index]
    case '{' => false
    case '}' => false
    case '"' => false
    case '\'' => false
    case '/' => !Has(source, index + 1, '/') && !Has(source, index + 1, '*')
    case 'r' => RawStringHashes(source, index).None?
    case 'b' => RawStringHashes(source, index).None?
    case _ => true
  }

  lemma PlainIsNext(source: string, index: nat)
    requires index < |source| && IsPlain(source, index)
    ensures IsNext(source, index, Code(source[index]))
  {
    hide RawStringHashes, BeginsRawString;
    var c := source[index];
    ByteStands(source, index);
    HeadAndTail(source, index);
    if (c == 'r' || c == 'b') && !InIdentifier(source, index) {
      NoRawStringBegins(source, index);
    }
  }

  /** Every step of the scan that ends before the source does is a token read in its place. */
  lemma StepIsToken(source: string, index: nat) returns (token: Token)
    requires index < |source| && source[index] != '{' && source[index] != '}' && SkipFrom(source, index) < |source|
    ensures IsNext(source, index, token)
  {
    hide IsNext, SkipFrom;
    if IsPlain(source, index) {
      token := Code(source[index]);
      PlainIsNext(source, index);
    } else if source[index] == '/' && source[index + 1] == '/' {
      token := LineCommentIsNext(source, index);
    } else if source[index] == '/' {
      token := BlockCommentIsNext(source, index);
    } else if source[index] == '"' {
      token := StringIsNext(source, index);
    } else if source[index] == '\'' {
      token := ApostropheIsNext(source, index);
    } else {
      token := RawStringIsNext(source, index);
    }
  }

  // ---------- streams read back ----------

  lemma StreamPrepended(source: string, index: nat, token: Token, tail: Stream)
    requires At(source, index, Spelled(token))
    requires Reads(InIdentifier(source, index), token, source[index + |Spelled(token)|..])
    requires StreamStands(source, index + |Spelled(token)|, tail)
    ensures StreamStands(source, index, Next(token, tail))
  {
    var after := source[index + |Spelled(token)|..];
    assert source[index..] == source[index..index + |Spelled(token)|] + after;
    TokenMovesOn(source, index, token, after);
  }

  lemma BraceStands(source: string, index: nat, token: Token)
    requires index < |source| && IsBrace(token)
    requires source[index] == if token == OpenBrace then '{' else '}'
    ensures At(source, index, Spelled(token))
  {
    hide At;
    ByteStands(source, index);
  }

  /** The stream is what the source holds from here on, and tells the same end of the block as the scan. */
  ghost predicate Tells(source: string, index: nat, stream: Stream, depth: nat)
    requires depth > 0
  {
    && StreamStands(source, index, stream) && Suffices(stream, depth)
    && StreamEnd(index, stream, depth) == BlockEnd(source, index, depth)
  }

  lemma OpeningTells(source: string, index: nat, tail: Stream, depth: nat)
    requires depth > 0 && index < |source| && source[index] == '{' && Tells(source, index + 1, tail, depth + 1)
    ensures Tells(source, index, Next(OpenBrace, tail), depth)
  {
    BraceStands(source, index, OpenBrace);
    StreamPrepended(source, index, OpenBrace, tail);
  }

  lemma InnerClosingTells(source: string, index: nat, tail: Stream, depth: nat)
    requires depth > 1 && index < |source| && source[index] == '}' && Tells(source, index + 1, tail, depth - 1)
    ensures Tells(source, index, Next(CloseBrace, tail), depth)
  {
    BraceStands(source, index, CloseBrace);
    StreamPrepended(source, index, CloseBrace, tail);
  }

  lemma LastClosingTells(source: string, index: nat)
    requires index < |source| && source[index] == '}'
    ensures Tells(source, index, Next(CloseBrace, Rest(source[index + 1..])), 1)
  {
    BraceStands(source, index, CloseBrace);
    StreamPrepended(source, index, CloseBrace, Rest(source[index + 1..]));
  }

  lemma TokenTells(source: string, index: nat, token: Token, tail: Stream, depth: nat)
    requires depth > 0 && index < |source| && source[index] != '{' && source[index] != '}'
    requires IsNext(source, index, token) && Tells(source, SkipFrom(source, index), tail, depth)
    ensures Tells(source, index, Next(token, tail), depth)
  {
    hide At, Spelled, Reads, SkipFrom, StreamStands;
    StreamPrepended(source, index, token, tail);
  }

  /** Where a block ends, the text up to there is a stream of tokens that ends it there. */
  lemma {:induction false} StreamFound(source: string, index: nat, depth: nat) returns (stream: Stream)
    requires depth > 0 && BlockEnd(source, index, depth).Some?
    ensures Tells(source, index, stream, depth)
    decreases |source| - index, 1
  {
    if source[index] == '{' {
      var tail := StreamFound(source, index + 1, depth + 1);
      OpeningTells(source, index, tail, depth);
      stream := Next(OpenBrace, tail);
    } else if source[index] == '}' && depth == 1 {
      LastClosingTells(source, index);
      stream := Next(CloseBrace, Rest(source[index + 1..]));
    } else if source[index] == '}' {
      var tail := StreamFound(source, index + 1, depth - 1);
      InnerClosingTells(source, index, tail, depth);
      stream := Next(CloseBrace, tail);
    } else {
      stream := StepFound(source, index, depth);
    }
  }

  lemma {:induction false} StepFound(source: string, index: nat, depth: nat) returns (stream: Stream)
    requires depth > 0 && index < |source| && source[index] != '{' && source[index] != '}'
    requires BlockEnd(source, SkipFrom(source, index), depth).Some?
    ensures Tells(source, index, stream, depth)
    decreases |source| - index, 0
  {
    var token := StepIsToken(source, index);
    var tail := StreamFound(source, SkipFrom(source, index), depth);
    TokenTells(source, index, token, tail, depth);
    stream := Next(token, tail);
  }

  /** The source divides, from `index` on, into tokens by which the block ends at `end`. */
  ghost predicate TokensEndAt(source: string, index: nat, stream: Stream, end: nat) {
    StreamStands(source, index, stream) && Suffices(stream, 1) && StreamEnd(index, stream, 1) == Some(end)
  }

  /** Over all sources, the scanner finds the end of a block exactly where a division into tokens tells it. */
  lemma BlockEndsWhereTokensTell(source: string, index: nat, end: nat)
    ensures BlockEnd(source, index, 1) == Some(end) <==> exists stream :: TokensEndAt(source, index, stream, end)
  {
    if BlockEnd(source, index, 1) == Some(end) {
      var stream := StreamFound(source, index, 1);
      assert TokensEndAt(source, index, stream, end);
    }
    if stream :| TokensEndAt(source, index, stream, end) {
      StreamIsStepped(source, index, stream);
      StepsFindTheEnd(source, index, stream, 1);
    }
  }
}
