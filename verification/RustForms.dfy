/**
 * The scanner's steps in plain text: wherever one of these spellings stands in
 * a source, the search for the end of a block goes on behind it.
 */
module RustForms {
  import opened Wrappers
  import opened RustScanner
  import opened RustTokens

  const DIGITS: set<char> := {'0', '1', '2', '3', '4', '5', '6', '7', '8', '9'}
  const CAPITALS: set<char> := {
    'A', 'B', 'C', 'D', 'E', 'F', 'G', 'H', 'I', 'J', 'K', 'L', 'M',
    'N', 'O', 'P', 'Q', 'R', 'S', 'T', 'U', 'V', 'W', 'X', 'Y', 'Z'}
  const SMALL_LETTERS: set<char> := {
    'a', 'b', 'c', 'd', 'e', 'f', 'g', 'h', 'i', 'j', 'k', 'l', 'm',
    'n', 'o', 'p', 'q', 'r', 's', 't', 'u', 'v', 'w', 'x', 'y', 'z'}

  /** The bytes that an identifier is made of. */
  ghost predicate MayEndIdentifier(c: char) {
    c in DIGITS || c in CAPITALS || c in SMALL_LETTERS || c == '_'
  }

  lemma IdentifierBytes(c: char)
    ensures IsIdentifierByte(c) <==> MayEndIdentifier(c)
  {
    DigitsAreRange(c);
    CapitalsAreRange(c);
    SmallLettersAreRange(c);
  }

  lemma DigitsAreRange(c: char)
    ensures c in DIGITS <==> '0' <= c <= '9'
  {
  }

  lemma CapitalsAreRange(c: char)
    ensures c in CAPITALS <==> 'A' <= c <= 'Z'
  {
  }

  lemma SmallLettersAreRange(c: char)
    ensures c in SMALL_LETTERS <==> 'a' <= c <= 'z'
  {
  }

  /** The search for the end of a block, at whatever depth, passes over the text between the two others. */
  ghost predicate PassesOver(before: string, text: string, after: string) {
    forall depth: nat | depth > 0 ::
      BlockEnd(before + text + after, |before|, depth) == BlockEnd(before + text + after, |before| + |text|, depth)
  }

  lemma TextStands(before: string, text: string, after: string)
    ensures At(before + text + after, |before|, text)
  {
  }

  lemma SkippedIsPassed(before: string, text: string, after: string)
    requires text != "" && text[0] != '{' && text[0] != '}'
    requires SkipFrom(before + text + after, |before|) == |before| + |text|
    ensures PassesOver(before, text, after)
  {
    hide SkipFrom;
    assert (before + text + after)[|before|] == text[0];
  }

  // ---------- braces and the end of the source ----------

  /** Braces change the depth, the last closing one ends the block, and a source that ends first leaves it open. */
  lemma BracesAreCounted(before: string, after: string, depth: nat)
    requires depth > 0
    ensures BlockEnd(before + "{" + after, |before|, depth) == BlockEnd(before + "{" + after, |before| + 1, depth + 1)
    ensures depth > 1 ==>
              BlockEnd(before + "}" + after, |before|, depth) == BlockEnd(before + "}" + after, |before| + 1, depth - 1)
    ensures BlockEnd(before + "}" + after, |before|, 1) == Some(|before| + 1)
    ensures BlockEnd(before, |before|, depth) == None
  {
    assert (before + "{" + after)[|before|] == '{' && (before + "}" + after)[|before|] == '}';
  }

  /** Any other byte that begins nothing longer is passed over by itself. */
  lemma OtherBytesArePassed(before: string, c: char, after: string)
    requires c !in {'{', '}', '"', '\'', '/', 'r', 'b'}
             || (c == '/' && (after == "" || (after[0] != '/' && after[0] != '*')))
    ensures PassesOver(before, [c], after)
  {
    var source := before + [c] + after;
    assert source[|before|] == c;
    if after != "" {
      assert source[|before| + 1] == after[0];
    }
    SkippedIsPassed(before, [c], after);
  }

  // ---------- comments ----------

  lemma LineCommentsArePassed(before: string, line: string, after: string)
    requires '\n' !in line
    ensures PassesOver(before, "//" + line + "\n", after)
  {
    hide SkipFrom, PassesOver;
    TextStands(before, "//" + line + "\n", after);
    LineCommentIsSkipped(before + ("//" + line + "\n") + after, |before|, line);
    SkippedIsPassed(before, "//" + line + "\n", after);
  }

  /** Text of a comment that opens and closes nothing, before what follows in it. */
  function TextThen(text: string, rest: Comment): Comment {
    if text == "" then rest else Text(text[0], TextThen(text[1..], rest))
  }

  lemma {:induction false} TextThenIsRead(text: string, rest: Comment)
    requires '*' !in text && '/' !in text && CommentReads(rest)
    ensures CommentReads(TextThen(text, rest)) && CommentText(TextThen(text, rest)) == text + CommentText(rest)
    decreases |text|
  {
    if text != "" {
      TextThenIsRead(text[1..], rest);
      assert text == [text[0]] + text[1..];
    }
  }

  /** A block comment, with another one nested in it. */
  lemma NestedCommentsArePassed(before: string, a: string, b: string, c: string, after: string)
    requires forall x | x in a + b + c :: x != '*' && x != '/'
    ensures PassesOver(before, "/*" + (a + ("/*" + (b + "*/" + (c + "*/")))), after)
    ensures PassesOver(before, "/*" + (a + "*/"), after)
  {
    hide PassesOver;
    assert forall x | x in a :: x in a + b + c;
    assert forall x | x in b :: x in a + b + c;
    assert forall x | x in c :: x in a + b + c;
    TextThenIsRead(c, CloseComment);
    TextThenIsRead(b, CloseComment);
    var inner, rest := TextThen(b, CloseComment), TextThen(c, CloseComment);
    TextThenIsRead(a, Nest(inner, rest));
    TextThenIsRead(a, CloseComment);
    CommentsArePassed(before, TextThen(a, Nest(inner, rest)), after);
    CommentsArePassed(before, TextThen(a, CloseComment), after);
  }

  lemma CommentsArePassed(before: string, comment: Comment, after: string)
    requires CommentReads(comment)
    ensures PassesOver(before, "/*" + CommentText(comment), after)
  {
    hide SkipFrom, PassesOver, CommentText, CommentReads;
    TextStands(before, "/*" + CommentText(comment), after);
    BlockCommentIsSkipped(before + ("/*" + CommentText(comment)) + after, |before|, comment);
    SkippedIsPassed(before, "/*" + CommentText(comment), after);
  }

  // ---------- strings ----------

  /** Plain text of a string before what follows in it. */
  function PlainThen(text: string, rest: Literal): Literal {
    if text == "" then rest else Plain(text[0], PlainThen(text[1..], rest))
  }

  lemma {:induction false} PlainThenIsRead(text: string, rest: Literal)
    requires '"' !in text && '\\' !in text && LiteralReads(rest)
    ensures LiteralReads(PlainThen(text, rest)) && LiteralText(PlainThen(text, rest)) == text + LiteralText(rest)
    decreases |text|
  {
    if text != "" {
      PlainThenIsRead(text[1..], rest);
      assert text == [text[0]] + text[1..];
    }
  }

  /** A string, with a backslash that takes the next byte with it, whatever that is. */
  lemma StringsArePassed(before: string, a: string, escaped: char, b: string, after: string)
    requires '"' !in a && '\\' !in a && '"' !in b && '\\' !in b
    ensures PassesOver(before, "\"" + (a + (['\\', escaped] + (b + "\""))), after)
    ensures PassesOver(before, "\"" + (a + "\""), after)
  {
    hide PassesOver;
    PlainThenIsRead(b, CloseQuote);
    PlainThenIsRead(a, Escaped(escaped, PlainThen(b, CloseQuote)));
    PlainThenIsRead(a, CloseQuote);
    LiteralsArePassed(before, PlainThen(a, Escaped(escaped, PlainThen(b, CloseQuote))), after);
    LiteralsArePassed(before, PlainThen(a, CloseQuote), after);
  }

  lemma LiteralsArePassed(before: string, literal: Literal, after: string)
    requires LiteralReads(literal)
    ensures PassesOver(before, "\"" + LiteralText(literal), after)
  {
    hide PassesOver, LiteralText, LiteralReads, StringEnd, At;
    var text := "\"" + LiteralText(literal);
    var source := before + text + after;
    TextStands(before, text, after);
    AtByte(source, |before|, text, 0);
    AtSplit(source, |before|, "\"", LiteralText(literal));
    LiteralIsSkipped(source, |before| + 1, literal);
    SkippedIsPassed(before, text, after);
  }

  // ---------- raw strings ----------

  lemma HashesOf(hashes: string)
    requires forall c | c in hashes :: c == '#'
    ensures hashes == Hashes(|hashes|)
  {
    forall i | 0 <= i < |hashes| ensures hashes[i] == '#' {
      assert hashes[i] in hashes;
    }
  }

  /**
   * A raw string: after a byte that no identifier ends in, or at the front of
   * the source, it is passed over as a whole; within an identifier its first
   * letter is passed over by itself.
   */
  lemma RawStringsArePassed(before: string, isByte: bool, hashes: string, content: string, after: string)
    requires forall c | c in hashes :: c == '#'
    requires forall k | 0 <= k < |content| :: !At(content + ("\"" + hashes), k, "\"" + hashes)
    ensures var text := ((if isByte then "br" else "r") + hashes + "\"") + content + ("\"" + hashes);
            if before == "" || !MayEndIdentifier(before[|before| - 1]) then PassesOver(before, text, after)
            else PassesOver(before, text[..1], text[1..] + after)
  {
    hide PassesOver, Hashes, At, SkipFrom;
    HashesOf(hashes);
    var token := RawStr(isByte, |hashes|, content);
    var text := Spelled(token);
    assert text == ((if isByte then "br" else "r") + hashes + "\"") + content + ("\"" + hashes);
    TextStands(before, text, after);
    if before != "" {
      IdentifierBytes(before[|before| - 1]);
    }
    if before == "" || !MayEndIdentifier(before[|before| - 1]) {
      RawStringIsSkipped(before + text + after, |before|, isByte, |hashes|, content);
      SkippedIsPassed(before, text, after);
    } else {
      InnerLetterIsPassed(before, text[..1], text[1..] + after);
    }
  }

  lemma InnerLetterIsPassed(before: string, letter: string, after: string)
    requires letter == "r" || letter == "b"
    requires before != "" && MayEndIdentifier(before[|before| - 1])
    ensures PassesOver(before, letter, after)
  {
    hide PassesOver;
    var source := before + letter + after;
    IdentifierBytes(before[|before| - 1]);
    assert source[|before|] == letter[0] && source[|before| - 1] == before[|before| - 1];
    SkippedIsPassed(before, letter, after);
  }

  /** The letters of a raw string's prefix by themselves. */
  lemma PlainLettersArePassed(before: string, c: char, after: string)
    requires c == 'r' || c == 'b'
    requires after == "" || after[0] !in {'r', '#', '"'}
    ensures PassesOver(before, [c], after)
  {
    hide PassesOver;
    var source := before + [c] + after;
    assert source[|before|] == c;
    if after != "" {
      assert source[|before| + 1] == after[0];
    }
    SkippedIsPassed(before, [c], after);
  }

  // ---------- character literals ----------

  /** One character in UTF-8: its first byte says how many bytes there are. */
  ghost predicate IsUtf8(character: string) {
    character != "" &&
    var lead := character[0] as int;
    if lead < 0x80 then |character| == 1
    else if 0xC2 <= lead <= 0xDF then |character| == 2
    else if 0xE0 <= lead <= 0xEF then |character| == 3
    else 0xF0 <= lead <= 0xF4 && |character| == 4
  }

  lemma CharLiteralsArePassed(before: string, character: string, after: string)
    requires IsUtf8(character) && character[0] != '\\'
    ensures PassesOver(before, "'" + character + "'", after)
  {
    hide PassesOver;
    CharLiteralIsPassed(before, CharLit(character), after);
  }

  lemma EscapedCharsArePassed(before: string, c: char, after: string)
    requires c != 'u'
    ensures PassesOver(before, "'\\" + [c] + "'", after)
  {
    hide PassesOver;
    CharLiteralIsPassed(before, EscapedCharLit(c), after);
  }

  lemma UnicodeCharsArePassed(before: string, code: string, after: string)
    requires '}' !in code
    ensures PassesOver(before, "'\\u" + code + "}'", after)
  {
    hide PassesOver;
    CharLiteralIsPassed(before, UnicodeCharLit(code), after);
  }

  lemma CharLiteralIsPassed(before: string, token: Token, after: string)
    requires CharLiteralReads(token)
    ensures PassesOver(before, Spelled(token), after)
  {
    hide PassesOver, At, CharLiteralEnd;
    var text := Spelled(token);
    var source := before + text + after;
    TextStands(before, text, after);
    AtByte(source, |before|, text, 0);
    match token {
      case CharLit(character) => PlainCharIsSkipped(source, |before|, character);
      case EscapedCharLit(c) => EscapedCharIsSkipped(source, |before|, c);
      case UnicodeCharLit(code) => UnicodeCharIsSkipped(source, |before|, code);
    }
    SkippedIsPassed(before, text, after);
  }

  /** An apostrophe that no literal ends, as in a lifetime, is passed over by itself. */
  lemma LifetimesArePassed(before: string, c: char, after: string)
    requires (c as int) < 0x80 && c != '\\' && (after == "" || after[0] != '\'')
    ensures PassesOver(before, "'", [c] + after)
  {
    hide PassesOver;
    var source := before + "'" + ([c] + after);
    assert source[|before|] == '\'' && source[|before| + 1] == c;
    if after != "" {
      assert source[|before| + 2] == after[0];
    }
    SkippedIsPassed(before, "'", [c] + after);
  }
}
