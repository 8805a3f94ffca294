/**
 * The hand-written scanner that finds the end of a Rust block.  A source is a
 * sequence of bytes, each written as the character of its value.
 */
module RustScanner {
  import opened Wrappers

  /** The text occurs at this offset. */
  predicate At(source: string, index: nat, text: string) {
    index + |text| <= |source| && source[index..index + |text|] == text
  }

  /** `bytes.get(index) == Some(&c)` */
  predicate Has(source: string, index: nat, c: char) {
    index < |source| && source[index] == c
  }

  predicate IsIdentifierByte(c: char) {
    '0' <= c <= '9' || 'a' <= c <= 'z' || 'A' <= c <= 'Z' || c == '_'
  }

  /** How many bytes the UTF-8 character that begins with this byte takes. */
  function Utf8Length(lead: char): (n: nat)
    ensures n > 0
  {
    if lead < '\U{C0}' then 1 else if lead < '\U{E0}' then 2 else if lead < '\U{F0}' then 3 else 4
  }

  function Hashes(n: nat): (hashes: string)
    ensures |hashes| == n
  {
    seq(n, _ => '#')
  }

  // ---------- what each scanner computes ----------

  function LineCommentEnd(source: string, index: nat): (end: nat)
    ensures index <= |source| ==> index <= end <= |source|
    decreases |source| - index
  {
    if index >= |source| then |source|
    else if source[index] == '\n' then index + 1
    else LineCommentEnd(source, index + 1)
  }

  function BlockCommentEnd(source: string, index: nat, depth: nat): (end: nat)
    requires depth > 0
    ensures index <= |source| ==> index <= end <= |source|
    decreases |source| - index
  {
    if index >= |source| then |source|
    else if source[index] == '/' && Has(source, index + 1, '*') then BlockCommentEnd(source, index + 2, depth + 1)
    else if source[index] == '*' && Has(source, index + 1, '/') then
      if depth == 1 then index + 2 else BlockCommentEnd(source, index + 2, depth - 1)
    else BlockCommentEnd(source, index + 1, depth)
  }

  function StringEnd(source: string, index: nat): (end: nat)
    ensures index <= |source| ==> index <= end <= |source|
    decreases |source| - index
  {
    if index >= |source| then |source|
    else if source[index] == '\\' then StringEnd(source, index + 2)
    else if source[index] == '"' then index + 1
    else StringEnd(source, index + 1)
  }

  /** The offset after the `#` run that starts here. */
  function HashesEnd(source: string, index: nat): (end: nat)
    ensures index <= end && (index <= |source| ==> end <= |source|)
    decreases |source| - index
  {
    if Has(source, index, '#') then HashesEnd(source, index + 1) else index
  }

  /** The offset of the opening quote and the number of hashes. */
  datatype RawOpening = RawOpening(quote: nat, hashes: nat)

  function RawStringHashes(source: string, index: nat): (opening: Option<RawOpening>)
    requires index < |source|
    ensures opening.Some? ==> index < opening.value.quote < |source|
  {
    if index > 0 && IsIdentifierByte(source[index - 1]) then None
    else
      var cursor := if source[index] == 'b' then index + 1 else index;
      if !Has(source, cursor, 'r') then None
      else
        var end := HashesEnd(source, cursor + 1);
        if Has(source, end, '"') then Some(RawOpening(end, end - (cursor + 1))) else None
  }

  function RawStringEnd(source: string, index: nat, hashes: nat): (end: nat)
    ensures index <= |source| ==> index <= end <= |source|
    decreases |source| - index
  {
    if index >= |source| then |source|
    else if At(source, index, "\"" + Hashes(hashes)) then index + 1 + hashes
    else RawStringEnd(source, index + 1, hashes)
  }

  /** The offset of the next `}`, or the end of the source. */
  function BraceFrom(source: string, index: nat): (end: nat)
    ensures index <= end && (index <= |source| ==> end <= |source|)
    decreases |source| - index
  {
    if index >= |source| || source[index] == '}' then index else BraceFrom(source, index + 1)
  }

  function CharLiteralEnd(source: string, index: nat): (end: nat)
    requires index < |source|
    ensures index < end <= |source|
  {
    if Has(source, index + 1, '\\') then
      var cursor := if Has(source, index + 2, 'u') then BraceFrom(source, index + 2) + 1 else index + 3;
      if Has(source, cursor, '\'') then cursor + 1 else index + 1
    else if index + 1 < |source| && Has(source, index + 1 + Utf8Length(source[index + 1]), '\'') then
      index + 1 + Utf8Length(source[index + 1]) + 1
    else index + 1
  }

  /** Where the scan goes on after a byte that is no brace. */
  function SkipFrom(source: string, index: nat): (next: nat)
    requires index < |source|
    ensures index < next <= |source|
  {
    match source[index]
    case '/' =>
      if Has(source, index + 1, '/') then LineCommentEnd(source, index + 2)
      else if Has(source, index + 1, '*') then BlockCommentEnd(source, index + 2, 1)
      else index + 1
    case '"' => StringEnd(source, index + 1)
    case 'r' => SkipRaw(source, index)
    case 'b' => SkipRaw(source, index)
    case '\'' => CharLiteralEnd(source, index)
    case _ => index + 1
  }

  function SkipRaw(source: string, index: nat): (next: nat)
    requires index < |source|
    ensures index < next <= |source|
  {
    match RawStringHashes(source, index)
    case Some(opening) => RawStringEnd(source, opening.quote + 1, opening.hashes)
    case None => index + 1
  }

  function BlockEnd(source: string, index: nat, depth: nat): (end: Option<nat>)
    requires depth > 0
    ensures end.Some? ==> index < end.value <= |source| && source[end.value - 1] == '}'
    decreases |source| - index
  {
    if index >= |source| then None
    else if source[index] == '{' then BlockEnd(source, index + 1, depth + 1)
    else if source[index] == '}' then
      if depth == 1 then Some(index + 1) else BlockEnd(source, index + 1, depth - 1)
    else BlockEnd(source, SkipFrom(source, index), depth)
  }

  // ---------- the scanners ----------

  method FindFrom(source: string, index: nat, text: string) returns (found: Option<nat>)
    requires index <= |source|
    ensures found.Some? ==> index <= found.value && At(source, found.value, text)
                            && forall i | index <= i < found.value :: !At(source, i, text)
    ensures found.None? ==> forall i | index <= i <= |source| :: !At(source, i, text)
  {
    var i := index;
    while i + |text| <= |source|
      invariant index <= i
      invariant forall k | index <= k < i :: !At(source, k, text)
    {
      if source[i..i + |text|] == text {
        return Some(i);
      }
      i := i + 1;
    }
    return None;
  }

  lemma {:induction false} LineCommentEndIsFound(source: string, index: nat, found: Option<nat>)
    requires index <= |source|
    requires found.Some? ==> index <= found.value && At(source, found.value, "\n")
                             && forall i | index <= i < found.value :: !At(source, i, "\n")
    requires found.None? ==> forall i | index <= i <= |source| :: !At(source, i, "\n")
    ensures LineCommentEnd(source, index) == if found.Some? then found.value + 1 else |source|
    decreases |source| - index
  {
    if index < |source| {
      assert At(source, index, "\n") <==> source[index] == '\n';
      if source[index] != '\n' {
        LineCommentEndIsFound(source, index + 1, found);
      }
    }
  }

  lemma {:induction false} RawStringEndIsFound(source: string, index: nat, hashes: nat, found: Option<nat>)
    requires index <= |source|
    requires var closing := "\"" + Hashes(hashes);
             && (found.Some? ==> index <= found.value && At(source, found.value, closing)
                                 && forall i | index <= i < found.value :: !At(source, i, closing))
             && (found.None? ==> forall i | index <= i <= |source| :: !At(source, i, closing))
    ensures RawStringEnd(source, index, hashes) == if found.Some? then found.value + 1 + hashes else |source|
    decreases |source| - index
  {
    if index < |source| && !At(source, index, "\"" + Hashes(hashes)) {
      RawStringEndIsFound(source, index + 1, hashes, found);
    }
  }

  method EndOfBlockComment(source: string, start: nat) returns (end: nat)
    ensures end == BlockCommentEnd(source, start, 1)
  {
    var index, depth := start, 1;
    while index < |source|
      invariant depth > 0 && BlockCommentEnd(source, index, depth) == BlockCommentEnd(source, start, 1)
    {
      if source[index] == '/' && Has(source, index + 1, '*') {
        depth := depth + 1;
        index := index + 2;
      } else if source[index] == '*' && Has(source, index + 1, '/') {
        if depth == 1 {
          return index + 2;
        }
        depth := depth - 1;
        index := index + 2;
      } else {
        index := index + 1;
      }
    }
    return |source|;
  }

  method EndOfStringLiteral(source: string, start: nat) returns (end: nat)
    ensures end == StringEnd(source, start)
  {
    var index := start;
    while index < |source|
      invariant StringEnd(source, index) == StringEnd(source, start)
    {
      match source[index] {
        case '\\' => index := index + 2;
        case '"' => return index + 1;
        case _ => index := index + 1;
      }
    }
    return |source|;
  }

  method FindRawStringHashes(source: string, index: nat) returns (opening: Option<RawOpening>)
    requires index < |source|
    ensures opening == RawStringHashes(source, index)
  {
    if index > 0 && IsIdentifierByte(source[index - 1]) {
      return None;
    }
    var cursor := index;
    if source[cursor] == 'b' {
      cursor := cursor + 1;
    }
    if !Has(source, cursor, 'r') {
      return None;
    }
    cursor := cursor + 1;
    var hashesStart := cursor;
    while Has(source, cursor, '#')
      invariant hashesStart <= cursor && HashesEnd(source, cursor) == HashesEnd(source, hashesStart)
      decreases |source| - cursor
    {
      cursor := cursor + 1;
    }
    if !Has(source, cursor, '"') {
      return None;
    }
    return Some(RawOpening(cursor, cursor - hashesStart));
  }

  method EndOfRawString(source: string, index: nat, hashes: nat) returns (end: nat)
    requires index <= |source|
    ensures end == RawStringEnd(source, index, hashes)
    ensures var closer := "\"" + Hashes(hashes);
            if exists i :: index <= i <= |source| && At(source, i, closer)
            then exists i :: index <= i && At(source, i, closer) && end == i + |closer|
                             && forall k | index <= k < i :: !At(source, k, closer)
            else end == |source|
  {
    var found := FindFrom(source, index, "\"" + Hashes(hashes));
    RawStringEndIsFound(source, index, hashes, found);
    return if found.Some? then found.value + 1 + hashes else |source|;
  }

  method EndOfCharLiteral(source: string, index: nat) returns (end: nat)
    requires index < |source|
    ensures end == CharLiteralEnd(source, index)
  {
    if Has(source, index + 1, '\\') {
      var cursor := index + 2;
      if Has(source, cursor, 'u') {
        while cursor < |source| && source[cursor] != '}'
          invariant cursor <= |source| && BraceFrom(source, cursor) == BraceFrom(source, index + 2)
        {
          cursor := cursor + 1;
        }
        cursor := cursor + 1;
      } else {
        cursor := cursor + 1;
      }
      if Has(source, cursor, '\'') {
        return cursor + 1;
      }
      return index + 1;
    }
    if index + 1 < |source| {
      var after := index + 1 + Utf8Length(source[index + 1]);
      if Has(source, after, '\'') {
        return after + 1;
      }
    }
    return index + 1;
  }

  method EndOfBlock(source: string, bodyStart: nat) returns (end: Option<nat>)
    ensures end == BlockEnd(source, bodyStart, 1)
    ensures end.Some? ==> bodyStart < end.value <= |source| && source[end.value - 1] == '}'
  {
    var index, depth := bodyStart, 1;
    while index < |source|
      invariant depth > 0 && BlockEnd(source, index, depth) == BlockEnd(source, bodyStart, 1)
    {
      if source[index] == '{' {
        depth := depth + 1;
        index := index + 1;
      } else if source[index] == '}' {
        index := index + 1;
        if depth == 1 {
          return Some(index);
        }
        depth := depth - 1;
      } else {
        index := Skip(source, index);
      }
    }
    return None;
  }

  /** The branches of the scan that step over comments, literals and plain bytes. */
  method Skip(source: string, index: nat) returns (next: nat)
    requires index < |source|
    ensures next == SkipFrom(source, index)
    ensures index < next <= |source|
  {
    match source[index] {
      case '/' =>
        if Has(source, index + 1, '/') {
          var found := FindFrom(source, index + 2, "\n");
          LineCommentEndIsFound(source, index + 2, found);
          next := if found.Some? then found.value + 1 else |source|;
        } else if Has(source, index + 1, '*') {
          next := EndOfBlockComment(source, index + 2);
        } else {
          next := index + 1;
        }
      case '"' => next := EndOfStringLiteral(source, index + 1);
      case 'r' => next := SkipRawString(source, index);
      case 'b' => next := SkipRawString(source, index);
      case '\'' => next := EndOfCharLiteral(source, index);
      case _ => next := index + 1;
    }
  }

  method SkipRawString(source: string, index: nat) returns (next: nat)
    requires index < |source|
    ensures next == SkipRaw(source, index)
  {
    var opening := FindRawStringHashes(source, index);
    match opening {
      case Some(raw) => next := EndOfRawString(source, raw.quote + 1, raw.hashes);
      case None => next := index + 1;
    }
  }
}
