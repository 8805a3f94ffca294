/** Excising the inline test modules of a Rust source while every surviving line keeps its number. */
module SourceExcision {
  import opened Wrappers
  import opened RustScanner
  import opened RustTokens
  import opened RustReading
  import opened CfgPredicate

  /**
   * A module header: where it starts, where its body begins, and the predicate
   * of its `cfg` attribute.  Offsets count the bytes of the source; the
   * predicate is the text those bytes stand for, character by character.
   */
  datatype Header = Header(start: nat, body: nat, predicateText: string)

  /** A header found lies within the text and is not empty. */
  ghost predicate FindsWithin(find: string -> Option<Header>) {
    forall text {:trigger find(text)} ::
      find(text).Some? ==> find(text).value.start < find(text).value.body <= |text|
  }

  /** Finds the first module header with a `cfg` attribute in a text. */
  type Finder = find: string -> Option<Header> | FindsWithin(find)
    witness text => None

  ghost predicate ClosesWithin(close: (string, nat) -> Option<nat>) {
    forall source, body: nat {:trigger close(source, body)} ::
      close(source, body).Some? ==> body < close(source, body).value <= |source|
  }

  /** Says where a block ends whose body begins at an offset. */
  type Closer = close: (string, nat) -> Option<nat> | ClosesWithin(close)
    witness (source, body: nat) => None

  /** What decides about a module: the header pattern, the classifier and the block scanner. */
  datatype Rules = Rules(find: Finder, testOnly: string -> bool, close: Closer)

  /** The rules are those of the guardrails: their own classifier and scanner. */
  ghost predicate AreProductionRules(rules: Rules) {
    && (forall text {:trigger TestOnly(text)} :: rules.testOnly(text) == TestOnly(text))
    && (forall source, body: nat {:trigger BlockEnd(source, body, 1)} ::
          rules.close(source, body) == BlockEnd(source, body, 1))
  }

  function RulesOf(find: Finder): (rules: Rules)
    ensures rules.find == find && AreProductionRules(rules)
  {
    Rules(find, text => TestOnly(text), (source, body: nat) => BlockEnd(source, body, 1))
  }

  type ProductionRules = rules: Rules | AreProductionRules(rules)
    ghost witness RulesOf(text => None)

  /**
   * What becomes of the source: stretches kept, modules excised, and the end,
   * which is either that of the source or that of a module that never closes.
   */
  datatype Pieces =
    | Keep(from: nat, to: nat, rest: Pieces)
    | Excise(from: nat, to: nat, rest: Pieces)
    | Finished
    | Unclosed

  function Newlines(text: string): nat {
    if text == "" then 0 else (if text[0] == '\n' then 1 else 0) + Newlines(text[1..])
  }

  function Blanks(n: nat): (lines: string)
    ensures |lines| == n
  {
    seq(n, _ => '\n')
  }

  /** The pieces from `cursor` on. */
  function PiecesFrom(rules: Rules, source: string, cursor: nat): Pieces
    requires cursor <= |source|
    decreases |source| - cursor
  {
    match rules.find(source[cursor..])
    case None => Keep(cursor, |source|, Finished)
    case Some(header) =>
      var start, body := cursor + header.start, cursor + header.body;
      if !rules.testOnly(header.predicateText) then Keep(cursor, body, PiecesFrom(rules, source, body))
      else
        match rules.close(source, body)
        case None => Keep(cursor, start, Unclosed)
        case Some(end) => Keep(cursor, start, Excise(start, end, PiecesFrom(rules, source, end)))
  }

  /** The pieces follow one another without gap or overlap. */
  ghost predicate Tiles(pieces: Pieces, source: string, cursor: nat) {
    match pieces
    case Keep(from, to, rest) => from == cursor && from <= to <= |source| && Tiles(rest, source, to)
    case Excise(from, to, rest) => from == cursor && from < to <= |source| && Tiles(rest, source, to)
    case Finished => cursor == |source|
    case Unclosed => cursor <= |source|
  }

  lemma {:induction false} PiecesTile(rules: Rules, source: string, cursor: nat)
    requires cursor <= |source|
    ensures Tiles(PiecesFrom(rules, source, cursor), source, cursor)
    decreases |source| - cursor
  {
    match rules.find(source[cursor..])
    case None =>
    case Some(header) =>
      var body := cursor + header.body;
      if !rules.testOnly(header.predicateText) {
        PiecesTile(rules, source, body);
      } else {
        match rules.close(source, body)
        case None =>
        case Some(end) => PiecesTile(rules, source, end);
      }
  }

  /** Kept stretches as they are, and a line break for each one excised. */
  function Output(pieces: Pieces, source: string, cursor: nat): string
    requires Tiles(pieces, source, cursor)
    decreases pieces
  {
    match pieces
    case Keep(from, to, rest) => source[from..to] + Output(rest, source, to)
    case Excise(from, to, rest) => Blanks(Newlines(source[from..to])) + Output(rest, source, to)
    case Finished => ""
    case Unclosed => ""
  }

  function ProductionText(rules: Rules, source: string, cursor: nat): string
    requires cursor <= |source|
  {
    PiecesTile(rules, source, cursor);
    Output(PiecesFrom(rules, source, cursor), source, cursor)
  }

  method CountNewlines(text: string) returns (count: nat)
    ensures count == Newlines(text)
  {
    count := 0;
    for i := 0 to |text|
      invariant count + Newlines(text[i..]) == Newlines(text)
    {
      assert text[i..][1..] == text[i + 1..];
      if text[i] == '\n' {
        count := count + 1;
      }
    }
  }

  lemma NoHeaderKeepsAll(rules: Rules, source: string, cursor: nat)
    requires cursor <= |source| && rules.find(source[cursor..]).None?
    ensures ProductionText(rules, source, cursor) == source[cursor..]
  {
    assert PiecesFrom(rules, source, cursor) == Keep(cursor, |source|, Finished);
    assert Output(Keep(cursor, |source|, Finished), source, cursor) == source[cursor..|source|] + "";
    assert source[cursor..|source|] + "" == source[cursor..];
  }

  lemma OtherModuleIsKept(rules: Rules, source: string, cursor: nat, header: Header)
    requires cursor <= |source| && rules.find(source[cursor..]) == Some(header) && !rules.testOnly(header.predicateText)
    ensures var body := cursor + header.body;
            ProductionText(rules, source, cursor) == source[cursor..body] + ProductionText(rules, source, body)
  {
    PiecesTile(rules, source, cursor + header.body);
  }

  lemma UnclosedModuleEndsAll(rules: Rules, source: string, cursor: nat, header: Header)
    requires cursor <= |source| && rules.find(source[cursor..]) == Some(header) && rules.testOnly(header.predicateText)
    requires rules.close(source, cursor + header.body).None?
    ensures ProductionText(rules, source, cursor) == source[cursor..cursor + header.start]
  {
    var start := cursor + header.start;
    assert PiecesFrom(rules, source, cursor) == Keep(cursor, start, Unclosed);
    assert Output(Keep(cursor, start, Unclosed), source, cursor) == source[cursor..start] + "";
    assert source[cursor..start] + "" == source[cursor..start];
  }

  /** A test-only module that closes leaves its line breaks behind. */
  lemma TestModuleIsExcised(rules: Rules, source: string, cursor: nat, header: Header, end: nat)
    requires cursor <= |source| && rules.find(source[cursor..]) == Some(header) && rules.testOnly(header.predicateText)
    requires rules.close(source, cursor + header.body) == Some(end)
    ensures ProductionText(rules, source, cursor)
         == source[cursor..cursor + header.start] + Blanks(Newlines(source[cursor + header.start..end]))
            + ProductionText(rules, source, end)
  {
    var start, rest := cursor + header.start, PiecesFrom(rules, source, end);
    PiecesTile(rules, source, end);
    assert PiecesFrom(rules, source, cursor) == Keep(cursor, start, Excise(start, end, rest));
    var blanks := Blanks(Newlines(source[start..end]));
    assert Output(Excise(start, end, rest), source, start) == blanks + ProductionText(rules, source, end);
    Regroup(source[cursor..start], blanks, ProductionText(rules, source, end));
  }

  method ProductionHalf(find: Finder, source: string) returns (kept: string)
    ensures kept == ProductionText(RulesOf(find), source, 0)
  {
    kept := Excised(find, RulesOf(find), source);
  }

  method Excised(find: Finder, ghost rules: ProductionRules, source: string) returns (kept: string)
    requires rules.find == find
    ensures kept == ProductionText(rules, source, 0)
  {
    kept := "";
    var cursor := 0;
    while true
      invariant cursor <= |source|
      invariant kept + ProductionText(rules, source, cursor) == ProductionText(rules, source, 0)
      decreases |source| - cursor
    {
      var captures := find(source[cursor..]);
      if captures.None? {
        NoHeaderKeepsAll(rules, source, cursor);
        kept := kept + source[cursor..];
        return;
      }
      var added, next := PassHeader(rules, captures.value, source, cursor);
      if next.None? {
        return kept + added;
      }
      Regroup(kept, added, ProductionText(rules, source, next.value));
      kept := kept + added;
      cursor := next.value;
    }
  }

  method IsTestHeader(ghost rules: ProductionRules, header: Header) returns (testOnly: bool)
    ensures testOnly == rules.testOnly(header.predicateText)
  {
    testOnly := CfgIsTestOnly(header.predicateText);
  }

  method ModuleEnd(ghost rules: ProductionRules, source: string, body: nat) returns (end: Option<nat>)
    ensures end == rules.close(source, body)
  {
    end := EndOfBlock(source, body);
  }

  lemma Regroup(a: string, b: string, c: string)
    ensures a + b + c == a + (b + c)
  {
  }

  /** `text` and what the scan still adds from `next` on make up what it adds from `cursor` on. */
  ghost predicate Completes(rules: Rules, source: string, cursor: nat, text: string, next: Option<nat>) {
    && cursor <= |source|
    && match next
       case None => text == ProductionText(rules, source, cursor)
       case Some(end) =>
         && cursor < end <= |source|
         && text + ProductionText(rules, source, end) == ProductionText(rules, source, cursor)
  }

  /** What is kept of the text around one header, and where the scan goes on. */
  method PassHeader(ghost rules: ProductionRules, header: Header, source: string, cursor: nat)
    returns (added: string, next: Option<nat>)
    requires cursor <= |source| && rules.find(source[cursor..]) == Some(header)
    ensures Completes(rules, source, cursor, added, next)
  {
    var testOnly := IsTestHeader(rules, header);
    if testOnly {
      added, next := PassTestModule(rules, header, source, cursor);
    } else {
      OtherModuleIsKept(rules, source, cursor, header);
      added, next := source[cursor..cursor + header.body], Some(cursor + header.body);
    }
  }

  /** The pass for a test-only module. */
  method PassTestModule(ghost rules: ProductionRules, header: Header, source: string, cursor: nat)
    returns (added: string, next: Option<nat>)
    requires cursor <= |source| && rules.find(source[cursor..]) == Some(header)
    requires rules.testOnly(header.predicateText)
    ensures Completes(rules, source, cursor, added, next)
  {
    var start, body := cursor + header.start, cursor + header.body;
    added := source[cursor..start];
    next := ModuleEnd(rules, source, body);
    if next.None? {
      UnclosedModuleEndsAll(rules, source, cursor, header);
    } else {
      var lines := CountNewlines(source[start..next.value]);
      added := added + Blanks(lines);
      TestModuleIsExcised(rules, source, cursor, header, next.value);
    }
  }

  // ---------- what is excised, told from the tokens ----------

  /** A module whose attribute reads as test-only and whose body reads as tokens goes up to its own brace. */
  lemma TestModuleVanishes(
    rules: ProductionRules, source: string, cursor: nat, header: Header, spaced: Spaced, stream: Stream, end: nat)
    requires cursor <= |source| && rules.find(source[cursor..]) == Some(header)
    requires IsAttribute(header.predicateText, spaced) && IsTestOnly(spaced.cfg)
    requires TokensEndAt(source, cursor + header.body, stream, end)
    ensures cursor + header.start <= end <= |source|
    ensures ProductionText(rules, source, cursor)
         == source[cursor..cursor + header.start] + Blanks(Newlines(source[cursor + header.start..end]))
            + ProductionText(rules, source, end)
  {
    hide IsAttribute, TokensEndAt, IsTestOnly, ProductionText;
    AttributeDecides(rules, header.predicateText, spaced);
    TokensClose(rules, source, cursor + header.body, stream, end);
    TestModuleIsExcised(rules, source, cursor, header, end);
  }

  /** The text of an attribute, read as an expression with blanks around it. */
  ghost predicate IsAttribute(text: string, spaced: Spaced) {
    SpacedReads(spaced) && text == SpacedText(spaced)
  }

  lemma AttributeDecides(rules: ProductionRules, text: string, spaced: Spaced)
    requires IsAttribute(text, spaced)
    ensures rules.testOnly(text) <==> IsTestOnly(spaced.cfg)
  {
    AcceptedForms(spaced);
  }

  lemma TokensClose(rules: ProductionRules, source: string, body: nat, stream: Stream, end: nat)
    requires TokensEndAt(source, body, stream, end)
    ensures rules.close(source, body) == Some(end)
  {
    BlockEndsWhereTokensTell(source, body, end);
  }

  /** A module under any other predicate keeps its header, and the scan goes on inside it. */
  lemma OtherPredicateIsKept(rules: ProductionRules, source: string, cursor: nat, header: Header, spaced: Spaced)
    requires cursor <= |source| && rules.find(source[cursor..]) == Some(header)
    requires IsAttribute(header.predicateText, spaced) && !IsTestOnly(spaced.cfg)
    ensures ProductionText(rules, source, cursor)
         == source[cursor..cursor + header.body] + ProductionText(rules, source, cursor + header.body)
  {
    AttributeDecides(rules, header.predicateText, spaced);
    OtherModuleIsKept(rules, source, cursor, header);
  }

  // ---------- line numbers ----------

  lemma {:induction false} NewlinesOfConcat(a: string, b: string)
    ensures Newlines(a + b) == Newlines(a) + Newlines(b)
  {
    if a == "" {
      assert a + b == b;
    } else {
      assert (a + b)[1..] == a[1..] + b;
      NewlinesOfConcat(a[1..], b);
    }
  }

  lemma {:induction false} NewlinesOfBlanks(n: nat)
    ensures Newlines(Blanks(n)) == n
  {
    if n > 0 {
      assert Blanks(n)[1..] == Blanks(n - 1);
      NewlinesOfBlanks(n - 1);
    }
  }

  ghost predicate Kept(pieces: Pieces, k: nat) {
    match pieces
    case Keep(from, to, rest) => from <= k < to || Kept(rest, k)
    case Excise(_, _, rest) => Kept(rest, k)
    case Finished => false
    case Unclosed => false
  }

  /** Where a kept character of the source comes to stand in the output. */
  ghost function Place(pieces: Pieces, source: string, cursor: nat, k: nat): nat
    requires Tiles(pieces, source, cursor) && Kept(pieces, k)
    decreases pieces
  {
    match pieces
    case Keep(from, to, rest) => if from <= k < to then k - from else to - from + Place(rest, source, to, k)
    case Excise(from, to, rest) => Newlines(source[from..to]) + Place(rest, source, to, k)
  }

  lemma {:induction false} KeptLiesAhead(pieces: Pieces, source: string, cursor: nat, k: nat)
    requires Tiles(pieces, source, cursor) && Kept(pieces, k)
    ensures cursor <= k < |source|
    decreases pieces
  {
    match pieces
    case Keep(from, to, rest) => if !(from <= k < to) { KeptLiesAhead(rest, source, to, k); }
    case Excise(from, to, rest) => KeptLiesAhead(rest, source, to, k);
  }

  /** From the cursor on, a kept character has as many line breaks before it in the output as in the source. */
  lemma {:induction false} PlaceKeepsLines(pieces: Pieces, source: string, cursor: nat, k: nat)
    requires Tiles(pieces, source, cursor) && Kept(pieces, k)
    ensures cursor <= k < |source|
    ensures var output, place := Output(pieces, source, cursor), Place(pieces, source, cursor, k);
            place < |output| && output[place] == source[k]
            && Newlines(output[..place]) == Newlines(source[cursor..k])
    decreases pieces, 0
  {
    hide Newlines;
    match pieces
    case Keep(from, to, rest) =>
      if from <= k < to {
        WithinPiece(source, from, to, k, Output(rest, source, to));
      } else {
        PieceBefore(rest, source, from, to, k, source[from..to]);
      }
    case Excise(from, to, rest) =>
      NewlinesOfBlanks(Newlines(source[from..to]));
      PieceBefore(rest, source, from, to, k, Blanks(Newlines(source[from..to])));
  }

  lemma WithinPiece(source: string, from: nat, to: nat, k: nat, after: string)
    requires from <= k < to <= |source|
    ensures var output := source[from..to] + after;
            output[k - from] == source[k] && output[..k - from] == source[from..k]
  {
  }

  /** A piece with as many line breaks as the span it stands for leaves the lines of what follows as they are. */
  lemma {:induction false} PieceBefore(rest: Pieces, source: string, from: nat, to: nat, k: nat, piece: string)
    requires from <= to <= |source| && Tiles(rest, source, to) && Kept(rest, k)
    requires Newlines(piece) == Newlines(source[from..to])
    ensures to <= k < |source|
    ensures var output, place := piece + Output(rest, source, to), |piece| + Place(rest, source, to, k);
            place < |output| && output[place] == source[k]
            && Newlines(output[..place]) == Newlines(source[from..k])
    decreases rest, 1
  {
    hide Newlines, Place, Output;
    PlaceKeepsLines(rest, source, to, k);
    var inner, output := Place(rest, source, to, k), Output(rest, source, to);
    assert (piece + output)[..|piece| + inner] == piece + output[..inner];
    NewlinesOfConcat(piece, output[..inner]);
    SpanBefore(source, from, to, k);
  }

  lemma SpanBefore(source: string, from: nat, to: nat, k: nat)
    requires from <= to <= k <= |source|
    ensures Newlines(source[from..k]) == Newlines(source[from..to]) + Newlines(source[to..k])
  {
    assert source[from..k] == source[from..to] + source[to..k];
    NewlinesOfConcat(source[from..to], source[to..k]);
  }

  /** Kept characters come to stand in the order they had, no two of them in one place. */
  lemma {:induction false} PlacesAscend(pieces: Pieces, source: string, cursor: nat, j: nat, k: nat)
    requires Tiles(pieces, source, cursor) && Kept(pieces, j) && Kept(pieces, k) && j < k
    ensures Place(pieces, source, cursor, j) < Place(pieces, source, cursor, k)
    decreases pieces
  {
    match pieces
    case Keep(from, to, rest) =>
      if to <= j {
        PlacesAscend(rest, source, to, j, k);
      } else if Kept(rest, j) {
        KeptLiesAhead(rest, source, to, j);
      }
    case Excise(from, to, rest) => PlacesAscend(rest, source, to, j, k);
  }

  /** Some kept character comes to stand here. */
  ghost predicate Placed(pieces: Pieces, source: string, cursor: nat, place: nat)
    requires Tiles(pieces, source, cursor)
  {
    exists k :: Kept(pieces, k) && Place(pieces, source, cursor, k) == place
  }

  lemma PlacedLater(pieces: Pieces, source: string, cursor: nat, place: nat)
    requires Tiles(pieces, source, cursor) && (pieces.Keep? || pieces.Excise?)
    requires var shift := if pieces.Keep? then pieces.to - pieces.from else Newlines(source[pieces.from..pieces.to]);
             place >= shift && Placed(pieces.rest, source, pieces.to, place - shift)
    ensures Placed(pieces, source, cursor, place)
  {
    var shift := if pieces.Keep? then pieces.to - pieces.from else Newlines(source[pieces.from..pieces.to]);
    var k :| Kept(pieces.rest, k) && Place(pieces.rest, source, pieces.to, k) == place - shift;
    KeptLiesAhead(pieces.rest, source, pieces.to, k);
    assert Kept(pieces, k);
  }

  /** What is not a kept character is a line break. */
  lemma {:induction false} TheRestIsBlank(pieces: Pieces, source: string, cursor: nat, place: nat)
    requires Tiles(pieces, source, cursor) && place < |Output(pieces, source, cursor)|
    ensures Placed(pieces, source, cursor, place) || Output(pieces, source, cursor)[place] == '\n'
    decreases pieces
  {
    match pieces
    case Keep(from, to, rest) =>
      if place < to - from {
        assert Kept(pieces, from + place);
      } else {
        TheRestIsBlank(rest, source, to, place - (to - from));
        if Placed(rest, source, to, place - (to - from)) {
          PlacedLater(pieces, source, cursor, place);
        }
      }
    case Excise(from, to, rest) =>
      var lines := Newlines(source[from..to]);
      if place >= lines {
        TheRestIsBlank(rest, source, to, place - lines);
        if Placed(rest, source, to, place - lines) {
          PlacedLater(pieces, source, cursor, place);
        }
      }
  }

  /** Where a character that survives comes to stand in the production text. */
  ghost function OutputPlace(rules: Rules, source: string, k: nat): nat
    requires Kept(PiecesFrom(rules, source, 0), k)
  {
    PiecesTile(rules, source, 0);
    Place(PiecesFrom(rules, source, 0), source, 0, k)
  }

  /** Every kept character stands in its place, on the same line in the output as in the source. */
  lemma KeptLinesKeepTheirNumbers(rules: Rules, source: string, k: nat)
    requires Kept(PiecesFrom(rules, source, 0), k)
    ensures k < |source|
    ensures var output, place := ProductionText(rules, source, 0), OutputPlace(rules, source, k);
            && place < |output| && output[place] == source[k]
            && Newlines(output[..place]) == Newlines(source[..k])
  {
    PiecesTile(rules, source, 0);
    PlaceKeepsLines(PiecesFrom(rules, source, 0), source, 0, k);
    assert source[0..k] == source[..k];
  }

  /** The production text is the kept characters in their order, and line breaks. */
  lemma OutputIsKeptAndBlanks(rules: Rules, source: string)
    ensures forall j, k | j < k && Kept(PiecesFrom(rules, source, 0), j) && Kept(PiecesFrom(rules, source, 0), k) ::
              OutputPlace(rules, source, j) < OutputPlace(rules, source, k)
    ensures forall place | 0 <= place < |ProductionText(rules, source, 0)| ::
              || ProductionText(rules, source, 0)[place] == '\n'
              || exists k :: Kept(PiecesFrom(rules, source, 0), k) && OutputPlace(rules, source, k) == place
  {
    PiecesTile(rules, source, 0);
    var pieces := PiecesFrom(rules, source, 0);
    forall j: nat, k: nat | j < k && Kept(pieces, j) && Kept(pieces, k)
      ensures OutputPlace(rules, source, j) < OutputPlace(rules, source, k)
    {
      PlacesAscend(pieces, source, 0, j, k);
    }
    forall place: nat | place < |ProductionText(rules, source, 0)| && ProductionText(rules, source, 0)[place] != '\n'
      ensures exists k :: Kept(pieces, k) && OutputPlace(rules, source, k) == place
    {
      TheRestIsBlank(pieces, source, 0, place);
      var k :| Kept(pieces, k) && Place(pieces, source, 0, k) == place;
      assert OutputPlace(rules, source, k) == place;
    }
  }

  ghost predicate AllClosed(pieces: Pieces) {
    match pieces
    case Keep(_, _, rest) => AllClosed(rest)
    case Excise(_, _, rest) => AllClosed(rest)
    case Finished => true
    case Unclosed => false
  }

  lemma {:induction false} OutputHasAllLines(pieces: Pieces, source: string, cursor: nat)
    requires cursor <= |source| && Tiles(pieces, source, cursor) && AllClosed(pieces)
    ensures Newlines(Output(pieces, source, cursor)) == Newlines(source[cursor..])
    decreases pieces
  {
    hide Newlines;
    match pieces
    case Keep(from, to, rest) =>
      OutputHasAllLines(rest, source, to);
      NewlinesOfConcat(source[from..to], Output(rest, source, to));
      assert source[cursor..] == source[from..to] + source[to..];
      NewlinesOfConcat(source[from..to], source[to..]);
    case Excise(from, to, rest) =>
      var blanks := Blanks(Newlines(source[from..to]));
      OutputHasAllLines(rest, source, to);
      NewlinesOfConcat(blanks, Output(rest, source, to));
      NewlinesOfBlanks(Newlines(source[from..to]));
      assert source[cursor..] == source[from..to] + source[to..];
      NewlinesOfConcat(source[from..to], source[to..]);
    case Finished => assert source[cursor..] == "";
  }

  /** When every test module closes, the output has as many lines as the source. */
  lemma LineCountIsKept(rules: Rules, source: string)
    requires AllClosed(PiecesFrom(rules, source, 0))
    ensures Newlines(ProductionText(rules, source, 0)) == Newlines(source)
  {
    PiecesTile(rules, source, 0);
    OutputHasAllLines(PiecesFrom(rules, source, 0), source, 0);
    assert source[0..] == source;
  }

  /** The line breaks counted are the `\n` characters. */
  lemma {:induction false} NewlinesAreCounted(text: string)
    ensures Newlines(text) == multiset(text)['\n']
  {
    if text != "" {
      NewlinesAreCounted(text[1..]);
      assert text == [text[0]] + text[1..];
    }
  }
}
