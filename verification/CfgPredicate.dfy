/** Telling the `cfg` predicates that hold only under test from the text of the attribute. */
module CfgPredicate {

  // ---------- text ----------

  predicate IsWhitespace(c: char) {
    || '\U{0009}' <= c <= '\U{000D}' || c == ' ' || c == '\U{0085}' || c == '\U{00A0}' || c == '\U{1680}'
    || '\U{2000}' <= c <= '\U{200A}' || c == '\U{2028}' || c == '\U{2029}' || c == '\U{202F}'
    || c == '\U{205F}' || c == '\U{3000}'
  }

  function TrimStart(text: string): string {
    if text != "" && IsWhitespace(text[0]) then TrimStart(text[1..]) else text
  }

  function TrimEnd(text: string): string {
    if text != "" && IsWhitespace(text[|text| - 1]) then TrimEnd(text[..|text| - 1]) else text
  }

  function Trim(text: string): string {
    TrimEnd(TrimStart(text))
  }

  predicate Blank(text: string) {
    forall i | 0 <= i < |text| :: IsWhitespace(text[i])
  }

  lemma {:induction false} TrimStartDropsBlank(blank: string, text: string)
    requires Blank(blank) && text != "" && !IsWhitespace(text[0])
    ensures TrimStart(blank + text) == text
  {
    if blank == "" {
      assert blank + text == text;
    } else {
      assert (blank + text)[1..] == blank[1..] + text;
      TrimStartDropsBlank(blank[1..], text);
    }
  }

  lemma {:induction false} TrimEndDropsBlank(text: string, blank: string)
    requires Blank(blank) && text != "" && !IsWhitespace(text[|text| - 1])
    ensures TrimEnd(text + blank) == text
    decreases |blank|
  {
    if blank == "" {
      assert text + blank == text;
    } else {
      var n := |blank| - 1;
      assert (text + blank)[..|text| + n] == text + blank[..n];
      TrimEndDropsBlank(text, blank[..n]);
    }
  }

  lemma {:induction false} TrimOfBlank(blank: string)
    requires Blank(blank)
    ensures TrimStart(blank) == ""
  {
    if blank != "" {
      TrimOfBlank(blank[1..]);
    }
  }

  lemma TrimOfPadded(before: string, text: string, after: string)
    requires Blank(before) && Blank(after)
    requires text != "" && !IsWhitespace(text[0]) && !IsWhitespace(text[|text| - 1])
    ensures Trim(before + text + after) == text
  {
    assert before + text + after == before + (text + after);
    TrimStartDropsBlank(before, text + after);
    TrimEndDropsBlank(text, after);
  }

  // ---------- the classifier ----------

  const TEST := "test"

  function DepthAfter(c: char, depth: nat): nat {
    if c == '(' then depth + 1 else if c == ')' && depth > 0 then depth - 1 else depth
  }

  /** Some item of the list, split at its own commas, is a bare `test`; `item` is the part already read of the current one. */
  function HasTestItem(item: string, list: string, depth: nat): bool
    decreases |list|
  {
    if list == "" then Trim(item) == TEST
    else
      var next := DepthAfter(list[0], depth);
      if list[0] == ',' && next == 0
      then Trim(item) == TEST || HasTestItem("", list[1..], next)
      else HasTestItem(item + [list[0]], list[1..], next)
  }

  function TestOnly(predicateText: string): bool {
    var trimmed := Trim(predicateText);
    || trimmed == TEST
    || (|trimmed| >= 5 && trimmed[..4] == "all(" && trimmed[|trimmed| - 1] == ')'
        && HasTestItem("", trimmed[4..|trimmed| - 1], 0))
  }

  method CfgIsTestOnly(predicateText: string) returns (testOnly: bool)
    ensures testOnly <==> TestOnly(predicateText)
  {
    var trimmed := Trim(predicateText);
    if trimmed == TEST {
      return true;
    }
    if |trimmed| < 5 || trimmed[..4] != "all(" || trimmed[|trimmed| - 1] != ')' {
      return false;
    }
    var list := trimmed[4..|trimmed| - 1];
    var depth: nat, item := 0, "";
    var i := 0;
    while i < |list|
      invariant i <= |list| && HasTestItem(item, list[i..], depth) == HasTestItem("", list, 0)
    {
      assert list[i..][1..] == list[i + 1..];
      depth := DepthAfter(list[i], depth);
      if list[i] == ',' && depth == 0 {
        if Trim(item) == TEST {
          return true;
        }
        item := "";
      } else {
        item := item + [list[i]];
      }
      i := i + 1;
    }
    testOnly := Trim(item) == TEST;
  }

  // ---------- predicates as expressions ----------

  datatype Cfg = Atom(name: string) | All(all: CfgList) | Any(any: CfgList) | Not(inner: Spaced)

  /** An expression with the blanks around it. */
  datatype Spaced = Spaced(before: string, cfg: Cfg, after: string)

  /** `Nothing` is an empty list, or what follows a trailing comma. */
  datatype CfgList = Nothing(blank: string) | Last(item: Spaced) | More(item: Spaced, rest: CfgList)

  function CfgText(cfg: Cfg): string {
    match cfg
    case Atom(name) => name
    case All(list) => "all(" + ListText(list) + ")"
    case Any(list) => "any(" + ListText(list) + ")"
    case Not(inner) => "not(" + SpacedText(inner) + ")"
  }

  function SpacedText(spaced: Spaced): string {
    spaced.before + CfgText(spaced.cfg) + spaced.after
  }

  function ListText(list: CfgList): string {
    match list
    case Nothing(blank) => blank
    case Last(item) => SpacedText(item)
    case More(item, rest) => SpacedText(item) + ("," + ListText(rest))
  }

  /** An atom is written without blanks at its ends and without commas and parentheses. */
  ghost predicate AtomReads(name: string) {
    && name != "" && !IsWhitespace(name[0]) && !IsWhitespace(name[|name| - 1])
    && Free(name) && ',' !in name
  }

  ghost predicate Free(text: string) {
    '(' !in text && ')' !in text
  }

  ghost predicate CfgReads(cfg: Cfg) {
    match cfg
    case Atom(name) => AtomReads(name)
    case All(list) => ListReads(list)
    case Any(list) => ListReads(list)
    case Not(inner) => SpacedReads(inner)
  }

  ghost predicate SpacedReads(spaced: Spaced) {
    Blank(spaced.before) && Blank(spaced.after) && CfgReads(spaced.cfg)
  }

  ghost predicate ListReads(list: CfgList) {
    match list
    case Nothing(blank) => Blank(blank)
    case Last(item) => SpacedReads(item)
    case More(item, rest) => SpacedReads(item) && ListReads(rest)
  }

  /** Whether the predicate holds in a configuration. */
  ghost predicate Holds(cfg: Cfg, config: set<string>) {
    match cfg
    case Atom(name) => name in config
    case All(list) => AllHold(list, config)
    case Any(list) => AnyHolds(list, config)
    case Not(inner) => !Holds(inner.cfg, config)
  }

  ghost predicate AllHold(list: CfgList, config: set<string>) {
    match list
    case Nothing(_) => true
    case Last(item) => Holds(item.cfg, config)
    case More(item, rest) => Holds(item.cfg, config) && AllHold(rest, config)
  }

  ghost predicate AnyHolds(list: CfgList, config: set<string>) {
    match list
    case Nothing(_) => false
    case Last(item) => Holds(item.cfg, config)
    case More(item, rest) => Holds(item.cfg, config) || AnyHolds(rest, config)
  }

  /** A bare `test` is a direct member of the list. */
  ghost predicate ListsTest(list: CfgList) {
    match list
    case Nothing(_) => false
    case Last(item) => item.cfg == Atom(TEST)
    case More(item, rest) => item.cfg == Atom(TEST) || ListsTest(rest)
  }

  ghost predicate IsTestOnly(cfg: Cfg) {
    cfg == Atom(TEST) || (cfg.All? && ListsTest(cfg.all))
  }

  // ---------- reading a text ----------

  lemma BlankIsFree(blank: string)
    requires Blank(blank)
    ensures Free(blank) && ',' !in blank
  {
  }

  /** Text without parentheses joins the current item, commas included inside parentheses. */
  lemma {:induction false} FreeIsRead(item: string, text: string, rest: string, depth: nat)
    requires Free(text) && (depth > 0 || ',' !in text)
    ensures HasTestItem(item, text + rest, depth) == HasTestItem(item + text, rest, depth)
    decreases |text|
  {
    if text == "" {
      assert text + rest == rest && item + text == item;
    } else {
      assert (text + rest)[1..] == text[1..] + rest;
      assert item + text == item + [text[0]] + text[1..];
      FreeIsRead(item + [text[0]], text[1..], rest, depth);
    }
  }

  lemma OpenIsRead(item: string, rest: string, depth: nat)
    ensures HasTestItem(item, "(" + rest, depth) == HasTestItem(item + "(", rest, depth + 1)
  {
    assert ("(" + rest)[1..] == rest;
  }

  lemma CloseIsRead(item: string, rest: string, depth: nat)
    ensures HasTestItem(item, ")" + rest, depth + 1) == HasTestItem(item + ")", rest, depth)
  {
    assert (")" + rest)[1..] == rest;
  }

  /** A call such as `all(..)` joins the current item, given that its arguments do one level further in. */
  lemma CallIsRead(item: string, name: string, arguments: string, rest: string, depth: nat)
    requires |name| == 3 && Free(name) && ',' !in name
    requires HasTestItem(item + name + "(", arguments + (")" + rest), depth + 1)
          == HasTestItem(item + name + "(" + arguments, ")" + rest, depth + 1)
    ensures HasTestItem(item, name + "(" + arguments + ")" + rest, depth)
         == HasTestItem(item + (name + "(" + arguments + ")"), rest, depth)
  {
    hide HasTestItem, Free;
    assert name + "(" + arguments + ")" + rest == name + ("(" + (arguments + (")" + rest)));
    FreeIsRead(item, name, "(" + (arguments + (")" + rest)), depth);
    OpenIsRead(item + name, arguments + (")" + rest), depth);
    CloseIsRead(item + name + "(" + arguments, rest, depth);
    assert item + name + "(" + arguments + ")" == item + (name + "(" + arguments + ")");
  }

  lemma {:induction false} CfgIsRead(item: string, cfg: Cfg, rest: string, depth: nat)
    requires CfgReads(cfg)
    ensures HasTestItem(item, CfgText(cfg) + rest, depth) == HasTestItem(item + CfgText(cfg), rest, depth)
    decreases cfg, 0
  {
    hide HasTestItem;
    match cfg
    case Atom(name) => FreeIsRead(item, name, rest, depth);
    case All(list) =>
      ListIsRead(item + "all" + "(", list, ")" + rest, depth + 1);
      assert "all(" == "all" + "(";
      CallIsRead(item, "all", ListText(list), rest, depth);
    case Any(list) =>
      ListIsRead(item + "any" + "(", list, ")" + rest, depth + 1);
      assert "any(" == "any" + "(";
      CallIsRead(item, "any", ListText(list), rest, depth);
    case Not(inner) =>
      SpacedIsRead(item + "not" + "(", inner, ")" + rest, depth + 1);
      assert "not(" == "not" + "(";
      CallIsRead(item, "not", SpacedText(inner), rest, depth);
  }

  lemma {:induction false} SpacedIsRead(item: string, spaced: Spaced, rest: string, depth: nat)
    requires SpacedReads(spaced)
    ensures HasTestItem(item, SpacedText(spaced) + rest, depth) == HasTestItem(item + SpacedText(spaced), rest, depth)
    decreases spaced, 1
  {
    hide HasTestItem, CfgReads, CfgText;
    var before, text, after := spaced.before, CfgText(spaced.cfg), spaced.after;
    BlankIsFree(before);
    BlankIsFree(after);
    assert SpacedText(spaced) + rest == before + (text + (after + rest));
    FreeIsRead(item, before, text + (after + rest), depth);
    CfgIsRead(item + before, spaced.cfg, after + rest, depth);
    FreeIsRead(item + before + text, after, rest, depth);
    assert item + before + text + after == item + SpacedText(spaced);
  }

  /** Within parentheses a whole list joins the current item. */
  lemma {:induction false} ListIsRead(item: string, list: CfgList, rest: string, depth: nat)
    requires ListReads(list) && depth > 0
    ensures HasTestItem(item, ListText(list) + rest, depth) == HasTestItem(item + ListText(list), rest, depth)
    decreases list, 2
  {
    hide HasTestItem, SpacedReads;
    match list
    case Nothing(blank) =>
      BlankIsFree(blank);
      FreeIsRead(item, blank, rest, depth);
    case Last(spaced) => SpacedIsRead(item, spaced, rest, depth);
    case More(spaced, others) =>
      var text, tail := SpacedText(spaced), ListText(others);
      assert ListText(list) + rest == text + ("," + (tail + rest));
      SpacedIsRead(item, spaced, "," + (tail + rest), depth);
      FreeIsRead(item + text, ",", tail + rest, depth);
      ListIsRead(item + text + ",", others, rest, depth);
      assert item + text + "," + tail == item + ListText(list);
  }

  lemma CfgTextHasNoBlankEnds(cfg: Cfg)
    requires CfgReads(cfg)
    ensures var text := CfgText(cfg); text != "" && !IsWhitespace(text[0]) && !IsWhitespace(text[|text| - 1])
    ensures CfgText(cfg) == TEST <==> cfg == Atom(TEST)
  {
    if !cfg.Atom? {
      assert CfgText(cfg)[3] == '(';
    }
  }

  lemma ItemIsTest(spaced: Spaced)
    requires SpacedReads(spaced)
    ensures Trim(SpacedText(spaced)) == TEST <==> spaced.cfg == Atom(TEST)
  {
    CfgTextHasNoBlankEnds(spaced.cfg);
    TrimOfPadded(spaced.before, CfgText(spaced.cfg), spaced.after);
  }

  /** At its own level a list is split into its items. */
  lemma {:induction false} ListIsSplit(list: CfgList)
    requires ListReads(list)
    ensures HasTestItem("", ListText(list), 0) <==> ListsTest(list)
  {
    match list
    case Nothing(blank) =>
      BlankIsFree(blank);
      FreeIsRead("", blank, "", 0);
      assert blank + "" == blank && "" + blank == blank;
      TrimOfBlank(blank);
    case Last(item) =>
      SpacedIsRead("", item, "", 0);
      assert SpacedText(item) + "" == SpacedText(item) && "" + SpacedText(item) == SpacedText(item);
      ItemIsTest(item);
    case More(item, rest) =>
      SpacedIsRead("", item, "," + ListText(rest), 0);
      assert "" + SpacedText(item) == SpacedText(item);
      assert ("," + ListText(rest))[1..] == ListText(rest);
      ItemIsTest(item);
      ListIsSplit(rest);
  }

  /** However it is spaced, exactly `test` and an `all` with a bare `test` among its members are accepted. */
  lemma AcceptedForms(spaced: Spaced)
    requires SpacedReads(spaced)
    ensures TestOnly(SpacedText(spaced)) <==> IsTestOnly(spaced.cfg)
  {
    hide HasTestItem, TrimStart, TrimEnd;
    var text := CfgText(spaced.cfg);
    CfgTextHasNoBlankEnds(spaced.cfg);
    TrimOfPadded(spaced.before, text, spaced.after);
    match spaced.cfg
    case Atom(name) => assert |name| >= 4 ==> name[..4][3] in name;
    case All(list) =>
      assert text[4..|text| - 1] == ListText(list);
      assert text[..4] == "all(";
      ListIsSplit(list);
    case Any(list) => assert text[..4] == "any(";
    case Not(inner) => assert text[..4] == "not(";
  }

  lemma {:induction false} ListedTestIsNeeded(list: CfgList, config: set<string>)
    requires ListsTest(list) && TEST !in config
    ensures !AllHold(list, config)
  {
    match list
    case Nothing(_) =>
    case Last(_) =>
    case More(item, rest) =>
      if item.cfg != Atom(TEST) {
        ListedTestIsNeeded(rest, config);
      }
  }

  /** A module whose predicate is accepted is compiled in no configuration without `test`. */
  lemma AcceptedPredicatesNeedTest(spaced: Spaced, config: set<string>)
    requires SpacedReads(spaced) && TestOnly(SpacedText(spaced)) && TEST !in config
    ensures !Holds(spaced.cfg, config)
  {
    AcceptedForms(spaced);
    if spaced.cfg.All? {
      ListedTestIsNeeded(spaced.cfg.all, config);
    }
  }

  // ---------- in plain text ----------

  /** The code points of the characters that trimming removes. */
  const WHITESPACE: set<int> := {
    9, 10, 11, 12, 13, 32, 0x85, 0xA0, 0x1680, 0x2000, 0x2001, 0x2002, 0x2003, 0x2004, 0x2005, 0x2006, 0x2007, 0x2008,
    0x2009, 0x200A, 0x2028, 0x2029, 0x202F, 0x205F, 0x3000}

  lemma WhitespaceIsListed(c: char)
    ensures IsWhitespace(c) <==> (c as int) in WHITESPACE
  {
  }

  lemma BlankIsListed(blank: string)
    requires forall c | c in blank :: (c as int) in WHITESPACE
    ensures Blank(blank)
  {
    hide IsWhitespace;
    forall i | 0 <= i < |blank| ensures IsWhitespace(blank[i]) {
      assert blank[i] in blank;
      WhitespaceIsListed(blank[i]);
    }
  }

  /** A bare `test` is accepted whatever white space surrounds it. */
  lemma BareTestIsAccepted(before: string, after: string)
    requires forall c | c in before :: (c as int) in WHITESPACE
    requires forall c | c in after :: (c as int) in WHITESPACE
    ensures TestOnly(before + "test" + after)
  {
    hide TestOnly;
    BlankIsListed(before);
    BlankIsListed(after);
    AcceptedForms(Spaced(before, Atom("test"), after));
  }

  /** And no other character may stand next to it. */
  lemma OtherTextIsRefused(c: char)
    requires (c as int) !in WHITESPACE
    ensures !TestOnly([c] + "test") && !TestOnly("test" + [c])
  {
    hide IsWhitespace, HasTestItem, TrimStart, TrimEnd;
    WhitespaceIsListed(c);
    WhitespaceIsListed('t');
    UntrimmedIsKept([c] + "test");
    UntrimmedIsKept("test" + [c]);
    assert ("test" + [c])[..4] == "test" && ([c] + "test")[1..] == "test";
    assert ([c] + "test")[..4][1] == 't';
  }

  lemma UntrimmedIsKept(text: string)
    requires text != "" && !IsWhitespace(text[0]) && !IsWhitespace(text[|text| - 1])
    ensures Trim(text) == text
  {
  }

  /** A name as it may stand in a predicate. */
  ghost predicate IsName(name: string) {
    name != "" && forall c | c in name :: 'a' <= c <= 'z' || 'A' <= c <= 'Z' || '0' <= c <= '9' || c == '_'
  }

  lemma NameReads(name: string)
    requires IsName(name)
    ensures AtomReads(name)
  {
    assert name[0] in name && name[|name| - 1] in name;
  }

  function One(x: Cfg): CfgList { Last(Spaced("", x, "")) }

  function Two(x: Cfg, y: Cfg): CfgList { More(Spaced("", x, ""), Last(Spaced(" ", y, ""))) }

  lemma OneText(x: Cfg)
    ensures ListText(One(x)) == CfgText(x)
  {
    assert SpacedText(Spaced("", x, "")) == CfgText(x);
  }

  lemma TwoText(x: Cfg, y: Cfg)
    ensures ListText(Two(x, y)) == CfgText(x) + ", " + CfgText(y)
  {
    assert SpacedText(Spaced("", x, "")) == CfgText(x);
    assert SpacedText(Spaced(" ", y, "")) == " " + CfgText(y);
    assert "," + (" " + CfgText(y)) == ", " + CfgText(y);
  }

  lemma ListsRead(x: Cfg, y: Cfg)
    requires CfgReads(x) && CfgReads(y)
    ensures ListReads(One(x)) && ListReads(Two(x, y))
    ensures ListsTest(One(x)) <==> x == Atom("test")
    ensures ListsTest(Two(x, y)) <==> x == Atom("test") || y == Atom("test")
  {
  }

  /** The operators, spelled out: only `all` with a `test` of its own is accepted. */
  lemma OperatorsAreTold(name: string)
    requires IsName(name)
    ensures TestOnly("all(" + ("test" + ", " + name) + ")") && TestOnly("all(" + (name + ", " + "test") + ")")
    ensures TestOnly("all(" + name + ")") <==> name == "test"
    ensures !TestOnly("any(" + ("test" + ", " + name) + ")") && !TestOnly("any(" + "test" + ")")
    ensures !TestOnly("not(" + "test" + ")")
    ensures TestOnly(name) <==> name == "test"
  {
    hide TestOnly, IsName;
    var own, test := Atom(name), Atom("test");
    NameReads(name);
    NameReads("test");
    AllIsTold(test, own, "test" + ", " + name);
    AllIsTold(own, test, name + ", " + "test");
    AllOfOneIsTold(own);
    AnyIsRefused(Two(test, own), test, own, "test" + ", " + name);
    AnyIsRefused(One(test), test, own, "test");
    NotIsRefused(test);
    Told(own, name);
  }

  /** A `test` further in does not count. */
  lemma InnerTestsAreRefused(name: string)
    requires IsName(name)
    ensures TestOnly("all(" + ("not(" + "test" + ")" + ", " + name) + ")") <==> name == "test"
    ensures !TestOnly("all(" + ("any(" + ("test" + ", " + name) + ")") + ")")
  {
    hide TestOnly, IsName;
    var own, test := Atom(name), Atom("test");
    NameReads(name);
    NameReads("test");
    NotIsRefused(test);
    AllIsTold(Not(Spaced("", test, "")), own, "not(" + "test" + ")" + ", " + name);
    TwoText(test, own);
    ListsRead(test, own);
    AllOfOneIsTold(Any(Two(test, own)));
  }

  lemma AllIsTold(x: Cfg, y: Cfg, text: string)
    requires CfgReads(x) && CfgReads(y) && text == CfgText(x) + ", " + CfgText(y)
    ensures TestOnly("all(" + text + ")") <==> x == Atom("test") || y == Atom("test")
  {
    hide TestOnly;
    TwoText(x, y);
    ListsRead(x, y);
    Told(All(Two(x, y)), "all(" + text + ")");
  }

  lemma AllOfOneIsTold(x: Cfg)
    requires CfgReads(x)
    ensures TestOnly("all(" + CfgText(x) + ")") <==> x == Atom("test")
  {
    hide TestOnly;
    OneText(x);
    ListsRead(x, x);
    Told(All(One(x)), "all(" + CfgText(x) + ")");
  }

  lemma AnyIsRefused(list: CfgList, x: Cfg, y: Cfg, text: string)
    requires CfgReads(x) && CfgReads(y)
    requires (list == One(x) && text == CfgText(x)) || (list == Two(x, y) && text == CfgText(x) + ", " + CfgText(y))
    ensures !TestOnly("any(" + text + ")")
  {
    hide TestOnly;
    OneText(x);
    TwoText(x, y);
    ListsRead(x, y);
    Told(Any(list), "any(" + text + ")");
  }

  lemma NotIsRefused(x: Cfg)
    requires CfgReads(x)
    ensures CfgText(Not(Spaced("", x, ""))) == "not(" + CfgText(x) + ")" && CfgReads(Not(Spaced("", x, "")))
    ensures !TestOnly("not(" + CfgText(x) + ")")
  {
    hide TestOnly;
    assert SpacedText(Spaced("", x, "")) == CfgText(x);
    Told(Not(Spaced("", x, "")), "not(" + CfgText(x) + ")");
  }

  lemma Told(cfg: Cfg, text: string)
    requires CfgReads(cfg) && CfgText(cfg) == text
    ensures TestOnly(text) <==> IsTestOnly(cfg)
  {
    AcceptedForms(Spaced("", cfg, ""));
    assert "" + text + "" == text;
  }
}
