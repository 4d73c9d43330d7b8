/** Printing a JSON value, and why reading the print gives the value back. */
module JsonDump {
  import opened Basics
  import opened JsonText
  import opened JsonGrammar
  import opened JsonSyntax
  import opened JsonLayouts

  /** A value to be written.  Integers carry their kind: signed or unsigned 64 bits. */
  datatype WValue =
    | WNull | WFalse | WTrue
    | WSigned(i: int)
    | WUnsigned(u: nat)
    | WString(s: string)
    | WList(items: seq<WValue>)
    | WObject(members: seq<WMember>)

  datatype WMember = WMember(key: string, value: WValue)

  // ---------------------------------------------------------------- printing

  function Quoted(s: string): string {
    "\"" + Escape(s) + "\""
  }

  function Dump(v: WValue): string
    decreases v, 0
  {
    match v
    case WNull => "null"
    case WFalse => "false"
    case WTrue => "true"
    case WSigned(i) => IntText(i)
    case WUnsigned(u) => IntText(u)
    case WString(s) => Quoted(s)
    case WList(items) => "[" + DumpItems(items, 0) + "]"
    case WObject(members) => "{" + DumpMembers(members, 0) + "}"
  }

  /** The items from number `i` on, each but item 0 behind a comma. */
  function DumpItems(vs: seq<WValue>, i: nat): string
    requires i <= |vs|
    decreases vs, |vs| - i
  {
    if i == |vs| then "" else (if i == 0 then "" else ",") + Dump(vs[i]) + DumpItems(vs, i + 1)
  }

  function DumpMembers(ms: seq<WMember>, i: nat): string
    requires i <= |ms|
    decreases ms, |ms| - i
  {
    if i == |ms| then ""
    else (if i == 0 then "" else ",") + Quoted(ms[i].key) + ":" + Dump(ms[i].value) + DumpMembers(ms, i + 1)
  }

  /** `dump_string`. */
  method WriteString(s: string, out: string) returns (r: string)
    ensures r == out + Quoted(s)
  {
    r := AppendEscaped(s, out + ['"']);
    r := r + ['"'];
  }

  /** `dump_internal`: append the text of a value. */
  method Write(v: WValue, out: string) returns (r: string)
    ensures r == out + Dump(v)
    decreases v
  {
    match v
    case WNull => r := out + "null";
    case WFalse => r := out + "false";
    case WTrue => r := out + "true";
    case WSigned(i) => r := out + IntText(i);
    case WUnsigned(u) => r := out + IntText(u);
    case WString(s) => r := WriteString(s, out);
    case WList(items) => r := WriteList(items, out);
    case WObject(members) => r := WriteObject(members, out);
  }

  method WriteList(items: seq<WValue>, out: string) returns (r: string)
    ensures r == out + ("[" + DumpItems(items, 0) + "]")
    decreases items
  {
    hide Dump;
    r := out + ['['];
    var first := true;
    var i := 0;
    while i < |items|
      invariant i <= |items| && (first <==> i == 0)
      invariant r + DumpItems(items, i) == out + "[" + DumpItems(items, 0)
    {
      ghost var r0 := r;
      if !first {
        r := r + [','];
      }
      first := false;
      ghost var r1 := r;
      r := Write(items[i], r);
      assert r1 + Dump(items[i]) + DumpItems(items, i + 1) == r0 + DumpItems(items, i);
      i := i + 1;
    }
    assert r + "" == r;
    r := r + [']'];
  }

  method WriteObject(members: seq<WMember>, out: string) returns (r: string)
    ensures r == out + ("{" + DumpMembers(members, 0) + "}")
    decreases members
  {
    hide Dump, Quoted;
    r := out + ['{'];
    var first := true;
    var i := 0;
    while i < |members|
      invariant i <= |members| && (first <==> i == 0)
      invariant r + DumpMembers(members, i) == out + "{" + DumpMembers(members, 0)
    {
      ghost var r0 := r;
      if !first {
        r := r + [','];
      }
      first := false;
      ghost var r1 := r;
      var m := members[i];
      r := WriteString(m.key, r);
      r := r + [':'];
      r := Write(m.value, r);
      assert r1 + Quoted(m.key) + ":" + Dump(m.value) + DumpMembers(members, i + 1) == r0 + DumpMembers(members, i);
      i := i + 1;
    }
    assert r + "" == r;
    r := r + ['}'];
  }

  // ---------------------------------------------------------------- what is read back

  /** The value as the reader gives it back: integers as their text. */
  function JsonOf(v: WValue): Json
    decreases v, 0
  {
    match v
    case WNull => JNull
    case WFalse => JFalse
    case WTrue => JTrue
    case WSigned(i) => JNumber(IntText(i))
    case WUnsigned(u) => JNumber(IntText(u))
    case WString(s) => JString(s)
    case WList(items) => JList(ItemsOf(items, 0))
    case WObject(members) => JObject(MembersOf(members, 0))
  }

  function ItemsOf(vs: seq<WValue>, i: nat): seq<Json>
    requires i <= |vs|
    decreases vs, |vs| - i
  {
    if i == |vs| then [] else [JsonOf(vs[i])] + ItemsOf(vs, i + 1)
  }

  function MembersOf(ms: seq<WMember>, i: nat): seq<Member>
    requires i <= |ms|
    decreases ms, |ms| - i
  {
    if i == |ms| then [] else [Member(ms[i].key, JsonOf(ms[i].value))] + MembersOf(ms, i + 1)
  }

  /** Containers nested in each other: 0 for a scalar. */
  function Nesting(v: WValue): nat
    decreases v, 0
  {
    match v
    case WList(items) => 1 + ItemsNesting(items, 0)
    case WObject(members) => 1 + MembersNesting(members, 0)
    case _ => 0
  }

  function ItemsNesting(vs: seq<WValue>, i: nat): nat
    requires i <= |vs|
    decreases vs, |vs| - i
  {
    if i == |vs| then 0
    else
      var a, b := Nesting(vs[i]), ItemsNesting(vs, i + 1);
      if a > b then a else b
  }

  function MembersNesting(ms: seq<WMember>, i: nat): nat
    requires i <= |ms|
    decreases ms, |ms| - i
  {
    if i == |ms| then 0
    else
      var a, b := Nesting(ms[i].value), MembersNesting(ms, i + 1);
      if a > b then a else b
  }

  // ---------------------------------------------------------------- a print is a way to write its value

  /** How a character is printed. */
  function UnitOf(c: char): Unit {
    if c == '"' then Short('"')
    else if c == '\\' then Short('\\')
    else if c as int == 10 then Short('n')
    else if c as int == 8 then Short('b')
    else if c as int == 12 then Short('f')
    else if c as int == 13 then Short('r')
    else if c as int == 9 then Short('t')
    else if c as int < 32 then Code(c as int, "00" + [HexDigit(c as int / 16), HexDigit(c as int % 16)])
    else Raw(c)
  }

  lemma HexDigitIs(n: nat)
    requires n < 16
    ensures HexOf(HexDigit(n), n)
  {
  }

  lemma ZeroDigit()
    ensures HexOf('0', 0)
  {
  }

  lemma ControlCode(c: char)
    requires c as int < 32
    ensures var u := Code(c as int, "00" + [HexDigit(c as int / 16), HexDigit(c as int % 16)]);
            && GoodUnit(u) && ShowUnit(u) == "\\u00" + [HexDigit(c as int / 16), HexDigit(c as int % 16)]
            && UnitMeans(u, [c])
  {
    hide HexOf, HexDigit;
    ZeroDigit();
    HexDigitIs(c as int / 16);
    HexDigitIs(c as int % 16);
  }

  lemma UnitOfChar(c: char)
    ensures GoodUnit(UnitOf(c)) && ShowUnit(UnitOf(c)) == EscapeChar(c) && UnitMeans(UnitOf(c), [c])
  {
    hide HexOf, HexDigit, ReadUtf8;
    if UnitOf(c).Code? {
      hide GoodUnit, UnitMeans, ShowUnit;
      ControlCode(c);
    }
  }

  function UnitsOf(s: string): seq<Unit> {
    seq(|s|, i requires 0 <= i < |s| => UnitOf(s[i]))
  }

  /** Printing writes the units of a string, and they mean the string. */
  lemma {:induction false} EscapeShows(s: string)
    ensures GoodUnits(UnitsOf(s)) && ShowUnits(UnitsOf(s)) == Escape(s) && UnitsMean(UnitsOf(s), s)
  {
    hide UnitOf, GoodUnit, ShowUnit, EscapeChar, UnitMeans;
    var us := UnitsOf(s);
    forall i | 0 <= i < |us| ensures GoodUnit(us[i]) {
      UnitOfChar(s[i]);
    }
    if s != "" {
      UnitOfChar(s[0]);
      EscapeShows(s[1..]);
      assert us[1..] == UnitsOf(s[1..]);
      assert s[..1] == [s[0]];
    }
  }

  lemma StringShows(s: string)
    ensures GoodUnits(UnitsOf(s)) && ShowQuoted(UnitsOf(s)) == Quoted(s) && TextOf(UnitsOf(s)) == s
  {
    hide UnitsOf, GoodUnits, ShowUnits, UnitsMean, Escape, Unescape, WellEscaped;
    EscapeShows(s);
    UnitsExactly(UnitsOf(s), s);
  }

  /** Escaping a string yields printable text without a bare quote, whatever is in the string, and
      unescaping gives the string back. */
  lemma EscapeRoundTrip(s: string)
    ensures WellEscaped(Escape(s)) && Unescape(Escape(s)) == s
    ensures forall i :: 0 <= i < |Escape(s)| ==> Escape(s)[i] as int >= 32
    ensures forall i :: 0 <= i < |Escape(s)| && Escape(s)[i] == '"' ==> i > 0 && Escape(s)[i - 1] == '\\'
  {
    hide Escape, Unescape, WellEscaped, UnitsOf, GoodUnits, ShowUnits, UnitsMean;
    EscapeShows(s);
    UnitsExactly(UnitsOf(s), s);
    EscapePrintable(s);
  }

  lemma {:induction false} EscapePrintable(s: string)
    ensures forall i :: 0 <= i < |Escape(s)| ==> Escape(s)[i] as int >= 32
    ensures forall i :: 0 <= i < |Escape(s)| && Escape(s)[i] == '"' ==> i > 0 && Escape(s)[i - 1] == '\\'
  {
    hide EscapeChar;
    if s != "" {
      EscapePrintable(s[1..]);
      CharPrintable(s[0]);
      var e, r := EscapeChar(s[0]), Escape(s[1..]);
      assert forall i :: |e| <= i < |e + r| ==> (e + r)[i] == r[i - |e|];
    }
  }

  lemma CharPrintable(c: char)
    ensures var e := EscapeChar(c);
            && (forall i :: 0 <= i < |e| ==> e[i] as int >= 32)
            && (forall i :: 0 <= i < |e| && e[i] == '"' ==> i > 0 && e[i - 1] == '\\')
  {
  }

  lemma {:induction false} LeadingAll(s: string)
    requires forall i :: 0 <= i < |s| ==> IsNum(s[i])
    ensures Leading(s) == |s|
  {
    if s != "" {
      LeadingAll(s[1..]);
    }
  }

  lemma NatForm(n: nat)
    ensures UnsignedForm(NatText(n))
  {
    var s := NatText(n);
    NatTextBack(n);
    LeadingAll(s);
    assert s[|s|..] == "";
    if n == 0 {
      assert s[1..] == "";
    }
  }

  lemma IntForm(n: int)
    ensures NumberForm(IntText(n))
  {
    hide UnsignedForm, NatText;
    if n < 0 {
      NatForm(-n);
      assert IntText(n)[1..] == NatText(-n);
    } else {
      NatForm(n);
      DigitFirst(n);
    }
  }

  lemma DigitFirst(n: nat)
    ensures NatText(n) != "" && NatText(n)[0] != '-'
  {
    assert IsNum(NatText(n)[0]);
  }

  /** The layout of a print. */
  function LayoutOf(v: WValue): Layout
    decreases v, 0
  {
    match v
    case WNull => ShowNull
    case WFalse => ShowFalse
    case WTrue => ShowTrue
    case WSigned(i) => ShowNumber(IntText(i))
    case WUnsigned(u) => ShowNumber(IntText(u))
    case WString(s) => ShowString(UnitsOf(s))
    case WList(items) => if items == [] then ShowEmptyList("") else ShowList("", ItemsLayout(items, 0))
    case WObject(members) => if members == [] then ShowEmptyObject("") else ShowObject("", PairsLayout(members, 0))
  }

  function ItemsLayout(vs: seq<WValue>, i: nat): Items
    requires i < |vs|
    decreases vs, |vs| - i
  {
    if i + 1 == |vs| then LastItem(LayoutOf(vs[i]), "")
    else MoreItems(LayoutOf(vs[i]), "", "", ItemsLayout(vs, i + 1))
  }

  function PairLayout(m: WMember): Pair
    decreases m, 0
  {
    Pair(UnitsOf(m.key), "", "", LayoutOf(m.value))
  }

  function PairsLayout(ms: seq<WMember>, i: nat): Pairs
    requires i < |ms|
    decreases ms, |ms| - i
  {
    if i + 1 == |ms| then LastPair(PairLayout(ms[i]), "")
    else MorePairs(PairLayout(ms[i]), "", "", PairsLayout(ms, i + 1))
  }

  /** Every print writes its value, without white space. */
  lemma {:induction false} DumpShows(v: WValue)
    ensures var l := LayoutOf(v);
            Good(l) && Show(l) == Dump(v) && Meant(l) == JsonOf(v) && Depth(l) == Nesting(v)
    decreases v, 0
  {
    hide DumpItems, DumpMembers, ItemsOf, MembersOf, ItemsLayout, PairsLayout, ShowItems, ShowPairs, ItemsMeant,
         PairsMeant, ItemsDepth, PairsDepth, ItemsNesting, MembersNesting, GoodItems, GoodPairs, NumberForm, GoodUnits,
         ShowQuoted, Quoted, TextOf, IntText, UnitsOf;
    match v {
      case WSigned(i) => IntForm(i);
      case WUnsigned(u) => IntForm(u);
      case WString(s) => StringShows(s);
      case WList(items) =>
        if items == [] {
          EmptyDumps(v);
        } else {
          ItemsShow(items, 0);
          FirstItem(items);
          assert "[" + "" + ShowItems(ItemsLayout(items, 0)) == Dump(v);
        }
      case WObject(members) =>
        if members == [] {
          EmptyDumps(v);
        } else {
          PairsShow(members, 0);
          FirstMember(members);
          assert "{" + "" + ShowPairs(PairsLayout(members, 0)) == Dump(v);
        }
      case _ =>
    }
  }

  lemma EmptyDumps(v: WValue)
    requires v == WList([]) || v == WObject([])
    ensures var l := LayoutOf(v); Good(l) && Show(l) == Dump(v) && Meant(l) == JsonOf(v) && Depth(l) == Nesting(v)
  {
  }

  lemma FirstItem(items: seq<WValue>)
    requires items != []
    ensures DumpItems(items, 0) == Dump(items[0]) + DumpItems(items, 1)
  {
    hide Dump;
  }

  lemma {:induction false} ItemsShow(vs: seq<WValue>, i: nat)
    requires i < |vs|
    ensures var l := ItemsLayout(vs, i);
            && GoodItems(l) && ShowItems(l) == Dump(vs[i]) + DumpItems(vs, i + 1) + "]"
            && ItemsMeant(l) == ItemsOf(vs, i) && ItemsDepth(l) == ItemsNesting(vs, i)
    decreases vs, |vs| - i
  {
    hide Dump, LayoutOf, Show, Meant, Depth, Nesting, JsonOf, Good;
    var x := Dump(vs[i]);
    DumpShows(vs[i]);
    if i + 1 < |vs| {
      ItemsShow(vs, i + 1);
      assert DumpItems(vs, i + 1) == "," + Dump(vs[i + 1]) + DumpItems(vs, i + 2);
      assert x + "" + "," + "" + ShowItems(ItemsLayout(vs, i + 1)) == x + DumpItems(vs, i + 1) + "]";
    } else {
      assert x + "" + "]" == x + DumpItems(vs, i + 1) + "]";
      assert ItemsOf(vs, i + 1) == [] && ItemsNesting(vs, i + 1) == 0;
    }
  }

  function MemberText(m: WMember): string {
    Quoted(m.key) + ":" + Dump(m.value)
  }

  lemma FirstMember(members: seq<WMember>)
    requires members != []
    ensures DumpMembers(members, 0) == MemberText(members[0]) + DumpMembers(members, 1)
  {
    hide Dump, Quoted;
  }

  lemma MembersStep(ms: seq<WMember>, i: nat)
    requires 0 < i < |ms|
    ensures DumpMembers(ms, i) == "," + MemberText(ms[i]) + DumpMembers(ms, i + 1)
  {
    hide Dump, Quoted;
  }

  lemma PairShows(m: WMember)
    ensures var p := PairLayout(m);
            && GoodPair(p) && ShowPair(p) == MemberText(m) && PairMeant(p) == Member(m.key, JsonOf(m.value))
            && Depth(p.value) == Nesting(m.value)
    decreases m, 0
  {
    hide Dump, LayoutOf, Show, Meant, Depth, Nesting, JsonOf, Good, Quoted, ShowQuoted, UnitsOf, GoodUnits, TextOf;
    DumpShows(m.value);
    StringShows(m.key);
    assert Quoted(m.key) + "" + ":" + "" + Dump(m.value) == MemberText(m);
  }

  lemma {:induction false} PairsShow(ms: seq<WMember>, i: nat)
    requires i < |ms|
    ensures var l := PairsLayout(ms, i);
            && GoodPairs(l) && ShowPairs(l) == MemberText(ms[i]) + DumpMembers(ms, i + 1) + "}"
            && PairsMeant(l) == MembersOf(ms, i) && PairsDepth(l) == MembersNesting(ms, i)
    decreases ms, |ms| - i
  {
    hide MemberText, PairLayout, ShowPair, PairMeant, Depth, Nesting, JsonOf, GoodPair, Dump, Quoted;
    var x := MemberText(ms[i]);
    PairShows(ms[i]);
    if i + 1 < |ms| {
      PairsShow(ms, i + 1);
      MembersStep(ms, i + 1);
      assert x + "" + "," + "" + ShowPairs(PairsLayout(ms, i + 1)) == x + DumpMembers(ms, i + 1) + "}";
    } else {
      assert x + "" + "}" == x + DumpMembers(ms, i + 1) + "}";
      assert MembersOf(ms, i + 1) == [] && MembersNesting(ms, i + 1) == 0;
    }
  }

  /** Reading what was printed: for every value the reader returns exactly that value, or, exactly
      when more than 5000 containers are nested, an error. */
  lemma RoundTrip(v: WValue)
    ensures ParseText(Dump(v)) == if Nesting(v) <= 5000 then Some(JsonOf(v)) else None
  {
    hide Dump, ParseText, JsonOf, Nesting, Good, Show, Meant, Depth, LayoutOf;
    DumpShows(v);
    assert "" + Dump(v) + "" + "" == Dump(v);
    TextShown(Dump(v), "", LayoutOf(v), "", "");
  }
}
