/** Which texts the JSON reader accepts, and as what: exactly the ways to write a value, with any white
    space, escapes and numbers, nested no deeper than its limit. */
module JsonLayouts {
  import opened Basics
  import opened JsonText
  import opened JsonGrammar
  import opened JsonSyntax

  /** A value as it is written, with the white space around its parts. */
  datatype Layout =
    | ShowNull | ShowFalse | ShowTrue
    | ShowNumber(text: string)
    | ShowString(units: seq<Unit>)
    | ShowEmptyList(space: string)
    | ShowList(space: string, items: Items)
    | ShowEmptyObject(space: string)
    | ShowObject(space: string, members: Pairs)

  datatype Items =
    | LastItem(value: Layout, after: string)
    | MoreItems(value: Layout, after: string, before: string, rest: Items)

  datatype Pair = Pair(key: seq<Unit>, after: string, before: string, value: Layout)

  datatype Pairs =
    | LastPair(pair: Pair, after: string)
    | MorePairs(pair: Pair, after: string, before: string, rest: Pairs)

  /** White space of RFC 8259. */
  predicate Blank(s: string) {
    forall i :: 0 <= i < |s| ==> s[i] as int == 32 || s[i] as int == 9 || s[i] as int == 10 || s[i] as int == 13
  }

  predicate Good(l: Layout) {
    match l
    case ShowNumber(text) => NumberForm(text)
    case ShowString(us) => GoodUnits(us)
    case ShowEmptyList(sp) => Blank(sp)
    case ShowList(sp, items) => Blank(sp) && GoodItems(items)
    case ShowEmptyObject(sp) => Blank(sp)
    case ShowObject(sp, ms) => Blank(sp) && GoodPairs(ms)
    case _ => true
  }

  predicate GoodItems(items: Items) {
    match items
    case LastItem(v, a) => Good(v) && Blank(a)
    case MoreItems(v, a, b, rest) => Good(v) && Blank(a) && Blank(b) && GoodItems(rest)
  }

  predicate GoodPair(m: Pair) {
    GoodUnits(m.key) && Blank(m.after) && Blank(m.before) && Good(m.value)
  }

  predicate GoodPairs(ms: Pairs) {
    match ms
    case LastPair(m, a) => GoodPair(m) && Blank(a)
    case MorePairs(m, a, b, rest) => GoodPair(m) && Blank(a) && Blank(b) && GoodPairs(rest)
  }

  function ShowQuoted(us: seq<Unit>): string {
    "\"" + ShowUnits(us) + "\""
  }

  function Show(l: Layout): string {
    match l
    case ShowNull => "null"
    case ShowFalse => "false"
    case ShowTrue => "true"
    case ShowNumber(text) => text
    case ShowString(us) => ShowQuoted(us)
    case ShowEmptyList(sp) => "[" + sp + "]"
    case ShowList(sp, items) => "[" + sp + ShowItems(items)
    case ShowEmptyObject(sp) => "{" + sp + "}"
    case ShowObject(sp, ms) => "{" + sp + ShowPairs(ms)
  }

  function ShowItems(items: Items): string {
    match items
    case LastItem(v, a) => Show(v) + a + "]"
    case MoreItems(v, a, b, rest) => Show(v) + a + "," + b + ShowItems(rest)
  }

  function ShowPair(m: Pair): string {
    ShowQuoted(m.key) + m.after + ":" + m.before + Show(m.value)
  }

  function ShowPairs(ms: Pairs): string {
    match ms
    case LastPair(m, a) => ShowPair(m) + a + "}"
    case MorePairs(m, a, b, rest) => ShowPair(m) + a + "," + b + ShowPairs(rest)
  }

  /** What the units of a string mean (see `UnitsExactly`). */
  function TextOf(us: seq<Unit>): string {
    if WellEscaped(ShowUnits(us)) then Unescape(ShowUnits(us)) else ""
  }

  function Meant(l: Layout): Json {
    match l
    case ShowNull => JNull
    case ShowFalse => JFalse
    case ShowTrue => JTrue
    case ShowNumber(text) => JNumber(text)
    case ShowString(us) => JString(TextOf(us))
    case ShowEmptyList(_) => JList([])
    case ShowList(_, items) => JList(ItemsMeant(items))
    case ShowEmptyObject(_) => JObject([])
    case ShowObject(_, ms) => JObject(PairsMeant(ms))
  }

  function ItemsMeant(items: Items): seq<Json> {
    match items
    case LastItem(v, _) => [Meant(v)]
    case MoreItems(v, _, _, rest) => [Meant(v)] + ItemsMeant(rest)
  }

  function PairMeant(m: Pair): Member {
    Member(TextOf(m.key), Meant(m.value))
  }

  function PairsMeant(ms: Pairs): seq<Member> {
    match ms
    case LastPair(m, _) => [PairMeant(m)]
    case MorePairs(m, _, _, rest) => [PairMeant(m)] + PairsMeant(rest)
  }

  /** Containers nested in each other: 0 for a scalar. */
  function Depth(l: Layout): nat {
    match l
    case ShowEmptyList(_) => 1
    case ShowList(_, items) => 1 + ItemsDepth(items)
    case ShowEmptyObject(_) => 1
    case ShowObject(_, ms) => 1 + PairsDepth(ms)
    case _ => 0
  }

  function Larger(a: nat, b: nat): nat {
    if a > b then a else b
  }

  function ItemsDepth(items: Items): nat {
    match items
    case LastItem(v, _) => Depth(v)
    case MoreItems(v, _, _, rest) => Larger(Depth(v), ItemsDepth(rest))
  }

  function PairsDepth(ms: Pairs): nat {
    match ms
    case LastPair(m, _) => Depth(m.value)
    case MorePairs(m, _, _, rest) => Larger(Depth(m.value), PairsDepth(rest))
  }

  /** The reader counts two levels per container: it gives up where this fails. */
  predicate DepthFits(depth: nat, nesting: nat) {
    nesting == 0 || depth + 2 * nesting - 1 <= MAX_DEPTH
  }

  // ---------------------------------------------------------------- texts at a position

  predicate At(t: string, pos: nat, x: string) {
    pos + |x| <= |t| && t[pos..pos + |x|] == x
  }

  lemma AtSplit(t: string, pos: nat, x: string, y: string)
    ensures At(t, pos, x + y) <==> At(t, pos, x) && At(t, pos + |x|, y)
  {
    if At(t, pos, x + y) {
      assert t[pos..pos + |x|] == t[pos..pos + |x + y|][..|x|] == x;
      assert t[pos + |x|..pos + |x| + |y|] == t[pos..pos + |x + y|][|x|..] == y;
    }
    if At(t, pos, x) && At(t, pos + |x|, y) {
      assert t[pos..pos + |x + y|] == t[pos..pos + |x|] + t[pos + |x|..pos + |x| + |y|];
    }
  }

  lemma AtChar(t: string, pos: nat, x: string, i: nat)
    requires At(t, pos, x) && i < |x|
    ensures t[pos + i] == x[i]
  {
    assert t[pos..pos + |x|][i] == x[i];
  }

  lemma AtOne(t: string, pos: nat, c: char)
    ensures At(t, pos, [c]) <==> pos < |t| && t[pos] == c
  {
    if pos < |t| {
      assert t[pos..pos + 1] == [t[pos]];
    }
  }

  // ---------------------------------------------------------------- white space and strings

  lemma BlankBytes(c: char)
    ensures IsSpace(c) <==> c as int == 32 || c as int == 9 || c as int == 10 || c as int == 13
    ensures IsSpace(c) ==> c != NUL
  {
  }

  lemma BlankRest(s: string)
    requires s != ""
    ensures Blank(s) <==> IsSpace(s[0]) && Blank(s[1..])
  {
    if IsSpace(s[0]) && Blank(s[1..]) {
      assert forall i :: 1 <= i < |s| ==> s[i] == s[1..][i - 1];
    }
  }

  /** White space is skipped up to the first other byte. */
  lemma {:induction false} SkipExactly(t: string, pos: nat, p: nat)
    requires Terminated(t) && pos < |t|
    ensures SkipWs(t, pos) == p <==> pos <= p < |t| && Blank(t[pos..p]) && !IsSpace(t[p])
    decreases |t| - pos
  {
    hide IsSpace;
    BlankBytes(t[pos]);
    if pos == p {
      assert t[pos..p] == "";
    }
    if IsSpace(t[pos]) {
      assert pos + 1 < |t| by {
        BlankBytes(NUL);
      }
      SkipExactly(t, pos + 1, p);
      if pos < p < |t| {
        BlankRest(t[pos..p]);
        assert t[pos..p][1..] == t[pos + 1..p];
      }
    } else if pos < p < |t| {
      assert t[pos..p][0] == t[pos];
    }
  }

  lemma UnitOfPrefix(raw: string, n: nat)
    requires n <= |raw| && UnitLength(raw[..n]) > 0
    ensures UnitLength(raw) == UnitLength(raw[..n])
  {
  }

  lemma UnitFirst(u: Unit)
    requires GoodUnit(u)
    ensures ShowUnit(u) != "" && ShowUnit(u)[0] != '"' && ShowUnit(u)[0] != NUL
  {
  }

  /** A written unit is stepped over as a whole. */
  lemma UnitStep(t: string, pos: nat, u: Unit)
    requires Terminated(t) && At(t, pos, ShowUnit(u)) && GoodUnit(u)
    ensures pos + |ShowUnit(u)| < |t| && StringEnd(t, pos) == StringEnd(t, pos + |ShowUnit(u)|)
  {
    hide ShowUnit, UnitLength, UnitText, UnitMeans;
    var e := ShowUnit(u);
    UnitShown(u, "");
    assert e + "" == e;
    UnitFirst(u);
    hide GoodUnit;
    assert t[pos..][..|e|] == t[pos..pos + |e|] == e;
    UnitOfPrefix(t[pos..], |e|);
    AtChar(t, pos, e, 0);
    UnitStays(t, pos);
  }

  lemma {:induction false} UnitsEnd(t: string, pos: nat, us: seq<Unit>)
    requires Terminated(t) && At(t, pos, ShowUnits(us) + "\"") && GoodUnits(us)
    ensures pos < |t| && StringEnd(t, pos) == Some(pos + |ShowUnits(us)|)
    decreases |us|
  {
    hide At, GoodUnit, ShowUnit;
    AtSplit(t, pos, ShowUnits(us), "\"");
    AtOne(t, pos + |ShowUnits(us)|, '"');
    if us != [] {
      var e := ShowUnit(us[0]);
      assert ShowUnits(us) + "\"" == e + (ShowUnits(us[1..]) + "\"");
      AtSplit(t, pos, e, ShowUnits(us[1..]) + "\"");
      UnitsEnd(t, pos + |e|, us[1..]);
      hide StringEnd;
      UnitStep(t, pos, us[0]);
    }
  }

  /** A written string is read as what its units mean. */
  lemma StringShown(t: string, pos: nat, us: seq<Unit>)
    requires Terminated(t) && At(t, pos, ShowQuoted(us)) && GoodUnits(us)
    ensures pos < |t| && ParseString(t, pos) == Some((TextOf(us), pos + |ShowQuoted(us)|))
  {
    hide ShowUnits, StringEnd, Unescape, WellEscaped, GoodUnits;
    assert ShowQuoted(us) == "\"" + (ShowUnits(us) + "\"");
    AtSplit(t, pos, "\"", ShowUnits(us) + "\"");
    AtOne(t, pos, '"');
    UnitsEnd(t, pos + 1, us);
    AtSplit(t, pos + 1, ShowUnits(us), "\"");
    UnitsExactly(us, "");
    assert t[pos + 1..pos + 1 + |ShowUnits(us)|] == ShowUnits(us);
  }

  lemma {:induction false} UnitsFound(t: string, pos: nat) returns (us: seq<Unit>)
    requires Terminated(t) && pos < |t| && StringEnd(t, pos).Some?
    ensures GoodUnits(us) && At(t, pos, ShowUnits(us)) && pos + |ShowUnits(us)| == StringEnd(t, pos).value
    decreases |t| - pos
  {
    hide GoodUnit, ShowUnit, UnitLength;
    if t[pos] == '"' {
      us := [];
      assert t[pos..pos] == "";
    } else {
      UnitStays(t, pos);
      var n := UnitLength(t[pos..]);
      var u := UnitFound(t[pos..]);
      var rest := UnitsFound(t, pos + n);
      us := [u] + rest;
      assert us[1..] == rest;
      assert t[pos..][..n] == t[pos..pos + n];
      AtSplit(t, pos, ShowUnit(u), ShowUnits(rest));
    }
  }

  /** What is read as a string is a written string. */
  lemma StringFound(t: string, pos: nat) returns (us: seq<Unit>)
    requires Terminated(t) && pos < |t| && ParseString(t, pos).Some?
    ensures GoodUnits(us) && At(t, pos, ShowQuoted(us))
    ensures ParseString(t, pos) == Some((TextOf(us), pos + |ShowQuoted(us)|))
  {
    hide GoodUnits, ShowUnits, StringEnd, Unescape, WellEscaped;
    us := UnitsFound(t, pos + 1);
    var text := ShowUnits(us);
    AtOne(t, pos, '"');
    AtOne(t, pos + 1 + |text|, '"');
    AtSplit(t, pos + 1, text, "\"");
    AtSplit(t, pos, "\"", text + "\"");
    assert ShowQuoted(us) == "\"" + (text + "\"");
    StringShown(t, pos, us);
  }

  // ---------------------------------------------------------------- written values are read

  /** A value starts with a byte of its own. */
  lemma ShowFirst(l: Layout)
    requires Good(l)
    ensures Show(l) != "" && !IsSpace(Show(l)[0]) && Show(l)[0] != ']' && Show(l)[0] != '}' && Show(l)[0] != NUL
  {
    hide ShowUnits, ShowItems, ShowPairs, FractionForm, GoodUnits, GoodItems, GoodPairs, Blank;
    assert l.ShowNumber? ==> l.text[0] == '-' || IsNum(l.text[0]);
  }

  /** White space, and the byte behind it. */
  lemma SkipTo(t: string, pos: nat, sp: string, c: char)
    requires Terminated(t) && At(t, pos, sp + [c]) && Blank(sp) && !IsSpace(c)
    ensures pos < |t| && SkipWs(t, pos) == pos + |sp| && t[pos + |sp|] == c
  {
    hide IsSpace;
    AtSplit(t, pos, sp, [c]);
    AtOne(t, pos + |sp|, c);
    SkipExactly(t, pos, pos + |sp|);
  }

  predicate Ends(l: Layout, t: string, p: nat) {
    p < |t| && (l.ShowNumber? ==> !NumberByte(t[p]))
  }

  lemma ScalarShown(l: Layout, t: string, pos: nat, depth: nat)
    requires Terminated(t) && At(t, pos, Show(l)) && Good(l) && Ends(l, t, pos + |Show(l)|)
    requires l.ShowNull? || l.ShowFalse? || l.ShowTrue? || l.ShowNumber? || l.ShowString?
    ensures ParseValue(t, pos, depth) == Some((Meant(l), pos + |Show(l)|))
  {
    hide ParseList, ParseObject, NumberEnd, ParseString, NumberByte, FractionForm;
    ShowFirst(l);
    AtChar(t, pos, Show(l), 0);
    if l.ShowNumber? {
      assert l.text[0] == '-' || IsNum(l.text[0]);
      NumberExactly(t, pos, pos + |l.text|);
    } else if l.ShowString? {
      StringShown(t, pos, l.units);
      assert t[pos] == '"';
    }
  }

  /** White space and a part behind an opening bracket. */
  lemma OpenAt(t: string, pos: nat, open: char, sp: string, inner: string)
    requires Terminated(t) && At(t, pos, [open] + sp + inner) && Blank(sp) && inner != "" && !IsSpace(inner[0])
    ensures var q := pos + 1 + |sp|;
            pos + 1 < q + |inner| <= |t| && t[pos] == open && SkipWs(t, pos + 1) == q && t[q] == inner[0]
            && At(t, q, inner)
  {
    hide IsSpace, Blank, SkipWs;
    assert [open] + sp + inner == [open] + (sp + inner);
    AtSplit(t, pos, [open], sp + inner);
    AtOne(t, pos, open);
    AtSplit(t, pos + 1, sp, inner);
    AtFirst(t, pos + 1, sp, inner);
    SkipTo(t, pos + 1, sp, inner[0]);
  }

  lemma AtFirst(t: string, pos: nat, sp: string, inner: string)
    requires At(t, pos, sp + inner) && inner != ""
    ensures At(t, pos, sp + [inner[0]])
  {
    assert sp + inner == (sp + [inner[0]]) + inner[1..];
    AtSplit(t, pos, sp + [inner[0]], inner[1..]);
  }

  lemma ItemsFirst(items: Items)
    requires GoodItems(items)
    ensures ShowItems(items) != "" && !IsSpace(ShowItems(items)[0]) && ShowItems(items)[0] != ']'
  {
    hide Show, Good, IsSpace;
    ShowFirst(items.value);
  }

  lemma PairsFirst(ms: Pairs)
    requires GoodPairs(ms)
    ensures ShowPairs(ms) != "" && ShowPairs(ms)[0] == '"'
  {
    hide Show, Good, ShowUnits;
    assert ShowPair(ms.pair)[0] == '"';
  }

  /** Reading a value, and one with an empty container. */
  function Outcome<T>(v: T, depth: nat, nesting: nat, p: nat): Option<(T, nat)> {
    if DepthFits(depth, nesting) then Some((v, p)) else None
  }

  lemma EmptyShown(l: Layout, t: string, pos: nat, depth: nat)
    requires Terminated(t) && At(t, pos, Show(l)) && Good(l) && (l.ShowEmptyList? || l.ShowEmptyObject?)
    ensures pos < |t| && ParseValue(t, pos, depth) == Outcome(Meant(l), depth, 1, pos + |Show(l)|)
  {
    hide ParseItems, ParseMembers, SkipWs;
    OpenAt(t, pos, if l.ShowEmptyList? then '[' else '{', l.space, if l.ShowEmptyList? then "]" else "}");
  }

  lemma {:induction false} ValueShown(l: Layout, t: string, pos: nat, depth: nat)
    requires Terminated(t) && At(t, pos, Show(l)) && Good(l) && Ends(l, t, pos + |Show(l)|)
    ensures ParseValue(t, pos, depth) == Outcome(Meant(l), depth, Depth(l), pos + |Show(l)|)
    decreases l, 2
  {
    hide At, Show, Meant, Good, ParseValue, Ends, Terminated;
    if l.ShowList? {
      ListShown(l, t, pos, depth);
    } else if l.ShowObject? {
      ObjectShown(l, t, pos, depth);
    } else if l.ShowEmptyList? || l.ShowEmptyObject? {
      EmptyShown(l, t, pos, depth);
    } else {
      ScalarShown(l, t, pos, depth);
    }
  }

  lemma {:induction false} ListShown(l: Layout, t: string, pos: nat, depth: nat)
    requires Terminated(t) && At(t, pos, Show(l)) && Good(l) && l.ShowList?
    ensures pos < |t| && ParseValue(t, pos, depth) == Outcome(Meant(l), depth, Depth(l), pos + |Show(l)|)
    decreases l, 1
  {
    hide ParseItems, SkipWs, At, ShowItems, IsSpace, ItemsMeant, ItemsDepth, GoodItems, Blank;
    ItemsFirst(l.items);
    OpenAt(t, pos, '[', l.space, ShowItems(l.items));
    ItemsShown(l.items, t, pos + 1 + |l.space|, depth + 1);
  }

  lemma {:induction false} ObjectShown(l: Layout, t: string, pos: nat, depth: nat)
    requires Terminated(t) && At(t, pos, Show(l)) && Good(l) && l.ShowObject?
    ensures pos < |t| && ParseValue(t, pos, depth) == Outcome(Meant(l), depth, Depth(l), pos + |Show(l)|)
    decreases l, 1
  {
    hide ParseMembers, SkipWs, At, ShowPairs, IsSpace, PairsMeant, PairsDepth, GoodPairs, Blank;
    PairsFirst(l.members);
    QuoteNoSpace();
    OpenAt(t, pos, '{', l.space, ShowPairs(l.members));
    PairsShown(l.members, t, pos + 1 + |l.space|, depth + 1);
  }

  lemma QuoteNoSpace()
    ensures !IsSpace('"') && !IsSpace(',') && !IsSpace(':') && !IsSpace(']') && !IsSpace('}')
    ensures !NumberByte(',') && !NumberByte(']') && !NumberByte('}')
  {
  }

  /** A part, white space, and a delimiter behind it. */
  lemma PartAt(t: string, pos: nat, x: string, sp: string, c: char, rest: string)
    requires Terminated(t) && At(t, pos, x + sp + [c] + rest) && Blank(sp) && !IsSpace(c) && !NumberByte(c)
    ensures var p := pos + |x|;
            && At(t, pos, x) && p < |t| && !NumberByte(t[p]) && SkipWs(t, p) == p + |sp| && p + |sp| < |t|
            && t[p + |sp|] == c && At(t, p + |sp| + 1, rest)
  {
    hide IsSpace, SkipWs, NumberByte, Blank, At;
    var end := sp + [c];
    assert x + sp + [c] + rest == x + (end + rest);
    AtSplit(t, pos, x, end + rest);
    AtSplit(t, pos + |x|, end, rest);
    SkipTo(t, pos + |x|, sp, c);
    AtChar(t, pos + |x|, end, 0);
    EndByte(sp, c);
  }

  lemma EndByte(sp: string, c: char)
    requires Blank(sp) && !NumberByte(c)
    ensures !NumberByte((sp + [c])[0])
  {
    if sp != "" {
      BlankNoNumber(sp[0]);
    }
  }

  lemma BlankNoNumber(c: char)
    requires c as int == 32 || c as int == 9 || c as int == 10 || c as int == 13
    ensures !NumberByte(c)
  {
  }

  /** White space in front of a part. */
  lemma BeforeAt(t: string, pos: nat, sp: string, inner: string)
    requires Terminated(t) && At(t, pos, sp + inner) && Blank(sp) && inner != "" && !IsSpace(inner[0])
    ensures pos < |t| && SkipWs(t, pos) == pos + |sp| && At(t, pos + |sp|, inner)
  {
    hide IsSpace, SkipWs, Blank;
    AtSplit(t, pos, sp, inner);
    AtFirst(t, pos, sp, inner);
    SkipTo(t, pos, sp, inner[0]);
  }

  lemma {:induction false} ItemsShown(items: Items, t: string, pos: nat, depth: nat)
    requires Terminated(t) && At(t, pos, ShowItems(items)) && GoodItems(items)
    ensures pos < |t|
    ensures ParseItems(t, pos, depth) ==
            Outcome(ItemsMeant(items), depth + 1, ItemsDepth(items), pos + |ShowItems(items)|)
    decreases items, 0
  {
    hide ParseValue, Show, At, SkipWs, Blank, IsSpace, NumberByte, Meant, Good;
    QuoteNoSpace();
    var v, p := items.value, pos + |Show(items.value)|;
    match items {
      case LastItem(_, a) =>
        assert Show(v) + a + "]" + "" == ShowItems(items);
        PartAt(t, pos, Show(v), a, ']', "");
        ValueShown(v, t, pos, depth + 1);
      case MoreItems(_, a, b, rest) =>
        ItemsFirst(rest);
        assert Show(v) + a + "," + (b + ShowItems(rest)) == ShowItems(items);
        PartAt(t, pos, Show(v), a, ',', b + ShowItems(rest));
        ValueShown(v, t, pos, depth + 1);
        BeforeAt(t, p + |a| + 1, b, ShowItems(rest));
        ItemsShown(rest, t, p + |a| + 1 + |b|, depth);
    }
  }

  /** Where the parts of a written member stand. */
  lemma PairAt(m: Pair, t: string, pos: nat)
    requires Terminated(t) && At(t, pos, ShowPair(m)) && GoodPair(m)
    ensures var q := pos + |ShowQuoted(m.key)| + |m.after|;
            && At(t, pos, ShowQuoted(m.key)) && q + 1 < |t| && SkipWs(t, pos + |ShowQuoted(m.key)|) == q && t[q] == ':'
            && SkipWs(t, q + 1) == q + 1 + |m.before| && At(t, q + 1 + |m.before|, Show(m.value))
            && |ShowPair(m)| == |ShowQuoted(m.key)| + |m.after| + 1 + |m.before| + |Show(m.value)|
  {
    hide Show, ShowQuoted, At, SkipWs, Blank, IsSpace, NumberByte, Good, GoodUnits;
    ColonBytes();
    var key, value := ShowQuoted(m.key), Show(m.value);
    assert key + m.after + ":" + (m.before + value) == ShowPair(m);
    PartAt(t, pos, key, m.after, ':', m.before + value);
    ShowFirst(m.value);
    BeforeAt(t, pos + |key| + |m.after| + 1, m.before, value);
  }

  lemma {:induction false} PairShown(m: Pair, t: string, pos: nat, depth: nat)
    requires Terminated(t) && At(t, pos, ShowPair(m)) && GoodPair(m) && Ends(m.value, t, pos + |ShowPair(m)|)
    ensures pos < |t|
    ensures ParseMember(t, pos, depth) ==
            Outcome(PairMeant(m), depth + 1, Depth(m.value), pos + |ShowPair(m)|)
    decreases m, 0
  {
    hide ParseValue, ParseString, Show, ShowQuoted, ShowPair, At, SkipWs, Blank, NumberByte, Meant, Good, GoodUnits,
         TextOf;
    PairAt(m, t, pos);
    StringShown(t, pos, m.key);
    ValueShown(m.value, t, pos + |ShowQuoted(m.key)| + |m.after| + 1 + |m.before|, depth + 1);
  }

  lemma ColonBytes()
    ensures !IsSpace(':') && !NumberByte(':')
  {
  }

  lemma {:induction false} PairsShown(ms: Pairs, t: string, pos: nat, depth: nat)
    requires Terminated(t) && At(t, pos, ShowPairs(ms)) && GoodPairs(ms)
    ensures pos < |t|
    ensures ParseMembers(t, pos, depth) ==
            Outcome(PairsMeant(ms), depth + 1, PairsDepth(ms), pos + |ShowPairs(ms)|)
    decreases ms, 0
  {
    hide ParseMember, ShowPair, At, SkipWs, Blank, IsSpace, NumberByte, PairMeant, GoodPair;
    QuoteNoSpace();
    var m, p := ms.pair, pos + |ShowPair(ms.pair)|;
    match ms {
      case LastPair(_, a) =>
        assert ShowPair(m) + a + "}" + "" == ShowPairs(ms);
        PartAt(t, pos, ShowPair(m), a, '}', "");
        PairShown(m, t, pos, depth);
      case MorePairs(_, a, b, rest) =>
        PairsFirst(rest);
        assert ShowPair(m) + a + "," + (b + ShowPairs(rest)) == ShowPairs(ms);
        PartAt(t, pos, ShowPair(m), a, ',', b + ShowPairs(rest));
        PairShown(m, t, pos, depth);
        BeforeAt(t, p + |a| + 1, b, ShowPairs(rest));
        PairsShown(rest, t, p + |a| + 1 + |b|, depth);
    }
  }

  // ---------------------------------------------------------------- what is read was written

  /** The white space that is skipped. */
  lemma SpaceFound(t: string, pos: nat) returns (sp: string)
    requires Terminated(t) && pos < |t|
    ensures Blank(sp) && At(t, pos, sp) && SkipWs(t, pos) == pos + |sp| && pos + |sp| < |t|
  {
    hide IsSpace, SkipWs;
    SkipExactly(t, pos, SkipWs(t, pos));
    sp := t[pos..SkipWs(t, pos)];
  }

  lemma NumberFound(t: string, pos: nat, depth: nat) returns (l: Layout)
    requires Terminated(t) && pos < |t| && NumberEnd(t, pos, Minus).Some?
    ensures Good(l) && At(t, pos, Show(l)) && Ends(l, t, pos + |Show(l)|)
  {
    hide NumberEnd, NumberForm, NumberByte;
    var p := NumberEnd(t, pos, Minus).value;
    NumberExactly(t, pos, p);
    l := ShowNumber(t[pos..p]);
  }

  lemma WordFound(t: string, pos: nat, word: string)
    requires LiteralAt(t, pos, word)
    ensures At(t, pos, word)
  {
  }

  /** The parts of an opened container, put together. */
  lemma Opened(t: string, pos: nat, open: char, sp: string, inner: string)
    requires pos < |t| && t[pos] == open && At(t, pos + 1, sp) && At(t, pos + 1 + |sp|, inner)
    ensures At(t, pos, [open] + sp + inner)
  {
    hide At;
    AtOne(t, pos, open);
    AtSplit(t, pos, [open], sp);
    AtSplit(t, pos, [open] + sp, inner);
  }

  lemma ValueFound(t: string, pos: nat, depth: nat) returns (l: Layout)
    requires Terminated(t) && pos < |t| && ParseValue(t, pos, depth).Some?
    ensures Good(l) && At(t, pos, Show(l)) && Ends(l, t, pos + |Show(l)|)
    decreases |t| - pos, 1
  {
    hide At, NumberEnd, ParseString, NumberByte, SkipWs, ParseItems, ParseMembers, ShowItems, ShowPairs, Blank,
         GoodItems, GoodPairs;
    if t[pos] == '[' {
      l := ListFound(t, pos, depth + 1);
    } else if t[pos] == '{' {
      l := ObjectFound(t, pos, depth + 1);
    } else if t[pos] == '"' {
      var us := StringFound(t, pos);
      l := ShowString(us);
      ScalarEnds(t, pos, l, depth);
    } else if t[pos] == 't' {
      l := ShowTrue;
      WordFound(t, pos, "true");
    } else if t[pos] == 'f' {
      l := ShowFalse;
      WordFound(t, pos, "false");
    } else if t[pos] == 'n' {
      l := ShowNull;
      WordFound(t, pos, "null");
    } else {
      l := NumberFound(t, pos, depth);
    }
  }

  lemma ScalarEnds(t: string, pos: nat, l: Layout, depth: nat)
    requires Terminated(t) && l.ShowString? && At(t, pos, Show(l))
    ensures pos + |Show(l)| < |t|
  {
    AtChar(t, pos, Show(l), |Show(l)| - 1);
  }

  lemma ListFound(t: string, pos: nat, depth: nat) returns (l: Layout)
    requires Terminated(t) && pos < |t| && t[pos] == '[' && ParseList(t, pos, depth).Some?
    ensures Good(l) && At(t, pos, Show(l)) && Ends(l, t, pos + |Show(l)|)
    decreases |t| - pos, 0
  {
    hide At, SkipWs, ParseItems, ShowItems, Blank, GoodItems, NumberByte;
    var sp := SpaceFound(t, pos + 1);
    var q := pos + 1 + |sp|;
    if t[q] == ']' {
      l := ShowEmptyList(sp);
      AtOne(t, q, ']');
      Opened(t, pos, '[', sp, "]");
      AtChar(t, q, "]", 0);
    } else {
      var items := ItemsFound(t, q, depth);
      l := ShowList(sp, items);
      Opened(t, pos, '[', sp, ShowItems(items));
    }
  }

  lemma ObjectFound(t: string, pos: nat, depth: nat) returns (l: Layout)
    requires Terminated(t) && pos < |t| && t[pos] == '{' && ParseObject(t, pos, depth).Some?
    ensures Good(l) && At(t, pos, Show(l)) && Ends(l, t, pos + |Show(l)|)
    decreases |t| - pos, 0
  {
    hide At, SkipWs, ParseMembers, ShowPairs, Blank, GoodPairs, NumberByte;
    var sp := SpaceFound(t, pos + 1);
    var q := pos + 1 + |sp|;
    if t[q] == '}' {
      l := ShowEmptyObject(sp);
      AtOne(t, q, '}');
      Opened(t, pos, '{', sp, "}");
      AtChar(t, q, "}", 0);
    } else {
      var ms := PairsFound(t, q, depth);
      l := ShowObject(sp, ms);
      Opened(t, pos, '{', sp, ShowPairs(ms));
    }
  }

  /** A part, white space, a delimiter and the rest, put together. */
  lemma Joined(t: string, pos: nat, x: string, sp: string, c: char, rest: string)
    requires At(t, pos, x) && At(t, pos + |x|, sp) && pos + |x| + |sp| < |t| && t[pos + |x| + |sp|] == c
    requires At(t, pos + |x| + |sp| + 1, rest)
    ensures At(t, pos, x + sp + [c] + rest)
  {
    hide At;
    AtOne(t, pos + |x| + |sp|, c);
    AtSplit(t, pos, x, sp);
    AtSplit(t, pos, x + sp, [c]);
    AtSplit(t, pos, x + sp + [c], rest);
  }

  lemma NothingAt(t: string, pos: nat)
    requires pos <= |t|
    ensures At(t, pos, "")
  {
  }

  lemma ItemsFound(t: string, pos: nat, depth: nat) returns (items: Items)
    requires Terminated(t) && pos < |t| && ParseItems(t, pos, depth).Some?
    ensures GoodItems(items) && At(t, pos, ShowItems(items)) && pos + |ShowItems(items)| < |t|
    decreases |t| - pos, 2
  {
    hide At, SkipWs, ParseValue, Show, Blank, Good, NumberByte, Meant;
    var v := ValueFound(t, pos, depth + 1);
    ValueShown(v, t, pos, depth + 1);
    var p := pos + |Show(v)|;
    var a := SpaceFound(t, p);
    var q := p + |a|;
    if t[q] == ']' {
      items := LastItem(v, a);
      NothingAt(t, q + 1);
      Joined(t, pos, Show(v), a, ']', "");
      assert Show(v) + a + "]" + "" == ShowItems(items);
    } else {
      var b := SpaceFound(t, q + 1);
      var rest := ItemsFound(t, q + 1 + |b|, depth);
      items := MoreItems(v, a, b, rest);
      AtSplit(t, q + 1, b, ShowItems(rest));
      Joined(t, pos, Show(v), a, ',', b + ShowItems(rest));
      assert Show(v) + a + "," + (b + ShowItems(rest)) == ShowItems(items);
    }
  }

  lemma PairJoined(t: string, pos: nat, m: Pair)
    requires var k, q := pos + |ShowQuoted(m.key)|, pos + |ShowQuoted(m.key)| + |m.after|;
             && At(t, pos, ShowQuoted(m.key)) && At(t, k, m.after) && q < |t| && t[q] == ':'
             && At(t, q + 1, m.before) && At(t, q + 1 + |m.before|, Show(m.value))
    ensures At(t, pos, ShowPair(m))
    ensures |ShowPair(m)| == |ShowQuoted(m.key)| + |m.after| + 1 + |m.before| + |Show(m.value)|
  {
    hide At, Show, ShowQuoted;
    var key, value := ShowQuoted(m.key), Show(m.value);
    AtSplit(t, pos + |key| + |m.after| + 1, m.before, value);
    Joined(t, pos, key, m.after, ':', m.before + value);
    assert key + m.after + ":" + (m.before + value) == ShowPair(m);
  }

  /** Where the parts of a member stand that has been read. */
  lemma MemberParts(t: string, pos: nat, depth: nat)
    requires Terminated(t) && pos < |t| && ParseMember(t, pos, depth).Some?
    ensures ParseString(t, pos).Some?
    ensures var q := SkipWs(t, ParseString(t, pos).value.1);
            && t[q] == ':' && q + 1 < |t| && ParseValue(t, SkipWs(t, q + 1), depth + 1).Some?
  {
    hide ParseString, SkipWs, ParseValue;
  }

  lemma PairFound(t: string, pos: nat, depth: nat) returns (m: Pair)
    requires Terminated(t) && pos < |t| && ParseMember(t, pos, depth).Some?
    ensures GoodPair(m) && At(t, pos, ShowPair(m)) && Ends(m.value, t, pos + |ShowPair(m)|)
    decreases |t| - pos, 2
  {
    hide At, SkipWs, ParseMember, ParseValue, ParseString, Show, ShowQuoted, ShowPair, Blank, Good, GoodUnits,
         NumberByte, Ends, TextOf;
    MemberParts(t, pos, depth);
    var us := StringFound(t, pos);
    var a := SpaceFound(t, pos + |ShowQuoted(us)|);
    var q := pos + |ShowQuoted(us)| + |a|;
    var b := SpaceFound(t, q + 1);
    var v := ValueFound(t, q + 1 + |b|, depth + 1);
    m := Pair(us, a, b, v);
    PairJoined(t, pos, m);
  }

  lemma PairsFound(t: string, pos: nat, depth: nat) returns (ms: Pairs)
    requires Terminated(t) && pos < |t| && ParseMembers(t, pos, depth).Some?
    ensures GoodPairs(ms) && At(t, pos, ShowPairs(ms)) && pos + |ShowPairs(ms)| < |t|
    decreases |t| - pos, 3
  {
    hide At, SkipWs, ParseMember, ShowPair, Blank, GoodPair, NumberByte, PairMeant;
    var m := PairFound(t, pos, depth);
    PairShown(m, t, pos, depth);
    var p := pos + |ShowPair(m)|;
    var a := SpaceFound(t, p);
    var q := p + |a|;
    if t[q] == '}' {
      ms := LastPair(m, a);
      NothingAt(t, q + 1);
      Joined(t, pos, ShowPair(m), a, '}', "");
      assert ShowPair(m) + a + "}" + "" == ShowPairs(ms);
    } else {
      var b := SpaceFound(t, q + 1);
      var rest := PairsFound(t, q + 1 + |b|, depth);
      ms := MorePairs(m, a, b, rest);
      AtSplit(t, q + 1, b, ShowPairs(rest));
      Joined(t, pos, ShowPair(m), a, ',', b + ShowPairs(rest));
      assert ShowPair(m) + a + "," + (b + ShowPairs(rest)) == ShowPairs(ms);
    }
  }

  // ---------------------------------------------------------------- whole texts

  /** The text `s` is a way to write `l`, with white space around it.  The reader works on a text that
      ends in a NUL byte and takes any NUL byte for that end. */
  predicate Writes(s: string, front: string, l: Layout, back: string, junk: string) {
    && s == front + Show(l) + back + junk && Blank(front) && Good(l) && Blank(back)
    && (junk == "" || junk[0] == NUL)
  }

  lemma NulJoins(front: string, x: string, back: string, junk: string)
    requires x != "" && (junk == "" || junk[0] == NUL)
    ensures var inner := x + back + [NUL] + (junk + [NUL])[1..];
            At(front + x + back + junk + [NUL], 0, front + inner) && inner[0] == x[0]
  {
    var rest := junk + [NUL];
    assert [NUL] + rest[1..] == rest;
    var t := front + x + back + junk + [NUL];
    assert t == front + (x + back + [NUL] + rest[1..]);
    assert t[0..|t|] == t;
  }

  /** Where the parts of a written text stand in the reader's copy of it. */
  lemma PartsOf(s: string, front: string, l: Layout, back: string, junk: string)
    requires Writes(s, front, l, back, junk)
    ensures var t, p := s + [NUL], |front| + |Show(l)|;
            && SkipWs(t, 0) == |front| && At(t, |front|, Show(l)) && Ends(l, t, p)
            && SkipWs(t, p) == p + |back| && p + |back| < |t| && t[p + |back|] == NUL
  {
    hide SkipWs, Show, IsSpace, Blank, NumberByte, Good, At;
    NulByte();
    var t := s + [NUL];
    var rest := (junk + [NUL])[1..];
    ShowFirst(l);
    NulJoins(front, Show(l), back, junk);
    var inner := Show(l) + back + [NUL] + rest;
    BeforeAt(t, 0, front, inner);
    PartAt(t, |front|, Show(l), back, NUL, rest);
  }

  /** A text that writes a value is read as that value if its nesting fits, and is refused if not. */
  lemma TextShown(s: string, front: string, l: Layout, back: string, junk: string)
    requires Writes(s, front, l, back, junk)
    ensures ParseText(s) == if Depth(l) <= 5000 then Some(Meant(l)) else None
  {
    hide SkipWs, ParseValue, Show, Meant, Depth, At, Ends, Blank, Good;
    PartsOf(s, front, l, back, junk);
    ValueShown(l, s + [NUL], |front|, 0);
  }

  lemma NulByte()
    ensures !IsSpace(NUL) && !NumberByte(NUL)
  {
  }

  lemma TextFound(s: string) returns (front: string, l: Layout, back: string, junk: string)
    requires ParseText(s).Some?
    ensures Writes(s, front, l, back, junk)
  {
    hide SkipWs, ParseValue, Show, Meant, Depth, IsSpace, Blank, NumberByte, Good;
    var t := s + [NUL];
    front := SpaceFound(t, 0);
    l := ValueFound(t, |front|, 0);
    ValueShown(l, t, |front|, 0);
    var p := |front| + |Show(l)|;
    back := SpaceFound(t, p);
    var q := p + |back|;
    assert t[..q] == t[0..|front|] + t[|front|..p] + t[p..q];
    junk := s[q..];
    assert s == t[..|s|] && t[..q] == s[..q] && s == s[..q] + junk;
    assert junk != "" ==> junk[0] == t[q];
  }

  /** For every text and every value: the reader returns the value if and only if the text writes it, with
      at most 5000 containers nested in each other. */
  lemma TextExactly(s: string, j: Json)
    ensures ParseText(s) == Some(j) <==>
            exists front, l, back, junk :: Writes(s, front, l, back, junk) && Meant(l) == j && Depth(l) <= 5000
  {
    hide ParseText, Writes, Meant, Depth;
    if ParseText(s) == Some(j) {
      var front, l, back, junk := TextFound(s);
      TextShown(s, front, l, back, junk);
    }
    if exists front, l, back, junk :: Writes(s, front, l, back, junk) && Meant(l) == j && Depth(l) <= 5000 {
      var front, l, back, junk :| Writes(s, front, l, back, junk) && Meant(l) == j && Depth(l) <= 5000;
      TextShown(s, front, l, back, junk);
    }
  }
}
