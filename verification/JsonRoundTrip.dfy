/** Loading a text, reading the tree of views back into a value, and the whole way round. */
module JsonRoundTrip {
  import opened Basics
  import opened JsonText
  import opened JsonGrammar
  import opened JsonReader
  import opened JsonParser
  import opened JsonDump

  /** `load`: parse a private copy of the text. */
  method Load(s: string) returns (buffer: array<char>, r: RValue)
    requires |s| < 0x4000_0000
    ensures fresh(buffer) && buffer.Length == |s| + 1
    ensures match ParseText(s)
            case None => r.RError?
            case Some(j) => !r.RError? && Denotes(buffer[..], r, j, 0, buffer.Length)
  {
    hide ParseValue, SkipWs, Denotes;
    ghost var t := s + [NUL];
    buffer := new char[|s| + 1](i requires 0 <= i < |s| + 1 => if i < |s| then s[i] else NUL);
    var parser := new Parser(buffer, t);
    parser.WsSkip();
    ghost var from := parser.data;
    r := parser.DecodeValue(0);
    if !r.RError? {
      ghost var j, p := ParseValue(t, from, 0).value.0, parser.data;
      parser.WsSkip();
      DenotesWider(buffer[..], r, j, from, p, 0, buffer.Length);
      if buffer[parser.data] != NUL {
        r := RError;
      }
    }
  }

  // ---------------------------------------------------------------- back to a value

  /** The value that `wvalue` takes from what was read; None if a number is out of range or has a
      fraction or an exponent. */
  function WOf(j: Json): Option<WValue>
    decreases j, 0
  {
    match j
    case JNull => Some(WNull)
    case JFalse => Some(WFalse)
    case JTrue => Some(WTrue)
    case JNumber(text) => NumberOf(text)
    case JString(text) => Some(WString(text))
    case JList(items) =>
      (match WItems(items) case None => None case Some(ws) => Some(WList(ws)))
    case JObject(members) =>
      match WMembers(members) case None => None case Some(ws) => Some(WObject(ws))
  }

  /** `determine_num_type` and the conversions of `i` and `u`. */
  function NumberOf(text: string): Option<WValue> {
    if '.' in text || 'e' in text || 'E' in text then None
    else
      var n := IntegerOf(text);
      if '-' in text then
        if -0x8000_0000_0000_0000 <= n <= 0x7FFF_FFFF_FFFF_FFFF then Some(WSigned(n)) else None
      else if 0 <= n < 0x1_0000_0000_0000_0000 then Some(WUnsigned(n)) else None
  }

  function WItems(js: seq<Json>): Option<seq<WValue>>
    decreases js
  {
    if js == [] then Some([])
    else
      match WItems(js[..|js| - 1])
      case None => None
      case Some(ws) => match WOf(js[|js| - 1]) case None => None case Some(w) => Some(ws + [w])
  }

  function WMembers(ms: seq<Member>): Option<seq<WMember>>
    decreases ms
  {
    if ms == [] then Some([])
    else
      match WMembers(ms[..|ms| - 1])
      case None => None
      case Some(ws) => match WOf(ms[|ms| - 1].value) case None => None
           case Some(w) => Some(ws + [WMember(ms[|ms| - 1].key, w)])
  }

  /** Where the items of a list begin and end. */
  lemma {:induction false} ItemsCuts(b: string, rs: seq<RValue>, js: seq<Json>, lo: nat, hi: nat)
    returns (cuts: seq<nat>)
    requires DenotesItems(b, rs, js, lo, hi)
    ensures |cuts| == |rs| + 1 == |js| + 1 && cuts[0] == lo && cuts[|rs|] <= hi <= |b|
    ensures forall i :: 0 <= i < |rs| ==> cuts[i] <= cuts[i + 1] && Denotes(b, rs[i], js[i], cuts[i], cuts[i + 1])
    decreases rs
  {
    if rs == [] {
      cuts := [lo];
    } else {
      var k := |rs| - 1;
      var m: nat :| DenotesItems(b, rs[..k], js[..k], lo, m) && Denotes(b, rs[k], js[k], m, hi);
      var front := ItemsCuts(b, rs[..k], js[..k], lo, m);
      DenotesWider(b, rs[k], js[k], m, hi, front[k], hi);
      cuts := front + [hi];
    }
  }

  /** Read a value out of its views, unescaping strings in place on the way; what is left of the
      views still stands for the same value, and no byte outside them has changed. */
  method FromRead(buffer: array<char>, r: RValue, ghost j: Json, ghost lo: nat, ghost hi: nat)
    returns (w: Option<WValue>, r': RValue)
    requires Denotes(buffer[..], r, j, lo, hi)
    modifies buffer
    ensures w == WOf(j)
    ensures w.Some? ==> Denotes(buffer[..], r', j, lo, hi)
    ensures forall i :: 0 <= i < lo || hi <= i < buffer.Length ==> buffer[i] == old(buffer[i])
    decreases r, 1
  {
    hide WellEscaped, Unescape, NumberOf, DenotesItems, DenotesMembers, WItems, WMembers;
    r' := r;
    match r
    case RNull => w := Some(WNull);
    case RFalse => w := Some(WFalse);
    case RTrue => w := Some(WTrue);
    case RNumber(start, end) =>
      assert buffer[start..end] == buffer[..][start..end];
      w := NumberOf(buffer[start..end]);
    case RString(start, end) =>
      assert buffer[start..end] == buffer[..][start..end];
      var end' := UnescapeView(buffer, start, end);
      assert buffer[start..end'] == buffer[..][start..end'];
      r' := RString(start, end');
      w := Some(WString(buffer[start..end']));
    case RList(items) =>
      var ws, rs := ItemsFromRead(buffer, items, j.items, lo, hi);
      if ws.None? {
        w := None;
      } else {
        w, r' := Some(WList(ws.value)), RList(rs);
      }
    case RObject(members) =>
      var ws, rs := MembersFromRead(buffer, members, j.members, lo, hi);
      if ws.None? {
        w := None;
      } else {
        w, r' := Some(WObject(ws.value)), RObject(rs);
      }
  }

  lemma {:induction false} ItemsFail(js: seq<Json>, i: nat)
    requires i < |js| && WOf(js[i]).None?
    ensures WItems(js).None?
    decreases |js|
  {
    hide WOf;
    if i < |js| - 1 {
      ItemsFail(js[..|js| - 1], i);
    }
  }

  lemma WItemsSnoc(js: seq<Json>, i: nat)
    requires i < |js|
    ensures WItems(js[..i + 1]) ==
            match WItems(js[..i]) {
              case None => None
              case Some(ws) => match WOf(js[i]) { case None => None case Some(w) => Some(ws + [w]) }
            }
  {
    hide WOf;
    assert js[..i + 1][..i] == js[..i];
  }

  /** An item that has not been read yet is untouched by the reading of the items before it. */
  lemma ItemUntouched(b: string, b': string, r: RValue, j: Json, lo: nat, hi: nat)
    requires Denotes(b, r, j, lo, hi) && |b| == |b'| && forall x :: lo <= x < |b| ==> b'[x] == b[x]
    ensures Denotes(b', r, j, lo, hi)
  {
    hide Denotes;
    ValueBounds(b, r, j, lo, hi);
    assert b[lo..hi] == b'[lo..hi];
    DenotesKept(b, b', r, j, lo, hi);
  }

  method ItemsFromRead(buffer: array<char>, rs: seq<RValue>, ghost js: seq<Json>, ghost lo: nat, ghost hi: nat)
    returns (ws: Option<seq<WValue>>, rs': seq<RValue>)
    requires DenotesItems(buffer[..], rs, js, lo, hi)
    modifies buffer
    ensures ws == WItems(js)
    ensures ws.Some? ==> DenotesItems(buffer[..], rs', js, lo, hi)
    ensures forall i :: 0 <= i < lo || hi <= i < buffer.Length ==> buffer[i] == old(buffer[i])
    decreases rs
  {
    hide Denotes, DenotesItems, WOf, WItems;
    ghost var b0 := buffer[..];
    ghost var cuts := ItemsCuts(b0, rs, js, lo, hi);
    CutsGrow(cuts);
    var done: seq<WValue> := [];
    rs' := [];
    EmptyItems(b0, lo, lo);
    NoItems();
    assert js[..0] == [];
    var i := 0;
    while i < |rs|
      invariant i <= |rs| && |rs'| == i && WItems(js[..i]) == Some(done)
      invariant forall x :: 0 <= x < lo || cuts[i] <= x < buffer.Length ==> buffer[x] == b0[x]
      invariant DenotesItems(buffer[..], rs', js[..i], lo, cuts[i])
    {
      ghost var b := buffer[..];
      ItemUntouched(b0, b, rs[i], js[i], cuts[i], cuts[i + 1]);
      WItemsSnoc(js, i);
      var w, r := FromRead(buffer, rs[i], js[i], cuts[i], cuts[i + 1]);
      if w.None? {
        ItemsFail(js, i);
        return None, [];
      }
      assert js[..i + 1][..i] == js[..i];
      AppendItem(b, buffer[..], rs', js[..i + 1], lo, cuts[i], cuts[i + 1], cuts[i + 1], r);
      done := done + [w.value];
      rs' := rs' + [r];
      i := i + 1;
    }
    assert js[..i] == js;
    ItemsWider(buffer[..], rs', js, lo, cuts[i], lo, hi);
    ws := Some(done);
  }

  lemma NoItems()
    ensures WItems([]) == Some([]) && WMembers([]) == Some([])
  {
  }

  lemma {:induction false} CutsGrow(cuts: seq<nat>)
    requires |cuts| > 0 && forall i :: 0 <= i < |cuts| - 1 ==> cuts[i] <= cuts[i + 1]
    ensures forall i :: 0 <= i < |cuts| ==> cuts[0] <= cuts[i] <= cuts[|cuts| - 1]
  {
    if |cuts| > 1 {
      CutsGrow(cuts[..|cuts| - 1]);
    }
  }

  // ---------------------------------------------------------------- members

  lemma {:induction false} MembersCuts(b: string, rs: seq<RMember>, ms: seq<Member>, lo: nat, hi: nat)
    returns (cuts: seq<nat>)
    requires DenotesMembers(b, rs, ms, lo, hi)
    ensures |cuts| == |rs| + 1 == |ms| + 1 && cuts[0] == lo && cuts[|rs|] <= hi <= |b|
    ensures forall i :: 0 <= i < |rs| ==> cuts[i] <= cuts[i + 1] && DenotesMember(b, rs[i], ms[i], cuts[i], cuts[i + 1])
    decreases rs
  {
    if rs == [] {
      cuts := [lo];
    } else {
      var k := |rs| - 1;
      var m: nat :| DenotesMembers(b, rs[..k], ms[..k], lo, m) && DenotesMember(b, rs[k], ms[k], m, hi);
      var front := MembersCuts(b, rs[..k], ms[..k], lo, m);
      MemberLower(b, rs[k], ms[k], m, hi, front[k]);
      cuts := front + [hi];
    }
  }

  lemma MemberLower(b: string, r: RMember, m: Member, lo: nat, hi: nat, lo': nat)
    requires DenotesMember(b, r, m, lo, hi) && lo' <= lo
    ensures DenotesMember(b, r, m, lo', hi)
  {
  }

  lemma {:induction false} MembersFail(ms: seq<Member>, i: nat)
    requires i < |ms| && WOf(ms[i].value).None?
    ensures WMembers(ms).None?
    decreases |ms|
  {
    hide WOf;
    if i < |ms| - 1 {
      MembersFail(ms[..|ms| - 1], i);
    }
  }

  lemma WMembersSnoc(ms: seq<Member>, i: nat)
    requires i < |ms|
    ensures WMembers(ms[..i + 1]) ==
            match WMembers(ms[..i]) {
              case None => None
              case Some(ws) => match WOf(ms[i].value) { case None => None
                                                       case Some(w) => Some(ws + [WMember(ms[i].key, w)]) }
            }
  {
    hide WOf;
    assert ms[..i + 1][..i] == ms[..i];
  }

  lemma MemberUntouched(b: string, b': string, r: RMember, m: Member, lo: nat, hi: nat)
    requires DenotesMember(b, r, m, lo, hi) && |b| == |b'| && forall x :: lo <= x < |b| ==> b'[x] == b[x]
    ensures DenotesMember(b', r, m, lo, hi)
  {
    assert b[lo..hi] == b'[lo..hi];
    MemberKept(b, b', r, m, lo, hi);
  }

  method MemberFromRead(buffer: array<char>, r: RMember, ghost m: Member, ghost lo: nat, ghost hi: nat)
    returns (w: Option<WMember>, r': RMember)
    requires DenotesMember(buffer[..], r, m, lo, hi)
    modifies buffer
    ensures w == match WOf(m.value) { case None => None case Some(v) => Some(WMember(m.key, v)) }
    ensures w.Some? ==> DenotesMember(buffer[..], r', m, lo, hi)
    ensures forall i :: 0 <= i < lo || hi <= i < buffer.Length ==> buffer[i] == old(buffer[i])
    decreases r, 2
  {
    hide Denotes, WOf;
    r' := r;
    ghost var k: nat :| r.end < k && Denotes(buffer[..], r.value, m.value, k, hi);
    assert buffer[r.start..r.end] == buffer[..][r.start..r.end];
    var key := buffer[r.start..r.end];
    var v, rv := FromRead(buffer, r.value, m.value, k, hi);
    if v.None? {
      return None, r;
    }
    assert buffer[..][r.start..r.end] == key;
    assert v.Some? ==> Denotes(buffer[..], rv, m.value, k, hi);
    w, r' := Some(WMember(key, v.value)), r.(value := rv);
  }

  method MembersFromRead(buffer: array<char>, rs: seq<RMember>, ghost ms: seq<Member>, ghost lo: nat, ghost hi: nat)
    returns (ws: Option<seq<WMember>>, rs': seq<RMember>)
    requires DenotesMembers(buffer[..], rs, ms, lo, hi)
    modifies buffer
    ensures ws == WMembers(ms)
    ensures ws.Some? ==> DenotesMembers(buffer[..], rs', ms, lo, hi)
    ensures forall i :: 0 <= i < lo || hi <= i < buffer.Length ==> buffer[i] == old(buffer[i])
    decreases rs
  {
    hide Denotes, DenotesMember, DenotesMembers, WOf, WMembers;
    ghost var b0 := buffer[..];
    ghost var cuts := MembersCuts(b0, rs, ms, lo, hi);
    CutsGrow(cuts);
    var done: seq<WMember> := [];
    rs' := [];
    EmptyItems(b0, lo, lo);
    NoItems();
    assert ms[..0] == [];
    var i := 0;
    while i < |rs|
      invariant i <= |rs| && |rs'| == i && WMembers(ms[..i]) == Some(done)
      invariant forall x :: 0 <= x < lo || cuts[i] <= x < buffer.Length ==> buffer[x] == b0[x]
      invariant DenotesMembers(buffer[..], rs', ms[..i], lo, cuts[i])
    {
      ghost var b := buffer[..];
      MemberUntouched(b0, b, rs[i], ms[i], cuts[i], cuts[i + 1]);
      WMembersSnoc(ms, i);
      var w, r := MemberFromRead(buffer, rs[i], ms[i], cuts[i], cuts[i + 1]);
      if w.None? {
        MembersFail(ms, i);
        return None, [];
      }
      assert ms[..i + 1][..i] == ms[..i];
      AppendMember(b, buffer[..], rs', ms[..i + 1], lo, cuts[i], cuts[i + 1], cuts[i + 1], r);
      done := done + [w.value];
      rs' := rs' + [r];
      i := i + 1;
    }
    assert ms[..i] == ms;
    MembersWider(buffer[..], rs', ms, lo, cuts[i], lo, hi);
    ws := Some(done);
  }

  // ---------------------------------------------------------------- the whole way round

  /** Integers fit their 64 bits. */
  predicate InRange(v: WValue)
    decreases v
  {
    match v
    case WSigned(i) => -0x8000_0000_0000_0000 <= i <= 0x7FFF_FFFF_FFFF_FFFF
    case WUnsigned(u) => u < 0x1_0000_0000_0000_0000
    case WList(items) => forall i :: 0 <= i < |items| ==> InRange(items[i])
    case WObject(members) => forall i :: 0 <= i < |members| ==> InRange(members[i].value)
    case _ => true
  }

  /** The value that comes back: a signed integer that is not negative comes back unsigned. */
  function Normal(v: WValue): WValue
    decreases v
  {
    match v
    case WSigned(i) => if i >= 0 then WUnsigned(i) else v
    case WList(items) => WList(seq(|items|, i requires 0 <= i < |items| => Normal(items[i])))
    case WObject(members) =>
      WObject(seq(|members|, i requires 0 <= i < |members| => WMember(members[i].key, Normal(members[i].value))))
    case _ => v
  }

  lemma NumberBack(n: int)
    requires -0x8000_0000_0000_0000 <= n < 0x1_0000_0000_0000_0000
    ensures NumberOf(IntText(n)) == Some(if n < 0 then WSigned(n) else WUnsigned(n))
  {
    IntTextBack(n);
    var digits := NatText(if n < 0 then -n else n);
    assert forall i :: 0 <= i < |digits| ==> IsNum(digits[i]);
    assert n < 0 ==> IntText(n)[0] == '-';
    hide NatText, IntegerOf;
  }

  lemma {:induction false} ItemsOfAt(vs: seq<WValue>, i: nat, k: nat)
    requires i <= |vs|
    ensures |ItemsOf(vs, i)| == |vs| - i
    ensures i <= k < |vs| ==> ItemsOf(vs, i)[k - i] == JsonOf(vs[k])
    decreases |vs| - i
  {
    hide JsonOf;
    if i < |vs| {
      ItemsOfAt(vs, i + 1, k);
    }
  }

  lemma {:induction false} MembersOfAt(ms: seq<WMember>, i: nat, k: nat)
    requires i <= |ms|
    ensures |MembersOf(ms, i)| == |ms| - i
    ensures i <= k < |ms| ==> MembersOf(ms, i)[k - i] == Member(ms[k].key, JsonOf(ms[k].value))
    decreases |ms| - i
  {
    hide JsonOf;
    if i < |ms| {
      MembersOfAt(ms, i + 1, k);
    }
  }

  lemma {:induction false} WItemsAll(js: seq<Json>, ws: seq<WValue>)
    requires |js| == |ws| && forall k :: 0 <= k < |js| ==> WOf(js[k]) == Some(ws[k])
    ensures WItems(js) == Some(ws)
    decreases |js|
  {
    hide WOf;
    if js != [] {
      var n := |js| - 1;
      WItemsAll(js[..n], ws[..n]);
      assert ws == ws[..n] + [ws[n]];
    }
  }

  lemma {:induction false} WMembersAll(js: seq<Member>, ws: seq<WMember>)
    requires |js| == |ws| && forall k :: 0 <= k < |js| ==>
             WOf(js[k].value) == Some(ws[k].value) && js[k].key == ws[k].key
    ensures WMembers(js) == Some(ws)
    decreases |js|
  {
    hide WOf;
    if js != [] {
      var n := |js| - 1;
      WMembersAll(js[..n], ws[..n]);
      assert ws == ws[..n] + [ws[n]];
    }
  }

  lemma {:induction false} ReadBack(v: WValue)
    requires InRange(v)
    ensures WOf(JsonOf(v)) == Some(Normal(v))
    decreases v
  {
    hide NumberOf, IntText, ItemsOf, MembersOf, WItems, WMembers;
    match v
    case WSigned(i) => NumberBack(i);
    case WUnsigned(u) => NumberBack(u);
    case WList(items) =>
      var js, ws := ItemsOf(items, 0), Normal(v).items;
      ItemsOfAt(items, 0, 0);
      forall k | 0 <= k < |js| ensures WOf(js[k]) == Some(ws[k]) {
        ItemsOfAt(items, 0, k);
        ReadBack(items[k]);
      }
      WItemsAll(js, ws);
    case WObject(members) =>
      var js, ws := MembersOf(members, 0), Normal(v).members;
      MembersOfAt(members, 0, 0);
      forall k | 0 <= k < |js| ensures WOf(js[k].value) == Some(ws[k].value) && js[k].key == ws[k].key {
        MembersOfAt(members, 0, k);
        ReadBack(members[k].value);
      }
      WMembersAll(js, ws);
    case _ =>
  }

  /** Print a value, load the print and take the value back: nothing is lost, except that more than
      5000 nested containers are refused. */
  method WholeWay(v: WValue) returns (w: Option<WValue>)
    requires InRange(v) && |Dump(v)| < 0x4000_0000
    ensures w == if Nesting(v) <= 5000 then Some(Normal(v)) else None
  {
    hide Dump, ParseText, JsonOf, WOf, Normal, Nesting, Denotes;
    var text := Write(v, "");
    assert "" + Dump(v) == Dump(v);
    var buffer, r := Load(text);
    RoundTrip(v);
    if r.RError? {
      return None;
    }
    ReadBack(v);
    var r': RValue;
    w, r' := FromRead(buffer, r, JsonOf(v), 0, buffer.Length);
  }
}
