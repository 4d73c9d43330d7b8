/** Recursive descent over a buffer that is rewritten while it is read. */
module JsonParser {
  import opened Basics
  import opened JsonText
  import opened JsonGrammar
  import opened JsonReader

  /** The escape at `pos`, one byte at a time; the NUL at the end of the text stops the reading. */
  lemma EscapeAt(t: string, pos: nat)
    requires Terminated(t) && pos < |t| && t[pos] == '\\'
    ensures pos + 1 < |t|
    ensures t[pos + 1] == 'u' ==>
              && pos + 2 < |t|
              && (IsHex(t[pos + 2]) ==> pos + 3 < |t|)
              && (IsHex(t[pos + 2]) && IsHex(t[pos + 3]) ==> pos + 4 < |t|)
              && (IsHex(t[pos + 2]) && IsHex(t[pos + 3]) && IsHex(t[pos + 4]) ==> pos + 5 < |t|)
              && UnitLength(t[pos..]) ==
                 if IsHex(t[pos + 2]) && IsHex(t[pos + 3]) && IsHex(t[pos + 4]) && IsHex(t[pos + 5]) then 6 else 0
    ensures t[pos + 1] != 'u' ==> UnitLength(t[pos..]) == if t[pos + 1] in "\"\\/bfnrt" then 2 else 0
  {
  }

  lemma StringStep(t: string, pos: nat)
    requires Terminated(t) && pos < |t| && t[pos] != '"' && t[pos] != NUL
    ensures UnitLength(t[pos..]) == 0 ==> StringEnd(t, pos).None?
    ensures UnitLength(t[pos..]) > 0 ==>
            pos + UnitLength(t[pos..]) < |t| && StringEnd(t, pos) == StringEnd(t, pos + UnitLength(t[pos..]))
    ensures t[pos] != '\\' ==> UnitLength(t[pos..]) == 1
  {
    UnitStays(t, pos);
  }

  class Parser {
    const buffer: array<char>
    /** The text as it was before it was overwritten. */
    ghost const text: string
    var data: nat

    constructor (buffer: array<char>, ghost text: string)
      requires Terminated(text) && |text| <= 0x4000_0000 && buffer[..] == text
      ensures Valid() && this.buffer == buffer && this.text == text && data == 0
    {
      this.buffer, this.text, data := buffer, text, 0;
      new;
      assert forall i :: 0 <= i < |text| ==> buffer[..][i] == text[i];
    }

    /** What has not been read yet is untouched. */
    ghost predicate Valid()
      reads this, buffer
    {
      && Terminated(text) && |text| == buffer.Length && data < |text| <= 0x4000_0000
      && forall i :: data <= i < |text| ==> buffer[i] == text[i]
    }

    /** The result of reading something at `from` whose meaning is `spec`. */
    ghost predicate Reads(r: RValue, spec: Option<(Json, nat)>, from: nat)
      reads this, buffer
    {
      match spec
      case None => r.RError?
      case Some((j, p)) => !r.RError? && data == p && Denotes(buffer[..], r, j, from, p)
    }

    method WsSkip()
      requires Valid()
      modifies `data
      ensures Valid() && data == SkipWs(text, old(data))
    {
      while IsSpace(buffer[data])
        invariant Valid() && SkipWs(text, data) == SkipWs(text, old(data))
        decreases |text| - data
      {
        data := data + 1;
      }
    }

    /** `decode_string` up to the closing quote: its position, and whether there were escapes. */
    method ScanString() returns (found: bool, escaped: bool)
      requires Valid()
      modifies `data
      ensures Valid() && data >= old(data)
      ensures found <==> StringEnd(text, old(data)).Some?
      ensures found ==> StringEnd(text, old(data)) == Some(data) && (escaped <==> '\\' in text[old(data)..data])
    {
      hide UnitLength, StringEnd;
      escaped := false;
      while true
        invariant Valid() && old(data) <= data && StringEnd(text, data) == StringEnd(text, old(data))
        invariant escaped <==> '\\' in text[old(data)..data]
        decreases |text| - data
      {
        ghost var was := data;
        StringStart(text, data);
        if buffer[data] != '"' && buffer[data] != '\\' && buffer[data] != NUL {
          StringStep(text, data);
          data := data + 1;
          assert text[old(data)..data] == text[old(data)..was] + [text[was]];
        } else if buffer[data] == '"' {
          return true, escaped;
        } else if buffer[data] == '\\' {
          StringStep(text, data);
          EscapeAt(text, data);
          escaped := true;
          data := data + 1;
          if buffer[data] == 'u' {
            if !(IsHex(buffer[data + 1]) && IsHex(buffer[data + 2]) && IsHex(buffer[data + 3])
                 && IsHex(buffer[data + 4])) {
              return false, escaped;
            }
            data := data + 5;
          } else if buffer[data] in "\"\\/bfnrt" {
            data := data + 1;
          } else {
            return false, escaped;
          }
          assert text[old(data)..data][was - old(data)] == '\\';
        } else {
          return false, escaped;
        }
      }
    }

    method DecodeString() returns (r: RValue)
      requires Valid()
      modifies `data, buffer
      ensures Valid() && data >= old(data)
      ensures forall i :: 0 <= i < old(data) ==> buffer[i] == old(buffer[i])
      ensures match ParseString(text, old(data))
              case None => r.RError?
              case Some((s, p)) => data == p && r.RString? && Denotes(buffer[..], r, JString(s), old(data), p)
    {
      hide StringEnd, WellEscaped, Unescape, Denotes, UnitLength, UnitText, SkipWs;
      if buffer[data] != '"' {
        return RError;
      }
      data := data + 1;
      var start := data;
      var found, escaped := ScanString();
      if !found {
        return RError;
      }
      buffer[data] := NUL;
      buffer[start - 1] := if escaped then 1 as char else NUL;
      data := data + 1;
      r := RString(start, data - 1);
      StringIsEscaped(text, start);
      assert buffer[..][start..data - 1] == text[start..data - 1];
      StringDenotes(buffer[..], start, data - 1, escaped);
    }

    /** `decode_number`, with its inner loop over runs of digits. */
    method DecodeNumber() returns (r: RValue)
      requires Valid()
      modifies `data
      ensures Valid() && data >= old(data)
      ensures match NumberEnd(text, old(data), Minus)
              case None => r.RError?
              case Some(p) => data == p && r == RNumber(old(data), p)
    {
      hide NextNumber;
      var start := data;
      var state := Minus;
      while !state.Invalid?
        invariant Valid() && start <= data && NumberEnd(text, data, state) == NumberEnd(text, start, Minus)
        decreases |text| - data, if state.Invalid? then 0 else 1
      {
        var next := NextNumber(state, buffer[data]);
        NumberBytes(state, buffer[data]);
        if next.None? {
          return if Accepts(state) then RNumber(start, data) else RError;
        }
        state := next.value;
        if '1' <= buffer[data] <= '9' {
          while IsNum(buffer[data + 1])
            invariant Valid() && start <= data && IsNum(buffer[data]) && data + 1 < |text|
            invariant state.Digits? || state.DigitsAfterPoints? || state.DigitsAfterE? || state.Invalid?
            invariant NumberEnd(text, data + 1, state) == NumberEnd(text, start, Minus)
            decreases |text| - data
          {
            DigitStays(state, buffer[data + 1]);
            data := data + 1;
          }
        }
        data := data + 1;
      }
      r := RError;
    }

    /** Compare the next bytes, one after the other, as far as they agree. */
    method Literal(word: string) returns (ok: bool)
      requires Valid() && NUL !in word
      modifies `data
      ensures Valid() && (ok <==> LiteralAt(text, old(data), word) && old(data) + |word| < |text|)
      ensures data == if ok then old(data) + |word| else old(data)
    {
      var i := 0;
      while i < |word| && buffer[data + i] == word[i]
        invariant i <= |word| && data + i < |text| && Valid() && data == old(data)
        invariant text[data..data + i] == word[..i]
      {
        assert text[data..data + i + 1] == text[data..data + i] + [text[data + i]];
        assert word[..i + 1] == word[..i] + [word[i]];
        i := i + 1;
      }
      ok := i == |word|;
      if ok {
        data := data + i;
      } else {
        NotLiteral(text, data, word, i);
      }
    }

    method DecodeValue(depth: nat) returns (r: RValue)
      requires Valid()
      modifies `data, buffer
      ensures Valid() && data >= old(data)
      ensures forall i :: 0 <= i < old(data) ==> buffer[i] == old(buffer[i])
      ensures Reads(r, ParseValue(text, old(data), depth), old(data))
      decreases |text| - data, 1
    {
      hide ParseList, ParseObject, ParseString, LiteralAt, NumberEnd, WellEscaped, Unescape;
      if buffer[data] == '[' {
        r := DecodeList(depth + 1);
      } else if buffer[data] == '{' {
        r := DecodeObject(depth + 1);
      } else if buffer[data] == '"' {
        r := DecodeString();
      } else if buffer[data] == 't' {
        var ok := Literal("true");
        r := if ok then RTrue else RError;
      } else if buffer[data] == 'f' {
        var ok := Literal("false");
        r := if ok then RFalse else RError;
      } else if buffer[data] == 'n' {
        var ok := Literal("null");
        r := if ok then RNull else RError;
      } else {
        r := DecodeNumber();
        assert r.RNumber? ==> buffer[..][r.start..r.end] == text[r.start..r.end];
      }
    }

    method DecodeList(depth: nat) returns (r: RValue)
      requires Valid() && buffer[data] == '['
      modifies `data, buffer
      ensures Valid() && data >= old(data)
      ensures forall i :: 0 <= i < old(data) ==> buffer[i] == old(buffer[i])
      ensures Reads(r, ParseList(text, old(data), depth), old(data))
      decreases |text| - data, 0
    {
      hide Denotes, ParseItems, SkipWs, DenotesItems;
      data := data + 1;
      if depth > MAX_DEPTH {
        return RError;
      }
      WsSkip();
      if buffer[data] == ']' {
        data := data + 1;
        EmptyDenotes(buffer[..], old(data), data);
        return RList([]);
      }
      ghost var from := data;
      var ok, items := DecodeItems(depth, old(data));
      if !ok {
        return RError;
      }
      r := RList(items);
      ListDenotes(buffer[..], items, ParseItems(text, from, depth).value.0, old(data), data);
    }

    /** The loop of `decode_list`; the bracket stood at `lo`. */
    method DecodeItems(depth: nat, ghost lo: nat) returns (ok: bool, items: seq<RValue>)
      requires Valid() && lo < data
      modifies `data, buffer
      ensures Valid() && data >= old(data)
      ensures forall i :: 0 <= i < old(data) ==> buffer[i] == old(buffer[i])
      ensures match ParseItems(text, old(data), depth)
              case None => !ok
              case Some((js, p)) => ok && data == p && DenotesItems(buffer[..], items, js, lo, p)
      decreases |text| - data, 2
    {
      hide ParseValue, Denotes, ParseItems, SkipWs, DenotesItems, Behind;
      ghost var from, done: seq<Json> := data, [];
      var list := new Vector<RValue>();
      NoneBehind(ParseItems(text, from, depth));
      EmptyItems(buffer[..], lo, data);
      while true
        invariant Valid() && from <= data
        invariant forall i :: 0 <= i < from ==> buffer[i] == old(buffer[i])
        invariant list.Valid() && fresh(list) && fresh(list.elements) && list.used < data
        invariant DenotesItems(buffer[..], list.Contents(), done, lo, data)
        invariant ParseItems(text, from, depth) == Behind(done, ParseItems(text, data, depth))
        decreases |text| - data
      {
        ghost var p, b, before := data, buffer[..], list.Contents();
        ItemsMore(text, from, done, data, depth);
        var v := DecodeValue(depth + 1);
        if v.RError? {
          return false, [];
        }
        ghost var q := data;
        WsSkip();
        list.EmplaceBack(v);
        done := done + [ParseValue(text, p, depth + 1).value.0];
        if buffer[data] != ']' && buffer[data] != ',' {
          return false, [];
        }
        var last := buffer[data] == ']';
        data := data + 1;
        if !last {
          WsSkip();
        }
        AppendItem(b, buffer[..], before, done, lo, p, q, data, v);
        if last {
          var all := list.ToSeq();
          return true, all;
        }
      }
    }

    method DecodeObject(depth: nat) returns (r: RValue)
      requires Valid() && buffer[data] == '{'
      modifies `data, buffer
      ensures Valid() && data >= old(data)
      ensures forall i :: 0 <= i < old(data) ==> buffer[i] == old(buffer[i])
      ensures Reads(r, ParseObject(text, old(data), depth), old(data))
      decreases |text| - data, 0
    {
      hide Denotes, ParseMembers, SkipWs, DenotesMembers;
      data := data + 1;
      if depth > MAX_DEPTH {
        return RError;
      }
      WsSkip();
      if buffer[data] == '}' {
        data := data + 1;
        EmptyDenotes(buffer[..], old(data), data);
        return RObject([]);
      }
      ghost var from := data;
      var ok, members := DecodeMembers(depth, old(data));
      if !ok {
        return RError;
      }
      r := RObject(members);
      ObjectDenotes(buffer[..], members, ParseMembers(text, from, depth).value.0, old(data), data);
    }

    /** Key and colon of a member; the key is unescaped at once. */
    method DecodeKey() returns (ok: bool, start: nat, end: nat)
      requires Valid()
      modifies `data, buffer
      ensures Valid() && data >= old(data)
      ensures forall i :: 0 <= i < old(data) ==> buffer[i] == old(buffer[i])
      ensures match ParseString(text, old(data))
              case None => !ok
              case Some((key, p)) =>
                var q := SkipWs(text, p);
                && (ok <==> text[q] == ':')
                && (ok ==> old(data) < start <= end < data && buffer[start..end] == key && data == SkipWs(text, q + 1))
    {
      hide ParseString, SkipWs, WellEscaped, Unescape;
      ok, start, end := false, 0, 0;
      var t := DecodeString();
      if t.RError? {
        return;
      }
      WsSkip();
      if buffer[data] != ':' {
        return;
      }
      data := data + 1;
      assert buffer[..][t.start..t.end] == buffer[t.start..t.end];
      ok, start := true, t.start;
      end := UnescapeView(buffer, t.start, t.end);
      WsSkip();
    }

    method DecodeMember(depth: nat) returns (ok: bool, m: RMember)
      requires Valid()
      modifies `data, buffer
      ensures Valid() && data >= old(data)
      ensures forall i :: 0 <= i < old(data) ==> buffer[i] == old(buffer[i])
      ensures match ParseMember(text, old(data), depth)
              case None => !ok
              case Some((spec, p)) => ok && data == p && DenotesMember(buffer[..], m, spec, old(data), p)
      decreases |text| - data, 2
    {
      hide ParseValue, ParseString, SkipWs, Denotes;
      m := RMember(0, 0, RError);
      var start, end;
      ok, start, end := DecodeKey();
      if !ok {
        return;
      }
      ghost var b, q := buffer[..], data;
      var v := DecodeValue(depth + 1);
      if v.RError? {
        return false, m;
      }
      m := RMember(start, end, v);
      assert buffer[..][start..end] == b[start..end];
      assert Denotes(buffer[..], v, ParseValue(text, q, depth + 1).value.0, q, data);
    }

    /** The loop of `decode_object`; the brace stood at `lo`. */
    method DecodeMembers(depth: nat, ghost lo: nat) returns (ok: bool, members: seq<RMember>)
      requires Valid() && lo < data
      modifies `data, buffer
      ensures Valid() && data >= old(data)
      ensures forall i :: 0 <= i < old(data) ==> buffer[i] == old(buffer[i])
      ensures match ParseMembers(text, old(data), depth)
              case None => !ok
              case Some((ms, p)) => ok && data == p && DenotesMembers(buffer[..], members, ms, lo, p)
      decreases |text| - data, 3
    {
      hide ParseMember, DenotesMember, ParseMembers, SkipWs, DenotesMembers, Behind;
      ghost var from, done: seq<Member> := data, [];
      var list := new Vector<RMember>();
      NoneBehind(ParseMembers(text, from, depth));
      EmptyItems(buffer[..], lo, data);
      while true
        invariant Valid() && from <= data
        invariant forall i :: 0 <= i < from ==> buffer[i] == old(buffer[i])
        invariant list.Valid() && fresh(list) && fresh(list.elements) && list.used < data
        invariant DenotesMembers(buffer[..], list.Contents(), done, lo, data)
        invariant ParseMembers(text, from, depth) == Behind(done, ParseMembers(text, data, depth))
        decreases |text| - data
      {
        ghost var p, b, before := data, buffer[..], list.Contents();
        MembersMore(text, from, done, data, depth);
        var found, m := DecodeMember(depth);
        if !found {
          return false, [];
        }
        ghost var q := data;
        WsSkip();
        list.EmplaceBack(m);
        done := done + [ParseMember(text, p, depth).value.0];
        if buffer[data] != '}' && buffer[data] != ',' {
          return false, [];
        }
        var last := buffer[data] == '}';
        data := data + 1;
        if !last {
          WsSkip();
        }
        AppendMember(b, buffer[..], before, done, lo, p, q, data, m);
        if last {
          var all := list.ToSeq();
          return true, all;
        }
      }
    }
  }

  lemma ObjectDenotes(b: string, rs: seq<RMember>, ms: seq<Member>, lo: nat, hi: nat)
    requires DenotesMembers(b, rs, ms, lo, hi)
    ensures Denotes(b, RObject(rs), JObject(ms), lo, hi)
  {
  }

  /** One more member has been read into the buffer, between `p` and `q`. */
  lemma AppendMember(b: string, b': string, rs: seq<RMember>, ms: seq<Member>, lo: nat, p: nat, q: nat, hi: nat,
                     r: RMember)
    requires |ms| > 0 && DenotesMembers(b, rs, ms[..|ms| - 1], lo, p) && DenotesMember(b', r, ms[|ms| - 1], p, q)
    requires |b| == |b'| && q <= hi <= |b| && forall i :: 0 <= i < p ==> b'[i] == b[i]
    ensures DenotesMembers(b', rs + [r], ms, lo, hi)
  {
    hide DenotesMember;
    MembersBounds(b, rs, ms[..|ms| - 1], lo, p);
    assert b[lo..p] == b'[lo..p];
    MembersKept(b, b', rs, ms[..|ms| - 1], lo, p);
    MemberWider(b', r, ms[|ms| - 1], p, q, hi);
    assert (rs + [r])[..|rs|] == rs;
    MemberBounds(b', r, ms[|ms| - 1], p, hi);
  }

  lemma MembersBounds(b: string, rs: seq<RMember>, ms: seq<Member>, lo: nat, hi: nat)
    requires DenotesMembers(b, rs, ms, lo, hi)
    ensures lo <= hi <= |b| && |rs| == |ms|
  {
  }

  lemma MemberBounds(b: string, r: RMember, m: Member, lo: nat, hi: nat)
    requires DenotesMember(b, r, m, lo, hi)
    ensures lo <= hi <= |b|
  {
  }

  /** One turn of the loop over members, in terms of the grammar. */
  lemma MembersMore(t: string, from: nat, done: seq<Member>, p: nat, depth: nat)
    requires Terminated(t) && from < |t| && p < |t|
    requires ParseMembers(t, from, depth) == Behind(done, ParseMembers(t, p, depth))
    ensures match ParseMember(t, p, depth)
            case None => ParseMembers(t, from, depth).None?
            case Some((m, e)) =>
              var q := SkipWs(t, e);
              if t[q] == '}' then ParseMembers(t, from, depth) == Some((done + [m], q + 1))
              else if t[q] != ',' then ParseMembers(t, from, depth).None?
              else q + 1 < |t|
                   && ParseMembers(t, from, depth) == Behind(done + [m], ParseMembers(t, SkipWs(t, q + 1), depth))
  {
    hide ParseMember, SkipWs;
    var r := ParseMember(t, p, depth);
    if r.Some? && t[SkipWs(t, r.value.1)] == ',' {
      var q := SkipWs(t, r.value.1);
      var more := ParseMembers(t, SkipWs(t, q + 1), depth);
      if more.Some? {
        assert done + ([r.value.0] + more.value.0) == done + [r.value.0] + more.value.0;
      }
    }
  }

  lemma NotLiteral(t: string, pos: nat, word: string, i: nat)
    requires i < |word| && pos + i < |t| && t[pos + i] != word[i]
    ensures !LiteralAt(t, pos, word)
  {
    if pos + |word| <= |t| {
      assert t[pos..pos + |word|][i] == t[pos + i];
    }
  }

  lemma NoneBehind<T>(r: Option<(seq<T>, nat)>)
    ensures Behind([], r) == r
  {
    if r.Some? {
      assert [] + r.value.0 == r.value.0;
    }
  }

  lemma EmptyItems(b: string, lo: nat, hi: nat)
    requires lo <= hi <= |b|
    ensures DenotesItems(b, [], [], lo, hi) && DenotesMembers(b, [], [], lo, hi)
  {
  }

  lemma ListDenotes(b: string, rs: seq<RValue>, js: seq<Json>, lo: nat, hi: nat)
    requires DenotesItems(b, rs, js, lo, hi)
    ensures Denotes(b, RList(rs), JList(js), lo, hi)
  {
  }

  /** One more item has been read into the buffer, between `p` and `q`. */
  lemma AppendItem(b: string, b': string, rs: seq<RValue>, js: seq<Json>, lo: nat, p: nat, q: nat, hi: nat, v: RValue)
    requires |js| > 0 && DenotesItems(b, rs, js[..|js| - 1], lo, p) && Denotes(b', v, js[|js| - 1], p, q)
    requires |b| == |b'| && q <= hi <= |b| && forall i :: 0 <= i < p ==> b'[i] == b[i]
    ensures DenotesItems(b', rs + [v], js, lo, hi)
  {
    hide Denotes;
    ItemsBounds(b, rs, js[..|js| - 1], lo, p);
    assert b[lo..p] == b'[lo..p];
    ItemsKept(b, b', rs, js[..|js| - 1], lo, p);
    DenotesWider(b', v, js[|js| - 1], p, q, p, hi);
    assert (rs + [v])[..|rs|] == rs;
    ValueBounds(b', v, js[|js| - 1], p, hi);
  }

  lemma ItemsBounds(b: string, rs: seq<RValue>, js: seq<Json>, lo: nat, hi: nat)
    requires DenotesItems(b, rs, js, lo, hi)
    ensures lo <= hi <= |b| && |rs| == |js|
  {
  }

  lemma ValueBounds(b: string, r: RValue, j: Json, lo: nat, hi: nat)
    requires Denotes(b, r, j, lo, hi)
    ensures lo <= hi <= |b|
  {
  }

  /** One turn of the loop over items, in terms of the grammar. */
  lemma ItemsMore(t: string, from: nat, done: seq<Json>, p: nat, depth: nat)
    requires Terminated(t) && from < |t| && p < |t|
    requires ParseItems(t, from, depth) == Behind(done, ParseItems(t, p, depth))
    ensures match ParseValue(t, p, depth + 1)
            case None => ParseItems(t, from, depth).None?
            case Some((v, e)) =>
              var q := SkipWs(t, e);
              if t[q] == ']' then ParseItems(t, from, depth) == Some((done + [v], q + 1))
              else if t[q] != ',' then ParseItems(t, from, depth).None?
              else q + 1 < |t|
                   && ParseItems(t, from, depth) == Behind(done + [v], ParseItems(t, SkipWs(t, q + 1), depth))
  {
    hide ParseValue, SkipWs;
    var r := ParseValue(t, p, depth + 1);
    if r.Some? && t[SkipWs(t, r.value.1)] == ',' {
      var q := SkipWs(t, r.value.1);
      var more := ParseItems(t, SkipWs(t, q + 1), depth);
      if more.Some? {
        assert done + ([r.value.0] + more.value.0) == done + [r.value.0] + more.value.0;
      }
    }
  }

  lemma EmptyDenotes(b: string, lo: nat, hi: nat)
    requires lo <= hi <= |b|
    ensures Denotes(b, RList([]), JList([]), lo, hi) && Denotes(b, RObject([]), JObject([]), lo, hi)
  {
  }

  /** Items read before, in front of what is read next. */
  function Behind<T>(done: seq<T>, r: Option<(seq<T>, nat)>): Option<(seq<T>, nat)> {
    match r
    case None => None
    case Some((rest, e)) => Some((done + rest, e))
  }

  /** A string whose quotes have been overwritten by its flag and a NUL. */
  lemma StringDenotes(b: string, start: nat, end: nat, escaped: bool)
    requires 1 <= start <= end < |b| && WellEscaped(b[start..end]) && (escaped <==> '\\' in b[start..end])
    requires b[end] == NUL && b[start - 1] == if escaped then 1 as char else NUL
    ensures Denotes(b, RString(start, end), JString(Unescape(b[start..end])), start - 1, end + 1)
  {
    if !escaped {
      NoEscapes(b[start..end]);
    }
  }

  lemma StringStart(t: string, pos: nat)
    requires Terminated(t) && pos < |t|
    ensures t[pos] == '"' ==> StringEnd(t, pos) == Some(pos)
    ensures t[pos] == NUL ==> StringEnd(t, pos).None?
  {
  }

  lemma NumberBytes(s: NumberState, c: char)
    ensures NextNumber(s, c).Some? ==> c != NUL
    ensures '1' <= c <= '9' ==>
              && NextNumber(s, c).Some?
              && var n := NextNumber(s, c).value; n.Digits? || n.DigitsAfterPoints? || n.DigitsAfterE? || n.Invalid?
  {
  }

  /** After a digit, further digits leave the state alone. */
  lemma DigitStays(s: NumberState, c: char)
    requires IsNum(c) && (s.Digits? || s.DigitsAfterPoints? || s.DigitsAfterE? || s.Invalid?)
    ensures NextNumber(s, c) == Some(s)
  {
  }
}
