/** The JSON reader: it overwrites the text it reads, and its result is a tree of views into what
    is left of the text.  It is proved to agree with the functions of module JsonGrammar. */
module JsonReader {
  import opened Basics
  import opened JsonText
  import opened JsonGrammar

  /** A value as views into the buffer.  RError is a value whose error bit is set. */
  datatype RValue =
    | RError
    | RNull | RFalse | RTrue
    | RNumber(start: nat, end: nat)
    | RString(start: nat, end: nat)
    | RList(items: seq<RValue>)
    | RObject(members: seq<RMember>)

  /** A member: the view of its unescaped key, and its value. */
  datatype RMember = RMember(start: nat, end: nat, value: RValue)

  // ---------------------------------------------------------------- growing arrays

  /** The array of a list: `used` elements, and `spare` more places, counted in 16 bits. */
  class Vector<T(0)> {
    var elements: array<T>
    var used: nat
    var spare: nat

    ghost predicate Valid()
      reads this
    {
      elements.Length == used + spare && spare < 0x1_0000
    }

    ghost function Contents(): seq<T>
      requires Valid()
      reads this, elements
    {
      elements[..used]
    }

    constructor ()
      ensures Valid() && Contents() == [] && fresh(elements)
    {
      elements := new T[0];
      used, spare := 0, 0;
    }

    /** Append, doubling the array if it is full but adding at most 60000 places, so that the 16-bit
        count of spare places never wraps around. */
    method EmplaceBack(v: T)
      requires Valid() && used < 0x4000_0000
      modifies this, elements
      ensures Valid() && Contents() == old(Contents()) + [v]
      ensures elements == old(elements) || fresh(elements)
    {
      if spare == 0 {
        var size := used + used;
        if size - used > 60000 {
          size := used + 60000;
        }
        if size < 4 {
          size := 4;
        }
        var grown := new T[size];
        var i := 0;
        while i < used
          invariant used == old(used) && elements == old(elements) && elements[..] == old(elements[..])
          invariant i <= used && grown[..i] == elements[..i]
        {
          grown[i] := elements[i];
          i := i + 1;
        }
        elements := grown;
        spare := (size - used) % 0x1_0000;
      }
      elements[used] := v;
      used := used + 1;
      spare := spare - 1;
    }

    method ToSeq() returns (s: seq<T>)
      requires Valid()
      ensures s == Contents()
    {
      s := elements[..used];
    }
  }

  // ---------------------------------------------------------------- what views mean

  /** The view `r` between `lo` and `hi` of the buffer stands for `j`. */
  ghost predicate Denotes(b: string, r: RValue, j: Json, lo: nat, hi: nat)
    decreases r
  {
    lo <= hi <= |b| &&
    match r
    case RError => false
    case RNull => j.JNull?
    case RFalse => j.JFalse?
    case RTrue => j.JTrue?
    case RNumber(s, e) => lo <= s <= e <= hi && j == JNumber(b[s..e])
    case RString(s, e) =>
      && lo < s <= e < hi && b[e] == NUL && (b[s - 1] != NUL ==> WellEscaped(b[s..e]))
      && j == JString(ViewText(b, s, e))
    case RList(items) => j.JList? && DenotesItems(b, items, j.items, lo, hi)
    case RObject(members) => j.JObject? && DenotesMembers(b, members, j.members, lo, hi)
  }

  /** Items stand one after the other in the buffer. */
  ghost predicate DenotesItems(b: string, rs: seq<RValue>, js: seq<Json>, lo: nat, hi: nat)
    decreases rs
  {
    && lo <= hi <= |b| && |rs| == |js|
    && (rs != [] ==>
          var k := |rs| - 1;
          exists m: nat :: DenotesItems(b, rs[..k], js[..k], lo, m) && Denotes(b, rs[k], js[k], m, hi))
  }

  ghost predicate DenotesMember(b: string, r: RMember, m: Member, lo: nat, hi: nat)
    decreases r
  {
    && lo < r.start <= r.end < hi <= |b| && b[r.start..r.end] == m.key
    && exists k: nat :: r.end < k && Denotes(b, r.value, m.value, k, hi)
  }

  ghost predicate DenotesMembers(b: string, rs: seq<RMember>, ms: seq<Member>, lo: nat, hi: nat)
    decreases rs
  {
    && lo <= hi <= |b| && |rs| == |ms|
    && (rs != [] ==>
          var k := |rs| - 1;
          exists m: nat :: DenotesMembers(b, rs[..k], ms[..k], lo, m) && DenotesMember(b, rs[k], ms[k], m, hi))
  }

  /** A view depends on nothing outside its bounds. */
  lemma {:induction false} DenotesKept(b: string, b': string, r: RValue, j: Json, lo: nat, hi: nat)
    requires Denotes(b, r, j, lo, hi) && |b| == |b'| && b[lo..hi] == b'[lo..hi]
    ensures Denotes(b', r, j, lo, hi)
    decreases r
  {
    hide WellEscaped, Unescape;
    match r
    case RNumber(s, e) => SliceKept(b, b', lo, hi, s, e);
    case RString(s, e) =>
      SliceKept(b, b', lo, hi, s, e);
      assert b[lo..hi][e - lo] == b'[lo..hi][e - lo] && b[lo..hi][s - 1 - lo] == b'[lo..hi][s - 1 - lo];
    case RList(items) => ItemsKept(b, b', items, j.items, lo, hi);
    case RObject(members) => MembersKept(b, b', members, j.members, lo, hi);
    case _ =>
  }

  lemma SliceKept(b: string, b': string, lo: nat, hi: nat, s: nat, e: nat)
    requires |b| == |b'| && lo <= s <= e <= hi <= |b| && b[lo..hi] == b'[lo..hi]
    ensures b[s..e] == b'[s..e]
  {
    forall i | s <= i < e ensures b[i] == b'[i] {
      assert b[lo..hi][i - lo] == b'[lo..hi][i - lo];
    }
  }

  lemma {:induction false} ItemsKept(b: string, b': string, rs: seq<RValue>, js: seq<Json>, lo: nat, hi: nat)
    requires DenotesItems(b, rs, js, lo, hi) && |b| == |b'| && b[lo..hi] == b'[lo..hi]
    ensures DenotesItems(b', rs, js, lo, hi)
    decreases rs
  {
    if rs != [] {
      var k := |rs| - 1;
      var m: nat :| DenotesItems(b, rs[..k], js[..k], lo, m) && Denotes(b, rs[k], js[k], m, hi);
      SliceKept(b, b', lo, hi, lo, m);
      SliceKept(b, b', lo, hi, m, hi);
      ItemsKept(b, b', rs[..k], js[..k], lo, m);
      DenotesKept(b, b', rs[k], js[k], m, hi);
    }
  }

  lemma {:induction false} MemberKept(b: string, b': string, r: RMember, m: Member, lo: nat, hi: nat)
    requires DenotesMember(b, r, m, lo, hi) && |b| == |b'| && b[lo..hi] == b'[lo..hi]
    ensures DenotesMember(b', r, m, lo, hi)
    decreases r
  {
    var k: nat :| r.end < k && Denotes(b, r.value, m.value, k, hi);
    SliceKept(b, b', lo, hi, r.start, r.end);
    SliceKept(b, b', lo, hi, k, hi);
    DenotesKept(b, b', r.value, m.value, k, hi);
  }

  lemma {:induction false} MembersKept(b: string, b': string, rs: seq<RMember>, ms: seq<Member>, lo: nat, hi: nat)
    requires DenotesMembers(b, rs, ms, lo, hi) && |b| == |b'| && b[lo..hi] == b'[lo..hi]
    ensures DenotesMembers(b', rs, ms, lo, hi)
    decreases rs
  {
    if rs != [] {
      var k := |rs| - 1;
      var m: nat :| DenotesMembers(b, rs[..k], ms[..k], lo, m) && DenotesMember(b, rs[k], ms[k], m, hi);
      SliceKept(b, b', lo, hi, lo, m);
      SliceKept(b, b', lo, hi, m, hi);
      MembersKept(b, b', rs[..k], ms[..k], lo, m);
      MemberKept(b, b', rs[k], ms[k], m, hi);
    }
  }

  /** Looser bounds are fine too. */
  lemma {:induction false} DenotesWider(b: string, r: RValue, j: Json, lo: nat, hi: nat, lo': nat, hi': nat)
    requires Denotes(b, r, j, lo, hi) && lo' <= lo && hi <= hi' <= |b|
    ensures Denotes(b, r, j, lo', hi')
    decreases r
  {
    match r
    case RList(items) => ItemsWider(b, items, j.items, lo, hi, lo', hi');
    case RObject(members) => MembersWider(b, members, j.members, lo, hi, lo', hi');
    case _ =>
  }

  lemma {:induction false} ItemsWider(b: string, rs: seq<RValue>, js: seq<Json>, lo: nat, hi: nat, lo': nat, hi': nat)
    requires DenotesItems(b, rs, js, lo, hi) && lo' <= lo && hi <= hi' <= |b|
    ensures DenotesItems(b, rs, js, lo', hi')
    decreases rs
  {
    if rs != [] {
      var k := |rs| - 1;
      var m: nat :| DenotesItems(b, rs[..k], js[..k], lo, m) && Denotes(b, rs[k], js[k], m, hi);
      ItemsWider(b, rs[..k], js[..k], lo, m, lo', m);
      DenotesWider(b, rs[k], js[k], m, hi, m, hi');
    }
  }

  lemma {:induction false} MemberWider(b: string, r: RMember, m: Member, lo: nat, hi: nat, hi': nat)
    requires DenotesMember(b, r, m, lo, hi) && hi <= hi' <= |b|
    ensures DenotesMember(b, r, m, lo, hi')
    decreases r
  {
    var k: nat :| r.end < k && Denotes(b, r.value, m.value, k, hi);
    DenotesWider(b, r.value, m.value, k, hi, k, hi');
  }

  lemma {:induction false} MembersWider(b: string, rs: seq<RMember>, ms: seq<Member>, lo: nat, hi: nat, lo': nat,
                                        hi': nat)
    requires DenotesMembers(b, rs, ms, lo, hi) && lo' <= lo && hi <= hi' <= |b|
    ensures DenotesMembers(b, rs, ms, lo', hi')
    decreases rs
  {
    if rs != [] {
      var k := |rs| - 1;
      var m: nat :| DenotesMembers(b, rs[..k], ms[..k], lo, m) && DenotesMember(b, rs[k], ms[k], m, hi);
      MembersWider(b, rs[..k], ms[..k], lo, m, lo', m);
      MemberWider(b, rs[k], ms[k], m, hi, hi');
    }
  }
}
