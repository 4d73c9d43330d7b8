/** Multipart messages: writing the parts between boundary lines, and taking them apart again by
    erasing the front of the text. */
module Multipart {
  import opened Basics

  const CRLF := "\r\n"

  datatype Param = Param(name: string, value: string)

  datatype Header = Header(key: string, value: string, params: seq<Param>)

  datatype Part = Part(headers: seq<Header>, body: string)

  // ---------------------------------------------------------------- finding

  predicate At(s: string, k: nat, x: string) {
    k + |x| <= |s| && s[k..k + |x|] == x
  }

  predicate FirstAt(s: string, k: nat, x: string) {
    At(s, k, x) && forall j :: 0 <= j < k ==> !At(s, j, x)
  }

  predicate Contains(s: string, x: string) {
    exists k :: 0 <= k <= |s| && At(s, k, x)
  }

  /** `std::string::find`. */
  method Find(s: string, x: string) returns (r: Option<nat>)
    ensures match r case None => !Contains(s, x) case Some(k) => FirstAt(s, k, x)
  {
    var k := 0;
    while k <= |s|
      invariant k <= |s| + 1 && forall j :: 0 <= j < k ==> !At(s, j, x)
    {
      if At(s, k, x) {
        return Some(k);
      }
      k := k + 1;
    }
    r := None;
  }

  lemma FirstUnique(s: string, x: string, i: nat, j: nat)
    requires FirstAt(s, i, x) && FirstAt(s, j, x)
    ensures i == j
  {
  }

  /** A text `x` that cannot begin inside `a` is first found behind `a`. */
  lemma FirstBehind(a: string, x: string, b: string)
    requires !Contains(a, x)
    requires forall j :: 0 <= j < |a| && |a| < j + |x| <= |a| + |x| ==> !At(a + x, j, x)
    ensures FirstAt(a + x + b, |a|, x)
  {
    var s := a + x + b;
    assert s[|a|..|a| + |x|] == x;
    forall j | 0 <= j < |a| ensures !At(s, j, x) {
      if j + |x| <= |a| {
        assert s == a + (x + b);
        FrontSlice(a, x + b, j, |x|);
        assert !At(a, j, x);
      } else {
        AtPrefix(a + x, b, j, x);
      }
    }
  }

  lemma FrontSlice(a: string, c: string, j: nat, n: nat)
    requires j + n <= |a|
    ensures (a + c)[j..j + n] == a[j..j + n]
  {
  }

  lemma AtPrefix(a: string, b: string, j: nat, x: string)
    requires j + |x| <= |a|
    ensures At(a + b, j, x) <==> At(a, j, x)
  {
    FrontSlice(a, b, j, |x|);
  }

  /** A separator of two different characters cannot straddle the end of `a`. */
  lemma FirstPair(a: string, x: string, b: string)
    requires |x| == 2 && x[0] != x[1] && !Contains(a, x)
    ensures FirstAt(a + x + b, |a|, x)
  {
    forall j | 0 <= j < |a| && |a| < j + |x| ensures !At(a + x, j, x) {
      assert (a + x)[j..j + 2][1] == (a + x)[j + 1] == x[0];
    }
    FirstBehind(a, x, b);
  }

  // ---------------------------------------------------------------- writing

  function ParamText(p: Param): string {
    p.name + "=\"" + p.value + "\""
  }

  function ParamsText(ps: seq<Param>, i: nat): string
    requires i <= |ps|
    decreases |ps| - i
  {
    if i == |ps| then "" else "; " + ParamText(ps[i]) + ParamsText(ps, i + 1)
  }

  function HeadLine(h: Header): string {
    h.key + ": " + h.value + ParamsText(h.params, 0)
  }

  function HeadText(hs: seq<Header>, i: nat): string
    requires i <= |hs|
    decreases |hs| - i
  {
    if i == |hs| then "" else HeadLine(hs[i]) + CRLF + HeadText(hs, i + 1)
  }

  function PartText(p: Part): string {
    HeadText(p.headers, 0) + CRLF + p.body + CRLF
  }

  function Delimiter(boundary: string): string {
    "--" + boundary
  }

  /** The text from part `i` on, each part behind its boundary line, and the closing line. */
  function Dump(boundary: string, parts: seq<Part>, i: nat): string
    requires i <= |parts|
    decreases |parts| - i
  {
    if i == |parts| then Delimiter(boundary) + "--" + CRLF
    else Delimiter(boundary) + CRLF + PartText(parts[i]) + Dump(boundary, parts, i + 1)
  }

  /** One header line with its parameters. */
  method WriteHeader(h: Header, before: string) returns (text: string)
    ensures text == before + HeadLine(h)
  {
    text := before + h.key + ": " + h.value;
    ghost var front := h.key + ": " + h.value;
    assert text == before + front;
    var k := 0;
    while k < |h.params|
      invariant k <= |h.params| && text + ParamsText(h.params, k) == before + (front + ParamsText(h.params, 0))
    {
      ghost var t := text;
      text := text + "; " + h.params[k].name + "=" + "\"" + h.params[k].value + "\"";
      assert text == t + ("; " + ParamText(h.params[k]));
      k := k + 1;
    }
    assert text + "" == text;
  }

  /** `dump(int)`. */
  method WritePart(p: Part) returns (text: string)
    ensures text == PartText(p)
  {
    hide HeadLine;
    text := "";
    var i := 0;
    while i < |p.headers|
      invariant i <= |p.headers| && text + HeadText(p.headers, i) == HeadText(p.headers, 0)
    {
      ghost var t := text;
      text := WriteHeader(p.headers[i], text);
      text := text + CRLF;
      assert text == t + (HeadLine(p.headers[i]) + CRLF);
      i := i + 1;
    }
    assert text + "" == text;
    text := text + CRLF + p.body + CRLF;
  }

  /** `dump()`. */
  method WriteMessage(boundary: string, parts: seq<Part>) returns (text: string)
    ensures text == Dump(boundary, parts, 0)
  {
    hide PartText;
    text := "";
    var i := 0;
    while i < |parts|
      invariant i <= |parts| && text + Dump(boundary, parts, i) == Dump(boundary, parts, 0)
    {
      var part := WritePart(parts[i]);
      ghost var t := text;
      text := text + Delimiter(boundary) + CRLF + part;
      assert text == t + (Delimiter(boundary) + CRLF + PartText(parts[i]));
      i := i + 1;
    }
    text := text + Delimiter(boundary) + "--" + CRLF;
  }

  // ---------------------------------------------------------------- names of parts

  function Upper(c: char): char {
    if 'a' <= c <= 'z' then (c as int - 32) as char else c
  }

  /** Equal up to case. */
  predicate Alike(a: string, b: string) {
    |a| == |b| && forall i :: 0 <= i < |a| ==> Upper(a[i]) == Upper(b[i])
  }

  predicate IsDisposition(h: Header) {
    Alike(h.key, "Content-Disposition")
  }

  /** At most one header, so that it does not matter which one the table of headers finds. */
  predicate OneDisposition(hs: seq<Header>) {
    forall i, j :: 0 <= i < j < |hs| && IsDisposition(hs[i]) ==> !IsDisposition(hs[j])
  }

  /** The parameter "name". */
  function NameIn(ps: seq<Param>): Option<string> {
    if ps == [] then None
    else
      var k := |ps| - 1;
      var r := NameIn(ps[..k]);
      if r.Some? then r else if ps[k].name == "name" then Some(ps[k].value) else None
  }

  /** The name that the Content-Disposition of a part gives it. */
  function NameOf(hs: seq<Header>): Option<string> {
    if hs == [] then None
    else
      var k := |hs| - 1;
      if IsDisposition(hs[k]) then NameIn(hs[k].params) else NameOf(hs[..k])
  }

  method FindParam(ps: seq<Param>) returns (r: Option<string>)
    ensures r == NameIn(ps)
  {
    r := None;
    var k := 0;
    while k < |ps| && r.None?
      invariant k <= |ps| && r == NameIn(ps[..k])
    {
      assert ps[..k + 1][..k] == ps[..k];
      if ps[k].name == "name" {
        r := Some(ps[k].value);
      }
      k := k + 1;
    }
    NamedEarly(ps, k);
  }

  lemma {:induction false} NamedEarly(ps: seq<Param>, k: nat)
    requires k <= |ps| && (k == |ps| || NameIn(ps[..k]).Some?)
    ensures NameIn(ps) == NameIn(ps[..k])
  {
    if k == |ps| {
      assert ps[..k] == ps;
    } else {
      assert ps[..|ps| - 1][..k] == ps[..k];
      NamedEarly(ps[..|ps| - 1], k);
    }
  }

  /** The name under which a part is entered in the table of parts. */
  method PartName(p: Part) returns (name: string)
    requires OneDisposition(p.headers) && NameOf(p.headers).Some?
    ensures NameOf(p.headers) == Some(name)
  {
    var hs := p.headers;
    var k: nat := |hs|;
    assert hs[..k] == hs;
    while true
      invariant k <= |hs| && NameOf(hs) == NameOf(hs[..k])
      decreases k
    {
      assert k != 0 && hs[..k][..k - 1] == hs[..k - 1];
      k := k - 1;
      if IsDisposition(hs[k]) {
        var r := FindParam(hs[k].params);
        return r.value;
      }
    }
  }

  /** The table of parts: each part under its name. */
  function Table(parts: seq<Part>): seq<(string, Part)>
    requires forall i :: 0 <= i < |parts| ==> NameOf(parts[i].headers).Some?
  {
    seq(|parts|, i requires 0 <= i < |parts| => (NameOf(parts[i].headers).value, parts[i]))
  }

  // ---------------------------------------------------------------- what can be read back

  predicate Plain(s: string) {
    '\r' !in s && '\n' !in s
  }

  predicate GoodParam(p: Param) {
    Plain(p.name) && Plain(p.value) && !Contains(p.name, "; ") && !Contains(p.value, "; ") && '=' !in p.name
  }

  predicate GoodHeader(h: Header) {
    && Plain(h.key) && Plain(h.value) && !Contains(h.key, ": ") && !Contains(h.key, "; ") && !Contains(h.value, "; ")
    && (forall i :: 0 <= i < |h.params| ==> GoodParam(h.params[i]))
    && (forall i, j :: 0 <= i < j < |h.params| ==> h.params[i].name != h.params[j].name)
  }

  /** A part that has one Content-Disposition with a name, and that its own text and the boundary allow
      to be read back. */
  predicate GoodPart(boundary: string, p: Part) {
    && |p.headers| > 0 && (forall i :: 0 <= i < |p.headers| ==> GoodHeader(p.headers[i]))
    && OneDisposition(p.headers) && NameOf(p.headers).Some?
    && !Contains(PartText(p), Delimiter(boundary))
  }

  predicate GoodMessage(boundary: string, parts: seq<Part>) {
    Plain(boundary) && forall i :: 0 <= i < |parts| ==> GoodPart(boundary, parts[i])
  }

  // ---------------------------------------------------------------- parameters

  /** The parameters from `i` on, separated. */
  function ParamList(ps: seq<Param>, i: nat): string
    requires i <= |ps|
    decreases |ps| - i
  {
    if i == |ps| then "" else ParamText(ps[i]) + (if i + 1 < |ps| then "; " else "") + ParamList(ps, i + 1)
  }

  lemma {:induction false} ParamsAsList(ps: seq<Param>, i: nat)
    requires i < |ps|
    ensures ParamsText(ps, i) == "; " + ParamList(ps, i)
    decreases |ps| - i
  {
    hide ParamText;
    if i + 1 < |ps| {
      ParamsAsList(ps, i + 1);
    }
  }

  /** A pair of characters occurs in a concatenation only inside a part or across the seam. */
  lemma NoPair(a: string, b: string, x: string)
    requires |x| == 2 && !Contains(a, x) && !Contains(b, x)
             && (a != "" && b != "" ==> a[|a| - 1] != x[0] || b[0] != x[1])
    ensures !Contains(a + b, x)
  {
    forall k | 0 <= k <= |a + b| ensures !At(a + b, k, x) {
      NoPairAt(a, b, x, k);
    }
  }

  lemma NoPairAt(a: string, b: string, x: string, k: nat)
    requires |x| == 2 && !Contains(a, x) && !Contains(b, x)
             && (a != "" && b != "" ==> a[|a| - 1] != x[0] || b[0] != x[1])
    ensures !At(a + b, k, x)
  {
    hide Contains;
    if k + 2 <= |a| {
      NotAt(a, x, k);
      assert (a + b)[k..k + 2] == a[k..k + 2];
    } else if |a| <= k && k + 2 <= |a| + |b| {
      NotAt(b, x, k - |a|);
      assert (a + b)[k..k + 2] == b[k - |a|..k - |a| + 2];
    } else if k + 2 <= |a| + |b| {
      assert (a + b)[k..k + 2][0] == a[|a| - 1] && (a + b)[k..k + 2][1] == b[0];
    }
  }

  lemma NotAt(s: string, x: string, k: nat)
    requires !Contains(s, x) && k <= |s|
    ensures !At(s, k, x)
  {
  }

  lemma NoFirst(s: string, x: string)
    requires x != "" && x[0] !in s
    ensures !Contains(s, x)
  {
    forall j | 0 <= j <= |s| ensures !At(s, j, x) {
      if j + |x| <= |s| {
        assert s[j..j + |x|][0] == s[j];
      }
    }
  }

  lemma ParamHasNoSeparator(p: Param)
    requires GoodParam(p)
    ensures !Contains(ParamText(p), "; ")
  {
    NoFirst("=\"", "; ");
    NoFirst("\"", "; ");
    hide Contains;
    NoPair(p.name, "=\"", "; ");
    NoPair(p.name + "=\"", p.value, "; ");
    NoPair(p.name + "=\"" + p.value, "\"", "; ");
  }

  /** `trim`. */
  function Trim(s: string): string {
    if |s| > 1 && s[0] == '"' && s[|s| - 1] == '"' then s[1..|s| - 1] else s
  }

  /** `name="value"`. */
  method ParseParam(param: string, ghost p: Param) returns (r: Param)
    requires GoodParam(p) && param == ParamText(p)
    ensures r == p
  {
    var split := Find(param, "=");
    assert param == p.name + "=" + ("\"" + p.value + "\"");
    NoFirst(p.name, "=");
    FirstBehind(p.name, "=", "\"" + p.value + "\"");
    assert At(param, |p.name|, "=") && Contains(param, "=");
    FirstUnique(param, "=", split.value, |p.name|);
    var value := param[split.value + 1..];
    assert value == "\"" + p.value + "\"";
    r := Param(param[..split.value], Trim(value));
    assert r.value == p.value;
  }

  /** Cut the text of one parameter off the front of a line. */
  method NextParam(line: string, ghost p: string, ghost rest: string, ghost last: bool)
    returns (param: string, left: string)
    requires !Contains(p, "; ") && line == p + (if last then "" else "; ") + rest && (last ==> rest == "")
    ensures param == p && left == rest
  {
    var found := Find(line, "; ");
    if last {
      assert line == p && found.None?;
    } else {
      FirstPair(p, "; ", rest);
      assert At(line, |p|, "; ") && Contains(line, "; ");
      FirstUnique(line, "; ", found.value, |p|);
    }
    param := if found.Some? then line[..found.value] else line;
    left := if found.Some? then line[found.value + 2..] else "";
  }

  /** The loop over the parameters of a header; the first of two with the same name stays. */
  method ParseParams(text: string, ghost ps: seq<Param>) returns (r: seq<Param>)
    requires (forall i :: 0 <= i < |ps| ==> GoodParam(ps[i])) && text == ParamList(ps, 0)
    requires forall i, j :: 0 <= i < j < |ps| ==> ps[i].name != ps[j].name
    ensures r == ps
  {
    hide ParamText, GoodParam;
    var line := text;
    r := [];
    ghost var i := 0;
    while line != ""
      invariant i <= |ps| && r == ps[..i] && line == ParamList(ps, i)
      decreases |ps| - i
    {
      ParamFacts(ps, i);
      var param;
      param, line := NextParam(line, ParamText(ps[i]), ParamList(ps, i + 1), i + 1 == |ps|);
      var q := ParseParam(param, ps[i]);
      if forall k :: 0 <= k < |r| ==> r[k].name != q.name {
        r := r + [q];
      }
      assert ps[..i + 1] == ps[..i] + [ps[i]];
      i := i + 1;
    }
    assert ps[..i] == ps by {
      EmptyList(ps, i);
    }
  }

  lemma ParamFacts(ps: seq<Param>, i: nat)
    requires i <= |ps| && ParamList(ps, i) != "" && forall k :: 0 <= k < |ps| ==> GoodParam(ps[k])
    ensures i < |ps| && GoodParam(ps[i]) && !Contains(ParamText(ps[i]), "; ")
    ensures ParamList(ps, i) == ParamText(ps[i]) + (if i + 1 < |ps| then "; " else "") + ParamList(ps, i + 1)
    ensures i + 1 == |ps| ==> ParamList(ps, i + 1) == ""
  {
    ParamHasNoSeparator(ps[i]);
    hide ParamText;
  }

  lemma EmptyList(ps: seq<Param>, i: nat)
    requires i <= |ps| && ParamList(ps, i) == ""
    ensures i == |ps|
  {
  }

  // ---------------------------------------------------------------- headers

  function HeadFront(h: Header): string {
    h.key + ": " + h.value
  }

  lemma FrontHasNoSeparator(h: Header)
    requires GoodHeader(h)
    ensures !Contains(HeadFront(h), "; ")
  {
    NoFirst(": ", "; ");
    hide Contains;
    NoPair(h.key, ": ", "; ");
    NoPair(h.key + ": ", h.value, "; ");
  }

  /** `key: value`. */
  method ParseFront(header: string, ghost h: Header) returns (key: string, value: string)
    requires GoodHeader(h) && header == HeadFront(h)
    ensures key == h.key && value == h.value
  {
    var split := Find(header, ": ");
    FirstPair(h.key, ": ", h.value);
    assert At(header, |h.key|, ": ") && Contains(header, ": ");
    FirstUnique(header, ": ", split.value, |h.key|);
    key, value := header[..split.value], header[split.value + 2..];
  }

  lemma LineParts(h: Header)
    ensures HeadLine(h) == HeadFront(h) + (if |h.params| > 0 then "; " else "") + ParamList(h.params, 0)
  {
    if |h.params| > 0 {
      ParamsAsList(h.params, 0);
    }
    hide ParamList;
  }

  /** One header line. */
  method ParseHeader(text: string, ghost h: Header) returns (r: Header)
    requires GoodHeader(h) && text == HeadLine(h)
    ensures r == h
  {
    hide HeadLine, HeadFront, ParamList, GoodParam;
    var line := text;
    var found := Find(line, "; ");
    FrontHasNoSeparator(h);
    LineParts(h);
    ghost var front := HeadFront(h);
    if |h.params| > 0 {
      FirstPair(front, "; ", ParamList(h.params, 0));
      assert At(line, |front|, "; ") && Contains(line, "; ");
      FirstUnique(line, "; ", found.value, |front|);
    } else {
      NoParams(h.params);
      assert line == front;
    }
    hide At, Contains, FirstAt;
    var header := if found.Some? then line[..found.value] else line;
    line := if found.Some? then line[found.value + 2..] else "";
    assert header == front && line == ParamList(h.params, 0);
    var key, value := ParseFront(header, h);
    var params := ParseParams(line, h.params);
    r := Header(key, value, params);
  }

  lemma NoParams(ps: seq<Param>)
    requires ps == []
    ensures ParamList(ps, 0) == ""
  {
  }

  lemma LinePlain(h: Header)
    requires GoodHeader(h)
    ensures Plain(HeadLine(h)) && |HeadLine(h)| >= 2
  {
    ParamsPlain(h.params, 0);
  }

  lemma {:induction false} ParamsPlain(ps: seq<Param>, i: nat)
    requires i <= |ps| && forall k :: 0 <= k < |ps| ==> GoodParam(ps[k])
    ensures Plain(ParamsText(ps, i))
    decreases |ps| - i
  {
    if i < |ps| {
      ParamsPlain(ps, i + 1);
    }
  }

  /** `parse_section_head`. */
  method ParseHead(text: string, ghost hs: seq<Header>) returns (r: seq<Header>)
    requires (forall i :: 0 <= i < |hs| ==> GoodHeader(hs[i])) && text == HeadText(hs, 0)
    ensures r == hs
  {
    hide HeadLine, GoodHeader;
    var lines := text;
    r := [];
    ghost var i := 0;
    while lines != ""
      invariant i <= |hs| && r == hs[..i] && lines == HeadText(hs, i)
      decreases |hs| - i
    {
      var found := Find(lines, CRLF);
      LinePlain(hs[i]);
      ghost var l := HeadLine(hs[i]);
      NoFirst(l, CRLF);
      FirstPair(l, CRLF, HeadText(hs, i + 1));
      assert At(lines, |l|, CRLF) && Contains(lines, CRLF);
      FirstUnique(lines, CRLF, found.value, |l|);
      var line := lines[..found.value];
      lines := lines[found.value + 2..];
      var h := ParseHeader(line, hs[i]);
      r := r + [h];
      i := i + 1;
    }
    assert hs[..i] == hs by {
      HeadEmpty(hs, i);
    }
  }

  lemma HeadEmpty(hs: seq<Header>, i: nat)
    requires i <= |hs| && HeadText(hs, i) == ""
    ensures i == |hs|
  {
  }

  // ---------------------------------------------------------------- sections

  lemma FirstShift(front: string, s: string, k: nat, x: string)
    requires x != "" && FirstAt(s, k, x) && forall j :: 0 <= j < |front| ==> !At(front + s, j, x)
    ensures FirstAt(front + s, |front| + k, x)
  {
    var t := front + s;
    assert t[|front| + k..|front| + k + |x|] == s[k..k + |x|];
    forall j | 0 <= j < |front| + k ensures !At(t, j, x) {
      if j >= |front| && j + |x| <= |t| {
        assert t[j..j + |x|] == s[j - |front|..j - |front| + |x|];
        assert !At(s, j - |front|, x);
      }
    }
  }

  lemma CharAt(s: string, j: nat, x: string, i: nat)
    requires i < |x|
    ensures At(s, j, x) ==> s[j + i] == x[i]
  {
    if At(s, j, x) {
      assert s[j..j + |x|][i] == s[j + i];
    }
  }

  /** The first empty line stands behind the last header. */
  lemma {:induction false} FirstEmptyLine(hs: seq<Header>, i: nat, rest: string)
    requires i < |hs| && forall k :: 0 <= k < |hs| ==> GoodHeader(hs[k])
    ensures |HeadText(hs, i)| >= 2 && FirstAt(HeadText(hs, i) + CRLF + rest, |HeadText(hs, i)| - 2, CRLF + CRLF)
    decreases |hs| - i
  {
    hide HeadLine, GoodHeader;
    var l := HeadLine(hs[i]);
    LinePlain(hs[i]);
    var x := CRLF + CRLF;
    var s := HeadText(hs, i) + CRLF + rest;
    if i + 1 == |hs| {
      assert HeadText(hs, i) == l + CRLF;
      assert s == l + x + rest;
      NoFirst(l, x);
      forall j | 0 <= j < |l| && |l| < j + |x| <= |l| + |x| ensures !At(l + x, j, x) {
        CharAt(l + x, j, x, 0);
      }
      FirstBehind(l, x, rest);
    } else {
      FirstEmptyLine(hs, i + 1, rest);
      var s' := HeadText(hs, i + 1) + CRLF + rest;
      LinePlain(hs[i + 1]);
      assert s == l + CRLF + s';
      assert s'[0] == HeadLine(hs[i + 1])[0];
      forall j | 0 <= j < |l + CRLF| ensures !At(l + CRLF + s', j, x) {
        CharAt(l + CRLF + s', j, x, 0);
        CharAt(l + CRLF + s', j, x, 2);
        assert j == |l| ==> (l + CRLF + s')[j + 2] == s'[0];
      }
      FirstShift(l + CRLF, s', |HeadText(hs, i + 1)| - 2, x);
    }
  }

  /** `parse_section`. */
  method ParseSection(text: string, ghost p: Part) returns (r: Part)
    requires |p.headers| > 0 && (forall i :: 0 <= i < |p.headers| ==> GoodHeader(p.headers[i])) && text == PartText(p)
    ensures r == p
  {
    hide HeadText, GoodHeader;
    var section := text;
    var found := Find(section, CRLF + CRLF);
    ghost var head := HeadText(p.headers, 0);
    FirstEmptyLine(p.headers, 0, p.body + CRLF);
    assert section == head + CRLF + (p.body + CRLF);
    assert At(section, |head| - 2, CRLF + CRLF) && Contains(section, CRLF + CRLF);
    FirstUnique(section, CRLF + CRLF, found.value, |head| - 2);
    var headLine := section[..found.value + 2];
    section := section[found.value + 4..];
    assert headLine == head && section == p.body + CRLF;
    var headers := ParseHead(headLine, p.headers);
    r := Part(headers, section[..|section| - 2]);
  }

  // ---------------------------------------------------------------- messages

  /** What is left of a message once the boundary line before part `k` is gone. */
  function AfterBoundary(boundary: string, parts: seq<Part>, k: nat): string
    requires k <= |parts|
    decreases |parts| - k
  {
    if k == |parts| then CRLF
    else PartText(parts[k]) + Delimiter(boundary) + LineEnd(parts, k + 1) + AfterBoundary(boundary, parts, k + 1)
  }

  /** The two characters behind a boundary. */
  function LineEnd(parts: seq<Part>, k: nat): (s: string)
    ensures |s| == 2
  {
    if k == |parts| then "--" else CRLF
  }

  lemma {:induction false} DumpParts(boundary: string, parts: seq<Part>, k: nat)
    requires k <= |parts|
    ensures Dump(boundary, parts, k) == Delimiter(boundary) + LineEnd(parts, k) + AfterBoundary(boundary, parts, k)
    decreases |parts| - k
  {
    hide PartText, Delimiter;
    if k < |parts| {
      DumpParts(boundary, parts, k + 1);
    }
  }

  /** The boundary behind a part is the first one. */
  lemma BoundaryBehind(boundary: string, p: Part, rest: string)
    requires Plain(boundary) && GoodPart(boundary, p)
    ensures FirstAt(PartText(p) + Delimiter(boundary) + rest, |PartText(p)|, Delimiter(boundary))
  {
    var t, d := PartText(p), Delimiter(boundary);
    assert t[|t| - 1] == '\n';
    assert Plain(d);
    hide PartText, Delimiter;
    forall j | 0 <= j < |t| && |t| < j + |d| <= |t| + |d| ensures !At(t + d, j, d) {
      CharAt(t + d, j, d, |t| - 1 - j);
    }
    FirstBehind(t, d, rest);
  }

  /** `parse_body`: cut at the boundary, as long as more than the last line end is left. */
  method ParseBody(text: string, boundary: string, ghost parts: seq<Part>)
    returns (sections: seq<Part>, table: seq<(string, Part)>)
    requires GoodMessage(boundary, parts) && text == Dump(boundary, parts, 0)
    ensures sections == parts && table == Table(parts)
  {
    hide PartText, NameOf, OneDisposition, Delimiter, FirstAt, At, AfterBoundary;
    var delimiter := Delimiter(boundary);
    var body := text;
    sections, table := [], [];
    ghost var first := true;
    DumpParts(boundary, parts, 0);
    while body != CRLF
      invariant |sections| <= |parts| && sections == parts[..|sections|] && table == Table(sections)
      invariant BodyIs(boundary, parts, |sections|, body, first)
      decreases |parts| - |sections|, first
    {
      var found := Find(body, delimiter);
      BodyFacts(boundary, parts, |sections|, body, first);
      ghost var at := if first then 0 else |PartText(parts[|sections|])|;
      FoundThere(body, delimiter, at);
      FirstUnique(body, delimiter, found.value, at);
      var section := body[..found.value];
      body := body[found.value + |delimiter| + 2..];
      if section != "" {
        var part := ParseSection(section, parts[|sections|]);
        var name := PartName(part);
        table := table + [(name, part)];
        sections := sections + [part];
      }
      first := false;
    }
    BodyEmpty(boundary, parts, |sections|, body, first);
  }

  lemma FoundThere(s: string, x: string, k: nat)
    requires FirstAt(s, k, x)
    ensures Contains(s, x)
  {
  }

  predicate BodyIs(boundary: string, parts: seq<Part>, k: nat, body: string, first: bool) {
    && k <= |parts|
    && if first then k == 0 && body == Delimiter(boundary) + LineEnd(parts, 0) + AfterBoundary(boundary, parts, 0)
       else body == AfterBoundary(boundary, parts, k)
  }

  /** Where the next boundary is, and what is left behind it. */
  lemma BodyFacts(boundary: string, parts: seq<Part>, k: nat, body: string, first: bool)
    requires GoodMessage(boundary, parts) && BodyIs(boundary, parts, k, body, first) && body != CRLF
    ensures var d := Delimiter(boundary);
            if first then
              && FirstAt(body, 0, d) && 0 + |d| + 2 <= |body|
              && body[|d| + 2..] == AfterBoundary(boundary, parts, 0)
            else
              && k < |parts| && GoodPart(boundary, parts[k])
              && var t := PartText(parts[k]);
                 && FirstAt(body, |t|, d) && t != "" && |t| + |d| + 2 <= |body|
                 && body[..|t|] == t && body[|t| + |d| + 2..] == AfterBoundary(boundary, parts, k + 1)
  {
    hide PartText, GoodPart, Delimiter;
    var d := Delimiter(boundary);
    if first {
      var rest := LineEnd(parts, 0) + AfterBoundary(boundary, parts, 0);
      assert body == d + rest;
    } else {
      var t := PartText(parts[k]);
      var rest := LineEnd(parts, k + 1) + AfterBoundary(boundary, parts, k + 1);
      assert body == t + d + rest;
      BoundaryBehind(boundary, parts[k], rest);
      TextNonempty(parts[k]);
    }
  }

  lemma TextNonempty(p: Part)
    ensures |PartText(p)| >= 4
  {
  }

  lemma DelimiterSize(boundary: string)
    ensures |Delimiter(boundary)| >= 2
  {
  }

  lemma BodyEmpty(boundary: string, parts: seq<Part>, k: nat, body: string, first: bool)
    requires BodyIs(boundary, parts, k, body, first) && body == CRLF
    ensures !first && k == |parts| && parts[..k] == parts
  {
    hide PartText, Delimiter;
    DelimiterSize(boundary);
    if k < |parts| {
      TextNonempty(parts[k]);
    }
  }

  /** A message that is written and read again has the same parts, and its table has each of them under
      its name. */
  method RoundTrip(boundary: string, parts: seq<Part>)
    returns (r: seq<Part>, table: seq<(string, Part)>)
    requires GoodMessage(boundary, parts)
    ensures r == parts && table == Table(parts)
  {
    var text := WriteMessage(boundary, parts);
    r, table := ParseBody(text, boundary, parts);
  }
}
