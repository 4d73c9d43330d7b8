/** What a dumped multipart message looks like, in the terms of RFC 2046. */
module MultipartForm {
  import opened Basics
  import opened Multipart
  import HttpSyntax

  /** A header field with its parameters. */
  function Parameters(ps: seq<Param>): string {
    if ps == [] then ""
    else
      var p := ps[|ps| - 1];
      Parameters(ps[..|ps| - 1]) + "; " + p.name + "=\"" + p.value + "\""
  }

  function Fields(hs: seq<Header>): string {
    if hs == [] then ""
    else
      var h := hs[|hs| - 1];
      Fields(hs[..|hs| - 1]) + h.key + ": " + h.value + Parameters(h.params) + "\r\n"
  }

  /** A body part: its header fields, an empty line, and its content. */
  function BodyPart(p: Part): string {
    Fields(p.headers) + "\r\n" + p.body
  }

  /** Section 5.1.1 of RFC 2046: each part begins behind a delimiter line, the first of which stands at the
      front and the others behind a line end, and the last delimiter has two hyphens more. */
  function Body(boundary: string, ps: seq<Part>): string {
    if ps == [] then "--" + boundary
    else Body(boundary, ps[..|ps| - 1]) + "\r\n" + BodyPart(ps[|ps| - 1]) + "\r\n" + "--" + boundary
  }

  lemma ParameterIs(front: string, p: Param)
    ensures front + "; " + p.name + "=\"" + p.value + "\"" == front + ("; " + ParamText(p))
  {
  }

  lemma {:induction false} ParametersAre(ps: seq<Param>, i: nat)
    requires i <= |ps|
    ensures Parameters(ps) == Parameters(ps[..i]) + ParamsText(ps, i)
    decreases |ps| - i
  {
    if i == |ps| {
      assert ps[..i] == ps;
    } else {
      ParametersAre(ps, i + 1);
      assert ps[..i + 1][..i] == ps[..i];
      ParameterIs(Parameters(ps[..i]), ps[i]);
      Associate(Parameters(ps[..i]), "; " + ParamText(ps[i]), ParamsText(ps, i + 1));
    }
  }

  lemma FieldIs(h: Header, front: string)
    ensures front + h.key + ": " + h.value + Parameters(h.params) + "\r\n" == front + (HeadLine(h) + "\r\n")
  {
    hide Parameters, ParamsText;
    assert h.params[..0] == [];
    NoParameters();
    ParametersAre(h.params, 0);
    assert Parameters(h.params) == ParamsText(h.params, 0);
  }

  lemma {:induction false} FieldsAre(hs: seq<Header>, i: nat)
    requires i <= |hs|
    ensures Fields(hs) == Fields(hs[..i]) + HeadText(hs, i)
    decreases |hs| - i
  {
    hide Parameters, HeadLine;
    if i == |hs| {
      assert hs[..i] == hs;
    } else {
      FieldsAre(hs, i + 1);
      assert hs[..i + 1][..i] == hs[..i];
      FieldIs(hs[i], Fields(hs[..i]));
      Associate(Fields(hs[..i]), HeadLine(hs[i]) + "\r\n", HeadText(hs, i + 1));
    }
  }

  lemma Associate(a: string, b: string, c: string)
    ensures a + b + c == a + (b + c)
  {
  }

  lemma NoParameters()
    ensures Parameters([]) == "" && Fields([]) == ""
  {
  }

  lemma PartIs(p: Part)
    ensures PartText(p) == BodyPart(p) + "\r\n"
  {
    hide Fields, HeadText;
    NoParameters();
    assert p.headers[..0] == [];
    FieldsAre(p.headers, 0);
  }

  /** What follows the `i`th delimiter. */
  function Behind(boundary: string, ps: seq<Part>, i: nat): string
    requires i <= |ps|
    decreases |ps| - i
  {
    if i == |ps| then "--\r\n"
    else "\r\n" + BodyPart(ps[i]) + "\r\n" + "--" + boundary + Behind(boundary, ps, i + 1)
  }

  lemma {:induction false} DumpIs(boundary: string, ps: seq<Part>, i: nat)
    requires i <= |ps|
    ensures Dump(boundary, ps, i) == "--" + boundary + Behind(boundary, ps, i)
    decreases |ps| - i
  {
    hide BodyPart, PartText;
    var d := "--" + boundary;
    if i == |ps| {
      assert d + "--" + "\r\n" == d + "--\r\n";
    } else {
      DumpIs(boundary, ps, i + 1);
      PartIs(ps[i]);
      JoinParts(d, BodyPart(ps[i]), "--", boundary, Behind(boundary, ps, i + 1));
    }
  }

  lemma JoinParts(d: string, x: string, dashes: string, boundary: string, rest: string)
    ensures d + "\r\n" + (x + "\r\n") + (dashes + boundary + rest)
            == d + ("\r\n" + x + "\r\n" + dashes + boundary + rest)
  {
  }

  lemma {:induction false} BodyIs(boundary: string, ps: seq<Part>, i: nat)
    requires i <= |ps|
    ensures Body(boundary, ps) + "--\r\n" == Body(boundary, ps[..i]) + Behind(boundary, ps, i)
    decreases |ps| - i
  {
    hide BodyPart;
    if i == |ps| {
      assert ps[..i] == ps;
    } else {
      BodyIs(boundary, ps, i + 1);
      assert ps[..i + 1][..i] == ps[..i];
      JoinBody(Body(boundary, ps[..i]), BodyPart(ps[i]), "--", boundary, Behind(boundary, ps, i + 1));
    }
  }

  lemma JoinBody(body: string, x: string, dashes: string, boundary: string, rest: string)
    ensures body + "\r\n" + x + "\r\n" + dashes + boundary + rest
            == body + ("\r\n" + x + "\r\n" + dashes + boundary + rest)
  {
  }

  /** For every message: its dump is the multipart body of RFC 2046 with its parts. */
  lemma DumpExactly(boundary: string, ps: seq<Part>)
    ensures Dump(boundary, ps, 0) == Body(boundary, ps) + "--\r\n"
  {
    hide Dump, Behind, BodyPart;
    DumpIs(boundary, ps, 0);
    BodyIs(boundary, ps, 0);
    assert ps[..0] == [];
  }

  /** The header that names a part is the content disposition, in any case. */
  lemma DispositionExactly(h: Header)
    ensures IsDisposition(h) <==> HttpSyntax.Lowered(h.key) == "content-disposition"
  {
    var w, l := "Content-Disposition", "content-disposition";
    hide HttpSyntax.LowerCase, Upper;
    if |h.key| == |w| {
      forall i | 0 <= i < |w| ensures Upper(h.key[i]) == Upper(w[i]) <==> HttpSyntax.LowerCase(h.key[i]) == l[i] {
        assert HttpSyntax.LowerCase(w[i]) == l[i] by {
          LowerWord(i);
        }
        CaseAgrees(h.key[i], w[i]);
      }
    }
  }

  lemma CaseAgrees(a: char, b: char)
    ensures Upper(a) == Upper(b) <==> HttpSyntax.LowerCase(a) == HttpSyntax.LowerCase(b)
  {
  }

  lemma LowerWord(i: nat)
    requires i < |"Content-Disposition"|
    ensures HttpSyntax.LowerCase("Content-Disposition"[i]) == "content-disposition"[i]
  {
  }

  /** The parameter number `k` of header number `i` gives a part the name `v`. */
  predicate NamedBy(hs: seq<Header>, v: string, i: nat, k: nat) {
    && i < |hs| && HttpSyntax.Lowered(hs[i].key) == "content-disposition"
    && k < |hs[i].params| && hs[i].params[k].name == "name" && hs[i].params[k].value == v
  }

  predicate ParamsDiffer(ps: seq<Param>) {
    forall i, j :: 0 <= i < j < |ps| ==> ps[i].name != ps[j].name
  }

  lemma {:induction false} NameInExactly(ps: seq<Param>, v: string)
    requires ParamsDiffer(ps)
    ensures NameIn(ps) == Some(v) <==> exists k :: 0 <= k < |ps| && ps[k].name == "name" && ps[k].value == v
    ensures NameIn(ps).Some? ==> exists k :: 0 <= k < |ps| && ps[k].name == "name"
  {
    if ps != [] {
      var k := |ps| - 1;
      NameInExactly(ps[..k], v);
      assert forall i :: 0 <= i < k ==> ps[..k][i] == ps[i];
      if NameIn(ps[..k]).Some? {
        NameInExactly(ps[..k], NameIn(ps[..k]).value);
      }
    }
  }

  /** A part is named by the name parameter of its content disposition, and by nothing else. */
  lemma {:induction false} NameExactly(hs: seq<Header>, v: string)
    requires OneDisposition(hs) && forall i :: 0 <= i < |hs| ==> ParamsDiffer(hs[i].params)
    ensures NameOf(hs) == Some(v) <==> exists i, k :: NamedBy(hs, v, i, k)
  {
    hide IsDisposition, NameIn, HttpSyntax.Lowered, ParamsDiffer;
    if hs != [] {
      var n := |hs| - 1;
      forall i | 0 <= i <= n ensures IsDisposition(hs[i]) <==> HttpSyntax.Lowered(hs[i].key) == "content-disposition" {
        DispositionExactly(hs[i]);
      }
      if IsDisposition(hs[n]) {
        NameInExactly(hs[n].params, v);
        forall k | 0 <= k < |hs[n].params| && hs[n].params[k].name == "name" && hs[n].params[k].value == v
          ensures NamedBy(hs, v, n, k) {
        }
      } else {
        NameExactly(hs[..n], v);
        forall i, k | NamedBy(hs, v, i, k) ensures NamedBy(hs[..n], v, i, k) {
        }
        forall i, k | NamedBy(hs[..n], v, i, k) ensures NamedBy(hs, v, i, k) {
        }
      }
    }
  }
}
