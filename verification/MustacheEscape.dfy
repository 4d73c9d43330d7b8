/** What escaping, the sigils and the sections of templates mean, apart from the code that does it. */
module MustacheEscape {
  import opened Basics
  import opened JsonDump
  import opened MustacheTemplate
  import opened MustacheParser
  import opened MustacheRender

  // ---------------------------------------------------------------- character references

  function HexDigit(c: char): Option<nat> {
    if '0' <= c <= '9' then Some(c as int - 48)
    else if 'A' <= c <= 'F' then Some(c as int - 65 + 10)
    else if 'a' <= c <= 'f' then Some(c as int - 97 + 10)
    else None
  }

  function HexNumber(s: string): Option<nat> {
    if s == "" then Some(0)
    else
      var r, d := HexNumber(s[..|s| - 1]), HexDigit(s[|s| - 1]);
      if r.Some? && d.Some? then Some(r.value * 16 + d.value) else None
  }

  /** The character that a reference names, by number or by name. */
  function Named(name: string): Option<char> {
    if name == "amp" then Some('&')
    else if name == "lt" then Some('<')
    else if name == "gt" then Some('>')
    else if name == "quot" then Some('"')
    else if |name| > 2 && name[..2] == "#x" then
      match HexNumber(name[2..])
      case None => None
      case Some(n) => if n < 128 then Some(n as char) else None
    else if |name| > 1 && name[0] == '#' && (forall i :: 1 <= i < |name| ==> IsNum(name[i])) then
      var n := DecimalValue(name[1..]);
      if n < 128 then Some(n as char) else None
    else None
  }

  function Semicolon(s: string): (n: nat)
    ensures n <= |s| && (n < |s| ==> s[n] == ';') && forall i :: 0 <= i < n ==> s[i] != ';'
  {
    if s == "" || s[0] == ';' then 0 else 1 + Semicolon(s[1..])
  }

  /** Read a text with character references; nothing if an ampersand begins none. */
  function Reading(s: string): Option<string> {
    if s == "" then Some("")
    else if s[0] != '&' then
      match Reading(s[1..]) case None => None case Some(t) => Some([s[0]] + t)
    else
      var n := Semicolon(s);
      if n == |s| then None
      else
        match Named(s[1..n])
        case None => None
        case Some(c) => match Reading(s[n + 1..]) case None => None case Some(t) => Some([c] + t)
  }

  /** Nothing that could end a tag, an attribute or a text. */
  predicate Harmless(s: string) {
    forall i :: 0 <= i < |s| ==> s[i] !in "<>\"'/`="
  }

  lemma Plus(a: string, n: nat)
    requires n < |a| && a[n] == ';' && forall i :: 0 <= i < n ==> a[i] != ';'
    ensures Semicolon(a) == n
  {
  }

  lemma ReferenceRead(name: string, c: char, rest: string)
    requires Named(name) == Some(c) && ';' !in name
    ensures Reading("&" + name + ";" + rest) ==
            match Reading(rest) case None => None case Some(t) => Some([c] + t)
  {
    hide Named;
    var s := "&" + name + ";" + rest;
    var n := |name| + 1;
    forall i | 0 <= i < n ensures s[i] != ';' {
      assert i > 0 ==> s[i] == name[i - 1];
    }
    Plus(s, n);
    assert s[1..n] == name && s[n + 1..] == rest;
  }

  lemma References()
    ensures Named("amp") == Some('&') && Named("lt") == Some('<') && Named("gt") == Some('>')
    ensures Named("quot") == Some('"') && Named("#39") == Some('\'')
    ensures Named("#x2F") == Some('/') && Named("#x60") == Some('`') && Named("#x3D") == Some('=')
  {
    assert "#39"[1..] == "39" && "39"[..1] == "3" && "3"[..0] == "";
    assert DecimalValue("3") == 3 && DecimalValue("39") == 39;
    TwoHex("#x2F", '2', 'F');
    TwoHex("#x60", '6', '0');
    TwoHex("#x3D", '3', 'D');
  }

  lemma TwoHex(name: string, a: char, b: char)
    requires name == "#x" + [a, b] && HexDigit(a).Some? && HexDigit(b).Some?
    ensures name[2..] == [a, b] && HexNumber([a, b]) == Some(HexDigit(a).value * 16 + HexDigit(b).value)
  {
    assert [a, b][..1] == [a] && [a][..0] == "";
    assert HexNumber("") == Some(0) && HexNumber([a]) == HexDigit(a);
  }

  lemma CharHarmless(c: char)
    ensures Harmless(HtmlChar(c))
  {
  }

  /** The reference for a character, if it has one. */
  lemma CharForm(c: char) returns (name: string)
    ensures if c in "&<>\"'/`=" then HtmlChar(c) == "&" + name + ";" && Named(name) == Some(c) && ';' !in name
            else HtmlChar(c) == [c]
  {
    References();
    hide Named;
    name := if c == '&' then "amp" else if c == '<' then "lt" else if c == '>' then "gt" else if c == '"' then "quot"
            else if c == '\'' then "#39" else if c == '/' then "#x2F" else if c == '`' then "#x60" else "#x3D";
  }

  /** Each character is read back, whatever follows. */
  lemma CharRead(c: char, rest: string)
    ensures Reading(HtmlChar(c) + rest) == match Reading(rest) case None => None case Some(t) => Some([c] + t)
  {
    hide HtmlChar, Named, Semicolon;
    var name := CharForm(c);
    if c in "&<>\"'/`=" {
      ReferenceRead(name, c, rest);
    } else {
      assert ([c] + rest)[1..] == rest && c != '&';
    }
  }

  lemma {:induction false} EscapeFront(s: string)
    requires s != ""
    ensures HtmlEscape(s) == HtmlChar(s[0]) + HtmlEscape(s[1..])
  {
    hide HtmlChar;
    var k := |s| - 1;
    if k == 0 {
      assert s[..0] == "" && HtmlEscape(s[1..]) == "" && HtmlEscape("") == "";
      assert "" + HtmlChar(s[0]) == HtmlChar(s[0]) + "";
    } else {
      EscapeFront(s[..k]);
      assert s[..k][1..] == s[1..][..k - 1] && s[1..][k - 1] == s[k];
    }
  }

  /** For every text: the escaped text holds none of the dangerous characters, every ampersand in it
      begins a reference, and reading the references gives the text back. */
  lemma {:induction false} EscapeRead(s: string)
    ensures Reading(HtmlEscape(s)) == Some(s) && Harmless(HtmlEscape(s))
  {
    hide HtmlChar, Reading;
    if s == "" {
      NothingRead();
    } else {
      EscapeFront(s);
      EscapeRead(s[1..]);
      CharRead(s[0], HtmlEscape(s[1..]));
      CharHarmless(s[0]);
      assert [s[0]] + s[1..] == s;
    }
  }

  lemma NothingRead()
    ensures Reading("") == Some("")
  {
  }

  // ---------------------------------------------------------------- tags

  /** What a value puts into the output: a string as itself, harmless unless it is asked for unescaped,
      a number in decimal, a missing value nothing; anything else cannot stand in a tag. */
  lemma TagExactly(v: Option<WValue>)
    ensures v.None? ==> TagText(v, true) == TagText(v, false) == Some("")
    ensures v.Some? && v.value.WString? ==>
              && TagText(v, false) == Some(v.value.s)
              && TagText(v, true).Some? && Reading(TagText(v, true).value) == Some(v.value.s)
              && Harmless(TagText(v, true).value)
    ensures v.Some? && v.value.WSigned? ==> TagText(v, true) == TagText(v, false) == Some(IntText(v.value.i))
    ensures v.Some? && v.value.WUnsigned? ==> TagText(v, true) == TagText(v, false) == Some(NatText(v.value.u))
    ensures v.Some? && !v.value.WString? && !v.value.WSigned? && !v.value.WUnsigned? ==>
              TagText(v, true).None? && TagText(v, false).None?
  {
    hide HtmlEscape, Reading, Harmless;
    if v.Some? && v.value.WString? {
      EscapeRead(v.value.s);
    }
  }

  /** A tag on its own: the text in front of it, and behind that what the tag puts out.  A string comes out
      harmless and readable, or as itself if asked for unescaped; a comment puts out nothing. */
  lemma LeafExactly(t: Template, env: Env, n: Node, at: nat, stack: seq<WValue>)
    requires InBody(t) && NodeStands(t.fragments, t.actions, n, at) && n.Leaf?
    ensures var v := env.find(NameOf(t.body, n.action), stack, InsideObject(t.actions, at, stack));
            var text := Slice(t, n.text);
            var r := RenderNode(t, env, n, at, stack);
            match n.action.t
            case Tag =>
              v.Some? && v.value.WString? ==>
                r.Some? && text <= r.value && Harmless(r.value[|text|..])
                && Reading(r.value[|text|..]) == Some(v.value.s)
            case UnescapeTag => v.Some? && v.value.WString? ==> r == Some(text + v.value.s)
            case Partial => r == Cat(Some(text), env.partial(NameOf(t.body, n.action), stack))
            case _ => r == Some(text)
  {
    hide TagText, Slice, InsideObject, Harmless, Reading;
    var v := env.find(NameOf(t.body, n.action), stack, InsideObject(t.actions, at, stack));
    TagExactly(v);
    var text := Slice(t, n.text);
    assert text + "" == text;
    if TagText(v, true).Some? {
      assert (text + TagText(v, true).value)[|text|..] == TagText(v, true).value;
    }
  }

  // ---------------------------------------------------------------- sections

  /** No value, false, null and the empty list do not let a section show. */
  predicate Falsy(v: Option<WValue>) {
    v == None || v == Some(WNull) || v == Some(WFalse) || v == Some(WList([]))
  }

  /** A section shows nothing for a falsy value, its body once per item of a list, each on the stack,
      and otherwise once with the value on the stack; an inverted section shows its body exactly where a
      section shows nothing. */
  lemma SectionExactly(t: Template, env: Env, n: Node, at: nat, stack: seq<WValue>)
    requires InBody(t) && NodeStands(t.fragments, t.actions, n, at) && n.Block?
    ensures var v := env.find(NameOf(t.body, n.open), stack, false);
            var text := Some(Slice(t, n.text));
            RenderNode(t, env, n, at, stack) ==
            Cat(text,
                if n.open.t.OpenBlock? then
                  if Falsy(v) then Some("")
                  else if v.value.WList? then RenderEach(t, env, n, at, v.value.items, stack)
                  else RenderEach(t, env, n, at, [v.value], stack)
                else if Falsy(v) then RenderEach(t, env, n, at, [WNull], stack)
                else Some(""))
  {
    hide RenderAll, Slice, Cat;
  }

  /** The body of a block for a list of contexts: rendered for each in turn, on top of the stack. */
  lemma {:induction false} EachExactly(t: Template, env: Env, n: Node, at: nat, cs: seq<WValue>, stack: seq<WValue>)
    requires InBody(t) && NodeStands(t.fragments, t.actions, n, at) && n.Block? && cs != []
    ensures var first := Cat(RenderAll(t, env, n.items, at + 1, stack + [cs[0]]), Some(Slice(t, n.tail)));
            RenderEach(t, env, n, at, cs, stack) == Cat(first, RenderEach(t, env, n, at, cs[1..], stack))
    decreases |cs|
  {
    hide RenderAll, Slice, InBody;
    var k := |cs| - 1;
    var last := Cat(RenderAll(t, env, n.items, at + 1, stack + [cs[k]]), Some(Slice(t, n.tail)));
    if k == 0 {
      assert cs[..0] == [] && cs[1..] == [];
      CatEnds(last);
    } else {
      EachExactly(t, env, n, at, cs[..k], stack);
      assert cs[..k][1..] == cs[1..][..k - 1] && cs[1..][k - 1] == cs[k] && cs[..k][0] == cs[0];
      CatJoin(Cat(RenderAll(t, env, n.items, at + 1, stack + [cs[0]]), Some(Slice(t, n.tail))),
              RenderEach(t, env, n, at, cs[1..][..k - 1], stack), last);
    }
  }

  lemma CatEnds(a: Option<string>)
    ensures Cat(Some(""), a) == a == Cat(a, Some(""))
  {
    if a.Some? {
      assert "" + a.value == a.value == a.value + "";
    }
  }

  lemma CatJoin(a: Option<string>, b: Option<string>, c: Option<string>)
    ensures Cat(Cat(a, b), c) == Cat(a, Cat(b, c))
  {
    if a.Some? && b.Some? && c.Some? {
      assert a.value + b.value + c.value == a.value + (b.value + c.value);
    }
  }

  // ---------------------------------------------------------------- text

  /** The fragments stand one behind the other. */
  predicate InOrder(t: Template) {
    && (forall i :: 0 <= i < |t.fragments| ==> t.fragments[i].first <= t.fragments[i].second <= |t.body|)
    && (forall i :: 0 < i < |t.fragments| ==> t.fragments[i - 1].second <= t.fragments[i].first)
  }

  /** The text up to fragment number `k`: fragments and the tags between them. */
  function Rejoin(t: Template, k: nat): string
    requires InBody(t) && InOrder(t) && k < |t.fragments|
  {
    if k == 0 then ""
    else
      Rejoin(t, k - 1) + Slice(t, t.fragments[k - 1]) + t.body[t.fragments[k - 1].second..t.fragments[k].first]
  }

  lemma FragmentsInOrder(t: Template)
    requires InBody(t) && Tiled(t)
    ensures InOrder(t)
  {
    hide Tiled;
    forall i | 0 < i < |t.fragments| ensures t.fragments[i - 1].second <= t.fragments[i].first {
      TagBetween(t, i - 1);
    }
  }

  lemma TagBetween(t: Template, i: nat)
    requires Tiled(t) && i + 1 < |t.fragments|
    ensures t.fragments[i].first <= t.fragments[i].second < t.fragments[i + 1].first <= |t.body|
  {
    var n := |t.actions| - 1;
    assert t.fragments[..n][i] == t.fragments[i] && t.actions[..n][i] == t.actions[i];
    assert IsTag(t.body, t.fragments[i].second, t.actions[i],
                 TextStart(t.fragments[..n], i + 1, t.fragments[n].first));
  }

  lemma {:induction false} RejoinedTo(t: Template, k: nat)
    requires InBody(t) && InOrder(t) && k < |t.fragments| && t.fragments[0].first == 0
    ensures t.fragments[k].first <= |t.body| && Rejoin(t, k) == t.body[..t.fragments[k].first]
  {
    hide InBody, Slice, InOrder;
    if k > 0 {
      RejoinedTo(t, k - 1);
      SliceIs(t, k - 1);
      Ordered(t, k);
      ThreeParts(t.body, t.fragments[k - 1].first, t.fragments[k - 1].second, t.fragments[k].first);
    }
  }

  lemma Ordered(t: Template, k: nat)
    requires InOrder(t) && 0 < k < |t.fragments|
    ensures t.fragments[k - 1].first <= t.fragments[k - 1].second <= t.fragments[k].first <= |t.body|
  {
  }

  lemma ThreeParts(s: string, a: nat, b: nat, c: nat)
    requires a <= b <= c <= |s|
    ensures s[..a] + s[a..b] + s[b..c] == s[..c]
  {
  }

  /** The texts that are put out between the tags and the tags themselves, in order, are the template. */
  lemma Rejoined(t: Template)
    requires InBody(t) && Tiled(t)
    ensures InOrder(t) && t.fragments != []
    ensures var n := |t.fragments| - 1; Rejoin(t, n) + Slice(t, t.fragments[n]) == t.body
  {
    hide Rejoin, Tiled, InBody, Slice, InOrder;
    var n := |t.fragments| - 1;
    FragmentsInOrder(t);
    BodyBegins(t);
    BodyEnds(t);
    RejoinedTo(t, n);
    SliceIs(t, n);
  }

  lemma SliceIs(t: Template, k: nat)
    requires InBody(t) && k < |t.fragments|
    ensures t.fragments[k].first <= t.fragments[k].second <= |t.body|
    ensures Slice(t, t.fragments[k]) == t.body[t.fragments[k].first..t.fragments[k].second]
  {
  }

  lemma BodyBegins(t: Template)
    requires Tiled(t)
    ensures t.fragments[0].first == 0
  {
    hide Tiles;
    var n := |t.actions| - 1;
    StartsAtZero(t.body, t.fragments[..n], t.actions[..n], t.fragments[n].first);
  }

  lemma StartsAtZero(body: string, fs: seq<Fragment>, acts: seq<Action>, current: nat)
    requires Tiles(body, fs, acts, current)
    ensures TextStart(fs, 0, current) == 0
  {
  }

  lemma BodyEnds(t: Template)
    requires Tiled(t)
    ensures |t.fragments| > 0 && t.fragments[|t.fragments| - 1].second == |t.body|
  {
    hide Tiles;
  }
}
