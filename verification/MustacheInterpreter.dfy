/** The rendering loop: one current action, one shared stack of contexts, one growing output. */
module MustacheInterpreter {
  import opened Basics
  import opened JsonDump
  import opened MustacheTemplate
  import opened MustacheRender
  import opened MustacheParser

  lemma BeforeBefore(a: string, b: string, r: Run)
    ensures Before(Some(a), Before(Some(b), r)) == Before(Some(a + b), r)
  {
    BeforeCat(Some(a), Some(b), r);
  }

  lemma EscapeNothing()
    ensures HtmlEscape("") == ""
  {
  }

  lemma EscapeSnoc(s: string, i: nat)
    requires i < |s|
    ensures HtmlEscape(s[..i + 1]) == HtmlEscape(s[..i]) + HtmlChar(s[i])
  {
    hide HtmlChar;
    assert s[..i + 1][..i] == s[..i];
  }

  /** What one action does to the rest of the interpretation. */
  lemma StepMeans(t: Template, env: Env, current: nat, end: nat, stack: seq<WValue>)
    requires InBody(t) && Nested(t.actions, current, end) && current < end
    ensures Nested(t.actions, current + 1, end)
    ensures var a := t.actions[current];
            var text := Some(Text(t, current));
            var r := Interpret(t, env, current, end, stack);
            if a.t.CloseBlock? then
              r == if stack == []
                  then Threw else Before(text, Interpret(t, env, current + 1, end, stack[..|stack| - 1]))
            else if Opens(a.t) then
              && current < a.pos < end && Nested(t.actions, a.pos + 1, end) && Nested(t.actions, current + 1, a.pos)
              && var v := env.find(Name(t, current), stack, false);
              if a.t.OpenBlock? && v.Some? && v.value.WList? then
                match InterpretEach(t, env, current, end, v.value.items, stack)
                case Threw => r.Threw?
                case Done(s, st) => r == Before(text, Before(Some(s), Interpret(t, env, a.pos + 1, end, st)))
              else if Contexts(a.t, v) == [] then r == Before(text, Interpret(t, env, a.pos + 1, end, stack))
              else r == Before(text, Interpret(t, env, current + 1, end, stack + Contexts(a.t, v)))
            else
              r == Before(text, Before(LeafText(t, env, a, current, stack), Interpret(t, env, current + 1, end, stack)))
  {
    hide LeafText;
  }

  class Renderer {
    const template: Template
    const env: Env
    var stack: seq<WValue>
    var out: string

    constructor (template: Template, env: Env, context: WValue)
      ensures this.template == template && this.env == env && stack == [context] && out == ""
    {
      this.template, this.env, stack, out := template, env, [context], "";
    }

    /** `isTagInsideObjectBlock`. */
    method IsTagInsideObjectBlock(current: nat) returns (inside: bool)
      requires current <= |template.actions|
      ensures inside == InsideObject(template.actions, current, stack)
    {
      var isObject := stack != [] && stack[|stack| - 1].WObject?;
      if stack == [] {
        return false;
      }
      var openedBlock, i := 0, current;
      while i > 0
        invariant 0 <= i <= current
        invariant ScanBack(template.actions, current, 0, isObject) ==
                  ScanBack(template.actions, i, openedBlock, isObject)
      {
        var t := template.actions[i - 1].t;
        if t.OpenBlock? {
          if openedBlock == 0 && isObject {
            return true;
          }
          openedBlock := openedBlock - 1;
        } else if t.CloseBlock? {
          openedBlock := openedBlock + 1;
        }
        i := i - 1;
      }
      inside := false;
    }

    /** Append a text with its HTML characters escaped. */
    method Escape(s: string)
      modifies `out
      ensures out == old(out) + HtmlEscape(s)
    {
      hide HtmlEscape, HtmlChar;
      EscapeNothing();
      assert s[..0] == "";
      var i := 0;
      while i < |s|
        invariant i <= |s| && out == old(out) + HtmlEscape(s[..i])
      {
        out := out + HtmlChar(s[i]);
        EscapeSnoc(s, i);
        assert old(out) + HtmlEscape(s[..i]) + HtmlChar(s[i]) == old(out) + (HtmlEscape(s[..i]) + HtmlChar(s[i]));
        i := i + 1;
      }
      assert s[..i] == s;
    }

    /** Tags, partials and comments; false is an exception. */
    method RenderLeaf(current: nat) returns (ok: bool)
      requires InBody(template) && current < |template.actions|
      requires !Opens(template.actions[current].t) && !template.actions[current].t.CloseBlock?
      modifies `out
      ensures match LeafText(template, env, template.actions[current], current, stack)
              case None => !ok
              case Some(s) => ok && out == old(out) + s
    {
      hide HtmlEscape, Dump;
      var a := template.actions[current];
      var name := Name(template, current);
      ok := true;
      if a.t.Ignore? {
        assert out + "" == out;
      } else if a.t.Partial? {
        var text := env.partial(name, stack);
        if text.None? {
          return false;
        }
        out := out + text.value;
      } else {
        var inside := IsTagInsideObjectBlock(current);
        var v := env.find(name, stack, inside);
        if v.None? {
          assert out + "" == out;
        } else if v.value.WSigned? || v.value.WUnsigned? {
          out := out + Dump(v.value);
        } else if v.value.WString? {
          if a.t.Tag? {
            Escape(v.value.s);
          } else {
            out := out + v.value.s;
          }
        } else {
          return false;
        }
      }
    }

    /** The inside of a list block, once per item; the block opens at `current`. */
    method RenderItems(current: nat, ghost end: nat, items: seq<WValue>) returns (ok: bool)
      requires InBody(template) && Nested(template.actions, current, end) && current < end
      requires Opens(template.actions[current].t)
      modifies this
      ensures match InterpretEach(template, env, current, end, items, old(stack))
              case Threw => !ok
              case Done(s, st) => ok && out == old(out) + s && stack == st
      decreases end - current, 0
    {
      hide Interpret, InBody;
      var i := 0;
      assert items[..0] == [];
      assert out + "" == out;
      while i < |items|
        invariant i <= |items|
        invariant var r := InterpretEach(template, env, current, end, items[..i], old(stack));
                  r.Done? && out == old(out) + r.out && stack == r.stack
      {
        EachSnoc(template, env, current, end, items, i, old(stack));
        ghost var before := out;
        stack := stack + [items[i]];
        ok := RenderInternal(current + 1, template.actions[current].pos);
        if !ok || stack == [] {
          EachThrew(template, env, current, end, items, i + 1, old(stack));
          return false;
        }
        stack := stack[..|stack| - 1];
        i := i + 1;
      }
      assert items[..i] == items;
      ok := true;
    }

    /** One turn of the rendering loop. */
    method Step(current: nat, end: nat) returns (ok: bool, next: nat, ghost put: string)
      requires InBody(template) && Nested(template.actions, current, end) && current < end
      modifies this
      ensures ok ==> current < next <= end && Nested(template.actions, next, end) && out == old(out) + put
      ensures ok ==> Interpret(template, env, current, end, old(stack)) ==
                     Before(Some(put), Interpret(template, env, next, end, stack))
      ensures !ok ==> Interpret(template, env, current, end, old(stack)).Threw?
      decreases end - current, 1
    {
      hide Interpret, InterpretEach, LeafText, InBody, Nested, Before;
      NestedBounds(template.actions, current, end);
      NameInBody(template, current);
      StepMeans(template, env, current, end, stack);
      ThrewBefore();
      var a := template.actions[current];
      put := Text(template, current);
      out := out + Text(template, current);
      ok, next := true, current + 1;
      if a.t.CloseBlock? {
        if stack == [] {
          return false, next, put;
        }
        stack := stack[..|stack| - 1];
      } else if Opens(a.t) {
        var v := env.find(Name(template, current), stack, false);
        if a.t.OpenBlock? && v.Some? && v.value.WList? {
          ghost var r := InterpretEach(template, env, current, end, v.value.items, stack);
          ok := RenderItems(current, end, v.value.items);
          next := a.pos + 1;
          if ok {
            BeforeBefore(put, r.out, Interpret(template, env, next, end, stack));
            put := put + r.out;
          }
        } else if Contexts(a.t, v) == [] {
          next := a.pos + 1;
        } else {
          stack := stack + Contexts(a.t, v);
        }
      } else {
        ghost var text := LeafText(template, env, a, current, stack);
        ok := RenderLeaf(current);
        if ok {
          BeforeBefore(put, text.value, Interpret(template, env, next, end, stack));
          put := put + text.value;
        }
      }
    }

    /** `render_internal`: false is an exception. */
    method RenderInternal(begin: nat, end: nat) returns (ok: bool)
      requires InBody(template) && Nested(template.actions, begin, end)
      modifies this
      ensures match Interpret(template, env, begin, end, old(stack))
              case Threw => !ok
              case Done(s, st) => ok && out == old(out) + s && stack == st
      decreases end - begin, 2
    {
      hide Interpret, Before, InBody, Nested;
      ghost var put := "";
      var current := begin;
      NestedBounds(template.actions, begin, end);
      BeforeNothing(Interpret(template, env, begin, end, stack));
      while current < end
        invariant begin <= current <= end && Nested(template.actions, current, end) && out == old(out) + put
        invariant Interpret(template, env, begin, end, old(stack)) ==
                  Before(Some(put), Interpret(template, env, current, end, stack))
      {
        ghost var more;
        ThrewBefore();
        ok, current, more := Step(current, end);
        if !ok {
          return;
        }
        BeforeBefore(put, more, Interpret(template, env, current, end, stack));
        put := put + more;
      }
      EndMeans(template, env, end, put, stack);
      out := out + Text(template, end);
      ok := true;
    }

    /** `render` of a template with its block tree. */
    method Render(ghost ns: seq<Node>) returns (ok: bool)
      requires InBody(template) && Stands(template.fragments, template.actions, ns, 0)
      requires SizeAll(ns) + 1 == |template.actions|
      modifies this
      ensures match RenderTree(template, env, ns, old(stack))
              case None => !ok
              case Some(s) => ok && out == old(out) + s && stack == old(stack)
    {
      hide RenderTree, Interpret, Stands, InBody, Nested;
      TemplateMeans(template, env, ns, stack);
      ok := RenderInternal(0, |template.actions| - 1);
    }
  }

  lemma NestedBounds(acts: seq<Action>, from: nat, end: nat)
    requires Nested(acts, from, end)
    ensures from <= end < |acts|
  {
  }

  lemma NameInBody(t: Template, i: nat)
    requires InBody(t) && i < |t.actions|
    ensures ActionFits(t.body, t.actions[i])
  {
  }

  lemma ThrewBefore()
    ensures forall a: Option<string> :: Before(a, Threw) == Threw
    ensures forall r: Run :: Before(None, r) == Threw
  {
  }

  lemma EndMeans(t: Template, env: Env, end: nat, put: string, stack: seq<WValue>)
    requires InBody(t) && end < |t.actions|
    ensures Nested(t.actions, end, end) && end < |t.fragments|
    ensures Before(Some(put), Interpret(t, env, end, end, stack)) == Done(put + Text(t, end), stack)
  {
  }

  lemma EachSnoc(t: Template, env: Env, current: nat, end: nat, items: seq<WValue>, i: nat, stack: seq<WValue>)
    requires InBody(t) && Nested(t.actions, current, end) && current < end && Opens(t.actions[current].t) && i < |items|
    requires InterpretEach(t, env, current, end, items[..i], stack).Done?
    ensures Nested(t.actions, current + 1, t.actions[current].pos)
    ensures var r := InterpretEach(t, env, current, end, items[..i], stack);
            var inner := Interpret(t, env, current + 1, t.actions[current].pos, r.stack + [items[i]]);
            InterpretEach(t, env, current, end, items[..i + 1], stack) ==
            if inner.Threw? || inner.stack == []
                then Threw else Done(r.out + inner.out, inner.stack[..|inner.stack| - 1])
  {
    hide Interpret;
    assert items[..i + 1][..i] == items[..i];
  }

  lemma {:induction false} EachThrew(t: Template, env: Env, current: nat, end: nat, items: seq<WValue>, i: nat,
                                     stack: seq<WValue>)
    requires InBody(t) && Nested(t.actions, current, end) && current < end && Opens(t.actions[current].t)
             && i <= |items|
    requires InterpretEach(t, env, current, end, items[..i], stack).Threw?
    ensures InterpretEach(t, env, current, end, items, stack).Threw?
    decreases |items|
  {
    hide Interpret;
    if i < |items| {
      assert items[..|items| - 1][..i] == items[..i];
      EachThrew(t, env, current, end, items[..|items| - 1], i, stack);
    } else {
      assert items[..i] == items;
    }
  }

  /** Compile a body and render it with one context: a body whose blocks are all closed under their
      names puts out what recursion over its block tree puts out. */
  method RenderBody(body: string, env: Env, context: WValue)
    returns (out: Option<string>, c: Compiled, ghost ns: seq<Node>)
    ensures RightlyCompiled(body, c) && (out.Some? ==> c.Compiled?)
    ensures c.Compiled? ==> IsTreeOf(c.t, ns) && out == RenderTree(c.t, env, ns, [context])
  {
    hide RenderTree, Stands, InBody, Tiled, WellNamed;
    c, ns := Compile(body);
    if c.Compiled? {
      var renderer := new Renderer(c.t, env, context);
      var ok := renderer.Render(ns);
      ghost var r := RenderTree(c.t, env, ns, [context]);
      assert r.Some? ==> "" + r.value == r.value;
      out := if ok then Some(renderer.out) else None;
    } else {
      out := None;
    }
  }
}
