/** Rendering: the interpreter on the flat list of actions means what recursion over the tree of
    blocks means, and leaves the stack of contexts as it found it. */
module MustacheRender {
  import opened Basics
  import opened JsonDump
  import opened MustacheTemplate

  /** What the interpreter calls: the lookup of a name in the stack of contexts (the flag keeps a
      dotted name from being looked for further down), and the rendering of a partial. */
  datatype Env = Env(
    find: (string, seq<WValue>, bool) -> Option<WValue>,
    partial: (string, seq<WValue>) -> Option<string>)

  // ---------------------------------------------------------------- tags

  function HtmlChar(c: char): string {
    if c == '&' then "&amp;"
    else if c == '<' then "&lt;"
    else if c == '>' then "&gt;"
    else if c == '"' then "&quot;"
    else if c == '\'' then "&#39;"
    else if c == '/' then "&#x2F;"
    else if c == '`' then "&#x60;"
    else if c == '=' then "&#x3D;"
    else [c]
  }

  function HtmlEscape(s: string): string {
    if s == "" then "" else HtmlEscape(s[..|s| - 1]) + HtmlChar(s[|s| - 1])
  }

  /** The scan back over the actions before a tag: does it stand in a block that pushed an object? */
  function ScanBack(acts: seq<Action>, i: nat, depth: int, isObject: bool): bool
    requires i <= |acts|
  {
    if i == 0 then false
    else if acts[i - 1].t.OpenBlock? then
      (depth == 0 && isObject) || ScanBack(acts, i - 1, depth - 1, isObject)
    else if acts[i - 1].t.CloseBlock? then ScanBack(acts, i - 1, depth + 1, isObject)
    else ScanBack(acts, i - 1, depth, isObject)
  }

  function InsideObject(acts: seq<Action>, current: nat, stack: seq<WValue>): bool
    requires current <= |acts|
  {
    stack != [] && ScanBack(acts, current, 0, stack[|stack| - 1].WObject?)
  }

  /** A value in a tag; None if it cannot stand there. */
  function TagText(v: Option<WValue>, escaped: bool): Option<string> {
    match v
    case None => Some("")
    case Some(WSigned(_)) => Some(Dump(v.value))
    case Some(WUnsigned(_)) => Some(Dump(v.value))
    case Some(WString(s)) => Some(if escaped then HtmlEscape(s) else s)
    case Some(_) => None
  }

  /** Output of an action that neither opens nor closes a block. */
  function LeafText(t: Template, env: Env, action: Action, at: nat, stack: seq<WValue>): Option<string>
    requires InBody(t) && at < |t.actions| && ActionFits(t.body, action)
  {
    var name := NameOf(t.body, action);
    match action.t
    case Tag => TagText(env.find(name, stack, InsideObject(t.actions, at, stack)), true)
    case UnescapeTag => TagText(env.find(name, stack, InsideObject(t.actions, at, stack)), false)
    case Partial => env.partial(name, stack)
    case _ => Some("")
  }

  /** What a block does with what it finds: once for each of these contexts. */
  function Contexts(t: ActionType, v: Option<WValue>): seq<WValue>
    requires Opens(t)
  {
    if t.OpenBlock? then
      match v
      case None => []
      case Some(WList(items)) => items
      case Some(WFalse) => []
      case Some(WNull) => []
      case Some(w) => [w]
    else
      match v
      case None => [WNull]
      case Some(WList(items)) => if items == [] then [WNull] else []
      case Some(WFalse) => [WNull]
      case Some(WNull) => [WNull]
      case Some(_) => []
  }

  // ---------------------------------------------------------------- recursion over the tree

  function Cat(a: Option<string>, b: Option<string>): Option<string> {
    if a.Some? && b.Some? then Some(a.value + b.value) else None
  }

  function Slice(t: Template, f: Fragment): string
    requires InBody(t)
  {
    if f.first <= f.second <= |t.body| then t.body[f.first..f.second] else ""
  }

  function RenderNode(t: Template, env: Env, n: Node, at: nat, stack: seq<WValue>): Option<string>
    requires InBody(t) && NodeStands(t.fragments, t.actions, n, at)
    decreases n, 1, 0
  {
    Cat(Some(Slice(t, n.text)),
        match n
        case Leaf(_, action) => LeafText(t, env, action, at, stack)
        case Block(_, open, items, tail, _) =>
          var v := env.find(NameOf(t.body, open), stack, false);
          RenderEach(t, env, n, at, Contexts(open.t, v), stack))
  }

  /** The inside of a block once for each of the contexts, each pushed on the stack. */
  function RenderEach(t: Template, env: Env, n: Node, at: nat, cs: seq<WValue>, stack: seq<WValue>): Option<string>
    requires InBody(t) && NodeStands(t.fragments, t.actions, n, at) && n.Block?
    decreases n, 0, |cs|
  {
    if cs == [] then Some("")
    else
      var k := |cs| - 1;
      Cat(RenderEach(t, env, n, at, cs[..k], stack),
          Cat(RenderAll(t, env, n.items, at + 1, stack + [cs[k]]), Some(Slice(t, n.tail))))
  }

  function RenderAll(t: Template, env: Env, ns: seq<Node>, at: nat, stack: seq<WValue>): Option<string>
    requires InBody(t) && Stands(t.fragments, t.actions, ns, at)
    decreases ns
  {
    if ns == [] then Some("")
    else
      var k := |ns| - 1;
      Cat(RenderAll(t, env, ns[..k], at, stack), RenderNode(t, env, ns[k], at + SizeAll(ns[..k]), stack))
  }

  /** A whole template. */
  function RenderTree(t: Template, env: Env, ns: seq<Node>, stack: seq<WValue>): Option<string>
    requires InBody(t) && Stands(t.fragments, t.actions, ns, 0) && SizeAll(ns) + 1 == |t.actions|
  {
    Cat(RenderAll(t, env, ns, 0, stack), Some(Slice(t, t.fragments[|t.fragments| - 1])))
  }

  // ---------------------------------------------------------------- the flat interpreter

  datatype Run = Threw | Done(out: string, stack: seq<WValue>)

  function Before(s: Option<string>, r: Run): Run {
    if s.Some? && r.Done? then Done(s.value + r.out, r.stack) else Threw
  }

  /** `render_internal` from action `current` to action `end`. */
  function Interpret(t: Template, env: Env, current: nat, end: nat, stack: seq<WValue>): Run
    requires InBody(t) && Nested(t.actions, current, end)
    decreases end - current, 1, 0
  {
    if current == end then Done(Text(t, end), stack)
    else
      var a := t.actions[current];
      Before(Some(Text(t, current)),
             if a.t.CloseBlock? then
               if stack == [] then Threw else Interpret(t, env, current + 1, end, stack[..|stack| - 1])
             else if a.t.OpenBlock? then
               var v := env.find(Name(t, current), stack, false);
               if v.Some? && v.value.WList? then
                 var r := InterpretEach(t, env, current, end, v.value.items, stack);
                 if r.Threw? then Threw else Before(Some(r.out), Interpret(t, env, a.pos + 1, end, r.stack))
               else if Contexts(a.t, v) == [] then Interpret(t, env, a.pos + 1, end, stack)
               else Interpret(t, env, current + 1, end, stack + Contexts(a.t, v))
             else if a.t.ElseBlock? then
               var v := env.find(Name(t, current), stack, false);
               if Contexts(a.t, v) == [] then Interpret(t, env, a.pos + 1, end, stack)
               else Interpret(t, env, current + 1, end, stack + [WNull])
             else
               Before(LeafText(t, env, a, current, stack), Interpret(t, env, current + 1, end, stack)))
  }

  /** The loop over the items of a list. */
  function InterpretEach(t: Template, env: Env, current: nat, end: nat, items: seq<WValue>, stack: seq<WValue>): Run
    requires InBody(t) && Nested(t.actions, current, end) && current < end && Opens(t.actions[current].t)
    decreases end - current, 0, |items|
  {
    if items == [] then Done("", stack)
    else
      var k := |items| - 1;
      var r := InterpretEach(t, env, current, end, items[..k], stack);
      if r.Threw? then Threw
      else
        var inner := Interpret(t, env, current + 1, t.actions[current].pos, r.stack + [items[k]]);
        if inner.Threw? || inner.stack == [] then Threw
        else Done(r.out + inner.out, inner.stack[..|inner.stack| - 1])
  }

  // ---------------------------------------------------------------- nesting

  lemma NestedJoin(acts: seq<Action>, a: nat, b: nat, c: nat)
    requires Nested(acts, a, b) && Nested(acts, b, c)
    ensures Nested(acts, a, c)
  {
  }

  /** A list that stands for a tree is properly nested. */
  lemma {:induction false} StandsNested(fs: seq<Fragment>, acts: seq<Action>, ns: seq<Node>, at: nat)
    requires |fs| == |acts| && Stands(fs, acts, ns, at) && at + SizeAll(ns) < |acts|
    ensures Nested(acts, at, at + SizeAll(ns))
    decreases ns
  {
    hide Nested;
    if ns == [] {
      NestedNothing(acts, at);
    } else {
      var k := |ns| - 1;
      var p := at + SizeAll(ns[..k]);
      StandsNested(fs, acts, ns[..k], at);
      NodeNested(fs, acts, ns[k], p);
      NestedJoin(acts, at, p, p + Size(ns[k]));
    }
  }

  lemma NestedNothing(acts: seq<Action>, at: nat)
    requires at < |acts|
    ensures Nested(acts, at, at)
  {
  }

  lemma {:induction false} NodeNested(fs: seq<Fragment>, acts: seq<Action>, n: Node, at: nat)
    requires |fs| == |acts| && NodeStands(fs, acts, n, at) && at + Size(n) < |acts|
    ensures Nested(acts, at, at + Size(n))
    decreases n, 0
  {
    if n.Block? {
      StandsNested(fs, acts, n.items, at + 1);
    }
  }

  // ---------------------------------------------------------------- the same meaning

  lemma BeforeCat(a: Option<string>, b: Option<string>, r: Run)
    ensures Before(a, Before(b, r)) == Before(Cat(a, b), r)
  {
    if a.Some? && b.Some? && r.Done? {
      assert a.value + (b.value + r.out) == a.value + b.value + r.out;
    }
  }

  lemma BeforeNothing(r: Run)
    ensures Before(Some(""), r) == r
  {
    if r.Done? {
      assert "" + r.out == r.out;
    }
  }

  /** Interpreting the actions of a list of nodes is rendering the nodes and going on behind them,
      with the same stack. */
  lemma {:induction false} AllMeans(t: Template, env: Env, ns: seq<Node>, at: nat, end: nat, stack: seq<WValue>)
    requires InBody(t) && Stands(t.fragments, t.actions, ns, at) && Nested(t.actions, at, end)
             && at + SizeAll(ns) <= end
    ensures Nested(t.actions, at + SizeAll(ns), end)
    ensures Interpret(t, env, at, end, stack) ==
            Before(RenderAll(t, env, ns, at, stack), Interpret(t, env, at + SizeAll(ns), end, stack))
    decreases ns
  {
    hide Interpret, RenderNode, Before, Cat, Nested, NodeStands, InBody, Size;
    if ns == [] {
      BeforeNothing(Interpret(t, env, at, end, stack));
    } else {
      var k := |ns| - 1;
      var p := at + SizeAll(ns[..k]);
      AllMeans(t, env, ns[..k], at, end, stack);
      NodeMeans(t, env, ns[k], p, end, stack);
      BeforeCat(RenderAll(t, env, ns[..k], at, stack), RenderNode(t, env, ns[k], p, stack),
                Interpret(t, env, p + Size(ns[k]), end, stack));
    }
  }

  lemma {:induction false} NodeMeans(t: Template, env: Env, n: Node, at: nat, end: nat, stack: seq<WValue>)
    requires InBody(t) && NodeStands(t.fragments, t.actions, n, at) && Nested(t.actions, at, end) && at + Size(n) <= end
    ensures Nested(t.actions, at + Size(n), end)
    ensures Interpret(t, env, at, end, stack) ==
            Before(RenderNode(t, env, n, at, stack), Interpret(t, env, at + Size(n), end, stack))
    decreases n, 2
  {
    match n
    case Leaf(_, action) =>
      LeafMeans(t, env, n, at, end, stack);
    case Block(_, open, items, tail, _) =>
      BlockMeans(t, env, n, at, end, stack);
  }

  lemma LeafMeans(t: Template, env: Env, n: Node, at: nat, end: nat, stack: seq<WValue>)
    requires InBody(t) && NodeStands(t.fragments, t.actions, n, at) && Nested(t.actions, at, end) && at + Size(n) <= end
    requires n.Leaf?
    ensures Interpret(t, env, at, end, stack) ==
            Before(RenderNode(t, env, n, at, stack), Interpret(t, env, at + 1, end, stack))
  {
    hide LeafText, Before, Cat;
    BeforeCat(Some(Slice(t, n.text)), LeafText(t, env, n.action, at, stack), Interpret(t, env, at + 1, end, stack));
  }

  lemma {:induction false} BlockMeans(t: Template, env: Env, n: Node, at: nat, end: nat, stack: seq<WValue>)
    requires InBody(t) && NodeStands(t.fragments, t.actions, n, at) && Nested(t.actions, at, end) && at + Size(n) <= end
    requires n.Block?
    ensures Nested(t.actions, at + Size(n), end)
    ensures Interpret(t, env, at, end, stack) ==
            Before(RenderNode(t, env, n, at, stack), Interpret(t, env, at + Size(n), end, stack))
    decreases n, 1
  {
    hide Before, Cat, Nested, NodeStands, Stands, InBody, SizeAll, InterpretEach, RenderEach;
    BlockFacts(t, n, at, end);
    var v := env.find(Name(t, at), stack, false);
    var cs := Contexts(n.open.t, v);
    var rest := Interpret(t, env, at + Size(n), end, stack);
    BeforeCat(Some(Slice(t, n.text)), RenderEach(t, env, n, at, cs, stack), rest);
    if n.open.t.OpenBlock? && v.Some? && v.value.WList? {
      EachMeans(t, env, n, at, end, cs, stack);
      BeforeDone(RenderEach(t, env, n, at, cs, stack), stack, rest);
    } else if cs == [] {
      NothingEach(t, env, n, at, stack);
      BeforeNothing(rest);
    } else {
      InlineMeans(t, env, n, at, end, cs[0], stack);
    }
  }

  lemma NothingEach(t: Template, env: Env, n: Node, at: nat, stack: seq<WValue>)
    requires InBody(t) && NodeStands(t.fragments, t.actions, n, at) && n.Block?
    ensures RenderEach(t, env, n, at, [], stack) == Some("")
  {
  }

  lemma BeforeDone(a: Option<string>, stack: seq<WValue>, rest: Run)
    ensures var r := Before(a, Done("", stack));
            && (a.None? ==> r.Threw? && Before(a, rest).Threw?)
            && (a.Some? ==> r == Done(a.value, stack))
  {
    if a.Some? {
      assert a.value + "" == a.value;
    }
  }

  lemma CatNothing(b: Option<string>)
    ensures Cat(Some(""), b) == b
  {
    if b.Some? {
      assert "" + b.value == b.value;
    }
  }

  /** A block that pushes one context and goes on inside itself. */
  lemma BlockFacts(t: Template, n: Node, at: nat, end: nat)
    requires InBody(t) && NodeStands(t.fragments, t.actions, n, at) && Nested(t.actions, at, end) && at + Size(n) <= end
    requires n.Block?
    ensures var e := at + 1 + SizeAll(n.items);
            && e + 1 == at + Size(n) && e < end < |t.actions| && Stands(t.fragments, t.actions, n.items, at + 1)
            && Nested(t.actions, at + 1, e) && Nested(t.actions, at + 1, end) && Nested(t.actions, e, end)
            && Nested(t.actions, e + 1, end)
            && t.actions[at] == n.open && n.open.pos == e && Opens(n.open.t) && t.actions[e].t.CloseBlock?
            && Text(t, at) == Slice(t, n.text) && Text(t, e) == Slice(t, n.tail)
  {
  }

  lemma {:induction false} InlineMeans(t: Template, env: Env, n: Node, at: nat, end: nat, c: WValue, stack: seq<WValue>)
    requires InBody(t) && NodeStands(t.fragments, t.actions, n, at) && Nested(t.actions, at, end) && at + Size(n) <= end
    requires n.Block?
    ensures Nested(t.actions, at + Size(n), end)
    ensures Interpret(t, env, at + 1, end, stack + [c]) ==
            Before(RenderEach(t, env, n, at, [c], stack), Interpret(t, env, at + Size(n), end, stack))
    decreases n, 0
  {
    hide Before, Cat, RenderAll, Nested, NodeStands, Stands, InBody, Size, SizeAll;
    var inner := stack + [c];
    var e := at + 1 + SizeAll(n.items);
    BlockFacts(t, n, at, end);
    assert inner[..|inner| - 1] == stack;
    assert [c][..0] == [];
    AllMeans(t, env, n.items, at + 1, end, inner);
    var all := RenderAll(t, env, n.items, at + 1, inner);
    var rest := Interpret(t, env, e + 1, end, stack);
    assert Interpret(t, env, e, end, inner) == Before(Some(Slice(t, n.tail)), rest);
    BeforeCat(all, Some(Slice(t, n.tail)), rest);
    CatNothing(Cat(all, Some(Slice(t, n.tail))));
    assert RenderEach(t, env, n, at, [], stack) == Some("");
  }

  /** A block over a list: its inside is interpreted once per item. */
  lemma {:induction false} EachMeans(t: Template, env: Env, n: Node, at: nat, end: nat, cs: seq<WValue>,
                                     stack: seq<WValue>)
    requires InBody(t) && NodeStands(t.fragments, t.actions, n, at) && Nested(t.actions, at, end) && at + Size(n) <= end
    requires n.Block?
    ensures InterpretEach(t, env, at, end, cs, stack) == Before(RenderEach(t, env, n, at, cs, stack), Done("", stack))
    decreases n, 0, |cs|
  {
    hide Interpret, RenderAll, Nested, NodeStands, Stands, InBody, Size, SizeAll, Opens;
    BlockFacts(t, n, at, end);
    if cs != [] {
      var k := |cs| - 1;
      var e := at + 1 + SizeAll(n.items);
      var inner := stack + [cs[k]];
      EachMeans(t, env, n, at, end, cs[..k], stack);
      AllMeans(t, env, n.items, at + 1, e, inner);
      InterpretEnd(t, env, e, inner);
      assert inner[..|inner| - 1] == stack;
    }
  }

  lemma InterpretEnd(t: Template, env: Env, end: nat, stack: seq<WValue>)
    requires InBody(t) && end < |t.actions|
    ensures Nested(t.actions, end, end) && Interpret(t, env, end, end, stack) == Done(Text(t, end), stack)
  {
  }

  /** The meaning of a template: for every environment and every stack the interpreter puts out
      what recursion over the block tree puts out, throws when that does, and returns the stack. */
  lemma TemplateMeans(t: Template, env: Env, ns: seq<Node>, stack: seq<WValue>)
    requires InBody(t) && Stands(t.fragments, t.actions, ns, 0) && SizeAll(ns) + 1 == |t.actions|
    ensures Nested(t.actions, 0, |t.actions| - 1)
    ensures Interpret(t, env, 0, |t.actions| - 1, stack) ==
            match RenderTree(t, env, ns, stack) { case None => Threw case Some(s) => Done(s, stack) }
  {
    hide Interpret, RenderAll, Stands;
    var end := |t.actions| - 1;
    StandsNested(t.fragments, t.actions, ns, 0);
    AllMeans(t, env, ns, 0, end, stack);
    InterpretEnd(t, env, end, stack);
  }

  // ---------------------------------------------------------------- the scan for an object block

  /** Number of inverted blocks in a list of nodes, at any depth. */
  function Inverted(ns: seq<Node>): nat
    decreases ns
  {
    if ns == [] then 0
    else
      var n := ns[|ns| - 1];
      Inverted(ns[..|ns| - 1]) +
      if n.Block? then (if n.open.t.ElseBlock? then 1 else 0) + Inverted(n.items) else 0
  }

  lemma ScanStep(acts: seq<Action>, i: nat, depth: nat)
    requires i < |acts|
    ensures ScanBack(acts, i + 1, depth, true) ==
            if acts[i].t.OpenBlock? then depth == 0 || ScanBack(acts, i, depth - 1, true)
            else ScanBack(acts, i, if acts[i].t.CloseBlock? then depth + 1 else depth, true)
  {
  }

  /** What a node does to the scan: nothing for a leaf; a section counts its close and its opening. */
  lemma ScanNode(fs: seq<Fragment>, acts: seq<Action>, n: Node, p: nat)
    requires |fs| == |acts| && NodeStands(fs, acts, n, p)
    ensures p + Size(n) <= |acts|
    ensures n.Leaf? ==> !acts[p].t.OpenBlock? && !acts[p].t.CloseBlock?
    ensures n.Block? ==>
              && acts[p] == n.open && acts[p + 1 + SizeAll(n.items)].t.CloseBlock? && Stands(fs, acts, n.items, p + 1)
              && Opens(n.open.t)
  {
  }

  /** The scan counts the end of an inverted block but not its beginning. */
  lemma {:induction false} ScanOver(fs: seq<Fragment>, acts: seq<Action>, ns: seq<Node>, at: nat, depth: nat)
    requires |fs| == |acts| && Stands(fs, acts, ns, at)
    ensures ScanBack(acts, at + SizeAll(ns), depth, true) == ScanBack(acts, at, depth + Inverted(ns), true)
    decreases ns
  {
    hide ScanBack, NodeStands;
    if ns != [] {
      var k := |ns| - 1;
      ScanNode(fs, acts, ns[k], at + SizeAll(ns[..k]));
      var p := at + SizeAll(ns[..k]);
      ScanStep(acts, p, depth + if ns[k].Block? then 1 + Inverted(ns[k].items) else 0);
      if ns[k].Block? {
        ScanStep(acts, p + 1 + SizeAll(ns[k].items), depth);
        ScanOver(fs, acts, ns[k].items, p + 1, depth + 1);
        ScanOver(fs, acts, ns[..k], at, depth + Inverted(ns[k].items) + if ns[k].open.t.ElseBlock? then 1 else 0);
      } else {
        ScanOver(fs, acts, ns[..k], at, depth);
      }
    }
  }

  lemma {:induction false} ScanPlain(acts: seq<Action>, i: nat, depth: int)
    requires i <= |acts|
    ensures !ScanBack(acts, i, depth, false)
  {
    if i > 0 {
      ScanPlain(acts, i - 1, depth - 1);
      ScanPlain(acts, i - 1, depth + 1);
      ScanPlain(acts, i - 1, depth);
    }
  }

  /** A tag behind the nodes `ns` of a section is seen as standing in an object block if and only if the
      value on top of the stack is an object and no inverted block ended before the tag in the section;
      every one that did hides one more section around the tag. */
  lemma {:induction false} InsideMeans(fs: seq<Fragment>, acts: seq<Action>, ns: seq<Node>, o: nat, stack: seq<WValue>,
                                       top: WValue)
    requires |fs| == |acts| && o < |acts| && acts[o].t.OpenBlock? && Stands(fs, acts, ns, o + 1)
    ensures InsideObject(acts, o + 1 + SizeAll(ns), stack + [top]) <==>
            top.WObject? && (Inverted(ns) == 0 || ScanBack(acts, o, Inverted(ns) - 1, true))
  {
    ScanOver(fs, acts, ns, o + 1, 0);
    if !top.WObject? {
      ScanPlain(acts, o + 1 + SizeAll(ns), 0);
    }
  }

  /** A tag outside of all sections, or on an empty stack, stands in no object block. */
  lemma OutsideMeans(fs: seq<Fragment>, acts: seq<Action>, ns: seq<Node>, stack: seq<WValue>)
    requires |fs| == |acts| && Stands(fs, acts, ns, 0)
    ensures !InsideObject(acts, SizeAll(ns), stack)
  {
    ScanOver(fs, acts, ns, 0, 0);
    if stack != [] && !stack[|stack| - 1].WObject? {
      ScanPlain(acts, SizeAll(ns), 0);
    }
  }
}
