/** Templates: the flat list of actions with jump positions that the compiler makes, and the tree
    of blocks that the list stands for. */
module MustacheTemplate {
  import opened Basics

  datatype ActionType = Ignore | Tag | UnescapeTag | OpenBlock | CloseBlock | ElseBlock | Partial

  /** A name is a range of the body.  `pos` is the other end of a block. */
  datatype Action = Action(t: ActionType, start: nat, end: nat, pos: nat)

  /** A piece of text between two tags, as a range of the body. */
  datatype Fragment = Fragment(first: nat, second: nat)

  /** Fragment number i stands before action number i; the last action is a filler. */
  datatype Template = Template(body: string, fragments: seq<Fragment>, actions: seq<Action>)

  predicate Opens(t: ActionType) {
    t.OpenBlock? || t.ElseBlock?
  }

  predicate ActionFits(body: string, a: Action) {
    a.start <= |body| && a.end <= |body|
  }

  /** The name of an action.  A name of nothing but spaces is trimmed from both sides past itself;
      its negative length then reaches to the end of the body. */
  function NameOf(body: string, a: Action): string
    requires ActionFits(body, a)
  {
    if a.start <= a.end then body[a.start..a.end] else body[a.start..]
  }

  predicate InBody(t: Template) {
    && |t.fragments| == |t.actions|
    && (forall i :: 0 <= i < |t.fragments| ==> t.fragments[i].first <= t.fragments[i].second <= |t.body|)
    && (forall i :: 0 <= i < |t.actions| ==> ActionFits(t.body, t.actions[i]))
  }

  /** Every block that opens before `end` closes before `end`, and blocks do not cross. */
  predicate Nested(actions: seq<Action>, from: nat, end: nat) {
    && from <= end < |actions|
    && (forall i :: from <= i < end && Opens(actions[i].t) ==> i < actions[i].pos < end)
    && (forall i, j :: from <= i < j < end && Opens(actions[i].t) && Opens(actions[j].t) && j < actions[i].pos ==>
          actions[j].pos < actions[i].pos)
  }

  function Name(t: Template, i: nat): string
    requires InBody(t) && i < |t.actions|
  {
    NameOf(t.body, t.actions[i])
  }

  function Text(t: Template, i: nat): string
    requires InBody(t) && i < |t.actions|
  {
    t.body[t.fragments[i].first..t.fragments[i].second]
  }

  // ---------------------------------------------------------------- the tree

  /** A tag with the text before it.  `open` and `close` are the two tags of a block. */
  datatype Node =
    | Leaf(text: Fragment, action: Action)
    | Block(text: Fragment, open: Action, items: seq<Node>, tail: Fragment, close: Action)

  /** Number of actions of a node and of a list of nodes. */
  function Size(n: Node): (k: nat)
    ensures k > 0
    decreases n, 0
  {
    match n
    case Leaf(_, _) => 1
    case Block(_, _, items, _, _) => SizeAll(items) + 2
  }

  function SizeAll(ns: seq<Node>): nat
    decreases ns
  {
    if ns == [] then 0 else SizeAll(ns[..|ns| - 1]) + Size(ns[|ns| - 1])
  }

  /** The nodes `ns` stand in the flat list from position `at` on. */
  ghost predicate Stands(fs: seq<Fragment>, acts: seq<Action>, ns: seq<Node>, at: nat)
    requires |fs| == |acts|
    decreases ns
  {
    at + SizeAll(ns) <= |acts| &&
    (ns != [] ==>
       var k := |ns| - 1;
       Stands(fs, acts, ns[..k], at) && NodeStands(fs, acts, ns[k], at + SizeAll(ns[..k])))
  }

  ghost predicate NodeStands(fs: seq<Fragment>, acts: seq<Action>, n: Node, at: nat)
    requires |fs| == |acts|
    decreases n, 0
  {
    at + Size(n) <= |acts| &&
    match n
    case Leaf(text, action) =>
      fs[at] == text && acts[at] == action && !Opens(action.t) && !action.t.CloseBlock?
    case Block(text, open, items, tail, close) =>
      var end := at + 1 + SizeAll(items);
      && fs[at] == text && acts[at] == open && Opens(open.t) && open.pos == end
      && Stands(fs, acts, items, at + 1)
      && fs[end] == tail && acts[end] == close && close.t.CloseBlock? && close.pos == at
  }
}
