/** The trie while patterns are added: one token per node, and a map from token sequences to
    rules as its meaning. */
module RouteBuild {
  import opened Basics
  import opened RoutePatterns
  import opened RouteNodes

  /** Two positions in the child lists of nodes in use never hold the same pointer. */
  predicate OneParent(nodes: seq<Node>, freed: set<nat>) {
    forall i, k, j, m | 0 <= i < |nodes| && i !in freed && 0 <= k < |nodes[i].children|
                        && 0 <= j < |nodes| && j !in freed && 0 <= m < |nodes[j].children|
                        && nodes[i].children[k] == nodes[j].children[m] :: i == j && k == m
  }

  /** Every node that is still in use has one parent, and no pointer leads to a deleted node. */
  predicate Owned(nodes: seq<Node>, freed: set<nat>) {
    && 0 !in freed && OneParent(nodes, freed)
    && (forall i, k :: 0 <= i < |nodes| && i !in freed && 0 <= k < |nodes[i].children| ==>
        nodes[i].children[k] !in freed)
  }

  /** One token per node. */
  predicate OneToken(nodes: seq<Node>) {
    && |nodes| > 0 && nodes[0].param.None? && nodes[0].key == ""
    && (forall i :: 0 < i < |nodes| ==> |Label(nodes[i])| == 1 && (nodes[i].param.Some? ==> nodes[i].key == ""))
  }

  /** No two children of a node carry the same token. */
  predicate Distinct(nodes: seq<Node>)
    requires Forward(nodes)
  {
    forall i, k, m :: 0 <= i < |nodes| && 0 <= k < m < |nodes[i].children| ==>
      Label(nodes[nodes[i].children[k]]) != Label(nodes[nodes[i].children[m]])
  }

  /** The shape of the trie before it is compressed. */
  predicate Building(nodes: seq<Node>)
    requires Forward(nodes)
  {
    Owned(nodes, {}) && OneToken(nodes) && Distinct(nodes)
  }

  /** The first of the children `cs` that carries the token `t`. */
  function ChildIn(nodes: seq<Node>, cs: seq<nat>, t: Token): (r: Option<nat>)
    requires forall k :: 0 <= k < |cs| ==> cs[k] < |nodes|
    ensures r.Some? ==> r.value in cs && Label(nodes[r.value]) == [t]
    ensures r.None? ==> forall k :: 0 <= k < |cs| ==> Label(nodes[cs[k]]) != [t]
  {
    if cs == [] then None
    else if Label(nodes[cs[0]]) == [t] then Some(cs[0])
    else ChildIn(nodes, cs[1..], t)
  }

  function ChildOf(nodes: seq<Node>, i: nat, t: Token): (r: Option<nat>)
    requires Forward(nodes) && i < |nodes|
    ensures r.Some? ==> i < r.value < |nodes|
  {
    ChildIn(nodes, nodes[i].children, t)
  }

  /** The node that the tokens lead to from the head. */
  function Walk(nodes: seq<Node>, ts: seq<Token>): (r: Option<nat>)
    requires Forward(nodes)
    ensures r.Some? ==> r.value < |nodes| && (r.value == 0 <==> ts == [])
  {
    if ts == [] then Some(0)
    else
      match Walk(nodes, ts[..|ts| - 1])
      case None => None
      case Some(i) => ChildOf(nodes, i, ts[|ts| - 1])
  }

  /** The rule of a token sequence, 0 if it has none. */
  function RuleOf(nodes: seq<Node>, ts: seq<Token>): nat
    requires Forward(nodes)
  {
    match Walk(nodes, ts)
    case None => 0
    case Some(i) => nodes[i].rule
  }

  lemma SameParent(nodes: seq<Node>, i: nat, k: nat, j: nat, m: nat)
    requires OneParent(nodes, {}) && i < |nodes| && k < |nodes[i].children| && j < |nodes| && m < |nodes[j].children|
    requires nodes[i].children[k] == nodes[j].children[m]
    ensures i == j && k == m
  {
  }

  /** The node a token sequence leads to belongs to that sequence alone. */
  lemma {:induction false} WalkUnique(nodes: seq<Node>, a: seq<Token>, b: seq<Token>)
    requires Forward(nodes) && Building(nodes)
    requires Walk(nodes, a).Some? && Walk(nodes, a) == Walk(nodes, b)
    ensures a == b
    decreases |a|
  {
    hide Label, OneToken, Distinct, Forward, ChildIn, OneParent;
    if a != [] {
      var i, j := Walk(nodes, a[..|a| - 1]).value, Walk(nodes, b[..|b| - 1]).value;
      var c := Walk(nodes, a).value;
      var k :| 0 <= k < |nodes[i].children| && nodes[i].children[k] == c;
      var m :| 0 <= m < |nodes[j].children| && nodes[j].children[m] == c;
      SameParent(nodes, i, k, j, m);
      WalkUnique(nodes, a[..|a| - 1], b[..|b| - 1]);
      assert [a[|a| - 1]] == Label(nodes[c]) == [b[|b| - 1]];
      assert a == a[..|a| - 1] + [a[|a| - 1]];
      assert b == b[..|b| - 1] + [b[|b| - 1]];
    }
  }

  // ---------------------------------------------------------------- a new node

  /** A new leaf below `idx`. */
  function Grown(nodes: seq<Node>, idx: nat, leaf: Node): seq<Node>
    requires idx < |nodes|
  {
    nodes[idx := nodes[idx].(children := nodes[idx].children + [|nodes|])] + [leaf]
  }

  lemma {:induction false} ChildInSame(a: seq<Node>, b: seq<Node>, cs: seq<nat>, t: Token)
    requires forall k :: 0 <= k < |cs| ==> cs[k] < |a| && cs[k] < |b| && Label(a[cs[k]]) == Label(b[cs[k]])
    ensures ChildIn(a, cs, t) == ChildIn(b, cs, t)
    decreases |cs|
  {
    hide Label;
    if cs != [] {
      assert forall k :: 0 <= k < |cs[1..]| ==> cs[1..][k] == cs[k + 1];
      ChildInSame(a, b, cs[1..], t);
    }
  }

  lemma {:induction false} ChildInSnoc(nodes: seq<Node>, cs: seq<nat>, c: nat, t: Token)
    requires c < |nodes| && forall k :: 0 <= k < |cs| ==> cs[k] < |nodes|
    ensures ChildIn(nodes, cs + [c], t) ==
            if ChildIn(nodes, cs, t).Some? then ChildIn(nodes, cs, t)
            else if Label(nodes[c]) == [t] then Some(c) else None
  {
    if cs != [] {
      assert (cs + [c])[1..] == cs[1..] + [c];
      ChildInSnoc(nodes, cs[1..], c, t);
    }
  }

  predicate IsLeafOf(t: Token, leaf: Node) {
    leaf.children == [] && leaf.rule == 0 && Label(leaf) == [t] && (leaf.param.Some? ==> leaf.key == "")
  }

  lemma GrownForward(nodes: seq<Node>, idx: nat, leaf: Node)
    requires Forward(nodes) && idx < |nodes| && leaf.children == []
    ensures Forward(Grown(nodes, idx, leaf))
  {
  }

  lemma GrownOwned(nodes: seq<Node>, idx: nat, leaf: Node)
    requires Forward(nodes) && Owned(nodes, {}) && idx < |nodes| && leaf.children == []
    ensures Owned(Grown(nodes, idx, leaf), {})
  {
  }

  lemma GrownToken(nodes: seq<Node>, idx: nat, t: Token, leaf: Node)
    requires OneToken(nodes) && idx < |nodes| && IsLeafOf(t, leaf)
    ensures OneToken(Grown(nodes, idx, leaf))
    ensures forall i :: 0 <= i < |nodes| ==> Label(Grown(nodes, idx, leaf)[i]) == Label(nodes[i])
  {
    LabelKept(nodes[idx], nodes[idx].children + [|nodes|], nodes[idx].rule);
    hide Label;
  }

  lemma GrownShape(nodes: seq<Node>, idx: nat, t: Token, leaf: Node)
    requires Forward(nodes) && Building(nodes) && idx < |nodes| && ChildOf(nodes, idx, t).None? && IsLeafOf(t, leaf)
    ensures Forward(Grown(nodes, idx, leaf)) && Building(Grown(nodes, idx, leaf))
  {
    hide Owned, OneToken, Label;
    GrownForward(nodes, idx, leaf);
    GrownOwned(nodes, idx, leaf);
    GrownToken(nodes, idx, t, leaf);
  }

  lemma LabelKept(n: Node, children: seq<nat>, rule: nat)
    ensures Label(n.(children := children, rule := rule)) == Label(n)
  {
  }

  /** Children of the grown trie. */
  lemma GrownChild(nodes: seq<Node>, idx: nat, t: Token, leaf: Node, i: nat, u: Token)
    requires Forward(nodes) && Building(nodes) && idx < |nodes| && ChildOf(nodes, idx, t).None? && IsLeafOf(t, leaf)
    requires i <= |nodes|
    ensures Forward(Grown(nodes, idx, leaf))
    ensures ChildOf(Grown(nodes, idx, leaf), i, u) ==
            if i == |nodes| then None
            else if i == idx && u == t then Some(|nodes|)
            else ChildOf(nodes, i, u)
  {
    GrownShape(nodes, idx, t, leaf);
    var g := Grown(nodes, idx, leaf);
    LabelKept(nodes[idx], nodes[idx].children + [|nodes|], nodes[idx].rule);
    hide Label;
    if i < |nodes| {
      ChildInSame(nodes, g, nodes[i].children, u);
      if i == idx {
        ChildInSnoc(g, nodes[i].children, |nodes|, u);
      }
    }
  }

  /** A new leaf adds one walk and changes none. */
  lemma {:induction false} GrownWalk(nodes: seq<Node>, path: seq<Token>, t: Token, leaf: Node, ts: seq<Token>)
    requires Forward(nodes) && Building(nodes) && Walk(nodes, path).Some? && IsLeafOf(t, leaf)
    requires ChildOf(nodes, Walk(nodes, path).value, t).None?
    ensures var g := Grown(nodes, Walk(nodes, path).value, leaf);
            && Forward(g) && Building(g)
            && Walk(g, ts) == if ts == path + [t] then Some(|nodes|) else Walk(nodes, ts)
    decreases |ts|
  {
    hide Building, ChildOf, IsLeafOf, Forward, Grown;
    var idx := Walk(nodes, path).value;
    var g := Grown(nodes, idx, leaf);
    GrownShape(nodes, idx, t, leaf);
    if ts != [] {
      var init, u := ts[..|ts| - 1], ts[|ts| - 1];
      assert ts == init + [u];
      assert ts == path + [t] <==> init == path && u == t by {
        assert (path + [t])[..|path|] == path;
      }
      GrownWalk(nodes, path, t, leaf, init);
      if init == path + [t] {
        assert Walk(nodes, init) == ChildOf(nodes, idx, t) by {
          assert (path + [t])[..|path|] == path;
        }
        GrownChild(nodes, idx, t, leaf, |nodes|, u);
      } else if Walk(nodes, init).Some? {
        GrownChild(nodes, idx, t, leaf, Walk(nodes, init).value, u);
        if Walk(nodes, init) == Some(idx) {
          WalkUnique(nodes, init, path);
        }
      }
    }
  }

  /** A new leaf changes no rule. */
  lemma GrownRule(nodes: seq<Node>, path: seq<Token>, t: Token, leaf: Node, ts: seq<Token>)
    requires Forward(nodes) && Building(nodes) && Walk(nodes, path).Some? && IsLeafOf(t, leaf)
    requires ChildOf(nodes, Walk(nodes, path).value, t).None?
    ensures var g := Grown(nodes, Walk(nodes, path).value, leaf); Forward(g) && RuleOf(g, ts) == RuleOf(nodes, ts)
  {
    hide Walk, Building, Forward, ChildOf, IsLeafOf;
    GrownWalk(nodes, path, t, leaf, ts);
    LeafRule(t, leaf);
    if ts == path + [t] {
      NoWalk(nodes, path, t);
    }
  }

  lemma NoWalk(nodes: seq<Node>, path: seq<Token>, t: Token)
    requires Forward(nodes) && Walk(nodes, path).Some? && ChildOf(nodes, Walk(nodes, path).value, t).None?
    ensures Walk(nodes, path + [t]).None?
  {
    hide ChildOf;
    assert (path + [t])[..|path|] == path;
  }

  lemma LeafRule(t: Token, leaf: Node)
    requires IsLeafOf(t, leaf)
    ensures leaf.rule == 0
  {
  }

  // ---------------------------------------------------------------- setting a rule

  lemma {:induction false} RuleSetWalk(nodes: seq<Node>, idx: nat, rule: nat, ts: seq<Token>)
    requires Forward(nodes) && idx < |nodes|
    ensures var g := nodes[idx := nodes[idx].(rule := rule)]; Forward(g) && Walk(g, ts) == Walk(nodes, ts)
    decreases |ts|
  {
    var g := nodes[idx := nodes[idx].(rule := rule)];
    if ts != [] {
      RuleSetWalk(nodes, idx, rule, ts[..|ts| - 1]);
      if Walk(nodes, ts[..|ts| - 1]).Some? {
        var i := Walk(nodes, ts[..|ts| - 1]).value;
        ChildInSame(nodes, g, nodes[i].children, ts[|ts| - 1]);
      }
    }
  }

  lemma RuleSetShape(nodes: seq<Node>, idx: nat, rule: nat)
    requires Forward(nodes) && Building(nodes) && idx < |nodes|
    ensures var g := nodes[idx := nodes[idx].(rule := rule)]; Forward(g) && Building(g)
  {
    LabelKept(nodes[idx], nodes[idx].children, rule);
    hide Label;
  }

  /** Setting the rule at the end of `path` changes the rule of `path` and of nothing else. */
  lemma RuleSet(nodes: seq<Node>, path: seq<Token>, rule: nat, ts: seq<Token>)
    requires Forward(nodes) && Building(nodes) && Walk(nodes, path).Some?
    ensures var idx := Walk(nodes, path).value;
            var g := nodes[idx := nodes[idx].(rule := rule)];
            && Forward(g) && Building(g)
            && RuleOf(g, ts) == if ts == path then rule else RuleOf(nodes, ts)
  {
    hide Building, Forward;
    var idx := Walk(nodes, path).value;
    RuleSetWalk(nodes, idx, rule, ts);
    RuleSetShape(nodes, idx, rule);
    if Walk(nodes, ts) == Some(idx) {
      WalkUnique(nodes, path, ts);
    }
    hide Walk;
  }
}
