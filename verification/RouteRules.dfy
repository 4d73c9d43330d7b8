/** The routes that the search goes through are exactly the patterns that were added. */
module RouteRules {
  import opened Basics
  import opened RoutePatterns
  import opened RouteNodes
  import opened RouteBuild

  /** The walk from any node, first token first. */
  function WalkFrom(nodes: seq<Node>, i: nat, ts: seq<Token>): (r: Option<nat>)
    requires Forward(nodes) && i < |nodes|
    ensures r.Some? ==> r.value < |nodes|
    decreases |ts|
  {
    if ts == [] then Some(i)
    else
      match ChildOf(nodes, i, ts[0])
      case None => None
      case Some(c) => WalkFrom(nodes, c, ts[1..])
  }

  lemma {:induction false} WalkFromSnoc(nodes: seq<Node>, i: nat, ts: seq<Token>, u: Token)
    requires Forward(nodes) && i < |nodes|
    ensures WalkFrom(nodes, i, ts + [u]) ==
            match WalkFrom(nodes, i, ts) { case None => None case Some(j) => ChildOf(nodes, j, u) }
    decreases |ts|
  {
    hide ChildOf;
    if ts == [] {
      assert (ts + [u])[1..] == [];
    } else {
      assert (ts + [u])[1..] == ts[1..] + [u];
      if ChildOf(nodes, i, ts[0]).Some? {
        WalkFromSnoc(nodes, ChildOf(nodes, i, ts[0]).value, ts[1..], u);
      }
    }
  }

  lemma {:induction false} WalkFromHead(nodes: seq<Node>, ts: seq<Token>)
    requires Forward(nodes)
    ensures WalkFrom(nodes, 0, ts) == Walk(nodes, ts)
    decreases |ts|
  {
    if ts != [] {
      WalkFromHead(nodes, ts[..|ts| - 1]);
      WalkFromSnoc(nodes, 0, ts[..|ts| - 1], ts[|ts| - 1]);
      assert ts == ts[..|ts| - 1] + [ts[|ts| - 1]];
    }
  }

  lemma PrefixedMember(u: Token, rs: seq<Route>, ts: seq<Token>, r: nat)
    ensures Route(ts, r) in Prefixed([u], rs) <==> ts != [] && ts[0] == u && Route(ts[1..], r) in rs
  {
    var ps := Prefixed([u], rs);
    if Route(ts, r) in ps {
      var i :| 0 <= i < |ps| && ps[i] == Route(ts, r);
      assert ts == [u] + rs[i].tokens;
      assert ts[1..] == rs[i].tokens;
    }
    if ts != [] && ts[0] == u && Route(ts[1..], r) in rs {
      var i :| 0 <= i < |rs| && rs[i] == Route(ts[1..], r);
      assert ps[i].tokens == [u] + ts[1..] == ts;
    }
  }

  /** Child number `m` of node `i` carries the first of the tokens, and the rest is a route behind it. */
  predicate Through(nodes: seq<Node>, i: nat, m: nat, ts: seq<Token>, r: nat)
    requires Forward(nodes) && i < |nodes| && m < |nodes[i].children|
  {
    var c := nodes[i].children[m];
    ts != [] && Label(nodes[c]) == [ts[0]] && Route(ts[1..], r) in Routes(nodes, c)
  }

  lemma {:induction false} KidsMember(nodes: seq<Node>, i: nat, k: nat, ts: seq<Token>, r: nat)
    requires Forward(nodes) && OneToken(nodes) && i < |nodes| && k <= |nodes[i].children|
    ensures Route(ts, r) in Kids(nodes, i, k) <==> exists m :: 0 <= m < k && Through(nodes, i, m, ts, r)
    decreases k
  {
    if k > 0 {
      hide Label, Routes, Prefixed;
      KidsMember(nodes, i, k - 1, ts, r);
      var c := nodes[i].children[k - 1];
      assert Label(nodes[c]) == [Label(nodes[c])[0]];
      PrefixedMember(Label(nodes[c])[0], Routes(nodes, c), ts, r);
      assert Route(ts, r) in Prefixed(Label(nodes[c]), Routes(nodes, c)) <==> Through(nodes, i, k - 1, ts, r);
    }
  }

  /** Below a node: the search finds a rule for exactly the token sequences that walk to it. */
  lemma {:induction false} RoutesFrom(nodes: seq<Node>, i: nat, ts: seq<Token>, r: nat)
    requires Forward(nodes) && Building(nodes) && i < |nodes|
    ensures Route(ts, r) in Routes(nodes, i) <==>
            r != 0 && WalkFrom(nodes, i, ts).Some? && nodes[WalkFrom(nodes, i, ts).value].rule == r
    decreases |nodes| - i
  {
    hide Label, Kids, Owned, OneToken;
    var n := |nodes[i].children|;
    KidsMember(nodes, i, n, ts, r);
    if ts == [] {
      assert Route(ts, r) in Routes(nodes, i) <==> r != 0 && nodes[i].rule == r;
    } else {
      var c := ChildOf(nodes, i, ts[0]);
      if c.Some? {
        var k :| 0 <= k < n && nodes[i].children[k] == c.value;
        RoutesFrom(nodes, c.value, ts[1..], r);
        assert Through(nodes, i, k, ts, r) <==> Route(ts[1..], r) in Routes(nodes, c.value);
        forall m | 0 <= m < n && Through(nodes, i, m, ts, r) ensures m == k {
          assert Label(nodes[nodes[i].children[m]]) == Label(nodes[nodes[i].children[k]]);
        }
      }
    }
  }

  /** The routes below the head are the added patterns with their rules. */
  lemma RoutesAreRules(nodes: seq<Node>, ts: seq<Token>, r: nat)
    requires Forward(nodes) && Building(nodes)
    ensures Route(ts, r) in Routes(nodes, 0) <==> r != 0 && RuleOf(nodes, ts) == r
  {
    RoutesFrom(nodes, 0, ts, r);
    WalkFromHead(nodes, ts);
  }
}
