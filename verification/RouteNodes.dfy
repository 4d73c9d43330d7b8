/** The nodes of the routing trie, what a trie means, and the best route for a url. */
module RouteNodes {
  import opened Basics
  import opened RoutePatterns

  /** A node.  Pointers to children are positions in the sequence of all nodes ever made, so a
      child is always newer than its parent.  `rule` 0 means no rule. */
  datatype Node = Node(rule: nat, key: string, param: Option<ParamType>, children: seq<nat>)

  const BLANK := Node(0, "", None, [])

  /** Every child pointer leads to a newer node. */
  predicate Forward(nodes: seq<Node>) {
    && |nodes| > 0
    && forall i, k :: 0 <= i < |nodes| && 0 <= k < |nodes[i].children| ==> i < nodes[i].children[k] < |nodes|
  }

  function Label(n: Node): seq<Token> {
    match n.param
    case Some(p) => [Hole(p)]
    case None => Lits(n.key)
  }

  datatype Route = Route(tokens: seq<Token>, rule: nat)

  function Prefixed(lab: seq<Token>, rs: seq<Route>): seq<Route> {
    seq(|rs|, i requires 0 <= i < |rs| => Route(lab + rs[i].tokens, rs[i].rule))
  }

  /** The routes below node `i`, in the order in which the search comes to them. */
  function Routes(nodes: seq<Node>, i: nat): seq<Route>
    requires Forward(nodes) && i < |nodes|
    decreases |nodes| - i, |nodes[i].children| + 1
  {
    (if nodes[i].rule != 0 then [Route([], nodes[i].rule)] else []) + Kids(nodes, i, |nodes[i].children|)
  }

  /** The routes through the first `k` children of node `i`. */
  function Kids(nodes: seq<Node>, i: nat, k: nat): seq<Route>
    requires Forward(nodes) && i < |nodes| && k <= |nodes[i].children|
    decreases |nodes| - i, k
  {
    if k == 0 then []
    else
      var c := nodes[i].children[k - 1];
      Kids(nodes, i, k - 1) + Prefixed(Label(nodes[c]), Routes(nodes, c))
  }

  /** The routes through node `i`, its own label included. */
  function Branch(nodes: seq<Node>, i: nat): seq<Route>
    requires Forward(nodes) && i < |nodes|
  {
    Prefixed(Label(nodes[i]), Routes(nodes, i))
  }

  lemma PrefixedTwice(a: seq<Token>, b: seq<Token>, rs: seq<Route>)
    ensures Prefixed(a, Prefixed(b, rs)) == Prefixed(a + b, rs)
  {
    forall i | 0 <= i < |rs| ensures Prefixed(a, Prefixed(b, rs))[i] == Prefixed(a + b, rs)[i] {
      assert a + (b + rs[i].tokens) == a + b + rs[i].tokens;
    }
  }

  lemma PrefixedNothing(rs: seq<Route>)
    ensures Prefixed([], rs) == rs
  {
    forall i | 0 <= i < |rs| ensures Prefixed([], rs)[i] == rs[i] {
      assert [] + rs[i].tokens == rs[i].tokens;
    }
  }

  // ---------------------------------------------------------------- the best route

  /** A search result: rule 0 means that nothing was found. */
  datatype Found = Found(rule: nat, params: Params)

  const NOTHING := Found(0, NO_PARAMS)

  /** The result so far against the result of one more child. */
  function Better(f: Found, g: Found): Found {
    if g.rule != 0 && (f.rule == 0 || f.rule > g.rule) then g else f
  }

  function Try(strtod: Strtod, r: Route, url: string, pos: nat, params: Params): Found
    requires pos <= |url|
  {
    match Match(strtod, r.tokens, url, pos, params)
    case Some(p) => if r.rule == 0 then NOTHING else Found(r.rule, p)
    case None => NOTHING
  }

  /** Scan all routes and keep the lowest rule that matches. */
  function Best(strtod: Strtod, rs: seq<Route>, url: string, pos: nat, params: Params): Found
    requires pos <= |url|
  {
    if rs == [] then NOTHING
    else Better(Best(strtod, rs[..|rs| - 1], url, pos, params), Try(strtod, rs[|rs| - 1], url, pos, params))
  }

  lemma {:induction false} BestAppend(strtod: Strtod, a: seq<Route>, b: seq<Route>, url: string, pos: nat,
                                      params: Params)
    requires pos <= |url|
    ensures Best(strtod, a + b, url, pos, params) ==
            Better(Best(strtod, a, url, pos, params), Best(strtod, b, url, pos, params))
    decreases |b|
  {
    hide Try;
    if b == [] {
      assert a + b == a;
    } else {
      var k := |b| - 1;
      BestAppend(strtod, a, b[..k], url, pos, params);
      assert (a + b)[..|a + b| - 1] == a + b[..k];
    }
  }

  /** What the scan finds: 0 exactly when no route matches; else the lowest matching rule with the
      parameters of a route that has it. */
  lemma {:induction false} BestMeans(strtod: Strtod, rs: seq<Route>, url: string, pos: nat, params: Params)
    requires pos <= |url|
    ensures var f := Best(strtod, rs, url, pos, params);
            && (forall i :: 0 <= i < |rs| && rs[i].rule != 0 && Match(strtod, rs[i].tokens, url, pos, params).Some? ==>
                  0 < f.rule <= rs[i].rule)
            && (f.rule != 0 ==> exists i :: 0 <= i < |rs| && rs[i].rule == f.rule
                                           && Match(strtod, rs[i].tokens, url, pos, params) == Some(f.params))
            && (f.rule == 0 ==> f == NOTHING)
  {
    hide Match;
    if rs != [] {
      var k := |rs| - 1;
      BestMeans(strtod, rs[..k], url, pos, params);
      var f := Best(strtod, rs[..k], url, pos, params);
      if f.rule != 0 {
        var i :| 0 <= i < k && rs[..k][i].rule == f.rule
            && Match(strtod, rs[..k][i].tokens, url, pos, params) == Some(f.params);
        assert rs[i].rule == f.rule && Match(strtod, rs[i].tokens, url, pos, params) == Some(f.params);
      }
      forall i | 0 <= i < |rs| && rs[i].rule != 0 && Match(strtod, rs[i].tokens, url, pos, params).Some?
        ensures 0 < Best(strtod, rs, url, pos, params).rule <= rs[i].rule
      {
        assert i < k ==> rs[..k][i] == rs[i];
      }
    }
  }

  /** The routes behind a label: skip the label once, then scan the rest. */
  lemma {:induction false} BestPrefixed(strtod: Strtod, lab: seq<Token>, rs: seq<Route>, url: string, pos: nat,
                                        params: Params,
                                        next: Option<(nat, Params)>)
    requires pos <= |url| && (next.Some? ==> next.value.0 <= |url|)
    requires forall ts :: Match(strtod, lab + ts, url, pos, params) ==
                          match next { case None => None case Some((q, ps)) => Match(strtod, ts, url, q, ps) }
    ensures Best(strtod, Prefixed(lab, rs), url, pos, params) ==
            match next { case None => NOTHING case Some((q, ps)) => Best(strtod, rs, url, q, ps) }
  {
    hide Match;
    if rs != [] {
      var k := |rs| - 1;
      BestPrefixed(strtod, lab, rs[..k], url, pos, params, next);
      assert Prefixed(lab, rs)[..k] == Prefixed(lab, rs[..k]);
    }
  }

  /** At the end of the url no route that still has a token can match. */
  lemma {:induction false} BestAtEnd(strtod: Strtod, rs: seq<Route>, url: string, params: Params)
    requires forall i :: 0 <= i < |rs| ==> rs[i].tokens != []
    ensures Best(strtod, rs, url, |url|, params) == NOTHING
  {
    if rs != [] {
      BestAtEnd(strtod, rs[..|rs| - 1], url, params);
    }
  }
}
