/** The routing trie: patterns are added character by character, the finished trie is compressed
    in place, and the search backtracks over it with one shared set of parameters. */
module RouteTrie {
  import opened Basics
  import opened RoutePatterns
  import opened RouteNodes
  import opened RouteBuild
  import opened RouteRules
  import opened RouteCompress

  lemma {:induction false} KidsHaveTokens(nodes: seq<Node>, i: nat, k: nat)
    requires Forward(nodes) && Labelled(nodes) && i < |nodes| && k <= |nodes[i].children|
    ensures forall m :: 0 <= m < |Kids(nodes, i, k)| ==> Kids(nodes, i, k)[m].tokens != []
    decreases k
  {
    if k > 0 {
      KidsHaveTokens(nodes, i, k - 1);
      var c := nodes[i].children[k - 1];
      assert |Label(nodes[c])| > 0;
    }
  }

  // ---------------------------------------------------------------- search

  /** One step of the search into a node: where the url goes on, and with which parameters. */
  function Enter(strtod: Strtod, n: Node, url: string, pos: nat, params: Params): (r: Option<(nat, Params)>)
    requires pos < |url|
    ensures r.Some? ==> r.value.0 <= |url|
  {
    match n.param
    case Some(p) =>
      (match Scan(strtod, p, url[pos..])
       case None => None
       case Some((len, v)) => Some((pos + len, Push(params, v))))
    case None =>
      if pos + |n.key| <= |url| && url[pos..pos + |n.key|] == n.key then Some((pos + |n.key|, params)) else None
  }

  lemma EnterMatches(strtod: Strtod, n: Node, ts: seq<Token>, url: string, pos: nat, params: Params)
    requires pos < |url|
    ensures Match(strtod, Label(n) + ts, url, pos, params) ==
            match Enter(strtod, n, url, pos, params) { case None => None
                                                      case Some((q, ps)) => Match(strtod, ts, url, q, ps) }
  {
    hide Scan, Push;
    if n.param.Some? {
      var whole := [Hole(n.param.value)] + ts;
      assert whole[1..] == ts && whole[0] == Hole(n.param.value);
    } else {
      hide Match;
      MatchKey(strtod, n.key, ts, url, pos, params);
    }
  }

  /** The best route through a node is the best route behind its label. */
  lemma BranchBest(strtod: Strtod, nodes: seq<Node>, c: nat, url: string, pos: nat, params: Params)
    requires Forward(nodes) && c < |nodes| && pos < |url|
    ensures Best(strtod, Branch(nodes, c), url, pos, params) ==
            match Enter(strtod, nodes[c], url, pos, params) {
              case None => NOTHING
              case Some((q, ps)) => Best(strtod, Routes(nodes, c), url, q, ps)
            }
  {
    hide Match, Best, Enter, Label, Routes;
    forall ts ensures Match(strtod, Label(nodes[c]) + ts, url, pos, params) ==
                      match Enter(strtod, nodes[c], url, pos, params) { case None => None
                          case Some((q, ps)) => Match(strtod, ts, url, q, ps) }
    {
      EnterMatches(strtod, nodes[c], ts, url, pos, params);
    }
    BestPrefixed(strtod, Label(nodes[c]), Routes(nodes, c), url, pos, params,
                 Enter(strtod, nodes[c], url, pos, params));
  }

  /** At the end of the url only the rule of the node itself is left. */
  lemma BestAtNode(strtod: Strtod, nodes: seq<Node>, i: nat, url: string, params: Params)
    requires Forward(nodes) && Labelled(nodes) && i < |nodes|
    ensures Best(strtod, Routes(nodes, i), url, |url|, params) ==
            if nodes[i].rule == 0 then NOTHING else Found(nodes[i].rule, params)
  {
    var k := |nodes[i].children|;
    var own := if nodes[i].rule != 0 then [Route([], nodes[i].rule)] else [];
    KidsHaveTokens(nodes, i, k);
    BestAtEnd(strtod, Kids(nodes, i, k), url, params);
    BestAppend(strtod, own, Kids(nodes, i, k), url, |url|, params);
    if nodes[i].rule != 0 {
      BestSingle(strtod, own[0], url, |url|, params);
    }
  }

  lemma BestOfNone(strtod: Strtod, url: string, pos: nat, params: Params)
    requires pos <= |url|
    ensures Best(strtod, [], url, pos, params) == NOTHING
  {
  }

  lemma BestSingle(strtod: Strtod, r: Route, url: string, pos: nat, params: Params)
    requires pos <= |url|
    ensures Best(strtod, [r], url, pos, params) == Try(strtod, r, url, pos, params)
  {
    assert [r][..0] == [];
  }

  /** Before the end of the url the node's own rule cannot match. */
  lemma BestBelow(strtod: Strtod, nodes: seq<Node>, i: nat, url: string, pos: nat, params: Params)
    requires Forward(nodes) && Labelled(nodes) && i < |nodes| && pos < |url|
    ensures Best(strtod, Routes(nodes, i), url, pos, params)
            == Best(strtod, Kids(nodes, i, |nodes[i].children|), url, pos, params)
  {
    var own := if nodes[i].rule != 0 then [Route([], nodes[i].rule)] else [];
    BestAppend(strtod, own, Kids(nodes, i, |nodes[i].children|), url, pos, params);
    if nodes[i].rule != 0 {
      BestSingle(strtod, own[0], url, pos, params);
    }
    BestMeans(strtod, Kids(nodes, i, |nodes[i].children|), url, pos, params);
  }

  /** The vectors of parameters that the whole search shares. */
  class RoutingParams {
    var ints: seq<int>
    var uints: seq<nat>
    var doubles: seq<real>
    var strings: seq<string>

    ghost function Value(): Params
      reads this
    {
      Params(ints, uints, doubles, strings)
    }

    constructor ()
      ensures Value() == NO_PARAMS
    {
      ints, uints, doubles, strings := [], [], [], [];
    }

    method PushBack(c: Capture)
      modifies this
      ensures Value() == Push(old(Value()), c)
    {
      match c
      case IntValue(i) => ints := ints + [i];
      case UintValue(u) => uints := uints + [u];
      case DoubleValue(d) => doubles := doubles + [d];
      case Text(s) => strings := strings + [s];
    }

    /** Take back the capture `c`, pushed last on its vector. */
    method PopBack(p: ParamType, ghost before: Params, ghost c: Capture)
      requires KindOf(c) == VectorOf(p) && Value() == Push(before, c)
      modifies this
      ensures Value() == before
    {
      if p.IntParam? {
        ints := ints[..|ints| - 1];
      } else if p.UintParam? {
        uints := uints[..|uints| - 1];
      } else if p.DoubleParam? {
        doubles := doubles[..|doubles| - 1];
      } else {
        strings := strings[..|strings| - 1];
      }
    }

    method Copy() returns (v: Params)
      ensures v == Value()
    {
      v := Params(ints, uints, doubles, strings);
    }
  }

  datatype Kind = Ints | Uints | Doubles | Strings

  function KindOf(c: Capture): Kind {
    match c
    case IntValue(_) => Ints
    case UintValue(_) => Uints
    case DoubleValue(_) => Doubles
    case Text(_) => Strings
  }

  function VectorOf(p: ParamType): Kind {
    match p
    case IntParam => Ints
    case UintParam => Uints
    case DoubleParam => Doubles
    case StringParam => Strings
    case PathParam => Strings
  }

  lemma ScanKind(strtod: Strtod, p: ParamType, s: string)
    requires s != "" && Scan(strtod, p, s).Some?
    ensures KindOf(Scan(strtod, p, s).value.1) == VectorOf(p)
  {
  }

  /** Equal results, where the parameters only matter if something was found. */
  predicate Agrees(rule: nat, params: Params, f: Found) {
    rule == f.rule && (rule != 0 ==> params == f.params)
  }

  /** The routes of the trie are the patterns in `added`, each with its rule. */
  ghost predicate Means(nodes: seq<Node>, added: map<seq<Token>, nat>)
    requires Forward(nodes)
  {
    forall ts, r :: Route(ts, r) in Routes(nodes, 0) <==> ts in added && added[ts] == r
  }

  /** The test of the loops over children: first key character, or kind of hole. */
  predicate Carries(n: Node, t: Token) {
    match t
    case Lit(c) => (if n.key == "" then NUL else n.key[0]) == c
    case Hole(p) => n.param == Some(p)
  }

  lemma CarriesMeans(n: Node, t: Token)
    requires |Label(n)| == 1 && (n.param.Some? ==> n.key == "") && t != Lit(NUL)
    ensures Carries(n, t) <==> Label(n) == [t]
  {
    if n.param.None? {
      assert Label(n)[0] == Lit(n.key[0]);
    } else {
      assert Label(n)[0] == Hole(n.param.value);
    }
  }

  lemma ChildInAt(nodes: seq<Node>, cs: seq<nat>, k: nat, t: Token)
    requires forall m :: 0 <= m < |cs| ==> cs[m] < |nodes|
    requires k < |cs| && Label(nodes[cs[k]]) == [t] && forall m :: 0 <= m < k ==> Label(nodes[cs[m]]) != [t]
    ensures ChildIn(nodes, cs, t) == Some(cs[k])
    decreases k
  {
    if k > 0 {
      ChildInAt(nodes, cs[1..], k - 1, t);
    }
  }

  lemma BuildingLabelled(nodes: seq<Node>)
    requires Forward(nodes) && Building(nodes)
    ensures Labelled(nodes) && Owned(nodes, {})
  {
  }

  /** The rule of every token sequence is the one in `added`. */
  ghost predicate RulesAre(nodes: seq<Node>, added: map<seq<Token>, nat>)
    requires Forward(nodes)
  {
    forall ts :: RuleOf(nodes, ts) == if ts in added then added[ts] else 0
  }

  lemma MeansRules(nodes: seq<Node>, added: map<seq<Token>, nat>)
    requires Forward(nodes) && Building(nodes)
    ensures Means(nodes, added) <==> RulesAre(nodes, added) && forall ts :: ts in added ==> added[ts] != 0
  {
    hide Routes, RuleOf, Building;
    forall ts, r ensures Route(ts, r) in Routes(nodes, 0) <==> r != 0 && RuleOf(nodes, ts) == r {
      RoutesAreRules(nodes, ts, r);
    }
    if Means(nodes, added) {
      forall ts ensures RuleOf(nodes, ts) == if ts in added then added[ts] else 0 {
        assert ts in added ==> Route(ts, added[ts]) in Routes(nodes, 0);
        assert RuleOf(nodes, ts) != 0 ==> Route(ts, RuleOf(nodes, ts)) in Routes(nodes, 0);
      }
      forall ts | ts in added ensures added[ts] != 0 {
        assert Route(ts, added[ts]) in Routes(nodes, 0);
      }
    }
  }

  lemma LeafOf(t: Token, leaf: Node)
    requires leaf == match t case Lit(c) => BLANK.(key := [c]) case Hole(p) => BLANK.(param := Some(p))
    ensures IsLeafOf(t, leaf)
  {
    match t
    case Lit(c) => assert Lits([c])[0] == Lit(c);
    case Hole(p) =>
  }

  lemma HasRule(nodes: seq<Node>, added: map<seq<Token>, nat>, ts: seq<Token>)
    requires Forward(nodes) && Building(nodes) && Means(nodes, added)
    ensures ts in added <==> RuleOf(nodes, ts) != 0
  {
    hide RuleOf, Building;
    MeansRules(nodes, added);
  }

  lemma FirstToken(url: string, i: nat)
    requires i < |url| && WellFormed(url[i..])
    ensures url[i] == '<' ==>
              && HoleAt(url[i..]).Some? && i + HoleAt(url[i..]).value.1 <= |url|
              && WellFormed(url[i + HoleAt(url[i..]).value.1..])
              && Tokens(url[i..]) == [Hole(HoleAt(url[i..]).value.0)] + Tokens(url[i + HoleAt(url[i..]).value.1..])
    ensures url[i] != '<' ==> url[i] != NUL && WellFormed(url[i + 1..])
                              && Tokens(url[i..]) == [Lit(url[i])] + Tokens(url[i + 1..])
  {
    if url[i] == '<' {
      assert url[i..][HoleAt(url[i..]).value.1..] == url[i + HoleAt(url[i..]).value.1..];
    } else {
      assert url[i..][1..] == url[i + 1..];
    }
  }

  lemma NoTokens(url: string)
    ensures WellFormed(url[|url|..]) && Tokens(url[|url|..]) == []
  {
  }

  lemma RuleHere(nodes: seq<Node>, path: seq<Token>)
    requires Forward(nodes) && Walk(nodes, path).Some?
    ensures RuleOf(nodes, path) == nodes[Walk(nodes, path).value].rule
  {
  }

  /** The last step of adding a pattern. */
  lemma Finish(was: seq<Node>, grown: seq<Node>, path: seq<Token>, rule: nat,
               before: map<seq<Token>, nat>, after: map<seq<Token>, nat>)
    requires Forward(was) && Building(was) && Means(was, before)
    requires Forward(grown) && Building(grown) && Walk(grown, path).Some? && RuleOf(grown, path) == 0
    requires forall ts :: RuleOf(grown, ts) == RuleOf(was, ts)
    requires after == if rule != 0 then before[path := rule] else before
    ensures var idx := Walk(grown, path).value;
            var g := grown[idx := grown[idx].(rule := rule)];
            Forward(g) && Building(g) && Means(g, after)
  {
    hide RuleOf, Building, Forward, Walk, Means;
    var idx := Walk(grown, path).value;
    var g := grown[idx := grown[idx].(rule := rule)];
    MeansRules(was, before);
    RuleSet(grown, path, rule, path);
    forall ts ensures RuleOf(g, ts) == if ts in after then after[ts] else 0 {
      RuleSet(grown, path, rule, ts);
    }
    MeansRules(g, after);
  }

  lemma WalkNowhere(nodes: seq<Node>)
    requires Forward(nodes)
    ensures Walk(nodes, []) == Some(0)
  {
  }

  /** The newest possible position if there is no child. */
  ghost function FirstChild(nodes: seq<Node>, i: nat): nat
    requires i < |nodes|
  {
    if nodes[i].children == [] then |nodes| else nodes[i].children[0]
  }

  lemma {:induction false} KidsNonzero(nodes: seq<Node>, i: nat, k: nat)
    requires Forward(nodes) && i < |nodes| && k <= |nodes[i].children|
    ensures forall r :: r in Kids(nodes, i, k) ==> r.rule != 0
    decreases |nodes| - i, k
  {
    if k > 0 {
      var c := nodes[i].children[k - 1];
      KidsNonzero(nodes, i, k - 1);
      KidsNonzero(nodes, c, |nodes[c].children|);
    }
  }

  /** The scan of the routes, in terms of the patterns that were added. */
  lemma BestOfAdded(strtod: Strtod, nodes: seq<Node>, added: map<seq<Token>, nat>, url: string)
    requires Forward(nodes) && Means(nodes, added)
    ensures var f := Best(strtod, Routes(nodes, 0), url, 0, NO_PARAMS);
            && (f.rule == 0 <==> forall ts :: ts in added ==> Match(strtod, ts, url, 0, NO_PARAMS).None?)
            && (f.rule != 0 ==> exists ts :: ts in added && added[ts] == f.rule
                                            && Match(strtod, ts, url, 0, NO_PARAMS) == Some(f.params))
            && (forall ts :: ts in added && Match(strtod, ts, url, 0, NO_PARAMS).Some? ==> 0 < f.rule <= added[ts])
  {
    KidsNonzero(nodes, 0, |nodes[0].children|);
    var rs := Routes(nodes, 0);
    assert forall r :: r in rs ==> r.rule != 0;
    hide Best, Routes, Match;
    var f := Best(strtod, rs, url, 0, NO_PARAMS);
    BestMeans(strtod, rs, url, 0, NO_PARAMS);
    forall ts | ts in added && Match(strtod, ts, url, 0, NO_PARAMS).Some? ensures 0 < f.rule <= added[ts] {
      var i :| 0 <= i < |rs| && rs[i] == Route(ts, added[ts]);
    }
    if f.rule != 0 {
      var i :| 0 <= i < |rs| && rs[i].rule == f.rule
          && Match(strtod, rs[i].tokens, url, 0, NO_PARAMS) == Some(f.params);
      assert Route(rs[i].tokens, rs[i].rule) in rs;
    }
  }

  lemma HeadBranch(nodes: seq<Node>)
    requires Forward(nodes) && Labelled(nodes)
    ensures Branch(nodes, 0) == Routes(nodes, 0)
  {
    hide Routes;
    assert Label(nodes[0]) == [];
    PrefixedNothing(Routes(nodes, 0));
  }

  lemma MeansKept(a: seq<Node>, b: seq<Node>, added: map<seq<Token>, nat>)
    requires Forward(a) && Labelled(a) && Forward(b) && Labelled(b) && Branch(a, 0) == Branch(b, 0) && Means(a, added)
    ensures Routes(b, 0) == Routes(a, 0) && Means(b, added)
  {
    HeadBranch(a);
    HeadBranch(b);
    hide Routes, Branch;
  }

  /** What compressing some nodes leaves as it was. */
  ghost predicate Kept(was: seq<Node>, now: seq<Node>)
    requires Forward(was)
  {
    && Forward(now) && |now| == |was|
    && (forall j :: 0 <= j < |was| ==> now[j].param == was[j].param)
    && (forall j :: 0 <= j < |was| ==> Branch(now, j) == Branch(was, j))
    && (forall j :: 0 <= j < |was| && Compressed(was, j) ==> Compressed(now, j))
  }

  lemma KeptSelf(nodes: seq<Node>)
    requires Forward(nodes)
    ensures Kept(nodes, nodes)
  {
  }

  lemma KeptMeans(was: seq<Node>, now: seq<Node>, added: map<seq<Token>, nat>)
    requires Forward(was) && Labelled(was) && Means(was, added) && Kept(was, now) && Labelled(now)
    ensures Routes(now, 0) == Routes(was, 0) && Means(now, added)
  {
    hide Routes, Branch, Compressed, Means;
    MeansKept(was, now, added);
  }

  lemma KeptCompressed(was: seq<Node>, now: seq<Node>)
    requires Forward(was) && Kept(was, now)
    ensures Forward(now) && |now| == |was| && forall j :: 0 <= j < |was| && Compressed(was, j) ==> Compressed(now, j)
  {
  }

  /** A node that could not be merged still cannot be, and its children are compressed. */
  lemma CompressedHere(was: seq<Node>, now: seq<Node>, i: nat)
    requires Forward(was) && Kept(was, now) && i < |was| && !IsSimpleNode(was, i) && now[i] == was[i]
    requires forall m :: 0 <= m < |now[i].children| ==> Compressed(now, now[i].children[m])
    ensures Compressed(now, i)
  {
    hide Branch;
  }

  /** The merge touches one node, and moves its first child on. */
  lemma MergedNode(nodes: seq<Node>, i: nat)
    requires Forward(nodes) && i < |nodes| && Mergeable(nodes, i)
    ensures |Merged(nodes, i)| == |nodes| && forall j :: 0 <= j < |nodes| && j != i ==> Merged(nodes, i)[j] == nodes[j]
    ensures FirstChild(nodes, i) < FirstChild(Merged(nodes, i), i)
  {
  }

  lemma KeptTrans(a: seq<Node>, b: seq<Node>, c: seq<Node>)
    requires Forward(a) && Kept(a, b) && Kept(b, c)
    ensures Kept(a, c)
  {
    hide Branch, Compressed;
    forall j | 0 <= j < |a| ensures Branch(c, j) == Branch(a, j) {
      assert Branch(b, j) == Branch(a, j);
    }
  }

  lemma MergedKept(nodes: seq<Node>, i: nat)
    requires Forward(nodes) && i < |nodes| && Mergeable(nodes, i) && Forward(Merged(nodes, i))
    requires forall j :: 0 <= j < |nodes| ==> Merged(nodes, i)[j].param == nodes[j].param
    ensures Kept(nodes, Merged(nodes, i))
  {
    var g := Merged(nodes, i);
    hide Branch, Merged;
    forall j | 0 <= j < |nodes| ensures Branch(g, j) == Branch(nodes, j) {
      MergedMeans(nodes, i, j);
    }
    forall j | 0 <= j < |nodes| && Compressed(nodes, j) ensures Compressed(g, j) {
      CompressedKept(nodes, i, j);
    }
  }

  class Trie {
    var nodes: seq<Node>
    const strtod: Strtod
    /** The patterns added so far that have a rule, and the nodes that were deleted. */
    ghost var added: map<seq<Token>, nat>
    ghost var freed: set<nat>

    ghost predicate Valid()
      reads this
    {
      Forward(nodes) && Labelled(nodes) && Owned(nodes, freed) && Means(nodes, added)
    }

    /** No node has been merged yet. */
    ghost predicate Unoptimized()
      reads this
    {
      Forward(nodes) && Building(nodes) && freed == {}
    }

    constructor (strtod: Strtod)
      ensures Valid() && Unoptimized() && added == map[] && this.strtod == strtod
    {
      this.strtod := strtod;
      nodes := [BLANK];
      added, freed := map[], {};
    }

    /** The child of `idx` for one token, made if there is none. */
    method Descend(idx: nat, t: Token, ghost path: seq<Token>) returns (next: nat)
      requires Unoptimized() && t != Lit(NUL) && Walk(nodes, path) == Some(idx)
      modifies `nodes
      ensures Unoptimized() && Walk(nodes, path + [t]) == Some(next)
      ensures forall ts :: RuleOf(nodes, ts) == RuleOf(old(nodes), ts)
      ensures nodes != old(nodes) || old(nodes)[idx].children == [] ==>
              nodes[next].children == [] && nodes[next].rule == 0
    {
      hide RuleOf, Owned, Distinct, Label;
      var cs := nodes[idx].children;
      assert (path + [t])[..|path|] == path;
      var k := 0;
      while k < |cs|
        invariant k <= |cs| && nodes == old(nodes)
        invariant forall m :: 0 <= m < k ==> Label(nodes[cs[m]]) != [t]
      {
        CarriesMeans(nodes[cs[k]], t);
        if Carries(nodes[cs[k]], t) {
          ChildInAt(nodes, cs, k, t);
          next := cs[k];
          return;
        }
        k := k + 1;
      }
      var leaf := match t case Lit(c) => BLANK.(key := [c]) case Hole(p) => BLANK.(param := Some(p));
      LeafOf(t, leaf);
      ghost var was := nodes;
      next := |nodes|;
      nodes := Grown(nodes, idx, leaf);
      forall ts ensures RuleOf(nodes, ts) == RuleOf(was, ts) {
        GrownRule(was, path, t, leaf, ts);
      }
      GrownWalk(was, path, t, leaf, path + [t]);
    }

    /** Add a pattern.  False, and nothing changed, exactly when the same tokens already have a rule. */
    method Add(url: string, rule: nat) returns (ok: bool)
      requires Valid() && Unoptimized() && WellFormed(url)
      modifies this
      ensures Valid() && Unoptimized()
      ensures ok <==> Tokens(url) !in old(added)
      ensures added == if ok && rule != 0 then old(added)[Tokens(url) := rule] else old(added)
      ensures !ok ==> nodes == old(nodes)
    {
      hide RuleOf, Building, Forward, Walk, Means, RulesAre, Labelled, Owned, WellFormed, Tokens, HoleAt;
      HasRule(nodes, added, Tokens(url));
      ghost var path := [];
      var idx, i := 0, 0;
      assert url[0..] == url;
      WalkNowhere(nodes);
      while i < |url|
        invariant i <= |url| && WellFormed(url[i..]) && path + Tokens(url[i..]) == Tokens(url)
        invariant Unoptimized() && Walk(nodes, path) == Some(idx) && added == old(added) && freed == old(freed)
        invariant forall ts :: RuleOf(nodes, ts) == RuleOf(old(nodes), ts)
        invariant nodes == old(nodes) || (nodes[idx].children == [] && nodes[idx].rule == 0)
      {
        FirstToken(url, i);
        var t, n := Lit(url[i]), 1;
        if url[i] == '<' {
          var hole := HoleAt(url[i..]);
          t, n := Hole(hole.value.0), hole.value.1;
        }
        assert path + ([t] + Tokens(url[i + n..])) == path + [t] + Tokens(url[i + n..]);
        idx := Descend(idx, t, path);
        path := path + [t];
        i := i + n;
      }
      assert path == Tokens(url) by {
        NoTokens(url);
      }
      assert nodes[idx].rule == RuleOf(nodes, path) by {
        RuleHere(nodes, path);
      }
      if nodes[idx].rule != 0 {
        return false;
      }
      ghost var was := nodes;
      nodes := nodes[idx := nodes[idx].(rule := rule)];
      if rule != 0 {
        added := added[path := rule];
      }
      Finish(old(nodes), was, path, rule, old(added), added);
      BuildingLabelled(nodes);
      ok := true;
    }

    /** The backtracking search. */
    method FindFrom(url: string, node: nat, pos: nat, params: RoutingParams) returns (found: nat, matched: Params)
      requires Valid() && node < |nodes| && node !in freed && pos <= |url|
      modifies params
      ensures params.Value() == old(params.Value())
      ensures Agrees(found, matched, Best(strtod, Routes(nodes, node), url, pos, params.Value()))
      decreases |nodes| - node, 0
    {
      hide Best, Routes, Enter, Scan, Labelled, OneParent, Means;
      found, matched := 0, NO_PARAMS;
      if pos == |url| {
        BestAtNode(strtod, nodes, node, url, params.Value());
        found := nodes[node].rule;
        matched := params.Copy();
        return;
      }
      BestBelow(strtod, nodes, node, url, pos, params.Value());
      BestOfNone(strtod, url, pos, params.Value());
      var i := 0;
      while i < |nodes[node].children|
        invariant i <= |nodes[node].children|
        invariant params.Value() == old(params.Value())
        invariant Agrees(found, matched, Best(strtod, Kids(nodes, node, i), url, pos, params.Value()))
      {
        var rule, captured := FindChild(url, nodes[node].children[i], pos, params);
        BestAppend(strtod, Kids(nodes, node, i), Branch(nodes, nodes[node].children[i]), url, pos, params.Value());
        if rule != 0 && (found == 0 || found > rule) {
          found, matched := rule, captured;
        }
        i := i + 1;
      }
    }

    /** One turn of the loop over the children: try to enter the child and search on from there. */
    method FindChild(url: string, child: nat, pos: nat, params: RoutingParams) returns (found: nat, matched: Params)
      requires Valid() && child < |nodes| && child !in freed && pos < |url|
      modifies params
      ensures params.Value() == old(params.Value())
      ensures Agrees(found, matched, Best(strtod, Branch(nodes, child), url, pos, params.Value()))
      decreases |nodes| - child, 1
    {
      hide Best, Routes, Branch, Scan, Labelled, Owned, Means, Push;
      found, matched := 0, NO_PARAMS;
      var n := nodes[child];
      ghost var before := params.Value();
      BranchBest(strtod, nodes, child, url, pos, before);
      if n.param.Some? {
        var taken := Scan(strtod, n.param.value, url[pos..]);
        if taken.Some? {
          ScanKind(strtod, n.param.value, url[pos..]);
          params.PushBack(taken.value.1);
          found, matched := FindFrom(url, child, pos + taken.value.0, params);
          params.PopBack(n.param.value, before, taken.value.1);
        }
      } else if pos + |n.key| <= |url| && url[pos..pos + |n.key|] == n.key {
        found, matched := FindFrom(url, child, pos + |n.key|, params);
      }
    }

    /** The search from the head: the lowest rule among all patterns that match the whole url,
        with what that pattern captured; 0 exactly when none matches. */
    method Find(url: string) returns (found: nat, matched: Params)
      requires Valid()
      ensures found == 0 <==> forall ts :: ts in added ==> Match(strtod, ts, url, 0, NO_PARAMS).None?
      ensures found != 0 ==> exists ts :: ts in added && added[ts] == found
                                         && Match(strtod, ts, url, 0, NO_PARAMS) == Some(matched)
      ensures forall ts :: ts in added && Match(strtod, ts, url, 0, NO_PARAMS).Some? ==> 0 < found <= added[ts]
      ensures Agrees(found, matched, Best(strtod, Routes(nodes, 0), url, 0, NO_PARAMS))
    {
      hide Best, Routes, Labelled, Match, OneParent;
      var params := new RoutingParams();
      found, matched := FindFrom(url, 0, 0, params);
      BestOfAdded(strtod, nodes, added, url);
    }

    /** Merge every node below `node`, and `node` itself, that can be merged with its only child. */
    method OptimizeNode(node: nat)
      requires Valid() && 0 < node < |nodes| && node !in freed
      modifies `nodes, `freed
      ensures Valid() && freed >= old(freed) && Kept(old(nodes), nodes) && Compressed(nodes, node)
      ensures forall j :: 0 <= j < node ==> nodes[j] == old(nodes)[j]
      ensures forall j :: j in freed ==> j in old(freed) || j > node
      decreases |nodes| - node, |nodes| - FirstChild(nodes, node)
    {
      hide Labelled, Means, Branch, OneParent, Kept, Merged;
      if nodes[node].children == [] {
        KeptSelf(nodes);
        return;
      }
      if IsSimpleNode(nodes, node) {
        var c := nodes[node].children[0];
        MergedShape(nodes, node, freed);
        MergedKept(nodes, node);
        MergedNode(nodes, node);
        ghost var was := nodes;
        nodes := Merged(nodes, node);
        ghost var merged := nodes;
        freed := freed + {c};
        KeptMeans(was, nodes, added);
        OptimizeNode(node);
        KeptTrans(was, merged, nodes);
      } else {
        var i := 0;
        KeptSelf(nodes);
        while i < |nodes[node].children|
          invariant Valid() && freed >= old(freed) && Kept(old(nodes), nodes) && |nodes| == |old(nodes)|
          invariant forall j :: j in freed ==> j in old(freed) || j > node
          invariant forall j :: 0 <= j <= node ==> nodes[j] == old(nodes)[j]
          invariant i <= |nodes[node].children|
          invariant forall m :: 0 <= m < i ==> Compressed(nodes, nodes[node].children[m])
        {
          ghost var was := nodes;
          OptimizeNode(nodes[node].children[i]);
          KeptTrans(old(nodes), was, nodes);
          KeptCompressed(was, nodes);
          i := i + 1;
        }
        CompressedHere(old(nodes), nodes, node);
      }
    }

    /** Compress the trie below the head: every search goes on to find what it found before. */
    method Optimize()
      requires Valid()
      modifies `nodes, `freed
      ensures Valid() && Routes(nodes, 0) == old(Routes(nodes, 0)) && nodes[0] == old(nodes[0])
      ensures forall k :: 0 <= k < |nodes[0].children| ==> Compressed(nodes, nodes[0].children[k])
    {
      hide Labelled, Means, Branch, OneParent, Kept, Routes, Compressed;
      var i := 0;
      KeptSelf(nodes);
      while i < |nodes[0].children|
        invariant Valid() && Kept(old(nodes), nodes) && nodes[0] == old(nodes)[0] && i <= |nodes[0].children|
        invariant forall m :: 0 <= m < i ==> Compressed(nodes, nodes[0].children[m])
      {
        ghost var was := nodes;
        OptimizeNode(nodes[0].children[i]);
        KeptTrans(old(nodes), was, nodes);
        KeptCompressed(was, nodes);
        i := i + 1;
      }
      KeptMeans(old(nodes), nodes, added);
    }

    /** The check of the head before compressing; false is the exception "Trie header should be simple". */
    method Validate() returns (ok: bool)
      requires Valid()
      modifies `nodes, `freed
      ensures Valid() && Routes(nodes, 0) == old(Routes(nodes, 0))
      ensures ok <==> old(IsSimpleNode(nodes, 0))
      ensures !ok ==> nodes == old(nodes)
      ensures ok ==> forall k :: 0 <= k < |nodes[0].children| ==> Compressed(nodes, nodes[0].children[k])
    {
      hide Routes, Compressed;
      ok := IsSimpleNode(nodes, 0);
      if ok {
        Optimize();
      }
    }
  }
}
