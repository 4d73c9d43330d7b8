/** Merging a node with its only child keeps the meaning of the trie. */
module RouteCompress {
  import opened Basics
  import opened RoutePatterns
  import opened RouteNodes
  import opened RouteBuild

  /** Only the head has an empty label. */
  predicate Labelled(nodes: seq<Node>) {
    && |nodes| > 0 && nodes[0].param.None? && nodes[0].key == ""
    && forall i :: 0 < i < |nodes| ==> (nodes[i].param.None? <==> nodes[i].key != "")
  }

  predicate IsSimpleNode(nodes: seq<Node>, i: nat)
    requires Forward(nodes) && i < |nodes|
  {
    && nodes[i].rule == 0 && |nodes[i].children| < 2 && nodes[i].param.None?
    && forall k :: 0 <= k < |nodes[i].children| ==> nodes[nodes[i].children[k]].param.None?
  }

  predicate Mergeable(nodes: seq<Node>, i: nat)
    requires Forward(nodes) && i < |nodes|
  {
    IsSimpleNode(nodes, i) && nodes[i].children != []
  }

  /** Node `i` takes over key, rule and children of its only child. */
  function Merged(nodes: seq<Node>, i: nat): seq<Node>
    requires Forward(nodes) && i < |nodes| && Mergeable(nodes, i)
  {
    var c := nodes[nodes[i].children[0]];
    nodes[i := Node(c.rule, nodes[i].key + c.key, None, c.children)]
  }

  lemma MergedShape(nodes: seq<Node>, i: nat, freed: set<nat>)
    requires Forward(nodes) && Labelled(nodes) && Owned(nodes, freed) && 0 < i < |nodes| && i !in freed
             && Mergeable(nodes, i)
    ensures Forward(Merged(nodes, i)) && Labelled(Merged(nodes, i))
    ensures Owned(Merged(nodes, i), freed + {nodes[i].children[0]})
    ensures forall j :: 0 <= j < |nodes| ==> Merged(nodes, i)[j].param == nodes[j].param
  {
  }

  // ---------------------------------------------------------------- meaning

  lemma {:induction false} KidsSame(a: seq<Node>, i: nat, b: seq<Node>, j: nat, k: nat)
    requires Forward(a) && Forward(b) && i < |a| && j < |b|
    requires k <= |a[i].children| && a[i].children == b[j].children
    requires forall m :: 0 <= m < k ==>
             a[i].children[m] < |b| && Branch(a, a[i].children[m]) == Branch(b, a[i].children[m])
    ensures Kids(a, i, k) == Kids(b, j, k)
    decreases k
  {
    if k > 0 {
      KidsSame(a, i, b, j, k - 1);
      assert Branch(a, a[i].children[k - 1]) == Branch(b, a[i].children[k - 1]);
    }
  }

  /** If every node from `j` on is unchanged or at least means the same, so does `j`. */
  lemma {:induction false} BranchesKept(a: seq<Node>, b: seq<Node>, j: nat)
    requires Forward(a) && Forward(b) && |a| == |b| && j < |a|
    requires forall x :: j <= x < |a| ==> a[x] == b[x] || Branch(a, x) == Branch(b, x)
    ensures Branch(a, j) == Branch(b, j)
    decreases |a| - j
  {
    if a[j] == b[j] {
      forall m | 0 <= m < |a[j].children| ensures Branch(a, a[j].children[m]) == Branch(b, a[j].children[m]) {
        BranchesKept(a, b, a[j].children[m]);
      }
      KidsSame(a, j, b, j, |a[j].children|);
    }
  }

  /** The merged node: its longer label in front of what was behind its child. */
  lemma MergedHere(nodes: seq<Node>, i: nat)
    requires Forward(nodes) && i < |nodes| && Mergeable(nodes, i) && Forward(Merged(nodes, i))
    ensures Branch(Merged(nodes, i), i) == Branch(nodes, i)
  {
    var g := Merged(nodes, i);
    var c := nodes[i].children[0];
    assert Kids(nodes, i, 0) == [];
    assert Routes(nodes, i) == Branch(nodes, c);
    forall m | 0 <= m < |g[i].children| ensures Branch(g, g[i].children[m]) == Branch(nodes, g[i].children[m]) {
      BranchesKept(g, nodes, g[i].children[m]);
    }
    KidsSame(g, i, nodes, c, |g[i].children|);
    assert Routes(g, i) == Routes(nodes, c);
    PrefixedTwice(Label(nodes[i]), Label(nodes[c]), Routes(nodes, c));
    assert Lits(nodes[i].key + nodes[c].key) == Lits(nodes[i].key) + Lits(nodes[c].key);
  }

  /** Merging one node keeps the routes through every node. */
  lemma MergedMeans(nodes: seq<Node>, i: nat, j: nat)
    requires Forward(nodes) && i < |nodes| && Mergeable(nodes, i) && Forward(Merged(nodes, i)) && j < |nodes|
    ensures Branch(Merged(nodes, i), j) == Branch(nodes, j)
  {
    hide Branch;
    MergedHere(nodes, i);
    BranchesKept(Merged(nodes, i), nodes, j);
  }

  // ---------------------------------------------------------------- compressed

  /** No node from `i` down could be merged with its child. */
  predicate Compressed(nodes: seq<Node>, i: nat)
    requires Forward(nodes) && i < |nodes|
    decreases |nodes| - i
  {
    !Mergeable(nodes, i) && forall k :: 0 <= k < |nodes[i].children| ==> Compressed(nodes, nodes[i].children[k])
  }

  /** What is compressed is not touched by a merge. */
  lemma {:induction false} CompressedKept(nodes: seq<Node>, i: nat, j: nat)
    requires Forward(nodes) && i < |nodes| && Mergeable(nodes, i) && Forward(Merged(nodes, i))
    requires j < |nodes| && Compressed(nodes, j)
    ensures Compressed(Merged(nodes, i), j)
    decreases |nodes| - j
  {
    var g := Merged(nodes, i);
    assert j != i;
    forall k | 0 <= k < |g[j].children| ensures Compressed(g, g[j].children[k]) {
      CompressedKept(nodes, i, nodes[j].children[k]);
    }
  }
}
