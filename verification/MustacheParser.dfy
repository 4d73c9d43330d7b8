/** Compiling a template: one pass over the body that cuts it at its tags and ties the two ends of
    each block together. */
module MustacheParser {
  import opened Basics
  import opened MustacheTemplate

  // ---------------------------------------------------------------- marks and tags

  /** Two braces. */
  predicate Mark(body: string, c: char, i: nat) {
    i + 2 <= |body| && body[i] == c && body[i + 1] == c
  }

  ghost predicate FirstMark(body: string, c: char, from: nat, i: nat) {
    from <= i && Mark(body, c, i) && forall j :: from <= j < i ==> !Mark(body, c, j)
  }

  ghost predicate NoMark(body: string, c: char, from: nat) {
    forall j :: from <= j ==> !Mark(body, c, j)
  }

  /** `std::string::find` for a pair of braces. */
  method Find(body: string, c: char, from: nat) returns (r: Option<nat>)
    requires from <= |body|
    ensures match r case None => NoMark(body, c, from) case Some(i) => FirstMark(body, c, from, i)
  {
    var i := from;
    while i < |body|
      invariant from <= i <= |body| && forall j :: from <= j < i ==> !Mark(body, c, j)
    {
      if Mark(body, c, i) {
        return Some(i);
      }
      i := i + 1;
    }
    r := None;
  }

  /** The range left after skipping the spaces from `lo` on and the spaces before `hi`, each as far
      as they go. */
  ghost predicate Trimmed(body: string, lo: nat, hi: nat, start: nat, end: nat) {
    && lo <= start <= hi < |body| && 0 < end <= hi
    && (forall i :: lo <= i < start ==> body[i] == ' ') && body[start] != ' '
    && (forall i :: end <= i < hi ==> body[i] == ' ') && body[end - 1] != ' '
  }

  method Trim(body: string, lo: nat, hi: nat) returns (start: nat, end: nat)
    requires 0 < lo <= hi < |body| && body[lo - 1] != ' ' && body[hi] != ' '
    ensures Trimmed(body, lo, hi, start, end)
  {
    start := lo;
    while body[start] == ' '
      invariant lo <= start <= hi && forall i :: lo <= i < start ==> body[i] == ' '
      decreases hi - start
    {
      start := start + 1;
    }
    end := hi;
    while body[end - 1] == ' '
      invariant lo <= end <= hi && forall i :: end <= i < hi ==> body[i] == ' '
      decreases end
    {
      end := end - 1;
    }
  }

  function SigilType(c: char): Option<ActionType> {
    if c == '#' then Some(OpenBlock)
    else if c == '/' then Some(CloseBlock)
    else if c == '^' then Some(ElseBlock)
    else if c == '!' then Some(Ignore)
    else if c == '>' then Some(Partial)
    else if c == '{' || c == '&' then Some(UnescapeTag)
    else None
  }

  /** The first closing braces behind the opening ones at `at`, with something in between. */
  ghost predicate Closes(body: string, at: nat, close: nat) {
    at + 2 < close && FirstMark(body, '}', at + 2, close)
  }

  /** The tag whose opening braces stand at `at`, whose closing braces stand at `close`, is the
      action `a`, and the body goes on at `next`. */
  ghost predicate TagIs(body: string, at: nat, close: nat, a: Action, next: nat) {
    && Closes(body, at, close)
    && var sigil := SigilType(body[at + 2]);
       && body[at + 2] != '='
       && a.t == (if sigil.Some? then sigil.value else Tag)
       && next == (if body[at + 2] == '{' then close + 3 else close + 2)
       && (body[at + 2] == '{' ==> close + 2 < |body| && body[close + 2] == '}')
       && (if a.t.Ignore? then a.start == at + 3 && a.end == close
           else Trimmed(body, if sigil.Some? then at + 3 else at + 2, close, a.start, a.end))
  }

  /** The character behind the opening braces decides what a tag is. */
  lemma KindExactly(body: string, at: nat, close: nat, a: Action, next: nat)
    requires TagIs(body, at, close, a, next)
    ensures var c := body[at + 2];
            && (a.t.OpenBlock? <==> c == '#') && (a.t.ElseBlock? <==> c == '^') && (a.t.CloseBlock? <==> c == '/')
            && (a.t.Ignore? <==> c == '!') && (a.t.Partial? <==> c == '>')
            && (a.t.UnescapeTag? <==> c == '{' || c == '&')
  {
  }

  ghost predicate IsTag(body: string, at: nat, a: Action, next: nat) {
    exists close: nat :: TagIs(body, at, close, a, next)
  }

  datatype Failure = EmptyTag | UnmatchedOpening | UnmatchedTriple | UnmatchedPair | NothingOpen | SetDelimiter

  /** Why the tag at `at` is no tag. */
  ghost predicate TagFails(body: string, at: nat, f: Failure) {
    match f
    case EmptyTag => Mark(body, '}', at + 2)
    case UnmatchedOpening => NoMark(body, '}', at + 2)
    case UnmatchedTriple =>
      at + 2 < |body| && body[at + 2] == '{' &&
      exists close: nat :: Closes(body, at, close) && !(close + 2 < |body| && body[close + 2] == '}')
    case SetDelimiter => at + 2 < |body| && body[at + 2] == '='
    case _ => false
  }

  datatype TagResult = TagRead(action: Action, close: nat, next: nat) | TagBad(failure: Failure)

  /** The tag at `at`; its closing end and jump position are still open. */
  method ReadTag(body: string, at: nat) returns (r: TagResult)
    requires Mark(body, '{', at)
    ensures match r
            case TagRead(a, close, next) => TagIs(body, at, close, a, next) && next <= |body| && ActionFits(body, a)
                 && a.pos == 0
            case TagBad(f) => TagFails(body, at, f)
  {
    var idx := at + 2;
    var found := Find(body, '}', idx);
    if found == Some(idx) {
      return TagBad(EmptyTag);
    }
    if found.None? {
      return TagBad(UnmatchedOpening);
    }
    var close := found.value;
    assert Closes(body, at, close);
    var c := body[idx];
    var sigil := SigilType(c);
    if c == '=' {
      return TagBad(SetDelimiter);
    } else if c == '!' {
      return TagRead(Action(Ignore, idx + 1, close, 0), close, close + 2);
    } else if c == '{' && !(close + 2 < |body| && body[close + 2] == '}') {
      return TagBad(UnmatchedTriple);
    }
    var start, end := Trim(body, if sigil.Some? then idx + 1 else idx, close);
    r := TagRead(Action(if sigil.Some? then sigil.value else Tag, start, end, 0), close,
                 if c == '{' then close + 3 else close + 2);
  }

  // ---------------------------------------------------------------- what has been compiled

  /** Where the text behind tag `i` begins. */
  function TextStart(fs: seq<Fragment>, i: nat, current: nat): nat
    requires i <= |fs|
  {
    if i < |fs| then fs[i].first else current
  }

  /** Fragments and tags tile the body up to `current`: no tag opens inside a fragment, and every
      action is the tag that stands between its fragment and the next. */
  ghost predicate Tiles(body: string, fs: seq<Fragment>, acts: seq<Action>, current: nat) {
    && |fs| == |acts| && current <= |body|
    && TextStart(fs, 0, current) == 0
    && forall i :: 0 <= i < |fs| ==>
         FirstMark(body, '{', fs[i].first, fs[i].second)
         && ActionFits(body, acts[i])
         && IsTag(body, fs[i].second, acts[i], TextStart(fs, i + 1, current))
  }

  /** Blocks close under the name they opened with. */
  ghost predicate WellNamed(body: string, ns: seq<Node>) {
    forall i :: 0 <= i < |ns| ==> NodeWellNamed(body, ns[i])
  }

  ghost predicate NodeWellNamed(body: string, n: Node) {
    n.Block? ==>
      && ActionFits(body, n.open) && ActionFits(body, n.close) && NameOf(body, n.open) == NameOf(body, n.close)
      && forall i :: 0 <= i < |n.items| ==> NodeWellNamed(body, n.items[i])
  }

  /** The open blocks, outermost first, and the finished nodes at every level between them. */
  ghost predicate Levels(body: string, fs: seq<Fragment>, acts: seq<Action>, bp: seq<nat>, levels: seq<seq<Node>>) {
    && |fs| == |acts| && |levels| == |bp| + 1
    && (forall k :: 0 <= k < |bp| ==> bp[k] < |acts| && Opens(acts[bp[k]].t) && acts[bp[k]].pos == 0)
    && forall k :: 0 <= k < |levels| ==> LevelStands(body, fs, acts, bp, levels[k], k)
  }

  ghost predicate LevelStands(body: string, fs: seq<Fragment>, acts: seq<Action>, bp: seq<nat>, ns: seq<Node>, k: nat)
    requires |fs| == |acts| && k <= |bp|
  {
    var at := if k == 0 then 0 else bp[k - 1] + 1;
    && Stands(fs, acts, ns, at) && WellNamed(body, ns)
    && at + SizeAll(ns) == if k < |bp| then bp[k] else |acts|
  }

  /** A list of nodes does not depend on what stands outside its own range. */
  lemma {:induction false} StandsKept(fs: seq<Fragment>, acts: seq<Action>, fs': seq<Fragment>, acts': seq<Action>,
                                      ns: seq<Node>, at: nat)
    requires |fs| == |acts| && |fs'| == |acts'| && Stands(fs, acts, ns, at) && at + SizeAll(ns) <= |acts'|
    requires forall i :: at <= i < at + SizeAll(ns) ==> fs'[i] == fs[i] && acts'[i] == acts[i]
    ensures Stands(fs', acts', ns, at)
    decreases ns
  {
    if ns != [] {
      var k := |ns| - 1;
      StandsKept(fs, acts, fs', acts', ns[..k], at);
      if ns[k].Block? {
        StandsKept(fs, acts, fs', acts', ns[k].items, at + SizeAll(ns[..k]) + 1);
      }
    }
  }

  lemma StandsSnoc(fs: seq<Fragment>, acts: seq<Action>, ns: seq<Node>, n: Node, at: nat)
    requires |fs| == |acts| && Stands(fs, acts, ns, at) && NodeStands(fs, acts, n, at + SizeAll(ns))
    ensures Stands(fs, acts, ns + [n], at) && SizeAll(ns + [n]) == SizeAll(ns) + Size(n)
  {
    assert (ns + [n])[..|ns|] == ns;
  }

  /** Levels bound: the positions of open blocks grow. */
  lemma {:induction false} OpensGrow(body: string, fs: seq<Fragment>, acts: seq<Action>, bp: seq<nat>,
                                     levels: seq<seq<Node>>, k: nat)
    requires Levels(body, fs, acts, bp, levels) && k < |bp|
    ensures forall i :: 0 <= i < k ==> bp[i] < bp[k]
  {
    if k > 0 {
      OpensGrow(body, fs, acts, bp, levels, k - 1);
      assert LevelStands(body, fs, acts, bp, levels[k], k);
    }
  }

  /** A leaf goes to the innermost level. */
  lemma LeafAdded(body: string, fs: seq<Fragment>, acts: seq<Action>, bp: seq<nat>, levels: seq<seq<Node>>, f: Fragment,
                  a: Action)
    requires Levels(body, fs, acts, bp, levels) && !Opens(a.t) && !a.t.CloseBlock?
    ensures Levels(body, fs + [f], acts + [a], bp, levels[|bp| := levels[|bp|] + [Leaf(f, a)]])
  {
    hide Stands, NodeWellNamed;
    var fs', acts', ns := fs + [f], acts + [a], levels[|bp|];
    var levels' := levels[|bp| := ns + [Leaf(f, a)]];
    forall k | 0 <= k < |levels'| ensures LevelStands(body, fs', acts', bp, levels'[k], k) {
      assert LevelStands(body, fs, acts, bp, levels[k], k);
      var at := if k == 0 then 0 else bp[k - 1] + 1;
      StandsKept(fs, acts, fs', acts', levels[k], at);
      if k == |bp| {
        StandsSnoc(fs', acts', ns, Leaf(f, a), at);
        LeafNamed(body, ns, Leaf(f, a));
      }
    }
  }

  lemma LeafNamed(body: string, ns: seq<Node>, n: Node)
    requires WellNamed(body, ns) && NodeWellNamed(body, n)
    ensures WellNamed(body, ns + [n])
  {
  }

  /** A block opens: a new innermost level. */
  lemma BlockOpened(body: string, fs: seq<Fragment>, acts: seq<Action>, bp: seq<nat>, levels: seq<seq<Node>>,
                    f: Fragment, a: Action)
    requires Levels(body, fs, acts, bp, levels) && Opens(a.t) && a.pos == 0
    ensures Levels(body, fs + [f], acts + [a], bp + [|acts|], levels + [[]])
  {
    var fs', acts', bp', levels' := fs + [f], acts + [a], bp + [|acts|], levels + [[]];
    forall k | 0 <= k < |levels'| ensures LevelStands(body, fs', acts', bp', levels'[k], k) {
      if k < |levels| {
        assert LevelStands(body, fs, acts, bp, levels[k], k);
        StandsKept(fs, acts, fs', acts', levels[k], if k == 0 then 0 else bp[k - 1] + 1);
      }
    }
  }

  /** A block closes: its two ends point at each other, and it becomes one node of the level around
      it. */
  lemma BlockClosed(body: string, fs: seq<Fragment>, acts: seq<Action>, bp: seq<nat>, levels: seq<seq<Node>>,
                    f: Fragment, a: Action)
    requires Levels(body, fs, acts, bp, levels) && |bp| > 0 && a.t.CloseBlock? && a.pos == bp[|bp| - 1]
    requires ActionFits(body, a) && ActionFits(body, acts[a.pos]) && NameOf(body, acts[a.pos]) == NameOf(body, a)
    ensures var d, o := |bp| - 1, a.pos;
            var open := acts[o].(pos := |acts|);
            Levels(body, fs + [f], acts[o := open] + [a], bp[..d],
                   levels[..d] + [levels[d] + [Block(fs[o], open, levels[d + 1], f, a)]])
  {
    hide Stands, NodeStands, NodeWellNamed, WellNamed, SizeAll;
    var d, o := |bp| - 1, a.pos;
    var open := acts[o].(pos := |acts|);
    var n := Block(fs[o], open, levels[d + 1], f, a);
    var fs', acts', bp' := fs + [f], acts[o := open] + [a], bp[..d];
    var levels' := levels[..d] + [levels[d] + [n]];
    assert LevelStands(body, fs, acts, bp, levels[d + 1], d + 1);
    StandsKept(fs, acts, fs', acts', levels[d + 1], o + 1);
    BlockStands(fs', acts', n, o);
    OpensGrow(body, fs, acts, bp, levels, d);
    forall k | 0 <= k < |levels'| ensures LevelStands(body, fs', acts', bp', levels'[k], k) {
      assert LevelStands(body, fs, acts, bp, levels[k], k);
      var at := if k == 0 then 0 else bp[k - 1] + 1;
      StandsKept(fs, acts, fs', acts', levels[k], at);
      if k == d {
        StandsSnoc(fs', acts', levels[d], n, at);
        BlockNamed(body, n);
        LeafNamed(body, levels[d], n);
      }
    }
  }

  lemma BlockStands(fs: seq<Fragment>, acts: seq<Action>, n: Node, at: nat)
    requires |fs| == |acts| && n.Block? && at + 1 + SizeAll(n.items) + 1 == |acts| && Stands(fs, acts, n.items, at + 1)
    requires fs[at] == n.text && acts[at] == n.open && Opens(n.open.t) && n.open.pos == |acts| - 1
    requires fs[|acts| - 1] == n.tail && acts[|acts| - 1] == n.close && n.close.t.CloseBlock? && n.close.pos == at
    ensures NodeStands(fs, acts, n, at) && at + Size(n) == |acts|
  {
    hide Stands;
  }

  lemma BlockNamed(body: string, n: Node)
    requires n.Block? && WellNamed(body, n.items)
    requires ActionFits(body, n.open) && ActionFits(body, n.close) && NameOf(body, n.open) == NameOf(body, n.close)
    ensures NodeWellNamed(body, n)
  {
  }

  // ---------------------------------------------------------------- the compiler

  datatype Compiled =
    | Compiled(t: Template)
    /** Accepted, but some block never closes and has no jump position. */
    | Unclosed(t: Template)
    /** The tag at `at` is refused; `t` is what stands before it. */
    | Failed(failure: Failure, at: nat, t: Template)

  /** The tag at `at` is a closing tag that does not fit what has been compiled before it. */
  ghost predicate PairFails(t: Template, at: nat, f: Failure) {
    && |t.fragments| == |t.actions|
    && exists a: Action, next: nat ::
         && IsTag(t.body, at, a, next) && a.t.CloseBlock? && ActionFits(t.body, a)
         && if f.NothingOpen? then exists ns :: WholeTree(t, ns)
            else
              && f.UnmatchedPair?
              && exists o: nat, ns :: InnerOpen(t, o, ns) && NameOf(t.body, t.actions[o]) != NameOf(t.body, a)
  }

  ghost predicate WholeTree(t: Template, ns: seq<Node>)
    requires |t.fragments| == |t.actions|
  {
    Stands(t.fragments, t.actions, ns, 0) && SizeAll(ns) == |t.actions|
  }

  /** Action `o` opened the innermost block that is still open. */
  ghost predicate InnerOpen(t: Template, o: nat, ns: seq<Node>)
    requires |t.fragments| == |t.actions|
  {
    && o < |t.actions| && Opens(t.actions[o].t) && ActionFits(t.body, t.actions[o])
    && Stands(t.fragments, t.actions, ns, o + 1) && o + 1 + SizeAll(ns) == |t.actions|
  }

  /** A finished template: its tags tile the whole body, and a filler stands behind the last. */
  ghost predicate Tiled(t: Template) {
    && |t.fragments| == |t.actions| > 0
    && var n := |t.actions| - 1;
       && t.actions[n] == Action(Ignore, 0, 0, 0)
       && t.fragments[n].first <= t.fragments[n].second == |t.body|
       && NoMark(t.body, '{', t.fragments[n].first)
       && Tiles(t.body, t.fragments[..n], t.actions[..n], t.fragments[n].first)
  }

  lemma TilesSnoc(body: string, fs: seq<Fragment>, acts: seq<Action>, current: nat, at: nat, a: Action, next: nat)
    requires Tiles(body, fs, acts, current) && FirstMark(body, '{', current, at) && IsTag(body, at, a, next)
    requires ActionFits(body, a) && next <= |body|
    ensures Tiles(body, fs + [Fragment(current, at)], acts + [a], next)
  {
    hide IsTag, FirstMark;
    var fs', acts' := fs + [Fragment(current, at)], acts + [a];
    forall i | 0 <= i < |fs'|
      ensures FirstMark(body, '{', fs'[i].first, fs'[i].second) && ActionFits(body, acts'[i])
              && IsTag(body, fs'[i].second, acts'[i], TextStart(fs', i + 1, next))
    {
      if i < |fs| {
        assert TextStart(fs', i + 1, next) == TextStart(fs, i + 1, current);
      }
    }
  }

  /** Jump positions do not matter to the tiling. */
  lemma TilesJump(body: string, fs: seq<Fragment>, acts: seq<Action>, current: nat, o: nat, pos: nat)
    requires Tiles(body, fs, acts, current) && o < |acts|
    ensures Tiles(body, fs, acts[o := acts[o].(pos := pos)], current)
  {
    hide FirstMark;
    var acts' := acts[o := acts[o].(pos := pos)];
    forall i | 0 <= i < |fs|
      ensures FirstMark(body, '{', fs[i].first, fs[i].second) && ActionFits(body, acts'[i])
              && IsTag(body, fs[i].second, acts'[i], TextStart(fs, i + 1, current))
    {
      TagJump(body, fs[i].second, acts[i], TextStart(fs, i + 1, current), pos);
    }
  }

  lemma TagJump(body: string, at: nat, a: Action, next: nat, pos: nat)
    requires IsTag(body, at, a, next)
    ensures IsTag(body, at, a.(pos := pos), next)
  {
    var close: nat :| TagIs(body, at, close, a, next);
    assert TagIs(body, at, close, a.(pos := pos), next);
  }

  /** The tags before `at` have been compiled, and the next one opens at `at`. */
  ghost predicate Reached(t: Template, at: nat) {
    exists current: nat :: Tiles(t.body, t.fragments, t.actions, current) && FirstMark(t.body, '{', current, at)
  }

  lemma TagBounds(body: string, at: nat, close: nat, a: Action, next: nat)
    requires TagIs(body, at, close, a, next)
    ensures at < next && IsTag(body, at, a, next)
  {
  }

  lemma Finished(body: string, fs: seq<Fragment>, acts: seq<Action>, current: nat)
    requires Tiles(body, fs, acts, current) && NoMark(body, '{', current)
    ensures var t := Template(body, fs + [Fragment(current, |body|)], acts + [Action(Ignore, 0, 0, 0)]);
            Tiled(t) && InBody(t)
  {
    hide IsTag;
    var t := Template(body, fs + [Fragment(current, |body|)], acts + [Action(Ignore, 0, 0, 0)]);
    assert t.fragments[..|fs|] == fs && t.actions[..|fs|] == acts;
  }

  lemma RootStands(body: string, fs: seq<Fragment>, acts: seq<Action>, levels: seq<seq<Node>>, f: Fragment, a: Action)
    requires Levels(body, fs, acts, [], levels)
    ensures Stands(fs + [f], acts + [a], levels[0], 0) && SizeAll(levels[0]) == |acts| && WellNamed(body, levels[0])
    ensures Stands(fs, acts, levels[0], 0)
  {
    assert LevelStands(body, fs, acts, [], levels[0], 0);
    StandsKept(fs, acts, fs + [f], acts + [a], levels[0], 0);
  }

  lemma InnermostOpen(body: string, fs: seq<Fragment>, acts: seq<Action>, bp: seq<nat>, levels: seq<seq<Node>>)
    requires Levels(body, fs, acts, bp, levels) && |bp| > 0 && ActionFits(body, acts[bp[|bp| - 1]])
    ensures InnerOpen(Template(body, fs, acts), bp[|bp| - 1], levels[|bp|])
  {
    assert LevelStands(body, fs, acts, bp, levels[|bp|], |bp|);
  }

  /** `c` is what compiling `body` must give: a template tiled by its tags, or the first fault. */
  ghost predicate RightlyCompiled(body: string, c: Compiled) {
    && c.t.body == body
    && match c
       case Compiled(t) => InBody(t) && Tiled(t)
       case Unclosed(t) =>
         && Tiled(t)
         && exists o :: 0 <= o < |t.actions| && Opens(t.actions[o].t) && t.actions[o].pos == 0
       case Failed(f, at, t) => Reached(t, at) && (TagFails(body, at, f) || PairFails(t, at, f))
  }

  /** The actions of `t` are the block tree `ns`, with jump positions that fit and equal names. */
  ghost predicate IsTreeOf(t: Template, ns: seq<Node>) {
    && |t.fragments| == |t.actions| && WellNamed(t.body, ns)
    && Stands(t.fragments, t.actions, ns, 0) && SizeAll(ns) + 1 == |t.actions|
  }

  /** Compile a template (`parse`, without the trimming of standalone lines).  A compiled template
      tiles the body with its tags and stands for a tree of well-named blocks. */
  method Compile(body: string) returns (c: Compiled, ghost ns: seq<Node>)
    ensures RightlyCompiled(body, c)
    ensures c.Compiled? ==> IsTreeOf(c.t, ns)
  {
    hide Tiles, Levels, FirstMark, NoMark, Tiled, Stands, TagIs, IsTag, NameOf, WellNamed;
    var fs: seq<Fragment>, acts: seq<Action>, bp: seq<nat>, current := [], [], [], 0;
    ghost var levels: seq<seq<Node>> := [[]];
    ns := [];
    NothingYet(body);
    while true
      invariant current <= |body| && |fs| == |acts| && Tiles(body, fs, acts, current)
                && Levels(body, fs, acts, bp, levels)
      decreases |body| - current
    {
      LevelBounds(body, fs, acts, bp, levels, current);
      var idx := Find(body, '{', current);
      if idx.None? {
        Finished(body, fs, acts, current);
        fs := fs + [Fragment(current, |body|)];
        acts := acts + [Action(Ignore, 0, 0, 0)];
        if bp == [] {
          ns := levels[0];
          RootStands(body, fs[..|fs| - 1], acts[..|acts| - 1], levels, fs[|fs| - 1], acts[|acts| - 1]);
          return Compiled(Template(body, fs, acts)), ns;
        }
        assert Opens(acts[bp[0]].t) && acts[bp[0]].pos == 0;
        return Unclosed(Template(body, fs, acts)), ns;
      }
      ghost var before := Template(body, fs, acts);
      MarkBounds(body, current, idx.value);
      assert Reached(before, idx.value);
      var r := ReadTag(body, idx.value);
      if r.TagBad? {
        return Failed(r.failure, idx.value, Template(body, fs, acts)), ns;
      }
      var a, f := r.action, Fragment(current, idx.value);
      TagBounds(body, idx.value, r.close, a, r.next);
      TilesSnoc(body, fs, acts, current, idx.value, a, r.next);
      if Opens(a.t) {
        BlockOpened(body, fs, acts, bp, levels, f, a);
        bp, levels := bp + [|acts|], levels + [[]];
        fs, acts := fs + [f], acts + [a];
      } else if a.t.CloseBlock? {
        if bp == [] {
          RootStands(body, fs, acts, levels, f, a);
          assert WholeTree(before, levels[0]);
          return Failed(NothingOpen, idx.value, Template(body, fs, acts)), ns;
        }
        var o := bp[|bp| - 1];
        if NameOf(body, acts[o]) != NameOf(body, a) {
          InnermostOpen(body, fs, acts, bp, levels);
          assert InnerOpen(before, o, levels[|bp|]);
          return Failed(UnmatchedPair, idx.value, Template(body, fs, acts)), ns;
        }
        NameOfJump(body, a, o);
        BlockClosed(body, fs, acts, bp, levels, f, a.(pos := o));
        TilesJump(body, fs + [f], acts + [a], r.next, |acts|, o);
        TilesJump(body, fs + [f], (acts + [a])[|acts| := a.(pos := o)], r.next, o, |acts|);
        var open := acts[o].(pos := |acts|);
        ghost var d := |bp| - 1;
        levels := levels[..d] + [levels[d] + [Block(fs[o], open, levels[d + 1], f, a.(pos := o))]];
        assert (acts + [a])[|acts| := a.(pos := o)][o := open] == acts[o := open] + [a.(pos := o)];
        fs, acts, bp := fs + [f], acts[o := open] + [a.(pos := o)], bp[..|bp| - 1];
      } else {
        LeafAdded(body, fs, acts, bp, levels, f, a);
        levels := levels[|bp| := levels[|bp|] + [Leaf(f, a)]];
        fs, acts := fs + [f], acts + [a];
      }
      current := r.next;
    }
  }

  lemma NameOfJump(body: string, a: Action, pos: nat)
    requires ActionFits(body, a)
    ensures NameOf(body, a.(pos := pos)) == NameOf(body, a)
  {
  }

  lemma NothingYet(body: string)
    ensures Tiles(body, [], [], 0) && Levels(body, [], [], [], [[]])
  {
  }

  lemma LevelBounds(body: string, fs: seq<Fragment>, acts: seq<Action>, bp: seq<nat>, levels: seq<seq<Node>>,
                    current: nat)
    requires Levels(body, fs, acts, bp, levels) && Tiles(body, fs, acts, current)
    ensures |levels| == |bp| + 1
    ensures forall k :: 0 <= k < |bp| ==>
            bp[k] < |acts| && Opens(acts[bp[k]].t) && acts[bp[k]].pos == 0 && ActionFits(body, acts[bp[k]])
  {
  }

  lemma MarkBounds(body: string, from: nat, i: nat)
    requires FirstMark(body, '{', from, i)
    ensures from <= i && Mark(body, '{', i)
  {
  }
}
