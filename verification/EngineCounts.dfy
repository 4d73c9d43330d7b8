/** The engine's counters agree with each other in every interleaving, and no two gets of a key
    return the same read number. */
module EngineCounts {
  import opened Basics
  import opened EngineSteps

  // ---------------------------------------------------------------- sums over maps

  ghost function Sum<K(!new)>(m: map<K, nat>): nat
    decreases |m|
  {
    if m == map[] then 0
    else
      var k :| k in m;
      assert |m - {k}| < |m| by {
        Smaller(m, k);
      }
      m[k] + Sum(m - {k})
  }

  lemma Smaller<K, V>(m: map<K, V>, k: K)
    requires k in m
    ensures |m - {k}| < |m|
  {
    assert (m - {k}).Keys == m.Keys - {k};
    assert |(m - {k}).Keys| == |m - {k}| && |m.Keys| == |m|;
  }

  lemma {:induction false} SumRemove<K(!new)>(m: map<K, nat>, k: K)
    requires k in m
    ensures Sum(m) == m[k] + Sum(m - {k})
    decreases |m|
  {
    var j :| j in m && Sum(m) == m[j] + Sum(m - {j});
    if j != k {
      Smaller(m, j);
      Smaller(m, k);
      SumRemove(m - {j}, k);
      SumRemove(m - {k}, j);
      assert m - {j} - {k} == m - {k} - {j};
    }
  }

  lemma SumPut<K(!new)>(m: map<K, nat>, k: K, v: nat)
    ensures Sum(m[k := v]) == Sum(m) + v - if k in m then m[k] else 0
  {
    SumRemove(m[k := v], k);
    if k in m {
      SumRemove(m, k);
      assert m[k := v] - {k} == m - {k};
    } else {
      assert m[k := v] - {k} == m;
    }
  }

  // ---------------------------------------------------------------- conservation

  function ReadsOf(data: map<string, Cell>): map<string, nat> {
    map k | k in data :: data[k].nreads
  }

  function WritesOf(data: map<string, Cell>): map<string, nat> {
    map k | k in data :: data[k].nwrites
  }

  /** A get that has counted the read of its key but not yet the global read. */
  function PendingReads(pcs: map<nat, Pc>): map<nat, nat> {
    map t | t in pcs :: if pcs[t].GetCounted? || pcs[t].GetLoaded? then 1 else 0
  }

  /** A set that has counted the write of its key but not yet the global write. */
  function PendingWrites(pcs: map<nat, Pc>): map<nat, nat> {
    map t | t in pcs :: if pcs[t].SetCounted? || pcs[t].SetStored? then 1 else 0
  }

  /** Reads of keys and missed reads are the global reads and those about to be counted there. */
  ghost predicate ReadsBalance(s: State) {
    (Sum(ReadsOf(s.data)) + s.misses) % WRAP == (s.nreads + Sum(PendingReads(s.pcs))) % WRAP
  }

  ghost predicate WritesBalance(s: State) {
    Sum(WritesOf(s.data)) % WRAP == (s.nwrites + Sum(PendingWrites(s.pcs))) % WRAP
  }

  lemma CellPut(data: map<string, Cell>, k: string, c: Cell)
    ensures Sum(ReadsOf(data[k := c])) == Sum(ReadsOf(data)) + c.nreads - if k in data then data[k].nreads else 0
    ensures Sum(WritesOf(data[k := c])) == Sum(WritesOf(data)) + c.nwrites - if k in data then data[k].nwrites else 0
  {
    assert ReadsOf(data[k := c]) == ReadsOf(data)[k := c.nreads];
    assert WritesOf(data[k := c]) == WritesOf(data)[k := c.nwrites];
    SumPut(ReadsOf(data), k, c.nreads);
    SumPut(WritesOf(data), k, c.nwrites);
  }

  lemma PcPut(pcs: map<nat, Pc>, t: nat, p: Pc)
    ensures Sum(PendingReads(pcs[t := p])) == Sum(PendingReads(pcs)) + PendingReads(pcs[t := p])[t]
                                             - if t in pcs then PendingReads(pcs)[t] else 0
    ensures Sum(PendingWrites(pcs[t := p])) == Sum(PendingWrites(pcs)) + PendingWrites(pcs[t := p])[t]
                                              - if t in pcs then PendingWrites(pcs)[t] else 0
  {
    assert PendingReads(pcs[t := p]) == PendingReads(pcs)[t := PendingReads(pcs[t := p])[t]];
    assert PendingWrites(pcs[t := p]) == PendingWrites(pcs)[t := PendingWrites(pcs[t := p])[t]];
    SumPut(PendingReads(pcs), t, PendingReads(pcs[t := p])[t]);
    SumPut(PendingWrites(pcs), t, PendingWrites(pcs[t := p])[t]);
  }

  lemma PcLeft(pcs: map<nat, Pc>, t: nat)
    requires t in pcs
    ensures Sum(PendingReads(pcs - {t})) == Sum(PendingReads(pcs)) - PendingReads(pcs)[t]
    ensures Sum(PendingWrites(pcs - {t})) == Sum(PendingWrites(pcs)) - PendingWrites(pcs)[t]
  {
    assert PendingReads(pcs - {t}) == PendingReads(pcs) - {t};
    assert PendingWrites(pcs - {t}) == PendingWrites(pcs) - {t};
    SumRemove(PendingReads(pcs), t);
    SumRemove(PendingWrites(pcs), t);
  }

  lemma ModShift(b: int, x: int)
    ensures (b + x * WRAP) % WRAP == b % WRAP
  {
  }

  lemma IncShift(rest: nat, n: nat)
    ensures (rest + Inc(n)) % WRAP == (rest + n + 1) % WRAP
  {
    var x := (n + 1) / WRAP;
    assert Inc(n) == n + 1 - x * WRAP;
    ModShift(rest + n + 1, -x);
  }

  /** A wrapping counter on the left grows by one, the right side by one. */
  lemma CounterGrows(l: nat, r: nat, c: nat, l': nat, r': nat)
    requires l % WRAP == r % WRAP && c <= l && l' == l - c + Inc(c) && r' == r + 1
    ensures l' % WRAP == r' % WRAP
  {
    IncShift(l - c, c);
    PlusOne(l, r);
  }

  /** Both sides grow by one, the right one in a wrapping counter. */
  lemma TotalGrows(l: nat, r: nat, c: nat, l': nat, r': nat)
    requires l % WRAP == r % WRAP && c <= r && l' == l + 1 && r' == r - c + Inc(c)
    ensures l' % WRAP == r' % WRAP
  {
    IncShift(r - c, c);
    PlusOne(l, r);
  }

  /** A pending count moves into a wrapping counter. */
  lemma PendingMoves(l: nat, r: nat, c: nat, r': nat)
    requires l % WRAP == r % WRAP && c + 1 <= r && r' == r - 1 - c + Inc(c)
    ensures l % WRAP == r' % WRAP
  {
    IncShift(r - 1 - c, c);
  }

  lemma PlusOne(a: nat, b: nat)
    requires a % WRAP == b % WRAP
    ensures (a + 1) % WRAP == (b + 1) % WRAP
  {
    var x, y := a / WRAP, b / WRAP;
    ModShift(a % WRAP + 1, x);
    ModShift(b % WRAP + 1, y);
  }

  /** Counting the read of a key. */
  lemma CountBalance(s: State, t: nat)
    requires Inv(s) && ReadsBalance(s) && WritesBalance(s) && t in s.pcs && s.pcs[t].GetLocked?
             && s.pcs[t].name in s.data
    ensures ReadsBalance(GetStep(s, t)) && WritesBalance(GetStep(s, t))
  {
    hide Sum, ReadsOf, WritesOf, CellsFit, PcsFit, AllGotFit, Inc, WRAP;
    var s', name := GetStep(s, t), s.pcs[t].name;
    var c := s.data[name];
    CellPut(s.data, name, s'.data[name]);
    PcPut(s.pcs, t, s'.pcs[t]);
    CellInSum(s.data, name);
    CounterGrows(Sum(ReadsOf(s.data)) + s.misses, s.nreads + Sum(PendingReads(s.pcs)), c.nreads,
                 Sum(ReadsOf(s'.data)) + s'.misses, s'.nreads + Sum(PendingReads(s'.pcs)));
  }

  lemma CellInSum(data: map<string, Cell>, k: string)
    requires k in data
    ensures data[k].nreads <= Sum(ReadsOf(data)) && data[k].nwrites <= Sum(WritesOf(data))
  {
    InSum(ReadsOf(data), k);
    InSum(WritesOf(data), k);
  }

  /** The other steps of a get. */
  lemma GetBalance(s: State, t: nat)
    requires Inv(s) && ReadsBalance(s) && WritesBalance(s) && t in s.pcs && !IsSet(s.pcs[t])
    ensures ReadsBalance(GetStep(s, t)) && WritesBalance(GetStep(s, t))
  {
    hide Sum, ReadsOf, WritesOf, CellsFit, AllGotFit, Inc, WRAP;
    var s', p := GetStep(s, t), s.pcs[t];
    assert PcFits(s, p);
    if p.GetLocked? && p.name in s.data {
      CountBalance(s, t);
    } else if p.GetLocked? || p.GetLoaded? {
      PcPut(s.pcs, t, s'.pcs[t]);
      var l, r := Sum(ReadsOf(s.data)) + s.misses, s.nreads + Sum(PendingReads(s.pcs));
      if p.GetLocked? {
        TotalGrows(l, r, s.nreads, l + 1, s'.nreads + Sum(PendingReads(s'.pcs)));
      } else {
        InSum(PendingReads(s.pcs), t);
        PendingMoves(l, r, s.nreads, s'.nreads + Sum(PendingReads(s'.pcs)));
      }
    } else if p.GetCounted? {
      PcPut(s.pcs, t, s'.pcs[t]);
    } else {
      PcLeft(s.pcs, t);
    }
  }

  /** The first write of a set: a new record, or one more write of an old one. */
  lemma SetCountBalance(s: State, t: nat)
    requires Inv(s) && ReadsBalance(s) && WritesBalance(s) && t in s.pcs && s.pcs[t].SetLocked?
    ensures ReadsBalance(SetStep(s, t)) && WritesBalance(SetStep(s, t))
  {
    hide Sum, ReadsOf, WritesOf, PendingReads, PendingWrites, Inv, Inc, WRAP;
    var s', p := SetStep(s, t), s.pcs[t];
    SetCountSums(s, t);
    var l, r := Sum(WritesOf(s.data)), s.nwrites + Sum(PendingWrites(s.pcs));
    if p.name in s.data {
      CellInSum(s.data, p.name);
      CounterGrows(l, r, s.data[p.name].nwrites, Sum(WritesOf(s'.data)), s'.nwrites + Sum(PendingWrites(s'.pcs)));
    } else {
      PlusOne(l, r);
    }
  }

  lemma SetCountSums(s: State, t: nat)
    requires t in s.pcs && s.pcs[t].SetLocked?
    ensures var s', name := SetStep(s, t), s.pcs[t].name;
            && Sum(ReadsOf(s'.data)) == Sum(ReadsOf(s.data)) && Sum(PendingReads(s'.pcs)) == Sum(PendingReads(s.pcs))
            && Sum(PendingWrites(s'.pcs)) == Sum(PendingWrites(s.pcs)) + 1
            && Sum(WritesOf(s'.data)) == Sum(WritesOf(s.data)) +
               if name in s.data then Inc(s.data[name].nwrites) - s.data[name].nwrites else 1
  {
    hide Sum, ReadsOf, WritesOf, Inc;
    var s', p := SetStep(s, t), s.pcs[t];
    CellPut(s.data, p.name, s'.data[p.name]);
    PcPut(s.pcs, t, s'.pcs[t]);
  }

  lemma SetBalance(s: State, t: nat)
    requires Inv(s) && ReadsBalance(s) && WritesBalance(s) && t in s.pcs && IsSet(s.pcs[t])
    ensures ReadsBalance(SetStep(s, t)) && WritesBalance(SetStep(s, t))
  {
    hide Sum, ReadsOf, WritesOf, CellsFit, AllGotFit, Inc, WRAP;
    var s', p := SetStep(s, t), s.pcs[t];
    assert PcFits(s, p);
    if p.SetLocked? {
      SetCountBalance(s, t);
    } else if p.SetCounted? {
      CellPut(s.data, p.name, s'.data[p.name]);
      PcPut(s.pcs, t, s'.pcs[t]);
    } else if p.SetStored? {
      PcPut(s.pcs, t, s'.pcs[t]);
      InSum(PendingWrites(s.pcs), t);
      PendingMoves(Sum(WritesOf(s.data)), s.nwrites + Sum(PendingWrites(s.pcs)), s.nwrites,
                   s'.nwrites + Sum(PendingWrites(s'.pcs)));
    } else {
      PcLeft(s.pcs, t);
    }
  }

  /** In every interleaving the reads of all keys plus the missed reads equal the global reads plus
      the gets caught between their two increments, modulo 2^64, and likewise for writes. */
  lemma {:induction false} Conservation(loaded: map<string, string>, actions: seq<Action>)
    ensures ReadsBalance(Exec(Start(loaded), actions)) && WritesBalance(Exec(Start(loaded), actions))
  {
    hide Inv, GetStep, SetStep, ReadsBalance, WritesBalance;
    if actions == [] {
      StartBalance(loaded);
    } else {
      var init, a := actions[..|actions| - 1], actions[|actions| - 1];
      var s := Exec(Start(loaded), init);
      Conservation(loaded, init);
      ExecKeeps(loaded, init);
      if a.Advance? {
        if a.t in s.pcs {
          if IsSet(s.pcs[a.t]) {
            SetBalance(s, a.t);
          } else {
            GetBalance(s, a.t);
          }
        }
      } else {
        BeginBalance(s, a);
      }
    }
  }

  lemma BeginBalance(s: State, a: Action)
    requires ReadsBalance(s) && WritesBalance(s) && !a.Advance?
    ensures ReadsBalance(Step(s, a)) && WritesBalance(Step(s, a))
  {
    hide Sum;
    if a.t !in s.pcs {
      PcPut(s.pcs, a.t, if a.BeginGet? then GetLocked(a.name) else SetLocked(a.name, a.value));
    }
  }

  lemma {:induction false} SumZero<K(!new)>(m: map<K, nat>)
    requires forall k :: k in m ==> m[k] == 0
    ensures Sum(m) == 0
    decreases |m|
  {
    if m != map[] {
      var k :| k in m;
      Smaller(m, k);
      SumRemove(m, k);
      SumZero(m - {k});
    }
  }

  lemma StartBalance(loaded: map<string, string>)
    ensures ReadsBalance(Start(loaded)) && WritesBalance(Start(loaded))
  {
    hide Sum;
    SumZero(ReadsOf(Start(loaded).data));
    SumZero(WritesOf(Start(loaded).data));
    SumZero(PendingReads(map[]));
    SumZero(PendingWrites(map[]));
  }

  lemma InSum<K(!new)>(m: map<K, nat>, k: K)
    requires k in m
    ensures m[k] <= Sum(m)
  {
    SumRemove(m, k);
  }

  // ---------------------------------------------------------------- read numbers

  predicate Numbered(p: Pc) {
    p.GetCounted? || p.GetLoaded? || p.GetBoth?
  }

  /** Every read of a key has a number of its own. */
  predicate Distinct(s: State) {
    && (forall i :: 0 <= i < |s.got| ==> s.got[i].name in s.hits && s.got[i].nth <= s.hits[s.got[i].name])
    && (forall t :: t in s.pcs && Numbered(s.pcs[t]) ==>
        s.pcs[t].name in s.hits && s.pcs[t].nth <= s.hits[s.pcs[t].name])
    && (forall i, j :: 0 <= i < j < |s.got| && s.got[i].name == s.got[j].name ==> s.got[i].nth != s.got[j].nth)
    && (forall i, t :: 0 <= i < |s.got| && t in s.pcs && Numbered(s.pcs[t]) && s.got[i].name == s.pcs[t].name ==>
          s.got[i].nth != s.pcs[t].nth)
    && (forall t, u | t in s.pcs && u in s.pcs && t != u && Numbered(s.pcs[t]) && Numbered(s.pcs[u])
                      && s.pcs[t].name == s.pcs[u].name :: s.pcs[t].nth != s.pcs[u].nth)
  }

  lemma GetDistinct(s: State, t: nat)
    requires Inv(s) && Distinct(s) && t in s.pcs && !IsSet(s.pcs[t])
    ensures Distinct(GetStep(s, t))
  {
    hide CellsFit, PcsFit, AllGotFit, Exclusive, Inc, WRAP;
    var p := s.pcs[t];
    if p.GetBoth? || p.GetMissed? {
      LeftDistinct(s, t);
    }
  }

  lemma LeftDistinct(s: State, t: nat)
    requires Distinct(s) && t in s.pcs
    ensures Distinct(Left(s, t))
  {
  }

  lemma SetDistinct(s: State, t: nat)
    requires Inv(s) && Distinct(s) && t in s.pcs && IsSet(s.pcs[t])
    ensures Distinct(SetStep(s, t))
  {
    hide CellsFit, PcsFit, AllGotFit, Exclusive, Inc, WRAP;
    if s.pcs[t].SetDone? {
      LeftDistinct(s, t);
    }
  }

  lemma {:induction false} ExecDistinct(loaded: map<string, string>, actions: seq<Action>)
    ensures Distinct(Exec(Start(loaded), actions))
  {
    hide Inv, GetStep, SetStep;
    if actions != [] {
      var init, a := actions[..|actions| - 1], actions[|actions| - 1];
      var s := Exec(Start(loaded), init);
      ExecDistinct(loaded, init);
      ExecKeeps(loaded, init);
      if a.Advance? && a.t in s.pcs {
        if IsSet(s.pcs[a.t]) {
          SetDistinct(s, a.t);
        } else {
          GetDistinct(s, a.t);
        }
      }
    }
  }

  /** Two gets of a key never return the same read number (before 2^64 reads of it). */
  lemma ReadNumbersDiffer(loaded: map<string, string>, actions: seq<Action>, i: nat, j: nat)
    requires var s := Exec(Start(loaded), actions);
             i < j < |s.got| && s.got[i].name == s.got[j].name && s.got[i].name in s.hits
                 && s.hits[s.got[i].name] < 0x1_0000_0000_0000_0000
    ensures var s := Exec(Start(loaded), actions); s.got[i].nreads != s.got[j].nreads
  {
    hide Exec, Start;
    var s := Exec(Start(loaded), actions);
    ExecDistinct(loaded, actions);
    ExecKeeps(loaded, actions);
    assert GotFits(s, s.got[i]) && GotFits(s, s.got[j]);
  }
}
