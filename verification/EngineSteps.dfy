/** The key-value engine as atomic steps of concurrent threads: a lock that readers share and a
    writer has alone, and counters that wrap around at 64 bits. */
module EngineSteps {
  import opened Basics

  const WRAP: nat := 0x1_0000_0000_0000_0000

  function Inc(n: nat): nat {
    (n + 1) % WRAP
  }

  /** A record of the map; the counters are 64-bit atomics. */
  datatype Cell = Cell(value: string, nreads: nat, nwrites: nat)

  /** How far a thread that holds the lock has come.  `nth` says which read of its key this is. */
  datatype Pc =
    | GetLocked(name: string)
    | GetMissed
    | GetCounted(name: string, nth: nat, nreads: nat)
    | GetLoaded(name: string, nth: nat, nreads: nat, nwrites: nat)
    | GetBoth(name: string, nth: nat, nreads: nat, nwrites: nat)
    | SetLocked(name: string, newValue: string)
    | SetCounted(name: string, newValue: string)
    | SetStored(name: string)
    | SetDone

  /** What a successful get has returned; `nth` and `sets` are the true counts of reads of the key
      and of sets of the key since the load. */
  datatype Got = Got(name: string, nth: nat, sets: nat, value: string, nreads: nat, nwrites: nat)

  /** The engine, the threads that hold its lock, and the history since the load. */
  datatype State = State(
    data: map<string, Cell>, nreads: nat, nwrites: nat, pcs: map<nat, Pc>,
    loaded: map<string, string>, sets: map<string, seq<string>>, hits: map<string, nat>, misses: nat, got: seq<Got>)

  datatype Action = BeginGet(t: nat, name: string) | BeginSet(t: nat, name: string, value: string) | Advance(t: nat)

  predicate IsSet(p: Pc) {
    p.SetLocked? || p.SetCounted? || p.SetStored? || p.SetDone?
  }

  predicate Writing(pcs: map<nat, Pc>) {
    exists t :: t in pcs && IsSet(pcs[t])
  }

  function Moved(s: State, t: nat, p: Pc): State {
    s.(pcs := s.pcs[t := p])
  }

  function Left(s: State, t: nat): State {
    s.(pcs := s.pcs - {t})
  }

  /** One atomic step of a get. */
  function GetStep(s: State, t: nat): State
    requires t in s.pcs && !IsSet(s.pcs[t])
  {
    match s.pcs[t]
    case GetLocked(name) =>
      if name !in s.data || name !in s.hits then
        Moved(s.(nreads := Inc(s.nreads), misses := s.misses + 1), t, GetMissed)
      else
        var c, n := s.data[name], s.hits[name] + 1;
        Moved(s.(data := s.data[name := c.(nreads := Inc(c.nreads))], hits := s.hits[name := n]), t,
              GetCounted(name, n, Inc(c.nreads)))
    case GetCounted(name, n, r) =>
      if name !in s.data then s else Moved(s, t, GetLoaded(name, n, r, s.data[name].nwrites))
    case GetLoaded(name, n, r, w) => Moved(s.(nreads := Inc(s.nreads)), t, GetBoth(name, n, r, w))
    case GetBoth(name, n, r, w) =>
      if name !in s.data || name !in s.sets then s
      else Left(s.(got := s.got + [Got(name, n, |s.sets[name]|, s.data[name].value, r, w)]), t)
    case _ => Left(s, t)
  }

  /** One atomic step of a set. */
  function SetStep(s: State, t: nat): State
    requires t in s.pcs && IsSet(s.pcs[t])
  {
    match s.pcs[t]
    case SetLocked(name, value) =>
      if name !in s.data then
        Moved(s.(data := s.data[name := Cell(value, 0, 1)], hits := s.hits[name := 0], sets := s.sets[name := [value]]),
              t,
              SetStored(name))
      else
        var c := s.data[name];
        Moved(s.(data := s.data[name := c.(nwrites := Inc(c.nwrites))]), t, SetCounted(name, value))
    case SetCounted(name, value) =>
      if name !in s.data || name !in s.sets then s
      else
        Moved(s.(data := s.data[name := s.data[name].(value := value)], sets := s.sets[name := s.sets[name] + [value]]),
              t,
              SetStored(name))
    case SetStored(name) => Moved(s.(nwrites := Inc(s.nwrites)), t, SetDone)
    case _ => Left(s, t)
  }

  /** A thread takes the lock if it can, or makes one step. */
  function Step(s: State, a: Action): State {
    match a
    case BeginGet(t, name) => if t in s.pcs || Writing(s.pcs) then s else Moved(s, t, GetLocked(name))
    case BeginSet(t, name, value) => if s.pcs != map[] then s else Moved(s, t, SetLocked(name, value))
    case Advance(t) => if t !in s.pcs then s else if IsSet(s.pcs[t]) then SetStep(s, t) else GetStep(s, t)
  }

  function Exec(s: State, actions: seq<Action>): State {
    if actions == [] then s else Step(Exec(s, actions[..|actions| - 1]), actions[|actions| - 1])
  }

  /** The engine after loading a file: values without reads or writes. */
  function Start(loaded: map<string, string>): State {
    State(map k | k in loaded :: Cell(loaded[k], 0, 0), 0, 0, map[], loaded, map k | k in loaded :: [],
          map k | k in loaded :: 0, 0, [])
  }

  // ---------------------------------------------------------------- invariant

  /** A writer holds the lock alone. */
  predicate Exclusive(s: State) {
    forall t, u :: t in s.pcs && u in s.pcs && IsSet(s.pcs[t]) ==> t == u
  }

  predicate Domains(s: State) {
    && s.sets.Keys == s.data.Keys && s.hits.Keys == s.data.Keys
    && forall k :: k in s.data && s.sets[k] == [] ==> k in s.loaded
  }

  /** The value that the first `n` sets of key `k` have left. */
  function ValueAfter(s: State, k: string, n: nat): string {
    if k in s.sets && 0 < n <= |s.sets[k]| then s.sets[k][n - 1] else if k in s.loaded then s.loaded[k] else ""
  }

  /** A set of key `k` is between its two writes to the record. */
  predicate HalfSet(s: State, k: string) {
    exists t :: t in s.pcs && s.pcs[t].SetCounted? && s.pcs[t].name == k
  }

  /** The record of a key: its counters count, and its value is the last one set. */
  predicate CellFits(s: State, k: string)
    requires k in s.data && k in s.sets && k in s.hits
  {
    && s.data[k].nreads == s.hits[k] % WRAP
    && s.data[k].nwrites == (|s.sets[k]| + if HalfSet(s, k) then 1 else 0) % WRAP
    && s.data[k].value == ValueAfter(s, k, |s.sets[k]|)
  }

  predicate CellsFit(s: State)
    requires Domains(s)
  {
    forall k :: k in s.data ==> CellFits(s, k)
  }

  /** What a thread has read so far is true, and stays true while it holds the lock. */
  predicate PcFits(s: State, p: Pc) {
    match p
    case GetCounted(k, n, r) => k in s.data && 1 <= n && r == n % WRAP
    case GetLoaded(k, n, r, w) => k in s.sets && k in s.data && 1 <= n && r == n % WRAP && w == |s.sets[k]| % WRAP
    case GetBoth(k, n, r, w) => k in s.sets && k in s.data && 1 <= n && r == n % WRAP && w == |s.sets[k]| % WRAP
    case SetCounted(k, _) => k in s.data
    case SetStored(k) => k in s.data
    case _ => true
  }

  predicate PcsFit(s: State) {
    forall t :: t in s.pcs ==> PcFits(s, s.pcs[t])
  }

  /** A result: the value left by exactly as many sets as it counts. */
  predicate GotFits(s: State, g: Got) {
    && g.name in s.sets && g.sets <= |s.sets[g.name]| && 1 <= g.nth
    && g.nreads == g.nth % WRAP && g.nwrites == g.sets % WRAP && g.value == ValueAfter(s, g.name, g.sets)
  }

  predicate AllGotFit(s: State) {
    forall i :: 0 <= i < |s.got| ==> GotFits(s, s.got[i])
  }

  predicate Inv(s: State) {
    Exclusive(s) && Domains(s) && CellsFit(s) && PcsFit(s) && AllGotFit(s)
  }

  /** While another thread holds the lock no set is between its writes. */
  lemma NoHalfSet(s: State, t: nat, k: string)
    requires Exclusive(s) && t in s.pcs && !s.pcs[t].SetCounted?
    ensures !HalfSet(s, k)
  {
  }

  lemma GotKept(s: State, s': State)
    requires AllGotFit(s) && s'.got == s.got && s'.loaded == s.loaded
    requires forall k :: k in s.sets ==> k in s'.sets && s.sets[k] <= s'.sets[k]
    ensures AllGotFit(s')
  {
    forall i | 0 <= i < |s.got| ensures GotFits(s', s'.got[i]) {
      assert GotFits(s, s.got[i]);
    }
  }

  lemma LeaveKeeps(s: State, t: nat)
    requires Inv(s) && t in s.pcs && !s.pcs[t].SetCounted?
    ensures Inv(Left(s, t))
  {
    var s' := Left(s, t);
    forall k | k in s.data ensures CellFits(s', k) {
      assert CellFits(s, k);
      NoHalfSet(s, t, k);
    }
    GotKept(s, s');
  }

  /** A step that leaves the record of every key as it was, and the thread in a true state. */
  lemma MoveKeeps(s: State, s': State, t: nat, p: Pc)
    requires Inv(s) && t in s.pcs && !s.pcs[t].SetCounted? && !p.SetCounted?
    requires s'.data == s.data && s'.sets == s.sets && s'.hits == s.hits && s'.loaded == s.loaded && s'.got == s.got
    requires s'.pcs == s.pcs[t := p] && (IsSet(p) ==> IsSet(s.pcs[t])) && PcFits(s, p)
    ensures Inv(s')
  {
    forall k | k in s.data ensures CellFits(s', k) {
      assert CellFits(s, k);
      NoHalfSet(s, t, k);
    }
    GotKept(s, s');
  }

  /** Counting a read changes only its own cell, and that exactly. */
  lemma CountCell(s: State, t: nat, k: string)
    requires Domains(s) && Exclusive(s) && CellsFit(s) && t in s.pcs && s.pcs[t].GetLocked? && s.pcs[t].name in s.data
    requires k in s.data
    ensures var s' := GetStep(s, t); k in s'.data && k in s'.sets && k in s'.hits && Exclusive(s') && CellFits(s', k)
  {
    var s' := GetStep(s, t);
    assert CellFits(s, k);
    NoHalfSet(s, t, k);
    NoHalfSet(s', t, k);
    IncMod(s.hits[s.pcs[t].name]);
  }

  lemma CountKeeps(s: State, t: nat)
    requires Inv(s) && t in s.pcs && s.pcs[t].GetLocked? && s.pcs[t].name in s.data
    ensures Inv(GetStep(s, t))
  {
    hide AllGotFit, Inc;
    var s' := GetStep(s, t);
    var name := s.pcs[t].name;
    forall k | k in s'.data ensures CellFits(s', k) {
      CountCell(s, t, k);
    }
    IncMod(s.hits[name]);
    assert CellFits(s, name);
    hide CellFits;
    GotKept(s, s');
  }

  lemma IncMod(n: nat)
    ensures Inc(n % WRAP) == (n + 1) % WRAP
  {
  }

  lemma ReturnKeeps(s: State, t: nat)
    requires Inv(s) && t in s.pcs && s.pcs[t].GetBoth?
    ensures Inv(GetStep(s, t))
  {
    LeaveKeeps(s, t);
    var s0, s', p := Left(s, t), GetStep(s, t), s.pcs[t];
    assert PcFits(s, p);
    assert CellFits(s, p.name);
    forall k | k in s'.data ensures CellFits(s', k) {
      assert CellFits(s0, k);
      assert HalfSet(s', k) == HalfSet(s0, k);
    }
    forall i | 0 <= i < |s'.got| ensures GotFits(s', s'.got[i]) {
      if i < |s.got| {
        assert GotFits(s0, s0.got[i]);
      }
    }
    forall u | u in s'.pcs ensures PcFits(s', s'.pcs[u]) {
      assert PcFits(s0, s0.pcs[u]);
    }
  }

  lemma GetKeeps(s: State, t: nat)
    requires Inv(s) && t in s.pcs && !IsSet(s.pcs[t])
    ensures Inv(GetStep(s, t))
  {
    var p := s.pcs[t];
    assert PcFits(s, p);
    if p.GetLocked? {
      if p.name in s.data {
        CountKeeps(s, t);
      } else {
        MoveKeeps(s, GetStep(s, t), t, GetMissed);
      }
    } else if p.GetCounted? {
      NoHalfSet(s, t, p.name);
      assert CellFits(s, p.name);
      MoveKeeps(s, GetStep(s, t), t, GetLoaded(p.name, p.nth, p.nreads, s.data[p.name].nwrites));
    } else if p.GetLoaded? {
      MoveKeeps(s, GetStep(s, t), t, GetBoth(p.name, p.nth, p.nreads, p.nwrites));
    } else if p.GetBoth? {
      ReturnKeeps(s, t);
    } else {
      LeaveKeeps(s, t);
    }
  }

  /** The only thread is `t`. */
  lemma Alone(s: State, t: nat, k: string)
    requires Exclusive(s) && t in s.pcs && IsSet(s.pcs[t])
    ensures forall u :: u in s.pcs ==> u == t
    ensures HalfSet(s, k) <==> s.pcs[t].SetCounted? && s.pcs[t].name == k
  {
  }

  /** The record of key `k` after the first write of a set. */
  lemma FirstWriteCell(s: State, t: nat, k: string)
    requires Exclusive(s) && Domains(s) && CellsFit(s) && t in s.pcs && s.pcs[t].SetLocked?
    requires k in s.data || k == s.pcs[t].name
    ensures var s' := SetStep(s, t); Domains(s') && Exclusive(s') && k in s'.data && CellFits(s', k)
  {
    var s', p := SetStep(s, t), s.pcs[t];
    Alone(s, t, k);
    Alone(s', t, k);
    if k in s.data {
      assert CellFits(s, k);
      IncMod(|s.sets[k]|);
    }
  }

  /** The record of key `k` after a set has stored its value. */
  lemma StoreCell(s: State, t: nat, k: string)
    requires Exclusive(s) && Domains(s) && CellsFit(s) && t in s.pcs && s.pcs[t].SetCounted? && s.pcs[t].name in s.data
    requires k in s.data
    ensures var s' := SetStep(s, t); Domains(s') && Exclusive(s') && k in s'.data && CellFits(s', k)
  {
    var s', p := SetStep(s, t), s.pcs[t];
    Alone(s, t, k);
    Alone(s', t, k);
    assert CellFits(s, k);
  }

  lemma FirstWriteKeeps(s: State, t: nat)
    requires Inv(s) && t in s.pcs && s.pcs[t].SetLocked?
    ensures Inv(SetStep(s, t))
  {
    hide CellFits, GotFits, Inc, WRAP;
    var s', p := SetStep(s, t), s.pcs[t];
    Alone(s, t, p.name);
    FirstWriteCell(s, t, p.name);
    forall k | k in s'.data ensures CellFits(s', k) {
      FirstWriteCell(s, t, k);
    }
    GotKept(s, s');
  }

  lemma StoreKeeps(s: State, t: nat)
    requires Inv(s) && t in s.pcs && s.pcs[t].SetCounted?
    ensures Inv(SetStep(s, t))
  {
    hide CellFits, GotFits, Inc, WRAP;
    var s', p := SetStep(s, t), s.pcs[t];
    assert PcFits(s, p);
    Alone(s, t, p.name);
    StoreCell(s, t, p.name);
    forall k | k in s'.data ensures CellFits(s', k) {
      StoreCell(s, t, k);
    }
    GotKept(s, s');
  }

  lemma SetKeeps(s: State, t: nat)
    requires Inv(s) && t in s.pcs && IsSet(s.pcs[t])
    ensures Inv(SetStep(s, t))
  {
    var p := s.pcs[t];
    if p.SetLocked? {
      FirstWriteKeeps(s, t);
    } else if p.SetCounted? {
      StoreKeeps(s, t);
    } else if p.SetStored? {
      MoveKeeps(s, SetStep(s, t), t, SetDone);
    } else {
      LeaveKeeps(s, t);
    }
  }

  /** Taking the lock. */
  lemma BeginKeeps(s: State, t: nat, p: Pc)
    requires Inv(s) && t !in s.pcs && (p.GetLocked? || p.SetLocked?)
    requires if IsSet(p) then s.pcs == map[] else !Writing(s.pcs)
    ensures Inv(Moved(s, t, p))
  {
    var s' := Moved(s, t, p);
    forall k | k in s.data ensures CellFits(s', k) {
      assert CellFits(s, k) && !HalfSet(s, k) && !HalfSet(s', k);
    }
    GotKept(s, s');
  }

  lemma StepKeeps(s: State, a: Action)
    requires Inv(s)
    ensures Inv(Step(s, a))
  {
    hide Inv, GetStep, SetStep;
    match a
    case BeginGet(t, name) =>
      if !(t in s.pcs || Writing(s.pcs)) {
        BeginKeeps(s, t, GetLocked(name));
      }
    case BeginSet(t, name, value) =>
      if s.pcs == map[] {
        BeginKeeps(s, t, SetLocked(name, value));
      }
    case Advance(t) =>
      if t in s.pcs {
        if IsSet(s.pcs[t]) {
          SetKeeps(s, t);
        } else {
          GetKeeps(s, t);
        }
      }
  }

  /** In every interleaving: a set excludes all other threads, every record counts its reads and its
      sets and holds the last value set, and every result of a get pairs a value with the number of
      sets that has led to it. */
  lemma {:induction false} ExecKeeps(loaded: map<string, string>, actions: seq<Action>)
    ensures Inv(Exec(Start(loaded), actions))
  {
    hide Step, Inv;
    if actions == [] {
      StartInv(loaded);
    } else {
      ExecKeeps(loaded, actions[..|actions| - 1]);
      StepKeeps(Exec(Start(loaded), actions[..|actions| - 1]), actions[|actions| - 1]);
    }
  }

  lemma StartInv(loaded: map<string, string>)
    ensures Inv(Start(loaded))
  {
  }

  // ---------------------------------------------------------------- the lock, and progress

  /** Gets share the lock and sets have it alone: a get begins if and only if no set is at work, a set if
      and only if nothing is. */
  lemma LockExactly(s: State, t: nat, name: string, value: string)
    requires t !in s.pcs
    ensures t in Step(s, BeginGet(t, name)).pcs <==>
            forall u :: u in s.pcs ==> var p := s.pcs[u]; !(p.SetLocked? || p.SetCounted? || p.SetStored? || p.SetDone?)
    ensures t in Step(s, BeginSet(t, name, value)).pcs <==> forall u :: u !in s.pcs
  {
    if forall u :: u !in s.pcs {
      assert s.pcs == map[];
    }
  }

  /** Steps left to an operation. */
  function StepsLeft(p: Pc): nat {
    match p
    case GetLocked(_) => 4
    case GetCounted(_, _, _) => 3
    case GetLoaded(_, _, _, _) => 2
    case GetBoth(_, _, _, _) => 1
    case GetMissed => 1
    case SetLocked(_, _) => 4
    case SetCounted(_, _) => 3
    case SetStored(_) => 2
    case SetDone => 1
  }

  /** No operation gets stuck: every step of its own brings it nearer to its end, which comes after at
      most four of them, and no other step changes where it is. */
  lemma Progress(s: State, t: nat, a: Action)
    requires Inv(s) && t in s.pcs
    ensures var s' := Step(s, a);
            if a == Advance(t) then t in s'.pcs ==> StepsLeft(s'.pcs[t]) < StepsLeft(s.pcs[t]) <= 4
            else t in s'.pcs && s'.pcs[t] == s.pcs[t]
  {
    if a == Advance(t) {
      assert PcFits(s, s.pcs[t]);
    }
  }
}
