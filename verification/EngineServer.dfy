/** The engine's own operations, each proved to make the atomic steps of module EngineSteps in their
    order; the background worker; and a whole run of the server from load to final save. */
module EngineServer {
  import opened Basics
  import opened EngineSteps

  // ---------------------------------------------------------------- files

  /** The values of a file: name and value pairs in file order, where a later pair with the same
      name overwrites an earlier one. */
  function ValuesOf(file: seq<(string, string)>): map<string, string> {
    if file == [] then map[] else ValuesOf(file[..|file| - 1])[file[|file| - 1].0 := file[|file| - 1].1]
  }

  function CellValues(data: map<string, Cell>): map<string, string> {
    map k | k in data :: data[k].value
  }

  lemma ValuesPut(data: map<string, Cell>, name: string, c: Cell)
    ensures CellValues(data[name := c]) == CellValues(data)[name := c.value]
  {
  }

  /** Thread `t` makes `n` steps without being interrupted. */
  function Advances(s: State, t: nat, n: nat): State {
    if n == 0 then s else Step(Advances(s, t, n - 1), Advance(t))
  }

  class DataEngine {
    var data: map<string, Cell>
    var nreads: nat
    var nwrites: nat
    /** The state of the step machine that the calls so far have led to. */
    ghost var steps: State

    ghost predicate Valid()
      reads this
    {
      && steps.data == data && steps.nreads == nreads && steps.nwrites == nwrites && steps.pcs == map[]
      && Inv(steps)
    }

    constructor ()
      ensures Valid() && steps == Start(map[])
    {
      data, nreads, nwrites := map[], 0, 0;
      steps := Start(map[]);
      new;
      StartInv(map[]);
    }

    /** `get`: the value with the number of this read and the number of sets, or None.  Called by
        thread `t`; every atomic operation is one step. */
    method Get(t: nat, name: string) returns (r: Option<(string, nat, nat)>)
      requires Valid()
      modifies this
      ensures Valid() && CellValues(data) == CellValues(old(data))
      ensures r.Some? <==> name in old(data)
      ensures steps == Advances(Step(old(steps), BeginGet(t, name)), t, if r.Some? then 4 else 2)
      ensures r.Some? ==>
              && |steps.got| > 0
                && var g := steps.got[|steps.got| - 1];
                   g.name == name && r.value == (g.value, g.nreads, g.nwrites)
    {
      hide Inv, Advances, Inc, Step;
      BeginAlone(steps, t, name, "");
      steps := Step(steps, BeginGet(t, name));
      StepKeeps(old(steps), BeginGet(t, name));
      ghost var s0 := steps;
      if name !in data {
        nreads := Inc(nreads);
        MissAlone(s0, t, name);
        AdvancesKeep(s0, t, 2);
        steps := Advances(s0, t, 2);
        return None;
      }
      var c := data[name];
      var reads1 := Inc(c.nreads);
      data := data[name := c.(nreads := reads1)];
      var writes1 := data[name].nwrites;
      nreads := Inc(nreads);
      r := Some((data[name].value, reads1, writes1));
      AdvancesKeep(s0, t, 4);
      GetAlone(s0, t, name);
      steps := Advances(s0, t, 4);
    }

    /** `set`. */
    method Set(t: nat, name: string, value: string)
      requires Valid()
      modifies this
      ensures Valid() && CellValues(data) == CellValues(old(data))[name := value]
      ensures steps == Advances(Step(old(steps), BeginSet(t, name, value)), t, if name in old(data) then 4 else 3)
      ensures name in steps.sets
              && steps.sets[name] == (if name in old(steps).sets then old(steps).sets[name] else []) + [value]
    {
      hide Inv, Advances, Inc, Step, CellValues;
      BeginAlone(steps, t, name, value);
      steps := Step(steps, BeginSet(t, name, value));
      StepKeeps(old(steps), BeginSet(t, name, value));
      ghost var s0 := steps;
      SetAlone(s0, t, name, value);
      AdvancesKeep(s0, t, if name in data then 4 else 3);
      steps := Advances(s0, t, if name in data then 4 else 3);
      if name !in data {
        data := data[name := Cell(value, 0, 1)];
      } else {
        data := data[name := data[name].(nwrites := Inc(data[name].nwrites))];
        data := data[name := data[name].(value := value)];
        assert data == old(data)[name := data[name]];
      }
      nwrites := Inc(nwrites);
      ValuesPut(old(data), name, data[name]);
    }

    /** `initial_set`, before any get or set: a record without reads and writes. */
    method InitialSet(name: string, value: string)
      requires Valid() && steps == Start(steps.loaded)
      modifies this
      ensures Valid() && steps == Start(old(steps).loaded[name := value])
    {
      hide Inv;
      StartPut(steps.loaded, name, value);
      StartInv(steps.loaded[name := value]);
      hide Start;
      if name !in data {
        data := data[name := Cell(value, 0, 0)];
      } else {
        data := data[name := data[name].(value := value)];
      }
      steps := Start(steps.loaded[name := value]);
    }

    /** `store_data`: the records in whatever order the map gives them. */
    method StoreData() returns (file: seq<(string, string)>, count: nat)
      ensures ValuesOf(file) == CellValues(data) && count == |file| == |data|
    {
      file, count := [], 0;
      var rest := data.Keys;
      assert ValuesOf(file).Keys == data.Keys - rest;
      while rest != {}
        invariant rest <= data.Keys && count == |file| && |file| + |rest| == |data.Keys|
        invariant ValuesOf(file).Keys == data.Keys - rest
        invariant forall k :: k in ValuesOf(file) ==> ValuesOf(file)[k] == data[k].value
        decreases rest
      {
        var k :| k in rest;
        ghost var before := file;
        file, count, rest := file + [(k, data[k].value)], count + 1, rest - {k};
        assert file[..|file| - 1] == before;
      }
      assert |data.Keys| == |data|;
    }
  }

  /** `initial_load_data`: a new engine with the values of a file. */
  method InitialLoad(file: seq<(string, string)>) returns (engine: DataEngine, count: nat)
    ensures fresh(engine) && engine.Valid() && engine.steps == Start(ValuesOf(file)) && count == |file|
  {
    engine := new DataEngine();
    count := 0;
    while count < |file|
      invariant count <= |file| && fresh(engine) && engine.Valid() && engine.steps == Start(ValuesOf(file[..count]))
    {
      engine.InitialSet(file[count].0, file[count].1);
      assert file[..count + 1][..count] == file[..count];
      count := count + 1;
    }
    assert file[..count] == file;
  }

  // ---------------------------------------------------------------- a whole run

  datatype Request = Read(name: string) | Write(name: string, value: string)

  /** The values after some requests. */
  function After(values: map<string, string>, requests: seq<Request>): map<string, string> {
    if requests == [] then values
    else
      var v := After(values, requests[..|requests| - 1]);
      match requests[|requests| - 1]
      case Read(_) => v
      case Write(name, value) => v[name := value]
  }

  /** Load, serve, save, and load again: the last value of every key is back. */
  method ServeAndSave(file: seq<(string, string)>, requests: seq<Request>)
    returns (saved: seq<(string, string)>, reloaded: DataEngine)
    ensures ValuesOf(saved) == After(ValuesOf(file), requests)
    ensures fresh(reloaded) && reloaded.Valid() && CellValues(reloaded.data) == After(ValuesOf(file), requests)
  {
    hide Inv, Step, Advances;
    var engine, count := InitialLoad(file);
    StartValues(ValuesOf(file));
    hide Start, CellValues, ValuesOf;
    var i := 0;
    while i < |requests|
      invariant i <= |requests| && fresh(engine) && engine.Valid()
                && CellValues(engine.data) == After(ValuesOf(file), requests[..i])
    {
      assert requests[..i + 1][..i] == requests[..i];
      match requests[i] {
        case Read(name) =>
          var r := engine.Get(0, name);
        case Write(name, value) =>
          engine.Set(0, name, value);
      }
      i := i + 1;
    }
    assert requests[..i] == requests;
    saved, count := engine.StoreData();
    reloaded, count := InitialLoad(saved);
    StartValues(ValuesOf(saved));
  }

  lemma StartValues(loaded: map<string, string>)
    ensures CellValues(Start(loaded).data) == loaded
  {
  }

  lemma GetLoadedKept(s: State, t: nat)
    requires t in s.pcs && !IsSet(s.pcs[t])
    ensures GetStep(s, t).loaded == s.loaded && s.data.Keys <= GetStep(s, t).data.Keys
  {
    hide Inc;
  }

  lemma SetLoadedKept(s: State, t: nat)
    requires t in s.pcs && IsSet(s.pcs[t])
    ensures SetStep(s, t).loaded == s.loaded && s.data.Keys <= SetStep(s, t).data.Keys
  {
    hide Inc;
  }

  lemma StepLoaded(s: State, a: Action)
    ensures Step(s, a).loaded == s.loaded && s.data.Keys <= Step(s, a).data.Keys
  {
    hide GetStep, SetStep;
    if a.Advance? && a.t in s.pcs {
      if IsSet(s.pcs[a.t]) {
        SetLoadedKept(s, a.t);
      } else {
        GetLoadedKept(s, a.t);
      }
    }
  }

  /** Loading leaves its keys in the map for good. */
  lemma {:induction false} LoadedStays(loaded: map<string, string>, actions: seq<Action>)
    ensures var s := Exec(Start(loaded), actions); s.loaded == loaded && loaded.Keys <= s.data.Keys
  {
    hide Step;
    if actions != [] {
      LoadedStays(loaded, actions[..|actions| - 1]);
      StepLoaded(Exec(Start(loaded), actions[..|actions| - 1]), actions[|actions| - 1]);
    }
  }

  /** A save after every interleaving that has come to rest: the file holds the loaded and the set
      keys, each with the last value set, or the loaded one if it was never set. */
  lemma SavedValues(loaded: map<string, string>, actions: seq<Action>, file: seq<(string, string)>)
    requires var s := Exec(Start(loaded), actions); s.pcs == map[] && ValuesOf(file) == CellValues(s.data)
    ensures var s := Exec(Start(loaded), actions);
            && loaded.Keys <= ValuesOf(file).Keys == s.sets.Keys
            && forall k :: k in ValuesOf(file) ==>
                 if s.sets[k] != [] then ValuesOf(file)[k] == s.sets[k][|s.sets[k]| - 1]
                 else k in loaded && ValuesOf(file)[k] == loaded[k]
  {
    hide Exec, Start;
    var s := Exec(Start(loaded), actions);
    ExecKeeps(loaded, actions);
    LoadedStays(loaded, actions);
    forall k | k in ValuesOf(file)
      ensures k in s.sets
      ensures if s.sets[k] != [] then ValuesOf(file)[k] == s.sets[k][|s.sets[k]| - 1]
              else k in loaded && ValuesOf(file)[k] == loaded[k]
    {
      assert CellFits(s, k);
    }
  }

  /** The last value set of every key, or the loaded one. */
  function LastValues(s: State): map<string, string> {
    map k | k in s.sets ::
      if s.sets[k] != [] then s.sets[k][|s.sets[k]| - 1] else if k in s.loaded then s.loaded[k] else ""
  }

  /** After loading `file`, any interleaving of gets and sets that has come to rest, and the final save in
      any order of the records, a reload has exactly the last value of every key. */
  method Restart(engine: DataEngine, ghost file: seq<(string, string)>, ghost actions: seq<Action>)
    returns (saved: seq<(string, string)>, reloaded: DataEngine)
    requires engine.Valid() && engine.steps == Exec(Start(ValuesOf(file)), actions)
    ensures fresh(reloaded) && reloaded.Valid() && |saved| == |engine.data|
    ensures CellValues(reloaded.data) == LastValues(Exec(Start(ValuesOf(file)), actions))
    ensures ValuesOf(file).Keys <= reloaded.data.Keys
  {
    hide Inv, Exec, Start, ValuesOf;
    var count;
    saved, count := engine.StoreData();
    SavedValues(ValuesOf(file), actions, saved);
    LoadedStays(ValuesOf(file), actions);
    assert ValuesOf(saved) == LastValues(engine.steps);
    reloaded, count := InitialLoad(saved);
    StartValues(ValuesOf(saved));
    assert CellValues(reloaded.data).Keys == reloaded.data.Keys;
  }

  // ---------------------------------------------------------------- statistics and periodic saves

  /** Sum of printed differences. */
  function Total(deltas: seq<nat>): nat {
    if deltas == [] then 0 else Total(deltas[..|deltas| - 1]) + deltas[|deltas| - 1]
  }

  class StatisticsPrinter {
    var previousReads: nat
    var previousWrites: nat

    constructor ()
      ensures previousReads == 0 && previousWrites == 0
    {
      previousReads, previousWrites := 0, 0;
    }

    /** The differences to the previous call, in 64-bit arithmetic. */
    method PrintStatistics(r: nat, w: nat) returns (readsDelta: nat, writesDelta: nat)
      requires r < WRAP && w < WRAP && previousReads < WRAP && previousWrites < WRAP
      modifies this
      ensures previousReads == r && previousWrites == w && readsDelta < WRAP && writesDelta < WRAP
      ensures (old(previousReads) + readsDelta) % WRAP == r && (old(previousWrites) + writesDelta) % WRAP == w
    {
      readsDelta := (r + WRAP - previousReads) % WRAP;
      writesDelta := (w + WRAP - previousWrites) % WRAP;
      previousReads, previousWrites := r, w;
    }
  }

  /** One turn of the background loop: the two clock readings, the global counters, and whether the
      stop was notified during the wait. */
  datatype Turn = Turn(printTime: int, saveTime: int, nreads: nat, nwrites: nat, stopped: bool)

  const SAVE_INTERVAL := 14

  predicate Counted(turns: seq<Turn>) {
    forall i :: 0 <= i < |turns| ==> turns[i].nreads < WRAP && turns[i].nwrites < WRAP
  }

  /** The time of the last save before turn `i`, from the turns that have saved. */
  function LastSave(turns: seq<Turn>, start: int, saves: seq<nat>, i: nat): int
    requires forall k :: 0 <= k < |saves| ==> saves[k] < |turns|
  {
    if saves == [] then start
    else if saves[|saves| - 1] < i then turns[saves[|saves| - 1]].saveTime
    else LastSave(turns, start, saves[..|saves| - 1], i)
  }

  /** `run`: print in every turn, save when the interval has passed since the last save, stop after
      the turn in which the stop was notified. */
  method RunWorker(start: int, turns: seq<Turn>) returns (reads1: seq<nat>, writes1: seq<nat>, saves: seq<nat>)
    requires Counted(turns)
    ensures |reads1| == |writes1| <= |turns|
    ensures |reads1| < |turns| ==> |reads1| > 0 && turns[|reads1| - 1].stopped
    ensures forall i :: 0 <= i < |reads1| - 1 ==> !turns[i].stopped
    ensures |reads1| > 0 ==>
            Total(reads1) % WRAP == turns[|reads1| - 1].nreads && Total(writes1) % WRAP == turns[|reads1| - 1].nwrites
    ensures forall k :: 0 <= k < |saves| ==> saves[k] < |reads1|
    ensures forall i :: 0 <= i < |reads1| ==>
            (i in saves <==> turns[i].saveTime - LastSave(turns, start, saves, i) >= 14)
  {
    hide Total, LastSave, WRAP;
    reads1, writes1, saves := [], [], [];
    NothingPrinted(turns, start);
    var printer := new StatisticsPrinter();
    var lastSaveTime := start;
    var i := 0;
    while i < |turns|
      invariant i <= |turns| && |reads1| == |writes1| == i
      invariant forall j :: 0 <= j < i ==> !turns[j].stopped
      invariant fresh(printer) && printer.previousReads == Total(reads1) % WRAP
                && printer.previousWrites == Total(writes1) % WRAP
      invariant i > 0 ==> printer.previousReads == turns[i - 1].nreads && printer.previousWrites == turns[i - 1].nwrites
      invariant forall k :: 0 <= k < |saves| ==> saves[k] < i
      invariant lastSaveTime == LastSave(turns, start, saves, i)
      invariant forall j :: 0 <= j < i ==>
                (j in saves <==> turns[j].saveTime - LastSave(turns, start, saves, j) >= SAVE_INTERVAL)
    {
      var t := turns[i];
      ghost var r0, w0, saves0 := reads1, writes1, saves;
      var r, w := printer.PrintStatistics(t.nreads, t.nwrites);
      reads1, writes1 := reads1 + [r], writes1 + [w];
      TotalSnoc(r0, r);
      TotalSnoc(w0, w);
      LastSaveNext(turns, start, saves, i);
      if t.saveTime - lastSaveTime >= SAVE_INTERVAL {
        saves := saves + [i];
        lastSaveTime := t.saveTime;
        forall j | 0 <= j <= i + 1
          ensures LastSave(turns, start, saves, j) == if j <= i then LastSave(turns, start, saves0, j) else t.saveTime
        {
          LastSaveSnoc(turns, start, saves0, i, j);
        }
      }
      i := i + 1;
      if t.stopped {
        break;
      }
    }
  }

  lemma TotalSnoc(deltas: seq<nat>, d: nat)
    ensures Total(deltas + [d]) % WRAP == (Total(deltas) % WRAP + d) % WRAP
  {
    assert (deltas + [d])[..|deltas|] == deltas;
    ModSum(Total(deltas), d);
  }

  lemma ModSum(a: nat, b: nat)
    ensures (a + b) % WRAP == (a % WRAP + b) % WRAP
  {
  }

  lemma NothingPrinted(turns: seq<Turn>, start: int)
    ensures Total([]) == 0 && LastSave(turns, start, [], 0) == start
    ensures 0 < WRAP && forall i :: 0 <= i < |turns| && Counted(turns) ==>
            turns[i].nreads < WRAP && turns[i].nwrites < WRAP
  {
  }

  lemma LastSaveSnoc(turns: seq<Turn>, start: int, saves: seq<nat>, i: nat, j: nat)
    requires i < |turns| && j <= i + 1 && forall k :: 0 <= k < |saves| ==> saves[k] < i
    ensures LastSave(turns, start, saves + [i], j) ==
            if j <= i then LastSave(turns, start, saves, j) else turns[i].saveTime
  {
    assert (saves + [i])[..|saves|] == saves;
  }

  /** A turn without a save changes nothing for the next. */
  lemma LastSaveNext(turns: seq<Turn>, start: int, saves: seq<nat>, i: nat)
    requires i < |turns| && forall k :: 0 <= k < |saves| ==> saves[k] < i
    ensures LastSave(turns, start, saves, i + 1) == LastSave(turns, start, saves, i)
  {
  }

  lemma StartPut(loaded: map<string, string>, name: string, value: string)
    ensures var s, s' := Start(loaded), Start(loaded[name := value]);
            && s.pcs == map[] == s'.pcs && s.nreads == 0 == s'.nreads && s.nwrites == 0 == s'.nwrites
            && s'.loaded == loaded[name := value] && (name in s.data <==> name in loaded)
            && s'.data == s.data[name := if name in s.data then s.data[name].(value := value) else Cell(value, 0, 0)]
  {
  }

  lemma {:induction false} AdvancesKeep(s: State, t: nat, n: nat)
    requires Inv(s)
    ensures Inv(Advances(s, t, n))
  {
    hide Inv, Step;
    if n > 0 {
      AdvancesKeep(s, t, n - 1);
      StepKeeps(Advances(s, t, n - 1), Advance(t));
    }
  }

  lemma BeginAlone(s: State, t: nat, name: string, value: string)
    requires s.pcs == map[]
    ensures Step(s, BeginGet(t, name)) == s.(pcs := map[t := GetLocked(name)])
    ensures Step(s, BeginSet(t, name, value)) == s.(pcs := map[t := SetLocked(name, value)])
  {
  }

  lemma FirstAdvances(s: State, t: nat)
    ensures Advances(s, t, 0) == s
    ensures forall n: nat :: Advances(s, t, n + 1) == Step(Advances(s, t, n), Advance(t))
  {
  }

  /** The first steps of a thread that gets a value alone. */
  lemma GetSteps(s: State, t: nat)
    requires t in s.pcs && s.pcs == map[t := s.pcs[t]] && (s.pcs[t].GetLocked? || s.pcs[t].GetMissed?)
    ensures var s', p := Step(s, Advance(t)), s.pcs[t];
            && (p.GetLocked? && p.name in s.data && p.name in s.hits ==>
                  var r := Inc(s.data[p.name].nreads);
                  s' == s.(data := s.data[p.name := s.data[p.name].(nreads := r)],
                           hits := s.hits[p.name := s.hits[p.name] + 1],
                           pcs := map[t := GetCounted(p.name, s.hits[p.name] + 1, r)]))
            && (p.GetLocked? && p.name !in s.data ==>
                  s' == s.(nreads := Inc(s.nreads), misses := s.misses + 1, pcs := map[t := GetMissed]))
            && (p.GetMissed? ==> s' == s.(pcs := map[]))
  {
    hide Inc, SetStep;
    assert s.pcs - {t} == map[];
  }

  /** The steps of a get behind the count of its key. */
  lemma GetLaterSteps(s: State, t: nat)
    requires t in s.pcs && s.pcs == map[t := s.pcs[t]]
    requires s.pcs[t].GetCounted? || s.pcs[t].GetLoaded? || s.pcs[t].GetBoth?
    ensures var s', p := Step(s, Advance(t)), s.pcs[t];
            && (p.GetCounted? && p.name in s.data ==>
                  s' == s.(pcs := map[t := GetLoaded(p.name, p.nth, p.nreads, s.data[p.name].nwrites)]))
            && (p.GetLoaded? ==>
                  s' == s.(nreads := Inc(s.nreads), pcs := map[t := GetBoth(p.name, p.nth, p.nreads, p.nwrites)]))
            && (p.GetBoth? && p.name in s.data && p.name in s.sets ==>
                  s' == s.(got := s.got
                           + [Got(p.name, p.nth, |s.sets[p.name]|, s.data[p.name].value, p.nreads, p.nwrites)],
                               pcs := map[]))
  {
    hide Inc, SetStep;
    assert s.pcs - {t} == map[];
  }

  lemma SetSteps(s: State, t: nat)
    requires t in s.pcs && s.pcs == map[t := s.pcs[t]] && IsSet(s.pcs[t])
    ensures var s', p := Step(s, Advance(t)), s.pcs[t];
            && (p.SetLocked? && p.name !in s.data ==>
                  s' == s.(data := s.data[p.name := Cell(p.newValue, 0, 1)], hits := s.hits[p.name := 0],
                           sets := s.sets[p.name := [p.newValue]], pcs := map[t := SetStored(p.name)]))
            && (p.SetLocked? && p.name in s.data ==>
                  s' == s.(data := s.data[p.name := s.data[p.name].(nwrites := Inc(s.data[p.name].nwrites))],
                           pcs := map[t := SetCounted(p.name, p.newValue)]))
            && (p.SetCounted? && p.name in s.data && p.name in s.sets ==>
                  s' == s.(data := s.data[p.name := s.data[p.name].(value := p.newValue)],
                           sets := s.sets[p.name := s.sets[p.name] + [p.newValue]], pcs := map[t := SetStored(p.name)]))
            && (p.SetStored? ==> s' == s.(nwrites := Inc(s.nwrites), pcs := map[t := SetDone]))
            && (p.SetDone? ==> s' == s.(pcs := map[]))
  {
    hide Inc, GetStep;
    assert s.pcs - {t} == map[];
  }

  lemma HasDomains(s: State)
    requires Inv(s)
    ensures s.sets.Keys == s.data.Keys && s.hits.Keys == s.data.Keys
  {
  }

  /** A get of an unknown key, alone. */
  lemma MissAlone(s: State, t: nat, name: string)
    requires s.pcs == map[t := GetLocked(name)] && name !in s.data
    ensures Advances(s, t, 2) == s.(nreads := Inc(s.nreads), misses := s.misses + 1, pcs := map[])
  {
    hide Step, Inc, Advances;
    FirstAdvances(s, t);
    GetSteps(s, t);
    assert Advances(s, t, 0 + 1) == Step(s, Advance(t));
    GetSteps(Advances(s, t, 1), t);
    assert Advances(s, t, 1 + 1) == Step(Advances(s, t, 1), Advance(t));
  }

  /** A get of a known key, alone. */
  lemma GetAlone(s: State, t: nat, name: string)
    requires Inv(s) && s.pcs == map[t := GetLocked(name)] && name in s.data
    ensures var s' := Advances(s, t, 4);
            && s'.data == s.data[name := s.data[name].(nreads := Inc(s.data[name].nreads))]
            && s'.nreads == Inc(s.nreads) && s'.nwrites == s.nwrites && s'.pcs == map[]
            && |s'.got| == |s.got| + 1
            && var g := s'.got[|s.got|];
               g.name == name
                   && (g.value, g.nreads, g.nwrites) ==
                      (s.data[name].value, Inc(s.data[name].nreads), s.data[name].nwrites)
  {
    hide Step, Inc, Inv, Advances;
    HasDomains(s);
    FirstAdvances(s, t);
    GetSteps(s, t);
    var s1 := Advances(s, t, 0 + 1);
    GetLaterSteps(s1, t);
    var s2 := Advances(s, t, 1 + 1);
    GetLaterSteps(s2, t);
    var s3 := Advances(s, t, 2 + 1);
    GetLaterSteps(s3, t);
    assert Advances(s, t, 3 + 1) == Step(s3, Advance(t));
  }

  lemma SetAlone(s: State, t: nat, name: string, value: string)
    requires Inv(s) && s.pcs == map[t := SetLocked(name, value)]
    ensures var s' := Advances(s, t, if name in s.data then 4 else 3);
            && s'.nreads == s.nreads && s'.nwrites == Inc(s.nwrites) && s'.pcs == map[]
            && s'.data == (if name in s.data
                           then s.data[name := s.data[name].(nwrites := Inc(s.data[name].nwrites), value := value)]
                           else s.data[name := Cell(value, 0, 1)])
            && name in s'.sets && s'.sets[name] == (if name in s.sets then s.sets[name] else []) + [value]
  {
    hide Step, Inc, Inv, Advances;
    HasDomains(s);
    FirstAdvances(s, t);
    SetSteps(s, t);
    var s1 := Advances(s, t, 0 + 1);
    SetSteps(s1, t);
    var s2 := Advances(s, t, 1 + 1);
    SetSteps(s2, t);
    var s3 := Advances(s, t, 2 + 1);
    if name in s.data {
      SetSteps(s3, t);
      assert Advances(s, t, 3 + 1) == Step(s3, Advance(t));
    }
  }
}
