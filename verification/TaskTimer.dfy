/** The timer: callbacks with deadlines in a table, identifiers that are reused once the table has
    been empty, and ticks that run what is due. */
module TaskTimer {
  import opened Basics

  /** A scheduled callback; `serial` tells calls of `schedule` apart. */
  datatype Task = Task(deadline: int, serial: nat)

  /** The serials of the tasks of `tasks` with identifiers up to `k` that are due, in the order of
      the table. */
  function Due(tasks: map<nat, Task>, now: int, k: nat): seq<nat> {
    if k == 0 then []
    else Due(tasks, now, k - 1) + if k in tasks && tasks[k].deadline < now then [tasks[k].serial] else []
  }

  class TaskTimer {
    var tasks: map<nat, Task>
    var highestId: nat
    /** The number of calls of `schedule`, which stands for the callbacks; what has run and what has
        been cancelled. */
    var scheduled: nat
    ghost var ran: seq<nat>
    ghost var cancelled: set<nat>

    /** Identifiers lie between 1 and `highestId`, and no task that is still in the table has run or
        been cancelled; none has run twice or after it was cancelled. */
    ghost predicate Valid()
      reads this
    {
      && (forall id :: id in tasks ==> 1 <= id <= highestId && tasks[id].serial < scheduled)
      && (forall id, jd :: id in tasks && jd in tasks && tasks[id].serial == tasks[jd].serial ==> id == jd)
      && (forall id :: id in tasks ==> tasks[id].serial !in ran && tasks[id].serial !in cancelled)
      && (forall i :: 0 <= i < |ran| ==> ran[i] < scheduled && ran[i] !in cancelled)
      && AllDifferent(ran)
      && (forall s :: s in cancelled ==> s < scheduled)
    }

    constructor ()
      ensures Valid() && tasks == map[] && ran == [] && cancelled == {} && scheduled == 0
    {
      tasks, highestId, scheduled, ran, cancelled := map[], 0, 0, [], {};
    }

    /** `schedule`: a task under an identifier that no task in the table has. */
    method Schedule(now: int, timeout: nat) returns (id: nat)
      requires Valid() && timeout < 256
      modifies this
      ensures Valid() && id !in old(tasks) && 1 <= id
      ensures tasks == old(tasks)[id := Task(now + timeout, old(scheduled))] && scheduled == old(scheduled) + 1
      ensures ran == old(ran) && cancelled == old(cancelled)
    {
      highestId := highestId + 1;
      id := highestId;
      tasks := tasks[id := Task(now + timeout, scheduled)];
      scheduled := scheduled + 1;
    }

    /** `cancel`. */
    method Cancel(id: nat)
      requires Valid()
      modifies this
      ensures Valid() && tasks == old(tasks) - {id} && ran == old(ran) && scheduled == old(scheduled)
      ensures cancelled == old(cancelled) + if id in old(tasks) then {old(tasks)[id].serial} else {}
    {
      if id in tasks {
        cancelled := cancelled + {tasks[id].serial};
      }
      tasks := tasks - {id};
    }

    /** The first loop: run what is due. */
    method RunDue(now: int) returns (finished: seq<nat>)
      modifies this`ran
      ensures ran == old(ran) + Due(tasks, now, highestId)
      ensures forall k :: k in finished <==> 1 <= k <= highestId && k in tasks && tasks[k].deadline < now
    {
      finished := [];
      var id := 0;
      while id < highestId
        invariant id <= highestId && ran == old(ran) + Due(tasks, now, id)
        invariant forall k :: k in finished <==> 1 <= k <= id && k in tasks && tasks[k].deadline < now
      {
        id := id + 1;
        if id in tasks && tasks[id].deadline < now {
          ran := ran + [tasks[id].serial];
          finished := finished + [id];
        }
      }
    }

    /** The second loop: take the finished tasks out of the table. */
    method Erase(finished: seq<nat>)
      modifies this`tasks
      ensures forall k :: k in tasks <==> k in old(tasks) && k !in finished
      ensures forall k :: k in tasks ==> tasks[k] == old(tasks)[k]
    {
      var i := 0;
      while i < |finished|
        invariant i <= |finished|
        invariant forall k :: k in tasks <==> k in old(tasks) && k !in finished[..i]
        invariant forall k :: k in tasks ==> tasks[k] == old(tasks)[k]
      {
        tasks := tasks - {finished[i]};
        assert finished[..i + 1] == finished[..i] + [finished[i]];
        i := i + 1;
      }
      assert finished[..i] == finished;
    }

    /** `process_tasks`: exactly the tasks whose deadline has passed run, each once and in the order
        of the table, and are gone afterwards. */
    method ProcessTasks(now: int)
      requires Valid()
      modifies this
      ensures Valid() && cancelled == old(cancelled) && scheduled == old(scheduled)
      ensures ran == old(ran) + Due(old(tasks), now, old(highestId))
      ensures forall id :: id in tasks <==> id in old(tasks) && old(tasks)[id].deadline >= now
      ensures forall id :: id in tasks ==> tasks[id] == old(tasks)[id]
      ensures highestId == if tasks == map[] then 0 else old(highestId)
    {
      hide Due;
      DueSerials(tasks, now, highestId, ran, cancelled, scheduled);
      var finished := RunDue(now);
      Erase(finished);
      if tasks == map[] {
        highestId := 0;
      }
    }
  }

  /** The serial of a due task with an identifier up to `k`. */
  predicate IsDue(tasks: map<nat, Task>, now: int, k: nat, s: nat) {
    exists id :: id in tasks && 1 <= id <= k && tasks[id].deadline < now && tasks[id].serial == s
  }

  lemma {:induction false} DueMembers(tasks: map<nat, Task>, now: int, k: nat)
    ensures forall s :: s in Due(tasks, now, k) ==> IsDue(tasks, now, k, s)
  {
    if k > 0 {
      DueMembers(tasks, now, k - 1);
      forall s | s in Due(tasks, now, k) ensures IsDue(tasks, now, k, s) {
        if s in Due(tasks, now, k - 1) {
          assert IsDue(tasks, now, k - 1, s);
        }
      }
    }
  }

  predicate AllDifferent(s: seq<nat>) {
    forall i, j :: 0 <= i < j < |s| ==> s[i] != s[j]
  }

  predicate Injective(tasks: map<nat, Task>) {
    forall id, jd :: id in tasks && jd in tasks && tasks[id].serial == tasks[jd].serial ==> id == jd
  }

  lemma {:induction false} DueDistinct(tasks: map<nat, Task>, now: int, k: nat)
    requires Injective(tasks)
    ensures AllDifferent(Due(tasks, now, k))
  {
    if k > 0 {
      DueDistinct(tasks, now, k - 1);
      DueMembers(tasks, now, k - 1);
      var d := Due(tasks, now, k - 1);
      if k in tasks && tasks[k].deadline < now {
        forall i | 0 <= i < |d| ensures d[i] != tasks[k].serial {
          assert d[i] in d && IsDue(tasks, now, k - 1, d[i]);
        }
        assert Due(tasks, now, k) == d + [tasks[k].serial];
      } else {
        assert Due(tasks, now, k) == d;
      }
    }
  }

  lemma NotDue(tasks: map<nat, Task>, now: int, k: nat, id: nat)
    requires Injective(tasks) && id in tasks && tasks[id].deadline >= now
    ensures !IsDue(tasks, now, k, tasks[id].serial)
  {
  }

  /** The due serials: all different, none run or cancelled before, and none of a task that stays. */
  lemma DueSerials(tasks: map<nat, Task>, now: int, k: nat, ran: seq<nat>, cancelled: set<nat>, scheduled: nat)
    requires Injective(tasks)
    requires forall id :: id in tasks ==>
             tasks[id].serial !in ran && tasks[id].serial !in cancelled && tasks[id].serial < scheduled
    requires AllDifferent(ran)
    ensures var all := ran + Due(tasks, now, k);
            && AllDifferent(all)
            && (forall i :: |ran| <= i < |all| ==> all[i] !in cancelled && all[i] < scheduled)
            && (forall id :: id in tasks && tasks[id].deadline >= now ==> tasks[id].serial !in all)
  {
    var d := Due(tasks, now, k);
    DueMembers(tasks, now, k);
    DueDistinct(tasks, now, k);
    var all := ran + d;
    forall i | |ran| <= i < |all| ensures all[i] in d && all[i] !in ran && all[i] !in cancelled && all[i] < scheduled {
      assert all[i] == d[i - |ran|];
      assert IsDue(tasks, now, k, all[i]);
    }
    forall i, j | 0 <= i < j < |all| ensures all[i] != all[j] {
      if i < |ran| {
        assert all[i] in ran;
      } else {
        assert all[i] == d[i - |ran|] && all[j] == d[j - |ran|];
      }
    }
    forall id | id in tasks && tasks[id].deadline >= now ensures tasks[id].serial !in all {
      NotDue(tasks, now, k, id);
    }
  }
}
