/**
 * `ExecutorManager`: the table from task id to the executor running that task. `requestStart`
 * refuses an id that already has an entry; `start` creates an executor, puts it under the id
 * and runs it. No operation removes an entry.
 *
 * The table step is first stated on values (`Admit`, `Install`, `Replay`) and proved there;
 * the class's methods are then proved against those functions.
 */
module Executors {
  import opened Tasks

  // ---------------------------------------------------------------------------------------
  // The table as a value

  /** `requestStart` on the table: an id already present is refused and the table kept; an
      absent id gets the executor `e`. */
  function Admit<E>(slots: map<string, E>, id: string, e: E): (r: map<string, E>)
    ensures id in r
    ensures r.Keys == slots.Keys + {id}
    ensures forall k | k in slots :: r[k] == slots[k]
    ensures id !in slots ==> r[id] == e
    ensures id in slots <==> r == slots
    ensures |r| <= |slots| + 1
  {
    if id in slots then slots else slots[id := e]
  }

  /** `start` on the table: `e` is put under `id`, replacing whatever was there. */
  function Install<E>(slots: map<string, E>, id: string, e: E): (r: map<string, E>)
    ensures r.Keys == slots.Keys + {id}
    ensures r[id] == e
    ensures forall k | k in slots && k != id :: r[k] == slots[k]
  {
    slots[id := e]
  }

  /** A second request for an id changes nothing: the first executor stays. */
  lemma AdmitTwice<E>(slots: map<string, E>, id: string, e1: E, e2: E)
    ensures Admit(Admit(slots, id, e1), id, e2) == Admit(slots, id, e1)
    ensures Admit(Admit(slots, id, e1), id, e2)[id] == if id in slots then slots[id] else e1
  {
  }

  /** Where the duplicate guard is: `Admit` is `Install` exactly for an id not yet present. */
  lemma AdmitIsGuardedInstall<E>(slots: map<string, E>, id: string, e: E)
    ensures id !in slots ==> Admit(slots, id, e) == Install(slots, id, e)
    ensures id in slots ==> Admit(slots, id, e) == slots
  {
  }

  /** The table after a sequence of `requestStart` calls, each paired with the executor it
      would create. */
  function Replay<E>(slots: map<string, E>, requests: seq<(string, E)>): map<string, E>
    decreases |requests|
  {
    if |requests| == 0 then slots
    else Replay(Admit(slots, requests[0].0, requests[0].1), requests[1..])
  }

  /** The ids of a sequence of requests. */
  function Ids<E>(requests: seq<(string, E)>): set<string>
  {
    set i | 0 <= i < |requests| :: requests[i].0
  }

  /** After any sequence of requests the ids are the old ones plus the requested ones. */
  lemma {:induction false} ReplayKeys<E>(slots: map<string, E>, requests: seq<(string, E)>)
    ensures Replay(slots, requests).Keys == slots.Keys + Ids(requests)
    decreases |requests|
  {
    if |requests| > 0 {
      var next := Admit(slots, requests[0].0, requests[0].1);
      ReplayKeys(next, requests[1..]);
      IdsCons(requests);
    }
  }

  /** The ids of a non-empty sequence: the first one and those of the rest. */
  lemma IdsCons<E>(requests: seq<(string, E)>)
    requires |requests| > 0
    ensures Ids(requests) == {requests[0].0} + Ids(requests[1..])
  {
    forall x | x in Ids(requests) ensures x in {requests[0].0} + Ids(requests[1..]) {
      var i :| 0 <= i < |requests| && requests[i].0 == x;
      if i > 0 {
        assert requests[1..][i - 1].0 == x;
      }
    }
    forall x | x in Ids(requests[1..]) ensures x in Ids(requests) {
      var i :| 0 <= i < |requests[1..]| && requests[1..][i].0 == x;
      assert requests[i + 1].0 == x;
    }
  }

  /** No request ever replaces an executor that is already in the table. */
  lemma {:induction false} ReplayKeepsSlots<E>(slots: map<string, E>, requests: seq<(string, E)>)
    ensures forall k | k in slots :: k in Replay(slots, requests) && Replay(slots, requests)[k] == slots[k]
    decreases |requests|
  {
    if |requests| > 0 {
      ReplayKeepsSlots(Admit(slots, requests[0].0, requests[0].1), requests[1..]);
    }
  }

  /** The first request for a new id wins: its executor is the one left in the table. */
  lemma {:induction false} ReplayFirstWins<E>(slots: map<string, E>, requests: seq<(string, E)>, i: nat)
    requires i < |requests|
    requires requests[i].0 !in slots
    requires forall j | 0 <= j < i :: requests[j].0 != requests[i].0
    ensures requests[i].0 in Replay(slots, requests)
    ensures Replay(slots, requests)[requests[i].0] == requests[i].1
    decreases |requests|
  {
    var next := Admit(slots, requests[0].0, requests[0].1);
    if i == 0 {
      ReplayKeepsSlots(next, requests[1..]);
    } else {
      assert requests[1..][i - 1] == requests[i];
      ReplayFirstWins(next, requests[1..], i - 1);
    }
  }

  /** Each request adds at most one entry. */
  lemma {:induction false} ReplayGrowth<E>(slots: map<string, E>, requests: seq<(string, E)>)
    ensures |slots| <= |Replay(slots, requests)| <= |slots| + |requests|
    decreases |requests|
  {
    if |requests| > 0 {
      var next := Admit(slots, requests[0].0, requests[0].1);
      assert |slots| <= |next| by {
        assert slots.Keys <= next.Keys;
        assert |slots.Keys| <= |next.Keys|;
      }
      ReplayGrowth(next, requests[1..]);
    }
  }

  // ---------------------------------------------------------------------------------------
  // The objects

  /** The process that runs one task. What it does is not modelled: `Run` only records that
      it was started. */
  class Executor {
    const task: Task
    var running: bool

    constructor(task: Task)
      ensures this.task == task && !running
    {
      this.task := task;
      running := false;
    }

    method Run()
      modifies this
      ensures running
    {
      running := true;
    }
  }

  class ExecutorManager {
    var executors: map<string, Executor>

    /** No executor is registered under two ids. */
    ghost predicate Valid()
      reads this
    {
      forall a, b | a in executors && b in executors && a != b :: executors[a] != executors[b]
    }

    constructor()
      ensures executors == map[]
      ensures Valid()
    {
      executors := map[];
    }

    /** `requestStart`: a task whose id already has an executor is refused and nothing
        changes; otherwise the task is started. */
    method RequestStart(task: Task)
      requires Valid()
      modifies this
      ensures Valid()
      ensures task.id in executors
      ensures executors == Admit(old(executors), task.id, executors[task.id])
      ensures task.id in old(executors) ==> executors == old(executors)
      ensures task.id !in old(executors) ==>
                fresh(executors[task.id]) && executors[task.id].task == task && executors[task.id].running
      ensures forall k | k in old(executors) :: old(executors[k].running) == executors[k].running
    {
      if task.id in executors {
        // The user is told that the task is running; the table is left as it is.
      } else {
        Start(task);
      }
    }

    /** `start`: a new executor for the task is put under its id, replacing any executor
        already there, and run. */
    method Start(task: Task)
      requires Valid()
      modifies this
      ensures Valid()
      ensures task.id in executors
      ensures executors == Install(old(executors), task.id, executors[task.id])
      ensures fresh(executors[task.id]) && executors[task.id].task == task && executors[task.id].running
      ensures forall k | k in old(executors) :: old(executors)[k].running == old(executors[k].running)
    {
      var executor := new Executor(task);
      executors := executors[task.id := executor];
      executor.Run();
    }
  }
}
