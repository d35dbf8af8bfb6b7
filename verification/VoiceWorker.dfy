/**
 The two programs of the voice worker, one method for each thing they do to the shared
 directories. An object records its own history, and `Valid` says that history is a run of the
 queue's state machine, so whatever holds in every run holds of every object, in whatever
 order its methods are called.
 */
module VoiceWorker {
  import opened Text
  import opened VoiceQueue
  import opened VoiceQueueSafety
  import opened VoiceQueueRuns

  const MAX_INSTRUCTIONS := 4000

  datatype Reply =
    | NotAllowed
    | BadInstructions
    | TooBusy(active: nat)
    | Started(id: Id)

  function RequestFields(name: string, repo: string, instructions: string, requestedBy: string, queuedAt: string): Fields {
    map["id" := name, "repo" := repo, "instructions" := instructions,
        "requested_by" := if |requestedBy| > 64 then requestedBy[..64] else requestedBy,
        "queued_at" := queuedAt]
  }

  /** Only the task's status and the runner changed, and the status is final and keeps the request. */
  ghost predicate EndsTask(before: System, after: System, id: Id, request: Fields, state: TaskState) {
    && id in after.status && after.status[id].state == state && SameRequest(after.status[id].fields, request)
    && after == before.(status := before.status[id := after.status[id]], runner := Idle)
  }

  /** The greatest of some ids. */
  method Greatest(ids: set<Id>) returns (top: Id)
    requires ids != {}
    ensures top in ids && forall x :: x in ids ==> x <= top
  {
    top :| top in ids;
    var rest := ids - {top};
    while rest != {}
      invariant top in ids && rest <= ids
      invariant forall x :: x in ids && x !in rest ==> x <= top
      decreases |rest|
    {
      var x: Id :| x in rest;
      if x > top {
        top := x;
      }
      rest := rest - {x};
    }
  }

  /** The n newest of some ids, newest first. */
  method Recent(ids: set<Id>, n: nat) returns (newest: seq<Id>)
    ensures IsNewest(newest, ids, n)
  {
    newest := [];
    var rest := ids;
    while rest != {} && |newest| < n
      invariant Decreasing(newest) && |newest| <= n
      invariant |newest| + |rest| == |ids|
      invariant Elements(newest) <= ids && rest <= ids
      invariant forall x :: x in ids ==> x in rest || x in newest
      invariant forall i, x :: 0 <= i < |newest| && x in rest ==> x < newest[i]
      decreases |rest|
    {
      var top := Greatest(rest);
      assert forall x :: x in newest + [top] <==> x in newest || x == top;
      newest := newest + [top];
      rest := rest - {top};
    }
    forall x, y | x in ids && x !in newest && y in newest ensures x < y {
      assert x in rest;
    }
  }

  class Worker {
    const maxActive: nat
    var queue: map<Id, Fields>
    var status: map<Id, Record>
    var runner: Runner
    var dispatcher: Dispatcher
    ghost var accepted: seq<Id>
    ghost var tasks: map<Id, Fields>
    ghost var started: seq<Id>
    ghost var crashes: nat
    ghost var crashesHolding: nat
    ghost var run: seq<System>
    ghost var events: seq<Event>

    ghost function State(): System
      reads this
    {
      System(queue, status, runner, dispatcher, accepted, tasks, started, crashes, crashesHolding)
    }

    ghost predicate Valid()
      reads this
    {
      IsRun(maxActive, run, events) && run[|events|] == State()
    }

    constructor (maxActive: nat)
      ensures Valid() && this.maxActive == maxActive && State() == INITIAL
    {
      this.maxActive := maxActive;
      queue, status, runner, dispatcher := map[], map[], Idle, Ready;
      accepted, tasks, started, crashes, crashesHolding := [], map[], [], 0, 0;
      run, events := [INITIAL], [];
    }

    /** Record that the files and processes went through `e`. */
    ghost method Log(e: Event, before: System)
      requires IsRun(maxActive, run, events) && run[|events|] == before
      requires Step(maxActive, before, e, State())
      modifies `run, `events
      ensures Valid() && events == old(events) + [e]
    {
      var after := State();
      forall k | 0 <= k < |events| ensures Step(maxActive, run[k], events[k], run[k + 1]) {
      }
      run, events := run + [after], events + [e];
      forall k | 0 <= k < |events| ensures Step(maxActive, run[k], events[k], run[k + 1]) {
        assert k < |events| - 1 ==> old(events)[k] == events[k];
      }
    }

    // --- The runner ---

    /** Choose the first of the sorted listing, if there is one. */
    method PickOldest() returns (found: bool)
      requires Valid() && runner.Idle?
      modifies this
      ensures Valid() && found == (old(queue) != map[])
      ensures !found ==> State() == old(State())
      ensures found ==> runner.Picked? && State() == old(State()).(runner := runner)
      ensures found ==> runner.id in queue && forall x :: x in queue ==> runner.id <= x
    {
      ghost var before := State();
      var listing := queue.Keys;
      found := listing != {};
      if found {
        var first: Id :| first in listing;
        var rest := listing - {first};
        while rest != {}
          invariant first in listing && rest <= listing
          invariant forall x :: x in listing && x !in rest ==> first <= x
          invariant State() == before && Valid()
          decreases |rest|
        {
          var x: Id :| x in rest;
          if x < first {
            first := x;
          }
          rest := rest - {x};
        }
        runner := Picked(first);
        Log(Pick(first), before);
      } else {
        assert queue.Keys == {};
      }
    }

    method ReadTask()
      requires Valid() && runner.Picked?
      modifies this
      ensures Valid() && old(runner).id in queue
      ensures State() == old(State()).(runner := HasRead(old(runner).id, queue[old(runner).id]))
    {
      ghost var before := State();
      RunIsSafe(maxActive, run, events, |events|);
      runner := HasRead(runner.id, queue[runner.id]);
      Log(Read, before);
    }

    /** From here to its first status file the task is in neither directory. */
    method UnlinkQueueFile()
      requires Valid() && runner.HasRead?
      modifies this
      ensures Valid() && old(runner).id !in queue && old(runner).id !in status
      ensures State() == old(State()).(queue := old(queue) - {old(runner).id},
                                       started := old(started) + [old(runner).id],
                                       runner := InHand(old(runner).id, old(runner).task))
    {
      ghost var before := State();
      queue := queue - {runner.id};
      started := started + [runner.id];
      runner := InHand(runner.id, runner.task);
      Log(Unlink, before);
      RunIsSafe(maxActive, run, events, |events|);
    }

    /** write_status: merge the new fields into the task, then replace its status file. */
    method WriteStatus(state: TaskState, notes: Fields)
      requires Valid() && runner.Holds() && OnlyProgress(notes)
      requires state == Done ==> runner.Working?
      modifies this
      ensures Valid()
      ensures var id, task := old(runner).id, old(runner).task + notes;
              State() == old(State()).(status := old(status)[id := Record(state, task)],
                                       runner := if state == Running then Working(id, task) else Idle)
    {
      ghost var before := State();
      ghost var e := if state != Running then WriteFinal(state, notes)
           else if runner.InHand? then WriteRunning(notes) else WriteProgress(notes);
      var id, task := runner.id, runner.task + notes;
      status := status[id := Record(state, task)];
      runner := if state == Running then Working(id, task) else Idle;
      Log(e, before);
    }

    method CrashRunner()
      requires Valid() && !runner.Down?
      modifies this
      ensures Valid()
      ensures State() == old(State()).(runner := Down, crashes := old(crashes) + 1,
                                       crashesHolding := old(crashesHolding) + if old(runner).Holds() then 1 else 0)
    {
      ghost var before := State();
      crashes := crashes + 1;
      crashesHolding := crashesHolding + if runner.Holds() then 1 else 0;
      runner := Down;
      Log(Crash, before);
    }

    method RestartRunner()
      requires Valid() && runner.Down?
      modifies this
      ensures Valid() && State() == old(State()).(runner := Idle)
    {
      ghost var before := State();
      runner := Idle;
      Log(Restart, before);
    }

    /** process(task) and its failure handlers, undisturbed. `steps` are the notes of the status writes
        that say running (none if the work failed before the first), `state` and `notes` the last write. */
    method Process(steps: seq<Fields>, state: TaskState, notes: Fields)
      requires Valid() && runner.InHand? && state != Running && (state == Done ==> steps != [])
      requires OnlyProgress(notes) && forall n :: n in steps ==> OnlyProgress(n)
      modifies this
      ensures Valid() && EndsTask(old(State()), State(), old(runner).id, old(runner).task, state)
    {
      ghost var id, task := runner.id, runner.task;
      for k := 0 to |steps|
        invariant Valid() && runner.Holds() && runner.id == id && (k > 0 ==> runner.Working?)
        invariant SameRequest(runner.task, task)
        invariant State() == old(State()).(status := status, runner := runner)
        invariant status == old(status) || (id in status && status == old(status)[id := status[id]])
      {
        SameAfterNotes(runner.task, task, steps[k]);
        WriteStatus(Running, steps[k]);
      }
      SameAfterNotes(runner.task, task, notes);
      WriteStatus(state, notes);
      assert status == old(status)[id := status[id]];
    }

    /** One turn of the runner's loop, undisturbed: the oldest task leaves the queue and ends
        with a final status that keeps its request. */
    method RunOne(steps: seq<Fields>, state: TaskState, notes: Fields) returns (found: bool, ghost id: Id)
      requires Valid() && runner.Idle? && state != Running && (state == Done ==> steps != [])
      requires OnlyProgress(notes) && forall n :: n in steps ==> OnlyProgress(n)
      modifies this
      ensures Valid() && found == (old(queue) != map[])
      ensures !found ==> State() == old(State())
      ensures found ==> id in old(queue) && forall x :: x in old(queue) ==> id <= x
      ensures found ==>
        EndsTask(old(State()).(queue := old(queue) - {id}, started := old(started) + [id]), State(), id, old(queue)[id], state)
    {
      id := 0;
      found := PickOldest();
      if found {
        id := runner.id;
        ReadTask();
        UnlinkQueueFile();
        Process(steps, state, notes);
      }
    }

    // --- The dispatcher ---

    method ListStatusBegins()
      requires Valid() && dispatcher.Ready?
      modifies this
      ensures Valid() && State() == old(State()).(dispatcher := ScanningStatus(status.Keys))
    {
      ghost var before := State();
      dispatcher := ScanningStatus(status.Keys);
      Log(BeginStart, before);
    }

    /** The listing holds what was there when it began, and any of what came since. */
    method ListStatusEnds()
      requires Valid() && dispatcher.ScanningStatus?
      modifies this
      ensures Valid() && dispatcher.ScanningQueue? && dispatcher.before == queue.Keys
      ensures old(dispatcher).before <= dispatcher.statusIds <= status.Keys
      ensures State() == old(State()).(dispatcher := dispatcher)
    {
      ghost var before := State();
      RunIsSafe(maxActive, run, events, |events|);
      assert dispatcher.before <= status.Keys <= status.Keys;
      var found: set<Id> :| dispatcher.before <= found <= status.Keys;
      dispatcher := ScanningQueue(found, queue.Keys);
      Log(EndStatusScan(found), before);
    }

    /** The listing holds what is still there, and any of what went since it began. */
    method ListQueueEnds() returns (ghost queued: set<Id>)
      requires Valid() && dispatcher.ScanningQueue?
      modifies this
      ensures Valid() && dispatcher.Loading?
      ensures dispatcher == Loading(old(dispatcher).statusIds, dispatcher.todo, {}, false)
      ensures queue.Keys <= queued <= old(dispatcher).before
      ensures IsNewest(dispatcher.todo, old(dispatcher).statusIds + queued, RECENT)
      ensures State() == old(State()).(dispatcher := dispatcher)
    {
      ghost var before := State();
      RunIsSafe(maxActive, run, events, |events|);
      assert queue.Keys <= queue.Keys <= dispatcher.before;
      var listing: set<Id> :| queue.Keys <= listing <= dispatcher.before;
      var newest := Recent(dispatcher.statusIds + listing, RECENT);
      dispatcher := Loading(dispatcher.statusIds, newest, {}, false);
      Log(EndQueueScan(listing, newest), before);
      queued := listing;
    }

    method CheckStatusFile()
      requires Valid() && dispatcher.Loading? && dispatcher.todo != [] && !dispatcher.noStatus
      modifies this
      ensures Valid()
      ensures var d, id := old(dispatcher), old(dispatcher).todo[0];
        State() == old(State()).(dispatcher :=
          if id !in status then d.(noStatus := true)
          else d.(todo := d.todo[1..], active := d.active + if status[id].state == Running then {id} else {}))
    {
      ghost var before := State();
      var d, id := dispatcher, dispatcher.todo[0];
      if id !in status {
        dispatcher := d.(noStatus := true);
      } else if status[id].state == Running {
        dispatcher := d.(todo := d.todo[1..], active := d.active + {id});
      } else {
        dispatcher := d.(todo := d.todo[1..]);
        assert d.active == d.active + {};
      }
      Log(CheckStatus, before);
    }

    method CheckQueueFile()
      requires Valid() && dispatcher.Loading? && dispatcher.todo != [] && dispatcher.noStatus
      modifies this
      ensures Valid()
      ensures var d, id := old(dispatcher), old(dispatcher).todo[0];
        State() == old(State()).(dispatcher :=
          d.(todo := d.todo[1..], active := d.active + (if id in queue then {id} else {}), noStatus := false))
    {
      ghost var before := State();
      var d, id := dispatcher, dispatcher.todo[0];
      if id in queue {
        dispatcher := d.(todo := d.todo[1..], active := d.active + {id}, noStatus := false);
      } else {
        dispatcher := d.(todo := d.todo[1..], noStatus := false);
        assert d.active == d.active + {};
      }
      Log(CheckQueue, before);
    }

    /** load_status, for the next of the listed ids. */
    method LoadNext()
      requires Valid() && dispatcher.Loading? && dispatcher.todo != [] && !dispatcher.noStatus
      modifies this
      ensures Valid() && dispatcher.Loading? && !dispatcher.noStatus
      ensures var d, id := old(dispatcher), old(dispatcher).todo[0];
        State() == old(State()).(dispatcher := d.(todo := d.todo[1..],
          active := d.active + if IsActive(old(queue), old(status), id) then {id} else {}))
    {
      CheckStatusFile();
      if dispatcher.noStatus {
        CheckQueueFile();
      }
    }

    /** load_status, for all of them. */
    method LoadAll()
      requires Valid() && dispatcher.Loading? && !dispatcher.noStatus && dispatcher.active == {}
      modifies this
      ensures Valid()
      ensures var d := old(dispatcher);
        State() == old(State()).(dispatcher := d.(todo := [], active := ActiveAmong(queue, status, d.todo)))
    {
      ghost var newest := dispatcher.todo;
      ghost var n := 0;
      while dispatcher.todo != []
        invariant n <= |newest| && Valid()
        invariant State() == old(State()).(dispatcher := dispatcher)
        invariant dispatcher == Loading(old(dispatcher).statusIds, newest[n..], ActiveAmong(queue, status, newest[..n]), false)
        decreases |dispatcher.todo|
      {
        ActiveAmongNext(queue, status, newest, n);
        LoadNext();
        n := n + 1;
      }
      assert newest[..n] == newest;
    }

    /** recent(20) and the count of what is active in it, undisturbed by the runner. */
    method CountRecent() returns (ghost newest: seq<Id>)
      requires Valid() && dispatcher.Ready?
      modifies this
      ensures Valid() && IsNewest(newest, status.Keys + queue.Keys, RECENT)
      ensures State() == old(State()).(dispatcher :=
        Loading(status.Keys, [], ActiveAmong(queue, status, newest), false))
    {
      ListStatusBegins();
      ListStatusEnds();
      assert dispatcher.statusIds == status.Keys;
      ghost var queued := ListQueueEnds();
      assert queued == queue.Keys;
      newest := dispatcher.todo;
      LoadAll();
    }

    /** The `start` command, undisturbed by the runner. `name` is how the id is written. */
    method Start(allowed: set<string>, repo: string, text: string, requestedBy: string, now: string, id: Id, name: string)
      returns (reply: Reply, ghost newest: seq<Id>)
      requires Valid() && dispatcher.Ready? && id !in tasks
      modifies this
      ensures Valid()
      ensures reply.NotAllowed? <==> repo !in allowed
      ensures reply.BadInstructions? <==> repo in allowed && !(1 <= |Strip(text)| <= 4000)
      ensures reply.TooBusy? || reply.Started? ==> IsNewest(newest, old(status).Keys + old(queue).Keys, 20)
      ensures reply.TooBusy? ==> reply.active == |ActiveAmong(old(queue), old(status), newest)| >= maxActive
      ensures reply.Started? ==> reply.id == id && |ActiveAmong(old(queue), old(status), newest)| < maxActive
      ensures !reply.Started? ==> State() == old(State())
      ensures reply.Started? ==>
        && id in queue && queue[id].Keys == {"id", "repo", "instructions", "requested_by", "queued_at"}
        && queue[id]["id"] == name && queue[id]["repo"] == repo && queue[id]["instructions"] == Strip(text)
        && queue[id]["requested_by"] <= requestedBy
        && |queue[id]["requested_by"]| == (if |requestedBy| < 64 then |requestedBy| else 64)
        && queue[id]["queued_at"] == now
      ensures reply.Started? ==>
        State() == old(State()).(queue := old(queue)[id := queue[id]], accepted := old(accepted) + [id],
                                 tasks := old(tasks)[id := queue[id]])
      ensures reply.Started? ==> events != [] && events[|events| - 1] == Accept(id, queue[id])
      ensures reply.Started? && maxActive <= RECENT && WithinDisorder(RECENT - maxActive, accepted) ==> |queue| <= maxActive
    {
      newest := [];
      if repo !in allowed {
        return NotAllowed, newest;
      }
      var instructions := Strip(text);
      if instructions == "" || |instructions| > MAX_INSTRUCTIONS {
        return BadInstructions, newest;
      }
      newest := CountRecent();
      if |dispatcher.active| >= maxActive {
        reply := TooBusy(|dispatcher.active|);
        DenyRequest();
      } else {
        AcceptRequest(id, RequestFields(name, repo, instructions, requestedBy, now));
        reply := Started(id);
      }
    }

    method DenyRequest()
      requires Valid() && dispatcher.Loading? && dispatcher.todo == [] && |dispatcher.active| >= maxActive
      modifies this
      ensures Valid() && State() == old(State()).(dispatcher := Ready)
    {
      ghost var before := State();
      dispatcher := Ready;
      Log(Refuse, before);
    }

    /** Write the request under a temporary name and rename it into the queue. */
    method AcceptRequest(id: Id, task: Fields)
      requires Valid() && dispatcher.Loading? && dispatcher.todo == [] && |dispatcher.active| < maxActive
      requires id !in tasks && OnlyRequest(task)
      modifies this
      ensures Valid()
      ensures State() == old(State()).(queue := old(queue)[id := task], dispatcher := Ready,
                                       accepted := old(accepted) + [id], tasks := old(tasks)[id := task])
      ensures events == old(events) + [Accept(id, task)]
      ensures maxActive <= RECENT && WithinDisorder(RECENT - maxActive, accepted) ==> |queue| <= maxActive
    {
      ghost var before := State();
      queue := queue[id := task];
      dispatcher := Ready;
      accepted, tasks := accepted + [id], tasks[id := task];
      Log(Accept(id, task), before);
      if maxActive <= RECENT && WithinDisorder(RECENT - maxActive, accepted) {
        AdmissionIsBounded(maxActive, RECENT - maxActive, run, events, |events|);
      }
    }
  }

  /** A task's status file shows its request: the repository, the instructions and whatever else it holds.
      No method changes `tasks` but the one that accepts another. */
  lemma StatusShowsRequest(w: Worker, id: Id)
    requires w.Valid() && id in w.tasks
    ensures id in w.status ==>
              forall key :: key in w.tasks[id] ==> key in w.status[id].fields && w.status[id].fields[key] == w.tasks[id][key]
  {
    RunIsSafe(w.maxActive, w.run, w.events, |w.events|);
    assert OnlyRequest(w.tasks[id]);
  }

  lemma ActiveAmongNext(queue: map<Id, Fields>, status: map<Id, Record>, ids: seq<Id>, n: nat)
    requires n < |ids|
    ensures ActiveAmong(queue, status, ids[..n + 1]) ==
            ActiveAmong(queue, status, ids[..n]) + if IsActive(queue, status, ids[n]) then {ids[n]} else {}
    ensures ids[n..][0] == ids[n] && ids[n..][1..] == ids[n + 1..]
  {
    assert ids[..n + 1] == ids[..n] + [ids[n]];
  }
}
