/** What holds in every run of the voice-worker queue, whatever the interleaving and wherever the runner crashes. */
module VoiceQueueRuns {
  import opened Sets
  import opened VoiceQueue
  import opened VoiceQueueSafety
  import opened VoiceQueueBounds

  lemma {:induction false} RunIsSafe(maxActive: nat, run: seq<System>, events: seq<Event>, i: nat)
    requires IsRun(maxActive, run, events) && i < |run|
    ensures Placed(run[i]) && Faithful(run[i]) && Conserved(run[i]) && InOrder(run[i]) && Listed(run[i])
    ensures Overtakes(run[i])
  {
    if i == 0 {
      assert INITIAL.Abandoned() == {};
    } else {
      RunIsSafe(maxActive, run, events, i - 1);
      var s, e, t := run[i - 1], events[i - 1], run[i];
      assert Step(maxActive, s, e, t);
      PlacedStep(maxActive, s, e, t);
      FaithfulStep(maxActive, s, e, t);
      ConservedStep(maxActive, s, e, t);
      InOrderStep(maxActive, s, e, t);
      ListedStep(maxActive, s, e, t);
      OvertakesStep(maxActive, s, e, t);
    }
  }

  lemma StartIsBounded(maxActive: nat, d: nat)
    ensures Bounded(maxActive, d, INITIAL)
  {
  }

  lemma {:induction false} RunIsBounded(maxActive: nat, d: nat, run: seq<System>, events: seq<Event>, i: nat)
    requires IsRun(maxActive, run, events) && i < |run| && d + maxActive <= RECENT
    ensures Bounded(maxActive, d, run[i])
  {
    if i == 0 {
      StartIsBounded(maxActive, d);
    } else {
      var s, e, t := run[i - 1], events[i - 1], run[i];
      RunIsBounded(maxActive, d, run, events, i - 1);
      RunIsSafe(maxActive, run, events, i - 1);
      assert Step(maxActive, s, e, t);
      BoundedStep(maxActive, d, s, e, t);
    }
  }

  /** Accepted tasks are always exactly those queued, held by the runner, finished or abandoned,
      each in one of these, and each crash that hit the runner holding a task abandons that one. */
  lemma TasksAreConserved(maxActive: nat, run: seq<System>, events: seq<Event>, i: nat)
    requires IsRun(maxActive, run, events) && i < |run|
    ensures var s := run[i];
            && Elements(s.accepted) == s.queue.Keys + s.Held() + s.Finished() + s.Abandoned()
            && s.queue.Keys !! s.Held() && s.queue.Keys !! s.Finished() && s.Held() !! s.Finished()
            && s.Abandoned() !! s.queue.Keys + s.Held() + s.Finished()
            && |s.Abandoned()| == s.crashesHolding <= s.crashes
  {
    RunIsSafe(maxActive, run, events, i);
    Partition(run[i]);
  }

  /** While no id has more than d newer ones accepted before it, and d and the bound are together at
      most 20, the queue stays within the bound and live tasks within one more. */
  lemma AdmissionIsBounded(maxActive: nat, d: nat, run: seq<System>, events: seq<Event>, i: nat)
    requires IsRun(maxActive, run, events) && i < |run|
    requires d + maxActive <= RECENT && WithinDisorder(d, run[i].accepted)
    ensures |run[i].queue| <= maxActive
    ensures |run[i].Live()| <= maxActive + 1
  {
    RunIsBounded(maxActive, d, run, events, i);
    var s := run[i];
    assert |s.Held()| <= 1;
    assert s.Live() == s.queue.Keys + (s.Held() - s.queue.Keys);
    SubsetSize(s.Held() - s.queue.Keys, s.Held());
  }

  /** Accepting a task makes more than maxActive live exactly if the runner holds one that had no status
      file when the dispatcher listed them, and the queue is one short of the bound. */
  lemma LiveExceedsExactly(maxActive: nat, d: nat, run: seq<System>, events: seq<Event>, i: nat)
    requires IsRun(maxActive, run, events) && i < |events| && events[i].Accept?
    requires d + maxActive <= RECENT && WithinDisorder(d, run[i + 1].accepted)
    ensures var s := run[i];
            |run[i + 1].Live()| > maxActive <==>
              s.runner.Holds() && s.runner.id !in s.dispatcher.statusIds && |s.queue| == maxActive - 1
  {
    RunIsSafe(maxActive, run, events, i);
    RunIsBounded(maxActive, d, run, events, i);
    var s, e := run[i], events[i];
    assert Step(maxActive, s, e, run[i + 1]);
    DisorderOfPrefix(d, s.accepted, e.id);
    QueueCounted(maxActive, s);
    SubsetSize(s.queue.Keys, s.dispatcher.active);
    LiveAfterAccept(s, e.id, e.task);
    if !s.runner.Holds() {
      AdmissionIsBounded(maxActive, d, run, events, i + 1);
      assert run[i + 1].Live() == run[i + 1].queue.Keys;
    } else if s.runner.id in s.dispatcher.statusIds {
      AcceptCountsRunning(maxActive, s, e.id, e.task);
    } else {
      HeldIsApart(s, e.id);
    }
  }

  lemma HeldIsApart(s: System, id: Id)
    requires Placed(s) && s.runner.Holds() && id !in s.tasks
    ensures |s.Live() + {id}| == |s.queue| + 2
  {
    assert s.started[|s.started| - 1] in Elements(s.started);
    assert s.runner.id !in s.queue && s.runner.id in s.tasks;
    AddOne(s.queue.Keys, s.queue.Keys, s.runner.id);
    AddOne(s.queue.Keys + {s.runner.id}, s.queue.Keys + {s.runner.id}, id);
    assert s.Live() == s.queue.Keys + {s.runner.id};
  }

  /** Tasks start in the order they were accepted, and what is queued is exactly what has not started. */
  lemma StartsAreFirstInFirstOut(maxActive: nat, run: seq<System>, events: seq<Event>, i: nat)
    requires IsRun(maxActive, run, events) && i < |run| && Increasing(run[i].accepted)
    ensures run[i].started <= run[i].accepted
    ensures run[i].queue.Keys == Elements(run[i].accepted[|run[i].started|..])
  {
    RunIsSafe(maxActive, run, events, i);
    QueueIsSuffix(run[i]);
  }

  /** Every queue and status file keeps the request as it was accepted. */
  lemma FilesKeepRequest(maxActive: nat, run: seq<System>, events: seq<Event>, i: nat, id: Id)
    requires IsRun(maxActive, run, events) && i < |run| && id in run[i].tasks
    ensures id in run[i].queue ==> run[i].queue[id] == run[i].tasks[id]
    ensures id in run[i].status ==> SameRequest(run[i].status[id].fields, run[i].tasks[id])
    ensures forall j :: i <= j < |run| ==> id in run[j].tasks && run[j].tasks[id] == run[i].tasks[id]
  {
    RunIsSafe(maxActive, run, events, i);
    forall j | i <= j < |run| ensures id in run[j].tasks && run[j].tasks[id] == run[i].tasks[id] {
      Persists(maxActive, run, events, i, j, id);
    }
  }

  /** From its acceptance on, every file of a task shows the request: a queue file is just that, and a
      status file has every field of it. */
  lemma AcceptedIsShown(maxActive: nat, run: seq<System>, events: seq<Event>, i: nat, j: nat)
    requires IsRun(maxActive, run, events) && i < j < |run| && events[i].Accept?
    ensures var id, task := events[i].id, events[i].task;
            && (id in run[j].queue ==> run[j].queue[id] == task)
            && (id in run[j].status ==>
                  forall key :: key in task ==> key in run[j].status[id].fields && run[j].status[id].fields[key] == task[key])
  {
    var id, task := events[i].id, events[i].task;
    assert Step(maxActive, run[i], events[i], run[i + 1]);
    FilesKeepRequest(maxActive, run, events, i + 1, id);
    FilesKeepRequest(maxActive, run, events, j, id);
    assert OnlyRequest(task) && run[j].tasks[id] == task;
  }

  // --- What a client sees ---

  datatype View = Queued | Absent | Found(record: Record)
  {
    function Rank(): nat {
      match this
      case Queued => 0
      case Absent => 1
      case Found(record) => if record.state == Running then 2 else 3
    }
  }

  /** A `status` request looks for the status file, and later, if there was none, for the queue file. */
  function Look(s: System, later: System, id: Id): View {
    if id in s.status then Found(s.status[id])
    else if id in later.queue then Queued
    else Absent
  }

  /** What can happen to one task's files. */
  ghost predicate Later(s: System, t: System, id: Id)
    requires id in s.tasks
  {
    && id in t.tasks && t.tasks[id] == s.tasks[id]
    && (id !in s.queue ==> id !in t.queue)
    && (id in s.status ==> id in t.status)
    && (id in s.status && s.status[id].state != Running ==> t.status[id] == s.status[id])
  }

  lemma StepIsLater(maxActive: nat, s: System, e: Event, t: System, id: Id)
    requires Placed(s) && Step(maxActive, s, e, t) && id in s.tasks
    ensures Later(s, t, id)
  {
    if e.Quiet() {
      QuietKeepsFiles(s, e);
    }
  }

  lemma {:induction false} Persists(maxActive: nat, run: seq<System>, events: seq<Event>, i: nat, j: nat, id: Id)
    requires IsRun(maxActive, run, events) && i <= j < |run| && id in run[i].tasks
    ensures Later(run[i], run[j], id)
  {
    if i == j {
    } else {
      Persists(maxActive, run, events, i, j - 1, id);
      RunIsSafe(maxActive, run, events, j - 1);
      assert Step(maxActive, run[j - 1], events[j - 1], run[j]);
      StepIsLater(maxActive, run[j - 1], events[j - 1], run[j], id);
    }
  }

  /** Two looks at an accepted task, one after the other, each reading its two files at two moments:
      the task never moves back, and a finished status never changes. */
  lemma LooksNeverGoBack(maxActive: nat, run: seq<System>, events: seq<Event>,
                                            i: nat, i': nat, j: nat, j': nat, id: Id)
    requires IsRun(maxActive, run, events) && i <= i' <= j <= j' < |run| && id in run[i].tasks
    ensures var first, second := Look(run[i], run[i'], id), Look(run[j], run[j'], id);
            && first.Rank() <= second.Rank()
            && (first.Rank() == 3 ==> second == first)
  {
    Persists(maxActive, run, events, i, i', id);
    Persists(maxActive, run, events, i', j, id);
    Persists(maxActive, run, events, i, j, id);
    Persists(maxActive, run, events, i', j', id);
  }
}
