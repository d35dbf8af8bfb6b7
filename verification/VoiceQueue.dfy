/**
 The voice-worker queue as a state machine. Two processes share a directory of
 queue files and a directory of status files: the dispatcher, which serves one
 `start` request at a time, and the runner, which works one task at a time and
 can crash between any two of its steps. Every file operation is one event, so
 runs interleave the two processes in every order.
 */
module VoiceQueue {

  /** A task id. Ids are compared only by order, so the timestamped names become numbers. */
  type Id = nat

  /** What the dispatcher writes into a task's JSON object. */
  const REQUEST_KEYS: set<string> := {"id", "repo", "instructions", "requested_by", "queued_at"}

  /** What the runner adds. */
  const RUNNER_KEYS: set<string> := {
    "state", "step", "started_at", "base_sha", "summary", "cost_usd", "pr_url", "minutes", "message",
    "files_changed", "pr_number", "branch", "error", "updated_at"
  }

  type Fields = map<string, string>

  datatype TaskState = Running | Done | Failed

  /** One status file. */
  datatype Record = Record(state: TaskState, fields: Fields)

  /** What the runner process is about to do. */
  datatype Runner =
    | Down
    | Idle
    | Picked(id: Id)
    | HasRead(id: Id, task: Fields)
    | InHand(id: Id, task: Fields)   // unlinked, no status file yet
    | Working(id: Id, task: Fields)  // status file says running
  {
    predicate Holds() { InHand? || Working? }
    predicate Chose() { Picked? || HasRead? }
  }

  /** How far the dispatcher is with the request it is serving. */
  datatype Dispatcher =
    | Ready
    | ScanningStatus(before: set<Id>)
    | ScanningQueue(statusIds: set<Id>, before: set<Id>)
    | Loading(statusIds: set<Id>, todo: seq<Id>, active: set<Id>, noStatus: bool)

  /** The two directories, the two processes and, from `accepted` on, history. */
  datatype System = System(
    queue: map<Id, Fields>,
    status: map<Id, Record>,
    runner: Runner,
    dispatcher: Dispatcher,
    accepted: seq<Id>,
    tasks: map<Id, Fields>,
    started: seq<Id>,
    crashes: nat,
    crashesHolding: nat)
  {
    /** Tasks the runner process has taken out of the queue and not finished. */
    function Held(): set<Id> {
      if runner.Holds() then {runner.id} else {}
    }

    function Finished(): set<Id> {
      set id | id in status && status[id].state != Running
    }

    /** Accepted, but in no directory as queued or finished and in nobody's hand. */
    function Abandoned(): set<Id> {
      set id | id in tasks && id !in queue && id !in Held() && id !in Finished()
    }

    /** Accepted tasks that are still going to make progress. */
    function Live(): set<Id> {
      queue.Keys + Held()
    }
  }

  const INITIAL := System(map[], map[], Idle, Ready, [], map[], [], 0, 0)

  const RECENT: nat := 20

  datatype Event =
    | Pick(id: Id)
    | Read
    | Unlink
    | WriteRunning(notes: Fields)
    | WriteProgress(notes: Fields)
    | WriteFinal(state: TaskState, notes: Fields)
    | Crash
    | Restart
    | BeginStart
    | EndStatusScan(found: set<Id>)
    | EndQueueScan(queued: set<Id>, newest: seq<Id>)
    | CheckStatus
    | CheckQueue
    | Refuse
    | Abort
    | Accept(id: Id, task: Fields)
  {
    predicate OfRunner() {
      Pick? || Read? || Unlink? || WriteRunning? || WriteProgress? || WriteFinal? || Crash? || Restart?
    }

    /** Events that write a status file. */
    predicate Writes() {
      WriteRunning? || WriteProgress? || WriteFinal?
    }

    /** Events that change neither directory. */
    predicate Quiet() {
      !Unlink? && !Writes() && !Accept?
    }
  }

  ghost predicate OnlyProgress(notes: Fields) {
    forall k :: k in notes ==> k in RUNNER_KEYS
  }

  ghost predicate OnlyRequest(task: Fields) {
    forall k :: k in task ==> k in REQUEST_KEYS
  }

  function Elements<T>(s: seq<T>): set<T> {
    set x | x in s
  }

  ghost predicate Increasing(s: seq<Id>) {
    forall i, j :: 0 <= i < j < |s| ==> s[i] < s[j]
  }

  /** The ids accepted before the j-th that are newer than it. */
  function Ahead(ids: seq<Id>, j: nat): set<Id>
    requires j < |ids|
  {
    set x | x in ids[..j] && x > ids[j]
  }

  /** No accepted id has more than `d` newer ones accepted before it. */
  ghost predicate WithinDisorder(d: nat, ids: seq<Id>) {
    forall j :: 0 <= j < |ids| ==> |Ahead(ids, j)| <= d
  }

  ghost predicate Decreasing(s: seq<Id>) {
    forall i, j :: 0 <= i < j < |s| ==> s[i] > s[j]
  }

  /** `newest` are the n newest of the ids, or all of them, newest first. */
  ghost predicate IsNewest(newest: seq<Id>, ids: set<Id>, n: nat) {
    && Decreasing(newest)
    && Elements(newest) <= ids
    && |newest| == (if |ids| < n then |ids| else n)
    && forall x, y :: x in ids && x !in newest && y in newest ==> x < y
  }

  /** The admission check counts an id whose status says running, or that is queued and has none. */
  predicate IsActive(queue: map<Id, Fields>, status: map<Id, Record>, id: Id) {
    if id in status then status[id].state == Running else id in queue
  }

  function ActiveAmong(queue: map<Id, Fields>, status: map<Id, Record>, ids: seq<Id>): set<Id> {
    set id | id in ids && IsActive(queue, status, id)
  }

  /** Which events can happen, before the dispatcher compares its count with the bound. */
  ghost predicate Enabled(s: System, e: Event) {
    match e
    case Pick(id) => s.runner.Idle? && id in s.queue && forall x :: x in s.queue ==> id <= x
    case Read => s.runner.Picked? && s.runner.id in s.queue
    case Unlink => s.runner.HasRead?
    case WriteRunning(notes) => s.runner.InHand? && OnlyProgress(notes)
    case WriteProgress(notes) => s.runner.Working? && OnlyProgress(notes)
    case WriteFinal(state, notes) =>
      // a task can fail before its first status file; it is done only after one
      (s.runner.Working? || (s.runner.InHand? && state == Failed)) && state != Running && OnlyProgress(notes)
    case Crash => !s.runner.Down?
    case Restart => s.runner.Down?
    case BeginStart => s.dispatcher.Ready?
    // A directory listing holds what was there throughout, and maybe what came or went meanwhile.
    case EndStatusScan(found) =>
      s.dispatcher.ScanningStatus? && s.dispatcher.before <= found <= s.status.Keys
    case EndQueueScan(queued, newest) =>
      && s.dispatcher.ScanningQueue?
      && s.queue.Keys <= queued <= s.dispatcher.before
      && IsNewest(newest, s.dispatcher.statusIds + queued, RECENT)
    case CheckStatus => s.dispatcher.Loading? && s.dispatcher.todo != [] && !s.dispatcher.noStatus
    case CheckQueue => s.dispatcher.Loading? && s.dispatcher.todo != [] && s.dispatcher.noStatus
    case Refuse => s.dispatcher.Loading? && s.dispatcher.todo == []
    case Abort => !s.dispatcher.Ready?
    case Accept(id, task) =>
      s.dispatcher.Loading? && s.dispatcher.todo == [] && id !in s.tasks && OnlyRequest(task)
  }

  /** What an event does. */
  function Apply(s: System, e: Event): System
    requires Enabled(s, e)
  {
    match e
    case Pick(id) => s.(runner := Picked(id))
    case Read => s.(runner := HasRead(s.runner.id, s.queue[s.runner.id]))
    case Unlink =>
      s.(queue := s.queue - {s.runner.id},
         runner := InHand(s.runner.id, s.runner.task),
         started := s.started + [s.runner.id])
    case WriteRunning(notes) =>
      var task := s.runner.task + notes;
      s.(status := s.status[s.runner.id := Record(Running, task)], runner := Working(s.runner.id, task))
    case WriteProgress(notes) =>
      var task := s.runner.task + notes;
      s.(status := s.status[s.runner.id := Record(Running, task)], runner := Working(s.runner.id, task))
    case WriteFinal(state, notes) =>
      s.(status := s.status[s.runner.id := Record(state, s.runner.task + notes)], runner := Idle)
    case Crash =>
      s.(runner := Down,
         crashes := s.crashes + 1,
         crashesHolding := s.crashesHolding + if s.runner.Holds() then 1 else 0)
    case Restart => s.(runner := Idle)
    case BeginStart => s.(dispatcher := ScanningStatus(s.status.Keys))
    case EndStatusScan(found) => s.(dispatcher := ScanningQueue(found, s.queue.Keys))
    case EndQueueScan(queued, newest) => s.(dispatcher := Loading(s.dispatcher.statusIds, newest, {}, false))
    case CheckStatus =>
      var d, id := s.dispatcher, s.dispatcher.todo[0];
      if id !in s.status then s.(dispatcher := d.(noStatus := true))
      else if s.status[id].state == Running then
        s.(dispatcher := d.(todo := d.todo[1..], active := d.active + {id}))
      else s.(dispatcher := d.(todo := d.todo[1..]))
    case CheckQueue =>
      var d, id := s.dispatcher, s.dispatcher.todo[0];
      if id in s.queue then
        s.(dispatcher := d.(todo := d.todo[1..], active := d.active + {id}, noStatus := false))
      else s.(dispatcher := d.(todo := d.todo[1..], noStatus := false))
    case Refuse => s.(dispatcher := Ready)
    case Abort => s.(dispatcher := Ready)
    case Accept(id, task) =>
      s.(queue := s.queue[id := task], dispatcher := Ready,
         accepted := s.accepted + [id], tasks := s.tasks[id := task])
  }

  /** One event, with `maxActive` the configured bound on queued and running tasks. */
  ghost predicate Step(maxActive: nat, s: System, e: Event, t: System) {
    && Enabled(s, e)
    && (e.Refuse? ==> |s.dispatcher.active| >= maxActive)
    && (e.Accept? ==> |s.dispatcher.active| < maxActive)
    && t == Apply(s, e)
  }

  /** A run: the systems passed through, and the events between them. */
  ghost predicate IsRun(maxActive: nat, run: seq<System>, events: seq<Event>) {
    IsRunFrom(maxActive, INITIAL, run, events)
  }

  ghost predicate IsRunFrom(maxActive: nat, start: System, run: seq<System>, events: seq<Event>) {
    && |run| == |events| + 1
    && run[0] == start
    && forall i {:trigger events[i]} :: 0 <= i < |events| ==> Step(maxActive, run[i], events[i], run[i + 1])
  }
}
