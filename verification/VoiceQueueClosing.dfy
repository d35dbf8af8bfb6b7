/** When the queue is closed for good: tasks abandoned by a crash keep counting, and exactly when
    they are enough no later request can be accepted. */
module VoiceQueueClosing {
  import opened Sets
  import opened VoiceQueue
  import opened VoiceQueueSafety
  import opened VoiceQueueBounds
  import opened VoiceQueueBuild

  /** The ids that have a file, or will have one unless the runner crashes. */
  ghost function Known(s: System): set<Id> {
    s.status.Keys + s.queue.Keys + s.Held()
  }

  /** Its status says running, though no runner works on it. */
  ghost predicate IsStuck(s: System, id: Id) {
    id in s.status && s.status[id].state == Running && id !in s.Held()
  }

  /** The stuck tasks among the 20 newest known ones. */
  ghost function StuckRecently(s: System): set<Id> {
    set id | id in s.status && IsStuck(s, id) && |Newer(Known(s), id)| < RECENT
  }

  /** No continuation accepts a request. */
  ghost predicate IsClosed(maxActive: nat, s: System) {
    forall t :: Reaches(maxActive, s, t) ==> t.accepted == s.accepted
  }

  // --- Enough of them close the queue ---

  /** The dispatcher will count every id of `stuck`. */
  ghost predicate WillCount(stuck: set<Id>, known: set<Id>, s: System) {
    match s.dispatcher
    case Ready => true
    case ScanningStatus(before) => stuck <= before
    case ScanningQueue(statusIds, before) => stuck <= statusIds <= known && before <= known
    case Loading(statusIds, todo, active, noStatus) =>
      (forall id :: id in stuck ==> id in todo || id in active) && (noStatus ==> todo != [] && todo[0] !in stuck)
  }

  ghost predicate StaysClosed(stuck: set<Id>, known: set<Id>, s: System) {
    && Known(s) <= known
    && (forall id :: id in stuck ==> IsStuck(s, id) && |Newer(known, id)| < RECENT)
    && WillCount(stuck, known, s)
  }

  lemma ClosedStep(maxActive: nat, stuck: set<Id>, known: set<Id>, s: System, e: Event, t: System)
    requires Placed(s) && StaysClosed(stuck, known, s) && |stuck| >= maxActive && Step(maxActive, s, e, t)
    ensures Placed(t) && StaysClosed(stuck, known, t) && t.accepted == s.accepted
  {
    PlacedStep(maxActive, s, e, t);
    if e.Accept? {
      SubsetSize(stuck, s.dispatcher.active);
    } else {
      StuckStays(stuck, s, e);
      KnownShrinks(s, e);
      WillCountStays(stuck, known, s, e);
    }
  }

  lemma KnownShrinks(s: System, e: Event)
    requires Placed(s) && Enabled(s, e) && !e.Accept?
    ensures Known(Apply(s, e)) <= Known(s) && Apply(s, e).accepted == s.accepted
  {
    if e.Quiet() {
      QuietKeepsFiles(s, e);
    }
  }

  lemma StuckStays(stuck: set<Id>, s: System, e: Event)
    requires Placed(s) && Enabled(s, e) && !e.Accept?
    requires forall id :: id in stuck ==> IsStuck(s, id)
    ensures forall id :: id in stuck ==> IsStuck(Apply(s, e), id)
  {
    assert forall id :: id in s.queue ==> id !in Elements(s.started);
    if e.Quiet() {
      QuietKeepsFiles(s, e);
    }
  }

  lemma WillCountStays(stuck: set<Id>, known: set<Id>, s: System, e: Event)
    requires Placed(s) && StaysClosed(stuck, known, s) && Enabled(s, e) && !e.Accept?
    ensures WillCount(stuck, known, Apply(s, e))
  {
    if e.OfRunner() {
      assert Apply(s, e).dispatcher == s.dispatcher;
    } else if e.EndQueueScan? {
      forall id | id in stuck ensures id in e.newest {
        AmongNewest(e.newest, s.dispatcher.statusIds + e.queued, RECENT, id, Newer(known, id));
      }
    } else if e.CheckStatus? || e.CheckQueue? {
      CheckKeepsCounting(stuck, known, s, e);
    }
  }

  lemma CheckKeepsCounting(stuck: set<Id>, known: set<Id>, s: System, e: Event)
    requires StaysClosed(stuck, known, s) && (e.CheckStatus? || e.CheckQueue?) && Enabled(s, e)
    ensures WillCount(stuck, known, Apply(s, e))
  {
    var todo := s.dispatcher.todo;
    assert todo == [todo[0]] + todo[1..];
  }

  lemma {:induction false} ClosedAlong(maxActive: nat, stuck: set<Id>, known: set<Id>, start: System,
                                       run: seq<System>, events: seq<Event>)
    requires IsRunFrom(maxActive, start, run, events)
    requires Placed(start) && StaysClosed(stuck, known, start) && |stuck| >= maxActive
    ensures run[|events|].accepted == start.accepted
    decreases |events|
  {
    if events == [] {
    } else {
      RunGoesOn(maxActive, start, run, events);
      ClosedStep(maxActive, stuck, known, start, events[0], run[1]);
      ClosedAlong(maxActive, stuck, known, run[1], run[1..], events[1..]);
    }
  }

  lemma StuckTasksClose(maxActive: nat, s: System)
    requires Reachable(maxActive, s) && s.dispatcher.Ready? && |StuckRecently(s)| >= maxActive
    ensures IsClosed(maxActive, s)
  {
    ReachableIsSafe(maxActive, s);
    forall t | Reaches(maxActive, s, t) ensures t.accepted == s.accepted {
      var run: seq<System>, events: seq<Event> :| IsRunFrom(maxActive, s, run, events) && run[|events|] == t;
      ClosedAlong(maxActive, StuckRecently(s), Known(s), s, run, events);
    }
  }

  // --- Fewer do not: the queue drains, and then a request is accepted ---

  /** What draining does to the files: every known task has a status, and only the stuck ones say running. */
  ghost predicate IsDrainedFrom(s: System, t: System) {
    && t.accepted == s.accepted && t.tasks == s.tasks && t.dispatcher == s.dispatcher
    && Known(t) == Known(s)
    && forall id :: id in t.status && t.status[id].state == Running && id !in t.Held() ==> IsStuck(s, id)
  }

  /** The task in hand fails, a chosen one is left, and a crashed runner is back. */
  lemma Settle(maxActive: nat, s: System) returns (t: System)
    requires Placed(s)
    ensures Reaches(maxActive, s, t) && t.runner.Idle? && IsDrainedFrom(s, t) && t.queue == s.queue
    ensures t.queue.Keys !! t.status.Keys
  {
    ReachesItself(maxActive, s);
    assert forall id :: id in s.status ==> id in Elements(s.started);
    if s.runner.Holds() {
      assert s.runner.id in Elements(s.started);
      t := FailHeld(maxActive, s, s);
    } else if s.runner.Idle? {
      t := s;
    } else {
      var u := s;
      if !s.runner.Down? {
        Extend(maxActive, s, s, Crash);
        u := Apply(s, Crash);
      }
      Extend(maxActive, s, u, Restart);
      t := Apply(u, Restart);
    }
  }

  lemma {:induction false} Oldest(ids: set<Id>) returns (id: Id)
    requires ids != {}
    ensures id in ids && forall x :: x in ids ==> id <= x
  {
    var any: Id :| any in ids;
    if ids == {any} {
      id := any;
    } else {
      assert ids == (ids - {any}) + {any};
      var other := Oldest(ids - {any});
      id := if other < any then other else any;
    }
  }

  lemma KnownOneLess(r: System, id: Id, t: System)
    requires r.runner.Idle? && t.runner.Idle? && id in r.queue && r.queue.Keys !! r.status.Keys
    requires t.queue.Keys == r.queue.Keys - {id} && t.status.Keys == r.status.Keys + {id}
    ensures Known(t) == Known(r) && t.queue.Keys !! t.status.Keys
  {
    MovedOver(r.status.Keys, r.queue.Keys, id);
    assert r.Held() == {} && t.Held() == {};
  }

  lemma OneLessQueued(s: System, r: System, id: Id, t: System)
    requires IsDrainedFrom(s, r) && r.runner.Idle? && t.runner.Idle? && id in r.queue
    requires t.status == r.status[id := Record(Failed, r.queue[id])] && Known(t) == Known(r)
    requires t.accepted == r.accepted && t.tasks == r.tasks && t.dispatcher == r.dispatcher
    ensures IsDrainedFrom(s, t)
  {
    forall x | x in t.status && t.status[x].state == Running ensures IsStuck(s, x) {
      assert x in r.status && r.status[x].state == Running && x !in r.Held();
    }
  }

  lemma RemoveKey<T>(m: map<Id, T>, id: Id)
    requires id in m
    ensures (m - {id}).Keys == m.Keys - {id} && |m - {id}| < |m|
  {
    assert (m - {id}).Keys == m.Keys - {id};
    assert |(m - {id}).Keys| == |m.Keys| - 1;
  }

  lemma MovedOver(to: set<Id>, from: set<Id>, id: Id)
    requires id in from && to !! from
    ensures to + {id} + (from - {id}) == to + from && (to + {id}) !! (from - {id})
  {
  }

  lemma OneLess(s: System, r: System, id: Id, t: System)
    requires IsDrainedFrom(s, r) && r.runner.Idle? && id in r.queue && r.queue.Keys !! r.status.Keys
    requires t == r.(queue := r.queue - {id}, status := r.status[id := Record(Failed, r.queue[id])],
                     started := r.started + [id])
    ensures IsDrainedFrom(s, t) && t.queue.Keys !! t.status.Keys && |t.queue| < |r.queue|
  {
    RemoveKey(r.queue, id);
    assert id in r.queue.Keys && id !in r.status.Keys;
    AddKey(r.status, id, Record(Failed, r.queue[id]));
    KnownOneLess(r, id, t);
    OneLessQueued(s, r, id, t);
  }

  lemma DrainOne(maxActive: nat, s: System, r: System) returns (t: System)
    requires Reaches(maxActive, s, r) && r.runner.Idle? && IsDrainedFrom(s, r) && r.queue != map[]
    requires r.queue.Keys !! r.status.Keys
    ensures Reaches(maxActive, s, t) && t.runner.Idle? && IsDrainedFrom(s, t) && |t.queue| < |r.queue|
    ensures t.queue.Keys !! t.status.Keys
  {
    assert r.queue.Keys != {};
    var id := Oldest(r.queue.Keys);
    t := WorkOldest(maxActive, s, r, id);
    OneLess(s, r, id, t);
  }

  lemma {:induction false} Drain(maxActive: nat, s: System, r: System) returns (t: System)
    requires Reaches(maxActive, s, r) && r.runner.Idle? && IsDrainedFrom(s, r)
    requires r.queue.Keys !! r.status.Keys
    ensures Reaches(maxActive, s, t) && t.runner.Idle? && IsDrainedFrom(s, t) && t.queue == map[]
    decreases |r.queue|
  {
    if r.queue == map[] {
      t := r;
    } else {
      var u := DrainOne(maxActive, s, r);
      t := Drain(maxActive, s, u);
    }
  }

  lemma DrainedHasFewActive(s: System, t: System, newest: seq<Id>)
    requires IsDrainedFrom(s, t) && t.runner.Idle? && t.queue == map[]
    requires IsNewest(newest, t.status.Keys + t.queue.Keys, RECENT)
    ensures |ActiveIn(t, newest)| <= |StuckRecently(s)|
  {
    assert t.status.Keys + t.queue.Keys == Known(t);
    forall id | id in ActiveIn(t, newest) ensures id in StuckRecently(s) {
      NewestHasFewNewer(newest, Known(s), id);
    }
    SubsetSize(ActiveIn(t, newest), StuckRecently(s));
  }

  lemma FewerDoNotClose(maxActive: nat, s: System)
    requires Reachable(maxActive, s) && s.dispatcher.Ready? && |StuckRecently(s)| < maxActive
    ensures !IsClosed(maxActive, s)
  {
    ReachableIsSafe(maxActive, s);
    var r := Settle(maxActive, s);
    var t := Drain(maxActive, s, r);
    var newest := NewestExists(t.status.Keys + t.queue.Keys, RECENT);
    DrainedHasFewActive(s, t, newest);
    var id := FreshId(t.tasks.Keys);
    var u := Admit(maxActive, s, t, newest, id);
    assert |u.accepted| == |s.accepted| + 1;
  }

  /** Between requests the queue is closed for good exactly if at least maxActive of the 20 newest known
      tasks are stuck. */
  lemma QueueIsClosedExactly(maxActive: nat, s: System)
    requires Reachable(maxActive, s) && s.dispatcher.Ready?
    ensures IsClosed(maxActive, s) <==> |StuckRecently(s)| >= maxActive
  {
    if |StuckRecently(s)| >= maxActive {
      StuckTasksClose(maxActive, s);
    } else {
      FewerDoNotClose(maxActive, s);
    }
  }

  // --- The queue does close ---

  lemma CrashWhileRunning(maxActive: nat, s: System) returns (t: System)
    requires Reachable(maxActive, s) && s.runner.InHand?
    ensures Reachable(maxActive, t)
    ensures t == s.(status := s.status[s.runner.id := Record(Running, s.runner.task)], runner := Idle,
                    crashes := s.crashes + 1, crashesHolding := s.crashesHolding + 1)
  {
    Extend(maxActive, INITIAL, s, WriteRunning(NONE));
    var s1 := Apply(s, WriteRunning(NONE));
    assert s.runner.task + NONE == s.runner.task;
    Extend(maxActive, INITIAL, s1, Crash);
    var s2 := Apply(s1, Crash);
    Extend(maxActive, INITIAL, s2, Restart);
    t := Apply(s2, Restart);
  }

  /** One more task accepted, taken out, and left behind by a crash. */
  lemma CrashOne(maxActive: nat, r: System, id: Id) returns (s: System)
    requires Reachable(maxActive, r) && r.runner.Idle? && r.dispatcher.Ready? && r.queue == map[]
    requires id !in r.tasks && |r.status| < maxActive
    ensures Reachable(maxActive, s) && s.runner.Idle? && s.dispatcher.Ready? && s.queue == map[]
    ensures s.status == r.status[id := Record(Running, NONE)] && s.tasks == r.tasks[id := NONE]
    ensures s.crashes == r.crashes + 1
  {
    var newest := NewestExists(r.status.Keys + r.queue.Keys, RECENT);
    SubsetSize(ActiveIn(r, newest), r.status.Keys);
    var t := Admit(maxActive, INITIAL, r, newest, id);
    var u := TakeOldest(maxActive, INITIAL, t, id);
    s := CrashWhileRunning(maxActive, u);
    assert u.queue == map[];
  }

  /** A run in which the runner crashed in the middle of `k` tasks. */
  lemma {:induction false} CrashSome(maxActive: nat, k: nat) returns (s: System)
    requires k <= maxActive
    ensures Reachable(maxActive, s) && s.runner.Idle? && s.dispatcher.Ready? && s.queue == map[]
    ensures forall x: Id :: x in s.status <==> x < k
    ensures forall x :: x in s.status ==> s.status[x].state == Running
    ensures s.tasks.Keys == s.status.Keys && |s.status| == k
    ensures s.crashes == k
  {
    if k == 0 {
      ReachesItself(maxActive, INITIAL);
      s := INITIAL;
    } else {
      var r := CrashSome(maxActive, k - 1);
      s := CrashOne(maxActive, r, k - 1);
      AddKey(r.status, k - 1, Record(Running, NONE));
    }
  }

  /** maxActive crashes, one during each of maxActive tasks, are enough. */
  lemma CrashesCanCloseQueue(maxActive: nat)
    requires maxActive <= RECENT
    ensures exists s :: Reachable(maxActive, s) && s.dispatcher.Ready? && s.crashes == maxActive && IsClosed(maxActive, s)
  {
    var s := CrashSome(maxActive, maxActive);
    forall id | id in s.status ensures |Newer(Known(s), id)| < RECENT {
      SubsetSize(Newer(Known(s), id), s.status.Keys - {id});
    }
    assert StuckRecently(s) == s.status.Keys;
    StuckTasksClose(maxActive, s);
  }

  // --- How many crashes it takes ---

  /** A state that is closed in the middle of a request is closed once that request is given up. */
  lemma ClosedBetweenRequests(maxActive: nat, s: System) returns (t: System)
    requires Reachable(maxActive, s) && IsClosed(maxActive, s)
    ensures Reachable(maxActive, t) && IsClosed(maxActive, t) && t.dispatcher.Ready?
    ensures t.crashesHolding == s.crashesHolding
  {
    if s.dispatcher.Ready? {
      t := s;
    } else {
      ReachesItself(maxActive, s);
      Extend(maxActive, s, s, Abort);
      Extend(maxActive, INITIAL, s, Abort);
      t := Apply(s, Abort);
      forall u | Reaches(maxActive, t, u) ensures u.accepted == t.accepted {
        ReachesOn(maxActive, s, t, u);
      }
    }
  }

  lemma StuckAreAbandoned(s: System)
    requires Placed(s)
    ensures StuckRecently(s) <= s.Abandoned()
  {
    forall id | id in StuckRecently(s) ensures id in s.Abandoned() {
      assert id in Elements(s.started);
    }
  }

  /** At most 20 ids have fewer than 20 newer ones. */
  lemma FewAreStuckRecently(s: System)
    ensures |StuckRecently(s)| <= RECENT
  {
    var newest := NewestExists(Known(s), RECENT);
    forall id | id in StuckRecently(s) ensures id in Elements(newest) {
      AmongNewest(newest, Known(s), RECENT, id, Newer(Known(s), id));
    }
    SubsetSize(StuckRecently(s), Elements(newest));
    DistinctSize(newest);
  }

  /** Fewer than maxActive crashes that hit the runner holding a task never close the queue. */
  lemma ClosingNeedsCrashes(maxActive: nat, s: System)
    requires Reachable(maxActive, s) && IsClosed(maxActive, s)
    ensures s.crashesHolding >= maxActive
  {
    var t := ClosedBetweenRequests(maxActive, s);
    QueueIsClosedExactly(maxActive, t);
    ReachableIsSafe(maxActive, t);
    StuckAreAbandoned(t);
    SubsetSize(StuckRecently(t), t.Abandoned());
  }

  /** The queue can close for good exactly if the bound is at most 20. */
  lemma CanCloseExactly(maxActive: nat)
    ensures (exists s :: Reachable(maxActive, s) && IsClosed(maxActive, s)) <==> maxActive <= RECENT
  {
    if maxActive <= RECENT {
      CrashesCanCloseQueue(maxActive);
    }
    forall s | Reachable(maxActive, s) && IsClosed(maxActive, s) ensures maxActive <= RECENT {
      var t := ClosedBetweenRequests(maxActive, s);
      QueueIsClosedExactly(maxActive, t);
      FewAreStuckRecently(t);
    }
  }
}
