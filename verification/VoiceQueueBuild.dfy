/** Steps runs are built from: each lemma goes on from a state that a run has reached. */
module VoiceQueueBuild {
  import opened Sets
  import opened Text
  import opened VoiceQueue
  import opened VoiceQueueSafety
  import opened VoiceQueueRuns

  /** Some run leads from one state to the other. */
  ghost predicate Reaches(maxActive: nat, start: System, s: System) {
    exists run: seq<System>, events: seq<Event> :: IsRunFrom(maxActive, start, run, events) && run[|events|] == s
  }

  ghost predicate Reachable(maxActive: nat, s: System) {
    Reaches(maxActive, INITIAL, s)
  }

  lemma ReachesItself(maxActive: nat, s: System)
    ensures Reaches(maxActive, s, s)
  {
    assert IsRunFrom(maxActive, s, [s], []);
  }

  lemma Extend(maxActive: nat, start: System, s: System, e: Event)
    requires Reaches(maxActive, start, s) && Enabled(s, e)
    requires e.Refuse? ==> |s.dispatcher.active| >= maxActive
    requires e.Accept? ==> |s.dispatcher.active| < maxActive
    ensures Reaches(maxActive, start, Apply(s, e))
  {
    var run: seq<System>, events: seq<Event> :| IsRunFrom(maxActive, start, run, events) && run[|events|] == s;
    var run', events' := run + [Apply(s, e)], events + [e];
    forall k | 0 <= k < |events'| ensures Step(maxActive, run'[k], events'[k], run'[k + 1]) {
      if k < |events| {
        assert Step(maxActive, run[k], events[k], run[k + 1]);
      }
    }
    assert IsRunFrom(maxActive, start, run', events') && run'[|events'|] == Apply(s, e);
  }

  /** The first step of a run, and the run from there. */
  lemma RunGoesOn(maxActive: nat, start: System, run: seq<System>, events: seq<Event>)
    requires IsRunFrom(maxActive, start, run, events) && events != []
    ensures Step(maxActive, start, events[0], run[1]) && IsRunFrom(maxActive, run[1], run[1..], events[1..])
  {
    forall k | 0 <= k < |events[1..]| ensures Step(maxActive, run[1..][k], events[1..][k], run[1..][k + 1]) {
      assert Step(maxActive, run[k + 1], events[k + 1], run[k + 2]);
    }
  }

  lemma ReachesOn(maxActive: nat, s: System, t: System, u: System)
    requires Reaches(maxActive, s, t) && Reaches(maxActive, t, u)
    ensures Reaches(maxActive, s, u)
  {
    var run1: seq<System>, events1: seq<Event> :| IsRunFrom(maxActive, s, run1, events1) && run1[|events1|] == t;
    var run2: seq<System>, events2: seq<Event> :| IsRunFrom(maxActive, t, run2, events2) && run2[|events2|] == u;
    var run, events := run1 + run2[1..], events1 + events2;
    forall k | 0 <= k < |events| ensures Step(maxActive, run[k], events[k], run[k + 1]) {
      if k < |events1| {
        assert Step(maxActive, run1[k], events1[k], run1[k + 1]);
      } else {
        assert Step(maxActive, run2[k - |events1|], events2[k - |events1|], run2[k - |events1| + 1]);
      }
    }
    assert IsRunFrom(maxActive, s, run, events) && run[|events|] == u;
  }

  /** What every reachable state keeps. */
  lemma ReachableIsSafe(maxActive: nat, s: System)
    requires Reachable(maxActive, s)
    ensures Placed(s) && Overtakes(s) && InOrder(s) && Conserved(s)
  {
    var run: seq<System>, events: seq<Event> :| IsRunFrom(maxActive, INITIAL, run, events) && run[|events|] == s;
    RunIsSafe(maxActive, run, events, |events|);
  }

  const NONE: Fields := map[]

  // --- A request served without interruption ---

  ghost function ActiveIn(s: System, ids: seq<Id>): set<Id> {
    ActiveAmong(s.queue, s.status, ids)
  }

  ghost function LoadedOne(s: System): System
    requires s.dispatcher.Loading? && s.dispatcher.todo != []
  {
    var d := s.dispatcher;
    s.(dispatcher := Loading(d.statusIds, d.todo[1..], d.active + ActiveIn(s, [d.todo[0]]), false))
  }

  lemma ActiveInOne(s: System, id: Id)
    ensures ActiveIn(s, [id]) == if IsActive(s.queue, s.status, id) then {id} else {}
  {
  }

  lemma LoadFromStatus(s: System)
    requires Enabled(s, CheckStatus) && s.dispatcher.todo[0] in s.status
    ensures Apply(s, CheckStatus) == LoadedOne(s)
  {
    ActiveInOne(s, s.dispatcher.todo[0]);
    assert s.dispatcher.active + {} == s.dispatcher.active;
  }

  lemma LoadFromQueue(s: System)
    requires Enabled(s, CheckStatus) && s.dispatcher.todo[0] !in s.status
    ensures Enabled(Apply(s, CheckStatus), CheckQueue)
    ensures Apply(Apply(s, CheckStatus), CheckQueue) == LoadedOne(s)
  {
    ActiveInOne(s, s.dispatcher.todo[0]);
    assert s.dispatcher.active + {} == s.dispatcher.active;
  }

  lemma LoadOne(maxActive: nat, start: System, s: System) returns (t: System)
    requires Reaches(maxActive, start, s) && s.dispatcher.Loading? && !s.dispatcher.noStatus && s.dispatcher.todo != []
    ensures Reaches(maxActive, start, t) && t == LoadedOne(s)
  {
    t := LoadedOne(s);
    Extend(maxActive, start, s, CheckStatus);
    if s.dispatcher.todo[0] in s.status {
      LoadFromStatus(s);
    } else {
      LoadFromQueue(s);
      Extend(maxActive, start, Apply(s, CheckStatus), CheckQueue);
    }
  }

  /** The dispatcher loads the listed ids one after the other. */
  lemma {:induction false} LoadAll(maxActive: nat, start: System, s: System) returns (t: System)
    requires Reaches(maxActive, start, s) && s.dispatcher.Loading? && !s.dispatcher.noStatus
    ensures Reaches(maxActive, start, t)
    ensures var d := s.dispatcher;
            t == s.(dispatcher := Loading(d.statusIds, [], d.active + ActiveIn(s, d.todo), false))
    decreases |s.dispatcher.todo|
  {
    var d := s.dispatcher;
    if d.todo == [] {
      t := s;
      assert d.active + ActiveIn(s, d.todo) == d.active;
    } else {
      var u := LoadOne(maxActive, start, s);
      t := LoadAll(maxActive, start, u);
      ActiveInCons(s, u, d.todo);
      assert d.active + (ActiveIn(s, [d.todo[0]]) + ActiveIn(s, d.todo[1..])) ==
             (d.active + ActiveIn(s, [d.todo[0]])) + ActiveIn(s, d.todo[1..]);
    }
  }

  lemma ActiveInCons(s: System, t: System, ids: seq<Id>)
    requires ids != [] && t.queue == s.queue && t.status == s.status
    ensures ActiveIn(s, ids) == ActiveIn(s, [ids[0]]) + ActiveIn(s, ids[1..])
    ensures ActiveIn(t, ids[1..]) == ActiveIn(s, ids[1..])
  {
    assert ids == [ids[0]] + ids[1..];
  }

  /** A request is accepted when fewer than maxActive of the newest known ids are active. */
  lemma Admit(maxActive: nat, start: System, s: System, newest: seq<Id>, id: Id) returns (t: System)
    requires Reaches(maxActive, start, s) && s.dispatcher.Ready? && id !in s.tasks
    requires IsNewest(newest, s.status.Keys + s.queue.Keys, RECENT) && |ActiveIn(s, newest)| < maxActive
    ensures Reaches(maxActive, start, t)
    ensures t == s.(queue := s.queue[id := NONE], accepted := s.accepted + [id], tasks := s.tasks[id := NONE])
  {
    Extend(maxActive, start, s, BeginStart);
    var s1 := Apply(s, BeginStart);
    Extend(maxActive, start, s1, EndStatusScan(s.status.Keys));
    var s2 := Apply(s1, EndStatusScan(s.status.Keys));
    Extend(maxActive, start, s2, EndQueueScan(s.queue.Keys, newest));
    var s3 := Apply(s2, EndQueueScan(s.queue.Keys, newest));
    var s4 := LoadAll(maxActive, start, s3);
    assert ActiveIn(s3, newest) == ActiveIn(s, newest);
    assert s4.dispatcher.active == ActiveIn(s, newest);
    Extend(maxActive, start, s4, Accept(id, NONE));
    t := Apply(s4, Accept(id, NONE));
  }

  lemma {:induction false} NewestExists(ids: set<Id>, n: nat) returns (newest: seq<Id>)
    ensures IsNewest(newest, ids, n)
  {
    if ids == {} || n == 0 {
      newest := [];
    } else {
      var top := Largest(ids);
      var rest := NewestExists(ids - {top}, n - 1);
      newest := [top] + rest;
      LargestFirst(ids, n, top, rest);
    }
  }

  lemma DecreasingCons(top: Id, rest: seq<Id>)
    requires Decreasing(rest) && forall y :: y in rest ==> y < top
    ensures Decreasing([top] + rest)
  {
    var s := [top] + rest;
    forall i, j | 0 <= i < j < |s| ensures s[i] > s[j] {
      assert s[j] == rest[j - 1] && rest[j - 1] in rest;
      assert i > 0 ==> s[i] == rest[i - 1];
    }
  }

  lemma LargestFirst(ids: set<Id>, n: nat, top: Id, rest: seq<Id>)
    requires n > 0 && top in ids && forall x :: x in ids ==> x <= top
    requires IsNewest(rest, ids - {top}, n - 1)
    ensures IsNewest([top] + rest, ids, n)
  {
    forall y | y in rest ensures y in ids && y < top {
      assert y in Elements(rest);
    }
    DecreasingCons(top, rest);
    var newest := [top] + rest;
    assert forall y :: y in newest <==> y == top || y in rest;
    assert Elements(newest) <= ids;
    forall x, y | x in ids && x !in newest && y in newest ensures x < y {
      assert x in ids - {top} && x !in rest;
    }
  }

  lemma {:induction false} Largest(ids: set<Id>) returns (top: Id)
    requires ids != {}
    ensures top in ids && forall x :: x in ids ==> x <= top
  {
    var any: Id :| any in ids;
    if ids == {any} {
      top := any;
    } else {
      assert ids == (ids - {any}) + {any};
      var other := Largest(ids - {any});
      top := if other > any then other else any;
    }
  }

  lemma FreshId(ids: set<Id>) returns (id: Id)
    ensures forall x :: x in ids ==> x < id
  {
    if ids == {} {
      id := 0;
    } else {
      var top := Largest(ids);
      id := top + 1;
    }
  }

  lemma AddKey<T>(m: map<Id, T>, id: Id, value: T)
    requires id !in m
    ensures m[id := value].Keys == m.Keys + {id}
    ensures |m[id := value]| == |m| + 1
  {
    assert m[id := value].Keys == m.Keys + {id};
    assert |m[id := value]| == |m[id := value].Keys|;
  }

  // --- A task worked on without interruption ---

  lemma TakeOldest(maxActive: nat, start: System, s: System, id: Id) returns (t: System)
    requires Reaches(maxActive, start, s) && Enabled(s, Pick(id))
    ensures Reaches(maxActive, start, t)
    ensures t == s.(queue := s.queue - {id}, runner := InHand(id, s.queue[id]), started := s.started + [id])
  {
    Extend(maxActive, start, s, Pick(id));
    var s1 := Apply(s, Pick(id));
    Extend(maxActive, start, s1, Read);
    var s2 := Apply(s1, Read);
    Extend(maxActive, start, s2, Unlink);
    t := Apply(s2, Unlink);
  }

  /** The task in hand fails. */
  lemma FailHeld(maxActive: nat, start: System, s: System) returns (t: System)
    requires Reaches(maxActive, start, s) && s.runner.Holds()
    ensures Reaches(maxActive, start, t)
    ensures t == s.(status := s.status[s.runner.id := Record(Failed, s.runner.task)], runner := Idle)
  {
    Extend(maxActive, start, s, WriteFinal(Failed, NONE));
    t := Apply(s, WriteFinal(Failed, NONE));
    assert s.runner.task + NONE == s.runner.task;
  }

  /** The oldest task in the queue is taken out and fails. */
  lemma WorkOldest(maxActive: nat, start: System, s: System, id: Id) returns (t: System)
    requires Reaches(maxActive, start, s) && Enabled(s, Pick(id))
    ensures Reaches(maxActive, start, t)
    ensures t == s.(queue := s.queue - {id}, status := s.status[id := Record(Failed, s.queue[id])],
                    started := s.started + [id])
  {
    var u := TakeOldest(maxActive, start, s, id);
    t := FailHeld(maxActive, start, u);
  }

  ghost predicate AllFailed(s: System) {
    forall x :: x in s.status ==> s.status[x].state == Failed
  }

  /** Nothing is queued or in hand, and every task so far has failed. */
  ghost predicate IsQuiet(s: System) {
    s.runner.Idle? && s.dispatcher.Ready? && s.queue == map[] && AllFailed(s)
  }

  /** While every task with a status has failed, a request is accepted if fewer are queued than the bound. */
  lemma AdmitToQueue(maxActive: nat, start: System, r: System, id: Id) returns (s: System)
    requires Reaches(maxActive, start, r) && r.dispatcher.Ready? && AllFailed(r) && |r.queue| < maxActive
    requires id !in r.tasks
    ensures Reaches(maxActive, start, s)
    ensures s == r.(queue := r.queue[id := NONE], accepted := r.accepted + [id], tasks := r.tasks[id := NONE])
  {
    var newest := NewestExists(r.status.Keys + r.queue.Keys, RECENT);
    SubsetSize(ActiveIn(r, newest), r.queue.Keys);
    s := Admit(maxActive, start, r, newest, id);
  }

  /** One more task accepted, taken out and failed. */
  lemma FailOne(maxActive: nat, start: System, r: System, id: Id) returns (s: System)
    requires maxActive >= 1 && Reaches(maxActive, start, r) && IsQuiet(r) && id !in r.tasks
    ensures Reaches(maxActive, start, s) && IsQuiet(s)
    ensures s.accepted == r.accepted + [id] && s.started == r.started + [id]
    ensures s.status == r.status[id := Record(Failed, NONE)] && s.tasks == r.tasks[id := NONE]
  {
    var t := AdmitToQueue(maxActive, start, r, id);
    s := WorkOldest(maxActive, start, t, id);
    assert s.queue == map[];
  }

  lemma ElementsSnoc(ids: seq<Id>, id: Id)
    ensures Elements(ids + [id]) == Elements(ids) + {id}
  {
    assert forall x :: x in ids + [id] <==> x in ids || x == id;
  }

  /** Some more, one after the other. */
  lemma {:induction false} FailAll(maxActive: nat, start: System, r: System, ids: seq<Id>) returns (s: System)
    requires maxActive >= 1 && Reaches(maxActive, start, r) && IsQuiet(r)
    requires IsDistinct(ids) && forall id :: id in ids ==> id !in r.tasks
    ensures Reaches(maxActive, start, s) && IsQuiet(s)
    ensures s.accepted == r.accepted + ids && s.started == r.started + ids
    ensures s.status.Keys == r.status.Keys + Elements(ids) && s.tasks.Keys == r.tasks.Keys + Elements(ids)
  {
    if ids == [] {
      s := r;
    } else {
      var init, last := ids[..|ids| - 1], ids[|ids| - 1];
      assert ids == init + [last] && last !in init;
      var u := FailAll(maxActive, start, r, init);
      s := FailOne(maxActive, start, u, last);
      ElementsSnoc(init, last);
      Reassociate(r.accepted, init, [last]);
      Reassociate(r.started, init, [last]);
    }
  }
}
