/** In which orders tasks start: exactly for which ids the order of acceptance is kept. */
module VoiceQueueOrder {
  import opened Sets
  import opened VoiceQueue
  import opened VoiceQueueSafety
  import opened VoiceQueueBounds
  import opened VoiceQueueRuns
  import opened VoiceQueueBuild

  /** A newer id accepted right before an older one, and hidden from the admission count, if that would
      see it, by 20 still newer ones accepted before. */
  ghost predicate IsSwap(maxActive: nat, ids: seq<Id>, k: nat) {
    k + 1 < |ids| && ids[k] > ids[k + 1]
    && (maxActive >= 2 || (maxActive == 1 && |Ahead(ids, k)| >= RECENT))
  }

  ghost predicate HasSwap(maxActive: nat, ids: seq<Id>) {
    exists k: nat :: IsSwap(maxActive, ids, k)
  }

  lemma SwapOfPrefix(maxActive: nat, ids: seq<Id>, id: Id)
    requires HasSwap(maxActive, ids)
    ensures HasSwap(maxActive, ids + [id])
  {
    var k: nat :| IsSwap(maxActive, ids, k);
    assert (ids + [id])[..k] == ids[..k];
    assert Ahead(ids + [id], k) == Ahead(ids, k);
    assert IsSwap(maxActive, ids + [id], k);
  }

  /** With a bound of two or more, it is the increasing ids that have none. */
  lemma {:induction false} IncreasingHasNoSwap(maxActive: nat, ids: seq<Id>)
    requires maxActive >= 2 && IsDistinct(ids)
    ensures Increasing(ids) <==> !HasSwap(maxActive, ids)
  {
    if |ids| < 2 {
    } else {
      var init := ids[..|ids| - 1];
      IncreasingHasNoSwap(maxActive, init);
      assert ids == init + [ids[|ids| - 1]];
      if HasSwap(maxActive, init) {
        SwapOfPrefix(maxActive, init, ids[|ids| - 1]);
        NotIncreasing(init, ids);
      } else if ids[|ids| - 2] < ids[|ids| - 1] {
        IncreasingSnoc(init, ids[|ids| - 1]);
      } else {
        assert IsSwap(maxActive, ids, |ids| - 2);
      }
    }
  }

  lemma NotIncreasing(init: seq<Id>, ids: seq<Id>)
    requires init <= ids && !Increasing(init)
    ensures !Increasing(ids)
  {
    var i, j :| 0 <= i < j < |init| && init[i] >= init[j];
    assert ids[i] == init[i] && ids[j] == init[j];
  }

  lemma IncreasingSnoc(ids: seq<Id>, id: Id)
    requires Increasing(ids) && (ids != [] ==> ids[|ids| - 1] < id)
    ensures Increasing(ids + [id])
  {
    forall i, j | 0 <= i < j < |ids + [id]| ensures (ids + [id])[i] < (ids + [id])[j] {
      assert i < |ids| - 1 ==> ids[i] < ids[|ids| - 1];
    }
  }

  // --- Without a swap: a bound of one ---

  /** The id accepted last, with fewer than 20 newer ones accepted before it, is counted while it is queued. */
  ghost predicate CountsLast(s: System) {
    match s.dispatcher
    case Ready => true
    case ScanningStatus(before) => true
    case ScanningQueue(statusIds, before) => statusIds <= s.tasks.Keys && before <= s.tasks.Keys
    case Loading(statusIds, todo, active, noStatus) =>
      var n := |s.accepted|;
      n > 0 && |Ahead(s.accepted, n - 1)| < RECENT && s.accepted[n - 1] in s.queue ==>
        s.accepted[n - 1] in todo || s.accepted[n - 1] in active
  }

  lemma CountsLastStep(maxActive: nat, s: System, e: Event, t: System)
    requires Placed(s) && Listed(s) && CountsLast(s) && Step(maxActive, s, e, t)
    ensures CountsLast(t)
  {
    if e.Accept? || e.BeginStart? || e.Refuse? || e.Abort? {
    } else if e.EndStatusScan? {
      assert forall id :: id in s.status ==> id in Elements(s.started);
    } else if e.EndQueueScan? {
      LastIsListed(s, e.queued, e.newest);
    } else if e.CheckStatus? || e.CheckQueue? {
      LastIsLoaded(s, e);
    } else {
      RunnerKeepsLast(s, e);
    }
  }

  lemma RunnerKeepsLast(s: System, e: Event)
    requires CountsLast(s) && e.OfRunner() && Enabled(s, e)
    ensures CountsLast(Apply(s, e))
  {
    var t := Apply(s, e);
    assert t.dispatcher == s.dispatcher && t.accepted == s.accepted && t.tasks == s.tasks;
    assert t.queue.Keys <= s.queue.Keys;
  }

  lemma LastIsListed(s: System, queued: set<Id>, newest: seq<Id>)
    requires Placed(s) && Listed(s) && CountsLast(s) && Enabled(s, EndQueueScan(queued, newest))
    ensures CountsLast(Apply(s, EndQueueScan(queued, newest)))
  {
    var n := |s.accepted|;
    if n > 0 && |Ahead(s.accepted, n - 1)| < RECENT && s.accepted[n - 1] in s.queue {
      var last, known := s.accepted[n - 1], s.dispatcher.statusIds + queued;
      forall x | x in known && x > last ensures x in Ahead(s.accepted, n - 1) {
        assert x in Elements(s.accepted);
        assert s.accepted == s.accepted[..n - 1] + [last];
      }
      AmongNewest(newest, known, RECENT, last, Ahead(s.accepted, n - 1));
    }
  }

  lemma LastIsLoaded(s: System, e: Event)
    requires Placed(s) && CountsLast(s) && (e.CheckStatus? || e.CheckQueue?) && Enabled(s, e)
    ensures CountsLast(Apply(s, e))
  {
    assert forall id :: id in s.queue ==> id !in Elements(s.started);
    var todo := s.dispatcher.todo;
    assert todo == [todo[0]] + todo[1..];
  }

  /** Started is the front of accepted, and the rest, which is queued, increases. */
  ghost predicate StartsInOrder(s: System) {
    && s.started <= s.accepted && Increasing(s.accepted[|s.started|..])
    && (s.runner.Chose() ==> |s.started| < |s.accepted| && s.runner.id == s.accepted[|s.started|])
  }

  lemma QueueIsRest(s: System)
    requires Placed(s) && IsDistinct(s.accepted) && StartsInOrder(s)
    ensures forall id :: id in s.queue <==> id in s.accepted[|s.started|..]
  {
    RestIsApart(s.accepted, s.started);
    assert forall id :: id in s.queue.Keys <==> id in Elements(s.accepted) && id !in Elements(s.started);
  }

  lemma RestIsApart(ids: seq<Id>, front: seq<Id>)
    requires IsDistinct(ids) && front <= ids
    ensures forall id :: id in ids[|front|..] <==> id in Elements(ids) && id !in Elements(front)
  {
    var rest := ids[|front|..];
    assert ids == front + rest;
    forall id | id in rest ensures id !in front {
      var j :| 0 <= j < |rest| && rest[j] == id;
      assert ids[|front| + j] == id;
    }
  }

  lemma OrderStep(s: System, e: Event, t: System)
    requires Placed(s) && IsDistinct(s.accepted) && CountsLast(s) && StartsInOrder(s) && Step(1, s, e, t)
    requires !HasSwap(1, t.accepted)
    ensures StartsInOrder(t)
  {
    QueueIsRest(s);
    if e.Accept? {
      OrderAccept(s, e.id, e.task);
    } else if e.Pick? {
      OrderPick(s, e.id);
    } else if e.Unlink? {
      OrderUnlink(s);
    } else {
      OrderFrame(s, e);
    }
  }

  lemma OrderFrame(s: System, e: Event)
    requires StartsInOrder(s) && Enabled(s, e) && !e.Accept? && !e.Pick? && !e.Unlink?
    ensures StartsInOrder(Apply(s, e))
  {
    var t := Apply(s, e);
    assert t.accepted == s.accepted && t.started == s.started;
    assert t.runner.Chose() ==> s.runner.Chose() && t.runner.id == s.runner.id;
  }

  lemma OrderPick(s: System, id: Id)
    requires StartsInOrder(s) && Enabled(s, Pick(id))
    requires forall id :: id in s.queue <==> id in s.accepted[|s.started|..]
    ensures StartsInOrder(Apply(s, Pick(id)))
  {
    var rest := s.accepted[|s.started|..];
    var k :| 0 <= k < |rest| && rest[k] == id;
    assert rest[0] in s.queue;
  }

  lemma OrderUnlink(s: System)
    requires StartsInOrder(s) && Enabled(s, Unlink)
    ensures StartsInOrder(Apply(s, Unlink))
  {
    var n := |s.started|;
    assert s.accepted[n + 1..] == s.accepted[n..][1..];
  }

  lemma OrderAccept(s: System, id: Id, task: Fields)
    requires Placed(s) && CountsLast(s) && StartsInOrder(s)
    requires Enabled(s, Accept(id, task)) && |s.dispatcher.active| < 1
    requires forall id :: id in s.queue <==> id in s.accepted[|s.started|..]
    requires !HasSwap(1, s.accepted + [id])
    ensures StartsInOrder(Apply(s, Accept(id, task)))
  {
    var rest := s.accepted[|s.started|..];
    if rest == [] {
      assert Increasing(rest + [id]);
    } else {
      assert rest[|rest| - 1] == s.accepted[|s.accepted| - 1] && rest[|rest| - 1] in rest;
      LastIsOlder(s, id);
      IncreasingSnoc(rest, id);
    }
    AcceptLast(s, id, task);
  }

  lemma AcceptLast(s: System, id: Id, task: Fields)
    requires StartsInOrder(s) && Enabled(s, Accept(id, task)) && Increasing(s.accepted[|s.started|..] + [id])
    ensures StartsInOrder(Apply(s, Accept(id, task)))
  {
    assert (s.accepted + [id])[|s.started|..] == s.accepted[|s.started|..] + [id];
    assert s.started <= s.accepted <= s.accepted + [id];
  }

  lemma LastIsOlder(s: System, id: Id)
    requires Placed(s) && CountsLast(s) && s.dispatcher.Loading? && s.dispatcher.todo == [] && |s.dispatcher.active| < 1
    requires s.accepted != [] && s.accepted[|s.accepted| - 1] in s.queue && id !in s.tasks
    requires !HasSwap(1, s.accepted + [id])
    ensures s.accepted[|s.accepted| - 1] < id
  {
    var last := |s.accepted| - 1;
    assert s.dispatcher.active == {};
    assert s.accepted[last] in s.queue.Keys;
    assert (s.accepted + [id])[..last] == s.accepted[..last];
    assert Ahead(s.accepted + [id], last) == Ahead(s.accepted, last);
    assert !IsSwap(1, s.accepted + [id], last);
  }

  lemma {:induction false} RunStartsInOrder(run: seq<System>, events: seq<Event>, i: nat)
    requires IsRun(1, run, events) && i < |run| && !HasSwap(1, run[i].accepted)
    ensures CountsLast(run[i]) && StartsInOrder(run[i])
  {
    if i == 0 {
    } else {
      var s, e, t := run[i - 1], events[i - 1], run[i];
      assert Step(1, s, e, t);
      RunIsSafe(1, run, events, i - 1);
      if HasSwap(1, s.accepted) && e.Accept? {
        SwapOfPrefix(1, s.accepted, e.id);
      }
      assert !e.Accept? ==> t.accepted == s.accepted;
      RunStartsInOrder(run, events, i - 1);
      CountsLastStep(1, s, e, t);
      OrderStep(s, e, t);
    }
  }

  /** A bound of zero refuses everything. */
  lemma {:induction false} ZeroAcceptsNothing(run: seq<System>, events: seq<Event>, i: nat)
    requires IsRun(0, run, events) && i < |run|
    ensures run[i].accepted == run[i].started == []
  {
    if i == 0 {
    } else {
      ZeroAcceptsNothing(run, events, i - 1);
      RunIsSafe(0, run, events, i - 1);
      assert Step(0, run[i - 1], events[i - 1], run[i]);
    }
  }

  // --- With one ---

  /** A second request is accepted while the first is queued: with a bound of two always, with a bound of one
      if 20 newer tasks that failed hide the first. */
  lemma QueueTwo(maxActive: nat, r: System, x: Id, y: Id) returns (s: System)
    requires maxActive >= 1 && x != y && Reachable(maxActive, r) && IsQuiet(r)
    requires x !in r.tasks && y !in r.tasks && (maxActive >= 2 || |Newer(r.status.Keys, x)| >= RECENT)
    ensures Reachable(maxActive, s)
    ensures s == r.(queue := map[x := NONE, y := NONE], accepted := r.accepted + [x, y],
                    tasks := r.tasks[x := NONE][y := NONE])
  {
    var s1 := AdmitToQueue(maxActive, INITIAL, r, x);
    assert s1.queue == map[x := NONE];
    var newest := NewestExists(s1.status.Keys + s1.queue.Keys, RECENT);
    FewActiveBehind(maxActive, s1, x, newest);
    s := Admit(maxActive, INITIAL, s1, newest, y);
    assert s.queue == map[x := NONE, y := NONE];
    assert r.accepted + [x] + [y] == r.accepted + [x, y];
  }

  lemma FewActiveBehind(maxActive: nat, s: System, x: Id, newest: seq<Id>)
    requires maxActive >= 1 && AllFailed(s) && s.queue.Keys == {x}
    requires IsNewest(newest, s.status.Keys + s.queue.Keys, RECENT)
    requires maxActive >= 2 || |Newer(s.status.Keys, x)| >= RECENT
    ensures |ActiveIn(s, newest)| < maxActive
  {
    var known := s.status.Keys + s.queue.Keys;
    assert ActiveIn(s, newest) <= {x};
    if x in newest {
      NewestHasFewNewer(newest, known, x);
      SubsetSize(Newer(s.status.Keys, x), Newer(known, x));
      SubsetSize(ActiveIn(s, newest), {x});
    } else {
      assert ActiveIn(s, newest) == {};
    }
  }

  /** The two tasks of a swap, queued together, start the wrong way round. */
  lemma StartSwapped(maxActive: nat, r: System, x: Id, y: Id) returns (s: System)
    requires maxActive >= 1 && x > y && Reachable(maxActive, r) && IsQuiet(r)
    requires x !in r.tasks && y !in r.tasks && (maxActive >= 2 || |Newer(r.status.Keys, x)| >= RECENT)
    ensures Reachable(maxActive, s) && IsQuiet(s)
    ensures s.accepted == r.accepted + [x, y] && s.started == r.started + [y, x]
    ensures s.tasks.Keys == r.tasks.Keys + {x, y}
  {
    var s1 := QueueTwo(maxActive, r, x, y);
    var s2 := WorkOldest(maxActive, INITIAL, s1, y);
    assert s2.queue == map[x := NONE];
    s := WorkOldest(maxActive, INITIAL, s2, x);
    assert s.queue == map[];
    assert r.started + [y] + [x] == r.started + [y, x];
  }

  lemma CutAround(ids: seq<Id>, k: nat)
    requires IsDistinct(ids) && k + 1 < |ids|
    ensures ids == ids[..k] + [ids[k], ids[k + 1]] + ids[k + 2..]
    ensures IsDistinct(ids[..k]) && IsDistinct(ids[k + 2..])
    ensures ids[k] !in ids[..k] && ids[k + 1] !in ids[..k]
    ensures forall id :: id in ids[k + 2..] ==> id !in ids[..k] && id != ids[k] && id != ids[k + 1]
  {
    forall id | id in ids[k + 2..] ensures id !in ids[..k] && id != ids[k] && id != ids[k + 1] {
      var j :| 0 <= j < |ids| - k - 2 && ids[k + 2..][j] == id;
      assert ids[k + 2 + j] == id;
    }
  }

  lemma SwappedIsNoPrefix(before: seq<Id>, x: Id, y: Id, rest: seq<Id>)
    requires x != y
    ensures !(before + [y, x] + rest <= before + [x, y] + rest)
  {
    assert (before + [y, x] + rest)[|before|] == y && (before + [x, y] + rest)[|before|] == x;
  }

  lemma AheadIsNewer(ids: seq<Id>, k: nat, known: set<Id>)
    requires k < |ids| && known == Elements(ids[..k])
    ensures Newer(known, ids[k]) == Ahead(ids, k)
  {
  }

  /** Some run accepts ids with a swap, and starts its two tasks the wrong way round. */
  lemma SwapSwapsStarts(maxActive: nat, ids: seq<Id>, k: nat) returns (s: System)
    requires maxActive >= 1 && IsDistinct(ids) && IsSwap(maxActive, ids, k)
    ensures Reachable(maxActive, s) && s.accepted == ids && !(s.started <= s.accepted)
  {
    CutAround(ids, k);
    var before, rest := ids[..k], ids[k + 2..];
    ReachesItself(maxActive, INITIAL);
    var r := FailAll(maxActive, INITIAL, INITIAL, before);
    assert [] + before == before;
    AheadIsNewer(ids, k, r.status.Keys);
    var t := StartSwapped(maxActive, r, ids[k], ids[k + 1]);
    s := FailAll(maxActive, INITIAL, t, rest);
    SwappedIsNoPrefix(before, ids[k], ids[k + 1], rest);
  }

  /** Given some ids, every run that accepts them in this order starts them in this order exactly if they
      have no swap: with a bound of two or more, if they increase; with a bound of one, if fewer than 20
      newer ids were accepted before any that is followed by an older one; a bound of zero accepts none. */
  lemma FirstInFirstOutExactly(maxActive: nat, ids: seq<Id>)
    requires IsDistinct(ids)
    ensures !HasSwap(maxActive, ids) <==>
            forall s :: Reachable(maxActive, s) && s.accepted == ids ==> s.started <= s.accepted
    ensures maxActive >= 2 ==> (!HasSwap(maxActive, ids) <==> Increasing(ids))
  {
    if maxActive >= 2 {
      IncreasingHasNoSwap(maxActive, ids);
    }
    if HasSwap(maxActive, ids) {
      var k: nat :| IsSwap(maxActive, ids, k);
      var s := SwapSwapsStarts(maxActive, ids, k);
    } else {
      forall s | Reachable(maxActive, s) && s.accepted == ids ensures s.started <= s.accepted {
        ReachableIsSafe(maxActive, s);
        if maxActive <= 1 {
          var run: seq<System>, events: seq<Event> :| IsRunFrom(maxActive, INITIAL, run, events) && run[|events|] == s;
          if maxActive == 1 {
            RunStartsInOrder(run, events, |events|);
          } else {
            ZeroAcceptsNothing(run, events, |events|);
          }
        }
      }
    }
  }
}
