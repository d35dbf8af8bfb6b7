/** How far the queue's promises go: the bound on live tasks that is reached, and exactly how much
    disorder of the ids the bound survives. */
module VoiceQueueLimits {
  import opened Sets
  import opened Text
  import opened VoiceQueue
  import opened VoiceQueueBounds
  import opened VoiceQueueRuns
  import opened VoiceQueueBuild

  function Numbers(from: nat, n: nat): (ids: seq<Id>)
    ensures |ids| == n && forall i :: 0 <= i < n ==> ids[i] == from + i
  {
    if n == 0 then [] else Numbers(from, n - 1) + [from + n - 1]
  }

  lemma InNumbers(from: nat, n: nat, x: Id)
    ensures x in Numbers(from, n) <==> from <= x < from + n
  {
    if from <= x < from + n {
      assert Numbers(from, n)[x - from] == x;
    }
  }

  /** Ids that grow with acceptance are those without disorder. */
  lemma IncreasingIsNoDisorder(ids: seq<Id>)
    requires IsDistinct(ids)
    ensures Increasing(ids) <==> WithinDisorder(0, ids)
  {
    if Increasing(ids) {
      forall j | 0 <= j < |ids| ensures |Ahead(ids, j)| <= 0 {
        assert Ahead(ids, j) == {};
      }
    } else {
      var i, j :| 0 <= i < j < |ids| && ids[i] >= ids[j];
      assert ids[..j][i] == ids[i] && ids[i] in Ahead(ids, j);
    }
  }

  // --- The bound on live tasks is reached ---

  lemma {:induction false} FillQueue(maxActive: nat, k: nat) returns (s: System)
    requires k <= maxActive
    ensures Reachable(maxActive, s) && s.runner.Idle? && s.dispatcher.Ready? && s.status == map[]
    ensures s.accepted == Numbers(0, k) && |s.queue| == k
    ensures forall x: Id :: x in s.queue <==> x < k
    ensures s.tasks.Keys == s.queue.Keys
  {
    if k == 0 {
      ReachesItself(maxActive, INITIAL);
      s := INITIAL;
    } else {
      var r := FillQueue(maxActive, k - 1);
      s := AdmitToQueue(maxActive, INITIAL, r, k - 1);
      AddKey(r.queue, k - 1, NONE);
      AddKey(r.tasks, k - 1, NONE);
    }
  }

  /** A full queue with its oldest task taken out. */
  lemma TakeFromFull(maxActive: nat) returns (t: System)
    requires maxActive >= 1
    ensures Reachable(maxActive, t) && t.dispatcher.Ready? && t.status == map[]
    ensures t.accepted == Numbers(0, maxActive)
    ensures t.runner.InHand? && t.runner.id == 0
    ensures 0 !in t.queue && |t.queue| == maxActive - 1
    ensures forall x: Id :: x in t.tasks <==> x < maxActive
    ensures t.queue.Keys <= t.tasks.Keys
  {
    var s := FillQueue(maxActive, maxActive);
    t := TakeOldest(maxActive, INITIAL, s, 0);
    AddOne(t.queue.Keys, t.queue.Keys, 0);
    assert t.queue.Keys + {0} == s.queue.Keys;
  }

  /** The bound on live tasks is exact: some run with increasing ids has maxActive + 1 of them. */
  lemma LiveBoundIsReached(maxActive: nat)
    requires maxActive >= 1
    ensures exists s :: Reachable(maxActive, s) && Increasing(s.accepted) && |s.Live()| == maxActive + 1
  {
    var t := TakeFromFull(maxActive);
    var u := AdmitToQueue(maxActive, INITIAL, t, maxActive);
    AddKey(t.queue, maxActive, NONE);
    assert u.queue.Keys == t.queue.Keys + {maxActive};
    AddOne(u.queue.Keys, u.queue.Keys, 0);
    assert u.Live() == u.queue.Keys + {0};
    assert u.accepted == Numbers(0, maxActive + 1);
  }

  // --- Disorder ---

  /** `f` failed tasks, and only older ones queued. */
  ghost predicate Hides(from: nat, f: nat, s: System) {
    && (forall x: Id :: x in s.status <==> from <= x < from + f) && |s.status| == f
    && AllFailed(s)
    && (forall x: Id :: x in s.queue ==> x < from)
  }

  /** Of the 20 newest, the failed ones are not active. */
  lemma HiddenLeaveFewActive(maxActive: nat, from: nat, f: nat, r: System, newest: seq<Id>)
    requires Hides(from, f, r) && f <= RECENT < f + maxActive
    requires IsNewest(newest, r.status.Keys + r.queue.Keys, RECENT)
    ensures |ActiveIn(r, newest)| < maxActive
  {
    var failed := r.status.Keys;
    forall x | x in failed ensures x in newest {
      AmongNewest(newest, failed + r.queue.Keys, RECENT, x, failed - {x});
    }
    DistinctSize(newest);
    assert ActiveIn(r, newest) <= Elements(newest) - failed;
    SubsetSize(ActiveIn(r, newest), Elements(newest) - failed);
    assert |Elements(newest) - failed| == |Elements(newest)| - |failed|;
  }

  /** A request accepted with an id below those of the failed tasks. */
  lemma AdmitHidden(maxActive: nat, from: nat, f: nat, r: System, id: Id) returns (s: System)
    requires Reachable(maxActive, r) && r.dispatcher.Ready? && id !in r.tasks
    requires Hides(from, f, r) && f <= RECENT < f + maxActive
    ensures Reachable(maxActive, s)
    ensures s == r.(queue := r.queue[id := NONE], accepted := r.accepted + [id], tasks := r.tasks[id := NONE])
  {
    var newest := NewestExists(r.status.Keys + r.queue.Keys, RECENT);
    HiddenLeaveFewActive(maxActive, from, f, r, newest);
    s := Admit(maxActive, INITIAL, r, newest, id);
  }

  lemma FailNumbers(maxActive: nat, from: nat, f: nat) returns (s: System)
    requires maxActive >= 1
    ensures Reachable(maxActive, s) && s.dispatcher.Ready? && s.queue == map[] && Hides(from, f, s)
    ensures s.accepted == Numbers(from, f) && s.tasks.Keys == s.status.Keys
  {
    var ids := Numbers(from, f);
    ReachesItself(maxActive, INITIAL);
    s := FailAll(maxActive, INITIAL, INITIAL, ids);
    assert s.status.Keys == Elements(ids) && [] + ids == ids;
    DistinctSize(Numbers(from, f));
    assert |s.status| == |s.status.Keys|;
    forall x: Id ensures x in s.status <==> from <= x < from + f {
      InNumbers(from, f, x);
    }
  }

  lemma StillHides(from: nat, f: nat, r: System, id: Id, s: System)
    requires Hides(from, f, r) && id < from && s.status == r.status && s.queue == r.queue[id := NONE]
    ensures Hides(from, f, s)
  {
  }

  /** The first k ids queued behind the failed tasks. */
  lemma {:induction false} AcceptBelow(maxActive: nat, from: nat, f: nat, k: nat) returns (s: System)
    requires maxActive >= 1 && k <= from && f <= RECENT < f + maxActive
    ensures Reachable(maxActive, s) && s.dispatcher.Ready? && Hides(from, f, s)
    ensures s.accepted == Numbers(from, f) + Numbers(0, k)
    ensures |s.queue| == k && s.queue.Keys <= s.tasks.Keys
    ensures forall x: Id :: x in s.tasks ==> x < k || from <= x
  {
    if k == 0 {
      s := FailNumbers(maxActive, from, f);
      assert Numbers(from, f) + Numbers(0, 0) == Numbers(from, f);
    } else {
      var r := AcceptBelow(maxActive, from, f, k - 1);
      s := AdmitHidden(maxActive, from, f, r, k - 1);
      StillHides(from, f, r, k - 1, s);
      AddKey(r.queue, k - 1, NONE);
      Reassociate(Numbers(from, f), Numbers(0, k - 1), [k - 1]);
    }
  }

  lemma DisorderOfTwo(d: nat, from: nat, f: nat, k: nat)
    requires f <= d && k <= from
    ensures WithinDisorder(d, Numbers(from, f) + Numbers(0, k))
  {
    var first, ids := Numbers(from, f), Numbers(from, f) + Numbers(0, k);
    DistinctSize(Numbers(from, f));
    forall j | 0 <= j < |ids| ensures |Ahead(ids, j)| <= d {
      forall x | x in Ahead(ids, j) ensures x in Elements(first) {
        var i :| 0 <= i < j && ids[..j][i] == x;
        if i < f {
          assert ids[i] == first[i];
        }
      }
      SubsetSize(Ahead(ids, j), Elements(first));
    }
  }

  /** Beyond that disorder there is no bound at all: behind finished tasks with newer ids, or with a
      bound the count cannot reach, the queue grows to any length. */
  lemma DisorderUnboundsQueue(maxActive: nat, d: nat, n: nat)
    requires maxActive >= 1 && d + maxActive > RECENT
    ensures exists s :: Reachable(maxActive, s) && WithinDisorder(d, s.accepted) && |s.queue| == n
  {
    var f := if maxActive <= RECENT then RECENT + 1 - maxActive else 0;
    var s := AcceptBelow(maxActive, n, f, n);
    DisorderOfTwo(d, n, f, n);
  }

  /** The queue stays within the bound in every run in which no id has more than d newer ones accepted
      before it, exactly if d and the bound are together at most 20; live tasks then stay within one more. */
  lemma BoundSurvivesExactly(maxActive: nat, d: nat)
    requires maxActive >= 1
    ensures d + maxActive <= RECENT <==>
            forall s :: Reachable(maxActive, s) && WithinDisorder(d, s.accepted) ==> |s.queue| <= maxActive
    ensures d + maxActive <= RECENT ==>
            forall s :: Reachable(maxActive, s) && WithinDisorder(d, s.accepted) ==> |s.Live()| <= maxActive + 1
  {
    if d + maxActive <= RECENT {
      forall s | Reachable(maxActive, s) && WithinDisorder(d, s.accepted)
        ensures |s.queue| <= maxActive && |s.Live()| <= maxActive + 1
      {
        var run: seq<System>, events: seq<Event> :|
          IsRunFrom(maxActive, INITIAL, run, events) && run[|events|] == s;
        AdmissionIsBounded(maxActive, d, run, events, |events|);
      }
    } else {
      DisorderUnboundsQueue(maxActive, d, maxActive + 1);
    }
  }
}
