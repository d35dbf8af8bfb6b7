/** What every event of the queue keeps, and what follows for whole runs. */
module VoiceQueueSafety {
  import opened Sets
  import opened VoiceQueue

  ghost predicate SameRequest(a: Fields, b: Fields) {
    forall k :: k in REQUEST_KEYS ==> (k in a <==> k in b) && (k in a ==> a[k] == b[k])
  }

  /** Where ids can be. */
  ghost predicate Placed(s: System) {
    && Elements(s.accepted) == s.tasks.Keys
    && s.queue.Keys <= s.tasks.Keys
    && Elements(s.started) == s.tasks.Keys - s.queue.Keys
    && s.status.Keys <= Elements(s.started)
    && (s.runner.Chose() ==> s.runner.id in s.queue)
    && (s.runner.Holds() ==> s.started != [] && s.runner.id == s.started[|s.started| - 1])
    && (s.runner.InHand? ==> s.runner.id !in s.status)
    && (s.runner.Working? ==> s.runner.id in s.status && s.status[s.runner.id].state == Running)
  }

  /** What the files say. */
  ghost predicate Faithful(s: System) {
    && (forall id :: id in s.tasks ==> OnlyRequest(s.tasks[id]))
    && (forall id :: id in s.queue ==> id in s.tasks && s.queue[id] == s.tasks[id])
    && (forall id :: id in s.status ==> id in s.tasks && SameRequest(s.status[id].fields, s.tasks[id]))
    && (s.runner.HasRead? || s.runner.Holds() ==>
          s.runner.id in s.tasks && SameRequest(s.runner.task, s.tasks[s.runner.id]))
  }

  lemma PlacedStep(maxActive: nat, s: System, e: Event, t: System)
    requires Placed(s) && Step(maxActive, s, e, t)
    ensures Placed(t)
  {
    if e.Accept? {
      PlacedAccept(s, e.id, e.task);
    } else if e.Unlink? {
      PlacedUnlink(s);
    } else if e.Writes() {
      PlacedWrite(s, e);
    } else {
      PlacedQuiet(s, e);
    }
  }

  /** What a quiet event leaves alone. */
  ghost predicate SameFiles(s: System, t: System) {
    && t.accepted == s.accepted && t.tasks == s.tasks && t.started == s.started
    && t.queue == s.queue && t.status == s.status
    && (t.runner.Chose() ==>
          t.runner.id in s.queue && (s.runner.Idle? || (s.runner.Chose() && t.runner.id == s.runner.id)))
    && (t.runner.HasRead? ==> t.runner == s.runner || t.runner.task == s.queue[t.runner.id])
    && (t.runner.Holds() ==> t.runner == s.runner)
  }

  lemma QuietKeepsFiles(s: System, e: Event)
    requires e.Quiet() && Enabled(s, e)
    requires s.runner.Chose() ==> s.runner.id in s.queue
    ensures SameFiles(s, Apply(s, e))
  {
  }

  lemma PlacedQuiet(s: System, e: Event)
    requires Placed(s) && e.Quiet() && Enabled(s, e)
    ensures Placed(Apply(s, e))
  {
    QuietKeepsFiles(s, e);
    PlacedFrame(s, Apply(s, e));
  }

  lemma PlacedFrame(s: System, t: System)
    requires Placed(s) && SameFiles(s, t)
    ensures Placed(t)
  {
  }

  lemma PlacedAccept(s: System, id: Id, task: Fields)
    requires Placed(s) && Enabled(s, Accept(id, task))
    ensures Placed(Apply(s, Accept(id, task)))
  {
    var t := Apply(s, Accept(id, task));
    assert id !in Elements(s.accepted);
    assert Elements(t.accepted) == Elements(s.accepted) + {id};
  }

  lemma PlacedUnlink(s: System)
    requires Placed(s) && Enabled(s, Unlink)
    ensures Placed(Apply(s, Unlink))
  {
    assert Elements(s.started + [s.runner.id]) == Elements(s.started) + {s.runner.id};
  }

  lemma PlacedWrite(s: System, e: Event)
    requires Placed(s) && Enabled(s, e) && e.Writes()
    ensures Placed(Apply(s, e))
  {
    assert s.runner.id in Elements(s.started);
  }

  lemma FaithfulStep(maxActive: nat, s: System, e: Event, t: System)
    requires Placed(s) && Faithful(s) && Step(maxActive, s, e, t)
    ensures Faithful(t)
  {
    if e.Accept? {
      FaithfulAccept(s, e.id, e.task);
    } else if e.Unlink? {
      FaithfulUnlink(s);
    } else if e.Writes() {
      FaithfulWrite(s, e, e.notes);
    } else {
      FaithfulQuiet(s, e);
    }
  }

  lemma FaithfulUnlink(s: System)
    requires Placed(s) && Faithful(s) && Enabled(s, Unlink)
    ensures Faithful(Apply(s, Unlink))
  {
  }

  lemma FaithfulQuiet(s: System, e: Event)
    requires Placed(s) && Faithful(s) && e.Quiet() && Enabled(s, e)
    ensures Faithful(Apply(s, e))
  {
    QuietKeepsFiles(s, e);
    FaithfulFrame(s, Apply(s, e));
  }

  lemma FaithfulFrame(s: System, t: System)
    requires Placed(s) && Faithful(s) && SameFiles(s, t)
    ensures Faithful(t)
  {
  }

  lemma FaithfulAccept(s: System, id: Id, task: Fields)
    requires Placed(s) && Faithful(s) && Enabled(s, Accept(id, task))
    ensures Faithful(Apply(s, Accept(id, task)))
  {
    assert id !in s.queue && id !in s.status;
  }

  lemma FaithfulWrite(s: System, e: Event, notes: Fields)
    requires Placed(s) && Faithful(s) && Enabled(s, e)
    requires e.Writes() && e.notes == notes
    ensures Faithful(Apply(s, e))
  {
    SameAfterNotes(s.runner.task, s.tasks[s.runner.id], notes);
  }

  /** The runner writes over nothing the dispatcher wrote: no key of the one is a key of the other. */
  lemma KeysAreApart()
    ensures REQUEST_KEYS !! RUNNER_KEYS
  {
    KeyIsApart("id");
    KeyIsApart("repo");
    KeyIsApart("instructions");
    KeyIsApart("requested_by");
    KeyIsApart("queued_at");
  }

  lemma KeyIsApart(key: string)
    requires key in REQUEST_KEYS
    ensures key !in RUNNER_KEYS
  {
  }

  lemma SameAfterNotes(task: Fields, request: Fields, notes: Fields)
    requires SameRequest(task, request) && OnlyProgress(notes)
    ensures SameRequest(task + notes, request)
  {
    KeysAreApart();
  }

  // --- Conservation ---

  lemma AbandonedStep(maxActive: nat, s: System, e: Event, t: System)
    requires Placed(s) && Step(maxActive, s, e, t)
    ensures t.Abandoned() == s.Abandoned() + if e.Crash? then s.Held() else {}
  {
    if e.Accept? {
      AbandonedAccept(s, e.id, e.task);
    } else if e.Unlink? {
      AbandonedUnlink(s);
    } else if e.Writes() {
      AbandonedWrite(s, e);
    } else if e.Crash? {
      AbandonedCrash(s);
    } else {
      QuietKeepsFiles(s, e);
      assert t.Held() == s.Held();
    }
  }

  lemma AbandonedAccept(s: System, id: Id, task: Fields)
    requires Placed(s) && Enabled(s, Accept(id, task))
    ensures Apply(s, Accept(id, task)).Abandoned() == s.Abandoned()
  {
  }

  lemma AbandonedUnlink(s: System)
    requires Placed(s) && Enabled(s, Unlink)
    ensures Apply(s, Unlink).Abandoned() == s.Abandoned()
  {
    assert s.runner.id !in Elements(s.started);
  }

  lemma AbandonedWrite(s: System, e: Event)
    requires Placed(s) && Enabled(s, e) && e.Writes()
    ensures Apply(s, e).Abandoned() == s.Abandoned()
  {
  }

  lemma AbandonedCrash(s: System)
    requires Placed(s) && Enabled(s, Crash)
    ensures Apply(s, Crash).Abandoned() == s.Abandoned() + s.Held()
  {
    HeldIsUnfinished(s);
  }

  lemma HeldIsUnfinished(s: System)
    requires Placed(s)
    ensures s.Held() <= s.tasks.Keys - s.queue.Keys - s.Finished()
    ensures s.Held() !! s.Abandoned()
  {
    if s.runner.Holds() {
      assert s.runner.id in Elements(s.started);
    }
  }

  lemma Partition(s: System)
    requires Placed(s)
    ensures s.tasks.Keys == s.queue.Keys + s.Held() + s.Finished() + s.Abandoned()
    ensures s.queue.Keys !! s.Held() && s.queue.Keys !! s.Finished() && s.Held() !! s.Finished()
    ensures s.Abandoned() !! s.queue.Keys + s.Held() + s.Finished()
  {
    HeldIsUnfinished(s);
    forall id | id in s.queue ensures id !in s.Finished() {
      assert id !in Elements(s.started);
    }
    forall id | id in s.Finished() ensures id in s.tasks {
      assert id in Elements(s.started);
    }
  }

  ghost predicate Conserved(s: System) {
    |s.Abandoned()| == s.crashesHolding <= s.crashes
  }

  /** A crash counts as one that held a task exactly if it held one. */
  lemma CrashesCounted(s: System, e: Event)
    requires Enabled(s, e)
    ensures var lost := if e.Crash? then s.Held() else {};
            && Apply(s, e).crashesHolding == s.crashesHolding + |lost|
            && Apply(s, e).crashes - s.crashes >= |lost|
  {
    if e.Crash? {
      assert |s.Held()| == if s.runner.Holds() then 1 else 0;
    }
  }

  lemma ConservedStep(maxActive: nat, s: System, e: Event, t: System)
    requires Placed(s) && Conserved(s) && Step(maxActive, s, e, t)
    ensures Conserved(t)
  {
    var before, lost := s.Abandoned(), if e.Crash? then s.Held() else {};
    HeldIsUnfinished(s);
    AbandonedStep(maxActive, s, e, t);
    CrashesCounted(s, e);
    assert |before + lost| == |before| + |lost|;
  }

  // --- First in, first out ---

  /** While ids grow with acceptance, the tasks started are a prefix of the tasks accepted. */
  ghost predicate InOrder(s: System) {
    Increasing(s.accepted) ==>
      && s.started <= s.accepted
      && (s.runner.Chose() ==> |s.started| < |s.accepted| && s.runner.id == s.accepted[|s.started|])
  }

  lemma QueueIsSuffix(s: System)
    requires Placed(s) && InOrder(s) && Increasing(s.accepted)
    ensures s.started <= s.accepted
    ensures s.queue.Keys == Elements(s.accepted[|s.started|..])
  {
    var n := |s.started|;
    SplitIncreasing(s.accepted, n);
    assert s.started == s.accepted[..n];
    assert s.queue.Keys == Elements(s.accepted) - Elements(s.started);
  }

  lemma SplitIncreasing(ids: seq<Id>, n: nat)
    requires Increasing(ids) && n <= |ids|
    ensures Elements(ids[n..]) == Elements(ids) - Elements(ids[..n])
    ensures forall x, y :: x in Elements(ids[..n]) && y in Elements(ids[n..]) ==> x < y
  {
    forall y | y in ids ensures y in ids[..n] || y in ids[n..] {
      var j :| 0 <= j < |ids| && ids[j] == y;
      if j < n {
        assert ids[..n][j] == y;
      } else {
        assert ids[n..][j - n] == y;
      }
    }
  }

  lemma InOrderStep(maxActive: nat, s: System, e: Event, t: System)
    requires Placed(s) && InOrder(s) && Step(maxActive, s, e, t)
    ensures InOrder(t)
  {
    if e.Accept? {
      InOrderAccept(s, e.id, e.task);
    } else if e.Unlink? {
      InOrderUnlink(s);
    } else if e.Writes() {
      InOrderWrite(s, e);
    } else if e.Pick? {
      if Increasing(s.accepted) {
        PickIsOldest(s, e.id);
      }
    } else {
      QuietKeepsFiles(s, e);
      InOrderFrame(s, e);
    }
  }

  lemma InOrderWrite(s: System, e: Event)
    requires InOrder(s) && e.Writes() && Enabled(s, e)
    ensures InOrder(Apply(s, e))
  {
  }

  lemma InOrderAccept(s: System, id: Id, task: Fields)
    requires InOrder(s) && Enabled(s, Accept(id, task))
    ensures InOrder(Apply(s, Accept(id, task)))
  {
    if Increasing(s.accepted + [id]) {
      assert Increasing(s.accepted) by {
        forall i, j | 0 <= i < j < |s.accepted| ensures s.accepted[i] < s.accepted[j] {
          assert (s.accepted + [id])[i] < (s.accepted + [id])[j];
        }
      }
    }
  }

  lemma InOrderUnlink(s: System)
    requires InOrder(s) && Enabled(s, Unlink)
    ensures InOrder(Apply(s, Unlink))
  {
  }

  lemma InOrderFrame(s: System, e: Event)
    requires InOrder(s) && e.Quiet() && !e.Pick? && Enabled(s, e)
    ensures InOrder(Apply(s, e))
  {
  }

  lemma PickIsOldest(s: System, id: Id)
    requires Placed(s) && InOrder(s) && Increasing(s.accepted) && Enabled(s, Pick(id))
    ensures |s.started| < |s.accepted| && id == s.accepted[|s.started|]
  {
    QueueIsSuffix(s);
    var rest := s.accepted[|s.started|..];
    assert id in Elements(rest);
    var k :| 0 <= k < |rest| && rest[k] == id;
    assert rest[0] in Elements(rest);
    assert rest[0] == s.accepted[|s.started|] && rest[k] == s.accepted[|s.started| + k];
  }

  /** Status files never go away, and only the dispatcher adds queue files: a listing that began
      holds no less of the one, and no less than what is left of the other. */
  ghost predicate Listed(s: System) {
    && (s.dispatcher.ScanningStatus? ==> s.dispatcher.before <= s.status.Keys)
    && (s.dispatcher.ScanningQueue? ==> s.queue.Keys <= s.dispatcher.before)
  }

  lemma ListedStep(maxActive: nat, s: System, e: Event, t: System)
    requires Listed(s) && Step(maxActive, s, e, t)
    ensures Listed(t)
  {
  }

  // --- Who can be started before an older task ---

  ghost predicate AcceptedBefore(ids: seq<Id>, x: Id, y: Id) {
    exists i, j :: 0 <= i < j < |ids| && ids[i] == x && ids[j] == y
  }

  /** A task is picked before an older one only if that one was accepted later. */
  ghost predicate Overtakes(s: System) {
    && IsDistinct(s.accepted)
    && (forall x, y :: x in s.started && y in s.queue && x > y ==> AcceptedBefore(s.accepted, x, y))
    && (s.runner.Chose() ==>
          forall y :: y in s.queue && s.runner.id > y ==> AcceptedBefore(s.accepted, s.runner.id, y))
    && (forall i, j :: 0 <= i < j < |s.started| && s.started[i] > s.started[j] ==>
                         AcceptedBefore(s.accepted, s.started[i], s.started[j]))
  }

  lemma OvertakesStep(maxActive: nat, s: System, e: Event, t: System)
    requires Placed(s) && Overtakes(s) && Step(maxActive, s, e, t)
    ensures Overtakes(t)
  {
    if e.Accept? {
      OvertakesAccept(s, e.id, e.task);
    } else if e.Unlink? {
      OvertakesUnlink(s);
    } else if e.Writes() {
      OvertakesFrame(s, t);
    } else {
      OvertakesQuiet(s, e);
    }
  }

  lemma OvertakesFrame(s: System, t: System)
    requires Overtakes(s) && !t.runner.Chose()
    requires t.accepted == s.accepted && t.started == s.started && t.queue == s.queue
    ensures Overtakes(t)
  {
  }

  lemma OvertakesQuiet(s: System, e: Event)
    requires Overtakes(s) && e.Quiet() && Enabled(s, e)
    requires s.runner.Chose() ==> s.runner.id in s.queue
    ensures Overtakes(Apply(s, e))
  {
    QuietKeepsFiles(s, e);
  }

  lemma OvertakesUnlink(s: System)
    requires Placed(s) && Overtakes(s) && Enabled(s, Unlink)
    ensures Overtakes(Apply(s, Unlink))
  {
    var t := Apply(s, Unlink);
    assert forall x :: x in t.started ==> x in s.started || x == s.runner.id;
    forall i, j | 0 <= i < j < |t.started| && t.started[i] > t.started[j]
      ensures AcceptedBefore(t.accepted, t.started[i], t.started[j])
    {
      assert t.started[i] == s.started[i] && s.started[i] in s.started;
    }
  }

  lemma AcceptedLast(ids: seq<Id>, x: Id, id: Id)
    requires x in ids
    ensures AcceptedBefore(ids + [id], x, id)
  {
    var i :| 0 <= i < |ids| && ids[i] == x;
    assert (ids + [id])[i] == x && (ids + [id])[|ids|] == id;
  }

  lemma AcceptedStill(ids: seq<Id>, x: Id, y: Id, id: Id)
    requires AcceptedBefore(ids, x, y)
    ensures AcceptedBefore(ids + [id], x, y)
  {
    var i, j :| 0 <= i < j < |ids| && ids[i] == x && ids[j] == y;
    assert (ids + [id])[i] == x && (ids + [id])[j] == y;
  }

  lemma OvertakesAccept(s: System, id: Id, task: Fields)
    requires Placed(s) && Overtakes(s) && Enabled(s, Accept(id, task))
    ensures Overtakes(Apply(s, Accept(id, task)))
  {
    var t := Apply(s, Accept(id, task));
    assert forall x :: x in s.accepted ==> x in Elements(s.accepted);
    forall x, y | y in t.queue && x > y && (x in s.started || (s.runner.Chose() && x == s.runner.id))
      ensures AcceptedBefore(t.accepted, x, y)
    {
      assert x in s.started ==> x in Elements(s.started);
      assert x in Elements(s.accepted);
      if y == id {
        AcceptedLast(s.accepted, x, id);
      } else {
        AcceptedStill(s.accepted, x, y, id);
      }
    }
    forall i, j | 0 <= i < j < |t.started| && t.started[i] > t.started[j]
      ensures AcceptedBefore(t.accepted, t.started[i], t.started[j])
    {
      AcceptedStill(s.accepted, s.started[i], s.started[j], id);
    }
  }

  /** So within disorder d, at most d of the ids that may overtake a task do. */
  lemma FewOvertake(d: nat, ids: seq<Id>, xs: set<Id>, y: Id)
    requires WithinDisorder(d, ids) && IsDistinct(ids) && y in ids
    requires forall x :: x in xs ==> x > y && AcceptedBefore(ids, x, y)
    ensures |xs| <= d
  {
    var j :| 0 <= j < |ids| && ids[j] == y;
    forall x | x in xs ensures x in Ahead(ids, j) {
      var i, k :| 0 <= i < k < |ids| && ids[i] == x && ids[k] == y;
      assert k == j && ids[..j][i] == x;
    }
    SubsetSize(xs, Ahead(ids, j));
  }
}
