/** How many tasks can be waiting or in progress when a `start` request is accepted. */
module VoiceQueueBounds {
  import opened Sets
  import opened VoiceQueue
  import opened VoiceQueueSafety

  /** The dispatcher has counted, or will count, everything that is still queued. */
  ghost predicate CountsQueue(maxActive: nat, s: System) {
    && |s.queue| <= maxActive
    && match s.dispatcher
       case Ready => true
       case ScanningStatus(before) => before <= s.status.Keys
       case ScanningQueue(statusIds, before) =>
         statusIds <= s.status.Keys && s.queue.Keys <= before && |before| <= maxActive
       case Loading(statusIds, todo, active, noStatus) =>
         && statusIds <= s.status.Keys
         && (forall id :: id in s.queue ==> id in todo || id in active)
         && (noStatus ==> todo != [] && todo[0] !in statusIds)
  }

  /** The same for the task in progress, if its status file was there when the status directory was
      listed: it is counted, or the queue alone is at the bound. */
  ghost predicate CountsRunning(maxActive: nat, s: System) {
    match s.dispatcher
    case Ready => true
    case ScanningStatus(before) => true
    case ScanningQueue(statusIds, before) =>
      s.runner.Working? && s.runner.id in statusIds ==> s.queue.Keys == before
    case Loading(statusIds, todo, active, noStatus) =>
      s.runner.Working? && s.runner.id in statusIds ==>
        s.runner.id in todo || s.runner.id in active || |s.queue| >= maxActive
  }

  /** Within disorder d, the dispatcher's count covers what it must. */
  ghost predicate Bounded(maxActive: nat, d: nat, s: System) {
    WithinDisorder(d, s.accepted) ==> CountsQueue(maxActive, s) && CountsRunning(maxActive, s)
  }

  lemma {:induction false} DistinctSize(s: seq<Id>)
    requires IsDistinct(s)
    ensures |Elements(s)| == |s|
  {
    if s == [] {
      assert Elements(s) == {};
    } else {
      DistinctSize(s[1..]);
      assert s == [s[0]] + s[1..];
      assert s[0] !in s[1..];
      assert Elements(s) == {s[0]} + Elements(s[1..]);
    }
  }

  /** An id with fewer than n newer ones is among the n newest. */
  lemma AmongNewest(newest: seq<Id>, ids: set<Id>, n: nat, id: Id, newer: set<Id>)
    requires IsNewest(newest, ids, n) && id in ids
    requires |newer| < n
    requires forall x :: x in ids && x > id ==> x in newer
    ensures id in newest
  {
    if id !in newest {
      DistinctSize(newest);
      assert Elements(newest) <= ids - {id};
      SubsetSize(Elements(newest), ids - {id});
      assert Elements(newest) <= newer;
      SubsetSize(Elements(newest), newer);
      assert false;
    }
  }

  lemma BoundedStep(maxActive: nat, d: nat, s: System, e: Event, t: System)
    requires d + maxActive <= RECENT
    requires Placed(s) && Overtakes(s) && Bounded(maxActive, d, s) && Step(maxActive, s, e, t)
    ensures Bounded(maxActive, d, t)
  {
    if WithinDisorder(d, t.accepted) {
      AcceptedGrows(d, s, e);
      if e.Accept? {
        BoundedAccepted(maxActive, s, e.id, e.task);
      } else if e.OfRunner() {
        BoundedRunner(maxActive, s, e);
      } else {
        BoundedDispatcher(maxActive, d, s, e);
      }
    }
  }

  lemma AcceptedGrows(d: nat, s: System, e: Event)
    requires Enabled(s, e) && WithinDisorder(d, Apply(s, e).accepted)
    ensures WithinDisorder(d, s.accepted)
  {
    if e.Accept? {
      DisorderOfPrefix(d, s.accepted, e.id);
    }
  }

  lemma BoundedDispatcher(maxActive: nat, d: nat, s: System, e: Event)
    requires d + maxActive <= RECENT && Placed(s) && Overtakes(s) && WithinDisorder(d, s.accepted)
    requires CountsQueue(maxActive, s) && CountsRunning(maxActive, s) && !e.OfRunner() && !e.Accept? && Enabled(s, e)
    ensures CountsQueue(maxActive, Apply(s, e)) && CountsRunning(maxActive, Apply(s, e))
  {
    if e.EndStatusScan? {
      BoundedStatusScan(maxActive, s, e.found);
    } else if e.EndQueueScan? {
      QueueScanCountsQueue(maxActive, d, s, e.queued, e.newest);
      QueueScanCountsRunning(maxActive, d, s, e.queued, e.newest);
    } else if e.CheckStatus? || e.CheckQueue? {
      BoundedLook(maxActive, s, e);
    } else {
      BoundedTurn(maxActive, s, e);
    }
  }

  lemma BoundedAccepted(maxActive: nat, s: System, id: Id, task: Fields)
    requires Placed(s) && CountsQueue(maxActive, s)
    requires Enabled(s, Accept(id, task)) && |s.dispatcher.active| < maxActive
    ensures CountsQueue(maxActive, Apply(s, Accept(id, task))) && CountsRunning(maxActive, Apply(s, Accept(id, task)))
  {
    QueueCounted(maxActive, s);
    BoundedAccept(maxActive, s, id, task);
  }

  lemma BoundedLook(maxActive: nat, s: System, e: Event)
    requires Placed(s) && CountsQueue(maxActive, s) && CountsRunning(maxActive, s)
    requires (e.CheckStatus? || e.CheckQueue?) && Enabled(s, e)
    ensures CountsQueue(maxActive, Apply(s, e)) && CountsRunning(maxActive, Apply(s, e))
  {
    assert forall id :: id in s.queue ==> id !in Elements(s.started);
    BoundedCheck(maxActive, s, e);
  }

  lemma BoundedTurn(maxActive: nat, s: System, e: Event)
    requires CountsQueue(maxActive, s) && (e.BeginStart? || e.Refuse? || e.Abort?) && Enabled(s, e)
    ensures CountsQueue(maxActive, Apply(s, e)) && CountsRunning(maxActive, Apply(s, e))
  {
  }

  lemma DisorderOfPrefix(d: nat, ids: seq<Id>, id: Id)
    requires WithinDisorder(d, ids + [id])
    ensures WithinDisorder(d, ids)
  {
    forall j | 0 <= j < |ids| ensures |Ahead(ids, j)| <= d {
      assert (ids + [id])[..j] == ids[..j];
      assert Ahead(ids + [id], j) == Ahead(ids, j);
    }
  }

  lemma BoundedRunner(maxActive: nat, s: System, e: Event)
    requires Placed(s) && CountsQueue(maxActive, s) && CountsRunning(maxActive, s) && e.OfRunner() && Enabled(s, e)
    ensures CountsQueue(maxActive, Apply(s, e)) && CountsRunning(maxActive, Apply(s, e))
  {
    var t := Apply(s, e);
    SubsetSize(t.queue.Keys, s.queue.Keys);
    assert t.dispatcher == s.dispatcher && s.status.Keys <= t.status.Keys;
    assert t.runner.Working? ==> t.queue == s.queue;
    assert t.runner.Working? && !s.runner.Working? ==> t.runner.id !in s.status;
  }

  lemma BoundedStatusScan(maxActive: nat, s: System, found: set<Id>)
    requires CountsQueue(maxActive, s) && Enabled(s, EndStatusScan(found))
    ensures CountsQueue(maxActive, Apply(s, EndStatusScan(found)))
    ensures CountsRunning(maxActive, Apply(s, EndStatusScan(found)))
  {
    assert |s.queue.Keys| == |s.queue|;
  }

  /** The listed ids that are newer than a queued one: at most d with a status file, and the others queued. */
  lemma QueueScanCountsQueue(maxActive: nat, d: nat, s: System, queued: set<Id>, newest: seq<Id>)
    requires d + maxActive <= RECENT && Placed(s) && Overtakes(s) && WithinDisorder(d, s.accepted)
    requires CountsQueue(maxActive, s) && Enabled(s, EndQueueScan(queued, newest))
    ensures CountsQueue(maxActive, Apply(s, EndQueueScan(queued, newest)))
  {
    forall id | id in s.queue ensures id in newest {
      QueuedIsListed(maxActive, d, s, queued, newest, id);
    }
  }

  /** The ids of `ids` that are newer. */
  function Newer(ids: set<Id>, id: Id): set<Id> {
    set x | x in ids && x > id
  }

  /** An id among the 20 newest has fewer than 20 newer ones. */
  lemma NewestHasFewNewer(newest: seq<Id>, ids: set<Id>, id: Id)
    requires IsNewest(newest, ids, RECENT) && id in newest
    ensures |Newer(ids, id)| < RECENT
  {
    DistinctSize(newest);
    assert Newer(ids, id) <= Elements(newest) - {id};
    SubsetSize(Newer(ids, id), Elements(newest) - {id});
  }

  lemma FewNewerThanQueued(d: nat, s: System, statusIds: set<Id>, id: Id)
    requires Placed(s) && Overtakes(s) && WithinDisorder(d, s.accepted)
    requires statusIds <= s.status.Keys && id in s.queue
    ensures |Newer(statusIds, id)| <= d
  {
    assert id in Elements(s.accepted);
    forall x | x in Newer(statusIds, id) ensures AcceptedBefore(s.accepted, x, id) {
      assert x in Elements(s.started);
    }
    FewOvertake(d, s.accepted, Newer(statusIds, id), id);
  }

  lemma FewNewerIsListed(newest: seq<Id>, statusIds: set<Id>, queued: set<Id>, id: Id, others: set<Id>)
    requires IsNewest(newest, statusIds + queued, RECENT) && id in statusIds + queued
    requires queued - {id} <= others && |Newer(statusIds, id)| + |others| < RECENT
    ensures id in newest
  {
    UnionSize(Newer(statusIds, id), others);
    AmongNewest(newest, statusIds + queued, RECENT, id, Newer(statusIds, id) + others);
  }

  lemma QueuedIsListed(maxActive: nat, d: nat, s: System, queued: set<Id>, newest: seq<Id>, id: Id)
    requires d + maxActive <= RECENT && Placed(s) && Overtakes(s) && WithinDisorder(d, s.accepted)
    requires CountsQueue(maxActive, s) && Enabled(s, EndQueueScan(queued, newest)) && id in s.queue
    ensures id in newest
  {
    var statusIds, others := s.dispatcher.statusIds, s.dispatcher.before - {id};
    FewNewerThanQueued(d, s, statusIds, id);
    assert |others| < maxActive;
    FewNewerIsListed(newest, statusIds, queued, id, others);
  }

  lemma FewNewerThanRunning(d: nat, s: System, statusIds: set<Id>)
    requires Placed(s) && Overtakes(s) && WithinDisorder(d, s.accepted)
    requires statusIds <= s.status.Keys && s.runner.Holds()
    ensures |Newer(statusIds, s.runner.id)| <= d
  {
    var last := |s.started| - 1;
    assert s.started[last] in Elements(s.started) && s.runner.id in Elements(s.accepted);
    forall x | x in Newer(statusIds, s.runner.id) ensures AcceptedBefore(s.accepted, x, s.runner.id) {
      assert x in Elements(s.started);
      var i :| 0 <= i < |s.started| && s.started[i] == x;
    }
    FewOvertake(d, s.accepted, Newer(statusIds, s.runner.id), s.runner.id);
  }

  lemma QueueScanCountsRunning(maxActive: nat, d: nat, s: System, queued: set<Id>, newest: seq<Id>)
    requires d + maxActive <= RECENT && Placed(s) && Overtakes(s) && WithinDisorder(d, s.accepted)
    requires CountsRunning(maxActive, s) && Enabled(s, EndQueueScan(queued, newest))
    requires s.dispatcher.statusIds <= s.status.Keys
    ensures CountsRunning(maxActive, Apply(s, EndQueueScan(queued, newest)))
  {
    var statusIds := s.dispatcher.statusIds;
    if s.runner.Working? && s.runner.id in statusIds && |s.queue| < maxActive {
      FewNewerThanRunning(d, s, statusIds);
      assert queued == s.queue.Keys && |queued| == |s.queue|;
      FewNewerIsListed(newest, statusIds, queued, s.runner.id, queued);
    }
  }

  lemma BoundedCheck(maxActive: nat, s: System, e: Event)
    requires CountsQueue(maxActive, s) && CountsRunning(maxActive, s)
    requires forall id :: id in s.queue ==> id !in s.status
    requires s.runner.Working? ==> s.runner.id in s.status && s.status[s.runner.id].state == Running
    requires (e.CheckStatus? || e.CheckQueue?) && Enabled(s, e)
    ensures CountsQueue(maxActive, Apply(s, e)) && CountsRunning(maxActive, Apply(s, e))
  {
    var todo := s.dispatcher.todo;
    assert todo == [todo[0]] + todo[1..];
  }

  lemma BoundedAccept(maxActive: nat, s: System, id: Id, task: Fields)
    requires Enabled(s, Accept(id, task)) && |s.dispatcher.active| < maxActive
    requires s.queue.Keys <= s.tasks.Keys && s.queue.Keys <= s.dispatcher.active
    ensures |Apply(s, Accept(id, task)).queue| <= maxActive
  {
    AddOne(s.queue.Keys, s.dispatcher.active, id);
    assert s.queue[id := task].Keys == s.queue.Keys + {id};
  }

  /** Once everything is loaded, the count covers the queue. */
  lemma QueueCounted(maxActive: nat, s: System)
    requires CountsQueue(maxActive, s) && s.dispatcher.Loading? && s.dispatcher.todo == []
    ensures s.queue.Keys <= s.dispatcher.active
  {
  }

  /** Accepting a task while the one in progress had been listed leaves at most maxActive live. */
  lemma AcceptCountsRunning(maxActive: nat, s: System, id: Id, task: Fields)
    requires Placed(s) && CountsQueue(maxActive, s) && CountsRunning(maxActive, s)
    requires Enabled(s, Accept(id, task)) && |s.dispatcher.active| < maxActive
    requires s.runner.Working? && s.runner.id in s.dispatcher.statusIds
    ensures |Apply(s, Accept(id, task)).Live()| <= maxActive
  {
    QueueCounted(maxActive, s);
    SubsetSize(s.queue.Keys, s.dispatcher.active);
    assert s.runner.id in s.dispatcher.active;
    assert s.runner.id in Elements(s.started);
    AddOne(s.queue.Keys + {s.runner.id}, s.dispatcher.active, id);
    LiveAfterAccept(s, id, task);
  }

  lemma LiveAfterAccept(s: System, id: Id, task: Fields)
    requires Enabled(s, Accept(id, task))
    ensures Apply(s, Accept(id, task)).Live() == s.Live() + {id}
  {
  }
}
