/** The recovery worker's object: what its thread does from taking the request
    lock to giving it up, and the calls other threads make on it. */
module RecoveryWorkers {
  import opened Sequences
  import opened Supervisor

  function SectionRank(w: Worker): nat {
    if LockFree(w) then 0
    else 3 * |w.queue| + if w.pc.InLoop? then 2 else if w.queue == [] then 1 else 3
  }

  /** The worker's moves up to the next point where the lock is free. */
  function Section(w: Worker): (w': Worker)
    ensures LockFree(w')
    decreases SectionRank(w)
  {
    if LockFree(w) then w else Section(Work(w, false))
  }

  class RecoveryWorker {
    var pc: Pc
    var queue: seq<Request>
    var active: bool
    var activeSeq: bv16
    var deadlineAt: int
    const deadlineMs: nat
    var stopping: bool

    constructor (deadlineMs: nat)
      ensures View() == Initial(deadlineMs).worker
    {
      pc, queue, active, activeSeq, deadlineAt, stopping := Relocking(true), [], false, 0, 0, false;
      this.deadlineMs := deadlineMs;
    }

    ghost function View(): Worker
      reads this
    {
      Worker(pc, queue, active, activeSeq, deadlineAt, deadlineMs, stopping)
    }

    method RequestRecovery(seqId: bv16, now: int)
      requires LockFree(View())
      modifies this`queue
      ensures View() == Enqueue(old(View()), [Recover(seqId, now)])
    {
      queue := queue + [Recover(seqId, now)];
    }

    method NotifyHeartbeatRestored(now: int)
      requires LockFree(View())
      modifies this`queue
      ensures View() == Enqueue(old(View()), [Restored(now)])
    {
      queue := queue + [Restored(now)];
    }

    /** The inner loop and the check after it. */
    method HandleRequests()
      requires pc == InLoop
      modifies this
      ensures pc == Head || LockFree(View())
      ensures Section(View()) == Section(old(View()))
      ensures pc == Head ==> queue == [] && !active
    {
      while queue != []
        invariant pc == InLoop && Section(View()) == Section(old(View()))
        decreases |queue|
      {
        ghost var before := View();
        var req := queue[0];
        queue := queue[1..];
        if req.Recover? {
          active := true;
          activeSeq := req.seqId;
          deadlineAt := req.ts + deadlineMs;
          pc := Sending(req.seqId, req.ts);
          assert View() == Work(before, false);
          return;
        } else if active {
          active := false;
          pc := Closing(Report(Success, activeSeq, req.ts));
          assert View() == Work(before, false);
          return;
        }
        assert View() == Work(before, false);
      }
      ghost var before := View();
      if active {
        active := false;
        pc := Closing(Report(Failure, activeSeq, deadlineAt));
      } else {
        pc := Head;
      }
      assert View() == Work(before, false);
    }

    /** One turn of the thread under the lock, as its two nested loops run it. */
    method HoldLock()
      modifies this
      ensures View() == Section(old(View()))
    {
      if pc == InLoop {
        HandleRequests();
      }
      if pc == Head {
        ghost var before := View();
        if stopping {
          pc := Stopped;
        } else if queue == [] {
          pc := Blocked(active);
        } else {
          pc := InLoop;
        }
        assert View() == Work(before, false);
        if pc == InLoop {
          HandleRequests();
          if pc == Head {
            ghost var again := View();
            pc := if stopping then Stopped else Blocked(active);
            assert View() == Work(again, false);
          }
        }
      }
    }
  }

  /** What the worker does between giving the lock up and asking for it again: the moves, and the
      reports it makes on the way. */
  function Outside(w: Worker, sent: bool): (Worker, seq<Report>)
    decreases if w.pc.Sending? then 2 else if w.pc.Announcing? || w.pc.Closing? then 1 else 0
  {
    if w.pc.Sending? || w.pc.Announcing? || w.pc.Closing? then
      var (w', reports) := Outside(Work(w, sent), sent);
      (w', WorkReports(w) + reports)
    else (w, [])
  }

  lemma OutsideSending(w: Worker, sent: bool)
    requires w.pc.Sending?
    ensures Outside(w, sent) ==
      (w.(pc := Relocking(false)), if sent then [Report(Sent, w.pc.seqId, w.pc.ts)] else [])
  {
    var w1 := Work(w, sent);
    assert w1 == w.(pc := if sent then Announcing(w.pc.seqId, w.pc.ts) else Relocking(false));
    if sent {
      var w2 := Work(w1, sent);
      assert Outside(w2, sent) == (w2, []);
      NothingAdded(WorkReports(w1));
      assert Outside(w1, sent) == (w2, [Report(Sent, w.pc.seqId, w.pc.ts)]);
    } else {
      assert Outside(w1, sent) == (w1, []);
    }
    assert WorkReports(w) + Outside(w1, sent).1 == Outside(w1, sent).1;
  }

  lemma OutsideClosing(w: Worker, sent: bool)
    requires w.pc.Closing?
    ensures Outside(w, sent) == (w.(pc := Relocking(w.pc.report.outcome.Failure?)), [w.pc.report])
  {
    var w1 := Work(w, sent);
    assert Outside(w1, sent) == (w1, []);
    NothingAdded(WorkReports(w));
  }

  // ----- A turn is a run of the step system -----

  function Steps(s: System, sent: bool, n: nat): System
    decreases n
  {
    if n == 0 then s else Steps(Step(s, Worked(sent)), sent, n - 1)
  }

  /** The thread's turn consumes a prefix of the queue and reports nothing. */
  lemma {:induction false} SectionInSteps(s: System)
    ensures exists n: nat ::
      var s' := Steps(s, false, n);
      s'.worker == Section(s.worker) && s'.reported == s.reported && s'.loop == s.loop && Posted(s') == Posted(s)
    decreases SectionRank(s.worker)
  {
    if LockFree(s.worker) {
      assert Steps(s, false, 0).worker == Section(s.worker);
    } else {
      var s1 := Step(s, Worked(false));
      assert s1.reported == s.reported;
      assert Posted(s1) == Posted(s) by {
        if s.worker.pc.InLoop? && s.worker.queue != [] { Taking(s, false); } else { assert s.taken + [] == s.taken; }
      }
      SectionInSteps(s1);
      var n: nat :| var s' := Steps(s1, false, n);
        s'.worker == Section(s1.worker) && s'.reported == s1.reported && s'.loop == s1.loop && Posted(s') == Posted(s1);
      assert Steps(s, false, n + 1) == Steps(s1, false, n);
    }
  }

  /** Sending and reporting without the lock is a run of the step system that posts exactly those
      reports, takes no request and leaves the event loop alone. */
  lemma {:induction false} OutsideInSteps(s: System, sent: bool)
    ensures exists n: nat ::
      Steps(s, sent, n) == s.(worker := Outside(s.worker, sent).0,
                              reports := s.reports + Outside(s.worker, sent).1,
                              reported := s.reported + Outside(s.worker, sent).1)
    decreases if s.worker.pc.Sending? then 2 else if s.worker.pc.Announcing? || s.worker.pc.Closing? then 1 else 0
  {
    var w := s.worker;
    if w.pc.Sending? || w.pc.Announcing? || w.pc.Closing? {
      var s1 := Step(s, Worked(sent));
      var (w', reports) := Outside(s1.worker, sent);
      OutsideInSteps(s1, sent);
      var n: nat :| Steps(s1, sent, n)
        == s1.(worker := w', reports := s1.reports + reports, reported := s1.reported + reports);
      NothingAdded(s.taken);
      Regroup(s.reports, WorkReports(w), reports);
      Regroup(s.reported, WorkReports(w), reports);
      assert Steps(s, sent, n + 1) == Steps(s1, sent, n);
    } else {
      NothingAdded(s.reports);
      NothingAdded(s.reported);
      assert Steps(s, sent, 0) == s;
    }
  }
}
