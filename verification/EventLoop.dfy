/** The event loop as the program runs it: one object updated in place, and its
    correspondence with the step system. */
module EventLoops {
  import opened Sequences
  import opened Crc
  import opened Wire
  import opened Framing
  import opened Health
  import opened Supervisor
  import opened RecoveryWorkers

  function Handled(l: Loop, frames: seq<ParsedFrame>): Loop
    decreases |frames|
  {
    if frames == [] then l else OnFrame(Handled(l, frames[..|frames| - 1]), frames[|frames| - 1])
  }

  function HandledPosts(l: Loop, frames: seq<ParsedFrame>): seq<Request>
    decreases |frames|
  {
    if frames == [] then []
    else
      var front := frames[..|frames| - 1];
      HandledPosts(l, front) + FramePosts(Handled(l, front), frames[|frames| - 1])
  }

  function Drained(l: Loop, reports: seq<Report>): Loop
    decreases |reports|
  {
    if reports == [] then l else OnReport(Drained(l, reports[..|reports| - 1]), reports[|reports| - 1])
  }

  class EventLoop {
    const fsm: HealthStateMachine
    const recovery: RecoveryWorker
    var txSeq: bv16
    var seen: set<(byte, bv16)>
    var replies: seq<Reply>
    var reports: seq<Report>

    constructor (fsm: HealthStateMachine, recovery: RecoveryWorker)
      ensures this.fsm == fsm && this.recovery == recovery
      ensures View() == Loop(fsm.state, 0, {}, []) && reports == []
    {
      this.fsm, this.recovery := fsm, recovery;
      txSeq, seen, replies, reports := 0, {}, [], [];
    }

    ghost function View(): Loop
      reads this, fsm
    {
      Loop(fsm.state, txSeq, seen, replies)
    }

    method IsDuplicate(kind: byte, sequenceId: bv16) returns (duplicate: bool)
      modifies this`seen
      ensures duplicate <==> (kind, sequenceId) in old(seen)
      ensures seen == old(seen) + {(kind, sequenceId)}
    {
      duplicate := (kind, sequenceId) in seen;
      seen := seen + {(kind, sequenceId)};
    }

    method ProcessHeartbeat(f: ParsedFrame)
      requires LockFree(recovery.View())
      modifies this, fsm, recovery
      ensures View() == OnHeartbeat(old(View()), f)
      ensures recovery.View() ==
        Enqueue(old(recovery.View()), if old(fsm.state) == Recovering then [Restored(TimeOf(f))] else [])
      ensures reports == old(reports)
    {
      hide NextSeq;
      var before := fsm.state;
      var event := if before == Recovering then HeartbeatRestored else HeartbeatOk;
      var _ := fsm.Apply(event);
      if before == Recovering {
        recovery.NotifyHeartbeatRestored(TimeOf(f));
      } else {
        NothingAdded(recovery.queue);
      }
      replies := replies + [Ack(txSeq, f.header.sequenceId)];
      txSeq := NextSeq(txSeq);
    }

    method ProcessFault(f: ParsedFrame)
      modifies fsm
      ensures fsm.state == OnFault(old(fsm.state), Severity(f))
    {
      var severity: byte := 0;
      if |f.payload| >= FAULT_PAYLOAD_SIZE {
        severity := f.payload[1];
      }
      if severity >= 2 {
        var _ := fsm.Apply(CriticalFault);
      } else if fsm.state == Healthy {
        var _ := fsm.Apply(HeartbeatTimeout);
      }
    }

    method ProcessFrame(f: ParsedFrame)
      requires LockFree(recovery.View())
      modifies this, fsm, recovery
      ensures View() == OnFrame(old(View()), f)
      ensures recovery.View() == Enqueue(old(recovery.View()), FramePosts(old(View()), f))
      ensures reports == old(reports)
    {
      hide OnHeartbeat, OnFault, Severity, TimeOf;
      NothingAdded(recovery.queue);
      if f.result != Ok {
        replies := replies + [Nack(txSeq, f.header.sequenceId, NACK_CHECKSUM)];
        txSeq := NextSeq(txSeq);
      } else {
        var duplicate := IsDuplicate(f.header.kind, f.header.sequenceId);
        if !duplicate {
          if f.header.kind == HEARTBEAT {
            ProcessHeartbeat(f);
          } else if f.header.kind == FAULT_EVENT {
            ProcessFault(f);
          }
        } else {
          assert seen == old(seen);
        }
      }
    }

    method ProcessFrames(frames: seq<ParsedFrame>)
      requires LockFree(recovery.View())
      modifies this, fsm, recovery
      ensures View() == Handled(old(View()), frames)
      ensures recovery.View() == Enqueue(old(recovery.View()), HandledPosts(old(View()), frames))
      ensures reports == old(reports)
    {
      hide OnFrame, FramePosts;
      NothingAdded(recovery.queue);
      for i := 0 to |frames|
        invariant View() == Handled(old(View()), frames[..i])
        invariant recovery.View() == Enqueue(old(recovery.View()), HandledPosts(old(View()), frames[..i]))
        invariant reports == old(reports)
      {
        assert frames[..i + 1][..i] == frames[..i];
        ghost var l := View();
        EnqueueMore(old(recovery.View()), HandledPosts(old(View()), frames[..i]), FramePosts(l, frames[i]));
        ProcessFrame(frames[i]);
      }
      assert frames[..|frames|] == frames;
    }

    method OnHeartbeatTimeout(now: int)
      requires LockFree(recovery.View())
      modifies this, fsm, recovery
      ensures View() == OnTimeout(old(View()))
      ensures recovery.View() == Enqueue(old(recovery.View()), TimeoutPosts(old(View()), now))
      ensures reports == old(reports)
    {
      NothingAdded(recovery.queue);
      var before := fsm.state;
      var valid := fsm.Apply(HeartbeatTimeout);
      if valid && before == Healthy {
        recovery.RequestRecovery(txSeq, now);
        txSeq := NextSeq(txSeq);
      }
    }

    method PostRecoveryReport(r: Report)
      modifies this`reports
      ensures reports == old(reports) + [r]
    {
      reports := reports + [r];
    }

    /** The worker's thread without its lock: it sends the command or has an outcome, and reports to
        this loop. */
    method WorkOutside(sent: bool)
      requires recovery.pc.Sending? || recovery.pc.Closing?
      modifies this`reports, recovery`pc
      ensures recovery.View() == Outside(old(recovery.View()), sent).0
      ensures reports == old(reports) + Outside(old(recovery.View()), sent).1
    {
      hide Outside;
      if recovery.pc.Sending? {
        OutsideSending(recovery.View(), sent);
        NothingAdded(reports);
        if sent {
          PostRecoveryReport(Report(Sent, recovery.pc.seqId, recovery.pc.ts));
        }
        recovery.pc := Relocking(false);
      } else {
        OutsideClosing(recovery.View(), sent);
        PostRecoveryReport(recovery.pc.report);
        recovery.pc := Relocking(recovery.pc.report.outcome.Failure?);
      }
    }

    method DrainRecoveryReports()
      modifies this`reports, fsm
      ensures View() == Drained(old(View()), old(reports))
      ensures reports == []
    {
      var local := reports;
      reports := [];
      for i := 0 to |local|
        invariant View() == Drained(old(View()), local[..i])
        invariant reports == []
      {
        assert local[..i + 1][..i] == local[..i];
        match local[i].outcome {
          case Sent => var _ := fsm.Apply(RecoverySent);
          case Success =>
          case Failure => var _ := fsm.Apply(RecoveryFailed);
        }
      }
      assert local[..|local|] == local;
    }
  }

  lemma EnqueueMore(w: Worker, a: seq<Request>, b: seq<Request>)
    ensures Enqueue(Enqueue(w, a), b) == Enqueue(w, a + b)
  {
    Regroup(w.queue, a, b);
  }

  // ----- The object's calls are runs of the step system -----

  lemma {:induction false} RunSnoc(s: System, actions: seq<Action>, a: Action)
    ensures Run(s, actions + [a]) == Step(Run(s, actions), a)
    decreases |actions|
  {
    hide Step;
    if actions == [] {
      assert [a][1..] == [];
    } else {
      assert (actions + [a])[1..] == actions[1..] + [a];
      RunSnoc(Step(s, actions[0]), actions[1..], a);
    }
  }

  function Receives(frames: seq<ParsedFrame>): seq<Action>
    decreases |frames|
  {
    if frames == [] then [] else Receives(frames[..|frames| - 1]) + [Receive(frames[|frames| - 1])]
  }

  /** Handling a read's frames is one Receive step each, and touches nothing of the worker but its queue. */
  lemma {:induction false} HandledInSteps(s: System, frames: seq<ParsedFrame>)
    requires s.local == [] && LockFree(s.worker)
    ensures Run(s, Receives(frames)) ==
      s.(loop := Handled(s.loop, frames), worker := Enqueue(s.worker, HandledPosts(s.loop, frames)))
    decreases |frames|
  {
    hide OnFrame, FramePosts;
    if frames == [] {
      assert s.worker.queue + [] == s.worker.queue;
    } else {
      var front, f := frames[..|frames| - 1], frames[|frames| - 1];
      HandledInSteps(s, front);
      RunSnoc(s, Receives(front), Receive(f));
      Regroup(s.worker.queue, HandledPosts(s.loop, front), FramePosts(Handled(s.loop, front), f));
    }
  }

  function Applies(n: nat): seq<Action> {
    if n == 0 then [] else Applies(n - 1) + [ApplyReport]
  }

  lemma {:induction false} AppliedInSteps(s: System, n: nat)
    requires n <= |s.local|
    ensures var s' := Run(s, Applies(n));
      s' == s.(loop := Drained(s.loop, s.local[..n]), local := s.local[n..], entered := s'.entered)
  {
    hide OnReport;
    if n == 0 {
    } else {
      AppliedInSteps(s, n - 1);
      RunSnoc(s, Applies(n - 1), ApplyReport);
      assert s.local[..n][..n - 1] == s.local[..n - 1];
    }
  }

  /** A drain is one Drain step and one ApplyReport step for each report found. */
  lemma DrainedInSteps(s: System)
    requires s.local == []
    ensures var s' := Run(s, [Drain] + Applies(|s.reports|));
      s' == s.(loop := Drained(s.loop, s.reports), reports := [], entered := s'.entered)
  {
    var s1 := Step(s, Drain);
    assert ([Drain] + Applies(|s.reports|))[1..] == Applies(|s.reports|);
    AppliedInSteps(s1, |s.reports|);
    assert s.reports[..|s.reports|] == s.reports;
  }

  // ----- Who is answered -----

  /** The frame is valid and no earlier valid one had its type and sequence id; unlike in the
      mock run, a refused frame does not make a later one a duplicate. */
  predicate Fresh(frames: seq<ParsedFrame>, i: nat)
    requires i < |frames|
  {
    && frames[i].result == Ok
    && forall j :: 0 <= j < i && frames[j].result == Ok ==> KeyOf(frames[j]) != KeyOf(frames[i])
  }

  /** The replies a list of frames calls for, numbered from id on: a NACK for each invalid frame, an
      ACK for each fresh heartbeat, nothing else; and the id after the last. */
  function Expected(frames: seq<ParsedFrame>, id: bv16): (seq<Reply>, bv16)
    decreases |frames|
  {
    if frames == [] then ([], id)
    else
      var n := |frames| - 1;
      var (replies, next) := Expected(frames[..n], id);
      if frames[n].result != Ok then
        (replies + [Nack(next, frames[n].header.sequenceId, 0x01)], NextSeq(next))
      else if Fresh(frames, n) && frames[n].header.kind == 0x01 then
        (replies + [Ack(next, frames[n].header.sequenceId)], NextSeq(next))
      else (replies, next)
  }

  lemma SeenByOne(l: Loop, f: ParsedFrame)
    ensures OnFrame(l, f).seen == if f.result == Ok then l.seen + {KeyOf(f)} else l.seen
  {
    hide NextSeq, Next, Severity;
  }

  lemma {:induction false} SeenSoFar(l: Loop, frames: seq<ParsedFrame>)
    requires l.seen == {}
    ensures forall k :: k in Handled(l, frames).seen <==>
      exists j :: 0 <= j < |frames| && frames[j].result == Ok && KeyOf(frames[j]) == k
    decreases |frames|
  {
    hide OnFrame, KeyOf;
    if frames == [] {
    } else {
      var n := |frames| - 1;
      var front := frames[..n];
      SeenSoFar(l, front);
      SeenByOne(Handled(l, front), frames[n]);
      forall k
        ensures k in Handled(l, frames).seen <==>
          exists j :: 0 <= j < |frames| && frames[j].result == Ok && KeyOf(frames[j]) == k
      {
        if k in Handled(l, front).seen {
          var j :| 0 <= j < n && front[j].result == Ok && KeyOf(front[j]) == k;
          assert frames[j].result == Ok && KeyOf(frames[j]) == k;
        }
        if j :| 0 <= j < |frames| && frames[j].result == Ok && KeyOf(frames[j]) == k {
          assert j < n ==> front[j].result == Ok && KeyOf(front[j]) == k;
        }
      }
    }
  }

  lemma ReplyToOne(l: Loop, f: ParsedFrame)
    ensures var l' := OnFrame(l, f);
      if f.result != Ok then
        l'.replies == l.replies + [Nack(l.txSeq, f.header.sequenceId, NACK_CHECKSUM)] && l'.txSeq == NextSeq(l.txSeq)
      else if KeyOf(f) !in l.seen && f.header.kind == HEARTBEAT then
        l'.replies == l.replies + [Ack(l.txSeq, f.header.sequenceId)] && l'.txSeq == NextSeq(l.txSeq)
      else l'.replies == l.replies && l'.txSeq == l.txSeq
  {
    hide NextSeq, Next, Severity;
  }

  /** Every frame gets exactly the reply it calls for, in order and with consecutive ids. */
  lemma {:induction false} RepliesAreExpected(l: Loop, frames: seq<ParsedFrame>)
    requires l.seen == {}
    ensures Handled(l, frames).replies == l.replies + Expected(frames, l.txSeq).0
    ensures Handled(l, frames).txSeq == Expected(frames, l.txSeq).1
    decreases |frames|
  {
    hide OnFrame, NextSeq, Fresh;
    if frames == [] {
      assert l.replies + [] == l.replies;
    } else {
      var n := |frames| - 1;
      var front := frames[..n];
      RepliesAreExpected(l, front);
      SeenSoFar(l, front);
      FreshIsUnseen(frames, front, Handled(l, front).seen);
      ReplyToOne(Handled(l, front), frames[n]);
    }
  }

  lemma FreshIsUnseen(frames: seq<ParsedFrame>, front: seq<ParsedFrame>, seen: set<(byte, bv16)>)
    requires frames != [] && front == frames[..|frames| - 1]
    requires forall k :: k in seen <==> exists j :: 0 <= j < |front| && front[j].result == Ok && KeyOf(front[j]) == k
    ensures var n := |frames| - 1; Fresh(frames, n) <==> frames[n].result == Ok && KeyOf(frames[n]) !in seen
  {
    hide KeyOf;
    var n := |frames| - 1;
    if KeyOf(frames[n]) in seen {
      var j :| 0 <= j < n && front[j].result == Ok && KeyOf(front[j]) == KeyOf(frames[n]);
      assert frames[j].result == Ok && KeyOf(frames[j]) == KeyOf(frames[n]);
    } else {
      forall j | 0 <= j < n && frames[j].result == Ok
        ensures KeyOf(frames[j]) != KeyOf(frames[n])
      {
        assert front[j] == frames[j];
      }
    }
  }
}
