/** The supervisor's table of duplicates never forgets and sequence ids have 16 bits, so heartbeats
    run out: how many are ever acknowledged, and what becomes of the health state after that. */
module HeartbeatIds {
  import opened Wire
  import opened Framing
  import opened Health
  import opened Supervisor
  import Transmit

  const ALL_IDS: nat := 0x1_0000

  // ----- Distinct ids are at most 65,536 -----

  predicate Distinct(ids: seq<bv16>) {
    forall i, j :: 0 <= i < j < |ids| ==> ids[i] != ids[j]
  }

  lemma ValueTells(a: bv16, b: bv16)
    requires IdValue(a) == IdValue(b)
    ensures a == b
  {
    assert (IdValue(a) as bv16) == a && (IdValue(b) as bv16) == b;
  }

  function Range(n: nat): (r: set<nat>)
    ensures |r| == n && forall i :: i in r <==> 0 <= i < n
  {
    if n == 0 then {} else Range(n - 1) + {n - 1}
  }

  function Values(ids: seq<bv16>): (r: set<nat>)
    ensures forall id :: id in ids ==> IdValue(id) in r
    ensures forall v :: v in r ==> v < ALL_IDS
    decreases |ids|
  {
    if ids == [] then {} else Values(ids[..|ids| - 1]) + {IdValue(ids[|ids| - 1])}
  }

  lemma {:induction false} ValuesComeFromIds(ids: seq<bv16>, id: bv16)
    requires IdValue(id) in Values(ids)
    ensures id in ids
    decreases |ids|
  {
    hide IdValue;
    var n := |ids| - 1;
    if IdValue(id) in Values(ids[..n]) {
      ValuesComeFromIds(ids[..n], id);
    } else {
      ValueTells(id, ids[n]);
    }
  }

  lemma {:induction false} DistinctValues(ids: seq<bv16>)
    requires Distinct(ids)
    ensures |Values(ids)| == |ids|
    decreases |ids|
  {
    hide IdValue;
    if ids == [] {
    } else {
      var n := |ids| - 1;
      DistinctValues(ids[..n]);
      if IdValue(ids[n]) in Values(ids[..n]) {
        ValuesComeFromIds(ids[..n], ids[n]);
      }
    }
  }

  lemma {:induction false} SubsetSize(a: set<nat>, b: set<nat>)
    requires a <= b
    ensures |a| <= |b| && (|a| == |b| ==> a == b)
    decreases |a|
  {
    if a == {} {
    } else {
      var x :| x in a;
      SubsetSize(a - {x}, b - {x});
      assert a == (a - {x}) + {x} && b == (b - {x}) + {x};
    }
  }

  /** Pigeonhole: distinct ids are at most 65,536, and exactly that many only if they are all there are. */
  lemma DistinctIds(ids: seq<bv16>)
    requires Distinct(ids)
    ensures |ids| <= ALL_IDS
    ensures |ids| == ALL_IDS <==> forall id: bv16 :: id in ids
  {
    hide Distinct, IdValue, Values, Range;
    DistinctValues(ids);
    assert Values(ids) <= Range(ALL_IDS);
    SubsetSize(Values(ids), Range(ALL_IDS));
    if |ids| == ALL_IDS {
      forall id: bv16
        ensures id in ids
      {
        assert IdValue(id) in Values(ids);
        ValuesComeFromIds(ids, id);
      }
    }
    if forall id: bv16 :: id in ids {
      AllocatedDiffer();
      DistinctValues(Allocated());
      assert Values(Allocated()) <= Values(ids) by { MoreValues(Allocated(), ids); }
      SubsetSize(Values(Allocated()), Values(ids));
    }
  }

  /** The ids of the first 65,536 allocations. */
  function Allocated(): (ids: seq<bv16>)
    ensures |ids| == ALL_IDS && forall i :: 0 <= i < ALL_IDS ==> ids[i] == Transmit.SeqIdOf(i)
  {
    seq(ALL_IDS, i requires 0 <= i < ALL_IDS => Transmit.SeqIdOf(i))
  }

  lemma AllocatedDiffer()
    ensures Distinct(Allocated())
  {
    hide Transmit.SeqIdOf;
    forall i, j | 0 <= i < j < ALL_IDS
      ensures Allocated()[i] != Allocated()[j]
    {
      Transmit.SeqIdsRepeat(i, j);
    }
  }

  lemma {:induction false} MoreValues(a: seq<bv16>, b: seq<bv16>)
    requires forall i :: 0 <= i < |a| ==> a[i] in b
    ensures Values(a) <= Values(b)
    decreases |a|
  {
    hide IdValue;
    if a == [] {
    } else {
      MoreValues(a[..|a| - 1], b);
    }
  }

  // ----- Acknowledgements -----

  /** The ids acknowledged, in order. */
  function AckIds(replies: seq<Reply>): seq<bv16>
    decreases |replies|
  {
    if replies == [] then []
    else
      var last := replies[|replies| - 1];
      AckIds(replies[..|replies| - 1]) + if last.Ack? then [last.of] else []
  }

  lemma AckIdsSnoc(replies: seq<Reply>, r: Reply)
    ensures AckIds(replies + [r]) == AckIds(replies) + if r.Ack? then [r.of] else []
  {
    assert (replies + [r])[..|replies|] == replies;
  }

  /** The ids acknowledged are distinct and are those of the heartbeats in the table. */
  ghost predicate AckInv(l: Loop) {
    && Distinct(AckIds(l.replies))
    && forall id: bv16 :: id in AckIds(l.replies) <==> (HEARTBEAT, id) in l.seen
  }

  lemma FrameAcks(l: Loop, f: ParsedFrame)
    requires AckInv(l)
    ensures AckInv(OnFrame(l, f))
  {
    hide AckIds, Next, NextSeq, OnFault, Severity;
    if f.result != Ok {
      AckIdsSnoc(l.replies, Nack(l.txSeq, f.header.sequenceId, NACK_CHECKSUM));
    } else if Accepted(l, f) && f.header.kind == HEARTBEAT {
      AckIdsSnoc(l.replies, Ack(l.txSeq, f.header.sequenceId));
      OneMoreDistinct(AckIds(l.replies), f.header.sequenceId);
    } else {
      assert AckIds(OnFrame(l, f).replies) == AckIds(l.replies);
    }
  }

  lemma OneMoreDistinct(ids: seq<bv16>, id: bv16)
    requires Distinct(ids) && id !in ids
    ensures Distinct(ids + [id])
  {
  }

  lemma StepAcks(s: System, a: Action)
    requires AckInv(s.loop)
    ensures AckInv(Step(s, a).loop)
  {
    hide AckIds, Distinct, OnFrame, FramePosts, Next, NextSeq, Work;
    if a.Receive? {
      FrameAcks(s.loop, a.f);
    }
  }

  lemma {:induction false} RunAcks(s: System, actions: seq<Action>)
    requires AckInv(s.loop)
    ensures AckInv(Run(s, actions).loop)
    decreases |actions|
  {
    hide AckInv, Step;
    if actions == [] {
    } else {
      StepAcks(s, actions[0]);
      RunAcks(Step(s, actions[0]), actions[1..]);
    }
  }

  lemma StartAcks(deadlineMs: nat)
    ensures AckInv(Initial(deadlineMs).loop)
  {
  }

  /** Every heartbeat id is in the table. */
  ghost predicate Exhausted(l: Loop) {
    forall id: bv16 :: (HEARTBEAT, id) in l.seen
  }

  /** In every run at most 65,536 heartbeats are acknowledged, and exactly that many if and only if
      every id has been used up. */
  lemma AcknowledgedAtMost(deadlineMs: nat, actions: seq<Action>)
    ensures var l := Run(Initial(deadlineMs), actions).loop;
      && |AckIds(l.replies)| <= ALL_IDS
      && (|AckIds(l.replies)| == ALL_IDS <==> Exhausted(l))
  {
    hide Run, AckIds, Distinct;
    StartAcks(deadlineMs);
    RunAcks(Initial(deadlineMs), actions);
    DistinctIds(AckIds(Run(Initial(deadlineMs), actions).loop.replies));
  }

  // ----- After that -----

  /** A used-up table: no frame makes the supervisor HEALTHY or gets an ACK, and no id comes free. */
  lemma ExhaustedFrame(l: Loop, f: ParsedFrame)
    requires Exhausted(l)
    ensures var l' := OnFrame(l, f);
      && Exhausted(l') && AckIds(l'.replies) == AckIds(l.replies)
      && (l'.fsm.Healthy? ==> l.fsm.Healthy?)
      && (f.result == Ok && f.header.kind == HEARTBEAT ==> l' == l && FramePosts(l, f) == [])
  {
    hide AckIds, NextSeq, Severity;
    if f.result != Ok {
      AckIdsSnoc(l.replies, Nack(l.txSeq, f.header.sequenceId, NACK_CHECKSUM));
    } else if f.header.kind == HEARTBEAT {
      assert KeyOf(f) == (HEARTBEAT, f.header.sequenceId);
    }
  }

  lemma ExhaustedStep(s: System, a: Action)
    requires Exhausted(s.loop)
    ensures var l, l' := s.loop, Step(s, a).loop;
      Exhausted(l') && AckIds(l'.replies) == AckIds(l.replies) && (l'.fsm.Healthy? ==> l.fsm.Healthy?)
  {
    hide AckIds, OnFrame, FramePosts, NextSeq, Work;
    if a.Receive? {
      ExhaustedFrame(s.loop, a.f);
    }
  }

  lemma {:induction false} ExhaustedRun(s: System, actions: seq<Action>)
    requires Exhausted(s.loop)
    ensures var l, l' := s.loop, Run(s, actions).loop;
      Exhausted(l') && AckIds(l'.replies) == AckIds(l.replies) && (l'.fsm.Healthy? ==> l.fsm.Healthy?)
    decreases |actions|
  {
    hide Exhausted, AckIds, Step;
    if actions == [] {
    } else {
      ExhaustedStep(s, actions[0]);
      ExhaustedRun(Step(s, actions[0]), actions[1..]);
    }
  }

  /** After the 65,536th acknowledgement there is never another, and once the supervisor has left
      HEALTHY, by a timeout or a fault, it is never HEALTHY again. */
  lemma HealthRunsOut(deadlineMs: nat, before: seq<Action>, after: seq<Action>)
    ensures var s := Run(Initial(deadlineMs), before);
      var s' := Run(s, after);
      |AckIds(s.loop.replies)| == ALL_IDS ==>
        && AckIds(s'.loop.replies) == AckIds(s.loop.replies)
        && (!s.loop.fsm.Healthy? ==> !s'.loop.fsm.Healthy?)
  {
    hide Run, AckIds, Exhausted;
    AcknowledgedAtMost(deadlineMs, before);
    var s := Run(Initial(deadlineMs), before);
    if |AckIds(s.loop.replies)| == ALL_IDS {
      ExhaustedRun(s, after);
    }
  }
}
