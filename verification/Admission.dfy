/** From the driver's admission check to the supervisor's refusals: what a read can deliver. */
module Admission {
  import opened Crc
  import opened Wire
  import opened Framing
  import opened Streams
  import opened Health
  import opened Supervisor
  import Driver
  import Timeline

  /** What the supervisor makes of one frame read from the device. */
  function ReadFrame(f: seq<byte>): ParsedFrame
    requires |f| >= HEADER_SIZE
  {
    ParsedFrame(ParseHeader(f), f[HEADER_SIZE..], Validate(f))
  }

  lemma OneRead(f: seq<byte>)
    requires IsFrame(f)
    ensures Items([] + f) == [Frame(f)] && Residual([] + f) == []
    ensures Parsed(Items([] + f)) == [ReadFrame(f)]
  {
    FrameAtFront(f, []);
    assert f + [] == f && [] + f == f;
    assert [Frame(f)][1..] == [];
    hide Validate, FrameSize, ParseHeader, IsFrame;
  }

  function ReadFrames(fs: seq<seq<byte>>): (r: seq<ParsedFrame>)
    requires AllFrames(fs)
    ensures |r| == |fs| && forall i :: 0 <= i < |fs| ==> r[i] == ReadFrame(fs[i])
  {
    seq(|fs|, i requires 0 <= i < |fs| => ReadFrame(fs[i]))
  }

  /** Reads of whole frames, one a call, give one parsed frame each and leave nothing over. */
  lemma {:induction false} ReadsParseOneEach(fs: seq<seq<byte>>)
    requires AllFrames(fs)
    ensures FedResidual([], fs) == []
    ensures Parsed(FedItems([], fs)) == ReadFrames(fs)
    decreases |fs|
  {
    if fs == [] {
    } else {
      OneRead(fs[0]);
      ReadsParseOneEach(fs[1..]);
      ParsedConcat(Items([] + fs[0]), FedItems([], fs[1..]));
      hide Items, Residual, Validate, IsFrame, Parsed;
      FirstRead(fs);
    }
  }

  lemma FirstRead(fs: seq<seq<byte>>)
    requires fs != [] && AllFrames(fs)
    ensures [ReadFrame(fs[0])] + ReadFrames(fs[1..]) == ReadFrames(fs)
  {
    hide Validate, ParseHeader;
  }

  lemma LeftWereAdmitted(d: Driver.Dev)
    requires Driver.DevInv(d)
    ensures forall i :: 0 <= i < |d.history.rxOut| ==> Driver.Admitted(d.history.rxOut[i])
  {
    hide Driver.Admitted;
    forall i | 0 <= i < |d.history.rxOut|
      ensures Driver.Admitted(d.history.rxOut[i])
    {
      assert d.history.rxIn[i] == (d.history.rxOut + d.rx)[i] == d.history.rxOut[i];
    }
  }

  /** In every run of the driver, feeding each frame read to the assembler as it comes gives
      exactly one parsed frame a read and an empty residual, and each is valid or has a bad
      checksum and nothing else. */
  lemma EveryReadIsOneFrame(depth: nat, hbTimeoutMs: nat, slots: seq<Timeline.Entry>, steps: seq<(nat, Driver.Action)>)
    requires |slots| == Timeline.DEPTH
    ensures var fs := Driver.Run(Driver.Initial(depth, hbTimeoutMs, slots), steps).dev.history.rxOut;
      && AllFrames(fs)
      && FedResidual([], fs) == []
      && Parsed(FedItems([], fs)) == ReadFrames(fs)
      && (forall i :: 0 <= i < |fs| ==> ReadFrames(fs)[i].result == Ok || ReadFrames(fs)[i].result == BadChecksum)
  {
    hide Driver.Run, Driver.DevInv, FedItems, FedResidual, Parsed, Validate, FrameSize;
    Driver.ReachableInv(depth, hbTimeoutMs, slots, steps);
    var d := Driver.Run(Driver.Initial(depth, hbTimeoutMs, slots), steps).dev;
    LeftWereAdmitted(d);
    ReadsParseOneEach(d.history.rxOut);
  }

  /** So the reason the supervisor gives when it refuses a frame, always CHECKSUM, is the true one. */
  lemma NackReasonIsTrue(depth: nat, hbTimeoutMs: nat, slots: seq<Timeline.Entry>, steps: seq<(nat, Driver.Action)>,
                         l: Loop, i: nat)
    requires |slots| == Timeline.DEPTH
    ensures var fs := Driver.Run(Driver.Initial(depth, hbTimeoutMs, slots), steps).dev.history.rxOut;
      var parsed := Parsed(FedItems([], fs));
      i < |parsed| ==>
        var replies := OnFrame(l, parsed[i]).replies;
        var nack := Nack(l.txSeq, parsed[i].header.sequenceId, NACK_CHECKSUM);
        replies == l.replies + [nack] <==> parsed[i].result == BadChecksum
  {
    EveryReadIsOneFrame(depth, hbTimeoutMs, slots, steps);
    hide Driver.Run, FedItems, Parsed, Validate, NextSeq;
    var fs := Driver.Run(Driver.Initial(depth, hbTimeoutMs, slots), steps).dev.history.rxOut;
    if i < |Parsed(FedItems([], fs))| {
      Refusal(l, ReadFrames(fs)[i]);
    }
  }

  lemma Refusal(l: Loop, f: ParsedFrame)
    ensures OnFrame(l, f).replies == l.replies + [Nack(l.txSeq, f.header.sequenceId, NACK_CHECKSUM)] <==> f.result != Ok
  {
    hide NextSeq, Next;
    if f.result == Ok {
      var r := OnFrame(l, f).replies;
      assert |r| == |l.replies| || r[|l.replies|].Ack?;
      assert (l.replies + [Nack(l.txSeq, f.header.sequenceId, NACK_CHECKSUM)])[|l.replies|].Nack?;
    }
  }

  /** What the supervisor reads of a frame the driver made. */
  function ReadSynthetic(b: Driver.Synthetic, id: bv16, at: Driver.Stamp): ParsedFrame {
    ReadFrame(Driver.SynthFrame(b, id, at))
  }

  /** What the supervisor reads of a fault event the driver made: its own id and the severity put in. */
  lemma SynthFaultReads(fault: byte, severity: byte, detail: bv16, id: bv16, at: Driver.Stamp)
    ensures var f := ReadSynthetic(Driver.FaultEvent(fault, severity, detail), id, at);
      && f.result == Ok && f.header.kind == FAULT_EVENT && f.header.sequenceId == id
      && Supervisor.Severity(f) == severity
  {
    hide Validate, Pack, Checksum, ParseHeader;
    var payload := Driver.SynthPayload(Driver.FaultEvent(fault, severity, detail), at.payloadMs);
    var h := InitHeader(FAULT_EVENT, id, 8, at.headerMs);
    PackValidates(h, payload, []);
    assert Pack(h, payload) + [] == Pack(h, payload);
  }

  /** The loop after a fault event with this id that calls for state h, unless it is a duplicate. */
  function ActedOn(l: Loop, id: bv16, h: HealthState): Loop {
    if (FAULT_EVENT, id) in l.seen then l else l.(seen := l.seen + {(FAULT_EVENT, id)}, fsm := h)
  }

  /** A fault event the driver made is acted on exactly if no valid fault event with its id was handled
      before; otherwise the loop takes it for a duplicate and stays as it is. Acted on, an injected
      fault (severity 2) stops a HEALTHY or DEGRADED supervisor in SAFE_MODE, and the watchdog's own
      (severity 1) takes a HEALTHY one to DEGRADED and does nothing else. */
  lemma DriverFaultsAtSupervisor(l: Loop, fault: byte, severity: byte, detail: bv16, id: bv16, at: Driver.Stamp)
    ensures var l' := OnFrame(l, ReadSynthetic(Driver.FaultEvent(fault, severity, detail), id, at));
      && l' == ActedOn(l, id, OnFault(l.fsm, severity))
      && (severity >= 2 && (l.fsm.Healthy? || l.fsm.Degraded?) ==> (l'.fsm.SafeMode? <==> (FAULT_EVENT, id) !in l.seen))
      && (severity < 2 && l.fsm.Healthy? ==> (l'.fsm.Degraded? <==> (FAULT_EVENT, id) !in l.seen))
      && (severity < 2 && !l.fsm.Healthy? ==> l'.fsm == l.fsm)
  {
    hide Driver.SynthFrame, Validate, ParseHeader, NextSeq, Severity;
    SynthFaultReads(fault, severity, detail, id, at);
  }
}
