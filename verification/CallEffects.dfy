/** What each of the driver's calls and handlers does to the device, stated on the bytes of the frame
    and the fields of the device, without the scripts and sections they are made of. */
module CallEffects {
  import opened Crc
  import opened Wire
  import opened Driver
  import opened DriverCalls

  /** Equal but for the timeline and the history. */
  ghost predicate Becomes(d': Dev, want: Dev) {
    d' == want.(ring := d'.ring, history := d'.history)
  }

  /** A 32-bit counter that has counted once more. */
  function Up(n: nat): nat {
    (n + 1) % 0x1_0000_0000
  }

  function Larger(a: nat, b: nat): nat {
    if a < b then b else a
  }

  /** One more error of this class. */
  function OneMore(e: Errors, v: ValidateResult): Errors {
    Errors(Up(e.total),
           if v == BadMagic then Up(e.magic) else e.magic,
           if v == BadVersion then Up(e.version) else e.version,
           if v == BadLength then Up(e.length) else e.length,
           if v == BadChecksum then Up(e.checksum) else e.checksum,
           v)
  }

  lemma NotedIsOneMore(e: Errors, v: ValidateResult)
    ensures Noted(e, v) == OneMore(e, v)
  {
  }

  /** The timeline with one more event. */
  function Noticed(d: Dev, ns: nat, kind: Timeline.Kind, id: bv16): Timeline.Ring
    requires Timeline.Shaped(d.ring)
  {
    Timeline.Record(d.ring, Timeline.Entry(ns, kind, id))
  }

  lemma IdOfFrame(frame: seq<byte>)
    requires |frame| >= 16
    ensures SeqOf(frame) == U16(frame[4], frame[5])
  {
    hide U16, U32;
  }

  // ----- PUSH_RX -----

  predicate InRange(frame: seq<byte>) {
    16 <= |frame| <= 272
  }

  /** What is wrong with the borders of the frame, if anything. */
  function BorderFault(frame: seq<byte>): ValidateResult
    requires InRange(frame)
  {
    if frame[0] != 0x46 || frame[1] != 0x53 then BadMagic
    else if frame[2] != 0x01 then BadVersion
    else if |frame| != 16 + frame[6] as nat + 256 * (frame[7] as nat) then BadLength
    else Ok
  }

  function EventOf(frame: seq<byte>): Timeline.Kind
    requires InRange(frame)
  {
    if frame[3] == 0x01 then Timeline.Heartbeat else Timeline.FrameRx
  }

  lemma SizeByBytes(frame: seq<byte>)
    requires |frame| >= 16
    ensures ParseHeader(frame).payloadLength as nat == frame[6] as nat + 256 * (frame[7] as nat)
  {
    hide U16, U32;
    U16Value(frame[6], frame[7]);
  }

  lemma RxByBytes(frame: seq<byte>)
    ensures RxScript(frame) ==
      if !InRange(frame) then []
      else if BorderFault(frame) != Ok then [NoteError(BorderFault(frame))]
      else if Validate(frame) == Ok then
        [PushRx(frame, EventOf(frame), true)] + if frame[3] == 0x01 then [MarkHeartbeat, Rearm] else []
      else [NoteError(BadChecksum), PushRx(frame, EventOf(frame), true)]
  {
    if InRange(frame) {
      SizeByBytes(frame);
      MagicBytes(frame[0], frame[1]);
      OnlyChecksumIsLeft(frame);
      hide Validate, U16, U32;
    }
  }

  /** The device after the frame was queued or dropped. */
  function Pushed(d: Dev, frame: seq<byte>): Dev {
    if |d.rx| < d.depth
    then d.(rx := d.rx + [frame], highWatermark := Larger(d.highWatermark, |d.rx| + 1))
    else d.(dropped := Up(d.dropped))
  }

  /** PUSH_RX, for every frame and device: a frame that is not whole is counted in its error class
      and goes nowhere; a whole one is queued, or dropped and counted if the queue is full; a bad
      checksum is counted besides; and a heartbeat (type 1) counts, sets the link and re-arms the
      watchdog exactly if it is valid and found room. */
  lemma RxEffect(d: Dev, frame: seq<byte>, c: Clocks, i: nat)
    requires Timeline.Shaped(d.ring)
    ensures var d' := Complete(d, RxScript(frame), c, i);
      if !InRange(frame) then d' == d
      else if BorderFault(frame) != Ok then
        Becomes(d', d.(errors := OneMore(d.errors, BorderFault(frame)))) && d'.ring == d.ring
      else
        var good, room := Validate(frame) == Ok, |d.rx| < d.depth;
        var queued := Pushed(if good then d else d.(errors := OneMore(d.errors, BadChecksum)), frame);
        var at := if good then i else i + 1;
        && Becomes(d', if good && room && frame[3] == 0x01
                       then queued.(heartbeats := Up(d.heartbeats), link := LinkOk, armed := true)
                       else queued)
        && d'.ring == (if room then Noticed(d, c(at).ns, EventOf(frame), U16(frame[4], frame[5])) else d.ring)
  {
    hide Complete, Exec, Validate, RxScript, BorderFault, EventOf, Timeline.Record, U16;
    RxByBytes(frame);
    CompleteNothing(d, c, i);
    if !InRange(frame) {
    } else if BorderFault(frame) != Ok {
      CompleteOne(d, NoteError(BorderFault(frame)), c, i);
      NoteEffect(d, BorderFault(frame), c(i));
    } else if Validate(frame) == Ok {
      AdmitEffect(d, frame, EventOf(frame), frame[3] == 0x01, c, i);
    } else {
      var push := PushRx(frame, EventOf(frame), true);
      assert [NoteError(BadChecksum), push] == [NoteError(BadChecksum)] + [push] && [push] + [] == [push];
      CompleteNext(d, NoteError(BadChecksum), [push], c, i);
      NoteEffect(d, BadChecksum, c(i));
      AdmitEffect(Exec(d, NoteError(BadChecksum), c(i)), frame, EventOf(frame), false, c, i + 1);
    }
  }

  lemma NoteEffect(d: Dev, v: ValidateResult, c: Clock)
    requires Timeline.Shaped(d.ring)
    ensures var d' := Exec(d, NoteError(v), c); Becomes(d', d.(errors := OneMore(d.errors, v))) && d'.ring == d.ring
  {
    hide Noted, OneMore;
    NotedIsOneMore(d.errors, v);
  }

  lemma PushEffect(d: Dev, frame: seq<byte>, kind: Timeline.Kind, c: Clock)
    requires Timeline.Shaped(d.ring) && InRange(frame)
    ensures var d' := Exec(d, PushRx(frame, kind, true), c);
      if |d.rx| < d.depth then
        Becomes(d', Pushed(d, frame)) && d'.ring == Noticed(d, c.ns, kind, U16(frame[4], frame[5]))
      else d' == d
  {
    hide SeqOf, Timeline.Record, U16;
    IdOfFrame(frame);
  }

  lemma DropEffect(d: Dev, c: Clock)
    requires Timeline.Shaped(d.ring)
    ensures var d' := Exec(d, NoteDrop, c); Becomes(d', d.(dropped := Up(d.dropped))) && d'.ring == d.ring
  {
  }

  lemma BeatEffect(d: Dev, c: Clock, c': Clock)
    requires Timeline.Shaped(d.ring)
    ensures var d' := Exec(Exec(d, MarkHeartbeat, c), Rearm, c');
      Becomes(d', d.(heartbeats := Up(d.heartbeats), link := LinkOk, armed := true)) && d'.ring == d.ring
  {
  }

  lemma AdmitEffect(d: Dev, frame: seq<byte>, kind: Timeline.Kind, beat: bool, c: Clocks, i: nat)
    requires Timeline.Shaped(d.ring) && InRange(frame)
    ensures var d' := Complete(d, [PushRx(frame, kind, true)] + if beat then [MarkHeartbeat, Rearm] else [], c, i);
      && Becomes(d', if beat && |d.rx| < d.depth
                     then Pushed(d, frame).(heartbeats := Up(d.heartbeats), link := LinkOk, armed := true)
                     else Pushed(d, frame))
      && d'.ring == (if |d.rx| < d.depth then Noticed(d, c(i).ns, kind, U16(frame[4], frame[5])) else d.ring)
  {
    hide Complete, SeqOf, Timeline.Record, U16;
    IdOfFrame(frame);
    var push, tail := PushRx(frame, kind, true), if beat then [MarkHeartbeat, Rearm] else [];
    CompleteNext(d, push, tail, c, i);
    var d1 := Exec(d, push, c(i));
    PushEffect(d, frame, kind, c(i));
    hide Exec;
    if |d.rx| >= d.depth {
      CompleteOne(d1, NoteDrop, c, i + 1);
      DropEffect(d1, c(i + 1));
    } else if beat {
      assert tail == [MarkHeartbeat] + [Rearm];
      CompleteNext(d1, MarkHeartbeat, [Rearm], c, i + 1);
      CompleteOne(Exec(d1, MarkHeartbeat, c(i + 1)), Rearm, c, i + 2);
      BeatEffect(d1, c(i + 1), c(i + 2));
    } else {
      CompleteNothing(d1, c, i + 1);
    }
  }

  // ----- write() -----

  /** write(), for every buffer: a bad one is counted in its error class, a good one is queued for the
      link daemon, or dropped and counted. */
  lemma TxEffect(d: Dev, buf: seq<byte>, c: Clocks, i: nat)
    requires Timeline.Shaped(d.ring)
    ensures var d' := Complete(d, TxScript(buf), c, i);
      if !InRange(buf) then d' == d
      else if Validate(buf) != Ok then Becomes(d', d.(errors := OneMore(d.errors, Validate(buf))))
      else if |d.tx| < d.depth then
        && Becomes(d', d.(tx := d.tx + [buf]))
        && d'.ring == Noticed(d, c(i).ns, Timeline.Recovery, U16(buf[4], buf[5]))
      else Becomes(d', d.(dropped := Up(d.dropped)))
  {
    hide Complete, Validate, SeqOf, Timeline.Record, U16;
    CompleteNothing(d, c, i);
    if !InRange(buf) {
    } else if Validate(buf) != Ok {
      CompleteOne(d, NoteError(Validate(buf)), c, i);
      NoteEffect(d, Validate(buf), c(i));
    } else {
      IdOfFrame(buf);
      assert [PushTx(buf)] + [] == [PushTx(buf)];
      CompleteNext(d, PushTx(buf), [], c, i);
      var d1 := Exec(d, PushTx(buf), c(i));
      CompleteNothing(d1, c, i + 1);
      CompleteOne(d1, NoteDrop, c, i + 1);
    }
  }

  // ----- The driver's own frames -----

  /** A valid frame of this type and id whose payload starts with these four bytes. */
  predicate Reports(f: seq<byte>, kind: byte, id: bv16, first: seq<byte>) {
    && |f| == 24 && Validate(f) == Ok && f[3] == kind && U16(f[4], f[5]) == id
    && f[16..20] == first
  }

  lemma SynthReports(b: Synthetic, id: bv16, at: Stamp)
    ensures Reports(SynthFrame(b, id, at), if b.FaultEvent? then 0x03 else 0x07, id, SynthPayload(b, at.payloadMs)[..4])
  {
    hide Validate, Pack, Checksum, IsFrame, HeaderBytes;
    var kind := if b.FaultEvent? then FAULT_EVENT else RECOVERY_REPORT;
    var h, p, f := InitHeader(kind, id, 8, at.headerMs), SynthPayload(b, at.payloadMs), SynthFrame(b, id, at);
    PackValidates(h, p, []);
    assert f == Pack(h, p) && f + [] == f;
    assert f[16..20] == f[16..][..4];
  }

  lemma SynthId(b: Synthetic, id: bv16, at: Stamp)
    ensures SeqOf(SynthFrame(b, id, at)) == id
  {
    hide SynthFrame, SeqOf, SynthPayload, Validate;
    SynthReports(b, id, at);
    IdOfFrame(SynthFrame(b, id, at));
  }

  /** One more synthetic frame with the next id: at the end of the queue, or dropped and counted. */
  ghost predicate Announced(d: Dev, want: Dev, d': Dev, kind: byte, first: seq<byte>) {
    if |d.rx| < d.depth then
      && |d'.rx| == |d.rx| + 1
      && Reports(d'.rx[|d.rx|], kind, d.synthSeq, first)
      && Becomes(d', want.(rx := d.rx + [d'.rx[|d.rx|]], highWatermark := Larger(d.highWatermark, |d.rx| + 1),
                           synthSeq := NextSeq(d.synthSeq)))
    else Becomes(d', want.(dropped := Up(d.dropped), synthSeq := NextSeq(d.synthSeq)))
  }

  lemma SynthEffect(d: Dev, b: Synthetic, c: Clocks, i: nat)
    requires Timeline.Shaped(d.ring)
    ensures var first := SynthPayload(b, c(i).stamp.payloadMs)[..4];
      Announced(d, d, Complete(d, [Synthesize(b)], c, i), if b.FaultEvent? then 0x03 else 0x07, first)
    ensures Complete(d, [Synthesize(b)], c, i).ring ==
      if |d.rx| < d.depth
      then Noticed(d, c(i + 1).ns, if b.FaultEvent? then Timeline.FaultInject else Timeline.Recovery, d.synthSeq)
      else d.ring
  {
    hide Complete, SynthFrame, SynthPayload, Reports, SeqOf, Timeline.Record, NextSeq;
    SynthId(b, d.synthSeq, c(i).stamp);
    var push := SynthPush(b, d.synthSeq, c(i).stamp);
    SynthReports(b, d.synthSeq, c(i).stamp);
    assert [Synthesize(b)] + [] == [Synthesize(b)] && [push] + [] == [push] && [NoteDrop] + [] == [NoteDrop];
    CompleteNext(d, Synthesize(b), [], c, i);
    var d1 := Exec(d, Synthesize(b), c(i));
    SynthSized(b, d.synthSeq, c(i).stamp);
    CompleteNext(d1, push, [], c, i + 1);
    var d2 := Exec(d1, push, c(i + 1));
    CompleteNothing(d2, c, i + 2);
    CompleteOne(d2, NoteDrop, c, i + 2);
  }

  // ----- The watchdog, the recovery work and the ioctls -----

  /** An expiry counts as a timeout and a fault, records it, reports a fault event of severity 1 and
      asks for recovery. */
  lemma WatchdogEffect(d: Dev, c: Clocks, i: nat)
    requires Timeline.Shaped(d.ring)
    ensures var want := d.(timeouts := Up(d.timeouts), faults := Up(d.faults), link := LinkTimeout,
                           lastFault := Fault(1, 1, c(i).faultNs), workPending := true);
      Announced(d, want, Complete(d, WATCHDOG_SCRIPT, c, i), 0x03, [1, 1, 1, 0])
    ensures var noted := d.(ring := Noticed(d, c(i).ns, Timeline.TimedOut, 0));
      Complete(d, WATCHDOG_SCRIPT, c, i).ring ==
      if |d.rx| < d.depth then Noticed(noted, c(i + 2).ns, Timeline.FaultInject, d.synthSeq) else noted.ring
  {
    hide Complete, SynthPayload, Reports, Timeline.Record, NextSeq;
    var b := FaultEvent(TASK_HANG, 1, 1);
    assert WATCHDOG_SCRIPT == [Expire] + [Synthesize(b), Schedule];
    assert [Synthesize(b), Schedule] == [Synthesize(b)] + [Schedule];
    CompleteNext(d, Expire, [Synthesize(b), Schedule], c, i);
    var d1 := Exec(d, Expire, c(i));
    SynthThen(d1, b, [Schedule], c, i + 1);
    SynthEffect(d1, b, c, i + 1);
    FaultBytes(1, 1, 1, c(i + 1).stamp.payloadMs);
    var next := if |d1.rx| < d1.depth then i + 3 else i + 4;
    CompleteOne(Complete(d1, [Synthesize(b)], c, i + 1), Schedule, c, next);
  }

  lemma FaultBytes(fault: byte, severity: byte, detail: bv16, ms: bv32)
    requires detail < 0x100
    ensures SynthPayload(FaultEvent(fault, severity, detail), ms)[..4] == [fault, severity, detail as byte, 0]
  {
    assert Lo(detail) == detail as byte && Hi(detail) == 0;
  }

  lemma ReportBytes(ms: bv32)
    ensures SynthPayload(RecoveryReport(1, LINK_RECOVERING), ms)[..4] == [1, 3, 0, 0]
  {
  }

  /** The recovery work counts a retry, sets the link and reports. */
  lemma WorkEffect(d: Dev, c: Clocks, i: nat)
    requires Timeline.Shaped(d.ring)
    ensures var want := d.(retries := Up(d.retries), link := LinkRecovering);
      Announced(d, want, Complete(d, WORK_SCRIPT, c, i), 0x07, [1, 3, 0, 0])
    ensures var noted := d.(ring := Noticed(d, c(i).ns, Timeline.Recovery, 0));
      Complete(d, WORK_SCRIPT, c, i).ring ==
      if |d.rx| < d.depth then Noticed(noted, c(i + 2).ns, Timeline.Recovery, d.synthSeq) else noted.ring
  {
    hide Complete, SynthPayload, Reports, Timeline.Record, NextSeq;
    var b := RecoveryReport(1, LINK_RECOVERING);
    ReportBytes(c(i + 1).stamp.payloadMs);
    assert WORK_SCRIPT == [Recover] + [Synthesize(b)];
    CompleteNext(d, Recover, [Synthesize(b)], c, i);
    SynthEffect(Exec(d, Recover, c(i)), b, c, i + 1);
  }

  /** An injected fault counts, is recorded and reported with severity 2, and touches neither the link
      nor the recovery work. */
  lemma InjectEffect(d: Dev, fault: byte, c: Clocks, i: nat)
    requires Timeline.Shaped(d.ring)
    ensures var want := d.(faults := Up(d.faults), lastFault := Fault(fault, 0, c(i).faultNs));
      Announced(d, want, Complete(d, Script(InjectFault(fault)), c, i), 0x03, [fault, 2, 0, 0])
  {
    hide Complete, SynthPayload, Reports, NextSeq;
    var b := FaultEvent(fault, 2, 0);
    assert Script(InjectFault(fault)) == [Inject(fault)] + [Synthesize(b)];
    CompleteNext(d, Inject(fault), [Synthesize(b)], c, i);
    SynthEffect(Exec(d, Inject(fault), c(i)), b, c, i + 1);
    FaultBytes(fault, 2, 0, c(i + 1).stamp.payloadMs);
  }

  /** A new threshold is stored and arms the watchdog, unless it is 0; a forced recovery only asks for
      the work. */
  lemma ControlEffects(d: Dev, ms: nat, c: Clocks, i: nat)
    requires Timeline.Shaped(d.ring)
    ensures Becomes(Complete(d, Script(SetHbTimeout(ms)), c, i),
                    if ms == 0 then d else d.(hbTimeoutMs := ms, armed := true))
    ensures Becomes(Complete(d, Script(ForceRecovery), c, i), d.(workPending := true))
  {
    hide Complete;
    CompleteNothing(d, c, i);
    CompleteOne(d, Schedule, c, i);
    assert [SetTimeout(ms), Rearm] == [SetTimeout(ms)] + [Rearm];
    CompleteNext(d, SetTimeout(ms), [Rearm], c, i);
    CompleteOne(Exec(d, SetTimeout(ms), c(i)), Rearm, c, i + 1);
  }

  /** A reset clears every counter, the error classes, the fault record and the timeline, and leaves the
      queues, the link, the watchdog, the work and the ids alone. */
  lemma ResetEffect(d: Dev)
    requires Timeline.Shaped(d.ring)
    ensures Becomes(ClearStats(d), d.(heartbeats := 0, faults := 0, dropped := 0, timeouts := 0, retries := 0,
                                      highWatermark := 0, errors := Errors(0, 0, 0, 0, 0, Ok),
                                      lastFault := Fault(0, 0, 0)))
    ensures Timeline.Shaped(ClearStats(d).ring) && Timeline.Shown(ClearStats(d).ring) == []
  {
  }
}
