/** The driver's entry points as they run when nothing interleaves: each is its script,
    carried out section by section. */
module DriverCalls {
  import opened Crc
  import opened Wire
  import opened Driver

  const EINVAL: int := 22
  const EMSGSIZE: int := 90
  const ENOSPC: int := 28
  const EAGAIN: int := 11

  function Weight(script: seq<Section>): nat
    decreases |script|
  {
    if script == [] then 0
    else
      Weight(script[1..])
      + if script[0].Synthesize? then 3 else if script[0].PushRx? || script[0].PushTx? then 2 else 1
  }

  lemma ContinueIsLighter(d: Dev, script: seq<Section>, c: Clock)
    requires script != []
    ensures Weight(Continue(d, script, c)) < Weight(script)
  {
    hide SynthFrame;
    var tail, r := script[1..], Continue(d, script, c);
    if r != tail && r != [] {
      assert r == [r[0]] + r[1..];
      assert r[1..] == tail || r[1..] == [];
    }
  }

  /** Readings of the clocks, one for each section that runs. */
  type Clocks = nat -> Clock

  /** A script run to its end without interruption, from the i-th reading on. */
  function Complete(d: Dev, script: seq<Section>, c: Clocks, i: nat): (d': Dev)
    requires Timeline.Shaped(d.ring)
    ensures Timeline.Shaped(d'.ring)
    decreases Weight(script)
  {
    if script == [] then d
    else
      ContinueIsLighter(d, script, c(i));
      Complete(Exec(d, script[0], c(i)), Continue(d, script, c(i)), c, i + 1)
  }

  lemma CompleteOne(d: Dev, s: Section, c: Clocks, i: nat)
    requires Timeline.Shaped(d.ring) && !s.PushRx? && !s.PushTx? && !s.Synthesize?
    ensures Complete(d, [s], c, i) == Exec(d, s, c(i))
  {
    hide Exec;
    assert [s][1..] == [];
    assert Continue(d, [s], c(i)) == [];
  }

  lemma CompleteNext(d: Dev, s: Section, tail: seq<Section>, c: Clocks, i: nat)
    requires Timeline.Shaped(d.ring)
    ensures var rest := Continue(d, [s] + tail, c(i));
      && Complete(d, [s] + tail, c, i) == Complete(Exec(d, s, c(i)), rest, c, i + 1)
      && (!s.PushRx? && !s.PushTx? && !s.Synthesize? ==> rest == tail)
      && (s.PushRx? && Sized(s.frame) ==>
            rest == if |d.rx| < d.depth then tail else if s.ends then [NoteDrop] else [NoteDrop] + tail)
      && (s.PushTx? && Sized(s.frame) ==> rest == if |d.tx| < d.depth then tail else [NoteDrop])
      && (s.Synthesize? ==> rest == [SynthPush(s.body, d.synthSeq, c(i).stamp)] + tail)
  {
    hide Exec, SynthPush;
    assert ([s] + tail)[1..] == tail;
  }

  class SafetyCopro {
    var rx: seq<seq<byte>>
    var tx: seq<seq<byte>>
    const depth: nat
    var highWatermark: nat
    var link: Link
    var heartbeats: nat
    var faults: nat
    var dropped: nat
    var timeouts: nat
    var retries: nat
    var errors: Errors
    var lastFault: Fault
    var synthSeq: bv16
    var hbTimeoutMs: nat
    var armed: bool
    var workPending: bool
    var ring: Timeline.Ring
    ghost var history: History

    constructor (depth: nat, hbTimeoutMs: nat, slots: seq<Timeline.Entry>)
      requires |slots| == Timeline.DEPTH
      ensures View() == Initial(depth, hbTimeoutMs, slots).dev
    {
      this.depth := depth;
      this.hbTimeoutMs := hbTimeoutMs;
      rx, tx, highWatermark, link := [], [], 0, LinkBooting;
      heartbeats, faults, dropped, timeouts, retries := 0, 0, 0, 0, 0;
      errors, lastFault, synthSeq, armed, workPending := NO_ERRORS, NO_FAULT, 0, false, false;
      ring := Timeline.Ring(slots, 0, 0);
      history := History([], [], [], [], [], [], [], [], [], []);
    }

    ghost function View(): Dev
      reads this
    {
      Dev(rx, tx, depth, highWatermark, link, heartbeats, faults, dropped, timeouts, retries,
          errors, lastFault, synthSeq, hbTimeoutMs, armed, workPending, ring, history)
    }

    ghost predicate Valid()
      reads this
    {
      Timeline.Shaped(ring) && forall i :: 0 <= i < |rx| ==> Sized(rx[i])
    }

    ghost method Counting(e: Counted)
      modifies this`history
      ensures history == old(history).(counted := old(history).counted + [e])
    {
      history := history.(counted := history.counted + [e]);
    }

    method RecordProtoError(v: ValidateResult, ghost c: Clock)
      requires Valid()
      modifies this
      ensures Valid() && View() == Exec(old(View()), NoteError(v), c) && rx == old(rx)
    {
      errors := errors.(total := Inc(errors.total), last := v);
      match v {
        case BadMagic => errors := errors.(magic := Inc(errors.magic));
        case BadVersion => errors := errors.(version := Inc(errors.version));
        case BadLength => errors := errors.(length := Inc(errors.length));
        case BadChecksum => errors := errors.(checksum := Inc(errors.checksum));
        case Ok =>
      }
      history := history.(errors := history.errors + [v]);
    }

    method RecordDrop(ghost c: Clock)
      requires Valid()
      modifies this
      ensures Valid() && View() == Exec(old(View()), NoteDrop, c)
    {
      dropped := Inc(dropped);
      Counting(Dropped);
    }

    method RecordEvent(kind: Timeline.Kind, seqId: bv16, c: Clock)
      requires Valid()
      modifies this`ring, this`history
      ensures Valid() && View() == Remember(old(View()), kind, seqId, c)
    {
      var e := Timeline.Entry(c.ns, kind, seqId);
      ring := Timeline.Record(ring, e);
      history := history.(log := history.log + [e]);
    }

    method Enqueue(frame: seq<byte>)
      requires Valid() && Sized(frame)
      modifies this`rx, this`highWatermark, this`history
      ensures Valid() && View() == AddRx(old(View()), frame)
    {
      rx := rx + [frame];
      if |rx| > highWatermark {
        highWatermark := |rx|;
      }
      history := history.(rxIn := history.rxIn + [frame]);
    }

    method PushFrame(frame: seq<byte>, kind: Timeline.Kind, ghost ends: bool, c: Clock) returns (rc: int)
      requires Valid()
      modifies this
      ensures rc == if |frame| == 0 || |frame| > 272 then -90 else if |old(rx)| < depth then 0 else -28
      ensures Valid() && View() == Exec(old(View()), PushRx(frame, kind, ends), c)
    {
      hide Timeline.Record, SeqOf, AddRx;
      if |frame| == 0 || |frame| > MAX_FRAME_SIZE {
        return -EMSGSIZE;
      }
      if |rx| >= depth {
        return -ENOSPC;
      }
      Enqueue(frame);
      RecordEvent(kind, SeqOf(frame), c);
      rc := 0;
    }

    method PushTxFrame(frame: seq<byte>, c: Clock) returns (rc: int)
      requires Valid()
      modifies this
      ensures rc == if |frame| == 0 || |frame| > 272 then -90 else if |old(tx)| < depth then 0 else -28
      ensures Valid() && View() == Exec(old(View()), PushTx(frame), c)
    {
      hide Timeline.Record, SeqOf;
      if |frame| == 0 || |frame| > MAX_FRAME_SIZE {
        return -EMSGSIZE;
      }
      if |tx| >= depth {
        return -ENOSPC;
      }
      tx := tx + [frame];
      history := history.(txIn := history.txIn + [frame]);
      RecordEvent(Timeline.Recovery, SeqOf(frame), c);
      rc := 0;
    }

    method TimerRearm(ghost c: Clock)
      requires Valid()
      modifies this
      ensures Valid() && View() == Exec(old(View()), Rearm, c)
    {
      armed := true;
      history := history.(watch := history.watch + [Armed]);
    }

    /** The rest of PUSH_RX for a frame that passed the checks. */
    method Admit(frame: seq<byte>, heartbeat: bool, c: Clocks, i: nat) returns (rc: int)
      requires Valid() && HEADER_SIZE <= |frame| <= MAX_FRAME_SIZE
      modifies this
      ensures Valid()
      ensures rc == if |old(rx)| < depth then 0 else -ENOSPC
      ensures View() == Complete(old(View()),
        [PushRx(frame, RxKind(frame), true)] + if heartbeat then [MarkHeartbeat, Rearm] else [], c, i)
    {
      hide Exec, Complete, RxKind;
      ghost var d0, tail := View(), if heartbeat then [MarkHeartbeat, Rearm] else [];
      CompleteNext(d0, PushRx(frame, RxKind(frame), true), tail, c, i);
      rc := PushFrame(frame, RxKind(frame), true, c(i));
      ghost var d1 := View();
      if rc == -ENOSPC {
        CompleteOne(d1, NoteDrop, c, i + 1);
        RecordDrop(c(i + 1));
        return -ENOSPC;
      }
      if heartbeat {
        assert tail == [MarkHeartbeat] + [Rearm];
        CompleteNext(d1, MarkHeartbeat, [Rearm], c, i + 1);
        MarkAlive(c(i + 1));
        ghost var d2 := View();
        CompleteOne(d2, Rearm, c, i + 2);
        TimerRearm(c(i + 2));
      } else {
        CompleteNothing(d1, c, i + 1);
      }
    }

    method MarkAlive(ghost c: Clock)
      requires Valid()
      modifies this
      ensures Valid() && View() == Exec(old(View()), MarkHeartbeat, c)
    {
      heartbeats := Inc(heartbeats);
      link := LinkOk;
      Counting(Beat);
    }

    method Refuse(v: ValidateResult, c: Clocks, i: nat) returns (rc: int)
      requires Valid()
      modifies this
      ensures Valid() && rc == -EINVAL && View() == Complete(old(View()), [NoteError(v)], c, i)
    {
      hide Exec, Complete;
      CompleteOne(View(), NoteError(v), c, i);
      RecordProtoError(v, c(i));
      rc := -EINVAL;
    }

    /** PUSH_RX: does what its script says; the frame enters the queue exactly when it is
        admissible and there is room. */
    method QueueRxFromLinkd(frame: seq<byte>, c: Clocks, i: nat) returns (rc: int)
      requires Valid()
      modifies this
      ensures Valid() && View() == Complete(old(View()), RxScript(frame), c, i)
      ensures rc ==
        if Admitted(frame) then (if |old(rx)| < depth then 0 else -28) else if |frame| > 272 then -90 else -22
    {
      if |frame| < HEADER_SIZE {
        return -EINVAL;
      }
      if |frame| > MAX_FRAME_SIZE {
        return -EMSGSIZE;
      }
      AdmissionIsExact(frame);
      var h := ParseHeader(frame);
      hide Admitted, Exec, Complete, ParseHeader, RxKind, Validate;
      if h.magic != MAGIC {
        rc := Refuse(BadMagic, c, i);
      } else if h.version != VERSION {
        rc := Refuse(BadVersion, c, i);
      } else if h.payloadLength as nat > MAX_PAYLOAD {
        rc := Refuse(BadLength, c, i);
      } else if |frame| != HEADER_SIZE + h.payloadLength as nat {
        rc := Refuse(BadLength, c, i);
      } else {
        var v := Validate(frame);
        OnlyChecksumIsLeft(frame);
        if v != Ok && v != BadChecksum {
          assert false;
        } else if v == BadChecksum {
          rc := AdmitCorrupt(frame, c, i);
          assert RxScript(frame)[1].PushRx?;
        } else {
          rc := Admit(frame, h.kind == HEARTBEAT, c, i);
          assert RxScript(frame)[0].PushRx?;
        }
      }
    }

    method AdmitCorrupt(frame: seq<byte>, c: Clocks, i: nat) returns (rc: int)
      requires Valid() && HEADER_SIZE <= |frame| <= MAX_FRAME_SIZE
      modifies this
      ensures Valid()
      ensures rc == if |old(rx)| < depth then 0 else -ENOSPC
      ensures View() == Complete(old(View()), [NoteError(BadChecksum), PushRx(frame, RxKind(frame), true)], c, i)
    {
      ghost var push := PushRx(frame, RxKind(frame), true);
      CompleteNext(View(), NoteError(BadChecksum), [push], c, i);
      assert [NoteError(BadChecksum)] + [push] == [NoteError(BadChecksum), push];
      assert [push] + [] == [push];
      hide Exec, Complete, RxKind;
      RecordProtoError(BadChecksum, c(i));
      rc := Admit(frame, false, c, i + 1);
    }

    /** write(): a valid frame enters the TX queue if there is room. */
    method WriteFrame(buf: seq<byte>, c: Clocks, i: nat) returns (rc: int)
      requires Valid()
      modifies this
      ensures Valid() && View() == Complete(old(View()), TxScript(buf), c, i)
      ensures rc ==
        if Sendable(buf) then (if |old(tx)| < depth then |buf| else -11) else if |buf| > 272 then -90 else -22
    {
      hide Exec, Complete, Validate;
      if |buf| < HEADER_SIZE {
        CompleteNothing(View(), c, i);
        return -EINVAL;
      }
      if |buf| > MAX_FRAME_SIZE {
        CompleteNothing(View(), c, i);
        return -EMSGSIZE;
      }
      if Validate(buf) != Ok {
        rc := Refuse(Validate(buf), c, i);
        return;
      }
      CompleteNext(View(), PushTx(buf), [], c, i);
      assert [PushTx(buf)] + [] == [PushTx(buf)];
      rc := PushTxFrame(buf, c(i));
      if rc == -ENOSPC {
        CompleteOne(View(), NoteDrop, c, i + 1);
        RecordDrop(c(i + 1));
        return -EAGAIN;
      }
      CompleteNothing(View(), c, i + 1);
      rc := |buf|;
    }

    /** read(), not blocking: the oldest frame leaves the queue even when the caller's buffer is too small for it. */
    method ReadFrame(count: nat) returns (rc: int, data: seq<byte>)
      requires Valid()
      modifies this
      ensures Valid() && View() == TakeRx(old(View()))
      ensures rc == if old(rx) == [] then -11 else if |old(rx)[0]| <= count then |old(rx)[0]| else -22
      ensures rc > 0 ==> data == old(rx)[0]
    {
      data := [];
      if rx == [] {
        return -EAGAIN, [];
      }
      var slot := rx[0];
      rx := rx[1..];
      history := history.(rxOut := history.rxOut + [slot]);
      if count < |slot| {
        return -EINVAL, [];
      }
      rc, data := |slot|, slot;
    }

    method PopTxFrame() returns (rc: int, data: seq<byte>)
      requires Valid()
      modifies this
      ensures Valid() && View() == TakeTx(old(View()))
      ensures if old(tx) == [] then rc == -11 else rc == 0 && data == old(tx)[0]
    {
      if tx == [] {
        return -EAGAIN, [];
      }
      rc, data := 0, tx[0];
      history := history.(txOut := history.txOut + [tx[0]]);
      tx := tx[1..];
    }

    method ResetCounters()
      modifies this`heartbeats, this`faults, this`dropped, this`timeouts, this`retries, this`highWatermark
      modifies this`errors, this`lastFault
      ensures errors == NO_ERRORS && lastFault == NO_FAULT
      ensures heartbeats == 0 && faults == 0 && dropped == 0 && timeouts == 0 && retries == 0 && highWatermark == 0
    {
      heartbeats, faults, dropped, timeouts, retries, highWatermark := 0, 0, 0, 0, 0, 0;
      errors, lastFault := NO_ERRORS, NO_FAULT;
    }

    method ResetTimeline()
      modifies this`ring
      ensures ring == Timeline.Reset(old(ring))
      ensures Timeline.Shaped(old(ring)) ==> Timeline.Shaped(ring)
    {
      ring := ring.(head := 0, filled := 0);
    }

    ghost method ForgetHistory()
      modifies this`history
      ensures history == old(history).(errors := [], log := [], counted := [], faults := [])
    {
      history := history.(errors := [], log := [], counted := [], faults := []);
    }

    method ResetStatistics()
      requires Valid()
      modifies this
      ensures Valid() && View() == ClearStats(old(View()))
    {
      hide Timeline.Reset, Timeline.Shaped, Sized;
      ResetCounters();
      ResetTimeline();
      ForgetHistory();
    }

    /** Packs a frame of the driver's own and queues it; a full queue costs one drop. */
    method SynthesizeAndPush(b: Synthetic, c: Clocks, i: nat) returns (ok: bool)
      requires Valid()
      modifies this
      ensures Valid() && View() == Complete(old(View()), [Synthesize(b)], c, i)
      ensures ok <==> |old(rx)| < depth
    {
      hide Complete, SynthFrame, NextSeq;
      var push := SynthPush(b, synthSeq, c(i).stamp);
      CompleteNext(View(), Synthesize(b), [], c, i);
      assert [Synthesize(b)] + [] == [Synthesize(b)] && [push] + [] == [push];
      synthSeq := NextSeq(synthSeq);
      assert View() == Exec(old(View()), Synthesize(b), c(i));
      SynthSized(b, old(synthSeq), c(i).stamp);
      CompleteNext(View(), push, [], c, i + 1);
      hide Exec;
      var rc := PushFrame(push.frame, push.kind, false, c(i + 1));
      ok := rc == 0;
      if ok {
        CompleteNothing(View(), c, i + 2);
      } else {
        assert [NoteDrop] + [] == [NoteDrop];
        CompleteOne(View(), NoteDrop, c, i + 2);
        RecordDrop(c(i + 2));
      }
    }

    method RecordFault(kind: byte, detail: nat, ns: nat)
      modifies this`lastFault, this`history
      ensures lastFault == Fault(kind, detail, ns)
      ensures history == old(history).(faults := old(history).faults + [lastFault])
    {
      lastFault := Fault(kind, detail, ns);
      history := history.(faults := history.faults + [lastFault]);
    }

    method CountInjection()
      modifies this`faults, this`history
      ensures faults == Inc(old(faults))
      ensures history == old(history).(counted := old(history).counted + [Injected])
    {
      faults := Inc(faults);
      Counting(Injected);
    }

    method CountFault(fault: byte, c: Clock)
      requires Valid()
      modifies this
      ensures Valid() && View() == Exec(old(View()), Inject(fault), c)
    {
      hide Inc;
      CountInjection();
      RecordFault(fault, 0, c.faultNs);
    }

    method InjectFault(fault: byte, c: Clocks, i: nat)
      requires Valid()
      modifies this
      ensures Valid() && View() == Complete(old(View()), Script(Call.InjectFault(fault)), c, i)
    {
      hide Exec, Complete;
      var b := FaultEvent(fault, 2, 0);
      CompleteNext(View(), Inject(fault), [Synthesize(b)], c, i);
      assert [Inject(fault)] + [Synthesize(b)] == [Inject(fault), Synthesize(b)];
      CountFault(fault, c(i));
      var _ := SynthesizeAndPush(b, c, i + 1);
    }

    method SetHbTimeout(ms: nat, c: Clocks, i: nat) returns (rc: int)
      requires Valid()
      modifies this
      ensures Valid() && View() == Complete(old(View()), Script(Call.SetHbTimeout(ms)), c, i)
      ensures rc == if ms == 0 then -22 else 0
    {
      hide Complete;
      if ms == 0 {
        CompleteNothing(View(), c, i);
        return -EINVAL;
      }
      CompleteNext(View(), SetTimeout(ms), [Rearm], c, i);
      assert [SetTimeout(ms)] + [Rearm] == [SetTimeout(ms), Rearm];
      hbTimeoutMs := ms;
      assert View() == Exec(old(View()), SetTimeout(ms), c(i));
      CompleteOne(View(), Rearm, c, i + 1);
      hide Exec;
      TimerRearm(c(i + 1));
      rc := 0;
    }

    method NoteExpiry(c: Clock)
      requires Valid()
      modifies this
      ensures Valid() && View() == Exec(old(View()), Expire, c)
    {
      hide Inc, Remember;
      CountExpiry();
      RecordFault(TASK_HANG, 1, c.faultNs);
      RecordEvent(Timeline.TimedOut, 0, c);
    }

    method CountExpiry()
      modifies this`timeouts, this`link, this`faults, this`history
      ensures timeouts == Inc(old(timeouts)) && faults == Inc(old(faults)) && link == LinkTimeout
      ensures history == old(history).(counted := old(history).counted + [Expired])
    {
      timeouts := Inc(timeouts);
      link := LinkTimeout;
      faults := Inc(faults);
      Counting(Expired);
    }

    method ScheduleRecovery(ghost c: Clock)
      requires Valid()
      modifies this
      ensures Valid() && View() == Exec(old(View()), Schedule, c)
    {
      workPending := true;
      history := history.(work := history.work + [Scheduled]);
    }

    /** The watchdog's handler, once it has fired. */
    method HbTimerFn(c: Clocks, i: nat)
      requires Valid()
      modifies this
      ensures Valid() && View() == Complete(old(View()), WATCHDOG_SCRIPT, c, i)
    {
      hide Exec, Complete;
      var b := FaultEvent(TASK_HANG, 1, 1);
      ghost var d0 := View();
      CompleteNext(d0, Expire, [Synthesize(b), Schedule], c, i);
      assert [Expire] + [Synthesize(b), Schedule] == WATCHDOG_SCRIPT;
      NoteExpiry(c(i));
      SynthThen(View(), b, [Schedule], c, i + 1);
      assert [Synthesize(b)] + [Schedule] == [Synthesize(b), Schedule];
      var ok := SynthesizeAndPush(b, c, i + 1);
      var next := if ok then i + 3 else i + 4;
      CompleteOne(View(), Schedule, c, next);
      ScheduleRecovery(c(next));
    }

    method CountRecovery()
      modifies this`retries, this`link, this`history
      ensures retries == Inc(old(retries)) && link == LinkRecovering
      ensures history == old(history).(counted := old(history).counted + [Recovered])
    {
      retries := Inc(retries);
      link := LinkRecovering;
      Counting(Recovered);
    }

    method NoteRecovery(c: Clock)
      requires Valid()
      modifies this
      ensures Valid() && View() == Exec(old(View()), Recover, c)
    {
      hide Inc, Remember;
      CountRecovery();
      RecordEvent(Timeline.Recovery, 0, c);
    }

    /** The recovery work's handler, once it has started. */
    method RecoveryWorkFn(c: Clocks, i: nat)
      requires Valid()
      modifies this
      ensures Valid() && View() == Complete(old(View()), WORK_SCRIPT, c, i)
    {
      hide Exec, Complete;
      var b := RecoveryReport(1, LINK_RECOVERING);
      CompleteNext(View(), Recover, [Synthesize(b)], c, i);
      assert [Recover] + [Synthesize(b)] == WORK_SCRIPT;
      NoteRecovery(c(i));
      var _ := SynthesizeAndPush(b, c, i + 1);
    }
  }

  lemma SynthSized(b: Synthetic, seqId: bv16, at: Stamp)
    ensures Sized(SynthPush(b, seqId, at).frame)
  {
  }

  /** Queueing a frame of the driver's own never cuts a script short; a full queue takes one section more. */
  lemma SynthThen(d: Dev, b: Synthetic, tail: seq<Section>, c: Clocks, i: nat)
    requires Timeline.Shaped(d.ring)
    ensures var next := if |d.rx| < d.depth then i + 2 else i + 3;
      Complete(d, [Synthesize(b)] + tail, c, i) == Complete(Complete(d, [Synthesize(b)], c, i), tail, c, next)
  {
    var push := SynthPush(b, d.synthSeq, c(i).stamp);
    CompleteNext(d, Synthesize(b), tail, c, i);
    CompleteNext(d, Synthesize(b), [], c, i);
    assert [Synthesize(b)] + [] == [Synthesize(b)];
    var d1 := Exec(d, Synthesize(b), c(i));
    SynthSized(b, d.synthSeq, c(i).stamp);
    hide Exec, Complete, SynthFrame, SynthPush;
    CompleteNext(d1, push, tail, c, i + 1);
    CompleteNext(d1, push, [], c, i + 1);
    var d2 := Exec(d1, push, c(i + 1));
    CompleteNext(d2, NoteDrop, tail, c, i + 2);
    CompleteNext(d2, NoteDrop, [], c, i + 2);
    CompleteNothing(d2, c, i + 2);
    CompleteNothing(Exec(d2, NoteDrop, c(i + 2)), c, i + 3);
  }

  /** Past the header checks, validation can only find fault with the checksum. */
  lemma OnlyChecksumIsLeft(frame: seq<byte>)
    requires |frame| >= HEADER_SIZE
    ensures var h := ParseHeader(frame);
      h.magic == MAGIC && h.version == VERSION && h.payloadLength as nat <= MAX_PAYLOAD
      && |frame| == HEADER_SIZE + h.payloadLength as nat ==>
        Validate(frame) == Ok || Validate(frame) == BadChecksum
  {
  }

  function Proceeds(s: System, t: nat, c: Clocks, i: nat, n: nat): (s': System)
    requires Timeline.Shaped(s.dev.ring)
    ensures Timeline.Shaped(s'.dev.ring)
    decreases n
  {
    if n == 0 then s else Proceeds(Step(s, t, Proceed(c(i))), t, c, i + 1, n - 1)
  }

  /** Carrying a script out, each section with readings of its own, is a run of the step system in
      which no other thread moves. */
  lemma {:induction false} CompleteInSteps(s: System, t: nat, c: Clocks, i: nat)
    requires Timeline.Shaped(s.dev.ring) && t in s.threads
    ensures exists n: nat ::
      Proceeds(s, t, c, i, n) == System(Complete(s.dev, s.threads[t], c, i), s.threads[t := []])
    decreases Weight(s.threads[t])
  {
    var script := s.threads[t];
    if script == [] {
      assert s.threads[t := []] == s.threads;
      assert Proceeds(s, t, c, i, 0) == System(Complete(s.dev, script, c, i), s.threads[t := []]);
    } else {
      ContinueIsLighter(s.dev, script, c(i));
      hide Exec, Continue;
      var s1 := Step(s, t, Proceed(c(i)));
      CompleteInSteps(s1, t, c, i + 1);
      var n: nat :|
        Proceeds(s1, t, c, i + 1, n) == System(Complete(s1.dev, s1.threads[t], c, i + 1), s1.threads[t := []]);
      assert s1.threads[t := []] == s.threads[t := []];
      assert Proceeds(s, t, c, i, n + 1) == Proceeds(s1, t, c, i + 1, n);
    }
  }

  lemma CompleteNothing(d: Dev, c: Clocks, i: nat)
    requires Timeline.Shaped(d.ring)
    ensures Complete(d, [], c, i) == d
  {
  }
}
