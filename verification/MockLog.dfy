/** What the mock run writes about its frames, and what the replay does with any line: in terms of the
    frames, the lines and the states alone. */
module MockLog {
  import opened Arithmetic
  import opened Sequences
  import opened Wire
  import opened Framing
  import opened Health
  import opened Json
  import opened Log
  import opened Supervisor
  import opened Replays

  // ----- Every frame is logged and answered once -----

  /** The events of some kinds, in order. */
  function Pick(log: seq<LogEvent>, kinds: set<LogKind>): seq<LogEvent>
    decreases |log|
  {
    if log == [] then []
    else
      var last := log[|log| - 1];
      Pick(log[..|log| - 1], kinds) + if last.kind in kinds then [last] else []
  }

  lemma PickSnoc(m: Mock, e: LogEvent, kinds: set<LogKind>)
    ensures Pick(Replays.Push(m, e).log, kinds) == Pick(m.log, kinds) + if e.kind in kinds then [e] else []
  {
    assert (m.log + [e])[..|m.log|] == m.log;
  }

  lemma PickDrive(m: Mock, e: HealthEvent, kinds: set<LogKind>)
    requires StateChange !in kinds
    ensures Pick(Drive(m, e).log, kinds) == Pick(m.log, kinds)
    ensures var m' := Drive(m, e); m' == m.(fsm := Next(m.fsm, e), told := m'.told, log := m'.log)
  {
    hide Next, Told, StateName, EventName, Pick;
    var d := m.(fsm := Next(m.fsm, e), told := m.told + Told(m.fsm, e));
    PickSnoc(d, Change(Transition(m.fsm, Next(m.fsm, e), e)), kinds);
    NothingAdded(Pick(m.log, kinds));
  }

  /** The events that report or answer a frame. */
  const ABOUT: set<LogKind> := {RxFrame, Duplicate, ChecksumError, TxAck, TxNack}

  function AboutFrames(log: seq<LogEvent>): seq<LogEvent> {
    Pick(log, ABOUT)
  }

  function Event(f: ParsedFrame, kind: LogKind, name: string, fault: string, detail: string): LogEvent {
    LogEvent(f.header.timestampMs as int, kind, name, f.header.sequenceId as int, fault, "", "", detail)
  }

  /** What the log should say of a frame: a damaged one is reported and refused, with the number of the
      refusal; a repeated one is reported; a new one is reported and, if a heartbeat, acknowledged. */
  function Entry(f: ParsedFrame, seen: bool, refusals: nat): seq<LogEvent> {
    var name := FrameTypeName(f.header.kind);
    if f.result != Ok then
      [Event(f, ChecksumError, name, "", "validate_result=" + Dec(ResultCode(f.result))),
       Event(f, TxNack, "NACK", "", "nack #" + Dec(refusals + 1))]
    else if seen then [Event(f, Duplicate, name, "", "")]
    else
      var fault := if f.header.kind == 0x03 && |f.payload| >= 8 then FaultTypeName(f.payload[0]) else "";
      [Event(f, RxFrame, name, fault, "")] + if f.header.kind == 0x01 then [Event(f, TxAck, "ACK", "", "")] else []
  }

  /** How many of the frames are damaged. */
  function Damaged(frames: seq<ParsedFrame>): nat
    decreases |frames|
  {
    if frames == [] then 0
    else Damaged(frames[..|frames| - 1]) + if frames[|frames| - 1].result == Ok then 0 else 1
  }

  function Entries(frames: seq<ParsedFrame>): seq<LogEvent>
    decreases |frames|
  {
    if frames == [] then []
    else
      var n := |frames| - 1;
      var repeated := exists j :: 0 <= j < n && KeyOf(frames[j]) == KeyOf(frames[n]);
      Entries(frames[..n]) + Entry(frames[n], repeated, Damaged(frames[..n]))
  }

  lemma AboutSnoc(m: Mock, e: LogEvent)
    ensures AboutFrames(Replays.Push(m, e).log) == AboutFrames(m.log) + if e.kind in ABOUT then [e] else []
  {
    hide Pick;
    PickSnoc(m, e, ABOUT);
  }

  lemma AboutDrive(m: Mock, e: HealthEvent)
    ensures AboutFrames(Drive(m, e).log) == AboutFrames(m.log) && Drive(m, e).nacks == m.nacks
  {
    hide Pick, Drive;
    PickDrive(m, e, ABOUT);
  }

  lemma AboutLate(m: Mock, f: ParsedFrame, gap: int, timeout: bv32)
    ensures AboutFrames(Late(m, f, gap, timeout).log) == AboutFrames(m.log) && Late(m, f, gap, timeout).nacks == m.nacks
  {
    hide Drive, AboutFrames, NextSeq, Dec, MsOf, SeqNo, TimeOf;
    NothingAdded(AboutFrames(m.log));
    var m1 := Replays.Push(m, LateEvent(f, gap, timeout));
    AboutSnoc(m, LateEvent(f, gap, timeout));
    AboutDrive(m1, HeartbeatTimeout);
    var m2 := Drive(m1, HeartbeatTimeout).(txSeq := NextSeq(m.txSeq));
    AboutSnoc(m2, CommandEvent(f, m.txSeq));
    AboutDrive(Replays.Push(m2, CommandEvent(f, m.txSeq)), RecoverySent);
  }

  lemma AboutBeat(m: Mock, f: ParsedFrame, timeout: bv32)
    ensures AboutFrames(Beat(m, f, timeout).log) == AboutFrames(m.log) + [Event(f, TxAck, "ACK", "", "")]
    ensures Beat(m, f, timeout).nacks == m.nacks
  {
    hide Drive, AboutFrames, Late, TooLate, Gap;
    AboutLate(m, f, Gap(m.lastTs, f.header.timestampMs), timeout);
    var m1 := Checked(m, f, timeout).(haveLast := true, lastTs := f.header.timestampMs);
    AboutDrive(m1, BeatEvent(m1.fsm));
    var m2 := Drive(m1, BeatEvent(m1.fsm));
    var won := Blank(TimeOf(f), RecoveryResult).(detail := "RECOVERY_SUCCESS");
    var ack := Blank(TimeOf(f), TxAck).(frameType := "ACK", seqId := SeqNo(f.header.sequenceId));
    AboutSnoc(m2, won);
    NothingAdded(AboutFrames(m2.log));
    AboutSnoc(m2, ack);
    AboutSnoc(Replays.Push(m2, won).(inRecovery := false), ack);
    assert ack == Event(f, TxAck, "ACK", "", "");
  }

  lemma AboutTaken(m: Mock, f: ParsedFrame, timeout: bv32, refusals: nat)
    requires f.result == Ok
    ensures AboutFrames(Taken(m, f, timeout).log) == AboutFrames(m.log) + Entry(f, false, refusals)
    ensures Taken(m, f, timeout).nacks == m.nacks
  {
    hide AboutFrames, Beat, Drive, FrameTypeName, FaultTypeName;
    var rx := RxEvent(f);
    var m1 := Replays.Push(m, rx);
    AboutSnoc(m, rx);
    AboutBeat(m1, f, timeout);
    AboutDrive(m1, CriticalFault);
    Regroup(AboutFrames(m.log), [rx], [Event(f, TxAck, "ACK", "", "")]);
    NothingAdded([rx]);
  }

  lemma AboutRefused(m: Mock, f: ParsedFrame)
    requires f.result != Ok
    ensures AboutFrames(Refused(m, f).log) == AboutFrames(m.log) + Entry(f, false, m.nacks)
    ensures Entry(f, true, m.nacks) == Entry(f, false, m.nacks) && Refused(m, f).nacks == m.nacks + 1
  {
    hide AboutFrames, FrameTypeName, Dec, ResultCode;
    var entry := Entry(f, false, m.nacks);
    AboutSnoc(m, entry[0]);
    AboutSnoc(Replays.Push(m, entry[0]), entry[1]);
    Regroup(AboutFrames(m.log), [entry[0]], [entry[1]]);
    assert [entry[0]] + [entry[1]] == entry;
  }

  lemma AboutRepeated(m: Mock, f: ParsedFrame)
    requires f.result == Ok
    ensures var e := Blank(TimeOf(f), Duplicate).(frameType := FrameTypeName(f.header.kind),
                                                  seqId := SeqNo(f.header.sequenceId));
      AboutFrames(Replays.Push(m, e).log) == AboutFrames(m.log) + Entry(f, true, m.nacks)
  {
    hide AboutFrames, FrameTypeName;
    AboutSnoc(m, Event(f, Duplicate, FrameTypeName(f.header.kind), "", ""));
  }

  lemma AboutOne(m: Mock, f: ParsedFrame, timeout: bv32)
    ensures var m' := OnMockFrame(m, f, timeout);
      && AboutFrames(m'.log) == AboutFrames(m.log) + Entry(f, KeyOf(f) in m.seen, m.nacks)
      && m'.nacks == m.nacks + if f.result == Ok then 0 else 1
  {
    hide AboutFrames, Entry, Taken, Refused, FrameTypeName, TimeOf, SeqNo;
    var m1 := m.(seen := m.seen + {KeyOf(f)});
    if f.result != Ok {
      AboutRefused(m1, f);
    } else if KeyOf(f) in m.seen {
      AboutRepeated(m1, f);
    } else {
      AboutTaken(m1, f, timeout, m.nacks);
    }
  }

  /** The mock's log says of every frame exactly what it should, once and in order. */
  lemma {:induction false} LogCoversFrames(frames: seq<ParsedFrame>, timeout: bv32)
    ensures AboutFrames(MockRun(frames, timeout).log) == Entries(frames)
    ensures MockRun(frames, timeout).nacks == Damaged(frames)
    decreases |frames|
  {
    hide AboutFrames, Entry, OnMockFrame;
    if frames == [] {
      assert AboutFrames([]) == [] by { NoEvents(); }
    } else {
      var n := |frames| - 1;
      var front := frames[..n];
      LogCoversFrames(front, timeout);
      SeenSoFar(front, timeout);
      AboutOne(MockRun(front, timeout), frames[n], timeout);
      assert (exists j :: 0 <= j < |front| && KeyOf(front[j]) == KeyOf(frames[n]))
          <==> exists j :: 0 <= j < n && KeyOf(frames[j]) == KeyOf(frames[n]) by { SameKeys(frames, n); }
    }
  }

  lemma NoEvents()
    ensures AboutFrames([]) == []
  {
  }

  lemma SameKeys(frames: seq<ParsedFrame>, n: nat)
    requires n < |frames|
    ensures (exists j :: 0 <= j < |frames[..n]| && KeyOf(frames[..n][j]) == KeyOf(frames[n]))
        <==> exists j :: 0 <= j < n && KeyOf(frames[j]) == KeyOf(frames[n])
  {
    hide KeyOf;
    if j :| 0 <= j < n && KeyOf(frames[j]) == KeyOf(frames[n]) {
      assert frames[..n][j] == frames[j];
    }
    if j :| 0 <= j < n && KeyOf(frames[..n][j]) == KeyOf(frames[n]) {
      assert frames[j] == frames[..n][j];
    }
  }

  // ----- Late heartbeats -----

  const ALARMS: set<LogKind> := {LogKind.Timeout, TxCommand, RecoveryResult}

  /** Milliseconds from one timestamp to the next, on a 32-bit clock. */
  function Elapsed(last: bv32, now: bv32): int {
    if MsOf(last) <= MsOf(now) then MsOf(now) - MsOf(last) else 0x1_0000_0000 + MsOf(now) - MsOf(last)
  }

  /** The frame is a new heartbeat and comes more than the timeout after the one before it. */
  predicate ComesLate(frames: seq<ParsedFrame>, n: nat, timeout: bv32)
    requires n < |frames|
  {
    var heard, f := Heard(frames[..n]), frames[n];
    Fresh(frames, n) && f.header.kind == 0x01 && heard != []
    && Elapsed(heard[|heard| - 1], f.header.timestampMs) > MsOf(timeout)
  }

  function LateText(gap: int, timeout: bv32): string {
    "gap=" + Dec(gap) + "ms > " + Dec(MsOf(timeout)) + "ms"
  }

  /** What the log should say of a late heartbeat: the timeout and, unless a critical fault has stopped
      the machine, the command with the next id and its success. */
  function AlarmFor(f: ParsedFrame, gap: int, timeout: bv32, stopped: bool, commands: nat): seq<LogEvent> {
    var ts := f.header.timestampMs as int;
    [LogEvent(ts, LogKind.Timeout, "HEARTBEAT", -1, "", "", "", LateText(gap, timeout))]
    + if stopped then []
      else [LogEvent(ts, TxCommand, "COMMAND", commands % 0x1_0000, "", "", "", "REQUEST_RECOVERY"),
            LogEvent(ts, RecoveryResult, "", -1, "", "", "", "RECOVERY_SUCCESS")]
  }

  /** How many recoveries were commanded. */
  function Commands(frames: seq<ParsedFrame>, timeout: bv32): nat
    decreases |frames|
  {
    if frames == [] then 0
    else
      var n := |frames| - 1;
      Commands(frames[..n], timeout) + if ComesLate(frames, n, timeout) && !Tripped(frames[..n]) then 1 else 0
  }

  function Alarms(frames: seq<ParsedFrame>, timeout: bv32): seq<LogEvent>
    decreases |frames|
  {
    if frames == [] then []
    else
      var n := |frames| - 1;
      var front, heard, f := frames[..n], Heard(frames[..n]), frames[n];
      Alarms(front, timeout) +
        if !ComesLate(frames, n, timeout) then []
        else
          var gap := Elapsed(heard[|heard| - 1], f.header.timestampMs);
          AlarmFor(f, gap, timeout, Tripped(front), Commands(front, timeout))
  }

  lemma AlarmSnoc(m: Mock, e: LogEvent)
    ensures Pick(Replays.Push(m, e).log, ALARMS) == Pick(m.log, ALARMS) + if e.kind in ALARMS then [e] else []
  {
    hide Pick;
    PickSnoc(m, e, ALARMS);
  }

  /** A late heartbeat while HEALTHY. */
  lemma AlarmHealthy(m: Mock, f: ParsedFrame, gap: int, timeout: bv32, commands: nat)
    requires m.fsm.Healthy? && IdValue(m.txSeq) == commands % 0x1_0000
    ensures var m' := Beaten(Late(m, f, gap, timeout), f);
      && Pick(m'.log, ALARMS) == Pick(m.log, ALARMS) + AlarmFor(f, gap, timeout, false, commands)
      && !m'.inRecovery && IdValue(m'.txSeq) == (commands + 1) % 0x1_0000
  {
    hide Drive, Pick, NextSeq, Dec, IdValue;
    var late, command := LateEvent(f, gap, timeout), CommandEvent(f, m.txSeq);
    var won := Blank(TimeOf(f), RecoveryResult).(detail := "RECOVERY_SUCCESS");
    var ack := Blank(TimeOf(f), TxAck).(frameType := "ACK", seqId := SeqNo(f.header.sequenceId));
    AlarmSnoc(m, late);
    var m1 := Replays.Push(m, late);
    PickDrive(m1, HeartbeatTimeout, ALARMS);
    var m2 := Drive(m1, HeartbeatTimeout).(txSeq := NextSeq(m.txSeq));
    AlarmSnoc(m2, command);
    var m3 := Replays.Push(m2, command);
    PickDrive(m3, RecoverySent, ALARMS);
    var m4 := Drive(m3, RecoverySent).(inRecovery := true, haveLast := true, lastTs := f.header.timestampMs);
    PickDrive(m4, HeartbeatRestored, ALARMS);
    var m5 := Drive(m4, HeartbeatRestored);
    AlarmSnoc(m5, won);
    AlarmSnoc(Replays.Push(m5, won).(inRecovery := false), ack);
    NothingAdded(Pick(m.log, ALARMS) + [late] + [command] + [won]);
    assert Pick(m.log, ALARMS) + [late] + [command] + [won] == Pick(m.log, ALARMS) + ([late] + [command, won]);
    IdIsValue(m.txSeq);
    NextSeqValue(m.txSeq);
    NextModulo(commands, 0x1_0000);
  }

  lemma IdIsValue(id: bv16)
    ensures SeqNo(id) == IdValue(id)
  {
  }

  /** A heartbeat in SAFE_MODE, late or not, and one in time in any state the mock can be in. */
  lemma AlarmStopped(m: Mock, f: ParsedFrame, gap: int, timeout: bv32)
    requires m.fsm.SafeMode? && !m.inRecovery
    ensures var m' := Beaten(Late(m, f, gap, timeout), f);
      && Pick(m'.log, ALARMS) == Pick(m.log, ALARMS) + AlarmFor(f, gap, timeout, true, 0)
      && !m'.inRecovery && m'.txSeq == m.txSeq
  {
    hide Drive, Pick, Dec;
    var late := LateEvent(f, gap, timeout);
    AlarmSnoc(m, late);
    PickDrive(Replays.Push(m, late), HeartbeatTimeout, ALARMS);
    NothingAdded([late]);
    AlarmInTime(Late(m, f, gap, timeout), f);
  }

  lemma AlarmInTime(m: Mock, f: ParsedFrame)
    requires !m.inRecovery
    ensures var m' := Beaten(m, f);
      Pick(m'.log, ALARMS) == Pick(m.log, ALARMS) && !m'.inRecovery && m'.txSeq == m.txSeq
  {
    hide Drive, Pick;
    var m0 := m.(haveLast := true, lastTs := f.header.timestampMs);
    PickDrive(m0, BeatEvent(m.fsm), ALARMS);
    var ack := Blank(TimeOf(f), TxAck).(frameType := "ACK", seqId := SeqNo(f.header.sequenceId));
    AlarmSnoc(Drive(m0, BeatEvent(m.fsm)), ack);
    NothingAdded(Pick(m.log, ALARMS));
  }

  /** A frame that is not a new heartbeat raises no alarm. */
  lemma AlarmQuiet(m: Mock, f: ParsedFrame, timeout: bv32)
    requires f.result != Ok || KeyOf(f) in m.seen || f.header.kind != 0x01
    ensures var m' := OnMockFrame(m, f, timeout);
      Pick(m'.log, ALARMS) == Pick(m.log, ALARMS) && m'.inRecovery == m.inRecovery && m'.txSeq == m.txSeq
  {
    hide Drive, Pick, Dec, FrameTypeName, FaultTypeName, ResultCode, Severity;
    var m0 := m.(seen := m.seen + {KeyOf(f)});
    NothingAdded(Pick(m.log, ALARMS));
    if f.result != Ok {
      var refused := Refused(m0, f);
      AlarmSnoc(m0, refused.log[|m.log|]);
      AlarmSnoc(Replays.Push(m0, refused.log[|m.log|]), refused.log[|m.log| + 1]);
    } else if KeyOf(f) in m.seen {
      AlarmSnoc(m0, OnMockFrame(m, f, timeout).log[|m.log|]);
    } else {
      AlarmSnoc(m0, RxEvent(f));
      PickDrive(Replays.Push(m0, RxEvent(f)), CriticalFault, ALARMS);
    }
  }

  lemma GapIsElapsedTime(last: bv32, now: bv32, timeout: bv32)
    ensures Gap(last, now) == Elapsed(last, now)
    ensures TooLate(last, now, timeout) <==> Elapsed(last, now) > MsOf(timeout)
  {
    hide Gap, MsOf;
    GapIsElapsed(last, now);
  }

  /** A new heartbeat, in the state the mock is in when it comes. */
  lemma AlarmBeat(m: Mock, f: ParsedFrame, heard: seq<bv32>, tripped: bool, timeout: bv32, commands: nat)
    requires InStep(m, heard, tripped, timeout) && !m.inRecovery && IdValue(m.txSeq) == commands % 0x1_0000
    requires f.header.kind == 0x01 && f.result == Ok && KeyOf(f) !in m.seen
    ensures var m' := OnMockFrame(m, f, timeout);
      var late := heard != [] && Elapsed(heard[|heard| - 1], f.header.timestampMs) > MsOf(timeout);
      && Pick(m'.log, ALARMS) == Pick(m.log, ALARMS) +
           (if !late then []
            else AlarmFor(f, Elapsed(heard[|heard| - 1], f.header.timestampMs), timeout, tripped, commands))
      && !m'.inRecovery
      && IdValue(m'.txSeq) == (if late && !tripped then commands + 1 else commands) % 0x1_0000
  {
    hide Drive, Pick, Beaten, Late, Gap, TooLate, Elapsed, AlarmFor, IdValue, Played, RxEvent, LastLate;
    var m0 := m.(seen := m.seen + {KeyOf(f)});
    var m1 := Replays.Push(m0, RxEvent(f));
    assert RxEvent(f).kind == RxFrame by { RxKindIs(f); }
    AlarmSnoc(m0, RxEvent(f));
    NothingAdded(Pick(m.log, ALARMS));
    if heard == [] {
      AlarmInTime(m1, f);
    } else {
      var last := heard[|heard| - 1];
      GapIsElapsedTime(last, f.header.timestampMs, timeout);
      if !TooLate(last, f.header.timestampMs, timeout) {
        AlarmInTime(m1, f);
      } else if tripped {
        AlarmStopped(m1, f, Gap(last, f.header.timestampMs), timeout);
        StoppedAlarm(f, Gap(last, f.header.timestampMs), timeout, commands);
      } else {
        AlarmHealthy(m1, f, Gap(last, f.header.timestampMs), timeout, commands);
      }
    }
  }

  lemma RxKindIs(f: ParsedFrame)
    ensures RxEvent(f).kind == RxFrame
  {
    hide TimeOf, SeqNo, FrameTypeName, FaultTypeName;
  }

  lemma StoppedAlarm(f: ParsedFrame, gap: int, timeout: bv32, commands: nat)
    ensures AlarmFor(f, gap, timeout, true, commands) == AlarmFor(f, gap, timeout, true, 0)
  {
    hide LateText;
  }

  /** The mock's log raises exactly the alarms its frames call for, in order. */
  lemma {:induction false} LogRaisesAlarms(frames: seq<ParsedFrame>, timeout: bv32)
    ensures var m := MockRun(frames, timeout);
      && Pick(m.log, ALARMS) == Alarms(frames, timeout)
      && !m.inRecovery && IdValue(m.txSeq) == Commands(frames, timeout) % 0x1_0000
    decreases |frames|
  {
    hide Pick, OnMockFrame, InStep, Elapsed, AlarmFor, IdValue, Heard, Tripped, Fresh;
    if frames == [] {
      NothingRaised();
    } else {
      var n := |frames| - 1;
      var front, f := frames[..n], frames[n];
      var m := MockRun(front, timeout);
      LogRaisesAlarms(front, timeout);
      MockInStep(front, timeout);
      SeenSoFar(front, timeout);
      FreshIsUnseen(frames, front, m);
      NothingAdded(Alarms(front, timeout));
      if Fresh(frames, n) && f.header.kind == 0x01 {
        AlarmBeat(m, f, Heard(front), Tripped(front), timeout, Commands(front, timeout));
      } else {
        AlarmQuiet(m, f, timeout);
      }
    }
  }

  lemma NothingRaised()
    ensures Pick([], ALARMS) == [] && IdValue(0) == 0
  {
  }

  // ----- Changes of state -----

  function ChangeOf(t: Transition): LogEvent {
    LogEvent(0, StateChange, "", -1, "", StateName(t.from), StateName(t.to), EventName(t.event))
  }

  function ChangesOf(told: seq<Transition>): (r: seq<LogEvent>)
    ensures |r| == |told| && forall i :: 0 <= i < |told| ==> r[i] == ChangeOf(told[i])
  {
    seq(|told|, i requires 0 <= i < |told| => ChangeOf(told[i]))
  }

  /** The log's changes of state are the transitions told. */
  predicate Tells(m: Mock) {
    Pick(m.log, {StateChange}) == ChangesOf(m.told)
  }

  lemma TellsPush(m: Mock, e: LogEvent)
    requires Tells(m) && e.kind != StateChange
    ensures Tells(Replays.Push(m, e))
  {
    hide Pick;
    PickSnoc(m, e, {StateChange});
    NothingAdded(Pick(m.log, {StateChange}));
  }

  lemma TellsDrive(m: Mock, e: HealthEvent)
    requires Tells(m)
    ensures Tells(Drive(m, e))
  {
    hide Pick, Next, StateName, EventName;
    var t := Transition(m.fsm, Next(m.fsm, e), e);
    var d := m.(fsm := Next(m.fsm, e), told := m.told + Told(m.fsm, e));
    NothingAdded(m.told);
    if Next(m.fsm, e) != m.fsm {
      PickSnoc(d, Change(t), {StateChange});
      assert ChangesOf(m.told + [t]) == ChangesOf(m.told) + [ChangeOf(t)];
    }
  }

  lemma TellsLate(m: Mock, f: ParsedFrame, gap: int, timeout: bv32)
    requires Tells(m)
    ensures Tells(Late(m, f, gap, timeout))
  {
    hide Drive, Pick, ChangesOf, Dec, NextSeq;
    TellsPush(m, LateEvent(f, gap, timeout));
    TellsDrive(Replays.Push(m, LateEvent(f, gap, timeout)), HeartbeatTimeout);
    var m1 := Drive(Replays.Push(m, LateEvent(f, gap, timeout)), HeartbeatTimeout).(txSeq := NextSeq(m.txSeq));
    TellsPush(m1, CommandEvent(f, m.txSeq));
    TellsDrive(Replays.Push(m1, CommandEvent(f, m.txSeq)), RecoverySent);
  }

  lemma TellsBeaten(m: Mock, f: ParsedFrame)
    requires Tells(m)
    ensures Tells(Beaten(m, f))
  {
    hide Drive, Pick, ChangesOf;
    var m0 := m.(haveLast := true, lastTs := f.header.timestampMs);
    TellsDrive(m0, BeatEvent(m.fsm));
    var m1 := Drive(m0, BeatEvent(m.fsm));
    var won := Blank(TimeOf(f), RecoveryResult).(detail := "RECOVERY_SUCCESS");
    var ack := Blank(TimeOf(f), TxAck).(frameType := "ACK", seqId := SeqNo(f.header.sequenceId));
    TellsPush(m1, won);
    TellsPush(m1, ack);
    TellsPush(Replays.Push(m1, won).(inRecovery := false), ack);
  }

  lemma TellsTaken(m: Mock, f: ParsedFrame, timeout: bv32)
    requires Tells(m)
    ensures Tells(Taken(m, f, timeout))
  {
    hide Drive, Tells, Late, Beaten, RxEvent, Critical, Gap, TooLate;
    var m1 := Replays.Push(m, RxEvent(f));
    RxKindIs(f);
    TellsPush(m, RxEvent(f));
    TellsDrive(m1, CriticalFault);
    TellsLate(m1, f, Gap(m1.lastTs, f.header.timestampMs), timeout);
    TellsBeaten(Checked(m1, f, timeout), f);
  }

  lemma TellsOther(m: Mock, m': Mock)
    requires Tells(m) && m'.log == m.log && m'.told == m.told
    ensures Tells(m')
  {
    hide Pick, ChangesOf;
  }

  lemma TellsOne(m: Mock, f: ParsedFrame, timeout: bv32)
    requires Tells(m)
    ensures Tells(OnMockFrame(m, f, timeout))
  {
    hide Tells, Taken, Dec, FrameTypeName, ResultCode, TimeOf, SeqNo;
    var m0 := m.(seen := m.seen + {KeyOf(f)});
    TellsOther(m, m0);
    if f.result != Ok {
      var refused := Refused(m0, f);
      var e, nack := refused.log[|m.log|], refused.log[|m.log| + 1];
      TellsPush(m0, e);
      TellsPush(Replays.Push(m0, e), nack);
      TellsOther(Replays.Push(Replays.Push(m0, e), nack), refused);
    } else if KeyOf(f) in m.seen {
      TellsPush(m0, OnMockFrame(m, f, timeout).log[|m.log|]);
    } else {
      TellsTaken(m0, f, timeout);
    }
  }

  /** The log records every transition of the mock run and no other, with its states and its event. */
  lemma {:induction false} LogTellsTransitions(frames: seq<ParsedFrame>, timeout: bv32)
    ensures Tells(MockRun(frames, timeout))
    decreases |frames|
  {
    hide Tells, OnMockFrame;
    if frames == [] {
      NothingTold();
    } else {
      LogTellsTransitions(frames[..|frames| - 1], timeout);
      TellsOne(MockRun(frames[..|frames| - 1], timeout), frames[|frames| - 1], timeout);
    }
  }

  lemma NothingTold()
    ensures Tells(MOCK_START)
  {
  }

  // ----- What a critical fault and a line are -----

  /** A critical fault event is one whose second byte of payload is 2 or more. */
  lemma CriticalMeans(f: ParsedFrame)
    ensures Critical(f) <==> f.header.kind == 0x03 && |f.payload| >= 8 && f.payload[1] >= 2
  {
  }

  /** The state after any line at all, by what stands in its fields. */
  lemma LineMoves(r: Replay, line: string)
    ensures var h, h' := r.fsm, OnLine(r, line).fsm;
      var kind, name := ExtractString(line, "kind"), OrEmpty(ExtractString(line, "frame_type"));
      var detail := OrEmpty(ExtractString(line, "detail"));
      && (h' != h ==> line != "" && (kind == Some("rx_frame") || kind == Some("timeout") || kind == Some("tx_command")))
      && (line != "" && kind == Some("rx_frame") && name == "HEARTBEAT" ==>
            h' == if h == Booting || h == Recovering then Healthy else h)
      && (line != "" && kind == Some("rx_frame") && name == "FAULT_EVENT" ==>
            h' == if (Contains(detail, "critical") || Contains(detail, "severity=2")) && (h == Healthy || h == Degraded)
                  then SafeMode else h)
      && (line != "" && kind == Some("timeout") ==> h' == if h == Healthy then Degraded else h)
      && (line != "" && kind == Some("tx_command") ==>
            h' == if Contains(detail, "REQUEST_RECOVERY") && h == Degraded then Recovering else h)
  {
    hide ExtractString, Contains;
    WordsDiffer();
  }

  lemma WordsDiffer()
    ensures "rx_frame" != "timeout" && "rx_frame" != "tx_command" && "timeout" != "tx_command"
    ensures "HEARTBEAT" != "FAULT_EVENT"
  {
    assert "rx_frame"[0] == 'r' && "timeout"[1] == 'i' && "tx_command"[1] == 'x' && "tx_command"[0] == 't';
    assert "HEARTBEAT"[0] == 'H' && "FAULT_EVENT"[0] == 'F';
  }

  /** The names and codes in the log. */
  lemma NamesAre()
    ensures FrameTypeName(0x01) == "HEARTBEAT" && FrameTypeName(0x02) == "TELEMETRY"
    ensures FrameTypeName(0x03) == "FAULT_EVENT" && FrameTypeName(0x04) == "COMMAND" && FrameTypeName(0x05) == "ACK"
    ensures FrameTypeName(0x06) == "NACK" && FrameTypeName(0x07) == "RECOVERY_REPORT"
    ensures FaultTypeName(0) == "NONE" && FaultTypeName(1) == "HEARTBEAT_STOP"
    ensures FaultTypeName(2) == "CHECKSUM_ERROR" && FaultTypeName(3) == "CRITICAL"
  {
  }

  lemma CodesAre()
    ensures ResultCode(BadMagic) == 1 && ResultCode(BadVersion) == 2
    ensures ResultCode(BadLength) == 3 && ResultCode(BadChecksum) == 4
    ensures StateName(Booting) == "BOOTING" && StateName(Healthy) == "HEALTHY" && StateName(Degraded) == "DEGRADED"
    ensures StateName(Recovering) == "RECOVERING" && StateName(Failed) == "FAILED" && StateName(SafeMode) == "SAFE_MODE"
    ensures EventName(HeartbeatOk) == "HEARTBEAT_OK" && EventName(HeartbeatTimeout) == "HEARTBEAT_TIMEOUT"
    ensures EventName(RecoverySent) == "RECOVERY_SENT" && EventName(HeartbeatRestored) == "HEARTBEAT_RESTORED"
    ensures EventName(RecoveryFailed) == "RECOVERY_FAILED" && EventName(CriticalFault) == "CRITICAL_FAULT"
  {
  }

  lemma KindNamesAre()
    ensures KindName(RxFrame) == "rx_frame" && KindName(TxAck) == "tx_ack" && KindName(TxNack) == "tx_nack"
    ensures KindName(TxCommand) == "tx_command" && KindName(LogKind.Timeout) == "timeout"
    ensures KindName(StateChange) == "state_change" && KindName(Duplicate) == "duplicate"
    ensures KindName(ChecksumError) == "checksum_error" && KindName(RecoveryResult) == "recovery_result"
  {
  }
}
