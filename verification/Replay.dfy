/** Two ways of driving the health state machine: the mock run over recorded frames, which
    writes the log, and the replay, which reads the log back. */
module Replays {
  import opened Crc
  import opened Wire
  import opened Framing
  import opened Health
  import opened Json
  import opened Log
  import opened Supervisor

  // ----- Names -----

  function FrameTypeName(kind: byte): string {
    if kind == HEARTBEAT then "HEARTBEAT"
    else if kind == TELEMETRY then "TELEMETRY"
    else if kind == FAULT_EVENT then "FAULT_EVENT"
    else if kind == COMMAND then "COMMAND"
    else if kind == ACK then "ACK"
    else if kind == NACK then "NACK"
    else if kind == RECOVERY_REPORT then "RECOVERY_REPORT"
    else ""
  }

  function FaultTypeName(fault: byte): string {
    if fault == 0 then "NONE"
    else if fault == 1 then "HEARTBEAT_STOP"
    else if fault == 2 then "CHECKSUM_ERROR"
    else if fault == 3 then "CRITICAL"
    else ""
  }

  function StateName(s: HealthState): string {
    match s
    case Booting => "BOOTING"
    case Healthy => "HEALTHY"
    case Degraded => "DEGRADED"
    case Recovering => "RECOVERING"
    case Failed => "FAILED"
    case SafeMode => "SAFE_MODE"
  }

  function EventName(e: HealthEvent): string {
    match e
    case HeartbeatOk => "HEARTBEAT_OK"
    case HeartbeatTimeout => "HEARTBEAT_TIMEOUT"
    case RecoverySent => "RECOVERY_SENT"
    case HeartbeatRestored => "HEARTBEAT_RESTORED"
    case RecoveryFailed => "RECOVERY_FAILED"
    case CriticalFault => "CRITICAL_FAULT"
  }

  function ResultCode(v: ValidateResult): int {
    match v
    case Ok => 0
    case BadMagic => 1
    case BadVersion => 2
    case BadLength => 3
    case BadChecksum => 4
  }

  // ----- The mock run -----

  datatype Mock = Mock(
    fsm: HealthState, seen: set<(byte, bv16)>,
    haveLast: bool, lastTs: bv32, inRecovery: bool, txSeq: bv16, nacks: nat,
    log: seq<LogEvent>, told: seq<Transition>)

  const MOCK_START: Mock := Mock(Booting, {}, false, 0, false, 0, 0, [], [])

  function SeqNo(id: bv16): int { id as int }

  function MsOf(x: bv32): (n: int)
    ensures 0 <= n < 0x1_0000_0000
  {
    x as int
  }

  function Blank(ts: int, kind: LogKind): LogEvent {
    LogEvent(ts, kind, "", -1, "", "", "", "")
  }

  function Push(m: Mock, e: LogEvent): Mock {
    m.(log := m.log + [e])
  }

  function Change(t: Transition): LogEvent {
    Blank(0, StateChange).(fromState := StateName(t.from), toState := StateName(t.to), detail := EventName(t.event))
  }

  /** Applies an event; a change of state is logged by the hook. */
  function Drive(m: Mock, e: HealthEvent): (m': Mock)
    ensures m'.seen == m.seen
  {
    var d := m.(fsm := Next(m.fsm, e), told := m.told + Told(m.fsm, e));
    if Next(m.fsm, e) == m.fsm then d else Push(d, Change(Transition(m.fsm, Next(m.fsm, e), e)))
  }

  function RxEvent(f: ParsedFrame): LogEvent {
    var e := Blank(TimeOf(f), RxFrame).(frameType := FrameTypeName(f.header.kind), seqId := SeqNo(f.header.sequenceId));
    if f.header.kind == FAULT_EVENT && |f.payload| >= FAULT_PAYLOAD_SIZE
    then e.(fault := FaultTypeName(f.payload[0]))
    else e
  }

  function LateEvent(f: ParsedFrame, gap: int, timeout: bv32): LogEvent {
    Blank(TimeOf(f), LogKind.Timeout).(frameType := "HEARTBEAT",
      detail := "gap=" + Dec(gap) + "ms > " + Dec(MsOf(timeout)) + "ms")
  }

  function CommandEvent(f: ParsedFrame, id: bv16): LogEvent {
    Blank(TimeOf(f), TxCommand).(frameType := "COMMAND", seqId := SeqNo(id), detail := "REQUEST_RECOVERY")
  }

  /** A heartbeat that comes too long after the one before. */
  function Late(m: Mock, f: ParsedFrame, gap: int, timeout: bv32): (m': Mock)
    ensures m'.seen == m.seen
  {
    var late := LateEvent(f, gap, timeout);
    var m1 := Drive(Push(m, late), HeartbeatTimeout);
    if !m.fsm.Healthy? then m1
    else
      var command := CommandEvent(f, m.txSeq);
      Drive(Push(m1.(txSeq := NextSeq(m.txSeq)), command), RecoverySent).(inRecovery := true)
  }

  function BeatEvent(h: HealthState): HealthEvent {
    if h.Recovering? then HeartbeatRestored else HeartbeatOk
  }

  /** The gap between two heartbeats: 32-bit arithmetic wraps. */
  function Gap(last: bv32, now: bv32): int {
    (MsOf(now) - MsOf(last)) % 0x1_0000_0000
  }

  predicate TooLate(last: bv32, now: bv32, timeout: bv32) {
    Gap(last, now) > MsOf(timeout)
  }

  /** A heartbeat is late if more than the timeout has passed since the one before; a clock that has
      wrapped in between has passed 2^32 milliseconds more. */
  lemma LateMeansElapsed(last: bv32, now: bv32, timeout: bv32)
    ensures last as int <= now as int ==>
      (TooLate(last, now, timeout) <==> now as int - last as int > timeout as int)
    ensures last as int > now as int ==>
      (TooLate(last, now, timeout) <==> 0x1_0000_0000 + now as int - last as int > timeout as int)
  {
    hide Gap;
    GapIsElapsed(last, now);
  }

  lemma GapIsElapsed(last: bv32, now: bv32)
    ensures Gap(last, now) ==
      if MsOf(last) <= MsOf(now) then MsOf(now) - MsOf(last) else 0x1_0000_0000 + MsOf(now) - MsOf(last)
  {
    hide MsOf;
    WrappedDifference(MsOf(last), MsOf(now));
  }

  lemma WrappedDifference(a: int, b: int)
    requires 0 <= a < 0x1_0000_0000 && 0 <= b < 0x1_0000_0000
    ensures (b - a) % 0x1_0000_0000 == if a <= b then b - a else 0x1_0000_0000 + b - a
  {
  }

  function Checked(m: Mock, f: ParsedFrame, timeout: bv32): Mock {
    var now := f.header.timestampMs;
    if m.haveLast && TooLate(m.lastTs, now, timeout) then Late(m, f, Gap(m.lastTs, now), timeout) else m
  }

  function Beaten(m: Mock, f: ParsedFrame): (m': Mock)
    ensures m'.seen == m.seen
  {
    var m1 := Drive(m.(haveLast := true, lastTs := f.header.timestampMs), BeatEvent(m.fsm));
    var m2 :=
      if m1.inRecovery && m.fsm.Recovering?
      then Push(m1, Blank(TimeOf(f), RecoveryResult).(detail := "RECOVERY_SUCCESS")).(inRecovery := false)
      else m1;
    Push(m2, Blank(TimeOf(f), TxAck).(frameType := "ACK", seqId := SeqNo(f.header.sequenceId)))
  }

  function Beat(m: Mock, f: ParsedFrame, timeout: bv32): Mock {
    Beaten(Checked(m, f, timeout), f)
  }

  function Refused(m: Mock, f: ParsedFrame): (m': Mock)
    ensures m'.seen == m.seen
  {
    var e := Blank(TimeOf(f), ChecksumError).(frameType := FrameTypeName(f.header.kind),
      seqId := SeqNo(f.header.sequenceId), detail := "validate_result=" + Dec(ResultCode(f.result)));
    var nack := Blank(TimeOf(f), TxNack).(frameType := "NACK", seqId := SeqNo(f.header.sequenceId),
      detail := "nack #" + Dec(m.nacks + 1));
    Push(Push(m, e), nack).(nacks := m.nacks + 1)
  }

  predicate Critical(f: ParsedFrame) {
    f.header.kind == FAULT_EVENT && Severity(f) >= 2
  }

  function Taken(m: Mock, f: ParsedFrame, timeout: bv32): (m': Mock)
    ensures m'.seen == m.seen
  {
    var m1 := Push(m, RxEvent(f));
    if f.header.kind == HEARTBEAT then Beat(m1, f, timeout)
    else if Critical(f) then Drive(m1, CriticalFault)
    else m1
  }

  /** One frame of the mock run. A refused frame still goes into the table of duplicates. */
  function OnMockFrame(m: Mock, f: ParsedFrame, timeout: bv32): Mock {
    var m' := m.(seen := m.seen + {KeyOf(f)});
    if f.result != Ok then Refused(m', f)
    else if KeyOf(f) in m.seen then
      Push(m', Blank(TimeOf(f), Duplicate).(frameType := FrameTypeName(f.header.kind),
        seqId := SeqNo(f.header.sequenceId)))
    else Taken(m', f, timeout)
  }

  function MockRun(frames: seq<ParsedFrame>, timeout: bv32): Mock
    decreases |frames|
  {
    if frames == [] then MOCK_START
    else OnMockFrame(MockRun(frames[..|frames| - 1], timeout), frames[|frames| - 1], timeout)
  }

  // ----- The replay -----

  datatype Replay = Replay(fsm: HealthState, told: seq<Transition>)

  const REPLAY_START: Replay := Replay(Booting, [])

  function Follow(r: Replay, e: HealthEvent): Replay {
    Replay(Next(r.fsm, e), r.told + Told(r.fsm, e))
  }

  predicate Contains(t: string, part: string) {
    Json.After(t, part).Some?
  }

  function OrEmpty(o: Option<string>): string {
    if o.Some? then o.value else ""
  }

  /** What a line whose time can be read makes the replay do. */
  function OnLine(r: Replay, line: string): Replay {
    var kind := ExtractString(line, "kind");
    if line == "" || kind.None? then r
    else if kind.value == "rx_frame" then
      var frameType := OrEmpty(ExtractString(line, "frame_type"));
      if frameType == "HEARTBEAT" then Follow(r, BeatEvent(r.fsm))
      else if frameType == "FAULT_EVENT" then
        var detail := OrEmpty(ExtractString(line, "detail"));
        if Contains(detail, "critical") || Contains(detail, "severity=2") then Follow(r, CriticalFault) else r
      else r
    else if kind.value == "timeout" then Follow(r, HeartbeatTimeout)
    else if kind.value == "tx_command" then
      if Contains(OrEmpty(ExtractString(line, "detail")), "REQUEST_RECOVERY") then Follow(r, RecoverySent) else r
    else r
  }

  /** The line has a kind, so its time is read, and the conversion throws. */
  predicate Aborts(line: string) {
    line != "" && ExtractString(line, "kind").Some? && ExtractInt(line, "ts_ms").Throws?
  }

  /** A replay in progress; an exception ends it where it stands. */
  datatype Reading = Reading(replay: Replay, aborted: bool)

  function ReadLine(x: Reading, line: string): Reading {
    if x.aborted then x
    else if Aborts(line) then x.(aborted := true)
    else x.(replay := OnLine(x.replay, line))
  }

  function ReplayLines(lines: seq<string>): Reading
    decreases |lines|
  {
    if lines == [] then Reading(REPLAY_START, false)
    else ReadLine(ReplayLines(lines[..|lines| - 1]), lines[|lines| - 1])
  }

  function ReplayFile(text: string): Reading {
    ReplayLines(Lines(text))
  }

  /** What a line makes the replay do, said of the event printed on it. */
  function OnEvent(r: Replay, e: LogEvent): Replay {
    match e.kind
    case RxFrame =>
      if e.frameType == "HEARTBEAT" then Follow(r, BeatEvent(r.fsm))
      else if e.frameType == "FAULT_EVENT" && (Contains(e.detail, "critical") || Contains(e.detail, "severity=2"))
      then Follow(r, CriticalFault)
      else r
    case Timeout => Follow(r, HeartbeatTimeout)
    case TxCommand => if Contains(e.detail, "REQUEST_RECOVERY") then Follow(r, RecoverySent) else r
    case _ => r
  }

  function ReplayEvents(r: Replay, events: seq<LogEvent>): Replay
    decreases |events|
  {
    if events == [] then r else OnEvent(ReplayEvents(r, events[..|events| - 1]), events[|events| - 1])
  }

  /** The time and the strings the replay looks at can be read back. */
  predicate Readable(e: LogEvent) {
    FitsLong(e.ts) &&
    ((e.kind.RxFrame? || e.kind.TxCommand?) ==> Plain(e.frameType) && Plain(e.detail))
  }

  lemma KindNames(k: LogKind)
    ensures KindName(k) == "rx_frame" <==> k == RxFrame
    ensures KindName(k) == "timeout" <==> k == LogKind.Timeout
    ensures KindName(k) == "tx_command" <==> k == TxCommand
  {
    var n := KindName(k);
    assert n[0] == 'r' && n[1] == 'x' <==> k == RxFrame;
    assert n[0] == 't' && n[1] == 'i' <==> k == LogKind.Timeout;
    assert |n| > 3 && n[0] == 't' && n[3] == 'c' <==> k == TxCommand;
    assert "rx_frame"[0] == 'r' && "rx_frame"[1] == 'x';
    assert "timeout"[0] == 't' && "timeout"[1] == 'i';
    assert "tx_command"[0] == 't' && "tx_command"[3] == 'c';
  }

  /** The event as its line is read: each unusual control character has become five others. */
  function AsRead(e: LogEvent): LogEvent {
    e.(frameType := ReturnedAll(e.frameType), detail := ReturnedAll(e.detail))
  }

  /** What the replay does with a printed line, for every event. */
  lemma LineIsEvent(r: Replay, e: LogEvent)
    ensures OnLine(r, Serialize(e)) == OnEvent(r, AsRead(e))
    ensures Aborts(Serialize(e)) <==> !FitsLong(e.ts)
  {
    hide ExtractString, ExtractInt, Serialize, Plain, KindName, Contains, Follow, ReturnedAll, FitsLong;
    PrinterParserInverse(e);
    KindNames(e.kind);
    OneLine(e);
  }

  lemma ReadableLine(r: Replay, e: LogEvent)
    requires Readable(e)
    ensures OnLine(r, Serialize(e)) == OnEvent(r, e) && !Aborts(Serialize(e))
  {
    hide Serialize, Plain, Contains, Follow, ReturnedAll, FitsLong, Aborts, OnLine;
    LineIsEvent(r, e);
    ReturnedIsSame(e.frameType);
    ReturnedIsSame(e.detail);
  }

  /** Replaying a file of printed events is cut short exactly if some time does not fit. */
  lemma {:induction false} AbortIsExact(events: seq<LogEvent>, lines: seq<string>)
    requires |lines| == |events| && forall i :: 0 <= i < |events| ==> lines[i] == Serialize(events[i])
    ensures ReplayLines(lines).aborted <==> exists i :: 0 <= i < |events| && !FitsLong(events[i].ts)
    decreases |events|
  {
    hide Serialize, Aborts, FitsLong, OnLine;
    if events == [] {
    } else {
      var n := |events| - 1;
      var front := events[..n];
      AbortIsExact(front, lines[..n]);
      LineIsEvent(REPLAY_START, events[n]);
      if i :| 0 <= i < n && !FitsLong(front[i].ts) {
        assert !FitsLong(events[i].ts);
      }
      assert forall i :: 0 <= i < n ==> front[i] == events[i];
    }
  }

  /** Replaying the file of a readable log is replaying its events, to the end. */
  lemma {:induction false} FileIsEvents(events: seq<LogEvent>, lines: seq<string>)
    requires |lines| == |events| && forall i :: 0 <= i < |events| ==> lines[i] == Serialize(events[i])
    requires forall i :: 0 <= i < |events| ==> Readable(events[i])
    ensures ReplayLines(lines) == Reading(ReplayEvents(REPLAY_START, events), false)
    decreases |events|
  {
    hide Serialize, Readable, OnLine, OnEvent, Aborts;
    if events == [] {
    } else {
      var n := |events| - 1;
      FileIsEvents(events[..n], lines[..n]);
      ReadableLine(ReplayEvents(REPLAY_START, events[..n]), events[n]);
    }
  }

  // ----- What can be told from the frames alone -----

  /** The frame is valid and no earlier one had its type and sequence id. */
  predicate Fresh(frames: seq<ParsedFrame>, i: nat)
    requires i < |frames|
  {
    frames[i].result == Ok && forall j :: 0 <= j < i ==> KeyOf(frames[j]) != KeyOf(frames[i])
  }

  /** The timestamps of the heartbeats taken, in order. */
  function Heard(frames: seq<ParsedFrame>): seq<bv32>
    decreases |frames|
  {
    if frames == [] then []
    else
      var n := |frames| - 1;
      Heard(frames[..n]) +
        if Fresh(frames, n) && frames[n].header.kind == HEARTBEAT then [frames[n].header.timestampMs] else []
  }

  /** Some critical fault event was taken after some heartbeat. */
  predicate Tripped(frames: seq<ParsedFrame>)
    decreases |frames|
  {
    if frames == [] then false
    else
      var n := |frames| - 1;
      Tripped(frames[..n]) || (Fresh(frames, n) && Critical(frames[n]) && Heard(frames[..n]) != [])
  }

  /** The last heartbeat taken came too late after the one before (in 32-bit arithmetic). */
  predicate LastLate(heard: seq<bv32>, timeout: bv32) {
    |heard| >= 2 && TooLate(heard[|heard| - 2], heard[|heard| - 1], timeout)
  }

  // ----- Mock and replay in step -----

  /** The replay of the log so far. */
  function Played(m: Mock): Replay {
    ReplayEvents(REPLAY_START, m.log)
  }

  lemma PlayedPush(m: Mock, e: LogEvent)
    ensures Played(Push(m, e)) == OnEvent(Played(m), e)
  {
    assert (m.log + [e])[..|m.log|] == m.log;
  }

  lemma PlayedDrive(m: Mock, e: HealthEvent)
    ensures Played(Drive(m, e)) == Played(m)
  {
    var m' := m.(fsm := Next(m.fsm, e), told := m.told + Told(m.fsm, e));
    PlayedPush(m', Change(Transition(m.fsm, Next(m.fsm, e), e)));
  }

  const RESTORED: Transition := Transition(Recovering, Healthy, HeartbeatRestored)

  /** How the mock and the replay of its log stand to each other after the frames so far. */
  predicate InStep(m: Mock, heard: seq<bv32>, tripped: bool, timeout: bv32) {
    var r := Played(m);
    && (m.haveLast <==> heard != []) && (heard != [] ==> m.lastTs == heard[|heard| - 1])
    && (tripped ==> heard != [])
    && if tripped then
         m.fsm.SafeMode? && m.told != [] && m.told[|m.told| - 1].to.SafeMode? && NeverSafe(r)
       else if heard == [] then
         m.fsm.Booting? && r == Replay(Booting, []) && m.told == []
       else
         && m.fsm.Healthy? && NeverSafe(r)
         && if LastLate(heard, timeout) then r.fsm.Recovering? && m.told == r.told + [RESTORED]
            else r.fsm.Healthy? && m.told == r.told
  }

  predicate NeverSafe(r: Replay) {
    !r.fsm.SafeMode? && forall i :: 0 <= i < |r.told| ==> !r.told[i].to.SafeMode?
  }

  lemma FollowNeverSafe(r: Replay, e: HealthEvent)
    requires NeverSafe(r) && !e.CriticalFault?
    ensures NeverSafe(Follow(r, e))
  {
  }

  lemma RxPlayed(m: Mock, f: ParsedFrame)
    ensures Played(Push(m, RxEvent(f))) ==
      if f.header.kind == HEARTBEAT then Follow(Played(m), BeatEvent(Played(m).fsm)) else Played(m)
  {
    var e := RxEvent(f);
    PlayedPush(m, e);
    hide Played, TimeOf, SeqNo, FaultTypeName;
    assert e.kind == RxFrame && e.detail == "";
    NothingContained();
    TypeNames(f.header.kind);
  }

  lemma NothingContained()
    ensures !Contains("", "critical") && !Contains("", "severity=2")
  {
    assert |"critical"| == 8 && |"severity=2"| == 10;
  }

  lemma TypeNames(kind: byte)
    ensures FrameTypeName(kind) == "HEARTBEAT" <==> kind == HEARTBEAT
    ensures Plain(FrameTypeName(kind))
  {
    var n := FrameTypeName(kind);
    assert n != "" && n[0] == 'H' <==> kind == HEARTBEAT;
    assert "HEARTBEAT"[0] == 'H';
  }

  const DEGRADE: Transition := Transition(Healthy, Degraded, HeartbeatTimeout)
  const COMMANDED: Transition := Transition(Degraded, Recovering, RecoverySent)

  lemma LatePlayed(r: Replay, f: ParsedFrame, gap: int, timeout: bv32, id: bv16)
    ensures OnEvent(r, LateEvent(f, gap, timeout)) == Follow(r, HeartbeatTimeout)
    ensures OnEvent(r, CommandEvent(f, id)) == Follow(r, RecoverySent)
  {
    hide TimeOf, SeqNo, MsOf, Dec, Contains, Follow;
    CommandFound();
  }

  lemma DriveEffect(m: Mock, e: HealthEvent)
    ensures var m' := Drive(m, e);
      && m'.fsm == Next(m.fsm, e) && m'.told == m.told + Told(m.fsm, e) && Played(m') == Played(m)
      && m'.haveLast == m.haveLast && m'.lastTs == m.lastTs && m'.inRecovery == m.inRecovery && m'.txSeq == m.txSeq
  {
    hide Drive, Played;
    PlayedDrive(m, e);
    DrivenFields(m, e);
  }

  lemma DrivenFields(m: Mock, e: HealthEvent)
    ensures var m' := Drive(m, e);
      && m'.fsm == Next(m.fsm, e) && m'.told == m.told + Told(m.fsm, e)
      && m'.haveLast == m.haveLast && m'.lastTs == m.lastTs && m'.inRecovery == m.inRecovery && m'.txSeq == m.txSeq
  {
    hide Next, Told, Change;
    var d := m.(fsm := Next(m.fsm, e), told := m.told + Told(m.fsm, e));
    if Next(m.fsm, e) == m.fsm {
      assert Drive(m, e) == d;
    } else {
      assert Drive(m, e) == Push(d, Change(Transition(m.fsm, Next(m.fsm, e), e)));
    }
  }

  lemma LateEffect(m: Mock, f: ParsedFrame, gap: int, timeout: bv32)
    ensures var m' := Late(m, f, gap, timeout);
      && m'.haveLast == m.haveLast && m'.lastTs == m.lastTs
      && (m.fsm.Healthy? ==> m'.fsm.Recovering? && m'.told == m.told + [DEGRADE] + [COMMANDED])
      && (m.fsm.SafeMode? ==> m'.fsm == m.fsm && m'.told == m.told)
      && Played(m') ==
           var r := Follow(Played(m), HeartbeatTimeout);
           if m.fsm.Healthy? then Follow(r, RecoverySent) else r
  {
    hide Played, LateEvent, CommandEvent, NextSeq, Drive, Follow, OnEvent;
    var late := LateEvent(f, gap, timeout);
    LatePlayed(Played(m), f, gap, timeout, 0);
    PlayedPush(m, late);
    DriveEffect(Push(m, late), HeartbeatTimeout);
    if m.fsm.Healthy? {
      var m1 := Drive(Push(m, late), HeartbeatTimeout).(txSeq := NextSeq(m.txSeq));
      SameLog(Drive(Push(m, late), HeartbeatTimeout), m1);
      var command := CommandEvent(f, m.txSeq);
      LatePlayed(Played(m1), f, gap, timeout, m.txSeq);
      PlayedPush(m1, command);
      DriveEffect(Push(m1, command), RecoverySent);
      SameLog(Drive(Push(m1, command), RecoverySent), Late(m, f, gap, timeout));
    } else if m.fsm.SafeMode? {
      assert m.told + [] == m.told;
    }
  }

  lemma CommandFound()
    ensures Contains("REQUEST_RECOVERY", "REQUEST_RECOVERY")
  {
    assert "REQUEST_RECOVERY" <= "REQUEST_RECOVERY";
  }

  lemma SameLog(m: Mock, m': Mock)
    requires m.log == m'.log
    ensures Played(m) == Played(m')
  {
  }

  /** A heartbeat once it is checked for lateness: the replay does not see it again. */
  lemma BeatenEffect(m: Mock, f: ParsedFrame)
    ensures var m' := Beaten(m, f);
      && m'.haveLast && m'.lastTs == f.header.timestampMs
      && m'.fsm == Next(m.fsm, BeatEvent(m.fsm)) && m'.told == m.told + Told(m.fsm, BeatEvent(m.fsm))
      && Played(m') == Played(m)
  {
    hide Played, TimeOf, SeqNo, Drive, Next, Told, Follow;
    var m0 := m.(haveLast := true, lastTs := f.header.timestampMs);
    SameLog(m, m0);
    var m1 := Drive(m0, BeatEvent(m.fsm));
    DriveEffect(m0, BeatEvent(m.fsm));
    var won := Blank(TimeOf(f), RecoveryResult).(detail := "RECOVERY_SUCCESS");
    PlayedPush(m1, won);
    SameLog(Push(m1, won), Push(m1, won).(inRecovery := false));
    var m2 := if m1.inRecovery && m.fsm.Recovering? then Push(m1, won).(inRecovery := false) else m1;
    PlayedPush(m2, Blank(TimeOf(f), TxAck).(frameType := "ACK", seqId := SeqNo(f.header.sequenceId)));
  }

  lemma LastLateSnoc(heard: seq<bv32>, now: bv32, timeout: bv32)
    ensures LastLate(heard + [now], timeout) <==> heard != [] && TooLate(heard[|heard| - 1], now, timeout)
  {
  }

  lemma HeartbeatInStep(m: Mock, f: ParsedFrame, heard: seq<bv32>, tripped: bool, timeout: bv32)
    requires InStep(m, heard, tripped, timeout) && f.header.kind == HEARTBEAT
    ensures InStep(Taken(m, f, timeout), heard + [f.header.timestampMs], tripped, timeout)
  {
    hide Played, RxEvent, Late, Beaten, LastLate, TooLate, Gap;
    var now, r := f.header.timestampMs, Played(m);
    var m1 := Push(m, RxEvent(f));
    var m2, r1 := Checked(m1, f, timeout), Played(m1);
    RxPlayed(m, f);
    LastLateSnoc(heard, now, timeout);
    LateEffect(m1, f, Gap(m1.lastTs, now), timeout);
    BeatenEffect(m2, f);
    assert m.told + [] == m.told;
    if tripped {
      FollowNeverSafe(r, BeatEvent(r.fsm));
      FollowNeverSafe(r1, HeartbeatTimeout);
    } else if heard != [] {
      assert r1 == Replay(Healthy, m.told);
    }
  }

  lemma OtherInStep(m: Mock, f: ParsedFrame, heard: seq<bv32>, tripped: bool, timeout: bv32)
    requires InStep(m, heard, tripped, timeout) && f.header.kind != HEARTBEAT
    ensures InStep(Taken(m, f, timeout), heard, tripped || (Critical(f) && heard != []), timeout)
  {
    hide Played, RxEvent, LastLate, Critical;
    var m1 := Push(m, RxEvent(f));
    RxPlayed(m, f);
    PlayedDrive(m1, CriticalFault);
    assert m.told + [] == m.told;
  }

  lemma IgnoredInStep(m: Mock, f: ParsedFrame, heard: seq<bv32>, tripped: bool, timeout: bv32)
    requires InStep(m, heard, tripped, timeout) && (f.result != Ok || KeyOf(f) in m.seen)
    ensures InStep(OnMockFrame(m, f, timeout), heard, tripped, timeout)
  {
    hide Played, TimeOf, SeqNo, LastLate, FrameTypeName, Taken, Dec;
    var m0 := m.(seen := m.seen + {KeyOf(f)});
    SameLog(m, m0);
    if f.result == Ok {
      PlayedPush(m0, Blank(TimeOf(f), Duplicate).(frameType := FrameTypeName(f.header.kind),
        seqId := SeqNo(f.header.sequenceId)));
    } else {
      var e := Blank(TimeOf(f), ChecksumError).(frameType := FrameTypeName(f.header.kind),
        seqId := SeqNo(f.header.sequenceId), detail := "validate_result=" + Dec(ResultCode(f.result)));
      var nack := Blank(TimeOf(f), TxNack).(frameType := "NACK", seqId := SeqNo(f.header.sequenceId),
        detail := "nack #" + Dec(m.nacks + 1));
      PlayedPush(m0, e);
      PlayedPush(Push(m0, e), nack);
      SameLog(Push(Push(m0, e), nack), Refused(m0, f));
    }
  }

  lemma SeenAfter(m: Mock, f: ParsedFrame, timeout: bv32)
    ensures OnMockFrame(m, f, timeout).seen == m.seen + {KeyOf(f)}
  {
    hide Taken, Refused, TimeOf, SeqNo, FrameTypeName;
  }

  /** The table of duplicates holds the type and sequence id of every frame so far. */
  lemma {:induction false} SeenSoFar(frames: seq<ParsedFrame>, timeout: bv32)
    ensures forall k :: k in MockRun(frames, timeout).seen <==> exists j :: 0 <= j < |frames| && KeyOf(frames[j]) == k
    decreases |frames|
  {
    hide OnMockFrame;
    if frames == [] {
    } else {
      var n := |frames| - 1;
      SeenSoFar(frames[..n], timeout);
      SeenAfter(MockRun(frames[..n], timeout), frames[n], timeout);
      forall k
        ensures k in MockRun(frames, timeout).seen <==> exists j :: 0 <= j < |frames| && KeyOf(frames[j]) == k
      {
        if exists j :: 0 <= j < |frames| && KeyOf(frames[j]) == k {
          var j :| 0 <= j < |frames| && KeyOf(frames[j]) == k;
          assert j < n ==> KeyOf(frames[..n][j]) == k;
        }
        if k in MockRun(frames[..n], timeout).seen {
          var j :| 0 <= j < n && KeyOf(frames[..n][j]) == k;
          assert KeyOf(frames[j]) == k;
        }
      }
    }
  }

  lemma {:induction false} MockInStep(frames: seq<ParsedFrame>, timeout: bv32)
    ensures InStep(MockRun(frames, timeout), Heard(frames), Tripped(frames), timeout)
    decreases |frames|
  {
    if frames == [] {
    } else {
      var n := |frames| - 1;
      var front, f := frames[..n], frames[n];
      MockInStep(front, timeout);
      SeenSoFar(front, timeout);
      var m := MockRun(front, timeout);
      FreshIsUnseen(frames, front, m);
      hide InStep, Taken, Critical, Fresh;
      if f.result != Ok || KeyOf(f) in m.seen {
        IgnoredInStep(m, f, Heard(front), Tripped(front), timeout);
        assert Heard(front) + [] == Heard(front);
      } else {
        var m0 := m.(seen := m.seen + {KeyOf(f)});
        SeenDoesNotMatter(m, m0, Heard(front), Tripped(front), timeout);
        if f.header.kind == HEARTBEAT {
          HeartbeatInStep(m0, f, Heard(front), Tripped(front), timeout);
          BeatIsNotCritical(f);
        } else {
          OtherInStep(m0, f, Heard(front), Tripped(front), timeout);
          assert Heard(front) + [] == Heard(front);
        }
      }
    }
  }

  lemma BeatIsNotCritical(f: ParsedFrame)
    requires f.header.kind == HEARTBEAT
    ensures !Critical(f)
  {
  }

  lemma FreshIsUnseen(frames: seq<ParsedFrame>, front: seq<ParsedFrame>, m: Mock)
    requires frames != [] && front == frames[..|frames| - 1]
    requires forall k :: k in m.seen <==> exists j :: 0 <= j < |front| && KeyOf(front[j]) == k
    ensures var n := |frames| - 1; Fresh(frames, n) <==> frames[n].result == Ok && KeyOf(frames[n]) !in m.seen
  {
    var n := |frames| - 1;
    if KeyOf(frames[n]) !in m.seen {
      forall j | 0 <= j < n
        ensures KeyOf(frames[j]) != KeyOf(frames[n])
      {
        assert front[j] == frames[j];
      }
    } else {
      var j :| 0 <= j < n && KeyOf(front[j]) == KeyOf(frames[n]);
      assert KeyOf(frames[j]) == KeyOf(frames[n]);
    }
  }

  lemma SeenDoesNotMatter(m: Mock, m': Mock, heard: seq<bv32>, tripped: bool, timeout: bv32)
    requires InStep(m, heard, tripped, timeout) && m' == m.(seen := m'.seen)
    ensures InStep(m', heard, tripped, timeout)
  {
    SameLog(m, m');
    hide Played, LastLate;
  }

  // ----- The log can be read back -----

  predicate AllReadable(events: seq<LogEvent>) {
    forall i :: 0 <= i < |events| ==> Readable(events[i])
  }

  /** A frame's timestamp has 32 bits. */
  lemma TimeFits(f: ParsedFrame)
    ensures FitsLong(TimeOf(f))
  {
  }

  lemma RxReadable(f: ParsedFrame)
    ensures Readable(RxEvent(f))
  {
    hide TimeOf, SeqNo, FrameTypeName, FaultTypeName;
    TimeFits(f);
    TypeNames(f.header.kind);
  }

  lemma CommandPlain()
    ensures Plain("COMMAND") && Plain("REQUEST_RECOVERY")
  {
  }

  lemma PushReadable(m: Mock, e: LogEvent)
    requires AllReadable(m.log) && Readable(e)
    ensures AllReadable(Push(m, e).log)
  {
    hide Readable;
  }

  lemma DriveReadable(m: Mock, e: HealthEvent)
    requires AllReadable(m.log)
    ensures AllReadable(Drive(m, e).log)
  {
    hide Next, StateName, EventName;
    var t := Transition(m.fsm, Next(m.fsm, e), e);
    assert Readable(Change(t));
    hide Readable, Change;
    PushReadable(m, Change(t));
  }

  lemma LateReadable(m: Mock, f: ParsedFrame, gap: int, timeout: bv32)
    requires AllReadable(m.log)
    ensures AllReadable(Late(m, f, gap, timeout).log)
  {
    TimeFits(f);
    CommandPlain();
    hide TimeOf, SeqNo, Dec, MsOf, NextSeq, Plain, Drive, AllReadable;
    var late := LateEvent(f, gap, timeout);
    PushReadable(m, late);
    DriveReadable(Push(m, late), HeartbeatTimeout);
    var m1 := Drive(Push(m, late), HeartbeatTimeout).(txSeq := NextSeq(m.txSeq));
    var command := CommandEvent(f, m.txSeq);
    PushReadable(m1, command);
    DriveReadable(Push(m1, command), RecoverySent);
  }

  lemma BeatReadable(m: Mock, f: ParsedFrame, timeout: bv32)
    requires AllReadable(m.log)
    ensures AllReadable(Beat(m, f, timeout).log)
  {
    hide TimeOf, SeqNo, Drive, AllReadable, Late, TooLate, Gap;
    TimeFits(f);
    LateReadable(m, f, Gap(m.lastTs, f.header.timestampMs), timeout);
    var m1 := Checked(m, f, timeout).(haveLast := true, lastTs := f.header.timestampMs);
    DriveReadable(m1, BeatEvent(m1.fsm));
    var m2 := Drive(m1, BeatEvent(m1.fsm));
    var won := Blank(TimeOf(f), RecoveryResult).(detail := "RECOVERY_SUCCESS");
    var ack := Blank(TimeOf(f), TxAck).(frameType := "ACK", seqId := SeqNo(f.header.sequenceId));
    PushReadable(m2, won);
    PushReadable(m2, ack);
    PushReadable(Push(m2, won).(inRecovery := false), ack);
  }

  lemma FrameReadable(m: Mock, f: ParsedFrame, timeout: bv32)
    requires AllReadable(m.log)
    ensures AllReadable(OnMockFrame(m, f, timeout).log)
  {
    TimeFits(f);
    RxReadable(f);
    hide TimeOf, SeqNo, Dec, FrameTypeName, Drive, AllReadable, Beat, RxEvent, Critical, ResultCode;
    var m' := m.(seen := m.seen + {KeyOf(f)});
    if f.result != Ok {
      var e := Blank(TimeOf(f), ChecksumError).(frameType := FrameTypeName(f.header.kind),
        seqId := SeqNo(f.header.sequenceId), detail := "validate_result=" + Dec(ResultCode(f.result)));
      var nack := Blank(TimeOf(f), TxNack).(frameType := "NACK", seqId := SeqNo(f.header.sequenceId),
        detail := "nack #" + Dec(m.nacks + 1));
      PushReadable(m', e);
      PushReadable(Push(m', e), nack);
    } else if KeyOf(f) in m.seen {
      PushReadable(m', Blank(TimeOf(f), Duplicate).(frameType := FrameTypeName(f.header.kind),
        seqId := SeqNo(f.header.sequenceId)));
    } else {
      var m1 := Push(m', RxEvent(f));
      PushReadable(m', RxEvent(f));
      BeatReadable(m1, f, timeout);
      DriveReadable(m1, CriticalFault);
    }
  }

  lemma {:induction false} LogReadable(frames: seq<ParsedFrame>, timeout: bv32)
    ensures AllReadable(MockRun(frames, timeout).log)
    decreases |frames|
  {
    hide Readable, OnMockFrame;
    if frames == [] {
    } else {
      LogReadable(frames[..|frames| - 1], timeout);
      FrameReadable(MockRun(frames[..|frames| - 1], timeout), frames[|frames| - 1], timeout);
    }
  }

  // ----- The two runs compared -----

  /** The replay lacks nothing, or only the last return from RECOVERING to HEALTHY. */
  predicate Agrees(mock: seq<Transition>, replay: seq<Transition>) {
    mock == replay || mock == replay + [RESTORED]
  }

  /** Replaying the file a mock run writes runs to its end and gives the mock's transitions, perhaps without a last
      RECOVERING to HEALTHY, if and only if no critical fault event was taken after a heartbeat;
      and then it gives all of them if and only if the last heartbeat taken was not late. */
  lemma ReplayAgreesWithMock(frames: seq<ParsedFrame>, timeout: bv32)
    ensures var m := MockRun(frames, timeout);
      var r := ReplayFile(FileText(m.log));
      && !r.aborted
      && (Agrees(m.told, r.replay.told) <==> !Tripped(frames))
      && (!Tripped(frames) ==> (r.replay.told == m.told <==> !LastLate(Heard(frames), timeout)))
  {
    var m := MockRun(frames, timeout);
    MockInStep(frames, timeout);
    LogReadable(frames, timeout);
    LinesOfFile(m.log);
    FileIsEvents(m.log, Lines(FileText(m.log)));
    hide MockRun, LastLate, Tripped, Heard, Lines, FileText, ReplayLines, ReplayEvents, Readable;
    var r := Played(m);
    assert Reading(r, false) == ReplayFile(FileText(m.log));
    if Tripped(frames) {
      NotSame(m.told, r);
    } else {
      assert |r.told + [RESTORED]| != |r.told|;
    }
  }

  lemma NotSame(mock: seq<Transition>, r: Replay)
    requires mock != [] && mock[|mock| - 1].to.SafeMode? && NeverSafe(r)
    ensures !Agrees(mock, r.told)
  {
    assert |mock| == |r.told| + 1 ==> (r.told + [RESTORED])[|r.told|] == RESTORED;
  }
}
