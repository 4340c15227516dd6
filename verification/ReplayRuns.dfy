/** The mock run and the replay as the programs run them, loop by loop. */
module ReplayRuns {
  import opened Crc
  import opened Wire
  import opened Framing
  import opened Health
  import opened Json
  import opened Log
  import opened Supervisor
  import opened Replays

  class MockRunner {
    const fsm: HealthStateMachine
    var seen: set<(byte, bv16)>
    var haveLast: bool
    var lastTs: bv32
    var inRecovery: bool
    var txSeq: bv16
    var nacks: nat
    var log: seq<LogEvent>

    constructor (fsm: HealthStateMachine)
      requires fsm.state == Booting && fsm.hooked == []
      ensures this.fsm == fsm && View() == MOCK_START
    {
      this.fsm := fsm;
      seen, haveLast, lastTs, inRecovery, txSeq, nacks, log := {}, false, 0, false, 0, 0, [];
    }

    ghost function View(): Mock
      reads this, fsm
    {
      Mock(fsm.state, seen, haveLast, lastTs, inRecovery, txSeq, nacks, log, fsm.hooked)
    }

    method PushEvent(e: LogEvent)
      modifies this`log
      ensures View() == Replays.Push(old(View()), e)
    {
      log := log + [e];
    }

    /** Applies an event, with the hook that logs each change of state. */
    method ApplyEvent(e: HealthEvent) returns (valid: bool)
      modifies this`log, fsm
      ensures View() == Drive(old(View()), e)
      ensures valid <==> Next(old(fsm.state), e) != old(fsm.state)
    {
      hide Next, StateName, EventName;
      var before := fsm.state;
      valid := fsm.Apply(e);
      if valid {
        PushEvent(Change(Transition(before, fsm.state, e)));
      }
    }

    method OnLate(f: ParsedFrame, gap: int, timeout: bv32)
      modifies this, fsm
      ensures View() == Late(old(View()), f, gap, timeout)
    {
      var before := fsm.state;
      assert before == Healthy ==> Next(before, HeartbeatTimeout) != before;
      hide TimeOf, SeqNo, MsOf, Dec, NextSeq, Drive, Next;
      PushEvent(LateEvent(f, gap, timeout));
      var valid := ApplyEvent(HeartbeatTimeout);
      if valid && before == Healthy {
        var id := txSeq;
        txSeq := NextSeq(txSeq);
        PushEvent(CommandEvent(f, id));
        var _ := ApplyEvent(RecoverySent);
        inRecovery := true;
      }
    }

    method OnBeat(f: ParsedFrame, timeout: bv32)
      modifies this, fsm
      ensures View() == Beat(old(View()), f, timeout)
    {
      hide TimeOf, SeqNo, Late, Drive, Gap, TooLate;
      if haveLast {
        if TooLate(lastTs, f.header.timestampMs, timeout) {
          OnLate(f, Gap(lastTs, f.header.timestampMs), timeout);
        }
      }
      assert View() == Checked(old(View()), f, timeout);
      FinishBeat(f);
    }

    method FinishBeat(f: ParsedFrame)
      modifies this, fsm
      ensures View() == Beaten(old(View()), f)
    {
      hide TimeOf, SeqNo, Drive;
      haveLast := true;
      lastTs := f.header.timestampMs;
      var before := fsm.state;
      var event := if before == Recovering then HeartbeatRestored else HeartbeatOk;
      var _ := ApplyEvent(event);
      if inRecovery && before == Recovering {
        PushEvent(Blank(TimeOf(f), RecoveryResult).(detail := "RECOVERY_SUCCESS"));
        inRecovery := false;
      }
      PushEvent(Blank(TimeOf(f), TxAck).(frameType := "ACK", seqId := SeqNo(f.header.sequenceId)));
    }

    method OnRefused(f: ParsedFrame)
      modifies this
      ensures View() == Refused(old(View()), f)
    {
      hide TimeOf, SeqNo, Dec, FrameTypeName, ResultCode;
      PushEvent(Blank(TimeOf(f), ChecksumError).(frameType := FrameTypeName(f.header.kind),
        seqId := SeqNo(f.header.sequenceId), detail := "validate_result=" + Dec(ResultCode(f.result))));
      nacks := nacks + 1;
      PushEvent(Blank(TimeOf(f), TxNack).(frameType := "NACK", seqId := SeqNo(f.header.sequenceId),
        detail := "nack #" + Dec(nacks)));
    }

    method OnTaken(f: ParsedFrame, timeout: bv32)
      modifies this, fsm
      ensures View() == Taken(old(View()), f, timeout)
    {
      hide RxEvent, Beat, Drive, Severity;
      PushEvent(RxEvent(f));
      if f.header.kind == HEARTBEAT {
        OnBeat(f, timeout);
      } else if f.header.kind == FAULT_EVENT {
        var severity := Severity(f);
        if severity >= 2 {
          var _ := ApplyEvent(CriticalFault);
        }
      }
    }

    method IsDuplicate(f: ParsedFrame) returns (duplicate: bool)
      modifies this`seen
      ensures duplicate <==> KeyOf(f) in old(seen)
      ensures View() == old(View()).(seen := old(seen) + {KeyOf(f)})
    {
      duplicate := KeyOf(f) in seen;
      seen := seen + {KeyOf(f)};
    }

    method OnFrame(f: ParsedFrame, timeout: bv32)
      modifies this, fsm
      ensures View() == OnMockFrame(old(View()), f, timeout)
    {
      hide Refused, Taken, TimeOf, SeqNo, FrameTypeName;
      var duplicate := IsDuplicate(f);
      if f.result != Ok {
        OnRefused(f);
      } else if duplicate {
        PushEvent(Blank(TimeOf(f), Duplicate).(frameType := FrameTypeName(f.header.kind),
          seqId := SeqNo(f.header.sequenceId)));
      } else {
        OnTaken(f, timeout);
      }
    }

    method RunAll(frames: seq<ParsedFrame>, timeout: bv32)
      requires View() == MOCK_START
      modifies this, fsm
      ensures View() == MockRun(frames, timeout)
    {
      hide OnMockFrame;
      for i := 0 to |frames|
        invariant View() == MockRun(frames[..i], timeout)
      {
        assert frames[..i + 1][..i] == frames[..i];
        OnFrame(frames[i], timeout);
      }
      assert frames[..|frames|] == frames;
    }
  }

  ghost function StateOf(fsm: HealthStateMachine): Replay
    reads fsm
  {
    Replay(fsm.state, fsm.hooked)
  }

  method ReplayLine(fsm: HealthStateMachine, line: string) returns (aborted: bool)
    modifies fsm
    ensures Reading(StateOf(fsm), aborted) == ReadLine(Reading(old(StateOf(fsm)), false), line)
  {
    hide ExtractString, ExtractInt, Contains, Next, Told;
    aborted := false;
    if line == "" {
      return;
    }
    var found, kind := ReadString(line, "kind");
    if !found {
      return;
    }
    var ts := ReadNumber(line, "ts_ms");
    if ts.Throws? {
      return true;
    }
    if kind == "rx_frame" {
      ReplayRxFrame(fsm, line);
    } else if kind == "timeout" {
      var _ := fsm.Apply(HeartbeatTimeout);
    } else if kind == "tx_command" {
      var some, detail := ReadString(line, "detail");
      if Contains(if some then detail else "", "REQUEST_RECOVERY") {
        var _ := fsm.Apply(RecoverySent);
      }
    }
  }

  method ReplayRxFrame(fsm: HealthStateMachine, line: string)
    modifies fsm
    ensures StateOf(fsm) ==
      var r, frameType := old(StateOf(fsm)), OrEmpty(ExtractString(line, "frame_type"));
      if frameType == "HEARTBEAT" then Follow(r, BeatEvent(r.fsm))
      else if frameType == "FAULT_EVENT" then
        var detail := OrEmpty(ExtractString(line, "detail"));
        if Contains(detail, "critical") || Contains(detail, "severity=2") then Follow(r, CriticalFault) else r
      else r
  {
    hide ExtractString, Contains, Next, Told;
    var typed, frameType := ReadString(line, "frame_type");
    if !typed {
      frameType := "";
    }
    if frameType == "HEARTBEAT" {
      var event := if fsm.state == Recovering then HeartbeatRestored else HeartbeatOk;
      var _ := fsm.Apply(event);
    } else if frameType == "FAULT_EVENT" {
      var some, detail := ReadString(line, "detail");
      if !some {
        detail := "";
      }
      if Contains(detail, "critical") || Contains(detail, "severity=2") {
        var _ := fsm.Apply(CriticalFault);
      }
    }
  }

  method RunReplay(fsm: HealthStateMachine, text: string) returns (aborted: bool)
    requires fsm.state == Booting && fsm.hooked == []
    modifies fsm
    ensures Reading(StateOf(fsm), aborted) == ReplayFile(text)
  {
    hide OnLine, Aborts;
    var lines := Lines(text);
    aborted := false;
    for i := 0 to |lines|
      invariant Reading(StateOf(fsm), aborted) == ReplayLines(lines[..i])
      invariant !aborted
    {
      assert lines[..i + 1][..i] == lines[..i];
      aborted := ReplayLine(fsm, lines[i]);
      if aborted {
        AbortedStays(lines, i + 1);
        return;
      }
    }
    assert lines[..|lines|] == lines;
  }

  /** An exception is the end of the replay. */
  lemma {:induction false} AbortedStays(lines: seq<string>, i: nat)
    requires i <= |lines| && ReplayLines(lines[..i]).aborted
    ensures ReplayLines(lines) == ReplayLines(lines[..i])
    decreases |lines| - i
  {
    hide OnLine, Aborts;
    if i < |lines| {
      assert lines[..i + 1][..i] == lines[..i];
      AbortedStays(lines, i + 1);
    } else {
      assert lines[..i] == lines;
    }
  }
}
