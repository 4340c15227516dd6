/** What becomes at the supervisor of the fault events the driver makes. They number themselves, the
    firmware numbers its own, and the supervisor has one table of duplicates for both. */
module DriverFaults {
  import opened Sequences
  import opened Crc
  import opened Wire
  import opened Framing
  import opened Streams
  import opened Health
  import opened Supervisor
  import opened Admission
  import EventLoops

  // ----- The table of duplicates in any run of the supervisor -----

  /** The frame a step hands to the loop, if the step is enabled. */
  function Takes(s: System, a: Action): seq<ParsedFrame> {
    if a.Receive? && s.local == [] && (FramePosts(s.loop, a.f) == [] || LockFree(s.worker)) then [a.f] else []
  }

  /** The frames the loop handles in a run, in order. */
  function TakenFrames(s: System, actions: seq<Action>): seq<ParsedFrame>
    decreases |actions|
  {
    if actions == [] then [] else Takes(s, actions[0]) + TakenFrames(Step(s, actions[0]), actions[1..])
  }

  function ValidKeys(frames: seq<ParsedFrame>): set<(byte, bv16)> {
    set f | f in frames && f.result == Ok :: KeyOf(f)
  }

  lemma SeenByStep(s: System, a: Action)
    ensures Step(s, a).loop.seen == s.loop.seen + ValidKeys(Takes(s, a))
  {
    hide OnFrame, FramePosts, KeyOf, Work, Next;
    assert ValidKeys([]) == {};
    if a.Receive? {
      EventLoops.SeenByOne(s.loop, a.f);
      assert ValidKeys([a.f]) == if a.f.result == Ok then {KeyOf(a.f)} else {};
    }
  }

  /** Whatever else interleaves, the table holds the keys of the valid frames handled. */
  lemma {:induction false} SeenInRun(s: System, actions: seq<Action>)
    ensures Run(s, actions).loop.seen == s.loop.seen + ValidKeys(TakenFrames(s, actions))
    decreases |actions|
  {
    hide Step, Takes, KeyOf;
    if actions == [] {
    } else {
      var s1 := Step(s, actions[0]);
      SeenByStep(s, actions[0]);
      SeenInRun(s1, actions[1..]);
      KeysOfBoth(Takes(s, actions[0]), TakenFrames(s1, actions[1..]));
    }
  }

  lemma KeysOfBoth(a: seq<ParsedFrame>, b: seq<ParsedFrame>)
    ensures ValidKeys(a + b) == ValidKeys(a) + ValidKeys(b)
  {
  }

  // ----- Driver and supervisor together -----

  /** Among the first n frames read there is a valid fault event with this id. */
  predicate FaultReadBefore(fs: seq<seq<byte>>, n: nat, id: bv16)
    requires n <= |fs| && AllFrames(fs)
  {
    exists j :: 0 <= j < n && IsFaultEvent(fs[j], id)
  }

  predicate IsFaultEvent(f: seq<byte>, id: bv16)
    requires |f| >= HEADER_SIZE
  {
    Validate(f) == Ok && ParseHeader(f).kind == FAULT_EVENT && ParseHeader(f).sequenceId == id
  }

  lemma KeysOfReads(fs: seq<seq<byte>>, n: nat, id: bv16)
    requires n <= |fs| && AllFrames(fs)
    ensures (FAULT_EVENT, id) in ValidKeys(ReadFrames(fs)[..n]) <==> FaultReadBefore(fs, n, id)
  {
    hide Validate, ParseHeader, FrameSize;
    var parsed := ReadFrames(fs)[..n];
    if f :| f in parsed && f.result == Ok && KeyOf(f) == (FAULT_EVENT, id) {
      var j :| 0 <= j < n && parsed[j] == f;
      assert f == ReadFrame(fs[j]);
      assert IsFaultEvent(fs[j], id);
    }
    if j :| 0 <= j < n && IsFaultEvent(fs[j], id) {
      assert parsed[j] == ReadFrame(fs[j]);
      assert parsed[j] in parsed && KeyOf(parsed[j]) == (FAULT_EVENT, id);
    }
  }

  /** What the supervisor in state s makes of the n-th read, a fault event of the driver: it acts on it
      exactly if no valid fault event with the id was read before. Then a critical one takes HEALTHY or
      DEGRADED to SAFE_MODE and any other takes HEALTHY to DEGRADED; otherwise nothing changes. */
  ghost predicate ActsUnlessRepeated(s: System, fs: seq<seq<byte>>, n: nat, id: bv16, severity: byte) {
    && AllFrames(fs) && n < |fs|
    && var s', repeated := Step(s, Receive(ReadFrame(fs[n]))), FaultReadBefore(fs, n, id);
       && s' == (if repeated then s else s.(loop := ActedOn(s.loop, id, OnFault(s.loop.fsm, severity))))
       && (repeated <==> (FAULT_EVENT, id) in s.loop.seen)
       && (severity >= 2 && (s.loop.fsm.Healthy? || s.loop.fsm.Degraded?) ==> (s'.loop.fsm.SafeMode? <==> !repeated))
       && (severity < 2 && s.loop.fsm.Healthy? ==> (s'.loop.fsm.Degraded? <==> !repeated))
  }

  /** The n-th frame read is a fault event the driver made. */
  ghost predicate DriverFaultAt(fs: seq<seq<byte>>, n: nat, id: bv16, severity: byte) {
    && n < |fs|
    && exists fault, detail, at :: fs[n] == Driver.SynthFrame(Driver.FaultEvent(fault, severity, detail), id, at)
  }

  lemma ActsOnRead(fs: seq<seq<byte>>, s: System, n: nat, id: bv16, severity: byte)
    requires AllFrames(fs) && DriverFaultAt(fs, n, id, severity) && s.local == []
    requires s.loop.seen == ValidKeys(ReadFrames(fs)[..n])
    ensures ActsUnlessRepeated(s, fs, n, id, severity)
  {
    hide Validate, IsFrame, ParseHeader, Driver.SynthFrame, FaultReadBefore, Severity, ValidKeys, NextSeq;
    var fault, detail, at :| fs[n] == Driver.SynthFrame(Driver.FaultEvent(fault, severity, detail), id, at);
    KeysOfReads(fs, n, id);
    DriverFaultsAtSupervisor(s.loop, fault, severity, detail, id, at);
    SynthFaultReads(fault, severity, detail, id, at);
    NothingAdded(s.worker.queue);
  }

  /** In every run of the driver, and every run of the supervisor that handles its reads in order: if
      the next read is a fault event of the driver, it is acted on exactly if no valid fault event with
      its id was read before. */
  lemma DriverFaultActs(depth: nat, hbTimeoutMs: nat, slots: seq<Timeline.Entry>, steps: seq<(nat, Driver.Action)>,
                        deadlineMs: nat, actions: seq<Action>, id: bv16, severity: byte)
    requires |slots| == Timeline.DEPTH
    ensures var fs := Driver.Run(Driver.Initial(depth, hbTimeoutMs, slots), steps).dev.history.rxOut;
      var s, taken := Run(Initial(deadlineMs), actions), TakenFrames(Initial(deadlineMs), actions);
      taken <= Parsed(FedItems([], fs)) && s.local == [] && DriverFaultAt(fs, |taken|, id, severity) ==>
        ActsUnlessRepeated(s, fs, |taken|, id, severity)
  {
    hide Driver.Run, Run, FedItems, Parsed, IsFrame, Validate, TakenFrames, ValidKeys, ActsUnlessRepeated,
      DriverFaultAt;
    var fs := Driver.Run(Driver.Initial(depth, hbTimeoutMs, slots), steps).dev.history.rxOut;
    var s, taken := Run(Initial(deadlineMs), actions), TakenFrames(Initial(deadlineMs), actions);
    EveryReadIsOneFrame(depth, hbTimeoutMs, slots, steps);
    SeenInRun(Initial(deadlineMs), actions);
    if taken <= Parsed(FedItems([], fs)) && s.local == [] && DriverFaultAt(fs, |taken|, id, severity) {
      assert taken == ReadFrames(fs)[..|taken|];
      ActsOnRead(fs, s, |taken|, id, severity);
    }
  }

  // ----- A fault that is lost -----

  /** A fault event of the firmware that does not stop the supervisor, with the firmware's first id. */
  predicate MildFault(f: seq<byte>) {
    IsFrame(f) && IsFaultEvent(f, 0) && Supervisor.Severity(ReadFrame(f)) < 2
  }

  /** The firmware's first frame is such a one if it is a fault event of severity 0 or 1. */
  lemma FirmwareFaultIsMild(payload: seq<byte>, ms: bv32)
    requires |payload| == 8 && payload[1] < 2
    ensures MildFault(FrameOf(FAULT_EVENT, 0, ms, payload, 8))
  {
    hide Validate, Pack, Checksum, ParseHeader, IsFrame;
    PackValidates(InitHeader(FAULT_EVENT, 0, 8, ms), payload, []);
    NothingAdded(FrameOf(FAULT_EVENT, 0, ms, payload, 8));
  }

  type Steps = seq<(nat, Driver.Action)>

  function Pushing(f: seq<byte>, c: Driver.Clock): Steps {
    [(0, Driver.Begin(Driver.PushRxFrame(f))), (0, Driver.Proceed(c))]
  }

  function Injecting(fault: byte, c: Driver.Clock): Steps {
    var next := (1, Driver.Proceed(c));
    [(1, Driver.Begin(Driver.InjectFault(fault))), next] + [next, next]
  }

  const TWO_READS: Steps := [(2, Driver.Read), (2, Driver.Read)]

  /** The driver takes the frame in, then a fault is injected for the first time, and both are read. */
  function Injection(f: seq<byte>, fault: byte, c: Driver.Clock): Steps {
    Pushing(f, c) + (Injecting(fault, c) + TWO_READS)
  }

  function CriticalFrame(fault: byte, c: Driver.Clock): seq<byte> {
    Driver.SynthFrame(Driver.FaultEvent(fault, 2, 0), 0, c.stamp)
  }

  lemma MildScript(f: seq<byte>)
    requires MildFault(f)
    ensures Driver.RxScript(f) == [Driver.PushRx(f, Timeline.FrameRx, true)] && Driver.Sized(f)
  {
    hide Checksum;
  }

  /** The first two steps queue the frame. */
  lemma FrameQueued(s: Driver.System, f: seq<byte>, c: Driver.Clock)
    requires Timeline.Shaped(s.dev.ring) && MildFault(f) && 0 !in s.threads && |s.dev.rx| < s.dev.depth
    ensures var s2 := Driver.Run(s, Pushing(f, c));
      && s2.dev.rx == s.dev.rx + [f] && s2.dev.depth == s.dev.depth && s2.dev.synthSeq == s.dev.synthSeq
      && s2.dev.history.rxOut == s.dev.history.rxOut && s2.threads == s.threads[0 := []]
  {
    hide MildFault, Driver.Run, Driver.RxScript, Timeline.Record, Driver.SeqOf, Driver.Sized;
    MildScript(f);
    RunOfTwo(s, Pushing(f, c)[0], Pushing(f, c)[1]);
    var s1 := Driver.Step(s, 0, Driver.Begin(Driver.PushRxFrame(f)));
    assert s1.threads[0] == [Driver.PushRx(f, Timeline.FrameRx, true)];
    assert s1.threads[0][1..] == [];
  }

  /** The next two count the fault. */
  lemma FaultCounted(s: Driver.System, fault: byte, c: Driver.Clock)
    requires Timeline.Shaped(s.dev.ring) && 1 !in s.threads
    ensures var s2 := Driver.Run(s, [(1, Driver.Begin(Driver.InjectFault(fault))), (1, Driver.Proceed(c))]);
      && s2.dev.rx == s.dev.rx && s2.dev.depth == s.dev.depth && s2.dev.synthSeq == s.dev.synthSeq
      && s2.dev.history.rxOut == s.dev.history.rxOut
      && 1 in s2.threads && s2.threads[1] == [Driver.Synthesize(Driver.FaultEvent(fault, 2, 0))]
  {
    hide Driver.Run, Driver.Inc;
    RunOfTwo(s, (1, Driver.Begin(Driver.InjectFault(fault))), (1, Driver.Proceed(c)));
    var s1 := Driver.Step(s, 1, Driver.Begin(Driver.InjectFault(fault)));
    assert s1.threads[1] == [Driver.Inject(fault), Driver.Synthesize(Driver.FaultEvent(fault, 2, 0))];
  }

  /** The two after that queue the driver's first fault event. */
  lemma FaultMade(s: Driver.System, fault: byte, c: Driver.Clock)
    requires Timeline.Shaped(s.dev.ring) && |s.dev.rx| < s.dev.depth && s.dev.synthSeq == 0
    requires 1 in s.threads && s.threads[1] == [Driver.Synthesize(Driver.FaultEvent(fault, 2, 0))]
    ensures var s2 := Driver.Run(s, [(1, Driver.Proceed(c)), (1, Driver.Proceed(c))]);
      s2.dev.rx == s.dev.rx + [CriticalFrame(fault, c)] && s2.dev.history.rxOut == s.dev.history.rxOut
  {
    hide Driver.Run, Driver.SynthFrame, Timeline.Record, Driver.SeqOf, NextSeq;
    RunOfTwo(s, (1, Driver.Proceed(c)), (1, Driver.Proceed(c)));
    var s1 := Driver.Step(s, 1, Driver.Proceed(c));
    assert s1.threads[1] == [Driver.SynthPush(Driver.FaultEvent(fault, 2, 0), 0, c.stamp)] + [];
    assert s1.dev.rx == s.dev.rx;
  }

  lemma {:induction false} RunInTwoParts(s: Driver.System, a: seq<(nat, Driver.Action)>, b: seq<(nat, Driver.Action)>)
    requires Timeline.Shaped(s.dev.ring)
    ensures Driver.Run(s, a + b) == Driver.Run(Driver.Run(s, a), b)
    decreases |a|
  {
    hide Driver.Step;
    if a == [] {
      assert a + b == b;
    } else {
      assert (a + b)[1..] == a[1..] + b;
      RunInTwoParts(Driver.Step(s, a[0].0, a[0].1), a[1..], b);
    }
  }

  lemma RunOfTwo(s: Driver.System, a: (nat, Driver.Action), b: (nat, Driver.Action))
    requires Timeline.Shaped(s.dev.ring)
    ensures Driver.Run(s, [a, b]) == Driver.Step(Driver.Step(s, a.0, a.1), b.0, b.1)
  {
    hide Driver.Step;
    assert [a, b][1..] == [b] && [b][1..] == [];
    assert Driver.Run(Driver.Step(s, a.0, a.1), [b]) == Driver.Step(Driver.Step(s, a.0, a.1), b.0, b.1);
  }

  lemma BothRead(depth: nat, hbTimeoutMs: nat, slots: seq<Timeline.Entry>, f: seq<byte>, fault: byte, c: Driver.Clock)
    requires |slots| == Timeline.DEPTH && depth >= 2 && MildFault(f)
    ensures Driver.Run(Driver.Initial(depth, hbTimeoutMs, slots), Injection(f, fault, c)).dev.history.rxOut
         == [f, CriticalFrame(fault, c)]
  {
    hide MildFault, Driver.Run, CriticalFrame, Pushing;
    var s, next := Driver.Initial(depth, hbTimeoutMs, slots), (1, Driver.Proceed(c));
    RunInTwoParts(s, Pushing(f, c), Injecting(fault, c) + TWO_READS);
    FrameQueued(s, f, c);
    var s2 := Driver.Run(s, Pushing(f, c));
    RunInTwoParts(s2, Injecting(fault, c), TWO_READS);
    RunInTwoParts(s2, [(1, Driver.Begin(Driver.InjectFault(fault))), next], [next, next]);
    FaultCounted(s2, fault, c);
    FaultMade(Driver.Run(s2, [(1, Driver.Begin(Driver.InjectFault(fault))), next]), fault, c);
    BothLeave(Driver.Run(s2, Injecting(fault, c)), f, CriticalFrame(fault, c));
  }

  lemma BothLeave(s: Driver.System, f: seq<byte>, g: seq<byte>)
    requires Timeline.Shaped(s.dev.ring) && s.dev.rx == [f, g] && s.dev.history.rxOut == []
    ensures Driver.Run(s, TWO_READS).dev.history.rxOut == [f, g]
  {
    hide Driver.Run;
    RunOfTwo(s, TWO_READS[0], TWO_READS[1]);
  }

  /** The failing input: driver and firmware both number from 0. In this run the supervisor, HEALTHY,
      reads the firmware's mild fault and then the driver's first injected one, and ends in DEGRADED:
      the critical fault is taken for a duplicate. */
  lemma InjectedFaultLost(depth: nat, hbTimeoutMs: nat, slots: seq<Timeline.Entry>,
                          f: seq<byte>, fault: byte, c: Driver.Clock, l: Loop)
    requires |slots| == Timeline.DEPTH && depth >= 2 && MildFault(f)
    requires l.fsm.Healthy? && (FAULT_EVENT, 0) !in l.seen
    ensures var fs := Driver.Run(Driver.Initial(depth, hbTimeoutMs, slots), Injection(f, fault, c)).dev.history.rxOut;
      && fs == [f, CriticalFrame(fault, c)] && AllFrames(fs)
      && EventLoops.Handled(l, ReadFrames(fs)).fsm.Degraded?
  {
    hide Driver.Run, Driver.SynthFrame, Validate, ParseHeader, Severity, FedItems, Parsed, FedResidual, FrameSize, U16;
    BothRead(depth, hbTimeoutMs, slots, f, fault, c);
    EveryReadIsOneFrame(depth, hbTimeoutMs, slots, Injection(f, fault, c));
    var first, second := ReadFrame(f), ReadFrame(CriticalFrame(fault, c));
    var l1 := OnFrame(l, first);
    assert l1.fsm.Degraded? && (FAULT_EVENT, 0) in l1.seen;
    DriverFaultsAtSupervisor(l1, fault, 2, 0, 0, c.stamp);
    HandledTwo(l, first, second);
    assert ReadFrames([f, CriticalFrame(fault, c)]) == [first, second];
  }

  lemma HandledTwo(l: Loop, a: ParsedFrame, b: ParsedFrame)
    ensures EventLoops.Handled(l, [a, b]) == OnFrame(OnFrame(l, a), b)
  {
    hide OnFrame;
    assert [a, b][..1] == [a] && [a][..0] == [];
    assert EventLoops.Handled(l, [a]) == OnFrame(l, a);
  }
}
