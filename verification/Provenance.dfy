/** Where the frames in the driver's RX queue come from: every one was handed over by a call or
    made by the driver itself, and what one link daemon hands over arrives in order, except for
    the frames that found the queue full. */
module Provenance {
  import opened Sequences
  import opened Crc
  import opened Wire
  import opened Driver

  /** A frame whose push was carried out, and how many frames were waiting then. */
  datatype Settled = Settled(frame: seq<byte>, waiting: nat)

  /** A frame that entered the RX queue, and whether a call brought it. */
  datatype Arrival = Arrival(frame: seq<byte>, fromLink: bool)

  /** A run of the driver with what was handed over, what was settled and what arrived. */
  datatype Traced = Traced(sys: System, begun: seq<seq<byte>>, settled: seq<Settled>, arrivals: seq<Arrival>)

  /** The frame a call hands over, if this step begins such a call. */
  function Begins(s: System, t: nat, a: Action): seq<seq<byte>> {
    if a.Begin? && a.call.PushRxFrame? && t !in s.threads then [a.call.frame] else []
  }

  predicate RunsPush(s: System, t: nat, a: Action) {
    a.Proceed? && t in s.threads && s.threads[t] != [] && s.threads[t][0].PushRx?
  }

  function Settles(s: System, t: nat, a: Action): seq<Settled> {
    if RunsPush(s, t, a) && s.threads[t][0].ends then [Settled(s.threads[t][0].frame, |s.dev.rx|)] else []
  }

  function Arrives(s: System, t: nat, a: Action): seq<Arrival> {
    if RunsPush(s, t, a) && Sized(s.threads[t][0].frame) && |s.dev.rx| < s.dev.depth
    then [Arrival(s.threads[t][0].frame, s.threads[t][0].ends)]
    else []
  }

  function Track(x: Traced, t: nat, a: Action): (x': Traced)
    requires Timeline.Shaped(x.sys.dev.ring)
    ensures Timeline.Shaped(x'.sys.dev.ring)
  {
    Traced(Step(x.sys, t, a), x.begun + Begins(x.sys, t, a),
           x.settled + Settles(x.sys, t, a), x.arrivals + Arrives(x.sys, t, a))
  }

  function Trace(x: Traced, steps: seq<(nat, Action)>): (x': Traced)
    requires Timeline.Shaped(x.sys.dev.ring)
    ensures Timeline.Shaped(x'.sys.dev.ring)
    decreases |steps|
  {
    if steps == [] then x else Trace(Track(x, steps[0].0, steps[0].1), steps[1..])
  }

  function Start(depth: nat, hbTimeoutMs: nat, slots: seq<Timeline.Entry>): Traced {
    Traced(Initial(depth, hbTimeoutMs, slots), [], [], [])
  }

  /** Watching a run does not change it. */
  lemma {:induction false} TraceIsRun(x: Traced, steps: seq<(nat, Action)>)
    requires Timeline.Shaped(x.sys.dev.ring)
    ensures Trace(x, steps).sys == Run(x.sys, steps)
    decreases |steps|
  {
    hide Step;
    if steps == [] {
    } else {
      TraceIsRun(Track(x, steps[0].0, steps[0].1), steps[1..]);
    }
  }

  // ----- What a script will still push -----

  ghost predicate IsSynthetic(f: seq<byte>) {
    exists b, id, at :: f == SynthFrame(b, id, at)
  }

  function Handover(s: Section): seq<seq<byte>> {
    if s.PushRx? && s.ends then [s.frame] else []
  }

  /** The frames of calls that a script has still to push. */
  function Handovers(script: seq<Section>): seq<seq<byte>>
    decreases |script|
  {
    if script == [] then [] else Handover(script[0]) + Handovers(script[1..])
  }

  /** A script pushes at most one frame of a call, and then writes nothing. */
  predicate Tidy(script: seq<Section>) {
    && |Handovers(script)| <= 1
    && (Handovers(script) != [] ==> forall i :: 0 <= i < |script| ==> !script[i].PushTx?)
  }

  /** Every other push in a script is of a frame the driver made. */
  ghost predicate Explained(s: Section) {
    s.PushRx? && !s.ends ==> IsSynthetic(s.frame)
  }

  ghost predicate AllExplained(script: seq<Section>) {
    forall i :: 0 <= i < |script| ==> Explained(script[i])
  }

  lemma HandoversCons(s: Section, script: seq<Section>)
    ensures Handovers([s] + script) == Handover(s) + Handovers(script)
  {
    assert ([s] + script)[1..] == script;
  }

  lemma TidyTail(script: seq<Section>)
    requires Tidy(script) && script != []
    ensures Tidy(script[1..]) && Tidy([NoteDrop] + script[1..])
    ensures Handovers([NoteDrop] + script[1..]) == Handovers(script[1..])
    ensures Handovers(script) == Handover(script[0]) + Handovers(script[1..])
  {
    HandoversCons(NoteDrop, script[1..]);
  }

  lemma TidyShort()
    ensures Tidy([]) && Tidy([NoteDrop]) && Handovers([]) == [] && Handovers([NoteDrop]) == []
  {
    assert [NoteDrop][1..] == [];
  }

  lemma TidySynth(b: Synthetic, id: bv16, at: Stamp, tail: seq<Section>)
    requires Tidy(tail)
    ensures var r := [SynthPush(b, id, at)] + tail; Tidy(r) && Handovers(r) == Handovers(tail)
  {
    hide SynthFrame;
    HandoversCons(SynthPush(b, id, at), tail);
  }

  /** Running a section takes its own handover off the script and no other. */
  lemma ContinueHandovers(d: Dev, script: seq<Section>, c: Clock)
    requires Tidy(script) && script != []
    ensures Tidy(Continue(d, script, c))
    ensures Handovers(script) == Handover(script[0]) + Handovers(Continue(d, script, c))
  {
    hide Tidy, Handovers, SynthPush, Sized;
    TidyTail(script);
    TidyShort();
    if script[0].Synthesize? {
      TidySynth(script[0].body, d.synthSeq, c.stamp, script[1..]);
    } else if script[0].PushTx? {
      WriterHandsNothing(script);
    } else if script[0].PushRx? && script[0].ends {
      HandsOnce(script);
    }
  }

  lemma WriterHandsNothing(script: seq<Section>)
    requires Tidy(script) && script != [] && script[0].PushTx?
    ensures Handovers(script) == [] && Handovers(script[1..]) == []
  {
  }

  lemma HandsOnce(script: seq<Section>)
    requires Tidy(script) && script != [] && script[0].PushRx? && script[0].ends
    ensures Handovers(script[1..]) == []
  {
  }

  lemma SynthExplained(b: Synthetic, id: bv16, at: Stamp)
    ensures Explained(SynthPush(b, id, at))
  {
    hide SynthFrame;
    assert SynthPush(b, id, at).frame == SynthFrame(b, id, at);
  }

  lemma ContinueExplained(d: Dev, script: seq<Section>, c: Clock)
    requires AllExplained(script) && script != []
    ensures AllExplained(Continue(d, script, c))
  {
    hide IsSynthetic, SynthPush, Continue;
    assert forall i :: 0 <= i < |script[1..]| ==> script[1..][i] == script[i + 1];
    ContinueShape(d, script, c);
    if script[0].Synthesize? {
      SynthExplained(script[0].body, d.synthSeq, c.stamp);
    }
  }

  /** The only scripts there are for a frame handed over. */
  lemma RxShape(frame: seq<byte>)
    ensures var s := RxScript(frame);
      if Admitted(frame) then
        && |frame| >= HEADER_SIZE
        && var push := PushRx(frame, RxKind(frame), true);
           s == [NoteError(BadChecksum), push] || s == [push] || s == [push, MarkHeartbeat, Rearm]
      else s == [] || (|s| == 1 && s[0].NoteError?)
  {
    hide Checksum, RxKind;
  }

  lemma ShortScripts(push: Section, v: ValidateResult)
    requires push.PushRx? && push.ends
    ensures Handovers([NoteError(v)]) == []
    ensures Handovers([push]) == Handovers([NoteError(v), push]) == [push.frame]
    ensures Handovers([push, MarkHeartbeat, Rearm]) == [push.frame]
  {
    TidyShort();
    HandoversCons(NoteError(v), []);
    HandoversCons(push, []);
    HandoversCons(NoteError(v), [push]);
    HandoversCons(Rearm, []);
    HandoversCons(MarkHeartbeat, [Rearm]);
    HandoversCons(push, [MarkHeartbeat, Rearm]);
    hide Handovers;
    assert [NoteError(v)] + [] == [NoteError(v)] && [push] + [] == [push] && [Rearm] + [] == [Rearm];
    assert [NoteError(v)] + [push] == [NoteError(v), push] && [MarkHeartbeat] + [Rearm] == [MarkHeartbeat, Rearm];
    assert [push] + [MarkHeartbeat, Rearm] == [push, MarkHeartbeat, Rearm];
  }

  /** A call hands its frame over exactly if the frame is admissible. */
  lemma RxHandsOver(frame: seq<byte>)
    ensures Handovers(RxScript(frame)) == if Admitted(frame) then [frame] else []
    ensures Tidy(RxScript(frame)) && AllExplained(RxScript(frame))
  {
    hide RxScript, Admitted, Handovers, RxKind, IsSynthetic;
    RxShape(frame);
    TidyShort();
    var script := RxScript(frame);
    if Admitted(frame) {
      ShortScripts(PushRx(frame, RxKind(frame), true), BadChecksum);
    } else if script != [] {
      assert script == [NoteError(script[0].v)];
      ShortScripts(PushRx(frame, Timeline.FrameRx, true), script[0].v);
    }
  }

  lemma NoHandover(script: seq<Section>)
    requires forall i :: 0 <= i < |script| ==> !script[i].PushRx?
    ensures Handovers(script) == [] && Tidy(script) && AllExplained(script)
    decreases |script|
  {
    if script != [] {
      NoHandover(script[1..]);
    }
  }

  lemma OtherScripts(call: Call)
    requires !call.PushRxFrame?
    ensures Handovers(Script(call)) == [] && Tidy(Script(call)) && AllExplained(Script(call))
  {
    NoHandover(Script(call));
  }

  lemma TimerScripts()
    ensures Handovers(WATCHDOG_SCRIPT) == [] && Tidy(WATCHDOG_SCRIPT) && AllExplained(WATCHDOG_SCRIPT)
    ensures Handovers(WORK_SCRIPT) == [] && Tidy(WORK_SCRIPT) && AllExplained(WORK_SCRIPT)
  {
    NoHandover(WATCHDOG_SCRIPT);
    NoHandover(WORK_SCRIPT);
  }

  // ----- In every run -----

  function FramesIn(arrivals: seq<Arrival>): (r: seq<seq<byte>>)
    ensures |r| == |arrivals| && forall i :: 0 <= i < |arrivals| ==> r[i] == arrivals[i].frame
  {
    seq(|arrivals|, i requires 0 <= i < |arrivals| => arrivals[i].frame)
  }

  /** The frames of calls among the arrivals. */
  function FromLink(arrivals: seq<Arrival>): seq<seq<byte>>
    decreases |arrivals|
  {
    if arrivals == [] then []
    else
      var last := arrivals[|arrivals| - 1];
      FromLink(arrivals[..|arrivals| - 1]) + if last.fromLink then [last.frame] else []
  }

  /** The settled frames that found room. */
  function FoundRoom(settled: seq<Settled>, depth: nat): seq<seq<byte>>
    decreases |settled|
  {
    if settled == [] then []
    else
      var last := settled[|settled| - 1];
      FoundRoom(settled[..|settled| - 1], depth) + if last.waiting < depth then [last.frame] else []
  }

  function SettledFrames(settled: seq<Settled>): (r: seq<seq<byte>>)
    ensures |r| == |settled| && forall i :: 0 <= i < |settled| ==> r[i] == settled[i].frame
  {
    seq(|settled|, i requires 0 <= i < |settled| => settled[i].frame)
  }

  function OnlyAdmitted(fs: seq<seq<byte>>): seq<seq<byte>>
    decreases |fs|
  {
    if fs == [] then []
    else OnlyAdmitted(fs[..|fs| - 1]) + if Admitted(fs[|fs| - 1]) then [fs[|fs| - 1]] else []
  }

  /** What the thread has begun to hand over and not settled. */
  function Outstanding(s: System, t: nat): seq<seq<byte>> {
    if t in s.threads then Handovers(s.threads[t]) else []
  }

  ghost predicate ScriptsInv(x: Traced) {
    forall t :: t in x.sys.threads ==>
      && Tidy(x.sys.threads[t]) && AllExplained(x.sys.threads[t])
      && forall f :: f in Handovers(x.sys.threads[t]) ==> f in x.begun
  }

  ghost predicate ArrivalsInv(x: Traced) {
    && FramesIn(x.arrivals) == x.sys.dev.history.rxIn
    && FromLink(x.arrivals) == FoundRoom(x.settled, x.sys.dev.depth)
    && (forall a :: a in x.arrivals ==> if a.fromLink then a.frame in x.begun else IsSynthetic(a.frame))
    && (forall e :: e in x.settled ==> e.frame in x.begun)
  }

  /** All that one thread handed over is settled in order or still to come. */
  predicate Conserved(x: Traced, link: nat) {
    && OnlyAdmitted(x.begun) == SettledFrames(x.settled) + Outstanding(x.sys, link)
    && forall t :: t in x.sys.threads && t != link ==> Handovers(x.sys.threads[t]) == []
  }

  ghost predicate TraceInv(x: Traced) {
    Driver.Inv(x.sys) && ScriptsInv(x) && ArrivalsInv(x)
  }

  lemma StepRx(s: System, t: nat, a: Action)
    requires Timeline.Shaped(s.dev.ring)
    ensures var d, d' := s.dev, Step(s, t, a).dev;
      d'.depth == d.depth && d'.history.rxIn == d.history.rxIn + FramesIn(Arrives(s, t, a))
  {
    hide FramesIn, Timeline.Record, SeqOf, Noted, Inc;
    NoFrames();
    NothingAdded(s.dev.history.rxIn);
    if RunsPush(s, t, a) {
      OneFrame(Arrival(s.threads[t][0].frame, s.threads[t][0].ends));
    }
  }

  lemma NoFrames()
    ensures FramesIn([]) == [] && FromLink([]) == []
  {
  }

  lemma OneFrame(a: Arrival)
    ensures FramesIn([a]) == [a.frame]
  {
  }

  lemma FramesInConcat(a: seq<Arrival>, b: seq<Arrival>)
    ensures FramesIn(a + b) == FramesIn(a) + FramesIn(b)
  {
  }

  lemma FromLinkSnoc(arrivals: seq<Arrival>, a: Arrival)
    ensures FromLink(arrivals + [a]) == FromLink(arrivals) + if a.fromLink then [a.frame] else []
  {
    assert (arrivals + [a])[..|arrivals|] == arrivals;
  }

  lemma FoundRoomSnoc(settled: seq<Settled>, e: Settled, depth: nat)
    ensures FoundRoom(settled + [e], depth) == FoundRoom(settled, depth) + if e.waiting < depth then [e.frame] else []
  {
    assert (settled + [e])[..|settled|] == settled;
  }

  lemma OnlyAdmittedSnoc(fs: seq<seq<byte>>, f: seq<byte>)
    ensures OnlyAdmitted(fs + [f]) == OnlyAdmitted(fs) + if Admitted(f) then [f] else []
  {
    hide Admitted;
    assert (fs + [f])[..|fs|] == fs;
  }

  lemma AdmittedIsSized(f: seq<byte>)
    requires Admitted(f)
    ensures Sized(f)
  {
    hide Validate;
  }

  /** What a thread may start with. */
  lemma NewScript(call: Call)
    ensures var s := Script(call);
      && Tidy(s) && AllExplained(s)
      && Handovers(s) == if call.PushRxFrame? && Admitted(call.frame) then [call.frame] else []
  {
    hide Tidy, AllExplained, Handovers, RxScript, TxScript, Admitted;
    if call.PushRxFrame? {
      RxHandsOver(call.frame);
    } else {
      OtherScripts(call);
    }
  }

  lemma ScriptsKept(x: Traced, t: nat, a: Action)
    requires Timeline.Shaped(x.sys.dev.ring) && ScriptsInv(x)
    ensures ScriptsInv(Track(x, t, a))
  {
    hide Tidy, AllExplained, Handovers, Script, Exec, Continue, Admitted, Settles, Arrives, Timeline.Record;
    match a {
      case Begin(call) => NewScript(call);
      case Proceed(c) =>
        if t in x.sys.threads && x.sys.threads[t] != [] {
          ContinueHandovers(x.sys.dev, x.sys.threads[t], c);
          ContinueExplained(x.sys.dev, x.sys.threads[t], c);
        }
      case TimerFires => TimerScripts();
      case WorkRuns => TimerScripts();
      case _ =>
    }
  }

  lemma SettledArrives(x: Traced, t: nat, a: Action)
    requires Driver.Inv(x.sys) && RunsPush(x.sys, t, a) && ScriptsInv(x)
    ensures var push := x.sys.threads[t][0];
      && Sized(push.frame)
      && (if push.ends then push.frame in x.begun else IsSynthetic(push.frame))
  {
    hide Admitted, DevInv, Tidy, Handovers, IsSynthetic;
    var script := x.sys.threads[t];
    TailProper(script);
    AdmittedIsSized(script[0].frame);
    if script[0].ends {
      HeadHandover(script);
    }
    assert Explained(script[0]);
  }

  lemma HeadHandover(script: seq<Section>)
    requires script != [] && script[0].PushRx? && script[0].ends
    ensures script[0].frame in Handovers(script)
  {
  }

  lemma ArrivalsKept(x: Traced, t: nat, a: Action)
    requires TraceInv(x)
    ensures ArrivalsInv(Track(x, t, a))
  {
    hide Driver.Inv, Step, FramesIn, FromLink, FoundRoom, IsSynthetic, ScriptsInv, Sized;
    assert Timeline.Shaped(x.sys.dev.ring) by { InvShaped(x.sys); }
    var x' := Track(x, t, a);
    StepRx(x.sys, t, a);
    FramesInConcat(x.arrivals, Arrives(x.sys, t, a));
    if RunsPush(x.sys, t, a) {
      var push := x.sys.threads[t][0];
      SettledArrives(x, t, a);
      FromLinkSnoc(x.arrivals, Arrival(push.frame, push.ends));
      FoundRoomSnoc(x.settled, Settled(push.frame, |x.sys.dev.rx|), x.sys.dev.depth);
      NothingAdded(FromLink(x.arrivals));
    }
    NothingAdded(x.arrivals);
    NothingAdded(x.settled);
  }

  lemma InvShaped(s: System)
    requires Driver.Inv(s)
    ensures Timeline.Shaped(s.dev.ring)
  {
  }

  lemma TrackKeeps(x: Traced, t: nat, a: Action)
    requires TraceInv(x)
    ensures Timeline.Shaped(x.sys.dev.ring) && TraceInv(Track(x, t, a))
  {
    hide Driver.Inv, Step, ScriptsInv, ArrivalsInv;
    InvShaped(x.sys);
    StepKeeps(x.sys, t, a);
    ScriptsKept(x, t, a);
    ArrivalsKept(x, t, a);
  }

  lemma {:induction false} TraceKeeps(x: Traced, steps: seq<(nat, Action)>)
    requires TraceInv(x)
    ensures Timeline.Shaped(x.sys.dev.ring) && TraceInv(Trace(x, steps))
    decreases |steps|
  {
    hide TraceInv, Track;
    assert Timeline.Shaped(x.sys.dev.ring) by { TrackKeeps(x, 0, Read); }
    if steps == [] {
    } else {
      TrackKeeps(x, steps[0].0, steps[0].1);
      TraceKeeps(Track(x, steps[0].0, steps[0].1), steps[1..]);
    }
  }

  lemma StartInv(depth: nat, hbTimeoutMs: nat, slots: seq<Timeline.Entry>)
    requires |slots| == Timeline.DEPTH
    ensures TraceInv(Start(depth, hbTimeoutMs, slots))
  {
    hide Driver.Inv, FramesIn, FromLink;
    InitialInv(depth, hbTimeoutMs, slots);
    NoFrames();
  }

  /** In every run, of any number of threads, each frame that entered the RX queue was handed over
      by a call or made by the driver, and those of calls are exactly the settled frames that
      found room, in the order in which they were settled. */
  lemma EveryFrameHasASource(depth: nat, hbTimeoutMs: nat, slots: seq<Timeline.Entry>, steps: seq<(nat, Action)>)
    requires |slots| == Timeline.DEPTH
    ensures var x := Trace(Start(depth, hbTimeoutMs, slots), steps);
      && x.sys == Run(Initial(depth, hbTimeoutMs, slots), steps)
      && FramesIn(x.arrivals) == x.sys.dev.history.rxIn
      && (forall a :: a in x.arrivals ==> if a.fromLink then a.frame in x.begun else IsSynthetic(a.frame))
      && FromLink(x.arrivals) == FoundRoom(x.settled, x.sys.dev.depth)
  {
    hide Trace, Run, Driver.Inv, ScriptsInv, FramesIn, FromLink, FoundRoom, IsSynthetic;
    StartInv(depth, hbTimeoutMs, slots);
    TraceKeeps(Start(depth, hbTimeoutMs, slots), steps);
    TraceIsRun(Start(depth, hbTimeoutMs, slots), steps);
  }

  // ----- One link daemon -----

  /** Only the one thread hands frames over. */
  predicate SingleLink(steps: seq<(nat, Action)>, link: nat) {
    forall i :: 0 <= i < |steps| && steps[i].1.Begin? && steps[i].1.call.PushRxFrame? ==> steps[i].0 == link
  }

  /** The thread takes a section off its script: what it settles was next in hand. */
  lemma ConservedProceed(x: Traced, t: nat, c: Clock, link: nat)
    requires Timeline.Shaped(x.sys.dev.ring) && Conserved(x, link) && ScriptsInv(x)
    requires t in x.sys.threads && x.sys.threads[t] != []
    ensures Conserved(Track(x, t, Proceed(c)), link)
  {
    hide Tidy, AllExplained, Handovers, Exec, Continue, Arrives, OnlyAdmitted;
    var script, x' := x.sys.threads[t], Track(x, t, Proceed(c));
    ContinueHandovers(x.sys.dev, script, c);
    NothingAdded(x.begun);
    SettledConcat(x.settled, Settles(x.sys, t, Proceed(c)));
    assert SettledFrames(Settles(x.sys, t, Proceed(c))) == Handover(script[0]);
    Regroup(SettledFrames(x.settled), Handover(script[0]), Outstanding(x'.sys, link));
  }

  lemma SettledConcat(a: seq<Settled>, b: seq<Settled>)
    ensures SettledFrames(a + b) == SettledFrames(a) + SettledFrames(b)
  {
  }

  lemma ConservedBegin(x: Traced, t: nat, call: Call, link: nat)
    requires Timeline.Shaped(x.sys.dev.ring) && Conserved(x, link)
    requires t !in x.sys.threads && (call.PushRxFrame? ==> t == link)
    ensures Conserved(Track(x, t, Begin(call)), link)
  {
    hide Handovers, OnlyAdmitted, Script, Admitted, Arrives, SettledFrames;
    NewScript(call);
    NothingAdded(x.begun);
    NothingAdded(x.settled);
    NothingAdded(SettledFrames(x.settled));
    if call.PushRxFrame? {
      OnlyAdmittedSnoc(x.begun, call.frame);
    }
  }

  lemma ConservedStep(x: Traced, t: nat, a: Action, link: nat)
    requires Timeline.Shaped(x.sys.dev.ring) && Conserved(x, link) && ScriptsInv(x)
    requires a.Begin? && a.call.PushRxFrame? ==> t == link
    ensures Conserved(Track(x, t, a), link)
  {
    if a.Begin? && t !in x.sys.threads {
      ConservedBegin(x, t, a.call, link);
    } else if a.Proceed? && t in x.sys.threads && x.sys.threads[t] != [] {
      ConservedProceed(x, t, a.c, link);
    } else {
      ConservedOtherwise(x, t, a, link);
    }
  }

  lemma ConservedOtherwise(x: Traced, t: nat, a: Action, link: nat)
    requires Timeline.Shaped(x.sys.dev.ring) && Conserved(x, link)
    requires a.Begin? ==> t in x.sys.threads
    requires a.Proceed? && t in x.sys.threads ==> x.sys.threads[t] == []
    ensures Conserved(Track(x, t, a), link)
  {
    hide Handovers, OnlyAdmitted, Arrives, SettledFrames;
    TidyShort();
    TimerScripts();
    NothingAdded(x.begun);
    NothingAdded(x.settled);
  }

  lemma {:induction false} TraceConserves(x: Traced, steps: seq<(nat, Action)>, link: nat)
    requires TraceInv(x) && Conserved(x, link) && SingleLink(steps, link)
    ensures Timeline.Shaped(x.sys.dev.ring) && Conserved(Trace(x, steps), link)
    decreases |steps|
  {
    assert ScriptsInv(x);
    hide TraceInv, Conserved, Track, ScriptsInv;
    assert Timeline.Shaped(x.sys.dev.ring) by { TrackKeeps(x, 0, Read); }
    if steps == [] {
    } else {
      TrackKeeps(x, steps[0].0, steps[0].1);
      ConservedStep(x, steps[0].0, steps[0].1, link);
      TraceConserves(Track(x, steps[0].0, steps[0].1), steps[1..], link);
    }
  }

  /** With one link daemon, whatever else interleaves: the admissible frames it handed over are, in
      order, those settled and then the one in hand, and the frames of calls in the RX queue's
      history are exactly the settled ones that found room. */
  lemma LinkFramesArriveInOrder(depth: nat, hbTimeoutMs: nat, slots: seq<Timeline.Entry>,
                                steps: seq<(nat, Action)>, link: nat)
    requires |slots| == Timeline.DEPTH && SingleLink(steps, link)
    ensures var x := Trace(Start(depth, hbTimeoutMs, slots), steps);
      && OnlyAdmitted(x.begun) == SettledFrames(x.settled) + Outstanding(x.sys, link)
      && FromLink(x.arrivals) == FoundRoom(x.settled, x.sys.dev.depth)
  {
    hide Trace, OnlyAdmitted, FromLink, FoundRoom, Run, IsSynthetic;
    EveryFrameHasASource(depth, hbTimeoutMs, slots, steps);
    StartInv(depth, hbTimeoutMs, slots);
    NothingBegun();
    TraceConserves(Start(depth, hbTimeoutMs, slots), steps, link);
  }

  lemma NothingBegun()
    ensures OnlyAdmitted([]) == []
  {
  }

  /** Which of the settled frames found room. */
  function Roomy(settled: seq<Settled>, depth: nat): seq<nat>
    decreases |settled|
  {
    if settled == [] then []
    else
      var m := |settled| - 1;
      Roomy(settled[..m], depth) + if settled[m].waiting < depth then [m] else []
  }

  lemma {:induction false} RoomyPlaces(settled: seq<Settled>, depth: nat)
    ensures forall i, j :: 0 <= i < j < |Roomy(settled, depth)| ==> Roomy(settled, depth)[i] < Roomy(settled, depth)[j]
    ensures forall k :: k in Roomy(settled, depth) <==> 0 <= k < |settled| && settled[k].waiting < depth
    decreases |settled|
  {
    if settled == [] {
    } else {
      var m := |settled| - 1;
      var front := settled[..m];
      RoomyPlaces(front, depth);
      assert forall k :: 0 <= k < m ==> front[k] == settled[k];
      assert forall i :: 0 <= i < |Roomy(front, depth)| ==> Roomy(front, depth)[i] in Roomy(front, depth);
    }
  }

  lemma {:induction false} RoomyFrames(settled: seq<Settled>, depth: nat)
    ensures |Roomy(settled, depth)| == |FoundRoom(settled, depth)|
    ensures forall j :: 0 <= j < |Roomy(settled, depth)| ==>
              var k := Roomy(settled, depth)[j]; k < |settled| && FoundRoom(settled, depth)[j] == settled[k].frame
    decreases |settled|
  {
    if settled == [] {
    } else {
      RoomyFrames(settled[..|settled| - 1], depth);
    }
  }

  /** The places of the frames that found room: ascending, and exactly those pushed with room left. */
  lemma RoomyMeaning(settled: seq<Settled>, depth: nat)
    ensures |Roomy(settled, depth)| == |FoundRoom(settled, depth)|
    ensures forall j :: 0 <= j < |Roomy(settled, depth)| ==>
              var k := Roomy(settled, depth)[j]; k < |settled| && FoundRoom(settled, depth)[j] == settled[k].frame
    ensures forall i, j :: 0 <= i < j < |Roomy(settled, depth)| ==> Roomy(settled, depth)[i] < Roomy(settled, depth)[j]
    ensures forall k :: k in Roomy(settled, depth) <==> 0 <= k < |settled| && settled[k].waiting < depth
  {
    hide Roomy, FoundRoom;
    RoomyPlaces(settled, depth);
    RoomyFrames(settled, depth);
  }

  lemma {:induction false} FromLinkPrefix(arrivals: seq<Arrival>, n: nat)
    requires n <= |arrivals|
    ensures FromLink(arrivals[..n]) <= FromLink(arrivals)
    decreases |arrivals| - n
  {
    hide FromLink;
    if n < |arrivals| {
      assert arrivals[..n + 1] == arrivals[..n] + [arrivals[n]];
      FromLinkSnoc(arrivals[..n], arrivals[n]);
      FromLinkPrefix(arrivals, n + 1);
    } else {
      assert arrivals[..n] == arrivals;
    }
  }

  lemma {:induction false} AllAreAdmitted(fs: seq<seq<byte>>)
    requires AllAdmitted(fs)
    ensures OnlyAdmitted(fs) == fs
    decreases |fs|
  {
    hide Admitted;
    if fs == [] {
    } else {
      AllAreAdmitted(fs[..|fs| - 1]);
    }
  }
}
