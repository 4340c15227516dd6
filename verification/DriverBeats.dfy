/** The driver's heartbeat counter over whole runs: it counts exactly the valid heartbeat frames that
    entered the RX queue. */
module DriverBeats {
  import opened Sequences
  import opened Crc
  import opened Wire
  import opened Driver
  import opened Provenance
  import CallEffects

  /** A valid frame of type 1. */
  predicate IsBeat(f: seq<byte>) {
    |f| >= 16 && Validate(f) == Ok && f[3] == 0x01
  }

  predicate IsBeatPush(s: Section) {
    s.PushRx? && s.ends && IsBeat(s.frame)
  }

  /** The step counts a heartbeat. */
  predicate CountsBeat(s: System, t: nat, a: Action) {
    a.Proceed? && t in s.threads && Owes(s.threads[t])
  }

  /** The step puts a valid heartbeat of a call into the queue. */
  predicate QueuesBeat(s: System, t: nat, a: Action) {
    RunsPush(s, t, a) && IsBeatPush(s.threads[t][0]) && |s.dev.rx| < s.dev.depth
  }

  function One(b: bool): nat {
    if b then 1 else 0
  }

  function BeatsCounted(s: System, steps: seq<(nat, Action)>): nat
    requires Timeline.Shaped(s.dev.ring)
    decreases |steps|
  {
    if steps == [] then 0
    else One(CountsBeat(s, steps[0].0, steps[0].1)) + BeatsCounted(Step(s, steps[0].0, steps[0].1), steps[1..])
  }

  function BeatsQueued(s: System, steps: seq<(nat, Action)>): nat
    requires Timeline.Shaped(s.dev.ring)
    decreases |steps|
  {
    if steps == [] then 0
    else One(QueuesBeat(s, steps[0].0, steps[0].1)) + BeatsQueued(Step(s, steps[0].0, steps[0].1), steps[1..])
  }

  /** The script is between queueing a heartbeat and counting it. */
  predicate Owes(script: seq<Section>) {
    script != [] && script[0].MarkHeartbeat?
  }

  function Owing(threads: map<nat, seq<Section>>): set<nat> {
    set t | t in threads && Owes(threads[t])
  }

  /** A script counts a heartbeat next, or right after pushing a valid one, and then always. */
  predicate Marked(script: seq<Section>) {
    && (forall i :: 0 <= i < |script| && script[i].MarkHeartbeat? ==> i == 0 || (i == 1 && IsBeatPush(script[0])))
    && (script != [] && IsBeatPush(script[0]) ==> |script| > 1 && script[1].MarkHeartbeat? && Sized(script[0].frame))
    && (forall i :: 1 <= i < |script| && script[i].PushRx? ==> !IsBeatPush(script[i]))
  }

  predicate AllMarked(s: System) {
    forall t :: t in s.threads ==> Marked(s.threads[t])
  }

  // ----- Every script is of this kind -----

  lemma RxMarked(frame: seq<byte>)
    ensures Marked(RxScript(frame)) && !Owes(RxScript(frame))
  {
    hide RxScript, Validate, CallEffects.BorderFault, CallEffects.EventOf;
    CallEffects.RxByBytes(frame);
  }

  lemma NewMarked(call: Call)
    ensures Marked(Script(call)) && !Owes(Script(call))
  {
    hide RxScript, Validate, IsBeat;
    if call.PushRxFrame? {
      RxMarked(call.frame);
    }
  }

  lemma HandlersMarked()
    ensures Marked(WATCHDOG_SCRIPT) && Marked(WORK_SCRIPT)
  {
  }

  lemma ContinueMarked(d: Dev, script: seq<Section>, c: Clock)
    requires Marked(script) && script != []
    ensures var next := Continue(d, script, c);
      && Marked(next)
      && (Owes(next) <==> IsBeatPush(script[0]) && |d.rx| < d.depth)
  {
    hide IsBeat, SynthFrame;
    var tail, next := script[1..], Continue(d, script, c);
    assert forall i :: 0 <= i < |tail| ==> tail[i] == script[i + 1];
    ContinueShape(d, script, c);
  }

  // ----- Counting -----

  lemma OwingStep(s: System, t: nat, a: Action)
    requires Timeline.Shaped(s.dev.ring) && AllMarked(s)
    ensures AllMarked(Step(s, t, a))
    ensures |Owing(Step(s, t, a).threads)| + One(CountsBeat(s, t, a)) == |Owing(s.threads)| + One(QueuesBeat(s, t, a))
  {
    if a.Proceed? && t in s.threads && s.threads[t] != [] {
      OwingProceed(s, t, a.c);
    } else {
      OwingOtherwise(s, t, a);
    }
  }

  lemma OwingProceed(s: System, t: nat, c: Clock)
    requires Timeline.Shaped(s.dev.ring) && AllMarked(s) && t in s.threads && s.threads[t] != []
    ensures var s', a := Step(s, t, Proceed(c)), Proceed(c);
      && AllMarked(s')
      && |Owing(s'.threads)| + One(CountsBeat(s, t, a)) == |Owing(s.threads)| + One(QueuesBeat(s, t, a))
  {
    hide Exec, Continue, Marked, IsBeatPush, Owes, Owing;
    ContinueMarked(s.dev, s.threads[t], c);
    OwingMoves(s.threads, t, Continue(s.dev, s.threads[t], c));
    HeadIsOne(s.threads[t]);
  }

  lemma OwingOtherwise(s: System, t: nat, a: Action)
    requires Timeline.Shaped(s.dev.ring) && AllMarked(s)
    requires a.Proceed? && t in s.threads ==> s.threads[t] == []
    ensures AllMarked(Step(s, t, a)) && |Owing(Step(s, t, a).threads)| == |Owing(s.threads)|
    ensures !CountsBeat(s, t, a) && !QueuesBeat(s, t, a)
  {
    hide Script, Marked, Owes;
    HandlersMarked();
    EmptyOwesNothing();
    if a.Begin? && t !in s.threads {
      NewMarked(a.call);
    }
    assert Owing(Step(s, t, a).threads) == Owing(s.threads);
  }

  lemma EmptyOwesNothing()
    ensures !Owes([]) && !Owes(WATCHDOG_SCRIPT) && !Owes(WORK_SCRIPT)
  {
  }

  lemma HeadIsOne(script: seq<Section>)
    requires script != []
    ensures !(Owes(script) && IsBeatPush(script[0]))
    ensures IsBeatPush(script[0]) ==> script[0].PushRx?
  {
    hide IsBeat;
  }

  /** Only one thread's script changes. */
  lemma OwingMoves(threads: map<nat, seq<Section>>, t: nat, next: seq<Section>)
    requires t in threads
    ensures |Owing(threads[t := next])| + One(Owes(threads[t])) == |Owing(threads)| + One(Owes(next))
  {
    hide Owes;
    var rest := Owing(threads) - {t};
    assert Owing(threads) == if Owes(threads[t]) then rest + {t} else rest;
    assert Owing(threads[t := next]) == if Owes(next) then rest + {t} else rest;
  }

  /** In any run the heartbeats counted and those of calls in between are the valid ones queued. */
  lemma {:induction false} BeatsBalance(s: System, steps: seq<(nat, Action)>)
    requires Timeline.Shaped(s.dev.ring) && AllMarked(s)
    ensures BeatsCounted(s, steps) + |Owing(Run(s, steps).threads)| == |Owing(s.threads)| + BeatsQueued(s, steps)
    decreases |steps|
  {
    hide Step, AllMarked, Owing, CountsBeat, QueuesBeat;
    if steps == [] {
    } else {
      OwingStep(s, steps[0].0, steps[0].1);
      BeatsBalance(Step(s, steps[0].0, steps[0].1), steps[1..]);
    }
  }

  predicate NoReset(steps: seq<(nat, Action)>) {
    forall i :: 0 <= i < |steps| ==> !steps[i].1.ResetStats?
  }

  function CountedBy(s: Section): seq<Counted> {
    match s
    case NoteDrop => [Dropped]
    case MarkHeartbeat => [Beat]
    case Expire => [Expired]
    case Inject(_) => [Injected]
    case Recover => [Recovered]
    case _ => []
  }

  lemma ExecCounted(d: Dev, s: Section, c: Clock)
    requires Timeline.Shaped(d.ring)
    ensures Exec(d, s, c).history.counted == d.history.counted + CountedBy(s)
  {
    hide Noted, Inc, SeqOf, Timeline.Record, Timeline.Shaped;
    NothingAdded(d.history.counted);
    if s.PushRx? || s.PushTx? {
      PushCountsNothing(d, s, c);
    }
  }

  lemma CountedByStep(s: System, t: nat, a: Action)
    requires Timeline.Shaped(s.dev.ring) && !a.ResetStats?
    ensures Arrivals(Step(s, t, a).dev.history.counted, Beat)
         == Arrivals(s.dev.history.counted, Beat) + One(CountsBeat(s, t, a))
  {
    hide Arrivals, Exec;
    if a.Proceed? && t in s.threads && s.threads[t] != [] {
      var w, section := s.dev.history.counted, s.threads[t][0];
      ExecCounted(s.dev, section, a.c);
      NothingAdded(w);
      if CountedBy(section) != [] {
        ArrivalsSnoc(w, CountedBy(section)[0], Beat);
        assert CountedBy(section) == [CountedBy(section)[0]];
      }
    }
  }

  lemma {:induction false} CountedInRun(s: System, steps: seq<(nat, Action)>)
    requires Timeline.Shaped(s.dev.ring) && NoReset(steps)
    ensures Arrivals(Run(s, steps).dev.history.counted, Beat)
         == Arrivals(s.dev.history.counted, Beat) + BeatsCounted(s, steps)
    decreases |steps|
  {
    hide Step, Arrivals, CountsBeat;
    if steps == [] {
    } else {
      CountedByStep(s, steps[0].0, steps[0].1);
      CountedInRun(Step(s, steps[0].0, steps[0].1), steps[1..]);
    }
  }

  /** In every run without a reset, the heartbeat counter is the number of valid heartbeats queued so
      far, modulo 2^32, except for calls that have queued one and not yet counted it. */
  lemma HeartbeatsAreThoseQueued(depth: nat, hbTimeoutMs: nat, slots: seq<Timeline.Entry>, steps: seq<(nat, Action)>)
    requires |slots| == Timeline.DEPTH && NoReset(steps)
    ensures var s0 := Initial(depth, hbTimeoutMs, slots);
      var s := Run(s0, steps);
      && |Owing(s.threads)| <= BeatsQueued(s0, steps)
      && s.dev.heartbeats == (BeatsQueued(s0, steps) - |Owing(s.threads)|) % 0x1_0000_0000
  {
    hide Run, Arrivals, BeatsQueued, BeatsCounted;
    var s0 := Initial(depth, hbTimeoutMs, slots);
    BeatsBalance(s0, steps);
    CountedInRun(s0, steps);
    NothingYet(depth, hbTimeoutMs, slots);
    CountersCount(depth, hbTimeoutMs, slots, steps);
  }

  lemma NothingYet(depth: nat, hbTimeoutMs: nat, slots: seq<Timeline.Entry>)
    ensures var s0 := Initial(depth, hbTimeoutMs, slots);
      Owing(s0.threads) == {} && Arrivals(s0.dev.history.counted, Beat) == 0
  {
  }
}
