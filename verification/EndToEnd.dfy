/** From the firmware's tasks to the supervisor: the stages put together. */
module EndToEnd {
  import opened Sequences
  import opened Crc
  import opened Wire
  import opened Framing
  import opened Streams
  import opened Transmit
  import opened Injection
  import opened PtyBridges
  import Driver
  import Provenance
  import Admission
  import Timeline

  /** The frames on the wire: those sent, and the mutex holder's once all its bytes are out. */
  function Put(s: Tx): seq<Job> {
    s.sent +
    if Finished(s) != [] && s.holder.Held? && s.holder.task in s.tasks then [s.tasks[s.holder.task].job] else []
  }

  lemma PutFrames(s: Tx)
    requires AllSendable(s.sent)
    ensures AllSendable(Put(s)) && FramesOf(Put(s)) == FramesOf(s.sent) + Finished(s)
  {
    hide Pack, FramesOf;
    NothingAdded(s.sent);
    NothingAdded(FramesOf(s.sent));
    if Finished(s) != [] {
      FramesOfSnoc(s.sent, s.tasks[s.holder.task].job);
    }
  }

  lemma SentFrameArrives(j: Job)
    requires j.message.Sendable()
    ensures Driver.Admitted(j.message.Packed())
    ensures Admission.ReadFrame(j.message.Packed()) == j.message.Received()
  {
    j.message.PackedIsFrame();
    hide Validate, Pack, Checksum, ParseHeader, IsFrame;
    assert ParsedOf(Frame(j.message.Packed())) == [Admission.ReadFrame(j.message.Packed())];
  }

  /** However the firmware's tasks interleave and however the bytes are cut up on either side of
      the bridge, the link daemon extracts exactly the frames sent, in the order of the wire. */
  lemma FramesExtracted(buf: seq<byte>, tasks: seq<(Task, Action)>, chunks: seq<seq<byte>>, rechunked: seq<seq<byte>>)
    requires |buf| == MAX_FRAME_SIZE
    requires Flatten(chunks) == Run(Initial(buf), tasks).wire
    requires Flatten(rechunked) == Flatten(Bridge.FedPieces([], chunks))
    ensures var s := Run(Initial(buf), tasks);
      AllSendable(Put(s)) && Frames(FedItems([], rechunked)) == FramesOf(Put(s))
  {
    hide Run, Initial, Items, Residual, Frames, FedItems, Validate, Partial, InProgress, Finished, Put;
    WireAtomicity(buf, tasks);
    Bridge.BridgeTransparency(chunks, rechunked);
    PutFrames(Run(Initial(buf), tasks));
  }

  // ----- From the link daemon to the supervisor -----

  /** The frames read so far, with where they came from. */
  function Reads(x: Provenance.Traced): seq<Provenance.Arrival> {
    if |x.sys.dev.history.rxOut| <= |x.arrivals| then x.arrivals[..|x.sys.dev.history.rxOut|] else []
  }

  /** The places of the first frames that found room in the driver's queue, as many as were read. */
  function Delivered(x: Provenance.Traced): seq<nat> {
    var roomy, n := Provenance.Roomy(x.settled, x.sys.dev.depth), |Provenance.FromLink(Reads(x))|;
    if n <= |roomy| then roomy[..n] else []
  }

  /** What arrives of the frames handed over: they are pushed in order, and the reads that stem from
      the link are those that found room, in order. */
  predicate Arrived(frames: seq<seq<byte>>, x: Provenance.Traced) {
    var linked, places := Provenance.FromLink(Reads(x)), Delivered(x);
    && Provenance.FramesIn(Reads(x)) == x.sys.dev.history.rxOut
    && Provenance.SettledFrames(x.settled) <= frames
    && |linked| == |places|
    && (forall i :: 0 <= i < |places| ==> places[i] < |frames| && linked[i] == frames[places[i]])
    && (x.sys.dev.rx == [] ==> places == Provenance.Roomy(x.settled, x.sys.dev.depth))
  }

  /** The reads of a run and where they came from. */
  lemma ReadsAreArrivals(x: Provenance.Traced)
    requires Driver.Inv(x.sys) && Provenance.FramesIn(x.arrivals) == x.sys.dev.history.rxIn
    ensures Provenance.FramesIn(Reads(x)) == x.sys.dev.history.rxOut
    ensures Provenance.FromLink(Reads(x)) <= Provenance.FromLink(x.arrivals)
    ensures x.sys.dev.rx == [] ==> Reads(x) == x.arrivals
  {
    hide Driver.Inv, Provenance.FromLink;
    var h, rx := x.sys.dev.history, x.sys.dev.rx;
    assert h.rxOut + rx == h.rxIn by { Outgoing(x.sys); }
    Provenance.FromLinkPrefix(x.arrivals, |h.rxOut|);
    assert h.rxIn[..|h.rxOut|] == h.rxOut;
  }

  lemma Outgoing(s: Driver.System)
    requires Driver.Inv(s)
    ensures s.dev.history.rxOut + s.dev.rx == s.dev.history.rxIn
  {
  }

  lemma ArrivedInOrder(frames: seq<seq<byte>>, x: Provenance.Traced)
    requires Driver.Inv(x.sys) && Provenance.SettledFrames(x.settled) <= frames
    requires Provenance.FramesIn(x.arrivals) == x.sys.dev.history.rxIn
    requires Provenance.FromLink(x.arrivals) == Provenance.FoundRoom(x.settled, x.sys.dev.depth)
    ensures Arrived(frames, x)
  {
    hide Driver.Inv, Provenance.FramesIn, Provenance.FromLink, Provenance.FoundRoom, Provenance.Roomy, Reads;
    ReadsAreArrivals(x);
    Provenance.RoomyMeaning(x.settled, x.sys.dev.depth);
    var linked := Provenance.FromLink(Reads(x));
    var places := Provenance.Roomy(x.settled, x.sys.dev.depth)[..|linked|];
    assert Delivered(x) == places;
    forall i | 0 <= i < |linked|
      ensures places[i] < |frames| && linked[i] == frames[places[i]]
    {
      assert Provenance.SettledFrames(x.settled)[places[i]] == frames[places[i]];
    }
  }

  /** Handing frames over in order settles them in order. */
  lemma SettledAreFrames(frames: seq<seq<byte>>, x: Provenance.Traced, link: nat)
    requires Driver.AllAdmitted(frames) && x.begun <= frames
    requires Provenance.OnlyAdmitted(x.begun)
          == Provenance.SettledFrames(x.settled) + Provenance.Outstanding(x.sys, link)
    ensures Provenance.SettledFrames(x.settled) <= frames
  {
    hide Driver.Admitted, Provenance.OnlyAdmitted, Provenance.Outstanding, Provenance.SettledFrames;
    Provenance.AllAreAdmitted(x.begun);
    assert Provenance.SettledFrames(x.settled) <= x.begun;
  }

  /** One link daemon hands over admissible frames, in order, in any run of the driver. Then they are
      pushed in order; the supervisor parses one frame out of each read; and apart from the frames
      the driver made itself these are exactly the frames that found room in the queue, in order. */
  lemma FramesArrive(frames: seq<seq<byte>>, depth: nat, hbTimeoutMs: nat, slots: seq<Timeline.Entry>,
                     steps: seq<(nat, Driver.Action)>, link: nat)
    requires |slots| == Timeline.DEPTH && Driver.AllAdmitted(frames) && Provenance.SingleLink(steps, link)
    requires Provenance.Trace(Provenance.Start(depth, hbTimeoutMs, slots), steps).begun <= frames
    ensures var x := Provenance.Trace(Provenance.Start(depth, hbTimeoutMs, slots), steps);
      var fs := x.sys.dev.history.rxOut;
      && x.sys == Driver.Run(Driver.Initial(depth, hbTimeoutMs, slots), steps)
      && Arrived(frames, x)
      && AllFrames(fs) && Parsed(FedItems([], fs)) == Admission.ReadFrames(fs)
      && forall a :: a in Reads(x) && !a.fromLink ==> Provenance.IsSynthetic(a.frame)
  {
    hide Driver.Run, Driver.Inv, Frames, FedItems, Parsed, Arrived, Validate, Driver.AllAdmitted;
    hide Provenance.Trace, Provenance.FromLink, Provenance.FoundRoom, Provenance.OnlyAdmitted, Provenance.Outstanding;
    hide Provenance.IsSynthetic, Provenance.FramesIn, IsFrame, Provenance.SettledFrames;
    var x := Provenance.Trace(Provenance.Start(depth, hbTimeoutMs, slots), steps);
    Provenance.EveryFrameHasASource(depth, hbTimeoutMs, slots, steps);
    Provenance.LinkFramesArriveInOrder(depth, hbTimeoutMs, slots, steps, link);
    Driver.ReachableInv(depth, hbTimeoutMs, slots, steps);
    SettledAreFrames(frames, x, link);
    ArrivedInOrder(frames, x);
    Admission.EveryReadIsOneFrame(depth, hbTimeoutMs, slots, steps);
  }

  // ----- The whole way -----

  lemma JobFramesAdmitted(jobs: seq<Job>)
    requires AllSendable(jobs)
    ensures |FramesOf(jobs)| == |jobs| && Driver.AllAdmitted(FramesOf(jobs))
    ensures forall i :: 0 <= i < |jobs| ==> FramesOf(jobs)[i] == jobs[i].message.Packed()
  {
    hide FramesOf, Driver.Admitted, Pack;
    if jobs == [] {
      assert |FramesOf(jobs)| == 0 by { NoFrames(); }
    } else {
      FrameOfJob(jobs, 0);
    }
    forall i | 0 <= i < |jobs|
      ensures Driver.Admitted(FramesOf(jobs)[i]) && FramesOf(jobs)[i] == jobs[i].message.Packed()
    {
      FrameOfJob(jobs, i);
      SentFrameArrives(jobs[i]);
    }
  }

  /** What the supervisor should make of the messages with the given places. */
  function Messages(jobs: seq<Job>, places: seq<nat>): (r: seq<ParsedFrame>)
    requires AllSendable(jobs) && forall i :: 0 <= i < |places| ==> places[i] < |jobs|
    ensures |r| == |places| && forall i :: 0 <= i < |places| ==> r[i] == jobs[places[i]].message.Received()
  {
    seq(|places|, i requires 0 <= i < |places| => jobs[places[i]].message.Received())
  }

  lemma LinkedJob(j: Job, f: seq<byte>)
    requires j.message.Sendable() && f == j.message.Packed()
    ensures IsFrame(f) && |f| >= HEADER_SIZE && Admission.ReadFrame(f) == j.message.Received()
  {
    hide Validate, Pack, Checksum, ParseHeader;
    SentFrameArrives(j);
  }

  lemma ArrivedMessages(jobs: seq<Job>, x: Provenance.Traced)
    requires AllSendable(jobs) && Arrived(FramesOf(jobs), x)
    ensures var linked, places := Provenance.FromLink(Reads(x)), Delivered(x);
      && AllFrames(linked) && (forall i :: 0 <= i < |places| ==> places[i] < |jobs|)
      && Admission.ReadFrames(linked) == Messages(jobs, places)
  {
    hide FramesOf, Driver.AllAdmitted, Pack, IsFrame, Reads, Delivered, Provenance.FromLink, Validate, ParseHeader,
      Checksum;
    JobFramesAdmitted(jobs);
    var linked, places := Provenance.FromLink(Reads(x)), Delivered(x);
    forall i | 0 <= i < |linked|
      ensures IsFrame(linked[i]) && |linked[i]| >= HEADER_SIZE && places[i] < |jobs|
      ensures Admission.ReadFrame(linked[i]) == jobs[places[i]].message.Received()
    {
      LinkedJob(jobs[places[i]], linked[i]);
    }
    assert Admission.ReadFrames(linked) == Messages(jobs, places);
  }

  /** The firmware's tasks interleave in any way, the bytes are cut up in any way on either side of a
      bridge that injects nothing, and one link daemon hands over what it extracts, in order, in any
      run of the driver. Then what the supervisor parses is, apart from the frames the driver made
      itself, exactly the messages that found room in the queue, in the order of the wire. */
  lemma MessagesArrive(buf: seq<byte>, tasks: seq<(Task, Action)>, chunks: seq<seq<byte>>, rechunked: seq<seq<byte>>,
                       depth: nat, hbTimeoutMs: nat, slots: seq<Timeline.Entry>,
                       steps: seq<(nat, Driver.Action)>, link: nat)
    requires |buf| == MAX_FRAME_SIZE && |slots| == Timeline.DEPTH
    requires Flatten(chunks) == Run(Initial(buf), tasks).wire
    requires Flatten(rechunked) == Flatten(Bridge.FedPieces([], chunks))
    requires Provenance.SingleLink(steps, link)
    requires Provenance.Trace(Provenance.Start(depth, hbTimeoutMs, slots), steps).begun
          <= Frames(FedItems([], rechunked))
    ensures var jobs := Put(Run(Initial(buf), tasks));
      var x := Provenance.Trace(Provenance.Start(depth, hbTimeoutMs, slots), steps);
      var fs, linked, places := x.sys.dev.history.rxOut, Provenance.FromLink(Reads(x)), Delivered(x);
      && x.sys == Driver.Run(Driver.Initial(depth, hbTimeoutMs, slots), steps)
      && AllSendable(jobs) && Arrived(FramesOf(jobs), x)
      && AllFrames(fs) && Parsed(FedItems([], fs)) == Admission.ReadFrames(fs)
      && (forall a :: a in Reads(x) && !a.fromLink ==> Provenance.IsSynthetic(a.frame))
      && AllFrames(linked) && (forall i :: 0 <= i < |places| ==> places[i] < |jobs|)
      && Admission.ReadFrames(linked) == Messages(jobs, places)
  {
    hide Run, Initial, Driver.Run, Put, Frames, FedItems, Parsed, FramesOf, Arrived, Reads, Delivered;
    hide Provenance.Trace, Provenance.FromLink, Provenance.IsSynthetic, IsFrame, Driver.AllAdmitted;
    var jobs, x := Put(Run(Initial(buf), tasks)), Provenance.Trace(Provenance.Start(depth, hbTimeoutMs, slots), steps);
    FramesExtracted(buf, tasks, chunks, rechunked);
    JobFramesAdmitted(jobs);
    FramesArrive(FramesOf(jobs), depth, hbTimeoutMs, slots, steps, link);
    ArrivedMessages(jobs, x);
  }

  // ----- The whole way through a bridge that injects faults -----

  /** The wire is the frames put out and then bytes that decide nothing yet. */
  lemma WireWithTail(buf: seq<byte>, tasks: seq<(Task, Action)>)
    requires |buf| == MAX_FRAME_SIZE
    ensures var s := Run(Initial(buf), tasks);
      AllSendable(Put(s)) && s.wire == Flatten(FramesOf(Put(s))) + Residual(s.wire)
  {
    hide Run, Initial, Items, Residual, Frames, Validate, Partial, InProgress, FramesOf, Put, Flatten;
    WireAtomicity(buf, tasks);
    var s := Run(Initial(buf), tasks);
    PutFrames(s);
    if Finished(s) == [] {
      NothingAdded(FramesOf(s.sent));
    } else {
      FlattenConcat(FramesOf(s.sent), [Partial(s)]);
      FlattenOne(Partial(s));
      NothingAdded(s.wire);
    }
  }

  lemma JobFramesValid(jobs: seq<Job>)
    requires AllSendable(jobs)
    ensures AllValid(FramesOf(jobs))
  {
    hide FramesOf, Pack, Validate, IsFrame, Driver.AllAdmitted;
    JobFramesAdmitted(jobs);
    forall i | 0 <= i < |jobs|
      ensures IsFrame(FramesOf(jobs)[i]) && Validate(FramesOf(jobs)[i]) == Ok
    {
      jobs[i].message.PackedIsFrame();
    }
  }

  /** What goes out is admissible, damaged or not. */
  lemma OutputAdmitted(cfg: Config, ps: seq<Numbered>)
    requires AllValid(Plain(ps))
    ensures Driver.AllAdmitted(Injected(cfg, ps))
  {
    hide Validate, IsFrame, Injected, Kept, Drops, Corrupts, Forwarded, Plain;
    InjectedAreFrames(cfg, ps);
    InjectedVerdicts(cfg, ps);
  }

  /** The message behind the j-th frame let through. */
  function Origin(cfg: Config, ps: seq<Numbered>, j: nat): nat
    requires j < |Kept(cfg, ps)|
  {
    Kept(cfg, ps)[j]
  }

  /** What the supervisor makes of the j-th frame let through: the message it was made of, or, if the
      plan damages its number, a frame with a bad checksum. */
  ghost predicate ReadAsPlanned(cfg: Config, jobs: seq<Job>, ps: seq<Numbered>, j: nat, f: seq<byte>) {
    && j < |Kept(cfg, ps)| && |jobs| == |ps|
    && var k := Origin(cfg, ps, j);
       && k < |jobs| && jobs[k].message.Sendable()
       && !Drops(cfg, ps[k].n, jobs[k].message.Packed())
       && |f| >= HEADER_SIZE
       && if Corrupts(cfg, ps[k].n, jobs[k].message.Packed())
          then Admission.ReadFrame(f).result == BadChecksum
          else Admission.ReadFrame(f) == jobs[k].message.Received()
  }

  lemma OutputRead(cfg: Config, jobs: seq<Job>, ps: seq<Numbered>, j: nat)
    requires AllSendable(jobs) && Plain(ps) == FramesOf(jobs) && j < |Injected(cfg, ps)|
    ensures ReadAsPlanned(cfg, jobs, ps, j, Injected(cfg, ps)[j])
  {
    hide Validate, IsFrame, Injected, Kept, Drops, Corrupts, FramesOf, Pack, ParseHeader, Driver.AllAdmitted;
    JobFramesValid(jobs);
    JobFramesAdmitted(jobs);
    InjectedVerdicts(cfg, ps);
    InjectedAreFrames(cfg, ps);
    var k := Origin(cfg, ps, j);
    assert Plain(ps)[k] == ps[k].piece == jobs[k].message.Packed();
    FrameHasHeader(Injected(cfg, ps)[j]);
    if !Corrupts(cfg, ps[k].n, ps[k].piece) {
      SentFrameArrives(jobs[k]);
    }
  }

  /** As `MessagesArrive`, through a bridge that drops and damages frames by their number in the count
      it keeps over both directions, while the other direction carries anything at all: what the
      supervisor parses is, apart from the driver's own frames, exactly what the injector let through
      and found room in the queue, in order, each undamaged frame being its message. */
  lemma MessagesArriveAsPlanned(buf: seq<byte>, tasks: seq<(Task, Action)>,
                                cfg: Config, dir: Direction, inputs: seq<Read>, rechunked: seq<seq<byte>>,
                                depth: nat, hbTimeoutMs: nat, slots: seq<Timeline.Entry>,
                                steps: seq<(nat, Driver.Action)>, link: nat)
    requires |buf| == MAX_FRAME_SIZE && |slots| == Timeline.DEPTH
    requires Flatten(Chunks(dir, inputs)) == Run(Initial(buf), tasks).wire
    requires Flatten(rechunked) == Flatten(PtyBridges.Output(cfg, dir, Forwarding(inputs).handled))
    requires Provenance.SingleLink(steps, link)
    requires Provenance.Trace(Provenance.Start(depth, hbTimeoutMs, slots), steps).begun
          <= Frames(FedItems([], rechunked))
    ensures var jobs, ps := Put(Run(Initial(buf), tasks)), Along(dir, Forwarding(inputs).handled);
      var x := Provenance.Trace(Provenance.Start(depth, hbTimeoutMs, slots), steps);
      var linked, places := Provenance.FromLink(Reads(x)), Delivered(x);
      && x.sys == Driver.Run(Driver.Initial(depth, hbTimeoutMs, slots), steps)
      && AllSendable(jobs) && Plain(ps) == FramesOf(jobs)
      && Arrived(Injected(cfg, ps), x)
      && (forall a :: a in Reads(x) && !a.fromLink ==> Provenance.IsSynthetic(a.frame))
      && |linked| == |places|
      && forall i :: 0 <= i < |linked| ==> ReadAsPlanned(cfg, jobs, ps, places[i], linked[i])
  {
    hide Run, Initial, Driver.Run, Put, Frames, FedItems, Parsed, FramesOf, Reads, Delivered, Residual, Decide;
    hide Provenance.Trace, Provenance.FromLink, Provenance.IsSynthetic, IsFrame, Validate, Driver.AllAdmitted,
      Provenance.FramesIn;
    hide Along, Forwarding, Chunks, Injected, ReadAsPlanned, Flatten, Plain, Provenance.SettledFrames, Provenance.Roomy;
    var s := Run(Initial(buf), tasks);
    var jobs, ps := Put(s), Along(dir, Forwarding(inputs).handled);
    var x := Provenance.Trace(Provenance.Start(depth, hbTimeoutMs, slots), steps);
    WireWithTail(buf, tasks);
    JobFramesValid(jobs);
    InjectionIsFrameExact(cfg, dir, inputs, FramesOf(jobs), Residual(s.wire), rechunked);
    OutputAdmitted(cfg, ps);
    FramesArrive(Injected(cfg, ps), depth, hbTimeoutMs, slots, steps, link);
    var linked, places := Provenance.FromLink(Reads(x)), Delivered(x);
    forall i | 0 <= i < |linked|
      ensures ReadAsPlanned(cfg, jobs, ps, places[i], linked[i])
    {
      OutputRead(cfg, jobs, ps, places[i]);
    }
  }
}
