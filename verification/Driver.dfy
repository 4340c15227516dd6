/** The kernel driver: everything that happens under its one lock, as atomic
    sections. A system call, the watchdog and the recovery work are scripts of such
    sections, and the sections of different scripts interleave freely. */
module Driver {
  import Arithmetic
  import opened Crc
  import opened Wire
  import Timeline

  const WORD: nat := 0x1_0000_0000

  /** Increment of a 32-bit counter. */
  function Inc(n: nat): nat { (n + 1) % WORD }

  datatype Link = LinkBooting | LinkOk | LinkTimeout | LinkRecovering

  const LINK_RECOVERING: byte := 3
  const TASK_HANG: byte := 1

  datatype Errors = Errors(total: nat, magic: nat, version: nat, length: nat, checksum: nat, last: ValidateResult)

  const NO_ERRORS: Errors := Errors(0, 0, 0, 0, 0, Ok)

  function Noted(e: Errors, v: ValidateResult): Errors {
    var e := e.(total := Inc(e.total), last := v);
    match v
    case BadMagic => e.(magic := Inc(e.magic))
    case BadVersion => e.(version := Inc(e.version))
    case BadLength => e.(length := Inc(e.length))
    case BadChecksum => e.(checksum := Inc(e.checksum))
    case Ok => e
  }

  datatype WatchEvent = Armed | Fired
  datatype WorkEvent = Scheduled | Ran

  /** What the plain counters count. */
  datatype Counted = Beat | Dropped | Expired | Injected | Recovered

  /** The record of the latest fault. */
  datatype Fault = Fault(kind: byte, detail: nat, ns: nat)

  const NO_FAULT: Fault := Fault(0, 0, 0)

  /** What has happened so far; nothing in the driver depends on it. */
  datatype History = History(
    rxIn: seq<seq<byte>>, rxOut: seq<seq<byte>>,
    txIn: seq<seq<byte>>, txOut: seq<seq<byte>>,
    errors: seq<ValidateResult>,            // since the last reset
    log: seq<Timeline.Entry>,               // since the last reset
    counted: seq<Counted>,                  // since the last reset
    faults: seq<Fault>,                     // since the last reset
    watch: seq<WatchEvent>, work: seq<WorkEvent>)

  datatype Dev = Dev(
    rx: seq<seq<byte>>, tx: seq<seq<byte>>, depth: nat, highWatermark: nat,
    link: Link,
    heartbeats: nat, faults: nat, dropped: nat, timeouts: nat, retries: nat,
    errors: Errors, lastFault: Fault,
    synthSeq: bv16,
    hbTimeoutMs: nat,
    armed: bool, workPending: bool,
    ring: Timeline.Ring,
    history: History)

  // ----- Sections -----

  datatype Synthetic =
    | FaultEvent(fault: byte, severity: byte, detail: bv16)
    | RecoveryReport(recovered: byte, newState: byte)

  datatype Section =
    | NoteError(v: ValidateResult)
    | PushRx(frame: seq<byte>, kind: Timeline.Kind, ends: bool)   // `ends`: the call is over if the push fails
    | PushTx(frame: seq<byte>)
    | NoteDrop
    | MarkHeartbeat
    | SetTimeout(ms: nat)
    | Rearm
    | Expire
    | Inject(fault: byte)
    | Synthesize(body: Synthetic)
    | Schedule
    | Recover

  /** Readings of the clocks a section may take. */
  datatype Clock = Clock(ns: nat, faultNs: nat, stamp: Stamp)

  /** The times in a frame the driver makes: one read for the payload, then one for the header. */
  datatype Stamp = Stamp(payloadMs: bv32, headerMs: bv32)

  function Remember(d: Dev, kind: Timeline.Kind, seqId: bv16, c: Clock): (d': Dev)
    requires Timeline.Shaped(d.ring)
    ensures Timeline.Shaped(d'.ring)
  {
    var e := Timeline.Entry(c.ns, kind, seqId);
    d.(ring := Timeline.Record(d.ring, e), history := d.history.(log := d.history.log + [e]))
  }

  function Note(d: Dev, c: Counted): Dev {
    d.(history := d.history.(counted := d.history.counted + [c]))
  }

  function Blame(d: Dev, f: Fault): Dev {
    d.(lastFault := f, history := d.history.(faults := d.history.faults + [f]))
  }

  /** The lengths a queue slot can hold. */
  predicate Sized(frame: seq<byte>) {
    0 < |frame| <= MAX_FRAME_SIZE
  }

  function SeqOf(frame: seq<byte>): bv16 {
    if |frame| < HEADER_SIZE then 0 else ParseHeader(frame).sequenceId
  }

  function AddRx(d: Dev, frame: seq<byte>): Dev {
    var rx := d.rx + [frame];
    d.(rx := rx,
       highWatermark := if |rx| > d.highWatermark then |rx| else d.highWatermark,
       history := d.history.(rxIn := d.history.rxIn + [frame]))
  }

  function AddTx(d: Dev, frame: seq<byte>): Dev {
    d.(tx := d.tx + [frame], history := d.history.(txIn := d.history.txIn + [frame]))
  }

  /** What one section does to the device. */
  function Exec(d: Dev, s: Section, c: Clock): (d': Dev)
    requires Timeline.Shaped(d.ring)
    ensures Timeline.Shaped(d'.ring)
  {
    match s
    case NoteError(v) => d.(errors := Noted(d.errors, v), history := d.history.(errors := d.history.errors + [v]))
    case PushRx(frame, kind, _) =>
      if !Sized(frame) || |d.rx| >= d.depth then d else Remember(AddRx(d, frame), kind, SeqOf(frame), c)
    case PushTx(frame) =>
      if !Sized(frame) || |d.tx| >= d.depth then d else Remember(AddTx(d, frame), Timeline.Recovery, SeqOf(frame), c)
    case NoteDrop => Note(d.(dropped := Inc(d.dropped)), Dropped)
    case MarkHeartbeat => Note(d.(heartbeats := Inc(d.heartbeats), link := LinkOk), Beat)
    case SetTimeout(ms) => d.(hbTimeoutMs := ms)
    case Rearm => d.(armed := true, history := d.history.(watch := d.history.watch + [Armed]))
    case Expire =>
      var d := Note(d.(timeouts := Inc(d.timeouts), link := LinkTimeout, faults := Inc(d.faults)), Expired);
      Remember(Blame(d, Fault(TASK_HANG, 1, c.faultNs)), Timeline.TimedOut, 0, c)
    case Inject(fault) => Blame(Note(d.(faults := Inc(d.faults)), Injected), Fault(fault, 0, c.faultNs))
    case Synthesize(_) => d.(synthSeq := NextSeq(d.synthSeq))
    case Schedule => d.(workPending := true, history := d.history.(work := d.history.work + [Scheduled]))
    case Recover =>
      Remember(Note(d.(retries := Inc(d.retries), link := LinkRecovering), Recovered), Timeline.Recovery, 0, c)
  }

  function SynthPayload(b: Synthetic, ms: bv32): (p: seq<byte>)
    ensures |p| == 8
  {
    match b
    case FaultEvent(fault, severity, detail) =>
      [fault, severity, Lo(detail), Hi(detail), Byte0(ms), Byte1(ms), Byte2(ms), Byte3(ms)]
    case RecoveryReport(recovered, newState) =>
      [recovered, newState, 0, 0, Byte0(ms), Byte1(ms), Byte2(ms), Byte3(ms)]
  }

  function SynthFrame(b: Synthetic, seqId: bv16, at: Stamp): (f: seq<byte>)
    ensures |f| == HEADER_SIZE + 8
  {
    FrameOf(if b.FaultEvent? then FAULT_EVENT else RECOVERY_REPORT, seqId, at.headerMs,
      SynthPayload(b, at.payloadMs), 8)
  }

  function SynthPush(b: Synthetic, seqId: bv16, at: Stamp): Section {
    PushRx(SynthFrame(b, seqId, at), if b.FaultEvent? then Timeline.FaultInject else Timeline.Recovery, false)
  }

  /** What is left of a script after its first section. */
  function Continue(d: Dev, script: seq<Section>, c: Clock): seq<Section>
    requires script != []
  {
    var tail := script[1..];
    match script[0]
    case PushRx(frame, _, ends) =>
      if Sized(frame) && |d.rx| < d.depth then tail
      else if !Sized(frame) then (if ends then [] else tail)
      else if ends then [NoteDrop]
      else [NoteDrop] + tail
    case PushTx(frame) =>
      if Sized(frame) && |d.tx| < d.depth then tail else if !Sized(frame) then [] else [NoteDrop]
    case Synthesize(b) =>
      [SynthPush(b, d.synthSeq, c.stamp)] + tail
    case _ => tail
  }

  // ----- Calls -----

  /** PUSH_RX: a frame the link daemon took off the UART. A bad checksum is recorded and let
      through, so that the supervisor can refuse the frame; anything else bad is turned away. */
  function RxScript(frame: seq<byte>): seq<Section> {
    if |frame| < HEADER_SIZE || |frame| > MAX_FRAME_SIZE then []
    else
      var h := ParseHeader(frame);
      if h.magic != MAGIC then [NoteError(BadMagic)]
      else if h.version != VERSION then [NoteError(BadVersion)]
      else if h.payloadLength as nat > MAX_PAYLOAD then [NoteError(BadLength)]
      else if |frame| != HEADER_SIZE + h.payloadLength as nat then [NoteError(BadLength)]
      else
        var v := Validate(frame);
        if v != Ok && v != BadChecksum then [NoteError(v)]
        else if v == BadChecksum then [NoteError(v), PushRx(frame, RxKind(frame), true)]
        else [PushRx(frame, RxKind(frame), true)] + if h.kind == HEARTBEAT then [MarkHeartbeat, Rearm] else []
  }

  function RxKind(frame: seq<byte>): Timeline.Kind
    requires |frame| >= HEADER_SIZE
  {
    if ParseHeader(frame).kind == HEARTBEAT then Timeline.Heartbeat else Timeline.FrameRx
  }

  /** write(): a frame from the supervisor. */
  function TxScript(buf: seq<byte>): seq<Section> {
    if |buf| < HEADER_SIZE || |buf| > MAX_FRAME_SIZE then []
    else if Validate(buf) != Ok then [NoteError(Validate(buf))]
    else [PushTx(buf)]
  }

  datatype Call =
    | PushRxFrame(frame: seq<byte>)
    | Write(buf: seq<byte>)
    | SetHbTimeout(ms: nat)
    | InjectFault(fault: byte)
    | ForceRecovery

  function Script(call: Call): seq<Section> {
    match call
    case PushRxFrame(frame) => RxScript(frame)
    case Write(buf) => TxScript(buf)
    case SetHbTimeout(ms) => if ms == 0 then [] else [SetTimeout(ms), Rearm]
    case InjectFault(fault) => [Inject(fault), Synthesize(FaultEvent(fault, 2, 0))]
    case ForceRecovery => [Schedule]
  }

  const WATCHDOG_SCRIPT: seq<Section> := [Expire, Synthesize(FaultEvent(TASK_HANG, 1, 1)), Schedule]
  const WORK_SCRIPT: seq<Section> := [Recover, Synthesize(RecoveryReport(1, LINK_RECOVERING))]

  // ----- The system -----

  datatype System = System(dev: Dev, threads: map<nat, seq<Section>>)

  datatype Action =
    | Begin(call: Call)     // a call enters the driver
    | Proceed(c: Clock)     // a call runs its next section
    | TimerFires            // the watchdog expires, if armed
    | WorkRuns              // the recovery work starts, if pending
    | Read                  // the oldest RX frame leaves
    | PopTx                 // the oldest TX frame leaves
    | ResetStats

  function Fire(d: Dev): Dev {
    d.(armed := false, history := d.history.(watch := d.history.watch + [Fired]))
  }

  function StartWork(d: Dev): Dev {
    d.(workPending := false, history := d.history.(work := d.history.work + [Ran]))
  }

  function TakeRx(d: Dev): Dev {
    if d.rx == [] then d
    else d.(rx := d.rx[1..], history := d.history.(rxOut := d.history.rxOut + [d.rx[0]]))
  }

  function TakeTx(d: Dev): Dev {
    if d.tx == [] then d
    else d.(tx := d.tx[1..], history := d.history.(txOut := d.history.txOut + [d.tx[0]]))
  }

  function ClearStats(d: Dev): Dev {
    d.(heartbeats := 0, faults := 0, dropped := 0, timeouts := 0, retries := 0, highWatermark := 0,
       errors := NO_ERRORS, lastFault := NO_FAULT, ring := Timeline.Reset(d.ring),
       history := d.history.(errors := [], log := [], counted := [], faults := []))
  }

  /** A step of thread t; a step that is not enabled changes nothing. */
  function Step(s: System, t: nat, a: Action): (s': System)
    requires Timeline.Shaped(s.dev.ring)
    ensures Timeline.Shaped(s'.dev.ring)
  {
    match a
    case Begin(call) => if t in s.threads then s else s.(threads := s.threads[t := Script(call)])
    case Proceed(c) =>
      if t !in s.threads then s
      else if s.threads[t] == [] then s.(threads := s.threads - {t})
      else System(Exec(s.dev, s.threads[t][0], c), s.threads[t := Continue(s.dev, s.threads[t], c)])
    case TimerFires =>
      if s.dev.armed && t !in s.threads then System(Fire(s.dev), s.threads[t := WATCHDOG_SCRIPT]) else s
    case WorkRuns =>
      if s.dev.workPending && t !in s.threads then System(StartWork(s.dev), s.threads[t := WORK_SCRIPT]) else s
    case Read => s.(dev := TakeRx(s.dev))
    case PopTx => s.(dev := TakeTx(s.dev))
    case ResetStats => s.(dev := ClearStats(s.dev))
  }

  // ----- The invariant -----

  /** What an RX slot may hold: one whole frame whose only possible fault is its checksum. */
  predicate Admitted(f: seq<byte>) {
    IsFrame(f) && (Validate(f) == Ok || Validate(f) == BadChecksum)
  }

  predicate Sendable(f: seq<byte>) {
    HEADER_SIZE <= |f| <= MAX_FRAME_SIZE && Validate(f) == Ok
  }

  /** A bounded FIFO: what left, then what waits, is what entered. */
  predicate Queued(depth: nat, queue: seq<seq<byte>>, entered: seq<seq<byte>>, left: seq<seq<byte>>) {
    |queue| <= depth && left + queue == entered
  }

  predicate AllAdmitted(fs: seq<seq<byte>>) {
    forall i :: 0 <= i < |fs| ==> Admitted(fs[i])
  }

  predicate AllSendable(fs: seq<seq<byte>>) {
    forall i :: 0 <= i < |fs| ==> Sendable(fs[i])
  }

  /** How often x occurs. */
  function Arrivals<T(==)>(w: seq<T>, x: T): nat
    decreases |w|
  {
    if w == [] then 0 else Arrivals(w[..|w| - 1], x) + if w[|w| - 1] == x then 1 else 0
  }

  /** The counters are the numbers of errors recorded, in all and of each class. */
  predicate Tallies(e: Errors, log: seq<ValidateResult>) {
    && e.total == |log| % WORD
    && e.magic == Arrivals(log, BadMagic) % WORD
    && e.version == Arrivals(log, BadVersion) % WORD
    && e.length == Arrivals(log, BadLength) % WORD
    && e.checksum == Arrivals(log, BadChecksum) % WORD
    && e.last == (if log == [] then Ok else log[|log| - 1])
    && Ok !in log
  }

  /** Each plain counter is the number of its events, modulo 2^32; a watchdog expiry and an
      injection both count as faults. */
  predicate Counts(d: Dev) {
    var e := d.history.counted;
    && d.heartbeats == Arrivals(e, Beat) % WORD
    && d.dropped == Arrivals(e, Dropped) % WORD
    && d.timeouts == Arrivals(e, Expired) % WORD
    && d.retries == Arrivals(e, Recovered) % WORD
    && d.faults == (Arrivals(e, Expired) + Arrivals(e, Injected)) % WORD
  }

  /** Each firing directly follows an arming, and an arming not yet followed by one is pending. */
  predicate Watched(armed: bool, w: seq<WatchEvent>) {
    && (forall i :: 0 <= i < |w| && w[i].Fired? ==> i > 0 && w[i - 1].Armed?)
    && (armed <==> w != [] && w[|w| - 1].Armed?)
  }

  /** Requests that pile up are served by one run; none is forgotten. */
  predicate Served(pending: bool, w: seq<WorkEvent>) {
    && (forall i :: 0 <= i < |w| && w[i].Ran? ==> i > 0 && w[i - 1].Scheduled?)
    && (pending <==> w != [] && w[|w| - 1].Scheduled?)
  }

  /** The record shows the latest fault. */
  predicate Blamed(last: Fault, faults: seq<Fault>) {
    last == if faults == [] then NO_FAULT else faults[|faults| - 1]
  }

  predicate QueueInv(d: Dev) {
    var h := d.history;
    && Queued(d.depth, d.rx, h.rxIn, h.rxOut) && Queued(d.depth, d.tx, h.txIn, h.txOut)
    && d.highWatermark <= d.depth
    && AllAdmitted(h.rxIn) && AllSendable(h.txIn)
  }

  predicate RecordInv(d: Dev) {
    var h := d.history;
    && Tallies(d.errors, h.errors) && Blamed(d.lastFault, h.faults)
    && Watched(d.armed, h.watch) && Served(d.workPending, h.work)
    && Timeline.Represents(d.ring, h.log)
  }

  predicate DevInv(d: Dev) {
    QueueInv(d) && RecordInv(d) && Counts(d)
  }

  predicate Proper(s: Section) {
    match s
    case NoteError(v) => v != Ok
    case PushRx(f, _, _) => Admitted(f)
    case PushTx(f) => Sendable(f)
    case _ => true
  }

  predicate ProperScript(script: seq<Section>) {
    forall i :: 0 <= i < |script| ==> Proper(script[i])
  }

  predicate Inv(s: System) {
    DevInv(s.dev) && forall t :: t in s.threads ==> ProperScript(s.threads[t])
  }

  // ----- Every section keeps it -----

  lemma ArrivalsSnoc<T>(w: seq<T>, y: T, x: T)
    ensures Arrivals(w + [y], x) == Arrivals(w, x) + if y == x then 1 else 0
  {
    assert (w + [y])[..|w|] == w;
  }

  lemma IncMod(n: nat)
    ensures Inc(n % WORD) == (n + 1) % WORD
  {
    var q, r := n / WORD, n % WORD;
    if r == WORD - 1 {
      Arithmetic.QuotientUnique(n + 1, WORD, q + 1, 0);
    } else {
      Arithmetic.QuotientUnique(n + 1, WORD, q, r + 1);
    }
  }

  lemma NotedTallies(e: Errors, log: seq<ValidateResult>, v: ValidateResult)
    requires Tallies(e, log) && v != Ok
    ensures Tallies(Noted(e, v), log + [v])
  {
    ArrivalsSnoc(log, v, BadMagic);
    ArrivalsSnoc(log, v, BadVersion);
    ArrivalsSnoc(log, v, BadLength);
    ArrivalsSnoc(log, v, BadChecksum);
    IncMod(|log|);
    IncMod(Arrivals(log, v));
    hide Arrivals, Inc;
  }

  /** An accepted frame goes to the end of its queue. */
  lemma QueuedMore(depth: nat, queue: seq<seq<byte>>, entered: seq<seq<byte>>, left: seq<seq<byte>>, f: seq<byte>)
    requires Queued(depth, queue, entered, left) && |queue| < depth
    ensures Queued(depth, queue + [f], entered + [f], left)
  {
  }

  lemma QueuedLess(depth: nat, queue: seq<seq<byte>>, entered: seq<seq<byte>>, left: seq<seq<byte>>)
    requires Queued(depth, queue, entered, left) && queue != []
    ensures Queued(depth, queue[1..], entered, left + [queue[0]])
  {
  }

  lemma NotedCounts(d: Dev, d': Dev, c: Counted)
    requires Counts(d) && d'.history.counted == d.history.counted + [c]
    requires d'.heartbeats == (if c == Beat then Inc(d.heartbeats) else d.heartbeats)
    requires d'.dropped == (if c == Dropped then Inc(d.dropped) else d.dropped)
    requires d'.timeouts == (if c == Expired then Inc(d.timeouts) else d.timeouts)
    requires d'.retries == (if c == Recovered then Inc(d.retries) else d.retries)
    requires d'.faults == (if c == Expired || c == Injected then Inc(d.faults) else d.faults)
    ensures Counts(d')
  {
    hide Inc, Arrivals;
    var w := d.history.counted;
    ArrivalsSnoc(w, c, Beat);
    ArrivalsSnoc(w, c, Dropped);
    ArrivalsSnoc(w, c, Expired);
    ArrivalsSnoc(w, c, Recovered);
    ArrivalsSnoc(w, c, Injected);
    IncMod(Arrivals(w, c));
    IncMod(Arrivals(w, Expired) + Arrivals(w, Injected));
  }

  lemma CountsKept(d: Dev, d': Dev)
    requires Counts(d) && d'.history.counted == d.history.counted
    requires d'.heartbeats == d.heartbeats && d'.dropped == d.dropped && d'.timeouts == d.timeouts
    requires d'.retries == d.retries && d'.faults == d.faults
    ensures Counts(d')
  {
    hide Arrivals;
  }

  lemma NothingCounted(d: Dev)
    requires d.history.counted == [] && d.heartbeats == 0 && d.dropped == 0 && d.timeouts == 0 && d.retries == 0
      && d.faults == 0
    ensures Counts(d)
  {
  }

  lemma ExecCounts(d: Dev, s: Section, c: Clock)
    requires Counts(d) && Timeline.Shaped(d.ring)
    ensures Counts(Exec(d, s, c))
  {
    hide Counts, Inc, Noted, SeqOf, Timeline.Record;
    var d' := Exec(d, s, c);
    if s.PushRx? || s.PushTx? {
      PushCountsNothing(d, s, c);
      CountsKept(d, d');
    } else {
      match s {
        case NoteDrop => NotedCounts(d, d', Dropped);
        case MarkHeartbeat => NotedCounts(d, d', Beat);
        case Expire => NotedCounts(d, d', Expired);
        case Inject(_) => NotedCounts(d, d', Injected);
        case Recover => NotedCounts(d, d', Recovered);
        case _ => CountsKept(d, d');
      }
    }
  }

  lemma PushCountsNothing(d: Dev, s: Section, c: Clock)
    requires (s.PushRx? || s.PushTx?) && Timeline.Shaped(d.ring)
    ensures var d' := Exec(d, s, c);
      && d'.history.counted == d.history.counted && d'.heartbeats == d.heartbeats && d'.dropped == d.dropped
      && d'.timeouts == d.timeouts && d'.retries == d.retries && d'.faults == d.faults
  {
    hide SeqOf, Timeline.Record;
  }

  lemma ExecQueues(d: Dev, s: Section, c: Clock)
    requires QueueInv(d) && Proper(s) && Timeline.Shaped(d.ring)
    ensures QueueInv(Exec(d, s, c))
  {
    hide Queued, Admitted, Sendable, Noted, Inc, Timeline.Record, SeqOf;
    var h := d.history;
    match s {
      case PushRx(f, kind, _) =>
        if |d.rx| < d.depth { QueuedMore(d.depth, d.rx, h.rxIn, h.rxOut, f); }
      case PushTx(f) =>
        if |d.tx| < d.depth { QueuedMore(d.depth, d.tx, h.txIn, h.txOut, f); }
      case _ =>
    }
  }

  lemma ExecTimeline(d: Dev, s: Section, c: Clock)
    requires Timeline.Represents(d.ring, d.history.log) && Timeline.Shaped(d.ring)
    ensures var d' := Exec(d, s, c); Timeline.Represents(d'.ring, d'.history.log)
  {
    hide Noted, Inc, Timeline.Represents, Timeline.Record, SeqOf;
    var log := d.history.log;
    match s {
      case PushRx(f, kind, _) =>
        Timeline.RecordKeeps(d.ring, log, Timeline.Entry(c.ns, kind, SeqOf(f)));
      case PushTx(f) =>
        Timeline.RecordKeeps(d.ring, log, Timeline.Entry(c.ns, Timeline.Recovery, SeqOf(f)));
      case Expire =>
        Timeline.RecordKeeps(d.ring, log, Timeline.Entry(c.ns, Timeline.TimedOut, 0));
      case Recover =>
        Timeline.RecordKeeps(d.ring, log, Timeline.Entry(c.ns, Timeline.Recovery, 0));
      case _ =>
    }
  }

  lemma ExecRecords(d: Dev, s: Section, c: Clock)
    requires RecordInv(d) && Proper(s) && Timeline.Shaped(d.ring)
    ensures RecordInv(Exec(d, s, c))
  {
    hide Admitted, Sendable, Tallies, Noted, Inc, Timeline.Represents, Timeline.Record, SeqOf;
    ExecTimeline(d, s, c);
    if s.NoteError? {
      NotedTallies(d.errors, d.history.errors, s.v);
    }
  }

  /** No section breaks the device's invariant. */
  lemma ExecKeeps(d: Dev, s: Section, c: Clock)
    requires DevInv(d) && Proper(s)
    ensures Timeline.Shaped(d.ring) && DevInv(Exec(d, s, c))
  {
    assert Timeline.Shaped(d.ring);
    hide QueueInv, RecordInv, Counts, Exec, Proper;
    ExecRecords(d, s, c);
    ExecQueues(d, s, c);
    ExecCounts(d, s, c);
  }

  lemma SynthAdmitted(b: Synthetic, seqId: bv16, at: Stamp)
    ensures Proper(SynthPush(b, seqId, at))
  {
    hide Validate, Pack, SynthPayload, IsFrame, Checksum;
    var kind := if b.FaultEvent? then FAULT_EVENT else RECOVERY_REPORT;
    var h := InitHeader(kind, seqId, 8, at.headerMs);
    var p := SynthPayload(b, at.payloadMs);
    PackValidates(h, p, []);
    assert Pack(h, p) + [] == Pack(h, p);
  }

  lemma TailProper(script: seq<Section>)
    requires ProperScript(script) && script != []
    ensures Proper(script[0]) && ProperScript(script[1..])
  {
    hide Proper;
  }

  lemma LongerProper(s: Section, script: seq<Section>)
    requires Proper(s) && ProperScript(script)
    ensures ProperScript([s] + script)
  {
    hide Proper;
  }

  lemma ContinueShape(d: Dev, script: seq<Section>, c: Clock)
    requires script != []
    ensures var tail, r := script[1..], Continue(d, script, c);
      || r == tail || r == [] || r == [NoteDrop] || r == [NoteDrop] + tail
      || (script[0].Synthesize? && r == [SynthPush(script[0].body, d.synthSeq, c.stamp)] + tail)
  {
    hide SynthPush;
  }

  lemma DropProper()
    ensures Proper(NoteDrop) && ProperScript([NoteDrop]) && ProperScript([])
  {
  }

  lemma ContinueProper(d: Dev, script: seq<Section>, c: Clock)
    requires ProperScript(script) && script != []
    ensures ProperScript(Continue(d, script, c))
  {
    hide ProperScript, Proper, SynthPush, Continue;
    TailProper(script);
    DropProper();
    LongerProper(NoteDrop, script[1..]);
    ContinueShape(d, script, c);
    if script[0].Synthesize? {
      SynthAdmitted(script[0].body, d.synthSeq, c.stamp);
      LongerProper(SynthPush(script[0].body, d.synthSeq, c.stamp), script[1..]);
    }
  }

  lemma AdmissionCheck(frame: seq<byte>)
    requires HEADER_SIZE <= |frame| <= MAX_FRAME_SIZE
    ensures var h := ParseHeader(frame);
      h.magic == MAGIC && |frame| == HEADER_SIZE + h.payloadLength as nat ==> IsFrame(frame)
  {
  }

  /** A frame is let in exactly when it is whole and nothing but its checksum may be wrong. */
  lemma AdmissionIsExact(frame: seq<byte>)
    ensures (exists i :: 0 <= i < |RxScript(frame)| && RxScript(frame)[i].PushRx?) <==> Admitted(frame)
  {
    if Admitted(frame) {
      var n := |RxScript(frame)|;
      assert RxScript(frame)[if Validate(frame) == Ok then 0 else 1].PushRx?;
    } else {
      assert RxScript(frame) == [] || (|RxScript(frame)| == 1 && RxScript(frame)[0].NoteError?);
    }
  }

  lemma RxScriptProper(frame: seq<byte>)
    ensures ProperScript(RxScript(frame))
  {
    if HEADER_SIZE <= |frame| <= MAX_FRAME_SIZE {
      AdmissionCheck(frame);
    }
    hide Validate, IsFrame, ParseHeader;
  }

  lemma ScriptProper(call: Call)
    ensures ProperScript(Script(call))
  {
    hide Validate, RxScript, IsFrame;
    if call.PushRxFrame? {
      RxScriptProper(call.frame);
    }
  }

  lemma StepKeeps(s: System, t: nat, a: Action)
    requires Inv(s)
    ensures Inv(Step(s, t, a))
  {
    var d, h := s.dev, s.dev.history;
    hide Queued, Admitted, Sendable, Tallies, Noted, Inc, Counts, Timeline.Represents, ProperScript, Exec, Continue,
      Script;
    match a {
      case Begin(call) =>
        ScriptProper(call);
      case Proceed(c) =>
        if t in s.threads && s.threads[t] != [] {
          ContinueProper(d, s.threads[t], c);
          TailProper(s.threads[t]);
          ExecKeeps(d, s.threads[t][0], c);
        }
      case TimerFires =>
        WatchdogProper();
        CountsKept(d, Fire(d));
      case WorkRuns =>
        WatchdogProper();
        CountsKept(d, StartWork(d));
      case Read =>
        CountsKept(d, TakeRx(d));
        if d.rx != [] { QueuedLess(d.depth, d.rx, h.rxIn, h.rxOut); }
      case PopTx =>
        CountsKept(d, TakeTx(d));
        if d.tx != [] { QueuedLess(d.depth, d.tx, h.txIn, h.txOut); }
      case ResetStats =>
        NothingCounted(ClearStats(d));
        Timeline.ResetKeeps(d.ring, h.log);
        NothingTallied();
    }
  }

  lemma WatchdogProper()
    ensures ProperScript(WATCHDOG_SCRIPT) && ProperScript(WORK_SCRIPT)
  {
  }

  lemma NothingTallied()
    ensures Tallies(NO_ERRORS, [])
  {
  }

  // ----- What this means for every run -----

  function Initial(depth: nat, hbTimeoutMs: nat, slots: seq<Timeline.Entry>): System {
    System(
      Dev([], [], depth, 0, LinkBooting, 0, 0, 0, 0, 0, NO_ERRORS, NO_FAULT, 0, hbTimeoutMs, false, false,
          Timeline.Ring(slots, 0, 0), History([], [], [], [], [], [], [], [], [], [])),
      map[])
  }

  lemma InitialInv(depth: nat, hbTimeoutMs: nat, slots: seq<Timeline.Entry>)
    requires |slots| == Timeline.DEPTH
    ensures Inv(Initial(depth, hbTimeoutMs, slots))
  {
    hide Tallies, Counts, Timeline.Place;
    NothingTallied();
    NothingCounted(Initial(depth, hbTimeoutMs, slots).dev);
    NothingLogged(slots);
  }

  lemma NothingLogged(slots: seq<Timeline.Entry>)
    requires |slots| == Timeline.DEPTH
    ensures Timeline.Represents(Timeline.Ring(slots, 0, 0), [])
  {
  }

  function Run(s: System, steps: seq<(nat, Action)>): (s': System)
    requires Timeline.Shaped(s.dev.ring)
    ensures Timeline.Shaped(s'.dev.ring)
    decreases |steps|
  {
    if steps == [] then s else Run(Step(s, steps[0].0, steps[0].1), steps[1..])
  }

  lemma {:induction false} RunKeeps(s: System, steps: seq<(nat, Action)>)
    requires Inv(s)
    ensures Inv(Run(s, steps))
    decreases |steps|
  {
    if steps == [] {
    } else {
      StepKeeps(s, steps[0].0, steps[0].1);
      hide Inv, Step;
      RunKeeps(Step(s, steps[0].0, steps[0].1), steps[1..]);
    }
  }

  lemma ReachableInv(depth: nat, hbTimeoutMs: nat, slots: seq<Timeline.Entry>, steps: seq<(nat, Action)>)
    requires |slots| == Timeline.DEPTH
    ensures Inv(Run(Initial(depth, hbTimeoutMs, slots), steps))
  {
    InitialInv(depth, hbTimeoutMs, slots);
    RunKeeps(Initial(depth, hbTimeoutMs, slots), steps);
  }

  /** Both queues are bounded FIFOs: in any interleaving nothing accepted is lost,
      doubled or reordered, and neither queue outgrows its depth. */
  lemma QueuesAreBoundedFifos(depth: nat, hbTimeoutMs: nat, slots: seq<Timeline.Entry>, steps: seq<(nat, Action)>)
    requires |slots| == Timeline.DEPTH
    ensures var d := Run(Initial(depth, hbTimeoutMs, slots), steps).dev;
      && d.history.rxOut + d.rx == d.history.rxIn && |d.rx| <= d.depth
      && d.history.txOut + d.tx == d.history.txIn && |d.tx| <= d.depth
      && d.highWatermark <= d.depth
  {
    hide Run;
    ReachableInv(depth, hbTimeoutMs, slots, steps);
  }

  lemma {:induction false} ClassesPartition(log: seq<ValidateResult>)
    requires Ok !in log
    ensures |log| == Arrivals(log, BadMagic) + Arrivals(log, BadVersion) + Arrivals(log, BadLength)
      + Arrivals(log, BadChecksum)
    decreases |log|
  {
    if log == [] {
    } else {
      var front, last := log[..|log| - 1], log[|log| - 1];
      ClassesPartition(front);
      assert last == BadMagic || last == BadVersion || last == BadLength || last == BadChecksum;
      ArrivalsSnoc(front, last, BadMagic);
      ArrivalsSnoc(front, last, BadVersion);
      ArrivalsSnoc(front, last, BadLength);
      ArrivalsSnoc(front, last, BadChecksum);
      assert log == front + [last];
    }
  }

  lemma ModSum(a: nat, b: nat, c: nat, d: nat)
    ensures (a + b + c + d) % WORD == (a % WORD + b % WORD + c % WORD + d % WORD) % WORD
  {
    var rest := a % WORD + b % WORD + c % WORD + d % WORD;
    var q := a / WORD + b / WORD + c / WORD + d / WORD;
    assert a + b + c + d == WORD * (q + rest / WORD) + rest % WORD;
    Arithmetic.QuotientUnique(a + b + c + d, WORD, q + rest / WORD, rest % WORD);
  }

  lemma TalliesAddUp(e: Errors, log: seq<ValidateResult>)
    requires Tallies(e, log)
    ensures e.total == (e.magic + e.version + e.length + e.checksum) % WORD
  {
    ClassesPartition(log);
    ModSum(Arrivals(log, BadMagic), Arrivals(log, BadVersion), Arrivals(log, BadLength), Arrivals(log, BadChecksum));
    hide Arrivals;
  }

  /** In any interleaving, resets included, the total of protocol errors is the sum of its
      four classes modulo 2^32, and each is the number of such errors since the last reset. */
  lemma ErrorsAddUp(depth: nat, hbTimeoutMs: nat, slots: seq<Timeline.Entry>, steps: seq<(nat, Action)>)
    requires |slots| == Timeline.DEPTH
    ensures var d := Run(Initial(depth, hbTimeoutMs, slots), steps).dev;
      && Tallies(d.errors, d.history.errors)
      && d.errors.total == (d.errors.magic + d.errors.version + d.errors.length + d.errors.checksum) % WORD
  {
    hide Run, Tallies;
    ReachableInv(depth, hbTimeoutMs, slots, steps);
    var d := Run(Initial(depth, hbTimeoutMs, slots), steps).dev;
    TalliesAddUp(d.errors, d.history.errors);
  }

  lemma {:induction false} FiringsBounded(armed: bool, w: seq<WatchEvent>)
    requires Watched(armed, w)
    ensures Arrivals(w, Fired) + (if armed then 1 else 0) <= Arrivals(w, Armed)
    decreases |w|
  {
    if w == [] {
    } else {
      var n := |w| - 1;
      var front := w[..n];
      if w[n].Fired? {
        FiringsBounded(true, front);
      } else {
        FiringsBounded(front != [] && front[n - 1].Armed?, front);
      }
    }
  }

  /** The watchdog fires at most once for each arming, and only after one; the recovery work
      runs at most once for each batch of requests, and a request is never forgotten. Both hold
      because the one step that tests the flag also clears it, whatever else interleaves. */
  lemma OneShot(depth: nat, hbTimeoutMs: nat, slots: seq<Timeline.Entry>, steps: seq<(nat, Action)>)
    requires |slots| == Timeline.DEPTH
    ensures var d := Run(Initial(depth, hbTimeoutMs, slots), steps).dev;
      && Watched(d.armed, d.history.watch) && Served(d.workPending, d.history.work)
      && Arrivals(d.history.watch, Fired) + (if d.armed then 1 else 0) <= Arrivals(d.history.watch, Armed)
  {
    hide Run;
    ReachableInv(depth, hbTimeoutMs, slots, steps);
    var d := Run(Initial(depth, hbTimeoutMs, slots), steps).dev;
    FiringsBounded(d.armed, d.history.watch);
    hide Arrivals;
  }

  /** In any interleaving the heartbeat, drop, timeout, retry and fault counters are the numbers of
      those events since the last reset, modulo 2^32, and the fault record is the latest fault since. */
  lemma CountersCount(depth: nat, hbTimeoutMs: nat, slots: seq<Timeline.Entry>, steps: seq<(nat, Action)>)
    requires |slots| == Timeline.DEPTH
    ensures var d := Run(Initial(depth, hbTimeoutMs, slots), steps).dev;
      Counts(d) && Blamed(d.lastFault, d.history.faults)
  {
    hide Run, Counts;
    ReachableInv(depth, hbTimeoutMs, slots, steps);
  }

  /** What write() lets through: a valid frame, and whatever follows it in the buffer. */
  lemma TxAdmissionIsExact(buf: seq<byte>)
    ensures (exists i :: 0 <= i < |TxScript(buf)| && TxScript(buf)[i].PushTx?) <==> Sendable(buf)
    ensures Sendable(buf) <==>
      && HEADER_SIZE <= |buf| <= MAX_FRAME_SIZE && FrameSize(buf) <= |buf|
      && var frame := buf[..FrameSize(buf)]; IsFrame(frame) && Validate(frame) == Ok
  {
    if Sendable(buf) {
      assert TxScript(buf)[0].PushTx?;
    }
    if HEADER_SIZE <= |buf| && FrameSize(buf) <= |buf| {
      ValidateLooksAtTheFrame(buf);
    }
  }

  lemma HeaderOfPrefix(buf: seq<byte>, n: nat)
    requires HEADER_SIZE <= n <= |buf|
    ensures ParseHeader(buf[..n]) == ParseHeader(buf)
    ensures FrameSize(buf) == HEADER_SIZE + ParseHeader(buf).payloadLength as nat
  {
    hide U16, U32;
  }

  lemma SliceOfPrefix(buf: seq<byte>, i: nat, n: nat)
    requires i <= n <= |buf|
    ensures buf[..n][i..n] == buf[i..n]
  {
  }

  lemma ValidateLooksAtTheFrame(buf: seq<byte>)
    requires HEADER_SIZE <= |buf| && FrameSize(buf) <= |buf|
    ensures Validate(buf[..FrameSize(buf)]) == Validate(buf)
  {
    hide Checksum, ParseHeader, FrameSize;
    var n := FrameSize(buf);
    HeaderOfPrefix(buf, n);
    SliceOfPrefix(buf, HEADER_SIZE, n);
  }

  /** At any moment the timeline shows exactly the last 64 events since the last reset. */
  lemma TimelineShowsLatest(depth: nat, hbTimeoutMs: nat, slots: seq<Timeline.Entry>, steps: seq<(nat, Action)>)
    requires |slots| == Timeline.DEPTH
    ensures var d := Run(Initial(depth, hbTimeoutMs, slots), steps).dev;
      Timeline.Shown(d.ring) == Timeline.Latest(d.history.log)
  {
    hide Run;
    ReachableInv(depth, hbTimeoutMs, slots, steps);
    var d := Run(Initial(depth, hbTimeoutMs, slots), steps).dev;
    Timeline.ShowsLatest(d.ring, d.history.log);
  }
}
