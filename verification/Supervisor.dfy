/** The live supervisor: the event loop and the recovery worker as one system
    of interleaved steps. The loop owns the health state machine; the worker
    owns the recovery in progress; they meet in two queues. */
module Supervisor {
  import opened Sequences
  import opened Crc
  import opened Wire
  import opened Framing
  import opened Health

  const FAULT_PAYLOAD_SIZE: nat := 8
  const NACK_CHECKSUM: byte := 0x01

  datatype Request = Recover(seqId: bv16, ts: int) | Restored(ts: int)

  datatype Outcome = Sent | Success | Failure

  datatype Report = Report(outcome: Outcome, seqId: bv16, ts: int)

  datatype Reply = Ack(seqId: bv16, of: bv16) | Nack(seqId: bv16, of: bv16, reason: byte)

  // ----- The event loop on its own -----

  datatype Loop = Loop(fsm: HealthState, txSeq: bv16, seen: set<(byte, bv16)>, replies: seq<Reply>)

  /** What the table of duplicates knows a frame by. */
  function KeyOf(f: ParsedFrame): (byte, bv16) {
    (f.header.kind, f.header.sequenceId)
  }

  predicate Accepted(l: Loop, f: ParsedFrame) {
    f.result == Ok && KeyOf(f) !in l.seen
  }

  function Severity(f: ParsedFrame): byte {
    if |f.payload| >= FAULT_PAYLOAD_SIZE then f.payload[1] else 0
  }

  function TimeOf(f: ParsedFrame): int {
    f.header.timestampMs as int
  }

  function OnHeartbeat(l: Loop, f: ParsedFrame): Loop {
    l.(fsm := Next(l.fsm, if l.fsm.Recovering? then HeartbeatRestored else HeartbeatOk),
       txSeq := NextSeq(l.txSeq),
       replies := l.replies + [Ack(l.txSeq, f.header.sequenceId)])
  }

  function OnFault(h: HealthState, severity: byte): HealthState {
    if severity >= 2 then Next(h, CriticalFault)
    else if h.Healthy? then Next(h, HeartbeatTimeout)
    else h
  }

  /** A valid frame not seen before. */
  function OnFresh(l: Loop, f: ParsedFrame): Loop {
    if f.header.kind == HEARTBEAT then OnHeartbeat(l, f)
    else if f.header.kind == FAULT_EVENT then l.(fsm := OnFault(l.fsm, Severity(f)))
    else l
  }

  function OnFrame(l: Loop, f: ParsedFrame): Loop {
    if f.result != Ok then
      l.(txSeq := NextSeq(l.txSeq), replies := l.replies + [Nack(l.txSeq, f.header.sequenceId, NACK_CHECKSUM)])
    else if !Accepted(l, f) then l
    else OnFresh(l.(seen := l.seen + {KeyOf(f)}), f)
  }

  /** What handling a frame puts on the worker's queue. */
  function FramePosts(l: Loop, f: ParsedFrame): seq<Request> {
    if Accepted(l, f) && f.header.kind == HEARTBEAT && l.fsm.Recovering?
    then [Restored(TimeOf(f))]
    else []
  }

  function OnTimeout(l: Loop): Loop {
    var l' := l.(fsm := Next(l.fsm, HeartbeatTimeout));
    if l.fsm.Healthy? then l'.(txSeq := NextSeq(l.txSeq)) else l'
  }

  function TimeoutPosts(l: Loop, now: int): seq<Request> {
    if l.fsm.Healthy? then [Recover(l.txSeq, now)] else []
  }

  function OnReport(l: Loop, r: Report): Loop {
    match r.outcome
    case Sent => l.(fsm := Next(l.fsm, RecoverySent))
    case Success => l
    case Failure => l.(fsm := Next(l.fsm, RecoveryFailed))
  }

  // ----- The worker on its own -----

  /** Where the worker's thread is. It holds the request lock in Head and InLoop only. */
  datatype Pc =
    | Head                                  // top of the outer loop
    | Blocked(timed: bool)                  // waiting on the condition variable
    | InLoop                                // about to test the queue
    | Sending(seqId: bv16, ts: int)         // writing the command to the device
    | Announcing(seqId: bv16, ts: int)      // about to report SENT
    | Closing(report: Report)               // about to report SUCCESS or FAILED
    | Relocking(toHead: bool)
    | Stopped

  datatype Worker = Worker(
    pc: Pc,
    queue: seq<Request>,
    active: bool,
    activeSeq: bv16,
    deadlineAt: int,
    deadlineMs: nat,
    stopping: bool)

  predicate LockFree(w: Worker) {
    !w.pc.Head? && !w.pc.InLoop?
  }

  function TakeRequest(w: Worker): Worker
    requires w.queue != []
  {
    var rest := w.queue[1..];
    match w.queue[0]
    case Recover(q, ts) =>
      w.(queue := rest, active := true, activeSeq := q, deadlineAt := ts + w.deadlineMs, pc := Sending(q, ts))
    case Restored(ts) =>
      if w.active
      then w.(queue := rest, active := false, pc := Closing(Report(Success, w.activeSeq, ts)))
      else w.(queue := rest)
  }

  /** One move of the worker; `sent` is what the device answers when it is sending. */
  function Work(w: Worker, sent: bool): Worker {
    match w.pc
    case Head =>
      w.(pc := if w.stopping then Stopped else if w.queue == [] then Blocked(w.active) else InLoop)
    case Blocked(timed) =>
      if w.stopping then w.(pc := Stopped)
      else if timed || w.queue != [] then w.(pc := InLoop)
      else w
    case InLoop =>
      if w.queue != [] then TakeRequest(w)
      else if w.active
      then w.(active := false, pc := Closing(Report(Failure, w.activeSeq, w.deadlineAt)))
      else w.(pc := Head)
    case Sending(q, ts) => w.(pc := if sent then Announcing(q, ts) else Relocking(false))
    case Announcing(_, _) => w.(pc := Relocking(false))
    case Closing(r) => w.(pc := Relocking(r.outcome.Failure?))
    case Relocking(toHead) => w.(pc := if toHead then Head else InLoop)
    case Stopped => w
  }

  function WorkTakes(w: Worker): seq<Request> {
    if w.pc.InLoop? && w.queue != [] then [w.queue[0]] else []
  }

  function WorkReports(w: Worker): seq<Report> {
    match w.pc
    case Announcing(q, ts) => [Report(Sent, q, ts)]
    case Closing(r) => [r]
    case _ => []
  }

  // ----- The two together -----

  datatype System = System(
    loop: Loop,
    local: seq<Report>,       // reports taken over for draining, not yet applied
    reports: seq<Report>,     // reports posted and not yet taken over
    worker: Worker,
    taken: seq<Request>,      // history: requests the worker took
    reported: seq<Report>,    // history: reports posted
    entered: seq<bv16>)       // history: sequence ids of the SENT reports that led to RECOVERING

  datatype Action = Receive(f: ParsedFrame) | Timeout(now: int) | Drain | ApplyReport | Worked(sent: bool) | Stop

  /** The worker with more requests waiting. */
  function Enqueue(w: Worker, posts: seq<Request>): Worker {
    w.(queue := w.queue + posts)
  }

  function Post(s: System, l: Loop, posts: seq<Request>): System {
    if s.local != [] || (posts != [] && !LockFree(s.worker)) then s
    else s.(loop := l, worker := Enqueue(s.worker, posts))
  }

  function Apply(s: System): System
    requires s.local != []
  {
    var r := s.local[0];
    s.(loop := OnReport(s.loop, r),
       local := s.local[1..],
       entered := if r.outcome.Sent? && s.loop.fsm.Degraded? then s.entered + [r.seqId] else s.entered)
  }

  function DoWork(s: System, sent: bool): System {
    s.(worker := Work(s.worker, sent),
       taken := s.taken + WorkTakes(s.worker),
       reports := s.reports + WorkReports(s.worker),
       reported := s.reported + WorkReports(s.worker))
  }

  /** One step of either thread; a step that is not enabled leaves things as they are.
      The loop handles frames and timeouts only between drains. */
  function Step(s: System, a: Action): System {
    match a
    case Receive(f) => Post(s, OnFrame(s.loop, f), FramePosts(s.loop, f))
    case Timeout(now) => Post(s, OnTimeout(s.loop), TimeoutPosts(s.loop, now))
    case Drain => if s.local == [] then s.(local := s.reports, reports := []) else s
    case ApplyReport => if s.local == [] then s else Apply(s)
    case Worked(sent) => DoWork(s, sent)
    case Stop => if LockFree(s.worker) then s.(worker := s.worker.(stopping := true)) else s
  }

  function Initial(deadlineMs: nat): System {
    System(Loop(Booting, 0, {}, []), [], [], Worker(Relocking(true), [], false, 0, 0, deadlineMs, false), [], [], [])
  }

  function Run(s: System, actions: seq<Action>): System
    decreases |actions|
  {
    if actions == [] then s else Run(Step(s, actions[0]), actions[1..])
  }

  /** All requests ever posted. */
  function Posted(s: System): seq<Request> {
    s.taken + s.worker.queue
  }

  // ----- Tokens -----

  function Recovers(q: seq<Request>): seq<bv16>
    decreases |q|
  {
    if q == [] then [] else (if q[0].Recover? then [q[0].seqId] else []) + Recovers(q[1..])
  }

  function Sents(r: seq<Report>): seq<bv16>
    decreases |r|
  {
    if r == [] then [] else (if r[0].outcome.Sent? then [r[0].seqId] else []) + Sents(r[1..])
  }

  lemma {:induction false} RecoversConcat(a: seq<Request>, b: seq<Request>)
    ensures Recovers(a + b) == Recovers(a) + Recovers(b)
    decreases |a|
  {
    if a == [] {
      assert a + b == b;
    } else {
      RecoversConcat(a[1..], b);
      assert (a + b)[0] == a[0] && (a + b)[1..] == a[1..] + b;
      var first := if a[0].Recover? then [a[0].seqId] else [];
      Regroup(first, Recovers(a[1..]), Recovers(b));
    }
  }

  lemma {:induction false} SentsConcat(a: seq<Report>, b: seq<Report>)
    ensures Sents(a + b) == Sents(a) + Sents(b)
    decreases |a|
  {
    if a == [] {
      assert a + b == b;
    } else {
      SentsConcat(a[1..], b);
      assert (a + b)[0] == a[0] && (a + b)[1..] == a[1..] + b;
      var first := if a[0].outcome.Sent? then [a[0].seqId] else [];
      Regroup(first, Sents(a[1..]), Sents(b));
    }
  }

  function InHand(w: Worker): seq<bv16> {
    if w.pc.Sending? || w.pc.Announcing? then [w.pc.seqId] else []
  }

  /** Recoveries on their way to the RECOVERING state: SENT reports not yet applied,
      the command being sent, RECOVER requests still queued. */
  function Tokens(s: System): seq<bv16> {
    Sents(s.local) + Sents(s.reports) + InHand(s.worker) + Recovers(s.worker.queue)
  }

  // ----- The invariant -----

  predicate Alternates(p: seq<Request>) {
    forall i :: 0 <= i < |p| ==> (p[i].Recover? <==> i % 2 == 0)
  }

  predicate Idle(h: HealthState) { h.Booting? || h.Healthy? || h.Recovering? }

  predicate TokenInv(s: System) {
    var t, p := Tokens(s), Recovers(Posted(s));
    && |t| <= 1
    && (t != [] ==> !Idle(s.loop.fsm) && |Posted(s)| % 2 == 1 && p != [] && t[0] == p[|p| - 1])
  }

  predicate PostInv(s: System) {
    && Alternates(Posted(s))
    && (s.loop.fsm.Booting? || s.loop.fsm.Healthy? ==> |Posted(s)| % 2 == 0)
    && (s.loop.fsm.Recovering? ==> |Posted(s)| % 2 == 1)
  }

  predicate EntryInv(s: System) {
    var p := Recovers(Posted(s));
    && (s.entered == p || (p != [] && s.entered == p[..|p| - 1]))
    && (Idle(s.loop.fsm) ==> s.entered == p)
    && (Tokens(s) != [] && s.loop.fsm.Degraded? ==> p != [] && s.entered == p[..|p| - 1])
  }

  /** Every recovery in rs has, in order, an optional SENT and then exactly one outcome. */
  predicate Settled(rs: seq<bv16>, reports: seq<Report>)
    decreases |rs|
  {
    if rs == [] then reports == []
    else
      var n, last := |reports|, rs[|rs| - 1];
      && n > 0 && !reports[n - 1].outcome.Sent? && reports[n - 1].seqId == last
      && (|| Settled(rs[..|rs| - 1], reports[..n - 1])
          || (n > 1 && reports[n - 2].outcome.Sent? && reports[n - 2].seqId == last
              && Settled(rs[..|rs| - 1], reports[..n - 2])))
  }

  /** As Settled, but the last recovery has no outcome yet. */
  predicate Opened(rs: seq<bv16>, reports: seq<Report>) {
    && rs != []
    && var n, last := |reports|, rs[|rs| - 1];
       || Settled(rs[..|rs| - 1], reports)
       || (n > 0 && reports[n - 1].outcome.Sent? && reports[n - 1].seqId == last
           && Settled(rs[..|rs| - 1], reports[..n - 1]))
  }

  predicate WorkerInv(s: System) {
    var w := s.worker;
    && (w.active ==> |s.taken| % 2 == 1)
    && (w.active ==> w.pc.Sending? || w.pc.Announcing? || w.pc.InLoop? || w.pc == Relocking(false))
    && (w.pc.Sending? || w.pc.Announcing? ==> w.active && w.pc.seqId == w.activeSeq)
    && (w.pc.Blocked? ==> !w.pc.timed)
    && (w.pc.Closing? ==> !w.pc.report.outcome.Sent?)
  }

  predicate AccountInv(s: System) {
    var w, rs := s.worker, Recovers(s.taken);
    && (!w.active && !w.pc.Closing? ==> Settled(rs, s.reported))
    && (w.active ==> Opened(rs, s.reported) && rs[|rs| - 1] == w.activeSeq)
    && (w.pc.Closing? ==> Opened(rs, s.reported) && rs[|rs| - 1] == w.pc.report.seqId)
    && (w.pc.Sending? || w.pc.Announcing? ==> rs != [] && Settled(rs[..|rs| - 1], s.reported))
  }

  predicate Inv(s: System) {
    TokenInv(s) && PostInv(s) && EntryInv(s) && WorkerInv(s) && AccountInv(s)
  }

  // ----- Every step keeps it -----

  lemma InitialInv(d: nat)
    ensures Inv(Initial(d))
  {
  }

  lemma RecoversOfOne(r: Request)
    ensures Recovers([r]) == if r.Recover? then [r.seqId] else []
  {
    assert [r][1..] == [];
  }

  /** Posting moves nothing already in flight and adds to the end. */
  lemma Posting(s: System, l: Loop, r: Request)
    requires s.local == [] && LockFree(s.worker)
    ensures Posted(Post(s, l, [r])) == Posted(s) + [r]
    ensures Tokens(Post(s, l, [r])) == Tokens(s) + Recovers([r])
    ensures Recovers(Posted(s) + [r]) == Recovers(Posted(s)) + Recovers([r])
  {
    RecoversConcat(s.worker.queue, [r]);
    RecoversConcat(Posted(s), [r]);
    Regroup(s.taken, s.worker.queue, [r]);
    Regroup(Sents(s.local) + Sents(s.reports) + InHand(s.worker), Recovers(s.worker.queue), Recovers([r]));
    hide Recovers, Sents;
  }

  lemma PostingNothing(s: System, l: Loop)
    requires s.local == []
    ensures Posted(Post(s, l, [])) == Posted(s)
    ensures Tokens(Post(s, l, [])) == Tokens(s)
    ensures Post(s, l, []) == s.(loop := l)
  {
    assert s.worker.queue + [] == s.worker.queue;
  }

  /** How the loop's own steps may move the state machine. */
  predicate Moves(h: HealthState, h': HealthState, posts: seq<Request>) {
    if posts == [] then
      h' == h || (h.Booting? && h'.Healthy?) || (h.Healthy? && !Idle(h')) || (h.Degraded? && h'.SafeMode?)
    else
      |posts| == 1 && if posts[0].Recover? then h.Healthy? && h'.Degraded? else h.Recovering? && h'.Healthy?
  }

  lemma LoopMoves(l: Loop, f: ParsedFrame, now: int)
    ensures Moves(l.fsm, OnFrame(l, f).fsm, FramePosts(l, f))
    ensures Moves(l.fsm, OnTimeout(l).fsm, TimeoutPosts(l, now))
  {
  }

  lemma PostKeeps(s: System, l: Loop, posts: seq<Request>)
    requires Inv(s) && Moves(s.loop.fsm, l.fsm, posts)
    ensures Inv(Post(s, l, posts))
  {
    hide Tokens, Recovers, Settled, Opened, Posted;
    if s.local == [] && posts == [] {
      PostingNothing(s, l);
    } else if s.local == [] && LockFree(s.worker) {
      var r := posts[0];
      assert posts == [r];
      Posting(s, l, r);
      RecoversOfOne(r);
    }
  }

  /** A report leaves the front of the drained list; a SENT one is a token. */
  lemma Applying(s: System)
    requires s.local != []
    ensures Tokens(s) == Sents([s.local[0]]) + Tokens(Apply(s))
    ensures Sents([s.local[0]]) == if s.local[0].outcome.Sent? then [s.local[0].seqId] else []
  {
    var r := s.local[0];
    assert s.local == [r] + s.local[1..];
    SentsConcat([r], s.local[1..]);
    assert [r][1..] == [];
    hide Recovers;
    var a, b := Sents([r]), Sents(s.local[1..]);
    Regroup(a, b, Sents(s.reports));
    Regroup(a, b + Sents(s.reports), InHand(s.worker));
    Regroup(a, b + Sents(s.reports) + InHand(s.worker), Recovers(s.worker.queue));
  }

  /** What neither thread's step on the loop's side touches. */
  lemma WorkerSideKept(s: System, s': System)
    requires WorkerInv(s) && AccountInv(s)
    requires s'.worker == s.worker && s'.taken == s.taken && s'.reported == s.reported
    ensures WorkerInv(s') && AccountInv(s')
  {
    hide Recovers, Settled, Opened;
  }

  lemma AppliedSent(s: System, s': System, q: bv16)
    requires TokenInv(s) && PostInv(s) && EntryInv(s)
    requires s'.loop.fsm == Next(s.loop.fsm, RecoverySent) && Posted(s') == Posted(s) && Tokens(s) == [q] + Tokens(s')
    requires s'.entered == if s.loop.fsm.Degraded? then s.entered + [q] else s.entered
    ensures TokenInv(s') && PostInv(s') && EntryInv(s')
  {
    hide Tokens, Recovers, Posted;
    assert Tokens(s') == [] && Tokens(s)[0] == q;
  }

  lemma AppliedOutcome(s: System, s': System, h: HealthState)
    requires TokenInv(s) && PostInv(s) && EntryInv(s)
    requires h == s.loop.fsm || h == Next(s.loop.fsm, RecoveryFailed)
    requires s'.loop.fsm == h && Posted(s') == Posted(s) && Tokens(s) == Tokens(s') && s'.entered == s.entered
    ensures TokenInv(s') && PostInv(s') && EntryInv(s')
  {
    hide Tokens, Recovers, Posted;
  }

  lemma ApplyKeeps(s: System)
    requires Inv(s) && s.local != []
    ensures Inv(Apply(s))
  {
    hide Tokens, Recovers, Sents, TokenInv, PostInv, EntryInv, WorkerInv, AccountInv, Next;
    var s', r := Apply(s), s.local[0];
    Applying(s);
    WorkerSideKept(s, s');
    assert Posted(s') == Posted(s);
    if r.outcome.Sent? {
      AppliedSent(s, s', r.seqId);
    } else {
      assert [] + Tokens(s') == Tokens(s');
      AppliedOutcome(s, s', s'.loop.fsm);
    }
  }

  lemma Draining(s: System)
    requires s.local == []
    ensures Tokens(Step(s, Drain)) == Tokens(s) && Posted(Step(s, Drain)) == Posted(s)
  {
    assert Sents([]) == [];
    hide Recovers, Sents;
    assert [] + Sents(s.reports) == Sents(s.reports) + [];
  }

  lemma DrainKeeps(s: System)
    requires Inv(s) && s.local == []
    ensures Inv(Step(s, Drain))
  {
    hide Tokens, Posted, TokenInv, PostInv, EntryInv, WorkerInv, AccountInv;
    Draining(s);
    LoopSideKept(s, Step(s, Drain));
    WorkerSideKept(s, Step(s, Drain));
  }

  // ----- Steps of the worker -----

  /** Taking a request changes neither what was posted nor the tokens. */
  lemma Taking(s: System, sent: bool)
    requires s.worker.pc.InLoop? && s.worker.queue != []
    ensures Posted(DoWork(s, sent)) == Posted(s)
    ensures Tokens(DoWork(s, sent)) == Tokens(s)
    ensures Recovers(DoWork(s, sent).taken) == Recovers(s.taken) + Recovers([s.worker.queue[0]])
  {
    var r, rest := s.worker.queue[0], s.worker.queue[1..];
    assert s.worker.queue == [r] + rest;
    RecoversConcat([r], rest);
    RecoversConcat(s.taken, [r]);
    RecoversOfOne(r);
    Regroup(s.taken, [r], rest);
    hide Recovers, Sents;
    assert InHand(s.worker) == [];
    var a := Sents(s.local) + Sents(s.reports);
    assert a + [] == a;
    assert s.reports + [] == s.reports;
    Regroup(a, Recovers([r]), Recovers(rest));
    if !r.Recover? {
      assert [] + Recovers(rest) == Recovers(rest);
    }
  }

  /** The request taken continues the alternation. */
  lemma TakenParity(s: System)
    requires Alternates(Posted(s)) && s.worker.queue != []
    ensures s.worker.queue[0].Recover? <==> |s.taken| % 2 == 0
  {
    assert Posted(s)[|s.taken|] == s.worker.queue[0];
  }

  lemma LoopSideKept(s: System, s': System)
    requires TokenInv(s) && PostInv(s) && EntryInv(s)
    requires s'.loop == s.loop && s'.entered == s.entered && Posted(s') == Posted(s)
    requires Tokens(s') == Tokens(s) || Tokens(s') == []
    ensures TokenInv(s') && PostInv(s') && EntryInv(s')
  {
    hide Tokens, Recovers, Posted;
  }

  lemma TakenRecover(s: System, s': System, q: bv16, ts: int)
    requires WorkerInv(s) && AccountInv(s) && s.worker.pc.InLoop? && !s.worker.active
    requires s'.worker.pc == Sending(q, ts) && s'.worker.active && s'.worker.activeSeq == q
    requires s'.reported == s.reported && |s'.taken| % 2 == 1 && Recovers(s'.taken) == Recovers(s.taken) + [q]
    ensures WorkerInv(s') && AccountInv(s')
  {
    hide Recovers, Settled, Opened;
    RecoverOpens(Recovers(s.taken), q, s.reported);
  }

  lemma TakenRestored(s: System, s': System)
    requires WorkerInv(s) && AccountInv(s) && s.worker.pc.InLoop? && !s'.worker.active
    requires
      if s.worker.active
      then s'.worker.pc.Closing? && s'.worker.pc.report.outcome.Success?
           && s'.worker.pc.report.seqId == s.worker.activeSeq
      else s'.worker.pc.InLoop?
    requires s'.reported == s.reported && Recovers(s'.taken) == Recovers(s.taken)
    ensures WorkerInv(s') && AccountInv(s')
  {
    hide Recovers, Settled, Opened;
  }

  lemma TakenAccounts(s: System, s': System)
    requires WorkerInv(s) && AccountInv(s) && s.worker.pc.InLoop? && s.worker.queue != []
    requires s.worker.queue[0].Recover? <==> |s.taken| % 2 == 0
    requires s'.worker == TakeRequest(s.worker) && s'.reported == s.reported && |s'.taken| == |s.taken| + 1
    requires Recovers(s'.taken) == Recovers(s.taken) + Recovers([s.worker.queue[0]])
    ensures WorkerInv(s') && AccountInv(s')
  {
    hide Recovers, AccountInv;
    var r := s.worker.queue[0];
    RecoversOfOne(r);
    if r.Recover? {
      TakenRecover(s, s', r.seqId, r.ts);
    } else {
      assert Recovers(s.taken) + [] == Recovers(s.taken);
      TakenRestored(s, s');
    }
  }

  lemma RecoverOpens(rs: seq<bv16>, q: bv16, reports: seq<Report>)
    requires Settled(rs, reports)
    ensures (rs + [q])[..|rs|] == rs && Opened(rs + [q], reports)
  {
    assert (rs + [q])[..|rs|] == rs;
    hide Settled;
  }

  lemma TakeKeeps(s: System, sent: bool)
    requires Inv(s) && s.worker.pc.InLoop? && s.worker.queue != []
    ensures Inv(DoWork(s, sent))
  {
    TakenParity(s);
    hide Tokens, Recovers, Posted, TokenInv, PostInv, EntryInv, WorkerInv, AccountInv, TakeRequest;
    var s' := DoWork(s, sent);
    Taking(s, sent);
    LoopSideKept(s, s');
    assert s'.reported == s.reported by { assert s.reported + [] == s.reported; }
    TakenAccounts(s, s');
  }

  lemma SentsOfOne(r: Report)
    ensures Sents([r]) == if r.outcome.Sent? then [r.seqId] else []
  {
    assert [r][1..] == [];
  }

  /** Reporting turns the command in hand into a SENT report, or posts an outcome. */
  lemma Reporting(s: System, sent: bool)
    requires s.worker.pc.Announcing? || (s.worker.pc.Closing? && !s.worker.pc.report.outcome.Sent?)
    ensures Posted(DoWork(s, sent)) == Posted(s)
    ensures Tokens(DoWork(s, sent)) == Tokens(s)
  {
    assert s.taken + [] == s.taken;
    var r := WorkReports(s.worker)[0];
    SentsConcat(s.reports, [r]);
    SentsOfOne(r);
    hide Recovers, Sents;
    Regroup(Sents(s.local), Sents(s.reports), Sents([r]));
    var a := Sents(s.local) + Sents(s.reports);
    assert a + [] == a;
    assert (a + [r.seqId]) + [] == a + [r.seqId];
  }

  lemma OutcomeSettles(rs: seq<bv16>, reports: seq<Report>, r: Report)
    requires Opened(rs, reports) && !r.outcome.Sent? && r.seqId == rs[|rs| - 1]
    ensures Settled(rs, reports + [r])
  {
    var all := reports + [r];
    assert all[..|all| - 1] == reports;
    if |reports| > 0 {
      assert all[..|all| - 2] == reports[..|reports| - 1];
    }
  }

  lemma SentOpens(rs: seq<bv16>, reports: seq<Report>, r: Report)
    requires rs != [] && Settled(rs[..|rs| - 1], reports) && r.outcome.Sent? && r.seqId == rs[|rs| - 1]
    ensures Opened(rs, reports + [r])
  {
    assert (reports + [r])[..|reports|] == reports;
  }

  lemma ReportKeeps(s: System, sent: bool)
    requires Inv(s) && (s.worker.pc.Announcing? || s.worker.pc.Closing?)
    ensures Inv(DoWork(s, sent))
  {
    hide Tokens, Recovers, Posted, TokenInv, PostInv, EntryInv, Settled, Opened;
    var s' := DoWork(s, sent);
    Reporting(s, sent);
    LoopSideKept(s, s');
    assert s'.taken == s.taken by { assert s.taken + [] == s.taken; }
    var r := WorkReports(s.worker)[0];
    if s.worker.pc.Closing? {
      OutcomeSettles(Recovers(s.taken), s.reported, r);
    } else {
      SentOpens(Recovers(s.taken), s.reported, r);
    }
  }

  lemma LostInHand(a: seq<bv16>, b: seq<bv16>, c: seq<bv16>, d: seq<bv16>)
    ensures |a + b + c + d| <= 1 && c != [] ==> a + b + [] + d == []
  {
  }

  lemma MovedInHand(w: Worker, sent: bool)
    requires WorkTakes(w) == [] && WorkReports(w) == []
    ensures var w' := Work(w, sent); w'.queue == w.queue && (InHand(w') == InHand(w) || InHand(w') == [])
  {
    match w.pc {
      case Head =>
      case Blocked(_) =>
      case InLoop => assert w.queue == [];
      case Sending(q, ts) => assert InHand(w) == [q];
      case Relocking(_) =>
      case Stopped =>
      case _ => assert false;
    }
  }

  /** The worker's other moves: a command that could not be sent gives up its token. */
  lemma Moving(s: System, sent: bool)
    requires |Tokens(s)| <= 1 && WorkTakes(s.worker) == [] && WorkReports(s.worker) == []
    ensures DoWork(s, sent) == s.(worker := Work(s.worker, sent))
    ensures Posted(DoWork(s, sent)) == Posted(s)
    ensures Tokens(DoWork(s, sent)) == Tokens(s) || Tokens(DoWork(s, sent)) == []
  {
    hide Sents, Recovers, Work, InHand;
    NothingAdded(s.taken);
    NothingAdded(s.reports);
    NothingAdded(s.reported);
    MovedInHand(s.worker, sent);
    LostInHand(Sents(s.local), Sents(s.reports), InHand(s.worker), Recovers(s.worker.queue));
  }

  lemma MovedAccounts(s: System, sent: bool)
    requires WorkerInv(s) && AccountInv(s) && WorkTakes(s.worker) == [] && WorkReports(s.worker) == []
    ensures var s' := s.(worker := Work(s.worker, sent)); WorkerInv(s') && AccountInv(s')
  {
    hide Recovers, Settled;
  }

  lemma MoveKeeps(s: System, sent: bool)
    requires Inv(s) && WorkTakes(s.worker) == [] && WorkReports(s.worker) == []
    ensures Inv(DoWork(s, sent))
  {
    assert |Tokens(s)| <= 1;
    hide Tokens, Recovers, Posted, TokenInv, PostInv, EntryInv, WorkerInv, AccountInv, Work;
    Moving(s, sent);
    LoopSideKept(s, DoWork(s, sent));
    MovedAccounts(s, sent);
  }

  lemma StopKeeps(s: System)
    requires Inv(s)
    ensures Inv(s.(worker := s.worker.(stopping := true)))
  {
    hide Tokens, Recovers, Settled, Opened, Posted;
    Stopping(s);
  }

  /** Every step of either thread, in any order, keeps the invariant. */
  lemma StepKeeps(s: System, a: Action)
    requires Inv(s)
    ensures Inv(Step(s, a))
  {
    hide Inv, Work, OnFrame, OnTimeout, OnReport, FramePosts, TimeoutPosts, Moves;
    match a {
      case Receive(f) =>
        LoopMoves(s.loop, f, 0);
        PostKeeps(s, OnFrame(s.loop, f), FramePosts(s.loop, f));
      case Timeout(now) =>
        LoopMoves(s.loop, ParsedFrame(InitHeader(0, 0, 0, 0), [], Ok), now);
        PostKeeps(s, OnTimeout(s.loop), TimeoutPosts(s.loop, now));
      case Drain =>
        if s.local == [] { DrainKeeps(s); }
      case ApplyReport =>
        if s.local != [] { ApplyKeeps(s); }
      case Worked(sent) =>
        if s.worker.pc.InLoop? && s.worker.queue != [] { TakeKeeps(s, sent); }
        else if s.worker.pc.Announcing? || s.worker.pc.Closing? { ReportKeeps(s, sent); }
        else { MoveKeeps(s, sent); }
      case Stop =>
        StopKeeps(s);
    }
  }

  lemma {:induction false} RunKeeps(s: System, actions: seq<Action>)
    requires Inv(s)
    ensures Inv(Run(s, actions))
    decreases |actions|
  {
    hide Inv, Step;
    if actions == [] {
    } else {
      StepKeeps(s, actions[0]);
      RunKeeps(Step(s, actions[0]), actions[1..]);
    }
  }

  // ----- What this means for every run -----

  /** One recovery at a time: between posting a request and applying its SENT
      report there is at most one token, and none in BOOTING, HEALTHY or RECOVERING;
      so the requests posted are RECOVER, RESTORED, RECOVER, ... in strict turn. */
  lemma SingleToken(deadlineMs: nat, actions: seq<Action>)
    ensures var s := Run(Initial(deadlineMs), actions);
      && |Tokens(s)| <= 1
      && (Idle(s.loop.fsm) ==> Tokens(s) == [])
      && Alternates(Posted(s))
  {
    InitialInv(deadlineMs);
    RunKeeps(Initial(deadlineMs), actions);
  }

  function Outcomes(reports: seq<Report>): seq<Report>
    decreases |reports|
  {
    if reports == [] then []
    else
      var n := |reports| - 1;
      Outcomes(reports[..n]) + if reports[n].outcome.Sent? then [] else [reports[n]]
  }

  /** A settled list has one outcome per recovery, for the same commands in the same order. */
  lemma {:induction false} SettledOutcomes(rs: seq<bv16>, reports: seq<Report>)
    requires Settled(rs, reports)
    ensures |Outcomes(reports)| == |rs|
    ensures forall i :: 0 <= i < |rs| ==> Outcomes(reports)[i].seqId == rs[i]
    decreases |rs|
  {
    if rs == [] {
    } else {
      var n, k := |reports|, |rs| - 1;
      if Settled(rs[..k], reports[..n - 1]) {
        SettledOutcomes(rs[..k], reports[..n - 1]);
      } else {
        SettledOutcomes(rs[..k], reports[..n - 2]);
        assert reports[..n - 1][..n - 2] == reports[..n - 2];
      }
    }
  }

  /** At the head of its loop, blocked or stopped, the worker has no recovery in
      hand; it never waits with a deadline; and every RECOVER it took has had
      exactly one outcome, reported after that command's own SENT. */
  lemma OneOutcomePerRecovery(deadlineMs: nat, actions: seq<Action>)
    ensures var s := Run(Initial(deadlineMs), actions);
      s.worker.pc.Head? || s.worker.pc.Blocked? || s.worker.pc.Stopped? ==>
        && !s.worker.active
        && s.worker.pc != Blocked(true)
        && Settled(Recovers(s.taken), s.reported)
        && |Outcomes(s.reported)| == |Recovers(s.taken)|
  {
    InitialInv(deadlineMs);
    RunKeeps(Initial(deadlineMs), actions);
    var s := Run(Initial(deadlineMs), actions);
    hide Settled, Recovers, Tokens;
    if s.worker.pc.Head? || s.worker.pc.Blocked? || s.worker.pc.Stopped? {
      SettledOutcomes(Recovers(s.taken), s.reported);
    }
  }

  /** How many moves the worker can make on its own before it blocks or stops. */
  function Rank(w: Worker): nat {
    if w.pc.Stopped? then 0 else
    10 * |w.queue| +
      match w.pc
      case Head => if w.queue == [] then 1 else 3
      case Blocked(timed) => if w.queue == [] && !w.stopping then 0 else 3
      case InLoop => if w.active then 6 else 2
      case Sending(_, _) => 9
      case Announcing(_, _) => 8
      case Closing(_) => 5
      case Relocking(toHead) => if toHead then 4 else if w.active then 7 else 3
  }

  predicate AtRest(w: Worker) {
    w.pc.Stopped? || (w.pc.Blocked? && w.queue == [] && !w.stopping)
  }

  lemma WorkLowersRank(s: System, sent: bool)
    requires WorkerInv(s)
    ensures
      if AtRest(s.worker) then Work(s.worker, sent) == s.worker
      else Rank(Work(s.worker, sent)) < Rank(s.worker)
  {
  }

  /** The worker moving alone; the device answers its sends in turn. */
  function Alone(s: System, answers: seq<bool>): System
    decreases |answers|
  {
    if answers == [] then s else Alone(Step(s, Worked(answers[0])), answers[1..])
  }

  /** Left alone the worker comes to rest, blocked on an empty queue or stopped, whatever
      the device answers: the points the accounting speaks of are always reached. */
  lemma {:induction false} WorkerComesToRest(s: System, answers: seq<bool>)
    requires Inv(s) && |answers| >= Rank(s.worker)
    ensures AtRest(Alone(s, answers).worker)
    decreases |answers|
  {
    assert WorkerInv(s);
    hide Inv, WorkerInv, Work;
    if answers == [] {
      RankZero(s);
    } else {
      WorkLowersRank(s, answers[0]);
      StepKeeps(s, Worked(answers[0]));
      WorkerComesToRest(Step(s, Worked(answers[0])), answers[1..]);
    }
  }

  lemma RankZero(s: System)
    requires Rank(s.worker) == 0
    ensures AtRest(s.worker)
  {
  }

  /** What decides the outcome: a recovery succeeds exactly when a request is
      already queued as the worker takes its lock back after sending (it is then a
      RESTORED); with an empty queue it fails at once, however long the deadline. */
  lemma OutcomeDecidedAtRelock(deadlineMs: nat, actions: seq<Action>, sent: bool)
    ensures var s := Run(Initial(deadlineMs), actions);
      s.worker.pc.InLoop? && s.worker.active ==>
        var s' := Step(s, Worked(sent));
        && s'.worker.pc.Closing?
        && s'.worker.pc.report.seqId == s.worker.activeSeq
        && s'.worker.pc.report.outcome == if s.worker.queue == [] then Failure else Success
  {
    InitialInv(deadlineMs);
    RunKeeps(Initial(deadlineMs), actions);
    var s := Run(Initial(deadlineMs), actions);
    if s.worker.pc.InLoop? && s.worker.active {
      hide Run;
      ActiveCloses(s, sent);
    }
  }

  lemma ActiveCloses(s: System, sent: bool)
    requires PostInv(s) && WorkerInv(s) && s.worker.pc.InLoop? && s.worker.active
    ensures Step(s, Worked(sent)).worker.pc.Closing?
    ensures var r := Step(s, Worked(sent)).worker.pc.report;
      r.seqId == s.worker.activeSeq && r.outcome == if s.worker.queue == [] then Failure else Success
  {
    if s.worker.queue != [] {
      TakenParity(s);
    }
    hide PostInv;
  }

  /** A step enters RECOVERING exactly if it adds to the history of entries. */
  lemma EntersRecovering(s: System, a: Action)
    ensures var s' := Step(s, a);
      && (s'.entered != s.entered <==> !s.loop.fsm.Recovering? && s'.loop.fsm.Recovering?)
      && (s'.entered == s.entered || (s.local != [] && s'.entered == s.entered + [s.local[0].seqId]))
  {
    hide Work;
  }

  /** How often a run enters RECOVERING. */
  function Entries(s: System, actions: seq<Action>): nat
    decreases |actions|
  {
    if actions == [] then 0
    else
      var s' := Step(s, actions[0]);
      Entries(s', actions[1..]) + if !s.loop.fsm.Recovering? && s'.loop.fsm.Recovering? then 1 else 0
  }

  lemma {:induction false} EntriesCounted(s: System, actions: seq<Action>)
    ensures |Run(s, actions).entered| == |s.entered| + Entries(s, actions)
    decreases |actions|
  {
    hide Step;
    if actions == [] {
    } else {
      EntersRecovering(s, actions[0]);
      EntriesCounted(Step(s, actions[0]), actions[1..]);
    }
  }

  /** The k-th entry into RECOVERING carries the sequence id of the k-th RECOVER
      posted; every RECOVER posted but perhaps the last has had its entry. */
  lemma EntriesTraceBack(deadlineMs: nat, actions: seq<Action>)
    ensures var s := Run(Initial(deadlineMs), actions);
      var p := Recovers(Posted(s));
      && |s.entered| == Entries(Initial(deadlineMs), actions)
      && s.entered <= p && |p| <= |s.entered| + 1
  {
    InitialInv(deadlineMs);
    RunKeeps(Initial(deadlineMs), actions);
    EntriesCounted(Initial(deadlineMs), actions);
  }

  /** Only a timeout taken in HEALTHY, which leads to DEGRADED, posts a RECOVER. */
  lemma OnlyTimeoutsAsk(s: System, a: Action)
    ensures var s' := Step(s, a);
      Recovers(Posted(s')) == Recovers(Posted(s))
      || (a.Timeout? && s.loop.fsm.Healthy? && s'.loop.fsm.Degraded?
          && Recovers(Posted(s')) == Recovers(Posted(s)) + [s.loop.txSeq])
  {
    match a {
      case Receive(f) =>
        PostEffect(s, OnFrame(s.loop, f), FramePosts(s.loop, f));
      case Timeout(now) =>
        PostEffect(s, OnTimeout(s.loop), TimeoutPosts(s.loop, now));
      case Worked(sent) =>
        if s.worker.pc.InLoop? && s.worker.queue != [] {
          Taking(s, sent);
        } else {
          assert s.taken + [] == s.taken;
        }
      case _ =>
    }
  }

  lemma PostEffect(s: System, l: Loop, posts: seq<Request>)
    requires |posts| <= 1
    ensures var s' := Post(s, l, posts);
      || s' == s
      || Recovers(Posted(s'))
         == Recovers(Posted(s)) + if posts != [] && posts[0].Recover? then [posts[0].seqId] else []
  {
    hide Recovers;
    if s.local == [] && (posts == [] || LockFree(s.worker)) {
      if posts == [] {
        PostingNothing(s, l);
      } else {
        assert posts == [posts[0]];
        Posting(s, l, posts[0]);
        RecoversOfOne(posts[0]);
      }
    }
  }

  predicate Stranded(s: System) {
    (s.loop.fsm.Degraded? || s.loop.fsm.Failed? || s.loop.fsm.SafeMode?) && Tokens(s) == []
  }

  /** Past HEALTHY and RECOVERING the loop posts nothing. */
  lemma StrandedPosts(l: Loop, f: ParsedFrame, now: int)
    requires l.fsm.Degraded? || l.fsm.Failed? || l.fsm.SafeMode?
    ensures FramePosts(l, f) == [] && TimeoutPosts(l, now) == []
    ensures var h := OnFrame(l, f).fsm; h.Degraded? || h.Failed? || h.SafeMode?
    ensures var h := OnTimeout(l).fsm; h.Degraded? || h.Failed? || h.SafeMode?
  {
  }

  lemma StrandedLoop(s: System, a: Action)
    requires Stranded(s) && (a.Receive? || a.Timeout?)
    ensures Stranded(Step(s, a))
  {
    hide Tokens, OnFrame, OnTimeout, FramePosts, TimeoutPosts;
    if s.local == [] {
      match a {
        case Receive(f) =>
          StrandedPosts(s.loop, f, 0);
          PostingNothing(s, OnFrame(s.loop, f));
        case Timeout(now) =>
          StrandedPosts(s.loop, ParsedFrame(InitHeader(0, 0, 0, 0), [], Ok), now);
          PostingNothing(s, OnTimeout(s.loop));
      }
    }
  }

  lemma StrandedApply(s: System)
    requires Stranded(s) && s.local != []
    ensures Stranded(Apply(s))
  {
    hide Tokens, Sents;
    Applying(s);
  }

  lemma StrandedWork(s: System, sent: bool)
    requires WorkerInv(s) && Stranded(s)
    ensures Stranded(DoWork(s, sent))
  {
    hide Tokens, Recovers, Posted;
    if s.worker.pc.InLoop? && s.worker.queue != [] {
      Taking(s, sent);
    } else if s.worker.pc.Announcing? || s.worker.pc.Closing? {
      Reporting(s, sent);
    } else {
      Moving(s, sent);
    }
  }

  lemma StrandedStays(s: System, a: Action)
    requires Inv(s) && Stranded(s)
    ensures Stranded(Step(s, a))
  {
    hide Inv, WorkerInv, Tokens, Apply, DoWork, Post;
    match a {
      case Drain =>
        if s.local == [] { Draining(s); }
      case ApplyReport =>
        if s.local != [] { StrandedApply(s); }
      case Worked(sent) =>
        assert WorkerInv(s) by { InvWorker(s); }
        StrandedWork(s, sent);
      case Stop =>
        Stopping(s);
      case _ =>
        StrandedLoop(s, a);
    }
  }

  lemma InvWorker(s: System)
    requires Inv(s)
    ensures WorkerInv(s)
  {
  }

  lemma Stopping(s: System)
    ensures var s' := s.(worker := s.worker.(stopping := true)); Tokens(s') == Tokens(s) && Posted(s') == Posted(s)
  {
  }

  lemma {:induction false} StrandedForever(s: System, actions: seq<Action>)
    requires Inv(s) && Stranded(s)
    ensures Stranded(Run(s, actions))
    decreases |actions|
  {
    hide Inv, Step, Stranded;
    if actions == [] {
    } else {
      StepKeeps(s, actions[0]);
      StrandedStays(s, actions[0]);
      StrandedForever(Step(s, actions[0]), actions[1..]);
    }
  }

  /** A fault event that degrades the supervisor is never recovered from: whatever
      happens afterwards, the state is DEGRADED, FAILED or SAFE_MODE. */
  lemma FaultDegradedNeverRecovers(deadlineMs: nat, before: seq<Action>, f: ParsedFrame, after: seq<Action>)
    ensures var s := Run(Initial(deadlineMs), before);
      var s' := Step(s, Receive(f));
      s.loop.fsm.Healthy? && s'.loop.fsm.Degraded? ==>
        var h := Run(s', after).loop.fsm;
        h.Degraded? || h.Failed? || h.SafeMode?
  {
    InitialInv(deadlineMs);
    RunKeeps(Initial(deadlineMs), before);
    var s := Run(Initial(deadlineMs), before);
    var s' := Step(s, Receive(f));
    StepKeeps(s, Receive(f));
    if s.loop.fsm.Healthy? && s'.loop.fsm.Degraded? {
      PostingNothing(s, OnFrame(s.loop, f));
      StrandedForever(s', after);
    }
  }
}
