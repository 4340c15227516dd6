/** Whose recovery a FAILED report ends. Reports wait between the worker and the event loop, and the
    loop may have moved on by the time it applies one. */
module RecoveryFailures {
  import opened Sequences
  import opened Wire
  import opened Framing
  import opened Health
  import opened Supervisor

  /** The reports already applied. */
  function Applied(s: System): seq<Report> {
    var n := |s.reported| - |s.local| - |s.reports|;
    if n >= 0 then s.reported[..n] else []
  }

  /** Reports are applied in the order in which they were posted. */
  predicate FifoInv(s: System) {
    s.reported == Applied(s) + (s.local + s.reports)
  }

  predicate LateInv(s: System) {
    var p := Recovers(Posted(s));
    && FifoInv(s)
    && |s.entered| <= |Sents(Applied(s))|
    && (|Posted(s)| % 2 == 0 ==> s.entered == p)
    && (|Posted(s)| % 2 == 1 && s.entered == p ==> s.loop.fsm.Recovering? || s.loop.fsm.Failed?)
  }

  // ----- Every step keeps it -----

  lemma SameReports(s: System, s': System)
    requires s'.reported == s.reported && s'.local + s'.reports == s.local + s.reports
    ensures Applied(s') == Applied(s) && (FifoInv(s) ==> FifoInv(s'))
  {
    assert |s'.local + s'.reports| == |s.local + s.reports|;
  }

  lemma LatePost(s: System, l: Loop, posts: seq<Request>)
    requires Inv(s) && LateInv(s) && Moves(s.loop.fsm, l.fsm, posts)
    requires s.loop.fsm.Recovering? ==> l.fsm.Recovering? || posts != []
    requires s.loop.fsm.Failed? ==> l.fsm.Failed?
    ensures LateInv(Post(s, l, posts))
  {
    hide Tokens, Recovers, Posted, Applied, Sents, WorkerInv, AccountInv, FifoInv;
    var s' := Post(s, l, posts);
    SameReports(s, s');
    if s.local == [] && posts == [] {
      PostingNothing(s, l);
    } else if s.local == [] && LockFree(s.worker) {
      assert posts == [posts[0]];
      Posting(s, l, posts[0]);
      RecoversOfOne(posts[0]);
    }
  }

  lemma LoopStays(l: Loop, f: ParsedFrame, now: int)
    ensures l.fsm.Recovering? ==> OnFrame(l, f).fsm.Recovering? || FramePosts(l, f) != []
    ensures l.fsm.Recovering? ==> OnTimeout(l).fsm.Recovering?
    ensures l.fsm.Failed? ==> OnFrame(l, f).fsm.Failed? && OnTimeout(l).fsm.Failed?
  {
  }

  lemma LateApply(s: System)
    requires Inv(s) && LateInv(s) && s.local != []
    ensures LateInv(Apply(s))
  {
    hide Tokens, Recovers, Applied, Sents, WorkerInv, AccountInv, FifoInv, Next;
    var s', r := Apply(s), s.local[0];
    assert Posted(s') == Posted(s);
    Applying(s);
    OneMoreApplied(s);
    SentsConcat(Applied(s), [r]);
    hide Posted;
    if r.outcome.Sent? {
      assert Tokens(s) != [];
      LateSent(s, s', r.seqId);
    } else {
      LateOutcome(s, s');
    }
  }

  lemma OneMoreApplied(s: System)
    requires FifoInv(s) && s.local != []
    ensures FifoInv(Apply(s)) && Applied(Apply(s)) == Applied(s) + [s.local[0]]
  {
    hide OnReport;
    var r := s.local[0];
    assert s.local == [r] + s.local[1..];
    Regroup([r], s.local[1..], s.reports);
    Regroup(Applied(s), [r], s.local[1..] + s.reports);
  }

  lemma LateSent(s: System, s': System, q: bv16)
    requires TokenInv(s) && EntryInv(s) && LateInv(s) && Tokens(s) == [q] + Tokens(s')
    requires FifoInv(s') && |Sents(Applied(s'))| == |Sents(Applied(s))| + 1
    requires s'.loop.fsm == Next(s.loop.fsm, RecoverySent) && Posted(s') == Posted(s)
    requires s'.entered == if s.loop.fsm.Degraded? then s.entered + [q] else s.entered
    ensures LateInv(s')
  {
    hide Tokens, Recovers, Posted, Applied, Sents, FifoInv;
    assert Tokens(s)[0] == q;
  }

  lemma LateOutcome(s: System, s': System)
    requires EntryInv(s) && LateInv(s)
    requires FifoInv(s') && |Sents(Applied(s'))| >= |Sents(Applied(s))|
    requires s'.loop.fsm == s.loop.fsm || s'.loop.fsm == Next(s.loop.fsm, RecoveryFailed)
    requires Posted(s') == Posted(s) && s'.entered == s.entered
    ensures LateInv(s')
  {
    hide Recovers, Posted, Applied, Sents, FifoInv;
  }

  lemma LateWork(s: System, sent: bool)
    requires Inv(s) && LateInv(s)
    ensures LateInv(DoWork(s, sent))
  {
    hide Tokens, Recovers, Applied, Sents, FifoInv, Work;
    var s' := DoWork(s, sent);
    assert Posted(s') == Posted(s) by {
      if s.worker.pc.InLoop? && s.worker.queue != [] {
        Taking(s, sent);
      } else {
        WorkKeepsQueue(s.worker, sent);
        NothingAdded(s.taken);
      }
    }
    MoreReported(s, sent);
    hide Posted;
  }

  lemma WorkKeepsQueue(w: Worker, sent: bool)
    requires !(w.pc.InLoop? && w.queue != [])
    ensures Work(w, sent).queue == w.queue && WorkTakes(w) == []
  {
  }

  lemma MoreReported(s: System, sent: bool)
    requires FifoInv(s)
    ensures FifoInv(DoWork(s, sent)) && Applied(DoWork(s, sent)) == Applied(s)
  {
    hide Work, WorkReports;
    var more := WorkReports(s.worker);
    Regroup(s.local, s.reports, more);
    Regroup(Applied(s), s.local + s.reports, more);
  }

  lemma LateStep(s: System, a: Action)
    requires Inv(s) && LateInv(s)
    ensures LateInv(Step(s, a))
  {
    hide Inv, LateInv, Apply, DoWork, Post, OnFrame, OnTimeout, FramePosts, TimeoutPosts, Moves;
    match a {
      case Receive(f) =>
        LoopMoves(s.loop, f, 0);
        LoopStays(s.loop, f, 0);
        LatePost(s, OnFrame(s.loop, f), FramePosts(s.loop, f));
      case Timeout(now) =>
        var f := ParsedFrame(InitHeader(0, 0, 0, 0), [], Ok);
        LoopMoves(s.loop, f, now);
        LoopStays(s.loop, f, now);
        LatePost(s, OnTimeout(s.loop), TimeoutPosts(s.loop, now));
      case Drain =>
        LateQuiet(s, Step(s, Drain));
      case ApplyReport =>
        if s.local != [] { LateApply(s); }
      case Worked(sent) =>
        LateWork(s, sent);
      case Stop =>
        LateQuiet(s, Step(s, Stop));
    }
  }

  lemma LateQuiet(s: System, s': System)
    requires LateInv(s) && s'.loop == s.loop && s'.entered == s.entered && s'.reported == s.reported
    requires s'.taken == s.taken && s'.worker.queue == s.worker.queue
    requires s'.local + s'.reports == s.local + s.reports
    ensures LateInv(s')
  {
    hide Recovers, Applied, Sents, FifoInv;
    SameReports(s, s');
  }

  lemma LateStart(deadlineMs: nat)
    ensures LateInv(Initial(deadlineMs))
  {
  }

  lemma {:induction false} LateRun(s: System, actions: seq<Action>)
    requires Inv(s) && LateInv(s)
    ensures LateInv(Run(s, actions))
    decreases |actions|
  {
    hide Inv, LateInv, Step;
    if actions == [] {
    } else {
      StepKeeps(s, actions[0]);
      LateStep(s, actions[0]);
      LateRun(Step(s, actions[0]), actions[1..]);
    }
  }

  // ----- Which RECOVER an outcome answers -----

  predicate SettledOrOpened(rs: seq<bv16>, reports: seq<Report>) {
    Settled(rs, reports) || Opened(rs, reports)
  }

  lemma {:induction false} SettledSents(rs: seq<bv16>, reports: seq<Report>)
    requires Settled(rs, reports)
    ensures |Sents(reports)| <= |rs| == |Outcomes(reports)|
    decreases |rs|
  {
    hide Sents;
    if rs == [] {
      NothingSent();
    } else {
      var n, k := |reports|, |rs| - 1;
      SentsSnoc(reports[..n - 1], reports[n - 1]);
      assert reports == reports[..n - 1] + [reports[n - 1]];
      if Settled(rs[..k], reports[..n - 1]) {
        SettledSents(rs[..k], reports[..n - 1]);
      } else {
        SettledSents(rs[..k], reports[..n - 2]);
        SentsSnoc(reports[..n - 2], reports[n - 2]);
        assert reports[..n - 1] == reports[..n - 2] + [reports[n - 2]];
        assert reports[..n - 1][..n - 2] == reports[..n - 2];
      }
    }
  }

  lemma NothingSent()
    ensures Sents([]) == []
  {
  }

  lemma SentsSnoc(reports: seq<Report>, r: Report)
    ensures Sents(reports + [r]) == Sents(reports) + if r.outcome.Sent? then [r.seqId] else []
  {
    hide Sents;
    SentsConcat(reports, [r]);
    SentsOfOne(r);
  }

  /** The n-th report, an outcome, answers the RECOVER with as many before it as there are outcomes
      before the report, and at most that many and one SENTs precede it. */
  predicate Answers(rs: seq<bv16>, reports: seq<Report>, n: nat)
    requires n < |reports|
  {
    var k := |Outcomes(reports[..n])|;
    k < |rs| && rs[k] == reports[n].seqId && |Sents(reports[..n])| <= k + 1
  }

  lemma {:induction false} SettledAnswers(rs: seq<bv16>, reports: seq<Report>, n: nat)
    requires Settled(rs, reports) && n < |reports| && !reports[n].outcome.Sent?
    ensures Answers(rs, reports, n)
    decreases |rs|
  {
    hide Sents, Outcomes;
    var m, k := |reports|, |rs| - 1;
    if Settled(rs[..k], reports[..m - 1]) {
      if n == m - 1 {
        SettledSents(rs[..k], reports[..n]);
      } else {
        SettledAnswers(rs[..k], reports[..m - 1], n);
        assert reports[..m - 1][..n] == reports[..n];
      }
    } else {
      if n == m - 1 {
        assert reports[..n][..n - 1] == reports[..m - 2];
        SentIsLast(rs[..k], reports[..n]);
      } else {
        SettledAnswers(rs[..k], reports[..m - 2], n);
        assert reports[..m - 2][..n] == reports[..n];
      }
    }
  }

  lemma OutcomesSkip(reports: seq<Report>)
    requires reports != [] && reports[|reports| - 1].outcome.Sent?
    ensures Outcomes(reports) == Outcomes(reports[..|reports| - 1])
  {
    NothingAdded(Outcomes(reports[..|reports| - 1]));
  }

  /** A SENT after settled reports adds to the SENTs and not to the outcomes. */
  lemma SentIsLast(rs: seq<bv16>, reports: seq<Report>)
    requires |reports| > 0 && reports[|reports| - 1].outcome.Sent? && Settled(rs, reports[..|reports| - 1])
    ensures |Sents(reports)| <= |rs| + 1 && |Outcomes(reports)| == |rs|
  {
    hide Sents, Outcomes, Settled;
    var n := |reports| - 1;
    SettledSents(rs, reports[..n]);
    SentsSnoc(reports[..n], reports[n]);
    OutcomesSkip(reports);
    assert reports == reports[..n] + [reports[n]];
  }

  lemma OpenedAnswers(rs: seq<bv16>, reports: seq<Report>, n: nat)
    requires SettledOrOpened(rs, reports) && n < |reports| && !reports[n].outcome.Sent?
    ensures Answers(rs, reports, n)
  {
    hide Sents, Outcomes, Settled;
    if Settled(rs, reports) {
      SettledAnswers(rs, reports, n);
    } else {
      var m, k := |reports|, |rs| - 1;
      if Settled(rs[..k], reports) {
        SettledAnswers(rs[..k], reports, n);
      } else {
        SettledAnswers(rs[..k], reports[..m - 1], n);
        assert reports[..m - 1][..n] == reports[..n];
      }
    }
  }

  lemma {:induction false} AlternatingRecovers(p: seq<Request>)
    requires Alternates(p)
    ensures |Recovers(p)| == (|p| + 1) / 2
    ensures forall i :: 0 <= i < |Recovers(p)| ==> p[2 * i].Recover? && Recovers(p)[i] == p[2 * i].seqId
    decreases |p|
  {
    hide Recovers;
    if p == [] {
      NoRecovers();
    } else {
      var m := |p| - 1;
      AlternatingRecovers(p[..m]);
      RecoversConcat(p[..m], [p[m]]);
      RecoversOfOne(p[m]);
      assert p == p[..m] + [p[m]];
    }
  }

  lemma NoRecovers()
    ensures Recovers([]) == []
  {
  }

  // ----- Whose recovery it ends -----

  /** How many RECOVERs come before the one that the next report to be applied answers. */
  function Own(s: System): nat {
    |Outcomes(Applied(s))|
  }

  lemma NextAnswers(s: System)
    requires AccountInv(s) && FifoInv(s) && s.local != [] && !s.local[0].outcome.Sent?
    ensures Own(s) < |Recovers(s.taken)| && Recovers(s.taken)[Own(s)] == s.local[0].seqId
    ensures |Sents(Applied(s))| <= Own(s) + 1
  {
    hide Recovers, Settled, Opened, Sents, Outcomes;
    var n := |Applied(s)|;
    assert s.reported[..n] == Applied(s) && s.reported[n] == s.local[0];
    OpenedAnswers(Recovers(s.taken), s.reported, n);
  }

  /** The next report is a FAILED one, of the k-th recovery (counted from 0). It answers the k-th
      RECOVER, the 2k-th request posted. At most a RESTORED and one more RECOVER were posted since. */
  ghost predicate MeetsOneOfThree(s: System)
    requires s.local != []
  {
    var k, n := Own(s), |Posted(s)|;
    && 2 * k < n <= 2 * k + 3
    && Posted(s)[2 * k].Recover? && Posted(s)[2 * k].seqId == s.local[0].seqId
    && (s.loop.fsm.Recovering? ==> n == 2 * k + 1)
    && (s.loop.fsm.Degraded? ==>
          && (n == 2 * k + 1 <==> |s.entered| == k)
          && (n == 2 * k + 3 <==> |s.entered| == k + 1 && n % 2 == 1))
    && (Apply(s).loop.fsm != s.loop.fsm <==> s.loop.fsm.Recovering? || s.loop.fsm.Degraded?)
  }

  lemma FailureCases(s: System)
    requires Inv(s) && LateInv(s) && s.local != [] && s.local[0].outcome.Failure?
    ensures MeetsOneOfThree(s)
  {
    hide Recovers, Settled, Opened, Sents, Outcomes, Tokens, Applied, WorkerInv, AccountInv;
    NextAnswers(s);
    var k, p, q := Own(s), Recovers(Posted(s)), Recovers(s.taken);
    RecoversConcat(s.taken, s.worker.queue);
    assert p[k] == q[k];
    AlternatingRecovers(Posted(s));
    assert |s.entered| <= k + 1 && |p| <= k + 2;
  }

  /** Exactly when a FAILED report meets a later recovery than its own. Whenever the loop is about to
      apply one, of the k-th recovery, that acts at all: in RECOVERING it is the current recovery's
      own. In DEGRADED it is so exactly if that recovery never entered RECOVERING (its command could
      not be sent). Otherwise the k-th recovery entered and was restored since, and the report ends a
      later one exactly if the last request posted is a RECOVER; if it is the RESTORED, the supervisor
      was degraded by a fault event and nothing is being recovered. */
  lemma FailedReportMeets(deadlineMs: nat, actions: seq<Action>)
    ensures var s := Run(Initial(deadlineMs), actions);
      s.local != [] && s.local[0].outcome.Failure? ==> MeetsOneOfThree(s)
  {
    hide Inv, LateInv, Run, MeetsOneOfThree;
    InitialInv(deadlineMs);
    LateStart(deadlineMs);
    RunKeeps(Initial(deadlineMs), actions);
    LateRun(Initial(deadlineMs), actions);
    var s := Run(Initial(deadlineMs), actions);
    if s.local != [] && s.local[0].outcome.Failure? {
      FailureCases(s);
    }
  }

  // ----- What a report says -----

  /** A SENT bears the id and time of its RECOVER, a SUCCESS the time of the RESTORED, a FAILED the id of
      its RECOVER and that time with the deadline added. */
  predicate Truthful(r: Report, taken: seq<Request>, deadlineMs: nat) {
    match r.outcome
    case Sent => Recover(r.seqId, r.ts) in taken
    case Success => Restored(r.ts) in taken
    case Failure => Recover(r.seqId, r.ts - deadlineMs) in taken
  }

  predicate TruthInv(s: System) {
    var w, d := s.worker, s.worker.deadlineMs;
    && (w.pc.Sending? || w.pc.Announcing? ==> Recover(w.pc.seqId, w.pc.ts) in s.taken)
    && (w.active ==> Recover(w.activeSeq, w.deadlineAt - d) in s.taken)
    && (w.pc.Closing? ==> Truthful(w.pc.report, s.taken, d))
    && forall i :: 0 <= i < |s.reported| ==> Truthful(s.reported[i], s.taken, d)
  }

  lemma StillTruthful(r: Report, taken: seq<Request>, more: seq<Request>, d: nat)
    requires Truthful(r, taken, d)
    ensures Truthful(r, taken + more, d)
  {
  }

  lemma TruthWork(s: System, sent: bool)
    requires TruthInv(s)
    ensures TruthInv(DoWork(s, sent))
  {
    hide Truthful;
    var s', w, d := DoWork(s, sent), s.worker, s.worker.deadlineMs;
    forall i | 0 <= i < |s'.reported|
      ensures Truthful(s'.reported[i], s'.taken, d)
    {
      if i < |s.reported| {
        StillTruthful(s.reported[i], s.taken, WorkTakes(w), d);
      } else {
        NewReportTruthful(s);
        NothingAdded(s.taken);
      }
    }
    ClosingTruthful(s, sent);
  }

  lemma NewReportTruthful(s: System)
    requires TruthInv(s)
    ensures forall i :: 0 <= i < |WorkReports(s.worker)| ==>
              Truthful(WorkReports(s.worker)[i], s.taken, s.worker.deadlineMs)
    ensures WorkReports(s.worker) != [] ==> WorkTakes(s.worker) == []
  {
  }

  lemma ClosingTruthful(s: System, sent: bool)
    requires TruthInv(s)
    ensures var w' := Work(s.worker, sent);
      w'.pc.Closing? ==> Truthful(w'.pc.report, s.taken + WorkTakes(s.worker), s.worker.deadlineMs)
  {
    if s.worker.pc.InLoop? && s.worker.queue != [] {
      assert s.worker.queue[0] in s.taken + [s.worker.queue[0]];
    }
  }

  lemma TruthStep(s: System, a: Action)
    requires TruthInv(s)
    ensures TruthInv(Step(s, a))
  {
    hide Truthful, DoWork, OnFrame, OnTimeout, FramePosts, TimeoutPosts, OnReport;
    if a.Worked? {
      TruthWork(s, a.sent);
    }
  }

  lemma {:induction false} TruthRun(s: System, actions: seq<Action>)
    requires TruthInv(s)
    ensures TruthInv(Run(s, actions))
    decreases |actions|
  {
    hide TruthInv, Step;
    if actions == [] {
    } else {
      TruthStep(s, actions[0]);
      TruthRun(Step(s, actions[0]), actions[1..]);
    }
  }

  lemma TruthStart(deadlineMs: nat)
    ensures TruthInv(Initial(deadlineMs))
  {
  }

  /** In every run every report names a request the worker took and bears its time. */
  lemma ReportsAreTruthful(deadlineMs: nat, actions: seq<Action>)
    ensures var s := Run(Initial(deadlineMs), actions);
      && s.worker.deadlineMs == deadlineMs
      && forall i :: 0 <= i < |s.reported| ==> Truthful(s.reported[i], s.taken, deadlineMs)
  {
    hide Run, Truthful;
    TruthStart(deadlineMs);
    TruthRun(Initial(deadlineMs), actions);
    SameDeadline(Initial(deadlineMs), actions);
  }

  lemma {:induction false} SameDeadline(s: System, actions: seq<Action>)
    ensures Run(s, actions).worker.deadlineMs == s.worker.deadlineMs
    decreases |actions|
  {
    if actions == [] {
    } else {
      SameDeadline(Step(s, actions[0]), actions[1..]);
      hide OnFrame, OnTimeout, FramePosts, TimeoutPosts, OnReport;
    }
  }

  // ----- A run in which it ends a later one -----

  predicate Beat(f: ParsedFrame, id: bv16) {
    f.result == Ok && f.header.kind == HEARTBEAT && f.header.sequenceId == id
  }

  /** The worker gets ready, the first heartbeat comes, then a timeout; the worker sends its command
      and reports it, and the loop is told: RECOVERING. */
  function Started(f: ParsedFrame): seq<Action> {
    [Worked(false), Worked(false), Receive(f), Timeout(0), Worked(false), Worked(false), Worked(true), Worked(true),
     Drain, ApplyReport]
  }

  /** The worker finds its queue empty and decides FAILED; a heartbeat restores the loop; only then is
      FAILED reported; another timeout, and the loop is told. */
  function Overtaken(g: ParsedFrame): seq<Action> {
    [Worked(false), Worked(false), Receive(g), Worked(false), Timeout(0), Drain]
  }

  lemma RunFrom(s: System, actions: seq<Action>, i: nat)
    requires i <= |actions|
    ensures Run(s, actions[i..]) == if i == |actions| then s else Run(Step(s, actions[i]), actions[i + 1..])
  {
    hide Step;
    if i < |actions| {
      assert actions[i..][1..] == actions[i + 1..];
    }
  }

  /** The system after `Started`: the first recovery has id 1 and is being waited for. */
  function Waiting(d: nat): System {
    System(Loop(Recovering, 2, {(HEARTBEAT, 0)}, [Ack(0, 0)]), [], [],
           Worker(Relocking(false), [], true, 1, d, d, false),
           [Recover(1, 0)], [Report(Sent, 1, 0)], [1])
  }

  lemma StartedRun(d: nat, f: ParsedFrame)
    requires Beat(f, 0)
    ensures Run(Initial(d), Started(f)) == Waiting(d)
  {
    hide Run;
    var acts, s0 := Started(f), Initial(d);
    assert acts[0..] == acts;
    var w := Worker(Blocked(false), [], false, 0, 0, d, false);
    var up := Loop(Healthy, 1, {(HEARTBEAT, 0)}, [Ack(0, 0)]);
    var down := up.(fsm := Degraded, txSeq := 2);
    var s1 := s0.(worker := w.(pc := Head));
    RunFrom(s0, acts, 0);
    assert Step(s0, acts[0]) == s1;
    var s2 := s0.(worker := w);
    RunFrom(s1, acts, 1);
    assert Step(s1, acts[1]) == s2;
    var s3 := s2.(loop := up);
    RunFrom(s2, acts, 2);
    assert Step(s2, acts[2]) == s3;
    var s4 := s3.(loop := down, worker := w.(queue := [Recover(1, 0)]));
    RunFrom(s3, acts, 3);
    assert Step(s3, acts[3]) == s4;
    var s5 := s4.(worker := s4.worker.(pc := InLoop));
    RunFrom(s4, acts, 4);
    assert Step(s4, acts[4]) == s5;
    var s6 := s5.(worker := Worker(Sending(1, 0), [], true, 1, d, d, false), taken := [Recover(1, 0)]);
    RunFrom(s5, acts, 5);
    assert Step(s5, acts[5]) == s6;
    var s7 := s6.(worker := s6.worker.(pc := Announcing(1, 0)));
    RunFrom(s6, acts, 6);
    assert Step(s6, acts[6]) == s7;
    var sent := [Report(Sent, 1, 0)];
    var s8 := s7.(worker := s7.worker.(pc := Relocking(false)), reports := sent, reported := sent);
    RunFrom(s7, acts, 7);
    assert Step(s7, acts[7]) == s8;
    var s9 := s8.(local := sent, reports := []);
    RunFrom(s8, acts, 8);
    assert Step(s8, acts[8]) == s9;
    RunFrom(s9, acts, 9);
    assert Step(s9, acts[9]) == Waiting(d);
    RunFrom(Waiting(d), acts, 10);
  }

  /** The system after `Overtaken`: recovery 1 failed, was restored, and recovery 3 is asked for. */
  function Asking(d: nat, ts: int): System {
    var failed := Report(Failure, 1, d);
    System(Loop(Degraded, 4, {(HEARTBEAT, 0), (HEARTBEAT, 1)}, [Ack(0, 0), Ack(2, 1)]), [failed], [],
           Worker(Relocking(true), [Restored(ts), Recover(3, 0)], false, 1, d, d, false),
           [Recover(1, 0)], [Report(Sent, 1, 0), failed], [1])
  }

  lemma OvertakenRun(d: nat, g: ParsedFrame)
    requires Beat(g, 1)
    ensures Run(Waiting(d), Overtaken(g)) == Asking(d, TimeOf(g))
  {
    hide Run, TimeOf;
    var acts, s0, failed := Overtaken(g), Waiting(d), Report(Failure, 1, d);
    assert acts[0..] == acts;
    var s1 := s0.(worker := s0.worker.(pc := InLoop));
    RunFrom(s0, acts, 0);
    assert Step(s0, acts[0]) == s1;
    var s2 := s1.(worker := s1.worker.(pc := Closing(failed), active := false));
    RunFrom(s1, acts, 1);
    assert Step(s1, acts[1]) == s2;
    var up := Loop(Healthy, 3, {(HEARTBEAT, 0), (HEARTBEAT, 1)}, [Ack(0, 0), Ack(2, 1)]);
    var s3 := s2.(loop := up, worker := s2.worker.(queue := [Restored(TimeOf(g))]));
    RunFrom(s2, acts, 2);
    assert Step(s2, acts[2]) == s3;
    var s4 := s3.(worker := s3.worker.(pc := Relocking(true)), reports := [failed],
      reported := [Report(Sent, 1, 0), failed]);
    RunFrom(s3, acts, 3);
    assert Step(s3, acts[3]) == s4;
    var s5 := s4.(loop := up.(fsm := Degraded, txSeq := 4),
                  worker := s4.worker.(queue := [Restored(TimeOf(g)), Recover(3, 0)]));
    RunFrom(s4, acts, 4);
    assert Step(s4, acts[4]) == s5;
    RunFrom(s5, acts, 5);
    assert Step(s5, acts[5]) == Asking(d, TimeOf(g));
    RunFrom(Asking(d, TimeOf(g)), acts, 6);
  }

  /** The third case happens: in this run the FAILED report of recovery 1 is applied while recovery 3
      is being asked for, and ends it in FAILED. */
  lemma FailureOvertaken(d: nat, f: ParsedFrame, g: ParsedFrame)
    requires Beat(f, 0) && Beat(g, 1)
    ensures var s := Run(Initial(d), Started(f) + Overtaken(g));
      && s.local == [Report(Failure, 1, d)] && s.loop.fsm.Degraded?
      && Posted(s) == [Recover(1, 0), Restored(TimeOf(g)), Recover(3, 0)]
      && Apply(s).loop.fsm.Failed?
  {
    hide Run, TimeOf, Started, Overtaken;
    StartedRun(d, f);
    OvertakenRun(d, g);
    RunInTwoParts(Initial(d), Started(f), Overtaken(g));
  }

  lemma {:induction false} RunInTwoParts(s: System, a: seq<Action>, b: seq<Action>)
    ensures Run(s, a + b) == Run(Run(s, a), b)
    decreases |a|
  {
    hide Step;
    if a == [] {
      assert a + b == b;
    } else {
      assert (a + b)[1..] == a[1..] + b;
      RunInTwoParts(Step(s, a[0]), a[1..], b);
    }
  }
}
