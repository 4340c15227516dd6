/** Which frames move the health state, and which leave it alone: stated on the bytes of the protocol,
    for one frame, for a list of frames and for every step of a run. */
module FrameEffects {
  import opened Sequences
  import opened Crc
  import opened Wire
  import opened Framing
  import opened Health
  import opened Supervisor
  import EventLoops

  /** The second byte of a fault event's payload; a shorter payload counts as 0. */
  function SeverityByte(f: ParsedFrame): byte {
    if |f.payload| < 8 then 0 else f.payload[1]
  }

  /** The frame is valid and its type and id are new. */
  predicate New(l: Loop, f: ParsedFrame) {
    f.result == Ok && (f.header.kind, f.header.sequenceId) !in l.seen
  }

  /** The state after a frame, for every loop and frame. Only new heartbeats (type 1) and fault events
      (type 3) move it; telemetry, acknowledgements, reports, duplicates and damaged frames do not. */
  lemma FrameMoves(l: Loop, f: ParsedFrame)
    ensures var h, h' := l.fsm, OnFrame(l, f).fsm;
      && (h' != h ==> New(l, f) && (f.header.kind == 0x01 || f.header.kind == 0x03))
      && (New(l, f) && f.header.kind == 0x01 ==>
            h' == if h == Booting || h == Recovering then Healthy else h)
      && (New(l, f) && f.header.kind == 0x03 && SeverityByte(f) >= 2 ==>
            h' == if h == Healthy || h == Degraded then SafeMode else h)
      && (New(l, f) && f.header.kind == 0x03 && SeverityByte(f) < 2 ==>
            h' == if h == Healthy then Degraded else h)
  {
    hide NextSeq;
  }

  /** Every way in which a step of either thread can move the state. */
  lemma StepMoves(s: System, a: Action)
    ensures var h, h' := s.loop.fsm, Step(s, a).loop.fsm;
      h' != h ==>
        match a
        case Receive(f) =>
          && New(s.loop, f)
          && (|| (f.header.kind == 0x01 && (h == Booting || h == Recovering) && h' == Healthy)
              || (f.header.kind == 0x03 && SeverityByte(f) >= 2 && (h == Healthy || h == Degraded) && h' == SafeMode)
              || (f.header.kind == 0x03 && SeverityByte(f) < 2 && h == Healthy && h' == Degraded))
        case Timeout(_) => h == Healthy && h' == Degraded
        case ApplyReport =>
          && s.local != []
          && (|| (s.local[0].outcome == Sent && h == Degraded && h' == Recovering)
              || (s.local[0].outcome == Failure && (h == Degraded || h == Recovering) && h' == Failed))
        case _ => false
  {
    hide OnFrame, FramePosts, Work, NextSeq;
    if a.Receive? {
      FrameMoves(s.loop, a.f);
    }
  }

  // ----- A list of frames -----

  /** A frame that can move the state: valid, and a heartbeat or a fault event. */
  predicate Driving(f: ParsedFrame) {
    f.result == Ok && (f.header.kind == 0x01 || f.header.kind == 0x03)
  }

  function OnlyDriving(frames: seq<ParsedFrame>): seq<ParsedFrame>
    decreases |frames|
  {
    if frames == [] then []
    else
      var last := frames[|frames| - 1];
      OnlyDriving(frames[..|frames| - 1]) + if Driving(last) then [last] else []
  }

  /** The same state, and the same heartbeats and fault events seen. */
  ghost predicate Alike(l: Loop, m: Loop) {
    l.fsm == m.fsm && forall k: byte, id: bv16 :: k == 0x01 || k == 0x03 ==> ((k, id) in l.seen <==> (k, id) in m.seen)
  }

  lemma OthersSkipped(l: Loop, f: ParsedFrame)
    requires !Driving(f)
    ensures Alike(OnFrame(l, f), l)
  {
    hide NextSeq, Severity;
  }

  lemma DrivenAlike(l: Loop, m: Loop, f: ParsedFrame)
    requires Alike(l, m) && Driving(f)
    ensures Alike(OnFrame(l, f), OnFrame(m, f))
  {
    hide NextSeq, Severity, Next;
  }

  lemma AlikeTrans(l: Loop, m: Loop, n: Loop)
    requires Alike(l, m) && Alike(m, n)
    ensures Alike(l, n)
  {
  }

  /** The state depends on the valid heartbeats and fault events alone: taking all other frames out of
      any list leaves the supervisor in the same state. */
  lemma {:induction false} OthersDoNotMatter(l: Loop, frames: seq<ParsedFrame>)
    ensures Alike(EventLoops.Handled(l, frames), EventLoops.Handled(l, OnlyDriving(frames)))
    decreases |frames|
  {
    hide Alike, OnFrame, Driving;
    if frames == [] {
      SelfAlike(l);
    } else {
      var front, last := frames[..|frames| - 1], frames[|frames| - 1];
      var m, n := EventLoops.Handled(l, front), EventLoops.Handled(l, OnlyDriving(front));
      OthersDoNotMatter(l, front);
      if Driving(last) {
        DrivenAlike(m, n, last);
        HandledSnoc(l, OnlyDriving(front), last);
      } else {
        OthersSkipped(m, last);
        AlikeTrans(OnFrame(m, last), m, n);
        NothingAdded(OnlyDriving(front));
      }
    }
  }

  lemma SelfAlike(l: Loop)
    ensures Alike(l, l)
  {
  }

  lemma HandledSnoc(l: Loop, frames: seq<ParsedFrame>, f: ParsedFrame)
    ensures EventLoops.Handled(l, frames + [f]) == OnFrame(EventLoops.Handled(l, frames), f)
  {
    hide OnFrame;
    assert (frames + [f])[..|frames|] == frames;
  }

  // ----- Requests and ids -----

  /** What a step posts to the worker: RESTORED with the heartbeat's time when a new heartbeat ends
      RECOVERING, RECOVER with the next id and the time when a timeout ends HEALTHY, and nothing else. */
  lemma StepPosts(s: System, a: Action)
    ensures var w, w' := s.worker, Step(s, a).worker;
      match a
      case Receive(f) =>
        && w' == w.(queue := w'.queue)
        && (w'.queue != w.queue ==>
              New(s.loop, f) && f.header.kind == 0x01 && s.loop.fsm == Recovering
              && w'.queue == w.queue + [Restored(f.header.timestampMs as int)])
        && (s.local == [] && LockFree(w) && New(s.loop, f) && f.header.kind == 0x01 && s.loop.fsm == Recovering ==>
              w'.queue == w.queue + [Restored(f.header.timestampMs as int)])
      case Timeout(now) =>
        && w' == w.(queue := w'.queue)
        && (w'.queue != w.queue ==> s.loop.fsm == Healthy && w'.queue == w.queue + [Recover(s.loop.txSeq, now)])
        && (s.local == [] && LockFree(w) && s.loop.fsm == Healthy ==>
              w'.queue == w.queue + [Recover(s.loop.txSeq, now)])
      case Worked(_) => true
      case Stop => w' == w || w' == w.(stopping := true)
      case _ => w' == w
  {
    hide OnFrame, Work, NextSeq;
    NothingAdded(s.worker.queue);
  }

  lemma FrameIds(l: Loop, f: ParsedFrame)
    ensures var l' := OnFrame(l, f);
      || (l'.replies == l.replies && l'.txSeq == l.txSeq)
      || (|l'.replies| == |l.replies| + 1 && l'.replies[..|l.replies|] == l.replies
          && l'.replies[|l.replies|].seqId == l.txSeq && l'.txSeq == NextSeq(l.txSeq))
  {
    hide NextSeq, Next, Severity, OnFault;
  }

  /** Each reply and each RECOVER uses one id, and nothing else does. */
  lemma StepIds(s: System, a: Action)
    ensures var l, l' := s.loop, Step(s, a).loop;
      && (l' == l || l'.replies == l.replies ||
            (|l'.replies| == |l.replies| + 1 && l'.replies[..|l.replies|] == l.replies
             && l'.replies[|l.replies|].seqId == l.txSeq))
      && l'.txSeq == (if |l'.replies| > |l.replies| || (a.Timeout? && Step(s, a).worker.queue != s.worker.queue)
                      then NextSeq(l.txSeq) else l.txSeq)
  {
    hide NextSeq, Work, Next, OnFrame, FramePosts;
    NothingAdded(s.worker.queue);
    if a.Receive? {
      FrameIds(s.loop, a.f);
    }
    if a.Timeout? {
      assert |s.worker.queue + TimeoutPosts(s.loop, a.now)| == |s.worker.queue| + |TimeoutPosts(s.loop, a.now)|;
    }
  }
}
