/** The firmware's receive path: a byte-at-a-time state machine in the UART
    interrupt, its exact meaning on every stream, and when that meaning agrees
    with the supervisor's buffered parse. */
module Receiver {
  import opened Sequences
  import opened Crc
  import opened Wire
  import opened Framing
  import opened Streams

  datatype Phase = HuntMagicLo | HuntMagicHi | InHeader | InPayload

  /** The state as a value: the phase and the bytes collected so far. */
  datatype Rx = Rx(phase: Phase, held: seq<byte>)

  const RESET: Rx := Rx(HuntMagicLo, [])
  const QUEUE_DEPTH: nat := 8

  /** What the collected bytes look like in each phase. */
  predicate Consistent(r: Rx) {
    match r.phase
    case HuntMagicLo => r.held == []
    case HuntMagicHi => r.held == [MAGIC_LO]
    case InHeader => 2 <= |r.held| < HEADER_SIZE && U16(r.held[0], r.held[1]) == MAGIC
    case InPayload =>
      && HEADER_SIZE <= |r.held| < FrameSize(r.held) <= MAX_FRAME_SIZE
      && U16(r.held[0], r.held[1]) == MAGIC
  }

  /** The next state, and the frame the byte completes, if any. */
  function Step(r: Rx, b: byte): (Rx, seq<seq<byte>>)
    requires Consistent(r)
  {
    var grown := r.held + [b];
    match r.phase
    case HuntMagicLo => (if b == MAGIC_LO then Rx(HuntMagicHi, [b]) else r, [])
    case HuntMagicHi =>
      if b == MAGIC_HI then (Rx(InHeader, grown), [])
      else if b == MAGIC_LO then (Rx(HuntMagicHi, [b]), [])
      else (RESET, [])
    case InHeader =>
      if |grown| < HEADER_SIZE then (Rx(InHeader, grown), [])
      else if FrameSize(grown) > MAX_FRAME_SIZE then (RESET, [])
      else if FrameSize(grown) == HEADER_SIZE then (RESET, [grown])
      else (Rx(InPayload, grown), [])
    case InPayload =>
      if |grown| == FrameSize(grown) then (RESET, [grown]) else (Rx(InPayload, grown), [])
  }

  function OnlyOk(fs: seq<seq<byte>>): seq<seq<byte>>
    decreases |fs|
  {
    if fs == [] then [] else OnlyOk(fs[..|fs| - 1]) + if Validate(fs[|fs| - 1]) == Ok then [fs[|fs| - 1]] else []
  }

  /** `k_msgq_put` without waiting: a full queue loses the message. */
  function Put(queue: seq<seq<byte>>, frames: seq<seq<byte>>): seq<seq<byte>> {
    if |queue| + |frames| <= QUEUE_DEPTH then queue + frames else queue
  }

  /** `rxs` and the queue behind it. */
  class Uart {
    var phase: Phase
    const buf: array<byte>
    var need: nat
    var got: nat
    var payloadLen: nat
    var queue: seq<seq<byte>>

    ghost predicate Valid()
      reads this, buf
    {
      && buf.Length == MAX_FRAME_SIZE
      && got <= MAX_FRAME_SIZE
      && Consistent(View())
      && (phase == InHeader ==> got + need == HEADER_SIZE)
      && (phase == InPayload ==> got + need == HEADER_SIZE + payloadLen == FrameSize(buf[..got]))
      && |queue| <= QUEUE_DEPTH
    }

    ghost function View(): Rx
      reads this, buf
      requires buf.Length == MAX_FRAME_SIZE && got <= MAX_FRAME_SIZE
    {
      Rx(phase, buf[..got])
    }

    constructor ()
      ensures Valid() && View() == RESET && queue == []
    {
      buf := new byte[MAX_FRAME_SIZE];
      phase := HuntMagicLo;
      need, got, payloadLen := 0, 0, 0;
      queue := [];
    }

    method Reset()
      requires Valid()
      modifies this`phase, this`need, this`got, this`payloadLen
      ensures Valid() && View() == RESET
    {
      phase := HuntMagicLo;
      need, got, payloadLen := 0, 0, 0;
    }

    /** `rx_feed_byte`: no byte is ever written past the buffer. */
    method FeedByte(b: byte)
      requires Valid()
      modifies this, buf
      ensures Valid()
      ensures View() == Step(old(View()), b).0
      ensures queue == Put(old(queue), OnlyOk(Step(old(View()), b).1))
      ensures |queue| <= 8 && (|old(queue)| == 8 ==> queue == old(queue))
    {
      hide Step, OnlyOk, Consistent, FrameSize;
      match phase {
        case HuntMagicLo => OnMagicLo(b);
        case HuntMagicHi => OnMagicHi(b);
        case InHeader => OnHeader(b);
        case InPayload => OnPayload(b);
      }
    }

    method OnMagicLo(b: byte)
      requires Valid() && phase == HuntMagicLo
      modifies this, buf
      ensures Valid()
      ensures View() == Step(old(View()), b).0
      ensures queue == Put(old(queue), OnlyOk(Step(old(View()), b).1))
    {
      NoneOk();
      if b == MAGIC_LO {
        buf[0] := b;
        got := 1;
        phase := HuntMagicHi;
      }
    }

    method OnMagicHi(b: byte)
      requires Valid() && phase == HuntMagicHi
      modifies this, buf
      ensures Valid()
      ensures View() == Step(old(View()), b).0
      ensures queue == Put(old(queue), OnlyOk(Step(old(View()), b).1))
    {
      NoneOk();
      assert buf[..got][0] == buf[0];
      MagicBytes(buf[0], b);
      if b == MAGIC_HI {
        buf[1] := b;
        got := 2;
        need := HEADER_SIZE - 2;
        phase := InHeader;
        assert View().held == old(View()).held + [b];
      } else if b == MAGIC_LO {
        buf[0] := b;
        got := 1;
      } else {
        Reset();
      }
    }

    method OnHeader(b: byte)
      requires Valid() && phase == InHeader
      modifies this, buf
      ensures Valid()
      ensures View() == Step(old(View()), b).0
      ensures queue == Put(old(queue), OnlyOk(Step(old(View()), b).1))
    {
      NoneOk();
      ghost var grown := buf[..got] + [b];
      buf[got] := b;
      got, need := got + 1, need - 1;
      assert buf[..got] == grown;
      if need == 0 {
        var size := FrameSize(buf[..HEADER_SIZE]);
        if size > MAX_FRAME_SIZE {
          phase := HuntMagicLo;
          need, got, payloadLen := 0, 0, 0;
        } else {
          payloadLen := size - HEADER_SIZE;
          if payloadLen == 0 {
            FrameComplete(grown);
          } else {
            need := payloadLen;
            phase := InPayload;
          }
        }
      }
    }

    method OnPayload(b: byte)
      requires Valid() && phase == InPayload
      modifies this, buf
      ensures Valid()
      ensures View() == Step(old(View()), b).0
      ensures queue == Put(old(queue), OnlyOk(Step(old(View()), b).1))
    {
      NoneOk();
      ghost var grown := buf[..got] + [b];
      assert FrameSize(grown) == FrameSize(buf[..got]);
      buf[got] := b;
      got, need := got + 1, need - 1;
      assert buf[..got] == grown;
      if need == 0 {
        FrameComplete(grown);
      }
    }

    /** A whole frame is in the buffer: deliver it if it validates, then start over. */
    method FrameComplete(ghost frame: seq<byte>)
      requires buf.Length == MAX_FRAME_SIZE && got <= MAX_FRAME_SIZE && buf[..got] == frame
      requires |queue| <= QUEUE_DEPTH
      modifies this
      ensures Valid() && View() == RESET
      ensures queue == Put(old(queue), OnlyOk([frame]))
    {
      hide Validate;
      OneOk(frame);
      if Validate(buf[..got]) == Ok {
        if |queue| < QUEUE_DEPTH {
          queue := queue + [buf[..got]];
        }
      }
      phase := HuntMagicLo;
      need, got, payloadLen := 0, 0, 0;
    }
  }

  lemma NoneOk()
    ensures OnlyOk([]) == []
  {
  }

  lemma OneOk(f: seq<byte>)
    ensures OnlyOk([f]) == if Validate(f) == Ok then [f] else []
  {
    hide Validate;
    assert [f][..0] == [];
    NoneOk();
  }

  // ----- What the machine means, on every stream -----

  /** As `Rest`, except that an over-long header is thrown away whole. */
  function Beyond(s: seq<byte>): (r: seq<byte>)
    requires Decide(s) != Stuck
    ensures |r| < |s|
  {
    if Decide(s) == Reject then s[HEADER_SIZE..] else Rest(s)
  }

  /** The frames a whole stream completes. */
  function Completed(s: seq<byte>): seq<seq<byte>>
    decreases |s|
  {
    match Decide(s)
    case Stuck => []
    case Emit(n) => [s[..n]] + Completed(s[n..])
    case _ => Completed(Beyond(s))
  }

  /** The bytes it leaves pending. */
  function Pending(s: seq<byte>): (r: seq<byte>)
    ensures Decide(r) == Stuck
    decreases |s|
  {
    if Decide(s) == Stuck then s else Pending(Beyond(s))
  }

  lemma BeyondStable(s: seq<byte>, t: seq<byte>)
    requires Decide(s) != Stuck
    ensures Decide(s + t) == Decide(s) && Beyond(s + t) == Beyond(s) + t
  {
    DecisionStable(s, t);
    if Decide(s) == Reject {
      assert (s + t)[HEADER_SIZE..] == s[HEADER_SIZE..] + t;
    }
  }

  lemma {:induction false} CompletedInTwoParts(s: seq<byte>, t: seq<byte>)
    ensures Completed(s + t) == Completed(s) + Completed(Pending(s) + t)
    ensures Pending(s + t) == Pending(Pending(s) + t)
    decreases |s|
  {
    hide Decide;
    if Decide(s) == Stuck {
      assert [] + Completed(s + t) == Completed(s + t);
    } else {
      var rest := Beyond(s);
      BeyondStable(s, t);
      CompletedInTwoParts(rest, t);
      CompletedStep(s);
      CompletedStep(s + t);
      if Decide(s).Emit? {
        var n := Decide(s).size;
        assert (s + t)[..n] == s[..n];
        hide Completed;
        Regroup([s[..n]], Completed(rest), Completed(Pending(rest) + t));
      }
    }
  }

  lemma CompletedStep(s: seq<byte>)
    requires Decide(s) != Stuck
    ensures Completed(s) == (if Decide(s).Emit? then [s[..Decide(s).size]] else []) + Completed(Beyond(s))
    ensures Pending(s) == Pending(Beyond(s))
  {
    hide Decide;
    assert [] + Completed(Beyond(s)) == Completed(Beyond(s));
  }

  /** The state that holds pending bytes: one byte that cannot start a frame is forgotten. */
  function StateOf(r: seq<byte>): Rx {
    if |r| == 0 || (|r| == 1 && r[0] != MAGIC_LO) then RESET
    else if |r| == 1 then Rx(HuntMagicHi, r)
    else if |r| < HEADER_SIZE then Rx(InHeader, r)
    else Rx(InPayload, r)
  }

  lemma StateOfConsistent(r: seq<byte>)
    requires Decide(r) == Stuck
    ensures Consistent(StateOf(r))
  {
  }

  lemma OneByte(b: byte)
    ensures Decide([b]) == Stuck && Pending([b]) == [b] && Completed([b]) == []
  {
  }

  lemma TwoBytes(a: byte, b: byte)
    ensures Completed([a, b]) == []
    ensures Pending([a, b]) == if U16(a, b) == MAGIC then [a, b] else [b]
  {
    OneByte(b);
    if U16(a, b) != MAGIC {
      assert Decide([a, b]) == Drop && Beyond([a, b]) == [b];
    } else {
      assert Decide([a, b]) == Stuck;
    }
  }

  lemma StepFromNothing(b: byte)
    ensures Step(RESET, b) == (StateOf(Pending([b])), Completed([b]))
  {
    OneByte(b);
  }

  lemma StepFromOneByte(a: byte, b: byte)
    ensures Consistent(StateOf([a]))
    ensures Step(StateOf([a]), b) == (StateOf(Pending([a, b])), Completed([a, b]))
  {
    OneByte(a);
    StateOfConsistent([a]);
    hide Decide, Pending, Completed, U16, FrameSize;
    MagicBytes(a, b);
    TwoBytes(a, b);
    assert [a] + [b] == [a, b];
  }

  lemma StepHunting(r: seq<byte>, b: byte)
    requires Decide(r) == Stuck && |r| < 2
    ensures Consistent(StateOf(r))
    ensures Step(StateOf(r), b) == (StateOf(Pending(r + [b])), Completed(r + [b]))
  {
    hide Decide, Pending, Completed, Step;
    if r == [] {
      assert r + [b] == [b];
      StepFromNothing(b);
    } else {
      assert r == [r[0]] && r + [b] == [r[0], b];
      StepFromOneByte(r[0], b);
    }
  }

  lemma StepCollecting(r: seq<byte>, b: byte)
    requires Decide(r) == Stuck && |r| >= 2
    ensures Consistent(StateOf(r))
    ensures Step(StateOf(r), b) == (StateOf(Pending(r + [b])), Completed(r + [b]))
  {
    StateOfConsistent(r);
    OneMoreByte(r, b);
    EmptyPending();
    var s := r + [b];
    if Decide(s) != Stuck {
      CompletedStep(s);
      assert s[..|s|] == s;
      assert Pending(s) == [] && Completed(s) == if Decide(s) == Reject then [] else [s];
    }
    hide U16, Completed, Pending;
  }

  /** One more byte either is still too little, or settles all that is held at once. */
  lemma OneMoreByte(r: seq<byte>, b: byte)
    requires Decide(r) == Stuck && |r| >= 2
    ensures var s := r + [b];
      && U16(s[0], s[1]) == MAGIC
      && (|s| >= HEADER_SIZE && |r| >= HEADER_SIZE ==> FrameSize(s) == FrameSize(r))
      && (Decide(s) != Stuck ==> Beyond(s) == [] && (Decide(s) == Reject || Decide(s) == Emit(|s|)))
  {
  }

  lemma EmptyPending()
    ensures Decide([]) == Stuck && Pending([]) == [] && Completed([]) == []
  {
  }

  /** The machine run over a stream, from the reset state. */
  function Run(s: seq<byte>): (r: (Rx, seq<seq<byte>>))
    ensures Consistent(r.0)
    decreases |s|
  {
    if s == [] then (RESET, [])
    else
      var (state, done) := Run(s[..|s| - 1]);
      var (next, more) := Step(state, s[|s| - 1]);
      assert Consistent(next) by { StepConsistent(state, s[|s| - 1]); }
      (next, done + more)
  }

  lemma StepConsistent(r: Rx, b: byte)
    requires Consistent(r)
    ensures Consistent(Step(r, b).0)
  {
    MagicBytes(MAGIC_LO, b);
    if r.phase == InPayload {
      assert FrameSize(r.held + [b]) == FrameSize(r.held);
    }
  }

  /** Exactly what the interrupt handler does with any stream at all. */
  lemma {:induction false} MachineMeaning(s: seq<byte>)
    ensures Run(s) == (StateOf(Pending(s)), Completed(s))
    decreases |s|
  {
    hide Step, Completed, Pending, Decide, Consistent, StateOf;
    if s == [] {
      MeaningOfNothing();
    } else {
      var front, b := s[..|s| - 1], s[|s| - 1];
      MachineMeaning(front);
      assert s == front + [b];
      CompletedInTwoParts(front, [b]);
      if |Pending(front)| < 2 {
        StepHunting(Pending(front), b);
      } else {
        StepCollecting(Pending(front), b);
      }
    }
  }

  lemma MeaningOfNothing()
    ensures StateOf(Pending([])) == RESET && Completed([]) == []
  {
  }

  // ----- Agreement with the buffered parse -----

  /** A frame and where in the stream it starts. */
  datatype Found = Found(start: nat, frame: seq<byte>)

  /** The frames of the buffered parse, with their places. */
  function ParsedAt(s: seq<byte>, at: nat): seq<Found>
    decreases |s|
  {
    match Decide(s)
    case Stuck => []
    case Emit(n) => [Found(at, s[..n])] + ParsedAt(s[n..], at + n)
    case _ => ParsedAt(s[1..], at + 1)
  }

  /** The frames the receiver completes, with their places. */
  function ReceivedAt(s: seq<byte>, at: nat): seq<Found>
    decreases |s|
  {
    match Decide(s)
    case Stuck => []
    case Emit(n) => [Found(at, s[..n])] + ReceivedAt(s[n..], at + n)
    case Drop => ReceivedAt(s[1..], at + 1)
    case Reject => ReceivedAt(s[HEADER_SIZE..], at + HEADER_SIZE)
  }

  function FramesOnly(fs: seq<Found>): seq<seq<byte>>
    decreases |fs|
  {
    if fs == [] then [] else [fs[0].frame] + FramesOnly(fs[1..])
  }

  lemma FramesOnlyCons(f: Found, fs: seq<Found>)
    ensures FramesOnly([f] + fs) == [f.frame] + FramesOnly(fs)
  {
    assert ([f] + fs)[1..] == fs;
  }

  lemma FramesStep(s: seq<byte>)
    requires Decide(s) != Stuck
    ensures Frames(Items(s)) == (if Decide(s).Emit? then [s[..Decide(s).size]] else []) + Frames(Items(Rest(s)))
  {
    hide Decide;
    assert Items(s)[1..] == Items(Rest(s));
  }

  lemma {:induction false} ParsedFrames(s: seq<byte>, at: nat)
    ensures FramesOnly(ParsedAt(s, at)) == Frames(Items(s))
    decreases |s|
  {
    hide Decide, Items, Frames, FramesOnly;
    if Decide(s) == Stuck {
      NothingFound(s);
    } else {
      FramesStep(s);
      ParsedFrames(Rest(s), at + Consumed(Decide(s)));
      if Decide(s).Emit? {
        var n := Decide(s).size;
        FramesOnlyCons(Found(at, s[..n]), ParsedAt(s[n..], at + n));
      }
    }
  }

  lemma {:induction false} ReceivedFrames(s: seq<byte>, at: nat)
    ensures FramesOnly(ReceivedAt(s, at)) == Completed(s)
    decreases |s|
  {
    hide Decide, Completed, FramesOnly;
    if Decide(s) == Stuck {
      NothingFound(s);
    } else {
      CompletedStep(s);
      ReceivedFrames(Beyond(s), at + if Decide(s) == Reject then HEADER_SIZE else Consumed(Decide(s)));
      if Decide(s).Emit? {
        var n := Decide(s).size;
        FramesOnlyCons(Found(at, s[..n]), ReceivedAt(s[n..], at + n));
      }
    }
  }

  lemma NothingFound(s: seq<byte>)
    requires Decide(s) == Stuck
    ensures FramesOnly([]) == [] && Frames(Items(s)) == [] && Completed(s) == []
  {
    hide Decide;
  }

  /** Without their places these are the frames of the parse and of the receiver. */
  lemma PlacesForgotten(s: seq<byte>, at: nat)
    ensures FramesOnly(ParsedAt(s, at)) == Frames(Items(s))
    ensures FramesOnly(ReceivedAt(s, at)) == Completed(s)
  {
    ParsedFrames(s, at);
    ReceivedFrames(s, at);
  }

  /** What the buffered parse does inside a header the receiver throws away: it finds a frame
      there, gets stuck there, or gets through to the byte behind it. */
  datatype Passage = FindsFrame | GetsStuck | GetsThrough

  function Through(s: seq<byte>, i: nat): Passage
    requires |s| >= HEADER_SIZE && i <= HEADER_SIZE
    decreases HEADER_SIZE - i
  {
    if i == HEADER_SIZE then GetsThrough
    else
      match Decide(s[i..])
      case Stuck => GetsStuck
      case Emit(_) => FindsFrame
      case _ => Through(s, i + 1)
  }

  /** At no over-long header the receiver meets does the buffered parse find a frame that starts in
      the 15 bytes thrown away with it; and where it gets stuck there, the receiver completes
      nothing behind the header either. */
  predicate NothingHidden(s: seq<byte>)
    decreases |s|
  {
    match Decide(s)
    case Stuck => true
    case Reject =>
      (match Through(s, 1)
       case FindsFrame => false
       case GetsStuck => Completed(Beyond(s)) == []
       case GetsThrough => NothingHidden(Beyond(s)))
    case _ => NothingHidden(Beyond(s))
  }

  lemma {:induction false} ReceivedPlaces(s: seq<byte>, at: nat)
    ensures forall i :: 0 <= i < |ReceivedAt(s, at)| ==> ReceivedAt(s, at)[i].start >= at
    decreases |s|
  {
    hide FrameSize;
    match Decide(s) {
      case Stuck =>
      case Emit(n) => ReceivedPlaces(s[n..], at + n);
      case Drop => ReceivedPlaces(s[1..], at + 1);
      case Reject => ReceivedPlaces(s[HEADER_SIZE..], at + HEADER_SIZE);
    }
  }

  lemma {:induction false} PassageMeaning(s: seq<byte>, i: nat, at: nat)
    requires |s| >= HEADER_SIZE && 1 <= i <= HEADER_SIZE
    ensures match Through(s, i)
      case FindsFrame => ParsedAt(s[i..], at + i) != [] && ParsedAt(s[i..], at + i)[0].start < at + HEADER_SIZE
      case GetsStuck => ParsedAt(s[i..], at + i) == []
      case GetsThrough => ParsedAt(s[i..], at + i) == ParsedAt(s[HEADER_SIZE..], at + HEADER_SIZE)
    decreases HEADER_SIZE - i
  {
    hide FrameSize;
    if i < HEADER_SIZE && (Decide(s[i..]).Drop? || Decide(s[i..]).Reject?) {
      assert s[i..][1..] == s[i + 1..];
      PassageMeaning(s, i + 1, at);
    }
  }

  lemma NothingReceived(s: seq<byte>, at: nat)
    ensures ReceivedAt(s, at) == [] <==> Completed(s) == []
  {
    PlacesForgotten(s, at);
  }

  /** The receiver and the buffered parse find the same frames at the same places if and only if
      nothing is hidden: on every stream. */
  lemma {:induction false} AgreementIsExact(s: seq<byte>, at: nat)
    ensures ReceivedAt(s, at) == ParsedAt(s, at) <==> NothingHidden(s)
    decreases |s|
  {
    hide Decide, Through, Completed;
    match Decide(s) {
      case Stuck =>
      case Emit(n) =>
        AgreementIsExact(s[n..], at + n);
        assert ParsedAt(s, at)[1..] == ParsedAt(s[n..], at + n);
        assert ReceivedAt(s, at)[1..] == ReceivedAt(s[n..], at + n);
      case Drop =>
        AgreementIsExact(s[1..], at + 1);
      case Reject =>
        RejectedAgreement(s, at);
        if Through(s, 1) == GetsThrough {
          AgreementIsExact(s[HEADER_SIZE..], at + HEADER_SIZE);
        }
    }
  }

  lemma RejectedAgreement(s: seq<byte>, at: nat)
    requires Decide(s) == Reject
    ensures match Through(s, 1)
      case FindsFrame => ReceivedAt(s, at) != ParsedAt(s, at)
      case GetsStuck => ReceivedAt(s, at) == ParsedAt(s, at) <==> Completed(Beyond(s)) == []
      case GetsThrough => ReceivedAt(s, at) == ReceivedAt(s[HEADER_SIZE..], at + HEADER_SIZE)
                          && ParsedAt(s, at) == ParsedAt(s[HEADER_SIZE..], at + HEADER_SIZE)
  {
    PassageMeaning(s, 1, at);
    ReceivedPlaces(s[HEADER_SIZE..], at + HEADER_SIZE);
    NothingReceived(s[HEADER_SIZE..], at + HEADER_SIZE);
    assert s[1..] == s[1..];
    hide FrameSize, Completed, Through;
  }

  /** The 15 bytes after the first of a header: none of them starts a frame. */
  predicate QuietHeader(s: seq<byte>)
    requires |s| >= HEADER_SIZE
  {
    && (forall i :: 1 <= i < HEADER_SIZE - 1 ==> U16(s[i], s[i + 1]) != MAGIC)
    && s[HEADER_SIZE - 1] != MAGIC_LO
  }

  /** No over-long header in the stream covers a magic. */
  predicate Quiet(s: seq<byte>)
    decreases |s|
  {
    match Decide(s)
    case Stuck => true
    case Reject => QuietHeader(s) && Quiet(Beyond(s))
    case _ => Quiet(Beyond(s))
  }

  lemma {:induction false} QuietPassage(s: seq<byte>, i: nat)
    requires HEADER_SIZE <= |s| && 1 <= i <= HEADER_SIZE && QuietHeader(s)
    ensures Through(s, i) == GetsThrough || (Through(s, i) == GetsStuck && |s| == HEADER_SIZE)
    decreases HEADER_SIZE - i
  {
    hide FrameSize;
    if i == HEADER_SIZE {
    } else {
      var t := s[i..];
      QuietPassage(s, i + 1);
      if |t| >= 2 {
        MagicBytes(t[0], t[1]);
        assert t[0] == s[i] && t[1] == s[i + 1];
        assert Decide(t) == Drop;
      }
    }
  }

  lemma {:induction false} QuietHidesNothing(s: seq<byte>)
    requires Quiet(s)
    ensures NothingHidden(s)
    decreases |s|
  {
    hide FrameSize;
    if Decide(s) == Stuck {
    } else {
      QuietHidesNothing(Beyond(s));
      if Decide(s) == Reject {
        QuietPassage(s, 1);
      }
    }
  }

  /** On quiet streams the interrupt machine and the buffered parse complete the same frames. */
  lemma AgreesOnQuietStreams(s: seq<byte>)
    requires Quiet(s)
    ensures Completed(s) == Frames(Items(s))
  {
    hide Quiet, NothingHidden, ParsedAt, ReceivedAt, Items, Frames, Completed;
    QuietHidesNothing(s);
    AgreementIsExact(s, 0);
    PlacesForgotten(s, 0);
  }

  /** A stream without over-long headers is quiet. */
  lemma {:induction false} NoOverlongIsQuiet(s: seq<byte>)
    requires forall i :: 0 <= i < |Items(s)| ==> !Items(s)[i].TooLong?
    ensures Quiet(s)
    decreases |s|
  {
    hide FrameSize;
    if Decide(s) == Stuck {
    } else {
      assert !Items(s)[0].TooLong?;
      assert Items(s)[1..] == Items(Rest(s));
      assert forall i :: 0 <= i < |Items(Rest(s))| ==> Items(Rest(s))[i] == Items(s)[i + 1];
      NoOverlongIsQuiet(Rest(s));
    }
  }

  /** A valid completed frame is queued exactly if fewer than eight wait; a damaged one never is. */
  lemma QueuedIfRoom(queue: seq<seq<byte>>, f: seq<byte>)
    ensures Put(queue, OnlyOk([f])) == if Validate(f) == Ok && |queue| < 8 then queue + [f] else queue
  {
    hide Validate;
    OneOk(f);
    NothingAdded(queue);
  }

  /** What the firmware delivers is what the supervisor's assembler would accept. */
  lemma DeliversTheOkFrames(s: seq<byte>)
    requires forall i :: 0 <= i < |Items(s)| ==> !Items(s)[i].TooLong?
    ensures OnlyOk(Run(s).1) == OnlyOk(Frames(Items(s)))
    ensures forall f :: f in OnlyOk(Run(s).1) ==> Validate(f) == Ok
  {
    hide Items, Run, Completed, Frames, Validate;
    NoOverlongIsQuiet(s);
    AgreesOnQuietStreams(s);
    MachineMeaning(s);
    OkFramesValidate(Run(s).1);
  }

  lemma {:induction false} OkFramesValidate(fs: seq<seq<byte>>)
    ensures forall f :: f in OnlyOk(fs) ==> Validate(f) == Ok
    decreases |fs|
  {
    hide Validate;
    if fs == [] {
    } else {
      OkFramesValidate(fs[..|fs| - 1]);
    }
  }

  /** Without the condition the two disagree: eight bytes that announce an
      over-long frame make the machine swallow the first half of a frame with
      no payload, which the assembler still finds. */
  lemma OverlongHeaderHidesFrame(f: seq<byte>)
    requires IsFrame(f) && |f| == HEADER_SIZE
    ensures Frames(Items([MAGIC_LO, MAGIC_HI, 0, 0, 0, 0, 0xFF, 0xFF] + f)) == [f]
    ensures Completed([MAGIC_LO, MAGIC_HI, 0, 0, 0, 0, 0xFF, 0xFF] + f) == []
  {
    var noise: seq<byte> := [MAGIC_HI, 0, 0, 0, 0, 0xFF, 0xFF];
    var s := [MAGIC_LO] + (noise + f);
    assert s == [MAGIC_LO, MAGIC_HI, 0, 0, 0, 0, 0xFF, 0xFF] + f;
    OverlongRejected(s);
    assert NoMagic(noise);
    NoiseThenFrame(noise, f, []);
    hide Decide, FrameSize, IsFrame, U16, NoMagic;
    assert Rest(s) == noise + (f + []);
    assert Items(s)[1..] == Items(Rest(s));
    assert Frames(Items([])) == [] by { EmptyHasNoFrames(); }
    ShortCompletesNothing(Beyond(s));
  }

  lemma EmptyHasNoFrames()
    ensures Frames(Items([])) == []
  {
  }

  lemma OverlongRejected(s: seq<byte>)
    requires |s| >= HEADER_SIZE && s[0] == MAGIC_LO && s[1] == MAGIC_HI && s[6] == 0xFF && s[7] == 0xFF
    ensures Decide(s) == Reject
  {
    assert U16(s[0], s[1]) == MAGIC && U16(s[6], s[7]) == 0xFFFF;
  }

  lemma {:induction false} ShortCompletesNothing(s: seq<byte>)
    requires |s| < HEADER_SIZE
    ensures Completed(s) == []
    decreases |s|
  {
    if Decide(s) == Stuck {
    } else {
      ShortCompletesNothing(Beyond(s));
    }
  }
}
