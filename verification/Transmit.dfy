/** Sending from several firmware tasks: allocation of a sequence id, a mutex
    around one shared frame buffer, and output byte by byte. Any interleaving of
    the tasks' steps is a run. */
module Transmit {
  import Arithmetic
  import opened Crc
  import opened Wire
  import opened Framing
  import opened Streams

  // ----- Sixteen-bit sequence ids -----

  const ID_BITS: nat := 16

  function Twice(x: bv16): bv16 {
    x << 1
  }

  function WithOne(x: bv16): bv16 {
    x | 1
  }

  function PushBit(x: bv16, b: bool): bv16 {
    if b then WithOne(Twice(x)) else Twice(x)
  }

  /** The low k bits of n. */
  function LowBits(n: nat, k: nat): bv16 {
    if k == 0 then 0 else PushBit(LowBits(n / 2, k - 1), n % 2 == 1)
  }

  /** The id given to the n-th allocation: the counter cut to 16 bits. */
  function SeqIdOf(n: nat): bv16 {
    LowBits(n, ID_BITS)
  }

  /** Every bit of x is one of the mask's. */
  predicate Within(x: bv16, mask: bv16) { x | mask == mask }

  lemma PushInjective(x: bv16, y: bv16, b: bool, c: bool)
    requires Within(x, 0x7FFF) && Within(y, 0x7FFF)
    ensures PushBit(x, b) == PushBit(y, c) <==> x == y && b == c
  {
    hide Twice, WithOne, Within;
    TwiceInjective(x, y);
    OneInjective(x, y);
    LastBitTells(x, y);
    LastBitTells(y, x);
  }

  lemma TwiceInjective(x: bv16, y: bv16)
    requires Within(x, 0x7FFF) && Within(y, 0x7FFF)
    ensures Twice(x) == Twice(y) <==> x == y
  {
  }

  lemma OneInjective(x: bv16, y: bv16)
    ensures WithOne(Twice(x)) == WithOne(Twice(y)) <==> Twice(x) == Twice(y)
  {
  }

  lemma LastBitTells(x: bv16, y: bv16)
    ensures WithOne(Twice(x)) != Twice(y)
  {
  }

  lemma TwiceOr(x: bv16, m: bv16)
    ensures Twice(x | m) == Twice(x) | Twice(m)
  {
  }

  lemma TwiceWithin(x: bv16, m: bv16)
    requires Within(x, m)
    ensures Within(Twice(x), Twice(m))
  {
    hide Twice;
    TwiceOr(x, m);
  }

  lemma WithinOneMore(x: bv16, m: bv16)
    requires Within(x, m)
    ensures Within(x, WithOne(m)) && Within(WithOne(x), WithOne(m))
  {
  }

  lemma PushWithin(x: bv16, m: bv16, b: bool)
    requires Within(x, m)
    ensures Within(PushBit(x, b), PushBit(m, true))
  {
    hide Twice, WithOne, Within;
    TwiceWithin(x, m);
    WithinOneMore(Twice(x), Twice(m));
  }

  function Mask(k: nat): bv16 {
    if k == 0 then 0 else PushBit(Mask(k - 1), true)
  }

  lemma MaskSmall(k: nat)
    requires k <= 15
    ensures Within(Mask(k), 0x7FFF)
  {
    assert Mask(0) == 0 && Mask(1) == 0x1 && Mask(2) == 0x3;
    assert Mask(3) == 0x7 && Mask(4) == 0xF;
    assert Mask(5) == 0x1F && Mask(6) == 0x3F && Mask(7) == 0x7F && Mask(8) == 0xFF;
    assert Mask(9) == 0x1FF && Mask(10) == 0x3FF && Mask(11) == 0x7FF && Mask(12) == 0xFFF;
    assert Mask(13) == 0x1FFF && Mask(14) == 0x3FFF && Mask(15) == 0x7FFF;
  }

  lemma WithinAll(x: bv16, m: bv16)
    requires Within(x, m) && Within(m, 0x7FFF)
    ensures Within(x, 0x7FFF)
  {
  }

  lemma {:induction false} LowBitsBound(n: nat, k: nat)
    requires k <= 15
    ensures Within(LowBits(n, k), Mask(k))
  {
    if k == 0 {
    } else {
      hide PushBit, Within;
      LowBitsBound(n / 2, k - 1);
      MaskSmall(k - 1);
      PushWithin(LowBits(n / 2, k - 1), Mask(k - 1), n % 2 == 1);
    }
  }

  /** Two numbers share their low k bits exactly when they differ by a multiple of 2^k. */
  lemma {:induction false} SameLowBits(n: nat, m: nat, k: nat)
    requires k <= ID_BITS
    ensures LowBits(n, k) == LowBits(m, k) <==> (n - m) % Arithmetic.Pow2(k) == 0
  {
    if k == 0 {
    } else {
      hide PushBit, Within;
      var a, b := n / 2, m / 2;
      SameLowBits(a, b, k - 1);
      LowBitsBound(a, k - 1);
      LowBitsBound(b, k - 1);
      MaskSmall(k - 1);
      WithinAll(LowBits(a, k - 1), Mask(k - 1));
      WithinAll(LowBits(b, k - 1), Mask(k - 1));
      PushInjective(LowBits(a, k - 1), LowBits(b, k - 1), n % 2 == 1, m % 2 == 1);
      HalfDivides(n, m, Arithmetic.Pow2(k - 1));
    }
  }

  lemma HalfDivides(n: nat, m: nat, p: nat)
    requires p > 0
    ensures (n - m) % (2 * p) == 0 <==> n % 2 == m % 2 && (n / 2 - m / 2) % p == 0
  {
    var d := n / 2 - m / 2;
    if n % 2 == m % 2 {
      assert n - m == 2 * d;
      DoubleDivides(d, p);
    } else {
      OddDoesNotDivide(n - m, p);
    }
  }

  lemma DoubleDivides(d: int, p: nat)
    requires p > 0
    ensures (2 * d) % (2 * p) == 0 <==> d % p == 0
  {
    var q, r := d / p, d % p;
    assert d == p * q + r;
    assert 2 * d == (2 * p) * q + 2 * r;
    Arithmetic.QuotientUnique(2 * d, 2 * p, q, 2 * r);
  }

  lemma OddDoesNotDivide(x: int, p: nat)
    requires p > 0 && x % 2 == 1
    ensures x % (2 * p) != 0
  {
    var q, r := x / (2 * p), x % (2 * p);
    assert x == (2 * p) * q + r == 2 * (p * q) + r;
  }

  /** Ids repeat every 65,536 allocations and not before. */
  lemma SeqIdsRepeat(j: nat, k: nat)
    ensures SeqIdOf(j) == SeqIdOf(k) <==> (j - k) % 0x1_0000 == 0
    ensures j < k < j + 0x1_0000 ==> SeqIdOf(j) != SeqIdOf(k)
  {
    SameLowBits(j, k, ID_BITS);
    assert Arithmetic.Pow2(16) == 0x1_0000 by {
      assert Arithmetic.Pow2(4) == 16;
      assert Arithmetic.Pow2(8) == 256 by { assert Arithmetic.Pow2(6) == 64; }
      assert Arithmetic.Pow2(12) == 4096 by { assert Arithmetic.Pow2(10) == 1024; }
      assert Arithmetic.Pow2(14) == 16384;
    }
  }

  // ----- What the ids are -----

  lemma NextTwice(x: bv16)
    ensures NextSeq(Twice(x)) == WithOne(Twice(x))
    ensures NextSeq(WithOne(Twice(x))) == Twice(NextSeq(x))
  {
  }

  function Masked(x: bv16, m: bv16): bv16 {
    x & m
  }

  lemma MaskedTwice(x: bv16, m: bv16)
    ensures Twice(Masked(x, m)) == Masked(Twice(x), WithOne(Twice(m)))
  {
  }

  lemma WithinIsMasked(x: bv16, m: bv16)
    requires Within(x, m)
    ensures Masked(x, m) == x
  {
  }

  /** Counting on carries through the low k bits. */
  lemma {:induction false} LowBitsCount(n: nat, k: nat)
    requires k <= 16
    ensures LowBits(n + 1, k) == Masked(NextSeq(LowBits(n, k)), Mask(k))
  {
    hide Twice, WithOne, Within, NextSeq, Masked;
    if k == 0 {
      NothingMasked(NextSeq(0));
    } else {
      var x, m := LowBits(n / 2, k - 1), Mask(k - 1);
      NextTwice(x);
      if n % 2 == 0 {
        LowBitsBound(n / 2, k - 1);
        PushWithin(x, m, true);
        WithinIsMasked(PushBit(x, true), PushBit(m, true));
      } else {
        LowBitsCount(n / 2, k - 1);
        MaskedTwice(NextSeq(x), m);
      }
    }
  }

  lemma NothingMasked(x: bv16)
    ensures Masked(x, 0) == 0
  {
  }

  lemma FullMask(x: bv16)
    ensures Masked(x, Mask(16)) == x
  {
    MaskSmall(15);
    assert Mask(15) == 0x7FFF by { MaskValue(); }
    assert Mask(16) == 0xFFFF;
  }

  lemma MaskValue()
    ensures Mask(15) == 0x7FFF
  {
    assert Mask(4) == 0xF;
    assert Mask(8) == 0xFF;
    assert Mask(12) == 0xFFF;
  }

  /** The ids count up from 0 and wrap at 16 bits. */
  lemma {:induction false} SeqIdsCount(n: nat)
    ensures SeqIdOf(0) == 0
    ensures SeqIdOf(n + 1) == NextSeq(SeqIdOf(n))
    ensures IdValue(SeqIdOf(n)) == n % 0x1_0000
  {
    hide LowBits, NextSeq, Masked, IdValue;
    assert SeqIdOf(0) == 0 by { ZeroBits(16); }
    LowBitsCount(n, 16);
    FullMask(NextSeq(SeqIdOf(n)));
    if n == 0 {
      ZeroId();
    } else {
      SeqIdsCount(n - 1);
      NextSeqValue(SeqIdOf(n - 1));
      Arithmetic.NextModulo(n - 1, 0x1_0000);
    }
  }

  lemma ZeroId()
    ensures IdValue(0) == 0
  {
  }

  lemma {:induction false} ZeroBits(k: nat)
    ensures LowBits(0, k) == 0
  {
    if k == 0 {
    } else {
      ZeroBits(k - 1);
    }
  }

  // ----- One call, without other tasks -----

  const EINVAL: int := 22
  const ENODEV: int := 19

  class Sender {
    var sequence: nat
    const frameBuf: array<byte>
    var wire: seq<byte>

    constructor ()
      ensures sequence == 0 && wire == [] && fresh(frameBuf) && frameBuf.Length == MAX_FRAME_SIZE
    {
      sequence, wire, frameBuf := 0, [], new byte[MAX_FRAME_SIZE];
    }

    /** Writes the packed frame over the front of the buffer; the rest stays as it was. */
    method PackInto(frame: seq<byte>)
      requires |frame| <= frameBuf.Length
      modifies frameBuf
      ensures frameBuf[..] == frame + old(frameBuf[..])[|frame|..]
    {
      for i := 0 to |frame|
        invariant forall k :: 0 <= k < i ==> frameBuf[k] == frame[k]
        invariant forall k :: i <= k < frameBuf.Length ==> frameBuf[k] == old(frameBuf[k])
      {
        frameBuf[i] := frame[i];
      }
    }

    method PutOut(total: nat)
      requires total <= frameBuf.Length
      modifies this`wire
      ensures wire == old(wire) + frameBuf[..total]
    {
      for i := 0 to total
        invariant wire == old(wire) + frameBuf[..i]
      {
        assert frameBuf[..i + 1] == frameBuf[..i] + [frameBuf[i]];
        wire := wire + [frameBuf[i]];
      }
    }

    /** Either refuses without a trace, or uses up one id and puts out exactly one whole frame. */
    method SendFrame(kind: byte, payload: seq<byte>, payloadLength: bv16, now: bv32, ready: bool) returns (r: int)
      requires frameBuf.Length == MAX_FRAME_SIZE && |payload| == payloadLength as nat
      modifies this, frameBuf
      ensures r == if |payload| > MAX_PAYLOAD then -EINVAL else if !ready then -ENODEV else HEADER_SIZE + |payload|
      ensures r < 0 ==> sequence == old(sequence) && wire == old(wire)
      ensures r >= 0 ==> sequence == old(sequence) + 1
      ensures r >= 0 ==> wire == old(wire) + FrameOf(kind, SeqIdOf(old(sequence)), now, payload, payloadLength)
    {
      if |payload| > MAX_PAYLOAD {
        return -EINVAL;
      }
      if !ready {
        return -ENODEV;
      }
      hide FrameOf, SeqIdOf;
      var id := SeqIdOf(sequence);
      sequence := sequence + 1;
      FrameOfSize(kind, id, now, payload, payloadLength);
      var frame := FrameOf(kind, id, now, payload, payloadLength);
      PackInto(frame);
      assert frameBuf[..|frame|] == frameBuf[..][..|frame|] == frame;
      PutOut(|frame|);
      r := |frame|;
    }
  }

  lemma FrameOfSize(kind: byte, id: bv16, now: bv32, payload: seq<byte>, payloadLength: bv16)
    requires |payload| == payloadLength as nat <= MAX_PAYLOAD
    ensures |FrameOf(kind, id, now, payload, payloadLength)| == HEADER_SIZE + |payload|
  {
  }

  // ----- The tasks -----

  type Task = nat

  /** One call of the send routine: the n-th allocation and the message it became. */
  datatype Job = Job(index: nat, message: Message)

  datatype Phase =
    | Waiting(job: Job)                 // id allocated, header filled in, mutex not yet taken
    | Owning(job: Job)                  // mutex taken, frame not yet packed
    | Emitting(job: Job, out: nat)      // so many bytes of the packed frame are out

  datatype Holder = NoTask | Held(task: Task)

  /** Where the n-th allocation is: with a task, or n-th frame on the wire. */
  datatype Fate = With(task: Task) | OnWire(position: nat)

  datatype Tx = Tx(
    tasks: map<Task, Phase>,     // tasks inside the send routine
    holder: Holder,              // of the mutex
    frameBuf: seq<byte>,
    wire: seq<byte>,
    fates: seq<Fate>,            // one per allocation, so their number is the counter
    sent: seq<Job>)              // in the order of the wire

  datatype Action =
    | Begin(kind: byte, payload: seq<byte>, payloadLength: bv16, now: bv32, ready: bool)
    | Lock
    | Fill
    | Output
    | Unlock

  function Initial(buf: seq<byte>): Tx {
    Tx(map[], NoTask, buf, [], [], [])
  }

  function BeginJob(s: Tx, m: Message): Job {
    Job(|s.fates|, m.(sequenceId := SeqIdOf(|s.fates|)))
  }

  /** One step of one task. A refused call (too long, device not ready) and a step
      that is not enabled change nothing. */
  function Step(s: Tx, t: Task, a: Action): Tx {
    if t !in s.tasks then
      if a.Begin? then
        var m := Message(a.kind, 0, a.now, a.payload, a.payloadLength);
        if m.Sendable() && a.ready
        then s.(tasks := s.tasks[t := Waiting(BeginJob(s, m))], fates := s.fates + [With(t)])
        else s
      else s
    else
      var phase := s.tasks[t];
      if a.Lock? && phase.Waiting? && s.holder.NoTask? then
        s.(holder := Held(t), tasks := s.tasks[t := Owning(phase.job)])
      else if a.Fill? && phase.Owning? && phase.job.message.Sendable() then
        var frame := phase.job.message.Packed();
        if |frame| == 0 then s.(holder := NoTask, tasks := s.tasks - {t})
        else if |frame| > |s.frameBuf| then s
        else s.(frameBuf := frame + s.frameBuf[|frame|..], tasks := s.tasks[t := Emitting(phase.job, 0)])
      else if a.Output? && phase.Emitting? && phase.out < Total(phase.job) && phase.out < |s.frameBuf| then
        s.(wire := s.wire + [s.frameBuf[phase.out]], tasks := s.tasks[t := Emitting(phase.job, phase.out + 1)])
      else if a.Unlock? && phase.Emitting? && phase.out == Total(phase.job) && phase.job.index < |s.fates| then
        s.(holder := NoTask, tasks := s.tasks - {t},
           fates := s.fates[phase.job.index := OnWire(|s.sent|)], sent := s.sent + [phase.job])
      else s
  }

  /** The size returned by packing. */
  function Total(j: Job): nat {
    HEADER_SIZE + j.message.payloadLength as nat
  }

  function Run(s: Tx, steps: seq<(Task, Action)>): Tx
    decreases |steps|
  {
    if steps == [] then s else Run(Step(s, steps[0].0, steps[0].1), steps[1..])
  }

  // ----- The invariant -----

  ghost predicate WellMade(j: Job) {
    j.message.Sendable() && j.message.sequenceId == SeqIdOf(j.index)
  }

  function FramesOf(jobs: seq<Job>): seq<seq<byte>>
    requires forall i :: 0 <= i < |jobs| ==> jobs[i].message.Sendable()
    decreases |jobs|
  {
    if jobs == [] then []
    else FramesOf(jobs[..|jobs| - 1]) + [jobs[|jobs| - 1].message.Packed()]
  }

  /** The bytes of the frame being put out. */
  function Partial(s: Tx): seq<byte> {
    if s.holder.Held? && s.holder.task in s.tasks then
      var phase := s.tasks[s.holder.task];
      if phase.Emitting? && phase.job.message.Sendable() && phase.out <= |phase.job.message.Packed()|
      then phase.job.message.Packed()[..phase.out]
      else []
    else []
  }

  ghost predicate JobsInv(s: Tx) {
    && (forall t :: t in s.tasks ==> WellMade(s.tasks[t].job))
    && (forall i :: 0 <= i < |s.sent| ==> WellMade(s.sent[i]))
  }

  /** Allocations and jobs match one to one. */
  ghost predicate FateInv(s: Tx) {
    && (forall t :: t in s.tasks ==> s.tasks[t].job.index < |s.fates| && s.fates[s.tasks[t].job.index] == With(t))
    && (forall i :: 0 <= i < |s.sent| ==> s.sent[i].index < |s.fates| && s.fates[s.sent[i].index] == OnWire(i))
    && (forall n :: 0 <= n < |s.fates| ==>
          match s.fates[n]
          case With(t) => t in s.tasks && s.tasks[t].job.index == n
          case OnWire(i) => i < |s.sent| && s.sent[i].index == n)
  }

  ghost predicate MutexInv(s: Tx) {
    && (forall t :: t in s.tasks ==> (s.tasks[t].Waiting? <==> s.holder != Held(t)))
    && (s.holder.Held? ==> s.holder.task in s.tasks)
  }

  ghost predicate BufferInv(s: Tx) {
    && |s.frameBuf| == MAX_FRAME_SIZE
    && (s.holder.Held? && s.holder.task in s.tasks ==>
          var phase := s.tasks[s.holder.task];
          phase.Emitting? && phase.job.message.Sendable() ==>
            var frame := phase.job.message.Packed();
            phase.out <= |frame| <= MAX_FRAME_SIZE && s.frameBuf[..|frame|] == frame)
  }

  ghost predicate WireInv(s: Tx)
    requires JobsInv(s)
  {
    s.wire == Flatten(FramesOf(s.sent)) + Partial(s)
  }

  ghost predicate Inv(s: Tx) {
    JobsInv(s) && FateInv(s) && MutexInv(s) && BufferInv(s) && WireInv(s)
  }

  lemma InitialInv(buf: seq<byte>)
    requires |buf| == MAX_FRAME_SIZE
    ensures Inv(Initial(buf))
  {
  }

  lemma PackedSize(m: Message)
    requires m.Sendable()
    ensures |m.Packed()| == HEADER_SIZE + m.payloadLength as nat <= MAX_FRAME_SIZE
  {
  }

  lemma FramesOfSnoc(jobs: seq<Job>, j: Job)
    requires forall i :: 0 <= i < |jobs| ==> jobs[i].message.Sendable()
    requires j.message.Sendable()
    ensures FramesOf(jobs + [j]) == FramesOf(jobs) + [j.message.Packed()]
    ensures Flatten(FramesOf(jobs + [j])) == Flatten(FramesOf(jobs)) + j.message.Packed()
  {
    assert (jobs + [j])[..|jobs|] == jobs;
    FlattenConcat(FramesOf(jobs), [j.message.Packed()]);
    assert Flatten([j.message.Packed()]) == j.message.Packed() by {
      assert [j.message.Packed()][1..] == [];
      assert j.message.Packed() + [] == j.message.Packed();
    }
  }

  // ----- Every step of every task keeps it -----

  lemma BeginJobs(s: Tx, t: Task, m: Message)
    requires JobsInv(s) && FateInv(s) && t !in s.tasks && m.Sendable()
    ensures var s' := s.(tasks := s.tasks[t := Waiting(BeginJob(s, m))], fates := s.fates + [With(t)]);
      JobsInv(s') && FateInv(s')
  {
    hide SeqIdOf;
  }

  /** A task that moves on with its job leaves the matching as it is. */
  lemma SameJobs(s: Tx, s': Tx, t: Task, phase: Phase)
    requires JobsInv(s) && FateInv(s) && t in s.tasks && phase.job == s.tasks[t].job
    requires s'.tasks == s.tasks[t := phase] && s'.fates == s.fates && s'.sent == s.sent
    ensures JobsInv(s') && FateInv(s')
  {
    hide WellMade;
  }

  lemma UnlockJobs(s: Tx, s': Tx, t: Task)
    requires JobsInv(s) && FateInv(s) && t in s.tasks
    requires s'.tasks == s.tasks - {t} && s'.sent == s.sent + [s.tasks[t].job]
    requires s'.fates == s.fates[s.tasks[t].job.index := OnWire(|s.sent|)]
    ensures JobsInv(s') && FateInv(s')
  {
    hide WellMade;
  }

  /** What the mutex holder has put out is all there is beyond whole frames. */
  lemma HolderWire(s: Tx, t: Task)
    requires JobsInv(s) && MutexInv(s) && BufferInv(s) && t in s.tasks && s.tasks[t].Emitting?
    ensures s.holder == Held(t)
    ensures var frame := s.tasks[t].job.message.Packed();
      && |frame| == Total(s.tasks[t].job) <= MAX_FRAME_SIZE && s.tasks[t].out <= |frame|
      && s.frameBuf[..|frame|] == frame && Partial(s) == frame[..s.tasks[t].out]
  {
    PackedSize(s.tasks[t].job.message);
    hide Pack, SeqIdOf;
  }

  lemma BeginKeeps(s: Tx, t: Task, m: Message)
    requires Inv(s) && t !in s.tasks && m.Sendable()
    ensures Inv(s.(tasks := s.tasks[t := Waiting(BeginJob(s, m))], fates := s.fates + [With(t)]))
  {
    hide Pack, SeqIdOf, Flatten, FramesOf, FateInv, BeginJob;
    var s' := s.(tasks := s.tasks[t := Waiting(BeginJob(s, m))], fates := s.fates + [With(t)]);
    BeginJobs(s, t, m);
    assert s.holder != Held(t);
    assert Partial(s') == Partial(s);
  }

  lemma LockKeeps(s: Tx, t: Task)
    requires Inv(s) && t in s.tasks && s.tasks[t].Waiting? && s.holder.NoTask?
    ensures Inv(s.(holder := Held(t), tasks := s.tasks[t := Owning(s.tasks[t].job)]))
  {
    hide Pack, SeqIdOf, Flatten, FramesOf;
  }

  lemma FillStep(s: Tx, t: Task)
    requires JobsInv(s) && BufferInv(s) && t in s.tasks && s.tasks[t].Owning?
    ensures s.tasks[t].job.message.Sendable()
    ensures var frame := s.tasks[t].job.message.Packed();
      && 0 < |frame| <= |s.frameBuf|
      && Step(s, t, Fill) == s.(frameBuf := frame + s.frameBuf[|frame|..],
        tasks := s.tasks[t := Emitting(s.tasks[t].job, 0)])
  {
    assert WellMade(s.tasks[t].job) && |s.frameBuf| == MAX_FRAME_SIZE;
    PackedSize(s.tasks[t].job.message);
    hide Pack, SeqIdOf, BufferInv, JobsInv;
  }

  lemma FillChannel(s: Tx, s': Tx, t: Task, frame: seq<byte>)
    requires MutexInv(s) && BufferInv(s) && JobsInv(s) && WireInv(s) && JobsInv(s')
    requires t in s.tasks && s.tasks[t].Owning? && s.tasks[t].job.message.Sendable()
    requires frame == s.tasks[t].job.message.Packed() && |frame| <= |s.frameBuf|
    requires s' == s.(frameBuf := frame + s.frameBuf[|frame|..], tasks := s.tasks[t := Emitting(s.tasks[t].job, 0)])
    ensures MutexInv(s') && BufferInv(s') && WireInv(s')
  {
    hide Pack, SeqIdOf, Flatten, FramesOf;
    assert s'.frameBuf[..|frame|] == frame;
    assert frame[..0] == [];
    assert Partial(s') == [] == Partial(s);
  }

  lemma FillKeeps(s: Tx, t: Task)
    requires Inv(s) && t in s.tasks && s.tasks[t].Owning?
    ensures Inv(Step(s, t, Fill))
  {
    hide JobsInv, FateInv, MutexInv, BufferInv, WireInv, Step, Pack;
    FillStep(s, t);
    var s' := Step(s, t, Fill);
    SameJobs(s, s', t, Emitting(s.tasks[t].job, 0));
    FillChannel(s, s', t, s.tasks[t].job.message.Packed());
  }

  lemma OutputStep(s: Tx, s': Tx, t: Task)
    requires Inv(s) && t in s.tasks && s.tasks[t].Emitting? && s.tasks[t].out < Total(s.tasks[t].job)
    requires |s.frameBuf| == MAX_FRAME_SIZE && s.tasks[t].out < MAX_FRAME_SIZE
    requires s' == s.(wire := s.wire + [s.frameBuf[s.tasks[t].out]],
                      tasks := s.tasks[t := Emitting(s.tasks[t].job, s.tasks[t].out + 1)])
    ensures JobsInv(s') && FateInv(s') && MutexInv(s') && BufferInv(s')
  {
    HolderWire(s, t);
    hide Pack, SeqIdOf, Flatten, FramesOf, FateInv, WireInv, Partial;
    SameJobs(s, s', t, Emitting(s.tasks[t].job, s.tasks[t].out + 1));
  }

  lemma OutputKeeps(s: Tx, t: Task)
    requires Inv(s) && t in s.tasks && s.tasks[t].Emitting? && s.tasks[t].out < Total(s.tasks[t].job)
    ensures Inv(Step(s, t, Output))
  {
    var job, out, s' := s.tasks[t].job, s.tasks[t].out, Step(s, t, Output);
    HolderWire(s, t);
    OutputStep(s, s', t);
    HolderWire(s', t);
    hide Pack, SeqIdOf, Flatten, FramesOf, FateInv, MutexInv, Partial;
    var frame := job.message.Packed();
    assert s.frameBuf[out] == frame[out] by {
      assert s.frameBuf[..|frame|][out] == frame[out];
    }
    OneByteMore(Flatten(FramesOf(s.sent)), frame, out);
  }

  lemma OneByteMore(front: seq<byte>, frame: seq<byte>, out: nat)
    requires out < |frame|
    ensures front + frame[..out] + [frame[out]] == front + frame[..out + 1]
  {
  }

  lemma UnlockedWire(s: Tx, s': Tx, t: Task)
    requires Inv(s) && t in s.tasks && s.tasks[t].Emitting? && s.tasks[t].out == Total(s.tasks[t].job)
    requires s'.wire == s.wire && s'.sent == s.sent + [s.tasks[t].job] && s'.holder.NoTask? && JobsInv(s')
    ensures WireInv(s')
  {
    HolderWire(s, t);
    FramesOfSnoc(s.sent, s.tasks[t].job);
    assert Partial(s') == [];
    hide Pack, Flatten, FramesOf, FateInv, Partial, MutexInv, JobsInv, SeqIdOf;
    var frame := s.tasks[t].job.message.Packed();
    assert frame[..|frame|] == frame;
    assert s'.wire + [] == s'.wire;
  }

  lemma UnlockStep(s: Tx, t: Task)
    requires FateInv(s) && t in s.tasks && s.tasks[t].Emitting? && s.tasks[t].out == Total(s.tasks[t].job)
    ensures var job := s.tasks[t].job;
      Step(s, t, Unlock) == s.(holder := NoTask, tasks := s.tasks - {t},
                               fates := s.fates[job.index := OnWire(|s.sent|)], sent := s.sent + [job])
  {
    assert s.tasks[t].job.index < |s.fates|;
    hide FateInv, Pack, Total;
  }

  lemma UnlockMutex(s: Tx, s': Tx, t: Task)
    requires MutexInv(s) && BufferInv(s) && t in s.tasks && s.tasks[t].Emitting?
    requires s'.tasks == s.tasks - {t} && s'.holder.NoTask? && s'.frameBuf == s.frameBuf
    ensures MutexInv(s') && BufferInv(s')
  {
    hide Pack;
  }

  lemma UnlockKeeps(s: Tx, t: Task)
    requires Inv(s) && t in s.tasks && s.tasks[t].Emitting? && s.tasks[t].out == Total(s.tasks[t].job)
    ensures Inv(Step(s, t, Unlock))
  {
    var s' := Step(s, t, Unlock);
    UnlockStep(s, t);
    hide JobsInv, FateInv, MutexInv, BufferInv, WireInv, Step;
    UnlockJobs(s, s', t);
    UnlockedWire(s, s', t);
    UnlockMutex(s, s', t);
  }

  lemma StepKeeps(s: Tx, t: Task, a: Action)
    requires Inv(s)
    ensures Inv(Step(s, t, a))
  {
    hide Inv, Pack, SeqIdOf;
    if t !in s.tasks {
      if a.Begin? {
        var m := Message(a.kind, 0, a.now, a.payload, a.payloadLength);
        if m.Sendable() { BeginKeeps(s, t, m); }
      }
    } else if a.Lock? && s.tasks[t].Waiting? && s.holder.NoTask? {
      LockKeeps(s, t);
    } else if a.Fill? && s.tasks[t].Owning? {
      FillKeeps(s, t);
    } else if a.Output? && s.tasks[t].Emitting? && s.tasks[t].out < Total(s.tasks[t].job) {
      OutputKeeps(s, t);
    } else if a.Unlock? && s.tasks[t].Emitting? && s.tasks[t].out == Total(s.tasks[t].job) {
      UnlockKeeps(s, t);
    }
  }

  lemma {:induction false} RunKeeps(s: Tx, steps: seq<(Task, Action)>)
    requires Inv(s)
    ensures Inv(Run(s, steps))
    decreases |steps|
  {
    hide Inv, Step;
    if steps == [] {
    } else {
      StepKeeps(s, steps[0].0, steps[0].1);
      RunKeeps(Step(s, steps[0].0, steps[0].1), steps[1..]);
    }
  }

  // ----- What this means for every run -----

  lemma {:induction false} FramesOfAreFrames(jobs: seq<Job>)
    requires forall i :: 0 <= i < |jobs| ==> jobs[i].message.Sendable()
    ensures |FramesOf(jobs)| == |jobs| && AllFrames(FramesOf(jobs))
    ensures forall i :: 0 <= i < |jobs| ==>
      FramesOf(jobs)[i] == jobs[i].message.Packed() && Validate(FramesOf(jobs)[i]) == Ok
    decreases |jobs|
  {
    hide Pack, Validate, IsFrame;
    if jobs == [] {
    } else {
      FramesOfAreFrames(jobs[..|jobs| - 1]);
      jobs[|jobs| - 1].message.PackedIsFrame();
    }
  }

  /** Less than a whole frame is never taken for one. */
  lemma PrefixIsStuck(f: seq<byte>, n: nat)
    requires IsFrame(f) && n < |f|
    ensures Decide(f[..n]) == Stuck
  {
  }

  /** Frames and then a part of one parse to those frames, with the part left over. */
  lemma FramesThenPart(fs: seq<seq<byte>>, f: seq<byte>, n: nat)
    requires AllFrames(fs) && IsFrame(f) && n < |f|
    ensures Frames(Items(Flatten(fs) + f[..n])) == fs
    ensures Residual(Flatten(fs) + f[..n]) == f[..n]
  {
    PrefixIsStuck(f, n);
    BackToBack(fs);
    ParseInTwoParts(Flatten(fs), f[..n]);
    assert [] + f[..n] == f[..n];
    assert Items(Flatten(fs)) + [] == Items(Flatten(fs));
  }

  /** The frame the mutex holder is putting out, if it has begun. */
  function InProgress(s: Tx): (f: seq<byte>) {
    if s.holder.Held? && s.holder.task in s.tasks && s.tasks[s.holder.task].job.message.Sendable()
    then s.tasks[s.holder.task].job.message.Packed()
    else []
  }

  /** That frame once all its bytes are out, before the mutex is released. */
  function Finished(s: Tx): seq<seq<byte>> {
    if Partial(s) != [] && Partial(s) == InProgress(s) then [Partial(s)] else []
  }

  /** Atomicity: however the tasks interleave, the wire holds whole valid frames one
      after another and then a prefix of the mutex holder's frame. The receiving side
      finds exactly those frames, each valid, and keeps exactly that prefix. */
  lemma WireAtomicity(buf: seq<byte>, steps: seq<(Task, Action)>)
    requires |buf| == MAX_FRAME_SIZE
    ensures var s := Run(Initial(buf), steps);
      && (forall i :: 0 <= i < |s.sent| ==> s.sent[i].message.Sendable())
      && s.wire == Flatten(FramesOf(s.sent)) + Partial(s)
      && Partial(s) <= InProgress(s)
      && (forall f :: f in FramesOf(s.sent) ==> Validate(f) == Ok)
      && Frames(Items(s.wire)) == FramesOf(s.sent) + Finished(s)
      && Residual(s.wire) == if Finished(s) == [] then Partial(s) else []
  {
    hide Run, Partial, InProgress, Pack, Validate, Items, Residual, Frames, IsFrame, FateInv, MutexInv, BufferInv,
      Initial;
    InitialInv(buf);
    RunKeeps(Initial(buf), steps);
    var s := Run(Initial(buf), steps);
    FramesOfAreFrames(s.sent);
    PartialIsPrefix(s);
    FramesThenPrefix(FramesOf(s.sent), InProgress(s), Partial(s));
  }

  lemma FramesThenPrefix(fs: seq<seq<byte>>, f: seq<byte>, p: seq<byte>)
    requires AllFrames(fs) && p <= f && (f != [] ==> IsFrame(f))
    ensures var finished := if p != [] && p == f then [p] else [];
      && Frames(Items(Flatten(fs) + p)) == fs + finished
      && Residual(Flatten(fs) + p) == if finished == [] then p else []
  {
    hide Items, Residual, Frames, IsFrame;
    assert fs + [] == fs;
    if p == [] {
      BackToBack(fs);
      assert Flatten(fs) + [] == Flatten(fs);
    } else if p == f {
      BackToBack(fs + [f]);
      FlattenConcat(fs, [f]);
      FlattenOne(f);
    } else {
      assert f[..|p|] == p;
      FramesThenPart(fs, f, |p|);
    }
  }

  lemma FlattenOne<T>(f: seq<T>)
    ensures Flatten([f]) == f
  {
    assert [f][1..] == [] && f + [] == f;
  }

  lemma PartialIsPrefix(s: Tx)
    requires Inv(s)
    ensures Partial(s) <= InProgress(s)
    ensures InProgress(s) != [] ==> IsFrame(InProgress(s))
  {
    hide Pack, Validate, IsFrame, Flatten, FramesOf, FateInv, WireInv;
    if InProgress(s) != [] {
      s.tasks[s.holder.task].job.message.PackedIsFrame();
    }
  }

  /** Conservation: every allocated id is with exactly one task or in exactly one frame
      on the wire; frames allocated fewer than 65,536 apart carry different ids. */
  lemma IdsAreConserved(buf: seq<byte>, steps: seq<(Task, Action)>)
    requires |buf| == MAX_FRAME_SIZE
    ensures var s := Run(Initial(buf), steps);
      && FateInv(s)
      && (forall i :: 0 <= i < |s.sent| ==> s.sent[i].message.sequenceId == SeqIdOf(s.sent[i].index))
      && (forall i, j :: 0 <= i < |s.sent| && 0 <= j < |s.sent| && i != j ==> s.sent[i].index != s.sent[j].index)
      && (forall i, j ::
            0 <= i < |s.sent| && 0 <= j < |s.sent| && s.sent[i].index < s.sent[j].index < s.sent[i].index + 0x1_0000
            ==> s.sent[i].message.sequenceId != s.sent[j].message.sequenceId)
  {
    InitialInv(buf);
    RunKeeps(Initial(buf), steps);
    var s := Run(Initial(buf), steps);
    hide Run, Step, SeqIdOf;
    forall i, j |
      0 <= i < |s.sent| && 0 <= j < |s.sent| && s.sent[i].index < s.sent[j].index < s.sent[i].index + 0x1_0000
      ensures s.sent[i].message.sequenceId != s.sent[j].message.sequenceId
    {
      assert WellMade(s.sent[i]) && WellMade(s.sent[j]);
      SeqIdsRepeat(s.sent[i].index, s.sent[j].index);
    }
  }

  // ----- A task that has the mutex can finish -----

  function Outputs(t: Task, n: nat): seq<(Task, Action)> {
    if n == 0 then [] else [(t, Output)] + Outputs(t, n - 1)
  }

  lemma OneOutput(s: Tx, t: Task)
    requires Inv(s) && t in s.tasks && s.tasks[t].Emitting? && s.tasks[t].out < Total(s.tasks[t].job)
    ensures var s1 := Step(s, t, Output);
      && Inv(s1)
      && t in s1.tasks && s1.tasks[t] == Emitting(s.tasks[t].job, s.tasks[t].out + 1)
      && s1.sent == s.sent && s1.fates == s.fates && s1.holder == s.holder
  {
    StepKeeps(s, t, Output);
    HolderWire(s, t);
    hide Inv, Pack, SeqIdOf, WireInv, FateInv;
  }

  lemma {:induction false} OutputsRun(s: Tx, t: Task, n: nat)
    requires Inv(s) && t in s.tasks && s.tasks[t].Emitting? && s.tasks[t].out + n == Total(s.tasks[t].job)
    ensures var s' := Run(s, Outputs(t, n));
      && Inv(s')
      && t in s'.tasks && s'.tasks[t] == Emitting(s.tasks[t].job, Total(s.tasks[t].job))
      && s'.sent == s.sent && s'.fates == s.fates && s'.holder == s.holder
    decreases n
  {
    hide Inv, Step, Total;
    if n == 0 {
    } else {
      OneOutput(s, t);
      OutputsRun(Step(s, t, Output), t, n - 1);
      assert Outputs(t, n)[1..] == Outputs(t, n - 1);
    }
  }

  lemma {:induction false} RunConcat(s: Tx, a: seq<(Task, Action)>, b: seq<(Task, Action)>)
    ensures Run(s, a + b) == Run(Run(s, a), b)
    decreases |a|
  {
    hide Step;
    if a == [] {
      assert a + b == b;
    } else {
      assert (a + b)[1..] == a[1..] + b;
      RunConcat(Step(s, a[0].0, a[0].1), a[1..], b);
    }
  }

  function SendSteps(t: Task, size: nat): seq<(Task, Action)> {
    [(t, Lock)] + ([(t, Fill)] + (Outputs(t, size) + [(t, Unlock)]))
  }

  lemma OneLock(s: Tx, t: Task)
    requires Inv(s) && t in s.tasks && s.tasks[t].Waiting? && s.holder.NoTask?
    ensures var s1 := Step(s, t, Lock);
      && Inv(s1) && t in s1.tasks && s1.tasks[t] == Owning(s.tasks[t].job)
      && s1.sent == s.sent && s1.fates == s.fates
  {
    hide Inv, Pack, SeqIdOf;
    StepKeeps(s, t, Lock);
  }

  lemma OneFill(s: Tx, t: Task)
    requires Inv(s) && t in s.tasks && s.tasks[t].Owning?
    ensures var s1 := Step(s, t, Fill);
      && Inv(s1) && t in s1.tasks && s1.tasks[t] == Emitting(s.tasks[t].job, 0)
      && s1.sent == s.sent && s1.fates == s.fates
  {
    hide Inv, Pack, SeqIdOf;
    Fillable(s, t);
    PackedSize(s.tasks[t].job.message);
    StepKeeps(s, t, Fill);
  }

  lemma Fillable(s: Tx, t: Task)
    requires Inv(s) && t in s.tasks
    ensures s.tasks[t].job.message.Sendable() && |s.frameBuf| == MAX_FRAME_SIZE
  {
    hide FateInv, MutexInv, SeqIdOf, Pack, FramesOf, Flatten;
    assert WellMade(s.tasks[t].job);
  }

  lemma JobAllocated(s: Tx, t: Task)
    requires Inv(s) && t in s.tasks
    ensures s.tasks[t].job.index < |s.fates|
  {
    hide JobsInv, MutexInv, BufferInv, WireInv;
  }

  lemma UnlockSends(s: Tx, t: Task)
    requires Inv(s) && t in s.tasks && s.tasks[t] == Emitting(s.tasks[t].job, Total(s.tasks[t].job))
    ensures var j, s' := s.tasks[t].job, Step(s, t, Unlock);
      && Inv(s') && s'.holder.NoTask?
      && s'.sent == s.sent + [j] && j.index < |s.fates| && s'.fates == s.fates[j.index := OnWire(|s.sent|)]
  {
    hide Inv, Pack, SeqIdOf;
    StepKeeps(s, t, Unlock);
    JobAllocated(s, t);
  }

  lemma SendRuns(s: Tx, t: Task, size: nat)
    ensures Run(s, SendSteps(t, size))
         == Step(Run(Step(Step(s, t, Lock), t, Fill), Outputs(t, size)), t, Unlock)
  {
    hide Step, Outputs;
    var rest := Outputs(t, size) + [(t, Unlock)];
    assert SendSteps(t, size)[1..] == [(t, Fill)] + rest;
    assert ([(t, Fill)] + rest)[1..] == rest;
    RunConcat(Step(Step(s, t, Lock), t, Fill), Outputs(t, size), [(t, Unlock)]);
    assert [(t, Unlock)][1..] == [];
  }

  /** From a free mutex a waiting task can take its turn and put its frame on the wire. */
  lemma WaitingTaskCanSend(s: Tx, t: Task)
    requires Inv(s) && t in s.tasks && s.tasks[t].Waiting? && s.holder.NoTask?
    ensures var j := s.tasks[t].job;
      var s' := Run(s, SendSteps(t, Total(j)));
      && Inv(s') && s'.holder.NoTask?
      && s'.sent == s.sent + [j] && j.index < |s.fates| && s'.fates == s.fates[j.index := OnWire(|s.sent|)]
  {
    var j := s.tasks[t].job;
    hide Inv, Step, Total, Run, Outputs, SendSteps;
    SendRuns(s, t, Total(j));
    OneLock(s, t);
    var s1 := Step(s, t, Lock);
    OneFill(s1, t);
    var s2 := Step(s1, t, Fill);
    OutputsRun(s2, t, Total(j));
    var s3 := Run(s2, Outputs(t, Total(j)));
    UnlockSends(s3, t);
  }

  function BeginOf(m: Message): Action {
    Begin(m.kind, m.payload, m.payloadLength, m.timestampMs, true)
  }

  lemma OneBegin(s: Tx, t: Task, m: Message)
    requires Inv(s) && t !in s.tasks && m.Sendable()
    ensures var s1 := Step(s, t, BeginOf(m));
      && Inv(s1) && t in s1.tasks && s1.tasks[t].Waiting? && s1.tasks[t].job.index == |s.fates|
      && s1.tasks.Keys == s.tasks.Keys + {t}
      && s1.fates == s.fates + [With(t)] && s1.sent == s.sent && s1.holder == s.holder
  {
    hide Inv, Pack, SeqIdOf;
    StepKeeps(s, t, BeginOf(m));
  }

  lemma TwoThen(s: Tx, t: Task, a: Action, u: Task, b: Action, last: seq<(Task, Action)>)
    ensures Run(s, [(t, a)] + ([(u, b)] + last)) == Run(Step(Step(s, t, a), u, b), last)
  {
    hide Step;
    var steps := [(t, a)] + ([(u, b)] + last);
    assert steps[1..] == [(u, b)] + last;
    assert steps[1..][1..] == last;
  }

  /** The wire may carry frames in another order than their ids were allocated: some run
      has put the second allocation on the wire while the first still waits. */
  lemma WireOrderMayDiffer(buf: seq<byte>, m: Message) returns (steps: seq<(Task, Action)>)
    requires |buf| == MAX_FRAME_SIZE && m.Sendable()
    ensures var s := Run(Initial(buf), steps);
      |s.sent| == 1 && s.sent[0].index == 1 && |s.fates| == 2 && s.fates[0].With?
  {
    hide Step, Inv, Total, SendSteps, BeginOf, Run, SeqIdOf;
    var s0 := Initial(buf);
    InitialInv(buf);
    OneBegin(s0, 0, m);
    var s1 := Step(s0, 0, BeginOf(m));
    OneBegin(s1, 1, m);
    var s2 := Step(s1, 1, BeginOf(m));
    var last := SendSteps(1, Total(s2.tasks[1].job));
    WaitingTaskCanSend(s2, 1);
    TwoThen(s0, 0, BeginOf(m), 1, BeginOf(m), last);
    steps := [(0, BeginOf(m))] + ([(1, BeginOf(m))] + last);
  }

  // ----- What the frames on the wire carry -----

  predicate AllSendable(jobs: seq<Job>) {
    forall i :: 0 <= i < |jobs| ==> jobs[i].message.Sendable()
  }

  lemma {:induction false} FrameOfJob(jobs: seq<Job>, i: nat)
    requires AllSendable(jobs) && i < |jobs|
    ensures |FramesOf(jobs)| == |jobs| && FramesOf(jobs)[i] == jobs[i].message.Packed()
    decreases |jobs|
  {
    hide Pack;
    if |jobs| == 1 {
    } else {
      FrameOfJob(jobs[..|jobs| - 1], if i < |jobs| - 1 then i else 0);
    }
  }

  /** A call of the send routine that is not refused. */
  datatype Call = Call(kind: byte, payload: seq<byte>, payloadLength: bv16, now: bv32)

  /** The call that a step begins. */
  function Begins(s: Tx, t: Task, a: Action): seq<Call> {
    if a.Begin? && t !in s.tasks && |a.payload| == a.payloadLength as nat <= 256 && a.ready
    then [Call(a.kind, a.payload, a.payloadLength, a.now)]
    else []
  }

  /** The calls a run begins, in the order in which they draw their ids. */
  function Calls(s: Tx, steps: seq<(Task, Action)>): seq<Call>
    decreases |steps|
  {
    if steps == [] then []
    else Begins(s, steps[0].0, steps[0].1) + Calls(Step(s, steps[0].0, steps[0].1), steps[1..])
  }

  predicate FromCall(j: Job, calls: seq<Call>) {
    && j.index < |calls|
    && var c := calls[j.index];
       j.message == Message(c.kind, SeqIdOf(j.index), c.now, c.payload, c.payloadLength)
  }

  /** Every job is that of the call with its number. */
  ghost predicate CallsInv(s: Tx, calls: seq<Call>) {
    && |s.fates| == |calls|
    && (forall t :: t in s.tasks ==> FromCall(s.tasks[t].job, calls))
    && (forall i :: 0 <= i < |s.sent| ==> FromCall(s.sent[i], calls))
  }

  lemma MoreCalls(j: Job, calls: seq<Call>, more: seq<Call>)
    requires FromCall(j, calls)
    ensures FromCall(j, calls + more)
  {
  }

  lemma StepCalls(s: Tx, t: Task, a: Action, calls: seq<Call>)
    requires CallsInv(s, calls)
    ensures CallsInv(Step(s, t, a), calls + Begins(s, t, a))
  {
    hide SeqIdOf, FromCall, Pack;
    var s', more := Step(s, t, a), Begins(s, t, a);
    if more != [] {
      var j := s'.tasks[t].job;
      assert FromCall(j, calls + more) by { NewCall(s, a, calls); }
    }
    forall u | u in s'.tasks
      ensures FromCall(s'.tasks[u].job, calls + more)
    {
      if u in s.tasks {
        assert s'.tasks[u].job == s.tasks[u].job;
        MoreCalls(s.tasks[u].job, calls, more);
      }
    }
    forall i | 0 <= i < |s'.sent|
      ensures FromCall(s'.sent[i], calls + more)
    {
      MoreCalls(s'.sent[i], calls, more);
    }
  }

  lemma NewCall(s: Tx, a: Action, calls: seq<Call>)
    requires a.Begin? && |s.fates| == |calls|
    ensures var m := Message(a.kind, 0, a.now, a.payload, a.payloadLength);
      FromCall(BeginJob(s, m), calls + [Call(a.kind, a.payload, a.payloadLength, a.now)])
  {
    hide SeqIdOf;
  }

  lemma {:induction false} RunCalls(s: Tx, steps: seq<(Task, Action)>, calls: seq<Call>)
    requires CallsInv(s, calls)
    ensures CallsInv(Run(s, steps), calls + Calls(s, steps))
    decreases |steps|
  {
    hide CallsInv, Step, Begins;
    if steps == [] {
      assert calls + [] == calls;
    } else {
      var s1, more := Step(s, steps[0].0, steps[0].1), Begins(s, steps[0].0, steps[0].1);
      StepCalls(s, steps[0].0, steps[0].1, calls);
      RunCalls(s1, steps[1..], calls + more);
      assert (calls + more) + Calls(s1, steps[1..]) == calls + (more + Calls(s1, steps[1..]));
    }
  }

  /** The frame carries the type, time and payload of the call and, as its id, the number of the call
      modulo 65,536. */
  predicate Carries(f: seq<byte>, c: Call, n: nat) {
    && IsFrame(f) && Validate(f) == Ok
    && var h := ParseHeader(f);
       && h.kind == c.kind && h.timestampMs == c.now && h.payloadLength == c.payloadLength
       && h.sequenceId as nat == n % 0x1_0000
       && f[16..] == c.payload
  }

  lemma JobCarries(j: Job, calls: seq<Call>)
    requires FromCall(j, calls) && j.message.Sendable()
    ensures Carries(j.message.Packed(), calls[j.index], j.index)
  {
    hide Validate, Pack, Checksum, ParseHeader, IsFrame, SeqIdOf;
    var m := j.message;
    PackValidates(m.Header(), m.payload, []);
    assert m.Packed() + [] == m.Packed();
    IdIsCount(j.index);
  }

  lemma IdIsCount(n: nat)
    ensures SeqIdOf(n) as nat == n % 0x1_0000
  {
    hide SeqIdOf;
    SeqIdsCount(n);
  }

  /** In any interleaving every frame on the wire carries what its call passed, with the number of
      the call as its id; and no call is on the wire twice. */
  lemma WireCarriesCalls(buf: seq<byte>, steps: seq<(Task, Action)>)
    requires |buf| == MAX_FRAME_SIZE
    ensures var s, calls := Run(Initial(buf), steps), Calls(Initial(buf), steps);
      && AllSendable(s.sent) && |FramesOf(s.sent)| == |s.sent|
      && (forall i :: 0 <= i < |s.sent| ==>
            && s.sent[i].index < |calls|
            && Carries(FramesOf(s.sent)[i], calls[s.sent[i].index], s.sent[i].index))
      && (forall i, j :: 0 <= i < |s.sent| && 0 <= j < |s.sent| && i != j ==> s.sent[i].index != s.sent[j].index)
  {
    hide Run, Initial, Calls, Carries, FramesOf, Pack, SeqIdOf, FateInv, Partial, InProgress, Finished, Items, Frames;
    hide Residual, Flatten, Validate;
    var s, calls := Run(Initial(buf), steps), Calls(Initial(buf), steps);
    WireAtomicity(buf, steps);
    IdsAreConserved(buf, steps);
    NoCalls(buf);
    RunCalls(Initial(buf), steps, []);
    assert [] + calls == calls;
    NoFrames();
    if s.sent != [] {
      FrameOfJob(s.sent, 0);
    }
    forall i | 0 <= i < |s.sent|
      ensures s.sent[i].index < |calls|
      ensures |FramesOf(s.sent)| == |s.sent| && Carries(FramesOf(s.sent)[i], calls[s.sent[i].index], s.sent[i].index)
    {
      FrameOfJob(s.sent, i);
      JobCarries(s.sent[i], calls);
    }
  }

  lemma NoCalls(buf: seq<byte>)
    ensures CallsInv(Initial(buf), [])
  {
  }

  lemma NoFrames()
    ensures FramesOf([]) == []
  {
  }
}
