/** The bridge with both its directions: two framers, one fault injector and
    one count of frames. Reads of the two sides come in any order. */
module PtyBridges {
  import opened Arithmetic
  import opened Sequences
  import opened Crc
  import opened Wire
  import opened Framing
  import opened Framers
  import opened Streams
  import opened Bridge
  import opened Injection

  datatype Direction = LeftToRight | RightToLeft

  function Opposite(d: Direction): Direction {
    if d == LeftToRight then RightToLeft else LeftToRight
  }

  /** One read of the forwarding loop. */
  datatype Read = Read(dir: Direction, data: seq<byte>)

  /** A piece on its way; the k-th one handled has number k. */
  datatype Handled = Handled(dir: Direction, piece: seq<byte>)

  function Tagged(dir: Direction, pieces: seq<seq<byte>>): (r: seq<Handled>)
    ensures |r| == |pieces| && forall i :: 0 <= i < |pieces| ==> r[i] == Handled(dir, pieces[i])
  {
    seq(|pieces|, i requires 0 <= i < |pieces| => Handled(dir, pieces[i]))
  }

  /** What the two framers hold, and all pieces handled so far. */
  datatype Pipes = Pipes(l2r: seq<byte>, r2l: seq<byte>, handled: seq<Handled>) {
    function Held(dir: Direction): seq<byte> {
      if dir == LeftToRight then l2r else r2l
    }

    function Forward(read: Read): Pipes {
      var s := Held(read.dir) + read.data;
      var all := handled + Tagged(read.dir, Pieces(s));
      if read.dir == LeftToRight then Pipes(Residual(s), r2l, all) else Pipes(l2r, Residual(s), all)
    }
  }

  /** The bridge after a series of reads. */
  function Forwarding(inputs: seq<Read>): Pipes
    decreases |inputs|
  {
    if inputs == [] then Pipes([], [], [])
    else Forwarding(inputs[..|inputs| - 1]).Forward(inputs[|inputs| - 1])
  }

  /** One direction's part of the pieces, with their numbers in the common count. */
  function Along(dir: Direction, handled: seq<Handled>): seq<Numbered>
    decreases |handled|
  {
    if handled == [] then []
    else
      var n := |handled|;
      Along(dir, handled[..n - 1])
      + if handled[n - 1].dir == dir then [Numbered(n, handled[n - 1].piece)] else []
  }

  /** What has gone out in one direction. */
  function Output(cfg: Config, dir: Direction, handled: seq<Handled>): seq<seq<byte>> {
    Injected(cfg, Along(dir, handled))
  }

  /** The reads of one direction. */
  function Chunks(dir: Direction, inputs: seq<Read>): seq<seq<byte>>
    decreases |inputs|
  {
    if inputs == [] then []
    else
      Chunks(dir, inputs[..|inputs| - 1])
      + if inputs[|inputs| - 1].dir == dir then [inputs[|inputs| - 1].data] else []
  }

  // ----- The bridge in place -----

  lemma AlongSnoc(dir: Direction, handled: seq<Handled>, h: Handled)
    ensures Along(dir, handled + [h]) ==
            Along(dir, handled) + if h.dir == dir then [Numbered(|handled| + 1, h.piece)] else []
  {
    assert (handled + [h])[..|handled|] == handled;
  }

  lemma InjectedSnoc(cfg: Config, ps: seq<Numbered>, p: Numbered)
    ensures Injected(cfg, ps + [p]) == Injected(cfg, ps) + Sent(cfg, p)
  {
    hide Sent;
    assert (ps + [p])[..|ps|] == ps;
  }

  lemma OutputSnoc(cfg: Config, dir: Direction, handled: seq<Handled>, h: Handled)
    ensures Output(cfg, dir, handled + [h]) ==
            Output(cfg, dir, handled) + if h.dir == dir then Sent(cfg, Numbered(|handled| + 1, h.piece)) else []
  {
    hide Injected, Along, Sent;
    AlongSnoc(dir, handled, h);
    if h.dir == dir {
      InjectedSnoc(cfg, Along(dir, handled), Numbered(|handled| + 1, h.piece));
    } else {
      NothingAdded(Along(dir, handled));
      NothingAdded(Output(cfg, dir, handled));
    }
  }

  lemma ForwardingSnoc(inputs: seq<Read>, read: Read)
    ensures Forwarding(inputs + [read]) == Forwarding(inputs).Forward(read)
  {
    assert (inputs + [read])[..|inputs|] == inputs;
  }

  lemma TaggedPrefix(before: seq<Handled>, dir: Direction, pieces: seq<seq<byte>>, i: nat)
    requires i < |pieces|
    ensures before + Tagged(dir, pieces[..i + 1]) == (before + Tagged(dir, pieces[..i])) + [Handled(dir, pieces[i])]
  {
  }

  /** The framers, the injector and the bytes sent, as `forward` works on them. */
  class PtyBridge {
    const l2r: ByteFramer
    const r2l: ByteFramer
    const injector: FaultInjector
    var toRight: seq<seq<byte>>
    var toLeft: seq<seq<byte>>
    /** All reads so far. */
    ghost var inputs: seq<Read>

    ghost predicate Valid()
      reads this, l2r, r2l, injector
    {
      var pipes := Forwarding(inputs);
      && l2r != r2l
      && l2r.buf == pipes.l2r && r2l.buf == pipes.r2l
      && injector.frameCounter == |pipes.handled|
      && toRight == Output(injector.cfg, LeftToRight, pipes.handled)
      && toLeft == Output(injector.cfg, RightToLeft, pipes.handled)
    }

    constructor (cfg: Config)
      ensures Valid() && inputs == [] && injector.cfg == cfg
      ensures fresh(l2r) && fresh(r2l) && fresh(injector)
    {
      l2r := new ByteFramer();
      r2l := new ByteFramer();
      injector := new FaultInjector(cfg);
      toRight, toLeft, inputs := [], [], [];
    }

    /** Passes the pieces of one read through the injector and on. */
    method SendOn(dir: Direction, frames: seq<seq<byte>>, ghost before: seq<Handled>)
      requires injector.frameCounter == |before|
      requires toRight == Output(injector.cfg, LeftToRight, before)
      requires toLeft == Output(injector.cfg, RightToLeft, before)
      modifies this`toRight, this`toLeft, injector
      ensures injector.frameCounter == |before + Tagged(dir, frames)|
      ensures toRight == Output(injector.cfg, LeftToRight, before + Tagged(dir, frames))
      ensures toLeft == Output(injector.cfg, RightToLeft, before + Tagged(dir, frames))
    {
      hide Output, Forwarded, Drops;
      assert before + Tagged(dir, frames[..0]) == before;
      for i := 0 to |frames|
        invariant injector.frameCounter == |before + Tagged(dir, frames[..i])|
        invariant toRight == Output(injector.cfg, LeftToRight, before + Tagged(dir, frames[..i]))
        invariant toLeft == Output(injector.cfg, RightToLeft, before + Tagged(dir, frames[..i]))
      {
        ghost var done, h := before + Tagged(dir, frames[..i]), Handled(dir, frames[i]);
        TaggedPrefix(before, dir, frames, i);
        OutputSnoc(injector.cfg, LeftToRight, done, h);
        OutputSnoc(injector.cfg, RightToLeft, done, h);
        var frame := new byte[|frames[i]|](j requires 0 <= j < |frames[i]| => frames[i][j]);
        assert frame[..] == frames[i];
        var forward, delay := injector.Process(frame);
        if forward {
          if dir == LeftToRight {
            toRight := toRight + [frame[..]];
          } else {
            toLeft := toLeft + [frame[..]];
          }
        }
      }
      assert frames[..|frames|] == frames;
    }

    /** One read on one side and what is sent on because of it. */
    method Forward(dir: Direction, data: seq<byte>)
      requires Valid()
      modifies this, l2r, r2l, injector
      ensures Valid() && inputs == old(inputs) + [Read(dir, data)]
    {
      hide Forwarding, Output, Pieces, Residual;
      ForwardingSnoc(inputs, Read(dir, data));
      ghost var before := Forwarding(inputs).handled;
      var frames;
      if dir == LeftToRight {
        frames := l2r.Feed(data);
      } else {
        frames := r2l.Feed(data);
      }
      SendOn(dir, frames, before);
      inputs := inputs + [Read(dir, data)];
    }
  }

  // ----- Each direction on its own -----

  lemma {:induction false} FedSnoc(buf: seq<byte>, chunks: seq<seq<byte>>, c: seq<byte>)
    ensures FedPieces(buf, chunks + [c]) == FedPieces(buf, chunks) + Pieces(FedResidual(buf, chunks) + c)
    ensures FedResidual(buf, chunks + [c]) == Residual(FedResidual(buf, chunks) + c)
    decreases |chunks|
  {
    hide Pieces, Residual;
    if chunks == [] {
      assert chunks + [c] == [c];
    } else {
      assert (chunks + [c])[1..] == chunks[1..] + [c];
      FedSnoc(Residual(buf + chunks[0]), chunks[1..], c);
    }
  }

  lemma {:induction false} AlongTagged(dir: Direction, handled: seq<Handled>, d: Direction, pieces: seq<seq<byte>>)
    ensures Plain(Along(dir, handled + Tagged(d, pieces))) ==
            Plain(Along(dir, handled)) + if d == dir then pieces else []
    decreases |pieces|
  {
    hide Along, Plain;
    if pieces == [] {
      assert handled + Tagged(d, pieces) == handled;
    } else {
      var m := |pieces| - 1;
      AlongTagged(dir, handled, d, pieces[..m]);
      TaggedPrefix(handled, d, pieces, m);
      assert pieces[..m + 1] == pieces && pieces == pieces[..m] + [pieces[m]];
      AlongSnoc(dir, handled + Tagged(d, pieces[..m]), Handled(d, pieces[m]));
      PlainSnoc(Along(dir, handled + Tagged(d, pieces[..m])),
        Numbered(|handled + Tagged(d, pieces[..m])| + 1, pieces[m]));
    }
  }

  lemma PlainSnoc(ps: seq<Numbered>, p: Numbered)
    ensures Plain(ps + [p]) == Plain(ps) + [p.piece]
  {
  }

  /** The directions share the count and nothing else: each one's framer holds
      and hands over what it would with the other side silent. */
  lemma {:induction false} DirectionsAreSeparate(dir: Direction, inputs: seq<Read>)
    ensures Forwarding(inputs).Held(dir) == FedResidual([], Chunks(dir, inputs))
    ensures Plain(Along(dir, Forwarding(inputs).handled)) == FedPieces([], Chunks(dir, inputs))
    decreases |inputs|
  {
    hide Pieces, Residual, Along, Plain, FedPieces, FedResidual;
    if inputs == [] {
      NothingAlong(dir);
    } else {
      var front, last := inputs[..|inputs| - 1], inputs[|inputs| - 1];
      var before := Forwarding(front);
      DirectionsAreSeparate(dir, front);
      AlongTagged(dir, before.handled, last.dir, Pieces(before.Held(last.dir) + last.data));
      if last.dir == dir {
        FedSnoc([], Chunks(dir, front), last.data);
      } else {
        NothingAdded(Chunks(dir, front));
        NothingAdded(Plain(Along(dir, before.handled)));
      }
    }
  }

  lemma NothingAlong(dir: Direction)
    ensures Along(dir, []) == [] && Plain([]) == [] && FedPieces([], []) == [] && FedResidual([], []) == []
  {
  }

  /** The numbers along one direction ascend, and every piece handled stands in
      its direction under its place in the common order. */
  lemma {:induction false} NumbersAreGlobal(dir: Direction, handled: seq<Handled>)
    ensures forall i, j :: 0 <= i < j < |Along(dir, handled)| ==> Along(dir, handled)[i].n < Along(dir, handled)[j].n
    ensures forall p :: p in Along(dir, handled) <==> 1 <= p.n <= |handled| && handled[p.n - 1] == Handled(dir, p.piece)
    decreases |handled|
  {
    if handled == [] {
    } else {
      var n := |handled|;
      var front := handled[..n - 1];
      NumbersAreGlobal(dir, front);
      hide Along;
      AlongSnoc(dir, front, handled[n - 1]);
      assert handled == front + [handled[n - 1]];
      var a := Along(dir, front);
      forall i | 0 <= i < |a|
        ensures a[i].n < n
      {
        assert a[i] in a;
      }
      forall p
        ensures p in Along(dir, handled) <==> 1 <= p.n <= n && handled[p.n - 1] == Handled(dir, p.piece)
      {
        NumberedInLast(dir, handled, p);
        assert p.n != n && 1 <= p.n <= n ==> handled[p.n - 1] == front[p.n - 1];
      }
    }
  }

  /** Only the last piece handled has the last number. */
  lemma NumberedInLast(dir: Direction, handled: seq<Handled>, p: Numbered)
    requires handled != []
    ensures var front, last := handled[..|handled| - 1], handled[|handled| - 1];
      p in Along(dir, handled) <==>
        p in Along(dir, front) || (p.n == |handled| && last == Handled(dir, p.piece))
  {
    hide Along;
    var front, last := handled[..|handled| - 1], handled[|handled| - 1];
    assert handled == front + [last];
    AlongSnoc(dir, front, last);
  }

  // ----- Exactness -----

  /** Fault injection is frame-exact in each direction. Let one side send
      back-to-back valid frames, perhaps the beginning of another at the end,
      and the other side anything at all. With any periods and any read sizes
      on both sides of the bridge, the receiver finds exactly the undropped
      frames in order, damaged where planned, by their numbers in the common count. */
  lemma InjectionIsFrameExact(cfg: Config, dir: Direction, inputs: seq<Read>,
                              fs: seq<seq<byte>>, tail: seq<byte>, rechunked: seq<seq<byte>>)
    requires AllValid(fs) && Decide(tail) == Stuck
    requires Flatten(Chunks(dir, inputs)) == Flatten(fs) + tail
    requires Flatten(rechunked) == Flatten(Output(cfg, dir, Forwarding(inputs).handled))
    ensures Plain(Along(dir, Forwarding(inputs).handled)) == fs
    ensures Forwarding(inputs).Held(dir) == tail
    ensures Frames(FedItems([], rechunked)) == Output(cfg, dir, Forwarding(inputs).handled)
  {
    hide Items, Residual, Validate, IsFrame, FedItems, FedPieces, Injected, Frames, Decide, Along, Forwarding, Chunks;
    hide Plain;
    var chunks, ps := Chunks(dir, inputs), Along(dir, Forwarding(inputs).handled);
    DirectionsAreSeparate(dir, inputs);
    PiecesWithTail(fs, tail, chunks);
    EmptyIsStuck();
    assert [] + Flatten(rechunked) == Flatten(rechunked);
    ChunkingIndependence([], rechunked);
    InjectedAreFrames(cfg, ps);
    BackToBack(Injected(cfg, ps));
  }

  lemma PiecesWithTail(fs: seq<seq<byte>>, tail: seq<byte>, chunks: seq<seq<byte>>)
    requires AllFrames(fs) && Decide(tail) == Stuck && Flatten(chunks) == Flatten(fs) + tail
    ensures FedPieces([], chunks) == fs && FedResidual([], chunks) == tail
  {
    hide Items, Residual, IsFrame, FedItems, FedPieces, Frames, Decide;
    EmptyIsStuck();
    assert [] + Flatten(chunks) == Flatten(chunks) && [] + tail == tail + [] == tail;
    ChunkingIndependence([], chunks);
    BackToBack(fs);
    ParseInTwoParts(Flatten(fs), tail);
    NoChunk(tail);
    assert Items(Flatten(chunks)) == Items(Flatten(fs));
    PiecesOfFrames([], chunks);
  }

  /** The frames numbered 1, 2, 3, ... */
  function FromOne(fs: seq<seq<byte>>): (r: seq<Numbered>)
    ensures |r| == |fs| && forall i :: 0 <= i < |fs| ==> r[i] == Numbered(i + 1, fs[i])
  {
    seq(|fs|, i requires 0 <= i < |fs| => Numbered(i + 1, fs[i]))
  }

  /** With the other side silent the numbers are those of this side's frames. */
  lemma SilentOtherSide(cfg: Config, dir: Direction, inputs: seq<Read>,
                        fs: seq<seq<byte>>, rechunked: seq<seq<byte>>)
    requires forall i :: 0 <= i < |inputs| ==> inputs[i].dir == dir
    requires AllValid(fs) && Flatten(Chunks(dir, inputs)) == Flatten(fs)
    requires Flatten(rechunked) == Flatten(Output(cfg, dir, Forwarding(inputs).handled))
    ensures Frames(FedItems([], rechunked)) == Injected(cfg, FromOne(fs))
  {
    hide AllValid, Frames, FedItems, Forwarding, Along, Flatten, Injected, Decide, Chunks;
    var handled := Forwarding(inputs).handled;
    EmptyIsStuck();
    NothingAdded(Flatten(fs));
    InjectionIsFrameExact(cfg, dir, inputs, fs, [], rechunked);
    AllOneWay(dir, inputs);
    OneWayNumbers(dir, handled);
    var ps := Along(dir, handled);
    assert forall i :: 0 <= i < |ps| ==> ps[i] == Numbered(i + 1, Plain(ps)[i]);
    assert ps == FromOne(fs);
  }

  lemma {:induction false} AllOneWay(dir: Direction, inputs: seq<Read>)
    requires forall i :: 0 <= i < |inputs| ==> inputs[i].dir == dir
    ensures forall i :: 0 <= i < |Forwarding(inputs).handled| ==> Forwarding(inputs).handled[i].dir == dir
    decreases |inputs|
  {
    hide Pieces, Residual;
    if inputs == [] {
    } else {
      AllOneWay(dir, inputs[..|inputs| - 1]);
    }
  }

  lemma {:induction false} OneWayNumbers(dir: Direction, handled: seq<Handled>)
    requires forall i :: 0 <= i < |handled| ==> handled[i].dir == dir
    ensures |Along(dir, handled)| == |handled|
    ensures forall i :: 0 <= i < |handled| ==> Along(dir, handled)[i].n == i + 1
    decreases |handled|
  {
    if handled == [] {
    } else {
      OneWayNumbers(dir, handled[..|handled| - 1]);
    }
  }

  // ----- How many, over both directions -----

  /** Every piece handled is at least a header long. */
  predicate AllHeaded(handled: seq<Handled>) {
    forall i :: 0 <= i < |handled| ==> |handled[i].piece| >= HEADER_SIZE
  }

  /** With no type filter, n pieces lose n / d and, of the rest, exactly the
      multiples of c that are not multiples of lcm(c, d) are damaged. */
  lemma {:induction false} InjectionCounts(cfg: Config, handled: seq<Handled>, l: int)
    requires AllHeaded(handled) && cfg.dropType < 0 && cfg.dropEvery > 0 && cfg.corruptEvery > 0
    requires IsLcm(l, cfg.corruptEvery, cfg.dropEvery)
    ensures var right, left, n := Along(LeftToRight, handled), Along(RightToLeft, handled), |handled|;
            && |right| + |left| == n
            && DropCount(cfg, right) + DropCount(cfg, left) == Multiples(n, cfg.dropEvery)
            && CorruptCount(cfg, right) + CorruptCount(cfg, left) == Multiples(n, cfg.corruptEvery) - Multiples(n, l)
    decreases |handled|
  {
    assert l > 0;
    hide IsLcm, Drops, Corrupts, Along, DropCount, CorruptCount, Multiples;
    if handled == [] {
      NothingCounted(cfg);
      NoMultiples(cfg.dropEvery);
      NoMultiples(cfg.corruptEvery);
      NoMultiples(l);
    } else {
      var n := |handled|;
      var front, last := handled[..n - 1], handled[n - 1];
      assert handled == front + [last];
      InjectionCounts(cfg, front, l);
      LastFrameCounts(cfg, n, last.piece, l);
      CountsSnoc(cfg, Along(last.dir, front), Numbered(n, last.piece));
      AlongSnoc(last.dir, front, last);
      AlongSnoc(Opposite(last.dir), front, last);
      NothingAdded(Along(Opposite(last.dir), front));
    }
  }

  lemma NothingCounted(cfg: Config)
    ensures forall dir :: Along(dir, []) == []
    ensures DropCount(cfg, []) == 0 && CorruptCount(cfg, []) == 0
  {
  }

  lemma CountsSnoc(cfg: Config, ps: seq<Numbered>, p: Numbered)
    ensures DropCount(cfg, ps + [p]) == DropCount(cfg, ps) + if Drops(cfg, p.n, p.piece) then 1 else 0
    ensures CorruptCount(cfg, ps + [p]) == CorruptCount(cfg, ps) + if Corrupts(cfg, p.n, p.piece) then 1 else 0
  {
    hide Drops, Corrupts;
    assert (ps + [p])[..|ps|] == ps;
  }

  lemma FrameHasHeader(f: seq<byte>)
    requires IsFrame(f)
    ensures |f| >= HEADER_SIZE
  {
  }

  lemma HandledAreHeaded(handled: seq<Handled>)
    requires AllFrames(Plain(Along(LeftToRight, handled))) && AllFrames(Plain(Along(RightToLeft, handled)))
    ensures AllHeaded(handled)
  {
    hide Along, IsFrame;
    forall i | 0 <= i < |handled|
      ensures |handled[i].piece| >= HEADER_SIZE
    {
      var p := Numbered(i + 1, handled[i].piece);
      NumbersAreGlobal(handled[i].dir, handled);
      var ps := Along(handled[i].dir, handled);
      assert p in ps;
      var k :| 0 <= k < |ps| && ps[k] == p;
      assert handled[i].dir == LeftToRight || handled[i].dir == RightToLeft;
      assert AllFrames(Plain(ps)) && Plain(ps)[k] == p.piece;
      FrameHasHeader(p.piece);
    }
  }

  /** What the two receivers find, and how many of them fail validation. */
  predicate Counted(cfg: Config, right: seq<seq<byte>>, left: seq<seq<byte>>, n: nat, m: int)
    requires cfg.dropEvery > 0 && cfg.corruptEvery > 0 && m > 0
  {
    && |right| + |left| == n - Multiples(n, cfg.dropEvery)
    && Caught(right) + Caught(left) == Multiples(n, cfg.corruptEvery) - Multiples(n, m)
  }

  lemma ValidAreFrames(fs: seq<seq<byte>>)
    requires AllValid(fs)
    ensures AllFrames(fs)
  {
    hide Validate, IsFrame;
  }

  lemma OutputCounts(cfg: Config, handled: seq<Handled>, m: int)
    requires AllValid(Plain(Along(LeftToRight, handled))) && AllValid(Plain(Along(RightToLeft, handled)))
    requires cfg.dropType < 0 && cfg.dropEvery > 0 && cfg.corruptEvery > 0
    requires IsLcm(m, cfg.corruptEvery, cfg.dropEvery)
    ensures |handled| == |Along(LeftToRight, handled)| + |Along(RightToLeft, handled)|
    ensures Counted(cfg, Output(cfg, LeftToRight, handled), Output(cfg, RightToLeft, handled), |handled|, m)
  {
    assert m > 0;
    hide AllValid, Along, Plain, Caught, IsLcm, DropCount, CorruptCount, AllHeaded, Multiples, Output;
    ValidAreFrames(Plain(Along(LeftToRight, handled)));
    ValidAreFrames(Plain(Along(RightToLeft, handled)));
    HandledAreHeaded(handled);
    InjectionCounts(cfg, handled, m);
    CountedOut(cfg, LeftToRight, handled);
    CountedOut(cfg, RightToLeft, handled);
  }

  /** Both directions carry valid frames, l from the left and r from the right,
      n together. Then the two receivers together find n - n/d frames, of which
      n/c - n/lcm(c, d) fail validation. */
  lemma ReceivedCounts(cfg: Config, inputs: seq<Read>, l: seq<seq<byte>>, r: seq<seq<byte>>,
                       atRight: seq<seq<byte>>, atLeft: seq<seq<byte>>)
    requires AllValid(l) && AllValid(r)
    requires Flatten(Chunks(LeftToRight, inputs)) == Flatten(l)
    requires Flatten(Chunks(RightToLeft, inputs)) == Flatten(r)
    requires Flatten(atRight) == Flatten(Output(cfg, LeftToRight, Forwarding(inputs).handled))
    requires Flatten(atLeft) == Flatten(Output(cfg, RightToLeft, Forwarding(inputs).handled))
    requires cfg.dropType < 0 && cfg.dropEvery > 0 && cfg.corruptEvery > 0
    ensures exists m :: IsLcm(m, cfg.corruptEvery, cfg.dropEvery) &&
              Counted(cfg, Frames(FedItems([], atRight)), Frames(FedItems([], atLeft)), |l| + |r|, m)
  {
    hide AllValid, FedItems, Output, Frames, Decide, Along, Forwarding, Chunks, Plain, Counted;
    hide Flatten;
    var handled := Forwarding(inputs).handled;
    EmptyIsStuck();
    NothingAdded(Flatten(l));
    NothingAdded(Flatten(r));
    InjectionIsFrameExact(cfg, LeftToRight, inputs, l, [], atRight);
    InjectionIsFrameExact(cfg, RightToLeft, inputs, r, [], atLeft);
    var m := LcmExists(cfg.corruptEvery, cfg.dropEvery);
    OutputCounts(cfg, handled, m);
    PlainLength(Along(LeftToRight, handled));
    PlainLength(Along(RightToLeft, handled));
    assert IsLcm(m, cfg.corruptEvery, cfg.dropEvery);
  }

  lemma CountedOut(cfg: Config, dir: Direction, handled: seq<Handled>)
    requires AllValid(Plain(Along(dir, handled)))
    ensures |Output(cfg, dir, handled)| == |Along(dir, handled)| - DropCount(cfg, Along(dir, handled))
    ensures Caught(Output(cfg, dir, handled)) == CorruptCount(cfg, Along(dir, handled))
  {
    hide Along, Injected, Caught, Plain, DropCount, CorruptCount, AllValid;
    CountedBehind(cfg, Along(dir, handled));
  }

  lemma PlainLength(ps: seq<Numbered>)
    ensures |Plain(ps)| == |ps|
  {
  }
}
