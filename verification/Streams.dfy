/** Streams that carry frames among noise: what any of the framers finds in them. */
module Streams {
  import opened Crc
  import opened Wire
  import opened Framing

  /** No two neighbouring bytes look like the start of a frame. */
  predicate NoMagic(noise: seq<byte>) {
    forall i :: 0 <= i < |noise| - 1 ==> U16(noise[i], noise[i + 1]) != MAGIC
  }

  datatype Segment = Segment(noise: seq<byte>, frame: seq<byte>)

  predicate Clean(segments: seq<Segment>) {
    forall i :: 0 <= i < |segments| ==> NoMagic(segments[i].noise) && IsFrame(segments[i].frame)
  }

  /** The bytes on the wire: every frame after its noise, then a last run of noise. */
  function Stream(segments: seq<Segment>, tail: seq<byte>): seq<byte>
    decreases |segments|
  {
    if segments == [] then tail
    else segments[0].noise + (segments[0].frame + Stream(segments[1..], tail))
  }

  function FramesIn(segments: seq<Segment>): (r: seq<seq<byte>>)
    ensures |r| == |segments| && forall i :: 0 <= i < |segments| ==> r[i] == segments[i].frame
  {
    seq(|segments|, i requires 0 <= i < |segments| => segments[i].frame)
  }

  lemma FrameAtFront(f: seq<byte>, t: seq<byte>)
    requires IsFrame(f)
    ensures Decide(f + t) == Emit(|f|) && ItemOf(f + t) == Frame(f) && Rest(f + t) == t
    ensures U16(f[0], f[1]) == MAGIC
  {
    assert (f + t)[..|f|] == f && (f + t)[|f|..] == t;
  }

  /** Noise is dropped up to the frame, even when it ends in the first magic byte. */
  lemma {:induction false} NoiseThenFrame(noise: seq<byte>, f: seq<byte>, t: seq<byte>)
    requires NoMagic(noise) && IsFrame(f)
    ensures Parsed(Items(noise + (f + t))) == ParsedOf(Frame(f)) + Parsed(Items(t))
    ensures Frames(Items(noise + (f + t))) == [f] + Frames(Items(t))
    ensures Residual(noise + (f + t)) == Residual(t)
    decreases |noise|
  {
    hide Validate, FrameSize;
    var s := noise + (f + t);
    if noise == [] {
      assert s == f + t;
      FrameAtFront(f, t);
      assert Items(s)[1..] == Items(t);
    } else {
      FrameAtFront(f, t);
      MagicBytes(f[0], f[1]);
      MagicBytes(s[0], s[1]);
      assert |noise| > 1 ==> s[0] == noise[0] && s[1] == noise[1];
      assert |noise| == 1 ==> s[1] == f[0] == MAGIC_LO;
      assert Decide(s) == Drop;
      var rest := noise[1..] + (f + t);
      assert Rest(s) == rest;
      NoiseThenFrame(noise[1..], f, t);
      assert Items(s)[1..] == Items(rest);
    }
  }

  lemma {:induction false} NoiseAlone(noise: seq<byte>)
    requires NoMagic(noise)
    ensures Parsed(Items(noise)) == [] && Frames(Items(noise)) == []
    ensures Residual(noise) == if noise == [] then [] else noise[|noise| - 1..]
    decreases |noise|
  {
    if |noise| < 2 {
    } else {
      assert Decide(noise) == Drop;
      assert Rest(noise) == noise[1..];
      NoiseAlone(noise[1..]);
      assert Items(noise)[1..] == Items(noise[1..]);
    }
  }

  /** Resynchronisation: whatever noise lies between the frames, exactly the
      frames come out, in order, and at most one byte of noise is left over. */
  lemma {:induction false} FramesThroughNoise(segments: seq<Segment>, tail: seq<byte>)
    requires Clean(segments) && NoMagic(tail)
    ensures Frames(Items(Stream(segments, tail))) == FramesIn(segments)
    ensures Residual(Stream(segments, tail)) == if tail == [] then [] else tail[|tail| - 1..]
    decreases |segments|
  {
    hide Items, Residual, IsFrame, NoMagic;
    if segments == [] {
      NoiseAlone(tail);
    } else {
      NoiseThenFrame(segments[0].noise, segments[0].frame, Stream(segments[1..], tail));
      FramesThroughNoise(segments[1..], tail);
      assert [segments[0].frame] + FramesIn(segments[1..]) == FramesIn(segments);
    }
  }

  /** What a sender puts into one frame. */
  datatype Message = Message(kind: byte, sequenceId: bv16, timestampMs: bv32, payload: seq<byte>, payloadLength: bv16) {
    predicate Sendable() {
      |payload| == payloadLength as nat <= MAX_PAYLOAD
    }

    function Header(): Header {
      InitHeader(kind, sequenceId, payloadLength, timestampMs)
    }

    function Packed(): seq<byte>
      requires Sendable()
    {
      Pack(Header(), payload)
    }

    /** The frame a receiver should see: the same fields and payload, verdict OK. */
    function Received(): ParsedFrame
      requires Sendable()
    {
      ParsedFrame(Header().(checksum := Checksum(Header(), payload)), payload, Ok)
    }

    lemma PackedIsFrame()
      requires Sendable()
      ensures IsFrame(Packed()) && Validate(Packed()) == Ok
      ensures ParsedOf(Frame(Packed())) == [Received()]
    {
      hide Validate, Checksum, Pack;
      PackValidates(Header(), payload, []);
      assert Packed() + [] == Packed();
    }
  }

  datatype Noisy = Noisy(noise: seq<byte>, message: Message)

  function Wired(noisy: seq<Noisy>, tail: seq<byte>): seq<byte>
    requires forall i :: 0 <= i < |noisy| ==> noisy[i].message.Sendable()
    decreases |noisy|
  {
    if noisy == [] then tail
    else noisy[0].noise + (noisy[0].message.Packed() + Wired(noisy[1..], tail))
  }

  function AllReceived(noisy: seq<Noisy>): (r: seq<ParsedFrame>)
    requires forall i :: 0 <= i < |noisy| ==> noisy[i].message.Sendable()
    ensures |r| == |noisy| && forall i :: 0 <= i < |noisy| ==> r[i] == noisy[i].message.Received()
  {
    seq(|noisy|, i requires 0 <= i < |noisy| => noisy[i].message.Received())
  }

  /** Round trip: messages packed and sent through any noise arrive exactly, all valid. */
  lemma {:induction false} RoundTripThroughNoise(noisy: seq<Noisy>, tail: seq<byte>)
    requires forall i :: 0 <= i < |noisy| ==> noisy[i].message.Sendable() && NoMagic(noisy[i].noise)
    requires NoMagic(tail)
    ensures Parsed(Items(Wired(noisy, tail))) == AllReceived(noisy)
    decreases |noisy|
  {
    hide Items, Residual, IsFrame, NoMagic, Validate, Checksum, Pack;
    if noisy == [] {
      NoiseAlone(tail);
    } else {
      var m := noisy[0].message;
      m.PackedIsFrame();
      NoiseThenFrame(noisy[0].noise, m.Packed(), Wired(noisy[1..], tail));
      RoundTripThroughNoise(noisy[1..], tail);
      FirstReceived(noisy);
    }
  }

  lemma FirstReceived(noisy: seq<Noisy>)
    requires noisy != [] && forall i :: 0 <= i < |noisy| ==> noisy[i].message.Sendable()
    ensures [noisy[0].message.Received()] + AllReceived(noisy[1..]) == AllReceived(noisy)
  {
    hide Checksum;
  }

  // ----- No noise at all -----

  predicate AllFrames(fs: seq<seq<byte>>) {
    forall i :: 0 <= i < |fs| ==> IsFrame(fs[i])
  }

  /** A stream of back-to-back frames parses into exactly those frames, with nothing left. */
  lemma {:induction false} BackToBack(fs: seq<seq<byte>>)
    requires AllFrames(fs)
    ensures |Items(Flatten(fs))| == |fs|
    ensures forall i :: 0 <= i < |fs| ==> Items(Flatten(fs))[i] == Frame(fs[i])
    ensures Frames(Items(Flatten(fs))) == fs
    ensures Residual(Flatten(fs)) == []
    decreases |fs|
  {
    hide IsFrame, FrameSize;
    if fs == [] {
    } else {
      FrameAtFront(fs[0], Flatten(fs[1..]));
      BackToBack(fs[1..]);
      assert Items(Flatten(fs))[1..] == Items(Flatten(fs[1..]));
    }
  }
}
