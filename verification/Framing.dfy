/** The parse that all four framers share, as one decision on the bytes at hand. */
module Framing {
  import opened Sequences
  import opened Crc
  import opened Wire

  /** What the first bytes of a buffer allow: drop a byte that cannot start a
      frame, reject an over-long header (skipping one byte), emit a whole frame
      of the given size, or wait for more bytes. */
  datatype Decision = Drop | Reject | Emit(size: nat) | Stuck

  function Decide(s: seq<byte>): (d: Decision)
    ensures d.Emit? ==> HEADER_SIZE <= d.size <= |s| && d.size <= MAX_FRAME_SIZE
    ensures d.Drop? ==> |s| > 0
    ensures d.Reject? ==> |s| >= HEADER_SIZE
  {
    if |s| < 2 then Stuck
    else if U16(s[0], s[1]) != MAGIC then Drop
    else if |s| < HEADER_SIZE then Stuck
    else if FrameSize(s) > MAX_FRAME_SIZE then Reject
    else if |s| < FrameSize(s) then Stuck
    else Emit(FrameSize(s))
  }

  /** How many bytes a decision consumes. */
  function Consumed(d: Decision): nat
  {
    match d
    case Drop => 1
    case Reject => 1
    case Emit(n) => n
    case Stuck => 0
  }

  datatype AnyItem = Noise(b: byte) | TooLong(header: seq<byte>) | Frame(raw: seq<byte>)

  predicate Formed(i: AnyItem) {
    match i
    case Noise(_) => true
    case TooLong(h) => |h| == HEADER_SIZE && U16(h[0], h[1]) == MAGIC && FrameSize(h) > MAX_FRAME_SIZE
    case Frame(f) => IsFrame(f)
  }

  type Item = i: AnyItem | Formed(i) witness Noise(0)

  function ItemOf(s: seq<byte>): Item
    requires Decide(s) != Stuck
  {
    match Decide(s)
    case Drop => Noise(s[0])
    case Reject => TooLong(s[..HEADER_SIZE])
    case Emit(n) => Frame(s[..n])
  }

  function Rest(s: seq<byte>): (r: seq<byte>)
    requires Decide(s) != Stuck
    ensures |r| < |s|
  {
    s[Consumed(Decide(s))..]
  }

  /** Everything that can be taken off the front of s, in order. */
  function Items(s: seq<byte>): seq<Item>
    decreases |s|
  {
    if Decide(s) == Stuck then [] else [ItemOf(s)] + Items(Rest(s))
  }

  /** What is left for later. */
  function Residual(s: seq<byte>): (r: seq<byte>)
    ensures Decide(r) == Stuck
    ensures |r| <= |s|
    decreases |s|
  {
    if Decide(s) == Stuck then s else Residual(Rest(s))
  }

  /** A residual is always shorter than the largest frame. */
  lemma ResidualBound(s: seq<byte>)
    ensures |Residual(s)| < MAX_FRAME_SIZE
  {
    assert Decide(Residual(s)) == Stuck;
  }

  /** A decision, once made, does not change when more bytes arrive. */
  lemma DecisionStable(s: seq<byte>, t: seq<byte>)
    requires Decide(s) != Stuck
    ensures Decide(s + t) == Decide(s)
    ensures ItemOf(s + t) == ItemOf(s)
    ensures Rest(s + t) == Rest(s) + t
  {
    assert (s + t)[..Consumed(Decide(s))] == s[..Consumed(Decide(s))];
    if |s| >= HEADER_SIZE {
      assert (s + t)[..HEADER_SIZE] == s[..HEADER_SIZE];
    }
  }

  /** Parsing a stream in two parts gives what parsing it at once gives. */
  lemma {:induction false} ParseInTwoParts(s: seq<byte>, t: seq<byte>)
    ensures Items(s + t) == Items(s) + Items(Residual(s) + t)
    ensures Residual(s + t) == Residual(Residual(s) + t)
    decreases |s|
  {
    hide Decide, ItemOf, Rest;
    if Decide(s) == Stuck {
      assert [] + Items(s + t) == Items(s + t);
    } else {
      DecisionStable(s, t);
      ParseInTwoParts(Rest(s), t);
      Regroup([ItemOf(s)], Items(Rest(s)), Items(Residual(Rest(s)) + t));
    }
  }

  // ----- What each consumer keeps of the items -----

  datatype ParsedFrame = ParsedFrame(header: Header, payload: seq<byte>, result: ValidateResult)

  /** The supervisor reports over-long headers as errors and frames with their verdict. */
  function ParsedOf(i: Item): seq<ParsedFrame>
  {
    match i
    case Noise(_) => []
    case TooLong(h) => [ParsedFrame(ParseHeader(h), [], BadLength)]
    case Frame(f) => [ParsedFrame(ParseHeader(f), f[HEADER_SIZE..], Validate(f))]
  }

  function Parsed(items: seq<Item>): seq<ParsedFrame>
    decreases |items|
  {
    if items == [] then [] else ParsedOf(items[0]) + Parsed(items[1..])
  }

  /** The link daemon keeps whole frames and nothing else. */
  function Frames(items: seq<Item>): seq<seq<byte>>
    decreases |items|
  {
    if items == [] then []
    else (if items[0].Frame? then [items[0].raw] else []) + Frames(items[1..])
  }

  lemma {:induction false} ParsedConcat(a: seq<Item>, b: seq<Item>)
    ensures Parsed(a + b) == Parsed(a) + Parsed(b)
    decreases |a|
  {
    if a == [] {
      assert a + b == b;
    } else {
      assert (a + b)[1..] == a[1..] + b;
      ParsedConcat(a[1..], b);
    }
  }

  lemma {:induction false} FramesConcat(a: seq<Item>, b: seq<Item>)
    ensures Frames(a + b) == Frames(a) + Frames(b)
    decreases |a|
  {
    if a == [] {
      assert a + b == b;
    } else {
      assert (a + b)[1..] == a[1..] + b;
      FramesConcat(a[1..], b);
    }
  }

  // ----- Feeding a stream in chunks -----

  function Flatten<T>(chunks: seq<seq<T>>): seq<T>
    decreases |chunks|
  {
    if chunks == [] then [] else chunks[0] + Flatten(chunks[1..])
  }

  lemma {:induction false} FlattenConcat<T>(a: seq<seq<T>>, b: seq<seq<T>>)
    ensures Flatten(a + b) == Flatten(a) + Flatten(b)
    decreases |a|
  {
    if a == [] {
      assert a + b == b;
    } else {
      assert (a + b)[1..] == a[1..] + b;
      FlattenConcat(a[1..], b);
    }
  }

  /** The items taken off by feeding one chunk after another to a buffer. */
  function FedItems(buf: seq<byte>, chunks: seq<seq<byte>>): seq<Item>
    decreases |chunks|
  {
    if chunks == [] then [] else Items(buf + chunks[0]) + FedItems(Residual(buf + chunks[0]), chunks[1..])
  }

  function FedResidual(buf: seq<byte>, chunks: seq<seq<byte>>): seq<byte>
    decreases |chunks|
  {
    if chunks == [] then buf else FedResidual(Residual(buf + chunks[0]), chunks[1..])
  }

  lemma FirstChunk(buf: seq<byte>, first: seq<byte>, rest: seq<byte>, next: seq<byte>)
    requires next == Residual(buf + first)
    ensures Items(buf + (first + rest)) == Items(buf + first) + Items(next + rest)
    ensures Residual(buf + (first + rest)) == Residual(next + rest)
  {
    ParseInTwoParts(buf + first, rest);
    assert buf + (first + rest) == (buf + first) + rest;
  }

  lemma NoChunk(buf: seq<byte>)
    requires Decide(buf) == Stuck
    ensures Items(buf + []) == [] && Residual(buf + []) == buf
  {
    assert buf + [] == buf;
  }

  /** How the stream is cut into chunks does not matter. */
  lemma {:induction false} ChunkingIndependence(buf: seq<byte>, chunks: seq<seq<byte>>)
    requires Decide(buf) == Stuck
    ensures FedItems(buf, chunks) == Items(buf + Flatten(chunks))
    ensures FedResidual(buf, chunks) == Residual(buf + Flatten(chunks))
    decreases |chunks|
  {
    if chunks == [] {
      NoChunk(buf);
    } else {
      var next := Residual(buf + chunks[0]);
      ChunkingIndependence(next, chunks[1..]);
      FirstChunk(buf, chunks[0], Flatten(chunks[1..]), next);
    }
  }
}
