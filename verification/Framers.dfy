/** The three buffered framers, each with its own loops, each refining the one parse. */
module Framers {
  import opened Sequences
  import opened Crc
  import opened Wire
  import opened Framing

  // ----- Moving through a buffer, one decision at a time -----

  /** `done` has been taken off the front of s, and pos is where the rest starts. */
  ghost predicate Reached(s: seq<byte>, pos: nat, done: seq<Item>) {
    && pos <= |s|
    && Items(s) == done + Items(s[pos..])
    && Residual(s[pos..]) == Residual(s)
  }

  lemma StartOf(s: seq<byte>)
    ensures Reached(s, 0, [])
  {
    assert s[0..] == s;
  }

  lemma EndOf(s: seq<byte>, pos: nat, done: seq<Item>)
    requires Reached(s, pos, done) && Decide(s[pos..]) == Stuck
    ensures Items(s) == done && Residual(s) == s[pos..]
  {
  }

  lemma Advance(s: seq<byte>, pos: nat, done: seq<Item>, item: Item, n: nat)
    requires Reached(s, pos, done)
    requires Decide(s[pos..]) != Stuck && item == ItemOf(s[pos..]) && n == Consumed(Decide(s[pos..]))
    ensures Reached(s, pos + n, done + [item])
  {
    assert s[pos..][n..] == s[pos + n..];
    Regroup(done, [item], Items(s[pos + n..]));
  }

  lemma Skips(s: seq<byte>, pos: nat, done: seq<Item>)
    requires Reached(s, pos, done) && pos + 2 <= |s| && U16(s[pos], s[pos + 1]) != MAGIC
    ensures Reached(s, pos + 1, done + [Noise(s[pos])])
  {
    Advance(s, pos, done, Noise(s[pos]), 1);
  }

  /** A whole header is in view at pos and starts with the magic. */
  ghost predicate AtHeader(s: seq<byte>, pos: nat, header: seq<byte>) {
    && pos + HEADER_SIZE <= |s| && header == s[pos..pos + HEADER_SIZE]
    && U16(s[pos], s[pos + 1]) == MAGIC
  }

  lemma HeaderInView(s: seq<byte>, pos: nat, header: seq<byte>)
    requires AtHeader(s, pos, header)
    ensures s[pos..][..HEADER_SIZE] == header && FrameSize(s[pos..]) == FrameSize(header)
  {
  }

  lemma Rejects(s: seq<byte>, pos: nat, done: seq<Item>, header: seq<byte>)
    requires Reached(s, pos, done) && AtHeader(s, pos, header) && FrameSize(header) > MAX_FRAME_SIZE
    ensures Formed(TooLong(header)) && Reached(s, pos + 1, done + [TooLong(header)])
  {
    HeaderInView(s, pos, header);
    Advance(s, pos, done, TooLong(header), 1);
  }

  lemma Emits(s: seq<byte>, pos: nat, done: seq<Item>, header: seq<byte>, n: nat, frame: seq<byte>)
    requires Reached(s, pos, done) && AtHeader(s, pos, header)
    requires n == FrameSize(header) <= MAX_FRAME_SIZE && pos + n <= |s| && frame == s[pos..pos + n]
    ensures Formed(Frame(frame)) && Reached(s, pos + n, done + [Frame(frame)])
  {
    HeaderInView(s, pos, header);
    assert frame == s[pos..][..n];
    Advance(s, pos, done, Frame(frame), n);
  }

  lemma Waits(s: seq<byte>, pos: nat, done: seq<Item>)
    requires Reached(s, pos, done)
    requires pos + 2 <= |s| ==> U16(s[pos], s[pos + 1]) == MAGIC
    requires pos + HEADER_SIZE <= |s| ==>
      FrameSize(s[pos..pos + HEADER_SIZE]) <= MAX_FRAME_SIZE && pos + FrameSize(s[pos..pos + HEADER_SIZE]) > |s|
    ensures Items(s) == done && Residual(s) == s[pos..]
  {
    if pos + HEADER_SIZE <= |s| {
      HeaderInView(s, pos, s[pos..pos + HEADER_SIZE]);
    }
    EndOf(s, pos, done);
  }

  // ----- The supervisor -----

  lemma ParsedSnoc(done: seq<Item>, item: Item)
    ensures Parsed(done + [item]) == Parsed(done) + ParsedOf(item)
  {
    ParsedConcat(done, [item]);
    assert Parsed([item]) == ParsedOf(item);
  }

  /** `FrameAssembler` of the supervisor. */
  class FrameAssembler {
    var buf: seq<byte>

    constructor ()
      ensures buf == []
    {
      buf := [];
    }

    method Feed(data: seq<byte>) returns (out: seq<ParsedFrame>)
      modifies this
      ensures out == Parsed(Items(old(buf) + data))
      ensures buf == Residual(old(buf) + data)
    {
      hide Items, Residual, Parsed, Reached, Validate, FrameSize, ParseHeader, U16;
      buf := buf + data;
      out := [];
      var pos := 0;
      ghost var done: seq<Item> := [];
      StartOf(buf);
      NothingParsed();
      while true
        invariant buf == old(buf) + data && pos <= |buf| && Reached(buf, pos, done)
        invariant out == Parsed(done)
        decreases |buf| - pos
      {
        while pos + 2 <= |buf|
          invariant buf == old(buf) + data && pos <= |buf| && Reached(buf, pos, done)
          invariant out == Parsed(done)
          decreases |buf| - pos
        {
          if U16(buf[pos], buf[pos + 1]) == MAGIC {
            break;
          }
          Skips(buf, pos, done);
          ParsedSnoc(done, Noise(buf[pos]));
          done := done + [Noise(buf[pos])];
          pos := pos + 1;
        }
        if pos + 2 > |buf| {
          break;
        }
        if pos + HEADER_SIZE > |buf| {
          break;
        }
        var header := buf[pos..pos + HEADER_SIZE];
        if FrameSize(header) > MAX_FRAME_SIZE {
          Rejects(buf, pos, done, header);
          ParsedSnoc(done, TooLong(header));
          done := done + [TooLong(header)];
          out := out + [ParsedFrame(ParseHeader(header), [], BadLength)];
          pos := pos + 1;
          continue;
        }
        var total := FrameSize(header);
        if pos + total > |buf| {
          break;
        }
        var frame := buf[pos..pos + total];
        Emits(buf, pos, done, header, total, frame);
        ParsedSnoc(done, Frame(frame));
        done := done + [Frame(frame)];
        out := out + [ParsedFrame(ParseHeader(frame), frame[HEADER_SIZE..], Validate(frame))];
        pos := pos + total;
      }
      Waits(buf, pos, done);
      if pos > 0 {
        buf := buf[pos..];
      }
    }
  }

  lemma NothingParsed()
    ensures Parsed([]) == [] && Frames([]) == []
  {
  }

  // ----- The link daemon -----

  lemma FramesSnoc(done: seq<Item>, item: Item)
    ensures Frames(done + [item]) == Frames(done) + (if item.Frame? then [item.raw] else [])
  {
    FramesConcat(done, [item]);
    assert Frames([item]) == if item.Frame? then [item.raw] else [];
  }

  /** `LinkFramer` of the link daemon. */
  class LinkFramer {
    var buf: seq<byte>

    constructor ()
      ensures buf == []
    {
      buf := [];
    }

    method Feed(data: seq<byte>) returns (out: seq<seq<byte>>)
      modifies this
      ensures out == Frames(Items(old(buf) + data))
      ensures buf == Residual(old(buf) + data)
    {
      hide Items, Residual, Frames, Reached, FrameSize, U16;
      buf := buf + data;
      out := [];
      var pos := 0;
      ghost var done: seq<Item> := [];
      StartOf(buf);
      NothingParsed();
      while true
        invariant buf == old(buf) + data && pos <= |buf| && Reached(buf, pos, done)
        invariant out == Frames(done)
        decreases |buf| - pos
      {
        while pos + 2 <= |buf|
          invariant buf == old(buf) + data && pos <= |buf| && Reached(buf, pos, done)
          invariant out == Frames(done)
          decreases |buf| - pos
        {
          if U16(buf[pos], buf[pos + 1]) == MAGIC {
            break;
          }
          Skips(buf, pos, done);
          FramesSnoc(done, Noise(buf[pos]));
          done := done + [Noise(buf[pos])];
          pos := pos + 1;
        }
        if pos + 2 > |buf| {
          break;
        }
        if pos + HEADER_SIZE > |buf| {
          break;
        }
        var header := buf[pos..pos + HEADER_SIZE];
        if FrameSize(header) > MAX_FRAME_SIZE {
          Rejects(buf, pos, done, header);
          FramesSnoc(done, TooLong(header));
          done := done + [TooLong(header)];
          pos := pos + 1;
          continue;
        }
        var total := FrameSize(header);
        if pos + total > |buf| {
          break;
        }
        var frame := buf[pos..pos + total];
        Emits(buf, pos, done, header, total, frame);
        FramesSnoc(done, Frame(frame));
        done := done + [Frame(frame)];
        out := out + [frame];
        pos := pos + total;
      }
      Waits(buf, pos, done);
      if pos > 0 {
        buf := buf[pos..];
      }
    }
  }

  // ----- The bridge keeps every byte -----

  /** Forwarding pieces from left to right: the pieces so far and the run of
      noise that is still open. An over-long header goes out one byte at a time. */
  function Grouped(items: seq<Item>): (seq<seq<byte>>, seq<byte>)
    decreases |items|
  {
    if items == [] then ([], [])
    else
      var (pieces, run) := Grouped(items[..|items| - 1]);
      match items[|items| - 1]
      case Noise(b) => (pieces, run + [b])
      case TooLong(h) => (Flush(pieces, run) + [h[..1]], [])
      case Frame(f) => (Flush(pieces, run) + [f], [])
  }

  function Flush(pieces: seq<seq<byte>>, run: seq<byte>): seq<seq<byte>> {
    if run == [] then pieces else pieces + [run]
  }

  /** The pieces when the open run of noise is sent too. */
  function Flushed(items: seq<Item>): seq<seq<byte>> {
    Flush(Grouped(items).0, Grouped(items).1)
  }

  /** What one call of the bridge's framer forwards. */
  function Pieces(s: seq<byte>): seq<seq<byte>> {
    Flushed(Items(s))
  }

  lemma OpenRun(done: seq<Item>, out: seq<seq<byte>>, run: seq<byte>)
    requires Grouped(done).0 == out && Grouped(done).1 == run
    ensures Flushed(done) == if run == [] then out else out + [run]
  {
    hide Grouped;
  }

  lemma ClosedBy(done: seq<Item>, item: Item)
    requires !item.Noise?
    ensures Grouped(done + [item]).0 == Flushed(done) + [if item.Frame? then item.raw else item.header[..1]]
    ensures Grouped(done + [item]).1 == []
  {
    GroupedSnoc(done, item);
    hide Grouped;
  }

  lemma GroupedSnoc(done: seq<Item>, item: Item)
    ensures Grouped(done + [item]) ==
            var (pieces, run) := Grouped(done);
            match item
            case Noise(b) => (pieces, run + [b])
            case TooLong(h) => (Flush(pieces, run) + [h[..1]], [])
            case Frame(f) => (Flush(pieces, run) + [f], [])
  {
    assert (done + [item])[..|done|] == done;
  }

  /** `ByteFramer` of the bridge. */
  class ByteFramer {
    var buf: seq<byte>

    constructor ()
      ensures buf == []
    {
      buf := [];
    }

    /** The inner loop: forward to the next magic, or to the last byte. */
    method Hunt(pos: nat, out: seq<seq<byte>>, ghost done: seq<Item>)
        returns (hunt: nat, found: bool, ghost after: seq<Item>)
      requires pos <= |buf| && Reached(buf, pos, done) && Grouped(done).0 == out && Grouped(done).1 == []
      ensures pos <= hunt <= |buf| && Reached(buf, hunt, after)
      ensures Grouped(after).0 == out && Grouped(after).1 == buf[pos..hunt]
      ensures if found then hunt + 2 <= |buf| && U16(buf[hunt], buf[hunt + 1]) == MAGIC else hunt + 2 > |buf|
    {
      hide Reached, Grouped, U16;
      hunt, found, after := pos, false, done;
      while hunt + 2 <= |buf|
        invariant pos <= hunt <= |buf| && Reached(buf, hunt, after) && !found
        invariant Grouped(after).0 == out && Grouped(after).1 == buf[pos..hunt]
        decreases |buf| - hunt
      {
        if U16(buf[hunt], buf[hunt + 1]) == MAGIC {
          found := true;
          return;
        }
        Skips(buf, hunt, after);
        SliceSnoc(buf, pos, hunt);
        GroupedSnoc(after, Noise(buf[hunt]));
        after := after + [Noise(buf[hunt])];
        hunt := hunt + 1;
      }
    }

    method Feed(data: seq<byte>) returns (out: seq<seq<byte>>)
      modifies this
      ensures out == Pieces(old(buf) + data)
      ensures buf == Residual(old(buf) + data)
    {
      hide Items, Residual, Reached, FrameSize, Grouped, Flushed, U16, Formed, AtHeader;
      buf := buf + data;
      out := [];
      var pos := 0;
      ghost var done: seq<Item> := [];
      StartOf(buf);
      NothingGrouped();
      while true
        invariant buf == old(buf) + data && pos <= |buf| && Reached(buf, pos, done)
        invariant Grouped(done).0 == out && Grouped(done).1 == []
        decreases |buf| - pos
      {
        var hunt, found;
        hunt, found, done := Hunt(pos, out, done);
        OpenRun(done, out, buf[pos..hunt]);
        if hunt > pos {
          out := out + [buf[pos..hunt]];
          pos := hunt;
        }
        if !found {
          break;
        }
        if pos + HEADER_SIZE > |buf| {
          break;
        }
        var header := buf[pos..pos + HEADER_SIZE];
        if FrameSize(header) > MAX_FRAME_SIZE {
          Rejects(buf, pos, done, header);
          ClosedBy(done, TooLong(header));
          done := done + [TooLong(header)];
          FirstOfSlice(buf, pos, header);
          out := out + [buf[pos..pos + 1]];
          pos := pos + 1;
          continue;
        }
        var total := FrameSize(header);
        if pos + total > |buf| {
          break;
        }
        var frame := buf[pos..pos + total];
        Emits(buf, pos, done, header, total, frame);
        ClosedBy(done, Frame(frame));
        done := done + [Frame(frame)];
        out := out + [frame];
        pos := pos + total;
      }
      Waits(buf, pos, done);
      if pos > 0 {
        buf := buf[pos..];
      }
    }
  }

  lemma SliceSnoc(s: seq<byte>, i: nat, j: nat)
    requires i <= j < |s|
    ensures s[i..j] + [s[j]] == s[i..j + 1]
  {
  }

  lemma FirstOfSlice(s: seq<byte>, pos: nat, header: seq<byte>)
    requires pos + HEADER_SIZE <= |s| && header == s[pos..pos + HEADER_SIZE]
    ensures header[..1] == s[pos..pos + 1]
  {
  }

  lemma NothingGrouped()
    ensures Grouped([]) == ([], [])
  {
  }
}
