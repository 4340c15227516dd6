/** The bridge between the two serial lines: transparent when it injects
    nothing, frame-exact when it does. */
module Bridge {
  import opened Crc
  import opened Wire
  import opened Framing
  import opened Framers
  import opened Streams
  import opened Sequences

  // ----- Nothing lost, added or reordered -----

  function BytesOf(i: Item): seq<byte> {
    match i
    case Noise(b) => [b]
    case TooLong(h) => h[..1]
    case Frame(f) => f
  }

  /** The bytes a list of items was taken from. */
  function Spelled(items: seq<Item>): seq<byte>
    decreases |items|
  {
    if items == [] then [] else Spelled(items[..|items| - 1]) + BytesOf(items[|items| - 1])
  }

  lemma {:induction false} SpelledConcat(a: seq<Item>, b: seq<Item>)
    ensures Spelled(a + b) == Spelled(a) + Spelled(b)
    decreases |b|
  {
    hide BytesOf;
    if b == [] {
      assert a + b == a;
    } else {
      var m := |b| - 1;
      SpelledConcat(a, b[..m]);
      assert (a + b)[..|a + b| - 1] == a + b[..m];
      Regroup(Spelled(a), Spelled(b[..m]), BytesOf(b[m]));
    }
  }

  lemma SpelledOne(i: Item)
    ensures Spelled([i]) == BytesOf(i)
  {
    assert [i][..0] == [];
  }

  lemma {:induction false} ItemsSpellTheStream(s: seq<byte>)
    ensures Spelled(Items(s)) + Residual(s) == s
    decreases |s|
  {
    hide Spelled, FrameSize;
    if Decide(s) == Stuck {
      NothingSpelled();
    } else {
      var item, rest := ItemOf(s), Rest(s);
      ItemsSpellTheStream(rest);
      SpelledOne(item);
      SpelledConcat([item], Items(rest));
      Regroup(BytesOf(item), Spelled(Items(rest)), Residual(rest));
      FirstItemBytes(s);
    }
  }

  lemma NothingSpelled()
    ensures Spelled([]) == []
  {
  }

  lemma FirstItemBytes(s: seq<byte>)
    requires Decide(s) != Stuck
    ensures BytesOf(ItemOf(s)) + Rest(s) == s
  {
  }

  lemma {:induction false} GroupedSpells(items: seq<Item>)
    ensures Flatten(Grouped(items).0) + Grouped(items).1 == Spelled(items)
    decreases |items|
  {
    hide IsFrame, Formed, Grouped, Spelled, Flatten, Flush;
    if items == [] {
      NothingGrouped();
      NothingSpelled();
      NothingFlat();
    } else {
      var m := |items| - 1;
      var front, last := items[..m], items[m];
      assert items == front + [last];
      GroupedSpells(front);
      var (pieces, run) := Grouped(front);
      GroupedSnoc(front, last);
      SpelledConcat(front, [last]);
      SpelledOne(last);
      if last.Noise? {
        Regroup(Flatten(pieces), run, [last.b]);
      } else {
        FlushSpells(pieces, run);
        FlattenSnoc(Flush(pieces, run), BytesOf(last));
        NothingAdded(Flatten(Flush(pieces, run) + [BytesOf(last)]));
      }
    }
  }

  lemma NothingFlat()
    ensures Flatten<byte>([]) == []
  {
  }

  lemma FlattenSnoc<T>(a: seq<seq<T>>, x: seq<T>)
    ensures Flatten(a + [x]) == Flatten(a) + x
  {
    FlattenConcat(a, [x]);
    assert Flatten([x]) == x;
  }

  lemma FlushSpells(pieces: seq<seq<byte>>, run: seq<byte>)
    ensures Flatten(Flush(pieces, run)) == Flatten(pieces) + run
  {
    FlattenSnoc(pieces, run);
  }

  /** One call of the bridge's framer: the pieces and the kept bytes are the input. */
  lemma PiecesAreLossless(s: seq<byte>)
    ensures Flatten(Pieces(s)) + Residual(s) == s
    ensures Flatten(Pieces(s)) == Spelled(Items(s))
  {
    var (pieces, run) := Grouped(Items(s));
    GroupedSpells(Items(s));
    FlushSpells(pieces, run);
    ItemsSpellTheStream(s);
  }

  /** All pieces forwarded over a series of reads. */
  function FedPieces(buf: seq<byte>, chunks: seq<seq<byte>>): seq<seq<byte>>
    decreases |chunks|
  {
    if chunks == [] then [] else Pieces(buf + chunks[0]) + FedPieces(Residual(buf + chunks[0]), chunks[1..])
  }

  /** The bridge is a lossless pipe: what went out, then what it holds, is what came in. */
  lemma {:induction false} BridgeIsLossless(buf: seq<byte>, chunks: seq<seq<byte>>)
    ensures Flatten(FedPieces(buf, chunks)) + FedResidual(buf, chunks) == buf + Flatten(chunks)
    decreases |chunks|
  {
    hide Pieces, Residual;
    if chunks == [] {
      assert buf + Flatten(chunks) == buf;
    } else {
      var s := buf + chunks[0];
      PiecesAreLossless(s);
      BridgeIsLossless(Residual(s), chunks[1..]);
      var out, later := Pieces(s), FedPieces(Residual(s), chunks[1..]);
      FlattenConcat(out, later);
      Regroup(Flatten(out), Flatten(later), FedResidual(Residual(s), chunks[1..]));
      Regroup(Flatten(out), Residual(s), Flatten(chunks[1..]));
      Regroup(buf, chunks[0], Flatten(chunks[1..]));
    }
  }

  // ----- The link daemon behind the bridge sees the same frames -----

  lemma RestShrinks(s: seq<byte>, r: seq<byte>)
    requires Decide(s) != Stuck && Residual(s) == r
    ensures Residual(Rest(s)) == r && |r| <= |Rest(s)| == |s| - Consumed(Decide(s))
  {
  }

  /** Fewer than 16 bytes before the residual cannot contain a frame. */
  lemma {:induction false} NoRoomForFrame(q: seq<byte>, r: seq<byte>)
    requires |q| < HEADER_SIZE && Residual(q + r) == r
    ensures Frames(Items(q + r)) == []
    decreases |q|
  {
    hide FrameSize;
    var s := q + r;
    if q == [] {
      assert s == r;
    } else if Decide(s) != Stuck {
      RestShrinks(s, r);
      assert Rest(s) == q[1..] + r;
      NoRoomForFrame(q[1..], r);
      assert Items(s)[1..] == Items(Rest(s));
    }
  }

  lemma HeldBytesHideNoFrame(q: seq<byte>, r: seq<byte>)
    requires Decide(q) == Stuck && Residual(q + r) == r
    ensures Frames(Items(q + r)) == []
  {
    if |q| < HEADER_SIZE {
      NoRoomForFrame(q, r);
    } else {
      var s := q + r;
      assert FrameSize(s) == FrameSize(q);
      if Decide(s) != Stuck {
        RestShrinks(s, r);
      }
    }
  }

  /** Cutting off the residual loses no frame, although it may hold back the
      bytes that decided about the noise before it. */
  lemma FramesOfForwarded(s: seq<byte>)
    ensures Frames(Items(Spelled(Items(s)))) == Frames(Items(s))
  {
    hide Decide, Items, Spelled, Frames;
    var p, r := Spelled(Items(s)), Residual(s);
    ItemsSpellTheStream(s);
    ParseInTwoParts(p, r);
    HeldBytesHideNoFrame(Residual(p), r);
    FramesConcat(Items(p), Items(Residual(p) + r));
  }

  lemma BridgeOutputIsSpelled(chunks: seq<seq<byte>>)
    ensures Flatten(FedPieces([], chunks)) == Spelled(Items(Flatten(chunks)))
  {
    hide Items, Spelled, FedPieces, Residual;
    var s := Flatten(chunks);
    BridgeIsLossless([], chunks);
    EmptyIsStuck();
    ChunkingIndependence([], chunks);
    assert [] + s == s;
    ItemsSpellTheStream(s);
    var out, want, r := Flatten(FedPieces([], chunks)), Spelled(Items(s)), Residual(s);
    assert out + r == want + r;
    assert out == (out + r)[..|out|] && want == (want + r)[..|want|] && |out| == |want|;
  }

  lemma EmptyIsStuck()
    ensures Decide([]) == Stuck
  {
  }

  /** End to end: whatever the read sizes on either side, the link daemon behind
      the bridge extracts exactly the frames it would extract from the raw stream. */
  lemma BridgeTransparency(chunks: seq<seq<byte>>, rechunked: seq<seq<byte>>)
    requires Flatten(rechunked) == Flatten(FedPieces([], chunks))
    ensures Frames(FedItems([], rechunked)) == Frames(Items(Flatten(chunks)))
  {
    hide Items, Spelled, FedPieces, Frames, FedItems;
    EmptyIsStuck();
    ChunkingIndependence([], rechunked);
    BridgeOutputIsSpelled(chunks);
    FramesOfForwarded(Flatten(chunks));
    assert [] + Flatten(rechunked) == Flatten(rechunked);
  }

  // ----- How noise is cut into pieces -----

  function NoiseOf(noise: seq<byte>): (r: seq<Item>)
    ensures |r| == |noise| && forall i :: 0 <= i < |noise| ==> r[i] == Noise(noise[i])
  {
    seq(|noise|, i requires 0 <= i < |noise| => Noise(noise[i]))
  }

  lemma {:induction false} NoiseItems(noise: seq<byte>, f: seq<byte>)
    requires NoMagic(noise) && IsFrame(f)
    ensures Items(noise + f) == NoiseOf(noise) + [Frame(f)]
    decreases |noise|
  {
    hide FrameSize;
    FrameAtFront(f, []);
    assert f + [] == f;
    if noise == [] {
      assert noise + f == f;
      assert Items([]) == [];
    } else {
      var s := noise + f;
      MagicBytes(f[0], f[1]);
      MagicBytes(s[0], s[1]);
      assert |noise| > 1 ==> s[0] == noise[0] && s[1] == noise[1];
      assert |noise| == 1 ==> s[1] == f[0] == MAGIC_LO;
      assert Decide(s) == Drop && Rest(s) == noise[1..] + f;
      NoiseItems(noise[1..], f);
      assert NoiseOf(noise) == [Noise(noise[0])] + NoiseOf(noise[1..]);
    }
  }

  lemma {:induction false} NoiseGrouped(noise: seq<byte>)
    ensures Grouped(NoiseOf(noise)) == ([], noise)
    decreases |noise|
  {
    hide Grouped;
    if noise == [] {
      NothingGrouped();
    } else {
      var n := |noise| - 1;
      NoiseGrouped(noise[..n]);
      GroupedSnoc(NoiseOf(noise[..n]), Noise(noise[n]));
      assert NoiseOf(noise) == NoiseOf(noise[..n]) + [Noise(noise[n])];
      assert noise == noise[..n] + [noise[n]];
    }
  }

  /** In one read, the noise before a frame is one piece and the frame is the next: the bridge counts
      two. */
  lemma NoiseIsOnePiece(noise: seq<byte>, f: seq<byte>)
    requires NoMagic(noise) && noise != [] && IsFrame(f)
    ensures Pieces(noise + f) == [noise, f]
  {
    hide Grouped, IsFrame, Items, NoMagic;
    NoiseItems(noise, f);
    NoiseGrouped(noise);
    GroupedSnoc(NoiseOf(noise), Frame(f));
  }
}
