/** Fault injection on the bridge: which frames are lost, which are damaged, and how many. */
module Injection {
  import opened Arithmetic
  import opened Crc
  import opened Wire
  import opened Framing
  import opened Framers
  import opened Streams
  import opened Bridge

  datatype Config = Config(dropEvery: int, corruptEvery: int, delayMs: int, dropType: int)

  /** The type a frame carries; a piece shorter than a header counts as type 0. */
  function TypeOf(piece: seq<byte>): byte {
    if |piece| >= HEADER_SIZE then piece[3] else 0
  }

  /** The filter is cast to an unsigned byte before it is compared. */
  predicate TypeMatches(cfg: Config, piece: seq<byte>) {
    cfg.dropType < 0 || TypeOf(piece) as int == cfg.dropType % 256
  }

  /** Whether the n-th piece is dropped. */
  predicate Drops(cfg: Config, n: nat, piece: seq<byte>) {
    cfg.dropEvery > 0 && TypeMatches(cfg, piece) && n % cfg.dropEvery == 0
  }

  /** Whether the n-th piece is forwarded damaged. */
  predicate Corrupts(cfg: Config, n: nat, piece: seq<byte>) {
    !Drops(cfg, n, piece) && cfg.corruptEvery > 0 && n % cfg.corruptEvery == 0 && |piece| >= HEADER_SIZE
  }

  function Flipped(b: byte): byte {
    b ^ 0xFF
  }

  function Damaged(piece: seq<byte>): seq<byte>
    requires |piece| >= HEADER_SIZE
  {
    piece[12 := Flipped(piece[12])]
  }

  function Forwarded(cfg: Config, n: nat, piece: seq<byte>): seq<byte> {
    if Corrupts(cfg, n, piece) then Damaged(piece) else piece
  }

  class FaultInjector {
    const cfg: Config
    var frameCounter: nat

    constructor (cfg: Config)
      ensures this.cfg == cfg && frameCounter == 0
    {
      this.cfg := cfg;
      frameCounter := 0;
    }

    /** Decides about one piece and damages it in place where the plan says so. */
    method Process(frame: array<byte>) returns (forward: bool, delayMs: int)
      modifies this`frameCounter, frame
      ensures frameCounter == old(frameCounter) + 1
      ensures forward == !Drops(cfg, frameCounter, old(frame[..]))
      ensures frame[..] == Forwarded(cfg, frameCounter, old(frame[..]))
      ensures delayMs == if forward && cfg.delayMs > 0 then cfg.delayMs else 0
    {
      ghost var before := frame[..];
      delayMs := 0;
      frameCounter := frameCounter + 1;
      var kind: byte := if frame.Length >= HEADER_SIZE then frame[3] else 0;
      var typeMatch := cfg.dropType < 0 || kind as int == cfg.dropType % 256;
      if cfg.dropEvery > 0 && typeMatch && frameCounter % cfg.dropEvery == 0 {
        return false, 0;
      }
      if cfg.corruptEvery > 0 && frameCounter % cfg.corruptEvery == 0 && frame.Length >= HEADER_SIZE {
        frame[12] := Flipped(frame[12]);
        assert frame[..] == Damaged(before);
      }
      if cfg.delayMs > 0 {
        delayMs := cfg.delayMs;
      }
      forward := true;
    }
  }

  /** With a type filter, dropped are exactly the pieces at the period whose byte 3 is the filter, cut to
      a byte; a piece shorter than a header counts as type 0. Without one, all pieces at the period. */
  lemma DropsByType(cfg: Config, n: nat, piece: seq<byte>)
    requires cfg.dropEvery > 0
    ensures cfg.dropType < 0 ==> (Drops(cfg, n, piece) <==> n % cfg.dropEvery == 0)
    ensures cfg.dropType >= 0 ==>
      (Drops(cfg, n, piece) <==>
         n % cfg.dropEvery == 0 && cfg.dropType % 256 == if |piece| >= 16 then piece[3] as int else 0)
  {
  }

  /** Damage is one byte, the lowest of the checksum field, with all its bits turned over. */
  lemma DamageIsOneByte(piece: seq<byte>)
    requires |piece| >= 16
    ensures var g := Damaged(piece);
      |g| == |piece| && g[12] == !piece[12] && forall i :: 0 <= i < |piece| && i != 12 ==> g[i] == piece[i]
  {
  }

  // ----- A numbered series of pieces -----

  /** A piece with its number in the injector's one count. */
  datatype Numbered = Numbered(n: nat, piece: seq<byte>)

  /** What becomes of one piece. */
  function Sent(cfg: Config, p: Numbered): seq<seq<byte>> {
    if Drops(cfg, p.n, p.piece) then [] else [Forwarded(cfg, p.n, p.piece)]
  }

  /** What the bridge sends on for the pieces. */
  function Injected(cfg: Config, ps: seq<Numbered>): seq<seq<byte>>
    decreases |ps|
  {
    if ps == [] then [] else Injected(cfg, ps[..|ps| - 1]) + Sent(cfg, ps[|ps| - 1])
  }

  function Plain(ps: seq<Numbered>): (r: seq<seq<byte>>)
    ensures |r| == |ps| && forall i :: 0 <= i < |ps| ==> r[i] == ps[i].piece
  {
    seq(|ps|, i requires 0 <= i < |ps| => ps[i].piece)
  }

  lemma FlippedField(a: byte, b: byte, c: byte, d: byte)
    ensures U32(Flipped(a), b, c, d) != U32(a, b, c, d)
  {
  }

  /** The checksum does not depend on its own field. */
  lemma SameChecksum(h: Header, field: bv32, payload: seq<byte>)
    ensures Checksum(h.(checksum := field), payload) == Checksum(h, payload)
  {
    hide CrcStep, HeaderBytes;
    assert h.(checksum := field).(checksum := 0) == h.(checksum := 0);
  }

  /** Damage leaves the frame's borders intact and is always caught. */
  lemma DamageIsCaught(f: seq<byte>)
    requires IsFrame(f) && Validate(f) == Ok
    ensures IsFrame(Damaged(f)) && Validate(Damaged(f)) == BadChecksum
  {
    hide Checksum, ParseHeader, Damaged, FrameSize, U16, U32;
    var g, h := Damaged(f), ParseHeader(f);
    DamagedHeader(f);
    FrameSizeIsAnnounced(f);
    SameChecksum(h, ParseHeader(g).checksum, f[HEADER_SIZE..]);
    assert f[HEADER_SIZE..FrameSize(f)] == f[HEADER_SIZE..] && g[HEADER_SIZE..FrameSize(g)] == g[HEADER_SIZE..];
  }

  lemma DamagedHeader(f: seq<byte>)
    requires |f| >= HEADER_SIZE
    ensures var g := Damaged(f);
      && |g| == |f| && g[0] == f[0] && g[1] == f[1] && g[HEADER_SIZE..] == f[HEADER_SIZE..]
      && FrameSize(g) == FrameSize(f)
      && ParseHeader(g) == ParseHeader(f).(checksum := ParseHeader(g).checksum)
      && ParseHeader(g).checksum != ParseHeader(f).checksum
  {
    hide U16, U32, Flipped;
    FlippedField(f[12], f[13], f[14], f[15]);
  }

  predicate AllValid(fs: seq<seq<byte>>) {
    forall i :: 0 <= i < |fs| ==> IsFrame(fs[i]) && Validate(fs[i]) == Ok
  }

  lemma ForwardedIsFrame(cfg: Config, n: nat, f: seq<byte>)
    requires IsFrame(f) && Validate(f) == Ok
    ensures IsFrame(Forwarded(cfg, n, f))
    ensures Validate(Forwarded(cfg, n, f)) == if Corrupts(cfg, n, f) then BadChecksum else Ok
  {
    hide Validate;
    DamageIsCaught(f);
  }

  lemma {:induction false} InjectedAreFrames(cfg: Config, ps: seq<Numbered>)
    requires AllValid(Plain(ps))
    ensures AllFrames(Injected(cfg, ps))
    decreases |ps|
  {
    hide Validate, IsFrame, Forwarded, Drops;
    if ps == [] {
    } else {
      var m := |ps| - 1;
      assert Plain(ps)[m] == ps[m].piece && Plain(ps[..m]) == Plain(ps)[..m];
      ForwardedIsFrame(cfg, ps[m].n, ps[m].piece);
      InjectedAreFrames(cfg, ps[..m]);
    }
  }

  lemma {:induction false} GroupedFrames(items: seq<Item>)
    requires forall i :: 0 <= i < |items| ==> items[i].Frame?
    ensures Grouped(items) == (Frames(items), [])
    decreases |items|
  {
    if items == [] {
    } else {
      var m := |items| - 1;
      GroupedFrames(items[..m]);
      FramesSnoc(items[..m], items[m]);
      assert items == items[..m] + [items[m]];
    }
  }

  lemma PiecesOfOneRead(s: seq<byte>)
    requires forall i :: 0 <= i < |Items(s)| ==> Items(s)[i].Frame?
    ensures Pieces(s) == Frames(Items(s))
  {
    hide Items, Grouped, Frames;
    GroupedFrames(Items(s));
  }

  /** When the stream holds frames only, the bridge's pieces are the frames,
      wherever the reads cut the stream. */
  lemma {:induction false} PiecesOfFrames(buf: seq<byte>, chunks: seq<seq<byte>>)
    requires forall i :: 0 <= i < |FedItems(buf, chunks)| ==> FedItems(buf, chunks)[i].Frame?
    ensures FedPieces(buf, chunks) == Frames(FedItems(buf, chunks))
    decreases |chunks|
  {
    hide Items, Residual, Pieces, Frames;
    if chunks == [] {
      NothingParsed();
    } else {
      var s := buf + chunks[0];
      var here, later := Items(s), FedItems(Residual(s), chunks[1..]);
      var all := FedItems(buf, chunks);
      assert all == here + later;
      assert forall i :: 0 <= i < |here| ==> here[i] == all[i];
      assert forall i :: 0 <= i < |later| ==> later[i] == all[|here| + i];
      PiecesOfOneRead(s);
      PiecesOfFrames(Residual(s), chunks[1..]);
      FramesConcat(here, later);
    }
  }

  // ----- Which frame each one is -----

  /** The indices of the pieces that are not dropped, in order. */
  function Kept(cfg: Config, ps: seq<Numbered>): seq<nat>
    decreases |ps|
  {
    if ps == [] then []
    else
      var m := |ps| - 1;
      Kept(cfg, ps[..m]) + if Drops(cfg, ps[m].n, ps[m].piece) then [] else [m]
  }

  /** The kept pieces are exactly those the plan does not drop. */
  lemma {:induction false} KeptAreUndropped(cfg: Config, ps: seq<Numbered>)
    ensures forall j :: 0 <= j < |Kept(cfg, ps)| ==>
              var k := Kept(cfg, ps)[j]; k < |ps| && !Drops(cfg, ps[k].n, ps[k].piece)
    ensures forall i, j :: 0 <= i < j < |Kept(cfg, ps)| ==> Kept(cfg, ps)[i] < Kept(cfg, ps)[j]
    ensures forall k :: 0 <= k < |ps| && !Drops(cfg, ps[k].n, ps[k].piece) ==> k in Kept(cfg, ps)
    decreases |ps|
  {
    hide Drops;
    if ps == [] {
    } else {
      KeptAreUndropped(cfg, ps[..|ps| - 1]);
    }
  }

  /** What goes out is what the injector makes of the kept pieces. */
  lemma {:induction false} InjectedIsKept(cfg: Config, ps: seq<Numbered>)
    ensures |Injected(cfg, ps)| == |Kept(cfg, ps)|
    ensures forall j :: 0 <= j < |Kept(cfg, ps)| ==>
              var k := Kept(cfg, ps)[j];
              k < |ps| && Injected(cfg, ps)[j] == Forwarded(cfg, ps[k].n, ps[k].piece)
    decreases |ps|
  {
    hide Drops, Forwarded;
    if ps == [] {
    } else {
      InjectedIsKept(cfg, ps[..|ps| - 1]);
    }
  }

  /** Every forwarded frame is a kept one, unchanged and valid or damaged and
      caught; the kept ones are exactly those the plan does not drop. */
  lemma InjectedVerdicts(cfg: Config, ps: seq<Numbered>)
    requires AllValid(Plain(ps))
    ensures |Injected(cfg, ps)| == |Kept(cfg, ps)|
    ensures forall j :: 0 <= j < |Kept(cfg, ps)| ==>
              var k := Kept(cfg, ps)[j];
              && k < |ps| && !Drops(cfg, ps[k].n, ps[k].piece)
              && Injected(cfg, ps)[j] == Forwarded(cfg, ps[k].n, ps[k].piece)
              && Validate(Injected(cfg, ps)[j]) == if Corrupts(cfg, ps[k].n, ps[k].piece) then BadChecksum else Ok
    ensures forall i, j :: 0 <= i < j < |Kept(cfg, ps)| ==> Kept(cfg, ps)[i] < Kept(cfg, ps)[j]
    ensures forall k :: 0 <= k < |ps| && !Drops(cfg, ps[k].n, ps[k].piece) ==> k in Kept(cfg, ps)
  {
    hide Validate, IsFrame, Drops, Corrupts, Forwarded, Injected, Kept;
    KeptAreUndropped(cfg, ps);
    InjectedIsKept(cfg, ps);
    forall j | 0 <= j < |Kept(cfg, ps)|
      ensures var p := ps[Kept(cfg, ps)[j]];
        Validate(Injected(cfg, ps)[j]) == if Corrupts(cfg, p.n, p.piece) then BadChecksum else Ok
    {
      var p := ps[Kept(cfg, ps)[j]];
      assert Plain(ps)[Kept(cfg, ps)[j]] == p.piece;
      ForwardedIsFrame(cfg, p.n, p.piece);
    }
  }

  // ----- How many -----

  /** The number of frames that do not validate. */
  function Caught(fs: seq<seq<byte>>): nat
    decreases |fs|
  {
    if fs == [] then 0 else Caught(fs[..|fs| - 1]) + if Validate(fs[|fs| - 1]) == Ok then 0 else 1
  }

  function DropCount(cfg: Config, ps: seq<Numbered>): nat
    decreases |ps|
  {
    if ps == [] then 0
    else
      var last := ps[|ps| - 1];
      DropCount(cfg, ps[..|ps| - 1]) + if Drops(cfg, last.n, last.piece) then 1 else 0
  }

  function CorruptCount(cfg: Config, ps: seq<Numbered>): nat
    decreases |ps|
  {
    if ps == [] then 0
    else
      var last := ps[|ps| - 1];
      CorruptCount(cfg, ps[..|ps| - 1]) + if Corrupts(cfg, last.n, last.piece) then 1 else 0
  }

  /** How many of the pieces stand at the period and carry type t. */
  function AtPeriod(d: int, t: int, ps: seq<Numbered>): nat
    requires d > 0
    decreases |ps|
  {
    if ps == [] then 0
    else
      var last := ps[|ps| - 1];
      var kind := if |last.piece| >= 16 then last.piece[3] as int else 0;
      AtPeriod(d, t, ps[..|ps| - 1]) + if last.n % d == 0 && kind == t then 1 else 0
  }

  /** With a filter, the drops are the pieces of that type at the period. */
  lemma {:induction false} FilteredDrops(cfg: Config, ps: seq<Numbered>)
    requires cfg.dropEvery > 0 && cfg.dropType >= 0
    ensures DropCount(cfg, ps) == AtPeriod(cfg.dropEvery, cfg.dropType % 256, ps)
    decreases |ps|
  {
    hide Drops;
    if ps == [] {
    } else {
      var last := ps[|ps| - 1];
      DropsByType(cfg, last.n, last.piece);
      FilteredDrops(cfg, ps[..|ps| - 1]);
    }
  }

  /** Counting on the receiving side: what is missing was dropped and what
      fails validation was damaged. */
  lemma {:induction false} CountedBehind(cfg: Config, ps: seq<Numbered>)
    requires AllValid(Plain(ps))
    ensures |Injected(cfg, ps)| == |ps| - DropCount(cfg, ps)
    ensures Caught(Injected(cfg, ps)) == CorruptCount(cfg, ps)
    decreases |ps|
  {
    hide Validate, IsFrame, Drops, Corrupts, Forwarded, Caught;
    if ps == [] {
      NothingCaught();
    } else {
      var m := |ps| - 1;
      var last := ps[m];
      assert Plain(ps)[m] == last.piece && Plain(ps[..m]) == Plain(ps)[..m];
      CountedBehind(cfg, ps[..m]);
      ForwardedIsFrame(cfg, last.n, last.piece);
      DroppedIsUndamaged(cfg, last);
      if Drops(cfg, last.n, last.piece) {
        assert Injected(cfg, ps) == Injected(cfg, ps[..m]);
      } else {
        CaughtSnoc(Injected(cfg, ps[..m]), Forwarded(cfg, last.n, last.piece));
      }
    }
  }

  lemma DroppedIsUndamaged(cfg: Config, p: Numbered)
    ensures Drops(cfg, p.n, p.piece) ==> !Corrupts(cfg, p.n, p.piece)
  {
  }

  lemma NothingCaught()
    ensures Caught([]) == 0
  {
  }

  lemma CaughtSnoc(fs: seq<seq<byte>>, f: seq<byte>)
    ensures Caught(fs + [f]) == Caught(fs) + if Validate(f) == Ok then 0 else 1
  {
    hide Validate;
    assert (fs + [f])[..|fs|] == fs;
  }

  /** What the n-th frame of the count adds, with no type filter. */
  lemma LastFrameCounts(cfg: Config, n: nat, f: seq<byte>, l: int)
    requires n > 0 && cfg.dropType < 0 && cfg.dropEvery > 0 && cfg.corruptEvery > 0
    requires IsLcm(l, cfg.corruptEvery, cfg.dropEvery)
    ensures Multiples(n, cfg.dropEvery) == Multiples(n - 1, cfg.dropEvery) + if Drops(cfg, n, f) then 1 else 0
    ensures |f| >= HEADER_SIZE ==>
      Multiples(n, cfg.corruptEvery) - Multiples(n, l) ==
      Multiples(n - 1, cfg.corruptEvery) - Multiples(n - 1, l) + if Corrupts(cfg, n, f) then 1 else 0
  {
    hide Multiples;
    MultiplesStep(n, cfg.dropEvery);
    MultiplesStep(n, cfg.corruptEvery);
    MultiplesStep(n, l);
    CommonMultiplesOfLcm(n, l, cfg.corruptEvery, cfg.dropEvery);
  }
}
