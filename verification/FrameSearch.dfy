/** What the shared parse finds, said of positions in the stream: always the leftmost place where a
    frame can start, one byte at a time. */
module FrameSearch {
  import opened Sequences
  import opened Crc
  import opened Wire
  import opened Framing

  /** The magic stands at i. */
  predicate MagicAt(s: seq<byte>, i: nat) {
    i + 2 <= |s| && s[i] == 0x46 && s[i + 1] == 0x53
  }

  /** The payload length a header at i announces. */
  function LengthAt(s: seq<byte>, i: nat): nat
    requires i + 16 <= |s|
  {
    s[i + 6] as nat + 256 * (s[i + 7] as nat)
  }

  /** No frame can start at i: no magic, or a header that announces more than 256 bytes. */
  predicate Passed(s: seq<byte>, i: nat) {
    i + 2 <= |s| && (!MagicAt(s, i) || (i + 16 <= |s| && LengthAt(s, i) > 256))
  }

  /** i is the first place that is not passed. */
  predicate First(s: seq<byte>, i: nat) {
    i <= |s| && !Passed(s, i) && forall j :: 0 <= j < i ==> Passed(s, j)
  }

  /** A whole frame stands at i. */
  predicate WholeAt(s: seq<byte>, i: nat) {
    MagicAt(s, i) && i + 16 <= |s| && LengthAt(s, i) <= 256 && i + 16 + LengthAt(s, i) <= |s|
  }

  /** The errors the supervisor reports on the way to i: one for each over-long header. */
  function Errors(s: seq<byte>, i: nat): seq<ParsedFrame>
    requires i <= |s|
    decreases i
  {
    if i == 0 then []
    else
      (if MagicAt(s, 0) && |s| >= 16 then [ParsedFrame(ParseHeader(s), [], BadLength)] else [])
      + Errors(s[1..], i - 1)
  }

  lemma DecideByBytes(s: seq<byte>)
    ensures Decide(s) ==
      if |s| < 2 then Stuck
      else if !MagicAt(s, 0) then Drop
      else if |s| < 16 then Stuck
      else if LengthAt(s, 0) > 256 then Reject
      else if |s| < 16 + LengthAt(s, 0) then Stuck
      else Emit(16 + LengthAt(s, 0))
  {
    if |s| >= 2 {
      MagicBytes(s[0], s[1]);
    }
    if |s| >= 16 {
      U16Value(s[6], s[7]);
    }
    hide U16;
  }

  lemma PassedTail(s: seq<byte>, j: nat)
    requires s != []
    ensures Passed(s[1..], j) <==> Passed(s, j + 1)
  {
    if j + 17 <= |s| {
      assert s[1..][j + 6] == s[j + 7] && s[1..][j + 7] == s[j + 8];
    }
  }

  /** A place that is passed costs one byte, and an error if a header stands there. */
  lemma PassOne(s: seq<byte>)
    requires Passed(s, 0)
    ensures Frames(Items(s)) == Frames(Items(s[1..])) && Residual(s) == Residual(s[1..])
    ensures Parsed(Items(s)) == Errors(s, 1) + Parsed(Items(s[1..]))
  {
    hide Decide, FrameSize, LengthAt;
    DecideByBytes(s);
    assert Rest(s) == s[1..];
    assert Items(s)[1..] == Items(s[1..]);
    NothingAdded(Errors(s, 1));
    OneError(s);
  }

  lemma OneError(s: seq<byte>)
    requires s != []
    ensures Errors(s, 1) == if MagicAt(s, 0) && |s| >= 16 then [ParsedFrame(ParseHeader(s), [], BadLength)] else []
    ensures |s| >= 16 ==> ParseHeader(s[..16]) == ParseHeader(s)
  {
    hide U16, U32;
    assert Errors(s[1..], 0) == [];
  }

  lemma {:induction false} PassAll(s: seq<byte>, i: nat)
    requires i <= |s| && forall j :: 0 <= j < i ==> Passed(s, j)
    ensures Frames(Items(s)) == Frames(Items(s[i..])) && Residual(s) == Residual(s[i..])
    ensures Parsed(Items(s)) == Errors(s, i) + Parsed(Items(s[i..]))
    decreases i
  {
    hide Items, Frames, Residual, Parsed, Passed;
    if i == 0 {
      assert s[0..] == s && [] + Parsed(Items(s)) == Parsed(Items(s));
    } else {
      PassOne(s);
      forall j | 0 <= j < i - 1
        ensures Passed(s[1..], j)
      {
        PassedTail(s, j);
      }
      PassAll(s[1..], i - 1);
      assert s[1..][i - 1..] == s[i..];
      FirstError(s, i);
      Regroup(Errors(s, 1), Errors(s[1..], i - 1), Parsed(Items(s[i..])));
    }
  }

  lemma FirstError(s: seq<byte>, i: nat)
    requires 0 < i <= |s|
    ensures Errors(s, i) == Errors(s, 1) + Errors(s[1..], i - 1)
  {
    assert Errors(s[1..], 0) == [];
    NothingAdded(if MagicAt(s, 0) && |s| >= 16 then [ParsedFrame(ParseHeader(s), [], BadLength)] else []);
    hide ParseHeader;
  }

  lemma TailAt(s: seq<byte>, i: nat)
    requires i <= |s|
    ensures MagicAt(s[i..], 0) <==> MagicAt(s, i)
    ensures i + 16 <= |s| ==> LengthAt(s[i..], 0) == LengthAt(s, i)
  {
    if i + 16 <= |s| {
      assert s[i..][6] == s[i + 6] && s[i..][7] == s[i + 7];
    }
  }

  /** The parse is leftmost: at the first place that is not passed it takes the whole frame that
      stands there and goes on behind it; if there is none, it keeps everything from there on. */
  lemma ParseIsLeftmost(s: seq<byte>, i: nat)
    requires First(s, i)
    ensures if WholeAt(s, i) then
              var end := i + 16 + LengthAt(s, i);
              var frame := s[i..end];
              && Frames(Items(s)) == [frame] + Frames(Items(s[end..]))
              && Parsed(Items(s)) == Errors(s, i) + ([ParsedFrame(ParseHeader(frame), frame[16..], Validate(frame))]
                                                     + Parsed(Items(s[end..])))
              && Residual(s) == Residual(s[end..])
            else
              Frames(Items(s)) == [] && Parsed(Items(s)) == Errors(s, i) && Residual(s) == s[i..]
  {
    hide Decide, Passed, LengthAt, Validate, ParseHeader, FrameSize, Errors, MagicAt;
    PassAll(s, i);
    TailAt(s, i);
    DecideByBytes(s[i..]);
    FirstIsNotPassed(s, i);
    var t := s[i..];
    if WholeAt(s, i) {
      var n := 16 + LengthAt(s, i);
      assert Decide(t) == Emit(n) && t[..n] == s[i..i + n] && t[n..] == s[i + n..];
      assert Items(t)[1..] == Items(t[n..]);
    } else {
      assert Decide(t) == Stuck;
      NothingAdded(Errors(s, i));
    }
  }

  lemma FirstIsNotPassed(s: seq<byte>, i: nat)
    requires First(s, i)
    ensures i + 2 <= |s| ==> MagicAt(s, i) && (i + 16 <= |s| ==> LengthAt(s, i) <= 256)
    ensures i + 2 > |s| ==> !MagicAt(s, i)
  {
    hide LengthAt;
  }

  /** There is always exactly one such place. */
  lemma FirstExists(s: seq<byte>) returns (i: nat)
    ensures First(s, i)
  {
    hide LengthAt;
    i := 0;
    while Passed(s, i)
      invariant i <= |s| && forall j :: 0 <= j < i ==> Passed(s, j)
      decreases |s| - i
    {
      i := i + 1;
    }
  }
}
