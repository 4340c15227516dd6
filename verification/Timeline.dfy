/** The driver's ring of recent events, and the plain log it stands for. */
module Timeline {
  import Arithmetic

  const DEPTH: nat := 64

  datatype Kind = FrameRx | FrameDrop | Heartbeat | TimedOut | Recovery | FaultInject

  datatype Entry = Entry(ts: nat, kind: Kind, seqId: bv16)

  datatype Ring = Ring(slots: seq<Entry>, head: nat, filled: nat)

  function Place(k: nat): (p: nat)
    ensures p < DEPTH
  {
    k % DEPTH
  }

  predicate Shaped(r: Ring) {
    |r.slots| == DEPTH && r.head < DEPTH && r.filled <= DEPTH
  }

  function Record(r: Ring, e: Entry): (r': Ring)
    requires Shaped(r)
    ensures Shaped(r')
  {
    Ring(r.slots[r.head := e], Place(r.head + 1), if r.filled < DEPTH then r.filled + 1 else r.filled)
  }

  function Reset(r: Ring): Ring {
    r.(head := 0, filled := 0)
  }

  /** Where the oldest entry is. */
  function Start(r: Ring): nat {
    if r.filled < DEPTH then 0 else r.head
  }

  /** The order in which the ring is read out. */
  function Shown(r: Ring): (s: seq<Entry>)
    requires Shaped(r)
    ensures |s| == r.filled && forall i :: 0 <= i < r.filled ==> s[i] == r.slots[Place(Start(r) + i)]
  {
    seq(r.filled, i requires 0 <= i < r.filled => r.slots[Place(Start(r) + i)])
  }

  class TimelineBuffer {
    const slots: array<Entry>
    var head: nat
    var filled: nat

    constructor ()
      ensures fresh(slots) && slots.Length == DEPTH && head == 0 && filled == 0
    {
      slots := new Entry[DEPTH](_ => Entry(0, FrameRx, 0));
      head, filled := 0, 0;
    }

    ghost predicate Valid()
      reads this
    {
      slots.Length == DEPTH && head < DEPTH && filled <= DEPTH
    }

    ghost function View(): Ring
      reads this, slots
    {
      Ring(slots[..], head, filled)
    }

    method RecordEvent(ts: nat, kind: Kind, seqId: bv16)
      requires Valid()
      modifies this, slots
      ensures Valid() && View() == Record(old(View()), Entry(ts, kind, seqId))
    {
      slots[head] := Entry(ts, kind, seqId);
      head := Place(head + 1);
      if filled < DEPTH {
        filled := filled + 1;
      }
    }

    /** Prints from oldest to newest. */
    method Show() returns (lines: seq<Entry>)
      requires Valid()
      ensures lines == Shown(View())
    {
      lines := [];
      if filled == 0 {
        return;
      }
      var start := if filled < DEPTH then 0 else head;
      for i := 0 to filled
        invariant |lines| == i
        invariant forall k :: 0 <= k < i ==> lines[k] == slots[Place(start + k)]
      {
        lines := lines + [slots[Place(start + i)]];
      }
    }
  }

  // ----- The ring stands for a log -----

  datatype Operation = Log(e: Entry) | Clear

  function Perform(r: Ring, op: Operation): (r': Ring)
    requires Shaped(r)
    ensures Shaped(r')
  {
    match op
    case Log(e) => Record(r, e)
    case Clear => Reset(r)
  }

  function PerformAll(r: Ring, ops: seq<Operation>): (r': Ring)
    requires Shaped(r)
    ensures Shaped(r')
    decreases |ops|
  {
    if ops == [] then r else PerformAll(Perform(r, ops[0]), ops[1..])
  }

  /** The log since the last reset. */
  function Logged(log: seq<Entry>, ops: seq<Operation>): seq<Entry>
    decreases |ops|
  {
    if ops == [] then log else Logged(LoggedBy(log, ops[0]), ops[1..])
  }

  function LoggedBy(log: seq<Entry>, op: Operation): seq<Entry> {
    match op
    case Log(e) => log + [e]
    case Clear => []
  }

  function Latest(log: seq<Entry>): seq<Entry> {
    if |log| <= DEPTH then log else log[|log| - DEPTH..]
  }

  predicate Represents(r: Ring, log: seq<Entry>) {
    && Shaped(r)
    && r.head == Place(|log|)
    && r.filled == |Latest(log)|
    && forall k :: |log| - r.filled <= k < |log| ==> r.slots[Place(k)] == log[k]
  }

  lemma NextPlace(n: nat)
    ensures Place(n + 1) == Place(Place(n) + 1)
  {
    var q, r := n / DEPTH, n % DEPTH;
    if r == DEPTH - 1 {
      Arithmetic.QuotientUnique(n + 1, DEPTH, q + 1, 0);
    } else {
      Arithmetic.QuotientUnique(n + 1, DEPTH, q, r + 1);
    }
  }

  lemma DifferentPlaces(k: nat, n: nat)
    requires k < n < k + DEPTH
    ensures Place(k) != Place(n)
  {
  }

  lemma RecordKeeps(r: Ring, log: seq<Entry>, e: Entry)
    requires Represents(r, log)
    ensures Represents(Record(r, e), log + [e])
  {
    hide Place, Latest;
    var r', log' := Record(r, e), log + [e];
    NextPlace(|log|);
    LatestGrows(log, e);
    forall k | |log'| - r'.filled <= k < |log'|
      ensures r'.slots[Place(k)] == log'[k]
    {
      SlotAfterRecord(r, log, e, k);
    }
  }

  lemma LatestGrows(log: seq<Entry>, e: Entry)
    ensures |Latest(log)| <= DEPTH && |Latest(log)| <= |log|
    ensures |Latest(log + [e])| == if |Latest(log)| < DEPTH then |Latest(log)| + 1 else DEPTH
  {
  }

  lemma SlotAfterRecord(r: Ring, log: seq<Entry>, e: Entry, k: nat)
    requires Represents(r, log) && |log| - r.filled <= k <= |log| && |log| - DEPTH < k
    ensures Record(r, e).slots[Place(k)] == if k == |log| then e else log[k]
  {
    hide Place, Latest;
    if k < |log| {
      DifferentPlaces(k, |log|);
    }
  }

  lemma ResetKeeps(r: Ring, log: seq<Entry>)
    requires Represents(r, log)
    ensures Represents(Reset(r), [])
  {
  }

  lemma ReadPlace(n: nat, filled: nat, i: nat)
    requires i < filled <= n && (filled < DEPTH ==> filled == n) && filled <= DEPTH
    ensures Place(n - filled + i) == Place((if filled < DEPTH then 0 else Place(n)) + i)
  {
  }

  /** The read-out of a ring shows the last 64 events of its log, or all if there
      were fewer, oldest first. */
  lemma ShowsLatest(r: Ring, log: seq<Entry>)
    requires Represents(r, log)
    ensures Shown(r) == Latest(log)
  {
    forall i | 0 <= i < r.filled
      ensures Shown(r)[i] == Latest(log)[i]
    {
      ShownAt(r, log, i);
    }
    hide Place, Represents;
  }

  lemma LatestAt(log: seq<Entry>, i: nat)
    requires i < |Latest(log)|
    ensures |Latest(log)| <= |log| && Latest(log)[i] == log[|log| - |Latest(log)| + i]
  {
  }

  lemma Filled(r: Ring, log: seq<Entry>)
    requires Represents(r, log)
    ensures r.head == Place(|log|) && r.filled == |Latest(log)| <= |log|
    ensures r.filled <= DEPTH && (r.filled < DEPTH ==> r.filled == |log|)
  {
    hide Place;
  }

  lemma SlotHolds(r: Ring, log: seq<Entry>, k: nat)
    requires Represents(r, log) && |log| - r.filled <= k < |log|
    ensures r.slots[Place(k)] == log[k]
  {
    hide Place;
  }

  lemma ShownAt(r: Ring, log: seq<Entry>, i: nat)
    requires Represents(r, log) && i < r.filled
    ensures i < |Latest(log)| && Shown(r)[i] == Latest(log)[i]
  {
    hide Place, Latest, Represents;
    Filled(r, log);
    LatestAt(log, i);
    SlotHolds(r, log, |log| - r.filled + i);
    ReadPlace(|log|, r.filled, i);
  }

  /** Whatever is recorded, and however often it is reset, the ring stands for the log since
      the last reset. */
  lemma {:induction false} RingRefinesLog(r: Ring, log: seq<Entry>, ops: seq<Operation>)
    requires Represents(r, log)
    ensures Represents(PerformAll(r, ops), Logged(log, ops))
    ensures Shown(PerformAll(r, ops)) == Latest(Logged(log, ops))
    decreases |ops|
  {
    hide Shown;
    if ops == [] {
      ShowsLatest(r, log);
    } else {
      if ops[0].Log? {
        RecordKeeps(r, log, ops[0].e);
      }
      RingRefinesLog(Perform(r, ops[0]), LoggedBy(log, ops[0]), ops[1..]);
    }
  }

  /** What the read-out shows, in numbers: of n events since the last reset the last 64, or all n. */
  lemma ShowsAtMost64(r: Ring, log: seq<Entry>, ops: seq<Operation>)
    requires Represents(r, log)
    ensures var n, shown := |Logged(log, ops)|, Shown(PerformAll(r, ops));
      && |shown| == (if n < 64 then n else 64)
      && forall i :: 0 <= i < |shown| ==> shown[i] == Logged(log, ops)[n - |shown| + i]
  {
    hide Shown, Represents, PerformAll, Logged, Place, Latest;
    RingRefinesLog(r, log, ops);
    LatestIs(Logged(log, ops));
  }

  lemma LatestIs(log: seq<Entry>)
    ensures |Latest(log)| == if |log| < 64 then |log| else 64
    ensures forall i :: 0 <= i < |Latest(log)| ==> Latest(log)[i] == log[|log| - |Latest(log)| + i]
  {
  }
}
