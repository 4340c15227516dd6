/** The tracer's latency histograms: logarithmic buckets kept per CPU, merged, and
    read out as percentiles. */
module Histogram {
  import opened Arithmetic

  const SLOTS: nat := 64
  const WORD64: nat := 0x1_0000_0000_0000_0000

  // ----- The bucket of a sample -----

  function Log2(v: nat): nat {
    if v < 2 then 0 else 1 + Log2(v / 2)
  }

  /** A sample's bucket is the place of its highest bit. */
  lemma {:induction false} Log2Bounds(v: nat)
    ensures v < Pow2(Log2(v) + 1)
    ensures v > 0 ==> Pow2(Log2(v)) <= v
  {
    if v >= 2 {
      Log2Bounds(v / 2);
    } else {
      assert Pow2(1) == 2;
    }
  }

  /** The bucket is at most s exactly when the sample is below 2^(s+1). */
  lemma {:induction false} Log2AtMost(v: nat, s: nat)
    ensures Log2(v) <= s <==> v < Pow2(s + 1)
  {
    if v < 2 {
      Pow2Monotone(1, s + 1);
      assert Pow2(1) == 2;
    } else if s == 0 {
      assert Pow2(1) == 2;
    } else {
      Log2AtMost(v / 2, s - 1);
    }
  }

  lemma {:induction false} Log2Shifted(v: nat, k: nat)
    requires v >= Pow2(k)
    ensures Log2(v) == k + Log2(v / Pow2(k))
  {
    if k == 0 {
    } else {
      assert Pow2(k) == 2 * Pow2(k - 1);
      assert v >= 2;
      Log2Shifted(v / 2, k - 1);
      DivDiv(v, Pow2(k - 1));
    }
  }

  lemma Powers()
    ensures Pow2(1) == 2 && Pow2(2) == 4 && Pow2(4) == 0x10 && Pow2(8) == 0x100
    ensures Pow2(16) == 0x1_0000 && Pow2(32) == 0x1_0000_0000
    ensures Pow2(63) == 0x8000_0000_0000_0000 && Pow2(64) == WORD64
  {
    assert Pow2(4) == 0x10;
    assert Pow2(8) == 0x100;
    assert Pow2(12) == 0x1000;
    assert Pow2(16) == 0x1_0000;
    assert Pow2(20) == 0x10_0000;
    assert Pow2(24) == 0x100_0000;
    assert Pow2(28) == 0x1000_0000;
    assert Pow2(32) == 0x1_0000_0000;
    assert Pow2(36) == 0x10_0000_0000;
    assert Pow2(40) == 0x100_0000_0000;
    assert Pow2(44) == 0x1000_0000_0000;
    assert Pow2(48) == 0x1_0000_0000_0000;
    assert Pow2(52) == 0x10_0000_0000_0000;
    assert Pow2(56) == 0x100_0000_0000_0000;
    assert Pow2(60) == 0x1000_0000_0000_0000;
  }

  lemma {:induction false} ShiftedBound(v: nat, a: nat, b: nat)
    requires v < Pow2(a + b)
    ensures v / Pow2(a) < Pow2(b)
  {
    if a == 0 {
    } else {
      assert Pow2(a + b) == 2 * Pow2(a - 1 + b);
      ShiftedBound(v / 2, a - 1, b);
      DivDiv(v, Pow2(a - 1));
    }
  }

  /** One test of the search: with the high half occupied, look there and count k. */
  method Halve(v: nat, r: nat, k: nat, ghost value: nat) returns (v': nat, r': nat)
    requires v < Pow2(k + k) && r + Log2(v) == Log2(value)
    ensures v' < Pow2(k) && r' + Log2(v') == Log2(value)
  {
    hide Pow2, Log2;
    v', r' := v, r;
    if v >= Pow2(k) {
      Log2Shifted(v, k);
      ShiftedBound(v, k, k);
      v', r' := v / Pow2(k), r + k;
    }
  }

  /** The bucket by successive halvings of the range, as the probe computes it. */
  method FastLog2(value: nat) returns (r: nat)
    requires value < WORD64
    ensures r == Log2(value) && r < SLOTS
  {
    Powers();
    Log2AtMost(value, 63);
    var v: nat := value;
    r := 0;
    v, r := Halve(v, r, 32, value);
    v, r := Halve(v, r, 16, value);
    v, r := Halve(v, r, 8, value);
    v, r := Halve(v, r, 4, value);
    v, r := Halve(v, r, 2, value);
    v, r := Halve(v, r, 1, value);
    assert v < 2;
  }

  // ----- What a histogram stands for -----

  datatype Hist = Hist(slots: seq<nat>, count: nat, sum: nat, min: nat, max: nat)

  function InSlot(xs: seq<nat>, s: nat): nat
    decreases |xs|
  {
    if xs == [] then 0 else InSlot(xs[..|xs| - 1], s) + if Log2(xs[|xs| - 1]) == s then 1 else 0
  }

  function Sum(xs: seq<nat>): nat
    decreases |xs|
  {
    if xs == [] then 0 else Sum(xs[..|xs| - 1]) + xs[|xs| - 1]
  }

  /** The smallest sample; 0 if there is none. */
  function Min(xs: seq<nat>): nat
    decreases |xs|
  {
    if xs == [] then 0
    else
      var n := |xs| - 1;
      if n == 0 || xs[n] < Min(xs[..n]) then xs[n] else Min(xs[..n])
  }

  function Max(xs: seq<nat>): nat
    decreases |xs|
  {
    if xs == [] then 0
    else
      var n := |xs| - 1;
      if xs[n] > Max(xs[..n]) then xs[n] else Max(xs[..n])
  }

  /** Samples a 64-bit histogram can hold without its counters wrapping. */
  predicate Countable(xs: seq<nat>) {
    |xs| < WORD64 && forall i :: 0 <= i < |xs| ==> xs[i] < WORD64
  }

  /** The histogram of a list of samples: exact buckets, count, minimum and maximum, and the sum
      modulo 2^64. */
  function Of(xs: seq<nat>): (h: Hist)
    ensures |h.slots| == SLOTS
  {
    Hist(SlotsOf(xs), |xs|, Wrap(Sum(xs)), Min(xs), Max(xs))
  }

  function Zeros(n: nat): (r: seq<nat>)
    ensures |r| == n && forall i :: 0 <= i < n ==> r[i] == 0
  {
    if n == 0 then [] else Zeros(n - 1) + [0]
  }

  function Empty(): Hist {
    Hist(Zeros(SLOTS), 0, 0, 0, 0)
  }

  lemma EmptyIsOfNothing()
    ensures Empty() == Of([])
  {
    hide Zeros;
    assert Empty().slots == Of([]).slots;
  }

  // ----- Recording -----

  function Wrap(n: nat): nat { n % WORD64 }

  function Recorded(h: Hist, delta: nat): Hist
    requires |h.slots| == SLOTS && Log2(delta) < SLOTS
  {
    var slot, count := Log2(delta), Wrap(h.count + 1);
    Hist(h.slots[slot := Wrap(h.slots[slot] + 1)], count, Wrap(h.sum + delta),
         if count == 1 || delta < h.min then delta else h.min,
         if delta > h.max then delta else h.max)
  }

  class Recorder {
    const slots: array<nat>
    var count: nat
    var sum: nat
    var min: nat
    var max: nat

    constructor ()
      ensures fresh(slots) && slots.Length == SLOTS && View() == Empty()
    {
      slots := new nat[SLOTS](_ => 0);
      count, sum, min, max := 0, 0, 0, 0;
      new;
      hide Zeros;
      assert slots[..] == Empty().slots;
    }

    ghost function View(): Hist
      reads this, slots
    {
      Hist(slots[..], count, sum, min, max)
    }

    method Record(delta: nat)
      requires slots.Length == SLOTS && delta < WORD64
      modifies this, slots
      ensures Log2(delta) < SLOTS && View() == Recorded(old(View()), delta)
    {
      hide Log2, Wrap;
      var slot := FastLog2(delta);
      if slot >= SLOTS {
        slot := SLOTS - 1;
      }
      slots[slot] := Wrap(slots[slot] + 1);
      count := Wrap(count + 1);
      sum := Wrap(sum + delta);
      if count == 1 || delta < min {
        min := delta;
      }
      if delta > max {
        max := delta;
      }
    }
  }

  lemma {:induction false} InSlotBound(xs: seq<nat>, s: nat)
    ensures InSlot(xs, s) <= |xs|
    decreases |xs|
  {
    if xs == [] {
    } else {
      InSlotBound(xs[..|xs| - 1], s);
    }
  }

  lemma Snoc(xs: seq<nat>, x: nat)
    ensures forall s :: InSlot(xs + [x], s) == InSlot(xs, s) + if Log2(x) == s then 1 else 0
    ensures Sum(xs + [x]) == Sum(xs) + x
    ensures Min(xs + [x]) == if xs == [] || x < Min(xs) then x else Min(xs)
    ensures Max(xs + [x]) == if x > Max(xs) then x else Max(xs)
  {
    assert (xs + [x])[..|xs|] == xs;
  }

  lemma NoWrap(n: nat)
    requires n < WORD64
    ensures Wrap(n) == n
  {
  }

  lemma WrapSum(a: nat, b: nat)
    ensures Wrap(Wrap(a) + b) == Wrap(a + b)
    ensures Wrap(Wrap(a) + Wrap(b)) == Wrap(a + b)
  {
    WrapRight(a, b);
    WrapRight(b, Wrap(a));
  }

  lemma WrapRight(a: nat, b: nat)
    ensures Wrap(Wrap(a) + b) == Wrap(a + b)
  {
    var q, r := a / WORD64, a % WORD64;
    var q', r' := (r + b) / WORD64, (r + b) % WORD64;
    QuotientUnique(a + b, WORD64, q + q', r');
  }

  lemma SlotInRange(x: nat)
    requires x < WORD64
    ensures Log2(x) < SLOTS
  {
    Powers();
    Log2AtMost(x, 63);
  }

  function SlotsOf(xs: seq<nat>): (r: seq<nat>)
    ensures |r| == SLOTS && forall s :: 0 <= s < SLOTS ==> r[s] == InSlot(xs, s)
  {
    seq(SLOTS, s requires 0 <= s < SLOTS => InSlot(xs, s))
  }

  lemma SlotsSnoc(xs: seq<nat>, x: nat, slot: nat)
    requires slot == Log2(x) < SLOTS && |xs| + 1 < WORD64
    ensures SlotsOf(xs + [x]) == SlotsOf(xs)[slot := Wrap(SlotsOf(xs)[slot] + 1)]
  {
    Snoc(xs, x);
    InSlotBound(xs, slot);
    NoWrap(InSlot(xs, slot) + 1);
    hide Log2, Wrap, InSlot, Sum, Min, Max;
  }

  /** Recording a sample in the histogram of a list gives the histogram of the longer list. */
  lemma RecordedOf(xs: seq<nat>, x: nat)
    requires Countable(xs + [x])
    ensures Log2(x) < SLOTS && Recorded(Of(xs), x) == Of(xs + [x])
  {
    assert x == (xs + [x])[|xs|];
    SlotInRange(x);
    hide Of, Recorded, Log2, Countable;
    RecordedStep(xs, x, Log2(x));
  }

  lemma RecordedStep(xs: seq<nat>, x: nat, slot: nat)
    requires slot == Log2(x) < SLOTS && |xs| + 1 < WORD64
    ensures Recorded(Of(xs), x) == Of(xs + [x])
  {
    hide Log2, Wrap, Sum, Min, Max, SlotsOf;
    SlotsSnoc(xs, x, slot);
    TotalsSnoc(xs, x);
    NoWrap(|xs| + 1);
    var h, r, h' := Of(xs), Recorded(Of(xs), x), Of(xs + [x]);
    assert r.slots == h'.slots;
    assert r.count == h'.count;
    assert r.sum == h'.sum;
    assert r.max == h'.max;
    assert r.min == h'.min;
  }

  lemma TotalsSnoc(xs: seq<nat>, x: nat)
    ensures Wrap(Sum(xs + [x])) == Wrap(Wrap(Sum(xs)) + x)
    ensures Min(xs + [x]) == if xs == [] || x < Min(xs) then x else Min(xs)
    ensures Max(xs + [x]) == if x > Max(xs) then x else Max(xs)
  {
    Snoc(xs, x);
    WrapSum(Sum(xs), x);
  }

  // ----- Merging the CPUs -----

  /** The sum so far, and whether it has a minimum yet. */
  datatype Merging = Merging(hist: Hist, haveMin: bool)

  function AddSlots(a: seq<nat>, b: seq<nat>): (r: seq<nat>)
    requires |a| == |b|
    ensures |r| == |a| && forall s :: 0 <= s < |a| ==> r[s] == Wrap(a[s] + b[s])
  {
    seq(|a|, s requires 0 <= s < |a| => Wrap(a[s] + b[s]))
  }

  function MergeOne(m: Merging, h: Hist): Merging
    requires |m.hist.slots| == |h.slots|
  {
    var out := m.hist;
    var lower := h.count != 0 && (!m.haveMin || h.min < out.min);
    Merging(
      Hist(AddSlots(out.slots, h.slots), Wrap(out.count + h.count), Wrap(out.sum + h.sum),
           if lower then h.min else out.min,
           if h.count != 0 && h.max > out.max then h.max else out.max),
      m.haveMin || lower)
  }

  function MergeAll(per: seq<Hist>): (m: Merging)
    requires forall c :: 0 <= c < |per| ==> |per[c].slots| == SLOTS
    ensures |m.hist.slots| == SLOTS
    decreases |per|
  {
    if per == [] then Merging(Empty(), false) else MergeOne(MergeAll(per[..|per| - 1]), per[|per| - 1])
  }

  method SumSlots(a: seq<nat>, b: seq<nat>) returns (r: seq<nat>)
    requires |a| == |b|
    ensures r == AddSlots(a, b)
  {
    hide Wrap;
    r := a;
    for s := 0 to |a|
      invariant |r| == |a|
      invariant forall k :: 0 <= k < s ==> r[k] == Wrap(a[k] + b[k])
      invariant forall k :: s <= k < |a| ==> r[k] == a[k]
    {
      r := r[s := Wrap(a[s] + b[s])];
    }
  }

  method SumPercpuHist(per: seq<Hist>) returns (out: Hist)
    requires forall c :: 0 <= c < |per| ==> |per[c].slots| == SLOTS
    ensures out == MergeAll(per).hist
  {
    hide Wrap, AddSlots;
    out := Empty();
    var haveMin := false;
    for c := 0 to |per|
      invariant Merging(out, haveMin) == MergeAll(per[..c])
    {
      assert per[..c + 1][..c] == per[..c];
      var h := per[c];
      var count, sum := Wrap(out.count + h.count), Wrap(out.sum + h.sum);
      var slots := SumSlots(out.slots, h.slots);
      out := out.(slots := slots, count := count, sum := sum);
      if h.count != 0 {
        if !haveMin || h.min < out.min {
          out := out.(min := h.min);
          haveMin := true;
        }
        if h.max > out.max {
          out := out.(max := h.max);
        }
      }
    }
    assert per[..|per|] == per;
  }

  lemma {:induction false} Concat(a: seq<nat>, b: seq<nat>)
    ensures forall s :: InSlot(a + b, s) == InSlot(a, s) + InSlot(b, s)
    ensures Sum(a + b) == Sum(a) + Sum(b)
    ensures b != [] ==> Min(a + b) == if a == [] || Min(b) < Min(a) then Min(b) else Min(a)
    ensures Max(a + b) == if Max(b) > Max(a) then Max(b) else Max(a)
    decreases |b|
  {
    if b == [] {
      assert a + b == a;
    } else {
      var n := |b| - 1;
      Concat(a, b[..n]);
      assert (a + b)[..|a| + n] == a + b[..n];
    }
  }

  lemma SlotsConcat(a: seq<nat>, b: seq<nat>)
    requires |a + b| < WORD64
    ensures SlotsOf(a + b) == AddSlots(SlotsOf(a), SlotsOf(b))
  {
    Concat(a, b);
    forall s | 0 <= s < SLOTS
      ensures InSlot(a + b, s) == Wrap(InSlot(a, s) + InSlot(b, s))
    {
      InSlotBound(a + b, s);
      NoWrap(InSlot(a + b, s));
    }
    hide Wrap, InSlot, Sum, Min, Max;
  }

  /** Merging the histograms of two lists gives the histogram of both together. */
  lemma MergeOneOf(a: seq<nat>, b: seq<nat>)
    requires |a + b| < WORD64
    ensures MergeOne(Merging(Of(a), a != []), Of(b)) == Merging(Of(a + b), a + b != [])
  {
    SlotsConcat(a, b);
    NoWrap(|a + b|);
    TotalsConcat(a, b);
    hide Wrap, Sum, Min, Max, SlotsOf, AddSlots;
    if b == [] {
      assert a + b == a;
    }
  }

  lemma TotalsConcat(a: seq<nat>, b: seq<nat>)
    ensures Wrap(Sum(a + b)) == Wrap(Wrap(Sum(a)) + Wrap(Sum(b)))
    ensures b != [] ==> Min(a + b) == if a == [] || Min(b) < Min(a) then Min(b) else Min(a)
    ensures Max(a + b) == if Max(b) > Max(a) then Max(b) else Max(a)
    ensures b == [] ==> Max(b) == 0
  {
    Concat(a, b);
    WrapSum(Sum(a), Sum(b));
  }

  function Flat(xss: seq<seq<nat>>): seq<nat>
    decreases |xss|
  {
    if xss == [] then [] else Flat(xss[..|xss| - 1]) + xss[|xss| - 1]
  }

  /** However the samples were spread over the CPUs, the merged histogram is the histogram of
      all of them: exact buckets, count, minimum and maximum, and the sum modulo 2^64. */
  lemma {:induction false} MergedIsExact(xss: seq<seq<nat>>, per: seq<Hist>)
    requires |per| == |xss| && forall c :: 0 <= c < |per| ==> per[c] == Of(xss[c]) && |per[c].slots| == SLOTS
    requires |Flat(xss)| < WORD64
    ensures MergeAll(per) == Merging(Of(Flat(xss)), Flat(xss) != [])
    decreases |xss|
  {
    hide Of, MergeOne;
    if xss == [] {
      EmptyIsOfNothing();
    } else {
      var n := |xss| - 1;
      MergedIsExact(xss[..n], per[..n]);
      MergeOneOf(Flat(xss[..n]), xss[n]);
    }
  }

  // ----- Percentiles -----

  /** A number of nanoseconds, or the undefined result of shifting a 64-bit one by 64 places. */
  datatype Ns = Ns(value: nat) | Undefined

  function Target(count: nat, pct: real): int {
    (pct / 100.0 * count as real + 0.5).Floor
  }

  /** The first bucket at which the running total, a 64-bit number, reaches the target, from s on. */
  function FirstReaching(slots: seq<nat>, s: nat, cum: nat, target: int): (r: nat)
    requires s <= |slots|
    ensures s <= r <= |slots|
    decreases |slots| - s
  {
    if s == |slots| then s
    else if Wrap(cum + slots[s]) >= target then s
    else FirstReaching(slots, s + 1, Wrap(cum + slots[s]), target)
  }

  /** The upper bound of a bucket. */
  function SlotBound(s: nat): Ns {
    if s == 0 then Ns(1) else if s + 1 >= 64 then Undefined else Ns(Pow2(s + 1))
  }

  function Percentile(h: Hist, pct: real): Ns
    requires |h.slots| == SLOTS
  {
    if h.count == 0 then Ns(0)
    else
      var target := Target(h.count, pct);
      var s := FirstReaching(h.slots, 0, 0, if target == 0 then 1 else target);
      if s == SLOTS then Ns(h.max) else SlotBound(s)
  }

  method PercentileNs(h: Hist, pct: real) returns (r: Ns)
    requires |h.slots| == SLOTS
    ensures r == Percentile(h, pct)
  {
    hide Pow2, Target, Wrap;
    if h.count == 0 {
      return Ns(0);
    }
    var target := Target(h.count, pct);
    if target == 0 {
      target := 1;
    }
    var cum: nat := 0;
    for s := 0 to SLOTS
      invariant FirstReaching(h.slots, 0, 0, target) == FirstReaching(h.slots, s, cum, target)
    {
      cum := Wrap(cum + h.slots[s]);
      if cum >= target {
        return SlotBound(s);
      }
    }
    r := Ns(h.max);
  }

  /** How many samples are below b. */
  function Below(xs: seq<nat>, b: nat): (n: nat)
    ensures n <= |xs|
    decreases |xs|
  {
    if xs == [] then 0 else Below(xs[..|xs| - 1], b) + if xs[|xs| - 1] < b then 1 else 0
  }

  function Cum(slots: seq<nat>, n: nat): nat
    requires n <= |slots|
  {
    if n == 0 then 0 else Cum(slots, n - 1) + slots[n - 1]
  }

  /** The samples in bucket s are those below 2^(s+1) and not below 2^s (or 0 in bucket 0). */
  lemma {:induction false} SlotIsBetween(xs: seq<nat>, s: nat)
    ensures (if s == 0 then 0 else Below(xs, Pow2(s))) + InSlot(xs, s) == Below(xs, Pow2(s + 1))
    decreases |xs|
  {
    hide Pow2, Log2;
    if xs == [] {
    } else {
      var n := |xs| - 1;
      SlotIsBetween(xs[..n], s);
      Log2AtMost(xs[n], s);
      if s > 0 {
        Log2AtMost(xs[n], s - 1);
      }
    }
  }

  lemma {:induction false} CumIsBelow(xs: seq<nat>, n: nat)
    requires n <= SLOTS
    ensures Cum(SlotsOf(xs), n) == if n == 0 then 0 else Below(xs, Pow2(n))
    decreases n
  {
    hide Pow2, Below, InSlot;
    if n == 0 {
    } else {
      CumIsBelow(xs, n - 1);
      SlotIsBetween(xs, n - 1);
    }
  }

  /** All buckets together hold every sample: the slot sum is the count. */
  lemma SlotSumIsCount(xs: seq<nat>)
    requires Countable(xs)
    ensures Cum(Of(xs).slots, SLOTS) == Of(xs).count
  {
    Powers();
    CumIsBelow(xs, SLOTS);
    AllBelow(xs, WORD64);
    hide Pow2, Cum, Below, SlotsOf;
  }

  lemma {:induction false} AllBelow(xs: seq<nat>, b: nat)
    requires forall i :: 0 <= i < |xs| ==> xs[i] < b
    ensures Below(xs, b) == |xs|
    decreases |xs|
  {
    if xs == [] {
    } else {
      AllBelow(xs[..|xs| - 1], b);
    }
  }

  lemma {:induction false} CumGrows(slots: seq<nat>, s: nat, n: nat)
    requires s <= n <= |slots|
    ensures Cum(slots, s) <= Cum(slots, n)
    decreases n
  {
    if s == n {
    } else {
      CumGrows(slots, s, n - 1);
    }
  }

  /** As long as all buckets together fit into 64 bits, the running total does not wrap. */
  lemma {:induction false} FirstReachingMeans(slots: seq<nat>, s: nat, target: int)
    requires s <= |slots| && Cum(slots, s) < target && Cum(slots, |slots|) < WORD64
    ensures var r := FirstReaching(slots, s, Cum(slots, s), target);
      Cum(slots, r) < target && (r < |slots| ==> target <= Cum(slots, r + 1))
    decreases |slots| - s
  {
    hide Wrap;
    if s == |slots| {
    } else {
      CumGrows(slots, s + 1, |slots|);
      NoWrap(Cum(slots, s + 1));
      if Cum(slots, s + 1) < target {
        FirstReachingMeans(slots, s + 1, target);
      }
    }
  }

  predicate Sorted(ys: seq<nat>) {
    forall i, j :: 0 <= i <= j < |ys| ==> ys[i] <= ys[j]
  }

  /** In a sorted list the samples below b are its first ones. */
  lemma {:induction false} BelowIsPrefix(ys: seq<nat>, b: nat, i: nat)
    requires Sorted(ys) && i < |ys|
    ensures ys[i] < b <==> i < Below(ys, b)
    decreases |ys|
  {
    var n := |ys| - 1;
    if ys[n] < b {
      AllBelow(ys[..n], b);
    } else if i < n {
      BelowIsPrefix(ys[..n], b, i);
    }
  }

  lemma PlaceOf(xs: seq<nat>, ys: seq<nat>) returns (j: nat)
    requires xs != [] && multiset(xs) == multiset(ys)
    ensures j < |ys| && ys[j] == xs[|xs| - 1]
  {
    assert xs[|xs| - 1] in multiset(xs);
    assert xs[|xs| - 1] in ys;
    j :| 0 <= j < |ys| && ys[j] == xs[|xs| - 1];
  }

  lemma BelowWithout(ys: seq<nat>, j: nat, b: nat)
    requires j < |ys|
    ensures Below(ys, b) == Below(ys[..j] + ys[j + 1..], b) + if ys[j] < b then 1 else 0
  {
    hide Below;
    BelowSplit(ys[..j], ys[j], ys[j + 1..], b);
    assert ys == ys[..j] + ([ys[j]] + ys[j + 1..]);
  }

  lemma BelowLast(xs: seq<nat>, b: nat)
    requires xs != []
    ensures Below(xs, b) == Below(xs[..|xs| - 1], b) + if xs[|xs| - 1] < b then 1 else 0
  {
  }

  /** Counting does not depend on order. */
  lemma {:induction false} BelowOfPermutation(xs: seq<nat>, ys: seq<nat>, b: nat)
    requires multiset(xs) == multiset(ys)
    ensures Below(xs, b) == Below(ys, b)
    decreases |xs|
  {
    hide Below;
    SameLength(xs, ys);
    if xs == [] {
      assert ys == [];
    } else {
      var j := PlaceOf(xs, ys);
      WithoutOne(xs, ys, j);
      BelowOfPermutation(xs[..|xs| - 1], ys[..j] + ys[j + 1..], b);
      BelowWithout(ys, j, b);
      BelowLast(xs, b);
    }
  }

  lemma WithoutOne(xs: seq<nat>, ys: seq<nat>, j: nat)
    requires xs != [] && multiset(xs) == multiset(ys) && j < |ys| && ys[j] == xs[|xs| - 1]
    ensures multiset(xs[..|xs| - 1]) == multiset(ys[..j] + ys[j + 1..])
  {
    var n := |xs| - 1;
    var x := xs[n];
    assert xs == xs[..n] + [x];
    assert ys == ys[..j] + ([x] + ys[j + 1..]);
    var front, back := ys[..j], ys[j + 1..];
    assert multiset(xs[..n]) == multiset(xs) - multiset{x};
    assert multiset(front + back) == multiset(front) + multiset(back) == multiset(ys) - multiset{x};
  }

  lemma BelowSplit(front: seq<nat>, x: nat, back: seq<nat>, b: nat)
    ensures Below(front + ([x] + back), b) == Below(front + back, b) + if x < b then 1 else 0
  {
    BelowConcat(front, back, b);
    BelowConcat(front, [x] + back, b);
    BelowConcat([x], back, b);
    assert [x][..0] == [];
  }

  lemma {:induction false} BelowConcat(a: seq<nat>, c: seq<nat>, b: nat)
    ensures Below(a + c, b) == Below(a, b) + Below(c, b)
    decreases |c|
  {
    if c == [] {
      assert a + c == a;
    } else {
      var n := |c| - 1;
      assert (a + c)[..|a| + n] == a + c[..n];
      BelowConcat(a, c[..n], b);
    }
  }

  /** The rank a percentage asks for, counted from 1: the whole number nearest to that share of the
      count, a half rounded up, but at least 1. */
  predicate NearestRank(count: nat, pct: real, r: int) {
    var share := pct / 100.0 * count as real;
    if share < 0.5 then r == 1 else r as real - 0.5 <= share < r as real + 0.5
  }

  /** The rank as the report computes it. */
  function Rank(count: nat, pct: real): int {
    if Target(count, pct) == 0 then 1 else Target(count, pct)
  }

  lemma ShareInRange(count: nat, pct: real)
    requires 0.0 <= pct <= 100.0
    ensures 0.0 <= pct / 100.0 * count as real <= count as real
  {
    var c := count as real;
    assert 0.0 <= pct / 100.0 <= 1.0;
  }

  lemma FloorIs(x: real, n: int)
    requires n as real <= x < n as real + 1.0
    ensures x.Floor == n
  {
  }

  /** The computed rank is the nearest one, and there is only one. */
  lemma RankIsNearest(count: nat, pct: real, r: int)
    requires count > 0 && 0.0 <= pct <= 100.0
    ensures NearestRank(count, pct, r) <==> r == Rank(count, pct)
    ensures 1 <= Rank(count, pct) <= count
  {
    ShareInRange(count, pct);
    RankOfShare(pct / 100.0 * count as real, Target(count, pct), r);
  }

  lemma RankOfShare(share: real, target: int, r: int)
    requires share >= 0.0 && target == (share + 0.5).Floor
    ensures share < 0.5 ==> target == 0
    ensures share >= 0.5 ==> (r == target <==> r as real - 0.5 <= share < r as real + 0.5)
    ensures share >= 0.5 ==> target >= 1
  {
    if share < 0.5 {
      FloorIs(share + 0.5, 0);
    } else if r as real - 0.5 <= share < r as real + 0.5 {
      FloorIs(share + 0.5, r);
    }
  }

  /** The bucket the percentile stops at is the bucket of the sample of that rank. */
  lemma StopsAtSample(xs: seq<nat>, ys: seq<nat>, rank: int)
    requires Countable(xs) && multiset(xs) == multiset(ys) && Sorted(ys)
    requires 1 <= rank <= |ys| == |xs|
    ensures FirstReaching(SlotsOf(xs), 0, 0, rank) == Log2(ys[rank - 1]) < SLOTS
  {
    var slots, x := SlotsOf(xs), ys[rank - 1];
    var r := FirstReaching(slots, 0, 0, rank);
    SlotSumIsCount(xs);
    assert |xs| < WORD64;
    hide SlotsOf, FirstReaching, Below, Log2, Pow2, Sorted, Countable, Wrap;
    FirstReachingMeans(slots, 0, rank);
    assert r < SLOTS;
    CumIsBelow(xs, r);
    CumIsBelow(xs, r + 1);
    BelowOfPermutation(xs, ys, Pow2(r));
    BelowOfPermutation(xs, ys, Pow2(r + 1));
    BelowIsPrefix(ys, Pow2(r), rank - 1);
    BelowIsPrefix(ys, Pow2(r + 1), rank - 1);
    Log2AtMost(x, r);
    if r > 0 {
      Log2AtMost(x, r - 1);
    }
  }

  /** The reported percentile bounds the sample of its rank from above within a factor of two:
      for any samples, put in order, and any percentage, x is the sample of the rank asked for.
      Only a sample of 2^63 or more makes the result undefined. */
  lemma PercentileBounds(xs: seq<nat>, ys: seq<nat>, pct: real, r: int)
    requires Countable(xs) && xs != [] && multiset(xs) == multiset(ys) && Sorted(ys)
    requires 0.0 <= pct <= 100.0 && NearestRank(|xs|, pct, r)
    ensures 1 <= r <= |xs| == |ys|
    ensures var x, v := ys[r - 1], Percentile(Of(xs), pct);
      && (v.Undefined? <==> x >= Pow2(63))
      && (x <= 1 ==> v == Ns(1))
      && (2 <= x < Pow2(63) ==> x < v.value <= 2 * x)
  {
    hide Target, SlotsOf, FirstReaching, Log2, Pow2, Sum, Min, Max, Wrap, Sorted, Countable, NearestRank;
    ReportedBucket(xs, ys, pct, r);
    var x := ys[r - 1];
    Log2Bounds(x);
    Log2AtMost(x, 62);
    BucketOf(x);
  }

  /** What is reported is the bound of the bucket of the sample of that rank. */
  lemma ReportedBucket(xs: seq<nat>, ys: seq<nat>, pct: real, r: int)
    requires Countable(xs) && xs != [] && multiset(xs) == multiset(ys) && Sorted(ys)
    requires 0.0 <= pct <= 100.0 && NearestRank(|xs|, pct, r)
    ensures 1 <= r <= |xs| == |ys|
    ensures Percentile(Of(xs), pct) == SlotBound(Log2(ys[r - 1]))
  {
    hide Target, SlotsOf, FirstReaching, Log2, Pow2, Sum, Min, Max, Wrap, Sorted, Countable, NearestRank;
    SameLength(xs, ys);
    RankIsNearest(|xs|, pct, r);
    StopsAtSample(xs, ys, r);
  }

  /** Without samples every percentile is 0. */
  lemma NothingToReport(pct: real)
    ensures Percentile(Of([]), pct) == Ns(0)
  {
    hide SlotsOf, Wrap;
  }

  /** The 100th percentile is that of the largest sample and the 0th that of the smallest. */
  lemma ExtremeRanks(count: nat)
    requires count > 0
    ensures NearestRank(count, 100.0, count) && NearestRank(count, 0.0, 1)
  {
    assert 100.0 / 100.0 * count as real == count as real;
    assert 0.0 / 100.0 * count as real == 0.0;
  }

  /** Reported values compare as numbers; the undefined one is that of the last bucket. */
  predicate AtMost(v: Ns, w: Ns) {
    w.Undefined? || (v.Ns? && v.value <= w.value)
  }

  /** A larger percentage never reports less. */
  lemma PercentilesAscend(xs: seq<nat>, ys: seq<nat>, p: real, q: real)
    requires Countable(xs) && xs != [] && multiset(xs) == multiset(ys) && Sorted(ys)
    requires 0.0 <= p <= q <= 100.0
    ensures AtMost(Percentile(Of(xs), p), Percentile(Of(xs), q))
  {
    hide Target, SlotsOf, FirstReaching, Log2, Pow2, Sum, Min, Max, Wrap, Countable, NearestRank, Percentile, SlotBound;
    hide Rank, Of;
    SameLength(xs, ys);
    var a, b := Rank(|xs|, p), Rank(|xs|, q);
    RankIsNearest(|xs|, p, a);
    RankIsNearest(|xs|, q, b);
    RanksAscend(|xs|, p, q);
    ReportedBucket(xs, ys, p, a);
    ReportedBucket(xs, ys, q, b);
    BoundsAscend(ys[a - 1], ys[b - 1]);
  }

  lemma RanksAscend(count: nat, p: real, q: real)
    requires count > 0 && 0.0 <= p <= q <= 100.0
    ensures Rank(count, p) <= Rank(count, q)
  {
    ShareInRange(count, p);
    SharesAscend(count as real, p, q);
    FloorsAscend(p / 100.0 * count as real + 0.5, q / 100.0 * count as real + 0.5);
  }

  lemma SharesAscend(c: real, p: real, q: real)
    requires c >= 0.0 && p <= q
    ensures p / 100.0 * c <= q / 100.0 * c
  {
    assert p / 100.0 <= q / 100.0;
  }

  lemma FloorsAscend(x: real, y: real)
    requires 0.0 <= x <= y
    ensures 0 <= x.Floor <= y.Floor
  {
  }

  lemma BoundsAscend(x: nat, y: nat)
    requires x <= y
    ensures AtMost(SlotBound(Log2(x)), SlotBound(Log2(y)))
  {
    hide Log2, Pow2;
    Log2Bounds(y);
    Log2AtMost(x, Log2(y));
    Pow2Monotone(Log2(x) + 1, Log2(y) + 1);
  }

  lemma SameLength(xs: seq<nat>, ys: seq<nat>)
    requires multiset(xs) == multiset(ys)
    ensures |xs| == |ys|
  {
    assert |multiset(xs)| == |xs| && |multiset(ys)| == |ys|;
  }

  lemma BucketOf(x: nat)
    ensures x <= 1 <==> Log2(x) == 0
    ensures x > 0 ==> Pow2(Log2(x) + 1) <= 2 * x
  {
    Log2Bounds(x);
  }

  // ----- From the samples of every CPU to the report -----

  /** A CPU's histogram after recording its samples one by one. */
  function RecordAll(xs: seq<nat>): (h: Hist)
    requires forall i :: 0 <= i < |xs| ==> xs[i] < WORD64
    ensures |h.slots| == SLOTS
    decreases |xs|
  {
    if xs == [] then Empty()
    else
      SlotInRange(xs[|xs| - 1]);
      Recorded(RecordAll(xs[..|xs| - 1]), xs[|xs| - 1])
  }

  lemma {:induction false} RecordAllOf(xs: seq<nat>)
    requires Countable(xs)
    ensures RecordAll(xs) == Of(xs)
    decreases |xs|
  {
    if xs == [] {
      EmptyIsOfNothing();
    } else {
      var n := |xs| - 1;
      RecordAllOf(xs[..n]);
      assert xs == xs[..n] + [xs[n]];
      RecordedOf(xs[..n], xs[n]);
      hide Of, Recorded;
    }
  }

  lemma {:induction false} MinMaxAreExact(xs: seq<nat>)
    requires xs != []
    ensures Min(xs) in xs && Max(xs) in xs
    ensures forall i :: 0 <= i < |xs| ==> Min(xs) <= xs[i] <= Max(xs)
    decreases |xs|
  {
    if |xs| == 1 {
    } else {
      MinMaxAreExact(xs[..|xs| - 1]);
    }
  }

  /** The whole way: samples recorded on any number of CPUs and merged give a report whose buckets
      add up to its count, whose minimum and maximum are the samples' own, and whose percentiles
      bound the ranked samples within a factor of two. */
  lemma ReportIsFaithful(xss: seq<seq<nat>>, per: seq<Hist>, ys: seq<nat>, pct: real, r: int)
    requires Countable(Flat(xss)) && Flat(xss) != [] && |per| == |xss|
    requires forall c :: 0 <= c < |xss| ==> Countable(xss[c]) && per[c] == RecordAll(xss[c])
    requires multiset(Flat(xss)) == multiset(ys) && Sorted(ys)
    requires 0.0 <= pct <= 100.0 && NearestRank(|Flat(xss)|, pct, r)
    ensures forall c :: 0 <= c < |per| ==> |per[c].slots| == SLOTS
    ensures var all, h := Flat(xss), MergeAll(per).hist;
      && h.count == |all| == |ys| == Cum(h.slots, SLOTS)
      && h.sum == Sum(all) % WORD64
      && h.min in all && h.max in all && (forall i :: 0 <= i < |all| ==> h.min <= all[i] <= h.max)
      && 1 <= r <= |all|
      && var x, v := ys[r - 1], Percentile(h, pct);
         && (v.Undefined? <==> x >= Pow2(63))
         && (x <= 1 ==> v == Ns(1))
         && (2 <= x < Pow2(63) ==> x < v.value <= 2 * x)
  {
    var all := Flat(xss);
    forall c | 0 <= c < |xss|
      ensures per[c] == Of(xss[c]) && |per[c].slots| == SLOTS
    {
      RecordAllOf(xss[c]);
    }
    MergedIsExact(xss, per);
    SlotSumIsCount(all);
    MinMaxAreExact(all);
    PercentileBounds(all, ys, pct, r);
    hide Flat, Cum, Percentile, NearestRank, Sum, Min, Max, Pow2, RecordAll, SlotsOf, MergeAll, Sorted, Countable;
  }
}
