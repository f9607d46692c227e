/** The echo round-trip metrics of mirror/hop_metrics.go: a ring of the last 256 samples, their
    percentiles, and a moving average.  Durations are nanoseconds; the fractions 0.1, 0.5, 0.95
    and 0.99 are exact.  The deprecated wall-clock rings are not modelled.
 */
module HopMetrics {
  import opened Bytes
  import opened Sorting

  const WINDOW := 256

  function Min(a: int, b: int): int { if a < b then a else b }

  /** Go's conversion of a quotient to an integer: toward zero. */
  function TruncDiv(a: int, b: int): int
    requires b > 0
  {
    if a >= 0 then a / b else -(-a / b)
  }

  // ---- the window ----

  /** The last 256 samples, or all of them. */
  function Window(samples: seq<int>): seq<int> {
    if |samples| <= WINDOW then samples else samples[|samples| - WINDOW..]
  }

  /** `s` started at position `j`. */
  function Turn(s: seq<int>, j: nat): (r: seq<int>)
    requires j <= |s|
    ensures |r| == |s|
  {
    s[j..] + s[..j]
  }

  lemma TurnMultiset(s: seq<int>, j: nat)
    requires j <= |s|
    ensures multiset(Turn(s, j)) == multiset(s)
  {
    assert s == s[..j] + s[j..];
  }

  /** The ring's slots: the newest samples from slot zero on, the older ones behind them. */
  function Ring(samples: seq<int>): (r: seq<int>)
    ensures |r| == Min(|samples|, WINDOW)
  {
    if |samples| <= WINDOW then samples else Turn(Window(samples), WINDOW - |samples| % WINDOW)
  }

  lemma RingIsWindow(samples: seq<int>)
    ensures multiset(Ring(samples)) == multiset(Window(samples))
  {
    hide Turn;
    if |samples| > WINDOW { TurnMultiset(Window(samples), WINDOW - |samples| % WINDOW); }
  }

  lemma NextSlot(n: nat)
    ensures (n + 1) % WINDOW == if n % WINDOW + 1 < WINDOW then n % WINDOW + 1 else 0
  {
  }

  /** The sample slot `i` of a full ring holds. */
  function SlotSource(n: nat, i: nat): (r: nat)
    requires i < WINDOW <= n
    ensures r < n
  {
    if i < n % WINDOW then n - n % WINDOW + i else n - WINDOW + i - n % WINDOW
  }

  lemma RingSlot(samples: seq<int>, i: nat)
    requires i < WINDOW <= |samples|
    ensures Ring(samples)[i] == samples[SlotSource(|samples|, i)]
  {
    if |samples| > WINDOW {
      TurnAt(Window(samples), WINDOW - |samples| % WINDOW, i);
      hide Turn;
    }
  }

  lemma TurnAt(s: seq<int>, j: nat, i: nat)
    requires j <= |s| && i < |s|
    ensures Turn(s, j)[i] == s[if i < |s| - j then j + i else i - (|s| - j)]
  {
  }

  lemma SlotMoves(n: nat, i: nat)
    requires i < WINDOW <= n
    ensures SlotSource(n + 1, i) == if i == n % WINDOW then n else SlotSource(n, i)
  {
    NextSlot(n);
  }

  /** One more sample overwrites one slot. */
  lemma RingStep(samples: seq<int>, d: int)
    ensures |samples| < WINDOW ==> Ring(samples + [d]) == Ring(samples) + [d]
    ensures |samples| >= WINDOW ==> Ring(samples + [d]) == Ring(samples)[|samples| % WINDOW := d]
  {
    var n, next := |samples|, samples + [d];
    if n >= WINDOW {
      hide Ring;
      var k := n % WINDOW;
      forall i: nat | i < WINDOW ensures Ring(next)[i] == Ring(samples)[k := d][i] { SlotStep(samples, d, i); }
      assert Ring(next) == Ring(samples)[k := d];
    }
  }

  lemma SlotStep(samples: seq<int>, d: int, i: nat)
    requires i < WINDOW <= |samples|
    ensures Ring(samples + [d])[i] == if i == |samples| % WINDOW then d else Ring(samples)[i]
  {
    hide Ring, SlotSource;
    RingSlot(samples, i);
    RingSlot(samples + [d], i);
    SlotMoves(|samples|, i);
  }

  // ---- the moving average ----

  /** A tenth of the new sample and nine tenths of the average so far, cut toward zero; from zero it restarts at the
      new sample. */
  predicate IsAverage(before: int, d: int, after: int) {
    if before == 0 then after == d
    else if d + 9 * before >= 0 then 10 * after <= d + 9 * before < 10 * after + 10
    else 10 * after - 10 < d + 9 * before <= 10 * after
  }

  lemma StepIsAverage(ema: int, d: int)
    ensures IsAverage(ema, d, EmaStep(ema, d))
  {
  }

  /** A zero average restarts at the new sample. */
  function EmaStep(ema: int, d: int): int {
    if ema == 0 then d else TruncDiv(d + 9 * ema, 10)
  }

  function Ema(samples: seq<int>): int {
    if samples == [] then 0 else EmaStep(Ema(samples[..|samples| - 1]), samples[|samples| - 1])
  }

  lemma EmaAppend(samples: seq<int>, d: int)
    ensures Ema(samples + [d]) == EmaStep(Ema(samples), d)
  {
    assert (samples + [d])[..|samples|] == samples;
  }

  lemma EmaStepBetween(ema: int, d: int, lo: int, hi: int)
    requires lo <= ema <= hi && lo <= d <= hi
    ensures lo <= EmaStep(ema, d) <= hi
  {
  }

  /** Main result: the average always lies between the least and the greatest sample ever
      recorded, integer truncation and restarts included. */
  lemma {:induction false} EmaBetween(samples: seq<int>, lo: int, hi: int)
    requires samples != [] && forall i :: 0 <= i < |samples| ==> lo <= samples[i] <= hi
    ensures lo <= Ema(samples) <= hi
  {
    var n := |samples| - 1;
    if n > 0 {
      EmaBetween(samples[..n], lo, hi);
      EmaStepBetween(Ema(samples[..n]), samples[n], lo, hi);
    }
  }

  // ---- percentiles ----

  predicate IntLeq(a: int, b: int) { a <= b }

  lemma IntOrder()
    ensures Preorder(IntLeq)
    ensures forall s: seq<int> :: NoTies(s, IntLeq)
  {
  }

  /** A fraction of a hundred. */
  type percent = x: int | 0 <= x <= 100

  function Rank(n: nat, q: percent): nat
    requires n > 0
  {
    var idx := n * q / 100 - 1;
    if idx < 0 then 0 else if idx >= n then n - 1 else idx
  }

  function Percentile(samples: seq<int>, q: percent): int {
    if samples == [] then 0
    else
      SortMultiset(samples, IntLeq);
      Sort(samples, IntLeq)[Rank(|samples|, q)]
  }

  function CountLess(s: seq<int>, v: int): nat {
    if s == [] then 0 else CountLess(s[1..], v) + if s[0] < v then 1 else 0
  }

  lemma {:induction false} CountInsert(x: int, s: seq<int>, v: int)
    ensures CountLess(Insert(x, s, IntLeq), v) == CountLess(s, v) + if x < v then 1 else 0
  {
    if s != [] && !IntLeq(x, s[0]) {
      CountInsert(x, s[1..], v);
      assert Insert(x, s, IntLeq)[1..] == Insert(x, s[1..], IntLeq);
    } else {
      assert ([x] + s)[1..] == s;
    }
  }

  lemma {:induction false} CountSort(s: seq<int>, v: int)
    ensures CountLess(Sort(s, IntLeq), v) == CountLess(s, v)
  {
    if s != [] {
      CountSort(s[1..], v);
      CountInsert(s[0], Sort(s[1..], IntLeq), v);
    }
  }

  /** In a sorted list the values below a bound are exactly a prefix. */
  lemma {:induction false} CountSorted(s: seq<int>, v: int, k: nat)
    requires Sorted(s, IntLeq) && k <= |s|
    ensures (k < |s| ==> s[k] >= v) ==> CountLess(s, v) <= k
    ensures (k > 0 ==> s[k - 1] < v) ==> CountLess(s, v) >= k
  {
    if s != [] {
      CountSorted(s[1..], v, if k == 0 then 0 else k - 1);
      if k > 0 && s[k - 1] < v { assert IntLeq(s[0], s[k - 1]); }
      if k == 0 && s[0] >= v && |s| > 1 { assert IntLeq(s[0], s[1]); }
    }
  }

  /** Main result: the percentile is a sample of the window, and the one at the code's rank: at
      most `Rank` samples are below it, more than `Rank` are not above it. */
  lemma PercentileIsRanked(samples: seq<int>, q: percent)
    requires samples != []
    ensures var v := Percentile(samples, q);
            v in samples && CountLess(samples, v) <= Rank(|samples|, q) < CountLess(samples, v + 1)
  {
    hide Sort, CountLess, Sorted, Preorder, NoTies;
    IntOrder();
    SortSorted(samples, IntLeq);
    SortMultiset(samples, IntLeq);
    RankedIn(samples, Sort(samples, IntLeq), Rank(|samples|, q));
  }

  lemma RankedIn(samples: seq<int>, s: seq<int>, k: nat)
    requires s == Sort(samples, IntLeq) && Sorted(s, IntLeq) && multiset(s) == multiset(samples) && k < |s|
    ensures s[k] in samples && CountLess(samples, s[k]) <= k < CountLess(samples, s[k] + 1)
  {
    hide Sort, CountLess;
    SameElements(s, samples, s[k]);
    CountSort(samples, s[k]);
    CountSort(samples, s[k] + 1);
    CountSorted(s, s[k], k);
    CountSorted(s, s[k] + 1, k + 1);
  }

  /** Main result, the rank in numbers: the percentile of n samples is one of them; where n times q comes to a hundred,
      fewer than n q / 100 are below it and at least that many are not above; otherwise none is below it. */
  lemma PercentileInNumbers(samples: seq<int>, q: percent)
    requires samples != []
    ensures var n, v := |samples|, Percentile(samples, q);
            && v in samples
            && (n * q >= 100 ==> CountLess(samples, v) < n * q / 100 <= CountLess(samples, v + 1))
            && (n * q < 100 ==> CountLess(samples, v) == 0)
  {
    hide Percentile, CountLess, Rank;
    PercentileIsRanked(samples, q);
    AtMostWhole(|samples|, q);
    RankInNumbers(|samples|, q, |samples| * q);
  }

  lemma AtMostWhole(n: nat, q: percent)
    ensures n * q <= n * 100
  {
  }

  lemma RankInNumbers(n: nat, q: percent, x: nat)
    requires n > 0 && x == n * q && x <= n * 100
    ensures x >= 100 ==> Rank(n, q) == x / 100 - 1
    ensures x < 100 ==> Rank(n, q) == 0
  {
  }

  lemma RankMonotone(n: nat, p: percent, q: percent)
    requires n > 0 && p <= q
    ensures Rank(n, p) <= Rank(n, q)
  {
    assert n * p <= n * q;
  }

  /** Main result: P50 ≤ P95 ≤ P99 on every window. */
  lemma PercentilesOrdered(samples: seq<int>)
    ensures Percentile(samples, 50) <= Percentile(samples, 95) <= Percentile(samples, 99)
  {
    if samples != [] {
      IntOrder();
      SortSorted(samples, IntLeq);
      SortMultiset(samples, IntLeq);
      RankMonotone(|samples|, 50, 95);
      RankMonotone(|samples|, 95, 99);
      var s := Sort(samples, IntLeq);
      AtRanks(s, Rank(|samples|, 50), Rank(|samples|, 95));
      AtRanks(s, Rank(|samples|, 95), Rank(|samples|, 99));
    }
  }

  lemma AtRanks(s: seq<int>, i: nat, j: nat)
    requires Sorted(s, IntLeq) && i <= j < |s|
    ensures s[i] <= s[j]
  {
    if i < j { assert IntLeq(s[i], s[j]); }
  }

  /** The percentile does not depend on the order of the samples, hence not on where the ring
      currently starts nor on the sorting algorithm. */
  lemma PercentileOfRing(samples: seq<int>, q: percent)
    ensures Percentile(Ring(samples), q) == Percentile(Window(samples), q)
  {
    RingIsWindow(samples);
    IntOrder();
    SortPermutation(Ring(samples), Window(samples), IntLeq);
  }

  // ---- the metrics object ----

  class Metrics {
    const probeRTT: array<int>
    var probeIdx: nat
    var probeN: nat
    var probeEMA: int
    var probeLoss: uint32
    /** Every sample ever recorded. */
    ghost var samples: seq<int>

    ghost predicate Valid()
      reads this, probeRTT
    {
      && probeRTT.Length == WINDOW
      && probeIdx == |samples| && probeN == Min(|samples|, WINDOW)
      && probeRTT[..probeN] == Ring(samples)
      && probeEMA == Ema(samples)
    }

    constructor ()
      ensures Valid() && samples == [] && probeLoss == 0 && fresh(probeRTT)
    {
      probeRTT := new int[WINDOW];
      probeIdx, probeN, probeEMA, probeLoss, samples := 0, 0, 0, 0, [];
    }

    method RecordEcho(d: int)
      requires Valid()
      modifies this, probeRTT
      ensures Valid() && samples == old(samples) + [d] && probeLoss == old(probeLoss)
      ensures IsAverage(old(probeEMA), d, probeEMA)
    {
      hide Ring, EmaStep;
      StepIsAverage(probeEMA, d);
      RingStep(samples, d);
      EmaAppend(samples, d);
      ghost var before := probeRTT[..];
      var slot := probeIdx % probeRTT.Length;
      probeRTT[slot] := d;
      assert probeRTT[..] == before[slot := d];
      probeIdx := probeIdx + 1;
      if probeN < probeRTT.Length { probeN := probeN + 1; }
      samples := samples + [d];
      SmoothEma(d);
    }

    method SmoothEma(d: int)
      modifies `probeEMA
      ensures probeEMA == EmaStep(old(probeEMA), d)
    {
      if probeEMA == 0 {
        probeEMA := d;
      } else {
        probeEMA := TruncDiv(d + 9 * probeEMA, 10);
      }
    }

    method IncProbeLoss()
      requires Valid()
      modifies `probeLoss
      ensures Valid() && probeLoss == U32(old(probeLoss) + 1)
    {
      probeLoss := U32(probeLoss + 1);
    }

    /** The percentile methods read the ring and sort a copy. */
    method EchoPercentile(q: percent) returns (r: int)
      requires Valid()
      ensures r == Percentile(Window(samples), q)
      ensures r == Percentile(if |samples| <= 256 then samples else samples[|samples| - 256..], q)
    {
      var copy: seq<int> := [];
      for i := 0 to probeN
        invariant copy == probeRTT[..i]
      {
        copy := copy + [probeRTT[i]];
      }
      PercentileOfRing(samples, q);
      r := PercentileOf(copy, q);
    }
  }

  method PercentileOf(samples: seq<int>, q: percent) returns (r: int)
    ensures r == Percentile(samples, q)
  {
    if |samples| == 0 { return 0; }
    var sorted := Sort(samples, IntLeq);
    SortMultiset(samples, IntLeq);
    var idx := |samples| * q / 100 - 1;
    if idx < 0 { idx := 0; }
    if idx >= |samples| { idx := |samples| - 1; }
    return sorted[idx];
  }
}
