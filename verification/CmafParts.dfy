/** The low-latency parts of the live segmenter over whole runs, and the clock that times them. */
module CmafParts {
  import opened Bytes
  import opened Results
  import opened LivePin
  import opened Cmaf
  import opened CmafProofs
  import opened CmafRuns

  // ---- the sink's parts over a run ----

  lemma InitKeepsParts(e: Env, l: Live, f: Frame)
    ensures InitPhase(e, Live(Params(l.s, f), l.k)).live.k.parts == l.k.parts
    ensures InitPhase(e, l).outcome != Fail(PartRefused)
  {
    hide LastOfType;
  }

  lemma CleanStays(e: Env, r: Ref, f: Frame)
    requires RefStep(e, r, f).clean
    ensures r.clean && !DropsParts(r, f) && |r.done| <= |RefStep(e, r, f).done|
  {
    hide CutsIn, PartStart, HasKey;
  }

  lemma StartParts(e: Env)
    ensures PartsCouple(e, EMPTY_SINK, REF_START)
  {
    assert Records(e, [], []) == [];
  }

  /** On a run that never drops frames which already had parts the sink holds for every segment exactly its
      parts, numbered from zero, and refuses none.  CmafHeld treats the other runs too. */
  lemma {:induction false} EveryCleanRun(e: Env, fs: seq<Frame>)
    requires RefRun(e, Admitted(e, fs)).clean && |RefRun(e, Admitted(e, fs)).done| < TWO32
    ensures PartsCouple(e, Run(e, fs).k, RefRun(e, Admitted(e, fs)))
    ensures fs != [] ==> Ingest(e, Run(e, fs[..|fs| - 1]), fs[|fs| - 1]).outcome != Fail(PartRefused)
  {
    if fs == [] {
      StartParts(e);
    } else {
      var before, f := fs[..|fs| - 1], fs[|fs| - 1];
      assert fs == before + [f];
      CleanBefore(e, before, f);
      EveryCleanRun(e, before);
      EveryRunFollows(e, before);
      OneMoreFrame(e, Run(e, before), before, f);
    }
  }

  lemma CleanBefore(e: Env, before: seq<Frame>, f: Frame)
    requires RefRun(e, Admitted(e, before + [f])).clean && |RefRun(e, Admitted(e, before + [f])).done| < TWO32
    ensures RefRun(e, Admitted(e, before)).clean && |RefRun(e, Admitted(e, before)).done| < TWO32
    ensures Admitted(e, before + [f]) != [] ==> !DropsParts(RefRun(e, Admitted(e, before)), f)
  {
    AdmittedStep(e, before, f);
    var a := Admitted(e, before);
    hide RefStep, Admitted, Ready, DropsParts;
    if Admitted(e, before + [f]) != [] {
      RefRunStep(e, a, f);
      CleanStays(e, RefRun(e, a), f);
    }
  }

  lemma OneMoreFrame(e: Env, l: Live, before: seq<Frame>, f: Frame)
    requires Follows(e, l, before) && PartsCouple(e, l.k, RefRun(e, Admitted(e, before)))
    requires Admitted(e, before + [f]) != [] ==> !DropsParts(RefRun(e, Admitted(e, before)), f)
    requires |RefRun(e, Admitted(e, before + [f])).done| < TWO32
    ensures PartsCouple(e, Ingest(e, l, f).live.k, RefRun(e, Admitted(e, before + [f])))
    ensures Ingest(e, l, f).outcome != Fail(PartRefused)
  {
    hide Couples, PartsCouple, Params, InitPhase, IngestSample, RefStep, DropsParts, Admitted, RefRun, Ready;
    var a := Admitted(e, before);
    var r := RefRun(e, a);
    var p := Live(Params(l.s, f), l.k);
    var i := InitPhase(e, p).live;
    InitDecides(e, l, before, f);
    InitKeepsParts(e, l, f);
    InitKeepsParts(e, p, f);
    SameParts(e, l.k, i.k, r);
    AdmittedStep(e, before, f);
    if i.s.initEmitted {
      ParamsKeepCoupling(e, l, r, f);
      InitKeepsCoupling(e, p, r);
      RefRunStep(e, a, f);
      StepParts(e, i, r, f);
    }
  }

  /** A keyframe before the first boundary is enough: then nothing is dropped at all. */
  lemma KeyframeFirst(e: Env, a: seq<Frame>)
    requires a != [] && HasKey(Greedy(a)[0])
    ensures RefRun(e, a).clean && RefRun(e, a).lost == []
  {
    RunsAreGreedy(e, a);
    var r := RefRun(e, a);
    LostIsFirst(r);
  }

  lemma LostIsFirst(r: Ref)
    ensures r.lost != [] ==> Groups(r) != [] && Groups(r)[0] == r.lost
  {
  }

  // ---- parts are a prefix of their segment ----

  function PartRuns(fs: seq<Frame>, cuts: seq<Cut>): (r: seq<seq<Frame>>)
    requires CutsIn(fs, cuts)
    ensures |r| == |cuts|
  {
    seq(|cuts|, j requires 0 <= j < |cuts| => fs[cuts[j].lo..cuts[j].hi])
  }

  lemma CutsFront(fs: seq<Frame>, cuts: seq<Cut>)
    requires CutsOk(fs, cuts) && cuts != []
    ensures var k := |cuts| - 1; CutsOk(fs, cuts[..k]) && CutsIn(fs, cuts[..k]) && cuts[k].lo == End(cuts[..k])
  {
    var front, k := cuts[..|cuts| - 1], |cuts| - 1;
    assert cuts[k].lo == EndBefore(cuts, k) == End(front);
    forall i {:trigger EndBefore(front, i)} | 0 <= i < k ensures front[i].lo == EndBefore(front, i) {
      FrontEnd(cuts, k, i);
      assert cuts[i].lo == EndBefore(cuts, i);
    }
    hide EndBefore;
    assert forall i :: 0 <= i < k ==> front[i].lo < front[i].hi <= |fs|;
  }

  lemma FrontEnd(cuts: seq<Cut>, k: nat, i: nat)
    requires i < k <= |cuts|
    ensures EndBefore(cuts[..k], i) == EndBefore(cuts, i) && cuts[..k][i] == cuts[i]
  {
  }

  /** Laid end to end, the frames of a segment's parts are a prefix of the segment. */
  lemma {:induction false} PartsTile(fs: seq<Frame>, cuts: seq<Cut>)
    requires CutsOk(fs, cuts)
    ensures CutsIn(fs, cuts) && End(cuts) <= |fs| && Concat(PartRuns(fs, cuts)) == fs[..End(cuts)]
    decreases |cuts|
  {
    EndInRange(fs, cuts);
    hide CutsOk, Concat;
    if cuts == [] {
      NoParts(fs);
    } else {
      CutsFront(fs, cuts);
      PartsTile(fs, cuts[..|cuts| - 1]);
      LastPart(fs, cuts);
    }
  }

  lemma NoParts(fs: seq<Frame>)
    ensures Concat(PartRuns(fs, [])) == []
  {
  }

  lemma LastPart(fs: seq<Frame>, cuts: seq<Cut>)
    requires cuts != [] && CutsIn(fs, cuts) && CutsIn(fs, cuts[..|cuts| - 1])
    ensures var front, c := cuts[..|cuts| - 1], cuts[|cuts| - 1];
            && Concat(PartRuns(fs, cuts)) == Concat(PartRuns(fs, front)) + fs[c.lo..c.hi]
            && fs[..c.lo] + fs[c.lo..c.hi] == fs[..c.hi]
  {
    var front, c := cuts[..|cuts| - 1], cuts[|cuts| - 1];
    assert PartRuns(fs, cuts) == PartRuns(fs, front) + [fs[c.lo..c.hi]];
    ConcatAppend(PartRuns(fs, front), fs[c.lo..c.hi]);
  }

  lemma StoredBody(e: Env, k: Sink, r: Ref, i: nat)
    requires SegmentsCouple(e, k, r) && i < |r.done|
    ensures i < |k.segments| && k.segments[i] == Body(e, r.done[i])
  {
  }

  // ---- the part clock ----

  /** Time from the first frame to frame `i`, adding up the differences without wrapping. */
  function Offset(fs: seq<Frame>, i: nat): nat
    requires i < |fs|
  {
    Sum(Deltas(fs)[..i])
  }

  /** A segment in which the clock does not wrap around. */
  ghost predicate Unwrapped(fs: seq<Frame>) {
    fs != [] && Offset(fs, |fs| - 1) + FALLBACK < TWO32
  }

  /** And frames 3000 ticks apart or more. */
  ghost predicate Spaced(fs: seq<Frame>) {
    Unwrapped(fs) && forall i :: 0 <= i < |fs| - 1 ==> Deltas(fs)[i] >= FALLBACK
  }

  lemma {:induction false} SumSplit(ds: seq<uint32>, i: nat, j: nat)
    requires i <= j <= |ds|
    ensures Sum(ds[..j]) == Sum(ds[..i]) + Sum(ds[i..j])
    decreases j
  {
    if i < j {
      SumSplit(ds, i, j - 1);
      assert ds[..j] == ds[..j - 1] + [ds[j - 1]] && ds[i..j] == ds[i..j - 1] + [ds[j - 1]];
      SumAppend(ds[..j - 1], ds[j - 1]);
      SumAppend(ds[i..j - 1], ds[j - 1]);
    } else {
      assert ds[i..j] == [];
    }
  }

  lemma OffsetMonotone(fs: seq<Frame>, i: nat, j: nat)
    requires i <= j < |fs|
    ensures Offset(fs, i) <= Offset(fs, j)
  {
    SumSplit(Deltas(fs), i, j);
  }

  lemma OffsetNext(fs: seq<Frame>, i: nat)
    requires i + 1 < |fs|
    ensures Offset(fs, i + 1) == Offset(fs, i) + Deltas(fs)[i]
  {
    assert Deltas(fs)[..i + 1] == Deltas(fs)[..i] + [Deltas(fs)[i]];
    SumAppend(Deltas(fs)[..i], Deltas(fs)[i]);
  }

  lemma LastOffset(fs: seq<Frame>)
    requires fs != []
    ensures U32(Offset(fs, |fs| - 1)) == U32(fs[|fs| - 1].ts - fs[0].ts)
  {
    SumDeltas(fs);
    assert Deltas(fs)[..|fs| - 1] == Deltas(fs);
  }

  /** Without a wrap the reported length of a run is its true length. */
  lemma TrueTicks(fs: seq<Frame>, lo: nat, hi: nat)
    requires Unwrapped(fs) && lo < hi <= |fs|
    ensures Ticks(fs[lo..hi]) == Offset(fs, hi - 1) - Offset(fs, lo) + FALLBACK
  {
    hide Sum, Ticks;
    var p := fs[lo..hi];
    TicksOfRun(p);
    assert Deltas(p) == Deltas(fs)[lo..hi - 1];
    SumAppend(Deltas(p), FALLBACK);
    SumSplit(Deltas(fs), lo, hi - 1);
    OffsetMonotone(fs, hi - 1, |fs| - 1);
    var length := Sum(Deltas(p)) + FALLBACK;
    assert length == Offset(fs, hi - 1) - Offset(fs, lo) + FALLBACK < TWO32;
    Small(length);
  }

  lemma NextOffset(fs: seq<Frame>, i: nat)
    requires Spaced(fs) && 0 < i <= |fs|
    ensures i < |fs| ==> Offset(fs, i - 1) + FALLBACK <= Offset(fs, i)
  {
    if i < |fs| { OffsetNext(fs, i - 1); }
  }

  lemma NoWrapOffset(fs: seq<Frame>)
    requires Spaced(fs)
    ensures Unwrapped(fs)
    ensures Offset(fs, |fs| - 1) + FALLBACK < TWO32
  {
  }

  /** The clock after the parts so far is at most one frame past the last sample in a part, hence
      never past the first sample that is not. */
  lemma {:induction false} ClockBehind(fs: seq<Frame>, cuts: seq<Cut>)
    requires Spaced(fs) && CutsOk(fs, cuts) && CutsIn(fs, cuts)
    ensures cuts != [] ==> End(cuts) > 0 && CutTicks(fs, cuts) <= Offset(fs, End(cuts) - 1) + FALLBACK
    ensures End(cuts) < |fs| ==> CutTicks(fs, cuts) <= Offset(fs, End(cuts))
    decreases |cuts|
  {
    hide Offset, Ticks, CutsOk, Spaced, Unwrapped;
    if cuts != [] {
      var k := |cuts| - 1;
      var front, c := cuts[..k], cuts[k];
      CutsFront(fs, cuts);
      ClockBehind(fs, front);
      NoWrapOffset(fs);
      TrueTicks(fs, c.lo, c.hi);
      NextOffset(fs, c.hi);
    }
  }

  /** Main result: with frames at least 3000 ticks apart and no wrap in the segment, the elapsed time
      the code tests for the next frame is the true time since the parts so far; the subtraction
      does not underflow. */
  lemma PartClockTrue(fs: seq<Frame>, cuts: seq<Cut>, f: Frame)
    requires fs != [] && CutsOk(fs, cuts) && CutsIn(fs, cuts) && Spaced(fs + [f])
    ensures CutTicks(fs, cuts) <= Offset(fs + [f], |fs|)
    ensures U32(f.ts - PartStart(fs, cuts)) == Offset(fs + [f], |fs|) - CutTicks(fs, cuts)
  {
    hide Offset, CutTicks, CutsOk, CutsIn, End;
    hide Spaced, Deltas;
    var gs := fs + [f];
    CutTicksExtend(fs, f, cuts);
    ExtendCuts(fs, f, cuts);
    ClockBehind(gs, cuts);
    OffsetMonotone(gs, End(cuts), |fs|);
    LastOffset(gs);
    NoWrapOffset(gs);
    Elapsed(fs[0].ts, f.ts, CutTicks(fs, cuts), Offset(gs, |fs|));
  }

  lemma AddBoth(x: int, y: int, d: int)
    requires U32(x) == U32(y)
    ensures U32(x + d) == U32(y + d)
  {
    Wrap32(x, d);
    Wrap32(y, d);
  }

  lemma WrapMinus(a: int, b: int)
    ensures U32(a - U32(b)) == U32(a - b)
  {
  }

  lemma Elapsed(first: int, now: int, ticks: int, off: int)
    requires U32(off) == U32(now - first) && 0 <= ticks <= off < TWO32
    ensures U32(now - U32(first + ticks)) == off - ticks
  {
    WrapMinus(now, first + ticks);
    AddBoth(off, now - first, -ticks);
    Small(off - ticks);
  }

  /** The gaps behind the parts: each from the last frame of a part to the frame after it. */
  function Gaps(fs: seq<Frame>, cuts: seq<Cut>): nat
    requires forall i :: 0 <= i < |cuts| ==> 0 < cuts[i].hi < |fs|
  {
    if cuts == [] then 0
    else Gaps(fs, cuts[..|cuts| - 1]) + Deltas(fs)[cuts[|cuts| - 1].hi - 1]
  }

  lemma CutsBefore(fs: seq<Frame>, cuts: seq<Cut>, f: Frame)
    requires CutsIn(fs, cuts)
    ensures forall i :: 0 <= i < |cuts| ==> 0 < cuts[i].hi < |fs + [f]|
  {
  }

  /** The time between two frames of a segment, modulo 2^32. */
  lemma Between(fs: seq<Frame>, i: nat, j: nat)
    requires i <= j < |fs|
    ensures U32(fs[j].ts - fs[i].ts) == U32(Offset(fs, j) - Offset(fs, i))
  {
    hide Sum, Deltas, U32;
    var p := fs[i..j + 1];
    LastOffset(p);
    assert Deltas(p)[..j - i] == Deltas(fs)[i..j] by { DeltasSlice(fs, i, j); }
    SumSplit(Deltas(fs), i, j);
  }

  lemma DeltasSlice(fs: seq<Frame>, i: nat, j: nat)
    requires i <= j < |fs|
    ensures Deltas(fs[i..j + 1]) == Deltas(fs)[i..j] == Deltas(fs[i..j + 1])[..j - i]
  {
    var a, b := Deltas(fs[i..j + 1]), Deltas(fs)[i..j];
    assert |a| == |b| == j - i;
    hide U32;
    assert forall k :: 0 <= k < j - i ==> a[k] == b[k];
    hide Deltas;
    assert a == b && a[..j - i] == a;
  }

  /** What the parts have reported: the time they cover, less the gap behind each, plus the stand-in for it. */
  lemma {:induction false} TicksAndGaps(fs: seq<Frame>, cuts: seq<Cut>, f: Frame)
    requires fs != [] && CutsOk(fs, cuts) && CutsIn(fs, cuts)
    ensures forall i :: 0 <= i < |cuts| ==> 0 < cuts[i].hi < |fs + [f]|
    ensures End(cuts) <= |fs|
    ensures var gs := fs + [f];
            U32(CutTicks(fs, cuts)) == U32(Offset(gs, End(cuts)) - Gaps(gs, cuts) + FALLBACK * |cuts|)
    decreases |cuts|
  {
    hide Offset, CutsOk, U32, Ticks, Deltas;
    CutsBefore(fs, cuts, f);
    EndInRange(fs, cuts);
    var gs := fs + [f];
    if cuts == [] {
      NoOffset(gs);
    } else {
      var n := |cuts| - 1;
      var front, c := cuts[..n], cuts[n];
      CutsFront(fs, cuts);
      TicksAndGaps(fs, front, f);
      PartTicks(fs, c.lo, c.hi, f);
      OffsetNext(gs, c.hi - 1);
      var x := Offset(gs, c.lo) - Gaps(gs, front) + FALLBACK * n;
      AddBoth(CutTicks(fs, front), x, Ticks(fs[c.lo..c.hi]));
      SameAdd(Ticks(fs[c.lo..c.hi]), Offset(gs, c.hi - 1) - Offset(gs, c.lo) + FALLBACK, x);
    }
  }

  lemma NoOffset(fs: seq<Frame>)
    requires fs != []
    ensures Offset(fs, 0) == 0
  {
  }

  lemma SameAdd(x: int, y: int, d: int)
    requires U32(x) == U32(y)
    ensures U32(d + x) == U32(d + y)
  {
    hide U32;
    AddBoth(x, y, d);
    assert d + x == x + d && d + y == y + d;
  }

  lemma PartTicks(fs: seq<Frame>, lo: nat, hi: nat, f: Frame)
    requires lo < hi <= |fs|
    ensures var gs := fs + [f];
            U32(Ticks(fs[lo..hi])) == U32(Offset(gs, hi - 1) - Offset(gs, lo) + FALLBACK)
  {
    hide Offset, U32;
    var gs := fs + [f];
    Between(gs, lo, hi - 1);
    assert fs[lo..hi][0] == gs[lo] && fs[lo..hi][hi - lo - 1] == gs[hi - 1];
    AddBoth(gs[hi - 1].ts - gs[lo].ts, Offset(gs, hi - 1) - Offset(gs, lo), FALLBACK);
    Twice(gs[hi - 1].ts - gs[lo].ts + FALLBACK);
  }

  lemma Twice(x: int)
    ensures U32(U32(x)) == U32(x)
  {
  }

  /** Main result: what the code tests for the next frame, in every segment: the true time since the parts
      so far, plus the gaps behind them, less 3000 ticks for each.  The drift adds up over the parts. */
  lemma ClockDrift(fs: seq<Frame>, cuts: seq<Cut>, f: Frame)
    requires fs != [] && CutsOk(fs, cuts) && CutsIn(fs, cuts)
    ensures forall i :: 0 <= i < |cuts| ==> 0 < cuts[i].hi < |fs + [f]|
    ensures End(cuts) <= |fs|
    ensures var gs := fs + [f];
            U32(f.ts - PartStart(fs, cuts)) ==
              U32(Offset(gs, |fs|) - Offset(gs, End(cuts)) + Gaps(gs, cuts) - FALLBACK * |cuts|)
  {
    hide Offset, CutsOk, CutsIn, U32, CutTicks, Gaps;
    var gs := fs + [f];
    TicksAndGaps(fs, cuts, f);
    Between(gs, 0, |fs|);
    NoOffset(gs);
    var covered := Offset(gs, End(cuts)) - Gaps(gs, cuts) + FALLBACK * |cuts|;
    WrapMinus(f.ts, fs[0].ts + CutTicks(fs, cuts));
    SameSub(CutTicks(fs, cuts), covered, f.ts - fs[0].ts);
    AddBoth(f.ts - fs[0].ts, Offset(gs, |fs|), -covered);
  }

  lemma SameSub(x: int, y: int, d: int)
    requires U32(x) == U32(y)
    ensures U32(d - x) == U32(d - y)
  {
    WrapMinus(d, x);
    WrapMinus(d, y);
  }

  /** Main result: right behind its parts a segment's next frame is due as a part of its own exactly when
      the gaps behind the parts, less 3000 ticks for each, come to two seconds or wrap around. */
  lemma EarlyPart(fs: seq<Frame>, cuts: seq<Cut>, f: Frame)
    requires fs != [] && CutsOk(fs, cuts) && CutsIn(fs, cuts) && End(cuts) == |fs|
    ensures forall i :: 0 <= i < |cuts| ==> 0 < cuts[i].hi < |fs + [f]|
    ensures U32(f.ts - PartStart(fs, cuts)) >= PART_TICKS <==>
              U32(Gaps(fs + [f], cuts) - FALLBACK * |cuts|) >= PART_TICKS
  {
    hide Offset, CutsOk, U32, CutTicks, Gaps;
    ClockDrift(fs, cuts, f);
  }

  /** Without a wrap the part clock is in time, and the subtraction does not underflow, exactly when the
      gaps behind the parts come to 3000 ticks for each on average. */
  lemma ClockInTime(fs: seq<Frame>, cuts: seq<Cut>, f: Frame)
    requires fs != [] && CutsOk(fs, cuts) && CutsIn(fs, cuts) && End(cuts) == |fs| && Unwrapped(fs + [f])
    ensures forall i :: 0 <= i < |cuts| ==> 0 < cuts[i].hi < |fs + [f]|
    ensures CutTicks(fs, cuts) == Offset(fs + [f], |fs|) + FALLBACK * |cuts| - Gaps(fs + [f], cuts)
    ensures CutTicks(fs, cuts) <= Offset(fs + [f], |fs|) <==> Gaps(fs + [f], cuts) >= FALLBACK * |cuts|
  {
    hide Offset, CutsOk, CutTicks, Gaps;
    ExactTicks(fs, cuts, f);
  }

  lemma {:induction false} ExactTicks(fs: seq<Frame>, cuts: seq<Cut>, f: Frame)
    requires fs != [] && CutsOk(fs, cuts) && CutsIn(fs, cuts) && Unwrapped(fs + [f])
    ensures forall i :: 0 <= i < |cuts| ==> 0 < cuts[i].hi < |fs + [f]|
    ensures End(cuts) <= |fs|
    ensures CutTicks(fs, cuts) == Offset(fs + [f], End(cuts)) + FALLBACK * |cuts| - Gaps(fs + [f], cuts)
    decreases |cuts|
  {
    hide Offset, CutsOk, Ticks, Deltas, Unwrapped;
    CutsBefore(fs, cuts, f);
    EndInRange(fs, cuts);
    var gs := fs + [f];
    if cuts == [] {
      NoOffset(gs);
    } else {
      var n := |cuts| - 1;
      var front, c := cuts[..n], cuts[n];
      CutsFront(fs, cuts);
      ExactTicks(fs, front, f);
      assert fs[c.lo..c.hi] == gs[c.lo..c.hi];
      TrueTicks(gs, c.lo, c.hi);
      OffsetNext(gs, c.hi - 1);
    }
  }

  // ---- above thirty frames per second ----

  /** Neighbours less than 3000 ticks apart. */
  ghost predicate Dense(fs: seq<Frame>) { forall i :: 0 <= i < |fs| - 1 ==> Deltas(fs)[i] < FALLBACK }

  /** So many parts may the clock run ahead before the difference falls below two seconds again. */
  const LEAD: nat := (TWO32 - PART_TICKS) / FALLBACK

  lemma {:induction false} ShortGaps(fs: seq<Frame>, cuts: seq<Cut>)
    requires Dense(fs) && forall i :: 0 <= i < |cuts| ==> 0 < cuts[i].hi < |fs|
    ensures Gaps(fs, cuts) <= (FALLBACK - 1) * |cuts|
  {
    hide Deltas;
    if cuts != [] { ShortGaps(fs, cuts[..|cuts| - 1]); }
  }

  lemma Underflow(gaps: nat, n: nat)
    requires 0 < n <= LEAD && gaps <= (FALLBACK - 1) * n
    ensures U32(gaps - FALLBACK * n) >= PART_TICKS
  {
    var d := gaps - FALLBACK * n;
    assert d < 0 && d + TWO32 >= PART_TICKS;
    assert d + TWO32 == U32(d);
  }

  /** The segment `r` is in has just been cut, at its end. */
  ghost predicate JustCut(r: Ref) {
    r.open != [] && r.cuts != [] && CutsOk(r.open, r.cuts) && CutsIn(r.open, r.cuts) && End(r.cuts) == |r.open|
  }

  /** One part for each of `n` frames from `lo` on. */
  function Singles(lo: nat, n: nat, seqNo: uint32): (r: seq<Cut>)
    ensures |r| == n
  {
    seq(n, i requires 0 <= i < n => Cut(lo + i, lo + i + 1, U32(seqNo + i)))
  }

  function WithSingles(r: Ref, fs: seq<Frame>): Ref {
    r.(open := r.open + fs, cuts := r.cuts + Singles(|r.open|, |fs|, r.seqNo), seqNo := U32(r.seqNo + |fs|))
  }

  /** Main result: in a segment of such frames the clock never recovers: behind a part the next frame is a
      part of its own. */
  lemma NextFrameAlone(e: Env, r: Ref, f: Frame)
    requires e.partsOn && JustCut(r) && |r.cuts| <= LEAD
    requires Dense(r.open + [f]) && !Boundary(r.open, f)
    ensures RefStep(e, r, f) == WithSingles(r, [f]) && JustCut(RefStep(e, r, f))
  {
    hide Gaps, Dense, U32, CutTicks, Boundary, Singles, CutsOk;
    EarlyPart(r.open, r.cuts, f);
    ShortGaps(r.open + [f], r.cuts);
    Underflow(Gaps(r.open + [f], r.cuts), |r.cuts|);
    CutTicksExtend(r.open, f, r.cuts);
    ExtendCuts(r.open, f, r.cuts);
    OneSingle(|r.open|, r.seqNo);
    CutsGrow(r.(open := r.open + [f]));
  }

  lemma OneSingle(lo: nat, seqNo: uint32)
    ensures Singles(lo, 1, seqNo) == [Cut(lo, lo + 1, seqNo)]
  {
    assert U32(seqNo + 0) == seqNo;
  }

  ghost predicate NoBoundaryFrom(open: seq<Frame>, fs: seq<Frame>) {
    forall j :: 0 <= j < |fs| ==> !Boundary(open + fs[..j], fs[j])
  }

  lemma SinglesSplit(r: Ref, fs: seq<Frame>, f: Frame)
    ensures WithSingles(WithSingles(r, fs), [f]) == WithSingles(r, fs + [f])
  {
    var n := |fs|;
    Wrap32(r.seqNo + n, 1);
    assert r.open + fs + [f] == r.open + (fs + [f]);
    OneSingle(|r.open + fs|, U32(r.seqNo + n));
    assert Singles(|r.open|, n + 1, r.seqNo) == Singles(|r.open|, n, r.seqNo) + Singles(|r.open + fs|, 1, U32(r.seqNo + n));
    assert (r.cuts + Singles(|r.open|, n, r.seqNo)) + Singles(|r.open + fs|, 1, U32(r.seqNo + n))
        == r.cuts + Singles(|r.open|, n + 1, r.seqNo);
  }

  lemma DenseFront(fs: seq<Frame>, f: Frame)
    requires Dense(fs + [f])
    ensures Dense(fs)
  {
    forall i | 0 <= i < |fs| - 1 ensures Deltas(fs)[i] < FALLBACK { assert Deltas(fs)[i] == Deltas(fs + [f])[i]; }
  }

  /** Main result, over a run: and so is every frame after it, up to the end of the segment. */
  lemma {:induction false} EveryFrameAlone(e: Env, a: seq<Frame>, fs: seq<Frame>)
    requires e.partsOn && JustCut(RefRun(e, a)) && |RefRun(e, a).cuts| + |fs| <= LEAD + 1
    requires Dense(RefRun(e, a).open + fs) && NoBoundaryFrom(RefRun(e, a).open, fs)
    ensures RefRun(e, a + fs) == WithSingles(RefRun(e, a), fs) && JustCut(RefRun(e, a + fs))
    decreases |fs|
  {
    hide RefRun, RefStep, Dense, Boundary, JustCut, WithSingles;
    var r := RefRun(e, a);
    if fs == [] {
      assert a + fs == a;
      NoSingles(r);
    } else {
      var n := |fs| - 1;
      var front, f := fs[..n], fs[n];
      assert fs == front + [f] && r.open + fs == (r.open + front) + [f] && a + fs == (a + front) + [f];
      DenseFront(r.open + front, f);
      assert NoBoundaryFrom(r.open, front) by {
        forall j | 0 <= j < n ensures !Boundary(r.open + front[..j], front[j]) { assert front[..j] == fs[..j]; }
      }
      EveryFrameAlone(e, a, front);
      RefRunStep(e, a + front, f);
      SinglesShape(r, front);
      NextFrameAlone(e, RefRun(e, a + front), f);
      SinglesSplit(r, front, f);
    }
  }

  lemma NoSingles(r: Ref)
    ensures WithSingles(r, []) == r
  {
    assert r.open + [] == r.open && r.cuts + [] == r.cuts && Singles(|r.open|, 0, r.seqNo) == [];
  }

  lemma SinglesShape(r: Ref, fs: seq<Frame>)
    ensures WithSingles(r, fs).open == r.open + fs && |WithSingles(r, fs).cuts| == |r.cuts| + |fs|
  {
  }

  // ---- the flag ----

  /** The flag of a part.  What is promised of it, that it says whether the part begins with a keyframe, holds
      exactly for the first part of a segment and for those that begin with none. */
  lemma IndependentFlag(e: Env, fs: seq<Frame>, cuts: seq<Cut>, j: nat)
    requires CutsIn(fs, cuts) && j < |cuts|
    ensures Record(e, fs, cuts, j).independent == fs[cuts[j].lo].key <==> j == 0 || !fs[cuts[j].lo].key
  {
    assert fs[cuts[j].lo..cuts[j].hi][0] == fs[cuts[j].lo];
  }
}
