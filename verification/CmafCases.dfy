/** Runs of the live segmenter on which it does not do what its comments promise, and what it does there. */
module CmafCases {
  import opened Bytes
  import opened Nal
  import opened LivePin
  import opened Cmaf
  import opened CmafProofs
  import opened CmafRuns
  import opened CmafParts
  import opened CmafHeld

  // ---- a segment that does not begin with the sync sample it is written to begin with ----

  /** A keyframe soon after the packet that brought the parameter sets. */
  const SOON: Frame := KEY.(ts := 3000)

  lemma OpenPair(e: Env)
    ensures RefRun(e, [SETS, SOON]) == REF_START.(open := [SETS, SOON])
  {
    assert [] + [SETS] == [SETS] && [SETS] + [SOON] == [SETS, SOON];
    FirstFrame(e, SETS);
    RefRunStep(e, [], SETS);
    RefRunStep(e, [SETS], SOON);
    hide RefRun;
    CutTicksExtend([SETS], SOON, []);
    assert PartStart([SETS, SOON], []) == 0;
  }

  /** Parameter sets in a packet of their own, then a keyframe, then `Close`: the segment stored begins with the
      packet of parameter sets, for every encoder that accepts these. */
  lemma NotSyncFirst(e: Env)
    requires e.mp4.init([7], [8]).Some?
    ensures var fs := [SETS, SOON];
            && Flush(e, Run(e, fs)).live.k.segments == [Body(e, Delivered(fs, [], 1))]
            && !SyncFirst(Delivered(fs, [], 1))
  {
    hide RefRun, Admitted, Run, Flush, Greedy, Body;
    var d := Delivered([SETS, SOON], [], 1);
    PairAdmitted(e);
    OpenPair(e);
    DeliveryLosesNothing(e, [SETS, SOON]);
    ClosedPair(e);
    assert Bodies(e, [d]) == [Body(e, d)];
  }

  lemma PairAdmitted(e: Env)
    requires e.mp4.init([7], [8]).Some?
    ensures Admitted(e, [SETS, SOON]) == [SETS, SOON]
  {
    SetsReady(e);
    hide Admitted;
    assert [SETS] + [SOON] == [SETS, SOON];
    KeptAdmitted(e, [SETS], SOON);
  }

  lemma ClosedPair(e: Env)
    ensures Close(REF_START.(open := [SETS, SOON])).done == [Delivered([SETS, SOON], [], 1)]
  {
    assert [SETS, SOON][1].key;
    assert [] + [Delivered([SETS, SOON], [], 1)] == [Delivered([SETS, SOON], [], 1)];
  }

  // ---- a part for every frame ----

  /** Frame `m` is the first two seconds or more after the first. */
  ghost predicate FirstLate(g: seq<Frame>, m: nat) {
    && m < |g| && U32(g[m].ts - g[0].ts) >= PART_TICKS
    && forall j :: 0 <= j < m ==> U32(g[j].ts - g[0].ts) < PART_TICKS
  }

  lemma InsideFrom(g: seq<Frame>, k: nat)
    requires NoBoundaryInside(g) && 0 < k <= |g|
    ensures NoBoundaryInside(g[..k]) && NoBoundaryFrom(g[..k], g[k..])
    ensures k < |g| ==> !Boundary(g[..k], g[k])
  {
    hide Boundary;
    forall j | 0 < j < k ensures !Boundary(g[..k][..j], g[..k][j]) { assert g[..k][..j] == g[..j]; }
    forall j | 0 <= j < |g| - k ensures !Boundary(g[..k] + g[k..][..j], g[k..][j]) {
      assert g[..k] + g[k..][..j] == g[..k + j];
    }
  }

  lemma FirstCut(e: Env, r: Ref, f: Frame)
    requires e.partsOn && r.open != [] && r.cuts == [] && !Boundary(r.open, f)
    requires U32(f.ts - r.open[0].ts) >= PART_TICKS
    ensures var n := RefStep(e, r, f);
            && n.open == r.open + [f] && n.cuts == [Cut(0, |r.open| + 1, r.seqNo)] && n.seqNo == U32(r.seqNo + 1)
            && JustCut(n)
  {
    hide U32;
    assert PartStart(r.open + [f], []) == U32(r.open[0].ts + 0);
    SameTime(r.open[0].ts);
    assert [] + [Cut(0, |r.open| + 1, r.seqNo)] == [Cut(0, |r.open| + 1, r.seqNo)];
  }

  lemma SameTime(t: uint32)
    ensures U32(t + 0) == t
  {
  }

  /** Main result: how a first group of frames less than 3000 ticks apart is cut: nothing for two seconds, one
      part of all that, and from then on every single frame is a part. */
  lemma DenseGroup(e: Env, g: seq<Frame>, m: nat)
    requires e.partsOn && NoBoundaryInside(g) && Dense(g) && FirstLate(g, m) && |g| - m <= LEAD + 1
    ensures 0 < m
    ensures var r := RefRun(e, g);
            && r.open == g && r.done == [] && r.clean
            && r.cuts == [Cut(0, m + 1, 1)] + Singles(m + 1, |g| - m - 1, 2)
  {
    hide NoBoundaryInside, NoBoundaryFrom, Boundary, Dense, HasLateFrame, RefRun, RefStep, Singles, Deltas;
    SameTime(g[0].ts);
    assert m > 0;
    var front, rest := g[..m], g[m + 1..];
    assert g[..m + 1] == front + [g[m]] && g == g[..m + 1] + rest;
    InsideFrom(g, m);
    InsideFrom(g, m + 1);
    FirstGroup(e, front);
    NotLateBefore(g, m);
    RefRunStep(e, front, g[m]);
    FirstCut(e, RefRun(e, front), g[m]);
    EveryFrameAlone(e, g[..m + 1], rest);
    FirstGroup(e, g);
  }

  lemma NotLateBefore(g: seq<Frame>, m: nat)
    requires FirstLate(g, m) && m > 0
    ensures !HasLateFrame(g[..m])
  {
    hide U32;
    forall j | 0 <= j < m ensures U32(g[..m][j].ts - g[..m][0].ts) < PART_TICKS {
      assert g[..m][j] == g[j] && g[..m][0] == g[0];
    }
  }

  /** Sixty frames per second: a keyframe with its parameter sets, then other frames. */
  function AtSixty(n: nat): (fs: seq<Frame>)
    requires n <= 1_000_000
    ensures |fs| == n
  {
    seq(n, i requires 0 <= i < n => if i == 0 then SETS.(key := true) else Frame([1], 1500 * i, false))
  }

  lemma {:induction false} SixtyAdmitted(e: Env, n: nat)
    requires e.mp4.init([7], [8]).Some? && 0 < n <= 1_000_000
    ensures Admitted(e, AtSixty(n)) == AtSixty(n)
  {
    if n == 1 {
      assert AtSixty(1) == [SETS.(key := true)];
      KeySetsReady(e);
    } else {
      SixtyAdmitted(e, n - 1);
      assert AtSixty(n) == AtSixty(n - 1) + [AtSixty(n)[n - 1]];
      KeptAdmitted(e, AtSixty(n - 1), AtSixty(n)[n - 1]);
    }
  }

  lemma KeySetsReady(e: Env)
    requires e.mp4.init([7], [8]).Some?
    ensures Admitted(e, [SETS.(key := true)]) == [SETS.(key := true)]
  {
    var f := SETS.(key := true);
    SetsReady(e);
    hide Split;
    assert [SETS][..0] == [] && [f][..0] == [] && [] + [f] == [f];
  }

  lemma SixtyShape(n: nat)
    requires 121 <= n <= 1_000_000
    ensures var g := AtSixty(n); NoBoundaryInside(g) && Dense(g) && FirstLate(g, 120)
  {
    var g := AtSixty(n);
    forall i | 0 <= i < n ensures g[i].ts == 1500 * i && (i > 0 ==> !g[i].key) {}
    hide AtSixty;
    forall i | 0 <= i < n - 1 ensures Deltas(g)[i] < FALLBACK { assert g[i + 1].ts - g[i].ts == 1500; }
    hide Deltas;
    assert U32(g[120].ts - g[0].ts) == PART_TICKS;
    forall j | 0 <= j < 120 ensures U32(g[j].ts - g[0].ts) < PART_TICKS { assert g[j].ts - g[0].ts == 1500 * j; }
  }

  /** What is promised is a part for every two seconds.  At sixty frames per second the sink holds, `n` frames
      into the segment, `n - 120` parts: one of 121 frames and one for every frame since. */
  lemma PartsAtSixty(e: Env, n: nat)
    requires e.partsOn && e.mp4.init([7], [8]).Some? && 121 <= n <= 1_000_000
    ensures var g := AtSixty(n);
            var cuts := [Cut(0, 121, 1)] + Singles(121, n - 121, 2);
            && CutsIn(g, cuts) && PartsOf(Run(e, g).k, 0) == Records(e, g, cuts) && |cuts| == n - 120
  {
    var g := AtSixty(n);
    hide *;
    SixtyAdmitted(e, n);
    SixtyShape(n);
    DenseGroup(e, g, 120);
    EveryCleanRun(e, g);
    OpenParts(e, Run(e, g).k, RefRun(e, g));
  }

  lemma OpenParts(e: Env, k: Sink, r: Ref)
    requires PartsCouple(e, k, r) && r.done == []
    ensures CutsIn(r.open, r.cuts) && PartsOf(k, 0) == Records(e, r.open, r.cuts)
  {
    hide Records, CutsIn, PartsOf;
  }
}
