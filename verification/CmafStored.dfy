/** What the live segmenter hands to its sink on every run, in plain terms: the init segment, every segment and
    every part, byte for byte up to the fragment encoder, and the numbers they carry. */
module CmafStored {
  import opened Bytes
  import opened Results
  import opened Nal
  import opened LivePin
  import opened Cmaf
  import opened CmafProofs
  import opened CmafRuns
  import opened CmafParts
  import opened CmafHeld

  // ---- parameter sets ----

  /** All NAL units of the frames, in order. */
  function Units(fs: seq<Frame>): seq<bytes> {
    if fs == [] then [] else Units(fs[..|fs| - 1]) + Split(fs[|fs| - 1].nal)
  }

  /** The low five bits of a unit's first byte are its type. */
  predicate HasTypeBits(u: bytes, t: int) { u != [] && u[0] % 32 == t }

  /** `u` is the last unit of type `t`; empty when there is none. */
  ghost predicate NewestOf(us: seq<bytes>, t: int, u: bytes) {
    if u == [] then forall i :: 0 <= i < |us| ==> !HasTypeBits(us[i], t)
    else exists i :: 0 <= i < |us| && us[i] == u && HasTypeBits(u, t) && forall j :: i < j < |us| ==> !HasTypeBits(us[j], t)
  }

  lemma NewestNext(us: seq<bytes>, t: int, u: bytes, v: bytes)
    requires NewestOf(us, t, u)
    ensures NewestOf(us + [v], t, if HasTypeBits(v, t) then v else u)
  {
    hide HasTypeBits;
    var ws := us + [v];
    assert ws[|us|] == v;
    if HasTypeBits(v, t) {
      TypedNotEmpty(v, t);
    } else if u != [] {
      var i :| 0 <= i < |us| && us[i] == u && HasTypeBits(u, t) && forall j :: i < j < |us| ==> !HasTypeBits(us[j], t);
      assert ws[i] == u;
      forall j | i < j < |ws| ensures !HasTypeBits(ws[j], t) { assert j < |us| ==> ws[j] == us[j]; }
    }
  }

  lemma TypedNotEmpty(u: bytes, t: int)
    requires HasTypeBits(u, t)
    ensures u != []
  {
  }

  lemma {:induction false} NewestScan(us: seq<bytes>, vs: seq<bytes>, t: int, u: bytes)
    requires NewestOf(us, t, u)
    ensures NewestOf(us + vs, t, LastOfType(vs, t, u))
    decreases |vs|
  {
    hide NewestOf;
    if vs == [] {
      assert us + vs == us;
    } else {
      var n := |vs| - 1;
      NewestScan(us, vs[..n], t, u);
      NewestNext(us + vs[..n], t, LastOfType(vs[..n], t, u), vs[n]);
      assert us + vs == us + vs[..n] + [vs[n]];
      LastAgain(vs, t, u);
    }
  }

  lemma {:induction false} LastAgain(vs: seq<bytes>, t: int, u: bytes)
    requires vs != []
    ensures LastOfType(vs, t, u) ==
            if HasTypeBits(vs[|vs| - 1], t) then vs[|vs| - 1] else LastOfType(vs[..|vs| - 1], t, u)
  {
  }

  /** The parameter set in force is the newest of its type in all frames so far. */
  lemma {:induction false} ParamIsNewest(fs: seq<Frame>, t: int)
    ensures NewestOf(Units(fs), t, ParamAfter(fs, t))
  {
    hide NewestOf, LastOfType, Split;
    if fs == [] {
      NoneNewest(t);
    } else {
      var front, f := fs[..|fs| - 1], fs[|fs| - 1];
      ParamIsNewest(front, t);
      NewestScan(Units(front), Split(f.nal), t, ParamAfter(front, t));
    }
  }

  lemma NoneNewest(t: int)
    ensures NewestOf([], t, [])
  {
  }

  // ---- the init segment ----

  /** The first `n` frames make the init segment possible, and no fewer do. */
  ghost predicate FirstReady(e: Env, fs: seq<Frame>, n: nat) {
    0 < n <= |fs| && Ready(e, fs[..n]) && forall m :: 0 < m < n ==> !Ready(e, fs[..m])
  }

  ghost predicate NeverReady(e: Env, fs: seq<Frame>) { forall m :: 0 < m <= |fs| ==> !Ready(e, fs[..m]) }

  /** The admitted frames are all from the first at which the init segment can be built. */
  lemma {:induction false} AdmittedFrom(e: Env, fs: seq<Frame>)
    ensures Admitted(e, fs) == [] ==> NeverReady(e, fs)
    ensures Admitted(e, fs) != [] ==>
              var n := |fs| - |Admitted(e, fs)| + 1;
              n > 0 && FirstReady(e, fs, n) && Admitted(e, fs) == fs[n - 1..]
  {
    hide Ready, FirstReady, NeverReady;
    if fs == [] {
      NoFrames(e);
    } else {
      var k := |fs| - 1;
      var front, f := fs[..k], fs[k];
      assert fs == front + [f];
      AdmittedFrom(e, front);
      AdmittedStep(e, front, f);
      ReadyNext(e, front, f);
      if Admitted(e, front) != [] {
        var n := |front| - |Admitted(e, front)| + 1;
        assert FirstReady(e, front, n);
        assert front[n - 1..] + [f] == fs[n - 1..] by { FirstInRange(e, front, n); }
      } else {
        assert [f] == fs[k..];
      }
    }
  }

  lemma NoFrames(e: Env)
    ensures NeverReady(e, []) && Admitted(e, []) == []
  {
  }

  lemma FirstInRange(e: Env, fs: seq<Frame>, n: nat)
    requires FirstReady(e, fs, n)
    ensures 0 < n <= |fs|
  {
  }

  lemma ReadyNext(e: Env, fs: seq<Frame>, f: Frame)
    ensures NeverReady(e, fs) ==> if Ready(e, fs + [f]) then FirstReady(e, fs + [f], |fs| + 1) else NeverReady(e, fs + [f])
    ensures forall n: nat :: FirstReady(e, fs, n) ==> FirstReady(e, fs + [f], n)
  {
    hide Ready;
    var gs := fs + [f];
    assert gs[..|gs|] == gs;
    forall m | 0 <= m <= |fs| ensures gs[..m] == fs[..m] {}
  }

  lemma OneFirst(e: Env, fs: seq<Frame>, m: nat, n: nat)
    requires FirstReady(e, fs, m) && FirstReady(e, fs, n)
    ensures m == n
  {
    hide Ready;
  }

  /** `b` is what the encoder made of the newest parameter sets at the first moment it could. */
  ghost predicate IsInit(e: Env, fs: seq<Frame>, b: bytes) {
    if Admitted(e, fs) == [] then b == []
    else
      var p := fs[..Min(|fs|, |fs| - |Admitted(e, fs)| + 1)];
      e.mp4.init(ParamAfter(p, 7), ParamAfter(p, 8)) == Some(b)
  }

  function Min(a: nat, b: int): nat { if 0 <= b < a then b else a }

  lemma SampleKeepsInit(e: Env, l: Live, f: Frame)
    ensures IngestSample(e, l, f).live.k.initSeg == l.k.initSeg
  {
    hide Sum, FinalDurs, Sample, TakesPart, TakesSegment, PartsOf, U32, Append, Begin, Cutting;
  }

  lemma InitPhaseSets(e: Env, l: Live)
    ensures var i := InitPhase(e, l);
            if !l.s.initEmitted && i.live.s.initEmitted then
              e.mp4.init(l.s.sps, l.s.pps) == Some(i.live.k.initSeg)
            else i.live.k.initSeg == l.k.initSeg
  {
  }

  lemma StepInit(e: Env, l: Live, fs: seq<Frame>, f: Frame)
    requires Follows(e, l, fs) && IsInit(e, fs, l.k.initSeg)
    ensures IsInit(e, fs + [f], Ingest(e, l, f).live.k.initSeg)
  {
    hide LastOfType, Couples, RefRun, IngestSample, InitPhase, ParamAfter, Ready, Admitted;
    var p := Live(Params(l.s, f), l.k);
    var i := InitPhase(e, p).live;
    var gs := fs + [f];
    InitDecides(e, l, fs, f);
    InitPhaseSets(e, p);
    SampleKeepsInit(e, i, f);
    AdmittedStep(e, fs, f);
    AdmittedShorter(e, fs);
    if Admitted(e, fs) != [] {
      var n := |fs| - |Admitted(e, fs)| + 1;
      assert gs[..n] == fs[..n];
    } else {
      assert gs[..|gs|] == gs;
    }
  }

  lemma {:induction false} AdmittedShorter(e: Env, fs: seq<Frame>)
    ensures |Admitted(e, fs)| <= |fs|
  {
    AdmittedFrom(e, fs);
    hide Ready;
  }

  lemma {:induction false} RunInit(e: Env, fs: seq<Frame>)
    ensures IsInit(e, fs, Run(e, fs).k.initSeg)
  {
    hide IsInit, Ingest, Follows;
    if fs == [] {
      StartInit(e);
    } else {
      var n := |fs| - 1;
      RunInit(e, fs[..n]);
      EveryRunFollows(e, fs[..n]);
      StepInit(e, Run(e, fs[..n]), fs[..n], fs[n]);
      assert fs == fs[..n] + [fs[n]];
    }
  }

  lemma StartInit(e: Env)
    ensures IsInit(e, [], START.k.initSeg)
  {
  }

  /** Main result: on every run, `Close` included, the sink holds no init segment before the first frame by which
      both parameter sets are known and can be encoded; from then on it holds what the encoder made of the
      sets that were newest then, whatever comes later. */
  lemma InitInFull(e: Env, fs: seq<Frame>)
    ensures var b := Run(e, fs).k.initSeg;
            && Flush(e, Run(e, fs)).live.k.initSeg == b
            && (NeverReady(e, fs) ==> b == [] && Admitted(e, fs) == [])
            && (forall n: nat :: FirstReady(e, fs, n) ==>
                  e.mp4.init(ParamAfter(fs[..n], 7), ParamAfter(fs[..n], 8)) == Some(b) && Admitted(e, fs) == fs[n - 1..])
  {
    hide Ready, ParamAfter, Run;
    RunInit(e, fs);
    AdmittedFrom(e, fs);
    FlushKeepsInit(e, Run(e, fs));
    assert fs[..|fs|] == fs;
    if Admitted(e, fs) != [] {
      var k := |fs| - |Admitted(e, fs)| + 1;
      forall n: nat | FirstReady(e, fs, n) ensures n == k { OneFirst(e, fs, n, k); }
    }
  }

  lemma FlushKeepsInit(e: Env, l: Live)
    ensures Flush(e, l).live.k.initSeg == l.k.initSeg
  {
    hide FinalDurs, TakesSegment;
  }

  // ---- segments ----

  /** The durations of a run of frames: to the next frame, modulo 2^32; the last stands for 1/30 second. */
  function Times(fs: seq<Frame>): (r: seq<uint32>)
    ensures |r| == |fs|
  {
    seq<uint32>(|fs|, i requires 0 <= i < |fs| =>
      if i + 1 < |fs| then (fs[i + 1].ts - fs[i].ts) % 0x1_0000_0000 else 3000)
  }

  function SamplesOf(fs: seq<Frame>): (r: seq<bytes>)
    ensures |r| == |fs|
  {
    seq<bytes>(|fs|, i requires 0 <= i < |fs| => Sample(fs[i].nal))
  }

  /** Cut where a keyframe comes six seconds, 540000 ticks, or more after the first frame of the group, and
      nowhere else. */
  ghost predicate CutPlainly(gs: seq<seq<Frame>>) {
    && (forall i :: 0 <= i < |gs| ==> gs[i] != [])
    && (forall i :: 0 < i < |gs| ==>
          gs[i][0].key && (gs[i][0].ts - gs[i - 1][0].ts) % 0x1_0000_0000 >= 540_000)
    && (forall i, j :: 0 <= i < |gs| && 0 < j < |gs[i]| ==>
          !(gs[i][j].key && (gs[i][j].ts - gs[i][0].ts) % 0x1_0000_0000 >= 540_000))
  }

  lemma GreedyPlainly(gs: seq<seq<Frame>>)
    requires IsGreedy(gs)
    ensures CutPlainly(gs)
  {
    forall i | 0 < i < |gs| ensures gs[i][0].key && (gs[i][0].ts - gs[i - 1][0].ts) % 0x1_0000_0000 >= 540_000 {
      assert Boundary(gs[i - 1], gs[i][0]);
    }
    forall i, j | 0 <= i < |gs| && 0 < j < |gs[i]|
      ensures !(gs[i][j].key && (gs[i][j].ts - gs[i][0].ts) % 0x1_0000_0000 >= 540_000)
    {
      assert NoBoundaryInside(gs[i]);
      assert !Boundary(gs[i][..j], gs[i][j]);
      assert gs[i][..j][0] == gs[i][0];
    }
  }

  lemma BodyPlainly(e: Env, d: Delivered)
    requires d.frames != []
    ensures Body(e, d) == e.mp4.frag(d.seqNo, SamplesOf(d.frames), Times(d.frames), true)
  {
    assert Samples(d.frames) == SamplesOf(d.frames);
    assert Deltas(d.frames) + [FALLBACK] == Times(d.frames);
  }

  /** Main result: what is stored after any frames and `Close`.  The groups are the admitted frames in order, cut
      at keyframes six seconds in; the first is dropped if it has none; each other is one segment: the
      fragment of all its samples with their durations, written as beginning with a sync sample. */
  lemma StoredInFull(e: Env, fs: seq<Frame>)
    ensures var a := Admitted(e, fs);
            var c := Close(RefRun(e, a));
            var gs := (if c.lost == [] then [] else [c.lost]) + FramesOf(c.done);
            var stored := Flush(e, Run(e, fs)).live.k.segments;
            && Concat(gs) == a && CutPlainly(gs)
            && (c.lost != [] <==> a != [] && forall j :: 0 <= j < |gs[0]| ==> !gs[0][j].key)
            && |stored| == |c.done|
            && (forall i :: 0 <= i < |stored| ==>
                  stored[i] == e.mp4.frag(c.done[i].seqNo, SamplesOf(c.done[i].frames), Times(c.done[i].frames), true))
  {
    hide *;
    var a := Admitted(e, fs);
    var r := RefRun(e, a);
    DeliveryLosesNothing(e, fs);
    RunsAreGreedy(e, a);
    GreedyCuts(a);
    ClosedGroups(r);
    GroupsPlainly(Close(r));
    GreedyPlainly(Greedy(a));
    FirstOfConcat(Greedy(a));
    PlainKey(Greedy(a));
    StoredBodies(e, Close(r).done);
  }

  lemma GroupsPlainly(c: Ref)
    requires c.open == []
    ensures Groups(c) == (if c.lost == [] then [] else [c.lost]) + FramesOf(c.done)
  {
  }

  lemma PlainKey(gs: seq<seq<Frame>>)
    ensures gs != [] ==> (!HasKey(gs[0]) <==> forall j :: 0 <= j < |gs[0]| ==> !gs[0][j].key)
  {
  }

  lemma StoredBodies(e: Env, ds: seq<Delivered>)
    requires DoneOk(ds)
    ensures |Bodies(e, ds)| == |ds|
    ensures forall i :: 0 <= i < |ds| ==>
              Bodies(e, ds)[i] == e.mp4.frag(ds[i].seqNo, SamplesOf(ds[i].frames), Times(ds[i].frames), true)
  {
    hide Body, CutsOk, CutsIn, HasKey;
    forall i | 0 <= i < |ds|
      ensures Bodies(e, ds)[i] == e.mp4.frag(ds[i].seqNo, SamplesOf(ds[i].frames), Times(ds[i].frames), true)
    {
      BodyPlainly(e, ds[i]);
    }
  }

  // ---- parts ----

  /** The record of part `j` in plain terms. */
  lemma PartPlainly(e: Env, fs: seq<Frame>, cuts: seq<Cut>, j: nat)
    requires CutsIn(fs, cuts) && j < |cuts|
    ensures var p := fs[cuts[j].lo..cuts[j].hi];
            var sync := j == 0 && p[0].key;
            Record(e, fs, cuts, j) ==
              PartRecord(j % 0x1_0000_0000, e.mp4.frag(cuts[j].seqNo, SamplesOf(p), Times(p), sync),
                         (p[|p| - 1].ts - p[0].ts + 3000) % 0x1_0000_0000, sync)
  {
    var p := fs[cuts[j].lo..cuts[j].hi];
    assert Samples(p) == SamplesOf(p);
    assert Deltas(p) + [FALLBACK] == Times(p);
  }

  /** The time the parts of a segment have reported. */
  function Reported(fs: seq<Frame>, cuts: seq<Cut>): int
    requires CutsIn(fs, cuts)
  {
    if cuts == [] then 0
    else
      var n := |cuts| - 1;
      Reported(fs, cuts[..n]) + (fs[cuts[n].hi - 1].ts - fs[cuts[n].lo].ts + 3000) % 0x1_0000_0000
  }

  lemma {:induction false} ReportedTicks(fs: seq<Frame>, cuts: seq<Cut>)
    requires CutsIn(fs, cuts)
    ensures Reported(fs, cuts) == CutTicks(fs, cuts)
  {
    if cuts != [] { ReportedTicks(fs, cuts[..|cuts| - 1]); }
  }

  /** Main result: when a part is made, on every run: a frame joins the open segment, or opens the next one, and
      closes a part exactly when parts are on and the frame comes two seconds, 180000 ticks, or more after the
      first frame of the segment plus what the parts before have reported.  The part is all since the last. */
  lemma PartsMade(e: Env, a: seq<Frame>, f: Frame)
    ensures var r, n := RefRun(e, a), RefRun(e, a + [f]);
            var r1 := if Boundary(r.open, f) then Close(r) else r;
            && n.open == r1.open + [f] && CutsIn(n.open, r1.cuts)
            && n.cuts == r1.cuts +
                 if e.partsOn && (f.ts - (n.open[0].ts + Reported(n.open, r1.cuts)) % 0x1_0000_0000) % 0x1_0000_0000 >= 180_000
                 then [Cut(End(r1.cuts), |n.open|, r1.seqNo)] else []
  {
    hide RefRun, RefStep, AddFrame, Close, Boundary, CutsIn, Reported, End, Groups, Greedy, RefOk, U32;
    var r := RefRun(e, a);
    RunsAreGreedy(e, a);
    RefRunStep(e, a, f);
    CutsStay(r, f);
    StepIs(e, r, f);
    PartMade(e, if Boundary(r.open, f) then Close(r) else r, f);
  }

  lemma StepIs(e: Env, r: Ref, f: Frame)
    ensures RefStep(e, r, f) == AddFrame(e, if Boundary(r.open, f) then Close(r) else r, f)
  {
  }

  lemma PartMade(e: Env, r: Ref, f: Frame)
    requires CutsIn(r.open, r.cuts)
    ensures var n := AddFrame(e, r, f);
            && n.open == r.open + [f] && CutsIn(n.open, r.cuts)
            && n.cuts == r.cuts +
                 if e.partsOn && (f.ts - (n.open[0].ts + Reported(n.open, r.cuts)) % 0x1_0000_0000) % 0x1_0000_0000 >= 180_000
                 then [Cut(End(r.cuts), |n.open|, r.seqNo)] else []
  {
    hide Reported, CutTicks, End, CutsIn;
    CutTicksExtend(r.open, f, r.cuts);
    AddFrameShape(e, r, f);
    ReportedTicks(r.open + [f], r.cuts);
    assert r.cuts + [] == r.cuts;
  }

  lemma CutsStay(r: Ref, f: Frame)
    requires RefOk(r)
    ensures var r1 := if Boundary(r.open, f) then Close(r) else r; CutsIn(r1.open, r1.cuts)
  {
    hide HasKey;
    if Boundary(r.open, f) { CloseGroups(r); }
  }

  // ---- the numbers ----

  /** The numbers given out on one frame: to the segment it closes, and to the part it closes. */
  ghost function Given(e: Env, r: Ref, f: Frame): seq<uint32> {
    var r1 := if Boundary(r.open, f) then Close(r) else r;
    var n := AddFrame(e, r1, f);
    (if |r1.done| > |r.done| then [r1.done[|r.done|].seqNo] else []) +
    (if |n.cuts| > |r1.cuts| then [n.cuts[|r1.cuts|].seqNo] else [])
  }

  ghost function Numbers(e: Env, a: seq<Frame>): seq<uint32> {
    if a == [] then [] else Numbers(e, a[..|a| - 1]) + Given(e, RefRun(e, a[..|a| - 1]), a[|a| - 1])
  }

  function CountingUp(n: nat): (r: seq<uint32>)
    ensures |r| == n
  {
    seq<uint32>(n, i requires 0 <= i < n => (1 + i) % 0x1_0000_0000)
  }

  lemma GivenStep(e: Env, r: Ref, f: Frame, n: nat)
    requires r.seqNo == U32(1 + n)
    ensures var g := Given(e, r, f);
            |g| <= 2 && (forall i :: 0 <= i < |g| ==> g[i] == U32(1 + n + i)) && RefStep(e, r, f).seqNo == U32(1 + n + |g|)
  {
    hide CutsIn, PartStart, HasKey, End;
    Wrap32(1 + n, 1);
    Wrap32(2 + n, 1);
  }

  /** Main result: fragments, of segments and of parts alike, are numbered 1, 2, 3, … in the order in which they are
      made, modulo 2^32; the segment that `Close` makes takes the next. */
  lemma {:induction false} NumbersCountUp(e: Env, a: seq<Frame>)
    ensures Numbers(e, a) == CountingUp(|Numbers(e, a)|)
    ensures RefRun(e, a).seqNo == U32(1 + |Numbers(e, a)|)
    ensures var r := RefRun(e, a); |Close(r).done| > |r.done| ==> Close(r).done[|r.done|].seqNo == r.seqNo
  {
    hide Given, RefStep, Close, CountingUp, U32;
    CloseTakesNext(RefRun(e, a));
    if a == [] {
      FirstNumber(e);
    } else {
      var front := a[..|a| - 1];
      NumbersCountUp(e, front);
      GivenStep(e, RefRun(e, front), a[|a| - 1], |Numbers(e, front)|);
      CountFurther(|Numbers(e, front)|, Given(e, RefRun(e, front), a[|a| - 1]));
    }
  }

  lemma FirstNumber(e: Env)
    ensures CountingUp(0) == [] && RefRun(e, []).seqNo == U32(1)
  {
  }

  lemma CloseTakesNext(r: Ref)
    ensures |Close(r).done| > |r.done| ==> Close(r).done[|r.done|].seqNo == r.seqNo
  {
    hide HasKey;
  }

  lemma CountFurther(n: nat, g: seq<uint32>)
    requires forall i :: 0 <= i < |g| ==> g[i] == U32(1 + n + i)
    ensures CountingUp(n) + g == CountingUp(n + |g|)
  {
  }
}
