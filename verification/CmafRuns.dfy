/** Whole runs of the live segmenter: what is delivered, what its parts are, and when the part
    clock can be trusted.
 */
module CmafRuns {
  import opened Bytes
  import opened Results
  import opened Nal
  import opened LivePin
  import opened Cmaf
  import opened CmafProofs

  // ---- the code follows the reference ----

  /** The state after `fs`: before the init segment nothing is buffered, afterwards the reference
      has seen the frames admitted since. */
  ghost predicate Follows(e: Env, l: Live, fs: seq<Frame>) {
    && Couples(e, l, RefRun(e, Admitted(e, fs)))
    && l.s.sps == ParamAfter(fs, 7) && l.s.pps == ParamAfter(fs, 8)
    && (l.s.initEmitted <==> Admitted(e, fs) != [])
    && (!l.s.initEmitted ==> l.k == EMPTY_SINK)
  }

  lemma ParamsKeepCoupling(e: Env, l: Live, r: Ref, f: Frame)
    requires Couples(e, l, r)
    ensures Couples(e, Live(Params(l.s, f), l.k), r)
  {
    hide LastOfType, HasKey, Samples, Durations, PartStart;
  }

  lemma InitKeepsCoupling(e: Env, l: Live, r: Ref)
    requires Couples(e, l, r)
    ensures Couples(e, InitPhase(e, l).live, r)
  {
    hide HasKey, Samples, Durations, PartStart;
  }

  lemma AdmittedStep(e: Env, fs: seq<Frame>, f: Frame)
    ensures Admitted(e, fs + [f]) ==
            if Admitted(e, fs) != [] || Ready(e, fs + [f]) then Admitted(e, fs) + [f] else []
    ensures ParamAfter(fs + [f], 7) == LastOfType(Split(f.nal), 7, ParamAfter(fs, 7))
    ensures ParamAfter(fs + [f], 8) == LastOfType(Split(f.nal), 8, ParamAfter(fs, 8))
  {
    assert (fs + [f])[..|fs|] == fs;
    hide Ready, LastOfType;
  }

  lemma RefRunStep(e: Env, a: seq<Frame>, f: Frame)
    ensures RefRun(e, a + [f]) == RefStep(e, RefRun(e, a), f)
  {
    assert (a + [f])[..|a|] == a;
    hide RefStep;
  }

  /** The init phase lets a frame through exactly when it is admitted, and is never refused. */
  lemma InitDecides(e: Env, l: Live, fs: seq<Frame>, f: Frame)
    requires Follows(e, l, fs)
    ensures var p := Live(Params(l.s, f), l.k);
            var i := InitPhase(e, p);
            && (i.live.s.initEmitted <==> Admitted(e, fs + [f]) != [])
            && (!i.live.s.initEmitted ==> i.live.k == EMPTY_SINK)
            && (i.live.s.initEmitted ==> i.outcome.Pass?)
            && i.outcome != Fail(InitRefused) && i.outcome != Fail(SegmentRefused)
            && i.live.s.sps == ParamAfter(fs + [f], 7) && i.live.s.pps == ParamAfter(fs + [f], 8)
  {
    AdmittedStep(e, fs, f);
    hide LastOfType, Couples, RefRun;
  }

  lemma SampleKeepsParams(e: Env, l: Live, f: Frame)
    ensures IngestSample(e, l, f).live.s.sps == l.s.sps && IngestSample(e, l, f).live.s.pps == l.s.pps
  {
    hide Sum, FinalDurs, AddSegment, AddPart, Sample, TakesPart, TakesSegment, PartsOf, U32;
  }

  lemma StepFollows(e: Env, l: Live, fs: seq<Frame>, f: Frame)
    requires Follows(e, l, fs)
    ensures Follows(e, Ingest(e, l, f).live, fs + [f])
    ensures Ingest(e, l, f).outcome != Fail(SegmentRefused) && Ingest(e, l, f).outcome != Fail(InitRefused)
  {
    var r := RefRun(e, Admitted(e, fs));
    var p := Live(Params(l.s, f), l.k);
    var i := InitPhase(e, p).live;
    InitDecides(e, l, fs, f);
    ParamsKeepCoupling(e, l, r, f);
    InitKeepsCoupling(e, p, r);
    AdmittedStep(e, fs, f);
    if i.s.initEmitted {
      SampleKeepsParams(e, i, f);
      StepCouples(e, i, r, f);
      RefRunStep(e, Admitted(e, fs), f);
      StepNotRefused(e, i, r, f);
    }
    hide Couples, RefRun, RefStep, IngestSample, InitPhase, Params, ParamAfter, Admitted;
  }

  lemma StepNotRefused(e: Env, l: Live, r: Ref, f: Frame)
    requires Couples(e, l, r)
    ensures IngestSample(e, l, f).outcome != Fail(InitRefused)
  {
    StepShape(e, l, r, f);
    var closed := if Boundary(r.open, f) then Flush(e, Live(Begin(l.s, f), l.k)).live else l;
    AppendAndCutShape(e, closed, f);
    hide *;
    EmitNotInit(e, Live(Append(Begin(closed.s, f), f), closed.k));
  }

  lemma EmitNotInit(e: Env, l: Live)
    ensures EmitPart(e, l).outcome != Fail(InitRefused)
  {
  }

  /** Main result: in every reachable state the fields are the reference's, the stored segments
      are exactly its delivered ones with their hashes beside them, and neither the init segment
      nor any media segment was ever refused. */
  lemma {:induction false} EveryRunFollows(e: Env, fs: seq<Frame>)
    ensures Follows(e, Run(e, fs), fs)
    ensures fs != [] ==>
              var step := Ingest(e, Run(e, fs[..|fs| - 1]), fs[|fs| - 1]);
              step.outcome != Fail(SegmentRefused) && step.outcome != Fail(InitRefused)
  {
    if fs == [] {
      StartCouples(e);
    } else {
      var n := |fs| - 1;
      EveryRunFollows(e, fs[..n]);
      assert fs == fs[..n] + [fs[n]];
      hide Follows, Ingest;
      StepFollows(e, Run(e, fs[..n]), fs[..n], fs[n]);
    }
  }

  lemma StartCouples(e: Env)
    ensures Couples(e, START, REF_START)
  {
    NoKey();
  }

  /** After `Close` the open segment is delivered too. */
  lemma CloseFollows(e: Env, fs: seq<Frame>)
    ensures var l := Run(e, fs);
            var r := RefRun(e, Admitted(e, fs));
            Flush(e, l).outcome.Pass? && SegmentsCouple(e, Flush(e, l).live.k, Close(r))
            && Flush(e, l).live.s.nextIdx == U32(|Flush(e, l).live.k.leaves|)
  {
    EveryRunFollows(e, fs);
    var l, r := Run(e, fs), RefRun(e, Admitted(e, fs));
    if r.open != [] {
      FlushCouples(e, l, r);
    }
  }

  // ---- what the reference promises ----

  /** The simplest segmentation: a frame joins the last group unless it is a boundary for it. */
  function Greedy(a: seq<Frame>): (gs: seq<seq<Frame>>)
    ensures a != [] ==> gs != []
  {
    if a == [] then []
    else
      var gs, f := Greedy(a[..|a| - 1]), a[|a| - 1];
      if gs == [] || Boundary(gs[|gs| - 1], f) then gs + [[f]]
      else gs[..|gs| - 1] + [gs[|gs| - 1] + [f]]
  }

  function Concat(gs: seq<seq<Frame>>): seq<Frame> {
    if gs == [] then [] else Concat(gs[..|gs| - 1]) + gs[|gs| - 1]
  }

  /** No frame inside the group was a boundary for the frames before it. */
  ghost predicate NoBoundaryInside(fs: seq<Frame>) {
    forall j :: 0 < j < |fs| ==> !Boundary(fs[..j], fs[j])
  }

  ghost predicate IsGreedy(gs: seq<seq<Frame>>) {
    && (forall i :: 0 <= i < |gs| ==> gs[i] != [] && NoBoundaryInside(gs[i]))
    && (forall i :: 0 < i < |gs| ==> Boundary(gs[i - 1], gs[i][0]))
  }

  lemma ConcatAppend(gs: seq<seq<Frame>>, g: seq<Frame>)
    ensures Concat(gs + [g]) == Concat(gs) + g
  {
    assert (gs + [g])[..|gs|] == gs;
  }

  lemma NoBoundaryAppend(fs: seq<Frame>, f: Frame)
    requires NoBoundaryInside(fs) && (fs != [] ==> !Boundary(fs, f))
    ensures NoBoundaryInside(fs + [f])
  {
    var gs := fs + [f];
    forall j | 0 < j < |gs| ensures !Boundary(gs[..j], gs[j]) {
      if j < |fs| { assert gs[..j] == fs[..j]; } else { assert gs[..j] == fs; }
    }
  }

  lemma GrowLast(gs: seq<seq<Frame>>, f: Frame)
    requires gs != [] && IsGreedy(gs) && !Boundary(gs[|gs| - 1], f)
    ensures IsGreedy(gs[..|gs| - 1] + [gs[|gs| - 1] + [f]])
    ensures Concat(gs[..|gs| - 1] + [gs[|gs| - 1] + [f]]) == Concat(gs) + [f]
  {
    hide Boundary, NoBoundaryInside, Concat;
    var k := |gs| - 1;
    var hs := gs[..k] + [gs[k] + [f]];
    NoBoundaryAppend(gs[k], f);
    assert gs[k][0] == hs[k][0];
    ConcatAppend(gs[..k], gs[k] + [f]);
    ConcatAppend(gs[..k], gs[k]);
    assert gs[..k] + [gs[k]] == gs;
    Associative(Concat(gs[..k]), gs[k], [f]);
    forall i | 0 <= i < |hs| ensures hs[i] != [] && NoBoundaryInside(hs[i]) { assert i < k ==> hs[i] == gs[i]; }
    forall i | 0 < i < |hs| ensures Boundary(hs[i - 1], hs[i][0]) { assert hs[i - 1] == gs[i - 1]; }
  }

  lemma SingleGroup(f: Frame)
    ensures NoBoundaryInside([f])
  {
  }

  lemma NewGroup(gs: seq<seq<Frame>>, f: Frame)
    requires IsGreedy(gs) && (gs != [] ==> Boundary(gs[|gs| - 1], f))
    ensures IsGreedy(gs + [[f]]) && Concat(gs + [[f]]) == Concat(gs) + [f]
  {
    hide Boundary, NoBoundaryInside, Concat;
    ConcatAppend(gs, [f]);
    var hs := gs + [[f]];
    SingleGroup(f);
    forall i | 0 <= i < |hs| ensures hs[i] != [] && NoBoundaryInside(hs[i]) { assert i < |gs| ==> hs[i] == gs[i]; }
    forall i | 0 < i < |hs| ensures Boundary(hs[i - 1], hs[i][0]) { assert hs[i - 1] == gs[i - 1]; }
  }

  /** Nothing lost, cut exactly at the boundaries: every group after the first starts with a
      keyframe six seconds or more into the one before, and no earlier keyframe did. */
  lemma {:induction false} GreedyCuts(a: seq<Frame>)
    ensures Concat(Greedy(a)) == a && IsGreedy(Greedy(a))
  {
    if a != [] {
      var n := |a| - 1;
      GreedyCuts(a[..n]);
      assert a == a[..n] + [a[n]];
      var gs := Greedy(a[..n]);
      hide IsGreedy, Boundary, Concat;
      if gs == [] || Boundary(gs[|gs| - 1], a[n]) { NewGroup(gs, a[n]); } else { GrowLast(gs, a[n]); }
    }
  }

  function FramesOf(ds: seq<Delivered>): (r: seq<seq<Frame>>)
    ensures |r| == |ds|
  {
    seq(|ds|, i requires 0 <= i < |ds| => ds[i].frames)
  }

  /** All the groups of a reference state: the dropped one, the delivered ones, the open one. */
  function Groups(r: Ref): seq<seq<Frame>> {
    (if r.lost == [] then [] else [r.lost]) + FramesOf(r.done) + (if r.open == [] then [] else [r.open])
  }

  ghost predicate DoneOk(ds: seq<Delivered>) {
    forall i :: 0 <= i < |ds| ==>
      ds[i].frames != [] && HasKey(ds[i].frames) && CutsOk(ds[i].frames, ds[i].cuts) && CutsIn(ds[i].frames, ds[i].cuts)
  }

  ghost predicate RefOk(r: Ref) {
    && (r.open == [] ==> r.done == [] && r.lost == [])
    && (r.done != [] || r.lost != [] ==> r.open[0].key)
    && !HasKey(r.lost) && (!r.clean ==> r.lost != [])
    && CutsOk(r.open, r.cuts) && CutsIn(r.open, r.cuts)
    && DoneOk(r.done)
  }

  /** Closing moves the open group to its place among the delivered or the dropped; only a first
      group can be dropped, since every later one starts with a keyframe. */
  lemma CloseGroups(r: Ref)
    requires RefOk(r) && r.open != []
    ensures Groups(Close(r)) == Groups(r)
    ensures !HasKey(r.open) ==> r.done == [] && r.lost == []
    ensures DoneOk(Close(r).done) && !HasKey(Close(r).lost) && (!Close(r).clean ==> Close(r).lost != [])
    ensures Close(r).open == [] && Close(r).cuts == []
  {
    if HasKey(r.open) {
      var d := Delivered(r.open, r.cuts, r.seqNo);
      assert FramesOf(r.done + [d]) == FramesOf(r.done) + [r.open];
    } else {
      assert r.done == [] && r.lost == [];
      assert [] + r.open == r.open;
    }
  }

  lemma AddFrameKeeps(e: Env, r: Ref, f: Frame)
    ensures var n := AddFrame(e, r, f); n.open == r.open + [f] && n.done == r.done && n.lost == r.lost
  {
    hide CutsIn, PartStart;
  }

  lemma OpenGroup(r: Ref, open: seq<Frame>)
    requires r.open == [] && open != []
    ensures Groups(r.(open := open)) == Groups(r) + [open]
    ensures Groups(r.(open := open))[..|Groups(r)|] == Groups(r)
  {
  }

  lemma StepGroups(e: Env, r: Ref, f: Frame)
    requires RefOk(r)
    ensures var gs := Groups(r);
            Groups(RefStep(e, r, f)) ==
              if gs == [] || Boundary(gs[|gs| - 1], f) then gs + [[f]] else gs[..|gs| - 1] + [gs[|gs| - 1] + [f]]
  {
    var r1 := if Boundary(r.open, f) then Close(r) else r;
    if Boundary(r.open, f) { CloseGroups(r); }
    AddFrameKeeps(e, r1, f);
    var n := RefStep(e, r, f);
    assert Groups(n) == Groups(r1.(open := r1.open + [f]));
    var base := r1.(open := []);
    OpenGroup(base, r1.open + [f]);
    if Boundary(r.open, f) {
      assert base == r1 && r1.open + [f] == [f];
      assert Boundary(Groups(r)[|Groups(r)| - 1], f);
    } else if r.open == [] {
      assert base == r && r1.open + [f] == [f];
      assert Groups(r) == [];
    } else {
      OpenGroup(base, r.open);
      assert base.(open := r.open) == r;
    }
  }

  lemma FreshSegment(f: Frame)
    ensures CutsOk([f], []) && CutsIn([f], [])
  {
  }

  lemma StepOk(e: Env, r: Ref, f: Frame)
    requires RefOk(r)
    ensures RefOk(RefStep(e, r, f))
  {
    if Boundary(r.open, f) { CloseGroups(r); }
    FreshSegment(f);
    EndInRange(r.open, r.cuts);
    CutTicksExtend(r.open, f, r.cuts);
    assert [] + [f] == [f];
    var r1 := if Boundary(r.open, f) then Close(r) else r;
    var r3 := r1.(open := r1.open + [f]);
    ExtendCuts(r.open, f, r.cuts);
    CutsGrow(r3);
    AddFrameShape(e, r1, f);
    hide CutsIn, PartStart, HasKey, CutsOk, DoneOk, AddFrame;
  }

  lemma ExtendCuts(fs: seq<Frame>, f: Frame, cuts: seq<Cut>)
    requires CutsOk(fs, cuts)
    ensures CutsOk(fs + [f], cuts) && End(cuts) < |fs + [f]|
  {
  }

  /** Main result: the groups of every run are the greedy segmentation of the admitted frames;
      only the first group may be dropped, and only for want of a keyframe; every delivered
      segment holds one, and every group after the first starts with one. */
  lemma {:induction false} RunsAreGreedy(e: Env, a: seq<Frame>)
    ensures Groups(RefRun(e, a)) == Greedy(a) && RefOk(RefRun(e, a))
  {
    if a == [] {
      NoKey();
    } else {
      RunsAreGreedy(e, a[..|a| - 1]);
      hide RefOk, Groups, RefStep, Boundary;
      StepGroups(e, RefRun(e, a[..|a| - 1]), a[|a| - 1]);
      StepOk(e, RefRun(e, a[..|a| - 1]), a[|a| - 1]);
    }
  }

  /** Main result, end to end: after any frames and `Close`, the stored segments are those of
      `delivered`, whose frames, behind those dropped, are all the admitted frames in order;
      nothing is dropped unless the first group has no keyframe. */
  lemma DeliveryLosesNothing(e: Env, fs: seq<Frame>)
    ensures var a := Admitted(e, fs);
            var c := Close(RefRun(e, a));
            && Flush(e, Run(e, fs)).live.k.segments == Bodies(e, c.done)
            && DoneOk(c.done) && !HasKey(c.lost)
            && c.lost + Concat(FramesOf(c.done)) == a
            && (c.lost != [] <==> a != [] && !HasKey(Greedy(a)[0]))
  {
    hide *;
    var a := Admitted(e, fs);
    var r := RefRun(e, a);
    CloseFollows(e, fs);
    RunsAreGreedy(e, a);
    GreedyCuts(a);
    ClosedGroups(r);
    SegmentsStored(e, Flush(e, Run(e, fs)).live.k, Close(r));
    GroupsSplit(Close(r));
  }

  lemma SegmentsStored(e: Env, k: Sink, r: Ref)
    requires SegmentsCouple(e, k, r)
    ensures k.segments == Bodies(e, r.done)
  {
  }

  lemma ClosedGroups(r: Ref)
    requires RefOk(r)
    ensures Groups(Close(r)) == Groups(r) && DoneOk(Close(r).done) && !HasKey(Close(r).lost) && Close(r).open == []
  {
    hide CutsOk, CutsIn, HasKey, DoneOk;
    if r.open != [] { CloseGroups(r); }
  }

  lemma GroupsSplit(c: Ref)
    requires c.open == [] && !HasKey(c.lost) && DoneOk(c.done)
    ensures Concat(Groups(c)) == c.lost + Concat(FramesOf(c.done))
    ensures c.lost != [] <==> Concat(Groups(c)) != [] && Groups(c) != [] && !HasKey(Groups(c)[0])
  {
    hide CutsOk, CutsIn, HasKey;
    ConcatCons(c.lost, FramesOf(c.done));
    if c.lost == [] {
      assert Groups(c) == FramesOf(c.done);
    } else {
      assert Groups(c) == [c.lost] + FramesOf(c.done);
    }
  }

  lemma {:induction false} ConcatCons(g: seq<Frame>, gs: seq<seq<Frame>>)
    ensures Concat([g] + gs) == g + Concat(gs)
  {
    var hs := [g] + gs;
    if gs == [] {
      assert hs == [g] && hs[..0] == [];
    } else {
      ConcatCons(g, gs[..|gs| - 1]);
      assert hs[..|hs| - 1] == [g] + gs[..|gs| - 1];
    }
  }

  // ---- sync samples ----

  /** What is written of every segment, that it begins with a sync sample, is true of `d`. */
  ghost predicate SyncFirst(d: Delivered) { d.frames != [] && d.frames[0].key }

  ghost predicate AllSyncFirst(ds: seq<Delivered>) { forall i :: 0 <= i < |ds| ==> SyncFirst(ds[i]) }

  /** Main result: after `Close` every stored segment begins with the sync sample it is written to begin with
      if and only if the first admitted frame is a keyframe, or none comes before the first boundary:
      then the group it opens is dropped. */
  lemma SyncExactly(e: Env, fs: seq<Frame>)
    ensures var a := Admitted(e, fs);
            var c := Close(RefRun(e, a));
            && Flush(e, Run(e, fs)).live.k.segments == Bodies(e, c.done)
            && (AllSyncFirst(c.done) <==> a == [] || a[0].key || !HasKey(Greedy(a)[0]))
            && (AllSyncFirst(c.done) <==> c.done == [] || c.lost != [] || (a != [] && a[0].key))
  {
    hide *;
    var a := Admitted(e, fs);
    var r := RefRun(e, a);
    DeliveryLosesNothing(e, fs);
    RunsAreGreedy(e, a);
    GreedyCuts(a);
    ClosedGroups(r);
    FirstOfConcat(Greedy(a));
    SyncOfGroups(Close(r), Greedy(a), a);
  }

  lemma FirstOfConcat(gs: seq<seq<Frame>>)
    requires IsGreedy(gs)
    ensures gs == [] <==> Concat(gs) == []
    ensures gs != [] ==> gs[0] != [] && Concat(gs)[0] == gs[0][0]
  {
    hide NoBoundaryInside, Boundary;
    if gs != [] {
      assert gs == [gs[0]] + gs[1..];
      ConcatCons(gs[0], gs[1..]);
    }
  }

  lemma SyncOfGroups(c: Ref, gs: seq<seq<Frame>>, a: seq<Frame>)
    requires c.open == [] && Groups(c) == gs && IsGreedy(gs) && DoneOk(c.done)
    requires (gs == [] <==> a == []) && (a != [] ==> gs[0] != [] && gs[0][0] == a[0])
    requires c.lost != [] <==> a != [] && !HasKey(gs[0])
    ensures AllSyncFirst(c.done) <==> a == [] || a[0].key || !HasKey(gs[0])
    ensures AllSyncFirst(c.done) <==> c.done == [] || c.lost != [] || (a != [] && a[0].key)
  {
    hide HasKey, NoBoundaryInside, CutsOk, CutsIn, U32;
    var k := if c.lost == [] then 0 else 1;
    forall i | 0 <= i < |c.done|
      ensures i + k < |gs| && c.done[i].frames == gs[i + k] && (i + k > 0 ==> SyncFirst(c.done[i]))
    {
      assert gs[i + k] == FramesOf(c.done)[i];
      assert i + k > 0 ==> Boundary(gs[i + k - 1], gs[i + k][0]);
    }
    assert |gs| == k + |c.done|;
    if k == 0 && c.done != [] { assert AllSyncFirst(c.done) ==> SyncFirst(c.done[0]); }
  }
}
