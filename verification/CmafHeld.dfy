/** What the sink holds as parts on every run, the runs that drop frames included.

    A group without a keyframe is dropped when its segment is closed, but its parts stay in the sink, and
    the next segment takes over its index.  Only the first group can be dropped, so only index 0 is
    affected: there the stale parts come first, the new segment's parts are refused as long as they are
    fewer, and are appended behind them afterwards.
 */
module CmafHeld {
  import opened Bytes
  import opened Results
  import opened Nal
  import opened LivePin
  import opened Cmaf
  import opened CmafProofs
  import opened CmafRuns
  import opened CmafParts

  // ---- what is held ----

  /** What a list that starts with `stale` becomes when the parts `r` are offered in order. */
  function Over(stale: seq<PartRecord>, r: seq<PartRecord>): (o: seq<PartRecord>)
    ensures |o| == if |r| > |stale| then |r| else |stale|
  {
    stale + if |r| > |stale| then r[|stale|..] else []
  }

  ghost predicate AllCutsIn(r: Ref) {
    && CutsIn(r.open, r.cuts)
    && (forall i :: 0 <= i < |r.done| ==> CutsIn(r.done[i].frames, r.done[i].cuts))
  }

  /** The parts segment `i` was cut into. */
  ghost function PartsCut(e: Env, r: Ref, i: nat): seq<PartRecord>
    requires AllCutsIn(r)
  {
    if i < |r.done| then Records(e, r.done[i].frames, r.done[i].cuts)
    else if i == |r.done| then Records(e, r.open, r.cuts)
    else []
  }

  ghost predicate HeldAt(e: Env, k: Sink, r: Ref, stale: seq<PartRecord>, i: uint32)
    requires AllCutsIn(r)
  {
    PartsOf(k, i) == if i == 0 then Over(stale, PartsCut(e, r, 0)) else PartsCut(e, r, i)
  }

  ghost predicate Held(e: Env, k: Sink, r: Ref, stale: seq<PartRecord>) {
    && AllCutsIn(r) && |r.done| < TWO32 && |stale| < TWO32
    && (forall i: uint32 :: HeldAt(e, k, r, stale, i))
  }

  /** The parts left behind by a dropped group: those it had when it was dropped. */
  ghost function StaleAfter(e: Env, r: Ref, stale: seq<PartRecord>, f: Frame): seq<PartRecord> {
    if DropsParts(r, f) && CutsIn(r.open, r.cuts) then Records(e, r.open, r.cuts) else stale
  }

  ghost function StaleOf(e: Env, a: seq<Frame>): seq<PartRecord> {
    if a == [] then [] else StaleAfter(e, RefRun(e, a[..|a| - 1]), StaleOf(e, a[..|a| - 1]), a[|a| - 1])
  }

  // ---- one part ----

  lemma OverNext(stale: seq<PartRecord>, r: seq<PartRecord>, p: PartRecord)
    ensures Over(stale, r + [p]) == if |r| >= |stale| then Over(stale, r) + [p] else Over(stale, r)
  {
    if |r| >= |stale| { assert (r + [p])[|stale|..] == r[|stale|..] + [p]; }
  }

  /** The sink takes the next part exactly when it holds as many as were cut. */
  lemma TakesNext(e: Env, k: Sink, r: Ref, stale: seq<PartRecord>, n: nat)
    requires Held(e, k, r, stale) && n == |r.cuts|
    ensures TakesPart(k, |r.done|, U32(n)) <==> r.done != [] || n >= |stale|
  {
    hide Over, Records;
    assert HeldAt(e, k, r, stale, |r.done|);
    if n < |stale| {
      Small(n);
      Small(|stale|);
    }
  }

  lemma CutsInGrow(r: Ref)
    requires AllCutsIn(r) && CutsIn(r.open, WithCut(r).cuts)
    ensures AllCutsIn(WithCut(r))
  {
  }

  lemma PartOf(e: Env, l: Live, r: Ref)
    requires FieldsCouple(l.s, r) && e.partsOn && End(r.cuts) < |r.open| && AllCutsIn(r) && |r.done| < TWO32
    ensures AllCutsIn(WithCut(r))
    ensures var p := Record(e, r.open, WithCut(r).cuts, |r.cuts|);
            && p.index == U32(|r.cuts|)
            && Records(e, r.open, WithCut(r).cuts) == Records(e, r.open, r.cuts) + [p]
            && EmitPart(e, l).live.k == AddPart(l.k, |r.done|, p)
            && (EmitPart(e, l).outcome.Pass? <==> TakesPart(l.k, |r.done|, U32(|r.cuts|)))
  {
    hide EmitPart, NextPart, DataCouple, CutsOk, Records;
    PartIsRecord(e, l.s, r);
    EmitShape(e, l);
    CutsInGrow(r);
    Small(|r.done|);
    RecordAppended(e, r);
    PartIndex(e, l.s);
  }

  lemma EmitHeld(e: Env, l: Live, r: Ref, stale: seq<PartRecord>)
    requires FieldsCouple(l.s, r) && e.partsOn && End(r.cuts) < |r.open| && Held(e, l.k, r, stale)
    ensures Held(e, EmitPart(e, l).live.k, WithCut(r), stale)
    ensures EmitPart(e, l).outcome.Pass? <==> r.done != [] || |r.cuts| >= |stale|
  {
    hide EmitPart, Record, Records, FieldsCouple, Over, AddPart, TakesPart, PartsOf, CutsIn;
    PartOf(e, l, r);
    TakesNext(e, l.k, r, stale, |r.cuts|);
    PutHeld(e, l.k, r, stale, Record(e, r.open, WithCut(r).cuts, |r.cuts|));
  }

  lemma PutHeld(e: Env, k: Sink, r: Ref, stale: seq<PartRecord>, p: PartRecord)
    requires Held(e, k, r, stale) && AllCutsIn(WithCut(r)) && p.index == U32(|r.cuts|)
    requires Records(e, r.open, WithCut(r).cuts) == Records(e, r.open, r.cuts) + [p]
    ensures Held(e, AddPart(k, |r.done|, p), WithCut(r), stale)
  {
    hide Records, Over, AddPart, TakesPart, PartsOf, U32;
    var n: uint32 := |r.done|;
    TakesNext(e, k, r, stale, |r.cuts|);
    OverNext(stale, Records(e, r.open, r.cuts), p);
    AddPartElsewhere(k, n, p);
    forall i: uint32 ensures HeldAt(e, AddPart(k, n, p), WithCut(r), stale, i) {
      assert HeldAt(e, k, r, stale, i);
    }
  }

  lemma AddPartElsewhere(k: Sink, n: uint32, p: PartRecord)
    ensures PartsOf(AddPart(k, n, p), n) == if TakesPart(k, n, p.index) then PartsOf(k, n) + [p] else PartsOf(k, n)
    ensures forall i: uint32 :: i != n ==> PartsOf(AddPart(k, n, p), i) == PartsOf(k, i)
  {
  }

  // ---- one frame ----

  lemma NoRecords(e: Env)
    ensures Records(e, [], []) == []
  {
  }

  /** Closing: a delivered segment keeps its parts; a dropped one leaves them behind as stale. */
  lemma CloseHeld(e: Env, k: Sink, r: Ref, stale: seq<PartRecord>)
    requires Held(e, k, r, stale) && r.open != [] && |Close(r).done| < TWO32
    requires !HasKey(r.open) ==> r.done == [] && stale == [] && |r.cuts| < TWO32
    ensures Held(e, k, Close(r), if HasKey(r.open) then stale else Records(e, r.open, r.cuts))
  {
    hide Records, HasKey, PartsOf;
    NoRecords(e);
    var stale' := if HasKey(r.open) then stale else Records(e, r.open, r.cuts);
    forall i: uint32 ensures HeldAt(e, k, Close(r), stale', i) {
      assert HeldAt(e, k, r, stale, i);
    }
  }

  lemma HeldExtend(e: Env, k: Sink, r: Ref, stale: seq<PartRecord>, f: Frame)
    requires Held(e, k, r, stale)
    ensures Held(e, k, r.(open := r.open + [f]), stale)
  {
    hide Records, Over, PartsOf;
    RecordsExtend(e, r.open, f, r.cuts);
    var r' := r.(open := r.open + [f]);
    forall i: uint32 ensures HeldAt(e, k, r', stale, i) { assert HeldAt(e, k, r, stale, i); }
  }

  /** A part is cut when `f` joins. */
  predicate CutsPart(e: Env, r: Ref, f: Frame) { |AddFrame(e, r, f).cuts| > |r.cuts| }

  lemma AddHeld(e: Env, l: Live, r: Ref, stale: seq<PartRecord>, f: Frame)
    requires FieldsCouple(l.s, r) && Held(e, l.k, r, stale)
    ensures Held(e, AppendAndCut(e, l, f).live.k, AddFrame(e, r, f), stale)
    ensures AppendAndCut(e, l, f).outcome.Fail? <==> CutsPart(e, r, f) && r.done == [] && |r.cuts| < |stale|
  {
    hide Held, FieldsCouple, AppendAndCut, AddFrame, EmitPart, PartStart, Append, Begin, CutsIn, End;
    AddShape(e, l, r, f);
    var s3 := Append(Begin(l.s, f), f);
    HeldExtend(e, l.k, r, stale, f);
    if e.partsOn && U32(f.ts - s3.partTS) >= PART_TICKS {
      EmitHeld(e, Live(s3, l.k), r.(open := r.open + [f]), stale);
    }
  }

  lemma SameHeld(e: Env, k: Sink, k': Sink, r: Ref, stale: seq<PartRecord>)
    requires Held(e, k, r, stale) && k'.parts == k.parts
    ensures Held(e, k', r, stale)
  {
    hide Records, Over;
    forall i: uint32 ensures HeldAt(e, k', r, stale, i) {
      assert HeldAt(e, k, r, stale, i);
      assert PartsOf(k', i) == PartsOf(k, i);
    }
  }

  /** Main result, one step: what the sink holds is known after every frame, and the frame's part is
      refused exactly when it belongs to index 0 and no more parts were cut there than are stale. */
  lemma StepHeld(e: Env, l: Live, r: Ref, stale: seq<PartRecord>, f: Frame)
    requires Couples(e, l, r) && Held(e, l.k, r, stale) && RefOk(r) && (r.lost == [] ==> stale == [])
    requires |RefStep(e, r, f).done| < TWO32 && |StaleAfter(e, r, stale, f)| < TWO32
    ensures Held(e, IngestSample(e, l, f).live.k, RefStep(e, r, f), StaleAfter(e, r, stale, f))
    ensures var r1 := if Boundary(r.open, f) then Close(r) else r;
            IngestSample(e, l, f).outcome.Fail? <==>
              CutsPart(e, r1, f) && r1.done == [] && |r1.cuts| < |StaleAfter(e, r, stale, f)|
  {
    StepShape(e, l, r, f);
    var closed := if Boundary(r.open, f) then Flush(e, Live(Begin(l.s, f), l.k)).live else l;
    var r1 := if Boundary(r.open, f) then Close(r) else r;
    AddFrameKeeps(e, r1, f);
    StaleStep(e, r, stale, f);
    hide SegmentsCouple, FieldsCouple, Held, IngestSample, AppendAndCut, AddFrame, Close, Flush, Begin, HasKey, Records, Boundary, CutsPart;
    SameHeld(e, l.k, closed.k, r, stale);
    if Boundary(r.open, f) { CloseToStale(e, closed.k, r, stale, f); }
    AddHeld(e, closed, r1, StaleAfter(e, r, stale, f), f);
  }

  lemma StaleStep(e: Env, r: Ref, stale: seq<PartRecord>, f: Frame)
    ensures !Boundary(r.open, f) ==> StaleAfter(e, r, stale, f) == stale
  {
  }

  lemma CloseToStale(e: Env, k: Sink, r: Ref, stale: seq<PartRecord>, f: Frame)
    requires Held(e, k, r, stale) && RefOk(r) && (r.lost == [] ==> stale == [])
    requires Boundary(r.open, f) && |Close(r).done| < TWO32 && |StaleAfter(e, r, stale, f)| < TWO32
    ensures Held(e, k, Close(r), StaleAfter(e, r, stale, f))
  {
    hide HasKey, Held;
    CloseGroups(r);
    if HasKey(r.open) || r.cuts != [] {
      CloseHeld(e, k, r, stale);
    } else {
      assert Records(e, r.open, []) == [];
      CloseHeld(e, k, r, stale);
    }
  }

  // ---- every run ----

  lemma {:induction false} StaleOnlyLost(e: Env, a: seq<Frame>)
    ensures RefRun(e, a).lost == [] ==> StaleOf(e, a) == []
    ensures a != [] ==> |StaleOf(e, a[..|a| - 1])| <= |StaleOf(e, a)|
    ensures a != [] ==> |RefRun(e, a[..|a| - 1]).done| <= |RefRun(e, a).done|
  {
    if a != [] {
      var front, f := a[..|a| - 1], a[|a| - 1];
      StaleOnlyLost(e, front);
      RunsAreGreedy(e, front);
      LostStep(e, RefRun(e, front), f);
    }
  }

  lemma LostStep(e: Env, r: Ref, f: Frame)
    requires RefOk(r)
    ensures DropsParts(r, f) ==> r.lost == [] && RefStep(e, r, f).lost != []
    ensures RefStep(e, r, f).lost == [] ==> r.lost == []
    ensures |r.done| <= |RefStep(e, r, f).done|
  {
    hide HasKey;
    var r1 := if Boundary(r.open, f) then Close(r) else r;
    AddFrameKeeps(e, r1, f);
    if Boundary(r.open, f) { CloseGroups(r); }
    hide AddFrame;
  }

  lemma StartHeld(e: Env)
    ensures Held(e, EMPTY_SINK, REF_START, [])
  {
    NoRecords(e);
    hide Records;
    forall i: uint32 ensures HeldAt(e, EMPTY_SINK, REF_START, [], i) {}
  }

  lemma StaleExtend(e: Env, a: seq<Frame>, f: Frame)
    ensures StaleOf(e, a + [f]) == StaleAfter(e, RefRun(e, a), StaleOf(e, a), f)
  {
    hide StaleAfter;
    assert (a + [f])[..|a|] == a;
  }

  /** Main result: on EVERY run that delivers fewer than 2^32 segments the sink holds, for each segment but
      the first, exactly its parts; under index 0 it holds the parts of the dropped group, if any, and
      behind them those of the first segment that are beyond their number. */
  lemma {:induction false} EveryRunHeld(e: Env, fs: seq<Frame>)
    requires |RefRun(e, Admitted(e, fs)).done| < TWO32 && |StaleOf(e, Admitted(e, fs))| < TWO32
    ensures Held(e, Run(e, fs).k, RefRun(e, Admitted(e, fs)), StaleOf(e, Admitted(e, fs)))
  {
    if fs == [] {
      StartHeld(e);
    } else {
      var before, f := fs[..|fs| - 1], fs[|fs| - 1];
      assert fs == before + [f];
      SmallBefore(e, before, f);
      EveryRunHeld(e, before);
      EveryRunFollows(e, before);
      OneMoreHeld(e, Run(e, before), before, f);
    }
  }

  lemma SmallBefore(e: Env, before: seq<Frame>, f: Frame)
    requires var a := Admitted(e, before + [f]); |RefRun(e, a).done| < TWO32 && |StaleOf(e, a)| < TWO32
    ensures var a := Admitted(e, before); |RefRun(e, a).done| < TWO32 && |StaleOf(e, a)| < TWO32
  {
    hide RefRun, StaleOf, Ready;
    var a, b := Admitted(e, before), Admitted(e, before + [f]);
    AdmittedStep(e, before, f);
    StaleOnlyLost(e, b);
    if b != [] {
      assert b[..|b| - 1] == a;
    } else {
      NothingHeld(e);
    }
  }

  lemma NothingHeld(e: Env)
    ensures RefRun(e, []).done == [] && StaleOf(e, []) == []
  {
  }

  /** Whether `f` as the next frame of a run has its part refused. */
  ghost predicate Refuses(e: Env, a: seq<Frame>, f: Frame) {
    var r := RefRun(e, a);
    var r1 := if Boundary(r.open, f) then Close(r) else r;
    CutsPart(e, r1, f) && r1.done == [] && |r1.cuts| < |StaleOf(e, a + [f])|
  }

  lemma OneMoreHeld(e: Env, l: Live, before: seq<Frame>, f: Frame)
    requires Follows(e, l, before) && Held(e, l.k, RefRun(e, Admitted(e, before)), StaleOf(e, Admitted(e, before)))
    requires var a := Admitted(e, before + [f]); |RefRun(e, a).done| < TWO32 && |StaleOf(e, a)| < TWO32
    ensures var a := Admitted(e, before + [f]); Held(e, Ingest(e, l, f).live.k, RefRun(e, a), StaleOf(e, a))
    ensures Ingest(e, l, f).outcome == Fail(PartRefused) <==>
              Admitted(e, before + [f]) != [] && Refuses(e, Admitted(e, before), f)
  {
    hide Couples, Held, Params, InitPhase, IngestSample, RefStep, Admitted, RefRun, Ready, StaleOf, StaleAfter, CutsPart, RefOk;
    var a := Admitted(e, before);
    var r := RefRun(e, a);
    var p := Live(Params(l.s, f), l.k);
    var i := InitPhase(e, p).live;
    InitDecides(e, l, before, f);
    InitKeepsParts(e, l, f);
    InitKeepsParts(e, p, f);
    SameHeld(e, l.k, i.k, r, StaleOf(e, a));
    AdmittedStep(e, before, f);
    if i.s.initEmitted {
      ParamsKeepCoupling(e, l, r, f);
      InitKeepsCoupling(e, p, r);
      RefRunStep(e, a, f);
      RunsAreGreedy(e, a);
      StaleOnlyLost(e, a);
      StaleExtend(e, a, f);
      StepHeld(e, i, r, StaleOf(e, a), f);
      StepNotRefused(e, i, r, f);
      StepCouples(e, i, r, f);
      OnlyPartFails(e, i, f);
    }
  }

  /** The step of an admitted frame can fail in no other way than by a refused part. */
  lemma OnlyPartFails(e: Env, l: Live, f: Frame)
    ensures var o := IngestSample(e, l, f).outcome; o.Fail? ==> o.error == PartRefused || o.error == SegmentRefused
  {
    hide Append, Sum, FinalDurs, Sample;
  }

  /** Main result: on every run the next frame's part is refused exactly in that one case: it belongs to
      index 0, and the parts cut there are no more than the stale ones. */
  lemma RefusedExactly(e: Env, fs: seq<Frame>, f: Frame)
    requires var a := Admitted(e, fs + [f]); |RefRun(e, a).done| < TWO32 && |StaleOf(e, a)| < TWO32
    ensures Ingest(e, Run(e, fs), f).outcome == Fail(PartRefused) <==>
              Admitted(e, fs + [f]) != [] && Refuses(e, Admitted(e, fs), f)
  {
    hide Held, Follows, Refuses;
    SmallBefore(e, fs, f);
    EveryRunHeld(e, fs);
    EveryRunFollows(e, fs);
    OneMoreHeld(e, Run(e, fs), fs, f);
  }

  /** So none is refused once a segment has been delivered. */
  lemma NoneRefusedLater(e: Env, fs: seq<Frame>, f: Frame)
    requires var a := Admitted(e, fs + [f]); |RefRun(e, a).done| < TWO32 && |StaleOf(e, a)| < TWO32
    requires RefRun(e, Admitted(e, fs)).done != []
    ensures Ingest(e, Run(e, fs), f).outcome != Fail(PartRefused)
  {
    RefusedExactly(e, fs, f);
    hide CutsPart;
    CloseKeepsDone(RefRun(e, Admitted(e, fs)));
  }

  lemma CloseKeepsDone(r: Ref)
    ensures |r.done| <= |Close(r).done|
  {
  }

  /** Main result: of every delivered segment but the first, and of the first when nothing is stale, the parts
      served are numbered 0, 1, 2, …, and their frames end to end are a prefix of the segment. */
  lemma HeldArePrefix(e: Env, fs: seq<Frame>, i: nat)
    requires var a := Admitted(e, fs);
             && i < |RefRun(e, a).done| < TWO32 && |StaleOf(e, a)| < TWO32 && (i > 0 || StaleOf(e, a) == [])
    ensures var d := RefRun(e, Admitted(e, fs)).done[i];
            var k := Run(e, fs).k;
            && i < |k.segments| && k.segments[i] == Body(e, d)
            && CutsIn(d.frames, d.cuts) && PartsOf(k, i) == Records(e, d.frames, d.cuts)
            && (forall j :: 0 <= j < |d.cuts| ==> PartsOf(k, i)[j].index == U32(j))
            && Concat(PartRuns(d.frames, d.cuts)) == d.frames[..End(d.cuts)]
            && Samples(d.frames)[..End(d.cuts)] == Samples(Concat(PartRuns(d.frames, d.cuts)))
  {
    var a := Admitted(e, fs);
    var r := RefRun(e, a);
    EveryRunHeld(e, fs);
    EveryRunFollows(e, fs);
    RunsAreGreedy(e, a);
    hide RefRun, Admitted, Run, StaleOf, Groups, Greedy;
    var d := r.done[i];
    PartsTile(d.frames, d.cuts);
    SamplesSlice(d.frames, 0, End(d.cuts));
    StoredBody(e, Run(e, fs).k, r, i);
    assert HeldAt(e, Run(e, fs).k, r, StaleOf(e, a), i);
    hide Records, Record, CutsOk, PartRuns, Concat;
    RecordIndices(e, d.frames, d.cuts);
  }

  lemma RecordIndices(e: Env, fs: seq<Frame>, cuts: seq<Cut>)
    requires CutsIn(fs, cuts)
    ensures forall j :: 0 <= j < |cuts| ==> Records(e, fs, cuts)[j].index == U32(j)
  {
  }

  // ---- when parts go stale, on the input ----

  /** Some frame of the group comes two seconds or more after its first. */
  ghost predicate HasLateFrame(g: seq<Frame>) {
    exists j :: 0 <= j < |g| && U32(g[j].ts - g[0].ts) >= PART_TICKS
  }

  lemma LateStep(g: seq<Frame>, f: Frame)
    requires g != []
    ensures HasLateFrame(g + [f]) <==> HasLateFrame(g) || U32(f.ts - g[0].ts) >= PART_TICKS
  {
    hide U32;
    var h := g + [f];
    if HasLateFrame(g) {
      var j :| 0 <= j < |g| && U32(g[j].ts - g[0].ts) >= PART_TICKS;
      assert h[j] == g[j];
    }
    if U32(f.ts - g[0].ts) >= PART_TICKS { assert h[|g|] == f; }
  }

  /** A run that is still in its first group: nothing closed, and parts cut exactly if a frame came late. */
  lemma {:induction false} FirstGroup(e: Env, g: seq<Frame>)
    requires g != [] && NoBoundaryInside(g)
    ensures var r := RefRun(e, g);
            && r.open == g && r.done == [] && r.lost == [] && r.clean
            && (r.cuts != [] <==> e.partsOn && HasLateFrame(g)) && (r.cuts == [] ==> r.seqNo == 1)
  {
    hide NoBoundaryInside, Boundary, HasLateFrame, RefStep, RefRun, Groups, Greedy, U32;
    var front, f := g[..|g| - 1], g[|g| - 1];
    assert g == front + [f];
    if front == [] {
      OneFrame(e, f);
      assert g == [f];
    } else {
      NoBoundaryFront(front, f);
      FirstGroup(e, front);
      LateStep(front, f);
      RunsAreGreedy(e, front);
      RefRunStep(e, front, f);
      SecondFrame(e, RefRun(e, front), f);
    }
  }

  lemma OneFrame(e: Env, f: Frame)
    ensures RefRun(e, [f]) == REF_START.(open := [f])
    ensures !HasLateFrame([f])
  {
    hide RefStep, HasLateFrame;
    FirstFrame(e, f);
    assert [] + [f] == [f];
    RefRunStep(e, [], f);
  }

  lemma NoBoundaryFront(front: seq<Frame>, f: Frame)
    requires NoBoundaryInside(front + [f]) && front != []
    ensures NoBoundaryInside(front) && !Boundary(front, f)
  {
    hide Boundary;
    var g := front + [f];
    assert g[..|front|] == front && g[|front|] == f;
    forall j | 0 < j < |front| ensures !Boundary(front[..j], front[j]) {
      assert front[..j] == g[..j] && front[j] == g[j];
    }
  }

  lemma FirstFrame(e: Env, f: Frame)
    ensures RefStep(e, REF_START, f) == REF_START.(open := [f])
    ensures !HasLateFrame([f])
  {
    assert [] + [f] == [f] && CutTicks([f], []) == 0;
  }

  lemma SecondFrame(e: Env, r: Ref, f: Frame)
    requires r.open != [] && !Boundary(r.open, f) && CutsIn(r.open, r.cuts)
    ensures var n := RefStep(e, r, f);
            && n.open == r.open + [f] && n.done == r.done && n.lost == r.lost && n.clean == r.clean
            && (n.cuts != [] <==> r.cuts != [] || (e.partsOn && U32(f.ts - r.open[0].ts) >= PART_TICKS))
            && (n.cuts == [] ==> n.seqNo == r.seqNo)
  {
    CutTicksExtend(r.open, f, r.cuts);
    AddFrameShape(e, r, f);
    assert (r.open + [f])[0] == r.open[0];
    hide Ticks, End;
  }

  /** The first group was closed for want of a keyframe after parts of it had gone out. */
  ghost predicate DropsFirst(e: Env, a: seq<Frame>) {
    var gs := Greedy(a);
    e.partsOn && |gs| > 1 && !HasKey(gs[0]) && HasLateFrame(gs[0])
  }

  /** Main result: when parts go stale, said on the input: the first group of the admitted frames is followed
      by another, holds no keyframe, and has a frame two seconds or more after its first. */
  lemma {:induction false} StaleExactly(e: Env, a: seq<Frame>)
    ensures !RefRun(e, a).clean <==> DropsFirst(e, a)
    ensures StaleOf(e, a) != [] <==> DropsFirst(e, a)
  {
    if a != [] {
      var front, f := a[..|a| - 1], a[|a| - 1];
      assert a == front + [f];
      StaleExactly(e, front);
      RunsAreGreedy(e, front);
      RefRunStep(e, front, f);
      StaleExtend(e, front, f);
      GreedyCuts(front);
      hide RefRun, StaleOf, StaleAfter, Groups, RefStep, DropsFirst, HasLateFrame, IsGreedy;
      if Greedy(front) == [] || |Greedy(front)| > 1 {
        LaterFrame(e, front, f);
      } else {
        OneGroup(e, front, f);
      }
    }
  }

  lemma NoDrop(e: Env, r: Ref, stale: seq<PartRecord>, f: Frame)
    requires !DropsParts(r, f)
    ensures StaleAfter(e, r, stale, f) == stale && RefStep(e, r, f).clean == r.clean
  {
    hide CutsIn, PartStart, HasKey;
  }

  /** Before the first frame, and after the first group, nothing can be dropped. */
  lemma LaterFrame(e: Env, front: seq<Frame>, f: Frame)
    requires Greedy(front) == [] || |Greedy(front)| > 1
    requires Groups(RefRun(e, front)) == Greedy(front) && RefOk(RefRun(e, front))
    ensures StaleAfter(e, RefRun(e, front), StaleOf(e, front), f) == StaleOf(e, front)
    ensures RefStep(e, RefRun(e, front), f).clean == RefRun(e, front).clean
    ensures DropsFirst(e, front + [f]) <==> DropsFirst(e, front)
  {
    var r := RefRun(e, front);
    hide HasLateFrame, StaleAfter, RefStep, RefRun;
    NotDropped(r, f);
    NoDrop(e, r, StaleOf(e, front), f);
    GreedyStep(front, f);
  }

  lemma NotDropped(r: Ref, f: Frame)
    requires RefOk(r) && |Groups(r)| != 1
    ensures !DropsParts(r, f)
  {
    if DropsParts(r, f) { CloseGroups(r); }
  }

  lemma GreedyStep(front: seq<Frame>, f: Frame)
    ensures var gs := Greedy(front);
            Greedy(front + [f]) ==
              if gs == [] || Boundary(gs[|gs| - 1], f) then gs + [[f]] else gs[..|gs| - 1] + [gs[|gs| - 1] + [f]]
  {
    hide Boundary;
    assert (front + [f])[..|front|] == front;
  }

  /** The frame behind a first group: it drops the group's parts or nothing. */
  lemma OneGroup(e: Env, front: seq<Frame>, f: Frame)
    requires |Greedy(front)| == 1 && Concat(Greedy(front)) == front && IsGreedy(Greedy(front))
    requires Groups(RefRun(e, front)) == Greedy(front) && RefOk(RefRun(e, front))
    requires RefRun(e, front).clean && StaleOf(e, front) == []
    ensures StaleAfter(e, RefRun(e, front), [], f) != [] <==> DropsFirst(e, front + [f])
    ensures !RefStep(e, RefRun(e, front), f).clean <==> DropsFirst(e, front + [f])
  {
    var g := Greedy(front)[0];
    OneConcat(g, Greedy(front));
    assert g == front;
    assert front != [] && NoBoundaryInside(front);
    FirstGroup(e, front);
    GreedyStep(front, f);
    hide HasLateFrame, RefRun, Greedy, Groups;
    var r := RefRun(e, front);
    if DropsParts(r, f) { DropStep(e, r, f); } else { NoDrop(e, r, [], f); }
  }

  lemma DropStep(e: Env, r: Ref, f: Frame)
    requires DropsParts(r, f) && CutsIn(r.open, r.cuts)
    ensures StaleAfter(e, r, [], f) != [] && !RefStep(e, r, f).clean
  {
    hide PartStart, HasKey;
  }

  lemma OneConcat(g: seq<Frame>, gs: seq<seq<Frame>>)
    requires gs == [g]
    ensures Concat(gs) == g
  {
    assert gs[..0] == [];
  }

  // ---- a run on which a part is refused ----

  /** Parameter sets, then a frame two seconds later, a keyframe at six seconds, and a frame two later:
      one part of the keyless first group goes out, the group is dropped. */
  const SETS: Frame := Frame([7] + CODE + [8], 0, false)
  const LATE: Frame := Frame([1], 180_000, false)
  const KEY: Frame := Frame([5], 540_000, true)
  const AFTER: Frame := Frame([1], 720_000, false)

  lemma SetsSplit()
    ensures Split(SETS.nal) == [[7], [8]]
  {
    var us: seq<bytes> := [[7], [8]];
    assert us[1..] == [[8]];
    assert Join(us) == SETS.nal;
    SplitOfJoin(us);
  }

  lemma SetsReady(e: Env)
    requires e.mp4.init([7], [8]).Some?
    ensures Admitted(e, [SETS]) == [SETS]
  {
    SetsSplit();
    hide Split;
    assert [SETS][..0] == [] && [] + [SETS] == [SETS];
    var us: seq<bytes> := [[7], [8]];
    assert us[..1] == [[7]] && us[..1][..0] == [];
    assert LastOfType(us[..1], 7, []) == [7];
    assert LastOfType(us, 7, []) == [7] && LastOfType(us, 8, []) == [8];
    AdmittedStep(e, [], SETS);
  }

  lemma KeptAdmitted(e: Env, fs: seq<Frame>, f: Frame)
    requires fs != [] && Admitted(e, fs) == fs
    ensures Admitted(e, fs + [f]) == fs + [f]
  {
    hide Ready;
    AdmittedStep(e, fs, f);
  }

  lemma AfterSets(e: Env)
    requires e.partsOn
    ensures var r := RefRun(e, [SETS, LATE]);
            r.open == [SETS, LATE] && r.cuts == [Cut(0, 2, 1)] && r.done == [] && r.lost == [] && DropsParts(r, KEY)
  {
    assert [] + [SETS] == [SETS] && [SETS] + [LATE] == [SETS, LATE];
    RefRunStep(e, [], SETS);
    FirstFrame(e, SETS);
    RefRunStep(e, [SETS], LATE);
    var r1 := REF_START.(open := [SETS]);
    CutTicksExtend([SETS], LATE, []);
    AddFrameShape(e, r1, LATE);
    hide RefRun;
    assert PartStart([SETS, LATE], []) == 0;
  }

  lemma AfterKey(e: Env)
    requires e.partsOn
    ensures var r := RefRun(e, [SETS, LATE, KEY]);
            r.open == [KEY] && r.cuts == [] && r.done == []
    ensures |StaleOf(e, [SETS, LATE, KEY])| == 1
  {
    var fs := [SETS, LATE];
    assert fs + [KEY] == [SETS, LATE, KEY] && [] + [KEY] == [KEY];
    AfterSets(e);
    RefRunStep(e, fs, KEY);
    StaleExtend(e, fs, KEY);
    hide RefRun, StaleOf, DropsParts;
    ClosedKey(e, Close(RefRun(e, fs)));
  }

  lemma ClosedKey(e: Env, c: Ref)
    requires c.open == [] && c.cuts == []
    ensures AddFrame(e, c, KEY) == c.(open := [KEY])
  {
    assert [] + [KEY] == [KEY] && CutTicks([KEY], []) == 0;
  }

  lemma AfterAfter(e: Env, r: Ref)
    requires e.partsOn && r.open == [KEY] && r.cuts == []
    ensures !Boundary(r.open, AFTER) && CutsPart(e, r, AFTER) && RefStep(e, r, AFTER).done == r.done
  {
    assert PartStart([KEY, AFTER], []) == 540_000;
    assert [KEY] + [AFTER] == [KEY, AFTER];
  }

  /** The parts go out, the group is dropped, and the next part is refused: for every encoder that accepts
      the two parameter sets and every sink that takes parts. */
  lemma DropHappens(e: Env)
    requires e.partsOn && e.mp4.init([7], [8]).Some?
    ensures var fs := [SETS, LATE];
            var r := RefRun(e, Admitted(e, fs));
            && Couples(e, Run(e, fs), r) && PartsCouple(e, Run(e, fs).k, r)
            && DropsParts(r, KEY) && |r.cuts| == 1
            && Ingest(e, Run(e, fs + [KEY]), AFTER).outcome == Fail(PartRefused)
  {
    var fs, all := [SETS, LATE], [SETS, LATE, KEY];
    assert [SETS] + [LATE] == fs && fs + [KEY] == all && [SETS, LATE, KEY, AFTER] == all + [AFTER];
    SetsReady(e);
    KeptAdmitted(e, [SETS], LATE);
    KeptAdmitted(e, fs, KEY);
    KeptAdmitted(e, all, AFTER);
    AfterSets(e);
    AfterKey(e);
    AfterAfter(e, RefRun(e, all));
    RefRunStep(e, all, AFTER);
    StaleExtend(e, all, AFTER);
    hide *;
    StaleStep(e, RefRun(e, all), StaleOf(e, all), AFTER);
    BeforeDrop(e);
    LastRefused(e);
  }

  lemma BeforeDrop(e: Env)
    requires e.partsOn && Admitted(e, [SETS, LATE]) == [SETS, LATE]
    ensures Couples(e, Run(e, [SETS, LATE]), RefRun(e, [SETS, LATE]))
    ensures PartsCouple(e, Run(e, [SETS, LATE]).k, RefRun(e, [SETS, LATE]))
  {
    var fs := [SETS, LATE];
    EveryRunFollows(e, fs);
    AfterSets(e);
    RunsAreGreedy(e, fs);
    hide Couples, PartsCouple, Run, RefRun, Groups, Greedy;
    assert RefRun(e, fs).clean by { CleanIfNoneLost(RefRun(e, fs)); }
    EveryCleanRun(e, fs);
  }

  lemma CleanIfNoneLost(r: Ref)
    requires RefOk(r) && r.lost == []
    ensures r.clean
  {
  }

  lemma LastRefused(e: Env)
    requires var all := [SETS, LATE, KEY];
             && Admitted(e, all) == all && Admitted(e, all + [AFTER]) == all + [AFTER]
             && RefRun(e, all).open == [KEY] && RefRun(e, all).cuts == [] && RefRun(e, all).done == []
             && |StaleOf(e, all)| == 1 && StaleOf(e, all + [AFTER]) == StaleOf(e, all)
             && RefRun(e, all + [AFTER]) == RefStep(e, RefRun(e, all), AFTER)
             && e.partsOn
    ensures Ingest(e, Run(e, [SETS, LATE, KEY]), AFTER).outcome == Fail(PartRefused)
  {
    hide RefRun, StaleOf, Admitted, Run, Ingest, RefStep, CutsPart;
    var all := [SETS, LATE, KEY];
    AfterAfter(e, RefRun(e, all));
    RefusedExactly(e, all, AFTER);
  }
}
