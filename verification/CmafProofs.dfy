/** Properties of the live segmenter: the fields of the code are always those the reference
    computes, and what the reference promises about segments, parts and times.
 */
module CmafProofs {
  import opened Bytes
  import opened Results
  import opened Nal
  import opened LivePin
  import opened Cmaf

  // ---- durations ----

  lemma SumAppend(ds: seq<uint32>, v: uint32)
    ensures Sum(ds + [v]) == Sum(ds) + v
  {
    assert (ds + [v])[..|ds|] == ds;
  }

  lemma Wrap32(a: int, b: int)
    ensures U32(U32(a) + b) == U32(a + b)
  {
  }

  lemma DeltasAppend(fs: seq<Frame>, f: Frame)
    requires fs != []
    ensures Deltas(fs + [f]) == Deltas(fs) + [U32(f.ts - fs[|fs| - 1].ts)]
  {
  }

  /** The differences telescope: their sum is last minus first, modulo 2^32. */
  lemma {:induction false} SumDeltas(fs: seq<Frame>)
    requires fs != []
    ensures U32(Sum(Deltas(fs))) == U32(fs[|fs| - 1].ts - fs[0].ts)
  {
    var n := |fs| - 1;
    if n > 0 {
      SumDeltas(fs[..n]);
      assert fs == fs[..n] + [fs[n]];
      hide U32, Deltas, Sum;
      NextDelta(fs[..n], fs[n]);
    } else {
      assert Deltas(fs) == [];
    }
  }

  lemma NextDelta(fs: seq<Frame>, f: Frame)
    requires fs != [] && U32(Sum(Deltas(fs))) == U32(fs[|fs| - 1].ts - fs[0].ts)
    ensures U32(Sum(Deltas(fs + [f]))) == U32(f.ts - fs[0].ts)
  {
    hide U32, Deltas, Sum;
    var last := fs[|fs| - 1].ts;
    DeltasAppend(fs, f);
    SumAppend(Deltas(fs), U32(f.ts - last));
    Telescope(Sum(Deltas(fs)), last - fs[0].ts, f.ts - last);
  }

  lemma Telescope(s: int, a: int, b: int)
    requires U32(s) == U32(a)
    ensures U32(s + U32(b)) == U32(a + b)
  {
    Wrap32(s, U32(b));
    Wrap32(a, U32(b));
    Wrap32(b, a);
  }

  /** Main result: a run of frames closed with the fallback reports last time minus first plus
      3000 ticks, modulo 2^32. */
  lemma TicksOfRun(fs: seq<Frame>)
    requires fs != []
    ensures U32(Sum(Deltas(fs) + [FALLBACK])) == Ticks(fs)
  {
    SumAppend(Deltas(fs), FALLBACK);
    SumDeltas(fs);
    Wrap32(Sum(Deltas(fs)), FALLBACK);
    Wrap32(fs[|fs| - 1].ts - fs[0].ts, FALLBACK);
  }

  /** The code finds the last sample's time by adding up durations. */
  lemma LastSampleTime(fs: seq<Frame>)
    requires fs != []
    ensures U32(fs[0].ts + Sum(Durations(fs))) == fs[|fs| - 1].ts
  {
    hide Sum, Deltas;
    assert Durations(fs) == Deltas(fs) + [0];
    SumAppend(Deltas(fs), 0);
    SumDeltas(fs);
    WrapBack(Sum(Deltas(fs)), fs[0].ts, fs[|fs| - 1].ts);
  }

  lemma WrapBack(s: int, first: uint32, last: uint32)
    requires U32(s) == U32(last - first)
    ensures U32(first + s) == last
  {
    Wrap32(s, first);
    Wrap32(last - first, first);
  }

  // ---- slices ----

  lemma SamplesSlice(fs: seq<Frame>, lo: nat, hi: nat)
    requires lo <= hi <= |fs|
    ensures Samples(fs)[lo..hi] == Samples(fs[lo..hi])
  {
  }

  lemma DurationsTail(fs: seq<Frame>, lo: nat)
    requires lo < |fs|
    ensures Durations(fs)[lo..] == Deltas(fs[lo..]) + [0]
  {
    assert Deltas(fs)[lo..] == Deltas(fs[lo..]);
    assert Durations(fs)[lo..] == Deltas(fs)[lo..] + [0];
  }

  lemma FinalDursOf(ds: seq<uint32>)
    ensures FinalDurs(ds + [0]) == ds + [FALLBACK]
  {
  }

  // ---- growth of the open segment ----

  lemma {:induction false} CutTicksExtend(fs: seq<Frame>, f: Frame, cuts: seq<Cut>)
    requires CutsIn(fs, cuts)
    ensures CutsIn(fs + [f], cuts) && CutTicks(fs + [f], cuts) == CutTicks(fs, cuts)
  {
    if cuts != [] {
      var c := cuts[|cuts| - 1];
      CutTicksExtend(fs, f, cuts[..|cuts| - 1]);
      assert (fs + [f])[c.lo..c.hi] == fs[c.lo..c.hi];
    }
  }

  lemma RecordsExtend(e: Env, fs: seq<Frame>, f: Frame, cuts: seq<Cut>)
    requires CutsIn(fs, cuts)
    ensures CutsIn(fs + [f], cuts) && Records(e, fs + [f], cuts) == Records(e, fs, cuts)
  {
    forall j | 0 <= j < |cuts| ensures Record(e, fs + [f], cuts, j) == Record(e, fs, cuts, j) {
      assert (fs + [f])[cuts[j].lo..cuts[j].hi] == fs[cuts[j].lo..cuts[j].hi];
    }
  }

  lemma EndInRange(fs: seq<Frame>, cuts: seq<Cut>)
    requires CutsOk(fs, cuts)
    ensures CutsIn(fs, cuts) && End(cuts) <= |fs|
  {
  }

  lemma HasKeyAppend(fs: seq<Frame>, f: Frame)
    ensures HasKey(fs + [f]) <==> HasKey(fs) || f.key
  {
    var gs := fs + [f];
    if HasKey(fs) {
      var i :| 0 <= i < |fs| && fs[i].key;
      assert gs[i].key;
    }
    if f.key { assert gs[|fs|].key; }
  }

  lemma AppendData(s: Seg, open: seq<Frame>, f: Frame)
    requires DataCouple(s, open) && (open != [] ==> s.startTS == open[0].ts)
    ensures DataCouple(Append(s, f), open + [f])
  {
    hide Sample, HasKey, Deltas, Sum, U32;
    HasKeyAppend(open, f);
    assert Samples(open + [f]) == Samples(open) + [Sample(f.nal)];
    if open == [] {
      assert open + [f] == [f];
      NoDeltas(f);
      NoKey();
    } else {
      LastSampleTime(open);
      DeltasAppend(open, f);
      var d := U32(f.ts - open[|open| - 1].ts);
      assert Durations(open)[|open| - 1 := d] == Deltas(open) + [d];
    }
  }

  lemma NoDeltas(f: Frame)
    ensures Deltas([f]) == [] && Deltas([]) == []
  {
  }

  lemma NoKey()
    ensures !HasKey([])
  {
  }

  lemma AppendCursor(s: Seg, r: Ref, f: Frame)
    requires CutsIn(r.open, r.cuts)
    requires r.open != [] ==> CursorCouple(s, r.open, r.cuts)
    ensures CutsIn(r.open + [f], r.cuts)
    ensures CursorCouple(if r.open == [] then StartAt(s, f) else s, r.open + [f], r.cuts)
  {
    CutTicksExtend(r.open, f, r.cuts);
    if r.open == [] {
      assert r.open + [f] == [f];
      assert r.cuts == [];
    }
  }

  lemma AppendKeepsCursor(s: Seg, f: Frame, open: seq<Frame>, cuts: seq<Cut>)
    requires open != [] && CutsIn(open, cuts)
    ensures CursorCouple(Append(s, f), open, cuts) <==> CursorCouple(s, open, cuts)
  {
  }

  /** One sample appended, before any part is cut. */
  lemma AppendCouples(s: Seg, r: Ref, f: Frame)
    requires FieldsCouple(s, r)
    ensures FieldsCouple(Append(Begin(s, f), f), r.(open := r.open + [f]))
  {
    hide CursorCouple, Durations, HasKey, Sample;
    AppendCursor(s, r, f);
    StartCursor(s, r.open, r.cuts);
    AppendKeepsCursor(Begin(s, f), f, r.open + [f], r.cuts);
    AppendData(Begin(s, f), r.open, f);
  }

  lemma StartCursor(s: Seg, open: seq<Frame>, cuts: seq<Cut>)
    requires CutsIn(open, cuts)
    ensures open != [] && CursorCouple(s, open, cuts) ==> s.startTS == open[0].ts
  {
  }

  // ---- cutting a part ----

  function WithCut(r: Ref): Ref {
    r.(cuts := r.cuts + [Cut(End(r.cuts), |r.open|, r.seqNo)], seqNo := U32(r.seqNo + 1))
  }

  lemma CutTicksCut(fs: seq<Frame>, cuts: seq<Cut>, c: Cut)
    requires CutsIn(fs, cuts) && c.lo < c.hi <= |fs|
    ensures CutsIn(fs, cuts + [c]) && CutTicks(fs, cuts + [c]) == CutTicks(fs, cuts) + Ticks(fs[c.lo..c.hi])
  {
    assert (cuts + [c])[..|cuts|] == cuts;
  }

  /** What the code hands to the sink for the next part. */
  function NextPart(e: Env, s: Seg): PartRecord
    requires s.partFrom <= |s.durs| && s.partFrom <= |s.bufs|
  {
    var durs := FinalDurs(s.durs[s.partFrom..]);
    PartRecord(s.partIdx, e.mp4.frag(s.seqNo, s.bufs[s.partFrom..], durs, s.partKey), U32(Sum(durs)), s.partKey)
  }

  lemma EmitShape(e: Env, l: Live)
    requires e.partsOn && l.s.partFrom < |l.s.bufs| == |l.s.durs|
    ensures var p := NextPart(e, l.s);
            EmitPart(e, l) == Step(
              Live(l.s.(seqNo := U32(l.s.seqNo + 1), partFrom := |l.s.bufs|, partIdx := U32(l.s.partIdx + 1),
                        partKey := false, partTS := U32(l.s.partTS + p.ticks)),
                   AddPart(l.k, l.s.nextIdx, p)),
              if TakesPart(l.k, l.s.nextIdx, l.s.partIdx) then Pass else Fail(PartRefused))
  {
  }

  lemma TailOfOpen(s: Seg, open: seq<Frame>, lo: nat)
    requires DataCouple(s, open) && lo < |open|
    ensures |s.bufs| == |s.durs| == |open|
    ensures FinalDurs(s.durs[lo..]) == Deltas(open[lo..]) + [FALLBACK] && s.bufs[lo..] == Samples(open[lo..])
  {
    hide HasKey, Sample;
    DurationsTail(open, lo);
    FinalDursOf(Deltas(open[lo..]));
    SamplesSlice(open, lo, |open|);
    assert open[lo..|open|] == open[lo..] && Samples(open)[lo..|open|] == Samples(open)[lo..];
  }

  /** It is the record the reference gives the new cut. */
  lemma PartIsRecord(e: Env, s: Seg, r: Ref)
    requires FieldsCouple(s, r) && End(r.cuts) < |r.open|
    ensures CutsIn(r.open, WithCut(r).cuts) && s.partFrom == End(r.cuts) < |s.bufs| == |s.durs|
    ensures NextPart(e, s) == Record(e, r.open, WithCut(r).cuts, |r.cuts|)
  {
    hide HasKey, Sample, PartStart, DataCouple;
    var lo := End(r.cuts);
    TailOfOpen(s, r.open, lo);
    TicksOfRun(r.open[lo..]);
    assert r.open[lo..|r.open|] == r.open[lo..];
    CutTicksCut(r.open, r.cuts, Cut(lo, |r.open|, r.seqNo));
  }

  lemma EmitCursor(e: Env, s: Seg, r: Ref, ticks: uint32)
    requires FieldsCouple(s, r) && End(r.cuts) < |r.open| && ticks == Ticks(r.open[End(r.cuts)..])
    requires CutsIn(r.open, WithCut(r).cuts)
    ensures CursorCouple(s.(seqNo := U32(s.seqNo + 1), partFrom := |r.open|, partIdx := U32(s.partIdx + 1),
                            partKey := false, partTS := U32(s.partTS + ticks)), r.open, WithCut(r).cuts)
  {
    hide DataCouple, CutsOk, CutTicks, Ticks;
    var c := Cut(End(r.cuts), |r.open|, r.seqNo);
    CutTicksCut(r.open, r.cuts, c);
    assert r.open[c.lo..c.hi] == r.open[c.lo..];
    Wrap32(r.open[0].ts + CutTicks(r.open, r.cuts), ticks);
    Wrap32(|r.cuts|, 1);
  }

  lemma CutsGrow(r: Ref)
    requires CutsOk(r.open, r.cuts) && End(r.cuts) < |r.open|
    ensures CutsOk(r.open, WithCut(r).cuts) && CutsIn(r.open, WithCut(r).cuts)
  {
    var cuts, n := WithCut(r).cuts, |r.cuts|;
    forall i | 0 <= i < |cuts| ensures cuts[i].lo == EndBefore(cuts, i) && cuts[i].lo < cuts[i].hi <= |r.open| {
      if i < n {
        assert cuts[i] == r.cuts[i] && EndBefore(cuts, i) == EndBefore(r.cuts, i);
      } else {
        assert EndBefore(cuts, n) == End(r.cuts);
      }
    }
  }

  lemma EmitCouples(e: Env, l: Live, r: Ref)
    requires FieldsCouple(l.s, r) && e.partsOn && End(r.cuts) < |r.open|
    ensures FieldsCouple(EmitPart(e, l).live.s, WithCut(r))
  {
    hide CursorCouple, CutsOk, CutsIn, NextPart, EmitPart, HasKey, Durations;
    PartIsRecord(e, l.s, r);
    CutsGrow(r);
    EmitShape(e, l);
    var p := r.open[End(r.cuts)..];
    assert r.open[End(r.cuts)..|r.open|] == p;
    EmitCursor(e, l.s, r, Ticks(p));
  }

  /** The sink takes a part exactly when it is up to date, and is then up to date again. */
  lemma EmitParts(e: Env, l: Live, r: Ref)
    requires FieldsCouple(l.s, r) && e.partsOn && End(r.cuts) < |r.open|
    requires PartsCouple(e, l.k, r)
    ensures EmitPart(e, l).outcome.Pass? && PartsCouple(e, EmitPart(e, l).live.k, WithCut(r))
  {
    hide EmitPart, NextPart, Record, DataCouple, CutsOk;
    PartIsRecord(e, l.s, r);
    EmitShape(e, l);
    Small(|r.done|);
    RecordAppended(e, r);
    var rec := NextPart(e, l.s);
    assert rec.index == l.s.partIdx by { PartIndex(e, l.s); }
    PartAdded(l.k, |r.done|, rec);
  }

  lemma PartIndex(e: Env, s: Seg)
    requires s.partFrom <= |s.durs| && s.partFrom <= |s.bufs|
    ensures NextPart(e, s).index == s.partIdx
  {
  }

  lemma PartAdded(k: Sink, seg: uint32, p: PartRecord)
    requires TakesPart(k, seg, p.index)
    ensures PartsOf(AddPart(k, seg, p), seg) == PartsOf(k, seg) + [p]
    ensures forall i: uint32 :: i != seg ==> PartsOf(AddPart(k, seg, p), i) == PartsOf(k, i)
  {
  }

  lemma RecordAppended(e: Env, r: Ref)
    requires CutsIn(r.open, r.cuts) && CutsIn(r.open, WithCut(r).cuts)
    ensures Records(e, r.open, WithCut(r).cuts) ==
            Records(e, r.open, r.cuts) + [Record(e, r.open, WithCut(r).cuts, |r.cuts|)]
  {
    var cuts := WithCut(r).cuts;
    forall j | 0 <= j < |r.cuts| ensures Record(e, r.open, cuts, j) == Record(e, r.open, r.cuts, j) {
      assert cuts[j] == r.cuts[j];
    }
  }

  lemma Small(n: nat)
    requires n < TWO32
    ensures U32(n) == n
  {
  }

  lemma EmitKeepsSegments(e: Env, l: Live)
    ensures EmitPart(e, l).live.k.segments == l.k.segments && EmitPart(e, l).live.k.leaves == l.k.leaves
    ensures EmitPart(e, l).live.k.initSeg == l.k.initSeg && EmitPart(e, l).live.s.initEmitted == l.s.initEmitted
    ensures EmitPart(e, l).outcome != Fail(SegmentRefused)
  {
  }

  // ---- closing a segment ----

  lemma FlushCouples(e: Env, l: Live, r: Ref)
    requires Couples(e, l, r) && r.open != []
    ensures Flush(e, l).outcome.Pass?
    ensures Couples(e, Flush(e, l).live, Close(r))
    ensures Flush(e, l).live.k.parts == l.k.parts && Flush(e, l).live.s.initEmitted == l.s.initEmitted
  {
    if HasKey(r.open) {
      var d := Delivered(r.open, r.cuts, r.seqNo);
      FinalDursOf(Deltas(r.open));
      assert Bodies(e, r.done + [d]) == Bodies(e, r.done) + [Body(e, d)];
      AddSegmentMatches(e.sha, l.k, l.s.nextIdx, Body(e, d));
      Wrap32(|r.done|, 1);
      assert |l.k.leaves| == |r.done|;
    }
  }

  /** Closing keeps the sink's parts right, unless frames that already had parts are dropped. */
  lemma CloseParts(e: Env, k: Sink, r: Ref)
    requires PartsCouple(e, k, r) && r.open != [] && |Close(r).done| < TWO32
    ensures PartsCouple(e, k, Close(r)) <==> HasKey(r.open) || r.cuts == []
  {
    var n := |r.done|;
    assert |PartsOf(k, n)| == |r.cuts|;
    assert Close(r).open == [] && Close(r).cuts == [] && Records(e, [], []) == [];
    if HasKey(r.open) {
      assert PartsOf(k, n + 1) == [];
    } else if r.cuts == [] {
      assert Records(e, r.open, []) == [];
    }
  }

  // ---- one frame ----

  lemma BeginCouples(s: Seg, r: Ref, f: Frame)
    requires FieldsCouple(s, r)
    ensures FieldsCouple(Begin(s, f), r) && Begin(Begin(s, f), f) == Begin(s, f)
    ensures Cutting(Begin(s, f), f) <==> Boundary(r.open, f)
  {
  }

  /** The second half of a step: append, then perhaps cut a part. */
  function AppendAndCut(e: Env, l: Live, f: Frame): Step {
    var s3 := Append(Begin(l.s, f), f);
    if e.partsOn && U32(f.ts - s3.partTS) >= PART_TICKS then EmitPart(e, Live(s3, l.k)) else Step(Live(s3, l.k), Pass)
  }

  /** After the append the code and the reference agree on whether a part is due. */
  lemma PartDue(e: Env, l: Live, r: Ref, f: Frame)
    requires FieldsCouple(l.s, r)
    ensures var s3, r3 := Append(Begin(l.s, f), f), r.(open := r.open + [f]);
            && FieldsCouple(s3, r3) && End(r3.cuts) < |r3.open| && CutsIn(r3.open, r3.cuts)
            && (U32(f.ts - s3.partTS) >= PART_TICKS <==> U32(f.ts - PartStart(r3.open, r3.cuts)) >= PART_TICKS)
  {
    hide DataCouple, Append;
    AppendCouples(l.s, r, f);
    EndInRange(r.open, r.cuts);
  }

  lemma AppendAndCutShape(e: Env, l: Live, f: Frame)
    ensures var s3 := Append(Begin(l.s, f), f);
            AppendAndCut(e, l, f) ==
              if e.partsOn && U32(f.ts - s3.partTS) >= PART_TICKS then EmitPart(e, Live(s3, l.k)) else Step(Live(s3, l.k), Pass)
  {
    hide Append, EmitPart, Begin;
  }

  lemma AddFrameShape(e: Env, r: Ref, f: Frame)
    requires CutsIn(r.open + [f], r.cuts)
    ensures var r3 := r.(open := r.open + [f]);
            AddFrame(e, r, f) ==
              if e.partsOn && U32(f.ts - PartStart(r3.open, r3.cuts)) >= PART_TICKS then WithCut(r3) else r3
  {
    hide CutsIn, PartStart, End;
  }

  lemma AddShape(e: Env, l: Live, r: Ref, f: Frame)
    requires FieldsCouple(l.s, r)
    ensures var s3, r3 := Append(Begin(l.s, f), f), r.(open := r.open + [f]);
            && FieldsCouple(s3, r3) && End(r3.cuts) < |r3.open| && CutsIn(r3.open, r3.cuts)
            && if e.partsOn && U32(f.ts - s3.partTS) >= PART_TICKS
               then AppendAndCut(e, l, f) == EmitPart(e, Live(s3, l.k)) && AddFrame(e, r, f) == WithCut(r3)
               else AppendAndCut(e, l, f) == Step(Live(s3, l.k), Pass) && AddFrame(e, r, f) == r3
  {
    hide *;
    PartDue(e, l, r, f);
    AppendAndCutShape(e, l, f);
    AddFrameShape(e, r, f);
  }

  lemma AddCouples(e: Env, l: Live, r: Ref, f: Frame)
    requires Couples(e, l, r)
    ensures Couples(e, AppendAndCut(e, l, f).live, AddFrame(e, r, f))
    ensures AppendAndCut(e, l, f).outcome != Fail(SegmentRefused)
    ensures AppendAndCut(e, l, f).live.s.initEmitted == l.s.initEmitted
  {
    hide SegmentsCouple, FieldsCouple, AppendAndCut, Append, EmitPart, AddFrame, CutsIn, PartStart, Begin, End;
    AddShape(e, l, r, f);
    AppendKeepsInit(l.s, f);
    var s3 := Append(Begin(l.s, f), f);
    EmitKeepsSegments(e, Live(s3, l.k));
    if e.partsOn && U32(f.ts - s3.partTS) >= PART_TICKS {
      EmitCouples(e, Live(s3, l.k), r.(open := r.open + [f]));
      SegmentsCarry(e, l.k, EmitPart(e, Live(s3, l.k)).live.k, r, AddFrame(e, r, f));
    } else {
      SegmentsCarry(e, l.k, l.k, r, AddFrame(e, r, f));
    }
  }

  lemma AppendKeepsInit(s: Seg, f: Frame)
    ensures Append(Begin(s, f), f).initEmitted == s.initEmitted
  {
  }

  lemma SegmentsCarry(e: Env, k: Sink, k': Sink, r: Ref, r': Ref)
    requires SegmentsCouple(e, k, r) && k'.segments == k.segments && k'.leaves == k.leaves && r'.done == r.done
    ensures SegmentsCouple(e, k', r')
  {
  }

  lemma PartsExtend(e: Env, k: Sink, r: Ref, f: Frame)
    requires PartsCouple(e, k, r)
    ensures PartsCouple(e, k, r.(open := r.open + [f]))
  {
    hide Record;
    RecordsExtend(e, r.open, f, r.cuts);
  }

  lemma AddParts(e: Env, l: Live, r: Ref, f: Frame)
    requires FieldsCouple(l.s, r) && PartsCouple(e, l.k, r)
    ensures PartsCouple(e, AppendAndCut(e, l, f).live.k, AddFrame(e, r, f)) && AppendAndCut(e, l, f).outcome.Pass?
  {
    hide *;
    AddShape(e, l, r, f);
    var s3 := Append(Begin(l.s, f), f);
    PartsExtend(e, l.k, r, f);
    if e.partsOn && U32(f.ts - s3.partTS) >= PART_TICKS { EmitParts(e, Live(s3, l.k), r.(open := r.open + [f])); }
  }

  lemma IngestShape(e: Env, l: Live, f: Frame)
    ensures var s1 := Begin(l.s, f);
            IngestSample(e, l, f) ==
              if !Cutting(s1, f) then AppendAndCut(e, Live(s1, l.k), f)
              else
                var flushed := Flush(e, Live(s1, l.k));
                if flushed.outcome.Fail? then flushed
                else AppendAndCut(e, Live(StartAt(flushed.live.s, f), flushed.live.k), f)
  {
    hide Append, EmitPart;
    var s1 := Begin(l.s, f);
    FlushEmpties(e, Live(s1, l.k));
  }

  lemma FlushEmpties(e: Env, l: Live)
    ensures Flush(e, l).live.s.bufs == []
  {
  }

  lemma BeginTwice(e: Env, l: Live, f: Frame)
    ensures AppendAndCut(e, Live(Begin(l.s, f), l.k), f) == AppendAndCut(e, l, f)
    ensures l.s.bufs == [] ==> AppendAndCut(e, Live(StartAt(l.s, f), l.k), f) == AppendAndCut(e, l, f)
  {
    hide Append, EmitPart;
  }

  /** The code's step is a close at a boundary, then append and cut. */
  lemma StepShape(e: Env, l: Live, r: Ref, f: Frame)
    requires Couples(e, l, r)
    ensures var closed := if Boundary(r.open, f) then Flush(e, Live(Begin(l.s, f), l.k)).live else l;
            && IngestSample(e, l, f) == AppendAndCut(e, closed, f)
            && Couples(e, closed, if Boundary(r.open, f) then Close(r) else r)
            && closed.k.parts == l.k.parts && closed.s.initEmitted == l.s.initEmitted
  {
    BeginCouples(l.s, r, f);
    IngestShape(e, l, f);
    BeginTwice(e, l, f);
    BeginKeepsInit(l.s, f);
    hide SegmentsCouple, FieldsCouple, AppendAndCut, IngestSample, Flush, Close, Cutting, Begin;
    if Boundary(r.open, f) {
      var l1 := Live(Begin(l.s, f), l.k);
      FlushCouples(e, l1, r);
      FlushEmpties(e, l1);
      BeginTwice(e, Flush(e, l1).live, f);
    }
  }

  lemma BeginKeepsInit(s: Seg, f: Frame)
    ensures Begin(s, f).initEmitted == s.initEmitted
  {
  }

  /** Main result, one step: the fields of the code and the stored segments stay those of the
      reference, and no segment is ever refused. */
  lemma StepCouples(e: Env, l: Live, r: Ref, f: Frame)
    requires Couples(e, l, r)
    ensures Couples(e, IngestSample(e, l, f).live, RefStep(e, r, f))
    ensures IngestSample(e, l, f).outcome != Fail(SegmentRefused)
    ensures IngestSample(e, l, f).live.s.initEmitted == l.s.initEmitted
  {
    hide Couples, AppendAndCut, IngestSample;
    StepShape(e, l, r, f);
    var closed := if Boundary(r.open, f) then Flush(e, Live(Begin(l.s, f), l.k)).live else l;
    AddCouples(e, closed, if Boundary(r.open, f) then Close(r) else r, f);
  }

  /** The frame drops an open segment whose parts viewers may already have. */
  predicate DropsParts(r: Ref, f: Frame) {
    Boundary(r.open, f) && !HasKey(r.open) && r.cuts != []
  }

  /** Main result, one step: from a sink whose parts are right, they stay right and the step
      reports no error, if and only if the frame does not drop frames that already had parts. */
  lemma StepParts(e: Env, l: Live, r: Ref, f: Frame)
    requires Couples(e, l, r) && PartsCouple(e, l.k, r) && |RefStep(e, r, f).done| < TWO32
    ensures PartsCouple(e, IngestSample(e, l, f).live.k, RefStep(e, r, f)) <==> !DropsParts(r, f)
    ensures !DropsParts(r, f) ==> IngestSample(e, l, f).outcome.Pass?
  {
    hide SegmentsCouple;
    StepShape(e, l, r, f);
    var closed := if Boundary(r.open, f) then Flush(e, Live(Begin(l.s, f), l.k)).live else l;
    var r1 := if Boundary(r.open, f) then Close(r) else r;
    SameParts(e, l.k, closed.k, r);
    if Boundary(r.open, f) { CloseParts(e, closed.k, r); }
    if DropsParts(r, f) {
      DroppedPartsRemain(e, closed, r, f);
    } else {
      AddParts(e, closed, r1, f);
    }
  }

  lemma SameParts(e: Env, k: Sink, k': Sink, r: Ref)
    requires PartsCouple(e, k, r) && k'.parts == k.parts
    ensures PartsCouple(e, k', r)
  {
    forall i: uint32 ensures PartsOf(k', i) == PartsOf(k, i) {}
  }

  /** The frame that opens a segment never closes a part: the part clock starts with it. */
  lemma NotDueAtOnce(e: Env, closed: Live, c: Ref, f: Frame)
    requires FieldsCouple(closed.s, c) && c.open == [] && c.cuts == []
    ensures AddFrame(e, c, f) == c.(open := [f])
    ensures AppendAndCut(e, closed, f).live.k == closed.k
    ensures var s := AppendAndCut(e, closed, f).live.s; s.nextIdx == closed.s.nextIdx && s.partIdx == 0
  {
    hide HasKey, Samples, Durations;
    assert [] + [f] == [f] && CutTicks([f], []) == 0;
  }

  /** The new segment reuses the index of the dropped one, so its parts start again at zero
      under an index where the sink already holds some. */
  lemma DroppedPartsRemain(e: Env, closed: Live, r: Ref, f: Frame)
    requires DropsParts(r, f) && PartsCouple(e, closed.k, r) && FieldsCouple(closed.s, Close(r))
    ensures !PartsCouple(e, AppendAndCut(e, closed, f).live.k, AddFrame(e, Close(r), f))
    ensures AddFrame(e, Close(r), f).cuts == []
    ensures |r.cuts| < TWO32 ==>
              var l' := AppendAndCut(e, closed, f).live; !TakesPart(l'.k, l'.s.nextIdx, l'.s.partIdx)
  {
    hide HasKey, Samples, Durations, Records, CutsOk;
    NotDueAtOnce(e, closed, Close(r), f);
    assert |PartsOf(closed.k, |r.done|)| == |r.cuts| > 0;
    Small(|r.done|);
    if |r.cuts| < TWO32 { Small(|r.cuts|); }
  }

  /** Main result: what a drop does.  The next part cut after it is refused by the sink. */
  lemma NextPartRefused(e: Env, l: Live, r: Ref, f: Frame)
    requires Couples(e, l, r) && PartsCouple(e, l.k, r) && DropsParts(r, f) && |r.cuts| < TWO32
    ensures var l' := IngestSample(e, l, f).live; !TakesPart(l'.k, l'.s.nextIdx, l'.s.partIdx)
  {
    hide SegmentsCouple;
    StepShape(e, l, r, f);
    var closed := Flush(e, Live(Begin(l.s, f), l.k)).live;
    SameParts(e, l.k, closed.k, r);
    DroppedPartsRemain(e, closed, r, f);
  }
}
