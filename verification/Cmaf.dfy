/** The live segmenter of whip/segmenter.go and whip/parts.go as a state machine on values, with
    the sink it drives.  Timestamps, durations and indices are uint32 and wrap.

    `Ingest` follows the code's fields.  `RefStep` is the reference: it keeps the frames
    themselves, grouped into delivered segments, and says where they are cut.  The coupling
    `Couples` computes every field of the code, and the whole content of the sink, from the
    reference state; CmafProofs shows that each step keeps it.
 */
module Cmaf {
  import opened Bytes
  import opened Results
  import opened Nal
  import opened Merkle
  import opened Manifest
  import opened LivePin

  const SEGMENT_TICKS: int := 6 * 90_000
  const PART_TICKS: int := 2 * 90_000
  /** Stands in for the unknown duration of a last sample: one frame at 30 per second. */
  const FALLBACK: uint32 := 3000

  datatype Frame = Frame(nal: bytes, ts: uint32, key: bool)

  /** The fragmented-MP4 library: an init segment, which may fail, and one fragment for a
      sequence number, samples, their durations and whether the first is a sync sample. */
  datatype Mp4 = Mp4(init: (bytes, bytes) -> Option<bytes>, frag: (uint32, seq<bytes>, seq<uint32>, bool) -> bytes)

  /** `partsOn`: the sink accepts parts. */
  datatype Env = Env(sha: Sha, mp4: Mp4, partsOn: bool)

  datatype SegError = InitBuild | InitRefused | NothingToBuild | SegmentRefused | PartRefused

  /** The segmenter's fields. */
  datatype Seg = Seg(
    sps: bytes, pps: bytes, initEmitted: bool, startTS: uint32, hasKey: bool,
    bufs: seq<bytes>, durs: seq<uint32>, nextIdx: uint32, total: uint32, seqNo: uint32,
    partTS: uint32, partFrom: nat, partIdx: uint32, partKey: bool)

  datatype Live = Live(s: Seg, k: Sink)

  datatype Step = Step(live: Live, outcome: Outcome<SegError>)

  const IDLE := Seg([], [], false, 0, false, [], [], 0, 0, 1, 0, 0, 0, false)
  const START := Live(IDLE, EMPTY_SINK)

  // ---- the code ----

  function LastOfType(us: seq<bytes>, t: int, current: bytes): bytes {
    if us == [] then current
    else
      var u := us[|us| - 1];
      if u != [] && UnitType(u) == t then u else LastOfType(us[..|us| - 1], t, current)
  }

  function Params(s: Seg, f: Frame): Seg {
    s.(sps := LastOfType(Split(f.nal), 7, s.sps), pps := LastOfType(Split(f.nal), 8, s.pps))
  }

  function InitPhase(e: Env, l: Live): Step {
    if !l.s.initEmitted && l.s.sps != [] && l.s.pps != [] then
      match e.mp4.init(l.s.sps, l.s.pps)
      case None => Step(l, Fail(InitBuild))
      case Some(b) =>
        if l.k.initSeg != [] then Step(l, Fail(InitRefused))
        else Step(Live(l.s.(initEmitted := true), l.k.(initSeg := b)), Pass)
    else Step(l, Pass)
  }

  /** Segment and part accounting restart at `f`. */
  function StartAt(s: Seg, f: Frame): Seg {
    s.(startTS := f.ts, partTS := f.ts, partFrom := 0, partIdx := 0, partKey := f.key)
  }

  function Sum(ds: seq<uint32>): nat {
    if ds == [] then 0 else Sum(ds[..|ds| - 1]) + ds[|ds| - 1]
  }

  /** The placeholder of the last sample filled in. */
  function FinalDurs(ds: seq<uint32>): (r: seq<uint32>)
    ensures |r| == |ds|
  {
    if ds != [] && ds[|ds| - 1] == 0 then ds[|ds| - 1 := FALLBACK] else ds
  }

  function Flush(e: Env, l: Live): Step {
    var s := l.s;
    if s.bufs == [] then Step(l, Pass)
    else if !s.hasKey then Step(Live(s.(bufs := [], durs := []), l.k), Pass)
    else
      var data := e.mp4.frag(s.seqNo, s.bufs, FinalDurs(s.durs), true);
      var s' := s.(nextIdx := U32(s.nextIdx + 1), total := U32(s.total + 1), seqNo := U32(s.seqNo + 1),
                   bufs := [], durs := [], hasKey := false);
      Step(Live(s', AddSegment(e.sha, l.k, s.nextIdx, data)),
           if TakesSegment(l.k, s.nextIdx) then Pass else Fail(SegmentRefused))
  }

  function EmitPart(e: Env, l: Live): Step {
    var s := l.s;
    if !e.partsOn || s.partFrom >= |s.bufs| || |s.durs| != |s.bufs| then Step(l, Pass)
    else
      var durs := FinalDurs(s.durs[s.partFrom..]);
      var data := e.mp4.frag(s.seqNo, s.bufs[s.partFrom..], durs, s.partKey);
      var ticks := U32(Sum(durs));
      var p := PartRecord(s.partIdx, data, ticks, s.partKey);
      var s' := s.(seqNo := U32(s.seqNo + 1), partFrom := |s.bufs|, partIdx := U32(s.partIdx + 1),
                   partKey := false, partTS := U32(s.partTS + ticks));
      Step(Live(s', AddPart(l.k, s.nextIdx, p)),
           if TakesPart(l.k, s.nextIdx, s.partIdx) then Pass else Fail(PartRefused))
  }

  /** The previous sample gets its duration, the new one a placeholder. */
  function Append(s: Seg, f: Frame): Seg {
    var n := |s.durs|;
    var durs := if s.bufs == [] || n == 0 then s.durs
                else s.durs[n - 1 := U32(f.ts - U32(s.startTS + Sum(s.durs)))];
    s.(durs := durs + [0], bufs := s.bufs + [Sample(f.nal)], hasKey := s.hasKey || f.key)
  }

  function Begin(s: Seg, f: Frame): Seg { if s.bufs == [] then StartAt(s, f) else s }

  predicate Cutting(s: Seg, f: Frame) {
    f.key && U32(f.ts - s.startTS) >= SEGMENT_TICKS && s.bufs != []
  }

  /** `ingestFrame` once the init segment is out. */
  function IngestSample(e: Env, l: Live, f: Frame): Step {
    var s1 := Begin(l.s, f);
    var cut := Cutting(s1, f);
    var flushed := if cut then Flush(e, Live(s1, l.k)) else Step(Live(s1, l.k), Pass);
    if flushed.outcome.Fail? then flushed
    else
      var s2 := if cut then StartAt(flushed.live.s, f) else flushed.live.s;
      var s3 := Append(s2, f);
      var l3 := Live(s3, flushed.live.k);
      if e.partsOn && U32(f.ts - s3.partTS) >= PART_TICKS then EmitPart(e, l3) else Step(l3, Pass)
  }

  function Ingest(e: Env, l: Live, f: Frame): Step {
    var init := InitPhase(e, Live(Params(l.s, f), l.k));
    if init.outcome.Fail? || !init.live.s.initEmitted then init else IngestSample(e, init.live, f)
  }

  /** `OnVideoFrame` on every frame in turn; its errors are swallowed. */
  function Run(e: Env, fs: seq<Frame>): Live {
    if fs == [] then START else Ingest(e, Run(e, fs[..|fs| - 1]), fs[|fs| - 1]).live
  }

  // ---- the reference ----

  /** One part: frames `lo` up to `hi` of its segment, and the sequence number it was given. */
  datatype Cut = Cut(lo: nat, hi: nat, seqNo: uint32)

  datatype Delivered = Delivered(frames: seq<Frame>, cuts: seq<Cut>, seqNo: uint32)

  /** The open segment with its parts so far, the delivered segments, the frames dropped for want
      of a keyframe, the next sequence number; `clean` until a dropped segment had parts. */
  datatype Ref = Ref(open: seq<Frame>, cuts: seq<Cut>, done: seq<Delivered>, lost: seq<Frame>, seqNo: uint32, clean: bool)

  const REF_START := Ref([], [], [], [], 1, true)

  predicate HasKey(fs: seq<Frame>) { exists i :: 0 <= i < |fs| && fs[i].key }

  /** Time differences between neighbours, modulo 2^32. */
  function Deltas(fs: seq<Frame>): (ds: seq<uint32>)
    ensures |ds| == if fs == [] then 0 else |fs| - 1
  {
    seq<uint32>(if fs == [] then 0 else |fs| - 1, i requires 0 <= i < |fs| - 1 => U32(fs[i + 1].ts - fs[i].ts))
  }

  function Samples(fs: seq<Frame>): (r: seq<bytes>)
    ensures |r| == |fs|
  {
    seq(|fs|, i requires 0 <= i < |fs| => Sample(fs[i].nal))
  }

  /** What a delivered run of frames reports: last time minus first plus one frame, modulo 2^32. */
  function Ticks(fs: seq<Frame>): uint32
    requires fs != []
  {
    U32(fs[|fs| - 1].ts - fs[0].ts + FALLBACK)
  }

  function End(cuts: seq<Cut>): nat { if cuts == [] then 0 else cuts[|cuts| - 1].hi }

  function EndBefore(cuts: seq<Cut>, i: nat): nat
    requires i <= |cuts|
  {
    if i == 0 then 0 else cuts[i - 1].hi
  }

  /** Parts tile the front of the segment, in order and without gaps. */
  ghost predicate CutsOk(fs: seq<Frame>, cuts: seq<Cut>) {
    && (forall i :: 0 <= i < |cuts| ==> cuts[i].lo < cuts[i].hi <= |fs|)
    && (forall i {:trigger EndBefore(cuts, i)} :: 0 <= i < |cuts| ==> cuts[i].lo == EndBefore(cuts, i))
  }

  predicate CutsIn(fs: seq<Frame>, cuts: seq<Cut>) {
    forall i :: 0 <= i < |cuts| ==> cuts[i].lo < cuts[i].hi <= |fs|
  }

  function CutTicks(fs: seq<Frame>, cuts: seq<Cut>): nat
    requires CutsIn(fs, cuts)
  {
    if cuts == [] then 0
    else
      var c := cuts[|cuts| - 1];
      CutTicks(fs, cuts[..|cuts| - 1]) + Ticks(fs[c.lo..c.hi])
  }

  /** The time the next part starts at: the segment's start plus what its parts reported. */
  function PartStart(fs: seq<Frame>, cuts: seq<Cut>): uint32
    requires fs != [] && CutsIn(fs, cuts)
  {
    U32(fs[0].ts + CutTicks(fs, cuts))
  }

  /** A keyframe at least six seconds into the open segment ends it. */
  predicate Boundary(open: seq<Frame>, f: Frame) {
    open != [] && f.key && U32(f.ts - open[0].ts) >= SEGMENT_TICKS
  }

  function Close(r: Ref): Ref {
    if r.open == [] then r
    else if HasKey(r.open) then
      Ref([], [], r.done + [Delivered(r.open, r.cuts, r.seqNo)], r.lost, U32(r.seqNo + 1), r.clean)
    else Ref([], [], r.done, r.lost + r.open, r.seqNo, r.clean && r.cuts == [])
  }

  /** Join `f` to the open segment, then cut a part if two seconds have passed since the last. */
  function AddFrame(e: Env, r: Ref, f: Frame): Ref {
    var open := r.open + [f];
    if e.partsOn && CutsIn(open, r.cuts) && U32(f.ts - PartStart(open, r.cuts)) >= PART_TICKS then
      r.(open := open, cuts := r.cuts + [Cut(End(r.cuts), |open|, r.seqNo)], seqNo := U32(r.seqNo + 1))
    else r.(open := open)
  }

  function RefStep(e: Env, r: Ref, f: Frame): Ref {
    AddFrame(e, if Boundary(r.open, f) then Close(r) else r, f)
  }

  function RefRun(e: Env, fs: seq<Frame>): Ref {
    if fs == [] then REF_START else RefStep(e, RefRun(e, fs[..|fs| - 1]), fs[|fs| - 1])
  }

  // ---- the frames that count ----

  /** The parameter set of type `t` in force after `fs`. */
  function ParamAfter(fs: seq<Frame>, t: int): bytes {
    if fs == [] then [] else LastOfType(Split(fs[|fs| - 1].nal), t, ParamAfter(fs[..|fs| - 1], t))
  }

  predicate Ready(e: Env, fs: seq<Frame>) {
    ParamAfter(fs, 7) != [] && ParamAfter(fs, 8) != [] && e.mp4.init(ParamAfter(fs, 7), ParamAfter(fs, 8)).Some?
  }

  /** The frames from the first one at which the init segment can be built. */
  function Admitted(e: Env, fs: seq<Frame>): seq<Frame> {
    if fs == [] then []
    else
      var before := Admitted(e, fs[..|fs| - 1]);
      if before != [] || Ready(e, fs) then before + [fs[|fs| - 1]] else []
  }

  // ---- the coupling ----

  function Durations(fs: seq<Frame>): seq<uint32> { if fs == [] then [] else Deltas(fs) + [0] }

  function Body(e: Env, d: Delivered): bytes {
    e.mp4.frag(d.seqNo, Samples(d.frames), Deltas(d.frames) + [FALLBACK], true)
  }

  function Bodies(e: Env, ds: seq<Delivered>): (r: seq<bytes>)
    ensures |r| == |ds|
  {
    seq(|ds|, i requires 0 <= i < |ds| => Body(e, ds[i]))
  }

  /** The sample buffers and durations of the open segment. */
  ghost predicate DataCouple(s: Seg, open: seq<Frame>) {
    s.bufs == Samples(open) && s.durs == Durations(open) && s.hasKey == HasKey(open)
  }

  /** Its start, and where its next part starts. */
  ghost predicate CursorCouple(s: Seg, open: seq<Frame>, cuts: seq<Cut>)
    requires open != [] && CutsIn(open, cuts)
  {
    && s.startTS == open[0].ts && s.partTS == PartStart(open, cuts)
    && s.partFrom == End(cuts) && s.partIdx == U32(|cuts|)
    && s.partKey == (cuts == [] && open[0].key)
  }

  ghost predicate CountersCouple(s: Seg, r: Ref) {
    s.nextIdx == U32(|r.done|) && s.total == U32(|r.done|) && s.seqNo == r.seqNo
  }

  ghost predicate FieldsCouple(s: Seg, r: Ref) {
    && CutsOk(r.open, r.cuts) && CutsIn(r.open, r.cuts)
    && DataCouple(s, r.open) && CountersCouple(s, r)
    && (r.open != [] ==> CursorCouple(s, r.open, r.cuts))
  }

  ghost predicate SegmentsCouple(e: Env, k: Sink, r: Ref) {
    k.segments == Bodies(e, r.done) && k.leaves == LeafHashes(e.sha, k.segments)
  }

  ghost predicate Couples(e: Env, l: Live, r: Ref) {
    FieldsCouple(l.s, r) && SegmentsCouple(e, l.k, r)
  }

  /** The record of part `j`: independent exactly when it opens the segment on a keyframe. */
  function Record(e: Env, fs: seq<Frame>, cuts: seq<Cut>, j: nat): PartRecord
    requires CutsIn(fs, cuts) && j < |cuts|
  {
    var c := cuts[j];
    var p := fs[c.lo..c.hi];
    var sync := j == 0 && p[0].key;
    PartRecord(U32(j), e.mp4.frag(c.seqNo, Samples(p), Deltas(p) + [FALLBACK], sync), Ticks(p), sync)
  }

  function Records(e: Env, fs: seq<Frame>, cuts: seq<Cut>): (r: seq<PartRecord>)
    requires CutsIn(fs, cuts)
    ensures |r| == |cuts|
  {
    seq(|cuts|, j requires 0 <= j < |cuts| => Record(e, fs, cuts, j))
  }

  /** The parts the sink holds: those of each delivered segment, those of the open one, no other. */
  ghost predicate PartsCouple(e: Env, k: Sink, r: Ref) {
    && CutsIn(r.open, r.cuts) && |r.done| < TWO32
    && (forall i :: 0 <= i < |r.done| ==> CutsIn(r.done[i].frames, r.done[i].cuts))
    && PartsOf(k, |r.done|) == Records(e, r.open, r.cuts)
    && (forall i :: 0 <= i < |r.done| ==> PartsOf(k, i) == Records(e, r.done[i].frames, r.done[i].cuts))
    && (forall i: uint32 :: i > |r.done| ==> PartsOf(k, i) == [])
  }
}
