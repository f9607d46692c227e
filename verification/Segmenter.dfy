/** The live segmenter object of whip/segmenter.go: its fields, updated per frame as in Cmaf's
    `Ingest`, and the sink it calls.
 */
module Segmenter {
  import opened Bytes
  import opened Results
  import opened Nal
  import opened LivePin
  import opened Cmaf

  class CMAFSegmenter {
    const env: Env
    const sink: LivePinSink
    var sps: bytes
    var pps: bytes
    var initEmitted: bool
    var segmentStartTS: uint32
    var segmentHasKey: bool
    var segmentSampleBufs: seq<bytes>
    var segmentDurations: seq<uint32>
    var nextSegmentIndex: uint32
    var totalSegments: uint32
    var sequenceNumber: uint32
    var partStartTS: uint32
    var partStartSampleIdx: nat
    var partIndexInSegment: uint32
    var partStartsOnKeyframe: bool

    ghost function Fields(): Seg
      reads this
    {
      Seg(sps, pps, initEmitted, segmentStartTS, segmentHasKey, segmentSampleBufs, segmentDurations,
          nextSegmentIndex, totalSegments, sequenceNumber, partStartTS, partStartSampleIdx,
          partIndexInSegment, partStartsOnKeyframe)
    }

    ghost function State(): Live
      reads this, sink
    {
      Live(Fields(), sink.State())
    }

    ghost predicate Valid()
      reads this, sink
    {
      && sink.Valid() && sink.sha == env.sha
      && |segmentDurations| == |segmentSampleBufs|
    }

    constructor (env: Env, sink: LivePinSink)
      requires sink.Valid() && sink.sha == env.sha
      ensures Valid() && Fields() == IDLE && this.env == env && this.sink == sink
    {
      this.env, this.sink := env, sink;
      sps, pps, initEmitted := [], [], false;
      segmentStartTS, segmentHasKey, segmentSampleBufs, segmentDurations := 0, false, [], [];
      nextSegmentIndex, totalSegments, sequenceNumber := 0, 0, 1;
      partStartTS, partStartSampleIdx, partIndexInSegment, partStartsOnKeyframe := 0, 0, 0, false;
    }

    /** Frames after an error are taken as usual: the error is swallowed. */
    method OnVideoFrame(f: Frame)
      requires Valid()
      modifies this, sink
      ensures Valid() && State() == Ingest(env, old(State()), f).live
    {
      var r := IngestFrame(f);
    }

    method Close() returns (r: Outcome<SegError>)
      requires Valid()
      modifies this, sink
      ensures Valid() && State() == Flush(env, old(State())).live && r == Flush(env, old(State())).outcome
    {
      if |segmentSampleBufs| > 0 {
        r := FlushLocked();
      } else {
        r := Pass;
      }
    }

    method IngestFrame(f: Frame) returns (r: Outcome<SegError>)
      requires Valid()
      modifies this, sink
      ensures Valid() && State() == Ingest(env, old(State()), f).live && r == Ingest(env, old(State()), f).outcome
    {
      hide IngestSample, InitPhase, Params;
      CaptureParams(f.nal, f);
      r := EmitInit();
      if r.Fail? { return; }
      if !initEmitted { return; }
      r := AddSample(f);
    }

    /** The first loop of ingestFrame: remember the newest parameter sets. */
    method CaptureParams(nal: bytes, ghost f: Frame)
      requires f.nal == nal
      modifies `sps, `pps
      ensures Fields() == Params(old(Fields()), f)
    {
      hide Split;
      var units := SplitNALUnits(nal);
      for i := 0 to |units|
        invariant sps == LastOfType(units[..i], 7, old(sps))
        invariant pps == LastOfType(units[..i], 8, old(pps))
      {
        var unit := units[i];
        LastOfTypeAppend(units[..i], unit, 7, old(sps));
        LastOfTypeAppend(units[..i], unit, 8, old(pps));
        assert units[..i + 1] == units[..i] + [unit];
        if |unit| == 0 { continue; }
        if unit[0] % 32 == 7 {
          sps := unit;
        } else if unit[0] % 32 == 8 {
          pps := unit;
        }
      }
      assert units[..|units|] == units;
    }

    method EmitInit() returns (r: Outcome<SegError>)
      requires Valid()
      modifies `initEmitted, sink`initSeg
      ensures Valid() && State() == InitPhase(env, old(State())).live && r == InitPhase(env, old(State())).outcome
      ensures var made := if old(initEmitted) || sps == [] || pps == [] then None else env.mp4.init(sps, pps);
              if made.Some? && old(sink.initSeg) == [] then initEmitted && sink.initSeg == made.value && r == Pass
              else initEmitted == old(initEmitted) && sink.initSeg == old(sink.initSeg)
    {
      if !initEmitted && |sps| > 0 && |pps| > 0 {
        var initBytes := env.mp4.init(sps, pps);
        if initBytes.None? { return Fail(InitBuild); }
        var taken := sink.OnInitSegment(initBytes.value);
        if taken.Fail? { return Fail(InitRefused); }
        initEmitted := true;
      }
      return Pass;
    }

    /** The rest of ingestFrame: boundary, append, part. */
    method AddSample(f: Frame) returns (r: Outcome<SegError>)
      requires Valid()
      modifies this, sink
      ensures Valid() && State() == IngestSample(env, old(State()), f).live
      ensures r == IngestSample(env, old(State()), f).outcome
    {
      hide Flush, Append, EmitPart;
      if |segmentSampleBufs| == 0 { Restart(f); }
      ghost var l1 := State();
      assert l1 == Live(Begin(old(Fields()), f), old(sink.State()));
      var elapsed := U32(f.ts - segmentStartTS);
      if f.key && elapsed >= SEGMENT_TICKS && |segmentSampleBufs| > 0 {
        r := FlushLocked();
        if r.Fail? { return; }
        Restart(f);
      }
      ghost var l2 := State();
      AppendSample(f);
      if env.partsOn {
        var partElapsed := U32(f.ts - partStartTS);
        if partElapsed >= PART_TICKS {
          r := EmitPartLocked();
          return;
        }
      }
      return Pass;
    }

    method Restart(f: Frame)
      requires Valid()
      modifies `segmentStartTS, `partStartTS, `partStartSampleIdx, `partIndexInSegment, `partStartsOnKeyframe
      ensures Valid() && Fields() == StartAt(old(Fields()), f)
    {
      segmentStartTS := f.ts;
      partStartTS := f.ts;
      partStartSampleIdx := 0;
      partIndexInSegment := 0;
      partStartsOnKeyframe := f.key;
    }

    /** Adds up durations as the code does, wrapping at every step. */
    method SumTicks(ds: seq<uint32>) returns (total: uint32)
      ensures total == U32(Sum(ds))
    {
      total := 0;
      for i := 0 to |ds|
        invariant total == U32(Sum(ds[..i]))
      {
        assert ds[..i + 1][..i] == ds[..i];
        WrapSum(Sum(ds[..i]), ds[i]);
        total := U32(total + ds[i]);
      }
      assert ds[..|ds|] == ds;
    }

    method AppendSample(f: Frame)
      requires Valid()
      modifies `segmentDurations, `segmentSampleBufs, `segmentHasKey
      ensures Valid() && Fields() == Append(old(Fields()), f)
    {
      hide Sum, Sample, LeavesMatch;
      if |segmentSampleBufs| > 0 {
        var prevStartInSegment := SumTicks(segmentDurations);
        var prevSampleTS := U32(segmentStartTS + prevStartInSegment);
        WrapSum(Sum(segmentDurations), segmentStartTS);
        segmentDurations := segmentDurations[|segmentDurations| - 1 := U32(f.ts - prevSampleTS)];
      }
      var sample := EncodeAVCCSample(f.nal);
      segmentSampleBufs := segmentSampleBufs + [sample];
      segmentDurations := segmentDurations + [0];
      if f.key { segmentHasKey := true; }
    }

    /** The last duration is a placeholder until the next frame: one frame at 30 per second. */
    method FillLast(ds: seq<uint32>) returns (r: seq<uint32>)
      requires ds != []
      ensures r == FinalDurs(ds)
    {
      r := ds;
      if r[|r| - 1] == 0 { r := r[|r| - 1 := 90_000 / 30]; }
    }

    method EmitPartLocked() returns (r: Outcome<SegError>)
      requires Valid()
      modifies this, sink
      ensures Valid() && State() == EmitPart(env, old(State())).live && r == EmitPart(env, old(State())).outcome
    {
      hide Sum, AddPart, TakesPart, FinalDurs, LeavesMatch;
      if !env.partsOn { return Pass; }
      var hi := |segmentSampleBufs|;
      if partStartSampleIdx >= hi { return Pass; }
      var partSamples := segmentSampleBufs[partStartSampleIdx..hi];
      var durCopy := FillLast(segmentDurations[partStartSampleIdx..hi]);
      assert segmentDurations[partStartSampleIdx..hi] == segmentDurations[partStartSampleIdx..];
      assert partSamples == segmentSampleBufs[partStartSampleIdx..];
      var built := BuildPartSegment(sequenceNumber, partSamples, durCopy, partStartsOnKeyframe);
      if built.None? { return Fail(NothingToBuild); }
      var data, totalTicks := built.value.0, built.value.1;
      var segIdx, partIdx, independent := nextSegmentIndex, partIndexInSegment, partStartsOnKeyframe;
      AdvancePart(hi, totalTicks);
      var taken := sink.OnMediaPart(segIdx, partIdx, data, totalTicks, independent);
      return if taken.Pass? then Pass else Fail(PartRefused);
    }

    /** The cursor updates of emitPartLocked, made before the sink is called. */
    method AdvancePart(hi: nat, totalTicks: uint32)
      modifies `sequenceNumber, `partStartSampleIdx, `partIndexInSegment, `partStartsOnKeyframe, `partStartTS
      ensures Fields() == old(Fields()).(
                seqNo := U32(old(sequenceNumber) + 1), partFrom := hi, partIdx := U32(old(partIndexInSegment) + 1),
                partKey := false, partTS := U32(old(partStartTS) + totalTicks))
    {
      sequenceNumber := U32(sequenceNumber + 1);
      partStartSampleIdx := hi;
      partIndexInSegment := U32(partIndexInSegment + 1);
      partStartsOnKeyframe := false;
      partStartTS := U32(partStartTS + totalTicks);
    }

    /** whip/parts.go: one fragment, and the sum of its durations; nothing for no samples, or for samples
        without a duration each. */
    method BuildPartSegment(seqNo: uint32, samples: seq<bytes>, durations: seq<uint32>, startsOnKeyframe: bool)
      returns (r: Option<(bytes, uint32)>)
      ensures r.Some? <==> |samples| == |durations| > 0
      ensures r.Some? ==>
                r.value == (env.mp4.frag(seqNo, samples, durations, startsOnKeyframe), U32(Sum(durations)))
    {
      if |samples| == 0 { return None; }
      if |samples| != |durations| { return None; }
      var totalTicks := SumTicks(durations);
      return Some((env.mp4.frag(seqNo, samples, durations, startsOnKeyframe), totalTicks));
    }

    /** The bookkeeping of a delivered segment, done before the sink is called. */
    method ClearSegment()
      modifies `nextSegmentIndex, `totalSegments, `sequenceNumber, `segmentSampleBufs, `segmentDurations, `segmentHasKey
      ensures Fields() == old(Fields()).(
                nextIdx := U32(old(nextSegmentIndex) + 1), total := U32(old(totalSegments) + 1),
                seqNo := U32(old(sequenceNumber) + 1), bufs := [], durs := [], hasKey := false)
    {
      nextSegmentIndex := U32(nextSegmentIndex + 1);
      totalSegments := U32(totalSegments + 1);
      sequenceNumber := U32(sequenceNumber + 1);
      segmentSampleBufs := [];
      segmentDurations := [];
      segmentHasKey := false;
    }

    method FlushLocked() returns (r: Outcome<SegError>)
      requires Valid()
      modifies this, sink
      ensures Valid() && State() == Flush(env, old(State())).live && r == Flush(env, old(State())).outcome
    {
      hide Sum, AddSegment, TakesSegment, FinalDurs, LeavesMatch;
      if |segmentSampleBufs| == 0 { return Pass; }
      if !segmentHasKey {
        segmentSampleBufs := [];
        segmentDurations := [];
        return Pass;
      }
      var durations := FillLast(segmentDurations);
      var built := BuildPartSegment(sequenceNumber, segmentSampleBufs, durations, true);
      if built.None? { return Fail(NothingToBuild); }
      var data, totalTicks := built.value.0, built.value.1;
      var idx := nextSegmentIndex;
      ClearSegment();
      var taken := sink.OnMediaSegment(idx, data, totalTicks);
      return if taken.Pass? then Pass else Fail(SegmentRefused);
    }
  }

  lemma WrapSum(a: int, b: int)
    ensures U32(U32(a) + b) == U32(a + b)
    ensures U32(b + U32(a)) == U32(b + a)
  {
  }

  lemma LastOfTypeAppend(us: seq<bytes>, u: bytes, t: int, current: bytes)
    ensures LastOfType(us + [u], t, current) ==
            if u != [] && UnitType(u) == t then u else LastOfType(us, t, current)
  {
    assert (us + [u])[..|us|] == us;
  }
}
