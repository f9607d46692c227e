/** The access-unit batcher of whip/hls_muxer.go: network frames that share one RTP
    timestamp become one access unit, with cached parameter sets put in front of
    an IDR unit that lacks them.

    `Runs` is the reference: cut the list of frames wherever the timestamp
    changes, put the NAL units of each run together, forget the runs that hold
    none.
 */
module HlsMuxer {
  import opened Bytes
  import opened Nal
  import opened Results

  datatype Frame = Frame(nal: bytes, ts: uint32)

  /** One call of the library's `WriteH264`: the raw timestamp the unit was batched
      under, the presentation time passed on, and the NAL units; `injected` of
      them were put in front by the muxer. */
  datatype Unit = Unit(ts: uint32, rel: int, nals: seq<bytes>, injected: nat)
  {
    ghost predicate WellFormed() { injected <= |nals| }

    function Body(): seq<bytes>
      requires WellFormed()
    {
      nals[injected..]
    }
  }

  /** The muxer's fields; `first` is `firstPTS` with its set flag. */
  datatype Mux = Mux(sps: bytes, pps: bytes, au: seq<bytes>, pts: uint32, first: Option<uint32>, written: seq<Unit>)

  // ---- flush ----

  function FirstOfType(us: seq<bytes>, t: int): (r: bytes)
    ensures HasType(us, t) ==> r in us && r != [] && UnitType(r) == t
    ensures !HasType(us, t) ==> r == []
  {
    if us == [] then []
    else if us[0] != [] && UnitType(us[0]) == t then us[0]
    else
      HasTypeTail(us, t);
      FirstOfType(us[1..], t)
  }

  lemma HasTypeTail(us: seq<bytes>, t: int)
    requires us != [] && !(us[0] != [] && UnitType(us[0]) == t)
    ensures HasType(us, t) <==> HasType(us[1..], t)
  {
    HasTypeConcat([us[0]], us[1..], t);
    assert us == [us[0]] + us[1..];
  }

  /** A cache keeps the first parameter set it ever saw. */
  function Cached(cache: bytes, us: seq<bytes>, t: int): bytes {
    if cache != [] then cache else FirstOfType(us, t)
  }

  lemma {:induction false} FirstOfTypeAppend(us: seq<bytes>, u: bytes, t: int)
    ensures FirstOfType(us + [u], t) ==
            if HasType(us, t) then FirstOfType(us, t) else if u != [] && UnitType(u) == t then u else []
  {
    if us == [] {
      assert us + [u] == [u];
    } else if !(us[0] != [] && UnitType(us[0]) == t) {
      FirstOfTypeAppend(us[1..], u, t);
      HasTypeTail(us, t);
      assert (us + [u])[1..] == us[1..] + [u];
    }
  }

  /** One step of the scan over an access unit. */
  lemma ScanStep(us: seq<bytes>, u: bytes, t: int)
    ensures HasType(us + [u], t) <==> HasType(us, t) || (u != [] && UnitType(u) == t)
    ensures forall cache :: Cached(cache, us + [u], t) ==
                            if Cached(cache, us, t) == [] && u != [] && UnitType(u) == t then u else Cached(cache, us, t)
  {
    HasTypeConcat(us, [u], t);
    FirstOfTypeAppend(us, u, t);
    if u != [] && UnitType(u) == t { assert [u][0] == u; }
  }

  /** What goes in front of an access unit. */
  function Injection(sps: bytes, pps: bytes, au: seq<bytes>): seq<bytes> {
    if HasType(au, 5) && sps != [] && pps != [] then
      (if HasType(au, 7) then [] else [sps]) + (if HasType(au, 8) then [] else [pps])
    else []
  }

  /** Presentation time: the signed 32-bit distance from the first frame. */
  function RelPTS(ts: uint32, first: uint32): int {
    var d := U32(ts - first);
    if d < TWO32 / 2 then d else d - TWO32
  }

  function Flush(m: Mux): Mux {
    if m.au == [] then m
    else
      var sps, pps := Cached(m.sps, m.au, 7), Cached(m.pps, m.au, 8);
      var inj := Injection(sps, pps, m.au);
      var u := Unit(m.pts, RelPTS(m.pts, if m.first.Some? then m.first.value else 0), inj + m.au, |inj|);
      Mux(sps, pps, [], m.pts, m.first, m.written + [u])
  }

  function OnFrame(m: Mux, f: Frame): Mux {
    var m1 := if m.first.None? then m.(first := Some(f.ts), pts := f.ts) else m;
    var m2 := if f.ts != m1.pts && m1.au != [] then Flush(m1) else m1;
    m2.(au := m2.au + Split(f.nal), pts := f.ts)
  }

  function Init(sps: bytes, pps: bytes): Mux {
    Mux(sps, pps, [], 0, None, [])
  }

  function Run(m: Mux, fs: seq<Frame>): Mux {
    if fs == [] then m else OnFrame(Run(m, fs[..|fs| - 1]), fs[|fs| - 1])
  }

  // ---- reference ----

  datatype Batch = Batch(ts: uint32, nals: seq<bytes>)

  /** The runs of equal timestamps, last run last, each with its NAL units. */
  function Runs(fs: seq<Frame>): (r: seq<Batch>)
    ensures fs != [] ==> r != [] && r[|r| - 1].ts == fs[|fs| - 1].ts
  {
    if fs == [] then []
    else
      var n := |fs| - 1;
      var before, f := Runs(fs[..n]), fs[n];
      if n > 0 && fs[n - 1].ts == f.ts then
        var last := before[|before| - 1];
        before[..|before| - 1] + [Batch(f.ts, last.nals + Split(f.nal))]
      else before + [Batch(f.ts, Split(f.nal))]
  }

  function Holding(bs: seq<Batch>): seq<Batch> {
    if bs == [] then []
    else Holding(bs[..|bs| - 1]) + if bs[|bs| - 1].nals != [] then [bs[|bs| - 1]] else []
  }

  ghost predicate AllWellFormed(us: seq<Unit>) {
    forall i :: 0 <= i < |us| ==> us[i].WellFormed()
  }

  /** The written units with injected parameter sets removed. */
  function Bodies(us: seq<Unit>): (r: seq<Batch>)
    requires AllWellFormed(us)
    ensures |r| == |us|
  {
    if us == [] then []
    else Bodies(us[..|us| - 1]) + [Batch(us[|us| - 1].ts, us[|us| - 1].Body())]
  }

  lemma BodiesAppend(us: seq<Unit>, u: Unit)
    requires AllWellFormed(us) && u.WellFormed()
    ensures AllWellFormed(us + [u]) && Bodies(us + [u]) == Bodies(us) + [Batch(u.ts, u.Body())]
  {
    assert (us + [u])[..|us|] == us;
  }

  lemma HoldingAppend(bs: seq<Batch>, b: Batch)
    ensures Holding(bs + [b]) == Holding(bs) + if b.nals != [] then [b] else []
  {
    assert (bs + [b])[..|bs|] == bs;
  }

  /** The state after `fs`: all closed runs written, the open run pending. */
  ghost predicate Tracks(m: Mux, fs: seq<Frame>) {
    && AllWellFormed(m.written)
    && (fs == [] ==> m.au == [] && m.written == [] && m.first.None?)
    && (fs != [] ==>
          var rs := Runs(fs);
          && m.first == Some(fs[0].ts) && m.pts == rs[|rs| - 1].ts && m.au == rs[|rs| - 1].nals
          && Bodies(m.written) == Holding(rs[..|rs| - 1]))
  }

  lemma FlushBodies(m: Mux)
    requires AllWellFormed(m.written)
    ensures AllWellFormed(Flush(m).written)
    ensures Bodies(Flush(m).written) == Bodies(m.written) + if m.au != [] then [Batch(m.pts, m.au)] else []
    ensures Flush(m).au == [] && Flush(m).pts == m.pts && Flush(m).first == m.first
  {
    if m.au != [] {
      var u := Flush(m).written[|m.written|];
      assert u.nals[u.injected..] == m.au;
      BodiesAppend(m.written, u);
    }
  }

  lemma StepTracks(m: Mux, fs: seq<Frame>, f: Frame)
    requires Tracks(m, fs)
    ensures Tracks(OnFrame(m, f), fs + [f])
  {
    var gs := fs + [f];
    assert gs[..|fs|] == fs;
    var rs := Runs(gs);
    if fs == [] {
      assert rs == [] + [Batch(f.ts, Split(f.nal))];
      assert rs[..|rs| - 1] == [] && m.au + Split(f.nal) == Split(f.nal);
    } else {
      var before := Runs(fs);
      var k := |before| - 1;
      assert before[..k] + [before[k]] == before;
      if f.ts == m.pts {
        assert rs[..|rs| - 1] == before[..k];
      } else {
        assert rs[..|rs| - 1] == before;
        HoldingAppend(before[..k], before[k]);
        FlushBodies(m);
        assert [] + Split(f.nal) == Split(f.nal);
      }
    }
  }

  lemma {:induction false} RunTracks(sps: bytes, pps: bytes, fs: seq<Frame>)
    ensures Tracks(Run(Init(sps, pps), fs), fs)
  {
    if fs != [] {
      var n := |fs| - 1;
      RunTracks(sps, pps, fs[..n]);
      StepTracks(Run(Init(sps, pps), fs[..n]), fs[..n], fs[n]);
      assert fs == fs[..n] + [fs[n]];
    }
  }

  /** Main result: after `Close` the units written are, injected sets removed, the
      timestamp runs of the input, each under the timestamp its frames share. */
  lemma BatchingRefinesRuns(sps: bytes, pps: bytes, fs: seq<Frame>)
    ensures var out := Flush(Run(Init(sps, pps), fs)).written;
            AllWellFormed(out) && Bodies(out) == Holding(Runs(fs))
  {
    RunTracks(sps, pps, fs);
    var m := Run(Init(sps, pps), fs);
    FlushBodies(m);
    if fs != [] {
      var rs := Runs(fs);
      assert rs == rs[..|rs| - 1] + [rs[|rs| - 1]];
      HoldingAppend(rs[..|rs| - 1], rs[|rs| - 1]);
    }
  }

  // ---- nothing lost ----

  function BatchNals(bs: seq<Batch>): seq<bytes> {
    if bs == [] then [] else BatchNals(bs[..|bs| - 1]) + bs[|bs| - 1].nals
  }

  function InputNals(fs: seq<Frame>): seq<bytes> {
    if fs == [] then [] else InputNals(fs[..|fs| - 1]) + Split(fs[|fs| - 1].nal)
  }

  function LaidOut(gs: seq<seq<Frame>>): seq<Frame> {
    if gs == [] then [] else LaidOut(gs[..|gs| - 1]) + gs[|gs| - 1]
  }

  /** `gs` cuts `fs` where the timestamp changes and nowhere else, and `bs` are the NAL units between the cuts. */
  ghost predicate CutByTime(fs: seq<Frame>, gs: seq<seq<Frame>>, bs: seq<Batch>) {
    && LaidOut(gs) == fs && |gs| == |bs|
    && (forall i :: 0 <= i < |gs| ==> gs[i] != [] && bs[i].nals == InputNals(gs[i]) && AllAt(gs[i], bs[i].ts))
    && (forall i :: 0 < i < |gs| ==> bs[i - 1].ts != bs[i].ts)
  }

  ghost predicate AllAt(fs: seq<Frame>, ts: uint32) { forall k :: 0 <= k < |fs| ==> fs[k].ts == ts }

  /** The timestamp runs in plain terms. */
  lemma {:induction false} RunsCutByTime(fs: seq<Frame>) returns (gs: seq<seq<Frame>>)
    ensures CutByTime(fs, gs, Runs(fs))
  {
    hide CutByTime, Split;
    if fs == [] {
      gs := [];
      NothingToCut();
    } else {
      var n := |fs| - 1;
      var f := fs[n];
      var front := RunsCutByTime(fs[..n]);
      assert fs == fs[..n] + [f];
      if n > 0 && fs[n - 1].ts == f.ts {
        gs := SameTime(fs[..n], front, Runs(fs[..n]), f);
      } else {
        gs := NewTime(fs[..n], front, Runs(fs[..n]), f);
      }
    }
  }

  lemma NothingToCut()
    ensures CutByTime([], [], [])
  {
  }

  lemma SameTime(fs: seq<Frame>, front: seq<seq<Frame>>, bs: seq<Batch>, f: Frame) returns (gs: seq<seq<Frame>>)
    requires CutByTime(fs, front, bs) && bs != [] && bs[|bs| - 1].ts == f.ts
    ensures CutByTime(fs + [f], gs, bs[..|bs| - 1] + [Batch(f.ts, bs[|bs| - 1].nals + Split(f.nal))])
  {
    hide Split;
    var k := |front| - 1;
    var last := front[k] + [f];
    gs := front[..k] + [last];
    assert gs[..k] == front[..k] && last[..|last| - 1] == front[k];
    assert LaidOut(gs) == LaidOut(front[..k]) + last;
    assert InputNals(last) == InputNals(front[k]) + Split(f.nal);
    hide InputNals, LaidOut;
  }

  lemma NewTime(fs: seq<Frame>, front: seq<seq<Frame>>, bs: seq<Batch>, f: Frame) returns (gs: seq<seq<Frame>>)
    requires CutByTime(fs, front, bs) && (bs != [] ==> bs[|bs| - 1].ts != f.ts)
    ensures CutByTime(fs + [f], gs, bs + [Batch(f.ts, Split(f.nal))])
  {
    hide Split;
    gs := front + [[f]];
    assert gs[..|front|] == front && [f][..0] == [];
    assert InputNals([f]) == [] + Split(f.nal) == Split(f.nal);
    assert LaidOut(gs) == fs + [f];
    hide InputNals, LaidOut;
  }

  lemma BatchNalsAppend(bs: seq<Batch>, b: Batch)
    ensures BatchNals(bs + [b]) == BatchNals(bs) + b.nals
  {
    assert (bs + [b])[..|bs|] == bs;
  }

  lemma {:induction false} HoldingKeepsNals(bs: seq<Batch>)
    ensures BatchNals(Holding(bs)) == BatchNals(bs)
  {
    if bs != [] {
      var b := bs[|bs| - 1];
      HoldingKeepsNals(bs[..|bs| - 1]);
      BatchNalsAppend(Holding(bs[..|bs| - 1]), b);
      assert Holding(bs[..|bs| - 1]) + [] == Holding(bs[..|bs| - 1]);
    }
  }

  lemma {:induction false} RunsKeepNals(fs: seq<Frame>)
    ensures BatchNals(Runs(fs)) == InputNals(fs)
  {
    if fs != [] {
      var n := |fs| - 1;
      var before, f := Runs(fs[..n]), fs[n];
      RunsKeepNals(fs[..n]);
      if n > 0 && fs[n - 1].ts == f.ts {
        var k := |before| - 1;
        assert before == before[..k] + [before[k]];
        BatchNalsAppend(before[..k], before[k]);
        BatchNalsAppend(before[..k], Batch(f.ts, before[k].nals + Split(f.nal)));
        Associative(BatchNals(before[..k]), before[k].nals, Split(f.nal));
      } else {
        BatchNalsAppend(before, Batch(f.ts, Split(f.nal)));
      }
    }
  }

  /** Main result: the units written up to `Close`, injected sets removed, hold
      exactly the NAL units of all frames, in order, none twice and none lost. */
  lemma NothingLost(sps: bytes, pps: bytes, fs: seq<Frame>)
    ensures var out := Flush(Run(Init(sps, pps), fs)).written;
            AllWellFormed(out) && BatchNals(Bodies(out)) == InputNals(fs)
  {
    BatchingRefinesRuns(sps, pps, fs);
    HoldingKeepsNals(Runs(fs));
    RunsKeepNals(fs);
  }

  // ---- presentation times ----

  /** Of two true times in ticks the code sees the remainders modulo 2^32.  Its signed distance is the true one
      exactly up to 2^31 ticks, six hours and a half; beyond that it is off by a multiple of 2^32. */
  lemma RelIsTrue(t: int, t0: int)
    ensures RelPTS(U32(t), U32(t0)) == t - t0 <==> -(TWO32 / 2) <= t - t0 < TWO32 / 2
    ensures U32(RelPTS(U32(t), U32(t0))) == U32(t - t0)
  {
    WrapBoth(t, t0);
    hide U32;
    SignedDistance(t - t0);
  }

  lemma WrapBoth(t: int, t0: int)
    ensures U32(U32(t) - U32(t0)) == U32(t - t0)
  {
  }

  lemma SignedDistance(x: int)
    ensures var d := U32(x);
            var r := if d < TWO32 / 2 then d else d - TWO32;
            (r == x <==> -(TWO32 / 2) <= x < TWO32 / 2) && U32(r) == U32(x)
  {
    var q := x / TWO32;
    assert x == q * TWO32 + U32(x);
  }

  /** Every unit is presented at its distance from the first frame. */
  ghost predicate Presented(us: seq<Unit>, first: uint32) {
    forall k :: 0 <= k < |us| ==> us[k].rel == RelPTS(us[k].ts, first)
  }

  lemma FlushPresented(m: Mux)
    requires m.first.Some? && Presented(m.written, m.first.value)
    ensures Presented(Flush(m).written, m.first.value) && Flush(m).first == m.first
  {
    hide RelPTS, Injection, Cached;
  }

  lemma StepPresented(m: Mux, f: Frame)
    requires if m.first.Some? then Presented(m.written, m.first.value) else m.written == [] && m.au == []
    ensures var n := OnFrame(m, f);
            n.first == Some(if m.first.Some? then m.first.value else f.ts) && Presented(n.written, n.first.value)
  {
    hide RelPTS, Flush, Split;
    if m.first.Some? { FlushPresented(m); }
  }

  lemma {:induction false} RunPresented(sps: bytes, pps: bytes, fs: seq<Frame>)
    ensures var m := Run(Init(sps, pps), fs);
            if fs == [] then m == Init(sps, pps) else m.first == Some(fs[0].ts) && Presented(m.written, fs[0].ts)
  {
    hide OnFrame, Presented;
    if fs != [] {
      var front := fs[..|fs| - 1];
      RunPresented(sps, pps, front);
      if front == [] { NothingPresented(fs[0].ts); }
      StepPresented(Run(Init(sps, pps), front), fs[|fs| - 1]);
    }
  }

  lemma NothingPresented(first: uint32)
    ensures Presented([], first)
  {
  }

  /** Main result: for frames taken at true times `ts`, a unit written under a frame's timestamp is presented at
      the true distance of that frame from the first if and only if that is less than 2^31 ticks, or 2^31
      before it. */
  lemma PresentedTruly(sps: bytes, pps: bytes, fs: seq<Frame>, ts: seq<int>)
    requires |ts| == |fs| && forall i :: 0 <= i < |fs| ==> fs[i].ts == U32(ts[i])
    ensures var out := Flush(Run(Init(sps, pps), fs)).written;
            forall k, i :: 0 <= k < |out| && 0 <= i < |fs| && out[k].ts == fs[i].ts ==>
              (out[k].rel == ts[i] - ts[0] <==> -(TWO32 / 2) <= ts[i] - ts[0] < TWO32 / 2)
  {
    hide Run, Flush, RelPTS;
    RunPresented(sps, pps, fs);
    var out := Flush(Run(Init(sps, pps), fs)).written;
    if fs != [] {
      FlushPresented(Run(Init(sps, pps), fs));
      forall k, i | 0 <= k < |out| && 0 <= i < |fs| && out[k].ts == fs[i].ts
        ensures out[k].rel == ts[i] - ts[0] <==> -(TWO32 / 2) <= ts[i] - ts[0] < TWO32 / 2
      {
        RelIsTrue(ts[i], ts[0]);
      }
    }
  }

  // ---- parameter sets ----

  ghost predicate CacheTyped(cache: bytes, t: int) {
    cache != [] ==> UnitType(cache) == t
  }

  /** The condition on one written unit, with the caches as the flush left them: an IDR
      unit carries both parameter sets if and only if both caches are filled. */
  ghost predicate SelfDecodable(u: Unit) {
    HasType(u.nals, 7) && HasType(u.nals, 8)
  }

  lemma InjectionTypes(sps: bytes, pps: bytes, au: seq<bytes>)
    requires CacheTyped(sps, 7) && CacheTyped(pps, 8)
    requires HasType(au, 5) && sps != [] && pps != []
    ensures var nals := Injection(sps, pps, au) + au; HasType(nals, 7) && HasType(nals, 8)
  {
    var a := if HasType(au, 7) then [] else [sps];
    var b := if HasType(au, 8) then [] else [pps];
    if !HasType(au, 7) { assert a[0] == sps && HasType(a, 7); }
    if !HasType(au, 8) { assert b[0] == pps && HasType(b, 8); }
    HasTypeConcat(a, b, 7);
    HasTypeConcat(a, b, 8);
    HasTypeConcat(a + b, au, 7);
    HasTypeConcat(a + b, au, 8);
  }

  /** One flush of an IDR unit. */
  lemma FlushSelfDecodable(m: Mux)
    requires CacheTyped(m.sps, 7) && CacheTyped(m.pps, 8)
    requires HasType(m.au, 5)
    ensures var r := Flush(m);
            && |r.written| == |m.written| + 1
            && CacheTyped(r.sps, 7) && CacheTyped(r.pps, 8)
            && (SelfDecodable(r.written[|m.written|]) <==> r.sps != [] && r.pps != [])
  {
    var r := Flush(m);
    assert m.au != [];
    if r.sps != [] && r.pps != [] {
      InjectionTypes(r.sps, r.pps, m.au);
    } else {
      assert r.written[|m.written|].nals == [] + m.au == m.au;
    }
  }

  /** A filled cache never changes again, so a later parameter set of the stream is
      never the one injected. */
  lemma CacheIsWriteOnce(m: Mux, f: Frame)
    ensures m.sps != [] ==> OnFrame(m, f).sps == m.sps
    ensures m.pps != [] ==> OnFrame(m, f).pps == m.pps
    ensures OnFrame(m, f).written == m.written
         || (m.au != [] && |OnFrame(m, f).written| == |m.written| + 1 && OnFrame(m, f).written[..|m.written|] == m.written)
  {
  }

  // ---- what the caches hold ----

  lemma {:induction false} FirstOfTypeConcat(a: seq<bytes>, b: seq<bytes>, t: int)
    ensures FirstOfType(a + b, t) == if HasType(a, t) then FirstOfType(a, t) else FirstOfType(b, t)
  {
    hide HasType;
    if a == [] {
      assert a + b == b;
      NoneOfType(t);
    } else if a[0] != [] && UnitType(a[0]) == t {
      HasTypeFirst(a, t);
    } else {
      FirstOfTypeConcat(a[1..], b, t);
      HasTypeTail(a, t);
      assert (a + b)[1..] == a[1..] + b;
    }
  }

  lemma NoneOfType(t: int)
    ensures !HasType([], t)
  {
  }

  lemma HasTypeFirst(us: seq<bytes>, t: int)
    requires us != [] && us[0] != [] && UnitType(us[0]) == t
    ensures HasType(us, t)
  {
  }

  /** Scanning two runs of units one after the other is scanning them together. */
  lemma CachedConcat(cache: bytes, a: seq<bytes>, b: seq<bytes>, t: int)
    ensures Cached(cache, a + b, t) == Cached(Cached(cache, a, t), b, t)
  {
    hide HasType, FirstOfType;
    FirstOfTypeConcat(a, b, t);
  }

  lemma FrameCaches(m: Mux, f: Frame, t: int)
    ensures Cached(OnFrame(m, f).sps, OnFrame(m, f).au, t) == Cached(m.sps, m.au + Split(f.nal), t) || t != 7
    ensures Cached(OnFrame(m, f).pps, OnFrame(m, f).au, t) == Cached(m.pps, m.au + Split(f.nal), t) || t != 8
  {
    hide Cached, Split, Injection, RelPTS;
    CachedConcat(m.sps, m.au, Split(f.nal), t);
    CachedConcat(m.pps, m.au, Split(f.nal), t);
    assert [] + Split(f.nal) == Split(f.nal);
  }

  /** At every moment the caches, with what is still pending, stand for the whole input. */
  lemma {:induction false} CachesTrack(sps: bytes, pps: bytes, fs: seq<Frame>)
    ensures var m := Run(Init(sps, pps), fs);
            && Cached(m.sps, m.au, 7) == Cached(sps, InputNals(fs), 7)
            && Cached(m.pps, m.au, 8) == Cached(pps, InputNals(fs), 8)
  {
    hide Cached, OnFrame;
    if fs != [] {
      var front, f := fs[..|fs| - 1], fs[|fs| - 1];
      var m := Run(Init(sps, pps), front);
      CachesTrack(sps, pps, front);
      FrameCaches(m, f, 7);
      FrameCaches(m, f, 8);
      CachedConcat(m.sps, m.au, Split(f.nal), 7);
      CachedConcat(m.pps, m.au, Split(f.nal), 8);
      CachedConcat(sps, InputNals(front), Split(f.nal), 7);
      CachedConcat(pps, InputNals(front), Split(f.nal), 8);
    }
  }

  /** Main result: after Close each cache holds the set it was given, or else the first of its type in the
      whole input. */
  lemma CachesHoldFirst(sps: bytes, pps: bytes, fs: seq<Frame>)
    ensures var m := Flush(Run(Init(sps, pps), fs));
            m.sps == Cached(sps, InputNals(fs), 7) && m.pps == Cached(pps, InputNals(fs), 8)
  {
    hide Run, InputNals, HasType;
    CachesTrack(sps, pps, fs);
    assert FirstOfType([], 7) == [] && FirstOfType([], 8) == [];
  }

  /** The set in force for a decoder: the newest of its type so far. */
  function Newest(cache: bytes, us: seq<bytes>, t: int): bytes {
    if us == [] then cache
    else
      var u := us[|us| - 1];
      if u != [] && UnitType(u) == t then u else Newest(cache, us[..|us| - 1], t)
  }

  /** The input brings no set other than the cached one. */
  ghost predicate OneSet(cache: bytes, us: seq<bytes>, t: int) {
    forall i :: 0 <= i < |us| && us[i] != [] && UnitType(us[i]) == t ==> us[i] == Cached(cache, us, t)
  }

  lemma PrefixCached(cache: bytes, us: seq<bytes>, t: int, k: nat)
    requires k <= |us|
    ensures Cached(cache, us[..k], t) != [] ==> Cached(cache, us, t) == Cached(cache, us[..k], t)
  {
    CachedConcat(cache, us[..k], us[k..], t);
    assert us == us[..k] + us[k..];
  }

  lemma {:induction false} NewestIfOne(cache: bytes, us: seq<bytes>, t: int, k: nat)
    requires k <= |us| && OneSet(cache, us, t)
    ensures Cached(cache, us[..k], t) == Newest(cache, us[..k], t)
  {
    hide HasType;
    if k == 0 {
      assert us[..0] == [];
      NoneOfType(t);
    } else {
      var u := us[k - 1];
      assert us[..k] == us[..k - 1] + [u] && us[..k][..k - 1] == us[..k - 1];
      NewestIfOne(cache, us, t, k - 1);
      PrefixCached(cache, us, t, k - 1);
      hide Cached;
      ScanStep(us[..k - 1], u, t);
    }
  }

  lemma NewestAt(cache: bytes, us: seq<bytes>, t: int, i: nat)
    requires i < |us| && us[i] != [] && UnitType(us[i]) == t
    ensures Newest(cache, us[..i + 1], t) == us[i]
  {
  }

  /** Main result: what is injected is the newest set at every point of the input if and only if the input
      brings no other set than the cached one. */
  lemma CacheIsNewest(cache: bytes, us: seq<bytes>, t: int)
    ensures (forall k :: 0 <= k <= |us| ==> Cached(cache, us[..k], t) == Newest(cache, us[..k], t))
            <==> OneSet(cache, us, t)
  {
    hide Cached, Newest;
    if OneSet(cache, us, t) {
      forall k | 0 <= k <= |us| ensures Cached(cache, us[..k], t) == Newest(cache, us[..k], t) {
        NewestIfOne(cache, us, t, k);
      }
    }
    if forall k :: 0 <= k <= |us| ==> Cached(cache, us[..k], t) == Newest(cache, us[..k], t) {
      forall i | 0 <= i < |us| && us[i] != [] && UnitType(us[i]) == t ensures us[i] == Cached(cache, us, t) {
        NewestAt(cache, us, t, i);
        PrefixCached(cache, us, t, i + 1);
        assert Cached(cache, us[..i + 1], t) == us[i];
      }
    }
  }

  /** Every IDR unit written while both caches are filled carries both sets. */
  ghost predicate IdrUnitsComplete(us: seq<Unit>, from: nat) {
    forall i :: from <= i < |us| && HasType(us[i].nals, 5) ==> SelfDecodable(us[i])
  }

  lemma InjectedIdr(sps: bytes, pps: bytes, au: seq<bytes>)
    requires CacheTyped(sps, 7) && CacheTyped(pps, 8)
    requires HasType(Injection(sps, pps, au) + au, 5)
    ensures HasType(au, 5)
  {
    HasTypeConcat(Injection(sps, pps, au), au, 5);
  }

  lemma FlushComplete(m: Mux, from: nat)
    requires CacheTyped(m.sps, 7) && CacheTyped(m.pps, 8) && m.sps != [] && m.pps != []
    requires from <= |m.written| && IdrUnitsComplete(m.written, from)
    ensures IdrUnitsComplete(Flush(m).written, from)
    ensures Flush(m).sps == m.sps && Flush(m).pps == m.pps && from <= |Flush(m).written|
  {
    if m.au != [] {
      var us := Flush(m).written;
      var last := us[|m.written|];
      assert us[..|m.written|] == m.written;
      if HasType(last.nals, 5) {
        InjectedIdr(m.sps, m.pps, m.au);
        FlushSelfDecodable(m);
      }
    }
  }

  /** Main result: from any state with both caches filled, every IDR unit written from
      then on, through any frames and the final flush, carries an SPS and a PPS. */
  lemma {:induction false} FilledCachesSuffice(m: Mux, fs: seq<Frame>)
    requires CacheTyped(m.sps, 7) && CacheTyped(m.pps, 8) && m.sps != [] && m.pps != []
    ensures IdrUnitsComplete(Run(m, fs).written, |m.written|)
    ensures IdrUnitsComplete(Flush(Run(m, fs)).written, |m.written|)
    ensures Run(m, fs).sps == m.sps && Run(m, fs).pps == m.pps && |m.written| <= |Run(m, fs).written|
  {
    if fs != [] {
      var n := |fs| - 1;
      FilledCachesSuffice(m, fs[..n]);
      var p := Run(m, fs[..n]);
      var p1 := if p.first.None? then p.(first := Some(fs[n].ts), pts := fs[n].ts) else p;
      FlushComplete(p1, |m.written|);
    }
    FlushComplete(Run(m, fs), |m.written|);
  }

  // ---- what is injected ----

  /** The low five bits of a unit's first byte are its type. */
  predicate Typed(u: bytes, t: int) { u != [] && u[0] % 32 == t }

  predicate Holds(us: seq<bytes>, t: int) { exists i :: 0 <= i < |us| && Typed(us[i], t) }

  /** `u` is the set given at the start or, where that is empty, the first of its type in `us`; empty where
      there is none. */
  ghost predicate Known(given: bytes, us: seq<bytes>, t: int, u: bytes) {
    if given != [] then u == given
    else if u == [] then !Holds(us, t)
    else exists i :: 0 <= i < |us| && us[i] == u && Typed(u, t) && forall j :: 0 <= j < i ==> !Typed(us[j], t)
  }

  lemma {:induction false} FirstIsKnown(us: seq<bytes>, t: int)
    ensures Known([], us, t, FirstOfType(us, t))
    ensures HasType(us, t) <==> Holds(us, t)
  {
    if us != [] && !Typed(us[0], t) {
      FirstIsKnown(us[1..], t);
      var u := FirstOfType(us[1..], t);
      if u == [] {
        forall i | 0 <= i < |us| ensures !Typed(us[i], t) { assert i > 0 ==> us[i] == us[1..][i - 1]; }
      } else {
        var i :| 0 <= i < |us[1..]| && us[1..][i] == u && Typed(u, t) && forall j :: 0 <= j < i ==> !Typed(us[1..][j], t);
        assert us[i + 1] == u;
        forall j | 0 <= j < i + 1 ensures !Typed(us[j], t) { assert j > 0 ==> us[j] == us[1..][j - 1]; }
      }
    } else if us != [] {
      assert us[0] == FirstOfType(us, t);
    }
  }

  lemma CachedIsKnown(given: bytes, us: seq<bytes>, t: int)
    ensures Known(given, us, t, Cached(given, us, t))
  {
    FirstIsKnown(us, t);
    hide FirstOfType, Holds;
  }

  /** What stands in front of the body of a written unit, with the sets `s` and `p` known by then: nothing unless
      the body holds an IDR slice and both are known; then each set the body lacks, the SPS first. */
  ghost predicate InFront(u: Unit, s: bytes, p: bytes) {
    u.WellFormed() &&
    var b := u.Body();
    if Holds(b, 5) && s != [] && p != [] then
      u.nals[..u.injected] == (if Holds(b, 7) then [] else [s]) + (if Holds(b, 8) then [] else [p])
    else u.injected == 0
  }

  /** The units of the input up to and including the body of written unit `k`. */
  ghost function UpTo(us: seq<Unit>, k: nat): seq<bytes>
    requires k < |us| && AllWellFormed(us)
  {
    BatchNals(Bodies(us[..k + 1]))
  }

  ghost predicate InjectedRight(us: seq<Unit>, k: nat, sps: bytes, pps: bytes)
    requires k < |us| && AllWellFormed(us)
  {
    exists s, p :: Known(sps, UpTo(us, k), 7, s) && Known(pps, UpTo(us, k), 8, p) && InFront(us[k], s, p)
  }

  ghost predicate AllRight(m: Mux, sps: bytes, pps: bytes) {
    && AllWellFormed(m.written)
    && m.sps == Cached(sps, BatchNals(Bodies(m.written)), 7) && m.pps == Cached(pps, BatchNals(Bodies(m.written)), 8)
    && (forall k :: 0 <= k < |m.written| ==> InjectedRight(m.written, k, sps, pps))
  }

  lemma UpToStays(us: seq<Unit>, u: Unit, k: nat, sps: bytes, pps: bytes)
    requires k < |us| && AllWellFormed(us + [u]) && AllWellFormed(us) && InjectedRight(us, k, sps, pps)
    ensures InjectedRight(us + [u], k, sps, pps)
  {
    hide Known, InFront, Bodies, BatchNals;
    assert (us + [u])[..k + 1] == us[..k + 1] && (us + [u])[k] == us[k];
  }

  lemma PutInFront(u: Unit, inj: seq<bytes>, au: seq<bytes>, s: bytes, p: bytes)
    requires u.nals == inj + au && u.injected == |inj|
    requires inj == if Holds(au, 5) && s != [] && p != [] then
                      (if Holds(au, 7) then [] else [s]) + (if Holds(au, 8) then [] else [p])
                    else []
    ensures InFront(u, s, p) && u.Body() == au
  {
    hide Holds;
    assert u.nals[..|inj|] == inj && u.nals[|inj|..] == au;
  }

  lemma InjectionIs(s: bytes, p: bytes, au: seq<bytes>)
    ensures Injection(s, p, au) ==
              if Holds(au, 5) && s != [] && p != [] then
                (if Holds(au, 7) then [] else [s]) + (if Holds(au, 8) then [] else [p])
              else []
  {
    FirstIsKnown(au, 5);
    FirstIsKnown(au, 7);
    FirstIsKnown(au, 8);
    hide HasType, Holds, Known;
  }

  lemma FlushInFront(m: Mux)
    requires m.au != []
    ensures var n := Flush(m);
            && |n.written| == |m.written| + 1 && n.written[..|m.written|] == m.written
            && n.sps == Cached(m.sps, m.au, 7) && n.pps == Cached(m.pps, m.au, 8)
            && InFront(n.written[|m.written|], n.sps, n.pps) && n.written[|m.written|].Body() == m.au
  {
    hide Cached, HasType, Holds, RelPTS, Injection, InFront;
    var s, p := Cached(m.sps, m.au, 7), Cached(m.pps, m.au, 8);
    InjectionIs(s, p, m.au);
    PutInFront(Flush(m).written[|m.written|], Injection(s, p, m.au), m.au, s, p);
  }

  lemma FlushRight(m: Mux, sps: bytes, pps: bytes)
    requires AllRight(m, sps, pps)
    ensures AllRight(Flush(m), sps, pps)
  {
    if m.au != [] {
      FlushInFront(m);
      hide Cached, InFront, Known, Flush, Bodies, BatchNals;
      var n := Flush(m);
      var u, before := n.written[|m.written|], BatchNals(Bodies(m.written));
      assert n.written == m.written + [u];
      InFrontFormed(u, n.sps, n.pps);
      BodiesAppend(m.written, u);
      BatchNalsAppend(Bodies(m.written), Batch(u.ts, u.Body()));
      CachedConcat(sps, before, m.au, 7);
      CachedConcat(pps, before, m.au, 8);
      CachedIsKnown(sps, before + m.au, 7);
      CachedIsKnown(pps, before + m.au, 8);
      assert n.written[..|n.written|] == n.written;
      assert UpTo(n.written, |m.written|) == before + m.au;
      forall k | 0 <= k < |m.written| ensures InjectedRight(n.written, k, sps, pps) { UpToStays(m.written, u, k, sps, pps); }
    }
  }

  lemma InFrontFormed(u: Unit, s: bytes, p: bytes)
    requires InFront(u, s, p)
    ensures u.WellFormed()
  {
  }

  lemma StepRight(m: Mux, f: Frame, sps: bytes, pps: bytes)
    requires AllRight(m, sps, pps)
    ensures AllRight(OnFrame(m, f), sps, pps)
  {
    hide Flush, Split, Cached, InjectedRight;
    FlushRight(m, sps, pps);
    var m1 := if m.first.None? then m.(first := Some(f.ts), pts := f.ts) else m;
    FlushRight(m1, sps, pps);
  }

  lemma {:induction false} RunRight(sps: bytes, pps: bytes, fs: seq<Frame>)
    ensures AllRight(Run(Init(sps, pps), fs), sps, pps)
  {
    hide AllRight, OnFrame;
    if fs == [] {
      StartRight(sps, pps);
    } else {
      RunRight(sps, pps, fs[..|fs| - 1]);
      StepRight(Run(Init(sps, pps), fs[..|fs| - 1]), fs[|fs| - 1], sps, pps);
    }
  }

  lemma StartRight(sps: bytes, pps: bytes)
    ensures AllRight(Init(sps, pps), sps, pps)
  {
    assert FirstOfType([], 7) == [] && FirstOfType([], 8) == [];
  }

  /** Main result: on every run, `Close` included, what stands in front of each unit written is, in this order, the
      SPS if its body lacks one and the PPS if its body lacks one, where the body holds an IDR slice and both sets
      are known by then, and nothing otherwise.  The sets are those given at the start or, where none was given,
      the first of their type in the input up to that unit. */
  lemma InjectedInFull(sps: bytes, pps: bytes, fs: seq<Frame>)
    ensures var out := Flush(Run(Init(sps, pps), fs)).written;
            && AllWellFormed(out) && BatchNals(Bodies(out)) == InputNals(fs)
            && forall k :: 0 <= k < |out| ==> InjectedRight(out, k, sps, pps)
  {
    hide Run, InjectedRight, Flush;
    NothingLost(sps, pps, fs);
    RunRight(sps, pps, fs);
    FlushRight(Run(Init(sps, pps), fs), sps, pps);
  }

  /** So a unit has something injected exactly when its body holds an IDR slice and lacks a set, and both sets
      are known. */
  lemma InjectedWhen(u: Unit, s: bytes, p: bytes)
    requires InFront(u, s, p)
    ensures u.injected > 0 <==> Holds(u.Body(), 5) && !(Holds(u.Body(), 7) && Holds(u.Body(), 8)) && s != [] && p != []
    ensures u.injected <= 2
  {
    hide Holds;
    assert |u.nals[..u.injected]| == u.injected;
  }

  // ---- the muxer object ----

  class Muxer {
    var spsCache: bytes
    var ppsCache: bytes
    var currentAU: seq<bytes>
    var currentPTS: uint32
    var firstPTS: uint32
    var firstPTSSet: bool
    var frameCount: nat
    /** The calls the wrapped library muxer has received. */
    var written: seq<Unit>

    ghost predicate Valid()
      reads this
    {
      && frameCount == |written|
      && (currentAU != [] ==> firstPTSSet)
      && (!firstPTSSet ==> firstPTS == 0)
    }

    ghost function State(): Mux
      reads this
    {
      Mux(spsCache, ppsCache, currentAU, currentPTS, if firstPTSSet then Some(firstPTS) else None, written)
    }

    constructor (sps: bytes, pps: bytes)
      ensures Valid() && State() == Init(sps, pps)
    {
      spsCache, ppsCache := sps, pps;
      currentAU, currentPTS := [], 0;
      firstPTS, firstPTSSet := 0, false;
      frameCount, written := 0, [];
    }

    method OnVideoFrame(f: Frame)
      requires Valid()
      modifies this
      ensures Valid() && State() == OnFrame(old(State()), f)
    {
      if !firstPTSSet {
        firstPTS := f.ts;
        currentPTS := f.ts;
        firstPTSSet := true;
      }
      if f.ts != currentPTS && |currentAU| > 0 {
        FlushCurrentAU();
      }
      var units := SplitAnnexBNALs(f.nal);
      AppendUnits(units);
      currentPTS := f.ts;
    }

    /** The copying loop of OnVideoFrame. */
    method AppendUnits(units: seq<bytes>)
      modifies `currentAU
      ensures currentAU == old(currentAU) + units
    {
      for i := 0 to |units|
        invariant currentAU == old(currentAU) + units[..i]
      {
        assert units[..i + 1] == units[..i] + [units[i]];
        Associative(old(currentAU), units[..i], [units[i]]);
        currentAU := currentAU + [units[i]];
      }
      assert units[..|units|] == units;
    }

    /** The scanning loop of the flush: which types the unit holds, caching the first
        parameter sets seen. */
    method ScanCurrentAU() returns (hasIDR: bool, hasSPS: bool, hasPPS: bool)
      modifies `spsCache, `ppsCache
      ensures hasIDR <==> HasType(currentAU, 5)
      ensures hasSPS <==> HasType(currentAU, 7)
      ensures hasPPS <==> HasType(currentAU, 8)
      ensures spsCache == Cached(old(spsCache), currentAU, 7)
      ensures ppsCache == Cached(old(ppsCache), currentAU, 8)
    {
      hasIDR, hasSPS, hasPPS := false, false, false;
      ghost var au := currentAU;
      for i := 0 to |currentAU|
        invariant hasIDR <==> HasType(au[..i], 5)
        invariant hasSPS <==> HasType(au[..i], 7)
        invariant hasPPS <==> HasType(au[..i], 8)
        invariant spsCache == Cached(old(spsCache), au[..i], 7)
        invariant ppsCache == Cached(old(ppsCache), au[..i], 8)
      {
        var nal := currentAU[i];
        assert au[..i + 1] == au[..i] + [nal];
        ScanStep(au[..i], nal, 5);
        ScanStep(au[..i], nal, 7);
        ScanStep(au[..i], nal, 8);
        if |nal| == 0 { continue; }
        if nal[0] % 32 == 5 {
          hasIDR := true;
        } else if nal[0] % 32 == 7 {
          hasSPS := true;
          if |spsCache| == 0 { spsCache := nal; }
        } else if nal[0] % 32 == 8 {
          hasPPS := true;
          if |ppsCache| == 0 { ppsCache := nal; }
        }
      }
      assert au[..|au|] == au;
    }

    method FlushCurrentAU()
      requires Valid()
      modifies this
      ensures Valid() && State() == Flush(old(State()))
    {
      hide HasType, FirstOfType;
      if |currentAU| == 0 { return; }
      var hasIDR, hasSPS, hasPPS := ScanCurrentAU();
      var au := currentAU;
      var prepended: seq<bytes> := [];
      if hasIDR && (!hasSPS || !hasPPS) && |spsCache| > 0 && |ppsCache| > 0 {
        if !hasSPS { prepended := prepended + [spsCache]; }
        if !hasPPS { prepended := prepended + [ppsCache]; }
        au := prepended + au;
      }
      assert prepended == Injection(spsCache, ppsCache, currentAU);
      assert au == prepended + currentAU;
      var distance := U32(currentPTS - firstPTS);
      var relPTS := if distance < TWO32 / 2 then distance else distance - TWO32;
      written := written + [Unit(currentPTS, relPTS, au, |prepended|)];
      frameCount := frameCount + 1;
      currentAU := [];
    }

    /** `Close`; shutting the library muxer down is not modelled. */
    method Close()
      requires Valid()
      modifies this
      ensures Valid() && State() == Flush(old(State()))
    {
      FlushCurrentAU();
    }
  }
}
