/** The live sink of whip/livepin.go: it keeps every delivered segment with its leaf digest,
    and the parts of each segment, and refuses anything out of order.  Indices are uint32 and
    are compared modulo 2^32.
 */
module LivePin {
  import opened Bytes
  import opened Results
  import opened Text
  import opened Merkle
  import opened Manifest
  import opened PinState
  import opened PinStore
  import Cid

  datatype PartRecord = PartRecord(index: uint32, data: bytes, ticks: uint32, independent: bool)

  /** The sink's contents; an empty `initSeg` is Go's nil. */
  datatype Sink = Sink(leaves: seq<Digest>, segments: seq<bytes>, initSeg: bytes, parts: map<uint32, seq<PartRecord>>)

  datatype SinkError = PartOutOfOrder | SegmentOutOfOrder | InitAlreadySet | NothingToFinalize | PinFailed(e: PinError)

  const EMPTY_SINK := Sink([], [], [], map[])

  function PartsOf(k: Sink, seg: uint32): seq<PartRecord> {
    if seg in k.parts then k.parts[seg] else []
  }

  predicate TakesPart(k: Sink, seg: uint32, idx: uint32) { U32(|PartsOf(k, seg)|) == idx }

  function AddPart(k: Sink, seg: uint32, p: PartRecord): Sink {
    if TakesPart(k, seg, p.index) then k.(parts := k.parts[seg := PartsOf(k, seg) + [p]]) else k
  }

  predicate TakesSegment(k: Sink, index: uint32) { U32(|k.leaves|) == index }

  function AddSegment(sha: Sha, k: Sink, index: uint32, data: bytes): Sink {
    if TakesSegment(k, index) then k.(leaves := k.leaves + [sha(data)], segments := k.segments + [data]) else k
  }

  /** What a session has to show at one moment. */
  datatype Snapshot = Snapshot(count: nat, rootHex: bytes, cid: bytes, initSeg: bytes)

  function SnapshotOf(sha: Sha, k: Sink): Snapshot {
    if k.leaves == [] then Snapshot(0, [], [], [])
    else
      var root := Merkle.Root(sha, k.leaves);
      Snapshot(|k.leaves|, HexEncode(root), Cid.Encode(root), k.initSeg)
  }

  /** Each leaf is the hash of the segment stored beside it. */
  ghost predicate LeavesMatch(sha: Sha, k: Sink) {
    k.leaves == LeafHashes(sha, k.segments)
  }

  lemma AddSegmentMatches(sha: Sha, k: Sink, index: uint32, data: bytes)
    requires LeavesMatch(sha, k)
    ensures LeavesMatch(sha, AddSegment(sha, k, index, data))
  {
    assert LeafHashes(sha, k.segments + [data]) == LeafHashes(sha, k.segments) + [sha(data)];
  }

  /** The manifest made from the stored segments carries the identifier, the root and the count
      of the snapshot. */
  lemma BuiltMatchesSnapshot(sha: Sha, k: Sink, duration: int)
    requires LeavesMatch(sha, k) && k.segments != []
    ensures var m, s := Built(sha, k.segments, duration), SnapshotOf(sha, k);
            m.cid == s.cid && m.root == s.rootHex && m.segmentCount == s.count
  {
  }

  class LivePinSink {
    const sha: Sha
    const store: ContentStore
    var leaves: seq<Digest>
    var segments: seq<bytes>
    var initSeg: bytes
    var parts: map<uint32, seq<PartRecord>>
    var finalized: Option<Manifest>

    ghost function State(): Sink
      reads this
    {
      Sink(leaves, segments, initSeg, parts)
    }

    ghost predicate Valid()
      reads this
    {
      LeavesMatch(sha, State())
    }

    constructor (sha: Sha, store: ContentStore)
      ensures Valid() && State() == EMPTY_SINK && finalized == None
      ensures this.sha == sha && this.store == store
    {
      this.sha, this.store := sha, store;
      leaves, segments, initSeg, parts, finalized := [], [], [], map[], None;
    }

    method OnMediaPart(segIdx: uint32, partIdx: uint32, b: bytes, durationT: uint32, independent: bool)
      returns (r: Outcome<SinkError>)
      requires Valid()
      modifies `parts
      ensures Valid()
      ensures r == if TakesPart(old(State()), segIdx, partIdx) then Pass else Fail(PartOutOfOrder)
      ensures var held := if segIdx in old(parts) then old(parts)[segIdx] else [];
              if |held| % 0x1_0000_0000 == partIdx then
                r.Pass? && parts == old(parts)[segIdx := held + [PartRecord(partIdx, b, durationT, independent)]]
              else r.Fail? && parts == old(parts)
      ensures State() == AddPart(old(State()), segIdx, PartRecord(partIdx, b, durationT, independent))
    {
      var existing := if segIdx in parts then parts[segIdx] else [];
      if U32(|existing|) != partIdx { return Fail(PartOutOfOrder); }
      parts := parts[segIdx := existing + [PartRecord(partIdx, b, durationT, independent)]];
      return Pass;
    }

    method OnInitSegment(b: bytes) returns (r: Outcome<SinkError>)
      requires Valid()
      modifies `initSeg
      ensures Valid()
      ensures r == if old(initSeg) == [] then Pass else Fail(InitAlreadySet)
      ensures State() == if old(initSeg) == [] then old(State()).(initSeg := b) else old(State())
    {
      if initSeg != [] { return Fail(InitAlreadySet); }
      initSeg := b;
      return Pass;
    }

    method OnMediaSegment(index: uint32, b: bytes, durationTicks: uint32) returns (r: Outcome<SinkError>)
      requires Valid()
      modifies `leaves, `segments
      ensures Valid()
      ensures r == if TakesSegment(old(State()), index) then Pass else Fail(SegmentOutOfOrder)
      ensures if |old(leaves)| % 0x1_0000_0000 == index then
                r.Pass? && leaves == old(leaves) + [sha(b)] && segments == old(segments) + [b]
              else r.Fail? && leaves == old(leaves) && segments == old(segments)
      ensures State() == AddSegment(sha, old(State()), index, b)
    {
      AddSegmentMatches(sha, State(), index, b);
      if U32(|leaves|) != index { return Fail(SegmentOutOfOrder); }
      leaves := leaves + [sha(b)];
      segments := segments + [b];
      return Pass;
    }

    method TakeSnapshot() returns (r: Snapshot)
      requires Valid()
      ensures r == SnapshotOf(sha, State())
      ensures leaves == [] ==> r == Snapshot(0, [], [], [])
      ensures leaves != [] ==>
                var root := Merkle.Root(sha, leaves);
                r == Snapshot(|leaves|, HexEncode(root), Cid.Encode(root), initSeg)
    {
      if |leaves| == 0 { return Snapshot(0, [], [], []); }
      var tree := NewTree(sha, leaves);
      assert AsDigests(leaves) == leaves;
      var root := tree.value.Root();
      var cid := Cid.CIDv1Raw(root);
      return Snapshot(|leaves|, HexEncode(root), cid.value, initSeg);
    }

    method SegmentBytes(index: uint32) returns (r: Option<bytes>)
      requires Valid()
      ensures r.Some? <==> index < |leaves|
      ensures r.Some? ==> index < |segments| && r.value == segments[index] && sha(r.value) == leaves[index]
    {
      if index >= |segments| { return None; }
      assert leaves[index] == LeafHashes(sha, segments)[index];
      return Some(segments[index]);
    }

    /** The store would take the session's segments now. */
    ghost predicate Pinnable(json: Json, quota: Quota, s: PinState.State, duration: int)
      reads this
    {
      && segments != [] && duration > 0
      && var m := Built(sha, segments, duration); PinCheck(json, quota, s, m.cid, Some(m), segments).Pass?
    }

    /** Main result: a first success pins the stored segments under the manifest built from them,
        whose identifier, root and count are those of the snapshot of this moment; every later
        call returns the same manifest and changes nothing. */
    method Finalize(segmentDurationSecs: int) returns (r: Result<Manifest, SinkError>)
      requires Valid() && store.Valid() && |store.pins| + 1 < MAX_PINS
      modifies `finalized, store
      ensures Valid() && store.Valid() && State() == old(State())
      ensures old(finalized).Some? ==>
                r == Ok(old(finalized).value) && finalized == old(finalized) && store.kv == old(store.kv)
                && store.State() == old(store.State())
      ensures r.Ok? ==> finalized == Some(r.value)
      ensures r.Ok? <==> old(finalized).Some? || Pinnable(store.json, store.quota, old(store.State()), segmentDurationSecs)
      ensures old(finalized).None? ==>
                (r.Ok? <==>
                   (segments != [] && segmentDurationSecs > 0 &&
                    (store.quota.maxPins <= 0 || |old(store.pins)| < store.quota.maxPins) &&
                    (store.quota.maxBytes == 0 ||
                     (old(store.used) + |store.json.enc(Built(sha, segments, segmentDurationSecs))| + Added(Lengths(segments)))
                       % 0x1_0000_0000_0000_0000 <= store.quota.maxBytes)))
      ensures r.Ok? && old(finalized).None? ==>
                && segments != [] && segmentDurationSecs > 0
                && r.value == Built(sha, segments, segmentDurationSecs)
                && r.value.cid == SnapshotOf(sha, State()).cid && r.value.root == SnapshotOf(sha, State()).rootHex
                && r.value.segmentCount == SnapshotOf(sha, State()).count
                && r.value.cid in store.pins && store.pins[r.value.cid] == PinState.Pin(r.value, segments)
      ensures r.Err? ==> finalized == None && store.kv == old(store.kv)
    {
      hide ContentStore.Valid, LeavesMatch, Built, PinCheck, AfterPin, SnapshotOf, Added, Lengths;
      if finalized.Some? { return Ok(finalized.value); }
      if |segments| == 0 { return Err(NothingToFinalize); }
      var m := store.PinPayloads(sha, segments, segmentDurationSecs);
      if m.Err? { return Err(PinFailed(m.error)); }
      BuiltMatchesSnapshot(sha, State(), segmentDurationSecs);
      finalized := Some(m.value);
      return Ok(m.value);
    }
  }
}
