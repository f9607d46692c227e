/** The pin store over raw keys (pinning/store.go, pinning/quota.go, on the key-value store of
    storage/badger.go, taken as a map with atomic batches).

    `Represents` says which map of pins a raw store stands for.  Segment keys of a longer,
    replaced pin may stay behind: they are uncounted and in no pin, but still served, and
    `OrphanFree` says when there are none.
 */
module PinStore {
  import opened Bytes
  import opened Results
  import opened Keys
  import opened Manifest
  import opened Merkle
  import opened PinState

  type KV = map<bytes, bytes>

  function Look(kv: KV, k: bytes): Option<bytes> { if k in kv then Some(kv[k]) else None }

  /** A counter key holds the eight-byte value, or is missing and stands for zero. */
  ghost predicate HasCounter(kv: KV, key: bytes, v: uint64) {
    Look(kv, key) == Some(BE64(v)) || (Look(kv, key) == None && v == 0)
  }

  ghost predicate Represents(j: Json, kv: KV, pins: Pins) {
    && (forall c :: Look(kv, ManifestKey(c)) == if c in pins then Some(j.enc(pins[c].m)) else None)
    && (forall c :: c in pins ==> pins[c].m.cid == c && pins[c].m.segmentCount == |pins[c].segs|)
    && (forall c, i: nat :: c in pins && i < |pins[c].segs| ==> Look(kv, SegmentKey(c, i)) == Some(pins[c].segs[i]))
  }

  ghost predicate OrphanFree(kv: KV, pins: Pins) {
    forall c, i: nat :: SegmentKey(c, i) in kv ==> c in pins && i < |pins[c].segs|
  }

  /** Keys of none of the kinds the pin store writes. */
  ghost predicate Foreign(k: bytes) { k == [] || (k[0] != 109 && k[0] != 115 && k[0] != 95) }

  ghost predicate ForeignSame(a: KV, b: KV) {
    forall k :: Foreign(k) ==> Look(b, k) == Look(a, k)
  }

  lemma WriteOwn(a: KV, b: KV, key: bytes, v: bytes)
    requires ForeignSame(a, b) && !Foreign(key)
    ensures ForeignSame(a, b[key := v]) && ForeignSame(a, b - {key})
  {
    hide Foreign;
  }

  lemma Unwritten(a: KV)
    ensures ForeignSame(a, a)
  {
  }

  lemma TailUnwritten(a: KV, cid: bytes, n: nat)
    ensures TailSame(a, a, cid, n)
  {
  }

  lemma OwnKeys()
    ensures forall c :: !Foreign(ManifestKey(c))
    ensures forall c, i: nat :: !Foreign(SegmentKey(c, i))
    ensures !Foreign(COUNT_KEY) && !Foreign(BYTES_KEY)
  {
    CounterKeys();
  }

  // ---- what a batch changes ----

  /** `b` differs from `a` at most in the first `n` segment keys of `cid`. */
  ghost predicate SameButSegments(a: KV, b: KV, cid: bytes, n: nat) {
    && (forall c :: Look(b, ManifestKey(c)) == Look(a, ManifestKey(c)))
    && Look(b, COUNT_KEY) == Look(a, COUNT_KEY) && Look(b, BYTES_KEY) == Look(a, BYTES_KEY)
    && (forall c, i: nat :: c != cid || i >= n ==> Look(b, SegmentKey(c, i)) == Look(a, SegmentKey(c, i)))
  }

  lemma PutSegment(a: KV, b: KV, cid: bytes, n: nat, v: bytes)
    requires SameButSegments(a, b, cid, n)
    ensures SameButSegments(a, b[SegmentKey(cid, n) := v], cid, n + 1)
    ensures forall i: nat :: i < n ==> Look(b[SegmentKey(cid, n) := v], SegmentKey(cid, i)) == Look(b, SegmentKey(cid, i))
  {
    var b', key := b[SegmentKey(cid, n) := v], SegmentKey(cid, n);
    CounterKeys();
    forall c ensures Look(b', ManifestKey(c)) == Look(a, ManifestKey(c)) {
      assert ManifestKey(c)[0] != key[0];
    }
    forall c, i: nat | c != cid || i != n ensures Look(b', SegmentKey(c, i)) == Look(b, SegmentKey(c, i)) {
      if SegmentKey(c, i) == key { SegmentKeyInjective(c, i, cid, n); }
    }
  }

  lemma DeleteSegment(a: KV, b: KV, cid: bytes, n: nat)
    requires SameButSegments(a, b, cid, n)
    ensures SameButSegments(a, b - {SegmentKey(cid, n)}, cid, n + 1)
    ensures forall i: nat :: i < n && SegmentKey(cid, i) !in b ==> SegmentKey(cid, i) !in b - {SegmentKey(cid, n)}
  {
    var b', key := b - {SegmentKey(cid, n)}, SegmentKey(cid, n);
    CounterKeys();
    forall c ensures Look(b', ManifestKey(c)) == Look(a, ManifestKey(c)) {
      assert ManifestKey(c)[0] != key[0];
    }
    forall c, i: nat | c != cid || i != n ensures Look(b', SegmentKey(c, i)) == Look(b, SegmentKey(c, i)) {
      if SegmentKey(c, i) == key { SegmentKeyInjective(c, i, cid, n); }
    }
  }

  /** `b` differs from `a` in the manifest key of `cid`, now `v`, and nothing else of interest. */
  ghost predicate SameButManifest(a: KV, b: KV, cid: bytes, v: Option<bytes>) {
    && Look(b, ManifestKey(cid)) == v
    && (forall c :: c != cid ==> Look(b, ManifestKey(c)) == Look(a, ManifestKey(c)))
    && Look(b, COUNT_KEY) == Look(a, COUNT_KEY) && Look(b, BYTES_KEY) == Look(a, BYTES_KEY)
    && (forall c, i: nat :: Look(b, SegmentKey(c, i)) == Look(a, SegmentKey(c, i)))
  }

  lemma PutManifest(a: KV, cid: bytes, v: bytes)
    ensures SameButManifest(a, a[ManifestKey(cid) := v], cid, Some(v))
    ensures SameButManifest(a, a - {ManifestKey(cid)}, cid, None)
  {
    var b, d, key := a[ManifestKey(cid) := v], a - {ManifestKey(cid)}, ManifestKey(cid);
    CounterKeys();
    forall c | c != cid
      ensures Look(b, ManifestKey(c)) == Look(a, ManifestKey(c)) && Look(d, ManifestKey(c)) == Look(a, ManifestKey(c))
    {
      if ManifestKey(c) == key { ManifestKeyInjective(c, cid); }
    }
    forall c, i: nat
      ensures Look(b, SegmentKey(c, i)) == Look(a, SegmentKey(c, i)) && Look(d, SegmentKey(c, i)) == Look(a, SegmentKey(c, i))
    {
      assert SegmentKey(c, i)[0] != key[0];
    }
  }

  /** `b` differs from `a` at most in the two counter keys. */
  ghost predicate SameButCounters(a: KV, b: KV) {
    && (forall c :: Look(b, ManifestKey(c)) == Look(a, ManifestKey(c)))
    && (forall c, i: nat :: Look(b, SegmentKey(c, i)) == Look(a, SegmentKey(c, i)))
  }

  lemma PutCounters(a: KV, count: uint64, used: uint64)
    ensures var b := a[COUNT_KEY := BE64(count)][BYTES_KEY := BE64(used)];
            SameButCounters(a, b) && HasCounter(b, COUNT_KEY, count) && HasCounter(b, BYTES_KEY, used)
  {
    CounterKeys();
    var b := a[COUNT_KEY := BE64(count)][BYTES_KEY := BE64(used)];
    forall c ensures Look(b, ManifestKey(c)) == Look(a, ManifestKey(c)) {
      assert ManifestKey(c)[0] != 95;
    }
    forall c, i: nat ensures Look(b, SegmentKey(c, i)) == Look(a, SegmentKey(c, i)) {
      assert SegmentKey(c, i)[0] != 95;
    }
  }

  /** The whole batch of a pin, and what it makes the store stand for. */
  ghost predicate PinBatch(j: Json, a: KV, b: KV, cid: bytes, p: Pin) {
    && Look(b, ManifestKey(cid)) == Some(j.enc(p.m))
    && (forall c :: c != cid ==> Look(b, ManifestKey(c)) == Look(a, ManifestKey(c)))
    && (forall i: nat :: i < |p.segs| ==> Look(b, SegmentKey(cid, i)) == Some(p.segs[i]))
    && (forall c, i: nat :: c != cid || i >= |p.segs| ==> Look(b, SegmentKey(c, i)) == Look(a, SegmentKey(c, i)))
  }

  /** All segments but the first `n` of `cid` are as before. */
  ghost predicate TailSame(a: KV, b: KV, cid: bytes, n: nat) {
    forall c, i: nat :: c != cid || i >= n ==> Look(b, SegmentKey(c, i)) == Look(a, SegmentKey(c, i))
  }

  lemma BatchTail(j: Json, a: KV, b: KV, cid: bytes, p: Pin)
    ensures PinBatch(j, a, b, cid, p) ==> TailSame(a, b, cid, |p.segs|)
  {
  }

  /** Main result: the tail of a pin that was replaced by a shorter one is still served, with its old bytes,
      after the re-pin and even after the unpin that follows. */
  lemma TailStillServed(j: Json, a: KV, b: KV, c: KV, cid: bytes, n: nat, pins: Pins, i: nat)
    requires Represents(j, a, pins) && cid in pins && n <= i < |pins[cid].segs|
    requires TailSame(a, b, cid, n) && TailSame(b, c, cid, n)
    ensures Look(b, SegmentKey(cid, i)) == Some(pins[cid].segs[i])
    ensures Look(c, SegmentKey(cid, i)) == Some(pins[cid].segs[i])
  {
    hide SegmentKey, ManifestKey;
    assert Look(b, SegmentKey(cid, i)) == Look(a, SegmentKey(cid, i));
    assert Look(c, SegmentKey(cid, i)) == Look(b, SegmentKey(cid, i));
  }

  lemma PinBatchRepresents(j: Json, a: KV, b: KV, cid: bytes, p: Pin, pins: Pins)
    requires Represents(j, a, pins) && PinBatch(j, a, b, cid, p)
    requires p.m.cid == cid && p.m.segmentCount == |p.segs|
    ensures Represents(j, b, pins[cid := p])
  {
    var n := pins[cid := p];
    forall c ensures Look(b, ManifestKey(c)) == if c in n then Some(j.enc(n[c].m)) else None {
      if c != cid { assert Look(b, ManifestKey(c)) == Look(a, ManifestKey(c)); }
    }
    forall c, i: nat | c in n && i < |n[c].segs| ensures Look(b, SegmentKey(c, i)) == Some(n[c].segs[i]) {
      if c != cid { assert Look(b, SegmentKey(c, i)) == Look(a, SegmentKey(c, i)); }
    }
  }

  /** A re-pin leaves orphan segments behind exactly when it shortens the pin. */
  lemma PinBatchOrphans(j: Json, a: KV, b: KV, cid: bytes, p: Pin, pins: Pins)
    requires Represents(j, a, pins) && PinBatch(j, a, b, cid, p) && OrphanFree(a, pins)
    ensures OrphanFree(b, pins[cid := p]) <==> !(cid in pins && |pins[cid].segs| > |p.segs|)
  {
    var n := pins[cid := p];
    if cid in pins && |pins[cid].segs| > |p.segs| {
      var i := |p.segs|;
      assert Look(a, SegmentKey(cid, i)) == Some(pins[cid].segs[i]);
      assert Look(b, SegmentKey(cid, i)) == Look(a, SegmentKey(cid, i));
      assert SegmentKey(cid, i) in b;
    } else {
      forall c, i: nat | SegmentKey(c, i) in b ensures c in n && i < |n[c].segs| {
        assert Look(b, SegmentKey(c, i)).Some?;
        if c != cid || i >= |p.segs| { assert SegmentKey(c, i) in a; }
      }
    }
  }

  ghost predicate UnpinBatch(a: KV, b: KV, cid: bytes, n: nat) {
    && Look(b, ManifestKey(cid)) == None
    && (forall c :: c != cid ==> Look(b, ManifestKey(c)) == Look(a, ManifestKey(c)))
    && (forall i: nat :: i < n ==> Look(b, SegmentKey(cid, i)) == None)
    && (forall c, i: nat :: c != cid || i >= n ==> Look(b, SegmentKey(c, i)) == Look(a, SegmentKey(c, i)))
  }

  lemma UnpinTail(a: KV, b: KV, cid: bytes, n: nat)
    ensures UnpinBatch(a, b, cid, n) ==> TailSame(a, b, cid, n)
  {
  }

  lemma UnpinBatchRepresents(j: Json, a: KV, b: KV, cid: bytes, pins: Pins)
    requires Represents(j, a, pins) && cid in pins && UnpinBatch(a, b, cid, |pins[cid].segs|)
    ensures Represents(j, b, pins - {cid})
    ensures OrphanFree(a, pins) ==> OrphanFree(b, pins - {cid})
  {
    var n := pins - {cid};
    forall c ensures Look(b, ManifestKey(c)) == if c in n then Some(j.enc(n[c].m)) else None {
      if c != cid { assert Look(b, ManifestKey(c)) == Look(a, ManifestKey(c)); }
    }
    forall c, i: nat | c in n && i < |n[c].segs| ensures Look(b, SegmentKey(c, i)) == Some(n[c].segs[i]) {
      assert Look(b, SegmentKey(c, i)) == Look(a, SegmentKey(c, i));
    }
    if OrphanFree(a, pins) {
      forall c, i: nat | SegmentKey(c, i) in b ensures c in n && i < |n[c].segs| {
        assert Look(b, SegmentKey(c, i)).Some?;
        assert Look(b, SegmentKey(c, i)) == Look(a, SegmentKey(c, i));
        assert SegmentKey(c, i) in a;
      }
    }
  }

  // ---- the store object ----

  const MAX_PINS: int := TWO64 / 2

  class ContentStore {
    var kv: KV
    var quota: Quota
    const json: Json
    /** The map of pins the raw store stands for, and its bytes counter. */
    ghost var pins: Pins
    ghost var used: uint64

    ghost predicate Valid()
      reads this
    {
      && json.Lawful()
      && Represents(json, kv, pins)
      && |pins| < MAX_PINS
      && HasCounter(kv, COUNT_KEY, |pins|)
      && HasCounter(kv, BYTES_KEY, used)
    }

    ghost function State(): State
      reads this
    {
      PinState.State(pins, used)
    }

    constructor (json: Json, quota: Quota)
      requires json.Lawful()
      ensures Valid() && State() == PinState.State(map[], 0) && OrphanFree(kv, pins)
      ensures this.json == json && this.quota == quota
    {
      this.json, this.quota := json, quota;
      kv, pins, used := map[], map[], 0;
    }

    method WithQuota(q: Quota)
      requires Valid()
      modifies `quota
      ensures Valid() && quota == q
    {
      quota := q;
    }

    method ReadUint64(key: bytes) returns (r: Result<uint64, PinError>)
      ensures forall v: uint64 :: HasCounter(kv, key, v) ==> r == Ok(v)
    {
      if key !in kv { return Ok(0); }
      var raw := kv[key];
      if |raw| != 8 { return Err(CorruptStore); }
      Bytes.PowerValues();
      FromBEBound(raw);
      forall v: uint64 | HasCounter(kv, key, v) ensures FromBE(raw) == v { RoundTrip64(v); }
      return Ok(FromBE(raw));
    }

    method Usage() returns (r: Result<(int, uint64), PinError>)
      requires Valid()
      ensures r == Ok((|pins|, used))
    {
      var count := ReadUint64(COUNT_KEY);
      if count.Err? { return Err(CorruptStore); }
      var bytesUsed := ReadUint64(BYTES_KEY);
      if bytesUsed.Err? { return Err(CorruptStore); }
      return Ok((I64(count.value), bytesUsed.value));
    }

    method GetManifest(cid: bytes) returns (r: Result<Option<Manifest>, PinError>)
      requires Valid()
      ensures r == Ok(if cid in pins then Some(pins[cid].m) else None)
    {
      assert Look(kv, ManifestKey(cid)) == if cid in pins then Some(json.enc(pins[cid].m)) else None;
      if ManifestKey(cid) !in kv { return Ok(None); }
      var m := json.dec(kv[ManifestKey(cid)]);
      if m.None? { return Err(CorruptStore); }
      return Ok(m);
    }

    method GetSegment(cid: bytes, index: int) returns (r: Option<bytes>)
      requires Valid()
      ensures r == if index < 0 then None else Look(kv, SegmentKey(cid, index))
      ensures cid in pins && 0 <= index < |pins[cid].segs| ==> r == Some(pins[cid].segs[index])
      ensures OrphanFree(kv, pins) && !(cid in pins && 0 <= index < |pins[cid].segs|) ==> r == None
    {
      if index < 0 || SegmentKey(cid, index) !in kv { return None; }
      return Some(kv[SegmentKey(cid, index)]);
    }

    method Has(cid: bytes) returns (r: bool)
      requires Valid()
      ensures r <==> cid in pins
    {
      assert Look(kv, ManifestKey(cid)).Some? <==> cid in pins;
      return ManifestKey(cid) in kv;
    }

    /** The pinned identifiers; the order is the store's and is not promised. */
    method List() returns (r: set<bytes>)
      requires Valid()
      ensures r == pins.Keys
    {
      r := set k | k in kv && HasPrefix(k, MANIFEST_PREFIX) :: k[|MANIFEST_PREFIX|..];
      forall c | c in r ensures c in pins {
        var k :| k in kv && HasPrefix(k, MANIFEST_PREFIX) && c == k[|MANIFEST_PREFIX|..];
        ManifestKeyOf(k);
        assert Look(kv, ManifestKey(c)).Some?;
      }
      forall c | c in pins ensures c in r {
        assert Look(kv, ManifestKey(c)).Some?;
        assert ManifestKey(c) in kv && HasPrefix(ManifestKey(c), MANIFEST_PREFIX);
        assert ManifestKey(c)[|MANIFEST_PREFIX|..] == c;
      }
    }

    /** The sizing loop of Pin, in 64-bit arithmetic. */
    method PayloadSize(start: uint64, segments: seq<bytes>) returns (size: uint64)
      ensures size == U64(start + SumLens(segments))
    {
      size := start;
      for i := 0 to |segments|
        invariant size == U64(start + SumLens(segments[..i]))
      {
        assert segments[..i + 1][..i] == segments[..i];
        WrapAdd(start + SumLens(segments[..i]), |segments[i]|);
        size := U64(size + |segments[i]|);
      }
      assert segments[..|segments|] == segments;
    }

    /** The loop over stored segments shared by Pin and Unpin. */
    method StoredSize(m: Manifest) returns (size: uint64)
      requires Valid() && m.cid in pins && pins[m.cid].m == m
      ensures size == U64(Size(json, pins[m.cid]))
    {
      hide HasCounter, OrphanFree, U64, SegmentKey, ManifestKey;
      size := AddStored(U64(|json.enc(m)|), m.cid, m.segmentCount, pins[m.cid].segs);
      WrapAdd(|json.enc(m)|, SumLens(pins[m.cid].segs));
    }

    /** Its loop: a segment that is not found would count nothing. */
    method AddStored(start: uint64, cid: bytes, n: nat, ghost segs: seq<bytes>) returns (size: uint64)
      requires n == |segs|
      requires forall i: nat :: i < n ==> Look(kv, SegmentKey(cid, i)) == Some(segs[i])
      ensures size == U64(start + SumLens(segs))
    {
      size := start;
      for i := 0 to n
        invariant size == U64(start + SumLens(segs[..i]))
      {
        var seg := Look(kv, SegmentKey(cid, i));
        assert segs[..i + 1][..i] == segs[..i];
        WrapAdd(start + SumLens(segs[..i]), |segs[i]|);
        if seg.Some? { size := U64(size + |seg.value|); }
      }
      assert segs[..|segs|] == segs;
    }

    /** The writes of a pin, as one batch over `kv`. */
    method BatchOfPin(cid: bytes, m: Manifest, segments: seq<bytes>, count: uint64, newBytes: uint64) returns (b: KV)
      ensures PinBatch(json, kv, b, cid, PinState.Pin(m, segments))
      ensures HasCounter(b, COUNT_KEY, count) && HasCounter(b, BYTES_KEY, newBytes)
      ensures ForeignSame(kv, b)
    {
      hide Foreign, ForeignSame;
      OwnKeys();
      b := kv[ManifestKey(cid) := json.enc(m)];
      PutManifest(kv, cid, json.enc(m));
      Unwritten(kv);
      WriteOwn(kv, kv, ManifestKey(cid), json.enc(m));
      ghost var base := b;
      for i := 0 to |segments|
        invariant ForeignSame(kv, b)
        invariant SameButSegments(base, b, cid, i)
        invariant forall k: nat :: k < i ==> Look(b, SegmentKey(cid, k)) == Some(segments[k])
      {
        PutSegment(base, b, cid, i, segments[i]);
        WriteOwn(kv, b, SegmentKey(cid, i), segments[i]);
        b := b[SegmentKey(cid, i) := segments[i]];
      }
      PutCounters(b, count, newBytes);
      WriteOwn(kv, b, COUNT_KEY, BE64(count));
      b := b[COUNT_KEY := BE64(count)];
      WriteOwn(kv, b, BYTES_KEY, BE64(newBytes));
      b := b[BYTES_KEY := BE64(newBytes)];
    }

    /** Main result for `Pin`: the checks, the new map of pins and the new counter are those of
        `AfterPin`; a refused pin changes nothing; orphans appear only when a pin shrinks. */
    method Pin(cid: bytes, m: Option<Manifest>, segments: seq<bytes>) returns (r: Outcome<PinError>)
      requires Valid() && |pins| + 1 < MAX_PINS
      modifies this
      ensures Valid() && quota == old(quota)
      ensures r == PinCheck(json, quota, old(State()), cid, m, segments)
      ensures State() == AfterPin(json, quota, old(State()), cid, m, segments)
      ensures pins == if r.Pass? then old(pins)[cid := PinState.Pin(m.value, segments)] else old(pins)
      ensures r.Fail? ==> kv == old(kv)
      ensures ForeignSame(old(kv), kv) && TailSame(old(kv), kv, cid, |segments|)
      ensures r.Pass? && OrphanFree(old(kv), old(pins)) ==>
                (OrphanFree(kv, pins) <==> !(cid in old(pins) && |old(pins)[cid].segs| > |segments|))
    {
      hide Represents, OrphanFree, HasCounter, Size, ForeignSame, TailSame, SumLens, Look, SegmentKey, ManifestKey;
      Unwritten(kv);
      TailUnwritten(kv, cid, |segments|);
      if cid == [] { return Fail(CidRequired); }
      if m.None? { return Fail(ManifestRequired); }
      if m.value.cid != cid { return Fail(CidDisagrees); }
      if m.value.segmentCount != |segments| { return Fail(CountDisagrees); }
      var pinSize := PayloadSize(U64(|json.enc(m.value)|), segments);
      ghost var p := PinState.Pin(m.value, segments);
      WrapAdd(|json.enc(m.value)|, SumLens(segments));
      SizeOf(json, p);
      assert pinSize == U64(Size(json, p));
      var usage := Usage();
      var currentCount, currentBytes := usage.value.0, usage.value.1;
      if quota.maxPins > 0 && currentCount + 1 > quota.maxPins { return Fail(QuotaPins); }
      WrapAdd(Size(json, p), currentBytes);
      if quota.maxBytes > 0 && U64(currentBytes + pinSize) > quota.maxBytes { return Fail(QuotaBytes); }

      var existing := GetManifest(cid);
      var newCount, newBytes := currentCount, currentBytes;
      ghost var released := 0;
      if existing.value.None? {
        newCount := newCount + 1;
        newBytes := U64(newBytes + pinSize);
      } else {
        PinnedManifest(json, kv, pins, cid);
        var existingSize := StoredSize(existing.value.value);
        newBytes := U64(U64(currentBytes - existingSize) + pinSize);
        released := Size(json, pins[cid]);
        Replace(currentBytes, released, Size(json, p));
      }
      assert newBytes == U64(currentBytes - released + Size(json, p));
      Commit(cid, p, m.value, segments, newCount, newBytes);
      return Pass;
    }

    /** The write at the end of Pin. */
    method Commit(cid: bytes, ghost p: Pin, m: Manifest, segments: seq<bytes>, newCount: int, newBytes: uint64)
      requires Valid() && p == PinState.Pin(m, segments) && m.cid == cid && m.segmentCount == |segments|
      requires newCount == (if cid in pins then |pins| else |pins| + 1) < MAX_PINS
      modifies `kv, `pins, `used
      ensures Valid() && pins == old(pins)[cid := p] && used == newBytes
      ensures ForeignSame(old(kv), kv) && TailSame(old(kv), kv, cid, |segments|)
      ensures OrphanFree(old(kv), old(pins)) ==>
                (OrphanFree(kv, pins) <==> !(cid in old(pins) && |old(pins)[cid].segs| > |segments|))
    {
      hide Represents, OrphanFree, PinBatch, HasCounter, ForeignSame, TailSame;
      var b := BatchOfPin(cid, m, segments, U64(newCount), newBytes);
      PinBatchRepresents(json, kv, b, cid, p, pins);
      BatchTail(json, kv, b, cid, p);
      if OrphanFree(kv, pins) { PinBatchOrphans(json, kv, b, cid, p, pins); }
      PinCount(pins, cid, p);
      NoWrap(newCount);
      kv, pins, used := b, pins[cid := p], newBytes;
    }

    /** Build the manifest of the payloads, then pin it under its own identifier. */
    method PinPayloads(sha: Sha, payloads: seq<bytes>, segmentDuration: int) returns (r: Result<Manifest, PinError>)
      requires Valid() && |pins| + 1 < MAX_PINS
      modifies this
      ensures Valid() && quota == old(quota)
      ensures r.Ok? ==>
                && payloads != [] && segmentDuration > 0 && r.value == Built(sha, payloads, segmentDuration)
                && r.value.cid in pins && pins[r.value.cid] == PinState.Pin(r.value, payloads)
      ensures r.Err? ==> kv == old(kv) && State() == old(State())
      ensures ForeignSame(old(kv), kv)
      ensures r.Ok? <==>
                (payloads != [] && segmentDuration > 0 &&
                 PinCheck(json, quota, old(State()), Built(sha, payloads, segmentDuration).cid,
                          Some(Built(sha, payloads, segmentDuration)), payloads).Pass?)
      ensures r.Ok? <==>
                (payloads != [] && segmentDuration > 0 &&
                 (quota.maxPins <= 0 || |old(pins)| < quota.maxPins) &&
                 (quota.maxBytes == 0 ||
                  (old(used) + |json.enc(Built(sha, payloads, segmentDuration))| + Added(Lengths(payloads)))
                    % 0x1_0000_0000_0000_0000 <= quota.maxBytes))
    {
      hide Valid, PinCheck, Built, ForeignSame;
      Unwritten(kv);
      if |payloads| == 0 { return Err(BadPayloads); }
      var m := BuildFromPayloads(sha, payloads, segmentDuration);
      if m.Err? { return Err(BadPayloads); }
      BuiltAnswers(json, quota, State(), sha, payloads, segmentDuration);
      var pinned := Pin(m.value.cid, Some(m.value), payloads);
      if pinned.Fail? { return Err(pinned.error); }
      return Ok(m.value);
    }

    /** The deletions of an unpin, as one batch over `kv`. */
    method BatchOfUnpin(cid: bytes, n: nat, count: uint64, newBytes: uint64) returns (b: KV)
      ensures UnpinBatch(kv, b, cid, n)
      ensures HasCounter(b, COUNT_KEY, count) && HasCounter(b, BYTES_KEY, newBytes)
      ensures ForeignSame(kv, b)
    {
      hide Foreign, ForeignSame;
      OwnKeys();
      b := kv - {ManifestKey(cid)};
      PutManifest(kv, cid, []);
      Unwritten(kv);
      WriteOwn(kv, kv, ManifestKey(cid), []);
      ghost var base := b;
      for i := 0 to n
        invariant ForeignSame(kv, b)
        invariant SameButSegments(base, b, cid, i)
        invariant forall k: nat :: k < i ==> SegmentKey(cid, k) !in b
      {
        DeleteSegment(base, b, cid, i);
        WriteOwn(kv, b, SegmentKey(cid, i), []);
        b := b - {SegmentKey(cid, i)};
      }
      forall k: nat | k < n ensures Look(b, SegmentKey(cid, k)) == None { assert SegmentKey(cid, k) !in b; }
      PutCounters(b, count, newBytes);
      WriteOwn(kv, b, COUNT_KEY, BE64(count));
      b := b[COUNT_KEY := BE64(count)];
      WriteOwn(kv, b, BYTES_KEY, BE64(newBytes));
      b := b[BYTES_KEY := BE64(newBytes)];
    }

    /** Main result for `Unpin`: never refused, gone from the map, counter as in `AfterUnpin`,
        nothing else touched, no new orphan. */
    method Unpin(cid: bytes) returns (r: Outcome<PinError>)
      requires Valid()
      modifies this
      ensures r.Pass? && Valid() && quota == old(quota)
      ensures State() == AfterUnpin(json, old(State()), cid) && pins == old(pins) - {cid}
      ensures OrphanFree(old(kv), old(pins)) ==> OrphanFree(kv, pins)
      ensures ForeignSame(old(kv), kv)
      ensures TailSame(old(kv), kv, cid, if cid in old(pins) then |old(pins)[cid].segs| else 0)
    {
      hide Represents, OrphanFree, UnpinBatch, HasCounter, Size, ForeignSame, TailSame;
      Unwritten(kv);
      TailUnwritten(kv, cid, 0);
      var found := GetManifest(cid);
      if found.value.None? { return Pass; }
      var m := found.value.value;
      PinnedManifest(json, kv, pins, cid);
      var released := StoredSize(m);
      var usage := Usage();
      var currentCount, currentBytes := usage.value.0, usage.value.1;
      var newCount := currentCount - 1;
      if newCount < 0 { newCount := 0; }
      var newBytes: uint64 := 0;
      if currentBytes > released { newBytes := currentBytes - released; }
      UnpinCount(pins, cid);
      NoWrap(newCount);
      var b := BatchOfUnpin(cid, m.segmentCount, U64(newCount), newBytes);
      UnpinBatchRepresents(json, kv, b, cid, pins);
      UnpinTail(kv, b, cid, |pins[cid].segs|);
      kv, pins, used := b, pins - {cid}, newBytes;
      return Pass;
    }
  }

  lemma SizeOf(j: Json, p: Pin)
    ensures Size(j, p) == |j.enc(p.m)| + SumLens(p.segs)
  {
  }

  lemma PinnedManifest(j: Json, kv: KV, pins: Pins, cid: bytes)
    requires Represents(j, kv, pins) && cid in pins
    ensures pins[cid].m.cid == cid && pins[cid].m.segmentCount == |pins[cid].segs|
  {
  }

  lemma Replace(current: uint64, released: nat, size: nat)
    ensures U64(U64(current - U64(released)) + U64(size)) == U64(current - released + size)
  {
    var q, k := released / TWO64, size / TWO64;
    assert current - U64(released) == current - released + q * TWO64;
    assert U64(size) == size - k * TWO64;
  }

  lemma PinCount(pins: Pins, cid: bytes, p: Pin)
    ensures |pins[cid := p]| == if cid in pins then |pins| else |pins| + 1
  {
    assert pins[cid := p].Keys == pins.Keys + {cid};
    assert |pins.Keys + {cid}| == if cid in pins.Keys then |pins.Keys| else |pins.Keys| + 1 by {
      if cid in pins.Keys { assert pins.Keys + {cid} == pins.Keys; }
    }
  }

  lemma UnpinCount(pins: Pins, cid: bytes)
    requires cid in pins
    ensures |pins - {cid}| == |pins| - 1
  {
    assert (pins - {cid}).Keys == pins.Keys - {cid};
  }

  lemma BuiltShape(sha: Sha, payloads: seq<bytes>, duration: int)
    requires payloads != []
    ensures var m := Built(sha, payloads, duration); m.cid != [] && m.segmentCount == |payloads|
  {
    hide Merkle.Root;
  }

  /** What `Pin` answers to a manifest just built. */
  lemma BuiltAnswers(j: Json, q: Quota, s: State, sha: Sha, payloads: seq<bytes>, duration: int)
    requires payloads != []
    ensures var m := Built(sha, payloads, duration);
            PinCheck(j, q, s, m.cid, Some(m), payloads).Pass? <==>
              && (q.maxPins <= 0 || |s.pins| < q.maxPins)
              && (q.maxBytes == 0 ||
                  (s.used + |j.enc(m)| + Added(Lengths(payloads))) % 0x1_0000_0000_0000_0000 <= q.maxBytes)
  {
    hide Built, PinCheck, AfterPin, AfterUnpin, Added, Lengths;
    BuiltShape(sha, payloads, duration);
    var m := Built(sha, payloads, duration);
    PinAnswers(j, q, s, m.cid, Some(m), payloads);
  }
}
