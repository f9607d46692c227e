/** The receipt store (por/store.go) over the raw keys of the shared key-value store.

    It refines a map from (provider, timestamp, nonce) to the latest receipt.  Peer identifiers may hold
    any bytes, colons included: the suffix of a key has a fixed width, which is what keeps one provider's
    keys apart from those of a provider whose name begins with its own.
 */
module ReceiptStore {
  import opened Bytes
  import opened Results
  import opened Keys
  import opened Sorting
  import opened Receipts
  import PinState
  import PinStore

  type KV = PinStore.KV

  const RECEIPT_PREFIX: bytes := Ascii("receipt:")

  function Suffix(n: Natural): (s: bytes)
    ensures |s| == 17 && s[8] == COLON
  {
    Word(n.timestamp) + [COLON] + BE64(n.nonce)
  }

  function ProviderPrefix(p: bytes): bytes { RECEIPT_PREFIX + p + [COLON] }

  function ReceiptKey(n: Natural): bytes { ProviderPrefix(n.provider) + Suffix(n) }

  /** The timestamp and nonce behind `prefix`, when exactly a suffix is there. */
  function ParseTsNonce(key: bytes, prefix: bytes): Option<(int64, uint64)>
    requires |prefix| <= |key|
  {
    var s := key[|prefix|..];
    if |s| != 17 || s[8] != COLON then None
    else Some((I64(U64(FromBE(s[..8]))), U64(FromBE(s[9..]))))
  }

  lemma SuffixRoundTrip(n: Natural)
    ensures var s := Suffix(n); I64(U64(FromBE(s[..8]))) == n.timestamp && U64(FromBE(s[9..])) == n.nonce
  {
    hide BE, FromBE, U64, I64;
    var s := Suffix(n);
    assert s[..8] == BE64(U64(n.timestamp)) && s[9..] == BE64(n.nonce);
    RoundTrip64(U64(n.timestamp));
    RoundTrip64(n.nonce);
    WrapTwice(n.timestamp);
    RoundTripI64(n.timestamp);
    NoWrap(n.nonce);
  }

  lemma SuffixInjective(m: Natural, n: Natural)
    requires Suffix(m) == Suffix(n)
    ensures m.timestamp == n.timestamp && m.nonce == n.nonce
  {
    SuffixRoundTrip(m);
    SuffixRoundTrip(n);
  }

  lemma KeyPieces(n: Natural)
    ensures |ReceiptKey(n)| == |RECEIPT_PREFIX| + |n.provider| + 18
    ensures HasPrefix(ReceiptKey(n), RECEIPT_PREFIX)
    ensures HasPrefix(ReceiptKey(n), ProviderPrefix(n.provider))
    ensures ReceiptKey(n)[|ProviderPrefix(n.provider)|..] == Suffix(n)
  {
    hide Suffix;
    assert ReceiptKey(n) == RECEIPT_PREFIX + (n.provider + [COLON] + Suffix(n));
  }

  lemma KeySpelled(n: Natural)
    ensures ReceiptKey(n) ==
              Ascii("receipt:") + n.provider + Ascii(":") + BE64(U64(n.timestamp)) + Ascii(":") + BE64(n.nonce)
  {
    hide BE64;
    assert Ascii(":") == [COLON];
    Joins(ProviderPrefix(n.provider), BE64(U64(n.timestamp)), [COLON], BE64(n.nonce));
  }

  lemma Joins(a: bytes, b: bytes, c: bytes, d: bytes)
    ensures a + (b + c + d) == a + b + c + d
  {
  }

  /** Main result: no two entries share a key, whatever bytes the peer identifiers hold. */
  lemma ReceiptKeyInjective(m: Natural, n: Natural)
    requires ReceiptKey(m) == ReceiptKey(n)
    ensures m == n
  {
    hide Suffix;
    KeyPieces(m);
    KeyPieces(n);
    SplitEqual(ProviderPrefix(m.provider), Suffix(m), ProviderPrefix(n.provider), Suffix(n));
    SamePrefix(m.provider, n.provider);
    SuffixInjective(m, n);
  }

  lemma SamePrefix(p: bytes, q: bytes)
    requires ProviderPrefix(p) == ProviderPrefix(q)
    ensures p == q
  {
    SplitEqual(RECEIPT_PREFIX + p, [COLON], RECEIPT_PREFIX + q, [COLON]);
    SplitEqual(RECEIPT_PREFIX, p, RECEIPT_PREFIX, q);
  }

  /** Main result: the scan under one provider's prefix meets other providers' keys only where the
      suffix test turns them away; its own keys all pass, and give back timestamp and nonce. */
  lemma ParseAccepts(n: Natural, p: bytes)
    requires HasPrefix(ReceiptKey(n), ProviderPrefix(p))
    ensures ParseTsNonce(ReceiptKey(n), ProviderPrefix(p)) ==
              if n.provider == p then Some((n.timestamp, n.nonce)) else None
  {
    hide Suffix;
    KeyPieces(n);
    var k, s := ReceiptKey(n), ReceiptKey(n)[|ProviderPrefix(p)|..];
    if |s| == 17 {
      assert |n.provider| == |p|;
      assert k[..|ProviderPrefix(p)|] == ProviderPrefix(n.provider);
      SamePrefix(n.provider, p);
      SuffixRoundTrip(n);
    }
  }

  // ---- order ----

  /** The order of the keys of one provider: the timestamp as an unsigned number, then the nonce. */
  predicate Before(m: Natural, n: Natural) {
    var a, b := U64(m.timestamp), U64(n.timestamp);
    a < b || (a == b && m.nonce < n.nonce)
  }

  lemma SuffixOrder(m: Natural, n: Natural)
    ensures LexLeq(Suffix(m), Suffix(n)) <==> (Before(m, n) || Suffix(m) == Suffix(n))
  {
    hide BE, LexLeq, U64;
    var a, b := Word(m.timestamp), Word(n.timestamp);
    var x, y := [COLON] + BE64(m.nonce), [COLON] + BE64(n.nonce);
    assert Suffix(m) == a + x && Suffix(n) == b + y;
    WordOrder(U64(m.timestamp), U64(n.timestamp));
    WordOrder(m.nonce, n.nonce);
    if Suffix(m) == Suffix(n) { SuffixInjective(m, n); }
    if a == b {
      LexPrefix(a, x, y);
      LexPrefix([COLON], BE64(m.nonce), BE64(n.nonce));
    } else {
      LexBlocks(a, b, x, y);
      assert Suffix(m)[..8] == a && Suffix(n)[..8] == b;
    }
  }

  lemma WordOrder(x: uint64, y: uint64)
    ensures LexLeq(BE64(x), BE64(y)) <==> x <= y
    ensures BE64(x) == BE64(y) <==> x == y
  {
    hide BE, LexLeq, FromBE;
    PowerValues();
    LexBE(x, y, 8);
    RoundTrip64(x);
    RoundTrip64(y);
  }

  lemma KeyOrder(m: Natural, n: Natural)
    requires m.provider == n.provider && m != n && LexLeq(ReceiptKey(m), ReceiptKey(n))
    ensures Before(m, n)
  {
    hide Suffix, LexLeq, Before;
    LexPrefix(ProviderPrefix(m.provider), Suffix(m), Suffix(n));
    SuffixOrder(m, n);
    if Suffix(m) == Suffix(n) { SuffixInjective(m, n); }
  }

  /** Main result: that order is the order of time exactly between timestamps of one sign (or equal
      ones); a negative timestamp comes after every other. */
  lemma KeyOrderIsTimeOrder(s: int64, t: int64)
    ensures (U64(s) <= U64(t) <==> s <= t) <==> ((s < 0 <==> t < 0) || s == t)
  {
    SignedWordValue(s);
    SignedWordValue(t);
  }

  lemma SignedWordValue(s: int64)
    ensures U64(s) == if s < 0 then s + TWO64 else s
  {
  }

  // ---- refinement ----

  datatype Codec = Codec(enc: Receipt -> bytes, dec: bytes -> Option<Receipt>)
  {
    ghost predicate Lawful() { forall r :: dec(enc(r)) == Some(r) }
  }

  type Table = map<Natural, Receipt>

  ghost predicate TableKey(table: Table, k: bytes) { exists n :: n in table && ReceiptKey(n) == k }

  ghost predicate Refines(j: Codec, kv: KV, table: Table) {
    && (forall n :: n in table ==> n.provider != [] && NaturalOf(table[n]) == n)
    && (forall n :: n in table ==> PinStore.Look(kv, ReceiptKey(n)) == Some(j.enc(table[n])))
    && (forall k :: k in kv && HasPrefix(k, RECEIPT_PREFIX) ==> TableKey(table, k))
  }

  /** All but the receipt keys. */
  ghost predicate OthersSame(a: KV, b: KV) {
    forall k :: !HasPrefix(k, RECEIPT_PREFIX) ==> PinStore.Look(b, k) == PinStore.Look(a, k)
  }

  lemma PutRefines(j: Codec, kv: KV, table: Table, r: Receipt)
    requires Refines(j, kv, table) && r.provider != []
    ensures Refines(j, kv[ReceiptKey(NaturalOf(r)) := j.enc(r)], table[NaturalOf(r) := r])
    ensures OthersSame(kv, kv[ReceiptKey(NaturalOf(r)) := j.enc(r)])
  {
    hide ReceiptKey;
    var n, k := NaturalOf(r), ReceiptKey(NaturalOf(r));
    KeyPieces(n);
    var kv', table' := kv[k := j.enc(r)], table[n := r];
    forall m | m in table' ensures PinStore.Look(kv', ReceiptKey(m)) == Some(j.enc(table'[m])) {
      if ReceiptKey(m) == k { ReceiptKeyInjective(m, n); }
    }
    forall q | q in kv' && HasPrefix(q, RECEIPT_PREFIX) ensures TableKey(table', q) {
      if q == k {
        assert n in table';
      } else {
        assert TableKey(table, q);
        var m :| m in table && ReceiptKey(m) == q;
        assert m in table';
      }
    }
  }

  lemma DeleteRefines(j: Codec, kv: KV, table: Table, n: Natural)
    requires Refines(j, kv, table)
    ensures Refines(j, kv - {ReceiptKey(n)}, table - {n})
    ensures OthersSame(kv, kv - {ReceiptKey(n)})
  {
    hide ReceiptKey;
    var k := ReceiptKey(n);
    KeyPieces(n);
    var kv', table' := kv - {k}, table - {n};
    forall m | m in table' ensures PinStore.Look(kv', ReceiptKey(m)) == Some(j.enc(table'[m])) {
      assert PinStore.Look(kv, ReceiptKey(m)) == Some(j.enc(table[m]));
      if ReceiptKey(m) == k { ReceiptKeyInjective(m, n); }
    }
    forall q | q in kv' && HasPrefix(q, RECEIPT_PREFIX) ensures TableKey(table', q) {
      assert TableKey(table, q);
      var m :| m in table && ReceiptKey(m) == q;
      assert m in table';
    }
  }

  /** Main result: receipts and pins can share the store.  A write to receipt keys changes nothing of what
      the store stands for as a pin store. */
  lemma PinsUntouched(j: PinState.Json, a: KV, b: KV, pins: PinState.Pins)
    requires OthersSame(a, b)
    ensures PinStore.Represents(j, a, pins) <==> PinStore.Represents(j, b, pins)
    ensures PinStore.OrphanFree(a, pins) <==> PinStore.OrphanFree(b, pins)
    ensures PinStore.Look(a, COUNT_KEY) == PinStore.Look(b, COUNT_KEY)
    ensures PinStore.Look(a, BYTES_KEY) == PinStore.Look(b, BYTES_KEY)
  {
    CountersSame(a, b);
    PinKeysSame(a, b);
    hide PinStore.Look, ManifestKey, SegmentKey, OthersSame, PinStore.OrphanFree, HasPrefix;
    SegmentsPresent(a, b, pins);
  }

  lemma CountersSame(a: KV, b: KV)
    requires OthersSame(a, b)
    ensures PinStore.Look(a, COUNT_KEY) == PinStore.Look(b, COUNT_KEY)
    ensures PinStore.Look(a, BYTES_KEY) == PinStore.Look(b, BYTES_KEY)
  {
    hide HasPrefix, PinStore.Look;
    CounterKeys();
    NotReceipt(COUNT_KEY);
    NotReceipt(BYTES_KEY);
  }

  /** The other way round: pinning and unpinning change no receipt. */
  lemma ReceiptsUntouched(j: Codec, a: KV, b: KV, table: Table)
    requires PinStore.ForeignSame(a, b)
    ensures Refines(j, a, table) <==> Refines(j, b, table)
  {
    hide ReceiptKey;
    forall k | HasPrefix(k, RECEIPT_PREFIX) ensures PinStore.Look(a, k) == PinStore.Look(b, k) {
      assert RECEIPT_PREFIX[0] == 114 && k[0] == k[..|RECEIPT_PREFIX|][0];
      assert PinStore.Foreign(k);
    }
    forall n ensures PinStore.Look(a, ReceiptKey(n)) == PinStore.Look(b, ReceiptKey(n)) { KeyPieces(n); }
    forall k | HasPrefix(k, RECEIPT_PREFIX) ensures k in a <==> k in b {
      assert PinStore.Look(a, k) == PinStore.Look(b, k);
    }
  }

  lemma PinKeysSame(a: KV, b: KV)
    requires OthersSame(a, b)
    ensures forall c :: PinStore.Look(a, ManifestKey(c)) == PinStore.Look(b, ManifestKey(c))
    ensures forall c, i: nat :: PinStore.Look(a, SegmentKey(c, i)) == PinStore.Look(b, SegmentKey(c, i))
  {
    hide ManifestKey, SegmentKey, PinStore.Look, HasPrefix;
    forall c ensures PinStore.Look(a, ManifestKey(c)) == PinStore.Look(b, ManifestKey(c)) {
      NotReceipt(ManifestKey(c));
    }
    forall c, i: nat ensures PinStore.Look(a, SegmentKey(c, i)) == PinStore.Look(b, SegmentKey(c, i)) {
      NotReceipt(SegmentKey(c, i));
    }
  }

  lemma SegmentsPresent(a: KV, b: KV, pins: PinState.Pins)
    requires forall c, i: nat :: PinStore.Look(a, SegmentKey(c, i)) == PinStore.Look(b, SegmentKey(c, i))
    ensures PinStore.OrphanFree(a, pins) <==> PinStore.OrphanFree(b, pins)
  {
    hide SegmentKey;
    forall c, i: nat ensures SegmentKey(c, i) in a <==> SegmentKey(c, i) in b {
      assert PinStore.Look(a, SegmentKey(c, i)) == PinStore.Look(b, SegmentKey(c, i));
    }
  }

  lemma NotReceipt(k: bytes)
    requires |k| > 0 && k[0] != 114
    ensures !HasPrefix(k, RECEIPT_PREFIX)
  {
    assert RECEIPT_PREFIX[0] == 114;
    if |k| >= |RECEIPT_PREFIX| { assert k[..|RECEIPT_PREFIX|][0] == k[0]; }
  }

  // ---- what the queries promise ----

  predicate InWindow(ts: int64, since: int64, until: int64) {
    !(since > 0 && ts < since) && !(until > 0 && ts >= until)
  }

  /** A bound that is not positive is no bound. */
  lemma WindowPlainly(ts: int64, since: int64, until: int64)
    ensures InWindow(ts, since, until) <==> (since <= 0 || since <= ts) && (until <= 0 || ts < until)
  {
  }

  /** Each stored receipt `want` asks for, once, as last written. */
  ghost predicate Exactly(out: seq<Receipt>, table: Table, want: Natural -> bool) {
    && (forall i :: 0 <= i < |out| ==> Stored(out[i], table, want))
    && (forall n :: n in table && want(n) ==> table[n] in out)
    && (forall a, b :: 0 <= a < b < |out| ==> NaturalOf(out[a]) != NaturalOf(out[b]))
  }

  ghost predicate Stored(r: Receipt, table: Table, want: Natural -> bool) {
    NaturalOf(r) in table && want(NaturalOf(r)) && table[NaturalOf(r)] == r
  }

  ghost predicate Ascending(out: seq<Receipt>) {
    forall a, b :: 0 <= a < b < |out| ==> Before(NaturalOf(out[a]), NaturalOf(out[b]))
  }

  /** The promise of `GetByProvider`: for timestamps that are not negative its answer is in order of time. */
  lemma AscendingInTime(out: seq<Receipt>)
    requires Ascending(out)
    requires forall i :: 0 <= i < |out| ==> out[i].timestamp >= 0
    ensures forall a, b :: 0 <= a < b < |out| ==>
              out[a].timestamp < out[b].timestamp
              || (out[a].timestamp == out[b].timestamp && out[a].nonce < out[b].nonce)
  {
    forall a, b | 0 <= a < b < |out|
      ensures out[a].timestamp < out[b].timestamp
              || (out[a].timestamp == out[b].timestamp && out[a].nonce < out[b].nonce)
    {
      assert Before(NaturalOf(out[a]), NaturalOf(out[b]));
      KeyOrderIsTimeOrder(out[a].timestamp, out[b].timestamp);
      SignedWordValue(out[a].timestamp);
      SignedWordValue(out[b].timestamp);
    }
  }

  // ---- what a scan collects ----

  ghost predicate Lists(kv: KV, prefix: bytes, keys: seq<bytes>) {
    && Sorted(keys, LexLeq) && Distinct(keys)
    && (forall k :: k in keys <==> k in kv && HasPrefix(k, prefix))
  }

  /** The entries behind a list of keys. */
  ghost predicate Entries(table: Table, keys: seq<bytes>, ns: seq<Natural>) {
    |ns| == |keys| && forall i :: 0 <= i < |ns| ==> ns[i] in table && ReceiptKey(ns[i]) == keys[i]
  }

  ghost function Pick(table: Table, want: Natural -> bool, ns: seq<Natural>): seq<Receipt> {
    if ns == [] then []
    else
      var n := ns[|ns| - 1];
      Pick(table, want, ns[..|ns| - 1]) + if n in table && want(n) then [table[n]] else []
  }

  lemma EntriesOf(j: Codec, kv: KV, table: Table, prefix: bytes, keys: seq<bytes>) returns (ns: seq<Natural>)
    requires Refines(j, kv, table) && Lists(kv, prefix, keys) && HasPrefix(prefix, RECEIPT_PREFIX)
    ensures Entries(table, keys, ns)
  {
    hide ReceiptKey, LexLeq;
    ns := [];
    for i := 0 to |keys|
      invariant Entries(table, keys[..i], ns)
    {
      assert keys[i] in keys;
      assert keys[i][..|RECEIPT_PREFIX|] == prefix[..|RECEIPT_PREFIX|];
      assert TableKey(table, keys[i]);
      var n :| n in table && ReceiptKey(n) == keys[i];
      ns := ns + [n];
    }
    assert keys[..|keys|] == keys;
  }

  lemma EntriesOrdered(table: Table, keys: seq<bytes>, ns: seq<Natural>)
    requires Entries(table, keys, ns) && Sorted(keys, LexLeq) && Distinct(keys)
    ensures Distinct(ns)
    ensures forall a, b :: 0 <= a < b < |ns| && ns[a].provider == ns[b].provider ==> Before(ns[a], ns[b])
  {
    hide ReceiptKey, LexLeq, Before;
    forall a, b | 0 <= a < b < |ns| && ns[a].provider == ns[b].provider ensures Before(ns[a], ns[b]) {
      assert LexLeq(keys[a], keys[b]) && keys[a] != keys[b];
      KeyOrder(ns[a], ns[b]);
    }
  }

  lemma EntriesCover(j: Codec, kv: KV, table: Table, prefix: bytes, keys: seq<bytes>, ns: seq<Natural>, n: Natural)
    requires Refines(j, kv, table) && Lists(kv, prefix, keys) && Entries(table, keys, ns)
    requires n in table && HasPrefix(ReceiptKey(n), prefix)
    ensures n in ns
  {
    hide ReceiptKey, LexLeq, HasPrefix;
    assert PinStore.Look(kv, ReceiptKey(n)).Some?;
    assert ReceiptKey(n) in keys;
    var i :| 0 <= i < |keys| && keys[i] == ReceiptKey(n);
    ReceiptKeyInjective(ns[i], n);
  }

  lemma {:induction false} PickStored(table: Table, want: Natural -> bool, ns: seq<Natural>, i: int)
    requires forall n :: n in table ==> NaturalOf(table[n]) == n
    requires 0 <= i < |Pick(table, want, ns)|
    ensures Stored(Pick(table, want, ns)[i], table, want)
    ensures NaturalOf(Pick(table, want, ns)[i]) in ns
  {
    var front := ns[..|ns| - 1];
    if i < |Pick(table, want, front)| {
      PickStored(table, want, front, i);
      assert NaturalOf(Pick(table, want, front)[i]) in front;
    }
  }

  lemma {:induction false} PickHas(table: Table, want: Natural -> bool, ns: seq<Natural>, n: Natural)
    requires n in ns && n in table && want(n)
    ensures table[n] in Pick(table, want, ns)
  {
    var front := ns[..|ns| - 1];
    if n in front {
      PickHas(table, want, front, n);
    } else {
      assert ns == front + [ns[|ns| - 1]];
    }
  }

  ghost predicate InOrder(ns: seq<Natural>, want: Natural -> bool, before: (Natural, Natural) -> bool) {
    forall a, b :: 0 <= a < b < |ns| && want(ns[a]) && want(ns[b]) ==> before(ns[a], ns[b])
  }

  ghost predicate Pairwise(out: seq<Receipt>, before: (Natural, Natural) -> bool) {
    forall a, b :: 0 <= a < b < |out| ==> before(NaturalOf(out[a]), NaturalOf(out[b]))
  }

  /** What holds between any two wanted entries holds between any two receipts picked. */
  lemma {:induction false} PickInOrder(table: Table, want: Natural -> bool, ns: seq<Natural>,
                                       before: (Natural, Natural) -> bool)
    requires forall n :: n in table ==> NaturalOf(table[n]) == n
    requires InOrder(ns, want, before)
    ensures Pairwise(Pick(table, want, ns), before)
  {
    if ns != [] {
      var front, last := ns[..|ns| - 1], ns[|ns| - 1];
      PickInOrder(table, want, front, before);
      var head := Pick(table, want, front);
      if last in table && want(last) {
        var out := head + [table[last]];
        assert Pick(table, want, ns) == out;
        forall a, b | 0 <= a < b < |out| ensures before(NaturalOf(out[a]), NaturalOf(out[b])) {
          if b < |head| {
            assert out[a] == head[a] && out[b] == head[b];
          } else {
            PickStored(table, want, front, a);
            var i :| 0 <= i < |front| && front[i] == NaturalOf(head[a]);
            assert ns[i] == front[i] && ns[|ns| - 1] == last;
          }
        }
      } else {
        assert Pick(table, want, ns) == head;
      }
    }
  }

  lemma PickExactly(table: Table, want: Natural -> bool, ns: seq<Natural>)
    requires forall n :: n in table ==> NaturalOf(table[n]) == n
    requires Distinct(ns) && forall n :: n in table && want(n) ==> n in ns
    ensures Exactly(Pick(table, want, ns), table, want)
  {
    hide Pick, Stored;
    var out := Pick(table, want, ns);
    forall i | 0 <= i < |out| ensures Stored(out[i], table, want) { PickStored(table, want, ns, i); }
    forall n | n in table && want(n) ensures table[n] in out { PickHas(table, want, ns, n); }
    PickInOrder(table, want, ns, (m, n) => m != n);
  }

  // ---- the store object ----

  datatype StoreError = NilReceipt | NoProvider | NotFound | BadJson

  class Store {
    var kv: KV
    const json: Codec
    ghost var table: Table

    ghost predicate Valid()
      reads this
    {
      json.Lawful() && Refines(json, kv, table)
    }

    constructor (json: Codec, kv: KV)
      requires json.Lawful() && forall k :: k in kv ==> !HasPrefix(k, RECEIPT_PREFIX)
      ensures Valid() && this.kv == kv && this.json == json && table == map[]
    {
      this.json, this.kv, this.table := json, kv, map[];
    }

    method Put(r: Option<Receipt>) returns (o: Outcome<StoreError>)
      requires Valid()
      modifies this
      ensures Valid() && OthersSame(old(kv), kv)
      ensures o == match r case None => Fail(NilReceipt) case Some(q) => if q.provider == [] then Fail(NoProvider) else Pass
      ensures o.Fail? ==> kv == old(kv) && table == old(table)
      ensures o.Pass? ==> table == old(table)[NaturalOf(r.value) := r.value]
    {
      hide ReceiptKey, Refines;
      if r.None? { return Fail(NilReceipt); }
      if r.value.provider == [] { return Fail(NoProvider); }
      PutRefines(json, kv, table, r.value);
      kv := kv[ReceiptKey(NaturalOf(r.value)) := json.enc(r.value)];
      table := table[NaturalOf(r.value) := r.value];
      return Pass;
    }

    method Delete(r: Receipt)
      requires Valid()
      modifies this
      ensures Valid() && OthersSame(old(kv), kv) && table == old(table) - {NaturalOf(r)}
    {
      hide ReceiptKey, Refines;
      DeleteRefines(json, kv, table, NaturalOf(r));
      kv := kv - {ReceiptKey(NaturalOf(r))};
      table := table - {NaturalOf(r)};
    }

    /** Badger's key iterator: the keys under a prefix, in byte order. */
    method ListKeysWithPrefix(prefix: bytes) returns (keys: seq<bytes>)
      ensures Lists(kv, prefix, keys)
    {
      hide LexLeq, HasPrefix;
      var todo := set k | k in kv && HasPrefix(k, prefix);
      ghost var all := todo;
      var found: seq<bytes> := [];
      while todo != {}
        invariant todo <= all && Distinct(found)
        invariant forall k :: k in found <==> k in all && k !in todo
        decreases |todo|
      {
        var k :| k in todo;
        todo := todo - {k};
        found := found + [k];
      }
      keys := Sort(found, LexLeq);
      SortedDistinct(found);
    }

    method Read(k: bytes, ghost n: Natural) returns (r: Result<Receipt, StoreError>)
      requires Valid() && n in table && ReceiptKey(n) == k
      ensures r == Ok(table[n])
    {
      hide ReceiptKey;
      assert PinStore.Look(kv, k) == Some(json.enc(table[n]));
      if k !in kv { return Err(NotFound); }
      var q := json.dec(kv[k]);
      if q.None? { return Err(BadJson); }
      return Ok(q.value);
    }

    /** Main result: exactly the provider's latest receipts in [since, until), in key order. */
    method GetByProvider(p: bytes, since: int64, until: int64) returns (r: Result<seq<Receipt>, StoreError>)
      requires Valid()
      ensures r.Ok? && Ascending(r.value)
      ensures Exactly(r.value, table, Wanted(p, since, until))
      ensures forall i :: 0 <= i < |r.value| ==>
                var q := r.value[i];
                q.provider == p && (since <= 0 || since <= q.timestamp) && (until <= 0 || q.timestamp < until)
      ensures forall n :: n in table && n.provider == p ==>
                (since <= 0 || since <= n.timestamp) && (until <= 0 || n.timestamp < until) ==> table[n] in r.value
    {
      hide ReceiptKey, ParseTsNonce, Refines, InWindow, Before, LexLeq, HasPrefix, Pick, Exactly, Ascending;
      var prefix := ProviderPrefix(p);
      var keys := ListKeysWithPrefix(prefix);
      ghost var want := Wanted(p, since, until);
      UnderReceipts(p);
      ghost var ns := EntriesOf(json, kv, table, prefix, keys);
      var out: seq<Receipt> := [];
      PickNone(table, want, ns);
      for i := 0 to |keys|
        invariant out == Pick(table, want, ns[..i])
      {
        assert keys[i] in keys;
        PrefixFits(keys[i], prefix);
        ParseAccepts(ns[i], p);
        PickNext(table, want, ns, i);
        var parsed := ParseTsNonce(keys[i], prefix);
        if parsed.None? { continue; }
        if !InWindow(parsed.value.0, since, until) { continue; }
        var q := Read(keys[i], ns[i]);
        match q {
          case Err(e) => return Err(e);
          case Ok(v) => out := out + [v];
        }
      }
      assert ns[..|ns|] == ns;
      ProviderScan(json, kv, table, p, since, until, keys, ns);
      ScanPlainly(out, table, p, since, until);
      return Ok(out);
    }

    /** Main result: every stored receipt, each once. */
    method List() returns (r: Result<seq<Receipt>, StoreError>)
      requires Valid()
      ensures r.Ok? && Exactly(r.value, table, Any())
    {
      hide ReceiptKey, Refines, LexLeq, HasPrefix, Pick, Exactly;
      var keys := ListKeysWithPrefix(RECEIPT_PREFIX);
      ghost var want := Any();
      WholePrefix();
      ghost var ns := EntriesOf(json, kv, table, RECEIPT_PREFIX, keys);
      var out: seq<Receipt> := [];
      PickNone(table, want, ns);
      for i := 0 to |keys|
        invariant out == Pick(table, want, ns[..i])
      {
        PickNext(table, want, ns, i);
        var q := Read(keys[i], ns[i]);
        match q {
          case Err(e) => return Err(e);
          case Ok(v) => out := out + [v];
        }
      }
      assert ns[..|ns|] == ns;
      FullScan(json, kv, table, keys, ns);
      return Ok(out);
    }
  }

  ghost function Wanted(p: bytes, since: int64, until: int64): Natural -> bool {
    (n: Natural) => n.provider == p && InWindow(n.timestamp, since, until)
  }

  ghost function Any(): Natural -> bool { n => true }

  lemma UnderReceipts(p: bytes)
    ensures HasPrefix(ProviderPrefix(p), RECEIPT_PREFIX)
  {
    assert ProviderPrefix(p) == RECEIPT_PREFIX + (p + [COLON]);
  }

  lemma PrefixFits(k: bytes, prefix: bytes)
    requires HasPrefix(k, prefix)
    ensures |prefix| <= |k|
  {
  }

  lemma WholePrefix()
    ensures HasPrefix(RECEIPT_PREFIX, RECEIPT_PREFIX)
  {
  }

  lemma PickNone(table: Table, want: Natural -> bool, ns: seq<Natural>)
    ensures Pick(table, want, ns[..0]) == []
  {
  }

  lemma PickNext(table: Table, want: Natural -> bool, ns: seq<Natural>, i: nat)
    requires i < |ns|
    ensures Pick(table, want, ns[..i + 1]) ==
              Pick(table, want, ns[..i]) + if ns[i] in table && want(ns[i]) then [table[ns[i]]] else []
  {
    assert ns[..i + 1][..i] == ns[..i];
  }

  lemma ProviderScan(j: Codec, kv: KV, table: Table, p: bytes, since: int64, until: int64,
                     keys: seq<bytes>, ns: seq<Natural>)
    requires Refines(j, kv, table) && Lists(kv, ProviderPrefix(p), keys) && Entries(table, keys, ns)
    ensures var want := Wanted(p, since, until);
            Exactly(Pick(table, want, ns), table, want) && Ascending(Pick(table, want, ns))
  {
    hide ReceiptKey, HasPrefix, LexLeq, InWindow, Before, Pick, Exactly;
    var want := Wanted(p, since, until);
    EntriesOrdered(table, keys, ns);
    forall n | n in table && want(n) ensures n in ns {
      KeyPieces(n);
      EntriesCover(j, kv, table, ProviderPrefix(p), keys, ns, n);
    }
    PickExactly(table, want, ns);
    PickInOrder(table, want, ns, (m, n) => Before(m, n));
  }

  lemma ScanPlainly(out: seq<Receipt>, table: Table, p: bytes, since: int64, until: int64)
    requires Exactly(out, table, Wanted(p, since, until))
    ensures forall i :: 0 <= i < |out| ==>
              var q := out[i];
              q.provider == p && (since <= 0 || since <= q.timestamp) && (until <= 0 || q.timestamp < until)
    ensures forall n :: n in table && n.provider == p ==>
              (since <= 0 || since <= n.timestamp) && (until <= 0 || n.timestamp < until) ==> table[n] in out
  {
    forall i | 0 <= i < |out|
      ensures out[i].provider == p && InWindow(out[i].timestamp, since, until)
    {
      assert Stored(out[i], table, Wanted(p, since, until));
    }
    forall n | n in table && n.provider == p && InWindow(n.timestamp, since, until) ensures table[n] in out {
      assert Wanted(p, since, until)(n);
    }
  }

  lemma FullScan(j: Codec, kv: KV, table: Table, keys: seq<bytes>, ns: seq<Natural>)
    requires Refines(j, kv, table) && Lists(kv, RECEIPT_PREFIX, keys) && Entries(table, keys, ns)
    ensures Exactly(Pick(table, Any(), ns), table, Any())
  {
    hide ReceiptKey, HasPrefix, LexLeq, Pick, Exactly;
    EntriesOrdered(table, keys, ns);
    forall n | n in table ensures n in ns {
      KeyPieces(n);
      EntriesCover(j, kv, table, RECEIPT_PREFIX, keys, ns, n);
    }
    PickExactly(table, Any(), ns);
  }
}
