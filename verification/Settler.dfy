/** One settlement attempt of the coordinator (settle/settler.go) over the receipts of a time window
    (receipts/reader.go), up to the calldata.

    The chain, the wallet and the address registry are parameters: what each stage answered.
 */
module Settler {
  import opened Bytes
  import opened Results
  import opened Merkle
  import opened Receipts
  import opened ReceiptStore
  import opened Settlement
  import Sorting

  // ---- the window ----

  ghost function InSpan(since: int64, until: int64): Natural -> bool {
    (n: Natural) => InWindow(n.timestamp, since, until)
  }

  function Within(rs: seq<Receipt>, since: int64, until: int64): seq<Receipt> {
    if rs == [] then []
    else
      var r := rs[|rs| - 1];
      Within(rs[..|rs| - 1], since, until) + if InWindow(r.timestamp, since, until) then [r] else []
  }

  lemma {:induction false} WithinElements(rs: seq<Receipt>, since: int64, until: int64, r: Receipt)
    ensures r in Within(rs, since, until) <==> r in rs && InWindow(r.timestamp, since, until)
  {
    hide InWindow;
    if rs != [] {
      var front, last := rs[..|rs| - 1], rs[|rs| - 1];
      WithinElements(front, since, until, r);
      assert rs == front + [last];
    }
  }

  lemma {:induction false} WithinDistinct(rs: seq<Receipt>, since: int64, until: int64)
    requires NoDuplicates(rs)
    ensures NoDuplicates(Within(rs, since, until))
  {
    hide InWindow;
    if rs != [] {
      var front, last := rs[..|rs| - 1], rs[|rs| - 1];
      WithinDistinct(front, since, until);
      var w := Within(front, since, until);
      forall i | 0 <= i < |w| ensures NaturalOf(w[i]) != NaturalOf(last) {
        WithinElements(front, since, until, w[i]);
        var k :| 0 <= k < |front| && front[k] == w[i];
        assert rs[k] == front[k] && rs[|rs| - 1] == last;
      }
    }
  }

  lemma WithinExactly(all: seq<Receipt>, table: Table, since: int64, until: int64)
    requires Exactly(all, table, Any()) && forall n :: n in table ==> NaturalOf(table[n]) == n
    ensures Exactly(Within(all, since, until), table, InSpan(since, until))
  {
    hide InWindow;
    var w := Within(all, since, until);
    assert NoDuplicates(all);
    WithinDistinct(all, since, until);
    forall i | 0 <= i < |w| ensures Stored(w[i], table, InSpan(since, until)) {
      WithinElements(all, since, until, w[i]);
      assert w[i] in all;
      var k :| 0 <= k < |all| && all[k] == w[i];
      assert Stored(all[k], table, Any());
    }
    forall n | n in table && InSpan(since, until)(n) ensures table[n] in w {
      assert Any()(n);
      assert table[n] in all;
      var k :| 0 <= k < |all| && all[k] == table[n];
      assert Stored(all[k], table, Any());
      WithinElements(all, since, until, table[n]);
    }
  }

  lemma {:induction false} WholeSpan(all: seq<Receipt>)
    ensures Within(all, 0, 0) == all
  {
    hide InWindow;
    if all != [] {
      var front, last := all[..|all| - 1], all[|all| - 1];
      WholeSpan(front);
      NoBounds(last.timestamp);
      assert Within(all, 0, 0) == front + [last];
    }
  }

  lemma NoBounds(ts: int64)
    ensures InWindow(ts, 0, 0)
  {
  }

  /** Main result: exactly the stored receipts whose time falls in the window, each once. */
  method WindowForAllProviders(store: Store, since: int64, until: int64) returns (r: Result<seq<Receipt>, StoreError>)
    requires store.Valid()
    ensures r.Ok? && Exactly(r.value, store.table, InSpan(since, until))
    ensures forall i :: 0 <= i < |r.value| ==>
              var ts := r.value[i].timestamp; (since <= 0 || since <= ts) && (until <= 0 || ts < until)
    ensures forall n :: n in store.table && (since <= 0 || since <= n.timestamp) && (until <= 0 || n.timestamp < until)
              ==> store.table[n] in r.value
  {
    hide InWindow, Exactly, Any, InSpan;
    var listed := store.List();
    match listed {
      case Err(e) => return Err(e);
      case Ok(all) =>
        WithinExactly(all, store.table, since, until);
        SpanPlainly(Within(all, since, until), store.table, since, until);
        if since == 0 && until == 0 {
          WholeSpan(all);
          return Ok(all);
        }
        var out := KeepWithin(all, since, until);
        return Ok(out);
    }
  }

  lemma SpanPlainly(rs: seq<Receipt>, table: Table, since: int64, until: int64)
    requires Exactly(rs, table, InSpan(since, until))
    ensures forall i :: 0 <= i < |rs| ==>
              var ts := rs[i].timestamp; (since <= 0 || since <= ts) && (until <= 0 || ts < until)
    ensures forall n :: n in table && (since <= 0 || since <= n.timestamp) && (until <= 0 || n.timestamp < until)
              ==> table[n] in rs
  {
    forall i | 0 <= i < |rs| ensures InWindow(rs[i].timestamp, since, until) {
      assert Stored(rs[i], table, InSpan(since, until));
    }
    forall n | n in table && InWindow(n.timestamp, since, until) ensures table[n] in rs {
      assert InSpan(since, until)(n);
    }
  }

  method KeepWithin(all: seq<Receipt>, since: int64, until: int64) returns (out: seq<Receipt>)
    ensures out == Within(all, since, until)
  {
    out := [];
    for i := 0 to |all|
      invariant out == Within(all[..i], since, until)
    {
      assert all[..i + 1][..i] == all[..i];
      if since > 0 && all[i].timestamp < since { continue; }
      if until > 0 && all[i].timestamp >= until { continue; }
      out := out + [all[i]];
    }
    assert all[..|all|] == all;
  }

  // ---- the attempt ----

  const ADDRESS_SIZE := 20
  const ZERO_ADDRESS: bytes := seq(ADDRESS_SIZE, _ => 0)

  /** What the registry, the encoder, the chain client and the wallet answer to this attempt. */
  datatype World = World(
    resolve: bytes -> Option<bytes>, encodes: bool,
    nonce: bool, tip: bool, baseFee: bool, signs: bool, sends: bool, waits: bool, status: int)

  datatype SettleError = NothingToSettle | ReadFailed(StoreError) | BuildFailed(SettlementError)
                       | Unresolved(peer: bytes) | ZeroAddress(peer: bytes) | EncodeFailed | ChainFailed | Reverted

  datatype Settled = Settled(count: nat, providers: map<bytes, uint64>, total: uint64, root: Digest)

  predicate Payable(w: World, p: bytes) { w.resolve(p).Some? && w.resolve(p).value != ZERO_ADDRESS }

  predicate ReachesChain(w: World) { w.encodes && w.nonce && w.tip && w.baseFee && w.signs && w.sends }

  predicate Confirmed(w: World) { w.waits && w.status == 1 }

  method ResolveAll(w: World, ps: seq<bytes>) returns (r: Result<seq<bytes>, SettleError>)
    ensures r.Ok? <==> forall p :: p in ps ==> Payable(w, p)
    ensures r.Ok? ==> |r.value| == |ps| && forall i :: 0 <= i < |ps| ==> w.resolve(ps[i]) == Some(r.value[i])
    ensures r.Err? ==> r.error.Unresolved? || r.error.ZeroAddress?
  {
    var addrs: seq<bytes> := [];
    for i := 0 to |ps|
      invariant |addrs| == i
      invariant forall k :: 0 <= k < i ==> Payable(w, ps[k]) && w.resolve(ps[k]) == Some(addrs[k])
    {
      assert ps[i] in ps;
      var a := w.resolve(ps[i]);
      if a.None? { return Err(Unresolved(ps[i])); }
      if a.value == ZERO_ADDRESS { return Err(ZeroAddress(ps[i])); }
      addrs := addrs + [a.value];
    }
    return Ok(addrs);
  }

  function ByAddress(addrs: seq<bytes>, xs: seq<uint64>): map<bytes, uint64>
    requires |addrs| == |xs|
  {
    if addrs == [] then map[]
    else ByAddress(addrs[..|addrs| - 1], xs[..|xs| - 1])[addrs[|addrs| - 1] := xs[|xs| - 1]]
  }

  method AddressMap(addrs: seq<bytes>, xs: seq<uint64>) returns (m: map<bytes, uint64>)
    requires |addrs| == |xs|
    ensures m == ByAddress(addrs, xs)
  {
    m := map[];
    for i := 0 to |addrs|
      invariant m == ByAddress(addrs[..i], xs[..i])
    {
      assert addrs[..i + 1][..i] == addrs[..i] && xs[..i + 1][..i] == xs[..i];
      m := m[addrs[i] := xs[i]];
    }
    assert addrs[..|addrs|] == addrs && xs[..|xs|] == xs;
  }

  lemma {:induction false} ByAddressLast(addrs: seq<bytes>, xs: seq<uint64>, i: nat)
    requires |addrs| == |xs| && i < |addrs|
    requires forall j :: i < j < |addrs| ==> addrs[j] != addrs[i]
    ensures addrs[i] in ByAddress(addrs, xs) && ByAddress(addrs, xs)[addrs[i]] == xs[i]
  {
    var n := |addrs| - 1;
    if i < n {
      assert addrs[n] != addrs[i];
      ByAddressLast(addrs[..n], xs[..n], i);
    }
  }

  lemma LastAt(addrs: seq<bytes>, i: nat) returns (k: nat)
    requires i < |addrs|
    ensures i <= k < |addrs| && addrs[k] == addrs[i] && forall j :: k < j < |addrs| ==> addrs[j] != addrs[i]
  {
    k := |addrs| - 1;
    while addrs[k] != addrs[i]
      invariant i <= k < |addrs| && forall j :: k < j < |addrs| ==> addrs[j] != addrs[i]
      decreases k
    {
      k := k - 1;
    }
  }

  /** The report by address (not the calldata) keeps every provider's share exactly when providers paid to
      one address have equal shares: of several, the last is what the report shows. */
  lemma ReportKeepsShares(addrs: seq<bytes>, xs: seq<uint64>)
    requires |addrs| == |xs|
    ensures (forall i :: 0 <= i < |addrs| ==>
               addrs[i] in ByAddress(addrs, xs) && ByAddress(addrs, xs)[addrs[i]] == xs[i])
            <==> (forall i, j :: 0 <= i < j < |addrs| && addrs[i] == addrs[j] ==> xs[i] == xs[j])
  {
    hide ByAddress;
    var m := ByAddress(addrs, xs);
    if forall i :: 0 <= i < |addrs| ==> addrs[i] in m && m[addrs[i]] == xs[i] {
      forall i, j | 0 <= i < j < |addrs| && addrs[i] == addrs[j] ensures xs[i] == xs[j] {
        assert m[addrs[i]] == xs[i] && m[addrs[j]] == xs[j];
      }
    }
    if forall i, j :: 0 <= i < j < |addrs| && addrs[i] == addrs[j] ==> xs[i] == xs[j] {
      forall i | 0 <= i < |addrs| ensures addrs[i] in m && m[addrs[i]] == xs[i] {
        var k := LastAt(addrs, i);
        ByAddressLast(addrs, xs, k);
      }
    }
  }

  /** What is sent to the pool: a root, and addresses with their shares. */
  datatype Calldata = Calldata(root: Digest, addrs: seq<bytes>, shares: seq<uint64>)

  ghost predicate IsCalldata(w: World, s: Settlement, d: Calldata) {
    && d.root == s.root && d.shares == s.perProvider && |d.addrs| == |s.providers|
    && (forall i :: 0 <= i < |s.providers| ==> w.resolve(s.providers[i]) == Some(d.addrs[i]))
  }

  /** Everything an attempt needs of its receipts and its world before a transaction goes out. */
  ghost predicate Sendable(c: Crypto, w: World, rs: seq<Receipt>) {
    && rs != [] && AllVerified(c, rs) && ReachesChain(w)
    && (forall i :: 0 <= i < |rs| ==> Payable(w, rs[i].provider))
  }

  /** A transaction goes out in these circumstances and no others, and counts in these. */
  lemma SendablePlainly(c: Crypto, w: World, rs: seq<Receipt>)
    ensures Sendable(c, w, rs) <==>
              && rs != [] && (forall i :: 0 <= i < |rs| ==> VerifyBoth(c, rs[i]).Pass?)
              && (forall i :: 0 <= i < |rs| ==>
                    var a := w.resolve(rs[i].provider);
                    a.Some? && !(|a.value| == 20 && forall k :: 0 <= k < 20 ==> a.value[k] == 0))
              && w.encodes && w.nonce && w.tip && w.baseFee && w.signs && w.sends
    ensures Confirmed(w) <==> w.waits && w.status == 1
  {
    forall i | 0 <= i < |rs|
      ensures Payable(w, rs[i].provider) <==>
                var a := w.resolve(rs[i].provider);
                a.Some? && !(|a.value| == 20 && forall k :: 0 <= k < 20 ==> a.value[k] == 0)
    {
      var a := w.resolve(rs[i].provider);
      if a.Some? && |a.value| == 20 && forall k :: 0 <= k < 20 ==> a.value[k] == 0 { assert a.value == ZERO_ADDRESS; }
    }
  }

  /** What the calldata pays: for each provider of a receipt one entry, at its own address, over all its receipts,
      and no other entry. */
  lemma CalldataPays(sha: Sha, w: World, rs: seq<Receipt>, s: Settlement, d: Calldata)
    requires IsSettlement(sha, rs, s) && IsCalldata(w, s, d)
    ensures d.root == Root(sha, SortedLeaves(sha, rs)) && |d.addrs| == |d.shares| == |s.providers|
    ensures Sorting.Distinct(s.providers)
    ensures forall k :: 0 <= k < |d.addrs| ==>
              && (exists i :: 0 <= i < |rs| && rs[i].provider == s.providers[k])
              && w.resolve(s.providers[k]) == Some(d.addrs[k]) && d.shares[k] == SumFor(rs, s.providers[k]) % TWO64
    ensures forall i :: 0 <= i < |rs| ==> rs[i].provider in s.providers
  {
    hide Sorting.LexLeq, SumFor, Root, SortedLeaves;
    forall k | 0 <= k < |d.addrs| ensures exists i :: 0 <= i < |rs| && rs[i].provider == s.providers[k] {
      assert s.providers[k] in s.providers;
    }
  }

  lemma AllPayable(w: World, rs: seq<Receipt>, ps: seq<bytes>)
    requires Covers(rs, ps)
    ensures (forall p :: p in ps ==> Payable(w, p)) <==> (forall i :: 0 <= i < |rs| ==> Payable(w, rs[i].provider))
  {
    hide Payable;
    if forall p :: p in ps ==> Payable(w, p) {
      forall i | 0 <= i < |rs| ensures Payable(w, rs[i].provider) { assert rs[i].provider in ps; }
    }
  }

  /** Main result: nothing to settle exactly on an empty window; a transaction goes out exactly when all is
      in order, and it pays the settlement of exactly the receipts of the window; success exactly when
      that transaction is seen to be mined.  The duplicate test can never be what fails. */
  method SettleOnce(store: Store, sha: Sha, c: Crypto, w: World, since: int64, until: int64)
    returns (r: Result<Settled, SettleError>, ghost rs: seq<Receipt>, ghost sent: Option<Calldata>)
    requires store.Valid()
    ensures Exactly(rs, store.table, InSpan(since, until)) && NoDuplicates(rs)
    ensures r == Err(NothingToSettle) <==> rs == []
    ensures r == Err(NothingToSettle) <==> forall n :: n in store.table ==> !InWindow(n.timestamp, since, until)
    ensures r.Ok? ==> Confirmed(w) && ReachesChain(w) && r.value.count == |rs| > 0
    ensures sent.Some? <==> Sendable(c, w, rs)
    ensures r.Ok? <==> sent.Some? && Confirmed(w)
    ensures sent.Some? ==> exists s :: IsSettlement(sha, rs, s) && IsCalldata(w, s, sent.value)
                                       && (r.Ok? ==> r.value == Settled(s.count, ByAddress(sent.value.addrs, s.perProvider), s.total, s.root))
  {
    hide Exactly, InSpan, AllVerified, NoDuplicates, IsSettlement, Payable;
    sent := None;
    var window := WindowForAllProviders(store, since, until);
    match window {
      case Err(e) => return Err(ReadFailed(e)), [], None;
      case Ok(recs) =>
        rs := recs;
        WindowHasNoDuplicates(recs, store.table, since, until);
        EmptyWindow(recs, store.table, since, until);
        r, sent := Submit(sha, c, w, recs);
    }
  }

  lemma EmptyWindow(rs: seq<Receipt>, table: Table, since: int64, until: int64)
    requires Exactly(rs, table, InSpan(since, until))
    ensures rs == [] <==> forall n :: n in table ==> !InWindow(n.timestamp, since, until)
  {
    hide InWindow;
    if rs != [] { assert Stored(rs[0], table, InSpan(since, until)); }
    forall n | n in table && InWindow(n.timestamp, since, until) ensures rs != [] {
      assert InSpan(since, until)(n);
      assert table[n] in rs;
    }
  }

  lemma WindowHasNoDuplicates(rs: seq<Receipt>, table: Table, since: int64, until: int64)
    requires Exactly(rs, table, InSpan(since, until))
    ensures NoDuplicates(rs)
  {
  }

  /** The stages after the window has been read. */
  method Submit(sha: Sha, c: Crypto, w: World, rs: seq<Receipt>)
    returns (r: Result<Settled, SettleError>, ghost sent: Option<Calldata>)
    requires NoDuplicates(rs)
    ensures r == Err(NothingToSettle) <==> rs == []
    ensures sent.Some? <==> Sendable(c, w, rs)
    ensures r.Ok? <==> sent.Some? && Confirmed(w)
    ensures r.Ok? ==> r.value.count == |rs|
    ensures sent.Some? ==> exists s :: IsSettlement(sha, rs, s) && IsCalldata(w, s, sent.value)
                                       && (r.Ok? ==> r.value == Settled(s.count, ByAddress(sent.value.addrs, s.perProvider), s.total, s.root))
  {
    hide AllVerified, NoDuplicates, IsSettlement, Payable, ByAddress;
    sent := None;
    if |rs| == 0 { return Err(NothingToSettle), None; }
    var built := BuildSettlement(sha, c, rs);
    if built.Err? { return Err(BuildFailed(built.error)), None; }
    var s := built.value;
    SettlementShape(sha, rs, s);
    AllPayable(w, rs, s.providers);
    var resolved := ResolveAll(w, s.providers);
    if resolved.Err? { return Err(resolved.error), None; }
    if !w.encodes { return Err(EncodeFailed), None; }
    if !(w.nonce && w.tip && w.baseFee && w.signs && w.sends) { return Err(ChainFailed), None; }
    sent := Some(Calldata(s.root, resolved.value, s.perProvider));
    if !w.waits { return Err(ChainFailed), sent; }
    if w.status != 1 { return Err(Reverted), sent; }
    var report := AddressMap(resolved.value, s.perProvider);
    return Ok(Settled(s.count, report, s.total, s.root)), sent;
  }

  lemma SettlementShape(sha: Sha, rs: seq<Receipt>, s: Settlement)
    requires IsSettlement(sha, rs, s)
    ensures Covers(rs, s.providers) && |s.providers| == |s.perProvider| && s.count == |rs|
  {
  }
}
