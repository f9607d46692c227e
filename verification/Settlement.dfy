/** The settlement of one epoch (por/aggregator.go): a list of receipts becomes a Merkle root and the
    bytes each provider is paid for.

    `IsSettlement` says what a settlement of a list is without saying how to compute it; the main results
    are that the order of the list does not matter, that no byte is lost or invented, and that the root
    commits to the receipts.
 */
module Settlement {
  import opened Bytes
  import opened Results
  import opened Keys
  import opened Sorting
  import opened Merkle
  import opened Receipts

  datatype Settlement = Settlement(
    root: Digest, count: nat, total: uint64, providers: seq<bytes>, perProvider: seq<uint64>)

  datatype SettlementError = NoReceipts | BadSignature(index: nat, why: SigError) | Duplicate(index: nat) | BadTree

  // ---- the duplicate test ----

  /** The key of the duplicate test: provider, timestamp and nonce in decimal, between colons. */
  function SeenKey(n: Natural): bytes {
    n.provider + [COLON] + FormatInt(n.timestamp) + [COLON] + FormatInt(n.nonce)
  }

  /** Main result: the test confuses no two receipts, although a peer identifier may hold colons. */
  lemma SeenKeyInjective(m: Natural, n: Natural)
    ensures SeenKey(m) == SeenKey(n) <==> m == n
  {
    hide FormatInt;
    if SeenKey(m) == SeenKey(n) {
      FormatIntNoColon(m.timestamp);
      FormatIntNoColon(n.timestamp);
      FormatIntNoColon(m.nonce);
      FormatIntNoColon(n.nonce);
      LastColon(m.provider + [COLON] + FormatInt(m.timestamp), n.provider + [COLON] + FormatInt(n.timestamp),
                FormatInt(m.nonce), FormatInt(n.nonce));
      LastColon(m.provider, n.provider, FormatInt(m.timestamp), FormatInt(n.timestamp));
      FormatIntInjective(m.timestamp, n.timestamp);
      FormatIntInjective(m.nonce, n.nonce);
    }
  }

  ghost predicate NoDuplicates(rs: seq<Receipt>) {
    forall i, j :: 0 <= i < j < |rs| ==> NaturalOf(rs[i]) != NaturalOf(rs[j])
  }

  ghost predicate AllVerified(c: Crypto, rs: seq<Receipt>) {
    forall i :: 0 <= i < |rs| ==> VerifyBoth(c, rs[i]).Pass?
  }

  ghost predicate Acceptable(c: Crypto, rs: seq<Receipt>) {
    rs != [] && AllVerified(c, rs) && NoDuplicates(rs)
  }

  // ---- the totals ----

  function SumAll(rs: seq<Receipt>): int {
    if rs == [] then 0 else SumAll(rs[..|rs| - 1]) + rs[|rs| - 1].segmentSize
  }

  function SumFor(rs: seq<Receipt>, p: bytes): int {
    if rs == [] then 0
    else SumFor(rs[..|rs| - 1], p) + if rs[|rs| - 1].provider == p then rs[|rs| - 1].segmentSize else 0
  }

  function SumOver(rs: seq<Receipt>, ps: seq<bytes>): int {
    if ps == [] then 0 else SumOver(rs, ps[..|ps| - 1]) + SumFor(rs, ps[|ps| - 1])
  }

  function Total(xs: seq<int>): int { if xs == [] then 0 else Total(xs[..|xs| - 1]) + xs[|xs| - 1] }

  ghost predicate Covers(rs: seq<Receipt>, ps: seq<bytes>) {
    && Distinct(ps)
    && (forall p :: p in ps <==> exists i :: 0 <= i < |rs| && rs[i].provider == p)
  }

  function Leaves(sha: Sha, rs: seq<Receipt>): (ls: seq<bytes>)
    ensures |ls| == |rs| && AllDigests(ls) && forall i :: 0 <= i < |rs| ==> ls[i] == ReceiptHash(sha, rs[i])
  {
    seq<bytes>(|rs|, i requires 0 <= i < |rs| => ReceiptHash(sha, rs[i]))
  }

  function SortedLeaves(sha: Sha, rs: seq<Receipt>): (ls: seq<Digest>)
    ensures |ls| == |rs|
  {
    LeavesStayDigests(sha, rs);
    AsDigests(SortedBytes(sha, rs))
  }

  function SortedBytes(sha: Sha, rs: seq<Receipt>): seq<bytes> { Sort(Leaves(sha, rs), LexLeq) }

  lemma LeavesStayDigests(sha: Sha, rs: seq<Receipt>)
    ensures AllDigests(SortedBytes(sha, rs)) && |SortedBytes(sha, rs)| == |rs|
  {
    hide LexLeq;
    var ls := Leaves(sha, rs);
    SortMultiset(ls, LexLeq);
    var s := Sort(ls, LexLeq);
    forall i | 0 <= i < |s| ensures |s[i]| == HASH_SIZE {
      SameElements(s, ls, s[i]);
      assert s[i] in ls;
    }
  }

  /** The leaves of the settlement tree in plain terms: the hash of each receipt's signed bytes, in byte order. */
  lemma LeavesInOrder(sha: Sha, rs: seq<Receipt>)
    ensures Sorted(SortedBytes(sha, rs), LexLeq) && SortedBytes(sha, rs) == SortedLeaves(sha, rs)
    ensures exists hashes: seq<bytes> ::
              && multiset(SortedBytes(sha, rs)) == multiset(hashes) && |hashes| == |rs|
              && forall i :: 0 <= i < |rs| ==> hashes[i] == sha(CanonicalBytes(rs[i]))
  {
    hide LexLeq, CanonicalBytes;
    LeavesStayDigests(sha, rs);
    LexPreorder();
    SortSorted(Leaves(sha, rs), LexLeq);
    SortMultiset(Leaves(sha, rs), LexLeq);
  }

  /** What a settlement of `rs` is. */
  ghost predicate IsSettlement(sha: Sha, rs: seq<Receipt>, s: Settlement) {
    && rs != [] && s.count == |rs|
    && s.total == U64(SumAll(rs))
    && Sorted(s.providers, LexLeq) && Covers(rs, s.providers)
    && |s.perProvider| == |s.providers|
    && (forall i :: 0 <= i < |s.providers| ==> s.perProvider[i] == U64(SumFor(rs, s.providers[i])))
    && s.root == Root(sha, SortedLeaves(sha, rs))
  }

  // ---- the order of the receipts ----

  lemma {:induction false} SumForPermutation(rs: seq<Receipt>, qs: seq<Receipt>, p: bytes)
    requires multiset(rs) == multiset(qs)
    ensures SumFor(rs, p) == SumFor(qs, p)
    decreases |rs|
  {
    if rs == [] {
      assert |qs| == |multiset(qs)| == 0;
    } else {
      var front, last := rs[..|rs| - 1], rs[|rs| - 1];
      var i := Without(rs, qs);
      SumForPermutation(front, qs[..i] + qs[i + 1..], p);
      SumForRemove(qs, i, p);
    }
  }

  /** Where the last receipt of `rs` stands in `qs`. */
  lemma Without(rs: seq<Receipt>, qs: seq<Receipt>) returns (i: nat)
    requires rs != [] && multiset(rs) == multiset(qs)
    ensures i < |qs| && qs[i] == rs[|rs| - 1]
    ensures multiset(rs[..|rs| - 1]) == multiset(qs[..i] + qs[i + 1..])
  {
    var front, last := rs[..|rs| - 1], rs[|rs| - 1];
    assert rs == front + [last];
    SameElements(rs, qs, last);
    i :| 0 <= i < |qs| && qs[i] == last;
    assert qs == qs[..i] + [last] + qs[i + 1..];
    assert multiset(front) == multiset(rs) - multiset{last};
  }

  lemma {:induction false} SumForRemove(qs: seq<Receipt>, i: nat, p: bytes)
    requires i < |qs|
    ensures SumFor(qs, p) == SumFor(qs[..i] + qs[i + 1..], p) + if qs[i].provider == p then qs[i].segmentSize else 0
    decreases |qs|
  {
    var front, last := qs[..|qs| - 1], qs[|qs| - 1];
    if i == |qs| - 1 {
      assert qs[..i] + qs[i + 1..] == front;
    } else {
      SumForRemove(front, i, p);
      var r := qs[..i] + qs[i + 1..];
      assert front[..i] + front[i + 1..] == r[..|r| - 1] && r[|r| - 1] == last;
    }
  }

  lemma {:induction false} SumOverNone(ps: seq<bytes>)
    ensures SumOver([], ps) == 0
  {
    if ps != [] { SumOverNone(ps[..|ps| - 1]); }
  }

  lemma {:induction false} SumOverLast(rs: seq<Receipt>, ps: seq<bytes>)
    requires rs != [] && Distinct(ps)
    ensures var last := rs[|rs| - 1];
            SumOver(rs, ps) == SumOver(rs[..|rs| - 1], ps) + if last.provider in ps then last.segmentSize else 0
  {
    if ps != [] {
      var front, p := ps[..|ps| - 1], ps[|ps| - 1];
      SumOverLast(rs, front);
      assert ps == front + [p];
      assert p !in front;
    }
  }

  /** Main result: the providers' shares add up to all the bytes served. */
  lemma {:induction false} SharesAddUp(rs: seq<Receipt>, ps: seq<bytes>)
    requires Distinct(ps) && forall i :: 0 <= i < |rs| ==> rs[i].provider in ps
    ensures SumOver(rs, ps) == SumAll(rs)
  {
    hide SumOver;
    if rs == [] {
      SumOverNone(ps);
    } else {
      SharesAddUp(rs[..|rs| - 1], ps);
      SumOverLast(rs, ps);
    }
  }

  lemma {:induction false} SumAllPermutation(rs: seq<Receipt>, qs: seq<Receipt>)
    requires multiset(rs) == multiset(qs)
    ensures SumAll(rs) == SumAll(qs)
    decreases |rs|
  {
    if rs == [] {
      assert |qs| == |multiset(qs)| == 0;
    } else {
      var i := Without(rs, qs);
      SumAllPermutation(rs[..|rs| - 1], qs[..i] + qs[i + 1..]);
      SumAllRemove(qs, i);
    }
  }

  lemma {:induction false} SumAllRemove(qs: seq<Receipt>, i: nat)
    requires i < |qs|
    ensures SumAll(qs) == SumAll(qs[..i] + qs[i + 1..]) + qs[i].segmentSize
    decreases |qs|
  {
    var front, last := qs[..|qs| - 1], qs[|qs| - 1];
    if i == |qs| - 1 {
      assert qs[..i] + qs[i + 1..] == front;
    } else {
      SumAllRemove(front, i);
      var r := qs[..i] + qs[i + 1..];
      assert front[..i] + front[i + 1..] == r[..|r| - 1] && r[|r| - 1] == last;
    }
  }

  lemma {:induction false} LeavesPermutation(sha: Sha, rs: seq<Receipt>, qs: seq<Receipt>)
    requires multiset(rs) == multiset(qs)
    ensures multiset(Leaves(sha, rs)) == multiset(Leaves(sha, qs))
    decreases |rs|
  {
    if rs == [] {
      assert |qs| == |multiset(qs)| == 0;
    } else {
      var front, last := rs[..|rs| - 1], rs[|rs| - 1];
      var i := Without(rs, qs);
      var rest := qs[..i] + qs[i + 1..];
      LeavesPermutation(sha, front, rest);
      LeavesLast(sha, rs);
      LeavesRemove(sha, qs, i);
      hide Leaves, ReceiptHash;
    }
  }

  function HashOf(sha: Sha, r: Receipt): seq<bytes> { [ReceiptHash(sha, r)] }

  lemma LeavesLast(sha: Sha, rs: seq<Receipt>)
    requires rs != []
    ensures multiset(Leaves(sha, rs)) ==
              multiset(Leaves(sha, rs[..|rs| - 1])) + multiset(HashOf(sha, rs[|rs| - 1]))
  {
    hide ReceiptHash;
    var d: bytes := ReceiptHash(sha, rs[|rs| - 1]);
    assert Leaves(sha, rs) == Leaves(sha, rs[..|rs| - 1]) + [d];
  }

  lemma LeavesRemove(sha: Sha, qs: seq<Receipt>, i: nat)
    requires i < |qs|
    ensures multiset(Leaves(sha, qs)) ==
              multiset(Leaves(sha, qs[..i] + qs[i + 1..])) + multiset(HashOf(sha, qs[i]))
  {
    hide ReceiptHash;
    var l, d: bytes := Leaves(sha, qs), ReceiptHash(sha, qs[i]);
    assert Leaves(sha, qs[..i] + qs[i + 1..]) == l[..i] + l[i + 1..];
    assert l == l[..i] + [d] + l[i + 1..];
  }

  lemma SortedLeavesPermutation(sha: Sha, rs: seq<Receipt>, qs: seq<Receipt>)
    requires multiset(rs) == multiset(qs)
    ensures SortedLeaves(sha, rs) == SortedLeaves(sha, qs)
  {
    hide AsDigests, SortedBytes, AllDigests;
    SortedBytesPermutation(sha, rs, qs);
  }

  lemma SortedBytesPermutation(sha: Sha, rs: seq<Receipt>, qs: seq<Receipt>)
    requires multiset(rs) == multiset(qs)
    ensures SortedBytes(sha, rs) == SortedBytes(sha, qs)
  {
    hide LexLeq, Leaves, Sort, Insert, Preorder, NoTies;
    LexPreorder();
    LexNoTies(Leaves(sha, rs));
    LeavesPermutation(sha, rs, qs);
    SortPermutation(Leaves(sha, rs), Leaves(sha, qs), LexLeq);
  }

  lemma SameProviders(rs: seq<Receipt>, qs: seq<Receipt>, ps: seq<bytes>, os: seq<bytes>)
    requires multiset(rs) == multiset(qs) && Covers(rs, ps) && Covers(qs, os)
    requires Sorted(ps, LexLeq) && Sorted(os, LexLeq)
    ensures ps == os
  {
    hide LexLeq;
    forall p ensures p in ps <==> p in os {
      if p in ps {
        var i :| 0 <= i < |rs| && rs[i].provider == p;
        SameElements(rs, qs, rs[i]);
        var k :| 0 <= k < |qs| && qs[k] == rs[i];
      }
      if p in os {
        var i :| 0 <= i < |qs| && qs[i].provider == p;
        SameElements(rs, qs, qs[i]);
        var k :| 0 <= k < |rs| && rs[k] == qs[i];
      }
    }
    SameMembersSameMultiset(ps, os);
    LexPreorder();
    SortedUnique(ps, os, LexLeq);
  }

  /** Main result: whatever order the receipts come in, they have one settlement. */
  lemma SettlementUnique(sha: Sha, rs: seq<Receipt>, qs: seq<Receipt>, s: Settlement, t: Settlement)
    requires multiset(rs) == multiset(qs) && IsSettlement(sha, rs, s) && IsSettlement(sha, qs, t)
    ensures s == t
  {
    hide LexLeq, SortedLeaves, SumFor, SumAll, Covers, U64, Root;
    assert |rs| == |multiset(rs)| == |multiset(qs)| == |qs|;
    SumAllPermutation(rs, qs);
    SameProviders(rs, qs, s.providers, t.providers);
    SortedLeavesPermutation(sha, rs, qs);
    forall i | 0 <= i < |s.providers| ensures s.perProvider[i] == t.perProvider[i] {
      SumForPermutation(rs, qs, s.providers[i]);
    }
  }

  /** Success does not depend on the order either. */
  lemma AcceptablePermutation(c: Crypto, rs: seq<Receipt>, qs: seq<Receipt>)
    requires multiset(rs) == multiset(qs) && Acceptable(c, rs)
    ensures Acceptable(c, qs)
  {
    hide VerifyBoth;
    assert |rs| == |multiset(rs)| == |multiset(qs)| == |qs|;
    forall i | 0 <= i < |qs| ensures VerifyBoth(c, qs[i]).Pass? {
      SameElements(rs, qs, qs[i]);
      var k :| 0 <= k < |rs| && rs[k] == qs[i];
    }
    DistinctReceipts(rs);
    DistinctPermutation(rs, qs);
    forall i, j | 0 <= i < j < |qs| ensures NaturalOf(qs[i]) != NaturalOf(qs[j]) {
      SameElements(rs, qs, qs[i]);
      SameElements(rs, qs, qs[j]);
      var a :| 0 <= a < |rs| && rs[a] == qs[i];
      var b :| 0 <= b < |rs| && rs[b] == qs[j];
      assert a != b;
    }
  }

  lemma DistinctReceipts(rs: seq<Receipt>)
    requires NoDuplicates(rs)
    ensures Distinct(rs)
  {
    forall i, j | 0 <= i < j < |rs| ensures rs[i] != rs[j] {
      assert NaturalOf(rs[i]) != NaturalOf(rs[j]);
    }
  }

  // ---- conservation ----

  lemma {:induction false} SharesModulo(rs: seq<Receipt>, ps: seq<bytes>, xs: seq<uint64>)
    requires |xs| == |ps| && forall i :: 0 <= i < |ps| ==> xs[i] == U64(SumFor(rs, ps[i]))
    ensures U64(Total(xs)) == U64(SumOver(rs, ps))
  {
    hide SumFor, U64;
    if ps != [] {
      var n := |ps| - 1;
      SharesModulo(rs, ps[..n], xs[..n]);
      assert xs[n] == U64(SumFor(rs, ps[n]));
      AddModulo(Total(xs[..n]), SumOver(rs, ps[..n]), SumFor(rs, ps[n]));
    }
  }

  lemma AddModulo(a: int, b: int, x: int)
    requires U64(a) == U64(b)
    ensures U64(a + U64(x)) == U64(b + x)
  {
    var p, q, r := a / TWO64, b / TWO64, x / TWO64;
    assert a - b == (p - q) * TWO64 && x - U64(x) == r * TWO64;
    assert a + U64(x) == b + x + (p - q - r) * TWO64;
    Periodic(b + x, p - q - r);
  }

  lemma Periodic(x: int, k: int)
    ensures U64(x + k * TWO64) == U64(x)
  {
  }

  predicate NonNegative(rs: seq<Receipt>) { forall i :: 0 <= i < |rs| ==> rs[i].segmentSize >= 0 }

  lemma {:induction false} SumForBound(rs: seq<Receipt>, p: bytes)
    requires NonNegative(rs)
    ensures 0 <= SumFor(rs, p) <= SumAll(rs)
  {
    if rs != [] { SumForBound(rs[..|rs| - 1], p); }
  }

  lemma {:induction false} SharesExact(rs: seq<Receipt>, ps: seq<bytes>, xs: seq<uint64>)
    requires NonNegative(rs) && SumAll(rs) < TWO64
    requires |xs| == |ps| && forall i :: 0 <= i < |ps| ==> xs[i] == U64(SumFor(rs, ps[i]))
    ensures Total(xs) == SumOver(rs, ps)
    ensures forall i :: 0 <= i < |ps| ==> xs[i] == SumFor(rs, ps[i])
  {
    hide SumFor, U64, SumAll;
    if ps != [] {
      var n := |ps| - 1;
      SharesExact(rs, ps[..n], xs[..n]);
      SumForBound(rs, ps[n]);
      NoWrap(SumFor(rs, ps[n]));
      forall i | 0 <= i < n ensures xs[i] == SumFor(rs, ps[i]) { assert xs[..n][i] == SumFor(rs, ps[..n][i]); }
    }
  }

  /** Main result: the bytes paid out are the bytes served, up to the wrap of 64 bits; and exactly, share by
      share, when no size is negative and the sum fits. */
  lemma Conserved(sha: Sha, rs: seq<Receipt>, s: Settlement)
    requires IsSettlement(sha, rs, s)
    ensures U64(Total(s.perProvider)) == s.total == U64(SumAll(rs))
    ensures NonNegative(rs) && SumAll(rs) < TWO64 ==>
              && Total(s.perProvider) == s.total == SumAll(rs)
              && (forall i :: 0 <= i < |s.providers| ==> s.perProvider[i] == SumFor(rs, s.providers[i]))
  {
    hide SumFor, SumAll, SumOver, U64, Total, SortedLeaves, LexLeq, Root;
    var ps := s.providers;
    forall i | 0 <= i < |rs| ensures rs[i].provider in ps {}
    SharesAddUp(rs, ps);
    SharesModulo(rs, ps, s.perProvider);
    if NonNegative(rs) && SumAll(rs) < TWO64 {
      SharesExact(rs, ps, s.perProvider);
      SumForBound(rs, []);
      NoWrap(SumAll(rs));
    }
  }

  // ---- what the root commits to ----

  /** Everything hashed on the way from the receipts to the root. */
  ghost function Hashed(sha: Sha, rs: seq<Receipt>): set<bytes>
    requires rs != []
  {
    Inputs(sha, TreeOf(SortedLeaves(sha, rs))) + set r | r in rs :: CanonicalBytes(r)
  }

  /** Main result: two settlements with one root and one count are over the same signed receipts, or two
      different inputs that collide are found among what was hashed. */
  lemma RootCommits(sha: Sha, rs: seq<Receipt>, qs: seq<Receipt>, s: Settlement, t: Settlement, r: Receipt)
    requires IsSettlement(sha, rs, s) && IsSettlement(sha, qs, t) && s.root == t.root && s.count == t.count
    requires forall q :: q in rs + qs ==> Sized(q)
    requires r in rs
    ensures (exists q :: q in qs && SameSigned(q, r)) || Collision(sha, Hashed(sha, rs), Hashed(sha, qs))
  {
    hide SortedLeaves, Root, LexLeq, SumAll, SumFor, Covers, CanonicalBytes, Sized, SameSigned;
    var xs, ys := SortedLeaves(sha, rs), SortedLeaves(sha, qs);
    RootBindsLeaves(sha, xs, ys);
    if xs == ys {
      LeafOf(sha, rs, r);
      var q := FindLeaf(sha, qs, ReceiptHash(sha, r));
      assert r in rs + qs && q in rs + qs;
      HashBindsReceipt(sha, q, r);
      if !SameSigned(q, r) { CollisionTurned(sha, rs, qs, r, q); }
    } else {
      CollisionMonotone(sha, Inputs(sha, TreeOf(xs)), Inputs(sha, TreeOf(ys)), Hashed(sha, rs), Hashed(sha, qs));
    }
  }

  /** What was signed, receipt by receipt. */
  function SignedBytes(rs: seq<Receipt>): (b: seq<bytes>)
    ensures |b| == |rs|
  {
    seq<bytes>(|rs|, i requires 0 <= i < |rs| => CanonicalBytes(rs[i]))
  }

  function Images(sha: Sha, xs: seq<bytes>): (r: seq<bytes>)
    ensures |r| == |xs|
  {
    seq<bytes>(|xs|, i requires 0 <= i < |xs| => sha(xs[i]))
  }

  /** No two different strings, one from each list, have one hash. */
  ghost predicate HashedApart(sha: Sha, xs: seq<bytes>, ys: seq<bytes>) {
    forall a, b :: a in xs && b in ys && sha(a) == sha(b) ==> a == b
  }

  lemma RemoveAt<T>(s: seq<T>, i: nat)
    requires i < |s|
    ensures multiset(s[..i] + s[i + 1..]) == multiset(s) - multiset{s[i]}
    ensures multiset(s) == multiset(s[..i] + s[i + 1..]) + multiset{s[i]}
  {
    assert s == s[..i] + [s[i]] + s[i + 1..];
  }

  lemma {:induction false} ImagesBind(sha: Sha, xs: seq<bytes>, ys: seq<bytes>)
    requires multiset(Images(sha, xs)) == multiset(Images(sha, ys)) && HashedApart(sha, xs, ys)
    ensures multiset(xs) == multiset(ys)
    decreases |xs|
  {
    if xs == [] {
      assert |ys| == |multiset(Images(sha, ys))| == 0;
    } else {
      var n := |xs| - 1;
      var i := ImageAt(sha, xs, ys);
      var front, rest := xs[..n], ys[..i] + ys[i + 1..];
      assert xs[..n] + xs[n + 1..] == front;
      assert Images(sha, xs)[..n] + Images(sha, xs)[n + 1..] == Images(sha, front);
      assert Images(sha, ys)[..i] + Images(sha, ys)[i + 1..] == Images(sha, rest);
      RemoveAt(Images(sha, xs), n);
      RemoveAt(Images(sha, ys), i);
      RemoveAt(xs, n);
      RemoveAt(ys, i);
      hide Images;
      ImagesBind(sha, front, rest);
    }
  }

  /** Where the last of `xs` stands in `ys`. */
  lemma ImageAt(sha: Sha, xs: seq<bytes>, ys: seq<bytes>) returns (i: nat)
    requires xs != [] && multiset(Images(sha, xs)) == multiset(Images(sha, ys)) && HashedApart(sha, xs, ys)
    ensures i < |ys| && ys[i] == xs[|xs| - 1]
  {
    var x := xs[|xs| - 1];
    var d := Images(sha, xs)[|xs| - 1];
    assert d in Images(sha, xs);
    SameElements(Images(sha, xs), Images(sha, ys), d);
    i :| 0 <= i < |ys| && Images(sha, ys)[i] == d;
    assert x in xs && ys[i] in ys;
  }

  lemma LeavesAreImages(sha: Sha, rs: seq<Receipt>)
    ensures Leaves(sha, rs) == Images(sha, SignedBytes(rs))
  {
  }

  lemma SameLeafMultiset(sha: Sha, rs: seq<Receipt>, qs: seq<Receipt>)
    requires SortedLeaves(sha, rs) == SortedLeaves(sha, qs)
    ensures multiset(Leaves(sha, rs)) == multiset(Leaves(sha, qs))
  {
    hide LexLeq, Sort, Leaves;
    LeavesStayDigests(sha, rs);
    LeavesStayDigests(sha, qs);
    SortMultiset(Leaves(sha, rs), LexLeq);
    SortMultiset(Leaves(sha, qs), LexLeq);
    assert SortedBytes(sha, rs) == SortedBytes(sha, qs) by {
      forall i | 0 <= i < |rs| ensures SortedBytes(sha, rs)[i] == SortedBytes(sha, qs)[i] {
        assert SortedLeaves(sha, rs)[i] == SortedLeaves(sha, qs)[i];
      }
    }
  }

  /** Main result, with multiplicity: two settlements with one root and one count are over the same signed
      strings, each as often, or a collision is found among what was hashed. */
  lemma RootCommitsAll(sha: Sha, rs: seq<Receipt>, qs: seq<Receipt>, s: Settlement, t: Settlement)
    requires IsSettlement(sha, rs, s) && IsSettlement(sha, qs, t) && s.root == t.root && s.count == t.count
    ensures multiset(SignedBytes(rs)) == multiset(SignedBytes(qs)) || Collision(sha, Hashed(sha, rs), Hashed(sha, qs))
  {
    hide SortedLeaves, Root, LexLeq, SumAll, SumFor, Covers, CanonicalBytes, Images, Leaves, SignedBytes;
    var xs, ys := SortedLeaves(sha, rs), SortedLeaves(sha, qs);
    RootBindsLeaves(sha, xs, ys);
    if xs != ys {
      CollisionMonotone(sha, Inputs(sha, TreeOf(xs)), Inputs(sha, TreeOf(ys)), Hashed(sha, rs), Hashed(sha, qs));
    } else if HashedApart(sha, SignedBytes(rs), SignedBytes(qs)) {
      SameLeafMultiset(sha, rs, qs);
      LeavesAreImages(sha, rs);
      LeavesAreImages(sha, qs);
      ImagesBind(sha, SignedBytes(rs), SignedBytes(qs));
    } else {
      NotApart(sha, rs, qs);
    }
  }

  lemma NotApart(sha: Sha, rs: seq<Receipt>, qs: seq<Receipt>)
    requires rs != [] && qs != [] && !HashedApart(sha, SignedBytes(rs), SignedBytes(qs))
    ensures Collision(sha, Hashed(sha, rs), Hashed(sha, qs))
  {
    hide CanonicalBytes, SortedLeaves;
    var a, b :| a in SignedBytes(rs) && b in SignedBytes(qs) && sha(a) == sha(b) && a != b;
    var i :| 0 <= i < |rs| && SignedBytes(rs)[i] == a;
    var k :| 0 <= k < |qs| && SignedBytes(qs)[k] == b;
    assert rs[i] in rs && qs[k] in qs;
    assert a in Hashed(sha, rs) && b in Hashed(sha, qs);
  }

  // ---- the root alone ----

  /** As long as two digests: what is hashed for such a receipt could be an inner node of another tree. */
  predicate NodeSized(r: Receipt) { |CanonicalBytes(r)| == 2 * HASH_SIZE }

  /** Only texts of twenty bytes together make it so. */
  lemma NodeSizedExactly(r: Receipt)
    ensures NodeSized(r) <==> |r.provider| + |r.viewer| + |r.cid| == 20
  {
    hide BE;
  }

  /** A list whose leaves hold one digest twice has two receipts with one hash, hence a collision. */
  lemma RepeatedLeaf(sha: Sha, rs: seq<Receipt>, i: nat, j: nat)
    requires NoDuplicates(rs) && forall r :: r in rs ==> Sized(r)
    requires i < j < |rs| && SortedLeaves(sha, rs)[i] == SortedLeaves(sha, rs)[j]
    ensures Collision(sha, Hashed(sha, rs), Hashed(sha, rs))
  {
    var d := SortedBytes(sha, rs)[i];
    LeavesStayDigests(sha, rs);
    assert d == SortedBytes(sha, rs)[j];
    TwiceCounted(SortedBytes(sha, rs), i, j);
    SortMultiset(Leaves(sha, rs), LexLeq);
    hide LexLeq, Sort, CanonicalBytes, Sized, SortedLeaves;
    var a, b := CountedTwice(Leaves(sha, rs), d);
    var x, y := CanonicalBytes(rs[a]), CanonicalBytes(rs[b]);
    assert rs[a] in rs && rs[b] in rs && NaturalOf(rs[a]) != NaturalOf(rs[b]);
    if x == y { CanonicalBytesDetermine(rs[a], rs[b]); }
    assert x in Hashed(sha, rs) && y in Hashed(sha, rs) && sha(x) == sha(y);
  }

  lemma TwiceCounted<T>(s: seq<T>, i: nat, j: nat)
    requires i < j < |s| && s[i] == s[j]
    ensures multiset(s)[s[i]] >= 2
  {
    assert s == s[..j] + s[j..];
    assert s[..j][i] == s[i] && s[j..][0] == s[j];
    assert s[i] in s[..j] && s[j] in s[j..];
  }

  lemma {:induction false} CountedTwice<T>(s: seq<T>, d: T) returns (a: nat, b: nat)
    requires multiset(s)[d] >= 2
    ensures a < b < |s| && s[a] == s[b] == d
  {
    if s == [] {
      assert false;
    }
    var n := |s| - 1;
    assert s == s[..n] + [s[n]];
    if s[n] == d {
      b := n;
      assert d in multiset(s[..n]);
      a :| 0 <= a < n && s[..n][a] == d;
    } else {
      a, b := CountedTwice(s[..n], d);
    }
  }

  /** Equal trees of lists of receipts: equal lists of leaves. */
  lemma SameTree(sha: Sha, rs: seq<Receipt>, qs: seq<Receipt>)
    requires rs != [] && qs != [] && TreeOf(SortedLeaves(sha, rs)) == TreeOf(SortedLeaves(sha, qs))
    requires NoDuplicates(rs) && NoDuplicates(qs) && forall r :: r in rs + qs ==> Sized(r)
    ensures || |rs| == |qs|
            || Collision(sha, Hashed(sha, rs), Hashed(sha, rs))
            || Collision(sha, Hashed(sha, qs), Hashed(sha, qs))
  {
    hide SortedLeaves, TreeOf, Placed, Sized, NoDuplicates, Hashed;
    var xs, ys := SortedLeaves(sha, rs), SortedLeaves(sha, qs);
    if |rs| < |qs| {
      LongerRepeats(xs, ys);
      RepeatedLeaf(sha, qs, Placed(|xs|, |xs|), |xs|);
    } else if |qs| < |rs| {
      LongerRepeats(ys, xs);
      RepeatedLeaf(sha, rs, Placed(|ys|, |ys|), |ys|);
    }
  }

  /** A receipt whose hash is also that of an inner node: a collision, unless it is as long as one. */
  lemma LeafIsNode(sha: Sha, rs: seq<Receipt>, qs: seq<Receipt>, k: nat)
    requires rs != [] && qs != [] && 0 < k < |Levels(sha, SortedLeaves(sha, rs))|
    requires var l := Levels(sha, SortedLeaves(sha, rs))[k]; l != [] && TreeOf(l) == TreeOf(SortedLeaves(sha, qs))
    requires forall q :: q in qs ==> !NodeSized(q)
    ensures Collision(sha, Hashed(sha, rs), Hashed(sha, qs))
  {
    hide SortedLeaves, Levels, TreeOf, CanonicalBytes, Inputs;
    var xs, ys := SortedLeaves(sha, rs), SortedLeaves(sha, qs);
    LevelIsTree(sha, xs, k);
    var b := NodeAsLeaf(sha, xs, k, ys);
    var q := FindLeaf(sha, qs, ys[0]);
    assert b in Hashed(sha, rs) && CanonicalBytes(q) in Hashed(sha, qs);
  }

  /** A collision among all that was hashed for two settlements. */
  ghost predicate Collides(sha: Sha, rs: seq<Receipt>, qs: seq<Receipt>)
    requires rs != [] && qs != []
  {
    Collision(sha, Hashed(sha, rs) + Hashed(sha, qs), Hashed(sha, rs) + Hashed(sha, qs))
  }

  lemma CollidesFrom(sha: Sha, rs: seq<Receipt>, qs: seq<Receipt>, A: set<bytes>, B: set<bytes>)
    requires rs != [] && qs != [] && Collision(sha, A, B)
    requires A <= Hashed(sha, rs) + Hashed(sha, qs) && B <= Hashed(sha, rs) + Hashed(sha, qs)
    ensures Collides(sha, rs, qs)
  {
    CollisionMonotone(sha, A, B, Hashed(sha, rs) + Hashed(sha, qs), Hashed(sha, rs) + Hashed(sha, qs));
  }

  lemma RootFixesCount(sha: Sha, rs: seq<Receipt>, qs: seq<Receipt>)
    requires rs != [] && qs != [] && Root(sha, SortedLeaves(sha, rs)) == Root(sha, SortedLeaves(sha, qs))
    requires NoDuplicates(rs) && NoDuplicates(qs) && forall r :: r in rs + qs ==> Sized(r) && !NodeSized(r)
    requires |Levels(sha, SortedLeaves(sha, rs))| >= |Levels(sha, SortedLeaves(sha, qs))|
    ensures |rs| == |qs| || Collides(sha, rs, qs)
  {
    hide SortedLeaves, Root, Levels, TreeOf, Inputs, NoDuplicates, Sized, NodeSized, CanonicalBytes, Collision, Collides;
    var xs, ys := SortedLeaves(sha, rs), SortedLeaves(sha, qs);
    var k := |Levels(sha, xs)| - |Levels(sha, ys)|;
    var l := Levels(sha, xs)[k];
    RootBinds(sha, xs, ys);
    var A, B := Hashed(sha, rs), Hashed(sha, qs);
    if TreeOf(l) != TreeOf(ys) {
      CollidesFrom(sha, rs, qs, Inputs(sha, TreeOf(l)), Inputs(sha, TreeOf(ys)));
    } else if k > 0 {
      LeafIsNode(sha, rs, qs, k);
      CollidesFrom(sha, rs, qs, A, B);
    } else {
      SameTree(sha, rs, qs);
      if Collision(sha, A, A) {
        CollidesFrom(sha, rs, qs, A, A);
      } else if Collision(sha, B, B) {
        CollidesFrom(sha, rs, qs, B, B);
      }
    }
  }

  /** Main result: the calldata carries no count, and needs none.  Two settlements with one root, over
      receipts none of which is as long as an inner node, are over the same signed strings, each as often, or
      a collision is found among what was hashed. */
  lemma RootAloneCommits(sha: Sha, rs: seq<Receipt>, qs: seq<Receipt>, s: Settlement, t: Settlement)
    requires IsSettlement(sha, rs, s) && IsSettlement(sha, qs, t) && s.root == t.root
    requires NoDuplicates(rs) && NoDuplicates(qs) && forall r :: r in rs + qs ==> Sized(r) && !NodeSized(r)
    ensures (s.count == t.count && multiset(SignedBytes(rs)) == multiset(SignedBytes(qs))) || Collides(sha, rs, qs)
  {
    hide SortedLeaves, Root, Levels, LexLeq, SumAll, SumFor, Covers, CanonicalBytes, NoDuplicates, Sized, NodeSized,
         Collision, Collides, Hashed, SignedBytes;
    if |Levels(sha, SortedLeaves(sha, rs))| >= |Levels(sha, SortedLeaves(sha, qs))| {
      RootFixesCount(sha, rs, qs);
    } else {
      RootFixesCount(sha, qs, rs);
      CollidesTurned(sha, qs, rs);
    }
    if s.count == t.count {
      RootCommitsAll(sha, rs, qs, s, t);
      if multiset(SignedBytes(rs)) != multiset(SignedBytes(qs)) {
        CollidesFrom(sha, rs, qs, Hashed(sha, rs), Hashed(sha, qs));
      }
    }
  }

  lemma CollidesTurned(sha: Sha, rs: seq<Receipt>, qs: seq<Receipt>)
    requires rs != [] && qs != []
    ensures Collides(sha, rs, qs) <==> Collides(sha, qs, rs)
  {
    hide Hashed, Collision;
    assert Hashed(sha, rs) + Hashed(sha, qs) == Hashed(sha, qs) + Hashed(sha, rs);
  }

  function Beside(left: bytes, right: bytes): bytes { left + right }

  /** The length is what saves it: a receipt whose signed string is the two leaves of a settlement of two, side
      by side, is alone settled under the same root, with no collision. */
  lemma NodeReceiptSharesRoot(sha: Sha, rs: seq<Receipt>, q: Receipt)
    requires |rs| == 2 && CanonicalBytes(q) == Beside(SortedLeaves(sha, rs)[0], SortedLeaves(sha, rs)[1])
    ensures NodeSized(q) && Root(sha, SortedLeaves(sha, [q])) == Root(sha, SortedLeaves(sha, rs))
  {
    hide CanonicalBytes, SortedLeaves, Root, NextLevel;
    var xs, ys := SortedLeaves(sha, rs), SortedLeaves(sha, [q]);
    OneLeaf(sha, q);
    LevelOfTwo(sha, xs);
    InnerLevelSharesRoot(sha, xs);
    assert ys == NextLevel(sha, xs);
  }

  lemma OneLeaf(sha: Sha, q: Receipt)
    ensures SortedLeaves(sha, [q])[0] == sha(CanonicalBytes(q))
  {
    hide SortedLeaves, CanonicalBytes;
    LeafOf(sha, [q], q);
    var ys := SortedLeaves(sha, [q]);
    var i :| 0 <= i < |ys| && ys[i] == ReceiptHash(sha, q);
    assert i == 0;
  }

  lemma LevelOfTwo(sha: Sha, xs: seq<Digest>)
    requires |xs| == 2
    ensures |NextLevel(sha, xs)| == 1 && NextLevel(sha, xs)[0] == sha(Beside(xs[0], xs[1]))
  {
    assert NextLevel(sha, xs)[0] == Parent(sha, xs[0], xs[Sibling(2, 0)]);
  }

  lemma CollisionTurned(sha: Sha, rs: seq<Receipt>, qs: seq<Receipt>, r: Receipt, q: Receipt)
    requires r in rs && q in qs && Collision(sha, {CanonicalBytes(q)}, {CanonicalBytes(r)})
    ensures Collision(sha, Hashed(sha, rs), Hashed(sha, qs))
  {
    hide CanonicalBytes, SortedLeaves;
    var a, b := CanonicalBytes(r), CanonicalBytes(q);
    assert a in Hashed(sha, rs) && b in Hashed(sha, qs);
  }

  lemma LeafOf(sha: Sha, rs: seq<Receipt>, r: Receipt)
    requires r in rs
    ensures ReceiptHash(sha, r) in SortedLeaves(sha, rs)
  {
    hide LexLeq, Sort, ReceiptHash;
    var ls := Leaves(sha, rs);
    var i :| 0 <= i < |rs| && rs[i] == r;
    assert ls[i] in ls;
    SortMultiset(ls, LexLeq);
    SameElements(ls, SortedBytes(sha, rs), ls[i]);
    var k :| 0 <= k < |SortedBytes(sha, rs)| && SortedBytes(sha, rs)[k] == ls[i];
    assert SortedLeaves(sha, rs)[k] == ls[i];
  }

  lemma FindLeaf(sha: Sha, rs: seq<Receipt>, d: Digest) returns (r: Receipt)
    requires d in SortedLeaves(sha, rs)
    ensures r in rs && ReceiptHash(sha, r) == d
  {
    hide LexLeq, Sort, ReceiptHash;
    var ls := Leaves(sha, rs);
    var k :| 0 <= k < |SortedLeaves(sha, rs)| && SortedLeaves(sha, rs)[k] == d;
    SortMultiset(ls, LexLeq);
    assert SortedBytes(sha, rs)[k] == d;
    SameElements(ls, SortedBytes(sha, rs), d);
    var i :| 0 <= i < |ls| && ls[i] == d;
    r := rs[i];
  }

  // ---- the code ----

  /** The byte comparison used for the leaves is the lexicographic order. */
  method CompareBytes(a: bytes, b: bytes) returns (c: int)
    ensures c <= 0 <==> LexLeq(a, b)
    ensures c == 0 <==> a == b
  {
    var n := if |a| < |b| then |a| else |b|;
    var i := 0;
    while i < n
      invariant 0 <= i <= n
      invariant a[..i] == b[..i]
    {
      LexFrom(a, b, i);
      if a[i] != b[i] { return a[i] as int - b[i] as int; }
      assert a[..i + 1] == a[..i] + [a[i]] && b[..i + 1] == b[..i] + [b[i]];
      i := i + 1;
    }
    LexFrom(a, b, n);
    assert a[..n] == b[..n];
    if |a| < |b| { return -1; }
    if |a| > |b| { return 1; }
    assert a[..n] == a && b[..n] == b;
    return 0;
  }

  lemma LexFrom(a: bytes, b: bytes, i: nat)
    requires i <= |a| && i <= |b| && a[..i] == b[..i]
    ensures LexLeq(a, b) <==> LexLeq(a[i..], b[i..])
  {
    hide LexLeq;
    LexPrefix(a[..i], a[i..], b[i..]);
    assert a == a[..i] + a[i..] && b == b[..i] + b[i..];
  }

  method Validate(c: Crypto, rs: seq<Receipt>) returns (r: Outcome<SettlementError>)
    ensures r.Pass? <==> AllVerified(c, rs) && NoDuplicates(rs)
    ensures r.Fail? ==> r.error.BadSignature? || r.error.Duplicate?
    ensures r.Fail? && r.error.BadSignature? ==>
              && r.error.index < |rs| && VerifyBoth(c, rs[r.error.index]) == Fail(r.error.why)
              && AllVerified(c, rs[..r.error.index]) && NoDuplicates(rs[..r.error.index])
    ensures r.Fail? && r.error.Duplicate? ==>
              && r.error.index < |rs| && VerifyBoth(c, rs[r.error.index]).Pass?
              && AllVerified(c, rs[..r.error.index]) && NoDuplicates(rs[..r.error.index])
              && exists j :: 0 <= j < r.error.index && NaturalOf(rs[j]) == NaturalOf(rs[r.error.index])
  {
    hide VerifyBoth, SeenKey;
    var seen: set<bytes> := {};
    for i := 0 to |rs|
      invariant AllVerified(c, rs[..i]) && NoDuplicates(rs[..i])
      invariant forall k :: k in seen <==> exists j :: 0 <= j < i && SeenKey(NaturalOf(rs[j])) == k
    {
      var v := VerifyBoth(c, rs[i]);
      if v.Fail? { return Fail(BadSignature(i, v.error)); }
      var key := SeenKey(NaturalOf(rs[i]));
      if key in seen {
        var j :| 0 <= j < i && SeenKey(NaturalOf(rs[j])) == key;
        SeenKeyInjective(NaturalOf(rs[j]), NaturalOf(rs[i]));
        return Fail(Duplicate(i));
      }
      forall j | 0 <= j < i ensures NaturalOf(rs[j]) != NaturalOf(rs[i]) {
        assert SeenKey(NaturalOf(rs[j])) in seen;
      }
      seen := seen + {key};
    }
    assert rs[..|rs|] == rs;
    return Pass;
  }

  ghost predicate Totals(rs: seq<Receipt>, per: map<bytes, uint64>) {
    && (forall p :: p in per <==> exists i :: 0 <= i < |rs| && rs[i].provider == p)
    && (forall p :: p in per ==> per[p] == U64(SumFor(rs, p)))
  }

  lemma {:induction false} SumForAbsent(rs: seq<Receipt>, p: bytes)
    requires forall i :: 0 <= i < |rs| ==> rs[i].provider != p
    ensures SumFor(rs, p) == 0
  {
    if rs != [] { SumForAbsent(rs[..|rs| - 1], p); }
  }

  lemma TotalsStep(rs: seq<Receipt>, per: map<bytes, uint64>, r: Receipt)
    requires Totals(rs, per)
    ensures var before := if r.provider in per then per[r.provider] else 0;
            Totals(rs + [r], per[r.provider := U64(before + U64(r.segmentSize))])
  {
    hide U64;
    var qs := rs + [r];
    assert qs[..|rs|] == rs;
    var before := if r.provider in per then per[r.provider] else 0;
    if r.provider !in per { SumForAbsent(rs, r.provider); }
    NoWrap(0);
    WrapTwice(SumFor(rs, r.provider));
    AddModulo(before, SumFor(rs, r.provider), r.segmentSize);
    forall p ensures (exists i :: 0 <= i < |qs| && qs[i].provider == p) <==> (p in per || p == r.provider) {
      if p in per {
        var i :| 0 <= i < |rs| && rs[i].provider == p;
        assert qs[i].provider == p;
      }
      assert qs[|rs|].provider == r.provider;
    }
  }

  /** The per-provider map and the total, in 64-bit arithmetic. */
  method Accumulate(rs: seq<Receipt>) returns (per: map<bytes, uint64>, total: uint64)
    ensures Totals(rs, per) && total == U64(SumAll(rs))
  {
    hide Totals, SumAll, U64;
    per, total := map[], 0;
    NoWrap(0);
    NothingYet(rs);
    for i := 0 to |rs|
      invariant Totals(rs[..i], per) && total == U64(SumAll(rs[..i]))
    {
      var r := rs[i];
      TotalsStep(rs[..i], per, r);
      SumAllStep(rs, i);
      assert rs[..i] + [r] == rs[..i + 1];
      var before := if r.provider in per then per[r.provider] else 0;
      per := per[r.provider := U64(before + U64(r.segmentSize))];
      WrapTwice(SumAll(rs[..i]));
      AddModulo(total, SumAll(rs[..i]), r.segmentSize);
      total := U64(total + U64(r.segmentSize));
    }
    assert rs[..|rs|] == rs;
  }

  lemma NothingYet(rs: seq<Receipt>)
    ensures Totals(rs[..0], map[]) && SumAll(rs[..0]) == 0
  {
  }

  lemma SumAllStep(rs: seq<Receipt>, i: nat)
    requires i < |rs|
    ensures SumAll(rs[..i + 1]) == SumAll(rs[..i]) + rs[i].segmentSize
  {
    assert rs[..i + 1][..i] == rs[..i];
  }

  /** The map's keys in whatever order the map gives them, then sorted. */
  method SortedKeysOf(per: map<bytes, uint64>) returns (ps: seq<bytes>)
    ensures Sorted(ps, LexLeq) && Distinct(ps) && forall p :: p in ps <==> p in per
  {
    hide LexLeq;
    var found: seq<bytes> := [];
    var todo := per.Keys;
    while todo != {}
      invariant todo <= per.Keys && Distinct(found)
      invariant forall p :: p in found <==> p in per && p !in todo
      decreases |todo|
    {
      var p :| p in todo;
      todo := todo - {p};
      found := found + [p];
    }
    ps := Sort(found, LexLeq);
    SortedDistinct(found);
  }

  method Shares(per: map<bytes, uint64>, ps: seq<bytes>) returns (xs: seq<uint64>)
    requires forall p :: p in ps ==> p in per
    ensures |xs| == |ps| && forall i :: 0 <= i < |ps| ==> xs[i] == per[ps[i]]
  {
    xs := [];
    for i := 0 to |ps|
      invariant |xs| == i && forall k :: 0 <= k < i ==> xs[k] == per[ps[k]]
    {
      assert ps[i] in ps;
      xs := xs + [per[ps[i]]];
    }
  }

  method LeafHashes(sha: Sha, rs: seq<Receipt>) returns (ls: seq<bytes>)
    ensures ls == Leaves(sha, rs)
  {
    hide ReceiptHash;
    ls := [];
    for i := 0 to |rs|
      invariant |ls| == i && forall k :: 0 <= k < i ==> ls[k] == ReceiptHash(sha, rs[k])
    {
      ls := ls + [ReceiptHash(sha, rs[i])];
    }
  }

  /** Main result: it succeeds exactly on a non-empty list of verified receipts without duplicates, and
      then returns the settlement of that list. */
  method BuildSettlement(sha: Sha, c: Crypto, rs: seq<Receipt>) returns (r: Result<Settlement, SettlementError>)
    ensures r.Ok? <==> Acceptable(c, rs)
    ensures r.Ok? ==> IsSettlement(sha, rs, r.value)
    ensures rs == [] ==> r == Err(NoReceipts)
    ensures r.Err? ==> !r.error.BadTree?
  {
    hide IsSettlement, AllVerified, NoDuplicates, Totals, Sorted, Distinct, LexLeq, U64, SumFor, SumAll, Leaves, Sort,
      ValidTree, Root, AllDigests, AsDigests;
    if |rs| == 0 { return Err(NoReceipts); }
    var v := Validate(c, rs);
    if v.Fail? { return Err(v.error); }
    var per, total := Accumulate(rs);
    var ps := SortedKeysOf(per);
    var xs := Shares(per, ps);
    var leaves := LeafHashes(sha, rs);
    leaves := Sort(leaves, LexLeq);
    LeavesStayDigests(sha, rs);
    var tree := NewTree(sha, leaves);
    match tree {
      case Err(_) => return Err(BadTree);
      case Ok(t) =>
        TreeRoot(sha, t);
        Assembled(sha, rs, per, ps, Settlement(t.Root(), |rs|, total, ps, xs));
        return Ok(Settlement(t.Root(), |rs|, total, ps, xs));
    }
  }

  lemma Assembled(sha: Sha, rs: seq<Receipt>, per: map<bytes, uint64>, ps: seq<bytes>, s: Settlement)
    requires rs != [] && s.count == |rs| && s.total == U64(SumAll(rs)) && s.providers == ps && Totals(rs, per)
    requires Sorted(ps, LexLeq) && Distinct(ps) && forall p :: p in ps <==> p in per
    requires |s.perProvider| == |ps| && forall i :: 0 <= i < |ps| ==> s.perProvider[i] == per[ps[i]]
    requires s.root == Root(sha, SortedLeaves(sha, rs))
    ensures IsSettlement(sha, rs, s)
  {
    hide Sorted, LexLeq, U64, SumFor, SumAll, SortedLeaves, Root;
  }

  lemma TreeRoot(sha: Sha, t: Tree)
    requires ValidTree(sha, t)
    ensures |t.levels| > 0 && |t.levels[|t.levels| - 1]| > 0
    ensures t.leaves != [] && t.Root() == Root(sha, t.leaves)
  {
  }
}
