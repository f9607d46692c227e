/** Proof-of-relay receipts (por/receipt.go): the bytes both sides sign, their hash, and the check of the
    two signatures.  Key recovery and signature verification are parameters.
 */
module Receipts {
  import opened Bytes
  import opened Results
  import opened Merkle

  datatype Receipt = Receipt(
    provider: bytes, viewer: bytes, cid: bytes,
    segmentIndex: int64, segmentSize: int64, timestamp: int64, nonce: uint64,
    viewerSig: bytes, providerSig: bytes)

  function LV(payload: bytes): bytes { BE32(U32(|payload|)) + payload }

  function Word(x: int): (b: bytes)
    ensures |b| == 8
  {
    BE64(U64(x))
  }

  function Numbers(r: Receipt): bytes {
    Word(r.segmentIndex) + Word(r.segmentSize) + Word(r.timestamp) + Word(r.nonce)
  }

  function CanonicalBytes(r: Receipt): bytes { LV(r.provider) + LV(r.viewer) + LV(r.cid) + Numbers(r) }

  function ReceiptHash(sha: Sha, r: Receipt): Digest { sha(CanonicalBytes(r)) }

  /** All that is signed: everything but the two signatures. */
  predicate SameSigned(r: Receipt, s: Receipt) {
    r == s.(viewerSig := r.viewerSig, providerSig := r.providerSig)
  }

  /** Text fields short enough for a four-byte length. */
  predicate Sized(r: Receipt) { |r.provider| < TWO32 && |r.viewer| < TWO32 && |r.cid| < TWO32 }

  lemma LVSplit(a: bytes, x: bytes, b: bytes, y: bytes)
    requires |a| < TWO32 && |b| < TWO32 && LV(a) + x == LV(b) + y
    ensures a == b && x == y
  {
    hide BE, FromBE;
    var m, n := U32(|a|), U32(|b|);
    RoundTrip32(m);
    RoundTrip32(n);
    Regroup(BE32(m), a, x);
    Regroup(BE32(n), b, y);
    SplitEqual(BE32(m), a + x, BE32(n), b + y);
    SplitEqual(a, x, b, y);
  }

  lemma Regroup(a: bytes, b: bytes, c: bytes)
    ensures (a + b) + c == a + (b + c)
  {
  }

  lemma WordInjective(x: int, y: int)
    requires Word(x) == Word(y)
    ensures U64(x) == U64(y)
  {
    hide BE, FromBE, U64;
    RoundTrip64(U64(x));
    RoundTrip64(U64(y));
  }

  lemma SignedInjective(x: int64, y: int64)
    requires U64(x) == U64(y)
    ensures x == y
  {
    RoundTripI64(x);
    RoundTripI64(y);
  }

  lemma NumbersInjective(r: Receipt, s: Receipt)
    requires Numbers(r) == Numbers(s)
    ensures r.segmentIndex == s.segmentIndex && r.segmentSize == s.segmentSize
    ensures r.timestamp == s.timestamp && r.nonce == s.nonce
  {
    hide Word, U64;
    FourWords(Word(r.segmentIndex), Word(r.segmentSize), Word(r.timestamp), Word(r.nonce),
              Word(s.segmentIndex), Word(s.segmentSize), Word(s.timestamp), Word(s.nonce));
    WordInjective(r.segmentIndex, s.segmentIndex);
    WordInjective(r.segmentSize, s.segmentSize);
    WordInjective(r.timestamp, s.timestamp);
    WordInjective(r.nonce, s.nonce);
    SignedInjective(r.segmentIndex, s.segmentIndex);
    SignedInjective(r.segmentSize, s.segmentSize);
    SignedInjective(r.timestamp, s.timestamp);
    NoWrap(r.nonce);
    NoWrap(s.nonce);
  }

  lemma FourWords(a: bytes, b: bytes, c: bytes, d: bytes, w: bytes, x: bytes, y: bytes, z: bytes)
    requires |a| == |w| && |b| == |x| && |c| == |y| && a + b + c + d == w + x + y + z
    ensures a == w && b == x && c == y && d == z
  {
    SplitEqual(a + b + c, d, w + x + y, z);
    SplitEqual(a + b, c, w + x, y);
    SplitEqual(a, b, w, x);
  }

  /** Main result: the signed bytes determine all seven signed fields. */
  lemma CanonicalBytesDetermine(r: Receipt, s: Receipt)
    requires Sized(r) && Sized(s) && CanonicalBytes(r) == CanonicalBytes(s)
    ensures SameSigned(r, s)
  {
    hide LV, Numbers;
    Regroup(LV(r.provider) + LV(r.viewer), LV(r.cid), Numbers(r));
    Regroup(LV(r.provider), LV(r.viewer), LV(r.cid) + Numbers(r));
    Regroup(LV(s.provider) + LV(s.viewer), LV(s.cid), Numbers(s));
    Regroup(LV(s.provider), LV(s.viewer), LV(s.cid) + Numbers(s));
    LVSplit(r.provider, LV(r.viewer) + (LV(r.cid) + Numbers(r)), s.provider, LV(s.viewer) + (LV(s.cid) + Numbers(s)));
    LVSplit(r.viewer, LV(r.cid) + Numbers(r), s.viewer, LV(s.cid) + Numbers(s));
    LVSplit(r.cid, Numbers(r), s.cid, Numbers(s));
    NumbersInjective(r, s);
  }

  /** Where everything stands in the signed bytes: provider, viewer and content identifier in this order, each behind
      its length in four bytes, then segment index, segment size, timestamp and nonce in eight bytes each. */
  lemma CanonicalLayout(r: Receipt)
    ensures var b := CanonicalBytes(r);
            var p, v, c := |r.provider|, |r.viewer|, |r.cid|;
            var words := 12 + p + v + c;
            && |b| == words + 32
            && b[..4] == BE32(U32(p)) && b[4..4 + p] == r.provider
            && b[4 + p..8 + p] == BE32(U32(v)) && b[8 + p..8 + p + v] == r.viewer
            && b[8 + p + v..12 + p + v] == BE32(U32(c)) && b[12 + p + v..words] == r.cid
            && b[words..words + 8] == BE64(U64(r.segmentIndex)) && b[words + 8..words + 16] == BE64(U64(r.segmentSize))
            && b[words + 16..words + 24] == BE64(U64(r.timestamp)) && b[words + 24..] == BE64(U64(r.nonce))
  {
    hide BE, FromBE, U32, U64, CanonicalBytes;
    var b, w := CanonicalBytes(r), Numbers(r);
    LeadingTexts(r);
    NumbersGrouped(r);
    WordsInTurn(b, |b| - |w|, Word(r.segmentIndex), Word(r.segmentSize), Word(r.timestamp), Word(r.nonce));
  }

  lemma LeadingTexts(r: Receipt)
    ensures var b := CanonicalBytes(r);
            var p, v, c := |r.provider|, |r.viewer|, |r.cid|;
            var words := 12 + p + v + c;
            && |b| == words + |Numbers(r)|
            && b[..4] == BE32(U32(p)) && b[4..4 + p] == r.provider
            && b[4 + p..8 + p] == BE32(U32(v)) && b[8 + p..8 + p + v] == r.viewer
            && b[8 + p + v..12 + p + v] == BE32(U32(c)) && b[12 + p + v..words] == r.cid && b[words..] == Numbers(r)
  {
    hide BE, FromBE, U32, U64, CanonicalBytes, Numbers;
    var b, n := CanonicalBytes(r), Numbers(r);
    var p, v, c := BE32(U32(|r.provider|)), BE32(U32(|r.viewer|)), BE32(U32(|r.cid|));
    RightGrouped(r);
    assert b[0..] == b;
    NextPiece(b, 0, p, r.provider + (v + (r.viewer + (c + (r.cid + n)))));
    NextPiece(b, 4, r.provider, v + (r.viewer + (c + (r.cid + n))));
    var o := 4 + |r.provider|;
    NextPiece(b, o, v, r.viewer + (c + (r.cid + n)));
    NextPiece(b, o + 4, r.viewer, c + (r.cid + n));
    var w := o + 4 + |r.viewer|;
    NextPiece(b, w, c, r.cid + n);
    NextPiece(b, w + 4, r.cid, n);
  }

  lemma WordsInTurn(b: bytes, at: nat, i: bytes, z: bytes, t: bytes, n: bytes)
    requires |i| == |z| == |t| == |n| == 8 && at <= |b| && b[at..] == i + (z + (t + n))
    ensures |b| == at + 32 && b[at..at + 8] == i && b[at + 8..at + 16] == z
    ensures b[at + 16..at + 24] == t && b[at + 24..] == n
  {
    NextPiece(b, at, i, z + (t + n));
    NextPiece(b, at + 8, z, t + n);
    NextPiece(b, at + 16, t, n);
  }

  lemma NextPiece(b: bytes, at: nat, x: bytes, rest: bytes)
    requires at <= |b| && b[at..] == x + rest
    ensures at + |x| <= |b| && b[at..at + |x|] == x && b[at + |x|..] == rest
  {
    assert |b| - at == |x| + |rest|;
    assert b[at..][..|x|] == x && b[at..][|x|..] == rest;
    assert b[at..at + |x|] == b[at..][..|x|] && b[at + |x|..] == b[at..][|x|..];
  }

  lemma RightGrouped(r: Receipt)
    ensures CanonicalBytes(r) ==
              BE32(U32(|r.provider|)) + (r.provider + (BE32(U32(|r.viewer|)) + (r.viewer +
                (BE32(U32(|r.cid|)) + (r.cid + Numbers(r))))))
  {
    hide BE32, U32, Numbers;
    var p, v, c, n := LV(r.provider), LV(r.viewer), LV(r.cid), Numbers(r);
    Regroup(p + v, c, n);
    Regroup(p, v, c + n);
    Regroup(BE32(U32(|r.cid|)), r.cid, n);
    Regroup(BE32(U32(|r.viewer|)), r.viewer, c + n);
    Regroup(BE32(U32(|r.provider|)), r.provider, v + (c + n));
  }

  lemma NumbersGrouped(r: Receipt)
    ensures Numbers(r) == Word(r.segmentIndex) + (Word(r.segmentSize) + (Word(r.timestamp) + Word(r.nonce)))
    ensures |Numbers(r)| == 32
  {
    hide Word;
    Regroup(Word(r.segmentIndex) + Word(r.segmentSize), Word(r.timestamp), Word(r.nonce));
    Regroup(Word(r.segmentIndex), Word(r.segmentSize), Word(r.timestamp) + Word(r.nonce));
  }

  /** The converse: signatures are not among the bytes signed. */
  lemma SignaturesNotSigned(r: Receipt, s: Receipt)
    requires SameSigned(r, s)
    ensures CanonicalBytes(r) == CanonicalBytes(s)
  {
  }

  /** Main result: equal leaves are the same signed receipt, or two named inputs collide. */
  lemma HashBindsReceipt(sha: Sha, r: Receipt, s: Receipt)
    requires Sized(r) && Sized(s) && ReceiptHash(sha, r) == ReceiptHash(sha, s)
    ensures SameSigned(r, s) || Collision(sha, {CanonicalBytes(r)}, {CanonicalBytes(s)})
  {
    hide CanonicalBytes;
    if CanonicalBytes(r) == CanonicalBytes(s) { CanonicalBytesDetermine(r, s); }
  }

  function Fill(v: byte, n: nat): (b: bytes)
    ensures |b| == n && forall i :: 0 <= i < n ==> b[i] == v
  {
    seq(n, _ => v)
  }

  lemma ZerosJoin(m: nat, n: nat)
    ensures Fill(0, m) + Fill(0, n) == Fill(0, m + n)
  {
  }

  lemma ZeroLength(n: nat)
    requires n % TWO32 == 0
    ensures LV(Fill(0, n)) == Fill(0, n + 4)
  {
    assert BE(0, 2) == BE(0, 1) + [0] && BE(0, 4) == BE(0, 3) + [0];
    assert BE32(0) == Fill(0, 4);
    ZerosJoin(4, n);
  }

  /** The bound is needed: at four gigabytes the length wraps to zero, and a receipt of one provider is
      signed by the same bytes as a receipt of another. */
  lemma LengthWraps(r: Receipt)
    requires r.provider == Fill(0, TWO32) && r.viewer == [] && r.cid == []
    ensures var s := r.(provider := [], cid := r.provider); CanonicalBytes(r) == CanonicalBytes(s) && !SameSigned(r, s)
  {
    hide LV, Numbers, Fill;
    var s := r.(provider := [], cid := r.provider);
    assert [] == Fill(0, 0);
    ZeroLength(0);
    ZeroLength(TWO32);
    ZerosJoin(TWO32 + 4, 4);
    ZerosJoin(TWO32 + 8, 4);
    ZerosJoin(4, 4);
    ZerosJoin(8, TWO32 + 4);
    assert Numbers(s) == Numbers(r) by { NumbersIgnoreText(r, s); }
  }

  lemma NumbersIgnoreText(r: Receipt, s: Receipt)
    requires s == r.(provider := s.provider, viewer := s.viewer, cid := s.cid)
    ensures Numbers(r) == Numbers(s)
  {
  }

  // ---- signatures ----

  /** Public keys by peer identifier, and verification of (key, message, signature): `None` when the
      library fails. */
  datatype Crypto = Crypto(keyOf: bytes -> Option<bytes>, verify: (bytes, bytes, bytes) -> Option<bool>)

  datatype SigError = Missing | NoKey | CannotVerify | Rejected

  function CheckSig(c: Crypto, peer: bytes, msg: bytes, sig: bytes): Outcome<SigError> {
    if |sig| == 0 then Fail(Missing)
    else match c.keyOf(peer)
      case None => Fail(NoKey)
      case Some(pub) =>
        match c.verify(pub, msg, sig)
        case None => Fail(CannotVerify)
        case Some(ok) => if ok then Pass else Fail(Rejected)
  }

  /** The viewer's signature first, then the provider's. */
  function VerifyBoth(c: Crypto, r: Receipt): Outcome<SigError> {
    var viewer := CheckSig(c, r.viewer, CanonicalBytes(r), r.viewerSig);
    if viewer.Fail? then viewer else CheckSig(c, r.provider, CanonicalBytes(r), r.providerSig)
  }

  /** A receipt passes exactly when both named peers signed these very fields. */
  lemma PassMeansBothSigned(c: Crypto, r: Receipt)
    ensures VerifyBoth(c, r).Pass? <==>
              (r.viewerSig != [] && r.providerSig != [] && c.keyOf(r.viewer).Some? && c.keyOf(r.provider).Some? &&
               c.verify(c.keyOf(r.viewer).value, CanonicalBytes(r), r.viewerSig) == Some(true) &&
               c.verify(c.keyOf(r.provider).value, CanonicalBytes(r), r.providerSig) == Some(true))
  {
  }

  // ---- the natural key ----

  datatype Natural = Natural(provider: bytes, timestamp: int64, nonce: uint64)

  function NaturalOf(r: Receipt): Natural { Natural(r.provider, r.timestamp, r.nonce) }
}
