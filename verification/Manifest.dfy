/** The content manifest of manifest/manifest.go: leaf digests in hexadecimal, their
    Merkle root and the identifier made of it.
 */
module Manifest {
  import opened Bytes
  import opened Results
  import opened Text
  import opened Merkle
  import Cid

  const VERSION := 1

  datatype Manifest = Manifest(
    version: int, cid: bytes, root: bytes, segmentCount: int, segmentDuration: int, leaves: seq<bytes>)

  datatype ManifestError =
    | NoSegments | BadDuration | BadVersion | CountMismatch | BadLeaf | NoLeavesAtAll
    | BadRootHex | RootDiffers | CidDiffers | IndexOutOfRange

  /** `HashLeaf` of every payload. */
  function LeafHashes(sha: Sha, payloads: seq<bytes>): (ds: seq<Digest>)
    ensures |ds| == |payloads|
  {
    seq<Digest>(|payloads|, i requires 0 <= i < |payloads| => sha(payloads[i]))
  }

  function HexAll(ds: seq<Digest>): (r: seq<bytes>)
    ensures |r| == |ds|
  {
    seq<bytes>(|ds|, i requires 0 <= i < |ds| => HexEncode(ds[i]))
  }

  /** The manifest of a list of payloads. */
  function Built(sha: Sha, payloads: seq<bytes>, duration: int): Manifest
    requires payloads != []
  {
    var ds := LeafHashes(sha, payloads);
    var root := Merkle.Root(sha, ds);
    Manifest(VERSION, Cid.Encode(root), HexEncode(root), |payloads|, duration, HexAll(ds))
  }

  method BuildFromPayloads(sha: Sha, payloads: seq<bytes>, segmentDuration: int)
    returns (r: Result<Manifest, ManifestError>)
    ensures r.Ok? <==> payloads != [] && segmentDuration > 0
    ensures r.Ok? ==> r.value == Built(sha, payloads, segmentDuration)
  {
    hide HexEncode, Levels, Cid.Encode;
    if |payloads| == 0 { return Err(NoSegments); }
    if segmentDuration <= 0 { return Err(BadDuration); }
    var leaves: seq<Digest> := [];
    var leavesHex: seq<bytes> := [];
    for i := 0 to |payloads|
      invariant leaves == LeafHashes(sha, payloads)[..i]
      invariant leavesHex == HexAll(LeafHashes(sha, payloads))[..i]
    {
      leaves := leaves + [sha(payloads[i])];
      leavesHex := leavesHex + [HexEncode(leaves[i])];
    }
    assert leaves == LeafHashes(sha, payloads) && leavesHex == HexAll(LeafHashes(sha, payloads));
    var tree := NewTree(sha, leaves);
    assert AsDigests(leaves) == leaves;
    var root := tree.value.Root();
    var cid := Cid.CIDv1Raw(root);
    return Ok(Manifest(VERSION, cid.value, HexEncode(root), |payloads|, segmentDuration, leavesHex));
  }

  // ---- verification ----

  /** The digest a leaf text stands for. */
  function LeafDigest(h: bytes): (r: Option<Digest>) {
    match HexDecode(h)
    case Some(b) => if |b| == HASH_SIZE then Some(b) else None
    case None => None
  }

  predicate AllLeavesGood(hs: seq<bytes>) {
    forall i :: 0 <= i < |hs| ==> LeafDigest(hs[i]).Some?
  }

  function LeafDigests(hs: seq<bytes>): (ds: seq<Digest>)
    requires AllLeavesGood(hs)
    ensures |ds| == |hs|
  {
    seq<Digest>(|hs|, i requires 0 <= i < |hs| => LeafDigest(hs[i]).value)
  }

  /** What `Verify` accepts: root and identifier are those of the listed leaves. */
  predicate Verified(sha: Sha, m: Manifest) {
    && m.version == VERSION && m.segmentCount == |m.leaves| > 0 && m.segmentDuration > 0
    && AllLeavesGood(m.leaves)
    && HexDecode(m.root) == Some(Merkle.Root(sha, LeafDigests(m.leaves)))
    && m.cid == Cid.Encode(Merkle.Root(sha, LeafDigests(m.leaves)))
  }

  method Verify(sha: Sha, m: Manifest) returns (r: Outcome<ManifestError>)
    ensures r.Pass? <==> Verified(sha, m)
  {
    hide Levels, HexDecode, Cid.Encode;
    if m.version != VERSION { return Fail(BadVersion); }
    if m.segmentCount != |m.leaves| { return Fail(CountMismatch); }
    if m.segmentDuration <= 0 { return Fail(BadDuration); }
    var leaves: seq<Digest> := [];
    for i := 0 to |m.leaves|
      invariant AllLeavesGood(m.leaves[..i])
      invariant leaves == LeafDigests(m.leaves[..i])
    {
      var b := HexDecode(m.leaves[i]);
      if b.None? || |b.value| != HASH_SIZE {
        assert LeafDigest(m.leaves[i]).None?;
        return Fail(BadLeaf);
      }
      leaves := leaves + [b.value];
    }
    assert m.leaves[..|m.leaves|] == m.leaves;
    var tree := NewTree(sha, leaves);
    if tree.Err? { return Fail(NoLeavesAtAll); }
    assert AsDigests(leaves) == leaves;
    var rootBytes := HexDecode(m.root);
    if rootBytes.None? { return Fail(BadRootHex); }
    if tree.value.Root() != rootBytes.value { return Fail(RootDiffers); }
    var cid := Cid.CIDv1Raw(tree.value.Root());
    if cid.value != m.cid { return Fail(CidDiffers); }
    return Pass;
  }

  function LeafAt(m: Manifest, index: int): Result<Digest, ManifestError> {
    if index < 0 || index >= |m.leaves| then Err(IndexOutOfRange)
    else
      match LeafDigest(m.leaves[index])
      case Some(d) => Ok(d)
      case None => Err(BadLeaf)
  }

  // ---- properties ----

  lemma LeavesOfHex(ds: seq<Digest>)
    ensures AllLeavesGood(HexAll(ds)) && LeafDigests(HexAll(ds)) == ds
  {
    forall i | 0 <= i < |ds| ensures LeafDigest(HexAll(ds)[i]) == Some(ds[i]) {
      HexRoundTrip(ds[i]);
    }
  }

  /** Every leaf of a built manifest is the hash of its payload; nothing else is a leaf. */
  lemma LeafAtOfBuilt(sha: Sha, payloads: seq<bytes>, duration: int, index: int)
    requires payloads != []
    ensures LeafAt(Built(sha, payloads, duration), index) ==
            if 0 <= index < |payloads| then Ok(sha(payloads[index])) else Err(IndexOutOfRange)
  {
    LeavesOfHex(LeafHashes(sha, payloads));
    if 0 <= index < |payloads| { HexRoundTrip(sha(payloads[index])); }
  }

  /** The fields of a built manifest in plain terms: every payload hashed, the root of those hashes in
      hexadecimal and as an identifier. */
  lemma BuiltPlainly(sha: Sha, payloads: seq<bytes>, duration: int, ds: seq<Digest>)
    requires |ds| == |payloads| > 0 && forall i :: 0 <= i < |ds| ==> ds[i] == sha(payloads[i])
    ensures var m := Built(sha, payloads, duration);
            && m.version == 1 && m.segmentCount == |payloads| == |m.leaves| && m.segmentDuration == duration
            && (forall i :: 0 <= i < |ds| ==> m.leaves[i] == HexEncode(ds[i]))
            && m.root == HexEncode(Merkle.Root(sha, ds)) && m.cid == Cid.Encode(Merkle.Root(sha, ds))
  {
    assert LeafHashes(sha, payloads) == ds;
  }

  /** What is built verifies. */
  lemma BuiltVerifies(sha: Sha, payloads: seq<bytes>, duration: int)
    requires payloads != [] && duration > 0
    ensures Verified(sha, Built(sha, payloads, duration))
  {
    LeavesOfHex(LeafHashes(sha, payloads));
    HexRoundTrip(Merkle.Root(sha, LeafHashes(sha, payloads)));
  }

  /** A verified manifest whose leaf texts are the hashes of `segments` is the one built
      from them, up to the letter case of its root. */
  lemma VerifiedIsBuilt(sha: Sha, m: Manifest, segments: seq<bytes>)
    requires Verified(sha, m) && |segments| == |m.leaves|
    requires forall i :: 0 <= i < |segments| ==> HexEncode(sha(segments[i])) == m.leaves[i]
    ensures m == Built(sha, segments, m.segmentDuration).(root := m.root)
    ensures Lower(m.root) == Built(sha, segments, m.segmentDuration).root
  {
    var ds := LeafHashes(sha, segments);
    assert m.leaves == HexAll(ds);
    LeavesOfHex(ds);
    HexCanonical(m.root);
  }

  /** Main result, binding: two manifests that verify under one identifier and one segment
      count list the same digests, or the hashing of the two trees met a collision. */
  lemma IdentifierBinds(sha: Sha, a: Manifest, b: Manifest)
    requires Verified(sha, a) && Verified(sha, b)
    requires a.cid == b.cid && a.segmentCount == b.segmentCount
    ensures var xs, ys := LeafDigests(a.leaves), LeafDigests(b.leaves);
            xs == ys || Collision(sha, Inputs(sha, TreeOf(xs)), Inputs(sha, TreeOf(ys)))
  {
    var xs, ys := LeafDigests(a.leaves), LeafDigests(b.leaves);
    Cid.EncodeInjective(Merkle.Root(sha, xs), Merkle.Root(sha, ys));
    RootBindsLeaves(sha, xs, ys);
  }

  /** Main result, without the count: an identifier commits to a tree over one level, not to which level
      that is.  Two verified manifests share it exactly when the deeper one, cut off at the height of
      the other, has the other's tree, unless a collision was met. */
  lemma IdentifierBindsTree(sha: Sha, a: Manifest, b: Manifest)
    requires Verified(sha, a) && Verified(sha, b)
    requires |Levels(sha, LeafDigests(a.leaves))| >= |Levels(sha, LeafDigests(b.leaves))|
    ensures var xs, ys := LeafDigests(a.leaves), LeafDigests(b.leaves);
            var l := Levels(sha, xs)[|Levels(sha, xs)| - |Levels(sha, ys)|];
            && l != []
            && (TreeOf(l) == TreeOf(ys) ==> a.cid == b.cid)
            && (a.cid == b.cid ==>
                  TreeOf(l) == TreeOf(ys) || Collision(sha, Inputs(sha, TreeOf(l)), Inputs(sha, TreeOf(ys))))
  {
    hide Levels, TreeOf, Merkle.Root;
    var xs, ys := LeafDigests(a.leaves), LeafDigests(b.leaves);
    RootBinds(sha, xs, ys);
    if a.cid == b.cid { Cid.EncodeInjective(Merkle.Root(sha, xs), Merkle.Root(sha, ys)); }
  }

  /** What the tree over `payloads` hashes in its first level: each two digests in a row. */
  function InnerPayloads(sha: Sha, payloads: seq<bytes>): (r: seq<bytes>)
    ensures |r| == (|payloads| + 1) / 2
    ensures forall i :: 0 <= i < |r| ==> |r[i]| == 2 * HASH_SIZE
  {
    var ds := LeafHashes(sha, payloads);
    seq<bytes>((|ds| + 1) / 2, i requires 0 <= i < (|ds| + 1) / 2 => Joined(ds[2 * i], ds[Sibling(|ds|, 2 * i)]))
  }

  lemma InnerHashes(sha: Sha, payloads: seq<bytes>)
    ensures LeafHashes(sha, InnerPayloads(sha, payloads)) == NextLevel(sha, LeafHashes(sha, payloads))
  {
  }

  /** Main result: the segment count is needed.  All content of two or more segments has other content,
      with fewer segments of 64 bytes, that verifies under the same identifier, and no collision is
      needed for it. */
  lemma EveryContentHasAnother(sha: Sha, payloads: seq<bytes>, duration: int)
    requires |payloads| >= 2 && duration > 0
    ensures var other := InnerPayloads(sha, payloads);
            && other != [] && |other| < |payloads|
            && Verified(sha, Built(sha, payloads, duration)) && Verified(sha, Built(sha, other, duration))
            && Built(sha, payloads, duration).cid == Built(sha, other, duration).cid
  {
    hide Merkle.Root, Verified, NextLevel;
    var other := InnerPayloads(sha, payloads);
    BuiltVerifies(sha, payloads, duration);
    BuiltVerifies(sha, other, duration);
    InnerHashes(sha, payloads);
    InnerLevelSharesRoot(sha, LeafHashes(sha, payloads));
  }

  /** And one with more segments: for any odd number of payloads, three or more, the manifest that lists
      the last payload twice verifies under the same identifier. */
  lemma CountNotInIdentifier(sha: Sha, payloads: seq<bytes>, duration: int)
    requires |payloads| % 2 == 1 && |payloads| >= 3 && duration > 0
    ensures var longer := payloads + [payloads[|payloads| - 1]];
            && Verified(sha, Built(sha, payloads, duration)) && Verified(sha, Built(sha, longer, duration))
            && Built(sha, payloads, duration).cid == Built(sha, longer, duration).cid
  {
    var longer := payloads + [payloads[|payloads| - 1]];
    BuiltVerifies(sha, payloads, duration);
    BuiltVerifies(sha, longer, duration);
    var ds := LeafHashes(sha, payloads);
    assert LeafHashes(sha, longer) == ds + [ds[|ds| - 1]];
    DuplicateLastSharesRoot(sha, ds);
  }
}
