/** The verifying client of client/client.go.  A provider is a `Provider` value: what it
    answers when asked for the manifest, and for each segment, of an identifier.  Manifest
    JSON parsing is a parameter.
 */
module Fetch {
  import opened Bytes
  import opened Results
  import opened Text
  import opened Merkle
  import opened Manifest
  import Cid

  /** An HTTP 200 answer; `claimed` is the hash header, empty when absent. */
  datatype Response = Response(body: bytes, claimed: bytes)

  datatype Provider = Provider(
    reachable: bool, manifest: bytes -> Option<bytes>, segment: (bytes, int) -> Option<Response>)

  type Parser = bytes -> Option<Manifest>

  datatype FetchError =
    | Transport | BadJson | NotSelfConsistent | OtherCID | NegativeIndex | NoHash | HashMismatch | LeafMismatch
    | NotConnected | NoProviders | AllFailed(last: FetchError)

  datatype VerifiedContent = VerifiedContent(manifest: Manifest, segments: seq<bytes>)

  /** The manifest a provider serves, when it verifies. */
  function ServedManifest(sha: Sha, parse: Parser, p: Provider, cid: bytes): Option<Manifest> {
    match p.manifest(cid)
    case None => None
    case Some(body) =>
      match parse(body)
      case None => None
      case Some(m) => if Verified(sha, m) then Some(m) else None
  }

  /** Segment `i` is served with its true hash in the header, and that is the leaf text. */
  predicate SegmentGood(sha: Sha, p: Provider, cid: bytes, m: Manifest, i: nat)
    requires i < |m.leaves|
  {
    && p.segment(cid, i).Some?
    && p.segment(cid, i).value.claimed == HexEncode(sha(p.segment(cid, i).value.body)) == m.leaves[i]
  }

  /** What the client accepts from one provider. */
  ghost predicate Serves(sha: Sha, parse: Parser, p: Provider, cid: bytes) {
    && ServedManifest(sha, parse, p, cid).Some?
    && AllGood(sha, p, cid, ServedManifest(sha, parse, p, cid).value)
  }

  method FetchManifest(sha: Sha, parse: Parser, p: Provider, cid: bytes) returns (r: Result<Manifest, FetchError>)
    ensures r.Ok? <==> ServedManifest(sha, parse, p, cid).Some?
    ensures r.Ok? ==> ServedManifest(sha, parse, p, cid) == Some(r.value)
  {
    if p.manifest(cid).None? { return Err(Transport); }
    var m := parse(p.manifest(cid).value);
    if m.None? { return Err(BadJson); }
    var v := Verify(sha, m.value);
    if v.Fail? { return Err(NotSelfConsistent); }
    return Ok(m.value);
  }

  /** What is served verifies and carries the identifier expected. */
  predicate ServedExpecting(sha: Sha, parse: Parser, p: Provider, cid: bytes, expected: bytes) {
    ServedManifest(sha, parse, p, cid).Some? && ServedManifest(sha, parse, p, cid).value.cid == expected
  }

  /** The stricter fetch: what it returns carries the identifier the caller expects.  That fixes the root,
      not yet the content: see `OtherContentExpected`. */
  method FetchManifestExpectingCID(sha: Sha, parse: Parser, p: Provider, cid: bytes, expected: bytes)
    returns (r: Result<Manifest, FetchError>)
    ensures r.Ok? <==> ServedExpecting(sha, parse, p, cid, expected)
    ensures r.Ok? ==> ServedManifest(sha, parse, p, cid) == Some(r.value) && Verified(sha, r.value) && r.value.cid == expected
  {
    var m := FetchManifest(sha, parse, p, cid);
    if m.Err? { return m; }
    if m.value.cid != expected { return Err(OtherCID); }
    return m;
  }

  method FetchSegment(sha: Sha, p: Provider, cid: bytes, index: int) returns (r: Result<bytes, FetchError>)
    ensures r.Ok? <==> index >= 0 && p.segment(cid, index).Some?
                       && p.segment(cid, index).value.claimed == HexEncode(sha(p.segment(cid, index).value.body))
    ensures r.Ok? ==> r.value == p.segment(cid, index).value.body
  {
    if index < 0 { return Err(NegativeIndex); }
    var resp := p.segment(cid, index);
    if resp.None? { return Err(Transport); }
    if resp.value.claimed == [] { return Err(NoHash); }
    if HexEncode(sha(resp.value.body)) != resp.value.claimed { return Err(HashMismatch); }
    return Ok(resp.value.body);
  }

  /** The first segments of `m` have been fetched from `p` and found good. */
  ghost predicate FetchedFrom(sha: Sha, p: Provider, cid: bytes, m: Manifest, segments: seq<bytes>) {
    |segments| <= |m.leaves| &&
    forall i :: 0 <= i < |segments| ==> SegmentGood(sha, p, cid, m, i) && segments[i] == p.segment(cid, i).value.body
  }

  /** Main result: success is exactly `Serves`, and what is returned is the manifest built
      from the returned segments, up to the letter case of its root. */
  method FetchAndVerifyContent(sha: Sha, parse: Parser, p: Provider, cid: bytes)
    returns (r: Result<VerifiedContent, FetchError>)
    ensures r.Ok? <==> Serves(sha, parse, p, cid)
    ensures r.Ok? ==>
              && ServedManifest(sha, parse, p, cid) == Some(r.value.manifest)
              && |r.value.segments| == |r.value.manifest.leaves|
              && FetchedFrom(sha, p, cid, r.value.manifest, r.value.segments)
              && BuiltFromSegments(sha, r.value)
  {
    var fetched := FetchManifest(sha, parse, p, cid);
    if fetched.Err? { return Err(fetched.error); }
    var m := fetched.value;
    var segments := FetchSegments(sha, p, cid, m);
    if segments.Err? { return Err(segments.error); }
    ContentIsBuilt(sha, p, cid, VerifiedContent(m, segments.value));
    return Ok(VerifiedContent(m, segments.value));
  }

  ghost predicate AllGood(sha: Sha, p: Provider, cid: bytes, m: Manifest) {
    forall i :: 0 <= i < |m.leaves| ==> SegmentGood(sha, p, cid, m, i)
  }

  /** The download loop of FetchAndVerifyContent. */
  method FetchSegments(sha: Sha, p: Provider, cid: bytes, m: Manifest) returns (r: Result<seq<bytes>, FetchError>)
    requires m.segmentCount == |m.leaves|
    ensures r.Ok? <==> AllGood(sha, p, cid, m)
    ensures r.Ok? ==> |r.value| == |m.leaves| && FetchedFrom(sha, p, cid, m, r.value)
  {
    var segments: seq<bytes> := [];
    for i := 0 to m.segmentCount
      invariant |segments| == i
      invariant FetchedFrom(sha, p, cid, m, segments)
    {
      var seg := FetchSegment(sha, p, cid, i);
      if seg.Err? {
        assert !SegmentGood(sha, p, cid, m, i);
        return Err(seg.error);
      }
      if HexEncode(sha(seg.value)) != m.leaves[i] {
        assert !SegmentGood(sha, p, cid, m, i);
        return Err(LeafMismatch);
      }
      segments := segments + [seg.value];
    }
    return Ok(segments);
  }

  /** The manifest is the one built from the segments, up to the letter case of its root. */
  ghost predicate BuiltFromSegments(sha: Sha, c: VerifiedContent) {
    && c.segments != []
    && var b := Built(sha, c.segments, c.manifest.segmentDuration);
       c.manifest == b.(root := c.manifest.root) && Lower(c.manifest.root) == b.root
  }

  lemma ContentIsBuilt(sha: Sha, p: Provider, cid: bytes, c: VerifiedContent)
    requires Verified(sha, c.manifest) && |c.segments| == |c.manifest.leaves|
    requires FetchedFrom(sha, p, cid, c.manifest, c.segments)
    ensures BuiltFromSegments(sha, c)
  {
    VerifiedIsBuilt(sha, c.manifest, c.segments);
  }

  /** Providers are tried in order; the first that serves wins, and the call fails only if
      none does. */
  method FetchAndVerifyByCID(sha: Sha, parse: Parser, providers: seq<Provider>, cid: bytes)
    returns (r: Result<VerifiedContent, FetchError>, ghost winner: int)
    ensures r.Ok? <==> exists i :: 0 <= i < |providers| && providers[i].reachable && Serves(sha, parse, providers[i], cid)
    ensures r.Ok? ==>
              && 0 <= winner < |providers| && providers[winner].reachable && Serves(sha, parse, providers[winner], cid)
              && ServedManifest(sha, parse, providers[winner], cid) == Some(r.value.manifest)
              && BuiltFromSegments(sha, r.value)
              && (forall i :: 0 <= i < winner ==> !(providers[i].reachable && Serves(sha, parse, providers[i], cid)))
    ensures providers == [] ==> r == Err(NoProviders)
  {
    hide Serves, ServedManifest, BuiltFromSegments;
    winner := -1;
    if |providers| == 0 { return Err(NoProviders), -1; }
    var lastErr := NoProviders;
    for k := 0 to |providers|
      invariant forall i :: 0 <= i < k ==> !(providers[i].reachable && Serves(sha, parse, providers[i], cid))
    {
      if !providers[k].reachable {
        lastErr := NotConnected;
        continue;
      }
      var vc := FetchAndVerifyContent(sha, parse, providers[k], cid);
      if vc.Ok? { return vc, k; }
      lastErr := vc.error;
    }
    return Err(AllFailed(lastErr)), -1;
  }

  /** An honest provider of any content is accepted, whatever identifier was asked for: the
      client compares the manifest with itself and the segments, not with the request. */
  lemma HonestProviderServes(sha: Sha, parse: Parser, p: Provider, cid: bytes, payloads: seq<bytes>, duration: int)
    requires payloads != [] && duration > 0
    requires p.manifest(cid).Some? && parse(p.manifest(cid).value) == Some(Built(sha, payloads, duration))
    requires forall i :: 0 <= i < |payloads| ==>
               p.segment(cid, i) == Some(Response(payloads[i], HexEncode(sha(payloads[i]))))
    ensures Serves(sha, parse, p, cid) && ServedManifest(sha, parse, p, cid) == Some(Built(sha, payloads, duration))
  {
    BuiltVerifies(sha, payloads, duration);
    var m := Built(sha, payloads, duration);
    forall i | 0 <= i < |m.leaves| ensures SegmentGood(sha, p, cid, m, i) {
      assert m.leaves[i] == HexEncode(sha(payloads[i]));
    }
  }

  /** A provider that gives one content to every request. */
  function Always(sha: Sha, body: bytes, payloads: seq<bytes>): Provider {
    Provider(true, _ => Some(body),
             (_, i) => if 0 <= i < |payloads| then Some(Response(payloads[i], HexEncode(sha(payloads[i])))) else None)
  }

  lemma AlwaysServes(sha: Sha, parse: Parser, body: bytes, payloads: seq<bytes>, duration: int, cid: bytes)
    requires payloads != [] && duration > 0 && parse(body) == Some(Built(sha, payloads, duration))
    ensures var p := Always(sha, body, payloads);
            Serves(sha, parse, p, cid) && ServedManifest(sha, parse, p, cid) == Some(Built(sha, payloads, duration))
  {
    HonestProviderServes(sha, parse, Always(sha, body, payloads), cid, payloads, duration);
  }

  /** Main result: any content at all is accepted as the answer to any request; the manifest then does not
      carry the identifier asked for, unless the request was for this content. */
  lemma OtherContentAccepted(sha: Sha, parse: Parser, body: bytes, payloads: seq<bytes>, duration: int, cid: bytes)
    requires payloads != [] && duration > 0 && parse(body) == Some(Built(sha, payloads, duration))
    ensures var p := Always(sha, body, payloads);
            && Serves(sha, parse, p, cid) && ServedManifest(sha, parse, p, cid).Some?
            && (ServedManifest(sha, parse, p, cid).value.cid == cid <==> cid == Built(sha, payloads, duration).cid)
  {
    AlwaysServes(sha, parse, body, payloads, duration, cid);
  }

  /** The segments a provider serves for a manifest of its own. */
  ghost function ServedSegments(sha: Sha, p: Provider, cid: bytes, m: Manifest): (r: seq<bytes>)
    requires AllGood(sha, p, cid, m)
    ensures |r| == |m.leaves|
  {
    seq<bytes>(|m.leaves|, i requires 0 <= i < |m.leaves| =>
      assert SegmentGood(sha, p, cid, m, i);
      p.segment(cid, i).value.body)
  }

  /** Of the providers the lenient fetch accepts, the stricter one, told to expect the identifier asked for,
      accepts exactly those whose segments have the root of that identifier. */
  lemma CarriesRequest(sha: Sha, parse: Parser, p: Provider, cid: bytes)
    requires Serves(sha, parse, p, cid)
    ensures var segments := ServedSegments(sha, p, cid, ServedManifest(sha, parse, p, cid).value);
            && segments != []
            && (ServedExpecting(sha, parse, p, cid, cid) <==> cid == Cid.Encode(Merkle.Root(sha, LeafHashes(sha, segments))))
  {
    var m := ServedManifest(sha, parse, p, cid).value;
    var segments := ServedSegments(sha, p, cid, m);
    forall i | 0 <= i < |segments| ensures SegmentGood(sha, p, cid, m, i) && segments[i] == p.segment(cid, i).value.body {}
    assert FetchedFrom(sha, p, cid, m, segments);
    ContentIsBuilt(sha, p, cid, VerifiedContent(m, segments));
  }

  /** Main result: for content of two or more segments even the stricter fetch has another answer, which
      carries the identifier expected and whose segments all check. */
  lemma OtherContentExpected(sha: Sha, parse: Parser, body: bytes, payloads: seq<bytes>, duration: int, cid: bytes)
    requires |payloads| >= 2 && duration > 0
    requires parse(body) == Some(Built(sha, InnerPayloads(sha, payloads), duration))
    ensures var p := Always(sha, body, InnerPayloads(sha, payloads));
            && Serves(sha, parse, p, cid) && ServedManifest(sha, parse, p, cid).Some?
            && ServedManifest(sha, parse, p, cid).value.cid == Built(sha, payloads, duration).cid
            && InnerPayloads(sha, payloads) != payloads
  {
    hide Built, Serves, ServedManifest, Always, InnerPayloads;
    EveryContentHasAnother(sha, payloads, duration);
    AlwaysServes(sha, parse, body, InnerPayloads(sha, payloads), duration, cid);
  }

  /** Main result: content accepted twice under one identifier and one segment count, from any
      two providers, is the same content, or a collision was met: between two payloads, or
      between two inputs of the two trees. */
  lemma AcceptedContentUnique(sha: Sha, a: VerifiedContent, b: VerifiedContent)
    requires BuiltFromSegments(sha, a) && BuiltFromSegments(sha, b)
    requires a.manifest.cid == b.manifest.cid && |a.segments| == |b.segments|
    ensures var xs, ys := LeafHashes(sha, a.segments), LeafHashes(sha, b.segments);
            || a.segments == b.segments
            || Collision(sha, Payloads(a.segments), Payloads(b.segments))
            || Collision(sha, Inputs(sha, TreeOf(xs)), Inputs(sha, TreeOf(ys)))
  {
    var xs, ys := LeafHashes(sha, a.segments), LeafHashes(sha, b.segments);
    Cid.EncodeInjective(Merkle.Root(sha, xs), Merkle.Root(sha, ys));
    RootBindsLeaves(sha, xs, ys);
    if xs == ys && a.segments != b.segments {
      var i :| 0 <= i < |a.segments| && a.segments[i] != b.segments[i];
      assert xs[i] == ys[i];
      assert a.segments[i] in Payloads(a.segments) && b.segments[i] in Payloads(b.segments);
    }
  }

  function Payloads(segments: seq<bytes>): set<bytes> {
    set s | s in segments
  }
}
