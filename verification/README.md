# A verified model of the provider node and the coordinator

The Go services of this repository record live streams, pin and mirror them, serve them with proofs, and pay the
nodes that served them. This project models the logic of six of their parts in Dafny and proves what each part is for.

- **Live recording** (`Cmaf`, `CmafProofs`, `CmafRuns`, `CmafStored`, `CmafParts`, `CmafHeld`, `CmafCases`,
  `Segmenter`, `LivePin`). Frames become media
  segments and, inside them, low-latency parts, with 32-bit wrapping timestamps; the sink refuses any gap in either
  numbering. `Cmaf` holds the code's step as a function and, beside it, a reference that cuts a frame list at its
  boundaries. A coupling invariant ties the two on every run: no segment is refused, no admitted frame is lost behind
  the first keyframe, parts are a prefix of their
  segment, and what the sink holds is known on every run, those that drop frames included.
- **NAL parsing and access units** (`Nal`, `HlsMuxer`). Three scanners over the same bytes agree with one reference
  split; batching by timestamp loses nothing.
- **Merkle manifests and verified fetching** (`Merkle`, `Text`, `Cid`, `Manifest`, `Fetch`). SHA-256 is a parameter.
  Since any such function has collisions, "or there is a collision" always names two inputs among the finitely many
  that were hashed.
- **Pinning with quotas** (`Keys`, `PinState`, `PinStore`). A counter beside the data equals the sum over what is
  pinned on every run, over a store of raw byte keys.
- **Mirroring** (`HopMetrics`, `StreamSink`, `Probes`, `MirrorStream`, `Cooldown`, `Ranker`, `MirrorProtocol`). Each
  atomic operation and each locked section of each goroutine is a step; over all interleavings of all streams a ledger
  accounts for every probe, and drops are justified exactly; the wire format round trips.
- **Proof of relay** (`Receipts`, `ReceiptStore`, `Settlement`, `Settler`, `Epoch`). Receipts are stored by raw key,
  aggregated independently of order with no byte lost, and settled by a cursor over time that pays none twice.

`Bytes`, `Results` and `Sorting` are shared: Go's integers with their wrap-around, its result pairs, and sorting
specified by what a sorted permutation is, so that no result depends on a sorting algorithm or on map order.

A Go object whose methods update its fields is a class here, with the source's loops and early returns; its methods are
proved equal to a step function, and the theorems are about runs of that function. What a step function computes is
pinned down beside it in plain terms, by contracts and lemmas that name neither it nor its constants
(`CmafStored.InitInFull`, `StreamSink.SweptExactly`, `PinState.PinAccepted`, `Epoch.TickPlainly`).

## Where the code and its documentation differ

The model follows the code. These are the places found.

- `mirror/protocol.go` says a frame carries the origin time before the length; the code writes the length first.
- A stream cut right behind the length word or the origin time wraps `io.EOF`, so the read loops take it for a clean
  end (`MirrorProtocol.CutFrame`).
- `whip/parts.go` calls parts that begin with a keyframe independent; only the first part of a segment is marked so
  (`CmafParts.IndependentFlag`).
- The first segment may begin without a keyframe although it is written as beginning with a sync sample: exactly when
  the first admitted frame is none but one follows before the first boundary (`CmafRuns.SyncExactly`,
  `CmafCases.NotSyncFirst`). One without any keyframe is dropped after its parts went out, and its index is reused, so
  that later parts under that index are refused, or appended behind the stale ones (`CmafHeld.EveryRunHeld`,
  `CmafHeld.DropHappens`).
- The part clock adds a stand-in of 3000 ticks for the last sample; the drift adds up over the parts, and
  when the clock has run ahead of the stream the unsigned difference wraps (`CmafParts.ClockDrift`,
  `CmafParts.EarlyPart`). Above thirty frames per second it never recovers: behind the first part of a segment every
  frame is a part (`CmafParts.EveryFrameAlone`, `CmafCases.PartsAtSixty`).
- `whip/hls_muxer.go` says its subtraction handles the wrap of the timestamps; the result is signed, so that it holds
  for six hours and a half and not for thirteen (`HlsMuxer.PresentedTruly`).
- The HLS parameter-set caches keep the first sets seen, not the newest (`HlsMuxer.CachesHoldFirst`,
  `HlsMuxer.CacheIsNewest`).
- A buffer of start codes alone has no units, but is stored as one sample (`Nal.LoneStartCode`).
- `VerifyProof` ties the steps neither to the index nor to the depth of the tree (`Merkle.IndexNotBound`,
  `Merkle.RootAcceptedAsLeaf`); the step directions do fix the position (`Merkle.ProofPosition`),
  though they may point behind the leaves (`Merkle.LastLeafTwice`).
- Leaves and inner nodes are hashed alike, so a root, and the identifier made of it, fixes neither the number of leaves
  nor their level: all content of two or more segments has other content under its identifier
  (`Manifest.EveryContentHasAnother`), which the stricter fetch accepts too (`Fetch.OtherContentExpected`).
- `DecodeCIDv1Raw` accepts texts the encoder never writes (`Cid.EncodeInvertsDecode`).
- `FetchAndVerifyContent` compares what it got with itself, not with the identifier asked for
  (`Fetch.OtherContentAccepted`, `Fetch.CarriesRequest`).
- A re-pin with fewer segments leaves the old tail in the store, uncounted and still served, even after an unpin
  (`PinStore.TailStillServed`); the pin limit also refuses a re-pin at the limit (`PinState.RepinAtLimit`).
- `mirror/client.go` calls the loss counter the probes expired since the last echo; a sweep and an echo that overlap can
  carry losses over an echo, or wipe out later ones (`StreamSink.CounterMeans`, `StreamSink.CarriedLoss`).
- `SelectTopK` takes a hint with coordinates, but the scoring interface carries the region only, so the coordinates
  never matter (`Ranker.HintCoordinatesIgnored`); round trips below a millisecond are lost on the same way.
- Receipts with a negative timestamp sort behind all others (`ReceiptStore.KeyOrderIsTimeOrder`).
- A clock reading of zero or less switches off the bounds of a settlement window and lets the next one settle the same
  receipts again (`Epoch.SharedExactly`); a transaction that is mined after the coordinator gave up waiting is followed
  by another over the same receipts (`Epoch.PaymentsExactly`); a receipt stored behind the cursor is never settled
  (`Epoch.LateNeverSettled`).
- The result of a settlement reports bytes by address, and of two providers paid to one address keeps the last; the
  calldata is not affected (`Settler.ReportKeepsShares`).

## Model

| member | source | states |
|---|---|---|
| Merkle.HashLevel | services/provider-node/internal/manifest/merkle.go:71-89 | one turn of the level loop gives the next level: neighbours hashed in pairs, an odd last node with itself |
| Merkle.NewTree | services/provider-node/internal/manifest/merkle.go:49-92 | which leaf lists are refused and with which error; otherwise the levels are those of the reference level construction |
| Merkle.LevelsInPairs | services/provider-node/internal/manifest/merkle.go:71-99 | in plain terms: the leaves are the first level, one digest, the root, is the last, and each level hashes the one below it two by two, left before right, the last of an odd level with itself |
| Merkle.RootIsTreeHash | services/provider-node/internal/manifest/merkle.go:71-99 | the root built level by level is the root digest of one perfect binary tree, the duplicate-last tree of the leaves |
| Merkle.RootBinds | services/provider-node/internal/manifest/merkle.go:71-99 | what a root commits to, for any two leaf lists: equal roots if and only if the deeper tree, cut off at the height of the other, is the other's duplicate-last tree, unless two inputs collide, one hashed for each root |
| Merkle.RootBindsDepth | services/provider-node/internal/manifest/merkle.go:71-99 | for lists of one depth: equal roots if and only if their duplicate-last trees coincide, or a named collision |
| Merkle.InnerLevelSharesRoot | services/provider-node/internal/manifest/merkle.go:74-89 | leaves and inner nodes are hashed alike: the level above the leaves, taken as leaves, has the same root, for every list of two or more |
| Merkle.LevelIsTree | services/provider-node/internal/manifest/merkle.go:71-99 | so does every level of the tree |
| Merkle.RootBindsLeaves | services/provider-node/internal/manifest/merkle.go:71-99 | with the leaf count fixed, equal roots mean equal leaves, or a collision among the named inputs |
| Merkle.DuplicateLastSharesRoot | services/provider-node/internal/manifest/merkle.go:71-89 | without the count they do not: every odd list of three or more shares its root with the list that repeats its last leaf |
| Merkle.MakeProof | services/provider-node/internal/manifest/proof.go:26-66 | an index out of range is refused; every other gets a proof of exactly Depth-1 steps that the verifier accepts and whose directions point back to the index |
| Merkle.VerifyProof | services/provider-node/internal/manifest/proof.go:70-106 | accepts exactly the proofs with sized inputs, an index within the count and a fold that ends in the root |
| Merkle.AcceptedExactly | services/provider-node/internal/manifest/proof.go:70-106 | in plain terms: accepted are digests of 32 bytes with an index within the count and a way up, hashed with each sibling on the side its step names, that ends in the root |
| Merkle.FoldSound | services/provider-node/internal/manifest/proof.go:88-103 | a fold of as many steps as a perfect tree is high, ending in its digest, starts at one of its leaves or meets a named collision |
| Merkle.ProofSound | services/provider-node/internal/manifest/proof.go:70-106 | soundness: a proof of Depth-1 steps accepted against the root of a tree shows membership, or an input hashed by the verifier collides with one hashed by the builder |
| Merkle.FoldPosition | services/provider-node/internal/manifest/proof.go:88-103 | a fold reaching the digest of a perfect tree starts at the leaf its directions point to, or a collision is named |
| Merkle.PlaceInTree | services/provider-node/internal/manifest/merkle.go:71-89 | which leaf stands at each position of the duplicate-last tree: the leaves at their own places, and behind them the leaf repeated there |
| Merkle.ProofPosition | services/provider-node/internal/manifest/proof.go:70-106 | soundness with the position: an accepted proof of Depth-1 steps, whatever its directions, is a proof of the leaf that stands where they point, or a collision is named |
| Merkle.IndexRight | services/provider-node/internal/manifest/proof.go:75-103 | collisions aside, a claimed index within the tree is right if and only if the leaf there is the leaf that stands where the directions point |
| Merkle.ProofComplete | services/provider-node/internal/manifest/proof.go:26-106 | completeness: the recorded steps of every index of every tree are Depth-1 many, are accepted, and point back to the index |
| Merkle.LastLeafTwice | services/provider-node/internal/manifest/proof.go:26-106 | directions that point behind the leaves are accepted with no collision: the last leaf of every odd tree of three or more has a second proof, for the position after it |
| Merkle.RootAcceptedAsLeaf | services/provider-node/internal/manifest/proof.go:70-106 | the step count is not checked: with no steps the root of any tree is accepted as a leaf |
| Merkle.IndexNotBound | services/provider-node/internal/manifest/proof.go:75-77 | nor is the index: an accepted proof is accepted under every index in range |
| Cid.DecodeCIDv1Raw | services/provider-node/internal/manifest/cid.go:46-73 | whatever it accepts gives a digest of 32 bytes |
| Cid.DecodeInvertsEncode | services/provider-node/internal/manifest/cid.go:31-73 | decoding gives back every digest that was encoded |
| Cid.EncodeInjective | services/provider-node/internal/manifest/cid.go:31-41 | two digests never share an identifier |
| Cid.EncodeInvertsDecode | services/provider-node/internal/manifest/cid.go:46-73 | re-encoding a text that decodes gives that text if and only if it holds no line end and its spare bits are zero |
| Cid.LineEndAccepted | services/provider-node/internal/manifest/cid.go:53-56 | a second text for one digest: a line end behind the identifier is skipped by the decoder |
| Cid.SharedPrefix | services/provider-node/internal/manifest/cid.go:12-20 | every identifier starts with `bafkrei` |
| Cid.EncodeInDigits | services/provider-node/internal/manifest/cid.go:31-41 | the text by position: `b`, then 58 base32 digits, digit i being bits 5i to 5i+4 of 01 55 12 20 and the digest |
| Text.Base32InDigits | services/provider-node/internal/manifest/cid.go:21-24 | for any byte string: its length, and every character as the digit of five bits, the alphabet a to z, 2 to 7 |
| Text.Base32RoundTrip | services/provider-node/internal/manifest/cid.go:21-24 | unpadded lower-case base32, section 6 of RFC 4648: decoding inverts encoding for byte strings of every length |
| Text.Base32Canonical | services/provider-node/internal/manifest/cid.go:21-24 | a decodable text is the encoder's own if and only if it has no line end and zero spare bits |
| Text.HexRoundTrip | services/provider-node/internal/manifest/manifest.go:42-63 | hexadecimal decoding inverts encoding |
| Text.HexCanonical | services/provider-node/internal/manifest/manifest.go:101-108 | a hexadecimal text that decodes differs from the encoder's at most in letter case |
| Text.HexDecodesExactly | services/provider-node/internal/manifest/manifest.go:101-108 | a text decodes to given bytes if and only if it is their encoding up to letter case |
| Text.HexInDigits | services/provider-node/internal/manifest/manifest.go:42-63 | character by character: the upper half of each byte, then the lower, digits 0 to 9 and a to f |
| Manifest.BuildFromPayloads | services/provider-node/internal/manifest/manifest.go:31-64 | succeeds exactly on a non-empty list and a positive duration, with the manifest of the payload hashes |
| Manifest.BuiltPlainly | services/provider-node/internal/manifest/manifest.go:31-64 | its fields in plain terms: version 1, the count, each payload hash in hexadecimal, their root in hexadecimal and as identifier |
| Manifest.Verify | services/provider-node/internal/manifest/manifest.go:89-133 | passes exactly when version, counts, duration, leaf texts, root and identifier all agree with the listed leaves |
| Manifest.LeafAtOfBuilt | services/provider-node/internal/manifest/manifest.go:136-148 | every leaf of a built manifest is the hash of its payload; any other index is an error |
| Manifest.BuiltVerifies | services/provider-node/internal/manifest/manifest.go:31-133 | what is built verifies |
| Manifest.VerifiedIsBuilt | services/provider-node/internal/manifest/manifest.go:89-133 | a verified manifest whose leaves are the hashes of given segments is the one built from them, up to the letter case of the root |
| Manifest.IdentifierBinds | services/provider-node/internal/manifest/manifest.go:31-133 | two manifests verified under one identifier and one segment count list the same digests, or a collision is named |
| Manifest.IdentifierBindsTree | services/provider-node/internal/manifest/manifest.go:31-133 | without the count: two verified manifests share an identifier if and only if the deeper tree, cut off at the height of the other, is the other, or a collision is named |
| Manifest.EveryContentHasAnother | services/provider-node/internal/manifest/manifest.go:31-133 | the count is needed: all content of two or more segments has other content, with fewer segments, that verifies under the same identifier, with no collision |
| Manifest.CountNotInIdentifier | services/provider-node/internal/manifest/manifest.go:31-64 | and an odd content of three or more has one with more segments: its last payload repeated |
| Fetch.FetchManifest | services/provider-node/internal/client/client.go:113-126 | returns the manifest served for the identifier exactly when it parses and verifies, whatever identifier it carries |
| Fetch.FetchManifestExpectingCID | services/provider-node/internal/client/client.go:132-141 | returns it exactly when it also carries the identifier asked for |
| Fetch.FetchSegment | services/provider-node/internal/client/client.go:146-166 | succeeds exactly when the hash header is the true hash of the body |
| Fetch.FetchSegments | services/provider-node/internal/client/client.go:304-322 | the download loop succeeds exactly when every segment carries its true hash and that is its leaf |
| Fetch.FetchAndVerifyContent | services/provider-node/internal/client/client.go:299-324 | succeeds exactly on a provider whose manifest and segments all check; the manifest returned is the one built from the segments returned, up to letter case of the root |
| Fetch.FetchAndVerifyByCID | services/provider-node/internal/client/client.go:246-268 | fails only if no reachable provider serves; the first that does wins |
| Fetch.HonestProviderServes | services/provider-node/internal/client/client.go:299-324 | a provider that answers a request with any content, honestly served, is accepted with it |
| Fetch.OtherContentAccepted | services/provider-node/internal/client/client.go:299-324 | any content is accepted as the answer to any request; its manifest carries the identifier asked for only if the request was for it |
| Fetch.CarriesRequest | services/provider-node/internal/client/client.go:132-141 | of the providers the lenient fetch accepts, the stricter one, told to expect the identifier asked for, accepts exactly those whose segments have the root of that identifier |
| Fetch.OtherContentExpected | services/provider-node/internal/client/client.go:132-141 | for content of two or more segments the stricter fetch, too, has another answer that carries the expected identifier and whose segments all check |
| Fetch.AcceptedContentUnique | services/provider-node/internal/client/client.go:299-324 | content accepted twice under one identifier and one count is byte for byte the same, or a collision is named |
| Keys.SegmentKeyInjective | services/provider-node/internal/pinning/store.go:236-240 | no two segments share a key, whatever bytes the identifiers hold |
| Keys.ManifestKeyInjective | services/provider-node/internal/pinning/store.go:236 | no two manifests share a key |
| Keys.KeysSpelled | services/provider-node/internal/pinning/store.go:236-240 | the keys as text: manifest:cid and segment:cid:index |
| Keys.DecimalSpelled | services/provider-node/internal/pinning/store.go:238-240 | indices are written in decimal |
| PinState.PinKeepsExact | services/provider-node/internal/pinning/store.go:47-123 | a pin or re-pin keeps the bytes counter equal to the footprint of what is pinned, modulo 2^64 |
| PinState.UnpinKeepsExact | services/provider-node/internal/pinning/store.go:188-234 | an unpin keeps it so if and only if the counter covers what is released, as its subtraction stops at zero |
| PinState.UnpinUndoesPin | services/provider-node/internal/pinning/store.go:47-234 | unpinning what a pin added restores the state if and only if the counter did not wrap on the way |
| PinState.RepinAtLimit | services/provider-node/internal/pinning/store.go:76-78 | a re-pin is refused at the pin limit although the number of pins would not change |
| PinState.PinAccepted | services/provider-node/internal/pinning/store.go:47-83 | in a sound state a pin that fits the counter is accepted if and only if it is well formed, there are fewer pins than the limit, and the sum of all pinned lengths with its own is within the byte limit; a limit of zero is none |
| PinState.PinAnswers | services/provider-node/internal/pinning/store.go:47-83 | for every state: which of the six errors is returned and when, in the order of the checks; a refused pin changes nothing |
| PinState.FootprintIs | services/provider-node/internal/pinning/store.go:65-98 | the footprint is the sum of the manifest length and all segment lengths over the pins, listed in any order |
| PinState.EveryRunExact | services/provider-node/internal/pinning/store.go:47-234 | with no bound on sizes: the counter equals the footprint modulo 2^64 after every step of a run if and only if no unpin of it released more than the counter showed |
| PinState.EveryRunSound | services/provider-node/internal/pinning/store.go:47-234 | after every run of pins, re-pins and unpins that fits the counter: counter equals the sum over pins of manifest and segments, usage within quota, every pin complete, and the next subtraction does not underflow |
| PinStore.PinBatchRepresents | services/provider-node/internal/pinning/store.go:109-123 | the batch of a pin turns a raw store standing for a map of pins into one standing for the map with that pin set |
| PinStore.PinBatchOrphans | services/provider-node/internal/pinning/store.go:109-123 | the batch leaves segments of no pin behind if and only if it replaces a longer pin |
| PinStore.TailStillServed | services/provider-node/internal/pinning/store.go:139-234 | the tail of a pin replaced by a shorter one is still served with its old bytes, after the re-pin and after the unpin that follows |
| PinStore.UnpinBatchRepresents | services/provider-node/internal/pinning/store.go:220-233 | the batch of an unpin gives the map without that pin, and no new orphan |
| PinStore.ContentStore.constructor | services/provider-node/internal/pinning/store.go:33-35 | an empty store stands for no pins |
| PinStore.ContentStore.WithQuota | services/provider-node/internal/pinning/store.go:39-42 | changes the limits and nothing else |
| PinStore.ContentStore.ReadUint64 | services/provider-node/internal/pinning/quota.go:50-62 | reads a counter; a missing key is zero |
| PinStore.ContentStore.Usage | services/provider-node/internal/pinning/quota.go:38-48 | reports the number of pins and the bytes counter |
| PinStore.ContentStore.GetManifest | services/provider-node/internal/pinning/store.go:126-136 | the pinned manifest, or none |
| PinStore.ContentStore.GetSegment | services/provider-node/internal/pinning/store.go:139-144 | whatever is stored under the segment's key: the pinned segment, or what a longer pin left behind; outside every pin nothing, if there are no such segments |
| PinStore.ContentStore.Has | services/provider-node/internal/pinning/store.go:148-150 | true exactly for pinned identifiers |
| PinStore.ContentStore.List | services/provider-node/internal/pinning/store.go:153-163 | exactly the pinned identifiers |
| PinStore.ContentStore.PayloadSize | services/provider-node/internal/pinning/store.go:65-70 | the sizing loop, in 64-bit arithmetic |
| PinStore.ContentStore.StoredSize | services/provider-node/internal/pinning/store.go:85-98 | the loop over stored segments gives the footprint of the pinned content |
| PinStore.ContentStore.BatchOfPin | services/provider-node/internal/pinning/store.go:109-123 | the writes of a pin: its keys as given, all other keys as before |
| PinStore.ContentStore.BatchOfUnpin | services/provider-node/internal/pinning/store.go:220-233 | the deletions of an unpin: its keys gone, all other keys as before |
| PinStore.ContentStore.Pin | services/provider-node/internal/pinning/store.go:47-123 | accepted and refused as PinState.PinAnswers says; then exactly this pin is set and the counter is the specified one; a refused pin changes nothing; orphans appear exactly when a pin shrinks; receipts in the same store are untouched |
| PinStore.ContentStore.PinPayloads | services/provider-node/internal/pinning/store.go:173-185 | pins the manifest built from the payloads under its own identifier, if and only if there are payloads and a positive duration, fewer pins than the limit, and the counter with the new lengths is within the byte limit |
| PinStore.ContentStore.Unpin | services/provider-node/internal/pinning/store.go:188-234 | never refused; the pin is gone, the counter as specified, nothing else changed |
| CmafProofs.TicksOfRun | services/provider-node/internal/whip/parts.go:59-75 | the durations of a run of frames add up to last time minus first plus 3000, modulo 2^32 |
| CmafProofs.StepCouples | services/provider-node/internal/whip/segmenter.go:110-286 | one frame: the fields of the code and the stored segments stay those of the reference segmentation, and no segment is refused |
| CmafProofs.StepParts | services/provider-node/internal/whip/segmenter.go:208-261 | one frame: the sink's parts stay right if and only if the frame does not drop keyless frames that already had parts |
| CmafProofs.NextPartRefused | services/provider-node/internal/whip/segmenter.go:253-261 | after such a drop the segment index is reused and the next part is refused by the sink |
| CmafRuns.EveryRunFollows | services/provider-node/internal/whip/segmenter.go:78-286 | every reachable state: fields equal the reference's, stored segments are exactly the delivered ones with their hashes beside them, init and segments never refused |
| CmafRuns.CloseFollows | services/provider-node/internal/whip/segmenter.go:93-100 | closing delivers the open segment, and the next index is the sink's leaf count |
| CmafStored.InitInFull | services/provider-node/internal/whip/segmenter.go:115-142 | on every run, Close included: the sink holds no init segment and no frame is admitted before both parameter sets are known and can be encoded; from then on it holds what the encoder made of the sets newest then, whatever comes later |
| CmafStored.ParamIsNewest | services/provider-node/internal/whip/segmenter.go:115-125 | those sets are, of the units received, the last of types 7 and 8 |
| CmafStored.StoredInFull | services/provider-node/internal/whip/segmenter.go:144-286 | after any frames and Close, byte for byte: each group of admitted frames cut at keyframes 540000 ticks in, but a first one without a keyframe, is stored as one fragment of all its samples with their durations |
| CmafStored.PartsMade | services/provider-node/internal/whip/segmenter.go:193-199 | on every run a part is made exactly when parts are on and the frame comes 180000 ticks or more after the first of its segment plus what the parts before have reported; it holds all since the last |
| CmafStored.PartPlainly | services/provider-node/internal/whip/segmenter.go:208-247 | the record of every part: its index, the fragment of its samples, its duration and its flag |
| CmafStored.NumbersCountUp | services/provider-node/internal/whip/segmenter.go:208-286 | the fragments of segments and parts are numbered 1, 2, 3, … in the order they are made, modulo 2^32 |
| CmafRuns.GreedyCuts | services/provider-node/internal/whip/segmenter.go:147-174 | the reference loses no frame and cuts exactly at the keyframes six seconds or more into a segment |
| CmafRuns.RunsAreGreedy | services/provider-node/internal/whip/segmenter.go:147-261 | the segments of every run are that segmentation; only the first may be dropped, for want of a keyframe; each delivered one holds a keyframe and each after the first starts with one |
| CmafRuns.DeliveryLosesNothing | services/provider-node/internal/whip/segmenter.go:78-286 | after any frames and Close the stored segments are the encodings of groups that, behind those dropped, are all admitted frames in order |
| CmafRuns.SyncExactly | services/provider-node/internal/whip/segmenter.go:320-345 | every stored segment begins with the sync sample it is written to begin with if and only if the first admitted frame is a keyframe or none comes before the first boundary, in which case the first group is dropped |
| CmafCases.NotSyncFirst | services/provider-node/internal/whip/segmenter.go:320-345 | it fails: parameter sets in a packet of their own, a keyframe and Close store a segment that begins with the packet of parameter sets |
| CmafParts.KeyframeFirst | services/provider-node/internal/whip/segmenter.go:249-261 | a keyframe before the first boundary is enough: nothing is ever dropped |
| CmafParts.PartsTile | services/provider-node/internal/whip/segmenter.go:208-247 | the sample runs of a segment's parts laid end to end are a prefix of it |
| CmafParts.ClockBehind | services/provider-node/internal/whip/segmenter.go:241-246 | with frames 3000 ticks apart or more and no wrap in the segment, the part clock never passes the first sample not yet in a part |
| CmafParts.PartClockTrue | services/provider-node/internal/whip/segmenter.go:193-199 | then the elapsed time tested is the true one: the unsigned subtraction does not underflow |
| CmafParts.ClockDrift | services/provider-node/internal/whip/segmenter.go:193-246 | what is tested for the next frame, in every segment: the true time since the parts, plus the gaps behind them, less 3000 ticks for each, modulo 2^32 |
| CmafParts.ClockInTime | services/provider-node/internal/whip/segmenter.go:193-246 | without a wrap the part clock is in time if and only if the gaps behind the parts come to 3000 ticks for each |
| CmafParts.EarlyPart | services/provider-node/internal/whip/segmenter.go:193-199 | right behind its parts a segment's next frame is cut as a part of its own if and only if the gaps behind the parts, less 3000 ticks for each, come to two seconds or wrap |
| CmafParts.NextFrameAlone | services/provider-node/internal/whip/segmenter.go:193-246 | above thirty frames per second the clock never recovers: behind a part the next frame of the segment is cut as a part of its own |
| CmafParts.EveryFrameAlone | services/provider-node/internal/whip/segmenter.go:193-246 | and so is every frame after it to the end of the segment, for more than a million frames |
| CmafCases.DenseGroup | services/provider-node/internal/whip/segmenter.go:193-246 | how a first group of such frames is cut, frame by frame: nothing for two seconds, one part of all that, and then each frame alone |
| CmafCases.PartsAtSixty | services/provider-node/internal/whip/segmenter.go:193-246 | a run at sixty frames per second on which the sink holds n - 120 parts after n frames |
| CmafParts.IndependentFlag | services/provider-node/internal/whip/segmenter.go:235-241 | the flag of a part says whether it begins with a keyframe if and only if it is the first of its segment or begins with none |
| CmafHeld.StepHeld | services/provider-node/internal/whip/segmenter.go:208-261 | one frame of any run: what the sink holds as parts is known, and the frame's part is refused if and only if it belongs to index 0 and no more parts were cut there than a dropped group left |
| CmafHeld.EveryRunHeld | services/provider-node/internal/whip/segmenter.go:208-261 | on every run: each segment but the first has exactly its parts; under index 0 stand those of the dropped group, if any, then those of the first segment beyond their number |
| CmafHeld.RefusedExactly | services/provider-node/internal/whip/livepin.go:75-94 | on every run a part is refused exactly in that one case |
| CmafHeld.NoneRefusedLater | services/provider-node/internal/whip/livepin.go:75-94 | none is refused once a segment has been delivered |
| CmafHeld.HeldArePrefix | services/provider-node/internal/whip/segmenter.go:208-286 | of every delivered segment but the first, and of the first when nothing was dropped with parts, the parts are numbered 0, 1, 2, …, and their samples end to end are a prefix of the samples of that segment |
| CmafHeld.StaleExactly | services/provider-node/internal/whip/segmenter.go:253-261 | when a group with parts is dropped, said on the input: the first group is followed by another, holds no keyframe, and has a frame two seconds or more after its first |
| CmafHeld.DropHappens | services/provider-node/internal/whip/segmenter.go:253-261 | it happens: a run of four frames on which a part is refused, for every encoder that accepts the parameter sets |
| Segmenter.CMAFSegmenter.OnVideoFrame | services/provider-node/internal/whip/segmenter.go:78-84 | the object's fields and the sink take exactly the specified step; an error is swallowed |
| Segmenter.CMAFSegmenter.Close | services/provider-node/internal/whip/segmenter.go:93-100 | the final flush, with its outcome |
| Segmenter.CMAFSegmenter.IngestFrame | services/provider-node/internal/whip/segmenter.go:110-202 | parameter sets, init segment, boundary, append and part, with every early return |
| Segmenter.CMAFSegmenter.CaptureParams | services/provider-node/internal/whip/segmenter.go:115-125 | the newest parameter sets of the frame replace the old ones |
| Segmenter.CMAFSegmenter.EmitInit | services/provider-node/internal/whip/segmenter.go:127-142 | once both sets are there the sink is given what the encoder made of SPS and PPS, in this order, and only once; in every other case init segment and flag stay as they are; both failures |
| Segmenter.CMAFSegmenter.AddSample | services/provider-node/internal/whip/segmenter.go:147-201 | boundary, duration of the previous sample, append, part |
| Segmenter.CMAFSegmenter.AppendSample | services/provider-node/internal/whip/segmenter.go:167-185 | the previous sample's duration is filled in from the running sum, modulo 2^32 |
| Segmenter.CMAFSegmenter.EmitPartLocked | services/provider-node/internal/whip/segmenter.go:208-247 | the part record, the cursors moved before the sink is called, and its outcome |
| Segmenter.CMAFSegmenter.BuildPartSegment | services/provider-node/internal/whip/parts.go:39-82 | one fragment of the samples and the sum of their durations modulo 2^32; nothing for no samples or unequal lists |
| Segmenter.CMAFSegmenter.FlushLocked | services/provider-node/internal/whip/segmenter.go:249-286 | empty and keyless segments, delivery, and the counters |
| LivePin.AddSegmentMatches | services/provider-node/internal/whip/livepin.go:137-148 | each leaf stays the hash of the segment stored beside it |
| LivePin.BuiltMatchesSnapshot | services/provider-node/internal/whip/livepin.go:157-210 | the manifest of the stored segments has the identifier, root and count of the snapshot |
| LivePin.LivePinSink.OnMediaPart | services/provider-node/internal/whip/livepin.go:75-94 | taken exactly when its index is the number of parts so far; otherwise nothing changes |
| LivePin.LivePinSink.OnInitSegment | services/provider-node/internal/whip/livepin.go:124-132 | taken once; a second is refused |
| LivePin.LivePinSink.OnMediaSegment | services/provider-node/internal/whip/livepin.go:137-148 | taken exactly when its index is the leaf count, with its hash as the new leaf |
| LivePin.LivePinSink.TakeSnapshot | services/provider-node/internal/whip/livepin.go:157-183 | count, root, identifier and init segment of this moment |
| LivePin.LivePinSink.SegmentBytes | services/provider-node/internal/whip/livepin.go:239-246 | a segment whose hash is its leaf, exactly for indices in range |
| LivePin.LivePinSink.Finalize | services/provider-node/internal/whip/livepin.go:190-210 | succeeds exactly when already finalized, or there are segments and a positive duration and the limits of the store leave room for them; a first success pins them under the snapshot's identifier and count; every later call returns the same manifest and changes nothing |
| Nal.FindStartCode | services/provider-node/internal/whip/frames.go:226-233 | the first position of 00 00 00 01, or -1 |
| Nal.SplitNALUnits | services/provider-node/internal/whip/segmenter.go:358-375 | the loop returns the reference split |
| Nal.SplitAnnexBNALs | services/provider-node/internal/whip/hls_muxer.go:170-187 | the other loop returns the same split |
| Nal.IsKeyframe | services/provider-node/internal/whip/frames.go:198-224 | true if and only if some unit of the split has type 5 |
| Nal.TypeBits | services/provider-node/internal/whip/frames.go:212-226 | the type of a unit is the low five bits of its first byte, whatever the upper three: 0x25, 0x45 and 0x65 are all of type 5 |
| Nal.FirstCodeCorrect | services/provider-node/internal/whip/frames.go:226-233 | the position is the first start code, and nothing else is |
| Nal.JoinOfFields | services/provider-node/internal/whip/segmenter.go:358-375 | cutting at start codes loses no byte and leaves none inside a field |
| Nal.SplitIsNonEmptyFields | services/provider-node/internal/whip/segmenter.go:358-375 | the split is the fields between start codes, the empty ones left out |
| Nal.SplitOfJoin | services/provider-node/internal/whip/segmenter.go:358-375 | splitting a start-code join of code-free units gives back the non-empty ones |
| Nal.JoinOfSplit | services/provider-node/internal/whip/segmenter.go:358-375 | joining the split gives the buffer back if and only if it has no empty field |
| Nal.EncodeAVCCSample | services/provider-node/internal/whip/segmenter.go:379-398 | the loop writes each unit behind its length; a buffer without units becomes one sample |
| Nal.SampleRoundTrip | services/provider-node/internal/whip/segmenter.go:379-398 | a decoder of the sample sees exactly the units of the frame if and only if each is shorter than four gigabytes and there is one, or the buffer is empty |
| Nal.LoneStartCode | services/provider-node/internal/whip/segmenter.go:379-398 | the exception: a lone start code is stored as a unit |
| HlsMuxer.BatchingRefinesRuns | services/provider-node/internal/whip/hls_muxer.go:139-255 | after Close the units written are, injected sets removed, the timestamp runs of the input, each under its one timestamp |
| HlsMuxer.RunsCutByTime | services/provider-node/internal/whip/hls_muxer.go:139-159 | what these runs are: the input cut where the timestamp changes and nowhere else, with the NAL units between the cuts |
| HlsMuxer.NothingLost | services/provider-node/internal/whip/hls_muxer.go:139-255 | and together they hold exactly the units of all frames, in order |
| HlsMuxer.RelIsTrue | services/provider-node/internal/whip/hls_muxer.go:230-233 | the signed 32-bit distance of two wrapped times is the true one if and only if that lies within 2^31 ticks |
| HlsMuxer.PresentedTruly | services/provider-node/internal/whip/hls_muxer.go:139-255 | on every run a unit is presented at the true distance of its frames from the first if and only if that lies within 2^31 ticks, about six hours and a half |
| HlsMuxer.FlushSelfDecodable | services/provider-node/internal/whip/hls_muxer.go:189-241 | a flushed unit with an IDR carries units of types 7 and 8 if and only if both caches are filled; which units these are is HlsMuxer.InjectedInFull |
| HlsMuxer.FilledCachesSuffice | services/provider-node/internal/whip/hls_muxer.go:189-241 | from filled caches on, every unit with an IDR carries units of both types, through any frames and the final flush |
| HlsMuxer.InjectedInFull | services/provider-node/internal/whip/hls_muxer.go:189-241 | on every run, Close included, what is injected before each unit written: where its body holds an IDR and both sets are known by then, the SPS if the body lacks one and then the PPS if it lacks one, else nothing; each is the set given at the start or, if none was, the first of its type in the input up to that unit |
| HlsMuxer.InjectedWhen | services/provider-node/internal/whip/hls_muxer.go:219-229 | so something is injected if and only if the body holds type 5, lacks 7 or 8, and both sets are known |
| HlsMuxer.CacheIsWriteOnce | services/provider-node/internal/whip/hls_muxer.go:200-218 | a filled cache never changes again |
| HlsMuxer.CachesHoldFirst | services/provider-node/internal/whip/hls_muxer.go:139-255 | after Close each cache holds the set it was given, or else the first of its type in the whole input |
| HlsMuxer.CacheIsNewest | services/provider-node/internal/whip/hls_muxer.go:200-218 | what is cached is the newest set at every point of the input if and only if the input brings no other |
| HlsMuxer.Muxer.OnVideoFrame | services/provider-node/internal/whip/hls_muxer.go:139-159 | the object takes exactly the specified step |
| HlsMuxer.Muxer.ScanCurrentAU | services/provider-node/internal/whip/hls_muxer.go:200-218 | which types the unit holds, and the first parameter sets seen go into empty caches |
| HlsMuxer.Muxer.FlushCurrentAU | services/provider-node/internal/whip/hls_muxer.go:189-241 | the unit written is the open one behind what HlsMuxer.InjectedInFull says, with its time; nothing is written when none is open |
| HlsMuxer.Muxer.Close | services/provider-node/internal/whip/hls_muxer.go:249-255 | the last unit is flushed |
| HopMetrics.RingIsWindow | services/provider-node/internal/mirror/hop_metrics.go:98-111 | the ring holds exactly the last min(n, 256) samples, as a multiset |
| HopMetrics.EmaBetween | services/provider-node/internal/mirror/hop_metrics.go:106-110 | the average lies between the least and the greatest sample ever recorded, truncation and restarts included |
| HopMetrics.PercentileIsRanked | services/provider-node/internal/mirror/hop_metrics.go:208-221 | the percentile is a sample of the window, with at most the code's rank of samples below it and more than that not above it |
| HopMetrics.PercentileInNumbers | services/provider-node/internal/mirror/hop_metrics.go:208-221 | the percentile of n samples is one of them; where n q is a hundred or more, fewer than n q / 100 samples are below it and at least that many not above it, else none is below it |
| HopMetrics.PercentilesOrdered | services/provider-node/internal/mirror/hop_metrics.go:171-183 | P50 ≤ P95 ≤ P99 on every window |
| HopMetrics.PercentileOfRing | services/provider-node/internal/mirror/hop_metrics.go:198-206 | the percentile of the ring is that of the window, wherever the ring starts |
| HopMetrics.Metrics.RecordEcho | services/provider-node/internal/mirror/hop_metrics.go:98-111 | one more sample recorded; the average is a tenth of it and nine tenths of the average before, cut toward zero, and starts at the first sample |
| HopMetrics.Metrics.IncProbeLoss | services/provider-node/internal/mirror/hop_metrics.go:113-119 | one more loss, modulo 2^32, and no sample |
| HopMetrics.Metrics.EchoPercentile | services/provider-node/internal/mirror/hop_metrics.go:198-206 | the percentile of the last 256 samples ever recorded |
| HopMetrics.PercentileOf | services/provider-node/internal/mirror/hop_metrics.go:208-221 | sorts a copy and takes the ranked sample; zero when there is none |
| StreamSink.CounterCounts | services/provider-node/internal/mirror/client.go:525-656 | the loss counter is the number of losses added since it was last reset, modulo 2^32 |
| StreamSink.LossesWereSwept | services/provider-node/internal/mirror/client.go:627-650 | what is added was swept: the losses under way are the probes expired by the sweep the writer is at |
| StreamSink.CounterAccount | services/provider-node/internal/mirror/client.go:525-656 | for every interleaving of writer and reader: losses counted, wiped out by an echo and under way are the losses since the last echo and those carried over from before it |
| StreamSink.CounterMeans | services/provider-node/internal/mirror/client.go:525-656 | so at rest the counter is the number of probes expired since the last echo if and only if as much was carried over as was wiped out |
| StreamSink.NothingCarried | services/provider-node/internal/mirror/client.go:525-656 | neither happens where no echo and no sweep are under way together |
| StreamSink.CarriedLoss | services/provider-node/internal/mirror/client.go:525-656 | a carried loss: probes swept, an echo handled in full, then the losses added |
| StreamSink.WholeEcho | services/provider-node/internal/mirror/client.go:522-545 | an echo handled without interruption removes its probe and clears the counter; one that matches nothing does nothing |
| StreamSink.WholeSweep | services/provider-node/internal/mirror/client.go:627-656 | a sweep without interruption removes the expired probes, adds them to the counter, and asks for a drop at five or more; which are expired is StreamSink.SweptExactly |
| StreamSink.SweptExactly | services/provider-node/internal/mirror/client.go:627-638 | on every history: a probe sent at t and still outstanding leaves the map by a sweep at u if and only if u - t is more than 5000000000 |
| StreamSink.AddedMeans | services/provider-node/internal/mirror/client.go:627-656 | behind every drop requested by losses stand five or more different probes, each sent more than five seconds before the sweep that took it and outstanding until then |
| StreamSink.BaselineLockedOnce | services/provider-node/internal/mirror/client.go:570-600 | the baseline is the first reading that is not zero, and never changes again |
| StreamSink.TickCorrect | services/provider-node/internal/mirror/client.go:570-625 | a tick past the learning window asks for a drop exactly when it continues thirty seconds above the threshold |
| StreamSink.WatcherCorrect | services/provider-node/internal/mirror/client.go:570-625 | on every history the watcher's fields mean that, and the drop flag changes only at such events |
| StreamSink.DropExactly | services/provider-node/internal/mirror/client.go:501-656 | a stream is asked to drop if and only if at some moment a write failed, losses added made five or more since the counter was reset, or a degradation lasted thirty seconds; the request never clears |
| StreamSink.TripJustified | services/provider-node/internal/mirror/client.go:570-656 | behind each request stand five expiries counted since the last echo was recorded in full, or thirty seconds of readings all above one and a half times a non-zero baseline locked after sixty seconds, all in numbers |
| StreamSink.ThresholdExact | services/provider-node/internal/mirror/client.go:592-604 | the rounded threshold is exact for non-negative baselines |
| Probes.LedgerBalances | services/provider-node/internal/mirror/client.go:501-656 | through any interleaving of the atomic steps of all goroutines over any streams, every probe number drawn is answered, expired or held by one stream, never two of these, and the metrics with what is in hand count exactly those |
| Probes.ProbesConserved | services/provider-node/internal/mirror/client.go:501-656 | at every moment, per peer over all its streams: drawn = echoes recorded + echoes in hand + lost + held; the loss counter lacks only the losses in hand |
| Probes.ConservedAtRest | services/provider-node/internal/mirror/client.go:501-656 | where no goroutine of the peer is within a call: sent = echoes recorded + counted lost + outstanding |
| Probes.LinkHistory | services/provider-node/internal/mirror/client.go:285-350 | every stream of the origin is a run of the single stream over its own history |
| Probes.TrueReadings | services/provider-node/internal/mirror/client.go:570-625 | the readings in that history are the 95th percentiles of the peer's echoes as they stood then |
| Probes.RecordsRoundTrip | services/provider-node/internal/mirror/client.go:522-540 | what is recorded with a peer is the time between sending a probe and taking up its echo |
| Probes.DropsOfOrigin | services/provider-node/internal/mirror/client.go:501-656 | through any interleaving over all streams, each is asked to drop if and only if its own history trips, and behind each trip stands its cause |
| MirrorStream.ProbeCounter.Next | services/provider-node/internal/mirror/client.go:548-552 | numbers are drawn one after another, modulo 2^64 |
| MirrorStream.Sink.SendProbe | services/provider-node/internal/mirror/client.go:548-558 | a number is drawn and outstanding before the probe is written |
| MirrorStream.Sink.TakeEcho | services/provider-node/internal/mirror/client.go:527-538 | the locked section: the probe is looked up and removed |
| MirrorStream.Sink.RecordTaken | services/provider-node/internal/mirror/client.go:539-540 | its round trip is recorded with the peer |
| MirrorStream.Sink.ResetLoss | services/provider-node/internal/mirror/client.go:541-544 | the counter is reset |
| MirrorStream.Sink.ReceiveEcho | services/provider-node/internal/mirror/client.go:522-545 | the reader's three steps in turn: a matched echo is removed, recorded and resets the counter; an unmatched one does nothing |
| MirrorStream.Sink.Expire | services/provider-node/internal/mirror/client.go:627-638 | exactly the probes sent before the cutoff go, and are counted |
| MirrorStream.Sink.ExpireSection | services/provider-node/internal/mirror/client.go:627-638 | the locked section: every probe up to five seconds old stays, every older one goes and is counted |
| MirrorStream.Sink.CountLosses | services/provider-node/internal/mirror/client.go:641-643 | the losses are counted with the peer one by one |
| MirrorStream.Sink.AddLosses | services/provider-node/internal/mirror/client.go:644-656 | they are added to the stream's counter, which at five or more asks for the drop |
| MirrorStream.Sink.SweepOutstanding | services/provider-node/internal/mirror/client.go:627-656 | one sweep: every probe up to 5000000000 old stays and every older one goes; their number is added to the counter, five or more ask for the drop, and the peer's loss counter grows by it |
| MirrorStream.Sink.CheckP95Drift | services/provider-node/internal/mirror/client.go:570-625 | the drift tick on the 95th percentile of the window |
| Cooldown.CooldownExact | services/provider-node/internal/mirror/client.go:109-160 | with a clock that never goes back, a peer is found cooling at t if and only if some earlier cooldown reaches to t, whatever was pruned between |
| Cooldown.CooldownAnyClock | services/provider-node/internal/mirror/client.go:109-160 | for any clock: if and only if some cooldown reaches to t and no pruning since has read a clock past its end |
| Cooldown.ClockBackForgets | services/provider-node/internal/mirror/client.go:128-141 | so with a clock that goes back a pruned cooldown is forgotten |
| Cooldown.CoolingPlainly | services/provider-node/internal/mirror/client.go:64-124 | the reference in numbers: entered for at least as long, zero meaning 60000000000, or dropped within the last 60000000000 |
| Cooldown.DroppedPeerStaysOut | services/provider-node/internal/mirror/client.go:220-282 | after a drop no call opens a stream to that peer for sixty seconds, whatever happens between and whatever peers are listed |
| Cooldown.OthersAreTaken | services/provider-node/internal/mirror/client.go:220-282 | every listed peer that can be dialed, is not the client, and was neither dropped within the last minute nor entered for longer is taken |
| Cooldown.Client.EnterCooldown | services/provider-node/internal/mirror/client.go:109-124 | the history grows by the event, from which CooldownExact and CoolingPlainly say who is cooling; entering again can only prolong |
| Cooldown.Client.IsInCooldown | services/provider-node/internal/mirror/client.go:128-141 | answers whether a cooldown in the history still covers now |
| Cooldown.Client.CooldownSnapshot | services/provider-node/internal/mirror/client.go:147-160 | exactly the peers cooling now; the rest is pruned |
| Cooldown.Client.EndStream | services/provider-node/internal/mirror/client.go:407-418 | a dropped stream puts its peer into cooldown |
| Cooldown.Client.StartMirroring | services/provider-node/internal/mirror/client.go:220-282 | opens to exactly the listed peers that could be dialed, are not itself and are not cooling, in order, as often as listed |
| Cooldown.TakenInOrder | services/provider-node/internal/mirror/client.go:220-282 | the answer by position: each place of the list that qualifies has its place in it behind those before, and there are no others |
| Ranker.ChoiceIndependentOfOrder | services/provider-node/internal/mirror/ranker_adapter.go:175-210 | whatever order the candidate map is walked in, the same peers are chosen in the same order |
| Ranker.ChosenAreLeast | services/provider-node/internal/mirror/ranker.go:109-143 | the chosen are the k least by score and identifier among those not cooling, in that order, or all of them; what scores less is Ranker.BetterComesFirst |
| Ranker.RegionSteps | services/provider-node/internal/mirror/ranker.go:169-180 | all else being equal, own region, own known continent and elsewhere score 25 and 75 apart, times gamma |
| Ranker.RoundTripUsed | services/provider-node/internal/mirror/ranker.go:146-164 | which round trip is scored after the HTTP form: the measured one, the bootstrap one, the distance at 200 km a millisecond, or 999 |
| Ranker.BetterComesFirst | services/provider-node/internal/mirror/ranker.go:109-180 | of two candidates that differ only in the region, or in the sessions, or in the identifier, or in how quickly they are reached, the nearer, less busy, lexicographically smaller or quicker one comes first, each for a positive weight; a measured round trip decides before the bootstrap one, and that before the distance |
| Ranker.NeverWithoutBetter | services/provider-node/internal/mirror/ranker.go:109-143 | so the worse of the two is never chosen without the better, which then stands before it |
| Ranker.PoolIs | services/provider-node/internal/mirror/ranker_adapter.go:64-107 | what the pool holds of a peer: its last dynamic entry, else its last static one, else its name alone, with its measured round trip in place of the listed one |
| Ranker.CandidateSnapshot | services/provider-node/internal/mirror/ranker_adapter.go:64-107 | static, dynamic and measured peers pooled, one candidate each, in the form the HTTP layer carries |
| Ranker.KeepWarm | services/provider-node/internal/mirror/ranker_adapter.go:186-196 | the peers not cooling, in order |
| Ranker.SelectTopK | services/provider-node/internal/mirror/ranker_adapter.go:175-210 | the identifiers returned are those of every walk order: at most k, k ≤ 0 meaning three, out of the pool, not cooling and decodable; all of these if the pool is no larger; never a peer without those that Ranker.BetterComesFirst puts before it |
| Ranker.ScoreByRegion | services/provider-node/internal/mirror/ranker_adapter.go:110-128 | the candidates in order of score and identifier, the viewer known by region only; what scores less is Ranker.BetterComesFirst |
| Ranker.DecodePeers | services/provider-node/internal/mirror/ranker_adapter.go:198-209 | the identifiers that decode, in order |
| Ranker.HintCoordinatesIgnored | services/provider-node/internal/mirror/ranker_adapter.go:197 | the coordinates of the hint never change the choice; the viewer is placed at the origin, or nowhere |
| Ranker.SubMillisecondLost | services/provider-node/internal/mirror/ranker_adapter.go:130-164 | the HTTP form scores a candidate by another round trip if and only if it has one, below a millisecond, and what is left to score by is not zero |
| MirrorProtocol.RawRoundTrip | services/provider-node/internal/mirror/protocol.go:291-341 | a frame written is the frame read, and nothing behind it is consumed |
| MirrorProtocol.ReadRawIsCanonical | services/provider-node/internal/mirror/protocol.go:313-341 | the reader accepts nothing but encodings of frames |
| MirrorProtocol.PrefixFree | services/provider-node/internal/mirror/protocol.go:291-309 | no frame's encoding is a proper prefix of another's |
| MirrorProtocol.CutFrame | services/provider-node/internal/mirror/protocol.go:313-341 | a frame cut short is never read as a frame; it passes for the end of the stream exactly when cut right behind the length word or the origin time |
| MirrorProtocol.FrameInBytes | services/provider-node/internal/mirror/protocol.go:127-219 | every frame byte by byte: type 2 or 3, length, origin time and payload; 5 or 6, the length 16, identifier and send time; 4 and a length of zero |
| MirrorProtocol.RefusedWhen | services/provider-node/internal/mirror/protocol.go:255-341 | which bytes are refused as too large, of unknown type, as a second header, as a close frame or as a bad probe |
| MirrorProtocol.StreamRoundTrip | services/provider-node/internal/mirror/protocol.go:127-341 | every list of frames accepted by the writers is read back in order, then the end: a close frame, or the stream running out |
| MirrorProtocol.ReadAllIsCanonical | services/provider-node/internal/mirror/protocol.go:255-341 | of any bytes, the frames read are exactly those whose encodings the bytes begin with |
| MirrorProtocol.EmitInjective | services/provider-node/internal/mirror/protocol.go:127-309 | two lists of frames with equal bytes are equal |
| MirrorProtocol.SessionRoundTrip | services/provider-node/internal/mirror/protocol.go:99-341 | header first, then every frame, then the end |
| MirrorProtocol.ProbesComeBack | services/provider-node/internal/mirror/server.go:155-222 | the origin reads back one echo per probe, with its identifier, in order, whatever RTP went between |
| MirrorProtocol.EchoesInOrder | services/provider-node/internal/mirror/server.go:196-222 | there are as many echoes as probes, and each probe is answered behind the answers to those before it, with its own identifier and time |
| MirrorProtocol.Stream.WriteFrame | services/provider-node/internal/mirror/protocol.go:291-309 | type, length, prefix and body are appended in that order |
| MirrorProtocol.Stream.WriteHeader | services/provider-node/internal/mirror/protocol.go:99-108 | refused exactly above 65536 bytes; else 1, the length and the header are appended |
| MirrorProtocol.Stream.WriteRTPFrame | services/provider-node/internal/mirror/protocol.go:129-139 | refused exactly for a kind other than 2 and 3 or above 65536 bytes; else kind, length, origin time and payload are appended |
| MirrorProtocol.Stream.WriteProbe | services/provider-node/internal/mirror/protocol.go:208-211 | 5, 0, 0, 0, 16, the identifier and the send time are appended |
| MirrorProtocol.Stream.WriteProbeEcho | services/provider-node/internal/mirror/protocol.go:216-219 | the same behind a 6 |
| MirrorProtocol.Stream.WriteCloseFrame | services/provider-node/internal/mirror/protocol.go:189-191 | 4, 0, 0, 0, 0 are appended |
| MirrorProtocol.Stream.ReadFrame | services/provider-node/internal/mirror/protocol.go:313-341 | every outcome of the low-level reader, with what it leaves unread |
| MirrorProtocol.Stream.ReadHeader | services/provider-node/internal/mirror/protocol.go:112-125 | the header frame, or the error |
| MirrorProtocol.Stream.ReadAnyFrame | services/provider-node/internal/mirror/protocol.go:255-286 | the next RTP, probe or echo frame, or the error, end included |
| MirrorProtocol.Serve | services/provider-node/internal/mirror/server.go:156-222 | the mirror's loop reads all frames up to the first error and writes one echo for each probe, in order, nothing else |
| Receipts.CanonicalBytesDetermine | services/provider-node/por/receipt.go:46-69 | the signed bytes determine all seven signed fields, for texts below four gigabytes |
| Receipts.CanonicalLayout | services/provider-node/por/receipt.go:46-69 | where everything stands in the signed bytes: provider, viewer and content identifier behind their lengths, then index, size, timestamp and nonce in eight bytes each |
| Bytes.FourBytes | services/provider-node/por/receipt.go:156-162 | which four bytes a word is, the most significant first |
| Bytes.EightBytes | services/provider-node/por/receipt.go:46-69 | a longer word is its upper half and then its lower half |
| Receipts.SignaturesNotSigned | services/provider-node/por/receipt.go:46-69 | and nothing but those fields |
| Receipts.LengthWraps | services/provider-node/por/receipt.go:156-162 | the bound is needed: at four gigabytes the length wraps and two providers' receipts share their signed bytes |
| Receipts.HashBindsReceipt | services/provider-node/por/receipt.go:73-76 | equal receipt hashes mean the same signed receipt, or a named collision |
| Receipts.PassMeansBothSigned | services/provider-node/por/receipt.go:101-154 | a receipt passes if and only if the two peers it names both signed these very fields |
| ReceiptStore.ReceiptKeyInjective | services/provider-node/por/store.go:114-126 | no two entries share a key, colons in peer identifiers included |
| ReceiptStore.KeySpelled | services/provider-node/por/store.go:114-126 | the key byte by byte: receipt:provider:timestamp:nonce, both in eight bytes, the most significant first |
| ReceiptStore.ParseAccepts | services/provider-node/por/store.go:129-137 | under one provider's prefix exactly its own keys parse, giving timestamp and nonce back |
| ReceiptStore.KeyOrder | services/provider-node/por/store.go:114-126 | byte order of one provider's keys is the order of (unsigned timestamp, nonce) |
| ReceiptStore.KeyOrderIsTimeOrder | services/provider-node/por/store.go:114-119 | that is the order of time exactly between timestamps of one sign or equal ones |
| ReceiptStore.AscendingInTime | services/provider-node/por/store.go:52-54 | so for non-negative timestamps the answer ascends in (timestamp, nonce) |
| ReceiptStore.WindowPlainly | services/provider-node/por/store.go:66-73 | what a window holds: since ≤ time < until, a bound that is not positive being none |
| ReceiptStore.PinsUntouched | services/provider-node/por/store.go:28-33 | writes to receipt keys change nothing of what the store stands for as a pin store |
| ReceiptStore.ReceiptsUntouched | services/provider-node/por/store.go:28-33 | and pinning or unpinning changes no receipt |
| ReceiptStore.Store.Put | services/provider-node/por/store.go:38-50 | refuses nil and nameless receipts; otherwise sets the entry of (provider, timestamp, nonce) |
| ReceiptStore.Store.Delete | services/provider-node/por/store.go:110-112 | removes that entry and nothing else |
| ReceiptStore.Store.ListKeysWithPrefix | services/provider-node/storage/badger.go:122-134 | exactly the keys with the prefix, each once, in byte order |
| ReceiptStore.Store.GetByProvider | services/provider-node/por/store.go:55-84 | exactly the provider's latest receipts in [since, until), each once, in key order |
| ReceiptStore.Store.List | services/provider-node/por/store.go:89-107 | every stored receipt, each once |
| Settlement.SeenKeyInjective | services/provider-node/por/aggregator.go:45-49 | the duplicate test confuses no two receipts, although peer identifiers may hold colons |
| Settlement.SettlementUnique | services/provider-node/por/aggregator.go:34-90 | whatever order the receipts come in, root, providers, shares and total are the same |
| Settlement.AcceptablePermutation | services/provider-node/por/aggregator.go:39-50 | success does not depend on the order either |
| Settlement.SharesAddUp | services/provider-node/por/aggregator.go:53-58 | the sums per provider add up to the sum of all sizes |
| Settlement.SumForRemove | services/provider-node/por/aggregator.go:53-58 | taking one receipt out lowers the sum of its provider by its size and no other sum |
| Settlement.LeavesInOrder | services/provider-node/por/aggregator.go:69-76 | the leaves of the tree are the hashes of the signed bytes of all receipts, in byte order |
| Settlement.Conserved | services/provider-node/por/aggregator.go:53-67 | shares add up to the total and to the bytes served, modulo 2^64; exactly, share by share, when sizes are non-negative and the sum fits |
| Settlement.RootCommits | services/provider-node/por/aggregator.go:69-80 | two settlements with one root and one count: every signed receipt of one is in the other, or a named collision is found |
| Settlement.RootCommitsAll | services/provider-node/por/aggregator.go:69-80 | and with multiplicity: the same signed strings, each as often, or a named collision |
| Settlement.NodeSizedExactly | services/provider-node/por/receipt.go:46-69 | a receipt's signed string is as long as an inner node's input exactly when its three texts are twenty bytes together |
| Settlement.RootAloneCommits | services/provider-node/por/aggregator.go:69-80 | the count is not needed: two settlements with one root, over receipts none of which is as long as an inner node, have one count and the same signed strings, each as often, or a collision is found among what was hashed |
| Settlement.NodeReceiptSharesRoot | services/provider-node/por/aggregator.go:69-80 | the length is: a receipt whose signed string is the two leaves of a settlement side by side is settled alone under its root |
| Settlement.CompareBytes | services/provider-node/por/aggregator.go:92-118 | the comparison is lexicographic order, zero exactly on equal byte strings |
| Sorting.LexPlainly | services/provider-node/por/aggregator.go:92-118 | that order in plain terms: a prefix first, else by the first byte that differs |
| Settlement.Validate | services/provider-node/por/aggregator.go:39-50 | passes exactly when all receipts verify and no two share (provider, timestamp, nonce); otherwise names the first offender: all receipts before it are in order |
| Settlement.Accumulate | services/provider-node/por/aggregator.go:53-58 | the map of providers and the total, in 64-bit arithmetic |
| Settlement.BuildSettlement | services/provider-node/por/aggregator.go:34-90 | succeeds exactly on a non-empty verified list without duplicates, with strictly increasing providers, their shares, the total and the root over the sorted hashes |
| Settler.WindowForAllProviders | services/coordinator/internal/receipts/reader.go:68-87 | exactly the stored receipts of the window, each once; a zero bound is no bound |
| Settler.ResolveAll | services/coordinator/internal/settle/settler.go:138-148 | succeeds exactly when every provider resolves to an address that is not zero |
| Settler.SendablePlainly | services/coordinator/internal/settle/settler.go:127-181 | a transaction goes out if and only if there are receipts, each is signed by both, each provider resolves to an address other than twenty zero bytes, and encoder, nonce, tip, base fee, wallet and sending all succeed; it counts when it was waited for and has status 1 |
| Settler.CalldataPays | services/coordinator/internal/settle/settler.go:138-160 | what the calldata pays: for each provider of a receipt one entry, at its own address, over the sizes of all its receipts, and no other entry |
| Settler.ReportKeepsShares | services/coordinator/internal/settle/settler.go:194-197 | the report by address keeps every share if and only if providers paid to one address have equal shares |
| Settler.Submit | services/coordinator/internal/settle/settler.go:127-208 | a transaction goes out exactly when all stages before it succeed, carrying the settlement's root, addresses and shares |
| Settler.SettleOnce | services/coordinator/internal/settle/settler.go:123-209 | nothing to settle exactly on an empty window; the calldata pays exactly the receipts of the window; success exactly when mined; the duplicate test never fails |
| Epoch.SuccessAdvances | services/coordinator/internal/epoch/driver.go:88-107 | a success moves the cursor to now, which is strictly forward unless the clock reads zero or less, even after it went back |
| Epoch.TickPlainly | services/coordinator/internal/epoch/driver.go:88-107 | one tick in plain terms: which receipts are its window; only a success with something to settle moves the cursor, to now, and is logged; the pool receives the window of a success or a late landing |
| Epoch.StoredExactly | services/provider-node/por/store.go:38-50 | what is stored on every run: each receipt as it was last put, unless it was removed since |
| Epoch.RunGood | services/coordinator/internal/epoch/driver.go:88-107 | on every run whose successful ticks read a positive clock, successful windows follow one another without gap or overlap, each non-empty and holding only receipts of its time |
| Epoch.SettledOnce | services/coordinator/internal/epoch/driver.go:88-107 | each receipt is settled at most once, and exactly when some tick succeeded while it was stored and in its window, on every run whose clock is positive from that tick on |
| Epoch.SettledAsOftenAsCovered | services/coordinator/internal/epoch/driver.go:88-107 | whatever the clock reads, a receipt is settled once for each tick that succeeded while it was stored and in that tick's window |
| Epoch.StoredInTimeSettledOnce | services/coordinator/internal/epoch/driver.go:88-107 | one already stored when the tick over its time succeeds is settled by it once more and never again; exactly once, where no earlier success read zero or less |
| Epoch.LateNeverSettled | services/coordinator/internal/epoch/driver.go:88-107 | one behind the cursor is never settled any more |
| Epoch.SharedExactly | services/coordinator/internal/receipts/reader.go:73-85 | two successes in a row share a receipt exactly when the first clock reading was not positive and the second window reaches it |
| Epoch.ChainIsLog | services/coordinator/internal/settle/settler.go:182-192 | where no given-up transaction is mined, the pool receives exactly the logged settlements |
| Epoch.PaymentsExactly | services/coordinator/internal/settle/settler.go:182-192 | on every run, whatever the clock, the pool is asked to pay a receipt once for each logged settlement of it and once for each given-up transaction over it that was mined |
| Epoch.PaidAtMostOnce | services/coordinator/internal/settle/settler.go:182-192 | so it is paid at most once if and only if at most one of these happened to it, whatever the clock; with a clock positive since it was first settled no two ticks settle it |
| Epoch.GivenUpPaysAgain | services/coordinator/internal/settle/settler.go:186-189 | a given-up transaction that is mined, and the next success that still reaches its receipts, pay them twice for one logged settlement |
| Epoch.Driver.TickOnce | services/coordinator/internal/epoch/driver.go:88-107 | a tick is a step of the run: settled exactly when the window's receipts could be sent and the transaction was confirmed; the cursor moves exactly then; skipped exactly on an empty window |

## Left out

- SHA-256, signatures and public keys are parameters: any function into 32 bytes, any verification predicate.
- JSON of manifests, headers and receipts is a parameter, an encoding that can be read back; the replacement of invalid
  text by the JSON library is not modelled.
- mp4ff and gohlslib are parameters: total functions of what they are given. Box layouts and their failures other than
  that of the init segment are not modelled, nor is the shutdown of the HLS muxer.
- BadgerDB is a map of byte keys with atomic batches and ordered key listing; its own failures are not modelled.
- libp2p, WebRTC, HTTP and the chain client: streams are byte strings, peers and the world answer in any way they like;
  a write that fails is one event of a mirror stream, and otherwise streams accept what is written.
- Floating point: scores are exact reals; the averages and thresholds are the exact ratios 1/10, 9/10 and 3/2, rounded
  toward zero where the code converts to an integer. The distance formula and the table of countries are parameters.
- Interleavings finer than one atomic operation or locked section; frames that arrive after `Close`. A stream's steps
  go on after a drop was requested, where the source ends the stream at its next turn.
- One clock reading stands for the several that one drift check, or one cooldown test, takes a moment apart.
- The decoder of base32 follows section 6 of RFC 4648 with line ends skipped; no other leniency of the library's decoder
  is modelled, such as trailing bytes it may take for padding.
- The wall-clock latency rings of `HopMetrics`, which the source calls deprecated; logging, jitter and tickers.
- The loss percentage, HTTPS address and cooldown tag of mirror candidates, which no choice depends on.
- Playlists, session announcements, key rotation, DID helpers, configuration, the ABI encoder (a stage that succeeds or
  fails) and the tee sinks: easy members only.
- `mirror/h264_depack.go`: the reassembly it guards is in a library.
- The applications and packages in TypeScript.
- PinStore.ContentStore.Pin: requires fewer than 2^63 pins, because the count is read back as a signed number.
- PinState.EveryRunSound: requires that no pin of the run takes the total footprint to 2^64 bytes; PinState.EveryRunExact
  says for all runs when the counter is right modulo 2^64.
- Probes.LedgerBalances: requires that fewer than 2^64 probe numbers are drawn, because they wrap there;
  Probes.ProbesConserved and Probes.ConservedAtRest likewise. Probes.DropsOfOrigin needs no such bound.
- CmafHeld.EveryRunHeld: requires fewer than 2^32 segments, because part lists are kept by a 32-bit segment number, and
  fewer than 2^32 parts in a dropped group; CmafHeld.RefusedExactly, CmafHeld.NoneRefusedLater and
  CmafHeld.HeldArePrefix likewise.
- CmafParts.EveryFrameAlone: requires at most 1431596 parts in the segment, where the clock's lead comes round to zero
  again; CmafParts.EarlyPart says for any number when the next frame is cut.
- Receipts.CanonicalBytesDetermine: requires texts below four gigabytes; Receipts.LengthWraps shows why.
- LivePin.LivePinSink.Finalize: timestamps and the session name are not modelled.
- Epoch.SettledOnce: requires that successful ticks read a clock after 1970 from the one on that settles the receipt;
  Epoch.SettledAsOftenAsCovered and Epoch.SharedExactly say what happens otherwise.
- Settler.WindowForAllProviders: the order of the receipts is the store's and is not stated, as the source promises none.
