/** What the pin store means (pinning/store.go, pinning/quota.go): a map from identifiers to
    pinned content, and a bytes counter kept beside it in 64-bit arithmetic.  PinStore
    shows that the raw key-value store implements this.
 */
module PinState {
  import opened Bytes
  import opened Results
  import opened Manifest

  /** Manifest JSON: an injective encoding, opaque otherwise. */
  datatype Json = Json(enc: Manifest -> bytes, dec: bytes -> Option<Manifest>)
  {
    ghost predicate Lawful() { forall m :: dec(enc(m)) == Some(m) }
  }

  /** Zero means unlimited. */
  datatype Quota = Quota(maxBytes: uint64, maxPins: int)

  datatype PinError =
    | CidRequired | ManifestRequired | CidDisagrees | CountDisagrees | QuotaPins | QuotaBytes | BadPayloads | CorruptStore

  datatype Pin = Pin(m: Manifest, segs: seq<bytes>)
  type Pins = map<bytes, Pin>

  datatype State = State(pins: Pins, used: uint64)

  function SumLens(segs: seq<bytes>): nat {
    if segs == [] then 0 else SumLens(segs[..|segs| - 1]) + |segs[|segs| - 1]|
  }

  /** The bytes a pin occupies: its manifest JSON and all its segments. */
  function Size(j: Json, p: Pin): nat { |j.enc(p.m)| + SumLens(p.segs) }

  ghost function Total(j: Json, pins: Pins): nat
    decreases |pins|
  {
    if pins == map[] then 0
    else
      var c :| c in pins;
      Size(j, pins[c]) + Total(j, pins - {c})
  }

  lemma {:induction false} TotalRemove(j: Json, pins: Pins, c: bytes)
    requires c in pins
    ensures Total(j, pins) == Size(j, pins[c]) + Total(j, pins - {c})
    decreases |pins|
  {
    var d :| d in pins && Total(j, pins) == Size(j, pins[d]) + Total(j, pins - {d});
    if d != c {
      TotalRemove(j, pins - {d}, c);
      TotalRemove(j, pins - {c}, d);
      assert pins - {d} - {c} == pins - {c} - {d};
    }
  }

  lemma TotalSet(j: Json, pins: Pins, c: bytes, p: Pin)
    ensures Total(j, pins[c := p]) ==
            Total(j, pins) + Size(j, p) - if c in pins then Size(j, pins[c]) else 0
    ensures c in pins ==> Size(j, pins[c]) <= Total(j, pins)
  {
    TotalRemove(j, pins[c := p], c);
    if c in pins {
      TotalRemove(j, pins, c);
      assert pins[c := p] - {c} == pins - {c};
    } else {
      assert pins[c := p] - {c} == pins;
    }
  }

  // ---- the two operations ----

  /** The checks of `Pin`, in order. */
  ghost function PinCheck(j: Json, q: Quota, s: State, cid: bytes, m: Option<Manifest>, segs: seq<bytes>): Outcome<PinError> {
    if cid == [] then Fail(CidRequired)
    else if m.None? then Fail(ManifestRequired)
    else if m.value.cid != cid then Fail(CidDisagrees)
    else if m.value.segmentCount != |segs| then Fail(CountDisagrees)
    else if q.maxPins > 0 && |s.pins| + 1 > q.maxPins then Fail(QuotaPins)
    else if q.maxBytes > 0 && U64(s.used + Size(j, Pin(m.value, segs))) > q.maxBytes then Fail(QuotaBytes)
    else Pass
  }

  ghost function AfterPin(j: Json, q: Quota, s: State, cid: bytes, m: Option<Manifest>, segs: seq<bytes>): State {
    if PinCheck(j, q, s, cid, m, segs).Pass? then
      var p := Pin(m.value, segs);
      var released := if cid in s.pins then Size(j, s.pins[cid]) else 0;
      State(s.pins[cid := p], U64(s.used - released + Size(j, p)))
    else s
  }

  ghost function AfterUnpin(j: Json, s: State, cid: bytes): State {
    if cid in s.pins then
      var released := U64(Size(j, s.pins[cid]));
      State(s.pins - {cid}, if s.used > released then s.used - released else 0)
    else s
  }

  /** The counter equals the footprint of what is pinned, modulo the counter's width. */
  ghost predicate Exact(j: Json, s: State) {
    s.used == U64(Total(j, s.pins))
  }

  lemma PinKeepsExact(j: Json, q: Quota, s: State, cid: bytes, m: Option<Manifest>, segs: seq<bytes>)
    requires Exact(j, s)
    ensures Exact(j, AfterPin(j, q, s, cid, m, segs))
  {
    if PinCheck(j, q, s, cid, m, segs).Pass? {
      var p := Pin(m.value, segs);
      TotalSet(j, s.pins, cid, p);
      var released := if cid in s.pins then Size(j, s.pins[cid]) else 0;
      WrapAdd(Total(j, s.pins), Size(j, p) - released);
    }
  }

  lemma WrapAdd(a: int, b: int)
    ensures U64(U64(a) + b) == U64(a + b)
  {
  }

  /** Unpin keeps the counter exact if and only if the counter covers what is released: its
      subtraction stops at zero. */
  lemma UnpinKeepsExact(j: Json, s: State, cid: bytes)
    requires Exact(j, s) && cid in s.pins
    ensures Exact(j, AfterUnpin(j, s, cid)) <==> s.used >= U64(Size(j, s.pins[cid]))
  {
    TotalRemove(j, s.pins, cid);
    var t, r := Total(j, s.pins), Size(j, s.pins[cid]);
    WrapSub(t, r);
  }

  lemma WrapSub(t: nat, r: nat)
    requires r <= t
    ensures U64(t) >= U64(r) ==> U64(t - r) == U64(t) - U64(r)
    ensures U64(t - r) == 0 ==> U64(t) >= U64(r)
  {
    var qt, qr := t / TWO64, r / TWO64;
    assert t == qt * TWO64 + U64(t) && r == qr * TWO64 + U64(r);
    assert t - r == (qt - qr) * TWO64 + (U64(t) - U64(r));
    if U64(t) >= U64(r) {
      Quotient(qt - qr, U64(t) - U64(r));
    } else {
      Quotient(qt - qr - 1, U64(t) - U64(r) + TWO64);
      assert (qt - qr) * TWO64 == (qt - qr - 1) * TWO64 + TWO64;
    }
  }

  lemma Quotient(k: int, x: int)
    requires 0 <= x < TWO64
    ensures (k * TWO64 + x) % TWO64 == x
  {
  }

  /** Unpinning what a pin added restores the state exactly when the counter did not wrap on the way. */
  lemma UnpinUndoesPin(j: Json, q: Quota, s: State, cid: bytes, m: Option<Manifest>, segs: seq<bytes>)
    requires PinCheck(j, q, s, cid, m, segs).Pass? && cid !in s.pins
    ensures AfterUnpin(j, AfterPin(j, q, s, cid, m, segs), cid) == s
            <==> s.used + U64(Size(j, Pin(m.value, segs))) < TWO64
  {
    hide Size;
    var size := Size(j, Pin(m.value, segs));
    assert s.pins[cid := Pin(m.value, segs)] - {cid} == s.pins;
    AddWrapped(s.used, size);
  }

  lemma AddWrapped(a: uint64, size: nat)
    ensures var r := U64(size); U64(a + size) == if a + r < TWO64 then a + r else a + r - TWO64
  {
    var k := size / TWO64;
    assert a + size == (a + U64(size)) + k * TWO64;
    Multiple(a + U64(size), k);
  }

  lemma Multiple(x: int, k: int)
    ensures U64(x + k * TWO64) == U64(x)
  {
  }

  /** The pin limit counts the pin asked for as a new one, so at the limit a re-pin is refused although the
      number of pins would stay what it is. */
  lemma RepinAtLimit(j: Json, q: Quota, s: State, m: Manifest, segs: seq<bytes>)
    requires m.cid in s.pins && m.cid != [] && m.segmentCount == |segs| && q.maxPins > 0
    ensures |s.pins[m.cid := Pin(m, segs)]| == |s.pins|
    ensures PinCheck(j, q, s, m.cid, Some(m), segs) == Fail(QuotaPins) <==> |s.pins| >= q.maxPins
  {
    assert s.pins[m.cid := Pin(m, segs)].Keys == s.pins.Keys;
  }

  // ---- every run ----

  datatype Op = PinOp(cid: bytes, m: Option<Manifest>, segs: seq<bytes>) | UnpinOp(cid: bytes)

  ghost function Step(j: Json, q: Quota, s: State, op: Op): State {
    match op
    case PinOp(cid, m, segs) => AfterPin(j, q, s, cid, m, segs)
    case UnpinOp(cid) => AfterUnpin(j, s, cid)
  }

  ghost function Run(j: Json, q: Quota, ops: seq<Op>): State {
    if ops == [] then State(map[], 0) else Step(j, q, Run(j, q, ops[..|ops| - 1]), ops[|ops| - 1])
  }

  /** The last step of `ops` is no unpin that releases more than the counter shows. */
  ghost predicate Covered(j: Json, q: Quota, ops: seq<Op>) {
    ops != [] ==>
      var before, op := Run(j, q, ops[..|ops| - 1]), ops[|ops| - 1];
      op.UnpinOp? && op.cid in before.pins ==> before.used >= U64(Size(j, before.pins[op.cid]))
  }

  /** Main result, with no bound on sizes: the counter equals the footprint modulo 2^64 after every step of a
      run if and only if no unpin of it released more than the counter showed. */
  lemma {:induction false} EveryRunExact(j: Json, q: Quota, ops: seq<Op>)
    ensures (forall n :: 0 <= n <= |ops| ==> Exact(j, Run(j, q, ops[..n])))
            <==> (forall n :: 0 <= n <= |ops| ==> Covered(j, q, ops[..n]))
  {
    hide Exact, Covered, Run;
    if ops == [] {
      assert forall n :: 0 <= n <= |ops| ==> ops[..n] == [];
      StartExact(j, q);
    } else {
      var front := ops[..|ops| - 1];
      EveryRunExact(j, q, front);
      assert ops[..|ops|] == ops && front[..|front|] == front;
      assert forall n :: 0 <= n <= |front| ==> front[..n] == ops[..n];
      assert forall n :: 0 <= n <= |ops| ==> n <= |front| || ops[..n] == ops;
      if Exact(j, Run(j, q, front)) { StepExact(j, q, ops); }
    }
  }

  lemma StartExact(j: Json, q: Quota)
    ensures Exact(j, Run(j, q, [])) && Covered(j, q, [])
  {
  }

  lemma StepExact(j: Json, q: Quota, ops: seq<Op>)
    requires ops != [] && Exact(j, Run(j, q, ops[..|ops| - 1]))
    ensures Exact(j, Run(j, q, ops)) <==> Covered(j, q, ops)
  {
    hide Exact, Size, AfterPin, AfterUnpin;
    var s := Run(j, q, ops[..|ops| - 1]);
    match ops[|ops| - 1]
    case PinOp(cid, m, segs) => PinKeepsExact(j, q, s, cid, m, segs);
    case UnpinOp(cid) => if cid in s.pins { UnpinKeepsExact(j, s, cid); } else { UnpinNothing(j, s, cid); }
  }

  lemma UnpinNothing(j: Json, s: State, cid: bytes)
    requires cid !in s.pins
    ensures AfterUnpin(j, s, cid) == s
  {
  }

  /** No pin of the run takes the footprint of the store to 2^64 bytes. */
  ghost predicate Fits(j: Json, q: Quota, ops: seq<Op>) {
    forall n :: 0 <= n < |ops| && ops[n].PinOp? && ops[n].m.Some? ==>
      Total(j, Run(j, q, ops[..n]).pins) + Size(j, Pin(ops[n].m.value, ops[n].segs)) < TWO64
  }

  /** What a store state owes its reader. */
  ghost predicate Sound(j: Json, q: Quota, s: State) {
    && s.used == Total(j, s.pins)
    && (q.maxBytes > 0 ==> s.used <= q.maxBytes)
    && (q.maxPins > 0 ==> |s.pins| <= q.maxPins)
    && (forall c :: c in s.pins ==> s.pins[c].m.cid == c && s.pins[c].m.segmentCount == |s.pins[c].segs|)
  }

  /** What the checks let through. */
  lemma CheckPassed(j: Json, q: Quota, s: State, cid: bytes, m: Option<Manifest>, segs: seq<bytes>)
    requires PinCheck(j, q, s, cid, m, segs).Pass?
    ensures m.Some? && m.value.cid == cid && m.value.segmentCount == |segs|
    ensures q.maxPins > 0 ==> |s.pins| + 1 <= q.maxPins
    ensures q.maxBytes > 0 ==> U64(s.used + Size(j, Pin(m.value, segs))) <= q.maxBytes
  {
  }

  lemma SetCount(pins: Pins, c: bytes, p: Pin)
    ensures |pins[c := p]| <= |pins| + 1
  {
    var n := pins[c := p];
    assert n.Keys == pins.Keys + {c};
    assert |n| == |n.Keys| <= |pins.Keys| + 1;
  }

  lemma PinSound(j: Json, q: Quota, s: State, cid: bytes, m: Option<Manifest>, segs: seq<bytes>)
    requires Sound(j, q, s)
    requires m.Some? ==> Total(j, s.pins) + Size(j, Pin(m.value, segs)) < TWO64
    ensures Sound(j, q, AfterPin(j, q, s, cid, m, segs))
    ensures cid in s.pins ==> Size(j, s.pins[cid]) <= s.used
  {
    hide Size, SumLens, Total, PinCheck;
    if cid in s.pins { TotalRemove(j, s.pins, cid); }
    if PinCheck(j, q, s, cid, m, segs).Pass? {
      CheckPassed(j, q, s, cid, m, segs);
      var p := Pin(m.value, segs);
      var released := if cid in s.pins then Size(j, s.pins[cid]) else 0;
      TotalSet(j, s.pins, cid, p);
      Reckoned(s.used, released, Size(j, p));
      hide U64;
      SetCount(s.pins, cid, p);
      SetComplete(s.pins, cid, p);
    }
  }

  lemma Reckoned(used: uint64, released: nat, size: nat)
    requires released <= used && used + size < TWO64
    ensures U64(used - released + size) == used - released + size && U64(used + size) == used + size
  {
  }

  lemma SetComplete(pins: Pins, cid: bytes, p: Pin)
    requires forall c :: c in pins ==> pins[c].m.cid == c && pins[c].m.segmentCount == |pins[c].segs|
    requires p.m.cid == cid && p.m.segmentCount == |p.segs|
    ensures var n := pins[cid := p]; forall c :: c in n ==> n[c].m.cid == c && n[c].m.segmentCount == |n[c].segs|
  {
  }

  lemma UnpinSound(j: Json, q: Quota, s: State, cid: bytes)
    requires Sound(j, q, s)
    ensures Sound(j, q, AfterUnpin(j, s, cid))
    ensures cid in s.pins ==> U64(Size(j, s.pins[cid])) == Size(j, s.pins[cid]) <= s.used
  {
    hide Size, Total;
    if cid in s.pins {
      TotalRemove(j, s.pins, cid);
      var n := s.pins - {cid};
      assert n.Keys == s.pins.Keys - {cid};
      assert |n| == |n.Keys| <= |s.pins.Keys|;
    }
  }

  /** Main result: after every run of pins, re-pins and unpins from the empty store whose
      footprint fits the counter, the counter is the sum over what is pinned of manifest and
      segments, usage is within the quota, and the next unpin or re-pin will not underflow. */
  lemma {:induction false} EveryRunSound(j: Json, q: Quota, ops: seq<Op>)
    requires Fits(j, q, ops)
    ensures var s := Run(j, q, ops);
            Sound(j, q, s) && forall c :: c in s.pins ==> Size(j, s.pins[c]) <= s.used
  {
    var s := Run(j, q, ops);
    if ops != [] {
      var n := |ops| - 1;
      FitsPrefix(j, q, ops);
      EveryRunSound(j, q, ops[..n]);
      var before := Run(j, q, ops[..n]);
      match ops[n]
      case PinOp(cid, m, segs) => PinSound(j, q, before, cid, m, segs);
      case UnpinOp(cid) => UnpinSound(j, q, before, cid);
    }
    forall c | c in s.pins ensures Size(j, s.pins[c]) <= s.used { TotalRemove(j, s.pins, c); }
  }

  lemma FitsPrefix(j: Json, q: Quota, ops: seq<Op>)
    requires ops != [] && Fits(j, q, ops)
    ensures Fits(j, q, ops[..|ops| - 1])
  {
    var front := ops[..|ops| - 1];
    forall n | 0 <= n < |front| && front[n].PinOp? && front[n].m.Some?
      ensures Total(j, Run(j, q, front[..n]).pins) + Size(j, Pin(front[n].m.value, front[n].segs)) < TWO64
    {
      assert front[..n] == ops[..n];
    }
  }

  // ---- in plain terms ----

  function Added(xs: seq<nat>): nat { if xs == [] then 0 else xs[0] + Added(xs[1..]) }

  function Lengths(segs: seq<bytes>): (r: seq<nat>)
    ensures |r| == |segs|
  {
    seq<nat>(|segs|, i requires 0 <= i < |segs| => |segs[i]|)
  }

  lemma {:induction false} AddedLast(xs: seq<nat>, x: nat)
    ensures Added(xs + [x]) == Added(xs) + x
  {
    if xs == [] {
      assert xs + [x] == [x] && [x][1..] == [];
    } else {
      AddedLast(xs[1..], x);
      assert (xs + [x])[1..] == xs[1..] + [x];
    }
  }

  lemma {:induction false} LengthsAdded(segs: seq<bytes>)
    ensures SumLens(segs) == Added(Lengths(segs))
  {
    if segs != [] {
      var n := |segs| - 1;
      LengthsAdded(segs[..n]);
      AddedLast(Lengths(segs[..n]), |segs[n]|);
      assert Lengths(segs) == Lengths(segs[..n]) + [|segs[n]|];
    }
  }

  /** `cs` lists the pinned identifiers, each once. */
  ghost predicate ListsPins(cs: seq<bytes>, pins: Pins) {
    && (forall i, k :: 0 <= i < k < |cs| ==> cs[i] != cs[k])
    && (forall c :: c in pins <==> c in cs)
  }

  /** What a pin occupies: the length of its manifest and of all its segments. */
  function Share(j: Json, p: Pin): nat { |j.enc(p.m)| + Added(Lengths(p.segs)) }

  function Shares(j: Json, cs: seq<bytes>, pins: Pins): (r: seq<nat>)
    requires forall i :: 0 <= i < |cs| ==> cs[i] in pins
    ensures |r| == |cs|
  {
    seq<nat>(|cs|, i requires 0 <= i < |cs| => Share(j, pins[cs[i]]))
  }

  lemma RestListed(cs: seq<bytes>, pins: Pins)
    requires ListsPins(cs, pins) && cs != []
    ensures cs[0] in pins && ListsPins(cs[1..], pins - {cs[0]})
  {
    var d := cs[1..];
    forall i | 0 <= i < |d| ensures d[i] == cs[i + 1] {}
    assert cs[0] in cs;
    forall c ensures c in pins - {cs[0]} <==> c in d {
      if c in pins && c != cs[0] {
        var i :| 0 <= i < |cs| && cs[i] == c;
        assert d[i - 1] == c;
      }
      if c in d {
        var i :| 0 <= i < |d| && d[i] == c;
        assert cs[i + 1] == c && cs[i + 1] in cs;
      }
    }
  }

  lemma ListedIn(cs: seq<bytes>, pins: Pins)
    requires ListsPins(cs, pins)
    ensures forall i :: 0 <= i < |cs| ==> cs[i] in pins
  {
  }

  /** The footprint is the sum over all pins, in whatever order, of manifest and segment lengths. */
  lemma {:induction false} FootprintIs(j: Json, pins: Pins, cs: seq<bytes>)
    requires ListsPins(cs, pins)
    ensures forall i :: 0 <= i < |cs| ==> cs[i] in pins
    ensures Total(j, pins) == Added(Shares(j, cs, pins))
    decreases |cs|
  {
    ListedIn(cs, pins);
    if cs == [] {
      assert pins == map[];
    } else {
      var c, rest := cs[0], pins - {cs[0]};
      RestListed(cs, pins);
      hide ListsPins, Share, Total;
      FootprintIs(j, rest, cs[1..]);
      TotalRemove(j, pins, c);
      SizeIsShare(j, pins[c]);
      assert Shares(j, cs, pins)[1..] == Shares(j, cs[1..], rest);
    }
  }

  lemma SizeIsShare(j: Json, p: Pin)
    ensures Size(j, p) == Share(j, p)
  {
    LengthsAdded(p.segs);
  }

  /** What `Pin` answers to any call, error by error, and what it then does.  The sum of bytes is a 64-bit one. */
  lemma PinAnswers(j: Json, q: Quota, s: State, cid: bytes, m: Option<Manifest>, segs: seq<bytes>)
    ensures PinCheck(j, q, s, cid, m, segs) ==
              if |cid| == 0 then Fail(CidRequired)
              else if m == None then Fail(ManifestRequired)
              else if m.value.cid != cid then Fail(CidDisagrees)
              else if m.value.segmentCount != |segs| then Fail(CountDisagrees)
              else if q.maxPins > 0 && |s.pins| >= q.maxPins then Fail(QuotaPins)
              else if q.maxBytes != 0
                && (s.used + |j.enc(m.value)| + Added(Lengths(segs))) % 0x1_0000_0000_0000_0000 > q.maxBytes
              then Fail(QuotaBytes)
              else Pass
    ensures AfterPin(j, q, s, cid, m, segs).pins ==
              if PinCheck(j, q, s, cid, m, segs).Pass? then s.pins[cid := Pin(m.value, segs)] else s.pins
    ensures PinCheck(j, q, s, cid, m, segs).Fail? ==> AfterPin(j, q, s, cid, m, segs) == s
    ensures AfterUnpin(j, s, cid).pins == s.pins - {cid}
  {
    LengthsAdded(segs);
    hide SumLens, Added, Lengths;
    assert cid !in s.pins ==> s.pins - {cid} == s.pins;
  }

  /** Main result: in a sound state a pin that fits the counter is accepted if and only if it is well formed, the
      pins are fewer than their limit, and the footprint with it is within the byte limit. */
  lemma PinAccepted(j: Json, q: Quota, s: State, cid: bytes, m: Option<Manifest>, segs: seq<bytes>)
    requires Sound(j, q, s)
    requires m.Some? ==> Total(j, s.pins) + |j.enc(m.value)| + Added(Lengths(segs)) < 0x1_0000_0000_0000_0000
    ensures PinCheck(j, q, s, cid, m, segs).Pass? <==>
              && cid != [] && m.Some? && m.value.cid == cid && m.value.segmentCount == |segs|
              && (q.maxPins <= 0 || |s.pins| < q.maxPins)
              && (q.maxBytes == 0 || Total(j, s.pins) + |j.enc(m.value)| + Added(Lengths(segs)) <= q.maxBytes)
  {
    PinAnswers(j, q, s, cid, m, segs);
    hide PinCheck, AfterPin, AfterUnpin, Total, Added, Lengths;
  }
}
