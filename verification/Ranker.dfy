/** Mirror selection (mirror/ranker.go, mirror/ranker_adapter.go): candidates are pooled, those cooling
    down are left out, the rest are scored and sorted, and the first k are taken.

    Scores are exact reals.  The great-circle distance and the country table are parameters, and so
    are the loads and round trips a candidate reports.
 */
module Ranker {
  import opened Bytes
  import opened Sorting
  import opened HopMetrics

  datatype Candidate = Candidate(
    peer: bytes, region: bytes, lat: real, lng: real, geoKnown: bool, rttEMA: int, sessions: int, bootstrapRTT: int)

  datatype Hint = Hint(region: bytes, lat: real, lng: real)

  datatype Ranker = Ranker(
    alpha: real, beta: real, gamma: real,
    originRegion: bytes, originLat: real, originLng: real, originKnown: bool,
    haversineKm: (real, real, real, real) -> real, continentOf: bytes -> bytes)

  const MILLISECOND: int := 1_000_000
  const DEFAULT_K := 3

  function Millis(ns: int): int { TruncDiv(ns, MILLISECOND) }

  /** The round trip through the HTTP form of a candidate keeps whole milliseconds only. */
  function ViaHTTP(c: Candidate): Candidate {
    c.(rttEMA := Millis(c.rttEMA) * MILLISECOND, bootstrapRTT := Millis(c.bootstrapRTT) * MILLISECOND)
  }

  /** Where the viewer is taken to be: the hint, or the origin where the hint is silent. */
  datatype Place = Place(region: bytes, lat: real, lng: real, known: bool)

  function Effective(r: Ranker, h: Hint): Place {
    var region := if h.region == [] then r.originRegion else h.region;
    if h.lat != 0.0 || h.lng != 0.0 then Place(region, h.lat, h.lng, true)
    else if r.originKnown then Place(region, r.originLat, r.originLng, true)
    else Place(region, h.lat, h.lng, false)
  }

  /** A measured round trip, else the bootstrap one, else the distance, else a sentinel. */
  function EffectiveRTTMs(r: Ranker, c: Candidate, v: Place): real {
    if c.rttEMA > 0 then Millis(c.rttEMA) as real
    else if c.bootstrapRTT > 0 then Millis(c.bootstrapRTT) as real
    else if c.geoKnown && v.known then r.haversineKm(v.lat, v.lng, c.lat, c.lng) / 200.0
    else 999.0
  }

  function RegionPenalty(r: Ranker, candidate: bytes, viewer: bytes): real {
    if candidate == [] || viewer == [] then 100.0
    else if candidate == viewer then 0.0
    else if r.continentOf(candidate) == r.continentOf(viewer) && r.continentOf(candidate) != [] then 25.0
    else 100.0
  }

  function Score(r: Ranker, v: Place, c: Candidate): real {
    r.alpha * EffectiveRTTMs(r, c, v) + r.beta * (c.sessions as real) + r.gamma * RegionPenalty(r, c.region, v.region)
  }

  /** Lower score first; equal scores by peer identifier. */
  predicate Leq(r: Ranker, v: Place, a: Candidate, b: Candidate) {
    var sa, sb := Score(r, v, a), Score(r, v, b);
    sa < sb || (sa == sb && LexLeq(a.peer, b.peer))
  }

  function Order(r: Ranker, v: Place): (Candidate, Candidate) -> bool {
    (a, b) => Leq(r, v, a, b)
  }

  lemma OrderIsPreorder(r: Ranker, v: Place)
    ensures Preorder(Order(r, v))
  {
    hide Score;
    LexPreorder();
    var leq := Order(r, v);
    forall x, y ensures leq(x, y) || leq(y, x) { LexTotal(x.peer, y.peer); }
    forall x, y, z | leq(x, y) && leq(y, z) ensures leq(x, z) {
      if LexLeq(x.peer, y.peer) && LexLeq(y.peer, z.peer) { LexTransitive(x.peer, y.peer, z.peer); }
    }
  }

  /** A list in which a peer identifier stands for one candidate. */
  ghost predicate OnePerPeer(cs: seq<Candidate>) {
    forall i, j :: 0 <= i < j < |cs| ==> cs[i].peer != cs[j].peer
  }

  lemma OrderHasNoTies(r: Ranker, v: Place, cs: seq<Candidate>)
    requires OnePerPeer(cs)
    ensures NoTies(cs, Order(r, v))
  {
    hide Score;
    var leq := Order(r, v);
    forall x, y | x in cs && y in cs && leq(x, y) && leq(y, x) ensures x == y {
      LexAntisymmetric(x.peer, y.peer);
      var i :| 0 <= i < |cs| && cs[i] == x;
      var j :| 0 <= j < |cs| && cs[j] == y;
    }
  }

  // ---- pooling ----

  type Pool = map<bytes, Candidate>

  /** Later entries for a peer replace earlier ones. */
  function Merge(pool: Pool, cs: seq<Candidate>): Pool {
    if cs == [] then pool else Merge(pool, cs[..|cs| - 1])[cs[|cs| - 1].peer := cs[|cs| - 1]]
  }

  function Unknown(p: bytes): Candidate { Candidate(p, [], 0.0, 0.0, false, 0, 0, 0) }

  /** Every peer ever measured is in the pool, with its measured round trip. */
  function Enrich(pool: Pool, rtt: map<bytes, int>): Pool {
    map p | p in pool.Keys + rtt.Keys ::
      var c := if p in pool then pool[p] else Unknown(p);
      if p in rtt then c.(peer := p, rttEMA := rtt[p]) else c
  }

  function Snapshot(statics: seq<Candidate>, dynamics: seq<Candidate>, rtt: map<bytes, int>): Pool {
    Enrich(Merge(Merge(map[], statics), dynamics), rtt)
  }

  ghost predicate Keyed(pool: Pool) { forall p :: p in pool ==> pool[p].peer == p }

  lemma {:induction false} MergeKeyed(pool: Pool, cs: seq<Candidate>)
    requires Keyed(pool)
    ensures Keyed(Merge(pool, cs))
  {
    if cs != [] { MergeKeyed(pool, cs[..|cs| - 1]); }
  }

  lemma SnapshotKeyed(statics: seq<Candidate>, dynamics: seq<Candidate>, rtt: map<bytes, int>)
    ensures Keyed(Snapshot(statics, dynamics, rtt))
  {
    MergeKeyed(map[], statics);
    MergeKeyed(Merge(map[], statics), dynamics);
  }

  /** `cs` walks the pool in some order, in its HTTP form. */
  ghost predicate Enumerates(cs: seq<Candidate>, pool: Pool) {
    && OnePerPeer(cs)
    && (forall i :: 0 <= i < |cs| ==> cs[i].peer in pool && cs[i] == ViaHTTP(pool[cs[i].peer]))
    && (forall p :: p in pool ==> ViaHTTP(pool[p]) in cs)
  }

  // ---- selection ----

  function Filter(cs: seq<Candidate>, keep: bytes -> bool): (r: seq<Candidate>)
    ensures forall c :: c in r <==> c in cs && keep(c.peer)
    ensures |r| <= |cs|
  {
    if cs == [] then []
    else
      var r := Filter(cs[..|cs| - 1], keep) + if keep(cs[|cs| - 1].peer) then [cs[|cs| - 1]] else [];
      assert forall c :: c in cs <==> c in cs[..|cs| - 1] || c == cs[|cs| - 1];
      r
  }

  function First(cs: seq<Candidate>, k: nat): seq<Candidate> { if |cs| <= k then cs else cs[..k] }

  /** The scoring interface carries the viewer's region and nothing else. */
  function RegionOnly(h: Hint): Hint { Hint(h.region, 0.0, 0.0) }

  function EffectiveK(k: int): nat { if k <= 0 then DEFAULT_K else k }

  /** The candidates chosen out of `cs` before their identifiers are decoded. */
  function Chosen(r: Ranker, h: Hint, cooling: bytes -> bool, k: int, cs: seq<Candidate>): seq<Candidate> {
    First(Sort(Filter(cs, p => !cooling(p)), Order(r, Effective(r, RegionOnly(h)))), EffectiveK(k))
  }

  function Decoded(cs: seq<Candidate>, decodes: bytes -> bool): seq<bytes> {
    if cs == [] then []
    else Decoded(cs[..|cs| - 1], decodes) + if decodes(cs[|cs| - 1].peer) then [cs[|cs| - 1].peer] else []
  }

  lemma {:induction false} FilterDistinct(cs: seq<Candidate>, keep: bytes -> bool)
    requires OnePerPeer(cs)
    ensures OnePerPeer(Filter(cs, keep))
  {
    if cs != [] {
      var front, last := cs[..|cs| - 1], cs[|cs| - 1];
      FilterDistinct(front, keep);
      var r := Filter(front, keep);
      forall i | 0 <= i < |r| ensures r[i].peer != last.peer { assert r[i] in front; }
    }
  }

  /** Main result: whatever order the pool is walked in, the same peers are chosen in the same order. */
  lemma ChoiceIndependentOfOrder(r: Ranker, h: Hint, cooling: bytes -> bool, k: int, pool: Pool,
                                 cs: seq<Candidate>, ds: seq<Candidate>)
    requires Enumerates(cs, pool) && Enumerates(ds, pool)
    ensures Chosen(r, h, cooling, k, cs) == Chosen(r, h, cooling, k, ds)
  {
    var keep := (p: bytes) => !cooling(p);
    var leq := Order(r, Effective(r, RegionOnly(h)));
    SameMembers(pool, cs, ds);
    var a, b := Filter(cs, keep), Filter(ds, keep);
    FilterDistinct(cs, keep);
    FilterDistinct(ds, keep);
    SameMembersSameMultiset(a, b);
    OrderIsPreorder(r, Effective(r, RegionOnly(h)));
    OrderHasNoTies(r, Effective(r, RegionOnly(h)), a);
    SortPermutation(a, b, leq);
  }

  lemma SameMembers(pool: Pool, cs: seq<Candidate>, ds: seq<Candidate>)
    requires Enumerates(cs, pool) && Enumerates(ds, pool)
    ensures forall c :: c in cs <==> c in ds
  {
    forall c ensures c in cs <==> c in ds {
      if c in cs {
        var i :| 0 <= i < |cs| && cs[i] == c;
        assert ViaHTTP(pool[c.peer]) in ds;
      }
      if c in ds {
        var i :| 0 <= i < |ds| && ds[i] == c;
        assert ViaHTTP(pool[c.peer]) in cs;
      }
    }
  }

  /** Main result: the chosen are the k least by score and identifier among the candidates not cooling,
      all of them when there are no more than k. */
  lemma ChosenAreLeast(r: Ranker, h: Hint, cooling: bytes -> bool, k: int, cs: seq<Candidate>)
    requires OnePerPeer(cs)
    ensures var chosen := Chosen(r, h, cooling, k, cs);
            var eligible := Filter(cs, p => !cooling(p));
            var v := Effective(r, RegionOnly(h));
            && |chosen| == Min(EffectiveK(k), |eligible|)
            && (forall c :: c in chosen ==> c in cs && !cooling(c.peer))
            && (forall c, d :: c in chosen && d in cs && !cooling(d.peer) && d !in chosen ==> Leq(r, v, c, d))
            && (forall i, j :: 0 <= i < j < |chosen| ==> Leq(r, v, chosen[i], chosen[j]))
  {
    var v := Effective(r, RegionOnly(h));
    var keep := (p: bytes) => !cooling(p);
    var eligible := Filter(cs, keep);
    var sorted := Sort(eligible, Order(r, v));
    OrderIsPreorder(r, v);
    SortSorted(eligible, Order(r, v));
    SortMultiset(eligible, Order(r, v));
    FirstAreLeast(r, v, sorted, EffectiveK(k));
    forall c ensures c in sorted <==> c in eligible { SameElements(sorted, eligible, c); }
  }

  lemma FirstAreLeast(r: Ranker, v: Place, sorted: seq<Candidate>, k: nat)
    requires Sorted(sorted, Order(r, v))
    ensures var first := First(sorted, k);
            && |first| == Min(k, |sorted|)
            && (forall c :: c in first ==> c in sorted)
            && (forall c, d :: c in first && d in sorted && d !in first ==> Leq(r, v, c, d))
            && (forall i, j :: 0 <= i < j < |first| ==> Leq(r, v, first[i], first[j]))
  {
    hide Leq;
    var leq := Order(r, v);
    var first := First(sorted, k);
    forall c, d | c in first && d in sorted && d !in first ensures Leq(r, v, c, d) {
      var i :| 0 <= i < |first| && first[i] == c;
      var j := PastFirst(sorted, k, d);
      assert leq(sorted[i], sorted[j]);
    }
    forall i, j | 0 <= i < j < |first| ensures Leq(r, v, first[i], first[j]) { assert leq(sorted[i], sorted[j]); }
  }

  /** What is not among the first k comes after them. */
  lemma PastFirst(sorted: seq<Candidate>, k: nat, d: Candidate) returns (j: nat)
    requires d in sorted && d !in First(sorted, k)
    ensures |First(sorted, k)| <= j < |sorted| && sorted[j] == d
  {
    var first := First(sorted, k);
    assert sorted == first + sorted[|first|..];
    assert d in sorted[|first|..];
    var t :| 0 <= t < |sorted[|first|..]| && sorted[|first|..][t] == d;
    j := |first| + t;
  }

  // ---- who comes before whom ----

  /** The viewer's region: the hint's or, where it gives none, the origin's. */
  function ViewerRegion(r: Ranker, h: Hint): bytes { if |h.region| > 0 then h.region else r.originRegion }

  /** 0: the viewer's own region.  1: another on the same known continent.  2: any other, or unknown. */
  function Tier(r: Ranker, region: bytes, viewer: bytes): nat {
    if |region| == 0 || |viewer| == 0 then 2
    else if region == viewer then 0
    else if |r.continentOf(region)| > 0 && r.continentOf(region) == r.continentOf(viewer) then 1
    else 2
  }

  /** `a` should come before `b`: they differ, besides the peer, only in the region, and `a`'s is nearer; or only in
      the sessions, and `a` has fewer; or in nothing, and `a` has the smaller identifier; or, in one region and with as
      many sessions, `a` is quicker to reach. */
  predicate Better(r: Ranker, viewer: bytes, a: Candidate, b: Candidate) {
    || (r.gamma > 0.0 && b == a.(peer := b.peer, region := b.region)
        && Tier(r, a.region, viewer) < Tier(r, b.region, viewer))
    || (r.beta > 0.0 && b == a.(peer := b.peer, sessions := b.sessions) && a.sessions < b.sessions)
    || (b == a.(peer := b.peer) && a.peer != b.peer && LexLeq(a.peer, b.peer))
    || (r.alpha > 0.0 && a.region == b.region && a.sessions == b.sessions && Quicker(r, a, b))
  }

  /** In whole milliseconds, of one at least: the smaller measured round trip, whatever else is known; with none
      measured, the smaller one from the bootstrap, whatever the places are; with neither, the smaller distance from
      the origin, both being known. */
  predicate Quicker(r: Ranker, a: Candidate, b: Candidate) {
    || 1 <= a.rttEMA / 1_000_000 < b.rttEMA / 1_000_000
    || (a.rttEMA < 1_000_000 && b.rttEMA < 1_000_000 && 1 <= a.bootstrapRTT / 1_000_000 < b.bootstrapRTT / 1_000_000)
    || (a.rttEMA < 1_000_000 && b.rttEMA < 1_000_000 && a.bootstrapRTT < 1_000_000 && b.bootstrapRTT < 1_000_000
        && r.originKnown && a.geoKnown && b.geoKnown
        && r.haversineKm(r.originLat, r.originLng, a.lat, a.lng) < r.haversineKm(r.originLat, r.originLng, b.lat, b.lng))
  }

  /** Own region, own continent and elsewhere are 25 and 75 apart, times gamma, all else being equal. */
  lemma RegionSteps(r: Ranker, v: Place, a: Candidate, region: bytes)
    ensures var b := a.(region := region);
            var x, y := Tier(r, a.region, v.region), Tier(r, region, v.region);
            Score(r, v, b) - Score(r, v, a) == r.gamma * (StepCost(y) - StepCost(x))
  {
    var b := a.(region := region);
    assert EffectiveRTTMs(r, a, v) == EffectiveRTTMs(r, b, v);
    hide EffectiveRTTMs;
    assert RegionPenalty(r, a.region, v.region) == StepCost(Tier(r, a.region, v.region));
    assert RegionPenalty(r, region, v.region) == StepCost(Tier(r, region, v.region));
    hide RegionPenalty, Tier, StepCost;
    Distribute(r.gamma, RegionPenalty(r, region, v.region), RegionPenalty(r, a.region, v.region));
  }

  function StepCost(tier: nat): real { if tier == 0 then 0.0 else if tier == 1 then 25.0 else 100.0 }

  lemma Distribute(g: real, x: real, y: real)
    ensures g * x - g * y == g * (x - y)
  {
  }

  lemma Larger(g: real, x: real, y: real)
    requires g > 0.0 && x < y
    ensures g * x < g * y
  {
  }

  lemma PeerNotScored(r: Ranker, v: Place, c: Candidate, p: bytes)
    ensures Score(r, v, c.(peer := p)) == Score(r, v, c)
  {
  }

  lemma FewerSessions(r: Ranker, v: Place, a: Candidate, n: int)
    requires r.beta > 0.0 && a.sessions < n
    ensures Score(r, v, a) < Score(r, v, a.(sessions := n))
  {
    assert EffectiveRTTMs(r, a, v) == EffectiveRTTMs(r, a.(sessions := n), v);
    hide EffectiveRTTMs, RegionPenalty;
    Larger(r.beta, a.sessions as real, n as real);
  }

  /** The quicker to reach scores less, the viewer standing at the origin. */
  lemma QuickerScoresLess(r: Ranker, v: Place, a: Candidate, b: Candidate)
    requires r.alpha > 0.0 && a.region == b.region && a.sessions == b.sessions && Quicker(r, a, b)
    requires r.originKnown ==> v.known && v.lat == r.originLat && v.lng == r.originLng
    ensures Score(r, v, ViaHTTP(a)) < Score(r, v, ViaHTTP(b))
  {
    RoundTripUsed(r, v, a);
    RoundTripUsed(r, v, b);
    var x, y := EffectiveRTTMs(r, ViaHTTP(a), v), EffectiveRTTMs(r, ViaHTTP(b), v);
    hide EffectiveRTTMs, RegionPenalty, Millis;
    assert x < y;
    hide Quicker;
    Larger(r.alpha, x, y);
  }

  /** Which round trip counts: the measured one, the one from the bootstrap, each in whole milliseconds and of one at
      least, 200 km to the millisecond, or 999. */
  lemma RoundTripUsed(r: Ranker, v: Place, c: Candidate)
    ensures EffectiveRTTMs(r, ViaHTTP(c), v) ==
              if c.rttEMA >= 1_000_000 then (c.rttEMA / 1_000_000) as real
              else if c.bootstrapRTT >= 1_000_000 then (c.bootstrapRTT / 1_000_000) as real
              else if c.geoKnown && v.known then r.haversineKm(v.lat, v.lng, c.lat, c.lng) / 200.0
              else 999.0
  {
    MillisTwice(c.rttEMA);
    MillisTwice(c.bootstrapRTT);
  }

  /** Main result: the worse of two never comes first in the order of scores. */
  lemma BetterComesFirst(r: Ranker, h: Hint, a: Candidate, b: Candidate)
    requires Better(r, ViewerRegion(r, h), a, b)
    ensures !Leq(r, Effective(r, RegionOnly(h)), ViaHTTP(b), ViaHTTP(a))
  {
    var v, x, y := Effective(r, RegionOnly(h)), ViaHTTP(a), ViaHTTP(b);
    assert v.region == ViewerRegion(r, h);
    if r.gamma > 0.0 && b == a.(peer := b.peer, region := b.region)
       && Tier(r, a.region, v.region) < Tier(r, b.region, v.region) {
      assert y == x.(region := b.region).(peer := b.peer);
      RegionSteps(r, v, x, b.region);
      PeerNotScored(r, v, x.(region := b.region), b.peer);
      hide Score, Tier, Quicker;
      CostGrows(r.gamma, Tier(r, a.region, v.region), Tier(r, b.region, v.region));
    } else if r.beta > 0.0 && b == a.(peer := b.peer, sessions := b.sessions) && a.sessions < b.sessions {
      assert y == x.(sessions := b.sessions).(peer := b.peer);
      FewerSessions(r, v, x, b.sessions);
      PeerNotScored(r, v, x.(sessions := b.sessions), b.peer);
      hide Score, Quicker;
    } else if b == a.(peer := b.peer) && a.peer != b.peer && LexLeq(a.peer, b.peer) {
      assert y == x.(peer := b.peer);
      PeerNotScored(r, v, x, b.peer);
      if LexLeq(b.peer, a.peer) { LexAntisymmetric(a.peer, b.peer); }
      hide Score, Quicker;
    } else {
      QuickerScoresLess(r, v, a, b);
    }
  }

  lemma CostGrows(g: real, x: nat, y: nat)
    requires g > 0.0 && x < y <= 2
    ensures g * (StepCost(y) - StepCost(x)) > 0.0
  {
    Larger(g, 0.0, StepCost(y) - StepCost(x));
  }

  /** Main result: a candidate is never chosen without each better one that is not cooling, which then stands
      before it. */
  lemma NeverWithoutBetter(r: Ranker, h: Hint, cooling: bytes -> bool, k: int, pool: Pool, cs: seq<Candidate>,
                           p: bytes, q: bytes)
    requires Enumerates(cs, pool) && Keyed(pool) && p in pool && q in pool && !cooling(q)
    requires Better(r, ViewerRegion(r, h), pool[q], pool[p])
    requires ViaHTTP(pool[p]) in Chosen(r, h, cooling, k, cs)
    ensures var c := Chosen(r, h, cooling, k, cs);
            exists i, j :: 0 <= i < j < |c| && c[i] == ViaHTTP(pool[q]) && c[j] == ViaHTTP(pool[p])
  {
    hide Chosen, Better, Score, Enumerates, OnePerPeer, Filter, ViaHTTP, EffectiveK;
    var v := Effective(r, RegionOnly(h));
    var c, a, b := Chosen(r, h, cooling, k, cs), ViaHTTP(pool[q]), ViaHTTP(pool[p]);
    BetterComesFirst(r, h, pool[q], pool[p]);
    EnumeratedOnce(cs, pool);
    ChosenAreLeast(r, h, cooling, k, cs);
    SamePeer(pool[q]);
    StandsBefore(r, v, c, a, b);
  }

  lemma SamePeer(c: Candidate)
    ensures ViaHTTP(c).peer == c.peer
  {
  }

  /** In a list in order, what scores less than a member stands before it, if it could not be left out. */
  lemma StandsBefore(r: Ranker, v: Place, c: seq<Candidate>, a: Candidate, b: Candidate)
    requires !Leq(r, v, b, a)
    requires b in c && (a !in c ==> Leq(r, v, b, a))
    requires forall i, j :: 0 <= i < j < |c| ==> Leq(r, v, c[i], c[j])
    ensures exists i, j :: 0 <= i < j < |c| && c[i] == a && c[j] == b
  {
    hide Score;
    LexTotal(a.peer, a.peer);
    var i :| 0 <= i < |c| && c[i] == a;
    var j :| 0 <= j < |c| && c[j] == b;
  }

  lemma EnumeratedOnce(cs: seq<Candidate>, pool: Pool)
    requires Enumerates(cs, pool)
    ensures OnePerPeer(cs) && forall p :: p in pool ==> ViaHTTP(pool[p]) in cs
  {
  }

  ghost predicate Before(out: seq<bytes>, q: bytes, p: bytes) {
    exists i, j :: 0 <= i < j < |out| && out[i] == q && out[j] == p
  }

  lemma {:induction false} DecodedMembers(cs: seq<Candidate>, decodes: bytes -> bool, p: bytes)
    ensures p in Decoded(cs, decodes) <==> decodes(p) && exists c :: c in cs && c.peer == p
    ensures |Decoded(cs, decodes)| <= |cs|
  {
    if cs != [] {
      var front, last := cs[..|cs| - 1], cs[|cs| - 1];
      DecodedMembers(front, decodes, p);
      assert forall c :: c in cs <==> c in front || c == last;
    }
  }

  lemma {:induction false} DecodedOrder(cs: seq<Candidate>, decodes: bytes -> bool, i: nat, j: nat)
    requires i < j < |cs| && decodes(cs[i].peer) && decodes(cs[j].peer)
    ensures Before(Decoded(cs, decodes), cs[i].peer, cs[j].peer)
  {
    var n := |cs| - 1;
    var front := Decoded(cs[..n], decodes);
    if j < n {
      DecodedOrder(cs[..n], decodes, i, j);
      var a, b :| 0 <= a < b < |front| && front[a] == cs[i].peer && front[b] == cs[j].peer;
      assert Decoded(cs, decodes)[a] == front[a] && Decoded(cs, decodes)[b] == front[b];
    } else {
      DecodedMembers(cs[..n], decodes, cs[i].peer);
      assert cs[..n][i] == cs[i];
      assert cs[i].peer in front;
      var a :| 0 <= a < |front| && front[a] == cs[i].peer;
      assert Decoded(cs, decodes)[a] == front[a] && Decoded(cs, decodes)[|front|] == cs[n].peer;
    }
  }

  /** What is selected out of a pool, in plain terms: only peers of the pool that are not cooling and decode; no more
      than `k`, or than three where none is asked for; all of them where the pool is no larger; and none without
      those that are better. */
  ghost predicate SelectedPlainly(r: Ranker, h: Hint, k: int, pool: Pool, cooling: bytes -> bool, decodes: bytes -> bool,
                                  out: seq<bytes>) {
    var want := if k <= 0 then 3 else k;
    && |out| <= want
    && (forall p :: p in out ==> p in pool && !cooling(p) && decodes(p))
    && (|pool| <= want ==> forall p :: p in pool && !cooling(p) && decodes(p) ==> p in out)
    && (forall p, q | p in out && q in pool && Better(r, ViewerRegion(r, h), pool[q], pool[p]) ::
          !cooling(q) && decodes(q) ==> Before(out, q, p))
  }

  lemma ChosenInPool(r: Ranker, h: Hint, k: int, pool: Pool, cs: seq<Candidate>, cooling: bytes -> bool, c: Candidate)
    requires Enumerates(cs, pool) && c in Chosen(r, h, cooling, k, cs)
    ensures c in cs && !cooling(c.peer) && c.peer in pool && c == ViaHTTP(pool[c.peer])
  {
    EnumeratedOnce(cs, pool);
    ChosenAreLeast(r, h, cooling, k, cs);
    hide Chosen;
    var i :| 0 <= i < |cs| && cs[i] == c;
  }

  lemma ChosenPlainly(r: Ranker, h: Hint, k: int, pool: Pool, cs: seq<Candidate>, cooling: bytes -> bool,
                      decodes: bytes -> bool)
    requires Enumerates(cs, pool) && Keyed(pool)
    ensures SelectedPlainly(r, h, k, pool, cooling, decodes, Decoded(Chosen(r, h, cooling, k, cs), decodes))
  {
    hide Chosen, Decoded, Better, Before, Enumerates, OnePerPeer;
    var c := Chosen(r, h, cooling, k, cs);
    var out := Decoded(c, decodes);
    EnumeratedOnce(cs, pool);
    ChosenAreLeast(r, h, cooling, k, cs);
    DecodedMembers(c, decodes, []);
    forall p ensures p in out <==> decodes(p) && exists d :: d in c && d.peer == p { DecodedMembers(c, decodes, p); }
    forall p | p in out ensures p in pool && !cooling(p) && ViaHTTP(pool[p]) in c {
      var d :| d in c && d.peer == p;
      ChosenInPool(r, h, k, pool, cs, cooling, d);
    }
    forall p | |pool| <= EffectiveK(k) && p in pool && !cooling(p) && decodes(p) ensures p in out {
      AllChosen(r, h, k, pool, cs, cooling, p);
    }
    forall p, q | p in out && q in pool && !cooling(q) && decodes(q) && Better(r, ViewerRegion(r, h), pool[q], pool[p])
      ensures Before(out, q, p)
    {
      NeverWithoutBetter(r, h, cooling, k, pool, cs, p, q);
      var i, j :| 0 <= i < j < |c| && c[i] == ViaHTTP(pool[q]) && c[j] == ViaHTTP(pool[p]);
      DecodedOrder(c, decodes, i, j);
    }
  }

  /** A pool no larger than what is asked for is chosen whole. */
  lemma AllChosen(r: Ranker, h: Hint, k: int, pool: Pool, cs: seq<Candidate>, cooling: bytes -> bool, p: bytes)
    requires Enumerates(cs, pool) && Keyed(pool) && |pool| <= EffectiveK(k) && p in pool && !cooling(p)
    ensures ViaHTTP(pool[p]) in Chosen(r, h, cooling, k, cs) && ViaHTTP(pool[p]).peer == p
  {
    var keep := (b: bytes) => !cooling(b);
    var eligible := Filter(cs, keep);
    var sorted := Sort(eligible, Order(r, Effective(r, RegionOnly(h))));
    SortMultiset(eligible, Order(r, Effective(r, RegionOnly(h))));
    assert |sorted| == |multiset(sorted)| == |multiset(eligible)| == |eligible|;
    EnumeratesNoMore(cs, pool);
    EnumeratedOnce(cs, pool);
    SameElements(sorted, eligible, ViaHTTP(pool[p]));
    hide Sort, Filter, Enumerates;
    assert Chosen(r, h, cooling, k, cs) == sorted;
  }

  lemma EnumeratesNoMore(cs: seq<Candidate>, pool: Pool)
    requires Enumerates(cs, pool)
    ensures |cs| <= |pool|
  {
    DistinctCount(cs, pool.Keys);
    assert |pool| == |pool.Keys|;
  }

  lemma {:induction false} DistinctCount(cs: seq<Candidate>, peers: set<bytes>)
    requires OnePerPeer(cs) && forall i :: 0 <= i < |cs| ==> cs[i].peer in peers
    ensures |cs| <= |peers|
  {
    if cs != [] {
      var n := |cs| - 1;
      forall i | 0 <= i < n ensures cs[..n][i].peer in peers - {cs[n].peer} { assert cs[i].peer != cs[n].peer; }
      DistinctCount(cs[..n], peers - {cs[n].peer});
    }
  }

  /** Where the last entry of a list for a peer stands; -1 when it has none. */
  ghost predicate LastFor(cs: seq<Candidate>, p: bytes, i: int) {
    -1 <= i < |cs| && (i >= 0 ==> cs[i].peer == p) && forall j :: i < j < |cs| ==> cs[j].peer != p
  }

  lemma {:induction false} MergedLast(pool: Pool, cs: seq<Candidate>, p: bytes, i: int)
    requires LastFor(cs, p, i)
    ensures if i >= 0 then p in Merge(pool, cs) && Merge(pool, cs)[p] == cs[i]
            else (p in Merge(pool, cs) <==> p in pool) && (p in pool ==> Merge(pool, cs)[p] == pool[p])
  {
    if cs != [] {
      var n := |cs| - 1;
      if i < n {
        assert LastFor(cs[..n], p, i) && cs[n].peer != p;
        MergedLast(pool, cs[..n], p, i);
      }
    }
  }

  /** What the pool holds of a peer: its last dynamic entry, else its last static one, else nothing but its name; with
      its measured round trip in place of the listed one, where there is one. */
  lemma PoolIs(statics: seq<Candidate>, dynamics: seq<Candidate>, rtt: map<bytes, int>, p: bytes, i: int, k: int)
    requires LastFor(statics, p, i) && LastFor(dynamics, p, k)
    ensures var pool := Snapshot(statics, dynamics, rtt);
            && (p in pool <==> i >= 0 || k >= 0 || p in rtt)
            && (p in pool ==>
                  var c := if k >= 0 then dynamics[k] else if i >= 0 then statics[i]
                           else Candidate(p, [], 0.0, 0.0, false, 0, 0, 0);
                  pool[p] == if p in rtt then c.(rttEMA := rtt[p]) else c)
  {
    MergedLast(map[], statics, p, i);
    MergedLast(Merge(map[], statics), dynamics, p, k);
    hide Merge;
  }

  // ---- the code ----

  /** The pooling loops and the walk over the pool, in whatever order the map gives. */
  method CandidateSnapshot(statics: seq<Candidate>, dynamics: seq<Candidate>, rtt: map<bytes, int>)
    returns (out: seq<Candidate>)
    ensures Enumerates(out, Snapshot(statics, dynamics, rtt))
  {
    var byID: Pool := map[];
    for i := 0 to |statics|
      invariant byID == Merge(map[], statics[..i])
    {
      assert statics[..i + 1][..i] == statics[..i];
      byID := byID[statics[i].peer := statics[i]];
    }
    assert statics[..|statics|] == statics;
    ghost var seeded := byID;
    for i := 0 to |dynamics|
      invariant byID == Merge(seeded, dynamics[..i])
    {
      assert dynamics[..i + 1][..i] == dynamics[..i];
      byID := byID[dynamics[i].peer := dynamics[i]];
    }
    assert dynamics[..|dynamics|] == dynamics;
    var pool := AddMeasured(byID, rtt);
    SnapshotKeyed(statics, dynamics, rtt);
    out := Walk(pool);
  }

  method AddMeasured(byID: Pool, rtt: map<bytes, int>) returns (pool: Pool)
    ensures pool == Enrich(byID, rtt)
  {
    hide Enrich, Unknown;
    pool := byID;
    var todo := rtt.Keys;
    ghost var done: map<bytes, int> := map[];
    EnrichNone(byID);
    while todo != {}
      invariant todo <= rtt.Keys && todo !! done.Keys && todo + done.Keys == rtt.Keys
      invariant forall p :: p in done ==> done[p] == rtt[p]
      invariant pool == Enrich(byID, done)
      decreases |todo|
    {
      var p :| p in todo;
      todo := todo - {p};
      EnrichStep(byID, done, p, rtt[p]);
      var c := if p in pool then pool[p] else Unknown(p);
      pool := pool[p := c.(peer := p, rttEMA := rtt[p])];
      done := done[p := rtt[p]];
    }
    assert done == rtt;
  }

  lemma EnrichNone(pool: Pool)
    ensures Enrich(pool, map[]) == pool
  {
  }

  lemma EnrichStep(pool: Pool, done: map<bytes, int>, p: bytes, rtt: int)
    requires p !in done
    ensures var before := Enrich(pool, done);
            var c := if p in before then before[p] else Unknown(p);
            Enrich(pool, done[p := rtt]) == before[p := c.(peer := p, rttEMA := rtt)]
  {
  }

  method Walk(pool: Pool) returns (out: seq<Candidate>)
    requires Keyed(pool)
    ensures Enumerates(out, pool)
  {
    out := [];
    var todo := pool.Keys;
    while todo != {}
      invariant todo <= pool.Keys && OnePerPeer(out)
      invariant forall i :: 0 <= i < |out| ==>
                  out[i].peer in pool && out[i].peer !in todo && out[i] == ViaHTTP(pool[out[i].peer])
      invariant forall p :: p in pool && p !in todo ==> ViaHTTP(pool[p]) in out
      decreases |todo|
    {
      var p :| p in todo;
      todo := todo - {p};
      out := out + [ViaHTTP(pool[p])];
    }
  }

  /** Main result: the peers selected do not depend on the order in which the pool was walked: they are
      those of every order. */
  method SelectTopK(r: Ranker, h: Hint, k: int, statics: seq<Candidate>, dynamics: seq<Candidate>, rtt: map<bytes, int>,
                    cooling: bytes -> bool, decodes: bytes -> bool) returns (out: seq<bytes>)
    ensures forall cs :: Enumerates(cs, Snapshot(statics, dynamics, rtt)) ==>
              out == Decoded(Chosen(r, h, cooling, k, cs), decodes)
    ensures SelectedPlainly(r, h, k, Snapshot(statics, dynamics, rtt), cooling, decodes, out)
  {
    hide Sort, Filter, Snapshot, Enumerates, Sorted, OnePerPeer, Decoded, Merge, SelectedPlainly;
    var want := if k <= 0 then DEFAULT_K else k;
    var cands := CandidateSnapshot(statics, dynamics, rtt);
    var keep := (p: bytes) => !cooling(p);
    var filtered := KeepWarm(cands, keep);
    EnumeratedDistinct(cands, Snapshot(statics, dynamics, rtt));
    FilterDistinct(cands, keep);
    var scored := ScoreByRegion(r, filtered, h.region);
    if |scored| > want { scored := scored[..want]; }
    assert scored == Chosen(r, h, cooling, k, cands);
    forall cs | Enumerates(cs, Snapshot(statics, dynamics, rtt))
      ensures Chosen(r, h, cooling, k, cs) == Chosen(r, h, cooling, k, cands)
    {
      ChoiceIndependentOfOrder(r, h, cooling, k, Snapshot(statics, dynamics, rtt), cs, cands);
    }
    SnapshotKeyed(statics, dynamics, rtt);
    ChosenPlainly(r, h, k, Snapshot(statics, dynamics, rtt), cands, cooling, decodes);
    out := DecodePeers(scored, decodes);
  }

  lemma EnumeratedDistinct(cs: seq<Candidate>, pool: Pool)
    requires Enumerates(cs, pool)
    ensures OnePerPeer(cs)
  {
  }

  method DecodePeers(scored: seq<Candidate>, decodes: bytes -> bool) returns (out: seq<bytes>)
    ensures out == Decoded(scored, decodes)
  {
    out := [];
    for i := 0 to |scored|
      invariant out == Decoded(scored[..i], decodes)
    {
      assert scored[..i + 1][..i] == scored[..i];
      if !decodes(scored[i].peer) { continue; }
      out := out + [scored[i].peer];
    }
    assert scored[..|scored|] == scored;
  }

  /** RankerAdapter.Score followed by Ranker.Rank. */
  method ScoreByRegion(r: Ranker, cs: seq<Candidate>, viewerRegion: bytes) returns (scored: seq<Candidate>)
    requires OnePerPeer(cs)
    ensures scored == Sort(cs, Order(r, Effective(r, Hint(viewerRegion, 0.0, 0.0))))
    ensures Sorted(scored, Order(r, Effective(r, Hint(viewerRegion, 0.0, 0.0)))) && multiset(scored) == multiset(cs)
  {
    var v := Effective(r, Hint(viewerRegion, 0.0, 0.0));
    OrderIsPreorder(r, v);
    SortSorted(cs, Order(r, v));
    SortMultiset(cs, Order(r, v));
    scored := Sort(cs, Order(r, v));
  }

  method KeepWarm(cands: seq<Candidate>, keep: bytes -> bool) returns (filtered: seq<Candidate>)
    ensures filtered == Filter(cands, keep)
  {
    filtered := [];
    for i := 0 to |cands|
      invariant filtered == Filter(cands[..i], keep)
    {
      assert cands[..i + 1][..i] == cands[..i];
      if !keep(cands[i].peer) { continue; }
      filtered := filtered + [cands[i]];
    }
    assert cands[..|cands|] == cands;
  }

  // ---- what the HTTP form costs ----

  /** Coordinates in the viewer's hint never matter to the choice: where the viewer is taken to be is the
      origin's place, or none. */
  lemma HintCoordinatesIgnored(r: Ranker, h: Hint, lat: real, lng: real, cooling: bytes -> bool, k: int,
                               cs: seq<Candidate>)
    ensures Chosen(r, h, cooling, k, cs) == Chosen(r, h.(lat := lat, lng := lng), cooling, k, cs)
    ensures var v := Effective(r, RegionOnly(h));
            v.known == r.originKnown && (v.known ==> v.lat == r.originLat && v.lng == r.originLng)
  {
    hide Sort, Filter, First;
    assert RegionOnly(h) == RegionOnly(h.(lat := lat, lng := lng));
  }

  /** The round trip a candidate is scored by, when it has one: the measured, else the bootstrap one. */
  function RoundTrip(c: Candidate): int { if c.rttEMA > 0 then c.rttEMA else c.bootstrapRTT }

  /** What is left to score by when the round trips are lost. */
  function Fallback(r: Ranker, c: Candidate, v: Place): real {
    if c.bootstrapRTT >= MILLISECOND then Millis(c.bootstrapRTT) as real
    else if c.geoKnown && v.known then r.haversineKm(v.lat, v.lng, c.lat, c.lng) / 200.0
    else 999.0
  }

  /** Main result: the HTTP form scores a candidate by another round trip exactly when it has one, below a
      millisecond, and what is left to score by is not zero: the peer then counts as never measured. */
  lemma SubMillisecondLost(r: Ranker, v: Place, c: Candidate)
    ensures EffectiveRTTMs(r, ViaHTTP(c), v) != EffectiveRTTMs(r, c, v)
            <==> 0 < RoundTrip(c) < MILLISECOND && Fallback(r, c, v) != 0.0
    ensures 0 < RoundTrip(c) < MILLISECOND ==>
              EffectiveRTTMs(r, c, v) == 0.0 && EffectiveRTTMs(r, ViaHTTP(c), v) == Fallback(r, c, v)
  {
    MillisTwice(c.rttEMA);
    MillisTwice(c.bootstrapRTT);
  }

  lemma MillisTwice(ns: int)
    ensures Millis(Millis(ns) * MILLISECOND) == Millis(ns)
    ensures Millis(ns) * MILLISECOND > 0 <==> ns >= MILLISECOND
    ensures 0 < ns < MILLISECOND ==> Millis(ns) == 0
  {
  }
}
