/** All the mirror streams of one origin together (mirror/client.go): several streams, possibly to one
    peer, draw probe numbers from one counter and report to one set of metrics per peer.

    A run is any interleaving of the steps of all the goroutines.  The ledger beside the code's state says
    what became of every probe number ever drawn.
 */
module Probes {
  import opened Bytes
  import opened HopMetrics
  import opened StreamSink

  type Peer = bytes

  datatype Link = Link(peer: Peer, s: Stream)

  /** `echoes` and `losses` are the metrics of each peer: its recorded round trips and its uint32 loss
      counter.  `owner`, `answered` and `expired` are the ledger. */
  datatype Origin = Origin(
    links: seq<Link>, nextProbeID: uint64, echoes: map<Peer, seq<int>>, losses: map<Peer, uint32>,
    owner: map<uint64, Peer>, answered: set<uint64>, expired: set<uint64>)

  const IDLE := Origin([], 0, map[], map[], map[], {}, {})

  /** What a goroutine of a stream does next; the number drawn, and the percentile read, are the origin's. */
  datatype Action =
    | Draw
    | Send(now: int)
    | Take(id: uint64)
    | Record(now: int)
    | Clear
    | Sweep(now: int)
    | Count
    | Add
    | Drift(now: int)
    | FailWrite

  datatype Op = Open(peer: Peer, now: int) | Act(k: nat, a: Action)

  function EchoesOf(o: Origin, p: Peer): seq<int> { if p in o.echoes then o.echoes[p] else [] }

  function LossesOf(o: Origin, p: Peer): uint32 { if p in o.losses then o.losses[p] else 0 }

  /** The 95th percentile of the peer's window, which the drift watcher reads. */
  function Reading(o: Origin, p: Peer): int { Percentile(Window(EchoesOf(o, p)), 95) }

  /** The step of the stream's own history. */
  function EventOf(o: Origin, k: nat, a: Action): Event
    requires k < |o.links|
  {
    match a
    case Draw => Drew(U64(o.nextProbeID + 1))
    case Send(now) => Sent(now)
    case Take(id) => Took(id)
    case Record(now) => Recorded(now)
    case Clear => Reset
    case Sweep(now) => Swept(now)
    case Count => Counted
    case Add => Added
    case Drift(now) => Ticked(now, Reading(o, o.links[k].peer))
    case FailWrite => WriteFailed
  }

  /** What a step of a stream does to the rest: the counter, the peer's metrics, the ledger. */
  function Booked(o: Origin, p: Peer, s: Stream, e: Event): Origin {
    if !Enabled(s, e) then o
    else match e
      case Drew(id) => o.(nextProbeID := id, owner := o.owner[id := p])
      case Took(id) => o.(answered := o.answered + {id})
      case Recorded(now) => o.(echoes := o.echoes[p := EchoesOf(o, p) + [now - s.reader.sentAt]])
      case Swept(now) => o.(expired := o.expired + Expired(s, now))
      case Counted => o.(losses := o.losses[p := U32(LossesOf(o, p) + 1)])
      case _ => o
  }

  function OnEvent(o: Origin, k: nat, e: Event): Origin
    requires k < |o.links|
  {
    var Link(p, s) := o.links[k];
    Booked(o, p, s, e).(links := o.links[k := Link(p, After(s, e))])
  }

  function Step(o: Origin, op: Op): Origin {
    match op
    case Open(p, now) => o.(links := o.links + [Link(p, Fresh(now))])
    case Act(k, a) => if k < |o.links| then OnEvent(o, k, EventOf(o, k, a)) else o
  }

  function Run(ops: seq<Op>): Origin {
    if ops == [] then IDLE else Step(Run(ops[..|ops| - 1]), ops[|ops| - 1])
  }

  // ---- the ledger ----

  /** The probe numbers of `ids` drawn for `p`. */
  function Of(o: Origin, ids: set<uint64>, p: Peer): set<uint64> {
    set id | id in ids && id in o.owner && o.owner[id] == p
  }

  /** The numbers a stream holds: outstanding, or drawn and about to be. */
  function Ids(s: Stream): set<uint64> { s.outstanding.Keys + if s.writer.Drawn? then {s.writer.id} else {} }

  ghost predicate HeldOn(o: Origin, id: uint64, k: int) { 0 <= k < |o.links| && id in Ids(o.links[k].s) }

  /** Every number drawn is in exactly one place. */
  ghost predicate Placed(o: Origin) {
    && (forall id: uint64 :: id in o.owner <==> 1 <= id <= o.nextProbeID)
    && (forall id :: id in o.answered ==> id in o.owner && id !in o.expired)
    && (forall id :: id in o.expired ==> id in o.owner)
    && (forall id, k :: HeldOn(o, id, k) ==>
          id in o.owner && o.owner[id] == o.links[k].peer && id !in o.answered && id !in o.expired)
    && (forall id, j, k :: HeldOn(o, id, j) && HeldOn(o, id, k) ==> j == k)
    && (forall id :: id in o.owner ==> id in o.answered || id in o.expired || exists k :: HeldOn(o, id, k))
  }

  /** A number just drawn is not outstanding yet. */
  ghost predicate DrawnFresh(o: Origin) {
    forall k :: 0 <= k < |o.links| && o.links[k].s.writer.Drawn? ==> o.links[k].s.writer.id !in o.links[k].s.outstanding
  }

  // ---- sums over the streams ----

  function SumOf(links: seq<Link>, f: Link -> nat): nat {
    if links == [] then 0 else SumOf(links[..|links| - 1], f) + f(links[|links| - 1])
  }

  lemma SumAppend(links: seq<Link>, l: Link, f: Link -> nat)
    ensures SumOf(links + [l], f) == SumOf(links, f) + f(l)
  {
    assert (links + [l])[..|links|] == links;
  }

  lemma {:induction false} SumUpdate(links: seq<Link>, k: nat, l: Link, f: Link -> nat)
    requires k < |links|
    ensures SumOf(links[k := l], f) + f(links[k]) == SumOf(links, f) + f(l)
  {
    var n := |links| - 1;
    if k < n {
      SumUpdate(links[..n], k, l, f);
      assert links[k := l][..n] == links[..n][k := l];
    } else {
      assert links[k := l][..n] == links[..n];
    }
  }

  /** The probes of `p` that a stream holds outstanding, or is about to. */
  function HeldBy(p: Peer): Link -> nat { (l: Link) => if l.peer == p then |Ids(l.s)| else 0 }

  /** The echoes of `p` taken off the map and not recorded yet. */
  function TakenBy(p: Peer): Link -> nat { (l: Link) => if l.peer == p && l.s.reader.Taken? then 1 else 0 }

  /** The losses of `p` swept off the map and not counted yet. */
  function LeftBy(p: Peer): Link -> nat {
    (l: Link) => if l.peer == p && l.s.writer.Counting? then l.s.writer.left else 0
  }

  /** The metrics agree with the ledger, up to what the goroutines have in hand. */
  ghost predicate CountedFor(o: Origin, p: Peer) {
    && |Of(o, o.answered, p)| == |EchoesOf(o, p)| + SumOf(o.links, TakenBy(p))
    && U32(|Of(o, o.expired, p)|) == U32(LossesOf(o, p) + SumOf(o.links, LeftBy(p)))
  }

  ghost predicate CountedAll(o: Origin) { forall p :: CountedFor(o, p) }

  // ---- every number in one place ----

  lemma StepIds(s: Stream, e: Event)
    ensures Ids(After(s, e)) ==
            if !Enabled(s, e) then Ids(s)
            else match e
              case Drew(id) => Ids(s) + {id}
              case Took(id) => (s.outstanding.Keys - {id}) + if s.writer.Drawn? then {s.writer.id} else {}
              case Swept(now) => Ids(s) - Expired(s, now)
              case _ => Ids(s)
  {
    hide Expired, Threshold;
    if e.Swept? && Enabled(s, e) { SweptIds(s, e.now); }
  }

  lemma SweptIds(s: Stream, now: int)
    requires s.writer.Free?
    ensures Ids(AfterSwept(s, now)) == Ids(s) - Expired(s, now)
  {
    hide Expired;
    assert (s.outstanding - Expired(s, now)).Keys == s.outstanding.Keys - Expired(s, now);
  }

  /** The places of the numbers after one step of stream `k`: a number drawn is new there, one taken or swept is
      there no longer. */
  lemma StepHeld(o: Origin, k: nat, e: Event, i: uint64, j: int)
    requires k < |o.links| && DrawnFresh(o)
    ensures var s := o.links[k].s;
            HeldOn(OnEvent(o, k, e), i, j) <==>
              || (Enabled(s, e) && e.Drew? && i == e.id && j == k)
              || (HeldOn(o, i, j) &&
                  !(Enabled(s, e) && j == k && ((e.Took? && i == e.id) || (e.Swept? && i in Expired(s, e.now)))))
  {
    StepIds(o.links[k].s, e);
    hide After, Expired, Booked;
    if e.Swept? { ExpiredHeld(o.links[k].s, e.now); }
  }

  lemma ExpiredHeld(s: Stream, now: int)
    ensures Expired(s, now) <= s.outstanding.Keys
  {
  }

  lemma DrawPlaced(o: Origin, k: nat, e: Event)
    requires Placed(o) && DrawnFresh(o) && k < |o.links| && e == Drew(U64(o.nextProbeID + 1)) && o.nextProbeID + 1 < TWO64
    ensures Placed(OnEvent(o, k, e))
  {
    NoWrap(o.nextProbeID + 1);
    BookedDrew(o, o.links[k].peer, o.links[k].s, e);
    hide After, Booked, Ids, Enabled;
    var n, id := OnEvent(o, k, e), o.nextProbeID + 1;
    assert id !in o.owner;
    forall i, j ensures HeldOn(n, i, j) <==> HeldOn(o, i, j) || (Enabled(o.links[k].s, e) && i == id && j == k) {
      StepHeld(o, k, e, i, j);
    }
    forall i, j | HeldOn(n, i, j) ensures 0 <= j < |o.links| { HeldInRange(n, i, j); }
    hide HeldOn;
    forall i | i in n.owner ensures i in n.answered || i in n.expired || exists j :: HeldOn(n, i, j) {
      if i in o.owner {
        if i !in o.answered && i !in o.expired {
          var j :| HeldOn(o, i, j);
          assert HeldOn(n, i, j);
        }
      } else {
        assert HeldOn(n, id, k);
      }
    }
  }

  /** A step that takes the numbers `gone` of stream `k` to one side of the ledger. */
  lemma GonePlaced(o: Origin, n: Origin, k: nat, gone: set<uint64>)
    requires Placed(o) && |n.links| == |o.links| && n.nextProbeID == o.nextProbeID && n.owner == o.owner
    requires forall j :: 0 <= j < |n.links| ==> n.links[j].peer == o.links[j].peer
    requires || (n.answered == o.answered + gone && n.expired == o.expired)
             || (n.answered == o.answered && n.expired == o.expired + gone)
    requires forall i :: i in gone ==> HeldOn(o, i, k)
    requires forall i, j :: HeldOn(n, i, j) <==> HeldOn(o, i, j) && i !in gone
    ensures Placed(n)
  {
    forall i | i in n.owner ensures i in n.answered || i in n.expired || exists j :: HeldOn(n, i, j) {
      if i !in gone && i !in o.answered && i !in o.expired {
        var j :| HeldOn(o, i, j);
        assert HeldOn(n, i, j);
      }
    }
    hide HeldOn;
    forall i, j | HeldOn(n, i, j) ensures 0 <= j < |o.links| { HeldInRange(o, i, j); }
  }

  lemma HeldInRange(o: Origin, i: uint64, j: int)
    requires HeldOn(o, i, j)
    ensures 0 <= j < |o.links|
  {
  }

  function Gone(s: Stream, e: Event): set<uint64> {
    if !Enabled(s, e) then {}
    else if e.Took? then {e.id}
    else if e.Swept? then Expired(s, e.now)
    else {}
  }

  lemma OtherPlaced(o: Origin, k: nat, e: Event)
    requires Placed(o) && DrawnFresh(o) && k < |o.links| && !e.Drew?
    ensures Placed(OnEvent(o, k, e))
  {
    var n, gone := OnEvent(o, k, e), Gone(o.links[k].s, e);
    GoneHeld(o.links[k].s, e);
    BookedGone(o, o.links[k].peer, o.links[k].s, e);
    forall i | i in gone ensures HeldOn(o, i, k) {}
    forall i, j ensures HeldOn(n, i, j) <==> HeldOn(o, i, j) && i !in gone {
      StepHeld(o, k, e, i, j);
      if i in gone && HeldOn(o, i, j) { assert HeldOn(o, i, k); }
    }
    hide Placed, HeldOn, Booked, After;
    GonePlaced(o, n, k, gone);
  }

  lemma GoneHeld(s: Stream, e: Event)
    ensures Gone(s, e) <= s.outstanding.Keys <= Ids(s)
  {
    hide Expired;
    if e.Swept? { ExpiredHeld(s, e.now); }
  }

  lemma BookedGone(o: Origin, p: Peer, s: Stream, e: Event)
    requires !e.Drew?
    ensures var n, gone := Booked(o, p, s, e), Gone(s, e);
            && n.nextProbeID == o.nextProbeID && n.owner == o.owner && n.links == o.links
            && n.answered == o.answered + (if e.Took? then gone else {})
            && n.expired == o.expired + if e.Swept? then gone else {}
  {
    hide Expired;
  }

  lemma OpenPlaced(o: Origin, p: Peer, now: int)
    requires Placed(o) && DrawnFresh(o)
    ensures Placed(Step(o, Open(p, now))) && DrawnFresh(Step(o, Open(p, now)))
  {
    var n := Step(o, Open(p, now));
    forall i, j ensures HeldOn(n, i, j) <==> HeldOn(o, i, j) {}
    forall i | i in n.owner ensures i in n.answered || i in n.expired || exists j :: HeldOn(n, i, j) {
      if i !in o.answered && i !in o.expired {
        var j :| HeldOn(o, i, j);
        assert HeldOn(n, i, j);
      }
    }
  }

  lemma StepFresh(o: Origin, k: nat, e: Event)
    requires Placed(o) && DrawnFresh(o) && k < |o.links|
    requires e.Drew? ==> e.id !in o.owner
    ensures DrawnFresh(OnEvent(o, k, e))
  {
    var s := o.links[k].s;
    forall i | i in s.outstanding ensures i in o.owner { assert HeldOn(o, i, k); }
    OwnFresh(s, e);
    hide After, Booked, Placed;
  }

  lemma OwnFresh(s: Stream, e: Event)
    requires s.writer.Drawn? ==> s.writer.id !in s.outstanding
    requires e.Drew? ==> e.id !in s.outstanding
    ensures var n := After(s, e); n.writer.Drawn? ==> n.writer.id !in n.outstanding
  {
    hide Expired, Threshold;
  }

  // ---- the metrics count them ----

  lemma OfAdd(o: Origin, ids: set<uint64>, more: set<uint64>, q: Peer, p: Peer)
    requires ids !! more && forall id :: id in more ==> id in o.owner && o.owner[id] == q
    ensures |Of(o, ids + more, p)| == |Of(o, ids, p)| + if p == q then |more| else 0
  {
    assert Of(o, ids, p) !! more;
    assert Of(o, ids + more, p) == Of(o, ids, p) + if p == q then more else {};
  }

  lemma OfOwner(o: Origin, n: Origin, ids: set<uint64>, p: Peer)
    requires forall id :: id in ids ==> id in o.owner && id in n.owner && n.owner[id] == o.owner[id]
    ensures Of(n, ids, p) == Of(o, ids, p)
  {
  }

  lemma ModuloAdd(a: nat, b: nat, x: nat)
    requires U32(a) == U32(b)
    ensures U32(a + x) == U32(b + x)
  {
  }

  lemma ModuloIn(a: nat, b: nat)
    ensures U32(U32(a) + b) == U32(a + b)
  {
  }

  /** What a step of a stream of `q` adds, for `p`: echoes taken and recorded, losses swept and counted. */
  lemma BookedFor(o: Origin, q: Peer, s: Stream, e: Event, p: Peer)
    requires !e.Drew?
    ensures var n := Booked(o, q, s, e);
            && |EchoesOf(n, p)| == |EchoesOf(o, p)| + (if p == q && Enabled(s, e) && e.Recorded? then 1 else 0)
            && LossesOf(n, p) == if p == q && Enabled(s, e) && e.Counted? then U32(LossesOf(o, p) + 1) else LossesOf(o, p)
  {
    hide Expired;
  }

  lemma StepInHand(l: Link, e: Event, p: Peer)
    ensures var n := Link(l.peer, After(l.s, e));
            var own := l.peer == p && Enabled(l.s, e);
            && TakenBy(p)(n) + (if own && e.Recorded? then 1 else 0) == TakenBy(p)(l) + (if own && e.Took? then 1 else 0)
            && LeftBy(p)(n) + (if own && e.Counted? then 1 else 0) ==
                 LeftBy(p)(l) + if own && e.Swept? then U32(|Gone(l.s, e)|) else 0
  {
    hide Expired, Threshold;
  }

  lemma GoneOwned(o: Origin, k: nat, e: Event)
    requires Placed(o) && k < |o.links|
    ensures var gone := Gone(o.links[k].s, e);
            && gone !! o.answered && gone !! o.expired
            && forall id :: id in gone ==> id in o.owner && o.owner[id] == o.links[k].peer
  {
    GoneHeld(o.links[k].s, e);
    forall id | id in Gone(o.links[k].s, e) ensures HeldOn(o, id, k) {}
  }

  /** The peer `p` is the one the step is for, and the step is taken. */
  predicate For(o: Origin, k: nat, e: Event, p: Peer)
    requires k < |o.links|
  {
    o.links[k].peer == p && Enabled(o.links[k].s, e)
  }

  lemma SumsAfter(o: Origin, k: nat, e: Event, p: Peer)
    requires k < |o.links|
    ensures var n, own := OnEvent(o, k, e), For(o, k, e, p);
            && SumOf(n.links, TakenBy(p)) + (if own && e.Recorded? then 1 else 0) ==
                 SumOf(o.links, TakenBy(p)) + (if own && e.Took? then 1 else 0)
            && SumOf(n.links, LeftBy(p)) + (if own && e.Counted? then 1 else 0) ==
                 SumOf(o.links, LeftBy(p)) + if own && e.Swept? then U32(|Gone(o.links[k].s, e)|) else 0
  {
    hide Booked, After, Enabled, SumOf, TakenBy, LeftBy, U32, Gone;
    var l := Link(o.links[k].peer, After(o.links[k].s, e));
    StepInHand(o.links[k], e, p);
    SumUpdate(o.links, k, l, TakenBy(p));
    SumUpdate(o.links, k, l, LeftBy(p));
  }

  lemma OfAfter(o: Origin, k: nat, e: Event, p: Peer)
    requires Placed(o) && k < |o.links| && !e.Drew?
    ensures var n, own := OnEvent(o, k, e), For(o, k, e, p);
            && |Of(n, n.answered, p)| == |Of(o, o.answered, p)| + (if own && e.Took? then 1 else 0)
            && |Of(n, n.expired, p)| == |Of(o, o.expired, p)| + if own && e.Swept? then |Gone(o.links[k].s, e)| else 0
  {
    var gone := Gone(o.links[k].s, e);
    assert e.Took? && Enabled(o.links[k].s, e) ==> |gone| == 1;
    assert !Enabled(o.links[k].s, e) ==> gone == {};
    hide Placed, Booked, After, Enabled, Of, Gone;
    var n, q, s := OnEvent(o, k, e), o.links[k].peer, o.links[k].s;
    GoneOwned(o, k, e);
    BookedGone(o, q, s, e);
    OfAdd(o, o.answered, if e.Took? then gone else {}, q, p);
    OfAdd(o, o.expired, if e.Swept? then gone else {}, q, p);
    SameOf(o, n, p);
  }

  lemma MetricsAfter(o: Origin, k: nat, e: Event, p: Peer)
    requires k < |o.links| && !e.Drew?
    ensures var n, own := OnEvent(o, k, e), For(o, k, e, p);
            && |EchoesOf(n, p)| == |EchoesOf(o, p)| + (if own && e.Recorded? then 1 else 0)
            && LossesOf(n, p) == if own && e.Counted? then U32(LossesOf(o, p) + 1) else LossesOf(o, p)
  {
    hide Booked, After, Enabled, EchoesOf, LossesOf, U32;
    BookedFor(o, o.links[k].peer, o.links[k].s, e, p);
    SameMetrics(o, k, e, p);
  }

  lemma OtherCounted(o: Origin, k: nat, e: Event, p: Peer)
    requires Placed(o) && CountedFor(o, p) && k < |o.links| && !e.Drew?
    ensures CountedFor(OnEvent(o, k, e), p)
  {
    hide OnEvent, Placed, For, Of, LossesOf, EchoesOf, SumOf, TakenBy, LeftBy, U32, Gone;
    SumsAfter(o, k, e, p);
    OfAfter(o, k, e, p);
    MetricsAfter(o, k, e, p);
    ZeroModulo();
    var n, own := OnEvent(o, k, e), For(o, k, e, p);
    LossesAgree(|Of(o, o.expired, p)|, |Of(n, n.expired, p)|, LossesOf(o, p), LossesOf(n, p),
                SumOf(o.links, LeftBy(p)), SumOf(n.links, LeftBy(p)),
                if own && e.Counted? then 1 else 0, if own && e.Swept? then |Gone(o.links[k].s, e)| else 0);
  }

  lemma ZeroModulo()
    ensures U32(0) == 0
  {
  }

  lemma SameOf(o: Origin, n: Origin, p: Peer)
    requires n.owner == o.owner
    ensures Of(n, n.answered, p) == Of(o, n.answered, p) && Of(n, n.expired, p) == Of(o, n.expired, p)
  {
  }

  lemma SameMetrics(o: Origin, k: nat, e: Event, p: Peer)
    requires k < |o.links|
    ensures var n := OnEvent(o, k, e);
            var b := Booked(o, o.links[k].peer, o.links[k].s, e);
            && EchoesOf(n, p) == EchoesOf(b, p) && LossesOf(n, p) == LossesOf(b, p)
            && n.owner == b.owner && n.answered == b.answered && n.expired == b.expired && n.nextProbeID == b.nextProbeID
  {
  }

  /** The loss counter follows the ledger: `counted` leaves the hand of a sweep, `swept` enters it. */
  lemma LossesAgree(e0: nat, e1: nat, m0: nat, m1: nat, left0: nat, left1: nat, counted: nat, swept: nat)
    requires U32(e0) == U32(m0 + left0) && e1 == e0 + swept
    requires m1 == (if counted == 1 then U32(m0 + 1) else m0) && counted <= 1
    requires left1 + counted == left0 + U32(swept)
    ensures U32(e1) == U32(m1 + left1)
  {
    ModuloAdd(e0, m0 + left0, swept);
    ModuloIn(swept, m0 + left0);
    ModuloIn(m0 + counted, left1);
    ModuloIn(m0, left1);
  }

  lemma DrawIsNew(o: Origin)
    requires Placed(o) && o.nextProbeID + 1 < TWO64
    ensures U64(o.nextProbeID + 1) !in o.owner
  {
    NoWrap(o.nextProbeID + 1);
  }

  lemma DrawCounted(o: Origin, k: nat, e: Event, p: Peer)
    requires Placed(o) && CountedFor(o, p) && k < |o.links| && e == Drew(U64(o.nextProbeID + 1)) && o.nextProbeID + 1 < TWO64
    ensures CountedFor(OnEvent(o, k, e), p)
  {
    hide Placed, OnEvent, Booked, For, Of, LossesOf, EchoesOf, SumOf, TakenBy, LeftBy, U32;
    DrawIsNew(o);
    SumsAfter(o, k, e, p);
    LedgerOwned(o);
    OwnersAfter(o, k, e, p);
    BookedDrew(o, o.links[k].peer, o.links[k].s, e);
    SameMetrics(o, k, e, p);
  }

  lemma OwnersAfter(o: Origin, k: nat, e: Event, p: Peer)
    requires k < |o.links| && e.Drew? && e.id !in o.owner && o.answered <= o.owner.Keys && o.expired <= o.owner.Keys
    ensures var n := OnEvent(o, k, e);
            Of(n, n.answered, p) == Of(o, o.answered, p) && Of(n, n.expired, p) == Of(o, o.expired, p)
  {
    BookedDrew(o, o.links[k].peer, o.links[k].s, e);
    hide Booked, After, Enabled, Of;
    OfOwner(o, OnEvent(o, k, e), o.answered, p);
    OfOwner(o, OnEvent(o, k, e), o.expired, p);
  }

  lemma LedgerOwned(o: Origin)
    requires Placed(o)
    ensures o.answered <= o.owner.Keys && o.expired <= o.owner.Keys
  {
  }

  lemma BookedDrew(o: Origin, q: Peer, s: Stream, e: Event)
    requires e.Drew?
    ensures var n := Booked(o, q, s, e);
            && n.answered == o.answered && n.expired == o.expired
            && (forall p :: EchoesOf(n, p) == EchoesOf(o, p) && LossesOf(n, p) == LossesOf(o, p))
            && n.owner == (if Enabled(s, e) then o.owner[e.id := q] else o.owner)
            && n.nextProbeID == if Enabled(s, e) then e.id else o.nextProbeID
  {
  }

  lemma OpenCounted(o: Origin, q: Peer, now: int, p: Peer)
    requires CountedFor(o, p)
    ensures CountedFor(Step(o, Open(q, now)), p)
  {
    hide SumOf;
    SumAppend(o.links, Link(q, Fresh(now)), TakenBy(p));
    SumAppend(o.links, Link(q, Fresh(now)), LeftBy(p));
    assert Of(Step(o, Open(q, now)), o.answered, p) == Of(o, o.answered, p);
    assert Of(Step(o, Open(q, now)), o.expired, p) == Of(o, o.expired, p);
  }

  // ---- every run ----

  /** The counter is not about to wrap. */
  predicate RoomFor(o: Origin, op: Op) { op.Act? && op.a.Draw? ==> o.nextProbeID + 1 < TWO64 }

  ghost predicate Balanced(o: Origin) { Placed(o) && DrawnFresh(o) && CountedAll(o) }

  lemma StepBalanced(o: Origin, op: Op)
    requires Balanced(o) && RoomFor(o, op)
    ensures Balanced(Step(o, op))
  {
    hide Placed, DrawnFresh, CountedFor, Reading, OnEvent;
    match op
    case Open(q, now) =>
      OpenPlaced(o, q, now);
      forall p ensures CountedFor(Step(o, op), p) { OpenCounted(o, q, now, p); }
    case Act(k, a) =>
      if k < |o.links| {
        var e := EventOf(o, k, a);
        if a.Draw? {
          DrawIsNew(o);
          DrawPlaced(o, k, e);
          forall p ensures CountedFor(Step(o, op), p) { DrawCounted(o, k, e, p); }
        } else {
          OtherPlaced(o, k, e);
          forall p ensures CountedFor(Step(o, op), p) { OtherCounted(o, k, e, p); }
        }
        StepFresh(o, k, e);
      }
  }

  /** How many numbers a run tries to draw. */
  function Draws(ops: seq<Op>): nat {
    if ops == [] then 0
    else Draws(ops[..|ops| - 1]) + if ops[|ops| - 1].Act? && ops[|ops| - 1].a.Draw? then 1 else 0
  }

  lemma CounterGrows(o: Origin, op: Op)
    ensures Step(o, op).nextProbeID <= o.nextProbeID + if op.Act? && op.a.Draw? then 1 else 0
  {
    hide Reading, Expired, After;
  }

  /** Main result: through any interleaving of the steps of all goroutines that draws fewer than 2^64 numbers, every
      probe number ever drawn is answered, expired or held by one stream, never two of these and never twice,
      and the metrics of every peer, with what the goroutines have in hand, count exactly those. */
  lemma {:induction false} LedgerBalances(ops: seq<Op>)
    requires Draws(ops) < TWO64
    ensures Balanced(Run(ops)) && Run(ops).nextProbeID <= Draws(ops)
  {
    hide Placed, CountedFor, Step, Balanced;
    if ops == [] {
      IdleBalanced();
    } else {
      var front := ops[..|ops| - 1];
      LedgerBalances(front);
      StepBalanced(Run(front), ops[|ops| - 1]);
      CounterGrows(Run(front), ops[|ops| - 1]);
    }
  }

  lemma IdleBalanced()
    ensures Balanced(IDLE)
  {
    assert forall p :: Of(IDLE, {}, p) == {};
  }

  // ---- conservation ----

  /** The numbers held on the streams of `p`. */
  function HeldIds(links: seq<Link>, p: Peer): set<uint64> {
    if links == [] then {}
    else
      var l := links[|links| - 1];
      HeldIds(links[..|links| - 1], p) + if l.peer == p then Ids(l.s) else {}
  }

  ghost predicate HeldBelow(o: Origin, id: uint64, n: nat, p: Peer) {
    exists k :: k < n && HeldOn(o, id, k) && o.links[k].peer == p
  }

  lemma HeldNext(o: Origin, n: nat, p: Peer, id: uint64)
    requires n < |o.links|
    ensures HeldBelow(o, id, n + 1, p) <==> HeldBelow(o, id, n, p) || (o.links[n].peer == p && id in Ids(o.links[n].s))
  {
    hide Ids;
    if id in Ids(o.links[n].s) { assert HeldOn(o, id, n); }
  }

  lemma LastHeld(links: seq<Link>, n: nat, p: Peer)
    requires n < |links|
    ensures HeldIds(links[..n + 1], p) == HeldIds(links[..n], p) + if links[n].peer == p then Ids(links[n].s) else {}
    ensures SumOf(links[..n + 1], HeldBy(p)) ==
            SumOf(links[..n], HeldBy(p)) + if links[n].peer == p then |Ids(links[n].s)| else 0
  {
    assert links[..n + 1][..n] == links[..n];
  }

  lemma {:induction false} HeldAre(o: Origin, n: nat, p: Peer)
    requires n <= |o.links|
    ensures forall id :: id in HeldIds(o.links[..n], p) <==> HeldBelow(o, id, n, p)
  {
    hide HeldBelow, Ids, HeldIds;
    if n == 0 {
      NoneHeld(o, p);
    } else {
      HeldAre(o, n - 1, p);
      LastHeld(o.links, n - 1, p);
      forall id ensures id in HeldIds(o.links[..n], p) <==> HeldBelow(o, id, n, p) { HeldNext(o, n - 1, p, id); }
    }
  }

  lemma NoneHeld(o: Origin, p: Peer)
    ensures HeldIds(o.links[..0], p) == {} && forall id :: !HeldBelow(o, id, 0, p)
  {
  }

  lemma {:induction false} HeldCount(o: Origin, n: nat, p: Peer)
    requires Placed(o) && n <= |o.links|
    ensures |HeldIds(o.links[..n], p)| == SumOf(o.links[..n], HeldBy(p))
  {
    hide Placed, Ids, HeldIds, SumOf;
    if n == 0 {
      NothingToSum(o.links[..0], p);
    } else {
      HeldCount(o, n - 1, p);
      HeldAre(o, n - 1, p);
      LastHeld(o.links, n - 1, p);
      LastIsNew(o, n, p, HeldIds(o.links[..n - 1], p));
    }
  }

  lemma NothingToSum(links: seq<Link>, p: Peer)
    requires links == []
    ensures |HeldIds(links, p)| == SumOf(links, HeldBy(p)) == 0
  {
  }

  lemma LastIsNew(o: Origin, n: nat, p: Peer, before: set<uint64>)
    requires Placed(o) && 0 < n <= |o.links|
    requires forall id :: id in before <==> HeldBelow(o, id, n - 1, p)
    ensures before !! Ids(o.links[n - 1].s)
    ensures |before + Ids(o.links[n - 1].s)| == |before| + |Ids(o.links[n - 1].s)|
  {
    hide Ids;
    forall id | id in before ensures id !in Ids(o.links[n - 1].s) {
      var k :| k < n - 1 && HeldOn(o, id, k);
      assert !HeldOn(o, id, n - 1);
    }
  }

  lemma OwnedHeld(o: Origin, p: Peer)
    requires Placed(o)
    ensures HeldIds(o.links, p) == Of(o, o.owner.Keys, p) - Of(o, o.answered, p) - Of(o, o.expired, p)
    ensures |HeldIds(o.links, p)| == SumOf(o.links, HeldBy(p))
  {
    hide Ids, HeldIds, SumOf;
    assert o.links[..|o.links|] == o.links;
    HeldCount(o, |o.links|, p);
    HeldAre(o, |o.links|, p);
    forall id ensures id in HeldIds(o.links, p) <==>
      id in Of(o, o.owner.Keys, p) && id !in Of(o, o.answered, p) && id !in Of(o, o.expired, p)
    {
      if id in Of(o, o.owner.Keys, p) && id !in o.answered && id !in o.expired {
        var k :| HeldOn(o, id, k);
        assert k < |o.links| && o.links[k].peer == p;
      }
    }
  }

  /** Main result, conservation, at every moment of every run: per peer, over all its streams, probes drawn =
      echoes recorded + echoes just taken + probes lost + probes held; and the loss counter has counted the lost
      ones but for those a sweep has still in hand. */
  lemma ProbesConserved(ops: seq<Op>, p: Peer)
    requires Draws(ops) < TWO64
    ensures var o := Run(ops);
            var lost := |Of(o, o.expired, p)|;
            && |Of(o, o.owner.Keys, p)| == |EchoesOf(o, p)| + SumOf(o.links, TakenBy(p)) + lost + SumOf(o.links, HeldBy(p))
            && U32(LossesOf(o, p) + SumOf(o.links, LeftBy(p))) == U32(lost)
  {
    hide *;
    LedgerBalances(ops);
    BalanceConserved(Run(ops), p);
  }

  lemma BalanceConserved(o: Origin, p: Peer)
    requires Balanced(o)
    ensures var lost := |Of(o, o.expired, p)|;
            && |Of(o, o.owner.Keys, p)| == |EchoesOf(o, p)| + SumOf(o.links, TakenBy(p)) + lost + SumOf(o.links, HeldBy(p))
            && U32(LossesOf(o, p) + SumOf(o.links, LeftBy(p))) == U32(lost)
  {
    hide SumOf, HeldBy, TakenBy, LeftBy, U32, Placed, DrawnFresh, Of, EchoesOf, LossesOf, HeldIds;
    assert CountedFor(o, p);
    AnsweredOnce(o, p);
    OwnedHeld(o, p);
    Split3(Of(o, o.owner.Keys, p), Of(o, o.answered, p), Of(o, o.expired, p));
  }

  lemma AnsweredOnce(o: Origin, p: Peer)
    requires Placed(o)
    ensures Of(o, o.answered, p) <= Of(o, o.owner.Keys, p) && Of(o, o.expired, p) <= Of(o, o.owner.Keys, p)
    ensures Of(o, o.answered, p) !! Of(o, o.expired, p)
  {
  }

  lemma Split3(all: set<uint64>, a: set<uint64>, b: set<uint64>)
    requires a <= all && b <= all && a !! b
    ensures |all| == |a| + |b| + |all - a - b|
  {
    assert all == a + b + (all - a - b);
    assert |a + b| == |a| + |b|;
  }

  /** Where no goroutine of `p` has anything in hand, this is: sent = recorded + lost + outstanding. */
  ghost predicate AtRest(o: Origin, p: Peer) {
    forall k :: 0 <= k < |o.links| && o.links[k].peer == p ==>
      o.links[k].s.reader.Waiting? && o.links[k].s.writer.Free?
  }

  function OutstandingBy(p: Peer): Link -> nat { (l: Link) => if l.peer == p then |l.s.outstanding| else 0 }

  lemma {:induction false} RestInHand(links: seq<Link>, p: Peer)
    requires forall k :: 0 <= k < |links| && links[k].peer == p ==> links[k].s.reader.Waiting? && links[k].s.writer.Free?
    ensures SumOf(links, TakenBy(p)) == 0 && SumOf(links, LeftBy(p)) == 0
    ensures SumOf(links, HeldBy(p)) == SumOf(links, OutstandingBy(p))
  {
    if links != [] {
      RestInHand(links[..|links| - 1], p);
      var s := links[|links| - 1].s;
      if s.writer.Free? { assert Ids(s) == s.outstanding.Keys && |s.outstanding.Keys| == |s.outstanding|; }
    }
  }

  lemma ConservedAtRest(ops: seq<Op>, p: Peer)
    requires Draws(ops) < TWO64 && AtRest(Run(ops), p)
    ensures var o := Run(ops);
            var lost := |Of(o, o.expired, p)|;
            && |Of(o, o.owner.Keys, p)| == |EchoesOf(o, p)| + lost + SumOf(o.links, OutstandingBy(p))
            && LossesOf(o, p) == U32(lost)
  {
    hide Run, Draws, SumOf, TakenBy, LeftBy, HeldBy, OutstandingBy, Of;
    ProbesConserved(ops, p);
    RestInHand(Run(ops).links, p);
    SmallLoss(LossesOf(Run(ops), p));
  }

  lemma SmallLoss(x: uint32)
    ensures U32(x + 0) == x
  {
  }

  // ---- each stream's own history ----

  /** The steps stream `k` took on the run. */
  function History(ops: seq<Op>, k: nat): seq<Event> {
    if ops == [] then []
    else
      var front, op := ops[..|ops| - 1], ops[|ops| - 1];
      History(front, k) + if op.Act? && op.k == k < |Run(front).links| then [EventOf(Run(front), k, op.a)] else []
  }

  lemma {:induction false} NotYetOpened(ops: seq<Op>, k: nat)
    requires k >= |Run(ops).links|
    ensures History(ops, k) == []
  {
    if ops != [] {
      hide Reading, Booked, After;
      NotYetOpened(ops[..|ops| - 1], k);
    }
  }

  /** Every stream of the origin is a run of the single stream, over its own history. */
  lemma {:induction false} LinkHistory(ops: seq<Op>, k: nat)
    requires k < |Run(ops).links|
    ensures var s := Run(ops).links[k].s; s == StreamSink.Run(s.start, History(ops, k))
  {
    var front, op := ops[..|ops| - 1], ops[|ops| - 1];
    var o := Run(front);
    hide Reading, Booked, After, StreamSink.Run;
    if k >= |o.links| {
      NotYetOpened(front, k);
      NewHistory(Run(ops).links[k].s.start);
      assert History(ops, k) == [];
    } else {
      LinkHistory(front, k);
      if op.Act? && op.k == k {
        KeepsStart(o.links[k].s, EventOf(o, k, op.a));
        StreamSink.RunStep(o.links[k].s.start, History(front, k), EventOf(o, k, op.a));
      } else {
        assert History(front, k) + [] == History(front, k);
      }
    }
  }

  lemma NewHistory(t0: int)
    ensures StreamSink.Run(t0, []) == Fresh(t0)
  {
  }

  lemma KeepsStart(s: Stream, e: Event)
    ensures After(s, e).start == s.start
  {
    hide Expired;
  }

  /** What is recorded with a peer is the time from sending a probe to taking up its echo. */
  lemma RecordsRoundTrip(ops: seq<Op>, k: nat, now: int) returns (i: nat, id: uint64)
    requires k < |Run(ops).links| && Run(ops).links[k].s.reader.Taken?
    ensures Sends(Run(ops).links[k].s.start, History(ops, k), i, id)
    ensures var o, p := Run(ops), Run(ops).links[k].peer;
            EchoesOf(Step(o, Act(k, Record(now))), p) == EchoesOf(o, p) + [now - History(ops, k)[i].now]
  {
    hide Run, History, StreamSink.Run;
    LinkHistory(ops, k);
    i, id := TakenWasSent(Run(ops).links[k].s.start, History(ops, k));
  }

  lemma LinksStay(o: Origin, op: Op)
    ensures |o.links| <= |Step(o, op).links|
    ensures forall k :: 0 <= k < |o.links| ==> Step(o, op).links[k].peer == o.links[k].peer
  {
    hide Booked, After, Reading;
  }

  /** The readings in a history are the percentiles of the peer's echoes as they stood then. */
  lemma {:induction false} TrueReadings(ops: seq<Op>, k: nat, i: nat)
    requires k < |Run(ops).links| && i < |History(ops, k)| && History(ops, k)[i].Ticked?
    ensures exists m :: 0 <= m < |ops| && History(ops, k)[i].p95 == Reading(Run(ops[..m]), Run(ops).links[k].peer)
  {
    hide History, Run, Step, EventOf, Reading;
    HistoryStep(ops, k);
    var n := |ops| - 1;
    var front := ops[..n];
    var o := Run(front);
    LinksStay(o, ops[n]);
    if i < |History(front, k)| {
      if k >= |o.links| { NotYetOpened(front, k); }
      TrueReadings(front, k, i);
      var m :| 0 <= m < n && History(front, k)[i].p95 == Reading(Run(front[..m]), o.links[k].peer);
      assert front[..m] == ops[..m];
    } else {
      ReadingOf(o, k, ops[n].a);
      assert History(ops, k)[i].p95 == Reading(Run(ops[..n]), Run(ops).links[k].peer);
    }
  }

  lemma HistoryStep(ops: seq<Op>, k: nat)
    ensures ops == [] ==> History(ops, k) == [] && Run(ops) == IDLE
    ensures ops != [] ==>
              var front, op := ops[..|ops| - 1], ops[|ops| - 1];
              && Run(ops) == Step(Run(front), op)
              && History(ops, k) == History(front, k) +
                   if op.Act? && op.k == k < |Run(front).links| then [EventOf(Run(front), k, op.a)] else []
  {
    hide Step, EventOf;
  }

  lemma ReadingOf(o: Origin, k: nat, a: Action)
    requires k < |o.links|
    ensures EventOf(o, k, a).Ticked? ==> EventOf(o, k, a).p95 == Reading(o, o.links[k].peer)
  {
    hide Reading;
  }

  /** Main result: through any interleaving over all streams, a stream is asked to drop if and only if its own
      history trips, and behind each trip stands its cause: a failed write, five probes that each waited more
      than five seconds and were swept, or thirty seconds of readings above the threshold. */
  lemma DropsOfOrigin(ops: seq<Op>, k: nat)
    requires k < |Run(ops).links|
    ensures var s, h := Run(ops).links[k].s, History(ops, k);
            && (s.dropRequested <==> exists n :: 0 < n <= |h| && Trips(s.start, h[..n]))
            && (forall n :: 0 < n <= |h| && Trips(s.start, h[..n]) ==> Justified(s.start, h[..n]))
  {
    hide Trips, Run, StreamSink.Run, History, Justified;
    var s, h := Run(ops).links[k].s, History(ops, k);
    LinkHistory(ops, k);
    DropExactly(s.start, h);
    forall n | 0 < n <= |h| && Trips(s.start, h[..n]) ensures Justified(s.start, h[..n]) { TripMeans(s.start, h[..n]); }
  }

  /** The cause of a request made by the last step. */
  ghost predicate Justified(t0: int, h: seq<Event>) {
    h != [] &&
    match h[|h| - 1]
    case Added => exists lost :: FiveLost(t0, h, lost)
    case Ticked(_, _) => exists i :: DegradedSince(Ticks(t0, h), i)
    case WriteFailed => true
    case _ => false
  }

  lemma TripMeans(t0: int, h: seq<Event>)
    requires Trips(t0, h)
    ensures Justified(t0, h)
  {
    TripJustified(t0, h);
    hide LossSinceReset, Sustained, Ticks, DegradedSince, Enabled, StreamSink.Run, FiveLost;
    if h[|h| - 1].Added? { var lost := AddedMeans(t0, h); }
  }
}
