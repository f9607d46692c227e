/** Peer cooldowns of mirror/client.go: a table of expiry times with lazy pruning, the gate that keeps
    cooling peers from being mirrored to, and the rule that ends a dropped stream with a cooldown.

    `Cooling` is the reference: it looks at the history of the client alone, and forgets nothing.
 */
module Cooldown {
  import opened Bytes
  import opened Results

  type Peer = bytes
  type Table = map<Peer, int>

  const DEFAULT_DURATION: int := 60 * 1_000_000_000

  /** What a client did: entered a cooldown, asked about a peer, listed the cooldowns, or ended a
      stream, dropped or not; each with its clock reading. */
  datatype Event =
    | Enter(peer: Peer, duration: int, now: int)
    | Query(peer: Peer, now: int)
    | List(now: int)
    | StreamEnd(peer: Peer, dropped: bool, now: int)

  function Effective(duration: int): int { if duration == 0 then DEFAULT_DURATION else duration }

  /** Entering again can only prolong. */
  function Entered(t: Table, p: Peer, duration: int, now: int): Table {
    var expiry := now + Effective(duration);
    if p !in t || expiry > t[p] then t[p := expiry] else t
  }

  predicate Listed(t: Table, p: Peer, now: int) { p in t && now <= t[p] }

  /** Asking removes an entry that has expired. */
  function Asked(t: Table, p: Peer, now: int): Table {
    if p in t && now > t[p] then t - {p} else t
  }

  function Pruned(t: Table, now: int): Table {
    map p | p in t && now <= t[p] :: t[p]
  }

  function After(t: Table, e: Event): Table {
    match e
    case Enter(p, d, now) => Entered(t, p, d, now)
    case Query(p, now) => Asked(t, p, now)
    case List(now) => Pruned(t, now)
    case StreamEnd(p, dropped, now) => if dropped then Entered(t, p, DEFAULT_DURATION, now) else t
  }

  function Run(h: seq<Event>): Table {
    if h == [] then map[] else After(Run(h[..|h| - 1]), h[|h| - 1])
  }

  // ---- reference ----

  /** The event puts `p` into a cooldown that still covers `t`. */
  predicate Covers(e: Event, p: Peer, t: int) {
    match e
    case Enter(q, d, now) => q == p && t <= now + Effective(d)
    case StreamEnd(q, dropped, now) => q == p && dropped && t <= now + DEFAULT_DURATION
    case _ => false
  }

  ghost predicate Cooling(h: seq<Event>, p: Peer, t: int) {
    exists i :: 0 <= i < |h| && Covers(h[i], p, t)
  }

  /** Clock readings never go back, and `t` is no earlier than the last. */
  ghost predicate Clocked(h: seq<Event>, t: int) {
    && (forall i, j :: 0 <= i < j < |h| ==> h[i].now <= h[j].now)
    && (forall i :: 0 <= i < |h| ==> h[i].now <= t)
  }

  lemma CoolingStep(h: seq<Event>, e: Event, p: Peer, t: int)
    ensures Cooling(h + [e], p, t) <==> Cooling(h, p, t) || Covers(e, p, t)
  {
    var g := h + [e];
    if Cooling(h, p, t) {
      var i :| 0 <= i < |h| && Covers(h[i], p, t);
      assert Covers(g[i], p, t);
    }
    if Covers(e, p, t) { assert Covers(g[|h|], p, t); }
  }

  /** Main result: with a clock that never goes back, a peer is found cooling at `t` if and only if some
      earlier cooldown of it reaches to `t`, however often expired entries were pruned meanwhile. */
  lemma {:induction false} CooldownExact(h: seq<Event>, p: Peer, t: int)
    requires Clocked(h, t)
    ensures Listed(Run(h), p, t) <==> Cooling(h, p, t)
    decreases |h|
  {
    if h != [] {
      var front, e := h[..|h| - 1], h[|h| - 1];
      assert h == front + [e];
      assert Clocked(front, t) && Clocked(front, e.now);
      CooldownExact(front, p, t);
      CoolingStep(front, e, p, t);
    }
  }

  /** When the cooldown `e` gives `p` ends. */
  function Expiry(e: Event, p: Peer): Option<int> {
    match e
    case Enter(q, d, now) => if q == p then Some(now + Effective(d)) else None
    case StreamEnd(q, dropped, now) => if q == p && dropped then Some(now + DEFAULT_DURATION) else None
    case _ => None
  }

  /** The event would remove an entry of `p` that ends at `expiry`. */
  predicate Prunes(e: Event, p: Peer, expiry: int) {
    ((e.Query? && e.peer == p) || e.List?) && e.now > expiry
  }

  /** The cooldown of event `i` was not pruned since. */
  ghost predicate Survives(h: seq<Event>, i: int, p: Peer) {
    && 0 <= i < |h| && Expiry(h[i], p).Some?
    && forall j :: i < j < |h| ==> !Prunes(h[j], p, Expiry(h[i], p).value)
  }

  lemma SurvivesStep(h: seq<Event>, e: Event, i: int, p: Peer)
    ensures Survives(h + [e], i, p) <==>
              if i == |h| then Expiry(e, p).Some?
              else Survives(h, i, p) && !Prunes(e, p, Expiry(h[i], p).value)
  {
    hide Expiry, Prunes;
    var g := h + [e];
    if 0 <= i < |h| {
      assert g[i] == h[i] && g[|h|] == e;
      if Survives(g, i, p) {
        forall j | i < j < |h| ensures !Prunes(h[j], p, Expiry(h[i], p).value) { assert g[j] == h[j]; }
      }
    }
  }

  /** The table holds the longest cooldown that was not pruned. */
  ghost predicate HoldsLongest(t: Table, h: seq<Event>, p: Peer) {
    && (p in t ==> exists i :: Survives(h, i, p) && Expiry(h[i], p).value == t[p])
    && (forall i :: Survives(h, i, p) ==> p in t && Expiry(h[i], p).value <= t[p])
  }

  lemma StepHolds(t: Table, h: seq<Event>, e: Event, p: Peer)
    requires HoldsLongest(t, h, p)
    ensures HoldsLongest(After(t, e), h + [e], p)
  {
    hide Survives;
    var u, g := After(t, e), h + [e];
    SurvivesInRange(h, p);
    SurvivesInRange(g, p);
    forall i ensures Survives(g, i, p) <==>
                       if i == |h| then Expiry(e, p).Some? else Survives(h, i, p) && !Prunes(e, p, Expiry(h[i], p).value)
    {
      SurvivesStep(h, e, i, p);
    }
    forall i | Survives(g, i, p) ensures p in u && Expiry(g[i], p).value <= u[p] {
      if i < |h| { assert g[i] == h[i]; }
    }
    if p in u {
      if p in t && u[p] == t[p] {
        var i :| Survives(h, i, p) && Expiry(h[i], p).value == t[p];
        assert g[i] == h[i] && Survives(g, i, p);
      } else {
        assert g[|h|] == e && Survives(g, |h|, p);
      }
    }
  }

  lemma SurvivesInRange(h: seq<Event>, p: Peer)
    ensures forall i :: Survives(h, i, p) ==> 0 <= i < |h| && Expiry(h[i], p).Some?
  {
  }

  lemma {:induction false} RunHolds(h: seq<Event>, p: Peer)
    ensures HoldsLongest(Run(h), h, p)
  {
    hide HoldsLongest, After;
    if h == [] {
      NothingHeld(p);
    } else {
      var front, e := h[..|h| - 1], h[|h| - 1];
      assert h == front + [e];
      RunHolds(front, p);
      StepHolds(Run(front), front, e, p);
    }
  }

  lemma NothingHeld(p: Peer)
    ensures HoldsLongest(map[], [], p)
  {
  }

  /** Main result: for any clock, going back included, a peer is found cooling at `t` if and only if some
      cooldown of it reaches to `t` and no pruning since has read a clock past its end. */
  lemma CooldownAnyClock(h: seq<Event>, p: Peer, t: int)
    ensures Listed(Run(h), p, t) <==> exists i :: Survives(h, i, p) && t <= Expiry(h[i], p).value
  {
    hide Survives, Run;
    RunHolds(h, p);
    SurvivesInRange(h, p);
    if Listed(Run(h), p, t) {
      var i :| Survives(h, i, p) && Expiry(h[i], p).value == Run(h)[p];
    }
  }

  /** So a clock that goes back breaks the "if" of the last result: an entry pruned is gone for good. */
  lemma ClockBackForgets(p: Peer)
    ensures var h := [Enter(p, 10, 0), Query(p, 11)];
            Cooling(h, p, 5) && !Listed(Run(h), p, 5)
  {
    var h := [Enter(p, 10, 0), Query(p, 11)];
    assert Covers(h[0], p, 5);
    assert h[..1] == [Enter(p, 10, 0)] && h[..1][..0] == [];
    assert Run(h[..1]) == map[p := 10];
  }

  /** The reference itself in plain terms: entered for at least as long, zero meaning a minute, or dropped within the
      last minute. */
  lemma CoolingPlainly(h: seq<Event>, p: Peer, t: int)
    ensures Cooling(h, p, t) <==>
              exists i :: 0 <= i < |h| &&
                ((h[i].Enter? && h[i].peer == p && t <= h[i].now + if h[i].duration == 0 then 60_000_000_000 else h[i].duration)
                 || (h[i].StreamEnd? && h[i].peer == p && h[i].dropped && t <= h[i].now + 60_000_000_000))
  {
    if Cooling(h, p, t) {
      var i :| 0 <= i < |h| && Covers(h[i], p, t);
      assert h[i].Enter? || h[i].StreamEnd?;
    }
    forall i | 0 <= i < |h| && !Covers(h[i], p, t)
      ensures !(h[i].Enter? && h[i].peer == p && t <= h[i].now + if h[i].duration == 0 then 60_000_000_000 else h[i].duration)
      ensures !(h[i].StreamEnd? && h[i].peer == p && h[i].dropped && t <= h[i].now + 60_000_000_000)
    {
    }
  }

  // ---- the client object ----

  class Client {
    const self: Peer
    var cooldowns: Table
    ghost var history: seq<Event>

    ghost predicate Valid()
      reads this
    {
      cooldowns == Run(history)
    }

    constructor (self: Peer)
      ensures Valid() && history == [] && this.self == self
    {
      this.self, cooldowns, history := self, map[], [];
    }

    ghost method Log(e: Event)
      modifies `history
      ensures history == old(history) + [e] && Run(history) == After(Run(old(history)), e)
    {
      assert (history + [e])[..|history|] == history;
      history := history + [e];
    }

    method Prolong(p: Peer, duration: int, now: int)
      modifies `cooldowns
      ensures cooldowns == Entered(old(cooldowns), p, duration, now)
      ensures var end, t := now + (if duration == 0 then 60_000_000_000 else duration), old(cooldowns);
              cooldowns == t[p := if p in t && t[p] >= end then t[p] else end]
    {
      var d := duration;
      if d == 0 { d := DEFAULT_DURATION; }
      var expiry := now + d;
      if p !in cooldowns || expiry > cooldowns[p] { cooldowns := cooldowns[p := expiry]; }
    }

    method EnterCooldown(p: Peer, duration: int, now: int)
      requires Valid()
      modifies this
      ensures Valid() && history == old(history) + [Enter(p, duration, now)]
    {
      Prolong(p, duration, now);
      Log(Enter(p, duration, now));
    }

    method IsInCooldown(p: Peer, now: int) returns (r: bool)
      requires Valid()
      modifies this
      ensures Valid() && history == old(history) + [Query(p, now)]
      ensures Clocked(old(history), now) ==> (r <==> Cooling(old(history), p, now))
    {
      if Clocked(history, now) { CooldownExact(history, p, now); }
      r := p in cooldowns;
      if r && now > cooldowns[p] {
        cooldowns := cooldowns - {p};
        r := false;
      }
      Log(Query(p, now));
    }

    /** Copies the live entries and prunes the others, in whatever order the map is walked. */
    method CooldownSnapshot(now: int) returns (out: Table)
      requires Valid()
      modifies this
      ensures Valid() && history == old(history) + [List(now)]
      ensures out == Pruned(old(cooldowns), now)
      ensures Clocked(old(history), now) ==> forall p :: p in out <==> Cooling(old(history), p, now)
    {
      if Clocked(history, now) {
        forall p ensures Listed(cooldowns, p, now) <==> Cooling(history, p, now) { CooldownExact(history, p, now); }
      }
      out := CopyLive(now);
      Log(List(now));
      assert forall p :: p in out <==> Listed(old(cooldowns), p, now);
    }

    /** Its loop. */
    method CopyLive(now: int) returns (out: Table)
      modifies `cooldowns
      ensures out == cooldowns == Pruned(old(cooldowns), now)
    {
      out := map[];
      ghost var all := cooldowns;
      var todo := cooldowns.Keys;
      while todo != {}
        invariant todo <= all.Keys
        invariant out == map p | p in all && p !in todo && now <= all[p] :: all[p]
        invariant cooldowns == map p | p in all && (p in todo || now <= all[p]) :: all[p]
        decreases |todo|
      {
        var p :| p in todo;
        todo := todo - {p};
        if now > cooldowns[p] {
          cooldowns := cooldowns - {p};
        } else {
          out := out[p := cooldowns[p]];
        }
      }
      assert out == Pruned(all, now) == cooldowns;
    }

    /** The end of a stream's writer: a dropped stream puts its peer into cooldown. */
    method EndStream(p: Peer, dropRequested: bool, now: int)
      requires Valid()
      modifies this
      ensures Valid() && history == old(history) + [StreamEnd(p, dropRequested, now)]
    {
      if dropRequested { Prolong(p, DEFAULT_DURATION, now); }
      Log(StreamEnd(p, dropRequested, now));
    }

    /** StartMirroringWithPeers over peers with their dial outcomes, all asked at one time; returns the
        peers it opened a stream to: each one asked for that could be dialed, is not this client and is
        not cooling, in order, as often as it was listed. */
    method StartMirroring(peers: seq<Peer>, dialed: seq<bool>, now: int) returns (started: seq<Peer>)
      requires Valid() && |peers| == |dialed| && Clocked(history, now)
      modifies this
      ensures Valid()
      ensures started == Taken(old(history), self, peers, dialed, now)
      ensures SameCooling(old(history), history, now)
    {
      hide Cooling, SameCooling, Taken, Run, Clocked;
      started := [];
      ghost var h := history;
      SameAtFirst(h, now);
      TakenNone(h, self, peers, dialed, now);
      for i := 0 to |peers|
        invariant Valid() && Clocked(history, now) && SameCooling(h, history, now)
        invariant started == Taken(h, self, peers[..i], dialed[..i], now)
      {
        var p := peers[i];
        TakenNext(h, self, peers, dialed, now, i);
        if p == self { continue; }
        QueryKeeps(h, history, p, now);
        var cooling := IsInCooldown(p, now);
        if cooling { continue; }
        if dialed[i] { started := started + [p]; }
      }
      assert peers[..|peers|] == peers && dialed[..|dialed|] == dialed;
    }
  }

  /** The two histories leave the same peers cooling at `now`. */
  ghost predicate SameCooling(h: seq<Event>, g: seq<Event>, now: int) {
    forall p :: Cooling(g, p, now) <==> Cooling(h, p, now)
  }

  lemma SameAtFirst(h: seq<Event>, now: int)
    ensures SameCooling(h, h, now)
  {
  }

  /** Asking about a peer changes nobody's cooldown. */
  lemma QueryKeeps(h: seq<Event>, g: seq<Event>, p: Peer, now: int)
    requires SameCooling(h, g, now) && Clocked(g, now)
    ensures SameCooling(h, g + [Query(p, now)], now) && Clocked(g + [Query(p, now)], now)
    ensures Cooling(g, p, now) <==> Cooling(h, p, now)
  {
    hide Cooling;
    forall q ensures Cooling(g + [Query(p, now)], q, now) <==> Cooling(g, q, now) { CoolingStep(g, Query(p, now), q, now); }
  }

  /** The peers a call opens a stream to. */
  ghost function Taken(h: seq<Event>, self: Peer, peers: seq<Peer>, dialed: seq<bool>, now: int): seq<Peer>
    requires |peers| == |dialed|
  {
    if peers == [] then []
    else
      var n := |peers| - 1;
      Taken(h, self, peers[..n], dialed[..n], now) +
      if dialed[n] && peers[n] != self && !Cooling(h, peers[n], now) then [peers[n]] else []
  }

  /** The positions of a list a call opens a stream for, among the first `n`. */
  ghost function Open(h: seq<Event>, self: Peer, peers: seq<Peer>, dialed: seq<bool>, now: int, n: nat): set<int>
    requires n <= |peers| == |dialed|
  {
    set k | 0 <= k < n && dialed[k] && peers[k] != self && !Cooling(h, peers[k], now)
  }

  lemma OpenFront(h: seq<Event>, self: Peer, peers: seq<Peer>, dialed: seq<bool>, now: int, n: nat)
    requires n < |peers| == |dialed|
    ensures Open(h, self, peers[..|peers| - 1], dialed[..|peers| - 1], now, n) == Open(h, self, peers, dialed, now, n)
  {
    hide Cooling;
  }

  lemma {:induction false} TakenCount(h: seq<Event>, self: Peer, peers: seq<Peer>, dialed: seq<bool>, now: int)
    requires |peers| == |dialed|
    ensures |Taken(h, self, peers, dialed, now)| == |Open(h, self, peers, dialed, now, |peers|)|
  {
    hide Cooling;
    if peers != [] {
      var n := |peers| - 1;
      TakenCount(h, self, peers[..n], dialed[..n], now);
      OpenFront(h, self, peers, dialed, now, n);
      assert Open(h, self, peers, dialed, now, n + 1) == Open(h, self, peers, dialed, now, n) +
             if dialed[n] && peers[n] != self && !Cooling(h, peers[n], now) then {n} else {};
    }
  }

  /** Each position that qualifies has its place in the answer, behind those before it, and there are no others. */
  lemma {:induction false} TakenInOrder(h: seq<Event>, self: Peer, peers: seq<Peer>, dialed: seq<bool>, now: int, k: nat)
    requires k < |peers| == |dialed| && dialed[k] && peers[k] != self && !Cooling(h, peers[k], now)
    ensures var t := Taken(h, self, peers, dialed, now);
            && |t| == |Open(h, self, peers, dialed, now, |peers|)|
            && |Open(h, self, peers, dialed, now, k)| < |t| && t[|Open(h, self, peers, dialed, now, k)|] == peers[k]
  {
    hide Cooling, Open;
    TakenCount(h, self, peers, dialed, now);
    var n := |peers| - 1;
    OpenFront(h, self, peers, dialed, now, k);
    if k < n {
      TakenInOrder(h, self, peers[..n], dialed[..n], now, k);
    } else {
      TakenCount(h, self, peers[..n], dialed[..n], now);
    }
  }

  lemma {:induction false} OnlyOpenTaken(h: seq<Event>, self: Peer, peers: seq<Peer>, dialed: seq<bool>, now: int, p: Peer)
    requires |peers| == |dialed| && p in Taken(h, self, peers, dialed, now)
    ensures p in peers && p != self && !Cooling(h, p, now)
  {
    hide Cooling;
    var n := |peers| - 1;
    var front := Taken(h, self, peers[..n], dialed[..n], now);
    if p in front {
      OnlyOpenTaken(h, self, peers[..n], dialed[..n], now, p);
    }
  }

  /** Main result: after a stream to a peer ends with a drop, no new stream to it is opened for sixty
      seconds, whatever the client does in between and whoever asks. */
  lemma DroppedPeerStaysOut(h: seq<Event>, i: nat, self: Peer, peers: seq<Peer>, dialed: seq<bool>, now: int)
    requires i < |h| && h[i].StreamEnd? && h[i].dropped && now <= h[i].now + 60_000_000_000
    requires |peers| == |dialed|
    ensures h[i].peer !in Taken(h, self, peers, dialed, now)
  {
    assert Covers(h[i], h[i].peer, now);
    if h[i].peer in Taken(h, self, peers, dialed, now) { OnlyOpenTaken(h, self, peers, dialed, now, h[i].peer); }
  }

  /** And the gate is not closed to others: a reachable peer that was never dropped within the last minute nor
      entered for longer is taken. */
  lemma OthersAreTaken(h: seq<Event>, self: Peer, peers: seq<Peer>, dialed: seq<bool>, now: int, k: nat)
    requires k < |peers| == |dialed| && dialed[k] && peers[k] != self
    requires forall i :: 0 <= i < |h| && h[i].Enter? && h[i].peer == peers[k] ==>
               now > h[i].now + if h[i].duration == 0 then 60_000_000_000 else h[i].duration
    requires forall i :: 0 <= i < |h| && h[i].StreamEnd? && h[i].peer == peers[k] && h[i].dropped ==>
               now > h[i].now + 60_000_000_000
    ensures peers[k] in Taken(h, self, peers, dialed, now)
  {
    hide Taken, Open, Cooling;
    CoolingPlainly(h, peers[k], now);
    TakenInOrder(h, self, peers, dialed, now, k);
  }

  lemma TakenNone(h: seq<Event>, self: Peer, peers: seq<Peer>, dialed: seq<bool>, now: int)
    requires |peers| == |dialed|
    ensures Taken(h, self, peers[..0], dialed[..0], now) == []
  {
  }

  lemma TakenNext(h: seq<Event>, self: Peer, peers: seq<Peer>, dialed: seq<bool>, now: int, i: nat)
    requires i < |peers| == |dialed|
    ensures Taken(h, self, peers[..i + 1], dialed[..i + 1], now) ==
              Taken(h, self, peers[..i], dialed[..i], now) +
              if dialed[i] && peers[i] != self && !Cooling(h, peers[i], now) then [peers[i]] else []
  {
    hide Cooling;
    assert peers[..i + 1][..i] == peers[..i] && dialed[..i + 1][..i] == dialed[..i];
  }
}
