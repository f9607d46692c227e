/** One mirror stream's supervision (mirror/client.go, `streamSink`): outstanding probes, the count of
    losses since the last echo, the drift watcher, and the request to drop the stream.

    Two goroutines work on a stream, the writer and the reader.  Each atomic operation and each locked
    section of either is one step here, so that steps of the other can come between; what a goroutine
    holds in local variables from one step to the next is part of the state.  A clock reading is an
    argument, in nanoseconds.

    The history of a stream is the list of steps it took; every claim about a drop is made of it.
 */
module StreamSink {
  import opened Bytes
  import opened Results
  import opened HopMetrics

  const SECOND: int := 1_000_000_000
  const MAX_AGE: int := 5 * SECOND
  const LOSS_THRESHOLD := 5
  const BASELINE_WINDOW: int := 60 * SECOND
  const SUSTAIN_WINDOW: int := 30 * SECOND

  /** The reader between the steps of one echo: it has taken the probe off the map, or has recorded it too. */
  datatype Reader = Waiting | Taken(sentAt: int) | Noted

  /** The writer between the steps of one probe or one sweep: it has drawn a number, or has taken `lost` probes
      off the map and still has `left` of them to count. */
  datatype Writer = Free | Drawn(id: uint64) | Counting(lost: uint32, left: uint32)

  /** `baseline` is zero until locked, `degraded` the time the present degradation began. */
  datatype Stream = Stream(
    outstanding: map<uint64, int>, consecutiveLoss: uint32, dropRequested: bool,
    start: int, baseline: int, degraded: Option<int>, reader: Reader, writer: Writer)

  function Fresh(now: int): Stream { Stream(map[], 0, false, now, 0, None, Waiting, Free) }

  /** The writer's steps are `Drew`, `Sent`, `Swept`, `Counted`, `Added`, `Ticked` and `WriteFailed`, the
      reader's `Took`, `Recorded` and `Reset`. */
  datatype Event =
    | Drew(id: uint64)
    | Sent(now: int)
    | Took(id: uint64)
    | Recorded(now: int)
    | Reset
    | Swept(now: int)
    | Counted
    | Added
    | Ticked(now: int, p95: int)
    | WriteFailed

  // ---- the steps ----

  function OlderThan(probes: map<uint64, int>, cutoff: int): set<uint64> {
    set id | id in probes && probes[id] < cutoff
  }

  function Expired(s: Stream, now: int): set<uint64> { OlderThan(s.outstanding, now - MAX_AGE) }

  /** The step is the next one of its goroutine.  An echo that matches no outstanding probe is ignored. */
  predicate Enabled(s: Stream, e: Event) {
    match e
    case Drew(_) => s.writer.Free?
    case Sent(_) => s.writer.Drawn?
    case Took(id) => s.reader.Waiting? && id in s.outstanding
    case Recorded(_) => s.reader.Taken?
    case Reset => s.reader.Noted?
    case Swept(_) => s.writer.Free?
    case Counted => s.writer.Counting? && s.writer.left > 0
    case Added => s.writer.Counting? && s.writer.left == 0
    case Ticked(_, _) => s.writer.Free?
    case WriteFailed => s.writer.Free?
  }

  function AfterSwept(s: Stream, now: int): Stream {
    var gone := Expired(s, now);
    var lost := U32(|gone|);
    s.(outstanding := s.outstanding - gone, writer := if lost == 0 then Free else Counting(lost, lost))
  }

  function AfterAdded(s: Stream): Stream
    requires s.writer.Counting?
  {
    var cl := U32(s.consecutiveLoss + s.writer.lost);
    s.(consecutiveLoss := cl, dropRequested := s.dropRequested || cl >= LOSS_THRESHOLD, writer := Free)
  }

  /** One and a half times the baseline, as the code rounds it. */
  function Threshold(baseline: int): int { TruncDiv(3 * baseline, 2) }

  function AfterTick(s: Stream, now: int, p95: int): Stream {
    if now - s.start < BASELINE_WINDOW then s
    else if s.baseline == 0 then s.(baseline := p95)
    else if p95 > Threshold(s.baseline) then
      match s.degraded
      case None => s.(degraded := Some(now))
      case Some(since) => s.(dropRequested := s.dropRequested || now - since >= SUSTAIN_WINDOW)
    else s.(degraded := None)
  }

  function After(s: Stream, e: Event): Stream {
    if !Enabled(s, e) then s
    else match e
      case Drew(id) => s.(writer := Drawn(id))
      case Sent(now) => s.(outstanding := s.outstanding[s.writer.id := now], writer := Free)
      case Took(id) => s.(outstanding := s.outstanding - {id}, reader := Taken(s.outstanding[id]))
      case Recorded(_) => s.(reader := Noted)
      case Reset => s.(consecutiveLoss := 0, reader := Waiting)
      case Swept(now) => AfterSwept(s, now)
      case Counted => s.(writer := Counting(s.writer.lost, s.writer.left - 1))
      case Added => AfterAdded(s)
      case Ticked(now, p95) => AfterTick(s, now, p95)
      case WriteFailed => s.(dropRequested := true)
  }

  function Run(t0: int, h: seq<Event>): Stream {
    if h == [] then Fresh(t0) else After(Run(t0, h[..|h| - 1]), h[|h| - 1])
  }

  lemma RunStep(t0: int, h: seq<Event>, e: Event)
    ensures Run(t0, h + [e]) == After(Run(t0, h), e)
  {
    assert (h + [e])[..|h|] == h;
  }

  // ---- a whole call without interruption ----

  function SendCall(s: Stream, id: uint64, now: int): Stream { After(After(s, Drew(id)), Sent(now)) }

  function EchoCall(s: Stream, id: uint64, now: int): Stream {
    After(After(After(s, Took(id)), Recorded(now)), Reset)
  }

  function CountAll(s: Stream): Stream
    decreases if s.writer.Counting? then s.writer.left else 0
  {
    if Enabled(s, Counted) then CountAll(After(s, Counted)) else s
  }

  function SweepCall(s: Stream, now: int): Stream { After(CountAll(After(s, Swept(now))), Added) }

  lemma {:induction false} CountedAll(s: Stream)
    ensures CountAll(s) == if s.writer.Counting? then s.(writer := Counting(s.writer.lost, 0)) else s
    decreases if s.writer.Counting? then s.writer.left else 0
  {
    if Enabled(s, Counted) { CountedAll(After(s, Counted)); }
  }

  /** An echo handled without interruption removes its probe and clears the counter; one that matches nothing
      does nothing. */
  lemma WholeEcho(s: Stream, id: uint64, now: int)
    requires s.reader.Waiting?
    ensures EchoCall(s, id, now) ==
            if id in s.outstanding then s.(outstanding := s.outstanding - {id}, consecutiveLoss := 0) else s
  {
  }

  lemma UnmatchedEcho(s: Stream, id: uint64, now: int)
    requires s.reader.Waiting? && id !in s.outstanding
    ensures After(s, Took(id)) == EchoCall(s, id, now) == s
  {
  }

  /** A sweep without interruption removes the expired probes, adds them to the counter, and asks for a drop at
      five or more. */
  lemma WholeSweep(s: Stream, now: int)
    requires s.writer.Free?
    ensures var lost := U32(|Expired(s, now)|);
            var n := s.(outstanding := s.outstanding - Expired(s, now));
            var cl := U32(s.consecutiveLoss + lost);
            SweepCall(s, now) ==
              if lost == 0 then n
              else n.(consecutiveLoss := cl, dropRequested := s.dropRequested || cl >= LOSS_THRESHOLD)
  {
    hide Expired, CountAll;
    CountedAll(After(s, Swept(now)));
  }

  // ---- losses since the last echo ----

  /** The losses added to the counter after the last echo was recorded in full. */
  function LossSinceReset(t0: int, h: seq<Event>): nat {
    if h == [] then 0
    else
      var front, e := h[..|h| - 1], h[|h| - 1];
      var s := Run(t0, front);
      if !Enabled(s, e) then LossSinceReset(t0, front)
      else match e
        case Reset => 0
        case Added => LossSinceReset(t0, front) + s.writer.lost
        case _ => LossSinceReset(t0, front)
  }

  lemma Wrap(a: int, b: int)
    ensures U32(U32(a) + b) == U32(a + b)
  {
  }

  lemma OtherStepsKeepCount(s: Stream, e: Event)
    requires !e.Reset? && !e.Added?
    ensures After(s, e).consecutiveLoss == s.consecutiveLoss
  {
    hide Expired;
  }

  /** The counter of the code is the number of losses added since the last reset. */
  lemma {:induction false} CounterCounts(t0: int, h: seq<Event>)
    ensures Run(t0, h).consecutiveLoss == U32(LossSinceReset(t0, h))
  {
    if h != [] {
      var front, e := h[..|h| - 1], h[|h| - 1];
      CounterCounts(t0, front);
      if !e.Reset? && !e.Added? { OtherStepsKeepCount(Run(t0, front), e); }
      if e.Added? && Enabled(Run(t0, front), e) { Wrap(LossSinceReset(t0, front), Run(t0, front).writer.lost); }
    }
  }

  /** What is on the way to the counter was swept off the map: the sweep the writer is at. */
  lemma {:induction false} LossesWereSwept(t0: int, h: seq<Event>) returns (n: nat)
    requires Run(t0, h).writer.Counting?
    ensures n < |h| && h[n].Swept? && Enabled(Run(t0, h[..n]), h[n])
    ensures U32(|Expired(Run(t0, h[..n]), h[n].now)|) == Run(t0, h).writer.lost
  {
    var k := |h| - 1;
    var before := Run(t0, h[..k]);
    if h[k].Swept? && Enabled(before, h[k]) {
      n := k;
    } else {
      hide Expired;
      n := LossesWereSwept(t0, h[..k]);
      assert h[..k][..n] == h[..n];
    }
  }

  // ---- what the counter is meant to be ----

  /** Since the last echo was taken off the map: the losses swept; of these, the losses added before that echo
      reset the counter, which are wiped out; the losses swept before the echo but added after its reset, which
      are carried over.  `early`: the sweep under way began before the echo. */
  datatype Books = Books(swept: nat, wiped: nat, carried: nat, early: bool)

  function BooksOf(t0: int, h: seq<Event>): Books {
    if h == [] then Books(0, 0, 0, false)
    else
      var front, e := h[..|h| - 1], h[|h| - 1];
      var b, s := BooksOf(t0, front), Run(t0, front);
      if !Enabled(s, e) then b
      else match e
        case Took(_) => Books(0, 0, 0, s.writer.Counting?)
        case Swept(now) => b.(swept := b.swept + U32(|Expired(s, now)|), early := false)
        case Added =>
          if s.reader.Waiting? then if b.early then b.(carried := b.carried + s.writer.lost) else b
          else if b.early then b else b.(wiped := b.wiped + s.writer.lost)
        case _ => b
  }

  /** The losses of a sweep begun after the echo and not yet added. */
  function Young(s: Stream, b: Books): nat { if s.writer.Counting? && !b.early then s.writer.lost else 0 }

  /** Main result, for every interleaving of the two goroutines: between echoes, what the counter has seen, what
      an echo wiped out and what is on the way are the losses since the echo and those carried over. */
  lemma {:induction false} CounterAccount(t0: int, h: seq<Event>)
    ensures var s, b := Run(t0, h), BooksOf(t0, h);
            if s.reader.Waiting? then LossSinceReset(t0, h) + b.wiped + Young(s, b) == b.swept + b.carried
            else b.carried == 0 && b.wiped + Young(s, b) == b.swept
  {
    if h != [] {
      hide Expired, AfterTick;
      CounterAccount(t0, h[..|h| - 1]);
    }
  }

  /** So the counter is what its comment says, the probes expired since the last echo, if and only if as much was
      carried over as was wiped out: in particular when no echo and no sweep were under way together. */
  lemma CounterMeans(t0: int, h: seq<Event>)
    requires Run(t0, h).reader.Waiting? && Run(t0, h).writer.Free?
    ensures var b := BooksOf(t0, h);
            Run(t0, h).consecutiveLoss == U32(b.swept) <==> U32(b.carried - b.wiped) == 0
  {
    hide BooksOf, Run, LossSinceReset;
    CounterAccount(t0, h);
    CounterCounts(t0, h);
    var b := BooksOf(t0, h);
    assert LossSinceReset(t0, h) == b.swept + (b.carried - b.wiped);
    SameModulo(b.swept, b.carried - b.wiped);
  }

  lemma SameModulo(a: nat, d: int)
    ensures U32(a + d) == U32(a) <==> U32(d) == 0
  {
  }

  /** The two steps of an echo and of a sweep are never under way together. */
  ghost predicate Apart(t0: int, h: seq<Event>) {
    forall n :: 0 <= n <= |h| ==> Run(t0, h[..n]).reader.Waiting? || !Run(t0, h[..n]).writer.Counting?
  }

  lemma {:induction false} NothingCarried(t0: int, h: seq<Event>)
    requires Apart(t0, h)
    ensures BooksOf(t0, h).carried == BooksOf(t0, h).wiped == 0 && !BooksOf(t0, h).early
  {
    if h != [] {
      var k := |h| - 1;
      var front := h[..k];
      forall n | 0 <= n <= k ensures front[..n] == h[..n] {}
      assert front[..k] == front && h[..|h|] == h;
      NothingCarried(t0, front);
      hide Expired, AfterTick;
    }
  }

  /** A loss carried over: probes swept, then an echo handled in full, then the losses added. */
  lemma CarriedLoss(s: Stream, now: int, id: uint64, later: int)
    requires s.reader.Waiting? && s.writer.Free? && id in s.outstanding && id !in Expired(s, now)
    requires 0 < |Expired(s, now)| < TWO32
    ensures After(CountAll(EchoCall(After(s, Swept(now)), id, later)), Added).consecutiveLoss == |Expired(s, now)|
  {
    hide Expired, CountAll;
    CountedAll(EchoCall(After(s, Swept(now)), id, later));
  }

  // ---- the drift watcher ----

  datatype Tick = Tick(now: int, p95: int)

  /** The ticks that are past the learning window, in order. */
  function Ticks(t0: int, h: seq<Event>): seq<Tick> {
    if h == [] then []
    else
      var front, e := h[..|h| - 1], h[|h| - 1];
      if e.Ticked? && Enabled(Run(t0, front), e) && e.now - t0 >= BASELINE_WINDOW then
        Ticks(t0, front) + [Tick(e.now, e.p95)]
      else Ticks(t0, front)
  }

  /** The number of ticks up to and including the one that locked the baseline: the first whose
      reading was not zero.  All of them when none has. */
  function LockedAfter(ts: seq<Tick>): (n: nat)
    ensures n <= |ts|
  {
    if ts == [] then 0
    else
      var n := LockedAfter(ts[..|ts| - 1]);
      if n == |ts| - 1 && (n == 0 || ts[n - 1].p95 == 0) then |ts| else n
  }

  function Baseline(ts: seq<Tick>): int {
    var n := LockedAfter(ts);
    if n == 0 then 0 else ts[n - 1].p95
  }

  /** Ticks `i` up to the last all read above the threshold, after the baseline was locked. */
  ghost predicate HighSince(ts: seq<Tick>, i: nat) {
    && LockedAfter(ts) <= i < |ts| && Baseline(ts) != 0
    && forall j :: i <= j < |ts| ==> ts[j].p95 > Threshold(Baseline(ts))
  }

  /** The present degradation began at tick `i`: high since then, and not before. */
  ghost predicate BeganAt(ts: seq<Tick>, i: nat) {
    HighSince(ts, i) && !(i > 0 && HighSince(ts, i - 1))
  }

  lemma {:induction false} LockIsFirst(ts: seq<Tick>)
    ensures var n := LockedAfter(ts);
            && (forall j :: 0 <= j < n - 1 ==> ts[j].p95 == 0)
            && (n < |ts| ==> n > 0 && ts[n - 1].p95 != 0)
  {
    if ts != [] {
      var front := ts[..|ts| - 1];
      LockIsFirst(front);
      var m, n := LockedAfter(front), LockedAfter(ts);
      forall j | 0 <= j < n - 1 ensures ts[j].p95 == 0 {
        assert ts[j] == front[j];
      }
    }
  }

  lemma BaselineIs(ts: seq<Tick>)
    requires Baseline(ts) != 0
    ensures var n := LockedAfter(ts);
            0 < n <= |ts| && Baseline(ts) == ts[n - 1].p95 && forall j :: 0 <= j < n - 1 ==> ts[j].p95 == 0
  {
    hide LockedAfter;
    LockIsFirst(ts);
  }

  lemma BaselineKept(ts: seq<Tick>, t: Tick)
    requires Baseline(ts) != 0
    ensures Baseline(ts + [t]) == Baseline(ts) && LockedAfter(ts + [t]) == LockedAfter(ts)
  {
    assert (ts + [t])[..|ts|] == ts;
  }

  /** Main result: the baseline is locked once and never changes again, and it was the first
      reading that was not zero. */
  lemma BaselineLockedOnce(ts: seq<Tick>, t: Tick)
    requires Baseline(ts) != 0
    ensures Baseline(ts + [t]) == Baseline(ts) && LockedAfter(ts + [t]) == LockedAfter(ts)
    ensures var n := LockedAfter(ts);
            0 < n <= |ts| && Baseline(ts) == ts[n - 1].p95 && forall j :: 0 <= j < n - 1 ==> ts[j].p95 == 0
  {
    hide Baseline, LockedAfter;
    BaselineIs(ts);
    BaselineKept(ts, t);
  }

  lemma HighSinceStep(ts: seq<Tick>, t: Tick, i: nat)
    requires Baseline(ts) != 0
    ensures HighSince(ts + [t], i) <==>
              LockedAfter(ts) <= i && t.p95 > Threshold(Baseline(ts)) && (i == |ts| || HighSince(ts, i))
  {
    BaselineLockedOnce(ts, t);
    var us := ts + [t];
    if HighSince(us, i) && i < |ts| {
      forall j | i <= j < |ts| ensures ts[j].p95 > Threshold(Baseline(ts)) { assert us[j] == ts[j]; }
      assert us[|ts|] == t;
    }
    if HighSince(us, i) { assert us[|ts|] == t; }
  }

  /** What the code's two fields mean. */
  ghost predicate WatcherOk(s: Stream, ts: seq<Tick>) {
    && s.baseline == Baseline(ts)
    && match s.degraded
       case None => forall i: nat :: !HighSince(ts, i)
       case Some(since) => exists i: nat :: BeganAt(ts, i) && ts[i].now == since
  }

  lemma NoBaselineNoDrift(ts: seq<Tick>)
    requires Baseline(ts) == 0
    ensures LockedAfter(ts) == |ts| && forall i: nat :: !HighSince(ts, i)
  {
    LockIsFirst(ts);
  }

  lemma WatcherLearns(s: Stream, ts: seq<Tick>, t: Tick)
    requires WatcherOk(s, ts) && s.baseline == 0 && t.now - s.start >= BASELINE_WINDOW
    ensures WatcherOk(AfterTick(s, t.now, t.p95), ts + [t])
    ensures forall i: nat :: !HighSince(ts + [t], i)
    ensures AfterTick(s, t.now, t.p95).dropRequested == s.dropRequested
  {
    NoBaselineNoDrift(ts);
    assert (ts + [t])[..|ts|] == ts;
    assert LockedAfter(ts + [t]) == |ts| + 1;
  }

  lemma BeganStep(ts: seq<Tick>, t: Tick, i: nat)
    requires Baseline(ts) != 0 && t.p95 > Threshold(Baseline(ts))
    ensures BeganAt(ts, i) ==> BeganAt(ts + [t], i) && i < |ts|
    ensures BeganAt(ts + [t], i) ==> if i < |ts| then BeganAt(ts, i) else i == |ts|
  {
    HighSinceStep(ts, t, i);
    if i > 0 { HighSinceStep(ts, t, i - 1); }
  }

  /** Only one tick began the present degradation. */
  lemma BeganLeast(ts: seq<Tick>, i: nat, j: nat)
    requires HighSince(ts, i) && i < j
    ensures !BeganAt(ts, j)
  {
    if HighSince(ts, j) { assert HighSince(ts, j - 1); }
  }

  /** The last tick continues a degradation of thirty seconds or more. */
  ghost predicate Sustained(ts: seq<Tick>) {
    exists i: nat :: BeganAt(ts, i) && i < |ts| - 1 && ts[|ts| - 1].now - ts[i].now >= SUSTAIN_WINDOW
  }

  lemma WatcherStarts(s: Stream, ts: seq<Tick>, t: Tick)
    requires WatcherOk(s, ts) && s.baseline != 0 && s.degraded == None && t.p95 > Threshold(s.baseline)
    ensures BeganAt(ts + [t], |ts|) && !Sustained(ts + [t])
  {
    var us, n := ts + [t], |ts|;
    HighSinceStep(ts, t, n);
    if n > 0 { HighSinceStep(ts, t, n - 1); }
    forall i: nat | i < n ensures !BeganAt(us, i) { BeganStep(ts, t, i); }
  }

  lemma WatcherContinues(s: Stream, ts: seq<Tick>, t: Tick)
    requires WatcherOk(s, ts) && s.baseline != 0 && s.degraded.Some? && t.p95 > Threshold(s.baseline)
    ensures exists i: nat :: BeganAt(ts + [t], i) && i < |ts| && (ts + [t])[i].now == s.degraded.value
    ensures Sustained(ts + [t]) <==> t.now - s.degraded.value >= SUSTAIN_WINDOW
  {
    var us := ts + [t];
    var i: nat :| BeganAt(ts, i) && ts[i].now == s.degraded.value;
    BeganStep(ts, t, i);
    assert us[i] == ts[i];
    if Sustained(us) {
      var j: nat :| BeganAt(us, j) && j < |us| - 1 && us[|us| - 1].now - us[j].now >= SUSTAIN_WINDOW;
      if i < j { BeganLeast(us, i, j); } else if j < i { BeganLeast(us, j, i); }
    }
  }

  lemma WatcherRecovers(ts: seq<Tick>, t: Tick)
    requires Baseline(ts) != 0 && t.p95 <= Threshold(Baseline(ts))
    ensures forall i: nat :: !HighSince(ts + [t], i)
  {
    forall i: nat ensures !HighSince(ts + [t], i) { HighSinceStep(ts, t, i); }
  }

  /** One tick past the learning window: the fields keep their meaning, and the tick asks for a drop
      exactly when it continues a degradation of thirty seconds. */
  lemma TickCorrect(s: Stream, ts: seq<Tick>, t: Tick)
    requires WatcherOk(s, ts) && t.now - s.start >= BASELINE_WINDOW
    ensures WatcherOk(AfterTick(s, t.now, t.p95), ts + [t])
    ensures AfterTick(s, t.now, t.p95).dropRequested <==> s.dropRequested || Sustained(ts + [t])
  {
    hide HighSince, BeganAt, Baseline, Threshold;
    if s.baseline == 0 {
      WatcherLearns(s, ts, t);
      NoneSustained(ts + [t]);
    } else {
      BaselineLockedOnce(ts, t);
      if t.p95 <= Threshold(s.baseline) {
        WatcherRecovers(ts, t);
        NoneSustained(ts + [t]);
      } else if s.degraded.None? {
        WatcherStarts(s, ts, t);
      } else {
        WatcherContinues(s, ts, t);
      }
    }
  }

  lemma NoneSustained(ts: seq<Tick>)
    requires forall i: nat :: !HighSince(ts, i)
    ensures !Sustained(ts)
  {
  }

  // ---- when a drop is requested ----

  /** The last step of `h` is what asks for the drop. */
  ghost predicate Trips(t0: int, h: seq<Event>) {
    h != [] && Enabled(Run(t0, h[..|h| - 1]), h[|h| - 1]) &&
    match h[|h| - 1]
    case Added => U32(LossSinceReset(t0, h)) >= LOSS_THRESHOLD
    case Ticked(now, _) => now - t0 >= BASELINE_WINDOW && Sustained(Ticks(t0, h))
    case WriteFailed => true
    case _ => false
  }

  lemma {:induction false} StartKept(t0: int, h: seq<Event>)
    ensures Run(t0, h).start == t0
  {
    if h != [] { StartKept(t0, h[..|h| - 1]); }
  }

  lemma EventKeepsWatcher(s: Stream, e: Event)
    ensures !e.Ticked? || !Enabled(s, e) ==> After(s, e).baseline == s.baseline && After(s, e).degraded == s.degraded
    ensures !e.Ticked? && !e.Added? && !e.WriteFailed? ==> After(s, e).dropRequested == s.dropRequested
  {
    hide Expired;
  }

  lemma {:induction false} WatcherCorrect(t0: int, h: seq<Event>)
    ensures WatcherOk(Run(t0, h), Ticks(t0, h))
    ensures h != [] ==> (Run(t0, h).dropRequested <==> Run(t0, h[..|h| - 1]).dropRequested || Trips(t0, h))
  {
    hide WatcherOk, HighSince, Sustained, Expired, LossSinceReset;
    if h == [] {
      WatcherFresh(t0);
    } else {
      var front, e := h[..|h| - 1], h[|h| - 1];
      WatcherCorrect(t0, front);
      StartKept(t0, front);
      CounterCounts(t0, h);
      EventKeepsWatcher(Run(t0, front), e);
      if e.Ticked? && Enabled(Run(t0, front), e) && e.now - t0 >= BASELINE_WINDOW {
        TickCorrect(Run(t0, front), Ticks(t0, front), Tick(e.now, e.p95));
      } else {
        WatcherSame(Run(t0, front), Run(t0, h), Ticks(t0, front));
      }
    }
  }

  lemma WatcherFresh(t0: int)
    ensures WatcherOk(Fresh(t0), [])
  {
  }

  lemma WatcherSame(s: Stream, s': Stream, ts: seq<Tick>)
    requires s'.baseline == s.baseline && s'.degraded == s.degraded && WatcherOk(s, ts)
    ensures WatcherOk(s', ts)
  {
  }

  /** Main result: a stream is asked to drop if and only if at some moment of its history a write
      failed, losses were added to make five or more since the counter was last reset, or a tick continued
      thirty seconds above one and a half times the baseline.  The request never clears. */
  lemma {:induction false} DropExactly(t0: int, h: seq<Event>)
    ensures Run(t0, h).dropRequested <==> exists n :: 0 < n <= |h| && Trips(t0, h[..n])
  {
    hide Trips, After;
    if h != [] {
      var front := h[..|h| - 1];
      DropExactly(t0, front);
      WatcherCorrect(t0, h);
      assert h[..|h|] == h;
      if Run(t0, front).dropRequested {
        var n :| 0 < n <= |front| && Trips(t0, front[..n]);
        assert front[..n] == h[..n];
      }
      if exists n :: 0 < n <= |h| && Trips(t0, h[..n]) {
        var n :| 0 < n <= |h| && Trips(t0, h[..n]);
        if n < |h| { assert h[..n] == front[..n]; }
      }
    }
  }

  lemma WrapLess(x: nat)
    ensures U32(x) <= x
  {
  }

  /** More than one and a half times the baseline. */
  predicate HalfAbove(p95: int, baseline: int) { baseline >= 0 ==> 2 * p95 > 3 * baseline }

  /** Since tick `i` thirty seconds of readings, all above the threshold of a baseline locked before them, which
      was not zero and was the first such reading. */
  ghost predicate DegradedSince(ts: seq<Tick>, i: int) {
    && LockedAfter(ts) <= i < |ts| - 1 && Baseline(ts) != 0
    && ts[|ts| - 1].now - ts[i].now >= 30_000_000_000
    && (forall j :: i <= j < |ts| ==> HalfAbove(ts[j].p95, Baseline(ts)))
    && (forall j :: 0 <= j < LockedAfter(ts) - 1 ==> ts[j].p95 == 0)
  }

  lemma SustainedMeans(ts: seq<Tick>)
    requires Sustained(ts)
    ensures exists i :: DegradedSince(ts, i)
  {
    LockIsFirst(ts);
    forall p95 | p95 > Threshold(Baseline(ts)) ensures HalfAbove(p95, Baseline(ts)) {}
    hide Threshold, Baseline, LockedAfter, HalfAbove;
    var i: nat :| BeganAt(ts, i) && i < |ts| - 1 && ts[|ts| - 1].now - ts[i].now >= SUSTAIN_WINDOW;
    assert HighSince(ts, i);
    assert DegradedSince(ts, i);
  }

  /** Main result: no stream is dropped without cause.  Behind a sweep's request stand at least five
      expired probes, counted since the last echo was recorded in full; behind the drift watcher's stand thirty
      seconds of readings above the threshold, all of them, like the baseline, after the first sixty seconds. */
  lemma TripJustified(t0: int, h: seq<Event>)
    requires Trips(t0, h)
    ensures h[|h| - 1].Added? ==> LossSinceReset(t0, h) >= 5
    ensures h[|h| - 1].Ticked? ==> exists i :: DegradedSince(Ticks(t0, h), i)
    ensures forall k :: 0 <= k < |Ticks(t0, h)| ==> Ticks(t0, h)[k].now - t0 >= 60_000_000_000
  {
    hide Run, Ticks, LossSinceReset, Expired, Sustained, DegradedSince, Enabled;
    TicksLate(t0, h);
    if h[|h| - 1].Added? {
      assert U32(LossSinceReset(t0, h)) >= LOSS_THRESHOLD;
      WrapLess(LossSinceReset(t0, h));
    }
    if h[|h| - 1].Ticked? { SustainedMeans(Ticks(t0, h)); }
  }

  lemma {:induction false} TicksLate(t0: int, h: seq<Event>)
    ensures forall k :: 0 <= k < |Ticks(t0, h)| ==> Ticks(t0, h)[k].now - t0 >= 60_000_000_000
  {
    if h != [] { TicksLate(t0, h[..|h| - 1]); }
  }

  // ---- which probes are lost ----

  /** Step `i` of the history put probe `id` on the map. */
  ghost predicate Sends(t0: int, h: seq<Event>, i: int, id: uint64) {
    0 <= i < |h| && h[i].Sent? && Run(t0, h[..i]).writer == Drawn(id)
  }

  /** Since step `i` the probe has been on the map, up to step `n`, and was not sent again. */
  ghost predicate Waits(t0: int, h: seq<Event>, i: int, n: int, id: uint64) {
    && 0 <= i < n <= |h|
    && (forall j :: i < j <= n ==> id in Run(t0, h[..j]).outstanding)
    && (forall j :: i < j < n ==> !Sends(t0, h, j, id))
  }

  /** Step `n` is a sweep that the writer makes. */
  ghost predicate Sweeps(t0: int, h: seq<Event>, n: int) {
    0 <= n < |h| && h[n].Swept? && Run(t0, h[..n]).writer.Free?
  }

  /** A probe on the map was sent at the time the map gives, and has waited since. */
  lemma {:induction false} OutstandingWasSent(t0: int, h: seq<Event>, id: uint64) returns (i: nat)
    requires id in Run(t0, h).outstanding
    ensures Sends(t0, h, i, id) && Waits(t0, h, i, |h|, id) && Run(t0, h).outstanding[id] == h[i].now
  {
    var k := |h| - 1;
    var front := h[..k];
    assert h[..|h|] == h;
    if Sends(t0, h, k, id) {
      i := k;
    } else {
      StayedOn(Run(t0, front), h[k], id);
      hide After;
      i := OutstandingWasSent(t0, front, id);
      assert front[..i] == h[..i] && front[i] == h[i];
      forall j | i < j <= |h| ensures id in Run(t0, h[..j]).outstanding {
        if j <= k { assert front[..j] == h[..j]; }
      }
      forall j | i < j < |h| ensures !Sends(t0, h, j, id) {
        if j < k { assert front[..j] == h[..j] && front[j] == h[j] && !Sends(t0, front, j, id); }
      }
    }
  }

  /** A step that does not send the probe cannot put it on the map, nor change its time. */
  lemma StayedOn(s: Stream, e: Event, id: uint64)
    requires id in After(s, e).outstanding && !(e.Sent? && s.writer == Drawn(id))
    ensures id in s.outstanding && After(s, e).outstanding[id] == s.outstanding[id]
  {
    hide Threshold;
  }

  /** The time a probe has on the map is when it was sent, as long as it waits. */
  lemma {:induction false} WaitsSince(t0: int, h: seq<Event>, i: nat, n: nat, id: uint64)
    requires Sends(t0, h, i, id) && Waits(t0, h, i, n, id)
    ensures Run(t0, h[..n]).outstanding[id] == h[i].now
    decreases n
  {
    assert h[..n][..n - 1] == h[..n - 1] && h[..n][n - 1] == h[n - 1];
    if n - 1 == i {
    } else {
      assert Waits(t0, h, i, n - 1, id);
      WaitsSince(t0, h, i, n - 1, id);
      assert !Sends(t0, h, n - 1, id);
      StayedOn(Run(t0, h[..n - 1]), h[n - 1], id);
    }
  }

  /** What the reader has in hand is the time its probe was sent. */
  lemma {:induction false} TakenWasSent(t0: int, h: seq<Event>) returns (i: nat, id: uint64)
    requires Run(t0, h).reader.Taken?
    ensures Sends(t0, h, i, id) && Run(t0, h).reader.sentAt == h[i].now
  {
    var k := |h| - 1;
    var front := h[..k];
    var s := Run(t0, front);
    if h[k].Took? && Enabled(s, h[k]) {
      id := h[k].id;
      i := OutstandingWasSent(t0, front, id);
    } else {
      TakenStays(s, h[k]);
      hide After;
      i, id := TakenWasSent(t0, front);
    }
    assert front[..i] == h[..i] && front[i] == h[i];
  }

  lemma TakenStays(s: Stream, e: Event)
    requires After(s, e).reader.Taken? && !(e.Took? && Enabled(s, e))
    ensures s.reader == After(s, e).reader
  {
    hide Expired, Threshold;
  }

  /** Main result, on every history: a probe sent at one time leaves the map by a sweep at another exactly when it
      still waits then and more than five seconds lie between. */
  lemma SweptExactly(t0: int, h: seq<Event>, i: nat, n: nat, id: uint64)
    requires Sends(t0, h, i, id) && Sweeps(t0, h, n) && Waits(t0, h, i, n, id)
    ensures id !in Run(t0, h[..n + 1]).outstanding <==> h[n].now - h[i].now > 5_000_000_000
  {
    WaitsSince(t0, h, i, n, id);
    assert h[..n + 1][..n] == h[..n] && h[..n + 1][n] == h[n];
  }

  /** The probe of step `i` is lost to the sweep of step `n`: it waited until then, for more than five seconds. */
  ghost predicate LostTo(t0: int, h: seq<Event>, i: int, n: int) {
    exists id :: Sends(t0, h, i, id) && Sweeps(t0, h, n) && Waits(t0, h, i, n, id) && h[n].now - h[i].now > 5_000_000_000
  }

  ghost function LostAt(t0: int, h: seq<Event>, n: nat): set<int> { set i: int | 0 <= i < n && LostTo(t0, h, i, n) }

  /** A sweep takes exactly those: as many as it counts. */
  lemma SweepTakes(t0: int, h: seq<Event>, n: nat)
    requires Sweeps(t0, h, n)
    ensures |LostAt(t0, h, n)| == |Expired(Run(t0, h[..n]), h[n].now)|
  {
    var s := Run(t0, h[..n]);
    var gone := Expired(s, h[n].now);
    forall i | i in LostAt(t0, h, n) ensures IdAt(t0, h, i).Some? && IdAt(t0, h, i).value in gone {
      var id :| Sends(t0, h, i, id) && Sweeps(t0, h, n) && Waits(t0, h, i, n, id) && h[n].now - h[i].now > 5_000_000_000;
      WaitsSince(t0, h, i, n, id);
    }
    forall id | id in gone ensures exists i :: i in LostAt(t0, h, n) && IdAt(t0, h, i) == Some(id) {
      var i := LostSend(t0, h, n, id);
    }
    forall i, j | i in LostAt(t0, h, n) && j in LostAt(t0, h, n) && IdAt(t0, h, i) == IdAt(t0, h, j) ensures i == j {
      SentOnce(t0, h, n, i, j);
    }
    hide Expired, LostAt, IdAt;
    SameSize(LostAt(t0, h, n), gone, i => IdAt(t0, h, i));
  }

  ghost function IdAt(t0: int, h: seq<Event>, i: int): Option<uint64> {
    if 0 <= i < |h| && Run(t0, h[..i]).writer.Drawn? then Some(Run(t0, h[..i]).writer.id) else None
  }

  lemma LostSend(t0: int, h: seq<Event>, n: nat, id: uint64) returns (i: nat)
    requires Sweeps(t0, h, n) && id in Expired(Run(t0, h[..n]), h[n].now)
    ensures i in LostAt(t0, h, n) && IdAt(t0, h, i) == Some(id)
  {
    var f := h[..n];
    i := OutstandingWasSent(t0, f, id);
    hide Run;
    assert f[..i] == h[..i] && f[i] == h[i];
    assert Sends(t0, h, i, id);
    forall j | i < j <= n ensures id in Run(t0, h[..j]).outstanding { assert f[..j] == h[..j]; }
    forall j | i < j < n ensures !Sends(t0, h, j, id) {
      assert f[..j] == h[..j] && f[j] == h[j] && !Sends(t0, f, j, id);
    }
    assert Waits(t0, h, i, n, id);
  }

  lemma SentOnce(t0: int, h: seq<Event>, n: nat, i: int, j: int)
    requires LostTo(t0, h, i, n) && LostTo(t0, h, j, n) && IdAt(t0, h, i) == IdAt(t0, h, j)
    ensures i == j
  {
    hide Run;
    var a :| Sends(t0, h, i, a) && Sweeps(t0, h, n) && Waits(t0, h, i, n, a) && h[n].now - h[i].now > 5_000_000_000;
    var b :| Sends(t0, h, j, b) && Sweeps(t0, h, n) && Waits(t0, h, j, n, b) && h[n].now - h[j].now > 5_000_000_000;
    assert a == b;
    assert i < j ==> !Sends(t0, h, j, a);
    assert j < i ==> !Sends(t0, h, i, b);
  }

  /** Sets paired off with one another are of one size. */
  lemma {:induction false} SameSize(A: set<int>, B: set<uint64>, f: int -> Option<uint64>)
    requires forall i :: i in A ==> f(i).Some? && f(i).value in B
    requires forall b :: b in B ==> exists i :: i in A && f(i) == Some(b)
    requires forall i, j :: i in A && j in A && f(i) == f(j) ==> i == j
    ensures |A| == |B|
    decreases |A|
  {
    if B == {} {
      forall i ensures i !in A { assert i in A ==> f(i).Some?; }
    } else {
      var b :| b in B;
      var i :| i in A && f(i) == Some(b);
      forall c | c in B - {b} ensures exists j :: j in A - {i} && f(j) == Some(c) {
        var j :| j in A && f(j) == Some(c);
      }
      SameSize(A - {i}, B - {b}, f);
    }
  }

  /** Of two sweeps none loses the other's probes. */
  lemma LostOnce(t0: int, h: seq<Event>, i: int, m: int, n: int)
    requires LostTo(t0, h, i, m) && LostTo(t0, h, i, n)
    ensures m == n
  {
    var a :| Sends(t0, h, i, a) && Sweeps(t0, h, m) && Waits(t0, h, i, m, a) && h[m].now - h[i].now > 5_000_000_000;
    var b :| Sends(t0, h, i, b) && Sweeps(t0, h, n) && Waits(t0, h, i, n, b) && h[n].now - h[i].now > 5_000_000_000;
    assert a == b;
    hide Run, Sends;
    if m < n {
      StillOn(t0, h, i, m, n, a);
      SweptExactly(t0, h, i, m, a);
    }
    if n < m {
      StillOn(t0, h, i, n, m, a);
      SweptExactly(t0, h, i, n, a);
    }
  }

  lemma StillOn(t0: int, h: seq<Event>, i: int, m: int, n: int, id: uint64)
    requires Waits(t0, h, i, n, id) && i < m < n
    ensures id in Run(t0, h[..m + 1]).outstanding
  {
  }

  /** The probes of `lost` went in sweeps before step `n`. */
  ghost predicate AllLost(t0: int, h: seq<Event>, lost: set<int>, n: nat) {
    forall i :: i in lost ==> exists m :: m < n && LostTo(t0, h, i, m)
  }

  lemma LostExtends(t0: int, h: seq<Event>, k: nat, i: int, m: int)
    requires k <= |h| && LostTo(t0, h[..k], i, m)
    ensures LostTo(t0, h, i, m) && m < k
  {
    var f := h[..k];
    var id :| Sends(t0, f, i, id) && Sweeps(t0, f, m) && Waits(t0, f, i, m, id) && f[m].now - f[i].now > 5_000_000_000;
    hide Run;
    assert f[..i] == h[..i] && f[..m] == h[..m];
    forall j | i < j <= m ensures id in Run(t0, h[..j]).outstanding { assert f[..j] == h[..j]; }
    forall j | i < j < m ensures !Sends(t0, h, j, id) {
      assert f[..j] == h[..j] && f[j] == h[j] && !Sends(t0, f, j, id);
    }
    assert Waits(t0, h, i, m, id);
  }

  /** Behind the counter stand that many different probes, each lost to a sweep before the one under way. */
  lemma {:induction false} LossesAreProbes(t0: int, h: seq<Event>) returns (lost: set<int>)
    ensures |lost| >= LossSinceReset(t0, h)
    ensures AllLost(t0, h, lost, if Run(t0, h).writer.Counting? then SweepUnderWay(t0, h) else |h|)
  {
    hide Expired, LostTo, Enabled, Run, AllLost, LossSinceReset, SweepUnderWay;
    if h == [] {
      NothingLostYet(t0);
      return {};
    }
    var k := |h| - 1;
    var front, e := h[..k], h[k];
    var s := Run(t0, front);
    lost := LossesAreProbes(t0, front);
    var limit := if s.writer.Counting? then SweepUnderWay(t0, front) else k;
    LostStays(t0, h, lost, limit);
    StepUnderWay(t0, h);
    CountStep(t0, h);
    if Enabled(s, e) && e.Reset? {
      lost := {};
      NoneLost(t0, h);
    } else if Enabled(s, e) && e.Added? {
      var n := SweepUnderWay(t0, front);
      AddedUnderWay(t0, h);
      SweepTakes(t0, h, n);
      NewLosses(t0, h, lost, n);
      lost := lost + LostAt(t0, h, n);
    } else {
      StillLost(t0, h, lost, limit, if Run(t0, h).writer.Counting? then SweepUnderWay(t0, h) else |h|);
    }
  }

  lemma NothingLostYet(t0: int)
    ensures LossSinceReset(t0, []) == 0 && forall n: nat :: AllLost(t0, [], {}, n)
  {
  }

  lemma CountStep(t0: int, h: seq<Event>)
    requires h != []
    ensures var front, e := h[..|h| - 1], h[|h| - 1];
            var s := Run(t0, front);
            && LossSinceReset(t0, h) ==
                 (if Enabled(s, e) && e.Reset? then 0
                  else if Enabled(s, e) && e.Added? then LossSinceReset(t0, front) + s.writer.lost
                  else LossSinceReset(t0, front))
            && (Enabled(s, e) && e.Added? ==> !Run(t0, h).writer.Counting? && s.writer.Counting?)
            && (Enabled(s, e) && e.Reset? ==> Run(t0, h).writer == s.writer)
            && (s.writer.Counting? && !(Enabled(s, e) && e.Added?) ==> Run(t0, h).writer.Counting?)
  {
    hide Expired, AfterTick;
  }

  lemma NoneLost(t0: int, h: seq<Event>)
    ensures forall n: nat :: AllLost(t0, h, {}, n)
  {
  }

  lemma StillLost(t0: int, h: seq<Event>, lost: set<int>, m: nat, n: nat)
    requires AllLost(t0, h, lost, m) && m <= n
    ensures AllLost(t0, h, lost, n)
  {
    hide LostTo;
  }

  lemma LostStays(t0: int, h: seq<Event>, lost: set<int>, n: nat)
    requires h != [] && AllLost(t0, h[..|h| - 1], lost, n)
    ensures AllLost(t0, h, lost, n)
  {
    hide LostTo;
    forall i | i in lost ensures exists m :: m < n && LostTo(t0, h, i, m) {
      var m :| m < n && LostTo(t0, h[..|h| - 1], i, m);
      LostExtends(t0, h, |h| - 1, i, m);
    }
  }

  lemma AddedUnderWay(t0: int, h: seq<Event>)
    requires h != [] && Run(t0, h[..|h| - 1]).writer.Counting?
    ensures var n := SweepUnderWay(t0, h[..|h| - 1]);
            && Sweeps(t0, h, n)
            && Run(t0, h[..|h| - 1]).writer.lost == U32(|Expired(Run(t0, h[..n]), h[n].now)|)
  {
    var front := h[..|h| - 1];
    UnderWay(t0, front);
    var n := SweepUnderWay(t0, front);
    hide Run;
    assert front[..n] == h[..n] && front[n] == h[n];
  }

  lemma NewLosses(t0: int, h: seq<Event>, lost: set<int>, n: nat)
    requires Sweeps(t0, h, n) && AllLost(t0, h, lost, n)
    ensures |lost + LostAt(t0, h, n)| == |lost| + |LostAt(t0, h, n)|
    ensures AllLost(t0, h, lost + LostAt(t0, h, n), |h|)
  {
    hide LostTo;
    forall i | i in lost ensures i !in LostAt(t0, h, n) {
      var m :| m < n && LostTo(t0, h, i, m);
      if LostTo(t0, h, i, n) { LostOnce(t0, h, i, m, n); }
    }
    assert lost !! LostAt(t0, h, n);
  }

  /** Where the last sweep of the history stands. */
  ghost function SweepUnderWay(t0: int, h: seq<Event>): nat {
    if h == [] then 0
    else
      var k := |h| - 1;
      if Sweeps(t0, h, k) then k else SweepUnderWay(t0, h[..k])
  }

  lemma {:induction false} UnderWay(t0: int, h: seq<Event>)
    requires Run(t0, h).writer.Counting?
    ensures Sweeps(t0, h, SweepUnderWay(t0, h))
    ensures var n := SweepUnderWay(t0, h); Run(t0, h).writer.lost == U32(|Expired(Run(t0, h[..n]), h[n].now)|)
  {
    var k := |h| - 1;
    if !Sweeps(t0, h, k) {
      OnlySweepsCount(Run(t0, h[..k]), h[k]);
      UnderWay(t0, h[..k]);
      var n := SweepUnderWay(t0, h[..k]);
      assert h[..k][..n] == h[..n];
    }
  }

  lemma OnlySweepsCount(s: Stream, e: Event)
    requires After(s, e).writer.Counting? && !(e.Swept? && s.writer.Free?)
    ensures s.writer.Counting? && s.writer.lost == After(s, e).writer.lost
  {
    hide Expired, Threshold;
  }

  lemma StepUnderWay(t0: int, h: seq<Event>)
    requires h != []
    ensures var k := |h| - 1;
            Run(t0, h).writer.Counting? ==>
              if Run(t0, h[..k]).writer.Counting? then SweepUnderWay(t0, h) == SweepUnderWay(t0, h[..k])
              else SweepUnderWay(t0, h) == k
  {
    var k := |h| - 1;
    if Run(t0, h).writer.Counting? && !Sweeps(t0, h, k) { OnlySweepsCount(Run(t0, h[..k]), h[k]); }
  }

  /** Five or more different probes of the history, each lost to some sweep. */
  ghost predicate FiveLost(t0: int, h: seq<Event>, lost: set<int>) {
    |lost| >= 5 && forall i :: i in lost ==> exists n :: LostTo(t0, h, i, n)
  }

  /** Main result: where a sweep's losses ask for a drop, five or more different probes each waited more than
      five seconds for an echo and were swept. */
  lemma AddedMeans(t0: int, h: seq<Event>) returns (lost: set<int>)
    requires Trips(t0, h) && h[|h| - 1].Added?
    ensures FiveLost(t0, h, lost)
  {
    TripJustified(t0, h);
    hide Run, LossSinceReset, LostTo;
    lost := LossesAreProbes(t0, h);
  }

  /** For a baseline that is a duration the threshold is exactly one and a half times it. */
  lemma ThresholdExact(baseline: int, p95: int)
    requires baseline >= 0
    ensures p95 > Threshold(baseline) <==> 2 * p95 > 3 * baseline
  {
  }
}
