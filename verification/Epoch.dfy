/** The coordinator's control loop (epoch/driver.go): each tick settles the window from the cursor to now,
    and the cursor moves only when that succeeded.

    `Step` is one event in the life of the loop: a receipt stored or removed, or a tick, at any clock
    reading, with any outcome.  Runs are lists of events; the main results hold for every run.
 */
module Epoch {
  import opened Bytes
  import opened Results
  import opened Merkle
  import opened Receipts
  import opened ReceiptStore
  import opened Settlement
  import opened Settler

  // ---- runs ----

  /** What became of the attempt of a tick that had something to settle.  `GaveUp(true)` is the transaction
      that was sent, not seen in time, and mined all the same. */
  datatype Fate = Mined | GaveUp(landed: bool)

  datatype Event = Put(r: Receipt) | Remove(n: Natural) | Tick(now: int64, fate: Fate)

  datatype Entry = Entry(since: int64, until: int64, paid: Table)

  /** `log`: the settlements the driver knows succeeded.  `chain`: those the pool received. */
  datatype Epochs = Epochs(table: Table, cursor: int64, log: seq<Entry>, chain: seq<Table>)

  function Window(table: Table, since: int64, until: int64): Table {
    map n | n in table && InWindow(n.timestamp, since, until) :: table[n]
  }

  function Step(s: Epochs, e: Event): Epochs {
    match e
    case Put(r) => s.(table := s.table[NaturalOf(r) := r])
    case Remove(n) => s.(table := s.table - {n})
    case Tick(now, fate) =>
      var w := Window(s.table, s.cursor, now);
      if w == map[] then s
      else match fate
        case Mined => s.(cursor := now, log := s.log + [Entry(s.cursor, now, w)], chain := s.chain + [w])
        case GaveUp(landed) => if landed then s.(chain := s.chain + [w]) else s
  }

  /** A tick in plain terms, its window being `w`: only a success with something to settle moves the cursor and is
      logged, the pool receives the window of a success or of a late landing, and the receipts stay. */
  lemma TickPlainly(s: Epochs, now: int64, fate: Fate, w: Table)
    requires forall n :: n in w <==>
               n in s.table && (s.cursor <= 0 || s.cursor <= n.timestamp) && (now <= 0 || n.timestamp < now)
    requires forall n :: n in w ==> w[n] == s.table[n]
    ensures var t := Step(s, Tick(now, fate));
            && t.table == s.table
            && (w == map[] || !fate.Mined? ==> t.cursor == s.cursor && t.log == s.log)
            && (w != map[] && fate.Mined? ==> t.cursor == now && t.log == s.log + [Entry(s.cursor, now, w)])
            && t.chain == if w != map[] && fate != GaveUp(false) then s.chain + [w] else s.chain
  {
    assert w == Window(s.table, s.cursor, now);
  }

  function Start(since: int64): Epochs { Epochs(map[], since, [], []) }

  function Run(s: Epochs, es: seq<Event>): Epochs {
    if es == [] then s else Step(Run(s, es[..|es| - 1]), es[|es| - 1])
  }

  /** Every tick that succeeds reads a clock after 1970; readings may jump back and forth, and those of
      other ticks do not matter. */
  predicate ClockPositive(es: seq<Event>) {
    forall i :: 0 <= i < |es| ==> PositiveIfMined(es[i])
  }

  predicate PositiveIfMined(e: Event) { e.Tick? && e.fate.Mined? ==> e.now > 0 }

  /** Receipt `n` was last stored by event `k`, and not removed since. */
  ghost predicate LastStored(es: seq<Event>, k: int, n: Natural) {
    && 0 <= k < |es| && es[k].Put? && NaturalOf(es[k].r) == n
    && forall j :: k < j < |es| ==> es[j] != Remove(n) && !(es[j].Put? && NaturalOf(es[j].r) == n)
  }

  /** What is stored after a run: each receipt as it was last put, unless it was removed since. */
  lemma {:induction false} StoredExactly(since: int64, es: seq<Event>, n: Natural)
    ensures var table := Run(Start(since), es).table;
            && (n in table ==> exists k :: LastStored(es, k, n) && table[n] == es[k].r)
            && (forall k :: LastStored(es, k, n) ==> n in table && table[n] == es[k].r)
  {
    hide LastStored;
    if es == [] {
      forall k ensures !LastStored(es, k, n) { NothingStored(k, n); }
    } else {
      var last := |es| - 1;
      var front, e := es[..last], es[last];
      StoredExactly(since, front, n);
      forall k
        ensures LastStored(es, k, n) <==>
                  if k == last then e.Put? && NaturalOf(e.r) == n
                  else LastStored(front, k, n) && e != Remove(n) && !(e.Put? && NaturalOf(e.r) == n)
        ensures LastStored(front, k, n) ==> 0 <= k < last && front[k] == es[k] && es[k].Put?
      {
        LastStoredStep(es, k, n);
      }
      var before := Run(Start(since), front).table;
      if n in before { var k :| LastStored(front, k, n) && before[n] == front[k].r; }
    }
  }

  lemma NothingStored(k: int, n: Natural)
    ensures !LastStored([], k, n)
  {
  }

  lemma LastStoredStep(es: seq<Event>, k: int, n: Natural)
    requires es != []
    ensures var last := |es| - 1;
            var front, e := es[..last], es[last];
            && (LastStored(es, k, n) <==>
                  if k == last then e.Put? && NaturalOf(e.r) == n
                  else LastStored(front, k, n) && e != Remove(n) && !(e.Put? && NaturalOf(e.r) == n))
            && (LastStored(front, k, n) ==> 0 <= k < last && front[k] == es[k] && es[k].Put?)
  {
    var front := es[..|es| - 1];
    if LastStored(es, k, n) {
      forall j | k < j < |front| ensures front[j] != Remove(n) && !(front[j].Put? && NaturalOf(front[j].r) == n) {
        assert front[j] == es[j];
      }
    }
  }

  // ---- the invariant ----

  ghost predicate EntryGood(e: Entry) {
    && 0 < e.until && e.since < e.until && e.paid != map[]
    && forall n :: n in e.paid ==> InWindow(n.timestamp, e.since, e.until)
  }

  ghost predicate Good(s: Epochs) {
    && (forall i :: 0 <= i < |s.log| ==> EntryGood(s.log[i]) && s.log[i].until <= s.cursor)
    && (forall i, j :: 0 <= i < j < |s.log| ==> s.log[i].until <= s.log[j].since)
    && (forall i :: 0 < i < |s.log| ==> s.log[i].since == s.log[i - 1].until)
    && (s.log != [] ==> s.log[|s.log| - 1].until == s.cursor)
  }

  /** Main result: a success moves the cursor strictly forward, even when the clock has gone back: then
      there is nothing to settle.  Only a reading of zero or less can take it back. */
  lemma SuccessAdvances(s: Epochs, now: int64)
    requires Window(s.table, s.cursor, now) != map[]
    ensures Step(s, Tick(now, Mined)).cursor == now
    ensures now <= s.cursor ==> now <= 0
  {
    var w := Window(s.table, s.cursor, now);
    var n :| n in w;
    assert InWindow(n.timestamp, s.cursor, now);
  }

  lemma StepGood(s: Epochs, e: Event)
    requires Good(s) && PositiveIfMined(e)
    ensures Good(Step(s, e))
  {
    if e.Tick? && e.fate.Mined? && Window(s.table, s.cursor, e.now) != map[] {
      SuccessAdvances(s, e.now);
      var t, entry := Step(s, e), Entry(s.cursor, e.now, Window(s.table, s.cursor, e.now));
      assert t.log == s.log + [entry];
      assert EntryGood(entry);
      hide EntryGood, Window, InWindow;
    }
  }

  /** Main result: on every run the successful windows follow one another without gap or overlap, and each
      is non-empty and holds only receipts of its time. */
  lemma {:induction false} RunGood(since: int64, es: seq<Event>)
    requires ClockPositive(es)
    ensures Good(Run(Start(since), es))
  {
    hide Step, Good, Start;
    if es == [] {
      StartGood(since);
    } else {
      RunGood(since, es[..|es| - 1]);
      StepGood(Run(Start(since), es[..|es| - 1]), es[|es| - 1]);
    }
  }

  lemma StartGood(since: int64)
    ensures Good(Start(since))
  {
  }

  // ---- at most once ----

  function Times(log: seq<Entry>, n: Natural): nat {
    if log == [] then 0 else Times(log[..|log| - 1], n) + if n in log[|log| - 1].paid then 1 else 0
  }

  lemma StepTimes(s: Epochs, e: Event, n: Natural)
    ensures Times(Step(s, e).log, n) == Times(s.log, n) + if Covers(s, e, n) then 1 else 0
  {
    hide InWindow, Times;
    if e.Tick? && e.fate.Mined? {
      var w := Window(s.table, s.cursor, e.now);
      assert n in w <==> Covers(s, e, n);
      if w != map[] { TimesLast(s.log, Entry(s.cursor, e.now, w), n); }
    }
  }

  lemma TimesLast(log: seq<Entry>, e: Entry, n: Natural)
    ensures Times(log + [e], n) == Times(log, n) + if n in e.paid then 1 else 0
  {
    assert (log + [e])[..|log|] == log;
  }

  /** The event settles receipt `n`: a tick that succeeded while `n` was stored and in its window. */
  predicate Covers(s: Epochs, e: Event, n: Natural) {
    e.Tick? && e.fate.Mined? && n in s.table && InWindow(n.timestamp, s.cursor, e.now)
  }

  /** Some event of the run settles `n`. */
  ghost predicate Covered(s: Epochs, es: seq<Event>, n: Natural) {
    exists k :: 0 <= k < |es| && Covers(Run(s, es[..k]), es[k], n)
  }

  lemma CoveredStep(s: Epochs, es: seq<Event>, n: Natural)
    requires es != []
    ensures var front := es[..|es| - 1];
            Covered(s, es, n) <==> Covered(s, front, n) || Covers(Run(s, front), es[|es| - 1], n)
  {
    hide Run, Covers;
    var front, last := es[..|es| - 1], |es| - 1;
    forall k | 0 <= k < |front| ensures front[..k] == es[..k] && front[k] == es[k] {}
    if Covered(s, front, n) {
      var k :| 0 <= k < |front| && Covers(Run(s, front[..k]), front[k], n);
      assert Covers(Run(s, es[..k]), es[k], n);
    }
    if Covered(s, es, n) {
      var k :| 0 <= k < |es| && Covers(Run(s, es[..k]), es[k], n);
      if k < last { assert Covers(Run(s, front[..k]), front[k], n); }
    }
  }

  lemma RunStep(s: Epochs, es: seq<Event>)
    requires es != []
    ensures Run(s, es) == Step(Run(s, es[..|es| - 1]), es[|es| - 1])
  {
  }

  /** Behind the cursor: no window that begins at the cursor reaches the receipt. */
  predicate Behind(s: Epochs, n: Natural) { 0 < s.cursor && n.timestamp < s.cursor }

  lemma StepBehind(s: Epochs, e: Event, n: Natural)
    requires Behind(s, n) && PositiveIfMined(e)
    ensures Behind(Step(s, e), n) && !Covers(s, e, n)
  {
    if e.Tick? && Window(s.table, s.cursor, e.now) != map[] { SuccessAdvances(s, e.now); }
    hide Window;
  }

  lemma CoversBehind(s: Epochs, e: Event, n: Natural)
    requires Covers(s, e, n) && PositiveIfMined(e)
    ensures Behind(Step(s, e), n)
  {
    assert n in Window(s.table, s.cursor, e.now);
  }

  /** Main result: a receipt behind the cursor, settled or not, is never settled afterwards: the cost of a
      cursor over the receipts' own clock. */
  lemma {:induction false} LateNeverSettled(since: int64, before: seq<Event>, after: seq<Event>, n: Natural)
    requires ClockPositive(after) && Behind(Run(Start(since), before), n)
    ensures Times(Run(Start(since), before + after).log, n) == Times(Run(Start(since), before).log, n)
    ensures Behind(Run(Start(since), before + after), n)
    decreases |after|
  {
    hide Run, Times, Step, Behind, Covers, Start;
    if after == [] {
      assert before + after == before;
    } else {
      var es, front := before + after, before + after[..|after| - 1];
      assert es[..|es| - 1] == front && es[|es| - 1] == after[|after| - 1];
      LateNeverSettled(since, before, after[..|after| - 1], n);
      RunStep(Start(since), es);
      StepBehind(Run(Start(since), front), es[|es| - 1], n);
      StepTimes(Run(Start(since), front), es[|es| - 1], n);
    }
  }

  /** From the tick that settles `n` on, every tick that succeeds reads a clock after 1970. */
  ghost predicate PositiveSince(s: Epochs, es: seq<Event>, n: Natural) {
    forall k :: 0 <= k < |es| && Covers(Run(s, es[..k]), es[k], n) ==> ClockPositive(es[k..])
  }

  /** Main result: a receipt is settled at most once, and exactly when some tick succeeded while it was stored
      and in that tick's window, on every run whose clock is positive from that tick on. */
  lemma {:induction false} SettledOnce(since: int64, es: seq<Event>, n: Natural)
    requires PositiveSince(Start(since), es, n)
    ensures Times(Run(Start(since), es).log, n) == if Covered(Start(since), es, n) then 1 else 0
  {
    hide Run, Times, Covers, Step, Start;
    var s := Start(since);
    if es == [] {
      NothingSettled(since, n);
    } else {
      var front, last := es[..|es| - 1], |es| - 1;
      forall k | 0 <= k < last ensures front[..k] == es[..k] && front[k] == es[k] {}
      assert PositiveSince(s, front, n) by {
        forall k | 0 <= k < last && Covers(Run(s, front[..k]), front[k], n) ensures ClockPositive(front[k..]) {
          assert ClockPositive(es[k..]);
          ClockFront(es[k..], front[k..]);
        }
      }
      SettledOnce(since, front, n);
      CoveredStep(s, es, n);
      RunStep(s, es);
      StepTimes(Run(s, front), es[last], n);
      if Covered(s, front, n) {
        var k :| 0 <= k < |front| && Covers(Run(s, front[..k]), front[k], n);
        NotCoveredAgain(since, es, k, n);
      }
    }
  }

  lemma ClockFront(es: seq<Event>, front: seq<Event>)
    requires ClockPositive(es) && front <= es
    ensures ClockPositive(front)
  {
    forall i | 0 <= i < |front| ensures PositiveIfMined(front[i]) { assert front[i] == es[i]; }
  }

  lemma NotCoveredAgain(since: int64, es: seq<Event>, k: nat, n: Natural)
    requires k < |es| - 1 && Covers(Run(Start(since), es[..k]), es[k], n) && ClockPositive(es[k..])
    ensures !Covers(Run(Start(since), es[..|es| - 1]), es[|es| - 1], n)
  {
    hide Run, Covers, Step, Start, Behind, PositiveIfMined;
    var s, last := Start(since), |es| - 1;
    assert es[..k + 1][..k] == es[..k] && es[..k + 1][k] == es[k];
    assert es[k..][0] == es[k] && es[k..][last - k] == es[last];
    RunStep(s, es[..k + 1]);
    CoversBehind(Run(s, es[..k]), es[k], n);
    var rest := es[k + 1..last];
    assert es[..k + 1] + rest == es[..last];
    forall i | 0 <= i < |rest| ensures PositiveIfMined(rest[i]) { assert rest[i] == es[k..][i + 1]; }
    LateNeverSettled(since, es[..k + 1], rest, n);
    StepBehind(Run(s, es[..last]), es[last], n);
  }

  /** How many events of the run settled `n`. */
  function Coverings(s: Epochs, es: seq<Event>, n: Natural): nat {
    if es == [] then 0
    else
      var front := es[..|es| - 1];
      Coverings(s, front, n) + if Covers(Run(s, front), es[|es| - 1], n) then 1 else 0
  }

  /** Whatever the clock reads, a receipt is settled once for each tick that succeeded while it was stored
      and in that tick's window; `SharedExactly` says when two successes in a row are such ticks. */
  lemma {:induction false} SettledAsOftenAsCovered(since: int64, es: seq<Event>, n: Natural)
    ensures Times(Run(Start(since), es).log, n) == Coverings(Start(since), es, n)
  {
    hide Covers, Step, Start, Times;
    if es == [] {
      NothingSettled(since, n);
    } else {
      var front := es[..|es| - 1];
      SettledAsOftenAsCovered(since, front, n);
      StepTimes(Run(Start(since), front), es[|es| - 1], n);
    }
  }

  lemma NothingSettled(since: int64, n: Natural)
    ensures Times(Run(Start(since), []).log, n) == 0 && !Covered(Start(since), [], n)
  {
  }

  /** Main result: a receipt already stored when the tick over its time succeeds is settled by it, once more
      than before and never again; where no earlier success read a clock of zero or less, exactly once. */
  lemma StoredInTimeSettledOnce(since: int64, before: seq<Event>, now: int64, after: seq<Event>, n: Natural)
    requires 0 < now && ClockPositive(after)
    requires Covers(Run(Start(since), before), Tick(now, Mined), n)
    ensures var all := Times(Run(Start(since), before + [Tick(now, Mined)] + after).log, n);
            && all == Times(Run(Start(since), before).log, n) + 1
            && (ClockPositive(before) ==> all == 1)
  {
    hide Run, Times, Covers, Step, Start, Behind;
    var tick := Tick(now, Mined);
    var upTo := before + [tick];
    assert upTo[..|upTo| - 1] == before;
    RunStep(Start(since), upTo);
    StepTimes(Run(Start(since), before), tick, n);
    CoversBehind(Run(Start(since), before), tick, n);
    LateNeverSettled(since, upTo, after, n);
    if ClockPositive(before) { NotCoveredBefore(since, before, tick, n); }
  }

  lemma NotCoveredBefore(since: int64, before: seq<Event>, e: Event, n: Natural)
    requires ClockPositive(before) && Covers(Run(Start(since), before), e, n) && PositiveIfMined(e)
    ensures Times(Run(Start(since), before).log, n) == 0
  {
    hide Run, Times, Covers, Start, PositiveIfMined;
    var s, es := Start(since), before + [e];
    assert es[..|before|] == before;
    ClockTails(es);
    ClockTails(before);
    if Covered(s, before, n) {
      var k :| 0 <= k < |before| && Covers(Run(s, before[..k]), before[k], n);
      assert es[..k] == before[..k];
      NotCoveredAgain(since, es, k, n);
    }
    SettledOnce(since, before, n);
  }

  lemma ClockTails(es: seq<Event>)
    requires ClockPositive(es)
    ensures forall k :: 0 <= k <= |es| ==> ClockPositive(es[k..])
  {
    hide PositiveIfMined;
    forall k | 0 <= k <= |es| ensures ClockPositive(es[k..]) {
      forall i | 0 <= i < |es| - k ensures PositiveIfMined(es[k..][i]) { assert es[k..][i] == es[k + i]; }
    }
  }

  // ---- where the promise ends ----

  /** Two successes in a row over one store share a receipt exactly when the first clock reading was not
      positive and the second window reaches that receipt: a reading of zero or less switches off the upper
      bound of its own window and the lower bound of the next. */
  lemma SharedExactly(s: Epochs, t1: int64, t2: int64, n: Natural)
    requires n in Window(s.table, s.cursor, t1)
    ensures var m := Step(s, Tick(t1, Mined));
            n in Window(m.table, m.cursor, t2) <==> t1 <= 0 && (t2 <= 0 || n.timestamp < t2)
  {
    assert Window(s.table, s.cursor, t1) != map[];
  }

  // ---- what the pool receives ----

  /** How often the pool was asked to pay `n`. */
  function Payments(chain: seq<Table>, n: Natural): nat {
    if chain == [] then 0
    else Payments(chain[..|chain| - 1], n) + if n in chain[|chain| - 1] then 1 else 0
  }

  /** The event is a transaction over `n` that the driver gave up on and that was mined all the same. */
  predicate LandsLate(s: Epochs, e: Event, n: Natural) {
    e.Tick? && e.fate == GaveUp(true) && n in s.table && InWindow(n.timestamp, s.cursor, e.now)
  }

  /** How often that happened to `n` on the run. */
  function LateLandings(s: Epochs, es: seq<Event>, n: Natural): nat {
    if es == [] then 0
    else
      var front := es[..|es| - 1];
      LateLandings(s, front, n) + if LandsLate(Run(s, front), es[|es| - 1], n) then 1 else 0
  }

  lemma PaymentsLast(chain: seq<Table>, w: Table, n: Natural)
    ensures Payments(chain + [w], n) == Payments(chain, n) + if n in w then 1 else 0
  {
    assert (chain + [w])[..|chain|] == chain;
  }

  lemma StepPayments(s: Epochs, e: Event, n: Natural)
    ensures Payments(Step(s, e).chain, n) ==
              Payments(s.chain, n) + (if Covers(s, e, n) then 1 else 0) + if LandsLate(s, e, n) then 1 else 0
  {
    hide InWindow, Payments;
    if e.Tick? {
      var w := Window(s.table, s.cursor, e.now);
      WindowElement(s.table, s.cursor, e.now, n);
      if w != map[] { PaymentsLast(s.chain, w, n); }
    }
  }

  /** Main result: on every run, whatever the clock reads, the pool is asked to pay a receipt once for each
      settlement of it that the driver logged, and once for each given-up transaction over it that
      was mined all the same. */
  lemma {:induction false} PaymentsExactly(since: int64, es: seq<Event>, n: Natural)
    ensures var s := Run(Start(since), es);
            Payments(s.chain, n) == Times(s.log, n) + LateLandings(Start(since), es, n)
  {
    hide Times, Payments, Covers, LandsLate, Step, Start;
    if es == [] {
      NothingPaid(since, n);
    } else {
      var front, e := es[..|es| - 1], es[|es| - 1];
      PaymentsExactly(since, front, n);
      StepPayments(Run(Start(since), front), e, n);
      StepTimes(Run(Start(since), front), e, n);
    }
  }

  lemma NothingPaid(since: int64, n: Natural)
    ensures Payments(Start(since).chain, n) == 0 && Times(Start(since).log, n) == 0
  {
  }

  /** Where nothing lands late, what the pool received is exactly the log, settlement by settlement. */
  lemma {:induction false} ChainIsLog(since: int64, es: seq<Event>)
    requires forall i :: 0 <= i < |es| ==> es[i].Tick? ==> es[i].fate != GaveUp(true)
    ensures var s := Run(Start(since), es);
            |s.chain| == |s.log| && forall i :: 0 <= i < |s.log| ==> s.chain[i] == s.log[i].paid
  {
    hide Window;
    if es != [] { ChainIsLog(since, es[..|es| - 1]); }
  }

  /** Main result: so a receipt is paid at most once exactly when no two of these happened to it: a tick that
      settled it, and a late landing; with a positive clock no two ticks settle it. */
  lemma PaidAtMostOnce(since: int64, es: seq<Event>, n: Natural)
    ensures var s := Start(since);
            && (Payments(Run(s, es).chain, n) <= 1 <==> LateLandings(s, es, n) + Coverings(s, es, n) <= 1)
            && (PositiveSince(s, es, n) ==> Coverings(s, es, n) == if Covered(s, es, n) then 1 else 0)
  {
    hide Run, Times, Payments, LateLandings, Coverings, Covered, PositiveSince, Start;
    PaymentsExactly(since, es, n);
    SettledAsOftenAsCovered(since, es, n);
    if PositiveSince(Start(since), es, n) { SettledOnce(since, es, n); }
  }

  /** And where one lands late, the next success that still reaches the receipt pays it again, as the cursor
      has not moved. */
  lemma GivenUpPaysAgain(s: Epochs, t1: int64, t2: int64, n: Natural)
    requires n in Window(s.table, s.cursor, t1) && (t2 <= 0 || n.timestamp < t2)
    ensures var m := Step(Step(s, Tick(t1, GaveUp(true))), Tick(t2, Mined));
            Payments(m.chain, n) == Payments(s.chain, n) + 2 && Times(m.log, n) == Times(s.log, n) + 1
  {
    hide Times, Payments;
    var a, b := Tick(t1, GaveUp(true)), Tick(t2, Mined);
    WindowElement(s.table, s.cursor, t1, n);
    assert Covers(Step(s, a), b, n) && LandsLate(s, a, n);
    hide Step;
    StepPayments(s, a, n);
    StepPayments(Step(s, a), b, n);
    StepTimes(s, a, n);
    StepTimes(Step(s, a), b, n);
  }

  lemma WindowElement(table: Table, since: int64, until: int64, n: Natural)
    ensures n in Window(table, since, until) <==> n in table && InWindow(n.timestamp, since, until)
  {
  }

  // ---- the driver ----

  datatype TickResult = TickResult(result: Option<Settled>, skipped: bool, since: int64, until: int64)

  class Driver {
    var lastSince: int64
    /** The settlements that succeeded, and what the pool received, since the driver was made. */
    ghost var log: seq<Entry>
    ghost var chain: seq<Table>

    constructor (initialSince: int64)
      ensures lastSince == initialSince && log == [] && chain == []
    {
      lastSince, log, chain := initialSince, [], [];
    }

    ghost function State(table: Table): Epochs
      reads this
    {
      Epochs(table, lastSince, log, chain)
    }

    /** Main result: a tick is a step of the run, with the fate the world dealt it: mined exactly when the
        window's receipts could be sent and the transaction was confirmed.  `landed` says whether a
        transaction sent but not confirmed was mined later. */
    method TickOnce(store: Store, sha: Sha, c: Crypto, w: World, now: int64, ghost landed: bool)
      returns (r: Result<TickResult, SettleError>, ghost fate: Fate, ghost rs: seq<Receipt>)
      requires store.Valid()
      modifies this
      ensures State(store.table) == Step(old(State(store.table)), Tick(now, fate))
      ensures Exactly(rs, store.table, InSpan(old(lastSince), now))
      ensures fate.Mined? <==> Settler.Sendable(c, w, rs) && Confirmed(w)
      ensures fate == GaveUp(true) <==> Settler.Sendable(c, w, rs) && !Confirmed(w) && landed
      ensures r.Ok? <==> fate.Mined? || rs == []
      ensures r.Ok? ==> r.value.since == old(lastSince) && r.value.until == now
      ensures r.Ok? && r.value.skipped <==> Window(store.table, old(lastSince), now) == map[]
      ensures r.Ok? && r.value.result.Some? <==> fate.Mined? && Window(store.table, old(lastSince), now) != map[]
    {
      hide Step, Exactly, Settler.Sendable, IsSettlement, IsCalldata, ByAddress, InWindow, NoDuplicates, Window, InSpan;
      var until, since := now, lastSince;
      ghost var sent: Option<Calldata>;
      ghost var paid := Window(store.table, since, until);
      var res;
      res, rs, sent := SettleOnce(store, sha, c, w, since, until);
      WindowOfReceipts(rs, store.table, since, until);
      NothingIsNotSent(c, w, rs);
      TickIs(State(store.table), now);
      if res == Err(NothingToSettle) {
        return Ok(TickResult(None, true, since, until)), GaveUp(false), rs;
      }
      if res.Err? {
        fate := GaveUp(sent.Some? && landed);
        chain := if fate.landed then chain + [paid] else chain;
        return Err(res.error), fate, rs;
      }
      lastSince := until;
      log := log + [Entry(since, until, paid)];
      chain := chain + [paid];
      return Ok(TickResult(Some(res.value), false, since, until)), Mined, rs;
    }
  }

  lemma TickIs(s: Epochs, now: int64)
    ensures var w := Window(s.table, s.cursor, now);
            && Step(s, Tick(now, GaveUp(false))) == s
            && (w != map[] ==> Step(s, Tick(now, GaveUp(true))) == Epochs(s.table, s.cursor, s.log, s.chain + [w]))
            && (w != map[] ==>
                  Step(s, Tick(now, Mined)) == Epochs(s.table, now, s.log + [Entry(s.cursor, now, w)], s.chain + [w]))
  {
  }

  lemma NothingIsNotSent(c: Crypto, w: World, rs: seq<Receipt>)
    ensures rs == [] ==> !Settler.Sendable(c, w, rs)
  {
  }

  lemma WindowOfReceipts(rs: seq<Receipt>, table: Table, since: int64, until: int64)
    requires Exactly(rs, table, InSpan(since, until))
    ensures rs == [] <==> Window(table, since, until) == map[]
  {
    hide InWindow;
    var w := Window(table, since, until);
    if rs != [] {
      assert Stored(rs[0], table, InSpan(since, until));
      assert NaturalOf(rs[0]) in w;
    }
    if w != map[] {
      var n :| n in w;
      assert InSpan(since, until)(n);
      assert table[n] in rs;
    }
  }
}
