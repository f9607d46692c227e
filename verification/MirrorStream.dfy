/** The stream object of mirror/client.go.  A method that is one locked section or one atomic operation leaves
    the state that step of StreamSink gives; one that is several runs them in turn, here without interruption.
    Probes lets the steps of all goroutines interleave.
 */
module MirrorStream {
  import opened Bytes
  import opened Results
  import opened HopMetrics
  import opened StreamSink

  /** The walk over the map has still to visit `todo`: of the others the old ones are gone, and counted. */
  ghost predicate Walked(all: map<uint64, int>, cutoff: int, todo: set<uint64>, left: map<uint64, int>, lost: uint32) {
    var gone := OlderThan(all, cutoff) - todo;
    todo <= all.Keys && left == all - gone && lost == U32(|gone|)
  }

  lemma WalkStart(all: map<uint64, int>, cutoff: int)
    ensures Walked(all, cutoff, all.Keys, all, 0)
  {
    assert OlderThan(all, cutoff) - all.Keys == {};
  }

  /** One turn. */
  lemma WalkTurn(all: map<uint64, int>, cutoff: int, todo: set<uint64>, left: map<uint64, int>, lost: uint32, id: uint64)
    requires Walked(all, cutoff, todo, left, lost) && id in todo
    ensures id in left
    ensures left[id] < cutoff ==> Walked(all, cutoff, todo - {id}, left - {id}, U32(lost + 1))
    ensures left[id] >= cutoff ==> Walked(all, cutoff, todo - {id}, left, lost)
  {
    var gone, next := OlderThan(all, cutoff) - todo, OlderThan(all, cutoff) - (todo - {id});
    Wrap(|gone|, 1);
    if left[id] < cutoff {
      assert next == gone + {id};
      assert left - {id} == all - next;
    } else {
      assert next == gone;
    }
  }

  lemma WalkEnd(all: map<uint64, int>, cutoff: int, left: map<uint64, int>, lost: uint32)
    requires Walked(all, cutoff, {}, left, lost)
    ensures left == all - OlderThan(all, cutoff) && lost == U32(|OlderThan(all, cutoff)|)
  {
    assert OlderThan(all, cutoff) - {} == OlderThan(all, cutoff);
  }

  /** What a sweep leaves on the map. */
  lemma LeftOn(m: map<uint64, int>, now: int)
    ensures var left := m - OlderThan(m, now - MAX_AGE);
            && (forall id :: id in m ==> (id in left <==> now - m[id] <= 5_000_000_000))
            && (forall id :: id in left ==> id in m && left[id] == m[id])
            && |OlderThan(m, now - MAX_AGE)| == |m| - |left|
  {
    var gone := OlderThan(m, now - MAX_AGE);
    assert (m - gone).Keys == m.Keys - gone;
    assert |m| == |m.Keys| && |m - gone| == |(m - gone).Keys|;
  }

  lemma WrapLosses(n: nat, losses: uint32)
    ensures U32(losses + U32(n)) == U32(losses + n) && (U32(n) == 0 ==> U32(losses + n) == losses)
  {
    Wrap(n, losses);
  }

  /** Nothing swept: nothing to count or to add. */
  lemma CountShape(s: Stream, now: int)
    requires s.writer.Free?
    ensures var n := After(s, Swept(now)); n.writer.Free? ==> SweepCall(s, now) == n
    ensures var n := After(s, Swept(now)); CountAll(n).consecutiveLoss == s.consecutiveLoss && CountAll(n).dropRequested == s.dropRequested
    ensures CountAll(After(s, Swept(now))).outstanding == After(s, Swept(now)).outstanding
  {
    hide Expired;
    CountedAll(After(s, Swept(now)));
  }

  /** The client-wide probe counter. */
  class ProbeCounter {
    var last: uint64

    constructor ()
      ensures last == 0
    {
      last := 0;
    }

    method Next() returns (id: uint64)
      modifies this
      ensures id == last == U64(old(last) + 1)
    {
      last := U64(last + 1);
      id := last;
    }
  }

  class Sink {
    const metrics: Metrics
    const counter: ProbeCounter
    const streamStart: int
    var outstanding: map<uint64, int>
    var consecutiveLoss: uint32
    var dropRequested: bool
    var baselineP95: int
    var degradedStart: Option<int>
    /** What the goroutines hold in local variables from one section to the next. */
    ghost var reader: Reader
    ghost var writer: Writer

    ghost function State(): Stream
      reads this
    {
      Stream(outstanding, consecutiveLoss, dropRequested, streamStart, baselineP95, degradedStart, reader, writer)
    }

    constructor (metrics: Metrics, counter: ProbeCounter, now: int)
      ensures State() == Fresh(now) && this.metrics == metrics && this.counter == counter
    {
      this.metrics, this.counter, streamStart := metrics, counter, now;
      outstanding, consecutiveLoss, dropRequested, baselineP95, degradedStart := map[], 0, false, 0, None;
      reader, writer := Waiting, Free;
    }

    /** The probe is outstanding before it is written. */
    method SendProbe(now: int) returns (id: uint64)
      requires writer.Free?
      modifies `outstanding, `writer, counter
      ensures id == counter.last == U64(old(counter.last) + 1)
      ensures State() == SendCall(old(State()), id, now) && outstanding == old(outstanding)[id := now]
    {
      id := counter.Next();
      writer := Drawn(id);
      outstanding := outstanding[id := now];
      writer := Free;
    }

    /** The section of the reader that looks the probe up and removes it. */
    method TakeEcho(id: uint64) returns (sentAt: Option<int>)
      requires reader.Waiting?
      modifies `outstanding, `reader
      ensures State() == After(old(State()), Took(id)) && outstanding == old(outstanding) - {id}
      ensures sentAt == if id in old(outstanding) then Some(old(outstanding)[id]) else None
      ensures reader == if sentAt.Some? then Taken(sentAt.value) else Waiting
    {
      if id !in outstanding { return None; }
      sentAt := Some(outstanding[id]);
      outstanding := outstanding - {id};
      reader := Taken(sentAt.value);
    }

    method RecordTaken(sentAt: int, now: int)
      requires metrics.Valid() && reader == Taken(sentAt)
      modifies `reader, metrics, metrics.probeRTT
      ensures metrics.Valid() && metrics.probeLoss == old(metrics.probeLoss)
      ensures metrics.samples == old(metrics.samples) + [now - sentAt]
      ensures State() == After(old(State()), Recorded(now)) && reader.Noted?
    {
      hide AfterTick, AfterSwept, AfterAdded, Metrics.Valid;
      metrics.RecordEcho(now - sentAt);
      reader := Noted;
    }

    method ResetLoss()
      requires reader.Noted?
      modifies `consecutiveLoss, `reader
      ensures State() == After(old(State()), Reset) && reader.Waiting? && consecutiveLoss == 0
    {
      consecutiveLoss := 0;
      reader := Waiting;
    }

    /** One echo frame off the stream. */
    method ReceiveEcho(id: uint64, now: int) returns (matched: bool)
      requires metrics.Valid() && reader.Waiting?
      modifies `outstanding, `consecutiveLoss, `reader, metrics, metrics.probeRTT
      ensures metrics.Valid() && metrics.probeLoss == old(metrics.probeLoss)
      ensures matched <==> id in old(outstanding)
      ensures outstanding == old(outstanding) - {id} && consecutiveLoss == if matched then 0 else old(consecutiveLoss)
      ensures State() == EchoCall(old(State()), id, now)
      ensures metrics.samples == old(metrics.samples) + if matched then [now - old(outstanding)[id]] else []
    {
      hide After, Metrics.Valid;
      ghost var before := State();
      var sentAt := TakeEcho(id);
      matched := sentAt.Some?;
      if !matched {
        UnmatchedEcho(before, id, now);
        return;
      }
      RecordTaken(sentAt.value, now);
      ResetLoss();
    }

    /** Deletes every probe older than five seconds, in whatever order the map is walked. */
    method Expire(cutoff: int) returns (lost: uint32)
      modifies `outstanding
      ensures outstanding == old(outstanding) - OlderThan(old(outstanding), cutoff)
      ensures lost == U32(|OlderThan(old(outstanding), cutoff)|)
    {
      hide OlderThan, Walked, U32;
      lost := 0;
      var todo := outstanding.Keys;
      ghost var all := outstanding;
      WalkStart(all, cutoff);
      while todo != {}
        invariant Walked(all, cutoff, todo, outstanding, lost)
        decreases |todo|
      {
        var id :| id in todo;
        WalkTurn(all, cutoff, todo, outstanding, lost, id);
        todo := todo - {id};
        if outstanding[id] < cutoff {
          outstanding := outstanding - {id};
          lost := U32(lost + 1);
        }
      }
      WalkEnd(all, cutoff, outstanding, lost);
    }

    /** The section of the sweep under the lock. */
    method ExpireSection(now: int) returns (lost: uint32)
      requires writer.Free?
      modifies `outstanding, `writer
      ensures State() == After(old(State()), Swept(now))
      ensures forall id :: id in old(outstanding) ==>
                (id in outstanding <==> now - old(outstanding)[id] <= 5_000_000_000)
      ensures forall id :: id in outstanding ==> id in old(outstanding) && outstanding[id] == old(outstanding)[id]
      ensures lost == U32(|old(outstanding)| - |outstanding|)
      ensures lost == U32(|Expired(old(State()), now)|)
      ensures writer == if lost == 0 then Free else Counting(lost, lost)
    {
      hide OlderThan, U32;
      LeftOn(outstanding, now);
      lost := Expire(now - MAX_AGE);
      writer := if lost == 0 then Free else Counting(lost, lost);
    }

    /** One turn of the counting loop. */
    method CountOne()
      requires metrics.Valid() && writer.Counting? && writer.left > 0
      modifies `writer, metrics
      ensures metrics.Valid() && metrics.samples == old(metrics.samples)
      ensures metrics.probeLoss == U32(old(metrics.probeLoss) + 1)
      ensures State() == After(old(State()), Counted)
    {
      metrics.IncProbeLoss();
      writer := Counting(writer.lost, writer.left - 1);
    }

    method CountLosses(lost: uint32)
      requires metrics.Valid() && writer == Counting(lost, lost)
      modifies `writer, metrics
      ensures metrics.Valid() && metrics.samples == old(metrics.samples)
      ensures metrics.probeLoss == U32(old(metrics.probeLoss) + lost)
      ensures State() == CountAll(old(State())) && writer == Counting(lost, 0)
    {
      ghost var before := State();
      var i := 0;
      while i < lost
        invariant 0 <= i <= lost && writer == Counting(lost, lost - i)
        invariant metrics.Valid() && metrics.probeLoss == U32(old(metrics.probeLoss) + i)
        invariant metrics.samples == old(metrics.samples)
        invariant CountAll(State()) == CountAll(before)
      {
        Wrap(old(metrics.probeLoss) + i, 1);
        CountOne();
        i := i + 1;
      }
    }

    method AddLosses(lost: uint32)
      requires writer == Counting(lost, 0)
      modifies `consecutiveLoss, `dropRequested, `writer
      ensures State() == After(old(State()), Added) && writer.Free?
      ensures consecutiveLoss == U32(old(consecutiveLoss) + lost)
      ensures dropRequested <==> old(dropRequested) || consecutiveLoss >= 5
    {
      var cl := U32(consecutiveLoss + lost);
      consecutiveLoss := cl;
      if cl >= LOSS_THRESHOLD && !dropRequested { dropRequested := true; }
      writer := Free;
    }

    method SweepOutstanding(now: int)
      requires metrics.Valid() && writer.Free?
      modifies `outstanding, `consecutiveLoss, `dropRequested, `writer, metrics
      ensures metrics.Valid() && metrics.samples == old(metrics.samples)
      ensures State() == SweepCall(old(State()), now) && writer.Free?
      ensures forall id :: id in old(outstanding) ==>
                (id in outstanding <==> now - old(outstanding)[id] <= 5_000_000_000)
      ensures forall id :: id in outstanding ==> id in old(outstanding) && outstanding[id] == old(outstanding)[id]
      ensures var lost := U32(|old(outstanding)| - |outstanding|);
              if lost == 0 then consecutiveLoss == old(consecutiveLoss) && dropRequested == old(dropRequested)
              else consecutiveLoss == U32(old(consecutiveLoss) + lost)
                   && (dropRequested <==> old(dropRequested) || consecutiveLoss >= 5)
      ensures metrics.probeLoss == U32(old(metrics.probeLoss) + |Expired(old(State()), now)|)
    {
      hide Expired, U32, After, CountAll, Metrics.Valid;
      CountShape(State(), now);
      ghost var before := State();
      var lost := ExpireSection(now);
      WrapLosses(|Expired(before, now)|, metrics.probeLoss);
      if lost == 0 { return; }
      CountLosses(lost);
      AddLosses(lost);
    }

    method CheckP95Drift(now: int)
      requires metrics.Valid() && writer.Free?
      modifies `dropRequested, `baselineP95, `degradedStart
      ensures State() == After(old(State()), Ticked(now, Percentile(Window(metrics.samples), 95)))
      ensures var p95 := Percentile(Window(metrics.samples), 95);
              var learned := now - streamStart >= 60_000_000_000;
              var high := 2 * p95 > 3 * old(baselineP95);
              && baselineP95 == (if learned && old(baselineP95) == 0 then p95 else old(baselineP95))
              && (old(baselineP95) >= 0 ==>
                    && degradedStart == (if !learned || old(baselineP95) == 0 then old(degradedStart)
                                         else if !high then None
                                         else if old(degradedStart).None? then Some(now) else old(degradedStart))
                    && (dropRequested <==>
                          || old(dropRequested)
                          || (learned && old(baselineP95) > 0 && high && old(degradedStart).Some?
                              && now - old(degradedStart).value >= 30_000_000_000)))
    {
      hide Percentile, Window;
      if now - streamStart < BASELINE_WINDOW { return; }
      var p95 := metrics.EchoPercentile(95);
      if baselineP95 == 0 {
        if p95 == 0 { return; }
        baselineP95 := p95;
        return;
      }
      if p95 > Threshold(baselineP95) {
        if degradedStart.None? {
          degradedStart := Some(now);
          return;
        }
        if now - degradedStart.value >= SUSTAIN_WINDOW {
          if !dropRequested { dropRequested := true; }
        }
      } else if degradedStart.Some? {
        degradedStart := None;
      }
    }

    /** A write that fails asks for the drop at once. */
    method WriteFailed()
      requires writer.Free?
      modifies `dropRequested
      ensures State() == After(old(State()), Event.WriteFailed)
    {
      dropRequested := true;
    }
  }
}
