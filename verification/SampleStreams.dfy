/** The other incremental streams of the dashboard: traces (cursor is a length),
    bean counters (cursor is the last sample), health (cursor is the last
    status). */
module SampleStreams {
  import opened Text
  import opened LogStream

  // ---------------------------------------------------------------------
  // Traces
  // ---------------------------------------------------------------------

  datatype TraceEvent<T> = Record(entry: T) | Sample

  datatype TraceState<T> = TraceState(entries: seq<T>, lastCount: nat, emitted: seq<T>)

  function NewRows<T>(entries: seq<T>, lastCount: nat): seq<T> {
    if |entries| > lastCount then entries[lastCount..] else []
  }

  class TraceBuffer<T> {
    const capacity: nat
    var buf: seq<T>

    constructor (capacity: nat)
      ensures this.capacity == (if capacity == 0 then 1 else capacity) && buf == []
    {
      this.capacity := if capacity == 0 then 1 else capacity;
      buf := [];
    }

    method Record(e: T)
      requires capacity >= 1
      modifies this
      ensures buf == Stored(old(buf), capacity, e)
    {
      if |buf| == capacity {
        buf := buf[1..];
      }
      buf := buf + [e];
    }
  }

  class TraceCursor<T> {
    var lastCount: nat

    constructor ()
      ensures lastCount == 0
    {
      lastCount := 0;
    }

    method Tick(traces: TraceBuffer<T>) returns (rows: seq<T>)
      modifies this
      ensures rows == NewRows(traces.buf, old(lastCount))
      ensures lastCount == |traces.buf|
    {
      var current := |traces.buf|;
      rows := if current > lastCount then traces.buf[lastCount..] else [];
      lastCount := current;
    }
  }

  function TraceRun<T>(capacity: nat, events: seq<TraceEvent<T>>): TraceState<T>
    requires capacity >= 1
  {
    if events == [] then TraceState([], 0, [])
    else
      var s := TraceRun(capacity, events[..|events| - 1]);
      match events[|events| - 1]
      case Record(e) => s.(entries := Stored(s.entries, capacity, e))
      case Sample => s.(lastCount := |s.entries|, emitted := s.emitted + NewRows(s.entries, s.lastCount))
  }

  function AllRecorded<T>(events: seq<TraceEvent<T>>): seq<T> {
    if events == [] then []
    else
      AllRecorded(events[..|events| - 1])
      + match events[|events| - 1]
        case Record(e) => [e]
        case Sample => []
  }

  ghost predicate TraceFacts<T>(s: TraceState<T>, all: seq<T>, capacity: nat) {
    && s.entries == TakeLast(all, capacity)
    && |s.emitted| == s.lastCount <= |s.entries|
    && (|all| <= capacity ==> s.emitted <= all)
  }

  lemma RecordKeepsFacts<T>(s: TraceState<T>, all: seq<T>, capacity: nat, e: T)
    requires capacity >= 1 && TraceFacts(s, all, capacity)
    ensures TraceFacts(s.(entries := Stored(s.entries, capacity, e)), all + [e], capacity)
  {
  }

  lemma SampleKeepsFacts<T>(s: TraceState<T>, all: seq<T>, capacity: nat)
    requires capacity >= 1 && TraceFacts(s, all, capacity)
    ensures TraceFacts(s.(lastCount := |s.entries|, emitted := s.emitted + NewRows(s.entries, s.lastCount)), all, capacity)
  {
  }

  lemma {:induction false} TraceInv<T>(capacity: nat, events: seq<TraceEvent<T>>)
    requires capacity >= 1
    ensures TraceFacts(TraceRun(capacity, events), AllRecorded(events), capacity)
  {
    if events != [] {
      var front := events[..|events| - 1];
      TraceInv(capacity, front);
      match events[|events| - 1]
      case Record(e) => RecordKeepsFacts(TraceRun(capacity, front), AllRecorded(front), capacity, e);
      case Sample => SampleKeepsFacts(TraceRun(capacity, front), AllRecorded(front), capacity);
    }
  }

  /** A sampled trace stream is complete exactly while no more than `capacity`
      requests were ever recorded; the cursor is a length, so once the buffer is
      full nothing more is sent. */
  lemma TraceCompleteIffNeverFull<T>(capacity: nat, events: seq<TraceEvent<T>>)
    requires capacity >= 1
    ensures TraceRun(capacity, events + [Sample]).emitted == AllRecorded(events) <==> |AllRecorded(events)| <= capacity
  {
    var s := TraceRun(capacity, events);
    TraceInv(capacity, events);
    TraceInv(capacity, events + [Sample]);
    assert (events + [Sample])[..|events|] == events;
    if |AllRecorded(events)| <= capacity {
      assert s.emitted == s.entries[..s.lastCount];
      assert s.entries == s.entries[..s.lastCount] + s.entries[s.lastCount..];
    }
  }

  /** Room for one: the second request is recorded and never sent. */
  lemma SecondTraceIsNeverSent()
    ensures TraceRun(1, [TraceEvent.Record(1), Sample, TraceEvent.Record(2), Sample]).entries == [2]
    ensures TraceRun(1, [TraceEvent.Record(1), Sample, TraceEvent.Record(2), Sample]).emitted == [1]
  {
    var events := [TraceEvent.Record(1), Sample, TraceEvent.Record(2), Sample];
    assert events[..3] == [TraceEvent.Record(1), Sample, TraceEvent.Record(2)];
    assert events[..3][..2] == [TraceEvent.Record(1), Sample];
    assert events[..3][..2][..1] == [TraceEvent.Record(1)];
    assert events[..3][..2][..1][..0] == [];
    assert TraceRun(1, events[..3][..2][..1]).entries == [1];
    assert TraceRun(1, events[..3][..2]).emitted == [1];
    assert TraceRun(1, events[..3]) == TraceState([2], 1, [1]);
  }

  // ---------------------------------------------------------------------
  // Bean counters
  // ---------------------------------------------------------------------

  type Counts = map<string, nat>

  function Updates(last: Counts, current: Counts): Counts {
    map name | name in current && !(name in last && last[name] == current[name]) :: current[name]
  }

  /** One tick: the new cursor, and the event; an empty set of updates sends
      nothing. */
  function BeansTick(last: Counts, current: Counts): (Counts, Option<Counts>) {
    (current, if Updates(last, current) == map[] then None else Some(Updates(last, current)))
  }

  class BeansCursor {
    var lastCounts: Counts

    constructor ()
      ensures lastCounts == map[]
    {
      lastCounts := map[];
    }

    method Tick(current: Counts) returns (event: Option<Counts>)
      modifies this
      ensures (lastCounts, event) == BeansTick(old(lastCounts), current)
      ensures lastCounts == current
      ensures event == if Updates(old(lastCounts), current) == map[] then None else Some(Updates(old(lastCounts), current))
    {
      var updates := Updates(lastCounts, current);
      lastCounts := current;
      event := if updates == map[] then None else Some(updates);
    }
  }

  /** The cursor of the stream, and the table of a client that patches it with the
      events it receives. */
  datatype BeansState = BeansState(lastCounts: Counts, client: Counts)

  function BeansRun(samples: seq<Counts>): BeansState {
    if samples == [] then BeansState(map[], map[])
    else
      var s := BeansRun(samples[..|samples| - 1]);
      var (cursor, event) := BeansTick(s.lastCounts, samples[|samples| - 1]);
      BeansState(cursor, if event.Some? then s.client + event.value else s.client)
  }

  ghost predicate NamesOnlyGrow(samples: seq<Counts>) {
    forall i | 0 < i < |samples| :: samples[i - 1].Keys <= samples[i].Keys
  }

  /** A row is sent exactly when its count is new or changed, with the current
      count; a tick without such a row sends nothing. */
  lemma OnlyChangesAreSent(last: Counts, current: Counts, name: string)
    ensures var event := BeansTick(last, current).1;
            && (event.Some? && name in event.value <==> name in current && (name !in last || last[name] != current[name]))
            && (event.Some? && name in event.value ==> event.value[name] == current[name])
            && (event.None? <==> forall k | k in current :: k in last && last[k] == current[k])
  {
    if BeansTick(last, current).1.Some? {
      var k :| k in Updates(last, current);
    } else {
      forall k | k in current ensures k in last && last[k] == current[k] {
        assert k !in Updates(last, current);
      }
    }
  }

  /** While no bean disappears the client's table is the latest sample, although
      only changed rows are sent. */
  lemma {:induction false} ClientFollowsSamples(samples: seq<Counts>)
    requires samples != [] && NamesOnlyGrow(samples)
    ensures BeansRun(samples).client == BeansRun(samples).lastCounts == samples[|samples| - 1]
  {
    var n := |samples| - 1;
    var before := BeansRun(samples[..n]);
    if n > 0 {
      ClientFollowsSamples(samples[..n]);
    } else {
      assert samples[..n] == [];
    }
    PatchExact(before.lastCounts, samples[n]);
    assert Updates(before.lastCounts, samples[n]) == map[] ==> before.client + map[] == before.client;
  }

  /** One patch reproduces the sample exactly when no name is gone from it. */
  lemma PatchExact(last: Counts, current: Counts)
    ensures last + Updates(last, current) == current <==> last.Keys <= current.Keys
  {
    assert (last + Updates(last, current)).Keys == last.Keys + current.Keys;
  }

  // ---------------------------------------------------------------------
  // Health
  // ---------------------------------------------------------------------

  /** One tick: the new cursor, and whether the status is sent. */
  function HealthTick(last: Option<string>, status: string): (Option<string>, bool) {
    (Some(status), last != Some(status))
  }

  class HealthCursor {
    var lastStatus: Option<string>

    constructor ()
      ensures lastStatus == None
    {
      lastStatus := None;
    }

    method Tick(status: string) returns (sent: bool)
      modifies this
      ensures (lastStatus, sent) == HealthTick(old(lastStatus), status)
      ensures lastStatus == Some(status) && sent == (old(lastStatus) != Some(status))
    {
      sent := lastStatus != Some(status);
      lastStatus := Some(status);
    }
  }

  /** The cursor of the stream and the statuses sent for a list of samples. */
  datatype HealthState = HealthState(lastStatus: Option<string>, sent: seq<string>)

  function HealthRun(samples: seq<string>): HealthState {
    if samples == [] then HealthState(None, [])
    else
      var status := samples[|samples| - 1];
      var s := HealthRun(samples[..|samples| - 1]);
      var (cursor, sent) := HealthTick(s.lastStatus, status);
      HealthState(cursor, if sent then s.sent + [status] else s.sent)
  }

  /** The last status sent is always the current one, and no status is sent twice
      in a row. */
  lemma {:induction false} SentTracksSamples(samples: seq<string>)
    requires samples != []
    ensures var sent := HealthRun(samples).sent;
            && HealthRun(samples).lastStatus == Some(samples[|samples| - 1])
            && sent != [] && sent[|sent| - 1] == samples[|samples| - 1]
            && forall i | 0 < i < |sent| :: sent[i - 1] != sent[i]
  {
    var n := |samples| - 1;
    if n > 0 {
      SentTracksSamples(samples[..n]);
    } else {
      assert samples[..n] == [];
    }
  }
}
