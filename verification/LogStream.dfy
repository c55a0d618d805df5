/** Incremental delivery of log records: a ring buffer with monotonic ids and the
    cursor of the log stream over it. A push is one step (assigning the id and
    storing the record together). */
module LogStream {

  datatype Record = Record(id: nat, text: string)

  /** The last `n` elements. */
  function TakeLast<T>(s: seq<T>, n: nat): seq<T> {
    if |s| <= n then s else s[|s| - n..]
  }

  function After(records: seq<Record>, id: nat): seq<Record> {
    if records == [] then []
    else
      var n := |records| - 1;
      After(records[..n], id) + if records[n].id > id then [records[n]] else []
  }

  ghost predicate Ascending(records: seq<Record>) {
    forall i, j | 0 <= i < j < |records| :: records[i].id < records[j].id
  }

  /** What one push leaves: the oldest element goes when the buffer is full. */
  function Stored<T>(records: seq<T>, capacity: nat, r: T): seq<T>
    requires capacity >= 1
  {
    (if |records| == capacity then records[1..] else records) + [r]
  }

  // ---------------------------------------------------------------------
  // The objects
  // ---------------------------------------------------------------------

  class LogBuffer {
    const capacity: nat
    var counter: nat
    var records: seq<Record>

    ghost predicate Valid()
      reads this
    {
      && capacity >= 1 && |records| <= capacity && Ascending(records)
      && forall r | r in records :: 1 <= r.id <= counter
    }

    /** At least one record is kept. */
    constructor (capacity: nat)
      ensures Valid() && counter == 0 && records == []
      ensures this.capacity == if capacity == 0 then 1 else capacity
    {
      this.capacity := if capacity == 0 then 1 else capacity;
      counter, records := 0, [];
    }

    method Push(text: string)
      requires Valid()
      modifies this
      ensures Valid() && counter == old(counter) + 1
      ensures records == Stored(old(records), capacity, Record(counter, text))
    {
      counter := counter + 1;
      var id := counter;
      if |records| == capacity {
        records := records[1..];
      }
      records := records + [Record(id, text)];
    }

    method RecordsAfter(after: nat) returns (found: seq<Record>)
      ensures found == After(records, after)
    {
      found := [];
      for i := 0 to |records|
        invariant found == After(records[..i], after)
      {
        assert records[..i + 1][..i] == records[..i];
        if records[i].id > after {
          found := found + [records[i]];
        }
      }
      assert records[..|records|] == records;
    }

    /** The counter is not reset. */
    method Clear()
      requires Valid()
      modifies this`records
      ensures Valid() && records == []
    {
      records := [];
    }
  }

  /** The `scan` state of one subscriber. */
  class LogCursor {
    var lastId: nat

    constructor ()
      ensures lastId == 0
    {
      lastId := 0;
    }

    method Tick(logs: LogBuffer) returns (batch: seq<Record>)
      modifies this
      ensures batch == After(logs.records, old(lastId))
      ensures lastId == if batch == [] then old(lastId) else batch[|batch| - 1].id
    {
      batch := logs.RecordsAfter(lastId);
      if batch != [] {
        lastId := batch[|batch| - 1].id;
      }
    }
  }

  // ---------------------------------------------------------------------
  // Runs of pushes, clears and ticks
  // ---------------------------------------------------------------------

  datatype Happening = Push(text: string) | Clear | Tick

  datatype State = State(counter: nat, records: seq<Record>, lastId: nat, emitted: seq<Record>)

  function Step(s: State, capacity: nat, h: Happening): State
    requires capacity >= 1
  {
    match h
    case Push(text) => s.(counter := s.counter + 1, records := Stored(s.records, capacity, Record(s.counter + 1, text)))
    case Clear => s.(records := [])
    case Tick =>
      var batch := After(s.records, s.lastId);
      s.(lastId := if batch == [] then s.lastId else batch[|batch| - 1].id, emitted := s.emitted + batch)
  }

  function Run(capacity: nat, hs: seq<Happening>): State
    requires capacity >= 1
  {
    if hs == [] then State(0, [], 0, []) else Step(Run(capacity, hs[..|hs| - 1]), capacity, hs[|hs| - 1])
  }

  /** Every record ever pushed, in order. */
  function PushedAll(hs: seq<Happening>): seq<Record> {
    if hs == [] then []
    else
      var before := PushedAll(hs[..|hs| - 1]);
      match hs[|hs| - 1]
      case Push(text) => before + [Record(|before| + 1, text)]
      case _ => before
  }

  /** Those pushed since the last tick and the last clear. */
  function PushedSince(hs: seq<Happening>): seq<Record> {
    if hs == [] then []
    else
      match hs[|hs| - 1]
      case Push(text) => PushedSince(hs[..|hs| - 1]) + [Record(|PushedAll(hs[..|hs| - 1])| + 1, text)]
      case _ => []
  }

  ghost predicate Inv(s: State, capacity: nat) {
    && |s.records| <= capacity && Ascending(s.records) && s.lastId <= s.counter
    && forall i | 0 <= i < |s.records| :: 1 <= s.records[i].id <= s.counter
  }

  /** Any suffix that splits the buffer at the id is the answer. */
  lemma {:induction false} SuffixIsAfter(records: seq<Record>, id: nat, k: nat)
    requires k <= |records|
    requires forall i | 0 <= i < k :: records[i].id <= id
    requires forall i | k <= i < |records| :: records[i].id > id
    ensures After(records, id) == records[k..]
  {
    if records != [] {
      var n := |records| - 1;
      if k <= n {
        SuffixIsAfter(records[..n], id, k);
        assert records[k..] == records[..n][k..] + [records[n]];
      } else {
        SuffixIsAfter(records[..n], id, n);
      }
    }
  }

  lemma {:induction false} FindCut(records: seq<Record>, id: nat) returns (k: nat)
    requires Ascending(records)
    ensures k <= |records|
    ensures forall i | 0 <= i < k :: records[i].id <= id
    ensures forall i | k <= i < |records| :: records[i].id > id
  {
    k := |records|;
    if records != [] && records[|records| - 1].id > id {
      k := FindCut(records[..|records| - 1], id);
    }
  }

  /** In an ascending buffer the records after an id are a suffix. */
  lemma AfterIsSuffix(records: seq<Record>, id: nat)
    requires Ascending(records)
    ensures |After(records, id)| <= |records|
    ensures After(records, id) == records[|records| - |After(records, id)|..]
    ensures forall i | 0 <= i < |After(records, id)| :: After(records, id)[i].id > id
    ensures forall i | 0 <= i < |records| - |After(records, id)| :: records[i].id <= id
  {
    var k := FindCut(records, id);
    SuffixIsAfter(records, id, k);
  }

  lemma PushInv(s: State, capacity: nat, text: string)
    requires capacity >= 1 && Inv(s, capacity)
    ensures Inv(Step(s, capacity, Push(text)), capacity)
  {
  }

  lemma TickInv(s: State, capacity: nat)
    requires capacity >= 1 && Inv(s, capacity)
    ensures Inv(Step(s, capacity, Tick), capacity)
    ensures s.lastId <= Step(s, capacity, Tick).lastId
  {
    AfterIsSuffix(s.records, s.lastId);
  }

  lemma {:induction false} RunInv(capacity: nat, hs: seq<Happening>)
    requires capacity >= 1
    ensures Inv(Run(capacity, hs), capacity)
    ensures Run(capacity, hs).counter == |PushedAll(hs)|
  {
    if hs != [] {
      var s := Run(capacity, hs[..|hs| - 1]);
      RunInv(capacity, hs[..|hs| - 1]);
      match hs[|hs| - 1]
      case Push(text) => PushInv(s, capacity, text);
      case Clear =>
      case Tick => TickInv(s, capacity);
    }
  }

  /** `k` records are at or below the id; the buffer grows or loses its first. */
  lemma PushedSuffix(records: seq<Record>, capacity: nat, id: nat, k: nat, r: Record)
    requires capacity >= 1 && |records| <= capacity && k <= |records| && r.id > id
    requires forall i | 0 <= i < k :: records[i].id <= id
    requires forall i | k <= i < |records| :: records[i].id > id
    ensures After(Stored(records, capacity, r), id)
         == if |records| == capacity && k == 0 then records[1..] + [r] else records[k..] + [r]
  {
    var after := Stored(records, capacity, r);
    if |records| < capacity {
      SuffixIsAfter(after, id, k);
      assert after[k..] == records[k..] + [r];
    } else if k > 0 {
      SuffixIsAfter(after, id, k - 1);
      assert after[k - 1..] == records[k..] + [r];
    } else {
      SuffixIsAfter(after, id, 0);
    }
  }

  lemma TakeLastSnoc<T>(recent: seq<T>, capacity: nat, r: T)
    requires capacity >= 1
    ensures var kept := TakeLast(recent, capacity);
            TakeLast(recent + [r], capacity) == (if |kept| == capacity then kept[1..] else kept) + [r]
  {
  }

  lemma PushKeepsWindow(records: seq<Record>, capacity: nat, id: nat, recent: seq<Record>, r: Record)
    requires capacity >= 1 && |records| <= capacity && Ascending(records)
    requires After(records, id) == TakeLast(recent, capacity) && r.id > id
    ensures After(Stored(records, capacity, r), id) == TakeLast(recent + [r], capacity)
  {
    AfterIsSuffix(records, id);
    var kept := After(records, id);
    var k := |records| - |kept|;
    PushedSuffix(records, capacity, id, k, r);
    TakeLastSnoc(recent, capacity, r);
  }

  lemma TickEmptiesWindow(records: seq<Record>, id: nat)
    requires Ascending(records)
    ensures var batch := After(records, id);
            After(records, if batch == [] then id else batch[|batch| - 1].id) == []
  {
    var batch := After(records, id);
    AfterIsSuffix(records, id);
    if batch != [] {
      assert batch[|batch| - 1] == records[|records| - 1];
      SuffixIsAfter(records, batch[|batch| - 1].id, |records|);
    }
  }

  /** What the next tick will emit, in any run: the last `capacity` of the records
      pushed since the previous tick and the last clear. Nothing else in the
      history matters. */
  lemma {:induction false} WindowIsExact(capacity: nat, hs: seq<Happening>)
    requires capacity >= 1
    ensures var s := Run(capacity, hs);
            After(s.records, s.lastId) == TakeLast(PushedSince(hs), capacity)
  {
    if hs != [] {
      var front := hs[..|hs| - 1];
      var s := Run(capacity, front);
      WindowIsExact(capacity, front);
      RunInv(capacity, front);
      match hs[|hs| - 1]
      case Push(text) => PushKeepsWindow(s.records, capacity, s.lastId, PushedSince(front), Record(s.counter + 1, text));
      case Clear =>
      case Tick => TickEmptiesWindow(s.records, s.lastId);
    }
  }

  /** So the stream is a function of the history alone: each tick appends that
      window. */
  lemma TickEmits(capacity: nat, hs: seq<Happening>)
    requires capacity >= 1
    ensures Run(capacity, hs + [Tick]).emitted == Run(capacity, hs).emitted + TakeLast(PushedSince(hs), capacity)
  {
    assert (hs + [Tick])[..|hs|] == hs;
    WindowIsExact(capacity, hs);
  }

  /** Everything emitted is in id order and at or below the cursor. */
  ghost predicate SentBelow(emitted: seq<Record>, id: nat) {
    Ascending(emitted) && forall i | 0 <= i < |emitted| :: emitted[i].id <= id
  }

  lemma BatchAscends(s: State, capacity: nat)
    requires capacity >= 1 && Ascending(s.records) && SentBelow(s.emitted, s.lastId)
    ensures SentBelow(Step(s, capacity, Tick).emitted, Step(s, capacity, Tick).lastId)
  {
    AfterIsSuffix(s.records, s.lastId);
  }

  /** Emitted ids strictly increase over the whole stream, so no record is sent
      twice. */
  lemma {:induction false} EmittedAscending(capacity: nat, hs: seq<Happening>)
    requires capacity >= 1
    ensures SentBelow(Run(capacity, hs).emitted, Run(capacity, hs).lastId)
  {
    if hs != [] {
      var front := hs[..|hs| - 1];
      EmittedAscending(capacity, front);
      RunInv(capacity, front);
      if hs[|hs| - 1] == Tick {
        BatchAscends(Run(capacity, front), capacity);
      }
    }
  }

  /** No clear finds undelivered records and no tick comes after more than
      `capacity` new ones. */
  predicate Lossless(capacity: nat, hs: seq<Happening>) {
    hs == [] ||
    (&& Lossless(capacity, hs[..|hs| - 1])
     && match hs[|hs| - 1]
        case Push(_) => true
        case Clear => PushedSince(hs[..|hs| - 1]) == []
        case Tick => |PushedSince(hs[..|hs| - 1])| <= capacity)
  }

  /** What has been sent and what is pending never exceed what was pushed, and
      they are all of it exactly in the lossless runs. */
  lemma {:induction false} DeliveryIsComplete(capacity: nat, hs: seq<Happening>)
    requires capacity >= 1
    ensures |Run(capacity, hs).emitted| + |PushedSince(hs)| <= |PushedAll(hs)|
    ensures Lossless(capacity, hs) <==> |Run(capacity, hs).emitted| + |PushedSince(hs)| == |PushedAll(hs)|
    ensures Lossless(capacity, hs) ==> Run(capacity, hs).emitted + PushedSince(hs) == PushedAll(hs)
  {
    if hs != [] {
      var front := hs[..|hs| - 1];
      DeliveryIsComplete(capacity, front);
      WindowIsExact(capacity, front);
    }
  }

  /** At most `capacity` pushes between ticks and no clear: after a tick the
      emitted batches concatenate to exactly the pushed records. */
  lemma {:induction false} QuietRunsAreLossless(capacity: nat, hs: seq<Happening>)
    requires capacity >= 1 && Clear !in hs
    requires forall n | 0 <= n <= |hs| :: |PushedSince(hs[..n])| <= capacity
    ensures Lossless(capacity, hs)
    ensures Run(capacity, hs + [Tick]).emitted == PushedAll(hs)
  {
    LosslessUpTo(capacity, hs, |hs|);
    assert hs[..|hs|] == hs;
    DeliveryIsComplete(capacity, hs);
    TickEmits(capacity, hs);
  }

  lemma {:induction false} LosslessUpTo(capacity: nat, hs: seq<Happening>, n: nat)
    requires Clear !in hs && n <= |hs|
    requires forall m | 0 <= m <= |hs| :: |PushedSince(hs[..m])| <= capacity
    ensures Lossless(capacity, hs[..n])
  {
    if n > 0 {
      LosslessUpTo(capacity, hs, n - 1);
      assert hs[..n][..n - 1] == hs[..n - 1];
      assert |PushedSince(hs[..n - 1])| <= capacity;
      assert hs[n - 1] in hs;
    }
  }
}
