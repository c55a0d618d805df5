/** The primary-plus-secondary composite. The two stores are objects whose
    contents are the live entries; every call to a store comes with a fault that
    says whether the store answers, and, if it does not, whether the request had
    already taken effect. */
module FallbackCache {
  import opened Text

  type Contents = map<string, Bytes>

  datatype CacheError = NotFound | Codec(string) | Backend(string)

  datatype Result<+T> = Ok(value: T) | Err(error: CacheError)

  /** `Applied` tells whether a failing request changed the store first. */
  datatype Fault = Up | Down(error: CacheError, applied: bool)

  /** Every error but the miss signal counts as a transport failure. */
  predicate IsTransport(e: CacheError) {
    e != NotFound
  }

  /** A store that fails reports a transport error, never the miss signal. */
  predicate Sane(f: Fault) {
    f.Down? ==> IsTransport(f.error)
  }

  // ---------------------------------------------------------------------
  // One store, as one map
  // ---------------------------------------------------------------------

  datatype Op =
    | Get(key: string)
    | Set(key: string, value: Bytes)
    | SetIfAbsent(key: string, value: Bytes)
    | Delete(key: string)
    | Clear
    | Exists(key: string)
    | DeletePrefix(prefix: string)

  datatype Reply = Value(bytes: Bytes) | Done | Flag(flag: bool) | Count(n: nat)

  function MapAfter(c: Contents, op: Op): Contents {
    match op
    case Set(key, value) => c[key := value]
    case SetIfAbsent(key, value) => if key in c then c else c[key := value]
    case Delete(key) => c - {key}
    case Clear => map[]
    case DeletePrefix(prefix) => c - PrefixKeys(c, prefix)
    case _ => c
  }

  function MapReply(c: Contents, op: Op): Result<Reply> {
    match op
    case Get(key) => if key in c then Ok(Value(c[key])) else Err(NotFound)
    case SetIfAbsent(key, _) => Ok(Flag(key !in c))
    case Exists(key) => Ok(Flag(key in c))
    case DeletePrefix(prefix) => Ok(Count(|PrefixKeys(c, prefix)|))
    case _ => Ok(Done)
  }

  function StoreAfter(c: Contents, op: Op, f: Fault): Contents {
    if f.Up? || f.applied then MapAfter(c, op) else c
  }

  function StoreReply(c: Contents, op: Op, f: Fault): Result<Reply> {
    if f.Up? then MapReply(c, op) else Err(f.error)
  }

  class Store {
    var data: Contents

    constructor (initial: Contents)
      ensures data == initial
    {
      data := initial;
    }

    method Call(op: Op, f: Fault) returns (r: Result<Reply>)
      modifies this
      ensures data == StoreAfter(old(data), op, f)
      ensures r == StoreReply(old(data), op, f)
    {
      r := StoreReply(data, op, f);
      data := StoreAfter(data, op, f);
    }
  }

  // ---------------------------------------------------------------------
  // The composite
  // ---------------------------------------------------------------------

  /** `Consulted` says whether the composite goes on to its secondary after the
      primary's reply. */
  predicate Consulted(op: Op, r: Result<Reply>) {
    match op
    case Get(_) => r.Err?
    case Exists(_) => (r.Ok? && r.value != Flag(true)) || (r.Err? && IsTransport(r.error))
    case _ => r.Ok? || IsTransport(r.error)
  }

  function Combined(op: Op, first: Result<Reply>, second: Result<Reply>): Result<Reply> {
    if second.Err? then second
    else
      match op
      case SetIfAbsent(_, _) => Ok(Flag(first == Ok(Flag(true)) || second.value == Flag(true)))
      case DeletePrefix(_) =>
        if first.Ok? && first.value.Count? && second.value.Count? then Ok(Count(first.value.n + second.value.n)) else second
      case _ => second
  }

  datatype Pair = Pair(primary: Contents, secondary: Contents)

  /** Each operation drives the primary, then, unless its reply settles the
      call, the secondary. */
  function PairStep(p: Pair, op: Op, fp: Fault, fs: Fault): (Pair, Result<Reply>) {
    var first := StoreReply(p.primary, op, fp);
    var p1 := p.(primary := StoreAfter(p.primary, op, fp));
    if !Consulted(op, first) then (p1, first)
    else
      (p1.(secondary := StoreAfter(p.secondary, op, fs)), Combined(op, first, StoreReply(p.secondary, op, fs)))
  }

  class FallbackAdapter {
    const primary: Store
    const secondary: Store

    constructor (primary: Store, secondary: Store)
      ensures this.primary == primary && this.secondary == secondary
    {
      this.primary, this.secondary := primary, secondary;
    }

    ghost function View(): Pair
      reads primary, secondary
    {
      Pair(primary.data, secondary.data)
    }

    method Get(key: string, fp: Fault, fs: Fault) returns (r: Result<Reply>)
      requires primary != secondary
      modifies primary, secondary
      ensures (View(), r) == PairStep(old(View()), Op.Get(key), fp, fs)
    {
      r := primary.Call(Op.Get(key), fp);
      if r.Err? {
        if r.error != NotFound && !IsTransport(r.error) {
          return;
        }
        r := secondary.Call(Op.Get(key), fs);
      }
    }

    method Set(key: string, value: Bytes, fp: Fault, fs: Fault) returns (r: Result<Reply>)
      requires primary != secondary
      modifies primary, secondary
      ensures (View(), r) == PairStep(old(View()), Op.Set(key, value), fp, fs)
    {
      r := primary.Call(Op.Set(key, value), fp);
      if r.Err? && !IsTransport(r.error) {
        return;
      }
      r := secondary.Call(Op.Set(key, value), fs);
    }

    method Delete(key: string, fp: Fault, fs: Fault) returns (r: Result<Reply>)
      requires primary != secondary
      modifies primary, secondary
      ensures (View(), r) == PairStep(old(View()), Op.Delete(key), fp, fs)
    {
      r := primary.Call(Op.Delete(key), fp);
      if r.Err? && !IsTransport(r.error) {
        return;
      }
      r := secondary.Call(Op.Delete(key), fs);
    }

    method Clear(fp: Fault, fs: Fault) returns (r: Result<Reply>)
      requires primary != secondary
      modifies primary, secondary
      ensures (View(), r) == PairStep(old(View()), Op.Clear, fp, fs)
    {
      r := primary.Call(Op.Clear, fp);
      if r.Err? && !IsTransport(r.error) {
        return;
      }
      r := secondary.Call(Op.Clear, fs);
    }

    method SetIfAbsent(key: string, value: Bytes, fp: Fault, fs: Fault) returns (r: Result<Reply>)
      requires primary != secondary
      modifies primary, secondary
      ensures (View(), r) == PairStep(old(View()), Op.SetIfAbsent(key, value), fp, fs)
    {
      var first := primary.Call(Op.SetIfAbsent(key, value), fp);
      var stored := false;
      match first {
        case Ok(reply) => stored := reply == Flag(true);
        case Err(e) =>
          if !IsTransport(e) {
            return first;
          }
      }
      r := secondary.Call(Op.SetIfAbsent(key, value), fs);
      if r.Ok? {
        r := Ok(Flag(stored || r.value == Flag(true)));
      }
    }

    method Exists(key: string, fp: Fault, fs: Fault) returns (r: Result<Reply>)
      requires primary != secondary
      modifies primary, secondary
      ensures (View(), r) == PairStep(old(View()), Op.Exists(key), fp, fs)
    {
      r := primary.Call(Op.Exists(key), fp);
      match r {
        case Ok(reply) =>
          if reply == Flag(true) {
            return;
          }
        case Err(e) =>
          if !IsTransport(e) {
            return;
          }
      }
      r := secondary.Call(Op.Exists(key), fs);
    }

    method DeletePrefix(prefix: string, fp: Fault, fs: Fault) returns (r: Result<Reply>)
      requires primary != secondary
      modifies primary, secondary
      ensures (View(), r) == PairStep(old(View()), Op.DeletePrefix(prefix), fp, fs)
    {
      var first := primary.Call(Op.DeletePrefix(prefix), fp);
      var removed := 0;
      match first {
        case Ok(reply) => removed := reply.n;
        case Err(e) =>
          if !IsTransport(e) {
            return first;
          }
      }
      r := secondary.Call(Op.DeletePrefix(prefix), fs);
      if r.Ok? {
        r := Ok(Count(removed + r.value.n));
      }
    }
  }

  // ---------------------------------------------------------------------
  // Reads: the primary laid over the secondary
  // ---------------------------------------------------------------------

  /** What a reader sees: with a silent primary the secondary alone. */
  function Overlay(p: Pair, fp: Fault): Contents {
    if fp.Up? then p.secondary + p.primary else p.secondary
  }

  /** The branch for an unknown error class is never taken: whatever the primary
      fails with, the miss signal included, a read is the secondary's answer. */
  lemma EveryPrimaryErrorDemotes(p: Pair, key: string, error: CacheError, applied: bool, fs: Fault)
    ensures PairStep(p, Get(key), Down(error, applied), fs).1 == StoreReply(p.secondary, Get(key), fs)
  {
  }

  /** Under any pattern of failures a read is a read of the overlay
      map; with both stores silent it is the secondary's error. */
  lemma GetReadsOverlay(p: Pair, key: string, fp: Fault, fs: Fault)
    ensures var (p', r) := PairStep(p, Get(key), fp, fs);
            p' == p && r == if fs.Up? || (fp.Up? && key in p.primary) then MapReply(Overlay(p, fp), Get(key)) else Err(fs.error)
  {
  }

  predicate SaysNotFound(f: Fault) {
    f.Down? && f.error == NotFound
  }

  /** `exists` answers as `get` does (true when `get` finds a value, false when it
      misses, the same error otherwise) exactly when no store it asks answers
      `exists` with the miss signal. */
  lemma ExistsAgreesWithGet(p: Pair, key: string, fp: Fault, fs: Fault)
    ensures PairStep(p, Exists(key), fp, fs).1
         == (match PairStep(p, Get(key), fp, fs).1
             case Ok(_) => Ok(Flag(true))
             case Err(e) => if e == NotFound then Ok(Flag(false)) else Err(e))
       <==> !SaysNotFound(fp) && (SaysNotFound(fs) ==> fp.Up? && key in p.primary)
  {
  }

  // ---------------------------------------------------------------------
  // Writes: what the caller is told
  // ---------------------------------------------------------------------

  /** `set`, `delete` and `clear` answer as the secondary does, whatever transport
      error the primary has. */
  lemma WritesAnswerAsSecondary(p: Pair, op: Op, fp: Fault, fs: Fault)
    requires Sane(fp) && (op.Set? || op.Delete? || op.Clear?)
    ensures PairStep(p, op, fp, fs).1 == if fs.Down? then Err(fs.error) else Ok(Done)
  {
  }

  /** `set_if_absent` fails with the secondary; otherwise it is told fresh when the
      secondary lacked the key, or the primary answered and lacked it. */
  lemma ConditionalWriteReply(p: Pair, key: string, value: Bytes, fp: Fault, fs: Fault)
    requires Sane(fp)
    ensures PairStep(p, SetIfAbsent(key, value), fp, fs).1
         == if fs.Down? then Err(fs.error) else Ok(Flag((fp.Up? && key !in p.primary) || key !in p.secondary))
  {
  }

  /** `delete_prefix` fails with the secondary; otherwise it counts the keys both
      had, or the secondary alone when the primary does not answer. */
  lemma DeletePrefixReply(p: Pair, prefix: string, fp: Fault, fs: Fault)
    requires Sane(fp)
    ensures var n1 := |set k | k in p.primary && |prefix| <= |k| && k[..|prefix|] == prefix|;
            var n2 := |set k | k in p.secondary && |prefix| <= |k| && k[..|prefix|] == prefix|;
            PairStep(p, DeletePrefix(prefix), fp, fs).1
            == if fs.Down? then Err(fs.error) else Ok(Count((if fp.Up? then n1 else 0) + n2))
  {
    assert PrefixKeys(p.primary, prefix) == set k | k in p.primary && |prefix| <= |k| && k[..|prefix|] == prefix;
    assert PrefixKeys(p.secondary, prefix) == set k | k in p.secondary && |prefix| <= |k| && k[..|prefix|] == prefix;
  }

  /** A primary that fails a write with the miss signal ends the call there: its
      error is the answer and the secondary is not asked. */
  lemma MissSignalEndsWrite(p: Pair, op: Op, applied: bool, fs: Fault)
    requires !op.Get? && !op.Exists?
    ensures var (q, r) := PairStep(p, op, Down(NotFound, applied), fs);
            r == Err(NotFound) && q.secondary == p.secondary
  {
  }

  // ---------------------------------------------------------------------
  // Runs with both stores answering
  // ---------------------------------------------------------------------

  function RunPair(p: Pair, ops: seq<Op>): (Pair, seq<Result<Reply>>) {
    if ops == [] then (p, [])
    else
      var (p1, replies) := RunPair(p, ops[..|ops| - 1]);
      var (p2, reply) := PairStep(p1, ops[|ops| - 1], Up, Up);
      (p2, replies + [reply])
  }

  function RunMap(c: Contents, ops: seq<Op>): (Contents, seq<Result<Reply>>) {
    if ops == [] then (c, [])
    else
      var (c1, replies) := RunMap(c, ops[..|ops| - 1]);
      (MapAfter(c1, ops[|ops| - 1]), replies + [MapReply(c1, ops[|ops| - 1])])
  }

  /** The reply of one map, as the composite gives it: the prefix count doubles. */
  function Doubled(op: Op, r: Result<Reply>): Result<Reply> {
    if op.DeletePrefix? && r.Ok? && r.value.Count? then Ok(Count(2 * r.value.n)) else r
  }

  /** From agreeing stores that both answer, the pair stays in agreement and
      acts as one map through any sequence of operations, except that
      `delete_prefix` reports twice the count. */
  lemma {:induction false} AgreeingPairIsOneMap(c: Contents, ops: seq<Op>)
    ensures var (p, replies) := RunPair(Pair(c, c), ops);
            var (c', replies') := RunMap(c, ops);
            && p == Pair(c', c')
            && |replies| == |replies'| == |ops|
            && forall i | 0 <= i < |ops| :: replies[i] == Doubled(ops[i], replies'[i])
  {
    if ops != [] {
      AgreeingPairIsOneMap(c, ops[..|ops| - 1]);
    }
  }

  // ---------------------------------------------------------------------
  // What outages cost
  // ---------------------------------------------------------------------

  /** A written value is read back from the composite exactly when the read
      reaches it: the primary took the write, or does not answer the read, or
      does not hold an older value of its own. */
  lemma ReadYourWrite(p: Pair, key: string, value: Bytes, fp: Fault, fp': Fault)
    requires Sane(fp) && Sane(fp')
    ensures var p1 := PairStep(p, Set(key, value), fp, Up).0;
            PairStep(p1, Get(key), fp', Up).1 == Ok(Value(value))
            <==> fp.Up? || fp.applied || fp'.Down? || key !in p.primary || p.primary[key] == value
  {
  }

  /** `set_if_absent` reports a fresh write unless both stores hold the key, so
      it decides like one map exactly when the stores agree on the key. */
  lemma ConditionalWriteExclusive(p: Pair, key: string, value: Bytes)
    ensures PairStep(p, SetIfAbsent(key, value), Up, Up).1 == Ok(Flag(!(key in p.primary && key in p.secondary)))
    ensures PairStep(p, SetIfAbsent(key, value), Up, Up).1 == MapReply(Overlay(p, Up), SetIfAbsent(key, value))
       <==> (key in p.primary <==> key in p.secondary)
  {
  }

  /** One write or delete of a key with both stores answering makes them agree
      on that key again, whatever was missed before. */
  lemma WriteHealsKey(p: Pair, op: Op, key: string)
    requires (op.Set? || op.Delete?) && op.key == key
    ensures var p' := PairStep(p, op, Up, Up).0;
            (key in p'.primary <==> key in p'.secondary) && (key in p'.primary ==> p'.primary[key] == p'.secondary[key])
  {
  }

  datatype Faulted = Faulted(op: Op, fault: Fault)

  /** A run in which the secondary answers and the primary does as it likes. */
  function RunFaulty(p: Pair, calls: seq<Faulted>): Pair {
    if calls == [] then p
    else PairStep(RunFaulty(p, calls[..|calls| - 1]), calls[|calls| - 1].op, calls[|calls| - 1].fault, Up).0
  }

  function Ops(calls: seq<Faulted>): (ops: seq<Op>)
    ensures |ops| == |calls|
    ensures forall i | 0 <= i < |calls| :: ops[i] == calls[i].op
  {
    seq(|calls|, i requires 0 <= i < |calls| => calls[i].op)
  }

  /** Whatever the primary missed, half did or refused, the secondary holds the
      map all operations so far amount to. */
  lemma {:induction false} SecondaryIsTheMap(p: Pair, calls: seq<Faulted>)
    requires forall i | 0 <= i < |calls| :: Sane(calls[i].fault)
    ensures RunFaulty(p, calls).secondary == RunMap(p.secondary, Ops(calls)).0
  {
    if calls != [] {
      var n := |calls| - 1;
      SecondaryIsTheMap(p, calls[..n]);
      assert Ops(calls)[..n] == Ops(calls[..n]);
    }
  }

  /** After any such run a read gives the up-to-date answer exactly when the
      primary does not answer, or does not hold the key, or holds the current
      value: only an entry kept from before an outage can be served stale. */
  lemma ReadIsCurrentUnlessPrimaryStale(p: Pair, calls: seq<Faulted>, key: string, fault: Fault)
    requires forall i | 0 <= i < |calls| :: Sane(calls[i].fault)
    ensures var q, current := RunFaulty(p, calls), RunMap(p.secondary, Ops(calls)).0;
            PairStep(q, Get(key), fault, Up).1 == MapReply(current, Get(key))
            <==> fault.Down? || key !in q.primary || (key in current && q.primary[key] == current[key])
  {
    SecondaryIsTheMap(p, calls);
  }

  function At(c: Contents, key: string): Option<Bytes> {
    if key in c then Some(c[key]) else None
  }

  /** What an operation does to the value of one key. */
  function KeyAfter(v: Option<Bytes>, op: Op, key: string): Option<Bytes> {
    match op
    case Set(k, value) => if k == key then Some(value) else v
    case SetIfAbsent(k, value) => if k == key && v.None? then Some(value) else v
    case Delete(k) => if k == key then None else v
    case Clear => None
    case DeletePrefix(prefix) => if StartsWith(key, prefix) then None else v
    case _ => v
  }

  /** The primary carried out the request, answered or not. */
  predicate Taken(f: Fault) {
    f.Up? || f.applied
  }

  /** The value of one key after the calls of a run that the primary took, or
      after all of them. */
  function KeyHistory(v: Option<Bytes>, calls: seq<Faulted>, key: string, takenOnly: bool): Option<Bytes> {
    if calls == [] then v
    else
      var n := |calls| - 1;
      var before := KeyHistory(v, calls[..n], key, takenOnly);
      if takenOnly && !Taken(calls[n].fault) then before else KeyAfter(before, calls[n].op, key)
  }

  lemma MapAfterAt(c: Contents, op: Op, key: string)
    ensures At(MapAfter(c, op), key) == KeyAfter(At(c, key), op, key)
  {
  }

  lemma {:induction false} HistoryIsContents(p: Pair, calls: seq<Faulted>, key: string)
    requires forall i | 0 <= i < |calls| :: Sane(calls[i].fault)
    ensures At(RunFaulty(p, calls).primary, key) == KeyHistory(At(p.primary, key), calls, key, true)
    ensures At(RunFaulty(p, calls).secondary, key) == KeyHistory(At(p.secondary, key), calls, key, false)
  {
    if calls != [] {
      var n := |calls| - 1;
      HistoryIsContents(p, calls[..n], key);
      MapAfterAt(RunFaulty(p, calls[..n]).primary, calls[n].op, key);
      MapAfterAt(RunFaulty(p, calls[..n]).secondary, calls[n].op, key);
    }
  }

  /** From the history alone, conditional writes included: a read is current
      exactly when the primary does not answer it, or the calls the primary took
      leave it without the key or with the value that all calls leave. */
  lemma ReadIsCurrentIff(p: Pair, calls: seq<Faulted>, key: string, fault: Fault)
    requires forall i | 0 <= i < |calls| :: Sane(calls[i].fault)
    ensures var taken := KeyHistory(At(p.primary, key), calls, key, true);
            var all := KeyHistory(At(p.secondary, key), calls, key, false);
            PairStep(RunFaulty(p, calls), Get(key), fault, Up).1 == MapReply(RunMap(p.secondary, Ops(calls)).0, Get(key))
            <==> fault.Down? || taken == None || taken == all
  {
    SecondaryIsTheMap(p, calls);
    HistoryIsContents(p, calls, key);
  }

  /** A call with the fate of its request at either store. */
  datatype TwiceFaulted = TwiceFaulted(op: Op, first: Fault, second: Fault)

  function RunTwiceFaulty(p: Pair, calls: seq<TwiceFaulted>): Pair {
    if calls == [] then p
    else
      var n := |calls| - 1;
      PairStep(RunTwiceFaulty(p, calls[..n]), calls[n].op, calls[n].first, calls[n].second).0
  }

  /** The run as the primary saw it, and as the secondary did. */
  function First(calls: seq<TwiceFaulted>): (r: seq<Faulted>)
    ensures |r| == |calls|
    ensures forall i | 0 <= i < |calls| :: r[i] == Faulted(calls[i].op, calls[i].first)
  {
    seq(|calls|, i requires 0 <= i < |calls| => Faulted(calls[i].op, calls[i].first))
  }

  function Second(calls: seq<TwiceFaulted>): (r: seq<Faulted>)
    ensures |r| == |calls|
    ensures forall i | 0 <= i < |calls| :: r[i] == Faulted(calls[i].op, calls[i].second)
  {
    seq(|calls|, i requires 0 <= i < |calls| => Faulted(calls[i].op, calls[i].second))
  }

  /** One call, seen at one key: each store is changed exactly when it takes the
      call. */
  lemma StepAt(p: Pair, c: TwiceFaulted, key: string)
    requires Sane(c.first)
    ensures var q := PairStep(p, c.op, c.first, c.second).0;
            && At(q.primary, key) == (if Taken(c.first) then KeyAfter(At(p.primary, key), c.op, key) else At(p.primary, key))
            && At(q.secondary, key) == (if Taken(c.second) then KeyAfter(At(p.secondary, key), c.op, key) else At(p.secondary, key))
  {
    MapAfterAt(p.primary, c.op, key);
    MapAfterAt(p.secondary, c.op, key);
  }

  /** Each store holds, key by key, what the calls it took amount to, however
      either of them fails. */
  lemma {:induction false} StoresHoldTheirHistories(p: Pair, calls: seq<TwiceFaulted>, key: string)
    requires forall i | 0 <= i < |calls| :: Sane(calls[i].first)
    ensures At(RunTwiceFaulty(p, calls).primary, key) == KeyHistory(At(p.primary, key), First(calls), key, true)
    ensures At(RunTwiceFaulty(p, calls).secondary, key) == KeyHistory(At(p.secondary, key), Second(calls), key, true)
  {
    if calls != [] {
      var n := |calls| - 1;
      StoresHoldTheirHistories(p, calls[..n], key);
      StepAt(RunTwiceFaulty(p, calls[..n]), calls[n], key);
      assert First(calls)[..n] == First(calls[..n]) && Second(calls)[..n] == Second(calls[..n]);
    }
  }

  /** The answer of one map that holds `v` under the key. */
  function KeyReply(v: Option<Bytes>): Result<Reply> {
    if v.Some? then Ok(Value(v.value)) else Err(NotFound)
  }

  /** With faults on both sides: a read that the secondary would answer gives the
      value all calls leave exactly when the store it comes to rest on has it: the
      primary if it answers with a value, else the secondary. */
  lemma TwiceFaultyReadIsCurrentIff(p: Pair, calls: seq<TwiceFaulted>, key: string, fault: Fault)
    requires forall i | 0 <= i < |calls| :: Sane(calls[i].first)
    ensures var mine := KeyHistory(At(p.primary, key), First(calls), key, true);
            var other := KeyHistory(At(p.secondary, key), Second(calls), key, true);
            var all := KeyHistory(At(p.secondary, key), Second(calls), key, false);
            PairStep(RunTwiceFaulty(p, calls), Get(key), fault, Up).1 == KeyReply(all)
            <==> (if fault.Up? && mine.Some? then mine else other) == all
  {
    StoresHoldTheirHistories(p, calls, key);
  }

  /** Two overlapping writes of one key reach each store in some order. */
  function Overlapped(p: Pair, key: string, a: Bytes, b: Bytes, primaryAFirst: bool, secondaryAFirst: bool): Pair {
    var (p1, p2) := if primaryAFirst then (a, b) else (b, a);
    var (s1, s2) := if secondaryAFirst then (a, b) else (b, a);
    Pair(MapAfter(MapAfter(p.primary, Set(key, p1)), Set(key, p2)),
         MapAfter(MapAfter(p.secondary, Set(key, s1)), Set(key, s2)))
  }

  /** They leave the stores in agreement exactly when both stores saw the same
      order, or the values are equal; with both stores up all the while. */
  lemma OverlappedWritesAgreeIff(p: Pair, key: string, a: Bytes, b: Bytes, primaryAFirst: bool, secondaryAFirst: bool)
    ensures var q := Overlapped(p, key, a, b, primaryAFirst, secondaryAFirst);
            At(q.primary, key) == At(q.secondary, key) <==> primaryAFirst == secondaryAFirst || a == b
  {
  }

  /** Where staleness starts. From a key that is not stale, one call leaves it so
      exactly when: the primary missed the call and keeps no value, or one that is
      current all the same; or the primary took the call, and it was not a
      conditional write that only the primary carried out with a value other than
      the secondary's. */
  lemma StalenessStartsIff(p: Pair, call: Faulted, key: string)
    requires NotStale(p, key) && Sane(call.fault)
    ensures NotStale(PairStep(p, call.op, call.fault, Up).0, key)
       <==> if Taken(call.fault)
            then !(call.op.SetIfAbsent? && call.op.key == key && key !in p.primary
                   && key in p.secondary && p.secondary[key] != call.op.value)
            else key !in p.primary || KeyAfter(At(p.secondary, key), call.op, key) == Some(p.primary[key])
  {
    MapAfterAt(p.primary, call.op, key);
    MapAfterAt(p.secondary, call.op, key);
  }

  /** A store without the key or with the current value of it. */
  ghost predicate NotStale(p: Pair, key: string) {
    key in p.primary ==> key in p.secondary && p.primary[key] == p.secondary[key]
  }

  /** Over runs: a key does not become stale through calls the primary took,
      conditional writes of that key aside. */
  lemma {:induction false} NoMissedCallNoStaleRead(p: Pair, calls: seq<Faulted>, key: string)
    requires NotStale(p, key)
    requires forall i | 0 <= i < |calls| :: Sane(calls[i].fault) && (calls[i].fault.Up? || calls[i].fault.applied) && !(calls[i].op.SetIfAbsent? && calls[i].op.key == key)
    ensures NotStale(RunFaulty(p, calls), key)
  {
    if calls != [] {
      NoMissedCallNoStaleRead(p, calls[..|calls| - 1], key);
    }
  }
}
