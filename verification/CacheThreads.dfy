/** The cache under many threads. A thread that calls `get`, `set` or
    `set_if_absent` first draws its access stamp and only later enters its
    section under the lock, so sections may run out of stamp order. A sequential
    run is the interleaving in which each call finishes before the next draws. */
module CacheThreads {
  import opened Text
  import opened MemoryCache
  import opened LruOrder

  datatype Pc = Waiting | Drawn(stamp: nat) | Returned(reply: Reply)

  datatype Thread = Thread(op: Op, pc: Pc)

  /** What the calls so far amount to: entries added, entries dropped by
      `clear`, and `get` calls. */
  datatype Ledger = Ledger(added: nat, cleared: nat, gets: nat)

  datatype State = State(mem: Mem, counter: nat, threads: seq<Thread>, ledger: Ledger)

  function Booked(ledger: Ledger, m: Mem, op: Op, reply: Reply): Ledger {
    match op
    case Get(_) => ledger.(gets := ledger.gets + 1)
    case Set(key, _, _) => if key in m.entries then ledger else ledger.(added := ledger.added + 1)
    case SetIfAbsent(_, _, _) => if reply == Answer(true) then ledger.(added := ledger.added + 1) else ledger
    case Clear => ledger.(cleared := ledger.cleared + |m.entries|)
    case _ => ledger
  }

  ghost predicate Draws(s: State, s': State, i: nat) {
    && i < |s.threads|
    && s.threads[i].pc == Waiting && Stamps(s.threads[i].op)
    && s' == s.(counter := s.counter + 1, threads := s.threads[i := s.threads[i].(pc := Drawn(s.counter))])
  }

  /** The section under the lock; `now` is whatever the clock shows. */
  ghost predicate Runs(s: State, s': State, max: Option<nat>, i: nat, now: nat) {
    && i < |s.threads|
    && var t := s.threads[i];
       && (if Stamps(t.op) then t.pc.Drawn? else t.pc == Waiting)
       && var (mem, reply) := Locked(s.mem, max, t.op, if t.pc.Drawn? then t.pc.stamp else 0, now);
          s' == s.(mem := mem, threads := s.threads[i := t.(pc := Returned(reply))], ledger := Booked(s.ledger, s.mem, t.op, reply))
  }

  ghost predicate Step(s: State, s': State, max: Option<nat>) {
    (exists i: nat :: Draws(s, s', i)) || (exists i: nat, now: nat :: Runs(s, s', max, i, now))
  }

  ghost predicate Init(s: State) {
    && s.mem == Mem(map[], 0, 0, 0) && s.counter == 0 && s.ledger == Ledger(0, 0, 0)
    && forall i | 0 <= i < |s.threads| :: s.threads[i].pc == Waiting
  }

  ghost predicate IsRun(run: seq<State>, max: Option<nat>) {
    run != [] && Init(run[0]) && forall n | 0 <= n < |run| - 1 :: Step(run[n], run[n + 1], max)
  }

  /** A usable bound is positive: a bound of zero is none. */
  ghost predicate ProperBound(max: Option<nat>) {
    max.Some? ==> max.value > 0
  }

  // ---------------------------------------------------------------------
  // The invariant
  // ---------------------------------------------------------------------

  ghost predicate WithinBound(m: Mem, max: Option<nat>) {
    max.Some? ==> |m.entries| <= max.value
  }

  /** No entry carries the stamp. */
  ghost predicate Unused(entries: map<string, Entry>, stamp: nat) {
    forall k | k in entries :: entries[k].lastAccess != stamp
  }

  ghost predicate PendingStamps(s: State) {
    && (forall i | 0 <= i < |s.threads| && s.threads[i].pc.Drawn? ::
          s.threads[i].pc.stamp < s.counter && Unused(s.mem.entries, s.threads[i].pc.stamp))
    && (forall i, j | 0 <= i < j < |s.threads| && s.threads[i].pc.Drawn? && s.threads[j].pc.Drawn? ::
          s.threads[i].pc.stamp != s.threads[j].pc.stamp)
  }

  /** Everything that was ever added is still there, or was evicted, or was
      cleared; every read was a hit or a miss. */
  ghost predicate Balanced(m: Mem, ledger: Ledger) {
    && ledger.added == |m.entries| + m.evictions + ledger.cleared
    && ledger.gets == m.hits + m.misses
  }

  ghost predicate Inv(s: State, max: Option<nat>) {
    && DistinctStamps(s.mem.entries)
    && StampsBelow(s.mem.entries, s.counter)
    && PendingStamps(s)
    && WithinBound(s.mem, max)
    && Balanced(s.mem, s.ledger)
  }

  /** Where the stamps of `entries'` come from: kept entries, or `stamp`. */
  ghost predicate StampsFrom(entries': map<string, Entry>, entries: map<string, Entry>, stamp: nat) {
    && DistinctStamps(entries')
    && forall k | k in entries' ::
         entries'[k].lastAccess == stamp || (k in entries && entries'[k].lastAccess == entries[k].lastAccess)
  }

  lemma SetKeepsStamps(m: Mem, max: Option<nat>, key: string, value: Bytes, exp: Option<nat>, stamp: nat)
    requires DistinctStamps(m.entries) && Unused(m.entries, stamp)
    ensures StampsFrom(SetLocked(m, max, key, value, exp, stamp).entries, m.entries, stamp)
    ensures WithinBound(SetLocked(m, max, key, value, exp, stamp), max)
  {
    BoundedFacts(m.(entries := m.entries[key := Entry(value, exp, stamp)]), max);
  }

  /** Only removals. */
  ghost predicate Shrinks(m': Mem, m: Mem) {
    && m'.entries.Keys <= m.entries.Keys
    && forall k | k in m'.entries :: m'.entries[k] == m.entries[k]
  }

  lemma ShrinkingKeepsStamps(m': Mem, m: Mem, max: Option<nat>, stamp: nat)
    requires DistinctStamps(m.entries) && WithinBound(m, max) && Shrinks(m', m)
    ensures WithinBound(m', max) && StampsFrom(m'.entries, m.entries, stamp)
  {
    SubsetSize(m'.entries.Keys, m.entries.Keys);
  }

  lemma OthersShrink(m: Mem, max: Option<nat>, op: Op, stamp: nat, now: nat)
    requires !Stamps(op)
    ensures Shrinks(Locked(m, max, op, stamp, now).0, m)
  {
  }

  lemma GetKeepsStamps(m: Mem, max: Option<nat>, key: string, stamp: nat, now: nat)
    requires DistinctStamps(m.entries) && WithinBound(m, max) && Unused(m.entries, stamp)
    ensures var m' := GetLocked(m, key, stamp, now).0;
            WithinBound(m', max) && StampsFrom(m'.entries, m.entries, stamp)
  {
    var m' := GetLocked(m, key, stamp, now).0;
    SubsetSize(m'.entries.Keys, m.entries.Keys);
  }

  lemma LockedKeepsStamps(m: Mem, max: Option<nat>, op: Op, stamp: nat, now: nat)
    requires DistinctStamps(m.entries) && WithinBound(m, max)
    requires Stamps(op) ==> Unused(m.entries, stamp)
    ensures WithinBound(Locked(m, max, op, stamp, now).0, max)
    ensures StampsFrom(Locked(m, max, op, stamp, now).0.entries, m.entries, stamp)
    ensures !Stamps(op) ==> Shrinks(Locked(m, max, op, stamp, now).0, m)
  {
    if op.Set? {
      SetKeepsStamps(m, max, op.key, op.value, Deadline(now, op.ttl), stamp);
    } else if op.SetIfAbsent? {
      SetKeepsStamps(m, max, op.key, op.value, Deadline(now, op.ttl), stamp);
      SetKeepsStamps(m.(evictions := m.evictions + 1), max, op.key, op.value, Deadline(now, op.ttl), stamp);
    } else if op.Get? {
      GetKeepsStamps(m, max, op.key, stamp, now);
    } else {
      OthersShrink(m, max, op, stamp, now);
      ShrinkingKeepsStamps(Locked(m, max, op, stamp, now).0, m, max, stamp);
    }
  }

  lemma RemoveSize(entries: map<string, Entry>, keys: set<string>)
    requires keys <= entries.Keys
    ensures |entries - keys| == |entries| - |keys|
  {
    assert (entries - keys).Keys == entries.Keys - keys;
  }

  lemma SetKeepsBalance(m: Mem, max: Option<nat>, key: string, value: Bytes, exp: Option<nat>, stamp: nat)
    ensures var m' := SetLocked(m, max, key, value, exp, stamp);
            && m'.hits == m.hits && m'.misses == m.misses
            && |m'.entries| + m'.evictions == |m.entries| + m.evictions + if key in m.entries then 0 else 1
  {
    var written := m.entries[key := Entry(value, exp, stamp)];
    assert written.Keys == m.entries.Keys + {key};
    assert key in m.entries ==> written.Keys == m.entries.Keys;
    BoundedFacts(m.(entries := written), max);
  }

  lemma GetKeepsBalance(m: Mem, max: Option<nat>, key: string, stamp: nat, now: nat, ledger: Ledger)
    requires Balanced(m, ledger)
    ensures var (m', reply) := Locked(m, max, Get(key), stamp, now);
            Balanced(m', Booked(ledger, m, Get(key), reply))
  {
    if key in m.entries {
      RemoveSize(m.entries, {key});
      assert m.entries[key := m.entries[key].(lastAccess := stamp)].Keys == m.entries.Keys;
    }
  }

  lemma WriteKeepsBalance(m: Mem, max: Option<nat>, op: Op, stamp: nat, now: nat, ledger: Ledger)
    requires Balanced(m, ledger) && (op.Set? || op.SetIfAbsent?)
    ensures var (m', reply) := Locked(m, max, op, stamp, now);
            Balanced(m', Booked(ledger, m, op, reply))
  {
    SetKeepsBalance(m, max, op.key, op.value, Deadline(now, op.ttl), stamp);
    SetKeepsBalance(m.(evictions := m.evictions + 1), max, op.key, op.value, Deadline(now, op.ttl), stamp);
  }

  lemma RemovalKeepsBalance(m: Mem, max: Option<nat>, op: Op, stamp: nat, now: nat, ledger: Ledger)
    requires Balanced(m, ledger) && (op.Delete? || op.Exists? || op.DeletePrefix? || op.Clear?)
    ensures var (m', reply) := Locked(m, max, op, stamp, now);
            Balanced(m', Booked(ledger, m, op, reply))
  {
    match op
    case Delete(key) => if key in m.entries { RemoveSize(m.entries, {key}); }
    case Exists(key) => if key in m.entries { RemoveSize(m.entries, {key}); }
    case DeletePrefix(prefix) => RemoveSize(m.entries, PrefixKeys(m.entries, prefix));
    case Clear =>
  }

  lemma LockedKeepsBalance(m: Mem, max: Option<nat>, op: Op, stamp: nat, now: nat, ledger: Ledger)
    requires Balanced(m, ledger)
    ensures var (m', reply) := Locked(m, max, op, stamp, now);
            Balanced(m', Booked(ledger, m, op, reply))
  {
    if op.Get? {
      GetKeepsBalance(m, max, op.key, stamp, now, ledger);
    } else if op.Set? || op.SetIfAbsent? {
      WriteKeepsBalance(m, max, op, stamp, now, ledger);
    } else {
      RemovalKeepsBalance(m, max, op, stamp, now, ledger);
    }
  }

  lemma DrawKeepsInv(s: State, s': State, max: Option<nat>, i: nat)
    requires Inv(s, max) && Draws(s, s', i)
    ensures Inv(s', max)
  {
  }

  lemma RunsKeepsPending(s: State, s': State, max: Option<nat>, i: nat, now: nat)
    requires Inv(s, max) && Runs(s, s', max, i, now)
    ensures DistinctStamps(s'.mem.entries) && StampsBelow(s'.mem.entries, s'.counter) && WithinBound(s'.mem, max)
    ensures PendingStamps(s')
  {
    var t := s.threads[i];
    var stamp := if t.pc.Drawn? then t.pc.stamp else 0;
    LockedKeepsStamps(s.mem, max, t.op, stamp, now);
    forall j | 0 <= j < |s'.threads| && s'.threads[j].pc.Drawn?
      ensures s'.threads[j].pc.stamp < s'.counter && Unused(s'.mem.entries, s'.threads[j].pc.stamp)
    {
      assert j != i && s'.threads[j] == s.threads[j];
      assert Stamps(t.op) ==> s.threads[j].pc.stamp != t.pc.stamp;
    }
  }

  lemma StepKeepsInv(s: State, s': State, max: Option<nat>)
    requires Inv(s, max) && Step(s, s', max)
    ensures Inv(s', max)
  {
    if i: nat :| Draws(s, s', i) {
      DrawKeepsInv(s, s', max, i);
    } else {
      var i: nat, now: nat :| Runs(s, s', max, i, now);
      var t := s.threads[i];
      RunsKeepsPending(s, s', max, i, now);
      LockedKeepsBalance(s.mem, max, t.op, if t.pc.Drawn? then t.pc.stamp else 0, now, s.ledger);
    }
  }

  /** In every reachable state: stamps are pairwise distinct and below the
      counter, the bound is respected, the eviction victim is unique, and the
      counters balance. */
  lemma {:induction false} RunKeepsInv(run: seq<State>, max: Option<nat>, n: nat)
    requires IsRun(run, max) && n < |run|
    ensures Inv(run[n], max)
    ensures forall a, b :: IsVictim(run[n].mem.entries, a) && IsVictim(run[n].mem.entries, b) ==> a == b
  {
    if n > 0 {
      RunKeepsInv(run, max, n - 1);
      assert Step(run[n - 1], run[n - 1 + 1], max);
      StepKeepsInv(run[n - 1], run[n], max);
    }
  }

  // ---------------------------------------------------------------------
  // Does the key just written survive?
  // ---------------------------------------------------------------------

  lemma BoundedByOne(m: Mem, max: nat)
    requires |m.entries| == max + 1
    ensures Bounded(m, Some(max)).entries == m.entries - {Victim(m.entries)}
  {
    var rest := m.entries - {Victim(m.entries)};
    RemoveSize(m.entries, {Victim(m.entries)});
    assert Bounded(Evicted(m, Victim(m.entries)), Some(max)).entries == rest;
  }

  /** A write whose stamp was overtaken can be evicted by its own bound check:
      the key is there afterwards exactly when it needed no room, or some other
      entry is older than the writer's stamp. */
  lemma SurvivesUnlessOldest(m: Mem, max: Option<nat>, key: string, value: Bytes, exp: Option<nat>, stamp: nat)
    requires ProperBound(max) && WithinBound(m, max)
    requires DistinctStamps(m.entries) && Unused(m.entries, stamp)
    ensures key in SetLocked(m, max, key, value, exp, stamp).entries
       <==> max.None? || key in m.entries || |m.entries| < max.value || exists k :: k in m.entries && m.entries[k].lastAccess < stamp
    ensures var m' := SetLocked(m, max, key, value, exp, stamp);
            key in m'.entries ==> m'.entries[key] == Entry(value, exp, stamp)
  {
    var written := m.entries[key := Entry(value, exp, stamp)];
    var mw := m.(entries := written);
    BoundedFacts(mw, max);
    assert written.Keys == m.entries.Keys + {key};
    if key in m.entries {
      assert written.Keys == m.entries.Keys;
    } else if max.Some? && |m.entries| == max.value {
      BoundedByOne(mw, max.value);
      var v := Victim(written);
      if v == key {
        assert forall k | k in m.entries :: written[k] == m.entries[k];
      } else {
        assert m.entries[v].lastAccess == written[v].lastAccess <= written[key].lastAccess;
      }
    }
  }

  /** With the newest stamp the key survives. */
  lemma NewestStampSurvives(m: Mem, max: Option<nat>, key: string, value: Bytes, exp: Option<nat>, counter: nat)
    requires ProperBound(max) && WithinBound(m, max)
    requires DistinctStamps(m.entries) && StampsBelow(m.entries, counter)
    ensures var m' := SetLocked(m, max, key, value, exp, counter);
            key in m'.entries && m'.entries[key] == Entry(value, exp, counter)
  {
    SurvivesUnlessOldest(m, max, key, value, exp, counter);
    if max.Some? && |m.entries| >= max.value {
      assert m.entries != map[];
      var k :| k in m.entries;
    }
  }

  lemma FiveStates(s0: State, s1: State, s2: State, s3: State, s4: State, max: Option<nat>)
    requires Init(s0) && Step(s0, s1, max) && Step(s1, s2, max) && Step(s2, s3, max) && Step(s3, s4, max)
    ensures IsRun([s0, s1, s2, s3, s4], max)
  {
  }

  const WriteA := Set("a", [1], None)
  const WriteB := Set("b", [2], None)

  /** Two writers and room for one entry: "b" has written, "a" still holds the
      older stamp. */
  lemma LateWrite()
    ensures SetLocked(Mem(map[], 0, 0, 0), Some(1), "b", [2], None, 1) == Mem(map["b" := Entry([2], None, 1)], 0, 0, 0)
    ensures "a" !in SetLocked(Mem(map["b" := Entry([2], None, 1)], 0, 0, 0), Some(1), "a", [1], None, 0).entries
  {
    SurvivesUnlessOldest(Mem(map["b" := Entry([2], None, 1)], 0, 0, 0), Some(1), "a", [1], None, 0);
  }

  /** A run in which `set` of "a" returns although its entry is already gone:
      "a" drew its stamp before "b" and took the lock after it. */
  lemma LateWriterLosesItsWrite() returns (run: seq<State>)
    ensures IsRun(run, Some(1)) && |run| == 5
    ensures run[4].threads == [Thread(WriteA, Returned(Done)), Thread(WriteB, Returned(Done))]
    ensures "a" !in run[4].mem.entries
  {
    var empty, ledger := Mem(map[], 0, 0, 0), Ledger(0, 0, 0);
    var s0 := State(empty, 0, [Thread(WriteA, Waiting), Thread(WriteB, Waiting)], ledger);
    var s1 := State(empty, 1, [Thread(WriteA, Drawn(0)), Thread(WriteB, Waiting)], ledger);
    var s2 := State(empty, 2, [Thread(WriteA, Drawn(0)), Thread(WriteB, Drawn(1))], ledger);
    LateWrite();
    var m3 := SetLocked(empty, Some(1), "b", [2], None, 1);
    var s3 := State(m3, 2, [Thread(WriteA, Drawn(0)), Thread(WriteB, Returned(Done))], Booked(ledger, empty, WriteB, Done));
    var m4 := SetLocked(m3, Some(1), "a", [1], None, 0);
    var s4 := State(m4, 2, [Thread(WriteA, Returned(Done)), Thread(WriteB, Returned(Done))], Booked(s3.ledger, m3, WriteA, Done));
    assert Draws(s0, s1, 0);
    assert Draws(s1, s2, 1);
    assert Runs(s2, s3, Some(1), 1, 0);
    assert Runs(s3, s4, Some(1), 0, 0);
    FiveStates(s0, s1, s2, s3, s4, Some(1));
    run := [s0, s1, s2, s3, s4];
  }
}
