/** What the bound evicts, in runs of one caller. The documentation speaks of
    live entries: at most `max_entries` of them, the least recently used one
    going first. The code counts and compares all entries, expired ones that no
    call has looked at included. */
module CacheEviction {
  import opened Text
  import opened MemoryCache
  import opened LruOrder
  import opened CacheThreads

  /** The entries that have not expired. */
  ghost function LiveOnly(entries: map<string, Entry>, now: nat): map<string, Entry> {
    map k | k in entries && !entries[k].Expired(now) :: entries[k]
  }

  /** A write as documented: the live entries with the new one, less the least
      recently used of them while they are more than the bound. */
  ghost function Documented(live: map<string, Entry>, max: Option<nat>, key: string, e: Entry): map<string, Entry> {
    Bounded(Mem(live[key := e], 0, 0, 0), max).entries
  }

  /** A write that makes the bound evict. */
  ghost predicate Overflows(m: Mem, max: Option<nat>, key: string) {
    max.Some? && key !in m.entries && |m.entries| == max.value
  }

  ghost predicate AllLive(entries: map<string, Entry>, now: nat) {
    forall k | k in entries :: !entries[k].Expired(now)
  }

  lemma WithinNothingDropped(entries: map<string, Entry>, max: Option<nat>, key: string, e: Entry)
    requires max.Some? ==> |entries[key := e]| <= max.value
    ensures Bounded(Mem(entries[key := e], 0, 0, 0), max).entries == entries[key := e]
  {
  }

  /** The counters do not matter to the bound. */
  lemma {:induction false} BoundedEntries(m: Mem, m': Mem, max: Option<nat>)
    requires m.entries == m'.entries
    ensures Bounded(m, max).entries == Bounded(m', max).entries
    decreases |m.entries|
  {
    if max.Some? && |m.entries| > max.value {
      BoundedEntries(Evicted(m, Victim(m.entries)), Evicted(m', Victim(m.entries)), max);
    }
  }

  lemma LiveOfWritten(entries: map<string, Entry>, key: string, e: Entry, now: nat)
    requires !e.Expired(now)
    ensures LiveOnly(entries[key := e], now) == LiveOnly(entries, now)[key := e]
    ensures |LiveOnly(entries, now)[key := e]| <= |entries[key := e]|
  {
    assert LiveOnly(entries[key := e], now) == LiveOnly(entries, now)[key := e];
    SubsetSize(LiveOnly(entries[key := e], now).Keys, entries[key := e].Keys);
  }

  /** With the newest stamp on the new entry the victim is an older one. */
  lemma VictimOfWritten(entries: map<string, Entry>, key: string, e: Entry)
    requires entries != map[] && key !in entries && DistinctStamps(entries) && StampsBelow(entries, e.lastAccess)
    ensures Victim(entries[key := e]) == Victim(entries)
  {
    var written := entries[key := e];
    var v := Victim(entries);
    assert IsVictim(written, v);
    assert DistinctStamps(written);
    VictimUnique(written, v);
  }

  lemma OverflowDropsVictim(m: Mem, max: nat, key: string, e: Entry)
    requires max > 0 && Overflows(m, Some(max), key)
    requires DistinctStamps(m.entries) && StampsBelow(m.entries, e.lastAccess)
    ensures m.entries != map[]
    ensures Bounded(m.(entries := m.entries[key := e]), Some(max)).entries == m.entries[key := e] - {Victim(m.entries)}
  {
    assert m.entries != map[];
    assert m.entries[key := e].Keys == m.entries.Keys + {key};
    BoundedByOne(m.(entries := m.entries[key := e]), max);
    VictimOfWritten(m.entries, key, e);
  }

  /** An expired entry leaves room among the live ones. */
  lemma FewerLive(entries: map<string, Entry>, now: nat)
    requires !AllLive(entries, now)
    ensures |LiveOnly(entries, now)| < |entries|
  {
    var k :| k in entries && entries[k].Expired(now);
    SubsetSize(LiveOnly(entries, now).Keys, entries.Keys - {k});
  }

  lemma AllLiveAgrees(m: Mem, max: nat, key: string, e: Entry, now: nat)
    requires AllLive(m.entries, now) && !e.Expired(now)
    ensures LiveOnly(Bounded(m.(entries := m.entries[key := e]), Some(max)).entries, now)
         == Documented(LiveOnly(m.entries, now), Some(max), key, e)
  {
    var written := m.(entries := m.entries[key := e]);
    assert LiveOnly(m.entries, now) == m.entries;
    BoundedEntries(Mem(m.entries[key := e], 0, 0, 0), written, Some(max));
    BoundedFacts(written, Some(max));
    assert LiveOnly(Bounded(written, Some(max)).entries, now) == Bounded(written, Some(max)).entries;
  }

  lemma LiveWithout(entries: map<string, Entry>, key: string, e: Entry, v: string, now: nat)
    requires !e.Expired(now) && v in entries && v != key
    ensures LiveOnly(entries[key := e] - {v}, now) == LiveOnly(entries, now)[key := e] - {v}
    ensures LiveOnly(entries[key := e] - {v}, now) == LiveOnly(entries, now)[key := e] <==> entries[v].Expired(now)
  {
    var live := LiveOnly(entries, now);
    assert LiveOnly(entries[key := e] - {v}, now) == live[key := e] - {v};
    assert v in live[key := e] <==> !entries[v].Expired(now);
    if v !in live[key := e] {
      assert live[key := e] - {v} == live[key := e];
    }
  }

  lemma SomeExpiredAgreesIff(m: Mem, max: nat, key: string, e: Entry, now: nat)
    requires max > 0 && Overflows(m, Some(max), key) && !e.Expired(now) && !AllLive(m.entries, now)
    requires DistinctStamps(m.entries) && StampsBelow(m.entries, e.lastAccess)
    ensures m.entries != map[]
    ensures LiveOnly(Bounded(m.(entries := m.entries[key := e]), Some(max)).entries, now)
         == Documented(LiveOnly(m.entries, now), Some(max), key, e)
       <==> m.entries[Victim(m.entries)].Expired(now)
  {
    var live := LiveOnly(m.entries, now);
    FewerLive(m.entries, now);
    assert live[key := e].Keys == live.Keys + {key};
    WithinNothingDropped(live, Some(max), key, e);
    OverflowDropsVictim(m, max, key, e);
    LiveWithout(m.entries, key, e, Victim(m.entries), now);
  }

  lemma OverflowIsDocumentedIff(m: Mem, max: nat, key: string, e: Entry, now: nat)
    requires max > 0 && Overflows(m, Some(max), key) && !e.Expired(now)
    requires DistinctStamps(m.entries) && StampsBelow(m.entries, e.lastAccess)
    ensures m.entries != map[]
    ensures LiveOnly(Bounded(m.(entries := m.entries[key := e]), Some(max)).entries, now)
         == Documented(LiveOnly(m.entries, now), Some(max), key, e)
       <==> AllLive(m.entries, now) || m.entries[Victim(m.entries)].Expired(now)
  {
    if AllLive(m.entries, now) {
      assert m.entries != map[];
      AllLiveAgrees(m, max, key, e, now);
    } else {
      SomeExpiredAgreesIff(m, max, key, e, now);
    }
  }

  /** For every state between calls and every write: what a reader can still see
      afterwards is what the documentation says exactly when the write fits, or
      no entry has expired, or the oldest entry of all is an expired one. */
  lemma EvictionIsDocumentedIff(m: Mem, max: Option<nat>, key: string, value: Bytes, ttl: Option<nat>, counter: nat, now: nat)
    requires ProperBound(max) && WithinBound(m, max)
    requires DistinctStamps(m.entries) && StampsBelow(m.entries, counter)
    ensures LiveOnly(SetLocked(m, max, key, value, Deadline(now, ttl), counter).entries, now)
         == Documented(LiveOnly(m.entries, now), max, key, Entry(value, Deadline(now, ttl), counter))
       <==> !Overflows(m, max, key) || AllLive(m.entries, now)
            || (m.entries != map[] && m.entries[Victim(m.entries)].Expired(now))
  {
    var e := Entry(value, Deadline(now, ttl), counter);
    if Overflows(m, max, key) {
      OverflowIsDocumentedIff(m, max.value, key, e, now);
    } else {
      LiveOfWritten(m.entries, key, e, now);
      assert key in m.entries ==> m.entries[key := e].Keys == m.entries.Keys;
      assert key !in m.entries ==> m.entries[key := e].Keys == m.entries.Keys + {key};
      WithinNothingDropped(LiveOnly(m.entries, now), max, key, e);
    }
  }

  /** When the write overflows, a live entry is lost exactly when the oldest entry
      is live, however few live entries there are. */
  lemma LiveEntryLostIff(m: Mem, max: nat, key: string, value: Bytes, ttl: Option<nat>, counter: nat, now: nat)
    requires max > 0 && Overflows(m, Some(max), key)
    requires DistinctStamps(m.entries) && StampsBelow(m.entries, counter)
    ensures m.entries != map[]
    ensures (exists k :: k in LiveOnly(m.entries, now)
                         && k !in SetLocked(m, Some(max), key, value, Deadline(now, ttl), counter).entries)
       <==> !m.entries[Victim(m.entries)].Expired(now)
  {
    var e := Entry(value, Deadline(now, ttl), counter);
    OverflowDropsVictim(m, max, key, e);
    var left := SetLocked(m, Some(max), key, value, Deadline(now, ttl), counter).entries;
    assert left == m.entries[key := e] - {Victim(m.entries)};
    assert Victim(m.entries) !in left;
  }

  // ---------------------------------------------------------------------
  // Over runs
  // ---------------------------------------------------------------------

  /** What holds after any list of calls on an empty cache. */
  lemma {:induction false} RunMemKeeps(max: Option<nat>, calls: seq<Timed>)
    requires ProperBound(max)
    ensures WithinBound(RunMem(max, calls).0, max)
    ensures DistinctStamps(RunMem(max, calls).0.entries)
    ensures StampsBelow(RunMem(max, calls).0.entries, RunMem(max, calls).1)
  {
    if calls != [] {
      var n := |calls| - 1;
      RunMemKeeps(max, calls[..n]);
      var (m, counter, _) := RunMem(max, calls[..n]);
      LockedKeepsStamps(m, max, calls[n].op, counter, calls[n].now);
      StepStamps(m, max, calls[n].op, counter, calls[n].now);
    }
  }

  lemma RunMemSnoc(max: Option<nat>, calls: seq<Timed>, c: Timed)
    ensures RunMem(max, calls + [c]).0 == Locked(RunMem(max, calls).0, max, c.op, RunMem(max, calls).1, c.now).0
    ensures RunMem(max, calls + [c]).1 == if Stamps(c.op) then RunMem(max, calls).1 + 1 else RunMem(max, calls).1
  {
    assert (calls + [c])[..|calls|] == calls;
  }

  /** After any sequential run a key just written is there, with its value. */
  lemma SequentialWriteSurvives(max: Option<nat>, calls: seq<Timed>, key: string, value: Bytes, ttl: Option<nat>, now: nat)
    requires ProperBound(max)
    ensures var entries := RunMem(max, calls + [Timed(Set(key, value, ttl), now)]).0.entries;
            key in entries && entries[key] == Entry(value, Deadline(now, ttl), RunMem(max, calls).1)
  {
    RunMemKeeps(max, calls);
    RunMemSnoc(max, calls, Timed(Set(key, value, ttl), now));
    NewestStampSurvives(RunMem(max, calls).0, max, key, value, Deadline(now, ttl), RunMem(max, calls).1);
  }

  // ---------------------------------------------------------------------
  // What the caller is told
  // ---------------------------------------------------------------------

  /** There, and its deadline, if any, has not passed. */
  ghost predicate LiveAt(m: Mem, key: string, now: nat) {
    key in m.entries && (m.entries[key].exp.Some? ==> now <= m.entries[key].exp.value)
  }

  /** A read is a hit with the stored value exactly when the key is live; an expired
      entry it finds is gone afterwards and counted as evicted. */
  lemma GetTells(m: Mem, max: Option<nat>, key: string, stamp: nat, now: nat)
    ensures var (m', reply) := Locked(m, max, Get(key), stamp, now);
            if LiveAt(m, key, now) then
              reply == Got(Hit(m.entries[key].value)) && m'.entries.Keys == m.entries.Keys
              && m'.entries[key].value == m.entries[key].value && m'.entries[key].exp == m.entries[key].exp
              && m'.hits == m.hits + 1 && m'.misses == m.misses && m'.evictions == m.evictions
            else
              reply == Got(NotFound) && m'.entries.Keys == m.entries.Keys - {key}
              && m'.hits == m.hits && m'.misses == m.misses + 1
              && m'.evictions == m.evictions + if key in m.entries then 1 else 0
  {
  }

  /** `exists` is true exactly when the key is live, with the same care for an
      expired entry; it counts as no read. */
  lemma ExistsTells(m: Mem, max: Option<nat>, key: string, stamp: nat, now: nat)
    ensures var (m', reply) := Locked(m, max, Exists(key), stamp, now);
            && reply == Answer(LiveAt(m, key, now))
            && m'.entries.Keys == (if LiveAt(m, key, now) then m.entries.Keys else m.entries.Keys - {key})
            && m'.hits == m.hits && m'.misses == m.misses
            && m'.evictions == m.evictions + if key in m.entries && !LiveAt(m, key, now) then 1 else 0
  {
  }

  /** A conditional write stores exactly when the key is not live, and then leaves
      what a plain write leaves, an expired entry counted as evicted; else it changes
      nothing. */
  lemma SetIfAbsentTells(m: Mem, max: Option<nat>, key: string, value: Bytes, ttl: Option<nat>, stamp: nat, now: nat)
    ensures var (m', reply) := Locked(m, max, SetIfAbsent(key, value, ttl), stamp, now);
            && reply == Answer(!LiveAt(m, key, now))
            && (LiveAt(m, key, now) ==> m' == m)
            && (!LiveAt(m, key, now) ==>
                  m' == Locked(m.(evictions := m.evictions + if key in m.entries then 1 else 0), max, Set(key, value, ttl), stamp, now).0)
  {
  }

  /** `delete` leaves all but the key, `clear` nothing; only a key that was there
      counts as evicted, and `clear` counts none. */
  lemma DeleteAndClear(m: Mem, max: Option<nat>, key: string, stamp: nat, now: nat)
    ensures var m' := Locked(m, max, Delete(key), stamp, now).0;
            && m'.entries.Keys == m.entries.Keys - {key}
            && m'.hits == m.hits && m'.misses == m.misses && m'.evictions == m.evictions + if key in m.entries then 1 else 0
    ensures Locked(m, max, Clear, stamp, now).0 == Mem(map[], m.hits, m.misses, m.evictions)
  {
  }

  // ---------------------------------------------------------------------
  // What makes an entry recent
  // ---------------------------------------------------------------------

  /** Strictly the most recent of all. */
  ghost predicate IsNewest(entries: map<string, Entry>, key: string) {
    key in entries && forall k | k in entries && k != key :: entries[k].lastAccess < entries[key].lastAccess
  }

  /** A read that hits, a write, and a conditional write that stores make their key
      the most recent of all. */
  lemma TouchedIsNewest(m: Mem, max: Option<nat>, op: Op, counter: nat, now: nat)
    requires ProperBound(max) && WithinBound(m, max)
    requires DistinctStamps(m.entries) && StampsBelow(m.entries, counter)
    ensures var (m', reply) := Locked(m, max, op, counter, now);
            match op
            case Get(key) => reply.reply.Hit? ==> IsNewest(m'.entries, key)
            case Set(key, _, _) => IsNewest(m'.entries, key)
            case SetIfAbsent(key, _, _) => reply == Answer(true) ==> IsNewest(m'.entries, key)
            case _ => true
  {
    if op.Set? || op.SetIfAbsent? {
      WrittenIsNewest(m, max, op.key, op.value, Deadline(now, op.ttl), counter);
      WrittenIsNewest(m.(evictions := m.evictions + 1), max, op.key, op.value, Deadline(now, op.ttl), counter);
    }
  }

  lemma WrittenIsNewest(m: Mem, max: Option<nat>, key: string, value: Bytes, exp: Option<nat>, counter: nat)
    requires ProperBound(max) && WithinBound(m, max)
    requires DistinctStamps(m.entries) && StampsBelow(m.entries, counter)
    ensures IsNewest(SetLocked(m, max, key, value, exp, counter).entries, key)
  {
    NewestStampSurvives(m, max, key, value, exp, counter);
    BoundedFacts(m.(entries := m.entries[key := Entry(value, exp, counter)]), max);
  }

  /** Nothing else moves an entry: every other entry that is left is as it was, and
      so are all of them after a miss, a refused write, `exists` or a removal. */
  lemma OthersStayInPlace(m: Mem, max: Option<nat>, op: Op, counter: nat, now: nat, k: string)
    ensures var (m', reply) := Locked(m, max, op, counter, now);
            k in m'.entries ==>
              match op
              case Get(key) => k in m.entries && (k != key || reply.reply == NotFound ==> m'.entries[k] == m.entries[k])
              case Set(key, _, _) => k != key ==> k in m.entries && m'.entries[k] == m.entries[k]
              case SetIfAbsent(key, _, _) => k != key || reply == Answer(false) ==> k in m.entries && m'.entries[k] == m.entries[k]
              case _ => k in m.entries && m'.entries[k] == m.entries[k]
  {
    if op.Set? || op.SetIfAbsent? {
      WriteLeavesOthers(m, max, op.key, op.value, Deadline(now, op.ttl), counter, k);
      WriteLeavesOthers(m.(evictions := m.evictions + 1), max, op.key, op.value, Deadline(now, op.ttl), counter, k);
    }
  }

  lemma WriteLeavesOthers(m: Mem, max: Option<nat>, key: string, value: Bytes, exp: Option<nat>, counter: nat, k: string)
    ensures var m' := SetLocked(m, max, key, value, exp, counter);
            k in m'.entries && k != key ==> k in m.entries && m'.entries[k] == m.entries[k]
  {
    BoundedFacts(m.(entries := m.entries[key := Entry(value, exp, counter)]), max);
  }

  // ---------------------------------------------------------------------
  // How long an entry lives
  // ---------------------------------------------------------------------

  /** No later than `ttl` after the write; a missing or zero `ttl` is for ever. */
  predicate OutLived(ttl: Option<nat>, written: nat, later: nat) {
    ttl.Some? && ttl.value > 0 && later > written + ttl.value
  }

  /** The entry a write leaves is expired at any later time exactly when a positive
      time to live has been exceeded, counted from the write. */
  lemma WrittenExpiresIff(m: Mem, max: Option<nat>, key: string, value: Bytes, ttl: Option<nat>, stamp: nat, now: nat, later: nat)
    ensures var entries := Locked(m, max, Set(key, value, ttl), stamp, now).0.entries;
            key in entries ==> entries[key].value == value && (entries[key].Expired(later) <==> OutLived(ttl, now, later))
    ensures var (m', reply) := Locked(m, max, SetIfAbsent(key, value, ttl), stamp, now);
            reply == Answer(true) && key in m'.entries ==>
              m'.entries[key].value == value && (m'.entries[key].Expired(later) <==> OutLived(ttl, now, later))
  {
    SetExpiresIff(m, max, key, value, ttl, stamp, now, later);
    SetExpiresIff(m.(evictions := m.evictions + 1), max, key, value, ttl, stamp, now, later);
  }

  lemma SetExpiresIff(m: Mem, max: Option<nat>, key: string, value: Bytes, ttl: Option<nat>, stamp: nat, now: nat, later: nat)
    ensures var entries := SetLocked(m, max, key, value, Deadline(now, ttl), stamp).entries;
            key in entries ==> entries[key].value == value && (entries[key].Expired(later) <==> OutLived(ttl, now, later))
  {
    BoundedFacts(m.(entries := m.entries[key := Entry(value, Deadline(now, ttl), stamp)]), max);
  }

  lemma RunMemReply(max: Option<nat>, calls: seq<Timed>, c: Timed)
    ensures RunMem(max, calls + [c]).2
         == RunMem(max, calls).2 + [Locked(RunMem(max, calls).0, max, c.op, RunMem(max, calls).1, c.now).1]
  {
    assert (calls + [c])[..|calls|] == calls;
  }

  /** After any run: a value written with a time to live is read back until that
      has passed, and is a miss from then on. Reading it in between, at `t1`, does
      not prolong it. */
  lemma ReadUntilOutLived(max: Option<nat>, calls: seq<Timed>, key: string, value: Bytes, ttl: Option<nat>, now: nat, t1: nat, t2: nat)
    requires ProperBound(max) && t1 <= t2
    ensures var before := calls + [Timed(Set(key, value, ttl), now)];
            var replies := RunMem(max, before + [Timed(Get(key), t1)] + [Timed(Get(key), t2)]).2;
            && |replies| == |calls| + 3
            && replies[|calls| + 1] == Got(if OutLived(ttl, now, t1) then NotFound else Hit(value))
            && replies[|calls| + 2] == Got(if OutLived(ttl, now, t2) then NotFound else Hit(value))
  {
    var set_, first, second := Timed(Set(key, value, ttl), now), Timed(Get(key), t1), Timed(Get(key), t2);
    SequentialWriteSurvives(max, calls, key, value, ttl, now);
    RunMemSnoc(max, calls, set_);
    RepliesLength(max, calls);
    WrittenExpiresIff(RunMem(max, calls).0, max, key, value, ttl, RunMem(max, calls).1, now, t1);
    WrittenExpiresIff(RunMem(max, calls).0, max, key, value, ttl, RunMem(max, calls).1, now, t2);
    RunMemReply(max, calls, set_);
    RunMemSnoc(max, calls + [set_], first);
    RunMemReply(max, calls + [set_], first);
    RunMemReply(max, calls + [set_] + [first], second);
  }

  lemma {:induction false} RepliesLength(max: Option<nat>, calls: seq<Timed>)
    ensures |RunMem(max, calls).2| == |calls|
  {
    if calls != [] {
      RepliesLength(max, calls[..|calls| - 1]);
    }
  }

  /** `delete_prefix` takes exactly the keys whose first characters are the prefix,
      tells their number, and counts them as evictions; nothing else changes. */
  lemma DeletePrefixDropsExactly(m: Mem, max: Option<nat>, prefix: string, stamp: nat, now: nat)
    ensures var (m', reply) := Locked(m, max, DeletePrefix(prefix), stamp, now);
            && (forall k :: k in m'.entries <==> k in m.entries && !(|prefix| <= |k| && k[..|prefix|] == prefix))
            && (forall k | k in m'.entries :: m'.entries[k] == m.entries[k])
            && m'.hits == m.hits && m'.misses == m.misses
            && reply == Removed(|m.entries| - |m'.entries|) && m'.evictions == m.evictions + (|m.entries| - |m'.entries|)
  {
    RemoveSize(m.entries, PrefixKeys(m.entries, prefix));
  }

  /** The same condition after any sequential run. */
  lemma RunEvictsAsDocumentedIff(max: Option<nat>, calls: seq<Timed>, key: string, value: Bytes, ttl: Option<nat>, now: nat)
    requires ProperBound(max)
    ensures var m, counter := RunMem(max, calls).0, RunMem(max, calls).1;
            (LiveOnly(RunMem(max, calls + [Timed(Set(key, value, ttl), now)]).0.entries, now)
             == Documented(LiveOnly(m.entries, now), max, key, Entry(value, Deadline(now, ttl), counter)))
            <==> !Overflows(m, max, key) || AllLive(m.entries, now)
                 || (m.entries != map[] && m.entries[Victim(m.entries)].Expired(now))
  {
    RunMemKeeps(max, calls);
    RunMemSnoc(max, calls, Timed(Set(key, value, ttl), now));
    EvictionIsDocumentedIff(RunMem(max, calls).0, max, key, value, ttl, RunMem(max, calls).1, now);
  }

  const SetA := Timed(Set("a", [1], None), 0)
  const SetB := Timed(Set("b", [2], Some(1)), 0)
  const SetC := Timed(Set("c", [3], None), 5)

  const EntryA := Entry([1], None, 0)
  const EntryB := Entry([2], Some(1), 1)

  lemma TwoWritten()
    ensures RunMem(Some(2), [SetA, SetB]).0.entries == map["a" := EntryA, "b" := EntryB]
    ensures RunMem(Some(2), [SetA, SetB]).1 == 2
  {
    assert RunMem(Some(2), []) == (Mem(map[], 0, 0, 0), 0, []);
    RunMemSnoc(Some(2), [], SetA);
    assert [] + [SetA] == [SetA];
    assert RunMem(Some(2), [SetA]).0.entries == map["a" := EntryA] && RunMem(Some(2), [SetA]).1 == 1;
    RunMemSnoc(Some(2), [SetA], SetB);
    assert [SetA] + [SetB] == [SetA, SetB];
    assert map["a" := EntryA]["b" := EntryB].Keys == {"a", "b"};
  }

  /** The oldest of the two goes. */
  lemma ThirdWriteDropsA(m: Mem)
    requires m.entries == map["a" := EntryA, "b" := EntryB]
    ensures SetLocked(m, Some(2), "c", [3], None, 2).entries == m.entries["c" := Entry([3], None, 2)] - {"a"}
  {
    assert m.entries.Keys == {"a", "b"};
    assert IsVictim(m.entries, "a");
    VictimUnique(m.entries, "a");
    OverflowDropsVictim(m, 2, "c", Entry([3], None, 2));
  }

  /** Room for two: "a" lives and "b" has expired when "c" is written. The live
      "a" goes and the expired "b" stays. */
  lemma ExpiredEntryOutlivesLive()
    ensures var entries := RunMem(Some(2), [SetA, SetB, SetC]).0.entries;
            && "a" !in entries
            && "b" in entries && entries["b"].Expired(SetC.now)
            && LiveOnly(RunMem(Some(2), [SetA, SetB]).0.entries, SetC.now).Keys == {"a"}
  {
    TwoWritten();
    var m := RunMem(Some(2), [SetA, SetB]).0;
    RunMemSnoc(Some(2), [SetA, SetB], SetC);
    assert [SetA, SetB] + [SetC] == [SetA, SetB, SetC];
    ThirdWriteDropsA(m);
  }
}
