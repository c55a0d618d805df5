/** The bounded in-memory cache. Every operation is split as the source splits
    it: an access stamp is drawn from a counter, then a section runs under the
    write lock. `Mem` is the state and the functions named `...Locked` are those
    sections; the class runs them one operation at a time, `CacheThreads` runs
    them from many threads. */
module MemoryCache {
  import opened Text

  predicate Past(exp: Option<nat>, now: nat) {
    exp.Some? && now > exp.value
  }

  /** `exp` is the deadline, `lastAccess` the access stamp. */
  datatype Entry = Entry(value: Bytes, exp: Option<nat>, lastAccess: nat) {
    predicate Expired(now: nat) {
      Past(exp, now)
    }
  }

  datatype Mem = Mem(entries: map<string, Entry>, hits: nat, misses: nat, evictions: nat)

  datatype GetReply = Hit(value: Bytes) | NotFound

  /** A time to live of zero means none. */
  function Deadline(now: nat, ttl: Option<nat>): Option<nat> {
    if ttl.Some? && ttl.value > 0 then Some(now + ttl.value) else None
  }

  // ---------------------------------------------------------------------
  // The LRU bound
  // ---------------------------------------------------------------------

  ghost predicate IsVictim(entries: map<string, Entry>, key: string) {
    key in entries && forall k | k in entries :: entries[key].lastAccess <= entries[k].lastAccess
  }

  lemma {:induction false} VictimExists(entries: map<string, Entry>)
    requires entries != map[]
    ensures exists key :: IsVictim(entries, key)
    decreases |entries|
  {
    var any :| any in entries;
    var rest := entries - {any};
    if rest == map[] {
      assert rest.Keys == entries.Keys - {any} == {};
      assert entries.Keys == {any};
      assert IsVictim(entries, any);
    } else {
      VictimExists(rest);
      var v :| IsVictim(rest, v);
      var least := if entries[any].lastAccess < entries[v].lastAccess then any else v;
      forall k | k in entries ensures entries[least].lastAccess <= entries[k].lastAccess {
        assert k != any ==> k in rest;
      }
      assert IsVictim(entries, least);
    }
  }

  ghost function Victim(entries: map<string, Entry>): (key: string)
    requires entries != map[]
    ensures IsVictim(entries, key)
  {
    VictimExists(entries);
    var key :| IsVictim(entries, key);
    key
  }

  ghost predicate DistinctStamps(entries: map<string, Entry>) {
    forall a, b | a in entries && b in entries && a != b :: entries[a].lastAccess != entries[b].lastAccess
  }

  /** `enforce_bound`: drop least recently used entries while over the bound. */
  ghost function Bounded(m: Mem, max: Option<nat>): Mem
    decreases |m.entries|
  {
    if max.None? || |m.entries| <= max.value then m
    else Bounded(Evicted(m, Victim(m.entries)), max)
  }

  function Evicted(m: Mem, key: string): Mem {
    m.(entries := m.entries - {key}, evictions := m.evictions + 1)
  }

  /** The bound holds afterwards, what is left is unchanged, and every entry
      dropped is counted. */
  lemma {:induction false} BoundedFacts(m: Mem, max: Option<nat>)
    ensures var m' := Bounded(m, max);
            && m'.hits == m.hits && m'.misses == m.misses
            && m'.entries.Keys <= m.entries.Keys
            && (forall k | k in m'.entries :: m'.entries[k] == m.entries[k])
            && (max.Some? ==> |m'.entries| <= max.value)
            && m'.evictions + |m'.entries| == m.evictions + |m.entries|
    decreases |m.entries|
  {
    if max.Some? && |m.entries| > max.value {
      BoundedFacts(Evicted(m, Victim(m.entries)), max);
    }
  }

  lemma VictimUnique(entries: map<string, Entry>, key: string)
    requires DistinctStamps(entries) && IsVictim(entries, key)
    ensures key == Victim(entries)
  {
  }

  ghost predicate StampsBelow(entries: map<string, Entry>, bound: nat) {
    forall k | k in entries :: entries[k].lastAccess < bound
  }

  lemma WriteKeepsStamps(entries: map<string, Entry>, key: string, e: Entry)
    requires DistinctStamps(entries) && StampsBelow(entries, e.lastAccess)
    ensures DistinctStamps(entries[key := e]) && StampsBelow(entries[key := e], e.lastAccess + 1)
  {
  }

  lemma TouchKeepsStamps(entries: map<string, Entry>, key: string, stamp: nat)
    requires DistinctStamps(entries) && StampsBelow(entries, stamp) && key in entries
    ensures var touched := entries[key := entries[key].(lastAccess := stamp)];
            DistinctStamps(touched) && StampsBelow(touched, stamp + 1) && |touched| == |entries|
  {
    assert entries[key := entries[key].(lastAccess := stamp)].Keys == entries.Keys;
  }

  lemma RemovalKeepsStamps(entries: map<string, Entry>, keys: set<string>, bound: nat)
    requires DistinctStamps(entries) && StampsBelow(entries, bound)
    ensures DistinctStamps(entries - keys) && StampsBelow(entries - keys, bound)
    ensures |entries - keys| <= |entries|
  {
    SubsetSize((entries - keys).Keys, entries.Keys);
  }

  // ---------------------------------------------------------------------
  // The sections under the lock
  // ---------------------------------------------------------------------

  function GetLocked(m: Mem, key: string, stamp: nat, now: nat): (Mem, GetReply) {
    if key !in m.entries then (m.(misses := m.misses + 1), NotFound)
    else
      var e := m.entries[key];
      if !e.Expired(now) then
        (m.(entries := m.entries[key := e.(lastAccess := stamp)], hits := m.hits + 1), Hit(e.value))
      else
        (m.(entries := m.entries - {key}, evictions := m.evictions + 1, misses := m.misses + 1), NotFound)
  }

  ghost function SetLocked(m: Mem, max: Option<nat>, key: string, value: Bytes, exp: Option<nat>, stamp: nat): Mem {
    Bounded(m.(entries := m.entries[key := Entry(value, exp, stamp)]), max)
  }

  ghost function SetIfAbsentLocked(m: Mem, max: Option<nat>, key: string, value: Bytes, ttl: Option<nat>, stamp: nat, now: nat)
    : (Mem, bool)
  {
    if key in m.entries && !m.entries[key].Expired(now) then (m, false)
    else
      var m' := if key in m.entries then m.(evictions := m.evictions + 1) else m;
      (SetLocked(m', max, key, value, Deadline(now, ttl), stamp), true)
  }

  function DeleteLocked(m: Mem, key: string): Mem {
    if key in m.entries then m.(entries := m.entries - {key}, evictions := m.evictions + 1) else m
  }

  function ClearLocked(m: Mem): Mem {
    m.(entries := map[])
  }

  function ExistsLocked(m: Mem, key: string, now: nat): (Mem, bool) {
    if key !in m.entries then (m, false)
    else if !m.entries[key].Expired(now) then (m, true)
    else (DeleteLocked(m, key), false)
  }

  function DeletePrefixLocked(m: Mem, prefix: string): (Mem, nat) {
    var keys := PrefixKeys(m.entries, prefix);
    (m.(entries := m.entries - keys, evictions := m.evictions + |keys|), |keys|)
  }

  // ---------------------------------------------------------------------
  // The adapter object
  // ---------------------------------------------------------------------

  class MemoryAdapter {
    var entries: map<string, Entry>
    const maxEntries: Option<nat>
    var accessSeq: nat
    var hits: nat
    var misses: nat
    var evictions: nat

    ghost function View(): Mem
      reads this
    {
      Mem(entries, hits, misses, evictions)
    }

    /** What holds between operations: stamps are distinct and were drawn, and
        the bound is respected. */
    ghost predicate Valid()
      reads this
    {
      && (maxEntries.Some? ==> maxEntries.value > 0 && |entries| <= maxEntries.value)
      && DistinctStamps(entries)
      && StampsBelow(entries, accessSeq)
    }

    /** A bound of zero means none. */
    constructor (bound: nat)
      ensures Valid()
      ensures maxEntries == if bound > 0 then Some(bound) else None
      ensures View() == Mem(map[], 0, 0, 0) && accessSeq == 0
    {
      entries := map[];
      maxEntries := if bound > 0 then Some(bound) else None;
      accessSeq, hits, misses, evictions := 0, 0, 0, 0;
    }

    method NextSeq() returns (stamp: nat)
      modifies this`accessSeq
      ensures stamp == old(accessSeq) && accessSeq == stamp + 1
    {
      stamp := accessSeq;
      accessSeq := accessSeq + 1;
    }

    /** The entry with the smallest stamp. */
    method FindVictim() returns (key: string)
      requires entries != map[] && DistinctStamps(entries)
      ensures key in entries && key == Victim(entries)
    {
      VictimExists(entries);
      assert IsVictim(entries, Victim(entries));
      key :| key in entries && forall k | k in entries :: entries[key].lastAccess <= entries[k].lastAccess;
      VictimUnique(entries, key);
    }

    method EnforceBound()
      requires DistinctStamps(entries)
      modifies this`entries, this`evictions
      ensures View() == Bounded(old(View()), maxEntries)
      ensures DistinctStamps(entries)
      ensures forall bound | StampsBelow(old(entries), bound) :: StampsBelow(entries, bound)
      ensures maxEntries.Some? ==> |entries| <= maxEntries.value
    {
      BoundedFacts(View(), maxEntries);
      if maxEntries.None? {
        return;
      }
      while |entries| > maxEntries.value
        invariant Bounded(View(), maxEntries) == Bounded(old(View()), maxEntries)
        invariant DistinctStamps(entries)
        decreases |entries|
      {
        ghost var before := View();
        var victim := FindVictim();
        entries := entries - {victim};
        evictions := evictions + 1;
        assert View() == Evicted(before, Victim(before.entries));
      }
    }

    method Get(key: string, now: nat) returns (reply: GetReply)
      requires Valid()
      modifies this
      ensures Valid() && accessSeq == old(accessSeq) + 1
      ensures View() == GetLocked(old(View()), key, old(accessSeq), now).0
      ensures reply == GetLocked(old(View()), key, old(accessSeq), now).1
    {
      var seq_ := NextSeq();
      if key !in entries {
        misses := misses + 1;
        return NotFound;
      }
      var e := entries[key];
      if !e.Expired(now) {
        TouchKeepsStamps(entries, key, seq_);
        entries := entries[key := e.(lastAccess := seq_)];
        hits := hits + 1;
        return Hit(e.value);
      }
      RemovalKeepsStamps(entries, {key}, accessSeq);
      entries := entries - {key};
      evictions := evictions + 1;
      misses := misses + 1;
      return NotFound;
    }

    method Set(key: string, value: Bytes, ttl: Option<nat>, now: nat)
      requires Valid()
      modifies this
      ensures Valid() && accessSeq == old(accessSeq) + 1
      ensures View() == SetLocked(old(View()), maxEntries, key, value, Deadline(now, ttl), old(accessSeq))
    {
      var exp := Deadline(now, ttl);
      var stamp := NextSeq();
      WriteAndBound(key, value, exp, stamp);
    }

    method Delete(key: string)
      requires Valid()
      modifies this
      ensures Valid() && accessSeq == old(accessSeq)
      ensures View() == DeleteLocked(old(View()), key)
    {
      if key in entries {
        RemovalKeepsStamps(entries, {key}, accessSeq);
        entries := entries - {key};
        evictions := evictions + 1;
      }
    }

    method Clear()
      requires Valid()
      modifies this
      ensures Valid() && accessSeq == old(accessSeq)
      ensures View() == ClearLocked(old(View()))
    {
      entries := map[];
    }

    method SetIfAbsent(key: string, value: Bytes, ttl: Option<nat>, now: nat) returns (stored: bool)
      requires Valid()
      modifies this
      ensures Valid() && accessSeq == old(accessSeq) + 1
      ensures View() == SetIfAbsentLocked(old(View()), maxEntries, key, value, ttl, old(accessSeq), now).0
      ensures stored == SetIfAbsentLocked(old(View()), maxEntries, key, value, ttl, old(accessSeq), now).1
    {
      var stamp := NextSeq();
      if key in entries {
        if !entries[key].Expired(now) {
          return false;
        }
        evictions := evictions + 1;
      }
      WriteAndBound(key, value, Deadline(now, ttl), stamp);
      stored := true;
    }

    /** The write under the lock, shared by `set` and `set_if_absent`. */
    method WriteAndBound(key: string, value: Bytes, exp: Option<nat>, stamp: nat)
      requires DistinctStamps(entries) && StampsBelow(entries, stamp) && accessSeq == stamp + 1
      requires maxEntries.Some? ==> maxEntries.value > 0
      modifies this`entries, this`evictions
      ensures Valid()
      ensures View() == SetLocked(old(View()), maxEntries, key, value, exp, stamp)
    {
      WriteKeepsStamps(entries, key, Entry(value, exp, stamp));
      entries := entries[key := Entry(value, exp, stamp)];
      EnforceBound();
    }

    method Exists(key: string, now: nat) returns (found: bool)
      requires Valid()
      modifies this
      ensures Valid() && accessSeq == old(accessSeq)
      ensures (View(), found) == ExistsLocked(old(View()), key, now)
    {
      if key !in entries {
        return false;
      }
      if !entries[key].Expired(now) {
        return true;
      }
      RemovalKeepsStamps(entries, {key}, accessSeq);
      entries := entries - {key};
      evictions := evictions + 1;
      return false;
    }

    method DeletePrefix(prefix: string) returns (removed: nat)
      requires Valid()
      modifies this
      ensures Valid() && accessSeq == old(accessSeq)
      ensures (View(), removed) == DeletePrefixLocked(old(View()), prefix)
    {
      var keys := set k | k in entries && StartsWith(k, prefix);
      assert keys == PrefixKeys(entries, prefix);
      RemovalKeepsStamps(entries, keys, accessSeq);
      removed := |keys|;
      RemoveAll(keys);
      evictions := evictions + removed;
    }

    method RemoveAll(keys: set<string>)
      requires keys <= entries.Keys
      modifies this`entries
      ensures entries == old(entries) - keys
    {
      var matches := keys;
      ghost var gone := {};
      while matches != {}
        invariant gone + matches == keys
        invariant entries == old(entries) - gone
        decreases matches
      {
        var k :| k in matches;
        RemoveOne(old(entries), gone, k);
        entries := entries - {k};
        matches, gone := matches - {k}, gone + {k};
      }
    }
  }

  lemma RemoveOne<K, V>(m: map<K, V>, gone: set<K>, k: K)
    ensures (m - gone) - {k} == m - (gone + {k})
  {
  }

  lemma {:induction false} SubsetSize<T>(a: set<T>, b: set<T>)
    requires a <= b
    ensures |a| <= |b|
  {
    if a != {} {
      var x :| x in a;
      SubsetSize(a - {x}, b - {x});
    }
  }
}
