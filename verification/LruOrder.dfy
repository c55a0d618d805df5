/** One caller at a time, the stamped map behaves like an ordered dictionary
    that moves a key to its end on use and drops its head on overflow. */
module LruOrder {
  import opened Text
  import opened MemoryCache

  datatype Item = Item(key: string, value: Bytes, exp: Option<nat>) {
    predicate Expired(now: nat) {
      Past(exp, now)
    }
  }

  /** Least recently used first. */
  datatype Lru = Lru(items: seq<Item>, hits: nat, misses: nat, evictions: nat)

  datatype Op =
    | Get(key: string)
    | Set(key: string, value: Bytes, ttl: Option<nat>)
    | SetIfAbsent(key: string, value: Bytes, ttl: Option<nat>)
    | Delete(key: string)
    | Clear
    | Exists(key: string)
    | DeletePrefix(prefix: string)

  datatype Reply = Got(reply: GetReply) | Done | Answer(flag: bool) | Removed(count: nat)

  predicate Stamps(op: Op) {
    op.Get? || op.Set? || op.SetIfAbsent?
  }

  // ---------------------------------------------------------------------
  // The stamped map, one operation after another
  // ---------------------------------------------------------------------

  /** The locked section of an operation; `stamp` is used by the operations that
      draw one. */
  ghost function Locked(m: Mem, max: Option<nat>, op: Op, stamp: nat, now: nat): (Mem, Reply) {
    match op
    case Get(key) => var (m', r) := GetLocked(m, key, stamp, now); (m', Got(r))
    case Set(key, value, ttl) => (SetLocked(m, max, key, value, Deadline(now, ttl), stamp), Done)
    case SetIfAbsent(key, value, ttl) =>
      var (m', stored) := SetIfAbsentLocked(m, max, key, value, ttl, stamp, now); (m', Answer(stored))
    case Delete(key) => (DeleteLocked(m, key), Done)
    case Clear => (ClearLocked(m), Done)
    case Exists(key) => var (m', found) := ExistsLocked(m, key, now); (m', Answer(found))
    case DeletePrefix(prefix) => var (m', n) := DeletePrefixLocked(m, prefix); (m', Removed(n))
  }

  datatype Timed = Timed(op: Op, now: nat)

  /** State, stamp counter and replies after a list of calls on an empty cache. */
  ghost function RunMem(max: Option<nat>, calls: seq<Timed>): (Mem, nat, seq<Reply>) {
    if calls == [] then (Mem(map[], 0, 0, 0), 0, [])
    else
      var n := |calls| - 1;
      var (m, counter, replies) := RunMem(max, calls[..n]);
      var (m', reply) := Locked(m, max, calls[n].op, counter, calls[n].now);
      (m', if Stamps(calls[n].op) then counter + 1 else counter, replies + [reply])
  }

  // ---------------------------------------------------------------------
  // The ordered dictionary
  // ---------------------------------------------------------------------

  function Keep(items: seq<Item>, keep: Item -> bool): (r: seq<Item>)
    ensures forall it :: it in r <==> it in items && keep(it)
  {
    if items == [] then []
    else
      var n := |items| - 1;
      assert forall it :: it in items <==> it in items[..n] || it == items[n];
      Keep(items[..n], keep) + if keep(items[n]) then [items[n]] else []
  }

  function Without(items: seq<Item>, key: string): seq<Item> {
    Keep(items, (it: Item) => it.key != key)
  }

  function Lookup(items: seq<Item>, key: string): (r: Option<Item>)
    ensures r.Some? ==> r.value in items && r.value.key == key
    ensures r.None? ==> forall it | it in items :: it.key != key
  {
    if items == [] then None
    else if items[0].key == key then Some(items[0])
    else Lookup(items[1..], key)
  }

  /** Overflow drops from the head. */
  function DropHead(l: Lru, max: Option<nat>): Lru {
    if max.None? || |l.items| <= max.value then l
    else l.(items := l.items[|l.items| - max.value..], evictions := l.evictions + (|l.items| - max.value))
  }

  function Append(l: Lru, max: Option<nat>, item: Item): Lru {
    DropHead(l.(items := Without(l.items, item.key) + [item]), max)
  }

  function LruRemove(l: Lru, key: string): Lru {
    l.(items := Without(l.items, key), evictions := l.evictions + 1)
  }

  function LruStep(l: Lru, max: Option<nat>, op: Op, now: nat): (Lru, Reply) {
    match op
    case Get(key) =>
      (match Lookup(l.items, key)
       case None => (l.(misses := l.misses + 1), Got(NotFound))
       case Some(it) =>
         if it.Expired(now) then (LruRemove(l, key).(misses := l.misses + 1), Got(NotFound))
         else (l.(items := Without(l.items, key) + [it], hits := l.hits + 1), Got(Hit(it.value))))
    case Set(key, value, ttl) => (Append(l, max, Item(key, value, Deadline(now, ttl))), Done)
    case SetIfAbsent(key, value, ttl) =>
      (match Lookup(l.items, key)
       case None => (Append(l, max, Item(key, value, Deadline(now, ttl))), Answer(true))
       case Some(it) =>
         if !it.Expired(now) then (l, Answer(false))
         else (Append(l.(evictions := l.evictions + 1), max, Item(key, value, Deadline(now, ttl))), Answer(true)))
    case Delete(key) =>
      (if Lookup(l.items, key).Some? then LruRemove(l, key) else l, Done)
    case Clear => (l.(items := []), Done)
    case Exists(key) =>
      (match Lookup(l.items, key)
       case None => (l, Answer(false))
       case Some(it) => if it.Expired(now) then (LruRemove(l, key), Answer(false)) else (l, Answer(true)))
    case DeletePrefix(prefix) =>
      var kept := Keep(l.items, (it: Item) => !StartsWith(it.key, prefix));
      var removed := |Keep(l.items, (it: Item) => StartsWith(it.key, prefix))|;
      (l.(items := kept, evictions := l.evictions + removed), Removed(removed))
  }

  function RunLru(max: Option<nat>, calls: seq<Timed>): (Lru, seq<Reply>) {
    if calls == [] then (Lru([], 0, 0, 0), [])
    else
      var n := |calls| - 1;
      var (l, replies) := RunLru(max, calls[..n]);
      var (l', reply) := LruStep(l, max, calls[n].op, calls[n].now);
      (l', replies + [reply])
  }

  // ---------------------------------------------------------------------
  // The refinement
  // ---------------------------------------------------------------------

  function ItemOf(entries: map<string, Entry>, key: string): Item
    requires key in entries
  {
    Item(key, entries[key].value, entries[key].exp)
  }

  /** Every listed item is in the map, in the order of the access stamps. */
  ghost predicate Ordered(entries: map<string, Entry>, items: seq<Item>) {
    && (forall it | it in items :: it.key in entries && it == ItemOf(entries, it.key))
    && (forall i, j | 0 <= i < j < |items| :: entries[items[i].key].lastAccess < entries[items[j].key].lastAccess)
  }

  ghost predicate Lists(entries: map<string, Entry>, items: seq<Item>) {
    && Ordered(entries, items)
    && forall k | k in entries :: ItemOf(entries, k) in items
  }

  ghost predicate Refines(m: Mem, l: Lru) {
    Lists(m.entries, l.items) && m.hits == l.hits && m.misses == l.misses && m.evictions == l.evictions
  }

  lemma {:induction false} KeepOrdered(entries: map<string, Entry>, items: seq<Item>, keep: Item -> bool)
    requires Ordered(entries, items)
    ensures Ordered(entries, Keep(items, keep))
  {
    if items != [] {
      var n := |items| - 1;
      assert Ordered(entries, items[..n]);
      KeepOrdered(entries, items[..n], keep);
      var kept := Keep(items[..n], keep);
      forall i | 0 <= i < |kept| ensures entries[kept[i].key].lastAccess < entries[items[n].key].lastAccess {
        assert kept[i] in items[..n];
        var j :| 0 <= j < n && items[j] == kept[i];
      }
    }
  }

  lemma LookupAgrees(entries: map<string, Entry>, items: seq<Item>, key: string)
    requires Lists(entries, items)
    ensures Lookup(items, key) == if key in entries then Some(ItemOf(entries, key)) else None
  {
  }

  /** Keys not touched keep their items and their order. */
  lemma SameElsewhere(entries: map<string, Entry>, entries': map<string, Entry>, items: seq<Item>)
    requires Ordered(entries, items)
    requires forall it | it in items :: it.key in entries' && entries'[it.key] == entries[it.key]
    ensures Ordered(entries', items)
  {
  }

  lemma RemoveLists(entries: map<string, Entry>, items: seq<Item>, key: string)
    requires Lists(entries, items)
    ensures Lists(entries - {key}, Without(items, key))
  {
    KeepOrdered(entries, items, (it: Item) => it.key != key);
    SameElsewhere(entries, entries - {key}, Without(items, key));
  }

  lemma AppendOrdered(entries: map<string, Entry>, items: seq<Item>, key: string)
    requires Ordered(entries, items) && key in entries
    requires forall it | it in items :: entries[it.key].lastAccess < entries[key].lastAccess
    ensures Ordered(entries, items + [ItemOf(entries, key)])
  {
    var all := items + [ItemOf(entries, key)];
    forall i, j | 0 <= i < j < |all| ensures entries[all[i].key].lastAccess < entries[all[j].key].lastAccess {
      assert all[i] in items;
    }
  }

  lemma AllWritten(others: map<string, Entry>, entries: map<string, Entry>, kept: seq<Item>, key: string)
    requires key in entries && others == entries - {key}
    requires forall k | k in others :: ItemOf(others, k) in kept
    ensures forall k | k in entries :: ItemOf(entries, k) in kept + [ItemOf(entries, key)]
  {
    forall k | k in entries ensures ItemOf(entries, k) in kept + [ItemOf(entries, key)] {
      if k != key {
        assert ItemOf(others, k) == ItemOf(entries, k);
      }
    }
  }

  /** An entry written with a fresh stamp goes to the end. */
  lemma WriteLists(entries: map<string, Entry>, items: seq<Item>, key: string, e: Entry)
    requires Lists(entries, items) && StampsBelow(entries, e.lastAccess)
    ensures Lists(entries[key := e], Without(items, key) + [Item(key, e.value, e.exp)])
  {
    var others, written, kept := entries - {key}, entries[key := e], Without(items, key);
    RemoveLists(entries, items, key);
    assert others == written - {key};
    SameElsewhere(others, written, kept);
    AppendOrdered(written, kept, key);
    AllWritten(others, written, kept, key);
  }

  /** The list has as many items as the map has entries. */
  lemma {:induction false} ListsSize(entries: map<string, Entry>, items: seq<Item>)
    requires Lists(entries, items)
    ensures |items| == |entries|
  {
    if items == [] {
      assert entries.Keys == {};
    } else {
      TailLists(entries, items);
      ListsSize(entries - {items[0].key}, items[1..]);
    }
  }

  lemma TailOrdered(entries: map<string, Entry>, items: seq<Item>)
    requires Ordered(entries, items) && items != []
    ensures Ordered(entries - {items[0].key}, items[1..])
  {
    var rest := entries - {items[0].key};
    assert items[0] in items;
    forall it | it in items[1..] ensures it.key in rest && it == ItemOf(rest, it.key) {
      var i :| 0 <= i < |items[1..]| && items[1..][i] == it;
      assert it == items[i + 1] && it in items;
      assert entries[items[0].key].lastAccess < entries[items[i + 1].key].lastAccess;
    }
    assert forall i | 0 <= i < |items[1..]| :: items[1..][i] == items[i + 1];
  }

  lemma TailLists(entries: map<string, Entry>, items: seq<Item>)
    requires Lists(entries, items) && items != []
    ensures items[0].key in entries
    ensures Lists(entries - {items[0].key}, items[1..])
    ensures |entries - {items[0].key}| == |entries| - 1
  {
    var rest := entries - {items[0].key};
    assert items[0] in items;
    assert rest.Keys == entries.Keys - {items[0].key};
    TailOrdered(entries, items);
    forall k | k in rest ensures ItemOf(rest, k) in items[1..] {
      assert ItemOf(entries, k) in items && ItemOf(entries, k) != items[0];
    }
  }

  lemma StampsFollowOrder(entries: map<string, Entry>, items: seq<Item>)
    requires Lists(entries, items) && items != []
    ensures IsVictim(entries, items[0].key) && DistinctStamps(entries)
  {
    forall k | k in entries ensures entries[items[0].key].lastAccess <= entries[k].lastAccess {
      var i :| 0 <= i < |items| && items[i] == ItemOf(entries, k);
    }
    forall a, b | a in entries && b in entries && a != b ensures entries[a].lastAccess != entries[b].lastAccess {
      var i :| 0 <= i < |items| && items[i] == ItemOf(entries, a);
      var j :| 0 <= j < |items| && items[j] == ItemOf(entries, b);
    }
  }

  lemma HeadIsVictim(entries: map<string, Entry>, items: seq<Item>)
    requires Lists(entries, items) && items != []
    ensures entries != map[] && items[0].key == Victim(entries)
  {
    StampsFollowOrder(entries, items);
    VictimUnique(entries, items[0].key);
  }

  lemma DropHeadStep(l: Lru, max: nat)
    requires |l.items| > max
    ensures DropHead(l, Some(max)) == DropHead(l.(items := l.items[1..], evictions := l.evictions + 1), Some(max))
  {
    assert l.items[1..][|l.items| - 1 - max..] == l.items[|l.items| - max..];
    if |l.items| - 1 == max {
      assert l.items[|l.items| - max..] == l.items[1..];
    }
  }

  lemma EvictedRefines(m: Mem, l: Lru)
    requires Refines(m, l) && l.items != []
    ensures m.entries != map[] && l.items[0].key == Victim(m.entries)
    ensures Refines(Evicted(m, l.items[0].key), l.(items := l.items[1..], evictions := l.evictions + 1))
  {
    TailLists(m.entries, l.items);
    HeadIsVictim(m.entries, l.items);
  }

  /** The entry evicted for the bound is the head of the list. */
  lemma {:induction false} BoundedRefines(m: Mem, l: Lru, max: Option<nat>)
    requires Refines(m, l)
    ensures Refines(Bounded(m, max), DropHead(l, max))
    decreases |l.items|
  {
    ListsSize(m.entries, l.items);
    if max.Some? && |m.entries| > max.value {
      EvictedRefines(m, l);
      DropHeadStep(l, max.value);
      BoundedRefines(Evicted(m, l.items[0].key), l.(items := l.items[1..], evictions := l.evictions + 1), max);
      assert Bounded(m, max) == Bounded(Evicted(m, l.items[0].key), max);
    }
  }

  lemma SetRefines(m: Mem, l: Lru, max: Option<nat>, key: string, value: Bytes, exp: Option<nat>, stamp: nat)
    requires Refines(m, l) && StampsBelow(m.entries, stamp)
    ensures Refines(SetLocked(m, max, key, value, exp, stamp), Append(l, max, Item(key, value, exp)))
  {
    var e := Entry(value, exp, stamp);
    WriteLists(m.entries, l.items, key, e);
    BoundedRefines(m.(entries := m.entries[key := e]), l.(items := Without(l.items, key) + [Item(key, value, exp)]), max);
  }

  lemma PrefixGone(m: Mem, items: seq<Item>, prefix: string)
    requires Lists(m.entries, items)
    ensures |PrefixKeys(m.entries, prefix)| == |Keep(items, (it: Item) => StartsWith(it.key, prefix))|
  {
    var starts := (it: Item) => StartsWith(it.key, prefix);
    var gone := map k | k in m.entries && k in PrefixKeys(m.entries, prefix) :: m.entries[k];
    KeepOrdered(m.entries, items, starts);
    SameElsewhere(m.entries, gone, Keep(items, starts));
    forall k | k in gone ensures ItemOf(gone, k) in Keep(items, starts) {
      assert ItemOf(gone, k) == ItemOf(m.entries, k);
    }
    ListsSize(gone, Keep(items, starts));
    assert gone.Keys == PrefixKeys(m.entries, prefix);
  }

  lemma PrefixStays(m: Mem, items: seq<Item>, prefix: string)
    requires Lists(m.entries, items)
    ensures Lists(m.entries - PrefixKeys(m.entries, prefix), Keep(items, (it: Item) => !StartsWith(it.key, prefix)))
  {
    var stays := (it: Item) => !StartsWith(it.key, prefix);
    var left := m.entries - PrefixKeys(m.entries, prefix);
    KeepOrdered(m.entries, items, stays);
    SameElsewhere(m.entries, left, Keep(items, stays));
    forall k | k in left ensures ItemOf(left, k) in Keep(items, stays) {
      assert ItemOf(left, k) == ItemOf(m.entries, k);
    }
  }

  lemma PrefixRefines(m: Mem, l: Lru, prefix: string)
    requires Refines(m, l)
    ensures Refines(DeletePrefixLocked(m, prefix).0, LruStep(l, None, DeletePrefix(prefix), 0).0)
    ensures DeletePrefixLocked(m, prefix).1 == |Keep(l.items, (it: Item) => StartsWith(it.key, prefix))|
  {
    PrefixGone(m, l.items, prefix);
    PrefixStays(m, l.items, prefix);
  }

  lemma GetRefines(m: Mem, l: Lru, key: string, counter: nat, now: nat)
    requires Refines(m, l) && StampsBelow(m.entries, counter)
    ensures Refines(GetLocked(m, key, counter, now).0, LruStep(l, None, Get(key), now).0)
    ensures Got(GetLocked(m, key, counter, now).1) == LruStep(l, None, Get(key), now).1
  {
    LookupAgrees(m.entries, l.items, key);
    RemoveLists(m.entries, l.items, key);
    if key in m.entries {
      WriteLists(m.entries, l.items, key, m.entries[key].(lastAccess := counter));
    }
  }

  lemma DeleteRefines(m: Mem, l: Lru, key: string, now: nat)
    requires Refines(m, l)
    ensures Refines(DeleteLocked(m, key), LruStep(l, None, Delete(key), now).0)
    ensures Refines(ExistsLocked(m, key, now).0, LruStep(l, None, Exists(key), now).0)
    ensures Answer(ExistsLocked(m, key, now).1) == LruStep(l, None, Exists(key), now).1
  {
    LookupAgrees(m.entries, l.items, key);
    RemoveLists(m.entries, l.items, key);
  }

  /** A conditional write that goes through is a plain write, after an expired
      entry has been counted as evicted. */
  lemma AbsentStores(m: Mem, l: Lru, max: Option<nat>, key: string, value: Bytes, ttl: Option<nat>, counter: nat, now: nat)
    returns (m1: Mem, l1: Lru)
    requires Refines(m, l)
    requires key in m.entries ==> m.entries[key].Expired(now)
    ensures Refines(m1, l1) && m1.entries == m.entries
    ensures SetIfAbsentLocked(m, max, key, value, ttl, counter, now)
         == (SetLocked(m1, max, key, value, Deadline(now, ttl), counter), true)
    ensures LruStep(l, max, SetIfAbsent(key, value, ttl), now)
         == (Append(l1, max, Item(key, value, Deadline(now, ttl))), Answer(true))
  {
    LookupAgrees(m.entries, l.items, key);
    if key in m.entries {
      m1, l1 := m.(evictions := m.evictions + 1), l.(evictions := l.evictions + 1);
    } else {
      m1, l1 := m, l;
    }
  }

  lemma AbsentRefines(m: Mem, l: Lru, max: Option<nat>, key: string, value: Bytes, ttl: Option<nat>, counter: nat, now: nat)
    requires Refines(m, l) && StampsBelow(m.entries, counter)
    requires key in m.entries ==> m.entries[key].Expired(now)
    ensures Refines(SetIfAbsentLocked(m, max, key, value, ttl, counter, now).0, LruStep(l, max, SetIfAbsent(key, value, ttl), now).0)
    ensures Answer(SetIfAbsentLocked(m, max, key, value, ttl, counter, now).1) == LruStep(l, max, SetIfAbsent(key, value, ttl), now).1
  {
    var m1, l1 := AbsentStores(m, l, max, key, value, ttl, counter, now);
    SetRefines(m1, l1, max, key, value, Deadline(now, ttl), counter);
  }

  lemma SetIfAbsentRefines(m: Mem, l: Lru, max: Option<nat>, key: string, value: Bytes, ttl: Option<nat>, counter: nat, now: nat)
    requires Refines(m, l) && StampsBelow(m.entries, counter)
    ensures Refines(SetIfAbsentLocked(m, max, key, value, ttl, counter, now).0, LruStep(l, max, SetIfAbsent(key, value, ttl), now).0)
    ensures Answer(SetIfAbsentLocked(m, max, key, value, ttl, counter, now).1) == LruStep(l, max, SetIfAbsent(key, value, ttl), now).1
  {
    if key in m.entries && !m.entries[key].Expired(now) {
      LookupAgrees(m.entries, l.items, key);
    } else {
      AbsentRefines(m, l, max, key, value, ttl, counter, now);
    }
  }

  lemma RemovalRefines(m: Mem, l: Lru, max: Option<nat>, op: Op, counter: nat, now: nat)
    requires Refines(m, l) && !Stamps(op)
    ensures Refines(Locked(m, max, op, counter, now).0, LruStep(l, max, op, now).0)
    ensures Locked(m, max, op, counter, now).1 == LruStep(l, max, op, now).1
  {
    match op
    case Delete(key) => DeleteRefines(m, l, key, now);
    case Clear =>
    case Exists(key) => DeleteRefines(m, l, key, now);
    case DeletePrefix(prefix) => PrefixRefines(m, l, prefix);
  }

  /** One call keeps the refinement and gives the same reply. */
  lemma StepRefines(m: Mem, l: Lru, max: Option<nat>, op: Op, counter: nat, now: nat)
    requires Refines(m, l) && StampsBelow(m.entries, counter)
    ensures Refines(Locked(m, max, op, counter, now).0, LruStep(l, max, op, now).0)
    ensures Locked(m, max, op, counter, now).1 == LruStep(l, max, op, now).1
  {
    match op
    case Get(key) => GetRefines(m, l, key, counter, now);
    case Set(key, value, ttl) => SetRefines(m, l, max, key, value, Deadline(now, ttl), counter);
    case SetIfAbsent(key, value, ttl) => SetIfAbsentRefines(m, l, max, key, value, ttl, counter, now);
    case _ => RemovalRefines(m, l, max, op, counter, now);
  }

  lemma SetStamps(m: Mem, max: Option<nat>, key: string, value: Bytes, exp: Option<nat>, counter: nat)
    requires StampsBelow(m.entries, counter)
    ensures StampsBelow(SetLocked(m, max, key, value, exp, counter).entries, counter + 1)
  {
    BoundedFacts(m.(entries := m.entries[key := Entry(value, exp, counter)]), max);
  }

  lemma StepStamps(m: Mem, max: Option<nat>, op: Op, counter: nat, now: nat)
    requires StampsBelow(m.entries, counter)
    ensures StampsBelow(Locked(m, max, op, counter, now).0.entries, if Stamps(op) then counter + 1 else counter)
  {
    match op
    case Set(key, value, ttl) => SetStamps(m, max, key, value, Deadline(now, ttl), counter);
    case SetIfAbsent(key, value, ttl) =>
      SetStamps(m, max, key, value, Deadline(now, ttl), counter);
      SetStamps(m.(evictions := m.evictions + 1), max, key, value, Deadline(now, ttl), counter);
    case _ =>
  }

  /** Over every sequential run the map sorted by access stamp is exactly the
      move-to-end list, and both give the same replies and counters. */
  lemma {:induction false} RunRefines(max: Option<nat>, calls: seq<Timed>)
    ensures var (m, counter, replies) := RunMem(max, calls);
            var (l, replies') := RunLru(max, calls);
            Refines(m, l) && StampsBelow(m.entries, counter) && replies == replies'
  {
    if calls != [] {
      var n := |calls| - 1;
      RunRefines(max, calls[..n]);
      var (m, counter, _) := RunMem(max, calls[..n]);
      var (l, _) := RunLru(max, calls[..n]);
      StepRefines(m, l, max, calls[n].op, counter, calls[n].now);
      StepStamps(m, max, calls[n].op, counter, calls[n].now);
    }
  }

  lemma HeadsEqual(entries: map<string, Entry>, a: seq<Item>, b: seq<Item>)
    requires Lists(entries, a) && Lists(entries, b) && a != []
    ensures b != [] && a[0] == b[0]
  {
    assert a[0] in a && a[0].key in entries && ItemOf(entries, a[0].key) in b;
    HeadIsVictim(entries, a);
    HeadIsVictim(entries, b);
    assert b[0] in b;
  }

  lemma TailsList(entries: map<string, Entry>, a: seq<Item>, b: seq<Item>)
    requires Lists(entries, a) && Lists(entries, b) && a != []
    ensures b != [] && a[0] == b[0]
    ensures Lists(entries - {a[0].key}, a[1..]) && Lists(entries - {a[0].key}, b[1..])
  {
    HeadsEqual(entries, a, b);
    TailLists(entries, a);
    TailLists(entries, b);
  }

  /** The list determines the map's recency order: no other list refines it. */
  lemma {:induction false} OrderIsUnique(entries: map<string, Entry>, a: seq<Item>, b: seq<Item>)
    requires Lists(entries, a) && Lists(entries, b)
    ensures a == b
    decreases |a|
  {
    if a == [] {
      if b != [] {
        HeadsEqual(entries, b, a);
      }
    } else {
      TailsList(entries, a, b);
      OrderIsUnique(entries - {a[0].key}, a[1..], b[1..]);
      assert a == [a[0]] + a[1..] && b == [b[0]] + b[1..];
    }
  }
}
