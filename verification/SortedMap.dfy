/** The ordered map keyed by strings, as the sorted list of its entries. String
    order is the order of character codes, which is also the byte order of the
    UTF-8 encodings. */
module SortedMap {

  datatype Entry<V> = Entry(key: string, value: V)

  predicate Less(a: string, b: string) {
    if b == "" then false
    else if a == "" then true
    else if a[0] != b[0] then a[0] < b[0]
    else Less(a[1..], b[1..])
  }

  /** The order in its own terms: the first place where the strings differ decides
      by character code, and a string comes before its extensions. */
  ghost predicate CodeOrder(a: string, b: string) {
    exists k: nat :: DecidesAt(a, b, k)
  }

  ghost predicate DecidesAt(a: string, b: string, k: nat) {
    k <= |a| && k < |b| && a[..k] == b[..k] && (k == |a| || a[k] < b[k])
  }

  lemma {:induction false} LessDecides(a: string, b: string) returns (k: nat)
    requires Less(a, b)
    ensures DecidesAt(a, b, k)
  {
    if a == "" || a[0] != b[0] {
      k := 0;
    } else {
      var m := LessDecides(a[1..], b[1..]);
      k := m + 1;
      assert a[..k] == [a[0]] + a[1..][..m] && b[..k] == [b[0]] + b[1..][..m];
    }
  }

  lemma {:induction false} DecidedIsLess(a: string, b: string, k: nat)
    requires DecidesAt(a, b, k)
    ensures Less(a, b)
  {
    if k > 0 {
      assert a[0] == a[..k][0] == b[..k][0] == b[0];
      assert a[1..][..k - 1] == a[..k][1..] && b[1..][..k - 1] == b[..k][1..];
      DecidedIsLess(a[1..], b[1..], k - 1);
    }
  }

  lemma LessIsCodeOrder(a: string, b: string)
    ensures Less(a, b) <==> CodeOrder(a, b)
  {
    if Less(a, b) {
      var k := LessDecides(a, b);
    }
    if k: nat :| DecidesAt(a, b, k) {
      DecidedIsLess(a, b, k);
    }
  }

  lemma {:induction false} LessTrichotomy(a: string, b: string)
    ensures Less(a, b) || Less(b, a) || a == b
    ensures !(Less(a, b) && Less(b, a)) && (Less(a, b) ==> a != b)
  {
    if a != "" && b != "" && a[0] == b[0] {
      LessTrichotomy(a[1..], b[1..]);
      assert a == [a[0]] + a[1..] && b == [b[0]] + b[1..];
    }
  }

  lemma {:induction false} LessTransitive(a: string, b: string, c: string)
    requires Less(a, b) && Less(b, c)
    ensures Less(a, c)
  {
    if a != "" && a[0] == b[0] == c[0] {
      LessTransitive(a[1..], b[1..], c[1..]);
    }
  }

  ghost predicate Sorted<V>(entries: seq<Entry<V>>) {
    forall i, j | 0 <= i < j < |entries| :: Less(entries[i].key, entries[j].key)
  }

  function Insert<V>(entries: seq<Entry<V>>, key: string, value: V): seq<Entry<V>> {
    if entries == [] then [Entry(key, value)]
    else if entries[0].key == key then [Entry(key, value)] + entries[1..]
    else if Less(key, entries[0].key) then [Entry(key, value)] + entries
    else [entries[0]] + Insert(entries[1..], key, value)
  }

  function AsMap<V>(entries: seq<Entry<V>>): (m: map<string, V>)
    ensures forall k :: k in m <==> exists i :: 0 <= i < |entries| && entries[i].key == k
  {
    if entries == [] then map[]
    else
      var n := |entries| - 1;
      AsMap(entries[..n])[entries[n].key := entries[n].value]
  }

  lemma {:induction false} InsertMember<V>(entries: seq<Entry<V>>, key: string, value: V, e: Entry<V>)
    requires Sorted(entries)
    ensures e in Insert(entries, key, value) <==> e == Entry(key, value) || (e in entries && e.key != key)
  {
    if entries != [] {
      KeysAfterHead(entries);
      assert entries == [entries[0]] + entries[1..];
      LessTrichotomy(key, entries[0].key);
      if entries[0].key == key {
      } else if Less(key, entries[0].key) {
        if e in entries && e != entries[0] {
          assert e in entries[1..];
          LessTransitive(key, entries[0].key, e.key);
          LessTrichotomy(key, e.key);
        }
      } else {
        InsertMember(entries[1..], key, value, e);
      }
    }
  }

  lemma {:induction false} InsertSorted<V>(entries: seq<Entry<V>>, key: string, value: V)
    requires Sorted(entries)
    ensures Sorted(Insert(entries, key, value))
  {
    if entries != [] {
      KeysAfterHead(entries);
      LessTrichotomy(key, entries[0].key);
      if entries[0].key != key && Less(key, entries[0].key) {
        forall j | 0 < j < |entries| ensures Less(key, entries[j].key) {
          LessTransitive(key, entries[0].key, entries[j].key);
        }
      } else if entries[0].key != key {
        var rest := Insert(entries[1..], key, value);
        InsertSorted(entries[1..], key, value);
        forall j | 0 <= j < |rest| ensures Less(entries[0].key, rest[j].key) {
          assert rest[j] in rest;
          InsertMember(entries[1..], key, value, rest[j]);
        }
      }
    }
  }

  lemma KeysAfterHead<V>(entries: seq<Entry<V>>)
    requires Sorted(entries) && entries != []
    ensures forall e | e in entries[1..] :: Less(entries[0].key, e.key) && e.key != entries[0].key
  {
    forall e | e in entries[1..] ensures Less(entries[0].key, e.key) && e.key != entries[0].key {
      var i :| 0 <= i < |entries[1..]| && entries[1..][i] == e;
      assert entries[i + 1] == e;
      LessTrichotomy(entries[0].key, e.key);
    }
  }

  /** In a sorted list the map holds exactly the listed pairs. */
  lemma {:induction false} SortedLookup<V>(entries: seq<Entry<V>>, k: string, v: V)
    requires Sorted(entries)
    ensures (k in AsMap(entries) && AsMap(entries)[k] == v) <==> Entry(k, v) in entries
  {
    if entries != [] {
      var n := |entries| - 1;
      SortedLookup(entries[..n], k, v);
      assert entries == entries[..n] + [entries[n]];
      forall i | 0 <= i < n ensures entries[i].key != entries[n].key {
        LessTrichotomy(entries[i].key, entries[n].key);
      }
      if Entry(k, v) in entries[..n] {
        var i :| 0 <= i < n && entries[..n][i] == Entry(k, v);
        assert entries[i].key == k;
      }
    }
  }

  /** Inserting is updating the map. */
  lemma InsertUpdates<V>(entries: seq<Entry<V>>, key: string, value: V)
    requires Sorted(entries)
    ensures AsMap(Insert(entries, key, value)) == AsMap(entries)[key := value]
  {
    var after, updated := AsMap(Insert(entries, key, value)), AsMap(entries)[key := value];
    InsertSorted(entries, key, value);
    forall k | k in after ensures k in updated && updated[k] == after[k] {
      SortedLookup(Insert(entries, key, value), k, after[k]);
      InsertMember(entries, key, value, Entry(k, after[k]));
      SortedLookup(entries, k, after[k]);
    }
    forall k | k in updated ensures k in after {
      SortedLookup(entries, k, updated[k]);
      InsertMember(entries, key, value, Entry(k, updated[k]));
      SortedLookup(Insert(entries, key, value), k, updated[k]);
    }
  }

  /** A sorted list is determined by its map. */
  lemma {:induction false} SortedUnique<V>(a: seq<Entry<V>>, b: seq<Entry<V>>)
    requires Sorted(a) && Sorted(b) && forall e :: e in a <==> e in b
    ensures a == b
  {
    assert a != [] ==> a[0] in a && a[0] in b;
    assert b != [] ==> b[0] in b && b[0] in a;
    if a != [] && b != [] {
      assert a == [a[0]] + a[1..] && b == [b[0]] + b[1..];
      KeysAfterHead(a);
      KeysAfterHead(b);
      LessTrichotomy(a[0].key, b[0].key);
      assert a[0] == b[0];
      forall e ensures e in a[1..] <==> e in b[1..] {
        assert e in a <==> e == a[0] || e in a[1..];
        assert e in b <==> e == b[0] || e in b[1..];
      }
      SortedUnique(a[1..], b[1..]);
    }
  }
}
