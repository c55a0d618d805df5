/** The canonical form of a JSON payload that is signed and sent. An object is
    the list of its members in insertion order; what a tree means is a value in
    which objects are maps. */
module CanonicalJson {
  import opened SortedMap

  datatype Json =
    | Null
    | Bool(b: bool)
    | Number(text: string)
    | Str(s: string)
    | Array(items: seq<Json>)
    | Object(members: seq<Entry<Json>>)

  datatype Value =
    | NullValue
    | BoolValue(b: bool)
    | NumberValue(text: string)
    | StrValue(s: string)
    | ArrayValue(items: seq<Value>)
    | ObjectValue(members: map<string, Value>)

  function Meaning(j: Json): Value
    decreases j
  {
    match j
    case Null => NullValue
    case Bool(b) => BoolValue(b)
    case Number(text) => NumberValue(text)
    case Str(s) => StrValue(s)
    case Array(items) => ArrayValue(ItemsMeaning(items))
    case Object(members) => ObjectValue(MembersMeaning(members))
  }

  function ItemsMeaning(items: seq<Json>): (r: seq<Value>)
    ensures |r| == |items|
    decreases items
  {
    if items == [] then []
    else ItemsMeaning(items[..|items| - 1]) + [Meaning(items[|items| - 1])]
  }

  /** A repeated key means its last member. */
  function MembersMeaning(members: seq<Entry<Json>>): map<string, Value>
    decreases members
  {
    if members == [] then map[]
    else
      var n := |members| - 1;
      MembersMeaning(members[..n])[members[n].key := Meaning(members[n].value)]
  }

  // ---------------------------------------------------------------------
  // The rebuild
  // ---------------------------------------------------------------------

  function Canonical(j: Json): Json
    decreases j
  {
    match j
    case Array(items) => Array(CanonicalItems(items))
    case Object(members) => Object(CanonicalMembers(members))
    case _ => j
  }

  function CanonicalItems(items: seq<Json>): (r: seq<Json>)
    ensures |r| == |items|
    decreases items
  {
    if items == [] then []
    else CanonicalItems(items[..|items| - 1]) + [Canonical(items[|items| - 1])]
  }

  /** Members inserted one after another into an ordered map, read off in order. */
  function CanonicalMembers(members: seq<Entry<Json>>): seq<Entry<Json>>
    decreases members
  {
    if members == [] then []
    else
      var n := |members| - 1;
      Insert(CanonicalMembers(members[..n]), members[n].key, Canonical(members[n].value))
  }

  /** Keys strictly ascending at every depth. */
  ghost predicate IsCanonical(j: Json)
    decreases j
  {
    match j
    case Array(items) => forall i | 0 <= i < |items| :: IsCanonical(items[i])
    case Object(members) => Sorted(members) && forall i | 0 <= i < |members| :: IsCanonical(members[i].value)
    case _ => true
  }

  method Canonicalize(value: Json) returns (r: Json)
    ensures r == Canonical(value)
    decreases value
  {
    match value {
      case Object(members) =>
        var sorted: seq<Entry<Json>> := [];
        for i := 0 to |members|
          invariant sorted == CanonicalMembers(members[..i])
        {
          var v := Canonicalize(members[i].value);
          assert members[..i + 1][..i] == members[..i];
          sorted := Insert(sorted, members[i].key, v);
        }
        assert members[..|members|] == members;
        r := Object(sorted);
      case Array(items) =>
        var out: seq<Json> := [];
        for i := 0 to |items|
          invariant out == CanonicalItems(items[..i])
        {
          var v := Canonicalize(items[i]);
          assert items[..i + 1][..i] == items[..i];
          out := out + [v];
        }
        assert items[..|items|] == items;
        r := Array(out);
      case _ => r := value;
    }
  }

  // ---------------------------------------------------------------------
  // What the rebuild promises
  // ---------------------------------------------------------------------

  /** At every depth each key is before the next in the order of character codes,
      a key before its extensions. */
  ghost predicate KeysInCodeOrder(j: Json)
    decreases j
  {
    match j
    case Array(items) => forall i | 0 <= i < |items| :: KeysInCodeOrder(items[i])
    case Object(members) =>
      && (forall i, k | 0 <= i < k < |members| :: CodeOrder(members[i].key, members[k].key))
      && forall i | 0 <= i < |members| :: KeysInCodeOrder(members[i].value)
    case _ => true
  }

  lemma {:induction false} CanonicalIsInCodeOrder(j: Json)
    requires IsCanonical(j)
    ensures KeysInCodeOrder(j)
    decreases j
  {
    match j
    case Array(items) =>
      forall i | 0 <= i < |items| ensures KeysInCodeOrder(items[i]) {
        CanonicalIsInCodeOrder(items[i]);
      }
    case Object(members) =>
      forall i, k | 0 <= i < k < |members| ensures CodeOrder(members[i].key, members[k].key) {
        LessIsCodeOrder(members[i].key, members[k].key);
      }
      forall i | 0 <= i < |members| ensures KeysInCodeOrder(members[i].value) {
        CanonicalIsInCodeOrder(members[i].value);
      }
    case _ =>
  }

  /** The result is sorted at every depth. */
  lemma {:induction false} CanonicalIsSorted(j: Json)
    ensures KeysInCodeOrder(Canonical(j))
  {
    CanonicalSorted(j);
    CanonicalIsInCodeOrder(Canonical(j));
  }

  lemma {:induction false} CanonicalSorted(j: Json)
    ensures IsCanonical(Canonical(j))
    decreases j
  {
    match j
    case Array(items) => ItemsSorted(items);
    case Object(members) => MembersSorted(members);
    case _ =>
  }

  lemma {:induction false} ItemsSorted(items: seq<Json>)
    ensures forall i | 0 <= i < |items| :: IsCanonical(CanonicalItems(items)[i])
    decreases items
  {
    if items != [] {
      ItemsSorted(items[..|items| - 1]);
      CanonicalSorted(items[|items| - 1]);
    }
  }

  lemma {:induction false} MembersSorted(members: seq<Entry<Json>>)
    ensures Sorted(CanonicalMembers(members))
    ensures forall e | e in CanonicalMembers(members) :: IsCanonical(e.value)
    decreases members
  {
    if members != [] {
      var n := |members| - 1;
      MembersSorted(members[..n]);
      CanonicalSorted(members[n].value);
      var before := CanonicalMembers(members[..n]);
      InsertSorted(before, members[n].key, Canonical(members[n].value));
      forall e | e in CanonicalMembers(members) ensures IsCanonical(e.value) {
        InsertMember(before, members[n].key, Canonical(members[n].value), e);
      }
    }
  }

  /** The meaning of a sorted member list, looked up key by key. */
  ghost predicate Means(members: seq<Entry<Json>>, k: string, v: Value) {
    exists e :: e in members && e.key == k && Meaning(e.value) == v
  }

  lemma {:induction false} SortedMeaning(members: seq<Entry<Json>>, k: string, v: Value)
    requires Sorted(members)
    ensures Holds(MembersMeaning(members), k, v) <==> Means(members, k, v)
  {
    if members != [] {
      var n := |members| - 1;
      SortedMeaning(members[..n], k, v);
      assert members == members[..n] + [members[n]];
      forall e | e in members[..n] ensures e.key != members[n].key {
        var i :| 0 <= i < n && members[..n][i] == e;
        LessTrichotomy(members[i].key, members[n].key);
      }
    }
  }

  lemma InsertMeans(members: seq<Entry<Json>>, key: string, j: Json, k: string, v: Value)
    requires Sorted(members)
    ensures Means(Insert(members, key, j), k, v) <==> (if k == key then v == Meaning(j) else Means(members, k, v))
  {
    var after := Insert(members, key, j);
    InsertMember(members, key, j, Entry(key, j));
    if Means(after, k, v) {
      var e :| e in after && e.key == k && Meaning(e.value) == v;
      InsertMember(members, key, j, e);
    }
    if k != key && Means(members, k, v) {
      var e :| e in members && e.key == k && Meaning(e.value) == v;
      InsertMember(members, key, j, e);
    }
  }

  /** Inserting a member updates the meaning. */
  lemma InsertMeaning(members: seq<Entry<Json>>, key: string, j: Json)
    requires Sorted(members)
    ensures MembersMeaning(Insert(members, key, j)) == MembersMeaning(members)[key := Meaning(j)]
  {
    var after := Insert(members, key, j);
    InsertSorted(members, key, j);
    forall k, v
      ensures Holds(MembersMeaning(after), k, v) <==> Holds(MembersMeaning(members)[key := Meaning(j)], k, v)
    {
      SortedMeaning(after, k, v);
      SortedMeaning(members, k, v);
      InsertMeans(members, key, j, k, v);
    }
    SameMap(MembersMeaning(after), MembersMeaning(members)[key := Meaning(j)]);
  }

  ghost predicate Holds(m: map<string, Value>, k: string, v: Value) {
    k in m && m[k] == v
  }

  lemma SameMap(a: map<string, Value>, b: map<string, Value>)
    requires forall k, v :: Holds(a, k, v) <==> Holds(b, k, v)
    ensures a == b
  {
    assert forall k | k in a :: Holds(a, k, a[k]);
    assert forall k | k in b :: Holds(b, k, b[k]);
  }

  /** The rebuild keeps the value, as nested maps and arrays. */
  lemma {:induction false} CanonicalKeepsMeaning(j: Json)
    ensures Meaning(Canonical(j)) == Meaning(j)
    decreases j
  {
    match j
    case Array(items) => ItemsKeepMeaning(items);
    case Object(members) => MembersKeepMeaning(members);
    case _ =>
  }

  lemma {:induction false} ItemsKeepMeaning(items: seq<Json>)
    ensures ItemsMeaning(CanonicalItems(items)) == ItemsMeaning(items)
    decreases items
  {
    if items != [] {
      var n := |items| - 1;
      ItemsKeepMeaning(items[..n]);
      CanonicalKeepsMeaning(items[n]);
      assert CanonicalItems(items)[..n] == CanonicalItems(items[..n]);
    }
  }

  lemma {:induction false} MembersKeepMeaning(members: seq<Entry<Json>>)
    ensures MembersMeaning(CanonicalMembers(members)) == MembersMeaning(members)
    decreases members
  {
    if members != [] {
      var n := |members| - 1;
      MembersKeepMeaning(members[..n]);
      CanonicalKeepsMeaning(members[n].value);
      MembersSorted(members[..n]);
      InsertMeaning(CanonicalMembers(members[..n]), members[n].key, Canonical(members[n].value));
    }
  }

  lemma {:induction false} ItemsMeaningAt(items: seq<Json>, i: nat)
    requires i < |items|
    ensures ItemsMeaning(items)[i] == Meaning(items[i])
  {
    if i < |items| - 1 {
      ItemsMeaningAt(items[..|items| - 1], i);
    }
  }

  /** A canonical tree is determined by its meaning. */
  lemma {:induction false} CanonicalUnique(a: Json, b: Json)
    requires IsCanonical(a) && IsCanonical(b) && Meaning(a) == Meaning(b)
    ensures a == b
    decreases a
  {
    match a
    case Array(items) =>
      forall i | 0 <= i < |items| ensures items[i] == b.items[i] {
        ItemsMeaningAt(items, i);
        ItemsMeaningAt(b.items, i);
        CanonicalUnique(items[i], b.items[i]);
      }
      assert |ItemsMeaning(items)| == |ItemsMeaning(b.items)|;
    case Object(members) =>
      forall i | 0 <= i < |members| ensures members[i] in b.members {
        MemberIn(members, b.members, i);
      }
      forall i | 0 <= i < |b.members| ensures b.members[i] in members {
        MemberInBack(members, b.members, i);
      }
      forall e ensures e in members <==> e in b.members {}
      SortedUnique(members, b.members);
    case _ =>
  }

  lemma {:induction false} MemberIn(a: seq<Entry<Json>>, b: seq<Entry<Json>>, i: nat)
    requires i < |a| && IsCanonical(Object(a)) && IsCanonical(Object(b)) && MembersMeaning(a) == MembersMeaning(b)
    ensures a[i] in b
    decreases a, 0
  {
    var Entry(k, v) := a[i];
    SortedMeaning(a, k, Meaning(v));
    SortedMeaning(b, k, Meaning(v));
    assert a[i] in a;
    assert Means(a, k, Meaning(v));
    var e :| e in b && e.key == k && Meaning(e.value) == Meaning(v);
    CanonicalUnique(v, e.value);
  }

  lemma {:induction false} MemberInBack(a: seq<Entry<Json>>, b: seq<Entry<Json>>, j: nat)
    requires j < |b| && IsCanonical(Object(a)) && IsCanonical(Object(b)) && MembersMeaning(a) == MembersMeaning(b)
    ensures b[j] in a
    decreases a, 0
  {
    var Entry(k, v) := b[j];
    SortedMeaning(b, k, Meaning(v));
    SortedMeaning(a, k, Meaning(v));
    assert b[j] in b;
    assert Means(b, k, Meaning(v));
    var e :| e in a && e.key == k && Meaning(e.value) == Meaning(v);
    var i :| 0 <= i < |a| && a[i] == e;
    CanonicalUnique(a[i].value, v);
  }

  /** Two payloads get the same canonical form exactly when they mean the same
      value, so the signature does not depend on how the caller ordered keys. */
  lemma SameFormIffSameMeaning(a: Json, b: Json)
    ensures Canonical(a) == Canonical(b) <==> Meaning(a) == Meaning(b)
  {
    CanonicalSorted(a);
    CanonicalSorted(b);
    CanonicalKeepsMeaning(a);
    CanonicalKeepsMeaning(b);
    if Meaning(a) == Meaning(b) {
      CanonicalUnique(Canonical(a), Canonical(b));
    }
  }

  lemma CanonicalIdempotent(j: Json)
    ensures Canonical(Canonical(j)) == Canonical(j)
  {
    CanonicalKeepsMeaning(j);
    SameFormIffSameMeaning(Canonical(j), j);
  }

  /** Trees that differ only in the order of object members, at any depth. */
  ghost predicate Reordered(a: Json, b: Json)
    decreases a
  {
    match a
    case Array(items) => b.Array? && |items| == |b.items| && forall i | 0 <= i < |items| :: Reordered(items[i], b.items[i])
    case Object(members) =>
      && b.Object?
      && DistinctKeys(members) && DistinctKeys(b.members)
      && |members| == |b.members|
      && (forall i | 0 <= i < |members| :: exists j :: 0 <= j < |b.members| && members[i].key == b.members[j].key && Reordered(members[i].value, b.members[j].value))
      && (forall j | 0 <= j < |b.members| :: exists i :: 0 <= i < |members| && members[i].key == b.members[j].key)
    case _ => a == b
  }

  ghost predicate DistinctKeys(members: seq<Entry<Json>>) {
    forall i, j | 0 <= i < j < |members| :: members[i].key != members[j].key
  }

  lemma {:induction false} DistinctMeaning(members: seq<Entry<Json>>, i: nat)
    requires DistinctKeys(members) && i < |members|
    ensures members[i].key in MembersMeaning(members) && MembersMeaning(members)[members[i].key] == Meaning(members[i].value)
  {
    var n := |members| - 1;
    if i < n {
      DistinctMeaning(members[..n], i);
    }
  }

  lemma {:induction false} MeaningKeys(members: seq<Entry<Json>>)
    ensures forall k :: k in MembersMeaning(members) <==> exists i :: 0 <= i < |members| && members[i].key == k
  {
    if members != [] {
      var n := |members| - 1;
      MeaningKeys(members[..n]);
      assert forall i | 0 <= i < n :: members[..n][i] == members[i];
    }
  }

  lemma {:induction false} ReorderedSameMeaning(a: Json, b: Json)
    requires Reordered(a, b)
    ensures Meaning(a) == Meaning(b)
    decreases a, 2
  {
    match a
    case Array(items) =>
      forall i | 0 <= i < |items| ensures ItemsMeaning(items)[i] == ItemsMeaning(b.items)[i] {
        ReorderedSameMeaning(items[i], b.items[i]);
        ItemsMeaningAt(items, i);
        ItemsMeaningAt(b.items, i);
      }
    case Object(members) => ReorderedMembers(a, b);
    case _ =>
  }

  lemma {:induction false} ReorderedMembers(a: Json, b: Json)
    requires Reordered(a, b) && a.Object?
    ensures b.Object? && MembersMeaning(a.members) == MembersMeaning(b.members)
    decreases a, 1
  {
    forall k | k in MembersMeaning(a.members)
      ensures k in MembersMeaning(b.members) && MembersMeaning(a.members)[k] == MembersMeaning(b.members)[k]
    {
      ReorderedKey(a, b, k);
    }
    forall k | k in MembersMeaning(b.members) ensures k in MembersMeaning(a.members) {
      ReorderedKeyBack(a, b, k);
    }
  }

  lemma {:induction false} ReorderedKey(a: Json, b: Json, k: string)
    requires Reordered(a, b) && a.Object? && k in MembersMeaning(a.members)
    ensures b.Object? && k in MembersMeaning(b.members) && MembersMeaning(a.members)[k] == MembersMeaning(b.members)[k]
    decreases a, 0
  {
    var i := IndexOfKey(a.members, k);
    var j := Partner(a, b, i);
    ReorderedSameMeaning(a.members[i].value, b.members[j].value);
    DistinctMeaning(a.members, i);
    DistinctMeaning(b.members, j);
  }

  lemma ReorderedKeyBack(a: Json, b: Json, k: string)
    requires Reordered(a, b) && a.Object? && k in MembersMeaning(b.members)
    ensures k in MembersMeaning(a.members)
  {
    var j := IndexOfKey(b.members, k);
    var i := PartnerBack(a, b, j);
    DistinctMeaning(a.members, i);
  }

  lemma IndexOfKey(members: seq<Entry<Json>>, k: string) returns (i: nat)
    requires k in MembersMeaning(members)
    ensures i < |members| && members[i].key == k
  {
    MeaningKeys(members);
    i :| 0 <= i < |members| && members[i].key == k;
  }

  lemma PartnerBack(a: Json, b: Json, j: nat) returns (i: nat)
    requires Reordered(a, b) && a.Object? && j < |b.members|
    ensures DistinctKeys(a.members) && i < |a.members| && a.members[i].key == b.members[j].key
  {
    i :| 0 <= i < |a.members| && a.members[i].key == b.members[j].key;
  }

  lemma Partner(a: Json, b: Json, i: nat) returns (j: nat)
    requires Reordered(a, b) && a.Object? && i < |a.members|
    ensures DistinctKeys(a.members) && DistinctKeys(b.members)
    ensures j < |b.members| && a.members[i].key == b.members[j].key && Reordered(a.members[i].value, b.members[j].value)
  {
    j :| 0 <= j < |b.members| && a.members[i].key == b.members[j].key && Reordered(a.members[i].value, b.members[j].value);
  }

  /** Identical output for trees that differ only in key order. */
  lemma {:induction false} ReorderedSameForm(a: Json, b: Json)
    requires Reordered(a, b)
    ensures Canonical(a) == Canonical(b)
  {
    ReorderedSameMeaning(a, b);
    SameFormIffSameMeaning(a, b);
  }
}
