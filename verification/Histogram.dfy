/** The histogram cells, written by one thread at a time. `f64` is modelled by
    exact reals; a bound may also be infinite, because registration filters the
    infinite ones out. */
module Histogram {
  import opened Text

  datatype Bound = Finite(value: real) | PosInf | NegInf

  /** The cells of one series. `bins[j]` counts the values whose first bound at
      or above them is `bounds[j]`. */
  datatype Cells = Cells(bounds: seq<real>, bins: seq<nat>, count: nat, sum: real, max: real)

  predicate Ascending(bounds: seq<real>) {
    forall i, j | 0 <= i < j < |bounds| :: bounds[i] < bounds[j]
  }

  // ---------------------------------------------------------------------
  // Registration: filter, sort and dedup of the bounds
  // ---------------------------------------------------------------------

  function FiniteOnly(bounds: seq<Bound>): seq<real> {
    if bounds == [] then []
    else (if bounds[0].Finite? then [bounds[0].value] else []) + FiniteOnly(bounds[1..])
  }

  /** Sorted insertion that keeps one copy of each value: what sorting and then
      dropping equal neighbours leaves. */
  function InsertBound(b: real, sorted: seq<real>): (r: seq<real>)
    requires Ascending(sorted)
    ensures Ascending(r)
    ensures forall x :: x in r <==> x == b || x in sorted
  {
    if sorted == [] then [b]
    else if b < sorted[0] then [b] + sorted
    else if b == sorted[0] then sorted
    else
      var rest := InsertBound(b, sorted[1..]);
      assert forall x :: x in sorted <==> x == sorted[0] || x in sorted[1..];
      assert forall x | x in sorted[1..] :: sorted[0] < x;
      assert forall i | 0 <= i < |rest| :: rest[i] in rest && sorted[0] < rest[i];
      [sorted[0]] + rest
  }

  function SortDedup(bounds: seq<real>): (r: seq<real>)
    ensures Ascending(r)
    ensures forall x :: x in r <==> x in bounds
  {
    if bounds == [] then []
    else
      assert forall x :: x in bounds <==> x == bounds[0] || x in bounds[1..];
      InsertBound(bounds[0], SortDedup(bounds[1..]))
  }

  /** Ascending lists are determined by their elements, so it does not matter
      which sorting algorithm builds the bounds. */
  lemma {:induction false} AscendingUnique(a: seq<real>, b: seq<real>)
    requires Ascending(a) && Ascending(b)
    requires forall x :: x in a <==> x in b
    ensures a == b
  {
    assert a != [] ==> a[0] in a && a[0] in b;
    assert b != [] ==> b[0] in b && b[0] in a;
    if a != [] && b != [] {
      assert a[0] == b[0];
      forall x ensures x in a[1..] <==> x in b[1..] {
        assert x in a <==> x == a[0] || x in a[1..];
        assert x in b <==> x == b[0] || x in b[1..];
      }
      AscendingUnique(a[1..], b[1..]);
    }
  }

  function NewCells(bounds: seq<Bound>): Cells {
    var sorted := SortDedup(FiniteOnly(bounds));
    Cells(sorted, seq(|sorted|, _ => 0), 0, 0.0, 0.0)
  }

  /** A new series: the finite bounds given, each once and ascending, and nothing
      counted. */
  lemma NewCellsAre(bounds: seq<Bound>)
    ensures var c := NewCells(bounds);
            && (forall i, j | 0 <= i < j < |c.bounds| :: c.bounds[i] < c.bounds[j])
            && (forall x :: x in c.bounds <==> Finite(x) in bounds)
            && |c.bins| == |c.bounds| && (forall j | 0 <= j < |c.bins| :: c.bins[j] == 0)
            && c.count == 0 && c.sum == 0.0 && c.max == 0.0
  {
    forall x ensures x in NewCells(bounds).bounds <==> Finite(x) in bounds {
      FiniteOnlyMember(bounds, x);
    }
  }

  lemma {:induction false} FiniteOnlyMember(bounds: seq<Bound>, x: real)
    ensures x in FiniteOnly(bounds) <==> Finite(x) in bounds
  {
    if bounds != [] {
      FiniteOnlyMember(bounds[1..], x);
      assert bounds == [bounds[0]] + bounds[1..];
    }
  }

  // ---------------------------------------------------------------------
  // What one observation does
  // ---------------------------------------------------------------------

  /** The first bound at or above `v`; `|bounds|` when there is none. */
  function Bucket(bounds: seq<real>, v: real): (idx: nat)
    ensures idx <= |bounds|
    ensures forall j | 0 <= j < idx :: bounds[j] < v
    ensures idx < |bounds| ==> v <= bounds[idx]
  {
    if bounds == [] || v <= bounds[0] then 0 else 1 + Bucket(bounds[1..], v)
  }

  function Max(a: real, b: real): real {
    if a >= b then a else b
  }

  function AddToBin(c: Cells, v: real): (c': Cells)
    requires |c.bins| == |c.bounds|
    ensures |c'.bins| == |c'.bounds|
  {
    var idx := Bucket(c.bounds, v);
    if idx < |c.bounds| then c.(bins := c.bins[idx := c.bins[idx] + 1]) else c
  }

  /** `observe`: the count first, then sum and maximum, the bin last. */
  function Observed(c: Cells, v: real): (c': Cells)
    requires |c.bins| == |c.bounds|
    ensures |c'.bins| == |c'.bounds|
  {
    AddToBin(c.(count := c.count + 1, sum := c.sum + v, max := Max(c.max, v)), v)
  }

  function Total(bins: seq<nat>): nat {
    if bins == [] then 0 else Total(bins[..|bins| - 1]) + bins[|bins| - 1]
  }

  /** The count a cumulative bucket stands for: the bins `0..j`. */
  function UpTo(bins: seq<nat>, j: int): nat
    requires 0 <= j < |bins|
  {
    Total(bins[..j + 1])
  }

  function CountAtMost(vs: seq<real>, bound: real): nat {
    if vs == [] then 0 else CountAtMost(vs[..|vs| - 1], bound) + if vs[|vs| - 1] <= bound then 1 else 0
  }

  function Sum(vs: seq<real>): real {
    if vs == [] then 0.0 else Sum(vs[..|vs| - 1]) + vs[|vs| - 1]
  }

  function ObservedAll(c: Cells, vs: seq<real>): (c': Cells)
    requires |c.bins| == |c.bounds|
    ensures |c'.bins| == |c'.bounds| && c'.bounds == c.bounds
  {
    if vs == [] then c else Observed(ObservedAll(c, vs[..|vs| - 1]), vs[|vs| - 1])
  }

  lemma {:induction false} TotalUpdate(bins: seq<nat>, i: nat, x: nat)
    requires i < |bins|
    ensures Total(bins[i := x]) == Total(bins) - bins[i] + x
  {
    var last := |bins| - 1;
    if i == last {
      assert bins[i := x][..last] == bins[..last];
    } else {
      TotalUpdate(bins[..last], i, x);
      assert bins[i := x][..last] == bins[..last][i := x];
    }
  }

  lemma {:induction false} TotalZero(bins: seq<nat>)
    requires forall i | 0 <= i < |bins| :: bins[i] == 0
    ensures Total(bins) == 0
  {
    if bins != [] {
      TotalZero(bins[..|bins| - 1]);
    }
  }

  /** Raising a bin shows in a cumulative count exactly when the bin lies in its
      range, that is when the value is at or below the range's last bound. */
  lemma BinInPrefix(c: Cells, v: real, j: nat)
    requires |c.bins| == |c.bounds| && Ascending(c.bounds) && j < |c.bounds|
    ensures UpTo(AddToBin(c, v).bins, j) == UpTo(c.bins, j) + if v <= c.bounds[j] then 1 else 0
  {
    var idx := Bucket(c.bounds, v);
    var bins := AddToBin(c, v).bins;
    if idx <= j {
      assert v <= c.bounds[idx] <= c.bounds[j];
      assert bins[..j + 1] == c.bins[..j + 1][idx := c.bins[idx] + 1];
      TotalUpdate(c.bins[..j + 1], idx, c.bins[idx] + 1);
    } else {
      assert bins[..j + 1] == c.bins[..j + 1];
    }
  }

  lemma ObservedBucket(c: Cells, v: real, j: nat)
    requires |c.bins| == |c.bounds| && Ascending(c.bounds) && j < |c.bounds|
    ensures UpTo(Observed(c, v).bins, j) == UpTo(c.bins, j) + if v <= c.bounds[j] then 1 else 0
  {
    BinInPrefix(c.(count := c.count + 1, sum := c.sum + v, max := Max(c.max, v)), v, j);
  }

  /** After any list of observations every cumulative bucket is the number of
      values at or below its bound, so a scrape at rest prints exact counts. */
  lemma {:induction false} BucketsAreExact(c: Cells, vs: seq<real>, j: nat)
    requires |c.bins| == |c.bounds| && Ascending(c.bounds) && j < |c.bounds|
    ensures UpTo(ObservedAll(c, vs).bins, j) == UpTo(c.bins, j) + CountAtMost(vs, c.bounds[j])
  {
    if vs != [] {
      var n := |vs| - 1;
      BucketsAreExact(c, vs[..n], j);
      ObservedBucket(ObservedAll(c, vs[..n]), vs[n], j);
    }
  }

  /** A new series starts from empty buckets. */
  lemma NewBucketsEmpty(bounds: seq<Bound>, j: nat)
    requires j < |NewCells(bounds).bounds|
    ensures UpTo(NewCells(bounds).bins, j) == 0
  {
    TotalZero(NewCells(bounds).bins[..j + 1]);
  }

  /** The other cells: number, sum, and the largest of the values and 0. */
  lemma {:induction false} TotalsAreExact(bounds: seq<Bound>, vs: seq<real>)
    ensures var c := ObservedAll(NewCells(bounds), vs);
            && c.count == |vs| && c.sum == Sum(vs)
            && c.max >= 0.0 && (forall i | 0 <= i < |vs| :: vs[i] <= c.max)
            && (c.max == 0.0 || c.max in vs)
  {
    if vs != [] {
      var n := |vs| - 1;
      TotalsAreExact(bounds, vs[..n]);
      var before := ObservedAll(NewCells(bounds), vs[..n]);
      assert Observed(before, vs[n]).max == Max(before.max, vs[n]);
      assert forall i | 0 <= i < n :: vs[i] == vs[..n][i];
    }
  }

  ghost predicate IsLargest(m: real, vs: seq<real>) {
    m in vs && forall i | 0 <= i < |vs| :: vs[i] <= m
  }

  /** The documentation calls the maximum the largest observed value. The cell
      starts at 0: the claim holds exactly when some value is not negative. */
  lemma MaxIsLargestIff(bounds: seq<Bound>, vs: seq<real>)
    requires vs != []
    ensures IsLargest(ObservedAll(NewCells(bounds), vs).max, vs) <==> exists i :: 0 <= i < |vs| && vs[i] >= 0.0
  {
    TotalsAreExact(bounds, vs);
    var m := ObservedAll(NewCells(bounds), vs).max;
    if i :| 0 <= i < |vs| && vs[i] >= 0.0 {
      assert m == 0.0 ==> vs[i] == 0.0;
    }
    if m in vs {
      var i :| 0 <= i < |vs| && vs[i] == m;
      assert vs[i] >= 0.0;
    }
  }

  /** A single negative value leaves a maximum that was never observed. */
  lemma NegativeValueHasMaxZero(bounds: seq<Bound>)
    ensures ObservedAll(NewCells(bounds), [-1.0]).max == 0.0 && !IsLargest(0.0, [-1.0])
  {
    TotalsAreExact(bounds, [-1.0]);
    assert [-1.0][0] < 0.0;
  }

  /** The cumulative counts, bin by bin. */
  function Cumulative(bins: seq<nat>): (r: seq<nat>)
    ensures |r| == |bins|
    ensures forall j | 0 <= j < |bins| :: r[j] == UpTo(bins, j)
  {
    seq(|bins|, j requires 0 <= j < |bins| => UpTo(bins, j))
  }

  // ---------------------------------------------------------------------
  // The object
  // ---------------------------------------------------------------------

  /** `spurious` parameters say how often the weak compare-exchange fails
      although nobody else wrote the cell. */
  class Series {
    const bounds: seq<real>
    const bins: array<nat>
    var count: nat
    var sum: real
    var max: real

    ghost predicate Valid()
      reads this
    {
      bins.Length == |bounds| && Ascending(bounds)
    }

    ghost function View(): (c: Cells)
      requires Valid()
      reads this, bins
      ensures |c.bins| == |c.bounds|
    {
      Cells(bounds, bins[..], count, sum, max)
    }

    constructor (given: seq<Bound>)
      ensures Valid() && fresh(bins)
      ensures View() == NewCells(given)
    {
      var sorted := SortDedup(FiniteOnly(given));
      bounds := sorted;
      bins := new nat[|sorted|](_ => 0);
      count, sum, max := 0, 0.0, 0.0;
      new;
      assert bins[..] == seq(|sorted|, _ => 0);
    }

    /** `compare_exchange_weak` on the sum cell. */
    method CompareExchangeSum(expected: real, next: real, fail: bool) returns (ok: bool, actual: real)
      modifies this`sum
      ensures ok == (!fail && old(sum) == expected)
      ensures actual == old(sum)
      ensures sum == if ok then next else old(sum)
    {
      ok := !fail && sum == expected;
      actual := sum;
      if ok {
        sum := next;
      }
    }

    method CompareExchangeMax(expected: real, next: real, fail: bool) returns (ok: bool, actual: real)
      modifies this`max
      ensures ok == (!fail && old(max) == expected)
      ensures actual == old(max)
      ensures max == if ok then next else old(max)
    {
      ok := !fail && max == expected;
      actual := max;
      if ok {
        max := next;
      }
    }

    method AtomicAdd(v: real, spurious: nat)
      modifies this`sum
      ensures sum == old(sum) + v
    {
      var current := sum;
      var failures := spurious;
      while true
        invariant current == sum == old(sum)
        decreases failures
      {
        var ok, actual := CompareExchangeSum(current, current + v, failures > 0);
        if ok {
          return;
        }
        current := actual;
        failures := failures - 1;
      }
    }

    method AtomicMax(v: real, spurious: nat)
      modifies this`max
      ensures max == Max(old(max), v)
    {
      var current := max;
      var failures := spurious;
      while true
        invariant current == max == old(max)
        decreases failures
      {
        if current >= v {
          return;
        }
        var ok, actual := CompareExchangeMax(current, v, failures > 0);
        if ok {
          return;
        }
        current := actual;
        failures := failures - 1;
      }
    }

    method Observe(value: real, spuriousSum: nat, spuriousMax: nat)
      requires Valid()
      modifies this`count, this`sum, this`max, bins
      ensures Valid() && View() == Observed(old(View()), value)
    {
      count := count + 1;
      AtomicAdd(value, spuriousSum);
      AtomicMax(value, spuriousMax);
      var idx := Bucket(bounds, value);
      if idx < |bounds| {
        bins[idx] := bins[idx] + 1;
      }
    }

    /** The running total over the bins. */
    method BucketCounts() returns (counts: seq<nat>)
      requires Valid()
      ensures counts == Cumulative(bins[..])
    {
      var total := 0;
      counts := [];
      for i := 0 to bins.Length
        invariant total == Total(bins[..i])
        invariant |counts| == i
        invariant forall j | 0 <= j < i :: counts[j] == UpTo(bins[..], j)
      {
        assert bins[..i + 1][..i] == bins[..i];
        assert bins[..][..i + 1] == bins[..i + 1];
        total := total + bins[i];
        counts := counts + [total];
      }
    }
  }

  // ---------------------------------------------------------------------
  // Label values
  // ---------------------------------------------------------------------

  /** `str::replace` of one character. */
  function Replace(s: string, c: char, sub: string): string {
    if s == "" then "" else (if s[0] == c then sub else [s[0]]) + Replace(s[1..], c, sub)
  }

  /** The three passes of the source: backslash, quote, newline. */
  function EscapeLabelValue(v: string): string {
    Replace(Replace(Replace(v, '\\', "\\\\"), '"', "\\\""), '\n', "\\n")
  }

  /** The escaping the exposition format asks for, character by character. */
  function EscapedOnce(v: string): string {
    if v == "" then ""
    else EscapedChar(v[0]) + EscapedOnce(v[1..])
  }

  function EscapedChar(c: char): string {
    match c
    case '\\' => "\\\\"
    case '"' => "\\\""
    case '\n' => "\\n"
    case c => [c]
  }

  /** Reads a quoted label value up to its closing quote: a backslash, a quote and
      a line feed are written as two characters, and no other escape exists. */
  function ReadQuoted(s: string): Option<(string, string)> {
    if s == "" then None
    else if s[0] == '"' then Some(("", s[1..]))
    else if s[0] == '\n' then None
    else if s[0] == '\\' then
      if |s| == 1 || s[1] !in {'\\', '"', 'n'} then None
      else
        match ReadQuoted(s[2..])
        case None => None
        case Some((text, rest)) => Some(([if s[1] == 'n' then '\n' else s[1]] + text, rest))
    else
      match ReadQuoted(s[1..])
      case None => None
      case Some((text, rest)) => Some(([s[0]] + text, rest))
  }

  lemma {:induction false} ReplaceConcat(a: string, b: string, c: char, sub: string)
    ensures Replace(a + b, c, sub) == Replace(a, c, sub) + Replace(b, c, sub)
  {
    if a == "" {
      assert a + b == b;
    } else {
      assert (a + b)[1..] == a[1..] + b;
      ReplaceConcat(a[1..], b, c, sub);
    }
  }

  /** The three passes do not disturb each other's output. */
  lemma {:induction false} PassesAreOnePass(v: string)
    ensures EscapeLabelValue(v) == EscapedOnce(v)
  {
    if v != "" {
      PassesAreOnePass(v[1..]);
      var first := Replace(v[1..], '\\', "\\\\");
      var head := if v[0] == '\\' then "\\\\" else [v[0]];
      ReplaceConcat(head, first, '"', "\\\"");
      ReplaceConcat(Replace(head, '"', "\\\""), Replace(first, '"', "\\\""), '\n', "\\n");
      HeadPasses(v[0]);
    }
  }

  lemma ReplaceTwo(a: char, b: char, c: char, sub: string)
    requires a != c && b != c
    ensures Replace([a, b], c, sub) == [a, b]
  {
    assert [a, b][1..] == [b] && [b][1..] == "";
    assert Replace([b], c, sub) == [b];
  }

  lemma HeadPasses(c: char)
    ensures Replace(Replace(if c == '\\' then "\\\\" else [c], '"', "\\\""), '\n', "\\n")
         == match c case '\\' => "\\\\" case '"' => "\\\"" case '\n' => "\\n" case _ => [c]
  {
    if c == '\\' {
      ReplaceTwo('\\', '\\', '"', "\\\"");
      ReplaceTwo('\\', '\\', '\n', "\\n");
    } else if c == '"' {
      assert Replace([c], '"', "\\\"") == "\\\"";
      ReplaceTwo('\\', '"', '\n', "\\n");
    }
  }

  /** A scraper reads back the label value from between the quotes, whatever it
      contains and whatever follows. */
  lemma {:induction false} LabelValueRoundTrip(v: string, rest: string)
    ensures ReadQuoted(EscapeLabelValue(v) + "\"" + rest) == Some((v, rest))
  {
    PassesAreOnePass(v);
    if v == "" {
      assert EscapedOnce(v) + "\"" + rest == "\"" + rest;
    } else {
      PassesAreOnePass(v[1..]);
      LabelValueRoundTrip(v[1..], rest);
      var tail := EscapedOnce(v[1..]) + "\"" + rest;
      ReadEscaped(v[0], tail, v[1..], rest);
      assert EscapedOnce(v) + "\"" + rest == EscapedChar(v[0]) + tail;
      assert [v[0]] + v[1..] == v;
    }
  }

  lemma ReadEscaped(c: char, tail: string, text: string, rest: string)
    requires ReadQuoted(tail) == Some((text, rest))
    ensures ReadQuoted(EscapedChar(c) + tail) == Some(([c] + text, rest))
  {
    var s := EscapedChar(c) + tail;
    if c in {'\\', '"', '\n'} {
      assert s[2..] == tail;
    } else {
      assert s[1..] == tail;
    }
  }
}
