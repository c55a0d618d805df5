/** The histogram under concurrency. Any number of observers run `observe`
    against the shared cells, each atomic access being one step, while a scrape
    reads the cells one after another. Accesses are sequentially consistent and
    a weak compare-exchange may fail for no reason. */
module Scrape {
  import opened Text
  import opened Histogram

  /** Where an observer stands; `seen` is the value its last load or failed
      exchange returned. */
  datatype Pc =
    | Counting
    | LoadingSum
    | AddingSum(seen: real)
    | LoadingMax
    | RaisingMax(seen: real)
    | Binning
    | Finished

  datatype Observer = Observer(value: real, pc: Pc)

  /** What `render` has printed so far: the cumulative buckets, then the `+Inf`
      bucket, the sum and the count. */
  datatype Scraper = Scraper(total: nat, printed: seq<nat>, inf: Option<nat>, sum: Option<real>, count: Option<nat>)

  datatype State = State(cells: Cells, observers: seq<Observer>, scraper: Scraper)

  // ---------------------------------------------------------------------
  // Steps
  // ---------------------------------------------------------------------

  ghost predicate ObserverStep(o: Observer, c: Cells, o': Observer, c': Cells)
    requires |c.bins| == |c.bounds|
  {
    && o'.value == o.value
    && match o.pc
       case Counting => o'.pc == LoadingSum && c' == c.(count := c.count + 1)
       case LoadingSum => o'.pc == AddingSum(c.sum) && c' == c
       case AddingSum(seen) =>
         || (c.sum == seen && o'.pc == LoadingMax && c' == c.(sum := seen + o.value))
         || (o'.pc == AddingSum(c.sum) && c' == c)
       case LoadingMax => o'.pc == RaisingMax(c.max) && c' == c
       case RaisingMax(seen) =>
         if seen >= o.value then o'.pc == Binning && c' == c
         else
           || (c.max == seen && o'.pc == Binning && c' == c.(max := o.value))
           || (o'.pc == RaisingMax(c.max) && c' == c)
       case Binning => o'.pc == Finished && c' == AddToBin(c, o.value)
       case Finished => false
  }

  ghost predicate ScraperStep(c: Cells, p: Scraper, p': Scraper) {
    if |p.printed| < |c.bins| then
      var total := p.total + c.bins[|p.printed|];
      p' == p.(total := total, printed := p.printed + [total])
    else if p.inf.None? then p' == p.(inf := Some(c.count))
    else if p.sum.None? then p' == p.(sum := Some(c.sum))
    else p.count.None? && p' == p.(count := Some(c.count))
  }

  ghost predicate ObserverMoves(s: State, s': State, i: nat)
    requires |s.cells.bins| == |s.cells.bounds|
  {
    && i < |s.observers|
    && s'.scraper == s.scraper
    && |s'.observers| == |s.observers|
    && s'.observers == s.observers[i := s'.observers[i]]
    && ObserverStep(s.observers[i], s.cells, s'.observers[i], s'.cells)
  }

  ghost predicate ScraperMoves(s: State, s': State) {
    s'.cells == s.cells && s'.observers == s.observers && ScraperStep(s.cells, s.scraper, s'.scraper)
  }

  ghost predicate Step(s: State, s': State) {
    |s.cells.bins| == |s.cells.bounds| && (ScraperMoves(s, s') || exists i: nat :: ObserverMoves(s, s', i))
  }

  /** Cells left by earlier, completed observations. */
  ghost predicate Resting(c: Cells) {
    |c.bins| == |c.bounds| && Ascending(c.bounds) && Total(c.bins) <= c.count
  }

  ghost predicate Init(c0: Cells, s: State) {
    && s.cells == c0
    && (forall i | 0 <= i < |s.observers| :: s.observers[i].pc == Counting)
    && s.scraper == Scraper(0, [], None, None, None)
  }

  ghost predicate IsRun(c0: Cells, run: seq<State>) {
    && run != []
    && Init(c0, run[0])
    && forall n | 0 <= n < |run| - 1 :: Step(run[n], run[n + 1])
  }

  // ---------------------------------------------------------------------
  // Tallies over the observers
  // ---------------------------------------------------------------------

  function Tally(observers: seq<Observer>, weight: Observer -> nat): nat {
    if observers == [] then 0
    else Tally(observers[..|observers| - 1], weight) + weight(observers[|observers| - 1])
  }

  function SumWhere(observers: seq<Observer>, chosen: Observer -> bool): real {
    if observers == [] then 0.0
    else
      var o := observers[|observers| - 1];
      SumWhere(observers[..|observers| - 1], chosen) + if chosen(o) then o.value else 0.0
  }

  lemma {:induction false} TallyUpdate(observers: seq<Observer>, i: nat, o: Observer, weight: Observer -> nat)
    requires i < |observers|
    ensures Tally(observers[i := o], weight) == Tally(observers, weight) - weight(observers[i]) + weight(o)
  {
    var n := |observers| - 1;
    if i == n {
      assert observers[i := o][..n] == observers[..n];
    } else {
      TallyUpdate(observers[..n], i, o, weight);
      assert observers[i := o][..n] == observers[..n][i := o];
    }
  }

  lemma {:induction false} SumUpdate(observers: seq<Observer>, i: nat, o: Observer, chosen: Observer -> bool)
    requires i < |observers| && o.value == observers[i].value
    ensures SumWhere(observers[i := o], chosen)
         == SumWhere(observers, chosen) + (if chosen(o) then o.value else 0.0) - (if chosen(observers[i]) then o.value else 0.0)
  {
    var n := |observers| - 1;
    if i == n {
      assert observers[i := o][..n] == observers[..n];
    } else {
      SumUpdate(observers[..n], i, o, chosen);
      assert observers[i := o][..n] == observers[..n][i := o];
    }
  }

  lemma {:induction false} TallyZero(observers: seq<Observer>, weight: Observer -> nat)
    requires forall i | 0 <= i < |observers| :: weight(observers[i]) == 0
    ensures Tally(observers, weight) == 0
  {
    if observers != [] {
      TallyZero(observers[..|observers| - 1], weight);
    }
  }

  lemma {:induction false} SumZero(observers: seq<Observer>, chosen: Observer -> bool)
    requires forall i | 0 <= i < |observers| :: !chosen(observers[i])
    ensures SumWhere(observers, chosen) == 0.0
  {
    if observers != [] {
      SumZero(observers[..|observers| - 1], chosen);
    }
  }

  // ---------------------------------------------------------------------
  // The invariant
  // ---------------------------------------------------------------------

  function Counted(): Observer -> nat {
    (o: Observer) => if o.pc == Counting then 0 else 1
  }

  /** Counted, but not (or never) to be found in a bin. */
  function Unbinned(bounds: seq<real>): Observer -> nat {
    (o: Observer) => if o.pc == Counting || (o.pc == Finished && Bucket(bounds, o.value) < |bounds|) then 0 else 1
  }

  function BinnedAtMost(bound: real): Observer -> nat {
    (o: Observer) => if o.pc == Finished && o.value <= bound then 1 else 0
  }

  function Summed(): Observer -> bool {
    (o: Observer) => o.pc.LoadingMax? || o.pc.RaisingMax? || o.pc == Binning || o.pc == Finished
  }

  predicate Raised(o: Observer) {
    o.pc == Binning || o.pc == Finished
  }

  ghost predicate Shape(c0: Cells, s: State) {
    && s.cells.bounds == c0.bounds
    && |s.cells.bins| == |c0.bounds|
    && Ascending(c0.bounds)
  }

  ghost predicate CountsAgree(c0: Cells, s: State) {
    s.cells.count == c0.count + Tally(s.observers, Counted())
  }

  ghost predicate BinsTrailCount(s: State) {
    Total(s.cells.bins) + Tally(s.observers, Unbinned(s.cells.bounds)) <= s.cells.count
  }

  ghost predicate SumAgrees(c0: Cells, s: State) {
    s.cells.sum == c0.sum + SumWhere(s.observers, Summed())
  }

  ghost predicate MaxAgrees(c0: Cells, s: State) {
    && s.cells.max >= c0.max
    && (forall i | 0 <= i < |s.observers| && Raised(s.observers[i]) :: s.observers[i].value <= s.cells.max)
    && (forall i | 0 <= i < |s.observers| && s.observers[i].pc.RaisingMax? :: s.observers[i].pc.seen <= s.cells.max)
    && (s.cells.max == c0.max || exists i :: 0 <= i < |s.observers| && s.observers[i].value == s.cells.max)
  }

  ghost predicate BinAgrees(c0: Cells, s: State, j: nat)
    requires j < |c0.bounds| && |s.cells.bins| == |c0.bounds| && |c0.bins| == |c0.bounds|
  {
    UpTo(s.cells.bins, j) == UpTo(c0.bins, j) + Tally(s.observers, BinnedAtMost(c0.bounds[j]))
  }

  /** The running total of the scrape never overtakes the bins it has read. */
  ghost predicate ScraperTrails(s: State) {
    var p := s.scraper;
    && |p.printed| <= |s.cells.bins|
    && p.total <= Total(s.cells.bins[..|p.printed|])
    && (if p.printed == [] then p.total == 0 else p.total == p.printed[|p.printed| - 1])
    && (forall a, b | 0 <= a <= b < |p.printed| :: p.printed[a] <= p.printed[b])
    && (p.inf.Some? ==> |p.printed| == |s.cells.bins| && p.total <= p.inf.value <= s.cells.count)
    && (p.count.Some? ==> p.inf.Some? && p.inf.value <= p.count.value <= s.cells.count)
  }

  ghost predicate Inv(c0: Cells, s: State) {
    && |c0.bins| == |c0.bounds|
    && Shape(c0, s)
    && CountsAgree(c0, s)
    && BinsTrailCount(s)
    && SumAgrees(c0, s)
    && MaxAgrees(c0, s)
    && (forall j: nat | j < |c0.bounds| :: BinAgrees(c0, s, j))
    && ScraperTrails(s)
  }

  lemma InitInv(c0: Cells, s: State)
    requires Resting(c0) && Init(c0, s)
    ensures Inv(c0, s)
  {
    TallyZero(s.observers, Counted());
    TallyZero(s.observers, Unbinned(c0.bounds));
    SumZero(s.observers, Summed());
    forall j: nat | j < |c0.bounds| ensures BinAgrees(c0, s, j) {
      TallyZero(s.observers, BinnedAtMost(c0.bounds[j]));
    }
  }

  /** No step of an observer lowers a cell. */
  lemma CellsOnlyGrow(o: Observer, c: Cells, o': Observer, c': Cells)
    requires |c.bins| == |c.bounds| && ObserverStep(o, c, o', c')
    ensures c'.bounds == c.bounds && |c'.bins| == |c.bins|
    ensures c'.count >= c.count && c'.max >= c.max
    ensures forall j | 0 <= j < |c.bins| :: c'.bins[j] >= c.bins[j]
  {
  }

  lemma {:induction false} TotalMonotone(a: seq<nat>, b: seq<nat>)
    requires |a| == |b| && forall j | 0 <= j < |a| :: a[j] <= b[j]
    ensures Total(a) <= Total(b)
  {
    if a != [] {
      TotalMonotone(a[..|a| - 1], b[..|b| - 1]);
    }
  }

  lemma BinningTotal(c: Cells, v: real)
    requires |c.bins| == |c.bounds|
    ensures Total(AddToBin(c, v).bins) == Total(c.bins) + if Bucket(c.bounds, v) < |c.bounds| then 1 else 0
  {
    var idx := Bucket(c.bounds, v);
    if idx < |c.bounds| {
      TotalUpdate(c.bins, idx, c.bins[idx] + 1);
    }
  }

  lemma ObserverKeepsTallies(c0: Cells, s: State, s': State, i: nat)
    requires Inv(c0, s) && ObserverMoves(s, s', i)
    ensures CountsAgree(c0, s') && BinsTrailCount(s')
  {
    TallyUpdate(s.observers, i, s'.observers[i], Counted());
    TallyUpdate(s.observers, i, s'.observers[i], Unbinned(s.cells.bounds));
    BinningTotal(s.cells, s.observers[i].value);
  }

  lemma ObserverKeepsSum(c0: Cells, s: State, s': State, i: nat)
    requires Inv(c0, s) && ObserverMoves(s, s', i)
    ensures SumAgrees(c0, s')
  {
    SumUpdate(s.observers, i, s'.observers[i], Summed());
  }

  lemma ObserverKeepsMax(c0: Cells, s: State, s': State, i: nat)
    requires Inv(c0, s) && ObserverMoves(s, s', i)
    ensures MaxAgrees(c0, s')
  {
    forall k | 0 <= k < |s'.observers| && Raised(s'.observers[k]) ensures s'.observers[k].value <= s'.cells.max {
      if k != i {
        assert s'.observers[k] == s.observers[k];
      }
    }
    forall k | 0 <= k < |s'.observers| && s'.observers[k].pc.RaisingMax? ensures s'.observers[k].pc.seen <= s'.cells.max {
      if k != i {
        assert s'.observers[k] == s.observers[k];
      }
    }
    if s'.cells.max == s.cells.max {
      if k :| 0 <= k < |s.observers| && s.observers[k].value == s.cells.max {
        assert s'.observers[k].value == s'.cells.max;
      }
    } else {
      assert s'.observers[i].value == s'.cells.max;
    }
  }

  lemma ObserverKeepsBin(c0: Cells, s: State, s': State, i: nat, j: nat)
    requires Inv(c0, s) && ObserverMoves(s, s', i) && j < |c0.bounds| && Shape(c0, s')
    ensures BinAgrees(c0, s', j)
  {
    assert BinAgrees(c0, s, j);
    TallyUpdate(s.observers, i, s'.observers[i], BinnedAtMost(c0.bounds[j]));
    BinInPrefix(s.cells, s.observers[i].value, j);
  }

  lemma ObserverKeepsScraper(c0: Cells, s: State, s': State, i: nat)
    requires Inv(c0, s) && ObserverMoves(s, s', i)
    ensures Shape(c0, s') && ScraperTrails(s')
  {
    CellsOnlyGrow(s.observers[i], s.cells, s'.observers[i], s'.cells);
    var n := |s.scraper.printed|;
    TotalMonotone(s.cells.bins[..n], s'.cells.bins[..n]);
  }

  lemma ScraperKeepsInv(c0: Cells, s: State, s': State)
    requires Inv(c0, s) && ScraperMoves(s, s')
    ensures Inv(c0, s')
  {
    var n, bins := |s.scraper.printed|, s.cells.bins;
    forall j: nat | j < |c0.bounds| ensures BinAgrees(c0, s', j) {
      assert BinAgrees(c0, s, j);
    }
    if n < |bins| {
      assert bins[..n + 1][..n] == bins[..n];
    } else {
      assert bins[..n] == bins;
    }
  }

  lemma StepKeepsInv(c0: Cells, s: State, s': State)
    requires Inv(c0, s) && Step(s, s')
    ensures Inv(c0, s')
  {
    if ScraperMoves(s, s') {
      ScraperKeepsInv(c0, s, s');
    } else {
      var i: nat :| ObserverMoves(s, s', i);
      ObserverKeepsTallies(c0, s, s', i);
      ObserverKeepsSum(c0, s, s', i);
      ObserverKeepsMax(c0, s, s', i);
      ObserverKeepsScraper(c0, s, s', i);
      forall j: nat | j < |c0.bounds| ensures BinAgrees(c0, s', j) {
        ObserverKeepsBin(c0, s, s', i, j);
      }
    }
  }

  lemma {:induction false} RunKeepsInv(c0: Cells, run: seq<State>, n: nat)
    requires Resting(c0) && IsRun(c0, run) && n < |run|
    ensures Inv(c0, run[n])
  {
    if n == 0 {
      InitInv(c0, run[0]);
    } else {
      RunKeepsInv(c0, run, n - 1);
      assert Step(run[n - 1], run[n - 1 + 1]);
      StepKeepsInv(c0, run[n - 1], run[n]);
    }
  }

  // ---------------------------------------------------------------------
  // What a scrape may print
  // ---------------------------------------------------------------------

  /** In every interleaving the printed buckets never decrease, none exceeds the
      printed `+Inf` bucket, and that one does not exceed the printed count. */
  lemma ScrapeIsMonotone(c0: Cells, run: seq<State>, n: nat)
    requires Resting(c0) && IsRun(c0, run) && n < |run|
    ensures var p := run[n].scraper;
            && (forall a, b | 0 <= a <= b < |p.printed| :: p.printed[a] <= p.printed[b])
            && (p.inf.Some? ==> |p.printed| == |c0.bounds| && forall a | 0 <= a < |p.printed| :: p.printed[a] <= p.inf.value)
            && (p.count.Some? ==> p.inf.Some? && p.inf.value <= p.count.value)
  {
    RunKeepsInv(c0, run, n);
  }

  /** Everything the scrape has printed so far covers `floor`. */
  ghost predicate Covers(s: State, floor: seq<nat>) {
    var p := s.scraper;
    && |floor| == |s.cells.bins| >= |p.printed|
    && (forall j | 0 <= j < |floor| :: floor[j] <= s.cells.bins[j])
    && Total(floor[..|p.printed|]) <= p.total
    && forall j | 0 <= j < |p.printed| :: UpTo(floor, j) <= p.printed[j]
  }

  lemma StepKeepsCovers(s: State, s': State, floor: seq<nat>)
    requires Covers(s, floor) && Step(s, s')
    ensures Covers(s', floor)
  {
    var n := |s.scraper.printed|;
    if ScraperMoves(s, s') {
      if n < |floor| {
        assert floor[..n + 1][..n] == floor[..n];
      }
    } else {
      var i: nat :| ObserverMoves(s, s', i);
      CellsOnlyGrow(s.observers[i], s.cells, s'.observers[i], s'.cells);
    }
  }

  /** A scrape is fresh: a bucket printed by it counts at least every value that
      was already in the bins at any moment before its first read. */
  lemma {:induction false} ScrapeIsFresh(c0: Cells, run: seq<State>, start: nat, n: nat, j: nat)
    requires Resting(c0) && IsRun(c0, run) && start <= n < |run|
    requires run[start].scraper.printed == []
    requires j < |run[n].scraper.printed| && |run[start].cells.bins| == |c0.bounds| == |run[n].cells.bins|
    requires j < |c0.bounds|
    ensures UpTo(run[start].cells.bins, j) <= run[n].scraper.printed[j] <= UpTo(run[n].cells.bins, j)
  {
    CoversFrom(c0, run, start, n);
    BucketTrailsBin(c0, run, n, j);
  }

  lemma {:induction false} CoversFrom(c0: Cells, run: seq<State>, start: nat, n: nat)
    requires Resting(c0) && IsRun(c0, run) && start <= n < |run|
    requires run[start].scraper.printed == []
    ensures Covers(run[n], run[start].cells.bins)
  {
    if start == n {
      RunKeepsInv(c0, run, n);
    } else {
      CoversFrom(c0, run, start, n - 1);
      assert Step(run[n - 1], run[n - 1 + 1]);
      StepKeepsCovers(run[n - 1], run[n], run[start].cells.bins);
    }
  }

  lemma ObserverKeepsTrail(s: State, s': State, j: nat)
    requires |s.cells.bins| == |s.cells.bounds| && (exists i: nat :: ObserverMoves(s, s', i))
    requires j < |s.cells.bins|
    ensures |s'.cells.bins| == |s.cells.bins| && UpTo(s.cells.bins, j) <= UpTo(s'.cells.bins, j)
  {
    var i: nat :| ObserverMoves(s, s', i);
    CellsOnlyGrow(s.observers[i], s.cells, s'.observers[i], s'.cells);
    TotalMonotone(s.cells.bins[..j + 1], s'.cells.bins[..j + 1]);
  }

  lemma NewBucketTrails(s: State, s': State)
    requires ScraperMoves(s, s') && ScraperTrails(s') && |s'.scraper.printed| == |s.scraper.printed| + 1
    ensures var j := |s.scraper.printed|;
            j < |s'.cells.bins| && s'.scraper.printed[j] <= UpTo(s'.cells.bins, j)
  {
  }

  lemma {:induction false} BucketTrailsBin(c0: Cells, run: seq<State>, n: nat, j: nat)
    requires Resting(c0) && IsRun(c0, run) && n < |run| && j < |run[n].scraper.printed|
    ensures j < |run[n].cells.bins| && run[n].scraper.printed[j] <= UpTo(run[n].cells.bins, j)
  {
    if n > 0 {
      var s, s' := run[n - 1], run[n];
      assert Step(s, run[n - 1 + 1]);
      if j < |s.scraper.printed| {
        BucketTrailsBin(c0, run, n - 1, j);
        if !ScraperMoves(s, s') {
          ObserverKeepsTrail(s, s', j);
        }
      } else {
        RunKeepsInv(c0, run, n);
        NewBucketTrails(s, s');
      }
    }
  }

  // ---------------------------------------------------------------------
  // No update is lost
  // ---------------------------------------------------------------------

  function Values(observers: seq<Observer>): (vs: seq<real>)
    ensures |vs| == |observers|
    ensures forall i | 0 <= i < |vs| :: vs[i] == observers[i].value
  {
    seq(|observers|, i requires 0 <= i < |observers| => observers[i].value)
  }

  ghost predicate AllFinished(observers: seq<Observer>) {
    forall i | 0 <= i < |observers| :: observers[i].pc == Finished
  }

  lemma {:induction false} FinishedTallies(c: Cells, observers: seq<Observer>)
    requires AllFinished(observers) && |c.bins| == |c.bounds|
    ensures Tally(observers, Counted()) == |observers|
    ensures ObservedAll(c, Values(observers)).count == c.count + |observers|
    ensures ObservedAll(c, Values(observers)).sum == c.sum + SumWhere(observers, Summed())
  {
    if observers != [] {
      var n := |observers| - 1;
      FinishedTallies(c, observers[..n]);
      assert Values(observers)[..n] == Values(observers[..n]);
    }
  }

  lemma {:induction false} FinishedBins(observers: seq<Observer>, bound: real)
    requires AllFinished(observers)
    ensures Tally(observers, BinnedAtMost(bound)) == CountAtMost(Values(observers), bound)
  {
    if observers != [] {
      var n := |observers| - 1;
      FinishedBins(observers[..n], bound);
      assert Values(observers)[..n] == Values(observers[..n]);
    }
  }

  lemma {:induction false} MaxOfAll(c: Cells, vs: seq<real>)
    requires |c.bins| == |c.bounds|
    ensures var m := ObservedAll(c, vs).max;
            m >= c.max && (forall i | 0 <= i < |vs| :: vs[i] <= m) && (m == c.max || exists i :: 0 <= i < |vs| && vs[i] == m)
  {
    if vs != [] {
      var n := |vs| - 1;
      MaxOfAll(c, vs[..n]);
      var before := ObservedAll(c, vs[..n]).max;
      assert ObservedAll(c, vs).max == Max(before, vs[n]);
      assert forall i | 0 <= i < n :: vs[i] == vs[..n][i];
      if before != c.max {
        var i :| 0 <= i < n && vs[..n][i] == before;
        assert vs[i] == before;
      }
    }
  }

  lemma {:induction false} SameBuckets(a: seq<nat>, b: seq<nat>)
    requires |a| == |b| && forall j | 0 <= j < |a| :: UpTo(a, j) == UpTo(b, j)
    ensures a == b
  {
    if a != [] {
      var n := |a| - 1;
      forall j | 0 <= j < n ensures UpTo(a[..n], j) == UpTo(b[..n], j) {
        assert UpTo(a, j) == UpTo(b, j);
        assert a[..n][..j + 1] == a[..j + 1] && b[..n][..j + 1] == b[..j + 1];
      }
      SameBuckets(a[..n], b[..n]);
      assert UpTo(a, n) == UpTo(b, n);
      assert a[..n + 1] == a && b[..n + 1] == b;
    }
  }

  /** Whatever the interleaving and however often an exchange fails, once every
      observer is done the cells are what one thread recording the same values
      one after another leaves: no update is lost. */
  lemma ConcurrentEqualsSequential(c0: Cells, run: seq<State>, n: nat)
    requires Resting(c0) && IsRun(c0, run) && n < |run| && AllFinished(run[n].observers)
    ensures run[n].cells == ObservedAll(c0, Values(run[n].observers))
  {
    RunKeepsInv(c0, run, n);
    var s := run[n];
    var vs := Values(s.observers);
    var done := ObservedAll(c0, vs);
    FinishedTallies(c0, s.observers);
    MaxOfAll(c0, vs);
    MaxIsTheSame(c0, s);
    forall j | 0 <= j < |c0.bounds| ensures UpTo(s.cells.bins, j) == UpTo(done.bins, j) {
      assert BinAgrees(c0, s, j);
      FinishedBins(s.observers, c0.bounds[j]);
      BucketsAreExact(c0, vs, j);
    }
    SameBuckets(s.cells.bins, done.bins);
  }

  lemma MaxIsTheSame(c0: Cells, s: State)
    requires |c0.bins| == |c0.bounds| && MaxAgrees(c0, s) && AllFinished(s.observers)
    ensures s.cells.max == ObservedAll(c0, Values(s.observers)).max
  {
    var vs := Values(s.observers);
    var m := ObservedAll(c0, vs).max;
    MaxOfAll(c0, vs);
    if m != c0.max {
      var i :| 0 <= i < |vs| && vs[i] == m;
      assert Raised(s.observers[i]);
    }
    if s.cells.max != c0.max {
      var i :| 0 <= i < |s.observers| && s.observers[i].value == s.cells.max;
      assert vs[i] <= m;
    }
  }

  // ---------------------------------------------------------------------
  // The two lines that read the same cell
  // ---------------------------------------------------------------------

  ghost predicate StartedSame(a: State, b: State) {
    forall i | 0 <= i < |a.observers| && i < |b.observers| :: a.observers[i].pc == Counting <==> b.observers[i].pc == Counting
  }

  lemma {:induction false} StartedStays(c0: Cells, run: seq<State>, a: nat, b: nat)
    requires Resting(c0) && IsRun(c0, run) && a <= b < |run|
    ensures |run[a].observers| == |run[b].observers|
    ensures forall i | 0 <= i < |run[a].observers| && run[b].observers[i].pc == Counting :: run[a].observers[i].pc == Counting
  {
    if a < b {
      StartedStays(c0, run, a, b - 1);
      assert Step(run[b - 1], run[b - 1 + 1]);
    }
  }

  lemma {:induction false} TallyStrict(a: seq<Observer>, b: seq<Observer>)
    requires |a| == |b|
    requires forall i | 0 <= i < |a| && b[i].pc == Counting :: a[i].pc == Counting
    ensures Tally(a, Counted()) <= Tally(b, Counted())
    ensures Tally(a, Counted()) == Tally(b, Counted())
       <==> forall i | 0 <= i < |a| :: a[i].pc == Counting <==> b[i].pc == Counting
  {
    if a != [] {
      var n := |a| - 1;
      TallyStrict(a[..n], b[..n]);
      assert forall i | 0 <= i < n :: a[..n][i] == a[i] && b[..n][i] == b[i];
    }
  }

  /** The scrape prints its `+Inf` bucket in the step from `n`. */
  ghost predicate PrintsInf(run: seq<State>, n: nat) {
    n + 1 < |run| && run[n].scraper.inf.None? && run[n + 1].scraper.inf.Some?
  }

  ghost predicate PrintsCount(run: seq<State>, n: nat) {
    n + 1 < |run| && run[n].scraper.count.None? && run[n + 1].scraper.count.Some?
  }

  lemma {:induction false} InfStays(c0: Cells, run: seq<State>, a: nat, n: nat)
    requires Resting(c0) && IsRun(c0, run) && PrintsInf(run, a) && a < n < |run|
    ensures run[n].scraper.inf == Some(run[a].cells.count)
  {
    assert Step(run[n - 1], run[n - 1 + 1]);
    if a + 1 < n {
      InfStays(c0, run, a, n - 1);
    }
  }

  lemma InfBeforeCount(c0: Cells, run: seq<State>, a: nat, b: nat)
    requires Resting(c0) && IsRun(c0, run) && PrintsInf(run, a) && PrintsCount(run, b)
    ensures a < b && run[b + 1].scraper.count == Some(run[b].cells.count)
  {
    assert Step(run[b], run[b + 1]);
    if b <= a {
      InfKept(c0, run, b, a);
    }
  }

  lemma {:induction false} InfKept(c0: Cells, run: seq<State>, n: nat, m: nat)
    requires Resting(c0) && IsRun(c0, run) && n <= m < |run| && run[n].scraper.inf.Some?
    ensures run[m].scraper.inf.Some?
  {
    if n < m {
      InfKept(c0, run, n, m - 1);
      assert Step(run[m - 1], run[m - 1 + 1]);
    }
  }

  /** The `+Inf` bucket and the `_count` line are two reads of one cell. The
      scrape prints the same number twice exactly when no observer counted in
      between; "the `+Inf` bucket equals the count" holds for the cell, not for
      the printed text. */
  lemma InfEqualsCountWhenQuiet(c0: Cells, run: seq<State>, a: nat, b: nat)
    requires Resting(c0) && IsRun(c0, run) && PrintsInf(run, a) && PrintsCount(run, b)
    ensures a < b
    ensures run[b + 1].scraper.inf == run[b + 1].scraper.count <==> StartedSame(run[a], run[b])
  {
    InfBeforeCount(c0, run, a, b);
    InfStays(c0, run, a, b + 1);
    RunKeepsInv(c0, run, a);
    RunKeepsInv(c0, run, b);
    StartedStays(c0, run, a, b);
    TallyStrict(run[a].observers, run[b].observers);
  }

  // ---------------------------------------------------------------------
  // The sum line, and a scrape at rest
  // ---------------------------------------------------------------------

  ghost predicate PrintsSum(run: seq<State>, n: nat) {
    n + 1 < |run| && run[n].scraper.sum.None? && run[n + 1].scraper.sum.Some?
  }

  /** In any run the printed sum is the start value plus the values of exactly the
      observers that had added theirs when it was read, and it stays. */
  lemma SumIsOfAdded(c0: Cells, run: seq<State>, b: nat, n: nat)
    requires Resting(c0) && IsRun(c0, run) && PrintsSum(run, b) && b < n < |run|
    ensures run[n].scraper.sum == Some(c0.sum + SumWhere(run[b].observers, Summed()))
  {
    RunKeepsInv(c0, run, b);
    assert Step(run[b], run[b + 1]);
    SumStays(c0, run, b + 1, n);
  }

  lemma {:induction false} SumStays(c0: Cells, run: seq<State>, b: nat, n: nat)
    requires Resting(c0) && IsRun(c0, run) && b <= n < |run| && run[b].scraper.sum.Some?
    ensures run[n].scraper.sum == run[b].scraper.sum
  {
    if b < n {
      SumStays(c0, run, b, n - 1);
      assert Step(run[n - 1], run[n - 1 + 1]);
    }
  }

  /** The part of the text printed so far shows cells `c`. */
  ghost predicate Shows(p: Scraper, c: Cells) {
    && |p.printed| <= |c.bins|
    && p.total == Total(c.bins[..|p.printed|])
    && (forall j | 0 <= j < |p.printed| :: p.printed[j] == UpTo(c.bins, j))
    && (p.inf.Some? ==> |p.printed| == |c.bins| && p.inf == Some(c.count))
    && (p.sum.Some? ==> p.inf.Some? && p.sum == Some(c.sum))
    && (p.count.Some? ==> p.sum.Some? && p.count == Some(c.count))
  }

  lemma ScraperStepShows(c: Cells, p: Scraper, p': Scraper)
    requires ScraperStep(c, p, p') && Shows(p, c)
    ensures Shows(p', c)
  {
    if |p.printed| < |c.bins| {
      var n := |p.printed|;
      assert c.bins[..n + 1][..n] == c.bins[..n];
    }
  }

  lemma {:induction false} RestingScrape(c0: Cells, run: seq<State>, start: nat, n: nat)
    requires Resting(c0) && IsRun(c0, run) && start <= n < |run| && AllFinished(run[start].observers)
    requires run[start].scraper == Scraper(0, [], None, None, None)
    ensures run[n].cells == run[start].cells && run[n].observers == run[start].observers
    ensures Shows(run[n].scraper, run[start].cells)
  {
    if start < n {
      RestingScrape(c0, run, start, n - 1);
      assert Step(run[n - 1], run[n - 1 + 1]);
      ScraperStepShows(run[start].cells, run[n - 1].scraper, run[n].scraper);
    }
  }

  lemma {:induction false} TotalsOf(c: Cells, vs: seq<real>)
    requires |c.bins| == |c.bounds|
    ensures ObservedAll(c, vs).count == c.count + |vs| && ObservedAll(c, vs).sum == c.sum + Sum(vs)
  {
    if vs != [] {
      TotalsOf(c, vs[..|vs| - 1]);
    }
  }

  /** A scrape that starts when all observers are done prints, line by line, the
      numbers of the recorded values: how many are at or below each bound, how many
      there are, and their sum. */
  lemma ScrapeAtRestIsExact(c0: Cells, run: seq<State>, start: nat, n: nat)
    requires Resting(c0) && IsRun(c0, run) && start <= n < |run| && AllFinished(run[start].observers)
    requires run[start].scraper == Scraper(0, [], None, None, None) && run[n].scraper.count.Some?
    ensures var vs, p := Values(run[start].observers), run[n].scraper;
            && |p.printed| == |c0.bounds|
            && (forall j | 0 <= j < |c0.bounds| && j < |p.printed| && |c0.bins| == |c0.bounds| ::
                  p.printed[j] == UpTo(c0.bins, j) + CountAtMost(vs, c0.bounds[j]))
            && p.inf == Some(c0.count + |vs|) && p.sum == Some(c0.sum + Sum(vs)) && p.count == Some(c0.count + |vs|)
  {
    var vs := Values(run[start].observers);
    RestingScrape(c0, run, start, n);
    ConcurrentEqualsSequential(c0, run, start);
    TotalsOf(c0, vs);
    forall j | 0 <= j < |c0.bounds| ensures UpTo(ObservedAll(c0, vs).bins, j) == UpTo(c0.bins, j) + CountAtMost(vs, c0.bounds[j]) {
      BucketsAreExact(c0, vs, j);
    }
  }

  lemma FiveStates(c0: Cells, s0: State, s1: State, s2: State, s3: State, s4: State)
    requires Init(c0, s0) && Step(s0, s1) && Step(s1, s2) && Step(s2, s3) && Step(s3, s4)
    ensures IsRun(c0, [s0, s1, s2, s3, s4])
  {
  }

  /** A run in which an observer counts between the two reads: the text says 0 at
      `+Inf` and 1 at the count. */
  lemma LateObserverSplitsLines() returns (c0: Cells, run: seq<State>)
    ensures Resting(c0) && IsRun(c0, run) && |run| == 5
    ensures PrintsInf(run, 0) && PrintsCount(run, 3) && !StartedSame(run[0], run[3])
    ensures run[4].scraper.inf == Some(0) && run[4].scraper.count == Some(1)
  {
    c0 := Cells([], [], 0, 0.0, 0.0);
    var c1 := c0.(count := 1);
    var waiting, counted := [Observer(1.0, Counting)], [Observer(1.0, LoadingSum)];
    var p0 := Scraper(0, [], None, None, None);
    var p1 := p0.(inf := Some(0));
    var p3 := p1.(sum := Some(0.0));
    var p4 := p3.(count := Some(1));
    var s0, s1 := State(c0, waiting, p0), State(c0, waiting, p1);
    var s2, s3, s4 := State(c1, counted, p1), State(c1, counted, p3), State(c1, counted, p4);
    assert ScraperMoves(s0, s1);
    assert ObserverMoves(s1, s2, 0);
    assert ScraperMoves(s2, s3);
    assert ScraperMoves(s3, s4);
    FiveStates(c0, s0, s1, s2, s3, s4);
    run := [s0, s1, s2, s3, s4];
    assert s0.observers[0].pc == Counting && s3.observers[0].pc == LoadingSum;
  }
}
