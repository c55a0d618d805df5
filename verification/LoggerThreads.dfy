/** Level changes from many threads. `set_level` changes the table under one lock,
    then prints it under others (the root level first, then the targets), then
    reloads the subscriber; between these another call may run. An interleaving is
    a schedule: the list of the threads that move. */
module LoggerThreads {
  import opened Text
  import opened SortedMap
  import opened Loggers

  /** How far a call is. `RootRead` and `Texted` carry what it has read of the
      table for the text it is about to load. */
  datatype Pc = Waiting | Altered | RootRead(root: Level) | Texted(read: Table) | Returned(reply: Result)

  datatype Thread = Thread(call: Call, pc: Pc)

  /** `seen` is the reading behind the text in force; none before a reload. */
  datatype World = World(shared: State, threads: seq<Thread>, seen: Option<Table>)

  predicate Moves(w: World, i: nat) {
    i < |w.threads| && !w.threads[i].pc.Returned?
  }

  /** One step of thread `i`. */
  function Moved(w: World, i: nat): World
    requires Moves(w, i)
  {
    var t := w.threads[i];
    match t.pc
    case Waiting =>
      if UnknownRequest(t.call.level) then At(w, i, Returned(Err(UnknownLevel(Requested(t.call.level).raw))))
      else At(w, i, Altered).(shared := w.shared.(table := Wish(w.shared, t.call)))
    case Altered => At(w, i, RootRead(w.shared.table.root))
    case RootRead(root) => At(w, i, Texted(Table(root, w.shared.table.targets)))
    case Texted(read) =>
      var text := DirectivesOf(read);
      if t.call.sub.accepts(text) && t.call.sub.reloads(text)
      then At(w, i, Returned(Ok)).(shared := w.shared.(loaded := text), seen := Some(read))
      else At(w, i, Returned(Err(Reload)))
    case Returned(_) => w
  }

  function At(w: World, i: nat, pc: Pc): World
    requires i < |w.threads|
  {
    w.(threads := w.threads[i := w.threads[i].(pc := pc)])
  }

  /** A thread that has returned does not move any more. */
  function Run(w: World, schedule: seq<nat>): World {
    if schedule == [] then w
    else
      var before, i := Run(w, schedule[..|schedule| - 1]), schedule[|schedule| - 1];
      if Moves(before, i) then Moved(before, i) else before
  }

  function Begun(start: string, calls: seq<Call>): World {
    World(Started(start), seq(|calls|, i requires 0 <= i < |calls| => Thread(calls[i], Waiting)), None)
  }

  lemma RunSnoc(w: World, schedule: seq<nat>, i: nat)
    ensures Run(w, schedule + [i]) == if Moves(Run(w, schedule), i) then Moved(Run(w, schedule), i) else Run(w, schedule)
  {
    assert (schedule + [i])[..|schedule|] == schedule;
  }

  // ---------------------------------------------------------------------
  // A call that is not interrupted
  // ---------------------------------------------------------------------

  lemma KnownCall(w: World, i: nat)
    requires i < |w.threads| && w.threads[i].pc == Waiting && !UnknownRequest(w.threads[i].call.level)
    ensures var w1 := Moved(w, i);
            var w2 := Moved(w1, i);
            var w3 := Moved(w2, i);
            && Moves(w1, i) && Moves(w2, i) && Moves(w3, i)
            && w3.threads[i] == Thread(w.threads[i].call, Texted(Wish(w.shared, w.threads[i].call)))
            && w3.shared == w.shared.(table := Wish(w.shared, w.threads[i].call)) && w3.seen == w.seen
            && |w3.threads| == |w.threads|
  {
  }

  lemma OneStep(w: World, i: nat)
    ensures Run(w, [i]) == if Moves(w, i) then Moved(w, i) else w
  {
    RunSnoc(w, [], i);
    assert [] + [i] == [i];
  }

  lemma FourSteps(w: World, i: nat)
    ensures Run(w, [i, i, i, i]) == Run(Run(Run(Run(w, [i]), [i]), [i]), [i])
  {
    RunAppend(w, [i], [i, i, i]);
    RunAppend(Run(w, [i]), [i], [i, i]);
    RunAppend(Run(Run(w, [i]), [i]), [i], [i]);
    assert [i] + [i, i, i] == [i, i, i, i] && [i] + [i, i] == [i, i, i] && [i] + [i] == [i, i];
  }

  lemma {:induction false} RunAppend(w: World, first: seq<nat>, second: seq<nat>)
    ensures Run(w, first + second) == Run(Run(w, first), second)
  {
    if second == [] {
      assert first + second == first;
    } else {
      var n := |second| - 1;
      assert (first + second)[..|first + second| - 1] == first + second[..n];
      RunAppend(w, first, second[..n]);
    }
  }

  lemma {:induction false} OthersStay(w: World, i: nat, schedule: seq<nat>)
    requires forall k | 0 <= k < |schedule| :: schedule[k] == i
    ensures |Run(w, schedule).threads| == |w.threads|
    ensures forall j | 0 <= j < |w.threads| && j != i :: Run(w, schedule).threads[j] == w.threads[j]
  {
    if schedule != [] {
      OthersStay(w, i, schedule[..|schedule| - 1]);
    }
  }

  /** Alone, the four steps are the call as one step. */
  lemma UninterruptedIsLevelSet(w: World, i: nat)
    requires i < |w.threads| && w.threads[i].pc == Waiting
    ensures |Run(w, [i, i, i, i]).threads| == |w.threads|
    ensures Run(w, [i, i, i, i]).shared == LevelSet(w.shared, w.threads[i].call).0
    ensures Run(w, [i, i, i, i]).threads[i].pc == Returned(LevelSet(w.shared, w.threads[i].call).1)
  {
    FourSteps(w, i);
    OneStep(w, i);
    var w1 := Moved(w, i);
    OneStep(w1, i);
    if UnknownRequest(w.threads[i].call.level) {
      assert Run(w1, [i]) == w1;
    } else {
      KnownCall(w, i);
      OneStep(Moved(w1, i), i);
      OneStep(Moved(Moved(w1, i), i), i);
    }
  }

  // ---------------------------------------------------------------------
  // What is in force, and when it was read
  // ---------------------------------------------------------------------

  ghost predicate CleanTable(t: Table) {
    Sorted(t.targets) && Clean(t.targets)
  }

  ghost predicate Inv(w: World, start: string) {
    && CleanTable(w.shared.table)
    && (forall i | 0 <= i < |w.threads| :: CleanName(w.threads[i].call.name))
    && (forall i | 0 <= i < |w.threads| && w.threads[i].pc.Texted? :: CleanTable(w.threads[i].pc.read))
    && (w.seen.Some? ==> CleanTable(w.seen.value))
    && w.shared.loaded == if w.seen.Some? then DirectivesOf(w.seen.value) else start
  }

  lemma WishIsClean(s: State, c: Call)
    requires CleanTable(s.table) && CleanName(c.name)
    ensures CleanTable(Wish(s, c))
  {
    ChangeKeepsClean(s.table, s.initialRoot, c.name,
                     if Requested(c.level).Wanted? then ParseLevel(Requested(c.level).raw) else None);
  }

  lemma MovedKeepsInv(w: World, i: nat, start: string)
    requires Moves(w, i) && Inv(w, start)
    ensures Inv(Moved(w, i), start)
  {
    if w.threads[i].pc == Waiting {
      WishIsClean(w.shared, w.threads[i].call);
    }
  }

  lemma {:induction false} RunKeepsInv(start: string, calls: seq<Call>, schedule: seq<nat>)
    requires CleanCalls(calls)
    ensures Inv(Run(Begun(start, calls), schedule), start)
  {
    if schedule == [] {
      StartedIsClean(start);
    } else {
      var n := |schedule| - 1;
      RunKeepsInv(start, calls, schedule[..n]);
      var before := Run(Begun(start, calls), schedule[..n]);
      if Moves(before, schedule[n]) {
        MovedKeepsInv(before, schedule[n], start);
      }
    }
  }

  /** In every interleaving: the printed text is the text in force exactly when
      the table is the reading the last reloader printed, whoever that was; before
      the first reload, exactly when it is still the parsed seed and the seed is
      in printed form. */
  lemma PrintedIsLoadedIff(start: string, calls: seq<Call>, schedule: seq<nat>)
    requires CleanCalls(calls)
    ensures var w := Run(Begun(start, calls), schedule);
            DirectivesOf(w.shared.table) == w.shared.loaded
            <==> match w.seen
                 case Some(read) => w.shared.table == read
                 case None => IsPrinted(start) && w.shared.table == Parse(start)
  {
    var w := Run(Begun(start, calls), schedule);
    RunKeepsInv(start, calls, schedule);
    match w.seen
    case Some(read) => SameTextSameTable(w.shared.table, read);
    case None => AgreesWithTextIff(w.shared.table, start);
  }

  /** Thread `i` reads the root level in move `n`. */
  ghost predicate ReadsRoot(w0: World, schedule: seq<nat>, n: nat, i: nat) {
    && n < |schedule| && schedule[n] == i && i < |w0.threads|
    && |Run(w0, schedule[..n]).threads| == |w0.threads|
    && Run(w0, schedule[..n]).threads[i].pc == Altered
  }

  /** Thread `i` reads the targets in move `n`. */
  ghost predicate ReadsTargets(w0: World, schedule: seq<nat>, n: nat, i: nat) {
    && n < |schedule| && schedule[n] == i && i < |w0.threads|
    && |Run(w0, schedule[..n]).threads| == |w0.threads|
    && Run(w0, schedule[..n]).threads[i].pc.RootRead?
  }

  /** Thread `i` reloads the subscriber in move `n`. */
  ghost predicate Reloads(w0: World, schedule: seq<nat>, n: nat, i: nat) {
    && n < |schedule| && schedule[n] == i && i < |w0.threads|
    && |Run(w0, schedule[..n]).threads| == |w0.threads|
    && Run(w0, schedule[..n]).threads[i].pc.Texted?
    && Run(w0, schedule[..n + 1]).threads == Run(w0, schedule[..n]).threads[i := Thread(Run(w0, schedule[..n]).threads[i].call, Returned(Ok))]
  }

  lemma {:induction false} SameThreads(w0: World, schedule: seq<nat>)
    ensures |Run(w0, schedule).threads| == |w0.threads|
  {
    if schedule != [] {
      SameThreads(w0, schedule[..|schedule| - 1]);
    }
  }

  ghost predicate NoneMoved(w: World) {
    w.seen == None && forall i | 0 <= i < |w.threads| :: w.threads[i].pc == Waiting
  }

  lemma {:induction false} WhenRootRead(w0: World, schedule: seq<nat>, i: nat) returns (a: nat)
    requires NoneMoved(w0) && i < |w0.threads| && |Run(w0, schedule).threads| == |w0.threads|
    requires Run(w0, schedule).threads[i].pc.RootRead?
    ensures ReadsRoot(w0, schedule, a, i)
    ensures Run(w0, schedule).threads[i].pc.root == Run(w0, schedule[..a]).shared.table.root
  {
    var n := |schedule| - 1;
    assert schedule != [];
    var front := schedule[..n];
    SameThreads(w0, front);
    if schedule[n] == i && Run(w0, front).threads[i].pc == Altered {
      a := n;
    } else {
      a := WhenRootRead(w0, front, i);
      assert front[..a] == schedule[..a];
    }
  }

  lemma {:induction false} WhenRead(w0: World, schedule: seq<nat>, i: nat) returns (a: nat, b: nat)
    requires NoneMoved(w0) && i < |w0.threads| && |Run(w0, schedule).threads| == |w0.threads|
    requires Run(w0, schedule).threads[i].pc.Texted?
    ensures a < b && ReadsRoot(w0, schedule, a, i) && ReadsTargets(w0, schedule, b, i)
    ensures Run(w0, schedule).threads[i].pc.read
         == Table(Run(w0, schedule[..a]).shared.table.root, Run(w0, schedule[..b]).shared.table.targets)
  {
    var n := |schedule| - 1;
    assert schedule != [];
    var front := schedule[..n];
    SameThreads(w0, front);
    if schedule[n] == i && Run(w0, front).threads[i].pc.RootRead? {
      a := WhenRootRead(w0, front, i);
      b := n;
      assert front[..a] == schedule[..a];
    } else {
      a, b := WhenRead(w0, front, i);
      assert front[..a] == schedule[..a] && front[..b] == schedule[..b];
    }
  }

  lemma FrontKeeps(w0: World, schedule: seq<nat>, n: nat, k: nat, i: nat)
    requires n <= |schedule|
    ensures ReadsRoot(w0, schedule[..n], k, i) ==> ReadsRoot(w0, schedule, k, i)
    ensures ReadsTargets(w0, schedule[..n], k, i) ==> ReadsTargets(w0, schedule, k, i)
    ensures Reloads(w0, schedule[..n], k, i) ==> Reloads(w0, schedule, k, i)
    ensures k <= n ==> schedule[..n][..k] == schedule[..k]
  {
    assert k <= n ==> schedule[..n][..k] == schedule[..k];
    assert k < n ==> schedule[..n][..k + 1] == schedule[..k + 1];
  }

  lemma SeenChanges(w: World, i: nat)
    requires Moves(w, i)
    ensures if ReloadsNow(w, i) then
              && Moved(w, i).seen == Some(w.threads[i].pc.read)
              && Moved(w, i).threads == w.threads[i := Thread(w.threads[i].call, Returned(Ok))]
            else Moved(w, i).seen == w.seen
  {
  }

  /** The reading in force was taken by thread `i` in moves `a` and `b` and loaded
      in move `c`, and nothing has been loaded since. */
  ghost predicate SeenAt(w0: World, schedule: seq<nat>, i: nat, a: nat, b: nat, c: nat) {
    && a < b < c < |schedule|
    && ReadsRoot(w0, schedule, a, i) && ReadsTargets(w0, schedule, b, i) && Reloads(w0, schedule, c, i)
    && Run(w0, schedule).seen
         == Some(Table(Run(w0, schedule[..a]).shared.table.root, Run(w0, schedule[..b]).shared.table.targets))
    && forall m | c < m <= |schedule| :: Run(w0, schedule[..m]).seen == Run(w0, schedule).seen
  }

  lemma SeenStays(w0: World, schedule: seq<nat>, n: nat, i: nat, a: nat, b: nat, c: nat)
    requires |schedule| == n + 1 && SeenAt(w0, schedule[..n], i, a, b, c)
    requires Run(w0, schedule).seen == Run(w0, schedule[..n]).seen
    ensures SeenAt(w0, schedule, i, a, b, c)
  {
    var front := schedule[..n];
    FrontKeeps(w0, schedule, n, a, i);
    FrontKeeps(w0, schedule, n, b, i);
    FrontKeeps(w0, schedule, n, c, i);
    assert schedule[..n + 1] == schedule;
    forall m | c < m <= n + 1 ensures Run(w0, schedule[..m]).seen == Run(w0, schedule).seen {
      assert m <= n ==> front[..m] == schedule[..m];
    }
  }

  lemma SeenNow(w0: World, schedule: seq<nat>, n: nat) returns (a: nat, b: nat)
    requires NoneMoved(w0) && |schedule| == n + 1 && ReloadsNow(Run(w0, schedule[..n]), schedule[n])
    ensures SeenAt(w0, schedule, schedule[n], a, b, n)
  {
    var i := schedule[n];
    LastMoveReloads(w0, schedule, n);
    a, b := WhenRead(w0, schedule[..n], i);
    FrontKeeps(w0, schedule, n, a, i);
    FrontKeeps(w0, schedule, n, b, i);
    assert schedule[..n + 1] == schedule;
  }

  lemma LastMoveReloads(w0: World, schedule: seq<nat>, n: nat)
    requires |schedule| == n + 1 && ReloadsNow(Run(w0, schedule[..n]), schedule[n])
    ensures schedule[n] < |w0.threads| == |Run(w0, schedule[..n]).threads|
    ensures Reloads(w0, schedule, n, schedule[n])
    ensures Run(w0, schedule).seen == Some(Run(w0, schedule[..n]).threads[schedule[n]].pc.read)
  {
    SameThreads(w0, schedule[..n]);
    SeenChanges(Run(w0, schedule[..n]), schedule[n]);
    assert schedule[..n + 1] == schedule;
  }

  lemma {:induction false} WhenSeen(w0: World, schedule: seq<nat>) returns (i: nat, a: nat, b: nat, c: nat)
    requires NoneMoved(w0) && Run(w0, schedule).seen.Some?
    ensures SeenAt(w0, schedule, i, a, b, c)
  {
    assert schedule != [];
    var n := |schedule| - 1;
    var before := Run(w0, schedule[..n]);
    if ReloadsNow(before, schedule[n]) {
      i, c := schedule[n], n;
      a, b := SeenNow(w0, schedule, n);
    } else {
      if Moves(before, schedule[n]) {
        SeenChanges(before, schedule[n]);
      }
      i, a, b, c := WhenSeen(w0, schedule[..n]);
      SeenStays(w0, schedule, n, i, a, b, c);
    }
  }

  predicate ReloadsNow(w: World, i: nat) {
    && Moves(w, i) && w.threads[i].pc.Texted?
    && Moved(w, i).threads[i].pc == Returned(Ok)
  }

  /** After the first reload: the printed text is the text in force exactly when
      the root level is what it was when the last reloader read it, and the
      targets what they were when it read those. */
  lemma AgreeIffUnchangedSinceRead(start: string, calls: seq<Call>, schedule: seq<nat>)
    returns (i: nat, a: nat, b: nat, c: nat)
    requires CleanCalls(calls) && Run(Begun(start, calls), schedule).seen.Some?
    ensures SeenAt(Begun(start, calls), schedule, i, a, b, c)
    ensures var w0 := Begun(start, calls);
            var w := Run(w0, schedule);
            DirectivesOf(w.shared.table) == w.shared.loaded
            <==> && w.shared.table.root == Run(w0, schedule[..a]).shared.table.root
                 && w.shared.table.targets == Run(w0, schedule[..b]).shared.table.targets
  {
    i, a, b, c := WhenSeen(Begun(start, calls), schedule);
    PrintedIsLoadedIff(start, calls, schedule);
  }

  // ---------------------------------------------------------------------
  // Two calls that overlap
  // ---------------------------------------------------------------------

  const Willing := Subscriber((text: string) => true, (text: string) => true)

  /** The first thread prints, the second makes its whole call, the first loads
      its older text. */
  const Overtaken: seq<nat> := [0, 0, 0, 1, 1, 1, 1, 0]

  function SetTo(name: string, l: Level): Call {
    Call(name, Some(LevelName(l)), Willing)
  }

  lemma WishFor(s: State, name: string, l: Level)
    requires !IsRoot(name)
    ensures !UnknownRequest(SetTo(name, l).level)
    ensures Wish(s, SetTo(name, l)) == s.table.(targets := Insert(s.table.targets, name, l))
  {
    LevelRoundTrip(l);
    assert LevelName(l) != "";
  }

  lemma ThreeSteps(w: World, i: nat)
    requires i < |w.threads| && w.threads[i].pc == Waiting && !UnknownRequest(w.threads[i].call.level)
    ensures Run(w, [i, i, i]) == Moved(Moved(Moved(w, i), i), i)
  {
    KnownCall(w, i);
    RunSnoc(w, [], i);
    RunSnoc(w, [i], i);
    RunSnoc(w, [i, i], i);
    assert [] + [i] == [i] && [i] + [i] == [i, i] && [i, i] + [i] == [i, i, i];
  }

  lemma SameAfterInsertIff(t: Table, a: string, x: Level, b: string, y: Level)
    requires CleanTable(t) && CleanName(a) && CleanName(b) && a != b
    ensures var first := t.(targets := Insert(t.targets, a, x));
            var second := first.(targets := Insert(first.targets, b, y));
            DirectivesOf(second) == DirectivesOf(first) <==> Configured(t.targets, b) == Some(y)
  {
    var first := t.(targets := Insert(t.targets, a, x));
    InsertClean(t.targets, a, x);
    InsertClean(first.targets, b, y);
    SameTextSameTable(first.(targets := Insert(first.targets, b, y)), first);
    InsertChangesUnless(first.targets, b, y);
    ConfiguredMember(first.targets, b);
    ConfiguredMember(t.targets, b);
    InsertMember(t.targets, a, x, Entry(b, y));
  }

  lemma TwoBegun(start: string, first: Call, second: Call)
    ensures Begun(start, [first, second]).threads == [Thread(first, Waiting), Thread(second, Waiting)]
  {
  }

  lemma AfterThree(w: World, i: nat)
    requires i < |w.threads| && w.threads[i].pc == Waiting && !UnknownRequest(w.threads[i].call.level)
    ensures var w' := Run(w, [i, i, i]);
            && |w'.threads| == |w.threads|
            && w'.threads[i] == Thread(w.threads[i].call, Texted(Wish(w.shared, w.threads[i].call)))
            && w'.shared == w.shared.(table := Wish(w.shared, w.threads[i].call))
  {
    ThreeSteps(w, i);
    KnownCall(w, i);
  }

  /** Where the first thread stands when it has its text. */
  lemma FirstPrinted(w: World, a: string, x: Level, second: Call, i: nat)
    requires !IsRoot(a) && i == 0
    requires w.threads == [Thread(SetTo(a, x), Waiting), Thread(second, Waiting)]
    ensures var t := w.shared.table.(targets := Insert(w.shared.table.targets, a, x));
            && Run(w, [i, i, i]).threads == [Thread(SetTo(a, x), Texted(t)), Thread(second, Waiting)]
            && Run(w, [i, i, i]).shared == w.shared.(table := t)
  {
    WishFor(w.shared, a, x);
    AfterThree(w, i);
    OthersStay(w, i, [i, i, i]);
  }

  /** From there: the second thread's whole call, then the first's reload. */
  lemma ThenOvertaken(w: World, read: Table, a: Call, b: string, y: Level)
    requires w.threads == [Thread(a, Texted(read)), Thread(SetTo(b, y), Waiting)] && a.sub == Willing && !IsRoot(b)
    ensures var w' := Run(Run(w, [1, 1, 1, 1]), [0]);
            && |w'.threads| == 2 && w'.threads[0].pc == Returned(Ok) && w'.threads[1].pc == Returned(Ok)
            && w'.shared.table == w.shared.table.(targets := Insert(w.shared.table.targets, b, y))
            && w'.shared.loaded == DirectivesOf(read)
  {
    WishFor(w.shared, b, y);
    UninterruptedIsLevelSet(w, 1);
    OthersStay(w, 1, [1, 1, 1, 1]);
    OneStep(Run(w, [1, 1, 1, 1]), 0);
  }

  lemma InThreeParts(w: World)
    ensures Run(w, Overtaken) == Run(Run(Run(w, [0, 0, 0]), [1, 1, 1, 1]), [0])
  {
    RunAppend(w, [0, 0, 0], [1, 1, 1, 1]);
    RunAppend(w, [0, 0, 0] + [1, 1, 1, 1], [0]);
    assert [0, 0, 0] + [1, 1, 1, 1] + [0] == Overtaken;
  }

  /** Both calls return `Ok` and the table holds both levels, but the text in force
      is the first thread's: it is the printed one only if the second changed
      nothing. */
  lemma OvertakenCallLoadsOldText(start: string, a: string, x: Level, b: string, y: Level)
    requires CleanName(a) && !IsRoot(a) && CleanName(b) && !IsRoot(b) && a != b
    ensures var w := Run(Begun(start, [SetTo(a, x), SetTo(b, y)]), Overtaken);
            var t := Parse(start);
            var first := t.(targets := Insert(t.targets, a, x));
            && |w.threads| == 2 && w.threads[0].pc == Returned(Ok) && w.threads[1].pc == Returned(Ok)
            && w.shared.table == first.(targets := Insert(first.targets, b, y))
            && w.shared.loaded == DirectivesOf(first)
            && (DirectivesOf(w.shared.table) == w.shared.loaded <==> Configured(t.targets, b) == Some(y))
  {
    var w0, t := Begun(start, [SetTo(a, x), SetTo(b, y)]), Parse(start);
    TwoBegun(start, SetTo(a, x), SetTo(b, y));
    FirstPrinted(w0, a, x, SetTo(b, y), 0);
    InThreeParts(w0);
    ThenOvertaken(Run(w0, [0, 0, 0]), t.(targets := Insert(t.targets, a, x)), SetTo(a, x), b, y);
    StartedIsClean(start);
    SameAfterInsertIff(t, a, x, b, y);
  }

  /** The run with names: both levels are printed, "b" is not in force. */
  lemma LateReloadDropsLevel()
    ensures var w := Run(Begun(LevelDirective(INFO), [SetTo("a", DEBUG), SetTo("b", TRACE)]), Overtaken);
            && |w.threads| == 2 && w.threads[0].pc == Returned(Ok) && w.threads[1].pc == Returned(Ok)
            && w.shared.loaded == LevelDirective(INFO) + "," + "a" + "=" + LevelDirective(DEBUG)
            && w.shared.table == Table(INFO, [Entry("a", DEBUG), Entry("b", TRACE)])
            && DirectivesOf(w.shared.table) != w.shared.loaded
  {
    ParseRoot(INFO);
    PrintOne(INFO, Entry("a", DEBUG));
    TwoInserted();
    assert Configured([], "b") == None;
    OvertakenCallLoadsOldText(LevelDirective(INFO), "a", DEBUG, "b", TRACE);
  }

  lemma TwoInserted()
    ensures !IsRoot("a") && !IsRoot("b")
    ensures Insert([Entry("a", DEBUG)], "b", TRACE) == [Entry("a", DEBUG), Entry("b", TRACE)]
  {
    assert |Upper("a")| == 1 && |Upper("b")| == 1;
    var targets := [Entry("a", DEBUG)];
    assert Insert(targets[1..], "b", TRACE) == [Entry("b", TRACE)];
    assert !Less("b", "a");
  }
}
