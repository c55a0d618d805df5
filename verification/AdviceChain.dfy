/** The ordered aspect registry and the advice-chain executor. Hooks that only
    observe are events of the trace; an `around` hook decides, from the join
    point it is shown, whether to proceed and what to make of the outcome. */
module AdviceChain {
  import opened Text
  import Pointcut

  datatype Outcome = Success(value: string) | Failure(message: string)

  datatype JoinPoint = JoinPoint(typeName: string, methodName: string, result: Option<string>, error: Option<string>)

  /** One `around` call: a canned outcome without proceeding, or one call of the
      continuation and a reply made from its outcome. */
  datatype Around = ShortCircuit(outcome: Outcome) | Proceeds(reply: Outcome -> Outcome)

  datatype Aspect = Aspect(name: string, around: JoinPoint -> Around)

  datatype Binding = Binding(aspect: Aspect, pattern: string, order: int, seqNo: nat)

  datatype Event =
    | Before(name: string, jp: JoinPoint)
    | Enter(name: string)
    | Call
    | Exit(name: string, outcome: Outcome)
    | AfterReturning(name: string, jp: JoinPoint)
    | AfterThrowing(name: string, jp: JoinPoint)
    | After(name: string, jp: JoinPoint)

  function QualifiedName(jp: JoinPoint): string {
    jp.typeName + "." + jp.methodName
  }

  // ---------------------------------------------------------------------
  // The registry
  // ---------------------------------------------------------------------

  predicate Precedes(a: Binding, b: Binding) {
    a.order < b.order || (a.order == b.order && a.seqNo < b.seqNo)
  }

  ghost predicate Sorted(bindings: seq<Binding>) {
    forall i, j | 0 <= i < j < |bindings| :: Precedes(bindings[i], bindings[j])
  }

  /** `sort_by` on a list of which only the last element may be out of place. */
  function SortLast(sorted: seq<Binding>, b: Binding): seq<Binding> {
    if sorted == [] then [b]
    else if Precedes(b, sorted[0]) then [b] + sorted
    else [sorted[0]] + SortLast(sorted[1..], b)
  }

  ghost predicate MatchesName(b: Binding, name: string) {
    Pointcut.ParseRegex(Pointcut.PatternSource(b.pattern)).Some? && Pointcut.IsMatch(b.pattern, name)
  }

  ghost function Matching(bindings: seq<Binding>, name: string): seq<Binding> {
    if bindings == [] then []
    else
      var n := |bindings| - 1;
      Matching(bindings[..n], name) + if MatchesName(bindings[n], name) then [bindings[n]] else []
  }

  lemma MatchingStep(bindings: seq<Binding>, i: nat, name: string)
    requires i < |bindings|
    ensures Matching(bindings[..i + 1], name)
         == Matching(bindings[..i], name) + if MatchesName(bindings[i], name) then [bindings[i]] else []
  {
    assert bindings[..i + 1][..i] == bindings[..i];
  }

  lemma {:induction false} SortLastMember(sorted: seq<Binding>, b: Binding, x: Binding)
    ensures x in SortLast(sorted, b) <==> x == b || x in sorted
  {
    if sorted != [] && !Precedes(b, sorted[0]) {
      SortLastMember(sorted[1..], b, x);
      assert sorted == [sorted[0]] + sorted[1..];
    }
  }

  lemma {:induction false} SortLastKeeps(sorted: seq<Binding>, b: Binding)
    ensures multiset(SortLast(sorted, b)) == multiset(sorted) + multiset{b}
  {
    if sorted != [] && !Precedes(b, sorted[0]) {
      SortLastKeeps(sorted[1..], b);
      assert sorted == [sorted[0]] + sorted[1..];
    }
  }

  lemma SortedFront(first: Binding, rest: seq<Binding>)
    requires Sorted(rest) && forall x | x in rest :: Precedes(first, x)
    ensures Sorted([first] + rest)
  {
    var all := [first] + rest;
    forall i, j | 0 <= i < j < |all| ensures Precedes(all[i], all[j]) {
      assert all[j] == rest[j - 1] && rest[j - 1] in rest;
    }
  }

  lemma SortedTail(sorted: seq<Binding>)
    requires Sorted(sorted) && sorted != []
    ensures Sorted(sorted[1..])
    ensures forall x | x in sorted[1..] :: Precedes(sorted[0], x)
  {
    forall x | x in sorted[1..] ensures Precedes(sorted[0], x) {
      var k :| 0 <= k < |sorted| - 1 && sorted[1..][k] == x;
      assert sorted[k + 1] == x;
    }
  }

  lemma {:induction false} SortLastSorted(sorted: seq<Binding>, b: Binding)
    requires Sorted(sorted) && forall x | x in sorted :: x.seqNo < b.seqNo
    ensures Sorted(SortLast(sorted, b))
  {
    if sorted != [] {
      var rest := sorted[1..];
      SortedTail(sorted);
      assert sorted[0] in sorted;
      if Precedes(b, sorted[0]) {
        assert sorted == [sorted[0]] + rest;
        SortedFront(b, sorted);
      } else {
        SortLastSorted(rest, b);
        forall x | x in SortLast(rest, b) ensures Precedes(sorted[0], x) {
          SortLastMember(rest, b, x);
        }
        SortedFront(sorted[0], SortLast(rest, b));
      }
    }
  }

  class AspectRegistry {
    var bindings: seq<Binding>
    var nextSeq: nat

    ghost predicate Valid()
      reads this
    {
      Sorted(bindings) && forall b | b in bindings :: b.seqNo < nextSeq
    }

    constructor ()
      ensures Valid() && bindings == [] && nextSeq == 0
    {
      bindings, nextSeq := [], 0;
    }

    method Register(aspect: Aspect, pattern: string, order: int)
      requires Valid()
      modifies this
      ensures Valid() && nextSeq == old(nextSeq) + 1
      ensures multiset(bindings) == multiset(old(bindings)) + multiset{Binding(aspect, pattern, order, old(nextSeq))}
      ensures bindings == SortLast(old(bindings), Binding(aspect, pattern, order, old(nextSeq)))
    {
      var b := Binding(aspect, pattern, order, nextSeq);
      nextSeq := nextSeq + 1;
      SortLastSorted(bindings, b);
      SortLastKeeps(bindings, b);
      forall x | x in SortLast(bindings, b) ensures x.seqNo < nextSeq {
        SortLastMember(bindings, b, x);
      }
      bindings := SortLast(bindings, b);
    }

    method GetMatching(name: string) returns (found: seq<Binding>)
      ensures found == Matching(bindings, name)
    {
      found := [];
      for i := 0 to |bindings|
        invariant found == Matching(bindings[..i], name)
      {
        MatchingStep(bindings, i, name);
        var matched := Pointcut.DecideMatch(bindings[i].pattern, name);
        if matched {
          found := found + [bindings[i]];
        }
      }
      assert bindings[..|bindings|] == bindings;
    }

    method HasMatch(name: string) returns (any: bool)
      ensures any <==> Matching(bindings, name) != []
    {
      any := false;
      for i := 0 to |bindings|
        invariant any <==> Matching(bindings[..i], name) != []
      {
        assert bindings[..i + 1][..i] == bindings[..i];
        var matched := Pointcut.DecideMatch(bindings[i].pattern, name);
        any := any || matched;
      }
      assert bindings[..|bindings|] == bindings;
    }
  }

  datatype Registration = Registration(aspect: Aspect, pattern: string, order: int)

  function BindingOf(rs: seq<Registration>, n: nat): Binding
    requires n < |rs|
  {
    Binding(rs[n].aspect, rs[n].pattern, rs[n].order, n)
  }

  /** The bindings after a list of `register` calls on an empty registry. */
  function Registered(rs: seq<Registration>): seq<Binding> {
    if rs == [] then [] else SortLast(Registered(rs[..|rs| - 1]), BindingOf(rs, |rs| - 1))
  }

  lemma {:induction false} RegisteredMember(rs: seq<Registration>, b: Binding)
    ensures b in Registered(rs) <==> exists n: nat :: n < |rs| && b == BindingOf(rs, n)
  {
    if rs != [] {
      var n := |rs| - 1;
      RegisteredMember(rs[..n], b);
      SortLastMember(Registered(rs[..n]), BindingOf(rs, n), b);
      assert forall k: nat | k < n :: BindingOf(rs[..n], k) == BindingOf(rs, k);
      if k: nat :| k < n && b == BindingOf(rs[..n], k) {
        assert b == BindingOf(rs, k);
      }
    }
  }

  lemma {:induction false} SortLastLength(sorted: seq<Binding>, b: Binding)
    ensures |SortLast(sorted, b)| == |sorted| + 1
  {
    if sorted != [] {
      SortLastLength(sorted[1..], b);
    }
  }

  /** After any registrations the bindings are exactly those registered, ordered
      by `order` and, among equal orders, by registration. */
  lemma {:induction false} RegisteredSorted(rs: seq<Registration>)
    ensures Sorted(Registered(rs)) && |Registered(rs)| == |rs|
    ensures forall b :: b in Registered(rs) <==> exists n: nat :: n < |rs| && b == BindingOf(rs, n)
  {
    if rs != [] {
      var n := |rs| - 1;
      RegisteredSorted(rs[..n]);
      SortLastSorted(Registered(rs[..n]), BindingOf(rs, n));
      SortLastLength(Registered(rs[..n]), BindingOf(rs, n));
    }
    forall b ensures b in Registered(rs) <==> exists n: nat :: n < |rs| && b == BindingOf(rs, n) {
      RegisteredMember(rs, b);
    }
  }

  /** The same in plain terms: a lower order first, and an earlier registration
      first among equals. */
  lemma RegisteredInOrder(rs: seq<Registration>, i: nat, j: nat)
    requires i < j < |Registered(rs)|
    ensures var a, b := Registered(rs)[i], Registered(rs)[j];
            a.order < b.order || (a.order == b.order && a.seqNo < b.seqNo)
    ensures exists n: nat :: n < |rs| && Registered(rs)[i] == Binding(rs[n].aspect, rs[n].pattern, rs[n].order, n)
  {
    RegisteredSorted(rs);
    var a := Registered(rs)[i];
    assert a in Registered(rs);
    var n: nat :| n < |rs| && a == BindingOf(rs, n);
    assert a == Binding(rs[n].aspect, rs[n].pattern, rs[n].order, n);
  }

  /** A sorted list is determined by its elements, so the sorting algorithm does
      not matter. */
  lemma {:induction false} SortedUnique(a: seq<Binding>, b: seq<Binding>)
    requires Sorted(a) && Sorted(b) && forall x :: x in a <==> x in b
    ensures a == b
  {
    assert a != [] ==> a[0] in a && a[0] in b;
    assert b != [] ==> b[0] in b && b[0] in a;
    if a != [] && b != [] {
      assert a[0] == b[0];
      forall x ensures x in a[1..] <==> x in b[1..] {
        assert x in a <==> x == a[0] || x in a[1..];
        assert x in b <==> x == b[0] || x in b[1..];
      }
      SortedUnique(a[1..], b[1..]);
      assert a == [a[0]] + a[1..] && b == [b[0]] + b[1..];
    }
  }

  /** Looking up a name keeps the global order and finds every match. */
  lemma {:induction false} MatchingSorted(bindings: seq<Binding>, name: string)
    requires Sorted(bindings)
    ensures Sorted(Matching(bindings, name))
    ensures forall b :: b in Matching(bindings, name) <==> b in bindings && MatchesName(b, name)
  {
    if bindings != [] {
      var n := |bindings| - 1;
      MatchingSorted(bindings[..n], name);
      var found := Matching(bindings[..n], name);
      forall i | 0 <= i < |found| ensures Precedes(found[i], bindings[n]) {
        assert found[i] in found;
        var k :| 0 <= k < n && bindings[..n][k] == found[i];
      }
      assert bindings == bindings[..n] + [bindings[n]];
    }
  }

  /** What an interception of `typeName.methodName` finds after any registrations:
      exactly the aspects whose pattern, segment by segment, matches the segments
      of the type name followed by those of the method name. */
  lemma FoundAfterRegistrations(rs: seq<Registration>, typeName: string, methodName: string, b: Binding)
    ensures b in Matching(Registered(rs), QualifiedName(JoinPoint(typeName, methodName, None, None)))
       <==> && (exists n: nat :: n < |rs| && b == BindingOf(rs, n))
            && Pointcut.SegmentsMatch(SplitOn(b.pattern, '.'), SplitOn(typeName, '.') + SplitOn(methodName, '.'))
  {
    var name := QualifiedName(JoinPoint(typeName, methodName, None, None));
    assert name == typeName + ['.'] + methodName;
    SplitConcat(typeName, '.', methodName);
    RegisteredSorted(rs);
    MatchingSorted(Registered(rs), name);
    Pointcut.CompiledPointcutIsSegmentLanguage(b.pattern, name);
  }

  // ---------------------------------------------------------------------
  // The around chain
  // ---------------------------------------------------------------------

  /** What the chain over `bindings` yields when the original call yields
      `called`. */
  function ChainOutcome(jp: JoinPoint, bindings: seq<Binding>, called: Outcome): Outcome {
    if bindings == [] then called
    else
      match bindings[0].aspect.around(jp)
      case ShortCircuit(outcome) => outcome
      case Proceeds(reply) => reply(ChainOutcome(jp, bindings[1..], called))
  }

  function ChainTrace(jp: JoinPoint, bindings: seq<Binding>, called: Outcome): seq<Event> {
    if bindings == [] then [Call]
    else
      [Enter(bindings[0].aspect.name)]
      + (if bindings[0].aspect.around(jp).Proceeds? then ChainTrace(jp, bindings[1..], called) else [])
      + [Exit(bindings[0].aspect.name, ChainOutcome(jp, bindings, called))]
  }

  /** How many arounds are entered: up to and including the first that does not
      proceed. */
  function Entered(jp: JoinPoint, bindings: seq<Binding>): (n: nat)
    ensures n <= |bindings|
  {
    if bindings == [] then 0
    else if bindings[0].aspect.around(jp).ShortCircuit? then 1
    else 1 + Entered(jp, bindings[1..])
  }

  ghost predicate AllProceed(jp: JoinPoint, bindings: seq<Binding>) {
    forall i | 0 <= i < |bindings| :: bindings[i].aspect.around(jp).Proceeds?
  }

  /** The entries of the first `n` bindings, in order. */
  function Entries(bindings: seq<Binding>, n: nat): seq<Event>
    requires n <= |bindings|
  {
    seq(n, i requires 0 <= i < n => Enter(bindings[i].aspect.name))
  }

  /** Their exits, innermost first; the outcome of binding `i` is that of the
      chain that starts at it. */
  function Exits(jp: JoinPoint, bindings: seq<Binding>, n: nat, called: Outcome): seq<Event>
    requires n <= |bindings|
  {
    seq(n, k requires 0 <= k < n =>
      Exit(bindings[n - 1 - k].aspect.name, ChainOutcome(jp, bindings[n - 1 - k..], called)))
  }

  lemma AllProceedStep(jp: JoinPoint, bindings: seq<Binding>)
    requires bindings != [] && bindings[0].aspect.around(jp).Proceeds?
    ensures AllProceed(jp, bindings) <==> AllProceed(jp, bindings[1..])
  {
    assert forall i | 0 <= i < |bindings| - 1 :: bindings[1..][i] == bindings[i + 1];
    if AllProceed(jp, bindings[1..]) {
      assert forall i | 1 <= i < |bindings| :: bindings[i] == bindings[1..][i - 1];
    }
  }

  lemma EntriesStep(bindings: seq<Binding>, n: nat)
    requires 0 < n <= |bindings|
    ensures Entries(bindings, n) == [Enter(bindings[0].aspect.name)] + Entries(bindings[1..], n - 1)
  {
  }

  lemma ExitsStep(jp: JoinPoint, bindings: seq<Binding>, n: nat, called: Outcome)
    requires 0 < n <= |bindings|
    ensures Exits(jp, bindings, n, called)
         == Exits(jp, bindings[1..], n - 1, called) + [Exit(bindings[0].aspect.name, ChainOutcome(jp, bindings, called))]
  {
    forall k | 0 <= k < n - 1 ensures Exits(jp, bindings[1..], n - 1, called)[k] == Exits(jp, bindings, n, called)[k] {
      assert bindings[1..][n - 2 - k..] == bindings[n - 1 - k..];
    }
    assert bindings[0..] == bindings;
  }

  /** Around entries form a prefix of the binding order, exits mirror them in
      reverse, and the original call runs once if every around proceeds and not
      at all otherwise. */
  lemma {:induction false} ChainTraceShape(jp: JoinPoint, bindings: seq<Binding>, called: Outcome)
    ensures ChainTrace(jp, bindings, called)
         == Entries(bindings, Entered(jp, bindings)) + InnermostOnwards(jp, bindings, called)
    ensures AllProceed(jp, bindings) ==> Entered(jp, bindings) == |bindings|
  {
    if bindings != [] {
      var n := Entered(jp, bindings);
      EntriesStep(bindings, n);
      if bindings[0].aspect.around(jp).Proceeds? {
        ChainTraceShape(jp, bindings[1..], called);
        AllProceedStep(jp, bindings);
        InnermostStep(jp, bindings, called);
      } else {
        ExitsStep(jp, bindings, n, called);
      }
    }
  }

  /** The call, if it is reached, and the exits. */
  ghost function InnermostOnwards(jp: JoinPoint, bindings: seq<Binding>, called: Outcome): seq<Event> {
    (if AllProceed(jp, bindings) then [Call] else []) + Exits(jp, bindings, Entered(jp, bindings), called)
  }

  lemma InnermostStep(jp: JoinPoint, bindings: seq<Binding>, called: Outcome)
    requires bindings != [] && bindings[0].aspect.around(jp).Proceeds?
    ensures InnermostOnwards(jp, bindings, called)
         == InnermostOnwards(jp, bindings[1..], called) + [Exit(bindings[0].aspect.name, ChainOutcome(jp, bindings, called))]
  {
    AllProceedStep(jp, bindings);
    ExitsStep(jp, bindings, Entered(jp, bindings), called);
  }

  /** Which arounds are entered: every one before the last entered proceeds, and
      the last one is the last of all or does not proceed. */
  lemma {:induction false} EnteredUntilShortCircuit(jp: JoinPoint, bindings: seq<Binding>)
    ensures var n := Entered(jp, bindings);
            && (bindings != [] ==> n > 0)
            && (forall i | 0 <= i < n - 1 :: bindings[i].aspect.around(jp).Proceeds?)
            && (0 < n < |bindings| ==> bindings[n - 1].aspect.around(jp).ShortCircuit?)
  {
    if bindings != [] && bindings[0].aspect.around(jp).Proceeds? {
      var n := Entered(jp, bindings);
      EnteredUntilShortCircuit(jp, bindings[1..]);
      forall i | 0 <= i < n - 1 ensures bindings[i].aspect.around(jp).Proceeds? {
        assert i > 0 ==> bindings[i] == bindings[1..][i - 1];
      }
      assert 0 < n < |bindings| ==> bindings[1..] != [];
      assert n > 1 ==> bindings[n - 1] == bindings[1..][n - 2];
    }
  }

  /** The chain's outcome is decided by the innermost entered around and passed
      outwards: a canned outcome or the call's, through the replies in reverse. */
  function ThroughReplies(jp: JoinPoint, bindings: seq<Binding>, n: nat, inner: Outcome): Outcome
    requires n <= |bindings|
    decreases n
  {
    if n == 0 then inner
    else
      var b := bindings[n - 1].aspect.around(jp);
      ThroughReplies(jp, bindings, n - 1, if b.Proceeds? then b.reply(inner) else inner)
  }

  lemma {:induction false} RepliesShift(jp: JoinPoint, bindings: seq<Binding>, n: nat, inner: Outcome)
    requires 0 < n <= |bindings|
    ensures var first := bindings[0].aspect.around(jp);
            var rest := ThroughReplies(jp, bindings[1..], n - 1, inner);
            ThroughReplies(jp, bindings, n, inner) == if first.Proceeds? then first.reply(rest) else rest
    decreases n
  {
    if n > 1 {
      var b := bindings[n - 1].aspect.around(jp);
      assert bindings[1..][n - 2] == bindings[n - 1];
      RepliesShift(jp, bindings, n - 1, if b.Proceeds? then b.reply(inner) else inner);
    }
  }

  lemma {:induction false} OutcomeIsFolded(jp: JoinPoint, bindings: seq<Binding>, called: Outcome)
    ensures AllProceed(jp, bindings) ==>
              ChainOutcome(jp, bindings, called) == ThroughReplies(jp, bindings, |bindings|, called)
    ensures !AllProceed(jp, bindings) ==>
              var n := Entered(jp, bindings);
              && n > 0 && bindings[n - 1].aspect.around(jp).ShortCircuit?
              && ChainOutcome(jp, bindings, called)
                 == ThroughReplies(jp, bindings, n - 1, bindings[n - 1].aspect.around(jp).outcome)
  {
    if bindings != [] && bindings[0].aspect.around(jp).Proceeds? {
      var rest := bindings[1..];
      OutcomeIsFolded(jp, rest, called);
      AllProceedStep(jp, bindings);
      var n := Entered(jp, bindings);
      if AllProceed(jp, rest) {
        ChainTraceShape(jp, rest, called);
        RepliesShift(jp, bindings, n, called);
      } else {
        assert rest[n - 2] == bindings[n - 1];
        RepliesShift(jp, bindings, n - 1, bindings[n - 1].aspect.around(jp).outcome);
      }
    }
  }

  // ---------------------------------------------------------------------
  // The executor
  // ---------------------------------------------------------------------

  function Befores(bindings: seq<Binding>, jp: JoinPoint): seq<Event> {
    seq(|bindings|, i requires 0 <= i < |bindings| => Before(bindings[i].aspect.name, jp))
  }

  function AfterReturnings(bindings: seq<Binding>, jp: JoinPoint): seq<Event> {
    seq(|bindings|, i requires 0 <= i < |bindings| => AfterReturning(bindings[i].aspect.name, jp))
  }

  function AfterThrowings(bindings: seq<Binding>, jp: JoinPoint): seq<Event> {
    seq(|bindings|, i requires 0 <= i < |bindings| => AfterThrowing(bindings[i].aspect.name, jp))
  }

  function Afters(bindings: seq<Binding>, jp: JoinPoint): seq<Event> {
    seq(|bindings|, i requires 0 <= i < |bindings| => After(bindings[i].aspect.name, jp))
  }

  /** The join point with the outcome recorded on it. */
  function Recorded(jp: JoinPoint, outcome: Outcome): JoinPoint {
    match outcome
    case Success(value) => jp.(result := Some(value))
    case Failure(message) => jp.(error := Some(message))
  }

  /** The events of one call: every `before`, the around block, then on success
      all `after_returning`, on failure all `after_throwing`, and in both cases all
      `after`. The hooks behind the block see its outcome recorded. */
  function CallTrace(jp: JoinPoint, bindings: seq<Binding>, called: Outcome): seq<Event> {
    var outcome := ChainOutcome(jp, bindings, called);
    var seen := Recorded(jp, outcome);
    Befores(bindings, jp) + ChainTrace(jp, bindings, called)
    + (if outcome.Success? then AfterReturnings(bindings, seen) else AfterThrowings(bindings, seen))
    + Afters(bindings, seen)
  }

  lemma Associate(t: seq<Event>, a: seq<Event>, b: seq<Event>, c: seq<Event>, d: seq<Event>)
    ensures t + a + b + c + d == t + (a + b + c + d)
  {
  }

  /** One intercepted call: the join point it works on and the trace of every
      hook and of the original call. */
  class Interception {
    var jp: JoinPoint
    var trace: seq<Event>

    constructor (jp: JoinPoint)
      ensures this.jp == jp && trace == []
    {
      this.jp, trace := jp, [];
    }

    /** `snapshot` is the join point as it was before the chain started. */
    method RunAroundChain(snapshot: JoinPoint, bindings: seq<Binding>, called: Outcome) returns (outcome: Outcome)
      modifies this`trace
      ensures outcome == ChainOutcome(snapshot, bindings, called)
      ensures trace == old(trace) + ChainTrace(snapshot, bindings, called)
      decreases |bindings|
    {
      if bindings == [] {
        trace := trace + [Call];
        return called;
      }
      var outer, rest := bindings[0], bindings[1..];
      trace := trace + [Enter(outer.aspect.name)];
      ghost var inside := [];
      match outer.aspect.around(snapshot) {
        case ShortCircuit(o) => outcome := o;
        case Proceeds(reply) =>
          var inner := RunAroundChain(snapshot, rest, called);
          outcome := reply(inner);
          inside := ChainTrace(snapshot, rest, called);
      }
      assert trace == old(trace) + [Enter(outer.aspect.name)] + inside;
      trace := trace + [Exit(outer.aspect.name, outcome)];
      assert ChainTrace(snapshot, bindings, called) == [Enter(outer.aspect.name)] + inside + [Exit(outer.aspect.name, outcome)];
    }

    method RunAfter(bindings: seq<Binding>)
      modifies this`trace
      ensures trace == old(trace) + Afters(bindings, jp)
    {
      for i := 0 to |bindings|
        invariant trace == old(trace) + Afters(bindings, jp)[..i]
      {
        trace := trace + [After(bindings[i].aspect.name, jp)];
      }
      assert Afters(bindings, jp)[..|bindings|] == Afters(bindings, jp);
    }

    method RunBefore(bindings: seq<Binding>)
      modifies this`trace
      ensures trace == old(trace) + Befores(bindings, jp)
    {
      for i := 0 to |bindings|
        invariant trace == old(trace) + Befores(bindings, jp)[..i]
      {
        trace := trace + [Before(bindings[i].aspect.name, jp)];
      }
      assert Befores(bindings, jp)[..|bindings|] == Befores(bindings, jp);
    }

    /** Runs the whole chain; the result is what the around block yields. */
    method InterceptWithBindings(bindings: seq<Binding>, called: Outcome) returns (outcome: Outcome)
      modifies this
      ensures outcome == ChainOutcome(old(jp), bindings, called)
      ensures jp == Recorded(old(jp), outcome)
      ensures trace == old(trace) + CallTrace(old(jp), bindings, called)
    {
      RunBefore(bindings);
      var snapshot := jp;
      outcome := RunAroundChain(snapshot, bindings, called);
      ghost var hooks := if outcome.Success? then AfterReturnings(bindings, Recorded(jp, outcome)) else AfterThrowings(bindings, Recorded(jp, outcome));
      Associate(old(trace), Befores(bindings, jp), ChainTrace(jp, bindings, called), hooks, Afters(bindings, Recorded(jp, outcome)));
      match outcome {
        case Success(value) =>
          jp := jp.(result := Some(value));
          RunAfterReturning(bindings);
        case Failure(message) =>
          jp := jp.(error := Some(message));
          RunAfterThrowing(bindings);
      }
      RunAfter(bindings);
    }

    method RunAfterReturning(bindings: seq<Binding>)
      modifies this`trace
      ensures trace == old(trace) + AfterReturnings(bindings, jp)
    {
      for i := 0 to |bindings|
        invariant trace == old(trace) + AfterReturnings(bindings, jp)[..i]
      {
        trace := trace + [AfterReturning(bindings[i].aspect.name, jp)];
      }
      assert AfterReturnings(bindings, jp)[..|bindings|] == AfterReturnings(bindings, jp);
    }

    method RunAfterThrowing(bindings: seq<Binding>)
      modifies this`trace
      ensures trace == old(trace) + AfterThrowings(bindings, jp)
    {
      for i := 0 to |bindings|
        invariant trace == old(trace) + AfterThrowings(bindings, jp)[..i]
      {
        trace := trace + [AfterThrowing(bindings[i].aspect.name, jp)];
      }
      assert AfterThrowings(bindings, jp)[..|bindings|] == AfterThrowings(bindings, jp);
    }
  }

  method Intercept(registry: AspectRegistry, typeName: string, methodName: string, called: Outcome)
    returns (outcome: Outcome, trace: seq<Event>)
    ensures var jp := JoinPoint(typeName, methodName, None, None);
            var bindings := Matching(registry.bindings, QualifiedName(jp));
            outcome == ChainOutcome(jp, bindings, called) && trace == CallTrace(jp, bindings, called)
  {
    var jp := JoinPoint(typeName, methodName, None, None);
    var bindings := registry.GetMatching(QualifiedName(jp));
    var run := new Interception(jp);
    outcome := run.InterceptWithBindings(bindings, called);
    trace := run.trace;
  }

  /** Position by position: the `before` hooks open the trace in order, with the
      join point as it was. */
  lemma BeforesOpen(jp: JoinPoint, bindings: seq<Binding>, called: Outcome, i: nat)
    requires i < |bindings|
    ensures var t := CallTrace(jp, bindings, called);
            i < |t| && t[i] == Event.Before(bindings[i].aspect.name, jp)
  {
  }

  /** Right behind the around block stands one hook per binding, in order: after a
      success `after_returning` with the value as result, after a failure
      `after_throwing` with the message as error. */
  lemma HookFollowsOutcome(jp: JoinPoint, bindings: seq<Binding>, called: Outcome, i: nat)
    requires i < |bindings|
    ensures var t, k := CallTrace(jp, bindings, called), |bindings| + |ChainTrace(jp, bindings, called)| + i;
            k < |t| &&
            match ChainOutcome(jp, bindings, called)
            case Success(value) =>
              t[k] == Event.AfterReturning(bindings[i].aspect.name, JoinPoint(jp.typeName, jp.methodName, Some(value), jp.error))
            case Failure(message) =>
              t[k] == Event.AfterThrowing(bindings[i].aspect.name, JoinPoint(jp.typeName, jp.methodName, jp.result, Some(message)))
  {
  }

  /** The `after` hooks close the trace in order and see the same join point. */
  lemma AftersClose(jp: JoinPoint, bindings: seq<Binding>, called: Outcome, i: nat)
    requires i < |bindings|
    ensures var t := CallTrace(jp, bindings, called);
            && |t| == 3 * |bindings| + |ChainTrace(jp, bindings, called)|
            && t[|t| - |bindings| + i]
               == Event.After(bindings[i].aspect.name,
                              match ChainOutcome(jp, bindings, called)
                              case Success(value) => JoinPoint(jp.typeName, jp.methodName, Some(value), jp.error)
                              case Failure(message) => JoinPoint(jp.typeName, jp.methodName, jp.result, Some(message)))
  {
  }

  /** Between them the around block: the entries from the outside in, then the call
      if every around proceeds, then the exits from the inside out, each with what
      the chain that starts at it came to. */
  lemma AroundBlock(jp: JoinPoint, bindings: seq<Binding>, called: Outcome, i: nat)
    requires i < Entered(jp, bindings)
    ensures var t, n := ChainTrace(jp, bindings, called), Entered(jp, bindings);
            && |t| == 2 * n + (if AllProceed(jp, bindings) then 1 else 0)
            && t[i] == Event.Enter(bindings[i].aspect.name)
            && (AllProceed(jp, bindings) ==> t[n] == Event.Call)
            && t[|t| - 1 - i] == Event.Exit(bindings[i].aspect.name, ChainOutcome(jp, bindings[i..], called))
  {
    ChainTraceShape(jp, bindings, called);
    var n := Entered(jp, bindings);
    var exits := Exits(jp, bindings, n, called);
    assert exits[n - 1 - i] == Exit(bindings[i].aspect.name, ChainOutcome(jp, bindings[i..], called));
    InThirds(Entries(bindings, n), if AllProceed(jp, bindings) then [Call] else [], exits, i);
  }

  lemma InThirds(a: seq<Event>, b: seq<Event>, c: seq<Event>, i: nat)
    requires i < |a| == |c|
    ensures var t := a + (b + c);
            |t| == 2 * |a| + |b| && t[i] == a[i] && (b != [] ==> t[|a|] == b[0]) && t[|t| - 1 - i] == c[|c| - 1 - i]
  {
  }

  lemma AroundBlockStands(jp: JoinPoint, bindings: seq<Binding>, called: Outcome)
    ensures var t, block := CallTrace(jp, bindings, called), ChainTrace(jp, bindings, called);
            |bindings| + |block| <= |t| && t[|bindings|..|bindings| + |block|] == block
  {
  }

  /** With no binding the original call runs alone and its outcome is returned. */
  lemma NoBindingsIsPlainCall(jp: JoinPoint, called: Outcome)
    ensures ChainOutcome(jp, [], called) == called && CallTrace(jp, [], called) == [Call]
  {
  }

  function CountCalls(trace: seq<Event>): nat {
    if trace == [] then 0 else (if trace[0] == Call then 1 else 0) + CountCalls(trace[1..])
  }

  lemma {:induction false} CountConcat(a: seq<Event>, b: seq<Event>)
    ensures CountCalls(a + b) == CountCalls(a) + CountCalls(b)
  {
    if a == [] {
      assert a + b == b;
    } else {
      assert (a + b)[1..] == a[1..] + b;
      CountConcat(a[1..], b);
    }
  }

  lemma {:induction false} CountNone(a: seq<Event>)
    requires forall i | 0 <= i < |a| :: a[i] != Call
    ensures CountCalls(a) == 0
  {
    if a != [] {
      CountNone(a[1..]);
    }
  }

  lemma ChainCalls(jp: JoinPoint, bindings: seq<Binding>, called: Outcome)
    ensures CountCalls(ChainTrace(jp, bindings, called)) == if AllProceed(jp, bindings) then 1 else 0
  {
    var n := Entered(jp, bindings);
    var middle := if AllProceed(jp, bindings) then [Call] else [];
    ChainTraceShape(jp, bindings, called);
    CountConcat(Entries(bindings, n), InnermostOnwards(jp, bindings, called));
    CountNone(Entries(bindings, n));
    CountConcat(middle, Exits(jp, bindings, n, called));
    CountNone(Exits(jp, bindings, n, called));
    assert CountCalls(middle) == if AllProceed(jp, bindings) then 1 else 0;
  }

  lemma CountMiddle(a: seq<Event>, b: seq<Event>, c: seq<Event>, d: seq<Event>)
    requires CountCalls(a) == 0 && CountCalls(c) == 0 && CountCalls(d) == 0
    ensures CountCalls(a + b + c + d) == CountCalls(b)
  {
    CountConcat(a + b + c, d);
    CountConcat(a + b, c);
    CountConcat(a, b);
  }

  /** Whatever the aspects do, the original call runs at most once in the whole
      trace, and exactly when every around proceeds. */
  lemma OriginalRunsAtMostOnce(jp: JoinPoint, bindings: seq<Binding>, called: Outcome)
    ensures CountCalls(CallTrace(jp, bindings, called)) == if AllProceed(jp, bindings) then 1 else 0
  {
    var outcome := ChainOutcome(jp, bindings, called);
    var seen := Recorded(jp, outcome);
    var hooks := if outcome.Success? then AfterReturnings(bindings, seen) else AfterThrowings(bindings, seen);
    CountNone(Befores(bindings, jp));
    CountNone(hooks);
    CountNone(Afters(bindings, seen));
    ChainCalls(jp, bindings, called);
    CountMiddle(Befores(bindings, jp), ChainTrace(jp, bindings, called), hooks, Afters(bindings, seen));
  }
}
