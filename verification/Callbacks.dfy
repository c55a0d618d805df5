/** Callback delivery: the retry loop with its audit rows, the dispatch over all
    targets, and the outbound allowlist. Times are nanoseconds. */
module Callbacks {
  import opened Text

  /** What one signed POST came to: a response, or a transport error (then the
      status is 0). */
  datatype Reply = Reply(status: nat, body: string, error: Option<string>)

  datatype Attempt = Attempt(eventId: string, targetId: string, status: nat, body: string, error: string, attempt: nat)

  datatype Target = Target(id: string, url: string, eventTypes: seq<string>, active: bool)

  datatype Event = Event(id: string, eventType: string)

  datatype Delivery = Delivered | Failed(status: nat, error: Option<string>)

  const DEFAULT_MAX_ATTEMPTS := 3
  const DEFAULT_INITIAL_DELAY := 200_000_000
  const BACKOFF_CAP := 300_000_000_000
  const ERR_DOMAIN_NOT_AUTHORIZED := "domain not authorized"

  predicate IsRetryable(status: nat) {
    status in {408, 429, 500, 502, 503, 504} || status >= 500
  }

  predicate Succeeded(r: Reply) {
    r.error.None? && 200 <= r.status < 300
  }

  /** A response that another attempt cannot improve. */
  predicate Permanent(r: Reply) {
    r.error.None? && !Succeeded(r) && !IsRetryable(r.status)
  }

  // ---------------------------------------------------------------------
  // The retry loop, as a whole
  // ---------------------------------------------------------------------

  /** The attempt that ends a delivery: the first from `from` on that succeeds or
      fails permanently, else the last of the budget. */
  function LastAttempt(replies: nat -> Reply, from: nat, max: nat): (k: nat)
    requires 1 <= from <= max
    ensures from <= k <= max
    ensures forall j | from <= j < k :: !Succeeded(replies(j)) && !Permanent(replies(j))
    ensures k == max || Succeeded(replies(k)) || Permanent(replies(k))
    decreases max - from
  {
    if from == max || Succeeded(replies(from)) || Permanent(replies(from)) then from
    else LastAttempt(replies, from + 1, max)
  }

  function Row(target: Target, ev: Event, r: Reply, attempt: nat): Attempt {
    Attempt(ev.id, target.id, r.status, r.body, if r.error.Some? then r.error.value else "", attempt)
  }

  /** The audit rows `1..k`. */
  function Rows(target: Target, ev: Event, replies: nat -> Reply, k: nat): seq<Attempt> {
    seq(k, i requires 0 <= i < k => Row(target, ev, replies(i + 1), i + 1))
  }

  function Pow2(n: nat): nat {
    if n == 0 then 1 else 2 * Pow2(n - 1)
  }

  function Min(a: nat, b: nat): nat {
    if a <= b then a else b
  }

  /** The sleep after attempt `i`. */
  function SleepAfter(initial: nat, i: nat): nat
    requires i >= 1
  {
    if i == 1 then initial else Min(initial * Pow2(i - 1), BACKOFF_CAP)
  }

  function Sleeps(initial: nat, n: nat): seq<nat> {
    seq(n, i requires 0 <= i < n => SleepAfter(initial, i + 1))
  }

  function Verdict(r: Reply): Delivery {
    if Succeeded(r) then Delivered else Failed(r.status, r.error)
  }

  lemma DoublingStep(initial: nat, i: nat)
    requires i >= 1
    ensures Min(SleepAfter(initial, i) * 2, BACKOFF_CAP) == SleepAfter(initial, i + 1)
  {
    var x := initial * Pow2(i - 1);
    assert Pow2(i) == 2 * Pow2(i - 1);
    assert initial * Pow2(i) == x * 2;
    assert i == 1 ==> Pow2(i - 1) == 1;
  }

  class HmacDispatcher {
    const maxAttempts: nat
    const initialDelay: nat
    const authorizedDomains: seq<string>
    /** The rows handed to the store, in order; a failing store is ignored. */
    var rows: seq<Attempt>
    var slept: seq<nat>

    ghost predicate Valid() {
      maxAttempts >= 1 && initialDelay >= 1
    }

    constructor (maxAttempts: nat, initialDelay: nat, authorizedDomains: seq<string>)
      ensures Valid() && rows == [] && slept == []
      ensures this.maxAttempts == if maxAttempts == 0 then DEFAULT_MAX_ATTEMPTS else maxAttempts
      ensures this.initialDelay == if initialDelay == 0 then DEFAULT_INITIAL_DELAY else initialDelay
      ensures this.authorizedDomains == authorizedDomains
    {
      this.maxAttempts := if maxAttempts == 0 then DEFAULT_MAX_ATTEMPTS else maxAttempts;
      this.initialDelay := if initialDelay == 0 then DEFAULT_INITIAL_DELAY else initialDelay;
      this.authorizedDomains := authorizedDomains;
      rows, slept := [], [];
    }

    /** `replies(n)` is what attempt `n` comes to. */
    method Deliver(target: Target, ev: Event, replies: nat -> Reply) returns (d: Delivery)
      requires Valid()
      modifies this
      ensures var k := LastAttempt(replies, 1, maxAttempts);
              && rows == old(rows) + Rows(target, ev, replies, k)
              && slept == old(slept) + Sleeps(initialDelay, k - 1)
              && d == Verdict(replies(k))
    {
      var delay := initialDelay;
      for attempt := 1 to maxAttempts + 1
        invariant attempt <= maxAttempts
        invariant LastAttempt(replies, attempt, maxAttempts) == LastAttempt(replies, 1, maxAttempts)
        invariant delay == SleepAfter(initialDelay, attempt)
        invariant rows == old(rows) + Rows(target, ev, replies, attempt - 1)
        invariant slept == old(slept) + Sleeps(initialDelay, attempt - 1)
      {
        var r := replies(attempt);
        rows := rows + [Row(target, ev, r, attempt)];
        assert Rows(target, ev, replies, attempt) == Rows(target, ev, replies, attempt - 1) + [Row(target, ev, r, attempt)];
        if r.error.None? && 200 <= r.status < 300 {
          return Delivered;
        }
        if r.error.None? && !IsRetryable(r.status) {
          return Failed(r.status, r.error);
        }
        if attempt == maxAttempts {
          return Failed(r.status, r.error);
        }
        slept := slept + [delay];
        assert Sleeps(initialDelay, attempt) == Sleeps(initialDelay, attempt - 1) + [delay];
        DoublingStep(initialDelay, attempt);
        delay := Min(delay * 2, BACKOFF_CAP);
      }
      d := Delivered;
    }

    /** A target the allowlist blocks gets one row and no request. */
    method RecordRejection(target: Target, ev: Event)
      modifies this`rows
      ensures rows == old(rows) + [Rejection(target, ev)]
    {
      rows := rows + [Rejection(target, ev)];
    }

    /** `listing` is the store's answer; `replies(i)` belongs to its target `i`. */
    method Dispatch(ev: Event, listing: Option<seq<Target>>, replies: nat -> nat -> Reply) returns (ok: bool)
      requires Valid()
      modifies this
      ensures ok == listing.Some?
      ensures rows == if ok then old(rows) + AllRows(listing.value, ev, replies, maxAttempts, authorizedDomains) else old(rows)
    {
      if listing.None? {
        return false;
      }
      var targets := listing.value;
      ghost var done := [];
      for i := 0 to |targets|
        invariant done == AllRows(targets[..i], ev, replies, maxAttempts, authorizedDomains)
        invariant rows == old(rows) + done
      {
        AllRowsStep(targets, i, ev, replies, maxAttempts, authorizedDomains);
        var target := targets[i];
        ghost var due, before := TargetRows(target, ev, replies(i), maxAttempts, authorizedDomains), rows;
        done := done + due;
        if !target.active || !MatchesType(target, ev.eventType) {
          assert due == [];
          continue;
        }
        if authorizedDomains != [] && !IsAuthorized(target.url, authorizedDomains) {
          assert due == [Rejection(target, ev)];
          RecordRejection(target, ev);
          assert rows == before + due;
          continue;
        }
        assert due == Rows(target, ev, replies(i), LastAttempt(replies(i), 1, maxAttempts));
        var d := Deliver(target, ev, replies(i));
        assert rows == before + due;
      }
      assert targets[..|targets|] == targets;
      ok := true;
    }
  }

  function Rejection(target: Target, ev: Event): Attempt {
    Attempt(ev.id, target.id, 0, "", ERR_DOMAIN_NOT_AUTHORIZED, 0)
  }

  predicate MatchesType(target: Target, eventType: string) {
    target.eventTypes == [] || eventType in target.eventTypes
  }

  predicate Subscribed(target: Target, ev: Event) {
    target.active && MatchesType(target, ev.eventType)
  }

  predicate Allowed(target: Target, domains: seq<string>) {
    domains == [] || IsAuthorized(target.url, domains)
  }

  function TargetRows(target: Target, ev: Event, replies: nat -> Reply, max: nat, domains: seq<string>): seq<Attempt>
    requires max >= 1
  {
    if !Subscribed(target, ev) then []
    else if !Allowed(target, domains) then [Rejection(target, ev)]
    else Rows(target, ev, replies, LastAttempt(replies, 1, max))
  }

  function AllRows(targets: seq<Target>, ev: Event, replies: nat -> nat -> Reply, max: nat, domains: seq<string>): seq<Attempt>
    requires max >= 1
  {
    if targets == [] then []
    else
      var n := |targets| - 1;
      AllRows(targets[..n], ev, replies, max, domains) + TargetRows(targets[n], ev, replies(n), max, domains)
  }

  lemma AllRowsStep(targets: seq<Target>, i: nat, ev: Event, replies: nat -> nat -> Reply, max: nat, domains: seq<string>)
    requires max >= 1 && i < |targets|
    ensures AllRows(targets[..i + 1], ev, replies, max, domains)
         == AllRows(targets[..i], ev, replies, max, domains) + TargetRows(targets[i], ev, replies(i), max, domains)
  {
    assert targets[..i + 1][..i] == targets[..i];
  }

  // ---------------------------------------------------------------------
  // What delivery promises
  // ---------------------------------------------------------------------

  /** A delivery succeeds exactly when some attempt in the budget gets a 2xx
      before any permanent failure; nothing but a 2xx counts as delivered. */
  lemma DeliveredIffReached2xx(replies: nat -> Reply, max: nat)
    requires max >= 1
    ensures Verdict(replies(LastAttempt(replies, 1, max))) == Delivered
       <==> exists n :: 1 <= n <= max && Succeeded(replies(n)) && forall j | 1 <= j < n :: !Permanent(replies(j))
  {
    var k := LastAttempt(replies, 1, max);
    if Succeeded(replies(k)) {
      assert forall j | 1 <= j < k :: !Permanent(replies(j));
    }
    if n :| 1 <= n <= max && Succeeded(replies(n)) && forall j | 1 <= j < n :: !Permanent(replies(j)) {
      assert k <= n;
    }
  }

  /** What is worth another attempt: a timeout, a throttled request, and every
      server error; no other response is. */
  lemma RetryableIs(status: nat)
    ensures IsRetryable(status) <==> status == 408 || status == 429 || 500 <= status
    ensures Succeeded(Reply(status, "", None)) <==> 199 < status < 300
  {
  }

  /** The attempt that decides, in terms of the responses: no earlier one is a 2xx,
      and every earlier one is a transport error or a response worth another try. */
  lemma DecidedBy(replies: nat -> Reply, max: nat)
    requires max >= 1
    ensures var k := LastAttempt(replies, 1, max);
            && (forall j | 1 <= j < k ::
                  replies(j).error.Some? || replies(j).status == 408 || replies(j).status == 429 || 500 <= replies(j).status)
            && (k < max ==> replies(k).error.None?
                            && replies(k).status != 408 && replies(k).status != 429 && replies(k).status < 500)
            && Verdict(replies(k))
               == (if replies(k).error.None? && 200 <= replies(k).status <= 299 then Delivered
                   else Failed(replies(k).status, replies(k).error))
  {
  }

  /** Everything in a row comes from its own attempt. */
  lemma RowsHoldTheirAttempts(target: Target, ev: Event, replies: nat -> Reply, k: nat, i: nat)
    requires i < k
    ensures Rows(target, ev, replies, k)[i]
         == Attempt(ev.id, target.id, replies(i + 1).status, replies(i + 1).body,
                    match replies(i + 1).error case Some(message) => message case None => "", i + 1)
  {
  }

  /** The defaults and the cap, in the units of the documentation: three attempts,
      200 milliseconds, five minutes. */
  lemma Settings()
    ensures DEFAULT_MAX_ATTEMPTS == 3 && DEFAULT_INITIAL_DELAY == 200 * 1_000_000
    ensures BACKOFF_CAP == 5 * 60 * 1000 * 1_000_000
  {
  }

  /** The sleeps one from another: the first as configured, each further one twice
      the one before, cut at five minutes. */
  lemma SleepsDouble(initial: nat, n: nat, i: nat)
    requires i < n
    ensures var sleeps := Sleeps(initial, n);
            sleeps[i] == if i == 0 then initial
                         else if 2 * sleeps[i - 1] <= 300_000_000_000 then 2 * sleeps[i - 1] else 300_000_000_000
  {
    if i > 0 {
      DoublingStep(initial, i);
    }
  }

  /** The rows of a delivery are numbered 1 to k without gaps, every row but the
      last is a retryable failure, and there is one sleep between two rows. */
  lemma RowsAreConsecutive(target: Target, ev: Event, replies: nat -> Reply, initial: nat, max: nat)
    requires max >= 1
    ensures var k := LastAttempt(replies, 1, max);
            var rows := Rows(target, ev, replies, k);
            && 1 <= |rows| <= max && |Sleeps(initial, k - 1)| == |rows| - 1
            && (forall i | 0 <= i < |rows| :: rows[i].attempt == i + 1 && rows[i].status == replies(i + 1).status)
            && (forall j | 1 <= j < |rows| :: replies(j).error.Some? || IsRetryable(replies(j).status))
  {
    var k := LastAttempt(replies, 1, max);
    forall j | 1 <= j < k ensures replies(j).error.Some? || IsRetryable(replies(j).status) {
      assert !Succeeded(replies(j)) && !Permanent(replies(j));
    }
  }

  /** The documentation says no delay grows past the cap. The first sleep is the
      initial delay, uncapped: the claim holds exactly when there is no sleep or
      the configured initial delay is itself within the cap. */
  lemma SleepsWithinCap(initial: nat, n: nat)
    ensures (forall i | 0 <= i < n :: Sleeps(initial, n)[i] <= BACKOFF_CAP) <==> n == 0 || initial <= BACKOFF_CAP
  {
    if n > 0 && initial > BACKOFF_CAP {
      assert Sleeps(initial, n)[0] == initial;
    }
  }

  /** A dispatcher whose initial delay is over the cap sleeps that long before its
      second attempt. */
  method FirstSleepOverCap() returns (slept: seq<nat>)
    ensures slept == [BACKOFF_CAP + 1]
  {
    var dispatcher := new HmacDispatcher(2, BACKOFF_CAP + 1, []);
    var busy := (attempt: nat) => Reply(503, "", None);
    assert LastAttempt(busy, 1, 2) == 2;
    var d := dispatcher.Deliver(Target("t", "https://example.org", [], true), Event("e", "created"), busy);
    slept := dispatcher.slept;
    assert Sleeps(BACKOFF_CAP + 1, 1) == [BACKOFF_CAP + 1];
  }

  lemma {:induction false} Pow2Grows(initial: nat, i: nat)
    ensures initial <= initial * Pow2(i)
  {
    if i > 0 {
      Pow2Grows(initial, i - 1);
      assert initial * Pow2(i) == 2 * (initial * Pow2(i - 1));
    }
  }

  /** Back-off never shrinks, if the initial delay is within the cap. */
  lemma SleepsAscend(initial: nat, i: nat)
    requires i >= 1 && initial <= BACKOFF_CAP
    ensures SleepAfter(initial, i) <= SleepAfter(initial, i + 1)
  {
    DoublingStep(initial, i);
    Pow2Grows(initial, i);
  }

  // ---------------------------------------------------------------------
  // What dispatch promises
  // ---------------------------------------------------------------------

  /** Who gets an event, and who is turned away: one row, attempt 0, status 0, the
      fixed message. */
  lemma TargetRowsAre(target: Target, ev: Event, replies: nat -> Reply, max: nat, domains: seq<string>)
    requires max >= 1
    ensures var rows := TargetRows(target, ev, replies, max, domains);
            && (rows != [] <==> target.active && (target.eventTypes == [] || exists i :: 0 <= i < |target.eventTypes| && target.eventTypes[i] == ev.eventType))
            && (rows != [] && rows[0].attempt == 0 ==>
                  rows == [Attempt(ev.id, target.id, 0, "", "domain not authorized", 0)]
                  && domains != [] && !IsAuthorized(target.url, domains))
            && (rows != [] && rows[0].attempt != 0 ==>
                  rows == Rows(target, ev, replies, LastAttempt(replies, 1, max)) && (domains == [] || IsAuthorized(target.url, domains)))
  {
  }

  /** A row with a positive attempt number stands for a request: it goes to a
      subscribed target that the allowlist admits. */
  lemma {:induction false} RequestsOnlyToAllowed(targets: seq<Target>, ev: Event, replies: nat -> nat -> Reply, max: nat, domains: seq<string>, row: Attempt)
    requires max >= 1 && row in AllRows(targets, ev, replies, max, domains)
    ensures exists i :: 0 <= i < |targets| && row.targetId == targets[i].id && Subscribed(targets[i], ev)
                        && (if row.attempt == 0 then !Allowed(targets[i], domains) else Allowed(targets[i], domains))
  {
    var n := |targets| - 1;
    if row in AllRows(targets[..n], ev, replies, max, domains) {
      RequestsOnlyToAllowed(targets[..n], ev, replies, max, domains, row);
      var i :| 0 <= i < n && row.targetId == targets[..n][i].id && Subscribed(targets[..n][i], ev)
               && (if row.attempt == 0 then !Allowed(targets[..n][i], domains) else Allowed(targets[..n][i], domains));
      assert targets[..n][i] == targets[i];
    } else {
      assert row in TargetRows(targets[n], ev, replies(n), max, domains);
    }
  }

  function CountSubscribed(targets: seq<Target>, ev: Event): nat {
    if targets == [] then 0
    else CountSubscribed(targets[..|targets| - 1], ev) + if Subscribed(targets[|targets| - 1], ev) then 1 else 0
  }

  function CountFirst(rows: seq<Attempt>): nat {
    if rows == [] then 0 else CountFirst(rows[..|rows| - 1]) + if rows[|rows| - 1].attempt <= 1 then 1 else 0
  }

  lemma {:induction false} CountFirstConcat(a: seq<Attempt>, b: seq<Attempt>)
    ensures CountFirst(a + b) == CountFirst(a) + CountFirst(b)
  {
    if b == [] {
      assert a + b == a;
    } else {
      assert (a + b)[..|a + b| - 1] == a + b[..|b| - 1];
      CountFirstConcat(a, b[..|b| - 1]);
    }
  }

  lemma {:induction false} OneFirstRow(target: Target, ev: Event, replies: nat -> Reply, k: nat)
    requires k >= 1
    ensures CountFirst(Rows(target, ev, replies, k)) == 1
  {
    var rows := Rows(target, ev, replies, k);
    assert rows[..k - 1] == Rows(target, ev, replies, k - 1);
    assert rows[k - 1] == Row(target, ev, replies(k - 1 + 1), k - 1 + 1);
    if k == 1 {
      assert rows[..0] == [];
    } else {
      OneFirstRow(target, ev, replies, k - 1);
    }
  }

  lemma {:induction false} RowsSoFar(targets: seq<Target>, n: nat, ev: Event, replies: nat -> nat -> Reply, max: nat, domains: seq<string>)
    requires max >= 1 && n <= |targets|
    ensures AllRows(targets[..n], ev, replies, max, domains) <= AllRows(targets, ev, replies, max, domains)
    decreases |targets|
  {
    if n == |targets| {
      assert targets[..n] == targets;
    } else {
      var front := targets[..|targets| - 1];
      RowsSoFar(front, n, ev, replies, max, domains);
      assert front[..n] == targets[..n];
    }
  }

  lemma OwnRows(target: Target, ev: Event, replies: nat -> Reply, max: nat, domains: seq<string>)
    requires max >= 1
    ensures var own := TargetRows(target, ev, replies, max, domains);
            && (own != [] <==> Subscribed(target, ev))
            && (forall n | 0 <= n < |own| :: own[n].targetId == target.id && (own[n].attempt <= 1 <==> n == 0))
  {
  }

  lemma PlaceOfRows(targets: seq<Target>, i: nat, ev: Event, replies: nat -> nat -> Reply, max: nat, domains: seq<string>)
    requires max >= 1 && i < |targets|
    ensures AllRows(targets[..i], ev, replies, max, domains) + TargetRows(targets[i], ev, replies(i), max, domains)
         <= AllRows(targets, ev, replies, max, domains)
  {
    AllRowsStep(targets, i, ev, replies, max, domains);
    RowsSoFar(targets, i + 1, ev, replies, max, domains);
  }

  /** No failure of one target keeps another from its turn. For each target the
      log holds, in its place, rows of its own: none when it does not subscribe,
      else rows of which exactly the first is a first attempt or a rejection. */
  lemma TargetGetsItsTurn(targets: seq<Target>, i: nat, ev: Event, replies: nat -> nat -> Reply, max: nat, domains: seq<string>)
    requires max >= 1 && i < |targets|
    ensures var own := TargetRows(targets[i], ev, replies(i), max, domains);
            && AllRows(targets[..i], ev, replies, max, domains) + own <= AllRows(targets, ev, replies, max, domains)
            && (own != [] <==> Subscribed(targets[i], ev))
            && (forall n | 0 <= n < |own| :: own[n].targetId == targets[i].id && (own[n].attempt <= 1 <==> n == 0))
  {
    PlaceOfRows(targets, i, ev, replies, max, domains);
    OwnRows(targets[i], ev, replies(i), max, domains);
  }

  /** Over all targets: as many first rows as subscribed targets. */
  lemma {:induction false} EveryTargetGetsItsTurn(targets: seq<Target>, ev: Event, replies: nat -> nat -> Reply, max: nat, domains: seq<string>)
    requires max >= 1
    ensures CountFirst(AllRows(targets, ev, replies, max, domains)) == CountSubscribed(targets, ev)
  {
    if targets != [] {
      var n := |targets| - 1;
      EveryTargetGetsItsTurn(targets[..n], ev, replies, max, domains);
      CountFirstConcat(AllRows(targets[..n], ev, replies, max, domains), TargetRows(targets[n], ev, replies(n), max, domains));
      OneFirstRow(targets[n], ev, replies(n), LastAttempt(replies(n), 1, max));
    }
  }

  // ---------------------------------------------------------------------
  // The allowlist
  // ---------------------------------------------------------------------

  function EndOf(authority: string): string {
    AfterLast(authority, '@')
  }

  /** The lower-case host of an absolute URL; none without an authority part or
      with an unclosed bracket. */
  function HostOf(url: string): Option<string> {
    match SplitOnce(url, "://")
    case None => None
    case Some((_, afterScheme)) =>
      HostIn(EndOf(Until(afterScheme, {'/', '?', '#'})))
  }

  function HostIn(hostPort: string): Option<string> {
    if "[" <= hostPort then
      if ']' in hostPort[1..] then Some(Lower("[" + Until(hostPort[1..], {']'}) + "]")) else None
    else Some(Lower(Until(hostPort, {':'})))
  }

  predicate EndsWith(s: string, suffix: string) {
    |suffix| <= |s| && s[|s| - |suffix|..] == suffix
  }

  predicate DomainAdmits(host: string, domain: string) {
    var allowed := Lower(Trim(domain));
    allowed != "" && (host == allowed || EndsWith(host, "." + allowed))
  }

  predicate IsAuthorized(url: string, domains: seq<string>) {
    match HostOf(url)
    case None => false
    case Some(host) => host != "" && exists i :: 0 <= i < |domains| && DomainAdmits(host, domains[i])
  }

  ghost predicate LabelSuffix(host: string, allowed: string) {
    var labels, suffix := SplitOn(host, '.'), SplitOn(allowed, '.');
    |suffix| <= |labels| && labels[|labels| - |suffix|..] == suffix
  }

  lemma SuffixGivesLabels(front: string, allowed: string)
    ensures LabelSuffix(front + ['.'] + allowed, allowed) && LabelSuffix(allowed, allowed)
  {
    SplitConcat(front, '.', allowed);
    var before, suffix := SplitOn(front, '.'), SplitOn(allowed, '.');
    assert (before + suffix)[|before|..] == suffix;
  }

  lemma LabelsGiveSuffix(host: string, allowed: string)
    requires LabelSuffix(host, allowed)
    ensures host == allowed || EndsWith(host, "." + allowed)
  {
    var n := |SplitOn(host, '.')| - |SplitOn(allowed, '.')|;
    JoinSplit(allowed, '.');
    if n == 0 {
      JoinSplit(host, '.');
    } else {
      var k := SplitCut(host, '.', n);
      JoinSplit(host[k + 1..], '.');
      assert host[k..] == "." + host[k + 1..];
      assert host[|host| - |"." + allowed|..] == host[k..];
    }
  }

  /** Labels, not characters: an entry admits a host exactly when the labels of
      the entry are the last labels of the host. */
  lemma AdmitsWholeLabels(host: string, domain: string)
    ensures DomainAdmits(host, domain) <==> Lower(Trim(domain)) != "" && LabelSuffix(host, Lower(Trim(domain)))
  {
    var allowed := Lower(Trim(domain));
    if host == allowed {
      SuffixGivesLabels("", allowed);
    } else if EndsWith(host, "." + allowed) {
      var front := host[..|host| - |"." + allowed|];
      assert host == front + ("." + allowed);
      assert host == front + ['.'] + allowed;
      SuffixGivesLabels(front, allowed);
    }
    if LabelSuffix(host, allowed) {
      LabelsGiveSuffix(host, allowed);
    }
  }

  /** A URL is authorized exactly when it has a host that some entry, trimmed and
      lowered, covers with whole labels. */
  lemma AuthorizedIff(url: string, domains: seq<string>)
    ensures IsAuthorized(url, domains)
       <==> && HostOf(url).Some? && HostOf(url).value != ""
            && exists i :: 0 <= i < |domains| && Lower(Trim(domains[i])) != "" && LabelSuffix(HostOf(url).value, Lower(Trim(domains[i])))
  {
    if HostOf(url).Some? {
      var host := HostOf(url).value;
      forall i | 0 <= i < |domains|
        ensures DomainAdmits(host, domains[i]) <==> Lower(Trim(domains[i])) != "" && LabelSuffix(host, Lower(Trim(domains[i])))
      {
        AdmitsWholeLabels(host, domains[i]);
      }
    }
  }

  lemma {:induction false} UntilStop(a: string, b: string, stops: set<char>)
    requires forall c | c in a :: c !in stops
    requires b == "" || b[0] in stops
    ensures Until(a + b, stops) == a
  {
    if a == "" {
      assert a + b == b;
    } else {
      assert (a + b)[1..] == a[1..] + b;
      UntilStop(a[1..], b, stops);
    }
  }

  lemma {:induction false} SchemeSplits(scheme: string, rest: string)
    requires ':' !in scheme
    ensures SplitOnce(scheme + "://" + rest, "://") == Some((scheme, rest))
  {
    var url := scheme + "://" + rest;
    if scheme == "" {
      assert url[3..] == rest;
    } else {
      assert url[1..] == scheme[1..] + "://" + rest;
      assert url[0] != "://"[0];
      assert [scheme[0]] + scheme[1..] == scheme;
      SchemeSplits(scheme[1..], rest);
    }
  }

  lemma {:induction false} AfterUserInfo(user: string, host: string)
    requires '@' !in host
    ensures AfterLast(user + "@" + host, '@') == host
  {
    var s := user + "@" + host;
    if user == "" {
      assert s[1..] == host;
    } else {
      assert s[1..] == user[1..] + "@" + host;
      assert s[1..][|user| - 1] == '@';
      AfterUserInfo(user[1..], host);
    }
  }

  lemma {:induction false} NoUserInfo(s: string)
    requires '@' !in s
    ensures AfterLast(s, '@') == s
  {
  }

  const DELIMITERS := {'/', '?', '#'}

  /** The host is found whatever scheme, user info, port, path, query or fragment
      surround it. `user` is the text up to and with its `@`, `port` the text
      from its `:` on; either may be missing. The host is the one this parser
      reads: a client that takes a backslash for a slash may read another. */
  lemma HostOfAssembledUrl(scheme: string, user: string, host: string, port: string, tail: string)
    requires ':' !in scheme
    requires user == "" || user[|user| - 1] == '@'
    requires forall c | c in user :: c !in DELIMITERS
    requires forall c | c in host :: c !in DELIMITERS && c != '@' && c != ':'
    requires !("[" <= host)
    requires port == "" || port[0] == ':'
    requires forall c | c in port :: c !in DELIMITERS && c != '@'
    requires tail == "" || tail[0] in DELIMITERS
    ensures HostOf(scheme + "://" + (user + (host + port) + tail)) == Some(Lower(host))
  {
    SchemeSplits(scheme, user + (host + port) + tail);
    UntilStop(user + (host + port), tail, DELIMITERS);
    UserInfoDropped(user, host + port);
    UntilStop(host, port, {':'});
    NotBracketed(host, port);
  }

  /** A bracketed literal is the host as a whole, colons and all, brackets
      included; what follows the bracket does not matter. */
  lemma {:induction false} HostOfBracketedUrl(scheme: string, user: string, literal: string, port: string, tail: string)
    requires ':' !in scheme
    requires user == "" || user[|user| - 1] == '@'
    requires forall c | c in user :: c !in DELIMITERS
    requires forall c | c in literal :: c !in DELIMITERS && c != '@' && c != ']'
    requires forall c | c in port :: c !in DELIMITERS && c != '@'
    requires tail == "" || tail[0] in DELIMITERS
    ensures HostOf(scheme + "://" + (user + ("[" + literal + "]" + port) + tail)) == Some("[" + Lower(literal) + "]")
  {
    var hostPort := "[" + literal + "]" + port;
    SchemeSplits(scheme, user + hostPort + tail);
    UntilStop(user + hostPort, tail, DELIMITERS);
    UserInfoDropped(user, hostPort);
    BracketedHost(literal, port);
  }

  lemma BracketedHost(literal: string, port: string)
    requires ']' !in literal
    ensures HostIn("[" + literal + "]" + port) == Some("[" + Lower(literal) + "]")
  {
    var hostPort, after := "[" + literal + "]" + port, literal + ("]" + port);
    assert hostPort[0] == '[' && hostPort[1..] == after;
    assert after[|literal|] == ']';
    UntilStop(literal, "]" + port, {']'});
    assert Lower("[" + literal + "]") == "[" + Lower(literal) + "]";
  }

  /** The authority of a URL by the generic syntax (section 3 of RFC 3986): what
      follows `//` right behind the first colon, up to the path, query or
      fragment. */
  function AuthorityOf(url: string): Option<string> {
    match SplitOnce(url, ":")
    case Some((_, rest)) => if "//" <= rest then Some(Until(rest[2..], DELIMITERS)) else None
    case None => None
  }

  lemma {:induction false} FirstColon(s: string)
    ensures SplitOnce(s, ":").Some? ==>
              var (a, b) := SplitOnce(s, ":").value; s == a + ":" + b && ':' !in a
    ensures SplitOnce(s, ":").None? ==> ':' !in s
  {
    if s != "" && s[0] != ':' {
      FirstColon(s[1..]);
      assert s == [s[0]] + s[1..];
    }
  }

  lemma {:induction false} FirstScheme(url: string)
    ensures SplitOnce(url, "://").Some? ==>
              var (before, after) := SplitOnce(url, "://").value;
              url == before + "://" + after && forall k | 0 <= k < |before| :: !("://" <= url[k..])
    ensures SplitOnce(url, "://").None? ==> forall k | 0 <= k < |url| :: !("://" <= url[k..])
  {
    if !("://" <= url) && url != "" {
      FirstScheme(url[1..]);
      assert forall k | 0 < k < |url| :: url[k..] == url[1..][k - 1..];
      assert url[0..] == url;
      assert url == [url[0]] + url[1..];
    }
  }

  lemma ColonBefore(url: string, before: string, after: string, a: string, b: string)
    requires url == before + "://" + after && url == a + ":" + b && ':' !in a
    ensures |a| <= |before|
    ensures |a| == |before| <==> ':' !in before
    ensures |a| == |before| ==> b == "//" + after
  {
    assert url[|before|] == ':' && url[|a|] == ':';
    assert forall k | 0 <= k < |a| :: url[k] == a[k] && a[k] != ':';
    assert forall k | 0 <= k < |before| :: url[k] == before[k];
    assert b == url[|a| + 1..];
    assert url[|before| + 1..] == "//" + after;
  }

  lemma ColonSlashes(b: string)
    ensures "//" <= b <==> "://" <= ":" + b
  {
    if "://" <= ":" + b {
      assert b == (":" + b)[1..];
    }
  }

  /** Without `://` there is no host, and none is authorized. */
  lemma NoSchemeNoHost(url: string, domains: seq<string>)
    requires forall k | 0 <= k < |url| :: !("://" <= url[k..])
    ensures HostOf(url) == None && !IsAuthorized(url, domains)
  {
    SchemeStands(url);
  }

  lemma SchemeStands(url: string)
    ensures SplitOnce(url, "://").Some? ==> exists k | 0 <= k < |url| :: "://" <= url[k..]
  {
    FirstScheme(url);
    if SplitOnce(url, "://").Some? {
      var (before, after) := SplitOnce(url, "://").value;
      assert url[|before|..] == "://" + after;
    }
  }

  /** An authority that opens a bracket and does not close it has no host. */
  lemma UnclosedBracketHasNoHost(url: string, before: string, literal: string)
    requires SplitOnce(url, "://") == Some((before, "[" + literal))
    requires forall c | c in literal :: c !in DELIMITERS && c != '@' && c != ']'
    ensures HostOf(url) == None
  {
    var after := "[" + literal;
    assert after + "" == after && after[1..] == literal;
    UntilStop(after, "", DELIMITERS);
    NoUserInfo(after);
  }

  /** Where `host_of` starts reading is the authority of the URL exactly when the
      text before the first `://` has no colon of its own. Otherwise, as in
      `http:a.example/?u=://b.example`, the URL has no authority and the host is
      taken from further on. */
  lemma ReadsAuthorityIff(url: string, before: string, after: string)
    requires SplitOnce(url, "://") == Some((before, after))
    ensures AuthorityOf(url) == Some(Until(after, DELIMITERS)) <==> ':' !in before
    ensures ':' in before ==> AuthorityOf(url) == None
  {
    FirstScheme(url);
    FirstColon(url);
    assert ':' in url by {
      assert url[|before|] == ':';
    }
    var (a, b) := SplitOnce(url, ":").value;
    ColonBefore(url, before, after, a, b);
    if ':' in before {
      assert url[|a|..] == ":" + b;
      assert !("://" <= url[|a|..]);
      ColonSlashes(b);
    } else {
      assert ("//" + after)[2..] == after;
    }
  }

  lemma PlainHost(url: string, before: string, after: string)
    requires SplitOnce(url, "://") == Some((before, after))
    requires forall c | c in after :: c !in DELIMITERS && c != '@' && c != ':' && c != '['
    ensures HostOf(url) == Some(Lower(after))
  {
    assert after + "" == after;
    UntilStop(after, "", DELIMITERS);
    NoUserInfo(after);
    UntilStop(after, "", {':'});
  }

  /** Text with a colon of its own before the first `://`: no authority, and the
      host is what follows all the same. */
  lemma HostWithoutAuthority(before: string, host: string)
    requires forall k | 0 <= k < |before| - 1 :: before[k] == ':' ==> before[k + 1] != '/'
    requires ':' in before && before[|before| - 1] != ':'
    requires forall c | c in host :: c !in DELIMITERS && c != '@' && c != ':' && c != '['
    ensures AuthorityOf(before + "://" + host) == None
    ensures HostOf(before + "://" + host) == Some(Lower(host))
  {
    FirstSchemeIs(before, host);
    ReadsAuthorityIff(before + "://" + host, before, host);
    PlainHost(before + "://" + host, before, host);
  }

  /** The URL named above. */
  lemma QueryReadAsHost() returns (before: string, host: string)
    ensures before == "http:a.example/?u=" && host == "b.example"
    ensures AuthorityOf(before + "://" + host) == None
    ensures HostOf(before + "://" + host) == Some(Lower(host))
  {
    before, host := "http:a.example/?u=", "b.example";
    assert before[4] == ':';
    HostWithoutAuthority(before, host);
  }

  /** The first `://` is found where no earlier colon is followed by a slash. */
  lemma {:induction false} FirstSchemeIs(before: string, after: string)
    requires forall k | 0 <= k < |before| - 1 :: before[k] == ':' ==> before[k + 1] != '/'
    requires before != "" ==> before[|before| - 1] != ':'
    ensures SplitOnce(before + "://" + after, "://") == Some((before, after))
  {
    var url := before + "://" + after;
    if before == "" {
      assert url[3..] == after;
    } else {
      assert url[1..] == before[1..] + "://" + after;
      assert url[0] == before[0];
      assert |before| > 1 ==> url[1] == before[1];
      assert !("://" <= url);
      FirstSchemeIs(before[1..], after);
      assert [before[0]] + before[1..] == before;
    }
  }

  lemma UserInfoDropped(user: string, hostPort: string)
    requires user == "" || user[|user| - 1] == '@'
    requires '@' !in hostPort
    ensures EndOf(user + hostPort) == hostPort
  {
    if user == "" {
      assert user + hostPort == hostPort;
      NoUserInfo(hostPort);
    } else {
      var name := user[..|user| - 1];
      assert user + hostPort == name + "@" + hostPort;
      AfterUserInfo(name, hostPort);
    }
  }

  lemma NotBracketed(host: string, port: string)
    requires !("[" <= host) && (port == "" || port[0] == ':')
    ensures !("[" <= host + port)
  {
    if host == "" {
      assert host + port == port;
    } else {
      assert (host + port)[0] == host[0];
    }
  }
}
