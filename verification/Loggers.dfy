/** The directive table behind the logger endpoint: its textual form, the parser
    of that form, level changes, and the level a logger inherits. */
module Loggers {
  import opened Text
  import opened SortedMap

  datatype Level = OFF | ERROR | WARN | INFO | DEBUG | TRACE

  datatype Table = Table(root: Level, targets: seq<Entry<Level>>)

  function ParseLevel(raw: string): Option<Level> {
    var name := Upper(Trim(raw));
    if name == "OFF" then Some(OFF)
    else if name == "ERROR" then Some(ERROR)
    else if name == "WARN" then Some(WARN)
    else if name == "INFO" then Some(INFO)
    else if name == "DEBUG" then Some(DEBUG)
    else if name == "TRACE" then Some(TRACE)
    else None
  }

  function LevelName(l: Level): string {
    match l
    case OFF => "OFF"
    case ERROR => "ERROR"
    case WARN => "WARN"
    case INFO => "INFO"
    case DEBUG => "DEBUG"
    case TRACE => "TRACE"
  }

  function LevelDirective(l: Level): string {
    match l
    case OFF => "off"
    case ERROR => "error"
    case WARN => "warn"
    case INFO => "info"
    case DEBUG => "debug"
    case TRACE => "trace"
  }

  predicate IsRoot(name: string) {
    Upper(name) == "ROOT"
  }

  // ---------------------------------------------------------------------
  // Printing and parsing
  // ---------------------------------------------------------------------

  function Piece(e: Entry<Level>): string {
    e.key + "=" + LevelDirective(e.value)
  }

  function Printed(targets: seq<Entry<Level>>): string {
    if targets == [] then ""
    else Printed(targets[..|targets| - 1]) + "," + Piece(targets[|targets| - 1])
  }

  lemma PrintedStep(head: string, targets: seq<Entry<Level>>, i: nat)
    requires i < |targets|
    ensures head + Printed(targets[..i + 1])
         == head + Printed(targets[..i]) + "," + targets[i].key + "=" + LevelDirective(targets[i].value)
  {
    assert targets[..i + 1][..i] == targets[..i];
    Regroup(head, Printed(targets[..i]), ",", Piece(targets[i]));
    Regroup(head + Printed(targets[..i]) + ",", targets[i].key, "=", LevelDirective(targets[i].value));
  }

  function DirectivesOf(t: Table): string {
    LevelDirective(t.root) + Printed(t.targets)
  }

  /** One comma-separated directive; what cannot be read is skipped. */
  function Applied(t: Table, piece: string): Table {
    var directive := Trim(piece);
    if directive == "" then t
    else
      match SplitOnce(directive, "=")
      case Some((target, level)) =>
        (match ParseLevel(level)
         case Some(l) => t.(targets := Insert(t.targets, Trim(target), l))
         case None => t)
      case None =>
        (match ParseLevel(directive)
         case Some(l) => t.(root := l)
         case None => t)
  }

  function AppliedAll(pieces: seq<string>): Table {
    if pieces == [] then Table(INFO, [])
    else Applied(AppliedAll(pieces[..|pieces| - 1]), pieces[|pieces| - 1])
  }

  function Parse(directives: string): Table {
    AppliedAll(SplitOn(directives, ','))
  }

  /** A target name that survives printing. */
  predicate CleanName(name: string) {
    ',' !in name && '=' !in name && IsTrimmed(name)
  }

  ghost predicate Clean(targets: seq<Entry<Level>>) {
    forall e | e in targets :: CleanName(e.key)
  }

  lemma UpperIs(s: string, u: string)
    requires |s| == |u| && forall i | 0 <= i < |s| :: UpperChar(s[i]) == u[i]
    ensures Upper(s) == u
  {
  }

  lemma UpperNames(l: Level)
    ensures Upper(LevelDirective(l)) == LevelName(l) && Upper(LevelName(l)) == LevelName(l)
  {
    UpperIs(LevelDirective(l), LevelName(l));
    UpperIs(LevelName(l), LevelName(l));
  }

  lemma DirectiveIsPlain(l: Level)
    ensures var d := LevelDirective(l);
            d != "" && IsTrimmed(d) && ',' !in d && '=' !in d
  {
  }

  /** Levels are read in any case and with outer blanks. */
  lemma ParseLevelOf(raw: string, l: Level)
    requires Upper(Trim(raw)) == LevelName(l)
    ensures ParseLevel(raw) == Some(l)
  {
  }

  lemma {:induction false} LevelRoundTrip(l: Level)
    ensures ParseLevel(LevelDirective(l)) == Some(l) && ParseLevel(LevelName(l)) == Some(l)
  {
    UpperNames(l);
    DirectiveIsPlain(l);
    TrimTrimmed(LevelDirective(l));
    assert IsTrimmed(LevelName(l));
    TrimTrimmed(LevelName(l));
    ParseLevelOf(LevelDirective(l), l);
    ParseLevelOf(LevelName(l), l);
  }

  lemma {:induction false} SplitOnceFree(a: string, b: string)
    requires '=' !in a
    ensures SplitOnce(a + "=" + b, "=") == Some((a, b))
  {
    var s := a + "=" + b;
    if a == "" {
      assert s[1..] == b;
    } else {
      assert s[1..] == a[1..] + "=" + b;
      assert s[0] != "="[0];
      SplitOnceFree(a[1..], b);
      assert [a[0]] + a[1..] == a;
    }
  }

  lemma {:induction false} SplitOnceNone(s: string)
    requires '=' !in s
    ensures SplitOnce(s, "=") == None
  {
    if s != "" {
      assert s[0] != "="[0];
      SplitOnceNone(s[1..]);
    }
  }

  lemma {:induction false} SplitOnceParts(s: string)
    ensures SplitOnce(s, "=").Some? ==>
              var (a, b) := SplitOnce(s, "=").value; '=' !in a && (forall c | c in a :: c in s)
  {
    if !("=" <= s) && s != "" {
      SplitOnceParts(s[1..]);
      assert "=" <= s <==> s[0] == '=';
    }
  }

  lemma AppliedPiece(t: Table, e: Entry<Level>)
    requires CleanName(e.key)
    ensures Applied(t, Piece(e)) == t.(targets := Insert(t.targets, e.key, e.value))
    ensures ',' !in Piece(e)
  {
    var d := LevelDirective(e.value);
    LevelRoundTrip(e.value);
    DirectiveIsPlain(e.value);
    assert IsTrimmed(Piece(e)) by {
      assert Piece(e)[|Piece(e)| - 1] == d[|d| - 1];
      assert Piece(e)[0] == if e.key == "" then '=' else e.key[0];
    }
    TrimTrimmed(Piece(e));
    SplitOnceFree(e.key, d);
    TrimTrimmed(e.key);
  }

  /** The names, and which texts read as a level: its name in any case, with outer
      blanks. */
  lemma LevelNames(raw: string, l: Level)
    ensures ParseLevel(raw) == Some(l) <==> Upper(Trim(raw)) == LevelName(l)
    ensures LevelName(OFF) == "OFF" && LevelName(ERROR) == "ERROR" && LevelName(WARN) == "WARN"
    ensures LevelName(INFO) == "INFO" && LevelName(DEBUG) == "DEBUG" && LevelName(TRACE) == "TRACE"
    ensures Upper(LevelDirective(l)) == LevelName(l) && Lower(LevelDirective(l)) == LevelDirective(l)
  {
    UpperNames(l);
    DirectiveIsLower(l);
  }

  lemma DirectiveIsLower(l: Level)
    ensures Lower(LevelDirective(l)) == LevelDirective(l)
  {
  }

  /** The root logger is named by these four letters in any case. */
  lemma RootNames(name: string)
    ensures IsRoot(name) <==> |name| == 4 && name[0] in {'R', 'r'} && name[1] in {'O', 'o'} && name[2] in {'O', 'o'} && name[3] in {'T', 't'}
  {
    if IsRoot(name) {
      var u := Upper(name);
      assert |name| == 4 && u[0] == 'R' && u[1] == 'O' && u[2] == 'O' && u[3] == 'T';
    }
    if |name| == 4 && name[0] in {'R', 'r'} && name[1] in {'O', 'o'} && name[2] in {'O', 'o'} && name[3] in {'T', 't'} {
      assert Upper(name) == "ROOT";
    }
  }

  /** Nothing is read of a blank directive, and without any the table is the
      default one. */
  lemma BlankIsSkipped(t: Table, piece: string)
    requires Blank(piece)
    ensures Applied(t, piece) == t && Parse("") == Table(INFO, [])
  {
    TrimOfBlank(piece);
    assert SplitOn("", ',') == [""];
    assert [""] == [] + [""];
    AppliedAllSnoc([], "");
    assert Trim("") == "";
  }

  lemma {:induction false} TrimOfBlank(s: string)
    requires Blank(s)
    ensures TrimStart(s) == "" && Trim(s) == ""
  {
    if s != "" {
      assert forall i | 0 <= i < |s| - 1 :: s[1..][i] == s[i + 1];
      TrimOfBlank(s[1..]);
    }
  }

  /** A directive without an equals sign sets the root level when it reads as a
      level, and is skipped otherwise. */
  lemma RootIsRead(t: Table, piece: string)
    requires '=' !in piece && !Blank(piece)
    ensures Applied(t, piece) == match ParseLevel(piece) case Some(l) => Table(l, t.targets) case None => t
  {
    SomethingLeft(piece);
    TrimIsTrimmed(piece);
    TrimTrimmed(Trim(piece));
    SplitOnceNone(Trim(piece));
  }

  lemma SomethingLeft(s: string)
    ensures Trim(s) == "" ==> Blank(s)
  {
    var a, b := TrimTakes(s);
    if Trim(s) == "" {
      assert s == a + b;
    }
  }

  /** A directive `a=b` configures the trimmed name `a` with the level `b` when that
      reads as one, blanks around both; otherwise it is skipped. */
  lemma AssignmentIsRead(t: Table, a: string, b: string)
    requires '=' !in a
    ensures Applied(t, a + "=" + b)
         == match ParseLevel(b) case Some(l) => Table(t.root, Insert(t.targets, Trim(a), l)) case None => t
  {
    TrimAssignment(a, b);
    TrimStartTakes(a);
    TrimTwice(a, b);
    AppliedAssignment(t, a + "=" + b, TrimStart(a), TrimEnd(b));
    SameLevel(TrimEnd(b), b);
  }

  lemma AppliedAssignment(t: Table, piece: string, x: string, y: string)
    requires Trim(piece) == x + "=" + y && '=' !in x
    ensures Applied(t, piece)
         == match ParseLevel(y) case Some(l) => Table(t.root, Insert(t.targets, Trim(x), l)) case None => t
  {
    SplitOnceFree(x, y);
  }

  lemma SameLevel(a: string, b: string)
    requires Trim(a) == Trim(b)
    ensures ParseLevel(a) == ParseLevel(b)
  {
  }

  lemma TrimAssignment(a: string, b: string)
    ensures Trim(a + "=" + b) == TrimStart(a) + "=" + TrimEnd(b)
  {
    assert a + "=" + b == a + ("=" + b);
    TrimStartSeam(a, "=" + b);
    assert TrimStart(a) + ("=" + b) == TrimStart(a) + "=" + b;
    TrimEndSeam(TrimStart(a) + "=", b);
  }

  lemma {:induction false} TrimStartSeam(a: string, b: string)
    requires b != "" && !IsWhitespace(b[0])
    ensures TrimStart(a + b) == TrimStart(a) + b
  {
    if a == "" {
      assert a + b == b;
    } else if IsWhitespace(a[0]) {
      assert (a + b)[1..] == a[1..] + b;
      TrimStartSeam(a[1..], b);
    }
  }

  lemma {:induction false} TrimEndSeam(a: string, b: string)
    requires a != "" && !IsWhitespace(a[|a| - 1])
    ensures TrimEnd(a + b) == a + TrimEnd(b)
  {
    if b == "" {
      assert a + b == a;
    } else if IsWhitespace(b[|b| - 1]) {
      assert (a + b)[..|a + b| - 1] == a + b[..|b| - 1];
      TrimEndSeam(a, b[..|b| - 1]);
    }
  }

  lemma TrimTwice(a: string, b: string)
    ensures Trim(TrimStart(a)) == Trim(a) && Trim(TrimEnd(b)) == Trim(b)
  {
    TrimStartFacts(a);
    assert TrimStart(TrimStart(a)) == TrimStart(a);
    TrimsCommute(b);
    TrimEndFacts(TrimStart(b));
    assert TrimEnd(TrimEnd(TrimStart(b))) == TrimEnd(TrimStart(b));
  }

  lemma {:induction false} TrimsCommute(s: string)
    ensures TrimStart(TrimEnd(s)) == TrimEnd(TrimStart(s))
  {
    if s != "" && IsWhitespace(s[0]) {
      TrimsCommute(s[1..]);
      HeadBlank(s);
    } else if s != "" {
      TrimEndSeam([s[0]], s[1..]);
      assert s == [s[0]] + s[1..];
    }
  }

  lemma HeadBlank(s: string)
    requires s != "" && IsWhitespace(s[0])
    ensures TrimStart(TrimEnd(s)) == TrimStart(TrimEnd(s[1..]))
  {
    if Blank(s) {
      assert forall i | 0 <= i < |s| - 1 :: s[1..][i] == s[i + 1];
      EndOfBlank(s);
      EndOfBlank(s[1..]);
    } else {
      EndAfterHead(s);
    }
  }

  lemma {:induction false} EndOfBlank(s: string)
    requires Blank(s)
    ensures TrimEnd(s) == ""
  {
    if s != "" {
      EndOfBlank(s[..|s| - 1]);
    }
  }

  lemma {:induction false} EndAfterHead(s: string)
    requires s != "" && IsWhitespace(s[0]) && !Blank(s)
    ensures TrimEnd(s) == [s[0]] + TrimEnd(s[1..])
  {
    assert s == [s[0]] + s[1..];
    if IsWhitespace(s[|s| - 1]) {
      assert s[1..] != "";
      assert s[1..][..|s[1..]| - 1] == s[..|s| - 1][1..];
      var i :| 0 <= i < |s| && !IsWhitespace(s[i]);
      assert s[..|s| - 1][i] == s[i];
      EndAfterHead(s[..|s| - 1]);
    }
  }

  lemma AppliedRoot(t: Table, l: Level)
    ensures Applied(t, LevelDirective(l)) == t.(root := l)
  {
    LevelRoundTrip(l);
    DirectiveIsPlain(l);
    TrimTrimmed(LevelDirective(l));
    SplitOnceNone(LevelDirective(l));
  }

  function Pieces(t: Table): seq<string> {
    [LevelDirective(t.root)] + seq(|t.targets|, i requires 0 <= i < |t.targets| => Piece(t.targets[i]))
  }

  lemma {:induction false} JoinSnoc(parts: seq<string>, last: string, sep: string)
    requires parts != []
    ensures JoinWith(parts + [last], sep) == JoinWith(parts, sep) + sep + last
  {
    if |parts| > 1 {
      assert (parts + [last])[1..] == parts[1..] + [last];
      JoinSnoc(parts[1..], last, sep);
    } else {
      assert (parts + [last])[1..] == [last];
    }
  }

  lemma {:induction false} PrintedIsJoined(t: Table)
    ensures DirectivesOf(t) == JoinWith(Pieces(t), ",")
    decreases |t.targets|
  {
    if t.targets != [] {
      var n := |t.targets| - 1;
      var front := t.(targets := t.targets[..n]);
      PrintedIsJoined(front);
      PiecesSnoc(t, front);
      JoinSnoc(Pieces(front), Piece(t.targets[n]), ",");
      Regroup(LevelDirective(t.root), Printed(front.targets), ",", Piece(t.targets[n]));
    }
  }

  /** Inserting behind every key appends. */
  lemma {:induction false} InsertLast(entries: seq<Entry<Level>>, e: Entry<Level>)
    requires Sorted(entries + [e])
    ensures Insert(entries, e.key, e.value) == entries + [e]
  {
    if entries != [] {
      assert Less((entries + [e])[0].key, (entries + [e])[|entries|].key);
      LessTrichotomy(entries[0].key, e.key);
      assert (entries + [e])[1..] == entries[1..] + [e];
      assert Sorted((entries + [e])[1..]);
      InsertLast(entries[1..], e);
    }
  }

  lemma PiecesSnoc(t: Table, front: Table)
    requires t.targets != []
    requires front == t.(targets := t.targets[..|t.targets| - 1])
    ensures Pieces(t) == Pieces(front) + [Piece(t.targets[|t.targets| - 1])]
  {
  }

  lemma PiecesHaveNoComma(t: Table)
    requires Clean(t.targets)
    ensures forall i | 0 <= i < |Pieces(t)| :: ',' !in Pieces(t)[i]
  {
    forall i | 0 <= i < |Pieces(t)| ensures ',' !in Pieces(t)[i] {
      if i == 0 {
        DirectiveIsPlain(t.root);
      } else {
        assert t.targets[i - 1] in t.targets;
        AppliedPiece(t, t.targets[i - 1]);
      }
    }
  }

  lemma AppliedSnoc(front: Table, e: Entry<Level>)
    requires CleanName(e.key) && Sorted(front.targets + [e])
    ensures Applied(front, Piece(e)) == front.(targets := front.targets + [e])
  {
    AppliedPiece(front, e);
    InsertLast(front.targets, e);
  }

  lemma AppliedAllSnoc(front: seq<string>, piece: string)
    ensures AppliedAll(front + [piece]) == Applied(AppliedAll(front), piece)
  {
    assert (front + [piece])[..|front|] == front;
  }

  ghost predicate Rebuilds(t: Table) {
    AppliedAll(Pieces(t)) == t
  }

  lemma RootRebuilds(l: Level)
    ensures Rebuilds(Table(l, []))
  {
    assert Pieces(Table(l, [])) == [] + [LevelDirective(l)];
    AppliedAllSnoc([], LevelDirective(l));
    AppliedRoot(Table(INFO, []), l);
  }

  lemma FrontIsClean(targets: seq<Entry<Level>>, n: nat)
    requires Sorted(targets) && Clean(targets) && n <= |targets|
    ensures Sorted(targets[..n]) && Clean(targets[..n])
  {
  }

  lemma PiecesAppliedSnoc(t: Table, front: Table, last: Entry<Level>)
    requires Sorted(t.targets) && Clean(t.targets) && t.targets == front.targets + [last] && t.root == front.root
    requires Rebuilds(front)
    ensures Rebuilds(t)
  {
    assert last in t.targets;
    assert front.targets == t.targets[..|t.targets| - 1];
    PiecesSnoc(t, front);
    AppliedAllSnoc(Pieces(front), Piece(last));
    AppliedSnoc(front, last);
  }

  lemma {:induction false} PiecesApplied(t: Table, n: nat)
    requires Sorted(t.targets) && Clean(t.targets) && n <= |t.targets|
    ensures Rebuilds(Table(t.root, t.targets[..n]))
  {
    if n == 0 {
      assert t.targets[..n] == [];
      RootRebuilds(t.root);
    } else {
      PiecesApplied(t, n - 1);
      FrontIsClean(t.targets, n);
      assert t.targets[..n] == t.targets[..n - 1] + [t.targets[n - 1]];
      PiecesAppliedSnoc(Table(t.root, t.targets[..n]), Table(t.root, t.targets[..n - 1]), t.targets[n - 1]);
    }
  }

  /** Whatever is parsed, the table is sorted and its names are clean. */
  lemma {:induction false} ParsedIsClean(pieces: seq<string>)
    requires forall i | 0 <= i < |pieces| :: ',' !in pieces[i]
    ensures Sorted(AppliedAll(pieces).targets) && Clean(AppliedAll(pieces).targets)
  {
    if pieces != [] {
      var n := |pieces| - 1;
      ParsedIsClean(pieces[..n]);
      AppliedIsClean(AppliedAll(pieces[..n]), pieces[n]);
    }
  }

  lemma AppliedIsClean(t: Table, piece: string)
    requires Sorted(t.targets) && Clean(t.targets) && ',' !in piece
    ensures Sorted(Applied(t, piece).targets) && Clean(Applied(t, piece).targets)
  {
    var directive := Trim(piece);
    TrimIsTrimmed(piece);
    SplitOnceParts(directive);
    if SplitOnce(directive, "=").Some? {
      var (target, level) := SplitOnce(directive, "=").value;
      TrimIsTrimmed(target);
      if ParseLevel(level).Some? {
        InsertClean(t.targets, Trim(target), ParseLevel(level).value);
      }
    }
  }

  lemma InsertClean(targets: seq<Entry<Level>>, name: string, l: Level)
    requires Sorted(targets) && Clean(targets) && CleanName(name)
    ensures Sorted(Insert(targets, name, l)) && Clean(Insert(targets, name, l))
  {
    InsertSorted(targets, name, l);
    forall e | e in Insert(targets, name, l) ensures CleanName(e.key) {
      InsertMember(targets, name, l, e);
    }
  }

  /** Parsing the printed directives rebuilds the table exactly when every target
      name is clean: no comma, no equals sign, no outer blank. */
  lemma RoundTripIffClean(t: Table)
    requires Sorted(t.targets)
    ensures Parse(DirectivesOf(t)) == t <==> Clean(t.targets)
  {
    if Clean(t.targets) {
      PrintedIsJoined(t);
      PiecesApplied(t, |t.targets|);
      assert t.targets[..|t.targets|] == t.targets;
      PiecesHaveNoComma(t);
      SplitJoin(Pieces(t), ',');
      assert [','] == ",";
    }
    if Parse(DirectivesOf(t)) == t {
      ParsedIsClean(SplitOn(DirectivesOf(t), ','));
    }
  }

  // ---------------------------------------------------------------------
  // Level changes
  // ---------------------------------------------------------------------

  function Remove(targets: seq<Entry<Level>>, name: string): seq<Entry<Level>> {
    if targets == [] then []
    else if targets[0].key == name then targets[1..]
    else [targets[0]] + Remove(targets[1..], name)
  }

  /** `level` is the parsed request; none resets. */
  function Changed(t: Table, initialRoot: Level, name: string, level: Option<Level>): Table {
    if IsRoot(name) then t.(root := if level.Some? then level.value else initialRoot)
    else if level.Some? then t.(targets := Insert(t.targets, name, level.value))
    else t.(targets := Remove(t.targets, name))
  }

  datatype Error = UnknownLevel(raw: string) | Reload

  datatype Result = Ok | Err(error: Error)

  datatype Request = Reset | Wanted(raw: string)

  /** The requested level: nothing and the empty string reset. */
  function Requested(level: Option<string>): Request {
    if level.None? || level.value == "" then Reset else Wanted(level.value)
  }

  /** `EnvFilter::try_new` and the reload handle, as the text they are given. */
  datatype Subscriber = Subscriber(accepts: string -> bool, reloads: string -> bool)

  /** `loaded` is the text of the filter the subscriber runs with: the one it was
      seeded with, then the one of the last reload that went through. */
  datatype State = State(table: Table, initialRoot: Level, loaded: string)

  /** One `set_level` and how the subscriber takes it. */
  datatype Call = Call(name: string, level: Option<string>, sub: Subscriber)

  predicate UnknownRequest(level: Option<string>) {
    Requested(level).Wanted? && ParseLevel(Requested(level).raw).None?
  }

  /** The table a call with a known level asks for. */
  function Wish(s: State, c: Call): Table {
    Changed(s.table, s.initialRoot, c.name, if Requested(c.level).Wanted? then ParseLevel(Requested(c.level).raw) else None)
  }

  function LevelSet(s: State, c: Call): (State, Result) {
    if UnknownRequest(c.level) then (s, Err(UnknownLevel(Requested(c.level).raw)))
    else
      var text := DirectivesOf(Wish(s, c));
      if c.sub.accepts(text) && c.sub.reloads(text) then (s.(table := Wish(s, c), loaded := text), Ok)
      else (s.(table := Wish(s, c)), Err(Reload))
  }

  function Started(directives: string): State {
    var t := Parse(directives);
    State(t, t.root, directives)
  }

  class LoggersState {
    const initialRoot: Level
    var root: Level
    var targets: seq<Entry<Level>>
    /** Directive texts the reload handle was called with. */
    var pushed: seq<string>
    /** The text of the filter in force. */
    var loaded: string

    ghost predicate Valid()
      reads this
    {
      Sorted(targets)
    }

    function View(): Table
      reads this
    {
      Table(root, targets)
    }

    function Snapshot(): State
      reads this
    {
      State(View(), initialRoot, loaded)
    }

    /** The caller seeds the state with the directives its filter started from. */
    constructor (directives: string)
      ensures Valid() && Snapshot() == Started(directives) && pushed == []
    {
      var t := Table(INFO, []);
      var pieces := SplitOn(directives, ',');
      for i := 0 to |pieces|
        invariant t == AppliedAll(pieces[..i])
      {
        assert pieces[..i + 1][..i] == pieces[..i];
        var directive := Trim(pieces[i]);
        if directive == "" {
          continue;
        }
        match SplitOnce(directive, "=") {
          case Some((target, raw)) =>
            var level := ParseLevel(raw);
            if level.Some? {
              t := t.(targets := Insert(t.targets, Trim(target), level.value));
            }
          case None =>
            var level := ParseLevel(directive);
            if level.Some? {
              t := t.(root := level.value);
            }
        }
      }
      assert pieces[..|pieces|] == pieces;
      ParsedIsClean(pieces);
      initialRoot, root, targets, pushed := t.root, t.root, t.targets, [];
      loaded := directives;
    }

    method Directives() returns (out: string)
      ensures out == DirectivesOf(View())
    {
      out := LevelDirective(root);
      for i := 0 to |targets|
        invariant out == LevelDirective(root) + Printed(targets[..i])
      {
        PrintedStep(LevelDirective(root), targets, i);
        out := out + "," + targets[i].key + "=" + LevelDirective(targets[i].value);
      }
      assert targets[..|targets|] == targets;
    }

    /** An unknown level changes nothing. Otherwise the table changes, and stays
        changed even when the subscriber then refuses the new filter. */
    method SetLevel(name: string, level: Option<string>, sub: Subscriber) returns (r: Result)
      requires Valid()
      modifies this
      ensures Valid()
      ensures var wanted := Requested(level);
              if wanted.Wanted? && ParseLevel(wanted.raw).None?
              then r == Err(UnknownLevel(wanted.raw)) && View() == old(View()) && pushed == old(pushed)
              else
                var t := Changed(old(View()), initialRoot, name, if wanted.Wanted? then ParseLevel(wanted.raw) else None);
                var text := DirectivesOf(t);
                && View() == t
                && pushed == (if sub.accepts(text) then old(pushed) + [text] else old(pushed))
                && r == if sub.accepts(text) && sub.reloads(text) then Ok else Err(Reload)
      ensures (Snapshot(), r) == LevelSet(old(Snapshot()), Call(name, level, sub))
    {
      var parsed := None;
      match Requested(level) {
        case Reset =>
        case Wanted(raw) =>
          parsed := ParseLevel(raw);
          if parsed.None? {
            return Err(UnknownLevel(raw));
          }
      }
      if IsRoot(name) {
        root := if parsed.Some? then parsed.value else initialRoot;
      } else if parsed.Some? {
        InsertSorted(targets, name, parsed.value);
        targets := Insert(targets, name, parsed.value);
      } else {
        RemoveSorted(targets, name);
        targets := Remove(targets, name);
      }
      var directives := Directives();
      if !sub.accepts(directives) {
        return Err(Reload);
      }
      pushed := pushed + [directives];
      if !sub.reloads(directives) {
        return Err(Reload);
      }
      loaded := directives;
      r := Ok;
    }

    /** Configured and effective level of a logger. */
    method LevelsOf(name: string) returns (configured: Option<Level>, effective: Level)
      ensures configured == if IsRoot(name) then Some(root) else Configured(targets, name)
      ensures effective == Effective(View(), name)
    {
      if IsRoot(name) {
        return Some(root), root;
      }
      configured := Configured(targets, name);
      if configured.Some? {
        return configured, configured.value;
      }
      var prefix := name;
      while true
        invariant Inherited(View(), prefix) == Inherited(View(), name)
        decreases |prefix|
      {
        var idx := RFind(prefix);
        if idx.None? {
          return configured, root;
        }
        prefix := prefix[..idx.value];
        var level := Configured(targets, prefix);
        if level.Some? {
          return configured, level.value;
        }
      }
    }
  }

  lemma {:induction false} RemoveMember(targets: seq<Entry<Level>>, name: string, e: Entry<Level>)
    requires Sorted(targets)
    ensures e in Remove(targets, name) <==> e in targets && e.key != name
  {
    if targets != [] {
      KeysAfterHead(targets);
      assert targets == [targets[0]] + targets[1..];
      if targets[0].key != name {
        RemoveMember(targets[1..], name, e);
      }
    }
  }

  lemma {:induction false} RemoveSorted(targets: seq<Entry<Level>>, name: string)
    requires Sorted(targets)
    ensures Sorted(Remove(targets, name))
  {
    if targets != [] && targets[0].key != name {
      var rest := Remove(targets[1..], name);
      RemoveSorted(targets[1..], name);
      KeysAfterHead(targets);
      forall j | 0 <= j < |rest| ensures Less(targets[0].key, rest[j].key) {
        assert rest[j] in rest;
        RemoveMember(targets[1..], name, rest[j]);
      }
    }
  }

  /** The list is the sorted map it stands for: lookups and changes agree. */
  lemma {:induction false} LookupIsMap(targets: seq<Entry<Level>>, name: string)
    requires Sorted(targets)
    ensures Configured(targets, name) == if name in AsMap(targets) then Some(AsMap(targets)[name]) else None
  {
    ConfiguredMember(targets, name);
    if name in AsMap(targets) {
      SortedLookup(targets, name, AsMap(targets)[name]);
    } else if Configured(targets, name).Some? {
      SortedLookup(targets, name, Configured(targets, name).value);
    }
  }

  lemma {:induction false} ConfiguredMember(targets: seq<Entry<Level>>, name: string)
    requires Sorted(targets)
    ensures forall l :: Configured(targets, name) == Some(l) <==> Entry(name, l) in targets
  {
    if targets != [] {
      ConfiguredMember(targets[1..], name);
      KeysAfterHead(targets);
      assert targets == [targets[0]] + targets[1..];
    }
  }

  lemma RemovedIsMap(targets: seq<Entry<Level>>, name: string)
    requires Sorted(targets)
    ensures AsMap(Remove(targets, name)) == AsMap(targets) - {name}
  {
    var after, less := AsMap(Remove(targets, name)), AsMap(targets) - {name};
    RemoveSorted(targets, name);
    forall k | k in after ensures k in less && less[k] == after[k] {
      SortedLookup(Remove(targets, name), k, after[k]);
      RemoveMember(targets, name, Entry(k, after[k]));
      SortedLookup(targets, k, after[k]);
    }
    forall k | k in less ensures k in after {
      SortedLookup(targets, k, less[k]);
      RemoveMember(targets, name, Entry(k, less[k]));
      SortedLookup(Remove(targets, name), k, less[k]);
    }
  }

  /** A level change is one update or removal in the map, or sets the root. */
  lemma ChangedIsMapUpdate(t: Table, initialRoot: Level, name: string, level: Option<Level>)
    requires Sorted(t.targets)
    ensures var t' := Changed(t, initialRoot, name, level);
            && Sorted(t'.targets)
            && (IsRoot(name) ==> t' == t.(root := t'.root) && t'.root == if level.Some? then level.value else initialRoot)
            && (!IsRoot(name) ==> t'.root == t.root)
            && (!IsRoot(name) ==> AsMap(t'.targets) == if level.Some? then AsMap(t.targets)[name := level.value] else AsMap(t.targets) - {name})
  {
    if !IsRoot(name) {
      if level.Some? {
        InsertSorted(t.targets, name, level.value);
        InsertUpdates(t.targets, name, level.value);
      } else {
        RemoveSorted(t.targets, name);
        RemovedIsMap(t.targets, name);
      }
    }
  }

  // ---------------------------------------------------------------------
  // Is the printed text the filter in force?
  // ---------------------------------------------------------------------

  function RunCalls(s: State, calls: seq<Call>): State {
    if calls == [] then s
    else
      var n := |calls| - 1;
      LevelSet(RunCalls(s, calls[..n]), calls[n]).0
  }

  /** What the callers were told. */
  function Replies(s: State, calls: seq<Call>): (rs: seq<Result>)
    ensures |rs| == |calls|
  {
    if calls == [] then []
    else
      var n := |calls| - 1;
      Replies(s, calls[..n]) + [LevelSet(RunCalls(s, calls[..n]), calls[n]).1]
  }

  /** How many calls were made when the last `Ok` was given; 0 if none was. */
  function LastOk(rs: seq<Result>): (k: nat)
    ensures k <= |rs|
    ensures k > 0 ==> rs[k - 1] == Ok
    ensures forall i | k <= i < |rs| :: rs[i] != Ok
  {
    if rs == [] || rs[|rs| - 1] == Ok then |rs| else LastOk(rs[..|rs| - 1])
  }

  lemma LevelSetLoads(s: State, c: Call)
    ensures var (s', r) := LevelSet(s, c);
            s'.loaded == if r == Ok then DirectivesOf(s'.table) else s.loaded
  {
  }

  /** The text of the last `Ok`, the seed before the first. */
  function LastLoaded(start: string, calls: seq<Call>): string {
    var s := Started(start);
    var k := LastOk(Replies(s, calls));
    if k == 0 then start else DirectivesOf(RunCalls(s, calls[..k]).table)
  }

  lemma {:induction false} LoadedIsLast(start: string, calls: seq<Call>)
    ensures RunCalls(Started(start), calls).loaded == LastLoaded(start, calls)
  {
    var s, rs := Started(start), Replies(Started(start), calls);
    assert calls[..|calls|] == calls;
    if calls != [] {
      var n := |calls| - 1;
      assert rs[..n] == Replies(s, calls[..n]);
      LevelSetLoads(RunCalls(s, calls[..n]), calls[n]);
      LoadedIsLast(start, calls[..n]);
      assert calls[..n][..LastOk(rs[..n])] == calls[..LastOk(rs[..n])];
    }
  }

  ghost predicate CleanCalls(calls: seq<Call>) {
    forall i | 0 <= i < |calls| :: CleanName(calls[i].name)
  }

  lemma ChangeKeepsClean(t: Table, initialRoot: Level, name: string, level: Option<Level>)
    requires Sorted(t.targets) && Clean(t.targets) && CleanName(name)
    ensures var t' := Changed(t, initialRoot, name, level); Sorted(t'.targets) && Clean(t'.targets)
  {
    if !IsRoot(name) {
      if level.Some? {
        InsertClean(t.targets, name, level.value);
      } else {
        RemoveSorted(t.targets, name);
        forall e | e in Remove(t.targets, name) ensures CleanName(e.key) {
          RemoveMember(t.targets, name, e);
        }
      }
    }
  }

  lemma {:induction false} RunKeepsClean(s: State, calls: seq<Call>)
    requires Sorted(s.table.targets) && Clean(s.table.targets) && CleanCalls(calls)
    ensures Sorted(RunCalls(s, calls).table.targets) && Clean(RunCalls(s, calls).table.targets)
  {
    if calls != [] {
      var n := |calls| - 1;
      RunKeepsClean(s, calls[..n]);
      var before, c := RunCalls(s, calls[..n]), calls[n];
      ChangeKeepsClean(before.table, before.initialRoot, c.name,
                       if Requested(c.level).Wanted? then ParseLevel(Requested(c.level).raw) else None);
    }
  }

  /** Clean tables are determined by their text. */
  lemma SameTextSameTable(a: Table, b: Table)
    requires Sorted(a.targets) && Clean(a.targets) && Sorted(b.targets) && Clean(b.targets)
    ensures DirectivesOf(a) == DirectivesOf(b) <==> a == b
  {
    RoundTripIffClean(a);
    RoundTripIffClean(b);
  }

  lemma StartedIsClean(start: string)
    ensures Sorted(Started(start).table.targets) && Clean(Started(start).table.targets)
  {
    ParsedIsClean(SplitOn(start, ','));
  }

  /** A text the printer can produce: the root level first, then clean names in
      order. */
  ghost predicate IsPrinted(text: string) {
    exists t: Table :: Sorted(t.targets) && Clean(t.targets) && DirectivesOf(t) == text
  }

  /** Against a text that was not printed from it, a clean table agrees exactly
      when the text could have been. */
  lemma AgreesWithTextIff(t: Table, text: string)
    requires Sorted(t.targets) && Clean(t.targets)
    ensures DirectivesOf(t) == text <==> IsPrinted(text) && t == Parse(text)
  {
    RoundTripIffClean(t);
    if IsPrinted(text) && t == Parse(text) {
      var u: Table :| Sorted(u.targets) && Clean(u.targets) && DirectivesOf(u) == text;
      RoundTripIffClean(u);
    }
  }

  /** Before any call the printed text is the seed exactly when the seed is in
      printed form. */
  lemma SeedIsPrintedIff(start: string)
    ensures DirectivesOf(Started(start).table) == Started(start).loaded <==> IsPrinted(start)
  {
    StartedIsClean(start);
    AgreesWithTextIff(Parse(start), start);
  }

  /** The documentation says the printed text is what the filter was last
      reloaded with. Over any calls, failed ones included, that holds exactly when
      the text is the one of the last `Ok`, or the seed before the first. For
      clean names: exactly when the table is the one of the last `Ok`, or, before
      the first, it is still the parsed seed and the seed is in printed form. */
  lemma DirectivesAreLoadedIff(start: string, calls: seq<Call>)
    ensures var s := Started(start);
            var k, t := LastOk(Replies(s, calls)), RunCalls(s, calls).table;
            && (DirectivesOf(t) == RunCalls(s, calls).loaded <==> DirectivesOf(t) == LastLoaded(start, calls))
            && (CleanCalls(calls) ==>
                  (DirectivesOf(t) == RunCalls(s, calls).loaded
                   <==> if k == 0 then IsPrinted(start) && t == Parse(start) else t == RunCalls(s, calls[..k]).table))
  {
    var s := Started(start);
    var k := LastOk(Replies(s, calls));
    LoadedIsLast(start, calls);
    if CleanCalls(calls) {
      StartedIsClean(start);
      RunKeepsClean(s, calls);
      if k == 0 {
        AgreesWithTextIff(RunCalls(s, calls).table, start);
      } else {
        assert CleanCalls(calls[..k]);
        RunKeepsClean(s, calls[..k]);
        SameTextSameTable(RunCalls(s, calls).table, RunCalls(s, calls[..k]).table);
      }
    }
  }

  /** The logger already is at the level the call asks for. */
  predicate Already(s: State, c: Call) {
    var wanted := if Requested(c.level).Wanted? then ParseLevel(Requested(c.level).raw) else None;
    if IsRoot(c.name) then s.table.root == if wanted.Some? then wanted.value else s.initialRoot
    else Configured(s.table.targets, c.name) == wanted
  }

  lemma InsertChangesUnless(targets: seq<Entry<Level>>, name: string, l: Level)
    requires Sorted(targets)
    ensures Insert(targets, name, l) == targets <==> Configured(targets, name) == Some(l)
  {
    ConfiguredMember(targets, name);
    InsertSorted(targets, name, l);
    InsertMember(targets, name, l, Entry(name, l));
    if Entry(name, l) in targets {
      forall e ensures e in Insert(targets, name, l) <==> e in targets {
        InsertMember(targets, name, l, e);
        if e.key == name {
          assert Configured(targets, name) == Some(e.value) <==> Entry(name, e.value) in targets;
          assert e == Entry(name, e.value);
        }
      }
      SortedUnique(Insert(targets, name, l), targets);
    }
  }

  lemma {:induction false} RemoveChangesUnless(targets: seq<Entry<Level>>, name: string)
    requires Sorted(targets)
    ensures Remove(targets, name) == targets <==> Configured(targets, name) == None
  {
    if targets != [] {
      if targets[0].key == name {
        assert |targets[1..]| < |targets|;
      } else {
        RemoveChangesUnless(targets[1..], name);
        assert targets == [targets[0]] + targets[1..];
      }
    }
  }

  /** For one call from agreement: text and filter still agree exactly when the
      call went through, named no level, or asked for what was already so. */
  lemma CallKeepsLoadedIff(s: State, c: Call)
    requires Sorted(s.table.targets) && Clean(s.table.targets) && CleanName(c.name)
    requires s.loaded == DirectivesOf(s.table)
    ensures var (s', r) := LevelSet(s, c);
            DirectivesOf(s'.table) == s'.loaded <==> r == Ok || UnknownRequest(c.level) || Already(s, c)
  {
    var wanted := if Requested(c.level).Wanted? then ParseLevel(Requested(c.level).raw) else None;
    ChangeKeepsClean(s.table, s.initialRoot, c.name, wanted);
    SameTextSameTable(Wish(s, c), s.table);
    if wanted.Some? {
      InsertChangesUnless(s.table.targets, c.name, wanted.value);
    } else {
      RemoveChangesUnless(s.table.targets, c.name);
    }
  }

  const Refusing := Subscriber((text: string) => true, (text: string) => false)

  /** A refused reload: the table prints a level the filter does not have. */
  method RefusedReload(l: Level, name: string, wanted: Level) returns (r: Result, printed: string, inForce: string)
    requires CleanName(name) && !IsRoot(name)
    ensures r == Err(Reload) && inForce == LevelDirective(l)
    ensures printed == LevelDirective(l) + "," + name + "=" + LevelDirective(wanted)
  {
    ParseRoot(l);
    LevelRoundTrip(wanted);
    var s := new LoggersState(LevelDirective(l));
    r := s.SetLevel(name, Some(LevelName(wanted)), Refusing);
    printed := s.Directives();
    PrintOne(l, Entry(name, wanted));
    inForce := s.loaded;
  }

  method RefusedReloadStaysPrinted() returns (r: Result, printed: string, inForce: string)
    ensures r == Err(Reload) && printed == "info,a=debug" && inForce == "info"
  {
    assert |Upper("a")| == 1;
    r, printed, inForce := RefusedReload(INFO, "a", DEBUG);
  }

  /** A seed without a root level: the table prints one the filter was never
      given, before any call. */
  method SeedWithoutRootStaysApart() returns (printed: string, inForce: string)
    ensures printed == "info,a=debug" && inForce == "a=debug"
  {
    var e := Entry("a", DEBUG);
    ParseOne(e);
    var s := new LoggersState(Piece(e));
    printed := s.Directives();
    PrintOne(INFO, e);
    inForce := s.loaded;
  }

  lemma ParseRoot(l: Level)
    ensures Parse(LevelDirective(l)) == Table(l, []) && DirectivesOf(Table(l, [])) == LevelDirective(l)
  {
    assert DirectivesOf(Table(l, [])) == LevelDirective(l);
    RoundTripIffClean(Table(l, []));
  }

  lemma ParseOne(e: Entry<Level>)
    requires CleanName(e.key)
    ensures Parse(Piece(e)) == Table(INFO, [e])
  {
    AppliedPiece(Table(INFO, []), e);
    SplitWhole(Piece(e), ',');
    AppliedAllSnoc([], Piece(e));
    assert [] + [Piece(e)] == [Piece(e)];
    assert Insert([], e.key, e.value) == [e];
  }

  lemma PrintOne(l: Level, e: Entry<Level>)
    ensures DirectivesOf(Table(l, [e])) == LevelDirective(l) + "," + e.key + "=" + LevelDirective(e.value)
    ensures Insert([], e.key, e.value) == [e]
  {
    assert [e][..0] == [];
    PrintedStep(LevelDirective(l), [e], 0);
    assert [e][..1] == [e];
  }

  /** After any calls to cleanly named loggers, from any start text, the printed
      text parses back to the table, and the text of the filter in force to the
      table of the last `Ok`, or of the seed. */
  lemma RoundTripAfterChanges(start: string, calls: seq<Call>)
    requires CleanCalls(calls)
    ensures var s := Started(start);
            var after, then_ := RunCalls(s, calls), RunCalls(s, calls[..LastOk(Replies(s, calls))]);
            && Sorted(after.table.targets) && Clean(after.table.targets)
            && Parse(DirectivesOf(after.table)) == after.table
            && Parse(after.loaded) == then_.table
  {
    var s := Started(start);
    var k := LastOk(Replies(s, calls));
    StartedIsClean(start);
    LoadedIsLast(start, calls);
    assert CleanCalls(calls[..k]);
    RunKeepsClean(s, calls);
    RunKeepsClean(s, calls[..k]);
    RoundTripIffClean(RunCalls(s, calls).table);
    RoundTripIffClean(RunCalls(s, calls[..k]).table);
  }

  // ---------------------------------------------------------------------
  // Inherited levels
  // ---------------------------------------------------------------------

  function Configured(targets: seq<Entry<Level>>, name: string): Option<Level> {
    if targets == [] then None
    else if targets[0].key == name then Some(targets[0].value)
    else Configured(targets[1..], name)
  }

  predicate ColonsAt(s: string, i: int) {
    0 <= i && i + 2 <= |s| && s[i] == ':' && s[i + 1] == ':'
  }

  /** `rfind("::")`. */
  function RFind(s: string): (r: Option<nat>)
    ensures r.Some? ==> ColonsAt(s, r.value) && forall i :: ColonsAt(s, i) ==> i <= r.value
    ensures r.None? ==> forall i :: !ColonsAt(s, i)
  {
    RFindBelow(s, |s|)
  }

  function RFindBelow(s: string, n: nat): (r: Option<nat>)
    requires n <= |s|
    ensures r.Some? ==> ColonsAt(s, r.value) && r.value < n && forall i :: ColonsAt(s, i) && i < n ==> i <= r.value
    ensures r.None? ==> forall i :: i < n ==> !ColonsAt(s, i)
  {
    if n == 0 then None
    else if ColonsAt(s, n - 1) then Some(n - 1)
    else RFindBelow(s, n - 1)
  }

  /** The ancestor loop. */
  function Inherited(t: Table, prefix: string): Level
    decreases |prefix|
  {
    match RFind(prefix)
    case None => t.root
    case Some(idx) =>
      match Configured(t.targets, prefix[..idx])
      case Some(level) => level
      case None => Inherited(t, prefix[..idx])
  }

  function Effective(t: Table, name: string): Level {
    if IsRoot(name) then t.root
    else
      match Configured(t.targets, name)
      case Some(level) => level
      case None => Inherited(t, name)
  }

  /** The level that counts: the root's for the root logger, else the logger's own,
      else that of the longest configured ancestor. */
  lemma EffectiveIs(t: Table, name: string)
    requires Sorted(t.targets)
    ensures IsRoot(name) ==> Effective(t, name) == t.root
    ensures !IsRoot(name) && name in AsMap(t.targets) ==> Effective(t, name) == AsMap(t.targets)[name]
    ensures !IsRoot(name) && name !in AsMap(t.targets) ==> Effective(t, name) == Closest(t, name, |name|)
  {
    LookupIsMap(t.targets, name);
    InheritedIsClosest(t, name);
  }

  /** Nothing requested, or the empty text, resets; any other text must read as a
      level, or the call is refused and changes nothing. */
  lemma RequestsAre(s: State, c: Call)
    ensures LevelSet(s, c).1.Err? && LevelSet(s, c).1.error.UnknownLevel?
       <==> c.level.Some? && c.level.value != "" && ParseLevel(c.level.value) == None
    ensures LevelSet(s, c).1.Err? && LevelSet(s, c).1.error.UnknownLevel? ==>
              LevelSet(s, c) == (s, Err(UnknownLevel(c.level.value)))
    ensures c.level == None || c.level == Some("") ==>
              LevelSet(s, c).0.table == Changed(s.table, s.initialRoot, c.name, None)
    ensures c.level.Some? && c.level.value != "" && ParseLevel(c.level.value).Some? ==>
              LevelSet(s, c).0.table == Changed(s.table, s.initialRoot, c.name, ParseLevel(c.level.value))
    ensures LevelSet(s, c).1 != Ok ==> LevelSet(s, c).0.loaded == s.loaded
    ensures LevelSet(s, c).1 == Ok ==> LevelSet(s, c).0.loaded == DirectivesOf(LevelSet(s, c).0.table)
    ensures var text := DirectivesOf(LevelSet(s, c).0.table);
            LevelSet(s, c).1 == Err(Reload) ==> !(c.sub.accepts(text) && c.sub.reloads(text))
    ensures var text := DirectivesOf(LevelSet(s, c).0.table);
            LevelSet(s, c).1 == Ok ==> c.sub.accepts(text) && c.sub.reloads(text)
  {
  }

  lemma {:induction false} SeedRootIsKept(start: string, calls: seq<Call>)
    ensures RunCalls(Started(start), calls).initialRoot == Parse(start).root
  {
    if calls != [] {
      SeedRootIsKept(start, calls[..|calls| - 1]);
    }
  }

  /** After any calls, resetting the root gives back the root level of the seed, and
      resetting a logger removes exactly its entry. */
  lemma ResetGivesBack(start: string, calls: seq<Call>, c: Call)
    requires c.level == None || c.level == Some("")
    ensures var before, after := RunCalls(Started(start), calls).table, RunCalls(Started(start), calls + [c]).table;
            && (IsRoot(c.name) ==> after == Table(Parse(start).root, before.targets))
            && (!IsRoot(c.name) ==> after.root == before.root && AsMap(after.targets) == AsMap(before.targets) - {c.name})
  {
    SeedRootIsKept(start, calls);
    assert (calls + [c])[..|calls|] == calls;
    RunKeepsSorted(start, calls);
    RequestsAre(RunCalls(Started(start), calls), c);
    ChangedIsMapUpdate(RunCalls(Started(start), calls).table, Parse(start).root, c.name, None);
  }

  lemma {:induction false} RunKeepsSorted(start: string, calls: seq<Call>)
    ensures Sorted(RunCalls(Started(start), calls).table.targets)
  {
    if calls == [] {
      StartedIsClean(start);
    } else {
      var n := |calls| - 1;
      RunKeepsSorted(start, calls[..n]);
      var before, c := RunCalls(Started(start), calls[..n]), calls[n];
      ChangedIsMapUpdate(before.table, before.initialRoot, c.name,
                         if Requested(c.level).Wanted? then ParseLevel(Requested(c.level).raw) else None);
    }
  }

  /** The number of colons in a row from position `i`. */
  function ColonRun(s: string, i: nat): nat
    requires i <= |s|
    decreases |s| - i
  {
    if i < |s| && s[i] == ':' then 1 + ColonRun(s, i + 1) else 0
  }

  /** Position `i` ends an ancestor path: an even, positive number of colons
      stands between it and the next segment. */
  predicate EndsAncestor(name: string, i: nat)
    requires i <= |name|
  {
    ColonRun(name, i) >= 2 && ColonRun(name, i) % 2 == 0
  }

  /** The level of the longest configured ancestor shorter than `m`. */
  function Closest(t: Table, name: string, m: nat): Level
    requires m <= |name|
  {
    if m == 0 then t.root
    else if EndsAncestor(name, m - 1) && Configured(t.targets, name[..m - 1]).Some? then
      Configured(t.targets, name[..m - 1]).value
    else Closest(t, name, m - 1)
  }

  lemma SkipTo(t: Table, name: string, i: nat, m: nat)
    requires i <= m <= |name|
    requires forall j | i <= j < m :: !EndsAncestor(name, j)
    ensures Closest(t, name, m) == Closest(t, name, i)
  {
    if i < m {
      SkipTo(t, name, i, m - 1);
    }
  }

  lemma {:induction false} InheritedFrom(t: Table, name: string, m: nat)
    requires m <= |name| && (m == |name| || EndsAncestor(name, m))
    ensures Inherited(t, name[..m]) == Closest(t, name, m)
    decreases m
  {
    var prefix := name[..m];
    match RFind(prefix)
    case None =>
      forall j | 0 <= j < m ensures !EndsAncestor(name, j) {
        NotBetween(name, m, j);
      }
      SkipTo(t, name, 0, m);
    case Some(i) =>
      RunAtFound(name, m, i);
      forall j | i < j < m ensures !EndsAncestor(name, j) {
        NotBetween(name, m, j);
      }
      SkipTo(t, name, i + 1, m);
      assert prefix[..i] == name[..i];
      InheritedFrom(t, name, i);
  }

  /** A position before `m` with no `::` inside `name[..m]` ends no ancestor. */
  lemma NotBetween(name: string, m: nat, j: nat)
    requires j < m <= |name| && (m == |name| || EndsAncestor(name, m))
    requires !ColonsAt(name[..m], j)
    ensures !EndsAncestor(name, j)
  {
    if j + 2 <= m {
      assert name[..m][j] == name[j] && name[..m][j + 1] == name[j + 1];
      assert name[j] != ':' || ColonRun(name, j + 1) == 0;
    } else {
      assert j + 1 == m;
      assert m == |name| ==> ColonRun(name, m) == 0;
    }
  }

  lemma RunAtFound(name: string, m: nat, i: nat)
    requires m <= |name| && (m == |name| || EndsAncestor(name, m))
    requires RFind(name[..m]) == Some(i)
    ensures i + 2 <= m && EndsAncestor(name, i)
  {
    var prefix := name[..m];
    assert ColonsAt(prefix, i);
    assert name[i] == ':' && name[i + 1] == ':';
    assert ColonRun(name, i) == 2 + ColonRun(name, i + 2);
    if i + 2 < m {
      assert !ColonsAt(prefix, i + 1);
      assert prefix[i + 2] == name[i + 2] != ':';
    }
  }

  /** For every table and name the loop finds the level of the longest configured
      ancestor, where an ancestor ends at an even run of colons. */
  lemma InheritedIsClosest(t: Table, name: string)
    ensures Inherited(t, name) == Closest(t, name, |name|)
  {
    assert name[..|name|] == name;
    InheritedFrom(t, name, |name|);
  }

  /** In names without three colons in a row these are exactly the module paths
      the documentation speaks of: the prefixes followed by `::`. */
  lemma AncestorsArePaths(name: string, i: nat)
    requires i <= |name|
    requires forall j :: !(ColonsAt(name, j) && ColonsAt(name, j + 1))
    ensures EndsAncestor(name, i) <==> ColonsAt(name, i)
  {
    if ColonsAt(name, i) {
      assert ColonRun(name, i) == 2 + ColonRun(name, i + 2);
      assert !ColonsAt(name, i + 1);
      assert i + 2 < |name| ==> name[i + 2] != ':';
    } else {
      assert i < |name| && name[i] == ':' ==> ColonRun(name, i + 1) == 0;
    }
  }

  /** The documented reading: the closest configured prefix followed by `::`. */
  function ClosestPath(t: Table, name: string, m: nat): Level
    requires m <= |name|
  {
    if m == 0 then t.root
    else if ColonsAt(name, m - 1) && Configured(t.targets, name[..m - 1]).Some? then
      Configured(t.targets, name[..m - 1]).value
    else ClosestPath(t, name, m - 1)
  }

  ghost predicate NoTripleColon(name: string) {
    forall j :: !(ColonsAt(name, j) && ColonsAt(name, j + 1))
  }

  lemma {:induction false} PathsWithoutTriples(t: Table, name: string, m: nat)
    requires m <= |name| && NoTripleColon(name)
    ensures Closest(t, name, m) == ClosestPath(t, name, m)
  {
    if m > 0 {
      AncestorsArePaths(name, m - 1);
      PathsWithoutTriples(t, name, m - 1);
    }
  }

  /** With one configured prefix both readings are decided at its end. */
  lemma {:induction false} OnlyPrefix(name: string, i: nat, m: nat)
    requires i <= |name| && m <= |name|
    ensures var t := Table(INFO, [Entry(name[..i], DEBUG)]);
            && Closest(t, name, m) == (if i < m && EndsAncestor(name, i) then DEBUG else INFO)
            && ClosestPath(t, name, m) == (if i < m && ColonsAt(name, i) then DEBUG else INFO)
  {
    if m > 0 {
      OnlyPrefix(name, i, m - 1);
      var targets := [Entry(name[..i], DEBUG)];
      assert |name[..m - 1]| == m - 1 && |name[..i]| == i;
      assert targets[1..] == [];
      assert Configured(targets, name[..m - 1]) == if m - 1 == i then Some(DEBUG) else None;
    }
  }

  /** Somewhere in three colons an odd number of at least three is left. */
  lemma OddRun(name: string, j: int) returns (i: nat)
    requires ColonsAt(name, j) && ColonsAt(name, j + 1)
    ensures i < |name| && ColonsAt(name, i) && !EndsAncestor(name, i)
  {
    assert ColonRun(name, j) == 1 + ColonRun(name, j + 1);
    assert ColonRun(name, j + 1) == 1 + ColonRun(name, j + 2);
    i := if ColonRun(name, j) % 2 == 1 then j else j + 1;
  }

  /** For every name: the loop gives the documented level under every table
      exactly when the name has no three colons in a row. */
  lemma InheritedIsDocumentedIff(name: string)
    ensures (forall t :: Inherited(t, name) == ClosestPath(t, name, |name|)) <==> NoTripleColon(name)
  {
    if NoTripleColon(name) {
      forall t ensures Inherited(t, name) == ClosestPath(t, name, |name|) {
        InheritedIsClosest(t, name);
        PathsWithoutTriples(t, name, |name|);
      }
    } else {
      var j :| ColonsAt(name, j) && ColonsAt(name, j + 1);
      var i := OddRun(name, j);
      var t := Table(INFO, [Entry(name[..i], DEBUG)]);
      OnlyPrefix(name, i, |name|);
      InheritedIsClosest(t, name);
      assert Inherited(t, name) != ClosestPath(t, name, |name|);
    }
  }

  /** With three colons the nearest configured prefix can be passed over. */
  lemma TripleColonSkipsAncestor()
    ensures ColonsAt("a:::b", 1)
    ensures Effective(Table(INFO, [Entry("a", DEBUG)]), "a:::b") == INFO
  {
    var t, name := Table(INFO, [Entry("a", DEBUG)]), "a:::b";
    InheritedIsClosest(t, name);
    assert Upper(name)[0] == 'A';
    assert !IsRoot(name) by {
      assert |Upper(name)| == 5;
    }
    assert Configured(t.targets, name) == None by {
      assert t.targets[0].key != name;
      assert Configured(t.targets[1..], name) == None;
    }
    assert ColonRun(name, 5) == 0 && ColonRun(name, 4) == 0 && ColonRun(name, 3) == 1;
    assert ColonRun(name, 2) == 2 && ColonRun(name, 1) == 3 && ColonRun(name, 0) == 0;
    assert Configured(t.targets, name[..2]) == None by {
      assert t.targets[0].key != name[..2];
      assert Configured(t.targets[1..], name[..2]) == None;
    }
    assert Closest(t, name, 2) == Closest(t, name, 1) == Closest(t, name, 0);
    assert Closest(t, name, 5) == Closest(t, name, 4) == Closest(t, name, 3) == Closest(t, name, 2);
  }
}
