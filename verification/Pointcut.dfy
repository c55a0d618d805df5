/** The pointcut compiler: a dot-segmented glob is turned into the source text
    of an anchored regular expression. The regular expression is not taken on
    trust: its text is parsed by the grammar of the subset it uses, and the
    parsed expression is given the usual position semantics of an unanchored
    search. */
module Pointcut {
  import opened Text

  // ---------------------------------------------------------------------
  // The generator
  // ---------------------------------------------------------------------

  /** The characters `regex::escape` puts a backslash before. */
  predicate IsMeta(c: char) {
    c in {'\\', '.', '+', '*', '?', '(', ')', '|', '[', ']', '{', '}', '^', '$', '#', '&', '-', '~'}
  }

  function Escape(c: char): string {
    if IsMeta(c) then ['\\', c] else [c]
  }

  function CharSource(c: char): string {
    if c == '*' then "[^.]*" else if c == '?' then "[^.]" else Escape(c)
  }

  function GlobSource(seg: string): string {
    if seg == "" then "" else CharSource(seg[0]) + GlobSource(seg[1..])
  }

  const AnyDepth := "(?:[^.]+\\.)*[^.]+"
  const OneSegment := "[^.]+"

  function SegmentSource(seg: string): string {
    if seg == "**" then AnyDepth else if seg == "*" then OneSegment else GlobSource(seg)
  }

  function SegmentSources(segs: seq<string>): (r: seq<string>)
    ensures |r| == |segs|
    ensures forall i | 0 <= i < |segs| :: r[i] == SegmentSource(segs[i])
  {
    seq(|segs|, i requires 0 <= i < |segs| => SegmentSource(segs[i]))
  }

  function JoinedSource(segs: seq<string>): string {
    JoinWith(SegmentSources(segs), "\\.")
  }

  function PatternSource(pattern: string): string {
    "^(?:" + JoinedSource(SplitOn(pattern, '.')) + ")$"
  }

  lemma {:induction false} GlobSourceSnoc(seg: string, c: char)
    ensures GlobSource(seg + [c]) == GlobSource(seg) + GlobSource([c])
  {
    if seg == "" {
      assert seg + [c] == [c];
    } else {
      assert (seg + [c])[1..] == seg[1..] + [c];
      GlobSourceSnoc(seg[1..], c);
    }
  }

  /** The character loop over one segment. */
  method SegmentToRegex(seg: string) returns (parts: string)
    ensures parts == SegmentSource(seg)
  {
    if seg == "**" {
      return AnyDepth;
    }
    if seg == "*" {
      return OneSegment;
    }
    parts := "";
    for i := 0 to |seg|
      invariant parts == GlobSource(seg[..i])
    {
      GlobSourceSnoc(seg[..i], seg[i]);
      assert seg[..i + 1] == seg[..i] + [seg[i]];
      match seg[i]
      case '*' => parts := parts + "[^.]*";
      case '?' => parts := parts + "[^.]";
      case other => parts := parts + Escape(other);
    }
    assert seg[..|seg|] == seg;
  }

  // ---------------------------------------------------------------------
  // The target language: regular expressions as text
  // ---------------------------------------------------------------------

  datatype Re =
    | Empty
    | Then(head: Re, tail: Re)
    | Char(c: char)
    | NotDot
    | Begin
    | End
    | Star(body: Re)
    | Plus(body: Re)

  datatype Parsed = Failed | Parsed(re: Re, rest: string)

  predicate StartsQuantifier(src: string) {
    src != "" && src[0] in {'*', '+', '?', '{'}
  }

  /** What a backslash makes literal, by the syntax of the `regex` crate: any ASCII
      character but letters and digits, which name classes and anchors, and angle
      brackets, which are word boundaries. */
  predicate EscapesToItself(c: char) {
    && c < '\U{0080}'
    && !('0' <= c <= '9') && !('A' <= c <= 'Z') && !('a' <= c <= 'z')
    && c != '<' && c != '>'
  }

  /** A sequence of quantified atoms, up to the end of the text or a `)`. */
  function ParseItems(src: string): (p: Parsed)
    ensures p.Parsed? ==> |p.rest| <= |src|
    decreases |src|, 1
  {
    if src == "" || src[0] == ')' then Parsed(Empty, src)
    else
      match ParseAtom(src)
      case Failed => Failed
      case Parsed(atom, rest) =>
        match Quantify(atom, rest)
        case Failed => Failed
        case Parsed(item, rest') =>
          match ParseItems(rest')
          case Failed => Failed
          case Parsed(items, rest'') => Parsed(Then(item, items), rest'')
  }

  /** Escapes, the class `[^.]`, groups, anchors and plain characters. What lies
      outside this subset of the syntax is rejected. */
  function ParseAtom(src: string): (p: Parsed)
    requires src != ""
    ensures p.Parsed? ==> |p.rest| < |src|
    decreases |src|, 0
  {
    match src[0]
    case '^' => Parsed(Begin, src[1..])
    case '$' => Parsed(End, src[1..])
    case '\\' => if |src| >= 2 && EscapesToItself(src[1]) then Parsed(Char(src[1]), src[2..]) else Failed
    case '[' => if "[^.]" <= src then Parsed(NotDot, src[4..]) else Failed
    case '(' =>
      if "(?:" <= src then
        match ParseItems(src[3..])
        case Failed => Failed
        case Parsed(body, rest) =>
          if rest != "" && rest[0] == ')' then Parsed(body, rest[1..]) else Failed
      else Failed
    case c =>
      if c in {'*', '+', '?', '{', '|', '.', ')'} then Failed else Parsed(Char(c), src[1..])
  }

  /** An optional `*` or `+`; other quantifiers, and a quantifier behind a
      quantifier, are outside the subset. */
  function Quantify(atom: Re, rest: string): (p: Parsed)
    ensures p.Parsed? ==> |p.rest| <= |rest|
  {
    if !StartsQuantifier(rest) then Parsed(atom, rest)
    else if StartsQuantifier(rest[1..]) then Failed
    else if rest[0] == '*' then Parsed(Star(atom), rest[1..])
    else if rest[0] == '+' then Parsed(Plus(atom), rest[1..])
    else Failed
  }

  function ParseRegex(src: string): Option<Re> {
    match ParseItems(src)
    case Parsed(re, rest) => if rest == "" then Some(re) else None
    case Failed => None
  }

  /** `re` matches the stretch `s[i..j]`; the anchors look at the whole of `s`. */
  ghost predicate Matches(re: Re, s: string, i: int, j: int)
    requires 0 <= i <= j <= |s|
    decreases re, 0, 0
  {
    match re
    case Empty => i == j
    case Then(head, tail) => exists k :: i <= k <= j && Matches(head, s, i, k) && Matches(tail, s, k, j)
    case Char(c) => j == i + 1 && s[i] == c
    case NotDot => j == i + 1 && s[i] != '.'
    case Begin => i == j == 0
    case End => i == j == |s|
    case Star(body) => MatchesMany(body, s, i, j)
    case Plus(body) => exists k :: i <= k <= j && Matches(body, s, i, k) && MatchesMany(body, s, k, j)
  }

  ghost predicate MatchesMany(body: Re, s: string, i: int, j: int)
    requires 0 <= i <= j <= |s|
    decreases body, 1, j - i
  {
    i == j || exists k :: i < k <= j && Matches(body, s, i, k) && MatchesMany(body, s, k, j)
  }

  /** `Regex::is_match`: some stretch of the text matches. */
  ghost predicate Finds(re: Re, s: string) {
    exists i, j :: 0 <= i <= j <= |s| && Matches(re, s, i, j)
  }

  /** `Pointcut::compile` followed by `is_match`; compiling panics when the
      generated source is not a regular expression. */
  ghost predicate IsMatch(pattern: string, name: string)
    requires ParseRegex(PatternSource(pattern)).Some?
  {
    Finds(ParseRegex(PatternSource(pattern)).value, name)
  }

  // ---------------------------------------------------------------------
  // The segment language, by itself
  // ---------------------------------------------------------------------

  /** fnmatch inside one segment: `*` is any text, `?` any character. */
  predicate Glob(pattern: string, text: string)
    decreases |pattern|
  {
    if pattern == "" then text == ""
    else if pattern[0] == '*' then exists k :: 0 <= k <= |text| && Glob(pattern[1..], text[k..])
    else text != "" && (pattern[0] == '?' || pattern[0] == text[0]) && Glob(pattern[1..], text[1..])
  }

  predicate SegmentMatches(pattern: string, segment: string) {
    if pattern == "*" then segment != "" else Glob(pattern, segment)
  }

  predicate NonEmpty(segments: seq<string>) {
    forall i | 0 <= i < |segments| :: segments[i] != ""
  }

  /** `**` stands for one or more non-empty segments, anything else for one. */
  predicate SegmentsMatch(patterns: seq<string>, segments: seq<string>)
    decreases |patterns|
  {
    if patterns == [] then segments == []
    else if patterns[0] == "**" then
      exists n :: 1 <= n <= |segments| && NonEmpty(segments[..n]) && SegmentsMatch(patterns[1..], segments[n..])
    else
      segments != [] && SegmentMatches(patterns[0], segments[0]) && SegmentsMatch(patterns[1..], segments[1..])
  }

  // ---------------------------------------------------------------------
  // The generated source parses to the expected expression
  // ---------------------------------------------------------------------

  function Append(a: Re, b: Re): Re {
    match a
    case Then(head, tail) => Then(head, Append(tail, b))
    case _ => b
  }

  /** The shape `ParseItems` builds: a chain of `Then` closed by `Empty`. */
  predicate IsList(re: Re) {
    match re
    case Then(_, tail) => IsList(tail)
    case Empty => true
    case _ => false
  }

  function CharRe(c: char): Re {
    if c == '*' then Star(NotDot) else if c == '?' then NotDot else Char(c)
  }

  function GlobRe(seg: string): (r: Re)
    ensures IsList(r)
  {
    if seg == "" then Empty
    else Then(CharRe(seg[0]), GlobRe(seg[1..]))
  }

  const SegmentAndDot := Then(Plus(NotDot), Then(Char('.'), Empty))

  function SegmentRe(seg: string): (r: Re)
    ensures IsList(r)
  {
    if seg == "**" then Then(Star(SegmentAndDot), Then(Plus(NotDot), Empty))
    else if seg == "*" then Then(Plus(NotDot), Empty)
    else GlobRe(seg)
  }

  function PatternRe(segs: seq<string>): (r: Re)
    requires segs != []
    ensures IsList(r)
  {
    AppendIsList(SegmentRe(segs[0]), if |segs| == 1 then Empty else Then(Char('.'), PatternRe(segs[1..])));
    if |segs| == 1 then SegmentRe(segs[0])
    else Append(SegmentRe(segs[0]), Then(Char('.'), PatternRe(segs[1..])))
  }

  lemma AppendIsList(a: Re, b: Re)
    requires IsList(a) && IsList(b)
    ensures IsList(Append(a, b))
  {
  }

  /** The escapes written are escapes of that syntax, and leave no character bare
      that has a meaning of its own in it. */
  lemma EscapesAreSyntax(c: char)
    ensures IsMeta(c) <==> c in "\\.+*?()|[]{}^$#&-~"
    ensures IsMeta(c) ==> EscapesToItself(c)
    ensures c in "\\.+*?()|[{^$" ==> Escape(c) == ['\\', c]
  {
    var metas := "\\.+*?()|[]{}^$#&-~";
    assert metas[0] == '\\' && metas[1] == '.' && metas[2] == '+' && metas[3] == '*' && metas[4] == '?' && metas[5] == '(';
    assert metas[6] == ')' && metas[7] == '|' && metas[8] == '[' && metas[9] == ']' && metas[10] == '{' && metas[11] == '}';
    assert metas[12] == '^' && metas[13] == '$' && metas[14] == '#' && metas[15] == '&' && metas[16] == '-' && metas[17] == '~';
  }

  lemma ParseChar(c: char, src: string)
    requires !StartsQuantifier(src) && ParseItems(src).Parsed?
    ensures ParseItems(Escape(c) + src) == Parsed(Then(Char(c), ParseItems(src).re), ParseItems(src).rest)
  {
    var text := Escape(c) + src;
    if IsMeta(c) {
      assert text[2..] == src;
    } else {
      assert text[1..] == src;
    }
    assert ParseAtom(text) == Parsed(Char(c), src);
  }

  lemma ParseClass(quantifier: string, item: Re, src: string)
    requires (quantifier == "" && item == NotDot) || (quantifier == "*" && item == Star(NotDot)) || (quantifier == "+" && item == Plus(NotDot))
    requires !StartsQuantifier(src) && ParseItems(src).Parsed?
    ensures ParseItems("[^.]" + quantifier + src) == Parsed(Then(item, ParseItems(src).re), ParseItems(src).rest)
  {
    var text := "[^.]" + quantifier + src;
    assert text[..4] == "[^.]";
    assert text[4..] == quantifier + src;
    assert ParseAtom(text) == Parsed(NotDot, quantifier + src);
    assert quantifier != "" ==> (quantifier + src)[1..] == src;
    assert quantifier == "" ==> quantifier + src == src;
    assert Quantify(NotDot, quantifier + src) == Parsed(item, src);
  }

  lemma ParseCharSource(c: char, src: string)
    requires !StartsQuantifier(src) && ParseItems(src).Parsed?
    ensures !StartsQuantifier(CharSource(c) + src)
    ensures ParseItems(CharSource(c) + src) == Parsed(Then(CharRe(c), ParseItems(src).re), ParseItems(src).rest)
  {
    if c == '*' {
      ParseClass("*", Star(NotDot), src);
      assert CharSource(c) == "[^.]" + "*";
    } else if c == '?' {
      ParseClass("", NotDot, src);
      assert CharSource(c) == "[^.]" + "";
    } else {
      ParseChar(c, src);
    }
  }

  lemma GlobSourceStep(seg: string, src: string)
    requires seg != ""
    ensures GlobSource(seg) + src == CharSource(seg[0]) + (GlobSource(seg[1..]) + src)
  {
  }

  lemma {:induction false} ParseGlob(seg: string, src: string)
    requires !StartsQuantifier(src) && ParseItems(src).Parsed?
    ensures !StartsQuantifier(GlobSource(seg) + src)
    ensures ParseItems(GlobSource(seg) + src) == Parsed(Append(GlobRe(seg), ParseItems(src).re), ParseItems(src).rest)
  {
    if seg == "" {
      assert GlobSource(seg) + src == src;
    } else {
      ParseGlob(seg[1..], src);
      ParseCharSource(seg[0], GlobSource(seg[1..]) + src);
      GlobSourceStep(seg, src);
    }
  }

  /** The group of the any-depth fragment, closed by its `)`. */
  lemma ParseGroup(src: string)
    ensures ParseItems("[^.]+\\.)" + src) == Parsed(SegmentAndDot, ")" + src)
  {
    assert ParseItems(")" + src) == Parsed(Empty, ")" + src);
    ParseChar('.', ")" + src);
    ParseClass("+", Plus(NotDot), Escape('.') + (")" + src));
    assert "[^.]+\\.)" + src == "[^.]" + "+" + (Escape('.') + (")" + src));
  }

  lemma ParseGroupAtom(src: string)
    ensures ParseAtom("(?:[^.]+\\.)" + src) == Parsed(SegmentAndDot, src)
  {
    var text := "(?:[^.]+\\.)" + src;
    ParseGroup(src);
    assert text[..3] == "(?:" && text[3..] == "[^.]+\\.)" + src;
    assert (")" + src)[1..] == src;
  }

  lemma ParseStarred(atom: Re, text: string, src: string)
    requires text != "" && text[0] != ')'
    requires ParseAtom(text) == Parsed(atom, "*" + src)
    requires !StartsQuantifier(src) && ParseItems(src).Parsed?
    ensures ParseItems(text) == Parsed(Then(Star(atom), ParseItems(src).re), ParseItems(src).rest)
  {
    assert ("*" + src)[1..] == src;
    assert Quantify(atom, "*" + src) == Parsed(Star(atom), src);
  }

  lemma AnyDepthText(src: string)
    ensures AnyDepth + src == "(?:[^.]+\\.)" + ("*" + ("[^.]" + "+" + src))
    ensures AnyDepth[0] == '('
  {
  }

  lemma ParseAnyDepth(src: string)
    requires !StartsQuantifier(src) && ParseItems(src).Parsed?
    ensures !StartsQuantifier(AnyDepth + src)
    ensures ParseItems(AnyDepth + src)
         == Parsed(Then(Star(SegmentAndDot), Then(Plus(NotDot), ParseItems(src).re)), ParseItems(src).rest)
  {
    var last := "[^.]" + "+" + src;
    AnyDepthText(src);
    ParseClass("+", Plus(NotDot), src);
    ParseGroupAtom("*" + last);
    ParseStarred(SegmentAndDot, AnyDepth + src, last);
  }

  /** What parsing one segment's source in front of `src` yields. */
  lemma ParseSegment(seg: string, src: string)
    requires !StartsQuantifier(src) && ParseItems(src).Parsed?
    ensures !StartsQuantifier(SegmentSource(seg) + src)
    ensures ParseItems(SegmentSource(seg) + src) == Parsed(Append(SegmentRe(seg), ParseItems(src).re), ParseItems(src).rest)
  {
    if seg == "**" {
      ParseAnyDepth(src);
      AppendTwo(Star(SegmentAndDot), Plus(NotDot), ParseItems(src).re);
    } else if seg == "*" {
      ParseClass("+", Plus(NotDot), src);
      assert SegmentSource(seg) + src == "[^.]" + "+" + src;
    } else {
      ParseGlob(seg, src);
    }
  }

  lemma AppendTwo(a: Re, b: Re, c: Re)
    ensures Append(Then(a, Then(b, Empty)), c) == Then(a, Then(b, c))
  {
    assert Append(Then(b, Empty), c) == Then(b, c);
  }

  lemma JoinedStep(segs: seq<string>, src: string)
    requires |segs| > 1
    ensures JoinedSource(segs) + src == SegmentSource(segs[0]) + (Escape('.') + (JoinedSource(segs[1..]) + src))
  {
    assert SegmentSources(segs)[1..] == SegmentSources(segs[1..]);
    assert Escape('.') == "\\.";
  }

  lemma {:induction false} ParseSegments(segs: seq<string>, src: string)
    requires segs != []
    requires !StartsQuantifier(src) && ParseItems(src) == Parsed(Empty, src)
    ensures !StartsQuantifier(JoinedSource(segs) + src)
    ensures ParseItems(JoinedSource(segs) + src) == Parsed(PatternRe(segs), src)
  {
    if |segs| == 1 {
      ParseSegment(segs[0], src);
      AppendEmpty(SegmentRe(segs[0]));
      assert JoinedSource(segs) == SegmentSource(segs[0]);
    } else {
      var tail := JoinedSource(segs[1..]) + src;
      ParseSegments(segs[1..], src);
      ParseChar('.', tail);
      assert !StartsQuantifier(Escape('.') + tail);
      ParseSegment(segs[0], Escape('.') + tail);
      JoinedStep(segs, src);
    }
  }

  lemma {:induction false} AppendEmpty(a: Re)
    requires IsList(a)
    ensures Append(a, Empty) == a
  {
    if a.Then? {
      AppendEmpty(a.tail);
    }
  }

  lemma ParseEnd()
    ensures ParseItems("$") == Parsed(Then(End, Empty), "")
    ensures ParseItems(")$") == Parsed(Empty, ")$")
  {
    assert "$"[1..] == "";
    assert ParseAtom("$") == Parsed(End, "");
  }

  lemma WholeGroupAtom(body: string, re: Re)
    requires ParseItems(body + ")$") == Parsed(re, ")$")
    ensures ParseAtom("(?:" + body + ")$") == Parsed(re, "$")
  {
    var group := "(?:" + body + ")$";
    assert group[..3] == "(?:" && group[3..] == body + ")$";
    assert ")$"[1..] == "$";
  }

  lemma ParseLast(atom: Re, text: string)
    requires text != "" && text[0] != ')' && ParseAtom(text) == Parsed(atom, "$")
    ensures ParseItems(text) == Parsed(Then(atom, Then(End, Empty)), "")
  {
    ParseEnd();
    assert Quantify(atom, "$") == Parsed(atom, "$");
  }

  lemma ParseWholeGroup(body: string, re: Re)
    requires ParseItems(body + ")$") == Parsed(re, ")$")
    ensures ParseItems("(?:" + body + ")$") == Parsed(Then(re, Then(End, Empty)), "")
  {
    WholeGroupAtom(body, re);
    ParseLast(re, "(?:" + body + ")$");
  }

  lemma ParseAnchored(group: string, re: Re)
    requires group != "" && group[0] == '(' && ParseItems(group) == Parsed(re, "")
    ensures ParseRegex("^" + group) == Some(Then(Begin, re))
  {
    assert ("^" + group)[1..] == group;
    assert ParseAtom("^" + group) == Parsed(Begin, group);
  }

  lemma PatternText(pattern: string)
    ensures PatternSource(pattern) == "^" + ("(?:" + JoinedSource(SplitOn(pattern, '.')) + ")$")
  {
  }

  /** The generated source is always a regular expression, and this is the one it
      denotes. */
  lemma PatternParses(pattern: string)
    ensures ParseRegex(PatternSource(pattern))
         == Some(Then(Begin, Then(PatternRe(SplitOn(pattern, '.')), Then(End, Empty))))
  {
    var segs := SplitOn(pattern, '.');
    ParseEnd();
    ParseSegments(segs, ")$");
    ParseWholeGroup(JoinedSource(segs), PatternRe(segs));
    ParseAnchored("(?:" + JoinedSource(segs) + ")$", Then(PatternRe(segs), Then(End, Empty)));
    PatternText(pattern);
  }

  // ---------------------------------------------------------------------
  // The expression and the segment language agree
  // ---------------------------------------------------------------------

  ghost predicate NoDot(s: string, i: int, j: int)
    requires 0 <= i <= j <= |s|
  {
    forall k | i <= k < j :: s[k] != '.'
  }

  lemma {:induction false} ManyNotDot(s: string, i: int, j: int)
    requires 0 <= i <= j <= |s|
    ensures MatchesMany(NotDot, s, i, j) <==> NoDot(s, i, j)
    decreases j - i
  {
    if i < j {
      forall k | i < k <= j ensures MatchesMany(NotDot, s, k, j) <==> NoDot(s, k, j) {
        ManyNotDot(s, k, j);
      }
      if NoDot(s, i, j) {
        assert Matches(NotDot, s, i, i + 1) && MatchesMany(NotDot, s, i + 1, j);
      }
    }
  }

  lemma PlusNotDot(s: string, i: int, j: int)
    requires 0 <= i <= j <= |s|
    ensures Matches(Plus(NotDot), s, i, j) <==> i < j && NoDot(s, i, j)
  {
    forall k | i <= k <= j ensures MatchesMany(NotDot, s, k, j) <==> NoDot(s, k, j) {
      ManyNotDot(s, k, j);
    }
    if i < j && NoDot(s, i, j) {
      assert Matches(NotDot, s, i, i + 1);
    }
  }

  ghost predicate Cut(head: Re, tail: Re, s: string, i: int, k: int, j: int)
    requires 0 <= i <= j <= |s|
  {
    i <= k <= j && Matches(head, s, i, k) && Matches(tail, s, k, j)
  }

  lemma ThenCut(head: Re, tail: Re, s: string, i: int, j: int) returns (k: int)
    requires 0 <= i <= j <= |s| && Matches(Then(head, tail), s, i, j)
    ensures Cut(head, tail, s, i, k, j)
  {
    k :| i <= k <= j && Matches(head, s, i, k) && Matches(tail, s, k, j);
  }

  lemma ThenMatches(head: Re, tail: Re, s: string, i: int, j: int)
    requires 0 <= i <= j <= |s|
    ensures Matches(Then(head, tail), s, i, j) <==> exists k :: Cut(head, tail, s, i, k, j)
  {
    if Matches(Then(head, tail), s, i, j) {
      var k := ThenCut(head, tail, s, i, j);
    }
    if k :| Cut(head, tail, s, i, k, j) {
      assert Matches(head, s, i, k) && Matches(tail, s, k, j);
    }
  }

  lemma {:induction false} AppendMatches(a: Re, b: Re, s: string, i: int, j: int)
    requires 0 <= i <= j <= |s| && IsList(a)
    ensures Matches(Append(a, b), s, i, j) <==> exists k :: Cut(a, b, s, i, k, j)
    decreases a
  {
    match a
    case Empty =>
      if Matches(b, s, i, j) {
        assert Cut(a, b, s, i, i, j);
      }
    case Then(head, tail) =>
      assert Append(a, b) == Then(head, Append(tail, b));
      ThenMatches(head, Append(tail, b), s, i, j);
      if k :| Cut(head, Append(tail, b), s, i, k, j) {
        AppendMatches(tail, b, s, k, j);
        var m :| Cut(tail, b, s, k, m, j);
        assert Cut(head, tail, s, i, k, m);
        ThenMatches(head, tail, s, i, m);
        assert Cut(a, b, s, i, m, j);
      }
      if m :| Cut(a, b, s, i, m, j) {
        ThenMatches(head, tail, s, i, m);
        var k :| Cut(head, tail, s, i, k, m);
        assert Cut(tail, b, s, k, m, j);
        AppendMatches(tail, b, s, k, j);
        assert Cut(head, Append(tail, b), s, i, k, j);
      }
  }

  lemma GlobStar(rest: string, text: string)
    ensures Glob("*" + rest, text) <==> exists k :: 0 <= k <= |text| && Glob(rest, text[k..])
  {
    assert ("*" + rest)[1..] == rest;
    if Glob("*" + rest, text) {
      var k := GlobStarCut("*" + rest, text);
    }
    if k :| 0 <= k <= |text| && Glob(rest, text[k..]) {
      assert Glob(("*" + rest)[1..], text[k..]);
    }
  }

  lemma GlobStarCut(pattern: string, text: string) returns (k: int)
    requires pattern != "" && pattern[0] == '*' && Glob(pattern, text)
    ensures 0 <= k <= |text| && Glob(pattern[1..], text[k..])
  {
    k :| 0 <= k <= |text| && Glob(pattern[1..], text[k..]);
  }

  /** `tail` matches the dot-free stretches of `s[..j]` that `rest` accepts. */
  ghost predicate TailAccepts(tail: Re, rest: string, s: string, i: int, j: int)
    requires 0 <= i <= j <= |s|
  {
    forall k | i <= k <= j :: Matches(tail, s, k, j) <==> NoDot(s, k, j) && Glob(rest, s[k..j])
  }

  lemma StarThenCut(rest: string, tail: Re, s: string, i: int, m: int, j: int)
    requires 0 <= i <= m <= j <= |s| && TailAccepts(tail, rest, s, i, j)
    requires NoDot(s, i, j) && Glob(rest, s[m..j])
    ensures Cut(Star(NotDot), tail, s, i, m, j)
  {
    ManyNotDot(s, i, m);
    assert NoDot(s, m, j);
  }

  lemma StarThenSplits(rest: string, tail: Re, s: string, i: int, j: int) returns (m: int)
    requires 0 <= i <= j <= |s| && TailAccepts(tail, rest, s, i, j)
    requires NoDot(s, i, j) && Glob("*" + rest, s[i..j])
    ensures Cut(Star(NotDot), tail, s, i, m, j)
  {
    var pattern := "*" + rest;
    assert pattern[1..] == rest;
    var k := GlobStarCut(pattern, s[i..j]);
    m := i + k;
    assert s[i..j][k..] == s[m..j];
    StarThenCut(rest, tail, s, i, m, j);
  }

  lemma StarThenMatches(rest: string, tail: Re, s: string, i: int, j: int)
    requires 0 <= i <= j <= |s| && TailAccepts(tail, rest, s, i, j)
    ensures Matches(Then(Star(NotDot), tail), s, i, j) <==> NoDot(s, i, j) && Glob("*" + rest, s[i..j])
  {
    ThenMatches(Star(NotDot), tail, s, i, j);
    if k :| Cut(Star(NotDot), tail, s, i, k, j) {
      GlobStar(rest, s[i..j]);
      ManyNotDot(s, i, k);
      assert s[i..j][k - i..] == s[k..j];
    }
    if NoDot(s, i, j) && Glob("*" + rest, s[i..j]) {
      var m := StarThenSplits(rest, tail, s, i, j);
    }
  }

  lemma OneThenMatches(c: char, rest: string, tail: Re, s: string, i: int, j: int)
    requires 0 <= i <= j <= |s| && TailAccepts(tail, rest, s, i, j) && c != '*' && c != '.'
    ensures Matches(Then(CharRe(c), tail), s, i, j) <==> NoDot(s, i, j) && Glob([c] + rest, s[i..j])
  {
    ThenMatches(CharRe(c), tail, s, i, j);
    assert ([c] + rest)[1..] == rest;
    if i < j {
      assert s[i..j][0] == s[i] && s[i..j][1..] == s[i + 1..j];
      assert (exists k :: Cut(CharRe(c), tail, s, i, k, j)) <==> Cut(CharRe(c), tail, s, i, i + 1, j);
    }
  }

  /** A partial glob matches exactly the dot-free stretches its fnmatch reading
      accepts. */
  lemma {:induction false} GlobMatches(seg: string, s: string, i: int, j: int)
    requires 0 <= i <= j <= |s| && '.' !in seg
    ensures Matches(GlobRe(seg), s, i, j) <==> NoDot(s, i, j) && Glob(seg, s[i..j])
    decreases |seg|
  {
    if seg != "" {
      var tail := GlobRe(seg[1..]);
      forall k | i <= k <= j ensures Matches(tail, s, k, j) <==> NoDot(s, k, j) && Glob(seg[1..], s[k..j]) {
        GlobMatches(seg[1..], s, k, j);
      }
      assert seg == [seg[0]] + seg[1..];
      assert GlobRe(seg) == Then(CharRe(seg[0]), tail);
      if seg[0] == '*' {
        StarThenMatches(seg[1..], tail, s, i, j);
      } else {
        OneThenMatches(seg[0], seg[1..], tail, s, i, j);
      }
    }
  }

  /** A segment other than `**` matches dot-free stretches only. */
  lemma SegmentReMatches(seg: string, s: string, i: int, j: int)
    requires 0 <= i <= j <= |s| && '.' !in seg && seg != "**"
    ensures Matches(SegmentRe(seg), s, i, j) <==> NoDot(s, i, j) && SegmentMatches(seg, s[i..j])
  {
    if seg == "*" {
      PlusNotDot(s, i, j);
      assert Matches(Empty, s, j, j);
    } else {
      GlobMatches(seg, s, i, j);
    }
  }

  lemma SegmentAndDotMatches(s: string, i: int, j: int)
    requires 0 <= i <= j <= |s|
    ensures Matches(SegmentAndDot, s, i, j) <==> i < j - 1 && NoDot(s, i, j - 1) && s[j - 1] == '.'
  {
    var dot := Then(Char('.'), Empty);
    forall k | i <= k <= j ensures Matches(dot, s, k, j) <==> k == j - 1 && s[k] == '.' {
      if k == j - 1 {
        assert Matches(Empty, s, j, j);
      }
    }
    if i < j {
      PlusNotDot(s, i, j - 1);
    }
  }

  lemma SplitAtDot(s: string, i: int, d: int, j: int)
    requires 0 <= i <= d < j <= |s| && s[d] == '.'
    ensures SplitOn(s[i..j], '.') == SplitOn(s[i..d], '.') + SplitOn(s[d + 1..j], '.')
  {
    assert s[i..j] == s[i..d] + ['.'] + s[d + 1..j];
    SplitConcat(s[i..d], '.', s[d + 1..j]);
  }

  lemma SplitDotFree(s: string, i: int, j: int)
    requires 0 <= i <= j <= |s| && NoDot(s, i, j)
    ensures SplitOn(s[i..j], '.') == [s[i..j]]
  {
    SplitWhole(s[i..j], '.');
  }

  lemma {:induction false} FirstDot(s: string, i: int, j: int) returns (d: int)
    requires 0 <= i <= j <= |s| && !NoDot(s, i, j)
    ensures i <= d < j && s[d] == '.' && NoDot(s, i, d)
    decreases j - i
  {
    if s[i] == '.' {
      d := i;
    } else {
      d := FirstDot(s, i + 1, j);
    }
  }

  ghost predicate ManyStep(body: Re, s: string, i: int, m: int, j: int)
    requires 0 <= i <= j <= |s|
  {
    i < m <= j && Matches(body, s, i, m) && MatchesMany(body, s, m, j)
  }

  lemma ManyCut(body: Re, s: string, i: int, j: int) returns (m: int)
    requires 0 <= i < j <= |s| && MatchesMany(body, s, i, j)
    ensures ManyStep(body, s, i, m, j)
  {
    m :| i < m <= j && Matches(body, s, i, m) && MatchesMany(body, s, m, j);
  }

  lemma ManyJoin(body: Re, s: string, i: int, m: int, j: int)
    requires 0 <= i <= j <= |s| && ManyStep(body, s, i, m, j)
    ensures MatchesMany(body, s, i, j)
  {
  }

  /** `body` matches one non-empty segment and the dot behind it. */
  ghost predicate IsSegmentAndDot(body: Re, s: string) {
    forall i, j | 0 <= i <= j <= |s| ::
      Matches(body, s, i, j) <==> i < j - 1 && NoDot(s, i, j - 1) && s[j - 1] == '.'
  }

  lemma {:induction false} AnyDepthSound(body: Re, s: string, i: int, k: int, j: int)
    requires 0 <= i <= k < j <= |s| && IsSegmentAndDot(body, s)
    requires MatchesMany(body, s, i, k) && NoDot(s, k, j)
    ensures NonEmpty(SplitOn(s[i..j], '.'))
    decreases k - i
  {
    if i == k {
      SplitDotFree(s, i, j);
    } else {
      var m := ManyCut(body, s, i, k);
      AnyDepthSound(body, s, m, k, j);
      SplitDotFree(s, i, m - 1);
      SplitAtDot(s, i, m - 1, j);
    }
  }

  lemma NonEmptyParts(first: string, rest: seq<string>)
    requires NonEmpty([first] + rest)
    ensures first != "" && NonEmpty(rest)
  {
    assert ([first] + rest)[0] == first;
    assert forall n | 0 <= n < |rest| :: rest[n] == ([first] + rest)[n + 1];
  }

  lemma OneMoreSegment(body: Re, s: string, i: int, d: int, k: int)
    requires 0 <= i < d < k <= |s| && IsSegmentAndDot(body, s)
    requires NoDot(s, i, d) && s[d] == '.' && MatchesMany(body, s, d + 1, k)
    ensures MatchesMany(body, s, i, k)
  {
    assert Matches(body, s, i, d + 1);
    assert ManyStep(body, s, i, d + 1, k);
    ManyJoin(body, s, i, d + 1, k);
  }

  lemma {:induction false} AnyDepthComplete(body: Re, s: string, i: int, j: int) returns (k: int)
    requires 0 <= i <= j <= |s| && IsSegmentAndDot(body, s)
    requires NonEmpty(SplitOn(s[i..j], '.'))
    ensures i <= k < j && MatchesMany(body, s, i, k) && NoDot(s, k, j)
    decreases j - i
  {
    if NoDot(s, i, j) {
      SplitDotFree(s, i, j);
      assert SplitOn(s[i..j], '.')[0] != "";
      k := i;
    } else {
      var d := FirstDot(s, i, j);
      SplitDotFree(s, i, d);
      SplitAtDot(s, i, d, j);
      NonEmptyParts(s[i..d], SplitOn(s[d + 1..j], '.'));
      k := AnyDepthComplete(body, s, d + 1, j);
      OneMoreSegment(body, s, i, d, k);
    }
  }

  lemma StarPlusCut(body: Re, s: string, i: int, k: int, j: int)
    requires 0 <= i <= j <= |s|
    ensures Cut(Star(body), Then(Plus(NotDot), Empty), s, i, k, j)
       <==> i <= k < j && MatchesMany(body, s, i, k) && NoDot(s, k, j)
  {
    if i <= k <= j {
      PlusNotDot(s, k, j);
      assert Cut(Plus(NotDot), Empty, s, k, j, j) <==> Matches(Plus(NotDot), s, k, j);
      ThenMatches(Plus(NotDot), Empty, s, k, j);
    }
  }

  /** `**` matches exactly the stretches all of whose segments are non-empty. */
  lemma AnyDepthMatches(s: string, i: int, j: int)
    requires 0 <= i <= j <= |s|
    ensures Matches(SegmentRe("**"), s, i, j) <==> NonEmpty(SplitOn(s[i..j], '.'))
  {
    var last := Then(Plus(NotDot), Empty);
    forall a, b | 0 <= a <= b <= |s|
      ensures Matches(SegmentAndDot, s, a, b) <==> a < b - 1 && NoDot(s, a, b - 1) && s[b - 1] == '.'
    {
      SegmentAndDotMatches(s, a, b);
    }
    ThenMatches(Star(SegmentAndDot), last, s, i, j);
    if k :| Cut(Star(SegmentAndDot), last, s, i, k, j) {
      StarPlusCut(SegmentAndDot, s, i, k, j);
      AnyDepthSound(SegmentAndDot, s, i, k, j);
    }
    if NonEmpty(SplitOn(s[i..j], '.')) {
      var k := AnyDepthComplete(SegmentAndDot, s, i, j);
      StarPlusCut(SegmentAndDot, s, i, k, j);
    }
  }

  /** `first`, a dot at `k`, and `rest` up to the end of the text. */
  ghost predicate DotCut(first: Re, rest: Re, s: string, i: int, k: int)
    requires 0 <= i <= |s|
  {
    i <= k < |s| && s[k] == '.' && Matches(first, s, i, k) && Matches(rest, s, k + 1, |s|)
  }

  ghost predicate HasDotCut(first: Re, rest: Re, s: string, i: int)
    requires 0 <= i <= |s|
  {
    exists k :: DotCut(first, rest, s, i, k)
  }

  lemma DotThen(re: Re, s: string, i: int, j: int)
    requires 0 <= i <= j <= |s|
    ensures Matches(Then(Char('.'), re), s, i, j) <==> i < j && s[i] == '.' && Matches(re, s, i + 1, j)
  {
    ThenMatches(Char('.'), re, s, i, j);
    if i < j && s[i] == '.' && Matches(re, s, i + 1, j) {
      assert Cut(Char('.'), re, s, i, i + 1, j);
    }
  }

  lemma DotAppendMatches(first: Re, rest: Re, s: string, i: int)
    requires 0 <= i <= |s| && IsList(first)
    ensures Matches(Append(first, Then(Char('.'), rest)), s, i, |s|) <==> HasDotCut(first, rest, s, i)
  {
    var tail := Then(Char('.'), rest);
    AppendMatches(first, tail, s, i, |s|);
    forall k ensures Cut(first, tail, s, i, k, |s|) <==> DotCut(first, rest, s, i, k) {
      if i <= k <= |s| {
        DotThen(rest, s, k, |s|);
      }
    }
    if k :| Cut(first, tail, s, i, k, |s|) {
      assert DotCut(first, rest, s, i, k);
    }
    if k :| DotCut(first, rest, s, i, k) {
      assert Cut(first, tail, s, i, k, |s|);
    }
  }

  /** `rest` matches the suffixes of the text that `patterns` accepts. */
  ghost predicate Accepts(rest: Re, patterns: seq<string>, s: string) {
    forall k | 0 <= k <= |s| :: Matches(rest, s, k, |s|) <==> SegmentsMatch(patterns, SplitOn(s[k..], '.'))
  }

  lemma SplitFirst(s: string, i: int, d: int)
    requires 0 <= i <= d < |s| && s[d] == '.' && NoDot(s, i, d)
    ensures SplitOn(s[i..], '.') == [s[i..d]] + SplitOn(s[d + 1..], '.')
  {
    SplitDotFree(s, i, d);
    SplitAtDot(s, i, d, |s|);
    assert s[i..|s|] == s[i..] && s[d + 1..|s|] == s[d + 1..];
  }

  lemma NoSegments(patterns: seq<string>)
    requires patterns != []
    ensures !SegmentsMatch(patterns, [])
  {
  }

  lemma CutAtFirstDot(first: Re, rest: Re, s: string, i: int, d: int)
    requires 0 <= i <= d < |s| && s[d] == '.' && NoDot(s, i, d)
    requires forall k | i <= k <= |s| :: Matches(first, s, i, k) ==> NoDot(s, i, k)
    ensures HasDotCut(first, rest, s, i) <==> DotCut(first, rest, s, i, d)
  {
    if k :| DotCut(first, rest, s, i, k) {
      assert NoDot(s, i, k);
    }
  }

  /** `first` takes what pattern `p` accepts of a segment. */
  ghost predicate TakesSegment(first: Re, p: string, s: string, i: int)
    requires 0 <= i <= |s|
  {
    forall k | i <= k <= |s| :: Matches(first, s, i, k) <==> NoDot(s, i, k) && SegmentMatches(p, s[i..k])
  }

  lemma NoDotNoCut(p: string, patterns: seq<string>, first: Re, rest: Re, s: string, i: int)
    requires 0 <= i <= |s| && patterns != [] && NoDot(s, i, |s|)
    ensures !HasDotCut(first, rest, s, i)
    ensures !SegmentsMatch(patterns, SplitOn(s[i..], '.')[1..])
  {
    SplitDotFree(s, i, |s|);
    assert s[i..|s|] == s[i..];
    assert SplitOn(s[i..], '.')[1..] == [];
    NoSegments(patterns);
  }

  lemma CutTakesSegment(p: string, patterns: seq<string>, first: Re, rest: Re, s: string, i: int, d: int)
    requires 0 <= i <= d < |s| && s[d] == '.' && NoDot(s, i, d)
    requires TakesSegment(first, p, s, i) && Accepts(rest, patterns, s)
    ensures DotCut(first, rest, s, i, d)
       <==> SegmentMatches(p, s[i..d]) && SegmentsMatch(patterns, SplitOn(s[d + 1..], '.'))
  {
  }

  /** One segment pattern in front of more patterns: it ends at the first dot. */
  lemma LeadingSegment(p: string, patterns: seq<string>, first: Re, rest: Re, s: string, i: int)
    requires 0 <= i <= |s| && p != "**" && patterns != []
    requires TakesSegment(first, p, s, i) && Accepts(rest, patterns, s)
    ensures HasDotCut(first, rest, s, i)
       <==> SegmentMatches(p, SplitOn(s[i..], '.')[0]) && SegmentsMatch(patterns, SplitOn(s[i..], '.')[1..])
  {
    if NoDot(s, i, |s|) {
      NoDotNoCut(p, patterns, first, rest, s, i);
    } else {
      var d := FirstDot(s, i, |s|);
      SplitFirst(s, i, d);
      CutAtFirstDot(first, rest, s, i, d);
      CutTakesSegment(p, patterns, first, rest, s, i, d);
    }
  }

  ghost predicate DeepCut(patterns: seq<string>, segments: seq<string>, n: int) {
    1 <= n <= |segments| && NonEmpty(segments[..n]) && SegmentsMatch(patterns, segments[n..])
  }

  ghost predicate HasDeepCut(patterns: seq<string>, segments: seq<string>) {
    exists n :: DeepCut(patterns, segments, n)
  }

  /** `first` takes what `**` accepts. */
  ghost predicate TakesAnyDepth(first: Re, s: string, i: int)
    requires 0 <= i <= |s|
  {
    forall k | i <= k <= |s| :: Matches(first, s, i, k) <==> NonEmpty(SplitOn(s[i..k], '.'))
  }

  lemma DotCutIsDeep(patterns: seq<string>, first: Re, rest: Re, s: string, i: int, k: int)
    requires 0 <= i <= |s| && TakesAnyDepth(first, s, i) && Accepts(rest, patterns, s)
    requires DotCut(first, rest, s, i, k)
    ensures DeepCut(patterns, SplitOn(s[i..], '.'), |SplitOn(s[i..k], '.')|)
  {
    var names, n := SplitOn(s[i..], '.'), |SplitOn(s[i..k], '.')|;
    SplitAtDot(s, i, k, |s|);
    assert s[i..|s|] == s[i..] && s[k + 1..|s|] == s[k + 1..];
    assert names[..n] == SplitOn(s[i..k], '.') && names[n..] == SplitOn(s[k + 1..], '.');
  }

  lemma DeepCutInside(patterns: seq<string>, names: seq<string>, n: int)
    requires patterns != [] && DeepCut(patterns, names, n)
    ensures 1 <= n < |names| && NonEmpty(names[..n]) && SegmentsMatch(patterns, names[n..])
  {
    assert names[|names|..] == [];
    NoSegments(patterns);
  }

  lemma DotCutAt(patterns: seq<string>, first: Re, rest: Re, s: string, i: int, k: int)
    requires 0 <= i <= k < |s| && s[k] == '.'
    requires TakesAnyDepth(first, s, i) && Accepts(rest, patterns, s)
    requires NonEmpty(SplitOn(s[i..k], '.')) && SegmentsMatch(patterns, SplitOn(s[k + 1..], '.'))
    ensures DotCut(first, rest, s, i, k)
  {
  }

  lemma DeepCutIsDot(patterns: seq<string>, first: Re, rest: Re, s: string, i: int, n: int) returns (k: int)
    requires 0 <= i <= |s| && patterns != [] && TakesAnyDepth(first, s, i) && Accepts(rest, patterns, s)
    requires DeepCut(patterns, SplitOn(s[i..], '.'), n)
    ensures DotCut(first, rest, s, i, k)
  {
    DeepCutInside(patterns, SplitOn(s[i..], '.'), n);
    var c := SplitCut(s[i..], '.', n);
    k := i + c;
    assert s[i..][..c] == s[i..k] && s[i..][c + 1..] == s[k + 1..];
    DotCutAt(patterns, first, rest, s, i, k);
  }

  /** `**` in front of more patterns: the cuts of the segment list are the dots
      of the text. */
  lemma LeadingAnyDepth(patterns: seq<string>, first: Re, rest: Re, s: string, i: int)
    requires 0 <= i <= |s| && patterns != []
    requires TakesAnyDepth(first, s, i) && Accepts(rest, patterns, s)
    ensures HasDotCut(first, rest, s, i) <==> HasDeepCut(patterns, SplitOn(s[i..], '.'))
  {
    if k :| DotCut(first, rest, s, i, k) {
      DotCutIsDeep(patterns, first, rest, s, i, k);
      assert DeepCut(patterns, SplitOn(s[i..], '.'), |SplitOn(s[i..k], '.')|);
    }
    if n :| DeepCut(patterns, SplitOn(s[i..], '.'), n) {
      var k := DeepCutIsDot(patterns, first, rest, s, i, n);
      assert DotCut(first, rest, s, i, k);
    }
  }

  lemma DeepCutIsMatch(patterns: seq<string>, segments: seq<string>)
    ensures SegmentsMatch(["**"] + patterns, segments) <==> HasDeepCut(patterns, segments)
  {
    assert (["**"] + patterns)[1..] == patterns;
    if n :| DeepCut(patterns, segments, n) {
      assert NonEmpty(segments[..n]) && SegmentsMatch(patterns, segments[n..]);
    }
    if SegmentsMatch(["**"] + patterns, segments) {
      var n := DeepCutOf(["**"] + patterns, segments);
    }
  }

  lemma DeepCutOf(patterns: seq<string>, segments: seq<string>) returns (n: int)
    requires patterns != [] && patterns[0] == "**" && SegmentsMatch(patterns, segments)
    ensures DeepCut(patterns[1..], segments, n)
  {
    n :| 1 <= n <= |segments| && NonEmpty(segments[..n]) && SegmentsMatch(patterns[1..], segments[n..]);
  }

  /** The last pattern takes the whole rest of the text. */
  lemma LastPattern(p: string, s: string, i: int)
    requires 0 <= i <= |s| && '.' !in p
    ensures Matches(SegmentRe(p), s, i, |s|) <==> SegmentsMatch([p], SplitOn(s[i..], '.'))
  {
    var names := SplitOn(s[i..], '.');
    assert s[i..|s|] == s[i..];
    assert [p][1..] == [];
    if p == "**" {
      AnyDepthMatches(s, i, |s|);
      DeepCutIsMatch([], names);
      assert ["**"] + [] == [p];
      assert names[..|names|] == names;
      assert NonEmpty(names) <==> DeepCut([], names, |names|);
      assert forall n :: DeepCut([], names, n) ==> n == |names|;
    } else {
      SegmentReMatches(p, s, i, |s|);
      if NoDot(s, i, |s|) {
        SplitDotFree(s, i, |s|);
      } else {
        var d := FirstDot(s, i, |s|);
        SplitAtDot(s, i, d, |s|);
      }
    }
  }

  lemma AnyDepthTakes(s: string, i: int)
    requires 0 <= i <= |s|
    ensures TakesAnyDepth(SegmentRe("**"), s, i)
  {
    forall k | i <= k <= |s| ensures Matches(SegmentRe("**"), s, i, k) <==> NonEmpty(SplitOn(s[i..k], '.')) {
      AnyDepthMatches(s, i, k);
    }
  }

  lemma DeepPatternMatches(patterns: seq<string>, first: Re, rest: Re, s: string, i: int)
    requires 0 <= i <= |s| && patterns != [] && TakesAnyDepth(first, s, i) && Accepts(rest, patterns, s)
    ensures HasDotCut(first, rest, s, i) <==> SegmentsMatch(["**"] + patterns, SplitOn(s[i..], '.'))
  {
    LeadingAnyDepth(patterns, first, rest, s, i);
    DeepCutIsMatch(patterns, SplitOn(s[i..], '.'));
  }

  lemma SegmentTakes(p: string, s: string, i: int)
    requires 0 <= i <= |s| && p != "**" && '.' !in p
    ensures TakesSegment(SegmentRe(p), p, s, i)
  {
    forall k | i <= k <= |s| ensures Matches(SegmentRe(p), s, i, k) <==> NoDot(s, i, k) && SegmentMatches(p, s[i..k]) {
      SegmentReMatches(p, s, i, k);
    }
  }

  lemma SegmentFirst(p: string, patterns: seq<string>, names: seq<string>)
    requires p != "**" && names != []
    ensures SegmentsMatch([p] + patterns, names) <==> SegmentMatches(p, names[0]) && SegmentsMatch(patterns, names[1..])
  {
    assert ([p] + patterns)[1..] == patterns;
  }

  lemma SegmentPatternMatches(p: string, patterns: seq<string>, first: Re, rest: Re, s: string, i: int)
    requires 0 <= i <= |s| && p != "**" && patterns != []
    requires TakesSegment(first, p, s, i) && Accepts(rest, patterns, s)
    ensures HasDotCut(first, rest, s, i) <==> SegmentsMatch([p] + patterns, SplitOn(s[i..], '.'))
  {
    LeadingSegment(p, patterns, first, rest, s, i);
    SegmentFirst(p, patterns, SplitOn(s[i..], '.'));
  }

  lemma FirstPatternMatches(p: string, patterns: seq<string>, s: string, i: int)
    requires 0 <= i <= |s| && patterns != [] && '.' !in p && Accepts(PatternRe(patterns), patterns, s)
    ensures HasDotCut(SegmentRe(p), PatternRe(patterns), s, i) <==> SegmentsMatch([p] + patterns, SplitOn(s[i..], '.'))
  {
    var first, rest := SegmentRe(p), PatternRe(patterns);
    if p == "**" {
      AnyDepthTakes(s, i);
      assert [p] + patterns == ["**"] + patterns;
      DeepPatternMatches(patterns, first, rest, s, i);
    } else {
      SegmentTakes(p, s, i);
      SegmentPatternMatches(p, patterns, first, rest, s, i);
    }
  }

  lemma {:induction false} PatternMatches(segs: seq<string>, s: string, i: int)
    requires 0 <= i <= |s| && segs != []
    requires forall k | 0 <= k < |segs| :: '.' !in segs[k]
    ensures Matches(PatternRe(segs), s, i, |s|) <==> SegmentsMatch(segs, SplitOn(s[i..], '.'))
    decreases |segs|
  {
    if |segs| == 1 {
      LastPattern(segs[0], s, i);
      assert segs == [segs[0]];
    } else {
      var p, patterns := segs[0], segs[1..];
      assert segs == [p] + patterns;
      var rest := PatternRe(patterns);
      forall k | 0 <= k <= |s| ensures Matches(rest, s, k, |s|) <==> SegmentsMatch(patterns, SplitOn(s[k..], '.')) {
        PatternMatches(patterns, s, k);
      }
      assert Accepts(rest, patterns, s);
      DotAppendMatches(SegmentRe(p), rest, s, i);
      FirstPatternMatches(p, patterns, s, i);
    }
  }

  lemma AnchoredFinds(re: Re, s: string)
    ensures Finds(Then(Begin, Then(re, Then(End, Empty))), s) <==> Matches(re, s, 0, |s|)
  {
    var tail := Then(End, Empty);
    var mid := Then(re, tail);
    forall k, j | 0 <= k <= j <= |s| ensures Matches(tail, s, k, j) <==> k == j == |s| {
      ThenMatches(End, Empty, s, k, j);
      if k == j == |s| {
        assert Cut(End, Empty, s, k, k, j);
      }
    }
    if Matches(re, s, 0, |s|) {
      assert Cut(re, tail, s, 0, |s|, |s|);
      ThenMatches(re, tail, s, 0, |s|);
      assert Cut(Begin, mid, s, 0, 0, |s|);
      ThenMatches(Begin, mid, s, 0, |s|);
      assert Matches(Then(Begin, mid), s, 0, |s|);
    }
    if Finds(Then(Begin, mid), s) {
      var i, j :| 0 <= i <= j <= |s| && Matches(Then(Begin, mid), s, i, j);
      var k := ThenCut(Begin, mid, s, i, j);
      var m := ThenCut(re, tail, s, k, j);
    }
  }

  /** For every pattern and every name: searching the name with the generated
      regular expression succeeds exactly when the name is in the pattern's
      segment language. */
  lemma {:induction false} CompiledPointcutIsSegmentLanguage(pattern: string, name: string)
    ensures ParseRegex(PatternSource(pattern)).Some?
    ensures IsMatch(pattern, name) <==> SegmentsMatch(SplitOn(pattern, '.'), SplitOn(name, '.'))
  {
    PatternParses(pattern);
    AnchoredFinds(PatternRe(SplitOn(pattern, '.')), name);
    PatternMatches(SplitOn(pattern, '.'), name, 0);
    assert name[0..] == name;
  }

  /** `is_match` for callers that run: decides the search of the compiled
      expression by the segment language. */
  method DecideMatch(pattern: string, name: string) returns (matched: bool)
    ensures ParseRegex(PatternSource(pattern)).Some?
    ensures matched <==> IsMatch(pattern, name)
  {
    CompiledPointcutIsSegmentLanguage(pattern, name);
    matched := SegmentsMatch(SplitOn(pattern, '.'), SplitOn(name, '.'));
  }
}
