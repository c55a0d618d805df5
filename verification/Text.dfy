/** Small vocabulary shared by the component models: optional values, bytes, and
    the `split` / `join` pair of the Rust string library with the laws that
    relate them. */
module Text {

  datatype Option<+T> = None | Some(value: T)

  type Bytes = seq<bv8>

  predicate StartsWith(key: string, prefix: string) {
    prefix <= key
  }

  /** The keys of a map that start with a prefix. */
  function PrefixKeys<V>(m: map<string, V>, prefix: string): set<string> {
    set k | k in m && StartsWith(k, prefix)
  }

  lemma Regroup(a: string, b: string, c: string, d: string)
    ensures a + (b + c + d) == a + b + c + d
  {
  }

  /** `str::split(sep)`: the pieces of `s` between separators. The empty string
      has one (empty) piece. */
  function SplitOn(s: string, sep: char): (parts: seq<string>)
    ensures |parts| >= 1
    ensures forall i | 0 <= i < |parts| :: sep !in parts[i]
  {
    if s == "" then [""]
    else
      var rest := SplitOn(s[1..], sep);
      if s[0] == sep then [""] + rest else [[s[0]] + rest[0]] + rest[1..]
  }

  /** `[String]::join(sep)`. */
  function JoinWith(parts: seq<string>, sep: string): string {
    if parts == [] then ""
    else if |parts| == 1 then parts[0]
    else parts[0] + sep + JoinWith(parts[1..], sep)
  }

  /** A string without the separator is its own only piece. */
  lemma {:induction false} SplitWhole(s: string, sep: char)
    requires sep !in s
    ensures SplitOn(s, sep) == [s]
  {
    if s != "" {
      SplitWhole(s[1..], sep);
      assert [s[0]] + s[1..] == s;
    }
  }

  /** Splitting distributes over a separator, wherever the separator stands. */
  lemma {:induction false} SplitConcat(a: string, sep: char, b: string)
    ensures SplitOn(a + [sep] + b, sep) == SplitOn(a, sep) + SplitOn(b, sep)
  {
    if a == "" {
      assert (a + [sep] + b)[1..] == b;
    } else {
      assert (a + [sep] + b)[1..] == a[1..] + [sep] + b;
      SplitConcat(a[1..], sep, b);
    }
  }

  /** Every cut of the list of pieces is a separator in the text. */
  lemma {:induction false} SplitCut(s: string, sep: char, n: nat) returns (k: nat)
    requires 1 <= n < |SplitOn(s, sep)|
    ensures k < |s| && s[k] == sep
    ensures SplitOn(s[..k], sep) == SplitOn(s, sep)[..n]
    ensures SplitOn(s[k + 1..], sep) == SplitOn(s, sep)[n..]
  {
    var parts := SplitOn(s, sep);
    assert s != "";
    var rest := SplitOn(s[1..], sep);
    if s[0] == sep && n == 1 {
      k := 0;
      assert parts[1..] == rest;
    } else {
      var m := SplitCut(s[1..], sep, if s[0] == sep then n - 1 else n);
      k := m + 1;
      assert s[..k][1..] == s[1..][..m];
      assert s[k + 1..] == s[1..][m + 1..];
      CutOfPieces(rest, n, s[0]);
    }
  }

  lemma CutOfPieces(rest: seq<string>, n: nat, c: char)
    requires 1 <= n <= |rest|
    ensures ([""] + rest)[..n] == [""] + rest[..n - 1] && ([""] + rest)[n..] == rest[n - 1..]
    ensures var parts := [[c] + rest[0]] + rest[1..];
            parts[..n] == [[c] + rest[..n][0]] + rest[..n][1..] && parts[n..] == rest[n..]
  {
  }

  /** Splitting undoes joining separator-free pieces. */
  lemma {:induction false} SplitJoin(parts: seq<string>, sep: char)
    requires |parts| >= 1
    requires forall i | 0 <= i < |parts| :: sep !in parts[i]
    ensures SplitOn(JoinWith(parts, [sep]), sep) == parts
  {
    SplitWhole(parts[0], sep);
    if |parts| > 1 {
      SplitJoin(parts[1..], sep);
      SplitConcat(parts[0], sep, JoinWith(parts[1..], [sep]));
    }
  }

  lemma {:induction false} JoinSplit(s: string, sep: char)
    ensures JoinWith(SplitOn(s, sep), [sep]) == s
  {
    if s != "" {
      JoinSplit(s[1..], sep);
      var rest := SplitOn(s[1..], sep);
      if s[0] == sep {
        assert ([""] + rest)[1..] == rest;
        assert "" + [sep] + JoinWith(rest, [sep]) == s;
      } else {
        var parts := [[s[0]] + rest[0]] + rest[1..];
        assert parts[1..] == rest[1..];
        assert JoinWith(parts, [sep]) == [s[0]] + JoinWith(rest, [sep]);
      }
    }
  }

  // ---------------------------------------------------------------------
  // Trimming, case, searching
  // ---------------------------------------------------------------------

  /** The characters with the Unicode property White_Space. */
  predicate IsWhitespace(c: char) {
    || '\U{0009}' <= c <= '\U{000D}'
    || c == ' ' || c == '\U{0085}' || c == '\U{00A0}' || c == '\U{1680}'
    || '\U{2000}' <= c <= '\U{200A}'
    || c == '\U{2028}' || c == '\U{2029}' || c == '\U{202F}' || c == '\U{205F}' || c == '\U{3000}'
  }

  function TrimStart(s: string): string {
    if s != "" && IsWhitespace(s[0]) then TrimStart(s[1..]) else s
  }

  function TrimEnd(s: string): string {
    if s != "" && IsWhitespace(s[|s| - 1]) then TrimEnd(s[..|s| - 1]) else s
  }

  function Trim(s: string): string {
    TrimEnd(TrimStart(s))
  }

  /** No blank at either end. */
  predicate IsTrimmed(s: string) {
    s == "" || (!IsWhitespace(s[0]) && !IsWhitespace(s[|s| - 1]))
  }

  lemma {:induction false} TrimStartFacts(s: string)
    ensures TrimStart(s) == "" || !IsWhitespace(TrimStart(s)[0])
    ensures |TrimStart(s)| <= |s| && TrimStart(s) == s[|s| - |TrimStart(s)|..]
  {
    if s != "" && IsWhitespace(s[0]) {
      TrimStartFacts(s[1..]);
    }
  }

  lemma {:induction false} TrimEndFacts(s: string)
    ensures TrimEnd(s) == "" || !IsWhitespace(TrimEnd(s)[|TrimEnd(s)| - 1])
    ensures TrimEnd(s) <= s
  {
    if s != "" && IsWhitespace(s[|s| - 1]) {
      TrimEndFacts(s[..|s| - 1]);
    }
  }

  /** Trimming leaves no outer blank, and only takes characters of the text. */
  lemma TrimIsTrimmed(s: string)
    ensures IsTrimmed(Trim(s))
    ensures forall c :: c in Trim(s) ==> c in s
  {
    TrimStartFacts(s);
    TrimEndFacts(TrimStart(s));
  }

  lemma TrimTrimmed(s: string)
    requires IsTrimmed(s)
    ensures Trim(s) == s
  {
  }

  lemma {:induction false} TrimStartTakes(s: string)
    ensures |TrimStart(s)| <= |s| && s == s[..|s| - |TrimStart(s)|] + TrimStart(s)
    ensures forall i | 0 <= i < |s| - |TrimStart(s)| :: IsWhitespace(s[i])
  {
    if s != "" && IsWhitespace(s[0]) {
      TrimStartTakes(s[1..]);
      assert forall i | 0 < i < |s| :: s[i] == s[1..][i - 1];
    }
  }

  lemma {:induction false} TrimEndTakes(s: string)
    ensures TrimEnd(s) <= s && forall i | |TrimEnd(s)| <= i < |s| :: IsWhitespace(s[i])
  {
    if s != "" && IsWhitespace(s[|s| - 1]) {
      TrimEndTakes(s[..|s| - 1]);
    }
  }

  predicate Blank(s: string) {
    forall i | 0 <= i < |s| :: IsWhitespace(s[i])
  }

  /** Trimming takes blanks from both ends, all of them and nothing else. */
  lemma TrimTakes(s: string) returns (a: string, b: string)
    ensures s == a + Trim(s) + b && Blank(a) && Blank(b) && IsTrimmed(Trim(s))
  {
    TrimIsTrimmed(s);
    a := StartTaken(s);
    b := EndTaken(TrimStart(s));
    assert a + (Trim(s) + b) == a + Trim(s) + b;
  }

  lemma StartTaken(s: string) returns (a: string)
    ensures s == a + TrimStart(s) && Blank(a)
  {
    TrimStartTakes(s);
    a := s[..|s| - |TrimStart(s)|];
  }

  lemma EndTaken(s: string) returns (b: string)
    ensures s == TrimEnd(s) + b && Blank(b)
  {
    TrimEndTakes(s);
    var n := |TrimEnd(s)|;
    b := s[n..];
    assert forall i | 0 <= i < |b| :: b[i] == s[n + i];
  }

  /** The blanks, one by one. */
  lemma WhitespaceIs(c: char)
    ensures IsWhitespace(c) <==>
              c in {'\t', '\n', '\U{000B}', '\U{000C}', '\r', ' ', '\U{0085}', '\U{00A0}', '\U{1680}',
                    '\U{2000}', '\U{2001}', '\U{2002}', '\U{2003}', '\U{2004}', '\U{2005}', '\U{2006}', '\U{2007}',
                    '\U{2008}', '\U{2009}', '\U{200A}', '\U{2028}', '\U{2029}', '\U{202F}', '\U{205F}', '\U{3000}'}
  {
  }

  predicate IsLower(c: char) {
    'a' <= c <= 'z'
  }

  predicate IsUpper(c: char) {
    'A' <= c <= 'Z'
  }

  predicate IsDigit(c: char) {
    '0' <= c <= '9'
  }

  function LowerChar(c: char): char {
    if IsUpper(c) then c - 'A' + 'a' else c
  }

  function UpperChar(c: char): char {
    if IsLower(c) then c - 'a' + 'A' else c
  }

  function Lower(s: string): (r: string)
    ensures |r| == |s| && forall i | 0 <= i < |s| :: r[i] == LowerChar(s[i])
  {
    if s == "" then "" else [LowerChar(s[0])] + Lower(s[1..])
  }

  function Upper(s: string): (r: string)
    ensures |r| == |s| && forall i | 0 <= i < |s| :: r[i] == UpperChar(s[i])
  {
    if s == "" then "" else [UpperChar(s[0])] + Upper(s[1..])
  }

  const SMALL := "abcdefghijklmnopqrstuvwxyz"
  const CAPITAL := "ABCDEFGHIJKLMNOPQRSTUVWXYZ"

  /** The alphabet, letter by letter, and what raising and lowering do to it; other
      characters stay. */
  lemma Alphabet(i: nat, c: char)
    requires i < 26
    ensures UpperChar(SMALL[i]) == CAPITAL[i] && LowerChar(CAPITAL[i]) == SMALL[i]
    ensures IsLower(SMALL[i]) && IsUpper(CAPITAL[i])
    ensures (c < 'a' || 'z' < c ==> !IsLower(c) && UpperChar(c) == c) && (c < 'A' || 'Z' < c ==> !IsUpper(c) && LowerChar(c) == c)
    ensures IsDigit(c) <==> c in {'0', '1', '2', '3', '4', '5', '6', '7', '8', '9'}
  {
    assert SMALL[i] == 'a' + (i as char) && CAPITAL[i] == 'A' + (i as char);
  }

  /** `str::split_once`: around the first occurrence of `pat`. */
  function SplitOnce(s: string, pat: string): Option<(string, string)> {
    if pat <= s then Some(("", s[|pat|..]))
    else if s == "" then None
    else
      match SplitOnce(s[1..], pat)
      case None => None
      case Some((before, after)) => Some(([s[0]] + before, after))
  }

  /** The text before the first character in `stops`. */
  function Until(s: string, stops: set<char>): string {
    if s == "" || s[0] in stops then "" else [s[0]] + Until(s[1..], stops)
  }

  /** The text behind the last `c`, the whole text when there is none. */
  function AfterLast(s: string, c: char): string {
    if s == "" then ""
    else if c in s[1..] then AfterLast(s[1..], c)
    else if s[0] == c then s[1..]
    else s
  }
}
