/** Name-case derivation: splitting an identifier of any style into lower-case
    words, and joining the words again in each style. */
module Naming {
  import opened Text

  // ---------------------------------------------------------------------
  // Splitting
  // ---------------------------------------------------------------------

  predicate IsAlnum(c: char) {
    IsLower(c) || IsUpper(c) || IsDigit(c)
  }

  /** A word ends between `a` and `b`. */
  predicate Boundary(a: char, b: char) {
    (IsLower(a) || IsDigit(a)) && IsUpper(b)
  }

  function Spaced(raw: string): (r: string)
    ensures |r| == |raw| && forall i | 0 <= i < |raw| :: r[i] == if IsAlnum(raw[i]) then raw[i] else ' '
  {
    seq(|raw|, i requires 0 <= i < |raw| => if IsAlnum(raw[i]) then raw[i] else ' ')
  }

  function Gap(s: string, i: nat): string
    requires i < |s|
  {
    if i > 0 && Boundary(s[i - 1], s[i]) then " " else ""
  }

  function WithBoundaries(s: string): string {
    if s == "" then ""
    else
      var n := |s| - 1;
      WithBoundaries(s[..n]) + Gap(s, n) + [s[n]]
  }

  function Kept(pieces: seq<string>): seq<string> {
    if pieces == [] then []
    else
      var n := |pieces| - 1;
      Kept(pieces[..n]) + if pieces[n] == "" then [] else [pieces[n]]
  }

  function LowerAll(pieces: seq<string>): (r: seq<string>)
    ensures |r| == |pieces| && forall i | 0 <= i < |pieces| :: r[i] == Lower(pieces[i])
  {
    seq(|pieces|, i requires 0 <= i < |pieces| => Lower(pieces[i]))
  }

  /** The words before they are lowered. */
  function Cut(spaced: string): seq<string> {
    Kept(SplitOn(WithBoundaries(spaced), ' '))
  }

  function WordsOf(raw: string): seq<string> {
    LowerAll(Cut(Spaced(raw)))
  }

  method Words(raw: string) returns (words: seq<string>)
    ensures words == WordsOf(raw)
  {
    var spaced := "";
    for i := 0 to |raw|
      invariant spaced == Spaced(raw)[..i]
    {
      if IsAlnum(raw[i]) {
        spaced := spaced + [raw[i]];
      } else {
        spaced := spaced + " ";
      }
    }
    assert spaced == Spaced(raw);
    var split := "";
    for i := 0 to |spaced|
      invariant split == WithBoundaries(spaced[..i])
    {
      assert spaced[..i + 1][..i] == spaced[..i];
      if i > 0 {
        var prev := spaced[i - 1];
        if (IsLower(prev) || IsDigit(prev)) && IsUpper(spaced[i]) {
          split := split + " ";
        }
      }
      split := split + [spaced[i]];
    }
    assert spaced[..|spaced|] == spaced;
    var pieces := SplitOn(split, ' ');
    var kept := [];
    for i := 0 to |pieces|
      invariant kept == Kept(pieces[..i])
    {
      assert pieces[..i + 1][..i] == pieces[..i];
      if pieces[i] != "" {
        kept := kept + [pieces[i]];
      }
    }
    assert pieces[..|pieces|] == pieces;
    assert kept == Cut(spaced);
    words := LowerAll(kept);
  }

  lemma {:induction false} KeptConcat(a: seq<string>, b: seq<string>)
    ensures Kept(a + b) == Kept(a) + Kept(b)
  {
    if b == [] {
      assert a + b == a;
    } else {
      var n := |b| - 1;
      assert (a + b)[..|a + b| - 1] == a + b[..n];
      KeptConcat(a, b[..n]);
    }
  }

  /** What goes between two texts put side by side. */
  function Between(a: string, b: string): string {
    if a != "" && b != "" && Boundary(a[|a| - 1], b[0]) then " " else ""
  }

  lemma BoundariesSnoc(s: string, c: char)
    ensures WithBoundaries(s + [c]) == WithBoundaries(s) + Between(s, [c]) + [c]
  {
    assert (s + [c])[..|s|] == s;
  }

  lemma BetweenSnoc(a: string, front: string, c: char)
    ensures front != "" ==> Between(a, front + [c]) == Between(a, front) && Between(a + front, [c]) == Between(front, [c])
    ensures front == "" ==> Between(a, front) == "" && Between(front, [c]) == ""
  {
  }

  lemma {:induction false} BoundariesConcat(a: string, b: string)
    ensures WithBoundaries(a + b) == WithBoundaries(a) + Between(a, b) + WithBoundaries(b)
  {
    if b == "" {
      assert a + b == a;
    } else if |b| == 1 {
      assert b == "" + [b[0]];
      BoundariesSnoc(a, b[0]);
      BoundariesSnoc("", b[0]);
    } else {
      var front, c := b[..|b| - 1], b[|b| - 1];
      assert b == front + [c];
      BoundariesConcat(a, front);
      BoundariesConcatSnoc(a, front, c);
    }
  }

  lemma BoundariesConcatSnoc(a: string, front: string, c: char)
    requires front != ""
    requires WithBoundaries(a + front) == WithBoundaries(a) + Between(a, front) + WithBoundaries(front)
    ensures WithBoundaries(a + (front + [c])) == WithBoundaries(a) + Between(a, front + [c]) + WithBoundaries(front + [c])
  {
    var whole := a + front;
    assert a + (front + [c]) == whole + [c];
    BoundariesSnoc(whole, c);
    BoundariesSnoc(front, c);
    BetweenSnoc(a, front, c);
    PutTogether(WithBoundaries(a) + Between(a, front), WithBoundaries(front), Between(front, [c]), [c],
                WithBoundaries(whole), WithBoundaries(front + [c]), WithBoundaries(whole + [c]));
  }

  lemma PutTogether(x: string, f: string, h: string, c: string, xf: string, fhc: string, all: string)
    requires xf == x + f && fhc == f + h + c && all == xf + h + c
    ensures all == x + fhc
  {
    Regroup(x, f, h, c);
  }

  /** The lists of pieces put together, the two at the seam as one. */
  function Glued(p: seq<string>, q: seq<string>): seq<string>
    requires p != [] && q != []
  {
    p[..|p| - 1] + [p[|p| - 1] + q[0]] + q[1..]
  }

  lemma GluedStep(p: seq<string>, q: seq<string>, c: char)
    requires p != [] && q != []
    ensures Glued([""] + p, q) == [""] + Glued(p, q)
    ensures Glued([[c] + p[0]] + p[1..], q) == [[c] + Glued(p, q)[0]] + Glued(p, q)[1..]
  {
    assert [[c] + p[0]] + p[1..] == p[0 := [c] + p[0]];
    if |p| == 1 {
      assert [c] + p[0] + q[0] == [c] + (p[0] + q[0]);
    }
  }

  lemma SplitEmptyFront(y: string, sep: char)
    ensures Glued(SplitOn("", sep), SplitOn(y, sep)) == SplitOn(y, sep)
  {
    var q := SplitOn(y, sep);
    assert SplitOn("", sep) == [""];
    assert "" + q[0] == q[0];
    assert [q[0]] + q[1..] == q;
  }

  lemma {:induction false} SplitGlue(x: string, y: string, sep: char)
    ensures SplitOn(x + y, sep) == Glued(SplitOn(x, sep), SplitOn(y, sep))
  {
    if x == "" {
      assert x + y == y;
      SplitEmptyFront(y, sep);
    } else {
      assert (x + y)[1..] == x[1..] + y && (x + y)[0] == x[0];
      SplitGlue(x[1..], y, sep);
      GluedStep(SplitOn(x[1..], sep), SplitOn(y, sep), x[0]);
    }
  }

  lemma CutOfParts(a: string, b: string, s: string)
    requires WithBoundaries(s) == WithBoundaries(a) + [' '] + WithBoundaries(b)
    ensures Cut(s) == Cut(a) + Cut(b)
  {
    SplitConcat(WithBoundaries(a), ' ', WithBoundaries(b));
    KeptConcat(SplitOn(WithBoundaries(a), ' '), SplitOn(WithBoundaries(b), ' '));
  }

  lemma BoundariesGlue(a: string, b: string)
    requires a != "" && b != "" ==> !Boundary(a[|a| - 1], b[0])
    ensures WithBoundaries(a + b) == WithBoundaries(a) + WithBoundaries(b)
  {
    BoundariesConcat(a, b);
  }

  lemma BoundariesOfSpaced(a: string)
    ensures WithBoundaries(a + " ") == WithBoundaries(a) + " "
  {
    BoundariesSnoc(a, ' ');
    assert Between(a, [' ']) == "";
    assert [' '] == " ";
  }

  lemma BoundariesAtSpace(a: string, b: string)
    ensures WithBoundaries(a + " " + b) == WithBoundaries(a) + [' '] + WithBoundaries(b)
  {
    BoundariesGlue(a + " ", b);
    BoundariesOfSpaced(a);
  }

  lemma CutAtSpace(a: string, b: string)
    ensures Cut(a + " " + b) == Cut(a) + Cut(b)
  {
    BoundariesAtSpace(a, b);
    CutOfParts(a, b, a + " " + b);
  }

  lemma CutBlank()
    ensures Cut("") == []
  {
    assert Kept([""]) == [] by {
      assert [""][..0] == [];
    }
  }

  lemma CutAfterSpace(a: string, b: string)
    requires a != "" && a[|a| - 1] == ' '
    ensures Cut(a + b) == Cut(a) + Cut(b)
  {
    var front := a[..|a| - 1];
    assert a == front + " " + "";
    assert Cut(a) == Cut(front) by {
      CutAtSpace(front, "");
      CutBlank();
    }
    assert a + b == front + " " + b;
    CutAtSpace(front, b);
  }

  lemma CutBeforeSpace(a: string, b: string)
    requires b != "" && b[0] == ' '
    ensures Cut(a + b) == Cut(a) + Cut(b)
  {
    assert b == "" + " " + b[1..] && a + b == a + " " + b[1..];
    CutAtSpace("", b[1..]);
    CutAtSpace(a, b[1..]);
    CutBlank();
  }

  lemma CutAtBoundary(a: string, b: string)
    requires a != "" && b != "" && Boundary(a[|a| - 1], b[0])
    ensures Cut(a + b) == Cut(a) + Cut(b)
  {
    BoundariesConcat(a, b);
    CutOfParts(a, b, a + b);
  }

  lemma CutApart(a: string, b: string)
    requires a == "" || b == "" || a[|a| - 1] == ' ' || b[0] == ' ' || Boundary(a[|a| - 1], b[0])
    ensures Cut(a + b) == Cut(a) + Cut(b)
  {
    if a == "" {
      CutBlank();
      assert a + b == b;
    } else if b == "" {
      CutBlank();
      assert a + b == a;
    } else if a[|a| - 1] == ' ' {
      CutAfterSpace(a, b);
    } else if b[0] == ' ' {
      CutBeforeSpace(a, b);
    } else {
      CutAtBoundary(a, b);
    }
  }

  lemma {:induction false} FirstPiece(s: string)
    requires s != "" && s[0] != ' '
    ensures SplitOn(s, ' ')[0] != ""
  {
  }

  lemma {:induction false} LastPiece(s: string)
    requires s != "" && s[|s| - 1] != ' '
    ensures var p := SplitOn(s, ' '); p[|p| - 1] != ""
  {
    var n := |s| - 1;
    assert s == s[..n] + [s[n]];
    SplitGlue(s[..n], [s[n]], ' ');
    SplitWhole([s[n]], ' ');
  }

  lemma {:induction false} BoundariesEnds(s: string)
    requires s != ""
    ensures var w := WithBoundaries(s); w != "" && w[0] == s[0] && w[|w| - 1] == s[|s| - 1]
  {
    if |s| > 1 {
      BoundariesEnds(s[..|s| - 1]);
    }
  }

  lemma KeptOne(p: string)
    ensures Kept([p]) == if p == "" then [] else [p]
  {
    assert [p][..0] == [];
  }

  lemma GlueTexts(x: string, y: string)
    requires x != "" && y != "" && x[|x| - 1] != ' ' && y[0] != ' '
    ensures |Kept(SplitOn(x + y, ' '))| + 1 == |Kept(SplitOn(x, ' '))| + |Kept(SplitOn(y, ' '))|
  {
    LastPiece(x);
    FirstPiece(y);
    SplitGlue(x, y, ' ');
    GlueCount(SplitOn(x, ' '), SplitOn(y, ' '));
  }

  /** Elsewhere the two words at the seam become one. */
  lemma CutGlue(a: string, b: string)
    requires a != "" && b != "" && a[|a| - 1] != ' ' && b[0] != ' ' && !Boundary(a[|a| - 1], b[0])
    ensures |Cut(a + b)| + 1 == |Cut(a)| + |Cut(b)|
  {
    BoundariesGlue(a, b);
    BoundariesEnds(a);
    BoundariesEnds(b);
    GlueTexts(WithBoundaries(a), WithBoundaries(b));
  }

  lemma GlueCount(p: seq<string>, q: seq<string>)
    requires p != [] && q != [] && p[|p| - 1] != "" && q[0] != ""
    ensures |Kept(Glued(p, q))| + 1 == |Kept(p)| + |Kept(q)|
  {
    var front, last := p[..|p| - 1], p[|p| - 1];
    var glued := [last + q[0]];
    KeptConcat(front + glued, q[1..]);
    KeptConcat(front, glued);
    KeptOne(last + q[0]);
    KeptOne(last);
    assert |Kept(p)| == |Kept(front)| + 1;
    assert q == [q[0]] + q[1..];
    KeptConcat([q[0]], q[1..]);
    KeptOne(q[0]);
  }

  /** Where a text may be cut without changing its words. */
  predicate Apart(a: string, b: string) {
    || a == "" || b == ""
    || !IsAlnum(a[|a| - 1]) || !IsAlnum(b[0])
    || Boundary(a[|a| - 1], b[0])
  }

  lemma SpacedConcat(a: string, b: string)
    ensures Spaced(a + b) == Spaced(a) + Spaced(b)
  {
  }

  lemma LowerAllConcat(a: seq<string>, b: seq<string>)
    ensures LowerAll(a + b) == LowerAll(a) + LowerAll(b)
  {
  }

  lemma WordsApart(a: string, b: string)
    requires Apart(a, b)
    ensures WordsOf(a + b) == WordsOf(a) + WordsOf(b)
  {
    SpacedConcat(a, b);
    CutApart(Spaced(a), Spaced(b));
    LowerAllConcat(Cut(Spaced(a)), Cut(Spaced(b)));
  }

  lemma WordsGlued(a: string, b: string)
    requires !Apart(a, b)
    ensures |WordsOf(a + b)| + 1 == |WordsOf(a)| + |WordsOf(b)|
  {
    SpacedConcat(a, b);
    CutGlue(Spaced(a), Spaced(b));
  }

  /** For every text and every place in it: a word ends there exactly when a
      neighbour is not alphanumeric, or an upper-case letter follows a lower-case
      letter or digit. */
  lemma WordsEndAt(a: string, b: string)
    ensures WordsOf(a + b) == WordsOf(a) + WordsOf(b) <==> Apart(a, b)
    ensures !Apart(a, b) ==> |WordsOf(a + b)| + 1 == |WordsOf(a)| + |WordsOf(b)|
  {
    if Apart(a, b) {
      WordsApart(a, b);
    } else {
      WordsGlued(a, b);
    }
  }

  predicate BreaksAt(s: string, i: nat)
    requires i < |s|
  {
    i > 0 && Boundary(s[i - 1], s[i])
  }

  /** No word ends inside `s`. */
  predicate Unbroken(s: string) {
    && s != ""
    && (forall i | 0 <= i < |s| :: IsAlnum(s[i]))
    && forall i | 0 <= i < |s| :: !BreaksAt(s, i)
  }

  lemma {:induction false} UnbrokenBoundaries(s: string)
    requires forall i | 0 <= i < |s| :: !BreaksAt(s, i)
    ensures WithBoundaries(s) == s
  {
    if s != "" {
      var front := s[..|s| - 1];
      forall i | 0 <= i < |front| ensures !BreaksAt(front, i) {
        assert !BreaksAt(s, i);
      }
      UnbrokenBoundaries(front);
      assert !BreaksAt(s, |s| - 1);
    }
  }

  lemma OneWord(s: string)
    requires Unbroken(s)
    ensures WordsOf(s) == [Lower(s)]
  {
    assert Spaced(s) == s;
    assert Cut(s) == [s] by {
      UnbrokenBoundaries(s);
      SplitWhole(s, ' ');
      KeptOne(s);
    }
  }

  /** An alphanumeric text is one word exactly when no boundary is inside. */
  lemma {:induction false} OneWordIff(s: string)
    requires s != "" && forall i | 0 <= i < |s| :: IsAlnum(s[i])
    ensures |WordsOf(s)| >= 1
    ensures |WordsOf(s)| == 1 <==> Unbroken(s)
    decreases |s|
  {
    if Unbroken(s) {
      OneWord(s);
    } else {
      var i :| 0 <= i < |s| && BreaksAt(s, i);
      assert s == s[..i] + s[i..];
      OneWordIff(s[..i]);
      OneWordIff(s[i..]);
      WordsApart(s[..i], s[i..]);
    }
  }

  predicate IsWord(w: string) {
    w != "" && forall i | 0 <= i < |w| :: IsLower(w[i]) || IsDigit(w[i])
  }

  predicate AreWords(ws: seq<string>) {
    forall i | 0 <= i < |ws| :: IsWord(ws[i])
  }

  lemma WordIsItself(w: string)
    requires IsWord(w)
    ensures WordsOf(w) == [w]
  {
    OneWord(w);
    assert Lower(w) == w;
  }

  lemma WordsOfOne(c: char)
    ensures WordsOf([c]) == if IsAlnum(c) then [[LowerChar(c)]] else []
  {
    if IsAlnum(c) {
      OneWord([c]);
      assert Lower([c]) == [LowerChar(c)];
    } else {
      assert Spaced([c]) == " ";
      assert " " == "" + " " + "";
      CutAtSpace("", "");
      CutBlank();
    }
  }

  // ---------------------------------------------------------------------
  // What every split yields
  // ---------------------------------------------------------------------

  lemma {:induction false} KeptPieces(pieces: seq<string>, p: string)
    ensures p in Kept(pieces) <==> p in pieces && p != ""
  {
    if pieces != [] {
      var n := |pieces| - 1;
      KeptPieces(pieces[..n], p);
      assert pieces == pieces[..n] + [pieces[n]];
    }
  }

  lemma {:induction false} BoundaryChars(s: string)
    ensures forall i | 0 <= i < |WithBoundaries(s)| :: WithBoundaries(s)[i] == ' ' || WithBoundaries(s)[i] in s
  {
    if s != "" {
      BoundaryChars(s[..|s| - 1]);
    }
  }

  lemma {:induction false} PieceChars(s: string, sep: char, i: nat, j: nat)
    requires i < |SplitOn(s, sep)| && j < |SplitOn(s, sep)[i]|
    ensures SplitOn(s, sep)[i][j] in s && SplitOn(s, sep)[i][j] != sep
  {
    if s != "" {
      var rest := SplitOn(s[1..], sep);
      if s[0] == sep {
        PieceChars(s[1..], sep, i - 1, j);
      } else if i > 0 {
        PieceChars(s[1..], sep, i, j);
      } else if j > 0 {
        PieceChars(s[1..], sep, 0, j - 1);
      }
    }
  }

  /** Whatever the input, every word is non-empty and holds only lower-case
      letters and digits. */
  lemma WordsAreWords(raw: string)
    ensures AreWords(WordsOf(raw))
  {
    var spaced := Spaced(raw);
    var pieces := SplitOn(WithBoundaries(spaced), ' ');
    forall i | 0 <= i < |WordsOf(raw)| ensures IsWord(WordsOf(raw)[i]) {
      var p := Cut(spaced)[i];
      KeptPieces(pieces, p);
      var k :| 0 <= k < |pieces| && pieces[k] == p;
      forall j | 0 <= j < |p| ensures IsAlnum(p[j]) {
        PieceChars(WithBoundaries(spaced), ' ', k, j);
        BoundaryChars(spaced);
      }
    }
  }

  function Concat(parts: seq<string>): string {
    if parts == [] then "" else parts[0] + Concat(parts[1..])
  }

  lemma {:induction false} ConcatAppend(a: seq<string>, b: seq<string>)
    ensures Concat(a + b) == Concat(a) + Concat(b)
  {
    if a == [] {
      assert a + b == b;
    } else {
      assert (a + b)[1..] == a[1..] + b;
      ConcatAppend(a[1..], b);
    }
  }

  function Alphanumerics(raw: string): string {
    if raw == "" then ""
    else
      var n := |raw| - 1;
      Alphanumerics(raw[..n]) + if IsAlnum(raw[n]) then [raw[n]] else ""
  }

  lemma {:induction false} KeptConcatSame(pieces: seq<string>)
    ensures Concat(Kept(pieces)) == Concat(pieces)
  {
    if pieces != [] {
      var n := |pieces| - 1;
      KeptConcatSame(pieces[..n]);
      ConcatAppend(Kept(pieces[..n]), if pieces[n] == "" then [] else [pieces[n]]);
      ConcatAppend(pieces[..n], [pieces[n]]);
      assert pieces == pieces[..n] + [pieces[n]];
      assert Concat([pieces[n]]) == pieces[n];
    }
  }

  lemma ConcatSnoc(parts: seq<string>, last: string)
    ensures Concat(parts + [last]) == Concat(parts) + last
  {
    ConcatAppend(parts, [last]);
    assert Concat([last]) == last;
  }

  lemma SplitSnocSpace(front: string)
    ensures SplitOn(front + [' '], ' ') == SplitOn(front, ' ') + [""]
  {
    SplitConcat(front, ' ', "");
    assert front + [' '] + "" == front + [' '];
  }

  lemma SplitSnocOther(front: string, c: char)
    requires c != ' '
    ensures var p := SplitOn(front, ' ');
            SplitOn(front + [c], ' ') == p[..|p| - 1] + [p[|p| - 1] + [c]]
  {
    SplitWhole([c], ' ');
    SplitGlue(front, [c], ' ');
  }

  /** One more character, at the end of the text. */
  lemma SplitSnoc(front: string, c: char)
    ensures Concat(SplitOn(front + [c], ' ')) == Concat(SplitOn(front, ' ')) + if c == ' ' then "" else [c]
  {
    var p := SplitOn(front, ' ');
    var m := |p| - 1;
    if c == ' ' {
      SplitSnocSpace(front);
      ConcatSnoc(p, "");
    } else {
      SplitSnocOther(front, c);
      ConcatSnoc(p[..m], p[m] + [c]);
      ConcatSnoc(p[..m], p[m]);
      assert p == p[..m] + [p[m]];
    }
  }

  lemma {:induction false} SplitDropsSeparators(s: string)
    requires forall i | 0 <= i < |s| :: s[i] == ' ' || IsAlnum(s[i])
    ensures Concat(SplitOn(s, ' ')) == Alphanumerics(s)
  {
    if s == "" {
      assert Concat([""]) == "";
    } else {
      var n := |s| - 1;
      SplitDropsSeparators(s[..n]);
      assert s == s[..n] + [s[n]];
      SplitSnoc(s[..n], s[n]);
    }
  }

  lemma {:induction false} AlphanumericsConcat(a: string, b: string)
    ensures Alphanumerics(a + b) == Alphanumerics(a) + Alphanumerics(b)
  {
    if b == "" {
      assert a + b == a;
    } else {
      assert (a + b)[..|a + b| - 1] == a + b[..|b| - 1];
      AlphanumericsConcat(a, b[..|b| - 1]);
    }
  }

  lemma AlphanumericsOfGap(s: string, i: nat)
    requires i < |s|
    ensures Alphanumerics(Gap(s, i)) == ""
  {
    assert " "[..0] == "";
  }

  lemma AlphanumericsSnoc(s: string, c: char)
    ensures Alphanumerics(s + [c]) == Alphanumerics(s) + if IsAlnum(c) then [c] else ""
  {
    assert (s + [c])[..|s|] == s;
  }

  lemma {:induction false} BoundariesKeepAlphanumerics(s: string)
    ensures Alphanumerics(WithBoundaries(s)) == Alphanumerics(s)
  {
    if s != "" {
      var n := |s| - 1;
      var front := WithBoundaries(s[..n]);
      BoundariesKeepAlphanumerics(s[..n]);
      AlphanumericsSnoc(front + Gap(s, n), s[n]);
      AlphanumericsConcat(front, Gap(s, n));
      AlphanumericsOfGap(s, n);
    }
  }

  lemma {:induction false} SpacedKeepsAlphanumerics(raw: string)
    ensures Alphanumerics(Spaced(raw)) == Alphanumerics(raw)
  {
    if raw != "" {
      var n := |raw| - 1;
      SpacedKeepsAlphanumerics(raw[..n]);
      assert Spaced(raw)[..n] == Spaced(raw[..n]);
    }
  }

  lemma LowerAppend(a: string, b: string)
    ensures Lower(a + b) == Lower(a) + Lower(b)
    ensures Upper(a + b) == Upper(a) + Upper(b)
  {
  }

  lemma {:induction false} LowerConcat(parts: seq<string>)
    ensures Concat(LowerAll(parts)) == Lower(Concat(parts))
  {
    if parts != [] {
      LowerConcat(parts[1..]);
      assert LowerAll(parts)[1..] == LowerAll(parts[1..]);
      LowerAppend(parts[0], Concat(parts[1..]));
    }
  }

  /** Splitting loses and invents nothing: the words in order are the
      alphanumeric characters of the input in order, lowered. */
  lemma WordsConserve(raw: string)
    ensures Concat(WordsOf(raw)) == Lower(Alphanumerics(raw))
  {
    var s := WithBoundaries(Spaced(raw));
    BoundaryChars(Spaced(raw));
    LowerConcat(Cut(Spaced(raw)));
    KeptConcatSame(SplitOn(s, ' '));
    SplitDropsSeparators(s);
    BoundariesKeepAlphanumerics(Spaced(raw));
    SpacedKeepsAlphanumerics(raw);
  }

  // ---------------------------------------------------------------------
  // Joining
  // ---------------------------------------------------------------------

  function FlatWords(parts: seq<string>): seq<string> {
    if parts == [] then [] else WordsOf(parts[0]) + FlatWords(parts[1..])
  }

  /** Words joined by any separator split into the words of the parts. */
  lemma {:induction false} JoinedWords(parts: seq<string>, sep: char)
    requires !IsAlnum(sep)
    ensures WordsOf(JoinWith(parts, [sep])) == FlatWords(parts)
  {
    if parts == [] {
      CutBlank();
      assert Spaced("") == "";
    } else if |parts| > 1 {
      var rest := JoinWith(parts[1..], [sep]);
      JoinedWords(parts[1..], sep);
      WordsEndAt(parts[0] + [sep], rest);
      WordsEndAt(parts[0], [sep]);
      WordsOfOne(sep);
    } else {
      assert FlatWords(parts[1..]) == [];
    }
  }

  lemma {:induction false} FlatWordsOfWords(ws: seq<string>)
    requires AreWords(ws)
    ensures FlatWords(ws) == ws
  {
    if ws != [] {
      WordIsItself(ws[0]);
      FlatWordsOfWords(ws[1..]);
    }
  }

  /** Splitting undoes joining, for snake, kebab, human and any other separator
      that is not a letter or digit. */
  lemma {:induction false} SeparatedRoundTrip(ws: seq<string>, sep: char)
    requires AreWords(ws) && !IsAlnum(sep)
    ensures WordsOf(JoinWith(ws, [sep])) == ws
  {
    JoinedWords(ws, sep);
    FlatWordsOfWords(ws);
  }

  function Capitalize(word: string): string {
    if word == "" then "" else [UpperChar(word[0])] + word[1..]
  }

  function CapitalizeAll(ws: seq<string>): (r: seq<string>)
    ensures |r| == |ws| && forall i | 0 <= i < |ws| :: r[i] == Capitalize(ws[i])
  {
    seq(|ws|, i requires 0 <= i < |ws| => Capitalize(ws[i]))
  }

  function Pascal(ws: seq<string>): string {
    Concat(CapitalizeAll(ws))
  }

  function Camel(ws: seq<string>): string {
    if ws == [] then "" else ws[0] + Concat(CapitalizeAll(ws[1..]))
  }

  /** A word boundary stands between parts `i` and `i + 1`. */
  predicate Seam(parts: seq<string>, i: nat) {
    i + 1 < |parts| && Apart(parts[i], parts[i + 1])
  }

  predicate AllSeams(parts: seq<string>) {
    forall i | 0 <= i < |parts| - 1 :: Seam(parts, i)
  }

  lemma AllSeamsTail(parts: seq<string>)
    requires |parts| > 1
    ensures AllSeams(parts) <==> Seam(parts, 0) && AllSeams(parts[1..])
  {
    if Seam(parts, 0) && AllSeams(parts[1..]) {
      forall i | 0 <= i < |parts| - 1 ensures Seam(parts, i) {
        assert i > 0 ==> Seam(parts[1..], i - 1);
      }
    }
    if AllSeams(parts) {
      forall i | 0 <= i < |parts[1..]| - 1 ensures Seam(parts[1..], i) {
        assert Seam(parts, i + 1);
      }
    }
  }

  /** `words` are the parts as far as seams keep them apart. */
  ghost predicate CountsSeams(parts: seq<string>, words: seq<string>) {
    && |words| <= |parts|
    && (|words| == |parts| <==> AllSeams(parts))
    && (AllSeams(parts) ==> words == LowerAll(parts))
  }

  lemma ApartFirst(first: string, rest: seq<string>)
    requires Unbroken(first) && rest != [] && rest[0] != ""
    ensures Apart(first, Concat(rest)) <==> Seam([first] + rest, 0)
  {
    assert Concat(rest)[0] == rest[0][0];
  }

  lemma CountsSeamsStep(first: string, rest: seq<string>, words: seq<string>, restWords: seq<string>)
    requires rest != [] && CountsSeams(rest, restWords)
    requires if Seam([first] + rest, 0) then words == [Lower(first)] + restWords else |words| == |restWords|
    ensures CountsSeams([first] + rest, words)
  {
    assert ([first] + rest)[1..] == rest;
    AllSeamsTail([first] + rest);
    LowerAllFirst(first, rest);
  }

  lemma LowerAllFirst(first: string, rest: seq<string>)
    ensures LowerAll([first] + rest) == [Lower(first)] + LowerAll(rest)
  {
    LowerAllConcat([first], rest);
    assert LowerAll([first]) == [Lower(first)];
  }

  /** Parts put together without separators stay apart exactly at seams. */
  lemma {:induction false} ConcatWords(parts: seq<string>)
    requires forall i | 0 <= i < |parts| :: Unbroken(parts[i])
    ensures CountsSeams(parts, WordsOf(Concat(parts)))
  {
    if parts == [] {
      CutBlank();
      assert Spaced("") == "";
    } else if |parts| == 1 {
      assert parts[1..] == [] && Concat(parts) == parts[0];
      OneWord(parts[0]);
    } else {
      var first, rest := parts[0], parts[1..];
      ConcatWords(rest);
      OneWord(first);
      assert parts == [first] + rest && Unbroken(parts[1]);
      ApartFirst(first, rest);
      WordsEndAt(first, Concat(rest));
      CountsSeamsStep(first, rest, WordsOf(Concat(parts)), WordsOf(Concat(rest)));
    }
  }

  lemma CapitalizedIsUnbroken(w: string)
    requires IsWord(w)
    ensures Unbroken(w) && Unbroken(Capitalize(w))
    ensures Lower(w) == w && Lower(Capitalize(w)) == w
  {
  }

  /** The word after this one is told apart when its first letter is raised. */
  lemma CapitalizedSeam(w: string, next: string)
    requires IsWord(w) && IsWord(next)
    ensures Apart(w, Capitalize(next)) <==> IsLower(next[0])
    ensures Apart(Capitalize(w), Capitalize(next)) <==> IsLower(next[0]) && !SingleLetter(w)
  {
  }

  predicate StartsLower(ws: seq<string>, i: nat) {
    i < |ws| && ws[i] != "" && IsLower(ws[i][0])
  }

  predicate SingleLetter(w: string) {
    |w| == 1 && !IsDigit(w[0])
  }

  /** Word `i` and the next stay apart once both are capitalised. */
  predicate PascalSeam(ws: seq<string>, i: nat) {
    i < |ws| && StartsLower(ws, i + 1) && !SingleLetter(ws[i])
  }

  predicate PascalSplits(ws: seq<string>) {
    forall i | 0 <= i < |ws| - 1 :: PascalSeam(ws, i)
  }

  /** The Pascal form splits back exactly when every later word starts with a
      letter and every word before the last is a digit or longer than one. */
  lemma {:induction false} PascalRoundTripIff(ws: seq<string>)
    requires AreWords(ws)
    ensures WordsOf(Pascal(ws)) == ws <==> PascalSplits(ws)
  {
    var parts := CapitalizeAll(ws);
    forall i | 0 <= i < |ws| ensures Unbroken(parts[i]) && Lower(parts[i]) == ws[i] {
      CapitalizedIsUnbroken(ws[i]);
    }
    ConcatWords(parts);
    assert LowerAll(parts) == ws;
    forall i | 0 <= i < |ws| - 1
      ensures Seam(parts, i) <==> PascalSeam(ws, i)
    {
      CapitalizedSeam(ws[i], ws[i + 1]);
    }
  }

  predicate CamelSeam(ws: seq<string>, i: nat) {
    i < |ws| && StartsLower(ws, i + 1) && (i == 0 || !SingleLetter(ws[i]))
  }

  predicate CamelSplits(ws: seq<string>) {
    forall i | 0 <= i < |ws| - 1 :: CamelSeam(ws, i)
  }

  lemma CamelParts(ws: seq<string>, parts: seq<string>)
    requires AreWords(ws) && ws != [] && parts == [ws[0]] + CapitalizeAll(ws[1..])
    ensures |parts| == |ws| && Concat(parts) == Camel(ws)
    ensures forall i | 0 <= i < |ws| :: parts[i] == if i == 0 then ws[0] else Capitalize(ws[i])
  {
    assert parts[1..] == CapitalizeAll(ws[1..]);
  }

  lemma CamelSeams(ws: seq<string>, parts: seq<string>)
    requires AreWords(ws) && |parts| == |ws|
    requires forall i | 0 <= i < |ws| :: parts[i] == if i == 0 then ws[0] else Capitalize(ws[i])
    ensures AllSeams(parts) <==> CamelSplits(ws)
  {
    forall i | 0 <= i < |ws| - 1
      ensures Seam(parts, i) <==> CamelSeam(ws, i)
    {
      CapitalizedSeam(ws[i], ws[i + 1]);
      assert parts[i + 1] == Capitalize(ws[i + 1]);
    }
    if CamelSplits(ws) {
      forall i | 0 <= i < |ws| - 1 ensures Seam(parts, i) {
        assert CamelSeam(ws, i);
      }
    }
  }

  lemma JoinOfTwo(a: string, b: string, sep: string)
    ensures JoinWith([a, b], sep) == a + sep + b
    ensures Concat([a, b]) == a + b
  {
    assert [a, b][1..] == [b] && [b][1..] == [];
    assert JoinWith([b], sep) == b;
    assert Concat([b]) == b + Concat([]) == b;
  }

  lemma TwoWordsCased(a: string, b: string)
    ensures Pascal([a, b]) == Capitalize(a) + Capitalize(b)
    ensures Camel([a, b]) == a + Capitalize(b)
  {
    assert CapitalizeAll([a, b]) == [Capitalize(a), Capitalize(b)];
    JoinOfTwo(Capitalize(a), Capitalize(b), "");
    assert [a, b][1..] == [b];
    assert CapitalizeAll([b]) == [Capitalize(b)];
    assert [Capitalize(b)][1..] == [];
  }

  /** Two single letters run together in the Pascal form. */
  lemma {:induction false} PascalLosesWord() returns (raw: string, ws: seq<string>)
    ensures raw == "a_b" && ws == ["a", "b"] && WordsOf(raw) == ws
    ensures Pascal(ws) == "AB" && WordsOf(Pascal(ws)) != ws
  {
    ws := ["a", "b"];
    raw := JoinWith(ws, ['_']);
    JoinOfTwo("a", "b", ['_']);
    assert "a" + ['_'] + "b" == "a_b";
    SeparatedRoundTrip(ws, '_');
    TwoWordsCased("a", "b");
    assert SingleLetter(ws[0]);
    assert !PascalSeam(ws, 0);
    PascalRoundTripIff(ws);
  }

  /** A word that starts with a digit sticks to the one before it. */
  lemma {:induction false} CamelLosesWord() returns (raw: string, ws: seq<string>)
    ensures raw == "user_2" && ws == ["user", "2"] && WordsOf(raw) == ws
    ensures Camel(ws) == "user2" && WordsOf(Camel(ws)) != ws
  {
    ws := ["user", "2"];
    assert IsWord("user") && IsWord("2");
    raw := JoinWith(ws, ['_']);
    JoinOfTwo("user", "2", ['_']);
    assert "user" + ['_'] + "2" == "user_2";
    SeparatedRoundTrip(ws, '_');
    TwoWordsCased("user", "2");
    assert !StartsLower(ws, 1);
    assert !CamelSeam(ws, 0);
    CamelRoundTripIff(ws);
  }

  lemma SeamsDecide(ws: seq<string>, parts: seq<string>)
    requires |parts| == |ws|
    requires forall i | 0 <= i < |ws| :: Unbroken(parts[i]) && Lower(parts[i]) == ws[i]
    ensures WordsOf(Concat(parts)) == ws <==> AllSeams(parts)
  {
    ConcatWords(parts);
    assert LowerAll(parts) == ws;
  }

  /** In camel form the first word may also be a single letter. */
  lemma {:induction false} CamelRoundTripIff(ws: seq<string>)
    requires AreWords(ws) && ws != []
    ensures WordsOf(Camel(ws)) == ws <==> CamelSplits(ws)
  {
    var parts := [ws[0]] + CapitalizeAll(ws[1..]);
    CamelParts(ws, parts);
    forall i | 0 <= i < |ws| ensures Unbroken(parts[i]) && Lower(parts[i]) == ws[i] {
      CapitalizedIsUnbroken(ws[i]);
    }
    CamelSeams(ws, parts);
    SeamsDecide(ws, parts);
  }

  // ---------------------------------------------------------------------
  // The upper-case form
  // ---------------------------------------------------------------------

  function UpperAll(ws: seq<string>): (r: seq<string>)
    ensures |r| == |ws| && forall i | 0 <= i < |ws| :: r[i] == Upper(ws[i])
  {
    seq(|ws|, i requires 0 <= i < |ws| => Upper(ws[i]))
  }

  lemma {:induction false} UpperJoin(ws: seq<string>)
    ensures Upper(JoinWith(ws, "_")) == JoinWith(UpperAll(ws), "_")
  {
    if |ws| > 1 {
      UpperJoin(ws[1..]);
      assert UpperAll(ws)[1..] == UpperAll(ws[1..]);
      LowerAppend(ws[0] + "_", JoinWith(ws[1..], "_"));
      LowerAppend(ws[0], "_");
      assert Upper("_") == "_";
    }
  }

  /** No letter follows a digit. */
  predicate NoLetterAfterDigit(w: string) {
    forall i | 0 <= i < |w| :: !DigitThenLetter(w, i)
  }

  predicate DigitThenLetter(w: string, i: nat)
    requires i < |w|
  {
    i > 0 && IsDigit(w[i - 1]) && IsLower(w[i])
  }

  lemma UpperBreaks(w: string, i: nat)
    requires IsWord(w) && i < |w|
    ensures IsAlnum(Upper(w)[i])
    ensures BreaksAt(Upper(w), i) <==> DigitThenLetter(w, i)
  {
    assert IsLower(w[i]) || IsDigit(w[i]);
    assert i > 0 ==> IsLower(w[i - 1]) || IsDigit(w[i - 1]);
  }

  lemma UpperIsUnbroken(w: string)
    requires IsWord(w)
    ensures Upper(w) != "" && forall i | 0 <= i < |w| :: IsAlnum(Upper(w)[i])
    ensures Unbroken(Upper(w)) <==> NoLetterAfterDigit(w)
  {
    var u := Upper(w);
    forall i | 0 <= i < |u| ensures IsAlnum(u[i]) && (BreaksAt(u, i) <==> DigitThenLetter(w, i)) {
      UpperBreaks(w, i);
    }
  }

  lemma LowerUpper(w: string)
    requires IsWord(w)
    ensures Lower(Upper(w)) == w
  {
    forall i | 0 <= i < |w| ensures Lower(Upper(w))[i] == w[i] {
      assert IsLower(w[i]) || IsDigit(w[i]);
    }
  }

  lemma UpperWord(w: string)
    requires IsWord(w)
    ensures |WordsOf(Upper(w))| >= 1
    ensures WordsOf(Upper(w)) == [w] <==> NoLetterAfterDigit(w)
    ensures |WordsOf(Upper(w))| == 1 <==> NoLetterAfterDigit(w)
  {
    UpperIsUnbroken(w);
    OneWordIff(Upper(w));
    if NoLetterAfterDigit(w) {
      OneWord(Upper(w));
      LowerUpper(w);
    }
  }

  lemma {:induction false} UpperWords(ws: seq<string>)
    requires AreWords(ws)
    ensures |FlatWords(UpperAll(ws))| >= |ws|
    ensures FlatWords(UpperAll(ws)) == ws <==> forall i | 0 <= i < |ws| :: NoLetterAfterDigit(ws[i])
    ensures |FlatWords(UpperAll(ws))| == |ws| <==> forall i | 0 <= i < |ws| :: NoLetterAfterDigit(ws[i])
  {
    if ws != [] {
      UpperWord(ws[0]);
      UpperWords(ws[1..]);
      assert UpperAll(ws)[1..] == UpperAll(ws[1..]);
      assert ws == [ws[0]] + ws[1..];
      if (forall i | 0 <= i < |ws[1..]| :: NoLetterAfterDigit(ws[1..][i])) && NoLetterAfterDigit(ws[0]) {
        forall i | 0 <= i < |ws| ensures NoLetterAfterDigit(ws[i]) {
          assert i > 0 ==> ws[i] == ws[1..][i - 1];
        }
      }
    }
  }

  /** The upper-case form splits back exactly when no word has a letter behind a
      digit. */
  lemma {:induction false} ScreamingRoundTripIff(ws: seq<string>)
    requires AreWords(ws)
    ensures WordsOf(Upper(JoinWith(ws, "_"))) == ws <==> forall i | 0 <= i < |ws| :: NoLetterAfterDigit(ws[i])
  {
    UpperJoin(ws);
    JoinedWords(UpperAll(ws), '_');
    UpperWords(ws);
  }

  // ---------------------------------------------------------------------
  // Plurals
  // ---------------------------------------------------------------------

  /** Ends in s, x, z, ch or sh. */
  predicate Sibilant(word: string) {
    var n := |word|;
    || (n >= 1 && (word[n - 1] == 's' || word[n - 1] == 'x' || word[n - 1] == 'z'))
    || (n >= 2 && word[n - 1] == 'h' && (word[n - 2] == 'c' || word[n - 2] == 's'))
  }

  predicate IsVowel(c: char) {
    c == 'a' || c == 'e' || c == 'i' || c == 'o' || c == 'u'
  }

  /** Ends in `y` not preceded by a vowel; nothing at all may precede it. */
  predicate TurnsToIes(word: string) {
    var n := |word|;
    n >= 1 && word[n - 1] == 'y' && !(n >= 2 && IsVowel(word[n - 2]))
  }

  function Pluralize(word: string): string {
    if TurnsToIes(word) then word[..|word| - 1] + "ies"
    else if Sibilant(word) then word + "es"
    else word + "s"
  }

  predicate EndsInY(word: string) {
    word != "" && word[|word| - 1] == 'y'
  }

  predicate ConsonantBeforeY(word: string)
    requires EndsInY(word)
  {
    |word| >= 2 && IsLower(word[|word| - 2]) && !IsVowel(word[|word| - 2])
  }

  /** The rule as documented, for words that end in `y`. */
  function DocumentedPlural(word: string): string
    requires EndsInY(word)
  {
    if ConsonantBeforeY(word) then word[..|word| - 1] + "ies" else word + "s"
  }

  /** The documented `y` rule is the one in force exactly when a letter precedes
      the `y`: a digit before it, or nothing, also gives `ies`. */
  lemma YRuleIff(word: string)
    requires IsWord(word) && EndsInY(word)
    ensures Pluralize(word) == DocumentedPlural(word) <==> |word| >= 2 && IsLower(word[|word| - 2])
  {
    var stem := word[..|word| - 1];
    assert |stem + "ies"| != |word + "s"|;
    assert |word| >= 2 ==> IsLower(word[|word| - 2]) || IsDigit(word[|word| - 2]);
  }

  lemma LoneYTurnsToIes()
    ensures Pluralize("y") == "ies" && DocumentedPlural("y") == "ys"
    ensures Pluralize("2y") == "2ies" && DocumentedPlural("2y") == "2ys"
  {
    assert "y"[..0] + "ies" == "ies" && "2y"[..1] + "ies" == "2ies";
  }

  /** The endings, one by one, behind any stem. */
  lemma PluralEndings(stem: string)
    ensures Pluralize(stem + "s") == stem + "ses" && Pluralize(stem + "x") == stem + "xes"
    ensures Pluralize(stem + "z") == stem + "zes"
    ensures Pluralize(stem + "ch") == stem + "ches" && Pluralize(stem + "sh") == stem + "shes"
  {
  }

  lemma PluralAfterVowel(stem: string)
    ensures Pluralize(stem + "ay") == stem + "ays" && Pluralize(stem + "ey") == stem + "eys"
    ensures Pluralize(stem + "iy") == stem + "iys" && Pluralize(stem + "oy") == stem + "oys"
    ensures Pluralize(stem + "uy") == stem + "uys"
  {
  }

  lemma PluralOfOthers(stem: string, c: char)
    ensures c !in {'a', 'e', 'i', 'o', 'u'} ==> Pluralize(stem + [c] + "y") == stem + [c] + "ies"
    ensures c !in {'y', 's', 'x', 'z', 'h'} ==> Pluralize(stem + [c]) == stem + [c, 's']
    ensures c !in {'c', 's'} ==> Pluralize(stem + [c] + "h") == stem + [c] + "hs"
  {
  }

  /** `b` is the spelling of `a` with the `e` the plural ending brings. */
  predicate Absorbs(a: string, b: string) {
    if TurnsToIes(a) then b == a[..|a| - 1] + "ie" else Sibilant(a) && b == a + "e"
  }

  lemma PluralsMeetOnly(a: string, b: string)
    requires Pluralize(a) == Pluralize(b)
    ensures a == b || Absorbs(a, b) || Absorbs(b, a)
  {
    PluralStem(a);
    PluralStem(b);
  }

  /** A plural without its `s`, and the letters that end it. */
  lemma PluralStem(a: string)
    ensures var p := Pluralize(a);
            && |p| >= 1
            && p[..|p| - 1] == (if TurnsToIes(a) then a[..|a| - 1] + "ie" else if Sibilant(a) then a + "e" else a)
            && (TurnsToIes(a) ==> |p| >= 3 && p[|p| - 3] == 'i' && a == p[..|p| - 3] + "y")
            && (!TurnsToIes(a) && Sibilant(a) ==> |p| >= 3 && p[|p| - 3] != 'i' && a == p[..|p| - 2])
  {
    if TurnsToIes(a) {
      StemOfIes(a[..|a| - 1]);
      assert a == a[..|a| - 1] + "y";
    } else if Sibilant(a) {
      StemOfEs(a);
    }
  }

  lemma StemOfIes(stem: string)
    ensures var p := stem + "ies";
            |p| >= 3 && p[..|p| - 1] == stem + "ie" && p[|p| - 3] == 'i' && p[..|p| - 3] == stem
  {
  }

  lemma StemOfEs(a: string)
    requires Sibilant(a)
    ensures var p := a + "es";
            |p| >= 3 && p[..|p| - 1] == a + "e" && p[|p| - 3] != 'i' && p[..|p| - 2] == a
  {
  }

  lemma AbsorbedPlural(a: string, b: string)
    requires Absorbs(a, b)
    ensures Pluralize(a) == Pluralize(b)
  {
    assert b[|b| - 1] == 'e';
    if TurnsToIes(a) {
      assert a[..|a| - 1] + "ie" + "s" == a[..|a| - 1] + "ies";
    } else {
      assert a + "e" + "s" == a + "es";
    }
  }

  /** Two words share a plural only when one absorbs the ending of the other. */
  lemma PluralsMeetIff(a: string, b: string)
    ensures Pluralize(a) == Pluralize(b) <==> a == b || Absorbs(a, b) || Absorbs(b, a)
  {
    if Pluralize(a) == Pluralize(b) {
      PluralsMeetOnly(a, b);
    } else if Absorbs(a, b) {
      AbsorbedPlural(a, b);
    } else if Absorbs(b, a) {
      AbsorbedPlural(b, a);
    }
  }

  /** The plural of a word is a word again. */
  lemma PluralIsWord(w: string)
    requires IsWord(w)
    ensures IsWord(Pluralize(w))
  {
  }

  /** The words with the last one in the plural. */
  function PluralWords(ws: seq<string>): seq<string>
    requires ws != []
  {
    ws[..|ws| - 1] + [Pluralize(ws[|ws| - 1])]
  }

  lemma PluralWordsAreWords(ws: seq<string>)
    requires ws != [] && AreWords(ws)
    ensures AreWords(PluralWords(ws))
  {
    PluralIsWord(ws[|ws| - 1]);
  }

  // ---------------------------------------------------------------------
  // All the forms of a name
  // ---------------------------------------------------------------------

  datatype Names = Names(
    raw: string, pascal: string, snake: string, kebab: string, camel: string,
    snakePlural: string, kebabPlural: string, pascalPlural: string,
    human: string, humanPlural: string, screaming: string)

  function NamesFrom(raw: string, ws: seq<string>): Names
    requires ws != []
  {
    var ps := PluralWords(ws);
    Names(raw, Pascal(ws), JoinWith(ws, "_"), JoinWith(ws, "-"), Camel(ws),
          JoinWith(ps, "_"), JoinWith(ps, "-"), Pascal(ps),
          JoinWith(ws, " "), JoinWith(ps, " "), Upper(JoinWith(ws, "_")))
  }

  function NamesOf(raw: string): Option<Names> {
    if WordsOf(raw) == [] then None else Some(NamesFrom(raw, WordsOf(raw)))
  }

  method DeriveNames(raw: string) returns (names: Option<Names>)
    ensures names == NamesOf(raw)
  {
    var words := Words(raw);
    if words == [] {
      return None;
    }
    var snake := JoinWith(words, "_");
    var plural := words;
    var last := |plural| - 1;
    plural := plural[last := Pluralize(plural[last])];
    assert plural == PluralWords(words);
    var head, tail := words[0], Concat(CapitalizeAll(words[1..]));
    names := Some(Names(
      raw, Concat(CapitalizeAll(words)), snake, JoinWith(words, "-"), head + tail,
      JoinWith(plural, "_"), JoinWith(plural, "-"), Concat(CapitalizeAll(plural)),
      JoinWith(words, " "), JoinWith(plural, " "), Upper(snake)));
  }

  lemma {:induction false} NoWordsIff(raw: string)
    ensures WordsOf(raw) == [] <==> forall c | c in raw :: !IsAlnum(c)
  {
    if raw == "" {
      CutBlank();
      assert Spaced("") == "";
    } else {
      var n := |raw| - 1;
      var front, c := raw[..n], raw[n];
      assert raw == front + [c];
      NoWordsIff(front);
      WordsOfOne(c);
      WordsEndAt(front, [c]);
      WordsAreWords(raw);
      if IsAlnum(c) {
        WordsConserve(raw);
        assert Alphanumerics(raw) != "";
      }
    }
  }

  /** There is no name exactly when the input has no letter or digit. */
  lemma NoNamesIff(raw: string)
    ensures NamesOf(raw).None? <==> forall c | c in raw :: !IsAlnum(c)
  {
    NoWordsIff(raw);
  }

  /** A letter outside ASCII gives no name. */
  lemma NonAsciiLetterHasNoName()
    ensures NamesOf("\U{00E9}") == None
  {
    NoNamesIff("\U{00E9}");
  }

  /** The separated forms of a derived name, singular and plural, split into the
      words it was made of; every form derived from them is the same again. */
  lemma {:induction false} DerivedNamesAgree(raw: string)
    ensures NamesOf(raw).Some? ==>
            var ws, n := WordsOf(raw), NamesOf(raw).value;
            && WordsOf(n.snake) == WordsOf(n.kebab) == WordsOf(n.human) == ws
            && WordsOf(n.snakePlural) == WordsOf(n.kebabPlural) == WordsOf(n.humanPlural) == PluralWords(ws)
            && NamesOf(n.snake) == Some(n.(raw := n.snake))
            && NamesOf(n.kebab) == Some(n.(raw := n.kebab))
            && NamesOf(n.human) == Some(n.(raw := n.human))
  {
    var ws := WordsOf(raw);
    if ws == [] {
      return;
    }
    WordsAreWords(raw);
    PluralWordsAreWords(ws);
    SeparatedRoundTrip(ws, '_');
    SeparatedRoundTrip(ws, '-');
    SeparatedRoundTrip(ws, ' ');
    SeparatedRoundTrip(PluralWords(ws), '_');
    SeparatedRoundTrip(PluralWords(ws), '-');
    SeparatedRoundTrip(PluralWords(ws), ' ');
    assert ['_'] == "_" && ['-'] == "-" && [' '] == " ";
  }

  /** Each separated form is split by its own separator into its words, and holds
      no other; the plural Pascal form splits back like the singular one. */
  lemma FormsByTheirSeparator(raw: string)
    ensures NamesOf(raw).Some? ==>
            var ws, n := WordsOf(raw), NamesOf(raw).value;
            var ps := PluralWords(ws);
            && n.raw == raw
            && SplitOn(n.snake, '_') == SplitOn(n.kebab, '-') == SplitOn(n.human, ' ') == ws
            && SplitOn(n.snakePlural, '_') == SplitOn(n.kebabPlural, '-') == SplitOn(n.humanPlural, ' ') == ps
            && |ps| == |ws| && ps[|ws| - 1] == Pluralize(ws[|ws| - 1])
            && (forall i | 0 <= i < |ws| - 1 :: ps[i] == ws[i])
            && SplitOn(n.screaming, '_') == UpperAll(ws)
  {
    var ws := WordsOf(raw);
    if ws == [] {
      return;
    }
    WordsAreWords(raw);
    PluralWordsAreWords(ws);
    SplitByEach(ws);
    SplitByEach(PluralWords(ws));
    SplitScreaming(ws);
  }

  lemma SplitScreaming(ws: seq<string>)
    requires ws != [] && AreWords(ws)
    ensures SplitOn(Upper(JoinWith(ws, "_")), '_') == UpperAll(ws)
  {
    UpperJoin(ws);
    forall i | 0 <= i < |ws| ensures '_' !in UpperAll(ws)[i] {
      NoUnderscore(ws[i]);
    }
    assert ['_'] == "_";
    SplitJoin(UpperAll(ws), '_');
  }

  lemma NoUnderscore(w: string)
    requires IsWord(w)
    ensures '_' !in Upper(w)
  {
    forall i | 0 <= i < |w| ensures Upper(w)[i] != '_' {
      assert IsLower(w[i]) || IsDigit(w[i]);
    }
  }

  lemma SplitByEach(ws: seq<string>)
    requires ws != [] && AreWords(ws)
    ensures SplitOn(JoinWith(ws, "_"), '_') == SplitOn(JoinWith(ws, "-"), '-') == SplitOn(JoinWith(ws, " "), ' ') == ws
  {
    assert ['_'] == "_" && ['-'] == "-" && [' '] == " ";
    forall i | 0 <= i < |ws| ensures '_' !in ws[i] && '-' !in ws[i] && ' ' !in ws[i] {
      assert IsWord(ws[i]);
    }
    SplitJoin(ws, '_');
    SplitJoin(ws, '-');
    SplitJoin(ws, ' ');
  }

  lemma PluralPascalIff(raw: string)
    ensures NamesOf(raw).Some? ==>
            var ps := PluralWords(WordsOf(raw));
            WordsOf(NamesOf(raw).value.pascalPlural) == ps <==> PascalSplits(ps)
  {
    if WordsOf(raw) != [] {
      WordsAreWords(raw);
      PluralWordsAreWords(WordsOf(raw));
      PascalRoundTripIff(PluralWords(WordsOf(raw)));
    }
  }

  /** The forms without separators split back under the conditions above, and
      only then; deriving from them then gives the same names. */
  lemma {:induction false} DerivedCasesIff(raw: string)
    ensures NamesOf(raw).Some? ==>
            var ws, n := WordsOf(raw), NamesOf(raw).value;
            && (NamesOf(n.pascal) == Some(n.(raw := n.pascal)) <==> PascalSplits(ws))
            && (NamesOf(n.camel) == Some(n.(raw := n.camel)) <==> CamelSplits(ws))
            && (NamesOf(n.screaming) == Some(n.(raw := n.screaming))
                <==> forall i | 0 <= i < |ws| :: NoLetterAfterDigit(ws[i]))
  {
    var ws := WordsOf(raw);
    if ws == [] {
      return;
    }
    var n := NamesOf(raw).value;
    WordsAreWords(raw);
    PascalRoundTripIff(ws);
    CamelRoundTripIff(ws);
    ScreamingRoundTripIff(ws);
    SameNames(raw, n.pascal);
    SameNames(raw, n.camel);
    SameNames(raw, n.screaming);
  }

  /** Two inputs give the same forms exactly when they have the same words. */
  lemma SameNames(raw: string, other: string)
    requires NamesOf(raw).Some?
    ensures NamesOf(other) == Some(NamesOf(raw).value.(raw := other)) <==> WordsOf(other) == WordsOf(raw)
  {
    if NamesOf(other) == Some(NamesOf(raw).value.(raw := other)) {
      WordsAreWords(raw);
      WordsAreWords(other);
      SeparatedRoundTrip(WordsOf(raw), '_');
      SeparatedRoundTrip(WordsOf(other), '_');
      assert ['_'] == "_";
      assert NamesOf(other).value.snake == NamesOf(raw).value.snake;
    }
  }

  lemma UpperWordStays(w: string)
    requires IsWord(w) && NoLetterAfterDigit(w)
    ensures WordsOf(Upper(w)) == [w]
  {
    UpperWord(w);
  }

  lemma DigitSeam(a: string, b: string)
    requires IsWord(a) && IsWord(b) && IsDigit(a[|a| - 1]) && IsLower(b[0])
    ensures IsWord(a + b) && Apart(Upper(a), Upper(b))
  {
  }

  /** One word made of a part that ends in a digit and one that starts with a
      letter: its upper-case form reads as the two parts. */
  lemma ScreamingSplitsAfterDigit(a: string, b: string)
    requires IsWord(a) && IsWord(b) && NoLetterAfterDigit(a) && NoLetterAfterDigit(b)
    requires IsDigit(a[|a| - 1]) && IsLower(b[0])
    ensures WordsOf(a + b) == [a + b]
    ensures Upper(JoinWith([a + b], "_")) == Upper(a) + Upper(b)
    ensures WordsOf(Upper(a) + Upper(b)) == [a, b]
  {
    DigitSeam(a, b);
    WordIsItself(a + b);
    LowerAppend(a, b);
    UpperWordStays(a);
    UpperWordStays(b);
    WordsOfTwo(Upper(a), Upper(b), a, b);
  }

  lemma WordsOfTwo(x: string, y: string, a: string, b: string)
    requires Apart(x, y) && WordsOf(x) == [a] && WordsOf(y) == [b]
    ensures WordsOf(x + y) == [a, b]
  {
    WordsApart(x, y);
  }

  /** So `oauth2client` comes back as two words. */
  lemma {:induction false} ScreamingLosesWord() returns (a: string, b: string)
    ensures a == "oauth2" && b == "client"
    ensures WordsOf(a + b) == [a + b] && Upper(JoinWith([a + b], "_")) == Upper(a) + Upper(b)
    ensures WordsOf(Upper(a) + Upper(b)) == [a, b]
  {
    a, b := "oauth2", "client";
    ScreamingSplitsAfterDigit(a, b);
  }
}
