/** Key patterns handed to foreign stores. The generated texts are read by small
    matchers for SQL `LIKE` with escape `\` and for the Redis glob; a matcher may
    also reject a pattern as malformed, and the generated ones never are. */
module KeyPatterns {

  // ---------------------------------------------------------------------
  // The generators
  // ---------------------------------------------------------------------

  predicate LikeMeta(c: char) {
    c == '%' || c == '_' || c == '\\'
  }

  predicate RedisMeta(c: char) {
    c in {'*', '?', '[', ']', '\\'}
  }

  function LikeEscapeChar(c: char): string {
    if LikeMeta(c) then ['\\', c] else [c]
  }

  function GlobToLikeChar(c: char): string {
    if c == '*' then "%" else if c == '?' then "_" else LikeEscapeChar(c)
  }

  function RedisEscapeChar(c: char): string {
    if RedisMeta(c) then ['\\', c] else [c]
  }

  /** Character-wise translation, the shape of all three generators. */
  function Translated(s: string, each: char -> string): string {
    if s == "" then "" else each(s[0]) + Translated(s[1..], each)
  }

  function GlobToLike(pattern: string): string {
    Translated(pattern, GlobToLikeChar)
  }

  function LikeEscape(prefix: string): string {
    Translated(prefix, LikeEscapeChar)
  }

  function RedisEscape(prefix: string): string {
    Translated(prefix, RedisEscapeChar)
  }

  /** The pattern `delete_prefix` binds in Postgres. */
  function LikePrefix(prefix: string): string {
    LikeEscape(prefix) + "%"
  }

  /** The pattern `delete_prefix` scans for in Redis. */
  function RedisPrefix(prefix: string): string {
    RedisEscape(prefix) + "*"
  }

  lemma {:induction false} TranslatedSnoc(s: string, c: char, each: char -> string)
    ensures Translated(s + [c], each) == Translated(s, each) + each(c)
  {
    if s == "" {
      assert s + [c] == [c] && [c][1..] == "";
    } else {
      assert (s + [c])[1..] == s[1..] + [c];
      TranslatedSnoc(s[1..], c, each);
    }
  }

  method GlobToLikeLoop(pattern: string) returns (out: string)
    ensures out == GlobToLike(pattern)
  {
    out := "";
    for i := 0 to |pattern|
      invariant out == GlobToLike(pattern[..i])
    {
      TranslatedSnoc(pattern[..i], pattern[i], GlobToLikeChar);
      assert pattern[..i + 1] == pattern[..i] + [pattern[i]];
      match pattern[i] {
        case '*' => out := out + ['%'];
        case '?' => out := out + ['_'];
        case ch =>
          if LikeMeta(ch) {
            out := out + ['\\'];
          }
          out := out + [ch];
      }
    }
    assert pattern[..|pattern|] == pattern;
  }

  method LikeEscapeLoop(prefix: string) returns (out: string)
    ensures out == LikeEscape(prefix)
  {
    out := "";
    for i := 0 to |prefix|
      invariant out == LikeEscape(prefix[..i])
    {
      TranslatedSnoc(prefix[..i], prefix[i], LikeEscapeChar);
      assert prefix[..i + 1] == prefix[..i] + [prefix[i]];
      if LikeMeta(prefix[i]) {
        out := out + ['\\'];
      }
      out := out + [prefix[i]];
    }
    assert prefix[..|prefix|] == prefix;
  }

  method RedisEscapeLoop(s: string) returns (out: string)
    ensures out == RedisEscape(s)
  {
    out := "";
    for i := 0 to |s|
      invariant out == RedisEscape(s[..i])
    {
      TranslatedSnoc(s[..i], s[i], RedisEscapeChar);
      assert s[..i + 1] == s[..i] + [s[i]];
      if RedisMeta(s[i]) {
        out := out + ['\\'];
      }
      out := out + [s[i]];
    }
    assert s[..|s|] == s;
  }

  // ---------------------------------------------------------------------
  // The matchers
  // ---------------------------------------------------------------------

  /** The key pattern of `keys`: `*` any text, `?` any character. */
  predicate GlobMatch(pattern: string, key: string)
    decreases |pattern|, |key|
  {
    if pattern == "" then key == ""
    else if pattern[0] == '*' then
      GlobMatch(pattern[1..], key) || (key != "" && GlobMatch(pattern, key[1..]))
    else
      key != "" && (pattern[0] == '?' || pattern[0] == key[0]) && GlobMatch(pattern[1..], key[1..])
  }

  /** SQL `LIKE ... ESCAPE '\'`. A backslash with nothing behind it is an error. */
  predicate LikeWellFormed(pattern: string) {
    if pattern == "" then true
    else if pattern[0] == '\\' then |pattern| >= 2 && LikeWellFormed(pattern[2..])
    else LikeWellFormed(pattern[1..])
  }

  predicate LikeMatch(pattern: string, key: string)
    requires LikeWellFormed(pattern)
    decreases |pattern|, |key|
  {
    if pattern == "" then key == ""
    else if pattern[0] == '%' then
      LikeMatch(pattern[1..], key) || (key != "" && LikeMatch(pattern, key[1..]))
    else if pattern[0] == '\\' then
      key != "" && pattern[1] == key[0] && LikeMatch(pattern[2..], key[1..])
    else
      key != "" && (pattern[0] == '_' || pattern[0] == key[0]) && LikeMatch(pattern[1..], key[1..])
  }

  /** The Redis glob. A backslash makes the next character literal (and itself,
      when it is the last one); a class runs to its `]`, with `^` for negation,
      ranges and escapes inside. */
  predicate RedisMatch(pattern: string, key: string)
    decreases |pattern|, |key|
  {
    if pattern == "" then key == ""
    else if pattern[0] == '*' then
      RedisMatch(pattern[1..], key) || (key != "" && RedisMatch(pattern, key[1..]))
    else if key == "" then false
    else if pattern[0] == '?' then RedisMatch(pattern[1..], key[1..])
    else if pattern[0] == '[' then
      var negated := |pattern| > 1 && pattern[1] == '^';
      var (inside, rest) := ScanClass(if negated then pattern[2..] else pattern[1..], key[0]);
      inside != negated && RedisMatch(rest, key[1..])
    else if pattern[0] == '\\' && |pattern| >= 2 then
      pattern[1] == key[0] && RedisMatch(pattern[2..], key[1..])
    else pattern[0] == key[0] && RedisMatch(pattern[1..], key[1..])
  }

  /** Whether `c` is in the class that starts here, and what follows its `]`. */
  function ScanClass(pattern: string, c: char): (r: (bool, string))
    ensures |r.1| <= |pattern|
  {
    if pattern == "" then (false, "")
    else if pattern[0] == ']' then (false, pattern[1..])
    else if pattern[0] == '\\' && |pattern| >= 2 then
      var r := ScanClass(pattern[2..], c);
      (pattern[1] == c || r.0, r.1)
    else if |pattern| >= 3 && pattern[1] == '-' then
      var lo, hi := if pattern[0] <= pattern[2] then pattern[0] else pattern[2], if pattern[0] <= pattern[2] then pattern[2] else pattern[0];
      var r := ScanClass(pattern[3..], c);
      (lo <= c <= hi || r.0, r.1)
    else
      var r := ScanClass(pattern[1..], c);
      (pattern[0] == c || r.0, r.1)
  }

  // ---------------------------------------------------------------------
  // Glob to LIKE
  // ---------------------------------------------------------------------

  lemma {:induction false} EscapedWellFormed(s: string, tail: string)
    requires LikeWellFormed(tail)
    ensures LikeWellFormed(LikeEscape(s) + tail)
  {
    if s == "" {
      assert LikeEscape(s) + tail == tail;
    } else {
      EscapedWellFormed(s[1..], tail);
      var text, rest := LikeEscape(s) + tail, LikeEscape(s[1..]) + tail;
      assert text == LikeEscapeChar(s[0]) + rest;
      assert if LikeMeta(s[0]) then text[2..] == rest else text[1..] == rest;
    }
  }

  lemma {:induction false} GlobToLikeWellFormed(pattern: string)
    ensures LikeWellFormed(GlobToLike(pattern))
  {
    if pattern != "" {
      GlobToLikeWellFormed(pattern[1..]);
      var text, rest := GlobToLike(pattern), GlobToLike(pattern[1..]);
      assert if LikeMeta(pattern[0]) then text[2..] == rest else text[1..] == rest;
    }
  }

  /** For every glob and every key the two languages agree: `%`, `_` and `\` of
      the glob stay literal, and the generated pattern is never malformed. */
  lemma {:induction false} GlobToLikeMatches(pattern: string, key: string)
    ensures LikeWellFormed(GlobToLike(pattern))
    ensures GlobMatch(pattern, key) <==> LikeMatch(GlobToLike(pattern), key)
    decreases |pattern|, |key|
  {
    GlobToLikeWellFormed(pattern);
    if pattern != "" {
      var text, rest := GlobToLike(pattern), GlobToLike(pattern[1..]);
      assert text == GlobToLikeChar(pattern[0]) + rest;
      assert if LikeMeta(pattern[0]) then text[2..] == rest else text[1..] == rest;
      GlobToLikeMatches(pattern[1..], key);
      if key != "" {
        GlobToLikeMatches(pattern[1..], key[1..]);
        GlobToLikeMatches(pattern, key[1..]);
      }
    }
  }

  // ---------------------------------------------------------------------
  // Literal prefixes
  // ---------------------------------------------------------------------

  lemma {:induction false} AnyTextLike(key: string)
    ensures LikeWellFormed("%") && LikeMatch("%", key)
  {
    assert "%"[1..] == "";
    if key != "" {
      AnyTextLike(key[1..]);
    }
  }

  lemma {:induction false} AnyTextRedis(key: string)
    ensures RedisMatch("*", key)
  {
    assert "*"[1..] == "";
    if key != "" {
      AnyTextRedis(key[1..]);
    }
  }

  /** The Postgres pattern selects exactly the keys that literally start with
      the prefix. */
  lemma {:induction false} LikePrefixMatches(prefix: string, key: string)
    ensures LikeWellFormed(LikePrefix(prefix))
    ensures LikeMatch(LikePrefix(prefix), key) <==> prefix <= key
  {
    AnyTextLike(key);
    EscapedWellFormed(prefix, "%");
    if prefix == "" {
      assert LikePrefix(prefix) == "%";
    } else {
      var text, rest := LikePrefix(prefix), LikePrefix(prefix[1..]);
      assert text == LikeEscapeChar(prefix[0]) + rest;
      assert if LikeMeta(prefix[0]) then text[2..] == rest else text[1..] == rest;
      if key != "" {
        LikePrefixMatches(prefix[1..], key[1..]);
        assert prefix <= key <==> prefix[0] == key[0] && prefix[1..] <= key[1..];
      }
    }
  }

  /** So does the Redis pattern. */
  lemma {:induction false} RedisPrefixMatches(prefix: string, key: string)
    ensures RedisMatch(RedisPrefix(prefix), key) <==> prefix <= key
  {
    if prefix == "" {
      AnyTextRedis(key);
      assert RedisPrefix(prefix) == "*";
    } else {
      var text, rest := RedisPrefix(prefix), RedisPrefix(prefix[1..]);
      assert text == RedisEscapeChar(prefix[0]) + rest;
      assert if RedisMeta(prefix[0]) then text[2..] == rest else text[1..] == rest;
      if key != "" {
        RedisPrefixMatches(prefix[1..], key[1..]);
        assert prefix <= key <==> prefix[0] == key[0] && prefix[1..] <= key[1..];
      }
    }
  }

  /** All three stores drop the same keys for a prefix: the in-memory
      `starts_with` filter, the Postgres pattern and the Redis pattern. */
  lemma StoresDropSameKeys(prefix: string, keys: set<string>)
    ensures LikeWellFormed(LikePrefix(prefix))
    ensures (set k | k in keys && prefix <= k) == (set k | k in keys && LikeMatch(LikePrefix(prefix), k))
    ensures (set k | k in keys && prefix <= k) == (set k | k in keys && RedisMatch(RedisPrefix(prefix), k))
  {
    LikePrefixMatches(prefix, "");
    forall k | k in keys
      ensures LikeMatch(LikePrefix(prefix), k) <==> prefix <= k
      ensures RedisMatch(RedisPrefix(prefix), k) <==> prefix <= k
    {
      LikePrefixMatches(prefix, k);
      RedisPrefixMatches(prefix, k);
    }
  }

  // ---------------------------------------------------------------------
  // The scan loop of the Redis `delete_prefix`
  // ---------------------------------------------------------------------

  /** One `SCAN` round: the next cursor and a batch. */
  datatype Round = Round(next: nat, batch: seq<string>)

  function Batches(rounds: seq<Round>): seq<string> {
    if rounds == [] then [] else Batches(rounds[..|rounds| - 1]) + rounds[|rounds| - 1].batch
  }

  /** A full scan: cursor zero ends it and only ends it. */
  predicate FullScan(rounds: seq<Round>) {
    rounds != [] && forall i | 0 <= i < |rounds| :: rounds[i].next == 0 <==> i == |rounds| - 1
  }

  function Members(keys: seq<string>): set<string> {
    set k | k in keys
  }

  /** What `SCAN MATCH` promises over a full scan of an undisturbed store: only
      matching keys, and each of them at least once. */
  ghost predicate ScanComplete(rounds: seq<Round>, pattern: string, present: set<string>) {
    && FullScan(rounds)
    && (forall k | k in Batches(rounds) :: RedisMatch(pattern, k))
    && (forall k | k in present && RedisMatch(pattern, k) :: k in Batches(rounds))
  }

  lemma ScannedKeysStartWithPrefix(rounds: seq<Round>, prefix: string, present: set<string>)
    requires ScanComplete(rounds, RedisPrefix(prefix), present)
    ensures present * Members(Batches(rounds)) == set k | k in present && prefix <= k
  {
    forall k | k in present ensures k in Batches(rounds) <==> prefix <= k {
      RedisPrefixMatches(prefix, k);
    }
  }

  /** Collect every batch, however often a key repeats in them, then delete the
      collected keys in one call that answers with the number of keys that were
      there: exactly the keys with the prefix go, and are counted once. */
  method RedisDeletePrefix(prefix: string, rounds: seq<Round>, present: set<string>, evictions: nat)
    returns (removed: nat, left: set<string>, evictions': nat)
    requires ScanComplete(rounds, RedisPrefix(prefix), present)
    ensures left == set k | k in present && !(prefix <= k)
    ensures removed == |set k | k in present && prefix <= k|
    ensures evictions' == evictions + removed
  {
    var matched: seq<string> := [];
    var cursor, i := 1, 0;
    while cursor != 0
      invariant 0 <= i <= |rounds|
      invariant matched == Batches(rounds[..i])
      invariant cursor == 0 <==> i == |rounds|
      decreases |rounds| - i
    {
      var round := rounds[i];
      assert rounds[..i + 1][..i] == rounds[..i];
      matched := matched + round.batch;
      cursor := round.next;
      i := i + 1;
    }
    assert rounds[..i] == rounds;
    ScannedKeysStartWithPrefix(rounds, prefix, present);
    if matched == [] {
      forall k | k in present ensures !(prefix <= k) {
        RedisPrefixMatches(prefix, k);
      }
      assert (set k | k in present && prefix <= k) == {};
      return 0, present, evictions;
    }
    left := present - Members(matched);
    assert forall k | k in present :: k in present * Members(matched) <==> prefix <= k;
    removed := |present * Members(matched)|;
    evictions' := evictions + removed;
  }
}
