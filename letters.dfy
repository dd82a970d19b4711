/** The string primitives the puzzle controller leans on: the letter-pool
    shaping of `startPuzzle`, PHP's `trim`/`strtolower` normalisation of a
    submitted word, `count_chars($s, 1)` and `strlen`.

    Strings are sequences of Unicode scalar values; PHP works on bytes.
    `StrLen` counts UTF-8 bytes to match `strlen`. `CountChars` counts a
    non-ASCII character as one key where `count_chars` counts each of its
    bytes; neither kind of key is ever a puzzle letter, so a word holding
    one is refused by the letter check either way. The other primitives
    only ever change or inspect ASCII characters. */
module Letters {

  /** The number of letters a puzzle is cut down to. */
  const PoolSize: nat := 14

  predicate IsLowerLetter(c: char) {
    'a' <= c <= 'z'
  }

  predicate AllLower(s: string) {
    forall i :: 0 <= i < |s| ==> IsLowerLetter(s[i])
  }

  /** The characters PHP's `trim` strips by default: space, tab, line feed,
      carriage return, NUL and vertical tab. */
  predicate IsTrimmed(c: char) {
    c == ' ' || c == '\t' || c == '\n' || c == '\r' || c == '\0' || c == '\U{000B}'
  }

  // ---------------------------------------------------------------------
  // Letter-pool shaping: lowercase(substr(replaceMatches('/[^a-z]/', ''), 0, 14))
  // ---------------------------------------------------------------------

  /** `replaceMatches('/[^a-z]/', '')`: keeps the lower-case ASCII letters
      and drops everything else. */
  function KeepLower(s: string): (r: string)
    ensures AllLower(r)
    ensures |r| <= |s|
  {
    if s == [] then []
    else
      var rest := KeepLower(s[1..]);
      if IsLowerLetter(s[0]) then [s[0]] + rest else rest
  }

  /** The filter keeps every lower-case letter as often as the input has it,
      and no other character. */
  lemma {:induction false} KeepLowerCounts(s: string)
    ensures forall c :: multiset(KeepLower(s))[c] == if IsLowerLetter(c) then multiset(s)[c] else 0
  {
    if s != [] {
      KeepLowerCounts(s[1..]);
      assert multiset(s) == multiset{s[0]} + multiset(s[1..]) by {
        assert s == [s[0]] + s[1..];
      }
    }
  }

  /** The filter works character by character and distributes over
      concatenation, so the kept letters come in the input's order. */
  lemma {:induction false} KeepLowerAppend(a: string, b: string)
    ensures |a| == 1 ==> KeepLower(a) == if IsLowerLetter(a[0]) then a else []
    ensures KeepLower(a + b) == KeepLower(a) + KeepLower(b)
  {
    if a == [] {
      assert a + b == b;
    } else {
      var ab := a + b;
      assert ab[0] == a[0] && ab[1..] == a[1..] + b;
      KeepLowerAppend(a[1..], b);
      if IsLowerLetter(a[0]) {
        assert KeepLower(a) == [a[0]] + KeepLower(a[1..]);
        assert KeepLower(ab) == [a[0]] + KeepLower(ab[1..]);
        var x, y := KeepLower(a[1..]), KeepLower(b);
        assert [a[0]] + (x + y) == ([a[0]] + x) + y;
      } else {
        assert KeepLower(a) == KeepLower(a[1..]);
        assert KeepLower(ab) == KeepLower(ab[1..]);
      }
    }
  }

  /** The puzzle's letters, cut from a random string. Letters are filtered
      BEFORE anything is lowercased, so upper-case letters and digits are
      dropped, and the pool can be shorter than `PoolSize`. */
  function ShapePool(random: string): (letters: string)
    ensures AllLower(letters)
    ensures |letters| <= PoolSize
    ensures |letters| == if |KeepLower(random)| < PoolSize then |KeepLower(random)| else PoolSize
    ensures letters == KeepLower(random)[..|letters|]
  {
    var kept := KeepLower(random);
    var cut := if |kept| <= PoolSize then kept else kept[..PoolSize];
    LowerIsIdentityOnLower(cut);
    Lower(cut)
  }

  /** The pool is a full `PoolSize` letters exactly when the random string
      holds at least that many lower-case letters. */
  lemma {:induction false} ShapePoolFull(random: string)
    ensures |ShapePool(random)| == PoolSize <==> |multiset(KeepLower(random))| >= PoolSize
  {
  }

  // ---------------------------------------------------------------------
  // Normalisation: strtolower(trim($word))
  // ---------------------------------------------------------------------

  function LowerChar(c: char): char {
    if 'A' <= c <= 'Z' then (c as int + 32) as char else c
  }

  /** PHP's `strtolower`: maps `A`-`Z` to `a`-`z` and leaves every other
      character as it is. */
  function Lower(s: string): (r: string)
    ensures |r| == |s|
    ensures forall i :: 0 <= i < |s| ==> r[i] == LowerChar(s[i])
    ensures forall i :: 0 <= i < |r| ==> !('A' <= r[i] <= 'Z')
  {
    if s == [] then [] else [LowerChar(s[0])] + Lower(s[1..])
  }

  lemma LowerIsIdentityOnLower(s: string)
    requires AllLower(s)
    ensures Lower(s) == s
  {
  }

  /** Strips the leading characters in the trim set. */
  function TrimLeft(s: string): (r: string)
    ensures |r| <= |s| && r == s[|s| - |r|..]
    ensures forall i :: 0 <= i < |s| - |r| ==> IsTrimmed(s[i])
    ensures r != [] ==> !IsTrimmed(r[0])
  {
    if s != [] && IsTrimmed(s[0]) then TrimLeft(s[1..]) else s
  }

  /** Strips the trailing characters in the trim set. */
  function TrimRight(s: string): (r: string)
    ensures |r| <= |s| && r == s[..|r|]
    ensures forall i :: |r| <= i < |s| ==> IsTrimmed(s[i])
    ensures r != [] ==> !IsTrimmed(r[|r| - 1])
  {
    if s != [] && IsTrimmed(s[|s| - 1]) then TrimRight(s[..|s| - 1]) else s
  }

  /** `r` is the slice of `s` starting at `i`, and everything of `s` before
      and after that slice is in the trim set. */
  predicate StripsEnds(s: string, r: string, i: nat) {
    && i + |r| <= |s|
    && r == s[i..i + |r|]
    && (forall k :: 0 <= k < i ==> IsTrimmed(s[k]))
    && (forall k :: i + |r| <= k < |s| ==> IsTrimmed(s[k]))
  }

  /** PHP's `trim`: the middle of the input, with only trim-set characters
      removed around it, and none left at either end. */
  function Trim(s: string): (r: string)
    ensures exists i: nat :: StripsEnds(s, r, i)
    ensures r != [] ==> !IsTrimmed(r[0]) && !IsTrimmed(r[|r| - 1])
  {
    StripsCompose(s, TrimLeft(s), TrimRight(TrimLeft(s)));
    TrimRight(TrimLeft(s))
  }

  /** Stripping a prefix of trim-set characters and then a suffix of them
      leaves a slice of the input with only trim-set characters around it. */
  lemma StripsCompose(s: string, t: string, r: string)
    requires |t| <= |s| && t == s[|s| - |t|..]
    requires forall k :: 0 <= k < |s| - |t| ==> IsTrimmed(s[k])
    requires |r| <= |t| && r == t[..|r|]
    requires forall k :: |r| <= k < |t| ==> IsTrimmed(t[k])
    ensures StripsEnds(s, r, |s| - |t|)
  {
    var i := |s| - |t|;
    forall k | i + |r| <= k < |s|
      ensures IsTrimmed(s[k])
    {
      assert s[k] == t[k - i];
    }
  }

  /** `word` is the slice of `raw` starting at `i`, lowercased, and
      everything of `raw` before and after that slice is in the trim set. */
  predicate LowersSlice(raw: string, word: string, i: nat) {
    && i + |word| <= |raw|
    && (forall k :: 0 <= k < |word| ==> word[k] == LowerChar(raw[i + k]))
    && (forall k :: 0 <= k < i ==> IsTrimmed(raw[k]))
    && (forall k :: i + |word| <= k < |raw| ==> IsTrimmed(raw[k]))
  }

  /** The submitted word as the controller compares and stores it: the
      trimmed middle of the raw word, lowercased. */
  function Normalize(raw: string): (word: string)
    ensures exists i: nat :: LowersSlice(raw, word, i)
    ensures forall i :: 0 <= i < |word| ==> !('A' <= word[i] <= 'Z')
    ensures word != [] ==> !IsTrimmed(word[0]) && !IsTrimmed(word[|word| - 1])
  {
    LowerTrimFacts(raw);
    Lower(Trim(raw))
  }

  lemma LowerTrimFacts(raw: string)
    ensures exists i: nat :: LowersSlice(raw, Lower(Trim(raw)), i)
    ensures var w := Lower(Trim(raw)); w != [] ==> !IsTrimmed(w[0]) && !IsTrimmed(w[|w| - 1])
  {
    var t := Trim(raw);
    var i: nat :| StripsEnds(raw, t, i);
    LowerKeepsSlice(raw, t, i);
  }

  /** Lowercasing a trimmed slice gives a lowercased slice that is still
      trimmed at both ends. */
  lemma LowerKeepsSlice(raw: string, t: string, i: nat)
    requires StripsEnds(raw, t, i)
    requires t != [] ==> !IsTrimmed(t[0]) && !IsTrimmed(t[|t| - 1])
    ensures LowersSlice(raw, Lower(t), i)
    ensures Lower(t) != [] ==> !IsTrimmed(Lower(t)[0]) && !IsTrimmed(Lower(t)[|t| - 1])
  {
    forall k | 0 <= k < |t|
      ensures Lower(t)[k] == LowerChar(raw[i + k])
    {
      assert t[k] == raw[i + k];
    }
  }

  /** Normalising twice is normalising once, so two raw words are the same
      submission exactly when their normal forms are equal. */
  lemma {:induction false} NormalizeIdempotent(raw: string)
    ensures Normalize(Normalize(raw)) == Normalize(raw)
  {
    var w := Normalize(raw);
    assert Trim(w) == w by { TrimOfTrimmed(w); }
    assert Lower(w) == w by { LowerOfNoUpper(w); }
  }

  lemma {:induction false} LowerOfNoUpper(s: string)
    requires forall i :: 0 <= i < |s| ==> !('A' <= s[i] <= 'Z')
    ensures Lower(s) == s
  {
    if s != [] {
      LowerOfNoUpper(s[1..]);
    }
  }

  lemma TrimOfTrimmed(s: string)
    requires s != [] ==> !IsTrimmed(s[0]) && !IsTrimmed(s[|s| - 1])
    ensures Trim(s) == s
  {
    assert TrimLeft(s) == s;
  }

  // ---------------------------------------------------------------------
  // count_chars($s, 1) and strlen
  // ---------------------------------------------------------------------

  /** How often `c` is counted in a letter table (0 when absent, as PHP's
      `empty()` reads a missing key). */
  function Count(m: map<char, nat>, c: char): nat {
    if c in m then m[c] else 0
  }

  /** `count_chars($s, 1)`: one entry per character that occurs in `s`,
      holding the number of its occurrences. */
  function CountChars(s: string): (r: map<char, nat>)
    ensures forall c :: c in r <==> c in s
    ensures forall c :: Count(r, c) == multiset(s)[c]
  {
    if s == [] then map[]
    else
      var init := s[..|s| - 1];
      var last := s[|s| - 1];
      var m := CountChars(init);
      assert s == init + [last];
      m[last := Count(m, last) + 1]
  }

  /** `strlen`: the number of bytes of the UTF-8 encoding. */
  function StrLen(s: string): (n: nat)
    ensures |s| <= n <= 4 * |s|
    ensures (forall i :: 0 <= i < |s| ==> s[i] < 128 as char) ==> n == |s|
  {
    if s == [] then 0
    else
      var c := s[0] as int;
      (if c < 0x80 then 1 else if c < 0x800 then 2 else if c < 0x10000 then 3 else 4)
        + StrLen(s[1..])
  }

  // ---------------------------------------------------------------------
  // Ascending key order of PHP's count tables
  // ---------------------------------------------------------------------

  lemma {:induction false} MinExists(keys: set<char>)
    requires keys != {}
    ensures exists c :: c in keys && forall d :: d in keys ==> c <= d
  {
    var x :| x in keys;
    var rest := keys - {x};
    if keys == {x} {
    } else {
      MinExists(rest);
      var m :| m in rest && forall d :: d in rest ==> m <= d;
      var least := if x < m then x else m;
      forall d | d in keys
        ensures least <= d
      {
        if d != x {
          assert d in rest;
        }
      }
    }
  }

  /** The smallest key: `count_chars` lists its entries in ascending
      character order and deleting entries keeps the others in order, so this
      is the key a `foreach` over such a table visits first. */
  function MinKey(keys: set<char>): (c: char)
    requires keys != {}
    ensures c in keys && forall d :: d in keys ==> c <= d
  {
    MinExists(keys);
    var c :| c in keys && forall d :: d in keys ==> c <= d;
    c
  }
}
