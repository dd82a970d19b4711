/** The session's letter inventory: a table from letter to how many of it
    are left. `Consume` is the all-or-nothing debit of a word (the loop of
    `submitWord`), `Expand` is the list of single letters that
    `remainingLettersAsString` renders the table into. */
module Inventory {
  import opened Wrappers
  import opened Letters

  /** Every stored count is positive: entries that reach zero are deleted. */
  predicate Positive(m: map<char, nat>) {
    forall c :: c in m ==> m[c] > 0
  }

  /** The table holds at least `needs[c]` of every letter `c` the word needs. */
  predicate Covers(m: map<char, nat>, needs: map<char, nat>) {
    forall c :: c in needs ==> Count(m, c) >= needs[c]
  }

  /** The table after debiting `needs`: every debited entry that reaches
      zero is deleted, every entry not debited is kept as it is. */
  function Subtract(m: map<char, nat>, needs: map<char, nat>): (r: map<char, nat>)
    requires Covers(m, needs)
    ensures forall c :: Count(r, c) == Count(m, c) - Count(needs, c)
    ensures forall c :: c in r ==> c in m
    ensures Positive(m) ==> Positive(r)
  {
    map c | c in m && (c in needs ==> m[c] > needs[c]) :: if c in needs then m[c] - needs[c] else m[c]
  }

  lemma SubtractExactly(m: map<char, nat>, needs: map<char, nat>, r: map<char, nat>)
    requires Covers(m, needs)
    requires forall c :: c in r <==> c in m && (c in needs ==> m[c] > needs[c])
    requires forall c :: c in r ==> r[c] == if c in needs then m[c] - needs[c] else m[c]
    ensures r == Subtract(m, needs)
  {
  }

  /** The outcome of trying to spell `word` from `remaining`: the debited
      table, or `None` ("Not enough letters") when some letter is missing or
      short. */
  function Consume(remaining: map<char, nat>, word: string): (r: Option<map<char, nat>>)
    ensures r.Some? ==> forall c :: Count(r.value, c) == Count(remaining, c) - multiset(word)[c]
    ensures r.Some? ==> r.value.Keys <= remaining.Keys
    ensures r.Some? && Positive(remaining) ==> Positive(r.value)
  {
    var needs := CountChars(word);
    if Covers(remaining, needs) then Some(Subtract(remaining, needs)) else None
  }

  /** `Consume` succeeds exactly when the word, as a multiset of letters, fits
      in the table, and then takes exactly the word's letters out of it. */
  lemma {:induction false} ConsumeMeaning(remaining: map<char, nat>, word: string)
    ensures Consume(remaining, word).Some? <==> forall c :: multiset(word)[c] <= Count(remaining, c)
    ensures Consume(remaining, word).Some? ==>
      forall c :: Count(Consume(remaining, word).value, c) + multiset(word)[c] == Count(remaining, c)
  {
    var needs := CountChars(word);
    if Covers(remaining, needs) {
      forall c
        ensures multiset(word)[c] <= Count(remaining, c)
      {
        if c in needs {
          assert Count(needs, c) == needs[c];
        }
      }
      var r := Subtract(remaining, needs);
      assert forall c :: Count(r, c) + Count(needs, c) == Count(remaining, c);
    } else {
      var c :| c in needs && Count(remaining, c) < needs[c];
      assert multiset(word)[c] > Count(remaining, c);
    }
  }

  /** The inventory loop of `submitWord`. It walks the word's letter counts
      in ascending letter order and debits a local copy of the table; the
      first missing or short letter abandons the copy, so the caller's table
      is never partly debited. */
  method TryConsume(remaining: map<char, nat>, word: string) returns (r: Option<map<char, nat>>)
    ensures r == Consume(remaining, word)
  {
    var needs := CountChars(word);
    var todo := needs.Keys;
    var rem := remaining;
    while todo != {}
      invariant todo <= needs.Keys
      invariant forall c :: c in needs && c !in todo ==> Count(remaining, c) >= needs[c]
      invariant forall c :: c in rem <==> c in remaining && (c in needs && c !in todo ==> remaining[c] > needs[c])
      invariant forall c :: c in rem ==> rem[c] == if c in needs && c !in todo then remaining[c] - needs[c] else remaining[c]
      decreases |todo|
    {
      var c := MinKey(todo);
      var count := needs[c];
      if c !in rem || rem[c] == 0 || rem[c] < count {
        assert c in word && count == multiset(word)[c] > 0;
        assert Count(remaining, c) < needs[c];
        return None;
      }
      rem := rem[c := rem[c] - count];
      if rem[c] <= 0 {
        rem := rem - {c};
      }
      todo := todo - {c};
    }
    assert Covers(remaining, needs);
    SubtractExactly(remaining, needs, rem);
    return Some(rem);
  }

  // ---------------------------------------------------------------------
  // Rendering the table back into letters
  // ---------------------------------------------------------------------

  /** `str_repeat(chr($ascii), $count)`. */
  function Repeat(c: char, n: nat): (r: string)
    ensures |r| == n
    ensures forall i :: 0 <= i < n ==> r[i] == c
    ensures multiset(r)[c] == n
    ensures forall d :: d != c ==> multiset(r)[d] == 0
  {
    if n == 0 then [] else [c] + Repeat(c, n - 1)
  }

  /** The table written out in ascending letter order, each letter as often
      as its count says. */
  function Expand(m: map<char, nat>): (letters: string)
    ensures forall i :: 0 <= i < |letters| ==> letters[i] in m
    decreases |m|
  {
    if m == map[] then []
    else
      var c := MinKey(m.Keys);
      assert (m - {c}).Keys == m.Keys - {c};
      Repeat(c, m[c]) + Expand(m - {c})
  }

  /** The sum of the counts in the table. */
  function Total(m: map<char, nat>): nat
    decreases |m|
  {
    if m == map[] then 0
    else
      var c := MinKey(m.Keys);
      assert (m - {c}).Keys == m.Keys - {c};
      m[c] + Total(m - {c})
  }

  /** The expansion holds each letter exactly as often as the table counts
      it, and nothing else. */
  lemma {:induction false} ExpandCounts(m: map<char, nat>)
    ensures forall c :: multiset(Expand(m))[c] == Count(m, c)
    ensures |Expand(m)| == Total(m)
    decreases |m|
  {
    if m != map[] {
      var c := MinKey(m.Keys);
      var rest := m - {c};
      assert rest.Keys == m.Keys - {c};
      ExpandCounts(rest);
      assert Expand(m) == Repeat(c, m[c]) + Expand(rest);
      forall d
        ensures multiset(Expand(m))[d] == Count(m, d)
      {
        if d != c {
          assert Count(rest, d) == Count(m, d);
        }
      }
    }
  }

  /** The expansion is in ascending letter order, as PHP's table is. */
  lemma {:induction false} ExpandSorted(m: map<char, nat>)
    ensures forall i, j :: 0 <= i < j < |Expand(m)| ==> Expand(m)[i] <= Expand(m)[j]
    decreases |m|
  {
    if m != map[] {
      var c := MinKey(m.Keys);
      var rest := m - {c};
      assert rest.Keys == m.Keys - {c};
      ExpandSorted(rest);
      ExpandCounts(rest);
      var e := Expand(rest);
      forall k | 0 <= k < |e|
        ensures c <= e[k]
      {
        assert e[k] in multiset(e);
        assert Count(rest, e[k]) > 0;
      }
      assert Expand(m) == Repeat(c, m[c]) + e;
    }
  }

  lemma ExpandStep(todo: map<char, nat>, done: string)
    requires todo != map[]
    ensures var c := MinKey(todo.Keys);
      |todo - {c}| < |todo| &&
      done + Expand(todo) == (done + Repeat(c, todo[c])) + Expand(todo - {c})
  {
    var c := MinKey(todo.Keys);
    assert (todo - {c}).Keys == todo.Keys - {c};
  }

  /** `str_split`: one single-character string per character. */
  function StrSplit(s: string): (parts: seq<string>)
    ensures |parts| == |s|
    ensures forall i :: 0 <= i < |s| ==> parts[i] == [s[i]]
  {
    if s == [] then [] else [[s[0]]] + StrSplit(s[1..])
  }

  /** Splitting keeps every character, as a one-character string, as often
      as it occurs. */
  lemma {:induction false} StrSplitCounts(s: string)
    ensures forall c :: multiset(StrSplit(s))[[c]] == multiset(s)[c]
  {
    if s != [] {
      StrSplitCounts(s[1..]);
      assert s == [s[0]] + s[1..];
      assert StrSplit(s) == [[s[0]]] + StrSplit(s[1..]);
    }
  }

  /** `remainingLettersAsString`: appends `str_repeat` of each entry in the
      table's order, then splits the result into single letters. */
  method RemainingLettersAsString(remaining: map<char, nat>) returns (letters: seq<string>)
    ensures letters == StrSplit(Expand(remaining))
  {
    var result: string := [];
    var todo := remaining;
    while todo != map[]
      invariant result + Expand(todo) == Expand(remaining)
      decreases |todo|
    {
      var c := MinKey(todo.Keys);
      var run := Repeat(c, todo[c]);
      ExpandStep(todo, result);
      result := result + run;
      todo := todo - {c};
    }
    letters := StrSplit(result);
  }
}
