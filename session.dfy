/** The puzzle session engine of `PuzzleController`: a session over one
    puzzle's letters, the checks a submitted word goes through (duplicate,
    dictionary, letters) and the end of the session.

    `State` and the functions `Start`, `Submit`, `End` and `Summarize` are
    the specification; the class `Session` is the session record the
    controller updates in place, and its methods are proved to follow it. */
module PuzzleSession {
  import opened Wrappers
  import opened Letters
  import opened Inventory
  import opened Leaderboard

  /** What the dictionary service does for a word: it answers with an HTTP
      status, or the request throws. */
  datatype Lookup = Answered(status: nat) | Threw

  /** `isValidEnglishWord`: only an answer with status 200 accepts the word;
      a lookup that throws counts as an invalid word. */
  predicate IsValidEnglishWord(dictionary: string -> Lookup, word: string): (valid: bool)
    ensures valid <==> dictionary(word) == Answered(200)
  {
    match dictionary(word)
    case Threw => false
    case Answered(status) => status == 200
  }

  /** Why a submission is rejected: no open session for the puzzle (the
      `firstOrFail` of the lookup), "Word already used", "Invalid English
      word" and "Not enough letters". */
  datatype SubmitError = NoOpenSession | WordAlreadyUsed | InvalidEnglishWord | NotEnoughLetters

  /** The mutable part of a session record. */
  datatype State = State(remaining: map<char, nat>, usedWords: seq<string>, score: nat, isCompleted: bool)

  /** The response of one submission and the session afterwards. */
  datatype Step = Step(result: Result<nat, SubmitError>, next: State)

  /** The response of `endPuzzle`. */
  datatype Summary = Summary(score: nat, usedWords: seq<string>, remainingLetters: seq<string>)

  /** A new session: the letter counts of the puzzle, no words, score 0
      and not completed (the column defaults). */
  function Start(letters: string): (s: State)
    ensures forall c :: Count(s.remaining, c) == multiset(letters)[c]
    ensures Positive(s.remaining)
    ensures s.usedWords == [] && s.score == 0 && !s.isCompleted
  {
    var counts := CountChars(letters);
    assert forall c :: c in counts ==> counts[c] == multiset(letters)[c] > 0;
    State(counts, [], 0, false)
  }

  /** One submission. A rejection, whichever check makes it, leaves the
      session as it was; an acceptance answers with the new score. */
  function Submit(s: State, raw: string, dictionary: string -> Lookup): (step: Step)
    ensures step.result.Err? ==> step.next == s
    ensures step.result.Ok? ==> step.result.value == step.next.score >= s.score && !step.next.isCompleted
  {
    if s.isCompleted then Step(Err(NoOpenSession), s)
    else
      var word := Normalize(raw);
      if word in s.usedWords then Step(Err(WordAlreadyUsed), s)
      else if !IsValidEnglishWord(dictionary, word) then Step(Err(InvalidEnglishWord), s)
      else
        match Consume(s.remaining, word)
        case None => Step(Err(NotEnoughLetters), s)
        case Some(debited) =>
          var score := s.score + StrLen(word);
          Step(Ok(score), State(debited, s.usedWords + [word], score, false))
  }

  /** `endPuzzle`: the session is marked completed and nothing else changes. */
  function End(s: State): (e: State)
    ensures e.isCompleted
    ensures e.remaining == s.remaining && e.usedWords == s.usedWords && e.score == s.score
  {
    s.(isCompleted := true)
  }

  /** The summary `endPuzzle` answers with. */
  function Summarize(s: State): (summary: Summary)
    ensures summary.score == s.score && summary.usedWords == s.usedWords
    ensures |summary.remainingLetters| == Total(s.remaining)
  {
    ExpandCounts(s.remaining);
    Summary(s.score, s.usedWords, StrSplit(Expand(s.remaining)))
  }

  // ---------------------------------------------------------------------
  // The session invariant
  // ---------------------------------------------------------------------

  /** All letters of the used words, together. */
  ghost function UsedLetters(used: seq<string>): multiset<char> {
    if used == [] then multiset{} else UsedLetters(used[..|used| - 1]) + multiset(used[|used| - 1])
  }

  /** The sum of the lengths of the used words. */
  ghost function TotalLength(used: seq<string>): nat {
    if used == [] then 0 else TotalLength(used[..|used| - 1]) + |used[|used| - 1]|
  }

  /** What holds of every session over the puzzle `letters`: the remaining
      counts are the puzzle's letters minus the letters of the used words,
      every stored count is positive, the used words are distinct words of
      lower-case letters and the score is the sum of their lengths. */
  ghost predicate Inv(letters: string, s: State) {
    && AllLower(letters)
    && Positive(s.remaining)
    && (forall c :: Count(s.remaining, c) + UsedLetters(s.usedWords)[c] == multiset(letters)[c])
    && (forall i :: 0 <= i < |s.usedWords| ==> AllLower(s.usedWords[i]))
    && (forall i, j :: 0 <= i < j < |s.usedWords| ==> s.usedWords[i] != s.usedWords[j])
    && s.score == TotalLength(s.usedWords)
  }

  /** A session started on a pool of lower-case letters satisfies the
      invariant: its remaining counts are exactly the pool's letter counts. */
  lemma StartInv(letters: string)
    requires AllLower(letters)
    ensures Inv(letters, Start(letters))
  {
    var s := Start(letters);
    assert UsedLetters(s.usedWords) == multiset{};
    assert forall c :: c in s.remaining ==> s.remaining[c] == multiset(letters)[c] > 0;
  }

  lemma LowerWordIsAscii(w: string)
    requires AllLower(w)
    ensures StrLen(w) == |w|
  {
  }

  lemma UsedLettersAppend(used: seq<string>, word: string)
    ensures UsedLetters(used + [word]) == UsedLetters(used) + multiset(word)
    ensures TotalLength(used + [word]) == TotalLength(used) + |word|
  {
    assert (used + [word])[..|used|] == used;
  }

  /** A word that fits in the remaining counts is made of puzzle letters,
      hence of lower-case letters. */
  lemma FittingWordIsLower(letters: string, s: State, word: string)
    requires Inv(letters, s)
    requires forall c :: multiset(word)[c] <= Count(s.remaining, c)
    ensures AllLower(word)
  {
    forall i | 0 <= i < |word|
      ensures IsLowerLetter(word[i])
    {
      var c := word[i];
      assert c in multiset(word);
      assert multiset(letters)[c] > 0;
    }
  }

  /** Taking an unused word's letters out of the counts, appending the word
      and adding its `strlen` to the score keeps the invariant. */
  lemma AcceptKeepsInv(letters: string, s: State, word: string, next: State)
    requires Inv(letters, s)
    requires word !in s.usedWords
    requires forall c :: Count(next.remaining, c) + multiset(word)[c] == Count(s.remaining, c)
    requires Positive(next.remaining)
    requires next.usedWords == s.usedWords + [word]
    requires next.score == s.score + StrLen(word)
    ensures Inv(letters, next)
  {
    var used := next.usedWords;
    assert AllLower(word) by {
      FittingWordIsLower(letters, s, word);
    }
    assert forall c :: Count(next.remaining, c) + UsedLetters(used)[c] == multiset(letters)[c] by {
      UsedLettersAppend(s.usedWords, word);
    }
    assert forall i :: 0 <= i < |used| ==> AllLower(used[i]);
    assert forall i, j :: 0 <= i < j < |used| ==> used[i] != used[j];
    assert next.score == TotalLength(used) by {
      LowerWordIsAscii(word);
      UsedLettersAppend(s.usedWords, word);
    }
  }

  /** Every submission keeps the invariant. */
  lemma {:induction false} SubmitPreservesInv(letters: string, s: State, raw: string, dictionary: string -> Lookup)
    requires Inv(letters, s)
    ensures Inv(letters, Submit(s, raw, dictionary).next)
  {
    var word := Normalize(raw);
    if !s.isCompleted && word !in s.usedWords && IsValidEnglishWord(dictionary, word)
      && Consume(s.remaining, word).Some?
    {
      var debited := Consume(s.remaining, word).value;
      var next := Submit(s, raw, dictionary).next;
      assert next.remaining == debited && next.usedWords == s.usedWords + [word]
        && next.score == s.score + StrLen(word) by {
        SubmitAccepts(s, raw, dictionary, debited);
      }
      assert forall c :: Count(debited, c) + multiset(word)[c] == Count(s.remaining, c) by {
        ConsumeMeaning(s.remaining, word);
      }
      assert Positive(debited) by {
        assert debited == Subtract(s.remaining, CountChars(word));
      }
      AcceptKeepsInv(letters, s, word, next);
    }
  }

  /** The checks run in the order open session, duplicate, dictionary,
      letters, and the first that fails decides the answer. */
  lemma SubmitCheckOrder(s: State, raw: string, dictionary: string -> Lookup)
    ensures s.isCompleted ==> Submit(s, raw, dictionary) == Step(Err(NoOpenSession), s)
    ensures !s.isCompleted && Normalize(raw) in s.usedWords ==>
      Submit(s, raw, dictionary) == Step(Err(WordAlreadyUsed), s)
    ensures !s.isCompleted && Normalize(raw) !in s.usedWords && !IsValidEnglishWord(dictionary, Normalize(raw)) ==>
      Submit(s, raw, dictionary) == Step(Err(InvalidEnglishWord), s)
    ensures dictionary(Normalize(raw)) == Threw ==> Submit(s, raw, dictionary).result.Err?
    ensures !s.isCompleted && Normalize(raw) !in s.usedWords && IsValidEnglishWord(dictionary, Normalize(raw))
      ==> (Consume(s.remaining, Normalize(raw)).None? ==> Submit(s, raw, dictionary) == Step(Err(NotEnoughLetters), s))
  {
  }

  /** A word that passes every check: the debited counts, the word appended
      and its `strlen` added to the score become the new session. */
  lemma SubmitAccepts(s: State, raw: string, dictionary: string -> Lookup, debited: map<char, nat>)
    requires !s.isCompleted && Normalize(raw) !in s.usedWords && IsValidEnglishWord(dictionary, Normalize(raw))
    requires Consume(s.remaining, Normalize(raw)) == Some(debited)
    ensures var step := Submit(s, raw, dictionary);
      && step.result.Ok?
      && step.next.remaining == debited
      && step.next.usedWords == s.usedWords + [Normalize(raw)]
      && step.next.score == s.score + StrLen(Normalize(raw))
      && !step.next.isCompleted
  {
  }

  /** Past the first three checks, a word is refused with "Not enough
      letters" exactly when some letter occurs in it more often than it
      remains, and otherwise accepted. */
  lemma {:induction false} NotEnoughLettersExactly(s: State, raw: string, dictionary: string -> Lookup)
    requires !s.isCompleted && Normalize(raw) !in s.usedWords && IsValidEnglishWord(dictionary, Normalize(raw))
    ensures Submit(s, raw, dictionary).result == Err(NotEnoughLetters) <==>
      exists c :: multiset(Normalize(raw))[c] > Count(s.remaining, c)
    ensures Submit(s, raw, dictionary).result.Ok? <==>
      forall c :: multiset(Normalize(raw))[c] <= Count(s.remaining, c)
  {
    ConsumeMeaning(s.remaining, Normalize(raw));
  }

  /** An accepted word is a word of lower-case letters; it is appended to the
      used words, its letters are taken out of the remaining counts and its
      length is added to the score. */
  lemma {:induction false} AcceptedSubmit(letters: string, s: State, raw: string, dictionary: string -> Lookup)
    requires Inv(letters, s)
    requires Submit(s, raw, dictionary).result.Ok?
    ensures var word, next := Normalize(raw), Submit(s, raw, dictionary).next;
      && AllLower(word)
      && next.usedWords == s.usedWords + [word]
      && next.score == s.score + |word|
      && (forall c :: Count(next.remaining, c) + multiset(word)[c] == Count(s.remaining, c))
  {
    var word := Normalize(raw);
    assert !s.isCompleted && word !in s.usedWords && IsValidEnglishWord(dictionary, word);
    assert Consume(s.remaining, word).Some?;
    ConsumeMeaning(s.remaining, word);
    FittingWordIsLower(letters, s, word);
    LowerWordIsAscii(word);
  }

  /** Submitting a word that was just accepted again, in any spelling that
      normalises to it, is refused as already used and changes nothing. */
  lemma ResubmitIsDuplicate(s: State, raw: string, again: string, dictionary: string -> Lookup, later: string -> Lookup)
    requires Submit(s, raw, dictionary).result.Ok?
    requires Normalize(again) == Normalize(raw)
    ensures var next := Submit(s, raw, dictionary).next;
      Submit(next, again, later) == Step(Err(WordAlreadyUsed), next)
  {
    var word := Normalize(raw);
    assert !s.isCompleted && word !in s.usedWords && IsValidEnglishWord(dictionary, word);
    assert Consume(s.remaining, word).Some?;
    var next := Submit(s, raw, dictionary).next;
    assert next.usedWords == s.usedWords + [word] && !next.isCompleted;
    assert Normalize(again) in next.usedWords;
  }

  lemma {:induction false} UsedLettersSize(used: seq<string>)
    ensures |UsedLetters(used)| == TotalLength(used)
  {
    if used != [] {
      UsedLettersSize(used[..|used| - 1]);
    }
  }

  /** The remaining counts add up to the puzzle's length minus the score, and
      so does the list of letters `endPuzzle` answers with. */
  lemma {:induction false} RemainingMatchesScore(letters: string, s: State)
    requires Inv(letters, s)
    ensures Total(s.remaining) + s.score == |letters|
    ensures |Summarize(s).remainingLetters| + s.score == |letters|
  {
    ExpandCounts(s.remaining);
    var left := multiset(Expand(s.remaining));
    assert left + UsedLetters(s.usedWords) == multiset(letters);
    UsedLettersSize(s.usedWords);
  }

  /** Ending any session keeps its score, words and letters and its
      summary, ending it again changes nothing, and afterwards no submission
      finds an open session. */
  lemma EndClosesSession(s: State, raw: string, dictionary: string -> Lookup)
    ensures End(s).isCompleted && End(End(s)) == End(s)
    ensures End(s).score == s.score && End(s).usedWords == s.usedWords && End(s).remaining == s.remaining
    ensures Submit(End(s), raw, dictionary) == Step(Err(NoOpenSession), End(s))
    ensures Summarize(End(s)) == Summarize(s)
  {
  }

  /** Ending a session keeps the invariant. */
  lemma EndKeepsInv(letters: string, s: State)
    requires Inv(letters, s)
    ensures Inv(letters, End(s))
  {
  }

  /** The summary's letters: one single-letter string per remaining unit
      count, in ascending letter order. */
  lemma {:induction false} SummaryLetters(s: State)
    ensures var letters := Summarize(s).remainingLetters;
      && |letters| == Total(s.remaining)
      && (forall i :: 0 <= i < |letters| ==> |letters[i]| == 1)
      && (forall c :: multiset(letters)[[c]] == Count(s.remaining, c))
      && (forall i, j :: 0 <= i < j < |letters| ==> letters[i][0] <= letters[j][0])
  {
    var e := Expand(s.remaining);
    ExpandCounts(s.remaining);
    ExpandSorted(s.remaining);
    StrSplitCounts(e);
  }

  // ---------------------------------------------------------------------
  // The session record
  // ---------------------------------------------------------------------

  /** A session record (the `submissions` row) and the puzzle letters it
      belongs to. */
  class Session {
    const letters: string
    var remaining: map<char, nat>
    var usedWords: seq<string>
    var score: nat
    var isCompleted: bool

    function Current(): State
      reads this
    {
      State(remaining, usedWords, score, isCompleted)
    }

    ghost predicate Valid()
      reads this
    {
      Inv(letters, Current())
    }

    /** `startPuzzle`: shapes the puzzle letters out of a random string and
        opens a session over them. */
    constructor (random: string)
      ensures letters == ShapePool(random)
      ensures Current() == Start(letters)
      ensures Valid()
    {
      letters := ShapePool(random);
      remaining := CountChars(ShapePool(random));
      usedWords := [];
      score := 0;
      isCompleted := false;
      StartInv(ShapePool(random));
    }

    /** `submitWord`: the checks in order; the record and the leaderboard are
        written only once the word has passed all of them. */
    method SubmitWord(raw: string, dictionary: string -> Lookup, board: Board) returns (r: Result<nat, SubmitError>)
      modifies this, board
      ensures old(Valid()) ==> Valid()
      ensures r == Submit(old(Current()), raw, dictionary).result
      ensures Current() == Submit(old(Current()), raw, dictionary).next
      ensures board.entries ==
        if r.Ok? then RecordIfFirst(old(board.entries), Normalize(raw), StrLen(Normalize(raw)))
        else old(board.entries)
    {
      ghost var before := Current();
      ghost var entries := board.entries;
      if isCompleted {
        r := Err(NoOpenSession);
        assert r == Submit(before, raw, dictionary).result && Current() == Submit(before, raw, dictionary).next;
        return;
      }
      var word := Normalize(raw);
      if word in usedWords {
        r := Err(WordAlreadyUsed);
        assert r == Submit(before, raw, dictionary).result && Current() == Submit(before, raw, dictionary).next;
        return;
      }
      if !IsValidEnglishWord(dictionary, word) {
        r := Err(InvalidEnglishWord);
        assert r == Submit(before, raw, dictionary).result && Current() == Submit(before, raw, dictionary).next;
        return;
      }
      var debited := TryConsume(remaining, word);
      if debited.None? {
        r := Err(NotEnoughLetters);
        assert r == Submit(before, raw, dictionary).result && Current() == Submit(before, raw, dictionary).next;
        return;
      }
      ghost var next := Submit(before, raw, dictionary).next;
      assert next.remaining == debited.value && next.usedWords == usedWords + [word]
        && next.score == score + StrLen(word) && !next.isCompleted by {
        SubmitAccepts(before, raw, dictionary, debited.value);
      }
      assert Inv(letters, before) ==> Inv(letters, next) by {
        if Inv(letters, before) {
          SubmitPreservesInv(letters, before, raw, dictionary);
        }
      }
      Record(word, debited.value, board);
      r := Ok(score);
      assert Current() == next;
      assert old(Valid()) ==> Valid() by {
        assert old(Valid()) == Inv(letters, before);
        assert Valid() == Inv(letters, next);
      }
    }

    /** Writes an accepted word: the record takes the debited counts, the
        word and the new score, and the leaderboard keeps its first score. */
    method Record(word: string, debited: map<char, nat>, board: Board)
      modifies this, board
      ensures Current() == old(Current()).(remaining := debited, usedWords := old(usedWords) + [word], score := old(score) + StrLen(word))
      ensures board.entries == RecordIfFirst(old(board.entries), word, StrLen(word))
    {
      usedWords := usedWords + [word];
      remaining := debited;
      score := score + StrLen(word);
      board.FirstOrCreate(word, StrLen(word));
    }

    /** `endPuzzle`: marks the session completed and answers with its score,
        its words and its remaining letters. */
    method EndPuzzle() returns (summary: Summary)
      modifies this
      ensures Current() == End(old(Current()))
      ensures summary == Summarize(old(Current()))
      ensures old(Valid()) ==> Valid()
    {
      isCompleted := true;
      var rest := RemainingLettersAsString(remaining);
      summary := Summary(score, usedWords, rest);
    }
  }
}
