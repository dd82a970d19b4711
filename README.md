# Word-puzzle session engine, modelled in Dafny

This project models the word-puzzle session engine of `PuzzleController`,
the only real logic in the repository. A student starts a puzzle and gets up
to 14 lower-case letters. They then submit words one at a time. A word is
accepted when all of these hold:

- the session is still open;
- the word has not been used in this session;
- the dictionary service knows the word;
- the word can be spelled from the letters not yet consumed.

An accepted word consumes its letters, scores its length and is offered to
the global leaderboard, where the first score recorded for a word is kept.
Ending the session freezes it and returns the score, the used words and the
remaining letters.

Files:

- `letters.dfy` (module `Letters`): the string primitives. These are the
  pool shaping, PHP's `trim`/`strtolower` normalisation, `count_chars` and
  `strlen`, plus the ascending key order in which PHP walks a
  `count_chars` table.
- `inventory.dfy` (module `Inventory`): the letter table. It holds the
  all-or-nothing debit of a word and the loop of `submitWord` that performs
  it (`TryConsume`). It also holds the expansion of the table into single
  letters and the loop of `remainingLettersAsString`.
- `leaderboard.dfy` (module `Leaderboard`): the insert-if-absent of
  `firstOrCreate`, and the `Board` table it updates.
- `session.dfy` (module `PuzzleSession`): the session specification. It
  defines `State` and the functions `Start`, `Submit`, `End` and
  `Summarize`. The invariant `Inv` ties the remaining counts, the used words
  and the score to the puzzle letters. The lemmas about these functions live
  here too, as does the class `Session`: the session record, updated in
  place by `SubmitWord` and `EndPuzzle`, which are proved to follow `Submit`
  and `End`.
- `wrappers.dfy` (module `Wrappers`): `Option` and `Result`.

Where the code's behaviour is easy to misread:

- The pool is not always 14 letters. Line 27 drops everything outside
  `a`-`z` before it lowercases anything, so upper-case letters and digits of
  the random string are lost and the pool can be shorter
  (`Letters.ShapePool`, `Letters.ShapePoolFull`).
- A submission to a completed session is not answered with a separate
  "already completed" error. The session lookup filters on
  `is_completed = false`, so the answer is the not-found error of
  `firstOrFail` (`SubmitError.NoOpenSession`).
- The score adds `strlen`, a byte count (`Letters.StrLen`). For every
  accepted word this equals the number of characters, because accepted
  words consist of `a`-`z` only (`PuzzleSession.AcceptedSubmit`).
- Taking `cat` from a 14-letter pool leaves 11 letters: the remaining
  letters always number the pool length minus the score
  (`PuzzleSession.RemainingMatchesScore`).

Modelling choices:

- Strings are Dafny strings (sequences of characters); PHP's are bytes.
  `StrLen` counts UTF-8 bytes, as `strlen` does. `CountChars` counts a
  non-ASCII character as one key, where `count_chars` counts each of its
  bytes. Neither kind of key is ever among the remaining letters, so a word
  containing such a character is refused by the letter check either way
  (`PuzzleSession.FittingWordIsLower`). The other primitives only ever
  change or inspect ASCII characters.
- The duplicate check uses exact equality where PHP's `in_array` is loose.
  The used words are always strings of lower-case letters, which PHP 8 never
  compares as numbers, so the two agree.
- The `count_chars` table lists letters in ascending order, and `unset`
  keeps the others in order. Both loops therefore take the smallest
  remaining key at each step (`Letters.MinKey`).
- `str_split('')` is taken to be the empty list (PHP 8.2 and later).
- JSON encoding and decoding of `used_words` and `remaining_letters` are
  taken as the identity; the model keeps the decoded values.

## Model

| member | source | states |
|---|---|---|
| `Letters.KeepLower` | app/Http/Controllers/PuzzleController.php:27 | `replaceMatches('/[^a-z]/', '')` leaves only `a`-`z` characters and never lengthens the string |
| `Letters.KeepLowerCounts` | app/Http/Controllers/PuzzleController.php:27 | the filter keeps every `a`-`z` character exactly as often as the input has it, and no other character |
| `Letters.KeepLowerAppend` | app/Http/Controllers/PuzzleController.php:27 | the filter keeps a single character exactly when it is in `a`-`z`, and distributes over concatenation, so the kept letters come in the input's order |
| `Letters.ShapePool` | app/Http/Controllers/PuzzleController.php:27 | the pool has at most 14 characters, all in `a`-`z`; it is the first `min(14, n)` of the input's lower-case letters, where `n` is how many the input has |
| `Letters.ShapePoolFull` | app/Http/Controllers/PuzzleController.php:27 | the pool is a full 14 letters exactly when the random string holds at least 14 lower-case letters |
| `Letters.Lower` | app/Http/Controllers/PuzzleController.php:62 | `strtolower` keeps the length, maps `A`-`Z` to `a`-`z`, leaves every other character alone, and leaves no `A`-`Z` behind |
| `Letters.TrimLeft` | app/Http/Controllers/PuzzleController.php:62 | the result is a suffix of the input; everything dropped is in PHP's default trim set, and the result does not start with such a character |
| `Letters.TrimRight` | app/Http/Controllers/PuzzleController.php:62 | the result is a prefix of the input; everything dropped is in the trim set, and the result does not end with such a character |
| `Letters.Trim` | app/Http/Controllers/PuzzleController.php:62 | `trim` returns a contiguous slice of its input, everything removed before and after it is in the trim set, and the slice neither starts nor ends with such a character |
| `Letters.Normalize` | app/Http/Controllers/PuzzleController.php:62 | the normalised word is a slice of the raw word, lowercased character by character, with only trim-set characters removed around it; it has no upper-case ASCII letter and no leading or trailing trim-set character |
| `Letters.NormalizeIdempotent` | app/Http/Controllers/PuzzleController.php:62 | normalising a normalised word changes nothing, so two spellings are the same submission exactly when their normal forms are equal |
| `Letters.CountChars` | app/Http/Controllers/PuzzleController.php:75 | `count_chars($s, 1)` has an entry exactly for the characters of `s`, holding each one's number of occurrences (its multiset count) |
| `Letters.StrLen` | app/Http/Controllers/PuzzleController.php:88 | `strlen` counts UTF-8 bytes: at least the number of characters and at most four times it, and exactly the number of characters for an ASCII string |
| `Letters.MinKey` | app/Http/Controllers/PuzzleController.php:75 | the key the `foreach` over a `count_chars` table visits first is its smallest letter |
| `Inventory.Subtract` | app/Http/Controllers/PuzzleController.php:79-82 | each debited count drops by the word's count; entries that reach zero are removed; stored counts stay positive |
| `Inventory.Consume` | app/Http/Controllers/PuzzleController.php:75-83 | a successful debit lowers each letter's count by its number of occurrences in the word, adds no letter and keeps every stored count positive |
| `Inventory.ConsumeMeaning` | app/Http/Controllers/PuzzleController.php:75-83 | the debit succeeds exactly when the word's letter multiset fits in the table; on success, remaining plus the word's letters equals the old table for every letter |
| `Inventory.TryConsume` | app/Http/Controllers/PuzzleController.php:75-83 | the loop over a local copy, with its early return on a missing or short letter, computes exactly `Consume`: the debited table, or "Not enough letters" with the caller's table untouched |
| `Inventory.Repeat` | app/Http/Controllers/PuzzleController.php:157 | `str_repeat(c, n)` is `n` copies of `c` and holds no other character |
| `Inventory.Expand` | app/Http/Controllers/PuzzleController.php:155-158 | the written-out table holds only letters that are keys of the table |
| `Inventory.ExpandCounts` | app/Http/Controllers/PuzzleController.php:155-158 | the expanded letters hold each letter exactly as often as the table counts it; their number is the sum of the counts |
| `Inventory.ExpandSorted` | app/Http/Controllers/PuzzleController.php:156-158 | the expanded letters come in ascending order, the order of the table |
| `Inventory.StrSplit` | app/Http/Controllers/PuzzleController.php:159 | `str_split` gives one one-character string per character, in order |
| `Inventory.StrSplitCounts` | app/Http/Controllers/PuzzleController.php:159 | splitting keeps every character, as a one-character string, as often as it occurs |
| `Inventory.RemainingLettersAsString` | app/Http/Controllers/PuzzleController.php:152-160 | the accumulating loop returns exactly the split expansion of the table |
| `Leaderboard.RecordIfFirst` | app/Http/Controllers/PuzzleController.php:90-93 | insert-if-absent: an existing word keeps its score, a new word gets the given score, and no other entry changes |
| `Leaderboard.FirstWriteWins` | app/Http/Controllers/PuzzleController.php:90-93 | recording a word a second time, with any score, leaves the board as the first record made it |
| `Leaderboard.Board.FirstOrCreate` | app/Http/Controllers/PuzzleController.php:90-93 | the board after `firstOrCreate` is the insert-if-absent of the word and its score |
| `PuzzleSession.IsValidEnglishWord` | app/Http/Controllers/PuzzleController.php:135-143 | a word is valid exactly when the dictionary answers with status 200; any other status or a thrown exception rejects it |
| `PuzzleSession.Start` | app/Http/Controllers/PuzzleController.php:31-37 | a new session counts each letter of the pool exactly as often as it occurs, stores only positive counts, and has no words, score 0 and is open |
| `PuzzleSession.Submit` | app/Http/Controllers/PuzzleController.php:51-96 | a rejected submission leaves the session exactly as it was; an accepted one answers with the new score, which never decreases, and leaves the session open |
| `PuzzleSession.StartInv` | app/Http/Controllers/PuzzleController.php:31-37 | a new session over lower-case letters has remaining counts equal to the letters' counts, no words and score 0; it satisfies the invariant |
| `PuzzleSession.FittingWordIsLower` | app/Http/Controllers/PuzzleController.php:76 | a word that fits in the remaining counts is made of `a`-`z` only, since the counts only ever hold puzzle letters |
| `PuzzleSession.LowerWordIsAscii` | app/Http/Controllers/PuzzleController.php:88 | for a word of `a`-`z`, `strlen` is its length |
| `PuzzleSession.AcceptKeepsInv` | app/Http/Controllers/PuzzleController.php:85-88 | taking an unused word's letters out, appending the word and adding its `strlen` keeps the invariant |
| `PuzzleSession.SubmitPreservesInv` | app/Http/Controllers/PuzzleController.php:75-89 | every submission keeps the invariant: remaining = pool letters minus the used words' letters, counts positive, used words distinct and lower-case, score = sum of their lengths |
| `PuzzleSession.SubmitCheckOrder` | app/Http/Controllers/PuzzleController.php:58-77 | the order is no open session, then duplicate, then dictionary, then letters; the first failure decides the answer and changes nothing; a lookup that throws means rejection |
| `PuzzleSession.SubmitAccepts` | app/Http/Controllers/PuzzleController.php:85-88 | a word passing every check is appended, the debited counts are stored and its `strlen` is added to the score |
| `PuzzleSession.NotEnoughLettersExactly` | app/Http/Controllers/PuzzleController.php:75-78 | past the first checks, "Not enough letters" is answered exactly when some letter occurs in the word more often than it remains, and acceptance exactly otherwise |
| `PuzzleSession.AcceptedSubmit` | app/Http/Controllers/PuzzleController.php:85-88 | an accepted word is lower-case; it is appended, its letters leave the counts and its length is added to the score |
| `PuzzleSession.ResubmitIsDuplicate` | app/Http/Controllers/PuzzleController.php:66-68 | resubmitting an accepted word, in any spelling with the same normal form, is answered "Word already used" and changes nothing |
| `PuzzleSession.UsedLettersSize` | app/Http/Controllers/PuzzleController.php:88 | the used words hold as many letters as the sum of their lengths |
| `PuzzleSession.RemainingMatchesScore` | app/Http/Controllers/PuzzleController.php:104-114 | the remaining counts, and the letter list `endPuzzle` returns, number the pool length minus the score |
| `PuzzleSession.End` | app/Http/Controllers/PuzzleController.php:106-108 | ending sets the completed flag and keeps the counts, the words and the score |
| `PuzzleSession.Summarize` | app/Http/Controllers/PuzzleController.php:110-114 | the summary carries the session's score and words, and one entry per remaining unit count |
| `PuzzleSession.EndClosesSession` | app/Http/Controllers/PuzzleController.php:104-114 | for every session, ending sets the flag and keeps score, words, counts and summary; ending again changes nothing; every later submit finds no open session |
| `PuzzleSession.EndKeepsInv` | app/Http/Controllers/PuzzleController.php:106-108 | ending a session keeps the invariant |
| `PuzzleSession.SummaryLetters` | app/Http/Controllers/PuzzleController.php:113 | the summary lists one one-letter string per remaining unit, each letter exactly its count times, in ascending order |
| `PuzzleSession.Session.constructor` | app/Http/Controllers/PuzzleController.php:27-37 | `startPuzzle` shapes the letters and opens a session on them, which satisfies the invariant |
| `PuzzleSession.Session.SubmitWord` | app/Http/Controllers/PuzzleController.php:51-96 | the method with early returns answers and updates the record exactly as `Submit` does; it writes the leaderboard only on acceptance, and keeps the invariant |
| `PuzzleSession.Session.Record` | app/Http/Controllers/PuzzleController.php:85-93 | writing an accepted word stores the debited counts, appends the word, adds its `strlen` to the score, leaves the completed flag alone and inserts the word into the leaderboard only if it is absent |
| `PuzzleSession.Session.EndPuzzle` | app/Http/Controllers/PuzzleController.php:104-115 | the record becomes `End` of the old one, and the answer is the summary of score, words and expanded letters |

## Left out

- HTTP request validation (`student_name`, `puzzle_id`, `word`), JSON responses and status codes are not modelled. In particular the `required` rule on `word` is not modelled, so the model lets an empty normalised word reach the dictionary check.
- Looking a session up by `puzzle_id` is not modelled. A `Session` object stands for the row the lookup finds, so only the "session already completed" case of the not-found answer is modelled.
- The dictionary service is foreign network I/O. It is a function parameter giving an HTTP status or a thrown exception, and logging is not modelled.
- `Str::random(28)` is randomness. The random string is a parameter of `Session.constructor` and `ShapePool`.
- Eloquent persistence (`create`, `save`), the puzzle row, the `student_name` column and JSON (de)serialisation are not modelled. The model keeps the in-memory values.
- The `leaderboard()` endpoint (top 10 by score) is a database query and is not modelled.
- Concurrent submissions to one session, and the read-modify-write race between them, are not modelled. The model is sequential.
