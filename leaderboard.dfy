/** The global leaderboard: one entry per distinct accepted word, written
    with `firstOrCreate`, so the first score recorded for a word stays. */
module Leaderboard {

  /** Insert-if-absent: the board after `firstOrCreate(['word' => word],
      ['score' => score])`. */
  function RecordIfFirst(board: map<string, nat>, word: string, score: nat): (r: map<string, nat>)
    ensures r.Keys == board.Keys + {word}
    ensures forall w :: w in board ==> r[w] == board[w]
    ensures word !in board ==> r[word] == score
  {
    if word in board then board else board[word := score]
  }

  /** First write wins: recording a word again, with any score, changes
      nothing. */
  lemma {:induction false} FirstWriteWins(board: map<string, nat>, word: string, first: nat, later: nat)
    ensures RecordIfFirst(RecordIfFirst(board, word, first), word, later) == RecordIfFirst(board, word, first)
    ensures RecordIfFirst(RecordIfFirst(board, word, first), word, later)[word] ==
      if word in board then board[word] else first
  {
  }

  /** The leaderboard table. */
  class Board {
    var entries: map<string, nat>

    constructor ()
      ensures entries == map[]
    {
      entries := map[];
    }

    method FirstOrCreate(word: string, score: nat)
      modifies this
      ensures entries == RecordIfFirst(old(entries), word, score)
    {
      if word !in entries {
        entries := entries[word := score];
      }
    }
  }
}
