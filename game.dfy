/** The game's state and decisions once the page is stripped away: guess
    validation, the letter classifier that fills the two index containers,
    and the win/lose decision. */
module Game {
  import opened Strings
  import opened Classifier

  /** Why a submitted row is refused: the alerts "Not enough letters" and "Not a word". */
  datatype RejectReason = NotEnoughLetters | NotAWord

  datatype Validation = Reject(reason: RejectReason) | Accept

  /** The checks of `submitGuess`, in order: the length first, then the dictionary. */
  function ValidateGuess(candidate: string, wordLength: nat, dictionary: set<string>): (v: Validation)
    ensures v == Reject(NotEnoughLetters) <==> |candidate| != wordLength
    ensures v == Reject(NotAWord) <==> |candidate| == wordLength && candidate !in dictionary
    ensures v == Accept <==> |candidate| == wordLength && candidate in dictionary
  {
    if |candidate| != wordLength then Reject(NotEnoughLetters)
    else if candidate !in dictionary then Reject(NotAWord)
    else Accept
  }

  datatype Outcome = Won | Lost | InProgress

  /** `checkWinLose` after the `rowsUsed`-th guess of a board with `rows` rows:
      a guess equal to the target wins, even on the last row; otherwise a full
      board loses. */
  function CheckWinLose(guess: string, target: string, rowsUsed: nat, rows: nat): (o: Outcome)
    requires rowsUsed <= rows
    ensures o == Won <==> guess == target
    ensures o == Lost <==> guess != target && rowsUsed == rows
    ensures o == InProgress <==> guess != target && rowsUsed < rows
  {
    if guess == target then Won
    else if rowsUsed == rows then Lost
    else InProgress
  }

  /** A guess wins exactly when every one of its tiles is classified correct. */
  lemma WinIffAllCorrect(guess: string, target: string, rowsUsed: nat, rows: nat)
    requires |guess| == |target| && rowsUsed <= rows
    ensures CheckWinLose(guess, target, rowsUsed, rows) == Won
            <==> Classify(guess, target).correctIndexes == Range(|guess|)
  {
    AllCorrectIff(guess, target);
  }

  /** The page's state: the word data and the two module-level index containers. */
  class Board {
    const targetWord: string
    const wordLength: nat
    const dictionary: set<string>
    var correctIndexes: seq<nat>
    var wrongLocationIndexes: seq<nat>

    predicate Valid()
    {
      |targetWord| == wordLength
    }

    constructor (targetWord: string, wordLength: nat, dictionary: set<string>)
      requires |targetWord| == wordLength
      ensures Valid()
      ensures this.targetWord == targetWord && this.wordLength == wordLength && this.dictionary == dictionary
      ensures correctIndexes == [] && wrongLocationIndexes == []
    {
      this.targetWord := targetWord;
      this.wordLength := wordLength;
      this.dictionary := dictionary;
      correctIndexes := [];
      wrongLocationIndexes := [];
    }

    /** `checkLettersPositions`: empties both containers, records exact matches,
        masks them with sentinels, then lets each remaining guess letter consume
        the leftmost unconsumed copy in the target. The result depends only on
        the guess and the target, never on an earlier guess. */
    method CheckLettersPositions(guess: string)
      requires |guess| == |targetWord| && IsLowercaseWord(guess)
      modifies this
      ensures correctIndexes == Classify(guess, targetWord).correctIndexes
      ensures wrongLocationIndexes == Classify(guess, targetWord).wrongLocationIndexes
    {
      correctIndexes := [];
      wrongLocationIndexes := [];
      RecordExactMatches(guess);
      var guessVar, targetWordVar := MaskExactMatches(guess);
      RecordWrongLocations(guess, guessVar, targetWordVar);
    }

    /** First pass: push every position where guess and target agree. */
    method RecordExactMatches(guess: string)
      requires |guess| == |targetWord| && correctIndexes == []
      modifies this`correctIndexes
      ensures correctIndexes == PositionsIn(guess, targetWord, Correct, |guess|)
    {
      for index: nat := 0 to |guess|
        invariant correctIndexes == PositionsIn(guess, targetWord, Correct, index)
      {
        if guess[index] == targetWord[index] {
          correctIndexes := correctIndexes + [index];
        }
      }
    }

    /** Overwrite each exact match with '-' in a copy of the guess and with '@'
        in a copy of the target, so that neither takes part in the second pass. */
    method MaskExactMatches(guess: string) returns (guessVar: string, targetWordVar: string)
      requires |guess| == |targetWord| && correctIndexes == PositionsIn(guess, targetWord, Correct, |guess|)
      ensures guessVar == MaskedGuess(guess, targetWord)
      ensures targetWordVar == MaskedTarget(guess, targetWord)
    {
      targetWordVar := targetWord;
      guessVar := guess;
      for k: nat := 0 to |correctIndexes|
        invariant guessVar == MaskAll(guess, correctIndexes[..k], '-')
        invariant targetWordVar == MaskAll(targetWord, correctIndexes[..k], '@')
      {
        assert correctIndexes[..k + 1][..k] == correctIndexes[..k];
        guessVar := SetCharAt(guessVar, correctIndexes[k], '-');
        targetWordVar := SetCharAt(targetWordVar, correctIndexes[k], '@');
      }
      assert correctIndexes[..|correctIndexes|] == correctIndexes;
      MaskedTargetIs(guess, targetWord);
      MaskedGuessIs(guess, targetWord);
    }

    /** Second pass: an unmatched guess letter still present in the masked
        target consumes its leftmost copy and its position is pushed. */
    method RecordWrongLocations(guess: string, guessVar0: string, targetWordVar0: string)
      requires |guess| == |targetWord| && IsLowercaseWord(guess)
      requires correctIndexes == PositionsIn(guess, targetWord, Correct, |guess|) && wrongLocationIndexes == []
      requires guessVar0 == MaskedGuess(guess, targetWord) && targetWordVar0 == MaskedTarget(guess, targetWord)
      modifies this`wrongLocationIndexes
      ensures wrongLocationIndexes == PositionsIn(guess, targetWord, WrongLocation, |guess|)
    {
      var n := |guess|;
      var guessVar, targetWordVar := guessVar0, targetWordVar0;
      for index: nat := 0 to |guessVar|
        invariant wrongLocationIndexes == PositionsIn(guess, targetWord, WrongLocation, index)
        invariant guessVar == GuessPool(guess, targetWord, index)
        invariant multiset(targetWordVar) == Pool(guess, targetWord, index)
      {
        PositionsInMember(guess, targetWord, Correct, n, index);
        if index in correctIndexes {
          continue;
        }
        LowercaseNoSentinel(guess, index);
        PoolDecides(guess, targetWord, index);
        GuessPoolAt(guess, targetWord, index, index);
        if guessVar[index] in targetWordVar {
          var indexInTarget := IndexOf(targetWordVar, guessVar[index]);
          SetCharAtMultiset(targetWordVar, indexInTarget, '@');
          guessVar := SetCharAt(guessVar, index, '-');
          targetWordVar := SetCharAt(targetWordVar, indexInTarget, '@');
          wrongLocationIndexes := wrongLocationIndexes + [index];
        }
      }
    }

    /** `submitGuess` without the page: a rejected row leaves the containers
        alone; an accepted one is classified. */
    method SubmitGuess(candidate: string) returns (v: Validation)
      requires Valid() && IsLowercaseWord(candidate)
      modifies this
      ensures v == ValidateGuess(candidate, wordLength, dictionary)
      ensures v.Accept? ==>
                correctIndexes == Classify(candidate, targetWord).correctIndexes &&
                wrongLocationIndexes == Classify(candidate, targetWord).wrongLocationIndexes
      ensures v.Reject? ==> unchanged(this)
    {
      if |candidate| != wordLength {
        return Reject(NotEnoughLetters);
      }
      if candidate !in dictionary {
        return Reject(NotAWord);
      }
      CheckLettersPositions(candidate);
      v := Accept;
    }
  }

  /** `s` after `setCharAt(s, i, sentinel)` for every `i` of `marks`, in order. */
  function MaskAll(s: string, marks: seq<nat>, sentinel: char): string
  {
    if marks == [] then s
    else SetCharAt(MaskAll(s, marks[..|marks| - 1], sentinel), marks[|marks| - 1], sentinel)
  }

  /** `s` with the sentinel at each exact match among the first `m` positions. */
  function MaskedUpTo(guess: string, target: string, s: string, sentinel: char, m: nat): string
    requires m <= |guess| == |target| == |s|
  {
    seq(|s|, p requires 0 <= p < |s| => if p < m && guess[p] == target[p] then sentinel else s[p])
  }

  /** One more position: an exact match there is one more `setCharAt`. */
  lemma MaskedUpToStep(guess: string, target: string, s: string, sentinel: char, m: nat)
    requires 0 < m <= |guess| == |target| == |s|
    ensures MaskedUpTo(guess, target, s, sentinel, m)
            == if guess[m - 1] == target[m - 1]
               then SetCharAt(MaskedUpTo(guess, target, s, sentinel, m - 1), m - 1, sentinel)
               else MaskedUpTo(guess, target, s, sentinel, m - 1)
  {
    var q, t := MaskedUpTo(guess, target, s, sentinel, m - 1), MaskedUpTo(guess, target, s, sentinel, m);
    if guess[m - 1] == target[m - 1] {
      var r := SetCharAt(q, m - 1, sentinel);
      forall p | 0 <= p < |s|
        ensures r[p] == t[p]
      {
        if p != m - 1 {
          assert r[p] == q[p];
        }
      }
      assert r == t;
    } else {
      assert q == t;
    }
  }

  /** Masking one more mark is one more `setCharAt`. */
  lemma MaskAllSnoc(s: string, marks: seq<nat>, x: nat, sentinel: char)
    ensures MaskAll(s, marks + [x], sentinel) == SetCharAt(MaskAll(s, marks, sentinel), x, sentinel)
  {
    assert (marks + [x])[..|marks|] == marks;
  }

  /** Masking the first `m` positions' exact matches one `setCharAt` at a time. */
  lemma {:induction false} MaskAllMatches(guess: string, target: string, s: string, sentinel: char, m: nat)
    requires m <= |guess| == |target| == |s|
    ensures MaskAll(s, PositionsIn(guess, target, Correct, m), sentinel) == MaskedUpTo(guess, target, s, sentinel, m)
  {
    if m == 0 {
      assert MaskedUpTo(guess, target, s, sentinel, 0) == s;
    } else {
      MaskAllMatches(guess, target, s, sentinel, m - 1);
      MaskedUpToStep(guess, target, s, sentinel, m);
      var prev := PositionsIn(guess, target, Correct, m - 1);
      if guess[m - 1] == target[m - 1] {
        MaskAllSnoc(s, prev, m - 1, sentinel);
        assert PositionsIn(guess, target, Correct, m) == prev + [m - 1];
      } else {
        assert PositionsIn(guess, target, Correct, m) == prev;
      }
    }
  }

  /** The guess with every exact match replaced by the sentinel '-'. */
  function MaskedGuess(guess: string, target: string): string
    requires |guess| == |target|
  {
    MaskedUpTo(guess, target, guess, '-', |guess|)
  }

  lemma MaskedGuessIs(guess: string, target: string)
    requires |guess| == |target|
    ensures MaskAll(guess, PositionsIn(guess, target, Correct, |guess|), '-') == MaskedGuess(guess, target)
  {
    MaskAllMatches(guess, target, guess, '-', |guess|);
  }

  /** The rewritten guess once the second pass reaches `index`: every
      wrong-location position so far is masked with '-' as well. */
  function GuessPool(guess: string, target: string, index: nat): string
    requires index <= |guess| == |target|
  {
    if index == 0 then MaskedGuess(guess, target)
    else if StateAt(guess, target, index - 1) == WrongLocation
    then SetCharAt(GuessPool(guess, target, index - 1), index - 1, '-')
    else GuessPool(guess, target, index - 1)
  }

  /** The second pass has not yet touched the positions from `index` on. */
  lemma {:induction false} GuessPoolAt(guess: string, target: string, index: nat, p: nat)
    requires index <= p < |guess| == |target|
    ensures |GuessPool(guess, target, index)| == |guess|
    ensures guess[p] != target[p] ==> GuessPool(guess, target, index)[p] == guess[p]
  {
    if index > 0 {
      GuessPoolAt(guess, target, index - 1, p);
    }
  }

  /** The target with every exact match replaced by the sentinel '@'. */
  function MaskedTarget(guess: string, target: string): string
    requires |guess| == |target|
  {
    MaskedUpTo(guess, target, target, '@', |target|)
  }

  lemma MaskedTargetIs(guess: string, target: string)
    requires |guess| == |target|
    ensures MaskAll(target, PositionsIn(guess, target, Correct, |guess|), '@') == MaskedTarget(guess, target)
  {
    MaskAllMatches(guess, target, target, '@', |guess|);
  }

  /** The letters left in the rewritten target once the second pass reaches
      `index`: each wrong-location position so far has turned one copy of its
      letter into '@'. */
  ghost function Pool(guess: string, target: string, index: nat): multiset<char>
    requires index <= |guess| == |target|
  {
    if index == 0 then multiset(MaskedTarget(guess, target))
    else if StateAt(guess, target, index - 1) == WrongLocation
    then Pool(guess, target, index - 1) - multiset{guess[index - 1]} + multiset{'@'}
    else Pool(guess, target, index - 1)
  }

  /** Each real letter occurs in the masked target's prefix as often as at
      unmatched target positions of that prefix. */
  lemma {:induction false} MaskedTargetCount(guess: string, target: string, c: char, n: nat)
    requires n <= |guess| == |target|
    requires c != '@'
    ensures multiset(MaskedTarget(guess, target)[..n])[c] == UnmatchedTargetCount(guess, target, c, n)
  {
    if n > 0 {
      var m := MaskedTarget(guess, target);
      MaskedTargetCount(guess, target, c, n - 1);
      assert m[..n] == m[..n - 1] + [m[n - 1]];
    }
  }

  /** The pool holds, of each real letter, the unmatched target copies not yet
      taken by earlier unmatched guess copies. */
  lemma {:induction false} PoolCount(guess: string, target: string, c: char, index: nat)
    requires index <= |guess| == |target|
    requires c != '@'
    ensures Pool(guess, target, index)[c]
            == UnmatchedTargetCount(guess, target, c, |target|)
               - Min(UnmatchedGuessCount(guess, target, c, index), UnmatchedTargetCount(guess, target, c, |target|))
  {
    if index == 0 {
      var m := MaskedTarget(guess, target);
      MaskedTargetCount(guess, target, c, |target|);
      assert m[..|target|] == m;
    } else {
      var i := index - 1;
      PoolCount(guess, target, c, i);
      var prev := Pool(guess, target, i);
      var ug := UnmatchedGuessCount(guess, target, c, i);
      var ut := UnmatchedTargetCount(guess, target, c, |target|);
      if StateAt(guess, target, i) == WrongLocation {
        assert Pool(guess, target, index) == prev - multiset{guess[i]} + multiset{'@'};
        if guess[i] == c {
          assert ug < ut;
          assert UnmatchedGuessCount(guess, target, c, index) == ug + 1;
          assert (prev - multiset{guess[i]} + multiset{'@'})[c] == prev[c] - 1;
        } else {
          assert UnmatchedGuessCount(guess, target, c, index) == ug;
          assert (prev - multiset{guess[i]} + multiset{'@'})[c] == prev[c];
        }
      } else {
        assert Pool(guess, target, index) == prev;
        if guess[i] == c && guess[i] != target[i] {
          assert ug >= ut;
          assert UnmatchedGuessCount(guess, target, c, index) == ug + 1;
        } else {
          assert UnmatchedGuessCount(guess, target, c, index) == ug;
        }
      }
    }
  }

  /** The second pass's test `targetWordVar.includes(...)` decides exactly `IsWrongLocation`. */
  lemma PoolDecides(guess: string, target: string, index: nat)
    requires index < |guess| == |target|
    requires guess[index] != target[index] && guess[index] != '@'
    ensures guess[index] in Pool(guess, target, index) <==> IsWrongLocation(guess, target, index)
  {
    PoolCount(guess, target, guess[index], index);
  }
}
