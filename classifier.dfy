/** The meaning of a guess verdict, stated without the sentinel-rewriting
    loops of `checkLettersPositions`: which positions are correct, which are
    in the wrong location, and the facts the game relies on (no double
    counting of repeated letters, disjointness, exact matches). */
module Classifier {

  /** The state a tile is given when it flips. */
  datatype TileState = Correct | WrongLocation | Wrong

  /** The contents of the two index containers after a guess is classified. */
  datatype Verdict = Verdict(correctIndexes: seq<nat>, wrongLocationIndexes: seq<nat>)

  function Min(a: int, b: int): int
  {
    if a <= b then a else b
  }

  predicate StrictlyIncreasing(s: seq<nat>)
  {
    forall a, b :: 0 <= a < b < |s| ==> s[a] < s[b]
  }

  /** Positions below `n` where guess and target hold the same letter `c`. */
  function MatchCount(guess: string, target: string, c: char, n: nat): nat
    requires n <= |guess| == |target|
  {
    if n == 0 then 0
    else MatchCount(guess, target, c, n - 1)
         + (if guess[n - 1] == c && guess[n - 1] == target[n - 1] then 1 else 0)
  }

  /** Positions below `n` where the guess holds `c` and the target holds something else. */
  function UnmatchedGuessCount(guess: string, target: string, c: char, n: nat): nat
    requires n <= |guess| == |target|
  {
    if n == 0 then 0
    else UnmatchedGuessCount(guess, target, c, n - 1)
         + (if guess[n - 1] == c && guess[n - 1] != target[n - 1] then 1 else 0)
  }

  /** Positions below `n` where the target holds `c` and the guess holds something else:
      the occurrences of `c` still available once exact matches are consumed. */
  function UnmatchedTargetCount(guess: string, target: string, c: char, n: nat): nat
    requires n <= |guess| == |target|
  {
    if n == 0 then 0
    else UnmatchedTargetCount(guess, target, c, n - 1)
         + (if target[n - 1] == c && guess[n - 1] != target[n - 1] then 1 else 0)
  }

  /** Position `i` is in the wrong location when it is not an exact match and
      fewer earlier unmatched guess positions carry the same letter than the
      target has unmatched occurrences of it: the leftmost unmatched copies of a
      letter in the guess use up the target's spare copies. */
  predicate IsWrongLocation(guess: string, target: string, i: nat)
    requires i < |guess| == |target|
  {
    guess[i] != target[i] &&
    UnmatchedGuessCount(guess, target, guess[i], i) < UnmatchedTargetCount(guess, target, guess[i], |target|)
  }

  /** The intended state of position `i`. */
  function StateAt(guess: string, target: string, i: nat): TileState
    requires i < |guess| == |target|
  {
    if guess[i] == target[i] then Correct
    else if IsWrongLocation(guess, target, i) then WrongLocation
    else Wrong
  }

  /** The positions below `n` whose intended state is `s`, in ascending order. */
  function PositionsIn(guess: string, target: string, s: TileState, n: nat): (r: seq<nat>)
    requires n <= |guess| == |target|
    ensures forall k :: 0 <= k < |r| ==> r[k] < n
  {
    if n == 0 then []
    else PositionsIn(guess, target, s, n - 1) + (if StateAt(guess, target, n - 1) == s then [n - 1] else [])
  }

  /** The verdict `checkLettersPositions` is meant to leave behind. */
  function Classify(guess: string, target: string): Verdict
    requires |guess| == |target|
  {
    Verdict(PositionsIn(guess, target, Correct, |guess|), PositionsIn(guess, target, WrongLocation, |guess|))
  }

  /** `0, 1, ..., n - 1`. */
  function Range(n: nat): (r: seq<nat>)
    ensures |r| == n && forall k :: 0 <= k < n ==> r[k] == k
  {
    if n == 0 then [] else Range(n - 1) + [n - 1]
  }

  /** The letters of `word` at the positions listed in `idx`, in list order. */
  function LettersAt(word: string, idx: seq<nat>): string
    requires forall k :: 0 <= k < |idx| ==> idx[k] < |word|
  {
    seq(|idx|, k requires 0 <= k < |idx| => word[idx[k]])
  }

  /** The decision in `flipTile`: correct is checked first, then wrong location. */
  function TileStateOf(index: nat, correctIndexes: seq<nat>, wrongLocationIndexes: seq<nat>): (s: TileState)
    ensures s == Correct <==> index in correctIndexes
    ensures s == WrongLocation <==> index !in correctIndexes && index in wrongLocationIndexes
    ensures s == Wrong <==> index !in correctIndexes && index !in wrongLocationIndexes
  {
    if index in correctIndexes then Correct
    else if index in wrongLocationIndexes then WrongLocation
    else Wrong
  }

  // ---------------------------------------------------------------------
  // Shape of the two index lists

  lemma {:induction false} PositionsInSpec(guess: string, target: string, s: TileState, n: nat)
    requires n <= |guess| == |target|
    ensures forall i: nat :: i in PositionsIn(guess, target, s, n) <==> i < n && StateAt(guess, target, i) == s
    ensures StrictlyIncreasing(PositionsIn(guess, target, s, n))
  {
    if n > 0 {
      PositionsInSpec(guess, target, s, n - 1);
    }
  }

  lemma PositionsInMember(guess: string, target: string, s: TileState, n: nat, i: nat)
    requires n <= |guess| == |target|
    ensures i in PositionsIn(guess, target, s, n) <==> i < n && StateAt(guess, target, i) == s
  {
    PositionsInSpec(guess, target, s, n);
  }

  /** The correct indexes are exactly the positions where guess and target agree,
      listed once each in ascending order. */
  lemma CorrectIndexesExact(guess: string, target: string)
    requires |guess| == |target|
    ensures var v := Classify(guess, target);
      (forall i: nat :: i in v.correctIndexes <==> i < |guess| && guess[i] == target[i]) &&
      StrictlyIncreasing(v.correctIndexes)
  {
    PositionsInSpec(guess, target, Correct, |guess|);
  }

  /** The wrong-location indexes are exactly the positions `IsWrongLocation` picks,
      in ascending order, all below the word length. */
  lemma WrongLocationIndexesExact(guess: string, target: string)
    requires |guess| == |target|
    ensures var v := Classify(guess, target);
      (forall i: nat :: i in v.wrongLocationIndexes <==> i < |guess| && IsWrongLocation(guess, target, i)) &&
      StrictlyIncreasing(v.wrongLocationIndexes) &&
      forall k :: 0 <= k < |v.wrongLocationIndexes| ==> v.wrongLocationIndexes[k] < |guess|
  {
    PositionsInSpec(guess, target, WrongLocation, |guess|);
  }

  /** No position is both correct and in the wrong location. */
  lemma IndexesDisjoint(guess: string, target: string)
    requires |guess| == |target|
    ensures var v := Classify(guess, target);
      forall i: nat :: !(i in v.correctIndexes && i in v.wrongLocationIndexes)
  {
    PositionsInSpec(guess, target, Correct, |guess|);
    PositionsInSpec(guess, target, WrongLocation, |guess|);
  }

  /** The precedence of `flipTile` gives each position the state its letter deserves. */
  lemma TileStateMeaning(guess: string, target: string, i: nat)
    requires i < |guess| == |target|
    ensures var v := Classify(guess, target);
      var s := TileStateOf(i, v.correctIndexes, v.wrongLocationIndexes);
      (s == Correct <==> guess[i] == target[i]) &&
      (s == WrongLocation <==> IsWrongLocation(guess, target, i)) &&
      (s == Wrong <==> guess[i] != target[i] && !IsWrongLocation(guess, target, i))
  {
    PositionsInSpec(guess, target, Correct, |guess|);
    PositionsInSpec(guess, target, WrongLocation, |guess|);
  }

  // ---------------------------------------------------------------------
  // No double counting

  lemma LettersAtAppend(word: string, a: seq<nat>, b: seq<nat>)
    requires forall k :: 0 <= k < |a| ==> a[k] < |word|
    requires forall k :: 0 <= k < |b| ==> b[k] < |word|
    ensures LettersAt(word, a + b) == LettersAt(word, a) + LettersAt(word, b)
  {
  }

  lemma {:induction false} GuessLetterCount(guess: string, target: string, c: char, n: nat)
    requires n <= |guess| == |target|
    ensures multiset(guess[..n])[c] == MatchCount(guess, target, c, n) + UnmatchedGuessCount(guess, target, c, n)
  {
    if n > 0 {
      GuessLetterCount(guess, target, c, n - 1);
      assert guess[..n] == guess[..n - 1] + [guess[n - 1]];
    }
  }

  lemma {:induction false} TargetLetterCount(guess: string, target: string, c: char, n: nat)
    requires n <= |guess| == |target|
    ensures multiset(target[..n])[c] == MatchCount(guess, target, c, n) + UnmatchedTargetCount(guess, target, c, n)
  {
    if n > 0 {
      TargetLetterCount(guess, target, c, n - 1);
      assert target[..n] == target[..n - 1] + [target[n - 1]];
    }
  }

  /** Extending the prefix by one position adds that position's letter to the
      flagged letters of its own state and nothing else. */
  lemma FlaggedStep(guess: string, target: string, s: TileState, c: char, i: nat)
    requires i < |guess| == |target|
    ensures multiset(LettersAt(guess, PositionsIn(guess, target, s, i + 1)))[c]
            == multiset(LettersAt(guess, PositionsIn(guess, target, s, i)))[c]
               + (if StateAt(guess, target, i) == s && guess[i] == c then 1 else 0)
  {
    var p := PositionsIn(guess, target, s, i);
    var e: seq<nat> := if StateAt(guess, target, i) == s then [i] else [];
    LettersAtAppend(guess, p, e);
    assert LettersAt(guess, e) == if StateAt(guess, target, i) == s then [guess[i]] else [];
  }

  /** Among the first `n` positions, the flagged copies of `c` are its exact
      matches plus as many unmatched copies as the target can still supply. */
  lemma {:induction false} FlaggedCount(guess: string, target: string, c: char, n: nat)
    requires n <= |guess| == |target|
    ensures multiset(LettersAt(guess, PositionsIn(guess, target, Correct, n)))[c]
            + multiset(LettersAt(guess, PositionsIn(guess, target, WrongLocation, n)))[c]
            == MatchCount(guess, target, c, n)
               + Min(UnmatchedGuessCount(guess, target, c, n), UnmatchedTargetCount(guess, target, c, |target|))
  {
    if n > 0 {
      var i := n - 1;
      FlaggedCount(guess, target, c, i);
      FlaggedStep(guess, target, Correct, c, i);
      FlaggedStep(guess, target, WrongLocation, c, i);
      var ug := UnmatchedGuessCount(guess, target, c, i);
      var ut := UnmatchedTargetCount(guess, target, c, |target|);
      var correct := multiset(LettersAt(guess, PositionsIn(guess, target, Correct, i)))[c];
      var wrongLocation := multiset(LettersAt(guess, PositionsIn(guess, target, WrongLocation, i)))[c];
      assert correct + wrongLocation == MatchCount(guess, target, c, i) + Min(ug, ut);
      if guess[i] != c {
        assert UnmatchedGuessCount(guess, target, c, n) == ug;
        assert MatchCount(guess, target, c, n) == MatchCount(guess, target, c, i);
      } else if guess[i] == target[i] {
        assert StateAt(guess, target, i) == Correct;
        assert UnmatchedGuessCount(guess, target, c, n) == ug;
        assert MatchCount(guess, target, c, n) == MatchCount(guess, target, c, i) + 1;
      } else {
        assert UnmatchedGuessCount(guess, target, c, n) == ug + 1;
        assert MatchCount(guess, target, c, n) == MatchCount(guess, target, c, i);
        if ug < ut {
          assert StateAt(guess, target, i) == WrongLocation;
          assert Min(ug + 1, ut) == Min(ug, ut) + 1;
        } else {
          assert StateAt(guess, target, i) == Wrong;
          assert Min(ug + 1, ut) == Min(ug, ut);
        }
      }
    }
  }

  /** The letters flagged (correct or wrong location) form the multiset
      intersection of guess and target: for each letter, min(count in guess,
      count in target). In particular no letter is flagged more often than the
      target contains it. */
  lemma NoDoubleCounting(guess: string, target: string)
    requires |guess| == |target|
    ensures var v := Classify(guess, target);
      multiset(LettersAt(guess, v.correctIndexes + v.wrongLocationIndexes)) == multiset(guess) * multiset(target)
    ensures var v := Classify(guess, target);
      multiset(LettersAt(guess, v.correctIndexes + v.wrongLocationIndexes)) <= multiset(target)
  {
    var v := Classify(guess, target);
    var flagged := multiset(LettersAt(guess, v.correctIndexes + v.wrongLocationIndexes));
    LettersAtAppend(guess, v.correctIndexes, v.wrongLocationIndexes);
    assert guess[..|guess|] == guess;
    assert target[..|target|] == target;
    forall c: char
      ensures flagged[c] == (multiset(guess) * multiset(target))[c]
    {
      FlaggedCount(guess, target, c, |guess|);
      GuessLetterCount(guess, target, c, |guess|);
      TargetLetterCount(guess, target, c, |target|);
    }
    assert flagged == multiset(guess) * multiset(target);
  }

  // ---------------------------------------------------------------------
  // Special cases

  lemma {:induction false} SelfPositions(word: string, n: nat)
    requires n <= |word|
    ensures PositionsIn(word, word, Correct, n) == Range(n)
    ensures PositionsIn(word, word, WrongLocation, n) == []
  {
    if n > 0 {
      SelfPositions(word, n - 1);
    }
  }

  /** Classifying the target against itself: every position correct, none in the wrong location. */
  lemma ClassifySelf(target: string)
    ensures Classify(target, target) == Verdict(Range(|target|), [])
  {
    SelfPositions(target, |target|);
  }

  /** Every position is correct exactly when the guess is the target. */
  lemma AllCorrectIff(guess: string, target: string)
    requires |guess| == |target|
    ensures Classify(guess, target).correctIndexes == Range(|guess|) <==> guess == target
  {
    if guess == target {
      ClassifySelf(target);
    } else {
      CorrectIndexesExact(guess, target);
      var i :| 0 <= i < |guess| && guess[i] != target[i];
      assert Range(|guess|)[i] == i;
      assert i !in Classify(guess, target).correctIndexes;
    }
  }

  lemma {:induction false} UnmatchedTargetAbsent(guess: string, target: string, c: char, n: nat)
    requires n <= |guess| == |target|
    requires forall p :: 0 <= p < n ==> target[p] != c
    ensures UnmatchedTargetCount(guess, target, c, n) == 0
  {
    if n > 0 {
      UnmatchedTargetAbsent(guess, target, c, n - 1);
    }
  }

  lemma {:induction false} PositionsInNone(guess: string, target: string, s: TileState, n: nat)
    requires n <= |guess| == |target|
    requires forall i :: 0 <= i < n ==> StateAt(guess, target, i) != s
    ensures PositionsIn(guess, target, s, n) == []
  {
    if n > 0 {
      PositionsInNone(guess, target, s, n - 1);
    }
  }

  /** A guess sharing no letter with the target gets no correct and no wrong-location position. */
  lemma NoCommonLetters(guess: string, target: string)
    requires |guess| == |target|
    requires forall i, j :: 0 <= i < |guess| && 0 <= j < |target| ==> guess[i] != target[j]
    ensures Classify(guess, target) == Verdict([], [])
  {
    forall i | 0 <= i < |guess|
      ensures StateAt(guess, target, i) == Wrong
    {
      UnmatchedTargetAbsent(guess, target, guess[i], |target|);
    }
    PositionsInNone(guess, target, Correct, |guess|);
    PositionsInNone(guess, target, WrongLocation, |guess|);
  }

  /** Repeated letters: against target "speed", the guess "erase" has no exact
      match; its first and last `e` and its `s` are in the wrong location, while
      `r` and `a` are absent. */
  lemma SpeedErase()
    ensures Classify("erase", "speed") == Verdict([], [0, 3, 4])
  {
    var g, t := "erase", "speed";
    assert UnmatchedTargetCount(g, t, 'e', 5) == 2;
    assert UnmatchedTargetCount(g, t, 's', 5) == 1;
    assert UnmatchedTargetCount(g, t, 'r', 5) == 0;
    assert UnmatchedTargetCount(g, t, 'a', 5) == 0;
    assert UnmatchedGuessCount(g, t, 'e', 4) == 1;
    assert StateAt(g, t, 0) == WrongLocation;
    assert StateAt(g, t, 1) == Wrong;
    assert StateAt(g, t, 2) == Wrong;
    assert StateAt(g, t, 3) == WrongLocation;
    assert StateAt(g, t, 4) == WrongLocation;
  }
}
