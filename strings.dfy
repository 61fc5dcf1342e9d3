/** String helpers used by the guess classifier: the game's own `setCharAt`
    and the two JavaScript string built-ins it relies on (`includes` is
    Dafny's `in`, `indexOf` is IndexOf below). */
module Strings {

  /** A word typed on the board: every tile holds one of the letters `a`-`z`. */
  predicate IsLowercaseWord(s: string)
  {
    forall k :: 0 <= k < |s| ==> 'a' <= s[k] <= 'z'
  }

  /** The sentinels `-` and `@` never occur in a typed word. */
  lemma LowercaseNoSentinel(s: string, k: nat)
    requires IsLowercaseWord(s) && k < |s|
    ensures s[k] != '-' && s[k] != '@'
  {
  }

  /** `setCharAt(str, index, chr)`: replaces the character at `index`, or
      returns `str` itself when `index` is past the last character. */
  function SetCharAt(str: string, index: nat, chr: char): (r: string)
    ensures index > |str| - 1 ==> r == str
    ensures index <= |str| - 1 ==>
              |r| == |str| && r[index] == chr &&
              forall k :: 0 <= k < |str| && k != index ==> r[k] == str[k]
  {
    if index > |str| - 1 then str
    else str[..index] + [chr] + str[index + 1..]
  }

  /** Replacing one character swaps exactly one occurrence in the multiset of characters. */
  lemma SetCharAtMultiset(str: string, index: nat, chr: char)
    requires index < |str|
    ensures multiset(SetCharAt(str, index, chr)) == multiset(str) - multiset{str[index]} + multiset{chr}
  {
    assert str == str[..index] + [str[index]] + str[index + 1..];
  }

  /** `String.prototype.indexOf` for a single character: the leftmost
      position holding `c`, or -1 when there is none. */
  function IndexOf(s: string, c: char): (p: int)
    ensures -1 <= p < |s|
    ensures p == -1 <==> c !in s
    ensures p >= 0 ==> s[p] == c && c !in s[..p]
  {
    if |s| == 0 then -1
    else if s[0] == c then 0
    else
      var q := IndexOf(s[1..], c);
      if q == -1 then -1
      else
        assert s[..q + 1] == [s[0]] + s[1..][..q];
        q + 1
  }
}
