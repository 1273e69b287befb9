/**
 * The last-word corrector `fix_mnemonic`: it overwrites the final word of the
 * mnemonic, in place, with the words that follow the original one cyclically
 * in the wordlist (offsets 1 .. n-1, n the wordlist length) and stops at the
 * first offset whose mnemonic passes the checksum check.
 */
module Corrector {
  import opened Wrappers
  import opened Checksum

  /** The result of `fix_mnemonic`: `(words, i)`, `(None, None)`, or an exception escaping the check. */
  datatype Repair = Repaired(kd: nat) | Exhausted | CheckRaised(error: PyError)

  /** `words` with its last entry replaced by w. */
  function LastReplaced(words: seq<Word>, w: Word): (r: seq<Word>)
    requires |words| > 0
    ensures |r| == |words| && r[..|r| - 1] == words[..|words| - 1] && r[|r| - 1] == w
  {
    words[..|words| - 1] + [w]
  }

  /** The mnemonic tried at offset j: last word moved j places on, cyclically, from its first position. */
  function Candidate(wordlist: seq<Word>, words: seq<Word>, j: nat): seq<Word>
    requires |words| > 0 && words[|words| - 1] in wordlist
  {
    var orig := IndexOf(wordlist, words[|words| - 1]).value;
    LastReplaced(words, wordlist[(orig + j) % |wordlist|])
  }

  /** No offset in 1 .. n-1 repairs the mnemonic. */
  predicate NoOffsetRepairs(wordlist: seq<Word>, words: seq<Word>, sha: Sha256)
    requires |words| > 0 && words[|words| - 1] in wordlist
  {
    forall j :: 1 <= j < |wordlist| ==> MnemonicToEntropy(wordlist, Candidate(wordlist, words, j), sha) == Returned(false)
  }

  /**
   * `fix_mnemonic(words)`. `tried` is the last offset the loop reached (0 when
   * the wordlist has a single word and the loop does not run).
   */
  method FixMnemonic(wordlist: seq<Word>, words: array<Word>, sha: Sha256)
    returns (fixed: array?<Word>, outcome: Repair, ghost tried: nat)
    requires words.Length > 0 && words[words.Length - 1] in wordlist
    modifies words
    ensures words[..words.Length - 1] == old(words[..words.Length - 1])
    ensures tried < |wordlist|
    ensures tried == 0 ==> words[..] == old(words[..])
    ensures tried > 0 ==> words[..] == Candidate(wordlist, old(words[..]), tried)
    ensures forall j :: 1 <= j < tried ==>
      MnemonicToEntropy(wordlist, Candidate(wordlist, old(words[..]), j), sha) == Returned(false)
    ensures outcome.Repaired? ==>
      && fixed == words && outcome.kd == tried && 1 <= tried
      && MnemonicToEntropy(wordlist, words[..], sha) == Returned(true)
    ensures outcome.Exhausted? ==>
      && fixed == null && tried == |wordlist| - 1
      && NoOffsetRepairs(wordlist, old(words[..]), sha)
    ensures outcome.CheckRaised? ==>
      && fixed == null && 1 <= tried
      && MnemonicToEntropy(wordlist, words[..], sha) == Raised(outcome.error)
  {
    ghost var original := words[..];
    var last := words.Length - 1;
    var n := |wordlist|;
    var orig := IndexOf(wordlist, words[last]).value;
    tried := 0;
    var i := 1;
    while i < n
      invariant 1 <= i && tried == i - 1 && (n > 0 ==> i <= n)
      invariant tried == 0 ==> words[..] == original
      invariant tried > 0 ==> words[..] == Candidate(wordlist, original, tried)
      invariant forall j :: 1 <= j < i ==>
        MnemonicToEntropy(wordlist, Candidate(wordlist, original, j), sha) == Returned(false)
    {
      var newIndex := (orig + i) % n;
      words[last] := wordlist[newIndex];
      tried := i;
      assert words[..] == Candidate(wordlist, original, i);
      var outcome' := MnemonicToEntropy(wordlist, words[..], sha);
      if outcome'.Raised? {
        return null, CheckRaised(outcome'.error), tried;
      }
      if outcome'.valid {
        return words, Repaired(i), tried;
      }
      forall j | 1 <= j < i + 1
        ensures MnemonicToEntropy(wordlist, Candidate(wordlist, original, j), sha) == Returned(false)
      {
        if j == i {
          assert Candidate(wordlist, original, j) == words[..];
        }
      }
      i := i + 1;
    }
    return null, Exhausted, tried;
  }

  /* ---------------------------------------------------------------------- */
  /* Lemmas about the order of the search                                    */
  /* ---------------------------------------------------------------------- */

  lemma WrapOnce(x: int, n: int)
    requires 0 < n && 0 <= x < 2 * n
    ensures x % n == if x < n then x else x - n
  {
    if x >= n {
      assert x - n == x % n by {
        assert x == n * 1 + (x - n);
      }
    }
  }

  /** Every index other than the original is reached at exactly one offset in 1 .. n-1. */
  lemma OffsetReaching(n: nat, orig: nat, k: nat) returns (j: nat)
    requires orig < n && k < n && k != orig
    ensures 1 <= j < n && (orig + j) % n == k
  {
    j := if orig < k then k - orig else k + n - orig;
    WrapOnce(orig + j, n);
  }

  /** Distinct offsets in 0 .. n-1 reach distinct indexes, so offsets 1 .. n-1 never revisit the original. */
  lemma OffsetsDistinct(n: nat, orig: nat, j1: nat, j2: nat)
    requires orig < n && j1 < j2 < n
    ensures (orig + j1) % n != (orig + j2) % n
  {
    WrapOnce(orig + j1, n);
    WrapOnce(orig + j2, n);
  }

  /**
   * An exhausted search rules out every single replacement of the last word:
   * any wordlist word other than the original leaves the check false.
   */
  lemma ExhaustedRulesOutEveryLastWord(wordlist: seq<Word>, words: seq<Word>, sha: Sha256, w: Word)
    requires |words| > 0 && words[|words| - 1] in wordlist
    requires NoOffsetRepairs(wordlist, words, sha)
    requires w in wordlist && w != words[|words| - 1]
    ensures MnemonicToEntropy(wordlist, LastReplaced(words, w), sha) == Returned(false)
  {
    var n := |wordlist|;
    var orig := IndexOf(wordlist, words[|words| - 1]).value;
    var k := IndexOf(wordlist, w).value;
    var j := OffsetReaching(n, orig, k);
    assert Candidate(wordlist, words, j) == LastReplaced(words, w);
  }

  /** With a duplicate-free wordlist, every candidate differs from the original last word. */
  lemma CandidateChangesLastWord(wordlist: seq<Word>, words: seq<Word>, j: nat)
    requires |words| > 0 && words[|words| - 1] in wordlist
    requires forall a, b :: 0 <= a < b < |wordlist| ==> wordlist[a] != wordlist[b]
    requires 1 <= j < |wordlist|
    ensures Candidate(wordlist, words, j)[|words| - 1] != words[|words| - 1]
  {
    var n := |wordlist|;
    var orig := IndexOf(wordlist, words[|words| - 1]).value;
    OffsetsDistinct(n, orig, 0, j);
    WrapOnce(orig, n);
  }
}
