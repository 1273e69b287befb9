/**
 * The checksum check `mnemonic_to_entropy`: every word becomes its first
 * position in the wordlist, written as an 11-bit numeral; the joined bit
 * string is split at floor(len * 32 / 33) into entropy and checksum; the
 * entropy bits are packed into big-endian bytes and hashed; the mnemonic is
 * valid when the checksum equals the leading bits of the digest.
 *
 * The function follows the Python pipeline step by step, including the two
 * exceptions it lets escape. MnemonicBits and Bip39ChecksumValid state the
 * rule of BIP-0039 ("Generating the mnemonic") directly, and
 * CheckIsBip39Checksum proves the two agree.
 */
module Checksum {
  import opened Wrappers
  import opened Encoding

  type Word = string

  /** A SHA-256 digest: 32 bytes. */
  type Digest = s: seq<byte> | |s| == 32 witness seq(32, _ => 0)

  /** SHA-256 (FIPS 180-4), a library call outside the model: only its output length is known. */
  type Sha256 = seq<byte> -> Digest

  /** The exceptions that escape the check (it catches only the ValueError of a word missing from the list). */
  datatype PyError =
    | EmptyBitString   // int('', 2) raises ValueError when the mnemonic has no words
    | EntropyOverflow  // int.to_bytes raises OverflowError when the entropy bits fill a partial byte

  /** What a call of the check does: return a boolean or raise. */
  datatype Outcome = Returned(valid: bool) | Raised(error: PyError)

  /** Number of bits per word: BIP-0039 wordlists hold 2^11 words. */
  const WordBitCount := 11

  /** `wordlist.index(w)`: the first position of w, None for the ValueError when w is absent. */
  function IndexOf(wordlist: seq<Word>, w: Word): (r: Option<nat>)
    ensures r.None? <==> w !in wordlist
    ensures r.Some? ==> r.value < |wordlist| && wordlist[r.value] == w
    ensures r.Some? ==> forall j :: 0 <= j < r.value ==> wordlist[j] != w
  {
    if wordlist == [] then None
    else if wordlist[0] == w then Some(0)
    else match IndexOf(wordlist[1..], w)
      case None => None
      case Some(i) => Some(i + 1)
  }

  /** `[wordlist.index(w) for w in words]`, None when the comprehension raises ValueError. */
  function Indexes(wordlist: seq<Word>, words: seq<Word>): (r: Option<seq<nat>>)
    ensures r.None? <==> exists k :: 0 <= k < |words| && words[k] !in wordlist
    ensures r.Some? ==> |r.value| == |words|
    ensures r.Some? ==> forall k :: 0 <= k < |words| ==> IndexOf(wordlist, words[k]) == Some(r.value[k])
  {
    if words == [] then Some([])
    else match (IndexOf(wordlist, words[0]), Indexes(wordlist, words[1..]))
      case (Some(i), Some(rest)) => Some([i] + rest)
      case (None, _) => None
      case (_, None) =>
        assert forall k :: 0 <= k < |words| - 1 ==> words[1..][k] == words[k + 1];
        None
  }

  /** `bin(i)[2:].zfill(11)`. */
  function WordBits(i: nat): seq<Bit>
  {
    ZFill(Binary(i), WordBitCount, 0)
  }

  /** `''.join(bin(i)[2:].zfill(11) for i in idx)`. */
  function JoinBits(idx: seq<nat>): seq<Bit>
  {
    if idx == [] then [] else WordBits(idx[0]) + JoinBits(idx[1..])
  }

  /** `(len(bits) * 32) // 33`. */
  function EntropyLength(bitCount: nat): (n: nat)
    ensures n <= bitCount
  {
    bitCount * 32 / 33
  }

  /** Python's `s[:n]` for n >= 0: it stops at the end of s. */
  function Prefix<T>(s: seq<T>, n: nat): (r: seq<T>)
    ensures |r| == if n <= |s| then n else |s|
    ensures r <= s
  {
    if n <= |s| then s[..n] else s
  }

  /** `mnemonic_to_entropy(words)`. */
  function MnemonicToEntropy(wordlist: seq<Word>, words: seq<Word>, sha: Sha256): (r: Outcome)
    ensures (exists k :: 0 <= k < |words| && words[k] !in wordlist) ==> r == Returned(false)
    ensures words == [] ==> r == Raised(EmptyBitString)
  {
    match Indexes(wordlist, words)
    case None => Returned(false)
    case Some(idx) => CheckIndexes(idx, sha)
  }

  /** The part of `mnemonic_to_entropy` after the words have become indexes. */
  function CheckIndexes(idx: seq<nat>, sha: Sha256): Outcome
  {
    var bits := JoinBits(idx);
    var entropyLength := EntropyLength(|bits|);
    var entropyBits := bits[..entropyLength];
    var checksumBits := bits[entropyLength..];
    match ParseBinary(entropyBits)
    case None => Raised(EmptyBitString)
    case Some(v) =>
      match ToBytes(v, entropyLength / 8)
      case None => Raised(EntropyOverflow)
      case Some(entropyBytes) =>
        var hashBits := ZFill(Binary(FromBytes(sha(entropyBytes))), 256, 0);
        Returned(checksumBits == Prefix(hashBits, |checksumBits|))
  }

  /* ---------------------------------------------------------------------- */
  /* BIP-0039 reference                                                      */
  /* ---------------------------------------------------------------------- */

  /** BIP-0039: the bit string of a mnemonic, each word index as 11 bits, most significant first. */
  function MnemonicBits(idx: seq<nat>): (bits: seq<Bit>)
    ensures |bits| == WordBitCount * |idx|
  {
    if idx == [] then [] else FixedBits(idx[0], WordBitCount) + MnemonicBits(idx[1..])
  }

  /**
   * BIP-0039, "Generating the mnemonic": a mnemonic of 3m words carries
   * ENT = 32m entropy bits followed by CS = m checksum bits, and the checksum
   * is the first CS bits of SHA-256 of the entropy bytes.
   */
  predicate Bip39ChecksumValid(idx: seq<nat>, sha: Sha256)
    requires |idx| % 3 == 0 && |idx| <= 768
  {
    var m := |idx| / 3;
    var bits := MnemonicBits(idx);
    bits[32 * m..] == UnpackBytes(sha(PackBits(bits[..32 * m])))[..m]
  }

  /** The 11-bit groups of a bit string, read as numbers. */
  function Groups(bits: seq<Bit>): (idx: seq<nat>)
    requires |bits| % WordBitCount == 0
    ensures |idx| == |bits| / WordBitCount
  {
    if bits == [] then [] else [Value(bits[..WordBitCount])] + Groups(bits[WordBitCount..])
  }

  /* ---------------------------------------------------------------------- */
  /* Lemmas                                                                  */
  /* ---------------------------------------------------------------------- */

  predicate AllBelow(idx: seq<nat>, bound: nat)
  {
    forall k :: 0 <= k < |idx| ==> idx[k] < bound
  }

  /** `zfill(11)` gives exactly 11 bits precisely for the indexes of a 2048-word list. */
  lemma WordBitsWidth(i: nat)
    ensures |WordBits(i)| == WordBitCount <==> i < 2048
  {
    Pow2Word();
    BinaryFits(i, WordBitCount);
  }

  /** With indexes below 2048 the joined numerals are the BIP-0039 bit string. */
  lemma {:induction false} JoinBitsIsMnemonicBits(idx: seq<nat>)
    requires AllBelow(idx, 2048)
    ensures JoinBits(idx) == MnemonicBits(idx)
  {
    if idx != [] {
      Pow2Word();
      ZFillBinary(idx[0], WordBitCount);
      JoinBitsIsMnemonicBits(idx[1..]);
    }
  }

  /** Reading the 11-bit groups of a mnemonic's bit string gives back its word indexes. */
  lemma {:induction false} GroupsOfMnemonicBits(idx: seq<nat>)
    requires AllBelow(idx, 2048)
    ensures Groups(MnemonicBits(idx)) == idx
  {
    if idx != [] {
      var bits := MnemonicBits(idx);
      assert bits[..WordBitCount] == FixedBits(idx[0], WordBitCount);
      assert bits[WordBitCount..] == MnemonicBits(idx[1..]);
      Pow2Word();
      FixedBitsValue(idx[0], WordBitCount);
      GroupsOfMnemonicBits(idx[1..]);
    }
  }

  /** The t-th 11-bit group of a mnemonic's bit string is the t-th index. */
  lemma {:induction false} MnemonicBitsGroup(idx: seq<nat>, t: nat)
    requires t < |idx|
    ensures WordBitCount * t + WordBitCount <= |MnemonicBits(idx)|
    ensures MnemonicBits(idx)[WordBitCount * t..WordBitCount * t + WordBitCount] == FixedBits(idx[t], WordBitCount)
  {
    if t > 0 {
      MnemonicBitsGroup(idx[1..], t - 1);
      var bits := MnemonicBits(idx);
      assert bits == FixedBits(idx[0], WordBitCount) + MnemonicBits(idx[1..]);
      assert bits[WordBitCount * t..WordBitCount * t + WordBitCount]
          == MnemonicBits(idx[1..])[WordBitCount * (t - 1)..WordBitCount * (t - 1) + WordBitCount];
    }
  }

  lemma MnemonicSplit(m: nat)
    requires m >= 1
    ensures EntropyLength(WordBitCount * (3 * m)) == 32 * m
  {
    assert WordBitCount * (3 * m) * 32 == 33 * (32 * m);
  }

  /** On the indexes of 3m words the split falls after 32m bits and the entropy bytes are its packing. */
  lemma EntropyOfIndexes(idx: seq<nat>)
    requires AllBelow(idx, 2048)
    requires |idx| % 3 == 0 && 0 < |idx| <= 768
    ensures var bits := JoinBits(idx);
      && bits == MnemonicBits(idx)
      && EntropyLength(|bits|) == 32 * (|idx| / 3)
      && ParseBinary(bits[..EntropyLength(|bits|)]) == Some(Value(bits[..EntropyLength(|bits|)]))
      && ToBytes(Value(bits[..EntropyLength(|bits|)]), EntropyLength(|bits|) / 8)
         == Some(PackBits(bits[..EntropyLength(|bits|)]))
  {
    var m := |idx| / 3;
    JoinBitsIsMnemonicBits(idx);
    MnemonicSplit(m);
    var bits := MnemonicBits(idx);
    assert |bits| == WordBitCount * (3 * m);
    var entropyBits := bits[..32 * m];
    ToBytesOfBits(entropyBits);
    assert 32 * m / 8 == |entropyBits| / 8;
  }

  /** On the indexes of 3m words from a 2048-word list, the pipeline is the BIP-0039 checksum rule. */
  lemma CheckIndexesIsBip39(idx: seq<nat>, sha: Sha256)
    requires AllBelow(idx, 2048)
    requires |idx| % 3 == 0 && 0 < |idx| <= 768
    ensures CheckIndexes(idx, sha) == Returned(Bip39ChecksumValid(idx, sha))
  {
    var m := |idx| / 3;
    EntropyOfIndexes(idx);
    var bits := MnemonicBits(idx);
    var digest := sha(PackBits(bits[..32 * m]));
    ZFillBinaryOfBytes(digest);
    assert |bits[32 * m..]| == m;
  }

  /** Every index of a word of a list of at most 2048 words is below 2048. */
  lemma IndexesBelow(wordlist: seq<Word>, words: seq<Word>)
    requires |wordlist| <= 2048 && Indexes(wordlist, words).Some?
    ensures AllBelow(Indexes(wordlist, words).value, 2048)
  {
    var idx := Indexes(wordlist, words).value;
    forall k | 0 <= k < |idx| ensures idx[k] < 2048 {
      assert IndexOf(wordlist, words[k]) == Some(idx[k]);
    }
  }

  /**
   * For a mnemonic of 3m words (BIP-0039 uses m = 4..8) and a wordlist of at
   * most 2048 words, the check returns false on an unknown word and otherwise
   * returns exactly the BIP-0039 checksum rule; it never raises.
   */
  lemma CheckIsBip39Checksum(wordlist: seq<Word>, words: seq<Word>, sha: Sha256)
    requires |wordlist| <= 2048
    requires |words| % 3 == 0 && 0 < |words| <= 768
    ensures Indexes(wordlist, words).None? ==> MnemonicToEntropy(wordlist, words, sha) == Returned(false)
    ensures Indexes(wordlist, words).Some? ==>
      MnemonicToEntropy(wordlist, words, sha) == Returned(Bip39ChecksumValid(Indexes(wordlist, words).value, sha))
  {
    if Indexes(wordlist, words).Some? {
      IndexesBelow(wordlist, words);
      CheckIndexesIsBip39(Indexes(wordlist, words).value, sha);
    }
  }

  /**
   * A 24-word mnemonic: 264 bits, split into 256 entropy bits (32 bytes) and
   * 8 checksum bits, which are the low 8 bits of the last word's index.
   */
  lemma TwentyFourWordLayout(wordlist: seq<Word>, words: seq<Word>)
    requires |wordlist| <= 2048 && |words| == 24
    requires Indexes(wordlist, words).Some?
    ensures var bits := JoinBits(Indexes(wordlist, words).value);
      && |bits| == 264
      && EntropyLength(|bits|) == 256
      && |bits[EntropyLength(|bits|)..]| == 8
      && bits[EntropyLength(|bits|)..] == FixedBits(Indexes(wordlist, words).value[23], 8)
      && Groups(bits) == Indexes(wordlist, words).value
  {
    var idx := Indexes(wordlist, words).value;
    IndexesBelow(wordlist, words);
    JoinBitsIsMnemonicBits(idx);
    GroupsOfMnemonicBits(idx);
    MnemonicSplit(8);
    LastWordChecksumBits(idx);
  }

  /** In a 24-word mnemonic the last 8 bits are the low 8 bits of the last index. */
  lemma LastWordChecksumBits(idx: seq<nat>)
    requires |idx| == 24
    ensures MnemonicBits(idx)[256..] == FixedBits(idx[23], 8)
  {
    var bits := MnemonicBits(idx);
    MnemonicBitsGroup(idx, 23);
    FixedBitsSuffix(idx[23], 8, 3);
    assert bits[256..] == bits[253..264][3..];
  }

  /**
   * A one-word mnemonic has 11 bits, split 10/1. Its 10 entropy bits are
   * converted to a single byte, which overflows once the index reaches 512.
   */
  lemma SingleWordOverflow(wordlist: seq<Word>, w: Word, sha: Sha256)
    requires |wordlist| <= 2048 && w in wordlist
    ensures IndexOf(wordlist, w).value >= 512 ==> MnemonicToEntropy(wordlist, [w], sha) == Raised(EntropyOverflow)
    ensures IndexOf(wordlist, w).value < 512 ==> MnemonicToEntropy(wordlist, [w], sha).Returned?
  {
    var i := IndexOf(wordlist, w).value;
    var r := Indexes(wordlist, [w]);
    assert [w][0] == w;
    assert r.Some?;
    assert IndexOf(wordlist, [w][0]) == Some(r.value[0]);
    assert r.value == [i];
    SingleIndexCheck(i, sha);
  }

  lemma SingleIndexCheck(i: nat, sha: Sha256)
    requires i < 2048
    ensures i >= 512 ==> CheckIndexes([i], sha) == Raised(EntropyOverflow)
    ensures i < 512 ==> CheckIndexes([i], sha).Returned?
  {
    Pow2Word();
    Pow2Byte();
    var bits := JoinBits([i]);
    assert bits == WordBits(i) + JoinBits([]);
    ZFillBinary(i, WordBitCount);
    assert bits == FixedBits(i, WordBitCount);
    var entropyLength := EntropyLength(|bits|);
    assert entropyLength == 10;
    assert bits[..entropyLength] == FixedBits(i / 2, 10);
    assert Pow2(11) == 2 * Pow2(10);
    FixedBitsValue(i / 2, 10);
    assert ParseBinary(bits[..entropyLength]) == Some(i / 2);
    assert entropyLength / 8 == 1;
    assert ToBytes(i / 2, 1).None? <==> i >= 512;
  }
}
