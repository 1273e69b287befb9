# SeedGuard BIP39 checker, modelled in Dafny

SeedGuardBip39Checker reads a 24-word BIP-0039 mnemonic from the file `sguard.dat`
and checks its checksum against the English wordlist. When the checksum fails, it
tries to repair the mnemonic by replacing the last word with the words that follow
it cyclically in the wordlist. The first replacement that passes is written back,
together with its offset "KD". The whole program is one Python file,
`scr/SeedGuardBip39Checker/SeedGuardBip39Checker.py`.

This project models the four pieces of that file that carry logic:

- `encoding.dfy` (module `Encoding`): the Python built-ins the checksum check is made
  of, on bit sequences instead of strings of '0' and '1'. These are `bin(n)[2:]`,
  `str.zfill`, `int(s, 2)`, `int.to_bytes(n, 'big')` and `int.from_bytes(b, 'big')`.
  Beside them are fixed-width big-endian reference encodings, and lemmas that connect
  the two.
- `checksum.dfy` (module `Checksum`): `mnemonic_to_entropy`. It keeps the escaping
  exceptions as the `Outcome` value `Raised`. It also states the BIP-0039 checksum
  rule ("Generating the mnemonic") directly and proves that the Python pipeline
  computes it.
- `corrector.dfy` (module `Corrector`): `fix_mnemonic`, as a method that overwrites
  the last slot of an `array` in place. It is proved against the check: the first
  repairing offset, minimality, what changes and what does not, and exhaustion.
- `text.dfy` (module `Text`) and `sguard_file.dfy` (module `SguardFile`): the line
  validation of `read_sguard_file` (a loop with a `mode` variable) and the line
  format of `write_sguard_file`. The Python string operations they use are modelled
  as well: `isspace`, `split()`, `strip()`, `isdigit`, `int(s)` and `str(n)`.

The wordlist is the global `BIP39_WORDLIST` in the source. Here it is an immutable
`wordlist` parameter. SHA-256 is a library call, so it is the parameter
`sha: seq<byte> -> Digest`, where `Digest` is a 32-byte sequence. Nothing else about
the hash is assumed. Where a result holds only for lists of at most 2048 words (the
11-bit encoding), that bound is a hypothesis of the lemma, not of the function:
`zfill` pads but never truncates, and `ZFillBinaryOverflows` shows what happens
without the bound.

Facts the proofs make explicit:

- `mnemonic_to_entropy` returns `False` on an unknown word. It raises `ValueError`
  on an empty mnemonic. It raises `OverflowError` on a one-word mnemonic whose
  index is at least 512, because its 10 entropy bits are converted to one byte. For every mnemonic of 3m words (0 < m <= 256) over a list
  of at most 2048 words, it never raises, and it returns exactly the BIP-0039
  checksum rule.
- After an exhausted search (`(None, None)`) over a list of n >= 2 words, the last
  word of the caller's list is the last candidate tried, `wordlist[(orig + n - 1) % n]`,
  not the original word when the list has no duplicates.
- A file written by `write_sguard_file` cannot be read back by `read_sguard_file`.
  Its word lines have three fields and it has a 25th line "KD = k". Its position and
  code fields, or its position and word fields, do read back to the same words.

## Model

| member | source | states |
|---|---|---|
| `Encoding.ZFill` | scr/SeedGuardBip39Checker/SeedGuardBip39Checker.py:60 | `zfill` pads on the left with zeros up to the width, keeps the input as a suffix, and never shortens it |
| `Encoding.Binary` | scr/SeedGuardBip39Checker/SeedGuardBip39Checker.py:60 | `bin(n)[2:]` is a non-empty bit string that denotes n, with no leading zero when n > 0 |
| `Encoding.Value` | scr/SeedGuardBip39Checker/SeedGuardBip39Checker.py:65 | the number `int(s, 2)` reads from w bits is below 2^w |
| `Encoding.ParseBinary` | scr/SeedGuardBip39Checker/SeedGuardBip39Checker.py:65 | `int(s, 2)` fails exactly on the empty string and otherwise yields a number below 2^len(s) |
| `Encoding.ToBytes` | scr/SeedGuardBip39Checker/SeedGuardBip39Checker.py:65 | `to_bytes(len, 'big')` succeeds iff v < 2^(8·len); its bytes then have length len and read back (`from_bytes`) as v |
| `Encoding.FromBytes` | scr/SeedGuardBip39Checker/SeedGuardBip39Checker.py:67 | `int.from_bytes(h, 'big')` is below 2^(8·len(h)) |
| `Encoding.PackBits` | scr/SeedGuardBip39Checker/SeedGuardBip39Checker.py:65 | packing a whole number of bytes' worth of bits gives len/8 bytes whose bits, most significant first, are the input |
| `Encoding.BinaryFits` | scr/SeedGuardBip39Checker/SeedGuardBip39Checker.py:60 | `bin(n)[2:]` has at most w digits iff n < 2^w |
| `Encoding.ZFillBinary` | scr/SeedGuardBip39Checker/SeedGuardBip39Checker.py:60 | for n < 2^w, `bin(n)[2:].zfill(w)` is the w-bit big-endian encoding of n |
| `Encoding.ZFillBinaryOverflows` | scr/SeedGuardBip39Checker/SeedGuardBip39Checker.py:60 | for n >= 2^w, `bin(n)[2:].zfill(w)` is longer than w bits |
| `Encoding.ToBytesOfBits` | scr/SeedGuardBip39Checker/SeedGuardBip39Checker.py:65 | `int(bits, 2).to_bytes(len(bits)//8, 'big')` never overflows on a whole number of bytes and equals the big-endian packing of the bits |
| `Encoding.ZFillBinaryOfBytes` | scr/SeedGuardBip39Checker/SeedGuardBip39Checker.py:67 | `bin(int.from_bytes(h, 'big'))[2:].zfill(8·len(h))` is h read as bits, most significant first |
| `Encoding.BigEndian` | scr/SeedGuardBip39Checker/SeedGuardBip39Checker.py:65 | the `to_bytes` digits; no own contract beyond the length, `Encoding.ToBytes` and `Encoding.BigEndianRoundTrip` state it |
| `Encoding.BigEndianRoundTrip` | scr/SeedGuardBip39Checker/SeedGuardBip39Checker.py:65 | the len big-endian bytes of v < 2^(8·len) read back (`from_bytes`) as v |
| `Encoding.FixedBitsSuffix` | scr/SeedGuardBip39Checker/SeedGuardBip39Checker.py:61-63 | the last w of the w + k low-order bits of n are its w low-order bits |
| `Encoding.ValueInjective` | scr/SeedGuardBip39Checker/SeedGuardBip39Checker.py:69 | two bit strings of one length that denote one number are equal, so comparing numerals compares bits |
| `Checksum.IndexOf` | scr/SeedGuardBip39Checker/SeedGuardBip39Checker.py:56 | `list.index` gives the first position holding the word, and is absent iff the word is not in the list |
| `Checksum.Indexes` | scr/SeedGuardBip39Checker/SeedGuardBip39Checker.py:55-58 | the comprehension fails iff some word is missing; otherwise entry k is the first index of word k |
| `Checksum.WordBits` | scr/SeedGuardBip39Checker/SeedGuardBip39Checker.py:60 | `bin(i)[2:].zfill(11)`; no own contract, `Checksum.WordBitsWidth` and `Encoding.ZFillBinary` state it |
| `Checksum.JoinBits` | scr/SeedGuardBip39Checker/SeedGuardBip39Checker.py:60 | the joined numerals; no own contract, `Checksum.JoinBitsIsMnemonicBits` states it |
| `Checksum.EntropyLength` | scr/SeedGuardBip39Checker/SeedGuardBip39Checker.py:61 | the split point `len(bits)*32//33` lies within the bit string |
| `Checksum.Prefix` | scr/SeedGuardBip39Checker/SeedGuardBip39Checker.py:69 | Python's `s[:n]` is a prefix of s of length min(n, len(s)) |
| `Checksum.MnemonicToEntropy` | scr/SeedGuardBip39Checker/SeedGuardBip39Checker.py:54-69 | a word missing from the list makes the check return false, not raise; an empty mnemonic raises ValueError |
| `Checksum.CheckIndexes` | scr/SeedGuardBip39Checker/SeedGuardBip39Checker.py:60-69 | the steps after the index comprehension; no own contract, `Checksum.CheckIndexesIsBip39` and `Checksum.SingleIndexCheck` state it |
| `Checksum.MnemonicBits` | scr/SeedGuardBip39Checker/SeedGuardBip39Checker.py:60 | the BIP-0039 bit string of k word indexes has 11·k bits |
| `Checksum.Groups` | scr/SeedGuardBip39Checker/SeedGuardBip39Checker.py:60 | a bit string of 11·k bits has k 11-bit groups |
| `Checksum.WordBitsWidth` | scr/SeedGuardBip39Checker/SeedGuardBip39Checker.py:60 | `bin(i)[2:].zfill(11)` is exactly 11 bits iff i < 2048 |
| `Checksum.JoinBitsIsMnemonicBits` | scr/SeedGuardBip39Checker/SeedGuardBip39Checker.py:60 | with all indexes below 2048, the joined numerals are the concatenation of each index as 11 bits, most significant first |
| `Checksum.GroupsOfMnemonicBits` | scr/SeedGuardBip39Checker/SeedGuardBip39Checker.py:60 | reading the 11-bit groups of the bit string back gives the word indexes (round trip) |
| `Checksum.MnemonicBitsGroup` | scr/SeedGuardBip39Checker/SeedGuardBip39Checker.py:60 | bits 11t .. 11t+10 are the 11-bit encoding of the t-th index |
| `Checksum.MnemonicSplit` | scr/SeedGuardBip39Checker/SeedGuardBip39Checker.py:61 | for 3m words the split falls after 32m bits |
| `Checksum.EntropyOfIndexes` | scr/SeedGuardBip39Checker/SeedGuardBip39Checker.py:60-65 | for 3m words the entropy is 32m bits, parses, and becomes its big-endian byte packing without overflow |
| `Checksum.CheckIndexesIsBip39` | scr/SeedGuardBip39Checker/SeedGuardBip39Checker.py:60-69 | on the indexes of 3m words (< 2048) the pipeline returns exactly whether the checksum bits equal the first m bits of SHA-256 of the entropy bytes |
| `Checksum.IndexesBelow` | scr/SeedGuardBip39Checker/SeedGuardBip39Checker.py:56 | over a list of at most 2048 words every index is below 2048 |
| `Checksum.CheckIsBip39Checksum` | scr/SeedGuardBip39Checker/SeedGuardBip39Checker.py:54-69 | for 3m words and at most 2048 list words the check returns false on an unknown word and otherwise the BIP-0039 checksum verdict; it never raises |
| `Checksum.TwentyFourWordLayout` | scr/SeedGuardBip39Checker/SeedGuardBip39Checker.py:60-63 | 24 words give 264 bits, split into 256 entropy bits and 8 checksum bits; the checksum bits are the low 8 bits of the 24th index, and the 11-bit groups are the indexes |
| `Checksum.LastWordChecksumBits` | scr/SeedGuardBip39Checker/SeedGuardBip39Checker.py:62-63 | the last 8 of the 264 bits, the checksum, are the low 8 bits of the 24th word index |
| `Checksum.SingleIndexCheck` | scr/SeedGuardBip39Checker/SeedGuardBip39Checker.py:60-65 | on a single index i < 2048 the pipeline raises OverflowError iff i >= 512 (10 entropy bits into one byte), and otherwise returns a verdict |
| `Checksum.SingleWordOverflow` | scr/SeedGuardBip39Checker/SeedGuardBip39Checker.py:54-65 | a one-word mnemonic whose word has index >= 512 raises OverflowError; below 512 it returns a verdict |
| `Corrector.LastReplaced` | scr/SeedGuardBip39Checker/SeedGuardBip39Checker.py:138 | replacing `words[-1]` keeps the length and every earlier word and puts the new word last |
| `Corrector.Candidate` | scr/SeedGuardBip39Checker/SeedGuardBip39Checker.py:137-138 | the mnemonic tried at offset j; no own contract, `Corrector.LastReplaced` gives its shape and `Corrector.CandidateChangesLastWord` its last word |
| `Corrector.FixMnemonic` | scr/SeedGuardBip39Checker/SeedGuardBip39Checker.py:133-142 | only the last slot changes; on success the same array is returned with the smallest offset i in 1..n-1 whose candidate passes, the last word is `wordlist[(orig+i) % n]`, and every smaller offset failed; `(None, None)` only after every offset 1..n-1 failed; an exception from the check surfaces at the offset that raised it |
| `Corrector.WrapOnce` | scr/SeedGuardBip39Checker/SeedGuardBip39Checker.py:137 | `(orig + i) % n` wraps at most once for orig, i < n |
| `Corrector.OffsetReaching` | scr/SeedGuardBip39Checker/SeedGuardBip39Checker.py:136-137 | every wordlist index other than the original is reached by some offset in 1..n-1 |
| `Corrector.OffsetsDistinct` | scr/SeedGuardBip39Checker/SeedGuardBip39Checker.py:136-137 | distinct offsets in 0..n-1 reach distinct indexes, so the search never retries the original word or any other |
| `Corrector.ExhaustedRulesOutEveryLastWord` | scr/SeedGuardBip39Checker/SeedGuardBip39Checker.py:136-142 | after an exhausted search, no wordlist word other than the original last word makes the mnemonic pass |
| `Corrector.CandidateChangesLastWord` | scr/SeedGuardBip39Checker/SeedGuardBip39Checker.py:137-138 | with a duplicate-free wordlist every candidate differs from the original last word |
| `Text.IsSpace` | scr/SeedGuardBip39Checker/SeedGuardBip39Checker.py:88 | the characters `str.isspace()` accepts; no own contract, used by `Text.Fields` and `Text.Strip` |
| `Text.Strip` | scr/SeedGuardBip39Checker/SeedGuardBip39Checker.py:88 | `line.strip()`; no own contract, `Text.TrimStart`, `Text.TrimEnd` and `Text.FieldsOfStrip` state it |
| `Text.IsDecimal` | scr/SeedGuardBip39Checker/SeedGuardBip39Checker.py:89 | `isdigit()` on ASCII digits: non-empty and all digits; no own contract |
| `Text.DecimalValue` | scr/SeedGuardBip39Checker/SeedGuardBip39Checker.py:102 | `int(token)` on a digit string; no own contract, `Text.DecimalString` and `Text.ZFillDecimal` state its inverse |
| `Text.RunLength` | scr/SeedGuardBip39Checker/SeedGuardBip39Checker.py:88 | the leading run of non-whitespace stops at whitespace or at the end |
| `Text.Fields` | scr/SeedGuardBip39Checker/SeedGuardBip39Checker.py:88 | `split()` yields non-empty fields free of whitespace |
| `Text.TrimStart` | scr/SeedGuardBip39Checker/SeedGuardBip39Checker.py:88 | dropping leading whitespace leaves a suffix that starts with non-whitespace, and only whitespace was dropped |
| `Text.TrimEnd` | scr/SeedGuardBip39Checker/SeedGuardBip39Checker.py:88 | dropping trailing whitespace leaves a prefix that ends with non-whitespace, and only whitespace was dropped |
| `Text.FieldsOfStrip` | scr/SeedGuardBip39Checker/SeedGuardBip39Checker.py:88 | `line.strip().split()` equals `line.split()` |
| `Text.DecimalString` | scr/SeedGuardBip39Checker/SeedGuardBip39Checker.py:128 | `str(n)` is a digit string that `int` reads back as n, with no leading zero |
| `Text.ZFillDecimal` | scr/SeedGuardBip39Checker/SeedGuardBip39Checker.py:128 | `str(n).zfill(w)` is still a numeral of n, and has exactly w digits when n < 10^w |
| `Text.SplitThreeFields` | scr/SeedGuardBip39Checker/SeedGuardBip39Checker.py:88 | "a b c" with whitespace-free fields splits into exactly a, b, c |
| `SguardFile.TokenMode` | scr/SeedGuardBip39Checker/SeedGuardBip39Checker.py:95 | a four-digit token selects code mode, anything else word mode; no own contract, `SguardFile.Resolve` and `SguardFile.ReadToken` state its use |
| `SguardFile.WellShaped` | scr/SeedGuardBip39Checker/SeedGuardBip39Checker.py:88-89 | two fields with a digit first field; no own contract, `SguardFile.ReadSguardLines` rejects exactly the lines that fail it |
| `SguardFile.Resolve` | scr/SeedGuardBip39Checker/SeedGuardBip39Checker.py:102-118 | a code c resolves iff 1 <= c <= len(wordlist), to `wordlist[c-1]`; a word resolves iff listed, to itself; results are always list words |
| `SguardFile.ReadToken` | scr/SeedGuardBip39Checker/SeedGuardBip39Checker.py:93-118 | the first token fixes the mode; a token is accepted iff it matches the mode and resolves, and then yields its resolved word |
| `SguardFile.ReadSguardLines` | scr/SeedGuardBip39Checker/SeedGuardBip39Checker.py:80-120 | returns words iff there are exactly 24 lines, each of two fields with a digit first field, all tokens in one mode, all resolving; the result has 24 list words, each the resolution of its line's token |
| `SguardFile.SguardLines` | scr/SeedGuardBip39Checker/SeedGuardBip39Checker.py:126-129 | the writer emits one line per word plus the KD line |
| `SguardFile.PositionField` | scr/SeedGuardBip39Checker/SeedGuardBip39Checker.py:128 | `str(idx + 1).zfill(2)`; no own contract, `SguardFile.PositionFieldValue` states it |
| `SguardFile.IndexField` | scr/SeedGuardBip39Checker/SeedGuardBip39Checker.py:127-128 | `str(index + 1).zfill(4)`; no own contract, `SguardFile.IndexFieldResolves` states it |
| `SguardFile.WordLine` | scr/SeedGuardBip39Checker/SeedGuardBip39Checker.py:128 | one word line without its newline; no own contract, `SguardFile.WordLineFields` states it |
| `SguardFile.KdLine` | scr/SeedGuardBip39Checker/SeedGuardBip39Checker.py:129 | the closing "KD = k" line; no own contract, `SguardFile.KdLineFields` states it |
| `SguardFile.KdLineFields` | scr/SeedGuardBip39Checker/SeedGuardBip39Checker.py:129 | the closing line splits into "KD", "=" and str(kd), so the reader would reject it as a line of three fields |
| `SguardFile.IndexFieldResolves` | scr/SeedGuardBip39Checker/SeedGuardBip39Checker.py:127-128 | the written index field is a 4-digit code that resolves back to the word (lists of at most 9999 words) |
| `SguardFile.PositionFieldValue` | scr/SeedGuardBip39Checker/SeedGuardBip39Checker.py:128 | the written position field is a numeral of the 1-based position |
| `SguardFile.WordLineFields` | scr/SeedGuardBip39Checker/SeedGuardBip39Checker.py:126-128 | a written word line splits into exactly position, 4-digit code resolving to the word, and the word |
| `SguardFile.WrittenFileRejected` | scr/SeedGuardBip39Checker/SeedGuardBip39Checker.py:89 | the reader rejects the written word lines: they have three fields, not two |
| `SguardFile.CodeViewReadsBack` | scr/SeedGuardBip39Checker/SeedGuardBip39Checker.py:80-129 | the position and code fields of the 24 written lines are accepted in code mode and decode to the written words |
| `SguardFile.WordViewReadsBack` | scr/SeedGuardBip39Checker/SeedGuardBip39Checker.py:80-129 | the position and word fields of the 24 written lines are accepted in word mode and decode to the written words, when no list word looks like a 4-digit code |

## Left out

- `load_bip39_wordlist` (file reading, `exit(1)`, appending to the global list) is I/O. The wordlist is a parameter.
- SHA-256 itself is a library call. It is the parameter `sha`, known only to return 32 bytes.
- The file existence checks, `open`/`read`/`write`, `splitlines()` and the `print` messages of `read_sguard_file` and `write_sguard_file` are I/O. The reader starts from the list of lines, and the writer produces the list of lines, and the file ends each line with a newline.
- FixMnemonic, IndexField: the model requires a non-empty mnemonic whose last word is listed, and `IndexField`, `WordLine` and `SguardLines` require listed words. So it does not model the `IndexError` of `words[-1]` on an empty list or the `ValueError` of `BIP39_WORDLIST.index(...)` (lines 134 and 127). On the program's only call path, `main` passes words returned by `read_sguard_file` or written by `fix_mnemonic`, and those are always 24 listed words.
- `main` only orchestrates the other functions and prints to the console.
- `str.isdigit` is modelled for the ASCII digits '0'..'9' only. Python also accepts other Unicode digits there (some of which `int()` then rejects). Those characters are not modelled.
- The Python list passed to `fix_mnemonic` is an `array`. An alias of it held elsewhere would see the same writes; the model has no second reference to show that.
