/**
 * The mnemonic file `sguard.dat`, taken after it has been read and split into
 * lines (the reader) and before it is written (the writer).
 *
 * Reader: exactly 24 lines, each "<digits> <token>"; a token of four digits is
 * a 1-based code into the wordlist, any other token must be a wordlist word;
 * the first token fixes the mode and a token of the other mode is rejected.
 * Writer: one line "NN IIII word" per word (position and 1-based index,
 * zero-padded), then "KD = <offset>".
 */
module SguardFile {
  import opened Wrappers
  import opened Encoding
  import opened Text
  import opened Checksum

  /** The reader accepts files of exactly this many lines. */
  const LineCount := 24

  datatype Mode = CodeMode | WordMode

  /** `token.isdigit() and len(token) == 4` selects code mode. */
  function TokenMode(token: string): Mode
  {
    if IsDecimal(token) && |token| == 4 then CodeMode else WordMode
  }

  /** The word a token stands for, None when the reader rejects it. */
  function Resolve(wordlist: seq<Word>, token: string): (r: Option<Word>)
    ensures r.Some? ==> r.value in wordlist
    ensures TokenMode(token) == WordMode ==> (r.Some? <==> token in wordlist) && (r.Some? ==> r.value == token)
    ensures TokenMode(token) == CodeMode ==>
      (r.Some? <==> 1 <= DecimalValue(token) <= |wordlist|)
      && (r.Some? ==> r.value == wordlist[DecimalValue(token) - 1])
  {
    match TokenMode(token)
    case CodeMode =>
      var index := DecimalValue(token);
      if 1 <= index <= |wordlist| then Some(wordlist[index - 1]) else None
    case WordMode =>
      if token in wordlist then Some(token) else None
  }

  /** `parts = line.strip().split()` has two fields and the first is all digits. */
  predicate WellShaped(line: string)
  {
    var parts := Fields(Strip(line));
    |parts| == 2 && IsDecimal(parts[0])
  }

  /** The second field of a well-shaped line. */
  function Token(line: string): string
    requires WellShaped(line)
  {
    Fields(Strip(line))[1]
  }

  /** Every token of the lines is in mode m. */
  predicate AllInMode(lines: seq<string>, m: Mode)
    requires forall k :: 0 <= k < |lines| ==> WellShaped(lines[k])
  {
    forall k :: 0 <= k < |lines| ==> TokenMode(Token(lines[k])) == m
  }

  /**
   * The files the reader accepts: 24 well-shaped lines whose tokens are all
   * codes or all words, each resolving to a wordlist word.
   */
  predicate Accepted(wordlist: seq<Word>, lines: seq<string>)
  {
    && |lines| == LineCount
    && (forall k :: 0 <= k < |lines| ==> WellShaped(lines[k]))
    && (AllInMode(lines, CodeMode) || AllInMode(lines, WordMode))
    && (forall k :: 0 <= k < |lines| ==> Resolve(wordlist, Token(lines[k])).Some?)
  }

  lemma RejectsBadShape(wordlist: seq<Word>, lines: seq<string>, i: nat)
    requires i < |lines| && !WellShaped(lines[i])
    ensures !Accepted(wordlist, lines)
  {
  }

  lemma RejectsModeClash(wordlist: seq<Word>, lines: seq<string>, i: nat)
    requires 0 < i < |lines| && WellShaped(lines[0]) && WellShaped(lines[i])
    requires TokenMode(Token(lines[i])) != TokenMode(Token(lines[0]))
    ensures !Accepted(wordlist, lines)
  {
    if forall k :: 0 <= k < |lines| ==> WellShaped(lines[k]) {
      // The two tokens differ in mode, so each mode misses one of them.
      var m0, mi := TokenMode(Token(lines[0])), TokenMode(Token(lines[i]));
      assert !AllInMode(lines, CodeMode) by {
        if m0 == CodeMode { assert mi != CodeMode; } else { assert m0 != CodeMode; }
      }
      assert !AllInMode(lines, WordMode) by {
        if m0 == WordMode { assert mi != WordMode; } else { assert m0 != WordMode; }
      }
    }
  }

  lemma RejectsUnresolved(wordlist: seq<Word>, lines: seq<string>, i: nat)
    requires i < |lines| && WellShaped(lines[i]) && Resolve(wordlist, Token(lines[i])).None?
    ensures !Accepted(wordlist, lines)
  {
  }

  /**
   * One token of `read_sguard_file`: the first token fixes the mode, a token of
   * the other mode is rejected, then a code is range-checked and looked up and
   * a word is checked for membership.
   */
  method ReadToken(wordlist: seq<Word>, token: string, mode: Option<Mode>) returns (word: Option<Word>, mode': Mode)
    ensures mode' == if mode.None? then TokenMode(token) else mode.value
    ensures word.Some? <==> mode' == TokenMode(token) && Resolve(wordlist, token).Some?
    ensures word.Some? ==> word == Resolve(wordlist, token)
  {
    if IsDecimal(token) && |token| == 4 {
      if mode.None? {
        mode' := CodeMode;
      } else if mode != Some(CodeMode) {
        return None, mode.value;
      } else {
        mode' := CodeMode;
      }
      var index := DecimalValue(token);
      if !(1 <= index <= |wordlist|) {
        return None, mode';
      }
      word := Some(wordlist[index - 1]);
    } else {
      if mode.None? {
        mode' := WordMode;
      } else if mode != Some(WordMode) {
        return None, mode.value;
      } else {
        mode' := WordMode;
      }
      if token !in wordlist {
        return None, mode';
      }
      word := Some(token);
    }
  }

  /** The validation part of `read_sguard_file`, on the file's lines. */
  method ReadSguardLines(wordlist: seq<Word>, lines: seq<string>) returns (words: Option<seq<Word>>)
    ensures words.Some? <==> Accepted(wordlist, lines)
    ensures words.Some? ==> |words.value| == LineCount
    ensures words.Some? ==> forall k :: 0 <= k < |lines| ==>
      Resolve(wordlist, Token(lines[k])) == Some(words.value[k]) && words.value[k] in wordlist
  {
    if |lines| != LineCount {
      return None;
    }
    var acc: seq<Word> := [];
    var mode: Option<Mode> := None;
    for i := 0 to |lines|
      invariant |acc| == i
      invariant forall k :: 0 <= k < i ==> WellShaped(lines[k])
      invariant i == 0 <==> mode.None?
      invariant i > 0 ==> mode == Some(TokenMode(Token(lines[0])))
      invariant i > 0 ==> forall k :: 0 <= k < i ==> TokenMode(Token(lines[k])) == mode.value
      invariant forall k :: 0 <= k < i ==> Resolve(wordlist, Token(lines[k])) == Some(acc[k])
    {
      var parts := Fields(Strip(lines[i]));
      if |parts| != 2 || !IsDecimal(parts[0]) {
        RejectsBadShape(wordlist, lines, i);
        return None;
      }
      assert WellShaped(lines[i]);
      var token := parts[1];
      assert token == Token(lines[i]);
      var word, mode' := ReadToken(wordlist, token, mode);
      if word.None? {
        if mode' != TokenMode(token) {
          RejectsModeClash(wordlist, lines, i);
        } else {
          RejectsUnresolved(wordlist, lines, i);
        }
        return None;
      }
      mode := Some(mode');
      forall k | 0 <= k < i + 1
        ensures WellShaped(lines[k]) && TokenMode(Token(lines[k])) == mode.value
      {
      }
      ghost var before := acc;
      acc := acc + [word.value];
      forall k | 0 <= k < i + 1
        ensures Resolve(wordlist, Token(lines[k])) == Some(acc[k])
      {
        if k < i {
          assert acc[k] == before[k];
        }
      }
    }
    AcceptedWhenAllResolve(wordlist, lines, mode.value, acc);
    return Some(acc);
  }

  /* ---------------------------------------------------------------------- */
  /* Writer                                                                  */
  /* ---------------------------------------------------------------------- */

  /** `str(position + 1).zfill(2)`: the position field of a written line. */
  function PositionField(position: nat): string
  {
    ZFill(DecimalString(position + 1), 2, '0')
  }

  /** `str(wordlist.index(word) + 1).zfill(4)`: the index field of a written line. */
  function IndexField(wordlist: seq<Word>, word: Word): string
    requires word in wordlist
  {
    ZFill(DecimalString(IndexOf(wordlist, word).value + 1), 4, '0')
  }

  /** One word line of `write_sguard_file`, without its newline. */
  function WordLine(wordlist: seq<Word>, position: nat, word: Word): string
    requires word in wordlist
  {
    PositionField(position) + " " + IndexField(wordlist, word) + " " + word
  }

  /** The closing line of `write_sguard_file`. */
  function KdLine(kd: nat): string
  {
    "KD = " + DecimalString(kd)
  }

  /** The lines `write_sguard_file` writes, each followed by a newline in the file. */
  function SguardLines(wordlist: seq<Word>, words: seq<Word>, kd: nat): (lines: seq<string>)
    requires forall k :: 0 <= k < |words| ==> words[k] in wordlist
    ensures |lines| == |words| + 1
  {
    seq(|words|, k requires 0 <= k < |words| => WordLine(wordlist, k, words[k])) + [KdLine(kd)]
  }

  /** The closing line splits into "KD", "=" and the offset, so it is not a two-field line. */
  lemma KdLineFields(kd: nat)
    ensures Fields(Strip(KdLine(kd))) == ["KD", "=", DecimalString(kd)]
    ensures !WellShaped(KdLine(kd))
  {
    var d := DecimalString(kd);
    DecimalHasNoSpace(d);
    assert NoSpace("KD") by {
      assert "KD"[0] == 'K' && "KD"[1] == 'D';
      assert !IsSpace('K') && !IsSpace('D');
    }
    assert NoSpace("=") by {
      assert "="[0] == '=' && !IsSpace('=');
    }
    assert KdLine(kd) == "KD" + " " + "=" + " " + d;
    SplitThreeFields("KD", "=", d);
  }

  /** The words are usable on a line: non-empty and free of whitespace. */
  predicate PlainWords(wordlist: seq<Word>)
  {
    forall k :: 0 <= k < |wordlist| ==> wordlist[k] != [] && NoSpace(wordlist[k])
  }

  /* ---------------------------------------------------------------------- */
  /* Lemmas                                                                  */
  /* ---------------------------------------------------------------------- */

  /** The index field is a four-digit code that resolves back to the word. */
  lemma IndexFieldResolves(wordlist: seq<Word>, word: Word)
    requires word in wordlist && |wordlist| <= 9999
    ensures var c := IndexField(wordlist, word);
      && IsDecimal(c) && |c| == 4 && TokenMode(c) == CodeMode
      && Resolve(wordlist, c) == Some(word)
  {
    var i := IndexOf(wordlist, word).value;
    assert Pow10(4) == 10000;
    ZFillDecimal(i + 1, 4);
  }

  /** The position field is a numeral of the 1-based position. */
  lemma PositionFieldValue(position: nat)
    ensures IsDecimal(PositionField(position)) && DecimalValue(PositionField(position)) == position + 1
  {
    ZFillDecimal(position + 1, 2);
  }

  /**
   * A written word line splits into three fields: the position, a four-digit
   * code that resolves back to the word, and the word.
   */
  lemma WordLineFields(wordlist: seq<Word>, position: nat, word: Word)
    requires word in wordlist && PlainWords(wordlist) && |wordlist| <= 9999
    ensures var parts := Fields(Strip(WordLine(wordlist, position, word)));
      && parts == [PositionField(position), IndexField(wordlist, word), word]
      && IsDecimal(parts[0]) && DecimalValue(parts[0]) == position + 1
      && TokenMode(parts[1]) == CodeMode && Resolve(wordlist, parts[1]) == Some(word)
  {
    var p := PositionField(position);
    var c := IndexField(wordlist, word);
    IndexFieldResolves(wordlist, word);
    PositionFieldValue(position);
    DecimalHasNoSpace(p);
    DecimalHasNoSpace(c);
    assert word != [] && NoSpace(word) by {
      var i := IndexOf(wordlist, word).value;
      assert word == wordlist[i];
    }
    SplitThreeFields(p, c, word);
  }

  /** The written word lines have three fields, so the reader rejects the written file. */
  lemma WrittenFileRejected(wordlist: seq<Word>, words: seq<Word>, kd: nat)
    requires forall k :: 0 <= k < |words| ==> words[k] in wordlist
    requires PlainWords(wordlist) && |wordlist| <= 9999 && |words| > 0
    ensures !WellShaped(SguardLines(wordlist, words, kd)[0])
    ensures !Accepted(wordlist, SguardLines(wordlist, words, kd)[..|words|])
  {
    var lines := SguardLines(wordlist, words, kd);
    WordLineFields(wordlist, 0, words[0]);
    assert lines[..|words|][0] == lines[0];
  }

  /** The first two fields of a written word line: the line in the reader's code format. */
  function CodeView(line: string): string
    requires |Fields(line)| >= 2
  {
    Fields(line)[0] + " " + Fields(line)[1]
  }

  /** The first and third fields of a written word line: the line in the reader's word format. */
  function WordView(line: string): string
    requires |Fields(line)| >= 3
  {
    Fields(line)[0] + " " + Fields(line)[2]
  }

  lemma TwoFieldLine(a: string, b: string)
    requires a != [] && NoSpace(a) && b != [] && NoSpace(b)
    ensures Fields(Strip(a + " " + b)) == [a, b]
  {
    FieldsOfStrip(a + " " + b);
    SplitFirstField(a, b);
    SplitSingleField(b);
  }

  /** 24 well-shaped lines whose tokens are in one mode and resolve to `words` are accepted. */
  lemma AcceptedWhenAllResolve(wordlist: seq<Word>, lines: seq<string>, m: Mode, words: seq<Word>)
    requires |lines| == LineCount && |words| == LineCount
    requires forall k :: 0 <= k < |lines| ==> WellShaped(lines[k])
    requires forall k :: 0 <= k < |lines| ==> TokenMode(Token(lines[k])) == m
    requires forall k :: 0 <= k < |lines| ==> Resolve(wordlist, Token(lines[k])) == Some(words[k])
    ensures Accepted(wordlist, lines) && AllInMode(lines, m)
  {
  }

  /** The code view of one written word line is a code line resolving to its word. */
  lemma CodeViewLine(wordlist: seq<Word>, words: seq<Word>, kd: nat, k: nat)
    requires k < |words| && forall j :: 0 <= j < |words| ==> words[j] in wordlist
    requires PlainWords(wordlist) && |wordlist| <= 9999
    ensures |Fields(SguardLines(wordlist, words, kd)[k])| >= 3
    ensures var v := CodeView(SguardLines(wordlist, words, kd)[k]);
      WellShaped(v) && TokenMode(Token(v)) == CodeMode && Resolve(wordlist, Token(v)) == Some(words[k])
  {
    var line := SguardLines(wordlist, words, kd)[k];
    assert line == WordLine(wordlist, k, words[k]);
    WordLineFields(wordlist, k, words[k]);
    FieldsOfStrip(line);
    PositionFieldValue(k);
    IndexFieldResolves(wordlist, words[k]);
    DecimalHasNoSpace(PositionField(k));
    DecimalHasNoSpace(IndexField(wordlist, words[k]));
    TwoFieldLine(PositionField(k), IndexField(wordlist, words[k]));
  }

  /** The word view of one written word line is a word line resolving to its word. */
  lemma WordViewLine(wordlist: seq<Word>, words: seq<Word>, kd: nat, k: nat)
    requires k < |words| && forall j :: 0 <= j < |words| ==> words[j] in wordlist
    requires PlainWords(wordlist) && |wordlist| <= 9999
    requires forall j :: 0 <= j < |wordlist| ==> TokenMode(wordlist[j]) == WordMode
    ensures |Fields(SguardLines(wordlist, words, kd)[k])| >= 3
    ensures var v := WordView(SguardLines(wordlist, words, kd)[k]);
      WellShaped(v) && TokenMode(Token(v)) == WordMode && Resolve(wordlist, Token(v)) == Some(words[k])
  {
    var line := SguardLines(wordlist, words, kd)[k];
    assert line == WordLine(wordlist, k, words[k]);
    WordLineFields(wordlist, k, words[k]);
    FieldsOfStrip(line);
    PositionFieldValue(k);
    DecimalHasNoSpace(PositionField(k));
    var i := IndexOf(wordlist, words[k]).value;
    assert words[k] == wordlist[i];
    TwoFieldLine(PositionField(k), words[k]);
  }

  /**
   * Round trip: the position and code fields of the 24 written word lines form
   * a file the reader accepts in code mode and decodes to the written words.
   */
  lemma CodeViewReadsBack(wordlist: seq<Word>, words: seq<Word>, kd: nat)
    requires |words| == LineCount && forall k :: 0 <= k < |words| ==> words[k] in wordlist
    requires PlainWords(wordlist) && |wordlist| <= 9999
    ensures forall k :: 0 <= k < LineCount ==> |Fields(SguardLines(wordlist, words, kd)[k])| >= 2
    ensures var view := seq(LineCount, k requires 0 <= k < LineCount => CodeView(SguardLines(wordlist, words, kd)[k]));
      && Accepted(wordlist, view) && AllInMode(view, CodeMode)
      && forall k :: 0 <= k < LineCount ==> Resolve(wordlist, Token(view[k])) == Some(words[k])
  {
    forall k | 0 <= k < LineCount
      ensures |Fields(SguardLines(wordlist, words, kd)[k])| >= 3
      ensures var v := CodeView(SguardLines(wordlist, words, kd)[k]);
        WellShaped(v) && TokenMode(Token(v)) == CodeMode && Resolve(wordlist, Token(v)) == Some(words[k])
    {
      CodeViewLine(wordlist, words, kd, k);
    }
    var view := seq(LineCount, k requires 0 <= k < LineCount => CodeView(SguardLines(wordlist, words, kd)[k]));
    AcceptedWhenAllResolve(wordlist, view, CodeMode, words);
  }

  /**
   * Round trip: the position and word fields of the 24 written word lines form
   * a file the reader accepts in word mode and decodes to the written words,
   * provided no wordlist word looks like a four-digit code.
   */
  lemma WordViewReadsBack(wordlist: seq<Word>, words: seq<Word>, kd: nat)
    requires |words| == LineCount && forall k :: 0 <= k < |words| ==> words[k] in wordlist
    requires PlainWords(wordlist) && |wordlist| <= 9999
    requires forall k :: 0 <= k < |wordlist| ==> TokenMode(wordlist[k]) == WordMode
    ensures forall k :: 0 <= k < LineCount ==> |Fields(SguardLines(wordlist, words, kd)[k])| >= 3
    ensures var view := seq(LineCount, k requires 0 <= k < LineCount => WordView(SguardLines(wordlist, words, kd)[k]));
      && Accepted(wordlist, view) && AllInMode(view, WordMode)
      && forall k :: 0 <= k < LineCount ==> Resolve(wordlist, Token(view[k])) == Some(words[k])
  {
    forall k | 0 <= k < LineCount
      ensures |Fields(SguardLines(wordlist, words, kd)[k])| >= 3
      ensures var v := WordView(SguardLines(wordlist, words, kd)[k]);
        WellShaped(v) && TokenMode(Token(v)) == WordMode && Resolve(wordlist, Token(v)) == Some(words[k])
    {
      WordViewLine(wordlist, words, kd, k);
    }
    var view := seq(LineCount, k requires 0 <= k < LineCount => WordView(SguardLines(wordlist, words, kd)[k]));
    AcceptedWhenAllResolve(wordlist, view, WordMode, words);
  }
}
