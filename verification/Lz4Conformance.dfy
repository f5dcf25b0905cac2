/**
  The reference decoder inverts the format: on every conforming block it regenerates the text, and in
  partial mode exactly the requested prefix of it.
 */
module Lz4Conformance {
  import opened Lz4Format
  import opened Lz4Decode

  /** `part` occurs in `src` at `ip`. */
  predicate At(src: seq<byte>, ip: nat, part: seq<byte>) {
    ip + |part| <= |src| && src[ip..ip + |part|] == part
  }

  lemma AtSplit(src: seq<byte>, ip: nat, a: seq<byte>, b: seq<byte>)
    requires At(src, ip, a + b)
    ensures At(src, ip, a) && At(src, ip + |a|, b)
  {
    var whole := src[ip..ip + |a + b|];
    assert src[ip..ip + |a|] == whole[..|a|] == a;
    assert src[ip + |a|..ip + |a| + |b|] == whole[|a|..] == b;
  }

  lemma AtJoin(src: seq<byte>, ip: nat, a: seq<byte>, b: seq<byte>)
    requires At(src, ip, a) && At(src, ip + |a|, b)
    ensures At(src, ip, a + b)
  {
    assert src[ip..ip + |a + b|] == src[ip..ip + |a|] + src[ip + |a|..ip + |a| + |b|];
  }

  lemma SumAgain(sum: nat, a: nat, v: nat)
    ensures ((sum + a) % U32_RANGE + v) % U32_RANGE == (sum + a + v) % U32_RANGE
  {
  }

  /** Length bytes with sum `v` are read as `v` modulo 2^32, unless the limit cuts them short. */
  lemma {:induction false} ReadLengthSum(src: seq<byte>, ip: nat, v: nat, lencheck: int, sum: nat)
    requires At(src, ip, LengthBytes(v))
    requires lencheck <= |src| && sum < U32_RANGE
    ensures ip < |src|
    ensures var r := ReadLength(src, ip, lencheck, sum);
            var end := ip + |LengthBytes(v)|;
            && (r.overran <==> end >= lencheck)
            && (end <= lencheck ==> r.value == (sum + v) % U32_RANGE && r.pos == end)
    decreases v
  {
    assert src[ip] == src[ip..ip + |LengthBytes(v)|][0];
    if v >= 255 {
      assert LengthBytes(v) == [255] + LengthBytes(v - 255);
      AtSplit(src, ip, [255], LengthBytes(v - 255));
      LengthBytesSize(v - 255);
      if ip + 1 < lencheck {
        ReadLengthSum(src, ip + 1, v - 255, lencheck, (sum + 255) % U32_RANGE);
        SumAgain(sum, 255, v - 255);
      }
    } else {
      assert LengthBytes(v) == [v];
    }
  }

  lemma ReadLengthBytes(src: seq<byte>, ip: nat, v: nat, lencheck: int)
    requires At(src, ip, LengthBytes(v))
    requires ip + |LengthBytes(v)| <= lencheck <= |src|
    requires v < U32_RANGE
    ensures ip < |src|
    ensures ReadLength(src, ip, lencheck, 0) ==
            LengthRead(v, ip + |LengthBytes(v)|, ip + |LengthBytes(v)| == lencheck)
  {
    ReadLengthSum(src, ip, v, lencheck, 0);
  }

  lemma ReadLiteralField(src: seq<byte>, ip: nat, literals: seq<byte>, code: nat)
    requires At(src, ip, LiteralPart(literals, code))
    requires |literals| < U32_RANGE
    ensures ip < |src| && src[ip] == Token(|literals|, code)
    ensures LiteralField(src, ip) == Field(|literals|, ip + 1 + |Extension(|literals|)|)
    ensures At(src, ip + 1 + |Extension(|literals|)|, literals)
  {
    hide LengthBytes, ReadLength;
    var ext := Extension(|literals|);
    AtSplit(src, ip, [Token(|literals|, code)] + ext, literals);
    AtSplit(src, ip, [Token(|literals|, code)], ext);
    assert src[ip] == src[ip..ip + 1][0];
    if |literals| >= 15 {
      LengthBytesSize(|literals| - 15);
      ReadLengthBytes(src, ip + 1, |literals| - 15, |src| - RUN_MASK);
    }
  }

  lemma ReadMatchField(src: seq<byte>, token: byte, ip: nat, code: nat)
    requires token % 16 == Nibble(code)
    requires At(src, ip, Extension(code))
    requires ip + |Extension(code)| < |src| - 4
    requires code < U32_RANGE
    ensures MatchField(src, token, ip) == Field(code, ip + |Extension(code)|)
  {
    if code >= 15 {
      ReadLengthBytes(src, ip, code - 15, |src| - LASTLITERALS + 1);
    }
  }

  lemma TakeLiterals(src: seq<byte>, pos: nat, out: seq<byte>, literals: seq<byte>, n: nat)
    requires At(src, pos, literals) && n <= |literals|
    ensures out + src[pos..pos + n] == (out + literals)[..|out| + n]
    ensures (out + literals)[..|out| + |literals|] == out + literals
    ensures out + src[pos..pos + |literals|] == out + literals
  {
    assert src[pos..pos + n] == literals[..n];
  }

  /** Literals that are not the last of the block. */
  lemma InnerLiterals(src: seq<byte>, ip: nat, out: seq<byte>, lim: Limits, literals: seq<byte>, code: nat)
    requires At(src, ip, LiteralPart(literals, code)) && |literals| < U32_RANGE
    requires ip + |LiteralPart(literals, code)| + 8 <= |src|
    requires |out| <= lim.oend
    requires !lim.partial ==> |out| + |literals| + MFLIMIT <= lim.oend
    ensures ip < |src|
    ensures LiteralStep(src, ip, out, lim) ==
            if lim.partial && |out| + |literals| >= lim.oend then Stop(Decoded((out + literals)[..lim.oend]))
            else Go(out + literals, ip + |LiteralPart(literals, code)|)
  {
    hide Extension, LiteralField, Token;
    ReadLiteralField(src, ip, literals, code);
    var pos := ip + 1 + |Extension(|literals|)|;
    assert |LiteralPart(literals, code)| == 1 + |Extension(|literals|)| + |literals|;
    hide LiteralPart;
    TakeLiterals(src, pos, out, literals, Min(|literals|, lim.oend - |out|));
  }

  lemma OffsetAt(src: seq<byte>, ip: nat, offset: nat)
    requires offset <= DISTANCE_MAX && At(src, ip, OffsetBytes(offset))
    ensures ip + 1 < |src| && Offset(src, ip) == offset
  {
    assert src[ip] == src[ip..ip + 2][0] && src[ip + 1] == src[ip..ip + 2][1];
  }

  lemma InnerMatch(src: seq<byte>, token: byte, quick: bool, ip: nat, out: seq<byte>, lim: Limits,
                   offset: nat, code: nat)
    requires 1 <= offset <= DISTANCE_MAX && token % 16 == Nibble(code) && code < U32_RANGE
    requires At(src, ip, OffsetBytes(offset) + Extension(code))
    requires ip + 2 + |Extension(code)| + 6 <= |src|
    requires |out| <= lim.oend && (quick ==> |out| + 18 <= lim.oend)
    requires lim.low <= |out| - offset
    requires !lim.partial ==> |out| + code + MINMATCH + LASTLITERALS <= lim.oend
    ensures ip + 2 < |src|
    ensures var copied := CopyMatch(out, offset, code + MINMATCH);
            && |copied| == |out| + code + MINMATCH
            && var r := MatchStep(src, token, quick, ip, out, lim);
               || (|copied| <= lim.oend && r == Go(copied, ip + 2 + |Extension(code)|))
               || (lim.partial && |copied| >= lim.oend && r == Stop(Decoded(copied[..lim.oend])))
  {
    hide MatchField, Extension, Offset, CopyMatch;
    AtSplit(src, ip, OffsetBytes(offset), Extension(code));
    OffsetAt(src, ip, offset);
    ReadMatchField(src, token, ip + 2, code);
    var length := code + MINMATCH;
    CopyMatchLength(out, offset, length);
    CopyMatchPrefix(out, offset, Min(length, lim.oend - |out|), length);
    var copied := CopyMatch(out, offset, length);
    assert copied[..|copied|] == copied;
  }

  /** One whole sequence, decoded from the token to the next token. */
  lemma InnerSequence(src: seq<byte>, ip: nat, out: seq<byte>, lim: Limits, s: Sequence)
    requires Encodable(s) && |s.literals| < U32_RANGE && s.matchLength < U32_RANGE
    requires At(src, ip, EncodeSequence(s)) && ip + |EncodeSequence(s)| + 6 <= |src|
    requires |out| <= lim.oend && lim.low <= |out| + |s.literals| - s.offset
    requires !lim.partial ==> |out| + |s.literals| + MFLIMIT <= lim.oend
    requires !lim.partial ==> |out| + |s.literals| + s.matchLength + LASTLITERALS <= lim.oend
    ensures ip < |src|
    ensures var after := ApplySequence(out, s);
            && |after| == |out| + |s.literals| + s.matchLength
            && var r := TokenStep(src, ip, out, lim);
               || (|after| <= lim.oend && r == Go(after, ip + |EncodeSequence(s)|))
               || (lim.partial && |after| >= lim.oend && r == Stop(Decoded(after[..lim.oend])))
  {
    hide LiteralStep, MatchStep, LiteralField, Shortcut, LiteralPart, CopyMatch, Extension, Nibble;
    var code := s.matchLength - MINMATCH;
    var head := LiteralPart(s.literals, code);
    var rest := OffsetBytes(s.offset) + Extension(code);
    AtSplit(src, ip, head, rest);
    InnerLiterals(src, ip, out, lim, s.literals, code);
    assert src[ip] == Token(|s.literals|, code) by { ReadLiteralField(src, ip, s.literals, code); }
    CopyMatchLength(out + s.literals, s.offset, s.matchLength);
    var after := ApplySequence(out, s);
    if lim.partial && |out| + |s.literals| >= lim.oend {
      assert after[..lim.oend] == after[..|out + s.literals|][..lim.oend];
    } else {
      var quick := Shortcut(src, src[ip], LiteralField(src, ip).pos, |out|, lim);
      InnerMatch(src, src[ip], quick, ip + |head|, out + s.literals, lim, s.offset, code);
    }
  }

  lemma LastLiterals(src: seq<byte>, ip: nat, out: seq<byte>, lim: Limits, last: seq<byte>)
    requires At(src, ip, LiteralPart(last, 0)) && |last| < U32_RANGE
    requires ip + |LiteralPart(last, 0)| == |src|
    requires |out| <= lim.oend
    requires !lim.partial ==> |out| + |last| <= lim.oend
    ensures ip < |src|
    ensures TokenStep(src, ip, out, lim) ==
            Stop(Decoded((out + last)[..Min(lim.oend, |out + last|)]))
  {
    ReadLiteralField(src, ip, last, 0);
    var pos := ip + 1 + |Extension(|last|)|;
    var n := Min(|last|, lim.oend - |out|);
    assert src[pos..pos + n] == last[..n];
    assert out + last[..n] == (out + last)[..|out| + n];
    assert last[..|last|] == last;
    assert src[pos..] == last;
  }

  // ----- Whole blocks -----

  lemma {:induction false} EncodeSequencesSplit(sequences: seq<Sequence>, i: nat)
    requires i < |sequences|
    requires forall k :: 0 <= k < |sequences| ==> Writable(sequences[k])
    ensures EncodeSequences(sequences[..i + 1]) == EncodeSequences(sequences[..i]) + EncodeSequence(sequences[i])
    ensures EncodeSequences(sequences[..i + 1]) <= EncodeSequences(sequences)
    decreases |sequences| - i
  {
    assert sequences[..i + 1][..i] == sequences[..i];
    if i + 1 == |sequences| {
      assert sequences[..i + 1] == sequences;
    } else {
      EncodeSequencesSplit(sequences, i + 1);
    }
  }

  lemma EncodedSize(last: seq<byte>)
    ensures |last| < |LiteralPart(last, 0)|
  {
  }

  ghost predicate Fits(b: Block, history: seq<byte>, lim: Limits) {
    && WellFormed(history, lim.low, b.sequences)
    && EndConditions(b)
    && |history| <= lim.oend
    && |ExpandBlock(history, b)| < |history| + U32_RANGE
    && (!lim.partial ==> |ExpandBlock(history, b)| <= lim.oend)
  }

  /** Where sequence `i` sits in the block. */
  lemma SequenceBytes(b: Block, i: nat)
    requires i < |b.sequences|
    requires forall k :: 0 <= k < |b.sequences| ==> Writable(b.sequences[k])
    requires LASTLITERALS <= |b.last|
    ensures var s := b.sequences[i];
            var ip := |EncodeSequences(b.sequences[..i])|;
            && At(EncodeBlock(b), ip, EncodeSequence(s))
            && ip + |EncodeSequence(s)| + 6 <= |EncodeBlock(b)|
            && |EncodeSequences(b.sequences[..i + 1])| == ip + |EncodeSequence(s)|
  {
    hide EncodeSequence, LiteralPart;
    EncodeSequencesSplit(b.sequences, i);
    EncodedSize(b.last);
  }

  lemma ExpandNext(history: seq<byte>, sequences: seq<Sequence>, i: nat)
    requires i < |sequences|
    ensures var s, out := sequences[i], Expand(history, sequences[..i]);
            && Expand(history, sequences[..i + 1]) == ApplySequence(out, s)
            && |ApplySequence(out, s)| == |out| + |s.literals| + s.matchLength
  {
    var s, out := sequences[i], Expand(history, sequences[..i]);
    assert sequences[..i + 1][..i] == sequences[..i];
    CopyMatchLength(out + s.literals, s.offset, s.matchLength);
  }

  /** Where sequence `i` sits in the text. */
  lemma SequenceText(b: Block, history: seq<byte>, lim: Limits, i: nat)
    requires Fits(b, history, lim) && i < |b.sequences|
    ensures var s := b.sequences[i];
            var out := Expand(history, b.sequences[..i]);
            && Expand(history, b.sequences[..i + 1]) == ApplySequence(out, s)
            && |ApplySequence(out, s)| == |out| + |s.literals| + s.matchLength
            && ApplySequence(out, s) <= ExpandBlock(history, b)
            && |history| <= |out|
            && |out| + |s.literals| + MFLIMIT <= |ExpandBlock(history, b)|
            && |out| + |s.literals| + s.matchLength + LASTLITERALS <= |ExpandBlock(history, b)|
  {
    hide CopyMatch, EncodeSequence, Expand, WellFormed;
    ExpandNext(history, b.sequences, i);
    ExpandGrows(history, b.sequences[..i]);
    ExpandPrefix(history, b.sequences, i + 1);
    if i + 1 < |b.sequences| {
      var n := |b.sequences| - 1;
      ExpandNext(history, b.sequences, n);
      assert b.sequences[..n + 1] == b.sequences;
      ExpandPrefix(history, b.sequences[..n], i + 1);
      assert b.sequences[..n][..i + 1] == b.sequences[..i + 1];
    } else {
      assert b.sequences[..i + 1] == b.sequences;
    }
  }

  lemma RunLast(b: Block, history: seq<byte>, lim: Limits)
    requires Fits(b, history, lim) && |Expand(history, b.sequences)| <= lim.oend
    ensures var src := EncodeBlock(b);
            var full := ExpandBlock(history, b);
            var ip := |EncodeSequences(b.sequences)|;
            ip < |src| && Run(src, ip, Expand(history, b.sequences), lim) == Decoded(full[..Min(lim.oend, |full|)])
  {
    hide TokenStep, EncodeSequences, Expand, LiteralPart;
    var src := EncodeBlock(b);
    ExpandGrows(history, b.sequences);
    LastLiterals(src, |EncodeSequences(b.sequences)|, Expand(history, b.sequences), lim, b.last);
  }

  lemma {:induction false} RunFromSequence(b: Block, history: seq<byte>, lim: Limits, i: nat)
    requires Fits(b, history, lim) && i <= |b.sequences|
    requires |Expand(history, b.sequences[..i])| <= lim.oend
    ensures var src := EncodeBlock(b);
            var full := ExpandBlock(history, b);
            && |EncodeSequences(b.sequences[..i])| < |src|
            && Run(src, |EncodeSequences(b.sequences[..i])|, Expand(history, b.sequences[..i]), lim) ==
               Decoded(full[..Min(lim.oend, |full|)])
    decreases |b.sequences| - i
  {
    hide TokenStep, EncodeSequence, EncodeSequences, Expand, ApplySequence, LiteralPart;
    var src := EncodeBlock(b);
    var full := ExpandBlock(history, b);
    var ip := |EncodeSequences(b.sequences[..i])|;
    var out := Expand(history, b.sequences[..i]);
    if i == |b.sequences| {
      assert b.sequences[..i] == b.sequences;
      RunLast(b, history, lim);
    } else {
      SequenceBytes(b, i);
      SequenceText(b, history, lim, i);
      var s := b.sequences[i];
      InnerSequence(src, ip, out, lim, s);
      var after := ApplySequence(out, s);
      if TokenStep(src, ip, out, lim) == Go(after, ip + |EncodeSequence(s)|) {
        RunFromSequence(b, history, lim, i + 1);
      } else {
        assert after[..lim.oend] == full[..|after|][..lim.oend];
      }
    }
  }

  lemma NoSequencesForEmptyText(history: seq<byte>, b: Block)
    requires EndConditions(b)
    requires |ExpandBlock(history, b)| <= |history|
    ensures b.sequences == [] && b.last == []
  {
    ExpandGrows(history, b.sequences);
  }

  /** Round trip with respect to the format: a conforming block decodes to its text whenever the text
      fits; in partial mode, to the prefix that fits, wherever the limit falls. */
  lemma DecodeConforming(bytes: seq<byte>, history: seq<byte>, low: int, text: seq<byte>, lim: Limits)
    requires IsBlockFor(bytes, history, low, text)
    requires |text| < U32_RANGE
    requires lim.low <= low && |history| <= lim.oend
    requires !lim.partial ==> |history| + |text| <= lim.oend
    ensures Decompress(bytes, history, lim) == Decoded((history + text)[..Min(lim.oend, |history| + |text|)])
  {
    hide Run, EncodeBlock, Expand;
    var b :| Encodes(bytes, history, low, text, b);
    if |history| == lim.oend {
      assert (history + text)[..|history|] == history;
      if !lim.partial {
        NoSequencesForEmptyText(history, b);
        EmptyBlockBytes(b);
      }
    } else {
      RunWhole(b, history, lim);
    }
  }

  /** The promise of the format, in numbers: a block with positive offsets of at most 65535 that stay inside
      the history, whose last five bytes are literals and whose last match starts at least twelve bytes
      before the end, decodes into a buffer of exactly the size of its text. */
  lemma DecodeExactly(b: Block, history: seq<byte>, low: int)
    requires forall i :: 0 <= i < |b.sequences| ==>
               var s := b.sequences[i];
               && 1 <= s.offset <= 65535 && 4 <= s.matchLength
               && low <= |Expand(history, b.sequences[..i])| + |s.literals| - s.offset
    requires b.sequences != [] ==> 5 <= |b.last| && 12 <= b.sequences[|b.sequences| - 1].matchLength + |b.last|
    requires |ExpandBlock(history, b)| < |history| + 0x1_0000_0000
    ensures var text := ExpandBlock(history, b);
            |history| <= |text| && Decompress(EncodeBlock(b), history, Limits(|text|, low, false)) == Decoded(text)
  {
    hide Run, EncodeBlock, Expand;
    var text := ExpandBlock(history, b);
    ExpandGrows(history, b.sequences);
    assert text == history + text[|history|..];
    assert Encodes(EncodeBlock(b), history, low, text[|history|..], b);
    DecodeConforming(EncodeBlock(b), history, low, text[|history|..], Limits(|text|, low, false));
    assert text[..|text|] == text;
  }

  lemma EmptyBlockBytes(b: Block)
    requires b.sequences == [] && b.last == []
    ensures EncodeBlock(b) == [0]
  {
    assert LiteralPart([], 0) == [0];
  }

  lemma RunWhole(b: Block, history: seq<byte>, lim: Limits)
    requires Fits(b, history, lim)
    ensures var full := ExpandBlock(history, b);
            && EncodeBlock(b) != []
            && Run(EncodeBlock(b), 0, history, lim) == Decoded(full[..Min(lim.oend, |full|)])
  {
    assert b.sequences[..0] == [];
    RunFromSequence(b, history, lim, 0);
  }

  /** The empty text has one block, the single byte 0. */
  lemma EmptyBlock(history: seq<byte>, low: int)
    ensures IsBlockFor([0], history, low, [])
  {
    var b := Block([], []);
    assert LiteralPart([], 0) == [0];
    assert EncodeBlock(b) == [0];
    assert Encodes([0], history, low, [], b);
  }

  // ----- Moving a block to another place in memory -----

  lemma {:induction false} CopyMatchShift(before: seq<byte>, out: seq<byte>, offset: nat, length: nat)
    requires 1 <= offset <= |out|
    ensures CopyMatch(before + out, offset, length) == before + CopyMatch(out, offset, length)
    decreases length
  {
    if length > 0 {
      var next := out + [MatchByte(out, offset)];
      assert before + out + [MatchByte(before + out, offset)] == before + next;
      CopyMatchShift(before, next, offset, length - 1);
    }
  }

  lemma ShiftStep(before: seq<byte>, out: seq<byte>, s: Sequence)
    requires 1 <= s.offset <= |out| + |s.literals|
    ensures ApplySequence(before + out, s) == before + ApplySequence(out, s)
  {
    assert before + out + s.literals == before + (out + s.literals);
    CopyMatchShift(before, out + s.literals, s.offset, s.matchLength);
  }

  lemma {:induction false} ExpandShiftAt(before: seq<byte>, history: seq<byte>, low: nat, sequences: seq<Sequence>, i: nat)
    requires i <= |sequences|
    requires WellFormed(history, low, sequences) || WellFormed(before + history, |before| + low, sequences)
    ensures Expand(before + history, sequences[..i]) == before + Expand(history, sequences[..i])
    decreases i
  {
    hide CopyMatch, ApplySequence;
    if i > 0 {
      ExpandShiftAt(before, history, low, sequences, i - 1);
      var head, s := sequences[..i - 1], sequences[i - 1];
      assert sequences[..i][..i - 1] == head;
      var out := Expand(history, head);
      assert 1 <= s.offset <= |out| + |s.literals|;
      ShiftStep(before, out, s);
    }
  }

  lemma ExpandShift(before: seq<byte>, history: seq<byte>, low: nat, sequences: seq<Sequence>)
    requires WellFormed(history, low, sequences) || WellFormed(before + history, |before| + low, sequences)
    ensures Expand(before + history, sequences) == before + Expand(history, sequences)
    ensures WellFormed(history, low, sequences) && WellFormed(before + history, |before| + low, sequences)
  {
    hide Expand;
    forall i | 0 <= i <= |sequences|
      ensures Expand(before + history, sequences[..i]) == before + Expand(history, sequences[..i])
    {
      ExpandShiftAt(before, history, low, sequences, i);
    }
    assert sequences[..|sequences|] == sequences;
  }

  lemma Behind(before: seq<byte>, after: seq<byte>, a: seq<byte>, b: seq<byte>, c: seq<byte>, d: seq<byte>)
    requires before + a + b == before + c + d
    ensures after + a + b == after + c + d
  {
    assert (before + a + b)[|before|..] == a + b;
    assert (before + c + d)[|before|..] == c + d;
    assert after + a + b == after + (a + b) && after + c + d == after + (c + d);
  }

  /** Only the bytes from `low` on matter: what precedes them may change. */
  lemma Relocate(bytes: seq<byte>, before: seq<byte>, after: seq<byte>, history: seq<byte>, low: nat, text: seq<byte>)
    requires IsBlockFor(bytes, before + history, |before| + low, text)
    ensures IsBlockFor(bytes, after + history, |after| + low, text)
  {
    hide Expand, WellFormed, EncodeBlock, EndConditions;
    var b :| Encodes(bytes, before + history, |before| + low, text, b);
    ExpandShift(before, history, low, b.sequences);
    ExpandShift(after, history, low, b.sequences);
    Behind(before, after, Expand(history, b.sequences), b.last, history, text);
    assert Encodes(bytes, after + history, |after| + low, text, b);
  }

  /** No match can reach further back than 65535 bytes. */
  lemma WindowSuffices(bytes: seq<byte>, history: seq<byte>, low: int, text: seq<byte>)
    requires IsBlockFor(bytes, history, low, text)
    ensures IsBlockFor(bytes, history, |history| - 65535, text)
  {
    var b :| Encodes(bytes, history, low, text, b);
    forall i | 0 <= i < |b.sequences|
      ensures |history| - DISTANCE_MAX <= |Expand(history, b.sequences[..i])| + |b.sequences[i].literals| - b.sequences[i].offset
    {
      ExpandGrows(history, b.sequences[..i]);
    }
    assert Encodes(bytes, history, |history| - DISTANCE_MAX, text, b);
  }

  lemma LowerLow(bytes: seq<byte>, history: seq<byte>, low: int, low': int, text: seq<byte>)
    requires IsBlockFor(bytes, history, low, text) && low' <= low
    ensures IsBlockFor(bytes, history, low', text)
  {
    var b :| Encodes(bytes, history, low, text, b);
    assert Encodes(bytes, history, low', text, b);
  }
}
