/**
  The LZ4 block format, as a meaning for byte strings that knows nothing of hash tables, cursors or
  wide copies: a block is a list of sequences (literals followed by a match) closed by a run of
  literals.  `Expand` gives the text a list of sequences stands for and `EncodeBlock` its bytes.
 */
module Lz4Format {
  import Bytes

  type byte = Bytes.byte

  // The constants of the code.  The format below is stated in numbers of its own.

  const MINMATCH := 4
  const LASTLITERALS := 5
  const MFLIMIT := 12
  const RUN_MASK := 15
  const ML_MASK := 15
  const DISTANCE_MAX := 65535
  const MAX_INPUT_SIZE := 0x7E00_0000
  const U32_RANGE := 0x1_0000_0000

  datatype Sequence = Sequence(literals: seq<byte>, offset: nat, matchLength: nat)

  datatype Block = Block(sequences: seq<Sequence>, last: seq<byte>)

  // ----- Meaning -----

  /** The byte a match at distance `offset` contributes next.  No format-conforming match has a zero
      offset; the decoder writes zero bytes for one (lz4.c, the write32 before the offset tables). */
  function MatchByte(out: seq<byte>, offset: nat): byte {
    if 1 <= offset <= |out| then out[|out| - offset] else 0
  }

  /** Byte-by-byte match copy: each byte copied may be the source of a later one. */
  function CopyMatch(out: seq<byte>, offset: nat, length: nat): seq<byte>
    decreases length
  {
    if length == 0 then out else CopyMatch(out + [MatchByte(out, offset)], offset, length - 1)
  }

  function ApplySequence(out: seq<byte>, s: Sequence): seq<byte> {
    CopyMatch(out + s.literals, s.offset, s.matchLength)
  }

  function Expand(history: seq<byte>, sequences: seq<Sequence>): seq<byte> {
    if sequences == [] then history
    else
      var n := |sequences| - 1;
      ApplySequence(Expand(history, sequences[..n]), sequences[n])
  }

  function ExpandBlock(history: seq<byte>, b: Block): seq<byte> {
    Expand(history, b.sequences) + b.last
  }

  // ----- Bytes -----

  function Nibble(length: nat): (r: nat)
    ensures r < 16
  {
    if length < 15 then length else 15
  }

  /** The bytes that follow a field of 15: 255s while at least 255 remain, then the remainder. */
  function LengthBytes(v: nat): seq<byte> {
    if v < 255 then [v] else [255] + LengthBytes(v - 255)
  }

  function Extension(length: nat): seq<byte> {
    if length < 15 then [] else LengthBytes(length - 15)
  }

  function Token(literalLength: nat, matchCode: nat): byte {
    Nibble(literalLength) * 16 + Nibble(matchCode)
  }

  /** What the bytes of a sequence can express; a zero offset is among it, but forbidden by the format. */
  ghost predicate Writable(s: Sequence) {
    s.offset <= 65535 && 4 <= s.matchLength
  }

  ghost predicate Encodable(s: Sequence) {
    1 <= s.offset && Writable(s)
  }

  function LiteralPart(literals: seq<byte>, matchCode: nat): seq<byte> {
    [Token(|literals|, matchCode)] + Extension(|literals|) + literals
  }

  function OffsetBytes(offset: nat): seq<byte>
    requires offset <= 65535
  {
    [offset % 256, offset / 256]
  }

  function EncodeSequence(s: Sequence): seq<byte>
    requires Writable(s)
  {
    LiteralPart(s.literals, s.matchLength - 4) +
    (OffsetBytes(s.offset) + Extension(s.matchLength - 4))
  }

  function EncodeSequences(sequences: seq<Sequence>): seq<byte>
    requires forall i :: 0 <= i < |sequences| ==> Writable(sequences[i])
  {
    if sequences == [] then []
    else
      var n := |sequences| - 1;
      EncodeSequences(sequences[..n]) + EncodeSequence(sequences[n])
  }

  function EncodeBlock(b: Block): seq<byte>
    requires forall i :: 0 <= i < |b.sequences| ==> Writable(b.sequences[i])
  {
    EncodeSequences(b.sequences) + LiteralPart(b.last, 0)
  }

  // ----- Conformance -----

  /** Every match is encodable and starts at or after index `low` of the output. */
  ghost predicate WellFormed(history: seq<byte>, low: int, sequences: seq<Sequence>) {
    forall i :: 0 <= i < |sequences| ==>
                  && Encodable(sequences[i])
                  && low <= |Expand(history, sequences[..i])| + |sequences[i].literals| - sequences[i].offset
  }

  /** The end-of-block restrictions of the format: the last five bytes are literals and the last
      match starts at least twelve bytes before the end. */
  ghost predicate EndConditions(b: Block) {
    b.sequences != [] ==>
      && 5 <= |b.last|
      && 12 <= b.sequences[|b.sequences| - 1].matchLength + |b.last|
  }

  ghost predicate Encodes(bytes: seq<byte>, history: seq<byte>, low: int, text: seq<byte>, b: Block) {
    && WellFormed(history, low, b.sequences)
    && EndConditions(b)
    && bytes == EncodeBlock(b)
    && ExpandBlock(history, b) == history + text
  }

  /** `bytes` is a conforming block that stands for `text` after `history`, with no match before `low`. */
  ghost predicate IsBlockFor(bytes: seq<byte>, history: seq<byte>, low: int, text: seq<byte>) {
    exists b :: Encodes(bytes, history, low, text, b)
  }

  // ----- Facts about the meaning -----

  lemma {:induction false} CopyMatchZeroShape(out: seq<byte>, length: nat)
    ensures CopyMatch(out, 0, length) == out + seq(length, _ => 0)
    decreases length
  {
    if length != 0 {
      CopyMatchZeroShape(out + [0], length - 1);
      assert out + [0] + seq(length - 1, _ => 0) == out + seq(length, _ => 0);
    } else {
      assert out + seq(0, _ => 0) == out;
    }
  }

  lemma {:induction false} CopyMatchLength(out: seq<byte>, offset: nat, length: nat)
    ensures |CopyMatch(out, offset, length)| == |out| + length
    ensures CopyMatch(out, offset, length)[..|out|] == out
    decreases length
  {
    if length != 0 {
      var next := out + [MatchByte(out, offset)];
      CopyMatchLength(next, offset, length - 1);
      assert CopyMatch(out, offset, length)[..|out|] == CopyMatch(out, offset, length)[..|next|][..|out|];
    }
  }

  /** A string that extends `out` and repeats itself at distance `offset` is the byte-by-byte copy. */
  lemma {:induction false} CopyMatchUnique(out: seq<byte>, offset: nat, length: nat, r: seq<byte>)
    requires 1 <= offset <= |out|
    requires |r| == |out| + length
    requires r[..|out|] == out
    requires forall k :: |out| <= k < |r| ==> r[k] == r[k - offset]
    ensures r == CopyMatch(out, offset, length)
    decreases length
  {
    if length != 0 {
      var next := out + [out[|out| - offset]];
      assert r[|out| - offset] == r[..|out|][|out| - offset];
      assert r[..|next|] == next;
      CopyMatchUnique(next, offset, length - 1, r);
    } else {
      assert r[..|out|] == r;
    }
  }

  /** Copying `m` bytes and then `n` more is copying `m + n`. */
  lemma {:induction false} CopyMatchSplit(out: seq<byte>, offset: nat, m: nat, n: nat)
    ensures CopyMatch(out, offset, m + n) == CopyMatch(CopyMatch(out, offset, m), offset, n)
    decreases m
  {
    if m != 0 {
      CopyMatchSplit(out + [MatchByte(out, offset)], offset, m - 1, n);
    }
  }

  /** A shorter copy is a prefix of a longer one. */
  lemma CopyMatchPrefix(out: seq<byte>, offset: nat, m: nat, n: nat)
    requires m <= n
    ensures |CopyMatch(out, offset, n)| == |out| + n
    ensures CopyMatch(out, offset, m) == CopyMatch(out, offset, n)[..|out| + m]
  {
    CopyMatchSplit(out, offset, m, n - m);
    CopyMatchLength(out, offset, m);
    CopyMatchLength(CopyMatch(out, offset, m), offset, n - m);
  }

  lemma {:induction false} ExpandGrows(history: seq<byte>, sequences: seq<Sequence>)
    ensures history <= Expand(history, sequences)
  {
    if sequences != [] {
      var n := |sequences| - 1;
      var s := sequences[n];
      var before := Expand(history, sequences[..n]);
      ExpandGrows(history, sequences[..n]);
      CopyMatchLength(before + s.literals, s.offset, s.matchLength);
      var after := Expand(history, sequences);
      assert after[..|history|] == after[..|before + s.literals|][..|history|];
    }
  }

  lemma {:induction false} ExpandPrefix(history: seq<byte>, sequences: seq<Sequence>, i: nat)
    requires i <= |sequences|
    ensures Expand(history, sequences[..i]) <= Expand(history, sequences)
    decreases |sequences|
  {
    var n := |sequences|;
    if i == n {
      assert sequences[..i] == sequences;
    } else {
      var s := sequences[n - 1];
      var before := Expand(history, sequences[..n - 1]);
      ExpandPrefix(history, sequences[..n - 1], i);
      assert sequences[..n - 1][..i] == sequences[..i];
      CopyMatchLength(before + s.literals, s.offset, s.matchLength);
      var after := Expand(history, sequences);
      var early := Expand(history, sequences[..i]);
      assert after[..|early|] == after[..|before + s.literals|][..|early|];
    }
  }

  lemma {:induction false} LengthBytesSize(v: nat)
    ensures |LengthBytes(v)| == v / 255 + 1
  {
    if v >= 255 {
      LengthBytesSize(v - 255);
    }
  }

  lemma {:induction false} EncodeLonger(a: seq<Sequence>, b: seq<Sequence>)
    requires (forall i :: 0 <= i < |a| ==> Writable(a[i])) && forall i :: 0 <= i < |b| ==> Writable(b[i])
    ensures |EncodeSequences(a)| <= |EncodeSequences(a + b)|
    decreases |b|
  {
    hide EncodeSequence, Writable;
    if b == [] {
      assert a + b == a;
    } else {
      var n := |b| - 1;
      EncodeLonger(a, b[..n]);
      assert (a + b)[..|a + b| - 1] == a + b[..n];
    }
  }

  /** One step of the encoder: appending a sequence appends its bytes and applies it. */
  lemma AppendSequence(history: seq<byte>, low: int, sequences: seq<Sequence>, s: Sequence)
    requires WellFormed(history, low, sequences)
    requires Encodable(s)
    requires low <= |Expand(history, sequences)| + |s.literals| - s.offset
    ensures WellFormed(history, low, sequences + [s])
    ensures EncodeSequences(sequences + [s]) == EncodeSequences(sequences) + EncodeSequence(s)
    ensures Expand(history, sequences + [s]) == ApplySequence(Expand(history, sequences), s)
  {
    var all := sequences + [s];
    assert all[..|sequences|] == sequences;
    forall i | 0 <= i < |all|
      ensures Encodable(all[i]) && low <= |Expand(history, all[..i])| + |all[i].literals| - all[i].offset
    {
      if i < |sequences| {
        assert all[..i] == sequences[..i];
      }
    }
  }
}
