/**
  Accepted is not conforming: a byte string is written as at most one block, so the inputs the decoder
  takes although the format forbids them can be told exactly, and the smallest of them named.
 */
module Lz4Departures {
  import opened Lz4Format
  import Bytes
  import opened Lz4Decode
  import opened Lz4Conformance
  import opened Lz4Accept

  // ----- A written block can be read in one way only -----

  lemma {:induction false} LengthBytesUnique(a: nat, b: nat, x: seq<byte>, y: seq<byte>)
    requires LengthBytes(a) + x == LengthBytes(b) + y
    ensures a == b && x == y
    decreases a
  {
    assert (LengthBytes(a) + x)[0] == LengthBytes(a)[0];
    assert (LengthBytes(b) + y)[0] == LengthBytes(b)[0];
    if a >= 255 {
      assert LengthBytes(a - 255) + x == (LengthBytes(a) + x)[1..];
      assert LengthBytes(b - 255) + y == (LengthBytes(b) + y)[1..];
      LengthBytesUnique(a - 255, b - 255, x, y);
    } else {
      assert x == ([a] + x)[1..] == ([b] + y)[1..];
    }
  }

  lemma ExtensionUnique(a: nat, b: nat, x: seq<byte>, y: seq<byte>)
    requires Nibble(a) == Nibble(b) && Extension(a) + x == Extension(b) + y
    ensures a == b && x == y
  {
    if a >= 15 {
      LengthBytesUnique(a - 15, b - 15, x, y);
    } else {
      assert [] + x == x && [] + y == y;
    }
  }

  lemma SameHead(a: seq<byte>, b: seq<byte>, x: seq<byte>, y: seq<byte>)
    requires |a| == |b| && a + x == b + y
    ensures a == b && x == y
  {
    assert a == (a + x)[..|a|] && b == (b + y)[..|a|];
    assert x == (a + x)[|a|..] && y == (b + y)[|a|..];
  }

  lemma LiteralBytesUnique(l: seq<byte>, lc: nat, mc: nat, x: seq<byte>, l': seq<byte>, lc': nat, mc': nat, y: seq<byte>)
    requires |l| == Announced(lc) && |l'| == Announced(lc')
    requires LiteralBytes(l, lc, mc) + x == LiteralBytes(l', lc', mc') + y
    ensures l == l' && lc == lc' && Nibble(mc) == Nibble(mc') && x == y
  {
    hide Extension, Token, Announced, Nibble;
    TokenNibbles(lc, mc);
    TokenNibbles(lc', mc');
    assert LiteralBytes(l, lc, mc) + x == [Token(lc, mc)] + (Extension(lc) + (l + x));
    assert LiteralBytes(l', lc', mc') + y == [Token(lc', mc')] + (Extension(lc') + (l' + y));
    SameHead([Token(lc, mc)], [Token(lc', mc')], Extension(lc) + (l + x), Extension(lc') + (l' + y));
    assert [Token(lc, mc)][0] == [Token(lc', mc')][0];
    ExtensionUnique(lc, lc', l + x, l' + y);
    SameHead(l, l', x, y);
  }

  lemma OffsetUnique(a: nat, b: nat, x: seq<byte>, y: seq<byte>)
    requires a <= DISTANCE_MAX && b <= DISTANCE_MAX && OffsetBytes(a) + x == OffsetBytes(b) + y
    ensures a == b && x == y
  {
    SameHead(OffsetBytes(a), OffsetBytes(b), x, y);
    assert OffsetBytes(a)[0] == OffsetBytes(b)[0] && OffsetBytes(a)[1] == OffsetBytes(b)[1];
  }

  lemma PieceUnique(p: Piece, q: Piece, x: seq<byte>, y: seq<byte>)
    requires Sound(p) && Sound(q) && PieceBytes(p) + x == PieceBytes(q) + y
    ensures p == q && x == y
  {
    hide LiteralBytes, OffsetBytes, Extension, Nibble;
    PieceSpread(p, x);
    PieceSpread(q, y);
    LiteralBytesUnique(p.literals, p.literalCode, p.matchCode, OffsetBytes(p.offset) + (Extension(p.matchCode) + x),
                       q.literals, q.literalCode, q.matchCode, OffsetBytes(q.offset) + (Extension(q.matchCode) + y));
    OffsetUnique(p.offset, q.offset, Extension(p.matchCode) + x, Extension(q.matchCode) + y);
    ExtensionUnique(p.matchCode, q.matchCode, x, y);
  }

  lemma PieceSpread(p: Piece, x: seq<byte>)
    requires Sound(p)
    ensures PieceBytes(p) + x ==
            LiteralBytes(p.literals, p.literalCode, p.matchCode) + (OffsetBytes(p.offset) + (Extension(p.matchCode) + x))
  {
  }

  /** The closing literals of one writing are not the start of a sequence in another. */
  lemma LastIsLast(w: Writing, v: Writing)
    requires SoundWriting(w) && SoundWriting(v) && WritingBytes(w) == WritingBytes(v)
    requires w.pieces == []
    ensures v == w.(lowCode := v.lowCode) && Nibble(w.lowCode) == Nibble(v.lowCode)
  {
    hide LiteralBytes, Nibble;
    assert WritingBytes(w) == LiteralBytes(w.last, w.lastCode, w.lowCode) + [];
    if v.pieces == [] {
      assert WritingBytes(v) == LiteralBytes(v.last, v.lastCode, v.lowCode) + [];
      LiteralBytesUnique(w.last, w.lastCode, w.lowCode, [], v.last, v.lastCode, v.lowCode, []);
    } else {
      var p := v.pieces[0];
      var rest := MatchBytes(p.offset, p.matchCode) + WritingBytes(Tail(v));
      assert WritingBytes(v) == LiteralBytes(p.literals, p.literalCode, p.matchCode) + rest;
      LiteralBytesUnique(w.last, w.lastCode, w.lowCode, [], p.literals, p.literalCode, p.matchCode, rest);
      TwoBytes(p);
      assert false;
    }
  }

  lemma {:induction false} WritingUnique(w: Writing, v: Writing)
    requires SoundWriting(w) && SoundWriting(v) && WritingBytes(w) == WritingBytes(v)
    ensures v == w.(lowCode := v.lowCode) && Nibble(w.lowCode) == Nibble(v.lowCode)
    decreases |w.pieces|
  {
    hide PieceBytes, LiteralBytes, Nibble;
    if w.pieces == [] {
      LastIsLast(w, v);
    } else if v.pieces == [] {
      LastIsLast(v, w);
    } else {
      assert WritingBytes(w) == PieceBytes(w.pieces[0]) + WritingBytes(Tail(w));
      assert WritingBytes(v) == PieceBytes(v.pieces[0]) + WritingBytes(Tail(v));
      PieceUnique(w.pieces[0], v.pieces[0], WritingBytes(Tail(w)), WritingBytes(Tail(v)));
      WritingUnique(Tail(w), Tail(v));
      assert w.pieces == [w.pieces[0]] + w.pieces[1..];
      assert v.pieces == [v.pieces[0]] + v.pieces[1..];
    }
  }

  // ----- Written blocks and the format -----

  /** No length field adds up to 2^32 or more. */
  ghost predicate Unwrapped(w: Writing) {
    && w.lastCode < U32_RANGE
    && (forall i :: 0 <= i < |w.pieces| ==> w.pieces[i].literalCode < U32_RANGE && w.pieces[i].matchCode < U32_RANGE)
  }

  lemma {:induction false} EncodeHead(sequences: seq<Sequence>)
    requires sequences != [] && forall i :: 0 <= i < |sequences| ==> Writable(sequences[i])
    ensures EncodeSequences(sequences) == EncodeSequence(sequences[0]) + EncodeSequences(sequences[1..])
    decreases |sequences|
  {
    hide EncodeSequence;
    var n := |sequences| - 1;
    var head, rest := sequences[0], sequences[1..];
    if n > 0 {
      EncodeHead(sequences[..n]);
      assert sequences[..n][1..] == rest[..n - 1];
      assert EncodeSequences(rest) == EncodeSequences(rest[..n - 1]) + EncodeSequence(sequences[n]);
      Bytes.Concatenate(EncodeSequence(head), EncodeSequences(rest[..n - 1]), EncodeSequence(sequences[n]));
    } else {
      assert sequences[..n] == [] == sequences[1..];
    }
  }

  lemma PieceEncodes(p: Piece)
    requires Sound(p) && p.literalCode < U32_RANGE && p.matchCode < U32_RANGE
    ensures Writable(SequenceOf(p)) && PieceBytes(p) == EncodeSequence(SequenceOf(p))
  {
  }

  /** Then it is the format's encoding of its block, but for zero offsets and the last low nibble. */
  lemma {:induction false} WrittenAsFormat(w: Writing)
    requires SoundWriting(w) && Unwrapped(w)
    ensures forall i :: 0 <= i < |w.pieces| ==> Writable(BlockOf(w).sequences[i])
    ensures WritingBytes(w) == EncodeSequences(BlockOf(w).sequences) + LiteralPart(w.last, w.lowCode)
    decreases |w.pieces|
  {
    hide PieceBytes, EncodeSequence, LiteralBytes, LiteralPart, SequenceOf, Writable;
    forall i | 0 <= i < |w.pieces| ensures Writable(BlockOf(w).sequences[i]) {
      PieceEncodes(w.pieces[i]);
    }
    if w.pieces == [] {
      LastPart(w);
    } else {
      var sequences := BlockOf(w).sequences;
      WrittenAsFormat(Tail(w));
      EncodeHead(sequences);
      assert sequences[1..] == BlockOf(Tail(w)).sequences;
      PieceEncodes(w.pieces[0]);
      Bytes.Concatenate(EncodeSequence(sequences[0]), EncodeSequences(sequences[1..]), LiteralPart(w.last, w.lowCode));
      Bytes.Concatenate(PieceBytes(w.pieces[0]), PiecesBytes(w.pieces[1..]), LiteralBytes(w.last, w.lastCode, w.lowCode));
    }
  }

  lemma LastPart(w: Writing)
    requires SoundWriting(w) && Unwrapped(w)
    ensures LiteralBytes(w.last, w.lastCode, w.lowCode) == LiteralPart(w.last, w.lowCode)
  {
  }

  lemma CodeBound(l: seq<byte>, lc: nat, mc: nat)
    ensures lc <= 255 * |LiteralBytes(l, lc, mc)|
    ensures lc <= 255 * |Extension(lc)| + 14
  {
    if lc >= 15 {
      LengthBytesSize(lc - 15);
    }
  }

  /** Inputs of less than 2^32 / 255 bytes have no length field that adds up to so much. */
  lemma {:induction false} ShortIsUnwrapped(w: Writing)
    requires SoundWriting(w) && 255 * |WritingBytes(w)| < U32_RANGE
    ensures Unwrapped(w)
    decreases |w.pieces|
  {
    hide LiteralBytes, Extension;
    CodeBound(w.last, w.lastCode, w.lowCode);
    if w.pieces != [] {
      var p := w.pieces[0];
      assert WritingBytes(w) == PieceBytes(p) + WritingBytes(Tail(w));
      ShortIsUnwrapped(Tail(w));
      CodeBound(p.literals, p.literalCode, p.matchCode);
      CodeBound([], p.matchCode, 0);
      assert forall i :: 1 <= i < |w.pieces| ==> w.pieces[i] == Tail(w).pieces[i - 1];
    }
  }

  /** `src` is the encoding of `b` but for the low nibble of the last token, and stands for `out`. */
  ghost predicate EncodesLoosely(src: seq<byte>, history: seq<byte>, out: seq<byte>, b: Block, lowCode: nat) {
    && (forall i :: 0 <= i < |b.sequences| ==> Writable(b.sequences[i]))
    && src == EncodeSequences(b.sequences) + LiteralPart(b.last, lowCode)
    && out == ExpandBlock(history, b)
  }

  /** Whatever a full decode of such an input gives is the expansion of a block the input encodes. */
  lemma DecodedIsEncoded(src: seq<byte>, history: seq<byte>, lim: Limits, out: seq<byte>)
    requires 255 * |src| < U32_RANGE && |history| < lim.oend && !lim.partial
    requires Decompress(src, history, lim) == Decoded(out)
    ensures exists b, lowCode :: EncodesLoosely(src, history, out, b, lowCode)
  {
    hide Decompress, ExpandBlock, WritingBytes, EncodeSequences, LiteralPart;
    AcceptsExactly(src, history, lim, out);
    var w :| Accepted(src, history, lim, w) && out == ExpandBlock(history, BlockOf(w));
    ShortIsUnwrapped(w);
    WrittenAsFormat(w);
    assert EncodesLoosely(src, history, out, BlockOf(w), w.lowCode);
  }

  function PieceFor(s: Sequence): Piece
    requires Writable(s)
  {
    Piece(s.literals, |s.literals|, s.offset, s.matchLength - 4)
  }

  function WritingOf(b: Block): Writing
    requires forall i :: 0 <= i < |b.sequences| ==> Writable(b.sequences[i])
  {
    Writing(seq(|b.sequences|, i requires 0 <= i < |b.sequences| => PieceFor(b.sequences[i])), b.last, |b.last|, 0)
  }

  lemma PieceForEncodes(s: Sequence)
    requires Writable(s) && |s.literals| < U32_RANGE
    ensures Sound(PieceFor(s)) && PieceBytes(PieceFor(s)) == EncodeSequence(s)
  {
  }

  /** The format's own encodings are writings, whatever the match lengths. */
  lemma {:induction false} EncodedIsWritten(b: Block)
    requires forall i :: 0 <= i < |b.sequences| ==> Writable(b.sequences[i])
    requires |EncodeBlock(b)| < U32_RANGE
    ensures SoundWriting(WritingOf(b)) && WritingBytes(WritingOf(b)) == EncodeBlock(b)
    decreases |b.sequences|
  {
    hide EncodeSequence, PieceFor, PieceBytes, LiteralPart, LiteralBytes;
    var w := WritingOf(b);
    if b.sequences == [] {
      LastEncodes(b.last);
      assert WritingBytes(w) == LiteralBytes(b.last, |b.last|, 0);
    } else {
      EncodeHead(b.sequences);
      var s, rest := b.sequences[0], Block(b.sequences[1..], b.last);
      assert EncodeBlock(b) == EncodeSequence(s) + EncodeBlock(rest);
      EncodedIsWritten(rest);
      LiteralsShort(s);
      PieceForEncodes(s);
      assert w.pieces[1..] == WritingOf(rest).pieces;
      assert forall i :: 1 <= i < |w.pieces| ==> w.pieces[i] == w.pieces[1..][i - 1];
      assert WritingBytes(w) == PieceBytes(PieceFor(s)) + WritingBytes(Tail(w));
    }
  }

  lemma LiteralsShort(s: Sequence)
    requires Writable(s)
    ensures |s.literals| < |EncodeSequence(s)|
  {
  }

  lemma LastEncodes(last: seq<byte>)
    requires |LiteralPart(last, 0)| < U32_RANGE
    ensures |last| == Announced(|last|) && LiteralBytes(last, |last|, 0) == LiteralPart(last, 0)
  {
  }

  // ----- When an accepted block conforms -----

  /** An accepted sequence respects `low`, which is all the format asks beyond a positive offset. */
  lemma {:induction false} PermittedLow(n: nat, ip: nat, history: seq<byte>, w: Writing, lim: Limits, i: nat)
    requires AllSound(w.pieces) && AllPermitted(n, ip, |history|, w.pieces, lim) && i < |w.pieces|
    ensures lim.low <= |Expand(history, BlockOf(w).sequences[..i])| + |w.pieces[i].literals| - w.pieces[i].offset
    decreases i
  {
    hide ApplySequence, PieceBytes;
    var sequences := BlockOf(w).sequences;
    if i > 0 {
      var p := w.pieces[0];
      ApplyLength(history, SequenceOf(p));
      PermittedLow(n, ip + |PieceBytes(p)|, ApplySequence(history, SequenceOf(p)), Tail(w), lim, i - 1);
      ExpandHead(history, sequences[..i]);
      assert sequences[..i][1..] == BlockOf(Tail(w)).sequences[..i - 1];
    }
  }

  /** Offsets are positive, the last bytes are literals as the format asks, and the last low nibble is 0. */
  ghost predicate KeepsRules(w: Writing) {
    && (forall i :: 0 <= i < |w.pieces| ==> 1 <= w.pieces[i].offset)
    && EndConditions(BlockOf(w))
    && w.lowCode == 0
  }

  lemma KeptRulesConform(src: seq<byte>, history: seq<byte>, lim: Limits, w: Writing, text: seq<byte>)
    requires Accepted(src, history, lim, w) && Unwrapped(w) && KeepsRules(w)
    requires history + text == ExpandBlock(history, BlockOf(w))
    ensures IsBlockFor(src, history, lim.low, text)
  {
    hide Expand, EndConditions, WritingBytes, EncodeSequences;
    var b := BlockOf(w);
    WrittenAsFormat(w);
    forall i | 0 <= i < |b.sequences|
      ensures Encodable(b.sequences[i])
      ensures lim.low <= |Expand(history, b.sequences[..i])| + |b.sequences[i].literals| - b.sequences[i].offset
    {
      PermittedLow(|src|, 0, history, w, lim, i);
    }
    assert Encodes(src, history, lim.low, text, b);
  }

  lemma ConformingKeepsRules(src: seq<byte>, history: seq<byte>, lim: Limits, w: Writing, text: seq<byte>)
    requires |src| < U32_RANGE && Accepted(src, history, lim, w) && Unwrapped(w)
    requires IsBlockFor(src, history, lim.low, text)
    ensures KeepsRules(w) && history + text == ExpandBlock(history, BlockOf(w))
  {
    hide Expand, EncodeBlock, WritingBytes, EndConditions;
    var b :| Encodes(src, history, lim.low, text, b);
    EncodedIsWritten(b);
    WritingUnique(WritingOf(b), w);
    forall i | 0 <= i < |b.sequences| ensures BlockOf(w).sequences[i] == b.sequences[i] {
      assert w.pieces[i] == PieceFor(b.sequences[i]);
    }
    assert BlockOf(w) == b;
  }

  /** An accepted input is a conforming block exactly if its writing keeps those rules. */
  lemma ConformsExactly(src: seq<byte>, history: seq<byte>, lim: Limits, w: Writing, text: seq<byte>)
    requires |src| < U32_RANGE && Accepted(src, history, lim, w) && Unwrapped(w)
    ensures IsBlockFor(src, history, lim.low, text) <==>
            KeepsRules(w) && history + text == ExpandBlock(history, BlockOf(w))
  {
    hide IsBlockFor, KeepsRules, Accepted, Unwrapped, ExpandBlock;
    if IsBlockFor(src, history, lim.low, text) {
      ConformingKeepsRules(src, history, lim, w, text);
    } else if KeepsRules(w) && history + text == ExpandBlock(history, BlockOf(w)) {
      KeptRulesConform(src, history, lim, w, text);
    }
  }

  // ----- The smallest departures -----

  lemma Departs(src: seq<byte>, lim: Limits, w: Writing)
    requires |src| < U32_RANGE && !lim.partial && lim.low == 0 && 0 < lim.oend
    requires Accepted(src, [], lim, w) && Unwrapped(w) && !KeepsRules(w)
    ensures Decompress(src, [], lim) == Decoded(ExpandBlock([], BlockOf(w)))
    ensures forall text :: !IsBlockFor(src, [], 0, text)
  {
    hide Accepted, Unwrapped, KeepsRules, IsBlockFor, Decompress, ExpandBlock;
    AcceptsExactly(src, [], lim, ExpandBlock([], BlockOf(w)));
    forall text ensures !IsBlockFor(src, [], 0, text) {
      ConformsExactly(src, [], lim, w, text);
    }
  }

  /** One sequence and closing literals, which the checks let through and the rules forbid. */
  lemma OnePieceDeparts(src: seq<byte>, p: Piece, last: seq<byte>, lim: Limits, out: seq<byte>)
    requires Sound(p) && p.matchCode < 15 && p.literalCode < 15 && |last| < 15
    requires src == PieceBytes(p) + LiteralBytes(last, |last|, 0)
    requires |src| < U32_RANGE && !lim.partial && lim.low == 0 && 0 < lim.oend
    requires Permitted(|src|, 0, 0, p, lim)
    requires out == CopyMatch(p.literals, p.offset, p.matchCode + MINMATCH) + last && |out| <= lim.oend
    requires p.offset == 0 || |last| < LASTLITERALS
    ensures Decompress(src, [], lim) == Decoded(out)
    ensures forall text :: !IsBlockFor(src, [], 0, text)
  {
    hide Permitted, PieceBytes, LiteralBytes, Decompress, IsBlockFor, CopyMatch;
    var w := Writing([p], last, |last|, 0);
    assert PiecesBytes([p]) == PieceBytes(p) + PiecesBytes([]);
    assert BlockOf(w).sequences == [SequenceOf(p)];
    assert [SequenceOf(p)][..0] == [];
    assert Expand([], [SequenceOf(p)]) == ApplySequence(Expand([], []), SequenceOf(p));
    assert [] + p.literals == p.literals;
    assert WritingBytes(w) == PieceBytes(p) + LiteralBytes(last, |last|, 0);
    assert AllPermitted(|src|, |PieceBytes(p)|, |p.literals| + SequenceOf(p).matchLength, [], lim);
    assert w.pieces[0] == p && w.pieces[1..] == [];
    assert AllPermitted(|src|, 0, 0, w.pieces, lim);
    assert ExpandBlock([], BlockOf(w)) == out;
    Departs(src, lim, w);
  }

  /** The shortcut takes a match that supplies the last four bytes. */
  lemma EndRulesNotEnforced()
    ensures var src: seq<byte> := [0xE0, 1, 2, 3, 4, 5, 6, 7, 8, 9, 10, 11, 12, 13, 14, 8, 0, 0];
            && Decompress(src, [], Limits(64, 0, false)) ==
               Decoded([1, 2, 3, 4, 5, 6, 7, 8, 9, 10, 11, 12, 13, 14, 7, 8, 9, 10])
            && forall text :: !IsBlockFor(src, [], 0, text)
  {
    hide Decompress, IsBlockFor, CopyMatch;
    var literals: seq<byte> := [1, 2, 3, 4, 5, 6, 7, 8, 9, 10, 11, 12, 13, 14];
    var src: seq<byte> := [0xE0, 1, 2, 3, 4, 5, 6, 7, 8, 9, 10, 11, 12, 13, 14, 8, 0, 0];
    var out: seq<byte> := [1, 2, 3, 4, 5, 6, 7, 8, 9, 10, 11, 12, 13, 14, 7, 8, 9, 10];
    var p := Piece(literals, 14, 8, 0);
    assert LiteralBytes(literals, 14, 0) == [0xE0] + literals;
    assert MatchBytes(8, 0) == [8, 0] && LiteralBytes([], 0, 0) == [0];
    assert src == PieceBytes(p) + LiteralBytes([], 0, 0);
    assert out[..14] == literals;
    CopyMatchUnique(literals, 8, 4, out);
    assert out + [] == out;
    OnePieceDeparts(src, p, [], Limits(64, 0, false), out);
  }

  /** An offset of zero gives zero bytes. */
  lemma ZeroOffsetTaken()
    ensures var src: seq<byte> := [0, 0, 0, 0x50, 1, 2, 3, 4, 5];
            && Decompress(src, [], Limits(64, 0, false)) == Decoded([0, 0, 0, 0, 1, 2, 3, 4, 5])
            && forall text :: !IsBlockFor(src, [], 0, text)
  {
    hide Decompress, IsBlockFor, CopyMatch;
    var src: seq<byte> := [0, 0, 0, 0x50, 1, 2, 3, 4, 5];
    var last: seq<byte> := [1, 2, 3, 4, 5];
    var p := Piece([], 0, 0, 0);
    assert LiteralBytes([], 0, 0) == [0] && MatchBytes(0, 0) == [0, 0];
    assert LiteralBytes(last, 5, 0) == [0x50] + last;
    assert src == PieceBytes(p) + LiteralBytes(last, 5, 0);
    CopyMatchZeroShape([], 4);
    assert [] + seq(4, _ => 0) + last == [0, 0, 0, 0, 1, 2, 3, 4, 5];
    OnePieceDeparts(src, p, last, Limits(64, 0, false), [0, 0, 0, 0, 1, 2, 3, 4, 5]);
  }

  /** Nothing reads the low nibble of the last token. */
  lemma LastNibbleNotRead(low: nat)
    requires 0 < low < 16
    ensures Decompress([low], [], Limits(64, 0, false)) == Decoded([])
    ensures forall text :: !IsBlockFor([low], [], 0, text)
  {
    var w := Writing([], [], 0, low);
    assert WritingBytes(w) == [low];
    Departs(WritingBytes(w), Limits(64, 0, false), w);
  }

  /** A literal length that the input cuts short is no error in a partial decode: the literals are taken
      from the bytes that should continue the length.  A full decode never accepts one (AcceptsExactly). */
  lemma CutLengthTaken(rest: seq<byte>)
    requires |rest| == 15
    ensures Decompress([0xF0, 255] + rest, [], Limits(8, 0, true)) == Decoded(rest[..8])
    ensures Decompress([0xF0, 255] + rest, [], Limits(64, 0, false)).Malformed?
  {
    var src: seq<byte> := [0xF0, 255] + rest;
    assert ReadLength(src, 1, 2, 0) == LengthRead(255, 2, true);
    assert LiteralField(src, 0) == Field(270, 2);
    assert src[2..10] == rest[..8];
    assert [] + rest[..8] == rest[..8];
  }
}
