/**
  What the decoder accepts, and what it makes of it, for every input: a full decode succeeds exactly on
  the byte strings that are written as a block and keep the position checks of the code, and gives that
  block's expansion.  The checks are weaker than the format's rules, and this says by how much.
 */
module Lz4Accept {
  import opened Lz4Format
  import opened Lz4Decode
  import opened Lz4Conformance

  // ----- Written blocks, conforming or not -----

  /** A sequence with the sums its length fields add up to, which the decoder takes modulo 2^32. */
  datatype Piece = Piece(literals: seq<byte>, literalCode: nat, offset: nat, matchCode: nat)

  /** `lowCode`: what the low nibble of the last token says, where no match follows. */
  datatype Writing = Writing(pieces: seq<Piece>, last: seq<byte>, lastCode: nat, lowCode: nat)

  function Announced(code: nat): nat {
    if code < 15 then code else 15 + (code - 15) % 0x1_0000_0000
  }

  function LiteralBytes(literals: seq<byte>, literalCode: nat, matchCode: nat): seq<byte> {
    [Token(literalCode, matchCode)] + Extension(literalCode) + literals
  }

  predicate Sound(p: Piece) {
    |p.literals| == Announced(p.literalCode) && p.offset <= 65535
  }

  predicate AllSound(pieces: seq<Piece>) {
    forall i :: 0 <= i < |pieces| ==> Sound(pieces[i])
  }

  function MatchBytes(offset: nat, matchCode: nat): seq<byte>
    requires offset <= 65535
  {
    OffsetBytes(offset) + Extension(matchCode)
  }

  function PieceBytes(p: Piece): seq<byte>
    requires Sound(p)
  {
    LiteralBytes(p.literals, p.literalCode, p.matchCode) + MatchBytes(p.offset, p.matchCode)
  }

  function PiecesBytes(pieces: seq<Piece>): seq<byte>
    requires AllSound(pieces)
  {
    if pieces == [] then [] else PieceBytes(pieces[0]) + PiecesBytes(pieces[1..])
  }

  ghost predicate SoundWriting(w: Writing) {
    AllSound(w.pieces) && |w.last| == Announced(w.lastCode)
  }

  function WritingBytes(w: Writing): seq<byte>
    requires SoundWriting(w)
  {
    PiecesBytes(w.pieces) + LiteralBytes(w.last, w.lastCode, w.lowCode)
  }

  function SequenceOf(p: Piece): Sequence {
    Sequence(p.literals, p.offset, Announced(p.matchCode) + 4)
  }

  function BlockOf(w: Writing): Block {
    Block(seq(|w.pieces|, i requires 0 <= i < |w.pieces| => SequenceOf(w.pieces[i])), w.last)
  }

  // ----- The checks of the decoder -----

  /** The shortcut: short literals with room for 16 input bytes and 32 output bytes, token at `ip` of `n`. */
  predicate Quick(n: nat, ip: nat, op: nat, p: Piece, lim: Limits) {
    p.literalCode < 15 && ip + 1 + |Extension(p.literalCode)| + 16 < n && op + 32 <= lim.oend
  }

  /** Else the literals leave room for more in both buffers. */
  predicate Roomy(n: nat, ip: nat, op: nat, p: Piece, lim: Limits) {
    Quick(n, ip, op, p, lim) ||
    (op + |p.literals| + 12 <= lim.oend && ip + |LiteralBytes(p.literals, p.literalCode, p.matchCode)| + 8 <= n)
  }

  /** The match, its offset at `ip`, starts at or after `low` and ends five bytes before the end, unless
      it is short, far enough back and follows literals that took the shortcut; an extended length also
      leaves five bytes of input. */
  predicate MatchPermitted(n: nat, ip: nat, op: nat, quick: bool, p: Piece, lim: Limits) {
    && lim.low <= op - p.offset
    && (p.matchCode < 15 || ip + 2 + |Extension(p.matchCode)| + 5 <= n)
    && ((quick && p.matchCode < 15 && 8 <= p.offset) || op + SequenceOf(p).matchLength + 5 <= lim.oend)
  }

  predicate Permitted(n: nat, ip: nat, op: nat, p: Piece, lim: Limits) {
    && Roomy(n, ip, op, p, lim)
    && MatchPermitted(n, ip + |LiteralBytes(p.literals, p.literalCode, p.matchCode)|, op + |p.literals|,
                      Quick(n, ip, op, p, lim), p, lim)
  }

  predicate AllPermitted(n: nat, ip: nat, op: nat, pieces: seq<Piece>, lim: Limits)
    requires AllSound(pieces)
    decreases |pieces|
  {
    pieces == [] ||
    (var p := pieces[0];
     && Permitted(n, ip, op, p, lim)
     && AllPermitted(n, ip + |PieceBytes(p)|, op + |p.literals| + SequenceOf(p).matchLength, pieces[1..], lim))
  }

  /** `src` is written as `w`, every sequence passes the checks, and the expansion fits the buffer. */
  ghost predicate Accepted(src: seq<byte>, history: seq<byte>, lim: Limits, w: Writing) {
    && SoundWriting(w)
    && src == WritingBytes(w)
    && AllPermitted(|src|, 0, |history|, w.pieces, lim)
    && |ExpandBlock(history, BlockOf(w))| <= lim.oend
  }

  // ----- Reading what was written -----

  lemma TokenNibbles(a: nat, b: nat)
    ensures Token(a, b) / 16 == Nibble(a) && Token(a, b) % 16 == Nibble(b)
  {
  }

  lemma ReadLiterals(src: seq<byte>, ip: nat, l: seq<byte>, lc: nat, mc: nat)
    requires At(src, ip, LiteralBytes(l, lc, mc)) && |l| == Announced(lc)
    ensures ip < |src| && src[ip] == Token(lc, mc)
    ensures LiteralField(src, ip) == Field(|l|, ip + 1 + |Extension(lc)|)
    ensures At(src, ip + 1 + |Extension(lc)|, l)
  {
    hide LengthBytes, ReadLength, Token;
    var ext := Extension(lc);
    AtSplit(src, ip, [Token(lc, mc)] + ext, l);
    AtSplit(src, ip, [Token(lc, mc)], ext);
    assert src[ip] == src[ip..ip + 1][0];
    TokenNibbles(lc, mc);
    if lc >= 15 {
      LengthBytesSize(lc - 15);
      ReadLengthSum(src, ip + 1, lc - 15, |src| - RUN_MASK, 0);
    }
  }

  lemma ReadMatch(src: seq<byte>, token: byte, ip: nat, mc: nat)
    requires ip < |src| && token % 16 == Nibble(mc)
    requires At(src, ip, Extension(mc))
    ensures var r := MatchField(src, token, ip);
            if mc < 15 || ip + |Extension(mc)| + 5 <= |src| then r == Field(Announced(mc), ip + |Extension(mc)|)
            else r.FieldError?
  {
    hide LengthBytes, ReadLength;
    if mc >= 15 {
      ReadLengthSum(src, ip, mc - 15, |src| - LASTLITERALS + 1, 0);
    }
  }

  /** Written literals with more input behind them pass exactly with the shortcut or with room. */
  lemma PieceLiterals(src: seq<byte>, ip: nat, out: seq<byte>, lim: Limits, p: Piece)
    requires Sound(p)
    requires At(src, ip, LiteralBytes(p.literals, p.literalCode, p.matchCode))
    requires ip + |LiteralBytes(p.literals, p.literalCode, p.matchCode)| + 2 < |src|
    requires |out| <= lim.oend && !lim.partial
    ensures ip < |src| && src[ip] == Token(p.literalCode, p.matchCode)
    ensures Shortcut(src, src[ip], LiteralField(src, ip).pos, |out|, lim) == Quick(|src|, ip, |out|, p, lim)
    ensures if Roomy(|src|, ip, |out|, p, lim)
            then LiteralStep(src, ip, out, lim) ==
                 Go(out + p.literals, ip + |LiteralBytes(p.literals, p.literalCode, p.matchCode)|)
            else LiteralStep(src, ip, out, lim).Stop? && LiteralStep(src, ip, out, lim).outcome.Malformed?
  {
    hide LiteralField, Extension, Token, Announced;
    ReadLiterals(src, ip, p.literals, p.literalCode, p.matchCode);
    TokenNibbles(p.literalCode, p.matchCode);
    assert |LiteralBytes(p.literals, p.literalCode, p.matchCode)| == 1 + |Extension(p.literalCode)| + |p.literals|;
  }

  lemma PieceMatch(src: seq<byte>, token: byte, quick: bool, ip: nat, out: seq<byte>, lim: Limits, p: Piece)
    requires Sound(p) && token % 16 == Nibble(p.matchCode)
    requires At(src, ip, MatchBytes(p.offset, p.matchCode)) && ip + |MatchBytes(p.offset, p.matchCode)| < |src|
    requires |out| <= lim.oend && (quick ==> |out| + 18 <= lim.oend) && !lim.partial
    ensures |MatchBytes(p.offset, p.matchCode)| == 2 + |Extension(p.matchCode)|
    ensures if MatchPermitted(|src|, ip, |out|, quick, p, lim)
            then MatchStep(src, token, quick, ip, out, lim) ==
                 Go(CopyMatch(out, p.offset, SequenceOf(p).matchLength), ip + |MatchBytes(p.offset, p.matchCode)|)
            else MatchStep(src, token, quick, ip, out, lim).Stop?
                 && MatchStep(src, token, quick, ip, out, lim).outcome.Malformed?
  {
    hide MatchField, Extension, Offset, CopyMatch;
    AtSplit(src, ip, OffsetBytes(p.offset), Extension(p.matchCode));
    OffsetAt(src, ip, p.offset);
    ReadMatch(src, token, ip + 2, p.matchCode);
    CopyMatchLength(out, p.offset, SequenceOf(p).matchLength);
  }

  /** A written sequence passes the token step exactly when it is permitted, and is then applied. */
  lemma PieceStep(src: seq<byte>, ip: nat, out: seq<byte>, lim: Limits, p: Piece)
    requires Sound(p) && At(src, ip, PieceBytes(p)) && ip + |PieceBytes(p)| < |src|
    requires |out| <= lim.oend && !lim.partial
    ensures ip < |src|
    ensures if Permitted(|src|, ip, |out|, p, lim)
            then TokenStep(src, ip, out, lim) == Go(ApplySequence(out, SequenceOf(p)), ip + |PieceBytes(p)|)
            else TokenStep(src, ip, out, lim).Stop? && TokenStep(src, ip, out, lim).outcome.Malformed?
  {
    hide LiteralStep, MatchStep, LiteralField, Shortcut, Quick, Roomy, MatchPermitted, Extension, Token, Announced, CopyMatch, MatchBytes;
    var head, tail := LiteralBytes(p.literals, p.literalCode, p.matchCode), MatchBytes(p.offset, p.matchCode);
    AtSplit(src, ip, head, tail);
    assert |tail| >= 2 by { TwoBytes(p); }
    PieceLiterals(src, ip, out, lim, p);
    TokenNibbles(p.literalCode, p.matchCode);
    if Roomy(|src|, ip, |out|, p, lim) {
      var quick := Shortcut(src, src[ip], LiteralField(src, ip).pos, |out|, lim);
      PieceMatch(src, src[ip], quick, ip + |head|, out + p.literals, lim, p);
    }
  }

  lemma TwoBytes(p: Piece)
    requires Sound(p)
    ensures |MatchBytes(p.offset, p.matchCode)| >= 2
  {
  }

  /** Closing literals end the decode if they fit, whatever the low nibble says. */
  lemma LastStep(src: seq<byte>, ip: nat, out: seq<byte>, lim: Limits, l: seq<byte>, lc: nat, mc: nat)
    requires At(src, ip, LiteralBytes(l, lc, mc)) && ip + |LiteralBytes(l, lc, mc)| == |src| && |l| == Announced(lc)
    requires |out| <= lim.oend && !lim.partial
    ensures ip < |src|
    ensures if |out| + |l| <= lim.oend
            then TokenStep(src, ip, out, lim) == Stop(Decoded(out + l))
            else TokenStep(src, ip, out, lim).Stop? && TokenStep(src, ip, out, lim).outcome.Malformed?
  {
    hide LiteralField, MatchStep, Extension, Token;
    ReadLiterals(src, ip, l, lc, mc);
    TokenNibbles(lc, mc);
    var pos := ip + 1 + |Extension(lc)|;
    assert src[pos..pos + |l|] == src[pos..];
  }

  // ----- Finding what was written -----

  lemma LengthByte(src: seq<byte>, ip: nat)
    requires ip < |src| && src[ip] != 255
    ensures At(src, ip, LengthBytes(src[ip])) && |LengthBytes(src[ip])| == 1
  {
    assert LengthBytes(src[ip]) == [src[ip]] == src[ip..ip + 1];
  }

  lemma LengthBytesMore(src: seq<byte>, ip: nat, v: nat)
    requires ip < |src| && src[ip] == 255 && At(src, ip + 1, LengthBytes(v))
    ensures At(src, ip, LengthBytes(255 + v)) && |LengthBytes(255 + v)| == 1 + |LengthBytes(v)|
  {
    assert src[ip..ip + 1] == [255];
    AtJoin(src, ip, [255], LengthBytes(v));
    assert LengthBytes(255 + v) == [255] + LengthBytes(v);
  }

  /** Length bytes the decoder got to the end of add up to some `v`; cut short, they were all 255. */
  lemma {:induction false} ParseLength(src: seq<byte>, ip: nat, lencheck: int, sum: nat) returns (v: nat)
    requires ip < lencheck <= |src| && sum < U32_RANGE
    ensures var r := ReadLength(src, ip, lencheck, sum);
            || (At(src, ip, LengthBytes(v)) && r.pos == ip + |LengthBytes(v)| && r.value == (sum + v) % U32_RANGE)
            || (r.overran && r.pos == lencheck && r.value == (sum + 255 * (lencheck - ip)) % U32_RANGE)
    decreases |src| - ip
  {
    hide LengthBytes;
    v := src[ip];
    if src[ip] != 255 {
      LengthByte(src, ip);
    } else if ip + 1 < lencheck {
      var rest := ParseLength(src, ip + 1, lencheck, (sum + 255) % U32_RANGE);
      v := 255 + rest;
      SumAgain(sum, 255, rest);
      SumAgain(sum, 255, 255 * (lencheck - ip - 1));
      if At(src, ip + 1, LengthBytes(rest)) {
        LengthBytesMore(src, ip, rest);
      }
    }
  }

  /** Fewer than 2^32 bytes of 255 never add up to a multiple of 2^32. */
  lemma SumOf255s(k: nat)
    requires 0 < k < U32_RANGE
    ensures (255 * k) % U32_RANGE != 0
  {
  }

  lemma ParseLongLength(src: seq<byte>, ip: nat) returns (lc: nat)
    requires ip < |src| < U32_RANGE && src[ip] / 16 == RUN_MASK
    requires var f := LiteralField(src, ip); f.Field? && f.pos + f.length <= |src|
    ensures var f := LiteralField(src, ip);
            lc >= 15 && f.length == Announced(lc) && At(src, ip + 1, Extension(lc)) && f.pos == ip + 1 + |Extension(lc)|
  {
    hide LengthBytes, ReadLength;
    var v := ParseLength(src, ip + 1, |src| - RUN_MASK, 0);
    lc := 15 + v;
    SumOf255s(|src| - RUN_MASK - (ip + 1));
  }

  /** Literals that stay inside the input are written out: a length cut short announces too many. */
  lemma ParseLiterals(src: seq<byte>, ip: nat, mc: nat) returns (lc: nat)
    requires ip < |src| < U32_RANGE && Nibble(mc) == src[ip] % 16
    requires var f := LiteralField(src, ip); f.Field? && f.pos + f.length <= |src|
    ensures var f := LiteralField(src, ip);
            var l := src[f.pos..f.pos + f.length];
            && |l| == Announced(lc)
            && At(src, ip, LiteralBytes(l, lc, mc))
            && f.pos + f.length == ip + |LiteralBytes(l, lc, mc)|
  {
    hide LengthBytes, ReadLength, Token;
    var f := LiteralField(src, ip);
    var l := src[f.pos..f.pos + f.length];
    if src[ip] / 16 != RUN_MASK {
      lc := src[ip] / 16;
    } else {
      lc := ParseLongLength(src, ip);
    }
    TokenIs(src[ip], lc, mc);
    assert src[ip..ip + 1] == [Token(lc, mc)];
    AtJoin(src, ip, [Token(lc, mc)], Extension(lc));
    AtJoin(src, ip, [Token(lc, mc)] + Extension(lc), l);
  }

  lemma TokenIs(token: byte, lc: nat, mc: nat)
    requires token / 16 == Nibble(lc) && token % 16 == Nibble(mc)
    ensures token == Token(lc, mc)
  {
  }

  lemma ParseMatch(src: seq<byte>, token: byte, ip: nat) returns (mc: nat)
    requires ip < |src| && MatchField(src, token, ip).Field?
    ensures Nibble(mc) == token % 16
    ensures At(src, ip, Extension(mc)) && MatchField(src, token, ip).pos == ip + |Extension(mc)|
  {
    hide LengthBytes, ReadLength;
    if token % 16 != ML_MASK {
      mc := token % 16;
    } else {
      var v := ParseLength(src, ip, |src| - LASTLITERALS + 1, 0);
      mc := 15 + v;
    }
  }

  /** Every token the decoder gets past starts a written sequence. */
  lemma ParsePiece(src: seq<byte>, ip: nat, out: seq<byte>, lim: Limits) returns (p: Piece)
    requires ip < |src| < U32_RANGE && |out| <= lim.oend && !lim.partial
    requires TokenStep(src, ip, out, lim).Go?
    ensures Sound(p) && At(src, ip, PieceBytes(p)) && ip + |PieceBytes(p)| < |src|
  {
    hide LiteralField, MatchField, Extension, Token, CopyMatch;
    var f := LiteralField(src, ip);
    var next := f.pos + f.length;
    var l := src[f.pos..next];
    var mc := ParseMatch(src, src[ip], next + 2);
    var lc := ParseLiterals(src, ip, mc);
    var offset := Offset(src, next);
    p := Piece(l, lc, offset, mc);
    assert OffsetBytes(offset) == [src[next], src[next + 1]] == src[next..next + 2];
    AtJoin(src, next, OffsetBytes(offset), Extension(mc));
    AtJoin(src, ip, LiteralBytes(l, lc, mc), MatchBytes(offset, mc));
  }

  /** A successful end is the end of a written block. */
  lemma ParseLast(src: seq<byte>, ip: nat, out: seq<byte>, lim: Limits) returns (w: Writing)
    requires ip < |src| < U32_RANGE && |out| <= lim.oend && !lim.partial
    requires TokenStep(src, ip, out, lim).Stop? && TokenStep(src, ip, out, lim).outcome.Decoded?
    ensures w.pieces == [] && Remaining(src, ip, w)
  {
    hide LiteralField, MatchField, Extension, Token, CopyMatch;
    var f := LiteralField(src, ip);
    var mc: nat := src[ip] % 16;
    var lc := ParseLiterals(src, ip, mc);
    var l := src[f.pos..f.pos + f.length];
    w := Writing([], l, lc, mc);
    assert WritingBytes(w) == LiteralBytes(l, lc, mc);
    assert src[ip..] == src[ip..ip + |LiteralBytes(l, lc, mc)|];
  }

  // ----- Whole blocks -----

  /** The rest of the input is written as `w`. */
  ghost predicate Remaining(src: seq<byte>, ip: nat, w: Writing) {
    ip <= |src| && SoundWriting(w) && src[ip..] == WritingBytes(w)
  }

  function Tail(w: Writing): Writing
    requires w.pieces != []
  {
    w.(pieces := w.pieces[1..])
  }

  lemma RemainingHead(src: seq<byte>, ip: nat, w: Writing)
    requires Remaining(src, ip, w)
    ensures if w.pieces == [] then
              var l := LiteralBytes(w.last, w.lastCode, w.lowCode);
              At(src, ip, l) && ip + |l| == |src|
            else
              var p := w.pieces[0];
              && Sound(p) && At(src, ip, PieceBytes(p)) && ip + |PieceBytes(p)| < |src|
              && Remaining(src, ip + |PieceBytes(p)|, Tail(w))
  {
    hide PieceBytes, Extension;
    if w.pieces == [] {
      assert WritingBytes(w) == LiteralBytes(w.last, w.lastCode, w.lowCode);
      assert src[ip..|src|] == src[ip..];
    } else {
      var a, b := PieceBytes(w.pieces[0]), WritingBytes(Tail(w));
      assert WritingBytes(w) == a + b;
      assert src[ip..ip + |a + b|] == src[ip..];
      AtSplit(src, ip, a, b);
      assert src[ip + |a|..] == src[ip + |a|..ip + |a| + |b|];
    }
  }

  lemma RemainingJoin(src: seq<byte>, ip: nat, p: Piece, w: Writing)
    requires Sound(p) && At(src, ip, PieceBytes(p)) && Remaining(src, ip + |PieceBytes(p)|, w)
    ensures Remaining(src, ip, w.(pieces := [p] + w.pieces))
  {
    hide PieceBytes, LiteralBytes;
    var w' := w.(pieces := [p] + w.pieces);
    assert w'.pieces[1..] == w.pieces;
    assert WritingBytes(w') == PieceBytes(p) + WritingBytes(w);
    assert src[ip..] == src[ip..ip + |PieceBytes(p)|] + src[ip + |PieceBytes(p)|..];
  }

  lemma {:induction false} ExpandHead(history: seq<byte>, sequences: seq<Sequence>)
    requires sequences != []
    ensures Expand(history, sequences) == Expand(ApplySequence(history, sequences[0]), sequences[1..])
    decreases |sequences|
  {
    hide ApplySequence;
    var n := |sequences| - 1;
    if n > 0 {
      ExpandHead(history, sequences[..n]);
      assert sequences[..n][1..] == sequences[1..][..n - 1];
    } else {
      assert sequences[..n] == [] == sequences[1..];
    }
  }

  lemma BlockHead(history: seq<byte>, w: Writing)
    requires w.pieces != []
    ensures ExpandBlock(history, BlockOf(w)) ==
            ExpandBlock(ApplySequence(history, SequenceOf(w.pieces[0])), BlockOf(Tail(w)))
  {
    hide ApplySequence, Expand;
    ExpandHead(history, BlockOf(w).sequences);
    assert BlockOf(w).sequences[1..] == BlockOf(Tail(w)).sequences;
  }

  /** A written block decodes to its expansion if every sequence is permitted and it fits, else not. */
  lemma {:induction false} RunOfWriting(src: seq<byte>, ip: nat, out: seq<byte>, lim: Limits, w: Writing)
    requires Remaining(src, ip, w)
    requires |out| <= lim.oend && !lim.partial
    ensures ip < |src|
    ensures if AllPermitted(|src|, ip, |out|, w.pieces, lim) && |ExpandBlock(out, BlockOf(w))| <= lim.oend
            then Run(src, ip, out, lim) == Decoded(ExpandBlock(out, BlockOf(w)))
            else Run(src, ip, out, lim).Malformed?
    decreases |w.pieces|
  {
    hide TokenStep, ExpandBlock, ApplySequence, Permitted, PieceBytes, LiteralBytes, WritingBytes;
    RemainingHead(src, ip, w);
    if w.pieces == [] {
      LastStep(src, ip, out, lim, w.last, w.lastCode, w.lowCode);
      ExpandNothing(out, w);
    } else {
      var p := w.pieces[0];
      PieceStep(src, ip, out, lim, p);
      BlockHead(out, w);
      if Permitted(|src|, ip, |out|, p, lim) {
        ApplyLength(out, SequenceOf(p));
        RunOfWriting(src, ip + |PieceBytes(p)|, ApplySequence(out, SequenceOf(p)), lim, Tail(w));
      }
    }
  }

  lemma ExpandNothing(out: seq<byte>, w: Writing)
    requires w.pieces == []
    ensures ExpandBlock(out, BlockOf(w)) == out + w.last
  {
  }

  lemma ApplyLength(out: seq<byte>, s: Sequence)
    ensures |ApplySequence(out, s)| == |out| + |s.literals| + s.matchLength
  {
    CopyMatchLength(out + s.literals, s.offset, s.matchLength);
  }

  /** Whatever decodes was written as some block. */
  lemma {:induction false} WritingOfRun(src: seq<byte>, ip: nat, out: seq<byte>, lim: Limits) returns (w: Writing)
    requires ip < |src| < U32_RANGE && |out| <= lim.oend && !lim.partial
    requires Run(src, ip, out, lim).Decoded?
    ensures Remaining(src, ip, w)
    decreases |src| - ip
  {
    hide TokenStep, PieceBytes, WritingBytes, Permitted, ApplySequence;
    var r := TokenStep(src, ip, out, lim);
    if r.Stop? {
      w := ParseLast(src, ip, out, lim);
    } else {
      var p := ParsePiece(src, ip, out, lim);
      PieceStep(src, ip, out, lim, p);
      var rest := WritingOfRun(src, r.ip, r.out, lim);
      RemainingJoin(src, ip, p, rest);
      w := rest.(pieces := [p] + rest.pieces);
    }
  }

  /** The acceptance theorem: a full decode into a buffer with room succeeds with `out` exactly when the
      input is written as a block whose sequences pass the checks and whose expansion is `out`. */
  lemma AcceptsExactly(src: seq<byte>, history: seq<byte>, lim: Limits, out: seq<byte>)
    requires |src| < U32_RANGE && |history| <= lim.oend && !lim.partial
    ensures Decompress(src, history, lim) == Decoded(out) <==>
            if |history| == lim.oend then src == [0] && out == history
            else exists w :: Accepted(src, history, lim, w) && out == ExpandBlock(history, BlockOf(w))
    ensures !Decompress(src, history, lim).Unspecified?
  {
    hide Run, ExpandBlock, WritingBytes;
    if |history| < lim.oend {
      forall w | Accepted(src, history, lim, w)
        ensures Decompress(src, history, lim) == Decoded(ExpandBlock(history, BlockOf(w)))
      {
        assert src[0..] == src;
        RunOfWriting(src, 0, history, lim, w);
      }
      if src != [] && !Run(src, 0, history, lim).Malformed? {
        RunSpecified(src, 0, history, lim);
        var w := WritingOfRun(src, 0, history, lim);
        assert src[0..] == src;
        RunOfWriting(src, 0, history, lim, w);
        assert Accepted(src, history, lim, w);
      }
    }
  }

  lemma {:induction false} RunSpecified(src: seq<byte>, ip: nat, out: seq<byte>, lim: Limits)
    requires ip < |src| && |out| <= lim.oend && !lim.partial
    ensures !Run(src, ip, out, lim).Unspecified?
    decreases |src| - ip
  {
    var r := TokenStep(src, ip, out, lim);
    if r.Go? {
      RunSpecified(src, r.ip, r.out, lim);
    }
  }
}
