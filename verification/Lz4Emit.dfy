/**
  The writing half of the compressor: length bytes, wild literal copies, tokens and match codes, put
  into the output buffer in place.  Each method states exactly which bytes of the format it produced.
 */
module Lz4Emit {
  import opened Lz4Format
  import Bytes

  /** How many bytes LZ4_wildCopy8 writes to copy `n`: always at least eight. */
  function WildSpan(n: nat): (r: nat)
    ensures n <= r <= n + 8 && 8 <= r && (n > 0 ==> r <= n + 7)
  {
    if n == 0 then 8 else (n + 7) / 8 * 8
  }

  method WildCopy8(dst: array<byte>, dstPos: nat, src: seq<byte>, srcPos: nat, dstEnd: nat)
    requires dstPos <= dstEnd
    requires dstPos + WildSpan(dstEnd - dstPos) <= dst.Length
    requires srcPos + WildSpan(dstEnd - dstPos) <= |src|
    modifies dst
    ensures dst[..dstPos] == old(dst[..dstPos])
    ensures dst[dstPos..dstEnd] == src[srcPos..srcPos + (dstEnd - dstPos)]
  {
    var d, p := dstPos, srcPos;
    ghost var span := WildSpan(dstEnd - dstPos);
    while true
      invariant dstPos <= d && d - dstPos == p - srcPos
      invariant (d - dstPos) % 8 == 0 && d + 8 <= dstPos + span
      invariant dst[..dstPos] == old(dst[..dstPos])
      invariant forall k :: dstPos <= k < d ==> dst[k] == src[k - dstPos + srcPos]
      decreases dstPos + span - d
    {
      forall k | d <= k < d + 8 {
        dst[k] := src[k - d + p];
      }
      d, p := d + 8, p + 8;
      assert forall k :: dstPos <= k < d ==> dst[k] == src[k - dstPos + srcPos];
      if d >= dstEnd {
        break;
      }
    }
  }

  /** 255s and a remainder, one byte at a time. */
  method WriteLength(dst: array<byte>, op0: nat, v: nat) returns (op: nat)
    requires op0 + v / 255 + 1 <= dst.Length
    modifies dst
    ensures op == op0 + v / 255 + 1
    ensures dst[..op] == old(dst[..op0]) + LengthBytes(v)
  {
    op := op0;
    var len := v;
    while len >= 255
      invariant op + len / 255 == op0 + v / 255 && op0 <= op
      invariant dst[..op] + LengthBytes(len) == old(dst[..op0]) + LengthBytes(v)
    {
      ghost var before := dst[..op];
      dst[op] := 255;
      op := op + 1;
      len := len - 255;
      assert dst[..op] == before + [255];
      assert before + [255] + LengthBytes(len) == before + LengthBytes(len + 255);
    }
    ghost var before := dst[..op];
    dst[op] := len;
    op := op + 1;
    assert dst[..op] == before + [len];
  }

  lemma {:induction false} LengthBytesAre(v: nat)
    ensures LengthBytes(v) == seq(v / 255, _ => 255) + [v % 255]
  {
    if v >= 255 {
      LengthBytesAre(v - 255);
      assert [255] + seq(v / 255 - 1, _ => 255) == seq(v / 255, _ => 255);
    }
  }

  method Write32Ones(dst: array<byte>, op: nat)
    requires op + 4 <= dst.Length
    modifies dst
    ensures forall k :: 0 <= k < dst.Length ==> dst[k] == if op <= k < op + 4 then 255 else old(dst[k])
  {
    dst[op], dst[op + 1], dst[op + 2], dst[op + 3] := 255, 255, 255, 255;
  }

  /** The same bytes, four at a time and overshooting by up to three. */
  method WriteLengthByFours(dst: array<byte>, op0: nat, v: nat) returns (op: nat)
    requires op0 + v / 255 + 4 <= dst.Length
    modifies dst
    ensures op == op0 + v / 255 + 1
    ensures dst[..op] == old(dst[..op0]) + LengthBytes(v)
  {
    op := op0;
    var code := v;
    Write32Ones(dst, op);
    while code >= 4 * 255
      invariant op0 <= op && op + code / 255 == op0 + v / 255 && code % 255 == v % 255
      invariant dst[..op0] == old(dst[..op0])
      invariant forall k :: op0 <= k < op + 4 ==> dst[k] == 255
    {
      op := op + 4;
      Write32Ones(dst, op);
      code := code - 4 * 255;
    }
    op := op + code / 255;
    dst[op] := code % 255;
    op := op + 1;
    LengthBytesAre(v);
    assert dst[op0..op] == seq(v / 255, _ => 255) + [v % 255];
    assert dst[..op] == dst[..op0] + dst[op0..op];
  }

  lemma ExtensionSize(length: nat)
    ensures |Extension(length)| == if length < 15 then 0 else (length - 15) / 255 + 1
  {
    if length >= 15 { LengthBytesSize(length - 15); }
  }

  /** Output available to a literal run: what limitedOutput checks, or what the bound guarantees. */
  predicate RoomForLiterals(token: nat, n: nat, olimit: nat) {
    token + 1 + n + (2 + 1 + LASTLITERALS) + n / 255 <= olimit
  }

  /** Token with low nibble 0 and the extension of a literal length. */
  method EncodeLiteralLength(dst: array<byte>, token: nat, length: nat) returns (op: nat)
    requires token + 1 + |Extension(length)| <= dst.Length
    modifies dst
    ensures op == token + 1 + |Extension(length)|
    ensures dst[..op] == old(dst[..token]) + ([Token(length, 0)] + Extension(length))
  {
    hide Extension, LengthBytes, Token;
    TokenValue(length);
    op := token + 1;
    ghost var before := dst[..token];
    ExtensionCases(length);
    if length >= RUN_MASK {
      dst[token] := RUN_MASK * 16;
      assert dst[..op] == before + [Token(length, 0)];
      op := WriteLength(dst, op, length - RUN_MASK);
    } else {
      dst[token] := length * 16;
      assert dst[..op] == before + [Token(length, 0)];
    }
  }

  lemma TokenValue(length: nat)
    ensures Token(length, 0) == (if length >= RUN_MASK then RUN_MASK else length) * 16
  {
  }

  /** Token, length and literals of a sequence whose match is not known yet. */
  method EncodeLiterals(dst: array<byte>, token: nat, mem: seq<byte>, anchor: nat, ip: nat) returns (op: nat)
    requires anchor <= ip && ip + 8 <= |mem|
    requires RoomForLiterals(token, ip - anchor, dst.Length)
    modifies dst
    ensures op == token + |LiteralPart(mem[anchor..ip], 0)|
    ensures op <= dst.Length
    ensures dst[..op] == old(dst[..token]) + LiteralPart(mem[anchor..ip], 0)
  {
    var litLength := ip - anchor;
    ghost var before, literals := dst[..token], mem[anchor..ip];
    ExtensionSize(litLength);
    op := EncodeLiteralLength(dst, token, litLength);
    hide Extension, Token;
    ghost var head := [Token(litLength, 0)] + Extension(litLength);
    WildCopy8(dst, op, mem, anchor, op + litLength);
    assert dst[..op + litLength] == dst[..op] + dst[op..op + litLength];
    assert anchor + litLength == ip;
    Bytes.Concatenate(before, head, literals);
    op := op + litLength;
  }

  /** Changing the low nibble of a token already written. */
  lemma TokenNibble(before: seq<byte>, literals: seq<byte>, code: nat, full: seq<byte>)
    requires full == before + LiteralPart(literals, 0)
    ensures full[|before| := Token(|literals|, code)] == before + LiteralPart(literals, code)
  {
  }

  /** Offset, low nibble of the token and match-length extension. */
  method EncodeMatch(dst: array<byte>, token: nat, op0: nat, offset: nat, code: nat,
                     ghost before: seq<byte>, ghost literals: seq<byte>) returns (op: nat)
    requires token == |before| && op0 == token + |LiteralPart(literals, 0)|
    requires op0 + 2 + |Extension(code)| + 3 <= dst.Length
    requires dst[..op0] == before + LiteralPart(literals, 0)
    requires 1 <= offset <= DISTANCE_MAX
    modifies dst
    ensures op == op0 + 2 + |Extension(code)| <= dst.Length
    ensures dst[..op] == before + (LiteralPart(literals, code) + (OffsetBytes(offset) + Extension(code)))
  {
    hide LengthBytes, Extension;
    ghost var head := dst[..op0];
    assert head[token] == Token(|literals|, 0);
    dst[op0] := offset % 256;
    dst[op0 + 1] := offset / 256;
    op := op0 + 2;
    assert dst[..op] == head + OffsetBytes(offset);
    ghost var withOffset := dst[..op];
    TokenNibble(before, literals, code, head);
    assert (head + OffsetBytes(offset))[token := Token(|literals|, code)] ==
           head[token := Token(|literals|, code)] + OffsetBytes(offset);
    dst[token] := if code >= ML_MASK then dst[token] + ML_MASK else dst[token] + code;
    assert dst[..op] == withOffset[token := Token(|literals|, code)];
    assert dst[..op] == before + LiteralPart(literals, code) + OffsetBytes(offset);
    ExtensionCases(code);
    if code >= ML_MASK {
      op := WriteLengthByFours(dst, op, code - ML_MASK);
    }
  }

  lemma ExtensionCases(code: nat)
    ensures code < ML_MASK ==> Extension(code) == []
    ensures code >= ML_MASK ==> Extension(code) == LengthBytes(code - ML_MASK) && |Extension(code)| == (code - ML_MASK) / 255 + 1
  {
    ExtensionSize(code);
  }

  /** memcpy from the source. */
  method CopyExact(dst: array<byte>, op: nat, mem: seq<byte>, anchor: nat, n: nat)
    requires op + n <= dst.Length && anchor + n <= |mem|
    modifies dst
    ensures dst[..op] == old(dst[..op]) && dst[op..op + n] == mem[anchor..anchor + n]
  {
    forall i | 0 <= i < n {
      dst[op + i] := mem[anchor + i];
    }
    assert dst[op..op + n] == mem[anchor..anchor + n];
  }

  /** The run of literals that closes the block; exact copy, no overshoot. */
  method EncodeLastLiterals(dst: array<byte>, token: nat, mem: seq<byte>, anchor: nat, iend: nat) returns (op: nat)
    requires anchor <= iend <= |mem|
    requires token + 1 + (iend - anchor) + (iend - anchor + 240) / 255 <= dst.Length
    modifies dst
    ensures op == token + |LiteralPart(mem[anchor..iend], 0)|
    ensures op <= dst.Length
    ensures dst[..op] == old(dst[..token]) + LiteralPart(mem[anchor..iend], 0)
  {
    hide Extension, LengthBytes, Token;
    var lastRun := iend - anchor;
    ExtensionSize(lastRun);
    op := EncodeLiteralLength(dst, token, lastRun);
    ghost var before, last := old(dst[..token]), mem[anchor..iend];
    ghost var head := [Token(lastRun, 0)] + Extension(lastRun);
    assert dst[..op] == before + head;
    CopyExact(dst, op, mem, anchor, lastRun);
    assert dst[..op + lastRun] == dst[..op] + dst[op..op + lastRun];
    Bytes.Concatenate(before, head, last);
    op := op + lastRun;
  }
}
