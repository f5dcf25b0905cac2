/**
  ssl3_cbc_digest_record: the inner HMAC hash of a record whose true length is secret, computed over a
  fixed number of blocks.  The block function and the serialisation of its state are not modelled: the
  state is the sequence of blocks it was given.
 */
module CbcDigest {
  import opened Bytes
  import opened Words
  import opened HashBlocks
  import S3Cbc

  const HEADER_LENGTH: nat := 13
  const VARIANCE_BLOCKS: nat := 6

  datatype Hash = Hash(mdSize: nat, blockSize: nat, lengthSize: nat, littleEndian: bool)

  const MD5: Hash := Hash(16, 64, 8, true)
  const SHA1: Hash := Hash(20, 64, 8, false)
  const SHA224: Hash := Hash(28, 64, 8, false)
  const SHA256: Hash := Hash(32, 64, 8, false)
  const SHA384: Hash := Hash(48, 128, 16, false)
  const SHA512: Hash := Hash(64, 128, 16, false)

  predicate Supported(h: Hash) {
    h == MD5 || h == SHA1 || h == SHA224 || h == SHA256 || h == SHA384 || h == SHA512
  }

  // ----- The key block -----

  /** What section 2 of RFC 2104 makes of a key: every byte of the block is the key's, or 0 past its end,
      with just the bits in `flipped` inverted. */
  ghost predicate IsPad(key: seq<byte>, blockSize: nat, flipped: set<nat>, pad: seq<byte>) {
    |pad| == blockSize &&
    forall i, b :: 0 <= i < |pad| && 0 <= b < 8 ==>
                     (Bit(pad[i], b) <==> (i < |key| && Bit(key[i], b)) != (b in flipped))
  }

  function XorAll(s: seq<byte>, mask: byte): (r: seq<byte>)
    ensures |r| == |s|
  {
    seq(|s|, i requires 0 <= i < |s| => XorByte(s[i], mask))
  }

  function XorByte(a: byte, b: byte): byte {
    S3Cbc.Pow2Word();
    XorBound(a, b, 8);
    Xor(a, b)
  }

  /** memset, memcpy and the loop over the block. */
  function InnerPad(key: seq<byte>, blockSize: nat): (r: seq<byte>)
    ensures |r| == blockSize
  {
    XorAll(seq(blockSize, i requires 0 <= i < blockSize => if i < |key| then key[i] else 0), 0x36)
  }

  /** 0x36 is the bits 1, 2, 4 and 5; 0x36 xor 0x6a is 0x5c, the bits 2, 3, 4 and 6. */
  lemma MaskBits(b: nat)
    requires b < 8
    ensures Bit(0x36, b) <==> b in {1, 2, 4, 5}
    ensures Bit(0x6a, b) <==> b in {1, 3, 5, 6}
  {
    if b == 0 {
      assert !Bit(0x36, 0) && !Bit(0x6a, 0);
    } else if b == 1 {
      assert Bit(0x36, 1) && Bit(0x6a, 1);
    } else if b == 2 {
      assert Bit(0x36, 2) && !Bit(0x6a, 2);
    } else if b == 3 {
      assert !Bit(0x36, 3) && Bit(0x6a, 3);
    } else if b == 4 {
      assert Bit(0x36, 4) && !Bit(0x6a, 4);
    } else if b == 5 {
      assert Bit(0x36, 5) && Bit(0x6a, 5);
    } else if b == 6 {
      assert !Bit(0x36, 6) && Bit(0x6a, 6);
    } else if b == 7 {
      assert !Bit(0x36, 7) && !Bit(0x6a, 7);
    }
  }

  lemma InnerPadIs(key: seq<byte>, blockSize: nat)
    ensures IsPad(key, blockSize, {1, 2, 4, 5}, InnerPad(key, blockSize))
  {
    hide Bit, Xor;
    var pad := InnerPad(key, blockSize);
    forall i, b | 0 <= i < |pad| && 0 <= b < 8
      ensures Bit(pad[i], b) <==> (i < |key| && Bit(key[i], b)) != (b in {1, 2, 4, 5})
    {
      XorBit(if i < |key| then key[i] else 0, 0x36, b);
      MaskBits(b);
      ZeroBit(b);
    }
  }

  lemma OuterPadIs(key: seq<byte>, blockSize: nat)
    ensures IsPad(key, blockSize, {2, 3, 4, 6}, XorAll(InnerPad(key, blockSize), 0x6a))
  {
    hide Bit, Xor, InnerPad;
    var inner := InnerPad(key, blockSize);
    InnerPadIs(key, blockSize);
    var flipped: set<nat> := {1, 2, 4, 5};
    assert IsPad(key, blockSize, flipped, inner);
    var pad := XorAll(inner, 0x6a);
    forall i, b | 0 <= i < |pad| && 0 <= b < 8
      ensures Bit(pad[i], b) <==> (i < |key| && Bit(key[i], b)) != (b in {2, 3, 4, 6})
    {
      assert Bit(inner[i], b) <==> (i < |key| && Bit(key[i], b)) != (b in flipped);
      XorBit(inner[i], 0x6a, b);
      MaskBits(b);
    }
  }

  // ----- The plain computation -----

  /** The byte at position `q` of the padded text, when the true text is the first `n` bytes of `text`
      and one block precedes it; `last` is where the padded text ends. */
  function PlainByte(h: Hash, text: seq<byte>, n: nat, last: nat, q: nat): byte
    requires n <= |text| && h.lengthSize <= last
  {
    if q < n then text[q]
    else if q == n then 0x80
    else if last - h.lengthSize <= q < last then
      LengthField(h.blockSize + n, h.lengthSize, h.littleEndian)[q - (last - h.lengthSize)]
    else 0
  }

  /** Which block holds the byte 0x80, and which one the length. */
  function IndexA(h: Hash, n: nat): nat
    requires h.blockSize > 0
  {
    n / h.blockSize
  }

  function IndexB(h: Hash, n: nat): nat
    requires h.blockSize > 0
  {
    (n + h.lengthSize) / h.blockSize
  }

  /** The length block is the one of the 0x80 byte or the next. */
  lemma Indices(h: Hash, n: nat)
    requires Supported(h)
    ensures var c := n % h.blockSize;
            IndexB(h, n) == if c + h.lengthSize < h.blockSize then IndexA(h, n) else IndexA(h, n) + 1
  {
    var bs := h.blockSize;
    var q, c := n / bs, n % bs;
    if c + h.lengthSize < bs {
      ModulusUnique(n + h.lengthSize, q, c + h.lengthSize, bs);
    } else {
      ModulusUnique(n + h.lengthSize, q + 1, c + h.lengthSize - bs, bs);
    }
  }

  /** The plain padded text, without the block that precedes it. */
  function Plain(h: Hash, text: seq<byte>, n: nat): (r: seq<byte>)
    requires Supported(h) && n <= |text|
    ensures |r| == h.blockSize * (IndexB(h, n) + 1)
  {
    var last := h.blockSize * (IndexB(h, n) + 1);
    CountZeros(h, n);
    seq(last, q requires 0 <= q < last => PlainByte(h, text, n, last, q))
  }

  /** Read position by position, the plain text is the header and data under standard padding. */
  lemma PlainIsPadded(h: Hash, text: seq<byte>, n: nat, before: seq<byte>)
    requires Supported(h) && n <= |text| && |before| == h.blockSize
    ensures before + Plain(h, text, n) == Padded(before + text[..n], h.blockSize, h.lengthSize, h.littleEndian)
  {
    hide LengthField, Zeros, IndexB, ZeroCount;
    CountZeros(h, n);
    var last := h.blockSize * (IndexB(h, n) + 1);
    var zeros, length := Zeros(last - n - 1 - h.lengthSize), LengthField(h.blockSize + n, h.lengthSize, h.littleEndian);
    PlainPieces(h, text, n);
    Concatenate(before, text[..n], [0x80] + zeros + length);
  }

  lemma PlainPieces(h: Hash, text: seq<byte>, n: nat)
    requires Supported(h) && n <= |text|
    ensures var last := h.blockSize * (IndexB(h, n) + 1);
            && last >= n + 1 + h.lengthSize
            && Plain(h, text, n) == text[..n] + ([0x80] + Zeros(last - n - 1 - h.lengthSize)
                                                 + LengthField(h.blockSize + n, h.lengthSize, h.littleEndian))
  {
    hide LengthField, IndexB;
    CountZeros(h, n);
  }

  lemma CountZeros(h: Hash, n: nat)
    requires Supported(h)
    ensures var last := h.blockSize * (IndexB(h, n) + 1);
            && last >= n + 1 + h.lengthSize
            && ZeroCount(h.blockSize + n, h.blockSize, h.lengthSize) == last - n - 1 - h.lengthSize
  {
    var bs, ls := h.blockSize, h.lengthSize;
    Indices(h, n);
    if bs == 64 {
      Fill64(n / 64, n % 64);
    } else {
      Fill128(n / 128, n % 128);
    }
  }

  lemma Fill64(a: nat, c: nat)
    requires c < 64
    ensures var fill := (64 - (64 + (64 * a + c) + 9) % 64) % 64;
            fill == if c + 8 < 64 then 64 - c - 9 else 128 - c - 9
  {
    var t := 64 + (64 * a + c) + 9;
    if c + 9 < 64 {
      ModulusUnique(t, a + 1, c + 9, 64);
    } else {
      ModulusUnique(t, a + 2, c + 9 - 64, 64);
    }
  }

  lemma Fill128(a: nat, c: nat)
    requires c < 128
    ensures var fill := (128 - (128 + (128 * a + c) + 17) % 128) % 128;
            fill == if c + 16 < 128 then 128 - c - 17 else 256 - c - 17
  {
    var t := 128 + (128 * a + c) + 17;
    if c + 17 < 128 {
      ModulusUnique(t, a + 1, c + 17, 128);
    } else {
      ModulusUnique(t, a + 2, c + 17 - 128, 128);
    }
  }

  // ----- The masked computation -----

  /** The byte of header and data at `k`, or zero past the end. */
  function TextByte(text: seq<byte>, k: nat): byte { if k < |text| then text[k] else 0 }

  /** `b & ~mask | v & mask` */
  function Choose(b: nat, v: nat, mask: nat): nat
    requires mask < 256
  {
    Or(And(b, 255 - mask), And(mask, v))
  }

  lemma Chosen(b: nat, v: nat, mask: nat)
    requires b < 256 && v < 256 && (mask == 255 || mask == 0)
    ensures Choose(b, v, mask) == (if mask == 255 then v else b)
    ensures And(b, 255 - mask) == (if mask == 255 then 0 else b)
  {
    hide And, Or;
    S3Cbc.Masked(b);
    S3Cbc.Masked(v);
  }

  function PastMask(isBlockA: nat, j: nat, c: nat): (r: nat)
    requires isBlockA < 256
    ensures r < 256
  {
    AndBound(isBlockA, S3Cbc.ConstantTimeGe(j, c) % 256);
    And(isBlockA, S3Cbc.ConstantTimeGe(j, c) % 256)
  }

  lemma PastMeans(isBlockA: nat, j: nat, c: nat)
    requires (isBlockA == 255 || isBlockA == 0) && j < S3Cbc.HALF && c < S3Cbc.HALF
    ensures PastMask(isBlockA, j, c) == if isBlockA == 255 && j >= c then 255 else 0
  {
    hide And, S3Cbc.ConstantTimeGe;
    S3Cbc.SmallWords(j, c);
    S3Cbc.Masked(isBlockA);
  }

  lemma KeptMask(isBlockA: nat, isBlockB: nat)
    requires (isBlockA == 255 || isBlockA == 0) && (isBlockB == 255 || isBlockB == 0)
    ensures Or(255 - isBlockB, isBlockA) == if isBlockB == 255 && isBlockA == 0 then 0 else 255
  {
    OrSelf(255);
    if isBlockA == 0 || isBlockB == 255 {
      S3Cbc.Masked(isBlockA);
      S3Cbc.Masked(255 - isBlockB);
    }
  }

  /** One byte of a final block, as the masks make it from the byte of header and data. */
  function MaskedByte(h: Hash, b: byte, j: nat, isBlockA: nat, isBlockB: nat, c: nat, lengthBytes: seq<byte>): nat
    requires isBlockA < 256 && isBlockB < 256 && |lengthBytes| == h.lengthSize <= h.blockSize && j < h.blockSize
  {
    var b1 := Choose(b, 0x80, PastMask(isBlockA, j, c));
    var b2 := And(b1, 255 - PastMask(isBlockA, j, c + 1));
    var b3 := And(b2, Or(255 - isBlockB, isBlockA));
    if j >= h.blockSize - h.lengthSize then Choose(b3, lengthBytes[j - (h.blockSize - h.lengthSize)], isBlockB)
    else b3
  }

  /** What the masks amount to. */
  lemma MaskedMeans(h: Hash, b: byte, j: nat, isBlockA: nat, isBlockB: nat, c: nat, lengthBytes: seq<byte>)
    requires |lengthBytes| == h.lengthSize <= h.blockSize && j < h.blockSize && c + 1 < S3Cbc.HALF && j < S3Cbc.HALF
    requires (isBlockA == 255 || isBlockA == 0) && (isBlockB == 255 || isBlockB == 0)
    ensures MaskedByte(h, b, j, isBlockA, isBlockB, c, lengthBytes) ==
              if isBlockB == 255 && j >= h.blockSize - h.lengthSize then lengthBytes[j - (h.blockSize - h.lengthSize)]
              else if isBlockA == 255 then (if j < c then b else if j == c then 0x80 else 0)
              else if isBlockB == 255 then 0
              else b
  {
    hide And, Or, Choose, PastMask;
    PastMeans(isBlockA, j, c);
    PastMeans(isBlockA, j, c + 1);
    KeptMask(isBlockA, isBlockB);
    Chosen(b, 0x80, PastMask(isBlockA, j, c));
    var b1 := Choose(b, 0x80, PastMask(isBlockA, j, c));
    Chosen(b1, 0, PastMask(isBlockA, j, c + 1));
    var b2 := And(b1, 255 - PastMask(isBlockA, j, c + 1));
    S3Cbc.Masked(b2);
    var b3 := And(b2, Or(255 - isBlockB, isBlockA));
    if j >= h.blockSize - h.lengthSize {
      Chosen(b3, lengthBytes[j - (h.blockSize - h.lengthSize)], isBlockB);
    }
  }

  /** In every block up to the length block, the masked byte is the plain one. */
  lemma MaskedIsPlain(h: Hash, text: seq<byte>, n: nat, i: nat, j: nat)
    requires Supported(h) && n <= |text| && n + h.lengthSize < S3Cbc.HALF && i <= IndexB(h, n) && j < h.blockSize
    ensures var q := h.blockSize * i + j;
            && q < |Plain(h, text, n)|
            && MaskedByte(h, TextByte(text, q), j, if i == IndexA(h, n) then 255 else 0, if i == IndexB(h, n) then 255 else 0,
                          n % h.blockSize, LengthField(h.blockSize + n, h.lengthSize, h.littleEndian)) ==
                 Plain(h, text, n)[q]
  {
    hide MaskedByte, LengthField, IndexA, IndexB;
    var length := LengthField(h.blockSize + n, h.lengthSize, h.littleEndian);
    CountZeros(h, n);
    Room(h.blockSize, i, IndexB(h, n));
    MaskedMeans(h, TextByte(text, h.blockSize * i + j), j, if i == IndexA(h, n) then 255 else 0,
                if i == IndexB(h, n) then 255 else 0, n % h.blockSize, length);
    Indices(h, n);
    Divided(h, n);
    Positions(h.blockSize, h.lengthSize, IndexA(h, n), n % h.blockSize, IndexB(h, n), i, j);
  }

  lemma Divided(h: Hash, n: nat)
    requires h.blockSize > 0
    ensures n == h.blockSize * IndexA(h, n) + n % h.blockSize
  {
  }

  lemma Room(size: nat, i: nat, last: nat)
    requires i <= last
    ensures size * (i + 1) == size * i + size <= size * (last + 1)
  {
    assert size * (last - i) >= 0;
  }

  /** Where byte `j` of block `i` lies with regard to the end of the text and to the length field. */
  lemma Positions(size: nat, ls: nat, a: nat, c: nat, last: nat, i: nat, j: nat)
    requires c < size && j < size && ls <= size && i <= last
    requires last == if c + ls < size then a else a + 1
    ensures var q, n, end := size * i + j, size * a + c, size * (last + 1);
            && (q < n <==> i < a || (i == a && j < c))
            && (q == n <==> i == a && j == c)
            && (q >= end - ls <==> i == last && j >= size - ls)
            && q < end
  {
    Ordered(size, i, a, j, c);
    Ordered(size, i, last, j, 0);
    assert size * (last + 1) == size * last + size;
    assert size * (a + 1) == size * a + size;
  }

  lemma Ordered(size: nat, i: nat, a: nat, j: nat, c: nat)
    requires j < size && c < size
    ensures i < a ==> size * i + size <= size * a
    ensures i > a ==> size * a + size <= size * i
  {
    if i < a { Room(size, i, a - 1); }
    if i > a { Room(size, a, i - 1); }
  }

  /** The blocks that can hold the end of the text are in the window the code processes in constant time. */
  lemma Window(h: Hash, total: nat, n: nat)
    requires Supported(h) && n <= total <= n + 256
    ensures var blocks := (total + h.lengthSize + h.blockSize - 1) / h.blockSize;
            var start := if blocks > VARIANCE_BLOCKS then blocks - VARIANCE_BLOCKS else 0;
            start <= IndexA(h, n) && IndexB(h, n) <= start + VARIANCE_BLOCKS
  {
  }

  /** Block `i` as the masks make it. */
  ghost predicate IsMaskedBlock(h: Hash, text: seq<byte>, k: nat, isBlockA: nat, isBlockB: nat, c: nat,
                                lengthBytes: seq<byte>, block: seq<byte>)
    requires isBlockA < 256 && isBlockB < 256 && |lengthBytes| == h.lengthSize <= h.blockSize
  {
    && |block| == h.blockSize
    && forall j :: 0 <= j < h.blockSize ==>
         block[j] == MaskedByte(h, TextByte(text, k + j), j, isBlockA, isBlockB, c, lengthBytes)
  }

  /** The inner loop over the bytes of a final block. */
  method BuildBlock(h: Hash, header: seq<byte>, data: seq<byte>, k0: nat, isBlockA: nat, isBlockB: nat, c: nat,
                    lengthBytes: seq<byte>)
    returns (block: seq<byte>, k: nat)
    requires Supported(h) && |header| == HEADER_LENGTH && |lengthBytes| == h.lengthSize && c + 1 < S3Cbc.HALF
    requires (isBlockA == 255 || isBlockA == 0) && (isBlockB == 255 || isBlockB == 0)
    ensures k == k0 + h.blockSize
    ensures IsMaskedBlock(h, header + data, k0, isBlockA, isBlockB, c, lengthBytes, block)
  {
    hide MaskedByte;
    k := k0;
    block := [];
    for j := 0 to h.blockSize
      invariant k == k0 + j && |block| == j
      invariant forall j' :: 0 <= j' < j ==>
                  block[j'] == MaskedByte(h, TextByte(header + data, k0 + j'), j', isBlockA, isBlockB, c, lengthBytes)
    {
      var b: byte := 0;
      if k < HEADER_LENGTH {
        b := header[k];
      } else if k < |data| + HEADER_LENGTH {
        b := data[k - HEADER_LENGTH];
      }
      k := k + 1;
      assert b == TextByte(header + data, k0 + j);
      MaskedMeans(h, b, j, isBlockA, isBlockB, c, lengthBytes);
      block := block + [MaskedByte(h, b, j, isBlockA, isBlockB, c, lengthBytes)];
    }
  }

  /** Up to the length block, a masked block is the next block of the plain text. */
  lemma MaskedBlockIsPlain(h: Hash, text: seq<byte>, n: nat, i: nat, block: seq<byte>)
    requires Supported(h) && n <= |text| && n + h.lengthSize < S3Cbc.HALF && i <= IndexB(h, n)
    requires IsMaskedBlock(h, text, h.blockSize * i, if i == IndexA(h, n) then 255 else 0,
                           if i == IndexB(h, n) then 255 else 0, n % h.blockSize,
                           LengthField(h.blockSize + n, h.lengthSize, h.littleEndian), block)
    ensures var plain := Plain(h, text, n);
            h.blockSize * (i + 1) <= |plain| && plain[..h.blockSize * (i + 1)] == plain[..h.blockSize * i] + block
  {
    hide MaskedByte, LengthField, IndexA;
    var plain := Plain(h, text, n);
    Room(h.blockSize, i, IndexB(h, n));
    hide Plain;
    forall j | 0 <= j < h.blockSize ensures block[j] == plain[h.blockSize * i + j] {
      MaskedIsPlain(h, text, n, i, j);
    }
    NextSlice(plain, h.blockSize * i, block);
  }

  lemma NextSlice(s: seq<byte>, at: nat, block: seq<byte>)
    requires at + |block| <= |s| && forall j :: 0 <= j < |block| ==> block[j] == s[at + j]
    ensures s[..at + |block|] == s[..at] + block
  {
  }

  // ----- The function -----

  /** The length field: four bytes of the bit count among zeros. */
  function LengthBytes(h: Hash, bits: nat): (r: seq<byte>)
    requires Supported(h)
    ensures |r| == h.lengthSize
  {
    if h.littleEndian then LittleEndian(bits, 4) + Zeros(h.lengthSize - 4)
    else Zeros(h.lengthSize - 4) + BigEndian(bits, 4)
  }

  lemma LengthBytesRight(h: Hash, n: nat)
    requires Supported(h) && 8 * (h.blockSize + n) < S3Cbc.WORD
    ensures LengthBytes(h, 8 * (h.blockSize + n)) == LengthField(h.blockSize + n, h.lengthSize, h.littleEndian)
  {
    var bits := 8 * (h.blockSize + n);
    assert Pow256(4) == S3Cbc.WORD by { assert Pow256(2) == 0x1_0000; }
    hide Pow256;
    if h.littleEndian {
      LittleZeros(h.lengthSize - 4);
      LittleEndianSplit(0, bits, h.lengthSize - 4, 4);
    } else {
      ZeroBytes(h.lengthSize - 4);
      BigEndianSplit(0, bits, h.lengthSize - 4, 4);
    }
  }

  lemma {:induction false} LittleZeros(n: nat)
    ensures LittleEndian(0, n) == Zeros(n)
  {
    if n > 0 {
      LittleZeros(n - 1);
      assert Zeros(n) == [0] + Zeros(n - 1);
    }
  }

  /** Blocks before the end of the text are hashed as they are. */
  method StartingBlocks(h: Hash, header: seq<byte>, data: seq<byte>, count: nat, before: seq<seq<byte>>)
    returns (log: seq<seq<byte>>)
    requires Supported(h) && |header| == HEADER_LENGTH && h.blockSize * count <= |header + data|
    requires Sized(before, h.blockSize)
    ensures Sized(log, h.blockSize) && |log| == |before| + count
    ensures Concat(log) == Concat(before) + (header + data)[..h.blockSize * count]
  {
    log := before;
    var text := header + data;
    var bs := h.blockSize;
    if count > 0 {
      Room(bs, 0, count - 1);
      ConcatPush(log, header + data[..bs - HEADER_LENGTH]);
      log := log + [header + data[..bs - HEADER_LENGTH]];
      assert text[..bs] == header + data[..bs - HEADER_LENGTH];
      for i := 1 to count
        invariant Sized(log, bs) && |log| == |before| + i && bs * i >= bs
        invariant bs * i <= |text| && Concat(log) == Concat(before) + text[..bs * i]
      {
        Room(bs, i, count - 1);
        var b := data[bs * i - HEADER_LENGTH..bs * i - HEADER_LENGTH + bs];
        ConcatPush(log, b);
        NextSlice(text, bs * i, b);
        Concatenate(Concat(before), text[..bs * i], b);
        log := log + [b];
      }
    }
  }

  /** The masked copy of a state: it takes effect in the length block only. */
  method CopyState(macOut: array<byte>, raw: seq<byte>, isBlockB: nat)
    requires macOut.Length <= |raw| && (isBlockB == 255 || isBlockB == 0)
    modifies macOut
    ensures isBlockB == 0 ==> macOut[..] == old(macOut[..])
    ensures isBlockB == 255 && old(macOut[..]) == Zeros(macOut.Length) ==> macOut[..] == raw[..macOut.Length]
  {
    hide And, Or;
    for j := 0 to macOut.Length
      invariant forall j' :: j <= j' < macOut.Length ==> macOut[j'] == old(macOut[j'])
      invariant forall j' :: 0 <= j' < j ==> macOut[j'] == if isBlockB == 0 then old(macOut[j']) else
                  if old(macOut[j']) == 0 then raw[j'] else macOut[j']
    {
      S3Cbc.Masked(raw[j]);
      S3Cbc.Masked(macOut[j]);
      OrIsByte(macOut[j], And(raw[j], isBlockB));
      macOut[j] := Or(macOut[j], And(raw[j], isBlockB));
    }
    if old(macOut[..]) == Zeros(macOut.Length) {
      assert forall j :: 0 <= j < macOut.Length ==> old(macOut[..])[j] == 0;
    }
  }

  /** After `i` blocks: up to the length block the text so far has been hashed; behind it the state after
      the length block is kept. */
  ghost predicate Hashed(h: Hash, text: seq<byte>, n: nat, inner: seq<byte>, i: nat, log: seq<seq<byte>>,
                         macOut: seq<byte>, finalRaw: seq<seq<byte>> -> seq<byte>)
    requires Supported(h) && n <= |text|
  {
    && Sized(log, h.blockSize) && |log| == i + 1 && |macOut| == h.mdSize
    && if i <= IndexB(h, n) then
         && h.blockSize * i <= |Plain(h, text, n)|
         && Concat(log) == inner + Plain(h, text, n)[..h.blockSize * i] && macOut == Zeros(h.mdSize)
       else
         && Concat(log[..IndexB(h, n) + 2]) == inner + Plain(h, text, n)
         && h.mdSize <= |finalRaw(log[..IndexB(h, n) + 2])|
         && macOut == finalRaw(log[..IndexB(h, n) + 2])[..h.mdSize]
  }

  lemma HashedStart(h: Hash, text: seq<byte>, n: nat, inner: seq<byte>, i: nat, log: seq<seq<byte>>,
                    finalRaw: seq<seq<byte>> -> seq<byte>)
    requires Supported(h) && n <= |text| && i <= IndexA(h, n) && h.blockSize * i <= |text|
    requires Sized(log, h.blockSize) && |log| == i + 1 && Concat(log) == inner + text[..h.blockSize * i]
    ensures Hashed(h, text, n, inner, i, log, Zeros(h.mdSize), finalRaw)
  {
    Indices(h, n);
    Divided(h, n);
    Room(h.blockSize, i, IndexB(h, n));
    if i < IndexA(h, n) { Room(h.blockSize, i, IndexA(h, n) - 1); }
    assert Plain(h, text, n)[..h.blockSize * i] == text[..h.blockSize * i];
  }

  lemma HashedStep(h: Hash, text: seq<byte>, n: nat, inner: seq<byte>, i: nat, log: seq<seq<byte>>, macOut: seq<byte>,
                   finalRaw: seq<seq<byte>> -> seq<byte>, block: seq<byte>, macOut': seq<byte>)
    requires Supported(h) && n <= |text| && n + h.lengthSize < S3Cbc.HALF
    requires Hashed(h, text, n, inner, i, log, macOut, finalRaw)
    requires IsMaskedBlock(h, text, h.blockSize * i, if i == IndexA(h, n) then 255 else 0,
                           if i == IndexB(h, n) then 255 else 0, n % h.blockSize,
                           LengthField(h.blockSize + n, h.lengthSize, h.littleEndian), block)
    requires h.mdSize <= |finalRaw(log + [block])|
    requires macOut' == if i == IndexB(h, n) then finalRaw(log + [block])[..h.mdSize] else macOut
    ensures Hashed(h, text, n, inner, i + 1, log + [block], macOut', finalRaw)
  {
    var b := IndexB(h, n);
    var plain := Plain(h, text, n);
    if i <= b {
      MaskedBlockIsPlain(h, text, n, i, block);
      hide Plain, IndexA, IndexB, LengthField, IsMaskedBlock;
      ConcatPush(log, block);
      Concatenate(inner, plain[..h.blockSize * i], block);
      if i == b {
        assert (log + [block])[..b + 2] == log + [block];
        assert plain[..h.blockSize * (b + 1)] == plain;
      }
    } else {
      hide Plain, IndexA, IndexB, LengthField, IsMaskedBlock;
      assert (log + [block])[..b + 2] == log[..b + 2];
    }
  }

  lemma HashedEnd(h: Hash, text: seq<byte>, n: nat, inner: seq<byte>, i: nat, log: seq<seq<byte>>, macOut: seq<byte>,
                  finalRaw: seq<seq<byte>> -> seq<byte>)
    requires Supported(h) && n <= |text| && |inner| == h.blockSize && i > IndexB(h, n)
    requires Hashed(h, text, n, inner, i, log, macOut, finalRaw)
    ensures IsInnerHash(h, text[..n], inner, log, IndexB(h, n) + 2, macOut, finalRaw) && |log| == i + 1
  {
    hide Plain;
    PlainIsPadded(h, text, n, inner);
  }

  /** The first `upTo` blocks are the inner pad and the message under standard padding, and `macOut` is the
      state they leave. */
  ghost predicate IsInnerHash(h: Hash, message: seq<byte>, inner: seq<byte>, log: seq<seq<byte>>, upTo: nat,
                              macOut: seq<byte>, finalRaw: seq<seq<byte>> -> seq<byte>)
    requires Supported(h)
  {
    && Sized(log, h.blockSize) && upTo <= |log|
    && Concat(log[..upTo]) == Padded(inner + message, h.blockSize, h.lengthSize, h.littleEndian)
    && h.mdSize <= |finalRaw(log[..upTo])|
    && macOut == finalRaw(log[..upTo])[..h.mdSize]
  }

  /** The final blocks, one turn. */
  method FinalBlock(h: Hash, header: seq<byte>, data: seq<byte>, i: nat, k: nat, indexA: nat, indexB: nat, c: nat,
                    lengthBytes: seq<byte>, finalRaw: seq<seq<byte>> -> seq<byte>, log: seq<seq<byte>>,
                    macOut: array<byte>, ghost n: nat, ghost inner: seq<byte>)
    returns (log': seq<seq<byte>>, k': nat)
    requires Supported(h) && |header| == HEADER_LENGTH && n <= |header + data| && n + h.lengthSize < S3Cbc.HALF
    requires i < S3Cbc.HALF && indexA == IndexA(h, n) < S3Cbc.HALF && indexB == IndexB(h, n) < S3Cbc.HALF
    requires k == h.blockSize * i && c == n % h.blockSize && macOut.Length == h.mdSize
    requires lengthBytes == LengthField(h.blockSize + n, h.lengthSize, h.littleEndian)
    requires forall s :: |finalRaw(s)| >= h.mdSize
    requires Hashed(h, header + data, n, inner, i, log, macOut[..], finalRaw)
    modifies macOut
    ensures k' == h.blockSize * (i + 1)
    ensures Hashed(h, header + data, n, inner, i + 1, log', macOut[..], finalRaw)
  {
    hide IsMaskedBlock, LengthField, IndexA, IndexB, S3Cbc.ConstantTimeEq8, Plain;
    ZeroBefore(h, header + data, n, inner, i, log, macOut[..], finalRaw);
    hide Hashed;
    var isBlockA := S3Cbc.ConstantTimeEq8(i, indexA);
    var isBlockB := S3Cbc.ConstantTimeEq8(i, indexB);
    S3Cbc.SmallWords(i, indexA);
    S3Cbc.SmallWords(i, indexB);
    var block;
    block, k' := BuildBlock(h, header, data, k, isBlockA, isBlockB, c, lengthBytes);
    log' := log + [block];
    CopyState(macOut, finalRaw(log'), isBlockB);
    HashedStep(h, header + data, n, inner, i, log, old(macOut[..]), finalRaw, block, macOut[..]);
  }

  lemma ZeroBefore(h: Hash, text: seq<byte>, n: nat, inner: seq<byte>, i: nat, log: seq<seq<byte>>, macOut: seq<byte>,
                   finalRaw: seq<seq<byte>> -> seq<byte>)
    requires Supported(h) && n <= |text| && Hashed(h, text, n, inner, i, log, macOut, finalRaw)
    ensures i == IndexB(h, n) ==> macOut == Zeros(h.mdSize)
  {
  }

  lemma SmallIndices(h: Hash, n: nat)
    requires Supported(h) && n + h.lengthSize < S3Cbc.HALF
    ensures IndexA(h, n) <= n && IndexB(h, n) <= n + h.lengthSize
  {
  }

  /** ssl3_cbc_digest_record: `log` is what the block function was given, `outer` the input of the second
      digest, whose result is the MAC. */
  method DigestRecord(h: Hash, header: seq<byte>, data: seq<byte>, dataPlusMacSize: nat, macSecret: seq<byte>,
                      finalRaw: seq<seq<byte>> -> seq<byte>)
    returns (log: seq<seq<byte>>, macOut: array<byte>, outer: seq<byte>, ghost inner: seq<byte>)
    requires Supported(h) && |header| == 13 && |data| < 0x10_0000 && |macSecret| <= 128
    requires h.mdSize <= dataPlusMacSize <= |data| <= dataPlusMacSize + 256
    requires forall s :: |finalRaw(s)| >= h.mdSize
    ensures fresh(macOut)
    ensures IsPad(macSecret, h.blockSize, {1, 2, 4, 5}, inner)
    ensures var n := 13 + dataPlusMacSize - h.mdSize;
            IsInnerHash(h, (header + data)[..n], inner, log, IndexB(h, n) + 2, macOut[..], finalRaw)
    // how much is hashed does not depend on the secret length
    ensures var blocks := (|data| + 13 - h.mdSize + h.lengthSize + h.blockSize - 1) / h.blockSize;
            |log| == (if blocks > 6 then blocks - 6 else 0) + 8
    ensures |outer| == h.blockSize + h.mdSize && outer[h.blockSize..] == macOut[..]
    ensures IsPad(macSecret, h.blockSize, {2, 3, 4, 6}, outer[..h.blockSize])
  {
    hide Hashed, Plain, IsInnerHash, InnerPad, XorAll, IsPad, LengthField, LengthBytes, Sized, Concat, Zeros;
    var bs := h.blockSize;
    var len := |data| + HEADER_LENGTH;
    var maxMacBytes := len - h.mdSize - 1;
    var numBlocks := (maxMacBytes + 1 + h.lengthSize + bs - 1) / bs;
    var numStartingBlocks, k: nat := 0, 0;
    var macEndOffset := dataPlusMacSize + HEADER_LENGTH - h.mdSize;
    var c := macEndOffset % bs;
    var indexA := macEndOffset / bs;
    var indexB := (macEndOffset + h.lengthSize) / bs;
    if numBlocks > VARIANCE_BLOCKS {
      numStartingBlocks := numBlocks - VARIANCE_BLOCKS;
      k := bs * numStartingBlocks;
    }
    var hmacPad := InnerPad(macSecret, bs);
    var bits := 8 * macEndOffset + 8 * bs;
    var lengthBytes := LengthBytes(h, bits);
    LengthBytesRight(h, macEndOffset);
    Window(h, len - h.mdSize, macEndOffset);
    SmallIndices(h, macEndOffset);
    StartInside(h, macEndOffset, numStartingBlocks);
    OneBlock(hmacPad);
    log := StartingBlocks(h, header, data, numStartingBlocks, [hmacPad]);
    macOut := new byte[h.mdSize](i => 0);
    AllZeros(macOut[..]);
    HashedStart(h, header + data, macEndOffset, hmacPad, numStartingBlocks, log, finalRaw);
    var i := numStartingBlocks;
    while i <= numStartingBlocks + VARIANCE_BLOCKS
      invariant numStartingBlocks <= i <= numStartingBlocks + VARIANCE_BLOCKS + 1
      invariant k == bs * i && Hashed(h, header + data, macEndOffset, hmacPad, i, log, macOut[..], finalRaw)
    {
      log, k := FinalBlock(h, header, data, i, k, indexA, indexB, c, lengthBytes, finalRaw, log, macOut, macEndOffset, hmacPad);
      i := i + 1;
    }
    HashedEnd(h, header + data, macEndOffset, hmacPad, i, log, macOut[..], finalRaw);
    inner := hmacPad;
    InnerPadIs(macSecret, bs);
    OuterPadIs(macSecret, bs);
    hmacPad := XorAll(hmacPad, 0x6a);
    outer := hmacPad + macOut[..];
  }

  lemma StartInside(h: Hash, n: nat, start: nat)
    requires Supported(h) && start <= IndexA(h, n)
    ensures h.blockSize * start <= n
  {
    Divided(h, n);
    if start < IndexA(h, n) { Room(h.blockSize, start, IndexA(h, n) - 1); }
  }

  lemma OneBlock(b: seq<byte>)
    ensures Sized([b], |b|) && Concat([b]) == b
  {
    ConcatPush([], b);
  }

  lemma AllZeros(s: seq<byte>)
    requires forall i :: 0 <= i < |s| ==> s[i] == 0
    ensures s == Zeros(|s|)
  {
  }
}
