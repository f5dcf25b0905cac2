/**
  The buffered front end of the MD5 and SHA-1 family: HASH_UPDATE and HASH_FINAL.  The block function is
  not modelled; what it is given is collected in `blocks`.
 */
module HashCollector {
  import opened Bytes
  import opened HashBlocks

  const WORD: nat := 0x1_0000_0000
  const CBLOCK: nat := 64

  // ----- The length in bits, in two 32-bit words -----

  /** The words hold the length of `n` bytes in bits, modulo 2^64. */
  ghost predicate Counted(nl: nat, nh: nat, n: nat) {
    nl < WORD && nh < WORD && nh * WORD + nl == 8 * n % (WORD * WORD)
  }

  /** What HASH_UPDATE makes of the two words for `len` more bytes. */
  method CountBits(nl: nat, nh: nat, len: nat, ghost n: nat) returns (l: nat, h: nat)
    requires Counted(nl, nh, n)
    ensures Counted(l, h, n + len)
  {
    l := (nl + len % WORD * 8 % WORD) % WORD;
    h := nh;
    if l < nl {
      h := (h + 1) % WORD;
    }
    h := (h + len / 0x2000_0000 % WORD) % WORD;
    BitsCarry(nl, nh, len, l, h);
    ModulusOfSum(8 * n, 8 * len);
  }

  lemma ModulusOfSum(a: nat, b: nat)
    ensures (a % (WORD * WORD) + b) % (WORD * WORD) == (a + b) % (WORD * WORD)
  {
  }

  lemma BitsCarry(nl: nat, nh: nat, len: nat, l: nat, h: nat)
    requires nl < WORD && nh < WORD
    requires l == (nl + len % WORD * 8 % WORD) % WORD
    requires h == ((if l < nl then (nh + 1) % WORD else nh) + len / 0x2000_0000 % WORD) % WORD
    ensures h * WORD + l == (nh * WORD + nl + 8 * len) % (WORD * WORD)
  {
    var q, r := len / 0x2000_0000, len % 0x2000_0000;
    var c := if l < nl then 1 else 0;
    LowBits(len);
    assert nl + 8 * r == c * WORD + l;
    HighWord(nh + c, q);
    var t := nh + c + q;
    assert h == t % WORD;
    assert nh * WORD + nl + 8 * len == t * WORD + l;
    TwoWords(t, l);
  }

  lemma LowBits(len: nat)
    ensures len % WORD * 8 % WORD == 8 * (len % 0x2000_0000)
    ensures len == len / 0x2000_0000 * 0x2000_0000 + len % 0x2000_0000
  {
    var x := len % WORD;
    var q, r := x / 0x2000_0000, x % 0x2000_0000;
    ModulusUnique(x * 8, q, 8 * r, WORD);
    ModulusUnique(len, len / WORD * 8 + q, r, 0x2000_0000);
  }

  lemma HighWord(a: nat, q: nat)
    ensures (a % WORD + q % WORD) % WORD == (a + q) % WORD
    ensures a < WORD ==> a % WORD == a
  {
  }

  lemma TwoWords(t: nat, l: nat)
    requires l < WORD
    ensures (t * WORD + l) % (WORD * WORD) == t % WORD * WORD + l
  {
    var q, r := t / WORD, t % WORD;
    assert t * WORD + l == q * (WORD * WORD) + (r * WORD + l);
    assert r * WORD + l < WORD * WORD;
    ModulusUnique(t * WORD + l, q, r * WORD + l, WORD * WORD);
  }

  class Context {
    var nl: nat
    var nh: nat
    const data: array<byte>
    var num: nat
    var blocks: seq<seq<byte>>
    ghost var message: seq<byte>

    /** The blocks passed on and the bytes kept are the message so far. */
    ghost predicate Valid()
      reads this, data
    {
      && data.Length == CBLOCK
      && num < CBLOCK
      && Sized(blocks, CBLOCK)
      && Concat(blocks) + data[..num] == message
      && Counted(nl, nh, |message|)
    }

    constructor ()
      ensures Valid() && message == [] && fresh(data)
    {
      nl, nh, num, blocks, message := 0, 0, 0, [], [];
      data := new byte[CBLOCK](i => 0);
    }

    /** HASH_BLOCK_DATA_ORDER. */
    method BlockDataOrder(p: seq<byte>, n: nat)
      requires CBLOCK * n <= |p| && Sized(blocks, CBLOCK)
      modifies this`blocks
      ensures Sized(blocks, CBLOCK) && Concat(blocks) == old(Concat(blocks)) + p[..CBLOCK * n]
    {
      for i := 0 to n
        invariant Sized(blocks, CBLOCK) && Concat(blocks) == old(Concat(blocks)) + p[..CBLOCK * i]
      {
        var b := p[CBLOCK * i..CBLOCK * i + CBLOCK];
        ConcatPush(blocks, b);
        assert p[..CBLOCK * (i + 1)] == p[..CBLOCK * i] + b;
        blocks := blocks + [b];
      }
    }

    /** memcpy into the buffer. */
    method Keep(at: nat, src: seq<byte>)
      requires at + |src| <= data.Length
      modifies data
      ensures data[..at + |src|] == old(data[..at]) + src
    {
      forall i | 0 <= i < |src| {
        data[at + i] := src[i];
      }
    }

    /** The buffer is filled up from the input and passed on, and cleared. */
    method FillBlock(input: seq<byte>) returns (rest: seq<byte>)
      requires data.Length == CBLOCK && 0 < num < CBLOCK && num + |input| >= CBLOCK && Sized(blocks, CBLOCK)
      modifies this`num, this`blocks, data
      ensures num == 0 && Sized(blocks, CBLOCK)
      ensures Concat(blocks) + rest == old(Concat(blocks) + data[..num]) + input
    {
      rest := input[CBLOCK - num..];
      Keep(num, input[..CBLOCK - num]);
      assert input == input[..CBLOCK - num] + rest;
      assert data[..][..CBLOCK] == data[..CBLOCK];
      Concatenate(Concat(blocks), old(data[..num]), input[..CBLOCK - num]);
      Concatenate(Concat(blocks) + old(data[..num]), input[..CBLOCK - num], rest);
      BlockDataOrder(data[..], 1);
      num := 0;
      forall i | 0 <= i < CBLOCK { data[i] := 0; }
    }

    /** Whole blocks are passed on straight from the input; what is left is kept. */
    method Absorb(input: seq<byte>)
      requires data.Length == CBLOCK && num == 0 && Sized(blocks, CBLOCK)
      modifies this`num, this`blocks, data
      ensures num < CBLOCK && Sized(blocks, CBLOCK)
      ensures Concat(blocks) + data[..num] == old(Concat(blocks)) + input
    {
      hide Concat, Sized;
      var rest := input;
      var n := |rest| / CBLOCK;
      if n > 0 {
        Concatenate(Concat(blocks), rest[..CBLOCK * n], rest[CBLOCK * n..]);
        assert rest == rest[..CBLOCK * n] + rest[CBLOCK * n..];
        BlockDataOrder(rest, n);
        rest := rest[CBLOCK * n..];
      }
      if |rest| != 0 {
        num := |rest|;
        Keep(0, rest);
      }
    }

    /** HASH_UPDATE. */
    method Update(input: seq<byte>)
      requires Valid()
      modifies this, data
      ensures Valid() && message == old(message) + input
    {
      hide Concat, Sized, Counted;
      if |input| == 0 {
        assert message + input == message;
        return;
      }
      nl, nh := CountBits(nl, nh, |input|, |message|);
      message := message + input;
      var rest := input;
      if num != 0 {
        if |input| >= CBLOCK || |input| + num >= CBLOCK {
          rest := FillBlock(input);
        } else {
          Concatenate(Concat(blocks), data[..num], input);
          Keep(num, input);
          num := num + |input|;
          return;
        }
      }
      Absorb(rest);
    }

    /** memset to zero in the buffer. */
    method Clear(from: nat, to: nat)
      requires from <= to <= data.Length
      modifies data
      ensures data[..to] == old(data[..from]) + Zeros(to - from)
    {
      forall i | from <= i < to {
        data[i] := 0;
      }
    }

    /** HOST_l2c twice, in the order of the two words for the hash. */
    method StoreLength(littleEndian: bool)
      requires data.Length == CBLOCK && nl < WORD && nh < WORD
      modifies data
      ensures data[..CBLOCK] == old(data[..CBLOCK - 8]) + LengthBytes(nl, nh, littleEndian)
    {
      if littleEndian {
        Keep(CBLOCK - 8, LittleEndian(nl, 4));
        Keep(CBLOCK - 4, LittleEndian(nh, 4));
      } else {
        Keep(CBLOCK - 8, BigEndian(nh, 4));
        Keep(CBLOCK - 4, BigEndian(nl, 4));
      }
    }

    /** HASH_FINAL up to the formatting of the digest. */
    method Final(littleEndian: bool)
      requires Valid()
      modifies this`num, this`blocks, data
      ensures Sized(blocks, 64) && Concat(blocks) == Padded(old(message), 64, 8, littleEndian)
      ensures num == 0
    {
      hide Concat, Sized, LengthBytes, Zeros;
      var n := num;
      ConcatSize(blocks, CBLOCK);
      LengthIsStored(nl, nh, |message|, littleEndian);
      ghost var c, d := Concat(blocks), data[..num];
      assert message == c + d;
      ModulusUnique(|c|, |blocks|, 0, CBLOCK);
      hide Padded;
      PaddingPieces(c, d, LengthBytes(nl, nh, littleEndian), littleEndian);
      Keep(n, [0x80]);
      n := n + 1;
      assert data[..n] == d + [0x80];
      if n > CBLOCK - 8 {
        Spill(n);
        n := 0;
        assert data[..n] + Zeros(CBLOCK - 8) == Zeros(CBLOCK - 8);
      }
      LastBlock(n, littleEndian);
      num := 0;
      Clear(0, CBLOCK);
    }

    /** The rest of the block is cleared, and it is passed on without a length. */
    method Spill(n: nat)
      requires data.Length == CBLOCK && n <= CBLOCK && Sized(blocks, CBLOCK)
      modifies this`blocks, data
      ensures Sized(blocks, CBLOCK) && Concat(blocks) == old(Concat(blocks)) + (old(data[..n]) + Zeros(CBLOCK - n))
    {
      hide Concat, Sized, Zeros;
      Clear(n, CBLOCK);
      assert data[..][..CBLOCK] == data[..CBLOCK];
      BlockDataOrder(data[..], 1);
    }

    /** The last block, with the length at its end. */
    method LastBlock(n: nat, littleEndian: bool)
      requires data.Length == CBLOCK && n <= CBLOCK - 8 && Sized(blocks, CBLOCK) && nl < WORD && nh < WORD
      modifies this`blocks, data
      ensures Sized(blocks, CBLOCK)
      ensures Concat(blocks) == old(Concat(blocks)) +
                                (old(data[..n]) + Zeros(CBLOCK - 8 - n) + LengthBytes(nl, nh, littleEndian))
    {
      hide Concat, Sized, Zeros, LengthBytes;
      Clear(n, CBLOCK - 8);
      StoreLength(littleEndian);
      assert data[..][..CBLOCK] == data[..CBLOCK];
      BlockDataOrder(data[..], 1);
    }
  }

  /** What the fields say about the message: the block count, the bytes kept, and the bit count. */
  lemma FieldsMean(c: Context)
    requires c.Valid()
    ensures c.num == |c.message| % 64 && |c.blocks| == |c.message| / 64
    ensures c.nh * WORD + c.nl == 8 * |c.message| % (WORD * WORD)
  {
    ConcatSize(c.blocks, CBLOCK);
    ModulusUnique(|c.message|, |c.blocks|, c.num, CBLOCK);
  }

  /** A whole run: any number of updates, then the final call. */
  method Collect(chunks: seq<seq<byte>>, littleEndian: bool) returns (blocks: seq<seq<byte>>)
    ensures Sized(blocks, 64) && Concat(blocks) == Padded(Concat(chunks), 64, 8, littleEndian)
  {
    var c := new Context();
    for i := 0 to |chunks|
      invariant c.Valid() && fresh(c) && fresh(c.data) && c.message == Concat(chunks[..i])
    {
      c.Update(chunks[i]);
      ConcatPush(chunks[..i], chunks[i]);
      assert chunks[..i + 1] == chunks[..i] + [chunks[i]];
    }
    assert chunks[..|chunks|] == chunks;
    c.Final(littleEndian);
    blocks := c.blocks;
  }

  /** The cutting of a message into updates cannot be seen by the block function. */
  lemma ChunkingIndependent(chunks: seq<seq<byte>>, chunks': seq<seq<byte>>, littleEndian: bool,
                            blocks: seq<seq<byte>>, blocks': seq<seq<byte>>)
    requires Concat(chunks) == Concat(chunks')
    requires Sized(blocks, CBLOCK) && Concat(blocks) == Padded(Concat(chunks), CBLOCK, 8, littleEndian)
    requires Sized(blocks', CBLOCK) && Concat(blocks') == Padded(Concat(chunks'), CBLOCK, 8, littleEndian)
    ensures blocks == blocks'
  {
    CuttingUnique(blocks, blocks', CBLOCK);
  }

  function LengthBytes(nl: nat, nh: nat, littleEndian: bool): (r: seq<byte>)
    ensures |r| == 8
  {
    if littleEndian then LittleEndian(nl, 4) + LittleEndian(nh, 4) else BigEndian(nh, 4) + BigEndian(nl, 4)
  }

  lemma LengthIsStored(nl: nat, nh: nat, n: nat, littleEndian: bool)
    requires Counted(nl, nh, n)
    ensures LengthBytes(nl, nh, littleEndian) == LengthField(n, 8, littleEndian)
  {
    assert Pow256(4) == WORD by { assert Pow256(2) == 0x1_0000; }
    PowEight();
    hide Pow256;
    var v := nh * WORD + nl;
    var k := 8 * n / (WORD * WORD);
    assert 8 * n == v + k * Pow256(8);
    if littleEndian {
      LittleEndianSplit(nh, nl, 4, 4);
      LittleEndianLow(v, k, 8);
    } else {
      BigEndianSplit(nh, nl, 4, 4);
      BigEndianLow(v, k, 8);
    }
  }

  lemma PowEight()
    ensures Pow256(8) == WORD * WORD
  {
    assert Pow256(2) == 0x1_0000;
    assert Pow256(4) == 0x1_0000_0000;
    assert Pow256(6) == 0x1_0000_0000_0000;
  }

  lemma ZerosNeeded(passed: nat, kept: nat)
    requires kept < CBLOCK && passed % CBLOCK == 0
    ensures ZeroCount(passed + kept, CBLOCK, 8) ==
              if kept + 1 > CBLOCK - 8 then CBLOCK - kept - 1 + (CBLOCK - 8) else CBLOCK - 8 - kept - 1
  {
    var k := passed / CBLOCK;
    assert passed == CBLOCK * k;
    if kept + 1 > CBLOCK - 8 {
      assert (passed + kept + 9) % CBLOCK == kept + 9 - CBLOCK;
    } else if kept + 9 == CBLOCK {
      assert (passed + kept + 9) % CBLOCK == 0;
    } else {
      assert (passed + kept + 9) % CBLOCK == kept + 9;
    }
  }

  lemma ZerosSplit(m: nat, n: nat)
    ensures Zeros(m + n) == Zeros(m) + Zeros(n)
  {
  }

  /** The bytes the last one or two blocks are made of are the standard padding. */
  lemma PaddingPieces(c: seq<byte>, d: seq<byte>, length: seq<byte>, littleEndian: bool)
    requires |d| < CBLOCK && |c| % CBLOCK == 0 && length == LengthField(|c + d|, 8, littleEndian)
    ensures Padded(c + d, CBLOCK, 8, littleEndian) ==
              if |d| + 1 > CBLOCK - 8 then
                c + (d + [0x80] + Zeros(CBLOCK - |d| - 1)) + (Zeros(CBLOCK - 8) + length)
              else
                c + (d + [0x80] + Zeros(CBLOCK - 8 - |d| - 1) + length)
  {
    hide ZeroCount, Zeros, LengthField;
    ZerosNeeded(|c|, |d|);
    if |d| + 1 > CBLOCK - 8 {
      var z := Zeros(CBLOCK - |d| - 1);
      ZerosSplit(CBLOCK - |d| - 1, CBLOCK - 8);
      FivePieces(c, d, [0x80], z, Zeros(CBLOCK - 8), length);
    } else {
      FourPieces(c, d, [0x80], Zeros(CBLOCK - 8 - |d| - 1), length);
    }
  }

  lemma FourPieces(c: seq<byte>, d: seq<byte>, e: seq<byte>, z: seq<byte>, l: seq<byte>)
    ensures c + d + (e + z + l) == c + (d + e + z + l)
  {
  }

  lemma FivePieces(c: seq<byte>, d: seq<byte>, e: seq<byte>, y: seq<byte>, z: seq<byte>, l: seq<byte>)
    ensures c + d + (e + (y + z) + l) == c + (d + e + y) + (z + l)
  {
    FourPieces(c, d, e, y + z, l);
    Concatenate(d + e, y, z);
    Concatenate(d + e + y, z, l);
    Concatenate(c, d + e + y, z + l);
  }
}
