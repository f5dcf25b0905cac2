/**
  Messages as sequences of fixed-size blocks, and the standard padding of the MD4 family
  (section 5.1 of FIPS 180-4).
 */
module HashBlocks {
  import opened Bytes

  function Concat(blocks: seq<seq<byte>>): seq<byte> {
    if blocks == [] then [] else Concat(blocks[..|blocks| - 1]) + blocks[|blocks| - 1]
  }

  ghost predicate Sized(blocks: seq<seq<byte>>, size: nat) {
    forall i :: 0 <= i < |blocks| ==> |blocks[i]| == size
  }

  lemma ConcatPush(blocks: seq<seq<byte>>, b: seq<byte>)
    ensures Concat(blocks + [b]) == Concat(blocks) + b
  {
    assert (blocks + [b])[..|blocks + [b]| - 1] == blocks;
  }

  lemma {:induction false} ConcatSize(blocks: seq<seq<byte>>, size: nat)
    requires Sized(blocks, size)
    ensures |Concat(blocks)| == size * |blocks|
  {
    if blocks != [] {
      var n := |blocks| - 1;
      ConcatSize(blocks[..n], size);
      assert size * |blocks| == size * n + size;
    }
  }

  /** A text has one cutting into blocks of a size: what a block function is given is fixed by the text. */
  lemma {:induction false} CuttingUnique(a: seq<seq<byte>>, b: seq<seq<byte>>, size: nat)
    requires size > 0 && Sized(a, size) && Sized(b, size) && Concat(a) == Concat(b)
    ensures a == b
    decreases |a|
  {
    ConcatSize(a, size);
    ConcatSize(b, size);
    if a == [] || b == [] {
      SameCount(|a|, |b|, size);
    } else {
      var m, n := |a| - 1, |b| - 1;
      var front, back := Concat(a[..m]), Concat(b[..n]);
      assert |front + a[m]| == |back + b[n]| && |a[m]| == |b[n]|;
      assert front == (front + a[m])[..|front|] && back == (back + b[n])[..|back|];
      assert a[m] == (front + a[m])[|front|..] && b[n] == (back + b[n])[|back|..];
      CuttingUnique(a[..m], b[..n], size);
      assert a == a[..m] + [a[m]] && b == b[..n] + [b[n]];
    }
  }

  lemma SameCount(m: nat, n: nat, size: nat)
    requires size > 0 && size * m == size * n && (m == 0 || n == 0)
    ensures m == n
  {
  }

  // ----- Padding -----

  /** How many zeros stand between the byte 0x80 and the length field. */
  function ZeroCount(n: nat, size: nat, lengthSize: nat): nat
    requires size > 0
  {
    (size - (n + 1 + lengthSize) % size) % size
  }

  function LittleEndian(v: nat, n: nat): (r: seq<byte>)
    ensures |r| == n
  {
    if n == 0 then [] else [v % 256] + LittleEndian(v / 256, n - 1)
  }

  /** The bytes of a little-endian number, and with them the whole. */
  lemma {:induction false} LittleDigits(v: nat, n: nat)
    ensures |LittleEndian(v, n)| == n
    ensures forall i :: 0 <= i < n ==> LittleEndian(v, n)[i] == BigEndian(v, n)[n - 1 - i]
  {
    if n > 0 {
      LittleDigits(v / 256, n - 1);
    }
  }

  /** The length in bits, in as many bytes as the hash provides for it. */
  function LengthField(n: nat, lengthSize: nat, littleEndian: bool): (r: seq<byte>)
    ensures |r| == lengthSize
  {
    if littleEndian then LittleEndian(8 * n, lengthSize) else BigEndian(8 * n, lengthSize)
  }

  function Padding(n: nat, size: nat, lengthSize: nat, littleEndian: bool): seq<byte>
    requires size > 0
  {
    [0x80] + Zeros(ZeroCount(n, size, lengthSize)) + LengthField(n, lengthSize, littleEndian)
  }

  /** The padded message. */
  function Padded(m: seq<byte>, size: nat, lengthSize: nat, littleEndian: bool): seq<byte>
    requires size > 0
  {
    m + Padding(|m|, size, lengthSize, littleEndian)
  }

  /** The fewest zeros that fill the last block. */
  lemma ZeroCountFills(n: nat, size: nat, lengthSize: nat)
    requires size > 0
    ensures (n + 1 + ZeroCount(n, size, lengthSize) + lengthSize) % size == 0 && ZeroCount(n, size, lengthSize) < size
  {
    var t := n + 1 + lengthSize;
    var r := t % size;
    if r == 0 {
      assert ZeroCount(n, size, lengthSize) == size % size == 0;
    } else {
      SmallModulus(size - r, size);
      assert t + (size - r) == (t / size) * size + size;
      MultipleModulus(t / size, size);
    }
  }

  lemma SmallModulus(a: nat, size: nat)
    requires a < size
    ensures a % size == a
  {
  }

  lemma MultipleModulus(q: nat, size: nat)
    requires size > 0
    ensures (q * size + size) % size == 0
  {
    assert q * size + size == (q + 1) * size + 0;
    ModulusUnique(q * size + size, q + 1, 0, size);
  }

  lemma ModulusUnique(a: int, q: int, r: int, size: nat)
    requires 0 <= r < size && a == q * size + r
    ensures a % size == r && a / size == q
  {
    var q', r' := a / size, a % size;
    assert a == q' * size + r';
    Difference(q, q', size);
    SmallMultiple(q - q', r' - r, size);
  }

  lemma Difference(x: int, y: int, size: nat)
    ensures (x - y) * size == x * size - y * size
  {
  }

  lemma SmallMultiple(d: int, e: int, size: int)
    requires d * size == e && 0 - size < e < size
    ensures d == 0 && e == 0
  {
    if d > 0 {
      Product(d - 1, size);
    } else if d < 0 {
      Product(-1 - d, size);
    }
  }

  lemma Product(x: nat, size: int)
    requires size >= 0
    ensures x * size >= 0 && (x + 1) * size == x * size + size && (-1 - x) * size == -(x * size) - size
  {
  }

  /** A length field keeps only the low bytes of the length. */
  lemma {:induction false} BigEndianLow(v: nat, k: nat, n: nat)
    ensures BigEndian(v + k * Pow256(n), n) == BigEndian(v, n)
    decreases n
  {
    if n > 0 {
      Low(v, k, Pow256(n - 1));
      BigEndianLow(v / 256, k, n - 1);
    }
  }

  lemma {:induction false} LittleEndianLow(v: nat, k: nat, n: nat)
    ensures LittleEndian(v + k * Pow256(n), n) == LittleEndian(v, n)
    decreases n
  {
    if n > 0 {
      Low(v, k, Pow256(n - 1));
      LittleEndianLow(v / 256, k, n - 1);
    }
  }

  lemma Low(v: nat, k: nat, p: nat)
    ensures (v + k * (256 * p)) % 256 == v % 256 && (v + k * (256 * p)) / 256 == v / 256 + k * p
  {
    assert k * (256 * p) == 256 * (k * p);
  }

  lemma {:induction false} BigEndianSplit(hi: nat, lo: nat, m: nat, n: nat)
    requires lo < Pow256(n)
    ensures BigEndian(hi * Pow256(n) + lo, m + n) == BigEndian(hi, m) + BigEndian(lo, n)
    decreases n
  {
    if n == 0 {
      assert BigEndian(hi, m) + [] == BigEndian(hi, m);
    } else {
      Low(lo, hi, Pow256(n - 1));
      BigEndianSplit(hi, lo / 256, m, n - 1);
    }
  }

  lemma {:induction false} LittleEndianSplit(hi: nat, lo: nat, m: nat, n: nat)
    requires lo < Pow256(n)
    ensures LittleEndian(hi * Pow256(n) + lo, n + m) == LittleEndian(lo, n) + LittleEndian(hi, m)
    decreases n
  {
    if n > 0 {
      Low(lo, hi, Pow256(n - 1));
      LittleEndianSplit(hi, lo / 256, m, n - 1);
    }
  }
}
