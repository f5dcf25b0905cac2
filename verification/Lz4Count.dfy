/**
  LZ4_count: how far two positions of the input agree, found eight bytes at a time by exclusive-or and
  counting trailing zero bits.  (Little-endian, reg_t of 64 bits.)
 */
module Lz4Count {
  import opened Lz4Format
  import opened Words
  import Bytes

  // ----- Machine words as naturals -----

  /** Little-endian value of the `n` bytes at `p`. */
  function ReadLE(s: seq<byte>, p: nat, n: nat): nat
    requires p + n <= |s|
    decreases n
  {
    if n == 0 then 0 else
      var low: nat := s[p];
      low + 256 * ReadLE(s, p + 1, n - 1)
  }

  /** Count of trailing zero bits. */
  function Ctz(v: nat): nat
    requires v != 0
  {
    if v % 2 == 1 then 0 else 1 + Ctz(v / 2)
  }

  /** The number of low-order zero bytes of a nonzero word. */
  function NbCommonBytes(v: nat): nat
    requires v != 0
  {
    Ctz(v) / 8
  }

  lemma XorBit(p: nat, q: nat, x: nat, y: nat)
    requires p < 2 && q < 2
    ensures Xor(p + 2 * x, q + 2 * y) == (if p == q then 0 else 1) + 2 * Xor(x, y)
  {
    var a, b := p + 2 * x, q + 2 * y;
    assert a % 2 == p && a / 2 == x && b % 2 == q && b / 2 == y;
    if a != 0 || b != 0 {
      assert Xor(a, b) == (p + q) % 2 + 2 * Xor(x, y);
    } else {
      assert Xor(x, y) == 0;
    }
  }

  lemma CtzBit(p: nat, v: nat)
    requires p < 2 && p + 2 * v != 0
    ensures if p == 1 then Ctz(p + 2 * v) == 0 else v != 0 && Ctz(p + 2 * v) == 1 + Ctz(v)
  {
  }

  // A byte as eight bits, least significant first, in front of a number.

  function Bits(v: nat, k: nat): (r: seq<nat>)
    ensures |r| == k
  {
    if k == 0 then [] else [v % 2] + Bits(v / 2, k - 1)
  }

  function FromBits(bits: seq<nat>, x: nat): nat {
    if bits == [] then x else bits[0] + 2 * FromBits(bits[1..], x)
  }

  lemma Associate(p: nat, x: nat)
    ensures (2 * p) * x == 2 * (p * x)
  {
  }

  lemma {:induction false} ValueOfBits(v: nat, k: nat, x: nat)
    requires v < Pow2(k)
    ensures FromBits(Bits(v, k), x) == v + Pow2(k) * x
    decreases k
  {
    if k > 0 {
      ValueOfBits(v / 2, k - 1, x);
      Associate(Pow2(k - 1), x);
      assert Bits(v, k)[1..] == Bits(v / 2, k - 1);
    }
  }

  predicate Binary(bits: seq<nat>) {
    forall i :: 0 <= i < |bits| ==> bits[i] < 2
  }

  lemma {:induction false} BitsBinary(v: nat, k: nat)
    ensures Binary(Bits(v, k))
  {
    if k > 0 {
      BitsBinary(v / 2, k - 1);
    }
  }

  lemma FirstBit(b: seq<nat>, x: nat)
    ensures FromBits(b, x) == if b == [] then x else b[0] + 2 * FromBits(b[1..], x)
  {
  }

  lemma {:induction false} CtzValues(b: seq<nat>, c: seq<nat>, x: nat, y: nat)
    requires |b| == |c| && Binary(b) && Binary(c)
    requires b == c ==> x != y
    ensures var diff := Xor(FromBits(b, x), FromBits(c, y));
            && diff != 0
            && if b == c then Xor(x, y) != 0 && Ctz(diff) == |b| + Ctz(Xor(x, y)) else Ctz(diff) < |b|
    decreases |b|
  {
    hide FromBits, Xor, Ctz;
    FirstBit(b, x);
    FirstBit(c, y);
    if b == [] {
      XorZero(x, y);
    } else {
      assert b == [b[0]] + b[1..] && c == [c[0]] + c[1..];
      var v, w := FromBits(b[1..], x), FromBits(c[1..], y);
      XorBit(b[0], c[0], v, w);
      if b[0] == c[0] {
        CtzValues(b[1..], c[1..], x, y);
        CtzBit(0, Xor(v, w));
      } else {
        CtzBit(1, Xor(v, w));
      }
    }
  }

  lemma BitsInjective(v: nat, w: nat)
    requires v < 256 && w < 256 && v != w
    ensures Bits(v, 8) != Bits(w, 8)
  {
    assert Pow2(8) == 256;
    ValueOfBits(v, 8, 0);
    ValueOfBits(w, 8, 0);
  }

  /** Trailing zeros of an exclusive-or: eight more than those of the upper bytes when the low bytes
      agree, fewer than eight when they differ. */
  lemma CtzBytes(x0: nat, y0: nat, x: nat, y: nat)
    requires x0 < 256 && y0 < 256 && (x0 == y0 ==> x != y)
    ensures var diff := Xor(x0 + 256 * x, y0 + 256 * y);
            && diff != 0
            && if x0 == y0 then Xor(x, y) != 0 && Ctz(diff) == 8 + Ctz(Xor(x, y)) else Ctz(diff) < 8
  {
    assert Pow2(8) == 256;
    hide Bits, FromBits, Xor, Ctz;
    ValueOfBits(x0, 8, x);
    ValueOfBits(y0, 8, y);
    BitsBinary(x0, 8);
    BitsBinary(y0, 8);
    if x0 != y0 { BitsInjective(x0, y0); }
    CtzValues(Bits(x0, 8), Bits(y0, 8), x, y);
  }

  /** The first byte of a word is its lowest. */
  lemma ReadLECons(s: seq<byte>, p: nat, n: nat)
    requires p + 1 + n <= |s|
    ensures ReadLE(s, p, 1 + n) == s[p] + 256 * ReadLE(s, p + 1, n)
  {
  }

  /** A word of `n` bytes is a number below 256^n; with `FirstDifference` it is fixed by its bytes. */
  lemma {:induction false} ReadLEBound(s: seq<byte>, p: nat, n: nat)
    requires p + n <= |s|
    ensures ReadLE(s, p, n) < Bytes.Pow256(n)
    decreases n
  {
    if n > 0 {
      ReadLEBound(s, p + 1, n - 1);
    }
  }

  /** The `n` bytes at `a` equal those at `b`. */
  predicate Same(s: seq<byte>, a: nat, b: nat, n: nat)
    requires a + n <= |s| && b + n <= |s|
  {
    forall i :: a <= i < a + n ==> s[i] == s[i - a + b]
  }

  /** The number of common low bytes of two words, from that of their upper bytes. */
  lemma WordDifference(x0: byte, y0: byte, x: nat, y: nat)
    ensures x0 + 256 * x == y0 + 256 * y <==> x0 == y0 && x == y
    ensures !(x0 == y0 && x == y) ==>
              var diff := Xor(x0 + 256 * x, y0 + 256 * y);
              && diff != 0
              && (x0 != y0 ==> NbCommonBytes(diff) == 0)
              && (x0 == y0 ==> Xor(x, y) != 0 && NbCommonBytes(diff) == 1 + NbCommonBytes(Xor(x, y)))
  {
    hide Xor, Ctz;
    if !(x0 == y0 && x == y) {
      CtzBytes(x0, y0, x, y);
    }
  }

  lemma {:induction false} WordsEqual(s: seq<byte>, a: nat, b: nat, n: nat)
    requires a + n <= |s| && b + n <= |s|
    ensures ReadLE(s, a, n) == ReadLE(s, b, n) <==> Same(s, a, b, n)
    decreases n
  {
    if n > 0 {
      WordsEqual(s, a + 1, b + 1, n - 1);
      SameCons(s, a, b, n);
      WordDifference(s[a], s[b], ReadLE(s, a + 1, n - 1), ReadLE(s, b + 1, n - 1));
    }
  }

  /** The first of `n` bytes in which the two places differ has index `k`. */
  predicate FirstAt(s: seq<byte>, a: nat, b: nat, n: nat, k: nat)
    requires a + n <= |s| && b + n <= |s|
  {
    k < n && Same(s, a, b, k) && s[a + k] != s[b + k]
  }

  lemma FirstAtCons(s: seq<byte>, a: nat, b: nat, n: nat, k: nat)
    requires n > 0 && a + n <= |s| && b + n <= |s|
    requires s[a] == s[b] && FirstAt(s, a + 1, b + 1, n - 1, k)
    ensures FirstAt(s, a, b, n, k + 1)
  {
    SameCons(s, a, b, k + 1);
  }

  /** The index of the first differing byte is what the bit trick computes. */
  lemma {:induction false} FirstDifference(s: seq<byte>, a: nat, b: nat, n: nat)
    requires a + n <= |s| && b + n <= |s|
    ensures ReadLE(s, a, n) == ReadLE(s, b, n) <==> Same(s, a, b, n)
    ensures ReadLE(s, a, n) != ReadLE(s, b, n) ==>
              var diff := Xor(ReadLE(s, b, n), ReadLE(s, a, n));
              diff != 0 && FirstAt(s, a, b, n, NbCommonBytes(diff))
    decreases n
  {
    WordsEqual(s, a, b, n);
    if n > 0 {
      var x, y := ReadLE(s, b + 1, n - 1), ReadLE(s, a + 1, n - 1);
      assert ReadLE(s, b, n) == s[b] + 256 * x && ReadLE(s, a, n) == s[a] + 256 * y;
      WordDifference(s[b], s[a], x, y);
      hide ReadLE, Xor, Ctz, NbCommonBytes, Same;
      if s[a] != s[b] {
        SameEmpty(s, a, b);
      } else if x != y {
        FirstDifference(s, a + 1, b + 1, n - 1);
        FirstAtCons(s, a, b, n, NbCommonBytes(Xor(x, y)));
      }
    }
  }

  lemma SameEmpty(s: seq<byte>, a: nat, b: nat)
    requires a <= |s| && b <= |s|
    ensures Same(s, a, b, 0)
  {
  }

  lemma SameCons(s: seq<byte>, a: nat, b: nat, n: nat)
    requires n > 0 && a + n <= |s| && b + n <= |s|
    ensures Same(s, a, b, n) <==> s[a] == s[b] && Same(s, a + 1, b + 1, n - 1)
  {
  }

  // ----- Counting -----

  /** How many bytes from `a` equal the bytes from `b`, counting none at or after `limit`. */
  function CommonLength(s: seq<byte>, a: nat, b: nat, limit: nat): (n: nat)
    requires b <= a <= limit <= |s|
    ensures a + n <= limit
    ensures Same(s, a, b, n)
    ensures a + n == limit || s[a + n] != s[b + n]
    decreases limit - a
  {
    if a < limit && s[a] == s[b] then
      var n := CommonLength(s, a + 1, b + 1, limit);
      SameCons(s, a, b, n + 1);
      n + 1
    else 0
  }

  /** The common length is the only number with its properties. */
  lemma CommonLengthUnique(s: seq<byte>, a: nat, b: nat, limit: nat, n: nat)
    requires b <= a <= limit <= |s| && a + n <= limit
    requires Same(s, a, b, n)
    requires a + n == limit || s[a + n] != s[b + n]
    ensures n == CommonLength(s, a, b, limit)
  {
  }

  lemma SameAppend(s: seq<byte>, a: nat, b: nat, m: nat, n: nat)
    requires a + m + n <= |s| && b + m + n <= |s|
    ensures Same(s, a, b, m + n) <==> Same(s, a, b, m) && Same(s, a + m, b + m, n)
  {
  }

  method Count(s: seq<byte>, start: nat, match0: nat, limit: nat) returns (n: nat)
    requires match0 <= start <= limit <= |s|
    ensures n == CommonLength(s, start, match0, limit)
  {
    hide ReadLE, Xor, Ctz, NbCommonBytes, Same, CommonLength;
    n := 0;
    assert Same(s, start, match0, 0) by { SameEmpty(s, start, match0); }
    while start + n < limit - 7
      invariant start + n <= limit
      invariant Same(s, start, match0, n)
    {
      var x, y := ReadLE(s, match0 + n, 8), ReadLE(s, start + n, 8);
      FirstDifference(s, start + n, match0 + n, 8);
      var diff := Xor(x, y);
      XorZero(x, y);
      if diff != 0 {
        var k := NbCommonBytes(diff);
        SameAppend(s, start, match0, n, k);
        CommonLengthUnique(s, start, match0, limit, n + k);
        return n + k;
      }
      SameAppend(s, start, match0, n, 8);
      n := n + 8;
    }
    n := CountTail(s, start, match0, n, limit);
  }

  /** Fewer than eight bytes remain: compare four, then two, then one. */
  method CountTail(s: seq<byte>, start: nat, match0: nat, done: nat, limit: nat) returns (n: nat)
    requires match0 <= start && start + done <= limit <= |s| && limit < start + done + 8
    requires Same(s, start, match0, done)
    ensures n == CommonLength(s, start, match0, limit)
  {
    hide ReadLE, CommonLength;
    n := done;
    if start + n < limit - 3 {
      FirstDifference(s, start + n, match0 + n, 4);
      if ReadLE(s, match0 + n, 4) == ReadLE(s, start + n, 4) {
        SameAppend(s, start, match0, n, 4);
        n := n + 4;
      }
    }
    assert limit - (start + n) >= 4 ==> !Same(s, start + n, match0 + n, 4);
    n := CountPair(s, start, match0, n, limit);
  }

  method CountPair(s: seq<byte>, start: nat, match0: nat, done: nat, limit: nat) returns (n: nat)
    requires match0 <= start && start + done <= limit <= |s|
    requires Same(s, start, match0, done)
    requires limit - (start + done) >= 4 ==> !Same(s, start + done, match0 + done, 4)
    ensures n == CommonLength(s, start, match0, limit)
  {
    hide ReadLE, CommonLength, Same;
    n := done;
    if start + n < limit - 1 {
      FirstDifference(s, start + n, match0 + n, 2);
      if ReadLE(s, match0 + n, 2) == ReadLE(s, start + n, 2) {
        SameAppend(s, start, match0, n, 2);
        n := n + 2;
        if limit - (start + n) >= 2 { SameAppend(s, start + done, match0 + done, 2, 2); }
      }
    }
    if start + n < limit && s[match0 + n] == s[start + n] {
      SameOne(s, start + n, match0 + n);
      SameAppend(s, start, match0, n, 1);
      n := n + 1;
      if start + n < limit {
        SameOne(s, start + n, match0 + n);
        SameAppend(s, start + n - 1, match0 + n - 1, 1, 1);
      }
    }
    CommonLengthUnique(s, start, match0, limit, n);
  }

  lemma SameOne(s: seq<byte>, a: nat, b: nat)
    requires a < |s| && b < |s|
    ensures Same(s, a, b, 1) <==> s[a] == s[b]
  {
  }
}
