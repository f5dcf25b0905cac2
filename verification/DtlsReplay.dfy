/**
  The DTLS replay window (section 4.1.2.6 of RFC 6347): a saturating difference of two 64-bit numbers
  computed byte by byte, a 64-bit map sliding behind the highest number seen, one window for the
  current epoch and one for the next.
 */
module DtlsReplay {
  import opened Bytes
  import opened Words
  import HashBlocks

  // ----- satsub64be -----

  lemma OrIsZero(a: nat, b: nat)
    ensures Or(a, b) == 0 <==> a == 0 && b == 0
  {
    if a != 0 && b != 0 && a % 2 == 0 && b % 2 == 0 {
      OrIsZero(a / 2, b / 2);
    }
  }

  /** Multiplying a digit of value `e` at place `p`, above a remainder `m < p`. */
  lemma Place(e: nat, p: nat, m: nat)
    requires e < 256 && m < p
    ensures e * p + m < 256 * p
    ensures e * p + m == 0 <==> e == 0 && m == 0
    ensures e * p + m == 256 * p - 1 <==> e == 255 && m == p - 1
  {
    if e > 0 { Monotone(1, e, p); }
    if e < 255 { Monotone(e, 254, p); }
  }

  lemma Monotone(x: int, y: int, p: nat)
    requires x <= y
    ensures x * p <= y * p
  {
  }

  /** The running difference `brw * p + m` gains the digit `d * p`. */
  lemma Digit(brw: int, d: int, p: nat, m: nat)
    ensures (brw * p + m) + d * p == ((brw + d) / 256) * (256 * p) + ((brw + d) % 256 * p + m)
  {
    var q, e := (brw + d) / 256, (brw + d) % 256;
    SplitProduct(brw, d, p);
    assert brw + d == 256 * q + e;
    SplitProduct(256 * q, e, p);
    Regroup(q, p);
  }

  lemma SplitProduct(x: int, y: int, p: nat)
    ensures (x + y) * p == x * p + y * p
  {
  }

  lemma Regroup(q: int, p: nat)
    ensures 256 * q * p == q * (256 * p)
  {
  }

  function ByteDifference(v1: seq<byte>, v2: seq<byte>, i: nat): int
    requires i < |v1| && i < |v2|
  {
    var a: int, b: int := v1[i], v2[i];
    a - b
  }

  /** What the loop knows once the bytes `i` to 6 are subtracted: the difference is `brw` at the next
      place up plus a remainder, and `sat` is zero as long as the remainder is all zeros (or all ones). */
  ghost predicate Subtracted(v1: seq<byte>, v2: seq<byte>, i: nat, borrow: int, brw: int, m: nat, p: nat)
    requires |v1| == |v2| == 8 && i <= 7
  {
    && p == Pow256(7 - i)
    && m < p
    && brw * p + m == Value(v1[i..7]) - Value(v2[i..7]) + borrow
  }

  lemma SubtractedStep(v1: seq<byte>, v2: seq<byte>, i: nat, borrow: int, brw: int, m: nat, p: nat)
    requires |v1| == |v2| == 8 && i < 7
    requires Subtracted(v1, v2, i + 1, borrow, brw, m, p)
    ensures var t := brw + ByteDifference(v1, v2, i);
            Subtracted(v1, v2, i, borrow, t / 256, t % 256 * p + m, 256 * p)
  {
    SliceStep(v1, i);
    SliceStep(v2, i);
    hide Value, Pow256;
    var a: int, b: int := v1[i], v2[i];
    assert p == Pow256(6 - i);
    assert Pow256(7 - i) == 256 * p by { PowStep(6 - i); }
    SplitProduct(a - b, b, p);
    Digit(brw, a - b, p, m);
    Place((brw + (a - b)) % 256, p, m);
  }

  lemma PowStep(n: nat)
    ensures Pow256(n + 1) == 256 * Pow256(n)
  {
  }

  lemma SliceStep(v: seq<byte>, i: nat)
    requires |v| == 8 && i < 7
    ensures var b: int := v[i]; Value(v[i..7]) == b * Pow256(6 - i) + Value(v[i + 1..7])
  {
    assert v[i..7][1..] == v[i + 1..7] && v[i..7][0] == v[i];
    ValueLead(v[i..7]);
  }

  /** One turn of either loop on the low byte of `sat`, which stays zero while the digits follow the pattern. */
  method Saturate(sat0: nat, t: int, ones: bool, ghost p: nat, ghost m: nat) returns (sat: nat)
    requires m < p
    requires sat0 == 0 <==> m == if ones then p - 1 else 0
    ensures sat == 0 <==> t % 256 * p + m == if ones then 256 * p - 1 else 0
  {
    Place(t % 256, p, m);
    var low := if ones then 255 - t % 256 else t % 256;
    OrIsZero(sat0, low);
    sat := Or(sat0, low);
  }

  lemma LastByte(v: seq<byte>)
    requires |v| == 8
    ensures var b: int := v[7]; Value(v) == 256 * Value(v[0..7]) + b
  {
    assert v[..7] == v[0..7];
  }

  lemma ProductBounds(q: int, p: nat)
    ensures q >= 1 ==> q * p >= p
    ensures q <= -2 ==> q * p + 2 * p <= 0
  {
    if q <= -2 { assert (q + 2) * p <= 0; }
  }

  /** What is left of a number divided by 2^56, when it is less than 2^56 in magnitude. */
  lemma SignDigit(k: int, brw: int, m: nat, p: nat)
    requires p >= 1 && m < p && k == brw * p + m && k < p && 0 <= k + p
    ensures brw == if k < 0 then -1 else 0
  {
    ProductBounds(brw, p);
  }

  /** From the top borrow and the remainder back to the difference of the whole numbers. */
  lemma Verdict(v1: seq<byte>, v2: seq<byte>, ret: int, brw: int, m: nat)
    requires |v1| == |v2| == 8 && ret == ByteDifference(v1, v2, 7)
    requires Subtracted(v1, v2, 0, ret / 256, brw, m, Pow256(7))
    ensures brw == if Value(v1) - Value(v2) < 0 then -1 else 0
    ensures Value(v1) - Value(v2) == 256 * (brw * Pow256(7) + m) + ret % 256
  {
    LastByte(v1);
    LastByte(v2);
    BigEndianOfValue(v1[0..7]);
    BigEndianOfValue(v2[0..7]);
    hide Value, Pow256;
    var k := Value(v1[0..7]) - Value(v2[0..7]) + ret / 256;
    SignDigit(k, brw, m, Pow256(7));
  }

  /** Exact from -128 to 127; beyond, only the sign is right and the magnitude is at least 128. */
  method SatSub64be(v1: seq<byte>, v2: seq<byte>) returns (r: int)
    requires |v1| == 8 && |v2| == 8
    ensures var diff := Value(v1) - Value(v2);
            && (-128 <= diff <= 127 ==> r == diff)
            && (diff > 127 ==> r >= 128)
            && (diff < -128 ==> r <= -128)
  {
    var ret := ByteDifference(v1, v2, 7);
    var brw, sat;
    ghost var m;
    brw, sat, m := SubtractHigh(v1, v2, ret);
    Verdict(v1, v2, ret, brw, m);
    hide Value, Pow256, Subtracted;
    Extremes(brw, m, Pow256(7), ret % 256);
    brw := brw * 256;
    r := if sat != 0 then brw + 0x80 else brw + ret % 256;
  }

  /** The loop over the seven high bytes, for either value of the sign bit `ret & 0x80`. */
  method SubtractHigh(v1: seq<byte>, v2: seq<byte>, ret: int) returns (brw: int, sat: nat, ghost m: nat)
    requires |v1| == 8 && |v2| == 8 && ret == ByteDifference(v1, v2, 7)
    ensures Subtracted(v1, v2, 0, ret / 256, brw, m, Pow256(7)) && m < Pow256(7)
    ensures sat == 0 <==> m == if ret % 256 >= 128 then Pow256(7) - 1 else 0
  {
    hide Value, Pow256, Subtracted, Or;
    var ones := ret % 256 >= 128;
    ghost var p: nat := 1;
    sat, brw, m := 0, ret / 256, 0;
    NothingSubtracted(v1, v2, brw);
    for i := 7 downto 0
      invariant Subtracted(v1, v2, i, ret / 256, brw, m, p) && m < p
      invariant sat == 0 <==> m == if ones then p - 1 else 0
    {
      SubtractedStep(v1, v2, i, ret / 256, brw, m, p);
      brw := brw + ByteDifference(v1, v2, i);
      sat := Saturate(sat, brw, ones, p, m);
      Place(brw % 256, p, m);
      m, p := brw % 256 * p + m, 256 * p;
      brw := brw / 256;
    }
    PlaceOf(v1, v2, 0, ret / 256, brw, m, p);
  }

  lemma NothingSubtracted(v1: seq<byte>, v2: seq<byte>, brw: int)
    requires |v1| == |v2| == 8
    ensures Subtracted(v1, v2, 7, brw, brw, 0, 1)
  {
    assert v1[7..7] == v2[7..7] == [];
  }

  lemma PlaceOf(v1: seq<byte>, v2: seq<byte>, i: nat, borrow: int, brw: int, m: nat, p: nat)
    requires |v1| == |v2| == 8 && i <= 7 && Subtracted(v1, v2, i, borrow, brw, m, p)
    ensures p == Pow256(7 - i)
  {
  }

  /** The range of a two's complement number by its sign, its middle digits and its low byte. */
  lemma Extremes(brw: int, m: nat, p: nat, low: nat)
    requires m < p && low < 256 && (brw == 0 || brw == -1)
    ensures var v := 256 * (brw * p + m) + low;
            && (brw == 0 && m == 0 ==> v == low)
            && (brw == -1 && m == p - 1 ==> v == low - 256)
            && (brw == 0 && m > 0 ==> v >= 256)
            && (brw == -1 && m < p - 1 ==> v < -256)
  {
  }

  // ----- Single bits of the map, an unsigned long -----

  const MAP: nat := 0x1_0000_0000_0000_0000

  type word64 = x: nat | x < MAP

  lemma MapSize()
    ensures Pow2(64) == MAP
  {
    assert Pow2(8) == 0x100;
    assert Pow2(16) == 0x1_0000;
    assert Pow2(24) == 0x100_0000;
    assert Pow2(32) == 0x1_0000_0000;
    assert Pow2(40) == 0x100_0000_0000;
    assert Pow2(48) == 0x1_0000_0000_0000;
    assert Pow2(56) == 0x100_0000_0000_0000;
  }

  /** Left shift by any distance; what leaves the word is lost. */
  function Shl(bits: word64, d: nat): word64 {
    if d == 0 then bits
    else
      var before: nat := Shl(bits, d - 1);
      2 * before % MAP
  }

  lemma {:induction false} RemainderBit(x: nat, n: nat, i: nat)
    requires i < n
    ensures Bit(x % Pow2(n), i) <==> Bit(x, i)
    decreases n
  {
    HalfRemainder(x, Pow2(n - 1));
    if i > 0 {
      RemainderBit(x / 2, n - 1, i - 1);
    }
  }

  lemma HalfRemainder(x: nat, p: nat)
    requires p > 0
    ensures x % (2 * p) / 2 == x / 2 % p && x % (2 * p) % 2 == x % 2
  {
    var h := x / 2;
    var q, r := h / p, h % p;
    assert h == q * p + r;
    assert x == q * (2 * p) + (2 * r + x % 2) by { assert q * (2 * p) == 2 * (q * p); }
    HashBlocks.ModulusUnique(x, q, 2 * r + x % 2, 2 * p);
  }

  lemma {:induction false} BitShl(bits: word64, d: nat, i: nat)
    requires i < 64
    ensures Bit(Shl(bits, d), i) <==> i >= d && Bit(bits, i - d)
    decreases d
  {
    if d > 0 {
      var before: nat := Shl(bits, d - 1);
      MapSize();
      hide Pow2;
      RemainderBit(2 * before, 64, i);
      if i > 0 {
        BitShl(bits, d - 1, i - 1);
        assert 2 * before / 2 == before;
      }
    }
  }

  lemma OnlyBit(i: nat)
    ensures Bit(1, i) <==> i == 0
  {
    if i > 0 { ZeroBit(i - 1); }
  }

  /** Testing a bit by a shifted mask. */
  lemma MaskedBit(bits: word64, s: nat)
    requires s < 64
    ensures And(bits, Shl(1, s)) != 0 <==> Bit(bits, s)
  {
    MapSize();
    hide Pow2, Bit, Shl;
    var x := And(bits, Shl(1, s));
    AndBound(bits, Shl(1, s));
    if x != 0 {
      var i := SomeBit(x, 64);
      AndBit(bits, Shl(1, s), i);
      BitShl(1, s, i);
      if i >= s { OnlyBit(i - s); }
    } else {
      AndBit(bits, Shl(1, s), s);
      BitShl(1, s, s);
      OnlyBit(0);
      ZeroBit(s);
    }
  }

  /** bits | more */
  function Set(bits: word64, more: word64): word64 {
    MapSize();
    OrBound(bits, more, 64);
    Or(bits, more)
  }

  // ----- The window -----

  /** `max`: the highest number marked; `bits`: bit i stands for `max - i`. */
  datatype Window = Window(max: nat, bits: word64)

  function Mark(w: Window, s: nat): Window {
    if s > w.max then Window(s, if s - w.max < 64 then Set(Shl(w.bits, s - w.max), 1) else 1)
    else if w.max - s < 64 then Window(w.max, Set(w.bits, Shl(1, w.max - s)))
    else w
  }

  /** The verdict of the replay check. */
  predicate Accepts(w: Window, s: nat) {
    s > w.max || (w.max - s < 64 && !Bit(w.bits, w.max - s))
  }

  /** The window after a whole run of marks. */
  function After(marks: seq<nat>): Window {
    if marks == [] then Window(0, 0) else Mark(After(marks[..|marks| - 1]), marks[|marks| - 1])
  }

  lemma AfterOneMore(marks: seq<nat>, s: nat)
    ensures After(marks + [s]) == Mark(After(marks), s)
  {
    hide Mark;
    assert (marks + [s])[..|marks + [s]| - 1] == marks;
  }

  /** What the window knows of the run: the maximum, and which of the last 64 numbers were marked. */
  ghost predicate Faithful(w: Window, marks: seq<nat>) {
    && (forall s :: s in marks ==> s <= w.max)
    && (w.max == 0 || w.max in marks)
    && (forall i :: 0 <= i < 64 ==> (Bit(w.bits, i) <==> i <= w.max && w.max - i in marks))
  }

  lemma MarkFaithful(w: Window, marks: seq<nat>, s: nat)
    requires Faithful(w, marks)
    ensures Faithful(Mark(w, s), marks + [s])
  {
    hide Shl, Or, Bit, Pow2;
    var w', all := Mark(w, s), marks + [s];
    assert forall x :: x in all <==> x in marks || x == s;
    forall i | 0 <= i < 64
      ensures Bit(w'.bits, i) <==> i <= w'.max && w'.max - i in all
    {
      OnlyBit(i);
      if s > w.max {
        var d := s - w.max;
        if d < 64 {
          OrBit(Shl(w.bits, d), 1, i);
          BitShl(w.bits, d, i);
        }
      } else if w.max - s < 64 {
        var d := w.max - s;
        OrBit(w.bits, Shl(1, d), i);
        BitShl(1, d, i);
        if i >= d { OnlyBit(i - d); }
      }
    }
  }

  /** Invariant over every run: the map is exactly the set of marks among the last 64 numbers. */
  lemma {:induction false} RunFaithful(marks: seq<nat>)
    ensures Faithful(After(marks), marks)
  {
    if marks == [] {
      forall i | 0 <= i < 64 ensures !Bit(0, i) { ZeroBit(i); }
    } else {
      var n := |marks| - 1;
      RunFaithful(marks[..n]);
      MarkFaithful(After(marks[..n]), marks[..n], marks[n]);
      assert marks[..n] + [marks[n]] == marks;
    }
  }

  /** Over every run: a number is accepted exactly when it was never marked and is not stale.  In
      particular a marked number is rejected by every later check. */
  lemma AcceptedIffFresh(marks: seq<nat>, s: nat)
    ensures Accepts(After(marks), s) <==> s !in marks && After(marks).max < s + 64
  {
    hide Bit, After;
    RunFaithful(marks);
    var w := After(marks);
    if s <= w.max && w.max - s < 64 {
      assert Bit(w.bits, w.max - s) <==> w.max - (w.max - s) in marks;
    }
  }

  /** The highest number seen never decreases along a run. */
  lemma {:induction false} MaxGrows(marks: seq<nat>, more: seq<nat>)
    ensures After(marks).max <= After(marks + more).max
    decreases |more|
  {
    if more != [] {
      var n := |more| - 1;
      MaxGrows(marks, more[..n]);
      assert (marks + more)[..|marks + more| - 1] == marks + more[..n];
    } else {
      assert marks + more == marks;
    }
  }

  // ----- The bitmaps of a connection -----

  class Bitmap {
    var bits: word64
    var maxSeqNum: seq<byte>
    ghost var marks: seq<nat>

    ghost predicate Valid() reads this {
      |maxSeqNum| == 8 && Window(Value(maxSeqNum), bits) == After(marks)
    }

    constructor ()
      ensures Valid() && marks == []
    {
      bits, maxSeqNum, marks := 0, [0, 0, 0, 0, 0, 0, 0, 0], [];
      new;
      assert maxSeqNum == BigEndian(0, 8) by { ZeroBytes(8); }
      ValueOfBigEndian(0, 8);
    }

    /** dtls1_record_replay_check. */
    method ReplayCheck(seqNum: seq<byte>) returns (ok: bool)
      requires Valid() && |seqNum| == 8
      ensures ok <==> Value(seqNum) !in marks && Value(maxSeqNum) < Value(seqNum) + 64
    {
      hide Shl, Value, And, Bit, After;
      var cmp := SatSub64be(seqNum, maxSeqNum);
      AcceptedIffFresh(marks, Value(seqNum));
      if cmp > 0 {
        return true;
      }
      var shift := -cmp;
      if shift >= 64 {
        return false;
      }
      MaskedBit(bits, shift);
      ok := And(bits, Shl(1, shift)) == 0;
    }

    /** dtls1_record_bitmap_update. */
    method BitmapUpdate(seqNum: seq<byte>)
      requires Valid() && |seqNum| == 8
      modifies this
      ensures Valid() && marks == old(marks) + [Value(seqNum)]
      ensures Value(maxSeqNum) == if Value(seqNum) > Value(old(maxSeqNum)) then Value(seqNum) else Value(old(maxSeqNum))
    {
      hide Shl, Value, Set, After;
      AfterOneMore(marks, Value(seqNum));
      marks := marks + [Value(seqNum)];
      var cmp := SatSub64be(seqNum, maxSeqNum);
      if cmp > 0 {
        var shift := cmp;
        bits := if shift < 64 then Set(Shl(bits, shift), 1) else 1;
        maxSeqNum := seqNum;
      } else {
        var shift := -cmp;
        if shift < 64 {
          bits := Set(bits, Shl(1, shift));
        }
      }
    }
  }

  const HANDSHAKE := 22
  const ALERT := 21

  /** The current epoch's window and the next one's. */
  class ReplayState {
    const current: Bitmap
    const next: Bitmap

    constructor ()
      ensures Valid() && fresh(current) && fresh(next) && current.marks == [] && next.marks == []
    {
      current := new Bitmap();
      next := new Bitmap();
    }

    ghost predicate Valid() reads this, current, next {
      current != next && current.Valid() && next.Valid()
    }

    /** dtls1_get_bitmap: data of the next epoch is not accepted yet, handshake and alerts are. */
    method GetBitmap(readEpoch: nat, epoch: nat, recordType: int) returns (bitmap: Bitmap?, isNextEpoch: bool)
      requires readEpoch < 0x1_0000 && epoch < 0x1_0000
      ensures bitmap == if epoch == readEpoch then current
                        else if epoch == (readEpoch + 1) % 0x1_0000 && recordType in {22, 21} then next else null
      ensures isNextEpoch <==> bitmap == next && epoch != readEpoch
    {
      isNextEpoch := false;
      if epoch == readEpoch {
        return current, isNextEpoch;
      }
      if epoch == (readEpoch + 1) % 0x1_0000 && (recordType == HANDSHAKE || recordType == ALERT) {
        return next, true;
      }
      bitmap := null;
    }

    /** dtls1_reset_read_seq_numbers: what was marked for the next epoch is what is now known. */
    method ResetReadSeqNumbers()
      requires Valid()
      modifies current, next
      ensures Valid() && current.marks == old(next.marks) && next.marks == []
    {
      current.bits, current.maxSeqNum, current.marks := next.bits, next.maxSeqNum, next.marks;
      next.bits, next.maxSeqNum, next.marks := 0, [0, 0, 0, 0, 0, 0, 0, 0], [];
      assert next.maxSeqNum == BigEndian(0, 8) by { ZeroBytes(8); }
      ValueOfBigEndian(0, 8);
    }
  }
}
