/**
  Constant-time processing of a decrypted CBC record: comparisons as masks, removal of the padding, and
  extraction of the MAC (section 6.2.3.2 of RFC 5246).
 */
module S3Cbc {
  import opened Bytes
  import opened Words
  import HashBlocks

  // ----- Masks (32-bit unsigned int) -----

  const WORD: nat := 0x1_0000_0000
  const HALF: nat := 0x8000_0000
  const ONES: nat := 0xffff_ffff

  function Sub(a: nat, b: nat): nat { (a - b) % WORD }

  function Not(x: nat): nat
    requires x < WORD
  {
    ONES - x
  }

  /** The value of a word as a signed int. */
  function Signed(x: nat): int { if x < HALF then x else x - WORD }

  /** DUPLICATE_MSB_TO_ALL: the sign bit copied to all bits by an arithmetic shift. */
  function DuplicateMsb(x: nat): (r: nat)
    requires x < WORD
    ensures r == if x >= HALF then ONES else 0
  {
    Signed(x) / HALF % WORD
  }

  function ConstantTimeLt(a: nat, b: nat): (r: nat)
    ensures r < WORD
  {
    DuplicateMsb(Sub(a, b))
  }

  function ConstantTimeGe(a: nat, b: nat): (r: nat)
    ensures r < WORD
  {
    DuplicateMsb(Not(Sub(a, b)))
  }

  function ConstantTimeEq8(a: nat, b: nat): (r: nat)
    requires a < WORD && b < WORD
    ensures r < 256
  {
    Pow2Word();
    XorBound(a, b, 32);
    DuplicateMsb(Sub(Xor(a, b), 1)) % 256
  }

  lemma Pow2Word()
    ensures Pow2(31) == HALF && Pow2(32) == WORD && Pow2(8) == 256
  {
    assert Pow2(8) == 256;
    assert Pow2(16) == 0x1_0000;
    assert Pow2(24) == 0x100_0000;
  }

  /** The comparison by subtraction is right exactly when the difference fits a signed int. */
  lemma LtRight(a: nat, b: nat)
    requires a < WORD && b < WORD
    ensures ConstantTimeLt(a, b) == (if a < b then ONES else 0) <==> a - b < HALF && b - a <= HALF
  {
  }

  lemma GeRight(a: nat, b: nat)
    requires a < WORD && b < WORD
    ensures ConstantTimeGe(a, b) == (if a >= b then ONES else 0) <==> a - b < HALF && b - a <= HALF
  {
  }

  /** The comparison by exclusive-or is right exactly when the words do not differ in the top bit and
      another one as well. */
  lemma Eq8Right(a: nat, b: nat)
    requires a < WORD && b < WORD
    ensures ConstantTimeEq8(a, b) == (if a == b then 255 else 0) <==> Xor(a, b) <= HALF
  {
    hide Pow2, Xor, DuplicateMsb;
    Pow2Word();
    XorBound(a, b, 32);
    XorZero(a, b);
    var x := Xor(a, b);
    assert Sub(x, 1) == if x == 0 then ONES else x - 1;
  }

  /** In particular for words below 2^31. */
  lemma SmallWords(a: nat, b: nat)
    requires a < HALF && b < HALF
    ensures ConstantTimeLt(a, b) == if a < b then ONES else 0
    ensures ConstantTimeGe(a, b) == if a >= b then ONES else 0
    ensures ConstantTimeEq8(a, b) == if a == b then 255 else 0
  {
    LtRight(a, b);
    GeRight(a, b);
    Eq8Right(a, b);
    Pow2Word();
    hide Pow2;
    XorBound(a, b, 31);
  }

  // ----- Mask identities -----

  /** A full mask keeps a value, an empty one clears it. */
  lemma Masked(x: nat)
    ensures And(x, 0) == 0 == And(0, x) && Or(x, 0) == x == Or(0, x)
    ensures x < 256 ==> And(x, 255) == x == And(255, x)
    ensures x < WORD ==> And(x, ONES) == x == And(ONES, x)
  {
    Pow2Word();
    hide Pow2;
    if x < 256 { AndOnes(x, 8); }
    if x < WORD { AndOnes(x, 32); }
  }

  // ----- Folding the verdict of the padding check -----

  /** The low eight bits are all set. */
  ghost predicate LowOnes(x: nat) {
    forall i :: 0 <= i < 8 ==> Bit(x, i)
  }

  /** good &= ~x for a byte x: the low bits survive exactly when x is zero. */
  lemma ClearLow(good: nat, x: nat)
    requires good < WORD && x < 256
    ensures And(good, Not(x)) < WORD
    ensures LowOnes(And(good, Not(x))) <==> LowOnes(good) && x == 0
  {
    Pow2Word();
    hide Pow2, Bit;
    AndBound(good, Not(x));
    forall i | 0 <= i < 8
      ensures Bit(And(good, Not(x)), i) <==> Bit(good, i) && !Bit(x, i)
    {
      AndBit(good, Not(x), i);
      NotBit(x, 32, i);
    }
    if x != 0 {
      var i := SomeBit(x, 8);
    } else {
      forall i | 0 <= i < 8 ensures !Bit(x, i) { ZeroBit(i); }
    }
  }

  function FoldLow(good: nat): nat {
    var g4 := And(good, Shr(good, 4));
    var g2 := And(g4, Shr(g4, 2));
    And(g2, Shr(g2, 1))
  }

  lemma FoldStep(x: nat, k: nat, i: nat)
    ensures Bit(And(x, Shr(x, k)), i) <==> Bit(x, i) && Bit(x, i + k)
  {
    AndBit(x, Shr(x, k), i);
    ShiftBit(x, k, i);
  }

  /** The three shifts and ANDs leave the conjunction of the low eight bits in bit 0. */
  lemma FoldLowBit(good: nat)
    ensures FoldLow(good) % 2 == 1 <==> LowOnes(good)
  {
    var g4 := And(good, Shr(good, 4));
    var g2 := And(g4, Shr(g4, 2));
    assert FoldLow(good) % 2 == 1 <==> Bit(And(g2, Shr(g2, 1)), 0);
    hide Bit, FoldLow;
    FoldStep(g2, 1, 0);
    FoldStep(g4, 2, 0);
    FoldStep(g4, 2, 1);
    FoldStep(good, 4, 0);
    FoldStep(good, 4, 1);
    FoldStep(good, 4, 2);
    FoldStep(good, 4, 3);
  }

  /** Shifted to the top and duplicated. */
  lemma TopBit(x: nat)
    ensures DuplicateMsb(x * HALF % WORD) == if x % 2 == 1 then ONES else 0
  {
    hide DuplicateMsb;
    HashBlocks.ModulusUnique(x * HALF, x / 2, x % 2 * HALF, WORD);
  }

  // ----- The record -----

  class Record {
    const buffer: array<byte>
    var data: nat
    var input: nat
    var length: nat
    var paddingLength: nat

    constructor (buffer: array<byte>, data: nat, length: nat)
      requires data + length <= buffer.Length && length < HALF
      ensures Valid() && this.buffer == buffer && this.data == data && this.length == length
    {
      this.buffer, this.data, this.input, this.length, paddingLength := buffer, data, data, length, 0;
    }

    ghost predicate Valid()
      reads this
    {
      data + length <= buffer.Length && length < HALF
    }

    ghost function Body(): (b: seq<byte>)
      requires Valid()
      reads this, buffer
      ensures |b| == length
    {
      buffer[data..data + length]
    }
  }

  /** The byte `i` places before the last. */
  function FromEnd(body: seq<byte>, i: nat): byte
    requires i < |body|
  {
    body[|body| - 1 - i]
  }

  /** The padding a record claims to have, with its length byte. */
  function Padding(body: seq<byte>): nat
    requires body != []
  {
    var p: nat := FromEnd(body, 0);
    p + 1
  }

  /** The plain condition: room for the MAC, and the last p + 1 bytes all equal to p. */
  ghost predicate ProperlyPadded(body: seq<byte>, macSize: nat)
    requires body != []
  {
    var p: nat := FromEnd(body, 0);
    && 1 + macSize + p <= |body|
    && forall i :: 0 <= i <= p ==> FromEnd(body, i) == p
  }

  /** ssl3_cbc_remove_padding. */
  method RemovePadding(rec: Record, eivLen: nat, macSize: nat) returns (r: int)
    requires rec.Valid() && 1 + macSize + eivLen + 255 < HALF
    modifies rec
    ensures rec.Valid()
    ensures r == 0 <==> 1 + macSize + eivLen > old(rec.length)
    ensures r == 0 ==> unchanged(rec)
    ensures r != 0 ==>
              && rec.data == old(rec.data) + eivLen && rec.input == old(rec.input) + eivLen
              && var body := old(rec.Body())[eivLen..];
                 && r == (if ProperlyPadded(body, macSize) then 1 else -1)
                 && rec.paddingLength == (if r == 1 then Padding(body) else 0)
                 && rec.length == |body| - rec.paddingLength
                 && rec.Body() == body[..rec.length]
  {
    hide ProperlyPadded, FromEnd, Record.Body;
    var overhead := 1 + macSize;
    if overhead + eivLen > rec.length {
      return 0;
    }
    SkipIv(rec, eivLen);
    ghost var body := rec.Body();
    var good, paddingLength := CheckPadding(rec, macSize);
    PaddingHasRoom(body, macSize);
    r := Strip(rec, good, paddingLength);
  }

  /** Past the explicit initialisation vector. */
  method SkipIv(rec: Record, eivLen: nat)
    requires rec.Valid() && eivLen <= rec.length
    modifies rec
    ensures rec.Valid() && rec.Body() == old(rec.Body())[eivLen..]
    ensures rec.data == old(rec.data) + eivLen && rec.input == old(rec.input) + eivLen
  {
    rec.data := rec.data + eivLen;
    rec.input := rec.input + eivLen;
    rec.length := rec.length - eivLen;
  }

  /** The verdict takes effect: the padding goes, or nothing. */
  method Strip(rec: Record, good: nat, p: nat) returns (r: int)
    requires rec.Valid() && (good == ONES || good == 0) && p < 256 && (good == ONES ==> p + 1 <= rec.length)
    modifies rec
    ensures rec.Valid() && rec.data == old(rec.data) && rec.input == old(rec.input)
    ensures r == (if good == ONES then 1 else -1)
    ensures rec.paddingLength == (if good == ONES then p + 1 else 0) && rec.length == old(rec.length) - rec.paddingLength
    ensures rec.Body() == old(rec.Body())[..rec.length]
  {
    hide And, Or, Signed;
    Masked(p + 1);
    var paddingLength := And(good, p + 1);
    rec.length := rec.length - paddingLength;
    rec.paddingLength := paddingLength;
    Returned(good);
    r := Signed(Or(And(good, 1), And(Not(good), ONES)));
  }

  /** The constant-time check: all ones for a proper padding, else zero. */
  method CheckPadding(rec: Record, macSize: nat) returns (good: nat, paddingLength: nat)
    requires rec.Valid() && 1 + macSize <= rec.length && 1 + macSize + 255 < HALF
    ensures paddingLength == FromEnd(rec.Body(), 0)
    ensures good == if ProperlyPadded(rec.Body(), macSize) then ONES else 0
  {
    hide LowOnes, FoldLow, And, Or, Xor, AgreesUpTo, ProperlyPadded, ConstantTimeGe, DuplicateMsb, Signed;
    var overhead := 1 + macSize;
    ghost var body := rec.Body();
    paddingLength := rec.buffer[rec.data + rec.length - 1];
    good := ConstantTimeGe(rec.length, overhead + paddingLength);
    SmallWords(rec.length, overhead + paddingLength);
    var toCheck := 256;
    if toCheck > rec.length {
      toCheck := rec.length;
    }
    LowOnesOfMask(good);
    AgreesNone(body, paddingLength);
    for i := 0 to toCheck
      invariant good < WORD
      invariant LowOnes(good) <==> overhead + paddingLength <= |body| && AgreesUpTo(body, paddingLength, i)
    {
      var mask := ConstantTimeGe(paddingLength, i) % 256;
      var b: nat := rec.buffer[rec.data + rec.length - 1 - i];
      SmallWords(paddingLength, i);
      assert b == FromEnd(body, i);
      Mismatch(mask, paddingLength, b);
      ClearLow(good, And(mask, Xor(paddingLength, b)));
      AgreesOneMore(body, paddingLength, i);
      good := And(good, Not(And(mask, Xor(paddingLength, b))));
    }
    FoldLowBit(good);
    AgreesAll(body, paddingLength, toCheck, macSize);
    good := FoldLow(good);
    TopBit(good);
    good := DuplicateMsb(good * HALF % WORD);
  }

  /** The bytes at distances below `n` from the end, and at most `p`, equal `p`. */
  ghost predicate AgreesUpTo(body: seq<byte>, p: nat, n: nat)
    requires n <= |body|
  {
    forall i :: 0 <= i < n && i <= p ==> FromEnd(body, i) == p
  }

  lemma AgreesNone(body: seq<byte>, p: nat)
    ensures AgreesUpTo(body, p, 0)
  {
  }

  lemma AgreesOneMore(body: seq<byte>, p: nat, n: nat)
    requires n < |body|
    ensures AgreesUpTo(body, p, n + 1) <==> AgreesUpTo(body, p, n) && (n <= p ==> FromEnd(body, n) == p)
  {
  }

  lemma AgreesAll(body: seq<byte>, p: nat, n: nat, macSize: nat)
    requires body != [] && p == FromEnd(body, 0) && n == if 256 > |body| then |body| else 256
    ensures ProperlyPadded(body, macSize) <==> 1 + macSize + p <= |body| && AgreesUpTo(body, p, n)
  {
  }

  lemma Mismatch(mask: nat, p: nat, b: nat)
    requires (mask == 255 || mask == 0) && p < 256 && b < 256
    ensures And(mask, Xor(p, b)) < 256
    ensures And(mask, Xor(p, b)) == 0 <==> mask == 0 || p == b
  {
    Pow2Word();
    hide Pow2;
    XorBound(p, b, 8);
    XorZero(p, b);
    Masked(Xor(p, b));
  }

  lemma LowOnesOfMask(good: nat)
    requires good == ONES || good == 0
    ensures LowOnes(good) <==> good == ONES
  {
    ZeroBit(0);
    forall i | 0 <= i < 8 ensures Bit(ONES, i) {
      Pow2Word();
      hide Pow2;
      NotBit(0, 32, i);
      ZeroBit(i);
    }
  }

  /** (good & 1) | (~good & -1) */
  lemma Returned(good: nat)
    requires good == ONES || good == 0
    ensures Signed(Or(And(good, 1), And(Not(good), ONES))) == if good == ONES then 1 else -1
  {
    Masked(1);
    Masked(ONES);
  }

  // ----- The MAC -----

  /** The multiple of the MAC size meant to hide the division: (md_size >> 1) << 24. */
  function DivSpoiler(mdSize: nat): nat { mdSize / 2 * 0x100_0000 % WORD }

  /** It is a multiple of the MAC size for every even size, and for no odd one but 1. */
  lemma SpoilerHarmless(mdSize: nat)
    requires 0 < mdSize <= 64
    ensures DivSpoiler(mdSize) % mdSize == 0 <==> mdSize % 2 == 0 || mdSize == 1
  {
    var h := mdSize / 2;
    assert DivSpoiler(mdSize) == h * 0x100_0000;
    if mdSize % 2 == 0 {
      assert h * 0x100_0000 == mdSize * 0x80_0000;
      HashBlocks.ModulusUnique(mdSize * 0x80_0000, 0x80_0000, 0, mdSize);
    } else if DivSpoiler(mdSize) % mdSize == 0 {
      var q := DivSpoiler(mdSize) / mdSize;
      assert DivSpoiler(mdSize) == mdSize * 0x80_0000 - 0x80_0000;
      DividesPower(mdSize, 0x80_0000 - q);
    }
  }

  lemma DividesPower(m: nat, q: int)
    requires m % 2 == 1 && m * q == 0x80_0000
    ensures m == 1
  {
    assert Pow2(23) == 0x80_0000 by { assert Pow2(8) == 256; assert Pow2(16) == 0x1_0000; }
    hide Pow2;
    OddDividesPower(m, q, 23);
  }

  lemma {:induction false} OddDividesPower(m: nat, q: int, k: nat)
    requires m % 2 == 1 && m * q == Pow2(k)
    ensures m == 1
    decreases k
  {
    if k == 0 {
      if m > 1 { SmallProduct(m, q); }
    } else {
      OddTimes(m, q);
      OddDividesPower(m, q / 2, k - 1);
    }
  }

  lemma SmallProduct(m: nat, q: int)
    requires m > 1
    ensures m * q != 1
  {
    if q >= 1 { assert m * q >= m; } else { assert m * q <= 0; }
  }

  lemma OddTimes(m: nat, q: int)
    requires m % 2 == 1 && m * q % 2 == 0
    ensures q % 2 == 0 && m * q == 2 * (m * (q / 2))
  {
    Expand(m / 2, q);
    EvenPart(m * q, m / 2 * q, q);
    Halves(m, q / 2);
  }

  lemma EvenPart(p: int, x: int, q: int)
    requires p == 2 * x + q && p % 2 == 0
    ensures q % 2 == 0
  {
  }

  lemma Expand(a: int, q: int)
    ensures (2 * a + 1) * q == 2 * (a * q) + q
  {
  }

  lemma Halves(m: int, b: int)
    ensures m * (2 * b) == 2 * (m * b)
  {
  }

  /** `m` places after `r` in a buffer of `size` places that wraps around. */
  function Slot(r: nat, m: nat, size: nat): (s: nat)
    requires r < size && m < size
    ensures s < size
  {
    if r + m < size then r + m else r + m - size
  }

  lemma SlotDistinct(r: nat, m: nat, m': nat, size: nat)
    requires r < size && m < size && m' < size && m != m'
    ensures Slot(r, m, size) != Slot(r, m', size)
  {
  }

  /** The index after `j`, wrapped by the mask. */
  lemma Wrapped(j: nat, size: nat)
    requires j < size < HALF
    ensures And(j + 1, ConstantTimeLt(j + 1, size)) == Slot(j, if size == 1 then 0 else 1, size)
  {
    SmallWords(j + 1, size);
    Masked(j + 1);
  }

  lemma NextRemainder(a: nat, size: nat)
    requires size > 0
    ensures (a + 1) % size == Slot(a % size, if size == 1 then 0 else 1, size)
  {
    var q, r := a / size, a % size;
    assert a == q * size + r;
    if r + 1 < size {
      HashBlocks.ModulusUnique(a + 1, q, r + 1, size);
    } else {
      assert (q + 1) * size == q * size + size;
      HashBlocks.ModulusUnique(a + 1, q + 1, 0, size);
    }
  }

  /** The scan: slot by slot, the MAC bytes below position `i` are in, the others still zero. */
  ghost predicate Collected(rotated: seq<byte>, mac: seq<byte>, r: nat, n: int) {
    && |rotated| == |mac| && r < |mac|
    && forall m :: 0 <= m < |mac| ==> rotated[Slot(r, m, |mac|)] == if m < n then mac[m] else 0
  }

  /** One byte of the scan: outside the MAC the mask is empty, inside it the slot was zero. */
  lemma CollectOne(rotated: seq<byte>, mac: seq<byte>, r: nat, n: int, j: nat, b: nat, mask: nat)
    requires Collected(rotated, mac, r, n) && j < |mac| && b < 256
    requires mask == if 0 <= n < |mac| then 255 else 0
    requires 0 <= n < |mac| ==> j == Slot(r, n, |mac|) && b == mac[n]
    ensures Or(rotated[j], And(b, mask)) < 256
    ensures Collected(rotated[j := Or(rotated[j], And(b, mask))], mac, r, n + 1)
  {
    Masked(b);
    Masked(rotated[j]);
    if 0 <= n < |mac| {
      forall m | 0 <= m < |mac| && m != n ensures Slot(r, m, |mac|) != j {
        SlotDistinct(r, m, n, |mac|);
      }
    }
  }

  /** Reading the slots in order from `o` on turns the MAC by the distance from `r` to `o`. */
  lemma Unrotated(rotated: seq<byte>, mac: seq<byte>, r: nat, d: nat, i: nat)
    requires Collected(rotated, mac, r, |mac|) && d < |mac| && i < |mac|
    ensures rotated[Slot(Slot(r, d, |mac|), i, |mac|)] == mac[Slot(d, i, |mac|)]
  {
    assert Slot(Slot(r, d, |mac|), i, |mac|) == Slot(r, Slot(d, i, |mac|), |mac|);
  }

  /** The index of the scan: the remainder of the distance scanned, which inside the MAC is the next slot. */
  ghost predicate ScanIndex(j: nat, r: nat, size: nat, scanned: nat, n: int) {
    && j < size && r < size
    && (n <= 0 ==> j == scanned % size)
    && (0 <= n < size ==> j == Slot(r, n, size))
  }

  lemma ScanOne(j: nat, r: nat, size: nat, scanned: nat, n: int)
    requires size < HALF && ScanIndex(j, r, size, scanned, n)
    requires n == -1 ==> r == (scanned + 1) % size
    ensures ScanIndex(And(j + 1, ConstantTimeLt(j + 1, size)), r, size, scanned + 1, n + 1)
  {
    Wrapped(j, size);
    NextRemainder(scanned, size);
    hide And, ConstantTimeLt;
  }

  /** One turn of the scan. */
  method ScanByte(rotated: array<byte>, j: nat, b: byte, i: nat, macStart: nat, macEnd: nat,
                  ghost mac: seq<byte>, ghost r: nat, ghost scanned: nat)
    returns (j': nat)
    requires |mac| == macEnd - macStart && i < HALF && macStart < macEnd < HALF && |mac| < HALF
    requires j < rotated.Length == |mac| && ScanIndex(j, r, |mac|, scanned, i - macStart)
    requires Collected(rotated[..], mac, r, i - macStart)
    requires macStart <= i < macEnd ==> b == mac[i - macStart]
    requires i == macStart - 1 ==> r == (scanned + 1) % |mac|
    modifies rotated
    ensures j' < |mac| && ScanIndex(j', r, |mac|, scanned + 1, i + 1 - macStart)
    ensures Collected(rotated[..], mac, r, i + 1 - macStart)
  {
    hide And, Or, ConstantTimeGe, ConstantTimeLt, ScanIndex, Collected, Slot;
    var macStarted := ConstantTimeGe(i, macStart) % 256;
    var macEnded := ConstantTimeGe(i, macEnd) % 256;
    SmallWords(i, macStart);
    SmallWords(i, macEnd);
    Gate(b, macStarted, macEnded);
    ghost var mask := if macStart <= i < macEnd then 255 else 0;
    InsideSlot(j, r, |mac|, scanned, i - macStart);
    CollectOne(rotated[..], mac, r, i - macStart, j, b, mask);
    rotated[j] := Or(rotated[j], And(And(b, macStarted), 255 - macEnded));
    assert rotated[..] == old(rotated[..])[j := rotated[j]];
    ScanOne(j, r, |mac|, scanned, i - macStart);
    j' := And(j + 1, ConstantTimeLt(j + 1, rotated.Length));
    InsideBounds(j', r, |mac|, scanned + 1, i + 1 - macStart);
  }

  /** The scanning loop of ssl3_cbc_copy_mac. */
  method ScanMac(rec: Record, mdSize: nat, origLen: nat, scanStart: nat) returns (rotated: array<byte>)
    requires rec.Valid() && 0 < mdSize <= rec.length <= origLen < HALF
    requires rec.data + origLen <= rec.buffer.Length && scanStart <= rec.length - mdSize
    ensures fresh(rotated)
    ensures Collected(rotated[..], rec.Body()[rec.length - mdSize..], (rec.length - mdSize - scanStart) % mdSize, mdSize)
  {
    hide ScanIndex, Collected;
    var macEnd := rec.length;
    var macStart := macEnd - mdSize;
    ghost var mac := rec.Body()[macStart..];
    ghost var r: nat := (macStart - scanStart) % mdSize;
    rotated := new byte[mdSize](i => 0);
    var j: nat := 0;
    ScanBegin(rotated[..], mac, r, scanStart - macStart);
    for i := scanStart to origLen
      invariant ScanIndex(j, r, mdSize, i - scanStart, i - macStart) && j < mdSize == rotated.Length
      invariant Collected(rotated[..], mac, r, i - macStart)
    {
      j := ScanByte(rotated, j, rec.buffer[rec.data + i], i, macStart, macEnd, mac, r, i - scanStart);
    }
    CollectedAll(rotated[..], mac, r, origLen - macStart);
  }

  lemma ScanBegin(rotated: seq<byte>, mac: seq<byte>, r: nat, n: int)
    requires |rotated| == |mac| && r < |mac| && n <= 0 && (n == 0 ==> r == 0)
    requires forall i :: 0 <= i < |rotated| ==> rotated[i] == 0
    ensures ScanIndex(0, r, |mac|, 0, n) && Collected(rotated, mac, r, n)
  {
    ZeroRemainder(|mac|);
  }

  lemma InsideSlot(j: nat, r: nat, size: nat, scanned: nat, n: int)
    requires ScanIndex(j, r, size, scanned, n)
    ensures r < size && (0 <= n < size ==> j == Slot(r, n, size))
  {
  }

  lemma InsideBounds(j: nat, r: nat, size: nat, scanned: nat, n: int)
    requires ScanIndex(j, r, size, scanned, n)
    ensures j < size
  {
  }

  lemma CollectedAll(rotated: seq<byte>, mac: seq<byte>, r: nat, n: int)
    requires Collected(rotated, mac, r, n) && n >= |mac|
    ensures Collected(rotated, mac, r, |mac|)
  {
  }

  /** ssl3_cbc_copy_mac, after removal of at most 256 bytes of padding. */
  method CopyMac(out: array<byte>, rec: Record, mdSize: nat, origLen: nat)
    requires rec.Valid() && out != rec.buffer && 0 < mdSize <= 64 && mdSize <= out.Length
    requires mdSize <= rec.length <= origLen <= rec.length + 256 && origLen < HALF
    requires rec.data + origLen <= rec.buffer.Length
    modifies out
    ensures var mac := old(rec.Body())[rec.length - mdSize..]; var d := DivSpoiler(mdSize) % mdSize;
            && out[..mdSize] == mac[d..] + mac[..d]
            && (mdSize % 2 == 0 ==> out[..mdSize] == mac)
    ensures out[mdSize..] == old(out[mdSize..])
  {
    hide And, ConstantTimeLt, Collected, DivSpoiler;
    var macStart := rec.length - mdSize;
    var scanStart := 0;
    if origLen > mdSize + 255 + 1 {
      scanStart := origLen - (mdSize + 255 + 1);
    }
    var rotateOffset: nat := (DivSpoiler(mdSize) + macStart - scanStart) % mdSize;
    var rotated := ScanMac(rec, mdSize, origLen, scanStart);
    ghost var mac := rec.Body()[macStart..];
    SumOfRemainders(macStart - scanStart, DivSpoiler(mdSize), mdSize);
    CollectedSize(rotated[..], mac, (macStart - scanStart) % mdSize);
    Rotate(out, rotated, rotateOffset, mdSize);
    MacTurned(out[..mdSize], rotated[..], mac, (macStart - scanStart) % mdSize, DivSpoiler(mdSize) % mdSize);
    SpoilerHarmless(mdSize);
  }

  /** The rotating loop. */
  method Rotate(out: array<byte>, rotated: array<byte>, start: nat, mdSize: nat)
    requires out != rotated && rotated.Length == mdSize <= out.Length && start < mdSize < HALF
    modifies out
    ensures forall k :: 0 <= k < mdSize ==> out[k] == rotated[Slot(start, k, mdSize)]
    ensures out[mdSize..] == old(out[mdSize..])
  {
    hide And, ConstantTimeLt;
    var rotateOffset := start;
    for i := 0 to mdSize
      invariant rotateOffset == if i < mdSize then Slot(start, i, mdSize) else start
      invariant forall k :: 0 <= k < i ==> out[k] == rotated[Slot(start, k, mdSize)]
      invariant forall k :: mdSize <= k < out.Length ==> out[k] == old(out[k])
    {
      out[i] := rotated[rotateOffset];
      Wrapped(rotateOffset, mdSize);
      rotateOffset := And(rotateOffset + 1, ConstantTimeLt(rotateOffset + 1, mdSize));
    }
  }

  lemma MacTurned(out: seq<byte>, rotated: seq<byte>, mac: seq<byte>, r: nat, d: nat)
    requires Collected(rotated, mac, r, |mac|) && d < |mac| == |out|
    requires forall k :: 0 <= k < |mac| ==> out[k] == rotated[Slot(Slot(r, d, |mac|), k, |mac|)]
    ensures out == mac[d..] + mac[..d] && (d == 0 ==> out == mac)
  {
    forall k | 0 <= k < |mac| ensures out[k] == mac[Slot(d, k, |mac|)] {
      Unrotated(rotated, mac, r, d, k);
    }
    hide Collected;
    assert out == mac[d..] + mac[..d];
  }

  lemma CollectedSize(rotated: seq<byte>, mac: seq<byte>, r: nat)
    requires Collected(rotated, mac, r, |mac|)
    ensures |rotated| == |mac|
  {
  }

  lemma SumOfRemainders(a: nat, b: nat, size: nat)
    requires size > 0
    ensures (b + a) % size == Slot(a % size, b % size, size)
  {
    var q, s := a / size, b / size;
    assert a == q * size + a % size && b == s * size + b % size;
    assert (q + s) * size == q * size + s * size && (q + s + 1) * size == q * size + s * size + size;
    if a % size + b % size < size {
      HashBlocks.ModulusUnique(b + a, q + s, a % size + b % size, size);
    } else {
      HashBlocks.ModulusUnique(b + a, q + s + 1, a % size + b % size - size, size);
    }
  }

  lemma ZeroRemainder(size: nat)
    requires size > 0
    ensures 0 % size == 0
  {
  }

  /** b & mac_started & ~mac_ended */
  lemma Gate(b: nat, started: nat, ended: nat)
    requires b < 256 && (started == 255 || started == 0) && (ended == 255 || ended == 0)
    ensures And(And(b, started), 255 - ended) == And(b, if started == 255 && ended == 0 then 255 else 0)
  {
    Masked(b);
    Masked(255 - ended);
  }

  /** Padding off, then the MAC out of the record, for an even MAC size: what a branching implementation
      would read from the end of the unpadded record. */
  method StripAndExtract(rec: Record, eivLen: nat, macSize: nat, out: array<byte>) returns (r: int)
    requires rec.Valid() && out != rec.buffer && 0 < macSize <= 64 && macSize % 2 == 0 && macSize <= out.Length
    requires 1 + macSize + eivLen + 255 < HALF
    modifies rec, out
    ensures r == 0 <==> 1 + macSize + eivLen > old(rec.length)
    ensures r != 0 ==>
              var body := old(rec.Body())[eivLen..];
              var end := |body| - if ProperlyPadded(body, macSize) then Padding(body) else 0;
              && r == (if ProperlyPadded(body, macSize) then 1 else -1)
              && macSize <= end && out[..macSize] == body[end - macSize..end]
  {
    hide ProperlyPadded, DivSpoiler, Padding, FromEnd, Record.Body;
    ghost var whole := rec.Body();
    r := RemovePadding(rec, eivLen, macSize);
    if r != 0 {
      ghost var body, end := whole[eivLen..], rec.length;
      assert |body| == |whole| - eivLen > 0;
      PaddingHasRoom(body, macSize);
      ghost var kept := rec.Body();
      CopyMac(out, rec, macSize, rec.length + rec.paddingLength);
      TailOfPrefix(body, end, macSize);
    }
  }

  lemma TailOfPrefix(body: seq<byte>, end: nat, n: nat)
    requires n <= end <= |body|
    ensures body[..end][end - n..] == body[end - n..end]
  {
  }

  ghost predicate PaddingFits(body: seq<byte>, macSize: nat)
    requires body != []
  {
    ProperlyPadded(body, macSize) ==> macSize + Padding(body) <= |body| && Padding(body) <= 256
  }

  lemma PaddingHasRoom(body: seq<byte>, macSize: nat)
    requires body != []
    ensures PaddingFits(body, macSize)
  {
  }
}
