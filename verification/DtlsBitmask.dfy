/**
  The reassembly bitmask of a DTLS handshake message: one bit for each byte of the body received.
 */
module DtlsBitmask {
  import opened Bytes
  import opened Words

  const START_VALUES: seq<byte> := [0xff, 0xfe, 0xfc, 0xf8, 0xf0, 0xe0, 0xc0, 0x80]
  const END_VALUES: seq<byte> := [0xff, 0x01, 0x03, 0x07, 0x0f, 0x1f, 0x3f, 0x7f]

  /** RSMBLY_BITMASK_SIZE */
  function Size(msgLen: nat): nat { (msgLen + 7) / 8 }

  predicate Marked(mask: seq<byte>, i: nat)
    requires i < 8 * |mask|
  {
    Bit(mask[i / 8], i % 8)
  }

  lemma StartBits(s: nat, i: nat)
    requires s < 8 && i < 8
    ensures Bit(START_VALUES[s], i) <==> i >= s
  {
    PowersBelow();
    LowBits(s, i);
    NotBit(Pow2(s) - 1, 8, i);
  }

  lemma EndBits(e: nat, i: nat)
    requires e < 8 && i < 8
    ensures Bit(END_VALUES[e], i) <==> e == 0 || i < e
  {
    PowersBelow();
    LowBits(if e == 0 then 8 else e, i);
  }

  lemma PowersBelow()
    ensures Pow2(0) == 1 && Pow2(1) == 2 && Pow2(2) == 4 && Pow2(3) == 8 && Pow2(4) == 16 && Pow2(5) == 32
    ensures Pow2(6) == 64 && Pow2(7) == 128 && Pow2(8) == 256
  {
  }

  /** Exactly the bits `start` to `end` have been added. */
  ghost predicate MarkedMore(before: seq<byte>, after: seq<byte>, start: nat, end: nat) {
    && |after| == |before|
    && forall i :: 0 <= i < 8 * |before| ==> (Marked(after, i) <==> Marked(before, i) || start <= i < end)
  }

  /** bitmask[k] |= v */
  method OrInto(mask: array<byte>, k: nat, v: byte)
    requires k < mask.Length
    modifies mask
    ensures forall j :: 0 <= j < mask.Length && j != k ==> mask[j] == old(mask[j])
    ensures forall i :: 0 <= i < 8 ==> (Bit(mask[k], i) <==> Bit(old(mask[k]), i) || Bit(v, i))
  {
    hide Bit, Or;
    OrIsByte(mask[k], v);
    forall i | 0 <= i < 8 ensures Bit(Or(mask[k], v), i) <==> Bit(mask[k], i) || Bit(v, i) {
      OrBit(mask[k], v, i);
    }
    mask[k] := Or(mask[k], v);
  }

  /** 1 << k */
  function OneBit(k: nat): byte
    requires k < 8
  {
    PowersBelow();
    Pow2(k)
  }

  lemma OneBitOnly(k: nat, i: nat)
    requires k < 8 && i < 8
    ensures Bit(OneBit(k), i) <==> i == k
  {
    PowerBit(k, i);
  }

  lemma {:induction false} PowerBit(k: nat, i: nat)
    ensures Bit(Pow2(k), i) <==> i == k
  {
    if k == 0 {
      if i > 0 { ZeroBit(i - 1); }
    } else if i > 0 {
      PowerBit(k - 1, i - 1);
    }
  }

  /** RSMBLY_BITMASK_MARK */
  method Mark(mask: array<byte>, start: nat, end: nat)
    requires start <= end <= 8 * mask.Length
    modifies mask
    ensures MarkedMore(old(mask[..]), mask[..], start, end)
  {
    if end - start <= 8 {
      MarkFew(mask, start, end);
    } else {
      MarkMany(mask, start, end);
    }
  }

  method MarkFew(mask: array<byte>, start: nat, end: nat)
    requires start <= end <= 8 * mask.Length
    modifies mask
    ensures MarkedMore(old(mask[..]), mask[..], start, end)
  {
    hide Bit, OneBit;
    for ii := start to end
      invariant MarkedMore(old(mask[..]), mask[..], start, ii)
    {
      ghost var before := mask[..];
      OrInto(mask, ii / 8, OneBit(ii % 8));
      forall i | 0 <= i < 8 * |before| ensures Marked(mask[..], i) <==> Marked(before, i) || i == ii {
        OneBitOnly(ii % 8, i % 8);
      }
    }
  }

  method MarkMany(mask: array<byte>, start: nat, end: nat)
    requires start + 8 < end <= 8 * mask.Length
    modifies mask
    ensures MarkedMore(old(mask[..]), mask[..], start, end)
  {
    hide Bit;
    var a, b := start / 8, (end - 1) / 8;
    OrInto(mask, a, START_VALUES[start % 8]);
    for ii := a + 1 to b
      invariant forall j :: 0 <= j < mask.Length && j != a && !(a < j < ii) ==> mask[j] == old(mask[j])
      invariant forall j :: a < j < ii ==> mask[j] == 0xff
      invariant forall i :: 0 <= i < 8 ==> (Bit(mask[a], i) <==> Bit(old(mask[a]), i) || Bit(START_VALUES[start % 8], i))
    {
      mask[ii] := 0xff;
    }
    OrInto(mask, b, END_VALUES[end % 8]);
    forall i | 0 <= i < 8 * mask.Length
      ensures Marked(mask[..], i) <==> Marked(old(mask[..]), i) || start <= i < end
    {
      StartBits(start % 8, i % 8);
      EndBits(end % 8, i % 8);
      EndBits(0, i % 8);
    }
  }

  /** No bit beyond the message is set. */
  ghost predicate Clean(mask: seq<byte>, msgLen: nat) {
    && |mask| == Size(msgLen)
    && forall i :: msgLen <= i < 8 * |mask| ==> !Marked(mask, i)
  }

  ghost predicate AllMarked(mask: seq<byte>, msgLen: nat)
    requires msgLen <= 8 * |mask|
  {
    forall i :: 0 <= i < msgLen ==> Marked(mask, i)
  }

  /** A whole byte of the mask in terms of bits. */
  lemma FullByte(mask: seq<byte>, k: nat, msgLen: nat)
    requires Clean(mask, msgLen) && k < |mask| && msgLen > 0
    ensures var want := if k == (msgLen - 1) / 8 then END_VALUES[msgLen % 8] else 0xff;
            mask[k] == want <==> forall i :: 8 * k <= i < 8 * k + 8 && i < msgLen ==> Marked(mask, i)
  {
    var want := if k == (msgLen - 1) / 8 then END_VALUES[msgLen % 8] else 0xff;
    PowersBelow();
    hide Bit;
    forall i | 0 <= i < 8 ensures Bit(want, i) <==> 8 * k + i < msgLen {
      EndBits(msgLen % 8, i);
      EndBits(0, i);
    }
    if forall i :: 8 * k <= i < 8 * k + 8 && i < msgLen ==> Marked(mask, i) {
      forall i | 0 <= i < 8 ensures Bit(mask[k], i) <==> Bit(want, i) {
        assert Marked(mask, 8 * k + i) <==> Bit(mask[k], i);
      }
      SameBits(mask[k], want, 8);
    } else {
      var i :| 8 * k <= i < 8 * k + 8 && i < msgLen && !Marked(mask, i);
      assert i % 8 == i - 8 * k && i / 8 == k;
      assert Bit(want, i - 8 * k);
    }
  }

  /** RSMBLY_BITMASK_IS_COMPLETE */
  method IsComplete(mask: array<byte>, msgLen: nat) returns (isComplete: bool)
    requires msgLen > 0 && Clean(mask[..], msgLen)
    ensures isComplete <==> AllMarked(mask[..], msgLen)
  {
    hide Bit;
    isComplete := true;
    var last := (msgLen - 1) / 8;
    FullByte(mask[..], last, msgLen);
    if mask[last] != END_VALUES[msgLen % 8] {
      isComplete := false;
    }
    if isComplete {
      var ii := last - 1;
      while ii >= 0
        invariant -1 <= ii < last
        invariant forall i :: 8 * (ii + 1) <= i < msgLen ==> Marked(mask[..], i)
      {
        FullByte(mask[..], ii, msgLen);
        if mask[ii] != 0xff {
          isComplete := false;
          break;
        }
        ii := ii - 1;
      }
    }
  }

  /** Marking inside the message keeps the mask clean. */
  lemma MarkClean(before: seq<byte>, after: seq<byte>, start: nat, end: nat, msgLen: nat)
    requires Clean(before, msgLen) && MarkedMore(before, after, start, end) && end <= msgLen
    ensures Clean(after, msgLen)
  {
  }
}
