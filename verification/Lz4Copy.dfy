/**
  The decoder's match copy: up to eight bytes placed with the help of two small tables, then eight bytes
  at a time from a distance that no longer overlaps, past the end of the match.  It leaves what the
  byte-by-byte copy leaves.
 */
module Lz4Copy {
  import opened Lz4Format
  import opened Lz4Emit

  const INC32TABLE: seq<nat> := [0, 1, 2, 1, 0, 4, 4, 4]
  const DEC64TABLE: seq<int> := [0, 0, 0, -1, -4, 1, 2, 3]

  /** The distance between cursor and source once eight bytes are placed. */
  function WideDistance(offset: nat): (d: nat)
    ensures 8 <= d <= 8 + offset
    ensures offset >= 8 ==> d == offset
    ensures offset < 8 ==> d == 8 + offset - INC32TABLE[offset] + DEC64TABLE[offset]
  {
    if offset >= 8 then offset
    else
      assert offset in {0, 1, 2, 3, 4, 5, 6, 7};
      8 + offset - INC32TABLE[offset] + DEC64TABLE[offset]
  }

  /** A non-overlapping memcpy inside the buffer. */
  method Memcpy(buf: array<byte>, d: nat, s: nat, n: nat)
    requires s + n <= d && d + n <= buf.Length
    modifies buf
    ensures forall k :: 0 <= k < buf.Length ==> buf[k] == if d <= k < d + n then old(buf[k - d + s]) else old(buf[k])
  {
    forall k | d <= k < d + n {
      buf[k] := buf[k - d + s];
    }
  }

  /** LZ4_wildCopy8 inside the output buffer, from at least eight bytes back. */
  method WildCopyBack(buf: array<byte>, d0: nat, s0: nat, e: nat)
    requires s0 + 8 <= d0 <= e && d0 + WildSpan(e - d0) <= buf.Length
    modifies buf
    ensures forall k :: 0 <= k < buf.Length && !(d0 <= k < d0 + WildSpan(e - d0)) ==> buf[k] == old(buf[k])
    ensures forall k :: d0 <= k < d0 + WildSpan(e - d0) ==> buf[k] == buf[k - (d0 - s0)]
  {
    var d, s := d0, s0;
    ghost var span := WildSpan(e - d0);
    while true
      invariant d0 <= d && d - d0 == s - s0
      invariant (d - d0) % 8 == 0 && d + 8 <= d0 + span
      invariant forall k :: 0 <= k < buf.Length && !(d0 <= k < d) ==> buf[k] == old(buf[k])
      invariant forall k :: d0 <= k < d ==> buf[k] == buf[k - (d0 - s0)]
      decreases d0 + span - d
    {
      Memcpy(buf, d, s, 8);
      d, s := d + 8, s + 8;
      assert forall k :: d0 <= k < d ==> buf[k] == buf[k - (d0 - s0)];
      if d >= e {
        break;
      }
    }
  }

  /** Four bytes one by one, each read after the previous one is written. */
  method FirstFour(buf: array<byte>, op: nat, m: nat)
    requires m <= op && op + 8 <= buf.Length
    modifies buf
    ensures forall k :: 0 <= k < buf.Length && !(op <= k < op + 4) ==> buf[k] == old(buf[k])
    ensures forall k :: op <= k < op + 4 ==> buf[k] == if m == op then 0 else buf[k - (op - m)]
  {
    buf[op], buf[op + 1], buf[op + 2], buf[op + 3] := 0, 0, 0, 0;
    buf[op] := buf[m];
    buf[op + 1] := buf[m + 1];
    buf[op + 2] := buf[m + 2];
    buf[op + 3] := buf[m + 3];
  }

  /** Why the first table is right: for each small offset the next four bytes are a period away. */
  lemma NextFour(s: seq<byte>, op: nat, offset: nat)
    requires offset < 8 && offset <= op && op + 8 <= |s|
    requires forall k :: op <= k < op + 4 ==> s[k] == if offset == 0 then 0 else s[k - offset]
    requires forall k :: op + 4 <= k < op + 8 ==> s[k] == s[k - 4 - offset + INC32TABLE[offset]]
    ensures forall k :: op <= k < op + 8 ==> s[k] == if offset == 0 then 0 else s[k - offset]
  {
    if offset == 0 {
      assert s[op + 4] == s[op] && s[op + 5] == s[op + 1] && s[op + 6] == s[op + 2] && s[op + 7] == s[op + 3];
    } else if offset >= 5 {
      assert offset in {5, 6, 7} && INC32TABLE[offset] == 4;
    } else if offset == 4 {
      assert s[op + 4] == s[op - 4] && s[op + 5] == s[op - 3] && s[op + 6] == s[op - 2] && s[op + 7] == s[op - 1];
    } else if offset == 3 {
      assert s[op + 4] == s[op - 2] && s[op + 5] == s[op - 1] && s[op + 6] == s[op] && s[op + 7] == s[op + 1];
    } else {
      assert s[op + 4] == s[op] && s[op + 5] == s[op + 1] && s[op + 6] == s[op + 2] && s[op + 7] == s[op + 3];
    }
  }

  /** Eight bytes of a match at any offset; `m` is then where to go on copying from. */
  method FirstEight(buf: array<byte>, op: nat, offset: nat) returns (m: nat)
    requires offset <= op && op + 8 <= buf.Length
    modifies buf
    ensures m == op + 8 - WideDistance(offset)
    ensures forall k :: 0 <= k < buf.Length && !(op <= k < op + 8) ==> buf[k] == old(buf[k])
    ensures forall k :: op <= k < op + 8 ==> buf[k] == if offset == 0 then 0 else buf[k - offset]
  {
    m := op - offset;
    if offset < 8 {
      FirstFour(buf, op, m);
      m := m + INC32TABLE[offset];
      Memcpy(buf, op + 4, m, 4);
      NextFour(buf[..], op, offset);
      m := m - DEC64TABLE[offset];
    } else {
      Memcpy(buf, op, m, 8);
      m := m + 8;
    }
  }

  // ----- Periods -----

  /** Period `p` implies period `c * p`, as long as one stays inside the window. */
  lemma {:induction false} PeriodMultiple(s: seq<byte>, from: nat, to: nat, p: nat, c: nat, i: nat)
    requires 1 <= p && from + c * p <= i < to <= |s|
    requires forall k :: from + p <= k < to ==> s[k] == s[k - p]
    ensures s[i] == s[i - c * p]
    decreases c
  {
    if c > 0 {
      assert (c - 1) * p == c * p - p;
      PeriodMultiple(s, from, to, p, c - 1, i);
      assert i - (c - 1) * p >= from + p;
    }
  }

  /** `WideDistance` is a multiple of the offset. */
  function Repeats(offset: nat): (c: nat)
    requires offset >= 1
    ensures c * offset == WideDistance(offset) && c >= 1
  {
    if offset >= 8 then 1
    else if offset == 1 then 8
    else if offset == 2 then 4
    else if offset == 3 then 3
    else 2
  }

  /** Eight bytes at the offset and the rest at the wide distance: everything is at the offset. */
  lemma {:induction false} WideIsOffset(s: seq<byte>, op: nat, offset: nat, e: nat)
    requires 1 <= offset <= op && op <= e <= |s|
    requires forall k :: op <= k < op + 8 && k < e ==> s[k] == s[k - offset]
    requires forall k :: op + 8 <= k < e ==> s[k] == s[k - WideDistance(offset)]
    ensures forall k :: op <= k < e ==> s[k] == s[k - offset]
    decreases e
  {
    if e > op + 8 {
      var k := e - 1;
      WideIsOffset(s, op, offset, k);
      var c := Repeats(offset);
      assert (c - 1) * offset == WideDistance(offset) - offset;
      PeriodMultiple(s, op - offset, k, offset, c - 1, k - offset);
    }
  }

  lemma {:induction false} WideZeros(s: seq<byte>, op: nat, e: nat)
    requires op <= e <= |s|
    requires forall k :: op <= k < op + 8 && k < e ==> s[k] == 0
    requires forall k :: op + 8 <= k < e ==> s[k] == s[k - 8]
    ensures forall k :: op <= k < e ==> s[k] == 0
    decreases e
  {
    if e > op + 8 {
      WideZeros(s, op, e - 1);
      assert s[e - 1] == s[e - 1 - 8] == 0;
    }
  }

  /** The bytes after a wide copy are those of the byte-by-byte copy. */
  lemma WideCopyIsMatch(s: seq<byte>, op: nat, offset: nat, length: nat)
    requires offset <= op && op + length <= |s|
    requires forall k :: op <= k < op + 8 && k < op + length ==> s[k] == if offset == 0 then 0 else s[k - offset]
    requires forall k :: op + 8 <= k < op + length ==> s[k] == s[k - WideDistance(offset)]
    ensures s[..op + length] == CopyMatch(s[..op], offset, length)
  {
    if offset == 0 {
      WideZeros(s, op, op + length);
      CopyMatchZeroShape(s[..op], length);
    } else {
      WideIsOffset(s, op, offset, op + length);
      CopyMatchUnique(s[..op], offset, length, s[..op + length]);
    }
  }

  // ----- The copy -----

  /** From the offset test to the end of the loop body: an overlapping match, copied eight bytes at a
      time.  Fails exactly when the match enters the last five bytes of the buffer. */
  method CopyWide(buf: array<byte>, op0: nat, offset: nat, length: nat, oend: nat) returns (ok: bool)
    requires offset <= op0 && op0 + MFLIMIT <= oend <= buf.Length && MINMATCH <= length
    modifies buf
    ensures ok == (op0 + length <= oend - LASTLITERALS)
    ensures buf[..op0] == old(buf[..op0]) && buf[oend..] == old(buf[oend..])
    ensures ok ==> buf[..op0 + length] == CopyMatch(old(buf[..op0]), offset, length)
  {
    var cpy := op0 + length;
    var m := FirstEight(buf, op0, offset);
    var op := op0 + 8;
    if cpy > oend - MFLIMIT {
      var oCopyLimit := oend - 7;
      if cpy > oend - LASTLITERALS {
        return false;
      }
      if op < oCopyLimit {
        WildCopyBack(buf, op, m, oCopyLimit);
        m := m + oCopyLimit - op;
        op := oCopyLimit;
      }
      CopyTail(buf, op0, op, m, cpy, offset);
    } else {
      Memcpy(buf, op, m, 8);
      if length > 16 {
        WildCopyBack(buf, op + 8, m + 8, cpy);
      }
    }
    assert buf[..op0] == old(buf[..op0]);
    WideCopyIsMatch(buf[..], op0, offset, length);
    assert buf[..][..cpy] == buf[..cpy] && buf[..][..op0] == buf[..op0];
    ok := true;
  }

  /** The last bytes one by one. */
  method CopyTail(buf: array<byte>, ghost op0: nat, from: nat, m0: nat, cpy: nat, ghost offset: nat)
    requires op0 + 8 <= from && from - m0 == WideDistance(offset) <= op0 + 8 && from <= buf.Length && cpy <= buf.Length
    requires forall k :: op0 + 8 <= k < from ==> buf[k] == buf[k - WideDistance(offset)]
    modifies buf
    ensures forall k :: 0 <= k < buf.Length && !(from <= k < cpy) ==> buf[k] == old(buf[k])
    ensures forall k :: op0 + 8 <= k < cpy ==> buf[k] == buf[k - WideDistance(offset)]
  {
    var op, m := from, m0;
    while op < cpy
      invariant from <= op <= buf.Length && op - m == WideDistance(offset)
      invariant from <= cpy ==> op <= cpy
      invariant forall k :: 0 <= k < buf.Length && !(from <= k < cpy) ==> buf[k] == old(buf[k])
      invariant forall k :: op0 + 8 <= k < op ==> buf[k] == buf[k - WideDistance(offset)]
    {
      buf[op] := buf[m];
      op, m := op + 1, m + 1;
    }
  }
}
