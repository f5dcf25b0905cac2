/**
  CBS: a byte string consumed from the front.  The functions describe what each reader accepts; the
  class holds the moving cursor and its methods refine them, including what a failed read has already
  consumed.
 */
module Cbs {
  import opened Bytes

  const ASN1_INTEGER := 0x02

  /** Bit 6 of an identifier octet. */
  predicate Constructed(tag: byte) { tag / 32 % 2 == 1 }

  // ----- What is accepted -----

  /** One element: identifier octet, size of the header, header and contents together, what follows. */
  datatype Element = Element(tag: byte, headerLen: nat, bytes: seq<byte>, rest: seq<byte>)
  {
    function Contents(): seq<byte> requires headerLen <= |bytes| { bytes[headerLen..] }
  }

  function Take(s: seq<byte>, n: nat, tag: byte, headerLen: nat): Option<Element> {
    if |s| < n then None else Some(Element(tag, headerLen, s[..n], s[n..]))
  }

  /** cbs_get_any_asn1_element_internal.  Long form must be minimal; indefinite form is accepted only
      when not strict and on a constructed tag, and then only the header is taken. */
  function AnyElement(s: seq<byte>, strict: bool): (r: Option<Element>)
    ensures r.Some? ==>
              && 2 <= r.value.headerLen <= |r.value.bytes|
              && s == r.value.bytes + r.value.rest
              && r.value.tag == s[0] && r.value.tag % 32 != 31
  {
    if |s| < 2 then None
    else
      var tag, lengthByte := s[0], s[1];
      if tag % 32 == 31 then None
      else if lengthByte < 0x80 then Take(s, lengthByte + 2, tag, 2)
      else
        var numBytes: nat := lengthByte - 0x80;
        if numBytes == 0x7f then None
        else if numBytes == 0 then
          if strict || !Constructed(tag) then None else Take(s, 2, tag, 2)
        else if numBytes > 4 || |s| < 2 + numBytes then None
        else
          var len := Value(s[2..2 + numBytes]);
          if len < 128 || s[2] == 0 then None
          else Take(s, len + 2 + numBytes, tag, 2 + numBytes)
  }

  /** The value of an INTEGER's contents, if they are a minimal non-negative 64-bit number. */
  function Uint64Contents(c: seq<byte>): Option<nat> {
    if c == [] || c[0] >= 0x80 then None
    else if c[0] == 0 && |c| > 1 && c[1] < 0x80 then None
    else if Value(c) >= Pow256(8) then None
    else Some(Value(c))
  }

  // ----- The cursor -----

  class Cbs {
    var data: seq<byte>

    constructor (bytes: seq<byte>)
      ensures data == bytes
    {
      data := bytes;
    }

    /** cbs_get. */
    method Get(n: nat) returns (ok: bool, p: seq<byte>)
      modifies this
      ensures ok == (n <= |old(data)|)
      ensures if ok then |p| == n && old(data) == p + data else data == old(data)
    {
      p := [];
      if |data| < n {
        return false, p;
      }
      p, data := data[..n], data[n..];
      ok := true;
    }

    /** cbs_get_u: a big-endian number of one to four bytes. */
    method GetU(len: nat) returns (ok: bool, out: nat)
      modifies this
      ensures ok == (1 <= len <= 4 && len <= |old(data)|)
      ensures if ok then out == Value(old(data)[..len]) && data == old(data)[len..] else data == old(data)
    {
      out := 0;
      if len < 1 || len > 4 {
        return false, out;
      }
      var p;
      ok, p := Get(len);
      if !ok {
        return;
      }
      for i := 0 to len
        invariant out == Value(p[..i])
      {
        var b: nat := p[i];
        out := out * 256 + b;
        assert p[..i + 1][..i] == p[..i];
      }
      assert p[..len] == p == old(data)[..len];
    }

    /** cbs_get_length_prefixed: the prefix stays consumed when the contents are missing. */
    method GetLengthPrefixed(lenLen: nat) returns (ok: bool, out: seq<byte>)
      modifies this
      ensures ok ==> 1 <= lenLen <= 4 && lenLen + |out| <= |old(data)|
                     && Value(old(data)[..lenLen]) == |out| && old(data) == old(data)[..lenLen] + out + data
      ensures 1 <= lenLen <= 4 && lenLen <= |old(data)| && lenLen + Value(old(data)[..lenLen]) <= |old(data)| ==> ok
      ensures !ok ==> data == old(data) || (lenLen <= |old(data)| && data == old(data)[lenLen..])
    {
      var len;
      ok, len := GetU(lenLen);
      out := [];
      if ok {
        ok, out := Get(len);
      }
    }

    /** cbs_get_any_asn1_element_internal: a failed read leaves the cursor where it was. */
    method GetAnyAsn1Element(strict: bool) returns (ok: bool, e: Element)
      modifies this
      ensures AnyElement(old(data), strict) == if ok then Some(e) else None
      ensures data == if ok then e.rest else old(data)
    {
      e := Element(0, 0, [], []);
      var header := new Cbs(data);
      var tag, lengthByte, out;
      var whole := data;
      ok, out := header.Get(1);
      if !ok {
        return;
      }
      tag := out[0];
      ok, out := header.Get(1);
      if !ok {
        return;
      }
      lengthByte := out[0];
      assert tag == whole[0] && lengthByte == whole[1] && header.data == whole[2..];
      if tag % 32 == 31 {
        return false, e;
      }
      var len: nat, headerLen := lengthByte as int + 2, 2;
      if lengthByte >= 0x80 {
        var numBytes: nat := lengthByte - 0x80;
        if numBytes == 0x7f {
          return false, e;
        }
        if numBytes == 0 {
          if strict || !Constructed(tag) {
            return false, e;
          }
          len := 2;
        } else {
          if numBytes > 4 {
            return false, e;
          }
          var len32;
          ok, len32 := header.GetU(numBytes);
          if !ok {
            return;
          }
          assert whole[2..][..numBytes] == whole[2..2 + numBytes];
          if len32 < 128 {
            return false, e;
          }
          LeadingByte(whole[2..2 + numBytes]);
          if len32 / Pow256(numBytes - 1) == 0 {
            return false, e;
          }
          len, headerLen := len32 + 2 + numBytes, 2 + numBytes;
        }
      }
      ok, out := Get(len);
      if ok {
        e := Element(tag, headerLen, out, data);
      }
    }

    /** CBS_get_asn1: the contents of the next element if it has the tag asked for.  An element with
        another tag is consumed all the same. */
    method GetAsn1(tagValue: byte) returns (ok: bool, contents: seq<byte>)
      modifies this
      ensures var e := AnyElement(old(data), true);
              && ok == (e.Some? && e.value.tag == tagValue)
              && (ok ==> contents == e.value.Contents())
              && data == if e.Some? then e.value.rest else old(data)
    {
      var e;
      contents := [];
      ok, e := GetAnyAsn1Element(true);
      if !ok || e.tag != tagValue {
        return false, contents;
      }
      contents := e.Contents();
    }

    /** CBS_get_asn1_uint64. */
    method GetAsn1Uint64() returns (ok: bool, out: nat)
      modifies this
      ensures var e := AnyElement(old(data), true);
              && (ok ==> e.Some? && e.value.tag == 0x02 && Uint64Contents(e.value.Contents()) == Some(out))
              && (!ok ==> e.None? || e.value.tag != 0x02 || Uint64Contents(e.value.Contents()).None?)
              && data == if e.Some? then e.value.rest else old(data)
    {
      var bytes;
      out := 0;
      ok, bytes := GetAsn1(ASN1_INTEGER);
      if !ok {
        return;
      }
      if |bytes| == 0 || bytes[0] >= 0x80 {
        return false, out;
      }
      if bytes[0] == 0 && |bytes| > 1 && bytes[1] < 0x80 {
        return false, out;
      }
      ghost var after := data;
      assert Pow256(7) == 0x100_0000_0000_0000 && Pow256(8) == 0x1_0000_0000_0000_0000;
      for i := 0 to |bytes|
        invariant out == Value(bytes[..i]) < Pow256(8)
        invariant data == after
      {
        ValuePrefix(bytes, i);
        if out >= Pow256(7) {
          TooLarge(bytes, i);
          return false, out;
        }
        var b: nat := bytes[i];
        out := out * 256 + b;
      }
      assert bytes[..|bytes|] == bytes;
    }
  }

  // ----- Arithmetic -----

  /** Shifting out all bytes but the first leaves nothing exactly when the first is zero. */
  lemma LeadingByte(s: seq<byte>)
    requires s != []
    ensures Value(s) / Pow256(|s| - 1) == 0 <==> s[0] == 0
  {
    ValueLead(s);
    BigEndianOfValue(s[1..]);
    LeadingDigit(s[0], Pow256(|s| - 1), Value(s[1..]));
  }

  lemma LeadingDigit(d: nat, p: nat, r: nat)
    requires r < p
    ensures (d * p + r) / p == 0 <==> d == 0
  {
    if d == 0 {
      QuotientZero(r, p);
    } else {
      assert d * p >= p;
      QuotientZero(d * p + r, p);
    }
  }

  lemma QuotientZero(v: nat, p: nat)
    requires p > 0
    ensures v / p == 0 <==> v < p
  {
  }

  lemma ValuePrefix(s: seq<byte>, i: nat)
    requires i < |s|
    ensures var b: nat := s[i]; Value(s[..i + 1]) == 256 * Value(s[..i]) + b
  {
    assert s[..i + 1][..i] == s[..i];
  }

  lemma {:induction false} ValueGrows(s: seq<byte>, i: nat)
    requires i <= |s|
    ensures Value(s[..i]) <= Value(s)
    decreases |s|
  {
    if i < |s| {
      ValueGrows(s[..|s| - 1], i);
      assert s[..|s| - 1][..i] == s[..i];
    } else {
      assert s[..i] == s;
    }
  }

  lemma TooLarge(s: seq<byte>, i: nat)
    requires i < |s| && Value(s[..i]) >= Pow256(7)
    ensures Value(s) >= Pow256(8)
  {
    ValuePrefix(s, i);
    ValueGrows(s, i + 1);
    assert Pow256(8) == 256 * Pow256(7);
  }
}
