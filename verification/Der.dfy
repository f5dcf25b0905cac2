/**
  The encodings the builder is meant to produce: definite lengths in the fewest octets, and minimal
  INTEGER contents.  The strict reader accepts these and nothing else.
 */
module Der {
  import opened Bytes
  import opened Cbs

  const MAX_CONTENTS := 0xffff_fffe      // a length of 0xffffffff is reserved by the builder

  /** Octets after the first of a length, 0 for the short form. */
  function LengthOctets(n: nat): nat {
    if n > 0xff_ffff then 4 else if n > 0xffff then 3 else if n > 0xff then 2 else if n > 0x7f then 1 else 0
  }

  function DerLength(n: nat): (r: seq<byte>)
    requires n <= MAX_CONTENTS
    ensures |r| == 1 + LengthOctets(n)
  {
    var k := LengthOctets(n);
    if k == 0 then [n] else [0x80 + k] + BigEndian(n, k)
  }

  function Tlv(tag: byte, contents: seq<byte>): (r: seq<byte>)
    requires |contents| <= MAX_CONTENTS
    ensures |r| == 2 + LengthOctets(|contents|) + |contents|
  {
    [tag] + DerLength(|contents|) + contents
  }

  lemma Powers()
    ensures Pow256(0) == 1 && Pow256(1) == 0x100 && Pow256(2) == 0x1_0000 && Pow256(3) == 0x100_0000 && Pow256(4) == 0x1_0000_0000
  {
  }

  /** The length octets of a long form, read back; and the first of them is not zero. */
  lemma LongForm(n: nat)
    requires 0x80 <= n <= MAX_CONTENTS
    ensures var k := LengthOctets(n);
            1 <= k <= 4 && Value(BigEndian(n, k)) == n && BigEndian(n, k)[0] != 0
  {
    Powers();
    var k := LengthOctets(n);
    ValueOfBigEndian(n, k);
    var s := BigEndian(n, k);
    if s[0] == 0 {
      ValueLead(s);
      BigEndianOfValue(s[1..]);
    }
  }

  /** What the builder writes, the reader reads: same tag, same contents, strict or not. */
  lemma ParseDer(tag: byte, contents: seq<byte>, rest: seq<byte>, strict: bool)
    requires tag % 32 != 31 && |contents| <= MAX_CONTENTS
    ensures var n := 2 + LengthOctets(|contents|);
            var e := Element(tag, n, Tlv(tag, contents), rest);
            AnyElement(Tlv(tag, contents) + rest, strict) == Some(e) && e.Contents() == contents
  {
    hide Tlv, DerLength, BigEndian, Value;
    TlvBytes(tag, contents, rest);
    if |contents| >= 0x80 {
      LongForm(|contents|);
    }
  }

  /** Where the parts of an element stand. */
  lemma TlvBytes(tag: byte, contents: seq<byte>, rest: seq<byte>)
    requires |contents| <= MAX_CONTENTS
    ensures var d, k := Tlv(tag, contents), LengthOctets(|contents|);
            var s := d + rest;
            && s[0] == tag && s[1] == (if k == 0 then |contents| else 0x80 + k)
            && s[..|d|] == d && s[|d|..] == rest && d[2 + k..] == contents
            && (k > 0 ==> s[2..2 + k] == BigEndian(|contents|, k) && s[2] == BigEndian(|contents|, k)[0])
  {
    hide BigEndian;
    var d, k := Tlv(tag, contents), LengthOctets(|contents|);
    assert d[2 + k..] == contents;
    if k > 0 {
      var octets := BigEndian(|contents|, k);
      assert d == [tag, 0x80 + k] + octets + contents;
      assert (d + rest)[2..2 + k] == octets;
      assert (d + rest)[2] == octets[0];
    }
  }

  /** Whatever the strict reader accepts is the shortest encoding of what it returns. */
  lemma StrictIsDer(s: seq<byte>)
    requires AnyElement(s, true).Some?
    requires |AnyElement(s, true).value.Contents()| <= MAX_CONTENTS
    ensures var e := AnyElement(s, true).value; e.bytes == Tlv(e.tag, e.Contents())
  {
    hide Value, BigEndian;
    var e := AnyElement(s, true).value;
    var contents := e.Contents();
    assert e.bytes == s[..|e.bytes|];
    if s[1] < 0x80 {
      assert e.bytes == [s[0], s[1]] + contents;
    } else {
      var k := s[1] - 0x80;
      var length := s[2..2 + k];
      assert Value(length) == |contents|;
      LongFormUnique(length);
      BigEndianOfValue(length);
      assert [s[0]] + [s[1]] + length == s[..2 + k];
      assert e.bytes == s[..2 + k] + contents;
    }
  }

  lemma LongFormUnique(s: seq<byte>)
    requires 1 <= |s| <= 4 && s[0] != 0 && 0x80 <= Value(s) <= MAX_CONTENTS
    ensures LengthOctets(Value(s)) == |s|
  {
    Powers();
    ValueLead(s);
    BigEndianOfValue(s);
    hide Value, BigEndian;
    var p := Pow256(|s| - 1);
    Times(s[0], p);
  }

  lemma Times(a: nat, p: nat)
    requires a >= 1
    ensures a * p >= p
  {
  }

  // ----- Integers -----

  function Magnitude(v: nat): seq<byte> {
    if v == 0 then [] else Magnitude(v / 256) + [v % 256]
  }

  /** Contents of the INTEGER for `v`: no redundant leading octet, top bit clear. */
  function IntegerContents(v: nat): seq<byte> {
    if v == 0 then [0]
    else if Magnitude(v) != [] && Magnitude(v)[0] >= 0x80 then [0] + Magnitude(v)
    else Magnitude(v)
  }

  lemma {:induction false} MagnitudeValue(v: nat)
    ensures Value(Magnitude(v)) == v && (v > 0 ==> Magnitude(v) != [] && Magnitude(v)[0] != 0)
    decreases v
  {
    if v > 0 {
      MagnitudeValue(v / 256);
      assert Magnitude(v)[..|Magnitude(v)| - 1] == Magnitude(v / 256);
    }
  }

  lemma {:induction false} MagnitudeUnique(s: seq<byte>)
    requires s == [] || s[0] != 0
    ensures Magnitude(Value(s)) == s
    decreases |s|
  {
    if s != [] {
      var init, low: nat := s[..|s| - 1], s[|s| - 1];
      MagnitudeUnique(init);
      LeadPositive(s);
      assert s == init + [low];
      assert Value(s) == 256 * Value(init) + low;
      hide Value;
    }
  }

  lemma {:induction false} LeadPositive(s: seq<byte>)
    requires s != [] && s[0] != 0
    ensures Value(s) > 0
    decreases |s|
  {
    if |s| > 1 {
      LeadPositive(s[..|s| - 1]);
    }
  }

  lemma ValueOfZeroPrefix(s: seq<byte>)
    ensures Value([0] + s) == Value(s)
  {
    assert ([0] + s)[1..] == s;
    ValueLead([0] + s);
  }

  /** Every 64-bit value is read back from its contents. */
  lemma ReadInteger(v: nat)
    requires v < Pow256(8)
    ensures Uint64Contents(IntegerContents(v)) == Some(v)
  {
    MagnitudeValue(v);
    ValueOfZeroPrefix(Magnitude(v));
    ValueOfZeroPrefix([]);
    assert [0] + [] == [0];
  }

  /** Only that encoding is accepted: decoding is injective. */
  lemma IntegerCanonical(c: seq<byte>)
    requires Uint64Contents(c).Some?
    ensures c == IntegerContents(Uint64Contents(c).value)
  {
    if c[0] == 0 {
      assert c == [0] + c[1..];
      ValueOfZeroPrefix(c[1..]);
      MagnitudeUnique(c[1..]);
    } else {
      MagnitudeUnique(c);
    }
  }

  function EncodeUint64(v: nat): seq<byte>
    requires v < Pow256(8)
  {
    IntegerSize(v);
    Tlv(0x02, IntegerContents(v))
  }

  lemma IntegerSize(v: nat)
    requires v < Pow256(8)
    ensures 1 <= |IntegerContents(v)| <= 9
  {
    MagnitudeSize(v, 8);
    MagnitudeValue(v);
  }

  lemma {:induction false} MagnitudeSize(v: nat, n: nat)
    requires v < Pow256(n)
    ensures |Magnitude(v)| <= n
    decreases n
  {
    if v > 0 && n > 0 {
      MagnitudeSize(v / 256, n - 1);
    }
  }

  /** Canonical integers: the reader accepts an element as `v` exactly when it is the one the builder
      writes for `v`. */
  lemma CanonicalUint64(s: seq<byte>, v: nat)
    requires v < Pow256(8)
    ensures (AnyElement(s, true).Some? && AnyElement(s, true).value.tag == 0x02
             && Uint64Contents(AnyElement(s, true).value.Contents()) == Some(v))
            <==> EncodeUint64(v) <= s
  {
    IntegerSize(v);
    var c := IntegerContents(v);
    if EncodeUint64(v) <= s {
      assert s == EncodeUint64(v) + s[|EncodeUint64(v)|..];
      ParseDer(0x02, c, s[|EncodeUint64(v)|..], true);
      ReadInteger(v);
    }
    if AnyElement(s, true).Some? && AnyElement(s, true).value.tag == 0x02
       && Uint64Contents(AnyElement(s, true).value.Contents()) == Some(v)
    {
      IntegerCanonical(AnyElement(s, true).value.Contents());
      StrictIsDer(s);
    }
  }
}
