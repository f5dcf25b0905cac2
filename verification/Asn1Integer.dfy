/** CBB_add_asn1_uint64: the builder of canonical integers. */
module Asn1Integer {
  import opened Bytes
  import opened Der
  import opened Cbb
  import Cbs

  // ----- Skipping leading zeros -----

  function Stripped(s: seq<byte>): seq<byte> {
    if s == [] then [] else if s[0] == 0 then Stripped(s[1..]) else s
  }

  /** With the zero octet that keeps the value non-negative. */
  function Padded(t: seq<byte>): seq<byte> {
    if t != [] && t[0] >= 0x80 then [0] + t else t
  }

  lemma {:induction false} StrippedAppend(s: seq<byte>, b: byte)
    ensures Stripped(s + [b]) == if Stripped(s) != [] then Stripped(s) + [b] else if b == 0 then [] else [b]
  {
    if s == [] {
      assert s + [b] == [b];
    } else if s[0] == 0 {
      assert (s + [b])[1..] == s[1..] + [b];
      StrippedAppend(s[1..], b);
    }
  }

  lemma {:induction false} StrippedValue(s: seq<byte>)
    ensures Value(Stripped(s)) == Value(s) && (Stripped(s) != [] ==> Stripped(s)[0] != 0)
  {
    if s != [] && s[0] == 0 {
      StrippedValue(s[1..]);
      ValueOfZeroPrefix(s[1..]);
      assert [0] + s[1..] == s;
    }
  }

  lemma StrippedContents(v: nat)
    requires v < Pow256(8)
    ensures var t := Stripped(BigEndian(v, 8));
            (t == [] ==> IntegerContents(v) == [0]) && (t != [] ==> IntegerContents(v) == Padded(t))
  {
    var s := BigEndian(v, 8);
    StrippedValue(s);
    ValueOfBigEndian(v, 8);
    MagnitudeUnique(Stripped(s));
    MagnitudeValue(v);
  }

  // ----- Extracting an octet -----

  lemma {:induction false} MultipleApart(d: nat, k: nat, e: nat)
    requires e >= 1
    ensures d * (k + e) >= d * k + d
    decreases e
  {
    if e > 1 {
      MultipleApart(d, k, e - 1);
      assert d * (k + e) == d * (k + (e - 1)) + d;
    }
  }

  lemma QuotientUnique(v: nat, d: nat, q: nat, r: nat)
    requires r < d && v == d * q + r
    ensures v / d == q
  {
    var k := v / d;
    assert v == d * k + v % d;
    if k < q {
      MultipleApart(d, k, q - k);
    } else if k > q {
      MultipleApart(d, q, k - q);
    }
  }

  lemma DivideTwice(v: nat, p: nat)
    requires p > 0
    ensures (v / 256) / p == v / (256 * p)
  {
    var q, r := (v / 256) / p, (v / 256) % p;
    assert v == 256 * (p * q + r) + v % 256;
    assert 256 * (p * q + r) == (256 * p) * q + 256 * r;
    QuotientUnique(v, 256 * p, q, 256 * r + v % 256);
  }

  /** Octet `i` of eight is what shifting and masking extracts. */
  lemma {:induction false} OctetAt(v: nat, n: nat, i: nat)
    requires i < n
    ensures BigEndian(v, n)[i] == v / Pow256(n - 1 - i) % 256
    decreases n
  {
    if i < n - 1 {
      OctetAt(v / 256, n - 1, i);
      DivideTwice(v, Pow256(n - 2 - i));
    }
  }

  lemma NextOctet(v: nat, k: nat)
    requires k < 8
    ensures BigEndian(v, 8)[..k + 1] == BigEndian(v, 8)[..k] + [v / Pow256(7 - k) % 256]
  {
    OctetAt(v, 8, k);
    hide BigEndian, Pow256;
  }

  // ----- The builder -----

  /** CBB_add_asn1_uint64: behind what `cbb` holds, the canonical INTEGER for `value`. */
  method AddAsn1Uint64(cbb: Cbb, value: nat, ghost chain: seq<Cbb>, ghost i: nat, ghost store: Buffer) returns (ok: bool)
    requires Linked(chain, store) && i < |chain| && cbb == chain[i] && value < Pow256(8)
    modifies chain[i..], store, store.buf
    ensures store.Valid() && store.Limit() == old(store.Limit()) && (store.buf == old(store.buf) || fresh(store.buf))
    ensures ok ==> Linked(chain[..i + 1], store) && cbb.isTopLevel == old(cbb.isTopLevel)
    ensures var closed := CloseAll(old(store.Content()), old(Pendings(chain[i..])));
            && (ok ==> closed.Some? && store.Content() == closed.value + EncodeUint64(value))
            && (closed.Some? && |closed.value| + |EncodeUint64(value)| <= old(store.Limit()) ==> ok)
  {
    var child;
    hide IntegerContents, Tlv;
    ok, child := cbb.AddAsn1(Cbs.ASN1_INTEGER, chain, i, store);
    IntegerSize(value);
    if !ok {
      return;
    }
    ghost var b, inner := store.Content()[..|store.Content()| - 2], chain[..i + 1] + [child];
    assert store.Content() == b + [Cbs.ASN1_INTEGER, 0];
    assert inner[..i + 2] == inner;
    assert inner[..i + 1] == chain[..i + 1];
    ok := FillInteger(cbb, child, value, b, inner, i, store);
  }

  /** The octets, and the length once they are there. */
  method FillInteger(cbb: Cbb, child: Cbb, value: nat, ghost b: seq<byte>, ghost chain: seq<Cbb>, ghost i: nat, ghost store: Buffer)
    returns (ok: bool)
    requires Linked(chain, store) && i + 2 == |chain| && child == chain[i + 1] && cbb == chain[i]
    requires store.Content() == b + [Cbs.ASN1_INTEGER, 0] && value < Pow256(8) && |IntegerContents(value)| <= 9
    requires cbb.AsPending() == Pending(|b| + 1, 1, true)
    modifies cbb, child, store, store.buf
    ensures store.Valid() && store.Limit() == old(store.Limit()) && (store.buf == old(store.buf) || fresh(store.buf))
    ensures ok ==> Linked(chain[..i + 1], store) && cbb.isTopLevel == old(cbb.isTopLevel)
    ensures ok ==> store.Content() == b + Tlv(Cbs.ASN1_INTEGER, IntegerContents(value))
    ensures |b| + |Tlv(Cbs.ASN1_INTEGER, IntegerContents(value))| <= old(store.Limit()) ==> ok
  {
    hide IntegerContents, Tlv;
    ok := AddOctets(cbb, child, value, b, chain, i, store);
    if !ok {
      return;
    }
    OnePending(chain, i);
    CloseAsn1(b, Cbs.ASN1_INTEGER, IntegerContents(value));
    assert chain[i..] == [cbb, child];
    ok := cbb.Flush(chain, i, store);
  }

  /** The loop over the eight octets. */
  method AddOctets(cbb: Cbb, child: Cbb, value: nat, ghost b: seq<byte>, ghost chain: seq<Cbb>, ghost i: nat, ghost store: Buffer)
    returns (ok: bool)
    requires Linked(chain, store) && i + 2 == |chain| && child == chain[i + 1] && cbb == chain[i]
    requires store.Content() == b + [Cbs.ASN1_INTEGER, 0] && value < Pow256(8)
    modifies child, store, store.buf
    ensures store.Valid() && store.Limit() == old(store.Limit()) && (store.buf == old(store.buf) || fresh(store.buf))
    ensures ok ==> Linked(chain, store) && store.Content() == b + [Cbs.ASN1_INTEGER, 0] + IntegerContents(value)
    ensures |b| + 2 + |IntegerContents(value)| <= old(store.Limit()) ==> ok
  {
    hide BigEndian, IntegerContents, LinkAt;
    ghost var octets, start := BigEndian(value, 8), b + [Cbs.ASN1_INTEGER, 0];
    ghost var limit := store.Limit();
    StrippedContents(value);
    assert octets[..8] == octets;
    var started := false;
    assert store.Content() == start + Padded(Stripped(octets[..0]));
    for k := 0 to 8
      invariant Linked(chain, store)
      invariant store.Limit() == limit && (store.buf == old(store.buf) || fresh(store.buf))
      invariant started == (Stripped(octets[..k]) != [])
      invariant store.Content() == start + Padded(Stripped(octets[..k]))
    {
      var octet: byte := value / Pow256(7 - k) % 256;
      NextOctet(value, k);
      StrippedPrefix(octets, k + 1);
      ok, started := AddOctet(child, octet, started, octets[..k], chain, store, start);
      if !ok {
        return;
      }
    }
    ok := true;
    if !started {
      ok := AppendOctet(child, 0, chain, store, start);
    }
  }

  /** One turn of the loop: nothing for a leading zero, a padding octet before a first octet with the
      high bit set. */
  method AddOctet(child: Cbb, octet: byte, started0: bool, ghost s: seq<byte>, ghost chain: seq<Cbb>,
                  ghost store: Buffer, ghost start: seq<byte>)
    returns (ok: bool, started: bool)
    requires Linked(chain, store) && child == chain[|chain| - 1]
    requires started0 == (Stripped(s) != []) && store.Content() == start + Padded(Stripped(s))
    modifies child, store, store.buf
    ensures store.Valid() && store.Limit() == old(store.Limit()) && (store.buf == old(store.buf) || fresh(store.buf))
    ensures ok ==> Linked(chain, store)
    ensures ok ==> started == (Stripped(s + [octet]) != []) && store.Content() == start + Padded(Stripped(s + [octet]))
    ensures |start| + |Padded(Stripped(s + [octet]))| <= old(store.Limit()) ==> ok
  {
    hide BigEndian, LinkAt;
    PaddedGrows(start, Stripped(s), octet);
    hide Stripped, Padded;
    StrippedAppend(s, octet);
    started := started0;
    if !started {
      if octet == 0 {
        return true, started;
      }
      if octet >= 0x80 {
        ok := AppendOctet(child, 0, chain, store, start);
        if !ok {
          return;
        }
      }
      started := true;
    }
    ok := AppendOctet(child, octet, chain, store, start);
    assert ok ==> store.Content() == start + Padded(Stripped(s + [octet]));
  }

  lemma PaddedGrows(start: seq<byte>, t: seq<byte>, b: byte)
    ensures t != [] ==> start + Padded(t) + [b] == start + Padded(t + [b])
    ensures t == [] ==> Padded(t) == [] && Padded([b]) == if b >= 0x80 then [0, b] else [b]
    ensures start + [] == start && start + [0] + [b] == start + [0, b]
  {
  }

  lemma {:induction false} StrippedPrefix(s: seq<byte>, k: nat)
    requires k <= |s|
    ensures Stripped(s[..k]) <= Stripped(s)
    decreases |s|
  {
    if s != [] && s[0] == 0 && k > 0 {
      assert s[..k][1..] == s[1..][..k - 1];
      StrippedPrefix(s[1..], k - 1);
    }
  }

  /** CBB_add_u8 on the innermost builder. */
  method AppendOctet(child: Cbb, octet: byte, ghost chain: seq<Cbb>, ghost store: Buffer, ghost start: seq<byte>)
    returns (ok: bool)
    requires Linked(chain, store) && child == chain[|chain| - 1] && start <= store.Content()
    modifies child, store, store.buf
    ensures store.Valid() && store.Limit() == old(store.Limit()) && (store.buf == old(store.buf) || fresh(store.buf))
    ensures ok ==> Linked(chain, store) && store.Content() == old(store.Content()) + [octet]
    ensures ok ==> store.Content()[|start|..] == old(store.Content())[|start|..] + [octet]
    ensures ok == (|old(store.Content())| + 1 <= old(store.Limit()))
  {
    ghost var n := |chain| - 1;
    assert chain[..n + 1] == chain;
    assert Pendings(chain[n..]) == [];
    assert BigEndian(octet, 1) == [octet] by { assert BigEndian(octet / 256, 0) == []; }
    ok := child.AddU(octet, 1, chain, n, store);
  }
}
