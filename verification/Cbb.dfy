/**
  CBB: a byte builder with nested length prefixes.  A builder with an open child has a pending length,
  written when the builder is next used; closing an ASN.1 length may have to move the contents.  All
  builders of a tree share one growing buffer and form a chain from the outermost to the innermost.
 */
module Cbb {
  import opened Bytes
  import opened Der

  const SIZE_MAX := 0xffff_ffff_ffff_ffff

  // ----- What closing a length means -----

  datatype Pending = Pending(offset: nat, lenLen: nat, isAsn1: bool)

  /** Everything after the placeholder becomes the contents of one length prefix. */
  function CloseOne(b: seq<byte>, p: Pending): Option<seq<byte>> {
    var start := p.offset + p.lenLen;
    if start > |b| then None
    else
      var contents := b[start..];
      if p.isAsn1 then
        if |contents| > MAX_CONTENTS then None else Some(b[..p.offset] + DerLength(|contents|) + contents)
      else if |contents| >= Pow256(p.lenLen) then None
      else Some(b[..p.offset] + BigEndian(|contents|, p.lenLen) + contents)
  }

  /** Innermost first. */
  function CloseAll(b: seq<byte>, ps: seq<Pending>): Option<seq<byte>> {
    if ps == [] then Some(b)
    else
      match CloseAll(b, ps[1..])
      case None => None
      case Some(b') => CloseOne(b', ps[0])
  }

  lemma CloseOneKeeps(b: seq<byte>, p: Pending)
    requires CloseOne(b, p).Some? && (p.isAsn1 ==> p.lenLen == 1)
    ensures |b| <= |CloseOne(b, p).value| && b[..p.offset] == CloseOne(b, p).value[..p.offset]
  {
  }

  /** Contents after a zeroed placeholder, closed: the prefixed encoding. */
  lemma ClosePrefix(b: seq<byte>, lenLen: nat, contents: seq<byte>)
    ensures CloseAll(b + BigEndian(0, lenLen) + contents, [Pending(|b|, lenLen, false)]) ==
            if |contents| < Pow256(lenLen) then Some(b + (BigEndian(|contents|, lenLen) + contents)) else None
  {
    hide BigEndian, Pow256, CloseAll;
    var placeholder := BigEndian(0, lenLen);
    OnlyPending(b + placeholder + contents, Pending(|b|, lenLen, false));
    ThreeParts(b, placeholder, contents);
    Concatenate(b, BigEndian(|contents|, lenLen), contents);
  }

  /** Contents after an identifier octet and a one-byte placeholder, closed: the element. */
  lemma CloseAsn1(b: seq<byte>, tag: byte, contents: seq<byte>)
    ensures CloseAll(b + [tag, 0] + contents, [Pending(|b| + 1, 1, true)]) ==
            if |contents| <= MAX_CONTENTS then Some(b + Tlv(tag, contents)) else None
  {
    hide DerLength, CloseAll;
    var all := b + [tag, 0] + contents;
    OnlyPending(all, Pending(|b| + 1, 1, true));
    TagAndPlaceholder(b, tag);
    ThreeParts(b + [tag], [0], contents);
    if |contents| <= MAX_CONTENTS {
      Concatenate(b, [tag], DerLength(|contents|));
      Concatenate(b, [tag] + DerLength(|contents|), contents);
    }
  }

  lemma TagAndPlaceholder(b: seq<byte>, tag: byte)
    ensures b + [tag, 0] == b + [tag] + [0]
  {
  }

  lemma ThreeParts(a: seq<byte>, b: seq<byte>, c: seq<byte>)
    ensures (a + b + c)[..|a|] == a && (a + b + c)[|a| + |b|..] == c
  {
  }

  lemma OnlyPending(b: seq<byte>, p: Pending)
    ensures CloseAll(b, [p]) == CloseOne(b, p)
  {
    assert [p][1..] == [];
    assert CloseAll(b, [p][1..]) == Some(b);
  }

  lemma PutStep(v: nat, i: nat, tail: seq<byte>)
    ensures BigEndian(v, i + 1) + tail == BigEndian(v / 256, i) + ([v % 256] + tail)
    ensures v < Pow256(i + 1) <==> v / 256 < Pow256(i)
  {
    Concatenate(BigEndian(v / 256, i), [v % 256], tail);
  }

  lemma NoOctets(v: nat)
    ensures BigEndian(v, 0) == [] && Pow256(0) == 1
  {
  }

  // ----- The buffer -----

  class Buffer {
    var buf: array<byte>
    var len: nat
    const canResize: bool

    ghost predicate Valid() reads this { len <= buf.Length <= 0xffff_ffff_ffff_ffff }

    function Content(): (r: seq<byte>)
      requires Valid()
      reads this, buf
      ensures |r| == len
    {
      buf[..len]
    }

    /** The most the buffer can ever hold. */
    function Limit(): nat reads this { if canResize then 0xffff_ffff_ffff_ffff else buf.Length }

    constructor (initialCapacity: nat)
      requires initialCapacity <= SIZE_MAX
      ensures Valid() && Content() == [] && canResize && fresh(buf)
    {
      buf := new byte[if initialCapacity == 0 then 64 else initialCapacity](_ => 0);
      len, canResize := 0, true;
    }

    constructor Fixed(storage: array<byte>)
      requires storage.Length <= SIZE_MAX
      ensures Valid() && Content() == [] && !canResize && buf == storage
    {
      buf, len, canResize := storage, 0, false;
    }

    /** cbb_buffer_add: room for `n` more bytes, contents unspecified. */
    method Add(n: nat) returns (ok: bool)
      requires Valid()
      modifies this
      ensures Valid() && Limit() == old(Limit())
      ensures ok == (old(len) + n <= old(Limit()))
      ensures buf == old(buf) || fresh(buf)
      ensures len == if ok then old(len) + n else old(len)
      ensures Content()[..old(len)] == old(Content())
      // growing doubles the buffer, or takes exactly what is asked for where that is not enough
      ensures ok && old(len) + n > old(buf.Length) ==>
                buf.Length == if old(len) + n <= 2 * old(buf.Length) <= SIZE_MAX then 2 * old(buf.Length) else old(len) + n
      ensures !ok || old(len) + n <= old(buf.Length) ==> buf == old(buf)
    {
      var newlen := len + n;
      if newlen > SIZE_MAX {
        return false;
      }
      if newlen > buf.Length {
        if !canResize {
          return false;
        }
        var newcap := buf.Length * 2;
        if newcap > SIZE_MAX || newcap < newlen {
          newcap := newlen;
        }
        var newbuf := new byte[newcap](_ => 0);
        forall k | 0 <= k < buf.Length {
          newbuf[k] := buf[k];
        }
        assert newbuf[..len] == buf[..len];
        buf := newbuf;
      }
      assert buf[..newlen][..len] == buf[..len] == old(Content());
      len := newlen;
      ok := true;
    }

    /** memcpy to the end of the contents. */
    method Write(at: nat, data: seq<byte>)
      requires Valid() && at + |data| == len
      modifies buf
      ensures Content() == old(Content())[..at] + data
    {
      forall k | 0 <= k < |data| {
        buf[at + k] := data[k];
      }
      assert buf[..at] == old(buf[..at]) == old(buf[..len])[..at];
      assert buf[at..at + |data|] == data;
      assert buf[..len] == buf[..at] + buf[at..len];
    }

    /** Writes the low-order bytes of `v` big-endian over `buf[at..at + n]`, last byte first. */
    method Put(at: nat, v0: nat, n: nat) returns (v: nat)
      requires Valid() && at + n <= len
      modifies buf
      ensures Valid()
      ensures Content() == old(Content())[..at] + BigEndian(v0, n) + old(Content())[at + n..]
      ensures v == 0 <==> v0 < Pow256(n)
    {
      hide BigEndian, Pow256;
      v := v0;
      var i := n;
      ghost var all := BigEndian(v0, n);
      while i > 0
        invariant 0 <= i <= n && 0 <= v
        invariant all == BigEndian(v, i) + buf[at + i..at + n]
        invariant buf[..at] == old(buf[..at]) && buf[at + n..] == old(buf[at + n..])
        invariant v0 < Pow256(n) <==> v < Pow256(i)
      {
        i := i - 1;
        ghost var tail := buf[at + i + 1..at + n];
        PutStep(v, i, tail);
        buf[at + i] := v % 256;
        assert buf[at + i..at + n] == [v % 256] + tail;
        v := v / 256;
      }
      NoOctets(v);
      assert buf[..len] == buf[..at] + buf[at..at + n] + buf[at + n..][..len - (at + n)];
      assert old(buf[at + n..])[..len - (at + n)] == old(buf[..len])[at + n..];
    }

    /** The initial byte of a length and the octets after it. */
    method PutLength(at: nat, initial: byte, v0: nat, n: nat) returns (v: nat)
      requires Valid() && at + 1 + n <= len
      modifies buf
      ensures Valid()
      ensures var marked := old(Content())[at := initial];
              Content() == marked[..at + 1] + BigEndian(v0, n) + marked[at + 1 + n..]
      ensures v == 0 <==> v0 < Pow256(n)
    {
      hide BigEndian, Pow256;
      buf[at] := initial;
      assert Content() == old(Content())[at := initial];
      v := Put(at + 1, v0, n);
    }

    /** memmove of the contents after `start` by `extra` towards the end. */
    method Shift(start: nat, extra: nat, n: nat)
      requires Valid() && start + extra + n == len
      modifies buf
      ensures Content()[..start] == old(Content())[..start]
      ensures Content()[start + extra..] == old(Content())[start..start + n]
    {
      forall k | start + extra <= k < start + extra + n {
        buf[k] := buf[k - extra];
      }
      assert forall k :: start + extra <= k < len ==> Content()[k] == old(Content())[k - extra];
    }
  }

  // ----- Builders -----

  class Cbb {
    var base: Buffer?
    var child: Cbb?
    var offset: nat
    var pendingLenLen: nat
    var pendingIsAsn1: bool
    var isTopLevel: bool

    constructor (base: Buffer?, top: bool)
      ensures this.base == base && child == null && offset == 0 && pendingLenLen == 0 && !pendingIsAsn1 && isTopLevel == top
    {
      this.base, child, offset, pendingLenLen, pendingIsAsn1, isTopLevel := base, null, 0, 0, false, top;
    }

    function AsPending(): Pending reads this { Pending(offset, pendingLenLen, pendingIsAsn1) }

    /** CBB_flush: closes every open descendant, innermost first. */
    method Flush(ghost chain: seq<Cbb>, ghost i: nat, ghost store: Buffer) returns (ok: bool)
      requires Linked(chain, store) && i < |chain| && this == chain[i]
      modifies chain[i..], store, store.buf
      ensures store.Valid() && store.Limit() == old(store.Limit()) && (store.buf == old(store.buf) || fresh(store.buf))
      ensures ok ==> Linked(chain[..i + 1], store) && isTopLevel == old(isTopLevel)
      ensures var closed := CloseAll(old(store.Content()), old(Pendings(chain[i..])));
              && (ok ==> closed == Some(store.Content()))
              && (closed.Some? && |closed.value| <= old(store.Limit()) ==> ok)
      decreases |chain| - i
    {
      if child == null || pendingLenLen == 0 {
        assert LinkAt(chain, store, i);
        assert chain[..i + 1] == chain;
        return true;
      }
      assert LinkAt(chain, store, i);
      PendingsTail(chain, i);
      ok := child.Flush(chain, i + 1, store);
      if !ok {
        return;
      }
      ghost var shorter := chain[..i + 2];
      assert LinkAt(shorter, store, i);
      assert shorter[..i + 1] == chain[..i + 1];
      ok := CloseChild(shorter, store);
    }

    /** The part of the flush after the recursive call: the child is the innermost builder. */
    method CloseChild(ghost chain: seq<Cbb>, ghost store: Buffer) returns (ok: bool)
      requires Linked(chain, store) && |chain| >= 2 && this == chain[|chain| - 2]
      modifies this, chain[|chain| - 1], store, store.buf
      ensures store.Valid() && store.Limit() == old(store.Limit()) && (store.buf == old(store.buf) || fresh(store.buf))
      ensures ok ==> Linked(chain[..|chain| - 1], store) && isTopLevel == old(isTopLevel)
      ensures var closed := CloseOne(old(store.Content()), old(AsPending()));
              && (ok ==> closed == Some(store.Content()))
              && (closed.Some? && |closed.value| <= old(store.Limit()) ==> ok)
    {
      ghost var n, b, p := |chain| - 1, store.Content(), AsPending();
      assert LinkAt(chain, store, n - 1) && LinkAt(chain, store, n);
      var childStart := offset + pendingLenLen;
      if base.len < childStart {
        return false;
      }
      ok := WritePending(childStart, store);
      if !ok {
        return;
      }
      CloseOneKeeps(b, p);
      child.base := null;
      child := null;
      pendingLenLen, pendingIsAsn1, offset := 0, false, 0;
      forall k | 0 <= k < n ensures LinkAt(chain[..n], store, k) {
        assert old(LinkAt(chain, store, k));
      }
    }

    /** The length itself: short form in place, or long form after moving the contents. */
    method WritePending(childStart: nat, ghost store: Buffer) returns (ok: bool)
      requires base == store && store.Valid() && childStart == offset + pendingLenLen <= store.len
      requires pendingIsAsn1 ==> pendingLenLen == 1
      modifies this`offset, this`pendingLenLen, store, store.buf
      ensures store.Valid() && store.Limit() == old(store.Limit()) && (store.buf == old(store.buf) || fresh(store.buf))
      ensures var closed := CloseOne(old(store.Content()), old(AsPending()));
              && (ok ==> closed == Some(store.Content()))
              && (closed.Some? && |closed.value| <= old(store.Limit()) ==> ok)
    {
      ghost var b0, p := store.Content(), AsPending();
      var len := base.len - childStart;
      if pendingIsAsn1 {
        if pendingLenLen != 1 {
          return false;
        }
        if len > MAX_CONTENTS {
          return false;
        }
        var lenLen := 1 + LengthOctets(len);
        ok := WriteAsn1Length(childStart, len, lenLen, store);
      } else {
        var rest := base.Put(offset, len, pendingLenLen);
        assert b0 == b0[..offset] + b0[offset..childStart] + b0[childStart..];
        ok := rest == 0;
      }
    }

    method WriteAsn1Length(childStart: nat, len: nat, lenLen: nat, ghost store: Buffer) returns (ok: bool)
      requires base == store && store.Valid() && childStart == offset + 1 && childStart + len == store.len
      requires len <= MAX_CONTENTS && lenLen == 1 + LengthOctets(len)
      modifies this`offset, this`pendingLenLen, store, store.buf
      ensures store.Valid() && store.Limit() == old(store.Limit()) && (store.buf == old(store.buf) || fresh(store.buf))
      ensures ok == (old(store.len) + lenLen - 1 <= old(store.Limit()))
      ensures ok ==> store.Content() == old(store.Content())[..old(offset)] + DerLength(len) + old(store.Content())[childStart..]
    {
      hide DerLength, BigEndian, Pow256;
      ghost var b0, at := store.Content(), offset;
      var value: nat, initialLengthByte: byte := len, 0;
      if lenLen == 1 {
        // Short form: the initial byte is the length.
        initialLengthByte, value := len, 0;
      } else {
        initialLengthByte := 0x80 + (lenLen - 1);
        ok := MakeRoom(childStart, len, lenLen - 1, store);
        if !ok {
          return;
        }
      }
      ghost var moved := store.Content();
      assert moved[..childStart] == b0[..childStart] && moved[childStart + lenLen - 1..] == b0[childStart..];
      LengthInPlace(b0, at, len, moved, initialLengthByte, value);
      offset := offset + 1;
      pendingLenLen := lenLen - 1;
      var rest := base.PutLength(offset - 1, initialLengthByte, value, pendingLenLen);
      ok := rest == 0;
    }

    /** Long form: the contents move along to make space for the length octets. */
    method MakeRoom(childStart: nat, len: nat, extraBytes: nat, ghost store: Buffer) returns (ok: bool)
      requires base == store && store.Valid() && childStart + len == store.len
      modifies store, store.buf
      ensures store.Valid() && store.Limit() == old(store.Limit()) && (store.buf == old(store.buf) || fresh(store.buf))
      ensures ok == (old(store.len) + extraBytes <= old(store.Limit()))
      ensures ok ==> store.len == old(store.len) + extraBytes
      ensures ok ==> store.Content()[..childStart] == old(store.Content())[..childStart]
      ensures ok ==> store.Content()[childStart + extraBytes..] == old(store.Content())[childStart..]
    {
      ghost var b0 := store.Content();
      ok := base.Add(extraBytes);
      if ok {
        ghost var grown := store.Content();
        assert grown[..|b0|] == b0;
        base.Shift(childStart, extraBytes, len);
        assert grown[..childStart] == b0[..childStart];
        assert grown[childStart..childStart + len] == b0[childStart..];
      }
    }

    // ----- Adding -----

    /** CBB_add_bytes. */
    method AddBytes(data: seq<byte>, ghost chain: seq<Cbb>, ghost i: nat, ghost store: Buffer) returns (ok: bool)
      requires Linked(chain, store) && i < |chain| && this == chain[i]
      modifies chain[i..], store, store.buf
      ensures store.Valid() && store.Limit() == old(store.Limit()) && (store.buf == old(store.buf) || fresh(store.buf))
      ensures ok ==> Linked(chain[..i + 1], store) && isTopLevel == old(isTopLevel)
      ensures var closed := CloseAll(old(store.Content()), old(Pendings(chain[i..])));
              && (ok ==> closed.Some? && store.Content() == closed.value + data)
              && (closed.Some? && |closed.value| + |data| <= old(store.Limit()) ==> ok)
    {
      ok := Flush(chain, i, store);
      if !ok {
        return;
      }
      ok := Append(data, chain[..i + 1], store);
    }

    /** Bytes behind the contents of the innermost builder. */
    method Append(data: seq<byte>, ghost chain: seq<Cbb>, ghost store: Buffer) returns (ok: bool)
      requires Linked(chain, store) && this == chain[|chain| - 1]
      modifies store, store.buf
      ensures store.Valid() && store.Limit() == old(store.Limit()) && (store.buf == old(store.buf) || fresh(store.buf))
      ensures Linked(chain, store)
      ensures ok == (|old(store.Content())| + |data| <= old(store.Limit()))
      ensures ok ==> store.Content() == old(store.Content()) + data
    {
      assert LinkAt(chain, store, |chain| - 1);
      var start := base.len;
      ok := base.Add(|data|);
      if ok {
        base.Write(start, data);
      }
      forall k | 0 <= k < |chain| ensures LinkAt(chain, store, k) {
        assert old(LinkAt(chain, store, k));
      }
    }

    /** cbb_add_u: a big-endian number of up to four bytes. */
    method AddU(v: nat, lenLen: nat, ghost chain: seq<Cbb>, ghost i: nat, ghost store: Buffer) returns (ok: bool)
      requires Linked(chain, store) && i < |chain| && this == chain[i]
      modifies chain[i..], store, store.buf
      ensures store.Valid() && store.Limit() == old(store.Limit()) && (store.buf == old(store.buf) || fresh(store.buf))
      // no bytes, nothing done, not even the flush; more than four, refused
      ensures lenLen == 0 || lenLen > 4 ==> ok == (lenLen == 0) && Linked(chain, store)
                                            && unchanged(chain[i..]) && unchanged(store) && unchanged(store.buf)
      ensures ok && lenLen > 0 ==> Linked(chain[..i + 1], store) && isTopLevel == old(isTopLevel)
      ensures 1 <= lenLen <= 4 ==>
                var closed := CloseAll(old(store.Content()), old(Pendings(chain[i..])));
                && (ok ==> closed.Some? && store.Content() == closed.value + BigEndian(v, lenLen))
                && (closed.Some? && |closed.value| + lenLen <= old(store.Limit()) ==> ok)
    {
      if lenLen == 0 {
        return true;
      }
      if lenLen > 4 {
        return false;
      }
      ok := Flush(chain, i, store);
      if !ok {
        return;
      }
      ghost var leaf, b0 := chain[..i + 1], store.Content();
      ok := Append(Zeros(lenLen), leaf, store);
      if !ok {
        return;
      }
      assert LinkAt(leaf, store, i);
      ghost var b1 := store.Content();
      var _ := base.Put(base.len - lenLen, v, lenLen);
      assert b1[..|b0|] == b0;
      forall k | 0 <= k < |leaf| ensures LinkAt(leaf, store, k) {
      }
    }

    /** cbb_add_length_prefixed: a placeholder, and a child whose contents it will measure. */
    method AddLengthPrefixed(lenLen: nat, ghost chain: seq<Cbb>, ghost i: nat, ghost store: Buffer)
      returns (ok: bool, contents: Cbb)
      requires Linked(chain, store) && i < |chain| && this == chain[i]
      requires 1 <= lenLen <= 3
      modifies chain[i..], store, store.buf
      ensures store.Valid() && store.Limit() == old(store.Limit()) && (store.buf == old(store.buf) || fresh(store.buf))
      ensures fresh(contents)
      ensures ok ==> Linked(chain[..i + 1] + [contents], store) && isTopLevel == old(isTopLevel)
      ensures var closed := CloseAll(old(store.Content()), old(Pendings(chain[i..])));
              && (ok ==> closed.Some? && store.Content() == closed.value + BigEndian(0, lenLen)
                         && AsPending() == Pending(|closed.value|, lenLen, false))
              && (closed.Some? && |closed.value| + lenLen <= old(store.Limit()) ==> ok)
    {
      assert LinkAt(chain, store, i);
      contents := new Cbb(base, false);
      ok := Flush(chain, i, store);
      if !ok {
        return;
      }
      ok := OpenChild(lenLen, false, chain[..i + 1], contents, store);
    }

    /** The placeholder of a length, zeroed, and the link to the child. */
    method OpenChild(lenLen: nat, isAsn1: bool, ghost chain: seq<Cbb>, contents: Cbb, ghost store: Buffer) returns (ok: bool)
      requires Linked(chain, store) && this == chain[|chain| - 1] && contents !in chain
      requires contents.base == store && contents.child == null
      requires 1 <= lenLen <= 3 && (isAsn1 ==> lenLen == 1)
      modifies this, store, store.buf
      ensures store.Valid() && store.Limit() == old(store.Limit()) && (store.buf == old(store.buf) || fresh(store.buf))
      ensures ok == (|old(store.Content())| + lenLen <= old(store.Limit()))
      ensures ok ==> Linked(chain + [contents], store) && isTopLevel == old(isTopLevel)
      ensures ok ==> store.Content() == old(store.Content()) + BigEndian(0, lenLen)
      ensures ok ==> AsPending() == Pending(|old(store.Content())|, lenLen, isAsn1)
    {
      ZeroBytes(lenLen);
      assert LinkAt(chain, store, |chain| - 1);
      offset := base.len;
      forall k | 0 <= k < |chain| ensures LinkAt(chain, store, k) {
        assert old(LinkAt(chain, store, k));
      }
      ok := Append(Zeros(lenLen), chain, store);
      if ok {
        child, pendingLenLen, pendingIsAsn1 := contents, lenLen, isAsn1;
        ghost var longer := chain + [contents];
        forall k | 0 <= k < |longer| ensures LinkAt(longer, store, k) {
          if k < |chain| - 1 { assert old(LinkAt(chain, store, k)); }
        }
      }
    }

    /** CBB_add_asn1: identifier octet and a one-byte placeholder that may have to grow. */
    method AddAsn1(tag: nat, ghost chain: seq<Cbb>, ghost i: nat, ghost store: Buffer)
      returns (ok: bool, contents: Cbb)
      requires Linked(chain, store) && i < |chain| && this == chain[i]
      modifies chain[i..], store, store.buf
      ensures store.Valid() && store.Limit() == old(store.Limit()) && (store.buf == old(store.buf) || fresh(store.buf))
      ensures fresh(contents)
      ensures ok ==> tag <= 255 && tag % 32 != 31
      ensures ok ==> Linked(chain[..i + 1] + [contents], store) && isTopLevel == old(isTopLevel)
      ensures var closed := CloseAll(old(store.Content()), old(Pendings(chain[i..])));
              && (ok ==> closed.Some? && store.Content() == closed.value + [tag, 0]
                         && AsPending() == Pending(|closed.value| + 1, 1, true))
              && (tag <= 255 && tag % 32 != 31 && closed.Some? && |closed.value| + 2 <= old(store.Limit()) ==> ok)
    {
      assert LinkAt(chain, store, i);
      contents := new Cbb(base, false);
      if tag > 255 || tag % 32 == 31 {
        return false, contents;
      }
      ok := Flush(chain, i, store);
      if !ok {
        return;
      }
      ghost var leaf, b0 := chain[..i + 1], store.Content();
      ok := Append([tag], leaf, store);
      if !ok {
        return;
      }
      ok := OpenChild(1, true, leaf, contents, store);
      assert b0 + [tag] + BigEndian(0, 1) == b0 + [tag, 0] by { ZeroBytes(1); }
    }
  }

  /** An out-parameter of CBB_finish: a null pointer, or one to a variable that is null or not. */
  datatype OutPointer = NullPointer | ToNull | ToValue

  /** CBB_finish: closes everything and hands the buffer over.  Only a fixed buffer may be finished
      without taking pointer and length, and a variable that already has a value is not overwritten. */
  method Finish(cbb: Cbb, outData: OutPointer, outLen: OutPointer, ghost chain: seq<Cbb>, ghost store: Buffer)
    returns (ok: bool, out: seq<byte>)
    requires Linked(chain, store) && cbb == chain[0]
    modifies chain, store, store.buf
    ensures ok ==> (store.canResize ==> outData != NullPointer && outLen != NullPointer) && outData != ToValue
    ensures var closed := CloseAll(old(store.Content()), old(Pendings(chain)));
            && (ok ==> old(cbb.isTopLevel) && closed == Some(out))
            && ((old(cbb.isTopLevel) && closed.Some? && |closed.value| <= old(store.Limit()) && outData != ToValue
                 && (store.canResize ==> outData != NullPointer && outLen != NullPointer)) ==> ok)
  {
    out := [];
    assert chain[0..] == chain;
    if !cbb.isTopLevel {
      return false, out;
    }
    ok := cbb.Flush(chain, 0, store);
    if ok {
      assert LinkAt(chain[..1], store, 0);
      if cbb.base.canResize && (outData == NullPointer || outLen == NullPointer) {
        return false, out;
      }
      if outData == ToValue {
        return false, out;
      }
      out := cbb.base.buf[..cbb.base.len];
      cbb.base, cbb.child := null, null;
    }
  }

  /** The initial byte and the octets after it are the DER length, whichever form was chosen. */
  lemma LengthInPlace(b0: seq<byte>, at: nat, len: nat, moved: seq<byte>, initial: byte, value: nat)
    requires at + 1 + len == |b0| && len <= MAX_CONTENTS
    requires var k := LengthOctets(len);
             && |moved| == |b0| + k && moved[..at + 1] == b0[..at + 1] && moved[at + 1 + k..] == b0[at + 1..]
             && (k == 0 ==> initial == len && value == 0) && (k > 0 ==> initial == 0x80 + k && value == len)
    ensures var k := LengthOctets(len);
            var marked := moved[at := initial];
            && value < Pow256(k)
            && marked[..at + 1] + BigEndian(value, k) + marked[at + 1 + k..] == b0[..at] + DerLength(len) + b0[at + 1..]
  {
    var k := LengthOctets(len);
    var marked := moved[at := initial];
    Powers();
    assert marked[..at + 1] == b0[..at] + [initial] by {
      assert moved[..at + 1][..at] == b0[..at + 1][..at];
    }
    assert marked[at + 1 + k..] == b0[at + 1..];
    assert [initial] + BigEndian(value, k) == DerLength(len);
    assert b0[..at] + [initial] + BigEndian(value, k) == b0[..at] + DerLength(len);
  }

  lemma PendingsTail(chain: seq<Cbb>, i: nat)
    requires i + 1 < |chain|
    ensures Pendings(chain[i..])[0] == chain[i].AsPending()
    ensures Pendings(chain[i..])[1..] == Pendings(chain[i + 1..])
  {
  }

  lemma NoPendings(chain: seq<Cbb>, i: nat)
    requires i + 1 == |chain|
    ensures Pendings(chain[i..]) == [] && chain[..i + 1] == chain
  {
  }

  lemma OnePending(chain: seq<Cbb>, i: nat)
    requires i + 2 == |chain|
    ensures Pendings(chain[i..]) == [chain[i].AsPending()]
  {
  }

  ghost predicate LinkAt(chain: seq<Cbb>, base: Buffer, i: nat)
    requires i < |chain|
    reads chain, base
  {
    && chain[i].base == base
    && if i == |chain| - 1 then chain[i].child == null
       else
         && chain[i].child == chain[i + 1]
         && 1 <= chain[i].pendingLenLen <= 3 && (chain[i].pendingIsAsn1 ==> chain[i].pendingLenLen == 1)
         && chain[i].offset + chain[i].pendingLenLen <= (if i + 2 < |chain| then chain[i + 1].offset else base.len)
  }

  /** The builders of `chain` are each other's children and share `base`; placeholders lie in order. */
  ghost predicate Linked(chain: seq<Cbb>, base: Buffer)
    reads chain, base
  {
    && base.Valid() && chain != []
    && (forall i, j :: 0 <= i < j < |chain| ==> chain[i] != chain[j])
    && (forall i :: 0 <= i < |chain| ==> LinkAt(chain, base, i))
  }

  /** The lengths still to be written, outermost first. */
  function Pendings(chain: seq<Cbb>): (r: seq<Pending>)
    requires chain != []
    reads chain
    ensures |r| == |chain| - 1
  {
    seq(|chain| - 1, i requires 0 <= i < |chain| - 1 reads chain => chain[i].AsPending())
  }
}
