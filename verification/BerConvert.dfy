/** cbs_convert_indefinite itself: a loop over the input cursor, recursing, appending to nested builders. */
module BerConvert {
  import opened Bytes
  import opened Der
  import opened Ber
  import opened Cbb
  import C = Cbs

  // ----- Nested output -----

  /** Where the output of one element goes: a child builder, or `out` itself when its header is dropped. */
  method OpenOutput(out: Cbb, squash: bool, tag: byte, ghost chain: seq<Cbb>, ghost store: Buffer)
    returns (ok: bool, inner: Cbb, ghost innerChain: seq<Cbb>)
    requires Linked(chain, store) && out == chain[|chain| - 1] && tag % 32 != 31
    modifies out, store, store.buf
    ensures store.Valid() && store.Limit() == old(store.Limit()) && (store.buf == old(store.buf) || fresh(store.buf))
    ensures ok ==> out.isTopLevel == old(out.isTopLevel)
    ensures ok ==> Linked(innerChain, store) && inner == innerChain[|innerChain| - 1]
    ensures ok ==> if squash then innerChain == chain && inner == out && store.Content() == old(store.Content())
                   else fresh(inner) && innerChain == chain + [inner] && store.Content() == old(store.Content()) + [tag, 0]
                        && out.AsPending() == Pending(|old(store.Content())| + 1, 1, true)
    ensures |old(store.Content())| + (if squash then 0 else 2) <= old(store.Limit()) ==> ok
  {
    innerChain := chain;
    if squash {
      return true, out, innerChain;
    }
    ghost var i := |chain| - 1;
    NoPendings(chain, i);
    ok, inner := out.AddAsn1(tag, chain, i, store);
    innerChain := chain + [inner];
    assert chain[i..] == [out];
  }

  /** CBB_flush of `out` once the contents are complete. */
  method CloseOutput(out: Cbb, squash: bool, tag: byte, inner: Cbb, ghost chain: seq<Cbb>, ghost store: Buffer,
                     ghost b: seq<byte>, ghost contents: seq<byte>)
    returns (ok: bool)
    requires if squash then Linked(chain, store) && inner == out && store.Content() == b + contents
             else Linked(chain + [inner], store) && store.Content() == b + [tag, 0] + contents
    requires chain != [] && out == chain[|chain| - 1]
    requires !squash ==> out.AsPending() == Pending(|b| + 1, 1, true)
    modifies out, inner, store, store.buf
    ensures store.Valid() && store.Limit() == old(store.Limit()) && (store.buf == old(store.buf) || fresh(store.buf))
    ensures ok ==> out.isTopLevel == old(out.isTopLevel)
    ensures ok ==> Linked(chain, store) && Emit(squash, tag, contents).Some?
                   && store.Content() == b + Emit(squash, tag, contents).value
    ensures Emit(squash, tag, contents).Some? && |b| + |Emit(squash, tag, contents).value| <= old(store.Limit()) ==> ok
  {
    if squash {
      return true;
    }
    ghost var i := |chain| - 1;
    OnePending(chain + [inner], i);
    CloseAsn1(b, tag, contents);
    assert (chain + [inner])[i..] == [out, inner] && (chain + [inner])[..i + 1] == chain;
    ok := out.Flush(chain + [inner], i, store);
  }

  // ----- Conversion -----

  lemma PrependTwice(a: seq<byte>, b: seq<byte>, r: Conversion)
    ensures Prepend(a + b, r) == Prepend(a, Prepend(b, r))
  {
    if r.Done? { assert a + b + r.out == a + (b + r.out); }
  }

  /** Appends the conversion of `input` to the innermost builder `out`. */
  method ConvertIndefinite(input: C.Cbs, out: Cbb, squashHeader: bool, lookingForEoc: bool, depth: nat,
                           ghost chain: seq<Cbb>, ghost store: Buffer) returns (ok: bool)
    requires Linked(chain, store) && out == chain[|chain| - 1]
    modifies input, out, store, store.buf
    ensures store.Valid() && store.Limit() == old(store.Limit()) && (store.buf == old(store.buf) || fresh(store.buf))
    ensures ok ==> out.isTopLevel == old(out.isTopLevel)
    ensures var r := Convert(old(input.data), squashHeader, lookingForEoc, depth);
            && (ok ==> r.Done? && r.rest == input.data && store.Content() == old(store.Content()) + r.out && Linked(chain, store))
            && (r.Done? && |old(store.Content())| + |r.out| <= old(store.Limit()) ==> ok)
    decreases |input.data|, 3
  {
    hide LinkAt, ConvertElements, C.AnyElement, IsEoc;
    if depth > MAX_DEPTH {
      return false;
    }
    ghost var b, written := store.Content(), [];
    ghost var goal := ConvertElements(input.data, squashHeader, lookingForEoc, depth);
    ghost var limit := store.Limit();
    ElementsStop([], squashHeader, lookingForEoc, depth);
    while |input.data| > 0
      invariant Linked(chain, store) && store.Limit() == limit
      invariant store.buf == old(store.buf) || fresh(store.buf)
      invariant |input.data| <= |old(input.data)|
      invariant out.isTopLevel == old(out.isTopLevel)
      invariant store.Content() == b + written
      invariant goal == Prepend(written, ConvertElements(input.data, squashHeader, lookingForEoc, depth))
      decreases |input.data|
    {
      var goOn;
      ghost var piece;
      ok, goOn, piece := ConvertTurn(input, out, squashHeader, lookingForEoc, depth, chain, store);
      if !goOn {
        return;
      }
      PrependTwice(written, piece, ConvertElements(input.data, squashHeader, lookingForEoc, depth));
      written := written + piece;
    }
    ok := !lookingForEoc;
  }

  /** One turn of the loop: another element, or the end. */
  method ConvertTurn(input: C.Cbs, out: Cbb, squashHeader: bool, lookingForEoc: bool, depth: nat,
                     ghost chain: seq<Cbb>, ghost store: Buffer) returns (ok: bool, goOn: bool, ghost piece: seq<byte>)
    requires Linked(chain, store) && out == chain[|chain| - 1] && |input.data| > 0 && depth <= MAX_DEPTH
    modifies input, out, store, store.buf
    ensures store.Valid() && store.Limit() == old(store.Limit()) && (store.buf == old(store.buf) || fresh(store.buf))
    ensures ok || goOn ==> Linked(chain, store) && out.isTopLevel == old(out.isTopLevel)
    ensures var r := ConvertElements(old(input.data), squashHeader, lookingForEoc, depth);
            && (goOn ==> |input.data| < |old(input.data)| && store.Content() == old(store.Content()) + piece
                         && r == Prepend(piece, ConvertElements(input.data, squashHeader, lookingForEoc, depth)))
            && (!goOn && ok ==> r == Done([], input.data) && store.Content() == old(store.Content()))
            && (!goOn && !ok ==> !(r.Done? && |old(store.Content())| + |r.out| <= old(store.Limit())))
    decreases |input.data|, 2
  {
    hide LinkAt, ConvertOne, ConvertElements, C.AnyElement, IsEoc;
    ghost var s := input.data;
    piece, goOn := [], false;
    ElementsStop(s, squashHeader, lookingForEoc, depth);
    var read, e := input.GetAnyAsn1Element(false);
    if !read {
      return false, goOn, piece;
    }
    if IsEoc(e) {
      return lookingForEoc, goOn, piece;
    }
    ElementsStep(s, e, squashHeader, lookingForEoc, depth);
    ghost var one := ConvertOne(s, e, squashHeader, depth);
    ok := ConvertElement(input, s, e, out, squashHeader, depth, chain, store);
    if ok {
      goOn, piece := true, one.out;
    }
  }

  /** One turn of the loop, after the element's header is consumed. */
  method ConvertElement(input: C.Cbs, ghost s: seq<byte>, e: C.Element, out: Cbb, squash: bool, depth: nat,
                        ghost chain: seq<Cbb>, ghost store: Buffer) returns (ok: bool)
    requires Linked(chain, store) && out == chain[|chain| - 1]
    requires C.AnyElement(s, false) == Some(e) && input.data == e.rest
    modifies input, out, store, store.buf
    ensures store.Valid() && store.Limit() == old(store.Limit()) && (store.buf == old(store.buf) || fresh(store.buf))
    ensures ok ==> out.isTopLevel == old(out.isTopLevel)
    ensures var r := ConvertOne(s, e, squash, depth);
            && (ok ==> r.Done? && r.rest == input.data && store.Content() == old(store.Content()) + r.out && Linked(chain, store))
            && (r.Done? && |old(store.Content())| + |r.out| <= old(store.Limit()) ==> ok)
    decreases |s|, 1
  {
    hide LinkAt, ConvertOne;
    if IsIndefinite(e) {
      ok := ConvertIndefiniteElement(input, s, e, out, squash, depth, chain, store);
    } else {
      ok := ConvertDefiniteElement(s, e, out, squash, depth, chain, store);
    }
  }

  /** The look-ahead that decides whether fragments are concatenated. */
  method LookAhead(input: C.Cbs, tag: byte) returns (ok: bool, squashChildren: bool)
    ensures SquashChildren(tag, input.data) == if ok then Some(squashChildren) else None
  {
    ok, squashChildren := true, IsPrimitiveType(tag);
    if ContextSpecific(tag) && C.Constructed(tag) {
      var copy := new C.Cbs(input.data);
      var next;
      ok, next := copy.GetAnyAsn1Element(false);
      if ok && |next.bytes| > next.headerLen && IsPrimitiveType(next.tag) {
        squashChildren := true;
      }
    }
  }

  /** Indefinite length: the contents follow in the same input, up to their end-of-contents marker. */
  method ConvertIndefiniteElement(input: C.Cbs, ghost s: seq<byte>, e: C.Element, out: Cbb, squash: bool, depth: nat,
                                  ghost chain: seq<Cbb>, ghost store: Buffer) returns (ok: bool)
    requires Linked(chain, store) && out == chain[|chain| - 1]
    requires C.AnyElement(s, false) == Some(e) && input.data == e.rest && IsIndefinite(e)
    modifies input, out, store, store.buf
    ensures store.Valid() && store.Limit() == old(store.Limit()) && (store.buf == old(store.buf) || fresh(store.buf))
    ensures ok ==> out.isTopLevel == old(out.isTopLevel)
    ensures var r := ConvertOne(s, e, squash, depth);
            && (ok ==> r.Done? && r.rest == input.data && store.Content() == old(store.Content()) + r.out && Linked(chain, store))
            && (r.Done? && |old(store.Content())| + |r.out| <= old(store.Limit()) ==> ok)
    decreases |s|, 0
  {
    hide LinkAt, Convert, SquashChildren, IsIndefinite, Emit, C.AnyElement;
    ghost var b := store.Content();
    var squashChildren, inner;
    ghost var innerChain;
    ok, squashChildren := LookAhead(input, e.tag);
    if !ok {
      return;
    }
    var outTag := if squashChildren then MakePrimitive(e.tag) else e.tag;
    ok, inner, innerChain := OpenOutput(out, squash, outTag, chain, store);
    if !ok {
      return;
    }
    ghost var r := Convert(e.rest, squashChildren, true, depth + 1);
    ok := ConvertIndefinite(input, inner, squashChildren, true, depth + 1, innerChain, store);
    if !ok {
      return;
    }
    ok := CloseOutput(out, squash, outTag, inner, chain, store, b, r.out);
  }

  /** Definite length: contents of constructed elements are converted, others copied. */
  method ConvertDefiniteElement(ghost s: seq<byte>, e: C.Element, out: Cbb, squash: bool, depth: nat,
                                ghost chain: seq<Cbb>, ghost store: Buffer) returns (ok: bool)
    requires Linked(chain, store) && out == chain[|chain| - 1]
    requires C.AnyElement(s, false) == Some(e) && !IsIndefinite(e)
    modifies out, store, store.buf
    ensures store.Valid() && store.Limit() == old(store.Limit()) && (store.buf == old(store.buf) || fresh(store.buf))
    ensures ok ==> out.isTopLevel == old(out.isTopLevel)
    ensures var r := ConvertOne(s, e, squash, depth);
            && (ok ==> r.Done? && r.rest == e.rest && store.Content() == old(store.Content()) + r.out && Linked(chain, store))
            && (r.Done? && |old(store.Content())| + |r.out| <= old(store.Limit()) ==> ok)
    decreases |s|, 0
  {
    hide LinkAt, Convert, ConvertOne, IsIndefinite, Emit, C.AnyElement;
    ghost var b := store.Content();
    ghost var inside := InsideDefinite(e, depth);
    OneDefinite(s, e, squash, depth);
    var inner;
    ghost var innerChain;
    ok, inner, innerChain := OpenOutput(out, squash, e.tag, chain, store);
    if !ok {
      return;
    }
    ok := FillDefinite(e, inner, depth, innerChain, store);
    if ok {
      ok := CloseOutput(out, squash, e.tag, inner, chain, store, b, inside.out);
    }
  }

  /** What the contents of an element of definite length become. */
  ghost function InsideDefinite(e: C.Element, depth: nat): Conversion
    requires 0 < e.headerLen <= |e.bytes|
  {
    if C.Constructed(e.tag) then Convert(e.Contents(), false, false, depth + 1) else Done(e.Contents(), [])
  }

  lemma OneDefinite(s: seq<byte>, e: C.Element, squash: bool, depth: nat)
    requires C.AnyElement(s, false) == Some(e) && !IsIndefinite(e)
    ensures var inside := InsideDefinite(e, depth);
            && ConvertOne(s, e, squash, depth) ==
               (if inside.Done? && Emit(squash, e.tag, inside.out).Some?
                then Done(Emit(squash, e.tag, inside.out).value, e.rest) else Fail)
            && (C.Constructed(e.tag) ==> |e.Contents()| < |s|)
  {
  }

  method FillDefinite(e: C.Element, inner: Cbb, depth: nat, ghost chain: seq<Cbb>, ghost store: Buffer) returns (ok: bool)
    requires Linked(chain, store) && inner == chain[|chain| - 1] && 0 < e.headerLen <= |e.bytes|
    modifies inner, store, store.buf
    ensures store.Valid() && store.Limit() == old(store.Limit()) && (store.buf == old(store.buf) || fresh(store.buf))
    ensures ok ==> inner.isTopLevel == old(inner.isTopLevel)
    ensures var r := InsideDefinite(e, depth);
            && (ok ==> r.Done? && store.Content() == old(store.Content()) + r.out && Linked(chain, store))
            && (r.Done? && |old(store.Content())| + |r.out| <= old(store.Limit()) ==> ok)
    decreases |e.Contents()|, 4
  {
    hide LinkAt, Convert;
    if C.Constructed(e.tag) {
      var sub := new C.Cbs(e.Contents());
      ok := ConvertIndefinite(sub, inner, false, false, depth + 1, chain, store);
    } else {
      ok := AddContents(inner, e.Contents(), chain, store);
    }
  }

  method AddContents(inner: Cbb, bytes: seq<byte>, ghost chain: seq<Cbb>, ghost store: Buffer) returns (ok: bool)
    requires Linked(chain, store) && inner == chain[|chain| - 1]
    modifies inner, store, store.buf
    ensures store.Valid() && store.Limit() == old(store.Limit()) && (store.buf == old(store.buf) || fresh(store.buf))
    ensures ok ==> inner.isTopLevel == old(inner.isTopLevel)
    ensures ok ==> Linked(chain, store) && store.Content() == old(store.Content()) + bytes
    ensures |old(store.Content())| + |bytes| <= old(store.Limit()) ==> ok
  {
    ghost var i := |chain| - 1;
    NoPendings(chain, i);
    assert chain[i..] == [inner];
    ok := inner.AddBytes(bytes, chain, i, store);
  }

  /** The conversion half of CBS_asn1_indefinite_to_definite: it succeeds exactly when the recursion does,
      its output fits in memory and nothing would be overwritten, and then the output is DER all the way
      down. */
  method ConvertWhole(bytes: seq<byte>, outData: OutPointer) returns (ok: bool, out: seq<byte>)
    requires |bytes| <= SIZE_MAX && outData != NullPointer
    ensures var r := Convert(bytes, false, false, 0);
            && (ok <==> r.Done? && |r.out| <= SIZE_MAX && outData == ToNull)
            && (ok ==> out == r.out && StrictAll(out))
  {
    out := [];
    var store := new Buffer(|bytes|);
    var cbb := new Cbb(store, true);
    var input := new C.Cbs(bytes);
    ghost var chain := [cbb];
    assert LinkAt(chain, store, 0);
    ok := ConvertIndefinite(input, cbb, false, false, 0, chain, store);
    if ok {
      assert [] + Convert(bytes, false, false, 0).out == Convert(bytes, false, false, 0).out;
      NoPendings(chain, 0);
      assert chain[0..] == chain;
      ConvertStrict(bytes, false, 0);
      ok, out := Finish(cbb, outData, ToNull, chain, store);
    }
  }
}
