/**
  Building and parsing back: any tree of ASN.1 elements and of u8-, u16- or u24-prefixed vectors, written
  through nested builders and read through the strict readers.
 */
module Asn1Tree {
  import opened Bytes
  import opened Der
  import opened Cbb
  import Cbs

  datatype Node = Raw(bytes: seq<byte>)
                | Element(tag: nat, kids: seq<Node>)
                | Prefixed(lenLen: nat, kids: seq<Node>)

  // ----- What a tree is as bytes -----

  function Wrap(n: Node, contents: seq<byte>): Option<seq<byte>>
    requires !n.Raw?
  {
    if n.Element? then
      if n.tag <= 255 && n.tag % 32 != 31 && |contents| <= 0xffff_fffe then Some(Tlv(n.tag, contents)) else None
    else
      if 1 <= n.lenLen <= 3 && |contents| < Pow256(n.lenLen) then Some(BigEndian(|contents|, n.lenLen) + contents) else None
  }

  /** None when some builder call has to refuse. */
  function Encode(n: Node): Option<seq<byte>> {
    match n
    case Raw(bytes) => Some(bytes)
    case _ =>
      match EncodeAll(n.kids)
      case None => None
      case Some(contents) => Wrap(n, contents)
  }

  function EncodeAll(nodes: seq<Node>): Option<seq<byte>> {
    if nodes == [] then Some([])
    else
      match Encode(nodes[0])
      case None => None
      case Some(first) =>
        match EncodeAll(nodes[1..])
        case None => None
        case Some(others) => Some(first + others)
  }

  // ----- Building -----

  /** Appends `nodes` to the contents of the innermost builder `c`. */
  method BuildAll(c: Cbb, nodes: seq<Node>, ghost chain: seq<Cbb>, ghost store: Buffer) returns (ok: bool)
    requires Linked(chain, store) && c == chain[|chain| - 1]
    modifies c, store, store.buf
    ensures store.Valid() && store.Limit() == old(store.Limit()) && (store.buf == old(store.buf) || fresh(store.buf))
    ensures ok ==> Linked(chain, store) && c.isTopLevel == old(c.isTopLevel)
    ensures ok ==> EncodeAll(nodes).Some? && store.Content() == old(store.Content()) + EncodeAll(nodes).value
    ensures EncodeAll(nodes).Some? && |old(store.Content())| + |EncodeAll(nodes).value| <= old(store.Limit()) ==> ok
    decreases nodes, 1
  {
    if nodes == [] {
      return true;
    }
    ok := BuildOne(c, nodes[0], chain, store);
    if ok {
      ok := BuildAll(c, nodes[1..], chain, store);
    }
  }

  method BuildOne(c: Cbb, n: Node, ghost chain: seq<Cbb>, ghost store: Buffer) returns (ok: bool)
    requires Linked(chain, store) && c == chain[|chain| - 1]
    modifies c, store, store.buf
    ensures store.Valid() && store.Limit() == old(store.Limit()) && (store.buf == old(store.buf) || fresh(store.buf))
    ensures ok ==> Linked(chain, store) && c.isTopLevel == old(c.isTopLevel)
    ensures ok ==> Encode(n).Some? && store.Content() == old(store.Content()) + Encode(n).value
    ensures Encode(n).Some? && |old(store.Content())| + |Encode(n).value| <= old(store.Limit()) ==> ok
    decreases n, 0
  {
    ghost var i, b := |chain| - 1, store.Content();
    assert chain[..i + 1] == chain;
    NoPendings(chain, i);
    match n
    case Raw(bytes) =>
      ok := c.AddBytes(bytes, chain, i, store);
    case Element(tag, kids) =>
      var child;
      ok, child := c.AddAsn1(tag, chain, i, store);
      if ok {
        ok := BuildContents(c, child, n, kids, chain + [child], store, b);
      }
    case Prefixed(lenLen, kids) =>
      if lenLen < 1 || lenLen > 3 {
        return false;
      }
      var child;
      ok, child := c.AddLengthPrefixed(lenLen, chain, i, store);
      if ok {
        ok := BuildContents(c, child, n, kids, chain + [child], store, b);
      }
  }

  /** What `c` holds right after opening a child for `n` behind `b`. */
  ghost predicate Opened(n: Node, b: seq<byte>, content: seq<byte>, p: Pending) {
    match n
    case Raw(_) => false
    case Element(tag, _) => tag <= 255 && tag % 32 != 31 && content == b + [tag, 0] && p == Pending(|b| + 1, 1, true)
    case Prefixed(lenLen, _) => 1 <= lenLen <= 3 && content == b + BigEndian(0, lenLen) && p == Pending(|b|, lenLen, false)
  }

  /** Fills the child just opened and closes it. */
  method BuildContents(c: Cbb, child: Cbb, n: Node, kids: seq<Node>, ghost chain: seq<Cbb>,
                       ghost store: Buffer, ghost b: seq<byte>)
    returns (ok: bool)
    requires Linked(chain, store) && |chain| >= 2 && c == chain[|chain| - 2] && child == chain[|chain| - 1]
    requires !n.Raw? && kids == n.kids && Opened(n, b, store.Content(), c.AsPending())
    modifies c, child, store, store.buf
    ensures store.Valid() && store.Limit() == old(store.Limit()) && (store.buf == old(store.buf) || fresh(store.buf))
    ensures ok ==> Linked(chain[..|chain| - 1], store) && c.isTopLevel == old(c.isTopLevel)
    ensures ok ==> Encode(n).Some? && store.Content() == b + Encode(n).value
    ensures Encode(n).Some? && |b| + |Encode(n).value| <= old(store.Limit()) ==> ok
    decreases kids, 2
  {
    ghost var i := |chain| - 2;
    ok := BuildAll(child, kids, chain, store);
    if !ok {
      return;
    }
    OnePending(chain, i);
    CloseOpened(n, b, EncodeAll(kids).value, store.Content(), c.AsPending());
    assert {c, child} == set x | x in chain[i..];
    ok := c.Flush(chain, i, store);
  }

  /** The encoding is never shorter than its contents. */
  lemma CloseOpened(n: Node, b: seq<byte>, contents: seq<byte>, all: seq<byte>, p: Pending)
    requires exists start :: Opened(n, b, start, p) && all == start + contents
    ensures match Wrap(n, contents)
            case Some(e) => CloseAll(all, [p]) == Some(b + e) && |all| <= |b + e|
            case None => CloseAll(all, [p]) == None
  {
    match n
    case Element(tag, _) => CloseAsn1(b, tag, contents);
    case Prefixed(lenLen, _) => ClosePrefix(b, lenLen, contents);
  }

  // ----- Reading back -----

  /** What a reader has to know beforehand: tags, kinds of prefix, sizes of raw runs. */
  datatype Shape = RawShape(size: nat)
                 | ElementShape(tag: byte, kids: seq<Shape>)
                 | PrefixedShape(lenLen: nat, kids: seq<Shape>)

  function ShapeOf(n: Node): Shape
    requires Encode(n).Some?
  {
    match n
    case Raw(bytes) => RawShape(|bytes|)
    case Element(tag, kids) => ElementShape(tag, ShapesOf(kids))
    case Prefixed(lenLen, kids) => PrefixedShape(lenLen, ShapesOf(kids))
  }

  function ShapesOf(nodes: seq<Node>): seq<Shape>
    requires EncodeAll(nodes).Some?
  {
    if nodes == [] then [] else [ShapeOf(nodes[0])] + ShapesOf(nodes[1..])
  }

  datatype Read = Read(nodes: seq<Node>, rest: seq<byte>)

  /** One item in front of `s`; contents must be used up by the shapes inside. */
  function Recover(s: seq<byte>, shape: Shape): Option<Read>
    decreases shape, 0
  {
    match shape
    case RawShape(size) => if size <= |s| then Some(Read([Raw(s[..size])], s[size..])) else None
    case ElementShape(tag, kids) =>
      (match Cbs.AnyElement(s, true)
       case None => None
       case Some(e) =>
         if e.tag != tag then None
         else
           match RecoverAll(e.Contents(), kids)
           case None => None
           case Some(r) => if r.rest == [] then Some(Read([Element(tag, r.nodes)], e.rest)) else None)
    case PrefixedShape(lenLen, kids) =>
      if !(1 <= lenLen <= 4 && lenLen <= |s|) then None
      else
        var n := Value(s[..lenLen]);
        if lenLen + n > |s| then None
        else
          match RecoverAll(s[lenLen..lenLen + n], kids)
          case None => None
          case Some(r) => if r.rest == [] then Some(Read([Prefixed(lenLen, r.nodes)], s[lenLen + n..])) else None
  }

  function RecoverAll(s: seq<byte>, shapes: seq<Shape>): Option<Read>
    decreases shapes, 1
  {
    if shapes == [] then Some(Read([], s))
    else
      match Recover(s, shapes[0])
      case None => None
      case Some(first) =>
        match RecoverAll(first.rest, shapes[1..])
        case None => None
        case Some(others) => Some(Read(first.nodes + others.nodes, others.rest))
  }

  lemma {:induction false} RecoverEncoded(n: Node, rest: seq<byte>)
    requires Encode(n).Some?
    ensures Recover(Encode(n).value + rest, ShapeOf(n)) == Some(Read([n], rest))
    decreases n, 0
  {
    var s := Encode(n).value + rest;
    match n {
      case Raw(bytes) =>
        assert s[..|bytes|] == bytes && s[|bytes|..] == rest;
      case Element(tag, kids) =>
        var contents := EncodeAll(kids).value;
        RecoverAllEncoded(kids, []);
        assert contents + [] == contents;
        ParseDer(tag, contents, rest, true);
      case Prefixed(lenLen, kids) =>
        var contents := EncodeAll(kids).value;
        RecoverAllEncoded(kids, []);
        assert contents + [] == contents;
        ValueOfBigEndian(|contents|, lenLen);
        assert s[..lenLen] == BigEndian(|contents|, lenLen);
        assert s[lenLen..lenLen + |contents|] == contents;
        assert s[lenLen + |contents|..] == rest;
    }
  }

  /** What was built is what is read: same tags, same contents, same nesting. */
  lemma {:induction false} RecoverAllEncoded(nodes: seq<Node>, rest: seq<byte>)
    requires EncodeAll(nodes).Some?
    ensures RecoverAll(EncodeAll(nodes).value + rest, ShapesOf(nodes)) == Some(Read(nodes, rest))
    decreases nodes, 1
  {
    if nodes == [] {
      assert [] + rest == rest;
    } else {
      var first, others := Encode(nodes[0]).value, EncodeAll(nodes[1..]).value;
      assert first + others + rest == first + (others + rest);
      RecoverEncoded(nodes[0], others + rest);
      RecoverAllEncoded(nodes[1..], rest);
      assert [nodes[0]] + nodes[1..] == nodes;
      assert ShapesOf(nodes)[1..] == ShapesOf(nodes[1..]);
    }
  }

  /** The readers, one item after another. */
  method ReadAll(cbs: Cbs.Cbs, shapes: seq<Shape>) returns (ok: bool, nodes: seq<Node>)
    modifies cbs
    ensures RecoverAll(old(cbs.data), shapes) == if ok then Some(Read(nodes, cbs.data)) else None
    decreases shapes, 1
  {
    nodes := [];
    if shapes == [] {
      return true, nodes;
    }
    var first, others;
    ok, first := ReadOne(cbs, shapes[0]);
    if !ok {
      return;
    }
    ok, others := ReadAll(cbs, shapes[1..]);
    nodes := first + others;
  }

  method ReadOne(cbs: Cbs.Cbs, shape: Shape) returns (ok: bool, nodes: seq<Node>)
    modifies cbs
    ensures Recover(old(cbs.data), shape) == if ok then Some(Read(nodes, cbs.data)) else None
    decreases shape, 0
  {
    nodes := [];
    match shape
    case RawShape(size) =>
      var bytes;
      ok, bytes := cbs.Get(size);
      nodes := [Raw(bytes)];
    case ElementShape(tag, kids) =>
      var contents, inner;
      ok, contents := cbs.GetAsn1(tag);
      if !ok {
        return;
      }
      var sub := new Cbs.Cbs(contents);
      ok, inner := ReadAll(sub, kids);
      ok := ok && |sub.data| == 0;
      nodes := [Element(tag, inner)];
    case PrefixedShape(lenLen, kids) =>
      var contents, inner;
      ghost var s := cbs.data;
      ok, contents := cbs.GetLengthPrefixed(lenLen);
      if !ok {
        return;
      }
      assert s[lenLen..lenLen + |contents|] == contents && s[lenLen + |contents|..] == cbs.data;
      var sub := new Cbs.Cbs(contents);
      ok, inner := ReadAll(sub, kids);
      ok := ok && |sub.data| == 0;
      nodes := [Prefixed(lenLen, inner)];
  }

  /** Nested build, then parse: a tree is accepted exactly when it has an encoding of a representable
      size; the finished bytes are that encoding; and the readers recover the tree from them. */
  method BuildThenParse(nodes: seq<Node>, initialCapacity: nat, trailer: seq<byte>)
    returns (ok: bool, bytes: seq<byte>, parsed: bool, recovered: seq<Node>, left: seq<byte>)
    requires initialCapacity <= SIZE_MAX
    ensures ok <==> EncodeAll(nodes).Some? && |EncodeAll(nodes).value| <= SIZE_MAX
    ensures ok ==> EncodeAll(nodes) == Some(bytes)
    ensures ok ==> parsed && recovered == nodes && left == trailer
  {
    bytes, parsed, recovered, left := [], false, [], [];
    var store := new Buffer(initialCapacity);
    var cbb := new Cbb(store, true);
    ghost var chain := [cbb];
    assert LinkAt(chain, store, 0);
    ok := BuildAll(cbb, nodes, chain, store);
    if !ok {
      return;
    }
    assert [] + EncodeAll(nodes).value == EncodeAll(nodes).value;
    NoPendings(chain, 0);
    assert chain[0..] == chain;
    ok, bytes := Finish(cbb, ToNull, ToNull, chain, store);
    if !ok {
      return;
    }
    var cbs := new Cbs.Cbs(bytes + trailer);
    RecoverAllEncoded(nodes, trailer);
    parsed, recovered := ReadAll(cbs, ShapesOf(nodes));
    left := cbs.data;
  }
}
