/**
  Conversion keeps the meaning: whatever mixture of definite and indefinite lengths a tree of elements is
  written with, the converter produces the definite encoding of that tree.
 */
module BerTree {
  import opened Bytes
  import opened Cbs
  import opened Der
  import opened Ber

  /** BER: constructed elements choose between a definite and an indefinite length (section 8.1.3 of X.690). */
  datatype Tree = Primitive(tag: byte, contents: seq<byte>)
                | Definite(tag: byte, kids: seq<Tree>)
                | Indefinite(tag: byte, kids: seq<Tree>)

  const END_OF_CONTENTS: seq<byte> := [0, 0]

  // ----- Written in BER -----

  /** Tags and lengths that can be written; no primitive element that reads as an end-of-contents marker. */
  ghost predicate WellFormed(t: Tree) {
    && t.tag % 32 != 31
    && match t
       case Primitive(tag, contents) => tag % 64 < 32 && |contents| <= 0xffff_fffe && !(tag == 0 && contents == [])
       case Definite(tag, kids) =>
         tag % 64 >= 32 && AllWellFormed(kids) && |WrittenAll(kids)| <= 0xffff_fffe
       case Indefinite(tag, kids) => tag % 64 >= 32 && AllWellFormed(kids)
  }

  ghost predicate AllWellFormed(ts: seq<Tree>) {
    ts == [] || (WellFormed(ts[0]) && AllWellFormed(ts[1..]))
  }

  function Written(t: Tree): seq<byte> {
    match t
    case Primitive(tag, contents) => WithLength(tag, contents)
    case Definite(tag, kids) => WithLength(tag, WrittenAll(kids))
    case Indefinite(tag, kids) => [tag, 0x80] + WrittenAll(kids) + END_OF_CONTENTS
  }

  function WrittenAll(ts: seq<Tree>): seq<byte> {
    if ts == [] then [] else Written(ts[0]) + WrittenAll(ts[1..])
  }

  function WithLength(tag: byte, contents: seq<byte>): seq<byte> {
    if |contents| <= MAX_CONTENTS then Tlv(tag, contents) else []
  }

  // ----- Meant -----

  /** Is an element of indefinite length a string in fragments?  By its tag, or, for a context-specific tag,
      by a first fragment that is not empty. */
  predicate InFragments(tag: byte, kids: seq<Tree>) {
    || OtherUniversal(tag)
    || (128 <= tag < 192 && kids != [] && OtherUniversal(kids[0].tag) && NotEmpty(kids[0]))
  }

  /** The tag of the same class and number without the constructed bit. */
  function Cleared(tag: byte): byte { tag / 64 * 64 + tag % 32 }

  /** A tag of the universal class that is neither SEQUENCE nor SET. */
  predicate OtherUniversal(tag: byte) {
    tag < 64 && tag % 32 != 16 && tag % 32 != 17
  }

  predicate NotEmpty(t: Tree) {
    match t
    case Primitive(_, contents) => contents != []
    case Definite(_, kids) => kids != []
    case Indefinite(_, _) => false
  }

  /** The definite encoding of a tree, or only its contents for a fragment; None when a length is too large. */
  function Meant(t: Tree, fragment: bool): Option<seq<byte>> {
    match t
    case Primitive(tag, contents) => Emit(fragment, tag, contents)
    case Definite(tag, kids) =>
      (match MeantAll(kids, false)
       case None => None
       case Some(inner) => Emit(fragment, tag, inner))
    case Indefinite(tag, kids) =>
      var fragments := InFragments(tag, kids);
      match MeantAll(kids, fragments)
      case None => None
      case Some(inner) => Emit(fragment, if fragments then Cleared(tag) else tag, inner)
  }

  function MeantAll(ts: seq<Tree>, fragment: bool): Option<seq<byte>> {
    if ts == [] then Some([])
    else
      match Meant(ts[0], fragment)
      case None => None
      case Some(first) =>
        match MeantAll(ts[1..], fragment)
        case None => None
        case Some(others) => Some(first + others)
  }

  function Height(t: Tree): nat {
    match t
    case Primitive(_, _) => 0
    case Definite(_, kids) => 1 + HeightAll(kids)
    case Indefinite(_, kids) => 1 + HeightAll(kids)
  }

  function HeightAll(ts: seq<Tree>): nat {
    if ts == [] then 0
    else
      var first, others := Height(ts[0]), HeightAll(ts[1..]);
      if first > others then first else others
  }

  // ----- The converter maps one to the other -----

  function Outcome(meant: Option<seq<byte>>, rest: seq<byte>): Conversion {
    match meant
    case None => Fail
    case Some(out) => Done(out, rest)
  }

  /** The first element read off a written tree. */
  ghost function Head(t: Tree, rest: seq<byte>): Element
    requires WellFormed(t)
  {
    match t
    case Primitive(tag, contents) => Element(tag, 2 + LengthOctets(|contents|), Tlv(tag, contents), rest)
    case Definite(tag, kids) => Element(tag, 2 + LengthOctets(|WrittenAll(kids)|), Tlv(tag, WrittenAll(kids)), rest)
    case Indefinite(tag, kids) => Element(tag, 2, [tag, 0x80], WrittenAll(kids) + END_OF_CONTENTS + rest)
  }

  lemma HeadRead(t: Tree, rest: seq<byte>)
    requires WellFormed(t)
    ensures AnyElement(Written(t) + rest, false) == Some(Head(t, rest))
    ensures !IsEoc(Head(t, rest)) && (IsIndefinite(Head(t, rest)) <==> t.Indefinite?)
    ensures t.Primitive? ==> Head(t, rest).Contents() == t.contents
    ensures t.Definite? ==> Head(t, rest).Contents() == WrittenAll(t.kids)
    ensures |Head(t, rest).bytes| > Head(t, rest).headerLen <==> NotEmpty(t)
  {
    hide AnyElement, Tlv;
    match t
    case Primitive(tag, contents) =>
      ParseDer(tag, contents, rest, false);
      ShortElement(tag, contents);
    case Definite(tag, kids) =>
      ParseDer(tag, WrittenAll(kids), rest, false);
      ShortElement(tag, WrittenAll(kids));
      WrittenNotEmpty(kids);
    case Indefinite(tag, kids) =>
      IndefiniteRead(tag, WrittenAll(kids) + END_OF_CONTENTS + rest);
      assert Written(t) + rest == [tag, 0x80] + (WrittenAll(kids) + END_OF_CONTENTS + rest);
  }

  lemma ShortElement(tag: byte, contents: seq<byte>)
    requires |contents| <= MAX_CONTENTS
    ensures contents == [] ==> Tlv(tag, contents) == [tag, 0]
  {
  }

  lemma IndefiniteRead(tag: byte, after: seq<byte>)
    requires tag % 32 != 31 && Constructed(tag)
    ensures AnyElement([tag, 0x80] + after, false) == Some(Element(tag, 2, [tag, 0x80], after))
  {
    var s := [tag, 0x80] + after;
    assert s[..2] == [tag, 0x80] && s[2..] == after;
  }

  lemma ElementsEnd(fragment: bool, closed: bool, depth: nat, rest: seq<byte>)
    requires !closed ==> rest == []
    ensures ConvertElements((if closed then END_OF_CONTENTS else []) + rest, fragment, closed, depth) == Done([], rest)
  {
    if closed { EndRead(rest); }
  }

  lemma WrittenNotEmpty(ts: seq<Tree>)
    requires AllWellFormed(ts)
    ensures WrittenAll(ts) == [] <==> ts == []
  {
  }

  lemma EndRead(rest: seq<byte>)
    ensures AnyElement(END_OF_CONTENTS + rest, false) == Some(Element(0, 2, [0, 0], rest))
  {
    var s := END_OF_CONTENTS + rest;
    assert s[..2] == [0, 0] && s[2..] == rest;
  }

  /** Looking ahead at the first fragment decides as the tree does. */
  lemma LookAhead(tag: byte, kids: seq<Tree>, rest: seq<byte>)
    requires Constructed(tag) && AllWellFormed(kids)
    ensures SquashChildren(tag, WrittenAll(kids) + END_OF_CONTENTS + rest) == Some(InFragments(tag, kids))
  {
    hide AnyElement, WellFormed, Written, SquashChildren, NotEmpty, IsPrimitiveType, OtherUniversal, Head;
    SameClass(tag);
    if kids != [] { SameClass(kids[0].tag); }
    var after := WrittenAll(kids) + END_OF_CONTENTS + rest;
    if kids == [] {
      EndRead(rest);
      assert after == END_OF_CONTENTS + rest;
      SquashBy(tag, after, Element(0, 2, [0, 0], rest));
    } else {
      var more := WrittenAll(kids[1..]) + END_OF_CONTENTS + rest;
      HeadRead(kids[0], more);
      HeadTag(kids[0], more);
      assert after == Written(kids[0]) + more;
      SquashBy(tag, after, Head(kids[0], more));
    }
  }

  /** The tests of the converter on the bits of a tag, as ranges of tags. */
  lemma SameClass(tag: byte)
    ensures IsPrimitiveType(tag) <==> OtherUniversal(tag)
    ensures ContextSpecific(tag) <==> 128 <= tag < 192
    ensures MakePrimitive(tag) == Cleared(tag)
  {
  }

  lemma SquashBy(tag: byte, after: seq<byte>, inner: Element)
    requires Constructed(tag) && AnyElement(after, false) == Some(inner)
    ensures SquashChildren(tag, after) ==
              Some(IsPrimitiveType(tag)
                   || (ContextSpecific(tag) && |inner.bytes| > inner.headerLen && IsPrimitiveType(inner.tag)))
  {
  }

  lemma HeadTag(t: Tree, rest: seq<byte>)
    requires WellFormed(t)
    ensures Head(t, rest).tag == t.tag
  {
  }

  /** For every forest, in every mixture of forms: the converter's output is its definite encoding, and it
      refuses only what has none. */
  lemma {:induction false} ConvertsForest(ts: seq<Tree>, fragment: bool, closed: bool, depth: nat, rest: seq<byte>)
    requires AllWellFormed(ts) && depth + HeightAll(ts) <= 2048
    requires !closed ==> rest == []
    ensures ConvertElements(WrittenAll(ts) + (if closed then END_OF_CONTENTS else []) + rest, fragment, closed, depth) ==
              Outcome(MeantAll(ts, fragment), rest)
    decreases ts
  {
    hide ConvertElements, ConvertOne, AnyElement, WellFormed, Written, WrittenAll, Meant, Head, IsEoc;
    FirstWritten(ts);
    var end := if closed then END_OF_CONTENTS else [];
    if ts == [] {
      ElementsEnd(fragment, closed, depth, rest);
      assert [] + end + rest == end + rest;
    } else {
      var t, more := ts[0], WrittenAll(ts[1..]) + end + rest;
      ConvertsTree(t, fragment, depth, more);
      ConvertsForest(ts[1..], fragment, closed, depth, rest);
      HeadRead(t, more);
      ElementsStep(Written(t) + more, Head(t, more), fragment, closed, depth);
      FourParts(Written(t), WrittenAll(ts[1..]), end, rest);
    }
  }

  lemma FirstWritten(ts: seq<Tree>)
    ensures WrittenAll(ts) == if ts == [] then [] else Written(ts[0]) + WrittenAll(ts[1..])
  {
  }

  lemma FourParts(a: seq<byte>, b: seq<byte>, c: seq<byte>, d: seq<byte>)
    ensures a + b + c + d == a + (b + c + d)
  {
  }

  lemma {:induction false} ConvertsTree(t: Tree, fragment: bool, depth: nat, rest: seq<byte>)
    requires WellFormed(t) && depth + Height(t) <= 2048
    ensures AnyElement(Written(t) + rest, false) == Some(Head(t, rest))
    ensures ConvertOne(Written(t) + rest, Head(t, rest), fragment, depth) == Outcome(Meant(t, fragment), rest)
    decreases t
  {
    hide ConvertElements, AnyElement, Written, SquashChildren, InFragments, IsIndefinite, IsEoc, MakePrimitive, Cleared, Emit;
    HeadRead(t, rest);
    SameClass(t.tag);
    match t
    case Primitive(tag, contents) =>
    case Definite(tag, kids) =>
      ConvertsForest(kids, false, false, depth + 1, []);
      assert WrittenAll(kids) + [] + [] == WrittenAll(kids);
    case Indefinite(tag, kids) =>
      LookAhead(tag, kids, rest);
      ConvertsForest(kids, InFragments(tag, kids), true, depth + 1, rest);
  }

  /** The same at the top, where the source's entry point starts. */
  lemma ConvertsMeaning(ts: seq<Tree>)
    requires AllWellFormed(ts) && HeightAll(ts) <= 2048
    ensures Convert(WrittenAll(ts), false, false, 0) == Outcome(MeantAll(ts, false), [])
  {
    ConvertsForest(ts, false, false, 0, []);
    assert WrittenAll(ts) + [] + [] == WrittenAll(ts);
  }

  /** A SEQUENCE or SET of indefinite length keeps its elements whole, each with its own header. */
  lemma KeepsElements(tag: byte, kids: seq<Tree>)
    requires tag == 0x30 || tag == 0x31
    requires MeantAll(kids, false).Some? && |MeantAll(kids, false).value| <= 0xffff_fffe
    ensures Meant(Indefinite(tag, kids), false) == Some(Tlv(tag, MeantAll(kids, false).value))
  {
  }

  /** The converter on such a SET. */
  lemma SetConverted()
    ensures Convert([0x31, 0x80, 0x02, 0x01, 0x05, 0, 0], false, false, 0) == Done([0x31, 0x03, 0x02, 0x01, 0x05], [])
  {
    hide Convert, Meant, MeantAll, Written, WrittenAll, WellFormed, AllWellFormed, Height, HeightAll;
    var t := SmallSet();
    SmallSetFacts();
    OneTree(t);
    ConvertsMeaning([t]);
  }

  function SmallSet(): Tree { Indefinite(0x31, [Primitive(0x02, [0x05])]) }

  lemma SmallSetFacts()
    ensures var t := SmallSet();
            && WellFormed(t) && Height(t) == 1 && Written(t) == [0x31, 0x80, 0x02, 0x01, 0x05, 0, 0]
            && Meant(t, false) == Some([0x31, 0x03, 0x02, 0x01, 0x05])
  {
    hide Emit, Tlv;
    var leaf := Primitive(0x02, [0x05]);
    SmallTlvs();
    OneTree(leaf);
    KeepsElements(0x31, [leaf]);
  }

  lemma SmallTlvs()
    ensures Tlv(0x02, [0x05]) == [0x02, 0x01, 0x05]
    ensures Tlv(0x31, [0x02, 0x01, 0x05]) == [0x31, 0x03, 0x02, 0x01, 0x05]
    ensures Emit(false, 0x02, [0x05]) == Some([0x02, 0x01, 0x05])
  {
  }

  lemma OneTree(t: Tree)
    ensures WrittenAll([t]) == Written(t)
    ensures AllWellFormed([t]) <==> WellFormed(t)
    ensures HeightAll([t]) == Height(t)
    ensures MeantAll([t], false) == Meant(t, false)
  {
    hide Written, WellFormed, Height, Meant;
    assert [t][1..] == [];
    assert Written(t) + WrittenAll([]) == Written(t);
    if Meant(t, false).Some? { assert Meant(t, false).value + [] == Meant(t, false).value; }
  }

  // ----- Definite parts of converted input -----

  ghost function Around(body: seq<byte>): seq<byte>
    requires |body| + 6 <= MAX_CONTENTS
  {
    [0x30, 0x80] + (Tlv(0x30, body) + END_OF_CONTENTS)
  }

  /** A definite element inside an indefinite one: it comes through unchanged exactly when its contents are
      convertible, else the whole conversion fails. */
  lemma DefinitePart(body: seq<byte>)
    requires StrictAll(body) && |body| + 6 <= MAX_CONTENTS
    ensures Convert(Around(body), false, false, 0) ==
            if Convertible(body, 2) then Done(Tlv(0x30, Tlv(0x30, body)), []) else Fail
  {
    hide AnyElement, StrictAll, Convertible, Tlv, ConvertElements, Convert;
    var inside := Tlv(0x30, body) + END_OF_CONTENTS;
    var s := Around(body);
    IndefiniteRead(0x30, inside);
    PartInside(body);
    var e := AnyElement(s, false).value;
    ElementsStep(s, e, false, false, 0);
    ElementsStop([], false, false, 0);
    assert Convert(s, false, false, 0) == ConvertElements(s, false, false, 0) by { Shallow(s, false, 0); }
    assert Tlv(0x30, Tlv(0x30, body)) + [] == Tlv(0x30, Tlv(0x30, body));
  }

  lemma Shallow(s: seq<byte>, closed: bool, depth: nat)
    requires depth <= MAX_DEPTH
    ensures Convert(s, false, closed, depth) == ConvertElements(s, false, closed, depth)
  {
  }

  lemma PartInside(body: seq<byte>)
    requires StrictAll(body) && |body| + 6 <= MAX_CONTENTS
    ensures Convert(Tlv(0x30, body) + END_OF_CONTENTS, false, true, 1) ==
            if Convertible(body, 2) then Done(Tlv(0x30, body), []) else Fail
  {
    hide AnyElement, StrictAll, Convertible, Tlv, ConvertElements, Convert;
    var inside := Tlv(0x30, body) + END_OF_CONTENTS;
    ParseDer(0x30, body, END_OF_CONTENTS, false);
    var e := AnyElement(inside, false).value;
    ShortElement(0x30, body);
    ElementsStep(inside, e, false, true, 1);
    DefiniteIdentity(body, 2);
    ElementsEnd(false, true, 1, []);
    assert Convert(inside, false, true, 1) == ConvertElements(inside, false, true, 1) by { Shallow(inside, true, 1); }
    assert END_OF_CONTENTS + [] == END_OF_CONTENTS && Tlv(0x30, body) + [] == Tlv(0x30, body);
  }

  /** Such a part may be valid and yet make the conversion fail: its empty element with tag zero is taken
      for an end-of-contents marker. */
  lemma EmptyTagZeroRefused()
    ensures StrictAll([0, 0])
    ensures Convert([0x30, 0x80, 0x30, 0x02, 0, 0, 0, 0], false, false, 0) == Fail
  {
    var e := Element(0, 2, [0, 0], []);
    assert [0, 0][..2] == [0, 0] && [0, 0][2..] == [];
    assert AnyElement([0, 0], true) == Some(e);
    assert Tlv(0x30, [0, 0]) == [0x30, 2, 0, 0];
    assert Around([0, 0]) == [0x30, 0x80, 0x30, 2, 0, 0, 0, 0];
    DefinitePart([0, 0]);
  }
}
