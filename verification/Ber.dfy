/**
  cbs_convert_indefinite: BER with indefinite lengths in, definite-length DER out.  `Convert` is the
  recursion with its nested output builders replaced by byte strings; what it produces is judged by the
  strict reader, which shares nothing with it but the reading of one element.
 */
module Ber {
  import opened Bytes
  import opened Cbs
  import opened Der

  const MAX_DEPTH := 2048

  predicate IsPrimitiveType(tag: byte) {
    tag / 64 == 0 && tag % 32 != 0x10 && tag % 32 != 0x11
  }

  predicate IsEoc(e: Element) {
    e.headerLen == 2 && e.bytes == [0, 0]
  }

  /** A header of indefinite length: nothing but the header was taken, and it ends in 0x80. */
  predicate IsIndefinite(e: Element) {
    |e.bytes| == e.headerLen && 0 < e.headerLen && e.bytes[e.headerLen - 1] == 0x80
  }

  predicate ContextSpecific(tag: byte) { tag / 64 == 2 }

  /** The tag with its constructed bit cleared. */
  function MakePrimitive(tag: byte): (r: byte)
    ensures !Constructed(r) && r % 32 == tag % 32
  {
    if Constructed(tag) then tag - 0x20 else tag
  }

  /** Whether the elements inside an indefinite-length element are fragments to be concatenated; None when
      looking ahead fails. */
  function SquashChildren(tag: byte, after: seq<byte>): Option<bool> {
    if ContextSpecific(tag) && Constructed(tag) then
      match AnyElement(after, false)
      case None => None
      case Some(inner) =>
        Some(IsPrimitiveType(tag) || (|inner.bytes| > inner.headerLen && IsPrimitiveType(inner.tag)))
    else Some(IsPrimitiveType(tag))
  }

  datatype Conversion = Fail | Done(out: seq<byte>, rest: seq<byte>)

  /** One element's output: bare contents when squashing, an element otherwise. */
  function Emit(squash: bool, tag: byte, contents: seq<byte>): (r: Option<seq<byte>>)
    ensures r.Some? ==> |r.value| >= |contents| + (if squash then 0 else 2)
  {
    if squash then Some(contents)
    else if |contents| > MAX_CONTENTS then None
    else Some(Tlv(tag, contents))
  }

  function Prepend(piece: seq<byte>, r: Conversion): Conversion {
    match r
    case Fail => Fail
    case Done(out, rest) => Done(piece + out, rest)
  }

  function Convert(s: seq<byte>, squash: bool, lookingForEoc: bool, depth: nat): (r: Conversion)
    ensures r.Done? ==> |r.rest| <= |s| && (!lookingForEoc ==> r.rest == [])
    decreases |s|, 2
  {
    if depth > MAX_DEPTH then Fail else ConvertElements(s, squash, lookingForEoc, depth)
  }

  /** The loop: every turn consumes at least the two octets of a header. */
  function ConvertElements(s: seq<byte>, squash: bool, lookingForEoc: bool, depth: nat): (r: Conversion)
    ensures r.Done? ==> |r.rest| <= |s| && (!lookingForEoc ==> r.rest == [])
    decreases |s|, 1
  {
    if s == [] then
      if lookingForEoc then Fail else Done([], [])
    else
      match AnyElement(s, false)
      case None => Fail
      case Some(e) =>
        if IsEoc(e) then
          if lookingForEoc then Done([], e.rest) else Fail
        else
          match ConvertOne(s, e, squash, depth)
          case Fail => Fail
          case Done(piece, rest) => Prepend(piece, ConvertElements(rest, squash, lookingForEoc, depth))
  }

  /** One element that is not an end-of-contents marker: what it becomes, and the input after it. */
  function ConvertOne(s: seq<byte>, e: Element, squash: bool, depth: nat): (r: Conversion)
    requires AnyElement(s, false) == Some(e)
    ensures r.Done? ==> |r.rest| < |s|
    decreases |s|, 0
  {
    if IsIndefinite(e) then
      match SquashChildren(e.tag, e.rest)
      case None => Fail
      case Some(squashChildren) =>
        match Convert(e.rest, squashChildren, true, depth + 1)
        case Fail => Fail
        case Done(contents, rest) =>
          match Emit(squash, if squashChildren then MakePrimitive(e.tag) else e.tag, contents)
          case None => Fail
          case Some(piece) => Done(piece, rest)
    else
      var contents := if Constructed(e.tag) then Convert(e.Contents(), false, false, depth + 1)
                      else Done(e.Contents(), []);
      match contents
      case Fail => Fail
      case Done(inner, _) =>
        match Emit(squash, e.tag, inner)
        case None => Fail
        case Some(piece) => Done(piece, e.rest)
  }

  /** One turn of the loop. */
  lemma ElementsStep(s: seq<byte>, e: Element, fragment: bool, closed: bool, depth: nat)
    requires AnyElement(s, false) == Some(e) && !IsEoc(e)
    ensures ConvertElements(s, fragment, closed, depth) ==
              AfterFirst(ConvertOne(s, e, fragment, depth), fragment, closed, depth)
  {
  }

  /** The turns that end the loop. */
  lemma ElementsStop(s: seq<byte>, squash: bool, closed: bool, depth: nat)
    ensures s == [] ==> ConvertElements(s, squash, closed, depth) == if closed then Fail else Done([], [])
    ensures s != [] && AnyElement(s, false).None? ==> ConvertElements(s, squash, closed, depth) == Fail
    ensures AnyElement(s, false).Some? && IsEoc(AnyElement(s, false).value) ==>
              ConvertElements(s, squash, closed, depth) ==
                if closed then Done([], AnyElement(s, false).value.rest) else Fail
  {
  }

  function AfterFirst(first: Conversion, fragment: bool, closed: bool, depth: nat): Conversion {
    if first.Fail? then Fail else Prepend(first.out, ConvertElements(first.rest, fragment, closed, depth))
  }

  // ----- The output is DER -----

  /** `s` is a series of elements the strict reader accepts, and so are the contents of every constructed
      one, all the way down: no indefinite length anywhere. */
  predicate StrictAll(s: seq<byte>)
    decreases |s|
  {
    s == [] ||
    (match AnyElement(s, true)
     case None => false
     case Some(e) => (Constructed(e.tag) ==> StrictAll(e.Contents())) && StrictAll(e.rest))
  }

  lemma StrictCons(tag: byte, contents: seq<byte>, rest: seq<byte>)
    requires tag % 32 != 31 && |contents| <= MAX_CONTENTS
    requires Constructed(tag) ==> StrictAll(contents)
    requires StrictAll(rest)
    ensures StrictAll(Tlv(tag, contents) + rest)
  {
    ParseDer(tag, contents, rest, true);
  }

  lemma {:induction false} ConvertStrict(s: seq<byte>, lookingForEoc: bool, depth: nat)
    requires Convert(s, false, lookingForEoc, depth).Done?
    ensures StrictAll(Convert(s, false, lookingForEoc, depth).out)
    decreases |s|, 2
  {
    ConvertElementsStrict(s, lookingForEoc, depth);
  }

  lemma {:induction false} ConvertElementsStrict(s: seq<byte>, lookingForEoc: bool, depth: nat)
    requires ConvertElements(s, false, lookingForEoc, depth).Done?
    ensures StrictAll(ConvertElements(s, false, lookingForEoc, depth).out)
    decreases |s|, 1
  {
    if s != [] {
      var e := AnyElement(s, false).value;
      if !IsEoc(e) {
        var first := ConvertOne(s, e, false, depth);
        ConvertElementsStrict(first.rest, lookingForEoc, depth);
        var others := ConvertElements(first.rest, false, lookingForEoc, depth);
        var tag, contents := ConvertOneElement(s, e, depth);
        StrictCons(tag, contents, others.out);
      }
    }
  }

  /** What one element becomes, when its header is kept. */
  lemma {:induction false} ConvertOneElement(s: seq<byte>, e: Element, depth: nat) returns (tag: byte, contents: seq<byte>)
    requires AnyElement(s, false) == Some(e) && ConvertOne(s, e, false, depth).Done?
    ensures tag % 32 != 31 && |contents| <= MAX_CONTENTS
    ensures ConvertOne(s, e, false, depth).out == Tlv(tag, contents)
    ensures Constructed(tag) ==> StrictAll(contents)
    decreases |s|, 0
  {
    if IsIndefinite(e) {
      var squashChildren := SquashChildren(e.tag, e.rest).value;
      var inner := Convert(e.rest, squashChildren, true, depth + 1);
      tag, contents := if squashChildren then MakePrimitive(e.tag) else e.tag, inner.out;
      if !squashChildren {
        ConvertStrict(e.rest, true, depth + 1);
      }
    } else if Constructed(e.tag) {
      tag, contents := e.tag, Convert(e.Contents(), false, false, depth + 1).out;
      ConvertStrict(e.Contents(), false, depth + 1);
    } else {
      tag, contents := e.tag, e.Contents();
    }
  }

  // ----- Definite input -----

  /** What the converter additionally asks of input that is already definite: no element that looks like
      an end-of-contents marker, no contents of the reserved length, and not too deep. */
  predicate Convertible(s: seq<byte>, depth: nat)
    requires StrictAll(s)
    decreases |s|, 1
  {
    depth <= 2048 && ConvertibleElements(s, depth)
  }

  predicate ConvertibleElements(s: seq<byte>, depth: nat)
    requires StrictAll(s)
    decreases |s|, 0
  {
    s == [] ||
    var e := AnyElement(s, true).value;
    && e.bytes != [0, 0] && |e.Contents()| <= 0xffff_fffe
    && (Constructed(e.tag) ==> Convertible(e.Contents(), depth + 1))
    && ConvertibleElements(e.rest, depth)
  }

  /** An element the strict reader accepts is the same to the relaxed one, and not indefinite. */
  lemma StrictIsRelaxed(s: seq<byte>)
    requires AnyElement(s, true).Some?
    ensures AnyElement(s, false) == AnyElement(s, true) && !IsIndefinite(AnyElement(s, true).value)
  {
  }

  /** On input that is already definite throughout, conversion is the identity if and only if the input is
      convertible, and fails otherwise. */
  lemma {:induction false} DefiniteIdentity(s: seq<byte>, depth: nat)
    requires StrictAll(s)
    ensures Convert(s, false, false, depth) == if Convertible(s, depth) then Done(s, []) else Fail
    decreases |s|, 2
  {
    DefiniteElementsIdentity(s, depth);
  }

  lemma {:induction false} DefiniteElementsIdentity(s: seq<byte>, depth: nat)
    requires StrictAll(s)
    ensures ConvertElements(s, false, false, depth) == if ConvertibleElements(s, depth) then Done(s, []) else Fail
    decreases |s|, 1
  {
    hide AnyElement, DerLength;
    if s != [] {
      StrictIsRelaxed(s);
      var e := AnyElement(s, true).value;
      if !IsEoc(e) {
        ElementsStep(s, e, false, false, depth);
        if Constructed(e.tag) {
          DefiniteIdentity(e.Contents(), depth + 1);
        }
        DefiniteElementsIdentity(e.rest, depth);
        if |e.Contents()| <= MAX_CONTENTS {
          StrictIsDer(s);
        }
        assert s == e.bytes + e.rest;
      }
    }
  }

  /** Converting twice is converting once, unless the first output itself looks like a marker somewhere. */
  lemma ConvertTwice(s: seq<byte>)
    requires Convert(s, false, false, 0).Done?
    ensures var out := Convert(s, false, false, 0).out;
            StrictAll(out) && (Convert(out, false, false, 0) == if Convertible(out, 0) then Done(out, []) else Fail)
  {
    ConvertStrict(s, false, 0);
    DefiniteIdentity(Convert(s, false, false, 0).out, 0);
  }
}
