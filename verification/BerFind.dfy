/**
  CBS_asn1_indefinite_to_definite: a walk that looks for indefinite lengths, and the conversion if it
  reports one.  A find inside a constructed element is forgotten when the walk around it goes on, so only
  a top-level indefinite length starts the conversion.
 */
module BerFind {
  import opened Bytes
  import opened Cbs
  import opened Der
  import opened Ber
  import opened BerTree
  import Cbb
  import BerConvert

  // ----- The walk -----

  /** What cbs_find_indefinite leaves in its flag, or None if it fails. */
  function Find(s: seq<byte>, depth: nat): Option<bool>
    decreases |s|, 1
  {
    if depth > MAX_DEPTH then None else FindElements(s, depth)
  }

  function FindElements(s: seq<byte>, depth: nat): Option<bool>
    decreases |s|, 0
  {
    if s == [] then Some(false)
    else
      match AnyElement(s, false)
      case None => None
      case Some(e) =>
        if IsIndefinite(e) then Some(true)
        else if Constructed(e.tag) && Find(e.Contents(), depth + 1).None? then None
        else FindElements(e.rest, depth)
  }

  /** The loop with its flag, which the recursive call overwrites and the end of the loop clears. */
  method FindIndefinite(bytes: seq<byte>, found0: bool, depth: nat) returns (ok: bool, found: bool)
    ensures Find(bytes, depth) == if ok then Some(found) else None
    decreases |bytes|
  {
    hide AnyElement, IsIndefinite;
    found := found0;
    if depth > MAX_DEPTH {
      return false, found;
    }
    var input := new Cbs(bytes);
    while |input.data| > 0
      invariant |input.data| <= |bytes|
      invariant FindElements(input.data, depth) == FindElements(bytes, depth)
      decreases |input.data|
    {
      var e;
      ok, e := input.GetAnyAsn1Element(false);
      if !ok {
        return;
      }
      if IsIndefinite(e) {
        return true, true;
      }
      if Constructed(e.tag) {
        ok, found := FindIndefinite(e.Contents(), found, depth + 1);
        if !ok {
          return;
        }
      }
    }
    return true, false;
  }

  // ----- What it finds -----

  predicate TopIndefinite(s: seq<byte>)
    decreases |s|
  {
    s != [] &&
    match AnyElement(s, false)
    case None => false
    case Some(e) => IsIndefinite(e) || TopIndefinite(e.rest)
  }

  /** An indefinite length at the top or inside definite constructed elements. */
  predicate HasIndefinite(s: seq<byte>)
    decreases |s|
  {
    s != [] &&
    match AnyElement(s, false)
    case None => false
    case Some(e) => IsIndefinite(e) || (Constructed(e.tag) && HasIndefinite(e.Contents())) || HasIndefinite(e.rest)
  }

  lemma RelaxedIsStrict(s: seq<byte>)
    requires AnyElement(s, false).Some?
    ensures AnyElement(s, true) == if IsIndefinite(AnyElement(s, false).value) then None else AnyElement(s, false)
  {
  }

  /** A walk that succeeds reports the indefinite lengths at the top and no others; its input is definite
      throughout exactly when there are none at any depth. */
  lemma {:induction false} FindIsTop(s: seq<byte>, depth: nat)
    requires Find(s, depth).Some?
    ensures Find(s, depth) == Some(TopIndefinite(s))
    ensures StrictAll(s) <==> !HasIndefinite(s)
    ensures TopIndefinite(s) ==> HasIndefinite(s)
    decreases |s|
  {
    hide AnyElement, IsIndefinite;
    if s != [] {
      RelaxedIsStrict(s);
      var e := AnyElement(s, false).value;
      if !IsIndefinite(e) {
        if Constructed(e.tag) {
          FindIsTop(e.Contents(), depth + 1);
        }
        FindIsTop(e.rest, depth);
      }
    }
  }

  /** How deep constructed elements are nested in a definite series. */
  function Nesting(s: seq<byte>): nat
    requires StrictAll(s)
    decreases |s|
  {
    if s == [] then 0
    else
      var e := AnyElement(s, true).value;
      Max(if Constructed(e.tag) then 1 + Nesting(e.Contents()) else 0, Nesting(e.rest))
  }

  function Max(a: nat, b: nat): nat { if a > b then a else b }

  /** On input that is definite throughout the walk finds nothing, and succeeds exactly up to 2048 levels. */
  lemma {:induction false} FindDefinite(s: seq<byte>, depth: nat)
    requires StrictAll(s)
    ensures Find(s, depth) == if depth + Nesting(s) <= 2048 then Some(false) else None
    decreases |s|
  {
    hide AnyElement, IsIndefinite;
    if s != [] {
      StrictIsRelaxed(s);
      var e := AnyElement(s, true).value;
      if Constructed(e.tag) {
        FindDefinite(e.Contents(), depth + 1);
      }
      FindDefinite(e.rest, depth);
    }
  }

  ghost predicate SomeIndefinite(ts: seq<Tree>) {
    exists i :: 0 <= i < |ts| && ts[i].Indefinite?
  }

  /** On any written forest up to 2048 levels high the walk succeeds, and finds just whether one of its
      trees has an indefinite length at the top. */
  lemma {:induction false} FindForest(ts: seq<Tree>, depth: nat)
    requires AllWellFormed(ts) && depth + HeightAll(ts) <= 2048
    ensures Find(WrittenAll(ts), depth) == Some(SomeIndefinite(ts))
    decreases ts
  {
    hide AnyElement, IsIndefinite, Written, WellFormed;
    if ts != [] {
      var t, rest := ts[0], WrittenAll(ts[1..]);
      HeadRead(t, rest);
      FindForest(ts[1..], depth);
      FirstOrLater(ts);
      assert Written(t) + rest != [] by { assert AnyElement(Written(t) + rest, false).Some?; }
      assert Find(WrittenAll(ts), depth) == FindElements(Written(t) + rest, depth);
      TreeTag(t, rest);
      if t.Definite? {
        FindForest(t.kids, depth + 1);
      }
    }
  }

  lemma TreeTag(t: Tree, rest: seq<byte>)
    requires WellFormed(t)
    ensures Head(t, rest).tag == t.tag && Head(t, rest).rest == (if t.Indefinite? then WrittenAll(t.kids) + END_OF_CONTENTS + rest else rest)
    ensures Constructed(t.tag) <==> !t.Primitive?
    ensures t.Definite? ==> AllWellFormed(t.kids)
  {
  }

  lemma FirstOrLater(ts: seq<Tree>)
    requires ts != []
    ensures SomeIndefinite(ts) <==> ts[0].Indefinite? || SomeIndefinite(ts[1..])
  {
    if SomeIndefinite(ts) {
      var i :| 0 <= i < |ts| && ts[i].Indefinite?;
      if i > 0 { assert ts[1..][i - 1].Indefinite?; }
    }
    if SomeIndefinite(ts[1..]) {
      var i :| 0 <= i < |ts[1..]| && ts[1..][i].Indefinite?;
      assert ts[i + 1].Indefinite?;
    }
  }

  /** One definite level around it hides every indefinite length. */
  lemma NestedMissed(tag: byte, body: seq<byte>)
    requires tag % 32 != 31 && Constructed(tag) && |body| <= MAX_CONTENTS
    requires Find(body, 1).Some? && HasIndefinite(body)
    ensures Find(Tlv(tag, body), 0) == Some(false) && !StrictAll(Tlv(tag, body))
  {
    hide AnyElement, Tlv, Find;
    assert Tlv(tag, body) + [] == Tlv(tag, body);
    ParseDer(tag, body, [], false);
    ParseDer(tag, body, [], true);
    StrictIsRelaxed(Tlv(tag, body));
    FindIsTop(body, 1);
    FindShallow(Tlv(tag, body));
  }

  lemma FindShallow(s: seq<byte>)
    ensures Find(s, 0) == FindElements(s, 0)
  {
  }

  lemma NestedMissedExample()
    ensures Find([0x30, 4, 0x30, 0x80, 0, 0], 0) == Some(false) && !StrictAll([0x30, 4, 0x30, 0x80, 0, 0])
  {
    assert Tlv(0x30, [0x30, 0x80, 0, 0]) == [0x30, 4, 0x30, 0x80, 0, 0];
    var body: seq<byte> := [0x30, 0x80, 0, 0];
    assert body[..2] == [0x30, 0x80];
    assert AnyElement(body, false) == Some(Element(0x30, 2, [0x30, 0x80], [0, 0]));
    NestedMissed(0x30, body);
  }

  // ----- The entry point -----

  /** None: nothing to convert.  The caller gets strict DER if some top-level length is indefinite; told
      that nothing is to be done, it has strict DER exactly if no nested length is indefinite. */
  method IndefiniteToDefinite(bytes: seq<byte>, outData: Cbb.OutPointer) returns (ok: bool, out: Option<seq<byte>>)
    requires |bytes| <= Cbb.SIZE_MAX && outData != Cbb.NullPointer
    // definite throughout: nothing to convert, and it fails only beyond 2048 levels
    ensures StrictAll(bytes) ==> (ok <==> Nesting(bytes) <= 2048) && (ok ==> out.None?)
    // a written forest: converted to what it means exactly if some tree has an indefinite length at the top
    ensures forall ts :: AllWellFormed(ts) && HeightAll(ts) <= 2048 && bytes == WrittenAll(ts) ==>
                           Answers(ts, outData, ok, out)
    // any input
    ensures var f, r := Find(bytes, 0), Convert(bytes, false, false, 0);
            && (ok <==> f.Some? && (f.value ==> r.Done? && |r.out| <= Cbb.SIZE_MAX && outData == Cbb.ToNull))
            && (ok ==> f.value == TopIndefinite(bytes) && out == if f.value then Some(r.out) else None)
    ensures ok && out.Some? ==> StrictAll(out.value)
    ensures ok && out.None? ==> (StrictAll(bytes) <==> !HasIndefinite(bytes))
  {
    hide Find, Convert, StrictAll, HasIndefinite, TopIndefinite, Answers, AllWellFormed, HeightAll, WrittenAll, Nesting;
    var conversionNeeded;
    out := None;
    ok, conversionNeeded := FindIndefinite(bytes, false, 0);
    if ok {
      FindIsTop(bytes, 0);
      if conversionNeeded {
        var der;
        ok, der := BerConvert.ConvertWhole(bytes, outData);
        if ok {
          out := Some(der);
        }
      }
    }
    if StrictAll(bytes) {
      FindDefinite(bytes, 0);
    }
    forall ts | AllWellFormed(ts) && HeightAll(ts) <= 2048 && bytes == WrittenAll(ts)
      ensures Answers(ts, outData, ok, out)
    {
      FindForest(ts, 0);
      ConvertsMeaning(ts);
      Answered(ts, outData, ok, out);
    }
  }

  /** The right answer for a forest: its definite encoding if some top-level length is indefinite, unless a
      length is too large, memory is exceeded or the output is already set; else nothing. */
  ghost predicate Answers(ts: seq<Tree>, outData: Cbb.OutPointer, ok: bool, out: Option<seq<byte>>) {
    if SomeIndefinite(ts) then
      var meant := MeantAll(ts, false);
      && (ok <==> meant.Some? && |meant.value| <= Cbb.SIZE_MAX && outData == Cbb.ToNull)
      && (ok ==> out == meant)
    else ok && out == None
  }

  lemma Answered(ts: seq<Tree>, outData: Cbb.OutPointer, ok: bool, out: Option<seq<byte>>)
    requires Convert(WrittenAll(ts), false, false, 0) == Outcome(MeantAll(ts, false), [])
    requires Find(WrittenAll(ts), 0) == Some(SomeIndefinite(ts))
    requires var f, r := Find(WrittenAll(ts), 0), Convert(WrittenAll(ts), false, false, 0);
             && (ok <==> f.Some? && (f.value ==> r.Done? && |r.out| <= Cbb.SIZE_MAX && outData == Cbb.ToNull))
             && (ok ==> out == if f.value then Some(r.out) else None)
    ensures Answers(ts, outData, ok, out)
  {
    hide Find, Convert, WrittenAll, MeantAll, SomeIndefinite;
  }
}
