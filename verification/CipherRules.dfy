/**
  What the cipher rules and the strength sort mean on the list of entries, and the laws they obey.
 */
module CipherRules {

  datatype Cipher = Cipher(id: bv64, mkey: bv64, auth: bv64, enc: bv64, mac: bv64, ssl: bv64, strength: bv64,
                           strengthBits: nat)

  datatype Entry = Entry(cipher: Cipher, active: bool)

  datatype Rule = Add | Kill | Del | Ord

  /** A zero field does not restrict; a strength in bits of at least 0 replaces the other criteria. */
  datatype Selector = Selector(id: bv64, mkey: bv64, auth: bv64, enc: bv64, mac: bv64, ssl: bv64, strength: bv64,
                               strengthBits: int)

  const STRONG_MASK: bv64 := 0x1fc

  predicate Admits(wanted: bv64, present: bv64) { wanted == 0 || wanted & present != 0 }

  function Strong(strength: bv64): bv64 { strength & STRONG_MASK }

  predicate Matches(sel: Selector, c: Cipher) {
    && (sel.id == 0 || c.id == sel.id)
    && if sel.strengthBits >= 0 then sel.strengthBits == c.strengthBits
       else
         && Admits(sel.mkey, c.mkey)
         && Admits(sel.auth, c.auth)
         && Admits(sel.enc, c.enc)
         && Admits(sel.mac, c.mac)
         && Admits(sel.ssl, c.ssl)
         && Admits(Strong(sel.strength), c.strength)
  }

  /** Does the rule act on the entry? */
  predicate Hit(rule: Rule, sel: Selector, e: Entry) {
    Matches(sel, e.cipher) &&
    match rule
    case Add => !e.active
    case Del => e.active
    case Ord => e.active
    case Kill => true
  }

  /** The entry once the rule has acted on it. */
  function Touched(rule: Rule, e: Entry): Entry {
    match rule
    case Add => e.(active := true)
    case Del => e.(active := false)
    case Kill => e.(active := false)
    case Ord => e
  }

  // ----- Selecting entries in order -----

  function Filter<T>(s: seq<T>, p: T -> bool): seq<T> {
    if s == [] then [] else (if p(s[0]) then [s[0]] else []) + Filter(s[1..], p)
  }

  function Map<T, U>(s: seq<T>, f: T -> U): (r: seq<U>)
    ensures |r| == |s| && forall i :: 0 <= i < |s| ==> r[i] == f(s[i])
  {
    if s == [] then [] else [f(s[0])] + Map(s[1..], f)
  }

  lemma FilterHead<T>(s: seq<T>, p: T -> bool)
    requires s != []
    ensures Filter(s, p) == (if p(s[0]) then [s[0]] else []) + Filter(s[1..], p)
  {
  }

  lemma {:induction false} FilterAppend<T>(s: seq<T>, t: seq<T>, p: T -> bool)
    ensures Filter(s + t, p) == Filter(s, p) + Filter(t, p)
  {
    if s == [] {
      assert s + t == t;
    } else {
      assert (s + t)[1..] == s[1..] + t && (s + t)[0] == s[0];
      FilterAppend(s[1..], t, p);
      FilterHead(s, p);
      FilterHead(s + t, p);
      hide Filter;
      var first := if p(s[0]) then [s[0]] else [];
      assert first + (Filter(s[1..], p) + Filter(t, p)) == first + Filter(s[1..], p) + Filter(t, p);
    }
  }

  lemma {:induction false} FilterMembers<T>(s: seq<T>, p: T -> bool)
    ensures forall e :: e in Filter(s, p) <==> e in s && p(e)
    ensures |Filter(s, p)| <= |s|
  {
    if s != [] {
      FilterMembers(s[1..], p);
      assert s == [s[0]] + s[1..];
    }
  }

  /** Filtering what is already filtered by a weaker condition. */
  lemma {:induction false} FilterTwice<T>(s: seq<T>, p: T -> bool, q: T -> bool, r: T -> bool)
    requires forall e :: e in s ==> (r(e) <==> p(e) && q(e))
    ensures Filter(Filter(s, p), q) == Filter(s, r)
  {
    if s != [] {
      FilterTwice(s[1..], p, q, r);
      var first := if p(s[0]) then [s[0]] else [];
      FilterAppend(first, Filter(s[1..], p), q);
    }
  }

  lemma {:induction false} FilterAgree<T>(s: seq<T>, p: T -> bool, q: T -> bool)
    requires forall e :: e in s ==> (p(e) <==> q(e))
    ensures Filter(s, p) == Filter(s, q)
  {
    if s != [] {
      FilterAgree(s[1..], p, q);
    }
  }

  lemma {:induction false} FilterNone<T>(s: seq<T>, p: T -> bool)
    requires forall e :: e in s ==> !p(e)
    ensures Filter(s, p) == []
  {
    if s != [] {
      FilterNone(s[1..], p);
    }
  }

  lemma {:induction false} FilterAll<T>(s: seq<T>, p: T -> bool)
    requires forall e :: e in s ==> p(e)
    ensures Filter(s, p) == s
  {
    if s != [] {
      FilterAll(s[1..], p);
      assert s == [s[0]] + s[1..];
    }
  }

  lemma {:induction false} MapAppend<T, U>(s: seq<T>, t: seq<T>, f: T -> U)
    ensures Map(s + t, f) == Map(s, f) + Map(t, f)
  {
  }

  // ----- The rules -----

  function Hits(rule: Rule, sel: Selector, s: seq<Entry>): seq<Entry> {
    Map(Filter(s, (e: Entry) => Hit(rule, sel, e)), e => Touched(rule, e))
  }

  function Misses(rule: Rule, sel: Selector, s: seq<Entry>): seq<Entry> {
    Filter(s, (e: Entry) => !Hit(rule, sel, e))
  }

  /** Both the moved and the unmoved keep their order: ADD and ORD move to the end, DEL to the front. */
  function Apply(rule: Rule, sel: Selector, s: seq<Entry>): seq<Entry> {
    match rule
    case Add => Misses(rule, sel, s) + Hits(rule, sel, s)
    case Ord => Misses(rule, sel, s) + Hits(rule, sel, s)
    case Del => Hits(rule, sel, s) + Misses(rule, sel, s)
    case Kill => Misses(rule, sel, s)
  }

  /** The list without position `k`. */
  function Without<T>(s: seq<T>, k: nat): seq<T>
    requires k < |s|
  {
    s[..k] + s[k + 1..]
  }

  /** The list once the rule has acted on position `k`, which becomes `x`. */
  function Placed<T>(rule: Rule, hit: bool, s: seq<T>, k: nat, x: T): seq<T>
    requires k < |s|
  {
    if !hit then s
    else match rule
    case Add => Without(s, k) + [x]
    case Ord => Without(s, k) + [x]
    case Del => [x] + Without(s, k)
    case Kill => Without(s, k)
  }

  /** The list in the middle of a sweep, which goes backwards from the end for DEL and forwards for the
      others: the entries from `i` on (for DEL before `i`) are still to come. */
  function Mixed(rule: Rule, sel: Selector, s: seq<Entry>, i: nat): seq<Entry>
    requires i <= |s|
  {
    if rule == Del then Hits(rule, sel, s[i..]) + s[..i] + Misses(rule, sel, s[i..])
    else Misses(rule, sel, s[..i]) + s[i..] + if rule == Kill then [] else Hits(rule, sel, s[..i])
  }

  /** A mask that is given and shares no bit with the field. */
  predicate Excludes(mask: bv64, field: bv64) { mask != 0 && mask & field == 0 }

  /** A cipher is passed over for exactly these reasons. */
  lemma PassedOver(sel: Selector, c: Cipher)
    ensures !Matches(sel, c) <==>
            || (sel.id != 0 && sel.id != c.id)
            || (sel.strengthBits >= 0 && sel.strengthBits != c.strengthBits)
            || (sel.strengthBits < 0 &&
                (|| Excludes(sel.mkey, c.mkey) || Excludes(sel.auth, c.auth) || Excludes(sel.enc, c.enc)
                 || Excludes(sel.mac, c.mac) || Excludes(sel.ssl, c.ssl) || Excludes(Strong(sel.strength), c.strength)))
  {
    hide Admits, Excludes, Strong;
    if sel.strengthBits < 0 && (sel.id == 0 || c.id == sel.id) {
      NotAdmitted(sel.mkey, c.mkey);
      NotAdmitted(sel.auth, c.auth);
      NotAdmitted(sel.enc, c.enc);
      NotAdmitted(sel.mac, c.mac);
      NotAdmitted(sel.ssl, c.ssl);
      NotAdmitted(Strong(sel.strength), c.strength);
    }
  }

  lemma NotAdmitted(mask: bv64, field: bv64)
    ensures !Admits(mask, field) <==> Excludes(mask, field)
  {
  }

  /** Without any criterion none is passed over. */
  lemma AllMatch(c: Cipher)
    ensures Matches(Selector(0, 0, 0, 0, 0, 0, 0, -1), c)
  {
    hide Excludes;
    PassedOver(Selector(0, 0, 0, 0, 0, 0, 0, -1), c);
    NothingExcluded(c.mkey);
    NothingExcluded(c.auth);
    NothingExcluded(c.enc);
    NothingExcluded(c.mac);
    NothingExcluded(c.ssl);
    NothingExcluded(c.strength);
    hide Matches;
    OnlyStrengthBits(0);
  }

  /** Of the strength field only the bits 2 to 8 count. */
  lemma OnlyStrengthBits(strength: bv64)
    ensures Strong(strength) == strength & 0x1fc && Strong(0) == 0
  {
  }

  lemma NothingExcluded(field: bv64)
    ensures !Excludes(0, field)
  {
  }

  /** The four rules in words: ADD takes the inactive matches to the end and activates them, ORD the active
      ones without touching them, DEL takes the active ones to the front and deactivates them, KILL drops
      every match. */
  lemma RulesInWords(sel: Selector, s: seq<Entry>)
    ensures Apply(Add, sel, s) ==
            Filter(s, (e: Entry) => e.active || !Matches(sel, e.cipher)) +
            Map(Filter(s, (e: Entry) => !e.active && Matches(sel, e.cipher)), (e: Entry) => Entry(e.cipher, true))
    ensures Apply(Ord, sel, s) ==
            Filter(s, (e: Entry) => !e.active || !Matches(sel, e.cipher)) +
            Filter(s, (e: Entry) => e.active && Matches(sel, e.cipher))
    ensures Apply(Del, sel, s) ==
            Map(Filter(s, (e: Entry) => e.active && Matches(sel, e.cipher)), (e: Entry) => Entry(e.cipher, false)) +
            Filter(s, (e: Entry) => !e.active || !Matches(sel, e.cipher))
    ensures Apply(Kill, sel, s) == Filter(s, (e: Entry) => !Matches(sel, e.cipher))
  {
    hide Matches;
    FilterAgree(s, (e: Entry) => !Hit(Add, sel, e), (e: Entry) => e.active || !Matches(sel, e.cipher));
    FilterAgree(s, (e: Entry) => Hit(Add, sel, e), (e: Entry) => !e.active && Matches(sel, e.cipher));
    FilterAgree(s, (e: Entry) => !Hit(Ord, sel, e), (e: Entry) => !e.active || !Matches(sel, e.cipher));
    FilterAgree(s, (e: Entry) => Hit(Ord, sel, e), (e: Entry) => e.active && Matches(sel, e.cipher));
    FilterAgree(s, (e: Entry) => !Hit(Del, sel, e), (e: Entry) => !e.active || !Matches(sel, e.cipher));
    FilterAgree(s, (e: Entry) => Hit(Del, sel, e), (e: Entry) => e.active && Matches(sel, e.cipher));
    FilterAgree(s, (e: Entry) => !Hit(Kill, sel, e), (e: Entry) => !Matches(sel, e.cipher));
  }

  /** Where those entries begin. */
  function Position(rule: Rule, sel: Selector, s: seq<Entry>, i: nat): nat
    requires i <= |s|
  {
    if rule == Del then |Hits(rule, sel, s[i..])| else |Misses(rule, sel, s[..i])|
  }

  function Ciphers(s: seq<Entry>): seq<Cipher> { Map(s, (e: Entry) => e.cipher) }

  lemma HitsAppend(rule: Rule, sel: Selector, s: seq<Entry>, t: seq<Entry>)
    ensures Hits(rule, sel, s + t) == Hits(rule, sel, s) + Hits(rule, sel, t)
    ensures Misses(rule, sel, s + t) == Misses(rule, sel, s) + Misses(rule, sel, t)
  {
    hide Hit;
    FilterAppend(s, t, (e: Entry) => Hit(rule, sel, e));
    FilterAppend(s, t, (e: Entry) => !Hit(rule, sel, e));
  }

  lemma HitsOne(rule: Rule, sel: Selector, e: Entry)
    ensures Hits(rule, sel, [e]) == if Hit(rule, sel, e) then [Touched(rule, e)] else []
    ensures Misses(rule, sel, [e]) == if Hit(rule, sel, e) then [] else [e]
  {
    FilterSingle(e, (x: Entry) => Hit(rule, sel, x));
    FilterSingle(e, (x: Entry) => !Hit(rule, sel, x));
  }

  lemma FilterSingle<T>(e: T, p: T -> bool)
    ensures Filter([e], p) == if p(e) then [e] else []
  {
    assert [e][1..] == [];
  }

  lemma OneMore(rule: Rule, sel: Selector, s: seq<Entry>, e: Entry)
    ensures Hits(rule, sel, s + [e]) ==
              if Hit(rule, sel, e) then Hits(rule, sel, s) + [Touched(rule, e)] else Hits(rule, sel, s)
    ensures Misses(rule, sel, s + [e]) == if Hit(rule, sel, e) then Misses(rule, sel, s) else Misses(rule, sel, s) + [e]
    ensures Hits(rule, sel, [e] + s) ==
              if Hit(rule, sel, e) then [Touched(rule, e)] + Hits(rule, sel, s) else Hits(rule, sel, s)
    ensures Misses(rule, sel, [e] + s) == if Hit(rule, sel, e) then Misses(rule, sel, s) else [e] + Misses(rule, sel, s)
  {
    HitsOne(rule, sel, e);
    hide Hits, Misses, Hit;
    HitsAppend(rule, sel, s, [e]);
    HitsAppend(rule, sel, [e], s);
  }

  /** Acting on a position with `front` before it. */
  lemma PlacedForward<T>(rule: Rule, hit: bool, front: seq<T>, x: T, rest: seq<T>, back: seq<T>, y: T)
    requires rule != Del
    ensures var s := front + ([x] + rest) + back;
            && s[|front|] == x
            && Placed(rule, hit, s, |front|, y) ==
                 if !hit then (front + [x]) + rest + back
                 else if rule == Kill then front + rest + back
                 else front + rest + (back + [y])
  {
    assert Without(front + ([x] + rest) + back, |front|) == front + rest + back;
  }

  lemma PlacedBackward<T>(hit: bool, front: seq<T>, rest: seq<T>, x: T, back: seq<T>, y: T)
    ensures var s := front + (rest + [x]) + back;
            && s[|front| + |rest|] == x
            && Placed(Del, hit, s, |front| + |rest|, y) ==
                 if !hit then front + rest + ([x] + back) else ([y] + front) + rest + back
  {
    assert Without(front + (rest + [x]) + back, |front| + |rest|) == front + rest + back;
  }

  /** One turn of a sweep forwards. */
  lemma SweepForward(rule: Rule, sel: Selector, s: seq<Entry>, i: nat)
    requires rule != Del && i < |s|
    ensures var k := Position(rule, sel, s, i);
            && k < |Mixed(rule, sel, s, i)| && Mixed(rule, sel, s, i)[k] == s[i]
            && Mixed(rule, sel, s, i + 1) ==
                 Placed(rule, Hit(rule, sel, s[i]), Mixed(rule, sel, s, i), k, Touched(rule, s[i]))
            && Position(rule, sel, s, i + 1) == if Hit(rule, sel, s[i]) then k else k + 1
  {
    hide Hits, Misses, Hit, Placed, Touched;
    OneMore(rule, sel, s[..i], s[i]);
    assert s[..i + 1] == s[..i] + [s[i]];
    assert s[i..] == [s[i]] + s[i + 1..];
    PlacedForward(rule, Hit(rule, sel, s[i]), Misses(rule, sel, s[..i]), s[i], s[i + 1..],
                  if rule == Kill then [] else Hits(rule, sel, s[..i]), Touched(rule, s[i]));
  }

  /** One turn of a sweep backwards. */
  lemma SweepBackward(sel: Selector, s: seq<Entry>, i: nat)
    requires 0 < i <= |s|
    ensures var k := Position(Del, sel, s, i) + i - 1;
            && k < |Mixed(Del, sel, s, i)| && Mixed(Del, sel, s, i)[k] == s[i - 1]
            && Mixed(Del, sel, s, i - 1) ==
                 Placed(Del, Hit(Del, sel, s[i - 1]), Mixed(Del, sel, s, i), k, Touched(Del, s[i - 1]))
            && Position(Del, sel, s, i - 1) == if Hit(Del, sel, s[i - 1]) then k - i + 2 else k - i + 1
  {
    hide Hits, Misses, Hit, Placed, Touched;
    var e := s[i - 1];
    OneMore(Del, sel, s[i..], e);
    assert s[i - 1..] == [e] + s[i..];
    assert s[..i] == s[..i - 1] + [e];
    PlacedBackward(Hit(Del, sel, e), Hits(Del, sel, s[i..]), s[..i - 1], e, Misses(Del, sel, s[i..]), Touched(Del, e));
  }

  /** Before the first turn and after the last. */
  lemma SweepEnds(rule: Rule, sel: Selector, s: seq<Entry>)
    ensures Mixed(rule, sel, s, if rule == Del then |s| else 0) == s
    ensures Position(rule, sel, s, if rule == Del then |s| else 0) == 0
    ensures Mixed(rule, sel, s, if rule == Del then 0 else |s|) == Apply(rule, sel, s)
  {
    assert s[..|s|] == s && s[0..] == s;
    assert Hits(rule, sel, []) == [] && Misses(rule, sel, []) == [];
  }

  // ----- Nothing is lost, nothing comes back -----

  /** Moved and unmoved entries together are the ciphers of the list. */
  lemma NothingHit(rule: Rule, sel: Selector)
    ensures Hits(rule, sel, []) == [] && Misses(rule, sel, []) == [] && Ciphers([]) == []
  {
  }

  lemma OneHitOrMiss(rule: Rule, sel: Selector, e: Entry)
    ensures multiset(Ciphers(Hits(rule, sel, [e]))) + multiset(Ciphers(Misses(rule, sel, [e]))) == multiset(Ciphers([e]))
  {
    hide Hit;
    HitsOne(rule, sel, e);
    assert Ciphers([]) == [];
  }

  lemma {:induction false} HitsAndMisses(rule: Rule, sel: Selector, s: seq<Entry>)
    ensures multiset(Ciphers(Hits(rule, sel, s))) + multiset(Ciphers(Misses(rule, sel, s))) == multiset(Ciphers(s))
  {
    hide Hits, Misses, Hit, Ciphers;
    if s == [] {
      NothingHit(rule, sel);
    } else {
      var e := s[0];
      assert s == [e] + s[1..];
      HitsAppend(rule, sel, [e], s[1..]);
      OneHitOrMiss(rule, sel, e);
      HitsAndMisses(rule, sel, s[1..]);
      CiphersSplit([e], s[1..]);
      CiphersSplit(Hits(rule, sel, [e]), Hits(rule, sel, s[1..]));
      CiphersSplit(Misses(rule, sel, [e]), Misses(rule, sel, s[1..]));
    }
  }

  lemma CiphersSplit(s: seq<Entry>, t: seq<Entry>)
    ensures Ciphers(s + t) == Ciphers(s) + Ciphers(t)
    ensures multiset(Ciphers(s + t)) == multiset(Ciphers(s)) + multiset(Ciphers(t))
  {
    MapAppend(s, t, (e: Entry) => e.cipher);
  }

  /** ADD, ORD and DEL only permute the ciphers. */
  lemma RulePermutes(rule: Rule, sel: Selector, s: seq<Entry>)
    requires rule != Kill
    ensures multiset(Ciphers(Apply(rule, sel, s))) == multiset(Ciphers(s))
  {
    HitsAndMisses(rule, sel, s);
    CiphersSplit(Misses(rule, sel, s), Hits(rule, sel, s));
    CiphersSplit(Hits(rule, sel, s), Misses(rule, sel, s));
  }

  /** KILL keeps exactly the entries that do not match, as they were and in their order. */
  lemma KillRemoves(sel: Selector, s: seq<Entry>, e: Entry)
    ensures e in Apply(Kill, sel, s) <==> e in s && !Matches(sel, e.cipher)
    ensures multiset(Ciphers(Apply(Kill, sel, s))) <= multiset(Ciphers(s))
  {
    FilterMembers(s, (x: Entry) => !Hit(Kill, sel, x));
    HitsAndMisses(Kill, sel, s);
  }

  /** A rule string as processed: one rule after the other. */
  function Run(rules: seq<(Rule, Selector)>, s: seq<Entry>): seq<Entry> {
    if rules == [] then s else Run(rules[1..], Apply(rules[0].0, rules[0].1, s))
  }

  lemma {:induction false} RunOnlyLoses(rules: seq<(Rule, Selector)>, s: seq<Entry>)
    ensures multiset(Ciphers(Run(rules, s))) <= multiset(Ciphers(s))
  {
    if rules != [] {
      var (rule, sel) := rules[0];
      RunOnlyLoses(rules[1..], Apply(rule, sel, s));
      if rule == Kill {
        HitsAndMisses(Kill, sel, s);
      } else {
        RulePermutes(rule, sel, s);
      }
    }
  }

  /** No later rule brings a killed cipher back. */
  lemma KilledForGood(sel: Selector, rules: seq<(Rule, Selector)>, s: seq<Entry>, c: Cipher)
    requires Matches(sel, c)
    ensures c !in Ciphers(Run(rules, Apply(Kill, sel, s)))
  {
    hide Matches;
    var left := Apply(Kill, sel, s);
    if c in Ciphers(left) {
      var k :| 0 <= k < |Ciphers(left)| && Ciphers(left)[k] == c;
      KillRemoves(sel, s, left[k]);
    }
    RunOnlyLoses(rules, left);
    assert c !in multiset(Ciphers(left));
    assert c !in multiset(Ciphers(Run(rules, left)));
  }

  /** Who is active afterwards. */
  lemma ActiveAfter(rule: Rule, sel: Selector, s: seq<Entry>, c: Cipher)
    ensures Entry(c, true) in Apply(rule, sel, s) <==>
              match rule
              case Add => Entry(c, true) in s || (Entry(c, false) in s && Matches(sel, c))
              case Ord => Entry(c, true) in s
              case Del => Entry(c, true) in s && !Matches(sel, c)
              case Kill => Entry(c, true) in s && !Matches(sel, c)
  {
    hide Matches;
    var hit := (e: Entry) => Hit(rule, sel, e);
    var moved := Filter(s, hit);
    FilterMembers(s, hit);
    FilterMembers(s, (e: Entry) => !Hit(rule, sel, e));
    if Entry(c, true) in Hits(rule, sel, s) {
      var k :| 0 <= k < |Hits(rule, sel, s)| && Hits(rule, sel, s)[k] == Entry(c, true);
      assert moved[k] in moved && Touched(rule, moved[k]) == Entry(c, true);
    }
    forall e | e in moved ensures Touched(rule, e) in Hits(rule, sel, s) {
      var k :| 0 <= k < |moved| && moved[k] == e;
      assert Hits(rule, sel, s)[k] == Touched(rule, e);
    }
  }

  /** The way to build a default order: added and deleted again, a group of an inactive list stands first,
      each part in its old order, and everything is inactive. */
  lemma AddThenDel(sel: Selector, s: seq<Entry>)
    requires forall e :: e in s ==> !e.active
    ensures Apply(Del, sel, Apply(Add, sel, s)) == Matching(sel, s) + NotMatching(sel, s)
  {
    var rest, added := NotMatching(sel, s), Map(Matching(sel, s), e => Touched(Add, e));
    AddToInactive(sel, s);
    DelRest(sel, s);
    DelAdded(sel, s);
    hide Matching, NotMatching, Hits, Misses;
    HitsAppend(Del, sel, rest, added);
  }

  function Matching(sel: Selector, s: seq<Entry>): seq<Entry> { Filter(s, (e: Entry) => Matches(sel, e.cipher)) }

  function NotMatching(sel: Selector, s: seq<Entry>): seq<Entry> { Filter(s, (e: Entry) => !Matches(sel, e.cipher)) }

  lemma AddToInactive(sel: Selector, s: seq<Entry>)
    requires forall e :: e in s ==> !e.active
    ensures Apply(Add, sel, s) == NotMatching(sel, s) + Map(Matching(sel, s), e => Touched(Add, e))
  {
    hide Matches, Filter, Map;
    FilterAgree(s, (e: Entry) => Hit(Add, sel, e), (e: Entry) => Matches(sel, e.cipher));
    FilterAgree(s, (e: Entry) => !Hit(Add, sel, e), (e: Entry) => !Matches(sel, e.cipher));
  }

  lemma DelRest(sel: Selector, s: seq<Entry>)
    requires forall e :: e in s ==> !e.active
    ensures Hits(Del, sel, NotMatching(sel, s)) == [] && Misses(Del, sel, NotMatching(sel, s)) == NotMatching(sel, s)
  {
    hide Matches, Filter;
    var rest := NotMatching(sel, s);
    FilterMembers(s, (e: Entry) => !Matches(sel, e.cipher));
    FilterNone(rest, (e: Entry) => Hit(Del, sel, e));
    FilterAll(rest, (e: Entry) => !Hit(Del, sel, e));
  }

  lemma DelAdded(sel: Selector, s: seq<Entry>)
    requires forall e :: e in s ==> !e.active
    ensures var added := Map(Matching(sel, s), e => Touched(Add, e));
            Hits(Del, sel, added) == Matching(sel, s) && Misses(Del, sel, added) == []
  {
    hide Matches, Filter, Map;
    var matched := Matching(sel, s);
    var added := Map(matched, e => Touched(Add, e));
    FilterMembers(s, (e: Entry) => Matches(sel, e.cipher));
    forall i | 0 <= i < |added| ensures Hit(Del, sel, added[i]) && Touched(Del, added[i]) == matched[i] {
      assert matched[i] in matched;
    }
    FilterAll(added, (e: Entry) => Hit(Del, sel, e));
    FilterNone(added, (e: Entry) => !Hit(Del, sel, e));
    assert Map(added, e => Touched(Del, e)) == matched;
  }

  // ----- The strength sort -----

  function ByStrength(bits: int): Selector { Selector(0, 0, 0, 0, 0, 0, 0, bits) }

  function Inactive(s: seq<Entry>): seq<Entry> { Filter(s, (e: Entry) => !e.active) }

  /** The active entries of one strength, in list order. */
  function OfStrength(s: seq<Entry>, bits: int): seq<Entry> {
    Filter(s, (e: Entry) => e.active && e.cipher.strengthBits == bits)
  }

  /** Entries the sort has not moved once it has dealt with the strengths above `bits`. */
  function Unsorted(s: seq<Entry>, bits: int): seq<Entry> {
    Filter(s, (e: Entry) => !(e.active && e.cipher.strengthBits > bits))
  }

  /** The strengths from `high` down to `low + 1`, each in list order. */
  function Descending(s: seq<Entry>, high: int, low: int): seq<Entry>
    decreases high - low
  {
    if high <= low then [] else Descending(s, high, low + 1) + OfStrength(s, low + 1)
  }

  lemma {:induction false} DescendingMembers(s: seq<Entry>, high: int, low: int)
    ensures forall e :: e in Descending(s, high, low) <==> e in s && e.active && low < e.cipher.strengthBits <= high
    decreases high - low
  {
    if high > low {
      DescendingMembers(s, high, low + 1);
      FilterMembers(s, (e: Entry) => e.active && e.cipher.strengthBits == low + 1);
    }
  }

  /** One ORD move brings the next strength behind the ones already placed. */
  lemma SortStep(s: seq<Entry>, high: int, bits: nat)
    requires bits <= high
    ensures Apply(Ord, ByStrength(bits), Unsorted(s, bits) + Descending(s, high, bits)) ==
              Unsorted(s, bits - 1) + Descending(s, high, bits - 1)
  {
    var sel := ByStrength(bits);
    var left, done := Unsorted(s, bits), Descending(s, high, bits);
    assert Descending(s, high, bits - 1) == done + OfStrength(s, bits);
    DoneStays(s, high, bits);
    StrengthMoves(s, bits);
    hide Hits, Misses, Descending, Unsorted, OfStrength;
    HitsAppend(Ord, sel, left, done);
  }

  lemma DoneStays(s: seq<Entry>, high: int, bits: nat)
    ensures Hits(Ord, ByStrength(bits), Descending(s, high, bits)) == []
    ensures Misses(Ord, ByStrength(bits), Descending(s, high, bits)) == Descending(s, high, bits)
  {
    var sel := ByStrength(bits);
    var done := Descending(s, high, bits);
    DescendingMembers(s, high, bits);
    hide Filter, Descending;
    FilterNone(done, (e: Entry) => Hit(Ord, sel, e));
    FilterAll(done, (e: Entry) => !Hit(Ord, sel, e));
  }

  lemma StrengthMoves(s: seq<Entry>, bits: nat)
    ensures Hits(Ord, ByStrength(bits), Unsorted(s, bits)) == OfStrength(s, bits)
    ensures Misses(Ord, ByStrength(bits), Unsorted(s, bits)) == Unsorted(s, bits - 1)
  {
    hide Filter, Map;
    var sel := ByStrength(bits);
    FilterTwice(s, (e: Entry) => !(e.active && e.cipher.strengthBits > bits), (e: Entry) => !Hit(Ord, sel, e),
                (e: Entry) => !(e.active && e.cipher.strengthBits > bits - 1));
    FilterTwice(s, (e: Entry) => !(e.active && e.cipher.strengthBits > bits), (e: Entry) => Hit(Ord, sel, e),
                (e: Entry) => e.active && e.cipher.strengthBits == bits);
    OrdKeeps(OfStrength(s, bits));
  }

  lemma OrdKeeps(s: seq<Entry>)
    ensures Map(s, e => Touched(Ord, e)) == s
  {
  }

  /** A strength nobody has leaves nothing to move. */
  lemma SortSkip(s: seq<Entry>, high: int, bits: nat)
    requires bits <= high && OfStrength(s, bits) == []
    ensures Unsorted(s, bits) + Descending(s, high, bits) == Unsorted(s, bits - 1) + Descending(s, high, bits - 1)
  {
    FilterMembers(s, (e: Entry) => e.active && e.cipher.strengthBits == bits);
    FilterAgree(s, (e: Entry) => !(e.active && e.cipher.strengthBits > bits),
                (e: Entry) => !(e.active && e.cipher.strengthBits > bits - 1));
    assert Descending(s, high, bits - 1) == Descending(s, high, bits) + OfStrength(s, bits);
  }

  /** The strongest active entry. */
  function MaxStrength(s: seq<Entry>): nat {
    if s == [] then 0
    else
      var e, rest := s[|s| - 1], MaxStrength(s[..|s| - 1]);
      if e.active && e.cipher.strengthBits > rest then e.cipher.strengthBits else rest
  }

  ghost predicate Bounded(s: seq<Entry>, high: int) {
    forall e :: e in s && e.active ==> e.cipher.strengthBits <= high
  }

  lemma {:induction false} MaxBounds(s: seq<Entry>)
    ensures Bounded(s, MaxStrength(s))
  {
    if s != [] {
      MaxBounds(s[..|s| - 1]);
      assert s == s[..|s| - 1] + [s[|s| - 1]];
    }
  }

  lemma OfStrengthOneMore(s: seq<Entry>, e: Entry, bits: int)
    ensures OfStrength(s + [e], bits) ==
              if e.active && e.cipher.strengthBits == bits then OfStrength(s, bits) + [e] else OfStrength(s, bits)
  {
    FilterAppend(s, [e], (x: Entry) => x.active && x.cipher.strengthBits == bits);
    FilterSingle(e, (x: Entry) => x.active && x.cipher.strengthBits == bits);
  }

  /** A table of how many active entries have each strength. */
  ghost predicate Counts(uses: seq<nat>, s: seq<Entry>) {
    forall b :: 0 <= b < |uses| ==> uses[b] == |OfStrength(s, b)|
  }

  lemma CountOne(uses: seq<nat>, s: seq<Entry>, e: Entry)
    requires Counts(uses, s)
    requires e.active ==> e.cipher.strengthBits < |uses|
    ensures var b := e.cipher.strengthBits;
            Counts(if e.active then uses[b := uses[b] + 1] else uses, s + [e])
  {
    hide OfStrength;
    forall b ensures OfStrength(s + [e], b) ==
        if e.active && e.cipher.strengthBits == b then OfStrength(s, b) + [e] else OfStrength(s, b)
    {
      OfStrengthOneMore(s, e, b);
    }
  }

  /** What the sort leaves: the inactive entries, then the active ones by strength. */
  function StrengthSorted(s: seq<Entry>): seq<Entry> {
    Inactive(s) + Descending(s, MaxStrength(s), -1)
  }

  lemma SortBegin(s: seq<Entry>, high: int)
    requires Bounded(s, high)
    ensures Unsorted(s, high) + Descending(s, high, high) == s
  {
    FilterAll(s, (e: Entry) => !(e.active && e.cipher.strengthBits > high));
  }

  lemma SortEnd(s: seq<Entry>)
    ensures Unsorted(s, -1) == Inactive(s)
  {
    FilterAgree(s, (e: Entry) => !(e.active && e.cipher.strengthBits > -1), (e: Entry) => !e.active);
  }

  /** Non-increasing strengths. */
  ghost predicate NonIncreasing(s: seq<Entry>) {
    forall i, j :: 0 <= i < j < |s| ==> s[i].cipher.strengthBits >= s[j].cipher.strengthBits
  }

  lemma {:induction false} DescendingOrder(s: seq<Entry>, high: int, low: int)
    ensures NonIncreasing(Descending(s, high, low))
    decreases high - low
  {
    if high > low {
      DescendingOrder(s, high, low + 1);
      var front, back := Descending(s, high, low + 1), OfStrength(s, low + 1);
      DescendingMembers(s, high, low + 1);
      FilterMembers(s, (e: Entry) => e.active && e.cipher.strengthBits == low + 1);
      var all := front + back;
      forall i, j | 0 <= i < j < |all|
        ensures all[i].cipher.strengthBits >= all[j].cipher.strengthBits
      {
        if i < |front| { assert front[i] in front; } else { assert back[i - |front|] in back; }
        if j >= |front| { assert back[j - |front|] in back; }
      }
    }
  }

  lemma {:induction false} DescendingKeepsOrder(s: seq<Entry>, high: int, low: int, bits: int)
    ensures OfStrength(Descending(s, high, low), bits) == if low < bits <= high then OfStrength(s, bits) else []
    decreases high - low
  {
    if high > low {
      DescendingKeepsOrder(s, high, low + 1, bits);
      FilterAppend(Descending(s, high, low + 1), OfStrength(s, low + 1),
                   (e: Entry) => e.active && e.cipher.strengthBits == bits);
      FilterMembers(s, (e: Entry) => e.active && e.cipher.strengthBits == low + 1);
      if bits == low + 1 {
        FilterAll(OfStrength(s, bits), (e: Entry) => e.active && e.cipher.strengthBits == bits);
      } else {
        FilterNone(OfStrength(s, low + 1), (e: Entry) => e.active && e.cipher.strengthBits == bits);
      }
    }
  }

  /** An arrangement that a stable sort by strength behind the inactive entries may leave. */
  ghost predicate StablySorted(front: seq<Entry>, back: seq<Entry>, s: seq<Entry>) {
    && front == Inactive(s)
    && (forall e :: e in back ==> e.active)
    && NonIncreasing(back)
    && forall bits :: OfStrength(back, bits) == OfStrength(s, bits)
  }

  /** The sort's result is stably sorted. */
  lemma SortIsStable(s: seq<Entry>)
    ensures StablySorted(Inactive(s), Descending(s, MaxStrength(s), -1), s)
  {
    MaxBounds(s);
    DescendingIsStable(s, MaxStrength(s));
  }

  lemma DescendingIsStable(s: seq<Entry>, high: int)
    requires Bounded(s, high)
    ensures StablySorted(Inactive(s), Descending(s, high, -1), s)
  {
    DescendingOrder(s, high, -1);
    DescendingMembers(s, high, -1);
    forall bits ensures OfStrength(Descending(s, high, -1), bits) == OfStrength(s, bits) {
      DescendingKeepsOrder(s, high, -1, bits);
      FilterMembers(s, (e: Entry) => e.active && e.cipher.strengthBits == bits);
      if !(-1 < bits <= high) {
        FilterNone(s, (e: Entry) => e.active && e.cipher.strengthBits == bits);
      }
    }
  }

  /** Any stable arrangement is the sort's. */
  lemma OnlyStableArrangement(s: seq<Entry>, front: seq<Entry>, back: seq<Entry>)
    requires StablySorted(front, back, s)
    ensures front + back == StrengthSorted(s)
  {
    SortIsStable(s);
    forall bits ensures OfStrength(back, bits) == OfStrength(Descending(s, MaxStrength(s), -1), bits) {
      assert OfStrength(back, bits) == OfStrength(s, bits);
    }
    StableIsUnique(back, Descending(s, MaxStrength(s), -1));
  }

  lemma TailNonIncreasing(a: seq<Entry>)
    requires NonIncreasing(a) && a != []
    ensures NonIncreasing(a[1..])
  {
  }

  /** And there is only one stable arrangement. */
  lemma {:induction false} StableIsUnique(a: seq<Entry>, b: seq<Entry>)
    requires NonIncreasing(a) && NonIncreasing(b)
    requires (forall e :: e in a ==> e.active) && forall e :: e in b ==> e.active
    requires forall bits :: OfStrength(a, bits) == OfStrength(b, bits)
    ensures a == b
    decreases |a|
  {
    hide OfStrength;
    if a == [] {
      if b != [] {
        SameHead(b, a);
      }
    } else {
      SameHead(a, b);
      TailNonIncreasing(a);
      TailNonIncreasing(b);
      forall bits ensures OfStrength(a[1..], bits) == OfStrength(b[1..], bits) {
        assert OfStrength(a, bits) == OfStrength(b, bits);
        OfStrengthTail(a, bits);
        OfStrengthTail(b, bits);
      }
      assert a == [a[0]] + a[1..] && b == [b[0]] + b[1..];
      StableIsUnique(a[1..], b[1..]);
    }
  }

  lemma OfStrengthTail(s: seq<Entry>, bits: int)
    requires s != []
    ensures OfStrength(s[1..], bits) ==
              OfStrength(s, bits)[if s[0].active && s[0].cipher.strengthBits == bits then 1 else 0..]
  {
  }

  lemma SameHead(a: seq<Entry>, b: seq<Entry>)
    requires NonIncreasing(a) && NonIncreasing(b) && a != []
    requires (forall e :: e in a ==> e.active) && forall e :: e in b ==> e.active
    requires forall bits :: OfStrength(a, bits) == OfStrength(b, bits)
    ensures b != [] && a[0] == b[0]
  {
    assert a[0] in a;
    var high := a[0].cipher.strengthBits;
    assert OfStrength(a, high) == OfStrength(b, high);
    FilterMembers(b, (e: Entry) => e.active && e.cipher.strengthBits == high);
    assert a[0] == OfStrength(a, high)[0];
    assert a[0] in OfStrength(b, high);
    assert b[0] in b;
    var top := b[0].cipher.strengthBits;
    assert OfStrength(a, top) == OfStrength(b, top);
    FilterMembers(a, (e: Entry) => e.active && e.cipher.strengthBits == top);
    assert b[0] == OfStrength(b, top)[0];
    assert b[0] in OfStrength(a, top);
  }
}
