/**
  The doubly linked list of ciphers, edited in place by the rules.
 */
module CipherList {
  import opened CipherRules

  class Node {
    const cipher: Cipher
    var active: bool
    var next: Node?
    var prev: Node?

    constructor (cipher: Cipher)
      ensures this.cipher == cipher && !active && next == null && prev == null
    {
      this.cipher, active, next, prev := cipher, false, null, null;
    }
  }

  /** The node at position `i`, or null off either end. */
  function At(ns: seq<Node>, i: int): Node? {
    if 0 <= i < |ns| then ns[i] else null
  }

  ghost predicate Distinct(ns: seq<Node>) {
    forall i, j :: 0 <= i < j < |ns| ==> ns[i] != ns[j]
  }

  ghost predicate LinkedAt(ns: seq<Node>, i: int)
    requires 0 <= i < |ns|
    reads ns`next, ns`prev
  {
    NextAt(ns, i) && PrevAt(ns, i)
  }

  ghost predicate NextAt(ns: seq<Node>, i: int)
    requires 0 <= i < |ns|
    reads ns`next
  {
    ns[i].next == At(ns, i + 1)
  }

  ghost predicate PrevAt(ns: seq<Node>, i: int)
    requires 0 <= i < |ns|
    reads ns`prev
  {
    ns[i].prev == At(ns, i - 1)
  }

  ghost predicate Chained(ns: seq<Node>)
    reads ns`next, ns`prev
  {
    forall i {:trigger LinkedAt(ns, i)} :: 0 <= i < |ns| ==> LinkedAt(ns, i)
  }

  ghost function Entries(ns: seq<Node>): (s: seq<Entry>)
    reads ns`active
    ensures |s| == |ns| && forall i :: 0 <= i < |ns| ==> s[i] == Entry(ns[i].cipher, ns[i].active)
  {
    if ns == [] then [] else Entries(ns[..|ns| - 1]) + [Entry(ns[|ns| - 1].cipher, ns[|ns| - 1].active)]
  }

  lemma WithoutNodes(ns: seq<Node>, k: nat)
    requires Distinct(ns) && k < |ns|
    ensures Distinct(Without(ns, k)) && ns[k] !in Without(ns, k)
    ensures |Without(ns, k)| == |ns| - 1
    ensures forall i :: 0 <= i < |ns| - 1 ==> Without(ns, k)[i] == ns[if i < k then i else i + 1]
  {
  }

  lemma WithoutLast(ns: seq<Node>)
    requires ns != []
    ensures Without(ns, |ns| - 1) + [ns[|ns| - 1]] == ns
  {
  }

  lemma WithoutFirst(ns: seq<Node>)
    requires ns != []
    ensures [ns[0]] + Without(ns, 0) == ns
  {
  }

  /** The links once position `k` is bypassed, told by the old positions. */
  ghost predicate BypassedAt(ns: seq<Node>, k: nat, i: int)
    requires 0 <= i < |ns|
    reads ns
  {
    && ns[i].next == At(ns, if i + 1 == k then k + 1 else i + 1)
    && ns[i].prev == At(ns, if i - 1 == k then k - 1 else i - 1)
  }

  lemma BypassedIsChained(ns: seq<Node>, k: nat)
    requires Distinct(ns) && k < |ns|
    requires forall i {:trigger BypassedAt(ns, k, i)} :: 0 <= i < |ns| && i != k ==> BypassedAt(ns, k, i)
    ensures Chained(Without(ns, k))
  {
    WithoutNodes(ns, k);
    var rest := Without(ns, k);
    hide Without, Distinct;
    forall i | 0 <= i < |rest|
      ensures LinkedAt(rest, i)
    {
      var j := if i < k then i else i + 1;
      assert BypassedAt(ns, k, j);
      assert rest[i] == ns[j];
    }
  }

  lemma PushBack(rest: seq<Node>, curr: Node)
    requires Distinct(rest) && curr !in rest && rest != []
    requires forall i {:trigger PrevAt(rest, i)} :: 0 <= i < |rest| ==> PrevAt(rest, i)
    requires forall i {:trigger NextAt(rest, i)} :: 0 <= i < |rest| - 1 ==> NextAt(rest, i)
    requires rest[|rest| - 1].next == curr && curr.prev == rest[|rest| - 1] && curr.next == null
    ensures Distinct(rest + [curr]) && Chained(rest + [curr])
  {
    var ns := rest + [curr];
    forall i | 0 <= i < |ns| ensures LinkedAt(ns, i) {
      if i < |rest| {
        assert PrevAt(rest, i);
        if i < |rest| - 1 { assert NextAt(rest, i); }
      }
    }
  }

  lemma PushFront(rest: seq<Node>, curr: Node)
    requires Distinct(rest) && curr !in rest && rest != []
    requires forall i {:trigger NextAt(rest, i)} :: 0 <= i < |rest| ==> NextAt(rest, i)
    requires forall i {:trigger PrevAt(rest, i)} :: 0 < i < |rest| ==> PrevAt(rest, i)
    requires rest[0].prev == curr && curr.next == rest[0] && curr.prev == null
    ensures Distinct([curr] + rest) && Chained([curr] + rest)
  {
    var ns := [curr] + rest;
    forall i | 0 <= i < |ns| ensures LinkedAt(ns, i) {
      if i > 0 {
        assert NextAt(rest, i - 1);
        if i > 1 { assert PrevAt(rest, i - 1); }
      }
    }
  }

  /** Rewrites the neighbours of `curr` so that they bypass it. */
  method Bypass(curr: Node, ghost ns: seq<Node>, ghost k: nat)
    requires Distinct(ns) && Chained(ns) && k < |ns| && ns[k] == curr
    modifies ns`next, ns`prev
    ensures Chained(Without(ns, k)) && curr.next == old(curr.next) && curr.prev == old(curr.prev)
  {
    assert LinkedAt(ns, k);
    if curr.prev != null {
      curr.prev.next := curr.next;
    }
    if curr.next != null {
      curr.next.prev := curr.prev;
    }
    forall i | 0 <= i < |ns| && i != k
      ensures BypassedAt(ns, k, i)
    {
      assert old(LinkedAt(ns, i));
    }
    BypassedIsChained(ns, k);
  }

  lemma LinksOf(ns: seq<Node>, k: nat)
    requires Chained(ns) && k < |ns|
    ensures LinkedAt(ns, k)
  {
  }

  lemma TakeOne(s: seq<Entry>, i: nat)
    requires i < |s|
    ensures s[..i + 1] == s[..i] + [s[i]]
  {
  }

  lemma OthersDiffer(ns: seq<Node>, k: nat)
    requires Distinct(ns) && k < |ns|
    ensures forall i :: 0 <= i < |ns| && i != k ==> ns[i] != ns[k]
  {
  }

  lemma EntriesAppend(s: seq<Node>, t: seq<Node>)
    ensures Entries(s + t) == Entries(s) + Entries(t)
  {
    hide Entries;
  }

  lemma EntriesWithout(ns: seq<Node>, k: nat, s: seq<Entry>)
    requires k < |ns| == |s|
    requires forall i :: 0 <= i < |ns| && i != k ==> s[i] == Entry(ns[i].cipher, ns[i].active)
    ensures Entries(Without(ns, k)) == Without(s, k)
  {
    hide Entries;
    EntriesAppend(ns[..k], ns[k + 1..]);
    assert Entries(ns[..k]) == s[..k];
    assert Entries(ns[k + 1..]) == s[k + 1..];
  }

  /** The entries were `s`; only `ns[k]` has changed and moved. */
  lemma PlacedEntries(rule: Rule, ns: seq<Node>, k: nat, s: seq<Entry>)
    requires k < |ns| == |s|
    requires forall i :: 0 <= i < |ns| && i != k ==> s[i] == Entry(ns[i].cipher, ns[i].active)
    ensures Entries(Placed(rule, true, ns, k, ns[k])) == Placed(rule, true, s, k, Entry(ns[k].cipher, ns[k].active))
  {
    hide Entries, Without;
    EntriesWithout(ns, k, s);
    assert Entries([ns[k]]) == [Entry(ns[k].cipher, ns[k].active)];
    EntriesAppend(Without(ns, k), [ns[k]]);
    EntriesAppend([ns[k]], Without(ns, k));
  }

  lemma Touches(rule: Rule, e: Entry)
    ensures Touched(rule, e) == Entry(e.cipher, match rule case Add => true case Ord => e.active case _ => false)
  {
  }

  method Increment(a: array<nat>, b: nat)
    requires b < a.Length
    modifies a
    ensures a[..] == old(a[..])[b := old(a[b]) + 1]
  {
    a[b] := a[b] + 1;
  }

  class List {
    var head: Node?
    var tail: Node?
    ghost var nodes: seq<Node>

    ghost predicate Valid()
      reads this, nodes`next, nodes`prev
    {
      && Distinct(nodes)
      && Chained(nodes)
      && head == At(nodes, 0)
      && tail == At(nodes, |nodes| - 1)
    }

    ghost function Contents(): seq<Entry>
      reads this, nodes
    {
      Entries(nodes)
    }

    lemma Ends()
      requires Valid()
      ensures Distinct(nodes) && head == At(nodes, 0) && tail == At(nodes, |nodes| - 1) && |Contents()| == |nodes|
    {
    }

    /** ll_append_tail. */
    method AppendTail(curr: Node, ghost k: nat)
      requires Valid() && k < |nodes| && nodes[k] == curr
      modifies this, nodes`next, nodes`prev
      ensures Valid() && nodes == Without(old(nodes), k) + [curr]
    {
      hide Without, Distinct, Chained;
      WithoutNodes(nodes, k);
      OthersDiffer(nodes, k);
      if curr == tail {
        WithoutLast(nodes);
        return;
      }
      LinksOf(nodes, k);
      if curr == head {
        head := curr.next;
      }
      ghost var rest := Without(nodes, k);
      Bypass(curr, nodes, k);
      assert rest[0] == head && rest[|rest| - 1] == tail;
      OthersDiffer(rest, |rest| - 1);
      forall i | 0 <= i < |rest| ensures LinkedAt(rest, i) { LinksOf(rest, i); }
      label bypassed:
      tail.next := curr;
      curr.prev := tail;
      curr.next := null;
      tail := curr;
      nodes := rest + [curr];
      forall i | 0 <= i < |rest|
        ensures PrevAt(rest, i) && (i < |rest| - 1 ==> NextAt(rest, i))
      {
        assert old@bypassed(LinkedAt(rest, i));
      }
      PushBack(rest, curr);
    }

    /** ll_append_head. */
    method AppendHead(curr: Node, ghost k: nat)
      requires Valid() && k < |nodes| && nodes[k] == curr
      modifies this, nodes`next, nodes`prev
      ensures Valid() && nodes == [curr] + Without(old(nodes), k)
    {
      hide Without, Distinct, Chained;
      WithoutNodes(nodes, k);
      OthersDiffer(nodes, k);
      if curr == head {
        WithoutFirst(nodes);
        return;
      }
      LinksOf(nodes, k);
      if curr == tail {
        tail := curr.prev;
      }
      ghost var rest := Without(nodes, k);
      Bypass(curr, nodes, k);
      assert rest[0] == head && rest[|rest| - 1] == tail;
      OthersDiffer(rest, 0);
      forall i | 0 <= i < |rest| ensures LinkedAt(rest, i) { LinksOf(rest, i); }
      label bypassed:
      head.prev := curr;
      curr.next := head;
      curr.prev := null;
      head := curr;
      nodes := [curr] + rest;
      assert nodes[|nodes| - 1] == tail;
      forall i | 0 <= i < |rest|
        ensures NextAt(rest, i) && (i > 0 ==> PrevAt(rest, i))
      {
        assert old@bypassed(LinkedAt(rest, i));
      }
      PushFront(rest, curr);
    }

    /** The CIPHER_KILL branch; its two writes to the previous node's link are one here. */
    method Unlink(curr: Node, ghost k: nat)
      requires Valid() && k < |nodes| && nodes[k] == curr
      modifies this, nodes
      ensures Valid() && nodes == Without(old(nodes), k)
      ensures curr.next == null && curr.prev == null && !curr.active
      ensures forall i :: 0 <= i < |old(nodes)| && i != k ==> old(nodes)[i].active == old(nodes[i].active)
    {
      assert LinkedAt(nodes, k);
      ghost var rest := Without(nodes, k);
      WithoutNodes(nodes, k);
      if head == curr {
        head := curr.next;
      }
      if tail == curr {
        tail := curr.prev;
      }
      Bypass(curr, nodes, k);
      label bypassed:
      curr.active := false;
      curr.next := null;
      curr.prev := null;
      nodes := rest;
      forall i | 0 <= i < |nodes|
        ensures LinkedAt(nodes, i)
      {
        assert old@bypassed(LinkedAt(rest, i));
      }
    }

    /** What a rule does to a node it hits. */
    method Act(rule: Rule, curr: Node, ghost k: nat)
      requires Valid() && k < |nodes| && nodes[k] == curr
      modifies this, nodes
      ensures Valid() && nodes == Placed(rule, true, old(nodes), k, curr)
      ensures Contents() == Placed(rule, true, old(Contents()), k, Touched(rule, old(Contents()[k])))
    {
      hide Distinct, Chained, Without, Entries, Touched, At;
      OthersDiffer(nodes, k);
      Touches(rule, Contents()[k]);
      if rule == Add {
        AppendTail(curr, k);
        curr.active := true;
      } else if rule == Ord {
        AppendTail(curr, k);
      } else if rule == Del {
        AppendHead(curr, k);
        curr.active := false;
      } else {
        Unlink(curr, k);
      }
      PlacedEntries(rule, old(nodes), k, old(Contents()));
    }

    /** The body of the loop in ssl_cipher_apply_rule. */
    method Visit(rule: Rule, sel: Selector, curr: Node, ghost k: nat)
      requires Valid() && k < |nodes| && nodes[k] == curr
      modifies this, nodes
      ensures Valid()
      ensures var s := old(Contents()); var hit := Hit(rule, sel, s[k]);
              && nodes == Placed(rule, hit, old(nodes), k, curr)
              && Contents() == Placed(rule, hit, s, k, Touched(rule, s[k]))
    {
      hide Matches, Distinct, Chained, Without, Entries, Touched, At;
      if Matches(sel, curr.cipher) {
        if rule == Kill || curr.active == (rule != Add) {
          Act(rule, curr, k);
        }
      }
    }

    /** One turn of the loop, which begins by fetching the node to visit after this one. */
    method Step(rule: Rule, sel: Selector, curr: Node?, ghost s: seq<Entry>, ghost orig: seq<Node>, ghost left: nat,
                ghost visited: Node?, ghost last: Node?)
      returns (next: Node?)
      requires Valid() && |orig| == |s| && visited != last
      requires Sweeping(rule, sel, s, orig, left, nodes, Contents(), visited, curr, last)
      modifies this, orig
      ensures Valid() && left > 0
      ensures Sweeping(rule, sel, s, orig, left - 1, nodes, Contents(), curr, next, last)
    {
      hide Sweeping, Hit, Touched, Placed, Kept, Chained, Distinct, Entries, At;
      ghost var k := Turn(rule, sel, s, orig, left, nodes, Contents(), visited, curr, last);
      LinksOf(nodes, k);
      StillThere(rule, sel, s, orig, left, nodes, Contents(), visited, curr, last);
      next := if rule == Del then curr.prev else curr.next;
      Visit(rule, sel, curr, k);
    }

    /** ssl_cipher_apply_rule. */
    method ApplyRule(rule: Rule, sel: Selector)
      requires Valid()
      modifies this, nodes
      ensures Valid() && Contents() == Apply(rule, sel, old(Contents()))
      ensures Kept(rule, nodes, old(nodes))
    {
      hide *;
      Ends();
      ghost var orig, s := nodes, Contents();
      var next, last := if rule == Del then tail else head, if rule == Del then head else tail;
      var curr: Node? := null;
      ghost var left: nat := |orig|;
      SweepStart(rule, sel, s, nodes, next, last);
      while curr != last
        invariant Valid() && |orig| == |s|
        invariant Sweeping(rule, sel, s, orig, left, nodes, Contents(), curr, next, last)
        decreases left
      {
        var after := Step(rule, sel, next, s, orig, left, curr, last);
        left := left - 1;
        curr, next := next, after;
      }
      SweepDone(rule, sel, s, orig, left, nodes, Contents(), curr, next, last);
    }

    /** The first loop of ssl_cipher_strength_sort. */
    method FindMaxStrength() returns (maxStrengthBits: nat)
      requires Valid()
      ensures maxStrengthBits == MaxStrength(Contents())
    {
      maxStrengthBits := 0;
      var curr := head;
      ghost var s, i := Contents(), 0;
      while curr != null
        invariant 0 <= i <= |nodes| && curr == At(nodes, i)
        invariant maxStrengthBits == MaxStrength(s[..i])
        decreases |nodes| - i
      {
        assert s[..i + 1][..i] == s[..i];
        LinksOf(nodes, i);
        if curr.active && curr.cipher.strengthBits > maxStrengthBits {
          maxStrengthBits := curr.cipher.strengthBits;
        }
        curr := curr.next;
        i := i + 1;
      }
      assert s[..i] == s;
    }

    /** The second loop: how many active ciphers use each strength. */
    method CountUses(maxStrengthBits: nat) returns (numberUses: array<nat>)
      requires Valid() && maxStrengthBits == MaxStrength(Contents())
      ensures fresh(numberUses) && numberUses.Length == maxStrengthBits + 1 && Counts(numberUses[..], Contents())
    {
      hide Distinct, Chained, OfStrength, Counts, MaxStrength;
      numberUses := new nat[maxStrengthBits + 1](i => 0);
      var curr := head;
      ghost var s, i := Contents(), 0;
      MaxBounds(s);
      NothingCounted(numberUses[..]);
      while curr != null
        invariant 0 <= i <= |nodes| && curr == At(nodes, i)
        invariant Counts(numberUses[..], s[..i])
        decreases |nodes| - i
      {
        LinksOf(nodes, i);
        assert s[i] in s && s[i] == Entry(curr.cipher, curr.active);
        CountOne(numberUses[..], s[..i], s[i]);
        TakeOne(s, i);
        if curr.active {
          Increment(numberUses, curr.cipher.strengthBits);
        }
        curr := curr.next;
        i := i + 1;
      }
      assert s[..i] == s;
    }

    /** ssl_cipher_strength_sort. */
    method StrengthSort()
      requires Valid()
      modifies this, nodes
      ensures Valid() && Contents() == StrengthSorted(old(Contents()))
      ensures Kept(Ord, nodes, old(nodes))
    {
      hide *;
      ghost var orig, s := nodes, Contents();
      var maxStrengthBits := FindMaxStrength();
      var numberUses := CountUses(maxStrengthBits);
      MaxBounds(s);
      SortBegin(s, maxStrengthBits);
      KeptSelf(nodes);
      for i := maxStrengthBits + 1 downto 0
        invariant Valid() && Contents() == Unsorted(s, i - 1) + Descending(s, maxStrengthBits, i - 1)
        invariant Kept(Ord, nodes, orig) && Counts(numberUses[..], s)
      {
        CountAt(numberUses[..], s, i);
        if numberUses[i] > 0 {
          SortStep(s, maxStrengthBits, i);
          ghost var before := nodes;
          KeptIn(before, orig);
          ApplyRule(Ord, ByStrength(i));
          KeptTwice(nodes, before, orig);
        } else {
          SortSkip(s, maxStrengthBits, i);
        }
      }
      SortEnd(s);
      SortedUnfold(s);
    }
  }

  lemma NothingCounted(uses: seq<nat>)
    requires forall b :: 0 <= b < |uses| ==> uses[b] == 0
    ensures Counts(uses, [])
  {
  }

  lemma CountAt(uses: seq<nat>, s: seq<Entry>, b: nat)
    requires Counts(uses, s) && b < |uses|
    ensures uses[b] == |OfStrength(s, b)|
  {
  }

  lemma SortedUnfold(s: seq<Entry>)
    ensures StrengthSorted(s) == Inactive(s) + Descending(s, MaxStrength(s), -1)
  {
  }

  lemma KeptSelf(nodes: seq<Node>)
    ensures Kept(Ord, nodes, nodes)
  {
  }

  lemma KeptIn(nodes: seq<Node>, orig: seq<Node>)
    requires Kept(Ord, nodes, orig)
    ensures forall j :: 0 <= j < |nodes| ==> nodes[j] in orig
  {
    forall j | 0 <= j < |nodes| ensures nodes[j] in orig {
      assert nodes[j] in multiset(nodes);
    }
  }

  lemma KeptTwice(after: seq<Node>, nodes: seq<Node>, orig: seq<Node>)
    requires Kept(Ord, after, nodes) && Kept(Ord, nodes, orig)
    ensures Kept(Ord, after, orig)
  {
  }

  /** Where a sweep of `n` entries stands with `left` to go. */
  function Turned(rule: Rule, n: nat, left: nat): nat
    requires left <= n
  {
    if rule == Del then left else n - left
  }

  /** The state of a sweep over `orig`, with entries `s`, that has `left` nodes still to visit. */
  ghost predicate Sweeping(rule: Rule, sel: Selector, s: seq<Entry>, orig: seq<Node>, left: nat,
                           nodes: seq<Node>, contents: seq<Entry>, curr: Node?, next: Node?, last: Node?)
    requires |orig| == |s|
  {
    && left <= |s|
    && contents == Mixed(rule, sel, s, Turned(rule, |s|, left))
    && Pending(rule, nodes, orig, Position(rule, sel, s, Turned(rule, |s|, left)), Turned(rule, |s|, left))
    && Cursors(rule == Del, orig, Turned(rule, |s|, left), curr, next, last)
    && |nodes| == |contents|
    && Kept(rule, nodes, orig)
    && Distinct(orig)
  }

  lemma StillThere(rule: Rule, sel: Selector, s: seq<Entry>, orig: seq<Node>, left: nat,
                   nodes: seq<Node>, contents: seq<Entry>, curr: Node?, next: Node?, last: Node?)
    requires |orig| == |s| && Sweeping(rule, sel, s, orig, left, nodes, contents, curr, next, last)
    ensures forall j :: 0 <= j < |nodes| ==> nodes[j] in orig
  {
    assert Kept(rule, nodes, orig);
    hide Sweeping;
    forall j | 0 <= j < |nodes| ensures nodes[j] in orig {
      assert nodes[j] in multiset(nodes);
    }
  }

  lemma SweepStart(rule: Rule, sel: Selector, s: seq<Entry>, nodes: seq<Node>, next: Node?, last: Node?)
    requires |nodes| == |s| && Distinct(nodes)
    requires next == At(nodes, if rule == Del then |nodes| - 1 else 0)
    requires last == At(nodes, if rule == Del then 0 else |nodes| - 1)
    ensures Sweeping(rule, sel, s, nodes, |nodes|, nodes, s, null, next, last)
  {
    SweepEnds(rule, sel, s);
    hide Mixed, Position, Distinct, Hits, Misses;
  }

  lemma SweepDone(rule: Rule, sel: Selector, s: seq<Entry>, orig: seq<Node>, left: nat,
                  nodes: seq<Node>, contents: seq<Entry>, curr: Node?, next: Node?, last: Node?)
    requires |orig| == |s| && Sweeping(rule, sel, s, orig, left, nodes, contents, curr, next, last) && curr == last
    ensures contents == Apply(rule, sel, s) && Kept(rule, nodes, orig)
  {
    hide Mixed, Position, Apply, Pending;
    SweepEnds(rule, sel, s);
  }

  /** The nodes of `orig` that a sweep has still to visit stand in the list from position `at` on. */
  ghost predicate Pending(rule: Rule, nodes: seq<Node>, orig: seq<Node>, at: nat, i: nat) {
    && i <= |orig|
    && if rule == Del then at + i <= |nodes| && forall j :: 0 <= j < i ==> orig[j] == nodes[at + j]
       else at + |orig| - i <= |nodes| && forall j :: i <= j < |orig| ==> orig[j] == nodes[at + j - i]
  }

  /** Nodes only move, or are lost for good. */
  ghost predicate Kept(rule: Rule, nodes: seq<Node>, orig: seq<Node>) {
    if rule == Kill then multiset(nodes) <= multiset(orig) else multiset(nodes) == multiset(orig)
  }

  /** The sweep's pointers: `curr` is the node visited last, `next` the one to visit. */
  ghost predicate Cursors(reverse: bool, orig: seq<Node>, i: int, curr: Node?, next: Node?, last: Node?) {
    if reverse then
      curr == At(orig, i) && last == At(orig, 0) && (i > 0 ==> next == At(orig, i - 1))
    else
      curr == At(orig, i - 1) && last == At(orig, |orig| - 1) && (i < |orig| ==> next == At(orig, i))
  }

  lemma CursorsLive(reverse: bool, orig: seq<Node>, i: nat, curr: Node?, next: Node?, last: Node?)
    requires Cursors(reverse, orig, i, curr, next, last) && curr != last && i <= |orig|
    ensures if reverse then i > 0 && next == orig[i - 1] else i < |orig| && next == orig[i]
  {
  }

  lemma CursorsMove(reverse: bool, orig: seq<Node>, i: nat, visited: Node?, curr: Node?, last: Node?,
                    nodes: seq<Node>, k: nat, next: Node?)
    requires Cursors(reverse, orig, i, visited, curr, last)
    requires k < |nodes| && i <= |orig| && next == if reverse then At(nodes, k - 1) else At(nodes, k + 1)
    requires if reverse then i > 0 && curr == orig[i - 1] && (i > 1 ==> k > 0 && nodes[k - 1] == orig[i - 2])
             else i < |orig| && curr == orig[i] && (i < |orig| - 1 ==> k + 1 < |nodes| && nodes[k + 1] == orig[i + 1])
    ensures Cursors(reverse, orig, if reverse then i - 1 else i + 1, curr, next, last)
  {
  }

  lemma KeptNodes(rule: Rule, hit: bool, nodes: seq<Node>, k: nat, orig: seq<Node>)
    requires k < |nodes| && Kept(rule, nodes, orig)
    ensures Kept(rule, Placed(rule, hit, nodes, k, nodes[k]), orig)
  {
    assert nodes == nodes[..k] + [nodes[k]] + nodes[k + 1..];
  }

  lemma TurnForward(rule: Rule, sel: Selector, s: seq<Entry>, orig: seq<Node>, left: nat,
                    nodes: seq<Node>, contents: seq<Entry>, curr: Node?, next: Node?, last: Node?) returns (k: nat)
    requires rule != Del
    requires |orig| == |s| && Sweeping(rule, sel, s, orig, left, nodes, contents, curr, next, last) && curr != last
    ensures left > 0 && k < |nodes| == |contents| && nodes[k] == next
    ensures var hit, e := Hit(rule, sel, contents[k]), Touched(rule, contents[k]);
            Sweeping(rule, sel, s, orig, left - 1, Placed(rule, hit, nodes, k, nodes[k]),
                     Placed(rule, hit, contents, k, e), next, At(nodes, k + 1), last)
  {
    hide Mixed, Position, Hit, Touched, Pending, Placed, Cursors, Kept, Distinct, At;
    var i := Turned(rule, |s|, left);
    CursorsLive(rule == Del, orig, i, curr, next, last);
    SweepForward(rule, sel, s, i);
    k := Position(rule, sel, s, i);
    PendingForward(rule, Hit(rule, sel, s[i]), nodes, orig, k, i);
    CursorsMove(false, orig, i, curr, next, last, nodes, k, At(nodes, k + 1));
    KeptNodes(rule, Hit(rule, sel, contents[k]), nodes, k, orig);
    SameLength(rule, Hit(rule, sel, contents[k]), nodes, contents, k, Touched(rule, contents[k]));
  }

  lemma TurnBackward(rule: Rule, sel: Selector, s: seq<Entry>, orig: seq<Node>, left: nat,
                     nodes: seq<Node>, contents: seq<Entry>, curr: Node?, next: Node?, last: Node?) returns (k: nat)
    requires rule == Del
    requires |orig| == |s| && Sweeping(rule, sel, s, orig, left, nodes, contents, curr, next, last) && curr != last
    ensures left > 0 && k < |nodes| == |contents| && nodes[k] == next
    ensures var hit, e := Hit(rule, sel, contents[k]), Touched(rule, contents[k]);
            Sweeping(rule, sel, s, orig, left - 1, Placed(rule, hit, nodes, k, nodes[k]),
                     Placed(rule, hit, contents, k, e), next, At(nodes, k - 1), last)
  {
    hide Mixed, Position, Hit, Touched, Pending, Placed, Cursors, Kept, Distinct, At;
    var i := Turned(rule, |s|, left);
    CursorsLive(rule == Del, orig, i, curr, next, last);
    SweepBackward(sel, s, i);
    k := Position(rule, sel, s, i) + i - 1;
    PendingBackward(Hit(rule, sel, s[i - 1]), nodes, orig, Position(rule, sel, s, i), i);
    CursorsMove(true, orig, i, curr, next, last, nodes, k, At(nodes, k - 1));
    KeptNodes(rule, Hit(rule, sel, contents[k]), nodes, k, orig);
    SameLength(rule, Hit(rule, sel, contents[k]), nodes, contents, k, Touched(rule, contents[k]));
  }

  /** One turn of a sweep: the place of the node it visits, and the state once the rule has acted on it. */
  lemma Turn(rule: Rule, sel: Selector, s: seq<Entry>, orig: seq<Node>, left: nat,
             nodes: seq<Node>, contents: seq<Entry>, curr: Node?, next: Node?, last: Node?) returns (k: nat)
    requires |orig| == |s| && Sweeping(rule, sel, s, orig, left, nodes, contents, curr, next, last) && curr != last
    ensures left > 0 && k < |nodes| == |contents| && nodes[k] == next
    ensures var hit, e := Hit(rule, sel, contents[k]), Touched(rule, contents[k]);
            Sweeping(rule, sel, s, orig, left - 1, Placed(rule, hit, nodes, k, nodes[k]),
                     Placed(rule, hit, contents, k, e), next, if rule == Del then At(nodes, k - 1) else At(nodes, k + 1), last)
  {
    hide Hit, Touched, Placed, At;
    if rule == Del {
      k := TurnBackward(rule, sel, s, orig, left, nodes, contents, curr, next, last);
    } else {
      k := TurnForward(rule, sel, s, orig, left, nodes, contents, curr, next, last);
    }
  }

  lemma SameLength(rule: Rule, hit: bool, nodes: seq<Node>, contents: seq<Entry>, k: nat, e: Entry)
    requires |nodes| == |contents| && k < |nodes|
    ensures |Placed(rule, hit, nodes, k, nodes[k])| == |Placed(rule, hit, contents, k, e)|
  {
  }

  lemma PendingForward(rule: Rule, hit: bool, nodes: seq<Node>, orig: seq<Node>, at: nat, i: nat)
    requires rule != Del && i < |orig| && Pending(rule, nodes, orig, at, i)
    ensures at < |nodes| && nodes[at] == orig[i]
    ensures i < |orig| - 1 ==> at + 1 < |nodes| && nodes[at + 1] == orig[i + 1]
    ensures Pending(rule, Placed(rule, hit, nodes, at, nodes[at]), orig, if hit then at else at + 1, i + 1)
  {
    assert orig[i] == nodes[at];
    var placed := Placed(rule, hit, nodes, at, nodes[at]);
    forall j | i < j < |orig|
      ensures orig[j] == placed[(if hit then at else at + 1) + j - (i + 1)]
    {
      assert orig[j] == nodes[at + j - i];
    }
  }

  lemma PendingBackward(hit: bool, nodes: seq<Node>, orig: seq<Node>, at: nat, i: nat)
    requires 0 < i <= |orig| && Pending(Del, nodes, orig, at, i)
    ensures at + i - 1 < |nodes| && nodes[at + i - 1] == orig[i - 1] && (i > 1 ==> nodes[at + i - 2] == orig[i - 2])
    ensures Pending(Del, Placed(Del, hit, nodes, at + i - 1, nodes[at + i - 1]), orig, if hit then at + 1 else at, i - 1)
  {
    assert orig[i - 1] == nodes[at + i - 1];
    var placed := Placed(Del, hit, nodes, at + i - 1, nodes[at + i - 1]);
    forall j | 0 <= j < i - 1
      ensures orig[j] == placed[(if hit then at + 1 else at) + j]
    {
      assert orig[j] == nodes[at + j];
    }
  }
}
