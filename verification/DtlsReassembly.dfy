/**
  Reassembly of DTLS handshake messages from fragments that arrive in any order, overlapping or twice
  (section 4.2.3 of RFC 6347).
 */
module DtlsReassembly {
  import opened Bytes
  import opened DtlsBitmask
  import Words

  // ----- What reassembly means -----

  /** A message being put together: the bytes so far, and which of them have arrived. */
  datatype Assembly = Assembly(buffer: seq<byte>, marked: seq<bool>) {
    ghost predicate Valid() { |buffer| == |marked| }

    predicate Complete() { forall i :: 0 <= i < |marked| ==> marked[i] }
  }

  function Fresh(msgLen: nat): (a: Assembly)
    ensures a.Valid()
  {
    Assembly(seq(msgLen, i => 0), seq(msgLen, i => false))
  }

  function Overwrite(buffer: seq<byte>, off: nat, body: seq<byte>): (r: seq<byte>)
    requires off + |body| <= |buffer|
    ensures |r| == |buffer|
  {
    buffer[..off] + body + buffer[off + |body|..]
  }

  /** A fragment arrives; once the message is complete it is dropped. */
  function Deliver(a: Assembly, off: nat, body: seq<byte>): (r: Assembly)
    requires a.Valid() && off + |body| <= |a.buffer|
    ensures r.Valid() && |r.buffer| == |a.buffer|
  {
    if a.Complete() then a
    else Assembly(Overwrite(a.buffer, off, body),
                  seq(|a.marked|, i requires 0 <= i < |a.marked| => a.marked[i] || off <= i < off + |body|))
  }

  // ----- Whole runs -----

  datatype Piece = Piece(off: nat, body: seq<byte>)

  predicate Fits(p: Piece, n: nat) { p.off + |p.body| <= n }

  ghost predicate SliceOf(p: Piece, m: seq<byte>) {
    p.body != [] && Fits(p, |m|) && p.body == m[p.off..p.off + |p.body|]
  }

  ghost predicate Slices(pieces: seq<Piece>, m: seq<byte>) {
    forall k :: 0 <= k < |pieces| ==> SliceOf(pieces[k], m) && Fits(pieces[k], |m|)
  }

  predicate Covers(p: Piece, i: int) { p.off <= i < p.off + |p.body| }

  ghost predicate Covered(pieces: seq<Piece>, i: int) { exists k :: 0 <= k < |pieces| && Covers(pieces[k], i) }

  function Assemble(n: nat, pieces: seq<Piece>): (a: Assembly)
    requires forall k :: 0 <= k < |pieces| ==> Fits(pieces[k], n)
    ensures a.Valid() && |a.buffer| == n
  {
    if pieces == [] then Fresh(n)
    else
      var last := |pieces| - 1;
      assert Fits(pieces[last], n);
      Deliver(Assemble(n, pieces[..last]), pieces[last].off, pieces[last].body)
  }

  /** For slices of one message in any order, with overlaps and duplicates: exactly the covered bytes are
      marked, and a marked byte is the message's. */
  lemma {:induction false} AnyOrder(m: seq<byte>, pieces: seq<Piece>)
    requires Slices(pieces, m)
    ensures var a := Assemble(|m|, pieces);
            forall i :: 0 <= i < |m| ==> (a.marked[i] <==> Covered(pieces, i)) && (a.marked[i] ==> a.buffer[i] == m[i])
  {
    if pieces != [] {
      var last := |pieces| - 1;
      var p := pieces[last];
      AnyOrder(m, pieces[..last]);
      var before := Assemble(|m|, pieces[..last]);
      var a := Assemble(|m|, pieces);
      forall i | 0 <= i < |m|
        ensures (a.marked[i] <==> Covered(pieces, i)) && (a.marked[i] ==> a.buffer[i] == m[i])
      {
        CoveredOneMore(pieces, i);
        assert before.marked[i] <==> Covered(pieces[..last], i);
        if Covers(p, i) { assert p.body[i - p.off] == m[i]; }
      }
    }
  }

  lemma CoveredOneMore(pieces: seq<Piece>, i: int)
    requires pieces != []
    ensures Covered(pieces, i) <==> Covered(pieces[..|pieces| - 1], i) || Covers(pieces[|pieces| - 1], i)
  {
    var front := pieces[..|pieces| - 1];
    if Covered(pieces, i) {
      var k :| 0 <= k < |pieces| && Covers(pieces[k], i);
      if k < |front| { assert Covers(front[k], i); }
    }
    if Covered(front, i) {
      var k :| 0 <= k < |front| && Covers(front[k], i);
      assert Covers(pieces[k], i);
    }
  }

  /** Reassembly is complete exactly when every byte is covered, and the buffer then is the message. */
  lemma CompleteIffCovered(m: seq<byte>, pieces: seq<Piece>)
    requires Slices(pieces, m)
    ensures var a := Assemble(|m|, pieces);
            && (a.Complete() <==> forall i :: 0 <= i < |m| ==> Covered(pieces, i))
            && (a.Complete() ==> a.buffer == m)
  {
    AnyOrder(m, pieces);
    var a := Assemble(|m|, pieces);
    if a.Complete() {
      assert forall i :: 0 <= i < |m| ==> a.marked[i] && a.buffer[i] == m[i];
    } else {
      var i :| 0 <= i < |a.marked| && !a.marked[i];
      assert !Covered(pieces, i);
    }
  }

  // ----- The fragment buffer -----

  datatype Header = Header(msgType: nat, msgLen: nat, seqNum: nat, fragOff: nat, fragLen: nat)

  const FRAGMENT_RETRY: int := -3

  class Fragment {
    var header: Header
    const fragment: array<byte>
    var reassembly: array?<byte>

    ghost function Repr(): set<object>
      reads this
    {
      {this, fragment} + if reassembly == null then {} else {reassembly}
    }

    ghost predicate Valid()
      reads this, Repr()
    {
      && fragment.Length == header.msgLen > 0
      && (reassembly != null ==>
            && reassembly != fragment
            && Clean(reassembly[..], header.msgLen)
            && !AllMarked(reassembly[..], header.msgLen))
    }

    ghost function View(): (a: Assembly)
      requires Valid()
      reads this, Repr()
      ensures a.Valid() && |a.buffer| == header.msgLen && (a.Complete() <==> reassembly == null)
    {
      if reassembly == null then Assembly(fragment[..], seq(header.msgLen, i => true))
      else
        AllAreMarked(reassembly[..], header.msgLen);
        Assembly(fragment[..], Marks(reassembly[..], header.msgLen))
    }

    /** dtls1_hm_fragment_new, as dtls1_reassemble_fragment uses it. */
    constructor (header: Header)
      requires header.msgLen > 0
      ensures Valid() && fresh(Repr()) && View() == Fresh(header.msgLen)
      ensures this.header == header.(fragLen := header.msgLen, fragOff := 0) && reassembly != null
    {
      this.header := header.(fragLen := header.msgLen, fragOff := 0);
      fragment := new byte[header.msgLen](i => 0);
      reassembly := new byte[Size(header.msgLen)](i => 0);
      new;
      NothingMarked(reassembly[..], header.msgLen);
      assert fragment[..] == Fresh(header.msgLen).buffer;
    }

    /** The body is read into its place, and marked. */
    method Receive(off: nat, body: seq<byte>)
      requires Valid() && reassembly != null && off + |body| <= header.msgLen
      modifies Repr()
      ensures Valid() && View() == Deliver(old(View()), off, body)
      ensures header == old(header) && Repr() <= old(Repr())
    {
      ghost var before, marks := fragment[..], reassembly[..];
      Store(off, body);
      Mark(reassembly, off, off + |body|);
      MarkClean(marks, reassembly[..], off, off + |body|, header.msgLen);
      var isComplete := IsComplete(reassembly, header.msgLen);
      MarksDelivered(marks, reassembly[..], before, header.msgLen, off, body);
      AllAreMarked(reassembly[..], header.msgLen);
      if isComplete {
        reassembly := null;
      }
    }

    /** A read that stops short of the fragment's length leaves its bytes in the buffer, unmarked. */
    method ReceiveShort(off: nat, body: seq<byte>)
      requires Valid() && reassembly != null && off + |body| <= header.msgLen
      modifies fragment
      ensures Valid() && View() == old(View()).(buffer := Overwrite(old(View()).buffer, off, body))
    {
      Store(off, body);
    }

    /** The read into the fragment buffer. */
    method Store(off: nat, body: seq<byte>)
      requires off + |body| <= fragment.Length
      modifies fragment
      ensures fragment[..] == Overwrite(old(fragment[..]), off, body)
    {
      forall i | 0 <= i < |body| {
        fragment[off + i] := body[i];
      }
    }
  }

  /** A new buffer with the first fragment in it. */
  method FirstFragment(header: Header, body: seq<byte>) returns (frag: Fragment)
    requires header.msgLen > 0 && header.fragOff + |body| <= header.msgLen
    ensures fresh(frag.Repr()) && frag.Valid() && frag.header.seqNum == header.seqNum
    ensures frag.View() == Deliver(Fresh(header.msgLen), header.fragOff, body)
  {
    frag := new Fragment(header);
    frag.Receive(header.fragOff, body);
  }

  /** What a fragment with header `h`, in a record that continues with `rest`, does to what is known of its
      message, and the code returned; a read that finds nothing left returns `atEnd`. */
  function Reassembled(known: Option<Assembly>, h: Header, maxMessageLen: nat, rest: seq<byte>, atEnd: EndResult): (Option<Assembly>, int)
    requires known.Some? ==> known.value.Valid()
  {
    if h.fragOff + h.fragLen > h.msgLen || h.msgLen > maxMessageLen then (known, -1)
    else if h.fragLen == 0 then (known, FRAGMENT_RETRY)
    else if known.Some? && |known.value.buffer| != h.msgLen then (known, -1)
    else if known.Some? && known.value.Complete() then (known, if |rest| >= h.fragLen then FRAGMENT_RETRY else atEnd)
    else if |rest| >= h.fragLen then
      (Some(Deliver(if known.Some? then known.value else Fresh(h.msgLen), h.fragOff, rest[..h.fragLen])), FRAGMENT_RETRY)
    else if known.Some? then
      (Some(known.value.(buffer := Overwrite(known.value.buffer, h.fragOff, rest))), ReadResult(rest, atEnd))
    else (None, ReadResult(rest, atEnd))
  }

  /** When a fragment is an error, and that an error changes nothing: it does not fit its message, the message
      is too long, or another length was announced for it before. */
  lemma RefusedExactly(known: Option<Assembly>, h: Header, maxMessageLen: nat, rest: seq<byte>)
    requires known.Some? ==> known.value.Valid()
    ensures var after := Reassembled(known, h, maxMessageLen, rest, 0);
            && (after.1 == -1 <==>
                || h.fragOff + h.fragLen > h.msgLen || h.msgLen > maxMessageLen
                || (h.fragLen > 0 && known.Some? && |known.value.buffer| != h.msgLen))
            && (after.1 == -1 ==> after.0 == known)
            && (known.Some? && known.value.Complete() ==> after.0 == known)
  {
    hide Deliver, Overwrite, Assembly.Complete;
  }

  lemma ReassembledFirst(h: Header, maxMessageLen: nat, rest: seq<byte>, atEnd: EndResult)
    requires h.fragOff + h.fragLen <= h.msgLen <= maxMessageLen && h.fragLen > 0
    ensures Reassembled(None, h, maxMessageLen, rest, atEnd) ==
            if |rest| >= h.fragLen then (Some(Deliver(Fresh(h.msgLen), h.fragOff, rest[..h.fragLen])), FRAGMENT_RETRY)
            else (None, ReadResult(rest, atEnd))
  {
  }

  /** What a read that finds `taken` returns. */
  function ReadResult(taken: seq<byte>, atEnd: EndResult): int {
    if taken == [] then atEnd else |taken|
  }

  // ----- The queue of buffered messages -----

  /** What reading returns when the record has no more bytes: 0, or an error. */
  type EndResult = x: int | x <= 0

  /** The rest of the record the fragment's header was read from. */
  class RecordReader {
    var rest: seq<byte>
    const atEnd: EndResult

    /** ssl_read_bytes: at most `n` bytes, and an error or 0 at the end of the record. */
    method Read(n: nat) returns (r: int, body: seq<byte>)
      requires n > 0
      modifies this`rest
      ensures body + rest == old(rest) && |body| == if n <= |old(rest)| then n else |old(rest)|
      ensures r == ReadResult(body, atEnd)
    {
      var k := if n <= |rest| then n else |rest|;
      body := rest[..k];
      rest := rest[k..];
      r := if k == 0 then atEnd else k;
    }

    constructor (rest: seq<byte>, atEnd: EndResult)
      ensures this.rest == rest && this.atEnd == atEnd
    {
      this.rest, this.atEnd := rest, atEnd;
    }
  }

  /** Reads and discards what is left of a fragment. */
  method Drain(fragLen: nat, record: RecordReader) returns (r: int)
    requires fragLen > 0
    modifies record
    ensures r == if |old(record.rest)| >= fragLen then FRAGMENT_RETRY else record.atEnd
  {
    var left := fragLen;
    while left > 0
      invariant 0 <= left <= fragLen
      invariant |record.rest| - left == |old(record.rest)| - fragLen
    {
      var i, devnull := record.Read(if left > 256 then 256 else left);
      if i <= 0 {
        return i;
      }
      left := left - i;
    }
    r := FRAGMENT_RETRY;
  }

  /** A further fragment of a message whose buffer exists. */
  method Extend(frag: Fragment, header: Header, record: RecordReader, maxMessageLen: nat) returns (r: int)
    requires frag.Valid() && record !in frag.Repr()
    requires header.fragOff + header.fragLen <= header.msgLen <= maxMessageLen && header.fragLen > 0
    modifies frag.Repr(), record
    ensures frag.Valid() && frag.header == old(frag.header) && frag.Repr() <= old(frag.Repr())
    ensures (Some(frag.View()), r) ==
              Reassembled(Some(old(frag.View())), header, maxMessageLen, old(record.rest), record.atEnd)
  {
    hide Deliver, Overwrite, Fragment.View, Fragment.Valid, Assembly.Complete;
    if frag.header.msgLen != header.msgLen {
      return -1;
    }
    if frag.reassembly == null {
      r := Drain(header.fragLen, record);
      return;
    }
    var i, body := record.Read(header.fragLen);
    assert body == old(record.rest)[..|body|];
    if i <= 0 || i != header.fragLen {
      assert body == old(record.rest);
      frag.ReceiveShort(header.fragOff, body);
      return i;
    }
    frag.Receive(header.fragOff, body);
    r := FRAGMENT_RETRY;
  }

  class MessageQueue {
    var items: map<nat, Fragment>
    const maxMessageLen: nat
    ghost var objects: set<object>

    constructor (maxMessageLen: nat)
      ensures Valid() && items == map[] && objects == {} && this.maxMessageLen == maxMessageLen
    {
      items, this.maxMessageLen, objects := map[], maxMessageLen, {};
    }

    ghost predicate Holds(k: nat)
      requires k in items
      reads this, objects
    {
      && items[k] in objects && items[k].Repr() <= objects
      && items[k].Valid() && items[k].header.seqNum == k
    }

    ghost predicate Valid()
      reads this, objects
    {
      && this !in objects
      && (forall k :: k in items ==> Holds(k))
      && (forall k, l :: k in items && l in items && k != l ==> items[k].Repr() !! items[l].Repr())
    }

    /** What is known of the message `k`, if anything. */
    ghost function Known(k: nat): Option<Assembly>
      requires Valid()
      reads this, objects
    {
      if k in items then Some(items[k].View()) else None
    }

    /** dtls1_reassemble_fragment. */
    method ReassembleFragment(header: Header, record: RecordReader) returns (r: int)
      requires Valid() && record !in objects
      modifies this, objects, record
      ensures Valid()
      ensures (Known(header.seqNum), r) ==
                Reassembled(old(Known(header.seqNum)), header, maxMessageLen, old(record.rest), record.atEnd)
      ensures forall k :: k != header.seqNum ==> Known(k) == old(Known(k))
      ensures fresh(objects - old(objects))
    {
      if header.fragOff + header.fragLen > header.msgLen || header.msgLen > maxMessageLen {
        return -1;
      }
      if header.fragLen == 0 {
        return FRAGMENT_RETRY;
      }
      if header.seqNum in items {
        r := Continue(header, record);
      } else {
        r := Begin(header, record);
      }
    }

    /** The message has an entry in the queue. */
    method Continue(header: Header, record: RecordReader) returns (r: int)
      requires Valid() && record !in objects && header.seqNum in items
      requires header.fragOff + header.fragLen <= header.msgLen <= maxMessageLen && header.fragLen > 0
      modifies objects, record
      ensures Valid()
      ensures (Known(header.seqNum), r) ==
                Reassembled(old(Known(header.seqNum)), header, maxMessageLen, old(record.rest), record.atEnd)
      ensures forall k :: k != header.seqNum ==> Known(k) == old(Known(k))
    {
      hide Reassembled, Fragment.View, Fragment.Valid, Assembly.Complete;
      var frag := items[header.seqNum];
      r := Extend(frag, header, record, maxMessageLen);
      forall k | k in items && k != header.seqNum ensures items[k].Valid() && items[k].View() == old(items[k].View()) {
        assert old(items[k].Repr() !! frag.Repr());
      }
    }

    /** The first fragment of a message; it enters the queue once it is read. */
    method Begin(header: Header, record: RecordReader) returns (r: int)
      requires Valid() && record !in objects && header.seqNum !in items
      requires header.fragOff + header.fragLen <= header.msgLen <= maxMessageLen && header.fragLen > 0
      modifies this, record
      ensures Valid() && fresh(objects - old(objects))
      ensures (Known(header.seqNum), r) ==
                Reassembled(old(Known(header.seqNum)), header, maxMessageLen, old(record.rest), record.atEnd)
      ensures forall k :: k != header.seqNum ==> Known(k) == old(Known(k))
    {
      hide Reassembled, Deliver, Overwrite, Fragment.View, Fragment.Valid, Assembly.Complete, Valid, Known;
      NotKnown(this, header.seqNum);
      ReassembledFirst(header, maxMessageLen, record.rest, record.atEnd);
      var i, body := record.Read(header.fragLen);
      assert body == old(record.rest)[..|body|];
      if i <= 0 || i != header.fragLen {
        assert body == old(record.rest);
        return i;
      }
      var frag := FirstFragment(header, body);
      Insert(frag);
      r := FRAGMENT_RETRY;
    }

    /** pqueue_insert. */
    method Insert(frag: Fragment)
      requires Valid() && frag.Valid() && frag.header.seqNum !in items && frag.Repr() !! objects && this !in frag.Repr()
      modifies this`items, this`objects
      ensures Valid() && objects == old(objects) + frag.Repr()
      ensures Known(frag.header.seqNum) == Some(old(frag.View()))
      ensures forall k :: k != frag.header.seqNum ==> Known(k) == old(Known(k))
    {
      hide Fragment.View, Fragment.Valid;
      var k0 := frag.header.seqNum;
      ghost var before := items;
      items, objects := items[k0 := frag], objects + frag.Repr();
      forall k | k in before ensures items[k] == before[k] && old(Holds(k)) {
      }
    }
  }

  lemma NotKnown(queue: MessageQueue, k: nat)
    requires queue.Valid() && k !in queue.items
    ensures queue.Known(k) == None
  {
  }

  /** One fragment of a message in a record of its own. */
  method ReceiveOne(queue: MessageQueue, msgType: nat, seqNum: nat, m: seq<byte>, p: Piece) returns (r: int)
    requires queue.Valid() && 0 < |m| <= queue.maxMessageLen && SliceOf(p, m)
    requires queue.Known(seqNum).Some? ==> |queue.Known(seqNum).value.buffer| == |m|
    modifies queue, queue.objects
    ensures queue.Valid() && fresh(queue.objects - old(queue.objects)) && r == -3
    ensures var before := old(queue.Known(seqNum));
            queue.Known(seqNum) == Some(Deliver(if before.Some? then before.value else Fresh(|m|), p.off, p.body))
    ensures forall k :: k != seqNum ==> queue.Known(k) == old(queue.Known(k))
  {
    var record := new RecordReader(p.body, 0);
    assert p.body[..|p.body|] == p.body;
    r := queue.ReassembleFragment(Header(msgType, |m|, seqNum, p.off, |p.body|), record);
  }

  /** A run of fragments of one message through the queue. */
  method ReceiveRun(queue: MessageQueue, msgType: nat, seqNum: nat, m: seq<byte>, pieces: seq<Piece>) returns (codes: seq<int>)
    requires queue.Valid() && seqNum !in queue.items && 0 < |m| <= queue.maxMessageLen && Slices(pieces, m)
    modifies queue, queue.objects
    ensures queue.Valid()
    ensures |codes| == |pieces| && forall k :: 0 <= k < |codes| ==> codes[k] == -3
    ensures queue.Known(seqNum) == if pieces == [] then None else Some(Assemble(|m|, pieces))
    ensures forall k :: k != seqNum ==> queue.Known(k) == old(queue.Known(k))
  {
    hide Deliver, Assemble, MessageQueue.Valid, MessageQueue.Known;
    NotKnown(queue, seqNum);
    codes := [];
    for i := 0 to |pieces|
      invariant queue.Valid() && fresh(queue.objects - old(queue.objects))
      invariant |codes| == i && forall k :: 0 <= k < i ==> codes[k] == -3
      invariant queue.Known(seqNum) == if i == 0 then None else Some(Assemble(|m|, pieces[..i]))
      invariant forall k :: k != seqNum ==> queue.Known(k) == old(queue.Known(k))
    {
      assert pieces[..i + 1][..i] == pieces[..i];
      AssembleOneMore(m, pieces[..i + 1]);
      var r := ReceiveOne(queue, msgType, seqNum, m, pieces[i]);
      codes := codes + [r];
    }
    assert pieces[..|pieces|] == pieces;
  }

  lemma AssembleOneMore(m: seq<byte>, pieces: seq<Piece>)
    requires Slices(pieces, m) && pieces != []
    ensures var last := |pieces| - 1; var before := Assemble(|m|, pieces[..last]);
            && Assemble(|m|, pieces) == Deliver(before, pieces[last].off, pieces[last].body)
            && (before.Complete() ==> Assemble(|m|, pieces) == before)
            && (last == 0 ==> before == Fresh(|m|))
  {
  }

  ghost function Marks(mask: seq<byte>, msgLen: nat): seq<bool>
    requires msgLen <= 8 * |mask|
  {
    seq(msgLen, i requires 0 <= i < msgLen => Marked(mask, i))
  }

  lemma NothingMarked(mask: seq<byte>, msgLen: nat)
    requires |mask| == Size(msgLen) && forall i :: 0 <= i < |mask| ==> mask[i] == 0
    ensures Clean(mask, msgLen) && Marks(mask, msgLen) == Fresh(msgLen).marked
    ensures msgLen > 0 ==> !AllMarked(mask, msgLen)
  {
    hide Words.Bit;
    forall i | 0 <= i < 8 * |mask| ensures !Marked(mask, i) {
      Words.ZeroBit(i % 8);
    }
    if msgLen > 0 { assert !Marked(mask, 0); }
  }

  lemma AllAreMarked(mask: seq<byte>, msgLen: nat)
    requires msgLen <= 8 * |mask|
    ensures AllMarked(mask, msgLen) <==> forall i :: 0 <= i < msgLen ==> Marks(mask, msgLen)[i]
    ensures AllMarked(mask, msgLen) <==> Marks(mask, msgLen) == seq(msgLen, i => true)
  {
    hide Marked;
    if forall i :: 0 <= i < msgLen ==> Marks(mask, msgLen)[i] {
      assert forall i :: 0 <= i < msgLen ==> Marks(mask, msgLen)[i] == Marked(mask, i);
    }
    if Marks(mask, msgLen) == seq(msgLen, i => true) {
      forall i | 0 <= i < msgLen ensures Marked(mask, i) {
        assert Marks(mask, msgLen)[i];
      }
    }
  }

  lemma MarksDelivered(before: seq<byte>, after: seq<byte>, buffer: seq<byte>, msgLen: nat, off: nat, body: seq<byte>)
    requires |buffer| == msgLen <= 8 * |before| && off + |body| <= msgLen
    requires MarkedMore(before, after, off, off + |body|) && !AllMarked(before, msgLen)
    ensures Assembly(Overwrite(buffer, off, body), Marks(after, msgLen)) ==
              Deliver(Assembly(buffer, Marks(before, msgLen)), off, body)
  {
    AllAreMarked(before, msgLen);
    hide Marked, Overwrite;
    var a := Assembly(buffer, Marks(before, msgLen));
    assert !a.Complete();
    assert Marks(after, msgLen) == Deliver(a, off, body).marked;
  }
}
