/**
  From one side of a DTLS connection to the other: the records a writer sent, in whatever order and number
  they arrive and whatever else arrives between them, parsed and put together again.
 */
module DtlsDelivery {
  import opened Bytes
  import opened DtlsReassembly
  import opened DtlsFragment
  import Cbs

  /** A record that is too short for a header or belongs to another message: its sequence number, in the
      fifth and sixth byte, is another one. */
  predicate Foreign(seqNum: nat, record: seq<byte>) {
    |record| >= HM_HEADER_LENGTH ==> record[4..6] != BigEndian(seqNum, 2)
  }

  ghost predicate Ours(h: Header, pieces: seq<Piece>, record: seq<byte>) {
    exists k :: 0 <= k < |pieces| && record == Encode(h, pieces[k])
  }

  /** A message of which every piece was written. */
  ghost predicate Message(h: Header, body: seq<byte>, pieces: seq<Piece>) {
    && HeaderFits(Unfragmented(h)) && |body| == h.msgLen && body != []
    && Consecutive(pieces, body, |body|)
  }

  // ----- One record -----

  lemma EncodeSplit(h: Header, p: Piece)
    ensures |Encode(h, p)| == HM_HEADER_LENGTH + |p.body|
    ensures Encode(h, p)[..HM_HEADER_LENGTH] == HeaderBytes(h.(fragOff := p.off, fragLen := |p.body|))
    ensures Encode(h, p)[HM_HEADER_LENGTH..] == p.body
  {
    hide HeaderBytes;
  }

  lemma PieceHeaderFits(h: Header, body: seq<byte>, pieces: seq<Piece>, k: nat)
    requires Message(h, body, pieces) && k < |pieces|
    ensures HeaderFits(h.(fragOff := pieces[k].off, fragLen := |pieces[k].body|))
    ensures SliceOf(pieces[k], body)
  {
    Before(pieces, body, |body|, k);
  }

  /** What is parsed of a record of the message is the header and the body it was made from. */
  lemma ParsedOurs(h: Header, body: seq<byte>, pieces: seq<Piece>, k: nat, g: Header, rest: seq<byte>)
    requires Message(h, body, pieces) && k < |pieces| && HeaderFits(g)
    requires Encode(h, pieces[k]) == HeaderBytes(g) + rest
    ensures g == h.(fragOff := pieces[k].off, fragLen := |pieces[k].body|) && rest == pieces[k].body
  {
    hide HeaderBytes, Consecutive;
    EncodeSplit(h, pieces[k]);
    PieceHeaderFits(h, body, pieces, k);
    assert (HeaderBytes(g) + rest)[..HM_HEADER_LENGTH] == HeaderBytes(g);
    assert (HeaderBytes(g) + rest)[HM_HEADER_LENGTH..] == rest;
    HeaderUnique(g, h.(fragOff := pieces[k].off, fragLen := |pieces[k].body|));
  }

  lemma ParsedForeign(seqNum: nat, g: Header, rest: seq<byte>)
    requires Foreign(seqNum, HeaderBytes(g) + rest)
    ensures g.seqNum != seqNum
  {
    hide HeaderBytes;
    FieldBytes(g);
    assert (HeaderBytes(g) + rest)[4..6] == HeaderBytes(g)[4..6];
  }

  /** Different pieces make different records. */
  lemma SameRecord(h: Header, body: seq<byte>, pieces: seq<Piece>, k: nat, l: nat)
    requires Message(h, body, pieces) && k < |pieces| && l < |pieces|
    requires Encode(h, pieces[k]) == Encode(h, pieces[l])
    ensures pieces[k] == pieces[l]
  {
    hide HeaderBytes, Consecutive, HeaderFits;
    PieceHeaderFits(h, body, pieces, l);
    ParsedOurs(h, body, pieces, k, h.(fragOff := pieces[l].off, fragLen := |pieces[l].body|), pieces[l].body);
  }

  /** A record is parsed and what it carries given to reassembly; one without a header is dropped. */
  method ReceiveRecord(queue: MessageQueue, record: seq<byte>) returns (r: int, ghost g: Header)
    requires queue.Valid()
    modifies queue, queue.objects
    ensures queue.Valid() && fresh(queue.objects - old(queue.objects))
    ensures if |record| < HM_HEADER_LENGTH then forall k :: queue.Known(k) == old(queue.Known(k))
            else
              && HeaderFits(g) && record[..HM_HEADER_LENGTH] == HeaderBytes(g)
              && (queue.Known(g.seqNum), r) ==
                   Reassembled(old(queue.Known(g.seqNum)), g, queue.maxMessageLen, record[HM_HEADER_LENGTH..], 0)
              && (forall k :: k != g.seqNum ==> queue.Known(k) == old(queue.Known(k)))
  {
    hide HeaderBytes, HeaderFits, Reassembled, MessageQueue.Valid, MessageQueue.Known;
    var cbs := new Cbs.Cbs(record);
    var ok, header := GetMessageHeader(cbs);
    g := header;
    if !ok {
      return -1, g;
    }
    assert record[HM_HEADER_LENGTH..] == cbs.data && record[..HM_HEADER_LENGTH] == HeaderBytes(header);
    var reader := new RecordReader(cbs.data, 0);
    r := queue.ReassembleFragment(header, reader);
  }

  // ----- Whole runs -----

  /** `received`: the pieces whose records are among `wire`. */
  ghost predicate Carries(h: Header, pieces: seq<Piece>, wire: seq<seq<byte>>, received: seq<Piece>) {
    && (forall l :: 0 <= l < |received| ==> received[l] in pieces && Encode(h, received[l]) in wire)
    && (forall k :: 0 <= k < |wire| && Ours(h, pieces, wire[k]) ==>
          exists l :: 0 <= l < |received| && Encode(h, received[l]) == wire[k])
  }

  lemma CarriesOneMore(h: Header, pieces: seq<Piece>, wire: seq<seq<byte>>, received: seq<Piece>, k: nat)
    requires Carries(h, pieces, wire, received) && k < |pieces|
    ensures Carries(h, pieces, wire + [Encode(h, pieces[k])], received + [pieces[k]])
  {
    hide Encode, Ours;
    var wire', received' := wire + [Encode(h, pieces[k])], received + [pieces[k]];
    forall i | 0 <= i < |wire'| && Ours(h, pieces, wire'[i])
      ensures exists l :: 0 <= l < |received'| && Encode(h, received'[l]) == wire'[i]
    {
      if i < |wire| {
        var l :| 0 <= l < |received| && Encode(h, received[l]) == wire[i];
        assert received'[l] == received[l];
      } else {
        assert received'[|received|] == pieces[k];
      }
    }
  }

  lemma OursIsNotForeign(h: Header, p: Piece)
    ensures !Foreign(h.seqNum, Encode(h, p))
  {
    var record := Encode(h, p);
    EncodeSplit(h, p);
    FieldBytes(h.(fragOff := p.off, fragLen := |p.body|));
    hide Encode, HeaderBytes, BigEndian;
    assert record[4..6] == record[..HM_HEADER_LENGTH][4..6];
  }

  lemma NotBoth(h: Header, pieces: seq<Piece>, record: seq<byte>)
    requires Foreign(h.seqNum, record)
    ensures !Ours(h, pieces, record)
  {
    hide Encode, Foreign;
    if Ours(h, pieces, record) {
      var k :| 0 <= k < |pieces| && record == Encode(h, pieces[k]);
      OursIsNotForeign(h, pieces[k]);
    }
  }

  lemma CarriesForeign(h: Header, pieces: seq<Piece>, wire: seq<seq<byte>>, received: seq<Piece>, record: seq<byte>)
    requires Carries(h, pieces, wire, received) && Foreign(h.seqNum, record)
    ensures Carries(h, pieces, wire + [record], received)
  {
    hide Encode, Foreign, Ours;
    NotBoth(h, pieces, record);
  }

  /** All records arrived exactly when all pieces were received. */
  lemma AllArrived(h: Header, body: seq<byte>, pieces: seq<Piece>, wire: seq<seq<byte>>, received: seq<Piece>)
    requires Message(h, body, pieces) && Carries(h, pieces, wire, received)
    ensures Arrival(pieces, received) <==> forall k :: 0 <= k < |pieces| ==> Encode(h, pieces[k]) in wire
  {
    hide Encode, Message;
    if forall k :: 0 <= k < |pieces| ==> Encode(h, pieces[k]) in wire {
      forall k | 0 <= k < |pieces| ensures pieces[k] in received {
        var i :| 0 <= i < |wire| && wire[i] == Encode(h, pieces[k]);
        assert Ours(h, pieces, wire[i]);
        var l :| 0 <= l < |received| && Encode(h, received[l]) == wire[i];
        assert received[l] in pieces;
        var k' :| 0 <= k' < |pieces| && pieces[k'] == received[l];
        SameRecord(h, body, pieces, k, k');
      }
    }
    if Arrival(pieces, received) {
      forall k | 0 <= k < |pieces| ensures Encode(h, pieces[k]) in wire {
        assert pieces[k] in received;
        var l :| 0 <= l < |received| && received[l] == pieces[k];
      }
    }
  }

  /** What is known of the message once `received` has come in. */
  ghost predicate Holds(known: Option<Assembly>, body: seq<byte>, received: seq<Piece>) {
    Slices(received, body) && known == if received == [] then None else Some(Assemble(|body|, received))
  }

  /** A record of the message adds its piece. */
  lemma PieceDelivered(h: Header, body: seq<byte>, received: seq<Piece>, known: Option<Assembly>, p: Piece, maxMessageLen: nat)
    requires Holds(known, body, received) && SliceOf(p, body) && |body| == h.msgLen <= maxMessageLen
    ensures known.Some? ==> known.value.Valid()
    ensures var after := Reassembled(known, h.(fragOff := p.off, fragLen := |p.body|), maxMessageLen, p.body, 0);
            Holds(after.0, body, received + [p]) && after.1 == -3
  {
    var all := received + [p];
    assert all[..|received|] == received;
    assert Slices(all, body);
    AssembleOneMore(body, all);
    assert p.body[..|p.body|] == p.body;
    hide Deliver, Assemble;
    assert known.Some? ==> |known.value.buffer| == |body|;
  }

  /** The end of a run: the message is there exactly if every record of it has come. */
  lemma RunEnds(h: Header, body: seq<byte>, pieces: seq<Piece>, wire: seq<seq<byte>>, received: seq<Piece>, known: Option<Assembly>)
    requires Message(h, body, pieces) && Carries(h, pieces, wire, received) && Holds(known, body, received)
    ensures (known.Some? && known.value.Complete()) <==> forall k :: 0 <= k < |pieces| ==> Encode(h, pieces[k]) in wire
    ensures known.Some? && known.value.Complete() ==> known.value.buffer == body
  {
    hide Encode, Assemble, Slices;
    AllArrived(h, body, pieces, wire, received);
    SentThenReassembled(body, pieces, received);
    if received == [] {
      assert pieces != [];
      assert pieces[0] !in received;
    }
  }

  /** The records that DoWrite sent for one message, in any order, any number of times, and any other records
      between them: the message is complete, with the body that was sent, exactly when each of them has come. */
  method ReceiveAll(queue: MessageQueue, wire: seq<seq<byte>>, ghost h: Header, ghost body: seq<byte>, ghost pieces: seq<Piece>)
    returns (codes: seq<int>)
    requires queue.Valid() && queue.Known(h.seqNum).None? && Message(h, body, pieces) && |body| <= queue.maxMessageLen
    requires forall k :: 0 <= k < |wire| ==> Ours(h, pieces, wire[k]) || Foreign(h.seqNum, wire[k])
    modifies queue, queue.objects
    ensures queue.Valid()
    // every record of the message asks for the next one
    ensures |codes| == |wire| && forall k :: 0 <= k < |wire| && Ours(h, pieces, wire[k]) ==> codes[k] == -3
    ensures var known := queue.Known(h.seqNum);
            && ((known.Some? && known.value.Complete()) <==> forall k :: 0 <= k < |pieces| ==> Encode(h, pieces[k]) in wire)
            && (known.Some? && known.value.Complete() ==> known.value.buffer == body)
  {
    hide MessageQueue.Valid, MessageQueue.Known, Ours, Foreign, Carries, Holds, Message, Encode;
    codes := [];
    ghost var received: seq<Piece> := [];
    NothingReceived(h, body, pieces);
    assert wire[..0] == [];
    for i := 0 to |wire|
      invariant queue.Valid() && fresh(queue.objects - old(queue.objects))
      invariant Carries(h, pieces, wire[..i], received) && Holds(queue.Known(h.seqNum), body, received)
      invariant |codes| == i && forall k :: 0 <= k < i && Ours(h, pieces, wire[k]) ==> codes[k] == -3
    {
      assert wire[..i + 1] == wire[..i] + [wire[i]];
      var r;
      r, received := ReceiveNext(queue, wire[i], h, body, pieces, wire[..i], received);
      codes := codes + [r];
    }
    assert wire[..|wire|] == wire;
    RunEnds(h, body, pieces, wire, received, queue.Known(h.seqNum));
  }

  lemma NothingReceived(h: Header, body: seq<byte>, pieces: seq<Piece>)
    ensures Carries(h, pieces, [], []) && Holds(None, body, [])
  {
  }

  method ReceiveNext(queue: MessageQueue, record: seq<byte>, ghost h: Header, ghost body: seq<byte>, ghost pieces: seq<Piece>,
                     ghost wire: seq<seq<byte>>, ghost received: seq<Piece>) returns (r: int, ghost received': seq<Piece>)
    requires queue.Valid() && Message(h, body, pieces) && |body| <= queue.maxMessageLen
    requires Ours(h, pieces, record) || Foreign(h.seqNum, record)
    requires Carries(h, pieces, wire, received) && Holds(queue.Known(h.seqNum), body, received)
    modifies queue, queue.objects
    ensures queue.Valid() && fresh(queue.objects - old(queue.objects))
    ensures Carries(h, pieces, wire + [record], received') && Holds(queue.Known(h.seqNum), body, received')
    ensures Ours(h, pieces, record) ==> r == -3
  {
    hide MessageQueue.Valid, MessageQueue.Known, Foreign, Carries, Holds, Message, Encode, HeaderBytes, HeaderFits, Reassembled;
    ghost var known := queue.Known(h.seqNum);
    received' := received;
    ghost var g;
    r, g := ReceiveRecord(queue, record);
    ghost var rest := if |record| >= HM_HEADER_LENGTH then record[HM_HEADER_LENGTH..] else [];
    if Foreign(h.seqNum, record) {
      NotBoth(h, pieces, record);
      CarriesForeign(h, pieces, wire, received, record);
      if |record| >= HM_HEADER_LENGTH {
        assert record == HeaderBytes(g) + rest;
        ParsedForeign(h.seqNum, g, rest);
      }
    } else {
      ghost var k: nat :| k < |pieces| && record == Encode(h, pieces[k]);
      received' := received + [pieces[k]];
      CarriesOneMore(h, pieces, wire, received, k);
      EncodeSplit(h, pieces[k]);
      assert record == HeaderBytes(g) + rest;
      ParsedOurs(h, body, pieces, k, g, rest);
      PieceHeaderFits(h, body, pieces, k);
      assert |body| == h.msgLen by { MessageLength(h, body, pieces); }
      PieceDelivered(h, body, received, known, pieces[k], queue.maxMessageLen);
    }
  }

  lemma MessageLength(h: Header, body: seq<byte>, pieces: seq<Piece>)
    requires Message(h, body, pieces)
    ensures |body| == h.msgLen
  {
  }

  // ----- Both sides -----

  /** What the network delivers: a copy of one of the records sent, or some other record. */
  datatype Item = Copy(k: nat) | Other(record: seq<byte>)

  lemma {:induction false} DifferentPieces(h: Header, body: seq<byte>, pieces: seq<Piece>, k: nat, l: nat)
    requires Message(h, body, pieces) && k < |pieces| && l < |pieces| && pieces[k] == pieces[l]
    ensures k == l
  {
    PieceHeaderFits(h, body, pieces, k);
    var once := CoveredOnce(pieces, body, |body|, pieces[k].off);
    assert Covers(pieces[k], pieces[k].off) && Covers(pieces[l], pieces[k].off);
  }

  /** The records in the order of delivery. */
  method Wire(records: seq<seq<byte>>, order: seq<Item>) returns (wire: seq<seq<byte>>)
    requires forall i :: 0 <= i < |order| && order[i].Copy? ==> order[i].k < |records|
    ensures |wire| == |order|
    ensures forall i :: 0 <= i < |order| ==> wire[i] == if order[i].Copy? then records[order[i].k] else order[i].record
  {
    wire := [];
    for i := 0 to |order|
      invariant |wire| == i
      invariant forall l :: 0 <= l < i ==> wire[l] == if order[l].Copy? then records[order[l].k] else order[l].record
    {
      wire := wire + [if order[i].Copy? then records[order[i].k] else order[i].record];
    }
  }

  /** A record has come exactly if a copy of it was delivered. */
  lemma CameAsCopy(h: Header, body: seq<byte>, pieces: seq<Piece>, order: seq<Item>, wire: seq<seq<byte>>, k: nat)
    requires Message(h, body, pieces) && |wire| == |order| && k < |pieces|
    requires forall i :: 0 <= i < |order| ==>
               if order[i].Copy? then order[i].k < |pieces| && wire[i] == Encode(h, pieces[order[i].k])
               else wire[i] == order[i].record && Foreign(h.seqNum, wire[i])
    ensures Encode(h, pieces[k]) in wire <==> Copy(k) in order
  {
    hide Message, Encode, Foreign;
    if Encode(h, pieces[k]) in wire {
      var i :| 0 <= i < |wire| && wire[i] == Encode(h, pieces[k]);
      if order[i].Copy? {
        SameRecord(h, body, pieces, order[i].k, k);
        DifferentPieces(h, body, pieces, order[i].k, k);
      } else {
        OursIsNotForeign(h, pieces[k]);
      }
    }
    if Copy(k) in order {
      var i :| 0 <= i < |order| && order[i] == Copy(k);
      assert wire[i] == Encode(h, pieces[k]);
    }
  }

  /** One message from its writer to the other side's queue.  The writer succeeds unless a flush or write fails;
      if then the network delivers any selection of its records, in any order and number and among records of
      other messages, the message is complete exactly if each record came, and is then the one written. */
  method Transfer(writer: HandshakeWriter, queue: MessageQueue, order: seq<Item>) returns (ret: int)
    requires writer.Ready() && HeaderFits(Unfragmented(writer.header)) && writer.header.msgLen > 0
    requires writer.mtu > 13 + writer.overhead + 12
    requires queue.Valid() && queue.Known(writer.header.seqNum).None? && writer.header.msgLen <= queue.maxMessageLen
    requires {writer, writer.initBuf, writer.transport} !! queue.objects + {queue}
    requires forall i :: 0 <= i < |order| && order[i].Other? ==> Foreign(writer.header.seqNum, order[i].record)
    modifies writer, writer.initBuf, writer.transport, queue, queue.objects
    ensures queue.Valid()
    ensures !old(writer.transport.failed) ==> (ret == 1 <==> !writer.transport.failed)
    ensures ret == 1 ==>
              var count := |writer.transport.sent| - |old(writer.transport.sent)|;
              var known := queue.Known(old(writer.header.seqNum));
              && count > 0
              && ((forall i :: 0 <= i < |order| && order[i].Copy? ==> order[i].k < count) ==>
                    && ((known.Some? && known.value.Complete()) <==> forall k :: 0 <= k < count ==> Copy(k) in order)
                    && (known.Some? && known.value.Complete() ==> known.value.buffer == old(writer.Body())))
  {
    hide MessageQueue.Valid, MessageQueue.Known, Foreign, Encode, Recorded, Consecutive, HeaderBytes;
    ghost var h, body := writer.header, writer.Body();
    var before := |writer.transport.sent|;
    ghost var pieces, end;
    ret, pieces, end := writer.DoWrite();
    if ret != 1 {
      return;
    }
    var records := writer.transport.sent[before..];
    assert records == EncodeAll(h, pieces);
    if exists i :: 0 <= i < |order| && order[i].Copy? && order[i].k >= |records| {
      return;
    }
    var wire := Wire(records, order);
    assert Message(h, body, pieces);
    forall k | 0 <= k < |pieces| ensures Encode(h, pieces[k]) in wire <==> Copy(k) in order {
      CameAsCopy(h, body, pieces, order, wire, k);
    }
    forall i | 0 <= i < |wire| ensures Ours(h, pieces, wire[i]) || Foreign(h.seqNum, wire[i]) {
      if order[i].Copy? { assert wire[i] == Encode(h, pieces[order[i].k]); }
    }
    var _ := ReceiveAll(queue, wire, h, body, pieces);
  }
}
