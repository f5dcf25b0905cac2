/**
  Sending a DTLS handshake message as fragments (section 4.2.3 of RFC 6347): every later fragment's
  header is written over bytes of the message that have already been sent.
 */
module DtlsFragment {
  import opened Bytes
  import opened DtlsReassembly
  import Cbs

  const HM_HEADER_LENGTH: nat := 12
  const RT_HEADER_LENGTH: nat := 13

  // ----- The message header -----

  predicate HeaderFits(h: Header) {
    h.msgType < 0x100 && h.msgLen < 0x100_0000 && h.seqNum < 0x1_0000 && h.fragOff < 0x100_0000 && h.fragLen < 0x100_0000
  }

  function HeaderBytes(h: Header): (r: seq<byte>)
    ensures |r| == HM_HEADER_LENGTH
  {
    BigEndian(h.msgType, 1) + BigEndian(h.msgLen, 3) + BigEndian(h.seqNum, 2) + BigEndian(h.fragOff, 3)
    + BigEndian(h.fragLen, 3)
  }

  /** dtls1_get_message_header. */
  method GetMessageHeader(cbs: Cbs.Cbs) returns (ok: bool, h: Header)
    modifies cbs
    ensures ok == (|old(cbs.data)| >= HM_HEADER_LENGTH)
    ensures ok ==> HeaderFits(h) && old(cbs.data) == HeaderBytes(h) + cbs.data
  {
    h := Header(0, 0, 0, 0, 0);
    ghost var s := cbs.data;
    var msgType, msgLen, seqNum, fragOff, fragLen;
    ok, msgType := cbs.GetU(1);
    if !ok { return; }
    ok, msgLen := cbs.GetU(3);
    if !ok { return; }
    ok, seqNum := cbs.GetU(2);
    if !ok { return; }
    ok, fragOff := cbs.GetU(3);
    if !ok { return; }
    ok, fragLen := cbs.GetU(3);
    if !ok { return; }
    h := Header(msgType, msgLen, seqNum, fragOff, fragLen);
    FieldsOf(s, h);
  }

  lemma FieldsOf(s: seq<byte>, h: Header)
    requires |s| >= HM_HEADER_LENGTH
    requires h.msgType == Value(s[..1]) && h.msgLen == Value(s[1..][..3]) && h.seqNum == Value(s[1..][3..][..2])
    requires h.fragOff == Value(s[1..][3..][2..][..3]) && h.fragLen == Value(s[1..][3..][2..][3..][..3])
    ensures HeaderFits(h) && s[..HM_HEADER_LENGTH] == HeaderBytes(h)
    ensures s[1..][3..][2..][3..][3..] == s[HM_HEADER_LENGTH..]
  {
    Cuts(s);
    hide Value, BigEndian, Pow256;
    Powers();
    BigEndianOfValue(s[..1]);
    BigEndianOfValue(s[1..4]);
    BigEndianOfValue(s[4..6]);
    BigEndianOfValue(s[6..9]);
    BigEndianOfValue(s[9..12]);
    assert s[..12] == s[..1] + s[1..4] + s[4..6] + s[6..9] + s[9..12];
  }

  lemma Powers()
    ensures Pow256(1) == 0x100 && Pow256(2) == 0x1_0000 && Pow256(3) == 0x100_0000
  {
  }

  lemma Cuts(s: seq<byte>)
    requires |s| >= HM_HEADER_LENGTH
    ensures s[1..][..3] == s[1..4] && s[1..][3..] == s[4..]
    ensures s[4..][..2] == s[4..6] && s[4..][2..] == s[6..]
    ensures s[6..][..3] == s[6..9] && s[6..][3..] == s[9..]
    ensures s[9..][..3] == s[9..12] && s[9..][3..] == s[12..]
  {
  }

  /** The header that was written is the one that is read. */
  lemma HeaderUnique(h: Header, h': Header)
    requires HeaderFits(h) && HeaderFits(h') && HeaderBytes(h) == HeaderBytes(h')
    ensures h == h'
  {
    Powers();
    FieldBytes(h);
    FieldBytes(h');
    hide HeaderBytes, BigEndian, Value, Pow256;
    FieldValue(h.msgType, h'.msgType, 1);
    FieldValue(h.msgLen, h'.msgLen, 3);
    FieldValue(h.seqNum, h'.seqNum, 2);
    FieldValue(h.fragOff, h'.fragOff, 3);
    FieldValue(h.fragLen, h'.fragLen, 3);
  }

  lemma FieldBytes(h: Header)
    ensures var s := HeaderBytes(h);
            && s[..1] == BigEndian(h.msgType, 1) && s[1..4] == BigEndian(h.msgLen, 3) && s[4..6] == BigEndian(h.seqNum, 2)
            && s[6..9] == BigEndian(h.fragOff, 3) && s[9..] == BigEndian(h.fragLen, 3)
  {
    hide BigEndian;
  }

  lemma FieldValue(a: nat, b: nat, n: nat)
    requires a < Pow256(n) && b < Pow256(n) && BigEndian(a, n) == BigEndian(b, n)
    ensures a == b
  {
    ValueOfBigEndian(a, n);
    ValueOfBigEndian(b, n);
  }

  // ----- What is sent -----

  function Unfragmented(h: Header): Header { h.(fragOff := 0, fragLen := h.msgLen) }

  /** A piece of the body as it goes into a record. */
  function Encode(h: Header, p: Piece): seq<byte> {
    HeaderBytes(h.(fragOff := p.off, fragLen := |p.body|)) + p.body
  }

  function EncodeAll(h: Header, pieces: seq<Piece>): (r: seq<seq<byte>>)
    ensures |r| == |pieces| && forall i :: 0 <= i < |pieces| ==> r[i] == Encode(h, pieces[i])
  {
    seq(|pieces|, i requires 0 <= i < |pieces| => Encode(h, pieces[i]))
  }

  /** Consecutive pieces of the body, from its start up to `end`, none of them empty unless it is the only
      one of an empty message. */
  ghost predicate Consecutive(pieces: seq<Piece>, body: seq<byte>, end: nat)
  {
    if pieces == [] then end == 0
    else
      var last := pieces[|pieces| - 1];
      && end == last.off + |last.body| <= |body| && last.body == body[last.off..end]
      && (last.body != [] || body == [])
      && Consecutive(pieces[..|pieces| - 1], body, last.off)
  }

  /** Every byte of the body is in exactly one piece. */
  lemma {:induction false} CoveredOnce(pieces: seq<Piece>, body: seq<byte>, end: nat, i: nat) returns (k: nat)
    requires Consecutive(pieces, body, end) && i < end
    ensures k < |pieces| && Covers(pieces[k], i)
    ensures forall l :: 0 <= l < |pieces| && Covers(pieces[l], i) ==> l == k
    decreases |pieces|
  {
    var n := |pieces| - 1;
    var last := pieces[n];
    if i < last.off {
      k := CoveredOnce(pieces[..n], body, last.off, i);
      assert forall l :: 0 <= l < n ==> pieces[..n][l] == pieces[l];
    } else {
      k := n;
      forall l | 0 <= l < n ensures !Covers(pieces[l], i) {
        Before(pieces[..n], body, last.off, l);
      }
    }
  }

  lemma {:induction false} Before(pieces: seq<Piece>, body: seq<byte>, end: nat, l: nat)
    requires Consecutive(pieces, body, end) && l < |pieces|
    ensures pieces[l].off + |pieces[l].body| <= end && end <= |body|
    ensures pieces[l].body == body[pieces[l].off..pieces[l].off + |pieces[l].body|]
    ensures body != [] ==> pieces[l].body != []
    decreases |pieces|
  {
    var n := |pieces| - 1;
    if l < n {
      Before(pieces[..n], body, pieces[n].off, l);
    }
  }

  lemma Cut(s: seq<byte>, a: nat, b: nat, c: nat)
    requires a <= b <= c <= |s|
    ensures s[a..c] == s[a..b] + s[b..c]
  {
  }

  lemma SameSlice(s: seq<byte>, t: seq<byte>, a: nat, b: nat)
    requires a <= b <= |s| == |t| && forall i :: a <= i < b ==> s[i] == t[i]
    ensures s[a..b] == t[a..b]
  {
  }

  // ----- Sending -----

  /** The record layer and the socket under it: any number of bytes may be waiting, and any call may fail. */
  class Transport {
    var sent: seq<seq<byte>>
    var failed: bool      // some flush or write has failed
    var waited: bool      // some bytes have been waiting when the writer asked

    /** BIO_wpending. */
    method Pending() returns (n: nat)
      modifies this`waited
      ensures waited == (old(waited) || n > 0)
    {
      n := *;
      waited := waited || n > 0;
    }

    /** BIO_flush. */
    method Flush() returns (ret: int)
      modifies this`failed
      ensures failed == (old(failed) || ret <= 0)
    {
      ret := *;
      failed := failed || ret <= 0;
    }

    /** dtls1_write_bytes. */
    method Write(record: seq<byte>) returns (ret: int)
      modifies this`sent, this`failed
      ensures ret == |record| || ret < 0
      ensures sent == if ret < 0 then old(sent) else old(sent) + [record]
      ensures failed == (old(failed) || ret < 0)
    {
      var ok: bool := *;
      if !ok {
        failed := true;
        return -1;
      }
      sent := sent + [record];
      ret := |record|;
    }
  }

  class HandshakeWriter {
    const initBuf: array<byte>
    var initOff: nat
    var initNum: nat
    var header: Header
    const mtu: nat
    const overhead: nat
    const retransmitting: bool
    const transport: Transport
    var transcript: seq<byte>

    constructor (initBuf: array<byte>, header: Header, mtu: nat, overhead: nat, retransmitting: bool, transport: Transport)
      requires header.msgLen + HM_HEADER_LENGTH <= initBuf.Length
      ensures Ready() && this.initBuf == initBuf && this.header == header && this.mtu == mtu && this.overhead == overhead
      ensures this.retransmitting == retransmitting && this.transport == transport && transcript == []
    {
      this.initBuf, this.header, this.mtu, this.overhead := initBuf, header, mtu, overhead;
      this.retransmitting, this.transport := retransmitting, transport;
      initOff, initNum, transcript := 0, header.msgLen + HM_HEADER_LENGTH, [];
    }

    /** A whole message stands in the buffer, behind room for its header. */
    ghost predicate Ready()
      reads this
    {
      initOff == 0 && initNum == header.msgLen + HM_HEADER_LENGTH <= initBuf.Length
    }

    ghost function Body(): seq<byte>
      requires header.msgLen + HM_HEADER_LENGTH <= initBuf.Length
      reads this, initBuf
    {
      initBuf[HM_HEADER_LENGTH..HM_HEADER_LENGTH + header.msgLen]
    }

    /** dtls1_write_message_header into the message buffer. */
    method WriteMessageHeader(fragOff: nat, fragLen: nat, at: nat)
      requires at + HM_HEADER_LENGTH <= initBuf.Length
      modifies initBuf
      ensures initBuf[at..at + HM_HEADER_LENGTH] == HeaderBytes(header.(fragOff := fragOff, fragLen := fragLen))
      ensures forall i :: 0 <= i < initBuf.Length && !(at <= i < at + HM_HEADER_LENGTH) ==> initBuf[i] == old(initBuf[i])
    {
      var bytes := HeaderBytes(header.(fragOff := fragOff, fragLen := fragLen));
      forall i | 0 <= i < HM_HEADER_LENGTH {
        initBuf[at + i] := bytes[i];
      }
    }

    /** How much of what is left goes into the next record. */
    method RecordLength() returns (ret: int, currMtu: nat)
      requires mtu > RT_HEADER_LENGTH + overhead + HM_HEADER_LENGTH
      modifies transport`failed, transport`waited
      ensures ret > 0 ==> HM_HEADER_LENGTH < currMtu <= mtu - RT_HEADER_LENGTH - overhead
      ensures ret > 0 && !transport.waited ==> currMtu == mtu - RT_HEADER_LENGTH - overhead
      ensures transport.failed == (old(transport.failed) || ret <= 0) && (old(transport.waited) ==> transport.waited)
    {
      ret := 1;
      var pending := transport.Pending();
      var room: int := mtu - pending - RT_HEADER_LENGTH - overhead;
      if room <= HM_HEADER_LENGTH {
        ret := transport.Flush();
        if ret <= 0 {
          currMtu := 0;
          return;
        }
        room := mtu - RT_HEADER_LENGTH - overhead;
      }
      currMtu := room;
    }

    /** The header, written over bytes already sent, and the record. */
    method WriteRecord(fragOff: nat, len: nat) returns (ret: int)
      requires initOff == fragOff && HM_HEADER_LENGTH <= len && fragOff + len <= initBuf.Length
      modifies this`header, initBuf, transport
      ensures ret == len || ret < 0
      ensures transport.failed == (old(transport.failed) || ret < 0) && transport.waited == old(transport.waited)
      ensures header == old(header).(fragOff := fragOff, fragLen := len - HM_HEADER_LENGTH)
      ensures var piece := Piece(fragOff, old(initBuf[fragOff + HM_HEADER_LENGTH..fragOff + len]));
              transport.sent == (if ret < 0 then old(transport.sent) else old(transport.sent) + [Encode(header, piece)])
      ensures forall i :: fragOff + HM_HEADER_LENGTH <= i < initBuf.Length ==> initBuf[i] == old(initBuf[i])
    {
      hide HeaderBytes;
      header := header.(fragOff := fragOff, fragLen := len - HM_HEADER_LENGTH);
      WriteMessageHeader(header.fragOff, header.fragLen, initOff);
      SameSlice(old(initBuf[..]), initBuf[..], fragOff + HM_HEADER_LENGTH, fragOff + len);
      Cut(initBuf[..], initOff, initOff + HM_HEADER_LENGTH, initOff + len);
      assert initBuf[..][initOff..initOff + len] == initBuf[initOff..initOff + len];
      ret := transport.Write(initBuf[initOff..initOff + len]);
    }

    /** One turn of the loop once the size of the record is known: header, record, transcript. */
    method SendFragment(fragOff: nat, len: nat) returns (ret: int)
      requires initOff == fragOff && HM_HEADER_LENGTH <= len && fragOff + len <= initBuf.Length
      requires header.msgLen + HM_HEADER_LENGTH <= initBuf.Length
      modifies this`header, this`transcript, initBuf, transport
      ensures ret == len || ret < 0
      ensures transport.failed == (old(transport.failed) || ret < 0) && transport.waited == old(transport.waited)
      ensures header == old(header).(fragOff := fragOff, fragLen := len - HM_HEADER_LENGTH)
      ensures var piece := Piece(fragOff, old(initBuf[fragOff + HM_HEADER_LENGTH..fragOff + len]));
              && transport.sent == (if ret < 0 then old(transport.sent) else old(transport.sent) + [Encode(header, piece)])
              && transcript == (if ret < 0 || retransmitting then old(transcript)
                                else old(transcript) + (if fragOff == 0 then HeaderBytes(Unfragmented(header)) else [])
                                     + piece.body)
      ensures forall i :: fragOff + HM_HEADER_LENGTH <= i < initBuf.Length ==> initBuf[i] == old(initBuf[i])
    {
      hide HeaderBytes, Encode;
      ret := WriteRecord(fragOff, len);
      SameSlice(old(initBuf[..]), initBuf[..], fragOff + HM_HEADER_LENGTH, fragOff + len);
      if ret >= 0 && !retransmitting {
        Record(fragOff, len);
      }
    }

    /** What is recorded of a record: the first one under a header for the whole message, the others bare. */
    method Record(fragOff: nat, len: nat)
      requires initOff == fragOff && HM_HEADER_LENGTH <= len && fragOff + len <= initBuf.Length
      modifies this`transcript, initBuf
      ensures transcript == old(transcript) + (if fragOff == 0 then HeaderBytes(Unfragmented(header)) else [])
                            + old(initBuf[fragOff + HM_HEADER_LENGTH..fragOff + len])
      ensures forall i :: fragOff + HM_HEADER_LENGTH <= i < initBuf.Length ==> initBuf[i] == old(initBuf[i])
    {
      hide HeaderBytes;
      if fragOff == 0 {
        ghost var rest := initBuf[HM_HEADER_LENGTH..len];
        WriteMessageHeader(0, header.msgLen, initOff);
        ghost var whole := initBuf[0..len];
        assert whole[..HM_HEADER_LENGTH] == HeaderBytes(Unfragmented(header));
        assert whole[HM_HEADER_LENGTH..] == rest;
        Halves(transcript, whole, HM_HEADER_LENGTH);
        transcript := transcript + initBuf[initOff..initOff + len];
      } else {
        assert transcript + [] == transcript;
        transcript := transcript + initBuf[initOff + HM_HEADER_LENGTH..initOff + len];
      }
    }

    /** The part of the message still to be sent stands untouched in the buffer. */
    ghost predicate Remaining(body: seq<byte>, fragOff: nat)
      reads this, initBuf
    {
      && fragOff <= |body| == header.msgLen && header.msgLen + HM_HEADER_LENGTH <= initBuf.Length
      && initOff == (if fragOff == 0 then 0 else HM_HEADER_LENGTH + fragOff)
      && initOff + initNum == header.msgLen + HM_HEADER_LENGTH && initNum > 0
      && initBuf[HM_HEADER_LENGTH + fragOff..HM_HEADER_LENGTH + header.msgLen] == body[fragOff..]
    }

    /** What has been sent and recorded by the time `fragOff` bytes of the body are out. */
    ghost predicate Sent(h: Header, body: seq<byte>, sent: seq<seq<byte>>, transcript: seq<byte>, fragOff: nat,
                         pieces: seq<Piece>)
      reads this`header, this`transcript, transport`sent
    {
      OutSoFar(header, h, body, sent, transport.sent, transcript, this.transcript, fragOff, pieces,
               mtu - RT_HEADER_LENGTH - overhead, !retransmitting)
    }

    /** Backs up to make room for the header of a later fragment, and settles the size of the record. */
    method NextRecord(fragOff: nat) returns (ret: int, len: nat)
      requires initOff == (if fragOff == 0 then 0 else HM_HEADER_LENGTH + fragOff)
      requires initOff + initNum == header.msgLen + HM_HEADER_LENGTH && fragOff <= header.msgLen
      requires mtu > RT_HEADER_LENGTH + overhead + HM_HEADER_LENGTH
      modifies this`initOff, this`initNum, transport`failed, transport`waited
      ensures transport.failed == (old(transport.failed) || ret <= 0) && (old(transport.waited) ==> transport.waited)
      ensures ret > 0 && !transport.waited ==> len == initNum || len == mtu - RT_HEADER_LENGTH - overhead
      ensures ret > 0 ==> initOff == fragOff && initOff + initNum == header.msgLen + HM_HEADER_LENGTH
      ensures ret > 0 ==> HM_HEADER_LENGTH <= len <= initNum && len <= mtu - RT_HEADER_LENGTH - overhead
      ensures ret > 0 ==> (len == HM_HEADER_LENGTH ==> len == initNum)
      ensures ret <= 0 ==> initOff == old(initOff) && initNum == old(initNum)
    {
      var currMtu;
      len := 0;
      ret, currMtu := RecordLength();
      if ret <= 0 {
        return;
      }
      if initOff != 0 {
        initOff := initOff - HM_HEADER_LENGTH;
        initNum := initNum + HM_HEADER_LENGTH;
      }
      len := if initNum > currMtu then currMtu else initNum;
    }

    /** Sends the next record, and accounts for it. */
    method SendNext(fragOff: nat, len: nat, ghost h: Header, ghost body: seq<byte>, ghost sent: seq<seq<byte>>,
                    ghost transcript0: seq<byte>, ghost pieces: seq<Piece>)
      returns (ret: int, ghost pieces': seq<Piece>)
      requires initOff == fragOff <= |body| == header.msgLen && header.msgLen + HM_HEADER_LENGTH <= initBuf.Length
      requires HM_HEADER_LENGTH <= len <= |body| - fragOff + HM_HEADER_LENGTH && len <= mtu - RT_HEADER_LENGTH - overhead
      requires len == HM_HEADER_LENGTH ==> body == []
      requires initBuf[HM_HEADER_LENGTH + fragOff..HM_HEADER_LENGTH + |body|] == body[fragOff..]
      requires Sent(h, body, sent, transcript0, fragOff, pieces) && (pieces == [] <==> fragOff == 0)
      modifies this`header, this`transcript, initBuf, transport
      ensures ret == len || ret < 0
      ensures transport.failed == (old(transport.failed) || ret < 0) && transport.waited == old(transport.waited)
      ensures header.msgLen == old(header.msgLen)
      ensures ret < 0 ==> pieces' == pieces && Sent(h, body, sent, transcript0, fragOff, pieces)
      ensures ret >= 0 ==>
                var end := fragOff + (len - HM_HEADER_LENGTH);
                && OneMore(pieces, pieces', len - HM_HEADER_LENGTH)
                && initBuf[HM_HEADER_LENGTH + end..HM_HEADER_LENGTH + |body|] == body[end..]
                && Sent(h, body, sent, transcript0, end, pieces')
    {
      hide OutSoFar, HeaderBytes, Encode;
      ghost var piece := Piece(fragOff, initBuf[fragOff + HM_HEADER_LENGTH..fragOff + len]);
      ghost var buffer, t, s, header0 := initBuf[..], transcript, transport.sent, header;
      assert buffer[HM_HEADER_LENGTH + fragOff..HM_HEADER_LENGTH + |body|] == body[fragOff..];
      assert piece.body == buffer[fragOff + HM_HEADER_LENGTH..fragOff + len] && |piece.body| == len - HM_HEADER_LENGTH;
      pieces' := pieces;
      ret := SendFragment(fragOff, len);
      SameMessage(header0, header, h, body, sent, s, transcript0, t, fragOff, pieces, mtu - RT_HEADER_LENGTH - overhead, !retransmitting);
      if ret >= 0 {
        pieces' := pieces + [piece];
        RestOfBuffer(buffer, initBuf[..], body, fragOff, len);
        assert transport.sent == s + [Encode(header, piece)];
        OutOneMore(header, h, body, sent, s, transcript0, t, transcript, fragOff, pieces, piece,
                   mtu - RT_HEADER_LENGTH - overhead, !retransmitting);
      }
    }

    /** One turn of the loop: 1 once the whole message is out, 0 to go on, negative on failure. */
    method WriteNext(fragOff: nat, ghost h: Header, ghost body: seq<byte>, ghost sent: seq<seq<byte>>,
                     ghost transcript0: seq<byte>, ghost pieces: seq<Piece>)
      returns (ret: int, done: bool, fragOff': nat, ghost pieces': seq<Piece>)
      requires Remaining(body, fragOff)
      requires Sent(h, body, sent, transcript0, fragOff, pieces) && (pieces == [] <==> fragOff == 0)
      requires mtu > RT_HEADER_LENGTH + overhead + HM_HEADER_LENGTH
      modifies this, initBuf, transport
      ensures transport.failed == (old(transport.failed) || ret <= 0) && (old(transport.waited) ==> transport.waited)
      ensures if ret > 0 then OneMore(pieces, pieces', fragOff' - fragOff) else pieces' == pieces && !done && fragOff' == fragOff
      ensures ret > 0 && !done && !transport.waited ==> fragOff' - fragOff == mtu - RT_HEADER_LENGTH - overhead - HM_HEADER_LENGTH
      ensures ret > 0 && done ==> initOff == 0 && initNum == 0 && fragOff' == |body|
      ensures ret > 0 && !done ==> fragOff < fragOff' <= |body| && initNum > 0 && Remaining(body, fragOff')
      ensures Sent(h, body, sent, transcript0, fragOff', pieces')
    {
      hide OneMore, Sent, Remaining;
      fragOff', pieces', done := fragOff, pieces, false;
      var len;
      RemainingIs(body, fragOff);
      ret, len := NextRecord(fragOff);
      if ret <= 0 {
        return;
      }
      ret, pieces' := SendNext(fragOff, len, h, body, sent, transcript0, pieces);
      if ret < 0 {
        ret := -1;
        return;
      }
      fragOff' := fragOff + (len - HM_HEADER_LENGTH);
      if ret == initNum {
        initOff, initNum, done := 0, 0, true;
        return;
      }
      initOff := initOff + ret;
      initNum := initNum - ret;
      IsRemaining(body, fragOff');
    }

    lemma RemainingIs(body: seq<byte>, fragOff: nat)
      requires Remaining(body, fragOff)
      ensures fragOff <= |body| == header.msgLen && header.msgLen + HM_HEADER_LENGTH <= initBuf.Length
      ensures initOff == (if fragOff == 0 then 0 else HM_HEADER_LENGTH + fragOff)
      ensures initOff + initNum == header.msgLen + HM_HEADER_LENGTH && initNum > 0
      ensures initBuf[HM_HEADER_LENGTH + fragOff..HM_HEADER_LENGTH + |body|] == body[fragOff..]
    {
    }

    lemma StartOfMessage()
      requires Ready()
      ensures Remaining(Body(), 0) && Sent(header, Body(), transport.sent, transcript, 0, [])
      ensures Full([], 0, mtu - RT_HEADER_LENGTH - overhead)
    {
      assert EncodeAll(header, []) == [];
      assert transport.sent + [] == transport.sent && transcript + [] == transcript;
    }

    lemma SentIs(h: Header, body: seq<byte>, sent: seq<seq<byte>>, transcript: seq<byte>, fragOff: nat, pieces: seq<Piece>)
      requires Sent(h, body, sent, transcript, fragOff, pieces)
      ensures Unfragmented(header) == Unfragmented(h) && transport.sent == sent + EncodeAll(h, pieces)
      ensures PiecesUpTo(pieces, body, fragOff, mtu - RT_HEADER_LENGTH - overhead)
      ensures fragOff == |body| ==> this.transcript == transcript + Recorded(!retransmitting && pieces != [], h, body)
    {
      if fragOff == |body| { assert body[..fragOff] == body; }
    }

    lemma IsRemaining(body: seq<byte>, fragOff: nat)
      requires 0 < fragOff <= |body| == header.msgLen && header.msgLen + HM_HEADER_LENGTH <= initBuf.Length
      requires initOff == HM_HEADER_LENGTH + fragOff
      requires initOff + initNum == header.msgLen + HM_HEADER_LENGTH && initNum > 0
      requires initBuf[HM_HEADER_LENGTH + fragOff..HM_HEADER_LENGTH + |body|] == body[fragOff..]
      ensures Remaining(body, fragOff)
    {
    }

    /** dtls1_do_write for a handshake message.  It succeeds unless a flush or write fails, and with nothing
        waiting uses all the room of every record but the last.  On success the records carry the body once,
        in order, each within the MTU, and the transcript gains the message under one unfragmented header. */
    method DoWrite() returns (ret: int, ghost pieces: seq<Piece>, ghost end: nat)
      requires Ready() && HeaderFits(Unfragmented(header)) && mtu > 13 + overhead + 12
      modifies this, initBuf, transport
      ensures ret <= 1
      ensures transport.failed == (old(transport.failed) || ret != 1) && (old(transport.waited) ==> transport.waited)
      ensures !transport.waited ==> Full(pieces, |pieces| - 1, mtu - 13 - overhead)
      ensures Unfragmented(header) == old(Unfragmented(header))
      ensures transport.sent == old(transport.sent) + EncodeAll(old(header), pieces)
      ensures PiecesUpTo(pieces, old(Body()), end, mtu - 13 - overhead)
      ensures ret == 1 ==>
                && end == header.msgLen && pieces != []
                && initOff == 0 && initNum == 0
                && transcript == old(transcript) + Recorded(!retransmitting, old(header), old(Body()))
    {
      hide OutSoFar, Sent, Remaining, Full, OneMore, PiecesUpTo, EncodeAll, Recorded, HeaderFits;
      var fragOff := 0;
      pieces := [];
      ghost var body, h, sent, transcript0 := Body(), header, transport.sent, transcript;
      var done := false;
      StartOfMessage();
      while initNum != 0
        invariant Remaining(body, fragOff) && fragOff <= |body| && initNum > 0
        invariant Sent(h, body, sent, transcript0, fragOff, pieces) && (pieces == [] <==> fragOff == 0)
        invariant transport.failed == old(transport.failed) && (old(transport.waited) ==> transport.waited)
        invariant !transport.waited ==> Full(pieces, |pieces|, mtu - RT_HEADER_LENGTH - overhead)
        decreases |body| - fragOff
      {
        ghost var fragOff0, pieces0 := fragOff, pieces;
        ret, done, fragOff, pieces := WriteNext(fragOff, h, body, sent, transcript0, pieces);
        end := fragOff;
        SentIs(h, body, sent, transcript0, fragOff, pieces);
        if ret > 0 {
          NotNone(pieces0, pieces, fragOff - fragOff0);
        }
        if !transport.waited && ret <= 0 {
          FullLess(pieces, mtu - RT_HEADER_LENGTH - overhead);
        }
        if ret > 0 && !transport.waited {
          FullMore(pieces0, pieces, fragOff - fragOff0, mtu - RT_HEADER_LENGTH - overhead);
        }
        if ret <= 0 {
          return;
        }
        if done {
          ret := 1;
          return;
        }
      }
    }
  }

  /** The first `n` records use all the room there is. */
  ghost predicate Full(pieces: seq<Piece>, n: int, room: int) {
    n <= |pieces| && forall k :: 0 <= k < n ==> 12 + |pieces[k].body| == room
  }

  /** One piece of `size` bytes more. */
  ghost predicate OneMore(pieces: seq<Piece>, pieces': seq<Piece>, size: int) {
    pieces' != [] && pieces'[..|pieces'| - 1] == pieces && |pieces'[|pieces'| - 1].body| == size
  }

  lemma FullLess(pieces: seq<Piece>, room: int)
    requires Full(pieces, |pieces|, room)
    ensures Full(pieces, |pieces| - 1, room)
  {
  }

  lemma NotNone(pieces: seq<Piece>, pieces': seq<Piece>, size: int)
    requires OneMore(pieces, pieces', size)
    ensures pieces' != []
  {
  }

  lemma FullMore(pieces: seq<Piece>, pieces': seq<Piece>, size: int, room: int)
    requires Full(pieces, |pieces|, room) && OneMore(pieces, pieces', size)
    ensures Full(pieces', |pieces'| - 1, room)
    ensures HM_HEADER_LENGTH + size == room ==> Full(pieces', |pieces'|, room)
  {
  }

  /** What goes into the transcript for the first part of a message. */
  function Recorded(on: bool, h: Header, part: seq<byte>): seq<byte> {
    if on then HeaderBytes(Unfragmented(h)) + part else []
  }

  lemma TranscriptMore(on: bool, h: Header, t0: seq<byte>, t: seq<byte>, t': seq<byte>, body: seq<byte>, fragOff: nat,
                       part: seq<byte>)
    requires fragOff + |part| <= |body| && part == body[fragOff..fragOff + |part|]
    requires t == t0 + Recorded(on && fragOff > 0, h, body[..fragOff])
    requires t' == if on then t + (if fragOff == 0 then HeaderBytes(Unfragmented(h)) else []) + part else t
    ensures t' == t0 + Recorded(on, h, body[..fragOff + |part|])
  {
    hide HeaderBytes;
    assert body[..fragOff + |part|] == body[..fragOff] + part;
  }

  lemma Halves(t: seq<byte>, s: seq<byte>, n: nat)
    requires n <= |s|
    ensures t + s[..n] + s[n..] == t + s
  {
  }

  /** Consecutive pieces that with their headers fit into a record. */
  ghost predicate PiecesUpTo(pieces: seq<Piece>, body: seq<byte>, end: nat, room: int) {
    && Consecutive(pieces, body, end)
    && forall k :: 0 <= k < |pieces| ==> 12 + |pieces[k].body| <= room
  }

  lemma PieceAdded(pieces: seq<Piece>, p: Piece, body: seq<byte>, fragOff: nat, room: int)
    requires PiecesUpTo(pieces, body, fragOff, room) && p.off == fragOff && fragOff + |p.body| <= |body|
    requires p.body == body[fragOff..fragOff + |p.body|] && (p.body != [] || body == [])
    requires HM_HEADER_LENGTH + |p.body| <= room
    ensures PiecesUpTo(pieces + [p], body, fragOff + |p.body|, room)
  {
    assert (pieces + [p])[..|pieces + [p]| - 1] == pieces;
  }

  lemma SentMore(sent: seq<seq<byte>>, header: Header, h: Header, pieces: seq<Piece>, p: Piece)
    requires Unfragmented(header) == Unfragmented(h)
    ensures sent + EncodeAll(h, pieces) + [Encode(header, p)] == sent + EncodeAll(h, pieces + [p])
  {
    assert Encode(header, p) == Encode(h, p);
    hide Encode;
    assert EncodeAll(h, pieces + [p]) == EncodeAll(h, pieces) + [Encode(h, p)];
  }

  /** What stands in the buffer behind a record's worth is the rest of the body, untouched. */
  lemma RestOfBuffer(before: seq<byte>, after: seq<byte>, body: seq<byte>, fragOff: nat, len: nat)
    requires HM_HEADER_LENGTH <= len && fragOff <= |body|
    requires fragOff + len <= |body| + HM_HEADER_LENGTH <= |before| == |after|
    requires before[HM_HEADER_LENGTH + fragOff..HM_HEADER_LENGTH + |body|] == body[fragOff..]
    requires forall i :: fragOff + HM_HEADER_LENGTH <= i < |before| ==> after[i] == before[i]
    ensures var end := fragOff + (len - HM_HEADER_LENGTH);
            && before[fragOff + HM_HEADER_LENGTH..fragOff + len] == body[fragOff..end]
            && after[HM_HEADER_LENGTH + end..HM_HEADER_LENGTH + |body|] == body[end..]
  {
    var n, left := len - HM_HEADER_LENGTH, |body| - fragOff;
    Inside(before, HM_HEADER_LENGTH + fragOff, HM_HEADER_LENGTH + |body|, 0, n);
    Inside(body, fragOff, |body|, 0, n);
    Inside(before, HM_HEADER_LENGTH + fragOff, HM_HEADER_LENGTH + |body|, n, left);
    Inside(body, fragOff, |body|, n, left);
    SameSlice(before, after, HM_HEADER_LENGTH + fragOff + n, HM_HEADER_LENGTH + |body|);
    assert body[fragOff..] == body[fragOff..|body|] && body[fragOff + n..] == body[fragOff + n..|body|];
  }

  lemma Inside(s: seq<byte>, a: nat, b: nat, c: nat, d: nat)
    requires a <= b <= |s| && c <= d <= b - a
    ensures s[a..b][c..d] == s[a + c..a + d]
  {
    var x, y := s[a..b][c..d], s[a + c..a + d];
    assert |x| == |y|;
    forall i | 0 <= i < |x| ensures x[i] == y[i] {
      assert x[i] == s[a..b][c + i];
    }
  }

  /** The records out so far are the first pieces of the body, and the transcript, if kept, has the whole
      message's header and what is out of the body. */
  ghost predicate OutSoFar(header: Header, h: Header, body: seq<byte>, sent0: seq<seq<byte>>, sent: seq<seq<byte>>,
                           t0: seq<byte>, t: seq<byte>, fragOff: nat, pieces: seq<Piece>, room: int, on: bool) {
    && Unfragmented(header) == Unfragmented(h)
    && PiecesUpTo(pieces, body, fragOff, room)
    && sent == sent0 + EncodeAll(h, pieces)
    && fragOff <= |body| && t == t0 + Recorded(on && pieces != [], h, body[..fragOff])
  }

  lemma SameMessage(header: Header, header': Header, h: Header, body: seq<byte>, sent0: seq<seq<byte>>, sent: seq<seq<byte>>,
                    t0: seq<byte>, t: seq<byte>, fragOff: nat, pieces: seq<Piece>, room: int, on: bool)
    requires OutSoFar(header, h, body, sent0, sent, t0, t, fragOff, pieces, room, on)
    requires Unfragmented(header') == Unfragmented(header)
    ensures OutSoFar(header', h, body, sent0, sent, t0, t, fragOff, pieces, room, on)
  {
  }

  lemma OutOneMore(header: Header, h: Header, body: seq<byte>, sent0: seq<seq<byte>>, sent: seq<seq<byte>>,
                   t0: seq<byte>, t: seq<byte>, t': seq<byte>, fragOff: nat, pieces: seq<Piece>, p: Piece, room: int, on: bool)
    requires OutSoFar(header, h, body, sent0, sent, t0, t, fragOff, pieces, room, on) && (pieces == [] <==> fragOff == 0)
    requires p.off == fragOff && fragOff + |p.body| <= |body| && p.body == body[fragOff..fragOff + |p.body|]
    requires (p.body != [] || body == []) && HM_HEADER_LENGTH + |p.body| <= room
    requires t' == if on then t + (if fragOff == 0 then HeaderBytes(Unfragmented(header)) else []) + p.body else t
    ensures OutSoFar(header, h, body, sent0, sent + [Encode(header, p)], t0, t', fragOff + |p.body|, pieces + [p], room, on)
    ensures OneMore(pieces, pieces + [p], |p.body|)
  {
    hide PiecesUpTo, EncodeAll, Recorded, Encode, HeaderBytes;
    PieceAdded(pieces, p, body, fragOff, room);
    TranscriptMore(on, h, t0, t, t', body, fragOff, p.body);
    SentMore(sent0, header, h, pieces, p);
  }

  // ----- From one side to the other -----

  /** Every piece that was sent arrives at least once; nothing else arrives. */
  ghost predicate Arrival(sent: seq<Piece>, received: seq<Piece>) {
    && (forall k :: 0 <= k < |received| ==> received[k] in sent)
    && (forall k :: 0 <= k < |sent| ==> sent[k] in received)
  }

  /** Whatever the order and however often they are repeated, the fragments of a message reassemble to it,
      and nothing less than all of them is taken for complete. */
  lemma SentThenReassembled(body: seq<byte>, sent: seq<Piece>, received: seq<Piece>)
    requires body != [] && Consecutive(sent, body, |body|)
    requires forall k :: 0 <= k < |received| ==> received[k] in sent
    ensures Slices(received, body)
    ensures Assemble(|body|, received).Complete() <==> Arrival(sent, received)
    ensures Arrival(sent, received) ==> Assemble(|body|, received).buffer == body
  {
    forall k | 0 <= k < |received| ensures SliceOf(received[k], body) {
      var l :| 0 <= l < |sent| && sent[l] == received[k];
      Before(sent, body, |body|, l);
    }
    CompleteIffCovered(body, received);
    if Arrival(sent, received) {
      forall i | 0 <= i < |body| ensures Covered(received, i) {
        var k := CoveredOnce(sent, body, |body|, i);
        var l :| 0 <= l < |received| && received[l] == sent[k];
        assert Covers(received[l], i);
      }
    } else {
      var k :| 0 <= k < |sent| && sent[k] !in received;
      Before(sent, body, |body|, k);
      MissingLeavesGap(body, sent, received, k);
    }
  }

  lemma MissingLeavesGap(body: seq<byte>, sent: seq<Piece>, received: seq<Piece>, k: nat)
    requires body != [] && Consecutive(sent, body, |body|) && k < |sent| && sent[k] !in received
    requires forall l :: 0 <= l < |received| ==> received[l] in sent
    ensures sent[k].off < |body| && !Covered(received, sent[k].off)
  {
    Before(sent, body, |body|, k);
    var i := sent[k].off;
    var once := CoveredOnce(sent, body, |body|, i);
    hide Consecutive;
    assert Covers(sent[k], i);
    forall l | 0 <= l < |received| ensures !Covers(received[l], i) {
      var l' :| 0 <= l' < |sent| && sent[l'] == received[l];
    }
  }
}
