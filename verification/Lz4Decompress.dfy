/**
  LZ4_decompress_generic with LZ4_FAST_DEC_LOOP 0: cursors, shortcut, wide copies, all in one output
  buffer.  It refines `Lz4Decode.Decompress` on every input, well formed or not: same bytes, same
  length, same error position; and it writes nothing outside its part of the buffer.
 */
module Lz4Decompress {
  import opened Lz4Format
  import opened Lz4Decode
  import opened Lz4Emit
  import opened Lz4Copy

  datatype Phase = Running | Finished | Failed

  datatype VariableLengthError = Ok | InitialError | LoopError

  method ReadVariableLength(src: seq<byte>, ip0: nat, lencheck: int, initialCheck: bool)
    returns (length: nat, ip: nat, error: VariableLengthError)
    requires ip0 < |src| && lencheck <= |src|
    ensures initialCheck && ip0 >= lencheck ==> error == InitialError && ip == ip0
    ensures !(initialCheck && ip0 >= lencheck) ==>
              ReadLength(src, ip0, lencheck, 0) == LengthRead(length, ip, error == LoopError) && error != InitialError
  {
    length, ip := 0, ip0;
    if initialCheck && ip >= lencheck {
      return length, ip, InitialError;
    }
    while true
      invariant ip < |src| && 0 <= length
      invariant ReadLength(src, ip, lencheck, length) == ReadLength(src, ip0, lencheck, 0)
      decreases |src| - ip
    {
      var s := src[ip];
      ip := ip + 1;
      length := (length + s) % U32_RANGE;
      if ip >= lencheck {
        return length, ip, LoopError;
      }
      if s != 255 {
        return length, ip, Ok;
      }
    }
  }

  /** Copies `length` bytes of the input, never past `oend`. */
  method CopyLiterals(src: seq<byte>, ip: nat, buf: array<byte>, op: nat, length: nat, wild: nat, oend: nat)
    requires length <= wild && ip + wild <= |src| && op + wild <= oend <= buf.Length
    modifies buf
    ensures buf[..op + length] == old(buf[..op]) + src[ip..ip + length]
    ensures buf[oend..] == old(buf[oend..])
  {
    forall k | op <= k < op + wild {
      buf[k] := src[k - op + ip];
    }
    assert buf[..op + length] == buf[..op] + buf[op..op + length];
  }

  /** The length announced by the token; `ok` is false on the initial error only. */
  method LiteralLength(src: seq<byte>, ip0: nat) returns (ok: bool, length: nat, ip: nat)
    requires ip0 < |src|
    ensures LiteralField(src, ip0) == if ok then Field(length, ip) else FieldError(ip)
  {
    ip, length, ok := ip0 + 1, src[ip0] / 16, true;
    if length == RUN_MASK {
      if ip >= |src| - RUN_MASK {
        return false, length, ip;
      }
      var extra, error;
      extra, ip, error := ReadVariableLength(src, ip, |src| - RUN_MASK, true);
      length := length + extra;
    }
  }

  /** What a literal phase leaves, compared with the literal step of the reference. */
  ghost predicate LiteralsAgree(step: Step, phase: Phase, ip: nat, written: seq<byte>) {
    match step
    case Stop(Malformed(pos)) => phase == Failed && ip == pos
    case Stop(Decoded(out)) => phase == Finished && written == out
    case Stop(Unspecified) => false
    case Go(out, ip') => phase == Running && ip == ip' && written == out
  }

  /** Literals that touch the end of the input or of the output. */
  method LiteralsNearTheEnd(src: seq<byte>, ip0: nat, pos: nat, field: nat, buf: array<byte>, op0: nat, lim: Limits)
    returns (phase: Phase, ip: nat, op: nat)
    requires ip0 < |src| && op0 <= lim.oend <= buf.Length
    requires LiteralField(src, ip0) == Field(field, pos)
    requires !Shortcut(src, src[ip0], pos, op0, lim) && NearTheEnd(src, pos, op0, field, lim)
    modifies buf
    ensures op0 <= op <= lim.oend && buf[lim.oend..] == old(buf[lim.oend..]) && buf[..op0] == old(buf[..op0])
    ensures LiteralsAgree(LiteralStep(src, ip0, old(buf[..op0]), lim), phase, ip, buf[..op])
    ensures phase == Running ==> lim.partial
  {
    hide LiteralField, Shortcut, NearTheEnd;
    var length := field;
    ip, op := pos, op0;
    if lim.partial {
      if ip + length > |src| {
        length := |src| - ip;
      }
      if op + length > lim.oend {
        length := lim.oend - op;
      }
    } else if ip + length != |src| || op + length > lim.oend {
      return Failed, ip, op;
    }
    assert !lim.partial ==> src[ip..] == src[ip..ip + length];
    assert lim.partial ==> length == Min(Min(field, |src| - pos), lim.oend - op0);
    CopyLiterals(src, ip, buf, op, length, length, lim.oend);
    assert buf[..op0] == buf[..op0 + length][..op0];
    ip, op := ip + length, op + length;
    phase := if !lim.partial || op == lim.oend || ip >= |src| - 2 then Finished else Running;
  }

  /** From the token to the offset. */
  method LiteralPhase(src: seq<byte>, ip0: nat, buf: array<byte>, op0: nat, lim: Limits)
    returns (phase: Phase, quick: bool, ip: nat, op: nat)
    requires ip0 < |src| && op0 <= lim.oend <= buf.Length
    modifies buf
    ensures op0 <= op <= lim.oend && buf[lim.oend..] == old(buf[lim.oend..]) && buf[..op0] == old(buf[..op0])
    ensures quick == Shortcut(src, src[ip0], LiteralField(src, ip0).pos, op0, lim)
    ensures LiteralsAgree(LiteralStep(src, ip0, old(buf[..op0]), lim), phase, ip, buf[..op])
    ensures phase == Running && quick ==> op + 18 <= lim.oend
    ensures phase == Running && !quick && !lim.partial ==> op + MFLIMIT <= lim.oend
  {
    var ok, length;
    op := op0;
    ok, length, ip := LiteralLength(src, ip0);
    quick := Shortcut(src, src[ip0], ip, op, lim);
    hide LiteralField;
    if !ok {
      return Failed, quick, ip, op;
    }
    if !quick && NearTheEnd(src, ip, op, length, lim) {
      phase, ip, op := LiteralsNearTheEnd(src, ip0, ip, length, buf, op, lim);
      return;
    }
    CopyLiterals(src, ip, buf, op, length, if quick then 16 else WildSpan(length), lim.oend);
    assert buf[..op0] == buf[..op0 + length][..op0];
    phase, ip, op := Running, ip + length, op + length;
  }

  /** The shortcut's second stage: eighteen bytes whatever the length. */
  method CopyEighteen(buf: array<byte>, op: nat, offset: nat, length: nat, oend: nat)
    requires 8 <= offset <= op && length <= 18 && op + 18 <= oend <= buf.Length
    modifies buf
    ensures buf[..op + length] == CopyMatch(old(buf[..op]), offset, length)
    ensures buf[oend..] == old(buf[oend..])
  {
    Memcpy(buf, op, op - offset, 8);
    Memcpy(buf, op + 8, op - offset + 8, 8);
    Memcpy(buf, op + 16, op - offset + 16, 2);
    assert forall k :: op <= k < op + 18 ==> buf[k] == buf[k - offset];
    assert buf[..op] == old(buf[..op]) && buf[oend..] == old(buf[oend..]);
    ghost var r := buf[..op + length];
    assert r[..op] == buf[..op];
    CopyMatchUnique(old(buf[..op]), offset, length, r);
  }

  /** The tail of a partial decode: exact, byte by byte when the match overlaps itself. */
  method CopyPartial(buf: array<byte>, op0: nat, offset: nat, n: nat, oend: nat)
    requires offset <= op0 && op0 + n <= oend <= buf.Length
    modifies buf
    ensures offset > 0 ==> buf[..op0 + n] == CopyMatch(old(buf[..op0]), offset, n)
    ensures buf[..op0] == old(buf[..op0]) && buf[oend..] == old(buf[oend..])
  {
    var op, m := op0, op0 - offset;
    if m + n > op {
      while op < op0 + n
        invariant op0 <= op <= op0 + n && op - m == offset
        invariant buf[..op0] == old(buf[..op0]) && buf[oend..] == old(buf[oend..])
        invariant forall k :: op0 <= k < op && offset > 0 ==> buf[k] == buf[k - offset]
      {
        buf[op] := buf[m];
        op, m := op + 1, m + 1;
      }
    } else {
      Memcpy(buf, op, m, n);
    }
    if offset > 0 {
      ghost var r := buf[..op0 + n];
      assert r[..op0] == buf[..op0];
      CopyMatchUnique(old(buf[..op0]), offset, n, r);
    }
  }

  /** The match code announced by the token. */
  method MatchCode(src: seq<byte>, token: byte, ip0: nat) returns (ok: bool, length: nat, ip: nat)
    requires ip0 < |src|
    ensures MatchField(src, token, ip0) == if ok then Field(length, ip) else FieldError(ip)
  {
    ip, length, ok := ip0, token % 16, true;
    if length == ML_MASK {
      var extra, error;
      extra, ip, error := ReadVariableLength(src, ip, |src| - LASTLITERALS + 1, false);
      length := length + extra;
      ok := error == Ok;
    }
  }

  /** From the offset to the next token. */
  method MatchPhase(src: seq<byte>, token: byte, quick: bool, ip0: nat, buf: array<byte>, op0: nat, lim: Limits)
    returns (phase: Phase, ip: nat, op: nat)
    requires ip0 + 2 < |src| && op0 <= lim.oend <= buf.Length
    requires quick ==> op0 + 18 <= lim.oend
    requires !quick && !lim.partial ==> op0 + MFLIMIT <= lim.oend
    requires lim.low >= 0 || op0 >= DISTANCE_MAX
    modifies buf
    ensures op0 <= op <= lim.oend && buf[lim.oend..] == old(buf[lim.oend..]) && buf[..op0] == old(buf[..op0])
    ensures match MatchStep(src, token, quick, ip0, old(buf[..op0]), lim)
            case Stop(Malformed(pos)) => phase == Failed && ip == pos
            case Stop(Decoded(out)) => phase == Finished && buf[..op] == out
            case Stop(Unspecified) => phase != Failed && (phase == Running ==> ip0 < ip < |src|)
            case Go(out, ip') => phase == Running && ip == ip' && buf[..op] == out
  {
    hide CopyMatch;
    ip, op := ip0, op0;
    ghost var out := buf[..op0];
    var offset := Offset(src, ip);
    ip := ip + 2;
    var length: nat := token % 16;
    if quick && length != ML_MASK && offset >= 8 && op - offset >= lim.low {
      CopyEighteen(buf, op, offset, length + MINMATCH, lim.oend);
      CopyMatchLength(out, offset, length + MINMATCH);
      assert buf[..op0] == buf[..op0 + length + MINMATCH][..op0];
      return Running, ip, op + length + MINMATCH;
    }
    phase, ip, op := FullMatch(src, token, quick, ip0, buf, op0, offset, lim);
  }

  lemma OffsetBound(src: seq<byte>, ip: nat)
    requires ip + 1 < |src|
    ensures Offset(src, ip) <= DISTANCE_MAX
  {
  }

  /** A match that the shortcut leaves to the checked copies. */
  method FullMatch(src: seq<byte>, token: byte, quick: bool, ip0: nat, buf: array<byte>, op0: nat, offset: nat, lim: Limits)
    returns (phase: Phase, ip: nat, op: nat)
    requires ip0 + 2 < |src| && op0 <= lim.oend <= buf.Length && offset == Offset(src, ip0)
    requires quick ==> op0 + 18 <= lim.oend
    requires !(quick && token % 16 != ML_MASK && offset >= 8 && op0 - offset >= lim.low)
    requires !quick && !lim.partial ==> op0 + MFLIMIT <= lim.oend
    requires lim.low >= 0 || op0 >= DISTANCE_MAX
    modifies buf
    ensures op0 <= op <= lim.oend && buf[lim.oend..] == old(buf[lim.oend..]) && buf[..op0] == old(buf[..op0])
    ensures match MatchStep(src, token, quick, ip0, old(buf[..op0]), lim)
            case Stop(Malformed(pos)) => phase == Failed && ip == pos
            case Stop(Decoded(out)) => phase == Finished && buf[..op] == out
            case Stop(Unspecified) => phase != Failed && (phase == Running ==> ip0 < ip < |src|)
            case Go(out, ip') => phase == Running && ip == ip' && buf[..op] == out
  {
    hide CopyMatch, MatchField, Offset;
    assert offset <= DISTANCE_MAX by { OffsetBound(src, ip0); }
    ip, op := ip0 + 2, op0;
    ghost var out := buf[..op0];
    var valid, length;
    valid, length, ip := MatchCode(src, token, ip);
    if !valid {
      return Failed, ip, op;
    }
    length := length + MINMATCH;
    if op - offset < lim.low {
      return Failed, ip, op;
    }
    CopyMatchLength(out, offset, length);
    var cpy := op + length;
    if lim.partial && cpy > lim.oend - MFLIMIT {
      var n := Min(length, lim.oend - op);
      CopyPartial(buf, op, offset, n, lim.oend);
      CopyMatchLength(out, offset, n);
      op := op + n;
      return if op == lim.oend then Finished else Running, ip, op;
    }
    var ok := CopyWide(buf, op, offset, length, lim.oend);
    if !ok {
      return Failed, ip, op;
    }
    assert buf[..op0] == buf[..cpy][..op0];
    phase, op := Running, cpy;
  }

  /** One iteration of the main loop. */
  method DecodeToken(src: seq<byte>, ip0: nat, buf: array<byte>, op0: nat, lim: Limits)
    returns (phase: Phase, ip: nat, op: nat)
    requires ip0 < |src| && op0 <= lim.oend <= buf.Length
    requires lim.low >= 0 || op0 >= DISTANCE_MAX
    modifies buf
    ensures op0 <= op <= lim.oend && buf[lim.oend..] == old(buf[lim.oend..]) && buf[..op0] == old(buf[..op0])
    ensures phase == Running ==> ip0 < ip < |src|
    ensures TokenAgrees(TokenStep(src, ip0, old(buf[..op0]), lim), phase, ip, buf[..op])
  {
    hide Shortcut, LiteralStep, MatchStep, LiteralField;
    var quick;
    phase, quick, ip, op := LiteralPhase(src, ip0, buf, op0, lim);
    assert buf[..op0] == buf[..op][..op0];
    if phase == Running {
      ghost var mid := op;
      phase, ip, op := MatchPhase(src, src[ip0], quick, ip, buf, op, lim);
      assert buf[..op0] == buf[..mid][..op0];
    }
  }

  ghost predicate TokenAgrees(step: Step, phase: Phase, ip: nat, written: seq<byte>) {
    match step
    case Stop(Malformed(pos)) => phase == Failed && ip == pos
    case Stop(Decoded(out)) => phase == Finished && written == out
    case Stop(Unspecified) => phase != Failed
    case Go(out, ip') => phase == Running && ip == ip' && written == out
  }

  /** What the caller of a decode may rely on. */
  ghost predicate Agrees(outcome: Outcome, r: int, buf: seq<byte>, start: nat, oend: nat)
    requires start <= oend <= |buf|
  {
    match outcome
    case Decoded(out) => start <= |out| <= oend && r == |out| - start && buf[..|out|] == out
    case Malformed(pos) => r + pos + 1 == 0
    case Unspecified => r <= oend - start
  }

  method DecompressGeneric(src: seq<byte>, buf: array<byte>, start: nat, outputSize: nat, partial: bool, low: int)
    returns (r: int)
    requires start + outputSize <= buf.Length && low <= start
    requires low >= 0 || start >= DISTANCE_MAX
    modifies buf
    ensures Agrees(Decompress(src, old(buf[..start]), Limits(start + outputSize, low, partial)), r, buf[..], start,
                   start + outputSize)
    ensures buf[..start] == old(buf[..start]) && buf[start + outputSize..] == old(buf[start + outputSize..])
  {
    hide TokenStep;
    var lim := Limits(start + outputSize, low, partial);
    ghost var prefix := buf[..start];
    assert buf[..][..start] == prefix;
    if outputSize == 0 {
      if partial {
        return 0;
      }
      assert src == [0] <==> |src| == 1 && src[0] == 0;
      return if |src| == 1 && src[0] == 0 then 0 else -1;
    }
    if |src| == 0 {
      return -1;
    }
    var phase, ip: nat, op: nat := Running, 0, start;
    ghost var goal := Run(src, 0, prefix, lim);
    ghost var known := true;    // false once the reference gives up: see `Outcome`
    while phase == Running
      invariant start <= op <= lim.oend
      invariant buf[..start] == prefix && buf[lim.oend..] == old(buf[lim.oend..])
      invariant phase == Running ==> ip < |src| && (if known then goal == Run(src, ip, buf[..op], lim) else goal == Unspecified)
      invariant phase == Finished ==> goal == (if known then Decoded(buf[..op]) else Unspecified)
      invariant phase == Failed ==> goal == (if known then Malformed(ip) else Unspecified)
      decreases phase == Running, |src| - ip
    {
      ghost var from, out := op, buf[..op];
      ghost var step := TokenStep(src, ip, out, lim);
      phase, ip, op := DecodeToken(src, ip, buf, op, lim);
      assert buf[..start] == buf[..from][..start];
      known := known && step != Stop(Unspecified);
    }
    assert buf[..][..op] == buf[..op];
    var errorPos: int := ip;
    r := if phase == Failed then -errorPos - 1 else op - start;
  }

  // ----- The API functions -----

  /** LZ4_decompress_safe, into `buf[start..start + capacity]`. */
  method DecompressSafe(src: seq<byte>, buf: array<byte>, start: nat, capacity: nat) returns (r: int)
    requires start + capacity <= buf.Length
    modifies buf
    ensures Agrees(Decompress(src, old(buf[..start]), Limits(start + capacity, start, false)), r, buf[..], start,
                   start + capacity)
    ensures buf[..start] == old(buf[..start]) && buf[start + capacity..] == old(buf[start + capacity..])
  {
    r := DecompressGeneric(src, buf, start, capacity, false, start);
  }

  /** LZ4_decompress_safe_partial. */
  method DecompressSafePartial(src: seq<byte>, buf: array<byte>, start: nat, targetOutputSize: nat, dstCapacity: nat)
    returns (r: int)
    requires start + dstCapacity <= buf.Length
    modifies buf
    ensures var n := Min(targetOutputSize, dstCapacity);
            && Agrees(Decompress(src, old(buf[..start]), Limits(start + n, start, true)), r, buf[..], start, start + n)
            && buf[..start] == old(buf[..start]) && buf[start + n..] == old(buf[start + n..])
  {
    hide Decompress, Agrees;
    r := DecompressGeneric(src, buf, start, Min(targetOutputSize, dstCapacity), true, start);
  }
}
