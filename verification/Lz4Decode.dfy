/**
  What LZ4_decompress_generic decides, one token at a time, on every input - conforming or not - with
  its fast copies replaced by byte-by-byte ones.  `Lz4Decompress` refines it with the real copies.
 */
module Lz4Decode {
  import opened Lz4Format

  /** How a decode ends: the whole buffer up to the output cursor, or the input position at which the
      block was rejected (the C function then returns -pos - 1).  `Unspecified` is the one case whose
      output depends on stale buffer contents: a zero offset in the tail of a partial decode. */
  datatype Outcome = Decoded(out: seq<byte>) | Malformed(pos: nat) | Unspecified

  /** `oend`: end of the output buffer.  `low`: first index a match may refer to (lowPrefix). */
  datatype Limits = Limits(oend: nat, low: int, partial: bool)

  // ----- Length fields -----

  datatype LengthRead = LengthRead(value: nat, pos: nat, overran: bool)

  /** The loop of read_variable_length: sums bytes modulo 2^32 until one is not 255, stopping early
      when the cursor reaches `lencheck`. */
  function ReadLength(src: seq<byte>, ip: nat, lencheck: int, sum: nat): (r: LengthRead)
    requires ip < |src|
    requires lencheck <= |src|
    ensures ip < r.pos <= |src|
    ensures !r.overran ==> r.pos < lencheck
    decreases |src| - ip
  {
    var total := (sum + src[ip]) % U32_RANGE;
    if ip + 1 >= lencheck then LengthRead(total, ip + 1, true)
    else if src[ip] == 255 then ReadLength(src, ip + 1, lencheck, total)
    else LengthRead(total, ip + 1, false)
  }

  datatype Field = Field(length: nat, pos: nat) | FieldError(pos: nat)

  /** The literal length announced by the token at `ip`.  Only running into the limit before the first
      extension byte is an error: the loop error is never looked at. */
  function LiteralField(src: seq<byte>, ip: nat): (r: Field)
    requires ip < |src|
    ensures ip < r.pos <= |src|
  {
    var nibble := src[ip] / 16;
    if nibble != RUN_MASK then Field(nibble, ip + 1)
    else if ip + 1 >= |src| - RUN_MASK then FieldError(ip + 1)
    else
      var r := ReadLength(src, ip + 1, |src| - RUN_MASK, 0);
      Field(RUN_MASK + r.value, r.pos)
  }

  /** The match code announced by the token's low nibble; any error of the loop is one here. */
  function MatchField(src: seq<byte>, token: byte, ip: nat): (r: Field)
    requires ip < |src|
    ensures ip <= r.pos <= |src|
    ensures r.Field? ==> r.pos < |src|
  {
    var nibble := token % 16;
    if nibble != ML_MASK then Field(nibble, ip)
    else
      var r := ReadLength(src, ip, |src| - LASTLITERALS + 1, 0);
      if r.overran then FieldError(r.pos) else Field(ML_MASK + r.value, r.pos)
  }

  // ----- One token -----

  /** The two-stage shortcut: room for 16 literal bytes and an 18-byte match, so no end check is made. */
  predicate Shortcut(src: seq<byte>, token: byte, ip: nat, op: nat, lim: Limits) {
    token / 16 != RUN_MASK && ip < |src| - 16 && op <= lim.oend - 32
  }

  predicate NearTheEnd(src: seq<byte>, ip: nat, op: nat, length: nat, lim: Limits) {
    op + length > lim.oend - MFLIMIT || ip + length > |src| - (2 + 1 + LASTLITERALS)
  }

  datatype Step = Stop(outcome: Outcome) | Go(out: seq<byte>, ip: nat)

  function Min(a: int, b: int): int { if a < b then a else b }

  function LiteralStep(src: seq<byte>, ip: nat, out: seq<byte>, lim: Limits): (r: Step)
    requires ip < |src| && |out| <= lim.oend
    ensures r.Go? ==> ip < r.ip < |src| - 2 && out <= r.out && |r.out| <= lim.oend
    ensures r.Go? && Shortcut(src, src[ip], LiteralField(src, ip).pos, |out|, lim) ==> |r.out| + 18 <= lim.oend
  {
    match LiteralField(src, ip)
    case FieldError(pos) => Stop(Malformed(pos))
    case Field(length, pos) =>
      if !Shortcut(src, src[ip], pos, |out|, lim) && NearTheEnd(src, pos, |out|, length, lim) then
        if lim.partial then
          var n := Min(Min(length, |src| - pos), lim.oend - |out|);
          var copied := out + src[pos..pos + n];
          if |copied| == lim.oend || pos + n >= |src| - 2 then Stop(Decoded(copied)) else Go(copied, pos + n)
        else if pos + length != |src| || |out| + length > lim.oend then Stop(Malformed(pos))
        else Stop(Decoded(out + src[pos..]))
      else
        Go(out + src[pos..pos + length], pos + length)
  }

  function Offset(src: seq<byte>, ip: nat): nat
    requires ip + 1 < |src|
  {
    var lo: int, hi: int := src[ip], src[ip + 1];
    lo + 256 * hi
  }

  /** `quick`: the literals were copied by the shortcut. */
  function MatchStep(src: seq<byte>, token: byte, quick: bool, ip: nat, out: seq<byte>, lim: Limits): (r: Step)
    requires ip + 2 < |src| && |out| <= lim.oend
    requires quick ==> |out| + 18 <= lim.oend
    ensures r.Go? ==> ip < r.ip < |src| && out <= r.out && |r.out| <= lim.oend
  {
    var offset := Offset(src, ip);
    match MatchField(src, token, ip + 2)
    case FieldError(pos) => Stop(Malformed(pos))
    case Field(code, pos) =>
      var length := code + MINMATCH;
      CopyMatchLength(out, offset, length);
      if |out| - offset < lim.low then Stop(Malformed(pos))
      else if quick && token % 16 != ML_MASK && 8 <= offset then Go(CopyMatch(out, offset, length), pos)
      else if lim.partial && |out| + length > lim.oend - MFLIMIT then
        var n := Min(length, lim.oend - |out|);
        CopyMatchLength(out, offset, n);
        if offset == 0 then Stop(Unspecified)
        else if |out| + n == lim.oend then Stop(Decoded(CopyMatch(out, offset, n)))
        else Go(CopyMatch(out, offset, n), pos)
      else if |out| + length > lim.oend - LASTLITERALS then Stop(Malformed(pos))
      else Go(CopyMatch(out, offset, length), pos)
  }

  function TokenStep(src: seq<byte>, ip: nat, out: seq<byte>, lim: Limits): (r: Step)
    requires ip < |src| && |out| <= lim.oend
    ensures r.Go? ==> ip < r.ip < |src| && out <= r.out && |r.out| <= lim.oend
  {
    var quick := Shortcut(src, src[ip], LiteralField(src, ip).pos, |out|, lim);
    match LiteralStep(src, ip, out, lim)
    case Stop(o) => Stop(o)
    case Go(out', ip') => MatchStep(src, src[ip], quick, ip', out', lim)
  }

  function Run(src: seq<byte>, ip: nat, out: seq<byte>, lim: Limits): Outcome
    requires ip < |src| && |out| <= lim.oend
    decreases |src| - ip
  {
    match TokenStep(src, ip, out, lim)
    case Stop(o) => o
    case Go(out', ip') => Run(src, ip', out', lim)
  }

  /** The whole call: `out` holds the buffer up to the destination, prefix included. */
  function Decompress(src: seq<byte>, out: seq<byte>, lim: Limits): Outcome
    requires |out| <= lim.oend
  {
    if |out| == lim.oend then
      if lim.partial || src == [0] then Decoded(out) else Malformed(0)
    else if src == [] then Malformed(0)
    else Run(src, 0, out, lim)
  }
}
