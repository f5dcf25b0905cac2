/**
  The LZ4 entry points: one-shot compression, and the two stream objects whose state links the blocks of
  a stream whose source, and whose output, are each laid out contiguously.
 */
module Lz4Stream {
  import opened Lz4Format
  import opened Lz4Greedy
  import opened Lz4Compress
  import Lz4Decode
  import opened Lz4Decompress
  import opened Lz4Conformance

  const KB64 := 0x1_0000
  const RENORM_LIMIT := 0x8000_0000
  const ACCELERATION_DEFAULT := 1
  const ACCELERATION_MAX := 65537
  const NULL := -1

  function CompressBound(n: nat): (r: nat)
    ensures r == if n > 0x7E00_0000 then 0 else n + n / 255 + 16
  {
    if n > MAX_INPUT_SIZE then 0 else Bound(n)
  }

  function Acceleration(a: int): (r: nat)
    ensures r == if a < 1 then 1 else if a > 65537 then 65537 else a
  {
    if a < 1 then ACCELERATION_DEFAULT else if a > ACCELERATION_MAX then ACCELERATION_MAX else a
  }

  /** The job of LZ4_compress_fast with ample room: 16-bit indexes for short inputs. */
  function FastJob(source: seq<byte>): Job {
    Job(source, 0, |source|, 0, 0, if |source| < 65547 then ByU16 else ByU32, false, 0, false, Bound(|source|))
  }

  /** The job of one block of a stream whose table indexes start at `offset`, with ample room. */
  function StreamJob(mem: seq<byte>, source: nat, n: nat, offset: nat, dictSmall: bool, dictSize: nat): Job
    requires offset <= source
  {
    Job(mem, source, n, offset, source - offset, ByU32, dictSmall, offset - dictSize, false, Bound(n))
  }

  /** What a job writes when it has ample room; the empty source has a block of its own. */
  ghost function BytesOf(j: Job, table: seq<nat>, acceleration: nat): (bytes: seq<byte>)
    requires j.Valid() && |table| == TableSize(j.tableType) && acceleration >= 1
    ensures bytes != []
  {
    if j.n == 0 then [0] else EncodeBlock(GreedyBlock(j, table, acceleration))
  }

  /** All of `bytes`, or nothing if they do not fit: there is no slack. */
  ghost predicate AllOrNothing(r: nat, dst: seq<byte>, capacity: nat, bytes: seq<byte>) {
    && r == (if |bytes| <= capacity then |bytes| else 0)
    && r <= |dst| && (r > 0 ==> dst[..r] == bytes)
  }

  function Zeroed(t: TableType): (r: seq<nat>)
    ensures |r| == TableSize(t) == if t == ByU16 then 8192 else 4096
  {
    seq(TableSize(t), _ => 0)
  }

  /** Every index brought back by `delta`, or zeroed. */
  function Renormed(table: seq<nat>, delta: nat): (r: seq<nat>)
    ensures |r| == |table|
  {
    seq(|table|, h requires 0 <= h < |table| => if table[h] < delta then 0 else table[h] - delta)
  }

  /** LZ4_stream_t_internal.  Addresses are positions in one memory; `dictionary` is NULL at first. */
  class CompressStream {
    var hashTable: array<nat>
    var currentOffset: nat
    var dictionary: int
    var dictSize: nat

    ghost predicate Fresh()
      reads this, hashTable
    {
      && hashTable.Length == TableSize(ByU32) == 4096 && (forall h :: 0 <= h < hashTable.Length ==> hashTable[h] == 0)
      && currentOffset == 0 && dictSize == 0 && dictionary == NULL
    }

    /** Blocks laid end to end from `origin` up to `pos` have been compressed. */
    ghost predicate Rolling(origin: nat, pos: nat)
      reads this, hashTable
    {
      && hashTable.Length == TableSize(ByU32)
      && (forall h :: 0 <= h < hashTable.Length ==> hashTable[h] == 0 || hashTable[h] < currentOffset)
      && currentOffset == dictSize <= RENORM_LIMIT
      && origin <= dictionary && dictionary + dictSize == pos
    }

    ghost predicate Ready(origin: nat, pos: nat)
      reads this, hashTable
    {
      (Fresh() && origin == pos) || Rolling(origin, pos)
    }

    constructor ()
      ensures Fresh() && fresh(hashTable)
    {
      hashTable := new nat[TableSize(ByU32)](_ => 0);
      currentOffset, dictionary, dictSize := 0, NULL, 0;
    }

    /** LZ4_renormDictT: when indexes would outgrow 32 bits, bring everything back by the same amount.
        A kept entry stays at the same distance; a zeroed one was out of reach. */
    method RenormDict(nextSize: nat)
      requires nextSize < RENORM_LIMIT && currentOffset <= RENORM_LIMIT
      modifies this`currentOffset, this`dictionary, this`dictSize, hashTable
      ensures dictionary + dictSize == old(dictionary + dictSize)
      ensures old(currentOffset) + nextSize <= RENORM_LIMIT ==>
                currentOffset == old(currentOffset) && dictSize == old(dictSize) && hashTable[..] == old(hashTable[..])
      ensures old(currentOffset) + nextSize > RENORM_LIMIT && old(currentOffset) >= 65536 ==>
                hashTable[..] == Renormed(old(hashTable[..]), old(currentOffset) - 65536)
      ensures old(currentOffset) + nextSize > RENORM_LIMIT ==>
                && currentOffset == KB64 && dictSize == (if old(dictSize) > KB64 then KB64 else old(dictSize))
                && (KB64 <= old(currentOffset) ==>
                      forall h :: 0 <= h < hashTable.Length ==>
                        || (hashTable[h] != 0 && currentOffset - hashTable[h] == old(currentOffset) - old(hashTable[h]))
                        || (hashTable[h] == 0 && old(hashTable[h]) + DISTANCE_MAX < old(currentOffset)))
    {
      if currentOffset + nextSize > RENORM_LIMIT {
        var delta := (currentOffset - KB64) % U32_RANGE;
        var dictEnd := dictionary + dictSize;
        for i := 0 to hashTable.Length
          modifies hashTable
          invariant forall h :: 0 <= h < i ==> hashTable[h] == if old(hashTable[h]) < delta then 0 else old(hashTable[h]) - delta
          invariant forall h :: i <= h < hashTable.Length ==> hashTable[h] == old(hashTable[h])
        {
          hashTable[i] := if hashTable[i] < delta then 0 else hashTable[i] - delta;
        }
        currentOffset := KB64;
        if dictSize > KB64 {
          dictSize := KB64;
        }
        dictionary := dictEnd - dictSize;
      }
    }

    /** LZ4_compress_generic with limitedOutput and byU32, for a single segment starting at `low`. */
    method CompressGeneric(mem: seq<byte>, source: nat, n: nat, low: nat, dictSmall: bool, dst: array<byte>,
                           maxOutputSize: nat, acceleration: nat) returns (r: nat)
      requires source + n <= |mem| && low <= source && maxOutputSize <= dst.Length && dst as object != hashTable
      requires acceleration >= 1
      requires hashTable.Length == TableSize(ByU32) && currentOffset + n <= RENORM_LIMIT
      requires low == source - currentOffset
      requires forall h :: 0 <= h < hashTable.Length ==> hashTable[h] == 0 || hashTable[h] < currentOffset
      modifies dst, hashTable, this`currentOffset, this`dictSize
      ensures r <= maxOutputSize && (maxOutputSize >= Bound(n) && n <= MAX_INPUT_SIZE ==> r > 0)
      ensures n <= 0x7E00_0000 ==>
                AllOrNothing(r, dst[..], maxOutputSize,
                             BytesOf(StreamJob(mem, source, n, old(currentOffset), dictSmall, old(dictSize)),
                                     old(hashTable[..]), acceleration))
      ensures r > 0 ==>
                && IsBlockFor(dst[..r], mem[..source], low, mem[source..source + n])
                && currentOffset == old(currentOffset) + n && dictSize == old(dictSize) + n
                && forall h :: 0 <= h < hashTable.Length ==> hashTable[h] == 0 || hashTable[h] < currentOffset
    {
      hide IsBlockFor, GreedyBlock, EncodeBlock;
      if n > MAX_INPUT_SIZE {
        return 0;
      }
      if n == 0 {
        if maxOutputSize == 0 {
          return 0;
        }
        dst[0] := 0;
        assert dst[..1] == [0] && mem[source..source + n] == [];
        EmptyBlock(mem[..source], low);
        return 1;
      }
      var j := Job(mem, source, n, currentOffset, low, ByU32, dictSmall, currentOffset - dictSize, true, maxOutputSize);
      ghost var ample := StreamJob(mem, source, n, currentOffset, dictSmall, dictSize);
      assert j == WithRoom(ample, true, maxOutputSize);
      BlockWithRoom(ample, true, maxOutputSize, hashTable[..], acceleration);
      dictSize := dictSize + n;
      currentOffset := currentOffset + n;
      r := CompressValidated(j, hashTable, dst, acceleration);
      assert forall h :: 0 <= h < hashTable.Length ==> j.EntryOk(hashTable[..][h], j.End());
    }

    /** What the next block is when it has ample room. */
    ghost function NextBytes(mem: seq<byte>, source: nat, n: nat, acceleration: int, origin: nat): (bytes: seq<byte>)
      requires source + n <= |mem| && n <= 0x7E00_0000 && Ready(origin, source)
      reads this, hashTable
      ensures bytes != []
    {
      var renorm := currentOffset + n > 0x8000_0000;
      var offset := if renorm then 65536 else currentOffset;
      var table := if renorm then Renormed(hashTable[..], currentOffset - 65536) else hashTable[..];
      BytesOf(StreamJob(mem, source, n, offset, false, offset), table, Acceleration(acceleration))
    }

    /** LZ4_compress_fast_continue, for a source that starts where the previous one ended. */
    method CompressFastContinue(mem: seq<byte>, source: nat, n: nat, dst: array<byte>, maxOutputSize: nat,
                                acceleration: int, ghost origin: nat) returns (r: nat)
      requires source + n <= |mem| && maxOutputSize <= dst.Length && dst as object != hashTable
      requires n < RENORM_LIMIT && Ready(origin, source)
      modifies this, hashTable, dst
      ensures hashTable == old(hashTable)
      ensures r <= maxOutputSize && (n <= MAX_INPUT_SIZE && maxOutputSize >= Bound(n) ==> r > 0)
      ensures n <= 0x7E00_0000 ==> AllOrNothing(r, dst[..], maxOutputSize, old(NextBytes(mem, source, n, acceleration, origin)))
      ensures r > 0 ==> Rolling(origin, source + n) && IsBlockFor(dst[..r], mem[..source], origin, mem[source..source + n])
    {
      hide BytesOf, AllOrNothing, IsBlockFor, Renormed;
      var dictEnd := dictionary + dictSize;
      RenormDict(n);
      if n > MAX_INPUT_SIZE {
        return 0;
      }
      var dictSmall := dictSize < KB64 && dictSize < currentOffset;
      if dictEnd == source {
        ghost var low: nat := dictionary;
        r := CompressGeneric(mem, source, n, source - dictSize, dictSmall, dst, maxOutputSize, Acceleration(acceleration));
        if r > 0 { LowerLow(dst[..r], mem[..source], low, origin, mem[source..source + n]); }
      } else {
        r := CompressGeneric(mem, source, n, source, dictSmall, dst, maxOutputSize, Acceleration(acceleration));
        dictionary := source;
        dictSize := n;
      }
    }
  }

  /** LZ4_streamDecode_t_internal, without an external dictionary. */
  class DecodeStream {
    var prefixSize: nat
    var prefixEnd: nat

    constructor ()
      ensures prefixSize == 0
    {
      prefixSize, prefixEnd := 0, 0;
    }

    /** lowPrefix of the next call, for output at `dest`. */
    function Low(dest: nat): int
      reads this
    {
      if prefixSize == 0 then dest else if prefixSize >= KB64 - 1 then dest - KB64 else dest - prefixSize
    }

    /** LZ4_decompress_safe_continue, for output that starts where the previous output ended. */
    method DecompressSafeContinue(src: seq<byte>, buf: array<byte>, dest: nat, maxOutputSize: nat) returns (r: int)
      requires dest + maxOutputSize <= buf.Length
      requires prefixSize != 0 ==> prefixEnd == dest && prefixSize <= dest
      modifies this, buf
      ensures Agrees(Lz4Decode.Decompress(src, old(buf[..dest]), Lz4Decode.Limits(dest + maxOutputSize, old(Low(dest)), false)),
                     r, buf[..], dest, dest + maxOutputSize)
      ensures buf[..dest] == old(buf[..dest]) && buf[dest + maxOutputSize..] == old(buf[dest + maxOutputSize..])
      ensures if r <= 0 then prefixSize == old(prefixSize) && prefixEnd == old(prefixEnd)
              else prefixSize == old(prefixSize) + r && prefixEnd == dest + r
    {
      hide Lz4Decode.Decompress, Agrees;
      if prefixSize == 0 {
        r := DecompressSafe(src, buf, dest, maxOutputSize);
        if r <= 0 {
          return;
        }
        prefixSize := r;
        prefixEnd := dest + r;
      } else {
        if prefixSize >= KB64 - 1 {
          r := DecompressGeneric(src, buf, dest, maxOutputSize, false, dest - KB64);
        } else {
          r := DecompressGeneric(src, buf, dest, maxOutputSize, false, dest - prefixSize);
        }
        if r <= 0 {
          return;
        }
        prefixSize := prefixSize + r;
        prefixEnd := prefixEnd + r;
      }
    }
  }

  // ----- Round trips -----

  /** LZ4_compress_fast: a fresh table, 16-bit indexes for short inputs, no checks when `dst` is ample. */
  method CompressFast(source: seq<byte>, dst: array<byte>, maxOutputSize: nat, acceleration: int) returns (r: nat)
    requires maxOutputSize <= dst.Length
    modifies dst
    ensures r <= maxOutputSize && r <= Bound(|source|)
    ensures |source| <= 0x7E00_0000 && maxOutputSize >= |source| + |source| / 255 + 16 ==> r > 0
    // the block of the greedy parse, exactly if it fits
    ensures if |source| > 0x7E00_0000 then r == 0
            else AllOrNothing(r, dst[..], maxOutputSize,
                              BytesOf(FastJob(source), Zeroed(FastJob(source).tableType), Acceleration(acceleration)))
    // a run of equal bytes takes little room
    ensures AllEqual(source) && 13 <= |source| <= 0x7E00_0000 && maxOutputSize >= |source| / 255 + 16 ==>
              0 < r <= |source| / 255 + 16
    ensures r > 0 ==> |source| <= MAX_INPUT_SIZE && IsBlockFor(dst[..r], [], 0, source)
  {
    hide IsBlockFor, EncodeBlock, GreedyBlock;
    var n := |source|;
    if n > MAX_INPUT_SIZE {
      return 0;
    }
    var limited := maxOutputSize < CompressBound(n);
    if n == 0 {
      if limited && maxOutputSize == 0 {
        return 0;
      }
      dst[0] := 0;
      assert dst[..1] == [0];
      EmptyBlock([], 0);
      return 1;
    }
    var tableType := if n < LIMIT_64K then ByU16 else ByU32;
    var table := new nat[TableSize(tableType)](_ => 0);
    assert table[..] == Zeroed(tableType);
    var j := Job(source, 0, n, 0, 0, tableType, false, 0, limited, maxOutputSize);
    assert j == WithRoom(FastJob(source), limited, maxOutputSize);
    BlockWithRoom(FastJob(source), limited, maxOutputSize, table[..], Acceleration(acceleration));
    assert source[..0] == [] && source[0..n] == source;
    if n >= 13 && AllEqual(source) {
      EqualBytes(FastJob(source), table[..], Acceleration(acceleration));
    }
    r := CompressValidated(j, table, dst, Acceleration(acceleration));
    assert dst[..][..r] == dst[..r];
  }

  /** For every input and every acceleration: what LZ4_compress_fast produces, LZ4_decompress_safe turns
      back into the input, and LZ4_decompress_safe_partial into any prefix asked for. */
  method RoundTrip(source: seq<byte>, dst: array<byte>, maxOutputSize: nat, acceleration: int,
                   out: array<byte>, prefix: array<byte>, target: nat) returns (r: nat, n: int, t: int)
    requires maxOutputSize <= dst.Length && |source| <= out.Length && target <= prefix.Length
    requires dst != out && dst != prefix && out != prefix
    modifies dst, out, prefix
    ensures |source| <= MAX_INPUT_SIZE && maxOutputSize >= CompressBound(|source|) ==> r > 0
    ensures r > 0 ==> n == |source| && out[..n] == source
    ensures r > 0 ==> t == Lz4Decode.Min(target, |source|) && prefix[..t] == source[..t]
    ensures prefix[target..] == old(prefix[target..])
  {
    hide IsBlockFor, Lz4Decode.Decompress;
    n, t := 0, 0;
    r := CompressFast(source, dst, maxOutputSize, acceleration);
    if r == 0 {
      return;
    }
    n := DecodeWhole(dst[..r], source, out);
    t := DecodePrefix(dst[..r], source, prefix, target);
  }

  method DecodeWhole(block: seq<byte>, source: seq<byte>, out: array<byte>) returns (n: int)
    requires |source| <= out.Length && |source| <= MAX_INPUT_SIZE && IsBlockFor(block, [], 0, source)
    modifies out
    ensures n == |source| && out[..n] == source
  {
    hide IsBlockFor, Lz4Decode.Decompress;
    assert out[..0] == [] && [] + source == source;
    DecodeConforming(block, [], 0, source, Lz4Decode.Limits(out.Length, 0, false));
    n := DecompressSafe(block, out, 0, out.Length);
    assert out[..][..n] == out[..n];
  }

  method DecodePrefix(block: seq<byte>, source: seq<byte>, prefix: array<byte>, target: nat) returns (t: int)
    requires target <= prefix.Length && |source| <= MAX_INPUT_SIZE && IsBlockFor(block, [], 0, source)
    modifies prefix
    ensures t == Lz4Decode.Min(target, |source|) && prefix[..t] == source[..t] && prefix[target..] == old(prefix[target..])
  {
    hide IsBlockFor, Lz4Decode.Decompress;
    assert prefix[..0] == [] && [] + source == source;
    DecodeConforming(block, [], 0, source, Lz4Decode.Limits(target, 0, true));
    t := DecompressSafePartial(block, prefix, 0, target, target);
    assert prefix[..][..t] == prefix[..t];
  }

  function Sum(sizes: seq<nat>): nat {
    if sizes == [] then 0 else Sum(sizes[..|sizes| - 1]) + sizes[|sizes| - 1]
  }

  lemma {:induction false} SumPrefix(sizes: seq<nat>, i: nat)
    requires i < |sizes|
    ensures Sum(sizes[..i + 1]) == Sum(sizes[..i]) + sizes[i] <= Sum(sizes)
    decreases |sizes| - i
  {
    assert sizes[..i + 1][..i] == sizes[..i];
    if i + 1 == |sizes| {
      assert sizes[..i + 1] == sizes;
    } else {
      SumPrefix(sizes, i + 1);
    }
  }

  /** A block compressed at one address decodes at another, when both sides hold the same bytes since the
      start of the stream. */
  lemma BlockElsewhere(bytes: seq<byte>, mem: seq<byte>, origin: nat, pos: nat, buf: seq<byte>, start: nat,
                       text: seq<byte>, low: int)
    requires origin <= pos <= |mem| && start + (pos - origin) == |buf|
    requires mem[origin..pos] == buf[start..]
    requires IsBlockFor(bytes, mem[..pos], origin, text)
    requires low <= start || low <= |buf| - DISTANCE_MAX
    ensures IsBlockFor(bytes, buf, low, text)
  {
    assert mem[..pos] == mem[..origin] + mem[origin..pos];
    assert buf == buf[..start] + buf[start..];
    Relocate(bytes, mem[..origin], buf[..start], mem[origin..pos], 0, text);
    if low <= start {
      LowerLow(bytes, buf, start, low, text);
    } else {
      WindowSuffices(bytes, buf, start, text);
      LowerLow(bytes, buf, |buf| - DISTANCE_MAX, low, text);
    }
  }

  lemma Extended(before: seq<byte>, source: seq<byte>, pos: nat, n: nat, start: nat)
    requires pos + n <= |source| && |before| == start + pos && before[start..] == source[..pos]
    ensures (before + source[pos..pos + n])[start..] == source[..pos + n]
    ensures (before + source[pos..pos + n])[..start] == before[..start]
  {
    assert source[..pos + n] == source[..pos] + source[pos..pos + n];
  }

  /** One block through both streams: compressed to a buffer of its own, then decoded behind what has
      already been decoded. */
  method SendBlock(compressor: CompressStream, decoder: DecodeStream, source: seq<byte>, pos: nat, n: nat, capacity: nat,
                   acceleration: int, buf: array<byte>, start: nat) returns (ok: bool)
    requires compressor.Ready(0, pos) && pos + n <= |source| && n <= MAX_INPUT_SIZE
    requires start + pos + n <= buf.Length && buf as object != compressor.hashTable
    requires decoder.prefixSize == pos && (pos > 0 ==> decoder.prefixEnd == start + pos)
    requires buf[start..start + pos] == source[..pos]
    modifies compressor, compressor.hashTable, decoder, buf
    ensures compressor.hashTable == old(compressor.hashTable)
    ensures capacity >= CompressBound(n) ==> ok
    ensures ok <==> |old(compressor.NextBytes(source, pos, n, acceleration, 0))| <= capacity
    ensures ok ==> compressor.Ready(0, pos + n)
    ensures ok ==> decoder.prefixSize == pos + n && (pos + n > 0 ==> decoder.prefixEnd == start + pos + n)
    ensures buf[start..start + pos + (if ok then n else 0)] == source[..pos + (if ok then n else 0)]
    ensures buf[..start] == old(buf[..start])
  {
    hide IsBlockFor, Lz4Decode.Decompress, CompressStream.NextBytes;
    var dst := new byte[capacity];
    var r := compressor.CompressFastContinue(source, pos, n, dst, capacity, acceleration, 0);
    if r == 0 {
      return false;
    }
    DecodeNext(decoder, dst[..r], source, pos, n, buf, start);
    ok := true;
  }

  /** The receiving half. */
  method DecodeNext(decoder: DecodeStream, block: seq<byte>, source: seq<byte>, pos: nat, n: nat, buf: array<byte>, start: nat)
    requires pos + n <= |source| && n <= MAX_INPUT_SIZE && start + pos + n <= buf.Length
    requires decoder.prefixSize == pos && (pos > 0 ==> decoder.prefixEnd == start + pos)
    requires buf[start..start + pos] == source[..pos]
    requires IsBlockFor(block, source[..pos], 0, source[pos..pos + n])
    modifies decoder, buf
    ensures decoder.prefixSize == pos + n && (pos + n > 0 ==> decoder.prefixEnd == start + pos + n)
    ensures buf[start..start + pos + n] == source[..pos + n] && buf[..start] == old(buf[..start])
  {
    hide IsBlockFor, Lz4Decode.Decompress;
    var dest := start + pos;
    ghost var text, before, low := source[pos..pos + n], buf[..dest], decoder.Low(dest);
    assert before[start..] == source[0..pos];
    BlockElsewhere(block, source, 0, pos, before, start, text, low);
    DecodeConforming(block, before, low, text, Lz4Decode.Limits(dest + n, low, false));
    assert (before + text)[..dest + n] == before + text;
    var m := decoder.DecompressSafeContinue(block, buf, dest, n);
    ghost var after := buf[..dest + n];
    assert buf[..][..dest + n] == after == before + text;
    Extended(before, source, pos, n, start);
    assert buf[start..dest + n] == after[start..] && buf[..start] == after[..start];
  }

  /** A whole session: a source cut into blocks of any sizes, each compressed with its own capacity and
      acceleration and decoded at once.  The output is the source, unless compression returned 0 for some
      block: then `failed` is the first such block, its capacity is less than the documentation asks for,
      and everything before it has arrived.  No decode ever fails. */
  method Session(source: seq<byte>, sizes: seq<nat>, capacities: seq<nat>, accelerations: seq<int>,
                 buf: array<byte>, start: nat) returns (ok: bool, failed: nat)
    requires Sum(sizes) == |source| && |capacities| == |sizes| == |accelerations|
    requires forall i :: 0 <= i < |sizes| ==> sizes[i] <= MAX_INPUT_SIZE
    requires start + |source| <= buf.Length
    modifies buf
    ensures ok ==> failed == |sizes| && buf[start..start + |source|] == source
    ensures !ok ==> failed < |sizes| && capacities[failed] < CompressBound(sizes[failed])
    ensures Sum(sizes[..failed]) <= |source| && buf[start..start + Sum(sizes[..failed])] == source[..Sum(sizes[..failed])]
    ensures buf[..start] == old(buf[..start])
  {
    hide CompressStream.Rolling, CompressStream.NextBytes, CompressStream.Fresh;
    var compressor := new CompressStream();
    var decoder := new DecodeStream();
    var pos := 0;
    assert sizes[..0] == [];
    failed := 0;
    while failed < |sizes|
      invariant failed <= |sizes| && pos == Sum(sizes[..failed]) <= |source|
      invariant compressor.Ready(0, pos)
      invariant fresh(compressor) && fresh(compressor.hashTable) && fresh(decoder)
      invariant decoder.prefixSize == pos && (pos > 0 ==> decoder.prefixEnd == start + pos)
      invariant buf[start..start + pos] == source[..pos] && buf[..start] == old(buf[..start])
    {
      SumPrefix(sizes, failed);
      ok := SendBlock(compressor, decoder, source, pos, sizes[failed], capacities[failed], accelerations[failed], buf, start);
      if !ok {
        return;
      }
      pos := pos + sizes[failed];
      failed := failed + 1;
    }
    assert sizes[..|sizes|] == sizes && source[..|source|] == source;
    ok := true;
  }
}
