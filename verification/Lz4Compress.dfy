/**
  LZ4_compress_generic_validated: the greedy hash-table match finder, for a single contiguous segment
  of memory (noDict and withPrefix64k), 16- or 32-bit table indexes, with or without an output limit.
  Whatever the table contained, whatever the hash and whatever the acceleration, the bytes produced
  are a conforming block for the source.
 */
module Lz4Compress {
  import opened Lz4Format
  import opened Lz4Emit
  import opened Lz4Greedy
  import Lz4Count

  method PutIndex(j: Job, table: array<nat>, h: nat, ip: nat, ghost p: int)
    requires j.Valid() && h < table.Length
    requires j.source <= ip < p && ip < j.MfLimitPlusOne() && j.TableOk(table[..], p)
    modifies table
    ensures j.TableOk(table[..], p) && table[..] == old(table[..])[h := ip - j.Base()]
  {
    ghost var before := table[..];
    var index: nat := ip - j.Base();
    assert index < j.EntryLimit();
    table[h] := index;
    assert table[..] == before[h := index];
  }

  /** The search loop.  In particular a hit at `ip0` itself is always taken. */
  method FindMatch(j: Job, table: array<nat>, ip0: nat, forwardH0: nat, acceleration: nat)
    returns (found: bool, ip: nat, m: nat)
    requires j.Valid() && acceleration >= 1
    requires j.source <= ip0 <= j.MfLimitPlusOne()
    requires forwardH0 == HashPosition(j, ip0)
    requires j.TableOk(table[..], ip0)
    modifies table
    ensures Search(j, old(table[..]), ip0, 0, acceleration) == Probe(found, table[..], ip, m)
    ensures ip0 < j.MfLimitPlusOne() && Hit(j, old(table[HashPosition(j, ip0)]), ip0) ==>
              found && ip == ip0 && m == j.Base() + old(table[HashPosition(j, ip0)])
    ensures found ==> ip0 <= ip < j.MfLimitPlusOne() && IsMatch(j, ip, m) && j.TableOk(table[..], ip + 1)
    ensures !found ==> j.TableOk(table[..], j.End())
  {
    hide HashPosition, Lz4Count.ReadLE, Lz4Count.Same, IsMatch, Search;
    var forwardIp, forwardH := ip0, forwardH0;
    var step, searchMatchNb := 1, acceleration * 64;
    ghost var k := 0;
    FirstProbe(j, table[..], ip0, acceleration);
    while true
      invariant ip0 <= forwardIp <= j.MfLimitPlusOne()
      invariant step == StepSize(k, acceleration) && searchMatchNb == 64 * acceleration + k
      invariant forwardH == HashPosition(j, forwardIp) < table.Length
      invariant j.TableOk(table[..], forwardIp)
      invariant Search(j, table[..], forwardIp, k, acceleration) == Search(j, old(table[..]), ip0, 0, acceleration)
      decreases j.End() - forwardIp
    {
      var h, current := forwardH, forwardIp - j.Base();
      var matchIndex := table[h];
      assert j.EntryOk(table[..][h], forwardIp);
      NextProbe(j, table[..], forwardIp, k, acceleration);
      ip := forwardIp;
      forwardIp := forwardIp + step;
      step := searchMatchNb / 64;
      searchMatchNb := searchMatchNb + 1;
      k := k + 1;
      if forwardIp > j.MfLimitPlusOne() {
        EntryLater(j, table[..], ip, j.End());
        return false, ip, 0;
      }
      forwardH := HashPosition(j, forwardIp);
      EntryLater(j, table[..], ip, ip + 1);
      PutIndex(j, table, h, ip, ip + 1);
      if !(j.dictSmall && matchIndex < j.prefixIdxLimit) {
        if !(j.tableType != ByU16 && matchIndex + DISTANCE_MAX < current) {
          CandidateIsMatch(j, matchIndex, ip);
          m := j.Base() + matchIndex;
          if Lz4Count.ReadLE(j.mem, m, 4) == Lz4Count.ReadLE(j.mem, ip, 4) {
            MatchInside(j, ip, m);
            return true, ip, m;
          }
        }
      }
      EntryLater(j, table[..], ip + 1, forwardIp);
    }
  }

  lemma MatchInside(j: Job, ip: int, m: int)
    requires IsMatch(j, ip, m)
    ensures j.low <= m < ip && 0 <= m && ip + MINMATCH <= |j.mem|
  {
  }

  /** Extend the match backwards into the pending literals. */
  method CatchUp(j: Job, anchor: nat, ip0: nat, m0: nat) returns (ip: nat, m: nat)
    requires j.Valid() && anchor <= ip0 && IsMatch(j, ip0, m0)
    ensures anchor <= ip <= ip0 && ip - m == ip0 - m0 && IsMatch(j, ip, m)
    ensures ip == ip0 - Back(j, anchor, ip0, m0)
    ensures ip == anchor || m == j.low || j.mem[ip - 1] != j.mem[m - 1]
    ensures Lz4Count.Same(j.mem, ip, m, ip0 + MINMATCH - ip)
  {
    hide IsMatch, Back, Lz4Count.Same;
    MatchInside(j, ip0, m0);
    MatchIsSame(j, ip0, m0);
    ip, m := ip0, m0;
    while ip > anchor && m > j.low && j.mem[ip - 1] == j.mem[m - 1]
      invariant anchor <= ip <= ip0 <= |j.mem| && ip - m == ip0 - m0 && IsMatch(j, ip, m)
      invariant ip0 + MINMATCH <= |j.mem|
      invariant ip - Back(j, anchor, ip, m) == ip0 - Back(j, anchor, ip0, m0)
      invariant Lz4Count.Same(j.mem, ip, m, ip0 + MINMATCH - ip)
    {
      OneBack(j, anchor, ip, m, ip0 + MINMATCH - ip);
      ip, m := ip - 1, m - 1;
    }
    NoMoreBack(j, anchor, ip, m);
  }

  lemma OneBack(j: Job, anchor: nat, ip: nat, m: nat, n: nat)
    requires IsMatch(j, ip, m) && ip > anchor && m > j.low && j.mem[ip - 1] == j.mem[m - 1]
    requires ip + n <= |j.mem| && Lz4Count.Same(j.mem, ip, m, n)
    ensures IsMatch(j, ip - 1, m - 1) && Lz4Count.Same(j.mem, ip - 1, m - 1, n + 1)
    ensures Back(j, anchor, ip, m) == 1 + Back(j, anchor, ip - 1, m - 1)
  {
    Lz4Count.SameCons(j.mem, ip - 1, m - 1, n + 1);
  }

  lemma NoMoreBack(j: Job, anchor: nat, ip: nat, m: nat)
    requires IsMatch(j, ip, m) && anchor <= ip && !(ip > anchor && m > j.low && j.mem[ip - 1] == j.mem[m - 1])
    ensures Back(j, anchor, ip, m) == 0
    ensures ip == anchor || m == j.low || j.mem[ip - 1] != j.mem[m - 1]
  {
  }

  // ----- What has been written so far -----

  /** `out` is the sequences encoded so far and they stand for the input up to `anchor`. */
  ghost predicate WrittenText(j: Job, out: seq<byte>, sequences: seq<Sequence>, anchor: nat) {
    && j.source <= anchor <= j.End() <= |j.mem|
    && WellFormed(j.History(), j.low, sequences)
    && EncodeSequences(sequences) == out
    && Expand(j.History(), sequences) == j.mem[..anchor]
    && (sequences != [] ==> sequences[|sequences| - 1].matchLength + (j.End() - anchor) >= MFLIMIT
                            && anchor <= j.MatchLimit())
  }

  /** The output stays within 256/255 of the input consumed, and room for the shortest end of block is kept. */
  ghost predicate WrittenSize(j: Job, size: nat, started: bool, anchor: nat) {
    && 255 * size <= 256 * (anchor - j.source)
    && (started ==> size + 1 + LASTLITERALS <= j.olimit)
  }

  ghost predicate Written(j: Job, out: seq<byte>, sequences: seq<Sequence>, anchor: nat) {
    WrittenText(j, out, sequences, anchor) && WrittenSize(j, |out|, sequences != [], anchor)
  }

  /** Amortised cost: a sequence never costs more than 256/255 of the input it covers. */
  lemma SequenceCost(s: Sequence)
    requires Encodable(s)
    ensures 255 * |EncodeSequence(s)| <= 256 * (|s.literals| + s.matchLength)
  {
    ExtensionSize(|s.literals|);
    ExtensionSize(s.matchLength - MINMATCH);
    assert |EncodeSequence(s)| == 3 + |Extension(|s.literals|)| + |s.literals| + |Extension(s.matchLength - MINMATCH)|;
  }

  /** The text covered by a match is what the format says it stands for. */
  lemma MatchCovers(mem: seq<byte>, anchor: nat, ip: nat, m: nat, length: nat)
    requires anchor <= ip && m < ip && ip + length <= |mem|
    requires Lz4Count.Same(mem, ip, m, length)
    ensures ApplySequence(mem[..anchor], Sequence(mem[anchor..ip], ip - m, length)) == mem[..ip + length]
  {
    assert mem[..anchor] + mem[anchor..ip] == mem[..ip];
    CopyMatchUnique(mem[..ip], ip - m, length, mem[..ip + length]);
  }

  /** A match and the literals before it, appended. */
  lemma ExtendSequences(mem: seq<byte>, source: nat, low: nat, sequences: seq<Sequence>, anchor: nat, ip: nat, m: nat, s: Sequence)
    requires source <= anchor <= ip && low <= m < ip && ip + s.matchLength <= |mem|
    requires WellFormed(mem[..source], low, sequences) && Expand(mem[..source], sequences) == mem[..anchor]
    requires s.literals == mem[anchor..ip] && s.offset == ip - m && Encodable(s)
    requires Lz4Count.Same(mem, ip, m, s.matchLength)
    ensures WellFormed(mem[..source], low, sequences + [s])
    ensures EncodeSequences(sequences + [s]) == EncodeSequences(sequences) + EncodeSequence(s)
    ensures Expand(mem[..source], sequences + [s]) == mem[..ip + s.matchLength]
  {
    hide EncodeSequence, EncodeSequences, Expand, WellFormed, ApplySequence, Lz4Count.Same;
    MatchCovers(mem, anchor, ip, m, s.matchLength);
    AppendSequence(mem[..source], low, sequences, s);
  }

  /** One more sequence written: what it means. */
  lemma ExtendText(j: Job, out: seq<byte>, sequences: seq<Sequence>, anchor: nat, ip: nat, m: nat, code: nat, s: Sequence)
    requires j.Valid() && anchor <= ip < j.MfLimitPlusOne() && ip + MINMATCH + code <= j.MatchLimit()
    requires WrittenText(j, out, sequences, anchor)
    requires IsMatch(j, ip, m) && Lz4Count.Same(j.mem, ip + MINMATCH, m + MINMATCH, code)
    requires s == Sequence(j.mem[anchor..ip], ip - m, code + MINMATCH) && Encodable(s)
    ensures WrittenText(j, out + EncodeSequence(s), sequences + [s], ip + MINMATCH + code)
  {
    hide EncodeSequence, EncodeSequences, Expand, WellFormed, Encodable, Bound, Lz4Count.Same;
    Lz4Count.SameAppend(j.mem, ip, m, MINMATCH, code);
    ExtendSequences(j.mem, j.source, j.low, sequences, anchor, ip, m, s);
    assert (sequences + [s])[|sequences|] == s;
  }

  lemma MatchEncodable(j: Job, ip: nat, m: nat)
    requires IsMatch(j, ip, m)
    ensures 1 <= ip - m <= DISTANCE_MAX && j.low <= m
  {
  }

  /** One more sequence written: the invariant of the main loop. */
  lemma ExtendWritten(j: Job, out: seq<byte>, sequences: seq<Sequence>, anchor: nat, ip: nat, m: nat, code: nat)
    returns (s: Sequence)
    requires j.Valid() && Written(j, out, sequences, anchor) && anchor <= ip < j.MfLimitPlusOne()
    requires IsMatch(j, ip, m)
    requires code == Lz4Count.CommonLength(j.mem, ip + MINMATCH, m + MINMATCH, j.MatchLimit())
    ensures s == Sequence(j.mem[anchor..ip], ip - m, code + MINMATCH) && Encodable(s)
    ensures j.Ample() ==> |out + EncodeSequence(s)| + 1 + LASTLITERALS <= j.olimit
    ensures |out + EncodeSequence(s)| + 1 + LASTLITERALS <= j.olimit ==>
              Written(j, out + EncodeSequence(s), sequences + [s], ip + MINMATCH + code)
  {
    s := Sequence(j.mem[anchor..ip], ip - m, code + MINMATCH);
    hide Extension, EncodeSequence, WrittenText, Lz4Count.CommonLength, Lz4Count.Same;
    MatchEncodable(j, ip, m);
    ExtendText(j, out, sequences, anchor, ip, m, code, s);
    SequenceCost(s);
  }

  // ----- Emitting -----

  /** A sequence whose literals are written and whose match is known but not written: `out` is the
      output before its token, `written` everything so far. */
  ghost predicate Pending(j: Job, out: seq<byte>, written: seq<byte>, sequences: seq<Sequence>, anchor: nat, ip: nat, m: nat) {
    && Written(j, out, sequences, anchor)
    && anchor <= ip < j.MfLimitPlusOne()
    && IsMatch(j, ip, m)
    && written == out + LiteralPart(j.mem[anchor..ip], 0)
    && |written| + 2 <= j.olimit
  }

  /** The size the output check computes is the size of the match part. */
  lemma RoomForMatch(out: seq<byte>, s: Sequence)
    requires Encodable(s)
    ensures var code := s.matchLength - MINMATCH;
            && (code + 240) / 255 == |Extension(code)|
            && |out + EncodeSequence(s)| == |out| + |LiteralPart(s.literals, 0)| + 2 + |Extension(code)|
  {
    ExtensionSize(s.matchLength - MINMATCH);
    assert |EncodeSequence(s)| == |LiteralPart(s.literals, s.matchLength - MINMATCH)| + 2 + |Extension(s.matchLength - MINMATCH)|;
  }

  /** The count cannot stop before bytes already known to agree. */
  lemma CountCovers(j: Job, ip: nat, m: nat, filledIp: nat)
    requires j.Valid() && IsMatch(j, ip, m) && ip <= filledIp < j.MfLimitPlusOne()
    requires Lz4Count.Same(j.mem, ip, m, filledIp + MINMATCH - ip)
    ensures filledIp <= ip + Lz4Count.CommonLength(j.mem, ip + MINMATCH, m + MINMATCH, j.MatchLimit())
  {
  }

  /** One match: its length is counted, the output checked, the bytes written. */
  method EncodeOneMatch(j: Job, dst: array<byte>, ghost sequences: seq<Sequence>, token: nat, op0: nat, ghost anchor: nat,
                        ip0: nat, m: nat, ghost filledIp: nat)
    returns (ok: bool, op: nat, ip: nat, ghost extended: seq<Sequence>)
    requires j.Valid() && j.olimit <= dst.Length
    requires token <= op0 <= dst.Length
    requires Pending(j, dst[..token], dst[..op0], sequences, anchor, ip0, m)
    requires ip0 <= filledIp < j.MfLimitPlusOne() && Lz4Count.Same(j.mem, ip0, m, filledIp + MINMATCH - ip0)
    modifies dst
    ensures ok ==> op <= dst.Length && Written(j, dst[..op], extended, ip) && extended != []
    ensures ok ==> filledIp + MINMATCH <= ip
    ensures ok ==> var s := NextSequence(j, anchor, ip0, m); extended == sequences + [s] && ip == ip0 + s.matchLength
    ensures !ok ==> j.limited && token + |EncodeSequence(NextSequence(j, anchor, ip0, m))| + 6 > j.olimit
    ensures j.Ample() ==> ok
  {
    hide EncodeSequences, WellFormed, Expand, Extension, Written, LiteralPart, Lz4Count.Same, Lz4Count.CommonLength;
    ok, op, ip, extended := false, op0, ip0, sequences;
    ghost var out, literals := dst[..token], j.mem[anchor..ip0];
    var code := Lz4Count.Count(j.mem, ip0 + MINMATCH, m + MINMATCH, j.MatchLimit());
    CountCovers(j, ip0, m, filledIp);
    ghost var s := ExtendWritten(j, out, sequences, anchor, ip0, m, code);
    RoomForMatch(out, s);
    if j.limited && op0 + 2 + (1 + LASTLITERALS) + (code + 240) / 255 > j.olimit {
      return;
    }
    op := EncodeMatch(dst, token, op0, ip0 - m, code, out, literals);
    assert dst[..op] == out + EncodeSequence(s);
    ok, ip, extended := true, ip0 + MINMATCH + code, sequences + [s];
  }

  /** The test of the position right after a match: is its table entry a usable match too? */
  method TestNextPosition(j: Job, table: array<nat>, ip: nat) returns (hit: bool, m: nat)
    requires j.Valid() && j.source + 2 <= ip < j.MfLimitPlusOne()
    requires j.TableOk(table[..], ip)
    modifies table
    ensures j.TableOk(table[..], ip + 1)
    ensures var before := Put(j, old(table[..]), ip - 2);
            var e := before[HashPosition(j, ip)];
            && table[..] == Put(j, before, ip)
            && (hit <==> Hit(j, e, ip)) && (hit ==> m == j.Base() + e)
    ensures hit ==> IsMatch(j, ip, m)
  {
    hide HashPosition, Lz4Count.ReadLE, Lz4Count.Same, IsMatch;
    PutIndex(j, table, HashPosition(j, ip - 2), ip - 2, ip);
    var h, current := HashPosition(j, ip), ip - j.Base();
    var matchIndex := table[h];
    assert j.EntryOk(table[..][h], ip);
    EntryLater(j, table[..], ip, ip + 1);
    PutIndex(j, table, h, ip, ip + 1);
    hit, m := false, 0;
    if !j.dictSmall || matchIndex >= j.prefixIdxLimit {
      if j.tableType == ByU16 || matchIndex + DISTANCE_MAX >= current {
        CandidateIsMatch(j, matchIndex, ip);
        m := j.Base() + matchIndex;
        hit := Lz4Count.ReadLE(j.mem, m, 4) == Lz4Count.ReadLE(j.mem, ip, 4);
      }
    }
  }

  lemma MatchIsSame(j: Job, ip: nat, m: nat)
    requires IsMatch(j, ip, m)
    ensures Lz4Count.Same(j.mem, ip, m, MINMATCH)
  {
  }

  /** A zero token is the literal part of a sequence without literals. */
  lemma NoLiterals(j: Job, out: seq<byte>, sequences: seq<Sequence>, ip: nat, m: nat)
    requires j.Valid() && Written(j, out, sequences, ip) && sequences != []
    requires ip < j.MfLimitPlusOne() && IsMatch(j, ip, m)
    ensures Pending(j, out, out + [0], sequences, ip, ip, m)
    ensures |out| + 3 <= j.olimit
  {
    hide WellFormed, EncodeSequences, Expand;
    assert j.mem[ip..ip] == [];
    assert LiteralPart([], 0) == [0];
  }

  /** One match written, and the position after it tested unless the search area ends there. */
  method MatchTurn(j: Job, dst: array<byte>, table: array<nat>, ghost sequences0: seq<Sequence>, token: nat, op0: nat,
                   ghost anchor: nat, ip0: nat, m0: nat, ghost filledIp: nat, ghost acceleration: nat, ghost goal: Parse)
    returns (ok: bool, hit: bool, op: nat, ip: nat, m: nat, ghost sequences: seq<Sequence>)
    requires j.Valid() && j.olimit <= dst.Length && dst as object != table && acceleration >= 1
    requires token <= op0 <= dst.Length
    requires Pending(j, dst[..token], dst[..op0], sequences0, anchor, ip0, m0)
    requires ip0 <= filledIp < j.MfLimitPlusOne() && Lz4Count.Same(j.mem, ip0, m0, filledIp + MINMATCH - ip0)
    requires j.TableOk(table[..], filledIp + 1) && Sensible(j, j.source, goal)
    requires goal == Prepend(sequences0, FromMatch(j, table[..], anchor, ip0, m0, acceleration))
    modifies dst, table
    ensures ok ==> op <= dst.Length && Written(j, dst[..op], sequences, ip) && sequences != [] && filledIp + MINMATCH <= ip
    ensures ok && ip >= j.MfLimitPlusOne() ==> !hit && goal == Parse(sequences, ip, table[..])
    ensures ok && ip < j.MfLimitPlusOne() ==> j.TableOk(table[..], ip + 1)
    ensures ok && ip < j.MfLimitPlusOne() && !hit ==> goal == Prepend(sequences, Rest(j, table[..], ip, ip + 1, acceleration))
    ensures ok && hit ==> IsMatch(j, ip, m) && goal == Prepend(sequences, FromMatch(j, table[..], ip, ip, m, acceleration))
    ensures !ok ==> j.limited && TooLong(j, goal)
    ensures j.Ample() ==> ok
    ensures j.TableOk(table[..], j.End())
  {
    hide EncodeSequences, EncodeSequence, WellFormed, Expand, Extension, LiteralPart, Lz4Count.Same, FromMatch, Rest,
         NextSequence, Sensible, HashPosition, BlockOf, EncodeBlock, WrittenText, IsMatch, Hit, TooLong;
    hit, m := false, 0;
    EntryLater(j, table[..], filledIp + 1, j.End());
    ghost var tableBefore, s := table[..], NextSequence(j, anchor, ip0, m0);
    OneMatch(j, tableBefore, sequences0, anchor, ip0, m0, acceleration, goal, dst[..token]);
    AfterMatch(j, tableBefore, anchor, ip0, m0, acceleration);
    ok, op, ip, sequences := EncodeOneMatch(j, dst, sequences0, token, op0, anchor, ip0, m0, filledIp);
    assert table[..] == tableBefore;
    if !ok || ip >= j.MfLimitPlusOne() {
      return;
    }
    EntryLater(j, table[..], filledIp + 1, ip);
    ghost var out := dst[..op];
    hit, m := TestNextPosition(j, table, ip);
    assert dst[..op] == out;
    EntryLater(j, table[..], ip + 1, j.End());
    if hit {
      PrependOne(sequences0, s, FromMatch(j, table[..], ip, ip, m, acceleration));
    } else {
      PrependOne(sequences0, s, Rest(j, table[..], ip, ip + 1, acceleration));
    }
  }

  /** From `_next_match` to the end of an iteration of the main loop: matches that follow each other
      without literals are written one after the other.  `goal` is the parse of the whole input. */
  method EncodeMatches(j: Job, dst: array<byte>, table: array<nat>, ghost sequences0: seq<Sequence>, token0: nat, op0: nat,
                       ghost anchor0: nat, ip0: nat, m0: nat, ghost filledIp0: nat, ghost acceleration: nat, ghost goal: Parse)
    returns (ok: bool, endOfChunk: bool, op: nat, ip: nat, ghost sequences: seq<Sequence>)
    requires j.Valid() && j.olimit <= dst.Length && dst as object != table && acceleration >= 1
    requires token0 <= op0 <= dst.Length
    requires Pending(j, dst[..token0], dst[..op0], sequences0, anchor0, ip0, m0)
    requires ip0 <= filledIp0 < j.MfLimitPlusOne() && Lz4Count.Same(j.mem, ip0, m0, filledIp0 + MINMATCH - ip0)
    requires j.TableOk(table[..], filledIp0 + 1)
    requires Sensible(j, j.source, goal)
    requires goal == Prepend(sequences0, FromMatch(j, table[..], anchor0, ip0, m0, acceleration))
    modifies dst, table
    ensures ok ==> op <= dst.Length && Written(j, dst[..op], sequences, ip) && sequences != [] && filledIp0 < ip
    ensures ok && !endOfChunk ==> ip < j.MfLimitPlusOne() && j.TableOk(table[..], ip + 1)
    ensures ok && endOfChunk ==> goal == Parse(sequences, ip, table[..])
    ensures ok && !endOfChunk ==> goal == Prepend(sequences, Rest(j, table[..], ip, ip + 1, acceleration))
    ensures !ok ==> j.limited && TooLong(j, goal)
    ensures j.Ample() ==> ok
    ensures j.TableOk(table[..], j.End())
  {
    hide EncodeSequences, WellFormed, Expand, Extension, LiteralPart, Lz4Count.Same, FromMatch, Rest, Sensible, TooLong, WrittenText;
    var token: nat, m: nat := token0, m0;
    ok, endOfChunk, op, ip, sequences := true, false, op0, ip0, sequences0;
    ghost var anchor, filledIp := anchor0, filledIp0;
    while true
      invariant token <= op <= dst.Length
      invariant Pending(j, dst[..token], dst[..op], sequences, anchor, ip, m)
      invariant ip <= filledIp < j.MfLimitPlusOne() && Lz4Count.Same(j.mem, ip, m, filledIp + MINMATCH - ip)
      invariant j.TableOk(table[..], filledIp + 1)
      invariant filledIp0 <= filledIp
      invariant goal == Prepend(sequences, FromMatch(j, table[..], anchor, ip, m, acceleration))
      decreases j.End() - filledIp
    {
      var hit;
      ok, hit, op, ip, m, sequences := MatchTurn(j, dst, table, sequences, token, op, anchor, ip, m, filledIp, acceleration, goal);
      if !ok {
        return;
      }
      endOfChunk := ip >= j.MfLimitPlusOne();
      if !hit {
        return;
      }
      ghost var out := dst[..op];
      NoLiterals(j, out, sequences, ip, m);
      MatchIsSame(j, ip, m);
      anchor, filledIp := ip, ip;
      token := op;
      dst[token] := 0;
      op := op + 1;
      assert dst[..token] == out && dst[..op] == out + [0];
    }
  }

  /** What failing at a match means. */
  lemma OneMatch(j: Job, table: seq<nat>, sequences: seq<Sequence>, anchor: nat, ip: nat, m: nat, acceleration: nat,
                 goal: Parse, out: seq<byte>)
    requires j.Valid() && |table| == TableSize(j.tableType) && acceleration >= 1
    requires j.source <= anchor <= ip < j.MfLimitPlusOne() && IsMatch(j, ip, m) && Written(j, out, sequences, anchor)
    requires Sensible(j, j.source, goal) && goal == Prepend(sequences, FromMatch(j, table, anchor, ip, m, acceleration))
    ensures |out| + |EncodeSequence(NextSequence(j, anchor, ip, m))| + 6 > j.olimit ==> TooLong(j, goal)
  {
    hide EncodeSequences, EncodeSequence, EncodeBlock, WellFormed, Expand, FromMatch, NextSequence, Sensible, BlockOf;
    var tail := FirstSequence(j, table, anchor, ip, m, acceleration);
    PrependOne(sequences, NextSequence(j, anchor, ip, m), tail);
    PartFits(j, sequences, NextSequence(j, anchor, ip, m), tail);
  }

  lemma NothingWritten(j: Job)
    requires j.Valid()
    ensures Written(j, [], [], j.source)
  {
  }

  /** The literals in front of a match are written: what remains is the match. */
  lemma LiteralsWritten(j: Job, out: seq<byte>, written: seq<byte>, sequences: seq<Sequence>, anchor: nat, ip: nat, m: nat)
    requires j.Valid() && Written(j, out, sequences, anchor)
    requires anchor <= ip < j.MfLimitPlusOne() && IsMatch(j, ip, m)
    requires written == out + LiteralPart(j.mem[anchor..ip], 0)
    requires RoomForLiterals(|out|, ip - anchor, j.olimit)
    ensures Pending(j, out, written, sequences, anchor, ip, m)
  {
    hide WellFormed, EncodeSequences, Expand;
    ExtensionSize(ip - anchor);
    assert |LiteralPart(j.mem[anchor..ip], 0)| == 1 + |Extension(ip - anchor)| + (ip - anchor);
  }

  lemma RoomEnough(j: Job, size: nat, anchor: nat, ip: nat)
    requires j.Valid() && j.source <= anchor <= ip <= j.End()
    requires 255 * size <= 256 * (anchor - j.source)
    ensures size + 2 + (ip - anchor) + (ip - anchor + 240) / 255 <= j.n + j.n / 255 + 16
    ensures j.Ample() && ip < j.MfLimitPlusOne() ==> RoomForLiterals(size, ip - anchor, j.olimit)
  {
  }

  /** The bytes are a block for the source. */
  lemma Finished(j: Job, out: seq<byte>, sequences: seq<Sequence>, anchor: nat)
    requires j.Valid() && Written(j, out, sequences, anchor)
    ensures IsBlockFor(out + LiteralPart(j.mem[anchor..j.End()], 0), j.History(), j.low, j.mem[j.source..j.End()])
  {
    hide WellFormed;
    var b := Block(sequences, j.mem[anchor..j.End()]);
    assert j.mem[..anchor] + j.mem[anchor..j.End()] == j.mem[..j.End()] == j.History() + j.mem[j.source..j.End()];
    assert forall i :: 0 <= i < |sequences| ==> Encodable(sequences[i]) by { EncodableAll(j.History(), j.low, sequences); }
    assert Encodes(EncodeBlock(b), j.History(), j.low, j.mem[j.source..j.End()], b);
  }

  lemma EncodableAll(history: seq<byte>, low: int, sequences: seq<Sequence>)
    requires WellFormed(history, low, sequences)
    ensures forall i :: 0 <= i < |sequences| ==> Encodable(sequences[i])
  {
  }

  /** `_last_literals`. */
  method FinishBlock(j: Job, dst: array<byte>, ghost sequences: seq<Sequence>, op: nat, anchor: nat) returns (r: nat)
    requires j.Valid() && j.olimit <= dst.Length && op <= dst.Length
    requires Written(j, dst[..op], sequences, anchor)
    modifies dst
    ensures r <= dst.Length && (r > 0 ==> IsBlockFor(dst[..r], j.History(), j.low, j.mem[j.source..j.End()]))
    ensures var whole := old(dst[..op]) + LiteralPart(j.mem[anchor..j.End()], 0);
            && r == (if |whole| <= j.olimit then |whole| else 0)
            && (r > 0 ==> dst[..r] == whole)
    ensures r <= Bound(j.n) && r <= j.olimit && (j.Ample() ==> r > 0)
  {
    hide WellFormed, EncodeSequences, Expand, IsBlockFor, Extension;
    var lastRun := j.End() - anchor;
    LastSize(lastRun);
    assert |LiteralPart(j.mem[anchor..j.End()], 0)| == 1 + |Extension(lastRun)| + lastRun;
    RoomEnough(j, op, anchor, j.End());
    if j.limited && op + lastRun + 1 + (lastRun + 240) / 255 > j.olimit {
      return 0;
    }
    Finished(j, dst[..op], sequences, anchor);
    r := EncodeLastLiterals(dst, op, j.mem, anchor, j.End());
  }

  lemma LastSize(n: nat)
    ensures |Extension(n)| == (n + 240) / 255
  {
    ExtensionSize(n);
  }

  /** Failing before the literals of a match means that the block is too long. */
  lemma NoRoom(j: Job, table: seq<nat>, sequences: seq<Sequence>, anchor: nat, ip: nat, m: nat, acceleration: nat,
               goal: Parse, out: seq<byte>)
    requires j.Valid() && |table| == TableSize(j.tableType) && acceleration >= 1
    requires j.source <= anchor <= ip < j.MfLimitPlusOne() && IsMatch(j, ip, m) && Written(j, out, sequences, anchor)
    requires Sensible(j, j.source, goal) && goal == Prepend(sequences, FromMatch(j, table, anchor, ip, m, acceleration))
    requires !RoomForLiterals(|out|, ip - anchor, j.olimit)
    ensures TooLong(j, goal)
  {
    hide EncodeSequences, EncodeSequence, EncodeBlock, WellFormed, Expand, FromMatch, NextSequence, Sensible, BlockOf, TooLong;
    OneMatch(j, table, sequences, anchor, ip, m, acceleration, goal, out);
    LiteralsSize(NextSequence(j, anchor, ip, m));
    NextLiterals(j, anchor, ip, m);
  }

  lemma LiteralsSize(s: Sequence)
    requires Writable(s)
    ensures |EncodeSequence(s)| >= 3 + |s.literals| + |s.literals| / 255
  {
    ExtensionSize(|s.literals|);
  }

  lemma NextLiterals(j: Job, anchor: nat, ip: nat, m: nat)
    requires j.Valid() && anchor <= ip < j.MfLimitPlusOne() && IsMatch(j, ip, m)
    ensures |NextSequence(j, anchor, ip, m).literals| == ip - anchor
  {
  }

  /** The bytes of a finished parse are the block of the goal. */
  lemma GoalReached(j: Job, out: seq<byte>, sequences: seq<Sequence>, anchor: nat, goal: Parse)
    requires j.Valid() && Written(j, out, sequences, anchor) && Sensible(j, j.source, goal)
    requires goal.sequences == sequences && goal.anchor == anchor
    ensures EncodeBlock(BlockOf(j, goal)) == out + LiteralPart(j.mem[anchor..j.End()], 0)
  {
    hide WellFormed, Expand, EncodeSequences, LiteralPart;
  }

  /** One iteration of the main loop: search, catch up, literals, matches.  `done`: the last literals are next. */
  method EncodeNext(j: Job, table: array<nat>, dst: array<byte>, op0: nat, anchor0: nat, ip0: nat, acceleration: nat,
                    ghost sequences0: seq<Sequence>, ghost goal: Parse)
    returns (ok: bool, done: bool, op: nat, anchor: nat, ghost sequences: seq<Sequence>)
    requires j.Valid() && acceleration >= 1 && j.olimit <= dst.Length && dst as object != table
    requires op0 <= dst.Length && Written(j, dst[..op0], sequences0, anchor0)
    requires j.source <= anchor0 <= ip0 <= j.MfLimitPlusOne() && j.TableOk(table[..], ip0) && Sensible(j, j.source, goal)
    requires goal == Prepend(sequences0, Rest(j, table[..], anchor0, ip0, acceleration))
    modifies dst, table
    ensures ok ==> op <= dst.Length && Written(j, dst[..op], sequences, anchor) && anchor0 <= anchor
    ensures ok && done ==> goal.sequences == sequences && goal.anchor == anchor
    ensures ok && !done ==> ip0 <= anchor < j.MfLimitPlusOne() && j.TableOk(table[..], anchor + 1)
    ensures ok && !done ==> goal == Prepend(sequences, Rest(j, table[..], anchor, anchor + 1, acceleration))
    ensures !ok ==> j.limited && TooLong(j, goal)
    ensures j.Ample() ==> ok
    ensures j.TableOk(table[..], j.End())
  {
    hide WellFormed, EncodeSequences, Expand, Extension, LiteralPart, HashPosition, Lz4Count.Same, WrittenText,
         Search, Rest, FromMatch, Sensible, BlockOf, EncodeBlock, Back, IsMatch, TooLong;
    ok, done, op, anchor, sequences := true, true, op0, anchor0, sequences0;
    ghost var out, tableBefore := dst[..op], table[..];
    RestIs(j, tableBefore, anchor, ip0, acceleration);
    var found, ip, match0 := FindMatch(j, table, ip0, HashPosition(j, ip0), acceleration);
    assert dst[..op] == out;
    if !found {
      assert sequences + [] == sequences;
      return;
    }
    EntryLater(j, table[..], ip + 1, j.End());
    var ip1, m := CatchUp(j, anchor, ip, match0);
    RoomEnough(j, op, anchor, ip1);
    if j.limited && !RoomForLiterals(op, ip1 - anchor, j.olimit) {
      NoRoom(j, table[..], sequences, anchor, ip1, m, acceleration, goal, out);
      ok := false;
      return;
    }
    var token := op;
    op := EncodeLiterals(dst, token, j.mem, anchor, ip1);
    assert dst[..token] == dst[..op][..token] == out;
    LiteralsWritten(j, out, dst[..op], sequences, anchor, ip1, m);
    ok, done, op, anchor, sequences :=
      EncodeMatches(j, dst, table, sequences, token, op, anchor, ip1, m, ip, acceleration, goal);
  }

  /** The whole compressor: it writes the block of the greedy parse exactly if that fits, with no slack.  It
      never exceeds the advertised bound, never fails when given that much room, and - successful or not -
      leaves a table whose entries the next call may use. */
  method CompressValidated(j: Job, table: array<nat>, dst: array<byte>, acceleration: nat) returns (r: nat)
    requires j.Valid() && j.n > 0 && acceleration >= 1
    requires j.olimit <= dst.Length && dst as object != table
    requires j.TableOk(table[..], j.source + 1)
    modifies dst, table
    ensures r <= dst.Length && (r > 0 ==> IsBlockFor(dst[..r], j.History(), j.low, j.mem[j.source..j.End()]))
    ensures var bytes := EncodeBlock(GreedyBlock(j, old(table[..]), acceleration));
            && r == (if |bytes| <= j.olimit then |bytes| else 0)
            && (r > 0 ==> dst[..r] == bytes)
    ensures r <= Bound(j.n) && r <= j.olimit && (j.Ample() ==> r > 0)
    ensures j.TableOk(table[..], j.End())
  {
    hide WellFormed, EncodeSequences, Expand, IsBlockFor, Extension, LiteralPart, HashPosition, WrittenText,
         Rest, Sensible, BlockOf, EncodeBlock;
    var op: nat, ip: nat, anchor: nat := 0, j.source, j.source;
    ghost var sequences: seq<Sequence> := [];
    ghost var goal := Greedy(j, table[..], acceleration);
    NothingWritten(j);
    EntryLater(j, table[..], j.source + 1, j.End());
    assert dst[..op] == [];
    if j.n >= MIN_LENGTH {
      PutIndex(j, table, HashPosition(j, ip), ip, ip + 1);
      ip := ip + 1;
      var endOfChunk := false;
      assert [] + goal.sequences == goal.sequences;
      while !endOfChunk
        invariant op <= dst.Length && Written(j, dst[..op], sequences, anchor)
        invariant j.source <= anchor
        invariant !endOfChunk ==> anchor <= ip <= j.MfLimitPlusOne() && j.TableOk(table[..], ip)
        invariant if endOfChunk then goal.sequences == sequences && goal.anchor == anchor
                  else goal == Prepend(sequences, Rest(j, table[..], anchor, ip, acceleration))
        invariant j.TableOk(table[..], j.End())
        decreases !endOfChunk, j.End() - ip
      {
        var ok;
        ok, endOfChunk, op, anchor, sequences := EncodeNext(j, table, dst, op, anchor, ip, acceleration, sequences, goal);
        if !ok {
          return 0;
        }
        ip := anchor + 1;
      }
    }
    GoalReached(j, dst[..op], sequences, anchor, goal);
    r := FinishBlock(j, dst, sequences, op, anchor);
  }
}
