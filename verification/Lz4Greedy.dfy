/**
  The greedy parse that LZ4_compress_generic_validated computes, as a function of the input and the table:
  where the search with growing steps first hits, how far a match reaches back and ahead, and what follows.
  `Lz4Compress` writes exactly this parse; what it is worth is shown here.
 */
module Lz4Greedy {
  import opened Lz4Format
  import Lz4Count

  const LIMIT_64K := 65547       // (64 KB) + (MFLIMIT - 1)
  const MIN_LENGTH := 13         // MFLIMIT + 1

  function Bound(n: nat): nat { n + n / 255 + 16 }

  datatype TableType = ByU32 | ByU16

  function TableSize(t: TableType): nat { if t == ByU16 then 8192 else 4096 }

  /** The arguments of one call.  `mem[source..source + n]` is the input; table index `i` stands for
      position `i + base`; `low` is lowLimit and `olimit` the end of the usable output. */
  datatype Job = Job(mem: seq<byte>, source: nat, n: nat, startIndex: nat, low: nat, tableType: TableType,
                     dictSmall: bool, prefixIdxLimit: int, limited: bool, olimit: nat)
  {
    function Base(): int { source - startIndex }
    function End(): nat { source + n }
    function MfLimitPlusOne(): int { source + n - MFLIMIT + 1 }
    function MatchLimit(): int { source + n - LASTLITERALS }
    /** Output for the worst case, limited or not. */
    predicate Ample() { Bound(n) <= olimit }
    function History(): seq<byte> requires source <= |mem| { mem[..source] }

    ghost predicate Valid() {
      && source + n <= |mem| && low <= source
      && startIndex + n + DISTANCE_MAX < U32_RANGE
      && (tableType == ByU16 ==> startIndex + n < LIMIT_64K)
      && (!limited ==> Ample())
    }

    /** What an entry of the table can hold. */
    function EntryLimit(): nat { if tableType == ByU16 then 0x1_0000 else U32_RANGE }

    /** Table entry `e` fits its entry and is an earlier position than `p`; and it is a position that may be matched, or
        one that the tests of the search will skip from `p` on. */
    predicate EntryOk(e: nat, p: int) {
      && Base() + e < p && e < EntryLimit()
      && (|| low <= Base() + e
          || (dictSmall && e < prefixIdxLimit)
          || (tableType != ByU16 && e + DISTANCE_MAX < p - Base()))
    }

    ghost predicate TableOk(table: seq<nat>, p: int) {
      |table| == TableSize(tableType) && forall h :: 0 <= h < |table| ==> EntryOk(table[h], p)
    }
  }

  // ----- Hashing -----

  function Hash4(v: nat, t: TableType): (h: nat)
    ensures h < TableSize(t)
  {
    var m := v * 2654435761 % U32_RANGE;
    if t == ByU16 then m / 0x8_0000 else m / 0x10_0000
  }

  function Hash5(v: nat, t: TableType): (h: nat)
    ensures h < TableSize(t)
  {
    var m := (v * 0x100_0000 % 0x1_0000_0000_0000_0000) * 889523592379 % 0x1_0000_0000_0000_0000;
    if t == ByU16 then m / 0x8_0000_0000_0000 else m / 0x10_0000_0000_0000
  }

  function HashPosition(j: Job, p: nat): (h: nat)
    requires p + 8 <= |j.mem|
    ensures h < TableSize(j.tableType)
  {
    if j.tableType != ByU16 then Hash5(Lz4Count.ReadLE(j.mem, p, 8), j.tableType)
    else Hash4(Lz4Count.ReadLE(j.mem, p, 4), j.tableType)
  }

  /** The 16-bit table hashes four bytes, the other five: positions with the same bytes share an entry. */
  lemma HashOfBytes(j: Job, p: nat, q: nat)
    requires p + 8 <= |j.mem| && q + 8 <= |j.mem|
    requires Lz4Count.Same(j.mem, p, q, if j.tableType == ByU16 then 4 else 5)
    ensures HashPosition(j, p) == HashPosition(j, q)
  {
    hide Hash4, Hash5, Lz4Count.ReadLE, Lz4Count.Same;
    if j.tableType == ByU16 {
      Lz4Count.WordsEqual(j.mem, p, q, 4);
    } else {
      Lz4Count.WordsEqual(j.mem, p, q, 5);
      FiveOfEight(j.mem, p);
      FiveOfEight(j.mem, q);
      UpperBytesDrop(Lz4Count.ReadLE(j.mem, p, 5), Lz4Count.ReadLE(j.mem, p + 5, 3), j.tableType);
      UpperBytesDrop(Lz4Count.ReadLE(j.mem, q, 5), Lz4Count.ReadLE(j.mem, q + 5, 3), j.tableType);
    }
  }

  lemma FiveOfEight(s: seq<byte>, p: nat)
    requires p + 8 <= |s|
    ensures Lz4Count.ReadLE(s, p, 8) == Lz4Count.ReadLE(s, p, 5) + 0x100_0000_0000 * Lz4Count.ReadLE(s, p + 5, 3)
  {
    Lz4Count.ReadLECons(s, p, 7);
    Lz4Count.ReadLECons(s, p + 1, 6);
    Lz4Count.ReadLECons(s, p + 2, 5);
    Lz4Count.ReadLECons(s, p + 3, 4);
    Lz4Count.ReadLECons(s, p + 4, 3);
  }

  lemma UpperBytesDrop(low: nat, high: nat, t: TableType)
    ensures Hash5(low + 0x100_0000_0000 * high, t) == Hash5(low, t)
  {
    assert (low + 0x100_0000_0000 * high) * 0x100_0000 == low * 0x100_0000 + 0x1_0000_0000_0000_0000 * high;
    WholeTurns(low * 0x100_0000, high);
  }

  lemma WholeTurns(a: nat, b: nat)
    ensures (a + 0x1_0000_0000_0000_0000 * b) % 0x1_0000_0000_0000_0000 == a % 0x1_0000_0000_0000_0000
  {
  }

  /** Values of the two hashes. */
  lemma HashValues()
    ensures Hash4(1, ByU16) == 5062 && Hash4(1, ByU32) == 2531
    ensures Hash5(1, ByU16) == 6627 && Hash5(1, ByU32) == 3313
  {
  }

  // ----- Finding -----

  /** `ip` and `m` are the ends of a usable match of at least four bytes. */
  ghost predicate IsMatch(j: Job, ip: int, m: int) {
    && j.low <= m < ip && 0 <= m && ip + MINMATCH <= j.End() <= |j.mem|
    && ip - m <= DISTANCE_MAX
    && Lz4Count.Same(j.mem, ip, m, MINMATCH)
  }

  lemma EntryLater(j: Job, table: seq<nat>, p: int, q: int)
    requires j.TableOk(table, p) && p <= q
    ensures j.TableOk(table, q)
  {
  }

  /** A candidate that survives the tests is a match exactly if four bytes agree. */
  lemma CandidateIsMatch(j: Job, e: nat, ip: nat)
    requires j.Valid() && j.source <= ip < j.MfLimitPlusOne()
    requires j.EntryOk(e, ip)
    requires !(j.dictSmall && e < j.prefixIdxLimit)
    requires !(j.tableType != ByU16 && e + DISTANCE_MAX < ip - j.Base())
    ensures 0 <= j.Base() + e < ip
    ensures Lz4Count.ReadLE(j.mem, j.Base() + e, 4) == Lz4Count.ReadLE(j.mem, ip, 4) <==> IsMatch(j, ip, j.Base() + e)
  {
    hide Lz4Count.ReadLE, Lz4Count.Same, Lz4Count.NbCommonBytes;
    var m := j.Base() + e;
    assert j.low <= m < ip && ip - m <= DISTANCE_MAX;
    Lz4Count.FirstDifference(j.mem, ip, m, 4);
  }

  // ----- The search -----

  /** The `k`-th step of the search: one byte at first, then slowly growing from the acceleration. */
  function StepSize(k: nat, acceleration: nat): (r: nat)
    requires acceleration >= 1
    ensures r >= 1
  {
    if k == 0 then 1 else (64 * acceleration + (k - 1)) / 64
  }

  /** Table entry `e` makes a match at `ip`: the tests of the search pass and four bytes agree. */
  ghost predicate Hit(j: Job, e: nat, ip: nat) {
    && !(j.dictSmall && e < j.prefixIdxLimit)
    && !(j.tableType != ByU16 && e + 65535 < ip - j.Base())
    && IsMatch(j, ip, j.Base() + e)
  }

  /** The table with position `p` entered under its hash. */
  function Put(j: Job, table: seq<nat>, p: nat): (r: seq<nat>)
    requires |table| == TableSize(j.tableType) && p + 8 <= |j.mem| && j.source - j.startIndex <= p
    ensures |r| == |table|
  {
    table[HashPosition(j, p) := p - j.Base()]
  }

  datatype Probe = Probe(found: bool, table: seq<nat>, ip: nat, m: nat)

  /** The `k`-th probe is at `ip`.  A position is given up unless the next probe is possible too. */
  ghost function Search(j: Job, table: seq<nat>, ip: nat, k: nat, acceleration: nat): (r: Probe)
    requires j.Valid() && j.source <= ip && |table| == TableSize(j.tableType) && acceleration >= 1
    ensures |r.table| == |table|
    ensures r.found ==> ip <= r.ip < j.MfLimitPlusOne() && IsMatch(j, r.ip, r.m)
    decreases j.End() - ip
  {
    var next := ip + StepSize(k, acceleration);
    if next > j.MfLimitPlusOne() then Probe(false, table, ip, 0)
    else
      var e := table[HashPosition(j, ip)];
      var table' := Put(j, table, ip);
      if Hit(j, e, ip) then Probe(true, table', ip, j.Base() + e)
      else Search(j, table', next, k + 1, acceleration)
  }

  /** One turn of the search. */
  lemma NextProbe(j: Job, table: seq<nat>, ip: nat, k: nat, acceleration: nat)
    requires j.Valid() && j.source <= ip <= j.MfLimitPlusOne() && |table| == TableSize(j.tableType) && acceleration >= 1
    ensures var next, e := ip + StepSize(k, acceleration), table[HashPosition(j, ip)];
            var after := table[HashPosition(j, ip) := ip - j.Base()];
            Search(j, table, ip, k, acceleration) ==
              if next > j.MfLimitPlusOne() then Probe(false, table, ip, 0)
              else if Hit(j, e, ip) then Probe(true, after, ip, j.Base() + e)
              else Search(j, after, next, k + 1, acceleration)
  {
    hide HashPosition, Hit;
  }

  /** A hit at the first position is taken. */
  lemma FirstProbe(j: Job, table: seq<nat>, ip: nat, acceleration: nat)
    requires j.Valid() && j.source <= ip <= j.MfLimitPlusOne() && |table| == TableSize(j.tableType) && acceleration >= 1
    ensures var e, r := table[HashPosition(j, ip)], Search(j, table, ip, 0, acceleration);
            ip < j.MfLimitPlusOne() && Hit(j, e, ip) ==> r.found && r.ip == ip && r.m == j.Base() + e
  {
    hide HashPosition, Hit, Search;
    NextProbe(j, table, ip, 0, acceleration);
  }

  // ----- The parse -----

  /** How many bytes the match at `ip` extends backwards into the literals from `anchor` on. */
  function Back(j: Job, anchor: nat, ip: nat, m: nat): (n: nat)
    requires anchor <= ip <= |j.mem| && m <= |j.mem|
    ensures anchor + n <= ip && n <= m
    decreases ip
  {
    if ip > anchor && m > j.low && j.mem[ip - 1] == j.mem[m - 1] then 1 + Back(j, anchor, ip - 1, m - 1) else 0
  }

  lemma {:induction false} BackIsMatch(j: Job, anchor: nat, ip: nat, m: nat)
    requires anchor <= ip && IsMatch(j, ip, m)
    ensures var n := Back(j, anchor, ip, m); IsMatch(j, ip - n, m - n)
    decreases ip
  {
    if ip > anchor && m > j.low && j.mem[ip - 1] == j.mem[m - 1] {
      BackIsMatch(j, anchor, ip - 1, m - 1);
    }
  }

  datatype Parse = Parse(sequences: seq<Sequence>, anchor: nat, table: seq<nat>)

  /** The sequences still to come, and where the last literals start. */
  ghost predicate Sensible(j: Job, anchor: nat, r: Parse) {
    && anchor <= r.anchor <= j.End() && |r.table| == TableSize(j.tableType)
    && (forall i :: 0 <= i < |r.sequences| ==> Writable(r.sequences[i]))
    && (r.sequences == [] ==> r.anchor == anchor) && (r.sequences != [] ==> r.anchor <= j.MatchLimit())
  }

  /** From the search at `ip`, with literals from `anchor` on. */
  ghost function Rest(j: Job, table: seq<nat>, anchor: nat, ip: nat, acceleration: nat): (r: Parse)
    requires j.Valid() && |table| == TableSize(j.tableType) && acceleration >= 1
    requires j.source <= anchor <= ip <= j.End()
    ensures Sensible(j, anchor, r)
    decreases j.End() - anchor, 1
  {
    var p := Search(j, table, ip, 0, acceleration);
    if !p.found then Parse([], anchor, p.table)
    else
      var n := Back(j, anchor, p.ip, p.m);
      BackIsMatch(j, anchor, p.ip, p.m);
      FromMatch(j, p.table, anchor, p.ip - n, p.m - n, acceleration)
  }

  /** The sequence of the match of `ip` with `m`: as long as the bytes agree, short of the last five. */
  ghost function NextSequence(j: Job, anchor: nat, ip: nat, m: nat): (s: Sequence)
    requires j.Valid() && anchor <= ip < j.MfLimitPlusOne() && IsMatch(j, ip, m)
    ensures Writable(s) && ip + s.matchLength <= j.MatchLimit()
  {
    Sequence(j.mem[anchor..ip], ip - m, Lz4Count.CommonLength(j.mem, ip + 4, m + 4, j.MatchLimit()) + 4)
  }

  /** From the match of `ip` with `m`. */
  ghost function FromMatch(j: Job, table: seq<nat>, anchor: nat, ip: nat, m: nat, acceleration: nat): (r: Parse)
    requires j.Valid() && |table| == TableSize(j.tableType) && acceleration >= 1
    requires j.source <= anchor <= ip < j.MfLimitPlusOne() && IsMatch(j, ip, m)
    ensures Sensible(j, anchor, r) && r.sequences != []
    decreases j.End() - anchor, 0
  {
    var s := NextSequence(j, anchor, ip, m);
    var next := ip + s.matchLength;
    if next >= j.MfLimitPlusOne() then Parse([s], next, table)
    else
      var before := Put(j, table, next - 2);
      var e := before[HashPosition(j, next)];
      var after := Put(j, before, next);
      var tail := if Hit(j, e, next) then FromMatch(j, after, next, next, j.Base() + e, acceleration)
                  else Rest(j, after, next, next + 1, acceleration);
      Parse([s] + tail.sequences, tail.anchor, tail.table)
  }

  function Prepend(sequences: seq<Sequence>, p: Parse): Parse {
    Parse(sequences + p.sequences, p.anchor, p.table)
  }

  ghost function BlockOf(j: Job, p: Parse): (b: Block)
    requires j.Valid() && Sensible(j, j.source, p)
    ensures forall i :: 0 <= i < |b.sequences| ==> Writable(b.sequences[i])
  {
    Block(p.sequences, j.mem[p.anchor..j.End()])
  }

  /** No output buffer of the job's size holds the block. */
  ghost predicate TooLong(j: Job, p: Parse)
    requires j.Valid() && Sensible(j, j.source, p)
  {
    |EncodeBlock(BlockOf(j, p))| > j.olimit
  }

  /** The parse after one match, case by case. */
  lemma AfterMatch(j: Job, table: seq<nat>, anchor: nat, ip: nat, m: nat, acceleration: nat)
    requires j.Valid() && |table| == TableSize(j.tableType) && acceleration >= 1
    requires j.source <= anchor <= ip < j.MfLimitPlusOne() && IsMatch(j, ip, m)
    ensures var s := NextSequence(j, anchor, ip, m);
            var next := ip + s.matchLength;
            && next >= j.source + 4
            && FromMatch(j, table, anchor, ip, m, acceleration) ==
               if next >= j.MfLimitPlusOne() then Parse([s], next, table)
               else
                 var before := Put(j, table, next - 2);
                 var e := before[HashPosition(j, next)];
                 var after := Put(j, before, next);
                 Prepend([s], if Hit(j, e, next) then FromMatch(j, after, next, next, j.Base() + e, acceleration)
                              else Rest(j, after, next, next + 1, acceleration))
  {
    hide NextSequence, Put, Hit, HashPosition, Rest, Sensible;
  }

  lemma PrependOne(sequences: seq<Sequence>, s: Sequence, p: Parse)
    ensures Prepend(sequences, Prepend([s], p)) == Prepend(sequences + [s], p)
  {
  }

  /** The block of a parse is at least as long as what a first part of it needs. */
  lemma PartFits(j: Job, sequences: seq<Sequence>, s: Sequence, p: Parse)
    requires j.Valid() && Sensible(j, j.source, Prepend(sequences + [s], p))
    ensures (forall i :: 0 <= i < |sequences| ==> Writable(sequences[i])) && Writable(s)
    ensures |EncodeBlock(BlockOf(j, Prepend(sequences + [s], p)))| >= |EncodeSequences(sequences)| + |EncodeSequence(s)| + 6
  {
    hide EncodeSequence, LiteralPart, Writable;
    var all := Prepend(sequences + [s], p).sequences;
    forall i | 0 <= i < |sequences| ensures Writable(sequences[i]) { assert Writable(all[i]); }
    assert Writable(all[|sequences|]);
    forall i | 0 <= i < |p.sequences| ensures Writable(p.sequences[i]) { assert Writable(all[|sequences| + 1 + i]); }
    assert (sequences + [s])[..|sequences|] == sequences;
    EncodeLonger(sequences + [s], p.sequences);
    LastPartSize(j.mem[p.anchor..j.End()]);
  }

  lemma LastPartSize(last: seq<byte>)
    ensures |LiteralPart(last, 0)| >= 1 + |last|
  {
  }

  lemma RestIs(j: Job, table: seq<nat>, anchor: nat, ip: nat, acceleration: nat)
    requires j.Valid() && |table| == TableSize(j.tableType) && acceleration >= 1
    requires j.source <= anchor <= ip <= j.End()
    ensures var p := Search(j, table, ip, 0, acceleration);
            if !p.found then Rest(j, table, anchor, ip, acceleration) == Parse([], anchor, p.table)
            else
              var n := Back(j, anchor, p.ip, p.m);
              && IsMatch(j, p.ip - n, p.m - n)
              && Rest(j, table, anchor, ip, acceleration) == FromMatch(j, p.table, anchor, p.ip - n, p.m - n, acceleration)
  {
    hide Search, Back, FromMatch, Sensible, IsMatch;
    var p := Search(j, table, ip, 0, acceleration);
    if p.found { BackIsMatch(j, anchor, p.ip, p.m); }
  }

  lemma FirstSequence(j: Job, table: seq<nat>, anchor: nat, ip: nat, m: nat, acceleration: nat) returns (tail: Parse)
    requires j.Valid() && |table| == TableSize(j.tableType) && acceleration >= 1
    requires j.source <= anchor <= ip < j.MfLimitPlusOne() && IsMatch(j, ip, m)
    ensures FromMatch(j, table, anchor, ip, m, acceleration) == Prepend([NextSequence(j, anchor, ip, m)], tail)
  {
    hide NextSequence, Put, HashPosition, Rest, Sensible, FromMatch;
    var s := NextSequence(j, anchor, ip, m);
    AfterMatch(j, table, anchor, ip, m, acceleration);
    var next := ip + s.matchLength;
    if next >= j.MfLimitPlusOne() {
      tail := Parse([], next, table);
    } else {
      var before := Put(j, table, next - 2);
      var e := before[HashPosition(j, next)];
      var after := Put(j, before, next);
      tail := if Hit(j, e, next) then FromMatch(j, after, next, next, j.Base() + e, acceleration)
              else Rest(j, after, next, next + 1, acceleration);
    }
  }

  /** The whole input: nothing to search in fewer than 13 bytes. */
  ghost function Greedy(j: Job, table: seq<nat>, acceleration: nat): (r: Parse)
    requires j.Valid() && |table| == TableSize(j.tableType) && acceleration >= 1
    ensures Sensible(j, j.source, r)
  {
    if j.n < 13 then Parse([], j.source, table)
    else Rest(j, Put(j, table, j.source), j.source, j.source + 1, acceleration)
  }

  ghost function GreedyBlock(j: Job, table: seq<nat>, acceleration: nat): (b: Block)
    requires j.Valid() && |table| == TableSize(j.tableType) && acceleration >= 1
    ensures forall i :: 0 <= i < |b.sequences| ==> Writable(b.sequences[i])
  {
    BlockOf(j, Greedy(j, table, acceleration))
  }

  // ----- What the parse is worth -----

  /** The growth of the steps: one more byte for every 64 probes. */
  lemma StepsGrow(k: nat, acceleration: nat)
    requires acceleration >= 1
    ensures StepSize(k, acceleration) == if k == 0 then 1 else acceleration + (k - 1) / 64
  {
  }

  ghost predicate AllEqual(s: seq<byte>) {
    forall i :: 0 <= i < |s| ==> s[i] == s[0]
  }

  lemma EqualRun(j: Job, a: nat, b: nat, n: nat)
    requires j.Valid() && AllEqual(j.mem[j.source..j.End()])
    requires j.source <= a && j.source <= b && a + n <= j.End() && b + n <= j.End()
    ensures Lz4Count.Same(j.mem, a, b, n)
  {
    var s := j.mem[j.source..j.End()];
    assert forall q :: j.source <= q < j.End() ==> j.mem[q] == s[q - j.source];
  }

  /** The second position of a run of equal bytes hits the first. */
  lemma EqualHit(j: Job, table: seq<nat>)
    requires j.Valid() && |table| == TableSize(j.tableType)
    requires j.n >= 13 && AllEqual(j.mem[j.source..j.End()]) && j.prefixIdxLimit <= j.startIndex
    ensures var e := Put(j, table, j.source)[HashPosition(j, j.source + 1)];
            j.Base() + e == j.source && Hit(j, e, j.source + 1)
  {
    hide Lz4Count.ReadLE, Lz4Count.Same;
    EqualRun(j, j.source, j.source + 1, 8);
    EqualRun(j, j.source, j.source + 1, 4);
    EqualRun(j, j.source + 1, j.source, 4);
    Lz4Count.WordsEqual(j.mem, j.source, j.source + 1, 8);
    Lz4Count.WordsEqual(j.mem, j.source, j.source + 1, 4);
  }

  /** From there one match takes everything up to the last five bytes. */
  lemma EqualMatch(j: Job, ip: nat, m: nat)
    requires j.Valid() && j.n >= 13 && AllEqual(j.mem[j.source..j.End()])
    requires j.source <= ip <= j.source + 1 && m == ip - 1 && IsMatch(j, ip, m)
    ensures NextSequence(j, j.source, ip, m) == Sequence(j.mem[j.source..ip], 1, j.End() - 5 - ip)
  {
    hide Lz4Count.Same;
    var n := j.End() - 5 - (ip + 4);
    EqualRun(j, ip + 4, m + 4, n);
    Lz4Count.CommonLengthUnique(j.mem, ip + 4, m + 4, j.MatchLimit(), n);
  }

  /** A run of equal bytes becomes one match: the block is 255 times smaller but for a few bytes. */
  lemma EqualBytes(j: Job, table: seq<nat>, acceleration: nat)
    requires j.Valid() && |table| == TableSize(j.tableType) && acceleration >= 1
    requires j.n >= 13 && AllEqual(j.mem[j.source..j.End()]) && j.prefixIdxLimit <= j.startIndex
    ensures var b := GreedyBlock(j, table, acceleration);
            && |b.sequences| == 1 && |b.sequences[0].literals| <= 1 && b.sequences[0].offset == 1
            && |b.sequences[0].literals| + b.sequences[0].matchLength == j.n - 5 && |b.last| == 5
            && 0 < |EncodeBlock(b)| <= j.n / 255 + 16
  {
    hide Greedy, NextSequence;
    var ip := EqualParse(j, table, acceleration);
    OneSequenceSize(GreedyBlock(j, table, acceleration));
  }

  lemma EqualParse(j: Job, table: seq<nat>, acceleration: nat) returns (ip: nat)
    requires j.Valid() && |table| == TableSize(j.tableType) && acceleration >= 1
    requires j.n >= 13 && AllEqual(j.mem[j.source..j.End()]) && j.prefixIdxLimit <= j.startIndex
    ensures j.source <= ip <= j.source + 1
    ensures Greedy(j, table, acceleration).sequences == [Sequence(j.mem[j.source..ip], 1, j.End() - 5 - ip)]
    ensures Greedy(j, table, acceleration).anchor == j.End() - 5
  {
    hide Put, HashPosition, Search, FromMatch, Back, Hit, NextSequence, IsMatch, AllEqual, Sensible;
    var start, before := j.source + 1, Put(j, table, j.source);
    EqualHit(j, table);
    FirstProbe(j, before, start, acceleration);
    RestIs(j, before, j.source, start, acceleration);
    var p, n := Search(j, before, start, 0, acceleration), Back(j, j.source, start, j.source);
    EqualMatch(j, start - n, j.source - n);
    AfterMatch(j, p.table, j.source, start - n, j.source - n, acceleration);
    ip := start - n;
  }

  lemma OneSequenceSize(b: Block)
    requires |b.sequences| == 1 && Writable(b.sequences[0]) && |b.sequences[0].literals| <= 1 && |b.last| == 5
    ensures 0 < |EncodeBlock(b)| <= (b.sequences[0].matchLength + 230) / 255 + 11
  {
    var s := b.sequences[0];
    assert b.sequences[..0] == [];
    assert EncodeSequences(b.sequences) == EncodeSequences([]) + EncodeSequence(s);
    if s.matchLength - 4 >= 15 { LengthBytesSize(s.matchLength - 4 - 15); }
    assert |EncodeSequence(s)| == 3 + |s.literals| + |Extension(s.matchLength - 4)|;
    assert |LiteralPart(b.last, 0)| == 6;
  }

  // ----- The parse does not depend on the room -----

  function WithRoom(j: Job, limited: bool, olimit: nat): Job {
    j.(limited := limited, olimit := olimit)
  }

  /** Nor does any single step of it. */
  lemma StepsWithRoom(j: Job, limited: bool, olimit: nat, table: seq<nat>, ip: nat, e: nat)
    requires j.Valid() && WithRoom(j, limited, olimit).Valid() && |table| == TableSize(j.tableType)
    requires j.source <= ip && ip + 8 <= |j.mem|
    ensures HashPosition(WithRoom(j, limited, olimit), ip) == HashPosition(j, ip)
    ensures Put(WithRoom(j, limited, olimit), table, ip) == Put(j, table, ip)
    ensures Hit(WithRoom(j, limited, olimit), e, ip) <==> Hit(j, e, ip)
  {
    hide Hash4, Hash5, Lz4Count.ReadLE;
  }

  lemma HitIsMatch(j: Job, e: nat, ip: nat)
    requires Hit(j, e, ip)
    ensures 0 <= j.Base() + e && IsMatch(j, ip, j.Base() + e)
  {
  }

  lemma MatchWithRoom(j: Job, limited: bool, olimit: nat, anchor: nat, ip: nat, m: nat)
    requires j.Valid() && WithRoom(j, limited, olimit).Valid()
    requires anchor <= ip < j.MfLimitPlusOne() && IsMatch(j, ip, m)
    ensures IsMatch(WithRoom(j, limited, olimit), ip, m)
    ensures NextSequence(WithRoom(j, limited, olimit), anchor, ip, m) == NextSequence(j, anchor, ip, m)
  {
  }

  lemma {:induction false} SearchWithRoom(j: Job, limited: bool, olimit: nat, table: seq<nat>, ip: nat, k: nat, acceleration: nat)
    requires j.Valid() && WithRoom(j, limited, olimit).Valid()
    requires j.source <= ip && |table| == TableSize(j.tableType) && acceleration >= 1
    ensures Search(WithRoom(j, limited, olimit), table, ip, k, acceleration) == Search(j, table, ip, k, acceleration)
    decreases j.End() - ip
  {
    hide HashPosition, Put, Hit;
    var next := ip + StepSize(k, acceleration);
    if next <= j.MfLimitPlusOne() { StepsWithRoom(j, limited, olimit, table, ip, table[HashPosition(j, ip)]); }
    if next <= j.MfLimitPlusOne() && !Hit(j, table[HashPosition(j, ip)], ip) {
      SearchWithRoom(j, limited, olimit, Put(j, table, ip), next, k + 1, acceleration);
    }
  }

  lemma {:induction false} BackWithRoom(j: Job, limited: bool, olimit: nat, anchor: nat, ip: nat, m: nat)
    requires anchor <= ip <= |j.mem| && m <= |j.mem|
    ensures Back(WithRoom(j, limited, olimit), anchor, ip, m) == Back(j, anchor, ip, m)
    decreases ip
  {
    if ip > anchor && m > j.low && j.mem[ip - 1] == j.mem[m - 1] {
      BackWithRoom(j, limited, olimit, anchor, ip - 1, m - 1);
    }
  }

  lemma {:induction false} RestWithRoom(j: Job, limited: bool, olimit: nat, table: seq<nat>, anchor: nat, ip: nat, acceleration: nat)
    requires j.Valid() && WithRoom(j, limited, olimit).Valid() && |table| == TableSize(j.tableType) && acceleration >= 1
    requires j.source <= anchor <= ip <= j.End()
    ensures Rest(WithRoom(j, limited, olimit), table, anchor, ip, acceleration) == Rest(j, table, anchor, ip, acceleration)
    decreases j.End() - anchor, 1
  {
    hide Search, FromMatch, Back;
    SearchWithRoom(j, limited, olimit, table, ip, 0, acceleration);
    var p := Search(j, table, ip, 0, acceleration);
    RestIs(j, table, anchor, ip, acceleration);
    RestIs(WithRoom(j, limited, olimit), table, anchor, ip, acceleration);
    if p.found {
      var n := Back(j, anchor, p.ip, p.m);
      BackWithRoom(j, limited, olimit, anchor, p.ip, p.m);
      FromMatchWithRoom(j, limited, olimit, p.table, anchor, p.ip - n, p.m - n, acceleration);
    }
  }

  lemma {:induction false} FromMatchWithRoom(j: Job, limited: bool, olimit: nat, table: seq<nat>, anchor: nat, ip: nat, m: nat,
                                             acceleration: nat)
    requires j.Valid() && WithRoom(j, limited, olimit).Valid() && |table| == TableSize(j.tableType) && acceleration >= 1
    requires j.source <= anchor <= ip < j.MfLimitPlusOne() && IsMatch(j, ip, m)
    ensures FromMatch(WithRoom(j, limited, olimit), table, anchor, ip, m, acceleration) ==
            FromMatch(j, table, anchor, ip, m, acceleration)
    decreases j.End() - anchor, 0
  {
    hide Rest, FromMatch, HashPosition, Put, Hit, NextSequence, IsMatch;
    var j' := WithRoom(j, limited, olimit);
    MatchWithRoom(j, limited, olimit, anchor, ip, m);
    AfterMatch(j, table, anchor, ip, m, acceleration);
    AfterMatch(j', table, anchor, ip, m, acceleration);
    var s := NextSequence(j, anchor, ip, m);
    var next := ip + s.matchLength;
    if next < j.MfLimitPlusOne() {
      StepsWithRoom(j, limited, olimit, table, next - 2, 0);
      var before := Put(j, table, next - 2);
      var e := before[HashPosition(j, next)];
      StepsWithRoom(j, limited, olimit, before, next, e);
      var after := Put(j, before, next);
      if Hit(j, e, next) {
        HitIsMatch(j, e, next);
        FromMatchWithRoom(j, limited, olimit, after, next, next, j.Base() + e, acceleration);
      } else {
        RestWithRoom(j, limited, olimit, after, next, next + 1, acceleration);
      }
    }
  }

  /** The block is the same whatever room the job has: a smaller buffer gets all of it or nothing. */
  lemma BlockWithRoom(j: Job, limited: bool, olimit: nat, table: seq<nat>, acceleration: nat)
    requires j.Valid() && WithRoom(j, limited, olimit).Valid() && |table| == TableSize(j.tableType) && acceleration >= 1
    ensures GreedyBlock(WithRoom(j, limited, olimit), table, acceleration) == GreedyBlock(j, table, acceleration)
  {
    hide Rest, HashPosition, Put, Hit;
    if j.n >= 13 {
      StepsWithRoom(j, limited, olimit, table, j.source, 0);
      RestWithRoom(j, limited, olimit, Put(j, table, j.source), j.source, j.source + 1, acceleration);
    }
  }
}
