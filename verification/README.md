# Verified models of the vendored LZ4 and LibreSSL code

The Android client for SQLite Cloud brings its own LZ4 codec and parts of LibreSSL. This project models the
algorithms in those C files that are hard to get right and proves what they are for. Every operation that
works in place is a method over arrays or objects, proved against a specification that does not mention its
loops; the main results are about every input, every state or every run.

- **LZ4** (`Lz4*.dfy`). `Lz4Format` gives the block format its meaning: sequences expand a history.
  `Lz4Greedy` is the greedy parse as a function of input and hash table (16- and 32-bit entries, prefix
  history), `Lz4Compress` the loops that write it, exactly if it fits, `Lz4Emit` their encoder, `Lz4Count` the
  word-wise match counter. `Lz4Decode` is a byte-by-byte decoder defined for all input, `Lz4Conformance` shows
  it inverts the format, `Lz4Accept` and `Lz4Departures` say exactly what it accepts and which of that does not
  conform, and `Lz4Decompress` with `Lz4Copy` shows that the optimised decoder (`LZ4_FAST_DEC_LOOP == 0`) does
  the same, down to error positions. `Lz4Stream` adds the streams, index renormalisation and the round trips
  over whole sessions.
- **CBB, CBS and the indefinite-length converter** (`Cbb`, `Cbs`, `Der`, `Asn1Tree`, `Asn1Integer`, `Ber`,
  `BerConvert`, `BerFind`, `BerTree`). Builders of a tree share one buffer and patch lengths back; readers
  accept only minimal encodings. Build-then-parse holds for every tree; the converter keeps the meaning of
  every BER forest, and the walk before it is shown to see top-level indefinite lengths only.
- **CBC records in constant time** (`S3Cbc`, `CbcDigest`). Mask arithmetic equals branching, the rotated
  buffer yields the MAC, and the inner hash sees the same blocks as a plain HMAC (section 2 of RFC 2104,
  section 6.2.3.2 of RFC 5246). `Words` holds the bitwise operations, `HashBlocks` blocks and padding.
- **DTLS** (`DtlsFragment`, `DtlsReassembly`, `DtlsBitmask`, `DtlsDelivery`, `DtlsReplay`, `DtlsEpochs`).
  Fragmenting, reassembly in any order, both ends together, and the replay window across epochs
  (sections 4.1.2.6, 4.2.3 and 4.2.6 of RFC 6347).
- **Cipher list and hash collector** (`CipherRules`, `CipherList`, `HashCollector`). The doubly linked list
  edited in place and its stable sort by repeated moves; the buffered hash front end.

`dafny verify dfyconfig.toml` checks everything.

## Where the code and its promises part

- `cbs_convert_indefinite` takes an empty element with tag zero for an end-of-contents marker wherever it
  stands, so it is not the identity on every definite input. The entry point never gives it input that is
  definite throughout; the condition matters for the definite parts inside converted input.
  `Ber.DefiniteIdentity` is exact, `BerTree.DefinitePart` applies it to such a part and
  `BerTree.EmptyTagZeroRefused` is a valid input that is refused for it.
- `cbs_find_indefinite` clears its flag after a find inside a constructed element, so
  `CBS_asn1_indefinite_to_definite` converts exactly when a top-level length is indefinite, and otherwise
  reports that there was nothing to do (`BerFind.FindIsTop`, `BerFind.NestedMissed`; the documentation in
  `bytestring.h` promises conversion for any).
- The comparisons of `s3_cbc.c` are right for words whose difference fits a signed int, not for all words;
  `LtRight`, `GeRight` and `Eq8Right` are exact. Record lengths are far inside.
- The multiple that hides the division in `ssl3_cbc_copy_mac` is one only for even MAC sizes (and 1); for the
  others the MAC comes out turned, as `S3Cbc.CopyMac` says.
- The LZ4 decoder accepts inputs that are no conforming block: the two-stage shortcut does not apply the
  restrictions on the end of a block (`Lz4Departures.EndRulesNotEnforced`), an offset of zero produces zero
  bytes (`ZeroOffsetTaken`), and the low nibble of the last token is never read (`LastNibbleNotRead`).
  `Lz4Accept.AcceptsExactly` says what a full decode accepts, and `Lz4Departures.ConformsExactly` when that
  conforms.
- The error of a literal length cut short by the end of the input is ignored. In a full decode that is
  harmless, because the length then exceeds the input and the input is refused, which is part of
  `AcceptsExactly`; a partial decode takes the bytes that follow for literals (`CutLengthTaken`).
- Replay protection holds for fewer than 2^16 - 1 changes of epoch; with as many, the 16-bit epoch has come
  round (`DtlsEpochs.NoneTwice`, `DtlsEpochs.TakenAgain`).
- A key longer than the hash block would be cut off by `ssl3_cbc_digest_record`; `CbcDigest.DigestRecord`
  says so by using the first block of the key.

## Model

| member | source | states |
|---|---|---|
| Lz4Format.CopyMatchUnique | sqlitecloud/src/main/cpp/lz4.c:2103-2150 | Any extension of the output in which every byte equals the one `offset` before it is the match copy: the definition by a property of the byte-by-byte copy every fast copy has to reach |
| Lz4Format.AppendSequence | sqlitecloud/src/main/cpp/lz4.c:1019-1145 | Adding an encodable sequence whose offset stays inside the text so far keeps a block well formed, appends its encoding, and applies it to the expansion |
| Lz4Count.FirstDifference | sqlitecloud/src/main/cpp/lz4.c:512-601 | Two words are equal exactly when their bytes are; otherwise the trailing zero bits of their exclusive-or, divided by eight, are the index of the first differing byte |
| Lz4Count.CommonLengthUnique | sqlitecloud/src/main/cpp/lz4.c:602-629 | The common length is the only length up to which the bytes agree and after which they differ or the limit is reached |
| Lz4Count.Count | sqlitecloud/src/main/cpp/lz4.c:602-629 | Counting by words and then by halves finds exactly the common length up to the limit |
| Lz4Emit.WildCopy8 | sqlitecloud/src/main/cpp/lz4.c:405-415 | Eight bytes at a time, the copy delivers every byte up to the end and changes nothing before the start; how far it may write past the end is in its precondition |
| Lz4Emit.WriteLength | sqlitecloud/src/main/cpp/lz4.c:1035-1040 | The extension bytes of a literal run, appended behind what was written |
| Lz4Emit.WriteLengthByFours | sqlitecloud/src/main/cpp/lz4.c:1128-1143 | The extension bytes of a match length, written four at a time, are the same encoding |
| Lz4Emit.EncodeLiterals | sqlitecloud/src/main/cpp/lz4.c:1021-1046 | Token, length and literals of a sequence stand behind the earlier output, the wild copy having stayed inside the buffer |
| Lz4Emit.EncodeMatch | sqlitecloud/src/main/cpp/lz4.c:1064-1145 | Offset, token nibble and extension complete the encoding of the sequence |
| Lz4Emit.EncodeLastLiterals | sqlitecloud/src/main/cpp/lz4.c:1204-1231 | The closing literal run, copied exactly |
| Lz4Greedy.CandidateIsMatch | sqlitecloud/src/main/cpp/lz4.c:969-1015 | A table entry that passes the window and distance tests is an earlier position at a distance of 1 to 65535, also in the 16-bit table where the distance test is skipped; it is a match exactly if four bytes are equal |
| Lz4Greedy.HashOfBytes | sqlitecloud/src/main/cpp/lz4.c:698-722 | The 16-bit table hashes four bytes, the 32-bit table five: positions with the same bytes share an entry |
| Lz4Greedy.FirstProbe | sqlitecloud/src/main/cpp/lz4.c:950-1015 | The search takes a hit at its first position |
| Lz4Greedy.EqualBytes | sqlitecloud/src/main/cpp/lz4.c:925-1240 | 13 or more equal bytes become one match and five literals, n/255 + 16 bytes at most, for every table and acceleration |
| Lz4Greedy.BlockWithRoom | sqlitecloud/src/main/cpp/lz4.c:1021-1240 | The block does not depend on the room for it |
| Lz4Compress.FindMatch | sqlitecloud/src/main/cpp/lz4.c:925-1015 | The search loop computes the search: its steps grow by one byte every 64 probes, the first hit is taken, a hit at the first position always; matches are true, and table entries are earlier positions that fit their 16 or 32 bits |
| Lz4Compress.CatchUp | sqlitecloud/src/main/cpp/lz4.c:1017-1019 | Extending a match backwards keeps its distance and its being a match, and stops only at the literals' start, the window or a difference |
| Lz4Compress.SequenceCost | sqlitecloud/src/main/cpp/lz4.c:1021-1145 | 255 times the encoded size of a sequence is at most 256 times the text it stands for: the amortised step of the size bound |
| Lz4Compress.ExtendWritten | sqlitecloud/src/main/cpp/lz4.c:1019-1146 | One more sequence keeps the invariant of the main loop: valid offsets, text covered, size within the amortised bound, end conditions still reachable |
| Lz4Compress.EncodeMatches | sqlitecloud/src/main/cpp/lz4.c:1048-1202 | The loop from match to match writes the parse that follows, and gives up only if the whole block does not fit |
| Lz4Compress.CompressValidated | sqlitecloud/src/main/cpp/lz4.c:851-1240 | For every input, dictionary prefix, table state and acceleration: exactly the encoding of the greedy parse if it fits the capacity, else 0; it decodes to the input, meets the end conditions of the format, stays within n + n/255 + 16 bytes, and leaves a table usable for the next block |
| Lz4Conformance.RunFromSequence | sqlitecloud/src/main/cpp/lz4.c:1930-2152 | The reference decoder, started at any sequence of an encoded block, ends with the expansion, cut at the target if partial |
| Lz4Conformance.DecodeConforming | sqlitecloud/src/main/cpp/lz4.c:1738-2165 | Decoding any well-formed block gives exactly the history and the text, or in partial mode the first bytes of it wherever the target falls |
| Lz4Conformance.DecodeExactly | sqlitecloud/src/main/cpp/lz4.c:1996-2000 | In numbers: offsets from 1 to 65535, five last literals, the last match twelve bytes before the end; such a block decodes into a buffer of exactly the size of its text |
| Lz4Conformance.WindowSuffices | sqlitecloud/src/main/cpp/lz4.c:2337-2342 | A block never reaches further back than 65535 bytes, so a decoder that knows only that much decodes it |
| Lz4Conformance.Relocate | sqlitecloud/src/main/cpp/lz4.c:2322-2359 | A block decodes to the same text wherever its history lies in memory |
| Lz4Accept.PieceStep | sqlitecloud/src/main/cpp/lz4.c:1930-2152 | A written sequence, conforming or not, gets past its token exactly when it passes the position checks, and is then applied; else the decode fails |
| Lz4Accept.RunOfWriting | sqlitecloud/src/main/cpp/lz4.c:1930-2152 | Input written as a block decodes to the block's expansion exactly when every sequence passes the checks and the expansion fits; else it is rejected |
| Lz4Accept.AcceptsExactly | sqlitecloud/src/main/cpp/lz4.c:1738-2165 | For every input of less than 2^32 bytes: a full decode succeeds with a given output if and only if the input is written as a block - offsets from 0 to 65535, length fields modulo 2^32, any low nibble in the last token - whose sequences pass the position checks and whose expansion is that output (into a buffer with no room, if and only if it is the byte 0) |
| Lz4Departures.WritingUnique | sqlitecloud/src/main/cpp/lz4.c:1930-2152 | An input is written as at most one block |
| Lz4Departures.DecodedIsEncoded | sqlitecloud/src/main/cpp/lz4.c:1738-2165 | What a full decode gives for an input of less than 2^32 / 255 bytes is the expansion of a block the input is the encoding of, but for zero offsets and the last low nibble |
| Lz4Departures.ConformsExactly | sqlitecloud/src/main/cpp/lz4.c:1996-2036 | An accepted input whose length fields stay below 2^32 conforms to the format, for some text, if and only if that text is what it decodes to, its offsets are positive, its end keeps the restrictions on the last five bytes and the last match, and its last low nibble is zero |
| Lz4Departures.EndRulesNotEnforced | sqlitecloud/src/main/cpp/lz4.c:1935-1973 | 18 bytes the shortcut accepts with the last four bytes of output copied by a match |
| Lz4Departures.ZeroOffsetTaken | sqlitecloud/src/main/cpp/lz4.c:2119-2125 | Nine bytes with a zero offset, decoded to zero bytes |
| Lz4Departures.LastNibbleNotRead | sqlitecloud/src/main/cpp/lz4.c:1988-2049 | The one-byte inputs 1 to 15 decode to nothing and are no block |
| Lz4Departures.CutLengthTaken | sqlitecloud/src/main/cpp/lz4.c:1976-1981 | A literal length the input cuts short is taken in a partial decode and refused in a full one |
| Lz4Copy.WideIsOffset | sqlitecloud/src/main/cpp/lz4.c:2124-2150 | Copying from eight or more bytes back at the adjusted distance still repeats the bytes at the original offset |
| Lz4Copy.CopyWide | sqlitecloud/src/main/cpp/lz4.c:2124-2150 | The table-driven prelude and the 8-byte copies leave the byte-by-byte match copy, nothing before it and nothing past the end of the buffer changed, and refuse exactly the matches that enter the last five bytes |
| Lz4Decompress.ReadVariableLength | sqlitecloud/src/main/cpp/lz4.c:1707-1728 | Length, position and error of the extension bytes, the first check included |
| Lz4Decompress.LiteralPhase | sqlitecloud/src/main/cpp/lz4.c:1930-2056 | Shortcut or full copy, the literal part of a token does what the reference step does, and keeps the room later copies rely on |
| Lz4Decompress.MatchPhase | sqlitecloud/src/main/cpp/lz4.c:1946-2150 | Shortcut or full copy, the match part does what the reference step does |
| Lz4Decompress.DecompressGeneric | sqlitecloud/src/main/cpp/lz4.c:1738-2165 | For every input, valid or not: result, output and error position of the reference decoder, and no byte outside the destination changed |
| Lz4Decompress.DecompressSafe | sqlitecloud/src/main/cpp/lz4.c:2171-2176 | The same for the public entry without history |
| Lz4Decompress.DecompressSafePartial | sqlitecloud/src/main/cpp/lz4.c:2179-2185 | The same for the partial entry, bounded by target and capacity |
| Lz4Stream.CompressStream.RenormDict | sqlitecloud/src/main/cpp/lz4.c:1545-1562 | Renormalisation keeps the distance of every entry it keeps; an entry it zeroes was out of reach; the dictionary ends where it did |
| Lz4Stream.CompressStream.CompressFastContinue | sqlitecloud/src/main/cpp/lz4.c:1565-1637 | A block that continues the previous one is the greedy parse against everything since the start of the stream, written exactly if it fits; it decodes against that history, and leaves the stream ready for the next |
| Lz4Stream.DecodeStream.DecompressSafeContinue | sqlitecloud/src/main/cpp/lz4.c:2322-2359 | The rolling decode is the reference decode with the history it is allowed to know |
| Lz4Stream.CompressFast | sqlitecloud/src/main/cpp/lz4.c:1284-1365 | One-shot compression: the block of the greedy parse exactly if it fits, so never 0 at LZ4_COMPRESSBOUND; n equal bytes take at most n/255 + 16; a block for the source |
| Lz4Stream.RoundTrip | sqlitecloud/src/main/cpp/lz4.c:851-1240 | For every source and acceleration, decompress-safe of the compressed block returns the source, and decompress-safe-partial returns min(target, n) bytes of it |
| Lz4Stream.SendBlock | sqlitecloud/src/main/cpp/lz4.c:1565-1637 | One block through both streams extends the decoded text by exactly that block, exactly if what it is with ample room fits the capacity |
| Lz4Stream.Session | sqlitecloud/src/main/cpp/lz4.c:1565-1637 | Whole runs: any source cut into blocks of any sizes, with any capacities and accelerations, comes back whole unless compression returns 0 for a block; then the first such block is named, its capacity is below LZ4_COMPRESSBOUND, and all before it has come back |
| Der.ParseDer | sqlitecloud/src/main/cpp/libressl/ssl/bs_cbs.c:357-440 | What the builder writes as tag, minimal length and contents, the reader takes apart again, strict or not |
| Der.StrictIsDer | sqlitecloud/src/main/cpp/libressl/ssl/bs_cbs.c:357-440 | Every element the strict reader accepts is byte for byte the minimal encoding of what it returns |
| Der.ReadInteger | sqlitecloud/src/main/cpp/libressl/ssl/bs_cbs.c:492-527 | The contents written for a 64-bit number read back as that number |
| Der.IntegerCanonical | sqlitecloud/src/main/cpp/libressl/ssl/bs_cbs.c:492-527 | Contents the reader accepts are the ones that would be written for the number |
| Der.CanonicalUint64 | sqlitecloud/src/main/cpp/libressl/ssl/bs_cbs.c:492-527 | The strict reader finds the INTEGER v at the front exactly when the input starts with the encoding of v: decoding is injective |
| Cbs.AnyElement | sqlitecloud/src/main/cpp/libressl/ssl/bs_cbs.c:357-440 | An accepted element splits the input and has a low tag number and a header of at least two bytes |
| Cbs.Cbs.Get | sqlitecloud/src/main/cpp/libressl/ssl/bs_cbs.c:39-48 | Taking n bytes succeeds exactly when there are that many, and consumes nothing otherwise |
| Cbs.Cbs.GetU | sqlitecloud/src/main/cpp/libressl/ssl/bs_cbs.c:147-165 | The big-endian value of one to four bytes |
| Cbs.Cbs.GetLengthPrefixed | sqlitecloud/src/main/cpp/libressl/ssl/bs_cbs.c:244-252 | A prefixed vector; a failed read may have consumed the prefix |
| Cbs.Cbs.GetAnyAsn1Element | sqlitecloud/src/main/cpp/libressl/ssl/bs_cbs.c:357-440 | The cursor version of the element reader, which consumes nothing on failure |
| Cbs.Cbs.GetAsn1 | sqlitecloud/src/main/cpp/libressl/ssl/bs_cbs.c:443-466 | Only the expected tag is accepted; contents without the header |
| Cbs.Cbs.GetAsn1Uint64 | sqlitecloud/src/main/cpp/libressl/ssl/bs_cbs.c:492-527 | The INTEGER reader: minimal, non-negative, at most 64 bits |
| Cbb.ClosePrefix | sqlitecloud/src/main/cpp/libressl/ssl/bs_cbb.c:250-273 | Contents behind a zeroed u8, u16 or u24 placeholder close to the prefixed vector, or not at all when too long |
| Cbb.CloseAsn1 | sqlitecloud/src/main/cpp/libressl/ssl/bs_cbb.c:203-249 | Contents behind a one-byte placeholder close to the minimal encoding of the element, whatever has to be moved |
| Cbb.Buffer.Add | sqlitecloud/src/main/cpp/libressl/ssl/bs_cbb.c:91-126 | Growth by doubling, or to the size asked for when doubling is too little or overflows; fails exactly at the limit, old contents kept |
| Cbb.Buffer.Put | sqlitecloud/src/main/cpp/libressl/ssl/bs_cbb.c:129-148 | A big-endian value written in place; what is left over is zero exactly when it fits |
| Cbb.Cbb.Flush | sqlitecloud/src/main/cpp/libressl/ssl/bs_cbb.c:185-273 | Closing a builder closes all its open descendants, innermost first, with their lengths written back and contents moved when the long form needs it; it fails only when a length does not fit or the buffer is full |
| Cbb.Cbb.AddU | sqlitecloud/src/main/cpp/libressl/ssl/bs_cbb.c:129-148 | A big-endian number behind the closed contents; a length of 0 succeeds and one above 4 fails, both without any effect |
| Cbb.Cbb.AddBytes | sqlitecloud/src/main/cpp/libressl/ssl/bs_cbb.c:362-371 | Bytes behind the closed contents |
| Cbb.Cbb.AddLengthPrefixed | sqlitecloud/src/main/cpp/libressl/ssl/bs_cbb.c:291-310 | A zeroed placeholder and a child linked behind it |
| Cbb.Cbb.AddAsn1 | sqlitecloud/src/main/cpp/libressl/ssl/bs_cbb.c:331-359 | Identifier octet, placeholder and child; multi-byte tags refused |
| Cbb.Finish | sqlitecloud/src/main/cpp/libressl/ssl/bs_cbb.c:151-182 | The finished bytes are the fully closed contents; it fails on a builder that is not the top, on a null pointer for a growing buffer and on a variable that has a value |
| Asn1Integer.AddAsn1Uint64 | sqlitecloud/src/main/cpp/libressl/ssl/bs_cbb.c:433-475 | The shortest INTEGER of a 64-bit number, its loop skipping leading zero octets and padding a high bit |
| Asn1Tree.BuildOne | sqlitecloud/src/main/cpp/libressl/ssl/bs_cbb.c:185-359 | Nested builder calls for a tree append its encoding, and fail exactly when it has none or the limit is reached |
| Asn1Tree.RecoverAllEncoded | sqlitecloud/src/main/cpp/libressl/ssl/bs_cbs.c:244-466 | Reading with the shape of a forest recovers tags and contents of its encoding, and leaves what follows |
| Asn1Tree.ReadAll | sqlitecloud/src/main/cpp/libressl/ssl/bs_cbs.c:244-466 | The cursor calls in that order do the same |
| Asn1Tree.BuildThenParse | sqlitecloud/src/main/cpp/libressl/ssl/bs_cbb.c:185-273 | For every forest of elements and prefixed vectors the builder accepts, finish and parse return the same forest, through any number of moves for long lengths |
| Ber.Convert | sqlitecloud/src/main/cpp/libressl/ssl/bs_ber.c:119-239 | Conversion consumes at most its input, all of it at top level, and terminates because every element consumes at least two bytes |
| Ber.ConvertStrict | sqlitecloud/src/main/cpp/libressl/ssl/bs_ber.c:119-239 | Output at top level parses under the strict reader all the way down: no indefinite length in any constructed element |
| BerTree.ConvertsForest | sqlitecloud/src/main/cpp/libressl/ssl/bs_ber.c:119-239 | Whatever mixture of definite and indefinite lengths a forest is written with, the converter gives its definite encoding, strings in fragments joined, and refuses it exactly when some length would be too large |
| BerTree.ConvertsMeaning | sqlitecloud/src/main/cpp/libressl/ssl/bs_ber.c:242-268 | The same for the call the entry point makes |
| BerTree.KeepsElements | sqlitecloud/src/main/cpp/libressl/ssl/bs_ber.c:85-94 | A SEQUENCE or SET of indefinite length keeps its elements whole |
| BerTree.SetConverted | sqlitecloud/src/main/cpp/libressl/ssl/bs_ber.c:119-239 | 31 80 02 01 05 00 00 becomes 31 03 02 01 05 |
| Ber.DefiniteIdentity | sqlitecloud/src/main/cpp/libressl/ssl/bs_ber.c:119-239 | On input definite throughout the converter is the identity if and only if no element reads as an end-of-contents marker, no length is the reserved one and the depth is at most 2048; otherwise it fails |
| BerTree.DefinitePart | sqlitecloud/src/main/cpp/libressl/ssl/bs_ber.c:119-239 | A definite element inside an indefinite one comes through unchanged exactly when its contents are convertible, else the conversion fails |
| BerTree.EmptyTagZeroRefused | sqlitecloud/src/main/cpp/libressl/ssl/bs_ber.c:103-115 | The conversion of 30 80 30 02 00 00 00 00 fails: the empty element inside the definite part is taken for an end-of-contents marker |
| Ber.ConvertTwice | sqlitecloud/src/main/cpp/libressl/ssl/bs_ber.c:119-239 | Converting the output again changes nothing, or fails in exactly those cases |
| BerConvert.ConvertIndefinite | sqlitecloud/src/main/cpp/libressl/ssl/bs_ber.c:119-239 | The loop and recursion over cursor and nested builders append what the conversion function says, and advance the input as far |
| BerConvert.ConvertWhole | sqlitecloud/src/main/cpp/libressl/ssl/bs_ber.c:261-268 | The converting half of the entry point succeeds exactly when conversion does and no output is already set, with that output, which is strict |
| BerFind.FindIndefinite | sqlitecloud/src/main/cpp/libressl/ssl/bs_ber.c:45-81 | The walk with its flag, which inner walks overwrite, computes the flag the function says, for any initial value |
| BerFind.FindIsTop | sqlitecloud/src/main/cpp/libressl/ssl/bs_ber.c:45-81 | A walk that succeeds reports exactly the indefinite lengths at the top; its input is definite throughout exactly when there are none at any depth |
| BerFind.FindDefinite | sqlitecloud/src/main/cpp/libressl/ssl/bs_ber.c:45-81 | On input definite throughout the walk finds nothing and succeeds exactly up to 2048 levels |
| BerFind.FindForest | sqlitecloud/src/main/cpp/libressl/ssl/bs_ber.c:45-81 | On every written forest up to 2048 levels high the walk succeeds and finds whether some tree has an indefinite length at the top |
| BerFind.NestedMissed | sqlitecloud/src/main/cpp/libressl/ssl/bs_ber.c:45-81 | One definite element around it hides every indefinite length: the walk reports none |
| BerFind.IndefiniteToDefinite | sqlitecloud/src/main/cpp/libressl/ssl/bs_ber.c:242-268 | The whole entry point: definite input needs nothing; a written forest is converted to its definite encoding exactly if some top-level length is indefinite, failing only for lengths, memory or an output already set; output is always strict, and without output the input is definite throughout exactly if no nested length is indefinite |
| S3Cbc.LtRight | sqlitecloud/src/main/cpp/libressl/ssl/s3_cbc.c:80-85 | The masked less-than is right if and only if the difference lies between -2^31 and 2^31 - 1 |
| S3Cbc.GeRight | sqlitecloud/src/main/cpp/libressl/ssl/s3_cbc.c:88-93 | The same for greater-or-equal |
| S3Cbc.Eq8Right | sqlitecloud/src/main/cpp/libressl/ssl/s3_cbc.c:96-102 | The masked equality is right if and only if the exclusive-or is at most 2^31 |
| S3Cbc.FoldLowBit | sqlitecloud/src/main/cpp/libressl/ssl/s3_cbc.c:162-166 | The three shifts and ANDs leave the conjunction of the low eight bits in bit 0 |
| S3Cbc.CheckPadding | sqlitecloud/src/main/cpp/libressl/ssl/s3_cbc.c:134-166 | The loop over up to 256 bytes gives all ones exactly for proper padding |
| S3Cbc.RemovePadding | sqlitecloud/src/main/cpp/libressl/ssl/s3_cbc.c:115-180 | 0 exactly when publicly too short; else 1 with p + 1 bytes stripped exactly when the record has room for the MAC and its last p + 1 bytes equal p, else -1 with nothing stripped |
| S3Cbc.SpoilerHarmless | sqlitecloud/src/main/cpp/libressl/ssl/s3_cbc.c:232-234 | The hidden multiple is one exactly for even MAC sizes and for 1 |
| S3Cbc.ScanMac | sqlitecloud/src/main/cpp/libressl/ssl/s3_cbc.c:238-244 | The masked scan leaves the MAC in the buffer, turned by its start |
| S3Cbc.CopyMac | sqlitecloud/src/main/cpp/libressl/ssl/s3_cbc.c:194-264 | The MAC turned by the remainder of the hidden multiple; for every even size exactly the MAC |
| S3Cbc.StripAndExtract | sqlitecloud/src/main/cpp/libressl/ssl/s3_cbc.c:115-264 | Both together give the bytes a branching implementation would cut from the end |
| CbcDigest.PlainIsPadded | sqlitecloud/src/main/cpp/libressl/ssl/s3_cbc.c:485-606 | Byte by byte, the text the masks aim at is the inner pad block and the message under the padding of section 5.1 of FIPS 180-4 |
| CbcDigest.MaskedMeans | sqlitecloud/src/main/cpp/libressl/ssl/s3_cbc.c:568-596 | What the masks make of a byte, case by case |
| CbcDigest.MaskedIsPlain | sqlitecloud/src/main/cpp/libressl/ssl/s3_cbc.c:555-598 | In every block up to the length block the masked byte is the plain one |
| CbcDigest.MaskedBlockIsPlain | sqlitecloud/src/main/cpp/libressl/ssl/s3_cbc.c:555-598 | So each masked block is the next block of the plain padded text |
| CbcDigest.Window | sqlitecloud/src/main/cpp/libressl/ssl/s3_cbc.c:485-506 | With at most 256 bytes of padding the blocks of the 0x80 byte and of the length lie in the window of seven that is always processed |
| CbcDigest.LengthBytesRight | sqlitecloud/src/main/cpp/libressl/ssl/s3_cbc.c:535-547 | Four bytes of bit count among zeros are the length field, in either byte order |
| CbcDigest.InnerPadIs | sqlitecloud/src/main/cpp/libressl/ssl/s3_cbc.c:527-531 | Each byte of the first block is the key's, or 0 past its end, with the bits 1, 2, 4 and 5 inverted |
| CbcDigest.OuterPadIs | sqlitecloud/src/main/cpp/libressl/ssl/s3_cbc.c:615-617 | Each byte of the outer pad is the key's, or 0 past its end, with the bits 2, 3, 4 and 6 inverted |
| CbcDigest.DigestRecord | sqlitecloud/src/main/cpp/libressl/ssl/s3_cbc.c:378-640 | Up to the length block the block function is given exactly the inner pad of the key and header and data without the MAC under standard padding, the masked copy keeps exactly the state after it, the number of blocks does not depend on the secret length, and the outer digest is given the outer pad and that state |
| DtlsBitmask.Mark | sqlitecloud/src/main/cpp/libressl/ssl/d1_both.c:132-141 | Either branch sets exactly the bits of the range and keeps the others |
| DtlsBitmask.FullByte | sqlitecloud/src/main/cpp/libressl/ssl/d1_both.c:143-156 | A byte of the mask has its final value exactly when all its bits inside the message are set |
| DtlsBitmask.IsComplete | sqlitecloud/src/main/cpp/libressl/ssl/d1_both.c:143-149 | True exactly when every byte of the message is marked |
| DtlsReassembly.AnyOrder | sqlitecloud/src/main/cpp/libressl/ssl/d1_both.c:552-642 | Over every run of slices of one message: exactly the covered bytes are marked, and a marked byte is the message's |
| DtlsReassembly.CompleteIffCovered | sqlitecloud/src/main/cpp/libressl/ssl/d1_both.c:616-624 | Complete exactly when every byte is covered, and then the buffer is the message |
| DtlsReassembly.Fragment.Receive | sqlitecloud/src/main/cpp/libressl/ssl/d1_both.c:608-624 | Read, mark and completion test do what delivery means |
| DtlsReassembly.MessageQueue.ReassembleFragment | sqlitecloud/src/main/cpp/libressl/ssl/d1_both.c:552-642 | For any header and record: the new state of the message and the return code, errors, drops, short reads and failing reads included; no other message changes |
| DtlsReassembly.RefusedExactly | sqlitecloud/src/main/cpp/libressl/ssl/d1_both.c:561-585 | A fragment is an error exactly if it does not fit its message, the message is too long, or another length was announced before; an error and a fragment of a complete message change nothing |
| DtlsReassembly.ReceiveRun | sqlitecloud/src/main/cpp/libressl/ssl/d1_both.c:552-642 | A run of fragments through the queue leaves the assembly of the run |
| DtlsFragment.GetMessageHeader | sqlitecloud/src/main/cpp/libressl/ssl/d1_both.c:1171-1199 | Succeeds exactly when 12 bytes are there, and what it returns is written as those bytes |
| DtlsFragment.HeaderUnique | sqlitecloud/src/main/cpp/libressl/ssl/d1_both.c:1120-1147 | Different headers are written differently |
| DtlsFragment.CoveredOnce | sqlitecloud/src/main/cpp/libressl/ssl/d1_both.c:246-361 | Every byte of the body is in exactly one of the fragments sent |
| DtlsFragment.HandshakeWriter.SendFragment | sqlitecloud/src/main/cpp/libressl/ssl/d1_both.c:278-346 | Header over bytes already sent, record, and transcript, with the bytes still to come untouched |
| DtlsFragment.HandshakeWriter.DoWrite | sqlitecloud/src/main/cpp/libressl/ssl/d1_both.c:210-361 | Terminates for any waiting bytes and failures; succeeds exactly unless a flush or write fails, and with nothing waiting fills every record but the last; on success the records carry the body once, in order, with the right offsets and lengths and within the MTU, and the transcript gains the message under one unfragmented header |
| DtlsFragment.SentThenReassembled | sqlitecloud/src/main/cpp/libressl/ssl/d1_both.c:552-642 | Fragments received in any order and number reassemble to the message exactly when each arrived at least once |
| DtlsDelivery.ReceiveAll | sqlitecloud/src/main/cpp/libressl/ssl/d1_both.c:552-642 | The records of one message in any order and number, among records of other messages, parsed and reassembled: complete, with the body sent, exactly when each has come |
| DtlsDelivery.Transfer | sqlitecloud/src/main/cpp/libressl/ssl/d1_both.c:210-642 | From the writer through a network that reorders, repeats, drops and mixes in other messages to the queue: the write succeeds unless a flush or write fails; then the message is complete exactly if every record was delivered, and is the one written |
| DtlsReplay.SatSub64be | sqlitecloud/src/main/cpp/libressl/ssl/d1_pkt.c:158-180 | Sign of the true difference, exact from -128 to 127, magnitude at least 128 otherwise |
| DtlsReplay.MarkFaithful | sqlitecloud/src/main/cpp/libressl/ssl/d1_pkt.c:1065-1085 | One mark keeps the window faithful to the set of marks |
| DtlsReplay.RunFaithful | sqlitecloud/src/main/cpp/libressl/ssl/d1_pkt.c:1065-1085 | Over every run: bit i is set exactly when max - i was marked |
| DtlsReplay.AcceptedIffFresh | sqlitecloud/src/main/cpp/libressl/ssl/d1_pkt.c:1046-1063 | Over every run: accepted exactly when never marked and less than 64 behind the maximum |
| DtlsReplay.MaxGrows | sqlitecloud/src/main/cpp/libressl/ssl/d1_pkt.c:1065-1085 | The maximum never decreases |
| DtlsReplay.Bitmap.ReplayCheck | sqlitecloud/src/main/cpp/libressl/ssl/d1_pkt.c:1046-1063 | The check on bytes and words is that verdict |
| DtlsReplay.Bitmap.BitmapUpdate | sqlitecloud/src/main/cpp/libressl/ssl/d1_pkt.c:1065-1085 | The update is one more mark |
| DtlsEpochs.NoneTwice | sqlitecloud/src/main/cpp/libressl/ssl/d1_pkt.c:498-538 | Over every run of records and epoch changes with fewer than 2^16 - 1 changes, no epoch and sequence number are accepted twice |
| DtlsEpochs.TakenAgain | sqlitecloud/src/main/cpp/libressl/ssl/d1_pkt.c:1087-1116 | The bound is exact: after 2^16 - 1 changes the first epoch is the next one again and its record is accepted again |
| DtlsEpochs.TakenInWords | sqlitecloud/src/main/cpp/libressl/ssl/d1_pkt.c:498-538 | A good record is accepted exactly if it is of the current epoch, or handshake or alert of the next, was never marked there and is less than 64 behind the highest number |
| DtlsEpochs.ReceiveAll | sqlitecloud/src/main/cpp/libressl/ssl/d1_pkt.c:498-538 | The methods on both bitmaps give the verdicts of that run, so nothing is accepted twice |
| DtlsReplay.ReplayState.ResetReadSeqNumbers | sqlitecloud/src/main/cpp/libressl/ssl/d1_pkt.c:1111-1116 | The next epoch's marks become the current ones, the next epoch starts empty |
| CipherList.List.AppendTail | sqlitecloud/src/main/cpp/libressl/ssl/ssl_ciph.c:611-627 | The node moves to the end, the rest keeps its order, the links stay consistent |
| CipherList.List.AppendHead | sqlitecloud/src/main/cpp/libressl/ssl/ssl_ciph.c:629-645 | The same to the front |
| CipherList.List.Unlink | sqlitecloud/src/main/cpp/libressl/ssl/ssl_ciph.c:882-895 | The node is gone and inactive, the rest keeps its order and links |
| CipherList.List.ApplyRule | sqlitecloud/src/main/cpp/libressl/ssl/ssl_ciph.c:801-902 | For every list, rule and selector: terminates, keeps the list well formed, and leaves the entries as the rule says |
| CipherRules.PassedOver | sqlitecloud/src/main/cpp/libressl/ssl/ssl_ciph.c:829-856 | A cipher is passed over exactly if its id or strength in bits differs or a mask that is given shares no bit with its field |
| CipherRules.RulesInWords | sqlitecloud/src/main/cpp/libressl/ssl/ssl_ciph.c:858-897 | Which entries each rule moves, activates, deactivates or drops, and where they go |
| CipherRules.RulePermutes | sqlitecloud/src/main/cpp/libressl/ssl/ssl_ciph.c:859-881 | ADD, ORD and DEL only permute the ciphers |
| CipherRules.KillRemoves | sqlitecloud/src/main/cpp/libressl/ssl/ssl_ciph.c:882-895 | KILL keeps exactly the entries that do not match, as they were |
| CipherRules.KilledForGood | sqlitecloud/src/main/cpp/libressl/ssl/ssl_ciph.c:801-902 | No later sequence of rules brings a killed cipher back |
| CipherRules.ActiveAfter | sqlitecloud/src/main/cpp/libressl/ssl/ssl_ciph.c:859-894 | Who is active after each rule |
| CipherRules.AddThenDel | sqlitecloud/src/main/cpp/libressl/ssl/ssl_ciph.c:1253-1260 | Added and deleted again, a group of an inactive list stands first, each part in its old order |
| CipherList.List.StrengthSort | sqlitecloud/src/main/cpp/libressl/ssl/ssl_ciph.c:904-949 | The repeated moves leave the inactive entries and then the active ones by strength |
| CipherRules.SortIsStable | sqlitecloud/src/main/cpp/libressl/ssl/ssl_ciph.c:904-949 | That arrangement is non-increasing and keeps the old order among equals |
| CipherRules.OnlyStableArrangement | sqlitecloud/src/main/cpp/libressl/ssl/ssl_ciph.c:904-949 | And it is the only one that does |
| HashBlocks.CuttingUnique | sqlitecloud/src/main/cpp/libressl/crypto/md32_common.h:210-308 | A text has one cutting into blocks, so what the block function is given is fixed by the text |
| HashBlocks.ZeroCountFills | sqlitecloud/src/main/cpp/libressl/crypto/md32_common.h:273-301 | The padding is the shortest that fills the last block |
| HashCollector.CountBits | sqlitecloud/src/main/cpp/libressl/crypto/md32_common.h:221-227 | The two 32-bit words count bits modulo 2^64, carry included |
| HashCollector.Context.Update | sqlitecloud/src/main/cpp/libressl/crypto/md32_common.h:210-262 | For any input in any state: blocks passed on and bytes kept are the message so far |
| HashCollector.FieldsMean | sqlitecloud/src/main/cpp/libressl/crypto/md32_common.h:210-262 | num is the length modulo 64 and Nh:Nl is eight times the length modulo 2^64 |
| HashCollector.Context.Final | sqlitecloud/src/main/cpp/libressl/crypto/md32_common.h:273-308 | The block function has then been given exactly the standard padded message, in either byte order |
| HashCollector.Collect | sqlitecloud/src/main/cpp/libressl/crypto/md32_common.h:210-308 | A whole run of updates and the final call |
| HashCollector.ChunkingIndependent | sqlitecloud/src/main/cpp/libressl/crypto/md32_common.h:210-308 | Two ways of cutting the same message give the block function the same blocks |

## Left out

- LZ4: fillOutput mode (LZ4_compress_destSize), external and attached dictionaries, blocks that do not follow each other in memory, LZ4_decompress_fast, byPtr tables, the fast decode loop and obsolete wrappers.
- Lz4Stream.CompressStream.CompressFastContinue: only sources that continue the previous one; a source elsewhere would need the external-dictionary mode.
- Lz4Compress.CompressValidated: the modes for fillOutput, an external dictionary and byPtr tables are not modelled; proves n + n/255 + 16, while the encoder stays a few bytes below it.
- Lz4Stream.DecodeStream.DecompressSafeContinue: only output that follows the previous output; output that moves to another buffer or wraps around would need the external-dictionary mode.
- Lz4Accept.AcceptsExactly: full decodes only; a partial decode takes truncated input by design, and is specified by Lz4Conformance.DecodeConforming on conforming blocks and by Lz4Decompress.DecompressGeneric elsewhere.
- Lz4Decompress.DecompressGeneric: in a partial decode whose last match has offset zero the bytes of that match are not specified, as the code leaves them to the previous buffer contents.
- Machine details: unaligned access, compiler builtins, big-endian variants (with the long subtraction of satsub64be), failed allocation, timing and cache behaviour.
- Cbb.Cbb.Flush: the builders of a tree are told to the methods as a ghost chain from the outermost in; CBB_discard_child and CBB_add_space are not modelled.
- Asn1Tree.BuildThenParse: a composition of the source's calls written for the theorem, as are Lz4Stream.RoundTrip, Lz4Stream.Session, S3Cbc.StripAndExtract, HashCollector.Collect, DtlsReassembly.ReceiveRun, DtlsDelivery.ReceiveAll and DtlsDelivery.Transfer.
- BerTree.ConvertsForest: elements whose definite length is the reserved 0xffffffff are not among its trees; Ber.DefiniteIdentity covers them.
- S3Cbc.CopyMac: the read that only touches a cache line is left out.
- CbcDigest.DigestRecord: the block function, the serialisation of its state and the second digest are parameters or left out; records encrypted then authenticated are not handled by this code.
- DtlsEpochs.ReceiveAll: whether a record decrypts, is not empty, or from the next epoch is buffered, is given with it; the exception from the check for a ClientHello while listening is left out.
- DTLS: MTU-exceeded errors, dtls1_listen, timers, retransmission queue, renegotiation, change-cipher-spec messages through dtls1_do_write, and the delivery order of buffered messages (no liveness is claimed for the queue).
- DtlsFragment.HandshakeWriter.DoWrite: the branch that goes on after an MTU-exceeded write error is not modelled; only calls that start a message; a call that resumes one after a failed flush restarts frag_off at zero in the code, and nothing is claimed of it.
- DtlsReassembly.MessageQueue.ReassembleFragment: zero-length fragments are dropped as in the code, and complete messages that arrive unfragmented enter the queue elsewhere.
- CipherList.List.ApplyRule: the selector's fields are given directly; parsing of rule strings and the cipher tables are not part of this model.
- CipherList.List.Unlink: the branch writes the previous node's link twice, the model once.
- Sockets, JNI, the SQLite Cloud protocol, X.509, ciphers and digests themselves.
