# unpackpkg in Dafny

A model of the unpacker for the "pkg" archives of the Trails of Cold Steel
games and their relatives (`src/unpackpkg.py`, function `unpack_pkg` and its
two decoders), with proofs about it.

A pkg archive begins with four ignored bytes and a 32-bit little-endian entry
count, followed by one 80-byte record per entry: a 64-byte NUL-padded name and
four 32-bit fields (uncompressed size, compressed size, offset, flags). Every
entry is decoded according to its flags:

- flag 4 selects the LZ4-style block decoder;
- flag 8 or 16 selects the external zstd decompressor;
- flag 1 selects a probe that tells a NISLZSS stream from an LZ4 one;
- no codec flag means a plain copy.

Flag 2 means a 4-byte checksum precedes the payload. An entry with flags 1
and 8 and a zero offset and size is a placeholder. Its bytes live in a
companion archive, which is unpacked first with a filter that keeps only the
placeholder names.

The modules, one per file:

| file | module | what it holds |
|---|---|---|
| `bytes.dfy` | `Bytes` | bytes, the exceptions, the semantics of `read(n)` on a binary stream, 32-bit little-endian integers |
| `window.dfy` | `Window` | the back-reference copy both decoders share: byte by byte when the regions overlap, as one slice otherwise, and an array method doing it in place |
| `nislzss.dfy` | `Nislzss` | `uncompress_nislzss`, an encoder for its token format, and the round trip |
| `lz4.dfy` | `Lz4` | `get_length` and `uncompress_lz4`, an encoder for its sequences, and the round trip |
| `nameorder.dfy` | `NameOrder` | the byte-string order of `sorted`, and sorting a set of names |
| `directory.dfy` | `Directory` | directory records, the name-to-entry table, and the placeholder list |
| `dispatch.dfy` | `Dispatch` | codec selection by flags, the payload start, the probe, and decoding one entry |
| `extract.dfy` | `Extract` | the extraction loop, the companion pass, and the whole run |

Each decoder has two forms:

- a pure function over the input bytes and a decoder state (cursor, output buffer, write index), which specifies it;
- methods that run the source's loop over an `array` output buffer.

Each method is proved equal to its function. The functions are then related
to an independent encoder, and the round trip `decode(encode(x))` is proved
to give back what the encoded tokens or sequences expand to.

Exceptions are modelled as an `Error` value. An exception stops the whole run,
as the source has no handler. The outcome of a run is the list of files
written through the output callback, in order, together with the exception
that ended the run, if any.

The input and output callbacks are replaced by byte strings:

- the archive bytes;
- the companion archive bytes, when one is given;
- the list of files written.

The zstd module is a parameter: a function, or nothing when the module is not
installed.

## Model

| member | source | states |
|---|---|---|
| Bytes.LittleEndian | src/unpackpkg.py:180 | `int.from_bytes(..., "little")` of n bytes is below 256 to the power n |
| Bytes.Zeros | src/unpackpkg.py:29 | `bytearray(n)` is n zero bytes |
| Bytes.Read | src/unpackpkg.py:92-95 | a read returns at most n bytes; they are the bytes at the cursor; fewer than n only at the end of the stream |
| Bytes.ReadExtend | src/unpackpkg.py:92 | bytes after the end of a full read do not change it |
| Bytes.U32RoundTrip | src/unpackpkg.py:21 | a 32-bit value written little-endian reads back with `int.from_bytes(..., "little")` |
| Window.CopyBytewise | src/unpackpkg.py:41-43 | the byte-by-byte copy leaves the buffer length unchanged |
| Window.CopyBlock | src/unpackpkg.py:45-47 | the slice copy leaves the buffer length unchanged |
| Window.Match | src/unpackpkg.py:116-123 | the back-reference copy leaves the buffer length unchanged |
| Window.BytewiseEffect | src/unpackpkg.py:41-43 | the copy succeeds exactly when it stays inside the buffer; it changes only the written range; each written byte equals the byte `distance` before it |
| Window.BlockIsBytewise | src/unpackpkg.py:40-47 | when the distance is at least the length, the slice copy the source uses equals the byte-by-byte copy |
| Window.MatchIsBytewise | src/unpackpkg.py:116-123 | the source's choice between the two copies always equals the byte-by-byte copy |
| Window.CopyMatch | src/unpackpkg.py:116-123 | the in-place array copy fails or succeeds as the byte-by-byte copy does, and leaves its result in the array |
| Window.CopyIsRepeat | src/unpackpkg.py:41-43 | copying `l` bytes at distance `d` after the output `p` appends the periodic continuation of `p` |
| Window.RepeatDistanceOne | src/unpackpkg.py:41-43 | distance 1 repeats the last byte (run-length) |
| Window.RepeatNoOverlap | src/unpackpkg.py:45-47 | a copy no longer than its distance appends a slice of the earlier output |
| Nislzss.HeaderSizesAgree | src/unpackpkg.py:25 | the stream's compressed size may exceed the entry's only for the one historical triple the source accepts |
| Nislzss.PutByte | src/unpackpkg.py:48-53 | a literal write fails exactly past the end of the buffer; otherwise it sets the byte at the write index, keeps every other byte and the length, and advances the index |
| Nislzss.DecodeToken | src/unpackpkg.py:33-53 | one token consumes 1 to 3 bytes and keeps the buffer size; it raises the truncation error exactly when the input ends before the token's first byte, after a lone escape byte, or after an escape and a distance byte |
| Nislzss.DecodeFrom | src/unpackpkg.py:32-53 | the token loop returns a buffer of the size it started with |
| Nislzss.ReadHeader | src/unpackpkg.py:21-28 | the body begins at most 12 bytes after the header start |
| Nislzss.Decode | src/unpackpkg.py:20-55 | the output has the larger of the two decompressed sizes; a header whose compressed size fails the header test raises the size mismatch |
| Nislzss.SizeMismatchIffHeaderRejected | src/unpackpkg.py:25-26 | the size mismatch is raised exactly when the header test fails, including the hard-coded exception for one archive |
| Nislzss.DecodeFromErrors | src/unpackpkg.py:32-53 | the token loop fails only by reading past the end or writing outside the buffer |
| Nislzss.Uncompress | src/unpackpkg.py:20-55 | the loop over an array buffer computes `Decode` |
| Nislzss.DecodeTokenInPlace | src/unpackpkg.py:33-53 | one token applied in place gives the token function's state |
| Nislzss.HeaderExtend | src/unpackpkg.py:21-27 | bytes after the header do not change it |
| Nislzss.TokenExtend | src/unpackpkg.py:33-39 | bytes after a token do not change its decoding |
| Nislzss.DecodeFromIgnoresTrailingBytes | src/unpackpkg.py:32-53 | bytes more than two past `fin` do not change the token loop |
| Nislzss.DecodeIgnoresTrailingBytes | src/unpackpkg.py:20-55 | bytes after the compressed payload do not change the decoding of an entry |
| Nislzss.WideEscapeCopiesBody | src/unpackpkg.py:33-53 | an escape value above 255 never matches a byte, so the body is copied verbatim |
| Nislzss.LiteralToken | src/unpackpkg.py:51-53 | a byte other than the escape is written as itself |
| Nislzss.EscapedToken | src/unpackpkg.py:48-50 | an escape byte followed by itself writes the escape byte |
| Nislzss.CopyToken | src/unpackpkg.py:34-47 | escape, distance (shifted past the escape value) and length append the repeated window |
| Nislzss.DecodeLiteralToken | src/unpackpkg.py:48-53 | an encoded literal token decodes to that literal |
| Nislzss.DecodeCopyToken | src/unpackpkg.py:34-47 | an encoded copy token decodes to the window copy |
| Nislzss.DecodeOneToken | src/unpackpkg.py:33-53 | any encoded token decodes to what it stands for |
| Nislzss.FromToken | src/unpackpkg.py:32-53 | proof step: the loop continues from the state one token leaves |
| Nislzss.FromTokenError | src/unpackpkg.py:32-53 | proof step: a token that fails ends the loop with its error |
| Nislzss.FromEnd | src/unpackpkg.py:32 | proof step: past `fin` the loop stops and returns the buffer |
| Nislzss.DecodeFirstToken | src/unpackpkg.py:32-53 | decoding an encoded token list continues after its first token with the rest of the list |
| Nislzss.DecodeNoTokens | src/unpackpkg.py:32 | proof step: the loop stops once the cursor passes `fin` |
| Nislzss.DecodeTokens | src/unpackpkg.py:32-53 | the loop over an encoded token list writes what the tokens expand to, and leaves the rest of the buffer |
| Nislzss.PayloadHeader | src/unpackpkg.py:21-27 | the header the encoder writes reads back as written |
| Nislzss.DecodeAfterHeader | src/unpackpkg.py:20-30 | proof step: an accepted header starts the loop on a zero buffer of the larger size at the body |
| Nislzss.RoundTrip | src/unpackpkg.py:20-55 | decoding an encoded payload at any position, with anything after it, gives the expansion followed by zeros up to the size |
| Nislzss.RunOfEight | src/unpackpkg.py:20-55 | a literal and a distance-1 copy of 7 decode to eight equal bytes |
| Lz4.ExtendLength | src/unpackpkg.py:69-78 | a length extension adds 255 per 0xFF byte and then the final byte; it fails exactly when the stream ends inside it |
| Lz4.GetLength | src/unpackpkg.py:64-80 | a nibble other than 15 is the length itself and the cursor stays put; nibble 15 reads at least one byte and gives at least 15; only nibble 15 can fail, and only on EOF |
| Lz4.WriteLiterals | src/unpackpkg.py:96 | the literal write keeps the buffer size and fails exactly when non-empty literals run past the end |
| Lz4.DecodeLiterals | src/unpackpkg.py:84-97 | the first half of a block advances the cursor and keeps the buffer size; with no token byte left it raises the literal-length end-of-file error, and when the announced literals run past the input it raises the not-literal-data error |
| Lz4.DecodeMatch | src/unpackpkg.py:98-123 | the loop ends exactly when the offset read is empty or ends past `fin`, and then it ends cleanly if the match nibble is 0 and raises otherwise; a one-byte offset raises premature EOF; offset 0 raises; otherwise the cursor advances and the buffer keeps its size |
| Lz4.DecodeBlock | src/unpackpkg.py:82-123 | a block advances the cursor and keeps the buffer size |
| Lz4.DecodeFrom | src/unpackpkg.py:82-123 | the block loop returns a buffer of the size it started with |
| Lz4.Decode | src/unpackpkg.py:58-125 | the output has exactly the decompressed size |
| Lz4.ReadLength | src/unpackpkg.py:64-80 | the byte-at-a-time loop computes `GetLength` |
| Lz4.WriteLiteralsInPlace | src/unpackpkg.py:96 | the in-place literal write computes `WriteLiterals` |
| Lz4.LiteralsInPlace | src/unpackpkg.py:84-97 | the first half of a block run in place computes `DecodeLiterals` |
| Lz4.MatchInPlace | src/unpackpkg.py:98-123 | the second half run in place computes `DecodeMatch` |
| Lz4.Uncompress | src/unpackpkg.py:58-125 | the loop over an array buffer computes `Decode` |
| Lz4.ExtensionRoundTrip | src/unpackpkg.py:69-78 | the encoder's extension bytes read back as the length they encode |
| Lz4.LengthRoundTrip | src/unpackpkg.py:64-80 | nibble and extension bytes read back with `get_length` as the length they encode |
| Lz4.LiteralsStep | src/unpackpkg.py:84-97 | proof step: the first half of a block is the token, the length, the read and the write, in that order |
| Lz4.DecodeLiteralsOf | src/unpackpkg.py:84-97 | an encoded literal run is written at the write index |
| Lz4.WriteLiteralsAt | src/unpackpkg.py:96-97 | literals written after the output so far extend it |
| Lz4.DecodeMatchOf | src/unpackpkg.py:104-123 | an encoded offset and match length copy `length + 4` bytes at that offset |
| Lz4.MatchAfterLiterals | src/unpackpkg.py:115-123 | the match after a literal run completes the sequence's expansion |
| Lz4.BlockOfHalves | src/unpackpkg.py:82-123 | proof step: a block is its literal half followed by its match half |
| Lz4.FromContinue | src/unpackpkg.py:82-123 | proof step: the loop continues from the state one block leaves |
| Lz4.MatchHalfOf | src/unpackpkg.py:104-123 | the match half of an encoded sequence continues with the sequence applied |
| Lz4.DecodeBlockParts | src/unpackpkg.py:84-123 | a block laid out as token, literals, offset and match length decodes to the sequence |
| Lz4.DecodeOneSequence | src/unpackpkg.py:82-123 | one encoded sequence decodes to its expansion |
| Lz4.DecodeLastBlock | src/unpackpkg.py:98-102 | a final block with no offset after it writes its literals and ends the loop |
| Lz4.DecodeSequenceThen | src/unpackpkg.py:82-123 | the loop after an encoded sequence continues from the state it leaves |
| Lz4.FillZeros | src/unpackpkg.py:59 | the expansion written into the zero buffer leaves zeros after it |
| Lz4.DecodeLastOnly | src/unpackpkg.py:98-102 | a stream of only the final block decodes to its literals |
| Lz4.DecodeSequences | src/unpackpkg.py:82-123 | the loop over encoded sequences writes their expansion and leaves the rest of the buffer |
| Lz4.DecodeEncoded | src/unpackpkg.py:58-125 | an encoded stream decodes to its expansion followed by zeros up to the decompressed size |
| Lz4.RoundTrip | src/unpackpkg.py:58-125 | the same at any position, with anything after the compressed bytes |
| Lz4.Abcd | src/unpackpkg.py:58-125 | four literals and a match at offset 4 decode to "ABCDABCD" |
| Lz4.MatchAtEndIsAnError | src/unpackpkg.py:99-101 | a last block announcing a match raises |
| NameOrder.LessIrreflexive | src/unpackpkg.py:142 | no name sorts before itself |
| NameOrder.LessTransitive | src/unpackpkg.py:142 | the byte-string order is transitive |
| NameOrder.LessTotal | src/unpackpkg.py:142 | any two different names are ordered |
| NameOrder.LessAsymmetric | src/unpackpkg.py:142 | two names are never ordered both ways |
| NameOrder.Insert | src/unpackpkg.py:142 | inserting into a sorted list keeps it sorted and adds exactly the new name |
| NameOrder.SortedListingExists | src/unpackpkg.py:142 | every finite set of names has a sorted listing |
| NameOrder.SortedUnique | src/unpackpkg.py:142 | two sorted listings of the same names are equal |
| NameOrder.SortedNames | src/unpackpkg.py:142 | `sorted(keys)` is sorted and lists exactly the keys |
| NameOrder.Sort | src/unpackpkg.py:152 | sorting the keys yields that listing |
| Directory.HasFlag | src/unpackpkg.py:144 | a flag bit can be set only in a flags word at least as large as the mask |
| Directory.StripNuls | src/unpackpkg.py:140 | `rstrip(b"\x00")` removes exactly the trailing NUL bytes |
| Directory.ParseRecord | src/unpackpkg.py:139-140 | a record gives a name of at most 64 bytes, followed only by NULs in the record, and four fields that fit in 32 bits |
| Directory.EncodeRecord | src/unpackpkg.py:139 | an encoded record is 80 bytes |
| Directory.StripPadding | src/unpackpkg.py:140 | a name not ending in NUL survives padding and stripping |
| Directory.RecordRoundTrip | src/unpackpkg.py:139-140 | a record parses back to the name and entry it encodes |
| Directory.Records | src/unpackpkg.py:138-139 | the directory has one record per counted entry |
| Directory.Table | src/unpackpkg.py:136-140 | the table has no more names than there are records, and the last record's name maps to its entry |
| Directory.TableAppend | src/unpackpkg.py:140 | proof step: each record sets its name's entry |
| Directory.RecordsAppend | src/unpackpkg.py:138-139 | proof step: the records are read one after another from offset 8 |
| Directory.TableKeys | src/unpackpkg.py:136-140 | the table's names are exactly the records' names |
| Directory.TableLastWins | src/unpackpkg.py:140 | a duplicated name keeps its last record |
| Directory.ParseDirectory | src/unpackpkg.py:135-140 | fewer than 8 bytes fail on the entry count; fewer bytes than the count's 80-byte records fail on a short record; otherwise the result is the table of exactly those records |
| Directory.ReadDirectory | src/unpackpkg.py:133-140 | reading the entry count and then the records computes `ParseDirectory` |
| Directory.ReadRecords | src/unpackpkg.py:138-140 | the record loop raises on a short record exactly when the data holds fewer than `count` records after offset 8, and otherwise builds the table of those records |
| Directory.IsPlaceholder | src/unpackpkg.py:144 | a placeholder has offset 0, compressed size 0 and a flags word above 8 |
| Directory.Placeholders | src/unpackpkg.py:141-145 | the placeholder list holds exactly the placeholder names, in sorted order |
| Directory.CollectPlaceholders | src/unpackpkg.py:141-145 | the loop over the sorted names computes that list |
| Dispatch.SelectCodec | src/unpackpkg.py:166-188 | flag 4 selects LZ4 exactly when set; zstd exactly when flag 8 or 16 is set without flag 4; the probe exactly for flag 1 without 4, 8 and 16; no flags, or flag 2 alone, copy the bytes |
| Dispatch.PayloadStart | src/unpackpkg.py:161-165 | the payload begins at the offset, 4 bytes later with flag 2 |
| Dispatch.Probe | src/unpackpkg.py:173-182 | short entries are LZ4 without a read; with 8 bytes at hand the cursor returns to the payload start; the only failure is a seek before the file start |
| Dispatch.DecodeZstd | src/unpackpkg.py:168-172 | the entry is only reported exactly when the zstd module is missing |
| Dispatch.DecodeProbed | src/unpackpkg.py:173-186 | an entry under 8 bytes is LZ4 from the payload start; with 8 bytes at hand the decoder runs from the payload start again, NISLZSS when the header's size passes the test and LZ4 otherwise |
| Dispatch.DecodeEntry | src/unpackpkg.py:161-188 | nothing is written exactly for a zstd entry without the module; a flag-4 entry is decoded by the LZ4 decoder from the payload start, to exactly its uncompressed size; a flag-1 entry goes through the probe and a zstd entry through the zstd branch, each from the payload start, and any decoder error is the entry's result |
| Dispatch.ExtractZstd | src/unpackpkg.py:168-172 | the zstd branch computes `DecodeZstd` |
| Dispatch.ExtractProbed | src/unpackpkg.py:173-186 | the probe and its seeks compute `DecodeProbed` |
| Dispatch.ExtractEntry | src/unpackpkg.py:161-188 | the branch chain computes `DecodeEntry` |
| Dispatch.ProbeAgreesWithNislzss | src/unpackpkg.py:178-186 | the probe picks LZ4 exactly when NISLZSS would reject the header |
| Dispatch.RawEntryIsSlice | src/unpackpkg.py:187-188 | an entry with no codec flag is the uncompressed-size bytes at the payload start |
| Dispatch.FlagPrecedence | src/unpackpkg.py:166-173 | flag 4 wins over all others; without flag 4, flag 8 selects zstd, and so does flag 16 over flag 1; flags 1 or 1+2 alone (low five bits) go to the probe |
| Dispatch.ForcedLz4Entry | src/unpackpkg.py:166-167 | a flag-4 entry holding an LZ4 encoding decodes to its expansion, whatever else is set |
| Dispatch.ProbedNislzssEntry | src/unpackpkg.py:173-186 | a flag-1 entry holding a NISLZSS payload passes the probe and decodes to its expansion |
| Extract.IsAscii | src/unpackpkg.py:190 | a name decodes as ASCII exactly when every byte in it is below 128 |
| Extract.CompanionFilter | src/unpackpkg.py:147-150 | the companion filter skips exactly the names that are not placeholders |
| Extract.EntryStep | src/unpackpkg.py:153-191 | a filtered entry is passed over; bytes are produced only for a non-placeholder with an ASCII name; a non-ASCII name of a decodable entry raises; a kept non-placeholder whose payload fails to decode raises the decoder's error; a placeholder raises exactly when there is no companion and its name is not ASCII, and is otherwise passed over |
| Extract.EntryStepWrites | src/unpackpkg.py:153-191 | an entry is written exactly when the filter keeps it, it is no placeholder, its name is ASCII and it decodes |
| Extract.ExtractAll | src/unpackpkg.py:152-191 | the loop writes no more files than there are names |
| Extract.ExtractAllFirst | src/unpackpkg.py:152-191 | proof step: an exception at the first name ends the loop with nothing written; otherwise its file comes before the rest |
| Extract.ExtractAllAdvance | src/unpackpkg.py:152-191 | proof step: one turn of the loop appends the entry's file, or stops on its exception |
| Extract.UnpackDirectoryError | src/unpackpkg.py:137-139 | proof step: a directory that cannot be read ends the run with nothing written |
| Extract.UnpackAfterDirectory | src/unpackpkg.py:146-152 | proof step: an exception in the companion pass ends the run; otherwise its files come before the main pass |
| Extract.ExtractStep | src/unpackpkg.py:153-191 | one iteration of the loop computes `EntryStep` |
| Extract.UnpackPkg | src/unpackpkg.py:132-191 | the run with its recursive companion pass computes `Unpack` |
| Extract.ExtractLoop | src/unpackpkg.py:152-191 | the extraction loop computes `ExtractAll` |
| Extract.Unpack | src/unpackpkg.py:132-191 | a directory that cannot be read ends the run with its error and nothing written; a run without exception read its directory |
| Extract.PlaceholderNotWritten | src/unpackpkg.py:157-160 | a placeholder is never written; without a companion it raises exactly for a non-ASCII name |
| Extract.ExtractAllSound | src/unpackpkg.py:152-191 | every file written is a listed name whose entry step produced exactly those bytes |
| Extract.ExtractAllComplete | src/unpackpkg.py:152-191 | a run with no exception wrote every entry whose step produces bytes |
| Extract.ExtractAllError | src/unpackpkg.py:152-191 | an exception comes from the first name whose step fails, every earlier step having succeeded |
| Extract.DecodeFailureRaises | src/unpackpkg.py:161-188 | a kept entry that is no placeholder and whose payload fails to decode makes the loop end with an exception |
| Extract.ExtractAllSorted | src/unpackpkg.py:152 | files are written in sorted name order |
| Extract.CompanionWritesOnlyPlaceholders | src/unpackpkg.py:146-151 | the companion pass writes only placeholder names |
| Extract.CompanionWritesListedNames | src/unpackpkg.py:146-151 | an error-free companion pass writes every placeholder name of the calling archive whose companion entry is a real, ASCII-named entry that decodes to bytes |
| Extract.PassSorted | src/unpackpkg.py:132-191 | a run without a companion writes in sorted name order |
| Extract.SortedDistinct | src/unpackpkg.py:142 | a sorted listing names nothing twice |
| Extract.MainAvoidsPlaceholders | src/unpackpkg.py:157-160 | the main pass never writes a placeholder name |
| Extract.UnpackNamesDistinct | src/unpackpkg.py:132-191 | no run, companion pass included, writes the same name twice |
| Extract.DistinctAfterDirectory | src/unpackpkg.py:132-191 | proof step: distinct names once the directory has parsed |
| Extract.FirstPassNames | src/unpackpkg.py:146-151 | proof step: what runs before the main pass writes sorted placeholder names |
| Extract.DistinctOutcome | src/unpackpkg.py:146-191 | proof step: a first pass of sorted placeholder names, followed when it raised nothing by a sorted main pass avoiding those names, writes distinct names |
| Extract.ShortArchive | src/unpackpkg.py:137 | an archive shorter than 8 bytes raises on the entry count and writes nothing |

## Left out

- The zstd decompressor (`uncompress_zstd`, lines 127-130) is a parameter. The model only fixes what it is handed (the compressed bytes at the payload start and the size limit) and that a failure raises.
- `standalone_main` and argument parsing are not part of this model.
- The `print` messages are not modelled. Only their `decode("ASCII")` is, because it raises on a non-ASCII name.
- The checksum behind flag 2 is skipped by the source, and the model skips it too.
- The file callbacks become byte strings. A failure to open a file and the `with` blocks are left out.
- The companion archive is given as bytes, so one that cannot be opened is not modelled.
- A Python index below zero wraps to the end of the buffer, and a slice assignment past the end grows the `bytearray`. Both happen only for malformed streams, and the model raises `OutOfBounds` for them instead.
- Dispatch.Probe: when fewer than 8 bytes remain, the seek back by 8 leaves the cursor before the payload. The model follows that cursor and raises `NegativeSeek` when the seek would go before the start of the file. It does not claim anything about the bytes such a stream then decodes to.
- NameOrder.Sort: `sorted` is modelled by repeated insertion. Only its result is claimed to match.
- An exception in any entry ends the whole run, as in the source, which has no handler around the loop. The files written before it are kept in the outcome.
