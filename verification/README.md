# A verified model of Pika's binlog, zset cache, ACL selectors and geohash

Pika is a Redis-compatible server on top of RocksDB. This project models six parts of it in Dafny and proves
what they promise.

**The segmented binlog.** `BinlogFormat` is the byte layout: an item is cut into Full, First, Middle and Last
records with eight-byte headers inside 64 KiB blocks, and a trailer too short for a header is zeroed.
`BinlogCursor` is what a physical read sees in a file. `BinlogWriter.Binlog` is the producer with its files,
manifest and published position; `BinlogReader.PikaBinlogReader` is the consumer with its cursor. A ghost `Log`
lists what has been published, and `LogOk` says that the files hold exactly that. `BinlogRuns` composes the two:
whatever is put is read back, in order, from every published position, across block ends, file rolls, truncation,
padding and crashes. The writer leaves a trailer at fewer than eight bytes, the reader skips one at eight or fewer;
`EmptySlotHoldsNothing` shows why the zero-length First record in between can be skipped. `BinlogConcurrent` is a
state machine in which the writer's bytes, the roll of a file, publication, crashes and the reader's single steps
interleave in any order; what the reader delivers there is tied to the puts that the actions ask for
(`NoTornReads`, `PutIsDelivered`).

When a file is closed it is cut at the write position only if more than that is mapped, and nothing is mapped until
the first append after it was opened (src/pstd/src/env.cc:388-431, 667-676). What a crash left after the published
position can therefore survive a roll. `Fades` says what a reader makes of such bytes. `RollsClean` and `Clean` are
the exact conditions under which a roll is safe (`Put`, `StepExact`, `RunExact`, `UncleanRollTears`); runs without
crashes, and with crashes between puts only, always meet them (`QuietRunsNotTorn`), and `BinlogTrace` is a run with
two crashes in which the reader delivers an item that was never put.

**The item codec.** `BinlogTransverter` encodes and decodes the 34-byte item header and the filler item of an
exact size.

**The partial zset cache.** The database and the cache are maps from member to score; `ZSet.Order` sorts by score
and member, `ZSet.Rank` counts. `Window` says that the cache is a prefix or a suffix of the database's order.
`ZSetSteps` gives each operation's effect on the cache, `ZSetCache.PikaCache` is the code that has this effect, and
`ZSetRuns` proves over every run exactly when the window holds. A command does not always ask the cache what it asks the
database: `ZSetSteps` and `ZSetReads` therefore take what the cache is handed as a parameter of its own, and say exactly
when the window survives and when a hit is the database's answer. An empty cache is a window of anything, so what an
operation leaves is stated as well, from scores and ranks alone (`ZAddLeaves`, `ZIncrbyLeaves`). `CacheLoadThread` is the load queue with its duplicate filter.

**ACL.** `Acl` folds rules into a selector and proves that the command test answers as the last covering rule
says; `AclText` says which texts are accepted and what each of them covers, gives or takes away, read off their
characters, and proves that the parser takes them so; `AclUser` adds users with several selectors, each with its own
list of rules, and with switches and passwords. `Acl.AclSelector` and `AclUser.User` are the objects that are changed in
place.

**Geohash.** `Geohash` is the bit interleaving and the carry trick behind neighbours, on bit vectors;
`GeohashArea` encodes and decodes cells over exact reals.

**Rsync.** `RsyncReader` is the 16 MiB read-ahead buffer, with `pread` free to return fewer bytes and, if there are faults, to fail.

Points where the code does not keep a property for every input are stated as they are: an exact condition, on what
can be looked at before the call, with a proof of both directions, and a concrete input where it breaks.

- rolls after a crash: `BinlogConcurrent.StepExact`, `UncleanRollTears`, broken by `BinlogTrace.TwoCrashesTear`;
- padding to 4 to 7 bytes: `SetProducerStatus`, with what a seek then does in `ShortPadSkips`;
- zadd on the edge of the window: `ZAddExact`, broken by `EdgeScoreBreaks`;
- tiny increments: `SkippedIncrementExact`, broken by `TinyIncrementBreaks`;
- removal by rank: `ZRemRankExact`, broken by `WideRankBreaks` and `UnsetCountBreaks`;
- removal by score, where src/pika_zset.cc:1450-1490 hands the cache two bounds that were never assigned:
  `ZRemScoreExact`, broken by `EmptyRangeBreaks`;
- removal by lexicographic range, where src/pika_zset.cc:1492-1533 does the same: `ZRemLexExact`, broken by
  `EmptyLexBreaks`, and by `LexRemovalBreaks` even with the range handed on;
- ZRANGE and ZREVRANGE, where the database is asked with indices cut to 32 bits: `RangeReadExact` and
  `RevRangeReadExact`, broken by `WideIndexReadBreaks`;
- ZRANGEBYSCORE, where the cache is asked for the range without its parentheses: `ScoreReadExact` and
  `ClosedRangeExact`, broken by `OpenBoundReadBreaks`;
- ZREVRANGEBYLEX, where the cached reply ignores the offset: `RevLexReadExact`, broken by `LexOffsetReadBreaks`;
- users whose selectors were all cleared, which pass every test: `UserLastRuleWins`, shown by `ClearedUserPasses`;
- geohashes of 32 steps: `CellHoldsPoint`, broken by `LastCellBreaks`.

Things that come from outside are parameters: the clock, how far a file is mapped ahead, the results of `pread`, the
password digest, the pub/sub default, and the score that a cache server reads from an empty bound string
(`EmptyBound`).

## Model

| member | source | states |
|---|---|---|
| Bytes.FixedValue | src/pika_binlog_transverter.cc:62-76 | a number within n bytes is read back from its little-endian bytes |
| BinlogFormat.HeaderLength | src/pika_binlog.cc:243-275 | the three length bytes of a record header give back every length up to 0xffffff |
| BinlogFormat.HeaderIsBytes | src/pika_binlog.cc:249-262 | the eight header bytes: length, time cut to 32 bits, type |
| BinlogFormat.FragmentIsBytes | src/pika_binlog.cc:283-315 | one record byte by byte, with the zeros before it, its type number and as much payload as the block has room for |
| BinlogFormat.Align | src/pika_binlog.cc:283-297 | the next record starts fewer than eight bytes on, with room for a header, either here or at a block start |
| BinlogFormat.FragmentLength | src/pika_binlog.cc:298-313 | a fragment never crosses the block's end, and ends exactly there unless it ends the item |
| BinlogFormat.Progress | src/pika_binlog.cc:276-318 | a record that does not end the item carries payload or uses up the one empty slot, so the cutting of an item ends |
| BinlogFormat.BytesAreRecord | src/pika_binlog.cc:243-275 | header bytes followed by a payload read as that record |
| BinlogFormat.LayoutIsItem | src/pika_binlog.cc:276-318 | the bytes that the writer lays out from any offset are, record by record, the item that the reader expects there |
| BinlogFormat.ItemFrame | src/pika_binlog_reader.cc:180-224 | bytes after the end of an item do not matter to it |
| BinlogTransverter.BinlogEncode | src/pika_binlog_transverter.cc:62-76 | the appended fields and the content are the item's bytes |
| BinlogTransverter.HeaderFields | src/pika_binlog_transverter.cc:62-76 | where each field stands in an encoded item |
| BinlogTransverter.BinlogDecode | src/pika_binlog_transverter.cc:78-101 | succeeds exactly when type and content length match the bytes, and then gives every field |
| BinlogTransverter.BinlogItemWithoutContentDecode | src/pika_binlog_transverter.cc:161-176 | succeeds exactly when the type matches, and then gives every header field |
| BinlogTransverter.HeaderReadsBack | src/pika_binlog_transverter.cc:62-101 | an encoded header in front of any bytes decodes to the fields it was made from |
| BinlogTransverter.DecodeInvertsEncode | src/pika_binlog_transverter.cc:62-101 | decoding an encoded item gives the item back if and only if the types agree and the content is shorter than 2^32 |
| BinlogTransverter.PaddingContentParses | src/pika_binlog_transverter.cc:119-159 | the filler command has its prefix, a five-digit zero-padded length that parses to the filler's length, and that many stars |
| BinlogTransverter.ConstructPaddingBinlog | src/pika_binlog_transverter.cc:119-159 | for every size from 61 to a block less a header, exactly `size` bytes that decode to a filler item |
| BinlogLog.PositionsIncrease | include/pika_define.h:117-128 | published positions increase strictly in the order of BinlogOffset, across file rolls |
| BinlogLog.LogFrame | src/pika_binlog.cc:205-241 | whatever happens to the files after a position leaves the log up to it intact |
| BinlogLog.LogExtends | src/pika_binlog.cc:231-238 | an item that stands where the log ends extends it |
| BinlogLog.LogPrefix | src/pika_binlog.cc:408-437 | each prefix of a log is a log |
| BinlogLog.ItemLastBlock | src/pika_binlog_reader.cc:84-133 | the last block of an item can be scanned record by record from its start, even if it opens in the middle of the item |
| BinlogLog.PublishedIsScannable | src/pika_binlog_reader.cc:38-82 | every position that was ever published can be reached by a scan from the start of its block |
| BinlogWriter.ManifestRoundTrip | src/pika_binlog.cc:35-59 | a saved version is loaded again, for all fields within their widths |
| BinlogWriter.Binlog.Create | src/pika_binlog.cc:63-125 | a directory without a manifest starts an empty log at file 0 |
| BinlogWriter.Binlog.Open | src/pika_binlog.cc:63-125 | a directory with a manifest resumes at the saved position and keeps the published log |
| BinlogWriter.Binlog.InitLogFile | src/pika_binlog.cc:139-146 | an open file is ready for records: the room left in its block is the one the layout counts with |
| BinlogWriter.Binlog.StableSave | src/pika_binlog.cc:35-45 | what is saved is loaded again as the same version, for all fields within their widths |
| BinlogWriter.Binlog.Append | src/pstd/src/env.cc:388-407 | the data follows what was written, zeros are set aside ahead, and older bytes after it stay |
| BinlogWriter.Binlog.CloseQueue | src/pstd/src/env.cc:409-431 | the file is cut at the write position exactly if more than that is mapped |
| BinlogWriter.Binlog.EmitPhysicalRecord | src/pika_binlog.cc:243-275 | appends exactly the header and fragment, and keeps file length, offset in the block and running offset in step |
| BinlogWriter.Binlog.SkipTrailer | src/pika_binlog.cc:283-297 | zero-fills a trailer shorter than a header and moves to the next block |
| BinlogWriter.Binlog.ProduceOne | src/pika_binlog.cc:283-315 | writes one trailer and record of the layout and drops the payload it wrote |
| BinlogWriter.Binlog.Produce | src/pika_binlog.cc:276-318 | ends, and appends exactly the layout of the item; the offset it reports is the file length |
| BinlogWriter.LayoutStep | src/pika_binlog.cc:283-315 | each record brings the file one step nearer to the layout, and payload shrinks at every block start |
| BinlogWriter.Binlog.PutData | src/pika_binlog.cc:205-241 | rolls when the file is over its size, writes the whole item there, publishes its end, leaves everything published before, and the reader finds its way to the item exactly if the roll was clean |
| BinlogWriter.Binlog.RollFile | src/pika_binlog.cc:210-228 | closes the old file, cutting it if more is mapped, starts the next one empty and publishes its start |
| BinlogWriter.Binlog.Put | src/pika_binlog.cc:175-203 | refuses when closed; otherwise the log gains exactly the encoded content, stamped with the producer's own position and the next logic id, and a valid log stays valid if and only if there is no roll, or the old file is cut, or it ends there for the reader |
| BinlogWriter.LogContinues | src/pika_binlog.cc:205-241 | with one more item the files hold the log if and only if the item stands where the reader looks for it |
| BinlogWriter.Binlog.CutFile | src/pika_binlog.cc:408-437 | cuts the named file at the offset, opens it there and publishes that position |
| BinlogWriter.Binlog.Truncate | src/pika_binlog.cc:408-437 | cut back to a published position with its logic id, the log is the prefix up to it and stays valid; a missing file is an error |
| BinlogWriter.CutKeeps | src/pika_binlog.cc:408-437 | closing the open file and resizing a published one keeps every item before the cut |
| BinlogWriter.Binlog.PadBlock | src/pika_binlog.cc:331-361 | appends one padding record that fills a block, or the rest of the padding |
| BinlogWriter.Binlog.AppendPadding | src/pika_binlog.cc:320-364 | pads with records that respect block ends, up to the length it reports |
| BinlogWriter.PaddingGrows | src/pika_binlog.cc:331-361 | one more padding record after whole blocks of padding is padding |
| BinlogWriter.PaddedLogOk | src/pika_binlog_reader.cc:122-125 | padding is an empty log that a seek can scan |
| BinlogWriter.Binlog.StartAnew | src/pika_binlog.cc:378-390 | file 0 and the named file are deleted and the latter is created empty |
| BinlogWriter.Binlog.PadAnew | src/pika_binlog.cc:373-391 | the padding reaches the offset it reports exactly if the requested offset is not 4 to 7 |
| BinlogWriter.Binlog.SetProducerStatus | src/pika_binlog.cc:366-406 | the padded length equals the stored offset, and the log is valid, if and only if the requested offset is not 4 to 7 |
| BinlogWriter.Binlog.GetProducerStatus | src/pika_binlog.cc:155-172 | for a valid log, the position where the last item ends or the file after it starts, and the logic id of the last item |
| BinlogWriter.Binlog.SetTerm | include/pika_binlog.h:67-71 | the new term is saved and the log stays valid |
| BinlogCursor.PositionOrder | include/pika_define.h:117-128 | positions are in a strict total order, by file and then by offset |
| BinlogCursor.SkipsToRecord | src/pika_binlog_reader.cc:135-142 | from any item boundary the skip over a block's end lands where the next record with payload must start |
| BinlogCursor.EmptySlotHoldsNothing | src/pika_binlog_reader.cc:135-142 | with exactly a header's room left, an item still reads the same from the next block, its first record now a Middle or Last one |
| BinlogCursor.RecordIsRead | src/pika_binlog_reader.cc:144-178 | a record is read as its type and payload and the cursor moves behind it |
| BinlogCursor.NoWholeRecord | src/pika_binlog_reader.cc:144-178 | what is read where no whole record stands: the end before a header is whole, a bad record for a length over 65528, an old one for type or length zero, and of a record that is cut off the part that is there |
| BinlogCursor.ReadsFragment | src/pika_binlog_reader.cc:135-178 | at an item or inside one, a physical read gives its next bytes and stands before the rest, or at its end |
| BinlogCursor.NextRecord | src/pika_binlog_reader.cc:97-121 | after a record that does not end an item the rest of the item stands right behind it |
| BinlogCursor.ItemDoesNotFade | src/pika_binlog_reader.cc:180-221 | where an item stands the reader does not see the end of the file |
| BinlogCursor.ZerosFade | src/pika_binlog_reader.cc:144-165 | where only zeros follow, or nothing, the reader sees the end of the file |
| BinlogReader.PikaBinlogReader.ReadToTheEnd | src/pika_binlog_reader.cc:30-36 | true exactly at the published position |
| BinlogReader.PikaBinlogReader.ReadPhysicalRecord | src/pika_binlog_reader.cc:135-178 | does to the cursor what the pure read says, for every file content |
| BinlogReader.PikaBinlogReader.Consume | src/pika_binlog_reader.cc:180-224 | from the start of an item gives the whole item and stands at its end, at the start of a file whatever is in the buffer; reports the end of a file exactly where the file fades |
| BinlogReader.PikaBinlogReader.Get | src/pika_binlog_reader.cc:226-266 | behind i published items gives item i+1 and its end position, rolling files as needed; with none left reports the end |
| BinlogReader.PikaBinlogReader.GetFrom | src/pika_binlog_reader.cc:233-263 | the loop over files ends, and finds the next published item |
| BinlogReader.PikaBinlogReader.GetNext | src/pika_binlog_reader.cc:84-133 | for every file content, the loop passes records up to the first that closes an item or is padding, and gives their size, or fails where something else comes first |
| BinlogReader.PassWhole | src/pika_binlog_reader.cc:84-133 | an item, or the rest of one, is passed over as a whole |
| BinlogReader.ScanReaches | src/pika_binlog_reader.cc:60-79 | where single closing records lead from the block's start to an offset, the scan lands exactly there |
| BinlogReader.ScanIntoItem | src/pika_binlog_reader.cc:60-79 | a scan for any offset behind the start of an item, up to its end, lands at its end |
| BinlogReader.PikaBinlogReader.ScanBlock | src/pika_binlog_reader.cc:61-80 | adding up sizes from the block's start stops at the first item end at or after the offset, or fails, for every file content |
| BinlogReader.PikaBinlogReader.Seek | src/pika_binlog_reader.cc:38-82 | for every offset, success and position are those of the scan; every position that was ever published is reached exactly, ready to read the items after it; a missing file is refused |
| BinlogReader.NextPosition | src/pika_binlog_reader.cc:233-263 | between items the cursor is at the next item, at the published end, or at the end of a file that another follows |
| BinlogRuns.PutAll | src/pika_binlog.cc:175-241 | every item of a run, each at its own time, is appended to the log in order |
| BinlogRuns.GetAll | src/pika_binlog_reader.cc:226-266 | repeated reads give exactly the remaining published items with their positions, and then the end |
| BinlogRuns.ReadFrom | src/pika_binlog_reader.cc:38-82 | seeking to a published position and reading gives exactly the items put after it |
| BinlogRuns.PositionChain | src/pika_binlog.cc:175-203 | the header of item i+1 holds the position where item i ended, and logic ids are consecutive |
| BinlogRuns.WriteThenRead | src/pika_binlog.cc:175-318 | for every list of contents and times and every file size, reading from the start gives them all in order, positions increase, and each is in the next item's header |
| BinlogRuns.TruncateThenRead | src/pika_binlog.cc:408-437 | after a truncation to a published position and more puts, the log is the prefix followed by these |
| BinlogRuns.PadThenRead | src/pika_binlog.cc:366-406 | after padding and more puts, seeking to the stored offset and reading gives exactly these |
| BinlogRuns.ShortPadSkips | src/pika_binlog.cc:320-323 | after padding to 4 to 7 bytes a seek to the stored offset lands behind the first item of the file |
| BinlogRuns.CrashRecovers | src/pika_binlog.cc:63-125 | whatever a crash leaves after the saved position, the saved version is loaded and the log is intact |
| BinlogRuns.PutWhileClean | src/pika_binlog.cc:175-241 | puts go on while rolls are clean; with zeros after the position they always are, and for one item exactly if this one is |
| BinlogRuns.CrashThenRead | src/pika_binlog.cc:63-125 | items put, any bytes left by a crash after the saved position, a reopening and more puts: everything is read back if the rolls are clean; zeros make them so, and for one more item the condition is on the saved position and the bytes after it |
| BinlogConcurrent.BeginPutKeeps | src/pika_binlog.cc:205-216 | deciding to roll, or starting on an item, keeps the invariant |
| BinlogConcurrent.CloseOldExact | src/pstd/src/env.cc:409-431 | closing the old file while the reader may be in it keeps the invariant if and only if it is cut or ends at the published position for the reader |
| BinlogConcurrent.PublishRollKeeps | src/pika_binlog.cc:220-228 | publishing the start of the next file keeps the invariant |
| BinlogConcurrent.EmitKeeps | src/pika_binlog.cc:243-275 | any number of further bytes of an unpublished item keeps the invariant |
| BinlogConcurrent.PublishKeeps | src/pika_binlog.cc:231-238 | publishing a whole item keeps the invariant |
| BinlogConcurrent.CrashKeeps | src/pika_binlog.cc:63-125 | a crash at any moment, with the unpublished bytes left behind and nothing mapped any more, keeps the invariant |
| BinlogConcurrent.CheckEndKeeps | src/pika_binlog_reader.cc:30-36 | the test for the end keeps the invariant, and at the published position everything has been delivered |
| BinlogConcurrent.ReadOneKeeps | src/pika_binlog_reader.cc:135-224 | a single physical read keeps the invariant |
| BinlogConcurrent.StepExact | src/pika_binlog_reader.cc:226-266 | every step of writer or reader keeps the invariant, but for the closing of a file that is not clean |
| BinlogConcurrent.RunExact | src/pika_binlog.cc:205-318 | the invariant holds all along an interleaving if and only if every file that it closes is clean |
| BinlogConcurrent.EmitWrites | src/pstd/src/env.cc:388-407 | byte by byte: what is written, what stood there before, and zeros where the file grew |
| BinlogConcurrent.FailsExactly | src/pika_binlog_reader.cc:206-260 | a step of the reader fails exactly at a record that is none, or at the end of a file that no other follows |
| BinlogConcurrent.RequestsKept | src/pika_binlog.cc:175-203 | along every clean run the published items are, in order, those that the actions asked for and published, with their contents and times and consecutive numbers, and the item in hand is the put in progress |
| BinlogConcurrent.NoTornReads | src/pika_binlog_reader.cc:226-266 | in every interleaving with clean rolls the reader delivers exactly a prefix of what the actions asked for and published, byte for byte and in order, never fails, and has all of it when it stands at the published position |
| BinlogConcurrent.QuietRunsNotTorn | src/pika_binlog.cc:205-318 | the same for any interleaving whose crashes find no part of an unpublished item written |
| BinlogConcurrent.CrashFreeRunsNotTorn | src/pika_binlog.cc:205-318 | the same for any interleaving without crashes |
| BinlogConcurrent.PutCompletes | src/pika_binlog.cc:175-241 | from every state with an idle writer the steps of a put publish exactly what was asked for as the next item, in the next file if the limit is passed |
| BinlogConcurrent.PutIsDelivered | src/pika_binlog_reader.cc:226-266 | a put and then the reader, each left alone: everything published before is delivered, and then what was asked for |
| BinlogConcurrent.CatchesUp | src/pika_binlog_reader.cc:226-266 | while the writer pauses in any state, the reader comes to have delivered all the published items |
| BinlogConcurrent.UncleanRollTears | src/pstd/src/env.cc:409-431 | from every state that is about to close a file that is not clean, some way on makes the reader fail or deliver what was never published |
| BinlogTrace.TwoCrashesTear | src/pstd/src/env.cc:409-431 | after two crashes and a roll the reader delivers the one published item and then one that was never put, by example |
| ZSet.OrderRank | src/pika_cache.cc:1252-1274 | the i-th member in order is the one of rank i, with its score |
| ZSet.RankInjective | src/pika_cache.cc:1252-1274 | ranks are distinct and follow the order of score and member |
| ZSetWindow.WindowRank | src/pika_cache.cc:1252-1274 | the rank in the database is the cached rank, shifted by what is missing in front for a window from the end |
| ZSetWindow.WindowOrder | src/pika_cache_load_thread.cc:133-169 | a window's order is a prefix or a suffix of the database's |
| ZSetWindow.RemoveMembersKeeps | src/pika_cache.cc:1276-1283 | removing members from both keeps the window |
| ZSetWindow.RemovalsExact | src/pika_cache.cc:1342-1349 | whatever members are lost to the database and gone from the cache, the window survives if and only if all lost ones that were cached are gone and none gone for nothing was ahead of one that stays |
| ZSetWindow.PopMinKeeps | src/pika_cache.cc:1505-1518 | popping the least from both keeps a window, in both directions |
| ZSetWindow.PopMaxKeeps | src/pika_cache.cc:1520-1533 | popping the greatest from both keeps a window, in both directions |
| ZSetWindow.PopMinOrder | src/pika_cache.cc:1505-1518 | popping the least takes the first members of the order, as many as there are |
| ZSetWindow.PopMaxOrder | src/pika_cache.cc:1520-1533 | popping the greatest takes the last members of the order, as many as there are |
| ZSetWindow.RestrictOrder | src/pika_cache.cc:1276-1283 | a part of a set has the order of the set |
| ZSetWindow.RemRankOrder | src/pika_cache.cc:1285-1340 | removing ranks cuts exactly these out of the order |
| ZSetWindow.TrimIsWindow | src/pika_cache.cc:881-899 | trimming leaves the cached end, of exactly the configured size if there are so many |
| ZSetSteps.TakeInKeeps | src/pika_cache.cc:815-874 | taking in new scores near the edge and leaving out those beyond it keeps the window if none is on the edge |
| ZSetSteps.ZAddKeeps | src/pika_cache.cc:785-879 | zadd keeps the window and its size if no new score is on the edge, or the empty bound cuts there |
| ZSetSteps.ZAddExact | src/pika_cache.cc:785-879 | for every zadd, the window is kept if and only if no new member on the edge that is not cut off has an uncached, unchanged member ahead of it |
| ZSetSteps.TakeInExact | src/pika_cache.cc:815-874 | a member stays, with its new score if it has one, exactly unless that score is beyond the edge or the bound of a score on the edge cuts it off |
| ZSetSteps.ZAddLeaves | src/pika_cache.cc:785-879 | zadd leaves, of the members that stay by their scores, the cached end, of exactly the configured size if there are so many |
| ZSetSteps.ReloadUnderHalf | src/pika_cache.cc:1030-1061 | a window is thrown away exactly if it is under half of what it could be |
| ZSetSteps.IncrementsAddUp | src/pika_zset.cc:165-200 | increments add up, from the score that the member has or from zero |
| ZSetSteps.ZIncrbyLeaves | src/pika_cache.cc:1063-1128 | a score nearer than the edge leaves the member cached with it, and all others but the farthest if there is one too many; any other takes exactly that member, and those on the edge if it is met, or throws a window under half away |
| ZSetSteps.LoadIsTrim | src/pika_cache_load_thread.cc:145-160 | loading takes exactly the configured number of members from the cached end |
| ZSetSteps.ZIncrbyKeeps | src/pika_cache.cc:1063-1128 | an increment of at least the tolerance, or of zero to a member that exists, keeps the window, whether the score moves in, out or onto the edge |
| ZSetSteps.SkippedIncrementExact | src/pika_cache.cc:1063-1077 | an increment that is skipped keeps the window if and only if the score of a cached member stays, or one that is not cached stays behind all cached ones |
| ZSetSteps.StepTakesRanks | src/pika_cache.cc:1295-1338 | for all indices and any number of deletions passed on, the cache loses exactly the ranks of a closed formula, or is dropped |
| ZSetSteps.RanksExact | src/pika_cache.cc:1285-1340 | after a removal of some ranks from the database and others from the cache the window is one if and only if all lost ranks are gone and none gone for nothing is ahead of one that stays |
| ZSetSteps.ZRemRankExact | src/pika_cache.cc:1285-1340 | for all indices and any number of deletions passed on, zremrangebyrank keeps the window if and only if the key is reloaded or the indices mean the same to the cache as to the database |
| ZSetSteps.ZRemRankKeeps | src/pika_cache.cc:1285-1340 | zremrangebyrank, told the true number of deletions, keeps the window for indices and lengths within 32 bits |
| ZSetSteps.EmptyRangeTakes | src/pika_zset.cc:1485-1490 | two empty bounds that read as a number take in that score alone |
| ZSetSteps.ZRemScoreExact | src/pika_zset.cc:1463-1490 | the database removes one range of scores and the cache whatever range it is handed, or none: the window survives if and only if the key is reloaded or the two agree on what is cached |
| ZSetSteps.ZRemLexExact | src/pika_zset.cc:1505-1533 | the same for lexicographic ranges, where the cache removes nothing unless it is as large as what is left in the database |
| ZSetSteps.LexBounds | src/pika_zset.cc:1133-1165 | a closed lexicographic bound takes itself in, an open one does not, and either takes in all that is beyond it |
| ZSetSteps.LexCases | src/pika_cache.cc:1493-1503 | handed the same lexicographic range, the cache is exact if and only if the size test passes or no cached member is in it; handed a range that is refused, only in the latter case |
| ZSetRuns.StepExact | src/pika_cache.cc:785-1533 | every operation, with whatever range, count or indices it hands the cache, keeps the window if and only if it is admissible |
| ZSetRuns.RunExact | src/pika_cache.cc:785-1533 | the cache is a window after every operation of a run if and only if each was admissible when it came |
| ZSetRuns.PlainOpsAdmissible | src/pika_cache.cc:785-1533 | operations are admissible without a score on the edge, without a tiny increment, with the same range of scores handed on, with no cached member in a lexicographic range, and with 32-bit indices and the true number of deletions |
| ZSetRuns.RunKeepsWindow | src/pika_cache.cc:785-1533 | after every admissible run of zadd, zincrby, zrem, zremrangebyscore, zremrangebylex, zremrangebyrank, zpopmin, zpopmax, stores and loads, the cache is a prefix or suffix of the database's order with equal scores |
| ZSetRuns.LoadFills | src/pika_cache_load_thread.cc:133-169 | a load fills an empty cache with the cached end, of exactly the configured size if there are so many, and leaves any other alone |
| ZSetRuns.RemovalLeaves | src/pika_zset.cc:735-755 | zrem leaves everything if it deletes nothing, and otherwise the cached members not named, unless they are under half of what the window could be |
| ZSetRuns.PopLeaves | src/pika_cache.cc:1505-1533 | the pops take exactly the first or last members of the cached order and of the database's; a negative count takes all that is cached and nothing from the database |
| ZSetRuns.DropEmpties | src/pika_zset.cc:841-848 | a store and a drop leave nothing cached |
| ZSetRuns.EdgeScoreBreaks | src/pika_cache.cc:826-874 | a new score equal to the cached extreme breaks the window, whether an empty bound is refused or read as zero, by example |
| ZSetRuns.TinyIncrementBreaks | src/pika_cache.cc:1064-1067 | an increment below the tolerance leaves an old score in the cache, by example |
| ZSetRuns.WideRankBreaks | src/pika_cache.cc:1302-1305 | an index beyond 32 bits is truncated and breaks the window, whatever number of deletions is passed on, by example |
| ZSetRuns.UnsetCountBreaks | src/pika_zset.cc:1443-1448 | with zero passed on as the number of deletions, removing the last member takes the first from the cache, by example |
| ZSetRuns.EmptyRangeBreaks | src/pika_zset.cc:1485-1490 | with two empty bounds handed on, refused or read as zero, zremrangebyscore leaves a removed member in the cache, by example |
| ZSetRuns.EmptyLexBreaks | src/pika_zset.cc:1528-1533 | the same for zremrangebylex, by example |
| ZSetRuns.LexRemovalBreaks | src/pika_cache.cc:1493-1503 | removing everything from a set that is cached in part leaves the cache behind, by example |
| ZSetReads.RangeHitExact | src/pika_cache.cc:1130-1157 | for all lengths and signed indices: an error exactly when the range of these indices in the database's order is empty, a hit exactly when all of it is cached, and then the translated slice is that range |
| ZSetReads.RevRangeHitExact | src/pika_cache.cc:1159-1192 | the same for reversed ranges |
| ZSetReads.RangeReadExact | src/pika_zset.cc:229-262 | on a hit ZRANGE answers as the database, which is asked with 32-bit indices, if and only if both forms of the indices name the same ranks |
| ZSetReads.RevRangeReadExact | src/pika_zset.cc:311-344 | the same for ZREVRANGE |
| ZSetReads.WideIndexReadBreaks | src/pika_zset.cc:232-262 | with a stop of 2^32 the cache answers with two members and the database with one, in both orders, by example |
| ZSetReads.ScoreHitExact | src/pika_cache.cc:938-1022 | for ZCOUNT and ZREVRANGEBYSCORE, which hand on the range as asked, a hit gives the database's members, count and limited slices for open and closed ranges; an error means that the database has none |
| ZSetReads.ScoreStatusExact | src/pika_cache.cc:938-995 | the status of a score range, exactly: a miss unless the far bound is nearer than the edge, or is the edge and open in a cache with room; then an error if it does not reach the near end, and else a hit; without a miss no set that the cache is a window of has an uncached match |
| ZSetReads.ScoreReadExact | src/pika_zset.cc:505-517 | on a hit of ZRANGEBYSCORE, whatever range the cache is then handed, the reply is the database's for every LIMIT if and only if the two ranges agree on the cached scores |
| ZSetReads.ClosedRangeExact | src/pika_zset.cc:513-514 | the range without its parentheses agrees with the one asked for if and only if no cached score is on an open bound |
| ZSetReads.OpenBoundReadBreaks | src/pika_zset.cc:513-517 | for the scores above 1 up to 2 the cache answers with the 1 as well, by example |
| ZSetReads.RankReadsExact | src/pika_cache.cc:1252-1274 | a rank or reverse rank is answered exactly for cached members, and then it is the database's |
| ZSetReads.EqualSizesMeanEqual | src/pika_cache.cc:1415-1425 | the size test passes exactly if the window is the whole of a set that exists, so that ZRANGEBYLEX and ZLEXCOUNT are asked of the same members |
| ZSetReads.RevLexReadExact | src/pika_zset.cc:1284-1330 | a cached ZREVRANGEBYLEX, which never looks at the offset, replies as the database if and only if the offset or the count is zero or nothing matches |
| ZSetReads.LexOffsetReadBreaks | src/pika_zset.cc:1311-1324 | asked for the second member from the end the cache answers with the last, by example |
| ZSetCache.FilterLast | src/pika_cache.cc:791-802 | keeps for each member its last score |
| ZSetCache.GetMinMaxScore | src/pika_cache.cc:749-762 | the least and greatest of the new scores, which occur among them |
| ZSetCache.GetCacheMinMax | src/pika_cache.cc:764-783 | the extreme scores of the cached members |
| ZSetCache.SplitAtEdge | src/pika_cache.cc:819-862 | splits the new scores at the edge and finds whether one is on it |
| ZSetCache.PikaCache.CleanCacheKeyIfNeeded | src/pika_cache.cc:881-899 | trims the window at its far end |
| ZSetCache.PikaCache.ZAddIfKeyExist | src/pika_cache.cc:785-879 | has the effect of the zadd step; an uncached key is left alone |
| ZSetCache.PikaCache.TakeInScores | src/pika_cache.cc:815-873 | has the effect of taking in new scores at the edge |
| ZSetCache.PikaCache.ReloadCacheKeyIfNeeded | src/pika_cache.cc:1030-1061 | drops the key exactly when the window is under half of what it could be |
| ZSetCache.PikaCache.ZIncrbyIfKeyExist | src/pika_cache.cc:1063-1128 | has the effect of the zincrby step |
| ZSetCache.PikaCache.ZRem | src/pika_cache.cc:1276-1283 | removes the members and reloads if needed |
| ZSetCache.PikaCache.ZRemrangebyscore | src/pika_cache.cc:1342-1349 | removes the scores it is handed, if they are not refused, and reloads if needed either way |
| ZSetCache.PikaCache.CacheSizeEqsDB | src/pika_cache.cc:1415-1425 | true exactly if the cache is not empty and as large as the database |
| ZSetCache.PikaCache.ZRemrangebylex | src/pika_cache.cc:1493-1503 | has the effect of the zremrangebylex step |
| ZSetCache.PikaCache.ZRemrangebyrank | src/pika_cache.cc:1285-1340 | has the effect of the zremrangebyrank step |
| ZSetCache.PikaCache.ZPopMin | src/pika_cache.cc:1505-1518 | takes the first members of the cached order, and all for a negative count; not found exactly for an uncached key |
| ZSetCache.PikaCache.ZPopMax | src/pika_cache.cc:1520-1533 | takes the last members of the cached order, and all for a negative count; not found exactly for an uncached key |
| ZSetCache.PikaCache.LoadZset | src/pika_cache_load_thread.cc:133-169 | loads nothing for a missing or oversized key, drops an expired one, and otherwise writes the window unless one is cached |
| ZSetCache.UpdateScores | src/pika_zset.cc:55-60 | after zadd and zincrby the cache's methods leave what the step of the runs says |
| ZSetCache.UpdateRemoved | src/pika_zset.cc:750-755 | the same after the removals; zrem leaves the cache alone if nothing was deleted |
| ZSetCache.UpdatePopped | src/pika_zset.cc:1577-1611 | the same after the pops |
| ZSetCache.UpdateWhole | src/pika_cache_load_thread.cc:133-169 | the same after stores, loads and drops |
| ZSetCache.Execute | src/pika_cache.cc:785-1533 | the methods of the cache beside the database's own operations are the steps of the runs |
| CacheLoadThread.PikaCacheLoadThread.Push | src/pika_cache_load_thread.cc:36-55 | appends a task unless the queue is over its limit or the key is already waiting or in work |
| CacheLoadThread.PikaCacheLoadThread.TakeBatch | src/pika_cache_load_thread.cc:206-211 | takes tasks from the front in order, at most the batch size |
| CacheLoadThread.PikaCacheLoadThread.FinishOne | src/pika_cache_load_thread.cc:213-220 | a finished key is neither waiting nor in work, so that it can be pushed again |
| Acl.RuleDecides | src/acl.cc:945-1027 | an accepted rule settles the commands it covers and leaves all others as they were |
| Acl.CategoryDecides | src/acl.cc:1046-1060 | a category rule settles exactly the commands of the category |
| Acl.AllDecides | src/acl.cc:1062-1078 | +@all permits and -@all forbids everything |
| Acl.ChangeDecides | src/acl.cc:1103-1116 | a command rule settles the command with all its subcommands |
| Acl.ChangeSubDecides | src/acl.cc:1120-1146 | a subcommand rule settles that subcommand alone |
| Acl.CommandRuleDecides | src/acl.cc:1290-1320 | a rule for a command, or for one of its subcommands, settles what it names |
| Acl.RuleSound | src/acl.cc:945-1027 | every accepted rule keeps the fast-path flags sound |
| Acl.ReachableSound | src/acl.cc:945-1146 | in every reachable selector ALL_COMMANDS means every bit and mask, ALL_KEYS no key patterns, ALL_CHANNELS no channels |
| Acl.LastRuleWins | src/acl.cc:1229-1241 | from any sound selector, after any accepted rules, a command or subcommand that needs permission passes the test if and only if the last rule covering it allows it, or none covers it and it passed before |
| Acl.AclSelector.ChangeSelector | src/acl.cc:1103-1116 | changes one command's bit, its masks and the fast-path flag |
| Acl.AclSelector.ChangeSubCommand | src/acl.cc:1120-1146 | changes one subcommand's bit; an unknown name is refused |
| Acl.AclSelector.ChangeAllInCategory | src/acl.cc:1046-1060 | the loop over the command table changes exactly the commands of the category |
| Acl.AclSelector.SetAllCommandSelector | src/acl.cc:1062-1071 | the loop over the command table sets every mask |
| Acl.AclSelector.InsertKeyPattern | src/acl.cc:1080-1092 | the search merges the permissions of a listed pattern, or appends it |
| Acl.AclSelector.SetCommandOp | src/acl.cc:1290-1320 | applies a command rule, or refuses it and changes nothing |
| Acl.AclSelector.SetKeyOp | src/acl.cc:962-994 | parses the permissions of a key rule and inserts it, or refuses it and changes nothing |
| Acl.AclSelector.SetChannelOp | src/acl.cc:995-1005 | inserts a channel, or refuses it and changes nothing |
| Acl.AclSelector.SetSelector | src/acl.cc:945-1027 | applies one rule of any kind, or refuses it and changes nothing |
| Acl.AllFlags | src/acl.cc:1062-1078 | the fast-path flag is set and cleared with all commands |
| AclText.LowerLetters | src/acl.cc:1290-1292 | lower case changes the 26 letters and nothing else |
| AclText.SpaceCharacters | src/acl.cc:987-989 | the six characters that count as space |
| AclText.SplitPair | src/acl.cc:1301-1309 | a text splits into two pieces at its bars exactly if it is the two with bars between them, and maybe around them |
| AclText.SaysExact | src/acl.cc:945-1027 | for every text and every target: whether the parser's rule covers it, and allows or forbids it, is what the characters of the text say |
| AclText.AllTexts | src/acl.cc:957-960 | +@all and allcommands allow everything, -@all and nocommands forbid it |
| AclText.CommandTexts | src/acl.cc:1006-1017 | a plus before the name of a command allows that command alone, a minus forbids it |
| AclText.CategoryTexts | src/acl.cc:1018-1022 | a plus and the mark before the name of a category allow its commands alone, a minus forbids them |
| AclText.SubcommandTexts | src/acl.cc:1301-1317 | a sign before a name, a bar and a subcommand covers the first subcommand of that name alone |
| AclText.LastSaysExact | src/acl.cc:945-1241 | what the last covering rule says is that some text allows the target and none after it forbids it |
| AclText.RulesThenCheck | src/acl.cc:945-1241 | a new selector given rules accepts them exactly if each is accepted, and then its command test passes exactly if some text allows the target and none after it forbids it |
| AclText.KeyRuleExact | src/acl.cc:962-994 | a key rule is accepted exactly for a text of keys while not all keys are allowed, and adds the pattern with the permissions that its letters say |
| AclText.InsertMeans | src/acl.cc:1080-1092 | inserting a pattern adds exactly its permissions to its text |
| AclText.LastKeyTextWins | src/acl.cc:945-1005 | what a selector holds about keys and channels after accepted texts is what some text gave and none after it took away, and what it began with unless some text took that away |
| AclText.AcceptedExact | src/acl.cc:945-1027 | the parser accepts exactly the texts of these forms |
| AclUser.LastUserRuleWins | src/acl.cc:62-107 | after any accepted rules a user is on, needs no password, or has a password exactly if some rule made it so and none after it ended that |
| AclUser.UserAcceptedExact | src/acl.cc:62-151 | which texts are accepted as rules of a user |
| AclUser.ResetClears | src/acl.cc:111-137 | after reset a user with a root selector is off and has no passwords, and that selector is as good as new |
| AclUser.UserStaysOk | src/acl.cc:62-151 | after any rules from a new user, accepted or refused on the way, exactly one of on and off holds, nopass means no passwords, and every selector is sound |
| AclUser.SetOneKeeps | src/acl.cc:62-151 | a single rule keeps a user consistent |
| AclUser.SetEachSplits | src/acl.cc:48-60 | a list of rules is its first part, and then the second unless the first was refused |
| AclUser.SelectorsMade | src/acl.cc:62-151 | after accepted rules every selector is what its own list of rules makes of a fresh one; root rules go to the root selector alone |
| AclUser.UserLastRuleWins | src/acl.cc:260-280 | after any accepted rules a user passes for a command or subcommand if and only if all selectors were cleared, or in some selector's own list some text allows it, none after it forbids it, and that selector passes the other tests |
| AclUser.ClearedUserPasses | src/acl.cc:108-110 | after any accepted rules followed by clearselectors, every command passes |
| AclUser.User.CheckUserPermission | src/acl.cc:260-280 | the loop grants exactly if the subcommand is known and the user has no selectors or one of them passes |
| AclUser.User.SetRule | src/acl.cc:62-151 | one rule other than reset, in place |
| AclUser.User.SetRules | src/acl.cc:48-60 | the loop stops at the first rule that is refused and keeps what was done before |
| AclUser.User.Set | src/acl.cc:48-151 | the rules of a command, with reset replaced by its own rules |
| Geohash.DeinterleaveInvertsInterleave | src/pika_geohash.cc:52-108 | both coordinates are given back, for all pairs of 32-bit words |
| Geohash.InterleavedBits | src/pika_geohash.cc:52-79 | bit i of the first coordinate is bit 2i of the hash, and of the second bit 2i+1 |
| Geohash.CoordinatesDetermine | src/pika_geohash.cc:81-108 | two hashes with the same coordinates are equal |
| Geohash.MoveXMoves | src/pika_geohash.cc:214-233 | the carry through the other coordinate's bits adds or subtracts one modulo 2^step on x and leaves y |
| Geohash.MoveYMoves | src/pika_geohash.cc:235-252 | the same on y, leaving x |
| Geohash.MovesAreInverse | src/pika_geohash.cc:214-252 | east and west, and north and south, undo each other for every hash within 2*step bits |
| Geohash.MovesCommute | src/pika_geohash.cc:254-287 | a diagonal neighbour is the same in either order of moves |
| Geohash.GeoHashBits.MoveX | src/pika_geohash.cc:214-233 | moves the bits in place |
| Geohash.GeoHashBits.MoveY | src/pika_geohash.cc:235-252 | moves the bits in place |
| Geohash.GeohashNeighbors | src/pika_geohash.cc:254-287 | the coordinates of each of the eight neighbours are one step off in the right direction |
| GeohashArea.NumberOfWord | src/pika_geohash.cc:144-146 | a number cut to a word is the number modulo 2^32 |
| GeohashArea.MoveXNumbers | src/pika_geohash.cc:214-233 | as numbers, a move along x adds d to the column modulo 2^step and keeps the row |
| GeohashArea.MoveYNumbers | src/pika_geohash.cc:235-252 | as numbers, a move along y adds d to the row modulo 2^step and keeps the column |
| GeohashArea.Encode | src/pika_geohash.cc:119-148 | a hash exactly for a step of 1 to 32, nonzero ranges, and a point within the limits and the ranges |
| GeohashArea.Decode | src/pika_geohash.cc:160-185 | an area exactly for a nonzero hash and nonzero ranges |
| GeohashArea.CellHoldsPoint | src/pika_geohash.cc:119-185 | decoding the hash of a point gives a cell that holds it if and only if the cell is not the last of 2^32 or past it; for steps up to 31 it always does |
| GeohashArea.CentreIsNear | src/pika_geohash.cc:195-202 | the cell is the range divided by 2^step wide and its centre is within half a cell of the point |
| GeohashArea.LastCellBreaks | src/pika_geohash.cc:160-185 | with 32 steps, a point half a cell from the eastern edge of the world is not in its own cell, whose end wraps |
| GeohashArea.EastAdjoins | src/pika_geohash.cc:214-233 | the decoded eastern cell begins where this one ends, in the same row, and the last column is followed by the first |
| GeohashArea.NorthAdjoins | src/pika_geohash.cc:235-252 | the decoded northern cell begins where this one ends, in the same column, and the last row is followed by the first |
| RsyncReader.RsyncReader.Fill | include/rsync_server.h:140-157 | short reads are continued until the block is full, and the buffer is never overrun |
| RsyncReader.RsyncReader.ReadAhead | include/rsync_server.h:122-159 | the buffer holds the block of the offset, or nothing after a failure |
| RsyncReader.RsyncReader.Reset | include/rsync_server.h:160-169 | nothing is open, the buffer is zeroed and empty, and the size is unset |
| RsyncReader.RsyncReader.Read | include/rsync_server.h:105-120 | the bytes are the file's slice at the offset, as far as the block goes, and the end is reported exactly when the slice reaches it; it fails only for a file that is not there or a read that fails |
| RsyncReader.CopyFile | include/rsync_server.h:105-169 | reading on from where the last slice ended copies the whole file, and succeeds for every file if no read fails |

## Left out

- Binlog I/O: failing writes, flushing, sleeping and the deletion of old files; an append succeeds, and how far the mapping goes beyond it is arbitrary.
- Binlog widths: file numbers, offsets and logic ids are unbounded, so that wrap-around after 2^32 files or 2^64 items, and the `int` of the running offset and the item length, are not modelled; the manifest and header round trips state the widths.
- BinlogReader.PikaBinlogReader.Get: what it returns after a failure other than the end of a file is modelled as the code has it, but nothing is promised for logs that the writer did not produce.
- BinlogReader.PikaBinlogReader: a file that is deleted or replaced while the reader holds it open is read by its number, not by its handle.
- BinlogRuns.PadThenRead: requested offsets of 4 to 7 are left out by a precondition, since SetProducerStatus does not leave a valid log for them.
- BinlogTransverter.ConstructPaddingBinlog: sizes below 61 and above a block less a header are left to the source's own assertions.
- Zset primitives: the ordered-set operations of the cache server are taken in their intended meaning; src/cache/src/zset.cc:504 counts an unsigned index down to zero in ZPopMax. What src/pika_zset.cc hands the cache without assigning it, the bounds of zremrangebyscore and zremrangebylex and the number of deletions of zremrangebyrank, is a parameter, and every value is covered.
- Lexicographic ranges: members in a range are taken in the order of the members; a cache server keeps that order only among equal scores.
- Floating point: scores and coordinates are exact reals; the rounding of `std::to_string` is not computed, but `ScoreReadExact` covers every range that it could hand on.
- ZSetRuns.RunKeepsWindow: operations on database and cache are atomic pairs on one key; their interleaving between clients is not modelled.
- CacheLoadThread: the duplicate filter is keyed by the key's name alone, as in the source; the loading of other types is left out.
- String, hash, list and set operations of PikaCache, which only pass through to the cache server.
- AclUser.User: its selectors are values, each changed by the function that the methods of AclSelector are proved to compute; the lock and the cached description are left out.
- Acl key and channel tests with their glob matching, which are an arbitrary test of the selector in `UserLastRuleWins`; password digests, and the description and reloading of rules.
- Acl command table: numbers are distinct and below 1024 and a command has at most 32 subcommands.
- GeohashArea.Encode: the conversion of 2^32 to a 32-bit word, which C++ leaves undefined, is taken modulo 2^32; a point on a range whose ends are equal and not zero, where the code divides by zero, is left out.
- Geohash steps other than 1 to 32 in the moves, where the shift of the source is undefined.
- RsyncReader.RsyncReader.Read: nothing is promised about the bytes when it fails, and offsets past the end of a file are left out.
- Consensus, replication, transactions, slot migration, configuration, networking and command plumbing.
