# Redis 2.6.16: models and proofs

This project models the data structures, codecs and protocols of Redis 2.6.16 that are hard to
get right by reading them, and proves what they are for. Each component is one or two Dafny
modules:

- `Lzf`: the LZF compressor (VERY_FAST configuration, uninitialised hash table) and decompressor.
- `DictTable`, `DictMap`, `Dict`, `DictRun`, `DictIterator`: the incrementally rehashed
  dictionary, whole runs of it against a plain map, its load bound, and safe iterators.
- `Decimal`, `Multibulk`, `RequestParser`: decimal numbers, the request format, and the parser
  that survives any split of the input.
- `ReplyCells`, `ReplySizes`, `Replies`: the reply queue with its static buffer, list, deferred
  lengths and short writes.
- `AofFormat`, `AofBuffer`, `AofReplay`, `AofKeyspace`, `AofServer`: the append only file, its printer
  and loader, what its commands do to strings with deadlines, and the background rewrite protocol.
- `Pqsort`: the partial quicksort.
- `RdbForm`, `Rdb`, `Rio`: stored strings and streams.
- `Folding`, `Crc64Table`, `Crc64`, `ChecksummedStream`, `Dump`: CRC-64, running checksums and
  DUMP payloads.
- `Admission`, `WatchIndex`, `WatchHistory`, `WatchSpec`, `WatchTouches`, `Watch`: the checks of
  `processCommand`, WATCH, MULTI and EXEC; `WatchSpec` says what a run of events means, and
  `WatchTouches` what makes an EXEC fail, in terms of the commands alone.
- `PortPlaces`, `EventPort`: the event loop over Solaris event ports.
- `IntsetLayout`, `Intset`: sets of integers in one block of bytes.
- `BioSchedule`, `Bio`: the background job queue.
- `Popcount`, `Bitop`: counting bits and BITOP.

`Bytes`, `CTypes` and `Sequences` hold octets, the conversions between C's integer types, and a law of
sequences.

Code that changes state is modelled by classes whose methods change the same fields; each method
is tied to a specification on values, and the properties are proved of that specification. What
system calls return, what uninitialised memory holds and how threads interleave are arguments or
arbitrary. `dafny verify dfyconfig.toml` checks the whole project.

## Where code and documentation differ

- `lzf.h:58` promises less than 104 % of the input for incompressible data. The code gives L plus one
  byte for each 32 or part of them: `Lzf.KeepsPromise` proves the promise for every length where that
  is enough, `Lzf.BreaksPromise` gives an input for every other length (two bytes become three), and
  `Lzf.WhereItFails` lists those.
- `rdb.c:102` compares the result of a write with -4, so a failure to write a 32-bit length is not
  reported: `Rdb.UnreportedFailure`, `Rdb.UnreportedString` and `Rdb.UnreportedPacked` show it for every
  length from 2^14 up, compressed or not, and `Rdb.SaveLen` and `Rdb.SaveRawString` show that below
  that every failure is reported.
- The counts that `rdb.c` returns are `int`: `Rdb.SaveThenLoad` states that they are right exactly when
  an `int` holds them. A compressed form longer than that is followed by the verbatim form.
- `rdbLoadLen` (`rdb.c:111-135`) cannot tell the length 2^32 - 1 from an error;
  `RdbForm.VerbatimRoundTrip` gives the exact condition.
- The header of `crc64.c` says Xor_In is all ones. The code starts from the value the caller gives, and
  every caller gives 0; the header's own check value needs that (`Crc64.CheckNeedsZero`).
- `dict.c:209` keeps a count in an `int`, so that `dictResize` refuses from 2^31 entries on
  (`Dict.Dictionary.Resize`).
- `multi.c:79-80` wants every error while queueing to make EXEC fail. Three of the ten refusals of
  `processCommand` (`redis.c:1827-1864`: read-only slave, Pub/Sub mode, loading) do not mark the
  transaction, nor do WATCH and MULTI inside MULTI: `WatchSpec.SlaveDropsWrite` is a run where EXEC
  silently runs without a refused command, `Admission.UnmarkedExactly` gives the guards, and
  `WatchSpec.ErrorsIgnoredExactly` and `WatchSpec.TransactionIsWhole` say exactly when errors are
  ignored and when commands are missing.
- `aof.c:350-353` wants every time in the append only file to be absolute. SET with EX or PX is fed as
  the client sent it (`aof.c:397-419`), so its time to live starts again when the file is loaded:
  `AofKeyspace.SetExTenMoves` is such a run, `AofKeyspace.SetWithDeadlineExactly` gives the exact
  condition, and `AofKeyspace.StringsFaithful` shows that the other commands keep their deadlines.
- `ae.c:105` accepts an empty mask; `EventPort.EventLoop.CreateFileEvent` states that the
  invariant survives exactly when the resulting mask is not empty.
- `networking.c:928` measures the untrimmed buffer. The parser is safe because a big argument
  empties the buffer and reads are cut to its size; the proof carries that bound.
- A corrupt dump that announces an empty compressed block makes the decompressor read past it:
  `RdbForm.OverreadExample` is one, and `RdbForm.OverreadExactly` says for which inputs it happens.

## Model

| member | source | states |
|---|---|---|
| `Lzf.Decompress` | redis-2.6.16/src/lzf_d.c:56-149 | On every non-empty input and every output size the decompressor returns exactly what the stream means (`Unpack`, defined without reference to the code), with the same error: E2BIG when the output would overflow, EINVAL when the input is cut short or refers before the output. |
| `Lzf.StepReference` | redis-2.6.16/src/lzf_d.c:94-144 | One back reference, overlapping or not, takes the stream and the output to a state of the same meaning. |
| `Lzf.StepLiteral` | redis-2.6.16/src/lzf_d.c:68-93 | One literal run does the same. |
| `Lzf.CopyReference` | redis-2.6.16/src/lzf_d.c:137-142 | The byte-by-byte copy, which may read what it has just written, repeats the bytes at the given distance. |
| `Lzf.Compress` | redis-2.6.16/src/lzf_c.c:98-294 | For every input (not of one byte), every content of the uninitialised hash table and every output size: the result fits in out_len, no write leaves the out_len + 1 bytes allocated, and a non-zero result unpacks to exactly the input. For L input bytes the result is at most L plus one byte for each 32 bytes or part of them, exactly that when no byte occurs twice, and non-zero whenever out_len is at least L + L/32 + 4. For L equal bytes and enough room it is exactly `Lzf.ConstantSize`, about 3 bytes for each 264. |
| `Lzf.MatchLength` | redis-2.6.16/src/lzf_c.c:169-209 | The unrolled loop and its tail return a length of 3 to 264 over which both positions agree and which ends inside the input, and which is the greatest up to the limit: it stops only there or at a byte that differs. |
| `Lzf.Exchange` | redis-2.6.16/src/lzf_c.c:145-149 | The slot, which only the three bytes decide, gives the position it held and takes the new one; the running hash stays that of the position. |
| `Lzf.Reinsert` | redis-2.6.16/src/lzf_c.c:231-247 | After a match the two positions before the current one are entered in their slots. |
| `Lzf.RollingHash` | redis-2.6.16/src/lzf_c.c:48-57 | The slot depends on the last three bytes only, however many went before. |
| `Lzf.ConstantShrinks` | redis-2.6.16/src/lzf_c.c:98-294 | Equal bytes become at most 3 bytes for each 264, and 9; a hundred become 9. |
| `Lzf.HundredAs` | redis-2.6.16/src/lzf_c.c:85-93 | The nine bytes 01 61 61 E0 57 00 01 61 61 mean a hundred times 'a'. |
| `Lzf.StreamExamples` | redis-2.6.16/src/lzf_d.c:56-149 | A short reference, and streams that are refused with EINVAL and with E2BIG. |
| `Lzf.TestMatch` | redis-2.6.16/src/lzf_c.c:151-166 | Whatever address the table held, a match is found if and only if that is an earlier position of the input (not the first) at most 8192 back, four more bytes follow, and the three bytes agree. |
| `Lzf.PutMatch` | redis-2.6.16/src/lzf_c.c:167-227 | Ending the literal run, measuring the match and packing length and offset keep the written stream equal in meaning to the input so far. |
| `Lzf.PutLiteral` | redis-2.6.16/src/lzf_c.c:262-273 | Copying one literal, and closing a full run of 32, keeps the run header patched in afterwards correct. |
| `Lzf.Finish` | redis-2.6.16/src/lzf_c.c:276-293 | The last bytes and the final header complete a stream whose meaning is the whole input. |
| `Lzf.UnpacksReference` | redis-2.6.16/src/lzf_c.c:211-224 | A packed back reference appended to a stream appends the matching bytes to its meaning. |
| `Lzf.UnpacksRun` | redis-2.6.16/src/lzf_c.c:268-272 | A literal run with its length byte appends its bytes. |
| `Lzf.KeepsPromise` | redis-2.6.16/src/lzf.h:56-58 | The promise of less than 104 % holds for every input and every table at each length L with 25 * ceil(L/32) < L. |
| `Lzf.BreaksPromise` | redis-2.6.16/src/lzf.h:56-58 | At every other length from 2 up there is an input that breaks it; the bytes 0 and 1 become three. |
| `Lzf.WhereItFails` | redis-2.6.16/src/lzf.h:56-58 | Those other lengths are 2 to 25, 33 to 50, 65 to 75 and 97 to 100. |
| `Dict.NextPower` | redis-2.6.16/src/dict.c:779-789 | The smallest power of two that is at least the size and at least 4, or LONG_MAX. |
| `Dict.Dictionary.Expand` | redis-2.6.16/src/dict.c:219-247 | Refused exactly while rehashing or when the entries would not fit; the contents never change; the first table is used at once, a later one starts a rehash at bucket 0. |
| `Dict.Dictionary.RehashOne` | redis-2.6.16/src/dict.c:253-296 | One step moves one non-empty bucket: the map is unchanged, the counts stay exact, the scan for a non-empty bucket stays in bounds, and entries plus non-empty old buckets fall by one. |
| `Dict.Dictionary.MigrateBucket` | redis-2.6.16/src/dict.c:276-292 | Moving a whole chain entry by entry preserves the map and both counts. |
| `Dict.Dictionary.Rehash` | redis-2.6.16/src/dict.c:253-296 | n steps preserve the map; the result tells whether any bucket is left. |
| `Dict.Dictionary.RehashStep` | redis-2.6.16/src/dict.c:326-328 | Does nothing at all while an iterator is active; otherwise one step. |
| `Dict.Dictionary.ExpandIfNeeded` | redis-2.6.16/src/dict.c:755-776 | Starts a rehash exactly when the table is full and resizing is enabled or more than five entries share a bucket on average; with resizing enabled it leaves room in the table that is being filled. |
| `Dict.Dictionary.KeyIndex` | redis-2.6.16/src/dict.c:797-819 | -1 exactly for a present key; otherwise the bucket in the table that new entries go to. |
| `Dict.Dictionary.Add` | redis-2.6.16/src/dict.c:331-416 | In every state, mid-rehash included, fails exactly for a present key and otherwise adds the pair to the map; the load bound is kept. |
| `Dict.Dictionary.FindEntry` | redis-2.6.16/src/dict.c:535-599 | Finds an entry exactly for the keys of the map, and that entry holds the mapped value. |
| `Dict.Dictionary.FetchValue` | redis-2.6.16/src/dict.c:601-607 | The value the map gives, or nothing. |
| `Dict.Dictionary.Replace` | redis-2.6.16/src/dict.c:422-441 | Afterwards the key maps to the new value; reports whether it was new. |
| `Dict.Dictionary.Delete` | redis-2.6.16/src/dict.c:456-495 | Succeeds exactly for a present key and removes that key only; with an iterator active nothing else moves. |
| `Dict.Dictionary.Resize` | redis-2.6.16/src/dict.c:207-216 | Changes no contents; refused exactly when disabled, while rehashing, or with 2^31 or more entries, which the count kept in an `int` does not hold; otherwise moves to the smallest power of two that holds all entries. |
| `DictRun.Run` | redis-2.6.16/src/dict.c:219-599 | Every run of adds, replaces, finds, deletes, rehashes, resizes and expansions, from any valid state, gives the answers and the final contents of a plain map; a run of ordinary operations with no iterator keeps used0 + used1 + non-empty old buckets at most ht[1].size + 1 while rehashing and used at most size + 1 otherwise. |
| `DictMap.MoveHead` | redis-2.6.16/src/dict.c:277-289 | Moving one entry from the old table to its place in the new one leaves the represented map unchanged. |
| `DictMap.EntriesEnumerateMap` | redis-2.6.16/src/dict.c:667-700 | The entries of both tables, in walking order, enumerate the map once each. |
| `DictTable.ScanInBounds` | redis-2.6.16/src/dict.c:273-275 | While entries remain and the buckets before the index are empty, the index is inside the table. |
| `DictIterator.SafeIterator.Next` | redis-2.6.16/src/dict.c:667-700 | Returns the first of the entries still to be returned and leaves the others; the first call announces the iterator. |
| `DictIterator.Interfere` | redis-2.6.16/src/dict.c:456-491 | Finds of any keys and a delete of the entry just returned change nothing about the entries still to be returned. |
| `DictIterator.VisitAll` | redis-2.6.16/src/dict.c:660-711 | From any valid state, mid-rehash included, a safe iteration with finds and deletes of the entry just returned in between visits every entry present at its start exactly once. |
| `Decimal.LongLongToString` | redis-2.6.16/src/util.c:220-239 | Prints the canonical decimal of the number. |
| `Decimal.StringToLongLong` | redis-2.6.16/src/util.c:244-305 | Accepts exactly the canonical decimals of the 64-bit signed integers, and returns that integer. |
| `Decimal.PrintInjective` | redis-2.6.16/src/util.c:220-239 | Different numbers have different decimals. |
| `RequestParser.Client.ReadCount` | redis-2.6.16/src/networking.c:881-920 | On a prefix of a well-formed stream the count line is read whole or left untouched, never rejected. On any input it fails exactly on a whole line that is no canonical number up to 1024 * 1024, with that error. |
| `RequestParser.Client.ScanLength` | redis-2.6.16/src/networking.c:926-952 | Classifies the length line exactly: none yet, half, not a bulk length, not a number in range, or the number it prints. |
| `RequestParser.Client.ReadBulkLength` | redis-2.6.16/src/networking.c:925-971 | With at most 64 KB in the untrimmed buffer a length line of a well-formed stream is never rejected; a big argument moves to the start of the buffer. On any input it fails exactly on a whole line without '$' or whose length is no canonical number from 0 to 512 MB, with that error. |
| `RequestParser.Client.ReadArgument` | redis-2.6.16/src/networking.c:974-999 | Takes the argument exactly when all of it and its line end are there, by copy or by taking over the buffer, with the same result. |
| `RequestParser.Client.ProcessMultibulkBuffer` | redis-2.6.16/src/networking.c:876-1010 | On a prefix of a well-formed stream: either the next argument vector, exactly, with the rest of the stream in the buffer, or a state that still owes the same requests and cannot go on without more bytes; never a protocol error. |
| `RequestParser.Client.ProcessInputBuffer` | redis-2.6.16/src/networking.c:1012-1049 | Executes the requests that are complete, in order, and stops only for lack of bytes. A bad count line closes the client after the reply and runs nothing. |
| `RequestParser.Client.ReadQuery` | redis-2.6.16/src/networking.c:1051-1131 | A read no longer than the computed readlen keeps the client, the order and the bound on the buffer that the 64 KB test needs. |
| `RequestParser.NothingLeft` | redis-2.6.16/src/networking.c:876-1010 | When the stream is used up, a parser that cannot go on has nothing buffered and owes nothing. |
| `RequestParser.Serve` | redis-2.6.16/src/networking.c:876-1131 | For every stream of acceptable requests and every way of splitting it into reads of at most the asked length, no protocol error occurs, nothing is left over, and what is executed is the non-empty requests, each once and in order; all requests when none is empty. |
| `RequestParser.RunsPlaces` | redis-2.6.16/src/networking.c:1040-1048 | The requests run are those at an increasing list of places that holds exactly the places of the non-empty ones. |
| `RequestParser.InlineWords` | redis-2.6.16/src/networking.c:841-860 | Non-empty words without blanks, joined by blanks, are split into those words. |
| `RequestParser.LineEnds` | redis-2.6.16/src/networking.c:824-839 | A line without CR and NUL ends at its CRLF. |
| `Multibulk.OnTheWire` | redis-2.6.16/src/networking.c:876-1001 | The bytes of a PING request, and the length line of an argument of ten bytes. |
| `Replies.Client.AddToBuffer` | redis-2.6.16/src/networking.c:162-177 | Refused exactly when the client is not marked close-after-reply and the list is in use or the text does not fit; otherwise the text follows everything added before. A client marked close-after-reply takes nothing and reports success. |
| `Replies.Client.AddToList` | redis-2.6.16/src/networking.c:179-270 | Glued to the last node or in a new one, the text follows everything added before. |
| `Replies.Client.AddReply` | redis-2.6.16/src/networking.c:277-353 | The bytes go to the end of the reply stream whichever of the two places takes them. |
| `Replies.Client.AddReplyInt` | redis-2.6.16/src/networking.c:312-328 | The shortcut for integers and the ordinary path add the same decimal. |
| `Replies.Client.AddDeferred` | redis-2.6.16/src/networking.c:402-409 | Keeps a fresh place at the end of the stream. |
| `Replies.Client.SetDeferred` | redis-2.6.16/src/networking.c:412-435 | Puts "*<n>\r\n" at exactly the kept place, glued to the next string or not, and moves nothing else. |
| `Replies.Client.SentFromBuffer` | redis-2.6.16/src/networking.c:738-754 | A short write from the static buffer moves its bytes to the wire and conserves the stream. |
| `Replies.Client.SentFromList` | redis-2.6.16/src/networking.c:756-781 | A short write from the first node does the same. |
| `Replies.Client.Send` | redis-2.6.16/src/networking.c:729-812 | Each write takes the lesser of what write() returns and what it is offered, and exactly that leaves the queue (`ReplySizes.AfterWrites`, `ReplySizes.Moved`); sending stops early only when a write takes nothing or 64 KB are passed, and with room for everything and no limit all is sent. For a master no write is made and the replies are dropped. The client is freed exactly when a write failed for good, or when all is sent and it was to be closed. |
| `ReplySizes.MovedIsReturned` | redis-2.6.16/src/networking.c:737-793 | Never more moves than write() returns in all, and exactly that if and only if no write returns more than it was offered. |
| `ReplySizes.MovedIsGone` | redis-2.6.16/src/networking.c:737-793 | What has moved and what is left are together what there was. |
| `Replies.RunAndFlush` | redis-2.6.16/src/networking.c:144-812 | After any run without a fatal write error and with no length outstanding, one writable event with room for everything leaves exactly the replies, in order, on the socket. |
| `Replies.Run` | redis-2.6.16/src/networking.c:144-435 | Over every run of replies, integers, deferred lengths and short writes, for a master or any other client, up to a write that fails for good: bytes taken from the queue, then the unsent static buffer, then the unsent list are all replies in the order added, each length at its reserved place. No more bytes leave the queue than write() returned in the run. |
| `Replies.DeferredInPlace` | redis-2.6.16/src/networking.c:400-435 | A deferred length followed by its items comes out as the length line and the items, after everything added before. |
| `Replies.LengthThenItems` | redis-2.6.16/src/networking.c:400-435 | A deferred length and as many bulks are read back as those items by the parser of argument vectors. |
| `ReplyCells.FillReserved` | redis-2.6.16/src/networking.c:412-435 | Filling a kept place replaces that place only. |
| `AofFormat.CatCommand` | redis-2.6.16/src/aof.c:322-345 | Appends the request in the multi-bulk form that `EncodeRequest` defines. |
| `AofFormat.RequestParsed` | redis-2.6.16/src/aof.c:521-534 | For every non-empty argument vector of arbitrary bytes, the loader parses the printed request back to it and leaves the rest of the file. |
| `AofFormat.FileParsed` | redis-2.6.16/src/aof.c:476-581 | The loader reads any sequence of printed commands back exactly. |
| `AofFormat.LoadFile` | redis-2.6.16/src/aof.c:476-581 | The loading loop returns what the grammar says of every file, malformed ones included; numbers saturate as `strtol` does, the argument count is cut to an `int` and a negative length is a huge unsigned one. |
| `AofFormat.TruncationRefused` | redis-2.6.16/src/aof.c:476-581 | A file cut short inside a command, wherever, is refused. |
| `AofFormat.RewriteList` | redis-2.6.16/src/aof.c:603-656 | Unless a write fails, which is reported, writes exactly the requests `PushCommands`, with declared counts equal to what follows (strings up to 2^31 - 1 bytes, whose length an `int` holds). |
| `AofFormat.WriteBulkString` | redis-2.6.16/src/rio.c:161-180 | A bulk string is its length line, its bytes and a line end; fails exactly when one of the writes does. |
| `AofFormat.PushCommandsRebuild` | redis-2.6.16/src/aof.c:603-656 | Those are RPUSH commands of 1 to 64 items that, replayed on any list, append the items in order. |
| `AofBuffer.RewriteBuffer.Append` | redis-2.6.16/src/aof.c:89-126 | Filling 10 MB blocks appends the bytes to the buffer as a whole. |
| `AofBuffer.RewriteBuffer.Size` | redis-2.6.16/src/aof.c:77-86 | The computed size is the number of bytes held. |
| `AofBuffer.RewriteBuffer.WriteTo` | redis-2.6.16/src/aof.c:131-151 | Succeeds exactly when every block is written in full, and then the file has all bytes appended. |
| `AofReplay.FeedTracks` | redis-2.6.16/src/aof.c:384-432 | If replaying a log gives a dataset and ends in the remembered database, and what is written for a command turns that dataset into another, then with the fed commands (SELECT when needed, EXPIRE and SETEX forms rewritten) the log gives the other. |
| `AofReplay.ReplayAppend` | redis-2.6.16/src/aof.c:476-581 | Replaying a file is replaying its first part and then the rest. |
| `AofKeyspace.StringsFaithful` | redis-2.6.16/src/aof.c:348-419 | For strings with deadlines and the commands SET, DEL, EXPIRE, PEXPIRE, EXPIREAT, PEXPIREAT, SETEX and PSETEX, as db.c and t_string.c carry them out: whenever the file is loaded, what a command propagates (nothing, a DEL for a key that was gone, itself in its rewritten form) gives back exactly the values and deadlines the command left; SET with EX or PX apart. |
| `AofKeyspace.SetWithDeadlineExactly` | redis-2.6.16/src/aof.c:397-419 | SET with EX or PX is read back right if and only if it did nothing or the clock shows the same time, up to 64 bits. |
| `AofKeyspace.SetExTenMoves` | redis-2.6.16/src/aof.c:397-419 | SET k v EX 10 read back a second later gives another deadline. |
| `AofKeyspace.WrittenDeadline` | redis-2.6.16/src/aof.c:356-372 | The PEXPIREAT written for a command names the time it means, in milliseconds, whenever that fits 64 bits. |
| `AofKeyspace.ExpireTen` | redis-2.6.16/src/aof.c:356-372 | EXPIRE k 10 with the clock at 1000000 is written as PEXPIREAT k 1010000. |
| `AofKeyspace.ExpireMeans` | redis-2.6.16/src/db.c:627-681 | EXPIRE, PEXPIRE and EXPIREAT with a time to come give a key that is there exactly the deadline they mean. |
| `AofKeyspace.SetExMeans` | redis-2.6.16/src/t_string.c:65-89 | SETEX and PSETEX store the value with exactly the deadline they mean. |
| `AofKeyspace.ClockDrift` | redis-2.6.16/src/aof.c:367-372 | The clock is read again for the file: a relative deadline moves by exactly the time between the readings. |
| `AofReplay.MidwayNext` | redis-2.6.16/src/aof.c:384-432 | The commands propagated for one command take the dataset, one after the other, to the one it left. |
| `AofServer.Server.FeedBytes` | redis-2.6.16/src/aof.c:384-419 | The bytes built are exactly the encoding of those commands. |
| `AofServer.Server.FeedAppendOnlyFile` | redis-2.6.16/src/aof.c:384-432 | Keeps both invariants: file plus buffer gives the dataset, and child snapshot plus difference gives the dataset. |
| `AofServer.Server.Execute` | redis-2.6.16/src/aof.c:384-432 | A client command keeps the whole invariant, whatever number of commands it propagates. |
| `AofServer.Server.Flush` | redis-2.6.16/src/aof.c:229-301 | Moves the whole buffer to the file, or postpones it and keeps it, keeping the invariant. The process ends exactly when the write fails or is short; the file then loads to the dataset of the last flush, unless cutting a short write off failed too. |
| `AofServer.Server.RewriteInBackground` | redis-2.6.16/src/aof.c:955-1003 | Forks unless a child is running; the selected database is forgotten so that both streams start with SELECT. |
| `AofServer.Server.RewriteDone` | redis-2.6.16/src/aof.c:1042-1176 | Swaps exactly when the child succeeded, its file opens, every block is written in full and the rename succeeds. Either way the invariant is kept; on failure file and state are unchanged; on success after a start the file is on. |
| `AofServer.Server.Swap` | redis-2.6.16/src/aof.c:1120-1160 | The new file, snapshot plus difference, takes the name and the descriptor, and loads to the dataset. |
| `AofServer.Server.StartAppendOnly` | redis-2.6.16/src/aof.c:192-209 | Waits for a rewrite exactly when the file opens, no child runs and the fork succeeds; otherwise it stays off. |
| `AofServer.Server.StopAppendOnly` | redis-2.6.16/src/aof.c:165-188 | Leaves a file that loads to the current dataset, and no child, unless its flush ends the process. |
| `AofServer.Server.LoadsDataset` | redis-2.6.16/src/aof.c:476-581 | Whenever the file is on, loading it and then the unflushed buffer gives the current dataset. |
| `AofServer.Run` | redis-2.6.16/src/aof.c:165-1176 | Over every interleaving of writes, flushes, forks, child successes and failures, starts and stops: whenever the file is on at the end, file followed by buffer loads to the dataset; when a flush ends the process, the file loads to the dataset of an earlier moment of the run (or the one last written before it), unless a part of the buffer could not be cut off. |
| `Pqsort.Med3IsMedian` | redis-2.6.16/src/pqsort.c:88-96 | The chosen position holds a median of the three values. |
| `Pqsort.InsertionSort` | redis-2.6.16/src/pqsort.c:108-114 | Sorts the segment by rearranging it. |
| `Pqsort.Scan` | redis-2.6.16/src/pqsort.c:128-154 | The scans end with equal elements at both ends, smaller ones on the left and greater ones on the right, and only rearrange the segment. |
| `Pqsort.Regroup` | redis-2.6.16/src/pqsort.c:163-167 | The two block exchanges give three runs: smaller, equal, greater. |
| `Pqsort.Partition` | redis-2.6.16/src/pqsort.c:115-167 | Choosing a pivot and partitioning gives those three runs unless nothing was swapped. |
| `Pqsort.SortRange` | redis-2.6.16/src/pqsort.c:98-187 | Terminates and rearranges the segment so that every pair with one position in the range is in order. |
| `Pqsort.SortPart` | redis-2.6.16/src/pqsort.c:168-186 | A part is skipped only when it has one element or misses the range, and then nothing is owed. |
| `Pqsort.BothParts` | redis-2.6.16/src/pqsort.c:168-186 | Sorting the two outer runs as far as the range needs sorts the whole as far as the range needs. |
| `Pqsort.PartialSort` | redis-2.6.16/src/pqsort.c:190-196 | For every total preorder and range: a permutation, sorted in lrange..rrange, with everything before not greater and everything after not smaller. |
| `RdbForm.LenRoundTrip` | redis-2.6.16/src/rdb.c:82-135 | A length in any of the three forms is read back exactly, using exactly its bytes, whatever follows. |
| `RdbForm.IntegerRoundTrip` | redis-2.6.16/src/rdb.c:141-191 | An integer in 8, 16 or 32 bits is read back as its decimal. |
| `RdbForm.VerbatimRoundTrip` | redis-2.6.16/src/rdb.c:293-299 | A verbatim string is read back exactly if and only if it is shorter than 2^32 - 1 bytes. |
| `RdbForm.PackedRoundTrip` | redis-2.6.16/src/rdb.c:212-266 | A compressed string is read back exactly. |
| `RdbForm.StringRoundTrip` | redis-2.6.16/src/rdb.c:270-359 | Every stored form of a string reads back as that string and uses exactly its own bytes. |
| `RdbForm.StoredExamples` | redis-2.6.16/src/rdb.c:82-191 | The bytes that some integers and lengths are stored as. |
| `RdbForm.FormsDistinct` | redis-2.6.16/src/rdb.c:111-135 | No stored form of one string is a prefix of a stored form of another: the three forms are never confused. |
| `RdbForm.OverreadExactly` | redis-2.6.16/src/rdb.c:249-266 | Reading past an empty compressed block happens exactly for a memory stream whose first byte announces compression and whose two lengths can be read, the first being 0. |
| `RdbForm.OverreadExample` | redis-2.6.16/src/rdb.c:249-266 | The bytes C3 00 00 are such an input. |
| `Rdb.SaveLen` | redis-2.6.16/src/rdb.c:82-106 | Writes the length form; a failed write, which may leave a part behind, is reported unless it is that of the four bytes of a 32-bit length. |
| `Rdb.UnreportedFailure` | redis-2.6.16/src/rdb.c:97-104 | For every length of 2^14 or more there is a failing write that is reported as success. |
| `Rdb.UnreportedString` | redis-2.6.16/src/rdb.c:293-299 | For every string of 2^14 bytes or more (up to 2^31) there is a failing write after which saving it verbatim returns the full count while the stream is shorter. |
| `Rdb.UnreportedPacked` | redis-2.6.16/src/rdb.c:212-247 | The same for every string of 2^14 bytes or more that is compressed, to whatever its compressed form is: the full count is returned while the four bytes of the length are missing from the stream. |
| `Rdb.LoadLen` | redis-2.6.16/src/rdb.c:111-135 | Returns what the bytes say: a length, an encoding, or an error at the end of input. |
| `Rdb.TryIntegerEncoding` | redis-2.6.16/src/rdb.c:196-210 | Encodes exactly the canonical decimals of 32-bit integers (whatever memory follows, never anything else). |
| `Rdb.LoadInteger` | redis-2.6.16/src/rdb.c:166-191 | Reads the signed value and prints it. |
| `Rdb.SaveLzf` | redis-2.6.16/src/rdb.c:212-247 | Nothing, or a packed form of the string, is written; the count is right whenever an `int` holds it. A string of one byte repeated, longer than 20, is always stored packed. |
| `Rdb.SaveRawString` | redis-2.6.16/src/rdb.c:270-300 | Unless a write failed, what was written starts with a stored form of the string, and when an `int` holds its length nothing else was written and the returned count is that length; canonical 32-bit decimals are stored as integers, and without compression other strings are stored verbatim when longer than 11 bytes. A lost write is reported when the string is shorter than 2^14 bytes, and from there on there are faults for which it is not, whether the string was compressed or not. With compression a string of one byte repeated, longer than 20, is stored packed. |
| `Rdb.SaveLongLong` | redis-2.6.16/src/rdb.c:303-319 | The integer form for every 32-bit value and the verbatim decimal for others, with every lost write reported. |
| `Rdb.LoadLzf` | redis-2.6.16/src/rdb.c:249-266 | Agrees with the specification of packed strings on every input, malformed ones included. |
| `Rdb.LoadString` | redis-2.6.16/src/rdb.c:333-359 | Agrees with the specification of stored strings on every input: value and bytes used, null object, panic, or reading past the block, the last under exactly the condition of `RdbForm.OverreadExactly`. |
| `Rdb.SaveThenLoad` | redis-2.6.16/src/rdb.c:270-359 | For every byte string shorter than 2^32 - 1, compression on or off, from memory or file, followed by anything: loading returns the string, and moves by the count saving returned if and only if an `int` holds it. |
| `Rio.Stream.Write` | redis-2.6.16/src/rio.h:76-79 | Appends the data; or, to a file, fails and leaves a part of it, possibly nothing. The checksum sees the data either way. |
| `Rio.Stream.Read` | redis-2.6.16/src/rio.h:81-87 | Delivers the next bytes and lets the checksum see them, or delivers nothing and changes nothing. |
| `Crc64Table.TableIsRight` | redis-2.6.16/src/crc64.c:42-171 | Each of the 256 entries is its index carried through eight steps of reflected division. |
| `Crc64.Update` | redis-2.6.16/src/crc64.c:173-181 | The look-up loop computes that division of the whole string. |
| `Crc64.CrcIsDivision` | redis-2.6.16/src/crc64.c:1-11 | With the register read backwards, the checksum is the remainder of long division by the polynomial 0xad93d23594c935a9, taking the bits of each byte lowest first. |
| `Crc64.ReversedPolynomial` | redis-2.6.16/src/crc64.c:6-8 | The constant used is the polynomial of the header with its bits reversed. |
| `Crc64.CheckNeedsZero` | redis-2.6.16/src/crc64.c:1-12 | The check value of the header for "123456789" is that of initial value 0 and of no other. |
| `Crc64.CrcConcat` | redis-2.6.16/src/rio.c:139-141 | Continuing a checksum over more bytes is the checksum of all of them. |
| `ChecksummedStream.WriteAll` | redis-2.6.16/src/rio.h:76-79 | However bytes are split between writes, to memory or to a file, the running checksum is that of all of them, failed writes included, and they are what was written when none failed. |
| `ChecksummedStream.ReadAll` | redis-2.6.16/src/rio.h:81-87 | However a stream is split between reads, the running checksum is that of the bytes delivered, failed reads not counting. |
| `Crc64.BurstDetected` | redis-2.6.16/src/crc64.c:173-181 | Any change confined to eight consecutive bytes changes the checksum. |
| `Crc64.ChecksumCloses` | redis-2.6.16/src/crc64.c:173-181 | Reading eight more bytes leaves zero exactly when they are the checksum itself, low byte first. |
| `Dump.CreatePayload` | redis-2.6.16/src/migrate.c:10-37 | Object, version and checksum form a payload that is accepted. |
| `Dump.VerifyPayload` | redis-2.6.16/src/migrate.c:43-60 | Accepts exactly the payloads of at least ten bytes with version 6 over which the division closes to zero. |
| `Dump.CorruptionDetected` | redis-2.6.16/src/migrate.c:43-60 | No change confined to eight consecutive bytes of an accepted payload, wherever they lie, is accepted. |
| `Dump.ByteCorruptionDetected` | redis-2.6.16/src/migrate.c:10-60 | Changing any single byte makes verification fail. |
| `Watch.Server.WatchForKey` | redis-2.6.16/src/multi.c:202-229 | Adds the pair to both lists, or nothing when it is there; the two-way index stays exact. |
| `Watch.Server.UnwatchAllKeys` | redis-2.6.16/src/multi.c:233-257 | Removes every pair of the client from both sides, and empty lists with them; other clients keep theirs. |
| `Watch.Server.TouchWatchedKey` | redis-2.6.16/src/multi.c:261-278 | Logs the key as touched and keeps each flag exact: a client is marked exactly when one of its keys was touched since it was watched. |
| `Watch.Server.TouchWatchedKeysOnFlush` | redis-2.6.16/src/multi.c:284-305 | Does the same for the existing keys of the flushed database, or of all for -1. |
| `Watch.Server.WatchKeys` | redis-2.6.16/src/multi.c:307-317 | Refused exactly inside MULTI; otherwise the named keys are watched from now on, and those already watched from before. |
| `Watch.Server.Unwatch` | redis-2.6.16/src/multi.c:319-323 | Forgets all watched keys and the mark. |
| `Watch.Server.Multi` | redis-2.6.16/src/multi.c:86-93 | Refused exactly when nested. |
| `Watch.Server.FlagTransaction` | redis-2.6.16/src/multi.c:81-84 | Marks the transaction as failed exactly inside MULTI. |
| `Watch.Server.Queue` | redis-2.6.16/src/multi.c:56-70 | Appends the command to the queue. |
| `Watch.Server.DiscardTransaction` | redis-2.6.16/src/multi.c:72-77 | Resets queue, flags and watched keys of that client only. |
| `Watch.Server.Exec` | redis-2.6.16/src/multi.c:114-182 | Gives the reply and the state that `WatchSpec.Executed` calls for: the whole queue runs in order if and only if MULTI was given, no command was refused, and no watched key was touched since it was watched; otherwise the reply says which of these failed and no data change. |
| `Watch.Server.Perform` | redis-2.6.16/src/db.c:282-290 | Each signal of a command is logged and marks exactly the clients that watch what it touches. |
| `Watch.Server.Call` | redis-2.6.16/src/db.c:282-311 | The keys touched by a command are logged, all and in order, and the data change as it says. |
| `Watch.Server.RunQueue` | redis-2.6.16/src/multi.c:138-165 | Unwatching, running the whole queue with nothing in between, and resetting the transaction. |
| `Watch.Server.Process` | redis-2.6.16/src/redis.c:1767-1893 | A request is refused by the first check that fails, which marks a transaction where the code does, and otherwise served. |
| `Watch.Server.Serve` | redis-2.6.16/src/redis.c:1881-1893 | Inside MULTI all requests but EXEC, DISCARD, MULTI and WATCH wait in the queue; everything else is carried out at once. |
| `Watch.Server.Handle` | redis-2.6.16/src/redis.c:1767-1893 | One event of any client gives the reply and the state that `WatchSpec.Next` calls for. |
| `Admission.Check` | redis-2.6.16/src/redis.c:1778-1879 | A request passes exactly when none of the ten guards holds, and the guard of the refusal given does hold. |
| `Admission.FirstApplies` | redis-2.6.16/src/redis.c:1778-1879 | The refusal given is that of the first guard that holds, in the order of the code. |
| `Admission.UnmarkedExactly` | redis-2.6.16/src/redis.c:1778-1864 | A refusal leaves a transaction unmarked exactly when the command is known, of the right arity and authenticated, memory and disk allow it, and then a read-only slave, Pub/Sub mode or loading (with the master not missed) refuses it. |
| `Admission.Guards` | redis-2.6.16/src/redis.c:1778-1802 | Requests that are refused for want of a command, of arguments or of a password, and near ones that pass. |
| `Admission.SlaveGuard` | redis-2.6.16/src/redis.c:1827-1835 | A write is refused by a read-only slave, but not from its master and not when the slave is writable. |
| `Watch.Server.Disconnect` | redis-2.6.16/src/networking.c:640-645 | Freeing a client leaves no trace of it in the index. |
| `Watch.Run` | redis-2.6.16/src/multi.c:72-323 | In every run the replies, the data and the log of touches are those the events call for (`WatchSpec.After`, which knows no flag and no index); the per-client and per-key lists stay exact inverses without duplicates or empty lists, and each flag says exactly whether a watched key was touched since it was watched. |
| `WatchIndex.RemovePair` | redis-2.6.16/src/multi.c:240-252 | Removing a client from a key list and the key from the client list keeps the lists inverse. |
| `WatchHistory.StaleLater` | redis-2.6.16/src/multi.c:261-278 | A signal makes a client stale exactly when it touches one of its keys. |
| `WatchSpec.ExecAnswer` | redis-2.6.16/src/multi.c:114-169 | In every run, for a transaction opened by its client's MULTI and not closed since: EXEC answers EXECABORT if and only if a request of that client since then was refused with a mark; otherwise the null reply if and only if some key of a WATCH still in force was touched after that WATCH; otherwise it runs the accepted commands, all and in order. |
| `WatchSpec.ExecNeedsMulti` | redis-2.6.16/src/multi.c:121-124 | EXEC is refused for want of a MULTI exactly when no transaction of that client is open. |
| `WatchSpec.OpenExactly` | redis-2.6.16/src/multi.c:72-93 | A client is inside MULTI exactly when some MULTI of its own opened a transaction that no EXEC, DISCARD or disconnection has closed. |
| `WatchSpec.StaleExactly` | redis-2.6.16/src/multi.c:202-323 | A client's watched keys have been touched exactly when some WATCH of that client, ended neither by EXEC or DISCARD inside MULTI, nor UNWATCH outside MULTI, nor disconnection, has a key that was touched after it. |
| `WatchSpec.TouchedKeyStopsExec` | redis-2.6.16/src/multi.c:114-169 | In every run: a key of a WATCH still in force that was touched after it keeps the client's EXEC from running, whatever all clients do in between. |
| `WatchSpec.NullReplyHasCause` | redis-2.6.16/src/multi.c:114-169 | In every run: an EXEC that comes to nothing has its cause, a WATCH of that client that is still in force and a later touch of one of its keys. |
| `WatchSpec.TransactionIsWhole` | redis-2.6.16/src/multi.c:56-169 | In every run: when an EXEC runs, it runs the accepted commands since its MULTI, in order; these are all commands the client asked for if and only if none was refused, and one that was, was refused without a mark. |
| `WatchSpec.FailsWhen` | redis-2.6.16/src/redis.c:1778-1893 | Inside MULTI a request is answered with an error exactly when a check refuses it or it is a nested WATCH or MULTI; otherwise it is queued. |
| `WatchSpec.ErrorsIgnoredExactly` | redis-2.6.16/src/multi.c:79-84 | There were errors since MULTI and EXEC still does not answer EXECABORT, if and only if there was a refusal or a nested WATCH or MULTI and no refusal was with a mark. |
| `WatchSpec.RefusedYetRun` | redis-2.6.16/src/redis.c:1827-1864 | Whatever command is refused without a mark inside MULTI, and for whatever reason, EXEC runs the transaction without it. |
| `WatchSpec.SlaveDropsWrite` | redis-2.6.16/src/redis.c:1827-1835 | A write sent inside MULTI to a read-only slave is such a command: the documented rule fails. |
| `WatchSpec.WatchedByWatch` | redis-2.6.16/src/multi.c:202-229 | Every watched key was watched, at the moment remembered, by a WATCH of that client that is still in force. |
| `WatchTouches.ExecDecided` | redis-2.6.16/src/multi.c:114-169 | In every run the answer to the EXEC of an open transaction, from the requests and from what commands do, without flags or logs: an abort if and only if a request since MULTI was refused with a mark; otherwise nothing is run if and only if some command of whatever client, called at once or in a transaction that ran, signalled a key of a WATCH still in force, or flushed it while it was there; otherwise everything is run. |
| `WatchTouches.CommandStopsExec` | redis-2.6.16/src/db.c:282-290 | A command that any client has carried out at once and that signals a key of a WATCH in force keeps the EXEC from running. |
| `WatchTouches.NullReplyHasCommand` | redis-2.6.16/src/multi.c:126-137 | A null reply has its cause: a WATCH of that client still in force, and a command after it that signalled its key. |
| `WatchTouches.SignalTouches` | redis-2.6.16/src/db.c:282-290 | A signal of the key among the acts of a command touches it, and so does a flush of its database, or of all, while it is there. |
| `WatchTouches.EventLogged` | redis-2.6.16/src/multi.c:261-305 | What the log of signals says of an event is what its commands do. |
| `WatchTouches.NextByActs` | redis-2.6.16/src/redis.c:1881-1893 | An event changes the data by what the commands it carries out do, one after the other, and the client's database to the one they select. |
| `EventPort.EventLoop.LookupPending` | redis-2.6.16/src/ae_evport.c:104-113 | The slot that holds the fd, or -1 exactly when none does. |
| `EventPort.EventLoop.ApiAddEvent` | redis-2.6.16/src/ae_evport.c:147-176 | Fails exactly when the kernel refuses an fd that is not pending, and then changes nothing. |
| `EventPort.EventLoop.CreateFileEvent` | redis-2.6.16/src/ae.c:105-123 | Adds the mask; everything stays in place if and only if the resulting mask is not empty. |
| `EventPort.EventLoop.ApiDelEvent` | redis-2.6.16/src/ae_evport.c:178-236 | Keeps every fd in one place; aborts exactly when an fd that is not pending keeps a mask and its re-association is refused, so port_dissociate is called on associated fds only. |
| `EventPort.EventLoop.ScanDown` | redis-2.6.16/src/ae.c:131-138 | Finds the greatest registered fd, or -1. |
| `EventPort.EventLoop.DeleteFileEvent` | redis-2.6.16/src/ae.c:125-141 | Removes the mask, keeps every fd in one place and maxfd the greatest; a pending fd stays pending until its mask is empty. |
| `EventPort.EventLoop.Reassociate` | redis-2.6.16/src/ae_evport.c:250-265 | Everything pending goes back to the kernel with its current mask; aborts exactly when one of those is refused. |
| `EventPort.EventLoop.Poll` | redis-2.6.16/src/ae_evport.c:238-311 | Delivered fds leave the kernel and become pending with their masks; the reported events are those delivered; aborts exactly on a refusal or a failing port. |
| `EventPort.Run` | redis-2.6.16/src/ae_evport.c:104-311 | Every run takes the course its requests call for (`EventPort.After`): the same answers, an abort exactly there, and after every step the masks and the pending fds of that course. Each fd with a non-empty mask is then in exactly one place, kernel or one slot, with exactly its mask, and maxfd is the greatest such fd or -1. |
| `PortPlaces.AddKernel` | redis-2.6.16/src/ae_evport.c:147-176 | Associating an fd that is not pending keeps everything in place exactly when the mask is not empty. |
| `PortPlaces.Deliver` | redis-2.6.16/src/ae_evport.c:290-308 | Moving delivered associations from the kernel to the slots keeps everything in place. |
| `IntsetLayout.ValueEncoding` | redis-2.6.16/src/intset.c:45-52 | The narrowest of the three widths that holds the value. |
| `IntsetLayout.UpgradingValue` | redis-2.6.16/src/intset.c:204-213 | A value that needs a wider encoding is below all values of the narrower one exactly when it is negative, and above them all otherwise. |
| `Intset.IntSet.Get` | redis-2.6.16/src/intset.c:55-78 | The bytes at a position are the member at that position. |
| `Intset.IntSet.Search` | redis-2.6.16/src/intset.c:115-154 | Finds the position of a member, or the place where it belongs. |
| `Intset.IntSet.Widen` | redis-2.6.16/src/intset.c:164-171 | Back-to-front widening in one block never overwrites an element that is still to be read. |
| `Intset.IntSet.UpgradeAndAdd` | redis-2.6.16/src/intset.c:157-180 | Afterwards all members and the new value, in front or at the end, are stored in the wider form. |
| `Intset.IntSet.Add` | redis-2.6.16/src/intset.c:204-231 | Adds the value to the set, reports whether it was new, and keeps the bytes strictly sorted in an encoding that is never narrowed. |
| `Intset.IntSet.Remove` | redis-2.6.16/src/intset.c:234-251 | Removes the value from the set and reports whether it was there. |
| `Intset.IntSet.Find` | redis-2.6.16/src/intset.c:254-257 | True exactly for members. |
| `Bio.Queue.MainStep` | redis-2.6.16/src/bio.c:124-136 | Each locked step of submitting a job or asking for the count does to the list, the count and the answers what the schedule calls for. |
| `Bio.Queue.WorkerStep` | redis-2.6.16/src/bio.c:138-184 | Each step of the worker does what the schedule calls for; the node deleted by its address is the first of the list. |
| `Bio.Run` | redis-2.6.16/src/bio.c:124-193 | Under every interleaving of the two threads, step by step, the list, the count, the jobs run and the values returned are those of a plain queue (`BioSchedule.After`). |
| `BioSchedule.RunInOrder` | redis-2.6.16/src/bio.c:138-184 | Under every schedule the jobs run are the first ones submitted, each once and in order. |
| `BioSchedule.DeletedIsLastRun` | redis-2.6.16/src/bio.c:176-182 | Under every schedule, when the worker has the lock again, the first node is that of the job just run. |
| `BioSchedule.ZeroMeansFinished` | redis-2.6.16/src/bio.c:187-193 | Under every schedule, when zero is returned, every job submitted at any moment before has been run. |
| `BioSchedule.AlwaysInv` | redis-2.6.16/src/bio.c:124-193 | Under every schedule the lock has one owner, the count differs from the length of the list only inside a locked step, jobs run followed by jobs waiting are the jobs submitted, and an answer is the number not yet run, plus one while the last run is not accounted for. |
| `BioSchedule.EveryJobCanRun` | redis-2.6.16/src/bio.c:124-193 | From every state that a schedule leads to, some steps of the two threads lead to an empty queue with every submitted job run. |
| `Popcount.CountBits` | redis-2.6.16/src/bitops.c:61-94 | Sixteen bytes at a time by word arithmetic and the rest by table equal the number of one bits. |
| `Popcount.WordCounts` | redis-2.6.16/src/bitops.c:77-88 | The word arithmetic counts the ones of its four bytes. |
| `Popcount.LookUpCounts` | redis-2.6.16/src/bitops.c:65 | Each of the 256 table entries is the number of ones of its index. |
| `Popcount.OnesCount` | redis-2.6.16/src/bitops.c:59-65 | The count of ones in a byte is 0 for 0 and one less when a set bit is cleared. |
| `Bitop.Lengths` | redis-2.6.16/src/bitops.c:223-249 | The shortest and the longest length, a missing key counting as empty. |
| `Bitop.FastPath` | redis-2.6.16/src/bitops.c:261-320 | Blocks of four 64-bit words, combined word by word, give on every byte the operation on all strings. |
| `Bitop.WordOp` | redis-2.6.16/src/bitops.c:261-320 | Loading two 64-bit words from memory, combining them with one operator and storing the result is the operation on each of the eight bytes. |
| `Bitop.OneWord` | redis-2.6.16/src/bitops.c:272-275 | The word at an offset becomes, byte by byte, the operation on it and the other string. |
| `Bitop.BitOp` | redis-2.6.16/src/bitops.c:213-336 | For any number and lengths of strings, fast path and tail together give the bytewise operation on zero-padded strings, as long as the longest; refused exactly for NOT with several keys. Bit by bit: AND is set where all padded strings have it, OR where one has, XOR where an odd number has, NOT where the only one has not. |
| `Bitop.OutBit` | redis-2.6.16/src/bitops.c:322-334 | A bit of the result is decided by in how many strings, padded with zeros, it is set. |

## Left out

- Dict.Dictionary.Add: bucket indices are unbounded where the code returns them as `int`; counts are kept below LONG_MAX / 2, where `_dictNextPower` and `_dictExpandIfNeeded` do not overflow; a chain is a sequence, so pointer updates inside a chain and aliasing are not modelled.
- Dict.Dictionary.FindEntry: the hash function is any function; the measuring code around the look-up is not modelled; an entry is named by its place or its key instead of its address.
- Lzf.Compress: an input of one byte is not covered, because the code reads its second byte; addresses are numbers, and the input does not start in the first 8192 bytes of the address space.
- Lzf.Decompress: an empty input is not covered, because the code reads its first byte; bytes of the output beyond the result are not described.
- RequestParser.Serve: clients that block or are closed by a command, and inline requests beyond their splitting into words, are not modelled; the query buffer limit is at least one bulk of 512 MB plus its line end.
- Replies.Run: `reply_bytes`, output buffer limits, object reference counts and clients marked close-after-reply are not part of the run.
- AofServer.Run: commands and datasets are arbitrary, with two assumptions: a command applied live and what it propagates, applied on loading, agree when the clock is read once (`AofKeyspace.StringsFaithful` proves this for strings), and the child writes commands that rebuild its snapshot. fsync, its scheduling and temporary file names are not modelled.
- AofKeyspace.StringsFaithful: a server that is not a slave; values are strings; commands other than the eight leave the dataset alone and propagate nothing.
- AofServer.Server.Flush: fsync and its scheduling are not modelled.
- AofFormat.LoadFile: running the commands on a fake client, the loading progress reports and what happens after a negative length was taken as a huge one (the model stops at the failing read) are not modelled.
- AofFormat.RewriteList: lists stored as ziplists and as linked lists are both the sequence of their items; the set, sorted set and hash writers follow the same pattern.
- Pqsort.SortRange: positions are counted in elements instead of bytes, the swap variants for longs and bytes are one swap, and the jump back for the greater elements is a call.
- Rdb.SaveRawString: saving without a stream, which only measures, is not modelled; nor is what follows when a sum of counts overflows an `int` other than by wrapping.
- Rdb.LoadLzf: when a corrupt block decompresses to fewer bytes than announced, only the length of the result and its leading bytes are stated.
- Rio.Stream.Write: automatic fsync and buffering by the C library are not modelled.
- Watch.Server.Exec: propagation of MULTI and EXEC and the monitors are not modelled. The claim is about touches: commands that change a key without `signalModifiedKey` (MOVE, PERSIST, lazy expiry) touch nothing.
- Watch.Server.Process: what the checks look at (the entry of the command table, the arguments, the state of client and server) comes with each request and is arbitrary; QUIT is a disconnection, and keys evicted by the memory check are not followed (eviction signals no modified key).
- EventPort.Run: a request that would leave an fd registered without any event is left aside (`EventPort.EventLoop.CreateFileEvent` covers it); handlers, time events and the dispatch of fired events are not modelled.
- Intset.IntSet.Search: positions are unbounded where the code adds two `int`; memory is little endian.
- Bio.Run: that a sleeping worker is eventually woken is not claimed; what a job does is not modelled.
- Bitop.FastPath: memory is little endian; strings of other types, which the command refuses, are not modelled.
- memory_aggregator.c: entries come from an allocator that always returns a fresh one.
- Sorted sets, hashes, ziplists, zipmaps, replication, configuration, floating-point encodings and the remaining commands are not part of this model.
