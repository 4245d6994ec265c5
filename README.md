# CorfuDB log unit, in-memory log, primitive serializer and epoch gate

This project is a Dafny model of four parts of a CorfuDB server, with
proofs about each.

- **The log unit's request handlers** (`LogUnitServer`). These cover:
  - WRITE, READ_REQUEST, READ_RANGE, FILL_HOLE and TRIM;
  - the cache writer's overwrite check and persistence rule;
  - the cache loader;
  - the weigher;
  - the garbage-collection pass over the trim watermarks.

  The data cache is an address→entry map. On a miss it loads from the
  local log. `trimMap` maps each stream to its trim watermark.
- **The in-memory local log** (`InMemoryLog`). It is an address→entry map.
  Stream writes are no-ops, and stream reads return an empty range set.
- **The primitive serializer** (`PrimitiveSerializer`). It is a type-tagged
  binary codec over a Netty `ByteBuf`:
  - integers and booleans are written big-endian;
  - byte arrays, boxed arrays and strings are written with a length prefix;
  - decoding is driven by a tag→row table.
- **The base server's epoch gate** (`BaseServer.setEpoch`) and PING.

The files follow the program:

| file | contents |
|---|---|
| `codec.dfy` | Java integer widths and their byte encodings (big-endian, two's complement); `String.length()` and `getBytes()` |
| `byte_buf.dfy` | the `ByteBuf` class (written bytes and a reader index); `writeBytes`/`readBytes` and `writeArray`/`readArray` as methods, each specified by an encode/decode function |
| `primitive_serializer.dfy` | the `Primitives` table, `SerializerMap`, `DeserializerMap`, `serialize` and `deserialize` |
| `log_entry.dfy` | log-unit entries, the weigher, and address ranges |
| `in_memory_log.dfy` | the `InMemoryLog` class |
| `sorted_keys.dfy` | the ascending address order handleGC's `TreeSet` gives |
| `log_unit_server.dfy` | the cache, the handlers, the watermarks and the GC pass; the `LogUnitServer` class |
| `base_server.dfy` | the router's server epoch, SET_EPOCH and PING |

Three behaviours of the shown code are easy to misread; the model follows the code:

- **The overwrite check looks at the cache only.** `CacheWriter.write` asks
  `dataCache.getIfPresent`, so an address that only the local log holds is
  not an overwrite.
- **A range read does not classify its results.** Its reply maps every
  requested address that reads as an entry (holes included) to that entry.
  Addresses with nothing are left out of the reply.
- **Fill-hole works on the cache only.** `dataCache.get(key, fn)` computes
  the hole in the cache and calls neither the loader nor the writer. A
  hole can therefore hide an entry that only the local log holds.

## Model

| member | source | states |
|---|---|---|
| Codec.ByteRoundTrip | src/main/java/org/corfudb/util/serializer/PrimitiveSerializer.java:109 | BYTE writes one byte, and reading it back gives the same value |
| Codec.ShortRoundTrip | src/main/java/org/corfudb/util/serializer/PrimitiveSerializer.java:110 | SHORT writes two bytes, and reading them back gives the same value |
| Codec.IntRoundTrip | src/main/java/org/corfudb/util/serializer/PrimitiveSerializer.java:111 | INTEGER writes four bytes, and reading them back gives the same value |
| Codec.LongRoundTrip | src/main/java/org/corfudb/util/serializer/PrimitiveSerializer.java:112 | LONG writes eight bytes, and reading them back gives the same value |
| Codec.SignedRoundTrip | src/main/java/org/corfudb/util/serializer/PrimitiveSerializer.java:109-112 | decoding an n-byte two's-complement encoding gives back any value that fits in n bytes |
| Codec.DecodeEncodeUnsigned | src/main/java/org/corfudb/util/serializer/PrimitiveSerializer.java:109-112 | the big-endian n-byte encoding of x decodes to x |
| Codec.EncodeDecodeUnsigned | src/main/java/org/corfudb/util/serializer/PrimitiveSerializer.java:109-112 | every byte sequence is the big-endian encoding of the number it decodes to, so the encoding is onto |
| Codec.RawByteRoundTrip | src/main/java/org/corfudb/util/serializer/PrimitiveSerializer.java:64 | a Java byte's raw bits give back the byte |
| Codec.NewString | src/main/java/org/corfudb/util/serializer/PrimitiveSerializer.java:137 | `new String(bs)` on ASCII bytes gives one ASCII character per byte |
| Codec.AsciiRoundTrip | src/main/java/org/corfudb/util/serializer/PrimitiveSerializer.java:129-137 | for an ASCII string, `length()` equals its UTF-8 byte count, and `new String(getBytes())` gives it back |
| Codec.LengthMatchesBytesIffAscii | src/main/java/org/corfudb/util/serializer/PrimitiveSerializer.java:130-131 | `length()` is at most the number of bytes `getBytes()` makes; they are equal iff the string is ASCII |
| ByteBuffer.ByteBuf.Append | src/main/java/org/corfudb/util/serializer/PrimitiveSerializer.java:46 | a write appends at the writer index; the reader index stays |
| ByteBuffer.ByteBuf.Take | src/main/java/org/corfudb/util/serializer/PrimitiveSerializer.java:53 | a read of n bytes returns the next n readable bytes and advances the reader by n; with fewer readable bytes it fails (IndexOutOfBounds) without moving |
| ByteBuffer.ByteArrayRoundTrip | src/main/java/org/corfudb/util/serializer/PrimitiveSerializer.java:61-72 | readBytes on writeBytes' output gives the same array and leaves exactly the following bytes unread |
| ByteBuffer.WriteBytes | src/main/java/org/corfudb/util/serializer/PrimitiveSerializer.java:61-65 | writeBytes appends a 4-byte length, then the bytes |
| ByteBuffer.ReadBytes | src/main/java/org/corfudb/util/serializer/PrimitiveSerializer.java:67-72 | readBytes returns the array and advances by 4+n; on too few bytes, or a negative length, it fails as Java's exceptions do |
| ByteBuffer.DecodeEncodeElems | src/main/java/org/corfudb/util/serializer/PrimitiveSerializer.java:44-59 | decoding n fixed-width elements from their encodings gives the same elements, in order |
| ByteBuffer.EncodeElemsSnoc | src/main/java/org/corfudb/util/serializer/PrimitiveSerializer.java:47-48 | writing one more element appends exactly its encoding |
| ByteBuffer.ArrayRoundTrip | src/main/java/org/corfudb/util/serializer/PrimitiveSerializer.java:44-59 | readArray on writeArray's output gives an array of the same length with the same elements in order, and stops at its end |
| ByteBuffer.WriteArray | src/main/java/org/corfudb/util/serializer/PrimitiveSerializer.java:44-49 | writeArray appends a 4-byte count, then each element's encoding in order |
| ByteBuffer.ReadInto | src/main/java/org/corfudb/util/serializer/PrimitiveSerializer.java:55-57 | readArray's loop fills the array with the decoded elements in order and leaves the reader after them; it fails when the buffer runs out |
| ByteBuffer.ReadArray | src/main/java/org/corfudb/util/serializer/PrimitiveSerializer.java:52-59 | readArray returns the decoded array and leaves the rest unread; it fails on a short buffer or a negative length |
| PrimitiveSerializer.TypeNum | src/main/java/org/corfudb/util/serializer/PrimitiveSerializer.java:109-128 | DeserializerMap maps each row's typeNum back to that row; no modelled row shares a typeNum with an unmodelled one |
| PrimitiveSerializer.TagTable | src/main/java/org/corfudb/util/serializer/PrimitiveSerializer.java:109-139 | the tags 0–15 are exactly the rows' tags; TypeNum and DeserializerMap are inverse; no two rows share a tag |
| PrimitiveSerializer.UnknownTag | src/main/java/org/corfudb/util/serializer/PrimitiveSerializer.java:83-85 | a tag byte of 16 or more has no deserializer |
| PrimitiveSerializer.SerializerMapEntries | src/main/java/org/corfudb/util/serializer/PrimitiveSerializer.java:30-41 | a class is in SerializerMap iff it is a row's classType or primitiveClass, and it maps to that row |
| PrimitiveSerializer.ClassOf | src/main/java/org/corfudb/util/serializer/PrimitiveSerializer.java:109-124 | an object's runtime class belongs to its row; only an object of a class no row lists has none |
| PrimitiveSerializer.ClassListed | src/main/java/org/corfudb/util/serializer/PrimitiveSerializer.java:30-41 | every listed object finds a serializer, its own row's, whether its class is boxed or primitive |
| PrimitiveSerializer.Serialize | src/main/java/org/corfudb/util/serializer/PrimitiveSerializer.java:96-106 | `$ByteBuddy$` classes go to CORFU_SMR; an object of an unlisted class throws "Unsupported class" before anything is written; a listed object is written, without a tag |
| PrimitiveSerializer.SerializeAsWritten | src/main/java/org/corfudb/util/serializer/PrimitiveSerializer.java:96-106 | serialize as written agrees with the intended one except where a row serializer's cast fails; there it throws ClassCastException after writing a prefix of the intended bytes |
| PrimitiveSerializer.RowSerializerAsWritten | src/main/java/org/corfudb/util/serializer/PrimitiveSerializer.java:116-124 | the rows' serializers as written: they throw exactly for the objects whose cast fails, after a prefix of the intended bytes; otherwise they write the intended bytes |
| PrimitiveSerializer.Canonical | src/main/java/org/corfudb/util/serializer/PrimitiveSerializer.java:116-124 | deserialize hands back each row's classType |
| PrimitiveSerializer.RoundTrip | src/main/java/org/corfudb/util/serializer/PrimitiveSerializer.java:82-106 | every listed object is written, and deserialize on its tag and bytes gives it back, in its row's classType, and stops at its last byte; strings must be ASCII |
| PrimitiveSerializer.DeserializeTagged | src/main/java/org/corfudb/util/serializer/PrimitiveSerializer.java:83-85 | deserialize reads one tag byte and passes the remaining bytes to that row's reader |
| PrimitiveSerializer.RowRoundTrip | src/main/java/org/corfudb/util/serializer/PrimitiveSerializer.java:109-138 | each row's reader reads back what that row's writer wrote |
| PrimitiveSerializer.ScalarRowRoundTrip | src/main/java/org/corfudb/util/serializer/PrimitiveSerializer.java:109-113 | BYTE, SHORT, INTEGER, LONG and BOOLEAN read back their value and consume exactly their width |
| PrimitiveSerializer.BooleanRowRoundTrip | src/main/java/org/corfudb/util/serializer/PrimitiveSerializer.java:113 | BOOLEAN writes one byte, and reading it back gives the same value |
| PrimitiveSerializer.ArrayRowRoundTrip | src/main/java/org/corfudb/util/serializer/PrimitiveSerializer.java:116-124 | the array rows read back the same elements, in order |
| PrimitiveSerializer.StringRoundTrip | src/main/java/org/corfudb/util/serializer/PrimitiveSerializer.java:129-138 | an ASCII string reads back as itself and consumes exactly 4+length bytes |
| PrimitiveSerializer.StringRoundTripIffAscii | src/main/java/org/corfudb/util/serializer/PrimitiveSerializer.java:129-138 | a string survives serialize then deserialize iff it is ASCII |
| PrimitiveSerializer.BoxedByteArrayThrows | src/main/java/org/corfudb/util/serializer/PrimitiveSerializer.java:61-65 | a Byte[] throws ClassCastException before anything is written; a byte[] with the same elements is written in full |
| PrimitiveSerializer.ShortArrayThrows | src/main/java/org/corfudb/util/serializer/PrimitiveSerializer.java:117-118 | a non-empty Short[] throws after writing its length; the intended serializer writes it and reads it back |
| PrimitiveSerializer.PrimitiveIntArrayThrows | src/main/java/org/corfudb/util/serializer/PrimitiveSerializer.java:119 | an int[] is INTEGER_ARRAY's primitiveClass but throws before writing anything |
| LogEntry.WrittenEntry | src/main/java/org/corfudb/infrastructure/LogUnitServer.java:82-83 | a write request's entry holds its data and streams and is neither a hole nor persisted |
| LogEntry.HoleEntry | src/main/java/org/corfudb/infrastructure/LogUnitServer.java:128 | a fill-hole entry is a hole with no buffer and no streams |
| LogEntry.Weight | src/main/java/org/corfudb/infrastructure/LogUnitServer.java:195 | an entry weighs 1 with no buffer, else its readable byte count; only an empty buffer weighs 0 |
| LogEntry.HoleWeight | src/main/java/org/corfudb/infrastructure/LogUnitServer.java:195 | a hole weighs exactly 1 |
| LogEntry.AddressRange | src/main/java/org/corfudb/infrastructure/LogUnitServer.java:250 | a discretized closed range holds exactly the addresses from lo up to hi |
| LogEntry.Union | src/main/java/org/corfudb/infrastructure/LogUnitServer.java:248-253 | an address is in the union iff some requested range contains it |
| InMemory.InMemoryLog.constructor | src/main/java/org/corfudb/infrastructure/log/InMemoryLog.java:17-20 | the map starts empty |
| InMemory.InMemoryLog.BackendWrite | src/main/java/org/corfudb/infrastructure/log/InMemoryLog.java:22-24 | backendWrite replaces the entry at its address and leaves every other address unchanged; there is no duplicate check |
| InMemory.InMemoryLog.BackendRead | src/main/java/org/corfudb/infrastructure/log/InMemoryLog.java:26-28 | backendRead gives the stored entry, or null exactly when none is stored |
| InMemory.InMemoryLog.InitializeLog | src/main/java/org/corfudb/infrastructure/log/InMemoryLog.java:30-32 | initializeLog changes nothing |
| InMemory.InMemoryLog.BackendStreamWrite | src/main/java/org/corfudb/infrastructure/log/InMemoryLog.java:34-36 | backendStreamWrite changes nothing |
| InMemory.InMemoryLog.BackendStreamRead | src/main/java/org/corfudb/infrastructure/log/InMemoryLog.java:38-40 | backendStreamRead gives an empty range set |
| InMemory.LastWriteTo | src/main/java/org/corfudb/infrastructure/log/InMemoryLog.java:22-24 | finds the last write to an address in a run of writes, or reports that none exists |
| InMemory.ReadGivesLastWrite | src/main/java/org/corfudb/infrastructure/log/InMemoryLog.java:19-28 | after any run of writes on a fresh log, an address reads as the entry of its last write, or as null if it was never written |
| InMemory.StreamWriteThenRead | src/main/java/org/corfudb/infrastructure/log/InMemoryLog.java:34-40 | a stream read gives the empty set whatever stream write preceded it, and the map is unchanged |
| InMemory.WriteThenRead | src/main/java/org/corfudb/infrastructure/log/InMemoryLog.java:22-28 | read after write gives the entry written; other addresses keep their entries |
| SortedKeys.MinimumExists | src/main/java/org/corfudb/infrastructure/LogUnitServer.java:281 | a non-empty address set has a least element |
| SortedKeys.Least | src/main/java/org/corfudb/infrastructure/LogUnitServer.java:281 | the least element of a non-empty address set |
| SortedKeys.SortedAddresses | src/main/java/org/corfudb/infrastructure/LogUnitServer.java:281 | a TreeSet's iteration order: strictly ascending, holding exactly the keys |
| SortedKeys.CountInIsCardinality | src/main/java/org/corfudb/infrastructure/LogUnitServer.java:282-301 | counting hits along an ascending list gives the size of the hit set |
| SortedKeys.CountAll | src/main/java/org/corfudb/infrastructure/LogUnitServer.java:282-301 | counting the members of t along an ascending list that holds all of them gives the size of t |
| LogUnit.Loaded | src/main/java/org/corfudb/infrastructure/LogUnitServer.java:213-233 | a get caches a loaded miss and changes what no address reads as |
| LogUnit.LoadedAll | src/main/java/org/corfudb/infrastructure/LogUnitServer.java:255 | getAll caches exactly the requested misses the local log holds, without changing any view |
| LogUnit.LoadedAllStep | src/main/java/org/corfudb/infrastructure/LogUnitServer.java:255 | loading keys one at a time is the same as loading them all at once |
| LogUnit.RangeReply | src/main/java/org/corfudb/infrastructure/LogUnitServer.java:255-258 | a range reply's keys all lie among the requested addresses; a requested address is in the reply iff it reads as an entry, mapped to that entry |
| LogUnit.Filled | src/main/java/org/corfudb/infrastructure/LogUnitServer.java:128 | fill-hole is insert-if-absent: a hole only where the cache has nothing; an existing entry, data or hole, stays |
| LogUnit.FillHoleIdempotent | src/main/java/org/corfudb/infrastructure/LogUnitServer.java:128 | a second fill at the same address changes nothing |
| LogUnit.FillHoleReads | src/main/java/org/corfudb/infrastructure/LogUnitServer.java:128 | after a fill the address reads as its old cached entry, or as a hole; other addresses read as before |
| LogUnit.Classify | src/main/java/org/corfudb/infrastructure/LogUnitServer.java:100-106 | a point read gives EMPTY iff nothing is there, FILLED_HOLE iff a hole is there, and otherwise the entry itself |
| LogUnit.Raised | src/main/java/org/corfudb/infrastructure/LogUnitServer.java:134-135 | trim(s, p) sets s's watermark to p if s had none, else to max(prev, p); other streams keep theirs |
| LogUnit.TrimIdempotent | src/main/java/org/corfudb/infrastructure/LogUnitServer.java:134-135 | repeating a trim changes nothing |
| LogUnit.TrimsNeverLower | src/main/java/org/corfudb/infrastructure/LogUnitServer.java:134-135 | over any run of trims no watermark decreases, and each trimmed stream ends at least at every prefix it was trimmed to |
| LogUnit.TrimmableGrows | src/main/java/org/corfudb/infrastructure/LogUnitServer.java:287-298 | raising a watermark never makes an entry untrimmable |
| LogUnit.Collect | src/main/java/org/corfudb/infrastructure/LogUnitServer.java:298-318 | the intended pass removes exactly the trimmable entries, leaves the others unchanged, and never removes an entry with no streams |
| LogUnit.CollectFrees | src/main/java/org/corfudb/infrastructure/LogUnitServer.java:298-301 | the intended pass removes as many entries as the count of trimmable entries |
| LogUnit.CollectIdempotent | src/main/java/org/corfudb/infrastructure/LogUnitServer.java:282-307 | a second intended pass with the same watermarks removes nothing more |
| LogUnit.TrimmedEntryStaysCached | src/main/java/org/corfudb/infrastructure/LogUnitServer.java:275-318 | on a server whose one entry is trimmable, handleGC reports one freed entry, yet the entry is still in the cache afterwards; the intended pass removes it |
| LogUnit.RequestedAddresses | src/main/java/org/corfudb/infrastructure/LogUnitServer.java:248-253 | the read-range loop collects exactly the union of the requested ranges |
| LogUnit.LogUnitServer.constructor | src/main/java/org/corfudb/infrastructure/LogUnitServer.java:157-173 | an in-memory log unit starts with an empty cache, no watermarks and an empty local log |
| LogUnit.LogUnitServer.Reset | src/main/java/org/corfudb/infrastructure/LogUnitServer.java:186-218 | reset leaves a new, empty cache and trim map; the local log keeps its entries |
| LogUnit.LogUnitServer.HandleRetrieval | src/main/java/org/corfudb/infrastructure/LogUnitServer.java:229-233 | the loader gives the local log's entry, or null when the local log has none |
| LogUnit.LogUnitServer.Get | src/main/java/org/corfudb/infrastructure/LogUnitServer.java:213 | get gives what the address reads as, and only a loaded miss is added to the cache |
| LogUnit.LogUnitServer.CacheWriterWrite | src/main/java/org/corfudb/infrastructure/LogUnitServer.java:200-207 | an overwrite iff the cache already holds the address; otherwise the entry goes to the local log iff it is not yet persisted |
| LogUnit.LogUnitServer.Put | src/main/java/org/corfudb/infrastructure/LogUnitServer.java:198-207 | a put fails on an address already cached and leaves the existing entry unchanged; a successful put caches the entry and writes it to the local log iff it is not yet persisted |
| LogUnit.LogUnitServer.Write | src/main/java/org/corfudb/infrastructure/LogUnitServer.java:76-94 | a REPLEX_STREAM write replies ERROR_OK and stores nothing; any other write replies ERROR_OK and stores the entry in the cache and the local log iff the address was not cached, else ERROR_OVERWRITE with nothing changed |
| LogUnit.LogUnitServer.ReadNormal | src/main/java/org/corfudb/infrastructure/LogUnitServer.java:96-107 | a point read classifies what the address reads as through the cache, consulting the local log on a miss |
| LogUnit.LogUnitServer.ReadRange | src/main/java/org/corfudb/infrastructure/LogUnitServer.java:246-260 | a range read looks up the union of the requested ranges in one batch, and replies with the entries found there and nothing else |
| LogUnit.LogUnitServer.GetAll | src/main/java/org/corfudb/infrastructure/LogUnitServer.java:255 | a batch lookup gives each requested address's entry, as get would, and caches the misses it loads |
| LogUnit.LogUnitServer.FillHole | src/main/java/org/corfudb/infrastructure/LogUnitServer.java:126-130 | fill-hole inserts a hole only where the cache has nothing, and touches neither the watermarks nor the local log |
| LogUnit.LogUnitServer.Trim | src/main/java/org/corfudb/infrastructure/LogUnitServer.java:132-137 | trim raises the stream's watermark with max and leaves the cache unchanged |
| LogUnit.LogUnitServer.IsTrimmable | src/main/java/org/corfudb/infrastructure/LogUnitServer.java:288-297 | the stream loop keeps `trimmable` true iff every stream has a watermark at or beyond the address |
| LogUnit.LogUnitServer.VisitAddress | src/main/java/org/corfudb/infrastructure/LogUnitServer.java:283-306 | an address is counted iff its entry names at least one stream and every stream it names is trimmed to it; entries with no streams are never counted |
| LogUnit.LogUnitServer.HandleGC | src/main/java/org/corfudb/infrastructure/LogUnitServer.java:275-311 | the pass visits every cached address in ascending order, counts exactly the trimmable entries, and returns true |
| LogUnit.LogUnitServer.HandleGCIntended | src/main/java/org/corfudb/infrastructure/LogUnitServer.java:275-323 | the pass as intended: the same count, which is exactly the number of entries it removes from the cache |
| LogUnit.WriteThenRead | src/main/java/org/corfudb/infrastructure/LogUnitServer.java:76-107 | a write to an address not yet cached, then a read of it, replies ERROR_OK and then the data written |
| LogUnit.WriteTwiceThenRead | src/main/java/org/corfudb/infrastructure/LogUnitServer.java:76-107 | a second write to an address is refused with ERROR_OVERWRITE, and the first write's data stays |
| Base.SetEpochStep | src/main/java/org/corfudb/infrastructure/BaseServer.java:50-61 | a request at or above the current epoch moves the epoch to it and replies ACK; an older one leaves the epoch and replies WRONG_EPOCH with the current epoch |
| Base.SetEpoch | src/main/java/org/corfudb/infrastructure/BaseServer.java:50-61 | SET_EPOCH on the router does one SetEpochStep |
| Base.Ping | src/main/java/org/corfudb/infrastructure/BaseServer.java:40-42 | PING always replies PONG and changes nothing |
| Base.Reset | src/main/java/org/corfudb/infrastructure/BaseServer.java:87-90 | reset leaves the epoch as it was |
| Base.EpochNeverDecreases | src/main/java/org/corfudb/infrastructure/BaseServer.java:51-60 | over any run of SET_EPOCH requests the epoch never decreases, and it ends at the largest of the starting epoch and the requests |
| Base.ResendIsNoOp | src/main/java/org/corfudb/infrastructure/BaseServer.java:51-54 | re-sending the current epoch is accepted and changes nothing |
| Base.RejectedThenReplayed | src/main/java/org/corfudb/infrastructure/BaseServer.java:55-60 | a rejected request has no effect on any run of requests after it |

## Left out

- **Caffeine's eviction and `maximumWeight`.** The library is not part of
  this model, so the cache is an unbounded map. `maxCacheSize` is kept but
  unused, eviction never happens, and nothing is claimed about total
  weight.
- **Buffer reference counting** (`copy`, `release`, `handleEviction`,
  releases in `reset` and `trimEntry`). This belongs to Netty. An entry's
  buffer is a value here.
- **Concurrency.** The GC thread, `runGC`, the retry loop, `gc_interval`,
  `force_gc`, the parallel streams in range read, `synchronized`, and
  `shutdown` are left out. The model is single-threaded. Each handler is
  one atomic step.
- **Response plumbing.** The router's `sendResponse` and the channel
  context are left out. A reply is the handler's return value.
- **`RollingLog` and `AbstractLocalLog`** are not part of this model.
  `localLog.write` and `localLog.read` are taken to be `InMemoryLog`'s
  `backendWrite` and `backendRead`, with no range or duplicate checks
  added.
- **`LogUnitEntry`, `LogAddress`, `WriteMode` and `Utils.discretizeRange`.**
  Their sources are not part of this model.
  - An entry is reduced to what the log unit reads: address, buffer,
    streams, hole flag, persisted flag.
  - A cache key is the address.
  - `discretizeRange` is taken as the closed range lo..hi.
- **Floating point.** DOUBLE, FLOAT, DOUBLE_ARRAY and FLOAT_ARRAY are left
  out. Their tags 5, 6, 12 and 13 deserialize to "unmodelled row".
- **Reflection.** CORFU_SMR's serializer and deserializer (`$ByteBuddy$`
  objects, tag 15) are left out. Serialize routes such objects to an
  outcome marked as CORFU_SMR.
- **`Object.class` in SerializerMap.** CORFU_SMR's classType is
  `Object.class`, so a plain `new Object()` finds CORFU_SMR's serializer.
  That serializer writes class names and then throws from
  `getDeclaredField`, without reaching "Unsupported class". The model's
  unlisted objects (`JOther`) exclude objects whose runtime class is
  exactly `Object`, and this path is not modelled.
- **Null elements of boxed arrays** (a NullPointerException on unboxing)
  are not represented. Array elements are always values.
- **Scalar primitive classes.** The primitive classes of the scalar rows
  (`byte.class` and so on) are in `SerializerMap`. No object has them as
  its runtime class, so no object reaches them.
- Codec.NewString: decodes only ASCII bytes. Other bytes
  follow the platform charset's replacement rules, which are not modelled.
  `getBytes()` is taken as UTF-8.
- **Unpaired surrogates.** A Dafny `char` is a Unicode scalar value, so the
  model's strings never hold a lone surrogate. A Java String can, and
  `getBytes()` turns one into `?`; that case is not modelled.
- ByteBuffer.ReadArray: the reader index after a failed element read, or
  after a negative length, is not specified.
- **Process-level handlers.** `doReset` (`System.exit`), `getVersion` (JSON
  options) and the constructor's option parsing are left out.
- LogUnit.LogUnitServer.HandleGC: the cache is left as it was, because
  `invalidate(long)` removes nothing (see Findings). The pass that removes
  the trimmable entries is HandleGCIntended.

## Findings

| source | as written | input that shows it | evidently intended | confidence | as-written member | corrected member |
|---|---|---|---|---|---|---|
| src/main/java/org/corfudb/util/serializer/PrimitiveSerializer.java:61-65 | BYTE_ARRAY lists `Byte[].class` as its primitiveClass. Its serializer is a `SerializerFunction<byte[]>`, whose adapter casts the argument to `byte[]` before `writeBytes` runs | `new Byte[]{7}`: ClassCastException before anything is written | a Byte[] is written like the byte[] with the same elements | high; not executed | PrimitiveSerializer.BoxedByteArrayThrows | PrimitiveSerializer.RoundTrip |
| src/main/java/org/corfudb/util/serializer/PrimitiveSerializer.java:117-124 | `short[]`, `int[]`, `long[]` and `boolean[]` are listed as primitiveClass. The row lambdas take the boxed array type | `new int[]{7}`: ClassCastException before anything is written | primitive arrays are written like the boxed ones | high; not executed | PrimitiveSerializer.PrimitiveIntArrayThrows | PrimitiveSerializer.RoundTrip |
| src/main/java/org/corfudb/util/serializer/PrimitiveSerializer.java:117-118 | `ByteBuf::writeShort` takes an int, so writeArray's element type R is bound to Integer. Each Short element is then cast to Integer | `new Short[]{7}`: the count is written, then ClassCastException | a Short[] is written element by element as shorts | medium; not executed | PrimitiveSerializer.ShortArrayThrows | PrimitiveSerializer.RoundTrip |
| src/main/java/org/corfudb/infrastructure/LogUnitServer.java:318 | `trimEntry` calls `dataCache.invalidate(address)` with the raw `long`. The cache is keyed by `LogAddress` | an entry at 5 with one stream trimmed to 10: it is counted as freed but stays in the cache | the trimmable entry leaves the cache | medium; not executed | LogUnit.TrimmedEntryStaysCached | LogUnit.LogUnitServer.HandleGCIntended |

