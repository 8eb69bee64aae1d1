# dumpalloc trace reader and call-site graph, in Dafny

This project models two pieces of dumpalloc:

- the record reader of the allocation trace file (`common/src/dumpalloc_file.c`, with the
  structures and contracts of `common/include/dumpalloc-file.h`): the exact-length read loop
  `read_bytes` and the readers of record headers, length-prefixed strings, timestamps, and
  process, object and allocation records;
- the onward-call edge list of a call site in readalloc (`readalloc/src/CallSite.cpp`):
  `add_onward_call` and `clear_costs`.

Files:

- `wrappers.dfy` — `Option`, which stands for the NULL results and non-zero status codes.
- `endian.dfy` — bytes, the C integer widths as subset types, little-endian decode and encode
  with round-trip lemmas (in place of `le32toh`/`le64toh`).
- `wire_format.dfy` — the structures of `dumpalloc-file.h` as datatypes, and each record layout
  as a pure decoder (`Decode*`, giving the value and the number of bytes it occupies) with an
  encoder and lemmas in both directions: decoding an encoding gives the value back, and
  whatever a decoder accepts is exactly the encoding of its result.
- `dumpalloc_file.dfy` — the file descriptor as a `ByteSource` class (the bytes it delivers and
  a cursor) whose `Read` delivers any number of bytes from 1 up to the request while input
  remains; `ReadBytes` with the retry loop; one method per reader, each proved to consume exactly
  the bytes its decoder reports and return the decoded value, or to return `None` with the
  stream exhausted.
- `call_graph.dfy` — `CallSite` as a class with `timesCalled`, `cumAlloc` and
  `onwardCalls: seq<OnwardCall>`; `OnwardCall` as a datatype holding the target reference.
  The two methods are proved against the pure functions `AddEdge` and `ClearedEdges`, whose
  properties (first match, append-only, idempotence, distinct targets kept) are lemmas.

Modelling decisions:

- A negative record size is returned as decoded; the code does not reject it (it is not checked
  for being negative or implausibly large).
- A string length is not checked against any maximum; a length beyond the end of the stream is a
  short read.
- The frame, precalculated-frame and deallocation readers have empty bodies in the code and are
  not modelled as operations (see Left out).
- `add_onward_call` compares targets by pointer, so the model compares `CallSite` references,
  not a structural call-site identity.
- The pid (`dumpalloc_file.c:145`), the nanoseconds (`:101`) and the address (`:180`) are copied
  in host byte order, while the size and the seconds pass through `le32toh`/`le64toh`. The model
  decodes all of them little-endian, which is what the code does on a little-endian host.
- `dumpalloc_file_read_timestamp2` calls `dumpalloc_file_read_timestamp` without the file
  descriptor (`dumpalloc_file.c:122`) and does not compile as written; `ReadTimestamp2` models the
  evident intent: read a timestamp from the same source into a structure, or fail.
- `ReadProcessRecord` and `ReadObjectRecord` read their names with the corrected `ReadString`
  (see Findings), so the names they return end in a zero byte. As written, the code at
  `dumpalloc_file.c:149` and `:164` hands back the unterminated buffer of exactly L bytes that
  `ReadStringUnterminated` models.
- `read_timestamp` writes the nanoseconds through an `int32_t*`, while the structure field is a
  `uint32_t`; `ReadTimestamp` returns the signed value and `ReadTimestamp2` stores the unsigned
  value of the same four bytes (`AsUint32`).

## Model

| member | source | states |
|---|---|---|
| `Endian.LeUint` | common/src/dumpalloc_file.c:58 | the little-endian value of n bytes is below 256^n, so four bytes fit an unsigned 32-bit and eight an unsigned 64-bit field |
| `Endian.FixedWidthRoundTrip` | common/src/dumpalloc_file.c:58 | decoding the little-endian bytes of any uint32, int32, uint64 or int64 value gives that value back |
| `Endian.FixedWidthCanonical` | common/src/dumpalloc_file.c:98 | every 4- and 8-byte pattern is the encoding of its decode, signed and unsigned, so decoding loses nothing |
| `Endian.AsUint32` | common/src/dumpalloc_file.c:122 | the uint32 field filled through an int32 pointer holds the unsigned reading of the same four bytes |
| `WireFormat.DecodeString` | common/src/dumpalloc_file.c:63-84 | a string that decodes occupies exactly 4 + L stream bytes, L its length, and never more than the stream holds |
| `WireFormat.DecodeProcess` | common/src/dumpalloc_file.c:134-155 | a process record that decodes occupies exactly 8 + L bytes: the pid and the length-prefixed name |
| `WireFormat.DecodeAllocation` | common/src/dumpalloc_file.c:169-187 | an allocation record that decodes occupies exactly 20 bytes: the address and the 12-byte timestamp |
| `WireFormat.HeaderRoundTrip` | common/src/dumpalloc_file.c:41-61 | a header's 4-byte tag and signed size, encoded and followed by anything, decode to the same header using 8 bytes |
| `WireFormat.HeaderCanonical` | common/include/dumpalloc-file.h:40-46 | a decoded header is exactly the four tag bytes followed by the little-endian size it was read from |
| `WireFormat.StringRoundTrip` | common/src/dumpalloc_file.c:63-84 | a string encoded with its length prefix decodes to the same bytes using 4 + L bytes |
| `WireFormat.StringCanonical` | common/src/dumpalloc_file.c:63-84 | the bytes a string decode uses are exactly the length prefix and the returned body |
| `WireFormat.TimestampRoundTrip` | common/src/dumpalloc_file.c:90-113 | an encoded timestamp decodes to the same seconds and nanoseconds using 12 bytes |
| `WireFormat.TimestampCanonical` | common/include/dumpalloc-file.h:23-26 | the 12 bytes a timestamp decode uses are exactly the encoding of its signed 64-bit seconds and unsigned 32-bit nanoseconds |
| `WireFormat.ProcessRoundTrip` | common/src/dumpalloc_file.c:134-155 | an encoded process record decodes to the same pid and name using 8 + L bytes |
| `WireFormat.ProcessCanonical` | common/src/dumpalloc_file.c:134-155 | the bytes a process decode uses are exactly the pid followed by the encoded name |
| `WireFormat.AllocationRoundTrip` | common/src/dumpalloc_file.c:169-187 | an encoded allocation record decodes to the same address and timestamp using 20 bytes |
| `WireFormat.AllocationCanonical` | common/src/dumpalloc_file.c:169-187 | the 20 bytes an allocation decode uses are exactly the address followed by the encoded timestamp |
| `DumpallocFile.ByteSource.Read` | common/src/dumpalloc_file.c:31 | a read delivers between 1 and the requested count of the next bytes while input remains, 0 at end of input, and writes nothing outside the delivered range |
| `DumpallocFile.ReadBytes` | common/src/dumpalloc_file.c:26-39 | under any pattern of partial reads, returns the requested count, or fewer only when the input ends; the buffer's first part holds exactly the consumed bytes and the rest is untouched |
| `DumpallocFile.ReadRecordHeader` | common/src/dumpalloc_file.c:41-61 | on success consumes exactly 8 bytes and returns the 4 tag bytes and the signed little-endian size, negative sizes included; a short tag or size gives None |
| `DumpallocFile.ReadString` | common/include/dumpalloc-file.h:48-54 | on success consumes 4 + L bytes and returns the L body bytes followed by a zero terminator; a short length or body gives None and no partial string |
| `DumpallocFile.ReadStringUnterminated` | common/src/dumpalloc_file.c:63-84 | as written: on success consumes 4 + L bytes and returns a buffer of exactly the L body bytes, with no room for a terminator |
| `DumpallocFile.UnterminatedStringExample` | common/src/dumpalloc_file.c:73 | the stream 03 00 00 00 'a' 'b' 'c' yields a body with no zero byte, so the as-written buffer is not zero-terminated while the corrected one is |
| `DumpallocFile.ReadTimestamp` | common/src/dumpalloc_file.c:90-113 | consumes 12 bytes on success whether or not nanoseconds are wanted; seconds are the signed 64-bit decode; nanoseconds are returned only when wanted |
| `DumpallocFile.ReadTimestamp2` | common/src/dumpalloc_file.c:115-128 | returns the decoded timestamp after consuming 12 bytes, or None when fewer remain |
| `DumpallocFile.ReadProcessRecord` | common/src/dumpalloc_file.c:134-155 | succeeds only when both the pid and the name are read, consuming 8 + L bytes; the name is the L body bytes plus the terminator added by the corrected string read (see Findings) |
| `DumpallocFile.ReadObjectRecord` | common/src/dumpalloc_file.c:157-167 | succeeds exactly when the embedded string read succeeds, with the same bytes consumed; the name is the L body bytes plus the terminator added by the corrected string read (see Findings) |
| `DumpallocFile.ReadAllocationRecord` | common/src/dumpalloc_file.c:169-187 | succeeds only when the address and the timestamp are both read, consuming 20 bytes |
| `CallGraph.FindEdge` | readalloc/src/CallSite.cpp:26-31 | finds the first edge whose target is the given site, and finds none exactly when no edge targets it |
| `CallGraph.ClearedEdges` | readalloc/src/CallSite.cpp:43-46 | the cleared list has the same length, and each edge keeps its target with both counters zero |
| `CallGraph.AddEdgeTargetsSite` | readalloc/src/CallSite.cpp:24-35 | the returned edge targets the given site; every earlier edge is kept in place, and at most one edge is added |
| `CallGraph.AddEdgeGrowsIffAbsent` | readalloc/src/CallSite.cpp:33-35 | the list grows exactly when no edge targeted the site, and then by one zero-cost edge at the end, which is returned |
| `CallGraph.AddEdgeIdempotent` | readalloc/src/CallSite.cpp:24-35 | a second call with the same site returns the same index and leaves the list unchanged |
| `CallGraph.AddEdgePreservesDistinct` | readalloc/src/CallSite.cpp:24-35 | if every target had at most one edge before, it still has after |
| `CallGraph.ClearedEdgesIdempotent` | readalloc/src/CallSite.cpp:39-47 | clearing twice leaves the edges as clearing once |
| `CallGraph.ClearedEdgesKeepTargets` | readalloc/src/CallSite.cpp:43-46 | clearing neither merges nor separates targets: the edges stay distinct exactly when they were |
| `CallGraph.CallSite.AddOnwardCall` | readalloc/src/CallSite.cpp:24-36 | returns the index of the first edge to the site with the list unchanged, or appends one zero-cost edge to it and returns its index; changes only the edge list |
| `CallGraph.CallSite.ClearCosts` | readalloc/src/CallSite.cpp:39-47 | zeroes the site's two counters and every edge's counters, keeping edge count, order and targets; changes nothing outside this site |

## Left out

- The `read` system call and the integer descriptor: a `ByteSource` stands for them. A read error (a negative return) is not told apart from end of input, as `read_bytes` treats both alike.
- `assert` calls and NULL-pointer checks on out-parameters: the model has no null out-parameters.
- Partial out-parameter writes: when a reader fails after its first field, the C code has already written that field (the tag, the seconds, the pid, the address) through the caller's pointer. The readers here return `None` and do not expose those leftover values.
- `calloc`/`malloc` failure and `free`: allocation never fails in the model and buffers are values owned by the caller.
- `dumpalloc_file_free_string` and `dumpalloc_file_free_timestamp`: they only release memory (the latter frees an undeclared `rec` and does not compile).
- `dumpalloc_file_read_frame_record`, `dumpalloc_file_read_precalc_frame`, `dumpalloc_file_free_precalc_record`, `dumpalloc_file_free_frame_record` and `dumpalloc_file_read_deallocation_record`: their bodies are empty, so there is no layout to model; `PrecalcRecord` and `FrameRecord` record their structures only.
- The integer width of `read_bytes`'s `int` total and of the `ssize_t` read result: counts are unbounded naturals.
- CallSite.h is not part of this model: the `OnwardCall(next_site)` constructor is taken to start both counters at zero, and the counter types are taken as unbounded naturals.
- Feeding stack traces into the graph, rendering and command-line handling do not appear in the modelled files.

## Findings

| source | as written | input that shows it | evidently intended | confidence | as-written member | corrected member |
|---|---|---|---|---|---|---|
| common/src/dumpalloc_file.c:73 | `calloc(length, 1)` then `length` bytes read into it: the buffer has no byte left for a terminator | stream `03 00 00 00 61 62 63`: the returned buffer is `61 62 63`, with no zero byte | a zero-terminated string as dumpalloc-file.h:51 promises: `length + 1` zeroed bytes | not executed; high | `DumpallocFile.ReadStringUnterminated`, `DumpallocFile.UnterminatedStringExample` | `DumpallocFile.ReadString`, `DumpallocFile.ReadProcessRecord`, `DumpallocFile.ReadObjectRecord` |
