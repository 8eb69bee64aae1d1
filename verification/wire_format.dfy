/**
 * The byte layout of the dumpalloc trace records and the structures declared in
 * dumpalloc-file.h, as pure decode/encode functions.
 *
 * Each Decode function takes the bytes that remain in the stream and gives back the
 * decoded value together with the number of bytes it occupies, or None when the
 * stream ends first. The reader methods in DumpallocFile are specified against these.
 */
module WireFormat {
  import opened Wrappers
  import opened Endian

  /** A four-character record type tag (char type[4]). */
  type Tag = s: seq<Byte> | |s| == 4 witness [0, 0, 0, 0]

  /** A byte string whose length fits the 32-bit length prefix. */
  type WireString = s: seq<Byte> | |s| < 0x1_0000_0000

  /** dumpalloc_file_timestamp_t: signed 64-bit seconds, unsigned 32-bit nanoseconds. */
  datatype Timestamp = Timestamp(seconds: Int64, nanoseconds: Uint32)

  /** dumpalloc_file_precalc_record_t. */
  datatype PrecalcRecord = PrecalcRecord(functionName: seq<Byte>, sourceFileName: seq<Byte>, lineNumber: Uint32)

  /** dumpalloc_file_frame_record_t; payload_length is |payload|. */
  datatype FrameRecord = FrameRecord(tag: Tag, payload: seq<Byte>)

  /** The fields written by dumpalloc_file_read_record_header. The size is not validated. */
  datatype RecordHeader = RecordHeader(tag: Tag, size: Int32)

  datatype ProcessRecord = ProcessRecord(pid: Int32, name: seq<Byte>)

  datatype AllocationRecord = AllocationRecord(address: Uint64, timestamp: Timestamp)

  /** A decoded value and the number of stream bytes it occupied. */
  datatype Decoded<+T> = Decoded(value: T, used: nat)

  // Record header: [4-byte tag][4-byte little-endian signed size].

  function DecodeHeader(s: seq<Byte>): Option<Decoded<RecordHeader>>
  {
    if |s| < 8 then None
    else Some(Decoded(RecordHeader(s[..4], LeInt32(s[4..8])), 8))
  }

  function EncodeHeader(h: RecordHeader): (s: seq<Byte>)
    ensures |s| == 8
  {
    h.tag + Int32Bytes(h.size)
  }

  // String: [4-byte little-endian unsigned length L][L raw bytes].

  function DecodeString(s: seq<Byte>): (r: Option<Decoded<WireString>>)
    ensures r.Some? ==> r.value.used == 4 + |r.value.value| <= |s|
  {
    if |s| < 4 then None
    else
      var length := LeUint32(s[..4]);
      if |s| - 4 < length then None
      else Some(Decoded(s[4..4 + length], 4 + length))
  }

  function EncodeString(str: WireString): (s: seq<Byte>)
    ensures |s| == 4 + |str|
  {
    Uint32Bytes(|str|) + str
  }

  // Timestamp: [8-byte little-endian signed seconds][4-byte nanoseconds].

  function DecodeTimestamp(s: seq<Byte>): Option<Decoded<Timestamp>>
  {
    if |s| < 12 then None
    else Some(Decoded(Timestamp(LeInt64(s[..8]), LeUint32(s[8..12])), 12))
  }

  function EncodeTimestamp(t: Timestamp): (s: seq<Byte>)
    ensures |s| == 12
  {
    Int64Bytes(t.seconds) + Uint32Bytes(t.nanoseconds)
  }

  // Process record: [4-byte pid][String name].

  function DecodeProcess(s: seq<Byte>): (r: Option<Decoded<ProcessRecord>>)
    ensures r.Some? ==> r.value.used == 8 + |r.value.value.name| <= |s|
  {
    if |s| < 4 then None
    else
      match DecodeString(s[4..])
      case None => None
      case Some(name) => Some(Decoded(ProcessRecord(LeInt32(s[..4]), name.value), 4 + name.used))
  }

  function EncodeProcess(p: ProcessRecord): (s: seq<Byte>)
    requires |p.name| < 0x1_0000_0000
    ensures |s| == 8 + |p.name|
  {
    Int32Bytes(p.pid) + EncodeString(p.name)
  }

  // Allocation record: [8-byte address][Timestamp].

  function DecodeAllocation(s: seq<Byte>): (r: Option<Decoded<AllocationRecord>>)
    ensures r.Some? ==> r.value.used == 20
  {
    if |s| < 8 then None
    else
      match DecodeTimestamp(s[8..])
      case None => None
      case Some(ts) => Some(Decoded(AllocationRecord(LeUint64(s[..8]), ts.value), 8 + ts.used))
  }

  function EncodeAllocation(a: AllocationRecord): (s: seq<Byte>)
    ensures |s| == 20
  {
    Uint64Bytes(a.address) + EncodeTimestamp(a.timestamp)
  }

  // Round trips: decoding the encoding of a value, followed by anything, gives the value
  // back and uses exactly the encoded bytes.

  lemma HeaderRoundTrip(h: RecordHeader, rest: seq<Byte>)
    ensures DecodeHeader(EncodeHeader(h) + rest) == Some(Decoded(h, 8))
  {
    var s := EncodeHeader(h) + rest;
    assert s[..4] == h.tag;
    assert s[4..8] == Int32Bytes(h.size);
    FixedWidthRoundTrip(0, h.size, 0, 0);
  }

  lemma StringRoundTrip(str: WireString, rest: seq<Byte>)
    ensures DecodeString(EncodeString(str) + rest) == Some(Decoded(str, 4 + |str|))
  {
    var s := EncodeString(str) + rest;
    assert s[..4] == Uint32Bytes(|str|);
    FixedWidthRoundTrip(|str|, 0, 0, 0);
    assert s[4..4 + |str|] == str;
  }

  lemma TimestampRoundTrip(t: Timestamp, rest: seq<Byte>)
    ensures DecodeTimestamp(EncodeTimestamp(t) + rest) == Some(Decoded(t, 12))
  {
    var s := EncodeTimestamp(t) + rest;
    assert s[..8] == Int64Bytes(t.seconds);
    assert s[8..12] == Uint32Bytes(t.nanoseconds);
    FixedWidthRoundTrip(t.nanoseconds, 0, 0, t.seconds);
  }

  lemma ProcessRoundTrip(p: ProcessRecord, rest: seq<Byte>)
    requires |p.name| < 0x1_0000_0000
    ensures DecodeProcess(EncodeProcess(p) + rest) == Some(Decoded(p, 8 + |p.name|))
  {
    var s := EncodeProcess(p) + rest;
    assert s[..4] == Int32Bytes(p.pid);
    assert s[4..] == EncodeString(p.name) + rest;
    FixedWidthRoundTrip(0, p.pid, 0, 0);
    StringRoundTrip(p.name, rest);
  }

  lemma AllocationRoundTrip(a: AllocationRecord, rest: seq<Byte>)
    ensures DecodeAllocation(EncodeAllocation(a) + rest) == Some(Decoded(a, 20))
  {
    var s := EncodeAllocation(a) + rest;
    assert s[..8] == Uint64Bytes(a.address);
    assert s[8..] == EncodeTimestamp(a.timestamp) + rest;
    FixedWidthRoundTrip(0, 0, a.address, 0);
    TimestampRoundTrip(a.timestamp, rest);
  }

  // The other direction: whatever a decoder accepts is exactly the encoding of its result,
  // so the decoders read nothing beyond the bytes they report as used.

  lemma HeaderCanonical(s: seq<Byte>)
    requires DecodeHeader(s).Some?
    ensures var d := DecodeHeader(s).value; d.used <= |s| && s[..d.used] == EncodeHeader(d.value)
  {
    FixedWidthCanonical(s[4..8], [0, 0, 0, 0, 0, 0, 0, 0]);
    assert s[..8] == s[..4] + s[4..8];
  }

  lemma StringCanonical(s: seq<Byte>)
    requires DecodeString(s).Some?
    ensures var d := DecodeString(s).value; s[..d.used] == EncodeString(d.value)
  {
    var d := DecodeString(s).value;
    FixedWidthCanonical(s[..4], [0, 0, 0, 0, 0, 0, 0, 0]);
    assert s[..d.used] == s[..4] + s[4..d.used];
  }

  lemma TimestampCanonical(s: seq<Byte>)
    requires DecodeTimestamp(s).Some?
    ensures var d := DecodeTimestamp(s).value; d.used <= |s| && s[..d.used] == EncodeTimestamp(d.value)
  {
    FixedWidthCanonical(s[8..12], s[..8]);
    assert s[..12] == s[..8] + s[8..12];
  }

  lemma ProcessCanonical(s: seq<Byte>)
    requires DecodeProcess(s).Some?
    ensures var d := DecodeProcess(s).value; s[..d.used] == EncodeProcess(d.value)
  {
    var d := DecodeProcess(s).value;
    FixedWidthCanonical(s[..4], [0, 0, 0, 0, 0, 0, 0, 0]);
    StringCanonical(s[4..]);
    assert s[..d.used] == s[..4] + s[4..][..d.used - 4];
  }

  lemma AllocationCanonical(s: seq<Byte>)
    requires DecodeAllocation(s).Some?
    ensures var d := DecodeAllocation(s).value; d.used <= |s| && s[..d.used] == EncodeAllocation(d.value)
  {
    var address := s[..8];
    var ts := DecodeTimestamp(s[8..]).value;
    assert DecodeAllocation(s).value == Decoded(AllocationRecord(LeUint64(address), ts.value), 20);
    assert Uint64Bytes(LeUint64(address)) == address by {
      FixedWidthCanonical([0, 0, 0, 0], address);
    }
    assert s[8..][..12] == EncodeTimestamp(ts.value) by {
      TimestampCanonical(s[8..]);
    }
    assert s[..20] == address + s[8..][..12];
  }
}
