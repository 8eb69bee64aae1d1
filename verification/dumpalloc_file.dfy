/**
 * The record readers of dumpalloc_file.c.
 *
 * The file descriptor is a ByteSource: the bytes the descriptor will deliver before it
 * reports end of input (or an error; read_bytes treats both as a return value <= 0) and a
 * cursor. Each reader is specified against the matching pure decoder of WireFormat: on
 * success it consumes exactly the bytes the decoder reports as used and returns the
 * decoded value; on failure it returns None, having consumed the whole stream.
 *
 * The C code converts only the header size and the timestamp seconds with le32toh/le64toh;
 * the pid, the nanoseconds and the address are copied in host byte order. The model reads
 * all of them little-endian, which is what the code does on a little-endian host.
 */
module DumpallocFile {
  import opened Wrappers
  import opened Endian
  import opened WireFormat

  /** The readable end of a file descriptor. */
  class ByteSource {
    const data: seq<Byte>
    var pos: nat

    ghost predicate Valid()
      reads this
    {
      pos <= |data|
    }

    constructor (data: seq<Byte>)
      ensures Valid() && this.data == data && pos == 0
    {
      this.data := data;
      pos := 0;
    }

    /**
     * read(2): copies between 1 and count bytes into buffer[offset..] when input remains
     * and count > 0, and returns 0 at end of input. How many bytes one call delivers is
     * not determined.
     */
    method Read(buffer: array<Byte>, offset: nat, count: nat) returns (ret: nat)
      requires Valid()
      requires offset + count <= buffer.Length
      modifies this, buffer
      ensures Valid()
      ensures ret <= count && pos == old(pos) + ret
      ensures count > 0 && old(pos) < |data| ==> ret > 0
      ensures buffer[..offset] == old(buffer[..offset])
      ensures buffer[offset..offset + ret] == data[old(pos)..pos]
      ensures buffer[offset + ret..] == old(buffer[offset + ret..])
    {
      var available := if count < |data| - pos then count else |data| - pos;
      if available == 0 {
        ret := 0;
      } else {
        ret :| 1 <= ret <= available;
      }
      forall i | 0 <= i < ret {
        buffer[offset + i] := data[pos + i];
      }
      pos := pos + ret;
    }
  }

  function Min(a: nat, b: nat): nat
  {
    if a < b then a else b
  }

  /**
   * read_bytes: reads until expectedLen bytes have arrived or the source reports end of
   * input, retrying short reads. The count it returns is short only at end of input.
   */
  method ReadBytes(src: ByteSource, buffer: array<Byte>, expectedLen: nat) returns (totalRead: nat)
    requires src.Valid()
    requires expectedLen <= buffer.Length
    modifies src, buffer
    ensures src.Valid()
    ensures totalRead == Min(expectedLen, |src.data| - old(src.pos))
    ensures src.pos == old(src.pos) + totalRead
    ensures buffer[..totalRead] == src.data[old(src.pos)..src.pos]
    ensures buffer[totalRead..] == old(buffer[totalRead..])
  {
    var remaining := expectedLen;
    totalRead := 0;
    while remaining > 0
      invariant src.Valid()
      invariant totalRead + remaining == expectedLen
      invariant src.pos == old(src.pos) + totalRead
      invariant buffer[..totalRead] == src.data[old(src.pos)..src.pos]
      invariant buffer[totalRead..] == old(buffer[totalRead..])
    {
      ghost var before := buffer[..totalRead];
      ghost var from := src.pos;
      ghost var untouched := buffer[totalRead..];
      var ret := src.Read(buffer, totalRead, remaining);
      if ret == 0 {
        break;
      }
      assert buffer[totalRead + ret..] == untouched[ret..] == old(buffer[totalRead + ret..]);
      assert buffer[..totalRead] == before == src.data[old(src.pos)..from];
      assert buffer[totalRead..totalRead + ret] == src.data[from..src.pos];
      assert buffer[..totalRead + ret] == before + buffer[totalRead..totalRead + ret];
      assert src.data[old(src.pos)..src.pos] == src.data[old(src.pos)..from] + src.data[from..src.pos];
      remaining := remaining - ret;
      totalRead := totalRead + ret;
    }
  }

  /** dumpalloc_file_read_record_header. A negative size is returned as decoded. */
  method ReadRecordHeader(src: ByteSource) returns (r: Option<RecordHeader>)
    requires src.Valid()
    modifies src
    ensures src.Valid()
    ensures match DecodeHeader(src.data[old(src.pos)..])
      case Some(d) => r == Some(d.value) && src.pos == old(src.pos) + d.used
      case None => r == None && src.pos == |src.data|
  {
    ghost var rest := src.data[src.pos..];
    var tag := new Byte[4];
    var n := ReadBytes(src, tag, 4);
    if n != 4 {
      return None;
    }
    var size := new Byte[4];
    n := ReadBytes(src, size, 4);
    if n != 4 {
      return None;
    }
    assert tag[..] == tag[..4] == rest[..4];
    assert size[..] == size[..4] == rest[4..8];
    r := Some(RecordHeader(tag[..], LeInt32(size[..])));
  }

  /**
   * dumpalloc_file_read_string, with a buffer of length + 1 zeroed bytes so that the
   * string handed to the caller is zero-terminated as dumpalloc-file.h promises.
   */
  method ReadString(src: ByteSource) returns (r: Option<seq<Byte>>)
    requires src.Valid()
    modifies src
    ensures src.Valid()
    ensures match DecodeString(src.data[old(src.pos)..])
      case Some(d) => r == Some(d.value + [0]) && src.pos == old(src.pos) + d.used
      case None => r == None && src.pos == |src.data|
  {
    ghost var rest := src.data[src.pos..];
    var lengthBytes := new Byte[4];
    var n := ReadBytes(src, lengthBytes, 4);
    if n != 4 {
      return None;
    }
    assert lengthBytes[..] == lengthBytes[..4] == rest[..4];
    var length := LeUint32(lengthBytes[..]);
    var str := new Byte[length + 1](_ => 0);
    ghost var zeroed := str[..];
    n := ReadBytes(src, str, length);
    if n != length {
      return None;
    }
    assert str[length..] == zeroed[length..] == [0];
    assert str[..] == str[..length] + str[length..];
    assert str[..length] == rest[4..4 + length];
    r := Some(str[..]);
  }

  /**
   * dumpalloc_file_read_string as written: the buffer holds exactly length bytes, all of
   * them filled from the stream, so there is no room for a terminating zero.
   */
  method ReadStringUnterminated(src: ByteSource) returns (r: Option<seq<Byte>>)
    requires src.Valid()
    modifies src
    ensures src.Valid()
    ensures match DecodeString(src.data[old(src.pos)..])
      case Some(d) => r == Some(d.value) && src.pos == old(src.pos) + d.used
      case None => r == None && src.pos == |src.data|
  {
    ghost var rest := src.data[src.pos..];
    var lengthBytes := new Byte[4];
    var n := ReadBytes(src, lengthBytes, 4);
    if n != 4 {
      return None;
    }
    assert lengthBytes[..] == lengthBytes[..4] == rest[..4];
    var length := LeUint32(lengthBytes[..]);
    var str := new Byte[length](_ => 0);
    n := ReadBytes(src, str, length);
    if n != length {
      return None;
    }
    assert str[..] == str[..length] == rest[4..4 + length];
    r := Some(str[..]);
  }

  /** A buffer usable as a C string: it holds a zero byte somewhere. */
  predicate ZeroTerminated(buffer: seq<Byte>)
  {
    exists i :: 0 <= i < |buffer| && buffer[i] == 0
  }

  /**
   * The stream [3, 0, 0, 0, 'a', 'b', 'c'] carries the string "abc". ReadStringUnterminated
   * returns the three bytes alone, which contain no zero byte, while ReadString returns them
   * followed by the terminator.
   */
  lemma UnterminatedStringExample()
    ensures var d := DecodeString([3, 0, 0, 0, 97, 98, 99]);
      && d == Some(Decoded([97, 98, 99], 7))
      && !ZeroTerminated(d.value.value)
      && ZeroTerminated(d.value.value + [0])
  {
    var s: seq<Byte> := [3, 0, 0, 0, 97, 98, 99];
    var body: seq<Byte> := [97, 98, 99];
    assert s[..4] == [3, 0, 0, 0] && s[4..7] == body;
    assert LeUint([3, 0, 0, 0]) == 3 + 256 * LeUint([0, 0, 0]);
    assert LeUint([0, 0, 0]) == 256 * LeUint([0, 0]);
    assert LeUint([0, 0]) == 256 * LeUint([0]);
    assert LeUint([0]) == 256 * LeUint([]);
    assert (body + [0])[3] == 0;
  }

  /** Seconds and, when the caller asked for them, nanoseconds, as read_timestamp writes them. */
  datatype TimestampFields = TimestampFields(seconds: Int64, nanoseconds: Option<Int32>)

  /**
   * dumpalloc_file_read_timestamp. The nanoseconds are read in both cases and dropped
   * when not wanted, so the cursor moves by the same 12 bytes either way.
   */
  method ReadTimestamp(src: ByteSource, wantNanoseconds: bool) returns (r: Option<TimestampFields>)
    requires src.Valid()
    modifies src
    ensures src.Valid()
    ensures match DecodeTimestamp(src.data[old(src.pos)..])
      case Some(d) =>
        && src.pos == old(src.pos) + d.used
        && r.Some?
        && r.value.seconds == d.value.seconds
        && (if wantNanoseconds
            then r.value.nanoseconds.Some? && AsUint32(r.value.nanoseconds.value) == d.value.nanoseconds
            else r.value.nanoseconds == None)
      case None => r == None && src.pos == |src.data|
  {
    ghost var rest := src.data[src.pos..];
    var secondsBytes := new Byte[8];
    var n := ReadBytes(src, secondsBytes, 8);
    if n != 8 {
      return None;
    }
    var seconds := LeInt64(secondsBytes[..]);
    var nanosecondsBytes := new Byte[4];
    n := ReadBytes(src, nanosecondsBytes, 4);
    if n != 4 {
      return None;
    }
    assert secondsBytes[..] == secondsBytes[..8] == rest[..8];
    assert nanosecondsBytes[..] == nanosecondsBytes[..4] == rest[8..12];
    if wantNanoseconds {
      r := Some(TimestampFields(seconds, Some(LeInt32(nanosecondsBytes[..]))));
    } else {
      r := Some(TimestampFields(seconds, None));
    }
  }

  /** dumpalloc_file_read_timestamp2: a timestamp read into a structure, or None. */
  method ReadTimestamp2(src: ByteSource) returns (r: Option<Timestamp>)
    requires src.Valid()
    modifies src
    ensures src.Valid()
    ensures match DecodeTimestamp(src.data[old(src.pos)..])
      case Some(d) => r == Some(d.value) && src.pos == old(src.pos) + d.used
      case None => r == None && src.pos == |src.data|
  {
    var fields := ReadTimestamp(src, true);
    if fields.None? {
      return None;
    }
    r := Some(Timestamp(fields.value.seconds, AsUint32(fields.value.nanoseconds.value)));
  }

  /**
   * The pid and the caller-owned name buffer, as dumpalloc_file_read_process_record writes
   * them. Unlike WireFormat.ProcessRecord, whose name is the string body on the wire, this
   * name is the buffer returned by ReadString: the body followed by its terminator.
   */
  datatype ProcessFields = ProcessFields(pid: Int32, name: seq<Byte>)

  /** dumpalloc_file_read_process_record, with the name read by ReadString. */
  method ReadProcessRecord(src: ByteSource) returns (r: Option<ProcessFields>)
    requires src.Valid()
    modifies src
    ensures src.Valid()
    ensures match DecodeProcess(src.data[old(src.pos)..])
      case Some(d) =>
        && r.Some? && r.value.pid == d.value.pid && r.value.name == d.value.name + [0]
        && src.pos == old(src.pos) + d.used
      case None => r == None && src.pos == |src.data|
  {
    ghost var rest := src.data[src.pos..];
    var pidBytes := new Byte[4];
    var n := ReadBytes(src, pidBytes, 4);
    if n != 4 {
      return None;
    }
    assert pidBytes[..] == pidBytes[..4] == rest[..4];
    assert src.data[src.pos..] == rest[4..];
    var name := ReadString(src);
    if name.None? {
      return None;
    }
    r := Some(ProcessFields(LeInt32(pidBytes[..]), name.value));
  }

  /** dumpalloc_file_read_object_record: succeeds exactly when the name string is read. */
  method ReadObjectRecord(src: ByteSource) returns (name: Option<seq<Byte>>)
    requires src.Valid()
    modifies src
    ensures src.Valid()
    ensures match DecodeString(src.data[old(src.pos)..])
      case Some(d) => name == Some(d.value + [0]) && src.pos == old(src.pos) + d.used
      case None => name == None && src.pos == |src.data|
  {
    name := ReadString(src);
  }

  /** dumpalloc_file_read_allocation_record: an 8-byte address followed by a timestamp. */
  method ReadAllocationRecord(src: ByteSource) returns (r: Option<AllocationRecord>)
    requires src.Valid()
    modifies src
    ensures src.Valid()
    ensures match DecodeAllocation(src.data[old(src.pos)..])
      case Some(d) => r == Some(d.value) && src.pos == old(src.pos) + d.used
      case None => r == None && src.pos == |src.data|
  {
    ghost var rest := src.data[src.pos..];
    var addressBytes := new Byte[8];
    var n := ReadBytes(src, addressBytes, 8);
    if n != 8 {
      return None;
    }
    assert addressBytes[..] == addressBytes[..8] == rest[..8];
    assert src.data[src.pos..] == rest[8..];
    var timestamp := ReadTimestamp2(src);
    if timestamp.None? {
      return None;
    }
    r := Some(AllocationRecord(LeUint64(addressBytes[..]), timestamp.value));
  }
}
