/**
 * `getRecordContentBytes`: the payload of an archive record, that is every
 * byte of the record body after its HTTP header, read in chunks of 16 KiB
 * into a growing buffer.
 *
 * The record is a forward-only byte stream with a cursor.  Its `read` may
 * return fewer bytes than asked for; it returns -1 only at the end of the
 * body, and it raises an I/O error when the underlying stream is broken at
 * the cursor.  `GetRecordContentBytes` is proved against that contract alone,
 * so it holds for every way of splitting the body into chunks.
 */
module RecordContent {
  import opened Wrappers
  import opened Bytes

  /**
   * `MAXIMUM_RECORD_SIZE_MB`.  The source uses it only for the initial
   * capacity of the output buffer (`1024 * 32 * 1000` bytes), which grows
   * past it, so it bounds nothing and `GetRecordContentBytes` needs no
   * buffer capacity.
   */
  const MaximumRecordSizeMb: nat := 32

  /** The size of the chunk buffer. */
  const ChunkSize: nat := 1024 * 16

  /** The outcome of a call that may raise `IOException`. */
  datatype Io<T> = Done(value: T) | IOException

  class ArchiveRecordStream {
    /** The record body: the HTTP header block, then the payload. */
    const body: seq<byte>
    /** Offset of the first payload byte, just past the HTTP header. */
    const httpHeaderEnd: nat
    /** The offset at which the underlying stream is broken, if it is. */
    const brokenAt: Option<nat>

    var position: nat
    var closed: bool

    ghost predicate Valid()
      reads this
    {
      httpHeaderEnd <= |body| && position <= |body|
    }

    /** True when a byte at an offset in [from, to) cannot be read. */
    predicate BrokenIn(from: nat, to: nat)
    {
      brokenAt.Some? && from <= brokenAt.value < to
    }

    constructor (body: seq<byte>, httpHeaderEnd: nat, brokenAt: Option<nat>)
      requires httpHeaderEnd <= |body|
      ensures Valid()
      ensures this.body == body && this.httpHeaderEnd == httpHeaderEnd && this.brokenAt == brokenAt
      ensures position == 0 && !closed
    {
      this.body := body;
      this.httpHeaderEnd := httpHeaderEnd;
      this.brokenAt := brokenAt;
      position := 0;
      closed := false;
    }

    /** `skipHttpHeader()`: moves the cursor past the HTTP header, reading through it. */
    method SkipHttpHeader() returns (r: Io<()>)
      requires Valid()
      modifies this`position
      ensures Valid()
      ensures r.Done? <==> !BrokenIn(old(position), httpHeaderEnd)
      ensures r.Done? ==> position == if old(position) < httpHeaderEnd then httpHeaderEnd else old(position)
      ensures r.IOException? ==> position == brokenAt.value
    {
      if BrokenIn(position, httpHeaderEnd) {
        position := brokenAt.value;
        return IOException;
      }
      if position < httpHeaderEnd {
        position := httpHeaderEnd;
      }
      return Done(());
    }

    /**
     * `read(buf, off, len)`: copies at least one and at most `len` bytes from
     * the cursor into `buf[off..]` and returns how many, or returns -1 at the
     * end of the body.  A read never goes past a broken offset, and a read
     * that starts at one raises.
     */
    method Read(buf: array<byte>, off: nat, len: nat) returns (r: Io<int>)
      requires Valid() && off + len <= buf.Length
      modifies this`position, buf
      ensures Valid()
      ensures len == 0 ==> r == Done(0) && position == old(position)
      ensures len > 0 && old(position) == |body| ==> r == Done(-1) && position == old(position)
      ensures len > 0 && old(position) < |body| && BrokenIn(old(position), old(position) + 1) ==>
                r == IOException && position == old(position)
      ensures len > 0 && old(position) < |body| && !BrokenIn(old(position), old(position) + 1) ==>
                && r.Done? && 0 < r.value <= len
                && position == old(position) + r.value
                && buf[off..off + r.value] == body[old(position)..position]
                && !BrokenIn(old(position), position)
      ensures forall k :: 0 <= k < buf.Length && !(off <= k < off + len) ==> buf[k] == old(buf[k])
    {
      if len == 0 {
        return Done(0);
      }
      if position == |body| {
        return Done(-1);
      }
      if BrokenIn(position, position + 1) {
        return IOException;
      }
      var n: nat := if |body| - position < len then |body| - position else len;
      if brokenAt.Some? && position < brokenAt.value < position + n {
        n := brokenAt.value - position;
      }
      assert 0 < n <= len && position + n <= |body|;
      CopyInto(buf, off, body[position..position + n]);
      position := position + n;
      return Done(n);
    }

    /** `close()`. */
    method Close()
      modifies this`closed
      ensures closed
    {
      closed := true;
    }
  }

  /** The copy `read` performs into the caller's buffer: `buf[off..]` now holds `src`, the rest is as it was. */
  method CopyInto(buf: array<byte>, off: nat, src: seq<byte>)
    requires off + |src| <= buf.Length
    modifies buf
    ensures buf[off..off + |src|] == src
    ensures forall m :: 0 <= m < buf.Length && !(off <= m < off + |src|) ==> buf[m] == old(buf[m])
  {
    var k := 0;
    while k < |src|
      invariant 0 <= k <= |src|
      invariant forall m :: 0 <= m < k ==> buf[off + m] == src[m]
      invariant forall m :: 0 <= m < buf.Length && !(off <= m < off + k) ==> buf[m] == old(buf[m])
    {
      buf[off + k] := src[k];
      k := k + 1;
    }
    assert forall m :: 0 <= m < |src| ==> buf[off..off + |src|][m] == src[m];
  }

  /**
   * `getRecordContentBytes(record)`: skip the HTTP header, then append
   * chunks until `read` returns -1, close the record and return the bytes.
   * An I/O error escapes before `close` is reached, so the record stays open.
   */
  method GetRecordContentBytes(record: ArchiveRecordStream) returns (r: Io<seq<byte>>)
    requires record.Valid()
    modifies record
    ensures record.Valid()
    ensures r.IOException? <==> record.BrokenIn(old(record.position), |record.body|)
    ensures r.Done? ==>
              && r.value == record.body[if old(record.position) < record.httpHeaderEnd
                                        then record.httpHeaderEnd else old(record.position)..]
              && record.closed
              && record.position == |record.body|
    ensures r.IOException? ==> record.closed == old(record.closed)
  {
    var skipped := record.SkipHttpHeader();
    if skipped.IOException? {
      return IOException;
    }
    ghost var start := record.position;
    var buffer := new byte[ChunkSize];
    var len := record.Read(buffer, 0, buffer.Length);
    if len.IOException? {
      return IOException;
    }
    var content: seq<byte> := [];
    while len.value != -1
      invariant record.Valid() && start <= record.position
      invariant len.Done? && (len.value == -1 || 0 < len.value <= buffer.Length)
      invariant len.value == -1 ==> record.position == |record.body|
      invariant len.value > 0 ==> start + |content| + len.value == record.position
      invariant len.value > 0 ==> content + buffer[..len.value] == record.body[start..record.position]
      invariant len.value == -1 ==> content == record.body[start..record.position]
      invariant !record.BrokenIn(old(record.position), record.position)
      invariant record.closed == old(record.closed)
      decreases |record.body| - record.position + (if len.value == -1 then 0 else 1)
    {
      ghost var before := record.position;
      content := content + buffer[..len.value];
      assert content == record.body[start..before];
      len := record.Read(buffer, 0, buffer.Length);
      if len.IOException? {
        return IOException;
      }
      if len.value != -1 {
        Adjacent(record.body, start, before, record.position);
      }
    }
    record.Close();
    return Done(content);
  }

  /** Adjacent slices join up. */
  lemma Adjacent(s: seq<byte>, i: nat, j: nat, k: nat)
    requires i <= j <= k <= |s|
    ensures s[i..j] + s[j..k] == s[i..k]
  {
  }
}
