/** The three-region byte buffer: prependable bytes, readable bytes, writable bytes.
    Every operation is specified by what it does to the readable bytes alone, so that the
    clients of the buffer reason about a plain byte sequence. Bytes are modelled as chars. */
module NetBuffer {

  const CHEAP_PREPEND: nat := 8
  const INITIAL_SIZE: nat := 1024
  const EXTRA_SIZE: nat := 65536

  /** What one readv call can deliver: some bytes, or an errno. */
  datatype ReadResult = Bytes(bytes: string) | Errno(code: int)

  /** Element by element copy in ascending order, as std::copy does it inside one array. Only a
      destination at or before the source is safe: otherwise the copy would overwrite what it has
      yet to read. */
  method CopyDown(a: array<char>, first: nat, last: nat, dest: nat)
    requires dest <= first <= last <= a.Length
    modifies a
    ensures a[dest..dest + (last - first)] == old(a[first..last])
    ensures forall k :: 0 <= k < dest ==> a[k] == old(a[k])
    ensures forall k :: dest + (last - first) <= k < a.Length ==> a[k] == old(a[k])
  {
    var i := 0;
    while i < last - first
      invariant 0 <= i <= last - first
      invariant a[dest..dest + i] == old(a[first..first + i])
      invariant forall k :: 0 <= k < dest ==> a[k] == old(a[k])
      invariant forall k :: dest + i <= k < a.Length ==> a[k] == old(a[k])
    {
      a[dest + i] := a[first + i];
      assert a[dest..dest + i + 1] == a[dest..dest + i] + [old(a[first + i])];
      assert old(a[first..first + i + 1]) == old(a[first..first + i]) + [old(a[first + i])];
      i := i + 1;
    }
  }

  /** Copies a whole sequence into an array at a position. */
  method CopyIn(src: string, a: array<char>, dest: nat)
    requires dest + |src| <= a.Length
    modifies a
    ensures a[dest..dest + |src|] == src
    ensures forall k :: 0 <= k < dest || dest + |src| <= k < a.Length ==> a[k] == old(a[k])
  {
    for i := 0 to |src|
      invariant a[dest..dest + i] == src[..i]
      invariant forall k :: 0 <= k < dest || dest + |src| <= k < a.Length ==> a[k] == old(a[k])
    {
      a[dest + i] := src[i];
      assert a[dest..dest + i + 1] == a[dest..dest + i] + [src[i]];
    }
  }

  class Buffer {
    var data: array<char>
    var readerIndex: nat
    var writerIndex: nat

    ghost predicate Valid()
      reads this
    {
      readerIndex <= writerIndex <= data.Length && CHEAP_PREPEND <= data.Length
    }

    ghost function Contents(): (s: string)
      requires Valid()
      reads this, data
    {
      data[readerIndex..writerIndex]
    }

    function ReadableBytes(): (n: nat)
      requires Valid()
      reads this, data
      ensures n == |Contents()|
    {
      writerIndex - readerIndex
    }

    function WritableBytes(): (n: nat)
      requires Valid()
      reads this, data
      ensures |Contents()| + PrependableBytes() + n == data.Length
    {
      data.Length - writerIndex
    }

    function PrependableBytes(): nat
      reads this
    {
      readerIndex
    }

    /** The most one readv may deliver: the overflow area is offered only when the writable
        region is smaller than it. */
    function ReadCapacity(): nat
      requires Valid()
      reads this, data
    {
      if WritableBytes() < EXTRA_SIZE then WritableBytes() + EXTRA_SIZE else WritableBytes()
    }

    constructor (initialSize: nat := INITIAL_SIZE)
      ensures Valid() && fresh(data)
      ensures Contents() == [] && readerIndex == 8
      ensures WritableBytes() == initialSize
    {
      data := new char[CHEAP_PREPEND + initialSize];
      readerIndex := CHEAP_PREPEND;
      writerIndex := CHEAP_PREPEND;
    }

    /** The readable bytes as a value, for callers that look at them through peek(). */
    method Peek() returns (s: string)
      requires Valid()
      ensures s == Contents()
    {
      s := data[readerIndex..writerIndex];
    }

    method RetrieveAll()
      requires Valid()
      modifies this
      ensures Valid() && data == old(data)
      ensures Contents() == []
      ensures readerIndex == 8
    {
      readerIndex := CHEAP_PREPEND;
      writerIndex := CHEAP_PREPEND;
    }

    method Retrieve(len: nat)
      requires Valid()
      requires len <= ReadableBytes()
      modifies this
      ensures Valid() && data == old(data)
      ensures Contents() == old(Contents())[len..]
    {
      if len < ReadableBytes() {
        readerIndex := readerIndex + len;
      } else {
        RetrieveAll();
      }
    }

    /** `end` is an offset from peek(). */
    method RetrieveUntil(end: nat)
      requires Valid()
      requires end <= ReadableBytes()
      modifies this
      ensures Valid() && data == old(data)
      ensures Contents() == old(Contents())[end..]
    {
      Retrieve(end);
    }

    method RetrieveAsString(len: nat) returns (result: string)
      requires Valid()
      requires len <= ReadableBytes()
      modifies this
      ensures Valid() && data == old(data)
      ensures result + Contents() == old(Contents()) && |result| == len
    {
      result := data[readerIndex..readerIndex + len];
      assert result == Contents()[..len];
      Retrieve(len);
    }

    method RetrieveAllAsString() returns (result: string)
      requires Valid()
      modifies this
      ensures Valid() && data == old(data)
      ensures result == old(Contents()) && Contents() == []
    {
      result := RetrieveAsString(ReadableBytes());
    }

    /** Makes room by growing the array, or by sliding the readable bytes down to offset 8. The
        slide is taken only when the readable bytes start beyond offset 8. */
    method MakeSpace(len: nat)
      requires Valid()
      requires WritableBytes() < len
      modifies this, data
      ensures Valid() && (data == old(data) || fresh(data))
      ensures Contents() == old(Contents())
      ensures WritableBytes() >= len
      ensures data == old(data) ==> old(readerIndex) > 8 == readerIndex
      ensures data != old(data) ==> readerIndex == old(readerIndex) && WritableBytes() == len
      ensures data == old(data) <==> old(WritableBytes() + PrependableBytes()) >= len + 8
    {
      if WritableBytes() + PrependableBytes() < len + CHEAP_PREPEND {
        var bigger := new char[writerIndex + len];
        ghost var all := data[..writerIndex];
        CopyIn(data[..writerIndex], bigger, 0);
        assert bigger[0..writerIndex] == all && bigger[readerIndex..writerIndex] == all[readerIndex..];
        data := bigger;
      } else {
        var readable := ReadableBytes();
        CopyDown(data, readerIndex, writerIndex, CHEAP_PREPEND);
        readerIndex := CHEAP_PREPEND;
        writerIndex := readerIndex + readable;
      }
    }

    method EnsureWritableBytes(len: nat)
      requires Valid()
      modifies this, data
      ensures Valid() && (data == old(data) || fresh(data))
      ensures Contents() == old(Contents())
      ensures WritableBytes() >= len
      ensures old(WritableBytes()) >= len ==>
                data == old(data) && readerIndex == old(readerIndex) && writerIndex == old(writerIndex)
    {
      if WritableBytes() < len {
        MakeSpace(len);
      }
    }

    /** Takes over `len` bytes already placed in the writable region. */
    method HasWritten(len: nat)
      requires Valid()
      requires len <= WritableBytes()
      modifies this
      ensures Valid() && data == old(data) && readerIndex == old(readerIndex)
      ensures Contents() == old(Contents()) + data[old(writerIndex)..old(writerIndex) + len]
      ensures WritableBytes() == old(WritableBytes()) - len
    {
      writerIndex := writerIndex + len;
    }

    method Append(bytes: string)
      requires Valid()
      modifies this, data
      ensures Valid() && (data == old(data) || fresh(data))
      ensures Contents() == old(Contents()) + bytes
      ensures old(WritableBytes()) >= |bytes| ==>
                data == old(data) && WritableBytes() == old(WritableBytes()) - |bytes|
    {
      EnsureWritableBytes(|bytes|);
      FillWritable(bytes);
    }

    method Prepend(bytes: string)
      requires Valid()
      requires |bytes| <= PrependableBytes()
      modifies this, data
      ensures Valid() && data == old(data) && WritableBytes() == old(WritableBytes())
      ensures Contents() == bytes + old(Contents())
    {
      ghost var w := readerIndex;
      readerIndex := readerIndex - |bytes|;
      CopyIn(bytes, data, readerIndex);
      assert data[w..writerIndex] == old(Contents());
      assert Contents() == data[readerIndex..w] + data[w..writerIndex];
    }

    method Swap(rhs: Buffer)
      requires Valid() && rhs.Valid()
      modifies this, rhs
      ensures Valid() && rhs.Valid()
      ensures data == old(rhs.data) && rhs.data == old(data)
      ensures readerIndex == old(rhs.readerIndex) && rhs.readerIndex == old(readerIndex)
      ensures writerIndex == old(rhs.writerIndex) && rhs.writerIndex == old(writerIndex)
      ensures Contents() == old(rhs.Contents()) && rhs.Contents() == old(Contents())
    {
      data, rhs.data := rhs.data, data;
      readerIndex, rhs.readerIndex := rhs.readerIndex, readerIndex;
      writerIndex, rhs.writerIndex := rhs.writerIndex, writerIndex;
    }

    method Shrink(reserve: nat)
      requires Valid()
      modifies this
      ensures Valid() && fresh(data)
      ensures Contents() == old(Contents())
      ensures WritableBytes() >= reserve
    {
      var other := new Buffer();
      other.EnsureWritableBytes(ReadableBytes() + reserve);
      var bytes := Peek();
      other.Append(bytes);
      Swap(other);
    }

    /** The kernel's copy into the writable region, and the advance of the writer over it. */
    method FillWritable(bytes: string)
      requires Valid()
      requires |bytes| <= WritableBytes()
      modifies this, data
      ensures Valid() && data == old(data)
      ensures Contents() == old(Contents()) + bytes
      ensures WritableBytes() == old(WritableBytes()) - |bytes|
    {
      CopyIn(bytes, data, writerIndex);
      assert Contents() == old(Contents());
      HasWritten(|bytes|);
    }

    /** Scatter read: the kernel fills the writable region first and the overflow area second. */
    method ReadFd(r: ReadResult) returns (n: int, savedErrno: int)
      requires Valid()
      requires r.Bytes? ==> |r.bytes| <= ReadCapacity()
      modifies this, data
      ensures Valid() && (data == old(data) || fresh(data))
      ensures r.Bytes? ==> n == |r.bytes| && savedErrno == 0 && Contents() == old(Contents()) + r.bytes
      ensures r.Errno? ==> n == -1 && savedErrno == r.code && Contents() == old(Contents())
    {
      match r
      case Errno(code) =>
        return -1, code;
      case Bytes(bytes) =>
        n, savedErrno := |bytes|, 0;
        var writable := WritableBytes();
        if n <= writable {
          FillWritable(bytes);
        } else {
          // readv filled the writable region and put the rest in the area on the stack
          var extrabuf := new char[EXTRA_SIZE];
          CopyIn(bytes[writable..], extrabuf, 0);
          FillWritable(bytes[..writable]);
          var extra := extrabuf[..n - writable];
          Append(extra);
          assert old(Contents()) + bytes[..writable] + bytes[writable..] == old(Contents()) + bytes;
        }
    }
  }
}
