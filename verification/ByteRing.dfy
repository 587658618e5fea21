/** The byte ring of kernel/kernel/unixsock.c and kernel/kernel/fifo.c. A position may rest at the
    size of the buffer; the next copy then starts over at 0. */
module ByteRing {
  import opened Bytes
  import opened Common

  class Ring {
    const data: array<byte>
    var readPos: nat
    var writePos: nat
    var bytes: nat
    /** The bytes in the ring, oldest first. */
    ghost var contents: seq<byte>

    /** Buffer index of the `i`-th byte from the read position, around the end. */
    ghost function Index(i: nat): nat
      reads this
    {
      if readPos + i < data.Length then readPos + i else readPos + i - data.Length
    }

    ghost predicate Valid()
      reads this, data
    {
      && readPos <= data.Length && writePos <= data.Length && bytes <= data.Length
      && (readPos + bytes == writePos || readPos + bytes == writePos + data.Length)
      && |contents| == bytes && forall i :: 0 <= i < bytes ==> contents[i] == data[Index(i)]
    }

    constructor (size: nat)
      ensures Valid() && fresh(data) && data.Length == size && contents == []
    {
      data := new byte[size](i => 0);
      readPos, writePos, bytes, contents := 0, 0, 0, [];
    }

    /** memcpy into the buffer. */
    method Store(at: nat, src: seq<byte>)
      requires at + |src| <= data.Length
      modifies data
      ensures forall i :: at <= i < at + |src| ==> data[i] == src[i - at]
      ensures forall i :: 0 <= i < data.Length && !(at <= i < at + |src|) ==> data[i] == old(data[i])
    {
      forall i | 0 <= i < |src| {
        data[at + i] := src[i];
      }
    }

    /** The copy of ring_write: on to the end of the buffer, then from its start. */
    method CopyIn(src: seq<byte>)
      requires Valid() && 0 < |src| <= data.Length - bytes
      modifies this`writePos, data
      ensures writePos <= data.Length
      ensures readPos + bytes + |src| == writePos || readPos + bytes + |src| == writePos + data.Length
      ensures forall k :: 0 <= k < |src| ==> data[Index(bytes + k)] == src[k]
      ensures forall i :: 0 <= i < bytes ==> data[Index(i)] == old(data[Index(i)])
    {
      var contiguous := data.Length - writePos;
      if contiguous >= |src| {
        Store(writePos, src);
        writePos := writePos + |src|;
      } else {
        Store(writePos, src[..contiguous]);
        Store(0, src[contiguous..]);
        writePos := |src| - contiguous;
      }
    }

    /** ring_write: as much as fits is appended. */
    method Put(src: seq<byte>) returns (n: nat)
      requires Valid()
      modifies this`writePos, this`bytes, this`contents, data
      ensures Valid() && n == Min(|src|, data.Length - old(bytes)) && bytes == old(bytes) + n
      ensures contents == old(contents) + src[..n]
    {
      n := if |src| > data.Length - bytes then data.Length - bytes else |src|;
      if n == 0 {
        return;
      }
      CopyIn(src[..n]);
      bytes, contents := bytes + n, contents + src[..n];
      forall i | 0 <= i < bytes ensures contents[i] == data[Index(i)] {
        if i >= old(bytes) {
          assert data[Index(old(bytes) + (i - old(bytes)))] == src[..n][i - old(bytes)];
        }
      }
    }

    /** The copy of ring_read. */
    method CopyOut(n: nat) returns (out: seq<byte>)
      requires Valid() && 0 < n <= bytes
      modifies this`readPos
      ensures |out| == n && forall k :: 0 <= k < n ==> out[k] == old(contents)[k]
      ensures readPos <= data.Length
      ensures readPos == old(readPos) + n || (readPos > 0 && readPos + data.Length == old(readPos) + n)
    {
      var contiguous := data.Length - readPos;
      if contiguous >= n {
        out := data[readPos..readPos + n];
        readPos := readPos + n;
      } else {
        out := data[readPos..] + data[..n - contiguous];
        readPos := n - contiguous;
      }
      assert old(Valid());
    }

    /** ring_read: the oldest bytes, as many as asked for or as there are. */
    method Take(count: nat) returns (out: seq<byte>)
      requires Valid()
      modifies this`readPos, this`bytes, this`contents
      ensures Valid() && |out| == Min(count, old(bytes)) && bytes == old(bytes) - |out|
      ensures out == old(contents)[..|out|] && contents == old(contents)[|out|..]
    {
      var n := if count > bytes then bytes else count;
      if n == 0 {
        return [];
      }
      out := CopyOut(n);
      bytes, contents := bytes - n, contents[n..];
      forall i | 0 <= i < bytes ensures contents[i] == data[Index(i)] {
        assert old(contents)[i + n] == old(data[Index(i + n)]);
      }
    }
  }
}
