/** ext4_read_file of kernel/arch/x86_64/ext4.c against the byte string of the file. */
module Ext4File {
  import opened Bits
  import opened Bytes
  import opened Common
  import opened Ext4Disk
  import ExtentTree
  import BlockMap

  /** `block` is the 60-byte block area: an extent root or fifteen block numbers. */
  datatype Inode = Inode(extents: bool, block: seq<byte>, size: nat) {
    function Numbers(): (s: seq<nat>)
      requires |block| == 60
      ensures |s| == 15
    {
      seq(15, i requires 0 <= i < 15 => LE32(block, 4 * i))
    }
  }

  /** Block number `i` is stored in four bytes from 4 * i on. */
  lemma {:induction false} NumbersAre(inode: Inode, i: nat, n: nat)
    requires |inode.block| == 60 && i < 15 && n < 0x1_0000_0000 && inode.block[4 * i..4 * i + 4] == Le(n, 4)
    ensures inode.Numbers()[i] == n
  {
    LeRead32(inode.block, 4 * i, n);
  }

  ghost predicate Readable(fs: Fs, inode: Inode) {
    && fs.Valid() && |inode.block| == 60 && inode.size < TWO64
    && (inode.extents ==>
          ExtentTree.DepthOf(inode.block) <= 4 &&
          ExtentTree.AllSafe(fs.disk, inode.block, ExtentTree.DepthOf(inode.block)))
  }

  /** The physical block of a logical one, by whichever map the inode uses. */
  ghost function Resolve(fs: Fs, inode: Inode, x: nat): Option<nat>
    requires Readable(fs, inode)
  {
    if inode.extents then
      match ExtentTree.Descend(fs.disk, inode.block, ExtentTree.DepthOf(inode.block), x)
      case None => None
      case Some(r) => Some(r.block)
    else BlockMap.MapBlock(fs, inode.Numbers(), x)
  }

  /** Byte `k` of the file, holes and unreadable blocks reading as zero. */
  ghost function FileByte(fs: Fs, inode: Inode, k: nat): byte
    requires Readable(fs, inode)
  {
    match Resolve(fs, inode, Quot(k, fs.blockSize))
    case None => 0
    case Some(p) => if p in fs.disk then fs.disk[p][Rem(k, fs.blockSize)] else 0
  }

  method ResolveBlock(fs: Fs, inode: Inode, x: nat) returns (r: Option<nat>)
    requires Readable(fs, inode)
    ensures r == Resolve(fs, inode, x)
  {
    if !inode.extents {
      return BlockMap.MapBlock(fs, inode.Numbers(), x);
    }
    var run := ExtentTree.ReadExtentBlock(fs.disk, inode.block, x);
    return match run case None => None case Some(v) => Some(v.block);
  }

  /** The number of bytes the code reads: the 64-bit end test decides whether to clip. */
  function Clip(size: nat, offset: nat, len: nat): nat
    requires offset < size
  {
    if Wrap64(offset + len) > size then size - offset else len
  }

  /** The request is clipped to the file exactly when its end does not wrap around 2^64. */
  lemma ClipExact(size: nat, offset: nat, len: nat)
    requires offset < size < TWO64 && len < TWO64
    ensures (Clip(size, offset, len) == if offset + len > size then size - offset else len) <==> offset + len < TWO64
  {
    assert offset + len >= TWO64 ==> Wrap64(offset + len) == offset + len - TWO64;
  }

  /** A request that wraps and is not clipped. */
  lemma ClipMissed()
    ensures Clip(10, 5, TWO64 - 5) == TWO64 - 5
  {
  }

  /** The cast to a 32-bit result. */
  function ToInt32(n: nat): (r: int)
    ensures -0x8000_0000 <= r < 0x8000_0000 && (n < 0x8000_0000 ==> r == n)
  {
    var w := n % 0x1_0000_0000;
    if w < 0x8000_0000 then w else w - 0x1_0000_0000
  }

  ghost function BytesAt(fs: Fs, p: Option<nat>, i: nat): byte
    requires fs.Valid() && i < fs.blockSize
  {
    if p.Some? && p.value in fs.disk then fs.disk[p.value][i] else 0
  }

  /** For a block-mapped file, byte k lies in entry k / blockSize of the flat block list. */
  lemma {:induction false} MappedByte(fs: Fs, inode: Inode, k: nat)
    requires Readable(fs, inode) && !inode.extents && Quot(k, fs.blockSize) < TWO32 + BlockMap.DIRECT
    ensures var flat, x := BlockMap.Flat(fs, inode.Numbers()), Quot(k, fs.blockSize);
      FileByte(fs, inode, k) ==
        BytesAt(fs, if x < |flat| && flat[x] != 0 then Some(flat[x]) else None, Rem(k, fs.blockSize))
  {
    BlockMap.MapIsFlat(fs, inode.Numbers(), Quot(k, fs.blockSize));
  }

  /** For a file with an ordered extent tree, byte k lies in the one extent that covers its block. */
  lemma {:induction false} ExtentByte(fs: Fs, inode: Inode, k: nat, hi: nat)
    requires Readable(fs, inode) && inode.extents
    requires ExtentTree.Ordered(fs.disk, inode.block, ExtentTree.DepthOf(inode.block), 0, hi)
    ensures var x := Quot(k, fs.blockSize);
      var e := ExtentTree.Scan(ExtentTree.Extents(fs.disk, inode.block, ExtentTree.DepthOf(inode.block)), x);
      FileByte(fs, inode, k) ==
        if e.None? || x < e.value.first then 0
        else BytesAt(fs, Some(e.value.start + (x - e.value.first)), Rem(k, fs.blockSize))
  {
    var depth, x := ExtentTree.DepthOf(inode.block), Quot(k, fs.blockSize);
    ExtentTree.DescentIsScan(fs.disk, inode.block, depth, 0, hi, x);
    ExtentTree.ScanIff(ExtentTree.Extents(fs.disk, inode.block, depth), x);
  }

  /** The block area of a file in one run: a leaf node with one extent. */
  ghost function OneExtent(len: nat, start: nat): (b: seq<byte>)
    ensures |b| == 60
  {
    [0x0A, 0xF3, 1, 0, 4, 0, 0, 0, 0, 0, 0, 0] + Le(0, 4) + Le(len, 2) + Le(start / 0x1_0000_0000, 2)
    + Le(start % 0x1_0000_0000, 4) + seq(36, _ => 0)
  }

  lemma {:induction false} OneExtentBytes(len: nat, start: nat)
    ensures var b := OneExtent(len, start);
      && b[..2] == [0x0A, 0xF3] && b[2..4] == [1, 0] && b[6..8] == [0, 0]
      && b[12..16] == Le(0, 4) && b[16..18] == Le(len, 2)
      && b[18..20] == Le(start / 0x1_0000_0000, 2) && b[20..24] == Le(start % 0x1_0000_0000, 4)
  {
  }

  lemma {:induction false} OneExtentIs(len: nat, start: nat)
    requires 0 < len < 0x8000 && start < 0x1_0000_0000_0000
    ensures var b := OneExtent(len, start);
      && ExtentTree.Safe(b) && ExtentTree.IsNode(b) && ExtentTree.Entries(b) == 1 && ExtentTree.DepthOf(b) == 0
      && ExtentTree.ExtAt(b, 0) == ExtentTree.Ext(0, len, start)
  {
    var b := OneExtent(len, start);
    OneExtentBytes(len, start);
    LeBytes(1);
    LeBytes(0);
    ExtentTree.HeaderIs(b, 1, 0);
    ExtentTree.ExtentIs(b, 0, ExtentTree.Ext(0, len, start));
  }

  lemma {:induction false} LeafFinds(b: seq<byte>, x: nat)
    requires ExtentTree.Safe(b) && ExtentTree.IsNode(b) && ExtentTree.Entries(b) > 0 && ExtentTree.Covers(ExtentTree.ExtAt(b, 0), x)
    ensures ExtentTree.Scan(ExtentTree.LeafFrom(b, 0), x) == Some(ExtentTree.ExtAt(b, 0))
  {
  }

  /** Such a file is the blocks from `start` on, one after the other. */
  lemma {:induction false} OneExtentReads(fs: Fs, len: nat, start: nat, size: nat, k: nat)
    requires fs.Valid() && size < TWO64 && 0 < len < 0x8000 && start < 0x1_0000_0000_0000
    requires Quot(k, fs.blockSize) < len && start + Quot(k, fs.blockSize) in fs.disk
    ensures var inode := Inode(true, OneExtent(len, start), size);
      Readable(fs, inode) && FileByte(fs, inode, k) == fs.disk[start + Quot(k, fs.blockSize)][Rem(k, fs.blockSize)]
  {
    OneExtentIs(len, start);
    LeafFinds(OneExtent(len, start), Quot(k, fs.blockSize));
  }

  /** What one block contributes: its bytes, or zeros for a hole. */
  ghost function BlockBytes(fs: Fs, inode: Inode, x: nat): (s: seq<byte>)
    requires Readable(fs, inode)
    ensures |s| == fs.blockSize
  {
    match Resolve(fs, inode, x)
    case Some(p) => if p in fs.disk then fs.disk[p] else seq(fs.blockSize, _ => 0)
    case None => seq(fs.blockSize, _ => 0)
  }

  lemma {:induction false} ByteInBlock(fs: Fs, inode: Inode, cur: nat, i: nat)
    requires Readable(fs, inode) && Rem(cur, fs.blockSize) + i < fs.blockSize
    ensures FileByte(fs, inode, cur + i) == BlockBytes(fs, inode, Quot(cur, fs.blockSize))[Rem(cur, fs.blockSize) + i]
  {
    DivModUnique(cur + i, fs.blockSize, Quot(cur, fs.blockSize), Rem(cur, fs.blockSize) + i);
  }

  /** Copies `n` bytes of a block, or zeros, to `buf[at..]`. */
  method CopyBlock(fs: Fs, inode: Inode, x: nat, off: nat, buf: array<byte>, at: nat, n: nat)
    requires Readable(fs, inode) && off + n <= fs.blockSize && at + n <= buf.Length
    modifies buf
    ensures forall i :: at <= i < at + n ==> buf[i] == BlockBytes(fs, inode, x)[off + (i - at)]
    ensures forall i :: 0 <= i < at || at + n <= i < buf.Length ==> buf[i] == old(buf[i])
  {
    var phys := ResolveBlock(fs, inode, x);
    if phys.Some? && phys.value in fs.disk {
      var data := fs.disk[phys.value];
      forall i | at <= i < at + n {
        buf[i] := data[off + (i - at)];
      }
    } else {
      forall i | at <= i < at + n {
        buf[i] := 0;
      }
    }
  }

  /** One turn of the read loop: at most `left` bytes from file position `cur`, within one block. */
  method ReadChunk(fs: Fs, inode: Inode, buf: array<byte>, at: nat, left: nat, cur: nat) returns (n: nat)
    requires Readable(fs, inode) && left > 0 && at + left <= buf.Length
    modifies buf
    ensures 0 < n <= left && Rem(cur, fs.blockSize) + n <= fs.blockSize
    ensures forall i :: at <= i < at + n ==> buf[i] == FileByte(fs, inode, cur + (i - at))
    ensures forall i :: 0 <= i < at || at + n <= i < buf.Length ==> buf[i] == old(buf[i])
  {
    var x, off := Quot(cur, fs.blockSize), Rem(cur, fs.blockSize);
    n := fs.blockSize - off;
    if n > left {
      n := left;
    }
    CopyBlock(fs, inode, x, off, buf, at, n);
    forall i | at <= i < at + n ensures buf[i] == FileByte(fs, inode, cur + (i - at)) {
      ByteInBlock(fs, inode, cur, i - at);
    }
  }

  /** Where byte `i` of a request is read: the 64-bit position wraps. */
  function Position(offset: nat, i: nat): (p: nat)
    ensures p < TWO64 && (offset + i < TWO64 ==> p == offset + i)
  {
    Wrap64(offset + i)
  }

  /** A chunk lies below 2^64 if the request does, or if blocks divide 2^64. */
  lemma {:induction false} WithinEnd(offset: nat, len: nat, done: nat, n: nat, size: nat)
    requires size > 0 && offset < TWO64 && done + n <= len < TWO64
    requires Rem(Position(offset, done), size) + n <= size
    requires offset + len < TWO64 || TWO64 % size == 0
    ensures Position(offset, done) + n <= TWO64
    ensures forall i: nat :: done <= i < done + n ==> Position(offset, i) == Position(offset, done) + (i - done)
  {
    var cur := Position(offset, done);
    if TWO64 % size == 0 {
      QuotLaw(TWO64, size);
      BelowMultiple(cur, size, TWO64 / size);
    }
  }

  lemma {:induction false} BelowMultiple(cur: nat, size: nat, q: nat)
    requires size > 0 && cur < q * size
    ensures Quot(cur, size) * size + size <= q * size
  {
    var p := Quot(cur, size);
    if p < q {
      ProductsAscend(p + 1, q, size);
      assert (p + 1) * size == p * size + size;
    } else {
      ProductsAscend(q, p, size);
      assert false;
    }
  }

  /** Reads the requested slice of the file, clipped to its size, holes as zeros.  Past 2^64 it goes
      on at the start of the file. */
  method ReadFile(fs: Fs, inode: Inode, buf: array<byte>, offset: nat, len: nat) returns (r: int)
    requires Readable(fs, inode) && offset < TWO64 && len < TWO64
    requires offset < inode.size ==> Clip(inode.size, offset, len) <= buf.Length
    modifies buf
    ensures offset >= inode.size ==> r == 0 && buf[..] == old(buf[..])
    ensures offset < inode.size ==> r == ToInt32(Clip(inode.size, offset, len))
    ensures offset < inode.size && offset + len < TWO64 && Min(len, inode.size - offset) < 0x8000_0000 ==>
      r == Min(len, inode.size - offset)
    ensures offset < inode.size && offset + len < TWO64 ==>
      forall i :: 0 <= i < Clip(inode.size, offset, len) ==> buf[i] == FileByte(fs, inode, offset + i)
    ensures offset < inode.size && TWO64 % fs.blockSize == 0 ==>
      forall i :: 0 <= i < Clip(inode.size, offset, len) ==> buf[i] == FileByte(fs, inode, Position(offset, i))
    ensures offset < inode.size ==> forall i :: Clip(inode.size, offset, len) <= i < buf.Length ==> buf[i] == old(buf[i])
  {
    if offset >= inode.size {
      return 0;
    }
    var total := Clip(inode.size, offset, len);
    ghost var exact := offset + len < TWO64 || TWO64 % fs.blockSize == 0;
    var done, cur := 0, offset;
    while done < total
      invariant 0 <= done <= total && cur == Position(offset, done)
      invariant exact ==> forall i :: 0 <= i < done ==> buf[i] == FileByte(fs, inode, Position(offset, i))
      invariant forall i :: total <= i < buf.Length ==> buf[i] == old(buf[i])
    {
      var n := ReadChunk(fs, inode, buf, done, total - done, cur);
      if exact {
        WithinEnd(offset, len, done, n, fs.blockSize);
      }
      cur := Wrap64(cur + n);
      done := done + n;
    }
    return ToInt32(total);
  }
}
