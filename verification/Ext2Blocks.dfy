/** Blocks, pointers and chains of an ext2 volume (fs/ext2/ext2.c:141-183). */
module Ext2Blocks {
  import opened Arith
  import opened BlockStack

  /** All that a block read needs of the block size `1024 << block_size`: whole sectors, up to 64 KiB. */
  predicate IsBlockSize(b: nat) {
    0 < b <= 65536 && b % SECTOR == 0
  }

  /** The little-endian 32-bit number at `pos`. */
  function U32(bytes: seq<Byte>, pos: nat): nat
    requires pos + 4 <= |bytes|
  {
    var b0: nat, b1: nat, b2: nat, b3: nat := bytes[pos], bytes[pos + 1], bytes[pos + 2], bytes[pos + 3];
    b0 + 256 * b1 + 65536 * b2 + 16777216 * b3
  }

  /** Block `n` lies inside the volume `p`. */
  predicate InVolume(p: seq<Byte>, b: nat, n: nat) {
    Times(b, n) + b <= |p|
  }

  /** Pointer `i` of the pointer block `n`. */
  function PointerAt(p: seq<Byte>, b: nat, n: nat, i: nat): nat
    requires InVolume(p, b, n) && 4 * i + 4 <= b
  {
    U32(p, Times(b, n) + 4 * i)
  }

  /** A buffer seen as an array of 32-bit pointers. */
  function Pointers(bytes: seq<Byte>): (r: seq<nat>)
    ensures |r| == |bytes| / 4 && forall i | 0 <= i < |r| :: r[i] == U32(bytes, 4 * i)
  {
    seq(|bytes| / 4, i requires 0 <= i < |bytes| / 4 => U32(bytes, 4 * i))
  }

  lemma PointersOfBlock(p: seq<Byte>, b: nat, n: nat)
    requires InVolume(p, b, n)
    ensures |Pointers(p[Times(b, n)..Times(b, n) + b])| == b / 4
    ensures forall i: nat | i < b / 4 :: Pointers(p[Times(b, n)..Times(b, n) + b])[i] == PointerAt(p, b, n, i)
  {
    var block := p[Times(b, n)..Times(b, n) + b];
    forall i: nat | i < b / 4
      ensures Pointers(block)[i] == PointerAt(p, b, n, i)
    {
      assert U32(block, 4 * i) == U32(p, Times(b, n) + 4 * i);
    }
  }

  /** A transfer at `offset` inside block `n` is as safe as one at `offset`. */
  lemma BlockIsAligned(b: nat, n: nat, offset: nat, len: nat)
    requires IsBlockSize(b)
    ensures SectorSafe(Times(b, n) + offset, len) == SectorSafe(offset, len)
    ensures SectorSafe(0, len)
  {
    SectorsCover(len);
    TimesIsProduct(b, n);
    var k := b / SECTOR;
    assert b == SECTOR * k;
    assert b * n == SECTOR * (k * n);
    SameSafety(offset, b * n, len);
  }

  function Min(x: nat, y: nat): nat {
    if x < y then x else y
  }

  /** Block `i` of the chain has a pointer, not zero, to a block of the volume. */
  predicate HasBlock(p: seq<Byte>, b: nat, chain: seq<nat>, i: nat) {
    i < |chain| && chain[i] != 0 && InVolume(p, b, chain[i])
  }

  predicate AllBlocks(p: seq<Byte>, b: nat, chain: seq<nat>) {
    forall i: nat | i < |chain| :: HasBlock(p, b, chain, i)
  }

  /** Every block of the file that the request touches is there, as far as the file can name it. */
  ghost predicate Present(p: seq<Byte>, b: nat, blocks: seq<nat>, pos: nat, size: nat) {
    forall n: nat {:trigger HasBlock(p, b, blocks, n)} | n < |blocks| && Times(b, n) < pos + size && pos < Times(b, n) + b :: HasBlock(p, b, blocks, n)
  }

  /** Byte `at` of block `i` of the chain. */
  function BlockByte(p: seq<Byte>, b: nat, chain: seq<nat>, i: nat, at: nat): Byte {
    if i < |chain| && Times(b, chain[i]) + at < |p| then p[Times(b, chain[i]) + at] else 0
  }

  /** Byte `x` counted from the start of block `i` of the chain. */
  function ByteFrom(p: seq<Byte>, b: nat, chain: seq<nat>, i: nat, x: nat): Byte
    requires b > 0
    decreases x
  {
    if x < b then BlockByte(p, b, chain, i, x) else ByteFrom(p, b, chain, i + 1, x - b)
  }

  /** Byte `pos` of the file whose blocks are `chain`. */
  function LogicalByte(p: seq<Byte>, b: nat, chain: seq<nat>, pos: nat): Byte
    requires b > 0
  {
    ByteFrom(p, b, chain, 0, pos)
  }

  lemma {:induction false} ByteAtPlace(p: seq<Byte>, b: nat, chain: seq<nat>, j: nat, i: nat, r: nat)
    requires r < b
    ensures ByteFrom(p, b, chain, j, Times(b, i) + r) == BlockByte(p, b, chain, j + i, r)
    decreases i
  {
    if i > 0 {
      ByteAtPlace(p, b, chain, j + 1, i - 1, r);
    }
  }

  /** Bytes `pos` to `pos + size` of the file with the blocks `blocks`. */
  function FileBytes(p: seq<Byte>, b: nat, blocks: seq<nat>, pos: nat, size: nat): (s: seq<Byte>)
    requires b > 0
    ensures |s| == size && forall j | 0 <= j < size :: s[j] == LogicalByte(p, b, blocks, pos + j)
  {
    seq<Byte>(size, j requires 0 <= j => LogicalByte(p, b, blocks, pos + j))
  }

  /** Neighbouring slices of a file make one. */
  lemma SlicesJoin(p: seq<Byte>, b: nat, blocks: seq<nat>, pos: nat, m: nat, n: nat)
    requires b > 0
    ensures FileBytes(p, b, blocks, pos, m) + FileBytes(p, b, blocks, pos + m, n) == FileBytes(p, b, blocks, pos, m + n)
  {
    var x, y, z := FileBytes(p, b, blocks, pos, m), FileBytes(p, b, blocks, pos + m, n), FileBytes(p, b, blocks, pos, m + n);
    forall j | 0 <= j < m + n
      ensures (x + y)[j] == z[j]
    {
      assert j >= m ==> y[j - m] == LogicalByte(p, b, blocks, pos + m + (j - m));
    }
  }

  /** Part of block `i` of the file. */
  lemma PartOfBlock(p: seq<Byte>, b: nat, blocks: seq<nat>, pos: nat, i: nat, r: nat, k: nat)
    requires b > 0 && pos == Times(b, i) + r && r + k <= b && i < |blocks| && InVolume(p, b, blocks[i])
    ensures p[Times(b, blocks[i]) + r..Times(b, blocks[i]) + r + k] == FileBytes(p, b, blocks, pos, k)
  {
    var x, y := p[Times(b, blocks[i]) + r..Times(b, blocks[i]) + r + k], FileBytes(p, b, blocks, pos, k);
    forall u | 0 <= u < k
      ensures x[u] == y[u]
    {
      ByteAtPlace(p, b, blocks, 0, i, r + u);
    }
  }

  // ---- what a chain read delivers ----

  /** The byte address of a block, a product of 32-bit numbers that wraps around. */
  function Product32(b: nat, n: nat): (r: nat)
    ensures Times(b, n) < 0x1_0000_0000 ==> r == Times(b, n)
  {
    Times(b, n) % 0x1_0000_0000
  }

  lemma Product32Is(b: nat, n: nat)
    ensures Product32(b, n) == b * n % 0x1_0000_0000
  {
    TimesIsProduct(b, n);
  }

  /** The request starts on a block border, or stays inside one block and is safe there. */
  predicate GoodRequest(b: nat, r: nat, size: nat) {
    r == 0 || (r + size <= b && SectorSafe(r, size))
  }

  /** A safe read of part of a block that lies in the volume gives those bytes. */
  lemma BlockGot(v: Partition, tail: Tail, b: nat, block: nat, offset: nat, size: nat)
    requires ValidPartition(v) && IsBlockSize(b) && Times(b, block) + offset + size <= v.length && SectorSafe(offset, size)
    ensures Got(v, tail, Product32(b, block) + offset, size) == Bytes(v)[Times(b, block) + offset..Times(b, block) + offset + size]
  {
    BlockIsAligned(b, block, offset, size);
    GotIsPartition(v, Times(b, block) + offset, size);
  }

  /** `ext2_read_block_data`: part of a block, whose byte address is a 32-bit product. */
  method ReadBlockData(v: Partition, tail: Tail, b: nat, block: nat, offset: nat, size: nat, data: array<Byte>, at: nat)
    requires ValidPartition(v) && IsBlockSize(b) && size <= b && at + size <= data.Length
    modifies data
    ensures data[..] == Patched(old(data[..]), at, Got(v, tail, Product32(b, block) + offset, size))
  {
    var _ := MdpartRead(v, tail, Product32(b, block) + offset, size, data, at);
  }

  /** A way to read: `k` bytes from place `o` of block `i` of a chain. It may give fewer. */
  type Reader = (nat, nat, nat) -> seq<Byte>

  ghost predicate Bounded(read: Reader) {
    forall i: nat, o: nat, k: nat :: |read(i, o, k)| <= k
  }

  /** The reader gives the bytes of the file for the beginning of every block that is there. */
  ghost predicate Honest(read: Reader, p: seq<Byte>, b: nat, chain: seq<nat>)
    requires b > 0
  {
    forall i: nat, k: nat {:trigger read(i, 0, k)} | HasBlock(p, b, chain, i) && k <= b :: read(i, 0, k) == FileBytes(p, b, chain, Times(b, i), k)
  }

  /** Part of a block of the chain, read through the block stack: `heap(i)` is what lies behind the device's
      temporary buffer when block `i` is read. */
  function PieceGot(v: Partition, b: nat, chain: seq<nat>, heap: nat -> Tail, i: nat, o: nat, k: nat): (s: seq<Byte>)
    requires ValidPartition(v)
    ensures |s| <= k
  {
    if i < |chain| then Got(v, heap(i), Product32(b, chain[i]) + o, k) else []
  }

  /** `read` reads through the block stack. */
  ghost predicate Reads(read: Reader, v: Partition, b: nat, chain: seq<nat>, heap: nat -> Tail)
    requires ValidPartition(v)
  {
    && Bounded(read)
    && forall i: nat, o: nat, k: nat {:trigger PieceGot(v, b, chain, heap, i, o, k)} :: read(i, o, k) == PieceGot(v, b, chain, heap, i, o, k)
  }

  function Through(v: Partition, b: nat, chain: seq<nat>, heap: nat -> Tail): (read: Reader)
    requires ValidPartition(v)
    ensures Reads(read, v, b, chain, heap)
  {
    var read: Reader := (i, o, k) => PieceGot(v, b, chain, heap, i, o, k);
    assert forall i: nat, o: nat, k: nat :: read(i, o, k) == PieceGot(v, b, chain, heap, i, o, k);
    read
  }

  lemma ReadsHonestly(read: Reader, v: Partition, b: nat, chain: seq<nat>, heap: nat -> Tail)
    requires ValidPartition(v) && IsBlockSize(b) && Reads(read, v, b, chain, heap)
    ensures Honest(read, Bytes(v), b, chain)
  {
    var p := Bytes(v);
    forall i: nat, k: nat | HasBlock(p, b, chain, i) && k <= b
      ensures read(i, 0, k) == FileBytes(p, b, chain, Times(b, i), k)
    {
      SectorsCover(k);
      PieceHonest(v, b, chain, heap, i, 0, k);
    }
  }

  lemma PieceHonest(v: Partition, b: nat, chain: seq<nat>, heap: nat -> Tail, i: nat, o: nat, k: nat)
    requires ValidPartition(v) && IsBlockSize(b) && HasBlock(Bytes(v), b, chain, i) && o + k <= b && SectorSafe(o, k)
    ensures PieceGot(v, b, chain, heap, i, o, k) == FileBytes(Bytes(v), b, chain, Times(b, i) + o, k)
  {
    BlockGot(v, heap(i), b, chain[i], o, k);
    PartOfBlock(Bytes(v), b, chain, Times(b, i) + o, i, o, k);
  }

  /** The buffer after a chain read from place `off` of block `i` on: a whole block's length is asked for at
      a time, the first time from `off` on, up to the first zero pointer. */
  ghost function AfterChain(read: Reader, b: nat, chain: seq<nat>, i: nat, off: nat, size: nat, buf: seq<Byte>, at: nat): (s: seq<Byte>)
    requires Bounded(read) && b > 0 && at + size <= |buf|
    ensures |s| == |buf|
    decreases size
  {
    if size == 0 || i >= |chain| || chain[i] == 0 then buf
    else AfterChain(read, b, chain, i + 1, 0, size - Min(size, b), Patched(buf, at, read(i, off, Min(size, b))), at + Min(size, b))
  }

  /** Nothing outside the request's part of the buffer is written. */
  lemma {:induction false} ChainFrame(read: Reader, b: nat, chain: seq<nat>, i: nat, off: nat, size: nat, buf: seq<Byte>, at: nat)
    requires Bounded(read) && b > 0 && at + size <= |buf|
    ensures var s := AfterChain(read, b, chain, i, off, size, buf, at); s[..at] == buf[..at] && s[at + size..] == buf[at + size..]
    decreases size
  {
    if size > 0 && i < |chain| && chain[i] != 0 {
      var n := Min(size, b);
      var next := Patched(buf, at, read(i, off, n));
      ChainFrame(read, b, chain, i + 1, 0, size - n, next, at + n);
      var s := AfterChain(read, b, chain, i, off, size, buf, at);
      assert s[..at] == s[..at + n][..at] == next[..at + n][..at] == buf[..at];
      assert next[at + size..] == buf[at + size..];
    }
  }

  /** The first piece stays as it was read. */
  lemma FirstPiece(read: Reader, b: nat, chain: seq<nat>, i: nat, off: nat, size: nat, buf: seq<Byte>, at: nat)
    requires Bounded(read) && b > 0 && at + size <= |buf| && size > 0 && i < |chain| && chain[i] != 0
    requires |read(i, off, Min(size, b))| == Min(size, b)
    ensures AfterChain(read, b, chain, i, off, size, buf, at)[at..at + Min(size, b)] == read(i, off, Min(size, b))
  {
    var n := Min(size, b);
    var next := Patched(buf, at, read(i, off, n));
    ChainFrame(read, b, chain, i + 1, 0, size - n, next, at + n);
    var s := AfterChain(read, b, chain, i, off, size, buf, at);
    assert s[at..at + n] == s[..at + n][at..] == next[..at + n][at..];
  }

  /** A request on a block border, or inside one block whose piece is right, delivers the file's bytes if its
      blocks are there. */
  lemma {:induction false} ChainRight(read: Reader, p: seq<Byte>, b: nat, chain: seq<nat>, i: nat, off: nat, pos: nat,
                                      size: nat, buf: seq<Byte>, at: nat)
    requires Bounded(read) && b > 0 && Honest(read, p, b, chain) && at + size <= |buf|
    requires pos == Times(b, i) + off && off < b && pos + size <= Times(b, |chain|) && Present(p, b, chain, pos, size)
    requires off == 0 || (off + size <= b && read(i, off, size) == FileBytes(p, b, chain, pos, size))
    ensures AfterChain(read, b, chain, i, off, size, buf, at) == Patched(buf, at, FileBytes(p, b, chain, pos, size))
    decreases size
  {
    if size == 0 {
      assert Patched(buf, at, FileBytes(p, b, chain, pos, size)) == buf;
    } else {
      InChain(b, |chain|, i, off, size);
      assert HasBlock(p, b, chain, i);
      if size > b {
        var got := FileBytes(p, b, chain, pos, b);
        assert read(i, off, b) == got;
        WholePiece(read, b, chain, i, off, size, buf, at);
        PresentRest(p, b, chain, pos, b, size);
        ChainRight(read, p, b, chain, i + 1, 0, pos + b, size - b, Patched(buf, at, got), at + b);
        SlicesPatched(p, b, chain, pos, b, size - b, buf, at);
      } else {
        assert read(i, off, size) == FileBytes(p, b, chain, pos, size);
        OnePiece(read, b, chain, i, off, size, buf, at);
      }
    }
  }

  lemma OnePiece(read: Reader, b: nat, chain: seq<nat>, i: nat, off: nat, size: nat, buf: seq<Byte>, at: nat)
    requires Bounded(read) && 0 < size <= b && at + size <= |buf| && i < |chain| && chain[i] != 0
    ensures AfterChain(read, b, chain, i, off, size, buf, at) == Patched(buf, at, read(i, off, size))
  {
  }

  lemma WholePiece(read: Reader, b: nat, chain: seq<nat>, i: nat, off: nat, size: nat, buf: seq<Byte>, at: nat)
    requires Bounded(read) && 0 < b < size && at + size <= |buf| && i < |chain| && chain[i] != 0
    ensures AfterChain(read, b, chain, i, off, size, buf, at) ==
            AfterChain(read, b, chain, i + 1, 0, size - b, Patched(buf, at, read(i, off, b)), at + b)
  {
  }

  lemma PresentRest(p: seq<Byte>, b: nat, blocks: seq<nat>, pos: nat, n: nat, size: nat)
    requires Present(p, b, blocks, pos, size) && n <= size
    ensures Present(p, b, blocks, pos + n, size - n)
  {
  }

  lemma SlicesPatched(p: seq<Byte>, b: nat, blocks: seq<nat>, pos: nat, m: nat, n: nat, buf: seq<Byte>, at: nat)
    requires b > 0 && at + m + n <= |buf|
    ensures Patched(Patched(buf, at, FileBytes(p, b, blocks, pos, m)), at + m, FileBytes(p, b, blocks, pos + m, n)) ==
            Patched(buf, at, FileBytes(p, b, blocks, pos, m + n))
  {
    SlicesJoin(p, b, blocks, pos, m, n);
    PatchedTwice(buf, at, FileBytes(p, b, blocks, pos, m), FileBytes(p, b, blocks, pos + m, n));
  }

  lemma InChain(b: nat, len: nat, i: nat, off: nat, size: nat)
    requires Times(b, i) + off + size <= Times(b, len) && size > 0
    ensures i < len
  {
    TimesLess(b, i, len);
  }

  /** The loop of `ext2_read_block_chain` from place `r` of block `first` on. */
  method ChainLoop(v: Partition, heap: nat -> Tail, b: nat, chain: seq<nat>, first: nat, r: nat, size: nat, data: array<Byte>, at: nat,
                   ghost read: Reader)
    requires ValidPartition(v) && IsBlockSize(b) && at + size <= data.Length && Reads(read, v, b, chain, heap)
    requires Times(b, first) + r + size <= Times(b, |chain|)
    modifies data
    ensures data[..] == AfterChain(read, b, chain, first, r, size, old(data[..]), at)
  {
    ghost var was := data[..];
    var i: nat, off: nat, ptr: nat, left: nat := first, r, at, size;
    while left > 0
      invariant ptr + left == at + size && (left > 0 ==> Times(b, i) + left <= Times(b, |chain|))
      invariant AfterChain(read, b, chain, first, r, size, was, at) == AfterChain(read, b, chain, i, off, left, data[..], ptr)
      decreases left
    {
      InChain(b, |chain|, i, 0, left);
      if chain[i] == 0 {
        break;
      }
      var n := if left > b then b else left;
      ReadPiece(v, heap, b, chain, i, off, n, data, ptr, read);
      off, ptr, left, i := 0, ptr + n, left - n, i + 1;
    }
  }

  /** One round of it. */
  method ReadPiece(v: Partition, heap: nat -> Tail, b: nat, chain: seq<nat>, i: nat, off: nat, n: nat, data: array<Byte>, ptr: nat,
                   ghost read: Reader)
    requires ValidPartition(v) && IsBlockSize(b) && n <= b && ptr + n <= data.Length && i < |chain|
    requires Reads(read, v, b, chain, heap)
    modifies data
    ensures data[..] == Patched(old(data[..]), ptr, read(i, off, n))
  {
    ReadBlockData(v, heap(i), b, chain[i], off, n, data, ptr);
    assert read(i, off, n) == PieceGot(v, b, chain, heap, i, off, n);
  }

  /** `ext2_read_block_chain`. */
  method ReadBlockChain(v: Partition, heap: nat -> Tail, b: nat, chain: seq<nat>, offset: nat, size: nat, data: array<Byte>, at: nat,
                        ghost read: Reader)
    requires ValidPartition(v) && IsBlockSize(b) && at + size <= data.Length && Reads(read, v, b, chain, heap)
    requires offset + size <= Times(b, |chain|)
    modifies data
    ensures data[..] == AfterChain(read, b, chain, offset / b, offset % b, size, old(data[..]), at)
  {
    var i, off := SplitOffset(offset, b);
    ChainLoop(v, heap, b, chain, i, off, size, data, at, read);
  }

  method SplitOffset(offset: nat, b: nat) returns (i: nat, off: nat)
    requires b > 0
    ensures i == offset / b && off == offset % b && offset == Times(b, i) + off && off < b
  {
    i, off := offset / b, offset % b;
    var _, _ := PlaceOf(offset, b);
  }

  lemma {:induction false} TimesGrows(b: nat, n: nat)
    requires b > 0
    ensures n <= Times(b, n)
  {
    if n > 0 {
      TimesGrows(b, n - 1);
    }
  }

  // ---- when it is right ----

  /** A volume of five blocks: block 1 begins with a one, block 2 is zero, block 3 holds pointers to block 1
      and block 4 pointers to block 3. */
  function UniformBytes(b: nat): (p: seq<Byte>)
    ensures |p| == 5 * b
  {
    seq<Byte>(5 * b, y => if y == b then 1 else if 3 * b <= y && y % 4 == 0 then (if y < 4 * b then 1 else 3) else 0)
  }

  function UniformVolume(b: nat): (v: Partition)
    requires IsBlockSize(b)
    ensures ValidPartition(v) && Bytes(v) == UniformBytes(b)
  {
    var p := UniformBytes(b);
    assert p[0..|p|] == p;
    Partition(Device(p, |p|), 0, |p|)
  }

  ghost predicate AllOnes(chain: seq<nat>) {
    forall i | 0 <= i < |chain| :: chain[i] == 1
  }

  /** A request that is not good goes wrong on a file whose blocks are all block 1 of that volume. */
  lemma UniformGoesWrong(b: nat, chain: seq<nat>, pos: nat, i: nat, r: nat, size: nat) returns (heap: nat -> Tail, j: nat)
    requires IsBlockSize(b) && AllOnes(chain) && pos == Times(b, i) + r && r < b && pos + size <= Times(b, |chain|)
    requires !GoodRequest(b, r, size)
    ensures i < |chain| && WrongPiece(UniformVolume(b), b, chain, heap, i, r, size, j)
  {
    InChain(b, |chain|, i, r, size);
    if r + size <= b {
      heap, j := UnsafeInBlock(b, chain, i, r, size);
    } else {
      heap, j := CrossesBlock(b, chain, i, r, size);
    }
  }

  /** Byte `j` of the first piece is not the file's. */
  ghost predicate WrongPiece(v: Partition, b: nat, chain: seq<nat>, heap: nat -> Tail, i: nat, r: nat, size: nat, j: nat)
    requires ValidPartition(v) && b > 0
  {
    var got := PieceGot(v, b, chain, heap, i, r, Min(size, b));
    j < Min(size, b) == |got| && got[j] != LogicalByte(Bytes(v), b, chain, Times(b, i) + r + j)
  }

  /** A wrong byte of the first piece is still there at the end. */
  lemma WrongStays(read: Reader, v: Partition, b: nat, chain: seq<nat>, heap: nat -> Tail, i: nat, r: nat, size: nat,
                   buf: seq<Byte>, at: nat, j: nat)
    requires ValidPartition(v) && Reads(read, v, b, chain, heap) && b > 0 && at + size <= |buf| && i < |chain| && chain[i] != 0
    requires WrongPiece(v, b, chain, heap, i, r, size, j)
    ensures j < size
    ensures AfterChain(read, b, chain, i, r, size, buf, at)[at + j] != LogicalByte(Bytes(v), b, chain, Times(b, i) + r + j)
  {
    var n := Min(size, b);
    assert read(i, r, n) == PieceGot(v, b, chain, heap, i, r, n);
    FirstPiece(read, b, chain, i, r, size, buf, at);
    var s := AfterChain(read, b, chain, i, r, size, buf, at);
    assert s[at..at + n][j] == s[at + j];
  }

  lemma UniformByte(b: nat, chain: seq<nat>, i: nat, x: nat)
    requires x < b && i < |chain| && AllOnes(chain)
    ensures LogicalByte(UniformBytes(b), b, chain, Times(b, i) + x) == UniformBytes(b)[b + x]
  {
    ByteAtPlace(UniformBytes(b), b, chain, 0, i, x);
    assert Times(b, 1) == Times(b, 0) + b == b;
  }

  lemma UniformPiece(b: nat, chain: seq<nat>, heap: nat -> Tail, i: nat, r: nat, n: nat)
    requires IsBlockSize(b) && AllOnes(chain) && i < |chain|
    ensures PieceGot(UniformVolume(b), b, chain, heap, i, r, n) == Got(UniformVolume(b), heap(i), b + r, n)
  {
    assert Times(b, 1) == Times(b, 0) + b == b;
  }

  /** A piece that is not safe in its block has a byte from the heap. */
  lemma UnsafeInBlock(b: nat, chain: seq<nat>, i: nat, r: nat, size: nat) returns (heap: nat -> Tail, j: nat)
    requires IsBlockSize(b) && AllOnes(chain) && i < |chain| && r + size <= b && !SectorSafe(r, size)
    ensures WrongPiece(UniformVolume(b), b, chain, heap, i, r, size, j)
  {
    var v, p := UniformVolume(b), UniformBytes(b);
    assert !SectorSafe(b + r, size) by {
      BlockIsAligned(b, 1, r, size);
      assert Times(b, 1) == Times(b, 0) + b == b;
    }
    var tail;
    tail, j := UnsafeGot(v, b + r, size);
    heap := _ => tail;
    UniformPiece(b, chain, heap, i, r, size);
    UniformByte(b, chain, i, r + j);
  }

  /** Where a piece leaves its block, the byte after it or the heap is delivered. */
  lemma CrossesBlock(b: nat, chain: seq<nat>, i: nat, r: nat, size: nat) returns (heap: nat -> Tail, j: nat)
    requires IsBlockSize(b) && AllOnes(chain) && 0 < r < b < r + size && Times(b, i) + r + size <= Times(b, |chain|)
    ensures WrongPiece(UniformVolume(b), b, chain, heap, i, r, size, j)
  {
    var n, tail := Min(size, b), seq<Byte>(SECTOR, _ => 0);
    j, heap := b - r, _ => tail;
    InChain(b, |chain|, i, r, size);
    UniformPiece(b, chain, heap, i, r, n);
    CrossingByte(b, r, n, j, tail);
    CrossingWant(b, chain, i, r, size, j);
  }

  lemma CrossingByte(b: nat, r: nat, n: nat, j: nat, tail: Tail)
    requires IsBlockSize(b) && r + n <= 2 * b && r + j == b && j < n && forall x | 0 <= x < SECTOR :: tail[x] == 0
    ensures |Got(UniformVolume(b), tail, b + r, n)| == n && Got(UniformVolume(b), tail, b + r, n)[j] == 0
  {
    GotByte(UniformVolume(b), tail, b + r, n, j);
    assert UniformBytes(b)[b + r + j] == 0;
  }

  lemma CrossingWant(b: nat, chain: seq<nat>, i: nat, r: nat, size: nat, j: nat)
    requires b > 0 && AllOnes(chain) && r + j == b && j < size && Times(b, i) + r + size <= Times(b, |chain|)
    ensures LogicalByte(UniformBytes(b), b, chain, Times(b, i) + r + j) == 1
  {
    InChain(b, |chain|, i + 1, 0, size - j);
    UniformByte(b, chain, i + 1, 0);
  }

  lemma UniformPresent(b: nat, chain: seq<nat>)
    requires IsBlockSize(b) && AllOnes(chain)
    ensures AllBlocks(UniformBytes(b), b, chain)
  {
    assert Times(b, 1) == Times(b, 0) + b == b;
  }

  /** The buffer holds the bytes of the file after the chain read. */
  ghost predicate ChainDelivers(v: Partition, b: nat, chain: seq<nat>, heap: nat -> Tail, offset: nat, size: nat, buf: seq<Byte>, at: nat)
    requires ValidPartition(v) && b > 0 && at + size <= |buf|
  {
    AfterChain(Through(v, b, chain, heap), b, chain, offset / b, offset % b, size, buf, at)[at..at + size] ==
    FileBytes(Bytes(v), b, chain, offset, size)
  }

  /** The request lies in the chain, and its blocks are there. */
  ghost predicate Chained(v: Partition, b: nat, chain: seq<nat>, offset: nat, size: nat) {
    ValidPartition(v) && offset + size <= Times(b, |chain|) && Present(Bytes(v), b, chain, offset, size)
  }

  lemma GoodChainDelivers(v: Partition, b: nat, chain: seq<nat>, heap: nat -> Tail, offset: nat, size: nat, buf: seq<Byte>, at: nat)
    requires IsBlockSize(b) && GoodRequest(b, offset % b, size) && Chained(v, b, chain, offset, size) && at + size <= |buf|
    ensures ChainDelivers(v, b, chain, heap, offset, size, buf, at)
  {
    var i, r := PlaceOf(offset, b);
    ReadsRight(Through(v, b, chain, heap), v, b, chain, heap, i, r, offset, size, buf, at);
  }

  /** A good request whose blocks are there delivers the file's bytes, whatever the heap holds. */
  lemma ReadsRight(read: Reader, v: Partition, b: nat, chain: seq<nat>, heap: nat -> Tail, i: nat, off: nat, pos: nat,
                   size: nat, buf: seq<Byte>, at: nat)
    requires ValidPartition(v) && IsBlockSize(b) && Reads(read, v, b, chain, heap) && at + size <= |buf|
    requires pos == Times(b, i) + off && off < b && pos + size <= Times(b, |chain|) && Present(Bytes(v), b, chain, pos, size)
    requires GoodRequest(b, off, size)
    ensures AfterChain(read, b, chain, i, off, size, buf, at) == Patched(buf, at, FileBytes(Bytes(v), b, chain, pos, size))
  {
    ReadsHonestly(read, v, b, chain, heap);
    if off > 0 {
      if size > 0 {
        InChain(b, |chain|, i, off, size);
        assert HasBlock(Bytes(v), b, chain, i);
        PieceHonest(v, b, chain, heap, i, off, size);
      }
    }
    ChainRight(read, Bytes(v), b, chain, i, off, pos, size, buf, at);
  }

  /** A chain read delivers the file's bytes on every volume and for every heap exactly when the request is
      good. */
  lemma ChainReadIsRight(b: nat, offset: nat, size: nat)
    requires IsBlockSize(b)
    ensures GoodRequest(b, offset % b, size) <==>
              forall v: Partition, chain: seq<nat>, heap: nat -> Tail, buf: seq<Byte>, at: nat |
                Chained(v, b, chain, offset, size) && at + size <= |buf| ::
                ChainDelivers(v, b, chain, heap, offset, size, buf, at)
  {
    if GoodRequest(b, offset % b, size) {
      forall v: Partition, chain: seq<nat>, heap: nat -> Tail, buf: seq<Byte>, at: nat |
        Chained(v, b, chain, offset, size) && at + size <= |buf|
        ensures ChainDelivers(v, b, chain, heap, offset, size, buf, at)
      {
        GoodChainDelivers(v, b, chain, heap, offset, size, buf, at);
      }
    } else {
      var v, chain, heap, buf := ChainReadGoesWrong(b, offset, size);
    }
  }

  /** A volume, a heap and a buffer for which a request that is not good goes wrong. */
  lemma ChainReadGoesWrong(b: nat, offset: nat, size: nat)
    returns (v: Partition, chain: seq<nat>, heap: nat -> Tail, buf: seq<Byte>)
    requires IsBlockSize(b) && !GoodRequest(b, offset % b, size)
    ensures |buf| == size && Chained(v, b, chain, offset, size) && AllBlocks(Bytes(v), b, chain)
    ensures !ChainDelivers(v, b, chain, heap, offset, size, buf, 0)
  {
    v, chain, buf := UniformVolume(b), seq(offset + size, _ => 1), seq<Byte>(size, _ => 0);
    var i, r := PlaceOf(offset, b);
    TimesGrows(b, |chain|);
    UniformPresent(b, chain);
    var j;
    heap, j := UniformGoesWrong(b, chain, offset, i, r, size);
    NotDelivered(v, b, chain, heap, offset, i, r, size, buf, j);
  }

  lemma NotDelivered(v: Partition, b: nat, chain: seq<nat>, heap: nat -> Tail, offset: nat, i: nat, r: nat, size: nat,
                     buf: seq<Byte>, j: nat)
    requires ValidPartition(v) && b > 0 && i == offset / b && r == offset % b && offset == Times(b, i) + r
    requires i < |chain| && chain[i] != 0 && |buf| == size && WrongPiece(v, b, chain, heap, i, r, size, j)
    ensures !ChainDelivers(v, b, chain, heap, offset, size, buf, 0)
  {
    var read := Through(v, b, chain, heap);
    WrongStays(read, v, b, chain, heap, i, r, size, buf, 0, j);
    var s := AfterChain(read, b, chain, i, r, size, buf, 0);
    assert s[0..0 + size][j] == s[0 + j];
  }
}
