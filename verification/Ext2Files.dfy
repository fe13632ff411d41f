/** Files of an ext2 volume through direct, single-indirect and double-indirect blocks, and what a read of
    them delivers (fs/ext2/ext2.c:185-267). */
module Ext2Files {
  import opened Arith
  import opened BlockStack
  import opened Ext2Blocks

  /** What a directory lookup copies out of an inode. */
  datatype Attributes = Attributes(rights: nat, uid: nat, gid: nat, length: nat)

  datatype Inode = Inode(size: nat, direct: seq<nat>, single: nat, double: nat, attrs: Attributes)

  predicate ValidInode(ino: Inode) {
    |ino.direct| == 12
  }

  /** Pointer `i` of pointer block `n`; 0 outside the volume. */
  function Pointer(p: seq<Byte>, b: nat, n: nat, i: nat): nat {
    if InVolume(p, b, n) && 4 * i + 4 <= b then PointerAt(p, b, n, i) else 0
  }

  /** Pointer `x` of the pointer blocks that entry `m` of block `double` and the ones after it lead to, `k` to
      the block. */
  function SecondLevel(p: seq<Byte>, b: nat, k: nat, double: nat, m: nat, x: nat): nat
    requires k > 0
    decreases x
  {
    if x < k then Pointer(p, b, Pointer(p, b, double, m), x) else SecondLevel(p, b, k, double, m + 1, x - k)
  }

  lemma {:induction false} SecondLevelAt(p: seq<Byte>, b: nat, k: nat, double: nat, m0: nat, m: nat, t: nat)
    requires t < k
    ensures SecondLevel(p, b, k, double, m0, Times(k, m) + t) == Pointer(p, b, Pointer(p, b, double, m0 + m), t)
    decreases m
  {
    if m > 0 {
      SecondLevelAt(p, b, k, double, m0 + 1, m - 1, t);
    }
  }

  /** The block that holds block `n` of the file. With `k` pointers to the block, the first 12 are
      in the inode, the next `k` in the single-indirect block, the next `k * k` two levels down. */
  function FileBlock(p: seq<Byte>, b: nat, k: nat, ino: Inode, n: nat): nat
    requires ValidInode(ino) && k > 0
  {
    if n < 12 then ino.direct[n]
    else if n < 12 + k then Pointer(p, b, ino.single, n - 12)
    else if InVolume(p, b, ino.double) then SecondLevel(p, b, k, ino.double, 0, n - 12 - k)
    else 0
  }

  /** The blocks of the file in order, as far as the inode reaches without a third level. */
  function FileBlocks(p: seq<Byte>, b: nat, k: nat, ino: Inode): (r: seq<nat>)
    requires ValidInode(ino) && k > 0
    ensures |r| == 12 + k + Times(k, k) && forall n | 0 <= n < |r| :: r[n] == FileBlock(p, b, k, ino, n)
  {
    seq(12 + k + Times(k, k), n requires 0 <= n => FileBlock(p, b, k, ino, n))
  }

  /** The little-endian number in the four bytes at `x`. */
  function Le32At(p: seq<Byte>, x: nat): nat {
    if x + 4 <= |p| then
      var b0: nat, b1: nat, b2: nat, b3: nat := p[x], p[x + 1], p[x + 2], p[x + 3];
      b0 + b1 * 0x100 + b2 * 0x1_0000 + b3 * 0x100_0000
    else 0
  }

  /** Block `12 + i` of the file is pointer `i` of the single-indirect block, read byte by byte. */
  lemma SingleBlockIs(p: seq<Byte>, b: nat, ino: Inode, i: nat)
    requires ValidInode(ino) && IsBlockSize(b) && InVolume(p, b, ino.single) && i < b / 4
    ensures FileBlock(p, b, b / 4, ino, 12 + i) == Le32At(p, b * ino.single + 4 * i)
  {
    PointerIs(p, b, ino.single, i);
  }

  /** Block `n == 12 + k + k * m + t` is pointer `t` of the block that pointer `m` of the double-indirect block names. */
  lemma DoubleBlockIs(p: seq<Byte>, b: nat, k: nat, ino: Inode, m: nat, t: nat, q: nat, n: nat)
    requires ValidInode(ino) && k == b / 4 && InVolume(p, b, ino.double) && m < k && t < k && n == 12 + k + k * m + t
    requires q == Le32At(p, b * ino.double + 4 * m) && InVolume(p, b, q)
    ensures FileBlock(p, b, k, ino, n) == Le32At(p, b * q + 4 * t)
  {
    PointerIs(p, b, ino.double, m);
    PointerIs(p, b, q, t);
    TimesIsProduct(k, m);
    SecondLevelAt(p, b, k, ino.double, 0, m, t);
  }

  lemma PointerIs(p: seq<Byte>, b: nat, n: nat, i: nat)
    requires InVolume(p, b, n) && i < b / 4
    ensures Pointer(p, b, n, i) == Le32At(p, b * n + 4 * i)
  {
    TimesIsProduct(b, n);
  }

  /** Byte `pos` of a file, with the block and the place in it as quotient and remainder. */
  lemma FileByteIs(p: seq<Byte>, b: nat, blocks: seq<nat>, pos: nat)
    requires b > 0 && pos / b < |blocks| && b * blocks[pos / b] + b <= |p|
    ensures pos % b < b && b * blocks[pos / b] + pos % b < |p| && LogicalByte(p, b, blocks, pos) == p[b * blocks[pos / b] + pos % b]
  {
    var i, r := PlaceOf(pos, b);
    ByteAtPlace(p, b, blocks, 0, i, r);
    TimesIsProduct(b, blocks[i]);
  }

  /** `chain` holds the blocks of the file from block `n0` on. */
  ghost predicate PartOfFile(blocks: seq<nat>, chain: seq<nat>, n0: nat) {
    n0 + |chain| <= |blocks| && forall i | 0 <= i < |chain| :: chain[i] == blocks[n0 + i]
  }

  // ---- parts: what is read with one pointer block ----

  /** The end of the part with byte `x`, for parts of `span` bytes one after the other. */
  function PartStep(span: nat, x: nat): (e: nat)
    requires span > 0
    ensures e > x
    decreases x
  {
    if x < span then span else span + PartStep(span, x - span)
  }

  /** The end of the part of the file with byte `pos`: the direct blocks, the single-indirect ones, or those
      below one entry of the double-indirect block. */
  function PartEnd(b: nat, k: nat, pos: nat): (e: nat)
    requires b > 0 && k > 0
    ensures e > pos
  {
    if pos < Times(b, 12) then Times(b, 12)
    else if pos < Times(b, 12 + k) then Times(b, 12 + k)
    else TimesPositive(b, k); Times(b, 12 + k) + PartStep(Times(b, k), pos - Times(b, 12 + k))
  }

  lemma TimesPositive(b: nat, n: nat)
    requires b > 0 && n > 0
    ensures Times(b, n) > 0
  {
  }

  lemma {:induction false} PartStepAt(span: nat, m: nat, r: nat)
    requires r < span
    ensures PartStep(span, Times(span, m) + r) == Times(span, m) + span
    decreases m
  {
    if m > 0 {
      PartStepAt(span, m - 1, r);
    }
  }

  /** Parts end on block borders. */
  lemma {:induction false} PartStepAligned(b: nat, k: nat, x: nat) returns (e: nat)
    requires b > 0 && k > 0
    ensures Times(b, k) > 0 && PartStep(Times(b, k), x) == Times(b, e)
    decreases x
  {
    TimesPositive(b, k);
    if x < Times(b, k) {
      e := k;
    } else {
      e := PartStepAligned(b, k, x - Times(b, k));
      TimesAdd(b, k, e);
      e := k + e;
    }
  }

  lemma PartEndAligned(b: nat, k: nat, pos: nat) returns (e: nat)
    requires b > 0 && k > 0
    ensures PartEnd(b, k, pos) == Times(b, e)
  {
    if pos < Times(b, 12) {
      e := 12;
    } else if pos < Times(b, 12 + k) {
      e := 12 + k;
    } else {
      e := PartStepAligned(b, k, pos - Times(b, 12 + k));
      TimesAdd(b, 12 + k, e);
      e := 12 + k + e;
    }
  }

  // ---- what a read of the file delivers ----

  /** The buffer after a read of `size` bytes from `pos` on: part by part, each with one chain read, as far as
      the code reaches. */
  ghost function FileGot(read: Reader, b: nat, k: nat, blocks: seq<nat>, reach: nat, pos: nat, size: nat, buf: seq<Byte>, at: nat): (s: seq<Byte>)
    requires Bounded(read) && b > 0 && k > 0 && at + size <= |buf|
    ensures |s| == |buf|
    decreases size
  {
    if size == 0 || pos >= reach then buf
    else
      var n := Min(size, PartEnd(b, k, pos) - pos);
      FileGot(read, b, k, blocks, reach, pos + n, size - n, AfterChain(read, b, blocks, Quot(b, pos), Rest(b, pos), n, buf, at), at + n)
  }

  /** How much of a request the code can reach. */
  function Within(reach: nat, pos: nat, size: nat): nat {
    if pos >= reach then 0 else Min(size, reach - pos)
  }

  /** A request the code gets right: it stays within reach, and what it reads of its first part is a good
      request; the other parts are read from their start. */
  predicate FileRequest(b: nat, k: nat, reach: nat, pos: nat, size: nat)
    requires b > 0 && k > 0
  {
    size == 0 || (pos + size <= reach && GoodRequest(b, Rest(b, pos), Min(size, PartEnd(b, k, pos) - pos)))
  }

  /** Such a request delivers the bytes of the file if none of its blocks is missing. */
  lemma {:induction false} FileRight(read: Reader, v: Partition, b: nat, k: nat, blocks: seq<nat>, heap: nat -> Tail, reach: nat,
                                     pos: nat, size: nat, buf: seq<Byte>, at: nat)
    requires ValidPartition(v) && IsBlockSize(b) && k > 0 && Reads(read, v, b, blocks, heap) && at + size <= |buf|
    requires reach <= Times(b, |blocks|) && FileRequest(b, k, reach, pos, size) && Present(Bytes(v), b, blocks, pos, size)
    ensures FileGot(read, b, k, blocks, reach, pos, size, buf, at) == Patched(buf, at, FileBytes(Bytes(v), b, blocks, pos, size))
    decreases size
  {
    var p := Bytes(v);
    if size == 0 {
      assert Patched(buf, at, FileBytes(p, b, blocks, pos, size)) == buf;
    } else {
      var n := Min(size, PartEnd(b, k, pos) - pos);
      FirstPartRight(read, v, b, blocks, heap, pos, n, size, buf, at);
      var next := Patched(buf, at, FileBytes(p, b, blocks, pos, n));
      NextPart(b, k, reach, pos, n, size);
      PresentRest(p, b, blocks, pos, n, size);
      FileRight(read, v, b, k, blocks, heap, reach, pos + n, size - n, next, at + n);
      SlicesPatched(p, b, blocks, pos, n, size - n, buf, at);
    }
  }

  lemma FirstPartRight(read: Reader, v: Partition, b: nat, blocks: seq<nat>, heap: nat -> Tail, pos: nat, n: nat, size: nat,
                       buf: seq<Byte>, at: nat)
    requires ValidPartition(v) && IsBlockSize(b) && Reads(read, v, b, blocks, heap) && n <= size && at + size <= |buf|
    requires pos + n <= Times(b, |blocks|) && GoodRequest(b, Rest(b, pos), n) && Present(Bytes(v), b, blocks, pos, size)
    ensures AfterChain(read, b, blocks, Quot(b, pos), Rest(b, pos), n, buf, at) == Patched(buf, at, FileBytes(Bytes(v), b, blocks, pos, n))
  {
    var i, r := PlaceOf(pos, b);
    PresentFirst(Bytes(v), b, blocks, pos, n, size);
    ReadsRight(read, v, b, blocks, heap, i, r, pos, n, buf, at);
  }

  lemma NextPart(b: nat, k: nat, reach: nat, pos: nat, n: nat, size: nat)
    requires b > 0 && k > 0 && 0 < size && pos + size <= reach && n == Min(size, PartEnd(b, k, pos) - pos)
    ensures FileRequest(b, k, reach, pos + n, size - n)
  {
    if n < size {
      var e := PartEndAligned(b, k, pos);
      PlaceUnique(b, e, 0);
    }
  }

  lemma PresentFirst(p: seq<Byte>, b: nat, blocks: seq<nat>, pos: nat, n: nat, size: nat)
    requires Present(p, b, blocks, pos, size) && n <= size
    ensures Present(p, b, blocks, pos, n)
  {
  }

  /** Nothing before `at` is written, and nothing past what the code reaches. */
  lemma {:induction false} FileFrame(read: Reader, b: nat, k: nat, blocks: seq<nat>, reach: nat, pos: nat, size: nat, buf: seq<Byte>, at: nat)
    requires Bounded(read) && b > 0 && k > 0 && at + size <= |buf|
    ensures var s := FileGot(read, b, k, blocks, reach, pos, size, buf, at); s[..at] == buf[..at]
    decreases size
  {
    if size > 0 && pos < reach {
      var n := Min(size, PartEnd(b, k, pos) - pos);
      var next := AfterChain(read, b, blocks, Quot(b, pos), Rest(b, pos), n, buf, at);
      ChainFrame(read, b, blocks, Quot(b, pos), Rest(b, pos), n, buf, at);
      FileFrame(read, b, k, blocks, reach, pos + n, size - n, next, at + n);
      var s := FileGot(read, b, k, blocks, reach, pos, size, buf, at);
      assert s[..at] == s[..at + n][..at] == next[..at + n][..at] == next[..at];
    }
  }

  // ---- how far the code reaches ----

  /** `1024 << block_size` for the sizes whose single-indirect span fits an `int`. */
  predicate RealBlockSize(b: nat) {
    b == 1024 || b == 2048 || b == 4096 || b == 8192 || b == 16384 || b == 32768 || b == 65536
  }

  /** The value of a C `int` that has received `x`. */
  function ToInt(x: nat): int {
    var w := x % 0x1_0000_0000;
    if w < 0x8000_0000 then w else w - 0x1_0000_0000
  }

  /** `bytes_in_dibp`. */
  function DoubleSpan(b: nat): int {
    ToInt(b * (b / 4) * (b / 4))
  }

  /** The double-indirect span survives its `int` only for blocks of at most 2048 bytes; for larger
      ones it is zero, and the region is never read. */
  lemma DoubleSpanFits(b: nat)
    requires RealBlockSize(b)
    ensures IsBlockSize(b) && ToInt(b * (b / 4)) == b * (b / 4) && ToInt(12 * b) == 12 * b
    ensures b <= 2048 ==> DoubleSpan(b) == b * (b / 4) * (b / 4)
    ensures b > 2048 ==> DoubleSpan(b) == 0
  {
    assert 1024 * (1024 / 4) == 0x4_0000 && 2048 * (2048 / 4) == 0x10_0000 && 4096 * (4096 / 4) == 0x40_0000;
    assert 8192 * (8192 / 4) == 0x100_0000 && 16384 * (16384 / 4) == 0x400_0000;
    assert 32768 * (32768 / 4) == 0x1000_0000 && 65536 * (65536 / 4) == 0x4000_0000;
    assert 0x4_0000 * 256 == 0x400_0000 && 0x10_0000 * 512 == 0x2000_0000 && 0x40_0000 * 1024 == 0x1_0000_0000;
    assert 0x100_0000 * 2048 == 0x1_0000_0000 * 8 && 0x400_0000 * 4096 == 0x1_0000_0000 * 64;
    assert 0x1000_0000 * 8192 == 0x1_0000_0000 * 512 && 0x4000_0000 * 16384 == 0x1_0000_0000 * 4096;
  }

  /** How far into a file the code can read: the double-indirect region counts only where its span
      survives. */
  function Reach(b: nat): nat {
    var k := b / 4;
    Times(b, 12 + k) + if b <= 2048 then Times(Times(b, k), k) else 0
  }

  /** The reach in bytes: twelve blocks, the blocks of one pointer block, and, for blocks of at most 2048 bytes, those of a
      block of pointer blocks. */
  lemma ReachIs(b: nat)
    ensures Reach(b) == 12 * b + b * (b / 4) + if b <= 2048 then b * (b / 4) * (b / 4) else 0
  {
    var k := b / 4;
    TimesIsProduct(b, 12 + k);
    TimesIsProduct(b, k);
    TimesIsProduct(Times(b, k), k);
    assert b * (12 + k) == 12 * b + b * k;
  }

  lemma {:induction false} PartStepWithin(span: nat, k: nat, x: nat)
    requires span > 0 && x < Times(span, k)
    ensures PartStep(span, x) <= Times(span, k)
    decreases k
  {
    if x >= span {
      PartStepWithin(span, k - 1, x - span);
    } else {
      TimesMono(span, 1, k);
      assert Times(span, 1) == Times(span, 0) + span;
    }
  }

  lemma {:induction false} TimesTimes(b: nat, k: nat, n: nat)
    ensures Times(Times(b, k), n) == Times(b, Times(k, n))
  {
    if n > 0 {
      TimesTimes(b, k, n - 1);
      TimesAdd(b, Times(k, n - 1), k);
    }
  }

  /** Reach ends with a part, inside what the inode can name. */
  lemma PartInReach(b: nat, pos: nat)
    requires b >= 4 && pos < Reach(b)
    ensures PartEnd(b, b / 4, pos) <= Reach(b) <= Times(b, 12 + b / 4 + Times(b / 4, b / 4))
  {
    ReachInFile(b);
    var k := b / 4;
    TimesMono(b, 12, 12 + k);
    if pos >= Times(b, 12 + k) {
      TimesPositive(b, k);
      PartStepWithin(Times(b, k), k, pos - Times(b, 12 + k));
    }
  }

  lemma ReachInFile(b: nat)
    requires b >= 4
    ensures Reach(b) <= Times(b, 12 + b / 4 + Times(b / 4, b / 4))
  {
    var k := b / 4;
    TimesTimes(b, k, k);
    TimesAdd(b, 12 + k, Times(k, k));
  }

  /** What lies past the reach is left as it was. */
  lemma {:induction false} PastReach(read: Reader, b: nat, blocks: seq<nat>, pos: nat, size: nat, buf: seq<Byte>, at: nat, x: nat)
    requires Bounded(read) && b >= 4 && at + size <= |buf| && at <= x < |buf| && Reach(b) <= pos + (x - at)
    ensures FileGot(read, b, b / 4, blocks, Reach(b), pos, size, buf, at)[x] == buf[x]
    decreases size
  {
    var k, reach := b / 4, Reach(b);
    if size > 0 && pos < reach {
      var n := Min(size, PartEnd(b, k, pos) - pos);
      PartInReach(b, pos);
      ChainFrame(read, b, blocks, Quot(b, pos), Rest(b, pos), n, buf, at);
      var next := AfterChain(read, b, blocks, Quot(b, pos), Rest(b, pos), n, buf, at);
      assert next[x] == next[at + n..][x - at - n] == buf[at + n..][x - at - n] == buf[x];
      PastReach(read, b, blocks, pos + n, size - n, next, at + n, x);
    }
  }

  // ---- when a file read is right ----

  /** The buffer holds the bytes of the file after the read. */
  ghost predicate FileDelivers(v: Partition, b: nat, ino: Inode, heap: nat -> Tail, offset: nat, size: nat, buf: seq<Byte>)
    requires ValidPartition(v) && ValidInode(ino) && b >= 4 && |buf| == size
  {
    var blocks := FileBlocks(Bytes(v), b, b / 4, ino);
    FileGot(Through(v, b, blocks, heap), b, b / 4, blocks, Reach(b), offset, size, buf, 0) == FileBytes(Bytes(v), b, blocks, offset, size)
  }

  /** The blocks of the file that the request touches are there. */
  ghost predicate FilePresent(v: Partition, b: nat, ino: Inode, offset: nat, size: nat)
    requires b >= 4
  {
    ValidPartition(v) && ValidInode(ino) && Present(Bytes(v), b, FileBlocks(Bytes(v), b, b / 4, ino), offset, size)
  }

  /** A read of a file delivers its bytes on every volume, for every heap and whatever was in the buffer, exactly
      when the request stays within reach and is good in its first part. */
  lemma FileReadIsRight(b: nat, offset: nat, size: nat)
    requires IsBlockSize(b)
    ensures FileRequest(b, b / 4, Reach(b), offset, size) <==>
              forall v: Partition, ino: Inode, heap: nat -> Tail, buf: seq<Byte> | FilePresent(v, b, ino, offset, size) && |buf| == size ::
                FileDelivers(v, b, ino, heap, offset, size, buf)
  {
    if FileRequest(b, b / 4, Reach(b), offset, size) {
      forall v: Partition, ino: Inode, heap: nat -> Tail, buf: seq<Byte> | FilePresent(v, b, ino, offset, size) && |buf| == size
        ensures FileDelivers(v, b, ino, heap, offset, size, buf)
      {
        GoodFileDelivers(v, b, ino, heap, offset, size, buf);
      }
    } else {
      var v, ino, heap, buf := FileReadGoesWrong(b, offset, size);
    }
  }

  lemma GoodFileDelivers(v: Partition, b: nat, ino: Inode, heap: nat -> Tail, offset: nat, size: nat, buf: seq<Byte>)
    requires IsBlockSize(b) && FilePresent(v, b, ino, offset, size) && |buf| == size
    requires FileRequest(b, b / 4, Reach(b), offset, size)
    ensures FileDelivers(v, b, ino, heap, offset, size, buf)
  {
    ReachInFile(b);
    var blocks := FileBlocks(Bytes(v), b, b / 4, ino);
    FileRight(Through(v, b, blocks, heap), v, b, b / 4, blocks, heap, Reach(b), offset, size, buf, 0);
    assert Patched(buf, 0, FileBytes(Bytes(v), b, blocks, offset, size)) == FileBytes(Bytes(v), b, blocks, offset, size);
  }

  /** A volume, a heap and a buffer for which any other request goes wrong. */
  lemma FileReadGoesWrong(b: nat, offset: nat, size: nat)
    returns (v: Partition, ino: Inode, heap: nat -> Tail, buf: seq<Byte>)
    requires IsBlockSize(b) && !FileRequest(b, b / 4, Reach(b), offset, size)
    ensures FilePresent(v, b, ino, offset, size) && |buf| == size && !FileDelivers(v, b, ino, heap, offset, size, buf)
  {
    v, ino := UniformVolume(b), UNIFORM_INODE;
    UniformFile(b);
    var blocks := FileBlocks(UniformBytes(b), b, b / 4, ino);
    UniformPresent(b, blocks);
    if offset + size > Reach(b) {
      heap, buf := WrongPastReach(b, blocks, offset, size);
    } else {
      buf := seq<Byte>(size, _ => 0);
      heap := WrongInPart(b, blocks, offset, size, buf);
    }
  }

  lemma WrongPastReach(b: nat, blocks: seq<nat>, offset: nat, size: nat) returns (heap: nat -> Tail, buf: seq<Byte>)
    requires IsBlockSize(b) && 0 < size && offset + size > Reach(b)
    ensures |buf| == size
    ensures FileGot(Through(UniformVolume(b), b, blocks, heap), b, b / 4, blocks, Reach(b), offset, size, buf, 0) !=
            FileBytes(UniformBytes(b), b, blocks, offset, size)
  {
    var want := FileBytes(UniformBytes(b), b, blocks, offset, size);
    var c: Byte := if want[size - 1] == 0 then 1 else 0;
    var tail: Tail := seq(SECTOR, _ => 0);
    heap, buf := _ => tail, seq<Byte>(size, _ => c);
    PastReach(Through(UniformVolume(b), b, blocks, heap), b, blocks, offset, size, buf, 0, size - 1);
  }

  const UNIFORM_INODE := Inode(0, [1, 1, 1, 1, 1, 1, 1, 1, 1, 1, 1, 1], 3, 4, Attributes(0, 0, 0, 0))

  lemma WrongInPart(b: nat, blocks: seq<nat>, offset: nat, size: nat, buf: seq<Byte>) returns (heap: nat -> Tail)
    requires IsBlockSize(b) && AllOnes(blocks) && |blocks| == 12 + b / 4 + Times(b / 4, b / 4)
    requires 0 < size == |buf| && offset + size <= Reach(b)
    requires !GoodRequest(b, Rest(b, offset), Min(size, PartEnd(b, b / 4, offset) - offset))
    ensures FileGot(Through(UniformVolume(b), b, blocks, heap), b, b / 4, blocks, Reach(b), offset, size, buf, 0) !=
            FileBytes(UniformBytes(b), b, blocks, offset, size)
  {
    PartInReach(b, offset);
    heap := WrongFirstPart(b, b / 4, blocks, Reach(b), offset, size, buf);
  }

  lemma WrongFirstPart(b: nat, k: nat, blocks: seq<nat>, reach: nat, offset: nat, size: nat, buf: seq<Byte>) returns (heap: nat -> Tail)
    requires IsBlockSize(b) && k > 0 && AllOnes(blocks) && 0 < size == |buf| && offset < reach
    requires offset + Min(size, PartEnd(b, k, offset) - offset) <= Times(b, |blocks|)
    requires !GoodRequest(b, Rest(b, offset), Min(size, PartEnd(b, k, offset) - offset))
    ensures FileGot(Through(UniformVolume(b), b, blocks, heap), b, k, blocks, reach, offset, size, buf, 0) !=
            FileBytes(UniformBytes(b), b, blocks, offset, size)
  {
    var n := Min(size, PartEnd(b, k, offset) - offset);
    var i, r := PlaceOf(offset, b);
    var j;
    heap, j := UniformGoesWrong(b, blocks, offset, i, r, n);
    WrongPartStays(Through(UniformVolume(b), b, blocks, heap), UniformVolume(b), b, k, blocks, heap, reach, offset, size, buf, i, r, n, j);
    assert FileBytes(UniformBytes(b), b, blocks, offset, size)[j] == LogicalByte(UniformBytes(b), b, blocks, offset + j);
  }

  lemma WrongPartStays(read: Reader, v: Partition, b: nat, k: nat, blocks: seq<nat>, heap: nat -> Tail, reach: nat, offset: nat, size: nat,
                       buf: seq<Byte>, i: nat, r: nat, n: nat, j: nat)
    requires ValidPartition(v) && Reads(read, v, b, blocks, heap) && b > 0 && k > 0 && size == |buf| && offset < reach
    requires n == Min(size, PartEnd(b, k, offset) - offset) && i == Quot(b, offset) && r == Rest(b, offset) && offset == Times(b, i) + r
    requires i < |blocks| && blocks[i] != 0 && WrongPiece(v, b, blocks, heap, i, r, n, j)
    ensures j < size
    ensures FileGot(read, b, k, blocks, reach, offset, size, buf, 0)[j] != LogicalByte(Bytes(v), b, blocks, offset + j)
  {
    WrongStays(read, v, b, blocks, heap, i, r, n, buf, 0, j);
    FirstPartStays(read, b, k, blocks, reach, offset, size, buf, n, j);
  }

  /** A byte of the first part is still there at the end. */
  lemma FirstPartStays(read: Reader, b: nat, k: nat, blocks: seq<nat>, reach: nat, pos: nat, size: nat, buf: seq<Byte>, n: nat, j: nat)
    requires Bounded(read) && b > 0 && k > 0 && size <= |buf| && pos < reach && j < n == Min(size, PartEnd(b, k, pos) - pos)
    ensures FileGot(read, b, k, blocks, reach, pos, size, buf, 0)[j] == AfterChain(read, b, blocks, Quot(b, pos), Rest(b, pos), n, buf, 0)[j]
  {
    var next := AfterChain(read, b, blocks, Quot(b, pos), Rest(b, pos), n, buf, 0);
    FileFrame(read, b, k, blocks, reach, pos + n, size - n, next, 0 + n);
    var s := FileGot(read, b, k, blocks, reach, pos, size, buf, 0);
    assert s[..n][j] == next[..n][j];
  }

  /** All blocks of that file are block 1 of that volume. */
  lemma UniformFile(b: nat)
    requires IsBlockSize(b) && b >= 4
    ensures AllOnes(FileBlocks(UniformBytes(b), b, b / 4, UNIFORM_INODE))
  {
    var blocks := FileBlocks(UniformBytes(b), b, b / 4, UNIFORM_INODE);
    forall n | 0 <= n < |blocks|
      ensures blocks[n] == 1
    {
      UniformBlock(b, b / 4, n);
    }
  }

  lemma UniformBlock(b: nat, k: nat, n: nat)
    requires IsBlockSize(b) && k == b / 4 > 0 && n < 12 + k + Times(k, k)
    ensures FileBlock(UniformBytes(b), b, k, UNIFORM_INODE, n) == 1
  {
    if n >= 12 + k {
      var m, t := PlaceOf(n - 12 - k, k);
      TimesLess(k, m, k);
      SecondLevelAt(UniformBytes(b), b, k, 4, 0, m, t);
      UniformPointer(b, 4, m);
      UniformPointer(b, 3, t);
    } else if n >= 12 {
      UniformPointer(b, 3, n - 12);
    }
  }

  lemma UniformPointer(b: nat, n: nat, i: nat)
    requires IsBlockSize(b) && (n == 3 || n == 4) && i < b / 4
    ensures InVolume(UniformBytes(b), b, n) && Pointer(UniformBytes(b), b, n, i) == if n == 3 then 1 else 3
  {
    TimesIsProduct(b, 3);
    TimesIsProduct(b, 4);
    Quarters(b);
    UniformWord(b, b / 4, if n == 3 then 3 * (b / 4) + i else 4 * (b / 4) + i);
  }

  lemma Quarters(b: nat)
    requires IsBlockSize(b)
    ensures b == 4 * (b / 4)
  {
    assert b == SECTOR * (b / SECTOR) == 4 * (128 * (b / SECTOR));
  }

  lemma UniformWord(b: nat, k: nat, w: nat)
    requires IsBlockSize(b) && b == 4 * k && 3 * k <= w < 5 * k
    ensures U32(UniformBytes(b), 4 * w) == if w < 4 * k then 1 else 3
  {
    var p, x := UniformBytes(b), 4 * w;
    assert p[x + 1] == 0 && p[x + 2] == 0 && p[x + 3] == 0;
  }
}
