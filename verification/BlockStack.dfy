/** Reading bytes through the block stack: a partition (fs/mdpart/mdpart.c) over an ATA device that
    transfers whole sectors (fs/ata/ata.c). */
module BlockStack {
  import opened Arith

  type Byte = b: nat | b < 256

  const SECTOR: nat := 512

  datatype Reply = Count(n: nat) | EInval | EBadF

  /** How many sectors `len` bytes are rounded up to. */
  function Sectors(len: nat): nat {
    len / SECTOR + if len % SECTOR != 0 then 1 else 0
  }

  /** The transfer covers the request: the bytes before `offset` in its first sector fit into the
      slack of the last one. */
  predicate SectorSafe(offset: nat, len: nat) {
    len == 0 || offset % SECTOR + len <= SECTOR * Sectors(len)
  }

  lemma SectorsCover(len: nat)
    ensures len <= SECTOR * Sectors(len) < len + SECTOR
  {
  }

  /** `s` with `bytes` written at `at`. */
  function Patched(s: seq<Byte>, at: nat, bytes: seq<Byte>): (t: seq<Byte>)
    requires at + |bytes| <= |s|
    ensures |t| == |s| && forall k | 0 <= k < |s| :: t[k] == if at <= k < at + |bytes| then bytes[k - at] else s[k]
  {
    seq<Byte>(|s|, k requires 0 <= k < |s| => if at <= k < at + |bytes| then bytes[k - at] else s[k])
  }

  lemma PatchedTwice(s: seq<Byte>, at: nat, x: seq<Byte>, y: seq<Byte>)
    requires at + |x| + |y| <= |s|
    ensures Patched(Patched(s, at, x), at + |x|, y) == Patched(s, at, x + y)
  {
  }

  /** `memcpy`. */
  method Blit(dst: array<Byte>, at: nat, src: seq<Byte>)
    requires at + |src| <= dst.Length
    modifies dst
    ensures dst[..] == Patched(old(dst[..]), at, src)
  {
    var i := 0;
    while i < |src|
      invariant 0 <= i <= |src|
      invariant forall k | 0 <= k < dst.Length :: dst[k] == if at <= k < at + i then src[k - at] else old(dst[k])
    {
      dst[at + i] := src[i];
      i := i + 1;
    }
  }

  /** What lies behind a temporary buffer in the heap: any bytes at all. */
  type Tail = s: seq<Byte> | |s| == SECTOR witness seq(SECTOR, i => 0)

  /** The sectors of a transfer are on the disk. */
  predicate OnDisk(disk: seq<Byte>, offset: nat, len: nat) {
    offset / SECTOR * SECTOR + SECTOR * Sectors(len) <= |disk|
  }

  /** Byte `j` of what `ata_read` copies out: of the transferred sectors from `offset % 512` on, and, past
      their end, of whatever follows the temporary buffer in the heap. */
  function FetchedByte(disk: seq<Byte>, tail: Tail, offset: nat, len: nat, j: nat): Byte
    requires OnDisk(disk, offset, len) && j < len
  {
    SectorsCover(len);
    DivModEq(offset, SECTOR);
    var inside, x := SECTOR * Sectors(len), offset % SECTOR + j;
    if x < inside then disk[offset + j] else tail[x - inside]
  }

  function Fetched(disk: seq<Byte>, tail: Tail, offset: nat, len: nat): (s: seq<Byte>)
    requires OnDisk(disk, offset, len)
    ensures |s| == len
  {
    seq<Byte>(len, j requires 0 <= j < len => FetchedByte(disk, tail, offset, len, j))
  }

  /** The transferred sectors with the heap behind them hold exactly those bytes. */
  lemma FetchedIsCopied(disk: seq<Byte>, tail: Tail, offset: nat, len: nat)
    requires OnDisk(disk, offset, len) && offset % SECTOR + len <= SECTOR * Sectors(len) + SECTOR
    ensures var a, n, r := offset / SECTOR * SECTOR, SECTOR * Sectors(len), offset % SECTOR;
            Fetched(disk, tail, offset, len) == (disk[a..a + n] + tail)[r..r + len]
  {
    DivModEq(offset, SECTOR);
    var a, n, r := offset / SECTOR * SECTOR, SECTOR * Sectors(len), offset % SECTOR;
    var x, y := Fetched(disk, tail, offset, len), (disk[a..a + n] + tail)[r..r + len];
    forall j | 0 <= j < len
      ensures x[j] == y[j]
    {
      assert y[j] == (disk[a..a + n] + tail)[r + j];
    }
  }

  lemma SafeFetch(disk: seq<Byte>, tail: Tail, offset: nat, len: nat)
    requires OnDisk(disk, offset, len) && offset + len <= |disk| && SectorSafe(offset, len)
    ensures Fetched(disk, tail, offset, len) == disk[offset..offset + len]
  {
    forall j | 0 <= j < len
      ensures Fetched(disk, tail, offset, len)[j] == disk[offset..offset + len][j]
    {
      assert FetchedByte(disk, tail, offset, len, j) == disk[offset + j];
    }
  }

  lemma UnsafeFetch(disk: seq<Byte>, offset: nat, len: nat) returns (tail: Tail, j: nat)
    requires OnDisk(disk, offset, len) && offset + len <= |disk| && !SectorSafe(offset, len)
    ensures j < len && Fetched(disk, tail, offset, len)[j] != disk[offset + j]
  {
    SectorsCover(len);
    j := SECTOR * Sectors(len) - offset % SECTOR;
    var b: Byte := if disk[offset + j] == 0 then 1 else 0;
    tail := seq(SECTOR, i => b);
    assert FetchedByte(disk, tail, offset, len, j) == b;
  }

  /** The transfer gives the bytes of the disk, whatever the heap holds, exactly for safe requests. */
  lemma FetchedIsDisk(disk: seq<Byte>, offset: nat, len: nat)
    requires OnDisk(disk, offset, len) && offset + len <= |disk|
    ensures SectorSafe(offset, len) <==>
              forall tail: Tail :: Fetched(disk, tail, offset, len) == disk[offset..offset + len]
  {
    if SectorSafe(offset, len) {
      forall tail: Tail
        ensures Fetched(disk, tail, offset, len) == disk[offset..offset + len]
      {
        SafeFetch(disk, tail, offset, len);
      }
    } else {
      var tail, j := UnsafeFetch(disk, offset, len);
      assert disk[offset..offset + len][j] == disk[offset + j];
    }
  }

  /** A device node: the bytes of the disk and the length the node claims. */
  datatype Device = Device(bytes: seq<Byte>, length: nat)

  /** `len` after clipping the request to the length of the node. */
  function Clip(length: nat, offset: nat, size: nat): nat
    requires offset <= length
  {
    if offset + size > length then length - offset else size
  }

  /** Of `size` items asked for at `offset`, `n` are given: all of them, or those up to the end. */
  ghost predicate UpToEnd(length: nat, offset: nat, size: nat, n: nat) {
    n <= size && offset + n <= length && (n == size || offset + n == length)
  }

  /** `ata_read`. The device is asked for at most 255 sectors, and only for ones it has. */
  method AtaRead(dev: Device, tail: Tail, offset: nat, size: nat, buffer: array<Byte>, at: nat) returns (r: Reply)
    requires size < SECTOR * 255
    requires offset <= dev.length ==>
               && OnDisk(dev.bytes, offset, Clip(dev.length, offset, size))
               && at + Clip(dev.length, offset, size) <= buffer.Length
    modifies buffer
    ensures offset > dev.length ==> r == EInval && buffer[..] == old(buffer[..])
    ensures offset <= dev.length ==>
              var len := Clip(dev.length, offset, size);
              && r == Count(len)
              && buffer[..] == Patched(old(buffer[..]), at, Fetched(dev.bytes, tail, offset, len))
    ensures offset <= dev.length ==> r.Count? && UpToEnd(dev.length, offset, size, r.n)
  {
    if offset > dev.length {
      return EInval;
    }
    var len := if offset + size > dev.length then dev.length - offset else size;
    var sectors := len / SECTOR;
    if len % SECTOR != 0 {
      sectors := sectors + 1;
    }
    SectorsCover(len);
    FetchedIsCopied(dev.bytes, tail, offset, len);
    var lba := offset / SECTOR;
    var read_buf := dev.bytes[lba * SECTOR..lba * SECTOR + SECTOR * sectors];
    Blit(buffer, at, (read_buf + tail)[offset % SECTOR..offset % SECTOR + len]);
    return Count(len);
  }

  /** `size` bytes of a heap. */
  function Junk(size: nat, junk: nat -> Byte): (s: seq<Byte>)
    ensures |s| == size
  {
    seq<Byte>(size, i requires 0 <= i => junk(i))
  }

  /** `kmalloc` of a buffer, which holds whatever was there. */
  method Allocate(size: nat, junk: nat -> Byte) returns (a: array<Byte>)
    ensures fresh(a) && a.Length == size && a[..] == Junk(size, junk)
  {
    a := new Byte[size];
    for i := 0 to size
      invariant forall x | 0 <= x < i :: a[x] == junk(x)
    {
      a[i] := junk(i);
    }
  }

  /** The bytes after a temporary buffer: any at all. */
  method HeapBytes() returns (tail: Tail)
    ensures |tail| == SECTOR
  {
    assert |seq(SECTOR, i => 0 as Byte)| == SECTOR;
    tail :| |tail| == SECTOR;
  }

  /** A partition of a device, in bytes. */
  datatype Partition = Partition(dev: Device, start: nat, length: nat)

  /** The partition lies on sector borders inside its device, and the device's claimed length covers it. */
  predicate ValidPartition(v: Partition) {
    && v.start % SECTOR == 0 && v.length % SECTOR == 0
    && v.start + v.length <= |v.dev.bytes|
    && v.start + v.length <= v.dev.length <= 0xFFFF_FFFF
  }

  function Bytes(v: Partition): seq<Byte>
    requires ValidPartition(v)
  {
    v.dev.bytes[v.start..v.start + v.length]
  }

  /** A request inside the partition is one inside the device, at the same place in its sector, and its
      transfer does not leave the partition. */
  lemma InsideDevice(v: Partition, offset: nat, len: nat)
    requires ValidPartition(v) && offset + len <= v.length
    ensures OnDisk(v.dev.bytes, offset + v.start, len)
    ensures SectorSafe(offset + v.start, len) == SectorSafe(offset, len)
    ensures Bytes(v)[offset..offset + len] == v.dev.bytes[offset + v.start..offset + v.start + len]
  {
    SamePlace(v.start, v.length);
    TransferFits(offset + v.start, len, v.start + v.length);
    SameSafety(offset, v.start, len);
    SameBytes(v.dev.bytes, v.start, v.length, offset, len);
  }

  lemma SameSafety(offset: nat, start: nat, len: nat)
    requires start % SECTOR == 0
    ensures SectorSafe(offset + start, len) == SectorSafe(offset, len)
  {
    SamePlace(offset, start);
  }

  lemma SameBytes(disk: seq<Byte>, start: nat, length: nat, offset: nat, len: nat)
    requires start + length <= |disk| && offset + len <= length
    ensures disk[start..start + length][offset..offset + len] == disk[offset + start..offset + start + len]
  {
    var p, d := disk[start..start + length][offset..offset + len], disk[offset + start..offset + start + len];
    assert |p| == |d| && forall j | 0 <= j < len :: p[j] == d[j];
  }

  /** A transfer stays below a sector border that the request stays below. */
  lemma TransferFits(offset: nat, len: nat, end: nat)
    requires end % SECTOR == 0 && offset + len <= end
    ensures offset / SECTOR * SECTOR + SECTOR * Sectors(len) <= end
  {
    SectorsCover(len);
    DivModEq(offset, SECTOR);
    DivModEq(end, SECTOR);
    BelowBorder(offset / SECTOR, Sectors(len), end / SECTOR);
  }

  lemma BelowBorder(i: nat, n: nat, e: nat)
    requires SECTOR * i + SECTOR * n < SECTOR * e + SECTOR
    ensures SECTOR * i + SECTOR * n <= SECTOR * e
  {
  }

  lemma SamePlace(offset: nat, start: nat)
    requires start % SECTOR == 0
    ensures (offset + start) % SECTOR == offset % SECTOR
  {
    var k := start / SECTOR;
    assert start == SECTOR * k;
    DivBlocks(offset, SECTOR, k);
  }

  /** What a read of a partition puts into the buffer when `tail` lies behind the device's own. */
  function Got(v: Partition, tail: Tail, offset: nat, size: nat): (s: seq<Byte>)
    requires ValidPartition(v)
    ensures |s| == if offset > v.length then 0 else Clip(v.length, offset, size)
    ensures offset <= v.length ==> UpToEnd(v.length, offset, size, |s|)
  {
    if offset > v.length then []
    else
      var len := Clip(v.length, offset, size);
      InsideDevice(v, offset, len);
      Fetched(v.dev.bytes, tail, offset + v.start, len)
  }

  /** Every byte of a read inside the partition is the partition's or the heap's. */
  lemma GotByte(v: Partition, tail: Tail, offset: nat, size: nat, j: nat)
    requires ValidPartition(v) && offset + size <= v.length && j < size
    ensures Got(v, tail, offset, size)[j] == Bytes(v)[offset + j] || Got(v, tail, offset, size)[j] in tail
  {
    InsideDevice(v, offset, size);
    assert Got(v, tail, offset, size)[j] == FetchedByte(v.dev.bytes, tail, offset + v.start, size, j);
    assert Got(v, tail, offset, size) == Fetched(v.dev.bytes, tail, offset + v.start, size);
  }

  /** A read that passes the end of the partition gives the bytes up to the end, for every heap exactly when those
      are safe. */
  lemma GotToTheEnd(v: Partition, offset: nat, size: nat)
    requires ValidPartition(v) && offset <= v.length < offset + size
    ensures SectorSafe(offset, v.length - offset) <==>
              forall tail: Tail :: Got(v, tail, offset, size) == Bytes(v)[offset..]
  {
    var n := v.length - offset;
    GotIsPartition(v, offset, n);
    assert forall tail: Tail :: Got(v, tail, offset, size) == Got(v, tail, offset, n);
    assert Bytes(v)[offset..] == Bytes(v)[offset..offset + n];
  }

  /** A read inside the partition gives its bytes for every heap exactly when it is safe. */
  lemma GotIsPartition(v: Partition, offset: nat, size: nat)
    requires ValidPartition(v) && offset + size <= v.length
    ensures SectorSafe(offset, size) <==> forall tail: Tail :: Got(v, tail, offset, size) == Bytes(v)[offset..offset + size]
  {
    if SectorSafe(offset, size) {
      forall tail: Tail
        ensures Got(v, tail, offset, size) == Bytes(v)[offset..offset + size]
      {
        InsideDevice(v, offset, size);
        SafeFetch(v.dev.bytes, tail, offset + v.start, size);
      }
    } else {
      var tail, j := UnsafeGot(v, offset, size);
      assert Bytes(v)[offset..offset + size][j] == Bytes(v)[offset + j];
    }
  }

  lemma UnsafeGot(v: Partition, offset: nat, size: nat) returns (tail: Tail, j: nat)
    requires ValidPartition(v) && offset + size <= v.length && !SectorSafe(offset, size)
    ensures j < size && Got(v, tail, offset, size)[j] != Bytes(v)[offset + j]
  {
    InsideDevice(v, offset, size);
    tail, j := UnsafeFetch(v.dev.bytes, offset + v.start, size);
    assert Got(v, tail, offset, size) == Fetched(v.dev.bytes, tail, offset + v.start, size);
  }

  /** `mdpart_read`: clip to the partition, move to its start, and ask the device. */
  method MdpartRead(v: Partition, tail: Tail, offset: nat, size: nat, buffer: array<Byte>, at: nat) returns (r: Reply)
    requires ValidPartition(v) && size < SECTOR * 255 && at + size <= buffer.Length
    modifies buffer
    ensures buffer[..] == Patched(old(buffer[..]), at, Got(v, tail, offset, size))
    ensures r == if offset > v.length then EInval else Count(|Got(v, tail, offset, size)|)
    ensures offset <= v.length ==> r.Count? && UpToEnd(v.length, offset, size, r.n)
  {
    if offset > v.length {
      assert buffer[..] == Patched(old(buffer[..]), at, []);
      return EInval;
    }
    var len := if offset + size > v.length then v.length - offset else size;
    InsideDevice(v, offset, len);
    assert Got(v, tail, offset, size) == Fetched(v.dev.bytes, tail, offset + v.start, len);
    r := AtaRead(v.dev, tail, offset + v.start, len, buffer, at);
  }
}
