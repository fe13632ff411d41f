/** Inodes and whole file reads of the ext2 driver (fs/ext2/ext2.c:81-114, 337-358). */
module Ext2 {
  import opened Arith
  import opened BlockStack
  import opened Ext2Blocks
  import opened Ext2Files
  import opened Ext2Read

  /** The superblock fields that reading uses. */
  datatype Super = Super(b: nat, sblockNum: nat, inodesInGroup: nat, inodeSize: nat)

  datatype Option<T> = None | Some(value: T)

  /** A power-of-two inode size of at most a sector, large enough for the fields. */
  predicate ValidSuper(s: Super) {
    && RealBlockSize(s.b) && s.inodesInGroup > 0
    && (s.inodeSize == 128 || s.inodeSize == 256 || s.inodeSize == 512)
  }

  /** Where the descriptor of block group `g` is. */
  function DescriptorAt(s: Super, g: nat): nat {
    Times(s.b, s.sblockNum + 1) + 32 * g
  }

  /** Where inode `number` is, given the first block `table` of its group's inode table. */
  function InodeOffset(s: Super, table: nat, number: nat): nat
    requires number >= 1 && s.inodesInGroup > 0
  {
    Times(s.b, table) + Times(s.inodeSize, (number - 1) % s.inodesInGroup)
  }

  function GroupOf(s: Super, number: nat): nat
    requires number >= 1 && s.inodesInGroup > 0
  {
    (number - 1) / s.inodesInGroup
  }

  /** The descriptor and the inode lie in the volume. */
  predicate InodeInVolume(p: seq<Byte>, s: Super, number: nat) {
    && number >= 1 && s.inodesInGroup > 0
    && DescriptorAt(s, GroupOf(s, number)) + 32 <= |p|
    && InodeOffset(s, U32(p, DescriptorAt(s, GroupOf(s, number)) + 8), number) + s.inodeSize <= |p|
  }

  /** The inode record in `bytes`. */
  function ParseInode(bytes: seq<Byte>): (ino: Inode)
    requires |bytes| >= 112
    ensures ValidInode(ino)
  {
    Inode(U32(bytes, 4) + 0x1_0000_0000 * U32(bytes, 108),
          seq(12, i requires 0 <= i < 12 => U32(bytes, 40 + 4 * i)),
          U32(bytes, 88), U32(bytes, 92),
          Attributes(U16(bytes, 0), U16(bytes, 2), U16(bytes, 24), U32(bytes, 4)))
  }

  /** Inode `number` of the volume. */
  function InodeAt(p: seq<Byte>, s: Super, number: nat): (ino: Inode)
    requires InodeInVolume(p, s, number) && s.inodeSize >= 112
    ensures ValidInode(ino)
  {
    var at := InodeOffset(s, U32(p, DescriptorAt(s, GroupOf(s, number)) + 8), number);
    ParseInode(p[at..at + s.inodeSize])
  }

  /** Descriptors never straddle a sector. */
  lemma DescriptorSafe(s: Super, g: nat)
    requires ValidSuper(s)
    ensures SectorSafe(DescriptorAt(s, g), 32)
  {
    BlockIsAligned(s.b, s.sblockNum + 1, 32 * g, 32);
    DivUnique(32 * g, SECTOR, g / 16, 32 * (g % 16));
  }

  /** Records of 128, 256 or 512 bytes, one after the other, do not straddle a sector. */
  lemma RecordSafe(size: nat, id: nat)
    requires size == 128 || size == 256 || size == 512
    ensures SectorSafe(Times(size, id), size)
  {
    TimesIsProduct(size, id);
    if size == 128 {
      DivUnique(128 * id, SECTOR, id / 4, 128 * (id % 4));
    } else if size == 256 {
      DivUnique(256 * id, SECTOR, id / 2, 256 * (id % 2));
    } else {
      DivUnique(512 * id, SECTOR, id, 0);
    }
  }

  /** Nor do inodes whose size divides a sector. */
  lemma InodeSafe(s: Super, table: nat, id: nat)
    requires ValidSuper(s)
    ensures SectorSafe(Times(s.b, table) + Times(s.inodeSize, id), s.inodeSize)
  {
    RecordSafe(s.inodeSize, id);
    BlockIsAligned(s.b, table, Times(s.inodeSize, id), s.inodeSize);
  }

  /** A record read into a buffer of its own. */
  method ReadRecord(v: Partition, at: nat, size: nat) returns (bytes: seq<Byte>)
    requires ValidPartition(v) && size < SECTOR * 255
    ensures |bytes| == size
    ensures at + size <= |Bytes(v)| && SectorSafe(at, size) ==> bytes == Bytes(v)[at..at + size]
  {
    var buf := new Byte[size](i => 0);
    var tail := HeapBytes();
    var _ := MdpartRead(v, tail, at, size, buf, 0);
    bytes := buf[..];
    if at + size <= |Bytes(v)| {
      GotIsPartition(v, at, size);
      assert |Got(v, tail, at, size)| == size ==> bytes == Got(v, tail, at, size);
    }
  }

  function U16(bytes: seq<Byte>, pos: nat): nat
    requires pos + 2 <= |bytes|
  {
    var lo: nat, hi: nat := bytes[pos], bytes[pos + 1];
    lo + 256 * hi
  }

  /** `1024 << log`. */
  function BlockSizeOf(log: nat): nat {
    if log == 0 then 1024 else 2 * BlockSizeOf(log - 1)
  }

  /** The superblock in the 1024 bytes `raw`, if they have its magic number. */
  function ParseSuper(raw: seq<Byte>): Option<Super>
    requires |raw| == 1024
  {
    if U16(raw, 56) != 0xEF53 then None
    else Some(Super(BlockSizeOf(U32(raw, 24)), U32(raw, 20), U32(raw, 40), U16(raw, 88)))
  }

  /** `ext2_init`: the superblock is the kilobyte after the first one. */
  method Init(v: Partition) returns (r: Option<Super>)
    requires ValidPartition(v)
    ensures |Bytes(v)| >= 2048 ==> r == ParseSuper(Bytes(v)[1024..2048])
  {
    var raw := ReadRecord(v, 0x400, 1024);
    assert SectorSafe(0x400, 1024);
    r := ParseSuper(raw);
  }

  /** The first block of the inode table of group `bg`, from the group's descriptor. */
  method ReadTable(v: Partition, s: Super, bg: nat) returns (table: nat)
    requires ValidPartition(v) && ValidSuper(s)
    ensures DescriptorAt(s, bg) + 32 <= |Bytes(v)| ==> table == U32(Bytes(v), DescriptorAt(s, bg) + 8)
  {
    var desc := ReadRecord(v, DescriptorAt(s, bg), 32);
    DescriptorSafe(s, bg);
    table := U32(desc, 8);
  }

  /** Inode `id` of the table that starts at block `table`. */
  method ReadFromTable(v: Partition, s: Super, table: nat, id: nat) returns (ino: Inode)
    requires ValidPartition(v) && ValidSuper(s)
    ensures ValidInode(ino)
    ensures var at := Times(s.b, table) + Times(s.inodeSize, id);
            at + s.inodeSize <= |Bytes(v)| ==> ino == ParseInode(Bytes(v)[at..at + s.inodeSize])
  {
    var raw := ReadRecord(v, Times(s.b, table) + Times(s.inodeSize, id), s.inodeSize);
    InodeSafe(s, table, id);
    ino := ParseInode(raw);
  }

  /** `ext2_read_inode`: the group descriptor leads to the table, the table to the inode. */
  method ReadInode(v: Partition, s: Super, number: nat) returns (ino: Inode)
    requires ValidPartition(v) && ValidSuper(s) && number >= 1
    ensures ValidInode(ino)
    ensures InodeInVolume(Bytes(v), s, number) ==> ino == InodeAt(Bytes(v), s, number)
  {
    var bg, id := SplitNumber(number, s.inodesInGroup);
    var table := ReadTable(v, s, bg);
    ino := ReadFromTable(v, s, table, id);
  }

  method SplitNumber(number: nat, per: nat) returns (bg: nat, id: nat)
    requires number >= 1 && per > 0
    ensures bg == (number - 1) / per && id == (number - 1) % per
  {
    bg, id := (number - 1) / per, (number - 1) % per;
  }

  /** The same for a number from the disk, which may be 0: the subtraction then wraps around. */
  method ReadAnyInode(v: Partition, s: Super, number: nat) returns (ino: Inode)
    requires ValidPartition(v) && ValidSuper(s)
    ensures ValidInode(ino) && (InodeInVolume(Bytes(v), s, number) ==> ino == InodeAt(Bytes(v), s, number))
  {
    if number == 0 {
      var n := 0xFFFF_FFFF_FFFF_FFFF;
      var table := ReadTable(v, s, n / s.inodesInGroup % 0x1_0000_0000);
      ino := ReadFromTable(v, s, table, n % s.inodesInGroup % 0x1_0000_0000);
    } else {
      ino := ReadInode(v, s, number);
    }
  }

  /** `ext2_read`: the request is clipped to the size of the file, and the buffer gets what the file read
      leaves in the `junk` it allocates for what is left of it. */
  method Read(v: Partition, heap: nat -> Tail, junk: nat -> Byte, s: Super, number: nat, offset: nat, size: nat, buffer: array<Byte>)
    returns (r: Reply)
    requires ValidPartition(v) && ValidSuper(s) && number >= 1 && InodeInVolume(Bytes(v), s, number)
    requires size <= buffer.Length
    modifies buffer
    ensures var ino := InodeAt(Bytes(v), s, number);
            if offset > ino.size then r == EInval && buffer[..] == old(buffer[..])
            else
              var n := Clip(ino.size, offset, size);
              && r == Count(n) && buffer[n..] == old(buffer[n..])
              && Outcome(v, heap, s.b, ino, offset, Junk(n, junk), buffer[..n])
    ensures offset <= InodeAt(Bytes(v), s, number).size ==> r.Count? && UpToEnd(InodeAt(Bytes(v), s, number).size, offset, size, r.n)
  {
    var ino := ReadInode(v, s, number);
    if offset > ino.size {
      return EInval;
    }
    var n := if offset + size > ino.size then ino.size - offset else size;
    ReadClipped(v, heap, junk, s.b, ino, offset, n, buffer);
    return Count(n);
  }

  method ReadClipped(v: Partition, heap: nat -> Tail, junk: nat -> Byte, b: nat, ino: Inode, offset: nat, n: nat, buffer: array<Byte>)
    requires ValidPartition(v) && RealBlockSize(b) && ValidInode(ino) && n <= buffer.Length
    modifies buffer
    ensures buffer[n..] == old(buffer[n..]) && Outcome(v, heap, b, ino, offset, Junk(n, junk), buffer[..n])
  {
    var data := ReadInodeData(v, heap, junk, b, ino, offset, n);
    CopyOut(data, buffer);
  }

  method CopyOut(data: array<Byte>, buffer: array<Byte>)
    requires data.Length <= buffer.Length && data != buffer
    modifies buffer
    ensures buffer[..data.Length] == data[..] && buffer[data.Length..] == old(buffer[data.Length..])
  {
    Blit(buffer, 0, data[..]);
  }
}
