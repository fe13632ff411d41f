/** The on-disk layouts of ext2 (fs/ext2/ext2.h): records written field by field are read back as they were. */
module Layouts {
  import opened Arith
  import opened BlockStack
  import opened Ext2Blocks
  import opened Ext2Files
  import opened Ext2
  import opened Ext2Dir

  /** The two low bytes of `x`, the lowest first. */
  function Le16(x: nat): (s: seq<Byte>)
    ensures |s| == 2
  {
    [x % 256, x / 256 % 256]
  }

  /** The four low bytes of `x`, the lowest first. */
  function Le32(x: nat): (s: seq<Byte>)
    ensures |s| == 4
  {
    Le16(x) + Le16(x / 65536)
  }

  /** `part` stands in `bytes` at `pos`. */
  ghost predicate Holds(bytes: seq<Byte>, pos: nat, part: seq<Byte>) {
    pos + |part| <= |bytes| && bytes[pos..pos + |part|] == part
  }

  lemma ReadsU32(bytes: seq<Byte>, pos: nat, x: nat)
    requires x < 0x1_0000_0000 && Holds(bytes, pos, Le32(x))
    ensures U32(bytes, pos) == x
  {
    var s := Le32(x);
    assert forall i | 0 <= i < 4 :: bytes[pos + i] == bytes[pos..pos + 4][i] == s[i];
    var lo, hi := x % 65536, x / 65536;
    assert lo % 256 == x % 256 && lo / 256 == x / 256 % 256;
  }

  lemma ReadsU16(bytes: seq<Byte>, pos: nat, x: nat)
    requires x < 0x1_0000 && Holds(bytes, pos, Le16(x))
    ensures U16(bytes, pos) == x
  {
    var s := Le16(x);
    assert forall i | 0 <= i < 2 :: bytes[pos + i] == bytes[pos..pos + 2][i] == s[i];
  }

  // ---- records as lists of parts ----

  function Concat(parts: seq<seq<Byte>>): seq<Byte> {
    if parts == [] then [] else parts[0] + Concat(parts[1..])
  }

  function OffsetOf(parts: seq<seq<Byte>>, i: nat): nat
    requires i <= |parts|
  {
    if i == 0 then 0 else OffsetOf(parts, i - 1) + |parts[i - 1]|
  }

  lemma {:induction false} OffsetOfRest(parts: seq<seq<Byte>>, i: nat)
    requires 0 < i <= |parts|
    ensures OffsetOf(parts, i) == |parts[0]| + OffsetOf(parts[1..], i - 1)
  {
    if i > 1 {
      OffsetOfRest(parts, i - 1);
    }
  }

  lemma {:induction false} PartHolds(parts: seq<seq<Byte>>, i: nat)
    requires i < |parts|
    ensures Holds(Concat(parts), OffsetOf(parts, i), parts[i])
    decreases i
  {
    var all := Concat(parts);
    if i == 0 {
      assert all[..|parts[0]|] == parts[0];
    } else {
      PartHolds(parts[1..], i - 1);
      OffsetOfRest(parts, i);
      var n, o := |parts[0]|, OffsetOf(parts[1..], i - 1);
      assert all[n..] == Concat(parts[1..]);
      assert all[n + o..n + o + |parts[i]|] == all[n..][o..o + |parts[i]|];
    }
  }

  // ---- inodes ----

  /** An inode on the disk; `x1` to `x4` are the fields the driver does not use. */
  function InodeParts(ino: Inode, x1: seq<Byte>, x2: seq<Byte>, x3: seq<Byte>, x4: seq<Byte>): seq<seq<Byte>>
    requires ValidInode(ino)
  {
    [Le16(ino.attrs.rights), Le16(ino.attrs.uid), Le32(ino.size % 0x1_0000_0000), x1,
     Le16(ino.attrs.gid), x2, Concat(Words(ino.direct)), Le32(ino.single), Le32(ino.double), x3,
     Le32(ino.size / 0x1_0000_0000), x4]
  }

  function Words(ps: seq<nat>): (ws: seq<seq<Byte>>)
    ensures |ws| == |ps| && forall i | 0 <= i < |ps| :: ws[i] == Le32(ps[i])
  {
    seq(|ps|, i requires 0 <= i < |ps| => Le32(ps[i]))
  }

  /** The fields of an inode have the widths they have on the disk. */
  ghost predicate FitsInode(ino: Inode) {
    && ValidInode(ino) && ino.size < 0x1_0000_0000_0000_0000 && ino.single < 0x1_0000_0000 && ino.double < 0x1_0000_0000
    && (forall i | 0 <= i < 12 :: ino.direct[i] < 0x1_0000_0000)
    && ino.attrs.rights < 0x1_0000 && ino.attrs.uid < 0x1_0000 && ino.attrs.gid < 0x1_0000
    && ino.attrs.length == ino.size % 0x1_0000_0000
  }

  lemma {:induction false} WordOffset(ps: seq<nat>, i: nat)
    requires i <= |ps|
    ensures OffsetOf(Words(ps), i) == 4 * i
  {
    if i > 0 {
      WordOffset(ps, i - 1);
    }
  }

  lemma {:induction false} ConcatLength(parts: seq<seq<Byte>>)
    ensures |Concat(parts)| == OffsetOf(parts, |parts|)
  {
    if parts != [] {
      ConcatLength(parts[1..]);
      OffsetOfRest(parts, |parts|);
    }
  }

  lemma WordsLength(ps: seq<nat>)
    ensures |Concat(Words(ps))| == 4 * |ps|
  {
    ConcatLength(Words(ps));
    WordOffset(ps, |ps|);
  }

  /** What stands in a part stands in the whole. */
  lemma HoldsInside(bytes: seq<Byte>, pos: nat, part: seq<Byte>, o: nat, x: seq<Byte>)
    requires Holds(bytes, pos, part) && Holds(part, o, x)
    ensures Holds(bytes, pos + o, x)
  {
    var y := bytes[pos + o..pos + o + |x|];
    forall i | 0 <= i < |x|
      ensures y[i] == x[i]
    {
      assert x[i] == part[o..o + |x|][i] == part[o + i] == bytes[pos..pos + |part|][o + i];
    }
  }

  lemma PartU32(parts: seq<seq<Byte>>, i: nat, pos: nat, x: nat)
    requires i < |parts| && OffsetOf(parts, i) == pos && parts[i] == Le32(x) && x < 0x1_0000_0000
    ensures pos + 4 <= |Concat(parts)| && U32(Concat(parts), pos) == x
  {
    PartHolds(parts, i);
    ReadsU32(Concat(parts), pos, x);
  }

  lemma PartU16(parts: seq<seq<Byte>>, i: nat, pos: nat, x: nat)
    requires i < |parts| && OffsetOf(parts, i) == pos && parts[i] == Le16(x) && x < 0x1_0000
    ensures pos + 2 <= |Concat(parts)| && U16(Concat(parts), pos) == x
  {
    PartHolds(parts, i);
    ReadsU16(Concat(parts), pos, x);
  }

  /** An inode record is read back as the inode. */
  lemma InodeRoundTrip(ino: Inode, x1: seq<Byte>, x2: seq<Byte>, x3: seq<Byte>, x4: seq<Byte>)
    requires FitsInode(ino) && |x1| == 16 && |x2| == 14 && |x3| == 12
    ensures var r := Concat(InodeParts(ino, x1, x2, x3, x4)); |r| >= 112 && ParseInode(r) == ino
  {
    InodeSizes(ino, x1, x2, x3, x4);
    PartsAreRead(InodeParts(ino, x1, x2, x3, x4), ino);
  }

  lemma InodeSizes(ino: Inode, x1: seq<Byte>, x2: seq<Byte>, x3: seq<Byte>, x4: seq<Byte>)
    requires ValidInode(ino) && |x1| == 16 && |x2| == 14 && |x3| == 12
    ensures InodeLaidOut(InodeParts(ino, x1, x2, x3, x4))
  {
    WordsLength(ino.direct);
    InodeOffsets(InodeParts(ino, x1, x2, x3, x4));
  }

  ghost predicate InodeLaidOut(parts: seq<seq<Byte>>) {
    && |parts| == 12
    && OffsetOf(parts, 0) == 0 && OffsetOf(parts, 1) == 2 && OffsetOf(parts, 2) == 4 && OffsetOf(parts, 4) == 24
    && OffsetOf(parts, 6) == 40 && OffsetOf(parts, 7) == 88 && OffsetOf(parts, 8) == 92 && OffsetOf(parts, 10) == 108
  }

  lemma PartsAreRead(parts: seq<seq<Byte>>, ino: Inode)
    requires FitsInode(ino) && InodeLaidOut(parts)
    requires parts[0] == Le16(ino.attrs.rights) && parts[1] == Le16(ino.attrs.uid)
    requires parts[2] == Le32(ino.size % 0x1_0000_0000) && parts[4] == Le16(ino.attrs.gid)
    requires parts[6] == Concat(Words(ino.direct)) && parts[7] == Le32(ino.single)
    requires parts[8] == Le32(ino.double) && parts[10] == Le32(ino.size / 0x1_0000_0000)
    ensures |Concat(parts)| >= 112 && ParseInode(Concat(parts)) == ino
  {
    var r := Concat(parts);
    PartU16(parts, 0, 0, ino.attrs.rights);
    PartU16(parts, 1, 2, ino.attrs.uid);
    PartU32(parts, 2, 4, ino.size % 0x1_0000_0000);
    PartU16(parts, 4, 24, ino.attrs.gid);
    PartU32(parts, 7, 88, ino.single);
    PartU32(parts, 8, 92, ino.double);
    PartU32(parts, 10, 108, ino.size / 0x1_0000_0000);
    PartHolds(parts, 6);
    forall i: nat | i < 12
      ensures U32(r, 40 + 4 * i) == ino.direct[i]
    {
      DirectIsRead(r, 40, ino.direct, i);
    }
    FieldsMakeInode(r, ino);
  }

  lemma FieldsMakeInode(r: seq<Byte>, ino: Inode)
    requires |r| >= 112 && FitsInode(ino)
    requires U16(r, 0) == ino.attrs.rights && U16(r, 2) == ino.attrs.uid && U16(r, 24) == ino.attrs.gid
    requires U32(r, 4) == ino.size % 0x1_0000_0000 && U32(r, 108) == ino.size / 0x1_0000_0000
    requires U32(r, 88) == ino.single && U32(r, 92) == ino.double && forall i: nat | i < 12 :: U32(r, 40 + 4 * i) == ino.direct[i]
    ensures ParseInode(r) == ino
  {
    assert ParseInode(r).direct == ino.direct;
  }

  lemma DirectIsRead(r: seq<Byte>, pos: nat, ps: seq<nat>, i: nat)
    requires i < |ps| && Holds(r, pos, Concat(Words(ps))) && ps[i] < 0x1_0000_0000
    ensures pos + 4 * i + 4 <= |r| && U32(r, pos + 4 * i) == ps[i]
  {
    PartHolds(Words(ps), i);
    WordOffset(ps, i);
    HoldsInside(r, pos, Concat(Words(ps)), 4 * i, Words(ps)[i]);
    ReadsU32(r, pos + 4 * i, ps[i]);
  }

  lemma InodeOffsets(parts: seq<seq<Byte>>)
    requires |parts| == 12 && |parts[0]| == 2 && |parts[1]| == 2 && |parts[2]| == 4 && |parts[3]| == 16 && |parts[4]| == 2
    requires |parts[5]| == 14 && |parts[6]| == 48 && |parts[7]| == 4 && |parts[8]| == 4 && |parts[9]| == 12 && |parts[10]| == 4
    ensures OffsetOf(parts, 0) == 0 && OffsetOf(parts, 1) == 2 && OffsetOf(parts, 2) == 4 && OffsetOf(parts, 3) == 8
    ensures OffsetOf(parts, 4) == 24 && OffsetOf(parts, 5) == 26 && OffsetOf(parts, 6) == 40 && OffsetOf(parts, 7) == 88
    ensures OffsetOf(parts, 8) == 92 && OffsetOf(parts, 9) == 96 && OffsetOf(parts, 10) == 108 && OffsetOf(parts, 11) == 112
  {
    var k := 0;
    while k < 11
      invariant 0 <= k <= 11 && OffsetOf(parts, k) == [0, 2, 4, 8, 24, 26, 40, 88, 92, 96, 108, 112][k]
      invariant forall i | 0 <= i < k :: OffsetOf(parts, i) == [0, 2, 4, 8, 24, 26, 40, 88, 92, 96, 108, 112][i]
    {
      assert OffsetOf(parts, k + 1) == OffsetOf(parts, k) + |parts[k]|;
      k := k + 1;
    }
  }

  // ---- superblocks ----

  /** A superblock on the disk, with the block size as `log`. */
  function SuperParts(s: Super, log: nat, magic: nat, x: seq<seq<Byte>>): seq<seq<Byte>>
    requires |x| == 5
  {
    [x[0], Le32(s.sblockNum), Le32(log), x[1], Le32(s.inodesInGroup), x[2], Le16(magic), x[3], Le16(s.inodeSize), x[4]]
  }

  ghost predicate SuperFits(s: Super, log: nat, magic: nat, x: seq<seq<Byte>>) {
    && |x| == 5 && |x[0]| == 20 && |x[1]| == 12 && |x[2]| == 12 && |x[3]| == 30 && |x[4]| == 934
    && s.sblockNum < 0x1_0000_0000 && log < 0x1_0000_0000 && s.inodesInGroup < 0x1_0000_0000 && magic < 0x1_0000 && s.inodeSize < 0x1_0000
  }

  lemma SuperOffsets(parts: seq<seq<Byte>>)
    requires |parts| == 10 && |parts[0]| == 20 && |parts[1]| == 4 && |parts[2]| == 4 && |parts[3]| == 12 && |parts[4]| == 4
    requires |parts[5]| == 12 && |parts[6]| == 2 && |parts[7]| == 30 && |parts[8]| == 2 && |parts[9]| == 934
    ensures OffsetOf(parts, 1) == 20 && OffsetOf(parts, 2) == 24 && OffsetOf(parts, 4) == 40 && OffsetOf(parts, 6) == 56
    ensures OffsetOf(parts, 8) == 88 && |Concat(parts)| == 1024
  {
    var k := 0;
    while k < 10
      invariant 0 <= k <= 10 && OffsetOf(parts, k) == [0, 20, 24, 28, 40, 44, 56, 58, 88, 90, 1024][k]
      invariant forall i | 0 <= i < k :: OffsetOf(parts, i) == [0, 20, 24, 28, 40, 44, 56, 58, 88, 90, 1024][i]
    {
      assert OffsetOf(parts, k + 1) == OffsetOf(parts, k) + |parts[k]|;
      k := k + 1;
    }
    ConcatLength(parts);
  }

  /** A superblock is read back if and only if it has the magic number. */
  lemma SuperRoundTrip(s: Super, log: nat, magic: nat, x: seq<seq<Byte>>)
    requires SuperFits(s, log, magic, x) && s.b == BlockSizeOf(log)
    ensures var raw := Concat(SuperParts(s, log, magic, x));
            |raw| == 1024 && ParseSuper(raw) == if magic == 0xEF53 then Some(s) else None
  {
    var parts := SuperParts(s, log, magic, x);
    SuperOffsets(parts);
    PartU32(parts, 1, 20, s.sblockNum);
    PartU32(parts, 2, 24, log);
    PartU32(parts, 4, 40, s.inodesInGroup);
    PartU16(parts, 6, 56, magic);
    PartU16(parts, 8, 88, s.inodeSize);
  }

  /** The block sizes in use. */
  lemma BlockSizes(log: nat)
    requires log <= 6
    ensures BlockSizeOf(log) == [1024, 2048, 4096, 8192, 16384, 32768, 65536][log]
  {
  }

  // ---- from an inode number to the inode ----

  /** A group descriptor that names block `table` as the start of the group's inodes. */
  function DescriptorParts(a: nat, c: nat, table: nat, rest: seq<Byte>): seq<seq<Byte>> {
    [Le32(a), Le32(c), Le32(table), rest]
  }

  lemma DescriptorNames(a: nat, c: nat, table: nat, rest: seq<Byte>)
    requires table < 0x1_0000_0000 && |rest| == 20
    ensures var d := Concat(DescriptorParts(a, c, table, rest)); |d| == 32 && Holds(d, 8, Le32(table))
  {
    var parts := DescriptorParts(a, c, table, rest);
    assert OffsetOf(parts, 1) == 4 && OffsetOf(parts, 2) == 8 && OffsetOf(parts, 3) == 12 && OffsetOf(parts, 4) == 32;
    ConcatLength(parts);
    PartHolds(parts, 2);
  }

  /** Inode `id` of group `g`, stored where the group's descriptor says, is inode number `g * per + id + 1` of the volume. */
  lemma InodeOnDisk(p: seq<Byte>, s: Super, g: nat, id: nat, table: nat, a: nat, c: nat, rest: seq<Byte>,
                    ino: Inode, x1: seq<Byte>, x2: seq<Byte>, x3: seq<Byte>, x4: seq<Byte>)
    requires s.inodeSize >= 112 && id < s.inodesInGroup && table < 0x1_0000_0000 && |rest| == 20
    requires FitsInode(ino) && |x1| == 16 && |x2| == 14 && |x3| == 12 && |Concat(InodeParts(ino, x1, x2, x3, x4))| == s.inodeSize
    requires Holds(p, s.b * (s.sblockNum + 1) + 32 * g, Concat(DescriptorParts(a, c, table, rest)))
    requires Holds(p, s.b * table + s.inodeSize * id, Concat(InodeParts(ino, x1, x2, x3, x4)))
    ensures var number := s.inodesInGroup * g + id + 1; InodeInVolume(p, s, number) && InodeAt(p, s, number) == ino
  {
    var number := s.inodesInGroup * g + id + 1;
    var d, at := s.b * (s.sblockNum + 1) + 32 * g, s.b * table + s.inodeSize * id;
    InodePlaces(s, g, id, table);
    DescriptorIsRead(p, d, a, c, table, rest);
    InodeRoundTrip(ino, x1, x2, x3, x4);
    InodeIsThere(p, s, number, d, table, at, ino);
  }

  /** The places of a descriptor and of an inode, as products. */
  lemma InodePlaces(s: Super, g: nat, id: nat, table: nat)
    requires id < s.inodesInGroup
    ensures var number := s.inodesInGroup * g + id + 1;
            && number >= 1 && GroupOf(s, number) == g && InodeOffset(s, table, number) == s.b * table + s.inodeSize * id
    ensures DescriptorAt(s, g) == s.b * (s.sblockNum + 1) + 32 * g
  {
    var number := s.inodesInGroup * g + id + 1;
    DivUnique(number - 1, s.inodesInGroup, g, id);
    TimesIsProduct(s.b, s.sblockNum + 1);
    TimesIsProduct(s.b, table);
    TimesIsProduct(s.inodeSize, id);
  }

  lemma DescriptorIsRead(p: seq<Byte>, d: nat, a: nat, c: nat, table: nat, rest: seq<Byte>)
    requires table < 0x1_0000_0000 && |rest| == 20 && Holds(p, d, Concat(DescriptorParts(a, c, table, rest)))
    ensures d + 32 <= |p| && U32(p, d + 8) == table
  {
    DescriptorNames(a, c, table, rest);
    HoldsInside(p, d, Concat(DescriptorParts(a, c, table, rest)), 8, Le32(table));
    ReadsU32(p, d + 8, table);
  }

  lemma InodeIsThere(p: seq<Byte>, s: Super, number: nat, d: nat, table: nat, at: nat, ino: Inode)
    requires number >= 1 && s.inodesInGroup > 0 && s.inodeSize >= 112
    requires DescriptorAt(s, GroupOf(s, number)) == d && d + 32 <= |p| && U32(p, d + 8) == table
    requires InodeOffset(s, table, number) == at && at + s.inodeSize <= |p| && ParseInode(p[at..at + s.inodeSize]) == ino
    ensures InodeInVolume(p, s, number) && InodeAt(p, s, number) == ino
  {
  }

  // ---- directories ----

  /** A directory record: an entry, the kind of its file, and what fills the record up. */
  datatype Record = Record(entry: Entry, kind: Byte, pad: seq<Byte>)

  predicate RecordFits(r: Record) {
    0 < |r.entry.name| < 256 && r.entry.inode < 0x1_0000_0000 && 8 + |r.entry.name| + |r.pad| < 0x1_0000
  }

  function RecordBytes(r: Record): (s: seq<Byte>)
    requires RecordFits(r)
    ensures |s| == 8 + |r.entry.name| + |r.pad|
  {
    Le32(r.entry.inode) + Le16(8 + |r.entry.name| + |r.pad|) + [|r.entry.name|] + [r.kind] + r.entry.name + r.pad
  }

  predicate AllFit(rs: seq<Record>) {
    forall i | 0 <= i < |rs| :: RecordFits(rs[i])
  }

  function RecordParts(rs: seq<Record>): (ps: seq<seq<Byte>>)
    requires AllFit(rs)
    ensures |ps| == |rs| && forall i | 0 <= i < |rs| :: ps[i] == RecordBytes(rs[i])
  {
    seq(|rs|, i requires 0 <= i < |rs| => RecordBytes(rs[i]))
  }

  /** The records one after the other. */
  function DirectoryBytes(rs: seq<Record>): seq<Byte>
    requires AllFit(rs)
  {
    Concat(RecordParts(rs))
  }

  function EntriesOf(rs: seq<Record>): (es: seq<Entry>)
    ensures |es| == |rs| && forall i | 0 <= i < |rs| :: es[i] == rs[i].entry
  {
    seq(|rs|, i requires 0 <= i < |rs| => rs[i].entry)
  }

  /** Nothing, or a record with an empty name. */
  predicate EndsDirectory(tail: seq<Byte>) {
    tail == [] || (|tail| >= 8 && tail[6] == 0)
  }

  /** What stands in the bytes of a record. */
  lemma RecordPlaces(r: Record)
    requires RecordFits(r)
    ensures var b, n := RecordBytes(r), |r.entry.name|;
            && Holds(b, 0, Le32(r.entry.inode)) && Holds(b, 4, Le16(8 + n + |r.pad|)) && b[6] == n && Holds(b, 8, r.entry.name)
  {
    var b, n := RecordBytes(r), |r.entry.name|;
    var head := Le32(r.entry.inode) + Le16(8 + n + |r.pad|) + [n] + [r.kind];
    assert b == head + (r.entry.name + r.pad);
    assert b[0..4] == head[0..4] == Le32(r.entry.inode);
    assert b[4..6] == head[4..6] == Le16(8 + n + |r.pad|);
    assert b[8..8 + n] == r.entry.name;
  }

  /** The bytes `b` are one record, with the entry `e`. */
  ghost predicate ReadsAs(b: seq<Byte>, e: Entry) {
    var n := |e.name|;
    && 0 < n && 8 + n <= |b| && U32(b, 0) == e.inode && U16(b, 4) == |b| && b[6] == n && b[8..8 + n] == e.name
  }

  /** A record is read back as its entry. */
  lemma RecordRoundTrip(r: Record)
    requires RecordFits(r)
    ensures ReadsAs(RecordBytes(r), r.entry)
  {
    RecordPlaces(r);
    ReadsU32(RecordBytes(r), 0, r.entry.inode);
    ReadsU16(RecordBytes(r), 4, 8 + |r.entry.name| + |r.pad|);
  }

  /** From `at` to its end the directory `d` is well formed and lists `es`. */
  ghost predicate Lists(d: seq<Byte>, at: nat, es: seq<Entry>) {
    WellFormed(d, |d|, at) && Entries(d, |d|, at) == es
  }

  lemma FirstRecord(d: seq<Byte>, at: nat, b: seq<Byte>, e: Entry, es: seq<Entry>)
    requires ReadsAs(b, e) && Holds(d, at, b) && Lists(d, at + |b|, es)
    ensures Lists(d, at, [e] + es)
  {
    var h := d[at..at + |b|];
    assert forall i | 0 <= i < 8 :: d[at + i] == h[i];
    HoldsInside(d, at, b, 8, e.name);
  }

  lemma NoRecords(d: seq<Byte>, at: nat, tail: seq<Byte>)
    requires EndsDirectory(tail) && at <= |d| && d[at..] == tail
    ensures Lists(d, at, [])
  {
    if tail != [] {
      assert d[at + 6] == d[at..][6] == tail[6];
    }
  }

  ghost predicate AllRead(parts: seq<seq<Byte>>, es: seq<Entry>) {
    |parts| == |es| && forall i | 0 <= i < |parts| :: ReadsAs(parts[i], es[i])
  }

  lemma {:induction false} PartsList(d: seq<Byte>, at: nat, parts: seq<seq<Byte>>, es: seq<Entry>, tail: seq<Byte>)
    requires AllRead(parts, es) && EndsDirectory(tail) && at <= |d| && d[at..] == Concat(parts) + tail
    ensures Lists(d, at, es)
    decreases |parts|
  {
    if parts == [] {
      assert d[at..] == tail;
      NoRecords(d, at, tail);
      assert es == [];
    } else {
      FirstPart(d, at, parts, tail);
      PartsList(d, at + |parts[0]|, parts[1..], es[1..], tail);
      assert ReadsAs(parts[0], es[0]);
      FirstRecord(d, at, parts[0], es[0], es[1..]);
      assert [es[0]] + es[1..] == es;
    }
  }

  lemma FirstPart(d: seq<Byte>, at: nat, parts: seq<seq<Byte>>, tail: seq<Byte>)
    requires parts != [] && at <= |d| && d[at..] == Concat(parts) + tail
    ensures Holds(d, at, parts[0]) && d[at + |parts[0]|..] == Concat(parts[1..]) + tail
  {
    var rest := Concat(parts[1..]) + tail;
    assert Concat(parts) + tail == parts[0] + rest;
    FirstOfTwo(d, at, parts[0], rest);
  }

  lemma FirstOfTwo(d: seq<Byte>, at: nat, r: seq<Byte>, rest: seq<Byte>)
    requires at <= |d| && d[at..] == r + rest
    ensures Holds(d, at, r) && d[at + |r|..] == rest
  {
    assert d[at..at + |r|] == d[at..][..|r|];
    assert d[at + |r|..] == d[at..][|r|..];
  }

  /** A directory written record by record lists exactly the entries, in order. */
  lemma DirectoryRoundTrip(rs: seq<Record>, tail: seq<Byte>)
    requires AllFit(rs) && EndsDirectory(tail)
    ensures var d := DirectoryBytes(rs) + tail; WellFormed(d, |d|, 0) && Entries(d, |d|, 0) == EntriesOf(rs)
  {
    var d := DirectoryBytes(rs) + tail;
    forall i | 0 <= i < |rs|
      ensures ReadsAs(RecordParts(rs)[i], EntriesOf(rs)[i])
    {
      RecordRoundTrip(rs[i]);
    }
    assert d[0..] == d;
    PartsList(d, 0, RecordParts(rs), EntriesOf(rs), tail);
  }
}
