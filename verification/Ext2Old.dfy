/** The older ext2 reader with its open-file table and inode-table cache (fs/ext2_old/ext2.c). */
module Ext2Old {
  import opened Arith
  import opened BlockStack
  import opened Ext2Blocks
  import opened Ext2Files
  import opened Ext2

  const FILES: nat := 1024
  const GROUPS: nat := 16
  const CLOSED: nat := 0xFFFF_FFFF

  /** A descriptor in the tables: position and inode number. */
  datatype Slot = Slot(pos: nat, inode: nat) {
    predicate IsOpen() {
      pos != CLOSED && inode != CLOSED
    }
  }

  function SizeLow(ino: Inode): nat {
    ino.size % 0x1_0000_0000
  }

  /** How far `ext2_read` reads: twelve blocks at most. */
  function Limit(b: nat, ino: Inode): nat {
    Min(SizeLow(ino), Times(b, 12))
  }

  /** How many bytes a read of `count` at `pos` gives. */
  function Given(b: nat, ino: Inode, pos: nat, count: nat): nat {
    if pos >= Limit(b, ino) then 0 else Min(count, Limit(b, ino) - pos)
  }

  /** All blocks below byte `n` lie in the volume; a zero pointer is not a hole here but block 0. */
  ghost predicate AllThere(p: seq<Byte>, b: nat, blocks: seq<nat>, n: nat) {
    forall i: nat | i < |blocks| && Times(b, i) < n :: InVolume(p, b, blocks[i])
  }

  /** Of `count` bytes asked for at `pos`, `n` are given: all of them, or those up to the end of the file, of which the low 32
      bits of the size count, or of its twelfth block; none from there on. */
  ghost predicate UpToLimit(b: nat, size: nat, pos: nat, count: nat, n: nat) {
    var end := if size % 0x1_0000_0000 < 12 * b then size % 0x1_0000_0000 else 12 * b;
    if pos >= end then n == 0 else UpToEnd(end, pos, count, n)
  }

  lemma GivenIs(b: nat, ino: Inode, pos: nat, count: nat)
    ensures UpToLimit(b, ino.size, pos, count, Given(b, ino, pos, count))
  {
    TimesIsProduct(b, 12);
  }

  // ---- one read ----

  /** `fseek` and `fread`: as many of the `k` bytes at `at` as there are. */
  method Fread(p: seq<Byte>, at: nat, k: nat) returns (got: seq<Byte>)
    ensures |got| <= k && (at + k <= |p| ==> got == p[at..at + k])
  {
    got := if at >= |p| then [] else if at + k <= |p| then p[at..at + k] else p[at..];
  }

  /** What the loop has delivered so far. */
  ghost predicate Slice(p: seq<Byte>, b: nat, blocks: seq<nat>, from: nat, data: seq<Byte>)
    requires b > 0
  {
    data == FileBytes(p, b, blocks, from, |data|)
  }

  lemma SliceEmpty(p: seq<Byte>, b: nat, blocks: seq<nat>, from: nat)
    requires b > 0
    ensures Slice(p, b, blocks, from, [])
  {
  }

  lemma SliceNext(p: seq<Byte>, b: nat, blocks: seq<nat>, from: nat, data: seq<Byte>, i: nat, r: nat, k: nat, got: seq<Byte>)
    requires b > 0 && Slice(p, b, blocks, from, data) && from + |data| == Times(b, i) + r && r + k <= b && i < |blocks|
    requires InVolume(p, b, blocks[i]) && got == p[Times(b, blocks[i]) + r..Times(b, blocks[i]) + r + k]
    ensures Slice(p, b, blocks, from, data + got)
  {
    PartOfBlock(p, b, blocks, from + |data|, i, r, k);
    SlicesJoin(p, b, blocks, from, |data|, k);
  }

  /** One round of the read loop, in block `i`, which starts at byte `lo` of the file. */
  method ReadBlockPart(p: seq<Byte>, b: nat, direct: seq<nat>, i: nat, pos: nat, count: nat,
                       ghost lo: nat, ghost from: nat, ghost data: seq<Byte>, ghost n: nat, ghost ok: bool)
    returns (k: nat, got: seq<Byte>)
    requires b > 0 && |direct| == 12 && i < 12 && |p| < 0x1_0000_0000 && count > 0
    requires lo == Times(b, i) && lo <= pos < lo + b && from + |data| == pos < n
    requires (ok ==> AllThere(p, b, direct, n)) && (ok ==> Slice(p, b, direct, from, data))
    ensures k == |got| == Min(count, lo + b - pos) && (ok ==> Slice(p, b, direct, from, data + got))
  {
    var q, r := PlaceOf(pos, b);
    PlaceUnique(b, i, pos - lo);
    k := if count > b then b else count;
    k := if k > b - pos % b then b - pos % b else k;
    var raw := Fread(p, Product32(b, direct[i]) + pos % b, k);
    got := raw + seq<Byte>(k - |raw|, _ => 0);
    if ok {
      assert InVolume(p, b, direct[i]);
      SliceNext(p, b, direct, from, data, i, pos - lo, k, got);
    }
  }

  method FirstBlock(pos: nat, b: nat, ghost top: nat) returns (i: nat, ghost lo: nat)
    requires b > 0 && top == Times(b, 12) && pos < top
    ensures i < 12 && lo == Times(b, i) && lo <= pos < lo + b
  {
    i := pos / b;
    lo := Times(b, i);
    var q, r := PlaceOf(pos, b);
    TimesLess(b, i, 12);
  }

  /** The loop of `ext2_read`, below the end `top` of the twelve blocks. */
  method ReadLoop(p: seq<Byte>, b: nat, direct: seq<nat>, pos0: nat, count0: nat, ghost top: nat, ghost n: nat)
    returns (data: seq<Byte>, pos: nat)
    requires b > 0 && |direct| == 12 && |p| < 0x1_0000_0000 && top == Times(b, |direct|) && pos0 < top
    requires n == Min(count0, top - pos0)
    ensures |data| == n && pos == pos0 + n
    ensures AllThere(p, b, direct, pos0 + n) ==> Slice(p, b, direct, pos0, data)
  {
    var i;
    ghost var lo;
    i, lo := FirstBlock(pos0, b, top);
    ghost var ok := AllThere(p, b, direct, pos0 + n);
    var count := count0;
    pos, data := pos0, [];
    SliceEmpty(p, b, direct, pos0);
    while i < 12 && count > 0
      invariant i <= 12 && count >= 0 && lo == Times(b, i) && pos == pos0 + |data| <= top
      invariant if count <= top - pos then |data| + count == n else n == top - pos0
      invariant count > 0 ==> lo <= pos < lo + b
      invariant ok ==> Slice(p, b, direct, pos0, data)
      decreases 12 - i
    {
      TimesMono(b, i + 1, |direct|);
      var k, got := ReadBlockPart(p, b, direct, i, pos, count, lo, pos0, data, pos0 + n, ok);
      data, count, pos, i, lo := data + got, count - k, pos + k, i + 1, lo + b;
    }
  }

  /** The reading part of `ext2_read`: from any position, the bytes asked for up to the limit. */
  method ReadFrom(p: seq<Byte>, b: nat, ino: Inode, pos0: nat, count0: nat) returns (data: seq<Byte>, pos: nat)
    requires b > 0 && ValidInode(ino) && |p| < 0x1_0000_0000
    ensures |data| == Given(b, ino, pos0, count0) && pos == pos0 + |data|
    ensures AllThere(p, b, ino.direct, pos0 + |data|) ==> Slice(p, b, ino.direct, pos0, data)
  {
    if pos0 >= SizeLow(ino) {
      return [], pos0;
    }
    var count := if pos0 + count0 > SizeLow(ino) then SizeLow(ino) - pos0 else count0;
    if pos0 < Times(b, 12) {
      data, pos := ReadLoop(p, b, ino.direct, pos0, count, Times(b, 12), Given(b, ino, pos0, count0));
    } else {
      data, pos := [], pos0;
    }
  }

  // ---- the inode cache ----

  /** A cached place of an inode table is the one the group descriptor on the disk gives. */
  predicate CacheOk(p: seq<Byte>, s: Super, cache: seq<nat>) {
    forall g | 0 <= g < |cache| :: cache[g] != 0 ==> CachedRight(p, s, g, cache[g])
  }

  predicate CachedRight(p: seq<Byte>, s: Super, g: nat, place: nat) {
    DescriptorAt(s, g) + 32 <= |p| && place == Product32(s.b, U32(p, DescriptorAt(s, g) + 8))
  }

  /** The inode is in the volume, and its group has a place in the cache. */
  predicate Reachable(p: seq<Byte>, s: Super, number: nat) {
    InodeInVolume(p, s, number) && GroupOf(s, number) < GROUPS
  }

  /** The place of the inode table of group `bg`, from the descriptor on the disk. */
  method FetchPlace(p: seq<Byte>, s: Super, bg: nat) returns (place: nat)
    requires DescriptorAt(s, bg) + 32 <= |p|
    ensures CachedRight(p, s, bg, place)
  {
    var desc := Fread(p, DescriptorAt(s, bg), 32);
    place := Product32(s.b, U32(desc, 8));
  }

  /** With the right place of the table, the inode is where the volume has it. */
  lemma PlaceOfInode(p: seq<Byte>, s: Super, number: nat, place: nat)
    requires ValidSuper(s) && |p| < 0x1_0000_0000 && Reachable(p, s, number) && CachedRight(p, s, GroupOf(s, number), place)
    ensures var at := place + Times(s.inodeSize, (number - 1) % s.inodesInGroup);
            at + s.inodeSize <= |p| && ParseInode(p[at..at + s.inodeSize]) == InodeAt(p, s, number)
  {
    var table := U32(p, DescriptorAt(s, GroupOf(s, number)) + 8);
    assert Times(s.b, table) < 0x1_0000_0000;
  }

  method FetchInode(p: seq<Byte>, s: Super, number: nat, place: nat, id: nat) returns (ino: Inode)
    requires ValidSuper(s) && |p| < 0x1_0000_0000 && Reachable(p, s, number) && CachedRight(p, s, GroupOf(s, number), place)
    requires id == (number - 1) % s.inodesInGroup
    ensures ino == InodeAt(p, s, number)
  {
    PlaceOfInode(p, s, number, place);
    var raw := Fread(p, place + Times(s.inodeSize, id), s.inodeSize);
    ino := ParseInode(raw);
  }

  /** The cache is asked first; a place of 0 counts as missing. */
  method FillCache(p: seq<Byte>, s: Super, cache: seq<nat>, bg: nat) returns (cache': seq<nat>)
    requires CacheOk(p, s, cache) && bg < |cache| && DescriptorAt(s, bg) + 32 <= |p|
    ensures CacheOk(p, s, cache') && |cache'| == |cache| && CachedRight(p, s, bg, cache'[bg])
  {
    cache' := cache;
    if cache[bg] == 0 {
      var place := FetchPlace(p, s, bg);
      cache' := cache[bg := place];
    }
  }

  // ---- runs of reads on many descriptors ----

  /** Two reads in a row give as much as one. */
  lemma GivenAdds(b: nat, ino: Inode, pos: nat, c: nat, d: nat)
    ensures Given(b, ino, pos, c) + Given(b, ino, pos + Given(b, ino, pos, c), d) == Given(b, ino, pos, c + d)
  {
  }

  /** After reads that asked for `asked` bytes in all, descriptor `was` has become `now` and has been given
      `got`: the bytes from its old position on, as many as one read of `asked` would give. */
  ghost predicate Served(p: seq<Byte>, s: Super, was: Slot, now: Slot, asked: nat, got: seq<Byte>)
    requires ValidSuper(s) && Reachable(p, s, was.inode)
  {
    var ino := InodeAt(p, s, was.inode);
    && now.inode == was.inode && now.IsOpen() && |got| == Given(s.b, ino, was.pos, asked) && now.pos == was.pos + |got|
    && (AllThere(p, s.b, ino.direct, was.pos + |got|) ==> Slice(p, s.b, ino.direct, was.pos, got))
  }

  lemma ServedNext(p: seq<Byte>, s: Super, was: Slot, now: Slot, asked: nat, got: seq<Byte>, count: nat, data: seq<Byte>)
    requires ValidSuper(s) && Reachable(p, s, was.inode) && Served(p, s, was, now, asked, got)
    requires Served(p, s, now, Slot(now.pos + |data|, now.inode), count, data)
    ensures Served(p, s, was, Slot(now.pos + |data|, now.inode), asked + count, got + data)
  {
    Joined(p, s.b, InodeAt(p, s, was.inode), was.pos, asked, got, count, data);
  }

  lemma Joined(p: seq<Byte>, b: nat, ino: Inode, pos: nat, asked: nat, got: seq<Byte>, count: nat, data: seq<Byte>)
    requires b > 0 && |got| == Given(b, ino, pos, asked) && |data| == Given(b, ino, pos + |got|, count)
    requires AllThere(p, b, ino.direct, pos + |got|) ==> Slice(p, b, ino.direct, pos, got)
    requires AllThere(p, b, ino.direct, pos + |got| + |data|) ==> Slice(p, b, ino.direct, pos + |got|, data)
    ensures |got + data| == Given(b, ino, pos, asked + count)
    ensures AllThere(p, b, ino.direct, pos + |got + data|) ==> Slice(p, b, ino.direct, pos, got + data)
  {
    GivenAdds(b, ino, pos, asked, count);
    SlicesJoin(p, b, ino.direct, pos, |got|, |data|);
  }

  /** A read never takes an open descriptor to the position that marks a closed one. */
  lemma StaysOpen(s: Super, ino: Inode, slot: Slot, count: nat)
    requires ValidSuper(s) && slot.IsOpen()
    ensures Slot(slot.pos + Given(s.b, ino, slot.pos, count), slot.inode).IsOpen()
  {
    assert s.b <= 65536;
  }

  /** How much the requests ask of descriptor `fd`. */
  function Asked(fds: seq<nat>, counts: seq<nat>, fd: nat): nat
    requires |fds| == |counts|
  {
    if fds == [] then 0
    else Asked(fds[..|fds| - 1], counts[..|counts| - 1], fd) + if fds[|fds| - 1] == fd then counts[|counts| - 1] else 0
  }

  lemma AskedNext(fds: seq<nat>, counts: seq<nat>, i: nat, fd: nat)
    requires |fds| == |counts| && i < |fds|
    ensures Asked(fds[..i + 1], counts[..i + 1], fd) == Asked(fds[..i], counts[..i], fd) + if fds[i] == fd then counts[i] else 0
  {
    assert fds[..i + 1][..i] == fds[..i] && counts[..i + 1][..i] == counts[..i];
  }

  /** Every descriptor that was open has been served the requests made of it. */
  ghost predicate AllServed(p: seq<Byte>, s: Super, was: seq<Slot>, now: seq<Slot>, fds: seq<nat>, counts: seq<nat>, got: seq<seq<Byte>>)
    requires ValidSuper(s) && |fds| == |counts|
  {
    && |was| == |now| == |got|
    && (forall fd | 0 <= fd < |was| && was[fd].IsOpen() && Reachable(p, s, was[fd].inode) ::
          Served(p, s, was[fd], now[fd], Asked(fds, counts, fd), got[fd]))
  }

  lemma AllServedNext(p: seq<Byte>, s: Super, was: seq<Slot>, now: seq<Slot>, now': seq<Slot>, fds: seq<nat>, counts: seq<nat>, i: nat,
                      got: seq<seq<Byte>>, data: seq<Byte>)
    requires ValidSuper(s) && |fds| == |counts| && i < |fds| && fds[i] < |was|
    requires AllServed(p, s, was, now, fds[..i], counts[..i], got)
    requires Reachable(p, s, was[fds[i]].inode) && was[fds[i]].IsOpen() && Reachable(p, s, now[fds[i]].inode)
    requires now' == now[fds[i] := Slot(now[fds[i]].pos + |data|, now[fds[i]].inode)]
    requires Served(p, s, now[fds[i]], now'[fds[i]], counts[i], data)
    ensures AllServed(p, s, was, now', fds[..i + 1], counts[..i + 1], got[fds[i] := got[fds[i]] + data])
  {
    var got' := got[fds[i] := got[fds[i]] + data];
    forall fd | 0 <= fd < |was| && was[fd].IsOpen() && Reachable(p, s, was[fd].inode)
      ensures Served(p, s, was[fd], now'[fd], Asked(fds[..i + 1], counts[..i + 1], fd), got'[fd])
    {
      AskedNext(fds, counts, i, fd);
      if fd == fds[i] {
        ServedNext(p, s, was[fd], now[fd], Asked(fds[..i], counts[..i], fd), got[fd], counts[i], data);
      }
    }
  }

  lemma AllServedStart(p: seq<Byte>, s: Super, was: seq<Slot>)
    requires ValidSuper(s)
    ensures AllServed(p, s, was, was, [], [], seq<seq<Byte>>(|was|, _ => []))
  {
    forall fd | 0 <= fd < |was| && was[fd].IsOpen() && Reachable(p, s, was[fd].inode)
      ensures Served(p, s, was[fd], was[fd], 0, [])
    {
      SliceEmpty(p, s.b, InodeAt(p, s, was[fd].inode).direct, was[fd].pos);
    }
  }

  datatype Whence = Set | Cur | End | Unknown

  /** Where a seek counts from. */
  function Base(whence: Whence, pos: nat, size: nat): nat {
    match whence
    case Cur => pos
    case End => size
    case _ => 0
  }

  /** The value of a `uint32_t` that has received `x`. */
  function Wrap32(x: int): (r: nat)
    ensures 0 <= x < 0x1_0000_0000 ==> r == x
    ensures -0x1_0000_0000 <= x < 0 ==> r == x + 0x1_0000_0000
  {
    x % 0x1_0000_0000
  }

  /** The old driver: the volume, the cache of inode tables and the open files. */
  class Reader {
    const p: seq<Byte>
    const s: Super
    var cache: seq<nat>
    var files: seq<Slot>

    ghost predicate Valid()
      reads this
    {
      ValidSuper(s) && |p| < 0x1_0000_0000 && |cache| == GROUPS && |files| == FILES && CacheOk(p, s, cache)
    }

    /** The static tables; only the first descriptor starts out closed. */
    constructor (volume: seq<Byte>, super: Super)
      requires ValidSuper(super) && |volume| < 0x1_0000_0000
      ensures Valid() && p == volume && s == super && forall fd | 0 <= fd < FILES :: files[fd].IsOpen() <==> fd != 0
      ensures |files| == 1024 && files[0] == Slot(0xFFFF_FFFF, 0xFFFF_FFFF) && forall fd | 1 <= fd < 1024 :: files[fd] == Slot(0, 0)
    {
      p, s := volume, super;
      cache := seq<nat>(GROUPS, _ => 0);
      files := seq<Slot>(FILES, i => if i == 0 then Slot(CLOSED, CLOSED) else Slot(0, 0));
    }

    /** `ext2_read_inode`: cached or not, the inode of the volume. */
    method ReadInode(number: nat) returns (ino: Inode)
      requires Valid() && Reachable(p, s, number)
      modifies this`cache
      ensures Valid() && ino == InodeAt(p, s, number)
    {
      var bg, id := SplitNumber(number, s.inodesInGroup);
      cache := FillCache(p, s, cache, bg);
      ino := FetchInode(p, s, number, cache[bg], id);
    }

    /** `ext2_read` on a mounted volume; the bytes it puts into the caller's buffer are `data`. Descriptor
        1024 passes the check of the descriptor, so callers must not use it. */
    method Read(fd: nat, count: nat) returns (r: Reply, data: seq<Byte>)
      requires Valid() && fd != FILES
      requires fd < FILES && files[fd].IsOpen() && count > 0 ==> Reachable(p, s, files[fd].inode)
      modifies this
      ensures Valid()
      ensures count > 0 && (fd > 1024 || old(files[fd]).pos == 0xFFFF_FFFF || old(files[fd]).inode == 0xFFFF_FFFF) ==> r == EBadF
      ensures if count == 0 then r == Count(0) && data == [] && files == old(files)
              else if fd > FILES || !old(files[fd]).IsOpen() then r == EBadF && data == [] && files == old(files)
              else
                && r == Count(|data|) && Served(p, s, old(files[fd]), files[fd], count, data)
                && UpToLimit(s.b, InodeAt(p, s, old(files[fd]).inode).size, old(files[fd]).pos, count, |data|)
                && files == old(files)[fd := Slot(old(files[fd]).pos + |data|, old(files[fd]).inode)]
    {
      if count == 0 {
        return Count(0), [];
      }
      if fd > FILES {
        return EBadF, [];
      }
      var slot := files[fd];
      if slot.pos == CLOSED || slot.inode == CLOSED {
        return EBadF, [];
      }
      var ino := ReadInode(slot.inode);
      var pos;
      data, pos := ReadFrom(p, s.b, ino, slot.pos, count);
      StaysOpen(s, ino, slot, count);
      GivenIs(s.b, ino, slot.pos, count);
      files := files[fd := Slot(pos, slot.inode)];
      return Count(|data|), data;
    }

    /** `ext2_lseek`: positions are 32-bit, so a target outside the file is judged by its wrapped value. */
    method Lseek(fd: nat, offset: int, whence: Whence) returns (r: Reply)
      requires Valid() && fd != FILES
      requires fd < FILES && files[fd].IsOpen() && whence != Unknown ==> Reachable(p, s, files[fd].inode)
      modifies this
      ensures Valid()
      ensures if fd > FILES || !old(files[fd]).IsOpen() then r == EBadF && files == old(files)
              else if whence == Unknown then r == EInval && files == old(files)
              else
                var slot, size := old(files[fd]), SizeLow(InodeAt(p, s, old(files[fd]).inode));
                var target := Base(whence, slot.pos, size) + offset;
                if Wrap32(target) <= size then r == Count(Wrap32(target)) && files == old(files)[fd := Slot(Wrap32(target), slot.inode)]
                else r == EInval && files == old(files)
    {
      if fd > FILES || files[fd].pos == CLOSED || files[fd].inode == CLOSED {
        return EBadF;
      }
      if whence == Unknown {
        return EInval;
      }
      var ino := ReadInode(files[fd].inode);
      var pos := match whence
        case Set => Wrap32(offset)
        case Cur => Wrap32(files[fd].pos + offset)
        case _ => Wrap32(offset + SizeLow(ino));
      if pos > SizeLow(ino) {
        return EInval;
      }
      files := files[fd := Slot(pos, files[fd].inode)];
      return Count(pos);
    }

    /** One of many reads. */
    method ReadNext(fds: seq<nat>, counts: seq<nat>, i: nat, got: seq<seq<Byte>>, ghost was: seq<Slot>) returns (got': seq<seq<Byte>>)
      requires Valid() && |fds| == |counts| && i < |fds| && fds[i] < FILES == |was|
      requires was[fds[i]].IsOpen() && Reachable(p, s, was[fds[i]].inode)
      requires AllServed(p, s, was, files, fds[..i], counts[..i], got)
      modifies this
      ensures Valid() && AllServed(p, s, was, files, fds[..i + 1], counts[..i + 1], got')
    {
      var fd := fds[i];
      ghost var now := files;
      assert Served(p, s, was[fd], files[fd], Asked(fds[..i], counts[..i], fd), got[fd]);
      var r, data := Read(fd, counts[i]);
      if counts[i] == 0 {
        SliceEmpty(p, s.b, InodeAt(p, s, was[fd].inode).direct, now[fd].pos);
        assert files == now[fd := Slot(now[fd].pos + |data|, now[fd].inode)];
      }
      AllServedNext(p, s, was, now, files, fds, counts, i, got, data);
      got' := got[fd := got[fd] + data];
    }

    /** Any reads on any open descriptors, in any order: each descriptor gets consecutive slices of its file. */
    method ReadMany(fds: seq<nat>, counts: seq<nat>) returns (got: seq<seq<Byte>>)
      requires Valid() && |fds| == |counts|
      requires forall i | 0 <= i < |fds| :: fds[i] < FILES && files[fds[i]].IsOpen() && Reachable(p, s, files[fds[i]].inode)
      modifies this
      ensures Valid() && AllServed(p, s, old(files), files, fds, counts, got)
    {
      ghost var was := files;
      got := seq<seq<Byte>>(FILES, _ => []);
      AllServedStart(p, s, was);
      assert got == seq<seq<Byte>>(|was|, _ => []);
      var i := 0;
      while i < |fds|
        invariant 0 <= i <= |fds| && Valid()
        invariant AllServed(p, s, was, files, fds[..i], counts[..i], got)
      {
        got := ReadNext(fds, counts, i, got, was);
        i := i + 1;
      }
      assert fds[..i] == fds && counts[..i] == counts;
    }
  }
}
