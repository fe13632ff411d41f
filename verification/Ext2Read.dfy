/** The file read of the ext2 driver (fs/ext2/ext2.c:185-267), proved to deliver what `FileGot` says. */
module Ext2Read {
  import opened Arith
  import opened BlockStack
  import opened Ext2Blocks
  import opened Ext2Files

  /** The spans as the code computes them, in `int`. */
  method Spans(b: nat) returns (k: nat, dbp: nat, span: nat, dspan: nat)
    requires RealBlockSize(b)
    ensures IsBlockSize(b) && k == b / 4 && k > 0 && dbp == Times(b, 12) && span == Times(b, k) && dspan == DoubleSpan(b)
    ensures Times(b, 12 + k) == dbp + span && Reach(b) == dbp + span + dspan && (dspan > 0 ==> dspan == Times(span, k))
  {
    DoubleSpanFits(b);
    k := b / 4;
    dbp, span, dspan := 12 * b, b * k, DoubleSpan(b);
    TimesIsProduct(b, 12);
    TimesIsProduct(b, k);
    TimesIsProduct(span, k);
    ReachIsSum(b, k, dbp, span, dspan);
  }

  lemma ReachIsSum(b: nat, k: nat, dbp: nat, span: nat, dspan: nat)
    requires k == b / 4 && dbp == Times(b, 12) && span == Times(b, k) && dspan == if b <= 2048 then Times(span, k) else 0
    ensures Times(b, 12 + k) == dbp + span && Reach(b) == dbp + span + dspan
  {
    TimesAdd(b, 12, k);
  }

  /** The state of a file read of `|was|` bytes at `pos` into a buffer that began as `was`: `done` bytes are
      dealt with, the others are as they were, and, as long as pointer blocks could be read (`ok`), what remains
      to be done leads to what the whole read delivers. */
  ghost predicate Going(read: Reader, b: nat, k: nat, blocks: seq<nat>, reach: nat, pos: nat, was: seq<Byte>, now: seq<Byte>,
                        done: nat, ok: bool)
    requires Bounded(read) && b > 0 && k > 0
  {
    && |now| == |was| && done <= |was| && now[done..] == was[done..]
    && (ok ==> FileGot(read, b, k, blocks, reach, pos, |was|, was, 0) == FileGot(read, b, k, blocks, reach, pos + done, |was| - done, now, done))
  }

  /** One part read takes it further. */
  lemma GoingNext(read: Reader, b: nat, k: nat, blocks: seq<nat>, reach: nat, pos: nat, was: seq<Byte>, now: seq<Byte>, now': seq<Byte>,
                  done: nat, n: nat, ok: bool)
    requires Bounded(read) && b > 0 && k > 0 && Going(read, b, k, blocks, reach, pos, was, now, done, ok)
    requires done + n <= |was| && |now'| == |now| && now'[done + n..] == now[done + n..]
    requires ok && n > 0 ==> pos + done < reach && n == Min(|was| - done, PartEnd(b, k, pos + done) - (pos + done))
    requires ok && n > 0 ==> now' == AfterChain(read, b, blocks, Quot(b, pos + done), Rest(b, pos + done), n, now, done)
    requires n == 0 ==> now' == now
    ensures Going(read, b, k, blocks, reach, pos, was, now', done + n, ok)
  {
    assert now'[done + n..] == now[done..][n..] == was[done + n..];
  }

  /** A chain that is part of the file is read like that part of the file. */
  lemma {:induction false} ChainOfPart(part: Reader, read: Reader, b: nat, chain: seq<nat>, blocks: seq<nat>, n0: nat,
                                       i: nat, off: nat, size: nat, buf: seq<Byte>, at: nat)
    requires Bounded(part) && Bounded(read) && b > 0 && at + size <= |buf| && PartOfFile(blocks, chain, n0)
    requires forall j: nat, o: nat, k: nat {:trigger part(j, o, k)} | j < |chain| :: part(j, o, k) == read(n0 + j, o, k)
    requires Times(b, i) + size <= Times(b, |chain|)
    ensures AfterChain(part, b, chain, i, off, size, buf, at) == AfterChain(read, b, blocks, n0 + i, off, size, buf, at)
    decreases size
  {
    if size > 0 {
      InChain(b, |chain|, i, 0, size);
      assert chain[i] == blocks[n0 + i];
      if chain[i] != 0 {
        var n := Min(size, b);
        var next := Patched(buf, at, part(i, off, n));
        assert part(i, off, n) == read(n0 + i, off, n);
        if size > b {
          ChainOfPart(part, read, b, chain, blocks, n0, i + 1, 0, size - n, next, at + n);
        }
      }
    }
  }

  /** Readers of a chain and of the file it is part of. */
  lemma SameReader(part: Reader, read: Reader, v: Partition, b: nat, chain: seq<nat>, blocks: seq<nat>, n0: nat,
                   heap: nat -> Tail, shifted: nat -> Tail)
    requires ValidPartition(v) && Reads(part, v, b, chain, shifted) && Reads(read, v, b, blocks, heap) && PartOfFile(blocks, chain, n0)
    requires forall j: nat :: shifted(j) == heap(n0 + j)
    ensures forall j: nat, o: nat, k: nat {:trigger part(j, o, k)} | j < |chain| :: part(j, o, k) == read(n0 + j, o, k)
  {
    forall j: nat, o: nat, k: nat | j < |chain|
      ensures part(j, o, k) == read(n0 + j, o, k)
    {
      assert part(j, o, k) == PieceGot(v, b, chain, shifted, j, o, k);
      assert read(n0 + j, o, k) == PieceGot(v, b, blocks, heap, n0 + j, o, k);
    }
  }

  /** Reading from a part of the file, blocks `n0` and on: as much of the `left` bytes as it holds from `offset` on. */
  method ReadPart(v: Partition, heap: nat -> Tail, b: nat, ghost k: nat, chain: seq<nat>, n0: nat, span: nat, offset: nat, left: nat,
                  data: array<Byte>, at: nat, ghost read: Reader, ghost blocks: seq<nat>, ghost reach: nat, ghost pos: nat,
                  ghost was: seq<Byte>, ghost ok: bool) returns (n: nat)
    requires ValidPartition(v) && IsBlockSize(b) && k > 0 && span == Times(b, |chain|) && offset <= span
    requires at + left <= data.Length == |was| && (at + left < |was| ==> span - offset <= left) && Reads(read, v, b, blocks, heap)
    requires ok && left > 0 && offset < span ==> AtPart(b, k, blocks, reach, chain, n0, offset, pos + at)
    requires Going(read, b, k, blocks, reach, pos, was, data[..], at, ok)
    modifies data
    ensures n == Min(left, span - offset) && Going(read, b, k, blocks, reach, pos, was, data[..], at + n, ok)
  {
    n := if offset + left > span then span - offset else left;
    ghost var now := data[..];
    var shifted: nat -> Tail := i => heap(n0 + i);
    ghost var part := Through(v, b, chain, shifted);
    ReadBlockChain(v, shifted, b, chain, offset, n, data, at, part);
    PartRead(part, read, v, b, k, chain, blocks, heap, shifted, n0, reach, offset, n, now, at, pos, ok && n > 0);
    GoingNext(read, b, k, blocks, reach, pos, was, now, data[..], at, n, ok);
  }

  /** Byte `at` of the file is byte `offset` of the part `chain`, within reach. */
  ghost predicate AtPart(b: nat, k: nat, blocks: seq<nat>, reach: nat, chain: seq<nat>, n0: nat, offset: nat, at: nat)
    requires b > 0 && k > 0
  {
    && PartOfFile(blocks, chain, n0) && at == Times(b, n0) + offset && at < reach
    && PartEnd(b, k, at) == Times(b, n0) + Times(b, |chain|)
  }

  lemma PartRead(part: Reader, read: Reader, v: Partition, b: nat, k: nat, chain: seq<nat>, blocks: seq<nat>, heap: nat -> Tail,
                 shifted: nat -> Tail, n0: nat, reach: nat, offset: nat, n: nat, now: seq<Byte>, at: nat, pos: nat, ok: bool)
    requires ValidPartition(v) && b > 0 && k > 0 && Reads(part, v, b, chain, shifted) && Reads(read, v, b, blocks, heap)
    requires (forall j: nat :: shifted(j) == heap(n0 + j)) && at + n <= |now| && offset + n <= Times(b, |chain|)
    requires ok ==> AtPart(b, k, blocks, reach, chain, n0, offset, pos + at)
    ensures var now' := AfterChain(part, b, chain, offset / b, offset % b, n, now, at);
            && now'[at + n..] == now[at + n..] && (n == 0 ==> now' == now)
            && (ok ==> now' == AfterChain(read, b, blocks, Quot(b, pos + at), Rest(b, pos + at), n, now, at))
  {
    var i, r := PlaceOf(offset, b);
    ChainFrame(part, b, chain, i, r, n, now, at);
    if ok {
      SameReader(part, read, v, b, chain, blocks, n0, heap, shifted);
      ChainOfPart(part, read, b, chain, blocks, n0, i, r, n, now, at);
      TimesAdd(b, n0, i);
      PlaceUnique(b, n0 + i, r);
    }
  }

  // ---- pointer blocks ----

  /** A pointer block, read into a buffer and taken as pointers. */
  method ReadPointers(v: Partition, b: nat, block: nat) returns (chain: seq<nat>)
    requires ValidPartition(v) && IsBlockSize(b)
    ensures |chain| == b / 4
    ensures InVolume(Bytes(v), b, block) ==> forall i: nat | i < b / 4 :: chain[i] == Pointer(Bytes(v), b, block, i)
  {
    var sibp := new Byte[b](i => 0);
    var tail := HeapBytes();
    ReadBlockData(v, tail, b, block, 0, b, sibp, 0);
    chain := Pointers(sibp[..]);
    if InVolume(Bytes(v), b, block) {
      SectorsCover(b);
      BlockGot(v, tail, b, block, 0, b);
      assert sibp[..] == Bytes(v)[Times(b, block)..Times(b, block) + b];
      PointersOfBlock(Bytes(v), b, block);
    }
  }

  /** The block of the file with byte `x` of the request is there. */
  lemma TouchedBlock(p: seq<Byte>, b: nat, blocks: seq<nat>, pos: nat, size: nat, x: nat, n0: nat, len: nat, offset: nat) returns (t: nat)
    requires b > 0 && Present(p, b, blocks, pos, size) && pos <= x < pos + size && x == Times(b, n0) + offset && offset < Times(b, len)
    requires n0 + len <= |blocks|
    ensures t < len && HasBlock(p, b, blocks, n0 + t)
  {
    var r;
    t, r := PlaceOf(offset, b);
    TimesLess(b, t, len);
    TimesAdd(b, n0, t);
  }

  /** With a byte of the single-indirect region to read, its pointers are blocks 12 and on of the file. */
  lemma SinglePart(p: seq<Byte>, b: nat, k: nat, ino: Inode, pos: nat, size: nat, x: nat, offset: nat, sibp: seq<nat>)
    requires ValidInode(ino) && k == b / 4 > 0 && Present(p, b, FileBlocks(p, b, k, ino), pos, size)
    requires pos <= x < pos + size && x == Times(b, 12) + offset && offset < Times(b, k) && |sibp| == k
    requires InVolume(p, b, ino.single) ==> forall i: nat | i < k :: sibp[i] == Pointer(p, b, ino.single, i)
    ensures PartOfFile(FileBlocks(p, b, k, ino), sibp, 12)
  {
    var blocks := FileBlocks(p, b, k, ino);
    var t := TouchedBlock(p, b, blocks, pos, size, x, 12, k, offset);
    assert blocks[12 + t] == FileBlock(p, b, k, ino, 12 + t);
  }

  /** The pointers below entry `m` of the double-indirect block likewise. */
  lemma DoublePart(p: seq<Byte>, b: nat, k: nat, ino: Inode, pos: nat, size: nat, x: nat, m: nat, n0: nat, offset: nat,
                   dibp: seq<nat>, sibp: seq<nat>)
    requires ValidInode(ino) && k == b / 4 > 0 && Present(p, b, FileBlocks(p, b, k, ino), pos, size)
    requires m < k && n0 == 12 + k + Times(k, m) && |dibp| == k && |sibp| == k
    requires pos <= x < pos + size && x == Times(b, n0) + offset && offset < Times(b, k)
    requires InVolume(p, b, ino.double) ==> dibp[m] == Pointer(p, b, ino.double, m)
    requires InVolume(p, b, dibp[m]) ==> forall i: nat | i < k :: sibp[i] == Pointer(p, b, dibp[m], i)
    ensures PartOfFile(FileBlocks(p, b, k, ino), sibp, n0)
  {
    var blocks := FileBlocks(p, b, k, ino);
    TimesMono(k, m + 1, k);
    var t := TouchedBlock(p, b, blocks, pos, size, x, n0, k, offset);
    DoubleBlock(p, b, k, ino, m, n0, t);
    assert blocks[n0 + t] == FileBlock(p, b, k, ino, n0 + t);
    forall i | 0 <= i < k
      ensures sibp[i] == blocks[n0 + i]
    {
      DoubleBlock(p, b, k, ino, m, n0, i);
    }
  }

  lemma DoubleBlock(p: seq<Byte>, b: nat, k: nat, ino: Inode, m: nat, n0: nat, t: nat)
    requires ValidInode(ino) && t < k && n0 == 12 + k + Times(k, m)
    ensures FileBlock(p, b, k, ino, n0 + t) ==
            if InVolume(p, b, ino.double) then Pointer(p, b, Pointer(p, b, ino.double, m), t) else 0
  {
    SecondLevelAt(p, b, k, ino.double, 0, m, t);
  }

  /** `dibp` holds the pointers of block `double`, if that is in the volume. */
  ghost predicate Points(p: seq<Byte>, b: nat, k: nat, double: nat, dibp: seq<nat>) {
    |dibp| == k && (InVolume(p, b, double) ==> forall j: nat | j < k :: dibp[j] == Pointer(p, b, double, j))
  }

  // ---- the three stages ----

  /** The direct stage. What remains afterwards starts at `off'` after the region. */
  method ReadDirect(v: Partition, heap: nat -> Tail, b: nat, k: nat, dbp: nat, ino: Inode, offset: nat, data: array<Byte>,
                    ghost read: Reader, ghost blocks: seq<nat>, ghost reach: nat, ghost was: seq<Byte>, ghost ok: bool)
    returns (off': nat, left': nat, at': nat)
    requires ValidPartition(v) && IsBlockSize(b) && ValidInode(ino) && k > 0 && dbp == Times(b, 12) <= reach
    requires data.Length == |was| && data[..] == was && Reads(read, v, b, blocks, heap) && PartOfFile(blocks, ino.direct, 0)
    modifies data
    ensures at' + left' == |was| && Going(read, b, k, blocks, reach, offset, was, data[..], at', ok)
    ensures (left' > 0 ==> offset + at' == dbp + off') && (at' > 0 ==> offset + at' <= dbp)
  {
    if offset < dbp {
      var n := ReadPart(v, heap, b, k, ino.direct, 0, dbp, offset, data.Length, data, 0, read, blocks, reach, offset, was, ok);
      off', left', at' := 0, data.Length - n, n;
    } else {
      off', left', at' := offset - dbp, data.Length, 0;
    }
  }

  /** The single-indirect stage. */
  method ReadSingle(v: Partition, heap: nat -> Tail, b: nat, k: nat, dbp: nat, span: nat, ino: Inode, off: nat, left: nat,
                    data: array<Byte>, at: nat, ghost read: Reader, ghost blocks: seq<nat>, ghost reach: nat, ghost pos: nat, ghost was: seq<Byte>, ghost ok: bool)
    returns (off': int, left': nat, at': nat)
    requires ValidPartition(v) && IsBlockSize(b) && ValidInode(ino) && k == b / 4 && k > 0
    requires dbp == Times(b, 12) && span == Times(b, k) && Times(b, 12 + k) == dbp + span <= reach
    requires at + left == data.Length == |was| && Reads(read, v, b, blocks, heap)
    requires left > 0 ==> pos + at == dbp + off
    requires blocks == FileBlocks(Bytes(v), b, k, ino) && (ok ==> Present(Bytes(v), b, blocks, pos, Within(reach, pos, |was|)))
    requires Going(read, b, k, blocks, reach, pos, was, data[..], at, ok)
    modifies data
    ensures at <= at' && at' + left' == |was| && Going(read, b, k, blocks, reach, pos, was, data[..], at', ok)
    ensures (left' > 0 ==> off' >= 0 && pos + at' == dbp + span + off') && (at' > at ==> pos + at' <= dbp + span)
  {
    if left > 0 && off < span {
      var n := ReadSinglePart(v, heap, b, k, span, ino, off, left, data, at, read, blocks, reach, pos, was, ok);
      assert Going(read, b, k, blocks, reach, pos, was, data[..], at + n, ok);
      off', left', at' := 0, left - n, at + n;
    } else {
      off', left', at' := off - span, left, at;
    }
  }

  method ReadSinglePart(v: Partition, heap: nat -> Tail, b: nat, k: nat, span: nat, ino: Inode, off: nat, left: nat,
                        data: array<Byte>, at: nat, ghost read: Reader, ghost blocks: seq<nat>, ghost reach: nat, ghost pos: nat,
                        ghost was: seq<Byte>, ghost ok: bool) returns (n: nat)
    requires ValidPartition(v) && IsBlockSize(b) && ValidInode(ino) && k == b / 4 && k > 0
    requires span == Times(b, k) && Times(b, 12 + k) == Times(b, 12) + span <= reach && off < span && left > 0
    requires at + left == data.Length == |was| && Reads(read, v, b, blocks, heap) && pos + at == Times(b, 12) + off
    requires blocks == FileBlocks(Bytes(v), b, k, ino) && (ok ==> Present(Bytes(v), b, blocks, pos, Within(reach, pos, |was|)))
    requires Going(read, b, k, blocks, reach, pos, was, data[..], at, ok)
    modifies data
    ensures n == Min(left, span - off) && Going(read, b, k, blocks, reach, pos, was, data[..], at + n, ok)
  {
    var sibp := ReadPointers(v, b, ino.single);
    if ok {
      SinglePart(Bytes(v), b, k, ino, pos, Within(reach, pos, |was|), pos + at, off, sibp);
    }
    n := ReadPart(v, heap, b, k, sibp, 12, span, off, left, data, at, read, blocks, reach, pos, was, ok);
  }

  /** Where the search for the first single-indirect block ends: `offset` is split into `i` whole
      parts and a rest that is positive or the whole of the last part, never zero unless `offset` is. */
  method FindPart(offset: nat, span: nat, k: nat) returns (i: nat, rest: nat)
    requires span > 0 && offset < Times(span, k)
    ensures offset == Times(span, i) + rest && rest <= span && i < k && (rest == 0 ==> offset == 0)
  {
    i, rest := 0, offset;
    while i < k && rest > span
      invariant offset == Times(span, i) + rest && i <= k && (rest == 0 ==> offset == 0)
      decreases rest
    {
      rest := rest - span;
      i := i + 1;
    }
    TimesLess(span, i, k);
  }

  /** One round of the double-indirect loop: the part below entry `i`, from `off` on; nothing when `off` is its end. */
  method ReadBelow(v: Partition, heap: nat -> Tail, b: nat, k: nat, span: nat, ino: Inode, dibp: seq<nat>, i: nat, n0: nat, off: nat, sz: nat,
                   data: array<Byte>, at: nat, ghost read: Reader, ghost blocks: seq<nat>, ghost reach: nat, ghost pos: nat, ghost was: seq<Byte>, ghost ok: bool)
    returns (n: nat)
    requires ValidPartition(v) && IsBlockSize(b) && ValidInode(ino) && k == b / 4 && k > 0 && span == Times(b, k) && i < k && |dibp| == k
    requires n0 == 12 + k + Times(k, i) && off <= span && sz > 0
    requires at + sz <= data.Length == |was| && (at + sz < |was| ==> span - off <= sz)
    requires pos + at == Times(b, 12 + k) + Times(span, i) + off && (off < span ==> pos + at < reach)
    requires Reads(read, v, b, blocks, heap)
    requires Points(Bytes(v), b, k, ino.double, dibp)
    requires blocks == FileBlocks(Bytes(v), b, k, ino) && (ok ==> Present(Bytes(v), b, blocks, pos, Within(reach, pos, |was|)))
    requires Going(read, b, k, blocks, reach, pos, was, data[..], at, ok)
    modifies data
    ensures n == Min(sz, span - off)
    ensures Going(read, b, k, blocks, reach, pos, was, data[..], at + n, ok)
  {
    var sibp := ReadPointers(v, b, dibp[i]);
    PartPlace(b, k, i, n0, off);
    if ok && off < span {
      DoublePart(Bytes(v), b, k, ino, pos, Within(reach, pos, |was|), pos + at, i, n0, off, dibp, sibp);
    }
    n := ReadPart(v, heap, b, k, sibp, n0, span, off, sz, data, at, read, blocks, reach, pos, was, ok);
  }

  /** Where the part below entry `i` lies. */
  lemma PartPlace(b: nat, k: nat, i: nat, n0: nat, off: nat)
    requires b > 0 && k > 0 && n0 == 12 + k + Times(k, i)
    ensures Times(b, n0) == Times(b, 12 + k) + Times(Times(b, k), i)
    ensures off < Times(b, k) ==> PartEnd(b, k, Times(b, n0) + off) == Times(b, n0) + Times(b, k)
  {
    TimesAdd(b, 12 + k, Times(k, i));
    TimesTimes(b, k, i);
    TimesMono(b, 12, 12 + k);
    if off < Times(b, k) {
      PartStepAt(Times(b, k), i, off);
    }
  }

  /** The double-indirect stage: as much of the `left` bytes as the region holds from `off` on. */
  method ReadDouble(v: Partition, heap: nat -> Tail, b: nat, k: nat, span: nat, dspan: nat, ino: Inode, off: nat, left: nat,
                    data: array<Byte>, at: nat, ghost read: Reader, ghost blocks: seq<nat>, ghost reach: nat, ghost pos: nat, ghost was: seq<Byte>, ghost ok: bool)
    returns (n: nat)
    requires ValidPartition(v) && IsBlockSize(b) && ValidInode(ino) && k == b / 4 && k > 0 && span == Times(b, k) && dspan == Times(span, k)
    requires at + left == data.Length == |was| && left > 0 && off < dspan && reach == Times(b, 12 + k) + dspan
    requires pos + at == Times(b, 12 + k) + off && Reads(read, v, b, blocks, heap)
    requires blocks == FileBlocks(Bytes(v), b, k, ino) && (ok ==> Present(Bytes(v), b, blocks, pos, Within(reach, pos, |was|)))
    requires Going(read, b, k, blocks, reach, pos, was, data[..], at, ok)
    modifies data
    ensures n == Min(left, dspan - off)
    ensures Going(read, b, k, blocks, reach, pos, was, data[..], at + n, ok)
  {
    var dibp := ReadPointers(v, b, ino.double);
    TimesPositive(b, k);
    var first, rest := FindPart(off, span, k);
    n := if rest + left > dspan - Times(span, first) then dspan - Times(span, first) - rest else left;
    ReadParts(v, heap, b, k, span, dspan, ino, dibp, first, rest, n, data, at, read, blocks, reach, pos, was, ok);
  }

  /** Its loop: `n` bytes from `off0` of part `first` on. */
  method ReadParts(v: Partition, heap: nat -> Tail, b: nat, k: nat, span: nat, ghost dspan: nat, ino: Inode, dibp: seq<nat>,
                   first: nat, off0: nat, n: nat, data: array<Byte>, at: nat,
                   ghost read: Reader, ghost blocks: seq<nat>, ghost reach: nat, ghost pos: nat, ghost was: seq<Byte>, ghost ok: bool)
    requires ValidPartition(v) && IsBlockSize(b) && ValidInode(ino) && k == b / 4 && k > 0 && span == Times(b, k) && dspan == Times(span, k)
    requires at + n <= data.Length == |was| && off0 <= span && |dibp| == k && reach == Times(b, 12 + k) + dspan
    requires Times(span, first) + off0 + n <= dspan && (at + n < |was| ==> Times(span, first) + off0 + n == dspan)
    requires pos + at == Times(b, 12 + k) + Times(span, first) + off0
    requires Reads(read, v, b, blocks, heap)
    requires Points(Bytes(v), b, k, ino.double, dibp)
    requires blocks == FileBlocks(Bytes(v), b, k, ino) && (ok ==> Present(Bytes(v), b, blocks, pos, Within(reach, pos, |was|)))
    requires Going(read, b, k, blocks, reach, pos, was, data[..], at, ok)
    modifies data
    ensures Going(read, b, k, blocks, reach, pos, was, data[..], at + n, ok)
  {
    var i: nat, off: nat, sz: nat, ptr: nat := first, off0, n, at;
    ghost var base := Times(b, 12 + k);
    while sz > 0
      invariant InParts(span, dspan, base, pos, |was|, at + n, i, off, sz, ptr)
      invariant Going(read, b, k, blocks, reach, pos, was, data[..], ptr, ok)
      decreases sz, off
    {
      PartsLeft(span, k, i, off, sz);
      var sz2 := ReadBelow(v, heap, b, k, span, ino, dibp, i, 12 + k + Times(k, i), off, sz, data, ptr, read, blocks, reach, pos, was, ok);
      InPartsNext(span, dspan, base, pos, |was|, at + n, i, off, sz, ptr, sz2);
      sz, ptr, off, i := sz - sz2, ptr + sz2, 0, i + 1;
    }
  }

  /** The place of the loop: `sz` bytes are left up to `end`, from `off` of part `i` on. They stay in the region, and end
      with it or with the request. */
  ghost predicate InParts(span: nat, dspan: nat, base: nat, pos: nat, size: nat, end: nat, i: nat, off: nat, sz: nat, ptr: nat) {
    && ptr + sz == end <= size && off <= span
    && (sz > 0 ==> Times(span, i) + off + sz <= dspan && pos + ptr == base + Times(span, i) + off)
    && (sz > 0 && end < size ==> Times(span, i) + off + sz == dspan)
  }

  lemma InPartsNext(span: nat, dspan: nat, base: nat, pos: nat, size: nat, end: nat, i: nat, off: nat, sz: nat, ptr: nat, sz2: nat)
    requires InParts(span, dspan, base, pos, size, end, i, off, sz, ptr) && sz > 0 && sz2 == Min(sz, span - off)
    ensures InParts(span, dspan, base, pos, size, end, i + 1, 0, sz - sz2, ptr + sz2)
  {
  }

  lemma PartsLeft(span: nat, k: nat, i: nat, off: nat, sz: nat)
    requires sz > 0 && off <= span && Times(span, i) + off + sz <= Times(span, k)
    ensures i < k && (Times(span, i) + off + sz == Times(span, k) ==> span - off <= sz)
  {
    TimesLess(span, i, k);
    TimesMono(span, i + 1, k);
  }

  /** The three stages one after the other. */
  method ReadStages(v: Partition, heap: nat -> Tail, b: nat, k: nat, dbp: nat, span: nat, dspan: nat, ino: Inode, offset: nat,
                    data: array<Byte>, ghost read: Reader, ghost blocks: seq<nat>, ghost reach: nat, ghost was: seq<Byte>, ghost ok: bool) returns (ghost done: nat)
    requires ValidPartition(v) && IsBlockSize(b) && ValidInode(ino) && k == b / 4 && k > 0
    requires dbp == Times(b, 12) && span == Times(b, k) && Times(b, 12 + k) == dbp + span && reach == dbp + span + dspan
    requires (dspan > 0 ==> dspan == Times(span, k)) && data.Length == |was| && data[..] == was
    requires Reads(read, v, b, blocks, heap)
    requires blocks == FileBlocks(Bytes(v), b, k, ino) && (ok ==> Present(Bytes(v), b, blocks, offset, Within(reach, offset, |was|)))
    modifies data
    ensures done == Within(reach, offset, |was|)
    ensures Going(read, b, k, blocks, reach, offset, was, data[..], done, ok)
  {
    var off, left, ptr := ReadDirect(v, heap, b, k, dbp, ino, offset, data, read, blocks, reach, was, ok);
    var off2;
    off2, left, ptr := ReadSingle(v, heap, b, k, dbp, span, ino, off, left, data, ptr, read, blocks, reach, offset, was, ok);
    if left > 0 && off2 < dspan {
      var n := ReadDouble(v, heap, b, k, span, dspan, ino, off2, left, data, ptr, read, blocks, reach, offset, was, ok);
      ptr, left := ptr + n, left - n;
    }
    done := ptr;
  }

  /** What a file read leaves in a buffer that held `was`: past its reach nothing is changed; if the blocks within
      reach are there, exactly what `FileGot` says; for a request the code can serve, the bytes of the file. */
  ghost predicate Outcome(v: Partition, heap: nat -> Tail, b: nat, ino: Inode, offset: nat, was: seq<Byte>, now: seq<Byte>)
    requires ValidPartition(v) && ValidInode(ino) && b >= 4
  {
    var blocks, size := FileBlocks(Bytes(v), b, b / 4, ino), |was|;
    && |now| == size && (forall x | Within(Reach(b), offset, size) <= x < size :: now[x] == was[x])
    && (Present(Bytes(v), b, blocks, offset, Within(Reach(b), offset, size)) ==>
          now == FileGot(Through(v, b, blocks, heap), b, b / 4, blocks, Reach(b), offset, size, was, 0))
    && (FilePresent(v, b, ino, offset, size) && FileRequest(b, b / 4, Reach(b), offset, size) ==>
          now == FileBytes(Bytes(v), b, blocks, offset, size))
  }

  lemma OutcomeOf(v: Partition, heap: nat -> Tail, b: nat, ino: Inode, offset: nat, was: seq<Byte>, now: seq<Byte>, blocks: seq<nat>,
                  done: nat, ok: bool)
    requires ValidPartition(v) && ValidInode(ino) && IsBlockSize(b) && blocks == FileBlocks(Bytes(v), b, b / 4, ino)
    requires done == Within(Reach(b), offset, |was|) && (ok <==> Present(Bytes(v), b, blocks, offset, done))
    requires Going(Through(v, b, blocks, heap), b, b / 4, blocks, Reach(b), offset, was, now, done, ok)
    ensures Outcome(v, heap, b, ino, offset, was, now)
  {
    assert forall x | done <= x < |was| :: now[x] == now[done..][x - done] == was[done..][x - done];
    if FilePresent(v, b, ino, offset, |was|) && FileRequest(b, b / 4, Reach(b), offset, |was|) {
      GoodFileDelivers(v, b, ino, heap, offset, |was|, was);
    }
  }

  method ReadInto(v: Partition, heap: nat -> Tail, b: nat, k: nat, dbp: nat, span: nat, dspan: nat, ino: Inode, offset: nat,
                  data: array<Byte>)
    requires ValidPartition(v) && IsBlockSize(b) && ValidInode(ino) && k == b / 4 && k > 0
    requires dbp == Times(b, 12) && span == Times(b, k) && Times(b, 12 + k) == dbp + span && Reach(b) == dbp + span + dspan
    requires dspan > 0 ==> dspan == Times(span, k)
    modifies data
    ensures Outcome(v, heap, b, ino, offset, old(data[..]), data[..])
  {
    ghost var blocks, was := FileBlocks(Bytes(v), b, k, ino), data[..];
    ghost var ok := Present(Bytes(v), b, blocks, offset, Within(Reach(b), offset, |was|));
    ghost var done := ReadStages(v, heap, b, k, dbp, span, dspan, ino, offset, data, Through(v, b, blocks, heap), blocks, Reach(b), was, ok);
    OutcomeOf(v, heap, b, ino, offset, was, data[..], blocks, done, ok);
  }

  /** `ext2_read_inode_data_ex`, with `junk` in the buffer it allocates. */
  method ReadInodeData(v: Partition, heap: nat -> Tail, junk: nat -> Byte, b: nat, ino: Inode, offset: nat, size: nat)
    returns (data: array<Byte>)
    requires ValidPartition(v) && RealBlockSize(b) && ValidInode(ino)
    ensures data.Length == size && fresh(data) && Outcome(v, heap, b, ino, offset, Junk(size, junk), data[..])
  {
    var k, dbp, span, dspan := Spans(b);
    data := Allocate(size, junk);
    ReadInto(v, heap, b, k, dbp, span, dspan, ino, offset, data);
  }
}
