/** Directories of the ext2 driver: `ext2_readdir` and `ext2_finddir` (fs/ext2/ext2.c:116-139, 431-527). */
module Ext2Dir {
  import opened Arith
  import opened BlockStack
  import opened Ext2Blocks
  import opened Ext2Files
  import opened Ext2

  datatype Entry = Entry(inode: nat, name: seq<Byte>)

  /** The record at `at` has a header of 8 bytes: inode, record size, name length, type. */
  function RecordSize(d: seq<Byte>, at: nat): nat
    requires at + 8 <= |d|
  {
    U16(d, at + 4)
  }

  function NameLength(d: seq<Byte>, at: nat): nat
    requires at + 8 <= |d|
  {
    d[at + 6]
  }

  /** From `at` on, records with room for their names fill the directory up to its size or up to one
      with an empty name. */
  predicate WellFormed(d: seq<Byte>, size: nat, at: nat)
    decreases size - at
  {
    at < size ==>
      && at + 8 <= size <= |d|
      && (NameLength(d, at) != 0 ==>
            && 8 + NameLength(d, at) <= RecordSize(d, at) <= size - at
            && WellFormed(d, size, at + RecordSize(d, at)))
  }

  /** The record at `at` is one of the directory. */
  predicate IsEntry(d: seq<Byte>, size: nat, at: nat)
    requires WellFormed(d, size, at)
  {
    at < size && NameLength(d, at) != 0
  }

  function EntryAt(d: seq<Byte>, at: nat): Entry
    requires at + 8 <= |d| && at + 8 + NameLength(d, at) <= |d|
  {
    Entry(U32(d, at), d[at + 8..at + 8 + NameLength(d, at)])
  }

  /** What the directory lists from `at` on. */
  function Entries(d: seq<Byte>, size: nat, at: nat): seq<Entry>
    requires WellFormed(d, size, at)
    decreases size - at
  {
    if IsEntry(d, size, at) then [EntryAt(d, at)] + Entries(d, size, at + RecordSize(d, at)) else []
  }

  /** Only the first `size` bytes matter. */
  lemma {:induction false} EntriesOfPrefix(d: seq<Byte>, d': seq<Byte>, size: nat, at: nat)
    requires WellFormed(d, size, at) && size <= |d| && size <= |d'| && d'[..size] == d[..size]
    ensures WellFormed(d', size, at) && Entries(d', size, at) == Entries(d, size, at)
    decreases size - at
  {
    if at < size {
      SameRecordAt(d, d', size, at);
      if IsEntry(d, size, at) {
        EntriesOfPrefix(d, d', size, at + RecordSize(d, at));
      }
    }
  }

  lemma SameRecordAt(d: seq<Byte>, d': seq<Byte>, size: nat, at: nat)
    requires at + 8 <= size <= |d| && size <= |d'| && d'[..size] == d[..size]
    ensures NameLength(d', at) == NameLength(d, at) && RecordSize(d', at) == RecordSize(d, at)
    ensures at + 8 + NameLength(d, at) <= size ==> EntryAt(d', at) == EntryAt(d, at)
  {
    assert forall i | 0 <= i < size :: d'[i] == d'[..size][i] == d[i];
  }

  // ---- the two walks ----

  /** The walk of `ext2_readdir`: entry number `index`, if the directory has so many. */
  method ReadDirData(d: seq<Byte>, size: nat, index: nat) returns (r: Option<Entry>)
    requires WellFormed(d, size, 0)
    ensures r == if index < |Entries(d, size, 0)| then Some(Entries(d, size, 0)[index]) else None
  {
    var ed, i := 0, 0;
    while ed < size && NameLength(d, ed) != 0 && i < index
      invariant 0 <= i <= index && WellFormed(d, size, ed)
      invariant i <= |Entries(d, size, 0)| && Entries(d, size, 0)[i..] == Entries(d, size, ed)
      decreases size - ed
    {
      assert Entries(d, size, ed)[1..] == Entries(d, size, ed + RecordSize(d, ed));
      assert Entries(d, size, 0)[i + 1..] == Entries(d, size, 0)[i..][1..];
      ed, i := ed + RecordSize(d, ed), i + 1;
    }
    if i == index && ed < size && NameLength(d, ed) != 0 {
      assert Entries(d, size, 0)[i] == Entries(d, size, 0)[i..][0];
      return Some(EntryAt(d, ed));
    }
    return None;
  }

  /** `strncmp(name, en, |en|) == 0` for a C string `name`: a name without NUL matches its extensions,
      one with a NUL only what stands before it. */
  ghost predicate Matches(name: seq<Byte>, en: seq<Byte>) {
    if 0 in en then exists k: nat :: k < |en| && en[k] == 0 && name == en[..k] && 0 !in en[..k] else en <= name
  }

  /** What follows a NUL in the entry's name is not compared, and a name without NUL matches its beginning only. */
  lemma NulEndsName(name: seq<Byte>, rest: seq<Byte>)
    requires 0 !in name
    ensures Matches(name, name + [0] + rest)
    ensures 0 !in rest ==> (Matches(name, rest) <==> |rest| <= |name| && forall k | 0 <= k < |rest| :: rest[k] == name[k])
  {
    var en := name + [0] + rest;
    assert en[|name|] == 0 && en[..|name|] == name;
  }

  lemma NoMatch(name: seq<Byte>, en: seq<Byte>, i: nat)
    requires 0 !in name && i < |en| && i <= |name| && name[..i] == en[..i]
    requires (if i < |name| then name[i] else 0) != en[i]
    ensures !Matches(name, en)
  {
    forall k: nat | k < |en| && en[k] == 0
      ensures name != en[..k]
    {
      if k < i {
        assert name[..i][k] == en[..i][k];
      } else if i < k && |name| == k {
        assert name[i] != en[..k][i];
      }
    }
  }

  /** `strncmp` of a C string with the `|en|` bytes `en`. */
  method SameStart(name: seq<Byte>, en: seq<Byte>) returns (same: bool)
    requires 0 !in name
    ensures same <==> Matches(name, en)
  {
    var i := 0;
    while i < |en|
      invariant 0 <= i <= |en| && i <= |name| && name[..i] == en[..i]
    {
      var c := if i < |name| then name[i] else 0;
      assert i < |name| ==> name[i] in name;
      if c != en[i] {
        NoMatch(name, en, i);
        return false;
      }
      if c == 0 {
        assert en[i] in en && name == en[..i];
        return true;
      }
      assert name[..i + 1] == name[..i] + [name[i]] == en[..i] + [en[i]] == en[..i + 1];
      i := i + 1;
    }
    assert en == name[..i];
    assert 0 !in en by {
      assert forall k | 0 <= k < i :: en[k] == name[k] && name[k] in name;
    }
    return true;
  }

  /** The first of the entries that matches. */
  ghost function Found(es: seq<Entry>, name: seq<Byte>): Option<Entry> {
    if es == [] then None else if Matches(name, es[0].name) then Some(es[0]) else Found(es[1..], name)
  }

  lemma {:induction false} FoundIsFirst(es: seq<Entry>, name: seq<Byte>, k: nat)
    requires k <= |es| && forall j | 0 <= j < k :: !Matches(name, es[j].name)
    ensures Found(es, name) == Found(es[k..], name)
    ensures k < |es| && Matches(name, es[k].name) ==> Found(es, name) == Some(es[k])
    ensures k == |es| ==> Found(es, name) == None
  {
    if k > 0 {
      FoundIsFirst(es[1..], name, k - 1);
      assert es[1..][k - 1..] == es[k..];
    } else {
      assert es[0..] == es;
    }
  }

  /** The walk of `ext2_finddir`: the first entry that matches, if any does. */
  method FindDirData(d: seq<Byte>, size: nat, name: seq<Byte>) returns (r: Option<Entry>)
    requires WellFormed(d, size, 0) && 0 !in name
    ensures r == Found(Entries(d, size, 0), name)
  {
    var ed := 0;
    while ed < size && NameLength(d, ed) != 0
      invariant WellFormed(d, size, ed) && Found(Entries(d, size, 0), name) == Found(Entries(d, size, ed), name)
      decreases size - ed
    {
      ghost var es := Entries(d, size, ed);
      assert es[0] == EntryAt(d, ed) && es[1..] == Entries(d, size, ed + RecordSize(d, ed));
      var same := SameStart(name, EntryAt(d, ed).name);
      if same {
        return Some(EntryAt(d, ed));
      }
      ed := ed + RecordSize(d, ed);
    }
    return None;
  }

  // ---- what looking up a listed name gives ----

  ghost predicate NoNuls(es: seq<Entry>) {
    forall i | 0 <= i < |es| :: 0 !in es[i].name
  }

  /** Looking up a listed name gives the first entry of that name exactly when no earlier entry's name
      is a proper prefix of it; otherwise it gives an entry of another name. */
  lemma LookupIsExact(es: seq<Entry>, name: seq<Byte>, m: nat)
    requires NoNuls(es) && m < |es| && es[m].name == name && (forall j | 0 <= j < m :: es[j].name != name)
    ensures Found(es, name).Some?
    ensures Found(es, name) == Some(es[m]) <==> forall j | 0 <= j < m :: !(es[j].name < name)
    ensures Found(es, name).value.name == name <==> Found(es, name) == Some(es[m])
  {
    var k := 0;
    while !Matches(name, es[k].name)
      invariant k <= m && forall j | 0 <= j < k :: !Matches(name, es[j].name)
      decreases m - k
    {
      k := k + 1;
    }
    FoundIsFirst(es, name, k);
    assert es[k].name <= name;
  }

  /** A directory where the lookup gives another file: the name "a" listed before "ab". */
  lemma LookupGoesWrong() returns (es: seq<Entry>, name: seq<Byte>)
    ensures |es| == 2 && NoNuls(es) && es[1].name == name && Found(es, name) == Some(es[0]) && es[0].name != name
  {
    es, name := [Entry(11, [97]), Entry(12, [97, 98])], [97, 98];
    assert es[0].name <= name && |es[0].name| == 1;
  }

  // ---- directories of a volume ----

  /** `ext2_read_inode_data`: the blocks named in the inode, up to the first zero. The first `want` bytes
      are those of the file if none of their blocks is missing. */
  method ReadDirectBlocks(v: Partition, b: nat, ino: Inode, ghost want: nat) returns (data: array<Byte>)
    requires ValidPartition(v) && IsBlockSize(b) && ValidInode(ino)
    ensures fresh(data) && data.Length == Times(b, 12)
    ensures want <= Times(b, 12) && Present(Bytes(v), b, ino.direct, 0, want) ==>
              data[..want] == FileBytes(Bytes(v), b, ino.direct, 0, want)
  {
    data := new Byte[Times(b, 12)](i => 0);
    ghost var p := Bytes(v);
    var sz, done := 0, 0;
    while sz < 12
      invariant 0 <= sz <= 12 && done == Times(b, sz) <= Times(b, 12) && Gathered(p, b, ino.direct, want, data[..], done)
    {
      if ino.direct[sz] == 0 {
        break;
      }
      NextBlock(v, b, ino, sz, done, want, data);
      sz, done := sz + 1, done + b;
    }
    if want <= Times(b, 12) && Present(p, b, ino.direct, 0, want) {
      WantedBlocks(p, b, ino.direct, sz, want);
      assert data[..want] == data[..][..want];
    }
  }

  /** The first `done` bytes are read, as far as they are wanted and there. */
  ghost predicate Gathered(p: seq<Byte>, b: nat, blocks: seq<nat>, want: nat, now: seq<Byte>, done: nat)
    requires b > 0
  {
    && |now| == Times(b, 12)
    && (want <= Times(b, 12) && Present(p, b, blocks, 0, want) ==>
          var n := Min(done, want); n <= |now| && now[..n] == FileBytes(p, b, blocks, 0, want)[..n])
  }

  /** One round of the loop. */
  method NextBlock(v: Partition, b: nat, ino: Inode, sz: nat, done: nat, ghost want: nat, data: array<Byte>)
    requires ValidPartition(v) && IsBlockSize(b) && ValidInode(ino) && sz < 12 && done == Times(b, sz)
    requires Gathered(Bytes(v), b, ino.direct, want, data[..], done)
    modifies data
    ensures Gathered(Bytes(v), b, ino.direct, want, data[..], done + b) && done + b == Times(b, sz + 1) <= Times(b, 12)
  {
    TimesMono(b, sz + 1, 12);
    ghost var was := data[..];
    ghost var got := ReadWhole(v, b, ino.direct[sz], data, done);
    GatheredNext(Bytes(v), b, ino.direct, sz, want, was, data[..], done, got);
  }

  /** A whole block. */
  method ReadWhole(v: Partition, b: nat, block: nat, data: array<Byte>, at: nat) returns (ghost got: seq<Byte>)
    requires ValidPartition(v) && IsBlockSize(b) && at + b <= data.Length
    modifies data
    ensures |got| <= b && data[..] == Patched(old(data[..]), at, got)
    ensures InVolume(Bytes(v), b, block) ==> got == Bytes(v)[Times(b, block)..Times(b, block) + b]
  {
    var tail := HeapBytes();
    ReadBlockData(v, tail, b, block, 0, b, data, at);
    got := Got(v, tail, Product32(b, block) + 0, b);
    if InVolume(Bytes(v), b, block) {
      SectorsCover(b);
      BlockGot(v, tail, b, block, 0, b);
    }
  }

  lemma GatheredNext(p: seq<Byte>, b: nat, blocks: seq<nat>, sz: nat, want: nat, was: seq<Byte>, now: seq<Byte>, done: nat,
                     got: seq<Byte>)
    requires b > 0 && sz < |blocks| && Gathered(p, b, blocks, want, was, done) && done == Times(b, sz) && done + b <= Times(b, 12)
    requires |got| <= b && now == Patched(was, done, got)
    requires HasBlock(p, b, blocks, sz) ==> got == p[Times(b, blocks[sz])..Times(b, blocks[sz]) + b]
    ensures Gathered(p, b, blocks, want, now, done + b)
  {
    if want <= Times(b, 12) && Present(p, b, blocks, 0, want) {
      if done < want {
        assert HasBlock(p, b, blocks, sz);
        GatheredBlock(p, b, blocks, sz, want, was, now, done, got);
      } else {
        assert now[..want] == was[..want];
      }
    }
  }

  lemma GatheredBlock(p: seq<Byte>, b: nat, blocks: seq<nat>, sz: nat, want: nat, was: seq<Byte>, now: seq<Byte>, done: nat,
                      got: seq<Byte>)
    requires b > 0 && done == Times(b, sz) < want && done + b <= |was| && HasBlock(p, b, blocks, sz)
    requires was[..done] == FileBytes(p, b, blocks, 0, want)[..done]
    requires got == p[Times(b, blocks[sz])..Times(b, blocks[sz]) + b] && now == Patched(was, done, got)
    ensures var n := Min(done + b, want); now[..n] == FileBytes(p, b, blocks, 0, want)[..n]
  {
    BlockOfFile(p, b, blocks, sz, want);
    Appended(was, now, done, got, FileBytes(p, b, blocks, 0, want));
  }

  lemma Appended(was: seq<Byte>, now: seq<Byte>, at: nat, got: seq<Byte>, all: seq<Byte>)
    requires at + |got| <= |was| && at <= |all| && now == Patched(was, at, got) && was[..at] == all[..at]
    requires var n := Min(|got|, |all| - at); got[..n] == all[at..at + n]
    ensures var n := Min(at + |got|, |all|); now[..n] == all[..n]
  {
    var n := Min(at + |got|, |all|);
    assert now[..n] == was[..at] + got[..n - at];
    assert all[..n] == all[..at] + all[at..n];
  }

  /** Block `n` of the file holds its bytes from `Times(b, n)` on. */
  lemma BlockOfFile(p: seq<Byte>, b: nat, blocks: seq<nat>, n: nat, want: nat)
    requires b > 0 && Times(b, n) < want && HasBlock(p, b, blocks, n)
    ensures var k := Min(b, want - Times(b, n));
            p[Times(b, blocks[n])..Times(b, blocks[n]) + b][..k] == FileBytes(p, b, blocks, 0, want)[Times(b, n)..Times(b, n) + k]
  {
    var k := Min(b, want - Times(b, n));
    var x, y := p[Times(b, blocks[n])..Times(b, blocks[n]) + b][..k], FileBytes(p, b, blocks, 0, want)[Times(b, n)..Times(b, n) + k];
    forall u | 0 <= u < k
      ensures x[u] == y[u]
    {
      ByteAtPlace(p, b, blocks, 0, n, u);
      assert y[u] == LogicalByte(p, b, blocks, 0 + (Times(b, n) + u));
    }
  }

  /** Without holes below `want`, the first zero pointer lies past it. */
  lemma WantedBlocks(p: seq<Byte>, b: nat, blocks: seq<nat>, sz: nat, want: nat)
    requires b > 0 && |blocks| == 12 && sz <= 12 && (sz < 12 ==> blocks[sz] == 0)
    requires want <= Times(b, 12) && Present(p, b, blocks, 0, want)
    ensures want <= Times(b, sz)
  {
    assert Times(b, sz) < want ==> HasBlock(p, b, blocks, sz);
  }

  /** The contents of directory `number`. */
  function DirBytes(p: seq<Byte>, s: Super, number: nat): seq<Byte>
    requires ValidSuper(s) && InodeInVolume(p, s, number)
  {
    var ino := InodeAt(p, s, number);
    FileBytes(p, s.b, ino.direct, 0, ino.size)
  }

  /** A directory within twelve blocks, none of them missing, made of proper records. */
  ghost predicate GoodDirectory(p: seq<Byte>, s: Super, number: nat) {
    && ValidSuper(s) && InodeInVolume(p, s, number)
    && var ino := InodeAt(p, s, number);
       && ino.size <= Times(s.b, 12) && Present(p, s.b, ino.direct, 0, ino.size)
       && WellFormed(DirBytes(p, s, number), ino.size, 0)
  }

  /** What directory `number` lists. */
  ghost function Listing(p: seq<Byte>, s: Super, number: nat): seq<Entry>
    requires GoodDirectory(p, s, number)
  {
    Entries(DirBytes(p, s, number), InodeAt(p, s, number).size, 0)
  }

  /** The contents of a directory, as both operations fetch them. */
  method FetchDirectory(v: Partition, s: Super, number: nat) returns (d: seq<Byte>, size: nat)
    requires ValidPartition(v) && GoodDirectory(Bytes(v), s, number)
    ensures WellFormed(d, size, 0) && Entries(d, size, 0) == Listing(Bytes(v), s, number)
  {
    var ino := ReadInode(v, s, number);
    size := ino.size;
    d := FetchBytes(v, s.b, ino);
    EntriesOfFetched(Bytes(v), s, number, d);
  }

  method FetchBytes(v: Partition, b: nat, ino: Inode) returns (d: seq<Byte>)
    requires ValidPartition(v) && IsBlockSize(b) && ValidInode(ino)
    requires ino.size <= Times(b, 12) && Present(Bytes(v), b, ino.direct, 0, ino.size)
    ensures ino.size <= |d| && d[..ino.size] == FileBytes(Bytes(v), b, ino.direct, 0, ino.size)
  {
    var data := ReadDirectBlocks(v, b, ino, ino.size);
    d := data[..];
    assert d[..ino.size] == data[..ino.size];
  }

  lemma EntriesOfFetched(p: seq<Byte>, s: Super, number: nat, d: seq<Byte>)
    requires GoodDirectory(p, s, number) && InodeAt(p, s, number).size <= |d|
    requires d[..InodeAt(p, s, number).size] == DirBytes(p, s, number)
    ensures WellFormed(d, InodeAt(p, s, number).size, 0) && Entries(d, InodeAt(p, s, number).size, 0) == Listing(p, s, number)
  {
    var f := DirBytes(p, s, number);
    assert f[..|f|] == f;
    EntriesOfPrefix(f, d, InodeAt(p, s, number).size, 0);
  }

  /** `ext2_readdir`: calls with index 0, 1, ... enumerate the listing, and then fail. */
  method ReadDir(v: Partition, s: Super, number: nat, index: nat) returns (r: Option<Entry>)
    requires ValidPartition(v) && GoodDirectory(Bytes(v), s, number)
    ensures var l := Listing(Bytes(v), s, number);
            r == if index < |l| then Some(l[index]) else None
  {
    var d, size := FetchDirectory(v, s, number);
    r := ReadDirData(d, size, index);
  }

  /** What a lookup gives: the entry, and the attributes of its inode. */
  datatype Node = Node(entry: Entry, attrs: Attributes)

  /** `ext2_finddir`: the first listed entry that matches, with the attributes of the inode it names. */
  method FindDir(v: Partition, s: Super, number: nat, name: seq<Byte>) returns (r: Option<Node>)
    requires ValidPartition(v) && GoodDirectory(Bytes(v), s, number) && 0 !in name
    ensures match Found(Listing(Bytes(v), s, number), name)
            case None => r == None
            case Some(e) =>
              && r.Some? && r.value.entry == e
              && (InodeInVolume(Bytes(v), s, e.inode) ==> r.value.attrs == InodeAt(Bytes(v), s, e.inode).attrs)
  {
    var d, size := FetchDirectory(v, s, number);
    var found := FindDirData(d, size, name);
    if found == None {
      return None;
    }
    var fi := ReadAnyInode(v, s, found.value.inode);
    return Some(Node(found.value, fi.attrs));
  }
}
