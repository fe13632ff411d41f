/** `kmalloc` and `kfree` of mm/mem.c over the headers they link through memory. Addresses are 64-bit
    numbers; the heap ends at the very top of the address space, 2^64. */
module KernelHeap {
  import opened Bits
  import opened HeapModel

  const KMEM_MAGIC: nat := 0xF0B0DEFC

  /** `kmem_header`. */
  datatype Header = Header(magic: nat, size: nat, free: bool, prev: nat)

  type Store = map<nat, Header>

  /** The header chunk `i` should have. */
  function HeaderOf(base: nat, cs: seq<Chunk>, i: nat): Header
    requires i < |cs|
  {
    Header(KMEM_MAGIC, cs[i].size, cs[i].free, if i == 0 then 0 else AddrOf(base, cs, i - 1))
  }

  /** The store holds the headers of `cs`, except for the back link of chunk `k`. */
  ghost predicate HoldsExcept(st: Store, base: nat, cs: seq<Chunk>, k: nat) {
    forall i: nat | i < |cs| :: HeaderOk(st, base, cs, i, k)
  }

  /** The store holds the headers of `cs`. */
  ghost predicate Holds(st: Store, base: nat, cs: seq<Chunk>) {
    HoldsExcept(st, base, cs, |cs|)
  }

  // ---- addresses ----

  lemma {:induction false} AddrGrows(base: nat, cs: seq<Chunk>, i: nat, j: nat)
    requires i < j <= |cs|
    ensures AddrOf(base, cs, i) + cs[i].size + HEADER <= AddrOf(base, cs, j)
    decreases j
  {
    if i < j - 1 {
      AddrGrows(base, cs, i, j - 1);
    }
  }

  // ---- joining two chunks ----

  function Merge(cs: seq<Chunk>, i: nat): seq<Chunk>
    requires i + 1 < |cs|
  {
    cs[..i] + [Chunk(cs[i].size + cs[i + 1].size + HEADER, cs[i].free)] + cs[i + 2..]
  }

  /** Merging moves no other chunk. */
  lemma {:induction false} MergeAddr(base: nat, cs: seq<Chunk>, i: nat, j: nat)
    requires i + 1 < |cs| && j <= |cs| - 1
    ensures AddrOf(base, Merge(cs, i), j) == if j <= i then AddrOf(base, cs, j) else AddrOf(base, cs, j + 1)
    decreases j
  {
    if j > 0 {
      MergeAddr(base, cs, i, j - 1);
    }
  }

  /** `into->size += gone->size + sizeof(kmem_header)` and the clearing of `gone`. */
  function Absorb(st: Store, into: nat, gone: nat): (st': Store)
    requires into in st && gone in st
    ensures into in st' && gone in st'
    ensures st'[gone].magic == 0 && st'[gone].size == 0 && st'[gone].prev == 0
    ensures into != gone ==> st'[into].size == st[into].size + 16 + st[gone].size && st'[into].magic == st[into].magic
  {
    st[into := st[into].(size := st[into].size + st[gone].size + HEADER)]
      [gone := Header(0, 0, st[gone].free, 0)]
  }

  /** Chunk `i` of the store has the header it should have; its back link is excused if `i == k`. */
  predicate HeaderOk(st: Store, base: nat, cs: seq<Chunk>, i: nat, k: nat)
    requires i < |cs|
  {
    && AddrOf(base, cs, i) in st
    && (i == k || st[AddrOf(base, cs, i)] == HeaderOf(base, cs, i))
    && st[AddrOf(base, cs, i)].(prev := 0) == HeaderOf(base, cs, i).(prev := 0)
  }

  lemma AbsorbOne(st: Store, base: nat, cs: seq<Chunk>, i: nat, j: nat)
    requires i + 1 < |cs| && j < |cs| - 1
    requires HeaderOk(st, base, cs, i, i + 1) && HeaderOk(st, base, cs, i + 1, i + 1)
    requires j > i ==> HeaderOk(st, base, cs, j + 1, i + 1)
    requires j < i ==> HeaderOk(st, base, cs, j, i + 1)
    ensures HeaderOk(Absorb(st, AddrOf(base, cs, i), AddrOf(base, cs, i + 1)), base, Merge(cs, i), j, i + 1)
  {
    MergeAddr(base, cs, i, j);
    if j > 0 {
      MergeAddr(base, cs, i, j - 1);
    }
    if j < i {
      AddrGrows(base, cs, j, i);
      AddrGrows(base, cs, j, i + 1);
    } else if j > i {
      AddrGrows(base, cs, i, j + 1);
      AddrGrows(base, cs, i + 1, j + 1);
    }
  }

  lemma AbsorbMerges(st: Store, base: nat, cs: seq<Chunk>, i: nat)
    requires i + 1 < |cs| && HoldsExcept(st, base, cs, i + 1)
    requires HeaderOk(st, base, cs, i, i + 1) && HeaderOk(st, base, cs, i + 1, i + 1)
    ensures HoldsExcept(Absorb(st, AddrOf(base, cs, i), AddrOf(base, cs, i + 1)), base, Merge(cs, i), i + 1)
  {
    var st', ds := Absorb(st, AddrOf(base, cs, i), AddrOf(base, cs, i + 1)), Merge(cs, i);
    var k := i + 1;
    forall j: nat | j < |ds|
      ensures HeaderOk(st', base, ds, j, k)
    {
      assert HeaderOk(st, base, cs, if j > i then j + 1 else j, i + 1);
      AbsorbOne(st, base, cs, i, j);
    }
  }

  /** A link that is right, or is not there, may be excused. */
  lemma Weaken(st: Store, base: nat, cs: seq<Chunk>, k: nat, l: nat)
    requires HoldsExcept(st, base, cs, k) && k >= |cs|
    ensures HoldsExcept(st, base, cs, l)
  {
    forall j: nat | j < |cs|
      ensures HeaderOk(st, base, cs, j, l)
    {
      assert HeaderOk(st, base, cs, j, k);
    }
  }

  /** Writing the back link of chunk `k` completes the store. */
  lemma RelinkHolds(st: Store, base: nat, cs: seq<Chunk>, k: nat)
    requires HoldsExcept(st, base, cs, k) && 0 < k < |cs|
    ensures AddrOf(base, cs, k) in st
    ensures Holds(st[AddrOf(base, cs, k) := st[AddrOf(base, cs, k)].(prev := AddrOf(base, cs, k - 1))], base, cs)
  {
    assert HeaderOk(st, base, cs, k, k);
    var st' := st[AddrOf(base, cs, k) := st[AddrOf(base, cs, k)].(prev := AddrOf(base, cs, k - 1))];
    forall j: nat | j < |cs|
      ensures HeaderOk(st', base, cs, j, |cs|)
    {
      assert HeaderOk(st, base, cs, j, k);
      if j < k {
        AddrGrows(base, cs, j, k);
      } else if j > k {
        AddrGrows(base, cs, k, j);
      }
    }
  }

  // ---- marking and cutting a chunk ----

  function Mark(cs: seq<Chunk>, i: nat, free: bool): seq<Chunk>
    requires i < |cs|
  {
    cs[i := Chunk(cs[i].size, free)]
  }

  lemma {:induction false} MarkAddr(base: nat, cs: seq<Chunk>, i: nat, free: bool, j: nat)
    requires i < |cs| && j <= |cs|
    ensures AddrOf(base, Mark(cs, i, free), j) == AddrOf(base, cs, j)
  {
    if j > 0 {
      MarkAddr(base, cs, i, free, j - 1);
    }
  }

  lemma MarkHolds(st: Store, base: nat, cs: seq<Chunk>, i: nat, free: bool)
    requires i < |cs| && Holds(st, base, cs) && AddrOf(base, cs, i) in st
    ensures Holds(st[AddrOf(base, cs, i) := st[AddrOf(base, cs, i)].(free := free)], base, Mark(cs, i, free))
  {
    var st', ds := st[AddrOf(base, cs, i) := st[AddrOf(base, cs, i)].(free := free)], Mark(cs, i, free);
    forall j: nat | j < |ds|
      ensures HeaderOk(st', base, ds, j, |ds|)
    {
      assert HeaderOk(st, base, cs, j, |cs|);
      MarkAddr(base, cs, i, free, j);
      if j > 0 {
        MarkAddr(base, cs, i, free, j - 1);
      }
      if j < i {
        AddrGrows(base, cs, j, i);
      } else if j > i {
        AddrGrows(base, cs, i, j);
      }
    }
  }

  /** The chunk list after cutting chunk `i`: a block of `n` bytes and a free rest. */
  function SplitAt(cs: seq<Chunk>, i: nat, n: nat): seq<Chunk>
    requires i < |cs| && cs[i].size > n + HEADER
  {
    cs[..i] + [Chunk(n, false), Chunk(cs[i].size - n - HEADER, true)] + cs[i + 1..]
  }

  lemma {:induction false} SplitAddr(base: nat, cs: seq<Chunk>, i: nat, n: nat, j: nat)
    requires i < |cs| && cs[i].size > n + HEADER && j <= |cs| + 1
    ensures AddrOf(base, SplitAt(cs, i, n), j) ==
            if j <= i then AddrOf(base, cs, j)
            else if j == i + 1 then AddrOf(base, cs, i) + n + HEADER
            else AddrOf(base, cs, j - 1)
    decreases j
  {
    if j > 0 {
      SplitAddr(base, cs, i, n, j - 1);
    }
  }

  /** The writes of a split: the new header, the back link of the chunk after it unless the split
      chunk is the last one, and the old header. */
  function SplitStore(st: Store, head: nat, n: nat, last: bool): (st': Store)
    requires head in st && st[head].size > n + HEADER
    requires !last ==> head + st[head].size + HEADER in st
    ensures head in st' && st'[head].size == n && !st'[head].free && st'[head].magic == st[head].magic
    ensures var rest := head + n + 16;
            rest in st' && st'[rest].magic == 0xF0B0_DEFC && st'[rest].free && st'[rest].prev == head
            && rest + st'[rest].size == head + st[head].size
  {
    var h, next, wnext := st[head], head + n + HEADER, head + st[head].size + HEADER;
    var st1 := st[next := Header(KMEM_MAGIC, h.size - n - HEADER, true, head)];
    var st2 := if last then st1 else st1[wnext := st[wnext].(prev := next)];
    st2[head := h.(size := n, free := false)]
  }

  lemma SplitOne(st: Store, base: nat, cs: seq<Chunk>, i: nat, n: nat, j: nat)
    requires i < |cs| && cs[i].size > n + HEADER && j < |cs| + 1
    requires HeaderOk(st, base, cs, i, |cs|) && (i + 1 < |cs| ==> HeaderOk(st, base, cs, i + 1, |cs|))
    requires j <= i ==> HeaderOk(st, base, cs, j, |cs|)
    requires j > i + 1 ==> HeaderOk(st, base, cs, j - 1, |cs|)
    ensures HeaderOk(SplitStore(st, AddrOf(base, cs, i), n, i + 1 == |cs|), base, SplitAt(cs, i, n), j, |cs| + 1)
  {
    SplitAddr(base, cs, i, n, j);
    if j > 0 {
      SplitAddr(base, cs, i, n, j - 1);
    }
    if j < i {
      AddrGrows(base, cs, j, i);
    } else if j > i + 2 {
      AddrGrows(base, cs, i, i + 1);
      AddrGrows(base, cs, i + 1, j - 1);
    }
  }

  lemma SplitHolds(st: Store, base: nat, cs: seq<Chunk>, i: nat, n: nat)
    requires i < |cs| && cs[i].size > n + HEADER && Holds(st, base, cs)
    requires HeaderOk(st, base, cs, i, |cs|) && (i + 1 < |cs| ==> HeaderOk(st, base, cs, i + 1, |cs|))
    ensures Holds(SplitStore(st, AddrOf(base, cs, i), n, i + 1 == |cs|), base, SplitAt(cs, i, n))
  {
    var st', ds := SplitStore(st, AddrOf(base, cs, i), n, i + 1 == |cs|), SplitAt(cs, i, n);
    forall j: nat | j < |ds|
      ensures HeaderOk(st', base, ds, j, |ds|)
    {
      if j != i + 1 {
        assert HeaderOk(st, base, cs, if j <= i then j else j - 1, |cs|);
      }
      SplitOne(st, base, cs, i, n, j);
    }
  }

  // ---- the two calls as changes of the chunk list ----

  lemma AllocAtIsSplit(cs: seq<Chunk>, i: nat, n: nat)
    requires i < |cs|
    ensures cs[i].size > n + HEADER ==> AllocAt(cs, i, n) == SplitAt(cs, i, n)
    ensures cs[i].size <= n + HEADER ==> AllocAt(cs, i, n) == Mark(cs, i, false)
  {
  }

  lemma TotalOfFew(c: Chunk, d: Chunk, e: Chunk)
    ensures Total([c]) == c.size + HEADER
    ensures Total([c, d]) == c.size + HEADER + d.size + HEADER
    ensures Total([c, d, e]) == c.size + HEADER + d.size + HEADER + e.size + HEADER
  {
    assert [c][1..] == [] && [d][1..] == [] && [e][1..] == [];
    assert [c] + [d] == [c, d] && [c, d] + [e] == [c, d, e];
    TotalAppend([c], [d]);
    TotalAppend([c, d], [e]);
  }

  /** The list after the join with a free chunk before chunk `i`, and the chunk's place in it. */
  function JoinedBefore(cs: seq<Chunk>, i: nat): seq<Chunk>
    requires i < |cs|
  {
    if i > 0 && cs[i - 1].free then Merge(cs, i - 1) else cs
  }

  function PlaceAfter(cs: seq<Chunk>, i: nat): nat
    requires i < |cs|
  {
    if i > 0 && cs[i - 1].free then i - 1 else i
  }

  /** The list after the join with a free chunk after chunk `i`. */
  function JoinedAfter(cs: seq<Chunk>, i: nat): seq<Chunk>
    requires i < |cs|
  {
    if i + 1 < |cs| && cs[i + 1].free then Merge(cs, i) else cs
  }

  /** Marking a chunk free and joining it with a free chunk before and after it is a release. */
  lemma FreeAtIsMerges(cs: seq<Chunk>, i: nat)
    requires i < |cs|
    ensures PlaceAfter(Mark(cs, i, true), i) < |JoinedBefore(Mark(cs, i, true), i)|
    ensures FreeAt(cs, i) == JoinedAfter(JoinedBefore(Mark(cs, i, true), i), PlaceAfter(Mark(cs, i, true), i))
  {
    var before, after := i > 0 && cs[i - 1].free, i + 1 < |cs| && cs[i + 1].free;
    if before && after {
      FreeJoinsBoth(cs, i);
    } else if before {
      FreeJoinsPair(cs, i, i - 1);
    } else if after {
      FreeJoinsPair(cs, i, i);
    } else {
      FreeJoinsNone(cs, i);
    }
  }

  lemma FreeJoinsBoth(cs: seq<Chunk>, i: nat)
    requires 0 < i < |cs| - 1 && cs[i - 1].free && cs[i + 1].free
    ensures FreeAt(cs, i) == Merge(Merge(Mark(cs, i, true), i - 1), i - 1)
  {
    var lo, hi, cs1 := i - 1, i + 2, Mark(cs, i, true);
    assert cs[lo..hi] == [cs[i - 1], cs[i], cs[i + 1]];
    TotalOfFew(cs[i - 1], cs[i], cs[i + 1]);
    var cs2 := Merge(cs1, lo);
    assert cs2[lo + 1] == cs[i + 1] && cs2[lo + 2..] == cs[hi..] && cs2[..lo] == cs[..lo];
  }

  /** The chunk and one free neighbour, of which chunk `lo` is the first. */
  lemma FreeJoinsPair(cs: seq<Chunk>, i: nat, lo: nat)
    requires i < |cs| && lo == Lo(cs, i) && Hi(cs, i) == lo + 2
    ensures FreeAt(cs, i) == Merge(Mark(cs, i, true), lo)
  {
    var cs1 := Mark(cs, i, true);
    assert cs[lo..lo + 2] == [cs[lo], cs[lo + 1]];
    TotalOfFew(cs[lo], cs[lo + 1], cs[lo + 1]);
    assert cs1[lo + 2..] == cs[lo + 2..] && cs1[..lo] == cs[..lo];
  }

  lemma FreeJoinsNone(cs: seq<Chunk>, i: nat)
    requires i < |cs| && Lo(cs, i) == i && Hi(cs, i) == i + 1
    ensures FreeAt(cs, i) == Mark(cs, i, true)
  {
    assert cs[i..i + 1] == [cs[i]];
    TotalOfFew(cs[i], cs[i], cs[i]);
  }

  /** The effect of an allocation of `size` bytes from chunk `i`, written out: that chunk was free and large enough; it is
      split exactly if more than a 16-byte header is left over. */
  ghost predicate AllocEffect(base: nat, cs: seq<Chunk>, size: nat, addr: nat, cs': seq<Chunk>, i: nat)
    requires i < |cs|
  {
    var c := cs[i];
    && c.free && c.size >= size && addr == AddrOf(base, cs, i) + 16
    && (c.size > size + 16 ==> cs' == cs[..i] + [Chunk(size, false), Chunk(c.size - size - 16, true)] + cs[i + 1..])
    && (c.size <= size + 16 ==> cs' == cs[i := Chunk(c.size, false)])
  }

  lemma AllocHasEffect(base: nat, cs: seq<Chunk>, size: nat, i: nat)
    requires i < |cs| && Fitting(cs[i], size)
    ensures AllocEffect(base, cs, size, AddrOf(base, cs, i) + HEADER, AllocAt(cs, i, size), i)
  {
  }

  /** A fitting chunk is not before the first fitting one. */
  lemma LowestBlock(base: nat, cs: seq<Chunk>, size: nat, i: nat)
    requires i < |cs| && forall j | 0 <= j < i :: !Fitting(cs[j], size)
    ensures forall j | 0 <= j < |cs| && cs[j].free && cs[j].size >= size ::
              i <= j && AddrOf(base, cs, i) + HEADER <= AddrOf(base, cs, j) + 16
  {
    forall j | 0 <= j < |cs| && cs[j].free && cs[j].size >= size
      ensures i <= j && AddrOf(base, cs, i) + HEADER <= AddrOf(base, cs, j) + 16
    {
      assert i <= j;
      if i < j {
        AddrGrows(base, cs, i, j);
      }
    }
  }

  /** The effect of a release of chunk `i`, written out: it becomes one free chunk with its free neighbours, whose headers
      it takes over. */
  ghost predicate FreeEffect(cs: seq<Chunk>, cs': seq<Chunk>, i: nat)
    requires i < |cs|
  {
    var before, after := i > 0 && cs[i - 1].free, i + 1 < |cs| && cs[i + 1].free;
    if before && after then
      cs' == cs[..i - 1] + [Chunk(cs[i - 1].size + 16 + cs[i].size + 16 + cs[i + 1].size, true)] + cs[i + 2..]
    else if before then cs' == cs[..i - 1] + [Chunk(cs[i - 1].size + 16 + cs[i].size, true)] + cs[i + 1..]
    else if after then cs' == cs[..i] + [Chunk(cs[i].size + 16 + cs[i + 1].size, true)] + cs[i + 2..]
    else cs' == cs[..i] + [Chunk(cs[i].size, true)] + cs[i + 1..]
  }

  lemma FreeHasEffect(cs: seq<Chunk>, i: nat)
    requires i < |cs|
    ensures FreeEffect(cs, FreeAt(cs, i), i)
  {
    var lo, hi := Lo(cs, i), Hi(cs, i);
    if hi == lo + 1 {
      assert cs[lo..hi] == [cs[i]];
    } else if hi == lo + 2 {
      assert cs[lo..hi] == [cs[lo], cs[lo + 1]];
    } else {
      assert cs[lo..hi] == [cs[lo], cs[lo + 1], cs[lo + 2]];
    }
    TotalOfFew(cs[lo], cs[if lo + 1 < |cs| then lo + 1 else lo], cs[hi - 1]);
  }

  /** The chunks fill the heap from `base` to the top of memory; neighbours may both be free. */
  ghost predicate Spans(base: nat, cs: seq<Chunk>) {
    cs != [] && AddrOf(base, cs, |cs|) == TWO_64 && forall i | 0 <= i < |cs| :: cs[i].size >= 1
  }

  lemma TiledSpans(base: nat, cs: seq<Chunk>, hlim: nat)
    requires Tiled(cs, hlim + HEADER) && base + hlim + HEADER == TWO_64
    ensures Spans(base, cs)
  {
    AddrIsTotal(base, cs, |cs|);
    assert cs[..|cs|] == cs;
  }

  /** Where the chunk after chunk `i` is, as the 64-bit sum the code forms: the last chunk ends at
      2^64, which wraps to 0; every other one is followed by a header below the limit. */
  lemma NextHeader(base: nat, cs: seq<Chunk>, hlim: nat, i: nat)
    requires Spans(base, cs) && base + hlim + HEADER == TWO_64 && i < |cs| && base > 0
    ensures var next := (AddrOf(base, cs, i) + cs[i].size + HEADER) % TWO_64;
            if i + 1 == |cs| then next == 0
            else next == AddrOf(base, cs, i + 1) && 0 < next < base + hlim
    ensures 0 < AddrOf(base, cs, i) < base + hlim
    ensures i + 1 == |cs| <==> AddrOf(base, cs, i) + cs[i].size >= base + hlim
  {
    AddrGrows(base, cs, i, |cs|);
    if i + 1 < |cs| {
      AddrGrows(base, cs, i + 1, |cs|);
    }
    if i > 0 {
      AddrGrows(base, cs, 0, i);
    }
  }

  datatype Reply = Block(addr: nat) | Null | Fault

  lemma MergeSpans(st: Store, base: nat, cs: seq<Chunk>, i: nat)
    requires i + 1 < |cs| && Spans(base, cs) && Holds(st, base, cs)
    ensures AddrOf(base, cs, i) in st && AddrOf(base, cs, i + 1) in st
    ensures Spans(base, Merge(cs, i)) && AddrOf(base, Merge(cs, i), i) == AddrOf(base, cs, i)
    ensures HoldsExcept(Absorb(st, AddrOf(base, cs, i), AddrOf(base, cs, i + 1)), base, Merge(cs, i), i + 1)
  {
    assert HeaderOk(st, base, cs, i, |cs|) && HeaderOk(st, base, cs, i + 1, |cs|);
    Weaken(st, base, cs, |cs|, i + 1);
    AbsorbMerges(st, base, cs, i);
    MergeAddr(base, cs, i, i);
    MergeAddr(base, cs, i, |cs| - 1);
  }

  class Heap {
    const base: nat
    const hlim: nat
    var store: Store
    ghost var chunks: seq<Chunk>

    ghost predicate Valid()
      reads this
    {
      && base > 0 && hlim >= 1 && base + hlim + HEADER == TWO_64
      && Tiled(chunks, hlim + HEADER)
      && Holds(store, base, chunks)
    }

    /** `mem_init`: one free chunk from the end of the kernel image to the top of memory. */
    constructor (last_page: nat)
      requires last_page + HEADER < 0x4000_0000
      ensures Valid() && chunks == [Chunk(hlim, true)]
      ensures base == 0xFFFF_FFFF_C000_0000 + last_page && hlim == 0x4000_0000 - last_page - HEADER
    {
      hlim := 0x4000_0000 - last_page - HEADER;
      base := 0xFFFF_FFFF_C000_0000 + last_page;
      store := map[0xFFFF_FFFF_C000_0000 + last_page := Header(KMEM_MAGIC, 0x4000_0000 - last_page - HEADER, true, 0)];
      chunks := [Chunk(0x4000_0000 - last_page - HEADER, true)];
      new;
      assert chunks[1..] == [];
    }

    /** What the owner of a block may do: change anything that is not a chunk header. */
    method Scribble(st: Store)
      requires Valid()
      requires forall i: nat | i < |chunks| ::
                 var a := AddrOf(base, chunks, i); a in st && a in store && st[a] == store[a]
      modifies this`store
      ensures Valid() && store == st
    {
      forall i: nat | i < |chunks|
        ensures HeaderOk(st, base, chunks, i, |chunks|)
      {
        assert HeaderOk(store, base, chunks, i, |chunks|);
      }
      store := st;
    }

    /** The walk of `kmalloc`: the header of the first fitting chunk, or 0 once the walk has wrapped
        around the end of the heap. */
    method Find(size: nat) returns (head: nat, ghost i: nat)
      requires Valid()
      ensures i <= |chunks| && forall j | 0 <= j < i :: !Fitting(chunks[j], size)
      ensures forall j | 0 <= j < i :: !chunks[j].free || chunks[j].size < size
      ensures i < |chunks| ==> chunks[i].free && chunks[i].size >= size
      ensures head == 0 <==> i == |chunks|
      ensures i < |chunks| ==> Fitting(chunks[i], size) && head == AddrOf(base, chunks, i) && head in store
    {
      head, i := base, 0;
      TiledSpans(base, chunks, hlim);
      assert HeaderOk(store, base, chunks, 0, |chunks|);
      while head < base + hlim
        invariant 0 <= i < |chunks| && head == AddrOf(base, chunks, i)
        invariant HeaderOk(store, base, chunks, i, |chunks|)
        invariant forall j | 0 <= j < i :: !Fitting(chunks[j], size)
        decreases |chunks| - i
      {
        NextHeader(base, chunks, hlim, i);
        if store[head].size >= size && store[head].free {
          return;
        }
        head := (head + store[head].size + HEADER) % TWO_64;
        i := i + 1;
        if head == 0 {
          return;
        }
        assert HeaderOk(store, base, chunks, i, |chunks|);
      }
      NextHeader(base, chunks, hlim, i);
    }

    /** `kmalloc`: null for a size out of range. Otherwise the block of the lowest fitting chunk. When
        no chunk fits, the walk wraps to address 0 and faults on the header there: the code's own
        out-of-memory answer is never given. */
    method Kmalloc(size: nat) returns (r: Reply, ghost i: nat)
      requires Valid()
      modifies this
      ensures Valid()
      ensures r.Null? <==> size == 0 || size >= hlim
      ensures r.Fault? <==> 0 < size < hlim && forall i | 0 <= i < |old(chunks)| :: !Fitting(old(chunks)[i], size)
      ensures r.Block? ==>
                && i < |old(chunks)|
                && AllocStep(base, old(chunks), size, (r.addr, Cut(old(chunks)[i], size)[0].size), chunks, i)
      ensures !r.Block? ==> chunks == old(chunks) && store == old(store)
      ensures forall j | 0 <= j < |old(chunks)| && old(chunks)[j].free && old(chunks)[j].size >= size && 0 < size < hlim ::
                r.Block? && i <= j && r.addr <= AddrOf(base, old(chunks), j) + 16
      ensures r.Block? ==> i < |old(chunks)| && AllocEffect(base, old(chunks), size, r.addr, chunks, i)
    {
      if size == 0 || size >= hlim {
        return Null, 0;
      }
      var head;
      head, i := Find(size);
      if head == 0 {
        return Fault, i;
      }
      ghost var cs := chunks;
      Take(head, size, i);
      r := Block(head + HEADER);
      LowestBlock(base, cs, size, i);
      AllocHasEffect(base, cs, size, i);
    }

    /** The part of `kmalloc` after the search: split the chunk if its rest can stand alone. */
    method Take(head: nat, size: nat, ghost i: nat)
      requires Valid() && i < |chunks| && head == AddrOf(base, chunks, i) && head in store
      requires size >= 1 && Fitting(chunks[i], size)
      modifies this
      ensures Valid() && chunks == AllocAt(old(chunks), i, size)
    {
      assert HeaderOk(store, base, chunks, i, |chunks|);
      TiledSpans(base, chunks, hlim);
      NextHeader(base, chunks, hlim, i);
      AllocKeeps(base, chunks, hlim + HEADER, i, size);
      AllocAtIsSplit(chunks, i, size);
      if store[head].size > size + HEADER {
        assert i + 1 < |chunks| ==> HeaderOk(store, base, chunks, i + 1, |chunks|);
        SplitHolds(store, base, chunks, i, size);
        store := SplitStore(store, head, size, head + store[head].size >= base + hlim);
      } else {
        MarkHolds(store, base, chunks, i, false);
        store := store[head := store[head].(free := false)];
      }
      chunks := AllocAt(chunks, i, size);
    }

    /** `kfree`, first join: a free chunk before chunk `i` absorbs it. */
    method JoinPrevious(ptr: nat, ghost cs: seq<Chunk>, ghost i: nat) returns (ptr': nat)
      requires base > 0 && base + hlim + HEADER == TWO_64 && Spans(base, cs)
      requires Holds(store, base, cs) && i < |cs| && ptr == AddrOf(base, cs, i) && ptr in store
      modifies this`store
      ensures var cs', lo := JoinedBefore(cs, i), PlaceAfter(cs, i);
              lo < |cs'| && Spans(base, cs') && HoldsExcept(store, base, cs', lo + 1) && ptr' == AddrOf(base, cs', lo)
    {
      ptr' := ptr;
      assert HeaderOk(store, base, cs, i, |cs|);
      Weaken(store, base, cs, |cs|, i + 1);
      var prev := store[ptr].prev;
      if i > 0 {
        NextHeader(base, cs, hlim, i - 1);
        assert HeaderOk(store, base, cs, i - 1, |cs|);
      }
      if prev != 0 && store[prev].magic == KMEM_MAGIC && store[prev].free {
        MergeSpans(store, base, cs, i - 1);
        store := Absorb(store, prev, ptr);
        ptr' := prev;
      }
    }

    /** `kfree`, second join: chunk `i` absorbs a free chunk after it. */
    method JoinNext(ptr: nat, ghost cs: seq<Chunk>, ghost i: nat) returns (next: nat)
      requires base > 0 && base + hlim + HEADER == TWO_64 && Spans(base, cs)
      requires i < |cs| && HoldsExcept(store, base, cs, i + 1) && ptr == AddrOf(base, cs, i)
      modifies this`store
      ensures var ds := JoinedAfter(cs, i);
              && i < |ds| && Spans(base, ds) && HoldsExcept(store, base, ds, i + 1) && ptr == AddrOf(base, ds, i)
              && next == if i + 1 == |ds| then 0 else AddrOf(base, ds, i + 1)
    {
      assert HeaderOk(store, base, cs, i, i + 1);
      NextHeader(base, cs, hlim, i);
      next := (ptr + store[ptr].size + HEADER) % TWO_64;
      if i + 1 < |cs| {
        assert HeaderOk(store, base, cs, i + 1, i + 1);
      }
      if next != 0 && next < base + hlim && store[next].magic == KMEM_MAGIC && store[next].free {
        AbsorbMerges(store, base, cs, i);
        MergeAddr(base, cs, i, i);
        MergeAddr(base, cs, i, |cs| - 1);
        store := Absorb(store, ptr, next);
        assert HeaderOk(store, base, Merge(cs, i), i, i + 1);
        NextHeader(base, Merge(cs, i), hlim, i);
        next := (ptr + store[ptr].size + HEADER) % TWO_64;
      }
    }

    /** `kfree`, last lines: the chunk that follows chunk `i` is linked back to it. */
    method LinkBack(ptr: nat, next: nat, ghost cs: seq<Chunk>, ghost i: nat)
      requires base > 0 && base + hlim + HEADER == TWO_64 && Spans(base, cs)
      requires i < |cs| && HoldsExcept(store, base, cs, i + 1) && ptr == AddrOf(base, cs, i)
      requires next == if i + 1 == |cs| then 0 else AddrOf(base, cs, i + 1)
      modifies this`store
      ensures Holds(store, base, cs)
    {
      if i + 1 < |cs| {
        assert HeaderOk(store, base, cs, i + 1, i + 1);
        NextHeader(base, cs, hlim, i);
        RelinkHolds(store, base, cs, i + 1);
      }
      if next != 0 && next < base + hlim && store[next].magic == KMEM_MAGIC {
        store := store[next := store[next].(prev := ptr)];
      }
    }

    /** `kfree`, first line: the header is marked free. */
    method MarkFree(p: nat, ghost cs: seq<Chunk>, ghost i: nat)
      requires Spans(base, cs) && Holds(store, base, cs) && i < |cs| && p == AddrOf(base, cs, i)
      modifies this`store
      ensures var cs1 := Mark(cs, i, true);
              Spans(base, cs1) && Holds(store, base, cs1) && p == AddrOf(base, cs1, i) && p in store
    {
      assert HeaderOk(store, base, cs, i, |cs|);
      MarkHolds(store, base, cs, i, true);
      store := store[p := store[p].(free := true)];
      MarkAddr(base, cs, i, true, i);
      MarkAddr(base, cs, i, true, |cs|);
    }

    /** `kfree` on the header of chunk `i`. */
    method Release(p: nat, ghost cs: seq<Chunk>, ghost i: nat)
      requires base > 0 && base + hlim + HEADER == TWO_64 && Spans(base, cs)
      requires Holds(store, base, cs) && i < |cs| && p == AddrOf(base, cs, i)
      modifies this`store
      ensures Holds(store, base, FreeAt(cs, i))
    {
      MarkFree(p, cs, i);
      ghost var cs1 := Mark(cs, i, true);
      var ptr := JoinPrevious(p, cs1, i);
      ghost var cs2, lo := JoinedBefore(cs1, i), PlaceAfter(cs1, i);
      var next := JoinNext(ptr, cs2, lo);
      LinkBack(ptr, next, JoinedAfter(cs2, lo), lo);
      FreeAtIsMerges(cs, i);
    }

    /** `kfree`: null is ignored. A live block is released: its chunk and the free ones next to it
        become one. */
    method Kfree(p: nat, ghost i: nat)
      requires Valid()
      requires p != 0 ==> i < |chunks| && !chunks[i].free && p == AddrOf(base, chunks, i) + HEADER
      modifies this
      ensures Valid()
      ensures p == 0 ==> chunks == old(chunks) && store == old(store)
      ensures p != 0 ==> FreeStep(base, old(chunks), (p, old(chunks)[i].size), chunks, i)
      ensures p != 0 ==> FreeEffect(old(chunks), chunks, i)
    {
      if p == 0 {
        return;
      }
      FreeKeeps(base, chunks, hlim + HEADER, i);
      TiledSpans(base, chunks, hlim);
      Release(p - HEADER, chunks, i);
      FreeHasEffect(chunks, i);
      chunks := FreeAt(chunks, i);
    }
  }

  /** A heap whose out-of-memory answer is not given: after one allocation of all but a byte, any other faults. */
  method RunsOut(last_page: nat, size: nat) returns (r: Reply)
    requires last_page + HEADER + 1 < 0x4000_0000 && 0 < size < 0x4000_0000 - last_page - HEADER
    ensures r == Fault
  {
    var h := new Heap(last_page);
    ghost var i;
    r, i := h.Kmalloc(0x4000_0000 - last_page - HEADER - 1);
    assert h.chunks == [Chunk(h.hlim, false)];
    r, i := h.Kmalloc(size);
  }
}
