/** Placing the loadable segments of an ELF file in the address space (elf/elf.c:314-357). */
module ElfLoader {
  import opened Arith
  import opened PageTables
  import opened AddressSpace
  import BlockStack

  type Byte = BlockStack.Byte

  /** A program header; `load` stands for p_type == PT_LOAD. */
  datatype Segment = Segment(load: bool, offset: nat, vaddr: nat, filesz: nat, memsz: nat)

  /** The segment's bytes are in the file, and the file has no more of them than fit. */
  predicate InFile(s: Segment, file: seq<Byte>) {
    s.filesz <= s.memsz && s.offset + s.filesz <= |file|
  }

  /** What the program header promises at byte `j` of the segment: the file, then zeros. */
  function Content(s: Segment, file: seq<Byte>, j: nat): Byte
    requires InFile(s, file)
  {
    if j < s.filesz then file[s.offset + j] else 0
  }

  function PageStart(a: nat): nat {
    a / 4096 * 4096
  }

  /** The bytes from the start of the segment's first page on. */
  function Span(s: Segment): nat {
    s.memsz + s.vaddr % 4096
  }

  /** The pages the segment touches. */
  ghost function PagesOf(s: Segment): (ps: seq<Page>)
    ensures IsRange(ps, PageStart(s.vaddr), Pages(Span(s)))
  {
    var ps := seq(Pages(Span(s)), k requires 0 <= k => Split(RangeAddress(PageStart(s.vaddr), k)));
    ps
  }

  /** Byte `j` of the segment lies in page `k` of it. */
  lemma PageOfByte(s: Segment, j: nat) returns (k: nat)
    requires j < s.memsz
    ensures k == (s.vaddr + j) / 4096 - s.vaddr / 4096 < |PagesOf(s)| && PagesOf(s)[k] == Split(s.vaddr + j)
  {
    k := (s.vaddr + j) / 4096 - s.vaddr / 4096;
    var at := RangeAddress(PageStart(s.vaddr), k);
    assert at == PageStart(s.vaddr + j);
    SameSplit(s.vaddr + j);
    assert k < Pages(Span(s)) by {
      SpanPages(s.vaddr, s.memsz, j);
    }
  }

  /** The pages of a segment are exactly those its bytes lie in. */
  lemma PagesAreTouched(s: Segment, p: Page)
    requires s.memsz > 0
    ensures p in PagesOf(s) <==> exists a: nat :: s.vaddr <= a < s.vaddr + s.memsz && p == Split(a)
  {
    var base := PageStart(s.vaddr);
    RangeIsTouched(PagesOf(s), base, Span(s), p);
    assert base + Span(s) == s.vaddr + s.memsz && base <= s.vaddr;
    if a: nat :| base <= a < base + Span(s) && p == Split(a) {
      if a < s.vaddr {
        SameStart(s.vaddr, a);
        assert p == Split(s.vaddr);
      }
    }
  }

  lemma SameStart(v: nat, a: nat)
    requires PageStart(v) <= a <= v
    ensures Split(a) == Split(v)
  {
    assert a / 4096 == v / 4096;
  }

  /** How many they are: those of the first to the last byte; for an empty segment, the page it begins in, unless it begins
      where a page does. */
  lemma PageCount(s: Segment)
    ensures s.memsz > 0 ==> |PagesOf(s)| == (s.vaddr + s.memsz - 1) / 4096 - s.vaddr / 4096 + 1
    ensures s.memsz == 0 ==> |PagesOf(s)| == if s.vaddr % 4096 != 0 then 1 else 0
  {
    var tail := s.vaddr % 4096;
    assert s.vaddr == 4096 * (s.vaddr / 4096) + tail;
    if s.memsz > 0 {
      assert (s.vaddr + s.memsz - 1) / 4096 == s.vaddr / 4096 + (tail + s.memsz - 1) / 4096;
    }
  }

  lemma SameSplit(a: nat)
    ensures Split(PageStart(a)) == Split(a)
  {
    assert PageStart(a) / 4096 == a / 4096;
  }

  lemma SpanPages(v: nat, n: nat, j: nat)
    requires j < n
    ensures (v + j) / 4096 - v / 4096 < (n + v % 4096 + 4095) / 4096
  {
  }

  // ---- bytes in frames ----

  /** The bytes of the frames that are neither tables nor free, by frame and place. */
  type Bytes = map<(nat, nat), Byte>

  function Peek(b: Bytes, l: (nat, nat)): Byte {
    if l in b then b[l] else 0
  }

  /** Where the linear address `a` is. */
  function Loc(m: Ram, root: nat, a: nat): (nat, nat) {
    (Walk(m, root, Split(a)).address, a % 4096)
  }

  ghost predicate UserPage(m: Ram, root: nat, free: set<nat>, p: Page) {
    var w := Walk(m, root, p);
    w.present && w.writable && w.user && w.address !in free
  }

  /** The segment is in memory: user pages all over, with the promised bytes. */
  ghost predicate Loaded(m: Ram, root: nat, free: set<nat>, b: Bytes, s: Segment, file: seq<Byte>)
    requires InFile(s, file)
  {
    && (forall k | 0 <= k < |PagesOf(s)| :: UserPage(m, root, free, PagesOf(s)[k]))
    && (forall j: nat | j < s.memsz :: HasByte(m, root, b, s.vaddr + j, Content(s, file, j)))
  }

  predicate HasByte(m: Ram, root: nat, b: Bytes, a: nat, c: Byte) {
    Peek(b, Loc(m, root, a)) == c
  }

  /** No two bytes of the range share a place. */
  ghost predicate OneToOne(m: Ram, root: nat, at: nat, n: nat) {
    forall i, j :: OwnPlace(m, root, at, n, i, j)
  }

  predicate OwnPlace(m: Ram, root: nat, at: nat, n: nat, i: int, j: int) {
    0 <= i < j < n ==> Loc(m, root, at + i) != Loc(m, root, at + j)
  }

  /** Freshly backed pages hold the segment one to one. */
  lemma BackedOneToOne(m0: Ram, free0: set<nat>, m: Ram, free: set<nat>, root: nat, s: Segment, fs: seq<nat>)
    requires Backed(m0, free0, m, free, root, PagesOf(s), fs, true) && |fs| == |PagesOf(s)| && WINDOW !in PagesOf(s)
    ensures OneToOne(m, root, s.vaddr, s.memsz)
    ensures forall j: nat | j < s.memsz :: InFrames(m, root, fs, s.vaddr, j)
    ensures forall k | 0 <= k < |PagesOf(s)| :: UserPage(m, root, free, PagesOf(s)[k])
  {
    forall i: int, j: int
      ensures OwnPlace(m, root, s.vaddr, s.memsz, i, j)
    {
      if 0 <= i < j < s.memsz {
        var k := FrameOfByte(m0, free0, m, free, root, s, fs, i);
        var l := FrameOfByte(m0, free0, m, free, root, s, fs, j);
      }
    }
    forall j: nat | j < s.memsz
      ensures InFrames(m, root, fs, s.vaddr, j)
    {
      var k := FrameOfByte(m0, free0, m, free, root, s, fs, j);
    }
  }

  predicate InFrames(m: Ram, root: nat, fs: seq<nat>, at: nat, j: nat) {
    Loc(m, root, at + j).0 in fs
  }

  lemma FrameOfByte(m0: Ram, free0: set<nat>, m: Ram, free: set<nat>, root: nat, s: Segment, fs: seq<nat>, j: nat) returns (k: nat)
    requires Backed(m0, free0, m, free, root, PagesOf(s), fs, true) && |fs| == |PagesOf(s)| && WINDOW !in PagesOf(s)
    requires j < s.memsz
    ensures k == (s.vaddr + j) / 4096 - s.vaddr / 4096 < |fs| && Loc(m, root, s.vaddr + j) == (fs[k], (s.vaddr + j) % 4096)
  {
    k := PageOfByte(s, j);
    assert PagesOf(s)[k] in PagesOf(s);
  }

  /** Why segments must not share a page: a page loaded earlier and backed again leads to another frame,
      and its bytes are out of reach. */
  lemma SharedPageIsLost(m0: Ram, free0: set<nat>, m: Ram, free: set<nat>, root: nat, ps: seq<Page>, fs: seq<nat>, p: Page)
    requires Backed(m0, free0, m, free, root, ps, fs, true) && |fs| == |ps| && p in ps && p != WINDOW
    requires UserPage(m0, root, free0, p)
    ensures Walk(m, root, p).address in fs && Walk(m, root, p).address != Walk(m0, root, p).address
  {
    var k :| 0 <= k < |ps| && ps[k] == p;
    assert Walk(m, root, ps[k]) == TableDesc(fs[k], true);
  }

  /** A segment loaded earlier survives the backing of other pages and writes to their frames. */
  lemma LoadedStays(m0: Ram, free0: set<nat>, m: Ram, free: set<nat>, root: nat, s: Segment, fs: seq<nat>,
                    b0: Bytes, b: Bytes, t: Segment, file: seq<Byte>)
    requires Backed(m0, free0, m, free, root, PagesOf(s), fs, true) && |fs| == |PagesOf(s)|
    requires NoCommonPage(PagesOf(t), PagesOf(s)) && InFile(t, file) && Loaded(m0, root, free0, b0, t, file)
    requires forall l: (nat, nat) | l.0 !in fs :: Peek(b, l) == Peek(b0, l)
    ensures Loaded(m, root, free, b, t, file)
  {
    assert PagesOf(s)[..|fs|] == PagesOf(s);
    forall k | 0 <= k < |PagesOf(t)|
      ensures UserPage(m, root, free, PagesOf(t)[k])
    {
      assert UserPage(m0, root, free0, PagesOf(t)[k]);
      assert PagesOf(t)[k] !in PagesOf(s);
    }
    forall j: nat | j < t.memsz
      ensures HasByte(m, root, b, t.vaddr + j, Content(t, file, j))
    {
      var k := PageOfByte(t, j);
      assert UserPage(m0, root, free0, PagesOf(t)[k]) && PagesOf(t)[k] !in PagesOf(s);
      assert HasByte(m0, root, b0, t.vaddr + j, Content(t, file, j));
      assert Loc(m, root, t.vaddr + j) == Loc(m0, root, t.vaddr + j);
    }
  }

  ghost predicate NoCommonPage(ps: seq<Page>, qs: seq<Page>) {
    forall p | p in ps :: p !in qs
  }

  /** Loadable segments share no page with each other, and leave the window alone. */
  ghost predicate Separate(segs: seq<Segment>, file: seq<Byte>) {
    && (forall i | 0 <= i < |segs| && segs[i].load :: InFile(segs[i], file) && WINDOW !in PagesOf(segs[i]))
    && (forall i, j | 0 <= i < j < |segs| && segs[i].load && segs[j].load :: NoCommonPage(PagesOf(segs[i]), PagesOf(segs[j])))
  }

  /** The pages of the loadable segments. */
  ghost function AllPages(segs: seq<Segment>): seq<Page> {
    if segs == [] then [] else (if segs[0].load then PagesOf(segs[0]) else []) + AllPages(segs[1..])
  }

  /** The frames that loading takes: one for each page and one for each missing table. */
  ghost function Cost(m: Ram, root: nat, segs: seq<Segment>): nat {
    |AllPages(segs)| + |MissingIn(m, root, AllPages(segs))|
  }

  lemma {:induction false} MissingInFirst(m: Ram, root: nat, ps: seq<Page>, qs: seq<Page>)
    ensures MissingIn(m, root, ps) <= MissingIn(m, root, ps + qs)
  {
    if ps != [] {
      assert (ps + qs)[1..] == ps[1..] + qs;
      MissingInFirst(m, root, ps[1..], qs);
    }
  }

  /** The first segment can be paid for. */
  lemma FirstCost(m: Ram, root: nat, segs: seq<Segment>)
    requires segs != [] && segs[0].load
    ensures AllPages(segs) == PagesOf(segs[0]) + AllPages(segs[1..])
    ensures |PagesOf(segs[0])| + |MissingIn(m, root, PagesOf(segs[0]))| <= Cost(m, root, segs)
  {
    var a, b := MissingIn(m, root, PagesOf(segs[0])), MissingIn(m, root, AllPages(segs));
    MissingInFirst(m, root, PagesOf(segs[0]), AllPages(segs[1..]));
    assert b == a + (b - a);
  }

  /** `memset` and `memcpy` to linear addresses: the bytes `src` from `at` on. */
  method WriteRange(m: Ram, root: nat, b0: Bytes, at: nat, n: nat, src: seq<Byte>, ghost fs: seq<nat>) returns (b: Bytes)
    requires |src| <= n && OneToOne(m, root, at, n) && forall j: nat | j < n :: InFrames(m, root, fs, at, j)
    ensures forall j: nat | j < |src| :: Written(m, root, b, at, src, j)
    ensures forall j: nat | |src| <= j < n :: SameByte(m, root, b0, b, at, j)
    ensures forall l: (nat, nat) | l.0 !in fs :: Peek(b, l) == Peek(b0, l)
  {
    b := b0;
    var i := 0;
    while i < |src|
      invariant 0 <= i <= |src|
      invariant forall j: nat | j < i :: Written(m, root, b, at, src, j)
      invariant forall j: nat | i <= j < n :: SameByte(m, root, b0, b, at, j)
      invariant forall l: (nat, nat) | l.0 !in fs :: Peek(b, l) == Peek(b0, l)
    {
      ghost var was := b;
      assert InFrames(m, root, fs, at, i);
      b := b[Loc(m, root, at + i) := src[i]];
      forall j: nat | j < i
        ensures Written(m, root, b, at, src, j)
      {
        assert OwnPlace(m, root, at, n, j, i) && Written(m, root, was, at, src, j);
      }
      forall j: nat | i < j < n
        ensures SameByte(m, root, b0, b, at, j)
      {
        assert OwnPlace(m, root, at, n, i, j) && SameByte(m, root, b0, was, at, j);
      }
      i := i + 1;
    }
  }

  predicate Written(m: Ram, root: nat, b: Bytes, at: nat, src: seq<Byte>, j: nat)
    requires j < |src|
  {
    Peek(b, Loc(m, root, at + j)) == src[j]
  }

  predicate SameByte(m: Ram, root: nat, b: Bytes, b': Bytes, at: nat, j: nat) {
    Peek(b', Loc(m, root, at + j)) == Peek(b, Loc(m, root, at + j))
  }

  /** Zeros all over the segment, then its bytes from the file. */
  method FillSegment(m: Ram, root: nat, b0: Bytes, s: Segment, file: seq<Byte>, ghost fs: seq<nat>) returns (b: Bytes)
    requires InFile(s, file) && OneToOne(m, root, s.vaddr, s.memsz)
    requires forall j: nat | j < s.memsz :: InFrames(m, root, fs, s.vaddr, j)
    ensures forall j: nat | j < s.memsz :: HasByte(m, root, b, s.vaddr + j, Content(s, file, j))
    ensures forall l: (nat, nat) | l.0 !in fs :: Peek(b, l) == Peek(b0, l)
  {
    var zeros, data := seq<Byte>(s.memsz, _ => 0), file[s.offset..s.offset + s.filesz];
    var z := WriteRange(m, root, b0, s.vaddr, s.memsz, zeros, fs);
    b := WriteRange(m, root, z, s.vaddr, s.memsz, data, fs);
    forall j: nat | j < s.memsz
      ensures HasByte(m, root, b, s.vaddr + j, Content(s, file, j))
    {
      assert j < s.filesz ==> Written(m, root, b, s.vaddr, data, j);
      assert s.filesz <= j ==> Written(m, root, z, s.vaddr, zeros, j) && SameByte(m, root, z, b, s.vaddr, j);
    }
  }

  /** The pages from the first to the last byte of a segment. */
  function SpanCount(s: Segment): nat {
    if s.memsz > 0 then (s.vaddr + s.memsz - 1) / 4096 - s.vaddr / 4096 + 1 else if s.vaddr % 4096 != 0 then 1 else 0
  }

  /** No byte of a loadable segment lies in page `p`, nor does an empty one begin inside it. */
  ghost predicate Untouched(segs: seq<Segment>, p: Page) {
    forall i | 0 <= i < |segs| && segs[i].load ::
      && (forall a: nat | segs[i].vaddr <= a < segs[i].vaddr + segs[i].memsz :: p != Split(a))
      && (segs[i].memsz == 0 && segs[i].vaddr % 4096 != 0 ==> p != Split(segs[i].vaddr))
  }

  lemma UntouchedIsElsewhere(segs: seq<Segment>, p: Page)
    requires Untouched(segs, p)
    ensures Elsewhere(segs, |segs|, p)
  {
    forall i | 0 <= i < |segs| && segs[i].load
      ensures p !in PagesOf(segs[i])
    {
      if segs[i].memsz > 0 {
        PagesAreTouched(segs[i], p);
      } else {
        EmptySegment(segs[i]);
      }
    }
  }

  lemma EmptySegment(s: Segment)
    requires s.memsz == 0
    ensures PagesOf(s) == if s.vaddr % 4096 != 0 then [Split(s.vaddr)] else []
  {
    PageCount(s);
    SameSplit(s.vaddr);
    if s.vaddr % 4096 != 0 {
      assert RangeAddress(PageStart(s.vaddr), 0) == PageStart(s.vaddr);
    }
  }

  /** The pages that the loadable segments take, counted by their bytes. */
  ghost function TotalPages(segs: seq<Segment>): nat {
    if segs == [] then 0 else (if segs[0].load then SpanCount(segs[0]) else 0) + TotalPages(segs[1..])
  }

  lemma {:induction false} AllPagesCount(segs: seq<Segment>)
    ensures |AllPages(segs)| == TotalPages(segs)
  {
    if segs != [] {
      AllPagesCount(segs[1..]);
      PageCount(segs[0]);
    }
  }

  /** `p` is no page of the first `n` segments. */
  ghost predicate Elsewhere(segs: seq<Segment>, n: nat, p: Page)
    requires n <= |segs|
  {
    forall i | 0 <= i < n && segs[i].load :: p !in PagesOf(segs[i])
  }

  /** The first `n` program headers have been dealt with. */
  ghost predicate Progress(m0: Ram, m: Ram, root: nat, free: set<nat>, b: Bytes, segs: seq<Segment>, file: seq<Byte>, n: nat)
    requires Separate(segs, file) && n <= |segs|
  {
    && (forall i | 0 <= i < n && segs[i].load :: Loaded(m, root, free, b, segs[i], file))
    && (forall p | Elsewhere(segs, n, p) :: Walk(m, root, p) == Walk(m0, root, p))
    && Opened(m0, m, root, true) && Grown(m0, m, root)
  }

  lemma UntouchedStay(m0: Ram, m: Ram, root: nat, free: set<nat>, b: Bytes, segs: seq<Segment>, file: seq<Byte>)
    requires Separate(segs, file) && Progress(m0, m, root, free, b, segs, file, |segs|)
    ensures forall p | Untouched(segs, p) :: Walk(m, root, p) == Walk(m0, root, p)
  {
    forall p | Untouched(segs, p)
      ensures Walk(m, root, p) == Walk(m0, root, p)
    {
      UntouchedIsElsewhere(segs, p);
    }
  }

  /** Byte `a` of the address space, read through the tables. */
  function ByteAt(m: Ram, root: nat, b: Bytes, a: nat): Byte {
    Peek(b, (Walk(m, root, Split(a)).address, a % 4096))
  }

  /** The memory image of the loadable segments: their bytes in the file, then zeros, on user pages. */
  ghost predicate Image(m: Ram, root: nat, b: Bytes, segs: seq<Segment>, file: seq<Byte>) {
    forall i, a: nat | 0 <= i < |segs| && segs[i].load && segs[i].vaddr <= a < segs[i].vaddr + segs[i].memsz ::
      ImageByte(m, root, b, segs[i], file, a)
  }

  ghost predicate ImageByte(m: Ram, root: nat, b: Bytes, s: Segment, file: seq<Byte>, a: nat)
    requires s.vaddr <= a
  {
    var w, j := Walk(m, root, Split(a)), a - s.vaddr;
    && w.present && w.writable && w.user
    && (j < s.filesz ==> s.offset + j < |file| && ByteAt(m, root, b, a) == file[s.offset + j])
    && (j >= s.filesz ==> ByteAt(m, root, b, a) == 0)
  }

  lemma LoadedByte(m: Ram, root: nat, free: set<nat>, b: Bytes, s: Segment, file: seq<Byte>, a: nat)
    requires InFile(s, file) && Loaded(m, root, free, b, s, file) && s.vaddr <= a < s.vaddr + s.memsz
    ensures ImageByte(m, root, b, s, file, a)
  {
    var j: nat := a - s.vaddr;
    var k := PageOfByte(s, j);
    assert UserPage(m, root, free, PagesOf(s)[k]);
    assert HasByte(m, root, b, s.vaddr + j, Content(s, file, j));
  }

  lemma LoadedIsImage(m0: Ram, m: Ram, root: nat, free: set<nat>, b: Bytes, segs: seq<Segment>, file: seq<Byte>)
    requires Separate(segs, file) && Progress(m0, m, root, free, b, segs, file, |segs|)
    ensures Image(m, root, b, segs, file)
  {
    forall i, a: nat | 0 <= i < |segs| && segs[i].load && segs[i].vaddr <= a < segs[i].vaddr + segs[i].memsz
      ensures ImageByte(m, root, b, segs[i], file, a)
    {
      assert Loaded(m, root, free, b, segs[i], file);
      LoadedByte(m, root, free, b, segs[i], file, a);
    }
  }

  /** User mode reaches the pages of the loadable segments exactly where no older table stands in the way. */
  ghost predicate ReachedByUser(m0: Ram, m: Ram, root: nat, segs: seq<Segment>) {
    forall i, k | 0 <= i < |segs| && segs[i].load && 0 <= k < |PagesOf(segs[i])| ::
      UserReaches(m, root, PagesOf(segs[i])[k]) <==> UserPath(m0, root, PagesOf(segs[i])[k])
  }

  lemma LoadedIsReached(m0: Ram, m: Ram, root: nat, free: set<nat>, b: Bytes, segs: seq<Segment>, file: seq<Byte>)
    requires Tree(m, root) && Separate(segs, file) && Progress(m0, m, root, free, b, segs, file, |segs|)
    ensures ReachedByUser(m0, m, root, segs)
  {
    forall i, k | 0 <= i < |segs| && segs[i].load && 0 <= k < |PagesOf(segs[i])|
      ensures UserReaches(m, root, PagesOf(segs[i])[k]) <==> UserPath(m0, root, PagesOf(segs[i])[k])
    {
      assert Loaded(m, root, free, b, segs[i], file);
      assert UserPage(m, root, free, PagesOf(segs[i])[k]);
      UserReach(m0, m, root, PagesOf(segs[i])[k]);
    }
  }

  lemma EarlierStays(m: Ram, free: set<nat>, m': Ram, free': set<nat>, root: nat, b: Bytes, b': Bytes,
                     segs: seq<Segment>, file: seq<Byte>, n: nat, fs: seq<nat>, i: nat)
    requires Separate(segs, file) && i < n < |segs| && segs[n].load && segs[i].load && Loaded(m, root, free, b, segs[i], file)
    requires Backed(m, free, m', free', root, PagesOf(segs[n]), fs, true) && |fs| == |PagesOf(segs[n])|
    requires forall l: (nat, nat) | l.0 !in fs :: Peek(b', l) == Peek(b, l)
    ensures Loaded(m', root, free', b', segs[i], file)
  {
    LoadedStays(m, free, m', free', root, segs[n], fs, b, b', segs[i], file);
  }

  lemma ElsewhereStays(m0: Ram, m: Ram, free: set<nat>, m': Ram, free': set<nat>, root: nat, segs: seq<Segment>, n: nat, fs: seq<nat>)
    requires n < |segs| && segs[n].load && forall p | Elsewhere(segs, n, p) :: Walk(m, root, p) == Walk(m0, root, p)
    requires Backed(m, free, m', free', root, PagesOf(segs[n]), fs, true) && |fs| == |PagesOf(segs[n])|
    ensures forall p | Elsewhere(segs, n + 1, p) :: Walk(m', root, p) == Walk(m0, root, p)
  {
    assert PagesOf(segs[n])[..|fs|] == PagesOf(segs[n]);
    forall p | Elsewhere(segs, n + 1, p)
      ensures Walk(m', root, p) == Walk(m0, root, p)
    {
      assert Elsewhere(segs, n, p) && p !in PagesOf(segs[n]);
    }
  }

  lemma ProgressNext(m0: Ram, m: Ram, free: set<nat>, m': Ram, free': set<nat>, root: nat, b: Bytes, b': Bytes,
                     segs: seq<Segment>, file: seq<Byte>, n: nat, fs: seq<nat>)
    requires Separate(segs, file) && n < |segs| && segs[n].load && Progress(m0, m, root, free, b, segs, file, n)
    requires Backed(m, free, m', free', root, PagesOf(segs[n]), fs, true) && |fs| == |PagesOf(segs[n])|
    requires forall l: (nat, nat) | l.0 !in fs :: Peek(b', l) == Peek(b, l)
    requires Loaded(m', root, free', b', segs[n], file) && Opened(m, m', root, true) && Grown(m, m', root)
    ensures Progress(m0, m', root, free', b', segs, file, n + 1)
  {
    OpenedTwice(m0, m, m', root, true);
    ElsewhereStays(m0, m, free, m', free', root, segs, n, fs);
    forall i | 0 <= i < n && segs[i].load
      ensures Loaded(m', root, free', b', segs[i], file)
    {
      EarlierStays(m, free, m', free', root, b, b', segs, file, n, fs, i);
    }
  }

  lemma ProgressSkip(m0: Ram, m: Ram, root: nat, free: set<nat>, b: Bytes, segs: seq<Segment>, file: seq<Byte>, n: nat)
    requires Separate(segs, file) && n < |segs| && !segs[n].load && Progress(m0, m, root, free, b, segs, file, n)
    ensures Progress(m0, m, root, free, b, segs, file, n + 1)
  {
    forall p | Elsewhere(segs, n + 1, p)
      ensures Walk(m, root, p) == Walk(m0, root, p)
    {
      assert Elsewhere(segs, n, p);
    }
  }

  class Loader {
    const mmu: Mmu
    var bytes: Bytes

    constructor (m: Mmu, b: Bytes)
      ensures mmu == m && bytes == b
    {
      mmu, bytes := m, b;
    }

    /** One loadable segment; `later` pages are to be mapped after it. */
    method LoadSegment(s: Segment, file: seq<Byte>, ghost later: seq<Page>) returns (ghost fs: seq<nat>)
      requires mmu.Valid() && mmu.Closed() && InFile(s, file) && WINDOW !in PagesOf(s)
      requires |PagesOf(s)| + |MissingIn(mmu.mem, mmu.pml4, PagesOf(s))| <= |mmu.Free()|
      modifies this, mmu`mem, mmu.frames
      ensures mmu.Valid() && mmu.Closed()
      ensures Loaded(mmu.mem, mmu.pml4, mmu.Free(), bytes, s, file)
      ensures |fs| == |PagesOf(s)|
      ensures Backed(old(mmu.mem), old(mmu.Free()), mmu.mem, mmu.Free(), mmu.pml4, PagesOf(s), fs, true)
      ensures Opened(old(mmu.mem), mmu.mem, mmu.pml4, true) && Grown(old(mmu.mem), mmu.mem, mmu.pml4)
      ensures forall l: (nat, nat) | l.0 !in fs :: Peek(bytes, l) == Peek(old(bytes), l)
      ensures |mmu.Free()| - |MissingIn(mmu.mem, mmu.pml4, later)|
              == |old(mmu.Free())| - |PagesOf(s)| - |MissingIn(old(mmu.mem), mmu.pml4, PagesOf(s) + later)|
    {
      var tail := s.vaddr % 4096;
      fs := mmu.AllocPages(PageStart(s.vaddr), s.memsz + tail, true, PagesOf(s), later);
      BackedOneToOne(old(mmu.mem), old(mmu.Free()), mmu.mem, mmu.Free(), mmu.pml4, s, fs);
      bytes := FillSegment(mmu.mem, mmu.pml4, bytes, s, file, fs);
    }

    /** `elf64_load_stage3` in the address space of the global root: every loadable segment ends up in memory, no
        other page is touched, exactly the frames needed are used, and user mode reaches the segments as far as
        the tables that were there let it. */
    method LoadStage3(segs: seq<Segment>, file: seq<Byte>)
      requires mmu.Valid() && mmu.Closed() && Separate(segs, file) && Cost(mmu.mem, mmu.pml4, segs) <= |mmu.Free()|
      modifies this, mmu`mem, mmu.frames
      ensures mmu.Valid() && mmu.Closed()
      ensures Progress(old(mmu.mem), mmu.mem, mmu.pml4, mmu.Free(), bytes, segs, file, |segs|)
      ensures Image(mmu.mem, mmu.pml4, bytes, segs, file)
      ensures ReachedByUser(old(mmu.mem), mmu.mem, mmu.pml4, segs)
      ensures |mmu.Free()| == |old(mmu.Free())| - Cost(old(mmu.mem), mmu.pml4, segs)
      ensures |mmu.Free()| == |old(mmu.Free())| - TotalPages(segs) - |MissingIn(old(mmu.mem), mmu.pml4, AllPages(segs))|
      ensures forall p | Untouched(segs, p) :: Walk(mmu.mem, mmu.pml4, p) == Walk(old(mmu.mem), mmu.pml4, p)
    {
      ghost var m0, budget := mmu.mem, |mmu.Free()| - Cost(mmu.mem, mmu.pml4, segs);
      var i := 0;
      assert segs[0..] == segs;
      while i < |segs|
        invariant 0 <= i <= |segs| && mmu.Valid() && mmu.Closed() && |mmu.Free()| - Cost(mmu.mem, mmu.pml4, segs[i..]) == budget
        invariant Progress(m0, mmu.mem, mmu.pml4, mmu.Free(), bytes, segs, file, i)
      {
        LoadNext(segs, file, i, m0);
        i := i + 1;
      }
      LoadedIsReached(m0, mmu.mem, mmu.pml4, mmu.Free(), bytes, segs, file);
      LoadedIsImage(m0, mmu.mem, mmu.pml4, mmu.Free(), bytes, segs, file);
      AllPagesCount(segs);
      UntouchedStay(m0, mmu.mem, mmu.pml4, mmu.Free(), bytes, segs, file);
    }

    /** One round of it. */
    method LoadNext(segs: seq<Segment>, file: seq<Byte>, i: nat, ghost m0: Ram)
      requires mmu.Valid() && mmu.Closed() && Separate(segs, file) && i < |segs|
      requires Progress(m0, mmu.mem, mmu.pml4, mmu.Free(), bytes, segs, file, i) && Cost(mmu.mem, mmu.pml4, segs[i..]) <= |mmu.Free()|
      modifies this, mmu`mem, mmu.frames
      ensures mmu.Valid() && mmu.Closed() && Progress(m0, mmu.mem, mmu.pml4, mmu.Free(), bytes, segs, file, i + 1)
      ensures |mmu.Free()| - Cost(mmu.mem, mmu.pml4, segs[i + 1..]) == |old(mmu.Free())| - Cost(old(mmu.mem), mmu.pml4, segs[i..])
    {
      assert segs[i..][1..] == segs[i + 1..];
      if segs[i].load {
        ghost var m, free, b := mmu.mem, mmu.Free(), bytes;
        FirstCost(m, mmu.pml4, segs[i..]);
        ghost var fs := LoadSegment(segs[i], file, AllPages(segs[i + 1..]));
        ProgressNext(m0, m, free, mmu.mem, mmu.Free(), mmu.pml4, b, bytes, segs, file, i, fs);
      } else {
        assert AllPages(segs[i..]) == AllPages(segs[i + 1..]);
        ProgressSkip(m0, mmu.mem, mmu.pml4, mmu.Free(), bytes, segs, file, i);
      }
    }
  }
}
