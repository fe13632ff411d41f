/** The page mapper of mm/page.c over physical memory: every table is reached through one
    temporary window, slot 0 of the kernel page table. */
module AddressSpace {
  import opened PageTables
  import PhysMap

  /** What creating the table at `n`, if it is missing, adds to the tree. */
  ghost function Added(m: Ram, root: nat, n: Node): set<Node> {
    if TableAt(m, root, n) == None then {n} else {}
  }

  /** The tables on the way to page `l` that the tree does not have yet. */
  ghost function Missing(m: Ram, root: nat, l: Page): set<Node> {
    Added(m, root, Pdp(l.pml4)) + Added(m, root, Pd(l.pml4, l.pdp)) + Added(m, root, Pt(l.pml4, l.pdp, l.pd))
  }

  lemma MissingCost(m: Ram, root: nat, l: Page)
    ensures |Missing(m, root, l)| == |Added(m, root, Pdp(l.pml4))| + |Added(m, root, Pd(l.pml4, l.pdp))|
                                     + |Added(m, root, Pt(l.pml4, l.pdp, l.pd))|
  {
  }

  /** Frame `f` holds a table of the tree. */
  ghost predicate IsTable(m: Ram, root: nat, f: nat) {
    exists n :: TableAt(m, root, n) == Some(f)
  }

  /** How a mapping operation may change memory and the set of free frames: tables appear
      exactly at the nodes in `added`, one free frame each; no table moves; frames that are
      not tables keep their contents. */
  ghost predicate Extends(m: Ram, free: set<nat>, m': Ram, free': set<nat>, root: nat, added: set<Node>) {
    && |m'| == |m|
    && (forall n :: TableAt(m, root, n).Some? ==> TableAt(m', root, n) == TableAt(m, root, n))
    && (forall n :: TableAt(m', root, n).Some? <==> TableAt(m, root, n).Some? || n in added)
    && (forall n | n in added :: TableAt(m', root, n).Some? && TableAt(m', root, n).value in free - free')
    && free' <= free && |free'| == |free| - |added|
    && (forall f | 0 <= f < |m| && !IsTable(m', root, f) :: m'[f] == m[f])
  }

  lemma ExtendsTwice(m: Ram, free: set<nat>, m1: Ram, free1: set<nat>, m2: Ram, free2: set<nat>, root: nat,
                     s: set<Node>, t: set<Node>)
    requires Extends(m, free, m1, free1, root, s) && Extends(m1, free1, m2, free2, root, t) && s !! t
    ensures Extends(m, free, m2, free2, root, s + t)
  {
    assert |s + t| == |s| + |t|;
    forall f | 0 <= f < |m| && !IsTable(m2, root, f)
      ensures m2[f] == m[f]
    {
      assert forall n :: TableAt(m1, root, n) == Some(f) ==> TableAt(m2, root, n) == Some(f);
      assert !IsTable(m1, root, f);
    }
  }

  /** An operation inside an opened and closed window changes what it changes by itself. */
  lemma ThroughWindow(m: Ram, free: set<nat>, m1: Ram, m2: Ram, m3: Ram, free': set<nat>, root: nat, added: set<Node>)
    requires Extends(m, free, m1, free, root, {})
    requires Extends(m1, free, m2, free', root, added)
    requires Extends(m2, free', m3, free', root, {})
    ensures Extends(m, free, m3, free', root, added)
  {
    ExtendsTwice(m, free, m1, free, m2, free', root, {}, added);
    ExtendsTwice(m, free, m2, free', m3, free', root, {} + added, {});
    assert {} + added + {} == added;
  }

  lemma OpenedThrough(m: Ram, m1: Ram, m2: Ram, m3: Ram, root: nat, user: bool)
    requires Opened(m, m1, root, user) && Opened(m1, m2, root, user) && Opened(m2, m3, root, user)
    requires Grown(m, m1, root) && Grown(m1, m2, root) && Grown(m2, m3, root)
    ensures Opened(m, m3, root, user)
  {
    OpenedTwice(m, m1, m2, root, user);
    OpenedTwice(m, m2, m3, root, user);
  }

  /** What every operation keeps: the tables reachable from `root` are a tree that holds the
      kernel page table, none of them is a free frame, and free frames read as zero. */
  ghost predicate Sound(m: Ram, root: nat, kpt: nat, halves: seq<nat>) {
    && PhysMap.WellFormed(halves)
    && |m| == 32 * |halves| <= 0x1000_0000
    && Tree(m, root)
    && TableAt(m, root, KERNEL_PT) == Some(kpt)
    && (forall n :: TableAt(m, root, n).Some? ==> TableAt(m, root, n).value !in PhysMap.FreePages(halves))
    && (forall f | f in PhysMap.FreePages(halves) :: Zeroed(m[f]))
  }

  /** Taking frame `f` from the free ones and hanging it under the missing entry `i` of the
      directory at `n`. */
  lemma CreateTableSound(m: Ram, root: nat, kpt: nat, halves: seq<nat>, halves': seq<nat>, n: Node, i: nat, w: Word)
    requires Sound(m, root, kpt, halves) && Sound(m, root, kpt, halves') && !n.Pt? && i < 512
    requires TableAt(m, root, n).Some? && TableAt(m, root, Child(n, i)) == None
    requires w.address in PhysMap.FreePages(halves) && w.present
    requires PhysMap.FreePages(halves') == PhysMap.FreePages(halves) - {w.address}
    ensures var m' := Store(m, TableAt(m, root, n).value, i, w);
            && Sound(m', root, kpt, halves')
            && TableAt(m', root, Child(n, i)) == Some(w.address)
            && Extends(m, PhysMap.FreePages(halves), m', PhysMap.FreePages(halves'), root, {Child(n, i)})
            && forall p :: Walk(m', root, p) == Walk(m, root, p)
  {
    LinkTable(m, root, n, i, w);
    var m' := Store(m, TableAt(m, root, n).value, i, w);
    assert TableAt(m', root, n) == TableAt(m, root, n);
  }

  /** Storing into a page table keeps soundness and changes one translation. */
  lemma StoreLeafSound(m: Ram, root: nat, kpt: nat, halves: seq<nat>, l: Page, w: Word)
    requires Sound(m, root, kpt, halves) && l.pt < 512
    requires TableAt(m, root, Pt(l.pml4, l.pdp, l.pd)).Some?
    ensures var m' := Store(m, TableAt(m, root, Pt(l.pml4, l.pdp, l.pd)).value, l.pt, w);
            && Sound(m', root, kpt, halves)
            && Extends(m, PhysMap.FreePages(halves), m', PhysMap.FreePages(halves), root, {})
            && (forall n :: TableAt(m', root, n) == TableAt(m, root, n))
            && forall p :: Walk(m', root, p) == if p == l then w else Walk(m, root, p)
  {
    StoreLeaf(m, root, l.pml4, l.pdp, l.pd, l.pt, w);
    var m' := Store(m, TableAt(m, root, Pt(l.pml4, l.pdp, l.pd)).value, l.pt, w);
    assert TableAt(m', root, Pt(l.pml4, l.pdp, l.pd)) == TableAt(m, root, Pt(l.pml4, l.pdp, l.pd));
  }

  /** With `n` free frames, after `k` of the pages `ps`: what is left over once the rest of them is mapped was `x` at
      first, and `y` once the pages `later` are mapped too, a frame a page. */
  ghost predicate Paid(m: Ram, root: nat, n: nat, ps: seq<Page>, k: nat, later: seq<Page>, x: int, y: int) {
    && k <= |ps| && n - |MissingIn(m, root, ps[k..])| == x - k && n - |MissingIn(m, root, ps[k..] + later)| == y - k
  }

  lemma AllocStart(m: Ram, root: nat, halves: seq<nat>, addr: nat, ps: seq<Page>, c: nat, user: bool)
    requires IsRange(ps, addr, c) && c <= |PhysMap.FreePages(halves)| && 32 * |halves| <= 0x1000_0000
    ensures Distinct(ps) && Backed(m, PhysMap.FreePages(halves), m, PhysMap.FreePages(halves), root, ps, [], user)
    ensures Opened(m, m, root, user) && Grown(m, m, root)
  {
    PhysMap.FreePagesFit(halves);
    RangeIsDistinct(ps, addr, c);
  }

  lemma PaidStart(m: Ram, root: nat, n: nat, ps: seq<Page>, later: seq<Page>, x: int, y: int)
    requires x == n - |MissingIn(m, root, ps)| && y == n - |MissingIn(m, root, ps + later)|
    ensures Paid(m, root, n, ps, 0, later, x, y)
  {
    assert ps[0..] == ps;
  }

  lemma PaidAll(m: Ram, root: nat, n: nat, ps: seq<Page>, k: nat, later: seq<Page>, x: int, y: int)
    requires Paid(m, root, n, ps, k, later, x, y) && k == |ps|
    ensures n == x - |ps| && n - |MissingIn(m, root, later)| == y - |ps|
  {
    assert ps[k..] == [] && ps[k..] + later == later;
  }

  lemma PaidNext(m: Ram, free: set<nat>, m': Ram, free': set<nat>, root: nat, f: nat, ps: seq<Page>, k: nat, later: seq<Page>, x: int, y: int)
    requires k < |ps| && Paid(m, root, |free|, ps, k, later, x, y) && f in free
    requires Extends(m, free - {f}, m', free', root, Missing(m, root, ps[k]))
    ensures Paid(m', root, |free'|, ps, k + 1, later, x, y)
  {
    Tails(ps, k, later);
    HeadCost(m, free, m', free', root, f, ps[k..], ps[k + 1..]);
    HeadCost(m, free, m', free', root, f, ps[k..] + later, ps[k + 1..] + later);
  }

  lemma Tails<T>(ps: seq<T>, k: nat, later: seq<T>)
    requires k < |ps|
    ensures ps[k..] != [] && ps[k..][0] == ps[k] && ps[k..][1..] == ps[k + 1..]
    ensures ps[k..] + later != [] && (ps[k..] + later)[0] == ps[k] && (ps[k..] + later)[1..] == ps[k + 1..] + later
  {
  }

  lemma HeadCost(m: Ram, free: set<nat>, m': Ram, free': set<nat>, root: nat, f: nat, all: seq<Page>, rest: seq<Page>)
    requires f in free && all != [] && rest == all[1..] && Extends(m, free - {f}, m', free', root, Missing(m, root, all[0]))
    ensures |free'| - |MissingIn(m', root, rest)| == |free| - 1 - |MissingIn(m, root, all)|
  {
    CostOfTables(m, free - {f}, m', free', root, all);
  }

  /** A range has just enough pages. */
  lemma PagesCover(size: nat)
    ensures size <= 4096 * Pages(size) < size + 4096
  {
  }

  /** What `alloc_pages` has done once the first `|fs|` pages of `ps` have got the frames `fs`: the
      frames are distinct, were free, are zeroed and are no tables; the pages map to them, one
      to one; every other page translates as before. */
  ghost predicate Backed(m0: Ram, free0: set<nat>, m: Ram, free: set<nat>, root: nat,
                         ps: seq<Page>, fs: seq<nat>, user: bool) {
    && |m| == |m0| && free <= free0 && |fs| <= |ps|
    && Distinct(fs)
    && (forall k | 0 <= k < |fs| :: fs[k] in free0 && fs[k] !in free && fs[k] < |m|)
    && (forall k | 0 <= k < |fs| :: !IsTable(m, root, fs[k]) && Zeroed(m[fs[k]]))
    && (forall k | 0 <= k < |fs| :: Walk(m, root, ps[k]) == Mounted(ps[k], ps[k], TableDesc(fs[k], user), NULL))
    && (forall p | p !in ps[..|fs|] :: Walk(m, root, p) == Walk(m0, root, p))
  }

  lemma BackedShows(m0: Ram, free0: set<nat>, m: Ram, free: set<nat>, root: nat, ps: seq<Page>, fs: seq<nat>, user: bool)
    requires Backed(m0, free0, m, free, root, ps, fs, user)
    ensures forall k | 0 <= k < |fs| && ps[k] != WINDOW :: Plain(Walk(m, root, ps[k]), user) && Walk(m, root, ps[k]).address == fs[k]
  {
  }

  lemma BackedNext(m0: Ram, free0: set<nat>, m: Ram, free: set<nat>, m': Ram, free': set<nat>, root: nat,
                   ps: seq<Page>, fs: seq<nat>, f: nat, user: bool)
    requires Backed(m0, free0, m, free, root, ps, fs, user) && |fs| < |ps| && Distinct(ps)
    requires f in free && f < |m'| && !IsTable(m', root, f) && Zeroed(m'[f])
    requires forall q :: Walk(m', root, q) == Mounted(q, ps[|fs|], TableDesc(f, user), Walk(m, root, q))
    requires Extends(m, free - {f}, m', free', root, Missing(m, root, ps[|fs|]))
    ensures Backed(m0, free0, m', free', root, ps, fs + [f], user)
  {
    var gs := fs + [f];
    forall k | 0 <= k < |gs|
      ensures !IsTable(m', root, gs[k]) && Zeroed(m'[gs[k]])
    {
      if k < |fs| {
        DataStays(m, free - {f}, m', free', root, Missing(m, root, ps[|fs|]), fs[k]);
      }
    }
    forall k | 0 <= k < |gs|
      ensures Walk(m', root, ps[k]) == Mounted(ps[k], ps[k], TableDesc(gs[k], user), NULL)
    {
      if k < |fs| {
        assert ps[k] != ps[|fs|] && gs[k] == fs[k];
      }
    }
    forall p | p !in ps[..|gs|]
      ensures Walk(m', root, p) == Walk(m0, root, p)
    {
      assert ps[..|gs|][|fs|] == ps[|fs|] && ps[..|gs|][..|fs|] == ps[..|fs|];
    }
  }

  /** What the first page needs is part of what the range needs. */
  lemma CostHead(m: Ram, root: nat, ps: seq<Page>)
    requires ps != []
    ensures |Missing(m, root, ps[0])| <= |MissingIn(m, root, ps)|
  {
    var a, b := Missing(m, root, ps[0]), MissingIn(m, root, ps);
    assert b == a + (b - a);
  }

  /** The frames one round takes for tables are those the rest of the range no longer needs. */
  lemma CostOfTables(m: Ram, free: set<nat>, m': Ram, free': set<nat>, root: nat, ps: seq<Page>)
    requires ps != [] && Extends(m, free, m', free', root, Missing(m, root, ps[0]))
    ensures |free'| - |MissingIn(m', root, ps[1..])| == |free| - |MissingIn(m, root, ps)|
  {
    LessMissing(m, free, m', free', root, Missing(m, root, ps[0]), ps[1..]);
    var a, b := Missing(m, root, ps[0]), MissingIn(m, root, ps[1..]);
    assert |a + b| == |a| + |b - a| by {
      assert a + b == a + (b - a);
    }
  }

  /** What `remap_pages` has done after `n` rounds: the frame behind each old page is behind the new
      one, the old descriptors are no longer present, and no other page is disturbed. */
  ghost predicate Moved(m0: Ram, m: Ram, root: nat, kpt: nat, os: seq<Page>, ns: seq<Page>, n: nat) {
    && n <= |os| == |ns|
    && (forall k | 0 <= k < n :: Walk(m, root, os[k]) == Absent(Walk(m0, root, os[k])))
    && (forall k | 0 <= k < n ::
          Walk(m, root, ns[k]) == Mounted(ns[k], ns[k], CalcPage(Taken(m0, root, kpt, os[k]).address), NULL))
    && (forall p | p !in os[..n] && p !in ns[..n] :: Walk(m, root, p) == Walk(m0, root, p))
  }

  /** A finished remapping: the old pages are as they were but not present; each new page has a plain descriptor of the
      frame behind its old page; every other page is as it was. */
  ghost predicate Remapped(m0: Ram, m: Ram, root: nat, os: seq<Page>, ns: seq<Page>) {
    && |os| == |ns|
    && (forall k | 0 <= k < |os| :: Walk(m, root, os[k]) == Walk(m0, root, os[k]).(present := false))
    && (forall k | 0 <= k < |os| && ns[k] != WINDOW && os[k] != WINDOW ::
          Plain(Walk(m, root, ns[k]), false) && Walk(m, root, ns[k]).address == Walk(m0, root, os[k]).address)
    && (forall p | p !in os && p !in ns :: Walk(m, root, p) == Walk(m0, root, p))
  }

  lemma MovedShows(m0: Ram, m: Ram, root: nat, kpt: nat, os: seq<Page>, ns: seq<Page>)
    requires Moved(m0, m, root, kpt, os, ns, |os|)
    ensures Remapped(m0, m, root, os, ns)
  {
    assert os[..|os|] == os && ns[..|os|] == ns;
  }

  /** What `umount_page` returns for page `l`. */
  function Taken(m: Ram, root: nat, kpt: nat, l: Page): Word {
    if l == WINDOW then CalcPage(kpt) else Walk(m, root, l)
  }

  ghost predicate MoveStep(m: Ram, m': Ram, root: nat, kpt: nat, o: Page, n: Page) {
    forall p :: Walk(m', root, p) ==
                if p == n then Mounted(n, n, CalcPage(Taken(m, root, kpt, o).address), NULL)
                else if p == o then Absent(Walk(m, root, p))
                else Walk(m, root, p)
  }

  ghost predicate PageDisjoint(os: seq<Page>, ns: seq<Page>) {
    Distinct(os) && Distinct(ns) && forall j, k | 0 <= j < |os| && 0 <= k < |ns| :: os[j] != ns[k]
  }

  lemma MovedOld(m0: Ram, m: Ram, m': Ram, root: nat, kpt: nat, os: seq<Page>, ns: seq<Page>, n: nat, k: nat)
    requires Moved(m0, m, root, kpt, os, ns, n) && k <= n < |os| && PageDisjoint(os, ns)
    requires MoveStep(m, m', root, kpt, os[n], ns[n])
    ensures Walk(m', root, os[k]) == Absent(Walk(m0, root, os[k]))
  {
    assert os[k] != ns[n];
    UntouchedBefore(m0, m, root, kpt, os, ns, n);
  }

  lemma MovedNew(m0: Ram, m: Ram, m': Ram, root: nat, kpt: nat, os: seq<Page>, ns: seq<Page>, n: nat, k: nat)
    requires Moved(m0, m, root, kpt, os, ns, n) && k <= n < |os| && PageDisjoint(os, ns)
    requires MoveStep(m, m', root, kpt, os[n], ns[n])
    ensures Walk(m', root, ns[k]) == Mounted(ns[k], ns[k], CalcPage(Taken(m0, root, kpt, os[k]).address), NULL)
  {
    assert os[n] != ns[k];
    UntouchedBefore(m0, m, root, kpt, os, ns, n);
  }

  lemma MovedNext(m0: Ram, m: Ram, m': Ram, root: nat, kpt: nat, os: seq<Page>, ns: seq<Page>, n: nat)
    requires Moved(m0, m, root, kpt, os, ns, n) && n < |os| && PageDisjoint(os, ns)
    requires MoveStep(m, m', root, kpt, os[n], ns[n])
    ensures Moved(m0, m', root, kpt, os, ns, n + 1)
  {
    forall k | 0 <= k < n + 1
      ensures Walk(m', root, os[k]) == Absent(Walk(m0, root, os[k]))
    {
      MovedOld(m0, m, m', root, kpt, os, ns, n, k);
    }
    forall k | 0 <= k < n + 1
      ensures Walk(m', root, ns[k]) == Mounted(ns[k], ns[k], CalcPage(Taken(m0, root, kpt, os[k]).address), NULL)
    {
      MovedNew(m0, m, m', root, kpt, os, ns, n, k);
    }
    forall p | p !in os[..n + 1] && p !in ns[..n + 1]
      ensures Walk(m', root, p) == Walk(m0, root, p)
    {
      MovedOther(m0, m, m', root, kpt, os, ns, n, p);
    }
  }

  lemma MovedOther(m0: Ram, m: Ram, m': Ram, root: nat, kpt: nat, os: seq<Page>, ns: seq<Page>, n: nat, p: Page)
    requires Moved(m0, m, root, kpt, os, ns, n) && n < |os| && MoveStep(m, m', root, kpt, os[n], ns[n])
    requires p !in os[..n + 1] && p !in ns[..n + 1]
    ensures Walk(m', root, p) == Walk(m0, root, p)
  {
    assert os[..n + 1] == os[..n] + [os[n]] && ns[..n + 1] == ns[..n] + [ns[n]];
  }

  lemma UntouchedBefore(m0: Ram, m: Ram, root: nat, kpt: nat, os: seq<Page>, ns: seq<Page>, n: nat)
    requires Moved(m0, m, root, kpt, os, ns, n) && n < |os| && PageDisjoint(os, ns)
    ensures Walk(m, root, os[n]) == Walk(m0, root, os[n])
  {
    assert os[n] !in os[..n] && os[n] !in ns[..n];
  }

  /** The translation of page `p` after `w` has been mounted at page `l`: the window page alone
      cannot be mapped, because closing the window clears its slot. */
  function Mounted(p: Page, l: Page, w: Word, before: Word): Word {
    if p != l then before else if p == WINDOW then NULL else w
  }

  /** `umount_page` clears the present bit and leaves the rest of the descriptor. */
  function Absent(w: Word): Word {
    w.(present := false)
  }

  /** A frame that is neither a table nor free never becomes a table, and keeps its contents. */
  lemma DataStays(m: Ram, free: set<nat>, m': Ram, free': set<nat>, root: nat, added: set<Node>, f: nat)
    requires Extends(m, free, m', free', root, added) && f < |m| && !IsTable(m, root, f) && f !in free
    ensures !IsTable(m', root, f) && m'[f] == m[f]
  {
    forall n
      ensures TableAt(m', root, n) != Some(f)
    {
      assert TableAt(m, root, n) != Some(f);
    }
  }

  /** The number of pages in `size` bytes. */
  function Pages(size: nat): nat {
    (size + 4095) / 4096
  }

  /** `ps` lists the pages of the range of `c` pages at `addr`. */
  ghost predicate IsRange(ps: seq<Page>, addr: nat, c: nat) {
    |ps| == c && forall k: nat {:trigger RangeAddress(addr, k)} | k < c :: ps[k] == Split(RangeAddress(addr, k))
  }

  function RangeAddress(addr: nat, k: nat): nat {
    addr + 4096 * k
  }

  ghost predicate Distinct<T>(s: seq<T>) {
    forall j, k | 0 <= j < k < |s| :: s[j] != s[k]
  }

  lemma PageNumberInRange(addr: nat, k: nat)
    ensures PageNo(RangeAddress(addr, k)) == (addr / 4096 + k) % 0x10_0000_0000
  {
    assert (addr + 4096 * k) / 4096 == addr / 4096 + k;
  }

  lemma SameResidue(x: nat, j: nat, k: nat)
    requires j < k < 0x10_0000_0000
    ensures (x + j) % 0x10_0000_0000 != (x + k) % 0x10_0000_0000
  {
  }

  lemma DistinctAddresses(addr: nat, j: nat, k: nat)
    requires j < k < 0x10_0000_0000
    ensures Split(RangeAddress(addr, j)) != Split(RangeAddress(addr, k))
  {
    PageNumberInRange(addr, j);
    PageNumberInRange(addr, k);
    SameResidue(addr / 4096, j, k);
    SplitIsPageNo(RangeAddress(addr, j), RangeAddress(addr, k));
  }

  /** The pages of a range that does not wrap around the address space are distinct. */
  lemma RangeIsDistinct(ps: seq<Page>, addr: nat, c: nat)
    requires IsRange(ps, addr, c) && c < 0x10_0000_0000
    ensures Distinct(ps)
  {
    forall j, k | 0 <= j < k < |ps|
      ensures ps[j] != ps[k]
    {
      DistinctAddresses(addr, j, k);
    }
  }

  /** The pages of a page-aligned range are exactly those its bytes lie in. */
  lemma RangeIsTouched(ps: seq<Page>, addr: nat, size: nat, p: Page)
    requires IsRange(ps, addr, Pages(size)) && addr % 4096 == 0
    ensures p in ps <==> exists a: nat :: addr <= a < addr + size && p == Split(a)
  {
    if p in ps {
      var k: nat :| k < |ps| && ps[k] == p;
      assert addr + 4096 * k == RangeAddress(addr, k);
    }
    forall a: nat | addr <= a < addr + size && p == Split(a)
      ensures p in ps
    {
      var k := (a - addr) / 4096;
      SamePage(addr, a - addr, k);
      assert ps[k] == Split(RangeAddress(addr, k));
    }
  }

  lemma SamePage(addr: nat, j: nat, k: nat)
    requires addr % 4096 == 0 && k == j / 4096
    ensures Split(addr + j) == Split(RangeAddress(addr, k))
  {
    assert (addr + j) / 4096 == addr / 4096 + k == RangeAddress(addr, k) / 4096;
  }

  /** The indices of the address `addr + i` that the loop has reached. */
  method PageOfRange(ghost ps: seq<Page>, addr: nat, i: nat, ghost k: nat, ghost c: nat) returns (l: Page)
    requires IsRange(ps, addr, c) && k < c && i == 4096 * k
    ensures l == ps[k] && InRange(l)
  {
    assert addr + i == RangeAddress(addr, k);
    SplitDigits(addr + i);
    l := Split(addr + i);
  }

  /** The tables missing for the pages `ps`. */
  ghost function MissingIn(m: Ram, root: nat, ps: seq<Page>): set<Node> {
    if ps == [] then {} else Missing(m, root, ps[0]) + MissingIn(m, root, ps[1..])
  }

  lemma LessAdded(m: Ram, free: set<nat>, m': Ram, free': set<nat>, root: nat, added: set<Node>, n: Node)
    requires Extends(m, free, m', free', root, added)
    ensures Added(m', root, n) == Added(m, root, n) - added
  {
    assert TableAt(m', root, n).Some? <==> TableAt(m, root, n).Some? || n in added;
  }

  lemma SameMissing(m: Ram, free: set<nat>, m': Ram, free': set<nat>, root: nat, l: Page)
    requires Extends(m, free, m', free', root, {})
    ensures Missing(m', root, l) == Missing(m, root, l)
  {
    LessAdded(m, free, m', free', root, {}, Pdp(l.pml4));
    LessAdded(m, free, m', free', root, {}, Pd(l.pml4, l.pdp));
    LessAdded(m, free, m', free', root, {}, Pt(l.pml4, l.pdp, l.pd));
  }

  lemma {:induction false} LessMissing(m: Ram, free: set<nat>, m': Ram, free': set<nat>, root: nat, added: set<Node>,
                                       ps: seq<Page>)
    requires Extends(m, free, m', free', root, added)
    ensures MissingIn(m', root, ps) == MissingIn(m, root, ps) - added
  {
    if ps != [] {
      LessMissing(m, free, m', free', root, added, ps[1..]);
      LessAdded(m, free, m', free', root, added, Pdp(ps[0].pml4));
      LessAdded(m, free, m', free', root, added, Pd(ps[0].pml4, ps[0].pdp));
      LessAdded(m, free, m', free', root, added, Pt(ps[0].pml4, ps[0].pdp, ps[0].pd));
    }
  }

  class Mmu {
    const pml4: nat
    const kernel_pt: nat
    const frames: PhysMap.Bitmap
    var mem: Ram

    ghost predicate Valid()
      reads this, frames
    {
      Sound(mem, pml4, kernel_pt, frames.ph_map)
    }

    /** Nothing is mounted in the window. */
    ghost predicate Closed()
      reads this
    {
      Walk(mem, pml4, WINDOW) == NULL
    }

    ghost function Free(): set<nat>
      reads this, frames
    {
      frames.Free()
    }

    /** Any sound memory image is a possible start. */
    constructor (m: Ram, root: nat, kpt: nat, bitmap: PhysMap.Bitmap)
      requires Sound(m, root, kpt, bitmap.ph_map)
      ensures Valid() && mem == m && pml4 == root && kernel_pt == kpt && frames == bitmap
    {
      mem, pml4, kernel_pt, frames := m, root, kpt, bitmap;
    }

    /** Writing slot 0 of the kernel page table. */
    method SetWindow(w: Word)
      requires Valid()
      modifies this`mem
      ensures Valid() && mem == Store(old(mem), kernel_pt, 0, w)
      ensures Extends(old(mem), Free(), mem, Free(), pml4, {}) && Opened(old(mem), mem, pml4, true) && Opened(old(mem), mem, pml4, false)
      ensures forall p :: Walk(mem, pml4, p) == if p == WINDOW then w else Walk(old(mem), pml4, p)
    {
      StoreLeafSound(mem, pml4, kernel_pt, frames.ph_map, WINDOW, w);
      LeafKeepsLinks(mem, pml4, 511, 511, 0, 0, w, true);
      LeafKeepsLinks(mem, pml4, 511, 511, 0, 0, w, false);
      mem := Store(mem, kernel_pt, 0, w);
    }

    /** `mount_page_t`. */
    method MountT(frame: nat)
      requires Valid()
      modifies this`mem
      ensures Valid() && mem == Store(old(mem), kernel_pt, 0, CalcPage(frame))
      ensures Plain(mem[kernel_pt][0], false) && mem[kernel_pt][0].address == frame
      ensures Extends(old(mem), Free(), mem, Free(), pml4, {}) && Opened(old(mem), mem, pml4, true) && Opened(old(mem), mem, pml4, false)
      ensures forall p :: Walk(mem, pml4, p) == if p == WINDOW then CalcPage(frame) else Walk(old(mem), pml4, p)
    {
      SetWindow(CalcPage(frame));
    }

    /** `umount_page_t`. */
    method UmountT()
      requires Valid()
      modifies this`mem
      ensures Valid() && Closed() && mem == Store(old(mem), kernel_pt, 0, NULL)
      ensures Extends(old(mem), Free(), mem, Free(), pml4, {}) && Opened(old(mem), mem, pml4, true) && Opened(old(mem), mem, pml4, false)
      ensures forall p | p != WINDOW :: Walk(mem, pml4, p) == Walk(old(mem), pml4, p)
    {
      SetWindow(NULL);
    }

    /** `create_page`: the lowest free frame (its descriptor is `CalcPage` of it). */
    method CreatePage() returns (f: nat)
      requires Valid() && |Free()| > 0
      modifies frames
      ensures Valid()
      ensures f in old(Free()) && forall g | g in old(Free()) :: f <= g
      ensures Free() == old(Free()) - {f}
    {
      var addr := frames.AllocPhysPage();
      f := addr / 4096;
    }

    /** Create the table that entry `i` of the directory in frame `t` should lead to. */
    method CreateTable(ghost n: Node, t: nat, i: nat, user: bool) returns (h: Word)
      requires Valid() && !n.Pt? && i < 512
      requires TableAt(mem, pml4, n) == Some(t) && TableAt(mem, pml4, Child(n, i)) == None
      requires |Free()| > 0
      modifies this`mem, frames
      ensures Valid() && TableAt(mem, pml4, Child(n, i)) == Some(h.address)
      ensures Extends(old(mem), old(Free()), mem, Free(), pml4, {Child(n, i)}) && Opened(old(mem), mem, pml4, user)
      ensures forall p :: Walk(mem, pml4, p) == Walk(old(mem), pml4, p)
    {
      var f := CreatePage();
      h := TableDesc(f, user);
      CreateTableSound(mem, pml4, kernel_pt, old(frames.ph_map), frames.ph_map, n, i, h);
      LinkOpens(mem, pml4, n, i, h);
      mem := Store(mem, t, i, h);
    }

    /** The part of a level between opening and closing the window, in which the directory is in frame `t`. */
    method EnsureTable(ghost n: Node, t: nat, i: nat, user: bool) returns (h: Word)
      requires Valid() && !n.Pt? && i < 512 && TableAt(mem, pml4, n) == Some(t)
      requires |Added(mem, pml4, Child(n, i))| <= |Free()|
      modifies this`mem, frames
      ensures Valid() && TableAt(mem, pml4, Child(n, i)) == Some(h.address)
      ensures Extends(old(mem), old(Free()), mem, Free(), pml4, Added(old(mem), pml4, Child(n, i)))
      ensures Opened(old(mem), mem, pml4, user)
      ensures forall p :: Walk(mem, pml4, p) == Walk(old(mem), pml4, p)
    {
      h := mem[t][i];
      assert h == Entry(mem, TableAt(mem, pml4, n), i);
      if h == NULL {
        h := CreateTable(n, t, i, user);
      }
    }

    /** One level of `mount_page_do`: read entry `i` of the directory in frame `dir` through the
        window and create the table it should lead to if it is missing. */
    method Descend(ghost n: Node, dir: nat, i: nat, user: bool) returns (h: Word)
      requires Valid() && Closed() && !n.Pt? && i < 512
      requires TableAt(mem, pml4, n) == Some(dir)
      requires |Added(mem, pml4, Child(n, i))| <= |Free()|
      modifies this`mem, frames
      ensures Valid() && Closed() && TableAt(mem, pml4, Child(n, i)) == Some(h.address)
      ensures Extends(old(mem), old(Free()), mem, Free(), pml4, Added(old(mem), pml4, Child(n, i)))
      ensures Opened(old(mem), mem, pml4, user)
      ensures forall p :: Walk(mem, pml4, p) == Walk(old(mem), pml4, p)
    {
      MountT(dir);
      ghost var m1 := mem;
      assert Added(m1, pml4, Child(n, i)) == Added(old(mem), pml4, Child(n, i));
      h := EnsureTable(n, mem[kernel_pt][0].address, i, user);
      ghost var m2 := mem;
      UmountT();
      ThroughWindow(old(mem), old(Free()), m1, m2, mem, Free(), pml4, Added(old(mem), pml4, Child(n, i)));
      OpenedThrough(old(mem), m1, m2, mem, pml4, user);
    }

    /** The three directory levels of `mount_page_do`: afterwards the page table of `l` exists. */
    method OpenPath(l: Page, user: bool) returns (h: Word)
      requires Valid() && Closed() && InRange(l)
      requires |Missing(mem, pml4, l)| <= |Free()|
      modifies this`mem, frames
      ensures Valid() && Closed()
      ensures TableAt(mem, pml4, Pt(l.pml4, l.pdp, l.pd)) == Some(h.address)
      ensures Extends(old(mem), old(Free()), mem, Free(), pml4, Missing(old(mem), pml4, l)) && Opened(old(mem), mem, pml4, user)
      ensures forall p :: Walk(mem, pml4, p) == Walk(old(mem), pml4, p)
    {
      ghost var m0, free0 := mem, Free();
      ghost var a, b, c := Added(m0, pml4, Pdp(l.pml4)), Added(m0, pml4, Pd(l.pml4, l.pdp)), Added(m0, pml4, Pt(l.pml4, l.pdp, l.pd));
      MissingCost(m0, pml4, l);
      h := Descend(Root, pml4, l.pml4, user);
      ghost var m1, free1 := mem, Free();
      assert Added(m1, pml4, Pd(l.pml4, l.pdp)) == b;
      h := Descend(Pdp(l.pml4), h.address, l.pdp, user);
      ghost var m2, free2 := mem, Free();
      ExtendsTwice(m0, free0, m1, free1, m2, free2, pml4, a, b);
      assert Added(m2, pml4, Pt(l.pml4, l.pdp, l.pd)) == c;
      h := Descend(Pd(l.pml4, l.pdp), h.address, l.pd, user);
      ExtendsTwice(m0, free0, m2, free2, mem, Free(), pml4, a + b, c);
      OpenedThrough(m0, m1, m2, mem, pml4, user);
    }

    /** Storing entry `l.pt` of the page table in frame `t` through the window. */
    method StoreThroughWindow(l: Page, t: nat, w: Word)
      requires Valid() && Closed() && l.pt < 512
      requires TableAt(mem, pml4, Pt(l.pml4, l.pdp, l.pd)) == Some(t)
      modifies this`mem
      ensures Valid() && Closed()
      ensures Extends(old(mem), Free(), mem, Free(), pml4, {}) && Opened(old(mem), mem, pml4, w.user)
      ensures forall p :: Walk(mem, pml4, p) == Mounted(p, l, w, Walk(old(mem), pml4, p))
    {
      MountT(t);
      ghost var m1 := mem;
      assert TableAt(mem, pml4, Pt(l.pml4, l.pdp, l.pd)) == Some(t);
      StoreLeafSound(mem, pml4, kernel_pt, frames.ph_map, l, w);
      LeafKeepsLinks(mem, pml4, l.pml4, l.pdp, l.pd, l.pt, w, w.user);
      mem := Store(mem, mem[kernel_pt][0].address, l.pt, w);
      ghost var m2 := mem;
      UmountT();
      ThroughWindow(old(mem), Free(), m1, m2, mem, Free(), pml4, {});
      OpenedThrough(old(mem), m1, m2, mem, pml4, w.user);
    }

    /** `mount_page_do` for the page with the indices `l`: it now translates to `ph` and every other
        page as before. The tables missing on the way, and nothing else, are taken from the free
        frames. */
    method MountAt(l: Page, ph: Word)
      requires Valid() && Closed() && InRange(l)
      requires |Missing(mem, pml4, l)| <= |Free()|
      modifies this`mem, frames
      ensures Valid() && Closed()
      ensures forall p :: Walk(mem, pml4, p) == Mounted(p, l, ph, Walk(old(mem), pml4, p))
      ensures Walk(mem, pml4, l) == (if l == Page(511, 511, 0, 0) then NULL else ph)
      ensures forall p | p != l :: Walk(mem, pml4, p) == Walk(old(mem), pml4, p)
      ensures Extends(old(mem), old(Free()), mem, Free(), pml4, Missing(old(mem), pml4, l)) && Opened(old(mem), mem, pml4, ph.user)
    {
      var h := OpenPath(l, ph.user);
      ghost var m1, added := mem, Missing(old(mem), pml4, l);
      StoreThroughWindow(l, h.address, ph);
      ExtendsTwice(old(mem), old(Free()), m1, Free(), mem, Free(), pml4, added, {});
      assert added + {} == added;
      OpenedTwice(old(mem), m1, mem, pml4, ph.user);
    }

    /** `mount_page_do`. */
    method MountPageDo(va: nat, ph: Word)
      requires Valid() && Closed()
      requires |Missing(mem, pml4, Split(va))| <= |Free()|
      modifies this`mem, frames
      ensures Valid() && Closed()
      ensures forall p :: Walk(mem, pml4, p) == Mounted(p, Split(va), ph, Walk(old(mem), pml4, p))
      ensures Split(va) != WINDOW ==> Walk(mem, pml4, Split(va)) == ph
      ensures Extends(old(mem), old(Free()), mem, Free(), pml4, Missing(old(mem), pml4, Split(va)))
    {
      SplitDigits(va);
      MountAt(Split(va), ph);
    }

    /** One read through the window: entry `i` of the table at `n`. */
    method ReadThroughWindow(ghost n: Node, t: nat, i: nat) returns (w: Word)
      requires Valid() && Closed() && TableAt(mem, pml4, n) == Some(t) && i < 512
      modifies this`mem
      ensures Valid() && mem == old(mem)
      ensures w == if n == KERNEL_PT && i == 0 then CalcPage(kernel_pt) else Entry(mem, TableAt(mem, pml4, n), i)
    {
      assert Apart(mem, pml4, n, KERNEL_PT);
      MountT(t);
      w := mem[mem[kernel_pt][0].address][i];
      UmountT();
      assert mem[kernel_pt] == old(mem[kernel_pt]);
    }

    /** The page table of `l`, found level by level through the window. */
    method FindPageTable(l: Page) returns (t: Option<nat>)
      requires Valid() && Closed() && InRange(l)
      modifies this`mem
      ensures Valid() && mem == old(mem)
      ensures t == TableAt(mem, pml4, Pt(l.pml4, l.pdp, l.pd))
    {
      var w := ReadThroughWindow(Root, pml4, l.pml4);
      if w == NULL {
        return None;
      }
      w := ReadThroughWindow(Pdp(l.pml4), w.address, l.pdp);
      if w == NULL {
        return None;
      }
      w := ReadThroughWindow(Pd(l.pml4, l.pdp), w.address, l.pd);
      if w == NULL {
        return None;
      }
      return Some(w.address);
    }

    /** Reading entry `l.pt` of the page table in frame `t` and clearing its present bit, in one
        opening of the window. */
    method ClearThroughWindow(l: Page, t: nat) returns (ret: Word)
      requires Valid() && Closed() && l.pt < 512
      requires TableAt(mem, pml4, Pt(l.pml4, l.pdp, l.pd)) == Some(t)
      modifies this`mem
      ensures Valid() && Closed()
      ensures ret == if l == WINDOW then CalcPage(kernel_pt) else Walk(old(mem), pml4, l)
      ensures Extends(old(mem), Free(), mem, Free(), pml4, {})
      ensures forall p :: Walk(mem, pml4, p) == Mounted(p, l, Absent(Walk(old(mem), pml4, l)), Walk(old(mem), pml4, p))
    {
      MountT(t);
      ghost var m1 := mem;
      assert TableAt(m1, pml4, Pt(l.pml4, l.pdp, l.pd)) == Some(t);
      ret := mem[mem[kernel_pt][0].address][l.pt];
      assert ret == Walk(m1, pml4, l);
      StoreLeafSound(mem, pml4, kernel_pt, frames.ph_map, l, Absent(ret));
      mem := Store(mem, mem[kernel_pt][0].address, l.pt, Absent(ret));
      ghost var m2 := mem;
      UmountT();
      ThroughWindow(old(mem), Free(), m1, m2, mem, Free(), pml4, {});
    }

    /** `umount_page` for the page with the indices `l`: its descriptor, or null when a level is
        missing; the present bit is cleared. */
    method UmountAt(l: Page) returns (ret: Word)
      requires Valid() && Closed() && InRange(l)
      modifies this`mem
      ensures Valid() && Closed()
      ensures ret == if l == WINDOW then CalcPage(kernel_pt) else Walk(old(mem), pml4, l)
      ensures forall p :: Walk(mem, pml4, p) == if p == l then Absent(Walk(old(mem), pml4, p)) else Walk(old(mem), pml4, p)
      ensures Walk(mem, pml4, l) == Walk(old(mem), pml4, l).(present := false)
      ensures forall p | p != l :: Walk(mem, pml4, p) == Walk(old(mem), pml4, p)
      ensures Extends(old(mem), Free(), mem, Free(), pml4, {})
    {
      var t := FindPageTable(l);
      if t == None {
        return NULL;
      }
      ret := ClearThroughWindow(l, t.value);
    }

    /** One round of `alloc_pages`: a new frame mounted at page `p`. */
    method AllocPage(p: Page, user: bool) returns (f: nat)
      requires Valid() && Closed() && InRange(p)
      requires 1 + |Missing(mem, pml4, p)| <= |Free()|
      modifies this`mem, frames
      ensures Valid() && Closed() && f in old(Free()) && f < |mem|
      ensures !IsTable(mem, pml4, f) && Zeroed(mem[f])
      ensures forall q :: Walk(mem, pml4, q) == Mounted(q, p, TableDesc(f, user), Walk(old(mem), pml4, q))
      ensures Extends(old(mem), old(Free()) - {f}, mem, Free(), pml4, Missing(old(mem), pml4, p)) && Opened(old(mem), mem, pml4, user)
    {
      f := CreatePage();
      ghost var m1, free1 := mem, Free();
      MountAt(p, TableDesc(f, user));
      DataStays(m1, free1, mem, Free(), pml4, Missing(m1, pml4, p), f);
    }

    /** The state of the loop of `alloc_pages` once the pages before `|fs|` are done. */
    ghost predicate Allocating(m0: Ram, free0: set<nat>, ps: seq<Page>, fs: seq<nat>, user: bool, later: seq<Page>, x: int, y: int)
      reads this, frames
    {
      && Valid() && Closed() && Backed(m0, free0, mem, Free(), pml4, ps, fs, user)
      && Opened(m0, mem, pml4, user) && Grown(m0, mem, pml4) && Paid(mem, pml4, |Free()|, ps, |fs|, later, x, y)
    }

    /** The same round as a step of the range `ps`, of which the pages before `|fs|` are done. */
    method AllocNext(l: Page, ghost m0: Ram, ghost free0: set<nat>, ghost ps: seq<Page>, ghost fs: seq<nat>, user: bool,
                     ghost later: seq<Page>, ghost x: int, ghost y: int)
      returns (f: nat)
      requires |fs| < |ps| && l == ps[|fs|] && InRange(l) && Distinct(ps) && |ps| <= x && Allocating(m0, free0, ps, fs, user, later, x, y)
      modifies this`mem, frames
      ensures Allocating(m0, free0, ps, fs + [f], user, later, x, y)
    {
      ghost var m1, free1 := mem, Free();
      CostHead(m1, pml4, ps[|fs|..]);
      f := AllocPage(l, user);
      BackedNext(m0, free0, m1, free1, mem, Free(), pml4, ps, fs, f, user);
      PaidNext(m1, free1, mem, Free(), pml4, f, ps, |fs|, later, x, y);
      OpenedTwice(m0, m1, mem, pml4, user);
    }

    /** `alloc_pages` and `alloc_pages_user`: every page of the range is backed by a frame of its
        own, zeroed, that was free before and is no table; every other page translates as before.
        The cost is one frame for each page and for each missing table; it is also what pages mapped
        `later` no longer need. New tables hang on links with the user bit of the pages. */
    method AllocPages(addr: nat, size: nat, user: bool, ghost ps: seq<Page>, ghost later: seq<Page>) returns (ghost fs: seq<nat>)
      requires Valid() && Closed() && IsRange(ps, addr, Pages(size))
      requires Pages(size) + |MissingIn(mem, pml4, ps)| <= |Free()|
      modifies this`mem, frames
      ensures Valid() && Closed()
      ensures |fs| == |ps| && Backed(old(mem), old(Free()), mem, Free(), pml4, ps, fs, user)
      ensures forall k | 0 <= k < |ps| && ps[k] != WINDOW :: Plain(Walk(mem, pml4, ps[k]), user) && Walk(mem, pml4, ps[k]).address == fs[k]
      ensures Opened(old(mem), mem, pml4, user) && Grown(old(mem), mem, pml4)
      ensures |Free()| == |old(Free())| - Pages(size) - |MissingIn(old(mem), pml4, ps)|
      ensures |Free()| - |MissingIn(mem, pml4, later)| == |old(Free())| - Pages(size) - |MissingIn(old(mem), pml4, ps + later)|
    {
      PagesCover(size);
      fs := AllocLoop(addr, size, user, ps, later);
      BackedShows(old(mem), old(Free()), mem, Free(), pml4, ps, fs, user);
    }

    /** Its loop, for a range of just enough pages. */
    method AllocLoop(addr: nat, size: nat, user: bool, ghost ps: seq<Page>, ghost later: seq<Page>) returns (ghost fs: seq<nat>)
      requires Valid() && Closed() && IsRange(ps, addr, |ps|) && size <= 4096 * |ps| < size + 4096
      requires |ps| + |MissingIn(mem, pml4, ps)| <= |Free()|
      modifies this`mem, frames
      ensures Valid() && Closed()
      ensures |fs| == |ps| && Backed(old(mem), old(Free()), mem, Free(), pml4, ps, fs, user)
      ensures Opened(old(mem), mem, pml4, user) && Grown(old(mem), mem, pml4)
      ensures |Free()| == |old(Free())| - |ps| - |MissingIn(old(mem), pml4, ps)|
      ensures |Free()| - |MissingIn(mem, pml4, later)| == |old(Free())| - |ps| - |MissingIn(old(mem), pml4, ps + later)|
    {
      ghost var m0, free0 := mem, Free();
      ghost var x, y := |Free()| - |MissingIn(mem, pml4, ps)|, |Free()| - |MissingIn(mem, pml4, ps + later)|;
      PaidStart(mem, pml4, |Free()|, ps, later, x, y);
      AllocStart(mem, pml4, frames.ph_map, addr, ps, |ps|, user);
      var i := 0;
      fs := [];
      while i < size
        invariant i == 4096 * |fs| && |fs| <= |ps| && Allocating(m0, free0, ps, fs, user, later, x, y)
      {
        var l := PageOfRange(ps, addr, i, |fs|, |ps|);
        var f := AllocNext(l, m0, free0, ps, fs, user, later, x, y);
        fs := fs + [f];
        i := i + 0x1000;
      }
      PaidAll(mem, pml4, |Free()|, ps, |fs|, later, x, y);
    }

    /** One round of `remap_pages`. */
    method RemapPage(o: Page, n: Page)
      requires Valid() && Closed() && InRange(o) && InRange(n) && o != n
      requires |Missing(mem, pml4, n)| <= |Free()|
      modifies this`mem, frames
      ensures Valid() && Closed() && MoveStep(old(mem), mem, pml4, kernel_pt, o, n)
      ensures Extends(old(mem), old(Free()), mem, Free(), pml4, Missing(old(mem), pml4, n))
    {
      var tmp := UmountAt(o);
      ghost var m1 := mem;
      SameMissing(old(mem), Free(), m1, Free(), pml4, n);
      MountAt(n, CalcPage(tmp.address));
      ThroughWindow(old(mem), old(Free()), m1, mem, mem, Free(), pml4, Missing(old(mem), pml4, n));
    }

    /** The same round as a step of the ranges `os` and `ns`. */
    method RemapNext(o: Page, n: Page, ghost m0: Ram, ghost os: seq<Page>, ghost ns: seq<Page>, ghost k: nat)
      requires Valid() && Closed() && InRange(o) && InRange(n) && PageDisjoint(os, ns)
      requires Moved(m0, mem, pml4, kernel_pt, os, ns, k) && k < |os| && o == os[k] && n == ns[k]
      requires |MissingIn(mem, pml4, ns[k..])| <= |Free()|
      modifies this`mem, frames
      ensures Valid() && Closed() && Moved(m0, mem, pml4, kernel_pt, os, ns, k + 1)
      ensures |Free()| - |MissingIn(mem, pml4, ns[k + 1..])| == |old(Free())| - |MissingIn(old(mem), pml4, ns[k..])|
    {
      ghost var m1, free1, rest := mem, Free(), ns[k..];
      assert rest[0] == n && rest[1..] == ns[k + 1..];
      CostHead(m1, pml4, rest);
      RemapPage(o, n);
      MovedNext(m0, m1, mem, pml4, kernel_pt, os, ns, k);
      CostOfTables(m1, free1, mem, Free(), pml4, rest);
    }

    /** `remap_pages` over page-disjoint ranges `os` and `ns`. */
    method RemapPages(oldaddr: nat, newaddr: nat, size: nat, ghost os: seq<Page>, ghost ns: seq<Page>)
      requires Valid() && Closed()
      requires IsRange(os, oldaddr, Pages(size)) && IsRange(ns, newaddr, Pages(size)) && PageDisjoint(os, ns)
      requires |MissingIn(mem, pml4, ns)| <= |Free()|
      modifies this`mem, frames
      ensures Valid() && Closed()
      ensures Moved(old(mem), mem, pml4, kernel_pt, os, ns, |os|)
      ensures Remapped(old(mem), mem, pml4, os, ns)
      ensures |Free()| == |old(Free())| - |MissingIn(old(mem), pml4, ns)|
    {
      ghost var c, m0, k := Pages(size), mem, 0;
      ghost var budget := |Free()| - |MissingIn(mem, pml4, ns)|;
      var i := 0;
      assert ns[0..] == ns;
      while i < size
        invariant Valid() && Closed() && i == 4096 * k && k <= c
        invariant Moved(m0, mem, pml4, kernel_pt, os, ns, k)
        invariant |Free()| - |MissingIn(mem, pml4, ns[k..])| == budget
      {
        var o := PageOfRange(os, oldaddr, i, k, c);
        var n := PageOfRange(ns, newaddr, i, k, c);
        RemapNext(o, n, m0, os, ns, k);
        k := k + 1;
        i := i + 0x1000;
      }
      MovedShows(m0, mem, pml4, kernel_pt, os, ns);
    }
  }
}
