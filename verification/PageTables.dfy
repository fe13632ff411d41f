/** Four-level page tables in physical memory (mm/page.h, section 4.5 of the Intel SDM,
    volume 3A): what a word in a table means, where the tables of a tree are, and what a
    walk of the tree yields. */
module PageTables {

  datatype Option<+T> = None | Some(value: T)

  /** A 64-bit memory word seen through the bit fields of `pte_desc`: five flags, the seven bits
      after them (`accessed` to `reserved`), the 40-bit frame number and the 12 bits above it. */
  datatype Word = Word(
    present: bool, writable: bool, user: bool, cacheMode: bool, cacheDisable: bool,
    middle: nat, address: nat, high: nat)

  const NULL := Word(false, false, false, false, false, 0, 0, 0)

  predicate Fits(w: Word) {
    w.middle < 128 && w.address < 0x100_0000_0000 && w.high < 4096
  }

  function Digit(b: bool): nat {
    if b then 1 else 0
  }

  /** The low five bits of the word: `h & 0x1F`. */
  function Flags(w: Word): nat {
    Digit(w.present) + 2 * Digit(w.writable) + 4 * Digit(w.user) + 8 * Digit(w.cacheMode) + 16 * Digit(w.cacheDisable)
  }

  /** The other member of the union: the word as the number `h`. */
  function Raw(w: Word): nat {
    Flags(w) + 32 * AboveFlags(w)
  }

  function AboveFlags(w: Word): nat {
    w.middle + 128 * AboveMiddle(w)
  }

  function AboveMiddle(w: Word): nat {
    w.address + 0x100_0000_0000 * w.high
  }

  lemma NextMultiple(base: nat, x: nat, y: nat)
    requires x < y
    ensures base * x + base <= base * y
  {
    var d: nat := y - x - 1;
    assert base * d >= 0 && base * y == base * x + base + base * d;
  }

  lemma SplitDigit(base: nat, a: nat, x: nat, b: nat, y: nat)
    requires a < base && b < base && a + base * x == b + base * y
    ensures a == b && x == y
  {
    if x < y {
      NextMultiple(base, x, y);
    }
    if y < x {
      NextMultiple(base, y, x);
    }
  }

  lemma FlagsDetermine(v: Word, w: Word)
    requires Flags(v) == Flags(w)
    ensures v.present == w.present && v.writable == w.writable && v.user == w.user
    ensures v.cacheMode == w.cacheMode && v.cacheDisable == w.cacheDisable
  {
  }

  /** The bit fields lose nothing: words that fit are equal when their numbers are. */
  lemma RawIsInjective(v: Word, w: Word)
    requires Fits(v) && Fits(w) && Raw(v) == Raw(w)
    ensures v == w
  {
    assert Flags(v) == Flags(w) && AboveFlags(v) == AboveFlags(w) by {
      SplitDigit(32, Flags(v), AboveFlags(v), Flags(w), AboveFlags(w));
    }
    assert v.middle == w.middle && AboveMiddle(v) == AboveMiddle(w) by {
      SplitDigit(128, v.middle, AboveMiddle(v), w.middle, AboveMiddle(w));
    }
    assert v.address == w.address && v.high == w.high by {
      SplitDigit(0x100_0000_0000, v.address, v.high, w.address, w.high);
    }
    FlagsDetermine(v, w);
  }

  /** `calc_page` and `create_page`: present, writable. */
  function CalcPage(frame: nat): Word {
    NULL.(present := true, writable := true, address := frame)
  }

  /** The descriptor of a new table, open to user mode when `user` is set. */
  function TableDesc(frame: nat, user: bool): Word {
    CalcPage(frame).(user := user)
  }

  /** Physical memory: 512 words to the frame. */
  type Ram = seq<seq<Word>>

  predicate WellSized(m: Ram) {
    forall f | 0 <= f < |m| :: |m[f]| == 512
  }

  predicate Zeroed(t: seq<Word>) {
    |t| == 512 && forall i | 0 <= i < 512 :: t[i] == NULL
  }

  /** The table indices of a linear address. */
  datatype Page = Page(pml4: nat, pdp: nat, pd: nat, pt: nat)

  /** `linear`: the bit fields of an address at mm/page.h:24-32. */
  function Split(va: nat): Page {
    Page(va / 4096 / 512 / 512 / 512 % 512, va / 4096 / 512 / 512 % 512, va / 4096 / 512 % 512, va / 4096 % 512)
  }

  /** The page number inside the 48-bit space. */
  function PageNo(va: nat): nat {
    va / 4096 % 0x10_0000_0000
  }

  /** Two addresses share their four indices exactly when they lie in the same 48-bit page. */
  lemma SplitIsPageNo(va: nat, vb: nat)
    ensures Split(va) == Split(vb) <==> PageNo(va) == PageNo(vb)
  {
    SplitDigits(va);
    SplitDigits(vb);
  }

  predicate InRange(p: Page) {
    p.pml4 < 512 && p.pdp < 512 && p.pd < 512 && p.pt < 512
  }

  lemma SplitDigits(va: nat)
    ensures var p := Split(va);
            PageNo(va) == ((p.pml4 * 512 + p.pdp) * 512 + p.pd) * 512 + p.pt
    ensures InRange(Split(va))
  {
  }

  /** The window at TMP_MOUNT_ADDR = 0xFFFFFFFFC0000000: slot 0 of the kernel page table. */
  const WINDOW := Page(511, 511, 0, 0)

  lemma WindowAddress()
    ensures Split(0xFFFF_FFFF_C000_0000) == WINDOW
  {
    assert 0xFFFF_FFFF_C000_0000 / 4096 == 0xFFFF_FFFF_C0000;
    assert 0xFFFF_FFFF_C0000 / 512 == 0x7F_FFFF_FFE00;
    assert 0x7F_FFFF_FFE00 / 512 == 0x3FFF_FFFFF;
  }

  /** The place of a table in the tree. */
  datatype Node = Root | Pdp(a: nat) | Pd(a: nat, b: nat) | Pt(a: nat, b: nat, c: nat)

  const KERNEL_PT := Pt(511, 511, 0)

  function Child(n: Node, i: nat): Node
    requires !n.Pt?
  {
    match n
    case Root => Pdp(i)
    case Pdp(a) => Pd(a, i)
    case Pd(a, b) => Pt(a, b, i)
  }

  function Parent(n: Node): Node
    requires !n.Root?
    ensures !Parent(n).Pt?
  {
    match n
    case Pdp(_) => Root
    case Pd(a, _) => Pdp(a)
    case Pt(a, b, _) => Pd(a, b)
  }

  /** The index of `n` in its parent's table. */
  function Slot(n: Node): nat
    requires !n.Root?
  {
    match n
    case Pdp(a) => a
    case Pd(_, b) => b
    case Pt(_, _, c) => c
  }

  function Depth(n: Node): nat {
    match n case Root => 0 case Pdp(_) => 1 case Pd(_, _) => 2 case Pt(_, _, _) => 3
  }

  /** Entry `i` of table `t`; entries of missing tables read as null. */
  function Entry(m: Ram, t: Option<nat>, i: nat): Word {
    if t.Some? && t.value < |m| && i < |m[t.value]| then m[t.value][i] else NULL
  }

  function Follow(w: Word): Option<nat> {
    if w == NULL then None else Some(w.address)
  }

  function PdpAt(m: Ram, root: nat, a: nat): Option<nat> {
    Follow(Entry(m, Some(root), a))
  }

  function PdAt(m: Ram, root: nat, a: nat, b: nat): Option<nat> {
    Follow(Entry(m, PdpAt(m, root, a), b))
  }

  function PtAt(m: Ram, root: nat, a: nat, b: nat, c: nat): Option<nat> {
    Follow(Entry(m, PdAt(m, root, a, b), c))
  }

  /** The frame that holds the table at `n`, if the tree has one. */
  function TableAt(m: Ram, root: nat, n: Node): Option<nat> {
    match n
    case Root => Some(root)
    case Pdp(a) => PdpAt(m, root, a)
    case Pd(a, b) => PdAt(m, root, a, b)
    case Pt(a, b, c) => PtAt(m, root, a, b, c)
  }

  /** The descriptor a walk of page `p` ends in; null when a level is missing. */
  function Walk(m: Ram, root: nat, p: Page): Word {
    Entry(m, TableAt(m, root, Pt(p.pml4, p.pdp, p.pd)), p.pt)
  }

  /** The descriptor through which the table at `n` hangs in its parent. */
  function LinkTo(m: Ram, root: nat, n: Node): Word
    requires !n.Root?
  {
    Entry(m, TableAt(m, root, Parent(n)), Slot(n))
  }

  /** The tables at `n` and `o` are in different frames unless the nodes are the same. */
  predicate Apart(m: Ram, root: nat, n: Node, o: Node) {
    TableAt(m, root, n).Some? && TableAt(m, root, n) == TableAt(m, root, o) ==> n == o
  }

  /** The tables form a proper tree: they lie in memory, no frame is a table twice, no table
      is frame 0, and every link is present. */
  ghost predicate Tree(m: Ram, root: nat) {
    && WellSized(m)
    && (forall n :: TableAt(m, root, n).Some? ==> 0 < TableAt(m, root, n).value < |m|)
    && (forall n, o :: Apart(m, root, n, o))
    && (forall n: Node | !n.Root? :: TableAt(m, root, n).Some? ==> LinkTo(m, root, n).present)
  }

  /** Storing a word in a frame. */
  function Store(m: Ram, f: nat, i: nat, w: Word): Ram
    requires f < |m| && i < |m[f]|
  {
    m[f := m[f][i := w]]
  }

  /** `m'` holds the same entries as `m` in the table at `n`, if there is one. */
  ghost predicate SameEntries(m: Ram, m': Ram, root: nat, n: Node) {
    forall i :: Entry(m', TableAt(m, root, n), i) == Entry(m, TableAt(m, root, n), i)
  }

  /** Memories that agree on the directories (all tables above the last level) have the same
      tables, linked the same way. */
  lemma SameDirectories(m: Ram, m': Ram, root: nat)
    requires forall n: Node | !n.Pt? :: SameEntries(m, m', root, n)
    ensures forall n :: TableAt(m', root, n) == TableAt(m, root, n)
    ensures forall n: Node | !n.Root? :: LinkTo(m', root, n) == LinkTo(m, root, n)
  {
    forall n: Node
      ensures TableAt(m', root, n) == TableAt(m, root, n)
      ensures !n.Root? ==> LinkTo(m', root, n) == LinkTo(m, root, n)
    {
      SameWay(m, m', root, n);
    }
  }

  lemma {:induction false} SameWay(m: Ram, m': Ram, root: nat, n: Node)
    requires forall o: Node | !o.Pt? :: SameEntries(m, m', root, o)
    ensures TableAt(m', root, n) == TableAt(m, root, n)
    ensures !n.Root? ==> LinkTo(m', root, n) == LinkTo(m, root, n)
    decreases Depth(n)
  {
    if !n.Root? {
      SameWay(m, m', root, Parent(n));
      assert SameEntries(m, m', root, Parent(n));
    }
  }

  /** A tree stays a tree when its tables and links stay. */
  lemma SameTree(m: Ram, m': Ram, root: nat)
    requires Tree(m, root) && WellSized(m') && |m'| == |m|
    requires forall n: Node | !n.Pt? :: SameEntries(m, m', root, n)
    ensures Tree(m', root)
    ensures forall n :: TableAt(m', root, n) == TableAt(m, root, n)
  {
    SameDirectories(m, m', root);
    forall n, o
      ensures Apart(m', root, n, o)
    {
      assert Apart(m, root, n, o);
    }
  }

  /** Storing into a frame that holds a page table changes one translation and no table. */
  lemma StoreLeaf(m: Ram, root: nat, a: nat, b: nat, c: nat, i: nat, w: Word)
    requires Tree(m, root) && TableAt(m, root, Pt(a, b, c)).Some? && i < 512
    ensures var m' := Store(m, TableAt(m, root, Pt(a, b, c)).value, i, w);
            && Tree(m', root)
            && (forall n :: TableAt(m', root, n) == TableAt(m, root, n))
            && (forall p :: Walk(m', root, p) == if p == Page(a, b, c, i) then w else Walk(m, root, p))
  {
    var f := TableAt(m, root, Pt(a, b, c)).value;
    var m' := Store(m, f, i, w);
    forall n: Node | !n.Pt?
      ensures SameEntries(m, m', root, n)
    {
      assert Apart(m, root, n, Pt(a, b, c));
    }
    SameTree(m, m', root);
    forall p: Page
      ensures Walk(m', root, p) == if p == Page(a, b, c, i) then w else Walk(m, root, p)
    {
      var n := Pt(p.pml4, p.pdp, p.pd);
      assert TableAt(m', root, n) == TableAt(m, root, n);
      assert Apart(m, root, n, Pt(a, b, c));
    }
  }

  /** Memory that agrees on every table has the same tree and the same translations. */
  lemma SameTables(m: Ram, m': Ram, root: nat)
    requires Tree(m, root) && WellSized(m') && |m'| == |m|
    requires forall n :: SameEntries(m, m', root, n)
    ensures Tree(m', root)
    ensures forall n :: TableAt(m', root, n) == TableAt(m, root, n)
    ensures forall p :: Walk(m', root, p) == Walk(m, root, p)
  {
    SameTree(m, m', root);
    forall p: Page
      ensures Walk(m', root, p) == Walk(m, root, p)
    {
      var n := Pt(p.pml4, p.pdp, p.pd);
      assert TableAt(m', root, n) == TableAt(m, root, n) && SameEntries(m, m', root, n);
    }
  }

  /** The tables after hanging frame `g` under entry `i` of the table at `n`. */
  function Linked(m: Ram, root: nat, n: Node, i: nat, g: nat, o: Node): Option<nat>
    requires !n.Pt?
  {
    if o == Child(n, i) then Some(g) else TableAt(m, root, o)
  }

  /** What the link changes in the entries of the table at `o`. */
  lemma EntryAfterLink(m: Ram, root: nat, n: Node, i: nat, w: Word, o: Node)
    requires Tree(m, root) && !n.Pt? && TableAt(m, root, n).Some? && i < 512
    requires Entry(m, TableAt(m, root, n), i) == NULL
    requires 0 < w.address < |m| && Zeroed(m[w.address])
    requires forall q :: TableAt(m, root, q) != Some(w.address)
    ensures var m' := Store(m, TableAt(m, root, n).value, i, w);
            forall j :: Entry(m', Linked(m, root, n, i, w.address, o), j) ==
                        if o == n && j == i then w
                        else if o == Child(n, i) then NULL
                        else Entry(m, TableAt(m, root, o), j)
  {
    assert Apart(m, root, o, n);
  }

  /** Hanging a fresh zeroed frame under a missing entry adds exactly that table. */
  lemma {:induction false} LinkedTable(m: Ram, root: nat, n: Node, i: nat, w: Word, o: Node)
    requires Tree(m, root) && !n.Pt? && TableAt(m, root, n).Some? && i < 512
    requires Entry(m, TableAt(m, root, n), i) == NULL
    requires w.present && 0 < w.address < |m| && Zeroed(m[w.address])
    requires forall q :: TableAt(m, root, q) != Some(w.address)
    ensures var m' := Store(m, TableAt(m, root, n).value, i, w);
            && TableAt(m', root, o) == Linked(m, root, n, i, w.address, o)
            && (!o.Root? && TableAt(m', root, o).Some? ==> LinkTo(m', root, o).present)
    decreases Depth(o)
  {
    if !o.Root? {
      LinkedTable(m, root, n, i, w, Parent(o));
      EntryAfterLink(m, root, n, i, w, Parent(o));
      assert TableAt(m, root, o) == Follow(LinkTo(m, root, o));
    }
  }

  /** Hanging a fresh zeroed frame under a missing entry keeps the tree and changes no
      translation. */
  lemma LinkTable(m: Ram, root: nat, n: Node, i: nat, w: Word)
    requires Tree(m, root) && !n.Pt? && TableAt(m, root, n).Some? && i < 512
    requires Entry(m, TableAt(m, root, n), i) == NULL
    requires w.present && 0 < w.address < |m| && Zeroed(m[w.address])
    requires forall o :: TableAt(m, root, o) != Some(w.address)
    ensures var m' := Store(m, TableAt(m, root, n).value, i, w);
            && Tree(m', root)
            && (forall o :: TableAt(m', root, o) == Linked(m, root, n, i, w.address, o))
            && (forall p :: Walk(m', root, p) == Walk(m, root, p))
  {
    forall o
      ensures TableAt(Store(m, TableAt(m, root, n).value, i, w), root, o) == Linked(m, root, n, i, w.address, o)
      ensures !o.Root? && TableAt(Store(m, TableAt(m, root, n).value, i, w), root, o).Some? ==>
                LinkTo(Store(m, TableAt(m, root, n).value, i, w), root, o).present
    {
      LinkedTable(m, root, n, i, w, o);
    }
    var m' := Store(m, TableAt(m, root, n).value, i, w);
    forall o, q
      ensures Apart(m', root, o, q)
    {
      assert Apart(m, root, o, q);
    }
    forall p: Page
      ensures Walk(m', root, p) == Walk(m, root, p)
    {
      var o := Pt(p.pml4, p.pdp, p.pd);
      EntryAfterLink(m, root, n, i, w, o);
      assert TableAt(m', root, o) == Linked(m, root, n, i, w.address, o);
      UnderMissing(m, root, n, i);
    }
  }

  // ---- links and their user bits ----

  /** No link of a table that stays changes from `m` to `m'`, and a table that is new hangs on a plain link with the
      user bit `user`. */
  ghost predicate Opened(m: Ram, m': Ram, root: nat, user: bool) {
    forall n: Node :: LinkKept(m, m', root, user, n)
  }

  ghost predicate LinkKept(m: Ram, m': Ram, root: nat, user: bool, n: Node) {
    !n.Root? && TableAt(m', root, n).Some? ==>
      if TableAt(m, root, n).Some? then LinkTo(m', root, n) == LinkTo(m, root, n) else Plain(LinkTo(m', root, n), user)
  }

  /** A present, writable descriptor, open to user mode or not, with no other bit but those of the frame number. */
  ghost predicate Plain(w: Word, user: bool) {
    w.present && w.writable && w.user == user && !w.cacheMode && !w.cacheDisable && w.middle == 0 && w.high == 0
  }

  /** Storing a leaf changes no link. */
  lemma LeafKeepsLinks(m: Ram, root: nat, a: nat, b: nat, c: nat, i: nat, w: Word, user: bool)
    requires Tree(m, root) && TableAt(m, root, Pt(a, b, c)).Some? && i < 512
    ensures Opened(m, Store(m, TableAt(m, root, Pt(a, b, c)).value, i, w), root, user)
  {
    var m' := Store(m, TableAt(m, root, Pt(a, b, c)).value, i, w);
    forall n: Node | !n.Pt?
      ensures SameEntries(m, m', root, n)
    {
      assert Apart(m, root, n, Pt(a, b, c));
    }
    forall n: Node
      ensures LinkKept(m, m', root, user, n)
    {
      SameWay(m, m', root, n);
    }
  }

  /** Hanging a table changes no other link. */
  lemma LinkOpens(m: Ram, root: nat, n: Node, i: nat, w: Word)
    requires Tree(m, root) && !n.Pt? && TableAt(m, root, n).Some? && i < 512
    requires Entry(m, TableAt(m, root, n), i) == NULL
    requires Plain(w, w.user) && 0 < w.address < |m| && Zeroed(m[w.address])
    requires forall o :: TableAt(m, root, o) != Some(w.address)
    ensures Opened(m, Store(m, TableAt(m, root, n).value, i, w), root, w.user)
  {
    var m' := Store(m, TableAt(m, root, n).value, i, w);
    UnderMissing(m, root, n, i);
    forall o: Node
      ensures LinkKept(m, m', root, w.user, o)
    {
      if !o.Root? {
        LinkedTable(m, root, n, i, w, o);
        LinkedTable(m, root, n, i, w, Parent(o));
        EntryAfterLink(m, root, n, i, w, Parent(o));
      }
    }
  }

  /** Tables stay. */
  ghost predicate Grown(m: Ram, m': Ram, root: nat) {
    forall n :: TableAt(m, root, n).Some? ==> TableAt(m', root, n) == TableAt(m, root, n)
  }

  lemma OpenedTwice(m: Ram, m1: Ram, m2: Ram, root: nat, user: bool)
    requires Opened(m, m1, root, user) && Opened(m1, m2, root, user) && Grown(m, m1, root) && Grown(m1, m2, root)
    ensures Opened(m, m2, root, user) && Grown(m, m2, root)
  {
    forall n: Node
      ensures LinkKept(m, m2, root, user, n)
    {
      assert LinkKept(m, m1, root, user, n) && LinkKept(m1, m2, root, user, n);
    }
  }

  /** The table at `n`, if there is one, hangs on a user link. */
  predicate UserLink(m: Ram, root: nat, n: Node)
    requires !n.Root?
  {
    TableAt(m, root, n).Some? ==> LinkTo(m, root, n).user
  }

  /** Every table on the way to page `p` hangs on a user link. */
  predicate UserPath(m: Ram, root: nat, p: Page) {
    UserLink(m, root, Pdp(p.pml4)) && UserLink(m, root, Pd(p.pml4, p.pdp)) && UserLink(m, root, Pt(p.pml4, p.pdp, p.pd))
  }

  /** The four-level walk as the processor does it (section 4.5 of the Intel SDM, volume 3A): bits 47-39, 38-30, 29-21
      and 20-12 of the address index the tables in turn, each entry giving the frame of the next one. */
  lemma WalkIsHardware(m: Ram, root: nat, va: nat)
    requires Tree(m, root) && TableAt(m, root, Pt(Split(va).pml4, Split(va).pdp, Split(va).pd)).Some?
    ensures var i4, i3, i2, i1 := va / 0x80_0000_0000 % 512, va / 0x4000_0000 % 512, va / 0x20_0000 % 512, va / 0x1000 % 512;
            && root < |m| && m[root][i4].present && m[root][i4].address < |m|
            && (var pdp := m[m[root][i4].address];
                && pdp[i3].present && pdp[i3].address < |m|
                && (var pd := m[pdp[i3].address];
                    && pd[i2].present && pd[i2].address < |m|
                    && Walk(m, root, Split(va)) == m[pd[i2].address][i1]))
  {
    SplitShifts(va);
    SplitDigits(va);
    var p := Split(va);
    var a, b, c := Pdp(p.pml4), Pd(p.pml4, p.pdp), Pt(p.pml4, p.pdp, p.pd);
    assert TableAt(m, root, Root) == Some(root);
    assert TableAt(m, root, a).Some? && TableAt(m, root, b).Some?;
    assert LinkTo(m, root, a).present && LinkTo(m, root, b).present && LinkTo(m, root, c).present;
  }

  lemma SplitShifts(va: nat)
    ensures Split(va) == Page(va / 0x80_0000_0000 % 512, va / 0x4000_0000 % 512, va / 0x20_0000 % 512, va / 0x1000 % 512)
  {
    assert va / 4096 / 512 == va / 0x20_0000;
    assert va / 0x20_0000 / 512 == va / 0x4000_0000;
    assert va / 0x4000_0000 / 512 == va / 0x80_0000_0000;
  }

  /** User mode reaches page `p`: at all four levels there is a present entry with the user bit. */
  predicate UserReaches(m: Ram, root: nat, p: Page) {
    && UserEntry(LinkTo(m, root, Pdp(p.pml4))) && UserEntry(LinkTo(m, root, Pd(p.pml4, p.pdp)))
    && UserEntry(LinkTo(m, root, Pt(p.pml4, p.pdp, p.pd))) && UserEntry(Walk(m, root, p))
  }

  predicate UserEntry(w: Word) {
    w.present && w.user
  }

  /** A user page mapped with new user tables is reached exactly when the tables that were already on its way hang on
      user links. */
  lemma UserReach(m: Ram, m': Ram, root: nat, p: Page)
    requires Tree(m', root) && Opened(m, m', root, true) && Grown(m, m', root)
    requires TableAt(m', root, Pt(p.pml4, p.pdp, p.pd)).Some? && UserEntry(Walk(m', root, p))
    ensures UserReaches(m', root, p) <==> UserPath(m, root, p)
    ensures UserReaches(m', root, p) <==>
              && LinkTo(m', root, Pdp(p.pml4)).present && LinkTo(m', root, Pdp(p.pml4)).user
              && LinkTo(m', root, Pd(p.pml4, p.pdp)).present && LinkTo(m', root, Pd(p.pml4, p.pdp)).user
              && LinkTo(m', root, Pt(p.pml4, p.pdp, p.pd)).present && LinkTo(m', root, Pt(p.pml4, p.pdp, p.pd)).user
              && Walk(m', root, p).present && Walk(m', root, p).user
    ensures UserReaches(m', root, p) <==>
              && (TableAt(m, root, Pdp(p.pml4)).Some? ==> LinkTo(m, root, Pdp(p.pml4)).user)
              && (TableAt(m, root, Pd(p.pml4, p.pdp)).Some? ==> LinkTo(m, root, Pd(p.pml4, p.pdp)).user)
              && (TableAt(m, root, Pt(p.pml4, p.pdp, p.pd)).Some? ==> LinkTo(m, root, Pt(p.pml4, p.pdp, p.pd)).user)
  {
    var a, b, c := Pdp(p.pml4), Pd(p.pml4, p.pdp), Pt(p.pml4, p.pdp, p.pd);
    assert TableAt(m', root, a).Some? && TableAt(m', root, b).Some?;
    assert LinkKept(m, m', root, true, a) && LinkKept(m, m', root, true, b) && LinkKept(m, m', root, true, c);
  }

  lemma UnderMissing(m: Ram, root: nat, n: Node, i: nat)
    requires !n.Pt? && Entry(m, TableAt(m, root, n), i) == NULL
    ensures TableAt(m, root, Child(n, i)) == None
  {
  }
}
