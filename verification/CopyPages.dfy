/** `copy_page` of mm/page.c: the recursive deep copy of an address space. */
module CopyPages {
  import opened PageTables
  import opened TreeCopy
  import opened AddressSpace
  import PhysMap

  /** The copy loop of a level-`k` table after `i` entries: `buf` began as the source table `src`;
      its first `i` entries name copies, made of exactly the frames allocated so far. */
  ghost predicate Progress(m0: Ram, free0: set<nat>, m: Ram, free: set<nat>, kpt: nat, k: nat,
                           src: seq<Word>, buf: seq<Word>, i: nat) {
    && |src| == |buf| == 512 && i <= 512 && k > 0
    && SameOutside(m0, m, free0 - free) && free <= free0 && kpt !in free0 && 0 !in free0
    && (forall j | i <= j < 512 :: buf[j] == src[j])
    && (forall j | 0 <= j < i :: CopiedEntry(m0, m, kpt, src[j], buf[j], k))
    && (forall j | 0 <= j < i :: VisitableEntry(m, kpt, free, buf[j], k))
    && FootKids(m, kpt, buf, k, i) == free0 - free
    && ProperKids(m, kpt, buf, k, i)
    && |free| == |free0| - NeedKids(m0, kpt, src, k, i)
  }

  lemma ProgressStart(m0: Ram, free0: set<nat>, kpt: nat, k: nat, src: seq<Word>)
    requires WellSized(m0) && |src| == 512 && k > 0 && kpt !in free0 && 0 !in free0
    ensures Progress(m0, free0, m0, free0, kpt, k, src, src, 0)
  {
  }

  /** An entry without an address is kept. */
  lemma ProgressSkip(m0: Ram, free0: set<nat>, m: Ram, free: set<nat>, kpt: nat, k: nat,
                     src: seq<Word>, buf: seq<Word>, i: nat)
    requires Progress(m0, free0, m, free, kpt, k, src, buf, i) && i < 512 && buf[i].address == 0
    ensures Progress(m0, free0, m, free, kpt, k, src, buf, i + 1)
  {
  }

  /** The result of copying one child. */
  ghost predicate ChildCopied(m: Ram, free: set<nat>, m': Ram, free': set<nat>, kpt: nat, f: nat, g: nat, k: nat) {
    && SameOutside(m, m', free - free') && free' <= free && g != 0
    && Copied(m, m', kpt, f, g, k)
    && Visitable(m', kpt, free', g, k)
    && Foot(m', kpt, g, k) == free - free'
    && Proper(m', kpt, g, k)
    && |free'| == |free| - Need(m, kpt, f, k)
  }

  lemma {:induction false} KidsPrefix(m: Ram, kpt: nat, t: seq<Word>, t': seq<Word>, k: nat, n: nat)
    requires WellSized(m) && k > 0 && n <= |t| && n <= |t'| && t[..n] == t'[..n]
    ensures FootKids(m, kpt, t, k, n) == FootKids(m, kpt, t', k, n)
    ensures ProperKids(m, kpt, t, k, n) == ProperKids(m, kpt, t', k, n)
    decreases n
  {
    if n > 0 {
      assert t[..n - 1] == t[..n][..n - 1] == t'[..n][..n - 1] == t'[..n - 1];
      assert t[n - 1] == t[..n][n - 1] == t'[..n][n - 1] == t'[n - 1];
      KidsPrefix(m, kpt, t, t', k, n - 1);
    }
  }

  /** The entries copied so far are not affected by copying the next one. */
  lemma EarlierEntriesStay(m0: Ram, free0: set<nat>, m: Ram, free: set<nat>, m': Ram, free': set<nat>, kpt: nat, k: nat,
                           src: seq<Word>, buf: seq<Word>, i: nat)
    requires Progress(m0, free0, m, free, kpt, k, src, buf, i)
    requires SameOutside(m, m', free - free') && free' <= free
    ensures forall j | 0 <= j < i :: CopiedEntry(m0, m', kpt, src[j], buf[j], k)
    ensures forall j | 0 <= j < i :: VisitableEntry(m', kpt, free', buf[j], k)
    ensures FootKids(m', kpt, buf, k, i) == free0 - free
    ensures ProperKids(m', kpt, buf, k, i)
  {
    StableKids(m, m', kpt, free, free', buf, k, i);
    forall j | 0 <= j < i
      ensures CopiedEntry(m0, m', kpt, src[j], buf[j], k)
    {
      assert CopiedEntry(m0, m, kpt, src[j], buf[j], k) && VisitableEntry(m, kpt, free, buf[j], k);
      if src[j].address != 0 {
        CopiedToSame(m0, m, m', kpt, free, src[j].address, buf[j].address, k - 1);
      }
    }
  }

  /** The new child's frames join those of the earlier ones. */
  lemma FootGrows(m0: Ram, free0: set<nat>, m: Ram, free: set<nat>, m': Ram, free': set<nat>, kpt: nat, k: nat,
                  src: seq<Word>, buf: seq<Word>, i: nat, g: nat)
    requires Progress(m0, free0, m, free, kpt, k, src, buf, i) && i < 512
    requires ChildCopied(m, free, m', free', kpt, src[i].address, g, k - 1)
    ensures var buf' := buf[i := Redirected(buf[i], g)];
            FootKids(m', kpt, buf', k, i + 1) == free0 - free' && ProperKids(m', kpt, buf', k, i + 1)
  {
    var buf' := buf[i := Redirected(buf[i], g)];
    EarlierEntriesStay(m0, free0, m, free, m', free', kpt, k, src, buf, i);
    assert buf'[..i] == buf[..i];
    KidsPrefix(m', kpt, buf', buf, k, i);
    assert free0 - free' == (free0 - free) + (free - free');
  }

  /** The new child is a copy of the entry's child in the original memory. */
  lemma ChildOfOriginal(m0: Ram, free0: set<nat>, m: Ram, free: set<nat>, m': Ram, free': set<nat>, kpt: nat, k: nat,
                        src: seq<Word>, buf: seq<Word>, i: nat, g: nat)
    requires Progress(m0, free0, m, free, kpt, k, src, buf, i) && i < 512 && src[i].address != 0
    requires VisitableEntry(m0, kpt, free0, src[i], k)
    requires ChildCopied(m, free, m', free', kpt, src[i].address, g, k - 1)
    ensures CopiedEntry(m0, m', kpt, src[i], Redirected(buf[i], g), k)
    ensures VisitableEntry(m', kpt, free', Redirected(buf[i], g), k)
    ensures Need(m, kpt, src[i].address, k - 1) == Need(m0, kpt, src[i].address, k - 1)
  {
    CopiedFromSame(m0, m, m', kpt, free0, src[i].address, g, k - 1);
    Stable(m0, m, kpt, free0, free, src[i].address, k - 1);
  }

  /** The copy of an entry's child takes the loop one entry further. */
  lemma ProgressCopy(m0: Ram, free0: set<nat>, m: Ram, free: set<nat>, m': Ram, free': set<nat>, kpt: nat, k: nat,
                     src: seq<Word>, buf: seq<Word>, i: nat, g: nat)
    requires Progress(m0, free0, m, free, kpt, k, src, buf, i) && i < 512 && src[i].address != 0
    requires VisitableEntry(m0, kpt, free0, src[i], k)
    requires ChildCopied(m, free, m', free', kpt, src[i].address, g, k - 1)
    ensures Progress(m0, free0, m', free', kpt, k, src, buf[i := Redirected(buf[i], g)], i + 1)
  {
    EarlierEntriesStay(m0, free0, m, free, m', free', kpt, k, src, buf, i);
    FootGrows(m0, free0, m, free, m', free', kpt, k, src, buf, i, g);
    ChildOfOriginal(m0, free0, m, free, m', free', kpt, k, src, buf, i, g);
  }

  /** The finished table written to a free frame `p`. */
  lemma TableCopied(m0: Ram, free0: set<nat>, m: Ram, free: set<nat>, kpt: nat, k: nat, f: nat, buf: seq<Word>, p: nat)
    requires f < |m0| && WellSized(m0) && !Shared(m0, kpt, f, k) && k > 0
    requires Progress(m0, free0, m, free, kpt, k, View(m0, kpt, f), buf, 512)
    requires p in free && p < |m|
    ensures ChildCopied(m0, free0, m[p := buf], free - {p}, kpt, f, p, k)
  {
    var m', free' := m[p := buf], free - {p};
    assert SameOutside(m, m', free - free');
    EarlierEntriesStay(m0, free0, m, free, m', free', kpt, k, View(m0, kpt, f), buf, 512);
    assert View(m', kpt, p) == buf;
    assert CopiedEntry(m0, m', kpt, View(m0, kpt, f)[0], buf[0], k);
    assert !Shared(m', kpt, p, k);
    assert free0 - free' == (free0 - free) + {p};
  }

  /** A page of data written to a free frame `p`. */
  lemma PageCopied(m0: Ram, free0: set<nat>, kpt: nat, f: nat, p: nat)
    requires f < |m0| && WellSized(m0) && p in free0 && p < |m0| && kpt !in free0 && 0 !in free0
    ensures ChildCopied(m0, free0, m0[p := View(m0, kpt, f)], free0 - {p}, kpt, f, p, 0)
  {
  }

  /** The kernel page table is returned as it is. */
  lemma TableShared(m: Ram, free: set<nat>, kpt: nat, f: nat)
    requires WellSized(m) && f < |m| && f !in free && f != 0 && Shared(m, kpt, f, 1)
    ensures ChildCopied(m, free, m, free, kpt, f, f, 1)
  {
  }

  /** The tables and translations of the tree at `root` are the same in `m` and `m'`. */
  ghost predicate SameTranslation(m: Ram, m': Ram, root: nat) {
    && (forall n :: TableAt(m', root, n) == TableAt(m, root, n))
    && (forall p :: Walk(m', root, p) == Walk(m, root, p))
  }

  /** Writing a frame that is neither a table nor free. */
  lemma DataWriteIsSound(m: Ram, root: nat, kpt: nat, halves: seq<nat>, p: nat, buf: seq<Word>)
    requires Sound(m, root, kpt, halves) && p < |m| && |buf| == 512
    requires p !in PhysMap.FreePages(halves) && !IsTable(m, root, p)
    ensures Sound(m[p := buf], root, kpt, halves) && SameTranslation(m, m[p := buf], root)
  {
    var m' := m[p := buf];
    forall n
      ensures SameEntries(m, m', root, n)
    {
      assert TableAt(m, root, n) != Some(p);
    }
    SameTables(m, m', root);
  }

  /** `read_page`. */
  method ReadPage(mmu: Mmu, f: nat) returns (buf: seq<Word>)
    requires mmu.Valid() && mmu.Closed() && f < |mmu.mem|
    modifies mmu`mem
    ensures mmu.Valid() && mmu.Closed() && mmu.mem == old(mmu.mem)
    ensures buf == View(mmu.mem, mmu.kernel_pt, f)
  {
    mmu.MountT(f);
    buf := mmu.mem[mmu.mem[mmu.kernel_pt][0].address];
    mmu.UmountT();
    assert mmu.mem[mmu.kernel_pt] == old(mmu.mem[mmu.kernel_pt]);
  }

  /** `write_page` to a page of data. */
  method WritePage(mmu: Mmu, p: nat, buf: seq<Word>)
    requires mmu.Valid() && mmu.Closed() && p < |mmu.mem| && |buf| == 512
    requires p !in mmu.Free() && !IsTable(mmu.mem, mmu.pml4, p)
    modifies mmu`mem
    ensures mmu.Valid() && mmu.Closed() && mmu.mem == old(mmu.mem)[p := buf]
    ensures SameTranslation(old(mmu.mem), mmu.mem, mmu.pml4)
  {
    assert TableAt(mmu.mem, mmu.pml4, KERNEL_PT) != Some(p);
    DataWriteIsSound(mmu.mem, mmu.pml4, mmu.kernel_pt, mmu.frames.ph_map, p, buf);
    mmu.MountT(p);
    assert forall n :: TableAt(mmu.mem, mmu.pml4, n) == old(TableAt(mmu.mem, mmu.pml4, n));
    DataWriteIsSound(mmu.mem, mmu.pml4, mmu.kernel_pt, mmu.frames.ph_map, p, buf);
    mmu.mem := mmu.mem[mmu.mem[mmu.kernel_pt][0].address := buf];
    mmu.UmountT();
    assert mmu.mem[mmu.kernel_pt] == old(mmu.mem[mmu.kernel_pt]);
  }

  /** The address test of the early return: `addr == ((uint64_t)kernel_pt & 0x0FFFFFFF)`, where the
      kernel page table in frame `kpt` is mapped at `kpt * 4096 | 0xFFFFFFFFC0000000`. */
  predicate NamesKernelPt(frame: nat, kpt: nat) {
    4096 * frame == (0xFFFF_FFFF_C000_0000 + 4096 * kpt) % 0x1000_0000
  }

  lemma MaskedKernelPt(frame: nat, kpt: nat)
    requires kpt < 0x1_0000
    ensures NamesKernelPt(frame, kpt) <==> frame == kpt
  {
    assert (0xFFFF_FFFF_C000_0000 + 4096 * kpt) % 0x1000_0000 == 4096 * kpt;
  }

  lemma {:induction false} NeedKidsGrows(m: Ram, kpt: nat, t: seq<Word>, k: nat, i: nat, n: nat)
    requires WellSized(m) && k > 0 && i <= n <= |t|
    ensures NeedKids(m, kpt, t, k, i) <= NeedKids(m, kpt, t, k, n)
    decreases n
  {
    if i < n {
      NeedKidsGrows(m, kpt, t, k, i, n - 1);
    }
  }

  /** The last lines of `copy_page`: `buf` goes to a newly allocated frame. */
  method WriteNewPage(mmu: Mmu, buf: seq<Word>) returns (p: nat)
    requires mmu.Valid() && mmu.Closed() && |mmu.Free()| > 0 && |buf| == 512
    modifies mmu`mem, mmu.frames
    ensures mmu.Valid() && mmu.Closed() && p in old(mmu.Free()) && p < |mmu.mem|
    ensures mmu.mem == old(mmu.mem)[p := buf] && mmu.Free() == old(mmu.Free()) - {p}
    ensures SameTranslation(old(mmu.mem), mmu.mem, mmu.pml4)
  {
    p := mmu.CreatePage();
    WritePage(mmu, p, buf);
  }

  /** Entry `i` of the copy loop, for a table that is not shared. */
  method CopyEntry(mmu: Mmu, ghost f: nat, k: nat, buf: seq<Word>, i: nat, ghost m0: Ram, ghost free0: set<nat>)
    returns (buf': seq<Word>)
    requires mmu.Valid() && mmu.Closed() && mmu.kernel_pt < 0x1_0000 && k > 0 && i < 512
    requires WellSized(m0) && Visitable(m0, mmu.kernel_pt, free0, f, k) && !Shared(m0, mmu.kernel_pt, f, k)
    requires Need(m0, mmu.kernel_pt, f, k) <= |free0|
    requires Progress(m0, free0, mmu.mem, mmu.Free(), mmu.kernel_pt, k, View(m0, mmu.kernel_pt, f), buf, i)
    modifies mmu`mem, mmu.frames
    ensures mmu.Valid() && mmu.Closed() && SameTranslation(old(mmu.mem), mmu.mem, mmu.pml4)
    ensures Progress(m0, free0, mmu.mem, mmu.Free(), mmu.kernel_pt, k, View(m0, mmu.kernel_pt, f), buf', i + 1)
    decreases k, 0
  {
    ghost var m, free, kpt, src := mmu.mem, mmu.Free(), mmu.kernel_pt, View(m0, mmu.kernel_pt, f);
    buf' := buf;
    if buf[i].address != 0 {
      assert VisitableEntry(m0, kpt, free0, src[i], k);
      Stable(m0, m, kpt, free0, free, src[i].address, k - 1);
      NeedKidsGrows(m0, kpt, src, k, i + 1, 512);
      var child := CopyPage(mmu, buf[i].address, k - 1);
      ProgressCopy(m0, free0, m, free, mmu.mem, mmu.Free(), kpt, k, src, buf, i, child);
      buf' := buf[i := Redirected(buf[i], child)];
    } else {
      ProgressSkip(m0, free0, m, free, kpt, k, src, buf, i);
    }
  }

  /** The copy loop for a table that is not shared. */
  method CopyEntries(mmu: Mmu, ghost f: nat, k: nat, src: seq<Word>) returns (buf: seq<Word>)
    requires mmu.Valid() && mmu.Closed() && mmu.kernel_pt < 0x1_0000 && k > 0
    requires Visitable(mmu.mem, mmu.kernel_pt, mmu.Free(), f, k) && !Shared(mmu.mem, mmu.kernel_pt, f, k)
    requires Need(mmu.mem, mmu.kernel_pt, f, k) <= |mmu.Free()| && src == View(mmu.mem, mmu.kernel_pt, f)
    modifies mmu`mem, mmu.frames
    ensures mmu.Valid() && mmu.Closed() && |mmu.Free()| > 0
    ensures SameTranslation(old(mmu.mem), mmu.mem, mmu.pml4)
    ensures Progress(old(mmu.mem), old(mmu.Free()), mmu.mem, mmu.Free(), mmu.kernel_pt, k, src, buf, 512)
    decreases k, 1
  {
    ghost var m0, free0 := mmu.mem, mmu.Free();
    assert TableAt(m0, mmu.pml4, KERNEL_PT) == Some(mmu.kernel_pt);
    ProgressStart(m0, free0, mmu.kernel_pt, k, src);
    buf := src;
    var i := 0;
    while i < 512
      invariant mmu.Valid() && mmu.Closed() && i <= 512
      invariant SameTranslation(m0, mmu.mem, mmu.pml4)
      invariant Progress(m0, free0, mmu.mem, mmu.Free(), mmu.kernel_pt, k, src, buf, i)
    {
      buf := CopyEntry(mmu, f, k, buf, i, m0, free0);
      i := i + 1;
    }
  }

  /** `copy_page(f, k)`: the tree at `g` is a copy of the tree at `f`. Its frames are exactly the ones
      allocated by the call, each used once; nothing else in memory has changed, so the source and
      every translation of the current address space are as before. */
  method CopyPage(mmu: Mmu, f: nat, k: nat) returns (g: nat)
    requires mmu.Valid() && mmu.Closed() && mmu.kernel_pt < 0x1_0000
    requires f != 0 && Visitable(mmu.mem, mmu.kernel_pt, mmu.Free(), f, k)
    requires Need(mmu.mem, mmu.kernel_pt, f, k) <= |mmu.Free()|
    modifies mmu`mem, mmu.frames
    ensures mmu.Valid() && mmu.Closed()
    ensures ChildCopied(old(mmu.mem), old(mmu.Free()), mmu.mem, mmu.Free(), mmu.kernel_pt, f, g, k)
    ensures SameTranslation(old(mmu.mem), mmu.mem, mmu.pml4)
    decreases k, 2
  {
    ghost var m0, free0, kpt := mmu.mem, mmu.Free(), mmu.kernel_pt;
    assert TableAt(m0, mmu.pml4, KERNEL_PT) == Some(kpt);
    var buf := ReadPage(mmu, f);
    // The loop's first round makes this test before anything is copied.
    MaskedKernelPt(buf[0].address, kpt);
    if k == 1 && buf[0].address != 0 && NamesKernelPt(buf[0].address, mmu.kernel_pt) {
      TableShared(m0, free0, kpt, f);
      return f;
    }
    if k > 0 {
      buf := CopyEntries(mmu, f, k, buf);
      ghost var m, free := mmu.mem, mmu.Free();
      g := WriteNewPage(mmu, buf);
      TableCopied(m0, free0, m, free, kpt, k, f, buf, g);
    } else {
      g := WriteNewPage(mmu, buf);
      PageCopied(m0, free0, kpt, f, g);
    }
  }

  /** One entry further down in source and copy. */
  lemma EntryCopied(m: Ram, m': Ram, kpt: nat, f: nat, g: nat, k: nat, i: nat)
    requires WellSized(m) && WellSized(m') && Copied(m, m', kpt, f, g, k)
    requires f != kpt && !Shared(m, kpt, f, k) && k > 0 && i < 512
    ensures g < |m'| && g != kpt && CopiedEntry(m, m', kpt, m[f][i], m'[g][i], k)
    ensures m[f][i].address == 0 ==> m'[g][i] == m[f][i]
    ensures m[f][i].address != 0 ==>
              && m'[g][i] == Redirected(m[f][i], m'[g][i].address) && m'[g][i].address != 0
              && Copied(m, m', kpt, m[f][i].address, m'[g][i].address, k - 1)
              && Foot(m', kpt, m'[g][i].address, k - 1) <= Foot(m', kpt, g, k)
  {
    assert CopiedEntry(m, m', kpt, View(m, kpt, f)[i], m'[g][i], k);
    if m[f][i].address != 0 {
      EntryInFoot(m', kpt, View(m', kpt, g), k, 512, i);
    }
  }

  /** The tables at `n` in source and copy: both are missing, or the one is a copy of the other whose
      frames belong to `foot`. */
  ghost predicate TableForked(m: Ram, m': Ram, root: nat, root': nat, kpt: nat, n: Node, k: nat, foot: set<nat>)
    requires WellSized(m) && WellSized(m')
  {
    var t, t' := TableAt(m, root, n), TableAt(m', root', n);
    && (t.None? <==> t'.None?)
    && (t.Some? ==> Copied(m, m', kpt, t.value, t'.value, k) && Foot(m', kpt, t'.value, k) <= foot)
  }

  lemma TableBelow(m: Ram, m': Ram, root: nat, root': nat, kpt: nat, n: Node, k: nat)
    requires Tree(m, root) && TableAt(m, root, KERNEL_PT) == Some(kpt) && WellSized(m')
    requires !n.Root? && k > 1 && TableAt(m, root, Parent(n)).Some? && TableAt(m', root', Parent(n)).Some?
    requires Copied(m, m', kpt, TableAt(m, root, Parent(n)).value, TableAt(m', root', Parent(n)).value, k)
    ensures TableAt(m', root', n).Some? <==> TableAt(m, root, n).Some?
    ensures TableAt(m, root, n).Some? ==>
              && Copied(m, m', kpt, TableAt(m, root, n).value, TableAt(m', root', n).value, k - 1)
              && Foot(m', kpt, TableAt(m', root', n).value, k - 1)
                 <= Foot(m', kpt, TableAt(m', root', Parent(n)).value, k)
  {
    var f, g, i := TableAt(m, root, Parent(n)).value, TableAt(m', root', Parent(n)).value, Slot(n);
    assert TableAt(m, root, n) == Follow(Entry(m, Some(f), i));
    assert TableAt(m', root', n) == Follow(Entry(m', Some(g), i));
    assert Apart(m, root, Parent(n), KERNEL_PT);
    if i < 512 {
      EntryCopied(m, m', kpt, f, g, k, i);
    }
  }

  lemma ForkedPdp(m: Ram, m': Ram, root: nat, root': nat, kpt: nat, k: nat, a: nat)
    requires Tree(m, root) && TableAt(m, root, KERNEL_PT) == Some(kpt) && WellSized(m')
    requires k > 1 && Copied(m, m', kpt, root, root', k)
    ensures TableForked(m, m', root, root', kpt, Pdp(a), k - 1, Foot(m', kpt, root', k))
  {
    TableBelow(m, m', root, root', kpt, Pdp(a), k);
  }

  lemma ForkedPd(m: Ram, m': Ram, root: nat, root': nat, kpt: nat, k: nat, a: nat, b: nat)
    requires Tree(m, root) && TableAt(m, root, KERNEL_PT) == Some(kpt) && WellSized(m')
    requires k > 2 && Copied(m, m', kpt, root, root', k)
    ensures TableForked(m, m', root, root', kpt, Pd(a, b), k - 2, Foot(m', kpt, root', k))
  {
    ForkedPdp(m, m', root, root', kpt, k, a);
    if TableAt(m, root, Pdp(a)).Some? {
      TableBelow(m, m', root, root', kpt, Pd(a, b), k - 1);
    }
  }

  /** The copy has a page table where the source has one. */
  lemma ForkedPt(m: Ram, m': Ram, root: nat, root': nat, kpt: nat, k: nat, a: nat, b: nat, c: nat)
    requires Tree(m, root) && TableAt(m, root, KERNEL_PT) == Some(kpt) && WellSized(m')
    requires k > 3 && Copied(m, m', kpt, root, root', k)
    ensures TableForked(m, m', root, root', kpt, Pt(a, b, c), k - 3, Foot(m', kpt, root', k))
  {
    ForkedPd(m, m', root, root', kpt, k, a, b);
    if TableAt(m, root, Pd(a, b)).Some? {
      TableBelow(m, m', root, root', kpt, Pt(a, b, c), k - 2);
    }
  }

  /** How page `p` translates after a fork. Pages of the shared kernel table translate as before.
      Any other page keeps its low five flags and has a frame of its own with the same contents. */
  ghost predicate PageForked(m: Ram, m': Ram, root: nat, root': nat, kpt: nat, taken: set<nat>, p: Page)
    requires WellSized(m) && WellSized(m')
  {
    var t, w, w' := TableAt(m, root, Pt(p.pml4, p.pdp, p.pd)), Walk(m, root, p), Walk(m', root', p);
    if t.Some? && t.value < |m| && Shared(m, kpt, t.value, 1) then
      TableAt(m', root', Pt(p.pml4, p.pdp, p.pd)) == t && w' == w
    else if w.address == 0 then w' == w
    else
      && w' == Redirected(w, w'.address) && w.address < |m| && w'.address < |m'| && w'.address in taken
      && m'[w'.address] == View(m, kpt, w.address)
  }

  lemma {:induction false} EntryInFoot(m: Ram, kpt: nat, t: seq<Word>, k: nat, n: nat, i: nat)
    requires WellSized(m) && k > 0 && i < n <= |t| && t[i].address != 0
    ensures Foot(m, kpt, t[i].address, k - 1) <= FootKids(m, kpt, t, k, n)
    decreases n
  {
    if i < n - 1 {
      EntryInFoot(m, kpt, t, k, n - 1, i);
    }
  }

  /** The copy of an address space translates every page as the original does. */
  lemma ForkedTranslation(m: Ram, free: set<nat>, m': Ram, free': set<nat>, root: nat, root': nat, kpt: nat, p: Page)
    requires Tree(m, root) && TableAt(m, root, KERNEL_PT) == Some(kpt)
    requires forall n :: TableAt(m, root, n).Some? ==> TableAt(m, root, n).value !in free
    requires ChildCopied(m, free, m', free', kpt, root, root', 4) && InRange(p)
    ensures PageForked(m, m', root, root', kpt, free - free', p)
  {
    ForkedBelow(m, free, m', free', root, root', kpt, p, 4);
  }

  lemma ForkedBelow(m: Ram, free: set<nat>, m': Ram, free': set<nat>, root: nat, root': nat, kpt: nat, p: Page, top: nat)
    requires Tree(m, root) && TableAt(m, root, KERNEL_PT) == Some(kpt)
    requires forall n :: TableAt(m, root, n).Some? ==> TableAt(m, root, n).value !in free
    requires top == 4 && ChildCopied(m, free, m', free', kpt, root, root', top) && InRange(p)
    ensures PageForked(m, m', root, root', kpt, free - free', p)
  {
    var n := Pt(p.pml4, p.pdp, p.pd);
    ForkedPt(m, m', root, root', kpt, top, p.pml4, p.pdp, p.pd);
    if TableAt(m, root, n).Some? {
      var f, g := TableAt(m, root, n).value, TableAt(m', root', n).value;
      if !Shared(m, kpt, f, top - 3) {
        EntryCopied(m, m', kpt, f, g, top - 3, p.pt);
      }
    }
  }

  // ---- what a fork keeps, field by field ----

  /** The low five flags agree, and everything between and above the frame number is clear in the copy. */
  ghost predicate SameRights(w: Word, w': Word) {
    && w'.present == w.present && w'.writable == w.writable && w'.user == w.user
    && w'.cacheMode == w.cacheMode && w'.cacheDisable == w.cacheDisable && w'.middle == 0 && w'.high == 0
  }

  /** The page table over page `p` is neither the kernel's nor one whose slot 0 maps the kernel's. */
  ghost predicate OwnTable(m: Ram, root: nat, kpt: nat, p: Page) {
    var t := TableAt(m, root, Pt(p.pml4, p.pdp, p.pd));
    t.Some? && t.value != kpt && Entry(m, t, 0).address != kpt
  }

  /** A page of a table that is not shared keeps its rights in the copy and has a frame of its own with the same
      contents. */
  lemma ForkKeepsPage(m: Ram, free: set<nat>, m': Ram, free': set<nat>, root: nat, root': nat, kpt: nat, p: Page)
    requires Tree(m, root) && TableAt(m, root, KERNEL_PT) == Some(kpt)
    requires forall n :: TableAt(m, root, n).Some? ==> TableAt(m, root, n).value !in free
    requires ChildCopied(m, free, m', free', kpt, root, root', 4) && InRange(p)
    requires OwnTable(m, root, kpt, p) && Walk(m, root, p).address != 0
    ensures var w, w' := Walk(m, root, p), Walk(m', root', p);
            && SameRights(w, w') && w'.address in free && w'.address !in free' && w.address < |m| && w'.address < |m'|
            && (w.address != kpt ==> m'[w'.address] == m[w.address])
  {
    ForkedTranslation(m, free, m', free', root, root', kpt, p);
  }

  lemma LinkBelow(m: Ram, m': Ram, root: nat, root': nat, kpt: nat, n: Node, k: nat)
    requires Tree(m, root) && TableAt(m, root, KERNEL_PT) == Some(kpt) && WellSized(m')
    requires !n.Root? && k > 1 && TableAt(m, root, n).Some? && Slot(n) < 512
    requires TableAt(m, root, Parent(n)).Some? && TableAt(m', root', Parent(n)).Some?
    requires Copied(m, m', kpt, TableAt(m, root, Parent(n)).value, TableAt(m', root', Parent(n)).value, k)
    ensures SameRights(LinkTo(m, root, n), LinkTo(m', root', n))
  {
    assert Apart(m, root, Parent(n), KERNEL_PT);
    EntryCopied(m, m', kpt, TableAt(m, root, Parent(n)).value, TableAt(m', root', Parent(n)).value, k, Slot(n));
  }

  /** The links to all tables keep their rights in the copy, at every level. */
  lemma ForkKeepsLinks(m: Ram, m': Ram, root: nat, root': nat, kpt: nat, n: Node, top: nat)
    requires Tree(m, root) && TableAt(m, root, KERNEL_PT) == Some(kpt) && WellSized(m')
    requires top > 3 && Copied(m, m', kpt, root, root', top) && !n.Root? && TableAt(m, root, n).Some?
    ensures TableAt(m', root', n).Some? && SameRights(LinkTo(m, root, n), LinkTo(m', root', n))
  {
    match n
    case Pdp(a) => LinkBelow(m, m', root, root', kpt, n, top); ForkedPdp(m, m', root, root', kpt, top, a);
    case Pd(a, b) => LinkOfPd(m, m', root, root', kpt, a, b, top);
    case Pt(a, b, c) => LinkOfPt(m, m', root, root', kpt, a, b, c, top);
  }

  lemma LinkOfPd(m: Ram, m': Ram, root: nat, root': nat, kpt: nat, a: nat, b: nat, top: nat)
    requires Tree(m, root) && TableAt(m, root, KERNEL_PT) == Some(kpt) && WellSized(m')
    requires top > 3 && Copied(m, m', kpt, root, root', top) && TableAt(m, root, Pd(a, b)).Some?
    ensures TableAt(m', root', Pd(a, b)).Some? && SameRights(LinkTo(m, root, Pd(a, b)), LinkTo(m', root', Pd(a, b)))
  {
    ForkedPdp(m, m', root, root', kpt, top, a);
    LinkBelow(m, m', root, root', kpt, Pd(a, b), top - 1);
    ForkedPd(m, m', root, root', kpt, top, a, b);
  }

  lemma LinkOfPt(m: Ram, m': Ram, root: nat, root': nat, kpt: nat, a: nat, b: nat, c: nat, top: nat)
    requires Tree(m, root) && TableAt(m, root, KERNEL_PT) == Some(kpt) && WellSized(m')
    requires top > 3 && Copied(m, m', kpt, root, root', top) && TableAt(m, root, Pt(a, b, c)).Some?
    ensures TableAt(m', root', Pt(a, b, c)).Some? && SameRights(LinkTo(m, root, Pt(a, b, c)), LinkTo(m', root', Pt(a, b, c)))
  {
    ForkedPd(m, m', root, root', kpt, top, a, b);
    LinkBelow(m, m', root, root', kpt, Pt(a, b, c), top - 2);
    ForkedPt(m, m', root, root', kpt, top, a, b, c);
  }

  /** No table is there in the copy that is not there in the source. */
  lemma ForkAddsNoTable(m: Ram, m': Ram, root: nat, root': nat, kpt: nat, n: Node, top: nat)
    requires Tree(m, root) && TableAt(m, root, KERNEL_PT) == Some(kpt) && WellSized(m')
    requires top > 3 && Copied(m, m', kpt, root, root', top)
    ensures TableAt(m', root', n).Some? <==> TableAt(m, root, n).Some?
  {
    match n
    case Root =>
    case Pdp(a) => ForkedPdp(m, m', root, root', kpt, top, a);
    case Pd(a, b) => ForkedPd(m, m', root, root', kpt, top, a, b);
    case Pt(a, b, c) => ForkedPt(m, m', root, root', kpt, top, a, b, c);
  }

  /** User mode reaches the same pages before and after a fork. */
  lemma ForkKeepsReach(m: Ram, free: set<nat>, m': Ram, free': set<nat>, root: nat, root': nat, kpt: nat, p: Page)
    requires Tree(m, root) && TableAt(m, root, KERNEL_PT) == Some(kpt)
    requires forall n :: TableAt(m, root, n).Some? ==> TableAt(m, root, n).value !in free
    requires ChildCopied(m, free, m', free', kpt, root, root', 4) && InRange(p)
    ensures UserReaches(m', root', p) <==> UserReaches(m, root, p)
  {
    var a, b, c := Pdp(p.pml4), Pd(p.pml4, p.pdp), Pt(p.pml4, p.pdp, p.pd);
    ForkedTranslation(m, free, m', free', root, root', kpt, p);
    ForkAddsNoTable(m, m', root, root', kpt, c, 4);
    if TableAt(m, root, c).Some? {
      ForkKeepsLinks(m, m', root, root', kpt, a, 4);
      ForkKeepsLinks(m, m', root, root', kpt, b, 4);
      ForkKeepsLinks(m, m', root, root', kpt, c, 4);
    }
  }

  /** `copy_pages`: the whole address space at `cr3` is forked. The frames of the new one are
      exactly those allocated, each in one place only; the source is untouched; and every page
      translates to the same contents with the same access rights. */
  method CopyAddressSpace(mmu: Mmu, cr3: nat) returns (root: nat)
    requires mmu.Valid() && mmu.Closed() && mmu.kernel_pt < 0x1_0000
    requires Tree(mmu.mem, cr3) && TableAt(mmu.mem, cr3, KERNEL_PT) == Some(mmu.kernel_pt)
    requires Visitable(mmu.mem, mmu.kernel_pt, mmu.Free(), cr3, 4)
    requires forall n :: TableAt(mmu.mem, cr3, n).Some? ==> TableAt(mmu.mem, cr3, n).value !in mmu.Free()
    requires Need(mmu.mem, mmu.kernel_pt, cr3, 4) <= |mmu.Free()|
    modifies mmu`mem, mmu.frames
    ensures mmu.Valid() && mmu.Closed() && SameTranslation(old(mmu.mem), mmu.mem, mmu.pml4)
    ensures ChildCopied(old(mmu.mem), old(mmu.Free()), mmu.mem, mmu.Free(), mmu.kernel_pt, cr3, root, 4)
    ensures forall p | InRange(p) ::
              PageForked(old(mmu.mem), mmu.mem, cr3, root, mmu.kernel_pt, old(mmu.Free()) - mmu.Free(), p)
    ensures forall p | InRange(p) && OwnTable(old(mmu.mem), cr3, mmu.kernel_pt, p) && Walk(old(mmu.mem), cr3, p).address != 0 ::
              SameRights(Walk(old(mmu.mem), cr3, p), Walk(mmu.mem, root, p))
    ensures forall n: Node | !n.Root? && TableAt(old(mmu.mem), cr3, n).Some? ::
              TableAt(mmu.mem, root, n).Some? && SameRights(LinkTo(old(mmu.mem), cr3, n), LinkTo(mmu.mem, root, n))
    ensures forall p | InRange(p) :: UserReaches(mmu.mem, root, p) <==> UserReaches(old(mmu.mem), cr3, p)
  {
    assert TableAt(mmu.mem, cr3, Root) == Some(cr3);
    root := CopyPage(mmu, cr3, 4);
    ForkedAddressSpace(old(mmu.mem), old(mmu.Free()), mmu.mem, mmu.Free(), cr3, root, mmu.kernel_pt);
  }

  lemma ForkedAddressSpace(m: Ram, free: set<nat>, m': Ram, free': set<nat>, root: nat, root': nat, kpt: nat)
    requires Tree(m, root) && TableAt(m, root, KERNEL_PT) == Some(kpt)
    requires forall n :: TableAt(m, root, n).Some? ==> TableAt(m, root, n).value !in free
    requires ChildCopied(m, free, m', free', kpt, root, root', 4)
    ensures forall p | InRange(p) :: PageForked(m, m', root, root', kpt, free - free', p)
    ensures forall p | InRange(p) && OwnTable(m, root, kpt, p) && Walk(m, root, p).address != 0 :: SameRights(Walk(m, root, p), Walk(m', root', p))
    ensures forall n: Node | !n.Root? && TableAt(m, root, n).Some? ::
              TableAt(m', root', n).Some? && SameRights(LinkTo(m, root, n), LinkTo(m', root', n))
    ensures forall p | InRange(p) :: UserReaches(m', root', p) <==> UserReaches(m, root, p)
  {
    forall p | InRange(p)
      ensures PageForked(m, m', root, root', kpt, free - free', p)
      ensures UserReaches(m', root', p) <==> UserReaches(m, root, p)
      ensures OwnTable(m, root, kpt, p) && Walk(m, root, p).address != 0 ==> SameRights(Walk(m, root, p), Walk(m', root', p))
    {
      ForkedTranslation(m, free, m', free', root, root', kpt, p);
      ForkKeepsReach(m, free, m', free', root, root', kpt, p);
      if OwnTable(m, root, kpt, p) && Walk(m, root, p).address != 0 {
        ForkKeepsPage(m, free, m', free', root, root', kpt, p);
      }
    }
    forall n: Node | !n.Root? && TableAt(m, root, n).Some?
      ensures TableAt(m', root', n).Some? && SameRights(LinkTo(m, root, n), LinkTo(m', root', n))
    {
      ForkKeepsLinks(m, m', root, root', kpt, n, 4);
    }
  }
}
