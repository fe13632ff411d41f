/** What `copy_page` (mm/page.c:290-334) copies and what a copy is. A table of level `k` is a tree
    of height `k`; level 0 is a page of data. */
module TreeCopy {
  import opened PageTables

  /** Frame `f` as read through the window: while the kernel page table itself is mounted there,
      its slot 0 names it. */
  function View(m: Ram, kpt: nat, f: nat): seq<Word>
    requires WellSized(m) && f < |m|
    ensures |View(m, kpt, f)| == 512
  {
    if f == kpt then m[f][0 := CalcPage(kpt)] else m[f]
  }

  /** The early return of `copy_page`: slot 0 of a page table leads to the kernel page table. */
  predicate Shared(m: Ram, kpt: nat, f: nat, k: nat)
    requires WellSized(m) && f < |m|
  {
    k == 1 && View(m, kpt, f)[0].address == kpt
  }

  /** The early return fires for the kernel page table, and for no page table but one whose slot 0
      maps the kernel page table's own frame. */
  lemma SharedIsKernelTable(m: Ram, kpt: nat, f: nat)
    requires WellSized(m) && f < |m|
    ensures Shared(m, kpt, f, 1) <==> f == kpt || m[f][0].address == kpt
    ensures m[f][0].address != kpt ==> (Shared(m, kpt, f, 1) <==> f == kpt)
  {
  }

  /** Every frame the copy visits lies in memory and is not free. */
  ghost predicate Visitable(m: Ram, kpt: nat, free: set<nat>, f: nat, k: nat)
    requires WellSized(m)
    decreases k
  {
    && f < |m| && f !in free
    && (k > 0 && !Shared(m, kpt, f, k) ==>
          forall i | 0 <= i < 512 :: VisitableEntry(m, kpt, free, View(m, kpt, f)[i], k))
  }

  ghost predicate VisitableEntry(m: Ram, kpt: nat, free: set<nat>, w: Word, k: nat)
    requires WellSized(m) && k > 0
    decreases k, 0
  {
    w.address != 0 ==> Visitable(m, kpt, free, w.address, k - 1)
  }

  /** How many frames the copy allocates: one for every table and page it does not share. */
  ghost function Need(m: Ram, kpt: nat, f: nat, k: nat): nat
    requires WellSized(m)
    decreases k, 513
  {
    if f >= |m| || Shared(m, kpt, f, k) then 0
    else if k == 0 then 1
    else 1 + NeedKids(m, kpt, View(m, kpt, f), k, 512)
  }

  ghost function NeedKids(m: Ram, kpt: nat, t: seq<Word>, k: nat, n: nat): nat
    requires WellSized(m) && k > 0 && n <= |t|
    decreases k, n
  {
    if n == 0 then 0
    else NeedKids(m, kpt, t, k, n - 1) + if t[n - 1].address == 0 then 0 else Need(m, kpt, t[n - 1].address, k - 1)
  }

  /** The frames of the tree at `f`, without the shared kernel page table and what is below it. */
  ghost function Foot(m: Ram, kpt: nat, f: nat, k: nat): set<nat>
    requires WellSized(m)
    decreases k, 513
  {
    if f >= |m| || Shared(m, kpt, f, k) then {}
    else if k == 0 then {f}
    else {f} + FootKids(m, kpt, View(m, kpt, f), k, 512)
  }

  ghost function FootKids(m: Ram, kpt: nat, t: seq<Word>, k: nat, n: nat): set<nat>
    requires WellSized(m) && k > 0 && n <= |t|
    decreases k, n
  {
    if n == 0 then {}
    else FootKids(m, kpt, t, k, n - 1) + if t[n - 1].address == 0 then {} else Foot(m, kpt, t[n - 1].address, k - 1)
  }

  /** No frame of the tree is reached twice. */
  ghost predicate Proper(m: Ram, kpt: nat, f: nat, k: nat)
    requires WellSized(m)
    decreases k, 513
  {
    f < |m| && !Shared(m, kpt, f, k) && k > 0 ==>
      f !in FootKids(m, kpt, View(m, kpt, f), k, 512) && ProperKids(m, kpt, View(m, kpt, f), k, 512)
  }

  ghost predicate ProperKids(m: Ram, kpt: nat, t: seq<Word>, k: nat, n: nat)
    requires WellSized(m) && k > 0 && n <= |t|
    decreases k, n
  {
    n == 0 ||
    (&& ProperKids(m, kpt, t, k, n - 1)
     && (t[n - 1].address != 0 ==>
           && Proper(m, kpt, t[n - 1].address, k - 1)
           && Foot(m, kpt, t[n - 1].address, k - 1) !! FootKids(m, kpt, t, k, n - 1)))
  }

  /** The tree at `g` in `m'` is a copy of the tree at `f` in `m`: the kernel page table is shared,
      pages have the same contents, and tables have the same entries up to the frame they name. */
  ghost predicate Copied(m: Ram, m': Ram, kpt: nat, f: nat, g: nat, k: nat)
    requires WellSized(m) && WellSized(m')
    decreases k
  {
    && f < |m|
    && if Shared(m, kpt, f, k) then g == f
       else
         && g < |m'| && g != kpt && !Shared(m', kpt, g, k)
         && (k == 0 ==> m'[g] == View(m, kpt, f))
         && (k > 0 ==> forall i | 0 <= i < 512 :: CopiedEntry(m, m', kpt, View(m, kpt, f)[i], m'[g][i], k))
  }

  /** An entry without an address is kept as it is; any other keeps its low five flags and names a
      copy. */
  ghost predicate CopiedEntry(m: Ram, m': Ram, kpt: nat, w: Word, w': Word, k: nat)
    requires WellSized(m) && WellSized(m') && k > 0
    decreases k, 0
  {
    if w.address == 0 then w' == w
    else w' == Redirected(w, w'.address) && w'.address != 0 && Copied(m, m', kpt, w.address, w'.address, k - 1)
  }

  /** `(h & 0x1F) | frame`. */
  function Redirected(w: Word, frame: nat): Word {
    Word(w.present, w.writable, w.user, w.cacheMode, w.cacheDisable, 0, frame, 0)
  }

  /** Memory did not change outside the frames `s`. */
  ghost predicate SameOutside(m: Ram, m': Ram, s: set<nat>) {
    && WellSized(m) && WellSized(m') && |m'| == |m|
    && forall x | 0 <= x < |m| && x !in s :: m'[x] == m[x]
  }

  /** A tree outside the free frames is not affected by writes to them. */
  lemma {:induction false} Stable(m: Ram, m': Ram, kpt: nat, free: set<nat>, free': set<nat>, f: nat, k: nat)
    requires SameOutside(m, m', free) && free' <= free && Visitable(m, kpt, free, f, k)
    ensures Visitable(m', kpt, free', f, k)
    ensures Need(m', kpt, f, k) == Need(m, kpt, f, k)
    ensures Foot(m', kpt, f, k) == Foot(m, kpt, f, k)
    ensures Proper(m', kpt, f, k) == Proper(m, kpt, f, k)
    decreases k, 513
  {
    assert View(m', kpt, f) == View(m, kpt, f);
    if k > 0 && !Shared(m, kpt, f, k) {
      StableKids(m, m', kpt, free, free', View(m, kpt, f), k, 512);
    }
  }

  lemma {:induction false} StableKids(m: Ram, m': Ram, kpt: nat, free: set<nat>, free': set<nat>, t: seq<Word>, k: nat, n: nat)
    requires SameOutside(m, m', free) && free' <= free && k > 0 && n <= |t|
    requires forall i | 0 <= i < n :: VisitableEntry(m, kpt, free, t[i], k)
    ensures forall i | 0 <= i < n :: VisitableEntry(m', kpt, free', t[i], k)
    ensures NeedKids(m', kpt, t, k, n) == NeedKids(m, kpt, t, k, n)
    ensures FootKids(m', kpt, t, k, n) == FootKids(m, kpt, t, k, n)
    ensures ProperKids(m', kpt, t, k, n) == ProperKids(m, kpt, t, k, n)
    decreases k, n
  {
    if n > 0 {
      StableKids(m, m', kpt, free, free', t, k, n - 1);
      assert VisitableEntry(m, kpt, free, t[n - 1], k);
      StableEntry(m, m', kpt, free, free', t[n - 1], k);
    }
  }

  lemma {:induction false} StableEntry(m: Ram, m': Ram, kpt: nat, free: set<nat>, free': set<nat>, w: Word, k: nat)
    requires SameOutside(m, m', free) && free' <= free && k > 0 && VisitableEntry(m, kpt, free, w, k)
    ensures VisitableEntry(m', kpt, free', w, k)
    ensures w.address != 0 ==>
              && Need(m', kpt, w.address, k - 1) == Need(m, kpt, w.address, k - 1)
              && Foot(m', kpt, w.address, k - 1) == Foot(m, kpt, w.address, k - 1)
              && Proper(m', kpt, w.address, k - 1) == Proper(m, kpt, w.address, k - 1)
    decreases k, 0
  {
    if w.address != 0 {
      Stable(m, m', kpt, free, free', w.address, k - 1);
    }
  }

  /** A copy of a tree is a copy of the same tree in any memory that agrees on it. */
  lemma {:induction false} CopiedFromSame(m: Ram, m': Ram, m1: Ram, kpt: nat, free: set<nat>, f: nat, g: nat, k: nat)
    requires SameOutside(m, m', free) && WellSized(m1) && Visitable(m, kpt, free, f, k)
    requires Copied(m', m1, kpt, f, g, k)
    ensures Copied(m, m1, kpt, f, g, k)
    decreases k
  {
    assert View(m', kpt, f) == View(m, kpt, f);
    if k > 0 && !Shared(m, kpt, f, k) {
      forall i | 0 <= i < 512
        ensures CopiedEntry(m, m1, kpt, View(m, kpt, f)[i], m1[g][i], k)
      {
        var w := View(m, kpt, f)[i];
        assert VisitableEntry(m, kpt, free, w, k) && CopiedEntry(m', m1, kpt, w, m1[g][i], k);
        if w.address != 0 {
          CopiedFromSame(m, m', m1, kpt, free, w.address, m1[g][i].address, k - 1);
        }
      }
    }
  }

  /** A copy survives writes to frames that are free. */
  lemma {:induction false} CopiedToSame(m: Ram, m1: Ram, m2: Ram, kpt: nat, free: set<nat>, f: nat, g: nat, k: nat)
    requires WellSized(m) && SameOutside(m1, m2, free) && Visitable(m1, kpt, free, g, k)
    requires Copied(m, m1, kpt, f, g, k)
    ensures Copied(m, m2, kpt, f, g, k)
    decreases k
  {
    if !Shared(m, kpt, f, k) {
      assert View(m2, kpt, g) == View(m1, kpt, g) == m1[g];
      if k > 0 {
        forall i | 0 <= i < 512
          ensures CopiedEntry(m, m2, kpt, View(m, kpt, f)[i], m2[g][i], k)
        {
          var w := View(m, kpt, f)[i];
          assert CopiedEntry(m, m1, kpt, w, m1[g][i], k) && VisitableEntry(m1, kpt, free, m1[g][i], k);
          if w.address != 0 {
            CopiedToSame(m, m1, m2, kpt, free, w.address, m1[g][i].address, k - 1);
          }
        }
      }
    }
  }
}
