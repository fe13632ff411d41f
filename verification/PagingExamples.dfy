/** A memory image as the kernel starts with, and what it shows. */
module PagingExamples {
  import opened PageTables
  import opened AddressSpace
  import PhysMap
  import Bits

  /** The four tables of the kernel in frames 1 to 4, none of them open to user mode. */
  function BootEntry(f: nat, i: nat): Word {
    if f == 1 && i == 511 then TableDesc(2, false)
    else if f == 2 && i == 511 then TableDesc(3, false)
    else if f == 3 && i == 0 then TableDesc(4, false)
    else NULL
  }

  function BootRam(): (m: Ram)
    ensures |m| == 512 && forall f | 0 <= f < 512 :: |m[f]| == 512 && forall i | 0 <= i < 512 :: m[f][i] == BootEntry(f, i)
  {
    seq(512, f requires 0 <= f => seq(512, i requires 0 <= i => BootEntry(f, i)))
  }

  function BootMap(): (halves: seq<nat>)
    ensures |halves| == 16 && forall h | 0 <= h < 16 :: halves[h] == 0
  {
    seq<nat>(16, _ => 0)
  }

  lemma BootTables(n: Node)
    ensures TableAt(BootRam(), 1, n) ==
            match n
            case Root => Some(1)
            case Pdp(a) => if a == 511 then Some(2) else None
            case Pd(a, b) => if a == 511 && b == 511 then Some(3) else None
            case Pt(a, b, c) => if a == 511 && b == 511 && c == 0 then Some(4) else None
  {
  }

  /** It meets the invariant of the address space, and half of its frames are free. */
  lemma BootIsSound()
    ensures Sound(BootRam(), 1, 4, BootMap())
    ensures forall f | 256 <= f < 512 :: f in PhysMap.FreePages(BootMap())
  {
    var m := BootRam();
    forall n: Node
      ensures TableAt(m, 1, n).Some? ==> 0 < TableAt(m, 1, n).value < 5
      ensures !n.Root? && TableAt(m, 1, n).Some? ==> LinkTo(m, 1, n).present
    {
      BootTables(n);
    }
    forall n: Node, o: Node
      ensures Apart(m, 1, n, o)
    {
      BootTables(n);
      BootTables(o);
    }
    BootTables(KERNEL_PT);
    forall f | 256 <= f < 512
      ensures f in PhysMap.FreePages(BootMap())
    {
      NoBits(f % 32);
    }
  }

  lemma {:induction false} NoBits(j: nat)
    ensures !Bits.Bit(0, j)
  {
    if j > 0 {
      NoBits(j - 1);
    }
  }

  /** A user page under a table that was mapped for the kernel: the page has its user bit, and user mode does not
      reach it. */
  method HiddenUserPage() returns (mmu: Mmu, p: Page)
    ensures mmu.Valid() && UserEntry(Walk(mmu.mem, mmu.pml4, p)) && !UserReaches(mmu.mem, mmu.pml4, p)
  {
    BootIsSound();
    var bitmap := new PhysMap.Bitmap(BootMap());
    mmu := new Mmu(BootRam(), 1, 4, bitmap);
    p := Page(511, 511, 0, 5);
    BootTables(Pdp(511));
    BootTables(Pd(511, 511));
    BootTables(Pt(511, 511, 0));
    BootTables(Root);
    assert 256 in mmu.Free();
    assert |Missing(mmu.mem, 1, p)| == 0;
    ghost var m := mmu.mem;
    var f := mmu.AllocPage(p, true);
    UserReach(m, mmu.mem, 1, p);
  }
}
