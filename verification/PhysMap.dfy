/** The first-fit frame bitmap of mm/phys.c. */
module PhysMap {
  import opened Bits

  /** The bit of page `p` in the map, read in 32-bit halves. */
  predicate Marked(halves: seq<nat>, p: nat) {
    p / 32 < |halves| && Bit(halves[p / 32], p % 32)
  }

  /** The pages the allocator may still hand out: clear bits at or above one megabyte. */
  ghost function FreePages(halves: seq<nat>): set<nat> {
    set p: nat | 256 <= p < 32 * |halves| && !Marked(halves, p)
  }

  lemma {:induction false} NumbersBelow(s: set<nat>, n: nat)
    requires forall x | x in s :: x < n
    ensures |s| <= n
  {
    if n == 0 {
      assert s == {};
    } else {
      NumbersBelow(s - {n - 1}, n - 1);
    }
  }

  lemma FreePagesFit(halves: seq<nat>)
    ensures |FreePages(halves)| <= 32 * |halves|
  {
    NumbersBelow(FreePages(halves), 32 * |halves|);
  }

  predicate WellFormed(halves: seq<nat>) {
    && 8 <= |halves| && |halves| % 2 == 0
    && forall h | 0 <= h < |halves| :: halves[h] < TWO_32
  }

  /** The 64-bit word `i` of the same memory (little endian). */
  function Word(halves: seq<nat>, i: nat): nat
    requires 2 * i + 1 < |halves|
  {
    halves[2 * i] + TWO_32 * halves[2 * i + 1]
  }

  ghost predicate FullHalf(halves: seq<nat>, h: nat)
    requires h < |halves|
  {
    LowBitsSet(halves[h], 32)
  }

  lemma FullHalfIsOnes(halves: seq<nat>, h: nat)
    requires WellFormed(halves) && h < |halves|
    ensures FullHalf(halves, h) <==> halves[h] == TWO_32 - 1
  {
    Pow2Of32();
    AllOnes(halves[h], 32);
  }

  /** One 64-bit comparison decides both halves. */
  lemma FullWord(halves: seq<nat>, i: nat)
    requires WellFormed(halves) && 2 * i + 1 < |halves|
    ensures Word(halves, i) == TWO_64 - 1 <==> FullHalf(halves, 2 * i) && FullHalf(halves, 2 * i + 1)
  {
    FullHalfIsOnes(halves, 2 * i);
    FullHalfIsOnes(halves, 2 * i + 1);
  }

  /** Setting the bit of one page leaves every other page as it was. */
  lemma MarkOne(halves: seq<nat>, h: nat, j: nat)
    requires WellFormed(halves) && 8 <= h < |halves| && j < 32
    ensures var halves' := halves[h := SetBit(halves[h], j)];
            && WellFormed(halves')
            && (forall p: nat :: Marked(halves', p) <==> p == 32 * h + j || Marked(halves, p))
            && FreePages(halves') == FreePages(halves) - {32 * h + j}
  {
    Pow2Of32();
    SetBitFits(halves[h], j, 32);
    var halves' := halves[h := SetBit(halves[h], j)];
    forall p: nat
      ensures Marked(halves', p) <==> p == 32 * h + j || Marked(halves, p)
    {
      SetBitIsOr(halves[h], j, p % 32);
      assert p == 32 * (p / 32) + p % 32;
    }
  }

  /** The inner scan of one half: the index of its lowest clear bit, or 32. */
  method FirstClearBit(itmp: nat) returns (j: nat)
    ensures j <= 32 && (j < 32 ==> !Bit(itmp, j)) && LowBitsSet(itmp, j)
  {
    j := 0;
    while j < 32 && SetBit(itmp, j) == itmp
      invariant 0 <= j <= 32 && LowBitsSet(itmp, j)
    {
      OrTestReadsBit(itmp, j);
      j := j + 1;
    }
    OrTestReadsBit(itmp, j);
  }

  /** Pages from one megabyte up to `n` are all taken. */
  ghost predicate TakenBelow(halves: seq<nat>, n: nat) {
    forall p: nat | 256 <= p < n :: Marked(halves, p)
  }

  lemma TakenAlongHalf(halves: seq<nat>, h: nat, j: nat)
    requires h < |halves| && j <= 32 && TakenBelow(halves, 32 * h) && LowBitsSet(halves[h], j)
    ensures TakenBelow(halves, 32 * h + j)
  {
    forall p: nat | 32 * h <= p < 32 * h + j
      ensures Marked(halves, p)
    {
      assert p / 32 == h;
    }
  }

  /** The scan: the first 64-bit word that is not all ones, then its two halves in turn.
      It stops at the lowest clear page at or above one megabyte, if any. */
  method FindClear(halves: seq<nat>) returns (h: nat, j: nat)
    requires WellFormed(halves)
    ensures h < |halves| ==> 8 <= h && j < 32 && !Bit(halves[h], j) && TakenBelow(halves, 32 * h + j)
    ensures h <= |halves|
    ensures h == |halves| ==> TakenBelow(halves, 32 * |halves|)
  {
    var phys_size := |halves| / 2;
    var i := 4;
    while i < phys_size && Word(halves, i) == TWO_64 - 1
      invariant 4 <= i <= phys_size
      invariant TakenBelow(halves, 64 * i)
    {
      FullWord(halves, i);
      TakenAlongHalf(halves, 2 * i, 32);
      TakenAlongHalf(halves, 2 * i + 1, 32);
      i := i + 1;
    }
    if i == phys_size {
      return |halves|, 0;
    }
    FullWord(halves, i);
    var k := 0;
    j := 32;
    while k < 2
      invariant 0 <= k <= 2
      invariant TakenBelow(halves, 64 * i + 32 * k)
      invariant forall c | 2 * i <= c < 2 * i + k :: FullHalf(halves, c)
    {
      j := FirstClearBit(halves[i * 2 + k]);
      TakenAlongHalf(halves, 2 * i + k, j);
      if j != 32 {
        break;
      }
      k := k + 1;
    }
    assert k < 2;  // a word that is not all ones has a clear bit: the `j == 32` exit is dead
    h := 2 * i + k;
  }

  lemma LowestFree(halves: seq<nat>, h: nat, j: nat)
    requires 8 <= h < |halves| && j < 32 && !Bit(halves[h], j) && TakenBelow(halves, 32 * h + j)
    ensures 32 * h + j in FreePages(halves)
    ensures forall q | q in FreePages(halves) :: 32 * h + j <= q
  {
    var p: nat := 32 * h + j;
    assert p / 32 == h && p % 32 == j;
  }

  lemma ClearBitsAreFree(halves: seq<nat>)
    ensures forall p: nat | 256 <= p < 32 * |halves| && !Bit(halves[p / 32], p % 32) :: p in FreePages(halves)
  {
  }

  class Bitmap {
    var ph_map: seq<nat>

    ghost predicate Valid()
      reads this
    {
      WellFormed(ph_map)
    }

    ghost function Free(): set<nat>
      reads this
    {
      FreePages(ph_map)
    }

    constructor (map0: seq<nat>)
      requires WellFormed(map0)
      ensures Valid() && ph_map == map0
    {
      ph_map := map0;
    }

    /** `alloc_phys_page`: the address of the lowest free page, or 0 when there is none. */
    method AllocPhysPage() returns (addr: nat)
      requires Valid()
      modifies this
      ensures Valid() && |ph_map| == |old(ph_map)|
      ensures old(Free()) == {} ==> addr == 0 && ph_map == old(ph_map)
      ensures old(Free()) != {} ==>
                && addr % 4096 == 0 && addr / 4096 in old(Free())
                && (forall q | q in old(Free()) :: addr / 4096 <= q)
                && Free() == old(Free()) - {addr / 4096}
                && forall p: nat :: Marked(ph_map, p) <==> p == addr / 4096 || Marked(old(ph_map), p)
      ensures forall p: nat | 256 <= p < 32 * |old(ph_map)| && !Bit(old(ph_map)[p / 32], p % 32) :: 256 <= addr / 4096 <= p
    {
      ClearBitsAreFree(ph_map);
      var h, j := FindClear(ph_map);
      if h == |ph_map| {
        assert Free() == {};
        return 0;
      }
      LowestFree(ph_map, h, j);
      MarkOne(ph_map, h, j);
      ph_map := ph_map[h := SetBit(ph_map[h], j)];
      addr := (32 * h + j) * 4096;
    }
  }
}
