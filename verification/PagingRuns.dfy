/** Whole runs of the page mapper: the four-level tables implement a plain map from pages to
    descriptors. */
module PagingRuns {
  import opened PageTables
  import opened AddressSpace
  import PhysMap

  datatype Op = Map(page: Page, desc: Word) | Unmap(page: Page) | Idle

  /** What one operation does to the descriptor `w` of page `p`. */
  function After(op: Op, p: Page, w: Word): Word {
    match op
    case Map(l, d) => Mounted(p, l, d, w)
    case Unmap(l) => if p == l then Absent(w) else w
    case Idle => w
  }

  /** The same for a run. */
  function AfterAll(ops: seq<Op>, p: Page, w: Word): Word {
    if ops == [] then w else After(ops[|ops| - 1], p, AfterAll(ops[..|ops| - 1], p, w))
  }

  /** A page shows the last descriptor mapped at it, if nothing after that names it. */
  lemma {:induction false} LastMapWins(ops: seq<Op>, rest: seq<Op>, l: Page, d: Word, w: Word)
    requires l != WINDOW && forall k | 0 <= k < |rest| :: rest[k].Idle? || rest[k].page != l
    ensures AfterAll(ops + [Map(l, d)] + rest, l, w) == d
    decreases rest
  {
    var all := ops + [Map(l, d)] + rest;
    if rest == [] {
      assert all[..|all| - 1] == ops;
    } else {
      LastMapWins(ops, rest[..|rest| - 1], l, d, w);
      assert all[..|all| - 1] == ops + [Map(l, d)] + rest[..|rest| - 1];
    }
  }

  /** A page that was unmapped and not named since is not present; nothing else of its descriptor has changed. */
  lemma {:induction false} UnmapStays(ops: seq<Op>, rest: seq<Op>, l: Page, w: Word)
    requires forall k | 0 <= k < |rest| :: rest[k].Idle? || rest[k].page != l
    ensures AfterAll(ops + [Unmap(l)] + rest, l, w) == AfterAll(ops, l, w).(present := false)
    decreases |rest|
  {
    var all := ops + [Unmap(l)] + rest;
    if rest == [] {
      assert all[..|all| - 1] == ops;
    } else {
      UnmapStays(ops, rest[..|rest| - 1], l, w);
      assert all[..|all| - 1] == ops + [Unmap(l)] + rest[..|rest| - 1];
    }
  }

  /** A page that is never named stays as it was. */
  lemma {:induction false} UnnamedStays(ops: seq<Op>, l: Page, w: Word)
    requires forall k | 0 <= k < |ops| :: ops[k].Idle? || ops[k].page != l
    ensures AfterAll(ops, l, w) == w
    decreases |ops|
  {
    if ops != [] {
      UnnamedStays(ops[..|ops| - 1], l, w);
    }
  }

  lemma OneMore(ops: seq<Op>, k: nat, p: Page, w: Word)
    requires k < |ops|
    ensures AfterAll(ops[..k + 1], p, w) == After(ops[k], p, AfterAll(ops[..k], p, w))
  {
    assert ops[..k + 1][..k] == ops[..k];
  }

  /** Memory `m` after the operations `ops` from `m0`: tables stay, pages translate as in the plain map. */
  ghost predicate Implements(m0: Ram, m: Ram, root: nat, ops: seq<Op>) {
    && (forall n :: TableAt(m0, root, n).Some? ==> TableAt(m, root, n) == TableAt(m0, root, n))
    && (forall p :: Walk(m, root, p) == AfterAll(ops, p, Walk(m0, root, p)))
  }

  ghost predicate StepDone(m: Ram, m': Ram, root: nat, op: Op) {
    && (forall n :: TableAt(m, root, n).Some? ==> TableAt(m', root, n) == TableAt(m, root, n))
    && (forall p :: Walk(m', root, p) == After(op, p, Walk(m, root, p)))
  }

  lemma ImplementsNext(m0: Ram, m: Ram, m': Ram, root: nat, ops: seq<Op>, k: nat)
    requires k < |ops| && Implements(m0, m, root, ops[..k]) && StepDone(m, m', root, ops[k])
    ensures Implements(m0, m', root, ops[..k + 1])
  {
    forall p
      ensures Walk(m', root, p) == AfterAll(ops[..k + 1], p, Walk(m0, root, p))
    {
      OneMore(ops, k, p, Walk(m0, root, p));
    }
  }

  // ---- calls and the frames they return ----

  /** `mount_page_do`, `umount_page`, `mount_page_do` of a newly created page, and `alloc_phys_page` by itself. */
  datatype Call = Mount(page: Page, desc: Word) | Umount(page: Page) | Alloc(page: Page, user: bool) | Take

  predicate Proper(c: Call) {
    c.Take? || InRange(c.page)
  }

  /** The call hands out a frame. */
  predicate Gives(c: Call) {
    c.Alloc? || c.Take?
  }

  /** What the call does to the map; `f` is the frame it was given. */
  function Effect(c: Call, f: nat): Op {
    match c
    case Mount(l, d) => Map(l, d)
    case Umount(l) => Unmap(l)
    case Alloc(l, user) => Map(l, TableDesc(f, user))
    case Take => Idle
  }

  function Log(cs: seq<Call>, fs: seq<nat>): (ops: seq<Op>)
    requires |fs| <= |cs|
    ensures |ops| == |fs| && forall i | 0 <= i < |fs| :: ops[i] == Effect(cs[i], fs[i])
  {
    seq(|fs|, i requires 0 <= i < |fs| => Effect(cs[i], fs[i]))
  }

  /** The pages the calls map. */
  function Targets(cs: seq<Call>): seq<Page> {
    if cs == [] then [] else (if cs[0].Umount? || cs[0].Take? then [] else [cs[0].page]) + Targets(cs[1..])
  }

  lemma TargetsOfFirst(cs: seq<Call>)
    requires cs != []
    ensures cs[0].Mount? || cs[0].Alloc? ==> Targets(cs) != [] && Targets(cs)[0] == cs[0].page && Targets(cs)[1..] == Targets(cs[1..])
    ensures cs[0].Umount? || cs[0].Take? ==> Targets(cs) == Targets(cs[1..])
  {
  }

  function Allocs(cs: seq<Call>): nat {
    if cs == [] then 0 else (if Gives(cs[0]) then 1 else 0) + Allocs(cs[1..])
  }

  /** The free frames that the calls use: one for each missing table and one for each new page. */
  ghost function Cost(m: Ram, root: nat, cs: seq<Call>): nat {
    |MissingIn(m, root, Targets(cs))| + Allocs(cs)
  }

  /** Frame `f` was free at first and now belongs to a page: it is neither free nor a table. */
  ghost predicate HandedOut(m: Ram, root: nat, free0: set<nat>, free: set<nat>, f: nat) {
    f in free0 && f !in free && f < |m| && !IsTable(m, root, f)
  }

  /** The frames given to the calls so far are handed out, each of them once. */
  ghost predicate Owned(m: Ram, root: nat, free0: set<nat>, free: set<nat>, cs: seq<Call>, fs: seq<nat>) {
    && |fs| <= |cs| && free <= free0
    && (forall i | 0 <= i < |fs| && Gives(cs[i]) :: HandedOut(m, root, free0, free, fs[i]))
    && (forall i, j | 0 <= i < j < |fs| && Gives(cs[i]) && Gives(cs[j]) :: fs[i] != fs[j])
  }

  /** Frames that are neither tables nor free stay so. */
  ghost predicate DataKept(m: Ram, free: set<nat>, m': Ram, free': set<nat>, root: nat) {
    |m'| == |m| && free' <= free && forall f | 0 <= f < |m| && f !in free && !IsTable(m, root, f) :: !IsTable(m', root, f)
  }

  lemma ExtendsKeepsData(m: Ram, free: set<nat>, m': Ram, free': set<nat>, root: nat, added: set<Node>)
    requires Extends(m, free, m', free', root, added)
    ensures DataKept(m, free, m', free', root)
  {
    forall f | 0 <= f < |m| && f !in free && !IsTable(m, root, f)
      ensures !IsTable(m', root, f)
    {
      DataStays(m, free, m', free', root, added, f);
    }
  }

  lemma OwnedNext(m: Ram, free: set<nat>, m': Ram, free': set<nat>, root: nat, free0: set<nat>, cs: seq<Call>, fs: seq<nat>, f: nat)
    requires Owned(m, root, free0, free, cs, fs) && |fs| < |cs| && DataKept(m, free, m', free', root)
    requires Gives(cs[|fs|]) ==> f in free && HandedOut(m', root, free0, free', f)
    ensures Owned(m', root, free0, free', cs, fs + [f])
  {
    var gs := fs + [f];
    forall i | 0 <= i < |gs| && Gives(cs[i])
      ensures HandedOut(m', root, free0, free', gs[i])
    {
      if i < |fs| {
        assert HandedOut(m, root, free0, free, fs[i]);
      }
    }
    forall i, j | 0 <= i < j < |gs| && Gives(cs[i]) && Gives(cs[j])
      ensures gs[i] != gs[j]
    {
      assert HandedOut(m, root, free0, free, fs[i]);
    }
  }

  lemma LogNext(m0: Ram, m: Ram, m': Ram, root: nat, cs: seq<Call>, fs: seq<nat>, f: nat)
    requires |fs| < |cs| && Implements(m0, m, root, Log(cs, fs)) && StepDone(m, m', root, Effect(cs[|fs|], f))
    ensures Implements(m0, m', root, Log(cs, fs + [f]))
  {
    var ops := Log(cs, fs + [f]);
    assert ops[..|fs|] == Log(cs, fs) && ops[..|fs| + 1] == ops;
    ImplementsNext(m0, m, m', root, ops, |fs|);
  }

  /** Every run of mounts, unmounts, page allocations and bare frame allocations over sound memory: all pages translate as in the
      plain map, no table ever moves, the tables stay a tree apart from the free frames, no frame is handed
      out twice or becomes a table after it was, and the number of frames used is exact. */
  method Run(mmu: Mmu, cs: seq<Call>) returns (fs: seq<nat>)
    requires mmu.Valid() && mmu.Closed()
    requires forall k | 0 <= k < |cs| :: Proper(cs[k])
    requires Cost(mmu.mem, mmu.pml4, cs) <= |mmu.Free()|
    modifies mmu`mem, mmu.frames
    ensures mmu.Valid() && mmu.Closed() && |fs| == |cs|
    ensures Implements(old(mmu.mem), mmu.mem, mmu.pml4, Log(cs, fs))
    ensures Owned(mmu.mem, mmu.pml4, old(mmu.Free()), mmu.Free(), cs, fs)
    ensures |mmu.Free()| == |old(mmu.Free())| - Cost(old(mmu.mem), mmu.pml4, cs)
  {
    ghost var m0, free0, budget := mmu.mem, mmu.Free(), |mmu.Free()| - Cost(mmu.mem, mmu.pml4, cs);
    fs := [];
    var k := 0;
    assert cs[0..] == cs;
    RunStart(m0, mmu.pml4, free0, cs);
    while k < |cs|
      invariant mmu.Valid() && mmu.Closed() && k == |fs| <= |cs|
      invariant |mmu.Free()| - Cost(mmu.mem, mmu.pml4, cs[k..]) == budget
      invariant Implements(m0, mmu.mem, mmu.pml4, Log(cs, fs)) && Owned(mmu.mem, mmu.pml4, free0, mmu.Free(), cs, fs)
    {
      assert cs[k..][1..] == cs[k + 1..];
      var f := NextCall(mmu, cs, fs, m0, free0);
      fs, k := fs + [f], k + 1;
    }
    RunEnd(mmu.mem, mmu.pml4, cs[k..]);
  }

  lemma RunStart(m: Ram, root: nat, free: set<nat>, cs: seq<Call>)
    ensures Implements(m, m, root, Log(cs, [])) && Owned(m, root, free, free, cs, [])
  {
  }

  lemma RunEnd(m: Ram, root: nat, cs: seq<Call>)
    requires cs == []
    ensures Cost(m, root, cs) == 0
  {
  }

  /** What a run shows at page `l`, after call `i` and if no later call names it: nothing present after an unmount; the
      descriptor after a mount; a plain descriptor of the frame given after an allocation. */
  lemma LastCallShows(m0: Ram, m: Ram, root: nat, cs: seq<Call>, fs: seq<nat>, i: nat, l: Page)
    requires i < |cs| == |fs| && Implements(m0, m, root, Log(cs, fs)) && !cs[i].Take? && cs[i].page == l != WINDOW
    requires forall j | i < j < |cs| :: cs[j].Take? || cs[j].page != l
    ensures cs[i].Umount? ==> !Walk(m, root, l).present
    ensures cs[i].Mount? ==> Walk(m, root, l) == cs[i].desc
    ensures cs[i].Alloc? ==> Plain(Walk(m, root, l), cs[i].user) && Walk(m, root, l).address == fs[i]
  {
    var ops := Log(cs, fs);
    var before, rest := ops[..i], ops[i + 1..];
    assert ops == before + [ops[i]] + rest;
    match ops[i]
    case Map(_, d) => LastMapWins(before, rest, l, d, Walk(m0, root, l));
    case Unmap(_) => UnmapStays(before, rest, l, Walk(m0, root, l));
  }

  /** The next call of a run. */
  method NextCall(mmu: Mmu, cs: seq<Call>, fs: seq<nat>, ghost m0: Ram, ghost free0: set<nat>) returns (f: nat)
    requires mmu.Valid() && mmu.Closed() && |fs| < |cs| && Proper(cs[|fs|])
    requires Cost(mmu.mem, mmu.pml4, cs[|fs|..]) <= |mmu.Free()|
    requires Implements(m0, mmu.mem, mmu.pml4, Log(cs, fs)) && Owned(mmu.mem, mmu.pml4, free0, mmu.Free(), cs, fs)
    modifies mmu`mem, mmu.frames
    ensures mmu.Valid() && mmu.Closed()
    ensures Implements(m0, mmu.mem, mmu.pml4, Log(cs, fs + [f])) && Owned(mmu.mem, mmu.pml4, free0, mmu.Free(), cs, fs + [f])
    ensures |mmu.Free()| - Cost(mmu.mem, mmu.pml4, cs[|fs|..][1..]) == |old(mmu.Free())| - Cost(old(mmu.mem), mmu.pml4, cs[|fs|..])
  {
    ghost var m, free := mmu.mem, mmu.Free();
    f := Step(mmu, cs[|fs|], cs[|fs|..]);
    LogNext(m0, m, mmu.mem, mmu.pml4, cs, fs, f);
    OwnedNext(m, free, mmu.mem, mmu.Free(), mmu.pml4, free0, cs, fs, f);
  }

  /** The first call of the rest `cs` of a run. */
  method Step(mmu: Mmu, c: Call, ghost cs: seq<Call>) returns (f: nat)
    requires mmu.Valid() && mmu.Closed() && Proper(c) && cs != [] && cs[0] == c
    requires Cost(mmu.mem, mmu.pml4, cs) <= |mmu.Free()|
    modifies mmu`mem, mmu.frames
    ensures mmu.Valid() && mmu.Closed()
    ensures StepDone(old(mmu.mem), mmu.mem, mmu.pml4, Effect(c, f))
    ensures DataKept(old(mmu.mem), old(mmu.Free()), mmu.mem, mmu.Free(), mmu.pml4)
    ensures Gives(c) ==> HandedOut(mmu.mem, mmu.pml4, old(mmu.Free()), mmu.Free(), f)
    ensures |mmu.Free()| - Cost(mmu.mem, mmu.pml4, cs[1..]) == |old(mmu.Free())| - Cost(old(mmu.mem), mmu.pml4, cs)
  {
    TargetsOfFirst(cs);
    match c
    case Mount(l, d) =>
      StepMount(mmu, l, d, Targets(cs));
      f := 0;
    case Umount(l) =>
      StepUmount(mmu, l, Targets(cs));
      f := 0;
    case Alloc(l, user) =>
      f := StepAlloc(mmu, l, user, Targets(cs));
    case Take =>
      f := StepTake(mmu);
  }

  method StepTake(mmu: Mmu) returns (f: nat)
    requires mmu.Valid() && mmu.Closed() && |mmu.Free()| > 0
    modifies mmu.frames
    ensures mmu.Valid() && mmu.Closed() && |mmu.Free()| == |old(mmu.Free())| - 1
    ensures DataKept(mmu.mem, old(mmu.Free()), mmu.mem, mmu.Free(), mmu.pml4)
    ensures HandedOut(mmu.mem, mmu.pml4, old(mmu.Free()), mmu.Free(), f)
  {
    f := mmu.CreatePage();
  }

  method StepMount(mmu: Mmu, l: Page, d: Word, ghost ts: seq<Page>)
    requires mmu.Valid() && mmu.Closed() && InRange(l) && ts != [] && ts[0] == l
    requires |MissingIn(mmu.mem, mmu.pml4, ts)| <= |mmu.Free()|
    modifies mmu`mem, mmu.frames
    ensures mmu.Valid() && mmu.Closed() && StepDone(old(mmu.mem), mmu.mem, mmu.pml4, Map(l, d))
    ensures DataKept(old(mmu.mem), old(mmu.Free()), mmu.mem, mmu.Free(), mmu.pml4)
    ensures |mmu.Free()| - |MissingIn(mmu.mem, mmu.pml4, ts[1..])|
            == |old(mmu.Free())| - |MissingIn(old(mmu.mem), mmu.pml4, ts)|
  {
    ghost var m, free := mmu.mem, mmu.Free();
    CostHead(m, mmu.pml4, ts);
    mmu.MountAt(l, d);
    CostOfTables(m, free, mmu.mem, mmu.Free(), mmu.pml4, ts);
    ExtendsKeepsData(m, free, mmu.mem, mmu.Free(), mmu.pml4, Missing(m, mmu.pml4, l));
  }

  method StepUmount(mmu: Mmu, l: Page, ghost ts: seq<Page>)
    requires mmu.Valid() && mmu.Closed() && InRange(l)
    modifies mmu`mem
    ensures mmu.Valid() && mmu.Closed() && StepDone(old(mmu.mem), mmu.mem, mmu.pml4, Unmap(l))
    ensures DataKept(old(mmu.mem), mmu.Free(), mmu.mem, mmu.Free(), mmu.pml4)
    ensures MissingIn(mmu.mem, mmu.pml4, ts) == MissingIn(old(mmu.mem), mmu.pml4, ts)
  {
    ghost var m := mmu.mem;
    var _ := mmu.UmountAt(l);
    LessMissing(m, mmu.Free(), mmu.mem, mmu.Free(), mmu.pml4, {}, ts);
    ExtendsKeepsData(m, mmu.Free(), mmu.mem, mmu.Free(), mmu.pml4, {});
  }

  method StepAlloc(mmu: Mmu, l: Page, user: bool, ghost ts: seq<Page>) returns (f: nat)
    requires mmu.Valid() && mmu.Closed() && InRange(l) && ts != [] && ts[0] == l
    requires 1 + |MissingIn(mmu.mem, mmu.pml4, ts)| <= |mmu.Free()|
    modifies mmu`mem, mmu.frames
    ensures mmu.Valid() && mmu.Closed() && StepDone(old(mmu.mem), mmu.mem, mmu.pml4, Map(l, TableDesc(f, user)))
    ensures DataKept(old(mmu.mem), old(mmu.Free()), mmu.mem, mmu.Free(), mmu.pml4)
    ensures HandedOut(mmu.mem, mmu.pml4, old(mmu.Free()), mmu.Free(), f)
    ensures |mmu.Free()| - |MissingIn(mmu.mem, mmu.pml4, ts[1..])|
            == |old(mmu.Free())| - 1 - |MissingIn(old(mmu.mem), mmu.pml4, ts)|
  {
    ghost var m, free := mmu.mem, mmu.Free();
    CostHead(m, mmu.pml4, ts);
    f := mmu.AllocPage(l, user);
    CostOfTables(m, free - {f}, mmu.mem, mmu.Free(), mmu.pml4, ts);
    ExtendsKeepsData(m, free - {f}, mmu.mem, mmu.Free(), mmu.pml4, Missing(m, mmu.pml4, l));
    PhysMap.FreePagesFit(old(mmu.frames.ph_map));
  }
}
