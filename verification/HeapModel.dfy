/** The kernel heap of mm/mem.c as a list of chunks: what an allocation and a release do to the
    list, and what every run of them keeps. */
module HeapModel {

  /** sizeof(kmem_header). */
  const HEADER: nat := 16

  datatype Chunk = Chunk(size: nat, free: bool)

  /** The bytes a list of chunks takes, headers included. */
  function Total(cs: seq<Chunk>): nat {
    if cs == [] then 0 else cs[0].size + HEADER + Total(cs[1..])
  }

  /** The address of the header of chunk `i` in a heap that starts at `base`. */
  function AddrOf(base: nat, cs: seq<Chunk>, i: nat): nat
    requires i <= |cs|
  {
    if i == 0 then base else AddrOf(base, cs, i - 1) + cs[i - 1].size + HEADER
  }

  /** The allocated blocks, as payload address and size. */
  function Live(base: nat, cs: seq<Chunk>): set<(nat, nat)>
    decreases |cs|
  {
    if cs == [] then {}
    else (if cs[0].free then {} else {(base + HEADER, cs[0].size)}) + Live(base + cs[0].size + HEADER, cs[1..])
  }

  /** No chunk is empty and no two free ones are adjacent. */
  predicate Coalesced(cs: seq<Chunk>) {
    && (forall i | 0 <= i < |cs| :: cs[i].size >= 1)
    && (forall i | 0 <= i < |cs| - 1 :: !(cs[i].free && cs[i + 1].free))
  }

  /** The chunks tile the `total` bytes of the heap and are coalesced. */
  predicate Tiled(cs: seq<Chunk>, total: nat) {
    cs != [] && Total(cs) == total && Coalesced(cs)
  }

  predicate Fitting(c: Chunk, n: nat) {
    c.free && c.size >= n
  }

  /** Cutting a block of size `n` off chunk `c`: the rest stays free if it can hold a header and a
      byte. */
  function Cut(c: Chunk, n: nat): seq<Chunk> {
    if c.size > n + HEADER then [Chunk(n, false), Chunk(c.size - n - HEADER, true)] else [Chunk(c.size, false)]
  }

  /** `kmalloc` on chunk `i`. */
  function AllocAt(cs: seq<Chunk>, i: nat, n: nat): seq<Chunk>
    requires i < |cs|
  {
    cs[..i] + Cut(cs[i], n) + cs[i + 1..]
  }

  /** The run of chunks that a release of chunk `i` joins: the chunk and its free neighbours. */
  function Lo(cs: seq<Chunk>, i: nat): nat
    requires i < |cs|
  {
    if i > 0 && cs[i - 1].free then i - 1 else i
  }

  function Hi(cs: seq<Chunk>, i: nat): nat
    requires i < |cs|
  {
    if i + 1 < |cs| && cs[i + 1].free then i + 2 else i + 1
  }

  /** `kfree` on chunk `i`: the chunk and its free neighbours become one free chunk. */
  function FreeAt(cs: seq<Chunk>, i: nat): seq<Chunk>
    requires i < |cs|
  {
    var lo, hi := Lo(cs, i), Hi(cs, i);
    cs[..lo] + [Chunk(Total(cs[lo..hi]) - HEADER, true)] + cs[hi..]
  }

  // ---- concatenation ----

  lemma {:induction false} TotalAppend(a: seq<Chunk>, b: seq<Chunk>)
    ensures Total(a + b) == Total(a) + Total(b)
  {
    if a == [] {
      assert a + b == b;
    } else {
      TotalAppend(a[1..], b);
      assert (a + b)[1..] == a[1..] + b;
    }
  }

  lemma {:induction false} AddrIsTotal(base: nat, cs: seq<Chunk>, i: nat)
    requires i <= |cs|
    ensures AddrOf(base, cs, i) == base + Total(cs[..i])
  {
    if i > 0 {
      AddrIsTotal(base, cs, i - 1);
      assert cs[..i] == cs[..i - 1] + [cs[i - 1]];
      TotalAppend(cs[..i - 1], [cs[i - 1]]);
      assert [cs[i - 1]][1..] == [];
    }
  }

  lemma {:induction false} LiveAppend(base: nat, a: seq<Chunk>, b: seq<Chunk>)
    ensures Live(base, a + b) == Live(base, a) + Live(base + Total(a), b)
    decreases |a|
  {
    if a == [] {
      assert a + b == b;
    } else {
      LiveAppend(base + a[0].size + HEADER, a[1..], b);
      assert (a + b)[1..] == a[1..] + b;
    }
  }

  /** Live blocks lie inside the space their chunks take. */
  lemma {:induction false} LiveInside(base: nat, cs: seq<Chunk>)
    ensures forall b | b in Live(base, cs) :: base + HEADER <= b.0 && b.0 + b.1 <= base + Total(cs)
    decreases |cs|
  {
    if cs != [] {
      LiveInside(base + cs[0].size + HEADER, cs[1..]);
    }
  }

  /** Live blocks do not overlap; there is a header between any two. */
  lemma {:induction false} LiveDisjoint(base: nat, cs: seq<Chunk>, b: (nat, nat), c: (nat, nat))
    requires b in Live(base, cs) && c in Live(base, cs) && b != c
    ensures b.0 + b.1 + HEADER <= c.0 || c.0 + c.1 + HEADER <= b.0
    decreases |cs|
  {
    var next := base + cs[0].size + HEADER;
    LiveInside(next, cs[1..]);
    if b in Live(next, cs[1..]) && c in Live(next, cs[1..]) {
      LiveDisjoint(next, cs[1..], b, c);
    }
  }

  lemma LiveSplit(base: nat, a: seq<Chunk>, x: seq<Chunk>, b: seq<Chunk>)
    ensures Total(a + x + b) == Total(a) + Total(x) + Total(b)
    ensures Live(base, a + x + b) ==
            Live(base, a) + Live(base + Total(a), x) + Live(base + Total(a) + Total(x), b)
  {
    TotalAppend(a + x, b);
    TotalAppend(a, x);
    LiveAppend(base, a + x, b);
    LiveAppend(base, a, x);
  }

  /** A block inside the segment `x` is not among the blocks before or after it. */
  lemma LiveApart(base: nat, a: seq<Chunk>, x: seq<Chunk>, b: seq<Chunk>, l: (nat, nat))
    requires l in Live(base + Total(a), x)
    ensures l !in Live(base, a) && l !in Live(base + Total(a) + Total(x), b)
    ensures forall c | c in Live(base, a) + Live(base + Total(a) + Total(x), b) :: c.0 != l.0
  {
    LiveInside(base, a);
    LiveInside(base + Total(a), x);
    LiveInside(base + Total(a) + Total(x), b);
  }

  // ---- allocation ----

  lemma CutFacts(base: nat, c: Chunk, n: nat)
    requires Fitting(c, n)
    ensures Total(Cut(c, n)) == Total([c]) && Live(base, [c]) == {}
    ensures Live(base, Cut(c, n)) == {(base + HEADER, Cut(c, n)[0].size)} && Cut(c, n)[0].size >= n
  {
    assert [c][1..] == [];
    var y := Cut(c, n);
    if |y| == 2 {
      assert y[1..] == [y[1]] && y[1..][1..] == [];
    } else {
      assert y[1..] == [];
    }
  }

  /** An allocation keeps the tiling and adds one block, at least as large as asked for; no other
      block is added, lost or moved. */
  lemma AllocKeeps(base: nat, cs: seq<Chunk>, total: nat, i: nat, n: nat)
    requires Tiled(cs, total) && i < |cs| && Fitting(cs[i], n) && n >= 1
    ensures Tiled(AllocAt(cs, i, n), total)
    ensures var p, s := AddrOf(base, cs, i) + HEADER, Cut(cs[i], n)[0].size;
            && s >= n && (forall b | b in Live(base, cs) :: b.0 != p)
            && Live(base, AllocAt(cs, i, n)) == Live(base, cs) + {(p, s)}
  {
    var a, y, b := cs[..i], Cut(cs[i], n), cs[i + 1..];
    assert cs == a + [cs[i]] + b;
    AddrIsTotal(base, cs, i);
    CutFacts(base + Total(a), cs[i], n);
    FillRun(base, a, [cs[i]], y, b, (base + Total(a) + HEADER, y[0].size));
    AllocCoalesced(cs, i, n);
  }

  /** Replacing a run without live blocks by one of the same length with a single block adds it. */
  lemma FillRun(base: nat, a: seq<Chunk>, x: seq<Chunk>, y: seq<Chunk>, b: seq<Chunk>, l: (nat, nat))
    requires Live(base + Total(a), x) == {} && Live(base + Total(a), y) == {l} && Total(x) == Total(y)
    ensures Total(a + y + b) == Total(a + x + b)
    ensures Live(base, a + y + b) == Live(base, a + x + b) + {l}
    ensures forall c | c in Live(base, a + x + b) :: c.0 != l.0
  {
    LiveSplit(base, a, x, b);
    LiveSplit(base, a, y, b);
    LiveApart(base, a, y, b, l);
  }

  lemma AllocCoalesced(cs: seq<Chunk>, i: nat, n: nat)
    requires Coalesced(cs) && i < |cs| && Fitting(cs[i], n) && n >= 1
    ensures Coalesced(AllocAt(cs, i, n))
  {
    var ds, extra := AllocAt(cs, i, n), |Cut(cs[i], n)| - 1;
    assert forall j | 0 <= j < i :: ds[j] == cs[j];
    assert forall j | i < j < |cs| :: ds[j + extra] == cs[j];
    assert forall j | i + extra < j < |ds| :: ds[j] == cs[j - extra];
  }

  // ---- release ----

  /** A run of chunks in which only chunk `k` is allocated. */
  lemma {:induction false} OneLive(base: nat, x: seq<Chunk>, k: nat)
    requires k < |x| && !x[k].free && forall j | 0 <= j < |x| && j != k :: x[j].free
    ensures Live(base, x) == {(base + Total(x[..k]) + HEADER, x[k].size)}
    decreases |x|
  {
    if k == 0 {
      NoneLive(base + x[0].size + HEADER, x[1..]);
    } else {
      OneLive(base + x[0].size + HEADER, x[1..], k - 1);
      assert x[..k][1..] == x[1..][..k - 1];
    }
  }

  lemma {:induction false} NoneLive(base: nat, x: seq<Chunk>)
    requires forall j | 0 <= j < |x| :: x[j].free
    ensures Live(base, x) == {}
    decreases |x|
  {
    if x != [] {
      NoneLive(base + x[0].size + HEADER, x[1..]);
    }
  }

  /** The list around chunk `i` before its release: only the chunk itself is allocated in the run
      that is joined. */
  lemma ReleasedRun(base: nat, cs: seq<Chunk>, i: nat)
    requires i < |cs| && !cs[i].free
    ensures var lo, hi := Lo(cs, i), Hi(cs, i);
            && cs == cs[..lo] + cs[lo..hi] + cs[hi..] && Total(cs[lo..hi]) >= HEADER
            && Live(base + Total(cs[..lo]), cs[lo..hi]) == {(AddrOf(base, cs, i) + HEADER, cs[i].size)}
  {
    var lo, hi := Lo(cs, i), Hi(cs, i);
    var a, x := cs[..lo], cs[lo..hi];
    assert AddrOf(base, cs, i) == base + Total(a) + Total(x[..i - lo]) by {
      AddrIsTotal(base, cs, i);
      assert cs[..i] == a + x[..i - lo];
      TotalAppend(a, x[..i - lo]);
    }
    assert x[i - lo] == cs[i] && forall j | 0 <= j < |x| && j != i - lo :: x[j].free;
    OneLive(base + Total(a), x, i - lo);
  }

  /** A release keeps the tiling and removes exactly the released block. */
  lemma FreeKeeps(base: nat, cs: seq<Chunk>, total: nat, i: nat)
    requires Tiled(cs, total) && i < |cs| && !cs[i].free
    ensures Tiled(FreeAt(cs, i), total)
    ensures Live(base, FreeAt(cs, i)) == Live(base, cs) - {(AddrOf(base, cs, i) + HEADER, cs[i].size)}
  {
    var lo, hi := Lo(cs, i), Hi(cs, i);
    var a, x, b := cs[..lo], cs[lo..hi], cs[hi..];
    ReleasedRun(base, cs, i);
    JoinRun(base, a, x, b, (AddrOf(base, cs, i) + HEADER, cs[i].size));
    assert cs == a + x + b && FreeAt(cs, i) == a + [Chunk(Total(x) - HEADER, true)] + b;
    FreeCoalesced(cs, i);
  }

  /** Making one free chunk of a run with a single live block removes that block. */
  lemma JoinRun(base: nat, a: seq<Chunk>, x: seq<Chunk>, b: seq<Chunk>, l: (nat, nat))
    requires Live(base + Total(a), x) == {l} && Total(x) >= HEADER
    ensures var y := [Chunk(Total(x) - HEADER, true)];
            && Total(a + y + b) == Total(a + x + b)
            && Live(base, a + y + b) == Live(base, a + x + b) - {l}
  {
    var y := [Chunk(Total(x) - HEADER, true)];
    assert Total(y) == Total(x) by {
      assert y[1..] == [];
    }
    var before, after := Live(base, a), Live(base + Total(a) + Total(x), b);
    assert Live(base, a + x + b) == before + {l} + after by {
      LiveSplit(base, a, x, b);
    }
    assert Live(base, a + y + b) == before + after by {
      LiveSplit(base, a, y, b);
      NoneLive(base + Total(a), y);
    }
    assert l !in before && l !in after by {
      LiveApart(base, a, x, b, l);
    }
    TotalAppend(a + y, b);
    TotalAppend(a, y);
    TotalAppend(a + x, b);
    TotalAppend(a, x);
  }

  lemma FreeCoalesced(cs: seq<Chunk>, i: nat)
    requires Coalesced(cs) && i < |cs| && !cs[i].free
    ensures Coalesced(FreeAt(cs, i))
  {
    var lo, hi, ds := Lo(cs, i), Hi(cs, i), FreeAt(cs, i);
    assert cs[lo..hi][1..] == cs[lo + 1..hi];
    assert forall j | 0 <= j < lo :: ds[j] == cs[j];
    assert forall j | lo < j < |ds| :: ds[j] == cs[j + hi - lo - 1];
    assert ds[lo].size >= 1;
  }

  /** Releasing what was just allocated restores the list. */
  lemma FreeUndoesAlloc(cs: seq<Chunk>, i: nat, n: nat)
    requires Coalesced(cs) && i < |cs| && Fitting(cs[i], n)
    ensures FreeAt(AllocAt(cs, i, n), i) == cs
  {
    var ds, y := AllocAt(cs, i, n), Cut(cs[i], n);
    assert ds[i] == y[0] && Lo(ds, i) == i;
    assert Hi(ds, i) == i + |y|;
    assert ds[i..i + |y|] == y;
    CutFacts(0, cs[i], n);
    assert [cs[i]][1..] == [];
    assert ds[i + |y|..] == cs[i + 1..];
  }

  // ---- runs ----

  /** Of two adjacent chunks one is allocated. */
  lemma SomeLive(base: nat, cs: seq<Chunk>)
    requires cs != [] && Coalesced(cs) && (|cs| > 1 || !cs[0].free)
    ensures Live(base, cs) != {}
  {
    var next := base + cs[0].size + HEADER;
    if cs[0].free {
      assert !cs[1].free && cs[1..][0] == cs[1];
      assert (next + HEADER, cs[1].size) in Live(next, cs[1..]);
    } else {
      assert (base + HEADER, cs[0].size) in Live(base, cs);
    }
  }

  /** When nothing is allocated the heap is one free chunk. */
  lemma AllFree(base: nat, cs: seq<Chunk>, total: nat)
    requires Tiled(cs, total) && Live(base, cs) == {}
    ensures cs == [Chunk(total - HEADER, true)]
  {
    if |cs| > 1 || !cs[0].free {
      SomeLive(base, cs);
      assert false;
    } else {
      assert cs[1..] == [] && cs == [cs[0]];
      assert Total(cs) == cs[0].size + HEADER;
      assert cs[0] == Chunk(total - HEADER, true);
    }
  }

  /** What a call was and what it answered. */
  datatype Event = Allocated(ask: nat, block: (nat, nat)) | Released(block: (nat, nat)) | Refused(ask: nat)

  /** `kmalloc(n)` takes the first fitting chunk, number `i`. */
  predicate AllocStep(base: nat, cs: seq<Chunk>, n: nat, block: (nat, nat), cs': seq<Chunk>, i: nat) {
    && i < |cs| && n >= 1 && Fitting(cs[i], n) && (forall j | 0 <= j < i :: !Fitting(cs[j], n))
    && block == (AddrOf(base, cs, i) + HEADER, Cut(cs[i], n)[0].size)
    && cs' == AllocAt(cs, i, n)
  }

  /** `kfree` of the block of chunk `i`. */
  predicate FreeStep(base: nat, cs: seq<Chunk>, block: (nat, nat), cs': seq<Chunk>, i: nat) {
    && i < |cs| && !cs[i].free
    && block == (AddrOf(base, cs, i) + HEADER, cs[i].size)
    && cs' == FreeAt(cs, i)
  }

  /** The heap at `base` goes from `cs` to `cs'` by the call `e`. */
  ghost predicate Step(base: nat, cs: seq<Chunk>, e: Event, cs': seq<Chunk>) {
    match e
    case Allocated(n, block) => exists i: nat :: AllocStep(base, cs, n, block, cs', i)
    case Released(block) => exists i: nat :: FreeStep(base, cs, block, cs', i)
    case Refused(n) => cs' == cs
  }

  /** The blocks a caller holds after the events `es`. */
  function Held(es: seq<Event>): set<(nat, nat)> {
    if es == [] then {}
    else
      var h, e := Held(es[..|es| - 1]), es[|es| - 1];
      match e
      case Allocated(_, block) => h + {block}
      case Released(block) => h - {block}
      case Refused(_) => h
  }

  ghost predicate IsRun(base: nat, states: seq<seq<Chunk>>, es: seq<Event>) {
    |states| == |es| + 1 && forall k | 0 <= k < |es| :: Step(base, states[k], es[k], states[k + 1])
  }

  /** What a call does to the blocks in use: it adds one that is large enough and lies nowhere else,
      or removes one, or leaves them. */
  ghost predicate Accounts(before: set<(nat, nat)>, e: Event, after: set<(nat, nat)>) {
    match e
    case Allocated(n, block) =>
      block.1 >= n && after == before + {block} && forall b | b in before :: b.0 != block.0
    case Released(block) => after == before - {block}
    case Refused(n) => after == before
  }

  lemma AllocStepKeeps(base: nat, cs: seq<Chunk>, n: nat, block: (nat, nat), cs': seq<Chunk>, i: nat, total: nat)
    requires Tiled(cs, total) && AllocStep(base, cs, n, block, cs', i)
    ensures Tiled(cs', total) && Accounts(Live(base, cs), Allocated(n, block), Live(base, cs'))
  {
    AllocKeeps(base, cs, total, i, n);
  }

  lemma FreeStepKeeps(base: nat, cs: seq<Chunk>, block: (nat, nat), cs': seq<Chunk>, i: nat, total: nat)
    requires Tiled(cs, total) && FreeStep(base, cs, block, cs', i)
    ensures Tiled(cs', total) && Accounts(Live(base, cs), Released(block), Live(base, cs'))
  {
    FreeKeeps(base, cs, total, i);
  }

  lemma StepKeeps(base: nat, cs: seq<Chunk>, e: Event, cs': seq<Chunk>, total: nat)
    requires Tiled(cs, total) && Step(base, cs, e, cs')
    ensures Tiled(cs', total) && Accounts(Live(base, cs), e, Live(base, cs'))
  {
    match e
    case Allocated(n, block) =>
      var i: nat :| AllocStep(base, cs, n, block, cs', i);
      AllocStepKeeps(base, cs, n, block, cs', i, total);
    case Released(block) =>
      var i: nat :| FreeStep(base, cs, block, cs', i);
      FreeStepKeeps(base, cs, block, cs', i, total);
    case Refused(n) =>
  }

  /** Every run from the initial heap keeps the tiling, and the allocated blocks are exactly those
      the caller holds. */
  lemma {:induction false} RunKeeps(base: nat, states: seq<seq<Chunk>>, es: seq<Event>, hlim: nat)
    requires hlim >= 1 && IsRun(base, states, es) && states[0] == [Chunk(hlim, true)]
    ensures Tiled(states[|es|], hlim + HEADER) && Live(base, states[|es|]) == Held(es)
    decreases es
  {
    if es == [] {
      assert states[0][1..] == [];
    } else {
      var n := |es| - 1;
      RunKeeps(base, states[..n + 1], es[..n], hlim);
      StepKeeps(base, states[n], es[n], states[n + 1], hlim + HEADER);
    }
  }

  /** Once everything has been released, in whatever order, the heap is the one `mem_init` made. */
  lemma RunRestores(base: nat, states: seq<seq<Chunk>>, es: seq<Event>, hlim: nat)
    requires hlim >= 1 && IsRun(base, states, es) && states[0] == [Chunk(hlim, true)]
    ensures states[|es|] == [Chunk(hlim, true)] <==> Held(es) == {}
  {
    RunKeeps(base, states, es, hlim);
    NoneLive(base, [Chunk(hlim, true)]);
    if Held(es) == {} {
      AllFree(base, states[|es|], hlim + HEADER);
    }
  }
}
