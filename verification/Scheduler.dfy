/** The task ring and the timer-driven switch of kernel/task.c, on one processor. */
module Scheduler {
  import opened ContextSwitch

  datatype TaskState = Active | Running | Starting

  /** `next` links the tasks of `ring` into one cycle, in this order. */
  ghost predicate IsRing(next: map<nat, nat>, ring: seq<nat>) {
    && ring != [] && Linked(next, ring, 0)
    && (forall i, j :: Differ(ring, i, j))
    && (forall i :: Linked(next, ring, i))
  }

  predicate Linked(next: map<nat, nat>, ring: seq<nat>, i: int) {
    0 <= i < |ring| ==> ring[i] in next && next[ring[i]] == ring[Succ(i, |ring|)]
  }

  predicate Differ(ring: seq<nat>, i: int, j: int) {
    0 <= i < j < |ring| ==> ring[i] != ring[j]
  }

  function Succ(i: nat, n: nat): nat {
    if i + 1 >= n then 0 else i + 1
  }

  /** The ring entered one task later. */
  function Rotated(ring: seq<nat>): (r: seq<nat>)
    requires ring != []
    ensures |r| == |ring| && forall i | 0 <= i < |r| :: r[i] == ring[Succ(i, |ring|)]
  {
    ring[1..] + [ring[0]]
  }

  /** A cycle may be entered anywhere. */
  lemma RotatedRing(next: map<nat, nat>, ring: seq<nat>)
    requires IsRing(next, ring)
    ensures IsRing(next, Rotated(ring))
  {
    var n, r := |ring|, Rotated(ring);
    forall i
      ensures Linked(next, r, i)
    {
      assert 0 <= i < n ==> Linked(next, ring, Succ(i, n));
    }
    forall i, j
      ensures Differ(r, i, j)
    {
      assert Differ(ring, i + 1, j + 1) && Differ(ring, 0, i + 1);
    }
  }

  /** Inserting `t` after the first task: the two assignments of `task_fork`. */
  lemma InsertedRing(next: map<nat, nat>, ring: seq<nat>, t: nat)
    requires IsRing(next, ring) && t !in ring
    ensures IsRing(next[t := next[ring[0]]][ring[0] := t], [ring[0], t] + ring[1..])
  {
    var n, next', r := |ring|, next[t := next[ring[0]]][ring[0] := t], [ring[0], t] + ring[1..];
    assert forall i | 2 <= i < n + 1 :: r[i] == ring[i - 1];
    forall i
      ensures Linked(next', r, i)
    {
      assert Linked(next, ring, i - 1) && Differ(ring, 0, i - 1);
      assert 2 <= i < |r| ==> ring[i - 1] in ring;
    }
    forall i, j
      ensures Differ(r, i, j)
    {
      assert Differ(ring, i - 1, j - 1) && Differ(ring, 0, j - 1);
      assert 2 <= j < |r| ==> r[j] in ring;
    }
  }

  /** The search loop of `task_switch`, starting after the first task of the ring: it ends on the first
      active task in ring order, at the latest on the task it started from. */
  method FirstActive(next: map<nat, nat>, state: map<nat, TaskState>, curr: nat, ghost ring: seq<nat>)
    returns (t: nat, ghost k: nat)
    requires IsRing(next, ring) && ring[0] == curr && (forall i | 0 <= i < |ring| :: ring[i] in state) && state[curr] == Active
    ensures 1 <= k <= |ring| && t == (if k == |ring| then ring[0] else ring[k]) && state[t] == Active
    ensures forall j | 1 <= j < k :: state[ring[j]] != Active
  {
    t, k := next[curr], 1;
    while state[t] != Active
      invariant 1 <= k <= |ring| && t == (if k == |ring| then ring[0] else ring[k])
      invariant forall j | 1 <= j < k :: state[ring[j]] != Active
      decreases |ring| - k
    {
      assert Linked(next, ring, k);
      t, k := next[t], k + 1;
    }
  }

  lemma StoreOne(m: map<nat, nat>, x: nat, w: nat)
    ensures At(m[x := w], x) == w && forall a: nat | a != x :: At(m[x := w], a) == At(m, a)
  {
  }

  /** `memcpy` of an `all_regs` record. */
  method CopyRecord(mem: map<nat, nat>, to: nat, from: nat) returns (mem': map<nat, nat>)
    requires from + 15 <= to || to + 15 <= from
    ensures Record(mem', to) == Record(mem, from)
    ensures SameOutside(mem, mem', to, to + 15)
  {
    mem' := mem;
    var k := 0;
    while k < 15
      invariant 0 <= k <= 15 && SameOutside(mem, mem', to, to + 15)
      invariant forall a: nat | to <= a < to + k :: At(mem', a) == At(mem, a - to + from)
    {
      ghost var was := mem';
      StoreOne(mem', to + k, At(mem', from + k));
      mem' := mem'[to + k := At(mem', from + k)];
      forall a: nat | to <= a < to + k + 1
        ensures At(mem', a) == At(mem, a - to + from)
      {
        assert At(was, from + k) == At(mem, from + k);
        assert a < to + k ==> At(was, a) == At(mem, a - to + from);
      }
      k := k + 1;
    }
    forall i | 0 <= i < 15
      ensures Record(mem', to)[i] == Record(mem, from)[i]
    {
      assert At(mem', to + i) == At(mem, (to + i) - to + from);
    }
  }

  /** Two records in memory with the same words are the same context. */
  lemma SameRecord(m: map<nat, nat>, m': map<nat, nat>, a: nat)
    requires forall x: nat | a <= x < a + 15 :: At(m', x) == At(m, x)
    ensures Record(m', a) == Record(m, a)
  {
    forall i | 0 <= i < 15
      ensures Record(m', a)[i] == Record(m, a)[i]
    {
      assert At(m', a + i) == At(m, a + i);
    }
  }

  /** Words of the interrupt stack, and of a task from its pid to the end of its registers. */
  const STACK: nat := 1024
  const TASK: nat := 16

  /** The record of task `t` starts after its pid. */
  function RecordOf(t: nat): nat {
    t + 1
  }

  /** The tasks lie apart from each other and from the interrupt stack that ends at `ist`. */
  ghost predicate Placed(ring: seq<nat>, ist: nat) {
    && ist >= STACK
    && (forall i | 0 <= i < |ring| :: 0 < ring[i] && (ring[i] + TASK <= ist - STACK || ist <= ring[i]))
    && (forall i, j :: Disjoint(ring, i, j))
  }

  predicate Disjoint(ring: seq<nat>, i: int, j: int) {
    0 <= i < j < |ring| ==> ring[i] + TASK <= ring[j] || ring[j] + TASK <= ring[i]
  }

  /** Every task but the first has its context in its record; the first one too if it is starting. */
  ghost predicate Recorded(mem: map<nat, nat>, ring: seq<nat>, saved: map<nat, seq<nat>>, starting: bool) {
    && (forall i | 0 <= i < |ring| :: ring[i] in saved)
    && (forall i | 1 <= i < |ring| :: Record(mem, RecordOf(ring[i])) == saved[ring[i]])
    && (starting && ring != [] ==> Record(mem, RecordOf(ring[0])) == saved[ring[0]])
  }

  /** Changes to the interrupt stack and to the first task leave the other records. */
  lemma OthersStay(m: map<nat, nat>, m': map<nat, nat>, ring: seq<nat>, saved: map<nat, seq<nat>>, ist: nat)
    requires ring != [] && Placed(ring, ist) && Recorded(m, ring, saved, false)
    requires forall a: nat :: !(ist - STACK <= a < ist) && !(ring[0] <= a < ring[0] + TASK) ==> At(m', a) == At(m, a)
    ensures Recorded(m', ring, saved, false)
  {
    forall i | 1 <= i < |ring|
      ensures Record(m', RecordOf(ring[i])) == saved[ring[i]]
    {
      assert Disjoint(ring, 0, i);
      SameRecord(m, m', RecordOf(ring[i]));
    }
  }

  lemma RotatedPlaces(ring: seq<nat>, ist: nat)
    requires ring != [] && Placed(ring, ist)
    ensures Placed(Rotated(ring), ist)
  {
    var r := Rotated(ring);
    forall i, j
      ensures Disjoint(r, i, j)
    {
      assert Disjoint(ring, i + 1, j + 1) && Disjoint(ring, 0, i + 1);
    }
  }

  /** On one processor every task but the current one is active, and its record holds the context it
      is to resume with. */
  ghost predicate Consistent(ist: nat, mem: map<nat, nat>, next: map<nat, nat>, state: map<nat, TaskState>, curr: nat,
                             ring: seq<nat>, saved: map<nat, seq<nat>>) {
    && IsRing(next, ring) && ring[0] == curr && Placed(ring, ist)
    && (forall i | 0 <= i < |ring| :: ring[i] in state)
    && (forall i | 1 <= i < |ring| :: state[ring[i]] == Active)
    && Recorded(mem, ring, saved, state[curr] == Starting)
  }

  lemma WorkKeeps(ist: nat, mem: map<nat, nat>, next: map<nat, nat>, state: map<nat, TaskState>, curr: nat,
                  ring: seq<nat>, saved: map<nat, seq<nat>>, m: map<nat, nat>)
    requires Consistent(ist, mem, next, state, curr, ring, saved)
    requires forall i | 0 <= i < |ring| :: forall a: nat | ring[i] <= a < ring[i] + TASK :: At(m, a) == At(mem, a)
    ensures Consistent(ist, m, next, state, curr, ring, saved)
  {
    forall i | 0 <= i < |ring|
      ensures Record(m, RecordOf(ring[i])) == Record(mem, RecordOf(ring[i]))
    {
      SameRecord(mem, m, RecordOf(ring[i]));
    }
  }

  lemma InsertKeeps(ist: nat, mem: map<nat, nat>, next: map<nat, nat>, state: map<nat, TaskState>, curr: nat,
                    ring: seq<nat>, saved: map<nat, seq<nat>>, t: nat)
    requires Consistent(ist, mem, next, state, curr, ring, saved) && t !in ring && Placed([curr, t] + ring[1..], ist)
    ensures Consistent(ist, mem, next[t := next[curr]][curr := t], state[t := Active], curr, [curr, t] + ring[1..],
                       saved[t := Record(mem, RecordOf(t))])
  {
    InsertedRing(next, ring, t);
    var r, state', saved' := [curr, t] + ring[1..], state[t := Active], saved[t := Record(mem, RecordOf(t))];
    forall i | 0 <= i < |r|
      ensures r[i] in state' && r[i] in saved'
      ensures i >= 1 ==> state'[r[i]] == Active && Record(mem, RecordOf(r[i])) == saved'[r[i]]
    {
      if i >= 2 {
        assert r[i] == ring[i - 1] && ring[i - 1] in ring;
      }
    }
  }

  lemma RotatedState(ring: seq<nat>, state: map<nat, TaskState>, curr: nat)
    requires ring != [] && ring[0] == curr && (forall i | 1 <= i < |ring| :: ring[i] in state && state[ring[i]] == Active)
    ensures forall i | 0 <= i < |ring| :: Rotated(ring)[i] in state[curr := Active] && state[curr := Active][Rotated(ring)[i]] == Active
  {
  }

  lemma RotatedRecords(m: map<nat, nat>, ring: seq<nat>, saved: map<nat, seq<nat>>, curr: nat)
    requires ring != [] && ring[0] == curr && (forall i, j :: Differ(ring, i, j)) && Recorded(m, ring, saved, false)
    ensures Recorded(m, Rotated(ring), saved[curr := Record(m, RecordOf(curr))], true)
  {
    var r, saved' := Rotated(ring), saved[curr := Record(m, RecordOf(curr))];
    forall i | 0 <= i < |r|
      ensures r[i] in saved' && Record(m, RecordOf(r[i])) == saved'[r[i]]
    {
      assert Differ(ring, 0, Succ(i, |ring|));
    }
  }

  /** The current task leaves with its context in its record; the next one becomes current. */
  lemma SwitchKeeps(ist: nat, mem: map<nat, nat>, next: map<nat, nat>, state: map<nat, TaskState>, curr: nat,
                    ring: seq<nat>, saved: map<nat, seq<nat>>, mem': map<nat, nat>)
    requires Consistent(ist, mem, next, state, curr, ring, saved)
    requires SameOutside(mem, mem', RecordOf(curr), RecordOf(curr) + 15)
    ensures var ring', state', saved' := Rotated(ring), state[curr := Active], saved[curr := Record(mem', RecordOf(curr))];
            && Consistent(ist, mem', next, state', ring'[0], ring', saved')
            && state'[ring'[0]] == Active && Recorded(mem', ring', saved', true)
  {
    RotatedRing(next, ring);
    RotatedPlaces(ring, ist);
    OthersStay(mem, mem', ring, saved, ist);
    RotatedState(ring, state, curr);
    RotatedRecords(mem', ring, saved, curr);
  }

  /** With every other task active, the search ends at once. */
  method NextTask(next: map<nat, nat>, state: map<nat, TaskState>, curr: nat, ghost ring: seq<nat>) returns (t: nat)
    requires IsRing(next, ring) && ring[0] == curr && (forall i | 0 <= i < |ring| :: ring[i] in state && state[ring[i]] == Active)
    ensures t == Rotated(ring)[0]
  {
    ghost var k;
    t, k := FirstActive(next, state, curr, ring);
  }

  /** `memcpy` of the interrupted registers at `r` to the record of the current task. */
  method SaveCurrent(ist: nat, mem: map<nat, nat>, curr: nat, r: nat, ghost ring: seq<nat>) returns (m: map<nat, nat>)
    requires ring != [] && ring[0] == curr && Placed(ring, ist) && ist - STACK <= r && r + 15 <= ist
    ensures Record(m, RecordOf(curr)) == Record(mem, r) && SameOutside(mem, m, RecordOf(curr), RecordOf(curr) + 15)
  {
    m := CopyRecord(mem, RecordOf(curr), r);
  }

  /** `task_switch` for a task that is not starting, on values. */
  method SwitchOver(ist: nat, mem: map<nat, nat>, next: map<nat, nat>, state: map<nat, TaskState>, curr: nat, r: nat,
                    ghost ring: seq<nat>, ghost saved: map<nat, seq<nat>>)
    returns (m: map<nat, nat>, st: map<nat, TaskState>, t: nat)
    requires Consistent(ist, mem, next, state, curr, ring, saved) && ist - STACK <= r && r + 15 <= ist
    ensures Consistent(ist, m, next, st, t, Rotated(ring), saved[curr := Record(mem, r)])
    ensures t in st && st[t] == Active && Recorded(m, Rotated(ring), saved[curr := Record(mem, r)], true)
    ensures st == state[curr := Active] && t == next[curr]
  {
    m := SaveCurrent(ist, mem, curr, r, ring);
    SwitchKeeps(ist, mem, next, state, curr, ring, saved, m);
    RotatedState(ring, state, curr);
    st := state[curr := Active];
    t := NextTask(next, st, curr, ring);
  }

  lemma PrepareKeeps(ist: nat, mem: map<nat, nat>, next: map<nat, nat>, state: map<nat, TaskState>, curr: nat,
                     ring: seq<nat>, saved: map<nat, seq<nat>>, m: map<nat, nat>)
    requires Consistent(ist, mem, next, state, curr, ring, saved) && SameOutside(mem, m, RecordOf(curr), RecordOf(curr) + 15)
    ensures Consistent(ist, m, next, state[curr := Starting], curr, ring, saved[curr := Record(m, RecordOf(curr))])
  {
    OthersStay(mem, m, ring, saved, ist);
    forall i | 1 <= i < |ring|
      ensures ring[i] != curr
    {
      assert Differ(ring, 0, i);
    }
  }

  /** What a turn of the timer does: a starting task keeps the processor and gets its prepared record with
      the cr3 of the moment; any other leaves `rec` behind, and the next in the ring resumes. */
  datatype Tasks = Tasks(ring: seq<nat>, saved: map<nat, seq<nat>>) {

    predicate Good() {
      && ring != [] && (forall i | 0 <= i < |ring| :: ring[i] in saved && |saved[ring[i]]| == 15)
    }

    function Turn(starting: bool, rec: seq<nat>): (ts: Tasks)
      requires Good() && |rec| == 15
      ensures ts.Good()
    {
      if starting then this else Tasks(Rotated(ring), saved[ring[0] := rec])
    }

    function Resumed(starting: bool, rec: seq<nat>): (r: seq<nat>)
      requires Good() && |rec| == 15
      ensures |r| == 15
    {
      if starting then saved[ring[0]][9 := rec[9]] else var ts := Turn(false, rec); ts.saved[ts.ring[0]]
    }
  }

  predicate IsStarting(state: map<nat, TaskState>, t: nat) {
    t in state && state[t] == Starting
  }

  /** Who runs, and in what state the old task is left: a starting task goes on as a running one; any other is left active,
      and the task it is linked to takes over. */
  predicate Handed(next: map<nat, nat>, state: map<nat, TaskState>, curr: nat, st: map<nat, TaskState>, t: nat) {
    if curr in state && state[curr] == Starting then t == curr && st == state[curr := Running]
    else curr in next && t == next[curr] && st == state[curr := Active]
  }

  /** `task_switch`: the record to resume from is that of `t`. */
  method TaskSwitch(ist: nat, mem: map<nat, nat>, next: map<nat, nat>, state: map<nat, TaskState>, curr: nat, r: nat,
                    ghost ts: Tasks)
    returns (m: map<nat, nat>, st: map<nat, TaskState>, t: nat)
    requires ts.Good() && Consistent(ist, mem, next, state, curr, ts.ring, ts.saved) && ist - STACK <= r && r + 15 <= ist
    ensures var s, rec := IsStarting(state, curr), Record(mem, r);
            && Consistent(ist, m, next, st, t, ts.Turn(s, rec).ring, ts.Turn(s, rec).saved)
            && !IsStarting(st, t) && Record(m, RecordOf(t)) == ts.Resumed(s, rec)
    ensures Handed(next, state, curr, st, t)
  {
    if state[curr] == Starting {
      t, st := curr, state[curr := Running];
      StoreOne(mem, RecordOf(curr) + 9, At(mem, r + 9));
      m := mem[RecordOf(curr) + 9 := At(mem, r + 9)];
      OthersStay(mem, m, ts.ring, ts.saved, ist);
      assert Record(m, RecordOf(t)) == Record(mem, RecordOf(t))[9 := At(mem, r + 9)];
    } else {
      m, st, t := SwitchOver(ist, mem, next, state, curr, r, ts.ring, ts.saved);
    }
  }

  /** Changes confined to the interrupt stack leave every record. */
  lemma StackKeeps(ist: nat, mem: map<nat, nat>, next: map<nat, nat>, state: map<nat, TaskState>, curr: nat,
                   ring: seq<nat>, saved: map<nat, seq<nat>>, m: map<nat, nat>)
    requires Consistent(ist, mem, next, state, curr, ring, saved) && SameOutside(mem, m, ist - STACK, ist)
    ensures Consistent(ist, m, next, state, curr, ring, saved)
  {
    WorkKeeps(ist, mem, next, state, curr, ring, saved, m);
  }

  /** Changes to the block of the task that now runs leave the state consistent. */
  lemma LeaveKeeps(ist: nat, mem: map<nat, nat>, next: map<nat, nat>, state: map<nat, TaskState>, curr: nat,
                   ring: seq<nat>, saved: map<nat, seq<nat>>, m: map<nat, nat>)
    requires Consistent(ist, mem, next, state, curr, ring, saved) && state[curr] != Starting
    requires SameOutside(mem, m, curr, curr + TASK)
    ensures Consistent(ist, m, next, state, curr, ring, saved)
  {
    OthersStay(mem, m, ring, saved, ist);
  }

  /** The C code of `task_switch` uses the stack below the record. */
  method Scribble(mem: map<nat, nat>, lo: nat, junk: seq<nat>) returns (m: map<nat, nat>)
    ensures SameOutside(mem, m, lo, lo + |junk|)
  {
    m := mem;
    for i := 0 to |junk|
      invariant SameOutside(mem, m, lo, lo + |junk|)
    {
      StoreOne(m, lo + i, junk[i]);
      m := m[lo + i := junk[i]];
    }
  }

  /** The first half of the interrupt, with whatever the C code leaves on its stack. */
  method EnterKernel(ist: nat, mem: map<nat, nat>, c: Context, ret: nat, junk: seq<nat>) returns (m: map<nat, nat>, r: nat)
    requires ist >= STACK && |junk| == STACK - 15
    ensures r == ist - 15 && Record(m, r) == Encode(c) && SameOutside(mem, m, ist - STACK, ist)
  {
    var st := Enter(mem, ist, c, ret);
    m := Scribble(st.mem, ist - STACK, junk);
    r := st.sp;
    ContextOfRecord(st.mem, r);
    SameRecord(st.mem, m, r);
  }

  /** `timer_intr` as a whole. */
  method TimerStep(ist: nat, mem: map<nat, nat>, next: map<nat, nat>, state: map<nat, TaskState>, curr: nat, c: Context,
                   ret: nat, junk: seq<nat>, ghost ts: Tasks)
    returns (m: map<nat, nat>, st: map<nat, TaskState>, t: nat, c': Context, ghost ts': Tasks)
    requires ts.Good() && Consistent(ist, mem, next, state, curr, ts.ring, ts.saved) && |junk| == STACK - 15
    ensures var s := IsStarting(state, curr);
            !IsStarting(st, t) && c' == Decode(ts.Resumed(s, Encode(c)))
    ensures Handed(next, state, curr, st, t)
    ensures ts' == ts.Turn(IsStarting(state, curr), Encode(c)) && Consistent(ist, m, next, st, t, ts'.ring, ts'.saved)
  {
    var m1, r := EnterKernel(ist, mem, c, ret, junk);
    StackKeeps(ist, mem, next, state, curr, ts.ring, ts.saved, m1);
    var m2;
    m2, st, t := TaskSwitch(ist, m1, next, state, curr, r, ts);
    ContextOfRecord(m2, RecordOf(t));
    m, c' := Leave(m2, RecordOf(t), ret);
    ts' := ts.Turn(IsStarting(state, curr), Encode(c));
    LeaveKeeps(ist, m2, next, st, t, ts'.ring, ts'.saved, m);
  }

  /** Whose turn is the `k`-th, round and round. */
  function Who(ring: seq<nat>, k: nat): (t: nat)
    requires ring != []
    decreases k
  {
    if k < |ring| then ring[k] else Who(ring, k - |ring|)
  }

  /** The `|ring|` turns from the `j`-th. */
  function Round(ring: seq<nat>, j: nat): (w: seq<nat>)
    requires ring != []
    ensures |w| == |ring| && forall i | 0 <= i < |ring| :: w[i] == Who(ring, j + i)
  {
    seq<nat>(|ring|, i requires 0 <= i => Who(ring, j + i))
  }

  /** Any `|ring|` turns in a row are one of each task. */
  lemma {:induction false} TurnsAreFair(ring: seq<nat>, j: nat)
    requires ring != []
    ensures multiset(Round(ring, j)) == multiset(ring)
  {
    var n, w := |ring|, Round(ring, j);
    if j == 0 {
      assert w == ring;
    } else {
      var v := Round(ring, j - 1);
      TurnsAreFair(ring, j - 1);
      assert Who(ring, j - 1 + n) == Who(ring, j - 1);
      forall i | 0 <= i < n - 1
        ensures w[i] == v[i + 1]
      {
        assert j + i == j - 1 + (i + 1);
      }
      assert w == v[1..] + [v[0]];
      assert v == [v[0]] + v[1..];
    }
  }

  /** The record the `k`-th turn is owed: the one prepared, or the one left `|ring|` turns earlier. */
  function Owed(ts: Tasks, work: seq<Context>, k: nat): (r: seq<nat>)
    requires ts.Good() && k < |ts.ring| + |work|
    ensures |r| == 15
  {
    if k < |ts.ring| then ts.saved[ts.ring[k]] else Encode(work[k - |ts.ring|])
  }

  /** After `j` turns from `ts0`: the ring has turned on by `j`, and every task but the first is owed its record. */
  ghost predicate Turned(ts0: Tasks, work: seq<Context>, j: nat, ts: Tasks)
    requires ts0.Good() && j <= |work|
  {
    && ts.Good() && |ts.ring| == |ts0.ring| && (forall a, b :: Differ(ts.ring, a, b))
    && (forall i | 0 <= i < |ts.ring| :: ts.ring[i] == Who(ts0.ring, j + i))
    && (forall i | 1 <= i < |ts.ring| :: ts.saved[ts.ring[i]] == Owed(ts0, work, j + i))
  }

  lemma TurnedAt(ts0: Tasks, work: seq<Context>, j: nat, ts: Tasks, i: nat)
    requires ts0.Good() && j < |work| && Turned(ts0, work, j, ts) && i < |ts.ring|
    ensures var ts' := ts.Turn(false, Encode(work[j]));
            ts'.ring[i] == Who(ts0.ring, j + 1 + i) && ts'.saved[ts'.ring[i]] == Owed(ts0, work, j + 1 + i)
  {
    var ts' := ts.Turn(false, Encode(work[j]));
    if i + 1 < |ts.ring| {
      var k := i + 1;
      assert Differ(ts.ring, 0, k);
      assert ts'.ring[i] == ts.ring[k] && ts.ring[k] == Who(ts0.ring, j + k);
    } else {
      assert ts'.ring[i] == ts.ring[0] && ts.ring[0] == Who(ts0.ring, j + 0);
      assert Who(ts0.ring, j + |ts.ring|) == Who(ts0.ring, j);
    }
  }

  lemma TurnedNext(ts0: Tasks, work: seq<Context>, j: nat, ts: Tasks)
    requires ts0.Good() && j < |work| && Turned(ts0, work, j, ts)
    ensures Turned(ts0, work, j + 1, ts.Turn(false, Encode(work[j])))
    ensures ts.Turn(false, Encode(work[j])).ring[0] == Who(ts0.ring, j + 1)
    ensures ts.Resumed(false, Encode(work[j])) == Owed(ts0, work, j + 1)
  {
    var ts' := ts.Turn(false, Encode(work[j]));
    forall i | 0 <= i < |ts.ring|
      ensures ts'.ring[i] == Who(ts0.ring, j + 1 + i) && ts'.saved[ts'.ring[i]] == Owed(ts0, work, j + 1 + i)
    {
      TurnedAt(ts0, work, j, ts, i);
    }
    forall a, b
      ensures Differ(ts'.ring, a, b)
    {
      assert Differ(ts.ring, a + 1, b + 1) && Differ(ts.ring, 0, a + 1);
    }
  }

  /** The writes `w` stay out of the tasks. */
  ghost predicate Outside(ring: seq<nat>, w: map<nat, nat>) {
    forall i | 0 <= i < |ring| :: forall a: nat | ring[i] <= a < ring[i] + TASK :: a !in w
  }

  lemma WritesStayOutside(ring: seq<nat>, mem: map<nat, nat>, w: map<nat, nat>)
    requires Outside(ring, w)
    ensures forall i | 0 <= i < |ring| :: forall a: nat | ring[i] <= a < ring[i] + TASK :: At(mem + w, a) == At(mem, a)
  {
  }

  // ---- runs ----

  /** What can happen: the running task works up to the context `work`, writing `writes`, and the timer interrupts
      it (the C code leaves `junk` on its stack); it forks a task at `t` with the prepared `record`; or it prepares
      a record for itself and starts over. */
  datatype Event =
    | Tick(work: Context, writes: map<nat, nat>, ret: nat, junk: seq<nat>)
    | Fork(t: nat, record: seq<nat>)
    | Start(record: seq<nat>)

  /** The tasks, and whether the first one is starting. */
  datatype Sched = Sched(ts: Tasks, starting: bool)

  predicate Shaped(e: Event) {
    (e.Tick? ==> |e.junk| == STACK - 15) && (e.Fork? ==> |e.record| == 15) && (e.Start? ==> |e.record| == 15)
  }

  function Next(s: Sched, e: Event): (s': Sched)
    requires s.ts.Good() && Shaped(e)
    ensures s'.ts.Good()
  {
    var ring, saved := s.ts.ring, s.ts.saved;
    match e
    case Tick(work, _, _, _) => Sched(s.ts.Turn(s.starting, Encode(work)), false)
    case Fork(t, record) => Sched(Tasks([ring[0], t] + ring[1..], saved[t := record]), s.starting)
    case Start(record) => Sched(Tasks(ring, saved[ring[0] := record]), true)
  }

  predicate AllShaped(es: seq<Event>) {
    forall k | 0 <= k < |es| :: Shaped(es[k])
  }

  /** The tasks after the first `k` events. */
  function SchedAt(s0: Sched, es: seq<Event>, k: nat): (s: Sched)
    requires s0.ts.Good() && AllShaped(es) && k <= |es|
    ensures s.ts.Good()
    decreases k
  {
    if k == 0 then s0 else Next(SchedAt(s0, es, k - 1), es[k - 1])
  }

  /** The task that runs after the first `k` events. */
  function TaskAt(s0: Sched, es: seq<Event>, k: nat): nat
    requires s0.ts.Good() && AllShaped(es) && k <= |es|
  {
    SchedAt(s0, es, k).ts.ring[0]
  }

  /** What task `t` last left with or had prepared for it in the first `k` events, found by looking back. */
  function Last(s0: Sched, es: seq<Event>, k: nat, t: nat): seq<nat>
    requires s0.ts.Good() && AllShaped(es) && k <= |es|
    decreases k
  {
    if k == 0 then (if t in s0.ts.saved then s0.ts.saved[t] else [])
    else
      match es[k - 1]
      case Tick(work, _, _, _) =>
        if TaskAt(s0, es, k - 1) == t && !SchedAt(s0, es, k - 1).starting then Encode(work) else Last(s0, es, k - 1, t)
      case Fork(u, record) => if u == t then record else Last(s0, es, k - 1, t)
      case Start(record) => if TaskAt(s0, es, k - 1) == t then record else Last(s0, es, k - 1, t)
  }

  /** The saved records are what looking back finds. */
  lemma {:induction false} SavedIsLast(s0: Sched, es: seq<Event>, k: nat, t: nat)
    requires s0.ts.Good() && AllShaped(es) && k <= |es| && t in SchedAt(s0, es, k).ts.saved
    ensures SchedAt(s0, es, k).ts.saved[t] == Last(s0, es, k, t)
    decreases k
  {
    if k > 0 {
      if t in SchedAt(s0, es, k - 1).ts.saved {
        SavedIsLast(s0, es, k - 1, t);
      }
    }
  }

  /** What the task resumed by tick `k` is to get: what it last left with or had prepared for it; a starting task
      goes on with the page table root it has. */
  function Due(s0: Sched, es: seq<Event>, k: nat): seq<nat>
    requires s0.ts.Good() && AllShaped(es) && k < |es| && es[k].Tick?
  {
    var last := Last(s0, es, k + 1, TaskAt(s0, es, k + 1));
    if SchedAt(s0, es, k).starting && |last| == 15 then last[9 := es[k].work.cr3] else last
  }

  lemma ResumedIsDue(s0: Sched, es: seq<Event>, k: nat)
    requires s0.ts.Good() && AllShaped(es) && k < |es| && es[k].Tick?
    ensures SchedAt(s0, es, k).ts.Resumed(SchedAt(s0, es, k).starting, Encode(es[k].work)) == Due(s0, es, k)
  {
    var s := SchedAt(s0, es, k);
    SavedIsLast(s0, es, k + 1, TaskAt(s0, es, k + 1));
  }

  /** The event can happen to the tasks of `ring`: writes stay out of them, and a new task lies apart from them. */
  ghost predicate Possible(ist: nat, ring: seq<nat>, e: Event)
    requires ring != []
  {
    && Shaped(e) && (e.Tick? ==> Outside(ring, e.writes))
    && (e.Fork? ==> e.t !in ring && Placed([ring[0], e.t] + ring[1..], ist))
  }

  ghost predicate AllPossible(ist: nat, s0: Sched, es: seq<Event>)
    requires s0.ts.Good()
  {
    AllShaped(es) && forall k: nat | k < |es| :: PossibleAt(ist, s0, es, k)
  }

  ghost predicate PossibleAt(ist: nat, s0: Sched, es: seq<Event>, k: nat)
    requires s0.ts.Good() && AllShaped(es) && k < |es|
  {
    Possible(ist, SchedAt(s0, es, k).ts.ring, es[k])
  }

  /** What event `k` shows: who runs after it, and, if it is a tick, that this task gets its due. */
  ghost predicate GetsDue(s0: Sched, es: seq<Event>, k: nat, t: nat, c: Context)
    requires s0.ts.Good() && AllShaped(es) && k < |es|
  {
    t == TaskAt(s0, es, k + 1) && (es[k].Tick? ==> |Due(s0, es, k)| == 15 && c == Decode(Due(s0, es, k)))
  }

  ghost predicate AllDue(s0: Sched, es: seq<Event>, tasks: seq<nat>, resumed: seq<Context>)
    requires s0.ts.Good() && AllShaped(es)
  {
    |tasks| == |resumed| <= |es| && forall k | 0 <= k < |tasks| :: GetsDue(s0, es, k, tasks[k], resumed[k])
  }

  lemma AllDueNext(s0: Sched, es: seq<Event>, tasks: seq<nat>, resumed: seq<Context>, t: nat, c: Context)
    requires s0.ts.Good() && AllShaped(es) && AllDue(s0, es, tasks, resumed) && |tasks| < |es|
    requires GetsDue(s0, es, |tasks|, t, c)
    ensures AllDue(s0, es, tasks + [t], resumed + [c])
  {
    var ts, rs := tasks + [t], resumed + [c];
    forall k | 0 <= k < |ts|
      ensures GetsDue(s0, es, k, ts[k], rs[k])
    {
      if k < |tasks| {
        assert GetsDue(s0, es, k, tasks[k], resumed[k]);
      }
    }
  }

  // ---- stretches of ticks ----

  lemma TickTurns(s0: Sched, work: seq<Context>, k: nat, s: Sched, e: Event) returns (s': Sched)
    requires s0.ts.Good() && s.ts.Good() && Shaped(e) && k < |work| && e.Tick? && e.work == work[k]
    requires !s.starting && Turned(s0.ts, work, k, s.ts)
    ensures s' == Next(s, e) && !s'.starting && Turned(s0.ts, work, k + 1, s'.ts)
  {
    s' := Next(s, e);
    TurnedNext(s0.ts, work, k, s.ts);
  }

  lemma TurnedStart(ts: Tasks, work: seq<Context>)
    requires ts.Good() && forall a, b :: Differ(ts.ring, a, b)
    ensures Turned(ts, work, 0, ts)
  {
  }

  /** Nothing but ticks, which interrupt the tasks with the contexts `work`. */
  ghost predicate AreTicks(es: seq<Event>, work: seq<Context>) {
    |work| == |es| && forall k | 0 <= k < |es| :: es[k].Tick? && es[k].work == work[k]
  }

  lemma TicksTurn(s0: Sched, es: seq<Event>, work: seq<Context>, k: nat) returns (s: Sched)
    requires s0.ts.Good() && AllShaped(es) && AreTicks(es, work) && !s0.starting && k <= |es|
    requires forall a, b :: Differ(s0.ts.ring, a, b)
    ensures s == SchedAt(s0, es, k) && !s.starting && Turned(s0.ts, work, k, s.ts)
  {
    s := s0;
    TurnedStart(s0.ts, work);
    var j := 0;
    while j < k
      invariant 0 <= j <= k && s == SchedAt(s0, es, j) && !s.starting && Turned(s0.ts, work, j, s.ts)
    {
      s := TickTurns(s0, work, j, s, es[j]);
      j := j + 1;
    }
  }

  /** In a stretch of ticks turns go round the ring, and each task gets back what it left with one round earlier. */
  lemma RoundRobin(s0: Sched, es: seq<Event>, work: seq<Context>, k: nat)
    requires s0.ts.Good() && AllShaped(es) && AreTicks(es, work) && !s0.starting && k < |es|
    requires forall a, b :: Differ(s0.ts.ring, a, b)
    ensures TaskAt(s0, es, k + 1) == Who(s0.ts.ring, k + 1) && Due(s0, es, k) == Owed(s0.ts, work, k + 1)
  {
    var s := TicksTurn(s0, es, work, k);
    TurnedNext(s0.ts, work, k, s.ts);
    ResumedIsDue(s0, es, k);
  }

  /** Storing a record. */
  method StoreRecord(mem: map<nat, nat>, to: nat, record: seq<nat>) returns (m: map<nat, nat>)
    requires |record| == 15
    ensures Record(m, to) == record && SameOutside(mem, m, to, to + 15)
  {
    m := mem;
    var k := 0;
    while k < 15
      invariant 0 <= k <= 15 && SameOutside(mem, m, to, to + 15)
      invariant forall i | 0 <= i < k :: At(m, to + i) == record[i]
    {
      StoreOne(m, to + k, record[k]);
      m := m[to + k := record[k]];
      k := k + 1;
    }
  }

  lemma NewTaskApart(ring: seq<nat>, t: nat, ist: nat, mem: map<nat, nat>, m: map<nat, nat>)
    requires ring != [] && Placed([ring[0], t] + ring[1..], ist) && SameOutside(mem, m, RecordOf(t), RecordOf(t) + 15)
    ensures forall i | 0 <= i < |ring| :: forall a: nat | ring[i] <= a < ring[i] + TASK :: At(m, a) == At(mem, a)
  {
    var all := [ring[0], t] + ring[1..];
    forall i | 0 <= i < |ring|
      ensures forall a: nat | ring[i] <= a < ring[i] + TASK :: At(m, a) == At(mem, a)
    {
      assert all[1] == t && (i == 0 || all[i + 1] == ring[i]);
      assert Disjoint(all, 0, 1) && Disjoint(all, 1, i + 1);
    }
  }

  class Processor {
    const ist: nat
    var live: Context
    var mem: map<nat, nat>
    var next: map<nat, nat>
    var state: map<nat, TaskState>
    var curr: nat
    ghost var ts: Tasks

    ghost predicate Valid()
      reads this
    {
      ts.Good() && Consistent(ist, mem, next, state, curr, ts.ring, ts.saved)
    }

    /** `task_init`: one running task that links to itself. */
    constructor (t: nat, stack: nat, c: Context, m: map<nat, nat>)
      requires t > 0 && stack >= STACK && (t + TASK <= stack - STACK || stack <= t)
      ensures Valid() && ts.ring == [t] && live == c && mem == m && ist == stack && state[t] == Running
    {
      ist, live, mem, curr := stack, c, m, t;
      next, state := map[t := t], map[t := Running];
      ts := Tasks([t], map[t := Record(m, RecordOf(t))]);
    }

    /** The running task works: registers and memory change, but not the tasks. */
    method Work(c: Context, m: map<nat, nat>)
      requires Valid()
      requires forall i | 0 <= i < |ts.ring| :: forall a: nat | ts.ring[i] <= a < ts.ring[i] + TASK :: At(m, a) == At(mem, a)
      modifies this`live, this`mem
      ensures Valid() && live == c && mem == m
    {
      WorkKeeps(ist, mem, next, state, curr, ts.ring, ts.saved, m);
      live, mem := c, m;
    }

    /** `task_fork`: a new task, whose record has been prepared, enters the ring after the current one. */
    method Insert(t: nat)
      requires Valid() && t !in ts.ring && Placed([curr, t] + ts.ring[1..], ist)
      modifies this`next, this`state, this`ts
      ensures Valid() && curr == old(curr) && IsStarting(state, curr) == old(IsStarting(state, curr))
      ensures old(curr in next) && next == old(next)[t := old(next[curr])][curr := t] && state == old(state)[t := Active]
      ensures ts == Tasks([curr, t] + old(ts).ring[1..], old(ts).saved[t := Record(mem, RecordOf(t))])
    {
      InsertKeeps(ist, mem, next, state, curr, ts.ring, ts.saved, t);
      next := next[t := next[curr]];
      next := next[curr := t];
      state := state[t := Active];
      ts := Tasks([curr, t] + ts.ring[1..], ts.saved[t := Record(mem, RecordOf(t))]);
    }

    /** `start_process`: the running task prepares its own record and waits for the timer. */
    method Prepare(m: map<nat, nat>)
      requires Valid() && SameOutside(mem, m, RecordOf(curr), RecordOf(curr) + 15)
      modifies this`mem, this`state, this`ts
      ensures Valid() && mem == m && IsStarting(state, curr) && state == old(state)[curr := Starting]
      ensures ts == Tasks(old(ts).ring, old(ts).saved[curr := Record(m, RecordOf(curr))])
    {
      PrepareKeeps(ist, mem, next, state, curr, ts.ring, ts.saved, m);
      mem, state := m, state[curr := Starting];
      ts := Tasks(ts.ring, ts.saved[curr := Record(mem, RecordOf(curr))]);
    }

    /** A timer interrupt. */
    method TimerIntr(ret: nat, junk: seq<nat>)
      requires Valid() && |junk| == STACK - 15
      modifies this`mem, this`state, this`curr, this`live, this`ts
      ensures Valid() && !IsStarting(state, curr) && Handed(next, old(state), old(curr), state, curr)
      ensures ts == old(ts).Turn(old(IsStarting(state, curr)), Encode(old(live)))
      ensures live == Decode(old(ts).Resumed(old(IsStarting(state, curr)), Encode(old(live))))
    {
      var m, st, t, c;
      ghost var ts';
      m, st, t, c, ts' := TimerStep(ist, mem, next, state, curr, live, ret, junk, ts);
      mem, state, curr, live, ts := m, st, t, c, ts';
    }

    ghost function View(): Sched
      reads this
    {
      Sched(ts, IsStarting(state, curr))
    }

    /** Work up to `work`, then the timer. */
    method TickOnce(work: Context, writes: map<nat, nat>, ret: nat, junk: seq<nat>)
      requires Valid() && |junk| == STACK - 15 && Outside(ts.ring, writes)
      modifies this`mem, this`state, this`curr, this`live, this`ts
      ensures Valid() && View() == Next(old(View()), Tick(work, writes, ret, junk))
      ensures live == Decode(old(ts).Resumed(old(IsStarting(state, curr)), Encode(work)))
    {
      WritesStayOutside(ts.ring, mem, writes);
      Work(work, mem + writes);
      TimerIntr(ret, junk);
    }

    /** `task_fork` with the record it prepares. */
    method ForkTask(t: nat, record: seq<nat>)
      requires Valid() && |record| == 15 && t !in ts.ring && Placed([curr, t] + ts.ring[1..], ist)
      modifies this
      ensures Valid() && live == old(live) && View() == Next(old(View()), Fork(t, record))
    {
      var m := StoreRecord(mem, RecordOf(t), record);
      NewTaskApart(ts.ring, t, ist, mem, m);
      Work(live, m);
      Insert(t);
    }

    /** `start_process` with the record it prepares. */
    method StartOver(record: seq<nat>)
      requires Valid() && |record| == 15
      modifies this
      ensures Valid() && live == old(live) && View() == Next(old(View()), Start(record))
    {
      var m := StoreRecord(mem, RecordOf(curr), record);
      Prepare(m);
    }

    method Happen(e: Event)
      requires Valid() && Possible(ist, ts.ring, e)
      modifies this
      ensures Valid() && View() == Next(old(View()), e)
      ensures e.Tick? ==> live == Decode(old(ts).Resumed(old(IsStarting(state, curr)), Encode(e.work)))
    {
      match e
      case Tick(work, writes, ret, junk) => TickOnce(work, writes, ret, junk);
      case Fork(t, record) => ForkTask(t, record);
      case Start(record) => StartOver(record);
    }

    method NextEvent(ghost s0: Sched, es: seq<Event>, k: nat)
      requires Valid() && s0.ts.Good() && AllShaped(es) && k < |es| && View() == SchedAt(s0, es, k)
      requires PossibleAt(ist, s0, es, k)
      modifies this
      ensures Valid() && View() == SchedAt(s0, es, k + 1) && GetsDue(s0, es, k, curr, live)
    {
      if es[k].Tick? {
        ResumedIsDue(s0, es, k);
      }
      Happen(es[k]);
    }

    /** Any run of timer interrupts, forks and process starts: at every tick the next task in the ring resumes with
        exactly what it last left with or had prepared for it. */
    method Run(es: seq<Event>) returns (tasks: seq<nat>, resumed: seq<Context>)
      requires Valid() && AllPossible(ist, View(), es)
      modifies this
      ensures Valid() && View() == SchedAt(old(View()), es, |es|)
      ensures |tasks| == |es| && AllDue(old(View()), es, tasks, resumed)
    {
      tasks, resumed := [], [];
      ghost var s0 := View();
      var k := 0;
      while k < |es|
        invariant 0 <= k <= |es| && Valid() && AllPossible(ist, s0, es) && |tasks| == k
        invariant View() == SchedAt(s0, es, k) && AllDue(s0, es, tasks, resumed)
      {
        NextEvent(s0, es, k);
        AllDueNext(s0, es, tasks, resumed, curr, live);
        tasks, resumed, k := tasks + [curr], resumed + [live], k + 1;
      }
    }
  }
}
