/** The exchange spinlock of x86_64/spinlock.S, under every interleaving of its instructions on any
    number of processors. */
module Spinlock {

  /** Where a processor stands: outside; at `lock:`; before the exchange; after it, with `al`; returning
      from `spinlock_acquire`; and between acquiring and releasing. */
  datatype Place = Outside | AtLock | Zeroed | Swapped(al: nat) | Leaving | Inside

  datatype State = State(byte: nat, cpus: seq<Place>) {

    /** The processor has taken the lock: its exchange gave a nonzero byte, and it has not released it. */
    predicate Owns(c: nat)
      requires c < |cpus|
    {
      cpus[c] == Leaving || cpus[c] == Inside || (cpus[c].Swapped? && cpus[c].al != 0)
    }

    function To(c: nat, p: Place): State
      requires c < |cpus|
    {
      State(byte, cpus[c := p])
    }

    /** The next instruction of processor `c`. */
    function Step(c: nat): State
      requires c < |cpus|
    {
      match cpus[c]
      case Outside => To(c, AtLock)
      case AtLock => To(c, Zeroed)
      case Zeroed => State(0, cpus[c := Swapped(byte)])
      case Swapped(al) => To(c, if al == 0 then AtLock else Leaving)
      case Leaving => To(c, Inside)
      case Inside => State(1, cpus[c := Outside])
    }

    /** The byte is 1 exactly when no processor owns the lock, otherwise 0; and one at most does. */
    ghost predicate Good() {
      && byte <= 1 && (byte == 1 <==> forall c: nat | c < |cpus| :: !Owns(c))
      && (forall c: nat, d: nat | c < |cpus| && d < |cpus| && Owns(c) && Owns(d) :: c == d)
    }
  }

  /** After `spinlock_init`. */
  function Init(n: nat): State {
    State(1, seq(n, _ => Outside))
  }

  /** The processors take their steps in the order of `schedule`. */
  function Run(s: State, schedule: seq<nat>): (s': State)
    requires forall i | 0 <= i < |schedule| :: schedule[i] < |s.cpus|
    ensures |s'.cpus| == |s.cpus|
  {
    if schedule == [] then s
    else
      var t := Run(s, schedule[..|schedule| - 1]);
      t.Step(schedule[|schedule| - 1])
  }

  lemma StepKeeps(s: State, c: nat)
    requires c < |s.cpus| && s.Good()
    ensures s.Step(c).Good()
  {
    var s' := s.Step(c);
    assert forall d: nat | d < |s.cpus| && d != c :: s'.Owns(d) == s.Owns(d);
    if s.cpus[c] == Zeroed && s.byte == 1 {
      assert s'.Owns(c);
    } else if s.cpus[c] == Inside {
      assert s.Owns(c);
    } else {
      assert s'.Owns(c) == s.Owns(c);
      assert forall d: nat | d < |s.cpus| :: s'.Owns(d) == s.Owns(d);
    }
  }

  /** Every state of every run is good; in particular two processors are never inside together. */
  lemma {:induction false} RunIsGood(n: nat, schedule: seq<nat>)
    requires forall i | 0 <= i < |schedule| :: schedule[i] < n
    ensures Run(Init(n), schedule).Good()
    ensures var s := Run(Init(n), schedule);
            forall c: nat, d: nat | c < n && d < n && s.cpus[c] == Inside && s.cpus[d] == Inside :: c == d
  {
    if schedule != [] {
      RunIsGood(n, schedule[..|schedule| - 1]);
      StepKeeps(Run(Init(n), schedule[..|schedule| - 1]), schedule[|schedule| - 1]);
    }
    var s := Run(Init(n), schedule);
    assert forall c: nat | c < n && s.cpus[c] == Inside :: s.Owns(c);
  }

  /** In a good state an exchange succeeds exactly when nobody owns the lock. */
  lemma ExchangeDecides(s: State, c: nat)
    requires s.Good() && c < |s.cpus| && s.cpus[c] == Zeroed
    ensures s.Step(c).Owns(c) <==> forall d: nat | d < |s.cpus| :: !s.Owns(d)
  {
  }

  /** The only way from outside to the inside, and out of the wait for the lock, is to own it: a processor is inside after a
      step only if it owned the lock before, it owns the lock anew only when its exchange found the byte nonzero, and it is
      outside after a step only if it was inside. */
  lemma EntersAsOwner(s: State, c: nat, d: nat)
    requires s.Good() && c < |s.cpus| && d < |s.cpus|
    ensures s.Step(c).cpus[d] == Inside ==> s.Owns(d)
    ensures s.Step(c).Owns(d) && !s.Owns(d) ==> c == d && s.cpus[c] == Zeroed && s.byte == 1 && s.Step(c).byte == 0
    ensures s.Owns(d) && !s.Step(c).Owns(d) ==> c == d && s.cpus[c] == Inside && s.byte == 0 && s.Step(c).byte == 1
    ensures s.Step(c).cpus[d] == Outside ==> s.cpus[d] == Outside || s.cpus[d] == Inside
  {
    if s.cpus[c] == Inside {
      assert s.Owns(c);
    }
  }

  /** The lock is `c`'s, or nobody's. */
  ghost predicate Clear(s: State, c: nat)
    requires c < |s.cpus|
  {
    s.Good() && forall d: nat | d < |s.cpus| && d != c :: !s.Owns(d)
  }

  lemma StepCloser(s: State, c: nat)
    requires c < |s.cpus| && Clear(s, c) && s.cpus[c] != Inside && s.cpus[c] != Outside
    ensures Clear(s.Step(c), c) && Distance(s.Step(c).cpus[c]) < Distance(s.cpus[c])
  {
    StepKeeps(s, c);
    assert forall d: nat | d < |s.cpus| && d != c :: s.Step(c).Owns(d) == s.Owns(d);
    assert s.cpus[c] == Zeroed ==> s.byte == 1 by {
      assert s.cpus[c] == Zeroed ==> !s.Owns(c);
    }
  }

  /** Nobody is stuck: from any state of any run in which no other processor owns the lock, a processor
      that wants it gets it by itself, within five instructions. */
  lemma {:induction false} AcquiresAlone(s: State, c: nat) returns (schedule: seq<nat>)
    requires c < |s.cpus| && Clear(s, c) && s.cpus[c] != Outside
    ensures forall i | 0 <= i < |schedule| :: schedule[i] == c
    ensures Run(s, schedule).cpus[c] == Inside && |schedule| <= Distance(s.cpus[c]) <= 5
    decreases Distance(s.cpus[c])
  {
    if s.cpus[c] == Inside {
      return [];
    }
    StepCloser(s, c);
    var rest := AcquiresAlone(s.Step(c), c);
    RunFirst(s, c, rest);
    return [c] + rest;
  }

  /** A run may be started with its first step. */
  lemma {:induction false} RunFirst(s: State, c: nat, schedule: seq<nat>)
    requires c < |s.cpus| && forall i | 0 <= i < |schedule| :: schedule[i] < |s.cpus|
    ensures Run(s, [c] + schedule) == Run(s.Step(c), schedule)
  {
    var all := [c] + schedule;
    if schedule == [] {
      assert all[..|all| - 1] == [];
    } else {
      assert all[..|all| - 1] == [c] + schedule[..|schedule| - 1];
      RunFirst(s, c, schedule[..|schedule| - 1]);
    }
  }

  function Distance(p: Place): nat {
    match p
    case Inside => 0
    case Leaving => 1
    case Swapped(al) => if al == 0 then 5 else 2
    case Zeroed => 3
    case AtLock => 4
    case Outside => 6
  }
}
