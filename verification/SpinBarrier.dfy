/** The reusable spin barrier as atomic steps of n threads (spin_barrier in sys/spinlock.hpp). */
module SpinBarrier {
  import opened Bits
  import opened Sequences

  /** Where a thread is in `wait`: outside, about to add itself to the waiters, or, as the last one, about
      to clear the waiters and then to count the round, or spinning. */
  datatype Pc = Outside | Loaded(step: nat) | Resetting | Completing | Spinning(step: nat)

  /** A thread, with the number of times it has arrived at the barrier and left it. */
  datatype Thread = Thread(pc: Pc, arrived: nat, left: nat)

  /** The two counters of the barrier, and the number of rounds counted so far. */
  datatype State = State(threads: seq<Thread>, waiters: nat, completed: nat, rounds: nat)

  function Start(n: nat): State {
    State(seq(n, i => Thread(Outside, 0, 0)), 0, 0, 0)
  }

  /** The next atomic step of thread i. */
  function Step(s: State, i: nat): State
    requires i < |s.threads|
  {
    var t := s.threads[i];
    match t.pc
    case Outside => s.(threads := s.threads[i := t.(pc := Loaded(s.completed))])
    case Loaded(step) =>
      var pc := if s.waiters == (|s.threads| + U32 - 1) % U32 then Resetting else Spinning(step);
      s.(waiters := (s.waiters + 1) % U32, threads := s.threads[i := t.(pc := pc, arrived := t.arrived + 1)])
    case Resetting => s.(waiters := 0, threads := s.threads[i := t.(pc := Completing)])
    case Completing =>
      s.(completed := (s.completed + 1) % U32, rounds := s.rounds + 1,
         threads := s.threads[i := t.(pc := Outside, left := t.left + 1)])
    case Spinning(step) =>
      if s.completed == step then s
      else s.(threads := s.threads[i := t.(pc := Outside, left := t.left + 1)])
  }

  /** A step that is not one more look at an unchanged counter. */
  predicate Effective(s: State, i: nat)
    requires i < |s.threads|
  {
    s.threads[i].pc != Spinning(s.completed)
  }

  // ---- the invariant ----

  /** Outside the barrier, about to arrive, spinning in the current round, or still to leave the last one. */
  predicate OpenThread(t: Thread, k: nat) {
    match t.pc
    case Outside => t.arrived == t.left == k
    case Loaded(step) => step == k % U32 && t.arrived == t.left == k
    case Spinning(step) => InRound(t, k) || (k > 0 && step == (k - 1) % U32 && t.arrived == k && t.left == k - 1)
    case _ => false
  }

  predicate InRound(t: Thread, k: nat) {
    t.pc == Spinning(k % U32) && t.arrived == k + 1 && t.left == k
  }

  function Arrived(s: State): set<nat> {
    set i | 0 <= i < |s.threads| && s.threads[i].arrived == s.rounds + 1
  }

  /** Some thread is still to arrive. */
  ghost predicate Open(s: State) {
    && (forall i :: 0 <= i < |s.threads| ==> OpenThread(s.threads[i], s.rounds))
    && s.waiters == |Arrived(s)| < |s.threads|
  }

  /** All have arrived, and thread i, the last, is ending the round. */
  ghost predicate Closing(s: State, i: nat) {
    && i < |s.threads|
    && s.threads[i].arrived == s.rounds + 1 && s.threads[i].left == s.rounds
    && (s.threads[i].pc.Resetting? || s.threads[i].pc.Completing?)
    && s.waiters == (if s.threads[i].pc.Resetting? then |s.threads| else 0)
    && (forall j :: 0 <= j < |s.threads| && j != i ==> InRound(s.threads[j], s.rounds))
  }

  ghost predicate Inv(s: State) {
    && 0 < |s.threads| < U32
    && s.completed == s.rounds % U32
    && (Open(s) || exists i: nat :: Closing(s, i))
  }

  // ---- counting the arrivals ----

  function All(n: nat): (r: set<nat>)
    ensures |r| == n && forall i: nat :: i in r <==> i < n
  {
    if n == 0 then {} else All(n - 1) + {n - 1}
  }

  lemma LastOneMissing(s: State, i: nat)
    requires i < |s.threads| && i !in Arrived(s)
    ensures |Arrived(s)| <= |s.threads| - 1
    ensures |Arrived(s)| == |s.threads| - 1 ==> Arrived(s) == All(|s.threads|) - {i}
  {
    assert Arrived(s) <= All(|s.threads|) - {i};
    SubsetCard(Arrived(s), All(|s.threads|) - {i});
  }

  // ---- every step keeps the invariant ----

  lemma EnterKeeps(s: State, i: nat)
    requires Inv(s) && i < |s.threads| && s.threads[i].pc.Outside?
    ensures Inv(Step(s, i))
  {
    assert Open(s);
    assert Arrived(Step(s, i)) == Arrived(s);
  }

  /** One more arrival. */
  lemma ArrivedGrows(s: State, i: nat)
    requires Inv(s) && i < |s.threads| && s.threads[i].pc.Loaded?
    ensures Open(s) && i !in Arrived(s) && Arrived(Step(s, i)) == Arrived(s) + {i}
    ensures Step(s, i).waiters == |Arrived(Step(s, i))| == s.waiters + 1
    ensures Step(s, i).threads[i].pc == if s.waiters == |s.threads| - 1 then Resetting else Spinning(s.rounds % U32)
  {
    assert Open(s);
    assert Arrived(Step(s, i)) == Arrived(s) + {i};
    assert s.waiters < |s.threads| < U32;
    assert (|s.threads| + U32 - 1) % U32 == |s.threads| - 1;
  }

  lemma LastArrives(s: State, i: nat)
    requires Inv(s) && i < |s.threads| && s.threads[i].pc.Loaded? && s.waiters == |s.threads| - 1
    ensures Closing(Step(s, i), i)
  {
    var t := Step(s, i);
    ArrivedGrows(s, i);
    LastOneMissing(s, i);
    hide Inv;
    forall j: nat | j < |t.threads| && j != i ensures InRound(t.threads[j], t.rounds) {
      assert j in Arrived(s);
    }
  }

  lemma ArriveKeeps(s: State, i: nat)
    requires Inv(s) && i < |s.threads| && s.threads[i].pc.Loaded?
    ensures Inv(Step(s, i))
  {
    ArrivedGrows(s, i);
    if s.waiters == |s.threads| - 1 {
      LastArrives(s, i);
    } else {
      assert Open(Step(s, i));
    }
  }

  lemma EndKeeps(s: State, i: nat)
    requires Inv(s) && i < |s.threads| && (s.threads[i].pc.Resetting? || s.threads[i].pc.Completing?)
    ensures Inv(Step(s, i))
  {
    var t := Step(s, i);
    assert Closing(s, i);
    if s.threads[i].pc.Resetting? {
      assert Closing(t, i);
    } else {
      assert Arrived(t) == {};
      assert Open(t);
    }
  }

  lemma LeaveKeeps(s: State, i: nat)
    requires Inv(s) && i < |s.threads| && s.threads[i].pc.Spinning?
    ensures Inv(Step(s, i))
  {
    if Effective(s, i) {
      var t := Step(s, i);
      assert Open(s);
      assert Arrived(t) == Arrived(s);
      assert Open(t);
    }
  }

  lemma StepKeeps(s: State, i: nat)
    requires Inv(s) && i < |s.threads|
    ensures Inv(Step(s, i)) && |Step(s, i).threads| == |s.threads|
  {
    match s.threads[i].pc
    case Outside => EnterKeeps(s, i);
    case Loaded(_) => ArriveKeeps(s, i);
    case Resetting => EndKeeps(s, i);
    case Completing => EndKeeps(s, i);
    case Spinning(_) => LeaveKeeps(s, i);
  }

  // ---- runs ----

  /** The threads take steps in any order; a number that names no thread stands for no step. */
  function Run(s: State, schedule: seq<nat>): State
    decreases |schedule|
  {
    if schedule == [] then s
    else if schedule[0] >= |s.threads| then Run(s, schedule[1..])
    else Run(Step(s, schedule[0]), schedule[1..])
  }

  lemma {:induction false} RunKeeps(s: State, schedule: seq<nat>)
    requires Inv(s)
    ensures Inv(Run(s, schedule)) && |Run(s, schedule).threads| == |s.threads|
    decreases |schedule|
  {
    if schedule != [] {
      if schedule[0] >= |s.threads| {
        RunKeeps(s, schedule[1..]);
      } else {
        StepKeeps(s, schedule[0]);
        RunKeeps(Step(s, schedule[0]), schedule[1..]);
      }
    }
  }

  /** No thread has left a round that some thread has not arrived at, none is more than one round ahead of
      another, and a thread that has yet to leave the last round finds the counter changed. */
  lemma RoundsInStep(s: State, i: nat, j: nat)
    requires Inv(s) && i < |s.threads| && j < |s.threads|
    ensures s.threads[i].left <= s.rounds <= s.threads[j].arrived
    ensures s.threads[i].arrived <= s.threads[j].left + 2
    ensures s.threads[i].pc.Spinning? ==> (Effective(s, i) <==> s.threads[i].arrived <= s.rounds)
  {
  }

  /** Over every run of n threads through the barrier, for any number of rounds: no thread leaves a round
      before all have arrived at it. */
  lemma EveryRun(n: nat, schedule: seq<nat>, i: nat, j: nat)
    requires 0 < n < U32 && i < n && j < n
    ensures var s := Run(Start(n), schedule);
            && |s.threads| == n
            && s.threads[i].left <= s.threads[j].arrived
            && s.threads[i].arrived <= s.threads[j].left + 2
  {
    assert Arrived(Start(n)) == {};
    RunKeeps(Start(n), schedule);
    RoundsInStep(Run(Start(n), schedule), i, j);
  }

  /** When the last thread clears the waiters, no thread can be about to arrive: nothing is lost. */
  lemma ResetLosesNothing(s: State, i: nat, j: nat)
    requires Inv(s) && i < |s.threads| && j < |s.threads| && s.threads[i].pc.Resetting?
    ensures s.waiters == |s.threads|
    ensures s.threads[j].arrived == s.rounds + 1 && (j != i ==> !Effective(s, j))
  {
    assert Closing(s, i);
  }

  // ---- progress ----

  /** Some thread can always take a step that changes something. */
  lemma NeverStuck(s: State) returns (i: nat)
    requires Inv(s)
    ensures i < |s.threads| && Effective(s, i)
  {
    if Open(s) {
      if All(|s.threads|) <= Arrived(s) {
        SubsetCard(All(|s.threads|), Arrived(s));
      }
      i :| i in All(|s.threads|) && i !in Arrived(s);
    } else {
      i :| Closing(s, i);
    }
  }

  /** How far a thread is from the end of the round. */
  function Rank(t: Thread, k: nat): nat {
    match t.pc
    case Outside => 5
    case Loaded(_) => 4
    case Resetting => 2
    case Completing => 1
    case Spinning(_) => if t.arrived > k then 0 else 6
  }

  function Potential(ts: seq<Thread>, k: nat): (r: nat)
    ensures r <= 6 * |ts|
  {
    if ts == [] then 0 else Rank(ts[0], k) + Potential(ts[1..], k)
  }

  lemma {:induction false} PotentialOfUpdate(ts: seq<Thread>, i: nat, t: Thread, k: nat)
    requires i < |ts|
    ensures Potential(ts[i := t], k) == Potential(ts, k) - Rank(ts[i], k) + Rank(t, k)
    decreases |ts|
  {
    if i == 0 {
      assert ts[i := t][1..] == ts[1..];
    } else {
      assert ts[i := t][1..] == ts[1..][i - 1 := t];
      PotentialOfUpdate(ts[1..], i - 1, t, k);
    }
  }

  /** A step that changes something ends the round or brings its end nearer. */
  lemma StepsCount(s: State, i: nat)
    requires Inv(s) && i < |s.threads| && Effective(s, i)
    ensures var t := Step(s, i);
            t.rounds == s.rounds + 1
            || (t.rounds == s.rounds && Potential(t.threads, t.rounds) < Potential(s.threads, s.rounds))
  {
    hide Potential;
    RoundsInStep(s, i, i);
    PotentialOfUpdate(s.threads, i, Step(s, i).threads[i], s.rounds);
    assert Step(s, i).threads == s.threads[i := Step(s, i).threads[i]];
  }

  function EffectiveSteps(s: State, schedule: seq<nat>): nat
    decreases |schedule|
  {
    if schedule == [] then 0
    else if schedule[0] >= |s.threads| then EffectiveSteps(s, schedule[1..])
    else (if Effective(s, schedule[0]) then 1 else 0) + EffectiveSteps(Step(s, schedule[0]), schedule[1..])
  }

  lemma {:induction false} RoundsGrow(s: State, schedule: seq<nat>)
    ensures Run(s, schedule).rounds >= s.rounds
    decreases |schedule|
  {
    if schedule != [] {
      if schedule[0] >= |s.threads| {
        RoundsGrow(s, schedule[1..]);
      } else {
        RoundsGrow(Step(s, schedule[0]), schedule[1..]);
      }
    }
  }

  lemma {:induction false} StepsInRound(s: State, schedule: seq<nat>)
    requires Inv(s) && Run(s, schedule).rounds == s.rounds
    ensures EffectiveSteps(s, schedule) <= Potential(s.threads, s.rounds)
    decreases |schedule|
  {
    hide Inv, Effective, Potential;
    if schedule != [] {
      if schedule[0] >= |s.threads| {
        StepsInRound(s, schedule[1..]);
      } else {
        var i := schedule[0];
        StepKeeps(s, i);
        RoundsGrow(Step(s, i), schedule[1..]);
        if Effective(s, i) { StepsCount(s, i); } else { Futile(s, i); }
        StepsInRound(Step(s, i), schedule[1..]);
      }
    }
  }

  lemma Futile(s: State, i: nat)
    requires i < |s.threads| && !Effective(s, i)
    ensures Step(s, i) == s
  {
  }

  /** From every reachable state and under every schedule, a round ends within 6n steps that change
      something, and by NeverStuck there always is one. */
  lemma RoundEnds(n: nat, before: seq<nat>, schedule: seq<nat>)
    requires 0 < n < U32
    requires EffectiveSteps(Run(Start(n), before), schedule) > 6 * n
    ensures Run(Run(Start(n), before), schedule).rounds > Run(Start(n), before).rounds
  {
    assert Arrived(Start(n)) == {};
    RunKeeps(Start(n), before);
    var s := Run(Start(n), before);
    RoundsGrow(s, schedule);
    if Run(s, schedule).rounds == s.rounds { StepsInRound(s, schedule); }
  }
}
