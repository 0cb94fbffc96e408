/** One-time initialisation, base/once.h and base/once.cc, under every interleaving.

    Any number of calls of OnceInit are under way at once. One step is one access to the shared word, with
    the word's accesses in a single order, or the start or the end of the closure. */
module Once {

  const UNINITIALIZED := 0
  const EXECUTING_CLOSURE := 1
  const DONE := 2

  /** Where a call is: before the load in OnceInit, before the load in OnceInitImpl, before the swap, before
      the closure, in it, before the store, in the waiting loop, back at the caller. */
  datatype Pc = Checking | Entering | Swapping | Calling | InClosure | Storing | Waiting | Returned {
    predicate Owner() {
      Calling? || InClosure? || Storing?
    }

    /** How far along: the owner's three places and the waiting loop come after the swap. */
    function Depth(): nat {
      match this
      case Checking => 0
      case Entering => 1
      case Swapping => 2
      case Calling => 3
      case Waiting => 3
      case InClosure => 4
      case Storing => 5
      case Returned => 6
    }
  }

  /** begun and finished count the closure's starts and ends. */
  datatype World = World(state: int, pcs: seq<Pc>, begun: nat, finished: nat)

  function Initial(n: nat): World {
    World(UNINITIALIZED, seq(n, _ => Checking), 0, 0)
  }

  function At(w: World, t: nat, pc: Pc): World
    requires t < |w.pcs|
  {
    w.(pcs := w.pcs[t := pc])
  }

  function Next(w: World, t: nat): World {
    if t >= |w.pcs| then w
    else
      match w.pcs[t]
      case Checking => At(w, t, if w.state != DONE then Entering else Returned)
      case Entering => At(w, t, if w.state == DONE then Returned else Swapping)
      case Swapping =>
        if w.state == UNINITIALIZED then At(w.(state := EXECUTING_CLOSURE), t, Calling)
        else At(w, t, if w.state == EXECUTING_CLOSURE then Waiting else Returned)
      case Calling => At(w.(begun := w.begun + 1), t, InClosure)
      case InClosure => At(w.(finished := w.finished + 1), t, Storing)
      case Storing => At(w.(state := DONE), t, Returned)
      case Waiting => At(w, t, if w.state == EXECUTING_CLOSURE then Waiting else Returned)
      case Returned => w
  }

  function Run(w: World, schedule: seq<nat>): World
    decreases |schedule|
  {
    if schedule == [] then w else Run(Next(w, schedule[0]), schedule[1..])
  }

  // ---------------------------------------------------------------- safety

  predicate Apart(w: World, owner: nat) {
    && owner < |w.pcs| && w.pcs[owner].Owner()
    && forall t :: 0 <= t < |w.pcs| && t != owner ==> !w.pcs[t].Owner()
  }

  /** What every reachable world satisfies; owner is the call that won the swap, if one has. */
  predicate Inv(w: World, owner: nat) {
    if w.state == UNINITIALIZED then
      && w.begun == w.finished == 0
      && forall t :: 0 <= t < |w.pcs| ==> w.pcs[t].Depth() < 3
    else if w.state == EXECUTING_CLOSURE then
      && Apart(w, owner)
      && w.begun == (if w.pcs[owner].Calling? then 0 else 1)
      && w.finished == (if w.pcs[owner].Storing? then 1 else 0)
      && forall t :: 0 <= t < |w.pcs| ==> !w.pcs[t].Returned?
    else
      && w.state == DONE && w.begun == w.finished == 1
      && forall t :: 0 <= t < |w.pcs| ==> !w.pcs[t].Owner()
  }

  function OwnerAfter(w: World, owner: nat, t: nat): nat {
    if t < |w.pcs| && w.pcs[t].Swapping? && w.state == UNINITIALIZED then t else owner
  }

  lemma InvKept(w: World, owner: nat, t: nat)
    requires Inv(w, owner)
    ensures Inv(Next(w, t), OwnerAfter(w, owner, t))
  {
  }

  /** The word only moves from 0 to 1 to 2. */
  lemma StateMoves(w: World, owner: nat, t: nat)
    requires Inv(w, owner)
    ensures Next(w, t).state == w.state || (w.state < DONE && Next(w, t).state == w.state + 1)
  {
  }

  lemma {:induction false} RunInv(w: World, owner: nat, schedule: seq<nat>) returns (last: nat)
    requires Inv(w, owner)
    ensures Inv(Run(w, schedule), last) && |Run(w, schedule).pcs| == |w.pcs|
    ensures w.state <= Run(w, schedule).state
    decreases |schedule|
  {
    last := owner;
    if schedule == [] {
    } else {
      InvKept(w, owner, schedule[0]);
      StateMoves(w, owner, schedule[0]);
      last := RunInv(Next(w, schedule[0]), OwnerAfter(w, owner, schedule[0]), schedule[1..]);
    }
  }

  /** However many calls there are and however they interleave: the closure starts at most once, and a
      call that has returned did so after the closure had ended. */
  lemma RunsOnce(n: nat, schedule: seq<nat>)
    ensures var w := Run(Initial(n), schedule);
            && UNINITIALIZED <= w.state <= DONE
            && w.finished <= w.begun <= 1
            && (w.state == DONE ==> w.finished == 1)
            && forall t :: 0 <= t < |w.pcs| && w.pcs[t].Returned? ==> w.finished == 1 && w.state == DONE
  {
    var last := RunInv(Initial(n), 0, schedule);
  }

  /** Once the closure has run, every call returns at its next look at the word and changes nothing. */
  lemma DoneReturns(w: World, t: nat)
    requires w.state == DONE && t < |w.pcs| && w.pcs[t] in {Checking, Entering, Swapping, Waiting}
    ensures Next(w, t) == w.(pcs := w.pcs[t := Returned])
  {
  }

  /** The first call to swap runs the closure; while it does, the others that try wait. */
  lemma FirstSwapWins(w: World, t: nat)
    requires t < |w.pcs| && w.pcs[t] == Swapping
    ensures w.state == UNINITIALIZED ==> Next(w, t) == w.(state := EXECUTING_CLOSURE, pcs := w.pcs[t := Calling])
    ensures w.state == EXECUTING_CLOSURE ==> Next(w, t) == w.(pcs := w.pcs[t := Waiting])
  {
  }

  // ---------------------------------------------------------------- progress

  /** Every call gets a turn, in any order and any number of times. */
  predicate Fair(n: nat, round: seq<nat>) {
    forall t :: 0 <= t < n ==> t in round
  }

  /** After k fair rounds: first everyone comes past the swap, then the owner goes through the closure and
      the store, then those that wait see it. */
  predicate Reached(w: World, t: nat, k: nat)
    requires t < |w.pcs|
  {
    if k <= 3 then w.pcs[t].Depth() >= k
    else if k <= 6 then w.pcs[t].Depth() >= 3 && (w.pcs[t].Owner() ==> w.pcs[t].Depth() >= k)
    else w.pcs[t].Returned?
  }

  predicate AllReached(w: World, k: nat) {
    forall t :: 0 <= t < |w.pcs| ==> Reached(w, t, k)
  }

  lemma TurnReaches(w: World, owner: nat, t: nat, k: nat)
    requires Inv(w, owner) && t < |w.pcs| && AllReached(w, k)
    ensures AllReached(Next(w, t), k) && Reached(Next(w, t), t, k + 1)
  {
    assert Reached(w, t, k);
    assert w.state == EXECUTING_CLOSURE ==> Reached(w, owner, k);
    var next := Next(w, t);
    forall u | 0 <= u < |w.pcs| ensures Reached(next, u, k) {
      assert Reached(w, u, k);
    }
  }

  lemma OthersStay(w: World, t: nat, k: nat, j: nat)
    requires t < |w.pcs| && AllReached(w, k) && j == k + 1
    ensures forall u :: 0 <= u < |w.pcs| && Reached(w, u, j) ==> Reached(Next(w, t), u, j)
  {
    forall u | 0 <= u < |w.pcs| && Reached(w, u, j) ensures Reached(Next(w, t), u, j) {
      assert Reached(w, u, k);
    }
  }

  lemma {:induction false} RoundReaches(w: World, owner: nat, round: seq<nat>, k: nat, j: nat)
    requires Inv(w, owner) && AllReached(w, k) && j == k + 1
    ensures var v := Run(w, round);
            && |v.pcs| == |w.pcs| && AllReached(v, k)
            && forall u :: 0 <= u < |w.pcs| && (u in round || Reached(w, u, j)) ==> Reached(v, u, j)
    decreases |round|
  {
    hide Inv, Reached, Next;
    if round == [] {
    } else {
      var t := round[0];
      var next := Next(w, t);
      InvKept(w, owner, t);
      NextKeepsLength(w, t);
      if t < |w.pcs| {
        TurnReaches(w, owner, t, k);
        OthersStay(w, t, k, j);
      }
      RoundReaches(next, OwnerAfter(w, owner, t), round[1..], k, j);
      assert round == [t] + round[1..];
    }
  }

  lemma NextKeepsLength(w: World, t: nat)
    ensures |Next(w, t).pcs| == |w.pcs| && (t >= |w.pcs| ==> Next(w, t) == w)
  {
  }

  function Joined(rounds: seq<seq<nat>>): seq<nat> {
    if rounds == [] then [] else Joined(rounds[..|rounds| - 1]) + rounds[|rounds| - 1]
  }

  lemma {:induction false} RunAppend(w: World, a: seq<nat>, b: seq<nat>)
    ensures Run(w, a + b) == Run(Run(w, a), b)
    decreases |a|
  {
    if a == [] {
      assert a + b == b;
    } else {
      assert (a + b)[1..] == a[1..] + b;
      RunAppend(Next(w, a[0]), a[1..], b);
    }
  }

  lemma {:induction false} RoundsReach(n: nat, rounds: seq<seq<nat>>)
    requires forall i :: 0 <= i < |rounds| ==> Fair(n, rounds[i])
    ensures AllReached(Run(Initial(n), Joined(rounds)), |rounds|)
  {
    hide Inv, Reached, Run;
    InitialReached(n);
    if rounds == [] {
    } else {
      var k := |rounds| - 1;
      var before := Joined(rounds[..k]);
      RoundsReach(n, rounds[..k]);
      var owner := RunInv(Initial(n), 0, before);
      RoundReaches(Run(Initial(n), before), owner, rounds[k], k, k + 1);
      RunAppend(Initial(n), before, rounds[k]);
    }
  }

  lemma InitialReached(n: nat)
    ensures Run(Initial(n), []) == Initial(n) && AllReached(Initial(n), 0) && Inv(Initial(n), 0)
    ensures |Initial(n).pcs| == n
  {
  }

  /** Seven turns each are enough, whatever happens in between: nobody waits for ever, and the closure has
      run exactly once. */
  lemma EveryCallReturns(n: nat, rounds: seq<seq<nat>>)
    requires n > 0 && |rounds| >= 7 && forall i :: 0 <= i < |rounds| ==> Fair(n, rounds[i])
    ensures var w := Run(Initial(n), Joined(rounds));
            && |w.pcs| == n && (forall t :: 0 <= t < n ==> w.pcs[t].Returned?)
            && w.begun == w.finished == 1 && w.state == DONE
  {
    RoundsReach(n, rounds);
    var w := Run(Initial(n), Joined(rounds));
    var owner := RunInv(Initial(n), 0, Joined(rounds));
    forall t | 0 <= t < n ensures w.pcs[t].Returned? {
      assert Reached(w, t, |rounds|);
    }
    RunsOnce(n, Joined(rounds));
    assert w.pcs[0].Returned?;
  }

  // ---------------------------------------------------------------- the code, one access at a time

  class OnceWord {
    var state: int
    var pcs: seq<Pc>
    ghost var begun: nat
    ghost var finished: nat

    ghost function W(): World
      reads this
    {
      World(state, pcs, begun, finished)
    }

    constructor (n: nat)
      ensures W() == Initial(n)
    {
      state := UNINITIALIZED;
      pcs := seq(n, _ => Checking);
      begun, finished := 0, 0;
    }

    method CompareAndSwap(expected: int, desired: int) returns (was: int)
      modifies this
      ensures was == old(state) && state == if was == expected then desired else was
      ensures pcs == old(pcs) && begun == old(begun) && finished == old(finished)
    {
      was := state;
      if state == expected {
        state := desired;
      }
    }

    method Advance(t: nat)
      requires t < |pcs|
      modifies this
      ensures W() == Next(old(W()), t)
    {
      var pc := Returned;
      match pcs[t] {
        case Checking =>
          if state != DONE { pc := Entering; }
        case Entering =>
          if state != DONE { pc := Swapping; }
        case Swapping =>
          var was := CompareAndSwap(UNINITIALIZED, EXECUTING_CLOSURE);
          if was == UNINITIALIZED {
            pc := Calling;
          } else if was == EXECUTING_CLOSURE {
            pc := Waiting;
          }
        case Calling =>
          begun := begun + 1;
          pc := InClosure;
        case InClosure =>
          finished := finished + 1;
          pc := Storing;
        case Storing =>
          state := DONE;
        case Waiting =>
          if state == EXECUTING_CLOSURE { pc := Waiting; }
        case Returned =>
      }
      pcs := pcs[t := pc];
    }
  }

  method Interleave(n: nat, schedule: seq<nat>) returns (word: OnceWord)
    requires forall i :: 0 <= i < |schedule| ==> schedule[i] < n
    ensures fresh(word) && word.W() == Run(Initial(n), schedule) && word.begun <= 1
  {
    word := new OnceWord(n);
    var i := 0;
    while i < |schedule|
      invariant i <= |schedule| && fresh(word) && |word.pcs| == n
      invariant word.W() == Run(Initial(n), schedule[..i])
    {
      RunAppend(Initial(n), schedule[..i], [schedule[i]]);
      assert schedule[..i + 1] == schedule[..i] + [schedule[i]];
      word.Advance(schedule[i]);
      i := i + 1;
    }
    assert schedule[..i] == schedule;
    RunsOnce(n, schedule);
  }
}
