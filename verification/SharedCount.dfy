/** RefCountedThreadSafe: one object whose count is shared by any number of threads.

    AddRef and Release each touch the count in one atomic instruction; the thread whose decrement reaches
    zero deletes the object later, at a step of its own. */
module SharedCount {

  /** held: how many pointers each thread has to the object. deleting: the threads that have seen zero and
      have not yet run the destructor. deleted counts its runs. */
  datatype World = World(count: int, held: seq<nat>, deleting: set<nat>, deleted: nat)

  datatype Step = Copy(t: nat) | Give(t: nat, u: nat) | Release(t: nat) | Delete(t: nat)

  /** The thread that made the object has the first pointer to it. */
  function Initial(n: nat): World
    requires n > 0
  {
    World(1, seq(n, t => if t == 0 then 1 else 0), {}, 0)
  }

  predicate Holds(w: World, t: nat) {
    t < |w.held| && w.held[t] > 0
  }

  /** A thread can only use, copy, hand over or release a pointer it has. */
  predicate Enabled(w: World, s: Step) {
    match s
    case Copy(t) => Holds(w, t)
    case Give(t, u) => Holds(w, t) && u < |w.held|
    case Release(t) => Holds(w, t)
    case Delete(t) => t in w.deleting
  }

  function More(held: seq<nat>, t: nat): seq<nat>
    requires t < |held|
  {
    held[t := held[t] + 1]
  }

  function Fewer(held: seq<nat>, t: nat): seq<nat>
    requires t < |held| && held[t] > 0
  {
    held[t := held[t] - 1]
  }

  function Next(w: World, s: Step): World {
    if !Enabled(w, s) then w
    else
      match s
      case Copy(t) => w.(count := w.count + 1, held := More(w.held, t))
      case Give(t, u) => w.(held := More(Fewer(w.held, t), u))
      case Release(t) =>
        w.(count := w.count - 1, held := Fewer(w.held, t),
           deleting := if w.count - 1 == 0 then w.deleting + {t} else w.deleting)
      case Delete(t) => w.(deleting := w.deleting - {t}, deleted := w.deleted + 1)
  }

  function Run(w: World, steps: seq<Step>): World
    decreases |steps|
  {
    if steps == [] then w else Run(Next(w, steps[0]), steps[1..])
  }

  function Total(held: seq<nat>): nat {
    if held == [] then 0 else Total(held[..|held| - 1]) + held[|held| - 1]
  }

  lemma {:induction false} TotalAfter(held: seq<nat>, t: nat, x: nat)
    requires t < |held|
    ensures Total(held[t := x]) == Total(held) - held[t] + x
  {
    var k := |held| - 1;
    if t == k {
      assert held[t := x][..k] == held[..k];
    } else {
      assert held[t := x][..k] == held[..k][t := x];
      TotalAfter(held[..k], t, x);
    }
  }

  lemma {:induction false} TotalBounds(held: seq<nat>, t: nat)
    requires t < |held|
    ensures held[t] <= Total(held)
    ensures Total(held) == held[t] ==> forall u :: 0 <= u < |held| && u != t ==> held[u] == 0
  {
    forall u | 0 <= u < |held| && u != t ensures held[t] + held[u] <= Total(held) {
      TotalAfter(held, t, 0);
      TotalAfter(held[t := 0], u, 0);
    }
    TotalAfter(held, t, 0);
  }

  /** The count is the number of pointers; zero has been seen by exactly one thread, which is about to
      delete the object or has done so. */
  predicate Inv(w: World) {
    && w.count == Total(w.held)
    && (if w.count > 0 then w.deleting == {} && w.deleted == 0
        else |w.deleting| + w.deleted == 1)
  }

  lemma InvKept(w: World, s: Step)
    requires Inv(w)
    ensures Inv(Next(w, s)) && |Next(w, s).held| == |w.held|
  {
    if Enabled(w, s) {
      match s
      case Copy(t) =>
        TotalAfter(w.held, t, w.held[t] + 1);
        TotalBounds(w.held, t);
      case Give(t, u) =>
        var fewer := Fewer(w.held, t);
        TotalAfter(w.held, t, w.held[t] - 1);
        TotalAfter(fewer, u, fewer[u] + 1);
      case Release(t) =>
        TotalAfter(w.held, t, w.held[t] - 1);
        TotalBounds(w.held, t);
      case Delete(t) =>
        assert |w.deleting - {t}| == |w.deleting| - 1;
    }
  }

  lemma {:induction false} RunInv(w: World, steps: seq<Step>)
    requires Inv(w)
    ensures Inv(Run(w, steps)) && |Run(w, steps).held| == |w.held|
    decreases |steps|
  {
    if steps == [] {
    } else {
      InvKept(w, steps[0]);
      RunInv(Next(w, steps[0]), steps[1..]);
    }
  }

  lemma {:induction false} InitialTotal(n: nat)
    requires n > 0
    ensures Total(Initial(n).held) == 1
  {
    var held := Initial(n).held;
    if n > 1 {
      InitialTotal(n - 1);
      assert held[..n - 1] == Initial(n - 1).held;
    } else {
      assert held[..0] == [];
    }
  }

  /** Whatever the interleaving: the destructor runs at most once and never while, or before, some thread
      has a pointer; when nobody has one, a single thread is left to run it or it has run. */
  lemma DeletedOnce(n: nat, steps: seq<Step>)
    requires n > 0
    ensures var w := Run(Initial(n), steps);
            && w.deleted + |w.deleting| <= 1
            && ((forall t :: 0 <= t < |w.held| ==> w.held[t] == 0) <==> w.deleted + |w.deleting| == 1)
  {
    InitialTotal(n);
    RunInv(Initial(n), steps);
    var w := Run(Initial(n), steps);
    if t :| 0 <= t < |w.held| && w.held[t] > 0 {
      TotalBounds(w.held, t);
    } else {
      NoneHeld(w.held);
    }
  }

  lemma {:induction false} NoneHeld(held: seq<nat>)
    requires forall t :: 0 <= t < |held| ==> held[t] == 0
    ensures Total(held) == 0
  {
    if held == [] {
    } else {
      NoneHeld(held[..|held| - 1]);
    }
  }

  /** HasOneRef: a thread with a pointer that reads a count of one is alone with the object. */
  lemma HasOneRefIsExclusive(n: nat, steps: seq<Step>, t: nat)
    requires n > 0 && Holds(Run(Initial(n), steps), t)
    ensures var w := Run(Initial(n), steps);
            w.count == 1 <==> w.held[t] == 1 && forall u :: 0 <= u < |w.held| && u != t ==> w.held[u] == 0
  {
    InitialTotal(n);
    RunInv(Initial(n), steps);
    var w := Run(Initial(n), steps);
    TotalBounds(w.held, t);
    if w.held[t] == 1 && forall u :: 0 <= u < |w.held| && u != t ==> w.held[u] == 0 {
      TotalAfter(w.held, t, 0);
      NoneHeld(w.held[t := 0]);
    }
  }
}
