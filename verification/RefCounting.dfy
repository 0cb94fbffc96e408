/** Reference counting with scoped_ref_ptr, base/ref_counted.h.

    Objects hold counts and own pointers; pointers are free variables or members of an object. A heap is
    seen as a value so that what a whole cascade of destructors does can be stated at once. */
module RefCounting {
  import opened Wrappers

  type Obj = nat
  type Ptr = nat

  /** count: the live objects and their ref_count_. slot: the existing pointers and their ptr_. owner: for
      every pointer ever made, the object it is a member of. log: the destructors run so far. touched: the
      objects that some pointer has referred to. */
  datatype Heap = Heap(count: map<Obj, int>, slot: map<Ptr, Option<Obj>>, owner: map<Ptr, Option<Obj>>,
                       log: seq<Obj>, touched: set<Obj>)

  function Refs(slot: map<Ptr, Option<Obj>>, o: Obj): set<Ptr> {
    set p | p in slot && slot[p] == Some(o)
  }

  /** Every count is the number of pointers to the object, one more for a release under way. */
  ghost predicate Exact(h: Heap, releasing: Option<Obj>) {
    forall o :: o in h.count ==>
      h.count[o] == |Refs(h.slot, o)| + if releasing == Some(o) then 1 else 0
  }

  ghost predicate TargetsLive(h: Heap) {
    forall p :: p in h.slot && h.slot[p].Some? ==> h.slot[p].value in h.count && h.slot[p].value in h.touched
  }

  /** Destroyed once, and then no longer there; what was ever referred to is live or destroyed. */
  ghost predicate LogSound(h: Heap) {
    && (forall i, j :: 0 <= i < j < |h.log| ==> h.log[i] != h.log[j])
    && (forall o :: o in h.log ==> o !in h.count && o in h.touched)
    && (forall o :: o in h.touched ==> o in h.count || o in h.log)
  }

  /** A live object that was ever referred to has a count above zero; `but` is about to be deleted. */
  ghost predicate NoneForgotten(h: Heap, but: Option<Obj>) {
    forall o :: o in h.count && o in h.touched && but != Some(o) ==> h.count[o] > 0
  }

  /** What holds even while destructors run. */
  ghost predicate Core(h: Heap, releasing: Option<Obj>) {
    && Exact(h, releasing) && TargetsLive(h) && LogSound(h) && NoneForgotten(h, None)
    && h.slot.Keys <= h.owner.Keys
    && (releasing.Some? ==> releasing.value in h.count && releasing.value in h.touched)
  }

  /** What holds between operations: no pointer is left over from a destroyed object. */
  ghost predicate Valid(h: Heap) {
    && Core(h, None)
    && forall p :: p in h.slot && h.owner[p].Some? ==> h.owner[p].value in h.count
  }

  // ---------------------------------------------------------------- what a cascade does

  predicate Owned(h: Heap, p: Ptr, dead: seq<Obj>) {
    p in h.owner && h.owner[p].Some? && h.owner[p].value in dead
  }

  predicate OwnedIn(h: Heap, p: Ptr, c: set<Obj>) {
    p in h.owner && h.owner[p].Some? && h.owner[p].value in c
  }

  /** Every object destroyed had, when its turn came, no pointer left: each pointer to it was among those
      taken away or was a member of an object destroyed before. */
  ghost predicate Justified(h: Heap, taken: set<Ptr>, dead: seq<Obj>) {
    forall k, p :: 0 <= k < |dead| && p in h.slot && h.slot[p] == Some(dead[k]) ==>
      p in taken || Owned(h, p, dead[..k])
  }

  function Remaining(h: Heap, taken: set<Ptr>, dead: seq<Obj>): map<Ptr, Option<Obj>> {
    map p | p in h.slot && p !in taken && !Owned(h, p, dead) :: h.slot[p]
  }

  ghost predicate Extends(h: Heap, h': Heap) {
    |h.log| <= |h'.log| && h'.log[..|h.log|] == h.log
  }

  ghost function Dead(h: Heap, h': Heap): seq<Obj>
    requires Extends(h, h')
  {
    h'.log[|h.log|..]
  }

  /** From h to h' the pointers `taken` went away, and with them exactly the objects newly in the log and
      their members. Nothing else changed. */
  ghost predicate Collapsed(h: Heap, h': Heap, taken: set<Ptr>) {
    && Extends(h, h')
    && var dead := Dead(h, h');
    && h'.owner == h.owner && h'.touched == h.touched
    && h'.slot == Remaining(h, taken, dead)
    && (forall o :: o in dead ==> o in h.count)
    && (forall o :: o in h'.count <==> o in h.count && o !in dead)
    && Justified(h, taken, dead)
  }

  lemma CollapsedNothing(h: Heap, h': Heap)
    requires h' == h.(count := h'.count) && h'.count.Keys == h.count.Keys
    ensures Collapsed(h, h', {})
  {
    assert Dead(h, h') == [];
    assert h'.slot == Remaining(h, {}, []);
  }

  lemma CollapsedCompose(h0: Heap, h1: Heap, h2: Heap, p: set<Ptr>, q: set<Ptr>)
    requires Collapsed(h0, h1, p) && Collapsed(h1, h2, q)
    ensures Collapsed(h0, h2, p + q)
  {
    var d, e := Dead(h0, h1), Dead(h1, h2);
    assert Dead(h0, h2) == d + e;
    assert h2.slot == Remaining(h0, p + q, d + e);
    forall k, r | 0 <= k < |d + e| && r in h0.slot && h0.slot[r] == Some((d + e)[k])
      ensures r in p + q || Owned(h0, r, (d + e)[..k])
    {
      if k < |d| {
        assert (d + e)[..k] == d[..k];
      } else {
        assert (d + e)[..k] == d + e[..k - |d|];
        assert (d + e)[k] == e[k - |d|];
      }
    }
  }

  /** The destroyed objects are the least set that has to go: any set containing every referred-to object
      all of whose pointers are taken or belong to the set contains them, and they are such a set. */
  ghost predicate Closed(h: Heap, taken: set<Ptr>, c: set<Obj>) {
    forall o :: o in h.count && o in h.touched
      && (forall p :: p in Refs(h.slot, o) ==> p in taken || OwnedIn(h, p, c))
      ==> o in c
  }

  lemma {:induction false} CollapseIsLeast(h: Heap, h': Heap, taken: set<Ptr>, c: set<Obj>, n: nat)
    requires LogSound(h')
    requires Collapsed(h, h', taken) && Closed(h, taken, c) && n <= |Dead(h, h')|
    ensures forall o :: o in Dead(h, h')[..n] ==> o in c
  {
    if n == 0 {
    } else {
      var dead := Dead(h, h');
      var o := dead[n - 1];
      CollapseIsLeast(h, h', taken, c, n - 1);
      assert o in h'.log;
      forall p | p in Refs(h.slot, o)
        ensures p in taken || OwnedIn(h, p, c)
      {
        assert p in taken || Owned(h, p, dead[..n - 1]);
      }
      assert dead[..n] == dead[..n - 1] + [o];
    }
  }

  lemma CollapseIsClosed(h: Heap, h': Heap, taken: set<Ptr>)
    requires Core(h', None) && Collapsed(h, h', taken)
    ensures Closed(h, taken, set o | o in Dead(h, h'))
  {
    var c := set o | o in Dead(h, h');
    forall o | o in h.count && o in h.touched && o !in c
      ensures exists p :: p in Refs(h.slot, o) && p !in taken && !OwnedIn(h, p, c)
    {
      assert h'.count[o] > 0;
      var p :| p in Refs(h'.slot, o);
      assert p in Refs(h.slot, o);
    }
  }

  // ---------------------------------------------------------------- counting pointers

  lemma RefsUpdate(slot: map<Ptr, Option<Obj>>, p: Ptr, v: Option<Obj>, o: Obj)
    ensures |Refs(slot[p := v], o)|
         == |Refs(slot, o)| - (if p in slot && slot[p] == Some(o) then 1 else 0) + (if v == Some(o) then 1 else 0)
  {
    var was, now := Refs(slot, o), Refs(slot[p := v], o);
    assert now - {p} == was - {p};
    WithoutOne(was, p);
    WithoutOne(now, p);
  }

  lemma WithoutOne(s: set<Ptr>, p: Ptr)
    ensures |s - {p}| == |s| - if p in s then 1 else 0
  {
  }

  lemma RefsRemove(slot: map<Ptr, Option<Obj>>, p: Ptr, o: Obj)
    requires p in slot
    ensures |Refs(slot - {p}, o)| == |Refs(slot, o)| - (if slot[p] == Some(o) then 1 else 0)
  {
    var was, now := Refs(slot, o), Refs(slot - {p}, o);
    assert now == was - {p};
  }

  // ---------------------------------------------------------------- the steps of a cascade

  function Decremented(h: Heap, o: Obj): Heap
    requires o in h.count
  {
    h.(count := h.count[o := h.count[o] - 1])
  }

  function Deleted(h: Heap, o: Obj): Heap {
    h.(count := h.count - {o}, log := h.log + [o])
  }

  function Gone(h: Heap, p: Ptr): Heap {
    h.(slot := h.slot - {p})
  }

  /** The object whose count has just become zero. */
  ghost predicate Dying(h: Heap, o: Obj) {
    && Exact(h, None) && TargetsLive(h) && LogSound(h) && NoneForgotten(h, Some(o))
    && h.slot.Keys <= h.owner.Keys
    && o in h.count && o in h.touched && h.count[o] == 0
  }

  lemma AfterDecrement(h: Heap, o: Obj)
    requires Core(h, Some(o))
    ensures var d := Decremented(h, o);
            if d.count[o] == 0 then Dying(d, o) else Core(d, None) && Collapsed(h, d, {})
  {
    var d := Decremented(h, o);
    assert h.count[o] == |Refs(h.slot, o)| + 1;
    if d.count[o] != 0 {
      CollapsedNothing(h, d);
    }
  }

  lemma AfterDelete(h: Heap, o: Obj)
    requires Dying(h, o)
    ensures Core(Deleted(h, o), None)
  {
    var d := Deleted(h, o);
    assert Refs(h.slot, o) == {};
    forall p | p in h.slot && h.slot[p].Some? ensures h.slot[p].value in d.count {
      assert p in Refs(h.slot, h.slot[p].value);
    }
    forall x | x in d.log ensures x !in d.count && x in d.touched {
    }
  }

  lemma AfterGone(h: Heap, p: Ptr)
    requires Core(h, None) && p in h.slot
    ensures Core(Gone(h, p), h.slot[p])
  {
    var g := Gone(h, p);
    forall o | o in g.count
      ensures g.count[o] == |Refs(g.slot, o)| + if h.slot[p] == Some(o) then 1 else 0
    {
      RefsRemove(h.slot, p, o);
    }
  }

  lemma CollapsedOne(h: Heap, h': Heap, p: Ptr)
    requires p in h.slot && Collapsed(Gone(h, p), h', {})
    ensures Collapsed(h, h', {p})
  {
    var g := Gone(h, p);
    assert h'.slot == Remaining(h, {p}, Dead(h, h'));
  }

  function Members(h: Heap, o: Obj): set<Ptr> {
    set p | p in h.slot && Owned(h, p, [o])
  }

  lemma RemainingDelete(h: Heap, o: Obj, rest: seq<Obj>)
    ensures Remaining(Deleted(h, o), Members(h, o), rest) == Remaining(h, {}, [o] + rest)
  {
    forall p ensures Owned(h, p, [o] + rest) <==> Owned(h, p, [o]) || Owned(h, p, rest) {
    }
  }

  lemma JustifiedDelete(h: Heap, o: Obj, rest: seq<Obj>)
    requires Refs(h.slot, o) == {} && Justified(Deleted(h, o), Members(h, o), rest)
    ensures Justified(h, {}, [o] + rest)
  {
    var dead := [o] + rest;
    assert forall p :: p in h.slot && h.slot[p] == Some(o) ==> p in Refs(h.slot, o);
    forall k, p | 0 <= k < |dead| && p in h.slot && h.slot[p] == Some(dead[k])
      ensures Owned(h, p, dead[..k])
    {
      if k > 0 {
        assert dead[k] == rest[k - 1];
        assert p in Members(h, o) || Owned(Deleted(h, o), p, rest[..k - 1]);
        assert dead[..k] == [o] + rest[..k - 1];
      }
    }
  }

  /** Once all members of the deleted object are gone its whole cascade is done. */
  lemma CollapsedDelete(h: Heap, h': Heap, o: Obj)
    requires Dying(h, o) && Collapsed(Deleted(h, o), h', Members(h, o))
    ensures Collapsed(h, h', {})
  {
    assert Refs(h.slot, o) == {};
    assert o in h.count;
    hide Dying, Justified, Remaining, Members;
    var d := Deleted(h, o);
    var rest := Dead(d, h');
    assert h'.log == h.log + ([o] + rest);
    assert Dead(h, h') == [o] + rest;
    RemainingDelete(h, o, rest);
    JustifiedDelete(h, o, rest);
  }

  lemma MembersAfter(h: Heap, h': Heap, p: Ptr, o: Obj)
    requires Collapsed(h, h', {p}) && o !in h.count
    ensures Members(h', o) == Members(h, o) - {p}
  {
  }

  // ---------------------------------------------------------------- the operations

  class Store {
    var count: map<Obj, int>
    var slot: map<Ptr, Option<Obj>>
    var owner: map<Ptr, Option<Obj>>
    var log: seq<Obj>
    ghost var touched: set<Obj>

    ghost function H(): Heap
      reads this
    {
      Heap(count, slot, owner, log, touched)
    }

    constructor ()
      ensures H() == Heap(map[], map[], map[], [], {}) && Valid(H())
    {
      count, slot, owner, log, touched := map[], map[], map[], [], {};
    }

    /** RefCountedBase::AddRef. */
    method AddRef(o: Obj)
      requires o in count
      modifies this
      ensures H() == Referenced(old(H()), Some(o))
    {
      count := count[o := count[o] + 1];
      touched := touched + {o};
    }

    /** RefCounted::Release: one pointer to o has already gone; the object goes with the last one. */
    method Release(o: Obj)
      requires Core(H(), Some(o))
      modifies this
      ensures Core(H(), None) && Collapsed(old(H()), H(), {})
      decreases |count|, 2
    {
      hide Core, Dying, Collapsed;
      ghost var h := H();
      CoreNames(h, o);
      AfterDecrement(h, o);
      count := count[o := count[o] - 1];
      assert H() == Decremented(h, o);
      if count[o] == 0 {
        DecrementedKeys(h, o);
        Delete(o);
        CollapsedDecremented(h, o, H());
      }
    }

    /** The destructor: the object's own part runs, then its members are destroyed, in any order. */
    method Delete(o: Obj)
      requires Dying(H(), o)
      modifies this
      ensures Core(H(), None) && Collapsed(old(H()), H(), {})
      decreases |count|, 1
    {
      hide Core, Dying, Collapsed, Members, Deleting;
      ghost var h := H();
      DyingNames(h, o);
      AfterDelete(h, o);
      count := count - {o};
      log := log + [o];
      ghost var d := H();
      assert d == Deleted(h, o);
      ghost var done: set<Ptr> := {};
      var mine := set p | p in slot && p in owner && owner[p] == Some(o);
      DeletingStarts(d, o, mine);
      while mine != {}
        invariant Core(H(), None) && Deleting(d, H(), o, done, mine) && |count| < |h.count|
        decreases |mine|
      {
        var p :| p in mine;
        ghost var before := H();
        MemberExists(d, before, o, done, mine, p);
        DestroyPointer(p);
        DeletingGoesOn(d, before, H(), o, done, mine, p);
        mine := mine - {p};
        done := done + {p};
      }
      DeletingEnds(h, H(), o, done);
    }

    /** ~scoped_ref_ptr. */
    method DestroyPointer(p: Ptr)
      requires Core(H(), None) && p in slot
      modifies this
      ensures Core(H(), None) && Collapsed(old(H()), H(), {p})
      decreases |count|, 3
    {
      hide Core, Collapsed;
      ghost var h := H();
      AfterGone(h, p);
      var target := slot[p];
      slot := slot - {p};
      assert H() == Gone(h, p);
      if target.Some? {
        Release(target.value);
      } else {
        CollapsedNothing(H(), H());
      }
      CollapsedOne(h, H(), p);
    }

    /** A new object; its count starts at zero. */
    method NewObject(o: Obj)
      requires Valid(H()) && o !in count && o !in log
      modifies this
      ensures Valid(H()) && H() == old(H()).(count := old(count)[o := 0])
    {
      NewIsValid(H(), o);
      count := count[o := 0];
    }

    /** scoped_ref_ptr(T*): p is a new variable, or a member of `own`. */
    method Construct(p: Ptr, own: Option<Obj>, v: Option<Obj>)
      requires Valid(H()) && Placeable(H(), p, own) && Pointable(H(), v)
      modifies this
      ensures Valid(H()) && H() == Stored(old(H()).(owner := old(owner)[p := own]), p, v)
      ensures p in slot && slot[p] == v && forall q :: q in old(slot) ==> q in slot && slot[q] == old(slot)[q]
    {
      hide Valid, Pointable;
      ValidOwners(H());
      StoredIsValid(H(), p, own, v);
      PointableNames(H(), v);
      slot := slot[p := v];
      owner := owner[p := own];
      if v.Some? {
        AddRef(v.value);
      }
    }

    method CopyConstruct(p: Ptr, own: Option<Obj>, r: Ptr)
      requires Valid(H()) && Placeable(H(), p, own) && r in slot
      modifies this
      ensures Valid(H()) && H() == Stored(old(H()).(owner := old(owner)[p := own]), p, old(slot[r]))
      ensures p in slot && slot[p] == old(slot[r]) && r in slot && slot[r] == old(slot[r])
    {
      Construct(p, own, slot[r]);
    }

    /** The new pointer takes over what r held; no count changes. */
    method MoveConstruct(p: Ptr, own: Option<Obj>, r: Ptr)
      requires Valid(H()) && Placeable(H(), p, own) && r in slot
      modifies this
      ensures Valid(H()) && H() == MovedOut(old(H()), p, own, r)
      ensures p in slot && slot[p] == old(slot[r]) && r in slot && slot[r] == None && count == old(count)
    {
      hide Valid;
      ValidOwners(H());
      MovedOutIsValid(H(), p, own, r);
      slot := slot[p := slot[r]];
      owner := owner[p := own];
      slot := slot[r := None];
    }

    method Destroy(p: Ptr)
      requires Valid(H()) && p in slot
      modifies this
      ensures Valid(H()) && Collapsed(old(H()), H(), {p})
    {
      hide Core, Collapsed;
      ghost var h := H();
      DestroyPointer(p);
      CollapsedIsValid(h, H(), {p});
    }

    /** operator=(T*): counts up before it counts down, and stores before it releases. The pointer assigned
        to may itself go: it may be a member of an object that only its old value kept alive. */
    method Assign(p: Ptr, v: Option<Obj>)
      requires Valid(H()) && p in slot && Pointable(H(), v)
      modifies this
      ensures Valid(H()) && Collapsed(Stored(old(H()), p, v), H(), {})
      ensures p in slot ==> slot[p] == v
    {
      hide Valid, Pointable, Core, Collapsed;
      ghost var h := H();
      PointableNames(h, v);
      AssignedIsCore(h, p, v);
      if v.Some? {
        AddRef(v.value);
      }
      var oldPtr := slot[p];
      slot := slot[p := v];
      ghost var stored := H();
      assert stored == Stored(h, p, v);
      if oldPtr.Some? {
        Release(oldPtr.value);
      } else {
        CollapsedNothing(stored, stored);
      }
      CollapsedAssigned(h, p, v, H());
    }

    method AssignCopy(p: Ptr, r: Ptr)
      requires Valid(H()) && p in slot && r in slot
      modifies this
      ensures Valid(H()) && Collapsed(Stored(old(H()), p, old(slot[r])), H(), {})
      ensures p in slot ==> slot[p] == old(slot[r])
    {
      Assign(p, slot[r]);
    }

    method Swap(p: Ptr, r: Ptr)
      requires Valid(H()) && p in slot && r in slot
      modifies this
      ensures Valid(H()) && H() == Swapped(old(H()), p, r)
      ensures p in slot && slot[p] == old(slot[r]) && r in slot && slot[r] == old(slot[p]) && count == old(count)
    {
      hide Valid;
      SwappedIsValid(H(), p, r);
      var x := slot[p];
      slot := slot[p := slot[r]];
      slot := slot[r := x];
    }

    /** operator=(scoped_ref_ptr&&), through the temporary tmp. Moving a pointer to itself keeps it. */
    method AssignMove(p: Ptr, r: Ptr, tmp: Ptr)
      requires Valid(H()) && p in slot && r in slot && tmp !in owner
      modifies this
      ensures Valid(H()) && Collapsed(Swapped(MovedOut(old(H()), tmp, None, r), tmp, p), H(), {tmp})
      ensures p in slot ==> slot[p] == old(slot[r])
      ensures r in slot && r != p ==> slot[r] == None
    {
      hide Valid;
      ValidOwners(H());
      MoveConstruct(tmp, None, r);
      Swap(tmp, p);
      Destroy(tmp);
    }

    method HasOneRef(o: Obj) returns (b: bool)
      requires Valid(H()) && o in count
      ensures b <==> exists p :: Refs(slot, o) == {p}
    {
      b := count[o] == 1;
      if b {
        var p :| p in Refs(slot, o);
        WithoutOne(Refs(slot, o), p);
        assert Refs(slot, o) == {p};
      }
    }
  }

  function Referenced(h: Heap, v: Option<Obj>): Heap
    requires v.Some? ==> v.value in h.count
  {
    if v.None? then h
    else h.(count := h.count[v.value := h.count[v.value] + 1], touched := h.touched + {v.value})
  }

  lemma CoreNames(h: Heap, o: Obj)
    requires Core(h, Some(o))
    ensures o in h.count
  {
  }

  lemma DyingNames(h: Heap, o: Obj)
    requires Dying(h, o)
    ensures o in h.count && (h.count - {o}).Keys == h.count.Keys - {o} && |h.count - {o}| < |h.count|
  {
    var rest := h.count - {o};
    assert rest.Keys == h.count.Keys - {o};
    WithoutOne(h.count.Keys, o);
    assert |rest| == |rest.Keys| && |h.count| == |h.count.Keys|;
  }

  lemma DecrementedKeys(h: Heap, o: Obj)
    requires o in h.count
    ensures |Decremented(h, o).count| == |h.count|
  {
    assert Decremented(h, o).count.Keys == h.count.Keys;
    assert |Decremented(h, o).count| == |Decremented(h, o).count.Keys| && |h.count| == |h.count.Keys|;
  }

  lemma CollapsedDecremented(h: Heap, o: Obj, h': Heap)
    requires o in h.count && Collapsed(Decremented(h, o), h', {})
    ensures Collapsed(h, h', {})
  {
    var d := Decremented(h, o);
    assert d.count.Keys == h.count.Keys;
    assert Dead(d, h') == Dead(h, h');
    assert Remaining(h, {}, Dead(h, h')) == Remaining(d, {}, Dead(h, h'));
    forall k, p | 0 <= k < |Dead(h, h')| && p in h.slot && h.slot[p] == Some(Dead(h, h')[k])
      ensures Owned(h, p, Dead(h, h')[..k])
    {
      assert Owned(d, p, Dead(d, h')[..k]);
    }
  }

  /** The loop over the members: `done` are destroyed, with all that followed, and `mine` are left. */
  ghost predicate Deleting(d: Heap, h: Heap, o: Obj, done: set<Ptr>, mine: set<Ptr>) {
    && Collapsed(d, h, done) && o !in h.count
    && mine == Members(h, o) && done + mine == Members(d, o) && done !! mine
  }

  lemma DeletingStarts(d: Heap, o: Obj, mine: set<Ptr>)
    requires mine == set p | p in d.slot && p in d.owner && d.owner[p] == Some(o)
    requires o !in d.count
    ensures Deleting(d, d, o, {}, mine)
  {
    CollapsedNothing(d, d);
    assert mine == Members(d, o);
  }

  lemma MemberExists(d: Heap, h: Heap, o: Obj, done: set<Ptr>, mine: set<Ptr>, p: Ptr)
    requires Deleting(d, h, o, done, mine) && p in mine
    ensures p in h.slot
  {
  }

  lemma DeletingGoesOn(d: Heap, h: Heap, h': Heap, o: Obj, done: set<Ptr>, mine: set<Ptr>, p: Ptr)
    requires Deleting(d, h, o, done, mine) && p in mine && Collapsed(h, h', {p})
    ensures Deleting(d, h', o, done + {p}, mine - {p}) && |h'.count| <= |h.count|
  {
    hide Members, Collapsed;
    CollapsedCompose(d, h, h', done, {p});
    MembersAfter(h, h', p, o);
    CollapsedKeys(h, h', {p}, o);
  }

  lemma DeletingEnds(h: Heap, h': Heap, o: Obj, done: set<Ptr>)
    requires Dying(h, o) && Deleting(Deleted(h, o), h', o, done, {})
    ensures Collapsed(h, h', {})
  {
    assert Members(Deleted(h, o), o) == Members(h, o);
    assert done == Members(h, o);
    CollapsedDelete(h, h', o);
  }

  lemma CollapsedKeys(h: Heap, h': Heap, taken: set<Ptr>, o: Obj)
    requires Collapsed(h, h', taken) && o !in h.count
    ensures o !in h'.count && |h'.count| <= |h.count|
  {
    assert h'.count.Keys <= h.count.Keys;
    CardinalityMonotone(h'.count.Keys, h.count.Keys);
    assert |h'.count| == |h'.count.Keys| && |h.count| == |h.count.Keys|;
  }

  lemma {:induction false} CardinalityMonotone(a: set<Obj>, b: set<Obj>)
    requires a <= b
    ensures |a| <= |b|
  {
    if a == {} {
    } else {
      var x :| x in a;
      CardinalityMonotone(a - {x}, b - {x});
    }
  }

  // ---------------------------------------------------------------- the operations keep the heap valid

  /** A raw pointer handed in is null or refers to a live object. */
  predicate Pointable(h: Heap, v: Option<Obj>) {
    v.Some? ==> v.value in h.count
  }

  predicate Placeable(h: Heap, p: Ptr, own: Option<Obj>) {
    p !in h.owner && (own.Some? ==> own.value in h.count)
  }

  function Stored(h: Heap, p: Ptr, v: Option<Obj>): Heap
    requires v.Some? ==> v.value in h.count
  {
    Referenced(h, v).(slot := h.slot[p := v])
  }

  function Swapped(h: Heap, p: Ptr, r: Ptr): Heap
    requires p in h.slot && r in h.slot
  {
    h.(slot := h.slot[p := h.slot[r]][r := h.slot[p]])
  }

  function MovedOut(h: Heap, p: Ptr, own: Option<Obj>, r: Ptr): Heap
    requires r in h.slot
  {
    h.(slot := h.slot[p := h.slot[r]][r := None], owner := h.owner[p := own])
  }

  lemma PointableNames(h: Heap, v: Option<Obj>)
    requires Pointable(h, v)
    ensures v.Some? ==> v.value in h.count
  {
  }

  lemma ValidOwners(h: Heap)
    requires Valid(h)
    ensures h.slot.Keys <= h.owner.Keys
  {
  }

  lemma NewIsValid(h: Heap, o: Obj)
    requires Valid(h) && o !in h.count && o !in h.log
    ensures Valid(h.(count := h.count[o := 0]))
  {
    assert forall p :: p in h.slot ==> h.slot[p] != Some(o);
    assert Refs(h.slot, o) == {};
  }

  lemma CollapsedIsValid(h: Heap, h': Heap, taken: set<Ptr>)
    requires Valid(h) && Core(h', None) && Collapsed(h, h', taken)
    ensures Valid(h')
  {
  }

  lemma StoredIsExact(h: Heap, p: Ptr, v: Option<Obj>)
    requires Exact(h, None) && Pointable(h, v)
    ensures Exact(Stored(h, p, v), if p in h.slot then h.slot[p] else None)
  {
    forall o | o in h.count
      ensures Stored(h, p, v).count[o] == |Refs(h.slot[p := v], o)|
              + if p in h.slot && h.slot[p] == Some(o) then 1 else 0
    {
      RefsUpdate(h.slot, p, v, o);
    }
  }

  lemma StoredIsSound(h: Heap, p: Ptr, v: Option<Obj>)
    requires Core(h, None) && p in h.owner && Pointable(h, v)
    ensures Core(Stored(h, p, v), if p in h.slot then h.slot[p] else None)
  {
    StoredIsExact(h, p, v);
    hide Exact;
    assert Stored(h, p, v).count.Keys == h.count.Keys;
  }

  lemma StoredIsValid(h: Heap, p: Ptr, own: Option<Obj>, v: Option<Obj>)
    requires Valid(h) && Placeable(h, p, own) && Pointable(h, v)
    ensures Valid(Stored(h.(owner := h.owner[p := own]), p, v))
  {
    var placed := h.(owner := h.owner[p := own]);
    assert Core(placed, None);
    StoredIsSound(placed, p, v);
    hide Core;
    assert Stored(placed, p, v).count.Keys == h.count.Keys;
    assert p !in h.slot by {
      ValidOwners(h);
    }
  }

  lemma AssignedIsCore(h: Heap, p: Ptr, v: Option<Obj>)
    requires Valid(h) && p in h.slot && Pointable(h, v)
    ensures Core(Stored(h, p, v), h.slot[p])
  {
    StoredIsSound(h, p, v);
  }

  lemma CollapsedAssigned(h: Heap, p: Ptr, v: Option<Obj>, h': Heap)
    requires Valid(h) && p in h.slot && Pointable(h, v)
    requires Core(h', None) && Collapsed(Stored(h, p, v), h', {})
    ensures Valid(h') && (p in h'.slot ==> h'.slot[p] == v)
  {
    hide Exact, LogSound, NoneForgotten, TargetsLive;
  }

  lemma MovedOutIsValid(h: Heap, p: Ptr, own: Option<Obj>, r: Ptr)
    requires Valid(h) && Placeable(h, p, own) && r in h.slot
    ensures Valid(MovedOut(h, p, own, r))
  {
    forall o | o in h.count ensures |Refs(MovedOut(h, p, own, r).slot, o)| == |Refs(h.slot, o)| {
      RefsUpdate(h.slot, p, h.slot[r], o);
      RefsUpdate(h.slot[p := h.slot[r]], r, None, o);
    }
  }

  lemma SwappedIsValid(h: Heap, p: Ptr, r: Ptr)
    requires Valid(h) && p in h.slot && r in h.slot
    ensures Valid(Swapped(h, p, r))
  {
    forall o | o in h.count ensures |Refs(Swapped(h, p, r).slot, o)| == |Refs(h.slot, o)| {
      RefsUpdate(h.slot, p, h.slot[r], o);
      RefsUpdate(h.slot[p := h.slot[r]], r, h.slot[p], o);
    }
  }

  // ---------------------------------------------------------------- what follows for any heap reached

  predicate OnceIn(log: seq<Obj>, o: Obj) {
    exists k :: 0 <= k < |log| && log[k] == o && forall j :: 0 <= j < |log| && log[j] == o ==> j == k
  }

  /** The count is the number of pointers; an object that was ever referred to is there exactly as long as
      something refers to it, and has been destroyed exactly once otherwise; no other is destroyed. */
  ghost predicate Conserved(h: Heap, o: Obj) {
    && (o in h.count ==> h.count[o] == |Refs(h.slot, o)|)
    && (o in h.touched ==> (o in h.count <==> Refs(h.slot, o) != {}))
    && (o in h.touched ==> (OnceIn(h.log, o) <==> Refs(h.slot, o) == {}))
    && (o in h.log ==> o in h.touched && OnceIn(h.log, o))
  }

  lemma Conservation(h: Heap, o: Obj)
    requires Valid(h)
    ensures Conserved(h, o)
  {
    if o in h.count && Refs(h.slot, o) != {} {
      assert |Refs(h.slot, o)| > 0;
    }
    if p :| p in Refs(h.slot, o) {
      assert h.slot[p].value == o;
    }
    if o in h.log {
      var k :| 0 <= k < |h.log| && h.log[k] == o;
      assert forall j :: 0 <= j < |h.log| && h.log[j] == o ==> j == k;
    }
  }

  /** Each pointer is a member of an object that ranks below the object it refers to. */
  predicate PointsUp(h: Heap, rank: map<Obj, nat>, p: Ptr)
    requires p in h.slot
  {
    && p in h.owner && h.owner[p].Some? && h.owner[p].value in rank
    && (h.slot[p].Some? ==> h.slot[p].value in rank && rank[h.owner[p].value] < rank[h.slot[p].value])
  }

  /** Only cycles leak: when no free variable is left and the members' pointers can be ranked, every object
      ever referred to has been destroyed. */
  lemma {:induction false} NoLeakWithoutCycle(h: Heap, rank: map<Obj, nat>, o: Obj)
    requires Valid(h) && h.count.Keys <= h.touched
    requires forall p :: p in h.slot ==> PointsUp(h, rank, p)
    ensures o !in h.count
    decreases if o in rank then rank[o] + 1 else 0
  {
    if o in h.count {
      assert h.count[o] > 0;
      var p :| p in Refs(h.slot, o);
      assert PointsUp(h, rank, p);
      NoLeakWithoutCycle(h, rank, h.owner[p].value);
    }
  }

  /** The first object to go was referred to by nothing but the pointers taken. */
  lemma FirstDead(h: Heap, h': Heap, taken: set<Ptr>)
    requires Collapsed(h, h', taken) && |Dead(h, h')| > 0
    ensures var o := Dead(h, h')[0]; o in h.count && o in h'.log && Refs(h.slot, o) <= taken
  {
    var dead := Dead(h, h');
    assert dead[0] in h'.log;
    assert dead[..0] == [];
    forall p | p in Refs(h.slot, dead[0]) ensures p in taken {
      assert p in taken || Owned(h, p, dead[..0]);
    }
  }

  /** Nothing died and the pointers are the same: so are the counts. */
  lemma SameCounts(h: Heap, h': Heap)
    requires Exact(h, None) && Exact(h', None) && h.slot == h'.slot && h.count.Keys == h'.count.Keys
    ensures h.count == h'.count
  {
    forall o | o in h.count ensures h.count[o] == h'.count[o] {
      assert o in h'.count;
    }
  }

  lemma CollapsedEmpty(h: Heap, h': Heap)
    requires Collapsed(h, h', {}) && Dead(h, h') == []
    ensures h'.slot == h.slot && h'.count.Keys == h.count.Keys && h'.log == h.log
    ensures h'.owner == h.owner && h'.touched == h.touched
  {
    hide Justified;
    assert h'.log == h.log + [];
  }

  /** Assigning a pointer its own value changes nothing at all, and in particular destroys nothing. */
  lemma SelfAssignment(h: Heap, h': Heap, p: Ptr)
    requires Valid(h) && Valid(h') && p in h.slot
    requires Pointable(h, h.slot[p]) && Collapsed(Stored(h, p, h.slot[p]), h', {})
    ensures h' == h
  {
    var stored := Stored(h, p, h.slot[p]);
    StoredItself(h, p);
    hide Collapsed, Stored;
    if |Dead(stored, h')| > 0 {
      FirstDead(stored, h', {});
      Conservation(h, Dead(stored, h')[0]);
    } else {
      CollapsedEmpty(stored, h');
      SameCounts(h, h');
    }
  }

  lemma StoredItself(h: Heap, p: Ptr)
    requires TargetsLive(h) && p in h.slot && Pointable(h, h.slot[p])
    ensures var s := Stored(h, p, h.slot[p]);
            s == h.(count := s.count) && s.count.Keys == h.count.Keys
  {
    var s := Stored(h, p, h.slot[p]);
    assert s.slot == h.slot && s.touched == h.touched;
  }

  /** An object that only its own member keeps alive goes when that member is assigned anything else, and
      the member with it. */
  lemma SelfPointerGoes(h: Heap, h': Heap, p: Ptr, o: Obj, v: Option<Obj>)
    requires Valid(h) && Valid(h') && p in h.slot && Pointable(h, v) && v != Some(o)
    requires h.owner[p] == Some(o) && Refs(h.slot, o) == {p}
    requires Collapsed(Stored(h, p, v), h', {})
    ensures o !in h'.count && o in h'.log && p !in h'.slot
  {
    var stored := Stored(h, p, v);
    CollapsedRefs(stored, h', {}, o);
    OnlyPointerOverwritten(h, p, v, o);
    Conservation(h, o);
    hide Collapsed, Core, Stored, Refs;
    Conservation(h', o);
  }

  lemma OnlyPointerOverwritten(h: Heap, p: Ptr, v: Option<Obj>, o: Obj)
    requires Core(h, None) && p in h.slot && Pointable(h, v) && v != Some(o) && Refs(h.slot, o) == {p}
    ensures Refs(Stored(h, p, v).slot, o) == {} && o in Stored(h, p, v).touched && o in h.count
    ensures Stored(h, p, v).owner == h.owner
  {
    var slot := h.slot[p := v];
    assert p in Refs(h.slot, o);
    assert forall q :: q in Refs(slot, o) ==> q in Refs(h.slot, o);
  }

  lemma CollapsedRefs(h: Heap, h': Heap, taken: set<Ptr>, o: Obj)
    requires Collapsed(h, h', taken)
    ensures Refs(h'.slot, o) <= Refs(h.slot, o) && h'.touched == h.touched && h'.owner == h.owner
  {
    hide Justified;
  }

  // ---------------------------------------------------------------- programs

  datatype Op = New(o: Obj) | Make(p: Ptr, own: Option<Obj>, v: Option<Obj>) | Copy(p: Ptr, own: Option<Obj>, r: Ptr)
    | Move(p: Ptr, own: Option<Obj>, r: Ptr) | Set(p: Ptr, v: Option<Obj>) | SetCopy(p: Ptr, r: Ptr)
    | SetMove(p: Ptr, r: Ptr, tmp: Ptr) | Exchange(p: Ptr, r: Ptr) | Drop(p: Ptr)

  /** The pointers and objects that an operation names are there, and what it makes is new. */
  predicate Enabled(h: Heap, op: Op) {
    match op
    case New(o) => o !in h.count && o !in h.log
    case Make(p, own, v) => Placeable(h, p, own) && Pointable(h, v)
    case Copy(p, own, r) => Placeable(h, p, own) && r in h.slot
    case Move(p, own, r) => Placeable(h, p, own) && r in h.slot
    case Set(p, v) => p in h.slot && Pointable(h, v)
    case SetCopy(p, r) => p in h.slot && r in h.slot
    case SetMove(p, r, tmp) => p in h.slot && r in h.slot && tmp !in h.owner
    case Exchange(p, r) => p in h.slot && r in h.slot
    case Drop(p) => p in h.slot
  }

  /** What one operation makes of the heap. */
  ghost predicate Step(h: Heap, op: Op, h': Heap)
    requires Valid(h) && Enabled(h, op)
  {
    Targets(h);
    match op
    case New(o) => h' == h.(count := h.count[o := 0])
    case Make(p, own, v) => h' == Stored(h.(owner := h.owner[p := own]), p, v)
    case Copy(p, own, r) => h' == Stored(h.(owner := h.owner[p := own]), p, h.slot[r])
    case Move(p, own, r) => h' == MovedOut(h, p, own, r)
    case Set(p, v) => Collapsed(Stored(h, p, v), h', {})
    case SetCopy(p, r) => Collapsed(Stored(h, p, h.slot[r]), h', {})
    case SetMove(p, r, tmp) => Collapsed(Swapped(MovedOut(h, tmp, None, r), tmp, p), h', {tmp})
    case Exchange(p, r) => h' == Swapped(h, p, r)
    case Drop(p) => Collapsed(h, h', {p})
  }

  lemma Targets(h: Heap)
    requires Valid(h)
    ensures forall r :: r in h.slot ==> Pointable(h, h.slot[r])
    ensures h.slot.Keys <= h.owner.Keys
  {
  }

  /** The heaps a program goes through, one for each operation that could run. */
  ghost predicate Chain(heaps: seq<Heap>, ops: seq<Op>)
    requires |heaps| <= |ops| + 1
  {
    && (forall i :: 0 <= i < |heaps| ==> Valid(heaps[i]))
    && forall i :: 0 <= i < |heaps| - 1 ==> Enabled(heaps[i], ops[i]) && Step(heaps[i], ops[i], heaps[i + 1])
  }

  lemma ChainGrows(heaps: seq<Heap>, ops: seq<Op>, h: Heap)
    requires 0 < |heaps| <= |ops| && Chain(heaps, ops) && Valid(h)
    requires var last := heaps[|heaps| - 1]; Enabled(last, ops[|heaps| - 1]) && Step(last, ops[|heaps| - 1], h)
    ensures Chain(heaps + [h], ops)
  {
    hide Valid, Enabled, Step;
  }

  /** Runs a program up to the first operation that is not enabled; what each operation did is on record. */
  method Run(store: Store, ops: seq<Op>) returns (ran: nat, ghost heaps: seq<Heap>)
    requires Valid(store.H())
    modifies store
    ensures ran <= |ops| && |heaps| == ran + 1 && Chain(heaps, ops)
    ensures heaps[0] == old(store.H()) && heaps[ran] == store.H()
    ensures ran < |ops| ==> !Enabled(store.H(), ops[ran])
  {
    hide Valid, Enabled, Step, Chain;
    ran, heaps := 0, [store.H()];
    ChainStarts(store.H(), ops);
    while ran < |ops|
      invariant ran <= |ops| && |heaps| == ran + 1 && Chain(heaps, ops) && Valid(store.H())
      invariant heaps[0] == old(store.H()) && heaps[ran] == store.H()
    {
      var ok := Execute(store, ops[ran]);
      if !ok {
        return;
      }
      ChainGrows(heaps, ops, store.H());
      heaps := heaps + [store.H()];
      ran := ran + 1;
    }
  }

  lemma ChainStarts(h: Heap, ops: seq<Op>)
    requires Valid(h)
    ensures Chain([h], ops)
  {
  }

  /** Every program, from an empty heap: conservation for every object there is or was, at every point. */
  method RunFromEmpty(ops: seq<Op>) returns (store: Store, ran: nat, ghost heaps: seq<Heap>)
    ensures fresh(store) && ran <= |ops| && |heaps| == ran + 1 && Chain(heaps, ops)
    ensures heaps[0] == Heap(map[], map[], map[], [], {}) && heaps[ran] == store.H()
    ensures ran < |ops| ==> !Enabled(store.H(), ops[ran])
    ensures forall i, o :: 0 <= i <= ran ==> Conserved(heaps[i], o)
  {
    hide Conserved, Step, Enabled;
    store := new Store();
    ran, heaps := Run(store, ops);
    forall i, o | 0 <= i <= ran ensures Conserved(heaps[i], o) {
      Conservation(heaps[i], o);
    }
  }

  method Execute(store: Store, op: Op) returns (ok: bool)
    requires Valid(store.H())
    modifies store
    ensures Valid(store.H())
    ensures ok <==> old(Enabled(store.H(), op))
    ensures if ok then Step(old(store.H()), op, store.H()) else store.H() == old(store.H())
  {
    hide Valid, Collapsed;
    ok := true;
    match op
    case New(o) =>
      if o in store.count || o in store.log { return false; }
      store.NewObject(o);
    case Make(p, own, v) =>
      if !CanPlace(store, p, own) || !CanPoint(store, v) { return false; }
      store.Construct(p, own, v);
    case Copy(p, own, r) =>
      if !CanPlace(store, p, own) || r !in store.slot { return false; }
      store.CopyConstruct(p, own, r);
    case Move(p, own, r) =>
      if !CanPlace(store, p, own) || r !in store.slot { return false; }
      store.MoveConstruct(p, own, r);
    case Set(p, v) =>
      if p !in store.slot || !CanPoint(store, v) { return false; }
      store.Assign(p, v);
    case SetCopy(p, r) =>
      if p !in store.slot || r !in store.slot { return false; }
      store.AssignCopy(p, r);
    case SetMove(p, r, tmp) =>
      if p !in store.slot || r !in store.slot || tmp in store.owner { return false; }
      store.AssignMove(p, r, tmp);
    case Exchange(p, r) =>
      if p !in store.slot || r !in store.slot { return false; }
      store.Swap(p, r);
    case Drop(p) =>
      if p !in store.slot { return false; }
      store.Destroy(p);
  }

  predicate CanPlace(store: Store, p: Ptr, own: Option<Obj>)
    reads store
  {
    p !in store.owner && (own.Some? ==> own.value in store.count)
  }

  predicate CanPoint(store: Store, v: Option<Obj>)
    reads store
  {
    v.Some? ==> v.value in store.count
  }
}
