/** Any number of live pickles, written to, reserved in, copied and assigned to one another in any mix:
    each of them stays the concatenation of what the program put into it. */
module PicklePool {
  import opened Wrappers
  import opened Bytes
  import opened Bits
  import opened PickleFormat
  import opened PickleBuffer
  import opened PickleRoundTrip

  /** What a pickle of the pool should hold. */
  datatype Entry = Entry(headerSize: nat, items: seq<Item>)

  datatype Op =
    | Make(headerSize: nat)
    | Put(i: nat, item: Item)
    | Grow(i: nat, length: nat)
    | Clone(i: nat)
    | Assign(i: nat, j: nat)

  // ---------------------------------------------------------------- the model of the pool

  function After(model: seq<Entry>, op: Op): seq<Entry>
    requires Legal(model, op)
  {
    match op
    case Make(headerSize) => model + [Entry(RoundUp(headerSize, 4), [])]
    case Put(i, item) => model[i := model[i].(items := model[i].items + [item])]
    case Grow(_, _) => model
    case Clone(i) => model + [model[i]]
    case Assign(i, j) => model[i := model[j]]
  }

  predicate Room(e: Entry, length: nat) {
    ValidItems(e.items) && |EncodeAll(e.items)| + length < HALF_WORD
  }

  /** The DCHECKs: header sizes within bounds, payloads below 4 GiB. */
  predicate Legal(model: seq<Entry>, op: Op) {
    match op
    case Make(headerSize) => HEADER <= headerSize <= PAYLOAD_UNIT
    case Put(i, item) => i < |model| && ValidItem(item) && Room(model[i], |Encode(item)|)
    case Grow(i, length) => i < |model| && Room(model[i], RoundUp(length, 4))
    case Clone(i) => i < |model|
    case Assign(i, j) => i < |model| && j < |model|
  }

  predicate LegalAll(model: seq<Entry>, ops: seq<Op>)
    decreases |ops|
  {
    ops == [] || (Legal(model, ops[0]) && LegalAll(After(model, ops[0]), ops[1..]))
  }

  function AfterAll(model: seq<Entry>, ops: seq<Op>): seq<Entry>
    requires LegalAll(model, ops)
    decreases |ops|
  {
    if ops == [] then model else AfterAll(After(model, ops[0]), ops[1..])
  }

  /** Each operation touches the one pickle it names, or adds one at the end. */
  lemma AfterMeans(model: seq<Entry>, op: Op, k: nat)
    requires Legal(model, op) && k < |After(model, op)|
    ensures |After(model, op)| == |model| + if op.Make? || op.Clone? then 1 else 0
    ensures After(model, op)[k] ==
              if op.Put? && k == op.i then model[k].(items := model[k].items + [op.item])
              else if op.Assign? && k == op.i then model[op.j]
              else if op.Clone? && k == |model| then model[op.i]
              else if op.Make? && k == |model| then Entry(RoundUp(op.headerSize, 4), [])
              else model[k]
  {
  }

  // ---------------------------------------------------------------- the pool

  ghost predicate Holds(p: Pickle, e: Entry)
    reads p, p.header
  {
    p.Valid() && p.headerSize == e.headerSize && ValidItems(e.items) && p.Payload() == EncodeAll(e.items)
  }

  ghost function Buffers(ps: seq<Pickle>): set<object?>
    reads ps
  {
    set i | 0 <= i < |ps| :: ps[i].header
  }

  /** Pickles and buffers are all different, and each pickle holds what the model says. */
  ghost predicate Refines(ps: seq<Pickle>, model: seq<Entry>)
    reads ps, Buffers(ps)
  {
    && |ps| == |model|
    && (forall i, j :: 0 <= i < j < |ps| ==> ps[i] != ps[j] && ps[i].header != ps[j].header)
    && (forall i :: 0 <= i < |ps| ==> Holds(ps[i], model[i]))
  }

  // ---------------------------------------------------------------- one pickle

  method PutOne(p: Pickle, ghost e: Entry, item: Item)
    requires Holds(p, e) && ValidItem(item) && Room(e, |Encode(item)|)
    modifies p, p.header
    ensures Holds(p, e.(items := e.items + [item]))
    ensures p.header == old(p.header) || fresh(p.header)
  {
    hide Uint32, Encode, EncodeAll;
    EncodeAllAppend(e.items, item);
    WriteItem(p, item);
  }

  method GrowOne(p: Pickle, ghost e: Entry, length: nat)
    requires Holds(p, e) && Room(e, RoundUp(length, 4))
    modifies p
    ensures Holds(p, e) && (p.header == old(p.header) || fresh(p.header))
  {
    hide Uint32, Encode, EncodeAll, RoundUp;
    p.Reserve(length);
  }

  method CloneOne(p: Pickle, ghost e: Entry) returns (q: Pickle)
    requires Holds(p, e)
    ensures fresh(q) && fresh(q.header) && Holds(q, e)
  {
    hide Uint32, Encode, EncodeAll;
    q := new Pickle.Copy(p);
  }

  method AssignOne(p: Pickle, ghost d: Entry, q: Pickle, ghost e: Entry)
    requires Holds(p, d) && Holds(q, e) && (p != q ==> p.header != q.header)
    requires p == q ==> d == e
    modifies p
    ensures Holds(p, e) && (p.header == old(p.header) || fresh(p.header))
  {
    hide Uint32, Encode, EncodeAll;
    p.Assign(q);
  }

  // ---------------------------------------------------------------- one operation

  method PutAt(ps: seq<Pickle>, ghost model: seq<Entry>, i: nat, item: Item)
    requires Refines(ps, model) && Legal(model, Put(i, item))
    modifies ps[i], ps[i].header
    ensures Refines(ps, After(model, Put(i, item)))
    ensures forall j :: 0 <= j < |ps| ==> ps[j].header == old(ps[j].header) || fresh(ps[j].header)
  {
    hide Holds, Encode, EncodeAll;
    PutOne(ps[i], model[i], item);
  }

  method GrowAt(ps: seq<Pickle>, ghost model: seq<Entry>, i: nat, length: nat)
    requires Refines(ps, model) && Legal(model, Grow(i, length))
    modifies ps[i]
    ensures Refines(ps, model)
    ensures forall j :: 0 <= j < |ps| ==> ps[j].header == old(ps[j].header) || fresh(ps[j].header)
  {
    hide Holds, Encode, EncodeAll;
    GrowOne(ps[i], model[i], length);
  }

  method AssignAt(ps: seq<Pickle>, ghost model: seq<Entry>, i: nat, j: nat)
    requires Refines(ps, model) && Legal(model, Assign(i, j))
    modifies ps[i]
    ensures Refines(ps, After(model, Assign(i, j)))
    ensures forall k :: 0 <= k < |ps| ==> ps[k].header == old(ps[k].header) || fresh(ps[k].header)
  {
    hide Holds, Encode, EncodeAll;
    AssignOne(ps[i], model[i], ps[j], model[j]);
  }

  method Include(ps: seq<Pickle>, ghost model: seq<Entry>, p: Pickle, ghost e: Entry) returns (qs: seq<Pickle>)
    requires Refines(ps, model) && Holds(p, e)
    requires forall i :: 0 <= i < |ps| ==> p != ps[i] && p.header != ps[i].header
    ensures qs == ps + [p] && Refines(qs, model + [e])
  {
    hide Holds;
    qs := ps + [p];
  }

  method MakeOne(headerSize: nat) returns (p: Pickle)
    requires HEADER <= headerSize <= PAYLOAD_UNIT
    ensures fresh(p) && fresh(p.header) && Holds(p, Entry(RoundUp(headerSize, 4), []))
  {
    hide Uint32;
    p := new Pickle.WithHeader(headerSize);
  }

  method Perform(ps: seq<Pickle>, ghost model: seq<Entry>, op: Op) returns (qs: seq<Pickle>)
    requires Refines(ps, model) && Legal(model, op)
    modifies ps, Buffers(ps)
    ensures Refines(qs, After(model, op))
    ensures forall i :: 0 <= i < |qs| ==> qs[i] in ps || fresh(qs[i])
    ensures forall i :: 0 <= i < |qs| ==> qs[i].header in old(Buffers(ps)) || fresh(qs[i].header)
  {
    hide Holds, Encode, EncodeAll;
    qs := ps;
    match op {
      case Make(headerSize) =>
        var p := MakeOne(headerSize);
        qs := Include(ps, model, p, Entry(RoundUp(headerSize, 4), []));
      case Put(i, item) => PutAt(ps, model, i, item);
      case Grow(i, length) => GrowAt(ps, model, i, length);
      case Clone(i) =>
        var p := CloneOne(ps[i], model[i]);
        qs := Include(ps, model, p, model[i]);
      case Assign(i, j) => AssignAt(ps, model, i, j);
    }
  }

  // ---------------------------------------------------------------- whole runs

  method RunAll(ps: seq<Pickle>, ghost model: seq<Entry>, ops: seq<Op>) returns (qs: seq<Pickle>)
    requires Refines(ps, model) && LegalAll(model, ops)
    modifies ps, Buffers(ps)
    ensures Refines(qs, AfterAll(model, ops))
    ensures forall i :: 0 <= i < |qs| ==> qs[i] in ps || fresh(qs[i])
    decreases |ops|
  {
    hide Refines, Legal, After;
    qs := ps;
    if ops != [] {
      qs := Perform(ps, model, ops[0]);
      qs := RunAll(qs, After(model, ops[0]), ops[1..]);
    }
  }

  /** The state of a buffer between operations. */
  ghost predicate InShape(p: Pickle)
    reads p, p.header
  {
    && p.Readable() && p.PayloadSize() == p.writeOffset <= p.capacity
    && p.capacity % 64 == 0 && p.writeOffset % 4 == 0
  }

  /** Any program from no pickles at all. */
  method Run(ops: seq<Op>) returns (ps: seq<Pickle>)
    requires LegalAll([], ops)
    ensures Refines(ps, AfterAll([], ops))
    ensures forall i :: 0 <= i < |ps| ==> fresh(ps[i]) && InShape(ps[i])
  {
    hide Uint32;
    ps := RunAll([], [], ops);
    assert forall i :: 0 <= i < |ps| ==> Holds(ps[i], AfterAll([], ops)[i]);
  }

  /** Whatever went before, a pickle of the pool reads back as its values, and a sizer fed with them reports
      its payload size. */
  method Inspect(ps: seq<Pickle>, model: seq<Entry>, i: nat) returns (found: Option<seq<Item>>, left: nat, size: nat)
    requires Refines(ps, model) && i < |ps|
    ensures found == Some(model[i].items) && left == 0
    ensures ps[i].Valid() && size == ps[i].PayloadSize() == ps[i].writeOffset
  {
    hide Uint32, Encode, EncodeAll;
    assert Holds(ps[i], model[i]);
    found, left := VerifyResult(ps[i], model[i].items, Kinds(model[i].items));
    var sizer := new PickleSizer();
    SizeItems(sizer, model[i].items);
    size := sizer.payloadSize;
  }
}
