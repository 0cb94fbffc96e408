/** The byte format of a Pickle: what the typed writers put down, what the typed readers pick up, how
    the buffer grows, and how a stream of pickles is cut into frames.

    Everything here is a function of byte sequences; PickleBuffer.dfy proves the buffer classes against it. */
module PickleFormat {
  import opened Wrappers
  import opened Bits
  import opened Bytes

  const HEADER: nat := 4         // sizeof(Pickle::Header), one uint32_t
  const PAYLOAD_UNIT: nat := 64
  const HEAP_ALIGN: nat := 4096

  /** The plain types the template members are instantiated with.  Floats are opaque bit patterns. */
  datatype Pod = Int16 | Int32 | Int64 | UInt16 | UInt32 | UInt64 | Float | Double {
    function Size(): nat {
      match this
      case Int16 => 2
      case UInt16 => 2
      case Int32 => 4
      case UInt32 => 4
      case Float => 4
      case _ => 8
    }

    predicate Signed() {
      Int16? || Int32? || Int64?
    }

    /** The number of values of the type. */
    function Limit(): nat {
      if Size() == 2 then 0x1_0000 else if Size() == 4 then 0x1_0000_0000 else WORD
    }

    predicate Holds(v: int) {
      if Signed() then 0 <= 2 * v + Limit() < 2 * Limit() else 0 <= v < Limit()
    }

    function Image(v: int): (b: seq<byte>)
      requires Holds(v)
      ensures |b| == Size()
    {
      LittleEndian(ToUnsigned(v, Limit()), Size())
    }

    function Value(b: seq<byte>): (v: int)
      requires |b| == Size()
    {
      LimitIsPower();
      EncodeDecode(b);
      var u := FromLittleEndian(b);
      if Signed() then ToSigned(u, Limit()) else u
    }

    lemma LimitIsPower()
      ensures Pow256(Size()) == Limit()
    {
      Pow256Of4();
      Pow256Of8();
      assert Pow256(2) == 0x1_0000;
    }
  }

  /** One typed value, and the type alone, which is all a reader supplies. */
  datatype Item = Bool(b: bool) | Number(pod: Pod, v: int) | Text(s: seq<byte>) | Data(s: seq<byte>) | Raw(s: seq<byte>)
  datatype Kind = KBool | KNumber(pod: Pod) | KText | KData | KRaw(length: int)

  predicate ValidItem(i: Item) {
    match i
    case Bool(_) => true
    case Number(pod, v) => pod.Holds(v)
    case _ => |i.s| < 0x8000_0000
  }

  function KindOf(i: Item): Kind {
    match i
    case Bool(_) => KBool
    case Number(pod, _) => KNumber(pod)
    case Text(_) => KText
    case Data(_) => KData
    case Raw(s) => KRaw(|s|)
  }

  // ---------------------------------------------------------------- writing

  function Zeros(n: nat): (z: seq<byte>)
    ensures |z| == n && forall i :: 0 <= i < n ==> z[i] == 0
  {
    seq(n, _ => 0)
  }

  function Padding(length: nat): (p: nat)
    ensures p < 4 && length + p == RoundUp(length, 4)
  {
    RoundUp(length, 4) - length
  }

  function Padded(b: seq<byte>): (p: seq<byte>)
    ensures |p| == RoundUp(|b|, 4)
  {
    b + Zeros(Padding(|b|))
  }

  function Image32(v: int): (b: seq<byte>)
    requires -0x8000_0000 <= v < 0x8000_0000
    ensures |b| == 4
  {
    Int32.Image(v)
  }

  function Encode(i: Item): seq<byte>
    requires ValidItem(i)
  {
    match i
    case Bool(b) => Padded(Image32(if b then 1 else 0))
    case Number(pod, v) => Padded(pod.Image(v))
    case Raw(s) => Padded(s)
    case _ => Padded(Image32(|i.s|)) + Padded(i.s)
  }

  predicate ValidItems(items: seq<Item>) {
    forall i :: i in items ==> ValidItem(i)
  }

  function EncodeAll(items: seq<Item>): seq<byte>
    requires ValidItems(items)
  {
    if items == [] then [] else Encode(items[0]) + EncodeAll(items[1..])
  }

  lemma {:induction false} EncodeAllAppend(items: seq<Item>, last: Item)
    requires ValidItems(items) && ValidItem(last)
    ensures ValidItems(items + [last])
    ensures EncodeAll(items + [last]) == EncodeAll(items) + Encode(last)
  {
    hide Encode;
    var all := items + [last];
    if items == [] {
      assert all[1..] == [];
    } else {
      var first := Encode(items[0]);
      assert all[1..] == items[1..] + [last];
      EncodeAllAppend(items[1..], last);
      assert EncodeAll(all) == first + EncodeAll(all[1..]);
      assert EncodeAll(items) == first + EncodeAll(items[1..]);
    }
  }

  lemma AlignedSum(a: nat, b: nat)
    requires a % 4 == 0 && b % 4 == 0
    ensures (a + b) % 4 == 0
  {
  }

  // ---------------------------------------------------------------- reading

  /** One GetReadPointerAndAdvance: the bytes pointed at, if there are enough, and the next index. */
  function Take(payload: seq<byte>, index: nat, size: int): (r: (Option<seq<byte>>, nat))
    requires index <= |payload|
    ensures r.1 <= |payload|
    ensures r.0.Some? ==> size >= 0 && |r.0.value| == size && index + size <= r.1
  {
    if size < 0 || |payload| - index < size then (None, |payload|)
    else
      var aligned := RoundUp(size, 4);
      (Some(payload[index..index + size]), if |payload| - index < aligned then |payload| else index + aligned)
  }

  function Read(kind: Kind, payload: seq<byte>, index: nat): (r: (Option<Item>, nat))
    requires index <= |payload|
    ensures r.1 <= |payload|
  {
    match kind
    case KBool =>
      var (raw, next) := Take(payload, index, 1);
      (if raw.None? then None else Some(Bool(raw.value[0] != 0)), next)
    case KNumber(pod) =>
      var (raw, next) := Take(payload, index, pod.Size());
      (if raw.None? then None else Some(Number(pod, pod.Value(raw.value))), next)
    case KRaw(length) =>
      var (raw, next) := Take(payload, index, length);
      (if raw.None? then None else Some(Raw(raw.value)), next)
    case KText =>
      var (body, next) := ReadSized(payload, index);
      (if body.None? then None else Some(Text(body.value)), next)
    case KData =>
      var (body, next) := ReadSized(payload, index);
      (if body.None? then None else Some(Data(body.value)), next)
  }

  /** A length, then that many bytes: ReadString, ReadStringPiece and ReadData. */
  function ReadSized(payload: seq<byte>, index: nat): (r: (Option<seq<byte>>, nat))
    requires index <= |payload|
    ensures r.1 <= |payload|
  {
    var (length, next) := Take(payload, index, 4);
    if length.None? then (None, next) else Take(payload, next, Int32.Value(length.value))
  }

  function ReadAll(kinds: seq<Kind>, payload: seq<byte>, index: nat): (r: (Option<seq<Item>>, nat))
    requires index <= |payload|
    ensures r.1 <= |payload|
  {
    if kinds == [] then (Some([]), index)
    else
      var (first, next) := Read(kinds[0], payload, index);
      if first.None? then (None, next)
      else
        var (rest, last) := ReadAll(kinds[1..], payload, next);
        (if rest.None? then None else Some([first.value] + rest.value), last)
  }

  function Kinds(items: seq<Item>): (k: seq<Kind>)
    ensures |k| == |items|
  {
    seq(|items|, i requires 0 <= i < |items| => KindOf(items[i]))
  }

  // ---------------------------------------------------------------- round trip

  lemma PodRoundTrip(pod: Pod, v: int)
    requires pod.Holds(v)
    ensures pod.Value(pod.Image(v)) == v
  {
    pod.LimitIsPower();
    DecodeEncode(ToUnsigned(v, pod.Limit()), pod.Size());
  }

  lemma BoolImage(b: bool)
    ensures Image32(if b then 1 else 0) == [if b then 1 else 0, 0, 0, 0]
  {
    var v := if b then 1 else 0;
    assert LittleEndian(v, 4) == [v] + LittleEndian(0, 3);
    assert LittleEndian(0, 3) == [0] + LittleEndian(0, 2) == [0, 0] + LittleEndian(0, 1);
    assert LittleEndian(0, 1) == [0];
  }

  lemma TakePadded(payload: seq<byte>, index: nat, b: seq<byte>, rest: seq<byte>)
    requires index <= |payload| && payload[index..] == Padded(b) + rest
    ensures Take(payload, index, |b|) == (Some(b), index + |Padded(b)|)
    ensures payload[index + |Padded(b)|..] == rest
  {
    var p := Padded(b);
    assert |payload| - index == |p| + |rest|;
    assert payload[index..][..|b|] == payload[index..index + |b|];
    assert (p + rest)[..|b|] == b;
    assert payload[index + |p|..] == payload[index..][|p|..] == rest;
  }

  lemma ReadEncoded(i: Item, payload: seq<byte>, index: nat, rest: seq<byte>)
    requires ValidItem(i)
    requires index <= |payload| && payload[index..] == Encode(i) + rest
    ensures Read(KindOf(i), payload, index) == (Some(i), index + |Encode(i)|)
    ensures payload[index + |Encode(i)|..] == rest
  {
    hide Pod.Value, Pod.Image, Image32, ReadSized, Take, Padded;
    match i {
      case Bool(b) =>
        var image := Image32(if b then 1 else 0);
        BoolImage(b);
        TakePadded(payload, index, image, rest);
        ReadPrefixByte(payload, index, image);
      case Number(pod, v) =>
        TakePadded(payload, index, pod.Image(v), rest);
        PodRoundTrip(pod, v);
      case Raw(s) =>
        TakePadded(payload, index, s, rest);
      case _ =>
        assert Encode(i) + rest == Padded(Image32(|i.s|)) + (Padded(i.s) + rest);
        ReadSizedEncoded(i.s, payload, index, rest);
    }
  }

  lemma ReadSizedEncoded(s: seq<byte>, payload: seq<byte>, index: nat, rest: seq<byte>)
    requires |s| < 0x8000_0000
    requires index <= |payload| && payload[index..] == Padded(Image32(|s|)) + (Padded(s) + rest)
    ensures ReadSized(payload, index) == (Some(s), index + 4 + |Padded(s)|)
    ensures payload[index + 4 + |Padded(s)|..] == rest
  {
    TakePadded(payload, index, Image32(|s|), Padded(s) + rest);
    PodRoundTrip(Int32, |s|);
    TakePadded(payload, index + 4, s, rest);
  }

  /** A bool is written as four bytes but read as one, with the cursor still moving by four. */
  lemma ReadPrefixByte(payload: seq<byte>, index: nat, image: seq<byte>)
    requires index <= |payload| && |image| == 4
    requires Take(payload, index, 4) == (Some(image), index + 4)
    ensures Take(payload, index, 1) == (Some(image[..1]), index + 4)
  {
    assert payload[index..index + 1] == payload[index..index + 4][..1];
  }

  /** Reading back with the types that were written returns the values that were written, whatever
      precedes them, and stops exactly at the end. */
  lemma {:induction false} RoundTrip(items: seq<Item>, payload: seq<byte>, index: nat)
    requires ValidItems(items)
    requires index <= |payload| && payload[index..] == EncodeAll(items)
    ensures ReadAll(Kinds(items), payload, index) == (Some(items), |payload|)
  {
    hide Encode, Read;
    if items == [] {
    } else {
      var next := index + |Encode(items[0])|;
      ReadEncoded(items[0], payload, index, EncodeAll(items[1..]));
      assert Kinds(items)[1..] == Kinds(items[1..]);
      RoundTrip(items[1..], payload, next);
      assert [items[0]] + items[1..] == items;
    }
  }

  /** Two lists of values of the same types have the same image only if they are the same list. */
  lemma EncodingInjective(a: seq<Item>, b: seq<Item>)
    requires ValidItems(a) && ValidItems(b) && Kinds(a) == Kinds(b)
    requires EncodeAll(a) == EncodeAll(b)
    ensures a == b
  {
    RoundTrip(a, EncodeAll(a), 0);
    RoundTrip(b, EncodeAll(b), 0);
  }

  /** The smallest number of bytes a read of this kind must find. */
  function Needs(kind: Kind): int {
    match kind
    case KBool => 1
    case KNumber(pod) => pod.Size()
    case KRaw(length) => if length < 0 then 1 else length
    case _ => 4
  }

  /** A read that fails moves the cursor to the end, from where every read of at least one byte
      fails too: no later value can be taken from the middle of a damaged payload. */
  lemma FailureIsFinal(kind: Kind, later: Kind, payload: seq<byte>, index: nat)
    requires index <= |payload| && Read(kind, payload, index).0.None?
    requires Needs(later) > 0
    ensures Read(kind, payload, index).1 == |payload|
    ensures Read(later, payload, |payload|) == (None, |payload|)
  {
  }

  // ---------------------------------------------------------------- growth

  /** The capacity chosen by ClaimUninitializedBytesInternal when `newSize` does not fit. */
  function NextCapacity(capacity: nat, newSize: nat): nat {
    var doubled := capacity * 2;
    var wanted := if doubled > HEAP_ALIGN then RoundUp(doubled, HEAP_ALIGN) - PAYLOAD_UNIT else doubled;
    RoundUp(if wanted > newSize then wanted else newSize, PAYLOAD_UNIT)
  }

  /** The capacity chosen by Reserve. */
  function ReservedCapacity(capacity: nat, newSize: nat): nat {
    RoundUp(capacity * 2 + newSize, PAYLOAD_UNIT)
  }

  /** `copied` adds up the old capacity at each Resize, the most that realloc can have to move. */
  datatype Growth = Growth(capacity: nat, writeOffset: nat, copied: nat) {
    function Write(length: nat): Growth {
      var newSize := writeOffset + RoundUp(length, 4);
      if newSize > capacity then Growth(NextCapacity(capacity, newSize), newSize, copied + capacity)
      else this.(writeOffset := newSize)
    }

    function Reserve(length: nat): Growth {
      var newSize := writeOffset + RoundUp(length, 4);
      if newSize > capacity then Growth(ReservedCapacity(capacity, newSize), writeOffset, copied + capacity) else this
    }

    function WriteAll(lengths: seq<nat>): Growth
      decreases |lengths|
    {
      if lengths == [] then this else Write(lengths[0]).WriteAll(lengths[1..])
    }

    ghost predicate Amortised() {
      && capacity % 64 == 0 && capacity >= 64
      && copied <= 2 * capacity
      && capacity <= 2 * writeOffset + 4096
    }
  }

  lemma NextCapacityBounds(capacity: nat, newSize: nat)
    requires capacity % 64 == 0 && newSize > capacity
    ensures var next := NextCapacity(capacity, newSize);
            && next % 64 == 0 && newSize <= next
            && 3 * capacity <= 2 * next
            && next <= 2 * newSize + 4096
  {
    var doubled := capacity * 2;
    var wanted := if doubled > 4096 then RoundUp(doubled, 4096) - 64 else doubled;
  }

  lemma GrowthStep(g: Growth, length: nat)
    requires g.Amortised()
    ensures g.Write(length).Amortised()
  {
    var newSize := g.writeOffset + RoundUp(length, 4);
    if newSize > g.capacity {
      NextCapacityBounds(g.capacity, newSize);
    }
  }

  lemma {:induction false} GrowthRun(g: Growth, lengths: seq<nat>)
    requires g.Amortised()
    ensures g.WriteAll(lengths).Amortised()
    decreases |lengths|
  {
    if lengths == [] {
    } else {
      GrowthStep(g, lengths[0]);
      GrowthRun(g.Write(lengths[0]), lengths[1..]);
    }
  }

  function TotalPadded(lengths: seq<nat>): nat {
    if lengths == [] then 0 else RoundUp(lengths[0], 4) + TotalPadded(lengths[1..])
  }

  lemma {:induction false} WriteOffsetIsTotal(g: Growth, lengths: seq<nat>)
    ensures g.WriteAll(lengths).writeOffset == g.writeOffset + TotalPadded(lengths)
    decreases |lengths|
  {
    if lengths == [] {
    } else {
      WriteOffsetIsTotal(g.Write(lengths[0]), lengths[1..]);
    }
  }

  /** Over any writes to a fresh pickle, all the copying done by growing stays within four times the
      bytes written plus two pages. */
  lemma CopyingIsLinear(lengths: seq<nat>)
    ensures var g := Growth(64, 0, 0).WriteAll(lengths);
            && g.copied <= 2 * g.capacity
            && g.capacity <= 2 * TotalPadded(lengths) + 4096
            && g.copied <= 4 * TotalPadded(lengths) + 8192
  {
    GrowthRun(Growth(64, 0, 0), lengths);
    WriteOffsetIsTotal(Growth(64, 0, 0), lengths);
  }

  /** A write of so many bytes, or a Reserve for them. */
  datatype Claim = Written(length: nat) | Reserved(length: nat)

  function Claimed(g: Growth, claim: Claim): Growth {
    if claim.Written? then g.Write(claim.length) else g.Reserve(claim.length)
  }

  function ClaimedAll(g: Growth, claims: seq<Claim>): Growth
    decreases |claims|
  {
    if claims == [] then g else ClaimedAll(Claimed(g, claims[0]), claims[1..])
  }

  /** The most bytes in use or asked for at any time, starting from `offset` bytes in use. */
  function Peak(offset: nat, claims: seq<Claim>): (peak: nat)
    ensures peak >= offset
    decreases |claims|
  {
    if claims == [] then offset
    else
      var wanted := offset + RoundUp(claims[0].length, 4);
      var rest := Peak(if claims[0].Written? then wanted else offset, claims[1..]);
      if wanted > rest then wanted else rest
  }

  lemma ReserveBounds(g: Growth, length: nat)
    requires g.capacity % 64 == 0 && g.copied <= 2 * g.capacity
    ensures var r, newSize := g.Reserve(length), g.writeOffset + RoundUp(length, 4);
            && r.capacity % 64 == 0 && r.copied <= 2 * r.capacity && r.writeOffset == g.writeOffset
            && (r.capacity == g.capacity || r.capacity <= 3 * newSize + 4096)
  {
    hide RoundUp;
    var newSize := g.writeOffset + RoundUp(length, 4);
    RoundUpIsMultiple(g.capacity * 2 + newSize, 64);
  }

  lemma WriteBounds(g: Growth, length: nat)
    requires g.capacity % 64 == 0 && g.copied <= 2 * g.capacity
    ensures var w, newSize := g.Write(length), g.writeOffset + RoundUp(length, 4);
            && w.capacity % 64 == 0 && w.copied <= 2 * w.capacity && w.writeOffset == newSize
            && (w.capacity == g.capacity || w.capacity <= 3 * newSize + 4096)
  {
    hide RoundUp, NextCapacity;
    var newSize := g.writeOffset + RoundUp(length, 4);
    if newSize > g.capacity {
      NextCapacityBounds(g.capacity, newSize);
    }
  }

  /** Any mix of writes and Reserves: still at most twice the capacity is ever moved, and the capacity is
      at most three times the most ever in use or asked for, plus a page. */
  lemma {:induction false} MixedGrowth(g: Growth, claims: seq<Claim>, bound: nat)
    requires g.capacity % 64 == 0 && g.copied <= 2 * g.capacity
    requires g.capacity <= 3 * bound + 4096 && Peak(g.writeOffset, claims) <= bound
    ensures var h := ClaimedAll(g, claims);
            && h.capacity % 64 == 0 && h.copied <= 2 * h.capacity && h.capacity <= 3 * bound + 4096
    decreases |claims|
  {
    hide Growth.Write, Growth.Reserve, RoundUp;
    if claims == [] {
    } else {
      if claims[0].Written? {
        WriteBounds(g, claims[0].length);
      } else {
        ReserveBounds(g, claims[0].length);
      }
      MixedGrowth(Claimed(g, claims[0]), claims[1..], bound);
    }
  }

  lemma ReservingIsLinear(claims: seq<Claim>)
    ensures var g := ClaimedAll(Growth(64, 0, 0), claims);
            && g.copied <= 2 * g.capacity
            && g.capacity <= 3 * Peak(0, claims) + 4096
            && g.copied <= 6 * Peak(0, claims) + 8192
  {
    MixedGrowth(Growth(64, 0, 0), claims, Peak(0, claims));
  }

  // ---------------------------------------------------------------- framing

  predicate HeaderSizeOk(headerSize: nat) {
    headerSize % 4 == 0 && HEADER <= headerSize <= PAYLOAD_UNIT
  }

  /** PeekNext: the size the next pickle claims, once its header is there. */
  function PeekNext(headerSize: nat, bytes: seq<byte>): Option<nat>
    requires HeaderSizeOk(headerSize)
  {
    if |bytes| < HEADER || |bytes| < headerSize then None
    else
      var payloadSize := Uint32(bytes[..4]);
      Some(if payloadSize > WORD - 1 - headerSize then WORD - 1 else headerSize + payloadSize)
  }

  /** FindNext: where the next pickle ends, once all of it is there. */
  function FindNext(headerSize: nat, bytes: seq<byte>): (r: Option<nat>)
    requires HeaderSizeOk(headerSize)
    ensures r.Some? ==> 0 < r.value <= |bytes|
  {
    var size := PeekNext(headerSize, bytes);
    if size.None? || size.value > |bytes| then None else size
  }

  /** The bytes of one whole pickle: its header, then as many bytes as the header says. */
  predicate IsFrame(headerSize: nat, f: seq<byte>)
    requires HeaderSizeOk(headerSize)
  {
    |f| >= headerSize && |f| == headerSize + Uint32(f[..4])
  }

  function Flatten(frames: seq<seq<byte>>): seq<byte> {
    if frames == [] then [] else frames[0] + Flatten(frames[1..])
  }

  /** Cutting with FindNext for as long as it answers. */
  function Cut(headerSize: nat, bytes: seq<byte>): (r: (seq<seq<byte>>, seq<byte>))
    requires HeaderSizeOk(headerSize)
    decreases |bytes|
  {
    var next := FindNext(headerSize, bytes);
    if next.None? then ([], bytes)
    else
      var (frames, rest) := Cut(headerSize, bytes[next.value..]);
      ([bytes[..next.value]] + frames, rest)
  }

  lemma FindNextExact(headerSize: nat, f: seq<byte>, rest: seq<byte>)
    requires HeaderSizeOk(headerSize) && IsFrame(headerSize, f)
    ensures FindNext(headerSize, f + rest) == Some(|f|)
  {
    assert (f + rest)[..4] == f[..4];
  }

  /** No strict prefix of a pickle is taken for a pickle. */
  lemma StrictPrefixIsNotFound(headerSize: nat, f: seq<byte>, k: nat)
    requires HeaderSizeOk(headerSize) && IsFrame(headerSize, f) && k < |f|
    ensures FindNext(headerSize, f[..k]) == None
  {
    if k >= headerSize {
      assert f[..k][..4] == f[..4];
    }
  }

  /** Concatenated pickles, followed by a piece of another one, are cut at exactly their boundaries. */
  lemma {:induction false} CutRecovers(headerSize: nat, frames: seq<seq<byte>>, tail: seq<byte>)
    requires HeaderSizeOk(headerSize)
    requires forall f :: f in frames ==> IsFrame(headerSize, f)
    requires FindNext(headerSize, tail) == None
    ensures Cut(headerSize, Flatten(frames) + tail) == (frames, tail)
  {
    var bytes := Flatten(frames) + tail;
    if frames == [] {
      assert bytes == tail;
    } else {
      var f := frames[0];
      var rest := Flatten(frames[1..]) + tail;
      assert bytes == f + rest;
      FindNextExact(headerSize, f, rest);
      assert bytes[..|f|] == f && bytes[|f|..] == rest;
      CutRecovers(headerSize, frames[1..], tail);
      assert [f] + frames[1..] == frames;
    }
  }

  /** On arbitrary bytes the cuts are whole frames, nothing is lost, and the remainder has no frame. */
  lemma {:induction false} CutSound(headerSize: nat, bytes: seq<byte>)
    requires HeaderSizeOk(headerSize)
    ensures var (frames, rest) := Cut(headerSize, bytes);
            && Flatten(frames) + rest == bytes
            && (forall f :: f in frames ==> IsFrame(headerSize, f))
            && FindNext(headerSize, rest) == None
    decreases |bytes|
  {
    var next := FindNext(headerSize, bytes);
    if next.None? {
    } else {
      var f := bytes[..next.value];
      assert f[..4] == bytes[..4];
      assert IsFrame(headerSize, f);
      CutSound(headerSize, bytes[next.value..]);
      var (frames, rest) := Cut(headerSize, bytes[next.value..]);
      assert ([f] + frames)[1..] == frames;
      assert f + Flatten(frames) + rest == bytes;
    }
  }

  /** The header size computed by Pickle(data, len): 0 stands for the null header.  The subtraction
      is on 32-bit unsigned integers. */
  function ReadOnlyHeaderSize(data: seq<byte>, length: int): nat
    requires length <= |data| && -0x8000_0000 <= length < 0x8000_0000
  {
    var size := if length >= HEADER then Difference32(length, Uint32(data[..4])) else 0;
    var length32 := if length < 0 then length + HALF_WORD else length;
    var fitting := if size > length32 then 0 else size;
    if fitting != RoundUp(fitting, 4) then 0 else fitting
  }

  /** x - y on 32-bit unsigned integers. */
  function Difference32(x: nat, y: nat): nat
    requires x < HALF_WORD && y < HALF_WORD
  {
    if x < y then x - y + HALF_WORD else x - y
  }

  /** On arbitrary bytes the view is null, or header and payload fill the data exactly; and it is null
      just when the announced payload leaves no positive multiple of 4 for the header. */
  lemma ReadOnlyFits(data: seq<byte>, length: int)
    requires length <= |data| && -0x8000_0000 <= length < 0x8000_0000
    ensures var h := ReadOnlyHeaderSize(data, length);
            if length < HEADER then h == 0
            else
              var room := length - Uint32(data[..4]);
              if room > 0 && room % 4 == 0 then h == room else h == 0
  {
  }

  /** The read-only view of a whole frame has the frame's own header size. */
  lemma ReadOnlyRecovers(headerSize: nat, f: seq<byte>)
    requires HeaderSizeOk(headerSize) && IsFrame(headerSize, f) && |f| < 0x8000_0000
    ensures ReadOnlyHeaderSize(f, |f|) == headerSize
  {
    ReadOnlyFits(f, |f|);
  }
}
