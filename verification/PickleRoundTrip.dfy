/** Whole runs over the Pickle classes: what base/pickle_unittest.cc tries on one list of values, for
    every list. */
module PickleRoundTrip {
  import opened Wrappers
  import opened Bytes
  import opened Bits
  import opened PickleFormat
  import opened PickleBuffer

  /** The lengths that writing an item claims, one after another. */
  function LengthsOf(item: Item): seq<nat> {
    match item
    case Bool(_) => [4]
    case Number(pod, _) => [pod.Size()]
    case Raw(s) => [|s|]
    case _ => [4, |item.s|]
  }

  function AllLengths(items: seq<Item>): seq<nat> {
    if items == [] then [] else LengthsOf(items[0]) + AllLengths(items[1..])
  }

  lemma {:induction false} WriteAllAppend(g: Growth, a: seq<nat>, b: seq<nat>)
    ensures g.WriteAll(a + b) == g.WriteAll(a).WriteAll(b)
    decreases |a|
  {
    hide Growth.Write;
    if a == [] {
      assert a + b == b;
    } else {
      assert (a + b)[1..] == a[1..] + b;
      WriteAllAppend(g.Write(a[0]), a[1..], b);
    }
  }

  lemma WriteAllFew(g: Growth, m: nat, n: nat)
    ensures g.WriteAll([m]) == g.Write(m) && g.WriteAll([m, n]) == g.Write(m).Write(n)
  {
    hide Growth.Write;
    assert [m, n][1..] == [n] && [n][1..] == [] && [m][1..] == [];
    assert g.Write(m).WriteAll([n]) == g.Write(m).Write(n).WriteAll([]);
  }

  method WriteItem(p: Pickle, item: Item)
    requires p.Valid() && ValidItem(item) && p.writeOffset + |Encode(item)| < HALF_WORD
    modifies p, p.header
    ensures p.Valid() && p.headerSize == old(p.headerSize) && p.HeaderTail() == old(p.HeaderTail())
    ensures p.header == old(p.header) || fresh(p.header)
    ensures p.Payload() == old(p.Payload()) + Encode(item)
    ensures p.GrowthState() == old(p.GrowthState()).WriteAll(LengthsOf(item))
  {
    hide Growth.Write, Growth.WriteAll;
    WriteAllFew(p.GrowthState(), LengthsOf(item)[0], if |LengthsOf(item)| > 1 then LengthsOf(item)[1] else 0);
    var ok;
    match item {
      case Bool(b) => ok := p.WriteBool(b);
      case Number(pod, v) => ok := p.WritePod(pod, v);
      case Text(s) =>
        LowBits(|s|);
        ok := p.WriteString(s);
      case Data(s) => ok := p.WriteData(s, |s|);
        assert s[..|s|] == s;
      case Raw(s) => ok := p.WriteBytes(s, |s|);
        assert s[..|s|] == s;
    }
  }

  method ReadItem(it: PickleIterator, kind: Kind) returns (item: Option<Item>)
    requires it.Valid() && it.endIndex < HALF_WORD
    modifies it`readIndex
    ensures it.Valid() && (item, it.readIndex) == old(it.Expected(kind))
  {
    var ok;
    match kind {
      case KBool => var b; ok, b := it.ReadBool(); item := if ok then Some(Bool(b)) else None;
      case KNumber(pod) => var v; ok, v := it.ReadPod(pod); item := if ok then Some(Number(pod, v)) else None;
      case KText => var s; ok, s := it.ReadString(); item := if ok then Some(Text(s)) else None;
      case KData => var s, n; ok, s, n := it.ReadData(); item := if ok then Some(Item.Data(s)) else None;
      case KRaw(length) => var s; ok, s := it.ReadBytes(length); item := if ok then Some(Raw(s)) else None;
    }
  }

  method WriteItems(p: Pickle, items: seq<Item>)
    requires p.Valid() && ValidItems(items)
    requires p.writeOffset + |EncodeAll(items)| < HALF_WORD
    modifies p, p.header
    ensures p.Valid() && p.headerSize == old(p.headerSize) && p.HeaderTail() == old(p.HeaderTail())
    ensures p.header == old(p.header) || fresh(p.header)
    ensures p.Payload() == old(p.Payload()) + EncodeAll(items)
    ensures p.GrowthState() == old(p.GrowthState()).WriteAll(AllLengths(items))
    decreases |items|
  {
    hide Encode, Uint32, Growth.Write, LengthsOf;
    if items != [] {
      WriteAllAppend(p.GrowthState(), LengthsOf(items[0]), AllLengths(items[1..]));
      WriteItem(p, items[0]);
      WriteItems(p, items[1..]);
    }
  }

  /** Reads the kinds in order and stops at the first failure, as a chain of && would. */
  method ReadItems(it: PickleIterator, kinds: seq<Kind>) returns (items: Option<seq<Item>>)
    requires it.Valid() && it.block != null && it.endIndex < HALF_WORD
    modifies it`readIndex
    ensures it.Valid()
    ensures (items, it.readIndex) == ReadAll(kinds, it.Bytes(), old(it.readIndex))
    decreases |kinds|
  {
    hide Read;
    if kinds == [] {
      return Some([]);
    }
    var first := ReadItem(it, kinds[0]);
    if first.None? {
      return None;
    }
    var rest := ReadItems(it, kinds[1..]);
    items := if rest.None? then None else Some([first.value] + rest.value);
  }

  /** Reads a pickle from the front; `left` is what remains behind the cursor. */
  method VerifyResult(p: Pickle, ghost items: seq<Item>, kinds: seq<Kind>)
      returns (found: Option<seq<Item>>, left: nat)
    requires p.Readable() && p.header != null && ValidItems(items)
    requires p.Payload() == EncodeAll(items) && kinds == Kinds(items)
    ensures found == Some(items) && left == 0
  {
    hide ReadAll, EncodeAll, Encode, Kinds, Uint32;
    assert p.Payload()[0..] == p.Payload();
    RoundTrip(items, p.Payload(), 0);
    var it := new PickleIterator(p);
    found := ReadItems(it, kinds);
    left := it.endIndex - it.readIndex;
  }

  /** Any list of values in a fresh pickle: what realloc had to move on the way is linear in the payload. */
  method WriteFresh(items: seq<Item>) returns (p: Pickle)
    requires ValidItems(items) && |EncodeAll(items)| < HALF_WORD
    ensures fresh(p) && fresh(p.header) && p.Valid() && p.headerSize == HEADER
    ensures p.Payload() == EncodeAll(items)
    ensures p.copied <= 2 * p.capacity
    ensures p.capacity <= 2 * p.PayloadSize() + 4096
    ensures p.copied <= 4 * p.PayloadSize() + 8192
  {
    hide Uint32, Encode, EncodeAll, Growth.Write, Growth.WriteAll, TotalPadded;
    p := new Pickle();
    WriteItems(p, items);
    assert [] + EncodeAll(items) == EncodeAll(items);
    CopyingIsLinear(AllLengths(items));
    WriteOffsetIsTotal(Growth(64, 0, 0), AllLengths(items));
  }

  /** Write, copy-construct, assign, read back: every list of values survives, whatever the buffers did. */
  method EncodeDecode(items: seq<Item>)
      returns (first: Option<seq<Item>>, second: Option<seq<Item>>, third: Option<seq<Item>>, left: nat)
    requires ValidItems(items) && |EncodeAll(items)| < HALF_WORD
    ensures first == second == third == Some(items)
    ensures left == 0
  {
    hide Uint32, Encode;
    var p := WriteFresh(items);
    first, left := VerifyResult(p, items, Kinds(items));
    var q := new Pickle.Copy(p);
    var rest;
    second, rest := VerifyResult(q, items, Kinds(items));
    left := left + rest;
    var r := new Pickle();
    r.Assign(p);
    third, rest := VerifyResult(r, items, Kinds(items));
    left := left + rest;
  }

  // ---------------------------------------------------------------- writes and reserves

  /** Bytes written and room reserved, in any mix. */
  method Fill(p: Pickle, claims: seq<Claim>)
    requires p.Valid() && Peak(p.writeOffset, claims) < HALF_WORD
    requires forall c :: c in claims ==> c.length < 0x8000_0000
    modifies p, p.header
    ensures p.Valid() && p.GrowthState() == ClaimedAll(old(p.GrowthState()), claims)
    ensures p.header == old(p.header) || fresh(p.header)
    decreases |claims|
  {
    hide Claimed, RoundUp, Uint32, Pickle.Valid;
    if claims != [] {
      assert claims[0] in claims;
      FillOne(p, claims[0]);
      Fill(p, claims[1..]);
    }
  }

  method FillOne(p: Pickle, c: Claim)
    requires p.Valid() && p.writeOffset + RoundUp(c.length, 4) < HALF_WORD && c.length < 0x8000_0000
    modifies p, p.header
    ensures p.Valid() && p.GrowthState() == Claimed(old(p.GrowthState()), c)
    ensures p.writeOffset == old(p.writeOffset) + if c.Written? then RoundUp(c.length, 4) else 0
    ensures p.header == old(p.header) || fresh(p.header)
  {
    hide Growth.Write, Growth.Reserve, RoundUp, Uint32;
    WrittenOffset(p.GrowthState(), c.length);
    if c.Written? {
      var data := Zeros(c.length);
      var _ := p.WriteBytes(data, c.length);
    } else {
      p.Reserve(c.length);
    }
  }

  lemma WrittenOffset(g: Growth, length: nat)
    ensures g.Write(length).writeOffset == g.writeOffset + RoundUp(length, 4)
    ensures g.Reserve(length).writeOffset == g.writeOffset
  {
  }

  /** From a fresh pickle, writing and reserving together stay linear in the most ever asked for. */
  method FillFresh(claims: seq<Claim>) returns (p: Pickle)
    requires Peak(0, claims) < HALF_WORD && forall c :: c in claims ==> c.length < 0x8000_0000
    ensures fresh(p) && p.Valid() && p.copied <= 2 * p.capacity
    ensures p.capacity <= 3 * Peak(0, claims) + 4096 && p.copied <= 6 * Peak(0, claims) + 8192
  {
    hide ClaimedAll, Peak, Uint32;
    p := new Pickle();
    Fill(p, claims);
    ReservingIsLinear(claims);
  }

  // ---------------------------------------------------------------- predicted sizes

  lemma SumsWrap(a: nat, b: nat, c: nat)
    requires a < WORD && b < WORD
    ensures WrappedSum(a, b) < WORD && (WrappedSum(a, b) + c) % WORD == (a + b + c) % WORD
  {
  }

  lemma EncodedSizes(items: seq<Item>)
    requires ValidItems(items)
    ensures |EncodeAll(items)| == if items == [] then 0 else |Encode(items[0])| + |EncodeAll(items[1..])|
  {
    hide Encode;
  }

  method SizeItem(s: PickleSizer, item: Item)
    requires ValidItem(item) && s.payloadSize < WORD
    modifies s
    ensures |Encode(item)| < WORD && s.payloadSize == WrappedSum(old(s.payloadSize), |Encode(item)|)
  {
    hide RoundUp;
    SmallImage(item);
    match item {
      case Bool(_) => s.AddBool();
      case Number(pod, _) => s.AddPod(pod);
      case Text(t) => s.AddString(t);
      case Data(t) => s.AddData(|t|);
      case Raw(t) => s.AddBytes(|t|);
    }
  }

  /** Fed any list of values, a sizer grows by exactly the bytes that writing them takes. */
  method SizeItems(s: PickleSizer, items: seq<Item>)
    requires ValidItems(items) && s.payloadSize < WORD
    modifies s
    ensures s.payloadSize == (old(s.payloadSize) + |EncodeAll(items)|) % WORD
    ensures old(s.payloadSize) + |EncodeAll(items)| < WORD ==>
              s.payloadSize == old(s.payloadSize) + |EncodeAll(items)|
    decreases |items|
  {
    hide Encode, EncodeAll, WrappedSum;
    EncodedSizes(items);
    if items == [] {
    } else {
      SmallImage(items[0]);
      SumsWrap(s.payloadSize, |Encode(items[0])|, |EncodeAll(items[1..])|);
      SizeItem(s, items[0]);
      SizeItems(s, items[1..]);
    }
  }

  // ---------------------------------------------------------------- frames and views

  /** A read-only pickle on the bytes of another one, wherever they stand, has its header size and payload. */
  method View(p: Pickle, data: array<byte>) returns (q: Pickle)
    requires p.Valid() && HeaderSizeOk(p.headerSize) && |p.Frame()| < 0x8000_0000
    requires |p.Frame()| <= data.Length && data[..|p.Frame()|] == p.Frame()
    ensures fresh(q) && q.Readable() && q.header == data && q.capacity == CAPACITY_READ_ONLY && q.writeOffset == 0
    ensures q.headerSize == p.headerSize && q.Payload() == p.Payload()
  {
    hide Uint32;
    p.FrameIsFrame();
    ghost var f := p.Frame();
    ReadOnlyRecovers(p.headerSize, f);
    assert f[..4] == data[..][..4];
    q := new Pickle.ReadOnly(data, p.headerSize + p.PayloadSize());
    assert q.Payload() == f[p.headerSize..];
  }

  /** The copy of a read-only pickle with a payload has that payload but cannot be written to. */
  method CopyOfView(view: Pickle) returns (copy: Pickle)
    requires view.Readable() && view.header != null && view.headerSize < HALF_WORD
    requires view.capacity == CAPACITY_READ_ONLY && view.writeOffset == 0 && view.PayloadSize() > 0
    ensures fresh(copy) && copy.BufferOk() && copy.Readable() && copy.Payload() == view.Payload()
    ensures copy.writeOffset == 0 != copy.PayloadSize() && !copy.Valid()
  {
    hide Uint32;
    copy := new Pickle.Copy(view);
  }

  /** The smallest case: one bool, written, viewed and copied. */
  method StuckCopy() returns (copy: Pickle)
    ensures copy.BufferOk() && copy.Readable() && copy.Payload() == Encode(Bool(true)) && !copy.Valid()
  {
    hide Uint32;
    var items := [Bool(true)];
    assert EncodeAll(items) == Encode(Bool(true)) + EncodeAll(items[1..]);
    var p := WriteFresh(items);
    var view := View(p, p.header);
    copy := CopyOfView(view);
  }
}
