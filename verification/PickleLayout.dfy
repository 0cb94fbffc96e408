/** The format of a Pickle byte by byte: what stands where, which reads succeed, and what the growth
    policy and the framing answer. */
module PickleLayout {
  import opened Wrappers
  import opened Bits
  import opened Bytes
  import opened PickleFormat

  // ---------------------------------------------------------------- the plain types

  lemma Sizes()
    ensures Int16.Size() == UInt16.Size() == 2
    ensures Int32.Size() == UInt32.Size() == Float.Size() == 4
    ensures Int64.Size() == UInt64.Size() == Double.Size() == 8
  {
  }

  lemma Ranges(v: int)
    ensures Int16.Holds(v) <==> -0x8000 <= v < 0x8000
    ensures Int32.Holds(v) <==> -0x8000_0000 <= v < 0x8000_0000
    ensures Int64.Holds(v) <==> -0x8000_0000_0000_0000 <= v < 0x8000_0000_0000_0000
    ensures UInt16.Holds(v) <==> 0 <= v < 0x1_0000
    ensures UInt32.Holds(v) <==> 0 <= v < 0x1_0000_0000
    ensures UInt64.Holds(v) <==> 0 <= v < 0x1_0000_0000_0000_0000
  {
  }

  /** Two's complement, lowest byte first. */
  lemma ImageByte(pod: Pod, v: int, i: nat)
    requires pod.Holds(v) && i < pod.Size()
    ensures pod.Image(v)[i] == (if v < 0 then v + Pow256(pod.Size()) else v) / Pow256(i) % 256
  {
    pod.LimitIsPower();
    ByteAt(ToUnsigned(v, pod.Limit()), pod.Size(), i);
  }

  /** Every byte string of the right size is read as the one value that it is the image of. */
  lemma ValueIsOfImage(pod: Pod, b: seq<byte>)
    requires |b| == pod.Size()
    ensures pod.Holds(pod.Value(b)) && pod.Image(pod.Value(b)) == b
  {
    pod.LimitIsPower();
    EncodeDecode(b);
  }

  // ---------------------------------------------------------------- items

  lemma BoolLayout(b: bool)
    ensures Encode(Bool(b)) == [if b then 1 else 0, 0, 0, 0]
  {
    BoolImage(b);
    assert Zeros(0) == [];
  }

  lemma NumberLayout(pod: Pod, v: int)
    requires pod.Holds(v)
    ensures var e := Encode(Number(pod, v));
            && |e| == (if pod.Size() == 8 then 8 else 4)
            && (forall i :: 0 <= i < pod.Size() ==>
                  e[i] == (if v < 0 then v + Pow256(pod.Size()) else v) / Pow256(i) % 256)
            && forall i :: pod.Size() <= i < |e| ==> e[i] == 0
  {
    forall i | 0 <= i < pod.Size()
      ensures pod.Image(v)[i] == (if v < 0 then v + Pow256(pod.Size()) else v) / Pow256(i) % 256
    {
      ImageByte(pod, v, i);
    }
  }

  lemma BytesLayout(s: seq<byte>)
    requires |s| < 0x8000_0000
    ensures var e := Encode(Raw(s));
            && |e| % 4 == 0 && |s| <= |e| < |s| + 4 && e[..|s|] == s
            && forall i :: |s| <= i < |e| ==> e[i] == 0
  {
    RoundUpIsMultiple(|s|, 4);
  }

  lemma SizedLayout(s: seq<byte>)
    requires |s| < 0x8000_0000
    ensures Encode(Text(s)) == Encode(Data(s)) == Encode(Number(Int32, |s|)) + Encode(Raw(s))
  {
  }

  // ---------------------------------------------------------------- reading any payload

  /** Where the cursor stands after some bytes: behind their padding, or at the end if that is cut off. */
  function Behind(payload: seq<byte>, index: nat, size: nat): nat {
    if index + RoundUp(size, 4) <= |payload| then index + RoundUp(size, 4) else |payload|
  }

  /** A read of a fixed size succeeds exactly when that many bytes are left, padding or not. */
  lemma PlainReads(kind: Kind, payload: seq<byte>, index: nat)
    requires index <= |payload| && (kind.KBool? || kind.KNumber? || kind.KRaw?)
    ensures var size := if kind.KBool? then 1 else if kind.KNumber? then kind.pod.Size() else kind.length;
            var r := Read(kind, payload, index);
            if 0 <= size <= |payload| - index then
              var raw := payload[index..index + size];
              && r.1 == Behind(payload, index, size)
              && r.0 == Some(match kind
                             case KBool => Bool(raw[0] != 0)
                             case KNumber(pod) => Number(pod, pod.Value(raw))
                             case _ => Raw(raw))
            else r == (None, |payload|)
  {
  }

  /** A read of a string or of data succeeds exactly when the length is there, is not negative and that
      many bytes are left behind it. */
  lemma SizedReads(payload: seq<byte>, index: nat)
    requires index <= |payload|
    ensures var t, d := Read(KText, payload, index), Read(KData, payload, index);
            if |payload| - index < 4 then t == d == (None, |payload|)
            else
              var length := Int32.Value(payload[index..index + 4]);
              if 0 <= length <= |payload| - index - 4 then
                var s := payload[index + 4..index + 4 + length];
                && t == (Some(Text(s)), Behind(payload, index + 4, length))
                && d == (Some(Data(s)), Behind(payload, index + 4, length))
              else t == d == (None, |payload|)
  {
    hide Pod.Value;
  }

  // ---------------------------------------------------------------- growing

  /** Past a page the doubled capacity is 64 below the least sufficient multiple of 4096, unless more than
      that is needed at once. */
  lemma CapacityPastPage(capacity: nat, newSize: nat) returns (wanted: nat)
    requires capacity % 64 == 0 && capacity * 2 > 4096
    ensures wanted % 4096 == 4096 - 64 && capacity * 2 <= wanted + 64 < capacity * 2 + 4096
    ensures NextCapacity(capacity, newSize) == if newSize <= wanted then wanted else RoundUp(newSize, 64)
  {
    wanted := RoundUp(capacity * 2, 4096) - 64;
    RoundUpIsMultiple(capacity * 2, 4096);
    UnderPage(RoundUp(capacity * 2, 4096));
  }

  lemma UnderPage(page: nat)
    requires page % 4096 == 0 && page > 0
    ensures (page - 64) % 4096 == 4096 - 64 && (page - 64) % 64 == 0
  {
  }

  /** Up to a page the capacity doubles, unless more is needed at once. */
  lemma CapacityInPage(capacity: nat, newSize: nat)
    requires capacity % 64 == 0 && capacity * 2 <= 4096
    ensures NextCapacity(capacity, newSize) == if newSize <= capacity * 2 then capacity * 2 else RoundUp(newSize, 64)
  {
  }

  lemma CapacityReserved(capacity: nat, newSize: nat)
    ensures var r := ReservedCapacity(capacity, newSize);
            r % 64 == 0 && capacity * 2 + newSize <= r < capacity * 2 + newSize + 64
  {
    RoundUpIsMultiple(capacity * 2 + newSize, 64);
  }

  // ---------------------------------------------------------------- framing

  /** As soon as the header of a frame is there, its whole size is known, whatever follows; before that
      nothing is. */
  lemma PeekSeesHeader(headerSize: nat, f: seq<byte>, k: nat, rest: seq<byte>)
    requires HeaderSizeOk(headerSize) && IsFrame(headerSize, f) && headerSize <= k <= |f|
    ensures PeekNext(headerSize, f[..k] + rest) == Some(|f|)
  {
    assert (f[..k] + rest)[..4] == f[..4];
  }

  lemma PeekNeedsHeader(headerSize: nat, bytes: seq<byte>)
    requires HeaderSizeOk(headerSize)
    ensures PeekNext(headerSize, bytes).Some? <==> |bytes| >= headerSize
    ensures |bytes| >= headerSize ==> PeekNext(headerSize, bytes).value == headerSize + Uint32(bytes[..4])
  {
  }

  /** Found exactly when all that was announced has arrived. */
  lemma FoundWhenComplete(headerSize: nat, bytes: seq<byte>)
    requires HeaderSizeOk(headerSize)
    ensures var peeked := PeekNext(headerSize, bytes);
            FindNext(headerSize, bytes) == if peeked.Some? && peeked.value <= |bytes| then peeked else None
  {
  }

  // ---------------------------------------------------------------- conversions

  /** A conversion keeps the value modulo the number of values of the type. */
  lemma Conversions(size: nat, length: int)
    requires -0x8000_0000 <= length < 0x8000_0000
    ensures (size - ToInt32(size)) % 0x1_0000_0000 == 0 && -0x8000_0000 <= ToInt32(size) < 0x8000_0000
    ensures (ToSizeT(length) - length) % WORD == 0 && 0 <= ToSizeT(length) < WORD
  {
  }
}
