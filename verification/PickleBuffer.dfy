/** The buffer classes of base/pickle.{h,cc}, proved against the byte format in PickleFormat.dfy. */
module PickleBuffer {
  import opened Wrappers
  import opened Bits
  import opened Bytes
  import opened PickleFormat

  const CAPACITY_READ_ONLY: nat := WORD - 1

  /** realloc: a block of the new size that starts with what the old one held.  Failure aborts. */
  method Realloc(block: array?<byte>, size: nat) returns (p: array<byte>)
    ensures fresh(p) && p.Length == size
    ensures block != null ==> forall i :: 0 <= i < size && i < block.Length ==> p[i] == block[i]
  {
    p := new byte[size];
    if block != null {
      forall i | 0 <= i < size && i < block.Length {
        p[i] := block[i];
      }
    }
  }

  method Memset(block: array<byte>, from: nat, to: nat)
    requires from <= to <= block.Length
    modifies block
    ensures block[..] == old(block[..from]) + Zeros(to - from) + old(block[to..])
  {
    forall i | from <= i < to {
      block[i] := 0;
    }
  }

  method Memcpy(block: array<byte>, at: nat, data: seq<byte>)
    requires at + |data| <= block.Length
    modifies block
    ensures block[..] == old(block[..at]) + data + old(block[at + |data|..])
  {
    forall i | 0 <= i < |data| {
      block[at + i] := data[i];
    }
  }

  /** What a buffer with a header of the given size says. */
  ghost function PayloadOf(buffer: seq<byte>, headerSize: nat): (p: seq<byte>)
    requires HEADER <= headerSize <= |buffer| && headerSize + Uint32(buffer[..4]) <= |buffer|
    ensures |p| == Uint32(buffer[..4])
  {
    buffer[headerSize..headerSize + Uint32(buffer[..4])]
  }

  lemma SamePrefix(a: seq<byte>, b: seq<byte>, n: nat, headerSize: nat)
    requires HEADER <= headerSize <= n <= |a| && n <= |b| && a[..n] == b[..n]
    ensures a[..4] == b[..4] && a[4..headerSize] == b[4..headerSize]
    ensures headerSize + Uint32(a[..4]) <= n ==> PayloadOf(a, headerSize) == PayloadOf(b, headerSize)
  {
    SubSlice(a, 0, n, 0, 4);
    SubSlice(b, 0, n, 0, 4);
    SubSlice(a, 0, n, 4, headerSize);
    SubSlice(b, 0, n, 4, headerSize);
    if headerSize + Uint32(a[..4]) <= n {
      SubSlice(a, 0, n, headerSize, headerSize + Uint32(a[..4]));
      SubSlice(b, 0, n, headerSize, headerSize + Uint32(a[..4]));
    }
  }

  /** Zeroing [from, to) and then overwriting the size field leaves what was written before. */
  lemma PublishedBytes(was: seq<byte>, size: seq<byte>, now: seq<byte>, write: nat, from: nat, to: nat)
    requires 4 == |size| <= write <= from <= to <= |was|
    requires now == size + (was[..from] + Zeros(to - from) + was[to..])[4..]
    ensures now[4..write] == was[4..write]
    ensures now[from..to] == Zeros(to - from)
  {
    var zeroed := was[..from] + Zeros(to - from) + was[to..];
    assert forall i :: 4 <= i < |now| ==> now[i] == zeroed[i];
  }

  /** Copying the data in between what was written and the padding. */
  lemma CopiedBytes(was: seq<byte>, now: seq<byte>, write: nat, data: seq<byte>, end: nat)
    requires 4 <= write && write + |data| <= end <= |was|
    requires now == was[..write] + data + was[write + |data|..]
    ensures now[..4] == was[..4] && now[4..write] == was[4..write]
    ensures now[write..end] == data + was[write + |data|..end]
  {
  }

  /** A buffer that keeps everything before `write` but the payload size, and goes on with `more`. */
  lemma Appended(was: seq<byte>, now: seq<byte>, headerSize: nat, write: nat, more: seq<byte>)
    requires HEADER <= headerSize <= write <= |was| && write + |more| <= |now|
    requires headerSize + Uint32(was[..4]) == write && headerSize + Uint32(now[..4]) == write + |more|
    requires now[4..write] == was[4..write] && now[write..write + |more|] == more
    ensures now[4..headerSize] == was[4..headerSize]
    ensures PayloadOf(now, headerSize) == PayloadOf(was, headerSize) + more
  {
    hide Uint32;
    var k := headerSize - 4;
    SubSlice(now, 4, write, 0, k);
    SubSlice(was, 4, write, 0, k);
    SubSlice(now, 4, write, k, write - 4);
    SubSlice(was, 4, write, k, write - 4);
    assert now[headerSize..write + |more|] == now[headerSize..write] + now[write..write + |more|];
  }

  lemma SubSlice<T>(s: seq<T>, lo: nat, hi: nat, i: nat, j: nat)
    requires i <= j && lo + j <= hi <= |s|
    ensures s[lo..hi][i..j] == s[lo + i..lo + j]
  {
    var piece := s[lo..hi];
    assert forall k :: 0 <= k < |piece| ==> piece[k] == s[lo + k];
    assert |piece[i..j]| == |s[lo + i..lo + j]|;
    forall k | 0 <= k < j - i
      ensures piece[i..j][k] == s[lo + i..lo + j][k]
    {
      assert piece[i + k] == s[lo + (i + k)];
    }
  }

  lemma SizedEncoding(s: seq<byte>)
    requires |s| < 0x8000_0000
    ensures Encode(Text(s)) == Encode(Number(Int32, |s|)) + Encode(Raw(s))
    ensures Encode(PickleFormat.Data(s)) == Encode(Number(Int32, |s|)) + Encode(Raw(s))
    ensures |Encode(Number(Int32, |s|))| == 4 && |Encode(Raw(s))| == RoundUp(|s|, 4)
  {
  }

  class Pickle {
    var header: array?<byte>   // header_: the header, then the room for the payload
    var headerSize: nat
    var capacity: nat          // capacity_after_header_
    var writeOffset: nat
    ghost var copied: nat      // what realloc has had to move, at most

    // ------------------------------------------------------------ abstract value

    /** header_ is null or points at a header and at all of the payload that it announces. */
    ghost predicate Readable()
      reads this, header
    {
      header != null ==>
        && HEADER <= headerSize && headerSize % 4 == 0
        && headerSize <= header.Length
        && headerSize + Uint32(header[..4]) <= header.Length
    }

    function PayloadSize(): (n: nat)
      requires Readable()
      reads this, header
      ensures n < HALF_WORD
    {
      if header == null then 0 else Uint32(header[..4])
    }

    ghost function Payload(): (p: seq<byte>)
      requires Readable()
      reads this, header
      ensures |p| == PayloadSize()
    {
      if header == null then []
      else
        assert header[..][..4] == header[..4];
        PayloadOf(header[..], headerSize)
    }

    /** What a caller's own header struct holds beyond the payload size. */
    ghost function HeaderTail(): (t: seq<byte>)
      requires Readable()
      reads this, header
    {
      if header == null then [] else header[4..headerSize]
    }

    /** The bytes of the whole pickle, data() up to size(). */
    ghost function Frame(): seq<byte>
      requires Readable() && header != null
      reads this, header
    {
      header[..headerSize + PayloadSize()]
    }

    ghost predicate BufferOk()
      reads this, header
    {
      && capacity % 64 == 0 && capacity < 4 * HALF_WORD
      && header != null && header.Length == headerSize + capacity
      && HEADER <= headerSize < HALF_WORD && headerSize % 4 == 0
    }

    /** The invariant of a pickle that is being written. */
    ghost predicate Valid()
      reads this, header
      ensures Valid() ==> Readable()
    {
      && BufferOk()
      && Uint32(header[..4]) == writeOffset <= capacity
      && writeOffset % 4 == 0
    }

    ghost function GrowthState(): Growth
      reads this
    {
      Growth(capacity, writeOffset, copied)
    }

    lemma FrameIsFrame()
      requires Valid() && HeaderSizeOk(headerSize)
      ensures IsFrame(headerSize, Frame())
      ensures Frame()[headerSize..] == Payload()
    {
      assert Frame()[..4] == header[..4];
    }

    // ------------------------------------------------------------ construction

    constructor ()
      ensures Valid() && fresh(header)
      ensures headerSize == HEADER && Payload() == [] && GrowthState() == Growth(64, 0, 0)
    {
      header := null;
      headerSize := HEADER;
      capacity := 0;
      writeOffset := 0;
      copied := 0;
      new;
      Resize(PAYLOAD_UNIT);
      SetPayloadSize(0);
    }

    constructor WithHeader(size: nat)
      requires HEADER <= size <= PAYLOAD_UNIT
      ensures Valid() && fresh(header)
      ensures headerSize == RoundUp(size, 4) && HeaderSizeOk(headerSize)
      ensures Payload() == [] && GrowthState() == Growth(64, 0, 0)
    {
      hide Align, Uint32, RoundUp;
      header := null;
      headerSize := Align(size, 4);
      capacity := 0;
      writeOffset := 0;
      copied := 0;
      new;
      AlignIs(size, 4);
      RoundUpIsMultiple(size, 4);
      Resize(PAYLOAD_UNIT);
      SetPayloadSize(0);
    }

    /** A read-only view of bytes owned by someone else. */
    constructor ReadOnly(data: array<byte>, length: int)
      requires length <= data.Length && -0x8000_0000 <= length < 0x8000_0000
      ensures Readable() && capacity == CAPACITY_READ_ONLY && writeOffset == 0
      ensures headerSize == ReadOnlyHeaderSize(data[..], length)
      ensures header == null <==> headerSize == 0
      ensures header != null ==> header == data && headerSize + PayloadSize() == length
    {
      hide Align, Uint32, RoundUp;
      var size := 0;
      if length >= HEADER {
        size := Difference32(length, Uint32(data[..4]));
      }
      if size > (if length < 0 then length + HALF_WORD else length) {
        size := 0;
      }
      AlignIs(size, 4);
      if size != Align(size, 4) {
        size := 0;
      }
      header := if size == 0 then null else data;
      headerSize := size;
      capacity := CAPACITY_READ_ONLY;
      writeOffset := 0;
      copied := 0;
      new;
      assert length >= HEADER ==> data[..][..4] == data[..4];
      assert size == ReadOnlyHeaderSize(data[..], length);
      ReadOnlyFits(data[..], length);
    }

    /** The copy constructor takes over the payload and, separately, the write offset.  The two agree
        again exactly when they agreed in the source: not for a read-only pickle with a payload. */
    constructor Copy(other: Pickle)
      requires other.Readable() && other.header != null && other.headerSize < HALF_WORD
      ensures BufferOk() && fresh(header) && Readable()
      ensures headerSize == other.headerSize && HeaderTail() == other.HeaderTail()
      ensures Payload() == other.Payload() && writeOffset == other.writeOffset
      ensures capacity == RoundUp(other.PayloadSize(), 64)
      ensures Valid() <==> other.writeOffset == other.PayloadSize() && other.writeOffset % 4 == 0
    {
      header := null;
      headerSize := other.headerSize;
      capacity := 0;
      writeOffset := other.writeOffset;
      copied := 0;
      new;
      Resize(other.PayloadSize());
      CopyFrom(other);
    }

    method Assign(other: Pickle)
      requires other.Readable() && other.header != null && other.headerSize < HALF_WORD
      requires capacity == CAPACITY_READ_ONLY || BufferOk()
      requires this != other && capacity != CAPACITY_READ_ONLY ==> header == null || header != other.header
      modifies this
      ensures this == other ==> unchanged(this)
      ensures this != other ==> BufferOk() && fresh(header) && Readable() && capacity == RoundUp(other.PayloadSize(), 64)
      ensures Readable() && headerSize == other.headerSize && HeaderTail() == other.HeaderTail()
      ensures Payload() == other.Payload() && writeOffset == other.writeOffset
      ensures this != other ==>
                (Valid() <==> other.writeOffset == other.PayloadSize() && other.writeOffset % 4 == 0)
    {
      if this == other {
        return;
      }
      if capacity == CAPACITY_READ_ONLY {
        header := null;
        capacity := 0;
      }
      if headerSize != other.headerSize {
        header := null;
        headerSize := other.headerSize;
      }
      Resize(other.PayloadSize());
      CopyFrom(other);
      writeOffset := other.writeOffset;
    }

    /** memcpy of the other pickle's header and payload over this one's fresh buffer. */
    method CopyFrom(other: Pickle)
      requires other.Readable() && other.header != null && other != this && other.header != header
      requires BufferOk() && headerSize == other.headerSize && other.PayloadSize() <= capacity
      modifies header
      ensures BufferOk() && Readable()
      ensures Payload() == other.Payload() && HeaderTail() == other.HeaderTail()
      ensures PayloadSize() == other.PayloadSize()
    {
      var n := headerSize + other.PayloadSize();
      ghost var was := other.header[..];
      forall i | 0 <= i < n {
        header[i] := other.header[i];
      }
      assert other.header[..] == was;
      SamePrefix(header[..], was, n, headerSize);
    }

    // ------------------------------------------------------------ growing

    method Resize(newCapacity: nat)
      requires capacity != CAPACITY_READ_ONLY
      requires newCapacity < 4 * HALF_WORD - 64 && HEADER <= headerSize < HALF_WORD
      modifies this
      ensures capacity == RoundUp(newCapacity, 64) && capacity % 64 == 0
      ensures header != null && fresh(header) && header.Length == headerSize + capacity
      ensures headerSize == old(headerSize) && writeOffset == old(writeOffset)
      ensures copied == old(copied) + old(capacity)
      ensures old(header) != null ==>
                forall i :: 0 <= i < header.Length && i < old(header).Length ==> header[i] == old(header)[i]
    {
      copied := copied + capacity;
      AlignIs(newCapacity, PAYLOAD_UNIT);
      RoundUpIsMultiple(newCapacity, PAYLOAD_UNIT);
      capacity := Align(newCapacity, PAYLOAD_UNIT);
      header := Realloc(header, headerSize + capacity);
    }

    method Reserve(length: nat)
      requires Valid() && writeOffset + RoundUp(length, 4) < HALF_WORD
      modifies this
      ensures Valid() && headerSize == old(headerSize) && HeaderTail() == old(HeaderTail())
      ensures Payload() == old(Payload()) && writeOffset == old(writeOffset)
      ensures writeOffset + length <= capacity
      ensures header == old(header) || fresh(header)
      ensures GrowthState() == old(GrowthState()).Reserve(length)
      ensures old(writeOffset) + RoundUp(length, 4) <= old(capacity) ==> unchanged(this)
    {
      hide RoundUp, Uint32, Align;
      AlignIs(length, 4);
      var dataLength := Align(length, 4);
      var newSize := writeOffset + dataLength;
      if newSize > capacity {
        ghost var was := header[..];
        assert was[..4] == header[..4];
        Resize(capacity * 2 + newSize);
        assert header[..|was|] == was;
        assert header[..4] == header[..][..4];
        SamePrefix(header[..], was, |was|, headerSize);
      }
    }

    method SetPayloadSize(size: nat)
      requires header != null && header.Length >= 4 && size < HALF_WORD
      modifies header
      ensures Uint32(header[..4]) == size
      ensures header[..] == header[..4] + old(header[4..])
    {
      hide LittleEndian, FromLittleEndian;
      Pow256Of4();
      DecodeEncode(size, 4);
      var field := LittleEndian(size, 4);
      forall i | 0 <= i < 4 {
        header[i] := field[i];
      }
      assert header[..4] == field;
    }

    /** The growing half of ClaimUninitializedBytesInternal. */
    method MakeRoom(newSize: nat)
      requires Valid() && writeOffset <= newSize < HALF_WORD
      modifies this
      ensures BufferOk() && newSize <= capacity
      ensures headerSize == old(headerSize) && writeOffset == old(writeOffset)
      ensures header == old(header) || fresh(header)
      ensures header[4..headerSize + writeOffset] == old(header[4..headerSize + writeOffset])
      ensures if newSize > old(capacity)
              then capacity == NextCapacity(old(capacity), newSize) && copied == old(copied + capacity)
              else capacity == old(capacity) && copied == old(copied)
    {
      if newSize > capacity {
        var newCapacity := capacity * 2;
        if newCapacity > HEAP_ALIGN {
          AlignIs(newCapacity, HEAP_ALIGN);
          newCapacity := Align(newCapacity, HEAP_ALIGN) - PAYLOAD_UNIT;
        }
        Resize(if newCapacity > newSize then newCapacity else newSize);
      }
    }

    /** Makes room for `length` more bytes and zeroes their padding.  The bytes themselves are left
        as they happen to be. */
    method ClaimUninitializedBytesInternal(length: nat) returns (write: nat)
      requires Valid() && writeOffset + RoundUp(length, 4) < HALF_WORD
      modifies this, header
      ensures Valid() && headerSize == old(headerSize)
      ensures header == old(header) || fresh(header)
      ensures GrowthState() == old(GrowthState()).Write(length)
      ensures write == headerSize + old(writeOffset)
      ensures header[4..write] == old(header[4..headerSize + writeOffset])
      ensures header[write + length..write + RoundUp(length, 4)] == Zeros(Padding(length))
    {
      hide Align, RoundUp, Uint32, NextCapacity;
      AlignIs(length, 4);
      RoundUpIsMultiple(length, 4);
      AlignedSum(writeOffset, RoundUp(length, 4));
      var dataLength := Align(length, 4);
      var newSize := writeOffset + dataLength;
      MakeRoom(newSize);
      write := headerSize + writeOffset;
      Publish(write, write + length, write + dataLength, newSize);
      writeOffset := newSize;
    }

    /** Zeroes the padding and announces the new payload size. */
    method Publish(write: nat, from: nat, to: nat, size: nat)
      requires header != null && 4 <= write <= from <= to <= header.Length && size < HALF_WORD
      modifies header
      ensures Uint32(header[..4]) == size
      ensures header[4..write] == old(header[4..write])
      ensures header[from..to] == Zeros(to - from)
    {
      hide Uint32;
      ghost var was := header[..];
      Memset(header, from, to);
      SetPayloadSize(size);
      PublishedBytes(was, header[..4], header[..], write, from, to);
    }

    // ------------------------------------------------------------ writing

    method WriteBytesCommon(data: seq<byte>)
      requires Valid() && writeOffset + RoundUp(|data|, 4) < HALF_WORD
      modifies this, header
      ensures Valid() && headerSize == old(headerSize) && HeaderTail() == old(HeaderTail())
      ensures header == old(header) || fresh(header)
      ensures GrowthState() == old(GrowthState()).Write(|data|)
      ensures Payload() == old(Payload()) + Padded(data)
    {
      hide NextCapacity, RoundUp, Uint32;
      ghost var was := header[..];
      assert was[..4] == header[..4];
      var write := ClaimUninitializedBytesInternal(|data|);
      ghost var claimed := header[..];
      Memcpy(header, write, data);
      ghost var end := write + RoundUp(|data|, 4);
      CopiedBytes(claimed, header[..], write, data, end);
      assert header[..4] == header[..][..4] == claimed[..4];
      Appended(was, header[..], headerSize, write, Padded(data));
    }

    method WritePod(pod: Pod, v: int) returns (ok: bool)
      requires Valid() && pod.Holds(v) && writeOffset + RoundUp(pod.Size(), 4) < HALF_WORD
      modifies this, header
      ensures Valid() && headerSize == old(headerSize) && HeaderTail() == old(HeaderTail())
      ensures header == old(header) || fresh(header)
      ensures ok && Payload() == old(Payload()) + Encode(Number(pod, v))
      ensures GrowthState() == old(GrowthState()).Write(pod.Size())
    {
      WriteBytesCommon(pod.Image(v));
      ok := true;
    }

    method WriteBool(b: bool) returns (ok: bool)
      requires Valid() && writeOffset + 4 < HALF_WORD
      modifies this, header
      ensures Valid() && headerSize == old(headerSize) && HeaderTail() == old(HeaderTail())
      ensures header == old(header) || fresh(header)
      ensures ok && Payload() == old(Payload()) + Encode(Bool(b))
      ensures GrowthState() == old(GrowthState()).Write(4)
    {
      ok := WritePod(Int32, if b then 1 else 0);
    }

    method WriteBytes(data: seq<byte>, length: int) returns (ok: bool)
      requires 0 <= length <= |data| && length < 0x8000_0000
      requires Valid() && writeOffset + RoundUp(length, 4) < HALF_WORD
      modifies this, header
      ensures Valid() && headerSize == old(headerSize) && HeaderTail() == old(HeaderTail())
      ensures header == old(header) || fresh(header)
      ensures ok && Payload() == old(Payload()) + Encode(Raw(data[..length]))
      ensures GrowthState() == old(GrowthState()).Write(length)
    {
      WriteBytesCommon(data[..length]);
      ok := true;
    }

    /** A string whose length does not fit an int is cut to the low 32 bits of its length. */
    method WriteString(value: seq<byte>) returns (ok: bool)
      requires Valid() && ToInt32(|value|) >= 0
      requires writeOffset + 4 + RoundUp(ToInt32(|value|), 4) < HALF_WORD
      modifies this, header
      ensures Valid() && headerSize == old(headerSize) && HeaderTail() == old(HeaderTail())
      ensures header == old(header) || fresh(header)
      ensures ok && ToInt32(|value|) <= |value|
      ensures Payload() == old(Payload()) + Encode(Text(value[..ToInt32(|value|)]))
      ensures |value| < 0x8000_0000 ==> value[..ToInt32(|value|)] == value
      ensures GrowthState() == old(GrowthState()).Write(4).Write(ToInt32(|value|))
    {
      hide Growth.Write, ToInt32, Encode, RoundUp, Uint32;
      LowBits(|value|);
      var length := ToInt32(|value|);
      SizedEncoding(value[..length]);
      ok := WritePod(Int32, length);
      if ok {
        ok := WriteBytes(value, length);
      }
    }

    method WriteData(data: seq<byte>, length: int) returns (ok: bool)
      requires length <= |data| && length < 0x8000_0000
      requires Valid() && (length >= 0 ==> writeOffset + 4 + RoundUp(length, 4) < HALF_WORD)
      modifies this, header
      ensures Valid() && headerSize == old(headerSize) && HeaderTail() == old(HeaderTail())
      ensures header == old(header) || fresh(header)
      ensures ok <==> length >= 0
      ensures GrowthState() == if ok then old(GrowthState()).Write(4).Write(length) else old(GrowthState())
      ensures Payload() == old(Payload()) + if ok then Encode(PickleFormat.Data(data[..length])) else []
    {
      hide Growth.Write, Encode, RoundUp, Uint32;
      if length < 0 {
        return false;
      }
      SizedEncoding(data[..length]);
      ok := WritePod(Int32, length);
      if ok {
        ok := WriteBytes(data, length);
      }
    }

    // ------------------------------------------------------------ framing

    /** PeekNext on the bytes [start, end) of a block; no result stands for `false`. */
    static method PeekNext(headerSize: nat, block: array<byte>, start: nat, end: nat) returns (size: Option<nat>)
      requires HeaderSizeOk(headerSize) && start <= end <= block.Length
      ensures size == PickleFormat.PeekNext(headerSize, block[start..end])
    {
      var length := end - start;
      if length < HEADER || length < headerSize {
        return None;
      }
      assert block[start..end][..4] == block[start..start + 4];
      var payloadSize := Uint32(block[start..start + 4]);
      var total: nat := WORD - 1;
      if payloadSize <= WORD - 1 - headerSize {
        total := headerSize + payloadSize;
      }
      size := Some(total);
    }

    /** FindNext on the bytes [start, end) of a block, as an index into the block. */
    static method FindNext(headerSize: nat, block: array<byte>, start: nat, end: nat) returns (next: Option<nat>)
      requires HeaderSizeOk(headerSize) && start <= end <= block.Length
      ensures var found := PickleFormat.FindNext(headerSize, block[start..end]);
              next == if found.None? then None else Some(start + found.value)
    {
      var size := PeekNext(headerSize, block, start, end);
      if size.None? || size.value > end - start {
        return None;
      }
      next := Some(start + size.value);
    }
  }

  class PickleIterator {
    var block: array?<byte>    // payload_ is &block[base], or null
    var base: nat
    var readIndex: nat
    var endIndex: nat

    ghost predicate Valid()
      reads this
    {
      readIndex <= endIndex && if block == null then endIndex == 0 else base + endIndex <= block.Length
    }

    ghost function Bytes(): (b: seq<byte>)
      requires Valid()
      reads this, block
      ensures |b| == endIndex
    {
      if block == null then [] else block[base..base + endIndex]
    }

    /** What a typed read must answer: nothing at all through a null pointer, else the format's answer. */
    ghost function Expected(kind: Kind): (r: (Option<Item>, nat))
      requires Valid()
      reads this, block
    {
      if block == null then (None, 0) else Read(kind, Bytes(), readIndex)
    }

    constructor (pickle: Pickle)
      requires pickle.Readable()
      ensures Valid() && readIndex == 0 && Bytes() == pickle.Payload()
      ensures block == null <==> pickle.header == null
    {
      block := pickle.header;
      base := pickle.headerSize;
      readIndex := 0;
      endIndex := pickle.PayloadSize();
      new;
      assert block != null ==> block[..4] == block[..][..4];
    }

    method Advance(size: nat)
      requires Valid() && size <= endIndex - readIndex < WORD - 4
      modifies this`readIndex
      ensures Valid()
      ensures readIndex == if endIndex - old(readIndex) < RoundUp(size, 4) then endIndex
                           else old(readIndex) + RoundUp(size, 4)
    {
      AlignIs(size, 4);
      var alignedSize := Align(size, 4);
      if endIndex - readIndex < alignedSize {
        readIndex := endIndex;
      } else {
        readIndex := readIndex + alignedSize;
      }
    }

    /** A read pointer, as the bytes it points at; None is the null pointer. */
    method GetReadPointerAndAdvance(numBytes: int) returns (from: Option<seq<byte>>)
      requires Valid() && endIndex < HALF_WORD
      modifies this`readIndex
      ensures Valid()
      ensures (from, readIndex) == if block == null then (None, 0) else Take(old(Bytes()), old(readIndex), numBytes)
    {
      if numBytes < 0 || endIndex - readIndex < numBytes {
        readIndex := endIndex;
        return None;
      }
      from := None;
      if block != null {
        SubSlice(block[..], base, base + endIndex, readIndex, readIndex + numBytes);
        from := Some(block[base + readIndex..base + readIndex + numBytes]);
      }
      Advance(numBytes);
    }

    method ReadBool() returns (ok: bool, b: bool)
      requires Valid() && endIndex < HALF_WORD
      modifies this`readIndex
      ensures Valid() && (if ok then Some(Bool(b)) else None, readIndex) == old(Expected(KBool))
    {
      hide Take, RoundUp, Uint32;
      b := false;
      var from := GetReadPointerAndAdvance(1);
      ok := from.Some?;
      if ok {
        b := from.value[0] != 0;
      }
    }

    method ReadPod(pod: Pod) returns (ok: bool, v: int)
      requires Valid() && endIndex < HALF_WORD
      modifies this`readIndex
      ensures Valid() && (if ok then Some(Number(pod, v)) else None, readIndex) == old(Expected(KNumber(pod)))
    {
      hide Take, RoundUp, Uint32;
      v := 0;
      var from := GetReadPointerAndAdvance(pod.Size());
      ok := from.Some?;
      if ok {
        v := pod.Value(from.value);
      }
    }

    method ReadBytes(length: int) returns (ok: bool, data: seq<byte>)
      requires Valid() && endIndex < HALF_WORD
      modifies this`readIndex
      ensures Valid() && (if ok then Some(Raw(data)) else None, readIndex) == old(Expected(KRaw(length)))
    {
      hide Take, RoundUp, Uint32;
      data := [];
      var from := GetReadPointerAndAdvance(length);
      ok := from.Some?;
      if ok {
        data := from.value;
      }
    }

    method ReadString() returns (ok: bool, s: seq<byte>)
      requires Valid() && endIndex < HALF_WORD
      modifies this`readIndex
      ensures Valid() && (if ok then Some(Text(s)) else None, readIndex) == old(Expected(KText))
    {
      hide Take, RoundUp, Uint32;
      s := [];
      var length;
      ok, length := ReadPod(Int32);
      if ok {
        ok, s := ReadBytes(length);
      }
    }

    /** The length is handed back even when the data are missing. */
    method ReadData() returns (ok: bool, data: seq<byte>, length: int)
      requires Valid() && endIndex < HALF_WORD
      modifies this`readIndex
      ensures Valid() && (if ok then Some(PickleFormat.Data(data)) else None, readIndex) == old(Expected(KData))
      ensures ok ==> length == |data|
      ensures var announced := old(Expected(KNumber(Int32))).0;
              if announced.None? then length == 0 else announced.value == Number(Int32, length)
    {
      hide Take, RoundUp, Uint32;
      length := 0;
      data := [];
      var announced;
      ok, announced := ReadPod(Int32);
      if ok {
        length := announced;
        ok, data := ReadBytes(length);
      }
    }
  }

  class PickleSizer {
    var payloadSize: nat

    constructor ()
      ensures payloadSize == 0
    {
      payloadSize := 0;
    }

    method AddBytes(length: int)
      requires -0x8000_0000 <= length < 0x8000_0000 && payloadSize < WORD
      modifies this
      ensures payloadSize == (old(payloadSize) + AddedBytes(length)) % WORD
      ensures length >= 0 ==> payloadSize == WrappedSum(old(payloadSize), RoundUp(length, 4))
    {
      hide Align, RoundUp;
      var size := ToSizeT(length);
      if length >= 0 {
        AlignIs(size, 4);
      } else {
        AlignNegative(-length);
      }
      AlignIsWord(size);
      payloadSize := WrappedSum(payloadSize, Align(size, 4));
    }

    method AddPod(pod: Pod)
      requires payloadSize < WORD
      modifies this
      ensures payloadSize == WrappedSum(old(payloadSize), RoundUp(pod.Size(), 4)) < WORD
    {
      AddBytes(pod.Size());
    }

    method AddBool()
      requires payloadSize < WORD
      modifies this
      ensures forall b :: payloadSize == WrappedSum(old(payloadSize), |Encode(Bool(b))|)
      ensures payloadSize < WORD
    {
      AddPod(Int32);
    }

    method AddString(value: seq<byte>)
      requires payloadSize < WORD
      modifies this
      ensures payloadSize == (old(payloadSize) + 4 + AddedBytes(ToInt32(|value|))) % WORD
      ensures |value| < 0x8000_0000 ==>
                payloadSize == WrappedSum(old(payloadSize), |Encode(Text(value))|)
    {
      hide RoundUp, Encode, AddedBytes, ToInt32;
      LowBits(|value|);
      SumOfString(payloadSize, value);
      AddPod(Int32);
      AddBytes(ToInt32(|value|));
    }

    method AddData(length: int)
      requires 0 <= length < 0x8000_0000 && payloadSize < WORD
      modifies this
      ensures payloadSize < WORD
      ensures forall data :: |data| == length ==>
                payloadSize == WrappedSum(old(payloadSize), |Encode(PickleFormat.Data(data))|)
    {
      AddPod(Int32);
      AddBytes(length);
    }
  }

  lemma SmallImage(i: Item)
    requires ValidItem(i)
    ensures |Encode(i)| < HALF_WORD
  {
  }

  /** What AddBytes adds, for every int: a negative length, cast to size_t and rounded up, wraps around to
      taking its multiple of 4 away. */
  function AddedBytes(length: int): int {
    if length >= 0 then RoundUp(length, 4) else -(-length - -length % 4)
  }

  lemma WrapThenAdd(size: nat, a: nat, b: int)
    requires size < WORD && a < WORD
    ensures (WrappedSum(size, a) + b) % WORD == (size + a + b) % WORD
  {
    if size + a >= WORD {
      assert (size + a + b) % WORD == (size + a + b - WORD) % WORD;
    }
  }

  lemma WrapIsMod(size: nat, a: nat)
    requires size < WORD && a < WORD
    ensures WrappedSum(size, a) == (size + a) % WORD
  {
  }

  lemma TextSize(value: seq<byte>)
    requires |value| < 0x8000_0000
    ensures |Encode(Text(value))| == 4 + RoundUp(|value|, 4) < WORD
  {
  }

  /** Adding the length field and then the bytes. */
  lemma SumOfString(size: nat, value: seq<byte>)
    requires size < WORD
    ensures RoundUp(4, 4) == 4 && Int32.Size() == 4
    ensures var total := WrappedSum(size, 4) + AddedBytes(ToInt32(|value|));
            && total % WORD == (size + 4 + AddedBytes(ToInt32(|value|))) % WORD
            && (|value| < 0x8000_0000 ==> total % WORD == WrappedSum(size, |Encode(Text(value))|))
  {
    hide AddedBytes, WrappedSum, Encode, ToInt32;
    LowBits(|value|);
    WrapThenAdd(size, 4, AddedBytes(ToInt32(|value|)));
    NonNegative(ToInt32(|value|));
    if |value| < 0x8000_0000 {
      TextSize(value);
      WrapIsMod(size, |Encode(Text(value))|);
    }
  }

  lemma NonNegative(length: int)
    ensures length >= 0 ==> AddedBytes(length) == RoundUp(length, 4)
  {
  }

  lemma AlignNegative(n: nat)
    requires 0 < n <= 0x8000_0000
    ensures Align(WORD - n, 4) == (WORD - (n - n % 4)) % WORD
  {
    hide Align, AlignmentCheck;
    UnitPassesCheck(4);
    AlignRoundsUp(WORD - n, 4);
    WordMultiple(n);
    if n >= 4 {
      CloseMultiples(Align(WORD - n, 4), WORD - (n - n % 4));
    }
  }

  lemma WordMultiple(n: nat)
    requires n <= WORD
    ensures (WORD - (n - n % 4)) % 4 == 0 && n - 4 < n - n % 4 <= n
  {
  }

  lemma CloseMultiples(a: nat, b: nat)
    requires a % 4 == 0 && b % 4 == 0 && a < b + 4 && b < a + 4
    ensures a == b
  {
  }

  lemma LowBits(size: nat)
    ensures ToInt32(size) <= size
    ensures size < 0x8000_0000 ==> ToInt32(size) == size
  {
  }

  lemma AlignIsWord(size: nat)
    requires size < WORD
    ensures Align(size, 4) < WORD
  {
    assert Pow2(2) == 4;
    PowerOfTwoPassesCheck(2, 64);
    AlignMasks(size, 4);
  }
}
