/** HexEncodeWithDelimiter and HexDecodeWithDelimiter of base/string_encode.cc.

    A char is one byte; 0 as a delimiter means none. Both operations fill the caller's buffer from its
    start and return how much of it they filled. */
module Hex {
  import opened Wrappers

  /** One of "0123456789ABCDEF". */
  function EncodeDigit(v: bv8): (c: bv8) {
    if v < 10 then 0x30 + v else if v < 16 then 0x41 + (v - 10) else 0x21
  }

  /** Letters past F are accepted and go on counting. */
  function DecodeDigit(c: bv8): Option<bv8> {
    if 0x30 <= c <= 0x39 then Some(c - 0x30)
    else if 0x41 <= c <= 0x5A then Some(c - 0x41 + 10)
    else if 0x61 <= c <= 0x7A then Some(c - 0x61 + 10)
    else None
  }

  function High(b: bv8): bv8 {
    EncodeDigit((b >> 4) & 0xF)
  }

  function Low(b: bv8): bv8 {
    EncodeDigit(b & 0xF)
  }

  /** (h1 << 4) | h2, truncated to a byte. */
  function Joined(h1: bv8, h2: bv8): bv8 {
    (h1 << 4) | h2
  }

  // ---------------------------------------------------------------- the texts

  function Separator(delimiter: bv8, last: bool): seq<bv8> {
    if delimiter == 0 || last then [] else [delimiter]
  }

  /** Two digits a byte, a delimiter between bytes but not after the last. */
  function Encoded(src: seq<bv8>, delimiter: bv8): seq<bv8> {
    if src == [] then []
    else [High(src[0]), Low(src[0])] + Separator(delimiter, |src| == 1) + Encoded(src[1..], delimiter)
  }

  function EncodedLength(n: nat, delimiter: bv8): nat {
    if delimiter == 0 then 2 * n else if n == 0 then 0 else 3 * n - 1
  }

  lemma {:induction false} EncodedHasLength(src: seq<bv8>, delimiter: bv8)
    ensures |Encoded(src, delimiter)| == EncodedLength(|src|, delimiter)
  {
    hide High, Low;
    if src == [] {
    } else {
      EncodedHasLength(src[1..], delimiter);
    }
  }

  function Digits(s: seq<bv8>): Option<bv8>
    requires |s| >= 2
  {
    var h1, h2 := DecodeDigit(s[0]), DecodeDigit(s[1]);
    if h1.None? || h2.None? then None else Some(Joined(h1.value, h2.value))
  }

  /** What the decoder goes on with after two digits; None when the delimiter is missing. */
  function AfterDigits(s: seq<bv8>, delimiter: bv8): (r: Option<seq<bv8>>)
    requires |s| >= 2
    ensures r.Some? ==> |r.value| < |s|
  {
    if delimiter != 0 && |s| > 3 then
      (if s[2] != delimiter then None else Some(s[3..]))
    else Some(s[2..])
  }

  /** The bytes read before the decoder stops, and whether it stopped at the end. */
  function Decoded(s: seq<bv8>, delimiter: bv8): (seq<bv8>, bool) {
    if s == [] then ([], true)
    else if |s| < 2 || Digits(s).None? then ([], false)
    else if AfterDigits(s, delimiter).None? then ([Digits(s).value], false)
    else
      var (bytes, ok) := Decoded(AfterDigits(s, delimiter).value, delimiter);
      ([Digits(s).value] + bytes, ok)
  }

  function Needed(n: nat, delimiter: bv8): nat {
    if delimiter != 0 then (n + 1) / 3 else n / 2
  }

  /** On every input, malformed ones included, the size check leaves room for all that is written;
      on an accepted one it asks for exactly that. */
  lemma {:induction false} DecodedFits(s: seq<bv8>, delimiter: bv8)
    ensures var (bytes, ok) := Decoded(s, delimiter);
            && |bytes| <= Needed(|s|, delimiter)
            && (ok ==> |bytes| == Needed(|s|, delimiter) && |s| == EncodedLength(|bytes|, delimiter))
  {
    hide Digits;
    if |s| < 2 || Digits(s).None? || AfterDigits(s, delimiter).None? {
    } else {
      DecodedFits(AfterDigits(s, delimiter).value, delimiter);
    }
  }

  lemma DigitsReadBack(b: bv8, rest: seq<bv8>)
    ensures Digits([High(b), Low(b)] + rest) == Some(b)
  {
    NibblesReadBack(b);
    hide DecodeDigit, High, Low, Joined;
    var s := [High(b), Low(b)] + rest;
    assert s[0] == High(b) && s[1] == Low(b);
  }

  lemma NibblesReadBack(b: bv8)
    ensures DecodeDigit(High(b)) == Some((b >> 4) & 0xF) && DecodeDigit(Low(b)) == Some(b & 0xF)
    ensures Joined((b >> 4) & 0xF, b & 0xF) == b
  {
  }

  /** Decoding undoes encoding, whatever the bytes and the delimiter, a hex digit as delimiter included. */
  lemma {:induction false} RoundTrip(src: seq<bv8>, delimiter: bv8)
    ensures Decoded(Encoded(src, delimiter), delimiter) == (src, true)
  {
    hide Digits, High, Low, Decoded;
    if src == [] {
      DecodedUnfolds([], delimiter);
    } else {
      var s := Encoded(src, delimiter);
      var tail := Encoded(src[1..], delimiter);
      RoundTrip(src[1..], delimiter);
      EncodedHasLength(src[1..], delimiter);
      DigitsReadBack(src[0], Separator(delimiter, |src| == 1) + tail);
      assert s == [High(src[0]), Low(src[0])] + (Separator(delimiter, |src| == 1) + tail);
      assert AfterDigits(s, delimiter) == Some(tail);
      DecodedUnfolds(s, delimiter);
      assert Decoded(s, delimiter) == ([src[0]] + src[1..], true);
      assert [src[0]] + src[1..] == src;
    }
  }

  predicate IsEncoderDigit(c: bv8) {
    0x30 <= c <= 0x39 || 0x41 <= c <= 0x46
  }

  /** Every digit of the text is one the encoder writes. */
  predicate Canonical(s: seq<bv8>, delimiter: bv8) {
    |s| < 2
    || (&& IsEncoderDigit(s[0]) && IsEncoderDigit(s[1])
        && (AfterDigits(s, delimiter).Some? ==> Canonical(AfterDigits(s, delimiter).value, delimiter)))
  }

  lemma DigitsAreCanonical(c: bv8, d: bv8)
    requires DecodeDigit(c).Some? && DecodeDigit(d).Some?
    ensures var b := Joined(DecodeDigit(c).value, DecodeDigit(d).value);
            High(b) == c && Low(b) == d <==> IsEncoderDigit(c) && IsEncoderDigit(d)
  {
  }

  /** An accepted text encodes back to itself exactly when its digits are the encoder's: no lower case,
      no letter past F. */
  lemma {:induction false} Reencodes(s: seq<bv8>, delimiter: bv8)
    requires Decoded(s, delimiter).1
    ensures Encoded(Decoded(s, delimiter).0, delimiter) == s <==> Canonical(s, delimiter)
  {
    hide DecodeDigit, High, Low, Joined, IsEncoderDigit, Encoded;
    if s == [] {
      EncodedNothing([], delimiter);
    } else {
      var rest := AfterDigits(s, delimiter).value;
      var bytes := Decoded(rest, delimiter).0;
      var b := Digits(s).value;
      Reencodes(rest, delimiter);
      DecodedFits(rest, delimiter);
      DigitsAreCanonical(s[0], s[1]);
      EncodedPrepend(b, bytes, delimiter);
      var sep := Separator(delimiter, |bytes| == 0);
      assert Encoded([b] + bytes, delimiter) == [High(b), Low(b)] + sep + Encoded(bytes, delimiter);
      assert s == [s[0], s[1]] + sep + rest;
      SplitEqually([High(b), Low(b)], [s[0], s[1]], sep, Encoded(bytes, delimiter), rest);
    }
  }

  /** The smallest text that is accepted without being hexadecimal: "0G" reads as 0x10, which is "10". */
  lemma LetterPastF()
    ensures Decoded([0x30, 0x47], 0) == ([0x10], true) && Encoded([0x10], 0) == [0x31, 0x30]
  {
    assert Digits([0x30, 0x47]) == Some(0x10);
    assert AfterDigits([0x30, 0x47], 0) == Some([]);
    DecodedUnfolds([0x30, 0x47], 0);
    DecodedUnfolds([], 0);
    EncodedPrepend(0x10, [], 0);
    assert [0x10] + [] == [0x10 as bv8];
    assert Decoded([0x30, 0x47], 0) == ([0x10], true);
  }

  lemma EncodedPrepend(b: bv8, bytes: seq<bv8>, delimiter: bv8)
    ensures Encoded([b] + bytes, delimiter)
         == [High(b), Low(b)] + Separator(delimiter, |bytes| == 0) + Encoded(bytes, delimiter)
  {
    hide High, Low;
    assert ([b] + bytes)[1..] == bytes;
  }

  lemma SplitEqually(a: seq<bv8>, b: seq<bv8>, sep: seq<bv8>, c: seq<bv8>, d: seq<bv8>)
    requires |a| == |b| == 2
    ensures a + sep + c == b + sep + d <==> a[0] == b[0] && a[1] == b[1] && c == d
  {
    var x, y := a + sep + c, b + sep + d;
    if x == y {
      assert x[0] == y[0] && x[1] == y[1];
      assert x[2 + |sep|..] == c && y[2 + |sep|..] == d;
    }
  }

  // ---------------------------------------------------------------- the two operations

  /** The buffer as the loops see it: the bytes written so far over what it held. */
  function Over(written: seq<bv8>, was: seq<bv8>): seq<bv8>
    requires |written| <= |was|
  {
    written + was[|written|..]
  }

  lemma OneMore(written: seq<bv8>, was: seq<bv8>, x: bv8)
    requires |written| < |was|
    ensures Over(written, was)[|written| := x] == Over(written + [x], was)
  {
  }

  method Put(buf: array<bv8>, at: nat, x: bv8, ghost written: seq<bv8>, ghost was: seq<bv8>)
    requires at == |written| < buf.Length == |was| && buf[..] == Over(written, was)
    modifies buf
    ensures buf[..] == Over(written + [x], was)
  {
    hide Over;
    OneMore(written, was, x);
    buf[at] := x;
  }

  /** Encodes src into the first bytes of buf, followed by a NUL, or does nothing when bufLen is too small. */
  method HexEncodeWithDelimiter(buf: array<bv8>, bufLen: nat, src: seq<bv8>, delimiter: bv8) returns (n: nat)
    requires bufLen <= buf.Length
    modifies buf
    ensures var e := Encoded(src, delimiter);
            if bufLen < |e| + 1 then n == 0 && buf[..] == old(buf[..])
            else n == |e| && buf[..] == Over(e + [0], old(buf[..]))
  {
    hide Encoded, High, Low, EncodeDigit, Over;
    EncodedHasLength(src, delimiter);
    if bufLen == 0 {
      return 0;
    }
    var srcPos, bufPos := 0, 0;
    var needed := if delimiter != 0 then |src| * 3 else |src| * 2 + 1;
    if bufLen < needed {
      return 0;
    }
    ghost var was := buf[..];
    ghost var written: seq<bv8> := [];
    OverNothing(was);
    while srcPos < |src|
      invariant srcPos <= |src| && bufPos == |written| <= |was| && buf[..] == Over(written, was)
      invariant written + Encoded(src[srcPos..], delimiter) == Encoded(src, delimiter)
    {
      EncodedUnfolds(src, srcPos, delimiter);
      assert |Encoded(src[srcPos..], delimiter)| >= 2 + |Separator(delimiter, |src| == srcPos + 1)|;
      ghost var before, tail := written, Encoded(src[srcPos + 1..], delimiter);
      var ch := src[srcPos];
      srcPos := srcPos + 1;
      HighIsHigh(ch);
      Put(buf, bufPos, EncodeDigit((ch >> 4) & 0xF), written, was);
      written := written + [High(ch)];
      Put(buf, bufPos + 1, EncodeDigit(ch & 0xF), written, was);
      written := written + [Low(ch)];
      bufPos := bufPos + 2;
      if delimiter != 0 && srcPos < |src| {
        Put(buf, bufPos, delimiter, written, was);
        written := written + [delimiter];
        bufPos := bufPos + 1;
      }
      assert written == before + ([High(ch), Low(ch)] + Separator(delimiter, |src| == srcPos));
      Reassociate(before, [High(ch), Low(ch)] + Separator(delimiter, |src| == srcPos), tail);
    }
    EncodedNothing(src[srcPos..], delimiter);
    assert written == Encoded(src, delimiter);
    Put(buf, bufPos, 0, written, was);
    n := bufPos;
  }

  lemma Reassociate(a: seq<bv8>, b: seq<bv8>, c: seq<bv8>)
    ensures a + b + c == a + (b + c)
  {
  }

  lemma OverNothing(was: seq<bv8>)
    ensures Over([], was) == was
  {
  }

  lemma HighIsHigh(ch: bv8)
    ensures High(ch) == EncodeDigit((ch >> 4) & 0xF) && Low(ch) == EncodeDigit(ch & 0xF)
  {
  }

  lemma EncodedNothing(src: seq<bv8>, delimiter: bv8)
    requires src == []
    ensures Encoded(src, delimiter) == []
  {
  }

  lemma EncodedUnfolds(src: seq<bv8>, i: nat, delimiter: bv8)
    requires i < |src|
    ensures Encoded(src[i..], delimiter)
         == [High(src[i]), Low(src[i])] + Separator(delimiter, |src| == i + 1) + Encoded(src[i + 1..], delimiter)
  {
    assert src[i..][1..] == src[i + 1..];
  }

  /** Decodes src into the first bytes of buf. A malformed text yields 0, after the bytes before the fault
      have been written; a short buffer yields 0 and is left alone. */
  method HexDecodeWithDelimiter(buf: array<bv8>, bufLen: nat, src: seq<bv8>, delimiter: bv8) returns (n: nat)
    requires bufLen <= buf.Length
    modifies buf
    ensures var (bytes, ok) := Decoded(src, delimiter);
            if bufLen == 0 || bufLen < Needed(|src|, delimiter) then n == 0 && buf[..] == old(buf[..])
            else |bytes| <= bufLen
                 && n == (if ok then |bytes| else 0)
                 && buf[..] == Over(bytes, old(buf[..]))
  {
    hide Decoded, DecodeDigit, Joined, Over;
    DecodedFits(src, delimiter);
    if bufLen == 0 {
      return 0;
    }
    var srcPos, bufPos := 0, 0;
    var needed := if delimiter != 0 then (|src| + 1) / 3 else |src| / 2;
    if bufLen < needed {
      return 0;
    }
    ghost var (bytes, ok) := Decoded(src, delimiter);
    ghost var was := buf[..];
    ghost var written: seq<bv8> := [];
    OverNothing(was);
    while srcPos < |src|
      invariant srcPos <= |src| && bufPos == |written| <= |bytes| <= |was| && buf[..] == Over(written, was)
      invariant Decoded(src[srcPos..], delimiter).1 == ok
      invariant written + Decoded(src[srcPos..], delimiter).0 == bytes
    {
      ghost var rest := src[srcPos..];
      DecodedUnfolds(rest, delimiter);
      assert rest != [];
      if |src| - srcPos < 2 {
        assert bytes == written;
        return 0;
      }
      assert rest[0] == src[srcPos] && rest[1] == src[srcPos + 1];
      var h1, h2 := DecodeDigit(src[srcPos]), DecodeDigit(src[srcPos + 1]);
      if h1.None? || h2.None? {
        assert bytes == written;
        return 0;
      }
      Put(buf, bufPos, Joined(h1.value, h2.value), written, was);
      written := written + [Joined(h1.value, h2.value)];
      bufPos := bufPos + 1;
      srcPos := srcPos + 2;
      if delimiter != 0 && |src| - srcPos > 1 {
        if src[srcPos] != delimiter {
          assert bytes == written;
          return 0;
        }
        srcPos := srcPos + 1;
      }
      assert AfterDigits(rest, delimiter) == Some(src[srcPos..]);
    }
    DecodedUnfolds(src[srcPos..], delimiter);
    assert written == bytes;
    n := bufPos;
  }

  lemma DecodedUnfolds(s: seq<bv8>, delimiter: bv8)
    ensures s == [] ==> Decoded(s, delimiter) == ([], true)
    ensures s != [] && (|s| < 2 || Digits(s).None?) ==> Decoded(s, delimiter) == ([], false)
    ensures |s| >= 2 && Digits(s).Some? ==>
              var r := AfterDigits(s, delimiter);
              if r.None? then Decoded(s, delimiter) == ([Digits(s).value], false)
              else
                var (bytes, ok) := Decoded(r.value, delimiter);
                Decoded(s, delimiter) == ([Digits(s).value] + bytes, ok)
  {
  }

  // ---------------------------------------------------------------- the string forms

  /** Three bytes of buffer per byte are enough with and without a delimiter, and none for no bytes. */
  method HexEncodeString(src: seq<bv8>, delimiter: bv8) returns (r: seq<bv8>)
    ensures r == Encoded(src, delimiter)
  {
    hide Encoded, Over;
    EncodedHasLength(src, delimiter);
    var bufferSize := |src| * 3;
    var buf := new bv8[bufferSize];
    var length := HexEncodeWithDelimiter(buf, bufferSize, src, delimiter);
    assert src == [] || length > 0;
    StartOfOver(Encoded(src, delimiter), [0], buf[..]);
    return buf[..length];
  }

  lemma StartOfOver(a: seq<bv8>, b: seq<bv8>, s: seq<bv8>)
    ensures forall was: seq<bv8> :: |a + b| <= |was| && s == Over(a + b, was) ==> s[..|a|] == a
  {
  }

  /** None where the check on the length fails, which is exactly for malformed text. */
  method HexDecodeString(src: seq<bv8>) returns (r: Option<seq<bv8>>)
    ensures var (bytes, ok) := Decoded(src, 0);
            r == if ok then Some(bytes) else None
  {
    hide Over;
    DecodedFits(src, 0);
    if |src| == 0 {
      return Some([]);
    }
    var bufferSize := |src| / 2;
    var buf := new bv8[bufferSize];
    var length := HexDecodeWithDelimiter(buf, bufferSize, src, 0);
    if length > 0 {
      StartOfOver(Decoded(src, 0).0, [], buf[..]);
      assert Decoded(src, 0).0 + [] == Decoded(src, 0).0;
      return Some(buf[..length]);
    }
    return None;
  }

  // ---------------------------------------------------------------- letters

  /** What each character stands for; nothing but letters and figures stands for anything. */
  lemma DigitTable(c: bv8)
    ensures 0x30 <= c <= 0x39 ==> DecodeDigit(c) == Some(c & 0x0F)
    ensures 0x41 <= c <= 0x5A ==> DecodeDigit(c) == Some(c - 0x37) && DecodeDigit(c + 0x20) == DecodeDigit(c)
    ensures DecodeDigit(c).Some? <==> 0x30 <= c <= 0x39 || 0x41 <= c <= 0x5A || 0x61 <= c <= 0x7A
  {
  }

  function Upper(c: bv8): bv8 {
    if 0x61 <= c <= 0x7A then c - 0x20 else c
  }

  function UpperAll(s: seq<bv8>): (t: seq<bv8>)
    ensures |t| == |s| && forall i :: 0 <= i < |s| ==> t[i] == Upper(s[i])
  {
    seq(|s|, i requires 0 <= i < |s| => Upper(s[i]))
  }

  predicate IsLetter(c: bv8) {
    0x41 <= c <= 0x5A || 0x61 <= c <= 0x7A
  }

  lemma UpperKeepsDigit(c: bv8, delimiter: bv8)
    ensures DecodeDigit(Upper(c)) == DecodeDigit(c)
    ensures !IsLetter(delimiter) ==> (Upper(c) == delimiter <==> c == delimiter)
  {
  }

  /** A text and its upper-case form decode alike, faults included, unless a letter is the delimiter. */
  lemma {:induction false} CaseDoesNotMatter(s: seq<bv8>, delimiter: bv8)
    requires !IsLetter(delimiter)
    ensures Decoded(UpperAll(s), delimiter) == Decoded(s, delimiter)
    decreases |s|
  {
    hide DecodeDigit, Upper, Joined, IsLetter;
    forall c: bv8 ensures DecodeDigit(Upper(c)) == DecodeDigit(c) && (Upper(c) == delimiter <==> c == delimiter) {
      UpperKeepsDigit(c, delimiter);
    }
    if |s| < 2 || Digits(s).None? {
    } else {
      var t := UpperAll(s);
      assert Digits(t) == Digits(s);
      if AfterDigits(s, delimiter).Some? {
        var rest := AfterDigits(s, delimiter).value;
        CaseDoesNotMatter(rest, delimiter);
        assert t[2..] == UpperAll(s[2..]);
        assert |s| >= 3 ==> t[3..] == UpperAll(s[3..]) && (t[2] == delimiter <==> s[2] == delimiter);
        assert AfterDigits(t, delimiter) == Some(UpperAll(rest));
      }
    }
  }

  // ---------------------------------------------------------------- where a fault stands

  /** A good text and a delimiter, if there is one, decode to their bytes whatever follows, and the decoder
      goes on from there. */
  lemma {:induction false} GoodTextFirst(src: seq<bv8>, delimiter: bv8, rest: seq<bv8>)
    requires src != [] && rest != []
    ensures var text := Encoded(src, delimiter) + (if delimiter == 0 then [] else [delimiter]) + rest;
            var (bytes, ok) := Decoded(rest, delimiter);
            Decoded(text, delimiter) == (src + bytes, ok)
  {
    hide Digits, High, Low, Decoded, Encoded;
    var tail := (if delimiter == 0 then [] else [delimiter]) + rest;
    var text := Encoded(src, delimiter) + (if delimiter == 0 then [] else [delimiter]) + rest;
    EncodedUnfolds(src, 0, delimiter);
    EncodedNothing([], delimiter);
    assert src[0..] == src;
    var digits := [High(src[0]), Low(src[0])];
    if |src| == 1 {
      assert src[1..] == [];
      assert text == digits + tail;
      DigitsReadBack(src[0], tail);
      assert AfterDigits(text, delimiter) == Some(rest);
      DecodedUnfolds(text, delimiter);
      assert src == [src[0]];
    } else {
      var sep := Separator(delimiter, false);
      var more := Encoded(src[1..], delimiter) + (if delimiter == 0 then [] else [delimiter]) + rest;
      EncodedHasLength(src[1..], delimiter);
      assert text == digits + (sep + more);
      assert text[2..] == sep + more && text[2 + |sep|..] == more;
      DigitsReadBack(src[0], sep + more);
      assert AfterDigits(text, delimiter) == Some(more);
      GoodTextFirst(src[1..], delimiter, rest);
      DecodedUnfolds(text, delimiter);
      var bytes := Decoded(rest, delimiter).0;
      assert Decoded(more, delimiter).0 == src[1..] + bytes;
      assert [src[0]] + (src[1..] + bytes) == src + bytes;
    }
  }

  /** A text that starts badly yields nothing. */
  lemma BadStart(s: seq<bv8>, delimiter: bv8)
    requires |s| == 1 || (|s| >= 2 && (DecodeDigit(s[0]).None? || DecodeDigit(s[1]).None?))
    ensures Decoded(s, delimiter) == ([], false)
  {
  }
}
