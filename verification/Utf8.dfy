/** UTF8Encode and UTF8Decode of base/string_encode.cc.

    The forms of one to four bytes are those of RFC 3629 section 3, with every four-byte value up to
    0x1FFFFF allowed as in RFC 2279 section 2. An unsigned long is 64 bits wide here. */
module Utf8 {
  import opened Wrappers

  const MAX_VALUE: bv64 := 0x1F_FFFF

  // ---------------------------------------------------------------- the forms

  function LeadMask(n: nat): bv8 {
    if n <= 1 then 0x80 else if n == 2 then 0xE0 else if n == 3 then 0xF0 else 0xF8
  }

  function LeadMark(n: nat): bv8 {
    if n <= 1 then 0x00 else if n == 2 then 0xC0 else if n == 3 then 0xE0 else 0xF0
  }

  predicate IsContinuation(b: bv8) {
    b & 0xC0 == 0x80
  }

  /** A whole form: one marked leading byte and its continuation bytes, shortest or not. */
  predicate IsForm(s: seq<bv8>) {
    && 1 <= |s| <= 4
    && s[0] & LeadMask(|s|) == LeadMark(|s|)
    && forall i :: 1 <= i < |s| ==> IsContinuation(s[i])
  }

  function Shifted(v: bv64, b: bv8): bv64 {
    (v << 6) | ((b & 0x3F) as bv64)
  }

  /** The bits a form carries: those of the leading byte its mark leaves free, then six per byte. */
  function Carried(s: seq<bv8>): bv64
    requires IsForm(s)
  {
    var lead := (s[0] & !LeadMask(|s|)) as bv64;
    if |s| == 1 then lead
    else if |s| == 2 then Shifted(lead, s[1])
    else if |s| == 3 then Shifted(Shifted(lead, s[1]), s[2])
    else Shifted(Shifted(Shifted(lead, s[1]), s[2]), s[3])
  }

  /** How many bytes the shortest form of v has; zero when it has none. */
  function Width(v: bv64): (n: nat)
    ensures n <= 4
  {
    if v <= 0x7F then 1 else if v <= 0x7FF then 2 else if v <= 0xFFFF then 3 else if v <= MAX_VALUE then 4 else 0
  }

  function Lead(n: nat, v: bv64): bv8 {
    LeadMark(n) | ((v & 0xFF) as bv8)
  }

  function Tail(v: bv64): bv8 {
    0x80 | ((v & 0x3F) as bv8)
  }

  /** The bytes written for v. */
  function Encoding(v: bv64): (s: seq<bv8>)
    ensures |s| == Width(v)
  {
    if v <= 0x7F then [Lead(1, v)]
    else if v <= 0x7FF then [Lead(2, v >> 6), Tail(v)]
    else if v <= 0xFFFF then [Lead(3, v >> 12), Tail(v >> 6), Tail(v)]
    else if v <= MAX_VALUE then [Lead(4, v >> 18), Tail(v >> 12), Tail(v >> 6), Tail(v)]
    else []
  }

  // ---------------------------------------------------------------- shortest forms

  lemma LeadReadsBack(n: nat, v: bv64)
    requires 1 <= n <= 4
    requires v <= (if n == 1 then 0x7F else if n == 2 then 0x1F else if n == 3 then 0x0F else 0x07)
    ensures Lead(n, v) & LeadMask(n) == LeadMark(n)
    ensures (Lead(n, v) & !LeadMask(n)) as bv64 == v
  {
  }

  lemma TailReadsBack(v: bv64)
    ensures IsContinuation(Tail(v)) && Shifted(v >> 6, Tail(v)) == v
  {
  }

  lemma ShiftTwice(v: bv64)
    ensures (v >> 6) >> 6 == v >> 12 && (v >> 12) >> 6 == v >> 18
  {
  }

  lemma CarriesOne(v: bv64)
    requires Width(v) == 1
    ensures IsForm(Encoding(v)) && Carried(Encoding(v)) == v
  {
    hide Lead;
    LeadReadsBack(1, v);
  }

  lemma CarriesTwo(v: bv64)
    requires Width(v) == 2
    ensures IsForm(Encoding(v)) && Carried(Encoding(v)) == v
  {
    hide Lead, Tail, Shifted, IsContinuation;
    LeadFits(v);
    LeadReadsBack(2, v >> 6);
    TailReadsBack(v);
  }

  lemma CarriesThree(v: bv64)
    requires Width(v) == 3
    ensures IsForm(Encoding(v)) && Carried(Encoding(v)) == v
  {
    hide Lead, Tail, Shifted, IsContinuation;
    LeadFits(v);
    LeadReadsBack(3, v >> 12);
    TailReadsBack(v);
    TailReadsBack(v >> 6);
    ShiftTwice(v);
  }

  lemma CarriesFour(v: bv64)
    requires Width(v) == 4
    ensures IsForm(Encoding(v)) && Carried(Encoding(v)) == v
  {
    hide Lead, Tail, Shifted, IsContinuation;
    LeadFits(v);
    LeadReadsBack(4, v >> 18);
    TailReadsBack(v);
    TailReadsBack(v >> 6);
    TailReadsBack(v >> 12);
    ShiftTwice(v);
  }

  lemma EncodingCarries(v: bv64)
    requires v <= MAX_VALUE
    ensures IsForm(Encoding(v)) && Carried(Encoding(v)) == v
  {
    hide Encoding, IsForm, Carried;
    if v <= 0x7F {
      CarriesOne(v);
    } else if v <= 0x7FF {
      CarriesTwo(v);
    } else if v <= 0xFFFF {
      CarriesThree(v);
    } else {
      CarriesFour(v);
    }
  }

  lemma LeadFits(v: bv64)
    ensures v <= 0x7FF ==> v >> 6 <= 0x1F
    ensures v <= 0xFFFF ==> v >> 12 <= 0x0F
    ensures v <= MAX_VALUE ==> v >> 18 <= 0x07
  {
  }

  /** A form of n bytes carries a value no wider than n allows. */
  lemma CarriedBound(s: seq<bv8>)
    requires IsForm(s)
    ensures 1 <= Width(Carried(s)) <= |s|
  {
  }

  /** Two forms of the same length that carry the same value are the same bytes. */
  lemma FormsOfOneLength(s: seq<bv8>, t: seq<bv8>)
    requires IsForm(s) && IsForm(t) && |s| == |t| && Carried(s) == Carried(t)
    ensures s == t
  {
  }

  /** Among all forms of a value the encoder's is the only one of least length. */
  lemma EncodingIsShortest(s: seq<bv8>)
    requires IsForm(s)
    ensures var e := Encoding(Carried(s));
            && Carried(s) <= MAX_VALUE
            && 1 <= |e| <= |s|
            && (s == e <==> |s| == |e|)
  {
    CarriedBound(s);
    EncodingCarries(Carried(s));
    if |s| == |Encoding(Carried(s))| {
      FormsOfOneLength(s, Encoding(Carried(s)));
    }
  }

  /** The leading byte alone decides the length. */
  lemma FormsArePrefixFree(s: seq<bv8>, m: nat, n: nat)
    requires m <= |s| && n <= |s| && IsForm(s[..m]) && IsForm(s[..n])
    ensures m == n
  {
    assert s[..m][0] == s[0] == s[..n][0];
  }

  // ---------------------------------------------------------------- the two operations

  /** The bytes of each width, as the encoder computes them. */
  lemma EncodingBytes(v: bv64)
    ensures Width(v) == 1 ==> Encoding(v) == [(v & 0xFF) as bv8]
    ensures Width(v) == 2 ==> Encoding(v) == [0xC0 | (((v >> 6) & 0xFF) as bv8), 0x80 | ((v & 0x3F) as bv8)]
    ensures Width(v) == 3 ==>
              Encoding(v) == [0xE0 | (((v >> 12) & 0xFF) as bv8), 0x80 | (((v >> 6) & 0x3F) as bv8),
                              0x80 | ((v & 0x3F) as bv8)]
    ensures Width(v) == 4 ==>
              Encoding(v) == [0xF0 | (((v >> 18) & 0xFF) as bv8), 0x80 | (((v >> 12) & 0x3F) as bv8),
                              0x80 | (((v >> 6) & 0x3F) as bv8), 0x80 | ((v & 0x3F) as bv8)]
  {
  }

  /** Writes the encoding of value when it fits in bufLen bytes from `at` on, and nothing otherwise. */
  method UTF8Encode(buffer: array<bv8>, at: nat, bufLen: nat, value: bv64) returns (n: nat)
    requires at + bufLen <= buffer.Length
    modifies buffer
    ensures n == if Width(value) <= bufLen then Width(value) else 0
    ensures buffer[..] == if n == 0 then old(buffer[..])
                          else old(buffer[..at]) + Encoding(value) + old(buffer[at + n..])
  {
    hide Encoding;
    EncodingBytes(value);
    if value <= 0x7F && bufLen >= 1 {
      buffer[at] := (value & 0xFF) as bv8;
      return 1;
    }
    if value <= 0x7FF && bufLen >= 2 {
      buffer[at] := 0xC0 | (((value >> 6) & 0xFF) as bv8);
      buffer[at + 1] := 0x80 | ((value & 0x3F) as bv8);
      return 2;
    }
    if value <= 0xFFFF && bufLen >= 3 {
      buffer[at] := 0xE0 | (((value >> 12) & 0xFF) as bv8);
      buffer[at + 1] := 0x80 | (((value >> 6) & 0x3F) as bv8);
      buffer[at + 2] := 0x80 | ((value & 0x3F) as bv8);
      return 3;
    }
    if value <= 0x1F_FFFF && bufLen >= 4 {
      buffer[at] := 0xF0 | (((value >> 18) & 0xFF) as bv8);
      buffer[at + 1] := 0x80 | (((value >> 12) & 0x3F) as bv8);
      buffer[at + 2] := 0x80 | (((value >> 6) & 0x3F) as bv8);
      buffer[at + 3] := 0x80 | ((value & 0x3F) as bv8);
      return 4;
    }
    return 0;
  }

  /** The length of the form that s starts with; zero when it starts with none. */
  function FormLength(s: seq<bv8>): (n: nat)
    ensures n <= |s| && n <= 4
    ensures n > 0 ==> IsForm(s[..n])
    ensures n == 0 ==> forall m :: 0 <= m <= |s| ==> !IsForm(s[..m])
  {
    if |s| >= 1 && IsForm(s[..1]) then 1
    else if |s| >= 2 && IsForm(s[..2]) then 2
    else if |s| >= 3 && IsForm(s[..3]) then 3
    else if |s| >= 4 && IsForm(s[..4]) then 4
    else 0
  }

  lemma FormLengthIs(s: seq<bv8>, n: nat)
    requires 1 <= n <= 4 && n <= |s| && s[0] & LeadMask(n) == LeadMark(n)
    requires forall i :: 1 <= i < n ==> IsContinuation(s[i])
    ensures FormLength(s) == n && IsForm(s[..n])
  {
    hide IsContinuation, LeadMask, LeadMark;
    assert IsForm(s[..n]);
    FormsArePrefixFree(s, FormLength(s), n);
  }

  predicate Leads(b: bv8, n: nat) {
    b & LeadMask(n) == LeadMark(n)
  }

  /** The decoder gives up: k bytes are present and well placed, but start no form of up to k bytes. */
  lemma FormLengthIsZero(s: seq<bv8>, k: nat)
    requires 1 <= k <= 4 && k <= |s| && (k < 4 && k < |s| ==> !IsContinuation(s[k]))
    requires forall n :: 1 <= n <= k ==> !Leads(s[0], n)
    ensures FormLength(s) == 0
  {
    hide IsContinuation, LeadMask, LeadMark;
    forall n | 1 <= n <= 4 && n <= |s| ensures !IsForm(s[..n]) {
      assert s[..n][0] == s[0];
      if n <= k {
        assert !Leads(s[0], n);
      } else {
        assert s[..n][k] == s[k];
      }
    }
  }

  /** What the decoder reads from s: the form it starts with, or nothing and the old value. */
  function Decoded(s: seq<bv8>, was: bv64): (nat, bv64) {
    var n := FormLength(s);
    (n, if n == 0 then was else Carried(s[..n]))
  }

  /** The decoder's own shifts. */
  function Combined(s: seq<bv8>, n: nat): bv64
    requires 1 <= n <= |s| && n <= 4
  {
    if n == 1 then s[0] as bv64
    else
      var two := (s[1] & 0x3F) as bv64;
      if n == 2 then (((s[0] & 0x1F) as bv64) << 6) | two
      else
        var three := (two << 6) | ((s[2] & 0x3F) as bv64);
        if n == 3 then (((s[0] & 0x0F) as bv64) << 12) | three
        else (((s[0] & 0x07) as bv64) << 18) | ((three << 6) | ((s[3] & 0x3F) as bv64))
  }

  lemma CombinedTwo(a: bv8, b: bv8)
    ensures (((a & 0x1F) as bv64) << 6) | ((b & 0x3F) as bv64) == Shifted((a & !0xE0) as bv64, b)
  {
  }

  lemma CombinedThree(a: bv8, b: bv8, c: bv8)
    ensures (((a & 0x0F) as bv64) << 12) | ((((b & 0x3F) as bv64) << 6) | ((c & 0x3F) as bv64))
         == Shifted(Shifted((a & !0xF0) as bv64, b), c)
  {
  }

  lemma CombinedFour(a: bv8, b: bv8, c: bv8, d: bv8)
    ensures (((a & 0x07) as bv64) << 18)
            | ((((((b & 0x3F) as bv64) << 6) | ((c & 0x3F) as bv64)) << 6) | ((d & 0x3F) as bv64))
         == Shifted(Shifted(Shifted((a & !0xF8) as bv64, b), c), d)
  {
  }

  lemma CombinedOne(a: bv8)
    requires Leads(a, 1)
    ensures a & !0x80 == a
  {
  }

  lemma CombinedIsCarried(s: seq<bv8>)
    requires IsForm(s)
    ensures Combined(s, |s|) == Carried(s)
  {
    hide Shifted, IsContinuation;
    if |s| == 1 {
      CombinedOne(s[0]);
    } else if |s| == 2 {
      CombinedTwo(s[0], s[1]);
    } else if |s| == 3 {
      CombinedThree(s[0], s[1], s[2]);
    } else {
      CombinedFour(s[0], s[1], s[2], s[3]);
    }
  }

  lemma DecodedForm(s: seq<bv8>, was: bv64, n: nat)
    requires 1 <= n <= 4 && n <= |s| && Leads(s[0], n)
    requires forall i :: 1 <= i < n ==> IsContinuation(s[i])
    ensures Decoded(s, was) == (n, Combined(s, n))
  {
    hide LeadMark, LeadMask, IsContinuation;
    FormLengthIs(s, n);
    hide FormLength, IsForm, Leads;
    CombinedIsCarried(s[..n]);
    hide Carried;
    assert Combined(s[..n], n) == Combined(s, n);
  }

  lemma LeadTests(b: bv8)
    ensures Leads(b, 1) <==> b & 0x80 == 0x00
    ensures Leads(b, 2) <==> b & 0xE0 == 0xC0
    ensures Leads(b, 3) <==> b & 0xF0 == 0xE0
    ensures Leads(b, 4) <==> b & 0xF8 == 0xF0
  {
  }

  lemma ContinuationTest()
    ensures forall b :: IsContinuation(b) <==> b & 0xC0 == 0x80
  {
  }

  /** How many bytes the decoder takes to be there. */
  function Given(srcLen: nat): (k: nat)
    ensures if srcLen < 2 then k == 1 else k == srcLen
  {
    if srcLen == 0 then 1 else srcLen
  }

  /** Succeeds exactly when the source starts with a form, and reads what it carries.  The first byte is
      read even when the length is 0: there must be one, and the answer is that for a length of 1. */
  method UTF8Decode(source: array<bv8>, at: nat, srcLen: nat, was: bv64) returns (n: nat, value: bv64)
    requires at < source.Length && at + srcLen <= source.Length
    ensures (n, value) == Decoded(source[at..at + Given(srcLen)], was)
  {
    hide Given, Decoded, FormLength, Leads, IsContinuation, LeadMask, LeadMark;
    ghost var s := source[at..at + Given(srcLen)];
    assert s[0] == source[at];
    LeadTests(source[at]);
    ContinuationTest();
    value := was;
    if source[at] & 0x80 == 0x00 {
      DecodedForm(s, was, 1);
      return 1, source[at] as bv64;
    }
    if srcLen < 2 || source[at + 1] & 0xC0 != 0x80 {
      assert |s| >= 2 ==> s[1] == source[at + 1];
      NothingDecoded(s, was, 1);
      return 0, value;
    }
    assert s[1] == source[at + 1];
    var value16 := (source[at + 1] & 0x3F) as bv64;
    if source[at] & 0xE0 == 0xC0 {
      DecodedForm(s, was, 2);
      return 2, (((source[at] & 0x1F) as bv64) << 6) | value16;
    }
    n, value := DecodeLong(source, at, srcLen, was);
  }

  /** The forms of three and four bytes, once a second byte is known to go on. */
  method DecodeLong(source: array<bv8>, at: nat, srcLen: nat, was: bv64) returns (n: nat, value: bv64)
    requires srcLen >= 2 && at + srcLen <= source.Length
    requires !Leads(source[at], 1) && !Leads(source[at], 2) && IsContinuation(source[at + 1])
    ensures (n, value) == Decoded(source[at..at + srcLen], was)
  {
    hide Decoded, FormLength, Leads, IsContinuation, LeadMask, LeadMark;
    ghost var s := source[at..at + srcLen];
    LeadTests(source[at]);
    ContinuationTest();
    value := was;
    var value16 := (source[at + 1] & 0x3F) as bv64;
    if srcLen < 3 || source[at + 2] & 0xC0 != 0x80 {
      NothingDecoded(s, was, 2);
      return 0, value;
    }
    value16 := (value16 << 6) | ((source[at + 2] & 0x3F) as bv64);
    if source[at] & 0xF0 == 0xE0 {
      DecodedForm(s, was, 3);
      return 3, (((source[at] & 0x0F) as bv64) << 12) | value16;
    }
    if srcLen < 4 || source[at + 3] & 0xC0 != 0x80 {
      NothingDecoded(s, was, 3);
      return 0, value;
    }
    value16 := (value16 << 6) | ((source[at + 3] & 0x3F) as bv64);
    if source[at] & 0xF8 == 0xF0 {
      DecodedForm(s, was, 4);
      return 4, (((source[at] & 0x07) as bv64) << 18) | value16;
    }
    NothingDecoded(s, was, 4);
    return 0, value;
  }

  lemma NothingDecoded(s: seq<bv8>, was: bv64, k: nat)
    requires 1 <= k <= 4 && k <= |s| && (k < 4 && k < |s| ==> !IsContinuation(s[k]))
    requires forall n :: 1 <= n <= k ==> !Leads(s[0], n)
    ensures Decoded(s, was) == (0, was)
  {
    hide Leads, IsContinuation, FormLength;
    FormLengthIsZero(s, k);
  }

  // ---------------------------------------------------------------- streams

  /** Values encoded back to back. */
  function EncodedStream(vs: seq<bv64>): seq<bv8> {
    if vs == [] then [] else Encoding(vs[0]) + EncodedStream(vs[1..])
  }

  /** The decoder in a loop: None when it gets stuck before the end. */
  function DecodedStream(s: seq<bv8>): Option<seq<bv64>> {
    if s == [] then Some([])
    else
      var (n, v) := Decoded(s, 0);
      if n == 0 then None
      else
        var rest := DecodedStream(s[n..]);
        if rest.None? then None else Some([v] + rest.value)
  }

  /** What follows an encoding does not disturb it. */
  lemma EncodingDecodes(v: bv64, rest: seq<bv8>, was: bv64)
    requires v <= MAX_VALUE
    ensures Decoded(Encoding(v) + rest, was) == (Width(v), v)
  {
    var s, n := Encoding(v) + rest, Width(v);
    EncodingCarries(v);
    assert s[..n] == Encoding(v);
    hide Encoding, IsForm, Carried;
    FormsArePrefixFree(s, n, FormLength(s));
  }

  lemma {:induction false} StreamReadsBack(vs: seq<bv64>)
    requires forall i :: 0 <= i < |vs| ==> vs[i] <= MAX_VALUE
    ensures DecodedStream(EncodedStream(vs)) == Some(vs)
  {
    hide Encoding, Decoded;
    if vs == [] {
    } else {
      var rest := EncodedStream(vs[1..]);
      EncodingDecodes(vs[0], rest, 0);
      StreamReadsBack(vs[1..]);
      var s := EncodedStream(vs);
      assert s[Width(vs[0])..] == rest;
      assert |Encoding(vs[0])| > 0 && s != [];
      assert vs == [vs[0]] + vs[1..];
    }
  }

  /** Any stream that decodes is at least as long as the encoder's for the same values, and is the
      encoder's exactly when it is no longer: overlong forms are accepted but never produced. */
  lemma {:induction false} StreamIsShortest(s: seq<bv8>)
    requires DecodedStream(s).Some?
    ensures var e := EncodedStream(DecodedStream(s).value);
            |e| <= |s| && (s == e <==> |s| == |e|)
  {
    hide Encoding, IsForm, Carried;
    if s == [] {
    } else {
      var (n, v) := Decoded(s, 0);
      EncodingIsShortest(s[..n]);
      StreamIsShortest(s[n..]);
      var vs := DecodedStream(s).value;
      assert vs[0] == v && vs[1..] == DecodedStream(s[n..]).value;
      assert s == s[..n] + s[n..];
      StreamHead(s[..n], s[n..], Encoding(v), EncodedStream(vs[1..]));
    }
  }

  lemma StreamHead(a: seq<bv8>, b: seq<bv8>, c: seq<bv8>, d: seq<bv8>)
    requires |c| <= |a| && |d| <= |b|
    requires a == c <==> |a| == |c|
    requires b == d <==> |b| == |d|
    ensures a + b == c + d <==> |a + b| == |c + d|
  {
  }

  /** An overlong form of a slash: read as the slash, which the encoder writes in one byte. */
  lemma OverlongIsRead()
    ensures Decoded([0xC0, 0xAF], 0) == (2, 0x2F) && Encoding(0x2F) == [0x2F]
  {
    DecodedForm([0xC0, 0xAF], 0, 2);
  }

  /** The examples of RFC 3629 section 7, one of every width: A, alpha, not identical to, and a stump of tree. */
  lemma Examples()
    ensures Encoding(0x41) == [0x41]
    ensures Encoding(0x391) == [0xCE, 0x91]
    ensures Encoding(0x2262) == [0xE2, 0x89, 0xA2]
    ensures Encoding(0x233B4) == [0xF0, 0xA3, 0x8E, 0xB4]
  {
  }

  /** The table of forms, bit by bit. */
  lemma FormsAreTheTable(s: seq<bv8>)
    ensures IsForm(s) <==>
            || (|s| == 1 && s[0] & 0x80 == 0x00)
            || (|s| == 2 && s[0] & 0xE0 == 0xC0 && s[1] & 0xC0 == 0x80)
            || (|s| == 3 && s[0] & 0xF0 == 0xE0 && s[1] & 0xC0 == 0x80 && s[2] & 0xC0 == 0x80)
            || (|s| == 4 && s[0] & 0xF8 == 0xF0 && s[1] & 0xC0 == 0x80 && s[2] & 0xC0 == 0x80 && s[3] & 0xC0 == 0x80)
  {
  }
}
