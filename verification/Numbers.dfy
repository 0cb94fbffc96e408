/** The overflow-exact integer parsers of base/numbers.cc.

    Text is taken apart into sign, base and digits; the digits have a mathematical value; the digit
    loops compute with machine integers only and agree with that value or with the limit it exceeds. */
module Numbers {
  import opened Wrappers
  import opened Bits

  datatype IntType = I32 | I64 | U32 | U64 {
    function Min(): int {
      match this
      case I32 => -0x8000_0000
      case I64 => -0x8000_0000_0000_0000
      case _ => 0
    }

    function Max(): int {
      match this
      case I32 => 0x7FFF_FFFF
      case I64 => 0x7FFF_FFFF_FFFF_FFFF
      case U32 => 0xFFFF_FFFF
      case U64 => 0xFFFF_FFFF_FFFF_FFFF
    }

    predicate Fits(v: int) {
      Min() <= v <= Max()
    }

    /** Machine arithmetic: none of these may leave the type. */
    function Times(a: int, b: int): int
      requires Fits(a * b)
    {
      a * b
    }

    function Plus(a: int, b: int): int
      requires Fits(a + b)
    {
      a + b
    }

    function Minus(a: int, b: int): int
      requires Fits(a - b)
    {
      a - b
    }
  }

  /** C++ division and remainder truncate toward zero. */
  function Quotient(a: int, b: nat): int
    requires b > 0
  {
    if a < 0 then -(-a / b) else a / b
  }

  function Remainder(a: int, b: nat): int
    requires b > 0
  {
    if a < 0 then -(-a % b) else a % b
  }

  predicate IsSpace(c: char) {
    c == ' ' || 9 <= c as int <= 13
  }

  /** kAsciiToInt: letters of either case go on from 10; 36 is no digit in any base. */
  function Digit(c: char): (d: nat)
    ensures d <= 36
  {
    if '0' <= c <= '9' then c as int - '0' as int
    else if 'A' <= c <= 'Z' then c as int - 'A' as int + 10
    else if 'a' <= c <= 'z' then c as int - 'a' as int + 10
    else 36
  }

  // ---------------------------------------------------------------- what a numeral is

  function TrimLeft(s: string): string {
    if s != "" && IsSpace(s[0]) then TrimLeft(s[1..]) else s
  }

  function TrimRight(s: string): string {
    if s != "" && IsSpace(s[|s| - 1]) then TrimRight(s[..|s| - 1]) else s
  }

  datatype Numeral = Numeral(negative: bool, base: nat, digits: string)

  predicate HasHexPrefix(s: string) {
    |s| >= 2 && s[0] == '0' && (s[1] == 'x' || s[1] == 'X')
  }

  /** Prefix and digits of what follows the sign; None when there is nothing to read. */
  function AfterSign(negative: bool, rest: string, base: int): (n: Option<Numeral>)
    ensures n.Some? ==> 2 <= n.value.base <= 36
  {
    if rest == "" then None
    else if (base == 0 || base == 16) && HasHexPrefix(rest) then
      (if |rest| == 2 then None else Some(Numeral(negative, 16, rest[2..])))
    else if base == 0 then
      (if rest[0] == '0' then Some(Numeral(negative, 8, rest[1..])) else Some(Numeral(negative, 10, rest)))
    else if 2 <= base <= 36 then Some(Numeral(negative, base, rest))
    else None
  }

  function TakeApartTrimmed(s: string, base: int): (n: Option<Numeral>)
    ensures n.Some? ==> 2 <= n.value.base <= 36
  {
    if s == "" then None
    else AfterSign(s[0] == '-', if s[0] == '-' || s[0] == '+' then s[1..] else s, base)
  }

  function TakeApart(text: string, base: int): (n: Option<Numeral>)
    ensures n.Some? ==> 2 <= n.value.base <= 36
  {
    TakeApartTrimmed(TrimRight(TrimLeft(text)), base)
  }

  predicate AllDigits(s: string, base: nat) {
    forall i :: 0 <= i < |s| ==> Digit(s[i]) < base
  }

  /** The mathematical value, unbounded. */
  function Value(s: string, base: nat): nat {
    if s == "" then 0 else Value(s[..|s| - 1], base) * base + Digit(s[|s| - 1])
  }

  /** How many characters are digits before the first that is not. */
  function GoodLength(s: string, base: nat): (k: nat)
    ensures k <= |s|
    ensures AllDigits(s[..k], base)
    ensures k < |s| ==> Digit(s[k]) >= base
  {
    if s == "" || Digit(s[0]) >= base then 0
    else
      var k := GoodLength(s[1..], base);
      assert s[..k + 1] == [s[0]] + s[1..][..k];
      k + 1
  }

  /** The digit loops, as one statement about the value of the good prefix. */
  function Clamped(s: string, base: nat, limit: int): (bool, int) {
    var k := GoodLength(s, base);
    var v := Value(s[..k], base);
    if v > limit then (false, limit) else (k == |s|, v)
  }

  function SafeInt(t: IntType, text: string, base: int): (bool, int) {
    var n := TakeApart(text, base);
    if n.None? then (false, 0)
    else if n.value.negative then
      (if t.Min() == 0 then (false, 0)
       else
         var (ok, v) := Clamped(n.value.digits, n.value.base, -t.Min());
         (ok, -v))
    else Clamped(n.value.digits, n.value.base, t.Max())
  }

  /** Success means: a numeral of the base whose value the type can hold; and then that value.  A numeral
      beyond the type fails with the type's limit on its side. */
  lemma SafeIntExact(t: IntType, text: string, base: int)
    ensures var n, r := TakeApart(text, base), SafeInt(t, text, base);
            && (r.0 <==>
                  && n.Some? && AllDigits(n.value.digits, n.value.base)
                  && (n.value.negative ==> t.Min() < 0)
                  && var v := Value(n.value.digits, n.value.base);
                     t.Fits(if n.value.negative then 0 - v else v))
            && (r.0 ==> r.1 == if n.value.negative then 0 - Value(n.value.digits, n.value.base)
                               else Value(n.value.digits, n.value.base))
            && t.Fits(r.1)
            && (n.Some? && AllDigits(n.value.digits, n.value.base) && (n.value.negative ==> t.Min() < 0) ==>
                  var v := Value(n.value.digits, n.value.base);
                  && (!n.value.negative && v > t.Max() ==> r == (false, t.Max()))
                  && (n.value.negative && 0 - v < t.Min() ==> r == (false, t.Min())))
  {
    var n := TakeApart(text, base);
    if n.Some? {
      var s := n.value.digits;
      var k := GoodLength(s, n.value.base);
      assert k == |s| ==> s[..k] == s;
    }
  }

  // ---------------------------------------------------------------- the digit loops

  lemma DivisionBound(v: nat, limit: nat, base: nat)
    requires base > 0
    ensures v <= limit / base <==> v * base <= limit
  {
    FloorBounds(limit, base);
    var q := limit / base;
    if v <= q {
      MulMonotone(v, q, base);
    } else {
      MulMonotone(q + 1, v, base);
      MulDistributes(q, 1, base);
    }
  }

  lemma {:induction false} ValueGrows(s: string, base: nat, i: nat, j: nat)
    requires i <= j <= |s| && base > 0
    ensures Value(s[..i], base) <= Value(s[..j], base)
  {
    if i == j {
    } else {
      ValueGrows(s, base, i, j - 1);
      assert s[..j][..j - 1] == s[..j - 1];
      MulMonotone(1, base, Value(s[..j - 1], base));
      assert Value(s[..j - 1], base) * base == base * Value(s[..j - 1], base);
    }
  }

  lemma ValueStep(s: string, base: nat, i: nat)
    requires i < |s|
    ensures Value(s[..i + 1], base) == Value(s[..i], base) * base + Digit(s[i])
  {
    assert s[..i + 1][..i] == s[..i];
  }

  lemma {:induction false} GoodLengthIs(s: string, base: nat, k: nat)
    requires k <= |s| && AllDigits(s[..k], base) && (k < |s| ==> Digit(s[k]) >= base)
    ensures GoodLength(s, base) == k
  {
    if k == 0 {
    } else {
      assert s[..k][0] == s[0];
      assert s[1..][..k - 1] == s[..k][1..];
      GoodLengthIs(s[1..], base, k - 1);
    }
  }

  /** The loops' state: the first i characters are digits and v is their value. */
  ghost predicate Parsed(s: string, base: nat, i: nat, v: int) {
    i <= |s| && AllDigits(s[..i], base) && v == Value(s[..i], base)
  }

  lemma ParsedNothing(s: string, base: nat)
    ensures Parsed(s, base, 0, 0)
  {
  }

  lemma ParsedAll(s: string, base: nat, limit: int, v: int)
    requires Parsed(s, base, |s|, v) && v <= limit
    ensures Clamped(s, base, limit) == (true, v)
  {
    GoodLengthIs(s, base, |s|);
  }

  lemma ParsedUntil(s: string, base: nat, limit: int, i: nat, v: int)
    requires i < |s| && Parsed(s, base, i, v) && v <= limit && Digit(s[i]) >= base
    ensures Clamped(s, base, limit) == (false, v)
  {
    GoodLengthIs(s, base, i);
  }

  lemma ParsedOneMore(s: string, base: nat, i: nat, v: int)
    requires i < |s| && Parsed(s, base, i, v) && Digit(s[i]) < base
    ensures Parsed(s, base, i + 1, v * base + Digit(s[i]))
  {
    assert s[..i + 1] == s[..i] + [s[i]];
    ValueStep(s, base, i);
  }

  lemma {:induction false} GoodLengthIsLongest(s: string, base: nat, i: nat)
    requires i <= |s| && AllDigits(s[..i], base)
    ensures GoodLength(s, base) >= i
  {
    if i == 0 {
    } else {
      assert s[..i][0] == s[0];
      assert s[1..][..i - 1] == s[..i][1..];
      GoodLengthIsLongest(s[1..], base, i - 1);
    }
  }

  /** A prefix of digits whose value exceeds the limit decides the outcome. */
  lemma OverflowFound(s: string, base: nat, limit: int, i: nat, v: int)
    requires 0 < base && Parsed(s, base, i, v) && v > limit
    ensures Clamped(s, base, limit) == (false, limit)
  {
    GoodLengthIsLongest(s, base, i);
    ValueGrows(s, base, i, GoodLength(s, base));
  }

  /** Everything one iteration of a digit loop relies on. */
  lemma DigitStep(s: string, base: nat, limit: int, i: nat, v: int)
    requires base > 0 && i < |s| && Parsed(s, base, i, v) && 0 <= v <= limit
    ensures Digit(s[i]) >= base ==> Clamped(s, base, limit) == (false, v)
    ensures Digit(s[i]) < base && v > limit / base ==> Clamped(s, base, limit) == (false, limit)
    ensures v <= limit / base ==> 0 <= v * base <= limit
    ensures Digit(s[i]) < base && v * base + Digit(s[i]) > limit ==> Clamped(s, base, limit) == (false, limit)
    ensures Digit(s[i]) < base ==> Parsed(s, base, i + 1, v * base + Digit(s[i]))
  {
    hide Clamped, Parsed, Digit;
    DivisionBound(v, limit, base);
    MulMonotone(0, v, base);
    if Digit(s[i]) >= base {
      ParsedUntil(s, base, limit, i, v);
    } else {
      ParsedOneMore(s, base, i, v);
      if v * base + Digit(s[i]) > limit {
        OverflowFound(s, base, limit, i + 1, v * base + Digit(s[i]));
      }
    }
  }

  method SafeParsePositiveInt(t: IntType, text: string, base: nat) returns (ok: bool, value: int)
    requires 2 <= base <= 36
    ensures (ok, value) == Clamped(text, base, t.Max())
  {
    hide Clamped, Parsed, Digit, IntType.Max, IntType.Min;
    LimitsAreLarge(t);
    ParsedNothing(text, base);
    value := 0;
    var vmax := t.Max();
    var vmaxOverBase := vmax / base;
    var start := 0;
    while start < |text|
      invariant start <= |text| && Parsed(text, base, start, value) && 0 <= value <= vmax
    {
      DigitStep(text, base, vmax, start, value);
      var digit := Digit(text[start]);
      if digit >= base {
        return false, value;
      }
      if value > vmaxOverBase {
        return false, vmax;
      }
      value := t.Times(value, base);
      if value > t.Minus(vmax, digit) {
        return false, vmax;
      }
      value := t.Plus(value, digit);
      start := start + 1;
    }
    ParsedAll(text, base, vmax, value);
    return true, value;
  }

  method SafeParseNegativeInt(t: IntType, text: string, base: nat) returns (ok: bool, value: int)
    requires 2 <= base <= 36 && t.Min() < 0
    ensures var r := Clamped(text, base, -t.Min()); (ok, value) == (r.0, -r.1)
  {
    hide Clamped, Parsed, Digit, IntType.Max, IntType.Min;
    LimitsAreLarge(t);
    ParsedNothing(text, base);
    value := 0;
    var vmin := t.Min();
    var vminOverBase := Quotient(vmin, base);
    if Remainder(vmin, base) > 0 {
      vminOverBase := vminOverBase + 1;
    }
    var start := 0;
    while start < |text|
      invariant start <= |text| && Parsed(text, base, start, -value) && vmin <= value <= 0
    {
      DigitStep(text, base, -vmin, start, -value);
      NegatedProduct(value, base);
      var digit := Digit(text[start]);
      if digit >= base {
        return false, value;
      }
      if value < vminOverBase {
        return false, vmin;
      }
      value := t.Times(value, base);
      if value < t.Plus(vmin, digit) {
        return false, vmin;
      }
      value := t.Minus(value, digit);
      start := start + 1;
    }
    ParsedAll(text, base, -vmin, -value);
    return true, value;
  }

  lemma NegatedProduct(v: int, base: nat)
    ensures v * base == -(-v * base)
  {
  }

  lemma LimitsAreLarge(t: IntType)
    ensures t.Max() > 36 && (t.Min() == 0 || t.Min() < -36)
  {
  }

  // ---------------------------------------------------------------- sign, prefix and the entry points

  /** TrimRight and TrimLeft, as the loops meet them: cut at the first and last character kept. */
  lemma {:induction false} TrimLeftFrom(s: string, start: nat)
    requires start <= |s| && forall i :: 0 <= i < start ==> IsSpace(s[i])
    ensures TrimLeft(s) == TrimLeft(s[start..])
  {
    if start == 0 {
    } else {
      TrimLeftFrom(s[1..], start - 1);
      assert s[1..][start - 1..] == s[start..];
    }
  }

  lemma {:induction false} TrimRightFrom(s: string, end: nat)
    requires end <= |s| && forall i :: end <= i < |s| ==> IsSpace(s[i])
    ensures TrimRight(s) == TrimRight(s[..end])
  {
    if end < |s| {
      TrimRightFrom(s[..|s| - 1], end);
      assert s[..|s| - 1][..end] == s[..end];
    } else {
      assert s[..end] == s;
    }
  }

  method SafeParseSignAndBase(text: string, base: int) returns (r: Option<Numeral>)
    ensures r == TakeApart(text, base)
  {
    hide TrimLeft, TrimRight, IsSpace;
    var start := Skip(text);
    var end := SkipBack(text, start);
    if start >= end {
      return None;
    }
    var trimmed := text[start..end];
    var negative := text[start] == '-';
    if negative || text[start] == '+' {
      start := start + 1;
      if start >= end {
        return None;
      }
    }
    var rest := text[start..end];
    assert rest == if trimmed[0] == '-' || trimmed[0] == '+' then trimmed[1..] else trimmed;
    assert TakeApart(text, base) == AfterSign(negative, rest, base);
    hide TakeApart, TakeApartTrimmed;
    var b := base;
    if base == 0 {
      if HasHexPrefix(rest) {
        b := 16;
        start := start + 2;
        if start >= end {
          return None;
        }
      } else if end - start >= 1 && text[start] == '0' {
        b := 8;
        start := start + 1;
      } else {
        b := 10;
      }
    } else if base == 16 {
      if HasHexPrefix(rest) {
        start := start + 2;
        if start >= end {
          return None;
        }
      }
    } else if 2 <= base <= 36 {
    } else {
      return None;
    }
    assert text[start..end] == rest[start - (end - |rest|)..];
    r := Some(Numeral(negative, b, text[start..end]));
  }

  method Skip(text: string) returns (start: nat)
    ensures start <= |text| && text[start..] == TrimLeft(text)
  {
    start := 0;
    while start < |text| && IsSpace(text[start])
      invariant start <= |text| && forall i :: 0 <= i < start ==> IsSpace(text[i])
    {
      start := start + 1;
    }
    TrimLeftFrom(text, start);
  }

  method SkipBack(text: string, start: nat) returns (end: nat)
    requires start <= |text|
    ensures start <= end <= |text| && text[start..end] == TrimRight(text[start..])
  {
    end := |text|;
    while start < end && IsSpace(text[end - 1])
      invariant start <= end <= |text| && forall i :: end <= i < |text| ==> IsSpace(text[i])
    {
      end := end - 1;
    }
    TrimRightFrom(text[start..], end - start);
    assert text[start..][..end - start] == text[start..end];
  }

  method SafeIntInternal(t: IntType, text: string, base: int) returns (ok: bool, value: int)
    requires t.Min() < 0
    ensures (ok, value) == SafeInt(t, text, base)
  {
    var n := SafeParseSignAndBase(text, base);
    if n.None? {
      return false, 0;
    }
    if !n.value.negative {
      ok, value := SafeParsePositiveInt(t, n.value.digits, n.value.base);
    } else {
      ok, value := SafeParseNegativeInt(t, n.value.digits, n.value.base);
    }
  }

  method SafeUintInternal(t: IntType, text: string, base: int) returns (ok: bool, value: int)
    requires t.Min() == 0
    ensures (ok, value) == SafeInt(t, text, base)
  {
    var n := SafeParseSignAndBase(text, base);
    if n.None? || n.value.negative {
      return false, 0;
    }
    ok, value := SafeParsePositiveInt(t, n.value.digits, n.value.base);
  }

  // ---------------------------------------------------------------- numerals read back

  function DigitChar(d: nat, upper: bool): (c: char)
    requires d < 36
    ensures Digit(c) == d && !IsSpace(c) && c != '-' && c != '+'
    ensures c == '0' <==> d == 0
    ensures d < 33 ==> c != 'x' && c != 'X'
  {
    if d < 10 then '0' + d as char
    else if upper then 'A' + (d - 10) as char
    else 'a' + (d - 10) as char
  }

  /** The shortest numeral of n. */
  function NumeralOf(n: nat, base: nat, upper: bool): (s: string)
    requires 2 <= base <= 36
  {
    if n < base then [DigitChar(n, upper)]
    else NumeralOf(n / base, base, upper) + [DigitChar(n % base, upper)]
  }

  /** What a digit of a small base is not. */
  predicate IsClean(c: char, base: nat) {
    && Digit(c) < base && !IsSpace(c) && c != '-' && c != '+'
    && (base <= 33 ==> c != 'x' && c != 'X')
  }

  ghost predicate AllClean(s: string, base: nat) {
    forall i :: 0 <= i < |s| ==> IsClean(s[i], base)
  }

  lemma NumeralSplits(n: nat, base: nat, upper: bool) returns (q: nat, d: nat)
    requires 2 <= base <= 36 && n >= base
    ensures 0 < q < n && d < base && n == q * base + d
    ensures NumeralOf(n, base, upper) == NumeralOf(q, base, upper) + [DigitChar(d, upper)]
  {
    hide Digit, IsSpace;
    hide NumeralOf;
    QuotientShrinks(n, base);
    q, d := n / base, n % base;
    NumeralUnfolds(n, base, upper);
  }

  lemma QuotientShrinks(n: nat, base: nat)
    requires 2 <= base && n >= base
    ensures 0 < n / base < n && n % base < base && n == n / base * base + n % base
  {
  }

  lemma NumeralUnfolds(n: nat, base: nat, upper: bool)
    requires 2 <= base <= 36 && n >= base
    ensures NumeralOf(n, base, upper) == NumeralOf(n / base, base, upper) + [DigitChar(n % base, upper)]
  {
    hide Digit, IsSpace;
  }

  lemma NumeralOfDigit(n: nat, base: nat, upper: bool)
    requires n < base && 2 <= base <= 36
    ensures NumeralOf(n, base, upper) == [DigitChar(n, upper)]
  {
    hide Digit, IsSpace;
  }

  lemma {:induction false} NumeralIsClean(n: nat, base: nat, upper: bool)
    requires 2 <= base <= 36
    ensures NumeralOf(n, base, upper) != "" && AllClean(NumeralOf(n, base, upper), base)
  {
    hide NumeralOf, IsClean, Digit, IsSpace;
    DigitsAreClean(base, upper);
    if n < base {
      NumeralOfDigit(n, base, upper);
    } else {
      var q, d := NumeralSplits(n, base, upper);
      NumeralIsClean(q, base, upper);
    }
  }

  lemma DigitsAreClean(base: nat, upper: bool)
    requires 2 <= base <= 36
    ensures forall d :: 0 <= d < base ==> IsClean(DigitChar(d, upper), base)
  {
  }

  lemma {:induction false} NumeralHasValue(n: nat, base: nat, upper: bool)
    requires 2 <= base <= 36
    ensures Value(NumeralOf(n, base, upper), base) == n
  {
    hide NumeralOf, Digit, IsSpace;
    if n < base {
      NumeralOfDigit(n, base, upper);
      assert [DigitChar(n, upper)][..0] == "";
    } else {
      var q, d := NumeralSplits(n, base, upper);
      NumeralHasValue(q, base, upper);
      ValueOfExtended(NumeralOf(q, base, upper), DigitChar(d, upper), base);
    }
  }

  lemma ValueOfExtended(s: string, c: char, base: nat)
    ensures Value(s + [c], base) == Value(s, base) * base + Digit(c)
  {
    assert (s + [c])[..|s|] == s;
  }

  /** No numeral but zero's starts with a zero. */
  lemma {:induction false} NumeralStart(n: nat, base: nat, upper: bool)
    requires 2 <= base <= 36
    ensures var s := NumeralOf(n, base, upper); s != "" && (s[0] == '0' <==> n == 0)
  {
    hide NumeralOf, Digit, IsSpace;
    if n < base {
      NumeralOfDigit(n, base, upper);
    } else {
      var q, d := NumeralSplits(n, base, upper);
      NumeralStart(q, base, upper);
    }
  }

  predicate AllSpaces(s: string) {
    forall i :: 0 <= i < |s| ==> IsSpace(s[i])
  }

  lemma TrimPadded(before: string, s: string, after: string)
    requires AllSpaces(before) && AllSpaces(after)
    requires s != "" && !IsSpace(s[0]) && !IsSpace(s[|s| - 1])
    ensures TrimRight(TrimLeft(before + s + after)) == s
  {
    var all := before + s + after;
    TrimLeftFrom(all, |before|);
    assert all[|before|..] == s + after;
    TrimRightFrom(s + after, |s|);
    assert (s + after)[..|s|] == s;
  }

  /** How a caller may write n for a given base argument: prefixes only where the base calls for one. */
  datatype Prefix = Plain | Hex(x: char) | Octal {
    predicate Allowed(base: int) {
      match this
      case Plain => 2 <= base <= 36
      case Hex(x) => (x == 'x' || x == 'X') && (base == 0 || base == 16)
      case Octal => base == 0
    }

    function Radix(base: int): nat
      requires Allowed(base)
    {
      match this
      case Plain => base
      case Hex(_) => 16
      case Octal => 8
    }

    function Text(): string {
      match this
      case Plain => ""
      case Hex(x) => ['0', x]
      case Octal => "0"
    }
  }

  function Magnitude(n: int): nat {
    if n < 0 then -n else n
  }

  /** Sign, prefix and digits, written out: this is the text between the white space. */
  function Written(negative: bool, plus: bool, p: Prefix, digits: string): string {
    (if negative then "-" else if plus then "+" else "") + p.Text() + digits
  }

  lemma SignTaken(negative: bool, plus: bool, p: Prefix, digits: string, base: int)
    requires digits != "" && digits[0] != '-' && digits[0] != '+'
    ensures TakeApartTrimmed(Written(negative, plus, p, digits), base)
         == AfterSign(negative, p.Text() + digits, base)
  {
    hide AfterSign;
    var s, rest := Written(negative, plus, p, digits), p.Text() + digits;
    assert rest[0] != '-' && rest[0] != '+';
    assert (if negative || plus then s[1..] else s) == rest;
  }

  lemma TakeApartWritten(negative: bool, plus: bool, p: Prefix, digits: string, base: int)
    requires p.Allowed(base) && digits != "" && AllClean(digits, p.Radix(base))
    ensures TakeApartTrimmed(Written(negative, plus, p, digits), base) == Some(Numeral(negative, p.Radix(base), digits))
  {
    hide Digit, IsSpace, TakeApartTrimmed, Written;
    assert IsClean(digits[0], p.Radix(base));
    assert |digits| > 1 ==> IsClean(digits[1], p.Radix(base));
    SignTaken(negative, plus, p, digits, base);
    var rest := p.Text() + digits;
    match p
    case Plain => assert rest == digits;
    case Hex(x) => assert rest[2..] == digits;
    case Octal => assert rest[1..] == digits;
  }

  lemma WrittenHasNoSpace(negative: bool, plus: bool, p: Prefix, digits: string, base: nat)
    requires digits != "" && AllClean(digits, base)
    ensures var s := Written(negative, plus, p, digits);
            s != "" && !IsSpace(s[0]) && !IsSpace(s[|s| - 1])
  {
    hide Digit;
    assert IsClean(digits[0], base) && IsClean(digits[|digits| - 1], base);
  }

  lemma CleanDigits(s: string, base: nat)
    requires AllClean(s, base)
    ensures AllDigits(s, base) && GoodLength(s, base) == |s| && s[..GoodLength(s, base)] == s
  {
    assert forall i :: 0 <= i < |s| ==> IsClean(s[i], base);
    assert s[..|s|] == s;
    GoodLengthIs(s, base, |s|);
  }

  /** A numeral taken apart reads as its value when that fits. */
  lemma TakenApartReads(t: IntType, text: string, base: int, n: Numeral, v: int)
    requires TakeApart(text, base) == Some(n) && t.Fits(v) && n.negative == (v < 0)
    requires GoodLength(n.digits, n.base) == |n.digits| && Value(n.digits, n.base) == Magnitude(v)
    ensures SafeInt(t, text, base) == (true, v)
  {
    hide TakeApart;
    assert n.digits[..|n.digits|] == n.digits;
  }

  /** Every number of every type, its minimum included, reads back from its numeral: in each base, with
      or without prefix and plus sign, in either letter case, between any white space. */
  lemma NumeralsReadBack(t: IntType, n: int, base: int, p: Prefix, upper: bool, plus: bool,
                         before: string, after: string)
    requires t.Fits(n) && p.Allowed(base) && AllSpaces(before) && AllSpaces(after)
    ensures var digits := NumeralOf(Magnitude(n), p.Radix(base), upper);
            SafeInt(t, before + Written(n < 0, plus, p, digits) + after, base) == (true, n)
  {
    hide NumeralOf, TakeApartTrimmed, AllClean, Written, Digit, IsSpace, Value, AllSpaces, SafeInt;
    var radix := p.Radix(base);
    var digits := NumeralOf(Magnitude(n), radix, upper);
    NumeralIsClean(Magnitude(n), radix, upper);
    NumeralHasValue(Magnitude(n), radix, upper);
    TakeApartWritten(n < 0, plus, p, digits, base);
    WrittenHasNoSpace(n < 0, plus, p, digits, radix);
    TrimPadded(before, Written(n < 0, plus, p, digits), after);
    CleanDigits(digits, radix);
    TakenApartReads(t, before + Written(n < 0, plus, p, digits) + after, base, Numeral(n < 0, radix, digits), n);
  }

  /** With base 0 a plain decimal numeral reads back too: zero through the octal branch. */
  lemma DecimalReadsBack(t: IntType, n: int, plus: bool, before: string, after: string)
    requires t.Fits(n) && AllSpaces(before) && AllSpaces(after)
    ensures var digits := NumeralOf(Magnitude(n), 10, false);
            SafeInt(t, before + Written(n < 0, plus, Plain, digits) + after, 0) == (true, n)
  {
    hide NumeralOf, Digit, IsSpace, AllSpaces, AllClean, Value, TakeApartTrimmed, Written, SafeInt;
    var digits := NumeralOf(Magnitude(n), 10, false);
    var s := Written(n < 0, plus, Plain, digits);
    NumeralIsClean(Magnitude(n), 10, false);
    NumeralHasValue(Magnitude(n), 10, false);
    NumeralStart(Magnitude(n), 10, false);
    WrittenHasNoSpace(n < 0, plus, Plain, digits, 10);
    TrimPadded(before, s, after);
    DecimalTakenApart(n < 0, plus, digits);
    if n == 0 {
      ZeroIsOctal();
      TakenApartReads(t, before + s + after, 0, Numeral(false, 8, digits[1..]), n);
    } else {
      CleanDigits(digits, 10);
      TakenApartReads(t, before + s + after, 0, Numeral(n < 0, 10, digits), n);
    }
  }

  lemma DecimalTakenApart(negative: bool, plus: bool, digits: string)
    requires digits != "" && AllClean(digits, 10)
    ensures TakeApartTrimmed(Written(negative, plus, Plain, digits), 0)
         == Some(if digits[0] == '0' then Numeral(negative, 8, digits[1..]) else Numeral(negative, 10, digits))
  {
    hide Digit, IsSpace;
    var s := Written(negative, plus, Plain, digits);
    assert IsClean(digits[0], 10);
    assert |digits| > 1 ==> IsClean(digits[1], 10);
    assert (if negative || plus then s[1..] else s) == digits;
  }

  lemma ZeroIsOctal()
    ensures NumeralOf(0, 10, false)[1..] == ""
    ensures GoodLength("", 8) == 0 && Value("", 8) == 0
  {
  }

  // ---------------------------------------------------------------- stray zeroes

  lemma {:induction false} LeadingZeroesAddNothing(s: string, k: nat, base: nat)
    requires k <= |s| && forall i :: 0 <= i < k ==> s[i] == '0'
    ensures Value(s[k..], base) == Value(s, base)
  {
    if k < |s| {
      LeadingZeroesAddNothing(s[..|s| - 1], k, base);
      assert s[..|s| - 1][k..] == s[k..][..|s| - 1 - k];
    } else if k > 0 {
      LeadingZeroesAddNothing(s[..k - 1], k - 1, base);
      assert s[..k - 1][k - 1..] == "" && s[k..] == "";
    }
  }

  /** What is left is a suffix, has the same value in every base, and no zero that could still go. */
  method ConsumeStrayLeadingZeroes(str: string) returns (r: string)
    ensures |r| <= |str| && r == str[|str| - |r|..]
    ensures forall i :: 0 <= i < |str| - |r| ==> str[i] == '0'
    ensures r != "" && r[0] == '0' ==> |r| == 1
    ensures str != "" ==> r != ""
    ensures forall base: nat :: Value(r, base) == Value(str, base)
  {
    r := str;
    if |str| > 1 && str[0] == '0' {
      var ptr := 1;
      while ptr != |str| && str[ptr] == '0'
        invariant 1 <= ptr <= |str| && forall i :: 0 <= i < ptr ==> str[i] == '0'
        decreases |str| - ptr
      {
        ptr := ptr + 1;
      }
      var remove := ptr;
      if remove == |str| {
        remove := remove - 1;
      }
      r := str[remove..];
      forall base: nat ensures Value(r, base) == Value(str, base) {
        LeadingZeroesAddNothing(str, remove, base);
      }
    }
  }
}
