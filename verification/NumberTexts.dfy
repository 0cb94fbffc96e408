/** Exactly which texts the parsers of base/numbers.cc read, and as what. */
module NumberTexts {
  import opened Wrappers
  import opened Bits
  import opened Numbers

  /** A text, written as white space, sign, prefix, digits and white space. */
  datatype Writing = Writing(before: string, negative: bool, plus: bool, p: Prefix, digits: string, after: string) {
    function Core(): string {
      Written(negative, plus, p, digits)
    }

    function Text(): string {
      before + Core() + after
    }

    function Rest(): string {
      p.Text() + digits
    }

    /** What stands between the white space begins and ends with something else. */
    predicate Placed() {
      && AllSpaces(before) && AllSpaces(after)
      && Core() != "" && !IsSpace(Core()[0]) && !IsSpace(Core()[|Core()| - 1])
    }

    /** The prefix is one that the base argument calls for, and something follows it where it must. */
    predicate WellFormed(base: int) {
      && !(negative && plus)
      && Rest() != "" && (negative || plus || (Rest()[0] != '-' && Rest()[0] != '+'))
      && match p
         case Plain => if base == 0 then digits[0] != '0' else 2 <= base <= 36 && !(base == 16 && HasHexPrefix(digits))
         case Hex(x) => (x == 'x' || x == 'X') && (base == 0 || base == 16) && digits != ""
         case Octal => base == 0 && !HasHexPrefix(Rest())
    }

    function Radix(base: int): int {
      match p
      case Plain => if base == 0 then 10 else base
      case Hex(_) => 16
      case Octal => 8
    }
  }

  lemma SignComesOff(w: Writing, base: int)
    requires !(w.negative && w.plus) && w.Rest() != ""
    requires w.negative || w.plus || (w.Rest()[0] != '-' && w.Rest()[0] != '+')
    ensures TakeApartTrimmed(w.Core(), base) == AfterSign(w.negative, w.Rest(), base)
  {
    hide AfterSign, Prefix.Text;
    var s, rest := w.Core(), w.Rest();
    assert s == (if w.negative then "-" else if w.plus then "+" else "") + rest;
    assert (if w.negative || w.plus then s[1..] else s) == rest;
  }

  lemma PrefixComesOff(w: Writing, base: int)
    requires w.WellFormed(base)
    ensures AfterSign(w.negative, w.Rest(), base) == Some(Numeral(w.negative, w.Radix(base), w.digits))
  {
    hide Written;
    var rest := w.Rest();
    match w.p
    case Plain => assert rest == w.digits;
    case Hex(x) => assert rest[2..] == w.digits && rest[0] == '0' && rest[1] == x;
    case Octal => assert rest[1..] == w.digits && rest[0] == '0';
  }

  lemma CoreTaken(w: Writing, base: int)
    requires w.WellFormed(base)
    ensures TakeApartTrimmed(w.Core(), base) == Some(Numeral(w.negative, w.Radix(base), w.digits))
  {
    hide TakeApartTrimmed, AfterSign, Written, HasHexPrefix;
    SignComesOff(w, base);
    PrefixComesOff(w, base);
  }

  lemma PrefixFound(negative: bool, rest: string, base: int, n: Numeral) returns (p: Prefix)
    requires AfterSign(negative, rest, base) == Some(n)
    ensures p.Text() + n.digits == rest && n.negative == negative
    ensures match p
            case Plain => n.digits != "" && (if base == 0 then n.digits[0] != '0' && n.base == 10
                                             else 2 <= base <= 36 && n.base == base
                                                  && !(base == 16 && HasHexPrefix(n.digits)))
            case Hex(x) => (x == 'x' || x == 'X') && (base == 0 || base == 16) && n.digits != "" && n.base == 16
            case Octal => base == 0 && !HasHexPrefix(rest) && n.base == 8
  {
    if (base == 0 || base == 16) && HasHexPrefix(rest) {
      p := Hex(rest[1]);
      assert rest == ['0', rest[1]] + rest[2..];
    } else if base == 0 && rest[0] == '0' {
      p := Octal;
      assert rest == "0" + rest[1..];
    } else {
      p := Plain;
      assert rest == "" + rest;
    }
  }

  lemma TakenCore(s: string, base: int, n: Numeral) returns (w: Writing)
    requires TakeApartTrimmed(s, base) == Some(n)
    ensures w.Core() == s && w.before == w.after == "" && w.WellFormed(base)
    ensures n == Numeral(w.negative, w.Radix(base), w.digits)
  {
    hide AfterSign, HasHexPrefix;
    var negative, plus := s[0] == '-', s[0] == '+';
    var rest := if negative || plus then s[1..] else s;
    NothingAfterSign(negative, base);
    assert s == (if negative then "-" else if plus then "+" else "") + rest;
    var p := PrefixFound(negative, rest, base, n);
    w := Writing("", negative, plus, p, n.digits, "");
    Regroup(if negative then "-" else if plus then "+" else "", p.Text(), n.digits);
  }

  lemma NothingAfterSign(negative: bool, base: int)
    ensures AfterSign(negative, "", base) == None
  {
  }

  lemma Regroup(a: string, b: string, c: string)
    ensures a + b + c == a + (b + c)
  {
  }

  lemma {:induction false} TrimLeftSplits(s: string) returns (before: string)
    ensures s == before + TrimLeft(s) && AllSpaces(before)
    ensures TrimLeft(s) != "" ==> !IsSpace(TrimLeft(s)[0])
  {
    before := "";
    if s == "" || !IsSpace(s[0]) {
    } else {
      var rest := TrimLeftSplits(s[1..]);
      before := [s[0]] + rest;
    }
  }

  lemma {:induction false} TrimRightSplits(s: string) returns (after: string)
    ensures s == TrimRight(s) + after && AllSpaces(after)
    ensures TrimRight(s) != "" ==> !IsSpace(TrimRight(s)[|TrimRight(s)| - 1]) && TrimRight(s)[0] == s[0]
  {
    after := "";
    if s == "" || !IsSpace(s[|s| - 1]) {
    } else {
      var rest := TrimRightSplits(s[..|s| - 1]);
      after := rest + [s[|s| - 1]];
    }
  }

  /** Sign, prefix and digits are found exactly where the text has them. */
  lemma TakenApartExactly(text: string, base: int, n: Numeral)
    ensures TakeApart(text, base) == Some(n) <==>
            exists w: Writing :: w.Placed() && w.WellFormed(base) && w.Text() == text
                                 && n == Numeral(w.negative, w.Radix(base), w.digits)
  {
    if TakeApart(text, base) == Some(n) {
      var w := Found(text, base, n);
    }
    if w: Writing :| w.Placed() && w.WellFormed(base) && w.Text() == text
                     && n == Numeral(w.negative, w.Radix(base), w.digits) {
      TrimPadded(w.before, w.Core(), w.after);
      CoreTaken(w, base);
    }
  }

  lemma Found(text: string, base: int, n: Numeral) returns (w: Writing)
    requires TakeApart(text, base) == Some(n)
    ensures w.Placed() && w.WellFormed(base) && w.Text() == text
    ensures n == Numeral(w.negative, w.Radix(base), w.digits)
  {
    hide IsSpace, TrimLeft, TrimRight, TakeApartTrimmed, HasHexPrefix;
    var before := TrimLeftSplits(text);
    var after := TrimRightSplits(TrimLeft(text));
    var s := TrimRight(TrimLeft(text));
    NothingToTake(base);
    var core := TakenCore(s, base, n);
    w := core.(before := before, after := after);
    assert w.Core() == s && w.Rest() == core.Rest();
    assert text == before + (s + after) == before + s + after;
  }

  lemma NothingToTake(base: int)
    ensures TakeApartTrimmed("", base) == None
  {
  }

  /** This text, in this base, is a numeral of the type with the value v. */
  predicate Reads(w: Writing, t: IntType, text: string, base: int, v: int) {
    && w.Placed() && w.WellFormed(base) && w.Text() == text
    && AllDigits(w.digits, w.Radix(base))
    && (w.negative ==> t.Min() < 0)
    && v == (if w.negative then 0 - Value(w.digits, w.Radix(base)) else Value(w.digits, w.Radix(base)))
    && t.Fits(v)
  }

  /** Success with v if and only if the text is a numeral with that value: nothing else is accepted, and
      nothing of the kind is refused. */
  lemma ReadsExactly(t: IntType, text: string, base: int, v: int)
    ensures SafeInt(t, text, base) == (true, v) <==> exists w: Writing :: Reads(w, t, text, base, v)
  {
    hide TakeApart, SafeInt, Writing.Placed, Writing.WellFormed, Value, AllDigits;
    SafeIntExact(t, text, base);
    if SafeInt(t, text, base) == (true, v) {
      var w := Found(text, base, TakeApart(text, base).value);
      assert Reads(w, t, text, base, v);
    }
    if w: Writing :| Reads(w, t, text, base, v) {
      RadixInRange(w, base);
      TakenApartExactly(text, base, Numeral(w.negative, w.Radix(base), w.digits));
    }
  }

  lemma RadixInRange(w: Writing, base: int)
    requires w.WellFormed(base)
    ensures 2 <= w.Radix(base) <= 36
  {
  }

  /** The value left behind, whatever the outcome: the value of the digits up to the first that is none,
      but no further than the limit of the type, and 0 when there is nothing to read. */
  lemma ValueLeft(t: IntType, text: string, base: int, k: nat)
    requires var n := TakeApart(text, base);
             n.Some? ==>
               var s, b := n.value.digits, n.value.base;
               k <= |s| && AllDigits(s[..k], b) && (k < |s| ==> Digit(s[k]) >= b)
    ensures var n, r := TakeApart(text, base), SafeInt(t, text, base);
            if n.None? || (n.value.negative && t.Min() == 0) then r == (false, 0)
            else
              var v := Value(n.value.digits[..k], n.value.base);
              && r.1 == (if n.value.negative then (if 0 - v < t.Min() then t.Min() else 0 - v)
                         else if v > t.Max() then t.Max() else v)
              && (r.0 <==> k == |n.value.digits| && (if n.value.negative then 0 - v >= t.Min() else v <= t.Max()))
  {
    hide TakeApart;
    var n := TakeApart(text, base);
    if n.Some? {
      GoodLengthIs(n.value.digits, n.value.base, k);
    }
  }

  // ---------------------------------------------------------------- the tables and limits

  /** The digits are the letters and figures, and nothing else is one in any base. */
  lemma DigitsAreAlphanumeric(c: char)
    ensures Digit(c) < 36 <==> '0' <= c <= '9' || 'A' <= c <= 'Z' || 'a' <= c <= 'z'
    ensures Digit(c) < 36 ==> c in {DigitChar(Digit(c), false), DigitChar(Digit(c), true)}
  {
  }

  lemma SpacesAreTheSix(c: char)
    ensures IsSpace(c) <==> c as int in {9, 10, 11, 12, 13, 32}
  {
  }

  lemma LimitsArePowers()
    ensures I32.Min() == 0 - Pow2(31) && I32.Max() == Pow2(31) - 1
    ensures I64.Min() == 0 - Pow2(63) && I64.Max() == Pow2(63) - 1
    ensures U32.Min() == 0 && U32.Max() == Pow2(32) - 1
    ensures U64.Min() == 0 && U64.Max() == Pow2(64) - 1
  {
    Words();
    assert Pow2(32) == 2 * Pow2(31) && Pow2(64) == 2 * Pow2(63);
  }

  // ---------------------------------------------------------------- texts that are not numerals

  /** No sign alone, no second sign, no prefix alone, no digit of a greater base, and no odd base. */
  lemma Refused(t: IntType)
    ensures SafeInt(t, "", 10) == SafeInt(t, "-", 10) == SafeInt(t, "+", 10) == (false, 0)
    ensures SafeInt(t, "0x", 16) == SafeInt(t, "0x", 0) == SafeInt(t, "-0X", 0) == (false, 0)
    ensures SafeInt(t, "7", 1) == SafeInt(t, "7", 37) == (false, 0)
    ensures !SafeInt(t, "--5", 10).0 && !SafeInt(t, "5a", 10).0 && !SafeInt(t, "08", 0).0
  {
    BadDigit(t, "--5", 10, Numeral(true, 10, "-5"), 0);
    BadDigit(t, "5a", 10, Numeral(false, 10, "5a"), 1);
    BadDigit(t, "08", 0, Numeral(false, 8, "8"), 0);
  }

  lemma BadDigit(t: IntType, text: string, base: int, n: Numeral, k: nat)
    requires TakeApart(text, base) == Some(n)
    requires k < |n.digits| && AllDigits(n.digits[..k], n.base) && Digit(n.digits[k]) >= n.base
    ensures !SafeInt(t, text, base).0
  {
    hide TakeApart;
    ValueLeft(t, text, base, k);
  }
}
