/** base/file_path.cc as functions of strings, and the algebra they obey.

    `std::string::npos` is -1 wherever it is a search result; FindDriveLetter always answers npos, and
    adding to it wraps around. */
module PathAlgebra {
  import opened Bits

  const SEPARATOR := '/'
  const CURRENT := "."
  const PARENT := ".."
  const NUL := 0 as char
  const NPOS: nat := WORD - 1

  function FindDriveLetter(path: string): nat { NPOS }

  /** rfind of one character, -1 for npos. */
  function LastIndexOf(s: string, c: char): (i: int)
    ensures -1 <= i < |s|
    ensures i >= 0 ==> s[i] == c
    ensures forall k :: i < k < |s| ==> s[k] != c
  {
    if s == "" then -1
    else if s[|s| - 1] == c then |s| - 1
    else LastIndexOf(s[..|s| - 1], c)
  }

  predicate AllSeparators(p: string) {
    forall i :: 0 <= i < |p| ==> p[i] == SEPARATOR
  }

  predicate SeparatorFree(p: string) {
    SEPARATOR !in p
  }

  predicate IsAbsolute(p: string) {
    p != "" && p[0] == SEPARATOR
  }

  /** Drops trailing separators down to one character. */
  function StripAll(p: string): (q: string)
    ensures q <= p
  {
    if |p| > 1 && p[|p| - 1] == SEPARATOR then StripAll(p[..|p| - 1]) else p
  }

  /** StripTrailingSeparators: "//" alone keeps both its separators. */
  function Strip(p: string): (q: string)
    ensures q <= p
  {
    if p == "//" then p else StripAll(p)
  }

  function DirName(p: string): string {
    var q := Strip(p);
    var letter := FindDriveLetter(q);
    var last := LastIndexOf(q, SEPARATOR);
    var cut :=
      if last < 0 then q[..WrappedSum(letter, 1)]
      else if last == WrappedSum(letter, 1) then q[..WrappedSum(letter, 2)]
      else if last == WrappedSum(letter, 2) && q[WrappedSum(letter, 1)] == SEPARATOR then q[..WrappedSum(letter, 3)]
      else if last != 0 then q[..last]
      else q;
    var r := Strip(cut);
    if r == "" then CURRENT else r
  }

  function BaseName(p: string): string {
    var q := Strip(p);
    var last := LastIndexOf(q, SEPARATOR);
    if last >= 0 && last < |q| - 1 then q[last + 1..] else q
  }

  function UpToNul(s: string): (t: string)
    ensures t <= s && NUL !in t
    ensures |t| < |s| ==> s[|t|] == NUL
  {
    if s == "" || s[0] == NUL then "" else [s[0]] + UpToNul(s[1..])
  }

  /** FilePath::Append on a component that the DCHECK lets through. */
  function Append(p: string, component: string): string
    requires !IsAbsolute(UpToNul(component))
  {
    var appended := UpToNul(component);
    if p == CURRENT then appended
    else
      var q := Strip(p);
      if appended != "" && q != "" && q[|q| - 1] != SEPARATOR && WrappedSum(FindDriveLetter(q), 1) != |q|
      then q + [SEPARATOR] + appended
      else q + appended
  }

  // ---------------------------------------------------------------- the reference definition

  /** The non-empty pieces between separators. */
  function Segments(p: string): seq<string>
    decreases |p|
  {
    var last := LastIndexOf(p, SEPARATOR);
    if last < 0 then (if p == "" then [] else [p])
    else Segments(p[..last]) + if last + 1 == |p| then [] else [p[last + 1..]]
  }

  function LeadingSeparators(p: string): nat {
    if p == "" || p[0] != SEPARATOR then 0 else 1 + LeadingSeparators(p[1..])
  }

  /** The root component, if there is one: "//" for two or three leading separators before a segment. */
  function Root(p: string): seq<string> {
    var n := LeadingSeparators(p);
    if n == 0 then []
    else if p == "//" || ((n == 2 || n == 3) && n < |p|) then ["//"]
    else ["/"]
  }

  /** A leading "." segment of a relative path says nothing once another segment follows. */
  function WithoutDot(segments: seq<string>, absolute: bool): seq<string> {
    if !absolute && |segments| >= 2 && segments[0] == CURRENT then segments[1..] else segments
  }

  function Components(p: string): seq<string> {
    if p == "" || p == CURRENT then [] else Root(p) + WithoutDot(Segments(p), IsAbsolute(p))
  }

  // ---------------------------------------------------------------- stripping

  lemma {:induction false} StripAllFacts(p: string)
    ensures var q := StripAll(p);
            && (|q| > 1 ==> q[|q| - 1] != SEPARATOR)
            && (q == "" <==> p == "")
            && (forall k :: |q| <= k < |p| ==> p[k] == SEPARATOR)
            && (q == p <==> |p| <= 1 || p[|p| - 1] != SEPARATOR)
  {
    if |p| <= 1 || p[|p| - 1] != SEPARATOR {
    } else {
      StripAllFacts(p[..|p| - 1]);
    }
  }

  /** Stripping is idempotent and changes exactly the paths that end in a separator they can spare. */
  lemma StripIdempotent(p: string)
    ensures Strip(Strip(p)) == Strip(p)
    ensures Strip(p) == p <==> p == "//" || |p| <= 1 || p[|p| - 1] != SEPARATOR
  {
    StripAllFacts(p);
    StripAllFacts(StripAll(p));
  }

  lemma {:induction false} StripAllSegments(p: string)
    ensures Segments(StripAll(p)) == Segments(p)
    decreases |p|
  {
    if |p| <= 1 || p[|p| - 1] != SEPARATOR {
    } else {
      StripAllSegments(p[..|p| - 1]);
      assert LastIndexOf(p, SEPARATOR) == |p| - 1;
    }
  }

  lemma {:induction false} SegmentsEmpty(p: string)
    ensures Segments(p) == [] <==> AllSeparators(p)
    decreases |p|
  {
    var last := LastIndexOf(p, SEPARATOR);
    if last < 0 {
    } else {
      SegmentsEmpty(p[..last]);
      if last + 1 == |p| {
        assert forall i :: 0 <= i < last ==> p[..last][i] == p[i];
      }
    }
  }

  lemma {:induction false} SegmentsAreNames(p: string, i: nat)
    requires i < |Segments(p)|
    ensures var s := Segments(p)[i];
            s != "" && SeparatorFree(s) && (NUL !in p ==> NUL !in s)
    decreases |p|
  {
    var last := LastIndexOf(p, SEPARATOR);
    if last >= 0 && i < |Segments(p[..last])| {
      SegmentsAreNames(p[..last], i);
    }
  }

  /** A path without leading or trailing separator and with one segment is that segment. */
  lemma SingleSegment(p: string, s: string)
    requires p != "" && p[0] != SEPARATOR && p[|p| - 1] != SEPARATOR
    requires Segments(p) == [s]
    ensures p == s
  {
    var last := LastIndexOf(p, SEPARATOR);
    if last >= 0 {
      NotSeparators(p[..last]);
    }
  }

  lemma NotSeparators(p: string)
    requires p != "" && p[0] != SEPARATOR
    ensures |Segments(p)| > 0
  {
    SegmentsEmpty(p);
  }

  // ---------------------------------------------------------------- leading separators

  lemma {:induction false} LeadingFacts(p: string)
    ensures var n := LeadingSeparators(p);
            && n <= |p| && (forall k :: 0 <= k < n ==> p[k] == SEPARATOR)
            && (n < |p| ==> p[n] != SEPARATOR)
            && (n == |p| <==> AllSeparators(p))
  {
    if p == "" || p[0] != SEPARATOR {
    } else {
      LeadingFacts(p[1..]);
      assert forall k :: 1 <= k < |p| ==> p[k] == p[1..][k - 1];
    }
  }

  lemma LeadingIs(p: string, n: nat)
    requires n < |p| && p[n] != SEPARATOR && forall k :: 0 <= k < n ==> p[k] == SEPARATOR
    ensures LeadingSeparators(p) == n
  {
    LeadingFacts(p);
  }

  /** Cutting a path behind a segment keeps its leading separators. */
  lemma LeadingOfPrefix(d: string, p: string)
    requires d <= p && !AllSeparators(d)
    ensures LeadingSeparators(p) == LeadingSeparators(d) < |d|
  {
    LeadingFacts(d);
    LeadingIs(p, LeadingSeparators(d));
  }

  lemma StripOfSeparators(p: string)
    requires p != "" && AllSeparators(p)
    ensures Strip(p) == if p == "//" then p else "/"
  {
    StripAllFacts(p);
    if |StripAll(p)| > 1 {
      assert false;
    }
    assert StripAll(p) == [p[0]];
  }

  // ---------------------------------------------------------------- one step up

  lemma StripKeepsSegments(p: string)
    requires !AllSeparators(p)
    ensures var q := StripAll(p);
            && q == Strip(p) && q != "" && q[|q| - 1] != SEPARATOR
            && Segments(p) == Segments(q)
  {
    StripAllSegments(p);
    StripAllFacts(p);
    SegmentsEmpty(p);
    SegmentsEmpty(StripAll(p));
  }

  /** A path with a segment, seen as what comes before its last segment, and that segment. */
  lemma LastSegment(p: string) returns (q: string, last: int)
    requires !AllSeparators(p)
    ensures q == Strip(p) == StripAll(p) && q <= p && q != "" && q[|q| - 1] != SEPARATOR
    ensures last == LastIndexOf(q, SEPARATOR) < |q| - 1
    ensures BaseName(p) == q[last + 1..] && SeparatorFree(BaseName(p)) && BaseName(p) != ""
    ensures Segments(p) == Segments(q) == (if last < 0 then [] else Segments(q[..last])) + [BaseName(p)]
  {
    hide StripAll, AllSeparators, LastIndexOf, Strip, Segments;
    StripKeepsSegments(p);
    q := StripAll(p);
    last := LastIndexOf(q, SEPARATOR);
    SegmentsAtEnd(q);
    BaseNameAtEnd(p);
  }

  lemma SegmentsAtEnd(q: string)
    requires q != "" && q[|q| - 1] != SEPARATOR
    ensures var last := LastIndexOf(q, SEPARATOR);
            && last < |q| - 1
            && Segments(q) == (if last < 0 then [] else Segments(q[..last])) + [q[last + 1..]]
  {
    hide LastIndexOf;
    assert q[0..] == q;
  }

  lemma BaseNameAtEnd(p: string)
    requires Strip(p) != "" && Strip(p)[|Strip(p)| - 1] != SEPARATOR
    ensures var last := LastIndexOf(Strip(p), SEPARATOR);
            BaseName(p) == Strip(p)[last + 1..] && SeparatorFree(BaseName(p)) && BaseName(p) != ""
  {
    hide LastIndexOf, Strip;
    var q, last := Strip(p), LastIndexOf(Strip(p), SEPARATOR);
    assert BaseName(p) == q[last + 1..];
    forall i | 0 <= i < |BaseName(p)| ensures BaseName(p)[i] != SEPARATOR {
      assert BaseName(p)[i] == q[last + 1 + i];
    }
  }

  /** DirName without the arithmetic on npos. */
  lemma DirNameCuts(p: string, q: string, last: int)
    requires q == Strip(p) && last == LastIndexOf(q, SEPARATOR) < |q| - 1
    ensures var cut := if last < 0 then ""
                       else if last == 0 || (last == 1 && q[0] == SEPARATOR) then q[..last + 1]
                       else q[..last];
            DirName(p) == if Strip(cut) == "" then CURRENT else Strip(cut)
  {
    hide LastIndexOf, Strip;
    assert q[..0] == "";
  }

  lemma DirNameOfSegment(p: string, q: string, last: int)
    requires q == Strip(p) && last == LastIndexOf(q, SEPARATOR) < |q| - 1
    ensures last < 0 ==> DirName(p) == CURRENT
    ensures last == 0 ==> DirName(p) == "/"
    ensures last > 0 && !AllSeparators(q[..last]) ==> DirName(p) == StripAll(q[..last])
    ensures last > 0 && AllSeparators(q[..last]) ==> DirName(p) == if last <= 2 then "//" else "/"
  {
    DirNameCuts(p, q, last);
    hide LastIndexOf, DirName;
    if last == 0 {
      assert q[..1] == "/";
    } else if last > 0 {
      var x := q[..last];
      StripAllFacts(x);
      if AllSeparators(x) {
        StripOfSeparators(x);
        if last <= 2 {
          assert q[..2] == "//";
          assert last == 2 ==> x == "//";
        }
      } else {
        assert last == 1 ==> q[0] == x[0] != SEPARATOR;
      }
    }
  }

  lemma DirNameOfSeparators(p: string)
    requires p != "" && AllSeparators(p)
    ensures DirName(p) == BaseName(p) == Strip(p) == if p == "//" then "//" else "/"
  {
    StripOfSeparators(p);
    assert "//"[..2] == "//" && "/"[..1] == "/";
    assert LastIndexOf("//", SEPARATOR) == 1 && LastIndexOf("/", SEPARATOR) == 0;
  }

  /** Going up never lengthens a path, and only reaching "." can leave the length alone. */
  lemma DirNameShortens(p: string)
    requires p != ""
    ensures DirName(p) != ""
    ensures DirName(p) == p || |DirName(p)| < |p| || (|DirName(p)| == |p| && DirName(p) == CURRENT)
  {
    if AllSeparators(p) {
      DirNameOfSeparators(p);
      assert |p| == 1 ==> p == "/";
    } else {
      hide DirName, Strip, StripAll, AllSeparators;
      var q, last := LastSegment(p);
      DirNameOfSegment(p, q, last);
      if last > 0 {
        StripAllFacts(q[..last]);
        PrefixOfStrip(q[..last]);
      }
    }
  }

  lemma PrefixOfStrip(x: string)
    ensures |StripAll(x)| <= |x|
  {
  }

  /** What the loop of GetComponents pushes for a base name, and what is pushed after it. */
  function Pushed(base: string): seq<string> {
    if AllSeparators(base) then [] else [base]
  }

  function PushedLast(base: string): seq<string> {
    if base != "" && base != CURRENT then [base] else []
  }

  /** The components as GetComponents finds them, from the end of the path up to a fixed point. */
  function Walk(current: string): seq<string>
    requires current != ""
    decreases |current|, if current == CURRENT then 0 else 1
  {
    DirNameShortens(current);
    if current == DirName(current) then PushedLast(BaseName(current))
    else Walk(DirName(current)) + Pushed(BaseName(current))
  }

  /** The fixed points of DirName. */
  lemma FixedPoints(p: string)
    requires p != ""
    ensures DirName(p) == p <==> p == CURRENT || p == "/" || p == "//"
  {
    if AllSeparators(p) {
      DirNameOfSeparators(p);
    } else {
      SegmentFixedPoint(p);
    }
  }

  lemma SegmentFixedPoint(p: string)
    requires !AllSeparators(p)
    ensures p != "/" && p != "//"
    ensures DirName(p) == p <==> p == CURRENT
  {
    var q, last := LastSegment(p);
    DirNameOfSegment(p, q, last);
    hide DirName, Strip, StripAll, BaseName, Segments;
    if last > 0 {
      PrefixOfStrip(q[..last]);
      assert |q| >= 3 && |DirName(p)| < |p|;
    } else if last == 0 {
      assert p[0] == SEPARATOR;
    }
  }

  lemma ComponentsAtFixedPoint(p: string)
    requires p == CURRENT || p == "/" || p == "//"
    ensures Components(p) == PushedLast(BaseName(p))
  {
    if p == CURRENT {
      assert BaseName(CURRENT) == CURRENT;
    } else {
      DirNameOfSeparators(p);
      SegmentsEmpty(p);
      assert LeadingSeparators("/") == 1 && LeadingSeparators("//") == 2;
    }
  }

  // ---------------------------------------------------------------- GetComponents is splitting

  lemma WithoutDotAppend(segments: seq<string>, absolute: bool, s: string)
    requires absolute || segments != [CURRENT]
    ensures WithoutDot(segments + [s], absolute) == WithoutDot(segments, absolute) + [s]
  {
    if |segments| >= 2 {
      assert (segments + [s])[1..] == segments[1..] + [s];
    }
  }

  /** The last segment stands behind nothing but separators. */
  lemma StepUpToRoot(p: string, q: string, last: int)
    requires !AllSeparators(p) && q == Strip(p) && q <= p
    requires 0 <= last == LastIndexOf(q, SEPARATOR) < |q| - 1 && AllSeparators(q[..last])
    requires Segments(p) == Segments(q[..last]) + [BaseName(p)]
    ensures Components(p) == Components(DirName(p)) + [BaseName(p)]
  {
    hide Strip, StripAll, BaseName, DirName, Segments, Components;
    DirNameOfSegment(p, q, last);
    SegmentsEmpty(q[..last]);
    LeadingIs(p, last + 1);
    assert p[0] == SEPARATOR;
    ComponentsBelowRoot(p, BaseName(p));
    RootComponents();
  }

  lemma ComponentsBelowRoot(p: string, s: string)
    requires 0 < LeadingSeparators(p) < |p| && p[0] == SEPARATOR && Segments(p) == [s]
    ensures Components(p) == [if LeadingSeparators(p) in {2, 3} then "//" else "/", s]
  {
    hide Segments;
    LeadingFacts(p);
    hide LeadingSeparators;
    assert p[LeadingSeparators(p)] != SEPARATOR;
    assert p != "//";
  }

  lemma RootComponents()
    ensures Components("/") == ["/"] && Components("//") == ["//"]
  {
    SegmentsEmpty("/");
    SegmentsEmpty("//");
    assert LeadingSeparators("/") == 1 && LeadingSeparators("//") == 2;
  }

  /** The last segment stands behind another one. */
  lemma StepUpToSegment(p: string, q: string, last: int)
    requires !AllSeparators(p) && q == Strip(p) && q <= p
    requires 0 < last == LastIndexOf(q, SEPARATOR) < |q| - 1 && !AllSeparators(q[..last])
    requires Segments(p) == Segments(q[..last]) + [BaseName(p)]
    ensures Components(p) == Components(DirName(p)) + [BaseName(p)]
  {
    hide Strip, BaseName, DirName, StripAll, Segments, LeadingSeparators;
    var x := q[..last];
    var d := StripAll(x);
    DirNameOfSegment(p, q, last);
    StripKeepsSegments(x);
    SegmentsEmpty(x);
    SegmentsEmpty(d);
    assert d <= p;
    LeadingOfPrefix(d, p);
    var b := BaseName(p);
    assert p[0] == d[0];
    if !IsAbsolute(d) && Segments(d) == [CURRENT] {
      SingleSegment(d, CURRENT);
    } else {
      assert d != CURRENT by {
        if d == CURRENT {
          SingleDot();
        }
      }
      WithoutDotAppend(Segments(d), IsAbsolute(d), b);
    }
    assert p != CURRENT && p != "//" && d != "//";
    assert Root(p) == Root(d);
  }

  lemma SingleDot()
    ensures Segments(CURRENT) == [CURRENT]
  {
  }

  lemma StepUpFromSeparators(p: string)
    requires p != "" && AllSeparators(p) && DirName(p) != p
    ensures Components(p) == Components(DirName(p)) + Pushed(BaseName(p))
  {
    hide Strip, StripAll;
    DirNameOfSeparators(p);
    SegmentsEmpty(p);
    LeadingFacts(p);
    FixedPoints(p);
    SegmentsEmpty("/");
    hide DirName, BaseName, Segments;
    assert LeadingSeparators("/") == 1;
    assert AllSeparators(BaseName(p));
  }

  /** A relative path of one segment stands below the current directory. */
  lemma StepUpFromName(p: string)
    requires !AllSeparators(p) && p[0] != SEPARATOR && DirName(p) != p && DirName(p) == CURRENT
    requires Segments(p) == [BaseName(p)]
    ensures Components(p) == Components(DirName(p)) + [BaseName(p)]
  {
    hide DirName, BaseName, Segments;
    assert LeadingSeparators(p) == 0;
  }

  lemma StepUp(p: string)
    requires p != "" && DirName(p) != p
    ensures Components(p) == Components(DirName(p)) + Pushed(BaseName(p))
  {
    if AllSeparators(p) {
      StepUpFromSeparators(p);
    } else {
      hide Strip, StripAll, Segments, BaseName, DirName, Components, LastIndexOf;
      var q, last := LastSegment(p);
      DirNameOfSegment(p, q, last);
      assert !AllSeparators(BaseName(p)) by {
        assert BaseName(p)[0] != SEPARATOR;
      }
      if last < 0 {
        assert p[0] == q[0];
        StepUpFromName(p);
      } else if AllSeparators(q[..last]) {
        StepUpToRoot(p, q, last);
      } else {
        StepUpToSegment(p, q, last);
      }
    }
  }

  /** The loop of GetComponents splits the path. */
  lemma {:induction false} WalkIsComponents(p: string)
    requires p != ""
    ensures Walk(p) == Components(p)
    decreases |p|, if p == CURRENT then 0 else 1
  {
    hide Components, DirName, BaseName;
    DirNameShortens(p);
    FixedPoints(p);
    if DirName(p) == p {
      ComponentsAtFixedPoint(p);
    } else {
      StepUp(p);
      WalkIsComponents(DirName(p));
    }
  }
}
