/** Extension and RemoveExtension of base/file_path.cc.  One looks at the base name only, the other at
    the whole path; the lemmas say when the two agree. */
module PathExtension {
  import opened PathAlgebra
  import opened PathAppend

  const DOT := '.'

  function ToLowerASCII(c: char): char {
    if 'A' <= c <= 'Z' then ((c as int) - ('A' as int) + ('a' as int)) as char else c
  }

  predicate LowerCaseEquals(s: string, lower: string) {
    |s| == |lower| && forall i :: 0 <= i < |s| ==> ToLowerASCII(s[i]) == lower[i]
  }

  predicate IsCommonDoubleExtension(extension: string) {
    LowerCaseEquals(extension, "gz") || LowerCaseEquals(extension, "z") || LowerCaseEquals(extension, "bz2")
  }

  /** The start of a double extension like ".tar.gz", given its last dot. */
  function DoubleExtensionStart(path: string, last: nat): (dot: int)
    requires last < |path|
    ensures 0 <= dot <= last
  {
    var penultimate := LastIndexOf(path[..last], DOT);
    var separator := LastIndexOf(path[..last], SEPARATOR);
    if penultimate >= 0 && (separator < 0 || penultimate > separator) && 1 < last - penultimate <= 5
    then penultimate
    else last
  }

  /** Where the extension starts, -1 for npos. */
  function ExtensionSeparatorPosition(path: string): (dot: int)
    ensures -1 <= dot < |path|
  {
    if path == CURRENT || path == PARENT then -1
    else
      var last := LastIndexOf(path, DOT);
      if last <= 0 || !IsCommonDoubleExtension(path[last + 1..]) then last
      else DoubleExtensionStart(path, last)
  }

  function Extension(p: string): string {
    var base := BaseName(p);
    var dot := ExtensionSeparatorPosition(base);
    if dot < 0 then "" else base[dot..]
  }

  function RemoveExtension(p: string): string {
    if Extension(p) == "" then p
    else
      var dot := ExtensionSeparatorPosition(p);
      if dot < 0 then p else UpToNul(p[..dot])
  }

  lemma LastIndexOfSuffix(d: string, b: string, c: char)
    ensures LastIndexOf(d + b, c) == if LastIndexOf(b, c) >= 0 then |d| + LastIndexOf(b, c) else LastIndexOf(d, c)
  {
    var i := LastIndexOf(b, c);
    LastIndexIs(d + b, c, if i >= 0 then |d| + i else LastIndexOf(d, c));
  }

  lemma DoubleBehindDirectory(d: string, b: string, inner: nat)
    requires d != "" && d[|d| - 1] == SEPARATOR && SeparatorFree(b) && inner < |b|
    ensures DoubleExtensionStart(d + b, |d| + inner) == |d| + DoubleExtensionStart(b, inner)
  {
    hide LastIndexOf;
    var front := b[..inner];
    assert (d + b)[..|d| + inner] == d + front;
    LastIndexOfSuffix(d, front, DOT);
    LastIndexOfSuffix(d, front, SEPARATOR);
    LastIndexIs(d, SEPARATOR, |d| - 1);
    LastIndexIs(front, SEPARATOR, -1);
    DotIsNoSeparator(d);
  }

  lemma DotIsNoSeparator(d: string)
    requires d != "" && d[|d| - 1] == SEPARATOR
    ensures LastIndexOf(d, DOT) < |d| - 1
  {
  }

  /** Behind a directory the extension of a name is where it is in the name alone: neither the dots nor
      the separators of the directory are looked at. */
  lemma PositionBehindDirectory(d: string, b: string)
    requires d != "" && d[|d| - 1] == SEPARATOR && SeparatorFree(b)
    requires b != CURRENT && b != PARENT && LastIndexOf(b, DOT) >= 0
    ensures ExtensionSeparatorPosition(d + b) == |d| + ExtensionSeparatorPosition(b)
  {
    hide LastIndexOf, IsCommonDoubleExtension, DoubleExtensionStart;
    var p := d + b;
    var inner := LastIndexOf(b, DOT);
    LastIndexOfSuffix(d, b, DOT);
    NotDots(d, b);
    assert p[|d| + inner + 1..] == b[inner + 1..];
    DoubleBehindDirectory(d, b, inner);
    DoubleOfHiddenFile(b);
  }

  lemma NotDots(d: string, b: string)
    requires d != "" && d[|d| - 1] == SEPARATOR
    ensures d + b != CURRENT && d + b != PARENT
  {
    assert (d + b)[|d| - 1] == SEPARATOR;
  }

  lemma DoubleOfHiddenFile(b: string)
    requires b != ""
    ensures DoubleExtensionStart(b, 0) == 0
  {
  }

  /** The base name as the tail of a path that does not end in a separator. */
  lemma BaseIsTail(p: string) returns (d: string)
    requires p != "" && p[|p| - 1] != SEPARATOR
    ensures p == d + BaseName(p) && SeparatorFree(BaseName(p)) && BaseName(p) != ""
    ensures d == "" || d[|d| - 1] == SEPARATOR
  {
    hide LastIndexOf, Strip, BaseName, SeparatorFree;
    var last := LastIndexOf(p, SEPARATOR);
    BaseOfStripped(p, last);
    d := p[..last + 1];
  }

  lemma BaseOfStripped(p: string, last: int)
    requires p != "" && p[|p| - 1] != SEPARATOR && last == LastIndexOf(p, SEPARATOR)
    ensures -1 <= last < |p| - 1 && BaseName(p) == p[last + 1..] && SeparatorFree(BaseName(p)) && BaseName(p) != ""
  {
    hide LastIndexOf, BaseName, SeparatorFree;
    StripIdempotent(p);
    hide Strip;
    BaseNameAtEnd(p);
  }

  /** Removing the extension and putting it back gives the path again, exactly when there is no
      extension or no separator behind it. */
  lemma ExtensionPartsRejoin(p: string)
    requires NUL !in p
    ensures RemoveExtension(p) + Extension(p) == p <==>
            Extension(p) == "" || p == "" || p[|p| - 1] != SEPARATOR
  {
    hide BaseName, ExtensionSeparatorPosition;
    if Extension(p) != "" && p != "" {
      if p[|p| - 1] == SEPARATOR {
        ExtensionEndsInName(p);
      } else {
        RejoinBehindDirectory(p);
      }
    } else if p == "" {
      NoExtensionOfNothing();
    }
  }

  lemma NoExtensionOfNothing()
    ensures Extension("") == ""
  {
  }

  lemma PositionInPath(p: string) returns (d: string)
    requires p != "" && p[|p| - 1] != SEPARATOR && ExtensionSeparatorPosition(BaseName(p)) >= 0
    ensures p == d + BaseName(p)
    ensures ExtensionSeparatorPosition(p) == |d| + ExtensionSeparatorPosition(BaseName(p))
  {
    hide BaseName, LastIndexOf, ExtensionSeparatorPosition;
    d := BaseIsTail(p);
    var b := BaseName(p);
    PositionMeansDot(b);
    if d == "" {
      assert p == b;
    } else {
      PositionBehindDirectory(d, b);
    }
  }

  lemma RejoinBehindDirectory(p: string)
    requires NUL !in p && p != "" && p[|p| - 1] != SEPARATOR && Extension(p) != ""
    ensures RemoveExtension(p) + Extension(p) == p
  {
    hide BaseName, UpToNul, ExtensionSeparatorPosition;
    var d := PositionInPath(p);
    var b := BaseName(p);
    var k := ExtensionSeparatorPosition(p);
    NoNul(p[..k]);
    assert p[k..] == b[k - |d|..];
    assert p[..k] + p[k..] == p;
  }

  lemma PositionMeansDot(b: string)
    requires ExtensionSeparatorPosition(b) >= 0
    ensures b != CURRENT && b != PARENT && LastIndexOf(b, DOT) >= 0
  {
  }

  lemma ExtensionEndsInName(p: string)
    requires p != "" && p[|p| - 1] == SEPARATOR && Extension(p) != ""
    ensures RemoveExtension(p) + Extension(p) != p
  {
    hide BaseName, Segments, StripAll, Strip;
    var base, e := BaseName(p), Extension(p);
    BaseHasNoEnd(p);
    assert e[|e| - 1] == base[|base| - 1];
    assert (RemoveExtension(p) + e)[|RemoveExtension(p) + e| - 1] == e[|e| - 1];
  }

  lemma BaseHasNoEnd(p: string)
    requires p != "" && ExtensionSeparatorPosition(BaseName(p)) >= 0
    ensures var base := BaseName(p); base != "" && base[|base| - 1] != SEPARATOR
  {
    hide BaseName, StripAll, Strip;
    if AllSeparators(p) {
      DirNameOfSeparators(p);
      PositionMeansDot(BaseName(p));
      LastIndexIs("/", DOT, -1);
      LastIndexIs("//", DOT, -1);
    } else {
      var q, last := LastSegment(p);
    }
  }

  /** The smallest path whose parts do not rejoin: the separator at the end is lost. */
  lemma TrailingSeparatorIsLost()
    ensures Extension("a.b/") == ".b" && RemoveExtension("a.b/") == "a"
    ensures RemoveExtension("a.b/") + Extension("a.b/") != "a.b/"
  {
    hide LastIndexOf;
    var p, base := "a.b/", "a.b";
    assert p[..3] == base && StripAll(p) == StripAll(base) == base;
    LastIndexIs(base, SEPARATOR, -1);
    assert BaseName(p) == base;
    hide BaseName, StripAll, Strip;
    LastIndexIs(base, DOT, 1);
    LastIndexIs(p, DOT, 1);
    assert base[2..] == "b" && p[2..] == "b/";
    assert ExtensionSeparatorPosition(base) == ExtensionSeparatorPosition(p) == 1;
    assert base[1..] == ".b" && p[..1] == "a";
    NoNul("a");
  }

  // ---------------------------------------------------------------- which extension a name has

  /** The suffixes that may stand behind another extension, in any case. */
  lemma CommonDoubleExtensions(e: string)
    ensures IsCommonDoubleExtension(e) <==>
            e in {"gz", "gZ", "Gz", "GZ", "z", "Z", "bz2", "bZ2", "Bz2", "BZ2"}
  {
    if IsCommonDoubleExtension(e) {
      if |e| == 1 {
        assert e == [e[0]];
      } else if |e| == 2 {
        assert e == [e[0], e[1]];
      } else {
        assert e == [e[0], e[1], e[2]];
      }
    }
  }

  /** A name with a dot, seen as what comes before its last dot and what comes behind.  The extension starts
      at the last dot, or at the one before if a common suffix follows a piece of one to four characters. */
  lemma ExtensionOfName(stem: string, e: string)
    requires SeparatorFree(stem + [DOT] + e) && DOT !in e
    requires stem + [DOT] + e != CURRENT && stem + [DOT] + e != PARENT
    ensures var b, k := stem + [DOT] + e, LastIndexOf(stem, DOT);
            Extension(b) == if k >= 0 && IsCommonDoubleExtension(e) && 1 <= |stem| - k - 1 <= 4 then b[k..] else b[|stem|..]
  {
    hide LastIndexOf, BaseName, DoubleExtensionStart, IsCommonDoubleExtension;
    var b := stem + [DOT] + e;
    NameIsItsBase(b);
    LastDotOfName(stem, e);
    if IsCommonDoubleExtension(e) {
      DoubleInName(stem, e);
    }
  }

  lemma LastDotOfName(stem: string, e: string)
    requires DOT !in e
    ensures var b := stem + [DOT] + e;
            LastIndexOf(b, DOT) == |stem| && b[|stem| + 1..] == e && b[..|stem|] == stem
            && (|stem| == 0 ==> b[0..] == b)
  {
    hide LastIndexOf;
    var b := stem + [DOT] + e;
    assert forall i :: |stem| < i < |b| ==> b[i] == e[i - |stem| - 1];
    LastIndexIs(b, DOT, |stem|);
  }

  lemma DoubleInName(stem: string, e: string)
    requires SeparatorFree(stem + [DOT] + e)
    ensures var b, k := stem + [DOT] + e, LastIndexOf(stem, DOT);
            DoubleExtensionStart(b, |stem|) == if k >= 0 && 1 <= |stem| - k - 1 <= 4 then k else |stem|
  {
    hide LastIndexOf;
    var b := stem + [DOT] + e;
    assert b[..|stem|] == stem;
    forall i | 0 <= i < |stem| ensures stem[i] != SEPARATOR {
      assert stem[i] == b[i];
    }
    LastIndexIs(stem, SEPARATOR, -1);
  }

  lemma NoExtensionOfName(b: string)
    requires SeparatorFree(b) && (DOT !in b || b == CURRENT || b == PARENT)
    ensures Extension(b) == ""
  {
    hide LastIndexOf;
    NameIsItsBase(b);
    if DOT !in b {
      LastIndexIs(b, DOT, -1);
    }
  }

  lemma NameIsItsBase(b: string)
    requires SeparatorFree(b)
    ensures BaseName(b) == b
  {
    StripIdempotent(b);
    assert b != "" ==> b[|b| - 1] in b;
    LastIndexIs(b, SEPARATOR, -1);
  }
}
