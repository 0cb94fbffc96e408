/** Appending to paths, the parent relation and extensions: what base/file_path.cc puts together and
    takes apart. */
module PathAppend {
  import opened PathAlgebra

  /** A file name: what a directory lists, and what Append is meant for. */
  predicate Name(x: string) {
    x != "" && SeparatorFree(x) && NUL !in x
  }

  lemma {:induction false} NoNul(x: string)
    requires NUL !in x
    ensures UpToNul(x) == x
  {
    if x == "" {
    } else {
      NoNul(x[1..]);
    }
  }

  lemma {:induction false} LastIndexIs(s: string, c: char, i: int)
    requires -1 <= i < |s| && (i >= 0 ==> s[i] == c) && forall k :: i < k < |s| ==> s[k] != c
    ensures LastIndexOf(s, c) == i
  {
    if i == |s| - 1 {
    } else {
      LastIndexIs(s[..|s| - 1], c, i);
    }
  }

  lemma NameIsAppendable(x: string)
    requires Name(x)
    ensures UpToNul(x) == x && !IsAbsolute(UpToNul(x))
  {
    NoNul(x);
  }

  /** The shape of an appended path: the stripped path, a separator unless there is one, the name. */
  function Joined(q: string, x: string): string
    requires q != ""
  {
    if q[|q| - 1] == SEPARATOR then q + x else q + [SEPARATOR] + x
  }

  lemma AppendIs(p: string, x: string)
    requires p != "" && p != CURRENT && Name(x)
    ensures !IsAbsolute(UpToNul(x)) && Strip(p) != "" && Append(p, x) == Joined(Strip(p), x)
  {
    NameIsAppendable(x);
    StripAllFacts(p);
  }

  /** A stripped path that ends in a separator is a root. */
  lemma StrippedEnd(p: string)
    requires p != ""
    ensures var q := Strip(p);
            q != "" && (q[|q| - 1] == SEPARATOR ==> q == "/" || q == "//")
  {
    StripAllFacts(p);
    var q := Strip(p);
    if q[|q| - 1] == SEPARATOR && q != "//" {
      assert |q| == 1;
      assert q == [SEPARATOR];
    }
  }

  lemma JoinedParts(q: string, x: string)
    requires q != "" && Name(x) && (q[|q| - 1] == SEPARATOR ==> q == "/" || q == "//")
    ensures var r := Joined(q, x);
            && Strip(r) == r && |r| > |q|
            && LastIndexOf(r, SEPARATOR) == |r| - |x| - 1
            && r[|r| - |x|..] == x && q <= r
  {
    var r := Joined(q, x);
    assert r[|r| - |x|..] == x;
    StripAllFacts(r);
    LastIndexIs(r, SEPARATOR, |r| - |x| - 1);
  }

  /** Taking apart what Append put together. */
  lemma DirAndBaseOfAppend(p: string, x: string)
    requires p != "" && Name(x)
    ensures !IsAbsolute(UpToNul(x))
    ensures DirName(Append(p, x)) == Strip(p)
    ensures BaseName(Append(p, x)) == x
  {
    NameIsAppendable(x);
    if p == CURRENT {
      StripAllFacts(x);
      LastIndexIs(x, SEPARATOR, -1);
      assert x[..0] == "";
    } else {
      AppendIs(p, x);
      StrippedEnd(p);
      StripIdempotent(p);
      DirAndBaseOfJoined(Strip(p), x);
    }
  }

  lemma DirAndBaseOfJoined(q: string, x: string)
    requires q != "" && Strip(q) == q && Name(x) && (q[|q| - 1] == SEPARATOR ==> q == "/" || q == "//")
    ensures DirName(Joined(q, x)) == q && BaseName(Joined(q, x)) == x
  {
    hide LastIndexOf, Strip, StripAll;
    JoinedParts(q, x);
    if q == "/" || q == "//" {
      assert |Joined(q, x)| == |q| + |x|;
    } else {
      assert |Joined(q, x)| == |q| + 1 + |x|;
      BehindName(q, Joined(q, x));
    }
  }

  lemma BehindName(q: string, r: string)
    requires q <= r && |q| < |r| && Strip(r) == r && Strip(q) == q && q != "" && q[|q| - 1] != SEPARATOR
    requires LastIndexOf(r, SEPARATOR) == |q|
    ensures DirName(r) == q
  {
    hide LastIndexOf, Strip, StripAll;
    assert r[..|q|] == q;
    assert |q| == 1 ==> r[0] == q[0];
  }

  // ---------------------------------------------------------------- components of an appended path

  lemma ComponentsOfSeparators(p: string)
    requires p != "" && AllSeparators(p)
    ensures Components(p) == if p == "//" then ["//"] else ["/"]
  {
    hide Segments, LeadingSeparators;
    SegmentsEmpty(p);
    LeadingFacts(p);
    assert p[0] == SEPARATOR;
  }

  lemma RootOfPrefix(q: string, p: string)
    requires q <= p && !AllSeparators(q)
    ensures Root(q) == Root(p) && IsAbsolute(q) == IsAbsolute(p) && q != "" && p != ""
  {
    hide LeadingSeparators;
    LeadingOfPrefix(q, p);
    assert p[0] == q[0];
    assert !AllSeparators("//") ==> false;
  }

  lemma ComponentsOfStrip(p: string)
    requires p != "" && (p == CURRENT || Strip(p) != CURRENT)
    ensures Components(Strip(p)) == Components(p)
  {
    if AllSeparators(p) {
      StripOfSeparators(p);
      ComponentsOfSeparators(p);
      ComponentsOfSeparators("/");
    } else {
      hide Segments, StripAll, Strip, Root, AllSeparators;
      DotComponents();
      var q := Strip(p);
      StripKeepsSegments(p);
      SegmentsEmpty(p);
      SegmentsEmpty(q);
      RootOfPrefix(q, p);
    }
  }

  lemma ComponentsOfDots(p: string)
    requires p != CURRENT && Strip(p) == CURRENT
    ensures Components(p) == [CURRENT]
  {
    hide Segments, StripAll, LeadingSeparators;
    assert p[0] == CURRENT[0] == '.';
    StripKeepsSegments(p);
    SingleDot();
    LeadingIs(p, 0);
  }

  /** Append adds exactly one component, unless the path was "./" in some spelling or the appended name
      is itself a dot that nothing precedes. */
  lemma ComponentsOfAppend(p: string, x: string)
    requires p != "" && Name(x)
    ensures !IsAbsolute(UpToNul(x))
    ensures Components(Append(p, x)) == Components(p) + [x] <==>
            if p == CURRENT then x != CURRENT else Strip(p) != CURRENT
    ensures p != CURRENT && Strip(p) == CURRENT ==> Components(Append(p, x)) == [x]
  {
    hide Components, Strip, DirName, BaseName, Append;
    NameIsAppendable(x);
    DirAndBaseOfAppend(p, x);
    var r := Append(p, x);
    assert Pushed(x) == [x] by { assert x[0] != SEPARATOR; }
    DotComponents();
    if p == CURRENT {
      AppendToDot(x);
      if x != CURRENT {
        StepUp(r);
      }
    } else {
      AppendIs(p, x);
      StrippedEnd(p);
      StripIdempotent(p);
      JoinedParts(Strip(p), x);
      StepUp(r);
      if Strip(p) == CURRENT {
        ComponentsOfDots(p);
      } else {
        ComponentsOfStrip(p);
      }
    }
  }

  lemma DotComponents()
    ensures Strip(CURRENT) == CURRENT && Components(CURRENT) == []
  {
  }

  lemma AppendToDot(x: string)
    requires Name(x)
    ensures !IsAbsolute(UpToNul(x)) && Append(CURRENT, x) == x
  {
    NameIsAppendable(x);
  }

  /** Append on every path and every component: what comes up to the NUL stands at the end, alone behind
      nothing and behind ".", and otherwise behind the stripped path and exactly one separator, the root's
      own or a new one. */
  lemma AppendExact(p: string, component: string)
    requires !IsAbsolute(UpToNul(component))
    ensures var r, x, q := Append(p, component), UpToNul(component), Strip(p);
            && (p == "" || p == CURRENT ==> r == x)
            && (x == "" && p != CURRENT ==> r == q)
            && (x != "" && p != "" && p != CURRENT ==>
                  && |r| > |x| && r[|r| - |x|..] == x && r[|r| - |x| - 1] == SEPARATOR
                  && r[..|r| - |x|] == if q == "/" || q == "//" then q else q + "/")
  {
    if p != "" {
      StrippedEnd(p);
    }
  }

  function DropDots(parts: seq<string>): seq<string> {
    if parts != [] && parts[0] == CURRENT then DropDots(parts[1..]) else parts
  }

  /** Appending names to nothing gives a relative path of exactly these names, but for "." in front. */
  lemma {:induction false} AppendAllToNothing(p: string, parts: seq<string>)
    requires Names(parts) && (p == "" || p == CURRENT)
    ensures !IsAbsolute(AppendAll(p, parts))
    ensures Components(AppendAll(p, parts)) == DropDots(parts)
    ensures AppendAll(p, parts) == "" <==> p == "" && parts == []
    decreases |parts|
  {
    hide Components, Strip, Append, Name, Names, UpToNul, AppendAll;
    NothingAppended(p);
    if parts == [] {
      EmptyComponents();
      DotComponents();
    } else {
      var x := parts[0];
      AppendAllStep(p, parts);
      AppendExact(p, x);
      NameIsAppendable(x);
      NameStart(x);
      assert Append(p, x) == x;
      if x == CURRENT {
        AppendAllToNothing(CURRENT, parts[1..]);
      } else {
        NameAlone(x);
        ComponentsOfAppendAll(x, parts[1..]);
        AppendAllExtends(x, parts[1..]);
        assert parts == [x] + parts[1..];
      }
    }
  }

  lemma NothingAppended(p: string)
    ensures Names([]) && AppendAll(p, []) == p
  {
  }

  lemma NameStart(x: string)
    requires Name(x)
    ensures x != "" && !IsAbsolute(x)
  {
    assert x[0] in x;
  }

  lemma NameAlone(x: string)
    requires Name(x) && x != CURRENT
    ensures Strip(x) == x && Strip(x) != CURRENT && Components(x) == [x] && !IsAbsolute(x)
  {
    StripIdempotent(x);
    assert x[|x| - 1] in x && x[0] in x;
    LastIndexIs(x, SEPARATOR, -1);
  }

  lemma {:induction false} AppendAllExtends(p: string, parts: seq<string>)
    requires Names(parts) && p != "" && p != CURRENT && !IsAbsolute(p) && Strip(p) != CURRENT
    ensures var r := AppendAll(p, parts); r != "" && !IsAbsolute(r)
    decreases |parts|
  {
    if parts == [] {
    } else {
      var x := parts[0];
      AppendAllStep(p, parts);
      AppendIs(p, x);
      AppendedIsNoDot(p, x);
      assert Append(p, x)[0] == Strip(p)[0] == p[0];
      AppendAllExtends(Append(p, x), parts[1..]);
    }
  }

  // ---------------------------------------------------------------- parents

  /** AppendRelativePath's test: the parent has components, and they are a proper prefix of the child's. */
  predicate IsParent(parent: string, child: string) {
    0 < |Components(parent)| < |Components(child)| && Components(parent) <= Components(child)
  }

  lemma IsParentIsStrictOrder(a: string, b: string, c: string)
    ensures !IsParent(a, a)
    ensures IsParent(a, b) ==> !IsParent(b, a)
    ensures IsParent(a, b) && IsParent(b, c) ==> IsParent(a, c)
  {
  }

  predicate Names(parts: seq<string>) {
    forall i :: 0 <= i < |parts| ==> Name(parts[i])
  }

  lemma ComponentIsName(p: string, i: nat)
    requires NUL !in p && 1 <= i < |Components(p)|
    ensures Name(Components(p)[i])
  {
    hide Segments, Root;
    var segments := Segments(p);
    var w := WithoutDot(segments, IsAbsolute(p));
    RootIsShort(p);
    var j := i - |Root(p)|;
    assert Components(p)[i] == w[j];
    SegmentsAreNames(p, if |w| < |segments| then j + 1 else j);
  }

  lemma RootIsShort(p: string)
    ensures |Root(p)| <= 1
  {
  }

  /** Only the first component can be a root. */
  lemma ComponentsAreNames(p: string, k: nat)
    requires NUL !in p && 1 <= k <= |Components(p)|
    ensures Names(Components(p)[k..])
  {
    hide Components, Name;
    forall i | k <= i < |Components(p)|
      ensures Name(Components(p)[i])
    {
      ComponentIsName(p, i);
    }
  }

  function AppendAll(p: string, parts: seq<string>): string
    requires Names(parts)
    decreases |parts|
  {
    if parts == [] then p
    else
      NameIsAppendable(parts[0]);
      AppendAll(Append(p, parts[0]), parts[1..])
  }

  lemma AppendAllStep(p: string, parts: seq<string>)
    requires Names(parts) && parts != []
    ensures Name(parts[0]) && Names(parts[1..]) && !IsAbsolute(UpToNul(parts[0]))
    ensures AppendAll(p, parts) == AppendAll(Append(p, parts[0]), parts[1..])
  {
    NameIsAppendable(parts[0]);
  }

  lemma {:induction false} ComponentsOfAppendAll(p: string, parts: seq<string>)
    requires Names(parts) && p != "" && p != CURRENT && Strip(p) != CURRENT
    ensures Components(AppendAll(p, parts)) == Components(p) + parts
    decreases |parts|
  {
    hide Components, Strip, Append, Name, Names, UpToNul, IsAbsolute;
    if parts == [] {
      assert Components(p) + parts == Components(p);
    } else {
      AppendAllStep(p, parts);
      hide AppendAll;
      var x := parts[0];
      ComponentsOfAppend(p, x);
      AppendedIsNoDot(p, x);
      ComponentsOfAppendAll(Append(p, x), parts[1..]);
      assert parts == [x] + parts[1..];
      assert Components(p) + [x] + parts[1..] == Components(p) + ([x] + parts[1..]);
    }
  }

  lemma AppendedIsNoDot(p: string, x: string)
    requires p != "" && p != CURRENT && Name(x)
    ensures !IsAbsolute(UpToNul(x))
    ensures var r := Append(p, x); |r| > 1 && r != "" && r != CURRENT && Strip(r) != CURRENT
  {
    hide Strip, Append;
    AppendIs(p, x);
    StrippedEnd(p);
    JoinedParts(Strip(p), x);
  }

  lemma AppendAllToDots(p: string, parts: seq<string>)
    requires Names(parts) && parts != [] && p != CURRENT && Strip(p) == CURRENT
    ensures Components(AppendAll(p, parts)) == parts
  {
    hide Components, Append, AppendAll, Name, Names, UpToNul, IsAbsolute;
    AppendAllStep(p, parts);
    var x := parts[0];
    ComponentsOfAppend(p, x);
    AppendedIsNoDot(p, x);
    ComponentsOfAppendAll(Append(p, x), parts[1..]);
    assert [x] + parts[1..] == parts;
  }

  /** Appending what the child has beyond its parent rebuilds the child's components, except below a
      parent that strips to ".": then the parent's own component is lost. */
  lemma RelativePathRebuilds(parent: string, child: string)
    requires IsParent(parent, child) && NUL !in child
    ensures var rest := Components(child)[|Components(parent)|..];
            && Names(rest)
            && (Components(AppendAll(parent, rest)) == Components(child) <==> Strip(parent) != CURRENT)
  {
    DotComponents();
    EmptyComponents();
    hide Components, AppendAll, Strip;
    var rest := Components(child)[|Components(parent)|..];
    ComponentsAreNames(child, |Components(parent)|);
    assert Components(child) == Components(parent) + rest;
    if Strip(parent) != CURRENT {
      ComponentsOfAppendAll(parent, rest);
    } else {
      AppendAllToDots(parent, rest);
    }
  }

  lemma EmptyComponents()
    ensures Components("") == []
  {
  }

  /** The walk to the root meets a segment ".." exactly when the path has one. */
  lemma ParentSegmentIsComponent(p: string)
    ensures PARENT in Components(p) <==> PARENT in Segments(p)
  {
    if p == CURRENT {
      SingleDot();
    }
    var segments := Segments(p);
    assert |segments| >= 2 && segments[0] == CURRENT ==> segments == [CURRENT] + segments[1..];
  }

  /** The smallest path that appending does not extend: "./" has the component ".", "./x" only "x". */
  lemma AppendToDotSlash()
    ensures !IsAbsolute(UpToNul("x"))
    ensures Components("./") == [CURRENT] && Components(Append("./", "x")) == ["x"]
  {
    assert "./"[..1] == "." && StripAll("./") == StripAll(".") == ".";
    assert Strip("./") == CURRENT;
    ComponentsOfDots("./");
    ComponentsOfAppend("./", "x");
  }
}
