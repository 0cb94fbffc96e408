/** The members of base/file_path.cc that loop or change a path in place, proved against PathAlgebra. */
module FilePaths {
  import opened Bits
  import opened PathAlgebra
  import opened PathAppend

  class FilePath {
    var path: string

    /** Every FilePath is free of NULs: the constructor cuts its argument at the first one. */
    constructor (value: string)
      ensures path == UpToNul(value) && NUL !in path
    {
      path := UpToNul(value);
    }

    method StripTrailingSeparatorsInternal()
      modifies this
      ensures path == Strip(old(path))
    {
      ghost var was := path;
      var start := WrappedSum(FindDriveLetter(path), 2);
      var lastStripped := NPOS;
      var pos := |path|;
      while pos > start && path[pos - 1] == SEPARATOR
        invariant start == 1 && pos <= |path| <= |was|
        invariant StripAll(path) == StripAll(was)
        invariant |path| == pos || (pos == 1 && path == was == "//")
        invariant if |path| == |was| then path == was && lastStripped == NPOS else lastStripped == |path| + 1
        invariant was == "//" ==> path == was
        decreases pos
      {
        if pos != start + 1 || lastStripped == start + 2 || path[start - 1] != SEPARATOR {
          path := path[..pos - 1];
          lastStripped := pos;
        } else {
          assert path == [SEPARATOR, SEPARATOR];
        }
        pos := pos - 1;
      }
    }

    method GetComponents() returns (components: seq<string>)
      ensures components == Components(path)
    {
      if path == "" {
        return [];
      }
      WalkIsComponents(path);
      hide Components, Walk, DirName, BaseName, AllSeparators, Reversed, Pushed, PushedLast;
      var found := [];          // ret_val, last component first
      var current := path;
      WalkStart(path);
      while current != DirName(current)
        invariant current != "" && Walk(path) == Walk(current) + Reversed(found)
        decreases |current|, if current == CURRENT then 0 else 1
      {
        DirNameShortens(current);
        WalkStep(current, found);
        var base := BaseName(current);
        if !AllSeparators(base) {
          found := found + [base];
        }
        current := DirName(current);
      }
      WalkEnd(current, found);
      var base := BaseName(current);
      if base != "" && base != CURRENT {
        found := found + [base];
      }
      var letter := FindDriveLetter(DirName(current));
      if letter != NPOS {
        found := found + [DirName(current)];
      }
      components := Reversed(found);
    }

    /** `path`, when given, grows by what the child has beyond this path. */
    method AppendRelativePath(child: FilePath, target: FilePath?) returns (ok: bool)
      requires NUL !in child.path
      modifies target
      ensures ok <==> old(IsParent(path, child.path))
      ensures target != null && !ok ==> target.path == old(target.path)
      ensures target != null && ok ==>
                var rest := old(Components(child.path)[|Components(path)|..]);
                && Names(rest) && target.path == AppendAll(old(target.path), rest)
                && (old(target.path) == "" ==>
                      !IsAbsolute(target.path) && target.path != "" && Components(target.path) == DropDots(rest))
    {
      hide Components, AppendAll, Names, DropDots;
      var parentComponents := GetComponents();
      var childComponents := child.GetComponents();
      ok := ProperPrefix(parentComponents, childComponents);
      if ok {
        ComponentsAreNames(child.path, |parentComponents|);
        if target != null {
          ghost var rest := childComponents[|parentComponents|..];
          AppendAllToNothing("", rest);
          target.AppendFrom(childComponents, |parentComponents|);
        }
      }
    }

    /** The comparisons of AppendRelativePath. */
    static method ProperPrefix(parent: seq<string>, child: seq<string>) returns (ok: bool)
      ensures ok <==> 0 < |parent| < |child| && parent <= child
    {
      if |parent| >= |child| {
        return false;
      }
      if |parent| == 0 {
        return false;
      }
      var i := 0;
      while i < |parent|
        invariant i <= |parent| && parent[..i] == child[..i]
      {
        if parent[i] != child[i] {
          return false;
        }
        i := i + 1;
      }
      return true;
    }

    /** The second loop of AppendRelativePath: `path = path.Append(component)` for the components left. */
    method AppendFrom(components: seq<string>, first: nat)
      requires first <= |components| && Names(components[first..])
      modifies this
      ensures path == AppendAll(old(path), components[first..])
    {
      hide Append, Name, Names, UpToNul, IsAbsolute, AppendAll;
      var i := first;
      while i < |components|
        invariant first <= i <= |components| && Names(components[i..])
        invariant AppendAll(path, components[i..]) == AppendAll(old(path), components[first..])
      {
        AppendAllStep(path, components[i..]);
        assert components[i..][1..] == components[i + 1..];
        path := Append(path, components[i]);
        i := i + 1;
      }
      assert components[i..] == [];
      NothingAppended(path);
    }

    method ReferencesParent() returns (found: bool)
      ensures found <==> PARENT in Segments(path)
    {
      var components := GetComponents();
      ParentSegmentIsComponent(path);
      hide Components, Segments;
      var i := 0;
      while i < |components|
        invariant i <= |components| && PARENT !in components[..i]
      {
        if components[i] == PARENT {
          return true;
        }
        i := i + 1;
      }
      return false;
    }
  }

  function Reversed(s: seq<string>): seq<string> {
    if s == [] then [] else [s[|s| - 1]] + Reversed(s[..|s| - 1])
  }

  lemma ReversedAppend(s: seq<string>, x: string)
    ensures Reversed(s + [x]) == [x] + Reversed(s)
  {
    assert (s + [x])[..|s|] == s;
  }

  lemma WalkStart(p: string)
    requires p != ""
    ensures Walk(p) == Walk(p) + Reversed([])
  {
  }

  lemma WalkStep(current: string, found: seq<string>)
    requires current != "" && current != DirName(current)
    ensures DirName(current) != ""
    ensures Walk(current) + Reversed(found) == Walk(DirName(current))
         + Reversed(if AllSeparators(BaseName(current)) then found else found + [BaseName(current)])
  {
    hide DirName, BaseName, AllSeparators;
    DirNameShortens(current);
    ReversedAppend(found, BaseName(current));
    assert Walk(current) == Walk(DirName(current)) + Pushed(BaseName(current));
  }

  lemma WalkEnd(current: string, found: seq<string>)
    requires current != "" && current == DirName(current)
    ensures Walk(current) + Reversed(found)
         == Reversed(if BaseName(current) in ["", CURRENT] then found else found + [BaseName(current)])
  {
    hide DirName, BaseName;
    ReversedAppend(found, BaseName(current));
  }
}
