/** ComputeDirectorySize of base/file_util.cc: a running sum over the enumeration, and the recursive
    definition of a directory's size that it agrees with. */
module DirectorySize {
  import opened Wrappers
  import opened PathAlgebra
  import opened FileSystems
  import opened FileEnumerators

  function SizeOf(tree: map<string, Node>, k: string): nat {
    if k in tree && tree[k].File? then tree[k].size else 0
  }

  function SeqSum(tree: map<string, Node>, paths: seq<string>): nat {
    if paths == [] then 0 else SeqSum(tree, paths[..|paths| - 1]) + SizeOf(tree, paths[|paths| - 1])
  }

  ghost function SetSum(tree: map<string, Node>, s: set<string>): nat {
    if s == {} then 0
    else
      var x :| x in s;
      SizeOf(tree, x) + SetSum(tree, s - {x})
  }

  /** The order in which a set is summed does not matter. */
  lemma {:induction false} SetSumRemove(tree: map<string, Node>, s: set<string>, x: string)
    requires x in s
    ensures SetSum(tree, s) == SizeOf(tree, x) + SetSum(tree, s - {x})
    decreases |s|
  {
    var y :| y in s && SetSum(tree, s) == SizeOf(tree, y) + SetSum(tree, s - {y});
    if y != x {
      SetSumRemove(tree, s - {y}, x);
      SetSumRemove(tree, s - {x}, y);
      assert s - {x} - {y} == s - {y} - {x};
    }
  }

  lemma {:induction false} SetSumUnion(tree: map<string, Node>, a: set<string>, b: set<string>)
    requires a !! b
    ensures SetSum(tree, a + b) == SetSum(tree, a) + SetSum(tree, b)
    decreases |a|
  {
    if a == {} {
      assert a + b == b;
    } else {
      var x :| x in a;
      SetSumRemove(tree, a, x);
      SetSumRemove(tree, a + b, x);
      assert a + b - {x} == (a - {x}) + b;
      SetSumUnion(tree, a - {x}, b);
    }
  }

  lemma {:induction false} SeqSumIsSetSum(tree: map<string, Node>, paths: seq<string>)
    requires NoRepeats(paths)
    ensures SeqSum(tree, paths) == SetSum(tree, Members(paths))
  {
    if paths == [] {
    } else {
      var n := |paths| - 1;
      var front := paths[..n];
      assert paths == front + [paths[n]];
      SeqSumIsSetSum(tree, front);
      MembersConcat(front, [paths[n]]);
      SetSumRemove(tree, Members(paths), paths[n]);
      assert Members(paths) - {paths[n]} == Members(front);
    }
  }

  /** The files below d. */
  function FilesBelow(tree: map<string, Node>, d: string): set<string> {
    set k | k in tree && k != d && Under(k, d) && tree[k].File?
  }

  ghost function SizeBelow(tree: map<string, Node>, d: string): nat {
    SetSum(tree, FilesBelow(tree, d))
  }

  /** A sum kept in 64 bits with a sign: exact while it fits, wrapped around beyond. */
  function Int64(v: int): (r: int)
    ensures -0x8000_0000_0000_0000 <= r < 0x8000_0000_0000_0000
    ensures -0x8000_0000_0000_0000 <= v < 0x8000_0000_0000_0000 ==> r == v
  {
    (v + 0x8000_0000_0000_0000) % 0x1_0000_0000_0000_0000 - 0x8000_0000_0000_0000
  }

  lemma Int64OfSum(a: int, b: int)
    ensures Int64(Int64(a) + b) == Int64(a + b)
  {
  }

  method ComputeDirectorySize(fs: FileSystem, rootPath: string) returns (runningSize: int)
    requires "" !in fs.nodes
    requires fs.Lookup(Strip(rootPath)) == Some(Directory) ==> IsTree(Subtree(fs.nodes, Strip(rootPath)), Strip(rootPath))
    ensures runningSize == if fs.Lookup(Strip(rootPath)) == Some(Directory)
                           then Int64(SizeBelow(Subtree(fs.nodes, Strip(rootPath)), Strip(rootPath))) else 0
  {
    // Only a directory opens; anything else leaves the enumerator with nothing to hand out.
    if fs.Lookup(Strip(rootPath)) != Some(Directory) {
      return 0;
    }
    runningSize := SumFiles(fs, rootPath);
  }

  method SumFiles(fs: FileSystem, rootPath: string) returns (runningSize: int)
    requires rootPath != "" && "" !in fs.nodes
    requires IsTree(Subtree(fs.nodes, Strip(rootPath)), Strip(rootPath))
    ensures runningSize == Int64(SizeBelow(Subtree(fs.nodes, Strip(rootPath)), Strip(rootPath)))
  {
    hide Strip, IsTree, Subtree, Iterating, SizeBelow, IsEntry, Under, Int64;
    ghost var tree, top := Subtree(fs.nodes, Strip(rootPath)), Strip(rootPath);
    ghost var total := 0;
    runningSize := 0;
    assert runningSize == Int64(total);
    var fileIter := new FileEnumerator(rootPath, true, false, fs.nodes);
    var path := FirstFile(fs, fileIter, tree, top);
    while path != ""
      invariant fresh(fileIter) && Iterating(fs.nodes, fileIter, tree, top, path, total)
      invariant runningSize == Int64(total)
      decreases tree.Keys - Members(fileIter.returned), path != ""
    {
      var size := GetSize(fs, fileIter, tree, top, path, total);
      Int64OfSum(total, size);
      runningSize := Int64(runningSize + size);
      total := total + size;
      ghost var before := fileIter.returned;
      path := NextFile(fs, fileIter, tree, top, path, total);
      MembersConcat(before, [path]);
      assert path in Members([path]);
    }
    IteratorSum(fs.nodes, fileIter, tree, top, total);
  }

  /** The enumeration with `path` handed out last, and `sum` over everything handed out before it. */
  ghost predicate Iterating(nodes: map<string, Node>, e: FileEnumerator, tree: map<string, Node>, top: string,
                            path: string, sum: int)
    reads e
  {
    && e.Valid() && e.tree == tree && e.top == top && e.wantFiles && !e.wantDirs
    && Intact(nodes, e.Walk(e.current + 1))
    && if path == "" then e.pending == [] && e.Walk(e.current + 1).remaining == [] && sum == SeqSum(tree, e.returned)
       else Standing(e, path) && sum == SeqSum(tree, Before(e.returned))
  }

  method FirstFile(fs: FileSystem, e: FileEnumerator, ghost tree: map<string, Node>, ghost top: string)
      returns (path: string)
    requires e.Valid() && e.tree == tree && e.top == top && e.wantFiles && !e.wantDirs && e.returned == []
    requires Intact(fs.nodes, e.Walk(e.current + 1))
    modifies e
    ensures Iterating(fs.nodes, e, tree, top, path, 0)
  {
    hide Intact, FileEnumerator.Consistent, AllNames;
    path := e.Next(fs);
    if path != "" {
      assert Before(e.returned) == [];
    }
  }

  method NextFile(fs: FileSystem, e: FileEnumerator, ghost tree: map<string, Node>, ghost top: string,
                  ghost last: string, ghost sum: int) returns (path: string)
    requires last != "" && Iterating(fs.nodes, e, tree, top, last, sum - SizeOf(tree, last))
    modifies e
    ensures Iterating(fs.nodes, e, tree, top, path, sum)
    ensures path != "" ==> path in tree && path !in old(e.returned) && e.returned == old(e.returned) + [path]
    ensures path == "" ==> e.returned == old(e.returned)
  {
    hide Intact, FileEnumerator.Consistent, AllNames;
    ghost var before := e.returned;
    StandingFacts(e, last);
    path := e.Next(fs);
    assert Before(before + [path]) == before;
  }

  /** FileEnumerator::GetInfo().GetSize(). */
  method GetSize(fs: FileSystem, e: FileEnumerator, ghost tree: map<string, Node>, ghost top: string,
                 ghost path: string, ghost sum: int) returns (size: int)
    requires path != "" && Iterating(fs.nodes, e, tree, top, path, sum)
    ensures size == SizeOf(tree, path)
  {
    hide Intact, FileEnumerator.Consistent, AllNames;
    size := e.entries[e.current].node.size;
  }

  lemma IteratorSum(nodes: map<string, Node>, e: FileEnumerator, tree: map<string, Node>, top: string, sum: int)
    requires Iterating(nodes, e, tree, top, "", sum)
    ensures sum == SizeBelow(tree, top)
  {
    hide Intact, Walking.Inv, SizeBelow, SeqSum;
    SumIsSize(e.Walk(e.current + 1));
  }

  ghost function Before(paths: seq<string>): seq<string> {
    if paths == [] then [] else paths[..|paths| - 1]
  }

  /** The enumerator has just handed out `path`, a file. */
  ghost predicate Standing(e: FileEnumerator, path: string)
    reads e
  {
    && e.returned != [] && e.returned[|e.returned| - 1] == path
    && path in e.tree && e.tree[path].File?
    && e.current < |e.entries| && e.entries[e.current].node == e.tree[path]
  }

  lemma StandingFacts(e: FileEnumerator, path: string)
    requires Standing(e, path)
    ensures SeqSum(e.tree, e.returned) == SeqSum(e.tree, Before(e.returned)) + SizeOf(e.tree, path)
  {
  }

  lemma SumIsSize(w: Walking)
    requires w.Inv() && w.pending == [] && w.remaining == [] && w.files && !w.dirs
    ensures SeqSum(w.tree, w.returned) == SizeBelow(w.tree, w.top)
  {
    hide DirName, IsEntry, SetSum;
    WalkIsComplete(w);
    SeqSumIsSetSum(w.tree, w.returned);
    forall k | k in w.tree
      ensures Under(k, w.top)
    {
      TopIsLowest(w.tree, w.top, k);
    }
    assert Members(w.returned) == FilesBelow(w.tree, w.top);
  }

  // ---------------------------------------------------------------- the recursive law

  /** The files that are, or are below, one of the given entries. */
  function FilesFrom(tree: map<string, Node>, entries: set<string>): set<string> {
    set k, c | k in tree && c in entries && tree[k].File? && Under(k, c) :: k
  }

  ghost function EntrySize(tree: map<string, Node>, c: string): nat {
    if c in tree && tree[c].File? then tree[c].size else SizeBelow(tree, c)
  }

  ghost function EntrySum(tree: map<string, Node>, entries: set<string>): nat {
    if entries == {} then 0
    else
      var c :| c in entries;
      EntrySize(tree, c) + EntrySum(tree, entries - {c})
  }

  function Entries(tree: map<string, Node>, d: string): set<string> {
    set k | k in tree && ChildOf(k, d)
  }

  lemma {:induction false} UnderHeight(k: string, c: string)
    requires Under(k, c)
    ensures k == c || Height(k) > Height(c)
    decreases Height(k)
  {
    hide DirName;
    if k == c {
    } else {
      DirNameShortens(k);
      UnderHeight(DirName(k), c);
    }
  }

  /** A path is below at most one of two entries of the same directory. */
  lemma {:induction false} SiblingsAreApart(k: string, a: string, b: string, d: string)
    requires a != b && a != "" && b != "" && ChildOf(a, d) && ChildOf(b, d)
    ensures !(Under(k, a) && Under(k, b))
    decreases Height(k)
  {
    hide DirName;
    DirNameShortens(a);
    DirNameShortens(b);
    if Under(k, a) && Under(k, b) {
      if k == a || k == b {
        UnderHeight(d, if k == a then b else a);
      } else {
        DirNameShortens(k);
        SiblingsAreApart(DirName(k), a, b, d);
      }
    }
  }

  /** Nothing is below a file. */
  lemma {:induction false} NothingUnderFile(tree: map<string, Node>, top: string, k: string, c: string)
    requires IsTree(tree, top) && k in tree && c in tree && tree[c].File? && Under(k, c) && k != top
    ensures k == c
    decreases Height(k)
  {
    hide DirName, IsEntry, IsTree;
    if k == c {
    } else {
      EntryMoves(tree, top, k);
      DirNameShortens(k);
      if DirName(k) == top {
        TopIsLowest(tree, top, c);
        UnderHeight(top, c);
      } else {
        NothingUnderFile(tree, top, DirName(k), c);
      }
    }
  }

  lemma FilesFromOne(tree: map<string, Node>, top: string, c: string)
    requires IsTree(tree, top) && c in tree && c != top
    ensures FilesFrom(tree, {c}) == if tree[c].File? then {c} else FilesBelow(tree, c)
    ensures SetSum(tree, FilesFrom(tree, {c})) == EntrySize(tree, c)
  {
    hide DirName, IsEntry, IsTree;
    assert tree[top].Directory? by { TopIsDirectory(tree, top); }
    if tree[c].File? {
      forall k | k in tree && tree[k].File? && Under(k, c)
        ensures k == c
      {
        NothingUnderFile(tree, top, k, c);
      }
      assert FilesFrom(tree, {c}) == {c};
      SetSumRemove(tree, {c}, c);
    } else {
      assert FilesFrom(tree, {c}) == FilesBelow(tree, c);
    }
  }

  lemma TopIsDirectory(tree: map<string, Node>, top: string)
    requires IsTree(tree, top)
    ensures top in tree && tree[top].Directory?
  {
  }

  lemma FilesFromSplit(tree: map<string, Node>, entries: set<string>, c: string)
    requires c in entries
    ensures FilesFrom(tree, entries) == FilesFrom(tree, {c}) + FilesFrom(tree, entries - {c})
  {
    hide Under;
  }

  lemma EntriesApart(tree: map<string, Node>, top: string, d: string, c: string, others: set<string>)
    requires IsTree(tree, top) && d in tree && c in Entries(tree, d) && others <= Entries(tree, d) && c !in others
    requires top !in Entries(tree, d)
    ensures FilesFrom(tree, {c}) !! FilesFrom(tree, others)
  {
    hide DirName, IsEntry, IsTree, Under;
    forall k, o | k in tree && o in others
      ensures !(Under(k, c) && Under(k, o))
    {
      EntryMoves(tree, top, c);
      EntryMoves(tree, top, o);
      SiblingsAreApart(k, c, o, d);
    }
  }

  lemma {:induction false} EntriesAddUp(tree: map<string, Node>, top: string, d: string, entries: set<string>)
    requires IsTree(tree, top) && d in tree && entries <= Entries(tree, d)
    ensures SetSum(tree, FilesFrom(tree, entries)) == EntrySum(tree, entries)
    decreases |entries|
  {
    hide DirName, IsEntry, IsTree, Under;
    if entries == {} {
      assert FilesFrom(tree, {}) == {};
    } else {
      var c :| c in entries && EntrySum(tree, entries) == EntrySize(tree, c) + EntrySum(tree, entries - {c});
      var others := entries - {c};
      NotAboveTop(tree, top, d);
      EntriesAddUp(tree, top, d, others);
      FilesFromOne(tree, top, c);
      FilesFromSplit(tree, entries, c);
      EntriesApart(tree, top, d, c, others);
      hide FilesFrom, SetSum;
      SetSumUnion(tree, FilesFrom(tree, {c}), FilesFrom(tree, others));
    }
  }

  /** Below d means below one of its entries. */
  lemma {:induction false} BelowSomeEntry(tree: map<string, Node>, top: string, k: string, d: string) returns (c: string)
    requires IsTree(tree, top) && k in tree && Under(k, d) && k != d && d in tree
    ensures c in Entries(tree, d) && Under(k, c)
    decreases Height(k)
  {
    hide DirName, IsEntry, IsTree;
    assert k != top by {
      TopIsLowest(tree, top, d);
      UnderHeight(k, d);
    }
    EntryMoves(tree, top, k);
    DirNameShortens(k);
    if DirName(k) == d {
      c := k;
    } else {
      c := BelowSomeEntry(tree, top, DirName(k), d);
    }
  }

  lemma {:induction false} EntryIsBelow(k: string, c: string, d: string)
    requires c != "" && ChildOf(c, d) && Under(k, c)
    ensures k != d && Under(k, d)
    decreases Height(k)
  {
    hide DirName;
    DirNameShortens(c);
    UnderHeight(k, c);
    if k == c {
    } else {
      DirNameShortens(k);
      EntryIsBelow(DirName(k), c, d);
    }
  }

  /** The size of a directory is the sum over its entries: a file counts with its size, a directory with
      its own size in this sense. */
  lemma SizeIsRecursive(tree: map<string, Node>, top: string, d: string)
    requires IsTree(tree, top) && d in tree
    ensures SizeBelow(tree, d) == EntrySum(tree, Entries(tree, d))
  {
    hide DirName, IsEntry, IsTree, Under;
    NotAboveTop(tree, top, d);
    var entries := Entries(tree, d);
    EntriesAddUp(tree, top, d, entries);
    forall k | k in FilesBelow(tree, d)
      ensures k in FilesFrom(tree, entries)
    {
      var c := BelowSomeEntry(tree, top, k, d);
    }
    forall k, c | k in tree && c in entries && Under(k, c)
      ensures k != d && Under(k, d)
    {
      EntryMoves(tree, top, c);
      EntryIsBelow(k, c, d);
    }
    assert FilesFrom(tree, entries) == FilesBelow(tree, d);
  }
}
