/** CreateDirectoryAndGetError of base/file_util.cc: collect the ancestors of a path up to the fixed
    point of DirName, then make the missing ones from the top down. */
module CreateDirectory {
  import opened PathAlgebra
  import opened PathAppend
  import opened FileSystems
  import opened FileEnumerators

  /** A path and its ancestors, up to the fixed point of DirName. */
  function Chain(p: string): (c: seq<string>)
    ensures c != [] && c[0] == p
    decreases p == "", Height(p)
  {
    if p == "" then [p] + Chain(CURRENT)
    else
      DirNameShortens(p);
      if DirName(p) == p then [p] else [p] + Chain(DirName(p))
  }

  lemma ChainStep(p: string)
    requires DirName(p) != p
    ensures Chain(p) == [p] + Chain(DirName(p))
  {
    assert DirName("") == CURRENT;
  }

  /** mkdir: the parent must be a directory, and nothing may be there yet. */
  method Mkdir(fs: FileSystem, path: string) returns (ok: bool)
    modifies fs`nodes
    ensures ok <==> old(MkdirWorks(fs.nodes, path))
    ensures fs.nodes == if ok then old(fs.nodes)[Strip(path) := Directory] else old(fs.nodes)
  {
    ok := MkdirWorks(fs.nodes, path);
    if ok {
      fs.nodes := fs.nodes[Strip(path) := Directory];
    }
  }

  predicate MkdirWorks(nodes: map<string, Node>, path: string) {
    var d := DirName(path);
    path != "" && d != path && d in nodes && nodes[d].Directory? && Strip(path) !in nodes
  }

  predicate DirectoryExists(nodes: map<string, Node>, path: string) {
    Strip(path) in nodes && nodes[Strip(path)].Directory?
  }

  /** What can be created: the root is there, and no file stands in the way. */
  ghost predicate Creatable(nodes: map<string, Node>, chain: seq<string>)
    requires chain != []
  {
    && DirectoryExists(nodes, chain[|chain| - 1])
    && forall k :: k in chain ==> k != "" && (Strip(k) in nodes ==> nodes[Strip(k)].Directory?)
  }

  function KeysOf(chain: seq<string>): set<string> {
    set k | k in chain :: Strip(k)
  }

  /** The nodes with all of `keys` made directories. */
  function WithDirectories(nodes: map<string, Node>, keys: set<string>): map<string, Node> {
    map k | k in nodes.Keys + keys :: if k in keys then Directory else nodes[k]
  }

  ghost predicate OnlyDirectoriesAdded(nodes: map<string, Node>, was: map<string, Node>, keys: set<string>) {
    && (forall k :: k in was ==> k in nodes && nodes[k] == was[k])
    && (forall k :: k in nodes && k !in was ==> k in keys && nodes[k] == Directory)
  }

  method CreateDirectoryAndGetError(fs: FileSystem, fullPath: string) returns (ok: bool)
    requires "" !in fs.nodes
    modifies fs`nodes
    ensures ok <==> Creatable(old(fs.nodes), Chain(fullPath))
    ensures ok ==> fs.nodes == WithDirectories(old(fs.nodes), KeysOf(Chain(fullPath)))
    ensures OnlyDirectoriesAdded(fs.nodes, old(fs.nodes), KeysOf(Chain(fullPath)))
    ensures !ok ==> exists i :: 0 <= i < |Chain(fullPath)| && StoppedAt(fs.nodes, old(fs.nodes), Chain(fullPath), i)
  {
    hide DirName, Strip, Chain, StoppedAt, WithDirectories, KeysOf, Creatable, OnlyDirectoriesAdded;
    var subpaths := [fullPath];
    var lastPath := fullPath;
    var path := DirName(fullPath);
    while path != lastPath
      invariant fs.nodes == old(fs.nodes)
      invariant path == DirName(lastPath) && subpaths != [] && subpaths[|subpaths| - 1] == lastPath
      invariant Chain(fullPath) == subpaths[..|subpaths| - 1] + Chain(lastPath)
      decreases lastPath == "", Height(lastPath)
    {
      Climb(fullPath, subpaths, lastPath);
      subpaths := subpaths + [path];
      lastPath := path;
      path := DirName(path);
    }
    EndOfChain(lastPath);
    Climbed(fullPath, subpaths, lastPath);
    ok := MakeAll(fs, subpaths, fullPath);
  }

  lemma Climb(fullPath: string, subpaths: seq<string>, lastPath: string)
    requires subpaths != [] && subpaths[|subpaths| - 1] == lastPath && DirName(lastPath) != lastPath
    requires Chain(fullPath) == subpaths[..|subpaths| - 1] + Chain(lastPath)
    ensures Chain(fullPath) == (subpaths + [DirName(lastPath)])[..|subpaths|] + Chain(DirName(lastPath))
    ensures DirName(lastPath) != "" && (lastPath == "" || Height(DirName(lastPath)) < Height(lastPath))
  {
    hide DirName, Chain, Strip;
    ChainStep(lastPath);
    EmptyUp();
    if lastPath != "" {
      DirNameShortens(lastPath);
    }
    assert subpaths[..|subpaths| - 1] + [lastPath] == subpaths;
    assert (subpaths + [DirName(lastPath)])[..|subpaths|] == subpaths;
  }

  lemma Climbed(fullPath: string, subpaths: seq<string>, lastPath: string)
    requires subpaths != [] && subpaths[|subpaths| - 1] == lastPath && Chain(lastPath) == [lastPath]
    requires Chain(fullPath) == subpaths[..|subpaths| - 1] + Chain(lastPath)
    ensures Chain(fullPath) == subpaths
  {
    hide Chain, DirName;
    assert subpaths[..|subpaths| - 1] + [lastPath] == subpaths;
  }

  lemma EmptyUp()
    ensures DirName("") == CURRENT && Strip("") == ""
  {
  }

  lemma EndOfChain(p: string)
    requires DirName(p) == p
    ensures p != "" && Chain(p) == [p]
  {
    EmptyUp();
  }

  // ---------------------------------------------------------------- from the top down

  lemma {:induction false} ChainLinks(p: string, i: nat)
    requires i < |Chain(p)|
    ensures var c := Chain(p);
            && (i + 1 < |c| ==> DirName(c[i]) == c[i + 1] != c[i] && Strip(c[i + 1]) == c[i + 1] && c[i + 1] != "")
            && (i + 1 == |c| ==> DirName(c[i]) == c[i] && c[i] != "")
    decreases p == "", Height(p)
  {
    hide DirName, Strip;
    EmptyUp();
    if p == "" {
      DotIsTop();
    } else {
      DirNameShortens(p);
      if DirName(p) != p {
        DirNameIsStripped(p);
        assert Chain(p)[1..] == Chain(DirName(p));
        if i > 0 {
          ChainLinks(DirName(p), i - 1);
        }
      }
    }
  }

  lemma DotIsTop()
    ensures Chain(CURRENT) == [CURRENT] && DirName(CURRENT) == CURRENT && Strip(CURRENT) == CURRENT
  {
    FixedPoints(CURRENT);
    DotComponents();
  }

  lemma DirNameIsStripped(p: string)
    ensures Strip(DirName(p)) == DirName(p)
  {
    DotComponents();
    hide Strip;
    var q := Strip(p);
    forall cut: string
      ensures Strip(Strip(cut)) == Strip(cut)
    {
      StripIdempotent(cut);
    }
  }

  /** Where the second loop stands: chain[from..] are directories, and were not files before. */
  ghost predicate MadeFrom(nodes: map<string, Node>, was: map<string, Node>, chain: seq<string>, from: nat)
    requires from <= |chain|
  {
    && nodes == WithDirectories(was, KeysOf(chain[from..]))
    && (forall j :: from <= j < |chain| ==>
          chain[j] != "" && (Strip(chain[j]) in was ==> was[Strip(chain[j])].Directory?))
    && (from < |chain| ==> DirectoryExists(was, chain[|chain| - 1]))
  }

  /** The paths above number i are all directories now, and number i can be made neither by nor without us. */
  ghost predicate StoppedAt(nodes: map<string, Node>, was: map<string, Node>, chain: seq<string>, i: nat)
    requires i < |chain|
  {
    && nodes == WithDirectories(was, KeysOf(chain[i + 1..]))
    && !DirectoryExists(nodes, chain[i]) && !MkdirWorks(nodes, chain[i])
  }

  lemma StopsHere(nodes: map<string, Node>, was: map<string, Node>, chain: seq<string>, i: nat)
    requires i < |chain| && MadeFrom(nodes, was, chain, i + 1)
    requires !DirectoryExists(nodes, chain[i]) && !MkdirWorks(nodes, chain[i])
    ensures StoppedAt(nodes, was, chain, i)
  {
  }

  lemma KeysOfStep(chain: seq<string>, i: nat)
    requires i < |chain|
    ensures KeysOf(chain[i..]) == KeysOf(chain[i + 1..]) + {Strip(chain[i])}
  {
    hide Strip;
    assert chain[i..] == [chain[i]] + chain[i + 1..];
  }

  lemma MadeOne(nodes: map<string, Node>, was: map<string, Node>, chain: seq<string>, i: nat)
    requires i < |chain| && MadeFrom(nodes, was, chain, i + 1) && "" !in was
    requires DirectoryExists(nodes, chain[i]) || MkdirWorks(nodes, chain[i])
    requires i + 1 == |chain| ==> DirName(chain[i]) == chain[i]
    ensures DirectoryExists(nodes, chain[i]) ==> MadeFrom(nodes, was, chain, i)
    ensures MkdirWorks(nodes, chain[i]) ==> MadeFrom(nodes[Strip(chain[i]) := Directory], was, chain, i)
  {
    hide Strip, DirName, KeysOf;
    KeysOfStep(chain, i);
    var keys := KeysOf(chain[i + 1..]);
    EmptyUp();
    if i + 1 == |chain| {
      NoKeys();
      assert chain[i + 1..] == [];
    } else {
      KeysWereNoFiles(nodes, was, chain, i + 1);
    }
  }

  lemma NoKeys()
    ensures KeysOf([]) == {}
  {
  }

  lemma KeysWereNoFiles(nodes: map<string, Node>, was: map<string, Node>, chain: seq<string>, from: nat)
    requires from <= |chain| && MadeFrom(nodes, was, chain, from)
    ensures forall k :: k in KeysOf(chain[from..]) ==> k != "" && (k in was ==> was[k].Directory?)
  {
    hide Strip;
    forall p | p in chain[from..]
      ensures Strip(p) != "" && (Strip(p) in was ==> was[Strip(p)].Directory?)
    {
      var j :| 0 <= j < |chain[from..]| && chain[from..][j] == p;
      assert chain[from + j] == p;
      StripOfNothing(p);
    }
  }

  lemma StripOfNothing(p: string)
    requires p != ""
    ensures Strip(p) != ""
  {
    StripAllFacts(p);
  }

  /** mkdir fails only over a file, at the empty path or where there is no root. */
  lemma Blocked(nodes: map<string, Node>, was: map<string, Node>, chain: seq<string>, i: nat, p: string)
    requires chain == Chain(p) && i < |chain| && MadeFrom(nodes, was, chain, i + 1)
    requires !DirectoryExists(nodes, chain[i]) && !MkdirWorks(nodes, chain[i])
    ensures !Creatable(was, chain)
  {
    hide Strip, DirName, KeysOf;
    ChainLinks(p, i);
    KeysOfStep(chain, i);
    if i + 1 < |chain| {
      KeysOfStep(chain, i + 1);
      if chain[i] != "" {
        assert DirectoryExists(nodes, chain[i + 1]);
        assert Strip(chain[i]) in nodes && !nodes[Strip(chain[i])].Directory?;
      }
    } else {
      NoKeys();
      assert chain[i + 1..] == [];
    }
  }

  lemma AllMade(nodes: map<string, Node>, was: map<string, Node>, chain: seq<string>)
    requires chain != [] && MadeFrom(nodes, was, chain, 0)
    ensures Creatable(was, chain) && nodes == WithDirectories(was, KeysOf(chain))
  {
    hide Strip, KeysOf;
    assert chain[0..] == chain;
  }

  lemma OnlyAdded(nodes: map<string, Node>, was: map<string, Node>, chain: seq<string>, from: nat)
    requires from <= |chain| && MadeFrom(nodes, was, chain, from)
    ensures OnlyDirectoriesAdded(nodes, was, KeysOf(chain))
  {
    hide Strip;
  }

  method MakeAll(fs: FileSystem, subpaths: seq<string>, ghost fullPath: string) returns (ok: bool)
    requires "" !in fs.nodes && subpaths == Chain(fullPath)
    modifies fs`nodes
    ensures ok <==> Creatable(old(fs.nodes), subpaths)
    ensures ok ==> fs.nodes == WithDirectories(old(fs.nodes), KeysOf(subpaths))
    ensures OnlyDirectoriesAdded(fs.nodes, old(fs.nodes), KeysOf(subpaths))
    ensures !ok ==> exists i :: 0 <= i < |subpaths| && StoppedAt(fs.nodes, old(fs.nodes), subpaths, i)
  {
    hide DirName, Strip, KeysOf, MkdirWorks, DirectoryExists, OnlyDirectoriesAdded, Creatable, MadeFrom, StoppedAt;
    ghost var was := fs.nodes;
    NothingMade(was, subpaths);
    var i := |subpaths|;
    while i > 0
      invariant 0 <= i <= |subpaths| && MadeFrom(fs.nodes, was, subpaths, i)
    {
      i := i - 1;
      ChainLinks(fullPath, i);
      OnlyAdded(fs.nodes, was, subpaths, i + 1);
      if !DirectoryExists(fs.nodes, subpaths[i]) {
        if MkdirWorks(fs.nodes, subpaths[i]) {
          MadeOne(fs.nodes, was, subpaths, i);
        } else {
          Blocked(fs.nodes, was, subpaths, i, fullPath);
          StopsHere(fs.nodes, was, subpaths, i);
        }
        var made := Mkdir(fs, subpaths[i]);
        if !made {
          if !DirectoryExists(fs.nodes, subpaths[i]) {
            return false;
          }
        }
      } else {
        MadeOne(fs.nodes, was, subpaths, i);
      }
    }
    AllMade(fs.nodes, was, subpaths);
    OnlyAdded(fs.nodes, was, subpaths, 0);
    return true;
  }

  lemma NothingMade(was: map<string, Node>, chain: seq<string>)
    ensures MadeFrom(was, was, chain, |chain|)
  {
    assert chain[|chain|..] == [];
    NoKeys();
  }
}
