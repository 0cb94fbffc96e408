/** base/file_enumerator.cc: FileEnumerator::Next, a walk over a directory tree with an explicit stack,
    while the caller may already be deleting what it was given. */
module FileEnumerators {
  import opened Wrappers
  import opened PathAlgebra
  import opened PathAppend
  import opened FileSystems

  predicate Selected(node: Node, files: bool, dirs: bool) {
    if node.Directory? then dirs else files
  }

  /** The loop over a listing: the entries that are not skipped and have a wanted type. */
  function Keep(listing: seq<Info>, files: bool, dirs: bool): seq<Info> {
    if listing == [] then []
    else
      var last := listing[|listing| - 1];
      Keep(listing[..|listing| - 1], files, dirs)
      + if !IsDots(last.name) && Selected(last.node, files, dirs) then [last] else []
  }

  lemma {:induction false} KeepMembers(listing: seq<Info>, files: bool, dirs: bool, e: Info)
    ensures e in Keep(listing, files, dirs) <==> e in listing && !IsDots(e.name) && Selected(e.node, files, dirs)
  {
    if listing == [] {
    } else {
      var shorter := listing[..|listing| - 1];
      KeepMembers(shorter, files, dirs, e);
      assert listing == shorter + [listing[|listing| - 1]];
    }
  }

  lemma {:induction false} KeepDistinct(listing: seq<Info>, files: bool, dirs: bool)
    requires Distinct(listing)
    ensures Distinct(Keep(listing, files, dirs))
  {
    if listing == [] {
    } else {
      var shorter := listing[..|listing| - 1];
      KeepDistinct(shorter, files, dirs);
      var kept := Keep(shorter, files, dirs);
      forall i | 0 <= i < |kept|
        ensures kept[i].name != listing[|listing| - 1].name
      {
        KeepMembers(shorter, files, dirs, kept[i]);
        assert kept[i] in shorter;
      }
    }
  }

  predicate AllNames(entries: seq<Info>) {
    forall e :: e in entries ==> Name(e.name)
  }

  /** The full paths of entries of d. */
  function Paths(d: string, entries: seq<Info>): (paths: seq<string>)
    requires AllNames(entries)
    ensures |paths| == |entries|
  {
    seq(|entries|, i requires 0 <= i < |entries| => ChildPath(d, entries[i].name))
  }

  /** The entries carry what the tree says about their paths. */
  predicate Known(tree: map<string, Node>, paths: seq<string>, entries: seq<Info>, from: nat)
    requires |paths| == |entries|
  {
    forall i :: from <= i < |entries| ==> paths[i] in tree && tree[paths[i]] == entries[i].node
  }

  predicate NoRepeats(paths: seq<string>) {
    forall i, j :: 0 <= i < j < |paths| ==> paths[i] != paths[j]
  }

  function Members(paths: seq<string>): set<string> {
    set p | p in paths
  }

  /** The entries of d in a tree. */
  function Children(tree: map<string, Node>, d: string, files: bool, dirs: bool): set<string> {
    set k | k in tree && ChildOf(k, d) && Selected(tree[k], files, dirs)
  }

  lemma PathsNoRepeats(d: string, entries: seq<Info>)
    requires d != "" && AllNames(entries) && Distinct(entries)
    ensures NoRepeats(Paths(d, entries))
  {
    hide ChildPath;
    forall i, j | 0 <= i < j < |entries|
      ensures Paths(d, entries)[i] != Paths(d, entries)[j]
    {
      ChildPathFacts(d, entries[i].name);
      ChildPathFacts(d, entries[j].name);
    }
  }

  /** What the loop keeps of a complete listing are exactly the wanted children. */
  lemma KeptAreChildren(tree: map<string, Node>, d: string, listing: seq<Info>, files: bool, dirs: bool)
    requires d != "" && Strip(d) == d && Lists(listing, tree, d)
    requires forall k :: k in tree && ChildOf(k, d) ==> IsEntry(tree, k)
    ensures var kept := Keep(listing, files, dirs);
            && AllNames(kept) && NoRepeats(Paths(d, kept))
            && Members(Paths(d, kept)) == Children(tree, d, files, dirs)
            && Known(tree, Paths(d, kept), kept, 0)
  {
    hide ChildPath, DirName, BaseName, Keep, Strip;
    var kept := Keep(listing, files, dirs);
    forall e | e in kept
      ensures e in listing && !IsDots(e.name) && Selected(e.node, files, dirs) && Listed(e, tree, d)
    {
      KeepMembers(listing, files, dirs, e);
    }
    KeepDistinct(listing, files, dirs);
    PathsNoRepeats(d, kept);
    var paths := Paths(d, kept);
    forall k | k in Children(tree, d, files, dirs)
      ensures k in paths
    {
      var e := ChildIsListed(tree, d, listing, k);
      KeepMembers(listing, files, dirs, e);
      var i :| 0 <= i < |kept| && kept[i] == e;
      assert paths[i] == k;
    }
    forall k | k in paths
      ensures k in Children(tree, d, files, dirs)
    {
      var i :| 0 <= i < |paths| && paths[i] == k;
      assert kept[i] in kept;
    }
  }

  lemma ChildIsListed(tree: map<string, Node>, d: string, listing: seq<Info>, k: string) returns (e: Info)
    requires Lists(listing, tree, d) && k in tree && ChildOf(k, d) && IsEntry(tree, k)
    ensures e in listing && !IsDots(e.name) && Name(e.name) && ChildPath(d, e.name) == k && e.node == tree[k]
  {
    hide ChildPath, DirName, BaseName;
    assert BaseName(k) in NamesOf(listing);
    e :| e in listing && e.name == BaseName(k);
    assert Listed(e, tree, d);
  }

  // ---------------------------------------------------------------- the walk, on values

  /** DirName brings every path that is not its fixed point down in this order. */
  function Height(k: string): nat {
    2 * |k| + if k == CURRENT then 0 else 1
  }

  lemma {:induction false} TopIsLowest(tree: map<string, Node>, top: string, d: string)
    requires IsTree(tree, top) && d in tree
    ensures Under(d, top) && (d == top || Height(d) > Height(top))
    decreases Height(d)
  {
    hide DirName, BaseName, ChildPath;
    if d == top {
    } else {
      assert IsEntry(tree, d);
      DirNameShortens(d);
      TopIsLowest(tree, top, DirName(d));
    }
  }

  lemma NotAboveTop(tree: map<string, Node>, top: string, d: string)
    requires IsTree(tree, top) && d in tree
    ensures !ChildOf(top, d)
  {
    hide DirName, IsEntry;
    TopIsLowest(tree, top, d);
    DirNameShortens(top);
  }

  /** The wanted entries of the directories that have been listed. */
  function Found(tree: map<string, Node>, top: string, expanded: set<string>, files: bool, dirs: bool): set<string> {
    set k | k in tree && k != top && DirName(k) in expanded && Selected(tree[k], files, dirs)
  }

  /** The state of a walk: the directories listed so far, those still to be listed, the entries still to
      be handed out and those that have been. */
  datatype Walking = Walking(
    tree: map<string, Node>, top: string, files: bool, dirs: bool,
    expanded: set<string>, pending: seq<string>, remaining: seq<string>, returned: seq<string>)
  {
    predicate Waiting(d: string) {
      d in tree && tree[d].Directory? && d !in expanded && (d != top ==> DirName(d) in expanded)
    }

    predicate Done(d: string) {
      d in tree && tree[d].Directory? && (d != top ==> DirName(d) in expanded && (dirs ==> d in returned))
    }

    ghost predicate Inv() {
      && IsTree(tree, top)
      && (forall d :: d in expanded ==> Done(d))
      && (forall d :: d in pending ==> Waiting(d))
      && NoRepeats(pending)
      && NoRepeats(returned + remaining)
      && Members(returned + remaining) == Found(tree, top, expanded, files, dirs)
      && (forall d :: d in tree && tree[d].Directory? && (d == top || DirName(d) in expanded) ==>
            d in expanded || d in pending)
    }

    /** Listing the directory on top of the stack. */
    function Expand(newDirs: seq<string>, newEntries: seq<string>): Walking
      requires pending != []
    {
      var d := pending[|pending| - 1];
      this.(expanded := expanded + {d}, pending := pending[..|pending| - 1] + newDirs, remaining := newEntries)
    }

    /** Handing out the next entry. */
    function Take(): Walking
      requires remaining != []
    {
      this.(remaining := remaining[1..], returned := returned + [remaining[0]])
    }
  }

  lemma WalkStarts(tree: map<string, Node>, top: string, files: bool, dirs: bool)
    requires IsTree(tree, top)
    ensures Walking(tree, top, files, dirs, {}, [top], [], []).Inv()
  {
    hide IsEntry, DirName;
  }

  lemma FoundGrows(w: Walking, d: string)
    requires w.Inv() && d in w.tree
    ensures Found(w.tree, w.top, w.expanded + {d}, w.files, w.dirs)
         == Found(w.tree, w.top, w.expanded, w.files, w.dirs) + Children(w.tree, d, w.files, w.dirs)
  {
    hide DirName, IsEntry;
    NotAboveTop(w.tree, w.top, d);
    forall k | k in w.tree && k != w.top
      ensures DirName(k) == d ==> k != d
    {
      EntryMoves(w.tree, w.top, k);
    }
  }

  lemma EntryMoves(tree: map<string, Node>, top: string, k: string)
    requires IsTree(tree, top) && k in tree && k != top
    ensures DirName(k) != k && DirName(k) in tree && tree[DirName(k)].Directory? && k != ""
  {
    assert IsEntry(tree, k);
  }

  lemma MembersConcat(a: seq<string>, b: seq<string>)
    ensures Members(a + b) == Members(a) + Members(b)
  {
  }

  lemma NoRepeatsConcat(a: seq<string>, b: seq<string>)
    requires NoRepeats(a) && NoRepeats(b) && Members(a) !! Members(b)
    ensures NoRepeats(a + b)
  {
    forall i, j | 0 <= i < j < |a + b|
      ensures (a + b)[i] != (a + b)[j]
    {
      assert i < |a| ==> a[i] in Members(a);
      assert j >= |a| ==> b[j - |a|] in Members(b);
    }
  }

  lemma WalkExpands(w: Walking, newDirs: seq<string>, newEntries: seq<string>)
    requires w.Inv() && w.pending != [] && w.remaining == []
    requires NoRepeats(newDirs) && NoRepeats(newEntries)
    requires var d := w.pending[|w.pending| - 1];
             && Members(newDirs) == Children(w.tree, d, false, true)
             && Members(newEntries) == Children(w.tree, d, w.files, w.dirs)
    ensures w.Expand(newDirs, newEntries).Inv()
  {
    hide DirName, IsEntry, IsTree;
    var d := w.pending[|w.pending| - 1];
    var rest := w.pending[..|w.pending| - 1];
    var v := w.Expand(newDirs, newEntries);
    assert w.Waiting(d);
    FoundGrows(w, d);
    NotAboveTop(w.tree, w.top, d);
    assert w.returned + w.remaining == w.returned;
    assert v.Done(d) by {
      if d != w.top && w.dirs {
        assert d in Found(w.tree, w.top, w.expanded, w.files, w.dirs);
      }
    }
    forall e | e in w.expanded
      ensures v.Done(e)
    {
      assert w.Done(e);
    }
    assert Members(w.returned) !! Members(newEntries);
    MembersConcat(w.returned, newEntries);
    NoRepeatsConcat(w.returned, newEntries);
    forall k | k in newDirs
      ensures k in Children(w.tree, d, false, true) && v.Waiting(k) && k !in rest
    {
      assert k in Members(newDirs);
      assert k in w.expanded ==> w.Done(k);
      assert k in w.pending ==> w.Waiting(k);
    }
    forall e | e in rest
      ensures v.Waiting(e)
    {
      assert e in w.pending && w.Waiting(e);
    }
    NoRepeatsConcat(rest, newDirs);
    forall e | e in w.tree && w.tree[e].Directory? && (e == w.top || DirName(e) in v.expanded)
      ensures e in v.expanded || e in v.pending
    {
      if e != w.top && DirName(e) == d {
        EntryMoves(w.tree, w.top, e);
        assert e in Members(newDirs);
      } else {
        assert e in w.expanded || e in w.pending;
      }
    }
  }

  lemma WalkTakes(w: Walking)
    requires w.Inv() && w.remaining != []
    ensures w.Take().Inv()
    ensures var k := w.remaining[0];
            && k in w.tree && k != w.top && Selected(w.tree[k], w.files, w.dirs) && k !in w.returned
            && DirName(k) in w.expanded
            && (w.dirs ==> DirName(k) == w.top || DirName(k) in w.returned)
  {
    hide DirName, IsEntry, IsTree;
    var k, v := w.remaining[0], w.Take();
    assert v.returned + v.remaining == w.returned + w.remaining;
    var all := w.returned + w.remaining;
    assert all[|w.returned|] == k;
    assert forall i :: 0 <= i < |w.returned| ==> all[i] == w.returned[i] && all[i] != all[|w.returned|];
    assert k in Members(w.returned + w.remaining);
    assert w.Done(DirName(k));
    forall d | d in w.expanded
      ensures v.Done(d)
    {
      assert w.Done(d);
    }
    forall d | d in w.pending
      ensures v.Waiting(d)
    {
      assert w.Waiting(d);
    }
  }

  lemma {:induction false} AllExpanded(w: Walking, d: string)
    requires w.Inv() && w.pending == [] && d in w.tree && w.tree[d].Directory?
    ensures d in w.expanded
    decreases Height(d)
  {
    hide DirName, IsEntry, IsTree;
    if d == w.top {
    } else {
      EntryMoves(w.tree, w.top, d);
      DirNameShortens(d);
      AllExpanded(w, DirName(d));
    }
  }

  /** A finished walk has handed out every wanted entry of the tree, each once. */
  lemma WalkIsComplete(w: Walking)
    requires w.Inv() && w.pending == [] && w.remaining == []
    ensures NoRepeats(w.returned)
    ensures Members(w.returned) == set k | k in w.tree && k != w.top && Selected(w.tree[k], w.files, w.dirs)
  {
    hide DirName, IsEntry, IsTree;
    assert w.returned + w.remaining == w.returned;
    forall k | k in w.tree && k != w.top
      ensures DirName(k) in w.expanded
    {
      EntryMoves(w.tree, w.top, k);
      AllExpanded(w, DirName(k));
    }
  }

  // ---------------------------------------------------------------- the enumerator

  /** While the walk goes on, only files that it has listed may have disappeared. */
  ghost predicate Intact(nodes: map<string, Node>, w: Walking) {
    && "" !in nodes
    && (forall k :: k in nodes && Under(k, w.top) ==> k in w.tree && nodes[k] == w.tree[k])
    && (forall k :: k in w.tree && (w.tree[k].Directory? || DirName(k) !in w.expanded) ==> k in nodes)
  }

  lemma StartsIntact(nodes: map<string, Node>, w: Walking)
    requires w.tree == Subtree(nodes, w.top) && w.expanded == {} && "" !in nodes
    ensures Intact(nodes, w)
  {
    hide Under, DirName;
  }

  lemma PathsAppend(d: string, entries: seq<Info>, e: Info)
    requires AllNames(entries) && Name(e.name)
    ensures AllNames(entries + [e]) && Paths(d, entries + [e]) == Paths(d, entries) + [ChildPath(d, e.name)]
  {
    hide ChildPath;
  }

  lemma KeepNothing(d: string)
    ensures Keep([], false, true) == [] && Paths(d, []) == []
    ensures forall files, dirs :: Keep([], files, dirs) == []
  {
  }

  lemma KeepStep(listing: seq<Info>, i: nat, files: bool, dirs: bool)
    requires i < |listing|
    ensures var kept := Keep(listing[..i], files, dirs);
            Keep(listing[..i + 1], files, dirs) ==
              if !IsDots(listing[i].name) && Selected(listing[i].node, files, dirs) then kept + [listing[i]] else kept
  {
    assert listing[..i + 1][..i] == listing[..i];
  }

  /** What ReadDirectory asks for, and that it succeeds, while the walk is intact. */
  lemma ListingMatches(fs: FileSystem, w: Walking, d: string)
    requires w.Inv() && Intact(fs.nodes, w) && d in w.pending
    ensures d != "" && Strip(d) == d && fs.Lookup(d) == Some(Directory)
    ensures forall k :: k in fs.nodes && ChildOf(k, d) ==> IsEntry(fs.nodes, k)
  {
    hide ChildPath;
    assert w.Waiting(d);
    TreePathStripped(w.tree, w.top, d);
    TopIsLowest(w.tree, w.top, d);
    forall k | k in fs.nodes && ChildOf(k, d)
      ensures IsEntry(fs.nodes, k)
    {
      ChildInTree(fs.nodes, w, d, k);
      assert IsEntry(w.tree, k);
    }
  }

  lemma TreePathStripped(tree: map<string, Node>, top: string, d: string)
    requires IsTree(tree, top) && d in tree
    ensures d != "" && Strip(d) == d
  {
    hide DirName, BaseName, Strip, ChildPath;
    if d != top {
      assert IsEntry(tree, d);
      ChildPathStripped(DirName(d), BaseName(d));
    }
  }

  lemma ChildPathStripped(d: string, x: string)
    requires d != "" && Name(x)
    ensures Strip(ChildPath(d, x)) == ChildPath(d, x)
  {
    NameIsAppendable(x);
    if d == CURRENT {
      StripIdempotent(x);
    } else {
      AppendIs(d, x);
      StrippedEnd(d);
      JoinedParts(Strip(d), x);
    }
  }

  lemma ChildInTree(nodes: map<string, Node>, w: Walking, d: string, k: string)
    requires w.Inv() && Intact(nodes, w) && d in w.tree && k in nodes && ChildOf(k, d)
    ensures k in w.tree && k != w.top && nodes[k] == w.tree[k]
  {
    hide IsEntry, DirName;
    TopIsLowest(w.tree, w.top, d);
    NotAboveTop(w.tree, w.top, d);
    assert Under(k, w.top);
  }

  lemma PathsStripped(d: string, entries: seq<Info>)
    requires d != "" && AllNames(entries)
    ensures forall i :: 0 <= i < |entries| ==> Strip(Paths(d, entries)[i]) == Paths(d, entries)[i] != ""
  {
    hide ChildPath, Strip;
    forall i | 0 <= i < |entries|
      ensures Strip(Paths(d, entries)[i]) == Paths(d, entries)[i] != ""
    {
      ChildPathStripped(d, entries[i].name);
      ChildPathFacts(d, entries[i].name);
    }
  }

  lemma IntactGrows(nodes: map<string, Node>, w: Walking, v: Walking)
    requires Intact(nodes, w) && v.tree == w.tree && v.top == w.top && w.expanded <= v.expanded
    ensures Intact(nodes, v)
  {
    hide Under, DirName;
  }

  lemma ListsTransfer(nodes: map<string, Node>, w: Walking, d: string, listing: seq<Info>)
    requires w.Inv() && Intact(nodes, w) && d in w.pending && Lists(listing, nodes, d)
    ensures Lists(listing, w.tree, d)
    ensures forall k :: k in w.tree && ChildOf(k, d) ==> IsEntry(w.tree, k)
  {
    hide IsEntry, DirName, BaseName, ChildPath, NamesOf;
    assert w.Waiting(d);
    NotAboveTop(w.tree, w.top, d);
    forall e | e in listing
      ensures Listed(e, w.tree, d)
    {
      assert Listed(e, nodes, d);
      if !IsDots(e.name) {
        ChildInTree(nodes, w, d, ChildPath(d, e.name));
      }
    }
    forall k | k in w.tree && ChildOf(k, d)
      ensures k in nodes && IsEntry(w.tree, k)
    {
    }
  }

  lemma PathAt(d: string, entries: seq<Info>, i: nat)
    requires AllNames(entries) && i < |entries| && d != ""
    ensures Name(entries[i].name) && Paths(d, entries)[i] == ChildPath(d, entries[i].name) != ""
  {
    hide ChildPath;
    assert entries[i] in entries;
    ChildPathFacts(d, entries[i].name);
  }

  lemma TakeFrom(w: Walking, paths: seq<string>, at: nat)
    requires at < |paths| && w.remaining == paths[at..]
    ensures w.remaining[0] == paths[at]
    ensures w.Take() == w.(remaining := paths[at + 1..], returned := w.returned + [paths[at]])
  {
    assert paths[at..][1..] == paths[at + 1..];
  }

  lemma TopWaits(w: Walking)
    requires w.Inv() && w.pending != []
    ensures var d := w.pending[|w.pending| - 1]; d in w.pending && w.Waiting(d)
    ensures w.expanded <= w.tree.Keys
  {
    hide DirName, IsEntry;
    assert forall d :: d in w.expanded ==> w.Done(d);
  }

  /** What a listing of the directory on top of the stack does to the walk. */
  lemma Opened(nodes: map<string, Node>, w: Walking, listing: seq<Info>)
    requires w.Inv() && Intact(nodes, w) && w.pending != [] && w.remaining == []
    requires Lists(listing, nodes, w.pending[|w.pending| - 1])
    ensures var d := w.pending[|w.pending| - 1];
            var dirs, kept := Keep(listing, false, true), Keep(listing, w.files, w.dirs);
            && d != "" && AllNames(listing) && AllNames(dirs) && AllNames(kept)
            && w.Expand(Paths(d, dirs), Paths(d, kept)).Inv()
            && Intact(nodes, w.Expand(Paths(d, dirs), Paths(d, kept)))
            && Known(w.tree, Paths(d, kept), kept, 0)
            && (forall p :: p in Paths(d, dirs) ==> p != "" && Strip(p) == p)
  {
    hide ChildPath, DirName, Strip, Walking.Inv, Keep, Paths, Intact;
    var d := w.pending[|w.pending| - 1];
    TopWaits(w);
    InTree(w, d);
    ListsTransfer(nodes, w, d, listing);
    KeptAreChildren(w.tree, d, listing, w.files, w.dirs);
    KeptAreChildren(w.tree, d, listing, false, true);
    WalkExpands(w, Paths(d, Keep(listing, false, true)), Paths(d, Keep(listing, w.files, w.dirs)));
    PathsStripped(d, Keep(listing, false, true));
    IntactGrows(nodes, w, w.Expand(Paths(d, Keep(listing, false, true)), Paths(d, Keep(listing, w.files, w.dirs))));
  }

  lemma InTree(w: Walking, d: string)
    requires w.Inv() && d in w.tree
    ensures d != "" && Strip(d) == d
  {
    TreePathStripped(w.tree, w.top, d);
  }

  class FileEnumerator {
    var entries: seq<Info>        // directory_entries_
    var current: nat              // current_directory_entry_
    var rootPath: string          // root_path_
    var pending: seq<string>      // pending_paths_, its top at the end
    const wantFiles: bool
    const wantDirs: bool
    ghost const tree: map<string, Node>
    ghost const top: string
    ghost var expanded: set<string>
    ghost var returned: seq<string>

    ghost function Stripped(paths: seq<string>): seq<string> {
      seq(|paths|, i requires 0 <= i < |paths| => Strip(paths[i]))
    }

    /** The walk that stands behind the fields, with entries[from..] still to be handed out. */
    ghost function Walk(from: nat): Walking
      requires AllNames(entries)
      reads this
    {
      Walking(tree, top, wantFiles, wantDirs, expanded, Stripped(pending),
              if from <= |entries| then Paths(rootPath, entries)[from..] else [], returned)
    }

    ghost predicate Consistent(from: nat)
      reads this
    {
      && AllNames(entries) && Walk(from).Inv()
      && Known(tree, Paths(rootPath, entries), entries, from)
      && (from < |entries| ==> rootPath != "")
      && (forall p :: p in pending ==> p != "")
    }

    ghost predicate Valid()
      reads this
    {
      AllNames(entries) && Consistent(current + 1)
    }

    /** A recursive enumeration of the directory at `root`. */
    constructor (root: string, files: bool, dirs: bool, ghost nodes: map<string, Node>)
      requires root != "" && IsTree(Subtree(nodes, Strip(root)), Strip(root)) && "" !in nodes
      ensures Valid() && fresh(this) && wantFiles == files && wantDirs == dirs
      ensures tree == Subtree(nodes, Strip(root)) && top == Strip(root)
      ensures expanded == {} && returned == [] && Intact(nodes, Walk(current + 1))
    {
      hide IsTree, IsEntry, Strip, Intact, Subtree, Walking.Inv, Paths;
      entries := [];
      current := 0;
      rootPath := root;
      wantFiles := files;
      wantDirs := dirs;
      pending := [root];
      tree := Subtree(nodes, Strip(root));
      top := Strip(root);
      expanded := {};
      returned := [];
      new;
      WalkStarts(tree, top, files, dirs);
      assert Stripped(pending) == [top];
      assert Walk(1) == Walking(tree, top, files, dirs, {}, [top], [], []);
      StartsIntact(nodes, Walk(1));
    }

    /** Adds the entries of one listing: directories are stacked, wanted types are kept. */
    method Collect(listing: seq<Info>)
      requires entries == [] && rootPath != "" && AllNames(listing)
      modifies this`entries, this`pending
      ensures entries == Keep(listing, wantFiles, wantDirs)
      ensures AllNames(Keep(listing, false, true))
      ensures pending == old(pending) + Paths(rootPath, Keep(listing, false, true))
    {
      hide ChildPath, BaseName, Append, Keep, Paths, Name;
      ghost var before := pending;
      var i := 0;
      KeepNothing(rootPath);
      while i < |listing|
        invariant i <= |listing|
        invariant entries == Keep(listing[..i], wantFiles, wantDirs)
        invariant AllNames(Keep(listing[..i], false, true))
        invariant pending == before + Paths(rootPath, Keep(listing[..i], false, true))
      {
        var e := listing[i];
        assert e in listing;
        KeepStep(listing, i, wantFiles, wantDirs);
        KeepStep(listing, i, false, true);
        PathsAppend(rootPath, Keep(listing[..i], false, true), e);
        var fullPath := ChildPath(rootPath, e.name);
        ChildPathFacts(rootPath, e.name);
        var baseName := BaseName(fullPath);
        if !(baseName == CURRENT || baseName == PARENT) {
          if e.node.Directory? {
            pending := pending + [fullPath];
          }
          if (e.node.Directory? && wantDirs) || (!e.node.Directory? && wantFiles) {
            entries := entries + [e];
          }
        }
        i := i + 1;
      }
      assert listing[..i] == listing;
    }

    method Next(fs: FileSystem) returns (path: string)
      requires Valid() && Intact(fs.nodes, Walk(current + 1))
      modifies this
      ensures Valid() && Intact(fs.nodes, Walk(current + 1))
      ensures path == "" ==>
                && returned == old(returned) && pending == [] && Walk(current + 1).remaining == []
      ensures path != "" ==>
                && returned == old(returned) + [path] && path !in old(returned)
                && path in tree && path != top && Selected(tree[path], wantFiles, wantDirs)
                && current < |entries| && entries[current].node == tree[path]
                && (wantDirs ==> DirName(path) == top || DirName(path) in old(returned))
    {
      hide ChildPath, DirName, Strip, Intact, Walking.Inv, Selected, Name, Paths;
      current := current + 1;
      while current >= |entries|
        invariant Consistent(current) && Intact(fs.nodes, Walk(current))
        invariant returned == old(returned)
        decreases tree.Keys - expanded
      {
        if pending == [] {
          assert Walk(current).remaining == [];
          assert Walk(current + 1) == Walk(current);
          return "";
        }
        OpenNext(fs);
      }
      path := HandOut(fs.nodes);
    }

    /** The entry that the cursor stands on. */
    method HandOut(ghost nodes: map<string, Node>) returns (path: string)
      requires Consistent(current) && current < |entries| && Intact(nodes, Walk(current))
      modifies this`returned
      ensures Valid() && Intact(nodes, Walk(current + 1))
      ensures path != "" && returned == old(returned) + [path] && path !in old(returned)
      ensures path in tree && path != top && Selected(tree[path], wantFiles, wantDirs)
      ensures entries[current].node == tree[path]
      ensures wantDirs ==> DirName(path) == top || DirName(path) in old(returned)
    {
      hide ChildPath, DirName, Intact, Walking.Inv, Selected, Name, Paths, Strip;
      ghost var w := Walk(current);
      WalkTakes(w);
      PathAt(rootPath, entries, current);
      TakeFrom(w, Paths(rootPath, entries), current);
      path := ChildPath(rootPath, entries[current].name);
      returned := returned + [path];
      IntactGrows(nodes, w, w.Take());
    }

    /** One round of the loop in Next: list the directory on top of the stack. */
    method OpenNext(fs: FileSystem)
      requires Consistent(current) && current >= |entries| && pending != []
      requires Intact(fs.nodes, Walk(current))
      modifies this
      ensures Consistent(current) && Intact(fs.nodes, Walk(current))
      ensures returned == old(returned) && expanded > old(expanded) && expanded <= tree.Keys
    {
      hide ChildPath, DirName, Strip, Intact, Walking.Inv, Lists, Keep, Paths, IsEntry, Name;
      ghost var w := Walk(current);
      ghost var rest := Stripped(pending[..|pending| - 1]);
      rootPath := pending[|pending| - 1];
      rootPath := Strip(rootPath);
      pending := pending[..|pending| - 1];
      TopWaits(w);
      ListingMatches(fs, w, rootPath);
      var ok, listing := fs.ReadDirectory(rootPath);
      if !ok {
        return;
      }
      entries := [];
      current := 0;
      Opened(fs.nodes, w, listing);
      Collect(listing);
      expanded := expanded + {rootPath};
      ghost var newDirs := Paths(rootPath, Keep(listing, false, true));
      assert Stripped(pending) == rest + newDirs;
      assert Walk(0) == w.Expand(newDirs, Paths(rootPath, entries));
      assert forall p :: p in pending ==> p in old(pending) || p in newDirs;
    }
  }
}
