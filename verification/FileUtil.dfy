/** DeleteFile of base/file_util.cc over the model file system. */
module FileUtil {
  import opened Wrappers
  import opened PathAlgebra
  import opened FileSystems
  import opened FileEnumerators

  // ---------------------------------------------------------------- DeleteFile

  /** Every directory on the stack has its parent further down. */
  predicate ParentsFirst(stack: seq<string>) {
    forall j :: 1 <= j < |stack| ==> DirName(stack[j]) in stack[..j]
  }

  lemma ParentsFirstAppend(stack: seq<string>, d: string)
    requires ParentsFirst(stack) && stack != [] && DirName(d) in stack
    ensures ParentsFirst(stack + [d])
  {
    hide DirName;
    var more := stack + [d];
    forall j | 1 <= j < |more|
      ensures DirName(more[j]) in more[..j]
    {
      assert more[..j] == stack[..j];
    }
  }

  lemma ParentsFirstPrefix(stack: seq<string>, n: nat)
    requires ParentsFirst(stack) && n <= |stack|
    ensures ParentsFirst(stack[..n])
  {
    hide DirName;
    forall j | 1 <= j < n
      ensures DirName(stack[..n][j]) in stack[..n][..j]
    {
      assert stack[..n][..j] == stack[..j];
    }
  }

  /** When what is left of a tree is exactly the stack, the directory on top is empty. */
  lemma TopIsEmpty(fs: FileSystem, tree: map<string, Node>, top: string, stack: seq<string>)
    requires IsTree(tree, top) && stack != [] && stack[0] == top && NoRepeats(stack) && ParentsFirst(stack)
    requires "" !in fs.nodes
    requires forall k :: k in fs.nodes && Under(k, top) ==> k in stack
    requires forall d :: d in stack ==> d in tree
    ensures fs.IsEmpty(stack[|stack| - 1])
  {
    hide DirName, IsTree, IsEntry;
    var d := stack[|stack| - 1];
    TopIsLowest(tree, top, d);
    NotAboveTop(tree, top, d);
    forall k | k in fs.nodes
      ensures !ChildOf(k, d)
    {
      if ChildOf(k, d) {
        assert Under(k, top);
        var j :| 0 <= j < |stack| && stack[j] == k;
      }
    }
  }

  /** The entries of a list that are of one kind. */
  function OfKind(tree: map<string, Node>, paths: set<string>, directory: bool): set<string> {
    set k | k in paths && k in tree && tree[k].Directory? == directory
  }

  /** Files handed out have a listed parent, so removing them leaves the walk intact. */
  lemma RemovalKeepsIntact(nodes: map<string, Node>, w: Walking, k: string)
    requires w.Inv() && Intact(nodes, w) && k in w.returned && k in w.tree && w.tree[k].File?
    ensures Intact(nodes - {k}, w)
  {
    hide DirName, Under, IsTree, NoRepeats;
    ReturnedInTree(w, k);
  }

  lemma ReturnedInTree(w: Walking, k: string)
    requires w.Inv() && k in w.returned
    ensures k in w.tree && k != w.top && DirName(k) in w.expanded
  {
    hide DirName, IsTree;
    assert k in Members(w.returned + w.remaining);
  }

  method DeleteFile(fs: FileSystem, path: string, recursive: bool) returns (ok: bool)
    requires "" !in fs.nodes
    requires recursive && fs.Lookup(path) == Some(Directory) ==> IsTree(Subtree(fs.nodes, Strip(path)), Strip(path))
    modifies fs
    ensures old(fs.Lookup(path)).None? ==> ok && fs.nodes == old(fs.nodes)
    ensures old(fs.Lookup(path)).Some? && old(fs.Lookup(path)).value.File? ==>
              && (ok <==> path !in fs.stuck)
              && fs.nodes == if ok then old(fs.nodes) - {path} else old(fs.nodes)
    ensures old(fs.Lookup(path)) == Some(Directory) && !recursive ==>
              && (ok <==> old(fs.IsEmpty(Strip(path))) && !fs.Refuses(Strip(path)))
              && fs.nodes == if ok then old(fs.nodes) - {Strip(path)} else old(fs.nodes)
    ensures old(fs.Lookup(path)) == Some(Directory) && recursive ==>
              var tree := old(Subtree(fs.nodes, Strip(path)));
              && (ok <==> forall k :: k in tree ==> !fs.Refuses(k))
              && (if ok then fs.nodes == old(fs.nodes) - tree.Keys
                  else Stopped(fs, fs.nodes, old(fs.nodes), tree, Strip(path)))
              && fs.nodes.Keys <= old(fs.nodes).Keys
              && (forall k :: k in old(fs.nodes) && k !in tree ==> k in fs.nodes && fs.nodes[k] == old(fs.nodes)[k])
              && fs.rmdirsOnFull == old(fs.rmdirsOnFull)
  {
    var info := fs.Lookup(path);
    if info.None? {
      return true;
    }
    if !info.value.Directory? {
      StripOfFile(fs, path);
      ok := fs.Unlink(path);
      return;
    }
    if !recursive {
      ok := fs.Rmdir(path);
      return;
    }
    ok := DeleteTree(fs, path);
  }

  lemma StripOfFile(fs: FileSystem, path: string)
    requires fs.Lookup(path).Some? && fs.Lookup(path).value.File?
    ensures path in fs.nodes && fs.nodes[path].File?
  {
  }

  /** Nothing in the tree is refused by the system. */
  ghost predicate Removable(fs: FileSystem, keys: set<string>) {
    forall k :: k in keys ==> !fs.Refuses(k)
  }

  /** Nodes may only have disappeared, and only inside `keys`. */
  ghost predicate OnlyLost(nodes: map<string, Node>, was: map<string, Node>, keys: set<string>) {
    && (forall k :: k in nodes ==> k in was && nodes[k] == was[k])
    && (forall k :: k in was && k !in keys ==> k in nodes)
  }

  predicate IsFile(tree: map<string, Node>, k: string) {
    k in tree && tree[k].File?
  }

  predicate IsRefusedFile(fs: FileSystem, tree: map<string, Node>, k: string) {
    IsFile(tree, k) && k in fs.stuck
  }

  /** What a deletion that was refused leaves behind: all that is refused, in a tree that still hangs
      together; no directory is gone while a file is refused, and otherwise no file is left. */
  ghost predicate Stopped(fs: FileSystem, nodes: map<string, Node>, was: map<string, Node>, tree: map<string, Node>,
                          top: string) {
    && OnlyLost(nodes, was, tree.Keys)
    && (forall k :: k in tree && fs.Refuses(k) ==> k in nodes)
    && (forall k :: k in tree && k in nodes && k != top ==> DirName(k) in nodes)
    && (if exists f :: IsRefusedFile(fs, tree, f)
        then forall d :: d in tree && tree[d].Directory? ==> d in nodes
        else forall f :: IsFile(tree, f) ==> f !in nodes)
  }

  lemma StoppedAtFile(fs: FileSystem, was: map<string, Node>, tree: map<string, Node>, top: string,
                      handled: set<string>, current: string)
    requires tree == Subtree(was, top) && IsTree(tree, top)
    requires FilesGone(fs.nodes, was, tree, fs.stuck, handled) && IsRefusedFile(fs, tree, current)
    ensures Stopped(fs, fs.nodes, was, tree, top) && !Removable(fs, tree.Keys)
  {
    hide IsTree, Stopped, FileSystem.Refuses, Removable, Under;
    InSubtreeAll(was, top);
    StuckIsRefused(fs, current);
    NotRemovable(fs, tree, current);
    OnlyFilesLost(fs, was, tree, handled);
    DirectoriesKept(fs, fs.nodes, was, tree, top, current);
  }

  lemma NotRemovable(fs: FileSystem, tree: map<string, Node>, k: string)
    requires k in tree && fs.Refuses(k)
    ensures !Removable(fs, tree.Keys)
  {
  }

  lemma InSubtreeAll(was: map<string, Node>, top: string)
    ensures forall k :: k in Subtree(was, top) ==> k in was && was[k] == Subtree(was, top)[k]
  {
    hide Under;
  }

  lemma OnlyFilesLost(fs: FileSystem, was: map<string, Node>, tree: map<string, Node>, handled: set<string>)
    requires FilesGone(fs.nodes, was, tree, fs.stuck, handled)
    requires forall k :: k in tree ==> k in was && was[k] == tree[k]
    ensures OnlyLost(fs.nodes, was, tree.Keys)
    ensures forall k :: k in tree && (tree[k].Directory? || k in fs.stuck) ==> k in fs.nodes
  {
    hide FileSystem.Refuses;
  }

  lemma DirectoriesKept(fs: FileSystem, nodes: map<string, Node>, was: map<string, Node>, tree: map<string, Node>,
                        top: string, current: string)
    requires IsTree(tree, top) && OnlyLost(nodes, was, tree.Keys) && IsRefusedFile(fs, tree, current)
    requires forall k :: k in tree && (tree[k].Directory? || k in fs.stuck) ==> k in nodes
    ensures Stopped(fs, nodes, was, tree, top)
  {
    hide OnlyLost, IsTree, FileSystem.Refuses, DirName;
    forall k | k in tree && fs.Refuses(k) ensures k in nodes {
      if tree[k].File? {
        FileIsNoDot(tree, top, k);
        RefusedFileIsStuck(fs, k);
      }
    }
    forall k | k in tree && k != top ensures DirName(k) in tree && tree[DirName(k)].Directory? {
      EntryMoves(tree, top, k);
    }
  }

  lemma RefusedFileIsStuck(fs: FileSystem, k: string)
    requires BaseName(k) != CURRENT
    ensures fs.Refuses(k) <==> k in fs.stuck
  {
  }

  lemma FileIsNoDot(tree: map<string, Node>, top: string, k: string)
    requires IsTree(tree, top) && k in tree && tree[k].File?
    ensures BaseName(k) != CURRENT
  {
    hide DirName, BaseName, Strip;
    assert IsEntry(tree, k);
  }

  lemma StoppedAtDirectory(fs: FileSystem, was: map<string, Node>, tree: map<string, Node>, top: string,
                           stack: seq<string>, n: nat)
    requires tree == Subtree(was, top) && IsTree(tree, top)
    requires Stacked(stack, tree, top, tree.Keys) && n < |stack| && fs.Refuses(stack[n])
    requires OnStack(fs, fs.nodes, was, tree, stack[..n + 1])
    ensures Stopped(fs, fs.nodes, was, tree, top) && !Removable(fs, tree.Keys)
  {
    hide Subtree, IsTree, OnStack, Stopped, Removable, FileSystem.Refuses, ParentsFirst, NoRepeats, DirName;
    var left := stack[..n + 1];
    assert left[n] == stack[n];
    forall d | d in left ensures d in tree && tree[d] == Directory {
      StackInTree(tree, top, stack, d);
    }
    NotRemovable(fs, tree, stack[n]);
    OnStackOnlyLost(fs, fs.nodes, was, tree, left);
    InSubtreeAll(was, top);
    ParentsFirstPrefix(stack, n + 1);
    StackHangsTogether(left, top);
    StackKept(fs, fs.nodes, was, tree, top, left);
  }

  lemma StackHangsTogether(left: seq<string>, top: string)
    requires ParentsFirst(left) && left != [] && left[0] == top
    ensures forall k :: k in left && k != top ==> DirName(k) in left
  {
    hide DirName;
    forall k | k in left && k != top ensures DirName(k) in left {
      var j :| 0 <= j < |left| && left[j] == k;
      assert DirName(left[j]) in left[..j];
    }
  }

  lemma StackKept(fs: FileSystem, nodes: map<string, Node>, was: map<string, Node>, tree: map<string, Node>,
                  top: string, left: seq<string>)
    requires OnStack(fs, nodes, was, tree, left) && OnlyLost(nodes, was, tree.Keys)
    requires forall k :: k in tree ==> k in was && was[k] == tree[k]
    requires forall d :: d in left ==> d in tree && tree[d] == Directory
    requires forall k :: k in left && k != top ==> DirName(k) in left
    ensures Stopped(fs, nodes, was, tree, top)
  {
    hide OnlyLost, FileSystem.Refuses, DirName;
    forall k | k in tree ensures k in nodes <==> k in left {
    }
    forall f | IsFile(tree, f) ensures !IsRefusedFile(fs, tree, f) && f !in nodes {
      StuckIsRefused(fs, f);
    }
  }

  lemma StuckIsRefused(fs: FileSystem, k: string)
    ensures k in fs.stuck ==> fs.Refuses(k)
  {
  }

  /** The recursive half of DeleteFile. */
  method DeleteTree(fs: FileSystem, path: string) returns (success: bool)
    requires "" !in fs.nodes && fs.Lookup(path) == Some(Directory)
    requires IsTree(Subtree(fs.nodes, Strip(path)), Strip(path))
    modifies fs
    ensures var keys := old(Subtree(fs.nodes, Strip(path))).Keys;
            && (success <==> Removable(fs, keys))
            && (if success then fs.nodes == old(fs.nodes) - keys
                else Stopped(fs, fs.nodes, old(fs.nodes), old(Subtree(fs.nodes, Strip(path))), Strip(path)))
            && OnlyLost(fs.nodes, old(fs.nodes), keys)
            && fs.rmdirsOnFull == old(fs.rmdirsOnFull)
  {
    hide Subtree, IsTree, FilesGone, Stacked, Strip, Stopped, OnlyLost, Removable;
    ghost var all := Subtree(fs.nodes, Strip(path));
    ghost var tree := Subtree(fs.nodes, Strip(path));
    ghost var was := fs.nodes;
    var directories;
    success, directories := DeleteFiles(fs, path);
    if success {
      success := DeleteDirectories(fs, path, directories, was, tree);
    }
  }

  /** The files among `handled` are gone and nothing else is. */
  ghost predicate FilesGone(
      nodes: map<string, Node>, was: map<string, Node>, tree: map<string, Node>, stuck: set<string>, handled: set<string>) {
    && nodes == was - OfKind(tree, handled, false)
    && OfKind(tree, handled, false) !! stuck
  }

  /** The stack of the first loop: the tree's top, then the directories handed out. */
  ghost predicate Stacked(stack: seq<string>, tree: map<string, Node>, top: string, handled: set<string>) {
    && stack != [] && stack[0] == top && NoRepeats(stack) && ParentsFirst(stack)
    && Members(stack) == OfKind(tree, handled, true) + {top}
  }

  lemma StackStep(stack: seq<string>, tree: map<string, Node>, top: string, handled: set<string>, d: string)
    requires Stacked(stack, tree, top, handled) && d in tree && tree[d].Directory? && d !in handled && d != top
    requires DirName(d) == top || (DirName(d) in handled && DirName(d) in tree && tree[DirName(d)].Directory?)
    ensures Stacked(stack + [d], tree, top, handled + {d})
  {
    hide DirName;
    assert DirName(d) in Members(stack);
    assert d !in Members(stack);
    ParentsFirstAppend(stack, d);
    MembersConcat(stack, [d]);
    NoRepeatsConcat(stack, [d]);
  }

  lemma FileStep(nodes: map<string, Node>, was: map<string, Node>, tree: map<string, Node>, stuck: set<string>,
                 handled: set<string>, k: string)
    requires FilesGone(nodes, was, tree, stuck, handled) && k in tree && tree[k].File? && k !in stuck
    ensures FilesGone(nodes - {k}, was, tree, stuck, handled + {k})
  {
    assert OfKind(tree, handled + {k}, false) == OfKind(tree, handled, false) + {k};
  }

  lemma OtherKindStep(nodes: map<string, Node>, was: map<string, Node>, stack: seq<string>, tree: map<string, Node>,
                      top: string, stuck: set<string>, handled: set<string>, k: string)
    requires k in tree
    ensures tree[k].Directory? && FilesGone(nodes, was, tree, stuck, handled) ==>
              FilesGone(nodes, was, tree, stuck, handled + {k})
    ensures tree[k].File? && Stacked(stack, tree, top, handled) ==> Stacked(stack, tree, top, handled + {k})
  {
    hide NoRepeats, ParentsFirst, Members;
    assert tree[k].Directory? ==> OfKind(tree, handled + {k}, false) == OfKind(tree, handled, false);
    assert tree[k].File? ==> OfKind(tree, handled + {k}, true) == OfKind(tree, handled, true);
  }

  lemma AllHandled(w: Walking)
    requires w.Inv() && w.pending == [] && w.remaining == [] && w.files && w.dirs
    ensures Members(w.returned) == w.tree.Keys - {w.top}
  {
    hide DirName, IsTree;
    WalkIsComplete(w);
  }

  lemma TopMakesNoDifference(tree: map<string, Node>, top: string)
    requires IsTree(tree, top)
    ensures OfKind(tree, tree.Keys - {top}, false) == OfKind(tree, tree.Keys, false)
    ensures OfKind(tree, tree.Keys - {top}, true) + {top} == OfKind(tree, tree.Keys, true) + {top}
  {
  }

  /** The first loop: unlink the files, stack the directories. */
  method DeleteFiles(fs: FileSystem, path: string) returns (success: bool, directories: seq<string>)
    requires "" !in fs.nodes && fs.Lookup(path) == Some(Directory)
    requires IsTree(Subtree(fs.nodes, Strip(path)), Strip(path))
    modifies fs`nodes
    ensures var tree := old(Subtree(fs.nodes, Strip(path)));
            if success then
              && FilesGone(fs.nodes, old(fs.nodes), tree, fs.stuck, tree.Keys)
              && directories != [] && directories[0] == path
              && Stacked([Strip(path)] + directories[1..], tree, Strip(path), tree.Keys)
            else
              && Stopped(fs, fs.nodes, old(fs.nodes), tree, Strip(path))
              && OnlyLost(fs.nodes, old(fs.nodes), tree.Keys) && !Removable(fs, tree.Keys)
  {
    hide Strip, IsTree, Subtree, Progress, Traversing, OnlyLost, Removable, Stopped;
    ghost var was, top := fs.nodes, Strip(path);
    ghost var tree := Subtree(was, top);
    success := true;
    directories := [path];
    FirstStack(was, tree, fs.stuck, top, path);
    var traversal, current := Begin(fs, path);
    ghost var handled: set<string> := {};
    while success && current != ""
      invariant fresh(traversal) && Traversing(fs.nodes, traversal, tree, top, current, handled)
      invariant directories != [] && directories[0] == path
      invariant if success then Progress(fs.nodes, was, directories, tree, top, fs.stuck, handled)
                else Stopped(fs, fs.nodes, was, tree, top) && OnlyLost(fs.nodes, was, tree.Keys) && !Removable(fs, tree.Keys)
      decreases tree.Keys - handled, current != ""
    {
      success, directories := HandleEntry(fs, traversal, current, directories, was, tree, top, handled);
      ghost var last := current;
      current := Advance(fs, traversal, tree, top, current, handled);
      handled := handled + {last};
    }
    if success {
      Finished(fs.nodes, was, directories, tree, top, fs.stuck, handled, traversal);
    }
  }

  /** The enumeration as the first loop sees it. */
  ghost predicate Traversing(nodes: map<string, Node>, traversal: FileEnumerator, tree: map<string, Node>, top: string,
                             current: string, handled: set<string>)
    reads traversal
  {
    && traversal.Valid() && traversal.wantFiles && traversal.wantDirs
    && traversal.tree == tree && traversal.top == top
    && Intact(nodes, traversal.Walk(traversal.current + 1))
    && Cursor(traversal, current, handled)
  }

  method Begin(fs: FileSystem, path: string) returns (traversal: FileEnumerator, current: string)
    requires path != "" && "" !in fs.nodes && IsTree(Subtree(fs.nodes, Strip(path)), Strip(path))
    ensures fresh(traversal)
    ensures Traversing(fs.nodes, traversal, Subtree(fs.nodes, Strip(path)), Strip(path), current, {})
  {
    hide Strip, IsTree, Subtree, Intact, FileEnumerator.Valid, Cursor;
    traversal := new FileEnumerator(path, true, true, fs.nodes);
    current := traversal.Next(fs);
    FirstCursor(traversal, current);
  }

  /** The loop's increment. */
  method Advance(fs: FileSystem, traversal: FileEnumerator, ghost tree: map<string, Node>, ghost top: string,
                 last: string, ghost handled: set<string>) returns (current: string)
    requires last != "" && Traversing(fs.nodes, traversal, tree, top, last, handled)
    modifies traversal
    ensures Traversing(fs.nodes, traversal, tree, top, current, handled + {last})
    ensures last in tree && last !in handled
  {
    hide Intact, FileEnumerator.Consistent, AllNames, Cursor;
    ghost var before := traversal.returned;
    CursorMeans(traversal, last, handled);
    current := traversal.Next(fs);
    NextCursor(traversal, current, handled + {last}, before);
  }

  /** The body of the first loop. */
  method HandleEntry(fs: FileSystem, traversal: FileEnumerator, current: string, stacked: seq<string>,
                     ghost was: map<string, Node>, ghost tree: map<string, Node>, ghost top: string,
                     ghost handled: set<string>)
      returns (success: bool, directories: seq<string>)
    requires tree == Subtree(was, top) && Traversing(fs.nodes, traversal, tree, top, current, handled)
    requires current != "" && stacked != [] && IsTree(tree, top)
    requires Progress(fs.nodes, was, stacked, tree, top, fs.stuck, handled)
    modifies fs`nodes
    ensures Traversing(fs.nodes, traversal, tree, top, current, handled)
    ensures directories != [] && directories[0] == stacked[0]
    ensures if success then Progress(fs.nodes, was, directories, tree, top, fs.stuck, handled + {current})
            else Stopped(fs, fs.nodes, was, tree, top) && OnlyLost(fs.nodes, was, tree.Keys) && !Removable(fs, tree.Keys)
  {
    hide Strip, IsTree, Subtree, FilesGone, Stacked, Intact, Walking.Inv, DirName, Keep, Paths, OnlyLost, Stopped;
    ghost var w := traversal.Walk(traversal.current + 1);
    CursorFacts(w, current, handled);
    ghost var stack := [top] + stacked[1..];
    OtherKindStep(fs.nodes, was, stack, tree, top, fs.stuck, handled, current);
    success, directories := true, stacked;
    if traversal.entries[traversal.current].node.Directory? {
      StackStep(stack, tree, top, handled, current);
      directories := directories + [current];
      assert [top] + directories[1..] == stack + [current];
    } else {
      StillThere(fs.nodes, was, tree, top, fs.stuck, handled, current);
      RemovalKeepsIntact(fs.nodes, w, current);
      FileStepIfRemoved(fs, was, tree, top, handled, current);
      if current in fs.stuck {
        StoppedAtFile(fs, was, tree, top, handled, current);
      }
      success := fs.Unlink(current);
    }
  }

  ghost predicate Progress(nodes: map<string, Node>, was: map<string, Node>, directories: seq<string>,
                           tree: map<string, Node>, top: string, stuck: set<string>, handled: set<string>)
    requires directories != []
  {
    FilesGone(nodes, was, tree, stuck, handled) && Stacked([top] + directories[1..], tree, top, handled)
  }

  /** Where the first loop stands: everything handed out but the current entry has been handled. */
  ghost predicate Cursor(traversal: FileEnumerator, current: string, handled: set<string>)
    requires traversal.Valid()
    reads traversal
  {
    var w := traversal.Walk(traversal.current + 1);
    if current == "" then handled == Members(w.returned) && w.pending == [] && w.remaining == []
    else
      && current in w.returned && handled == Members(w.returned) - {current}
      && current in w.tree && traversal.current < |traversal.entries|
      && traversal.entries[traversal.current].node == w.tree[current]
      && (DirName(current) == w.top || DirName(current) in handled)
  }

  lemma CursorFacts(w: Walking, current: string, handled: set<string>)
    requires w.Inv() && current in w.returned && handled == Members(w.returned) - {current}
    ensures current in w.tree && current != w.top && current !in handled
    ensures DirName(current) in w.tree && w.tree[DirName(current)].Directory?
  {
    hide DirName, IsTree;
    ReturnedInTree(w, current);
    EntryMoves(w.tree, w.top, current);
  }

  lemma FirstStack(was: map<string, Node>, tree: map<string, Node>, stuck: set<string>, top: string, path: string)
    ensures Progress(was, was, [path], tree, top, stuck, {})
  {
    assert [top] + [path][1..] == [top];
    assert Members([top]) == {top};
  }

  /** After the first Next. */
  lemma FirstCursor(traversal: FileEnumerator, current: string)
    requires traversal.Valid()
    requires if current == "" then
               traversal.returned == [] && traversal.pending == [] && traversal.Walk(traversal.current + 1).remaining == []
             else
               && traversal.returned == [current] && current in traversal.tree
               && traversal.current < |traversal.entries|
               && traversal.entries[traversal.current].node == traversal.tree[current]
               && DirName(current) == traversal.top
    ensures Cursor(traversal, current, {})
  {
  }

  lemma CursorMeans(traversal: FileEnumerator, current: string, handled: set<string>)
    requires traversal.Valid() && current != "" && Cursor(traversal, current, handled)
    ensures Members(traversal.returned) == handled + {current} && current in traversal.tree && current !in handled
  {
  }

  /** After every further Next. */
  lemma NextCursor(traversal: FileEnumerator, current: string, handled: set<string>, before: seq<string>)
    requires traversal.Valid() && handled == Members(before)
    requires if current == "" then
               traversal.returned == before && traversal.pending == [] && traversal.Walk(traversal.current + 1).remaining == []
             else
               && traversal.returned == before + [current] && current !in before && current in traversal.tree
               && traversal.current < |traversal.entries|
               && traversal.entries[traversal.current].node == traversal.tree[current]
               && (DirName(current) == traversal.top || DirName(current) in before)
    ensures Cursor(traversal, current, handled)
  {
    hide DirName, Walking.Inv;
    MembersConcat(before, [current]);
  }

  lemma StillThere(nodes: map<string, Node>, was: map<string, Node>, tree: map<string, Node>, top: string,
                   stuck: set<string>, handled: set<string>, k: string)
    requires tree == Subtree(was, top) && FilesGone(nodes, was, tree, stuck, handled)
    requires k in tree && k !in handled
    ensures k in nodes && nodes[k] == tree[k]
    ensures OnlyLost(nodes, was, tree.Keys)
  {
    hide Under;
  }

  lemma FileStepIfRemoved(fs: FileSystem, was: map<string, Node>, tree: map<string, Node>, top: string,
                          handled: set<string>, k: string)
    requires FilesGone(fs.nodes, was, tree, fs.stuck, handled) && k in tree && tree[k].File?
    ensures k !in fs.stuck ==> FilesGone(fs.nodes - {k}, was, tree, fs.stuck, handled + {k})
    ensures k in fs.stuck ==> !Removable(fs, tree.Keys)
  {
    hide FilesGone;
    if k !in fs.stuck {
      FileStep(fs.nodes, was, tree, fs.stuck, handled, k);
    } else {
      assert fs.Refuses(k);
    }
  }

  lemma Finished(nodes: map<string, Node>, was: map<string, Node>, directories: seq<string>, tree: map<string, Node>,
                 top: string, stuck: set<string>, handled: set<string>, traversal: FileEnumerator)
    requires Traversing(nodes, traversal, tree, top, "", handled)
    requires directories != [] && Progress(nodes, was, directories, tree, top, stuck, handled)
    ensures FilesGone(nodes, was, tree, stuck, tree.Keys)
    ensures Stacked([top] + directories[1..], tree, top, tree.Keys)
  {
    hide IsTree, NoRepeats, ParentsFirst, Intact;
    AllHandled(traversal.Walk(traversal.current + 1));
    TopMakesNoDifference(tree, top);
  }

  /** The tree has shrunk to the stack, and nothing that was removed had been refused. */
  ghost predicate OnStack(
      fs: FileSystem, nodes: map<string, Node>, was: map<string, Node>, tree: map<string, Node>, stack: seq<string>) {
    && nodes == was - (tree.Keys - Members(stack))
    && forall k :: k in tree && k !in stack ==> !fs.Refuses(k)
  }

  lemma StackStarts(fs: FileSystem, was: map<string, Node>, tree: map<string, Node>, top: string, stack: seq<string>)
    requires IsTree(tree, top) && Stacked(stack, tree, top, tree.Keys)
    requires FilesGone(fs.nodes, was, tree, fs.stuck, tree.Keys)
    ensures OnStack(fs, fs.nodes, was, tree, stack)
  {
    hide DirName, BaseName, ChildPath, NoRepeats, ParentsFirst;
    assert tree.Keys - Members(stack) == OfKind(tree, tree.Keys, false);
    forall k | k in tree && k !in stack
      ensures !fs.Refuses(k)
    {
      assert k !in Members(stack);
      assert IsEntry(tree, k);
    }
  }

  lemma StackInTree(tree: map<string, Node>, top: string, stack: seq<string>, d: string)
    requires IsTree(tree, top) && Stacked(stack, tree, top, tree.Keys) && d in stack
    ensures d in tree && tree[d] == Directory && Strip(d) == d
  {
    hide IsTree, IsEntry, Strip, NoRepeats, ParentsFirst;
    assert d in Members(stack);
    TopInTree(tree, top);
    TreePathStripped(tree, top, d);
  }

  lemma OnlyStackLeft(fs: FileSystem, was: map<string, Node>, tree: map<string, Node>, top: string, left: seq<string>)
    requires tree == Subtree(was, top) && OnStack(fs, fs.nodes, was, tree, left)
    ensures forall k :: k in fs.nodes && Under(k, top) ==> k in left
    ensures forall d :: d in left && d in tree ==> d in fs.nodes && fs.nodes[d] == tree[d]
    ensures forall k :: k in fs.nodes ==> k in was
  {
    hide Under;
  }

  /** The directory on top of the stack is there, and nothing is left in it. */
  lemma TopIsReady(fs: FileSystem, was: map<string, Node>, tree: map<string, Node>, top: string,
                   stack: seq<string>, n: nat)
    requires "" !in was && tree == Subtree(was, top) && IsTree(tree, top)
    requires Stacked(stack, tree, top, tree.Keys) && n < |stack|
    requires OnStack(fs, fs.nodes, was, tree, stack[..n + 1])
    ensures var d := stack[n];
            && d in tree && d in fs.nodes && fs.nodes[d] == Directory && Strip(d) == d && fs.IsEmpty(d)
  {
    hide DirName, IsTree, Strip, Under, OnStack, Subtree;
    var d, left := stack[n], stack[..n + 1];
    assert left[n] == d;
    forall e | e in left
      ensures e in tree
    {
      StackInTree(tree, top, stack, e);
    }
    StackInTree(tree, top, stack, d);
    OnlyStackLeft(fs, was, tree, top, left);
    ParentsFirstPrefix(stack, n + 1);
    TopIsEmpty(fs, tree, top, left);
  }

  lemma TopInTree(tree: map<string, Node>, top: string)
    requires IsTree(tree, top)
    ensures top in tree && tree[top] == Directory
  {
  }

  lemma ShrinkByOne(nodes: map<string, Node>, was: map<string, Node>, keys: set<string>, left: set<string>, d: string)
    requires d in keys && d !in left && nodes == was - (keys - (left + {d}))
    ensures nodes - {d} == was - (keys - left)
  {
  }

  lemma LastMember(stack: seq<string>, n: nat)
    requires n < |stack| && NoRepeats(stack)
    ensures Members(stack[..n + 1]) == Members(stack[..n]) + {stack[n]} && stack[n] !in Members(stack[..n])
  {
    assert stack[..n + 1] == stack[..n] + [stack[n]];
    MembersConcat(stack[..n], [stack[n]]);
    assert forall i :: 0 <= i < n ==> stack[..n][i] == stack[i];
  }

  lemma OnStackOnlyLost(fs: FileSystem, nodes: map<string, Node>, was: map<string, Node>, tree: map<string, Node>,
                        stack: seq<string>)
    requires OnStack(fs, nodes, was, tree, stack)
    ensures OnlyLost(nodes, was, tree.Keys)
  {
    hide Members;
  }

  lemma Popped(fs: FileSystem, nodes: map<string, Node>, was: map<string, Node>, tree: map<string, Node>,
               stack: seq<string>, n: nat)
    requires n < |stack| && NoRepeats(stack) && stack[n] in tree
    requires OnStack(fs, nodes, was, tree, stack[..n + 1])
    ensures !fs.Refuses(stack[n]) ==> OnStack(fs, nodes - {stack[n]}, was, tree, stack[..n])
    ensures OnlyLost(nodes, was, tree.Keys)
  {
    hide NoRepeats, OnlyLost, FileSystem.Refuses;
    LastMember(stack, n);
    OnStackOnlyLost(fs, nodes, was, tree, stack[..n + 1]);
    ShrinkByOne(nodes, was, tree.Keys, Members(stack[..n]), stack[n]);
    forall k | k in tree && k !in stack[..n]
      ensures k == stack[n] || k !in stack[..n + 1]
    {
      assert stack[..n + 1] == stack[..n] + [stack[n]];
    }
  }

  lemma NothingLeft(fs: FileSystem, nodes: map<string, Node>, was: map<string, Node>, tree: map<string, Node>)
    requires OnStack(fs, nodes, was, tree, [])
    ensures nodes == was - tree.Keys && Removable(fs, tree.Keys) && OnlyLost(nodes, was, tree.Keys)
  {
    assert tree.Keys - Members([]) == tree.Keys;
  }

  /** The second loop: rmdir from the top of the stack down. */
  method DeleteDirectories(fs: FileSystem, path: string, stacked: seq<string>,
                           ghost was: map<string, Node>, ghost tree: map<string, Node>)
      returns (success: bool)
    requires "" !in was && tree == Subtree(was, Strip(path)) && IsTree(tree, Strip(path))
    requires FilesGone(fs.nodes, was, tree, fs.stuck, tree.Keys)
    requires stacked != [] && stacked[0] == path
    requires Stacked([Strip(path)] + stacked[1..], tree, Strip(path), tree.Keys)
    modifies fs
    ensures success <==> Removable(fs, tree.Keys)
    ensures if success then fs.nodes == was - tree.Keys else Stopped(fs, fs.nodes, was, tree, Strip(path))
    ensures OnlyLost(fs.nodes, was, tree.Keys) && fs.rmdirsOnFull == old(fs.rmdirsOnFull)
  {
    hide Strip, IsTree, Subtree, FilesGone, OnStack, OnlyLost, ParentsFirst, DirName, BaseName, Stopped;
    ghost var top := Strip(path);
    ghost var stack := [top] + stacked[1..];
    StackStarts(fs, was, tree, top, stack);
    assert stack[..|stacked|] == stack;
    var directories := stacked;
    success := true;
    while success && directories != []
      invariant |directories| <= |stacked| && directories == stacked[..|directories|]
      invariant fs.rmdirsOnFull == old(fs.rmdirsOnFull)
      invariant success ==> OnStack(fs, fs.nodes, was, tree, stack[..|directories|])
      invariant !success ==>
                  Stopped(fs, fs.nodes, was, tree, top) && OnlyLost(fs.nodes, was, tree.Keys) && !Removable(fs, tree.Keys)
      decreases |directories|
    {
      var n := |directories| - 1;
      var dir := directories[n];
      directories := directories[..n];
      TopIsReady(fs, was, tree, top, stack, n);
      Popped(fs, fs.nodes, was, tree, stack, n);
      assert Strip(dir) == stack[n];
      RmdirFinds(fs, dir);
      if fs.Refuses(stack[n]) {
        StoppedAtDirectory(fs, was, tree, top, stack, n);
      }
      success := fs.Rmdir(dir);
    }
    if success {
      NothingLeft(fs, fs.nodes, was, tree);
    }
  }

  lemma RmdirFinds(fs: FileSystem, dir: string)
    requires Strip(dir) in fs.nodes && fs.nodes[Strip(dir)] == Directory
    ensures fs.Lookup(dir) == Some(Directory)
  {
  }
}
