/** A file system without symbolic links: a finite map from paths to nodes, and the few system calls
    that base/file_enumerator.cc and base/file_util.cc make.

    Paths are the strings the code computes.  A directory's children are the keys that DirName takes to
    it, so the string algebra of file_path.cc is what ties a listing to the tree. */
module FileSystems {
  import opened Wrappers
  import opened PathAlgebra
  import opened PathAppend

  datatype Node = File(size: nat) | Directory

  predicate IsDots(x: string) {
    x == CURRENT || x == PARENT
  }

  function ChildPath(d: string, x: string): string
    requires Name(x)
  {
    NameIsAppendable(x);
    Append(d, x)
  }

  lemma ChildPathFacts(d: string, x: string)
    requires d != "" && Name(x)
    ensures DirName(ChildPath(d, x)) == Strip(d) && BaseName(ChildPath(d, x)) == x && ChildPath(d, x) != ""
  {
    DirAndBaseOfAppend(d, x);
    assert BaseName("") == "";
  }

  /** k is entered in a directory of the tree, under its own base name. */
  predicate IsEntry(tree: map<string, Node>, k: string) {
    var d := DirName(k);
    && k != "" && d != k && d in tree && tree[d].Directory?
    && Name(BaseName(k)) && !IsDots(BaseName(k)) && k == ChildPath(d, BaseName(k))
  }

  predicate IsTree(tree: map<string, Node>, top: string) {
    && top != "" && Strip(top) == top && top in tree && tree[top].Directory?
    && forall k :: k in tree && k != top ==> IsEntry(tree, k)
  }

  /** `top` is reached from k by going up. */
  predicate Under(k: string, top: string)
    decreases |k|, if k == CURRENT then 0 else 1
  {
    k == top || (k != "" && DirName(k) != k && (DirNameShortens(k); Under(DirName(k), top)))
  }

  function Subtree(nodes: map<string, Node>, top: string): map<string, Node> {
    map k | k in nodes && Under(k, top) :: nodes[k]
  }

  /** One line of a directory listing, with what stat says about it. */
  datatype Info = Info(name: string, node: Node)

  predicate ChildOf(k: string, d: string) {
    DirName(k) == d && k != d
  }

  function NamesOf(entries: seq<Info>): set<string> {
    set e | e in entries :: e.name
  }

  lemma NamesOfAppend(entries: seq<Info>, e: Info)
    ensures NamesOf(entries + [e]) == NamesOf(entries) + {e.name}
  {
    assert forall x :: x in entries + [e] <==> x in entries || x == e;
  }

  lemma NoNames()
    ensures NamesOf([]) == {}
  {
  }

  predicate Distinct(entries: seq<Info>) {
    forall i, j :: 0 <= i < j < |entries| ==> entries[i].name != entries[j].name
  }

  predicate Listed(e: Info, nodes: map<string, Node>, d: string) {
    && Name(e.name)
    && if IsDots(e.name) then e.node == Directory
       else
         var k := ChildPath(d, e.name);
         k in nodes && ChildOf(k, d) && e.node == nodes[k]
  }

  /** A complete listing of d, in any order, with the two dot entries among the rest. */
  predicate Lists(entries: seq<Info>, nodes: map<string, Node>, d: string) {
    && (forall e :: e in entries ==> Listed(e, nodes, d))
    && (forall k :: k in nodes && ChildOf(k, d) ==> BaseName(k) in NamesOf(entries))
    && Distinct(entries)
  }

  class FileSystem {
    var nodes: map<string, Node>
    const stuck: set<string>        // what the system refuses to remove
    ghost var rmdirsOnFull: nat     // calls of rmdir on a directory that was not empty

    constructor (nodes: map<string, Node>, stuck: set<string>)
      ensures this.nodes == nodes && this.stuck == stuck && rmdirsOnFull == 0
    {
      this.nodes := nodes;
      this.stuck := stuck;
      rmdirsOnFull := 0;
    }

    /** lstat and stat: trailing separators are for directories only. */
    function Lookup(path: string): Option<Node>
      reads this
    {
      var q := Strip(path);
      if q in nodes && (q == path || nodes[q].Directory?) then Some(nodes[q]) else None
    }

    /** rmdir refuses a path that ends in ".", wherever it leads. */
    predicate Refuses(k: string) {
      k in stuck || BaseName(k) == CURRENT
    }

    method Unlink(path: string) returns (ok: bool)
      requires path in nodes && nodes[path].File?
      modifies this`nodes
      ensures ok <==> path !in stuck
      ensures nodes == if ok then old(nodes) - {path} else old(nodes)
    {
      ok := path !in stuck;
      if ok {
        nodes := nodes - {path};
      }
    }

    predicate IsEmpty(d: string)
      reads this
    {
      forall k :: k in nodes ==> !ChildOf(k, d)
    }

    method Rmdir(path: string) returns (ok: bool)
      requires Lookup(path) == Some(Directory)
      modifies this`nodes, this`rmdirsOnFull
      ensures ok <==> old(IsEmpty(Strip(path))) && !Refuses(Strip(path))
      ensures nodes == if ok then old(nodes) - {Strip(path)} else old(nodes)
      ensures rmdirsOnFull == old(rmdirsOnFull) + if old(IsEmpty(Strip(path))) then 0 else 1
    {
      var q := Strip(path);
      var empty := IsEmpty(q);
      if !empty {
        rmdirsOnFull := rmdirsOnFull + 1;
      }
      ok := empty && !Refuses(q);
      if ok {
        nodes := nodes - {q};
      }
    }

    /** FileEnumerator::ReadDirectory. */
    method ReadDirectory(source: string) returns (ok: bool, entries: seq<Info>)
      requires source != "" && Strip(source) == source
      requires forall k :: k in nodes && ChildOf(k, source) ==> IsEntry(nodes, k)
      ensures ok <==> Lookup(source) == Some(Directory)
      ensures ok ==> Lists(entries, nodes, source)
    {
      entries := [];
      ok := Lookup(source) == Some(Directory);
      if !ok {
        return;
      }
      entries := Readdir(source, EntryNames(source));
      ListingIsComplete(source, entries);
    }

    function EntryNames(d: string): set<string>
      reads this
    {
      (set k | k in nodes && ChildOf(k, d) :: BaseName(k)) + {CURRENT, PARENT}
    }

    /** The readdir loop: every name once, in whatever order the system likes. */
    method Readdir(source: string, names: set<string>) returns (entries: seq<Info>)
      ensures forall e :: e in entries ==> e.node == NodeOf(source, e.name)
      ensures NamesOf(entries) == names && Distinct(entries)
    {
      hide NodeOf, NamesOf;
      entries := [];
      var left := names;
      NoNames();
      while left != {}
        invariant left <= names && NamesOf(entries) == names - left && Distinct(entries)
        invariant forall e :: e in entries ==> e.node == NodeOf(source, e.name)
        invariant forall i :: 0 <= i < |entries| ==> entries[i].name !in left
        decreases left
      {
        var x :| x in left;
        NamesOfAppend(entries, Info(x, NodeOf(source, x)));
        entries := entries + [Info(x, NodeOf(source, x))];
        left := left - {x};
      }
    }

    lemma ListingIsComplete(d: string, entries: seq<Info>)
      requires d != "" && Strip(d) == d
      requires forall k :: k in nodes && ChildOf(k, d) ==> IsEntry(nodes, k)
      requires forall e :: e in entries ==> e.node == NodeOf(d, e.name)
      requires NamesOf(entries) == EntryNames(d) && Distinct(entries)
      ensures Lists(entries, nodes, d)
    {
      hide DirName, BaseName, ChildPath;
      forall e | e in entries
        ensures Listed(e, nodes, d)
      {
        assert e.name in NamesOf(entries);
        NameInListing(d, e.name);
      }
    }

    lemma NameInListing(d: string, x: string)
      requires d != "" && Strip(d) == d && x in EntryNames(d)
      requires forall k :: k in nodes && ChildOf(k, d) ==> IsEntry(nodes, k)
      ensures Name(x)
      ensures !IsDots(x) ==> ChildPath(d, x) in nodes && ChildOf(ChildPath(d, x), d)
    {
      hide DirName, BaseName, ChildPath;
      if !IsDots(x) {
        var k :| k in nodes && ChildOf(k, d) && BaseName(k) == x;
        assert IsEntry(nodes, k);
      }
    }

    /** What stat answers for an entry of d; "." and ".." are directories. */
    function NodeOf(d: string, x: string): Node
      reads this
    {
      if !IsDots(x) && Name(x) && ChildPath(d, x) in nodes then nodes[ChildPath(d, x)] else Directory
    }
  }
}
