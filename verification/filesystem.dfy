/** The file-system layer over the namespace trees: creating files and
    directories, deleting them, the root directory, the working-directory
    cursor and listings. Console messages are folded into a Report. */
module FileSystem {
  import opened Names
  import opened Nodes
  import opened Ordering
  import opened Search
  import opened Insert
  import opened Delete
  import opened Traverse

  /** create_txt_file: a file entry whose size is the length of its content. */
  function CreateTxtFile(name: string, content: string): (e: Entry)
    ensures e.File? && e.name == name && e.content == content
    ensures e.size == |content|
  {
    File(name, content, |content|)
  }

  /** create_directory: a directory entry owning a fresh, empty namespace. */
  function CreateDirectory(name: string): (e: Entry)
    ensures e.Dir? && e.name == name
    ensures WF(e.dir.tree.root) && Content(e.dir.tree.root) == []
  {
    Dir(name, Directory(CreateTree()))
  }

  /** get_root_directory: the empty namespace the shell starts in. */
  function GetRootDirectory(): (d: Directory)
    ensures WF(d.tree.root) && Content(d.tree.root) == []
  {
    Directory(CreateTree())
  }

  /** The last message a deletion prints; Unsupported is the refusal of a
      name held by an internal node. */
  datatype Report = Removed | NotFound | NotEmpty | Unsupported

  /** The namespace after a deletion, its report, and whether the entry was
      actually unlinked from the tree (btree_delete_node's result). */
  datatype Removal = Removal(tree: BTree, report: Report, unlinked: bool)

  /** The guard of delete_txt_file: btree_search finds a text file under
      `name`. In a well-formed namespace that is the case exactly when the
      namespace holds a text file of that name. */
  predicate HoldsFile(t: BTree, name: string)
    requires Shaped(t.root)
    ensures HoldsFile(t, name) ==> exists c, n :: SearchTree(t, name) == Some(File(name, c, n))
    ensures !HoldsFile(t, name) ==> SearchTree(t, name).None? || SearchTree(t, name).value.Dir?
    ensures WF(t.root) ==>
      (HoldsFile(t, name) <==> exists c, n :: File(name, c, n) in Content(t.root))
  {
    var target := SearchTree(t, name);
    assert WF(t.root) ==>
      (target.Some? && target.value.File? <==> exists c, n :: File(name, c, n) in Content(t.root)) by {
      if WF(t.root) {
        FoundFile(t, name);
      }
    }
    target.Some? && target.value.File?
  }

  /** The guards of delete_directory: btree_search finds a directory under
      `name` whose root holds no key. In a well-formed namespace that is the
      case exactly when the namespace holds a directory of that name with no
      key in its root. */
  predicate HoldsEmptyDir(t: BTree, name: string)
    requires Shaped(t.root)
    ensures HoldsEmptyDir(t, name) ==>
      exists d :: SearchTree(t, name) == Some(Dir(name, d)) && |d.tree.root.keys| == 0
    ensures !HoldsEmptyDir(t, name) ==>
      || SearchTree(t, name).None? || SearchTree(t, name).value.File?
      || |SearchTree(t, name).value.dir.tree.root.keys| > 0
    ensures WF(t.root) ==>
      (HoldsEmptyDir(t, name) <==>
         exists d :: Dir(name, d) in Content(t.root) && |d.tree.root.keys| == 0)
  {
    var target := SearchTree(t, name);
    assert WF(t.root) ==>
      (target.Some? && target.value.Dir? && |target.value.dir.tree.root.keys| == 0 <==>
         exists d :: Dir(name, d) in Content(t.root) && |d.tree.root.keys| == 0) by {
      if WF(t.root) {
        FoundEmptyDir(t, name);
      }
    }
    target.Some? && target.value.Dir? && |target.value.dir.tree.root.keys| == 0
  }

  /** In a well-formed namespace the search returns a text file exactly when
      the content holds a text file of that name. */
  lemma FoundFile(t: BTree, name: string)
    requires WF(t.root)
    ensures SearchTree(t, name).Some? && SearchTree(t, name).value.File? <==>
      exists c, n :: File(name, c, n) in Content(t.root)
  {
    SearchTreeFinds(t, name);
    if exists c, n :: File(name, c, n) in Content(t.root) {
      var c, n :| File(name, c, n) in Content(t.root);
      assert File(name, c, n).name in NameSet(Content(t.root));
      UniqueName(Content(t.root), File(name, c, n), SearchTree(t, name).value);
    }
  }

  /** In a well-formed namespace the search returns a directory with no key
      in its root exactly when the content holds such a directory under that
      name. */
  lemma FoundEmptyDir(t: BTree, name: string)
    requires WF(t.root)
    ensures (SearchTree(t, name).Some? && SearchTree(t, name).value.Dir?
             && |SearchTree(t, name).value.dir.tree.root.keys| == 0) <==>
      exists d :: Dir(name, d) in Content(t.root) && |d.tree.root.keys| == 0
  {
    SearchTreeFinds(t, name);
    if exists d :: Dir(name, d) in Content(t.root) && |d.tree.root.keys| == 0 {
      var d :| Dir(name, d) in Content(t.root) && |d.tree.root.keys| == 0;
      assert Dir(name, d).name in NameSet(Content(t.root));
      UniqueName(Content(t.root), Dir(name, d), SearchTree(t, name).value);
    }
  }

  /** delete_txt_file as written: a name that is not a text file is reported
      not found; otherwise btree_delete runs and success is reported whatever
      it returned. */
  function DeleteTxtFile(t: BTree, name: string): (r: Removal)
    requires Shaped(t.root)
    ensures r.report == Removed || r.report == NotFound
    ensures r.report == NotFound <==> !HoldsFile(t, name)
    ensures r.report == NotFound ==> !r.unlinked
    ensures !r.unlinked ==> r.tree == t
  {
    if !HoldsFile(t, name) then Removal(t, NotFound, false)
    else
      RootNeverCollapses(t, name);
      var (t', removed) := DeleteTree(t, name);
      Removal(t', Removed, removed)
  }

  /** delete_directory as written: not a directory is reported not found, a
      directory with keys in its root is reported not empty; otherwise
      btree_delete runs and success is reported whatever it returned. */
  function DeleteDirectory(t: BTree, name: string): (r: Removal)
    requires Shaped(t.root)
    ensures r.report != Unsupported
    ensures r.report == Removed <==> HoldsEmptyDir(t, name)
    ensures r.report == NotFound <==>
      SearchTree(t, name).None? || !SearchTree(t, name).value.Dir?
    ensures r.report == NotEmpty <==>
      && SearchTree(t, name).Some? && SearchTree(t, name).value.Dir?
      && |SearchTree(t, name).value.dir.tree.root.keys| > 0
    ensures r.report != Removed ==> !r.unlinked
    ensures !r.unlinked ==> r.tree == t
  {
    var target := SearchTree(t, name);
    if target.None? || !target.value.Dir? then Removal(t, NotFound, false)
    else if |target.value.dir.tree.root.keys| > 0 then Removal(t, NotEmpty, false)
    else
      RootNeverCollapses(t, name);
      var (t', removed) := DeleteTree(t, name);
      Removal(t', Removed, removed)
  }

  /** A shaped namespace is empty exactly when its root holds no key, so the
      emptiness test of delete_directory is the right one. */
  lemma EmptyIffNoKeys(x: Node)
    requires Shaped(x)
    ensures |x.keys| == 0 <==> Content(x) == []
  {
    KeysInContent(x);
    if |x.keys| > 0 {
      assert x.keys[0] in Content(x);
    }
  }

  /** In a well-formed namespace, btree_search finds a text file under `name`
      exactly when the content holds one. */
  lemma HoldsFileMeans(t: BTree, name: string)
    requires WF(t.root)
    ensures HoldsFile(t, name) <==> exists c, n :: File(name, c, n) in Content(t.root)
  {
    SearchTreeFinds(t, name);
    if exists c, n :: File(name, c, n) in Content(t.root) {
      var c, n :| File(name, c, n) in Content(t.root);
      assert File(name, c, n).name in NameSet(Content(t.root));
      UniqueName(Content(t.root), File(name, c, n), SearchTree(t, name).value);
    }
  }

  /** In a well-formed namespace whose directories are shaped, btree_search
      finds an empty directory under `name` exactly when the content holds a
      directory of that name with nothing in it. */
  lemma HoldsEmptyDirMeans(t: BTree, name: string)
    requires WF(t.root)
    requires forall e :: e in Content(t.root) && e.Dir? ==> Shaped(e.dir.tree.root)
    ensures HoldsEmptyDir(t, name) <==>
      exists d :: Dir(name, d) in Content(t.root) && Content(d.tree.root) == []
  {
    SearchTreeFinds(t, name);
    var target := SearchTree(t, name);
    if target.Some? && target.value.Dir? {
      EmptyIffNoKeys(target.value.dir.tree.root);
    }
    if exists d :: Dir(name, d) in Content(t.root) && Content(d.tree.root) == [] {
      var d :| Dir(name, d) in Content(t.root) && Content(d.tree.root) == [];
      assert Dir(name, d).name in NameSet(Content(t.root));
      UniqueName(Content(t.root), Dir(name, d), target.value);
      EmptyIffNoKeys(d.tree.root);
    }
  }

  /** delete_txt_file on a well-formed namespace holding a text file: success
      is always reported, but the entry leaves the namespace only when a leaf
      holds it; when an internal node holds it the namespace is unchanged and
      the file is still found there. */
  lemma DeleteTxtFileAsWritten(t: BTree, name: string)
    requires WF(t.root) && HoldsFile(t, name)
    ensures DeleteTxtFile(t, name).report == Removed
    ensures DeleteTxtFile(t, name).unlinked <==> InLeaf(t.root, name)
    ensures !DeleteTxtFile(t, name).unlinked ==>
      DeleteTxtFile(t, name).tree == t && SearchTree(DeleteTxtFile(t, name).tree, name).Some?
    ensures DeleteTxtFile(t, name).unlinked ==>
      && WF(DeleteTxtFile(t, name).tree.root)
      && Content(DeleteTxtFile(t, name).tree.root) == Without(Content(t.root), name)
      && SearchTree(DeleteTxtFile(t, name).tree, name) == None
  {
    RootNeverCollapses(t, name);
    DeleteNodeRemoves(t.root, name);
    if InLeaf(t.root, name) {
      DeleteTreeFromLeaf(t, name);
    }
  }

  /** delete_directory on a well-formed namespace holding an empty directory:
      the same, success is always reported but the entry stays when an
      internal node holds it. */
  lemma DeleteDirectoryAsWritten(t: BTree, name: string)
    requires WF(t.root) && HoldsEmptyDir(t, name)
    ensures DeleteDirectory(t, name).report == Removed
    ensures DeleteDirectory(t, name).unlinked <==> InLeaf(t.root, name)
    ensures !DeleteDirectory(t, name).unlinked ==>
      DeleteDirectory(t, name).tree == t && SearchTree(DeleteDirectory(t, name).tree, name).Some?
    ensures DeleteDirectory(t, name).unlinked ==>
      && WF(DeleteDirectory(t, name).tree.root)
      && Content(DeleteDirectory(t, name).tree.root) == Without(Content(t.root), name)
      && SearchTree(DeleteDirectory(t, name).tree, name) == None
  {
    RootNeverCollapses(t, name);
    DeleteNodeRemoves(t.root, name);
    if InLeaf(t.root, name) {
      DeleteTreeFromLeaf(t, name);
    }
  }

  /** A namespace holding a, b and c with `b` in the root and a and c in two
      leaves: well-formed for any minimum degree. */
  function Sample(b: Entry): (t: BTree)
    requires b.name == "b"
    ensures WF(t.root) && t.root.keys == [b]
  {
    var a := File("a", "", 0);
    var c := File("c", "", 0);
    var left, right := Node([a], [], true), Node([c], [], true);
    var t := BTree(Node([b], [left, right], false));
    assert [left, right] == [left] + [right] && [b][1..] == [];
    WalkCons([b], left, [right]);
    assert Walk([], [right]) == [c];
    assert Content(t.root) == [a] + [b] + Walk([], [right]);
    assert Less("a", "b") && Less("b", "c") && Less("a", "c");
    assert Content(t.root) == [a, b, c];
    assert Sorted(Content(t.root));
    assert Shaped(left) && Shaped(right) && Height(left) == Height(right) == 0;
    assert forall i :: 0 <= i < 2 ==> t.root.children[i] == left || t.root.children[i] == right;
    assert ChildrenShaped(t.root);
    assert Shaped(t.root);
    t
  }

  /** btree_search finds the root key of Sample. */
  lemma SampleFindsB(b: Entry)
    requires b.name == "b"
    ensures SearchTree(Sample(b), "b") == Some(b)
  {
    assert !Less("b", "b");
    assert ScanPast(Sample(b).root.keys, "b") == 0;
  }

  /** Deleting the text file "b" of a Sample reports success, yet "b" is still
      in the namespace (and the source has freed it). */
  lemma DeleteTxtFileKeepsEntry()
    ensures var t := Sample(File("b", "", 0));
      && HoldsFile(t, "b")
      && DeleteTxtFile(t, "b").report == Removed
      && !DeleteTxtFile(t, "b").unlinked
      && SearchTree(DeleteTxtFile(t, "b").tree, "b") == Some(File("b", "", 0))
  {
    var b := File("b", "", 0);
    SampleFindsB(b);
    assert FindKey(Sample(b).root.keys, "b") == 0;
  }

  /** Deleting the empty directory "b" of a Sample reports success, yet "b" is
      still in the namespace. */
  lemma DeleteDirectoryKeepsEntry()
    ensures var b := Dir("b", GetRootDirectory());
      var t := Sample(b);
      && HoldsEmptyDir(t, "b")
      && DeleteDirectory(t, "b").report == Removed
      && !DeleteDirectory(t, "b").unlinked
      && SearchTree(DeleteDirectory(t, "b").tree, "b") == Some(b)
  {
    var b := Dir("b", GetRootDirectory());
    SampleFindsB(b);
    assert FindKey(Sample(b).root.keys, "b") == 0;
  }

  /** delete_txt_file corrected: success is reported exactly when
      btree_delete unlinked the entry; a refusal is reported as unsupported
      and leaves the namespace as it was. */
  function DeleteTxtFileFixed(t: BTree, name: string): (r: Removal)
    requires Shaped(t.root)
    ensures r.report == Removed <==> r.unlinked
    ensures r.report == NotFound <==> !HoldsFile(t, name)
    ensures r.report != NotEmpty
    ensures !r.unlinked ==> r.tree == t
  {
    if !HoldsFile(t, name) then Removal(t, NotFound, false)
    else
      var (t', removed) := DeleteTree(t, name);
      if removed then Removal(t', Removed, true) else Removal(t, Unsupported, false)
  }

  /** delete_directory, corrected likewise. */
  function DeleteDirectoryFixed(t: BTree, name: string): (r: Removal)
    requires Shaped(t.root)
    ensures r.report == Removed <==> r.unlinked
    ensures r.report == Removed || r.report == Unsupported <==> HoldsEmptyDir(t, name)
    ensures !r.unlinked ==> r.tree == t
  {
    var target := SearchTree(t, name);
    if target.None? || !target.value.Dir? then Removal(t, NotFound, false)
    else if |target.value.dir.tree.root.keys| > 0 then Removal(t, NotEmpty, false)
    else
      var (t', removed) := DeleteTree(t, name);
      if removed then Removal(t', Removed, true) else Removal(t, Unsupported, false)
  }

  /** What the corrected deletions do to a well-formed namespace once the
      target passed its checks: removal is reported exactly when a leaf holds
      the name, and then exactly that entry is gone; unsupported is reported
      exactly when an internal node holds it, and then nothing changed. */
  lemma FixedOutcome(t: BTree, name: string, r: Removal)
    requires WF(t.root) && SearchTree(t, name).Some?
    requires r.report == Removed || r.report == Unsupported
    requires r.report == Removed <==> r.unlinked
    requires !r.unlinked ==> r.tree == t
    requires r.unlinked ==> r.tree == DeleteTree(t, name).0 && DeleteTree(t, name).1
    requires !r.unlinked ==> !DeleteTree(t, name).1
    ensures r.report == Removed <==> InLeaf(t.root, name)
    ensures r.report == Unsupported <==> InInternal(t.root, name)
    ensures r.report == Removed ==>
      && WF(r.tree.root)
      && Content(r.tree.root) == Without(Content(t.root), name)
      && |Content(r.tree.root)| == |Content(t.root)| - 1
      && SearchTree(r.tree, name) == None
  {
    SearchTreeFinds(t, name);
    HeldSomewhere(t.root, name);
    HeldOnce(t.root, name);
    RootNeverCollapses(t, name);
    DeleteNodeRemoves(t.root, name);
    if InLeaf(t.root, name) {
      DeleteTreeFromLeaf(t, name);
    }
  }

  /** The corrected file deletion on a well-formed namespace holding the
      file: removed exactly when a leaf holds it (then the file is gone and
      nothing else), unsupported exactly when an internal node holds it (then
      nothing changed). */
  lemma DeleteTxtFileFixedOutcome(t: BTree, name: string)
    requires WF(t.root) && HoldsFile(t, name)
    ensures var r := DeleteTxtFileFixed(t, name);
      && (r.report == Removed <==> InLeaf(t.root, name))
      && (r.report == Unsupported <==> InInternal(t.root, name))
      && (r.report == Removed ==>
            WF(r.tree.root) && Content(r.tree.root) == Without(Content(t.root), name)
            && SearchTree(r.tree, name) == None)
      && (r.report != Removed ==> r.tree == t)
  {
    RootNeverCollapses(t, name);
    FixedOutcome(t, name, DeleteTxtFileFixed(t, name));
  }

  /** The corrected directory deletion, likewise for an empty directory. */
  lemma DeleteDirectoryFixedOutcome(t: BTree, name: string)
    requires WF(t.root) && HoldsEmptyDir(t, name)
    ensures var r := DeleteDirectoryFixed(t, name);
      && (r.report == Removed <==> InLeaf(t.root, name))
      && (r.report == Unsupported <==> InInternal(t.root, name))
      && (r.report == Removed ==>
            WF(r.tree.root) && Content(r.tree.root) == Without(Content(t.root), name)
            && SearchTree(r.tree, name) == None)
      && (r.report != Removed ==> r.tree == t)
  {
    RootNeverCollapses(t, name);
    FixedOutcome(t, name, DeleteDirectoryFixed(t, name));
  }

  /** change_directory: "." and ".." leave the cursor where it is (".." is
      unsupported), so does a name that is missing or not a directory;
      otherwise the cursor moves into the named directory. */
  function ChangeDirectory(cur: Directory, path: string): (r: Directory)
    requires Shaped(cur.tree.root)
    ensures path == "." || path == ".." ==> r == cur
    ensures r != cur ==> SearchTree(cur.tree, path) == Some(Dir(path, r))
  {
    if path == "." || path == ".." then cur
    else
      var dest := SearchTree(cur.tree, path);
      if dest.None? || !dest.value.Dir? then cur
      else dest.value.dir
  }

  /** In a well-formed directory the cursor moves into the directory named
      `path` whenever there is one (and `path` is not "." or ".."), and
      otherwise stays. */
  lemma ChangeDirectoryEnters(cur: Directory, path: string)
    requires WF(cur.tree.root)
    ensures forall d :: path != "." && path != ".." && Dir(path, d) in Content(cur.tree.root) ==>
      ChangeDirectory(cur, path) == d
    ensures (forall d :: Dir(path, d) !in Content(cur.tree.root)) ==> ChangeDirectory(cur, path) == cur
  {
    SearchTreeFinds(cur.tree, path);
    forall d | path != "." && path != ".." && Dir(path, d) in Content(cur.tree.root)
      ensures ChangeDirectory(cur, path) == d
    {
      UniqueName(Content(cur.tree.root), Dir(path, d), SearchTree(cur.tree, path).value);
    }
  }

  /** list_directory_contents: the listing of the directory's namespace, one
      line per entry in in-order content order. */
  function ListDirectory(d: Directory): (lines: seq<Line>)
    ensures Shows(lines, Content(d.tree.root))
  {
    TraverseShowsContent(d.tree.root, 0);
    TraverseTree(d.tree)
  }
}
