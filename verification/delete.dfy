/** Leaf-only deletion (btree_remove_from_leaf, btree_delete_node,
    btree_delete). A name held by an internal node is refused: there is no
    borrowing or merging anywhere, so internal nodes never change. */
module Delete {
  import opened Names
  import opened Nodes
  import opened Ordering
  import opened Search
  import opened Insert

  /** btree_remove_from_leaf: the key at `idx` goes, later keys shift left. */
  function RemoveFromLeaf(x: Node, idx: nat): (r: Node)
    requires idx < |x.keys|
    ensures |r.keys| == |x.keys| - 1
    ensures r.keys[..idx] + [x.keys[idx]] + r.keys[idx..] == x.keys
    ensures r.children == x.children && r.leaf == x.leaf
  {
    var r := x.(keys := x.keys[..idx] + x.keys[idx+1..]);
    assert r.keys[..idx] == x.keys[..idx] && r.keys[idx..] == x.keys[idx+1..];
    assert x.keys == x.keys[..idx] + [x.keys[idx]] + x.keys[idx+1..];
    r
  }

  /** btree_delete_node: the result node and whether a key was removed (the
      source's 1 or 0). A name found in an internal node is refused and
      nothing changes; a refusal or a miss returns the node unchanged. */
  function DeleteNode(x: Node, name: string): (r: (Node, bool))
    requires Shaped(x)
    ensures !r.1 ==> r.0 == x
    ensures r.0.leaf == x.leaf && |r.0.children| == |x.children|
    decreases x
  {
    var idx := FindKey(x.keys, name);
    if idx < |x.keys| && x.keys[idx].name == name then
      if x.leaf then (RemoveFromLeaf(x, idx), true) else (x, false)
    else if x.leaf then (x, false)
    else
      assert ChildrenShaped(x);
      var (c, removed) := DeleteNode(x.children[idx], name);
      assert !removed ==> x.children[idx := c] == x.children;
      (x.(children := x.children[idx := c]), removed)
  }

  /** btree_delete: deletes from the root, then replaces a root left with no
      keys and not a leaf by its first child. The flag is what the source
      tests before printing its not-found message. */
  function DeleteTree(t: BTree, name: string): (r: (BTree, bool))
    requires Shaped(t.root)
    ensures !r.1 ==> r.0 == t
  {
    var (root, removed) := DeleteNode(t.root, name);
    if |root.keys| == 0 && !root.leaf then (BTree(root.children[0]), removed)
    else (BTree(root), removed)
  }

  /** The name is a key of some leaf of the subtree. */
  ghost predicate InLeaf(x: Node, name: string)
    decreases x
  {
    if x.leaf then name in NameSet(x.keys)
    else exists i :: 0 <= i < |x.children| && InLeaf(x.children[i], name)
  }

  /** The name is a key of some internal node of the subtree. */
  ghost predicate InInternal(x: Node, name: string)
    decreases x
  {
    !x.leaf &&
    (name in NameSet(x.keys) || exists i :: 0 <= i < |x.children| && InInternal(x.children[i], name))
  }

  /** Same layout and the same keys in every internal node; leaves may differ. */
  ghost predicate SameInternals(a: Node, b: Node)
    decreases a
  {
    && a.leaf == b.leaf
    && |a.children| == |b.children|
    && (!a.leaf ==>
          && a.keys == b.keys
          && forall i :: 0 <= i < |a.children| ==> SameInternals(a.children[i], b.children[i]))
  }

  lemma {:induction false} SameInternalsRefl(a: Node)
    ensures SameInternals(a, a)
    decreases a
  {
    if !a.leaf {
      forall i | 0 <= i < |a.children|
        ensures SameInternals(a.children[i], a.children[i])
      {
        SameInternalsRefl(a.children[i]);
      }
    }
  }

  /** A name held by a leaf or an internal node is in the in-order content. */
  lemma {:induction false} HeldInContent(x: Node, name: string)
    requires Shaped(x)
    requires InLeaf(x, name) || InInternal(x, name)
    ensures name in NameSet(Content(x))
    decreases x
  {
    if x.leaf {
    } else {
      assert ChildrenShaped(x);
      if name in NameSet(x.keys) {
        KeysInContent(x);
        var j :| 0 <= j < |x.keys| && x.keys[j].name == name;
        assert x.keys[j] in Content(x);
      } else {
        var i :| 0 <= i < |x.children| &&
          (InLeaf(x.children[i], name) || InInternal(x.children[i], name));
        HeldInContent(x.children[i], name);
        ContentAround(x, i);
      }
    }
  }

  /** A name in the in-order content is held by a leaf or an internal node. */
  lemma {:induction false} HeldSomewhere(x: Node, name: string)
    requires Shaped(x)
    requires name in NameSet(Content(x))
    ensures InLeaf(x, name) || InInternal(x, name)
    decreases x
  {
    if !x.leaf {
      assert ChildrenShaped(x);
      var e :| e in Content(x) && e.name == name;
      WalkMembers(x.keys, x.children, e);
      if e !in x.keys {
        var i :| 0 <= i < |x.children| && e in Content(x.children[i]);
        HeldSomewhere(x.children[i], name);
      }
    }
  }

  /** A name in the subtree of child j is not a key of the node, and the
      key scan stops exactly at child j. */
  lemma OnlyChildHolding(x: Node, j: nat, name: string)
    requires WF(x) && !x.leaf && j < |x.children|
    requires name in NameSet(Content(x.children[j]))
    ensures FindKey(x.keys, name) == j
    ensures name !in NameSet(x.keys)
  {
    ChildNeighbors(x, j);
    KeysSorted(x);
    var e :| e in Content(x.children[j]) && e.name == name;
    forall i | 0 <= i < j
      ensures Less(x.keys[i].name, name)
    {
      if i < j - 1 {
        LessTransitive(x.keys[i].name, x.keys[j-1].name, name);
      }
    }
    forall i | j <= i < |x.keys|
      ensures Less(name, x.keys[i].name)
    {
      if j < i {
        LessTransitive(name, x.keys[j].name, x.keys[i].name);
      }
    }
    forall i | j <= i < |x.keys|
      ensures !Less(x.keys[i].name, name)
    {
      LessTotal(x.keys[i].name, name);
    }
    forall k | k in x.keys
      ensures k.name != name
    {
      var i :| 0 <= i < |x.keys| && x.keys[i] == k;
      LessIrreflexive(name);
    }
  }

  /** A name that is a key of an internal node is in none of its subtrees, so
      no leaf below holds it. */
  lemma KeyNotBelow(x: Node, name: string)
    requires WF(x) && !x.leaf
    ensures name in NameSet(x.keys) ==>
      !InLeaf(x, name) && forall j :: 0 <= j < |x.children| ==> name !in NameSet(Content(x.children[j]))
  {
    assert ChildrenShaped(x);
    forall j | 0 <= j < |x.children|
      ensures name in NameSet(Content(x.children[j])) ==> name !in NameSet(x.keys)
      ensures InLeaf(x.children[j], name) ==> name in NameSet(Content(x.children[j]))
    {
      if name in NameSet(Content(x.children[j])) {
        OnlyChildHolding(x, j, name);
      }
      if InLeaf(x.children[j], name) {
        HeldInContent(x.children[j], name);
      }
    }
  }

  /** btree_delete_node keeps the shape and height, and touches no internal
      node: internal keys and the layout are the same afterwards. */
  lemma {:induction false} DeleteNodeShaped(x: Node, name: string)
    requires Shaped(x)
    ensures Shaped(DeleteNode(x, name).0)
    ensures Height(DeleteNode(x, name).0) == Height(x)
    ensures SameInternals(x, DeleteNode(x, name).0)
    decreases x
  {
    var idx := FindKey(x.keys, name);
    var r := DeleteNode(x, name).0;
    if idx < |x.keys| && x.keys[idx].name == name {
      SameInternalsRefl(x);
    } else if x.leaf {
      SameInternalsRefl(x);
    } else {
      assert ChildrenShaped(x);
      var c := DeleteNode(x.children[idx], name).0;
      DeleteNodeShaped(x.children[idx], name);
      ReplaceChildShaped(x, idx, c);
      forall i | 0 <= i < |x.children|
        ensures SameInternals(x.children[i], r.children[i])
      {
        if i != idx {
          SameInternalsRefl(x.children[i]);
        }
      }
    }
  }

  /** The three outcomes of btree_delete_node on a well-formed subtree: a key
      is removed exactly when the name is held by a leaf, and then the content
      loses exactly that entry; otherwise (held by an internal node, or absent)
      nothing changes. */
  lemma {:induction false} DeleteNodeRemoves(x: Node, name: string)
    requires WF(x)
    ensures DeleteNode(x, name).1 <==> InLeaf(x, name)
    ensures DeleteNode(x, name).1 ==>
      Content(DeleteNode(x, name).0) == Without(Content(x), name)
    decreases x
  {
    var idx := FindKey(x.keys, name);
    var r := DeleteNode(x, name);
    if idx < |x.keys| && x.keys[idx].name == name {
      if x.leaf {
        KeysSorted(x);
        SortedUnique(x.keys, idx);
        WithoutAt(x.keys, idx, name);
      } else {
        assert x.keys[idx] in x.keys;
        KeyNotBelow(x, name);
      }
    } else if x.leaf {
      KeysSorted(x);
      LookupAtScan(x.keys, name);
      assert name !in NameSet(x.keys);
    } else {
      assert ChildrenShaped(x);
      ChildWF(x, idx);
      DeleteNodeRemoves(x.children[idx], name);
      DeleteBelowRemoves(x, name);
    }
  }

  /** The descent case of DeleteNodeRemoves: the name is no key of the
      internal node, and the child the scan picks satisfies the property. */
  lemma DeleteBelowRemoves(x: Node, name: string)
    requires WF(x) && !x.leaf
    requires var idx := FindKey(x.keys, name);
      && !(idx < |x.keys| && x.keys[idx].name == name)
      && idx < |x.children| && Shaped(x.children[idx])
      && (DeleteNode(x.children[idx], name).1 <==> InLeaf(x.children[idx], name))
      && (DeleteNode(x.children[idx], name).1 ==>
            Content(DeleteNode(x.children[idx], name).0) == Without(Content(x.children[idx]), name))
    ensures DeleteNode(x, name).1 <==> InLeaf(x, name)
    ensures DeleteNode(x, name).1 ==>
      Content(DeleteNode(x, name).0) == Without(Content(x), name)
  {
    var idx := FindKey(x.keys, name);
    var child := x.children[idx];
    assert ChildrenShaped(x);
    if InLeaf(x, name) {
      var j :| 0 <= j < |x.children| && InLeaf(x.children[j], name);
      HeldInContent(x.children[j], name);
      OnlyChildHolding(x, j, name);
    }
    if DeleteNode(x, name).1 {
      if idx < |x.keys| {
        LessTotal(x.keys[idx].name, name);
      }
      Separated(x, idx, name);
      DeleteDescendContent(x, idx, name, DeleteNode(child, name).0);
    }
  }

  /** Removing the name inside child j, when it sorts strictly between the
      keys around that child, is removal by name from the whole node. */
  lemma DeleteDescendContent(x: Node, j: nat, name: string, c: Node)
    requires !x.leaf && |x.children| == |x.keys| + 1 && j < |x.children|
    requires name !in NameSet(Pre(x, j)) && name !in NameSet(Post(x, j))
    requires Content(c) == Without(Content(x.children[j]), name)
    ensures Content(x.(children := x.children[j := c])) == Without(Content(x), name)
  {
    var x' := x.(children := x.children[j := c]);
    ContentAround(x, j);
    ContentAround(x', j);
    assert x'.children[..j] == x.children[..j];
    assert x'.children[j+1..] == x.children[j+1..];
    assert Pre(x', j) == Pre(x, j) && Post(x', j) == Post(x, j);
    var m := Content(x.children[j]);
    WithoutAppend(Pre(x, j) + m, Post(x, j), name);
    WithoutAppend(Pre(x, j), m, name);
    WithoutAbsent(Pre(x, j), name);
    WithoutAbsent(Post(x, j), name);
  }

  /** No name is held both by a leaf and by an internal node of a well-formed
      subtree. */
  lemma {:induction false} HeldOnce(x: Node, name: string)
    requires WF(x)
    ensures !(InLeaf(x, name) && InInternal(x, name))
    decreases x
  {
    if !x.leaf && InLeaf(x, name) && InInternal(x, name) {
      assert ChildrenShaped(x);
      var j :| 0 <= j < |x.children| && InLeaf(x.children[j], name);
      HeldInContent(x.children[j], name);
      OnlyChildHolding(x, j, name);
      var i :| 0 <= i < |x.children| && InInternal(x.children[i], name);
      HeldInContent(x.children[i], name);
      OnlyChildHolding(x, i, name);
      ChildWF(x, j);
      HeldOnce(x.children[j], name);
    }
  }

  /** On a shaped tree the root-collapse branch of btree_delete never runs:
      deletion leaves internal nodes alone, and an internal root keeps its
      keys. */
  lemma RootNeverCollapses(t: BTree, name: string)
    requires Shaped(t.root)
    ensures DeleteTree(t, name).0.root == DeleteNode(t.root, name).0
    ensures DeleteTree(t, name).1 == DeleteNode(t.root, name).1
  {
    DeleteNodeShaped(t.root, name);
  }

  /** btree_delete on a well-formed tree, name held by a leaf: exactly that
      entry leaves the in-order content, the result is 1, every internal node
      is as before, and the tree stays well-formed. */
  lemma DeleteTreeFromLeaf(t: BTree, name: string)
    requires WF(t.root) && InLeaf(t.root, name)
    ensures DeleteTree(t, name).1
    ensures Content(DeleteTree(t, name).0.root) == Without(Content(t.root), name)
    ensures |Content(DeleteTree(t, name).0.root)| == |Content(t.root)| - 1
    ensures SameInternals(t.root, DeleteTree(t, name).0.root)
    ensures WF(DeleteTree(t, name).0.root)
    ensures SearchTree(DeleteTree(t, name).0, name) == None
  {
    RootNeverCollapses(t, name);
    DeleteNodeShaped(t.root, name);
    DeleteNodeRemoves(t.root, name);
    HeldInContent(t.root, name);
    WithoutSorted(Content(t.root), name);
    var t' := DeleteTree(t, name).0;
    SearchTreeFinds(t', name);
  }

  /** btree_delete on a well-formed tree, name held by an internal node or not
      in the tree at all: the result is 0 and the tree is unchanged. */
  lemma DeleteTreeRefuses(t: BTree, name: string)
    requires WF(t.root)
    requires InInternal(t.root, name) || name !in NameSet(Content(t.root))
    ensures DeleteTree(t, name) == (t, false)
  {
    RootNeverCollapses(t, name);
    DeleteNodeRemoves(t.root, name);
    HeldOnce(t.root, name);
    if InLeaf(t.root, name) {
      HeldInContent(t.root, name);
    }
  }

  /** On sorted keys the scan stops at the key carrying the name. */
  lemma FindKeyAt(keys: seq<Entry>, p: nat, name: string)
    requires Sorted(keys) && p < |keys| && keys[p].name == name
    ensures FindKey(keys, name) == p
  {
    LessIrreflexive(name);
    assert forall j :: 0 <= j < p ==> Less(keys[j].name, keys[p].name);
  }

  lemma RemoveInserted(x: Node, y: Node, p: nat, k: Entry)
    requires x.leaf && p <= |x.keys|
    requires y == x.(keys := x.keys[..p] + [k] + x.keys[p..])
    requires Shaped(y) && Sorted(y.keys)
    ensures DeleteNode(y, k.name) == (x, true)
  {
    assert y.keys[p] == k;
    FindKeyAt(y.keys, p, k.name);
    assert y.keys[..p] == x.keys[..p] && y.keys[p+1..] == x.keys[p..];
    assert RemoveFromLeaf(y, p) == x;
  }

  /** Deleting from a leaf undoes inserting into it: the leaf comes back
      exactly as it was. */
  lemma LeafInsertThenDelete(x: Node, k: Entry)
    requires WF(x) && x.leaf && |x.keys| < MaxKeys
    requires k.name !in NameSet(Content(x))
    ensures DeleteNode(InsertNonFull(x, k), k.name) == (x, true)
  {
    var p := InsertPos(x.keys, k.name);
    var y := InsertNonFull(x, k);
    assert y == x.(keys := x.keys[..p] + [k] + x.keys[p..]);
    InsertLeafContent(x, k);
    RemoveInserted(x, y, p, k);
  }
}
