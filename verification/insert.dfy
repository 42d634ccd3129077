/** Insertion into the namespace tree: node splitting (btree_split_child),
    insertion into a non-full node (btree_insert_nonfull), the tree-level
    insert that grows the root (btree_insert), and tree creation
    (btree_create). */
module Insert {
  import opened Names
  import opened Nodes
  import opened Ordering
  import opened Search

  /** btree_split_child: the full child at `idx` keeps its lower T-1 keys (and
      lower T children), a new right sibling takes the upper T-1 keys (and
      upper T children), and the median moves up into the parent at `idx`,
      with the sibling at child slot idx+1. */
  function SplitChild(x: Node, idx: nat): (r: Node)
    requires !x.leaf && |x.children| == |x.keys| + 1 && idx < |x.children|
    requires |x.children[idx].keys| == MaxKeys
    requires x.children[idx].leaf || |x.children[idx].children| == 2 * T
    ensures |r.keys| == |x.keys| + 1 && |r.children| == |x.children| + 1
    ensures !r.leaf
    ensures r.keys[..idx] == x.keys[..idx] && r.keys[idx+1..] == x.keys[idx..]
    ensures r.children[..idx] == x.children[..idx] && r.children[idx+2..] == x.children[idx+1..]
    ensures |r.children[idx].keys| == T - 1 && |r.children[idx+1].keys| == T - 1
    ensures r.children[idx].keys + [r.keys[idx]] + r.children[idx+1].keys == x.children[idx].keys
    ensures r.children[idx].leaf == r.children[idx+1].leaf == x.children[idx].leaf
    ensures !x.children[idx].leaf ==>
      r.children[idx].children + r.children[idx+1].children == x.children[idx].children &&
      |r.children[idx+1].children| == T
  {
    var y := x.children[idx];
    var lower := y.(keys := y.keys[..T-1], children := if y.leaf then y.children else y.children[..T]);
    var upper := Node(y.keys[T..], if y.leaf then [] else y.children[T..], y.leaf);
    assert y.keys == y.keys[..T-1] + [y.keys[T-1]] + y.keys[T..];
    assert !y.leaf ==> y.children == y.children[..T] + y.children[T..];
    var r := x.(keys := x.keys[..idx] + [y.keys[T-1]] + x.keys[idx..],
                children := x.children[..idx] + [lower, upper] + x.children[idx+1..]);
    assert r.keys[idx+1..] == x.keys[idx..];
    assert r.children[idx+2..] == x.children[idx+1..];
    r
  }

  /** Splitting a full child of a node with room to spare yields a shaped node
      of the same height: both halves are shaped subtrees of the child's height. */
  lemma SplitChildShaped(x: Node, idx: nat)
    requires !x.leaf && ChildrenShaped(x) && |x.keys| < MaxKeys && idx < |x.children|
    requires |x.children[idx].keys| == MaxKeys
    ensures x.children[idx].leaf || |x.children[idx].children| == 2 * T
    ensures Shaped(SplitChild(x, idx)) && Height(SplitChild(x, idx)) == Height(x)
  {
    var y := x.children[idx];
    assert Shaped(y);
    var r := SplitChild(x, idx);
    var lower := r.children[idx];
    var upper := r.children[idx+1];
    if !y.leaf {
      assert ChildrenShaped(y);
      assert lower.children[0] == y.children[0];
      forall i | 0 <= i < |lower.children|
        ensures Shaped(lower.children[i]) && Height(lower.children[i]) == Height(lower.children[0])
      {
        assert lower.children[i] == y.children[i];
      }
      forall i | 0 <= i < |upper.children|
        ensures Shaped(upper.children[i]) && Height(upper.children[i]) == Height(y.children[0])
      {
        assert upper.children[i] == y.children[T + i];
      }
      assert Height(upper) == Height(y);
      assert Height(lower) == 1 + Height(y.children[0]) == Height(y);
    }
    assert Shaped(lower) && Height(lower) == Height(y);
    assert Shaped(upper) && Height(upper) == Height(y);
    forall i | 0 <= i < |r.children|
      ensures Shaped(r.children[i]) && Height(r.children[i]) == Height(x.children[0])
    {
      if i < idx {
        assert r.children[i] == r.children[..idx][i] == x.children[i];
      } else if i > idx + 1 {
        assert r.children[i] == r.children[idx+2..][i - idx - 2] == x.children[i - 1];
      }
    }
  }

  /** The in-order content of a full node is its lower half, the median, and
      its upper half. */
  lemma SplitNodeContent(x: Node, idx: nat)
    requires !x.leaf && |x.children| == |x.keys| + 1 && idx < |x.children|
    requires |x.children[idx].keys| == MaxKeys
    requires x.children[idx].leaf || |x.children[idx].children| == 2 * T
    ensures var r := SplitChild(x, idx);
      Content(x.children[idx]) == Content(r.children[idx]) + [r.keys[idx]] + Content(r.children[idx+1])
  {
    var y := x.children[idx];
    var r := SplitChild(x, idx);
    if !y.leaf {
      var k1 := y.keys[..T-1];
      var m := y.keys[T-1];
      var c1 := y.children[..T];
      assert y.keys == (k1 + [m]) + y.keys[T..];
      assert y.children == c1 + y.children[T..];
      WalkAppend(k1 + [m], c1, y.keys[T..], y.children[T..]);
      assert k1 == k1 + [];
      assert c1 == c1[..T-1] + [c1[T-1]];
      assert k1 + [m] == k1 + [m];
      WalkAppend(k1, c1[..T-1], [m], [c1[T-1]]);
      WalkAppend(k1, c1[..T-1], [], [c1[T-1]]);
      assert Walk([m], [c1[T-1]]) == Content(c1[T-1]) + [m] + Walk([], []);
    }
  }

  /** Splitting a child leaves the parent's in-order content, and so its total
      number of entries, unchanged. */
  lemma SplitChildContent(x: Node, idx: nat)
    requires !x.leaf && |x.children| == |x.keys| + 1 && idx < |x.children|
    requires |x.children[idx].keys| == MaxKeys
    requires x.children[idx].leaf || |x.children[idx].children| == 2 * T
    ensures Content(SplitChild(x, idx)) == Content(x)
    ensures |Content(SplitChild(x, idx))| == |Content(x)|
  {
    var r := SplitChild(x, idx);
    SplitParentContent(x, idx, r);
    SplitNodeContent(x, idx);
    ContentAround(x, idx);
  }

  /** The parent's content after a split, piece by piece. */
  lemma SplitParentContent(x: Node, idx: nat, r: Node)
    requires !x.leaf && |x.children| == |x.keys| + 1 && idx < |x.children|
    requires |x.children[idx].keys| == MaxKeys
    requires x.children[idx].leaf || |x.children[idx].children| == 2 * T
    requires r == SplitChild(x, idx)
    ensures Content(r) == Pre(x, idx) + (Content(r.children[idx]) + [r.keys[idx]] + Content(r.children[idx+1])) + Post(x, idx)
  {
    ContentAround(r, idx);
    assert Pre(r, idx) == Pre(x, idx);
    SplitPost(x, idx, r);
  }

  /** After a split, the parent's content past the kept lower half is the
      median, the new sibling, and what followed the child before. */
  lemma SplitPost(x: Node, idx: nat, r: Node)
    requires |x.children| == |x.keys| + 1 && idx < |x.children|
    requires |r.keys| == |x.keys| + 1 && |r.children| == |x.children| + 1
    requires r.keys[idx+1..] == x.keys[idx..] && r.children[idx+2..] == x.children[idx+1..]
    ensures Post(r, idx) == [r.keys[idx]] + Content(r.children[idx+1]) + Post(x, idx)
  {
    var upper := r.children[idx+1];
    assert r.children[idx+1..] == [upper] + x.children[idx+1..];
    WalkCons(x.keys[idx..], upper, x.children[idx+1..]);
    if idx < |x.keys| {
      assert x.keys[idx..][0] == x.keys[idx] && x.keys[idx..][1..] == x.keys[idx+1..];
    }
  }

  /** The scan btree_insert_nonfull runs from the last key leftwards while the
      new name sorts before the key: it stops just after the rightmost key that
      does not sort after the name. */
  function InsertPos(keys: seq<Entry>, name: string): (p: nat)
    ensures p <= |keys|
    ensures forall j :: p <= j < |keys| ==> Less(name, keys[j].name)
    ensures 0 < p ==> !Less(name, keys[p-1].name)
  {
    if |keys| == 0 then 0
    else if Less(name, keys[|keys|-1].name) then InsertPos(keys[..|keys|-1], name)
    else |keys|
  }

  /** btree_insert_nonfull: on a leaf, `k` goes in at the scan position, larger
      keys shifting right; on an internal node the scan picks a child, which is
      split first when full, and the insertion recurses into the child whose
      range holds the name. Shape and height are kept. */
  function InsertNonFull(x: Node, k: Entry): (r: Node)
    requires Shaped(x) && |x.keys| < MaxKeys
    ensures Shaped(r) && Height(r) == Height(x) && r.leaf == x.leaf
    decreases Height(x)
  {
    var i := InsertPos(x.keys, k.name);
    if x.leaf then
      x.(keys := x.keys[..i] + [k] + x.keys[i..])
    else
      assert ChildrenShaped(x);
      if |x.children[i].keys| == MaxKeys then
        SplitChildShaped(x, i);
        var s := SplitChild(x, i);
        var j := if Compare(k.name, s.keys[i].name) > 0 then i + 1 else i;
        assert ChildrenShaped(s);
        var c := InsertNonFull(s.children[j], k);
        ReplaceChildShaped(s, j, c);
        s.(children := s.children[j := c])
      else
        var c := InsertNonFull(x.children[i], k);
        ReplaceChildShaped(x, i, c);
        x.(children := x.children[i := c])
  }

  /** btree_create: a tree whose root is an empty leaf, the empty namespace. */
  function CreateTree(): (t: BTree)
    ensures WF(t.root) && Content(t.root) == [] && Height(t.root) == 0
  {
    BTree(Node([], [], true))
  }

  /** btree_insert. A full root is first placed under a new root and split, so
      the height grows by one exactly when the root was full. Duplicates are
      not checked here; the content lemmas below assume a fresh name, which
      the callers ensure by searching first. */
  function InsertTree(t: BTree, k: Entry): (r: BTree)
    requires Shaped(t.root)
    ensures Shaped(r.root)
    ensures Height(r.root) == Height(t.root) + (if |t.root.keys| == MaxKeys then 1 else 0)
  {
    var root := t.root;
    if |root.keys| == MaxKeys then
      var s := Node([], [root], false);
      SplitChildShaped(s, 0);
      BTree(InsertNonFull(SplitChild(s, 0), k))
    else
      BTree(InsertNonFull(root, k))
  }

  /** Inserting at the scan position of a leaf is sorted insertion. */
  lemma InsertLeafContent(x: Node, k: Entry)
    requires WF(x) && x.leaf && |x.keys| < MaxKeys
    requires k.name !in NameSet(Content(x))
    ensures Content(InsertNonFull(x, k)) == SortedInsert(Content(x), k)
    ensures Sorted(InsertNonFull(x, k).keys)
  {
    var keys := x.keys;
    var p := InsertPos(keys, k.name);
    if 0 < p {
      assert keys[p-1] in keys;
      LessTotal(k.name, keys[p-1].name);
      SortedUpTo(keys[..p]);
      assert keys[..p][p-1] == keys[p-1];
      AllBelow(keys[..p], keys[p-1], k.name);
    }
    assert keys == keys[..p] + [] + keys[p..];
    SortedInsertBetween(keys[..p], [], keys[p..], k);
    SortedInsertSorted(keys, k);
  }

  /** Recursing into child j of `x` with a name that sorts strictly between
      the keys around that child is sorted insertion into the whole node. */
  lemma DescendContent(x: Node, j: nat, k: Entry, c: Node)
    requires WF(x) && !x.leaf && j < |x.children|
    requires 0 < j ==> Less(x.keys[j-1].name, k.name)
    requires j < |x.keys| ==> Less(k.name, x.keys[j].name)
    requires Content(c) == SortedInsert(Content(x.children[j]), k)
    ensures Content(x.(children := x.children[j := c])) == SortedInsert(Content(x), k)
  {
    var x' := x.(children := x.children[j := c]);
    ContentAround(x, j);
    ContentAround(x', j);
    assert x'.children[..j] == x.children[..j];
    assert x'.children[j+1..] == x.children[j+1..];
    assert Pre(x', j) == Pre(x, j) && Post(x', j) == Post(x, j);
    Separated(x, j, k.name);
    SortedInsertBetween(Pre(x, j), Content(x.children[j]), Post(x, j), k);
  }

  /** Where btree_insert_nonfull descends, the new name sorts strictly between
      the keys around the chosen child, and is fresh in that child. */
  lemma ChildNameFresh(x: Node, j: nat, name: string)
    requires WF(x) && !x.leaf && j < |x.children|
    requires name !in NameSet(Content(x))
    ensures WF(x.children[j]) && name !in NameSet(Content(x.children[j]))
  {
    ChildWF(x, j);
  }

  /** Where btree_insert_nonfull may descend with `k`: a well-formed internal
      node, a child with room for one more key, a fresh name that sorts
      strictly between the keys around that child. */
  ghost predicate Descent(p: Node, j: nat, k: Entry) {
    && WF(p) && !p.leaf && j < |p.children|
    && Shaped(p.children[j]) && |p.children[j].keys| < MaxKeys
    && (0 < j ==> Less(p.keys[j-1].name, k.name))
    && (j < |p.keys| ==> Less(k.name, p.keys[j].name))
    && k.name !in NameSet(Content(p))
  }

  /** After the full child i is split, the child btree_insert_nonfull picks
      by comparing with the median lies strictly between its neighbouring keys
      for the new name, and the split node is still well-formed with the same
      content. */
  lemma SplitChoice(x: Node, k: Entry, i: nat)
    requires WF(x) && !x.leaf && |x.keys| < MaxKeys
    requires k.name !in NameSet(Content(x))
    requires i == InsertPos(x.keys, k.name) && |x.children[i].keys| == MaxKeys
    requires x.children[i].leaf || |x.children[i].children| == 2 * T
    requires Shaped(SplitChild(x, i))
    ensures var s := SplitChild(x, i);
      && Content(s) == Content(x)
      && Descent(s, if Compare(k.name, s.keys[i].name) > 0 then i + 1 else i, k)
  {
    KeysInContent(x);
    if 0 < i {
      LessTotal(k.name, x.keys[i-1].name);
    }
    SplitChildContent(x, i);
    var s := SplitChild(x, i);
    var j := if Compare(k.name, s.keys[i].name) > 0 then i + 1 else i;
    KeysInContent(s);
    assert s.keys[i] in Content(x);
    CompareFlip(k.name, s.keys[i].name);
    LessTotal(k.name, s.keys[i].name);
    if j == i + 1 {
      assert s.keys[j-1] == s.keys[i];
      if j < |s.keys| {
        assert s.keys[j] == s.keys[i+1..][0] == x.keys[i];
      }
    } else {
      if 0 < i {
        assert s.keys[i-1] == s.keys[..i][i-1] == x.keys[i-1];
      }
    }
    assert ChildrenShaped(s);
  }

  /** btree_insert_nonfull on a well-formed node with room for one more key and
      a fresh name: the in-order content becomes the old content with the new
      entry in its sorted place, and the tree stays well-formed. */
  lemma {:induction false} InsertNonFullContent(x: Node, k: Entry)
    requires WF(x) && |x.keys| < MaxKeys
    requires k.name !in NameSet(Content(x))
    ensures Content(InsertNonFull(x, k)) == SortedInsert(Content(x), k)
    ensures WF(InsertNonFull(x, k))
    decreases Height(x), 1
  {
    SortedInsertSorted(Content(x), k);
    if x.leaf {
      InsertLeafContent(x, k);
    } else {
      assert ChildrenShaped(x);
      var i := InsertPos(x.keys, k.name);
      if |x.children[i].keys| == MaxKeys {
        InsertSplitContent(x, k);
      } else {
        KeysInContent(x);
        if 0 < i {
          LessTotal(k.name, x.keys[i-1].name);
        }
        InsertIntoChild(x, i, k);
      }
    }
  }

  /** The case of btree_insert_nonfull where the chosen child is full and is
      split before the descent. */
  lemma {:induction false} InsertSplitContent(x: Node, k: Entry)
    requires WF(x) && !x.leaf && |x.keys| < MaxKeys
    requires k.name !in NameSet(Content(x))
    requires |x.children[InsertPos(x.keys, k.name)].keys| == MaxKeys
    ensures Content(InsertNonFull(x, k)) == SortedInsert(Content(x), k)
    ensures WF(InsertNonFull(x, k))
    decreases Height(x), 0
  {
    assert ChildrenShaped(x);
    var i := InsertPos(x.keys, k.name);
    SplitChildShaped(x, i);
    SplitChoice(x, k, i);
    var s := SplitChild(x, i);
    var j := if Compare(k.name, s.keys[i].name) > 0 then i + 1 else i;
    assert ChildrenShaped(s);
    assert Height(s.children[j]) < Height(x);
    InsertIntoChild(s, j, k);
  }

  /** Inserting into a non-full child j whose range holds the fresh name is
      sorted insertion into the whole node, and keeps it well-formed. */
  lemma {:induction false} InsertIntoChild(p: Node, j: nat, k: Entry)
    requires Descent(p, j, k)
    ensures var p' := p.(children := p.children[j := InsertNonFull(p.children[j], k)]);
      Content(p') == SortedInsert(Content(p), k) && WF(p')
    decreases Height(p.children[j]), 2
  {
    var c := InsertNonFull(p.children[j], k);
    ChildNameFresh(p, j, k.name);
    InsertNonFullContent(p.children[j], k);
    DescendContent(p, j, k, c);
    ReplaceChildShaped(p, j, c);
    SortedInsertSorted(Content(p), k);
  }

  /** btree_insert on a well-formed tree with a fresh name keeps the tree
      well-formed (at most 2T-1 keys per node, k+1 children per internal node,
      sorted in-order content) and its content becomes the old content with
      the new entry inserted in order. */
  lemma InsertTreeContent(t: BTree, k: Entry)
    requires WF(t.root)
    requires k.name !in NameSet(Content(t.root))
    ensures WF(InsertTree(t, k).root)
    ensures Content(InsertTree(t, k).root) == SortedInsert(Content(t.root), k)
    ensures |Content(InsertTree(t, k).root)| == |Content(t.root)| + 1
  {
    var root := t.root;
    if |root.keys| == MaxKeys {
      var s := Node([], [root], false);
      SplitChildShaped(s, 0);
      SplitChildContent(s, 0);
      assert Content(s) == Walk([], [root]) == Content(root);
      var s' := SplitChild(s, 0);
      assert WF(s');
      InsertNonFullContent(s', k);
      assert InsertTree(t, k).root == InsertNonFull(s', k);
    } else {
      InsertNonFullContent(root, k);
    }
    SortedInsertPermutes(Content(t.root), k);
  }

  /** Search after insert: the new name finds the new entry and every other
      name finds what it found before. */
  lemma SearchAfterInsert(t: BTree, k: Entry, name: string)
    requires WF(t.root)
    requires k.name !in NameSet(Content(t.root))
    ensures WF(InsertTree(t, k).root)
    ensures SearchTree(InsertTree(t, k), name) ==
      if name == k.name then Some(k) else SearchTree(t, name)
  {
    InsertTreeContent(t, k);
    SearchTreeFinds(t, name);
    SearchTreeFinds(InsertTree(t, k), name);
    LookupSortedInsert(Content(t.root), k, name);
  }
}
