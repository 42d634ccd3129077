/** The data the namespace engine works on: entries (files and directories),
    the B-tree nodes that hold them, and the shape invariant of a B-tree of
    minimum degree T. The in-order content of a node is the abstraction every
    tree operation is specified against. */
module Nodes {

  type Degree = t: int | 2 <= t witness 2

  /** BTREE_ORDER, the minimum degree. Its value is fixed in a header that is
      not part of this model; only T >= 2 is assumed. */
  const T: Degree

  /** The most keys a node may hold. */
  const MaxKeys: int := 2 * T - 1

  datatype Option<A> = None | Some(value: A)

  /** A namespace entry (TreeNode): a text file with its content and size, or a
      directory owning its own namespace. The name is the search key. */
  datatype Entry =
    | File(name: string, content: string, size: nat)
    | Dir(name: string, dir: Directory)

  datatype Directory = Directory(tree: BTree)

  datatype BTree = BTree(root: Node)

  /** A B-tree node: its keys (num_keys of them), its children (meaningful only
      when the node is internal) and the leaf flag. */
  datatype Node = Node(keys: seq<Entry>, children: seq<Node>, leaf: bool)

  /** In-order content of a subtree: the entries a full traversal meets, in the
      order it meets them. */
  ghost function Content(n: Node): seq<Entry>
    decreases n
  {
    if n.leaf then n.keys else Walk(n.keys, n.children)
  }

  /** Interleaves children and keys: child 0, key 0, child 1, key 1, ... */
  ghost function Walk(keys: seq<Entry>, children: seq<Node>): seq<Entry>
    decreases children
  {
    if |children| == 0 then []
    else if |keys| == 0 then Content(children[0])
    else Content(children[0]) + [keys[0]] + Walk(keys[1..], children[1..])
  }

  /** Number of edges from a node down to its leaves, along the first child. */
  ghost function Height(n: Node): nat
    decreases n
  {
    if n.leaf || |n.children| == 0 then 0 else 1 + Height(n.children[0])
  }

  /** The B-tree shape: at most 2T-1 keys in every node, no children under a
      leaf, k+1 children under an internal node with k >= 1 keys, and every
      leaf at the same depth. */
  ghost predicate Shaped(n: Node)
    decreases n
  {
    && |n.keys| <= MaxKeys
    && if n.leaf then |n.children| == 0
       else 1 <= |n.keys| && |n.children| == |n.keys| + 1 && ChildrenShaped(n)
  }

  /** The children of `n` are k+1 shaped subtrees of one common height. */
  ghost predicate ChildrenShaped(n: Node)
    decreases n, 0
  {
    && |n.children| == |n.keys| + 1
    && forall i :: 0 <= i < |n.children| ==>
         Shaped(n.children[i]) && Height(n.children[i]) == Height(n.children[0])
  }

  /** Content of an internal node before child i: children 0..i-1 with their
      separating keys, ending with key i-1. */
  ghost function Pre(x: Node, i: nat): seq<Entry>
    requires i <= |x.keys| && i <= |x.children|
  {
    Walk(x.keys[..i], x.children[..i])
  }

  /** Content of an internal node after child i: key i, then the rest. */
  ghost function Post(x: Node, i: nat): seq<Entry>
    requires i <= |x.keys| && i < |x.children|
  {
    if i < |x.keys| then [x.keys[i]] + Walk(x.keys[i+1..], x.children[i+1..]) else []
  }

  lemma {:induction false} WalkAppend(k1: seq<Entry>, c1: seq<Node>, k2: seq<Entry>, c2: seq<Node>)
    requires |k1| == |c1|
    ensures Walk(k1 + k2, c1 + c2) == Walk(k1, c1) + Walk(k2, c2)
  {
    if |k1| > 0 {
      assert (k1 + k2)[1..] == k1[1..] + k2;
      assert (c1 + c2)[1..] == c1[1..] + c2;
      WalkAppend(k1[1..], c1[1..], k2, c2);
    } else {
      assert k1 + k2 == k2 && c1 + c2 == c2;
    }
  }

  /** Every key of an interleaving appears in its content. */
  lemma {:induction false} WalkHasKeys(keys: seq<Entry>, children: seq<Node>)
    requires |keys| <= |children|
    ensures forall j :: 0 <= j < |keys| ==> keys[j] in Walk(keys, children)
  {
    if |keys| > 0 {
      WalkHasKeys(keys[1..], children[1..]);
      forall j | 0 < j < |keys|
        ensures keys[j] in Walk(keys, children)
      {
        assert keys[j] == keys[1..][j-1];
      }
    }
  }

  /** Everything in an interleaving is one of its keys or in one of its
      children's content. */
  lemma {:induction false} WalkMembers(keys: seq<Entry>, children: seq<Node>, e: Entry)
    requires e in Walk(keys, children)
    ensures e in keys || exists i :: 0 <= i < |children| && e in Content(children[i])
    decreases children
  {
    if |children| > 0 && |keys| > 0 && e !in Content(children[0]) && e != keys[0] {
      WalkMembers(keys[1..], children[1..], e);
      if e !in keys[1..] {
        var i :| 0 <= i < |children[1..]| && e in Content(children[1..][i]);
        assert children[1..][i] == children[i + 1];
      }
    }
  }

  /** An interleaving starting with child c. */
  lemma WalkCons(keys: seq<Entry>, c: Node, rest: seq<Node>)
    ensures Walk(keys, [c] + rest) ==
      Content(c) + (if |keys| > 0 then [keys[0]] + Walk(keys[1..], rest) else [])
  {
    assert ([c] + rest)[0] == c && ([c] + rest)[1..] == rest;
  }

  /** The content of an internal node splits around any one child. */
  lemma ContentAround(x: Node, i: nat)
    requires !x.leaf && |x.children| == |x.keys| + 1 && i < |x.children|
    ensures Content(x) == Pre(x, i) + Content(x.children[i]) + Post(x, i)
  {
    assert x.keys == x.keys[..i] + x.keys[i..];
    assert x.children == x.children[..i] + x.children[i..];
    WalkAppend(x.keys[..i], x.children[..i], x.keys[i..], x.children[i..]);
    var rest := x.children[i..];
    assert rest[0] == x.children[i];
    if i < |x.keys| {
      assert x.keys[i..][1..] == x.keys[i+1..];
      assert rest[1..] == x.children[i+1..];
    }
  }

  /** The part before child i ends with child i-1 and key i-1. */
  lemma PreLast(x: Node, i: nat)
    requires 0 < i <= |x.keys| && i <= |x.children|
    ensures Pre(x, i) == Pre(x, i - 1) + Content(x.children[i-1]) + [x.keys[i-1]]
  {
    assert x.keys[..i] == x.keys[..i-1] + [x.keys[i-1]];
    assert x.children[..i] == x.children[..i-1] + [x.children[i-1]];
    WalkAppend(x.keys[..i-1], x.children[..i-1], [x.keys[i-1]], [x.children[i-1]]);
    assert Walk([x.keys[i-1]], [x.children[i-1]]) == Content(x.children[i-1]) + [x.keys[i-1]] + Walk([], []);
  }

  /** Putting a subtree of the same height and shape in place of one child keeps
      the parent shaped and of the same height. */
  lemma ReplaceChildShaped(x: Node, j: nat, c: Node)
    requires Shaped(x) && !x.leaf && j < |x.children|
    requires Shaped(c) && Height(c) == Height(x.children[j])
    ensures Shaped(x.(children := x.children[j := c]))
    ensures Height(x.(children := x.children[j := c])) == Height(x)
  {
    var x' := x.(children := x.children[j := c]);
    assert Height(x'.children[0]) == Height(x.children[0]);
    forall i | 0 <= i < |x'.children|
      ensures Shaped(x'.children[i]) && Height(x'.children[i]) == Height(x'.children[0])
    {
      if i != j {
        assert x'.children[i] == x.children[i];
      }
    }
  }
}
