/** The listing walk (btree_traverse_node, btree_traverse): every entry of a
    namespace printed in order, indented by its node's depth, directories
    marked. */
module Traverse {
  import opened Names
  import opened Nodes
  import opened Ordering

  /** One printed line: the entry's name, whether it gets the trailing "/"
      of a directory, and the depth that sets its indentation (four spaces a
      level). */
  datatype Line = Line(name: string, isDir: bool, depth: nat)

  function LineOf(e: Entry, depth: nat): Line {
    Line(e.name, e.Dir?, depth)
  }

  /** btree_traverse_node: for each key, the subtree before it one level
      deeper (internal nodes only), then the key itself; finally the last
      subtree. */
  function TraverseNode(x: Node, depth: nat): (r: seq<Line>)
    ensures |r| == |Content(x)|
    decreases x
  {
    if x.leaf then KeyLines(x.keys, depth)
    else TraverseWalk(x.keys, x.children, depth)
  }

  function KeyLines(keys: seq<Entry>, depth: nat): (r: seq<Line>)
    ensures |r| == |keys|
    ensures forall i :: 0 <= i < |keys| ==> r[i] == LineOf(keys[i], depth)
  {
    if |keys| == 0 then [] else [LineOf(keys[0], depth)] + KeyLines(keys[1..], depth)
  }

  /** The interleaving of TraverseNode: one line per entry of Walk. */
  function TraverseWalk(keys: seq<Entry>, children: seq<Node>, depth: nat): (r: seq<Line>)
    ensures |r| == |Walk(keys, children)|
    decreases children
  {
    if |children| == 0 then []
    else if |keys| == 0 then TraverseNode(children[0], depth + 1)
    else TraverseNode(children[0], depth + 1) + [LineOf(keys[0], depth)]
         + TraverseWalk(keys[1..], children[1..], depth)
  }

  /** btree_traverse: the walk from the root at depth 0. */
  function TraverseTree(t: BTree): (r: seq<Line>)
    ensures Shows(r, Content(t.root))
  {
    TraverseShowsContent(t.root, 0);
    TraverseNode(t.root, 0)
  }

  /** The lines show the entries one for one: same names, same kinds, same
      order. */
  ghost predicate Shows(lines: seq<Line>, entries: seq<Entry>) {
    && |lines| == |entries|
    && forall i :: 0 <= i < |lines| ==>
         lines[i].name == entries[i].name && lines[i].isDir == entries[i].Dir?
  }

  lemma ShowsAppend(l1: seq<Line>, e1: seq<Entry>, l2: seq<Line>, e2: seq<Entry>)
    requires Shows(l1, e1) && Shows(l2, e2)
    ensures Shows(l1 + l2, e1 + e2)
  {
    forall i | 0 <= i < |l1| + |l2|
      ensures (l1 + l2)[i].name == (e1 + e2)[i].name && (l1 + l2)[i].isDir == (e1 + e2)[i].Dir?
    {
      if i >= |l1| {
        assert (l1 + l2)[i] == l2[i - |l1|] && (e1 + e2)[i] == e2[i - |e1|];
      }
    }
  }

  /** The walk prints exactly the in-order content, entry by entry. */
  lemma {:induction false} TraverseShowsContent(x: Node, depth: nat)
    ensures Shows(TraverseNode(x, depth), Content(x))
    decreases x
  {
    if !x.leaf {
      TraverseWalkShows(x.keys, x.children, depth);
    }
  }

  lemma {:induction false} TraverseWalkShows(keys: seq<Entry>, children: seq<Node>, depth: nat)
    ensures Shows(TraverseWalk(keys, children, depth), Walk(keys, children))
    decreases children
  {
    if |children| > 0 {
      TraverseShowsContent(children[0], depth + 1);
      if |keys| > 0 {
        TraverseWalkShows(keys[1..], children[1..], depth);
        var a := TraverseNode(children[0], depth + 1);
        var b := TraverseWalk(keys[1..], children[1..], depth);
        ShowsAppend(a, Content(children[0]), [LineOf(keys[0], depth)], [keys[0]]);
        ShowsAppend(a + [LineOf(keys[0], depth)], Content(children[0]) + [keys[0]],
                    b, Walk(keys[1..], children[1..]));
      }
    }
  }

  /** Every line of a shaped subtree walked from `depth` is indented between
      `depth` (the subtree's root keys) and `depth + Height(x)` (its leaves). */
  lemma {:induction false} TraverseDepths(x: Node, depth: nat)
    requires Shaped(x)
    ensures forall l :: l in TraverseNode(x, depth) ==> depth <= l.depth <= depth + Height(x)
    decreases x
  {
    if !x.leaf {
      assert ChildrenShaped(x);
      TraverseWalkDepths(x.keys, x.children, depth, Height(x) - 1);
    }
  }

  lemma {:induction false} TraverseWalkDepths(keys: seq<Entry>, children: seq<Node>, depth: nat, h: nat)
    requires forall i :: 0 <= i < |children| ==> Shaped(children[i]) && Height(children[i]) == h
    ensures forall l :: l in TraverseWalk(keys, children, depth) ==> depth <= l.depth <= depth + 1 + h
    decreases children
  {
    if |children| > 0 {
      TraverseDepths(children[0], depth + 1);
      if |keys| > 0 {
        TraverseWalkDepths(keys[1..], children[1..], depth, h);
      }
    }
  }

  /** btree_traverse on a well-formed tree lists every name of the namespace
      once, in strictly increasing order, no deeper than the leaves. */
  lemma ListingSorted(t: BTree)
    requires WF(t.root)
    ensures Shows(TraverseTree(t), Content(t.root))
    ensures forall i, j :: 0 <= i < j < |TraverseTree(t)| ==>
      Less(TraverseTree(t)[i].name, TraverseTree(t)[j].name)
    ensures forall l :: l in TraverseTree(t) ==> l.depth <= Height(t.root)
  {
    TraverseShowsContent(t.root, 0);
    TraverseDepths(t.root, 0);
  }

  /** The lines printed at indentation level `d`, in order. */
  function AtDepth(lines: seq<Line>, d: nat): seq<Line> {
    if |lines| == 0 then []
    else if lines[0].depth == d then [lines[0]] + AtDepth(lines[1..], d)
    else AtDepth(lines[1..], d)
  }

  lemma {:induction false} AtDepthAppend(a: seq<Line>, b: seq<Line>, d: nat)
    ensures AtDepth(a + b, d) == AtDepth(a, d) + AtDepth(b, d)
  {
    if |a| > 0 {
      assert (a + b)[0] == a[0] && (a + b)[1..] == a[1..] + b;
      AtDepthAppend(a[1..], b, d);
    } else {
      assert a + b == b;
    }
  }

  /** Nothing is printed at a level no line has. */
  lemma {:induction false} AtDepthNone(lines: seq<Line>, d: nat)
    requires forall l :: l in lines ==> l.depth != d
    ensures AtDepth(lines, d) == []
  {
    if |lines| > 0 {
      assert lines[0] in lines;
      assert forall l :: l in lines[1..] ==> l in lines;
      AtDepthNone(lines[1..], d);
    }
  }

  lemma {:induction false} KeyLinesAppend(a: seq<Entry>, b: seq<Entry>, d: nat)
    ensures KeyLines(a + b, d) == KeyLines(a, d) + KeyLines(b, d)
  {
    if |a| > 0 {
      assert (a + b)[0] == a[0] && (a + b)[1..] == a[1..] + b;
      KeyLinesAppend(a[1..], b, d);
    } else {
      assert a + b == b;
    }
  }

  /** Every line of KeyLines is at its depth, so filtering on it keeps them all. */
  lemma {:induction false} AtDepthKeyLines(keys: seq<Entry>, d: nat)
    ensures AtDepth(KeyLines(keys, d), d) == KeyLines(keys, d)
  {
    if |keys| > 0 {
      AtDepthKeyLines(keys[1..], d);
    }
  }

  /** Lines around a part with nothing at level `d` keep their lines at `d`. */
  lemma SkipMiddle(a: seq<Line>, k: seq<Line>, b: seq<Line>, d: nat, x: seq<Entry>, y: seq<Entry>)
    requires AtDepth(a, d) == KeyLines(x, d) && AtDepth(k, d) == [] && AtDepth(b, d) == KeyLines(y, d)
    ensures AtDepth(a + k + b, d) == KeyLines(x + y, d)
  {
    AtDepthAppend(a + k, b, d);
    AtDepthAppend(a, k, d);
    KeyLinesAppend(x, y, d);
    assert AtDepth(a, d) + [] == AtDepth(a, d);
  }

  /** The keys held by the leaves of a subtree, leaf after leaf. */
  ghost function LeafKeys(x: Node): seq<Entry>
    decreases x
  {
    if x.leaf then x.keys else LeafKeysOf(x.children)
  }

  ghost function LeafKeysOf(cs: seq<Node>): seq<Entry>
    decreases cs
  {
    if |cs| == 0 then [] else LeafKeys(cs[0]) + LeafKeysOf(cs[1..])
  }

  /** The keys of a node are printed at the node's own level: the lines at
      level `depth` are exactly its keys, in order. */
  lemma {:induction false} TopLines(x: Node, depth: nat)
    requires Shaped(x)
    ensures AtDepth(TraverseNode(x, depth), depth) == KeyLines(x.keys, depth)
  {
    if x.leaf {
      AtDepthKeyLines(x.keys, depth);
    } else {
      assert ChildrenShaped(x);
      TopLinesWalk(x.keys, x.children, depth, Height(x.children[0]));
    }
  }

  lemma {:induction false} TopLinesWalk(keys: seq<Entry>, children: seq<Node>, depth: nat, h: nat)
    requires |children| == |keys| + 1
    requires forall i :: 0 <= i < |children| ==> Shaped(children[i]) && Height(children[i]) == h
    ensures AtDepth(TraverseWalk(keys, children, depth), depth) == KeyLines(keys, depth)
    decreases keys
  {
    TraverseDepths(children[0], depth + 1);
    AtDepthNone(TraverseNode(children[0], depth + 1), depth);
    if |keys| > 0 {
      assert forall i :: 0 <= i < |children[1..]| ==> children[1..][i] == children[i + 1];
      TopLinesWalk(keys[1..], children[1..], depth, h);
      TopLinesCons(keys, children, depth);
    }
  }

  /** One step of TopLinesWalk: a first child with nothing at `depth`, then
      the first key, then the rest. */
  lemma TopLinesCons(keys: seq<Entry>, children: seq<Node>, depth: nat)
    requires |keys| > 0 && |children| == |keys| + 1
    requires AtDepth(TraverseNode(children[0], depth + 1), depth) == []
    requires AtDepth(TraverseWalk(keys[1..], children[1..], depth), depth) == KeyLines(keys[1..], depth)
    ensures AtDepth(TraverseWalk(keys, children, depth), depth) == KeyLines(keys, depth)
  {
    var a := TraverseNode(children[0], depth + 1);
    var k := [LineOf(keys[0], depth)];
    var b := TraverseWalk(keys[1..], children[1..], depth);
    assert TraverseWalk(keys, children, depth) == a + k + b;
    AtDepthAppend(a + k, b, depth);
    AtDepthAppend(a, k, depth);
    assert AtDepth(k, depth) == k;
    assert keys == [keys[0]] + keys[1..];
    KeyLinesAppend([keys[0]], keys[1..], depth);
  }

  /** The leaves of a shaped subtree are printed at the deepest level: the
      lines at `depth + Height(x)` are exactly the leaf keys, in order. */
  lemma {:induction false} LeafLines(x: Node, depth: nat)
    requires Shaped(x)
    ensures AtDepth(TraverseNode(x, depth), depth + Height(x)) == KeyLines(LeafKeys(x), depth + Height(x))
    decreases x, 1
  {
    if x.leaf {
      assert Height(x) == 0 && LeafKeys(x) == x.keys;
      assert TraverseNode(x, depth) == KeyLines(x.keys, depth);
      AtDepthKeyLines(x.keys, depth);
    } else {
      assert ChildrenShaped(x);
      var h := Height(x.children[0]);
      var d := depth + 1 + h;
      assert d == depth + Height(x);
      var lines := TraverseWalk(x.keys, x.children, depth);
      assert TraverseNode(x, depth) == lines;
      assert LeafKeys(x) == LeafKeysOf(x.children);
      LeafLinesWalk(x.keys, x.children, depth, h);
      assert AtDepth(lines, d) == KeyLines(LeafKeysOf(x.children), d);
    }
  }

  lemma {:induction false} LeafLinesWalk(keys: seq<Entry>, children: seq<Node>, depth: nat, h: nat)
    requires |children| == |keys| + 1
    requires forall i :: 0 <= i < |children| ==> Shaped(children[i]) && Height(children[i]) == h
    ensures AtDepth(TraverseWalk(keys, children, depth), depth + 1 + h) ==
      KeyLines(LeafKeysOf(children), depth + 1 + h)
    decreases children, 0
  {
    LeafLines(children[0], depth + 1);
    if |keys| == 0 {
      assert LeafKeysOf(children) == LeafKeys(children[0]) + LeafKeysOf(children[1..]);
      assert LeafKeysOf(children[1..]) == [];
    } else {
      assert forall i :: 0 <= i < |children[1..]| ==> children[1..][i] == children[i + 1];
      LeafLinesWalk(keys[1..], children[1..], depth, h);
      LeafLinesCons(keys, children, depth, depth + 1 + h);
    }
  }

  /** One step of LeafLinesWalk: the first child's lines at level `d`, no key
      line there, then the rest's. */
  lemma LeafLinesCons(keys: seq<Entry>, children: seq<Node>, depth: nat, d: nat)
    requires |keys| > 0 && |children| == |keys| + 1 && depth < d
    requires AtDepth(TraverseNode(children[0], depth + 1), d) == KeyLines(LeafKeys(children[0]), d)
    requires AtDepth(TraverseWalk(keys[1..], children[1..], depth), d) == KeyLines(LeafKeysOf(children[1..]), d)
    ensures AtDepth(TraverseWalk(keys, children, depth), d) == KeyLines(LeafKeysOf(children), d)
  {
    var a := TraverseNode(children[0], depth + 1);
    var k := [LineOf(keys[0], depth)];
    var b := TraverseWalk(keys[1..], children[1..], depth);
    assert TraverseWalk(keys, children, depth) == a + k + b;
    AtDepthNone(k, d);
    SkipMiddle(a, k, b, d, LeafKeys(children[0]), LeafKeysOf(children[1..]));
  }
}
