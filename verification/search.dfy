/** Ordered lookup in the namespace tree (btree_find_key, btree_search_node,
    btree_search). */
module Search {
  import opened Names
  import opened Nodes
  import opened Ordering

  /** btree_find_key: scans the keys from the left while they sort before
      `name`, and returns where the scan stops. */
  function FindKey(keys: seq<Entry>, name: string): (idx: nat)
    ensures idx <= |keys|
    ensures forall j :: 0 <= j < idx ==> Less(keys[j].name, name)
    ensures idx < |keys| ==> !Less(keys[idx].name, name)
  {
    if |keys| == 0 then 0
    else if Less(keys[0].name, name) then 1 + FindKey(keys[1..], name)
    else 0
  }

  /** On sorted keys the scan stops at the least index whose key is at least
      `name`: every key from there on sorts after `name` or equals it. */
  lemma FindKeyLeast(keys: seq<Entry>, name: string)
    requires Sorted(keys)
    ensures var idx := FindKey(keys, name);
      forall j :: idx <= j < |keys| ==> !Less(keys[j].name, name)
  {
    var idx := FindKey(keys, name);
    forall j | idx < j < |keys|
      ensures !Less(keys[j].name, name)
    {
      if Less(keys[j].name, name) {
        LessTransitive(keys[idx].name, keys[j].name, name);
      }
    }
  }

  /** The scan of btree_search_node: moves right while `name` compares
      greater than the key. */
  function ScanPast(keys: seq<Entry>, name: string): (idx: nat)
    ensures idx <= |keys|
    ensures forall j :: 0 <= j < idx ==> Compare(name, keys[j].name) > 0
    ensures idx < |keys| ==> Compare(name, keys[idx].name) <= 0
  {
    if |keys| == 0 then 0
    else if Compare(name, keys[0].name) > 0 then 1 + ScanPast(keys[1..], name)
    else 0
  }

  /** Comparing the name with the key or the key with the name stops both
      scans at the same place. */
  lemma {:induction false} ScanPastIsFindKey(keys: seq<Entry>, name: string)
    ensures ScanPast(keys, name) == FindKey(keys, name)
  {
    if |keys| > 0 {
      CompareFlip(name, keys[0].name);
      ScanPastIsFindKey(keys[1..], name);
    }
  }

  /** btree_search_node: the scan, a hit at the stop position, otherwise a
      miss at a leaf or the descent into the child at the stop position. */
  function SearchNode(x: Node, name: string): (r: Option<Entry>)
    requires Shaped(x)
    ensures r.Some? ==> r.value.name == name
    decreases x
  {
    var i := ScanPast(x.keys, name);
    if i < |x.keys| && x.keys[i].name == name then Some(x.keys[i])
    else if x.leaf then None
    else
      assert ChildrenShaped(x);
      SearchNode(x.children[i], name)
  }

  /** btree_search. */
  function SearchTree(t: BTree, name: string): (r: Option<Entry>)
    requires Shaped(t.root)
    ensures r.Some? ==> r.value.name == name
  {
    SearchNode(t.root, name)
  }

  /** On sorted keys, the entry at the scan's stop position is the reference
      lookup's answer when it carries the name, and nothing carries the name
      otherwise. */
  lemma LookupAtScan(keys: seq<Entry>, name: string)
    requires Sorted(keys)
    ensures var i := FindKey(keys, name);
      Lookup(keys, name) == if i < |keys| && keys[i].name == name then Some(keys[i]) else None
  {
    var i := FindKey(keys, name);
    ScanPrefixMisses(keys, name);
    assert keys == keys[..i] + keys[i..];
    LookupAppend(keys[..i], keys[i..], name);
    if i < |keys| {
      assert keys[i..][0] == keys[i];
      ScanRestMisses(keys, name);
    }
  }

  /** No key the scan moves past carries the name. */
  lemma ScanPrefixMisses(keys: seq<Entry>, name: string)
    ensures name !in NameSet(keys[..FindKey(keys, name)])
  {
    var i := FindKey(keys, name);
    LessIrreflexive(name);
    forall e | e in keys[..i]
      ensures e.name != name
    {
      var j :| 0 <= j < i && keys[..i][j] == e;
    }
  }

  /** On sorted keys, when the key at the stop position does not carry the
      name, no key from there on does. */
  lemma ScanRestMisses(keys: seq<Entry>, name: string)
    requires Sorted(keys)
    requires FindKey(keys, name) < |keys|
    ensures keys[FindKey(keys, name)].name != name ==>
      name !in NameSet(keys[FindKey(keys, name)..])
  {
    var i := FindKey(keys, name);
    if keys[i].name != name {
      LessTotal(keys[i].name, name);
      LessIrreflexive(name);
      forall e | e in keys[i..]
        ensures e.name != name
      {
        var j :| i <= j < |keys| && keys[j] == e;
        if j > i {
          LessTransitive(name, keys[i].name, keys[j].name);
        }
      }
    }
  }

  /** On a leaf, the search answers exactly what the reference lookup answers. */
  lemma SearchLeaf(x: Node, name: string)
    requires WF(x) && x.leaf
    ensures SearchNode(x, name) == Lookup(Content(x), name)
  {
    ScanPastIsFindKey(x.keys, name);
    LookupAtScan(x.keys, name);
  }

  /** btree_search_node finds an entry exactly when the subtree's in-order
      content holds one under that name, and then finds that very entry. */
  lemma {:induction false} SearchNodeFinds(x: Node, name: string)
    requires WF(x)
    ensures SearchNode(x, name) == Lookup(Content(x), name)
    decreases x
  {
    if x.leaf {
      SearchLeaf(x, name);
    } else {
      ScanPastIsFindKey(x.keys, name);
      var i := FindKey(x.keys, name);
      var pre := Pre(x, i);
      var m := Content(x.children[i]);
      ContentAround(x, i);
      if i < |x.keys| && x.keys[i].name == name {
        BelowKey(x, i);
        assert name !in NameSet(pre + m);
        assert Post(x, i) == [x.keys[i]] + Walk(x.keys[i+1..], x.children[i+1..]);
        assert Content(x) == (pre + m) + Post(x, i);
        LookupAppend(pre + m, Post(x, i), name);
      } else {
        if i < |x.keys| {
          LessTotal(x.keys[i].name, name);
        }
        Separated(x, i, name);
        LookupMiddle(pre, m, Post(x, i), name);
        ChildWF(x, i);
        SearchNodeFinds(x.children[i], name);
      }
    }
  }

  /** btree_search returns the entry with that name exactly when the name is
      in the tree's in-order content, and NULL otherwise. */
  lemma SearchTreeFinds(t: BTree, name: string)
    requires WF(t.root)
    ensures SearchTree(t, name) == Lookup(Content(t.root), name)
    ensures SearchTree(t, name).Some? <==> name in NameSet(Content(t.root))
    ensures SearchTree(t, name).Some? ==>
      SearchTree(t, name).value in Content(t.root) && SearchTree(t, name).value.name == name
  {
    SearchNodeFinds(t.root, name);
  }
}
