/** Sequences of entries ordered by name, the reference operations the tree
    operations are measured against (lookup, sorted insertion, removal by
    name), and the search-tree invariant: a shaped node whose in-order content
    is strictly sorted. */
module Ordering {
  import opened Names
  import opened Nodes

  /** Strictly increasing by name; in particular no name occurs twice. */
  ghost predicate Sorted(s: seq<Entry>) {
    forall i, j :: 0 <= i < j < |s| ==> Less(s[i].name, s[j].name)
  }

  ghost function NameSet(s: seq<Entry>): set<string> {
    set e | e in s :: e.name
  }

  /** A well-formed namespace tree: B-tree shape and sorted in-order content. */
  ghost predicate WF(n: Node) {
    Shaped(n) && Sorted(Content(n))
  }

  /** Reference lookup: the first entry of `s` carrying `name`. */
  ghost function Lookup(s: seq<Entry>, name: string): (r: Option<Entry>)
    ensures r.Some? <==> name in NameSet(s)
    ensures r.Some? ==> r.value in s && r.value.name == name
  {
    if |s| == 0 then None
    else if s[0].name == name then Some(s[0])
    else
      var r := Lookup(s[1..], name);
      assert s == [s[0]] + s[1..];
      r
  }

  /** Reference insertion: `k` placed before the first entry whose name sorts
      after its own. */
  ghost function SortedInsert(s: seq<Entry>, k: Entry): seq<Entry>
  {
    if |s| == 0 then [k]
    else if Less(k.name, s[0].name) then [k] + s
    else [s[0]] + SortedInsert(s[1..], k)
  }

  /** Sorted insertion adds exactly `k`: a permutation of `s` plus `k`. */
  lemma {:induction false} SortedInsertPermutes(s: seq<Entry>, k: Entry)
    ensures multiset(SortedInsert(s, k)) == multiset(s) + multiset{k}
    ensures |SortedInsert(s, k)| == |s| + 1
  {
    if |s| > 0 {
      assert s == [s[0]] + s[1..];
      if !Less(k.name, s[0].name) {
        SortedInsertPermutes(s[1..], k);
      }
    }
  }

  /** Reference removal: `s` without the entries named `name`. */
  ghost function Without(s: seq<Entry>, name: string): (r: seq<Entry>)
    ensures forall e :: e in r <==> e in s && e.name != name
  {
    if |s| == 0 then []
    else
      var rest := Without(s[1..], name);
      assert s == [s[0]] + s[1..];
      if s[0].name == name then rest else [s[0]] + rest
  }

  // ---- sorted sequences ----

  lemma SortedSplit(a: seq<Entry>, b: seq<Entry>)
    requires Sorted(a + b)
    ensures Sorted(a) && Sorted(b)
    ensures forall x, y :: x in a && y in b ==> Less(x.name, y.name)
  {
    forall i, j | 0 <= i < j < |a|
      ensures Less(a[i].name, a[j].name)
    {
      assert a[i] == (a + b)[i] && a[j] == (a + b)[j];
    }
    forall i, j | 0 <= i < j < |b|
      ensures Less(b[i].name, b[j].name)
    {
      assert b[i] == (a + b)[|a| + i] && b[j] == (a + b)[|a| + j];
    }
    forall x, y | x in a && y in b
      ensures Less(x.name, y.name)
    {
      var i :| 0 <= i < |a| && a[i] == x;
      var j :| 0 <= j < |b| && b[j] == y;
      assert x == (a + b)[i] && y == (a + b)[|a| + j];
    }
  }

  lemma SortedJoin(a: seq<Entry>, b: seq<Entry>)
    requires Sorted(a) && Sorted(b)
    requires forall x, y :: x in a && y in b ==> Less(x.name, y.name)
    ensures Sorted(a + b)
  {
    var s := a + b;
    forall i, j | 0 <= i < j < |s|
      ensures Less(s[i].name, s[j].name)
    {
      if j < |a| {
        assert s[i] == a[i] && s[j] == a[j];
      } else if i < |a| {
        assert s[i] == a[i] && s[j] == b[j - |a|];
      } else {
        assert s[i] == b[i - |a|] && s[j] == b[j - |a|];
      }
    }
  }

  /** Every entry of a sorted sequence is its last entry or sorts before it. */
  lemma SortedUpTo(s: seq<Entry>)
    requires Sorted(s) && |s| > 0
    ensures forall e :: e in s ==> e == s[|s|-1] || Less(e.name, s[|s|-1].name)
  {
  }

  /** If everything in `s` is at most `a` and `a` sorts before `b`, everything
      in `s` sorts before `b`. */
  lemma AllBelow(s: seq<Entry>, a: Entry, b: string)
    requires forall e :: e in s ==> e == a || Less(e.name, a.name)
    requires Less(a.name, b)
    ensures forall e :: e in s ==> Less(e.name, b)
  {
    forall e | e in s
      ensures Less(e.name, b)
    {
      if e != a {
        LessTransitive(e.name, a.name, b);
      }
    }
  }

  /** If everything in `s` is at least `a` and `b` sorts before `a`, everything
      in `s` sorts after `b`. */
  lemma AllAbove(s: seq<Entry>, a: Entry, b: string)
    requires forall e :: e in s ==> e == a || Less(a.name, e.name)
    requires Less(b, a.name)
    ensures forall e :: e in s ==> Less(b, e.name)
  {
    forall e | e in s
      ensures Less(b, e.name)
    {
      if e != a {
        LessTransitive(b, a.name, e.name);
      }
    }
  }

  lemma NameSetAppend(a: seq<Entry>, b: seq<Entry>)
    ensures NameSet(a + b) == NameSet(a) + NameSet(b)
  {
  }

  // ---- lookup ----

  lemma {:induction false} LookupAppend(a: seq<Entry>, b: seq<Entry>, name: string)
    ensures Lookup(a + b, name) == if name in NameSet(a) then Lookup(a, name) else Lookup(b, name)
  {
    if |a| > 0 {
      assert (a + b)[1..] == a[1..] + b;
      assert a == [a[0]] + a[1..];
      LookupAppend(a[1..], b, name);
    } else {
      assert a + b == b;
    }
  }

  /** Lookup in a middle segment is unaffected by surroundings free of the name. */
  lemma LookupMiddle(a: seq<Entry>, m: seq<Entry>, b: seq<Entry>, name: string)
    requires name !in NameSet(a) && name !in NameSet(b)
    ensures Lookup(a + m + b, name) == Lookup(m, name)
  {
    LookupAppend(a + m, b, name);
    LookupAppend(a, m, name);
    NameSetAppend(a, m);
  }

  // ---- sorted insertion ----

  lemma {:induction false} SortedInsertLeft(a: seq<Entry>, m: seq<Entry>, k: Entry)
    requires forall e :: e in a ==> Less(e.name, k.name)
    ensures SortedInsert(a + m, k) == a + SortedInsert(m, k)
  {
    if |a| > 0 {
      assert (a + m)[0] == a[0] && (a + m)[1..] == a[1..] + m;
      LessTotal(k.name, a[0].name);
      assert !Less(k.name, a[0].name);
      SortedInsertLeft(a[1..], m, k);
      calc {
        SortedInsert(a + m, k);
        [a[0]] + SortedInsert(a[1..] + m, k);
        [a[0]] + (a[1..] + SortedInsert(m, k));
        { assert a == [a[0]] + a[1..]; }
        a + SortedInsert(m, k);
      }
    } else {
      assert a + m == m;
    }
  }

  lemma {:induction false} SortedInsertRight(m: seq<Entry>, b: seq<Entry>, k: Entry)
    requires |b| == 0 || Less(k.name, b[0].name)
    ensures SortedInsert(m + b, k) == SortedInsert(m, k) + b
  {
    if |m| > 0 {
      assert (m + b)[0] == m[0] && (m + b)[1..] == m[1..] + b;
      SortedInsertRight(m[1..], b, k);
      if Less(k.name, m[0].name) {
        assert m + b == [m[0]] + (m[1..] + b);
      } else {
        calc {
          SortedInsert(m + b, k);
          [m[0]] + SortedInsert(m[1..] + b, k);
          [m[0]] + (SortedInsert(m[1..], k) + b);
        }
      }
    } else {
      assert m + b == b;
      if |b| > 0 {
        assert b == [b[0]] + b[1..];
      }
    }
  }

  /** In a sorted sequence an entry is determined by its name. */
  lemma UniqueName(s: seq<Entry>, e1: Entry, e2: Entry)
    requires Sorted(s) && e1 in s && e2 in s && e1.name == e2.name
    ensures e1 == e2
  {
    var i :| 0 <= i < |s| && s[i] == e1;
    var j :| 0 <= j < |s| && s[j] == e2;
    LessIrreflexive(e1.name);
  }

  /** Sorted insertion between a lower and an upper part. */
  lemma SortedInsertBetween(a: seq<Entry>, m: seq<Entry>, b: seq<Entry>, k: Entry)
    requires forall e :: e in a ==> Less(e.name, k.name)
    requires forall e :: e in b ==> Less(k.name, e.name)
    ensures SortedInsert(a + m + b, k) == a + SortedInsert(m, k) + b
  {
    assert a + m + b == a + (m + b);
    SortedInsertLeft(a, m + b, k);
    if |b| > 0 {
      assert b[0] in b;
    }
    SortedInsertRight(m, b, k);
  }

  /** Inserting a fresh name into a sorted sequence keeps it sorted. */
  lemma {:induction false} SortedInsertSorted(s: seq<Entry>, k: Entry)
    requires Sorted(s) && k.name !in NameSet(s)
    ensures Sorted(SortedInsert(s, k))
  {
    if |s| == 0 {
    } else if Less(k.name, s[0].name) {
      assert s == [s[0]] + s[1..];
      forall e | e in s
        ensures Less(k.name, e.name)
      {
        if e != s[0] {
          LessTransitive(k.name, s[0].name, e.name);
        }
      }
      SortedJoin([k], s);
    } else {
      assert s == [s[0]] + s[1..];
      SortedSplit([s[0]], s[1..]);
      SortedInsertSorted(s[1..], k);
      LessTotal(k.name, s[0].name);
      assert Less(s[0].name, k.name);
      forall e | e in SortedInsert(s[1..], k)
        ensures Less(s[0].name, e.name)
      {
        SortedInsertPermutes(s[1..], k);
        assert e in multiset(SortedInsert(s[1..], k));
      }
      SortedJoin([s[0]], SortedInsert(s[1..], k));
    }
  }

  /** Looking up after a sorted insertion of a fresh entry finds that entry
      under its name and what was there before under every other name. */
  lemma {:induction false} LookupSortedInsert(s: seq<Entry>, k: Entry, name: string)
    requires k.name !in NameSet(s)
    ensures Lookup(SortedInsert(s, k), name) == if name == k.name then Some(k) else Lookup(s, name)
  {
    if |s| > 0 && !Less(k.name, s[0].name) {
      assert s == [s[0]] + s[1..];
      LookupSortedInsert(s[1..], k, name);
    } else if |s| > 0 {
      assert ([k] + s)[1..] == s;
    }
  }

  // ---- removal by name ----

  lemma {:induction false} WithoutAppend(a: seq<Entry>, b: seq<Entry>, name: string)
    ensures Without(a + b, name) == Without(a, name) + Without(b, name)
  {
    if |a| > 0 {
      assert (a + b)[0] == a[0] && (a + b)[1..] == a[1..] + b;
      WithoutAppend(a[1..], b, name);
    } else {
      assert a + b == b;
    }
  }

  lemma {:induction false} WithoutAbsent(s: seq<Entry>, name: string)
    requires name !in NameSet(s)
    ensures Without(s, name) == s
  {
    if |s| > 0 {
      assert s == [s[0]] + s[1..];
      WithoutAbsent(s[1..], name);
    }
  }

  /** Removing the entry at a position whose name occurs nowhere else is
      removal by name. */
  lemma WithoutAt(s: seq<Entry>, i: nat, name: string)
    requires i < |s| && s[i].name == name
    requires name !in NameSet(s[..i]) && name !in NameSet(s[i+1..])
    ensures Without(s, name) == s[..i] + s[i+1..]
  {
    assert s == s[..i] + [s[i]] + s[i+1..];
    WithoutAppend(s[..i] + [s[i]], s[i+1..], name);
    WithoutAppend(s[..i], [s[i]], name);
    WithoutAbsent(s[..i], name);
    WithoutAbsent(s[i+1..], name);
  }

  /** Dropping one position of a sorted sequence keeps it sorted. */
  lemma SortedRemoveAt(s: seq<Entry>, i: nat)
    requires Sorted(s) && i < |s|
    ensures Sorted(s[..i] + s[i+1..])
  {
    var r := s[..i] + s[i+1..];
    forall p, q | 0 <= p < q < |r|
      ensures Less(r[p].name, r[q].name)
    {
      var p' := if p < i then p else p + 1;
      var q' := if q < i then q else q + 1;
      assert r[p] == s[p'] && r[q] == s[q'];
    }
  }

  /** In a sorted sequence, the name at position i occurs nowhere else. */
  lemma SortedUnique(s: seq<Entry>, i: nat)
    requires Sorted(s) && i < |s|
    ensures s[i].name !in NameSet(s[..i]) && s[i].name !in NameSet(s[i+1..])
  {
    forall e | e in s[..i] ensures e.name != s[i].name {
      var j :| 0 <= j < i && s[..i][j] == e;
      assert s[j] == e;
    }
    forall e | e in s[i+1..] ensures e.name != s[i].name {
      var j :| 0 <= j < |s| - i - 1 && s[i+1..][j] == e;
      assert s[i+1+j] == e;
    }
  }

  /** Removing the name from a sorted sequence that holds it drops exactly one
      entry and keeps the rest sorted. */
  lemma WithoutSorted(s: seq<Entry>, name: string)
    requires Sorted(s)
    ensures Sorted(Without(s, name))
    ensures name in NameSet(s) ==> |Without(s, name)| == |s| - 1
    ensures name !in NameSet(s) ==> Without(s, name) == s
  {
    if name in NameSet(s) {
      var i :| 0 <= i < |s| && s[i].name == name;
      SortedUnique(s, i);
      WithoutAt(s, i, name);
      SortedRemoveAt(s, i);
    } else {
      WithoutAbsent(s, name);
    }
  }

  /** Every entry of a sorted sequence is its first entry or sorts after it. */
  lemma SortedFrom(s: seq<Entry>)
    requires Sorted(s) && |s| > 0
    ensures forall e :: e in s ==> e == s[0] || Less(s[0].name, e.name)
  {
  }

  // ---- the search-tree invariant, node by node ----

  /** Every subtree of a well-formed node is well-formed, and its entries are
      entries of the node. */
  lemma ChildWF(x: Node, i: nat)
    requires WF(x) && !x.leaf && i < |x.children|
    ensures WF(x.children[i])
    ensures forall e :: e in Content(x.children[i]) ==> e in Content(x)
  {
    assert ChildrenShaped(x);
    ContentAround(x, i);
    var m := Content(x.children[i]);
    assert Pre(x, i) + m + Post(x, i) == Pre(x, i) + (m + Post(x, i));
    SortedSplit(Pre(x, i), m + Post(x, i));
    SortedSplit(m, Post(x, i));
  }

  /** The keys of a node are entries of its content. */
  lemma KeysInContent(x: Node)
    requires Shaped(x)
    ensures forall j :: 0 <= j < |x.keys| ==> x.keys[j] in Content(x)
  {
    if !x.leaf {
      WalkHasKeys(x.keys, x.children);
    }
  }

  /** The keys of a well-formed node are sorted. */
  lemma KeysSorted(x: Node)
    requires WF(x)
    ensures Sorted(x.keys)
  {
    if !x.leaf {
      forall a, b | 0 <= a < b < |x.keys|
        ensures Less(x.keys[a].name, x.keys[b].name)
      {
        ContentAround(x, b);
        var m := Content(x.children[b]);
        WalkHasKeys(x.keys[..b], x.children[..b]);
        assert x.keys[..b][a] == x.keys[a];
        assert x.keys[b] in Post(x, b);
        SortedSplit(Pre(x, b) + m, Post(x, b));
      }
    }
  }

  /** Everything in child i sorts strictly between keys i-1 and i. */
  lemma ChildNeighbors(x: Node, i: nat)
    requires WF(x) && !x.leaf && i < |x.children|
    ensures forall e :: e in Content(x.children[i]) ==>
      (0 < i ==> Less(x.keys[i-1].name, e.name)) &&
      (i < |x.keys| ==> Less(e.name, x.keys[i].name))
  {
    ContentAround(x, i);
    var m := Content(x.children[i]);
    if 0 < i {
      PreLast(x, i);
      assert x.keys[i-1] in Pre(x, i);
      assert Pre(x, i) + m + Post(x, i) == Pre(x, i) + (m + Post(x, i));
      SortedSplit(Pre(x, i), m + Post(x, i));
    }
    if i < |x.keys| {
      assert x.keys[i] in Post(x, i);
      SortedSplit(Pre(x, i) + m, Post(x, i));
    }
  }

  /** A name sorting strictly between the neighbours of child i is above all
      of the content before that child and below all of the content after it. */
  lemma Separated(x: Node, i: nat, name: string)
    requires WF(x) && !x.leaf && i < |x.children|
    requires 0 < i ==> Less(x.keys[i-1].name, name)
    requires i < |x.keys| ==> Less(name, x.keys[i].name)
    ensures forall e :: e in Pre(x, i) ==> Less(e.name, name)
    ensures forall e :: e in Post(x, i) ==> Less(name, e.name)
    ensures name !in NameSet(Pre(x, i)) && name !in NameSet(Post(x, i))
  {
    ContentAround(x, i);
    var m := Content(x.children[i]);
    assert Pre(x, i) + m + Post(x, i) == Pre(x, i) + (m + Post(x, i));
    SortedSplit(Pre(x, i), m + Post(x, i));
    SortedSplit(m, Post(x, i));
    if 0 < i {
      PreLast(x, i);
      SortedUpTo(Pre(x, i));
      AllBelow(Pre(x, i), x.keys[i-1], name);
    }
    if i < |x.keys| {
      SortedFrom(Post(x, i));
      AllAbove(Post(x, i), x.keys[i], name);
    }
  }

  /** Key i sorts after everything before it in the in-order content. */
  lemma BelowKey(x: Node, i: nat)
    requires WF(x) && !x.leaf && i < |x.keys|
    ensures forall e :: e in Pre(x, i) + Content(x.children[i]) ==> Less(e.name, x.keys[i].name)
  {
    ContentAround(x, i);
    assert x.keys[i] in Post(x, i);
    SortedSplit(Pre(x, i) + Content(x.children[i]), Post(x, i));
  }
}
