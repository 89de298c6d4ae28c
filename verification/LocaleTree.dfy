/** Nested locale dictionaries, addressed by lists of keys.

    A tree is a dictionary or a leaf; dictionaries compare without regard to insertion
    order, as Python's do. */
module LocaleTree {
  import opened Wrappers

  /** The JSON values that are not dictionaries; numbers, booleans and lists are opaque. */
  datatype Value = Text(s: string) | Null | Opaque(id: int)

  datatype Tree = Leaf(v: Value) | Node(kids: map<string, Tree>)

  type Path = seq<string>

  const EMPTY := Node(map[])

  /** What the path leads to, if it leads anywhere. */
  function Get(t: Tree, p: Path): Option<Tree> {
    if p == [] then Some(t)
    else if t.Node? && p[0] in t.kids then Get(t.kids[p[0]], p[1..])
    else None
  }

  predicate LeafAt(t: Tree, p: Path, v: Value) {
    Get(t, p) == Some(Leaf(v))
  }

  /** Store a value at a path, replacing whatever blocks the way by dictionaries. */
  function Set(t: Tree, p: Path, v: Value): (r: Tree)
    requires t.Node? && p != []
    ensures r.Node?
    decreases p
  {
    if |p| == 1 then Node(t.kids[p[0] := Leaf(v)])
    else
      var child := if p[0] in t.kids && t.kids[p[0]].Node? then t.kids[p[0]] else EMPTY;
      Node(t.kids[p[0] := Set(child, p[1..], v)])
  }

  /** One path is a prefix of the other, or they are equal. */
  predicate Comparable(p: Path, q: Path) {
    p <= q || q <= p
  }

  lemma ComparableTail(p: Path, q: Path)
    requires p != [] && q != []
    ensures Comparable(p, q) <==> p[0] == q[0] && Comparable(p[1..], q[1..])
  {
    assert p == [p[0]] + p[1..];
    assert q == [q[0]] + q[1..];
  }

  // ----- what a store changes -----

  /** A store is found where it was made, and a path that is neither above nor below
      leads where it led before. */
  lemma {:induction false} GetAfterSet(t: Tree, p: Path, v: Value, q: Path)
    requires t.Node? && p != []
    ensures p == q ==> Get(Set(t, p, v), q) == Some(Leaf(v))
    ensures !Comparable(p, q) ==> Get(Set(t, p, v), q) == Get(t, q)
    decreases p
  {
    if q != [] {
      ComparableTail(p, q);
      if |p| > 1 {
        var child := if p[0] in t.kids && t.kids[p[0]].Node? then t.kids[p[0]] else EMPTY;
        GetAfterSet(child, p[1..], v, q[1..]);
        if p[0] == q[0] && !Comparable(p, q) {
          BlockedPath(t, p, q);
        }
      }
    }
  }

  lemma BlockedPath(t: Tree, p: Path, q: Path)
    requires t.Node? && |p| > 1 && q != [] && p[0] == q[0] && !Comparable(p, q)
    ensures !(p[0] in t.kids && t.kids[p[0]].Node?) ==> Get(t, q) == None && Get(EMPTY, q[1..]) == None
  {
    ComparableTail(p, q);
  }

  /** A store leaves a leaf at its own path and destroys exactly the other leaves that
      lie above or below it. */
  lemma LeavesAfterSet(t: Tree, p: Path, v: Value, q: Path, w: Value)
    requires t.Node? && p != []
    ensures LeafAt(Set(t, p, v), q, w) <==> (q == p && w == v) || (LeafAt(t, q, w) && !Comparable(p, q))
    decreases p
  {
    GetAfterSet(t, p, v, q);
    if p != q && Comparable(p, q) {
      if q <= p {
        NodesAboveSet(t, p, v, q);
      } else {
        assert Get(Set(t, p, v), p) == Some(Leaf(v)) by { GetAfterSet(t, p, v, p); }
        NothingBelowLeaf(Set(t, p, v), p, q);
      }
    }
  }

  lemma {:induction false} NodesAboveSet(t: Tree, p: Path, v: Value, q: Path)
    requires t.Node? && p != [] && q < p
    ensures Get(Set(t, p, v), q).Some? && Get(Set(t, p, v), q).value.Node?
    decreases p
  {
    if q != [] {
      ComparableTail(p, q);
      var child := if p[0] in t.kids && t.kids[p[0]].Node? then t.kids[p[0]] else EMPTY;
      NodesAboveSet(child, p[1..], v, q[1..]);
    }
  }

  lemma {:induction false} NothingBelowLeaf(t: Tree, p: Path, q: Path)
    requires p < q && Get(t, p).Some? && Get(t, p).value.Leaf?
    ensures Get(t, q) == None
    decreases p
  {
    if p != [] {
      ComparableTail(p, q);
      NothingBelowLeaf(t.kids[p[0]], p[1..], q[1..]);
    }
  }

  /** The leaf paths of one tree are prefix-free. */
  lemma LeavesArePrefixFree(t: Tree, p: Path, v: Value, q: Path, w: Value)
    requires LeafAt(t, p, v) && LeafAt(t, q, w) && p != q
    ensures !Comparable(p, q)
  {
    if p <= q { NothingBelowLeaf(t, p, q); }
    if q <= p { NothingBelowLeaf(t, q, p); }
  }

  // ----- trees without empty branches -----

  predicate HasLeaf(t: Tree) {
    t.Leaf? || exists k :: k in t.kids && HasLeaf(t.kids[k])
  }

  /** The tree without the dictionaries that hold no leaf. */
  function Prune(t: Tree): Tree {
    if t.Leaf? then t else Node(map k | k in t.kids && HasLeaf(t.kids[k]) :: Prune(t.kids[k]))
  }

  /** Below the root, no dictionary is empty. */
  predicate NoEmptyBranch(t: Tree) {
    t.Leaf? || forall k :: k in t.kids ==> t.kids[k] != EMPTY && NoEmptyBranch(t.kids[k])
  }

  lemma {:induction false} SetKeepsNoEmptyBranch(t: Tree, p: Path, v: Value)
    requires t.Node? && p != [] && NoEmptyBranch(t)
    ensures NoEmptyBranch(Set(t, p, v)) && Set(t, p, v) != EMPTY
    decreases p
  {
    var r := Set(t, p, v);
    assert p[0] in r.kids;
    if |p| > 1 {
      var child := if p[0] in t.kids && t.kids[p[0]].Node? then t.kids[p[0]] else EMPTY;
      SetKeepsNoEmptyBranch(child, p[1..], v);
    }
  }

  lemma {:induction false} LeafExists(t: Tree) returns (p: Path, v: Value)
    requires NoEmptyBranch(t) && t != EMPTY
    ensures LeafAt(t, p, v)
    decreases t
  {
    if t.Leaf? {
      p, v := [], t.v;
    } else {
      var k :| k in t.kids;
      p, v := LeafExists(t.kids[k]);
      p := [k] + p;
    }
  }

  lemma {:induction false} HasLeafMeansLeaf(t: Tree, p: Path, v: Value)
    requires LeafAt(t, p, v)
    ensures HasLeaf(t)
    decreases p
  {
    if p != [] {
      HasLeafMeansLeaf(t.kids[p[0]], p[1..], v);
    }
  }

  lemma {:induction false} PruneHasNoEmptyBranch(t: Tree)
    ensures NoEmptyBranch(Prune(t))
    ensures HasLeaf(t) ==> Prune(t) != EMPTY
    decreases t
  {
    if t.Node? {
      forall k | k in t.kids && HasLeaf(t.kids[k])
        ensures Prune(t.kids[k]) != EMPTY && NoEmptyBranch(Prune(t.kids[k]))
      {
        PruneHasNoEmptyBranch(t.kids[k]);
      }
      if HasLeaf(t) {
        var k :| k in t.kids && HasLeaf(t.kids[k]);
        assert k in Prune(t).kids;
      }
    }
  }

  lemma {:induction false} PruneKeepsLeaves(t: Tree, p: Path, v: Value)
    ensures LeafAt(Prune(t), p, v) <==> LeafAt(t, p, v)
    decreases p
  {
    if p != [] && t.Node? && p[0] in t.kids {
      PruneKeepsLeaves(t.kids[p[0]], p[1..], v);
      if LeafAt(t, p, v) {
        HasLeafMeansLeaf(t.kids[p[0]], p[1..], v);
      }
    }
  }

  ghost predicate SameLeaves(t: Tree, u: Tree) {
    forall p, v :: LeafAt(t, p, v) <==> LeafAt(u, p, v)
  }

  /** A tree without empty branches is determined by its leaves. */
  lemma {:induction false} LeavesDetermine(t: Tree, u: Tree)
    requires NoEmptyBranch(t) && NoEmptyBranch(u) && SameLeaves(t, u)
    requires t.Node? <==> u.Node?
    ensures t == u
    decreases t
  {
    if t.Leaf? {
      assert LeafAt(t, [], t.v);
    } else {
      KeysFromLeaves(t, u);
      KeysFromLeaves(u, t);
      forall k | k in t.kids ensures t.kids[k] == u.kids[k] {
        KidsHaveSameLeaves(t, u, k);
        SameKind(t.kids[k], u.kids[k]);
        LeavesDetermine(t.kids[k], u.kids[k]);
      }
    }
  }

  lemma KeysFromLeaves(t: Tree, u: Tree)
    requires t.Node? && u.Node? && NoEmptyBranch(t) && SameLeaves(t, u)
    ensures t.kids.Keys <= u.kids.Keys
  {
    forall k | k in t.kids ensures k in u.kids {
      var p, v := LeafExists(t.kids[k]);
      assert LeafAt(t, [k] + p, v);
      assert LeafAt(u, [k] + p, v);
    }
  }

  lemma KidsHaveSameLeaves(t: Tree, u: Tree, k: string)
    requires t.Node? && u.Node? && SameLeaves(t, u) && k in t.kids && k in u.kids
    ensures SameLeaves(t.kids[k], u.kids[k])
  {
    forall p, v ensures LeafAt(t.kids[k], p, v) <==> LeafAt(u.kids[k], p, v) {
      assert ([k] + p)[1..] == p;
      assert LeafAt(t, [k] + p, v) <==> LeafAt(u, [k] + p, v);
    }
  }

  lemma SameKind(t: Tree, u: Tree)
    requires SameLeaves(t, u)
    ensures t.Node? <==> u.Node?
  {
    if t.Leaf? { assert LeafAt(t, [], t.v) && LeafAt(u, [], t.v); }
    if u.Leaf? { assert LeafAt(u, [], u.v) && LeafAt(t, [], u.v); }
  }
}
