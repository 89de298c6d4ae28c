/** Nested dictionaries as mutable objects, and the in-place `setp`.

    `Rep(m, t)` says that the objects of m spell out the tree t, where m gives the object
    at each path that leads to a dictionary. */
module LocaleDict {
  import opened Wrappers
  import opened LocaleTree
  import opened LocalePaths

  datatype Slot = Val(v: Value) | Sub(d: Dict)

  class Dict {
    var kids: map<string, Slot>

    constructor ()
      ensures kids == map[]
    {
      kids := map[];
    }
  }

  type Objects = map<Path, Dict>

  predicate IsNode(t: Tree, q: Path) {
    Get(t, q).Some? && Get(t, q).value.Node?
  }

  /** What key k of the object at q holds agrees with the tree. */
  ghost predicate SlotRep(m: Objects, t: Tree, q: Path, k: string, slot: Slot)
    requires IsNode(t, q) && k in Get(t, q).value.kids
  {
    if slot.Val? then Get(t, q).value.kids[k] == Leaf(slot.v)
    else q + [k] in m && m[q + [k]] == slot.d
  }

  ghost predicate ObjectRep(m: Objects, t: Tree, q: Path)
    requires q in m && IsNode(t, q)
    reads m[q]
  {
    && m[q].kids.Keys == Get(t, q).value.kids.Keys
    && forall k :: k in m[q].kids ==> SlotRep(m, t, q, k, m[q].kids[k])
  }

  /** No object appears at two paths, objects stand exactly where the tree has
      dictionaries, and each agrees with its dictionary key by key. */
  ghost predicate Rep(m: Objects, t: Tree)
    reads m.Values
  {
    && (forall p, q :: p in m && q in m && m[p] == m[q] ==> p == q)
    && (forall q :: q in m <==> IsNode(t, q))
    && (forall q :: q in m ==> ObjectRep(m, t, q))
  }

  // ----- replacing one entry of a dictionary inside a tree -----

  function Put(t: Tree, q: Path, k: string, u: Tree): (r: Tree)
    requires IsNode(t, q)
    ensures r.Node?
    decreases q
  {
    if q == [] then Node(t.kids[k := u])
    else Node(t.kids[q[0] := Put(t.kids[q[0]], q[1..], k, u)])
  }

  predicate At(q: Path, k: string, p: Path) {
    q + [k] <= p
  }

  lemma TailAt(q: Path, k: string, p: Path)
    requires q != [] && p != []
    ensures At(q, k, p) <==> p[0] == q[0] && At(q[1..], k, p[1..])
  {
    ComparableTail(q + [k], p);
    assert (q + [k])[1..] == q[1..] + [k];
    if At(q, k, p) { assert (q + [k])[1..] == p[..|q| + 1][1..]; }
    if p[0] == q[0] && At(q[1..], k, p[1..]) {
      assert p == [p[0]] + p[1..];
      assert q + [k] == [q[0]] + (q[1..] + [k]);
    }
  }

  /** Below the entry, a path leads into what was put there; elsewhere it leads where it
      led, except that the dictionary itself has the one new entry. */
  lemma {:induction false} GetAfterPut(t: Tree, q: Path, k: string, u: Tree, p: Path)
    requires IsNode(t, q)
    ensures At(q, k, p) ==> Get(Put(t, q, k, u), p) == Get(u, p[|q| + 1..])
    ensures !At(q, k, p) ==> (IsNode(Put(t, q, k, u), p) <==> IsNode(t, p))
    ensures p == q ==> Get(Put(t, q, k, u), p) == Some(Node(Get(t, q).value.kids[k := u]))
    ensures !At(q, k, p) && p != q && IsNode(t, p) ==>
        Get(Put(t, q, k, u), p).value.kids.Keys == Get(t, p).value.kids.Keys
    ensures !At(q, k, p) && p != q && IsNode(t, p) ==> forall j, w ::
              j in Get(t, p).value.kids && Get(t, p).value.kids[j] == Leaf(w) ==>
                  Get(Put(t, q, k, u), p).value.kids[j] == Leaf(w)
    decreases q
  {
    if p != [] && q != [] {
      TailAt(q, k, p);
      if p[0] == q[0] {
        GetAfterPut(t.kids[q[0]], q[1..], k, u, p[1..]);
        assert At(q, k, p) ==> p[1..][|q|..] == p[|q| + 1..];
      }
    } else if q == [] && p != [] {
      assert At(q, k, p) <==> p[0] == k;
    } else if q != [] {
      assert IsNode(t.kids[q[0]], q[1..]);
      assert t.kids[q[0]].Node?;
    }
  }

  /** Storing at the end of an existing path replaces one entry. */
  lemma {:induction false} SetIsPut(t: Tree, q: Path, k: string, v: Value)
    requires IsNode(t, q)
    ensures Set(t, q + [k], v) == Put(t, q, k, Leaf(v))
    decreases q
  {
    if q != [] {
      assert (q + [k])[1..] == q[1..] + [k];
      SetIsPut(t.kids[q[0]], q[1..], k, v);
    }
  }

  /** Making room for a path early does not change what is stored at its end. */
  lemma {:induction false} SetMakesRoom(t: Tree, q: Path, k: string, p: Path, v: Value)
    requires IsNode(t, q) && q + [k] < p && !IsNode(t, q + [k])
    ensures Set(Put(t, q, k, EMPTY), p, v) == Set(t, p, v)
    decreases q
  {
    var head, r := p[0], Put(t, q, k, EMPTY);
    if q == [] {
      assert head == k && |p| > 1;
      assert k in t.kids ==> Get(t, [k]) == Some(t.kids[k]) by {
        GetNext(t, [], k);
      }
      var stored := Set(EMPTY, p[1..], v);
      assert Set(t, p, v) == Node(t.kids[k := stored]);
      assert Set(r, p, v) == Node(t.kids[k := EMPTY][k := stored]);
      assert t.kids[k := EMPTY][k := stored] == t.kids[k := stored];
    } else {
      TailAt(q, k, p);
      assert head == q[0];
      assert (q + [k])[1..] == q[1..] + [k];
      var child := t.kids[head];
      assert IsNode(child, q[1..]) && child.Node?;
      SetMakesRoom(child, q[1..], k, p[1..], v);
      var roomy, stored := Put(child, q[1..], k, EMPTY), Set(child, p[1..], v);
      assert Set(t, p, v) == Node(t.kids[head := stored]);
      assert Set(r, p, v) == Node(t.kids[head := roomy][head := stored]);
      assert t.kids[head := roomy][head := stored] == t.kids[head := stored];
    }
  }

  // ----- one write to one object -----

  /** The objects in use after the entry k of the dictionary at q was overwritten. */
  ghost function Rewired(m: Objects, q: Path, k: string, slot: Slot): Objects {
    var kept := map p | p in m && !At(q, k, p) :: m[p];
    if slot.Sub? then kept[q + [k] := slot.d] else kept
  }

  ghost function SlotTree(slot: Slot): Tree {
    if slot.Val? then Leaf(slot.v) else EMPTY
  }

  lemma NextKey(q: Path, k: string, p: Path, j: string)
    ensures At(q, k, p + [j]) ==> At(q, k, p) || (p == q && j == k)
  {
    if At(q, k, p + [j]) {
      if |q| < |p| {
        assert q + [k] == (p + [j])[..|q| + 1] == p[..|q| + 1];
      } else {
        assert (q + [k])[..|q|] == (p + [j])[..|q|] && (q + [k])[|q|] == (p + [j])[|q|];
      }
    }
  }

  /** Overwriting one entry in place. */
  method Overwrite(cur: Dict, k: string, slot: Slot, ghost m: Objects, ghost t: Tree, ghost q: Path)
    requires Rep(m, t) && q in m && m[q] == cur
    requires slot.Sub? ==> slot.d !in m.Values && slot.d.kids == map[]
    modifies cur
    ensures cur.kids == old(cur.kids)[k := slot]
    ensures Rep(Rewired(m, q, k, slot), Put(t, q, k, SlotTree(slot)))
  {
    cur.kids := cur.kids[k := slot];
    ghost var m2, t2, u := Rewired(m, q, k, slot), Put(t, q, k, SlotTree(slot)), SlotTree(slot);
    forall p ensures p in m2 <==> IsNode(t2, p) {
      GetAfterPut(t, q, k, u, p);
      if At(q, k, p) {
        var rest := p[|q| + 1..];
        assert p == q + [k] + rest;
        assert IsNode(t2, p) <==> slot.Sub? && rest == [] by {
          assert Get(t2, p) == Get(u, rest);
          assert rest == [] ==> Get(u, rest) == Some(u);
        }
        assert rest == [] <==> p == q + [k];
      }
    }
    forall p | p in m2 ensures ObjectRep(m2, t2, p) {
      GetAfterPut(t, q, k, u, p);
      if !At(q, k, p) {
        assert m2[p].kids == if p == q then old(m[p].kids)[k := slot] else old(m[p].kids);
        forall j | j in m2[p].kids && (p != q || j != k) ensures SlotRep(m2, t2, p, j, m2[p].kids[j]) {
          NextKey(q, k, p, j);
        }
      }
    }
  }

  /** An entry that is missing or holds a value leads to no dictionary. */
  lemma EntryIsNoNode(m: Objects, t: Tree, q: Path, k: string)
    requires Rep(m, t) && q in m && (k !in m[q].kids || m[q].kids[k].Val?)
    ensures !IsNode(t, q + [k])
  {
    GetNext(t, q, k);
  }

  lemma {:induction false} GetNext(t: Tree, q: Path, k: string)
    requires IsNode(t, q)
    ensures Get(t, q + [k]) == if k in Get(t, q).value.kids then Some(Get(t, q).value.kids[k]) else None
    decreases q
  {
    if q != [] {
      assert (q + [k])[1..] == q[1..] + [k];
      GetNext(t.kids[q[0]], q[1..], k);
    }
  }

  lemma SubEntry(m: Objects, t: Tree, q: Path, k: string)
    requires Rep(m, t) && q in m && k in m[q].kids && m[q].kids[k].Sub?
    ensures q + [k] in m && m[q + [k]] == m[q].kids[k].d && IsNode(t, q + [k])
  {
    assert ObjectRep(m, t, q);
    assert SlotRep(m, t, q, k, m[q].kids[k]);
  }

  lemma RewiredRoot(m: Objects, t: Tree, q: Path, k: string, slot: Slot)
    requires Rep(m, t) && q in m
    ensures [] in m && [] in Rewired(m, q, k, slot) && Rewired(m, q, k, slot)[[]] == m[[]]
  {
    RootIsAnObject(m, t, q);
  }

  /** One round of setp's loop: move into the dictionary at key k, making it first if
      nothing or a value is there. */
  method Enter(cur: Dict, k: string, ghost m: Objects, ghost t: Tree, ghost q: Path)
    returns (next: Dict, ghost m2: Objects, ghost t2: Tree)
    requires Rep(m, t) && q in m && m[q] == cur
    modifies cur
    ensures Rep(m2, t2) && q + [k] in m2 && m2[q + [k]] == next
    ensures t2 == if IsNode(t, q + [k]) then t else Put(t, q, k, EMPTY)
    ensures [] in m2 && [] in m && m2[[]] == m[[]]
    ensures fresh(m2.Values - m.Values)
  {
    if k in cur.kids && cur.kids[k].Sub? {
      SubEntry(m, t, q, k);
      RootIsAnObject(m, t, q);
      next, m2, t2 := cur.kids[k].d, m, t;
    } else {
      EntryIsNoNode(m, t, q, k);
      next := new Dict();
      RewiredRoot(m, t, q, k, Sub(next));
      Overwrite(cur, k, Sub(next), m, t, q);
      m2, t2 := Rewired(m, q, k, Sub(next)), Put(t, q, k, EMPTY);
    }
  }

  lemma RootIsAnObject(m: Objects, t: Tree, q: Path)
    requires Rep(m, t) && q in m
    ensures [] in m
  {
    assert IsNode(t, q);
    assert t.Node?;
    assert IsNode(t, []);
  }

  lemma EnteringKeepsTheGoal(u: Tree, parts: Path, i: nat, value: Value)
    requires i + 1 < |parts| && IsNode(u, parts[..i]) && u.Node?
    ensures
      var q := parts[..i] + [parts[i]];
      var next := if IsNode(u, q) then u else Put(u, parts[..i], parts[i], EMPTY);
      next.Node? && Set(next, parts, value) == Set(u, parts, value)
  {
    assert parts[..i + 1] == parts[..i] + [parts[i]];
    if !IsNode(u, parts[..i + 1]) {
      SetMakesRoom(u, parts[..i], parts[i], parts, value);
    }
  }

  /** setp's last statement: cur[key] = value. */
  method Store(cur: Dict, k: string, value: Value, ghost m: Objects, ghost t: Tree, ghost q: Path)
    returns (ghost m2: Objects)
    requires Rep(m, t) && q in m && m[q] == cur && t.Node?
    modifies cur
    ensures Rep(m2, Set(t, q + [k], value))
    ensures [] in m2 && [] in m && m2[[]] == m[[]] && m2.Values <= m.Values
  {
    SetIsPut(t, q, k, value);
    RewiredRoot(m, t, q, k, Val(value));
    Overwrite(cur, k, Val(value), m, t, q);
    m2 := Rewired(m, q, k, Val(value));
  }

  /** setp stands at cur, the dictionary at the first i parts of the path, and storing the
      value at the whole path still gives the tree aimed at. */
  ghost predicate Following(root: Dict, cur: Dict, parts: Path, i: nat, value: Value, m: Objects, u: Tree, goal: Tree)
    reads m.Values
  {
    && i < |parts| && Rep(m, u) && [] in m && m[[]] == root
    && parts[..i] in m && m[parts[..i]] == cur
    && u.Node? && Set(u, parts, value) == goal
  }

  /** One round of the loop. */
  method Follow(root: Dict, cur: Dict, parts: Path, i: nat, value: Value, ghost m: Objects, ghost u: Tree,
          ghost goal: Tree)
    returns (next: Dict, ghost m2: Objects, ghost u2: Tree)
    requires i + 1 < |parts| && Following(root, cur, parts, i, value, m, u, goal)
    modifies cur
    ensures Following(root, next, parts, i + 1, value, m2, u2, goal)
    ensures fresh(m2.Values - m.Values)
  {
    assert parts[..i + 1] == parts[..i] + [parts[i]];
    EnteringKeepsTheGoal(u, parts, i, value);
    next, m2, u2 := Enter(cur, parts[i], m, u, parts[..i]);
  }

  /** The loop: follow the path from the root to the dictionary of its last part, making
      dictionaries where they are missing. */
  method FollowAll(root: Dict, parts: Path, value: Value, ghost m: Objects, ghost t: Tree)
    returns (cur: Dict, ghost m2: Objects, ghost u: Tree)
    requires parts != [] && Rep(m, t) && t.Node? && [] in m && m[[]] == root
    modifies m.Values
    ensures Following(root, cur, parts, |parts| - 1, value, m2, u, Set(t, parts, value))
    ensures fresh(m2.Values - m.Values)
  {
    ghost var goal := Set(t, parts, value);
    cur, m2, u := root, m, t;
    var i := 0;
    while i < |parts| - 1
      invariant 0 <= i < |parts|
      invariant Following(root, cur, parts, i, value, m2, u, goal)
      invariant fresh(m2.Values - m.Values)
    {
      assert cur in m2.Values;
      cur, m2, u := Follow(root, cur, parts, i, value, m2, u, goal);
      i := i + 1;
    }
  }

  /** setp: follow the path and store the value at its end. */
  method Setp(root: Dict, path: string, value: Value, ghost m: Objects, ghost t: Tree) returns (ghost m2: Objects)
    requires Rep(m, t) && [] in m && m[[]] == root
    modifies m.Values
    ensures t.Node? && Rep(m2, Set(t, Split(path), value)) && [] in m2 && m2[[]] == root
    ensures fresh(m2.Values - m.Values)
  {
    var parts := Split(path);
    RootIsANode(m, t);
    var cur;
    ghost var u;
    cur, m2, u := FollowAll(root, parts, value, m, t);
    var last := |parts| - 1;
    assert parts == parts[..last] + [parts[last]] && cur in m2.Values;
    m2 := Store(cur, parts[last], value, m2, u, parts[..last]);
  }

  lemma RootIsANode(m: Objects, t: Tree)
    requires Rep(m, t) && [] in m
    ensures t.Node?
  {
    assert IsNode(t, []);
  }
}
