/** Dotted paths: walking a locale tree into (path, value) pairs, and reading a path
    back. */
module LocalePaths {
  import opened Wrappers
  import opened LocaleTree

  // ----- dotted strings -----

  /** Python's s.split('.'). */
  function Split(s: string): (parts: Path)
    ensures parts != []
  {
    if s == "" then [""]
    else
      var rest := Split(s[1..]);
      if s[0] == '.' then [""] + rest else [[s[0]] + rest[0]] + rest[1..]
  }

  function Join(p: Path): string
    requires p != []
  {
    if |p| == 1 then p[0] else p[0] + "." + Join(p[1..])
  }

  predicate GoodKey(k: string) {
    k != "" && '.' !in k
  }

  predicate GoodPath(p: Path) {
    forall k :: k in p ==> GoodKey(k)
  }

  /** Every dictionary key is non-empty and dot-free. */
  predicate WellKeyed(t: Tree) {
    t.Leaf? || forall k :: k in t.kids ==> GoodKey(k) && WellKeyed(t.kids[k])
  }

  lemma {:induction false} SplitAtFirstDot(k: string, rest: string)
    requires '.' !in k
    ensures Split(k) == [k]
    ensures Split(k + "." + rest) == [k] + Split(rest)
  {
    if k == "" {
      assert k + "." + rest == "." + rest;
    } else {
      SplitAtFirstDot(k[1..], rest);
      assert (k + "." + rest)[1..] == k[1..] + "." + rest;
      assert [k[0]] + k[1..] == k;
    }
  }

  /** Splitting undoes joining when no key contains a dot. */
  lemma {:induction false} SplitJoin(p: Path)
    requires p != [] && forall k :: k in p ==> '.' !in k
    ensures Split(Join(p)) == p
  {
    if |p| == 1 {
      SplitAtFirstDot(p[0], "");
      assert p == [p[0]];
    } else {
      SplitAtFirstDot(p[0], Join(p[1..]));
      SplitJoin(p[1..]);
    }
  }

  /** Joining undoes splitting on every string. */
  lemma {:induction false} JoinSplit(s: string)
    ensures Join(Split(s)) == s
  {
    if s != "" {
      JoinSplit(s[1..]);
      var rest := Split(s[1..]);
      if s[0] == '.' {
        assert Split(s)[1..] == rest;
      } else {
        assert Split(s)[1..] == rest[1..];
      }
    }
  }

  function Full(prefix: string, k: string): string {
    if prefix != "" then prefix + "." + k else k
  }

  /** What `walk` calls a leaf at path p below a node it reached under `prefix`. */
  function Onto(prefix: string, p: Path): string
    decreases p
  {
    if p == [] then prefix else Onto(Full(prefix, p[0]), p[1..])
  }

  /** Paths of good keys are named by joining their keys. */
  lemma {:induction false} OntoIsJoin(prefix: string, p: Path)
    requires p != [] && GoodPath(p)
    ensures Onto(prefix, p) == if prefix == "" then Join(p) else prefix + "." + Join(p)
    decreases p
  {
    assert p[0] in p;
    if |p| > 1 {
      assert GoodPath(p[1..]);
      OntoIsJoin(Full(prefix, p[0]), p[1..]);
      if prefix != "" {
        assert (prefix + "." + p[0]) + "." + Join(p[1..]) == prefix + "." + (p[0] + "." + Join(p[1..]));
      }
    }
  }

  lemma JoinNonEmpty(p: Path)
    requires p != [] && p[0] != ""
    ensures Join(p) != ""
  {
  }

  lemma JoinInjective(p: Path, q: Path)
    requires p != [] && q != [] && GoodPath(p) && GoodPath(q) && Join(p) == Join(q)
    ensures p == q
  {
    SplitJoin(p);
    SplitJoin(q);
  }

  /** Different good paths get different names. */
  lemma OntoInjective(prefix: string, p: Path, q: Path)
    requires GoodPath(p) && GoodPath(q) && Onto(prefix, p) == Onto(prefix, q)
    ensures p == q
  {
    if p != [] {
      assert p[0] in p;
      JoinNonEmpty(p);
      OntoIsJoin(prefix, p);
    }
    if q != [] {
      assert q[0] in q;
      JoinNonEmpty(q);
      OntoIsJoin(prefix, q);
    }
    if p != [] && q != [] {
      if prefix != "" {
        assert Join(p) == (prefix + "." + Join(p))[|prefix| + 1..];
        assert Join(q) == (prefix + "." + Join(q))[|prefix| + 1..];
      }
      JoinInjective(p, q);
    }
  }

  // ----- which names lead back -----

  predicate DotFree(p: Path) {
    forall k :: k in p ==> '.' !in k
  }

  /** No key has a dot, and the first is not empty unless it is the only one. */
  predicate Addressable(p: Path) {
    p != [] && DotFree(p) && (p[0] != "" || |p| == 1)
  }

  lemma {:induction false} SplitIsDotFree(s: string)
    ensures DotFree(Split(s))
  {
    if s != "" {
      SplitIsDotFree(s[1..]);
      var rest := Split(s[1..]);
      assert rest[0] in rest && forall k :: k in rest[1..] ==> k in rest;
    }
  }

  /** Below a non-empty prefix the keys are joined. */
  lemma {:induction false} OntoPrefix(prefix: string, p: Path)
    requires prefix != "" && p != []
    ensures Onto(prefix, p) == prefix + "." + Join(p)
    decreases p
  {
    if |p| > 1 {
      OntoPrefix(prefix + "." + p[0], p[1..]);
      assert (prefix + "." + p[0]) + "." + Join(p[1..]) == prefix + "." + (p[0] + "." + Join(p[1..]));
    }
  }

  lemma NameIsJoin(p: Path)
    requires p != [] && (p[0] != "" || |p| == 1)
    ensures Onto("", p) == Join(p)
  {
    if |p| > 1 {
      OntoPrefix(p[0], p[1..]);
    }
  }

  /** The path a name of dot-free keys is split into is no longer than the leaf's, and is
      addressable: leading empty keys are lost. */
  lemma {:induction false} NameSplits(p: Path)
    requires p != [] && DotFree(p)
    ensures |Split(Onto("", p))| <= |p| && Addressable(Split(Onto("", p)))
    ensures Addressable(p) ==> Split(Onto("", p)) == p
    ensures !Addressable(p) ==> |Split(Onto("", p))| < |p|
    decreases p
  {
    if Addressable(p) {
      NameIsJoin(p);
      SplitJoin(p);
    } else {
      assert Onto("", p) == Onto("", p[1..]);
      assert DotFree(p[1..]);
      NameSplits(p[1..]);
    }
  }

  /** A leaf's name leads back to the leaf's own path exactly when the path is
      addressable. */
  lemma LeadsBackExactly(p: Path)
    requires p != []
    ensures Split(Onto("", p)) == p <==> Addressable(p)
  {
    SplitIsDotFree(Onto("", p));
    if DotFree(p) {
      NameSplits(p);
    }
  }

  /** Every leaf of t has an addressable path. */
  ghost predicate Addressed(t: Tree) {
    forall p, v :: LeafAt(t, p, v) ==> Addressable(p)
  }

  lemma WellKeyedIsAddressed(t: Tree)
    requires t.Node? && WellKeyed(t)
    ensures Addressed(t)
  {
    forall p, v | LeafAt(t, p, v) ensures Addressable(p) {
      PathsAreGood(t, p);
      assert p[0] in p;
    }
  }

  lemma {:induction false} PathsAreGood(t: Tree, p: Path)
    requires WellKeyed(t) && Get(t, p).Some?
    ensures GoodPath(p)
    decreases p
  {
    if p != [] {
      PathsAreGood(t.kids[p[0]], p[1..]);
      assert p == [p[0]] + p[1..];
    }
  }

  // ----- walk and _flatten -----

  type Entries = seq<(Path, Value)>

  ghost predicate DistinctPaths(es: Entries) {
    forall i, j :: 0 <= i < j < |es| ==> es[i].0 != es[j].0
  }

  ghost predicate Lists(es: Entries, p: Path) {
    exists i :: 0 <= i < |es| && es[i].0 == p
  }

  /** The entries are the leaves of t, each once, in some order. */
  ghost predicate Listing(t: Tree, es: Entries) {
    && DistinctPaths(es)
    && (forall i :: 0 <= i < |es| ==> LeafAt(t, es[i].0, es[i].1))
    && (forall p, v :: LeafAt(t, p, v) ==> Lists(es, p))
  }

  /** The entries are the leaves of the dictionary t below the keys in ks. */
  ghost predicate ListingUnder(t: Tree, ks: set<string>, es: Entries) {
    && DistinctPaths(es)
    && (forall i :: 0 <= i < |es| ==> LeafAt(t, es[i].0, es[i].1) && es[i].0 != [] && es[i].0[0] in ks)
    && (forall p, v :: LeafAt(t, p, v) && p != [] && p[0] in ks ==> Lists(es, p))
  }

  function Below(k: string, es: Entries): (r: Entries)
    ensures |r| == |es| && forall i :: 0 <= i < |es| ==> r[i] == ([k] + es[i].0, es[i].1)
  {
    seq(|es|, i requires 0 <= i < |es| => ([k] + es[i].0, es[i].1))
  }

  /** The entries as `walk` yields them. */
  function Named(prefix: string, es: Entries): (r: seq<(string, Value)>)
    ensures |r| == |es| && forall i :: 0 <= i < |es| ==> r[i] == (Onto(prefix, es[i].0), es[i].1)
  {
    seq(|es|, i requires 0 <= i < |es| => (Onto(prefix, es[i].0), es[i].1))
  }

  lemma ListBelow(t: Tree, k: string, sub: Entries)
    requires t.Node? && k in t.kids && Listing(t.kids[k], sub)
    ensures ListingUnder(t, {k}, Below(k, sub))
  {
    var bs := Below(k, sub);
    forall i, j | 0 <= i < j < |bs| ensures bs[i].0 != bs[j].0 {
      assert bs[i].0[1..] == sub[i].0 && bs[j].0[1..] == sub[j].0;
    }
    forall i | 0 <= i < |bs| ensures LeafAt(t, bs[i].0, bs[i].1) {
      assert bs[i].0[1..] == sub[i].0;
    }
    forall p, v | LeafAt(t, p, v) && p != [] && p[0] in {k} ensures Lists(bs, p) {
      assert LeafAt(t.kids[k], p[1..], v);
      var i :| 0 <= i < |sub| && sub[i].0 == p[1..];
      assert bs[i].0 == p;
    }
  }

  lemma ListConcat(t: Tree, ks: set<string>, es: Entries, ls: set<string>, fs: Entries)
    requires ListingUnder(t, ks, es) && ListingUnder(t, ls, fs) && ks !! ls
    ensures ListingUnder(t, ks + ls, es + fs)
  {
    var all := es + fs;
    forall p, v | LeafAt(t, p, v) && p != [] && p[0] in ks + ls ensures Lists(all, p) {
      if p[0] in ks {
        var i :| 0 <= i < |es| && es[i].0 == p;
        assert all[i].0 == p;
      } else {
        var i :| 0 <= i < |fs| && fs[i].0 == p;
        assert all[|es| + i].0 == p;
      }
    }
  }

  lemma NamedBelow(prefix: string, k: string, sub: Entries)
    ensures Named(Full(prefix, k), sub) == Named(prefix, Below(k, sub))
  {
    forall i | 0 <= i < |sub| ensures Named(Full(prefix, k), sub)[i] == Named(prefix, Below(k, sub))[i] {
      assert ([k] + sub[i].0)[1..] == sub[i].0;
    }
  }

  /** One more item of the loop over a dictionary. */
  lemma ListItem(t: Tree, prefix: string, ks: set<string>, es: Entries, k: string, sub: Entries)
    requires t.Node? && k in t.kids && k !in ks
    requires ListingUnder(t, ks, es) && Listing(t.kids[k], sub)
    ensures ListingUnder(t, ks + {k}, es + Below(k, sub))
    ensures Named(prefix, es + Below(k, sub)) == Named(prefix, es) + Named(Full(prefix, k), sub)
  {
    ListBelow(t, k, sub);
    ListConcat(t, ks, es, {k}, Below(k, sub));
    NamedBelow(prefix, k, sub);
  }

  lemma ListAllKeys(t: Tree, es: Entries)
    requires t.Node? && ListingUnder(t, t.kids.Keys, es)
    ensures Listing(t, es)
  {
  }

  /** The recursive generator: all leaves, each once, named by their dotted paths. */
  method Walk(t: Tree, prefix: string) returns (out: seq<(string, Value)>, ghost es: Entries)
    ensures Listing(t, es) && out == Named(prefix, es)
    decreases t, 1
  {
    if t.Leaf? {
      out, es := [(prefix, t.v)], [([], t.v)];
      assert es[0].0 == [];
    } else {
      out, es := WalkKids(t, prefix);
    }
  }

  /** The loop over a dictionary's items. */
  method WalkKids(t: Tree, prefix: string) returns (out: seq<(string, Value)>, ghost es: Entries)
    requires t.Node?
    ensures Listing(t, es) && out == Named(prefix, es)
    decreases t, 0
  {
    out, es := [], [];
    var todo := t.kids.Keys;
    while todo != {}
      invariant todo <= t.kids.Keys
      invariant ListingUnder(t, t.kids.Keys - todo, es) && out == Named(prefix, es)
      decreases |todo|
    {
      var k :| k in todo;
      var sub, subEs := Walk(t.kids[k], Full(prefix, k));
      ListItem(t, prefix, t.kids.Keys - todo, es, k, subEs);
      out, es := out + sub, es + Below(k, subEs);
      assert t.kids.Keys - (todo - {k}) == (t.kids.Keys - todo) + {k};
      todo := todo - {k};
    }
    assert t.kids.Keys - todo == t.kids.Keys;
    ListAllKeys(t, es);
  }

  /** A flat dictionary with the leaves' names, each with the value of a leaf so named. */
  ghost predicate Flattens(t: Tree, str: Value -> string, flat: map<string, string>) {
    && (forall p, v :: LeafAt(t, p, v) ==> Onto("", p) in flat)
    && (forall s :: s in flat ==> exists p, v :: LeafAt(t, p, v) && s == Onto("", p) && flat[s] == str(v))
  }

  /** _flatten.  When every leaf has an addressable path each has an entry of its own; in
      general one of the leaves that share a name has it. */
  method Flatten(t: Tree, str: Value -> string) returns (flat: map<string, string>)
    requires t.Node?
    ensures Flattens(t, str, flat)
    ensures Addressed(t) ==> forall p, v :: LeafAt(t, p, v) ==> flat[Onto("", p)] == str(v)
  {
    var out, es := Walk(t, "");
    flat := map[];
    for i := 0 to |out|
      invariant forall j :: 0 <= j < i ==> out[j].0 in flat
      invariant forall s :: s in flat ==> exists j :: 0 <= j < i && s == out[j].0 && flat[s] == str(out[j].1)
    {
      flat := flat[out[i].0 := str(out[i].1)];
    }
    EntriesFlatten(t, str, es, flat);
  }

  lemma EntriesFlatten(t: Tree, str: Value -> string, es: Entries, flat: map<string, string>)
    requires Listing(t, es)
    requires forall i :: 0 <= i < |es| ==> Onto("", es[i].0) in flat
    requires forall s :: s in flat ==> exists i :: 0 <= i < |es| && s == Onto("", es[i].0) && flat[s] == str(es[i].1)
    ensures Flattens(t, str, flat)
    ensures Addressed(t) ==> forall p, v :: LeafAt(t, p, v) ==> flat[Onto("", p)] == str(v)
  {
    forall p, v | LeafAt(t, p, v) ensures Onto("", p) in flat {
      var i :| 0 <= i < |es| && es[i].0 == p;
    }
    forall s | s in flat ensures exists p, v :: LeafAt(t, p, v) && s == Onto("", p) && flat[s] == str(v) {
      var i :| 0 <= i < |es| && s == Onto("", es[i].0) && flat[s] == str(es[i].1);
      assert LeafAt(t, es[i].0, es[i].1);
    }
    if Addressed(t) {
      forall p, v | LeafAt(t, p, v) ensures flat[Onto("", p)] == str(v) {
        OwnEntry(t, str, es, flat, p, v);
      }
    }
  }

  lemma OwnEntry(t: Tree, str: Value -> string, es: Entries, flat: map<string, string>, p: Path, v: Value)
    requires Addressed(t) && Listing(t, es) && LeafAt(t, p, v) && Onto("", p) in flat
    requires exists i :: 0 <= i < |es| && Onto("", p) == Onto("", es[i].0) && flat[Onto("", p)] == str(es[i].1)
    ensures flat[Onto("", p)] == str(v)
  {
    var i :| 0 <= i < |es| && Onto("", p) == Onto("", es[i].0) && flat[Onto("", p)] == str(es[i].1);
    assert LeafAt(t, es[i].0, es[i].1);
    LeadsBackExactly(p);
    LeadsBackExactly(es[i].0);
  }

  // ----- getp -----

  /** Python's view of a lookup: a missing path and a null leaf are both None. */
  function Found(t: Tree, p: Path): Tree {
    match Get(t, p)
    case None => Leaf(Null)
    case Some(u) => u
  }

  method Getp(d: Tree, path: string) returns (r: Tree)
    ensures r == Found(d, Split(path))
  {
    var parts := Split(path);
    var cur := d;
    for i := 0 to |parts|
      invariant Get(d, parts) == Get(cur, parts[i..])
    {
      if cur.Node? && parts[i] in cur.kids {
        cur := cur.kids[parts[i]];
      } else {
        return Leaf(Null);
      }
    }
    r := cur;
  }

  /** Splitting a walked name gives the walked path exactly when the path is addressable;
      then getp reads the walked value.  No walked path is a prefix of another. */
  lemma WalkedPathsReadBack(t: Tree, p: Path, v: Value, q: Path, w: Value)
    requires t.Node? && LeafAt(t, p, v) && LeafAt(t, q, w)
    ensures Split(Onto("", p)) == p <==> Addressable(p)
    ensures Addressable(p) ==> Found(t, Split(Onto("", p))) == Leaf(v)
    ensures p != q ==> !Comparable(p, q)
  {
    LeadsBackExactly(p);
    if p != q { LeavesArePrefixFree(t, p, v, q, w); }
  }

  /** getp looks for every leaf where walk found it exactly when every leaf has an
      addressable path. */
  lemma WalkReadsBackExactly(t: Tree)
    requires t.Node?
    ensures (forall p, v :: LeafAt(t, p, v) ==> Split(Onto("", p)) == p) <==> Addressed(t)
  {
    forall p, v | LeafAt(t, p, v) ensures Split(Onto("", p)) == p <==> Addressable(p) {
      LeadsBackExactly(p);
    }
  }

  // ----- rebuilding a tree from its pairs -----

  /** Fold setp over the pairs, first to last. */
  function Fold(t: Tree, pairs: seq<(string, Value)>): (r: Tree)
    requires t.Node?
    ensures r.Node?
  {
    if pairs == [] then t
    else
      var last := pairs[|pairs| - 1];
      Set(Fold(t, pairs[..|pairs| - 1]), Split(last.0), last.1)
  }

  lemma {:induction false} FoldLeavesNoEmptyBranch(pairs: seq<(string, Value)>)
    ensures NoEmptyBranch(Fold(EMPTY, pairs))
    decreases |pairs|
  {
    if pairs != [] {
      var n := |pairs| - 1;
      FoldLeavesNoEmptyBranch(pairs[..n]);
      SetKeepsNoEmptyBranch(Fold(EMPTY, pairs[..n]), Split(pairs[n].0), pairs[n].1);
    }
  }

  /** Folding over paths that are pairwise incomparable stores each of them. */
  lemma {:induction false} FoldStoresAll(es: Entries, pairs: seq<(string, Value)>, q: Path, w: Value)
    requires |es| == |pairs|
    requires forall i :: 0 <= i < |es| ==> Split(pairs[i].0) == es[i].0 && pairs[i].1 == es[i].1
    requires forall i, j :: 0 <= i < j < |es| ==> !Comparable(es[i].0, es[j].0)
    ensures LeafAt(Fold(EMPTY, pairs), q, w) <==> (q, w) in es
    decreases |pairs|
  {
    if pairs != [] {
      var n := |pairs| - 1;
      var front := Fold(EMPTY, pairs[..n]);
      FoldStoresAll(es[..n], pairs[..n], q, w);
      LeavesAfterSet(front, es[n].0, es[n].1, q, w);
      assert es == es[..n] + [es[n]];
      if (q, w) in es[..n] {
        var i :| 0 <= i < n && es[i] == (q, w);
        assert !Comparable(es[i].0, es[n].0);
      }
    }
  }

  lemma RebuildAddressed(t: Tree, es: Entries)
    requires t.Node? && Addressed(t) && Listing(t, es)
    ensures Fold(EMPTY, Named("", es)) == Prune(t)
  {
    var pairs := Named("", es);
    forall i | 0 <= i < |pairs| ensures Split(pairs[i].0) == es[i].0 {
      WalkedPathsReadBack(t, es[i].0, es[i].1, es[i].0, es[i].1);
    }
    forall i, j | 0 <= i < j < |es| ensures !Comparable(es[i].0, es[j].0) {
      LeavesArePrefixFree(t, es[i].0, es[i].1, es[j].0, es[j].1);
    }
    forall q, w ensures LeafAt(Fold(EMPTY, pairs), q, w) <==> LeafAt(Prune(t), q, w) {
      FoldStoresAll(es, pairs, q, w);
      PruneKeepsLeaves(t, q, w);
      ListedLeaves(t, es, q, w);
    }
    FoldLeavesNoEmptyBranch(pairs);
    PruneHasNoEmptyBranch(t);
    LeavesDetermine(Fold(EMPTY, pairs), Prune(t));
  }

  /** The leaves of the folded tree stand at the split names. */
  lemma {:induction false} FoldedLeaf(pairs: seq<(string, Value)>, q: Path, w: Value) returns (i: nat)
    requires LeafAt(Fold(EMPTY, pairs), q, w)
    ensures i < |pairs| && q == Split(pairs[i].0)
    decreases |pairs|
  {
    assert pairs != [];
    var n := |pairs| - 1;
    var path := Split(pairs[n].0);
    LeavesAfterSet(Fold(EMPTY, pairs[..n]), path, pairs[n].1, q, w);
    if q == path {
      i := n;
    } else {
      i := FoldedLeaf(pairs[..n], q, w);
    }
  }

  lemma RebuiltIsAddressed(t: Tree, es: Entries)
    requires t.Node? && Listing(t, es) && Fold(EMPTY, Named("", es)) == Prune(t)
    ensures Addressed(t)
  {
    var pairs := Named("", es);
    forall p, v | LeafAt(t, p, v) ensures DotFree(p) {
      PruneKeepsLeaves(t, p, v);
      var i := FoldedLeaf(pairs, p, v);
      SplitIsDotFree(pairs[i].0);
    }
    forall p, v | LeafAt(t, p, v) ensures Addressable(p) {
      PruneKeepsLeaves(t, p, v);
      var i := FoldedLeaf(pairs, p, v);
      assert LeafAt(t, es[i].0, es[i].1);
      NameSplits(es[i].0);
    }
  }

  /** Folding setp over a tree's walked pairs, in any order, into an empty tree rebuilds
      the tree without its empty branches exactly when every leaf has an addressable path. */
  lemma RebuildInAnyOrder(t: Tree, es: Entries)
    requires t.Node? && Listing(t, es)
    ensures Fold(EMPTY, Named("", es)) == Prune(t) <==> Addressed(t)
  {
    if Addressed(t) {
      RebuildAddressed(t, es);
    }
    if Fold(EMPTY, Named("", es)) == Prune(t) {
      RebuiltIsAddressed(t, es);
    }
  }

  lemma ListedLeaves(t: Tree, es: Entries, q: Path, w: Value)
    requires Listing(t, es)
    ensures (q, w) in es <==> LeafAt(t, q, w)
  {
    if LeafAt(t, q, w) {
      var i :| 0 <= i < |es| && es[i].0 == q;
      assert es[i] == (q, w);
    }
  }
}
