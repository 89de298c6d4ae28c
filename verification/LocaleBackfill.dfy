/** Filling the English catalogue from the French one, and the coherence check that
    follows. */
module LocaleBackfill {
  import opened Wrappers
  import opened LocaleTree
  import opened LocalePaths
  import opened LocaleDict

  /** What to store for a path and its French text: a label for every path in one
      script, a translation when one is known in the other. */
  type Proposal = (string, string) -> Option<string>

  // ----- the loop as a function of the tree -----

  function Proposed(propose: Proposal, e: (Path, Value)): Option<string>
    requires e.0 != []
  {
    if e.1.Text? then propose(Join(e.0), e.1.s) else None
  }

  /** The loop stores something for this entry: it is a string, `getp` finds None, and
      there is a proposal. */
  predicate Adds(propose: Proposal, t: Tree, e: (Path, Value))
    requires e.0 != []
  {
    Proposed(propose, e).Some? && Found(t, e.0) == Leaf(Null)
  }

  function FillOne(propose: Proposal, t: Tree, e: (Path, Value)): (r: Tree)
    requires t.Node? && e.0 != []
    ensures r.Node?
  {
    if Adds(propose, t, e) then Set(t, e.0, Text(Proposed(propose, e).value)) else t
  }

  predicate Nonempty(es: Entries) {
    forall i :: 0 <= i < |es| ==> es[i].0 != []
  }

  function FillAll(propose: Proposal, t: Tree, es: Entries): (r: Tree)
    requires t.Node? && Nonempty(es)
    ensures r.Node?
  {
    if es == [] then t else FillOne(propose, FillAll(propose, t, es[..|es| - 1]), es[|es| - 1])
  }

  // ----- the loop itself, on the mutable dictionary -----

  /** getp on the mutable dictionary. */
  method GetpObject(root: Dict, path: string, ghost m: Objects, ghost t: Tree) returns (r: Option<Slot>)
    requires Rep(m, t) && [] in m && m[[]] == root
    ensures r.None? <==> Get(t, Split(path)) == None
    ensures r.Some? ==> if r.value.Val? then Get(t, Split(path)) == Some(Leaf(r.value.v)) else IsNode(t, Split(path))
  {
    var parts := Split(path);
    var cur := Sub(root);
    var i := 0;
    while i < |parts|
      invariant 0 <= i <= |parts|
      invariant if cur.Val? then Get(t, parts[..i]) == Some(Leaf(cur.v))
                else parts[..i] in m && m[parts[..i]] == cur.d
    {
      assert parts[..i + 1] == parts[..i] + [parts[i]];
      if cur.Sub? && parts[i] in cur.d.kids {
        EntryAgrees(m, t, parts[..i], parts[i]);
        cur := cur.d.kids[parts[i]];
      } else {
        LeadsNowhere(m, t, parts[..i], parts[i]);
        GetPrefixNone(t, parts, i + 1);
        return None;
      }
      i := i + 1;
    }
    assert parts[..i] == parts;
    return Some(cur);
  }

  lemma EntryAgrees(m: Objects, t: Tree, q: Path, k: string)
    requires Rep(m, t) && q in m && k in m[q].kids
    ensures if m[q].kids[k].Val? then Get(t, q + [k]) == Some(Leaf(m[q].kids[k].v))
            else q + [k] in m && m[q + [k]] == m[q].kids[k].d
  {
    GetNext(t, q, k);
    assert SlotRep(m, t, q, k, m[q].kids[k]);
  }

  lemma LeadsNowhere(m: Objects, t: Tree, q: Path, k: string)
    requires Rep(m, t) && Get(t, q).Some?
    requires q in m ==> k !in m[q].kids
    ensures Get(t, q + [k]) == None
  {
    if q in m {
      GetNext(t, q, k);
    } else {
      NothingBelowLeaf(t, q, q + [k]);
    }
  }

  lemma {:induction false} GetPrefixNone(t: Tree, p: Path, i: nat)
    requires 0 < i <= |p| && Get(t, p[..i]) == None
    ensures Get(t, p) == None
    decreases i
  {
    if i > 1 && t.Node? && p[0] in t.kids {
      assert p[..i][1..] == p[1..][..i - 1];
      GetPrefixNone(t.kids[p[0]], p[1..], i - 1);
    }
  }

  /** The loop finds neither an English value nor a proposal for this entry. */
  predicate Unmatched(propose: Proposal, t: Tree, e: (Path, Value))
    requires e.0 != []
  {
    e.1.Text? && Found(t, e.0) == Leaf(Null) && Proposed(propose, e).None?
  }

  /** How many values the loop adds. */
  function CountAdds(propose: Proposal, t: Tree, es: Entries): nat
    requires t.Node? && Nonempty(es)
  {
    if es == [] then 0
    else
      var front, last := es[..|es| - 1], es[|es| - 1];
      CountAdds(propose, t, front) + if Adds(propose, FillAll(propose, t, front), last) then 1 else 0
  }

  /** The names the loop collects as unmatched. */
  function UnmatchedNames(propose: Proposal, t: Tree, es: Entries): seq<string>
    requires t.Node? && Nonempty(es)
  {
    if es == [] then []
    else
      var front, last := es[..|es| - 1], es[|es| - 1];
      UnmatchedNames(propose, t, front)
      + if Unmatched(propose, FillAll(propose, t, front), last) then [Join(last.0)] else []
  }

  /** One round of the loop. */
  method FillEntry(en: Dict, path: string, value: Value, propose: Proposal, ghost m: Objects, ghost t: Tree,
          ghost p: Path)
    returns (adds: bool, unmatched: bool, ghost m2: Objects)
    requires Rep(m, t) && t.Node? && [] in m && m[[]] == en
    requires p == Split(path)
    modifies m.Values
    ensures adds == Adds(propose, t, (p, value)) && unmatched == Unmatched(propose, t, (p, value))
    ensures Rep(m2, FillOne(propose, t, (p, value))) && [] in m2 && m2[[]] == en
    ensures adds <==> value.Text? && Found(t, p) == Leaf(Null) && propose(path, value.s).Some?
    ensures unmatched <==> value.Text? && Found(t, p) == Leaf(Null) && propose(path, value.s).None?
    ensures Rep(m2, if adds then Set(t, p, Text(propose(path, value.s).value)) else t)
    ensures fresh(m2.Values - m.Values)
  {
    adds, unmatched, m2 := false, false, m;
    JoinSplit(path);
    if !value.Text? {
      return;
    }
    var found := GetpObject(en, path, m, t);
    if found.Some? && found.value != Val(Null) {
      return;
    }
    var proposal := propose(path, value.s);
    if proposal.None? {
      unmatched := true;
      return;
    }
    adds := true;
    m2 := Setp(en, path, Text(proposal.value), m, t);
  }

  /** Walked pairs as the loop takes them: paths are split at every dot. */
  function Resplit(pairs: seq<(string, Value)>): (es: Entries)
    ensures |es| == |pairs| && forall i :: 0 <= i < |es| ==> es[i] == (Split(pairs[i].0), pairs[i].1)
    ensures Nonempty(es)
  {
    seq(|pairs|, i requires 0 <= i < |pairs| => (Split(pairs[i].0), pairs[i].1))
  }

  /** The loop's state after its first i rounds. */
  ghost predicate Filling(en: Dict, propose: Proposal, t: Tree, es: Entries, i: nat, m: Objects, added: nat,
          notFound: seq<string>)
    requires t.Node? && Nonempty(es) && i <= |es|
    reads m.Values
  {
    && Rep(m, FillAll(propose, t, es[..i])) && [] in m && m[[]] == en
    && added == CountAdds(propose, t, es[..i])
    && notFound == UnmatchedNames(propose, t, es[..i])
  }

  /** One round of the loop. */
  method FillNext(en: Dict, path: string, value: Value, propose: Proposal, added: nat, notFound: seq<string>,
                  ghost m: Objects, ghost t: Tree, ghost es: Entries, ghost i: nat)
    returns (added': nat, notFound': seq<string>, ghost m2: Objects)
    requires t.Node? && Nonempty(es) && i < |es| && es[i] == (Split(path), value)
    requires Filling(en, propose, t, es, i, m, added, notFound)
    modifies m.Values
    ensures Filling(en, propose, t, es, i + 1, m2, added', notFound')
    ensures fresh(m2.Values - m.Values)
  {
    assert es[..i + 1][..i] == es[..i];
    JoinSplit(path);
    var adds, unmatched;
    adds, unmatched, m2 := FillEntry(en, path, value, propose, m, FillAll(propose, t, es[..i]), es[i].0);
    added' := if adds then added + 1 else added;
    notFound' := if unmatched then notFound + [path] else notFound;
  }

  /** The loop over the walked pairs. */
  method FillPairs(en: Dict, pairs: seq<(string, Value)>, propose: Proposal, ghost m: Objects, ghost t: Tree)
    returns (added: nat, notFound: seq<string>, ghost m2: Objects)
    requires Rep(m, t) && t.Node? && [] in m && m[[]] == en
    modifies m.Values
    ensures Rep(m2, FillAll(propose, t, Resplit(pairs))) && [] in m2 && m2[[]] == en
    ensures added == CountAdds(propose, t, Resplit(pairs)) && notFound == UnmatchedNames(propose, t, Resplit(pairs))
    ensures fresh(m2.Values - m.Values)
  {
    ghost var es := Resplit(pairs);
    added, notFound, m2 := 0, [], m;
    var i := 0;
    while i < |pairs|
      invariant 0 <= i <= |pairs|
      invariant Filling(en, propose, t, es, i, m2, added, notFound)
      invariant fresh(m2.Values - m.Values)
    {
      added, notFound, m2 := FillNext(en, pairs[i].0, pairs[i].1, propose, added, notFound, m2, t, es, i);
      i := i + 1;
    }
    assert es[..i] == es;
  }

  /** The loop of both scripts: for each French string without an English value, store
      the proposal, or remember that there is none. */
  method FillMissing(fr: Tree, en: Dict, propose: Proposal, ghost m: Objects, ghost t: Tree)
    returns (added: nat, notFound: seq<string>, ghost m2: Objects, ghost es: Entries)
    requires Rep(m, t) && t.Node? && [] in m && m[[]] == en
    modifies m.Values
    ensures exists listed :: Listing(fr, listed) && es == Resplit(Named("", listed))
    ensures Nonempty(es) && Rep(m2, FillAll(propose, t, es)) && [] in m2 && m2[[]] == en
    ensures added == CountAdds(propose, t, es) && notFound == UnmatchedNames(propose, t, es)
    ensures fr.Node? && Addressed(fr) ==> Listing(fr, es) && Separate(es)
    ensures fr.Node? && Addressed(fr) ==> StoresProposals(fr, propose, t, FillAll(propose, t, es))
    ensures fr.Node? && Addressed(fr) ==> forall name :: name in notFound <==> Untranslated(fr, propose, t, name)
    ensures fr.Node? && Addressed(fr) ==> added == |MissingEntries(propose, t, es)|
    ensures fresh(m2.Values - m.Values)
  {
    var pairs;
    ghost var listed;
    pairs, listed := Walk(fr, "");
    es := Resplit(pairs);
    if fr.Node? && Addressed(fr) {
      ResplitListing(fr, listed);
      ListingIsSeparate(fr, listed);
      FillStoresProposals(fr, propose, t, es);
      UnmatchedExactly(fr, propose, t, es);
      CountsTheMissing(propose, t, es);
      CountByCardinality(propose, t, es);
    }
    added, notFound, m2 := FillPairs(en, pairs, propose, m, t);
  }

  /** Splitting the names of addressable paths gives the paths back. */
  lemma ResplitListing(fr: Tree, es: Entries)
    requires fr.Node? && Addressed(fr) && Listing(fr, es)
    ensures Resplit(Named("", es)) == es
  {
    forall i | 0 <= i < |es| ensures Split(Onto("", es[i].0)) == es[i].0 {
      WalkedPathsReadBack(fr, es[i].0, es[i].1, es[i].0, es[i].1);
    }
  }

  predicate Separate(es: Entries) {
    forall i, j :: 0 <= i < |es| && 0 <= j < |es| && i != j ==> !Comparable(es[i].0, es[j].0)
  }

  // ----- what the loop achieves -----

  lemma ListingIsSeparate(fr: Tree, es: Entries)
    requires fr.Node? && Listing(fr, es)
    ensures Nonempty(es) && Separate(es)
  {
    forall i | 0 <= i < |es| ensures es[i].0 != [] {
      assert LeafAt(fr, es[i].0, es[i].1);
    }
    forall i, j | 0 <= i < |es| && 0 <= j < |es| && i != j ensures !Comparable(es[i].0, es[j].0) {
      LeavesArePrefixFree(fr, es[i].0, es[i].1, es[j].0, es[j].1);
    }
  }

  /** A path neither above nor below any filled one leads where it led. */
  lemma {:induction false} FarFromFills(propose: Proposal, t: Tree, es: Entries, p: Path)
    requires t.Node? && Nonempty(es)
    requires forall i :: 0 <= i < |es| ==> !Comparable(es[i].0, p)
    ensures Get(FillAll(propose, t, es), p) == Get(t, p)
    decreases |es|
  {
    if es != [] {
      var n := |es| - 1;
      FarFromFills(propose, t, es[..n], p);
      var u, e := FillAll(propose, t, es[..n]), es[n];
      if Adds(propose, u, e) {
        GetAfterSet(u, e.0, Text(Proposed(propose, e).value), p);
      }
    }
  }

  // ----- where the loop stores, read off the tree before it -----

  /** After the loop over es `getp` finds None at p: the last store at, above or below p was
      above it; or there was none, and `getp` found None before. */
  ghost predicate Open(propose: Proposal, t: Tree, es: Entries, p: Path)
    requires Nonempty(es)
    decreases |es|, 0
  {
    if es == [] then Found(t, p) == Leaf(Null)
    else
      var n := |es| - 1;
      if StoredAt(propose, t, es, n) && Comparable(es[n].0, p) then es[n].0 < p else Open(propose, t, es[..n], p)
  }

  /** The loop stores something for its i-th entry. */
  ghost predicate StoredAt(propose: Proposal, t: Tree, es: Entries, i: nat)
    requires Nonempty(es) && i < |es|
    decreases i, 1
  {
    Proposed(propose, es[i]).Some? && Open(propose, t, es[..i], es[i].0)
  }

  lemma StoredPrefix(propose: Proposal, t: Tree, es: Entries, n: nat, i: nat)
    requires Nonempty(es) && i < n <= |es|
    ensures StoredAt(propose, t, es[..n], i) == StoredAt(propose, t, es, i)
  {
    assert es[..n][..i] == es[..i];
  }

  lemma FoundAfterSet(t: Tree, p: Path, s: string, q: Path)
    requires t.Node? && p != [] && Comparable(p, q)
    ensures Found(Set(t, p, Text(s)), q) == Leaf(Null) <==> p < q
    ensures q < p ==> IsNode(Set(t, p, Text(s)), q)
    ensures q == p ==> LeafAt(Set(t, p, Text(s)), q, Text(s))
  {
    GetAfterSet(t, p, Text(s), p);
    if p < q {
      NothingBelowLeaf(Set(t, p, Text(s)), p, q);
    } else if q < p {
      NodesAboveSet(t, p, Text(s), q);
    } else {
      assert p == q;
    }
  }

  lemma {:induction false} OpenExactly(propose: Proposal, t: Tree, es: Entries, p: Path)
    requires t.Node? && Nonempty(es)
    ensures Found(FillAll(propose, t, es), p) == Leaf(Null) <==> Open(propose, t, es, p)
    decreases |es|
  {
    if es != [] {
      var n := |es| - 1;
      var u, e := FillAll(propose, t, es[..n]), es[n];
      OpenExactly(propose, t, es[..n], p);
      OpenExactly(propose, t, es[..n], e.0);
      if StoredAt(propose, t, es, n) {
        if Comparable(e.0, p) {
          FoundAfterSet(u, e.0, Proposed(propose, e).value, p);
        } else {
          GetAfterSet(u, e.0, Text(Proposed(propose, e).value), p);
        }
      }
    }
  }

  /** The last round of the loop. */
  lemma LastRound(propose: Proposal, t: Tree, es: Entries)
    requires t.Node? && es != [] && Nonempty(es)
    ensures var n := |es| - 1;
            var u, e := FillAll(propose, t, es[..n]), es[n];
            && (Adds(propose, u, e) <==> StoredAt(propose, t, es, n))
            && FillAll(propose, t, es) ==
               (if StoredAt(propose, t, es, n) then Set(u, e.0, Text(Proposed(propose, e).value)) else u)
  {
    OpenExactly(propose, t, es[..|es| - 1], es[|es| - 1].0);
  }

  lemma {:induction false} OpenFar(propose: Proposal, t: Tree, es: Entries, p: Path)
    requires Nonempty(es) && forall i :: 0 <= i < |es| ==> !Comparable(es[i].0, p)
    ensures Open(propose, t, es, p) <==> Found(t, p) == Leaf(Null)
    decreases |es|
  {
    if es != [] {
      OpenFar(propose, t, es[..|es| - 1], p);
    }
  }

  /** When no name is another one or a dotted beginning of another, the loop stores where
      `getp` found None before it. */
  lemma StoredWhenSeparate(propose: Proposal, t: Tree, es: Entries, i: nat)
    requires Nonempty(es) && Separate(es) && i < |es|
    ensures StoredAt(propose, t, es, i) <==> Adds(propose, t, es[i])
  {
    OpenFar(propose, t, es[..i], es[i].0);
  }

  /** Counted on the tree as it was before the loop. */
  ghost function CountStored(propose: Proposal, t: Tree, es: Entries): nat
    requires Nonempty(es)
  {
    if es == [] then 0
    else
      var n := |es| - 1;
      CountStored(propose, t, es[..n]) + if StoredAt(propose, t, es, n) then 1 else 0
  }

  function CountMissing(propose: Proposal, t: Tree, es: Entries): nat
    requires Nonempty(es)
  {
    if es == [] then 0
    else CountMissing(propose, t, es[..|es| - 1]) + if Adds(propose, t, es[|es| - 1]) then 1 else 0
  }

  /** The loop adds one value for each entry it stores at; when no name is another one or a
      dotted beginning of another, these are the strings missing before it. */
  lemma {:induction false} CountsTheMissing(propose: Proposal, t: Tree, es: Entries)
    requires t.Node? && Nonempty(es)
    ensures CountAdds(propose, t, es) == CountStored(propose, t, es)
    ensures Separate(es) ==> CountAdds(propose, t, es) == CountMissing(propose, t, es)
    decreases |es|
  {
    if es != [] {
      var n := |es| - 1;
      CountsTheMissing(propose, t, es[..n]);
      LastRound(propose, t, es);
      if Separate(es) {
        StoredWhenSeparate(propose, t, es, n);
      }
    }
  }

  // ----- the leaves after the loop -----

  /** After entry i (all of them if i is -1) nothing is stored at, above or below q. */
  ghost predicate Undisturbed(propose: Proposal, t: Tree, es: Entries, i: int, q: Path)
    requires Nonempty(es)
  {
    forall j :: i < j < |es| && 0 <= j && StoredAt(propose, t, es, j) ==> !Comparable(es[j].0, q)
  }

  /** The loop stores w at q, and nothing at, above or below q later. */
  ghost predicate Filled(propose: Proposal, t: Tree, es: Entries, q: Path, w: Value)
    requires Nonempty(es)
  {
    exists i :: 0 <= i < |es| && FilledBy(propose, t, es, i, q, w)
  }

  ghost predicate FilledBy(propose: Proposal, t: Tree, es: Entries, i: nat, q: Path, w: Value)
    requires Nonempty(es) && i < |es|
  {
    && StoredAt(propose, t, es, i) && es[i].0 == q && w == Text(Proposed(propose, es[i]).value)
    && Undisturbed(propose, t, es, i, q)
  }

  /** The leaves after the loop, in the order it takes its entries: what it stored and did
      not store over later, and every old leaf at, above or below which it stored nothing. */
  lemma {:induction false} LeavesAfterFill(propose: Proposal, t: Tree, es: Entries, q: Path, w: Value)
    requires t.Node? && Nonempty(es)
    ensures LeafAt(FillAll(propose, t, es), q, w)
            <==> Filled(propose, t, es, q, w) || (LeafAt(t, q, w) && Undisturbed(propose, t, es, -1, q))
    decreases |es|
  {
    if es != [] {
      var n := |es| - 1;
      LeavesAfterFill(propose, t, es[..n], q, w);
      LastRound(propose, t, es);
      FilledStep(propose, t, es, q, w);
      UndisturbedStep(propose, t, es, -1, q);
      if StoredAt(propose, t, es, n) {
        LeavesAfterSet(FillAll(propose, t, es[..n]), es[n].0, Text(Proposed(propose, es[n]).value), q, w);
      }
    }
  }

  lemma UndisturbedStep(propose: Proposal, t: Tree, es: Entries, i: int, q: Path)
    requires es != [] && Nonempty(es) && -1 <= i < |es| - 1
    ensures var n := |es| - 1;
            Undisturbed(propose, t, es, i, q) <==>
            Undisturbed(propose, t, es[..n], i, q) && !(StoredAt(propose, t, es, n) && Comparable(es[n].0, q))
  {
    var n := |es| - 1;
    forall j | 0 <= j < n ensures StoredAt(propose, t, es[..n], j) == StoredAt(propose, t, es, j) {
      StoredPrefix(propose, t, es, n, j);
    }
  }

  lemma FilledStep(propose: Proposal, t: Tree, es: Entries, q: Path, w: Value)
    requires es != [] && Nonempty(es)
    ensures var n := |es| - 1;
            Filled(propose, t, es, q, w) <==>
            || (Filled(propose, t, es[..n], q, w) && !(StoredAt(propose, t, es, n) && Comparable(es[n].0, q)))
            || (StoredAt(propose, t, es, n) && es[n].0 == q && w == Text(Proposed(propose, es[n]).value))
  {
    var n := |es| - 1;
    forall i | 0 <= i < n
      ensures FilledBy(propose, t, es, i, q, w) <==>
              FilledBy(propose, t, es[..n], i, q, w) && !(StoredAt(propose, t, es, n) && Comparable(es[n].0, q))
    {
      StoredPrefix(propose, t, es, n, i);
      UndisturbedStep(propose, t, es, i, q);
    }
    assert FilledBy(propose, t, es, n, q, w) <==>
           StoredAt(propose, t, es, n) && es[n].0 == q && w == Text(Proposed(propose, es[n]).value);
    if i :| 0 <= i < n && FilledBy(propose, t, es[..n], i, q, w) {
      assert FilledBy(propose, t, es, i, q, w) <==> !(StoredAt(propose, t, es, n) && Comparable(es[n].0, q));
    }
  }

  // ----- what is stored, in terms of the French leaves -----

  /** The French leaf v at p is a string, `getp` finds None at p, and there is a proposal
      for its name and its text. */
  predicate Missing(propose: Proposal, t: Tree, p: Path, v: Value) {
    v.Text? && Found(t, p) == Leaf(Null) && propose(Onto("", p), v.s).Some?
  }

  /** Every French string that is missing has its proposal in u; and u has no leaves but
      those and leaves of t. */
  ghost predicate StoresProposals(fr: Tree, propose: Proposal, t: Tree, u: Tree) {
    && (forall p, s :: LeafAt(fr, p, Text(s)) && Missing(propose, t, p, Text(s)) ==>
          LeafAt(u, p, Text(propose(Onto("", p), s).value)))
    && (forall p, w :: LeafAt(u, p, w) ==> LeafAt(t, p, w) || IsProposal(fr, propose, t, p, w))
  }

  ghost predicate IsProposal(fr: Tree, propose: Proposal, t: Tree, p: Path, w: Value) {
    exists s :: LeafAt(fr, p, Text(s)) && Missing(propose, t, p, Text(s)) && w == Text(propose(Onto("", p), s).value)
  }

  /** Some French string of this name is without an English value and without a proposal. */
  ghost predicate Untranslated(fr: Tree, propose: Proposal, t: Tree, name: string) {
    exists p, s :: LeafAt(fr, p, Text(s)) && Onto("", p) == name && Found(t, p) == Leaf(Null) && propose(name, s).None?
  }

  lemma EntryMissing(fr: Tree, propose: Proposal, t: Tree, es: Entries, i: nat)
    requires fr.Node? && Addressed(fr) && Listing(fr, es) && Nonempty(es) && i < |es|
    ensures Onto("", es[i].0) == Join(es[i].0)
    ensures Adds(propose, t, es[i]) <==> Missing(propose, t, es[i].0, es[i].1)
  {
    assert LeafAt(fr, es[i].0, es[i].1);
    NameIsJoin(es[i].0);
  }

  lemma FillStoresProposals(fr: Tree, propose: Proposal, t: Tree, es: Entries)
    requires fr.Node? && Addressed(fr) && Listing(fr, es) && Nonempty(es) && Separate(es) && t.Node?
    ensures StoresProposals(fr, propose, t, FillAll(propose, t, es))
  {
    var u := FillAll(propose, t, es);
    forall p, s | LeafAt(fr, p, Text(s)) && Missing(propose, t, p, Text(s))
      ensures LeafAt(u, p, Text(propose(Onto("", p), s).value))
    {
      var i :| 0 <= i < |es| && es[i].0 == p;
      EntryMissing(fr, propose, t, es, i);
      StoredWhenSeparate(propose, t, es, i);
      assert FilledBy(propose, t, es, i, p, Text(Proposed(propose, es[i]).value));
      LeavesAfterFill(propose, t, es, p, Text(Proposed(propose, es[i]).value));
    }
    forall p, w | LeafAt(u, p, w) && !LeafAt(t, p, w) ensures IsProposal(fr, propose, t, p, w) {
      LeavesAfterFill(propose, t, es, p, w);
      var i :| 0 <= i < |es| && FilledBy(propose, t, es, i, p, w);
      EntryMissing(fr, propose, t, es, i);
      StoredWhenSeparate(propose, t, es, i);
      assert LeafAt(fr, p, Text(es[i].1.s));
    }
  }

  lemma {:induction false} UnmatchedNamesAre(propose: Proposal, t: Tree, es: Entries, name: string)
    requires t.Node? && Nonempty(es) && Separate(es)
    ensures name in UnmatchedNames(propose, t, es) <==>
            exists i :: 0 <= i < |es| && Unmatched(propose, t, es[i]) && name == Join(es[i].0)
    decreases |es|
  {
    if es != [] {
      var n := |es| - 1;
      UnmatchedNamesAre(propose, t, es[..n], name);
      FarFromFills(propose, t, es[..n], es[n].0);
      assert forall i :: 0 <= i < n ==> es[..n][i] == es[i];
    }
  }

  lemma UnmatchedExactly(fr: Tree, propose: Proposal, t: Tree, es: Entries)
    requires fr.Node? && Addressed(fr) && Listing(fr, es) && Nonempty(es) && Separate(es) && t.Node?
    ensures forall name :: name in UnmatchedNames(propose, t, es) <==> Untranslated(fr, propose, t, name)
  {
    forall name ensures name in UnmatchedNames(propose, t, es) <==> Untranslated(fr, propose, t, name) {
      UnmatchedNamesAre(propose, t, es, name);
      if i :| 0 <= i < |es| && Unmatched(propose, t, es[i]) && name == Join(es[i].0) {
        EntryMissing(fr, propose, t, es, i);
        assert LeafAt(fr, es[i].0, Text(es[i].1.s));
      }
      if p, s :| LeafAt(fr, p, Text(s)) && Onto("", p) == name && Found(t, p) == Leaf(Null) && propose(name, s).None? {
        var i :| 0 <= i < |es| && es[i].0 == p;
        assert LeafAt(fr, p, es[i].1);
        EntryMissing(fr, propose, t, es, i);
        assert Unmatched(propose, t, es[i]);
      }
    }
  }

  function MissingEntries(propose: Proposal, t: Tree, es: Entries): set<int> {
    set i | 0 <= i < |es| && Missing(propose, t, es[i].0, es[i].1)
  }

  lemma MissingStep(propose: Proposal, t: Tree, es: Entries)
    requires es != []
    ensures var n := |es| - 1;
            |MissingEntries(propose, t, es)| ==
            |MissingEntries(propose, t, es[..n])| + if Missing(propose, t, es[n].0, es[n].1) then 1 else 0
  {
    var n := |es| - 1;
    var before, after := MissingEntries(propose, t, es[..n]), MissingEntries(propose, t, es);
    forall i ensures i in after <==> i in before || (i == n && Missing(propose, t, es[n].0, es[n].1)) {
      if 0 <= i < n { assert es[..n][i] == es[i]; }
    }
    if Missing(propose, t, es[n].0, es[n].1) {
      assert after == before + {n};
    } else {
      assert after == before;
    }
  }

  lemma {:induction false} CountByCardinality(propose: Proposal, t: Tree, es: Entries)
    requires Nonempty(es) && forall i :: 0 <= i < |es| ==> Addressable(es[i].0)
    ensures CountMissing(propose, t, es) == |MissingEntries(propose, t, es)|
    decreases |es|
  {
    if es != [] {
      var n := |es| - 1;
      CountByCardinality(propose, t, es[..n]);
      NameIsJoin(es[n].0);
      MissingStep(propose, t, es);
    }
  }

  /** The label stored for a French string is made from its path. */
  lemma LabelsTheName(fr: Tree, makeLabel: string -> string, t: Tree, u: Tree, p: Path, s: string)
    requires StoresProposals(fr, Labelled(makeLabel), t, u) && LeafAt(fr, p, Text(s)) && Found(t, p) == Leaf(Null)
    ensures LeafAt(u, p, Text(makeLabel(Onto("", p))))
  {
    assert Missing(Labelled(makeLabel), t, p, Text(s));
  }

  // ----- English values kept -----

  /** No English leaf stands above a French string that has a proposal, and none at such
      a string is null. */
  ghost predicate NothingInTheWay(propose: Proposal, t: Tree, es: Entries)
    requires Nonempty(es)
  {
    forall i, q, w :: 0 <= i < |es| && LeafAt(t, q, w) ==> !InTheWay(propose, es, i, q, w)
  }

  predicate InTheWay(propose: Proposal, es: Entries, i: nat, q: Path, w: Value)
    requires Nonempty(es) && i < |es|
  {
    Proposed(propose, es[i]).Some? && (q < es[i].0 || (q == es[i].0 && w == Null))
  }

  /** A leaf comparable to a path where `getp` finds None stands above it, or is null. */
  lemma LeafInTheWay(t: Tree, p: Path, q: Path, w: Value)
    requires Found(t, p) == Leaf(Null) && LeafAt(t, q, w) && Comparable(p, q)
    ensures q < p || (q == p && w == Null)
  {
    if p < q {
      assert p == q[..|p|];
      if Get(t, p).Some? { NothingBelowLeaf(t, p, q); }
      else if p != [] { GetPrefixNone(t, q, |p|); }
    } else {
      assert q <= p && (|q| == |p| ==> q == p);
    }
  }

  lemma {:induction false} KeptWhenClear(propose: Proposal, t: Tree, es: Entries, q: Path, w: Value)
    requires t.Node? && Nonempty(es) && LeafAt(t, q, w)
    requires forall i :: 0 <= i < |es| ==> !InTheWay(propose, es, i, q, w)
    ensures LeafAt(FillAll(propose, t, es), q, w)
    decreases |es|
  {
    if es != [] {
      var n := |es| - 1;
      forall i | 0 <= i < n ensures !InTheWay(propose, es[..n], i, q, w) {
        assert !InTheWay(propose, es, i, q, w);
      }
      KeptWhenClear(propose, t, es[..n], q, w);
      var u := FillAll(propose, t, es[..n]);
      if Adds(propose, u, es[n]) {
        assert !InTheWay(propose, es, n, q, w);
        if Comparable(es[n].0, q) { LeafInTheWay(u, es[n].0, q, w); }
        LeavesAfterSet(u, es[n].0, Text(Proposed(propose, es[n]).value), q, w);
      }
    }
  }

  /** A dictionary stays one, and what `getp` finds it goes on finding. */
  lemma TakenStays(t: Tree, p: Path, s: string, q: Path)
    requires t.Node? && p != [] && Found(t, p) == Leaf(Null)
    ensures IsNode(t, q) ==> IsNode(Set(t, p, Text(s)), q)
    ensures Found(t, q) != Leaf(Null) ==> Found(Set(t, p, Text(s)), q) != Leaf(Null)
  {
    if Comparable(p, q) {
      FoundAfterSet(t, p, s, q);
      if p < q {
        assert p == q[..|p|];
        if Get(t, p).Some? { NothingBelowLeaf(t, p, q); } else { GetPrefixNone(t, q, |p|); }
      } else if !(q < p) {
        assert p == q;
      }
    } else {
      GetAfterSet(t, p, Text(s), q);
    }
  }

  /** The loop stores below p. */
  ghost predicate BuiltUpon(propose: Proposal, t: Tree, es: Entries, p: Path)
    requires Nonempty(es)
  {
    exists i :: 0 <= i < |es| && StoredAt(propose, t, es, i) && p < es[i].0
  }

  /** The loop stores at p. */
  ghost predicate StoredFor(propose: Proposal, t: Tree, es: Entries, p: Path)
    requires Nonempty(es)
  {
    exists i :: 0 <= i < |es| && StoredAt(propose, t, es, i) && p == es[i].0
  }

  lemma BuiltUponStep(propose: Proposal, t: Tree, es: Entries, p: Path)
    requires es != [] && Nonempty(es)
    ensures var n := |es| - 1;
            BuiltUpon(propose, t, es, p) <==>
            BuiltUpon(propose, t, es[..n], p) || (StoredAt(propose, t, es, n) && p < es[n].0)
  {
    var n := |es| - 1;
    if i :| 0 <= i < |es| && StoredAt(propose, t, es, i) && p < es[i].0 {
      if i < n {
        StoredPrefix(propose, t, es, n, i);
        assert StoredAt(propose, t, es[..n], i);
      }
    }
    StoredEarlier(propose, t, es, n, p);
  }

  lemma StoredForStep(propose: Proposal, t: Tree, es: Entries, p: Path)
    requires es != [] && Nonempty(es)
    ensures var n := |es| - 1;
            StoredFor(propose, t, es, p) <==>
            StoredFor(propose, t, es[..n], p) || (StoredAt(propose, t, es, n) && p == es[n].0)
  {
    var n := |es| - 1;
    if i :| 0 <= i < |es| && StoredAt(propose, t, es, i) && p == es[i].0 {
      if i < n {
        StoredPrefix(propose, t, es, n, i);
        assert StoredAt(propose, t, es[..n], i);
      }
    }
    StoredEarlier(propose, t, es, n, p);
  }

  lemma StoredEarlier(propose: Proposal, t: Tree, es: Entries, n: nat, p: Path)
    requires Nonempty(es) && n <= |es|
    ensures StoredFor(propose, t, es[..n], p) ==> StoredFor(propose, t, es, p)
    ensures BuiltUpon(propose, t, es[..n], p) ==> BuiltUpon(propose, t, es, p)
  {
    var front := es[..n];
    if i :| 0 <= i < n && StoredAt(propose, t, front, i) && p == front[i].0 {
      StoredPrefix(propose, t, es, n, i);
      assert StoredAt(propose, t, es, i);
    }
    if i :| 0 <= i < n && StoredAt(propose, t, front, i) && p < front[i].0 {
      StoredPrefix(propose, t, es, n, i);
      assert StoredAt(propose, t, es, i);
    }
  }

  /** What the loop built upon is a dictionary from then on; what it stored at stays taken. */
  lemma {:induction false} StoredStays(propose: Proposal, t: Tree, es: Entries, p: Path)
    requires t.Node? && Nonempty(es)
    ensures BuiltUpon(propose, t, es, p) ==> IsNode(FillAll(propose, t, es), p)
    ensures StoredFor(propose, t, es, p) ==> Found(FillAll(propose, t, es), p) != Leaf(Null)
    decreases |es|
  {
    if es != [] {
      var n := |es| - 1;
      var u := FillAll(propose, t, es[..n]);
      StoredStays(propose, t, es[..n], p);
      BuiltUponStep(propose, t, es, p);
      StoredForStep(propose, t, es, p);
      LastRound(propose, t, es);
      if StoredAt(propose, t, es, n) {
        TakenStays(u, es[n].0, Proposed(propose, es[n]).value, p);
        if Comparable(es[n].0, p) { FoundAfterSet(u, es[n].0, Proposed(propose, es[n]).value, p); }
      }
    }
  }

  /** A path where `getp` found None and finds something after the loop was stored at or
      built upon. */
  lemma {:induction false} ClosedBy(propose: Proposal, t: Tree, es: Entries, p: Path)
    requires Nonempty(es) && Found(t, p) == Leaf(Null) && !Open(propose, t, es, p)
    ensures StoredFor(propose, t, es, p) || BuiltUpon(propose, t, es, p)
    decreases |es|
  {
    var n := |es| - 1;
    BuiltUponStep(propose, t, es, p);
    StoredForStep(propose, t, es, p);
    if StoredAt(propose, t, es, n) && Comparable(es[n].0, p) {
      assert p <= es[n].0;
      assert |p| == |es[n].0| ==> p == es[n].0;
    } else {
      ClosedBy(propose, t, es[..n], p);
    }
  }

  lemma LostWhenInTheWay(propose: Proposal, t: Tree, es: Entries, i: nat, q: Path, w: Value)
    requires t.Node? && Nonempty(es) && i < |es| && LeafAt(t, q, w) && InTheWay(propose, es, i, q, w)
    ensures !LeafAt(FillAll(propose, t, es), q, w)
  {
    var p := es[i].0;
    if q < p { NothingBelowLeaf(t, q, p); }
    assert Found(t, p) == Leaf(Null);
    if StoredAt(propose, t, es, i) {
      assert StoredFor(propose, t, es, p);
      assert q < p ==> BuiltUpon(propose, t, es, q);
    } else {
      ClosedBy(propose, t, es[..i], p);
      StoredEarlier(propose, t, es, i, p);
      assert q < p && StoredFor(propose, t, es, p) ==> BuiltUpon(propose, t, es, q);
      if BuiltUpon(propose, t, es, p) {
        var j :| 0 <= j < |es| && StoredAt(propose, t, es, j) && p < es[j].0;
        assert q < es[j].0;
        assert BuiltUpon(propose, t, es, q);
      }
    }
    StoredStays(propose, t, es, q);
  }

  /** Every earlier English value survives the loop exactly when nothing is in the way. */
  lemma EnglishKeptExactly(propose: Proposal, t: Tree, es: Entries)
    requires t.Node? && Nonempty(es)
    ensures (forall q, w :: LeafAt(t, q, w) ==> LeafAt(FillAll(propose, t, es), q, w)) <==>
        NothingInTheWay(propose, t, es)
  {
    if NothingInTheWay(propose, t, es) {
      forall q, w | LeafAt(t, q, w) ensures LeafAt(FillAll(propose, t, es), q, w) {
        KeptWhenClear(propose, t, es, q, w);
      }
    } else {
      var i, q, w :| 0 <= i < |es| && LeafAt(t, q, w) && InTheWay(propose, es, i, q, w);
      LostWhenInTheWay(propose, t, es, i, q, w);
    }
  }

  // ----- English strings afterwards -----

  /** The English tree has a string at p. */
  ghost predicate HasText(t: Tree, p: Path) {
    exists s :: LeafAt(t, p, Text(s))
  }

  /** There was a string at p or the loop stores one, and it stores nothing below p. */
  ghost predicate TextAfter(propose: Proposal, t: Tree, es: Entries, p: Path)
    requires Nonempty(es)
  {
    (HasText(t, p) || StoredFor(propose, t, es, p)) && !BuiltUpon(propose, t, es, p)
  }

  lemma TextAfterSet(t: Tree, p: Path, s: string, q: Path)
    requires t.Node? && p != [] && Found(t, p) == Leaf(Null)
    ensures HasText(Set(t, p, Text(s)), q) <==> q == p || (HasText(t, q) && !(q < p))
  {
    forall r ensures LeafAt(Set(t, p, Text(s)), q, Text(r)) <==>
                     (q == p && r == s) || (LeafAt(t, q, Text(r)) && !(q <= p)) {
      LeavesAfterSet(t, p, Text(s), q, Text(r));
      if LeafAt(t, q, Text(r)) && Comparable(p, q) { LeafInTheWay(t, p, q, Text(r)); }
    }
    if q == p {
      assert LeafAt(Set(t, p, Text(s)), q, Text(s));
    }
  }

  /** A path holds an English string after the loop exactly when it held one or the loop
      stored one there, and the loop stored nothing below it. */
  lemma {:induction false} CoveredExactly(propose: Proposal, t: Tree, es: Entries, p: Path)
    requires t.Node? && Nonempty(es)
    ensures HasText(FillAll(propose, t, es), p) <==> TextAfter(propose, t, es, p)
    decreases |es|
  {
    if es != [] {
      var n := |es| - 1;
      CoveredExactly(propose, t, es[..n], p);
      LastRound(propose, t, es);
      BuiltUponStep(propose, t, es, p);
      StoredForStep(propose, t, es, p);
      if StoredAt(propose, t, es, n) {
        TextAfterSet(FillAll(propose, t, es[..n]), es[n].0, Proposed(propose, es[n]).value, p);
        StoredStays(propose, t, es[..n], p);
      }
    }
  }

  /** When no name is another one or a dotted beginning of another, a French string has an
      English one after the loop exactly when it had one, or `getp` found None there and
      there was a proposal. */
  lemma CoveredWhenSeparate(propose: Proposal, t: Tree, es: Entries, i: nat)
    requires t.Node? && Nonempty(es) && Separate(es) && i < |es|
    ensures HasText(FillAll(propose, t, es), es[i].0) <==> HasText(t, es[i].0) || Adds(propose, t, es[i])
  {
    var p := es[i].0;
    CoveredExactly(propose, t, es, p);
    StoredWhenSeparate(propose, t, es, i);
    assert forall j :: 0 <= j < |es| && Comparable(es[j].0, p) ==> j == i;
    assert StoredFor(propose, t, es, p) <==> StoredAt(propose, t, es, i);
  }

  // ----- the coherence check afterwards -----

  /** s is the name of a string leaf. */
  ghost predicate NamesText(t: Tree, s: string) {
    exists p :: HasText(t, p) && s == Onto("", p)
  }

  /** collect_json_keys: the names of the string leaves. */
  method CollectKeys(t: Tree) returns (keys: set<string>)
    ensures forall s :: s in keys <==> NamesText(t, s)
  {
    var out, es := Walk(t, "");
    keys := {};
    for i := 0 to |out|
      invariant forall s :: s in keys <==> exists j :: 0 <= j < i && out[j].1.Text? && s == out[j].0
    {
      if out[i].1.Text? {
        keys := keys + {out[i].0};
      }
    }
    forall s ensures s in keys <==> NamesText(t, s) {
      if s in keys {
        var j :| 0 <= j < |out| && out[j].1.Text? && s == out[j].0;
        assert LeafAt(t, es[j].0, Text(out[j].1.s));
        assert HasText(t, es[j].0);
      }
      if p :| HasText(t, p) && s == Onto("", p) {
        var w :| LeafAt(t, p, Text(w));
        var j :| 0 <= j < |es| && es[j].0 == p;
        assert out[j].0 == s && out[j].1.Text?;
      }
    }
  }

  /** The check's "FR keys without EN" and "EN keys without FR", compared by name; when the
      keys of both trees are non-empty and dot-free, that is by path. */
  method OnlyKeys(fr: Tree, en: Tree) returns (frOnly: set<string>, enOnly: set<string>)
    ensures forall s :: s in frOnly <==> NamesText(fr, s) && !NamesText(en, s)
    ensures forall s :: s in enOnly <==> NamesText(en, s) && !NamesText(fr, s)
    ensures WellKeyed(fr) && WellKeyed(en) ==> (frOnly == {} <==> forall p :: HasText(fr, p) ==> HasText(en, p))
    ensures WellKeyed(fr) && WellKeyed(en) ==> (enOnly == {} <==> forall p :: HasText(en, p) ==> HasText(fr, p))
  {
    var frKeys := CollectKeys(fr);
    var enKeys := CollectKeys(en);
    frOnly, enOnly := frKeys - enKeys, enKeys - frKeys;
    if WellKeyed(fr) && WellKeyed(en) {
      KeysInclude(fr, en, frKeys, enKeys);
      KeysInclude(en, fr, enKeys, frKeys);
    }
  }

  lemma KeysInclude(t: Tree, u: Tree, ts: set<string>, us: set<string>)
    requires WellKeyed(t) && WellKeyed(u)
    requires forall s :: s in ts <==> NamesText(t, s)
    requires forall s :: s in us <==> NamesText(u, s)
    ensures ts - us == {} <==> forall p :: HasText(t, p) ==> HasText(u, p)
  {
    if ts - us == {} {
      forall p | HasText(t, p) ensures HasText(u, p) {
        assert NamesText(t, Onto("", p));
        assert Onto("", p) in us by { assert Onto("", p) !in ts - us; }
        NameIsPath(u, t, p);
      }
    }
    if s :| s in ts - us {
      var p :| HasText(t, p) && s == Onto("", p);
      assert !HasText(u, p);
    }
  }

  lemma NameIsPath(u: Tree, t: Tree, p: Path)
    requires WellKeyed(t) && WellKeyed(u) && HasText(t, p) && NamesText(u, Onto("", p))
    ensures HasText(u, p)
  {
    var q :| HasText(u, q) && Onto("", p) == Onto("", q);
    PathsAreGood(t, p);
    PathsAreGood(u, q);
    OntoInjective("", p, q);
  }

  lemma {:induction false} SetKeepsWellKeyed(t: Tree, p: Path, v: Value)
    requires t.Node? && WellKeyed(t) && p != [] && GoodPath(p)
    ensures WellKeyed(Set(t, p, v))
    decreases p
  {
    assert GoodKey(p[0]);
    if |p| > 1 {
      var child := if p[0] in t.kids && t.kids[p[0]].Node? then t.kids[p[0]] else EMPTY;
      assert GoodPath(p[1..]);
      SetKeepsWellKeyed(child, p[1..], v);
    }
  }

  /** The filled catalogue is again one the check can read. */
  lemma {:induction false} FillKeepsWellKeyed(propose: Proposal, t: Tree, es: Entries)
    requires t.Node? && WellKeyed(t) && Nonempty(es)
    requires forall i :: 0 <= i < |es| ==> GoodPath(es[i].0)
    ensures WellKeyed(FillAll(propose, t, es))
    decreases |es|
  {
    if es != [] {
      var n := |es| - 1;
      FillKeepsWellKeyed(propose, t, es[..n]);
      var u, e := FillAll(propose, t, es[..n]), es[n];
      if Adds(propose, u, e) {
        SetKeepsWellKeyed(u, e.0, Text(Proposed(propose, e).value));
      }
    }
  }

  function Labelled(makeLabel: string -> string): Proposal {
    (path, text) => Some(makeLabel(path))
  }

  /** After the snake_case fill, no French string lacks an English one -- so the check's
      "FR keys without EN" is empty -- exactly when, before it, `getp` found a string or
      None at every French string's path: never a dictionary, a number or a list. */
  lemma SeedingClosesTheGap(fr: Tree, t: Tree, makeLabel: string -> string, es: Entries)
    requires fr.Node? && Addressed(fr) && Listing(fr, es) && t.Node?
    ensures es == Resplit(Named("", es)) && Nonempty(es)
    ensures WellKeyed(fr) && WellKeyed(t) ==> WellKeyed(FillAll(Labelled(makeLabel), t, es))
    ensures (forall p :: HasText(fr, p) ==> HasText(FillAll(Labelled(makeLabel), t, es), p))
            <==> (forall p :: HasText(fr, p) ==> HasText(t, p) || Found(t, p) == Leaf(Null))
  {
    ResplitListing(fr, es);
    ListingIsSeparate(fr, es);
    if WellKeyed(fr) && WellKeyed(t) {
      forall i | 0 <= i < |es| ensures GoodPath(es[i].0) {
        PathsAreGood(fr, es[i].0);
      }
      FillKeepsWellKeyed(Labelled(makeLabel), t, es);
    }
    forall p | HasText(fr, p)
      ensures HasText(FillAll(Labelled(makeLabel), t, es), p) <==> HasText(t, p) || Found(t, p) == Leaf(Null)
    {
      var s :| LeafAt(fr, p, Text(s));
      var i :| 0 <= i < |es| && es[i].0 == p;
      CoveredWhenSeparate(Labelled(makeLabel), t, es, i);
    }
  }

  // ----- the same by name, whatever the keys -----

  /** A string of that name is left by the loop. */
  ghost predicate NamedAfter(propose: Proposal, t: Tree, es: Entries, s: string)
    requires Nonempty(es)
  {
    exists p :: Onto("", p) == s && TextAfter(propose, t, es, p)
  }

  lemma NamesAfterFill(propose: Proposal, t: Tree, es: Entries, s: string)
    requires t.Node? && Nonempty(es)
    ensures NamesText(FillAll(propose, t, es), s) <==> NamedAfter(propose, t, es, s)
  {
    forall p ensures HasText(FillAll(propose, t, es), p) <==> TextAfter(propose, t, es, p) {
      CoveredExactly(propose, t, es, p);
    }
    if p :| Onto("", p) == s && TextAfter(propose, t, es, p) {
      assert HasText(FillAll(propose, t, es), p);
    }
    if p :| HasText(FillAll(propose, t, es), p) && s == Onto("", p) {
      assert TextAfter(propose, t, es, p);
    }
  }

  /** For any trees: the check's "FR keys without EN" is empty after the loop exactly when,
      for every French string's name, some path of that name held an English string or was
      stored at, and nothing was stored below it. */
  lemma GapClosedExactly(fr: Tree, propose: Proposal, t: Tree, es: Entries)
    requires t.Node? && Nonempty(es)
    ensures (forall s :: NamesText(fr, s) ==> NamesText(FillAll(propose, t, es), s)) <==>
            (forall s :: NamesText(fr, s) ==> NamedAfter(propose, t, es, s))
  {
    forall s ensures NamesText(FillAll(propose, t, es), s) <==> NamedAfter(propose, t, es, s) {
      NamesAfterFill(propose, t, es, s);
    }
  }

  /** Some string leaf named s has nothing stored at, above or below it. */
  ghost predicate NamedBeside(propose: Proposal, t: Tree, es: Entries, s: string)
    requires Nonempty(es)
  {
    exists p :: HasText(t, p) && Onto("", p) == s && Undisturbed(propose, t, es, -1, p)
  }

  lemma NamedAfterPath(propose: Proposal, t: Tree, es: Entries, i: nat, p: Path)
    requires t.Node? && Nonempty(es) && Separate(es) && (forall j :: 0 <= j < |es| ==> Addressable(es[j].0))
    requires i < |es| && Onto("", p) == Join(es[i].0)
    ensures TextAfter(propose, t, es, p) ==>
              Adds(propose, t, es[i]) || (HasText(t, p) && Undisturbed(propose, t, es, -1, p))
    ensures HasText(t, p) && Undisturbed(propose, t, es, -1, p) ==> TextAfter(propose, t, es, p)
  {
    if TextAfter(propose, t, es, p) {
      if j :| 0 <= j < |es| && StoredAt(propose, t, es, j) && p == es[j].0 {
        NameIsJoin(p);
        SplitJoin(p);
        SplitJoin(es[i].0);
        StoredWhenSeparate(propose, t, es, j);
      } else {
        var s :| LeafAt(t, p, Text(s));
        CoveredExactly(propose, t, es, p);
        var r :| LeafAt(FillAll(propose, t, es), p, Text(r));
        LeavesAfterFill(propose, t, es, p, Text(r));
      }
    }
  }

  /** After the snake_case fill a French string's name is an English one exactly when `getp`
      found None for it, or an English string of that name is out of the loop's way. */
  lemma NamedAfterFill(t: Tree, makeLabel: string -> string, es: Entries, i: nat)
    requires t.Node? && Nonempty(es) && Separate(es) && (forall j :: 0 <= j < |es| ==> Addressable(es[j].0))
    requires i < |es| && es[i].1.Text?
    ensures NamesText(FillAll(Labelled(makeLabel), t, es), Join(es[i].0)) <==>
            Found(t, es[i].0) == Leaf(Null) || NamedBeside(Labelled(makeLabel), t, es, Join(es[i].0))
  {
    var propose, s := Labelled(makeLabel), Join(es[i].0);
    NamesAfterFill(propose, t, es, s);
    NameIsJoin(es[i].0);
    if Found(t, es[i].0) == Leaf(Null) {
      CoveredWhenSeparate(propose, t, es, i);
      assert HasText(FillAll(propose, t, es), es[i].0);
    }
    if p :| HasText(t, p) && Onto("", p) == s && Undisturbed(propose, t, es, -1, p) {
      NamedAfterPath(propose, t, es, i, p);
    }
    if p :| Onto("", p) == s && TextAfter(propose, t, es, p) {
      NamedAfterPath(propose, t, es, i, p);
    }
  }

  /** Keys may hold dots, as long as no French name is another one or a dotted beginning of
      another, and no name of several parts begins with an empty one.  The check's "FR keys
      without EN" is then empty after the fill exactly when, for every French string, `getp`
      found None or an English string of its name is out of the loop's way. */
  lemma SeedingClosesTheGapByName(fr: Tree, t: Tree, makeLabel: string -> string, listed: Entries, es: Entries)
    requires Listing(fr, listed) && es == Resplit(Named("", listed)) && t.Node?
    requires Separate(es) && forall j :: 0 <= j < |es| ==> Addressable(es[j].0)
    ensures (forall s :: NamesText(fr, s) ==> NamesText(FillAll(Labelled(makeLabel), t, es), s)) <==>
            (forall s :: NamesText(fr, s) ==>
              Found(t, Split(s)) == Leaf(Null) || NamedBeside(Labelled(makeLabel), t, es, s))
  {
    forall s | NamesText(fr, s)
      ensures NamesText(FillAll(Labelled(makeLabel), t, es), s) <==>
              Found(t, Split(s)) == Leaf(Null) || NamedBeside(Labelled(makeLabel), t, es, s)
    {
      var p :| HasText(fr, p) && s == Onto("", p);
      var w :| LeafAt(fr, p, Text(w));
      var i :| 0 <= i < |listed| && listed[i].0 == p;
      assert LeafAt(fr, p, listed[i].1);
      JoinSplit(s);
      NamedAfterFill(t, makeLabel, es, i);
    }
  }

  // ----- the failing sides -----

  /** Under a dotted key `getp` does not find what `walk` named: the loop stores a label for
      a French string that English already has. */
  lemma DottedKeyFilledAgain(makeLabel: string -> string)
    ensures
      var t := Node(map["a.b" := Leaf(Text("x"))]);
      var listed, es := [(["a.b"], Text("x"))], [(["a", "b"], Text("x"))];
      && Listing(t, listed) && es == Resplit(Named("", listed)) && NamesText(t, "a.b")
      && CountAdds(Labelled(makeLabel), t, es) == 1
  {
    var t := Node(map["a.b" := Leaf(Text("x"))]);
    var listed, es := [(["a.b"], Text("x"))], [(["a", "b"], Text("x"))];
    assert ["a.b"][1..] == [];
    assert LeafAt(t, ["a.b"], Text("x"));
    forall p, v | LeafAt(t, p, v) ensures Lists(listed, p) {
      assert p != [] && p[0] == "a.b" && Get(Leaf(Text("x")), p[1..]) == Some(Leaf(v));
      assert p[1..] == [];
      assert p == [p[0]] + p[1..];
      assert listed[0].0 == p;
    }
    assert Onto("", ["a.b"]) == "a.b";
    SplitAtFirstDot("a", "b");
    SplitAtFirstDot("b", "");
    assert "a" + "." + "b" == "a.b";
    assert Split("a.b") == ["a"] + ["b"] == ["a", "b"];
    assert HasText(t, ["a.b"]);
    assert "a" != "a.b" by { assert |"a"| != |"a.b"|; }
    assert Found(t, es[0].0) == Leaf(Null);
    assert es[..0] == [];
    assert Adds(Labelled(makeLabel), FillAll(Labelled(makeLabel), t, es[..0]), es[0]);
  }

  /** A dictionary with one entry, a dictionary with one entry. */
  function Nested(k: string, l: string, u: Tree): Tree {
    Node(map[k := Node(map[l := u])])
  }

  lemma NestedGet(k: string, l: string, u: Tree)
    ensures Get(Nested(k, l, u), [k, l]) == Some(u)
  {
    assert [k, l][1..] == [l] && [l][1..] == [];
    assert Get(Node(map[l := u]), [l]) == Some(u);
  }

  lemma NestedLeaf(k: string, l: string, v: Value, p: Path, w: Value)
    requires LeafAt(Nested(k, l, Leaf(v)), p, w)
    ensures p == [k, l]
  {
    var inner := Node(map[l := Leaf(v)]);
    assert p != [] && p[0] == k && Get(inner, p[1..]) == Some(Leaf(w));
    assert p[1..] != [] && p[1..][0] == l && Get(Leaf(v), p[1..][1..]) == Some(Leaf(w));
    assert p[1..][1..] == [];
    assert p == [k] + ([l] + p[1..][1..]);
  }

  lemma NestedListing(k: string, l: string, v: Value)
    ensures Listing(Nested(k, l, Leaf(v)), [([k, l], v)])
  {
    var es := [([k, l], v)];
    NestedGet(k, l, Leaf(v));
    forall p, w | LeafAt(Nested(k, l, Leaf(v)), p, w) ensures Lists(es, p) {
      NestedLeaf(k, l, v, p, w);
      assert es[0].0 == p;
    }
  }

  /** French has menu.open where English has the string menu: the loop stores over it. */
  lemma EnglishOverwritten(makeLabel: string -> string)
    ensures
      var fr := Nested("menu", "open", Leaf(Text("Ouvrir")));
      var en := Node(map["menu" := Leaf(Text("Menu"))]);
      var es := [(["menu", "open"], Text("Ouvrir"))];
      Listing(fr, es) && LeafAt(en, ["menu"], Text("Menu"))
      && !LeafAt(FillAll(Labelled(makeLabel), en, es), ["menu"], Text("Menu"))
  {
    var fr := Nested("menu", "open", Leaf(Text("Ouvrir")));
    var en := Node(map["menu" := Leaf(Text("Menu"))]);
    var es := [(["menu", "open"], Text("Ouvrir"))];
    NestedListing("menu", "open", Text("Ouvrir"));
    assert ["menu"][1..] == [] && ["menu"] <= ["menu", "open"];
    assert LeafAt(en, ["menu"], Text("Menu"));
    LostWhenInTheWay(Labelled(makeLabel), en, es, 0, ["menu"], Text("Menu"));
  }

  /** English has a dictionary where French has the string menu.open: the loop leaves the
      gap. */
  lemma GapLeft(makeLabel: string -> string)
    ensures
      var fr := Nested("menu", "open", Leaf(Text("Ouvrir")));
      var en := Nested("menu", "open", EMPTY);
      var es := [(["menu", "open"], Text("Ouvrir"))];
      Listing(fr, es) && HasText(fr, ["menu", "open"])
      && !HasText(FillAll(Labelled(makeLabel), en, es), ["menu", "open"])
  {
    var fr := Nested("menu", "open", Leaf(Text("Ouvrir")));
    var en := Nested("menu", "open", EMPTY);
    var es := [(["menu", "open"], Text("Ouvrir"))];
    NestedListing("menu", "open", Text("Ouvrir"));
    assert LeafAt(fr, es[0].0, Text("Ouvrir"));
    NestedGet("menu", "open", EMPTY);
    CoveredWhenSeparate(Labelled(makeLabel), en, es, 0);
  }
}
