/** The Alembic revision history and the audit that asks it for exactly one head.

    A revision map sends each revision to the list of its parents; parents that are not
    keys are allowed, as in the script. */
module MigrationGraph {
  import opened Wrappers

  type Rev = string
  type RevMap = map<Rev, seq<Rev>>

  // ----- reading a migration file -----

  /** The shapes of expression the parser tells apart; a constant carries its text and
      whether Python counts it as true. */
  datatype Expr =
    | Constant(text: string, truthy: bool)
    | Listing(elements: seq<Expr>)
    | Other

  /** A module-level statement: an assignment to one name (plain or annotated, with or
      without a value), or anything else. */
  datatype Stmt = Assign(name: string, value: Option<Expr>) | Skip

  datatype Header = Header(rev: Option<Rev>, down: Option<seq<Rev>>)

  function TruthyTexts(es: seq<Expr>): seq<Rev> {
    if es == [] then []
    else (if es[0].Constant? && es[0].truthy then [es[0].text] else []) + TruthyTexts(es[1..])
  }

  predicate SetsRev(s: Stmt) {
    s.Assign? && s.name == "revision" && s.value.Some? && s.value.value.Constant?
  }

  predicate SetsDown(s: Stmt) {
    s.Assign? && s.name == "down_revision" && s.value.Some? && !s.value.value.Other?
  }

  function RevOf(s: Stmt): Option<Rev>
    requires SetsRev(s)
  {
    if s.value.value.truthy then Some(s.value.value.text) else None
  }

  function DownOf(s: Stmt): seq<Rev>
    requires SetsDown(s)
  {
    match s.value.value
    case Constant(text, truthy) => if truthy then [text] else []
    case Listing(es) => TruthyTexts(es)
  }

  /** i is the position of the last of the first n statements that satisfies P. */
  ghost predicate LastAt(body: seq<Stmt>, n: nat, P: Stmt -> bool, i: nat) {
    i < n <= |body| && P(body[i]) && forall j :: i < j < n ==> !P(body[j])
  }

  ghost predicate NoneAt(body: seq<Stmt>, n: nat, P: Stmt -> bool) {
    n <= |body| && forall j :: 0 <= j < n ==> !P(body[j])
  }

  /** rev is what the first n statements make of the revision. */
  ghost predicate GivesRev(body: seq<Stmt>, n: nat, rev: Option<Rev>) {
    && (NoneAt(body, n, SetsRev) ==> rev == None)
    && (forall i: nat :: LastAt(body, n, SetsRev, i) ==> rev == RevOf(body[i]))
  }

  /** down is what they make of the parents. */
  ghost predicate GivesDown(body: seq<Stmt>, n: nat, down: Option<seq<Rev>>) {
    && (NoneAt(body, n, SetsDown) ==> down == None)
    && (forall i: nat :: LastAt(body, n, SetsDown, i) ==> down == Some(DownOf(body[i])))
  }

  /** One more statement: it is the last of its kind, or the last so far stays so. */
  lemma LastStep(body: seq<Stmt>, P: Stmt -> bool, k: nat, n: nat)
    requires k < n == k + 1 <= |body|
    ensures P(body[k]) ==> !NoneAt(body, n, P) && forall i: nat :: LastAt(body, n, P, i) ==> i == k
    ensures !P(body[k]) ==> (NoneAt(body, n, P) <==> NoneAt(body, k, P))
    ensures !P(body[k]) ==> forall i: nat :: LastAt(body, n, P, i) ==> LastAt(body, k, P, i)
  {
  }

  lemma ListedParent(e: Expr)
    ensures TruthyTexts([e]) == if e.Constant? && e.truthy then [e.text] else []
  {
    assert [e][1..] == [];
  }

  /** The parents of a tuple or list are those of its elements, in order. */
  lemma {:induction false} ListedParents(a: seq<Expr>, b: seq<Expr>)
    ensures TruthyTexts(a + b) == TruthyTexts(a) + TruthyTexts(b)
    decreases |a|
  {
    if a == [] {
      assert a + b == b;
    } else {
      ListedParents(a[1..], b);
      assert (a + b)[1..] == a[1..] + b && (a + b)[0] == a[0];
      var first := if a[0].Constant? && a[0].truthy then [a[0].text] else [];
      assert first + (TruthyTexts(a[1..]) + TruthyTexts(b)) == (first + TruthyTexts(a[1..])) + TruthyTexts(b);
    }
  }

  /** Statement i is the last that assigns a value of this kind to the name. */
  ghost predicate LastAssigned(body: seq<Stmt>, i: nat, name: string, value: Expr, lists: bool) {
    && i < |body| && body[i] == Assign(name, Some(value)) && (value.Constant? || (lists && value.Listing?))
    && forall j :: i < j < |body| && body[j].Assign? && body[j].name == name && body[j].value.Some? ==>
         body[j].value.value.Other? || (!lists && body[j].value.value.Listing?)
  }

  /** No statement assigns a value of this kind to the name. */
  ghost predicate NeverAssigned(body: seq<Stmt>, name: string, lists: bool) {
    forall j :: 0 <= j < |body| && body[j].Assign? && body[j].name == name && body[j].value.Some? ==>
      body[j].value.value.Other? || (!lists && body[j].value.value.Listing?)
  }

  /** The last assignment of each name wins, even one that resets it. */
  method ParseMigration(body: seq<Stmt>) returns (h: Header)
    ensures GivesRev(body, |body|, h.rev) && GivesDown(body, |body|, h.down)
    ensures forall i, v :: LastAssigned(body, i, "revision", v, false) ==>
              h.rev == if v.truthy then Some(v.text) else None
    ensures NeverAssigned(body, "revision", false) ==> h.rev == None
    ensures NeverAssigned(body, "down_revision", true) ==> h.down == None
    ensures forall i, v :: LastAssigned(body, i, "down_revision", v, true) ==>
              h.down == Some(if v.Listing? then TruthyTexts(v.elements) else if v.truthy then [v.text] else [])
  {
    var rev: Option<Rev>, down: Option<seq<Rev>> := None, None;
    for k := 0 to |body|
      invariant GivesRev(body, k, rev) && GivesDown(body, k, down)
    {
      LastStep(body, SetsRev, k, k + 1);
      LastStep(body, SetsDown, k, k + 1);
      if SetsRev(body[k]) {
        rev := RevOf(body[k]);
      } else if SetsDown(body[k]) {
        down := Some(DownOf(body[k]));
      }
    }
    h := Header(rev, down);
    forall i, v | LastAssigned(body, i, "revision", v, false) ensures LastAt(body, |body|, SetsRev, i) {}
    forall i, v | LastAssigned(body, i, "down_revision", v, true) ensures LastAt(body, |body|, SetsDown, i) {}
  }

  // ----- the graph -----

  predicate IsParent(revs: RevMap, parent: Rev, child: Rev) {
    child in revs && parent in revs[child]
  }

  /** Everything named as a parent. */
  ghost predicate HasChild(revs: RevMap, r: Rev) {
    exists c :: IsParent(revs, r, c)
  }

  ghost predicate IsHead(revs: RevMap, r: Rev) {
    r in revs && !HasChild(revs, r)
  }

  ghost function Heads(revs: RevMap): set<Rev> {
    set r | r in revs && !HasChild(revs, r)
  }

  /** path runs from an ancestor down to a descendant, parent to child. */
  predicate Path(revs: RevMap, path: seq<Rev>) {
    && path != []
    && (forall i :: 0 <= i < |path| ==> path[i] in revs)
    && (forall i :: 0 <= i < |path| - 1 ==> IsParent(revs, path[i], path[i + 1]))
  }

  /** a is d or an ancestor of d. */
  ghost predicate Reaches(revs: RevMap, a: Rev, d: Rev) {
    exists path :: Path(revs, path) && path[0] == a && path[|path| - 1] == d
  }

  ghost predicate Acyclic(revs: RevMap) {
    forall path :: Path(revs, path) && |path| >= 2 ==> path[0] != path[|path| - 1]
  }

  /** Upgrading to t applies every revision. */
  ghost predicate Covers(revs: RevMap, t: Rev) {
    t in revs && forall r :: r in revs ==> Reaches(revs, r, t)
  }

  // ----- the audit -----

  /** The loops of `main`: collect the usable headers, collect the children set, select
      the heads; the exit code is 0 for exactly one. */
  method Audit(files: seq<Header>) returns (revs: RevMap, heads: set<Rev>, code: int)
    ensures revs == Collect(files) && CollectsLast(files, revs)
    ensures heads == Heads(revs)
    ensures forall r :: r in heads <==> r in revs && !NamedAsParent(files, r)
    ensures code == 0 <==> |heads| == 1
    ensures code == 0 || code == 1
  {
    revs := map[];
    for k := 0 to |files|
      invariant revs == Collect(files[..k])
    {
      assert files[..k + 1][..k] == files[..k];
      if Usable(files[k]) {
        revs := revs[files[k].rev.value := files[k].down.value];
      }
    }
    assert files[..|files|] == files;
    var children: set<Rev> := {};
    var todo := revs.Keys;
    while todo != {}
      invariant todo <= revs.Keys
      invariant forall r :: r in children <==> exists c :: c in revs.Keys - todo && r in revs[c]
      decreases |todo|
    {
      var c :| c in todo;
      children := children + (set r | r in revs[c]);
      todo := todo - {c};
    }
    forall r ensures r in children <==> HasChild(revs, r) {
      if r in children {
        var c :| c in revs.Keys && r in revs[c];
        assert IsParent(revs, r, c);
      }
    }
    heads := set r | r in revs && r !in children;
    code := if |heads| != 1 then 1 else 0;
    CollectedLast(files);
    ParentsFromFiles(files, revs);
  }

  /** File k gives revision r and its parents, and no later file does. */
  ghost predicate LastFile(files: seq<Header>, k: nat, r: Rev) {
    && k < |files| && files[k].rev == Some(r) && r != "" && files[k].down.Some?
    && forall j :: k < j < |files| && files[j].rev == Some(r) ==> files[j].down.None?
  }

  /** The map has the revisions some file gives, each with the parents of the last such
      file. */
  ghost predicate CollectsLast(files: seq<Header>, revs: RevMap) {
    && (forall r :: r in revs ==> exists k :: 0 <= k < |files| && LastFile(files, k, r))
    && (forall r, k: nat :: LastFile(files, k, r) ==> r in revs && revs[r] == files[k].down.value)
  }

  /** The last file of some revision names r as a parent. */
  ghost predicate NamedAsParent(files: seq<Header>, r: Rev) {
    exists k, c :: 0 <= k < |files| && LastFile(files, k, c) && r in files[k].down.value
  }

  lemma LastFileStep(files: seq<Header>, k: nat, r: Rev)
    requires files != []
    ensures var n := |files| - 1;
            LastFile(files, k, r) <==>
            if r != "" && files[n].rev == Some(r) && files[n].down.Some? then k == n else LastFile(files[..n], k, r)
  {
    var n := |files| - 1;
    var front := files[..n];
    assert forall j :: 0 <= j < n ==> front[j] == files[j];
    if k < n {
      assert LastFile(files, k, r) ==> !(files[n].rev == Some(r) && files[n].down.Some?);
    }
  }

  lemma {:induction false} CollectedLast(files: seq<Header>)
    ensures CollectsLast(files, Collect(files))
    decreases |files|
  {
    if files != [] {
      var n := |files| - 1;
      CollectedLast(files[..n]);
      forall r, k: nat | LastFile(files, k, r) ensures r in Collect(files) && Collect(files)[r] == files[k].down.value {
        LastFileStep(files, k, r);
      }
      forall r | r in Collect(files) ensures exists k :: 0 <= k < |files| && LastFile(files, k, r) {
        if r != "" && files[n].rev == Some(r) && files[n].down.Some? {
          LastFileStep(files, n, r);
        } else {
          var k :| 0 <= k < n && LastFile(files[..n], k, r);
          LastFileStep(files, k, r);
          assert LastFile(files, k, r);
        }
      }
    }
  }

  lemma ParentsFromFiles(files: seq<Header>, revs: RevMap)
    requires CollectsLast(files, revs)
    ensures forall r :: HasChild(revs, r) <==> NamedAsParent(files, r)
  {
    forall r ensures HasChild(revs, r) <==> NamedAsParent(files, r) {
      if c :| IsParent(revs, r, c) {
        var k :| 0 <= k < |files| && LastFile(files, k, c);
        assert r in files[k].down.value;
      }
      if k, c :| 0 <= k < |files| && LastFile(files, k, c) && r in files[k].down.value {
        assert IsParent(revs, r, c);
      }
    }
  }

  /** The shape of a merge: a root, two branches, and a revision that names both. */
  lemma MergedBranches() returns (revs: RevMap)
    ensures revs == Collect([Header(Some("a"), Some([])), Header(Some("b"), Some(["a"])),
                             Header(Some("c"), Some(["a"])), Header(Some("m"), Some(["b", "c"]))])
    ensures Heads(revs) == {"m"}
  {
    var files := [Header(Some("a"), Some([])), Header(Some("b"), Some(["a"])), Header(Some("c"), Some(["a"])),
                  Header(Some("m"), Some(["b", "c"]))];
    revs := map["a" := [], "b" := ["a"], "c" := ["a"], "m" := ["b", "c"]];
    assert files[..3] == [files[0], files[1], files[2]] && files[..3][..2] == [files[0], files[1]];
    assert files[..3][..2][..1] == [files[0]] && files[..3][..2][..1][..0] == [];
    assert Collect(files[..3][..2][..1]) == map["a" := []];
    assert Collect(files[..3][..2]) == map["a" := [], "b" := ["a"]];
    assert Collect(files[..3]) == map["a" := [], "b" := ["a"], "c" := ["a"]];
    assert IsParent(revs, "a", "b") && IsParent(revs, "b", "m") && IsParent(revs, "c", "m") by {
      assert revs["m"][0] == "b" && revs["m"][1] == "c" && revs["b"][0] == "a";
    }
    assert "m" in Heads(revs);
  }

  predicate Usable(h: Header) {
    h.rev.Some? && h.rev.value != "" && h.down.Some?
  }

  /** Later files override earlier ones of the same revision. */
  function Collect(files: seq<Header>): RevMap {
    if files == [] then map[]
    else
      var front, last := Collect(files[..|files| - 1]), files[|files| - 1];
      if Usable(last) then front[last.rev.value := last.down.value] else front
  }

  // ----- one head covers everything -----

  ghost predicate Distinct(path: seq<Rev>) {
    forall i, j :: 0 <= i < j < |path| ==> path[i] != path[j]
  }

  function Elements(path: seq<Rev>): set<Rev> {
    set x | x in path
  }

  lemma {:induction false} DistinctLength(path: seq<Rev>)
    requires Distinct(path)
    ensures |Elements(path)| == |path|
  {
    if path != [] {
      var front, last := path[..|path| - 1], path[|path| - 1];
      DistinctLength(front);
      assert Elements(path) == Elements(front) + {last};
    }
  }

  lemma SubsetSize(a: set<Rev>, b: set<Rev>)
    requires a <= b
    ensures |a| <= |b|
  {
    assert b == a + (b - a);
  }

  /** In an acyclic map no path visits a revision twice, so no path is longer than the
      map. */
  lemma PathsAreShort(revs: RevMap, path: seq<Rev>)
    requires Acyclic(revs) && Path(revs, path)
    ensures Distinct(path) && |path| <= |revs|
  {
    forall i, j | 0 <= i < j < |path| ensures path[i] != path[j] {
      assert Path(revs, path[i..j + 1]);
    }
    DistinctLength(path);
    SubsetSize(Elements(path), revs.Keys);
  }

  /** From the end of any path, climbing from child to child ends at a head. */
  lemma {:induction false} ClimbToHead(revs: RevMap, path: seq<Rev>) returns (head: Rev)
    requires Acyclic(revs) && Path(revs, path)
    ensures IsHead(revs, head) && Reaches(revs, path[0], head)
    decreases |revs| - |path|
  {
    PathsAreShort(revs, path);
    head := path[|path| - 1];
    if HasChild(revs, head) {
      var c :| IsParent(revs, head, c);
      PathsAreShort(revs, path + [c]);
      head := ClimbToHead(revs, path + [c]);
    }
  }

  lemma EveryRevisionReachesAHead(revs: RevMap, r: Rev) returns (head: Rev)
    requires Acyclic(revs) && r in revs
    ensures head in Heads(revs) && Reaches(revs, r, head)
  {
    head := ClimbToHead(revs, [r]);
  }

  /** The audit's guarantee: in an acyclic history there is exactly one head just when
      some revision has every revision as itself or an ancestor, and that revision is
      the head. */
  lemma SingleHeadCovers(revs: RevMap)
    requires Acyclic(revs)
    ensures |Heads(revs)| == 1 <==> exists t :: Covers(revs, t)
    ensures forall t :: Covers(revs, t) <==> Heads(revs) == {t}
  {
    forall t ensures Covers(revs, t) <==> Heads(revs) == {t} {
      if Heads(revs) == {t} {
        assert t in Heads(revs);
        forall r | r in revs ensures Reaches(revs, r, t) {
          var h := EveryRevisionReachesAHead(revs, r);
        }
      }
      if Covers(revs, t) {
        CoveringRevisionIsOnlyHead(revs, t);
      }
    }
    if |Heads(revs)| == 1 {
      var t :| t in Heads(revs);
      SingletonSet(Heads(revs), t);
      assert Covers(revs, t);
    }
  }

  lemma SingletonSet(s: set<Rev>, t: Rev)
    requires |s| == 1 && t in s
    ensures s == {t}
  {
    assert |s - {t}| == 0;
  }

  lemma PathStartHasChild(revs: RevMap, path: seq<Rev>)
    requires Path(revs, path) && |path| >= 2
    ensures HasChild(revs, path[0])
  {
    assert IsParent(revs, path[0], path[1]);
  }

  lemma PathFromChildIsCycle(revs: RevMap, t: Rev, path: seq<Rev>)
    requires Path(revs, path) && IsParent(revs, t, path[0]) && path[|path| - 1] == t
    ensures !Acyclic(revs)
  {
    var cycle := [t] + path;
    assert Path(revs, cycle) && cycle[|path|] == t;
  }

  lemma CoveringRevisionIsOnlyHead(revs: RevMap, t: Rev)
    requires Acyclic(revs) && Covers(revs, t)
    ensures Heads(revs) == {t}
  {
    if HasChild(revs, t) {
      var c :| IsParent(revs, t, c);
      var path :| Path(revs, path) && path[0] == c && path[|path| - 1] == t;
      PathFromChildIsCycle(revs, t, path);
    }
    forall r | r in Heads(revs) ensures r == t {
      var path :| Path(revs, path) && path[0] == r && path[|path| - 1] == t;
      if |path| >= 2 {
        PathStartHasChild(revs, path);
        assert false;
      }
    }
    assert t in Heads(revs);
  }

  /** A non-empty acyclic history has a head. */
  lemma SomeHeadExists(revs: RevMap)
    requires Acyclic(revs) && revs != map[]
    ensures Heads(revs) != {}
  {
    var r :| r in revs.Keys;
    var h := EveryRevisionReachesAHead(revs, r);
  }

  /** Acyclicity is needed: beside a cycle, a single head covers nothing but itself. */
  lemma CycleHidesFromTheAudit()
    ensures
      var revs: RevMap := map["a" := [], "b" := ["c"], "c" := ["b"]];
      Heads(revs) == {"a"} && !Covers(revs, "a")
  {
    var revs: RevMap := map["a" := [], "b" := ["c"], "c" := ["b"]];
    assert IsParent(revs, "b", "c") && IsParent(revs, "c", "b");
    assert "a" in Heads(revs);
    forall path | Path(revs, path) && |path| >= 2 ensures path[|path| - 1] != "a" {
      assert IsParent(revs, path[|path| - 2], path[|path| - 1]);
    }
    assert Covers(revs, "a") ==> Reaches(revs, "b", "a");
  }

  // ----- appending a revision -----

  /** r is neither a revision nor named as a parent. */
  ghost predicate Fresh(revs: RevMap, r: Rev) {
    r !in revs && !HasChild(revs, r)
  }

  function AsSet(ps: seq<Rev>): set<Rev> {
    set p | p in ps
  }

  lemma AppendedHeads(revs: RevMap, r: Rev, parents: seq<Rev>)
    requires Fresh(revs, r) && r !in parents
    ensures Heads(revs[r := parents]) == Heads(revs) - AsSet(parents) + {r}
  {
    var next := revs[r := parents];
    forall x ensures HasChild(next, x) <==> HasChild(revs, x) || x in parents {
      if x in parents { assert IsParent(next, x, r); }
      if HasChild(revs, x) {
        var c :| IsParent(revs, x, c);
        assert IsParent(next, x, c);
      }
      if HasChild(next, x) {
        var c :| IsParent(next, x, c);
        assert c != r ==> IsParent(revs, x, c);
      }
    }
  }

  /** A path of the longer history that does not end at the new revision is a path of
      the old one: the new revision has no children. */
  lemma OldPath(revs: RevMap, r: Rev, parents: seq<Rev>, path: seq<Rev>)
    requires Fresh(revs, r) && r !in parents
    requires Path(revs[r := parents], path)
    ensures forall i :: 0 <= i < |path| - 1 ==> path[i] != r
    ensures path[|path| - 1] != r ==> Path(revs, path)
  {
    var next := revs[r := parents];
    forall i | 0 <= i < |path| - 1
      ensures path[i] != r && (path[i + 1] != r ==> IsParent(revs, path[i], path[i + 1]))
    {
      assert IsParent(next, path[i], path[i + 1]);
      assert path[i + 1] != r ==> IsParent(revs, path[i], path[i + 1]);
    }
  }

  /** Appending a fresh revision keeps the history acyclic. */
  lemma AppendKeepsAcyclic(revs: RevMap, r: Rev, parents: seq<Rev>)
    requires Acyclic(revs) && Fresh(revs, r) && r !in parents
    ensures Acyclic(revs[r := parents])
  {
    forall path | Path(revs[r := parents], path) && |path| >= 2 ensures path[0] != path[|path| - 1] {
      OldPath(revs, r, parents, path);
    }
  }

  /** The new revision replaces the heads among its parents; so a fork off non-heads
      adds one head. */
  lemma AppendCountsHeads(revs: RevMap, r: Rev, parents: seq<Rev>)
    requires Fresh(revs, r) && r !in parents
    ensures |Heads(revs[r := parents])| == |Heads(revs)| - |Heads(revs) * AsSet(parents)| + 1
  {
    AppendedHeads(revs, r, parents);
    var hs, ps := Heads(revs), AsSet(parents);
    assert r !in hs - ps;
    assert hs == (hs - ps) + (hs * ps);
  }

  /** The new revision is the only head exactly when it merges every old head. */
  lemma MergeLeavesOneHead(revs: RevMap, r: Rev, parents: seq<Rev>)
    requires Fresh(revs, r) && r !in parents
    ensures Heads(revs[r := parents]) == {r} <==> Heads(revs) <= AsSet(parents)
  {
    AppendedHeads(revs, r, parents);
    var rest := Heads(revs) - AsSet(parents);
    assert r !in rest;
    assert rest + {r} == {r} ==> rest == {} by {
      assert forall x :: x in rest ==> x in rest + {r} && x != r;
    }
    assert rest == {} <==> Heads(revs) <= AsSet(parents) by {
      assert forall x :: x in Heads(revs) && x !in AsSet(parents) ==> x in rest;
    }
  }

  // ----- whole histories -----

  datatype Appended = Appended(rev: Rev, parents: seq<Rev>)

  function Build(log: seq<Appended>): RevMap {
    if log == [] then map[] else Build(log[..|log| - 1])[log[|log| - 1].rev := log[|log| - 1].parents]
  }

  /** Each revision is fresh when it is added. */
  ghost predicate ProperLog(log: seq<Appended>) {
    log == [] ||
    (var front, last := log[..|log| - 1], log[|log| - 1];
     ProperLog(front) && Fresh(Build(front), last.rev) && last.rev !in last.parents)
  }

  /** The heads a log closes, summed over its steps. */
  ghost function Merged(log: seq<Appended>): nat {
    if log == [] then 0
    else
      var front, last := log[..|log| - 1], log[|log| - 1];
      Merged(front) + |Heads(Build(front)) * AsSet(last.parents)|
  }

  /** Every history grown by appending is acyclic, and its head count is the revisions
      added less the heads they merged; so the audit passes exactly when all but one of
      the revisions have been merged. */
  lemma {:induction false} GrownHistory(log: seq<Appended>)
    requires ProperLog(log)
    ensures Acyclic(Build(log))
    ensures |Heads(Build(log))| == |log| - Merged(log)
  {
    if log == [] {
      assert Heads(Build(log)) == {};
    } else {
      var front, last := log[..|log| - 1], log[|log| - 1];
      GrownHistory(front);
      AppendKeepsAcyclic(Build(front), last.rev, last.parents);
      AppendCountsHeads(Build(front), last.rev, last.parents);
    }
  }
}
