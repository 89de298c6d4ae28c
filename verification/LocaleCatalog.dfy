/** The i18n tables and the seeder that fills them.

    Message rows are unique by (key, language); the namespace is an ordinary column. */
module LocaleCatalog {
  import opened Wrappers
  import opened LocaleDigest

  datatype Row = Row(namespace: string, value: string)

  /** The two columns of i18n_catalog_meta, by (language, namespace). */
  datatype Meta = Meta(hash: string, count: nat)

  type Messages = map<(string, string), Row>
  type Metas = map<(string, string), Meta>

  /** The rows the hash of (lang, ns) summarises. */
  function Catalogue(ms: Messages, lang: string, ns: string): Slice {
    map p | p in ms && p.1 == lang && ms[p].namespace == ns :: p.0 := ms[p].value
  }

  function MetaOf(digest: Digest, ms: Messages, lang: string, ns: string): Meta {
    Meta(HashOf(digest, Catalogue(ms, lang, ns)), |Catalogue(ms, lang, ns)|)
  }

  /** Every meta row's digest and count match the rows of its language and namespace. */
  predicate Consistent(digest: Digest, ms: Messages, metas: Metas) {
    forall c :: c in metas ==> metas[c] == MetaOf(digest, ms, c.0, c.1)
  }

  // ----- one insert -----

  /** INSERT .. ON CONFLICT (key, language_code): do nothing, or with FORCE set the value
      and leave the row in its namespace. */
  function Upsert(force: bool, ms: Messages, key: string, lang: string, ns: string, value: string): Messages {
    if (key, lang) !in ms then ms[(key, lang) := Row(ns, value)]
    else if force then ms[(key, lang) := Row(ms[(key, lang)].namespace, value)]
    else ms
  }

  function UpsertAll(force: bool, ms: Messages, lang: string, ns: string, source: seq<(string, string)>): Messages {
    if source == [] then ms
    else
      var last := source[|source| - 1];
      Upsert(force, UpsertAll(force, ms, lang, ns, source[..|source| - 1]), last.0, lang, ns, last.1)
  }

  /** A source dictionary has each key once. */
  predicate UniqueKeys(source: seq<(string, string)>) {
    forall i, j :: 0 <= i < j < |source| ==> source[i].0 != source[j].0
  }

  /** What the source has for a key. */
  function Lookup(source: seq<(string, string)>, key: string): Option<string> {
    if source == [] then None
    else if source[|source| - 1].0 == key then Some(source[|source| - 1].1)
    else Lookup(source[..|source| - 1], key)
  }

  /** The row at (key, lang) after a source was inserted. */
  lemma {:induction false} RowAfterUpserts(force: bool, ms: Messages, lang: string, ns: string,
          source: seq<(string, string)>, p: (string, string))
    requires UniqueKeys(source)
    ensures
      var after := UpsertAll(force, ms, lang, ns, source);
      var given := if p.1 == lang then Lookup(source, p.0) else None;
      && (p in after <==> p in ms || given.Some?)
      && (p in ms ==> after[p] == Row(ms[p].namespace, if force && given.Some? then given.value else ms[p].value))
      && (p !in ms && given.Some? ==> after[p] == Row(ns, given.value))
    decreases |source|
  {
    if source != [] {
      var front, last := source[..|source| - 1], source[|source| - 1];
      RowAfterUpserts(force, ms, lang, ns, front, p);
      if last.0 == p.0 {
        LookupAbsent(front, p.0);
      }
    }
  }

  lemma {:induction false} LookupAbsent(source: seq<(string, string)>, key: string)
    requires forall i :: 0 <= i < |source| ==> source[i].0 != key
    ensures Lookup(source, key) == None
    decreases |source|
  {
    if source != [] {
      LookupAbsent(source[..|source| - 1], key);
    }
  }

  // ----- the tables and the seeder -----

  /** One call of _load_locale: what a language's source file holds, if anything. */
  datatype Source = Source(lang: string, pairs: seq<(string, string)>)

  class Tables {
    var messages: Messages
    var metas: Metas

    /** The body of _seed_namespace's loop for one language: insert the messages one by
        one, then recompute and upsert the catalogue's meta row. */
    method SeedLanguage(force: bool, digest: Digest, ns: string, source: Source) returns (total: nat)
      modifies this
      ensures messages == SeededMessages(force, old(messages), ns, source)
      ensures metas == SeededMetas(force, digest, old(messages), old(metas), ns, source)
      ensures source.pairs == [] ==> metas == old(metas)
      ensures source.pairs != [] ==>
                var rows := Catalogue(messages, source.lang, ns);
                metas == old(metas)[(source.lang, ns) := Meta(digest.hash(Payload(digest, rows)), |rows|)]
      ensures total == |source.pairs|
    {
      total := 0;
      if source.pairs == [] {
        return;
      }
      for i := 0 to |source.pairs|
        invariant messages == UpsertAll(force, old(messages), source.lang, ns, source.pairs[..i])
        invariant metas == old(metas) && total == i
      {
        assert source.pairs[..i + 1][..i] == source.pairs[..i];
        var (key, value) := source.pairs[i];
        if (key, source.lang) !in messages {
          messages := messages[(key, source.lang) := Row(ns, value)];
        } else if force {
          messages := messages[(key, source.lang) := Row(messages[(key, source.lang)].namespace, value)];
        }
        total := total + 1;
      }
      assert source.pairs[..|source.pairs|] == source.pairs;
      var rows := Catalogue(messages, source.lang, ns);
      metas := metas[(source.lang, ns) := Meta(HashOf(digest, rows), |rows|)];
    }

    /** _seed_namespace: each known language that is registered. */
    method SeedNamespace(force: bool, digest: Digest, ns: string, sources: seq<Source>, registered: set<string>)
      returns (total: nat)
      modifies this
      ensures State(messages, metas) ==
          Run(force, digest, State(old(messages), old(metas)), Steps(ns, sources, registered))
      ensures OneEach(sources) ==>
                forall p :: RowSeeded(force, ns, sources, registered, old(messages), messages, p)
      ensures forall c :: c in metas <==> c in old(metas) || (c.1 == ns && HasMessages(sources, registered, c.0))
      ensures total == |RegisteredPairs(sources, registered)|
    {
      total := 0;
      ghost var before := State(messages, metas);
      for i := 0 to |sources|
        invariant State(messages, metas) == Run(force, digest, before, Steps(ns, sources[..i], registered))
        invariant total == |RegisteredPairs(sources[..i], registered)|
      {
        assert sources[..i + 1][..i] == sources[..i];
        PairsOfLast(sources[..i + 1], registered);
        RunOfLast(force, digest, before, ns, sources[..i + 1], registered);
        if sources[i].lang in registered {
          var n := SeedLanguage(force, digest, ns, sources[i]);
          total := total + n;
        }
      }
      assert sources[..|sources|] == sources;
      NamespaceRows(force, digest, before, ns, sources, registered);
      NamespaceMetas(force, digest, before, ns, sources, registered);
    }

    /** seed: the mobile namespace, then the app namespace. */
    method Seed(force: bool, digest: Digest, mobile: seq<Source>, app: seq<Source>, registered: set<string>)
      returns (total: nat)
      modifies this
      ensures State(messages, metas) ==
          Run(force, digest, State(old(messages), old(metas)), AllSteps(mobile, app, registered))
      ensures OneEach(mobile) && OneEach(app) ==>
                forall p :: RowFromBoth(force, mobile, app, registered, old(messages), messages, p)
      ensures forall c :: c in metas <==> || c in old(metas)
                                          || (c.1 == "mobile" && HasMessages(mobile, registered, c.0))
                                          || (c.1 == "app" && HasMessages(app, registered, c.0))
      ensures total == |RegisteredPairs(mobile, registered)| + |RegisteredPairs(app, registered)|
    {
      ghost var before := State(messages, metas);
      var m := SeedNamespace(force, digest, "mobile", mobile, registered);
      ghost var between := messages;
      var a := SeedNamespace(force, digest, "app", app, registered);
      RunAppend(force, digest, before, Steps("mobile", mobile, registered), Steps("app", app, registered));
      if OneEach(mobile) && OneEach(app) {
        forall p ensures RowFromBoth(force, mobile, app, registered, before.messages, messages, p) {
          BothNamespaces(force, mobile, app, registered, before.messages, between, messages, p);
        }
      }
      total := m + a;
    }
  }

  // ----- a whole seed as a function of the tables -----

  datatype State = State(messages: Messages, metas: Metas)

  /** One language of one namespace. */
  datatype Step = Step(ns: string, source: Source)

  function SeededMessages(force: bool, ms: Messages, ns: string, source: Source): Messages {
    UpsertAll(force, ms, source.lang, ns, source.pairs)
  }

  function SeededMetas(force: bool, digest: Digest, ms: Messages, metas: Metas, ns: string, source: Source): Metas {
    if source.pairs == [] then metas
    else metas[(source.lang, ns) := MetaOf(digest, SeededMessages(force, ms, ns, source), source.lang, ns)]
  }

  function RunStep(force: bool, digest: Digest, s: State, step: Step): State {
    State(SeededMessages(force, s.messages, step.ns, step.source),
          SeededMetas(force, digest, s.messages, s.metas, step.ns, step.source))
  }

  function Run(force: bool, digest: Digest, s: State, steps: seq<Step>): State {
    if steps == [] then s
    else RunStep(force, digest, Run(force, digest, s, steps[..|steps| - 1]), steps[|steps| - 1])
  }

  function Steps(ns: string, sources: seq<Source>, registered: set<string>): seq<Step> {
    if sources == [] then []
    else
      var last := sources[|sources| - 1];
      Steps(ns, sources[..|sources| - 1], registered) + if last.lang in registered then [Step(ns, last)] else []
  }

  function AllSteps(mobile: seq<Source>, app: seq<Source>, registered: set<string>): seq<Step> {
    Steps("mobile", mobile, registered) + Steps("app", app, registered)
  }

  // ----- what a seed does, told from its sources -----

  ghost predicate OneEach(sources: seq<Source>) {
    forall k :: 0 <= k < |sources| ==> UniqueKeys(sources[k].pairs)
  }

  /** Source k is of p's language, which is registered, and has v under p's key. */
  ghost predicate Offers(sources: seq<Source>, registered: set<string>, p: (string, string), k: int, v: string) {
    0 <= k < |sources| && sources[k].lang in registered && sources[k].lang == p.1 && (p.0, v) in sources[k].pairs
  }

  ghost predicate Offered(sources: seq<Source>, registered: set<string>, p: (string, string)) {
    exists k, v :: Offers(sources, registered, p, k, v)
  }

  ghost predicate FirstOffer(sources: seq<Source>, registered: set<string>, p: (string, string), v: string) {
    exists k :: Offers(sources, registered, p, k, v) && forall j, w :: Offers(sources, registered, p, j, w) ==> k <= j
  }

  ghost predicate LastOffer(sources: seq<Source>, registered: set<string>, p: (string, string), v: string) {
    exists k :: Offers(sources, registered, p, k, v) && forall j, w :: Offers(sources, registered, p, j, w) ==> j <= k
  }

  /** The row at p before and after a namespace was seeded: it is there if it was or a
      source offers it, keeps its namespace, and takes the first value offered, or with
      FORCE the last. */
  ghost predicate RowSeeded(force: bool, ns: string, sources: seq<Source>, registered: set<string>,
          before: Messages, after: Messages, p: (string, string))
  {
    && (p in after <==> p in before || Offered(sources, registered, p))
    && (p in after ==> after[p].namespace == if p in before then before[p].namespace else ns)
    && (p in before && (!force || !Offered(sources, registered, p)) ==> p in after && after[p] == before[p])
    && (!force && p in after && p !in before ==>
          forall v :: FirstOffer(sources, registered, p, v) ==> after[p].value == v)
    && (force && p in after ==> forall v :: LastOffer(sources, registered, p, v) ==> after[p].value == v)
  }

  /** The row at p before and after a whole seed. */
  ghost predicate RowFromBoth(force: bool, mobile: seq<Source>, app: seq<Source>, registered: set<string>,
          before: Messages, after: Messages, p: (string, string))
  {
    var (m, a) := (Offered(mobile, registered, p), Offered(app, registered, p));
    && (p in after <==> p in before || m || a)
    && (p in after ==>
          after[p].namespace == if p in before then before[p].namespace else if m then "mobile" else "app")
    && (p in before && (!force || (!m && !a)) ==> p in after && after[p] == before[p])
    && (!force && p in after && p !in before ==>
          if m then forall v :: FirstOffer(mobile, registered, p, v) ==> after[p].value == v
          else forall v :: FirstOffer(app, registered, p, v) ==> after[p].value == v)
    && (force && p in after ==>
          if a then forall v :: LastOffer(app, registered, p, v) ==> after[p].value == v
          else forall v :: LastOffer(mobile, registered, p, v) ==> after[p].value == v)
  }

  /** Some source of the language is not empty, and the language is registered. */
  ghost predicate HasMessages(sources: seq<Source>, registered: set<string>, lang: string) {
    lang in registered && exists k :: 0 <= k < |sources| && sources[k].lang == lang && sources[k].pairs != []
  }

  /** The messages of the registered languages, by source and place. */
  ghost function RegisteredPairs(sources: seq<Source>, registered: set<string>): set<(int, int)> {
    set k, j | 0 <= k < |sources| && 0 <= j < |sources[k].pairs| && sources[k].lang in registered :: (k, j)
  }

  lemma {:induction false} PlacesCount(k: int, n: nat)
    ensures |set j | 0 <= j < n :: (k, j)| == n
  {
    if n > 0 {
      PlacesCount(k, n - 1);
      assert (set j | 0 <= j < n :: (k, j)) == (set j | 0 <= j < n - 1 :: (k, j)) + {(k, n - 1)};
    }
  }

  lemma PairsOfLast(sources: seq<Source>, registered: set<string>)
    requires sources != []
    ensures
      var front, last := sources[..|sources| - 1], sources[|sources| - 1];
      |RegisteredPairs(sources, registered)| ==
      |RegisteredPairs(front, registered)| + if last.lang in registered then |last.pairs| else 0
  {
    var n := |sources| - 1;
    var (front, last) := (sources[..n], sources[n]);
    var added := if last.lang in registered then (set j | 0 <= j < |last.pairs| :: (n, j)) else {};
    PlacesCount(n, |last.pairs|);
    assert RegisteredPairs(sources, registered) == RegisteredPairs(front, registered) + added;
  }

  /** A dictionary has for a key what it is paired with. */
  lemma {:induction false} LookupIsPair(pairs: seq<(string, string)>, key: string)
    requires UniqueKeys(pairs)
    ensures forall v :: (key, v) in pairs <==> Lookup(pairs, key) == Some(v)
    decreases |pairs|
  {
    if pairs != [] {
      var front, last := pairs[..|pairs| - 1], pairs[|pairs| - 1];
      LookupIsPair(front, key);
      assert pairs == front + [last];
      if last.0 == key {
        LookupAbsent(front, key);
      }
    }
  }

  lemma OffersOfLast(sources: seq<Source>, registered: set<string>, p: (string, string))
    requires sources != [] && OneEach(sources)
    ensures
      var n := |sources| - 1;
      var last := sources[n];
      var given := if last.lang == p.1 && last.lang in registered then Lookup(last.pairs, p.0) else None;
      && OneEach(sources[..n])
      && (forall v :: Offers(sources, registered, p, n, v) <==> given == Some(v))
      && (forall k, v :: k != n ==>
            (Offers(sources, registered, p, k, v) <==> Offers(sources[..n], registered, p, k, v)))
  {
    LookupIsPair(sources[|sources| - 1].pairs, p.0);
  }

  /** The row at p after a namespace was seeded. */
  lemma {:induction false} NamespaceRow(force: bool, digest: Digest, s: State, ns: string, sources: seq<Source>,
          registered: set<string>, p: (string, string))
    requires OneEach(sources)
    ensures RowSeeded(force, ns, sources, registered, s.messages,
                      Run(force, digest, s, Steps(ns, sources, registered)).messages, p)
    decreases |sources|
  {
    if sources != [] {
      var n := |sources| - 1;
      var (front, last) := (sources[..n], sources[n]);
      NamespaceRow(force, digest, s, ns, front, registered, p);
      OffersOfLast(sources, registered, p);
      var u := Run(force, digest, s, Steps(ns, front, registered));
      RunOfLast(force, digest, s, ns, sources, registered);
      RowAfterUpserts(force, u.messages, last.lang, ns, last.pairs, p);
      var t := if last.lang in registered then SeededMessages(force, u.messages, ns, last) else u.messages;
      RowOfLast(force, ns, sources, registered, s.messages, u.messages, t, p);
    }
  }

  lemma NamespaceRows(force: bool, digest: Digest, s: State, ns: string, sources: seq<Source>,
          registered: set<string>)
    ensures
      var t := Run(force, digest, s, Steps(ns, sources, registered));
      OneEach(sources) ==> forall p :: RowSeeded(force, ns, sources, registered, s.messages, t.messages, p)
  {
    if OneEach(sources) {
      forall p
        ensures RowSeeded(force, ns, sources, registered, s.messages,
                          Run(force, digest, s, Steps(ns, sources, registered)).messages, p)
      {
        NamespaceRow(force, digest, s, ns, sources, registered, p);
      }
    }
  }

  lemma RunOfLast(force: bool, digest: Digest, s: State, ns: string, sources: seq<Source>, registered: set<string>)
    requires sources != []
    ensures
      var front, last := sources[..|sources| - 1], sources[|sources| - 1];
      var u := Run(force, digest, s, Steps(ns, front, registered));
      Run(force, digest, s, Steps(ns, sources, registered)) ==
      if last.lang in registered then RunStep(force, digest, u, Step(ns, last)) else u
  {
    var front, last := sources[..|sources| - 1], sources[|sources| - 1];
    var steps := Steps(ns, front, registered);
    assert (steps + [Step(ns, last)])[..|steps|] == steps;
    assert steps + [] == steps;
  }

  lemma RowOfLast(force: bool, ns: string, sources: seq<Source>, registered: set<string>, before: Messages,
          between: Messages, after: Messages, p: (string, string))
    requires sources != [] && OneEach(sources)
    requires RowSeeded(force, ns, sources[..|sources| - 1], registered, before, between, p)
    requires
      var last := sources[|sources| - 1];
      var given := if last.lang == p.1 && last.lang in registered then Lookup(last.pairs, p.0) else None;
      && (p in after <==> p in between || given.Some?)
      && (p in between ==>
            after[p] == Row(between[p].namespace, if force && given.Some? then given.value else between[p].value))
      && (p !in between && given.Some? ==> after[p] == Row(ns, given.value))
    ensures RowSeeded(force, ns, sources, registered, before, after, p)
  {
    var n := |sources| - 1;
    var last := sources[n];
    var given := if last.lang == p.1 && last.lang in registered then Lookup(last.pairs, p.0) else None;
    OffersOfLast(sources, registered, p);
    if given.Some? {
      assert Offers(sources, registered, p, n, given.value);
    }
    assert Offered(sources, registered, p) <==> Offered(sources[..n], registered, p) || given.Some?;
    forall v | FirstOffer(sources, registered, p, v)
      ensures if Offered(sources[..n], registered, p) then FirstOffer(sources[..n], registered, p, v)
              else given == Some(v)
    {
    }
    forall v | LastOffer(sources, registered, p, v)
      ensures if given.Some? then given == Some(v) else LastOffer(sources[..n], registered, p, v)
    {
    }
  }

  lemma BothNamespaces(force: bool, mobile: seq<Source>, app: seq<Source>, registered: set<string>,
          before: Messages, between: Messages, after: Messages, p: (string, string))
    requires RowSeeded(force, "mobile", mobile, registered, before, between, p)
    requires RowSeeded(force, "app", app, registered, between, after, p)
    ensures RowFromBoth(force, mobile, app, registered, before, after, p)
  {
  }

  /** Whatever is offered has a first and a last offer. */
  lemma {:induction false} OfferedFirstAndLast(sources: seq<Source>, registered: set<string>, p: (string, string))
    requires OneEach(sources) && Offered(sources, registered, p)
    ensures exists v :: FirstOffer(sources, registered, p, v)
    ensures exists v :: LastOffer(sources, registered, p, v)
    decreases |sources|
  {
    var n := |sources| - 1;
    OffersOfLast(sources, registered, p);
    if Offered(sources[..n], registered, p) {
      OfferedFirstAndLast(sources[..n], registered, p);
      var v :| FirstOffer(sources[..n], registered, p, v);
      assert FirstOffer(sources, registered, p, v);
      var w :| LastOffer(sources[..n], registered, p, w);
      if !exists x :: Offers(sources, registered, p, n, x) {
        assert LastOffer(sources, registered, p, w);
      }
    }
    forall x | Offers(sources, registered, p, n, x)
      ensures LastOffer(sources, registered, p, x)
      ensures !Offered(sources[..n], registered, p) ==> FirstOffer(sources, registered, p, x)
    {
    }
  }

  lemma {:induction false} NamespaceMetas(force: bool, digest: Digest, s: State, ns: string, sources: seq<Source>,
          registered: set<string>)
    ensures
      var t := Run(force, digest, s, Steps(ns, sources, registered));
      forall c :: c in t.metas <==> c in s.metas || (c.1 == ns && HasMessages(sources, registered, c.0))
    decreases |sources|
  {
    if sources != [] {
      var front, last := sources[..|sources| - 1], sources[|sources| - 1];
      NamespaceMetas(force, digest, s, ns, front, registered);
      RunOfLast(force, digest, s, ns, sources, registered);
      forall lang ensures HasMessages(sources, registered, lang) <==>
                          || HasMessages(front, registered, lang)
                          || (last.lang == lang && lang in registered && last.pairs != [])
      {
        assert forall k :: 0 <= k < |front| ==> front[k] == sources[k];
      }
    }
  }

  lemma {:induction false} RunAppend(force: bool, digest: Digest, s: State, a: seq<Step>, b: seq<Step>)
    ensures Run(force, digest, s, a + b) == Run(force, digest, Run(force, digest, s, a), b)
  {
    if b == [] {
      assert a + b == a;
    } else {
      RunAppend(force, digest, s, a, b[..|b| - 1]);
      var front, last := b[..|b| - 1], b[|b| - 1];
      assert (a + b)[..|a + b| - 1] == a + front && (a + b)[|a + b| - 1] == last;
      assert Run(force, digest, s, a + b) == RunStep(force, digest, Run(force, digest, s, a + front), last);
    }
  }

  predicate GoodSteps(steps: seq<Step>) {
    forall i :: 0 <= i < |steps| ==> UniqueKeys(steps[i].source.pairs)
  }

  // ----- one step -----

  /** The step rewrites a row that belongs to another catalogue c, to a new value. */
  predicate Intrudes(force: bool, ms: Messages, step: Step, c: (string, string)) {
    force && c != (step.source.lang, step.ns) &&
    exists p :: p in ms && p.1 == c.0 == step.source.lang && ms[p].namespace == c.1 &&
      Lookup(step.source.pairs, p.0).Some? && Lookup(step.source.pairs, p.0).value != ms[p].value
  }

  /** A step changes another catalogue exactly when it intrudes on it. */
  lemma OtherCatalogue(force: bool, ms: Messages, step: Step, c: (string, string))
    requires UniqueKeys(step.source.pairs) && c != (step.source.lang, step.ns)
    ensures Catalogue(SeededMessages(force, ms, step.ns, step.source), c.0, c.1) == Catalogue(ms, c.0, c.1)
            <==> !Intrudes(force, ms, step, c)
  {
    var after := SeededMessages(force, ms, step.ns, step.source);
    forall k: string ensures k in Catalogue(after, c.0, c.1) <==> k in Catalogue(ms, c.0, c.1) {
      RowAfterUpserts(force, ms, step.source.lang, step.ns, step.source.pairs, (k, c.0));
      assert k in Catalogue(after, c.0, c.1) <==> (k, c.0) in after && after[(k, c.0)].namespace == c.1;
      assert k in Catalogue(ms, c.0, c.1) <==> (k, c.0) in ms && ms[(k, c.0)].namespace == c.1;
    }
    forall k: string | k in Catalogue(ms, c.0, c.1)
      ensures Catalogue(after, c.0, c.1)[k] != Catalogue(ms, c.0, c.1)[k] <==>
              force && c.0 == step.source.lang && Lookup(step.source.pairs, k).Some? &&
                  Lookup(step.source.pairs, k).value != ms[(k, c.0)].value
    {
      RowAfterUpserts(force, ms, step.source.lang, step.ns, step.source.pairs, (k, c.0));
    }
    if Intrudes(force, ms, step, c) {
      var p :| p in ms && p.1 == c.0 == step.source.lang && ms[p].namespace == c.1 &&
        Lookup(step.source.pairs, p.0).Some? && Lookup(step.source.pairs, p.0).value != ms[p].value;
      assert p == (p.0, c.0) && p.0 in Catalogue(ms, c.0, c.1);
    }
  }

  /** The step changes the text that catalogue c is hashed from, though it takes another
      catalogue's meta row. */
  predicate Disturbs(digest: Digest, force: bool, ms: Messages, step: Step, c: (string, string)) {
    && c != (step.source.lang, step.ns)
    && Payload(digest, Catalogue(SeededMessages(force, ms, step.ns, step.source), c.0, c.1)) !=
       Payload(digest, Catalogue(ms, c.0, c.1))
  }

  lemma OtherKeys(force: bool, ms: Messages, step: Step, c: (string, string))
    requires UniqueKeys(step.source.pairs) && c != (step.source.lang, step.ns)
    ensures Catalogue(SeededMessages(force, ms, step.ns, step.source), c.0, c.1).Keys == Catalogue(ms, c.0, c.1).Keys
  {
    var after := SeededMessages(force, ms, step.ns, step.source);
    forall k: string ensures k in Catalogue(after, c.0, c.1) <==> k in Catalogue(ms, c.0, c.1) {
      RowAfterUpserts(force, ms, step.source.lang, step.ns, step.source.pairs, (k, c.0));
      InCatalogue(after, c, k);
      InCatalogue(ms, c, k);
    }
  }

  lemma InCatalogue(ms: Messages, c: (string, string), key: string)
    ensures key in Catalogue(ms, c.0, c.1) <==> (key, c.0) in ms && ms[(key, c.0)].namespace == c.1
    ensures key in Catalogue(ms, c.0, c.1) ==> Catalogue(ms, c.0, c.1)[key] == ms[(key, c.0)].value
  {
    assert (key, c.0).1 == c.0;
  }

  lemma OwnMeta(force: bool, digest: Digest, s: State, step: Step)
    requires Consistent(digest, s.messages, s.metas)
    ensures
      var t, own := RunStep(force, digest, s, step), (step.source.lang, step.ns);
      && (forall c :: c in t.metas ==> c in s.metas || c == own)
      && (own in t.metas ==> t.metas[own] == MetaOf(digest, t.messages, own.0, own.1))
  {
    if step.source.pairs == [] {
      assert RunStep(force, digest, s, step) == s;
    }
  }

  lemma OtherMeta(force: bool, digest: Digest, s: State, step: Step, c: (string, string))
    requires UniqueKeys(step.source.pairs) && c in s.metas && c != (step.source.lang, step.ns)
    requires s.metas[c] == MetaOf(digest, s.messages, c.0, c.1)
    ensures
      var t := RunStep(force, digest, s, step);
      && t.metas.Keys >= s.metas.Keys
      && (!Disturbs(digest, force, s.messages, step, c) ==> t.metas[c] == MetaOf(digest, t.messages, c.0, c.1))
      && (CollisionFree(digest) && t.metas[c] == MetaOf(digest, t.messages, c.0, c.1) ==>
            !Disturbs(digest, force, s.messages, step, c))
  {
    OtherKeys(force, s.messages, step, c);
    assert RunStep(force, digest, s, step).metas[c] == s.metas[c];
    SameKeysSameCount(Catalogue(s.messages, c.0, c.1), Catalogue(RunStep(force, digest, s, step).messages, c.0, c.1));
  }

  lemma SameKeysSameCount(a: Slice, b: Slice)
    requires a.Keys == b.Keys
    ensures |a| == |b|
  {
    assert |a| == |a.Keys| && |b| == |b.Keys|;
  }

  /** One language seeded: if the meta rows were right before, they are right afterwards
      exactly when the text of no other hashed catalogue changed.  (That a changed text
      changes the hash needs a hash function without collisions.) */
  lemma StepConsistentExactly(force: bool, digest: Digest, s: State, step: Step)
    requires UniqueKeys(step.source.pairs) && Consistent(digest, s.messages, s.metas)
    ensures
      var t := RunStep(force, digest, s, step);
      var undisturbed := forall c :: c in s.metas ==> !Disturbs(digest, force, s.messages, step, c);
      && (undisturbed ==> Consistent(digest, t.messages, t.metas))
      && (CollisionFree(digest) && Consistent(digest, t.messages, t.metas) ==> undisturbed)
  {
    var t := RunStep(force, digest, s, step);
    var own := (step.source.lang, step.ns);
    OwnMeta(force, digest, s, step);
    if forall c :: c in s.metas ==> !Disturbs(digest, force, s.messages, step, c) {
      forall c | c in t.metas ensures t.metas[c] == MetaOf(digest, t.messages, c.0, c.1) {
        if c != own { OtherMeta(force, digest, s, step, c); }
      }
    }
    if CollisionFree(digest) && Consistent(digest, t.messages, t.metas) {
      forall c | c in s.metas ensures !Disturbs(digest, force, s.messages, step, c) {
        if c != own { OtherMeta(force, digest, s, step, c); }
      }
    }
  }

  /** The text of another catalogue changes only if the step rewrites one of its rows to a
      new value; and if it does, when the catalogue's text tells its rows, before the step or
      after it. */
  lemma DisturbsExactly(digest: Digest, force: bool, ms: Messages, step: Step, c: (string, string))
    requires UniqueKeys(step.source.pairs)
    ensures Disturbs(digest, force, ms, step, c) ==> Intrudes(force, ms, step, c)
    ensures
      var after := SeededMessages(force, ms, step.ns, step.source);
      ListsKeys(digest) && Intrudes(force, ms, step, c)
      && (Readable(digest, Catalogue(ms, c.0, c.1)) || Readable(digest, Catalogue(after, c.0, c.1))) ==>
        Disturbs(digest, force, ms, step, c)
  {
    var after := SeededMessages(force, ms, step.ns, step.source);
    var (a, b) := (Catalogue(ms, c.0, c.1), Catalogue(after, c.0, c.1));
    if c != (step.source.lang, step.ns) {
      OtherCatalogue(force, ms, step, c);
      if ListsKeys(digest) && (Readable(digest, a) || Readable(digest, b)) {
        OtherKeys(force, ms, step, c);
        PayloadTells(digest, b, a);
      }
    }
  }

  /** A source with these keys, in this order, and the values of rows. */
  function SourceOf(lang: string, keys: seq<string>, rows: Slice): Source
    requires forall k :: k in keys ==> k in rows
  {
    Source(lang, seq(|keys|, i requires 0 <= i < |keys| => (assert keys[i] in keys; (keys[i], rows[keys[i]]))))
  }

  lemma {:induction false} SourceLookup(lang: string, keys: seq<string>, rows: Slice, key: string)
    requires forall k :: k in keys ==> k in rows
    ensures Lookup(SourceOf(lang, keys, rows).pairs, key) == if key in keys then Some(rows[key]) else None
    decreases |keys|
  {
    if keys != [] {
      var front, last := keys[..|keys| - 1], keys[|keys| - 1];
      SourceLookup(lang, front, rows, key);
      assert keys == front + [last];
      assert SourceOf(lang, keys, rows).pairs[..|keys| - 1] == SourceOf(lang, front, rows).pairs;
    }
  }

  /** A forced source with the keys of catalogue c turns it into the source's rows. */
  lemma CatalogueRewritten(ms: Messages, c: (string, string), ns: string, keys: seq<string>, rows: Slice)
    requires rows.Keys == Catalogue(ms, c.0, c.1).Keys && Listed(keys, rows.Keys) && ns != c.1
    ensures UniqueKeys(SourceOf(c.0, keys, rows).pairs)
    ensures Catalogue(SeededMessages(true, ms, ns, SourceOf(c.0, keys, rows)), c.0, c.1) == rows
  {
    var source := SourceOf(c.0, keys, rows);
    var after := SeededMessages(true, ms, ns, source);
    forall k: string
      ensures k in Catalogue(after, c.0, c.1) <==> k in rows
      ensures k in rows ==> Catalogue(after, c.0, c.1)[k] == rows[k]
    {
      RowAfterUpserts(true, ms, c.0, ns, source.pairs, (k, c.0));
      SourceLookup(c.0, keys, rows, k);
      InCatalogue(ms, c, k);
      InCatalogue(after, c, k);
    }
  }

  /** A step of another namespace that intrudes on catalogue c disturbs it. */
  ghost predicate EveryIntrusionSeen(digest: Digest, ms: Messages, c: (string, string)) {
    forall step: Step :: UniqueKeys(step.source.pairs) && Intrudes(true, ms, step, c) ==>
      Disturbs(digest, true, ms, step, c)
  }

  /** If another catalogue with the same keys has the same text, some step turns one into
      the other unseen. */
  lemma UnseenIntrusion(digest: Digest, ms: Messages, c: (string, string), b: Slice) returns (step: Step)
    requires ListsKeys(digest) && b.Keys == Catalogue(ms, c.0, c.1).Keys && b != Catalogue(ms, c.0, c.1)
    requires Payload(digest, b) == Payload(digest, Catalogue(ms, c.0, c.1))
    ensures UniqueKeys(step.source.pairs) && Intrudes(true, ms, step, c) && !Disturbs(digest, true, ms, step, c)
  {
    var keys, ns := digest.order(b.Keys), c.1 + "'";
    assert Listed(keys, b.Keys);
    assert |ns| == |c.1| + 1;
    CatalogueRewritten(ms, c, ns, keys, b);
    step := Step(ns, SourceOf(c.0, keys, b));
    OtherCatalogue(true, ms, step, c);
  }

  /** When no key of a catalogue holds a newline, every forced rewriting of one of its rows
      by another namespace changes its text exactly when no separator can move in it. */
  lemma EveryIntrusionSeenExactly(digest: Digest, ms: Messages, c: (string, string))
    requires ListsKeys(digest) && ClearKeys(Catalogue(ms, c.0, c.1).Keys)
    ensures EveryIntrusionSeen(digest, ms, c) <==> FirmText(digest, Catalogue(ms, c.0, c.1))
  {
    var rows := Catalogue(ms, c.0, c.1);
    if FirmText(digest, rows) {
      forall step: Step | UniqueKeys(step.source.pairs) && Intrudes(true, ms, step, c)
        ensures Disturbs(digest, true, ms, step, c)
      {
        DisturbsExactly(digest, true, ms, step, c);
      }
    } else {
      TextTellsExactly(digest, rows);
      var b: Slice :| b.Keys == rows.Keys && Payload(digest, b) == Payload(digest, rows) && b != rows;
      var step := UnseenIntrusion(digest, ms, c, b);
    }
  }

  // ----- inputs whose catalogues are readable throughout -----

  /** keys holds every key of the rows and the sources, none has a newline, and no value has
      a newline followed by one of them and "=". */
  ghost predicate ClearInputs(keys: set<string>, ms: Messages, steps: seq<Step>) {
    && ClearKeys(keys)
    && (forall p :: p in ms ==> ClearEntry(keys, p.0, ms[p].value))
    && (forall i, k, v :: 0 <= i < |steps| && Lookup(steps[i].source.pairs, k) == Some(v) ==> ClearEntry(keys, k, v))
  }

  predicate ClearEntry(keys: set<string>, key: string, value: string) {
    key in keys && ClearValue(keys, value)
  }

  lemma ClearCatalogue(keys: set<string>, ms: Messages, c: (string, string))
    requires ClearInputs(keys, ms, [])
    ensures Clear(Catalogue(ms, c.0, c.1))
  {
    var rows := Catalogue(ms, c.0, c.1);
    forall k | k in rows ensures k in keys && ClearValue(keys, rows[k]) {
      InCatalogue(ms, c, k);
      assert ClearEntry(keys, (k, c.0).0, ms[(k, c.0)].value);
    }
    forall k | k in rows ensures ClearValue(rows.Keys, rows[k]) {
      assert ClearValue(keys, rows[k]);
    }
  }

  lemma ClearAfterStep(keys: set<string>, force: bool, ms: Messages, step: Step)
    requires UniqueKeys(step.source.pairs) && ClearInputs(keys, ms, [step])
    ensures ClearInputs(keys, SeededMessages(force, ms, step.ns, step.source), [])
  {
    var after := SeededMessages(force, ms, step.ns, step.source);
    forall p | p in after ensures ClearEntry(keys, p.0, after[p].value) {
      RowAfterUpserts(force, ms, step.source.lang, step.ns, step.source.pairs, p);
      assert p in ms ==> ClearEntry(keys, p.0, ms[p].value);
      if Lookup(step.source.pairs, p.0).Some? {
        assert Lookup([step][0].source.pairs, p.0) == Some(Lookup(step.source.pairs, p.0).value);
      }
    }
  }

  lemma {:induction false} RunIsClear(keys: set<string>, digest: Digest, s: State, steps: seq<Step>)
    requires GoodSteps(steps) && ClearInputs(keys, s.messages, steps)
    ensures ClearInputs(keys, Run(true, digest, s, steps).messages, [])
    decreases |steps|
  {
    if steps != [] {
      var front, last := steps[..|steps| - 1], steps[|steps| - 1];
      RunIsClear(keys, digest, s, front);
      ClearAfterStep(keys, true, Run(true, digest, s, front).messages, last);
    }
  }

  /** When the keys and values a forced run starts from and is given are clear, every
      catalogue is readable when the run ends. */
  lemma ClearRunIsReadable(keys: set<string>, digest: Digest, s: State, steps: seq<Step>, c: (string, string))
    requires GoodSteps(steps) && ClearInputs(keys, s.messages, steps) && ListsKeys(digest)
    ensures Readable(digest, Catalogue(Run(true, digest, s, steps).messages, c.0, c.1))
  {
    RunIsClear(keys, digest, s, steps);
    ClearCatalogue(keys, Run(true, digest, s, steps).messages, c);
    ClearIsFirm(digest, Catalogue(Run(true, digest, s, steps).messages, c.0, c.1));
  }

  // ----- whole runs without FORCE -----

  /** Without FORCE, a whole seed keeps every meta row right, changes no existing row, and
      adds exactly the source keys that had no row in their language. */
  lemma {:induction false} SeedWithoutForce(digest: Digest, s: State, steps: seq<Step>)
    requires GoodSteps(steps) && Consistent(digest, s.messages, s.metas)
    ensures
      var t := Run(false, digest, s, steps);
      && Consistent(digest, t.messages, t.metas)
      && (forall p :: p in s.messages ==> p in t.messages && t.messages[p] == s.messages[p])
      && (forall p :: p in t.messages ==> p in s.messages || Supplied(steps, p))
      && (forall p :: Supplied(steps, p) ==> p in t.messages)
  {
    if steps != [] {
      var front, last := steps[..|steps| - 1], steps[|steps| - 1];
      var u := Run(false, digest, s, front);
      SeedWithoutForce(digest, s, front);
      forall c | c in u.metas ensures !Disturbs(digest, false, u.messages, last, c) {
        DisturbsExactly(digest, false, u.messages, last, c);
      }
      StepConsistentExactly(false, digest, u, last);
      forall p ensures p in Run(false, digest, s, steps).messages <==> p in u.messages || Supplies(last, p)
               ensures p in u.messages ==> Run(false, digest, s, steps).messages[p] == u.messages[p]
               ensures Supplied(steps, p) <==> Supplied(front, p) || Supplies(last, p)
      {
        RowAfterUpserts(false, u.messages, last.source.lang, last.ns, last.source.pairs, p);
        SuppliedStep(steps, p);
      }
    }
  }

  predicate Supplies(step: Step, p: (string, string)) {
    p.1 == step.source.lang && Lookup(step.source.pairs, p.0).Some?
  }

  predicate Supplied(steps: seq<Step>, p: (string, string)) {
    exists i :: 0 <= i < |steps| && Supplies(steps[i], p)
  }

  lemma SuppliedStep(steps: seq<Step>, p: (string, string))
    requires steps != []
    ensures Supplied(steps, p) <==> Supplied(steps[..|steps| - 1], p) || Supplies(steps[|steps| - 1], p)
  {
    var front := steps[..|steps| - 1];
    assert forall i :: 0 <= i < |front| ==> front[i] == steps[i];
  }

  // ----- whole runs with FORCE -----

  /** No source key has a row under another namespace in its language, and no two
      namespaces of the run supply the same key for one language. */
  ghost predicate KeysKeepToNamespaces(ms: Messages, steps: seq<Step>) {
    && (forall i, p :: 0 <= i < |steps| && Supplies(steps[i], p) && p in ms ==> ms[p].namespace == steps[i].ns)
    && (forall i, j, p :: 0 <= i < j < |steps| && Supplies(steps[i], p) && Supplies(steps[j], p) ==>
        steps[i].ns == steps[j].ns)
  }

  /** Where a row's namespace comes from. */
  lemma {:induction false} RowOrigin(force: bool, digest: Digest, s: State, steps: seq<Step>, p: (string, string))
    requires GoodSteps(steps) && p in Run(force, digest, s, steps).messages
    ensures
      var ns := Run(force, digest, s, steps).messages[p].namespace;
      if p in s.messages then ns == s.messages[p].namespace
      else exists i :: 0 <= i < |steps| && Supplies(steps[i], p) && ns == steps[i].ns
  {
    if steps != [] {
      var front, last := steps[..|steps| - 1], steps[|steps| - 1];
      var u := Run(force, digest, s, front);
      RowAfterUpserts(force, u.messages, last.source.lang, last.ns, last.source.pairs, p);
      if p in u.messages {
        RowOrigin(force, digest, s, front, p);
        if p !in s.messages {
          var i :| 0 <= i < |front| && Supplies(front[i], p) && u.messages[p].namespace == front[i].ns;
          assert Supplies(steps[i], p);
        }
      } else {
        assert p !in s.messages by { RowsStay(force, digest, s, front, p); }
      }
    }
  }

  lemma {:induction false} RowsStay(force: bool, digest: Digest, s: State, steps: seq<Step>, p: (string, string))
    requires GoodSteps(steps)
    ensures p in s.messages ==> p in Run(force, digest, s, steps).messages
  {
    if steps != [] {
      var front, last := steps[..|steps| - 1], steps[|steps| - 1];
      RowsStay(force, digest, s, front, p);
      RowAfterUpserts(force, Run(force, digest, s, front).messages, last.source.lang, last.ns, last.source.pairs, p);
    }
  }

  /** With FORCE, a whole seed keeps every meta row right when the keys keep to their
      namespaces. */
  lemma {:induction false} SeedWithForce(digest: Digest, s: State, steps: seq<Step>)
    requires GoodSteps(steps) && Consistent(digest, s.messages, s.metas) && KeysKeepToNamespaces(s.messages, steps)
    ensures var t := Run(true, digest, s, steps); Consistent(digest, t.messages, t.metas)
  {
    if steps != [] {
      var n := |steps| - 1;
      var front, last := steps[..n], steps[n];
      var u := Run(true, digest, s, front);
      SeedWithForce(digest, s, front);
      forall c | c in u.metas ensures !Disturbs(digest, true, u.messages, last, c) {
        LastStaysHome(digest, s, steps, c);
        DisturbsExactly(digest, true, u.messages, last, c);
      }
      StepConsistentExactly(true, digest, u, last);
    }
  }

  lemma LastStaysHome(digest: Digest, s: State, steps: seq<Step>, c: (string, string))
    requires GoodSteps(steps) && KeysKeepToNamespaces(s.messages, steps) && steps != []
    ensures !Intrudes(true, Run(true, digest, s, steps[..|steps| - 1]).messages, steps[|steps| - 1], c)
  {
    var n := |steps| - 1;
    var front, last := steps[..n], steps[n];
    var u := Run(true, digest, s, front);
    forall p | p in u.messages && Supplies(last, p) ensures u.messages[p].namespace == last.ns {
      RowOrigin(true, digest, s, front, p);
      if p !in s.messages {
        var i :| 0 <= i < n && Supplies(front[i], p) && u.messages[p].namespace == front[i].ns;
        assert steps[i].ns == steps[n].ns;
      }
    }
  }

  // ----- exactly when a forced run leaves every meta row right -----

  /** The step takes the meta row of catalogue c. */
  predicate Stamps(step: Step, c: (string, string)) {
    step.source.pairs != [] && c == (step.source.lang, step.ns)
  }

  /** How many steps have run when the meta row of c is last taken; zero if it never is. */
  function LastStamp(steps: seq<Step>, c: (string, string)): (k: nat)
    ensures k <= |steps|
  {
    if steps == [] then 0
    else if Stamps(steps[|steps| - 1], c) then |steps|
    else LastStamp(steps[..|steps| - 1], c)
  }

  /** The row at p after forced steps: it stays in the namespace it was first stored under,
      with the value it was last given. */
  function RowOf(ms: Messages, steps: seq<Step>, p: (string, string)): Option<Row> {
    if steps == [] then (if p in ms then Some(ms[p]) else None)
    else
      var r, last := RowOf(ms, steps[..|steps| - 1], p), steps[|steps| - 1];
      if !Supplies(last, p) then r
      else Some(Row(if r.Some? then r.value.namespace else last.ns, Lookup(last.source.pairs, p.0).value))
  }

  predicate BelongsTo(r: Option<Row>, ns: string) {
    r.Some? && r.value.namespace == ns
  }

  /** No row of catalogue c gets a new value after c's meta row was last taken. */
  ghost predicate LeftAlone(ms: Messages, steps: seq<Step>, c: (string, string)) {
    forall key: string :: LeftAloneAt(ms, steps, c, key)
  }

  predicate LeftAloneAt(ms: Messages, steps: seq<Step>, c: (string, string), key: string) {
    BelongsTo(RowOf(ms, steps[..LastStamp(steps, c)], (key, c.0)), c.1) ==>
      RowOf(ms, steps, (key, c.0)) == RowOf(ms, steps[..LastStamp(steps, c)], (key, c.0))
  }

  lemma {:induction false} RowAfterRun(digest: Digest, s: State, steps: seq<Step>, p: (string, string))
    requires GoodSteps(steps)
    ensures var t := Run(true, digest, s, steps).messages;
            RowOf(s.messages, steps, p) == if p in t then Some(t[p]) else None
    decreases |steps|
  {
    if steps != [] {
      var front, last := steps[..|steps| - 1], steps[|steps| - 1];
      RowAfterRun(digest, s, front, p);
      RowAfterUpserts(true, Run(true, digest, s, front).messages, last.source.lang, last.ns, last.source.pairs, p);
    }
  }

  /** The rows there were when the meta row of c was last taken. */
  function AtLastStamp(digest: Digest, s: State, steps: seq<Step>, c: (string, string)): Messages {
    Run(true, digest, s, steps[..LastStamp(steps, c)]).messages
  }

  lemma StampNow(digest: Digest, s: State, steps: seq<Step>, c: (string, string))
    requires steps != [] && Stamps(steps[|steps| - 1], c)
    ensures LastStamp(steps, c) == |steps| && AtLastStamp(digest, s, steps, c) == Run(true, digest, s, steps).messages
    ensures c in Run(true, digest, s, steps).metas
    ensures Run(true, digest, s, steps).metas[c] == MetaOf(digest, Run(true, digest, s, steps).messages, c.0, c.1)
  {
    assert steps[..|steps|] == steps;
  }

  lemma StampBefore(digest: Digest, s: State, steps: seq<Step>, c: (string, string))
    requires steps != [] && !Stamps(steps[|steps| - 1], c)
    ensures var front := steps[..|steps| - 1];
            && LastStamp(steps, c) == LastStamp(front, c)
            && AtLastStamp(digest, s, steps, c) == AtLastStamp(digest, s, front, c)
            && (c in Run(true, digest, s, steps).metas <==> c in Run(true, digest, s, front).metas)
            && (c in Run(true, digest, s, steps).metas ==>
                  Run(true, digest, s, steps).metas[c] == Run(true, digest, s, front).metas[c])
  {
    var front := steps[..|steps| - 1];
    assert steps[..LastStamp(front, c)] == front[..LastStamp(front, c)];
  }

  /** A meta row describes the rows there were when it was last taken. */
  lemma {:induction false} MetaFromLastStamp(digest: Digest, s: State, steps: seq<Step>, c: (string, string))
    requires c in s.metas ==> s.metas[c] == MetaOf(digest, s.messages, c.0, c.1)
    ensures c in Run(true, digest, s, steps).metas <==> Hashed(s.metas, steps, c)
    ensures c in Run(true, digest, s, steps).metas ==>
              Run(true, digest, s, steps).metas[c] == MetaOf(digest, AtLastStamp(digest, s, steps, c), c.0, c.1)
    decreases |steps|
  {
    if steps != [] {
      if Stamps(steps[|steps| - 1], c) {
        StampNow(digest, s, steps, c);
      } else {
        StampBefore(digest, s, steps, c);
        MetaFromLastStamp(digest, s, steps[..|steps| - 1], c);
      }
    }
  }

  predicate Hashed(metas: Metas, steps: seq<Step>, c: (string, string)) {
    c in metas || LastStamp(steps, c) > 0
  }

  /** Only the steps that take a catalogue's meta row add rows to it. */
  lemma {:induction false} NoLateRows(ms: Messages, steps: seq<Step>, c: (string, string), key: string)
    ensures BelongsTo(RowOf(ms, steps, (key, c.0)), c.1) <==>
            BelongsTo(RowOf(ms, steps[..LastStamp(steps, c)], (key, c.0)), c.1)
    decreases |steps|
  {
    if steps != [] {
      var front, last := steps[..|steps| - 1], steps[|steps| - 1];
      if Stamps(last, c) {
        assert steps[..|steps|] == steps;
      } else {
        NoLateRows(ms, front, c, key);
        assert steps[..LastStamp(front, c)] == front[..LastStamp(front, c)];
      }
    }
  }

  lemma CatalogueStays(digest: Digest, s: State, steps: seq<Step>, c: (string, string))
    requires GoodSteps(steps)
    ensures Catalogue(AtLastStamp(digest, s, steps, c), c.0, c.1).Keys ==
            Catalogue(Run(true, digest, s, steps).messages, c.0, c.1).Keys
    ensures Catalogue(AtLastStamp(digest, s, steps, c), c.0, c.1) ==
            Catalogue(Run(true, digest, s, steps).messages, c.0, c.1)
            <==> LeftAlone(s.messages, steps, c)
  {
    var early := steps[..LastStamp(steps, c)];
    var a := Catalogue(Run(true, digest, s, early).messages, c.0, c.1);
    var b := Catalogue(Run(true, digest, s, steps).messages, c.0, c.1);
    forall key: string
      ensures key in a <==> key in b
      ensures LeftAloneAt(s.messages, steps, c, key) <==> (key in a ==> a[key] == b[key])
    {
      NoLateRows(s.messages, steps, c, key);
      RowAfterRun(digest, s, early, (key, c.0));
      RowAfterRun(digest, s, steps, (key, c.0));
      InCatalogue(Run(true, digest, s, early).messages, c, key);
      InCatalogue(Run(true, digest, s, steps).messages, c, key);
    }
    assert a.Keys == b.Keys;
  }

  /** The text catalogue c is hashed from is the one its meta row was last taken of. */
  ghost predicate TextKept(digest: Digest, s: State, steps: seq<Step>, c: (string, string)) {
    Payload(digest, Catalogue(AtLastStamp(digest, s, steps, c), c.0, c.1)) ==
    Payload(digest, Catalogue(Run(true, digest, s, steps).messages, c.0, c.1))
  }

  lemma MetaKept(digest: Digest, s: State, steps: seq<Step>, c: (string, string))
    requires GoodSteps(steps) && Consistent(digest, s.messages, s.metas)
    ensures var t := Run(true, digest, s, steps);
            && (c in t.metas <==> Hashed(s.metas, steps, c))
            && (c in t.metas && TextKept(digest, s, steps, c) ==> t.metas[c] == MetaOf(digest, t.messages, c.0, c.1))
            && (CollisionFree(digest) && c in t.metas && t.metas[c] == MetaOf(digest, t.messages, c.0, c.1) ==>
                  TextKept(digest, s, steps, c))
  {
    MetaFromLastStamp(digest, s, steps, c);
    CatalogueStays(digest, s, steps, c);
    SameKeysSameCount(Catalogue(AtLastStamp(digest, s, steps, c), c.0, c.1),
                      Catalogue(Run(true, digest, s, steps).messages, c.0, c.1));
  }

  /** With FORCE, a whole seed keeps every meta row right exactly when the text of every
      hashed catalogue ends as it was when its hash was last taken.  (That a changed text
      changes the hash needs a hash function without collisions.) */
  lemma ForcedSeedByText(digest: Digest, s: State, steps: seq<Step>)
    requires GoodSteps(steps) && Consistent(digest, s.messages, s.metas)
    ensures
      var t := Run(true, digest, s, steps);
      var kept := forall c :: Hashed(s.metas, steps, c) ==> TextKept(digest, s, steps, c);
      && (kept ==> Consistent(digest, t.messages, t.metas))
      && (CollisionFree(digest) && Consistent(digest, t.messages, t.metas) ==> kept)
  {
    forall c: (string, string) {
      MetaKept(digest, s, steps, c);
    }
  }

  /** Catalogue c is readable as its hash was last taken, or as it is after the run. */
  predicate ReadableEnd(digest: Digest, s: State, steps: seq<Step>, c: (string, string)) {
    || Readable(digest, Catalogue(AtLastStamp(digest, s, steps, c), c.0, c.1))
    || Readable(digest, Catalogue(Run(true, digest, s, steps).messages, c.0, c.1))
  }

  /** The text of a catalogue is kept when no row of it is rewritten after its hash was last
      taken; for a catalogue that is readable then or afterwards, only then. */
  lemma TextKeptExactly(digest: Digest, s: State, steps: seq<Step>, c: (string, string))
    requires GoodSteps(steps)
    ensures LeftAlone(s.messages, steps, c) ==> TextKept(digest, s, steps, c)
    ensures ListsKeys(digest) && ReadableEnd(digest, s, steps, c) && TextKept(digest, s, steps, c) ==>
              LeftAlone(s.messages, steps, c)
  {
    CatalogueStays(digest, s, steps, c);
    if ListsKeys(digest) && ReadableEnd(digest, s, steps, c) {
      PayloadTells(digest, Catalogue(AtLastStamp(digest, s, steps, c), c.0, c.1),
                   Catalogue(Run(true, digest, s, steps).messages, c.0, c.1));
    }
  }

  /** With FORCE, a whole seed keeps every meta row right when no row of a hashed catalogue
      gets a new value after the catalogue's hash was last taken; and if it does keep them
      right, then no row of a readable catalogue got one.  (That a changed text changes the
      hash needs a hash function without collisions.) */
  lemma ForcedSeedExactly(digest: Digest, s: State, steps: seq<Step>)
    requires GoodSteps(steps) && Consistent(digest, s.messages, s.metas)
    ensures
      var t := Run(true, digest, s, steps);
      && ((forall c :: Hashed(s.metas, steps, c) ==> LeftAlone(s.messages, steps, c)) ==>
            Consistent(digest, t.messages, t.metas))
      && (CollisionFree(digest) && ListsKeys(digest) && Consistent(digest, t.messages, t.metas) ==>
            forall c :: Hashed(s.metas, steps, c) && ReadableEnd(digest, s, steps, c) ==>
              LeftAlone(s.messages, steps, c))
  {
    forall c: (string, string)
      ensures LeftAlone(s.messages, steps, c) ==> TextKept(digest, s, steps, c)
      ensures ListsKeys(digest) && ReadableEnd(digest, s, steps, c) && TextKept(digest, s, steps, c) ==>
                LeftAlone(s.messages, steps, c)
    {
      TextKeptExactly(digest, s, steps, c);
    }
    ForcedSeedByText(digest, s, steps);
  }

  /** One message on empty tables. */
  lemma FirstMessage(digest: Digest, key: string, lang: string, ns: string, value: string)
    ensures
      var t := RunStep(true, digest, State(map[], map[]), Step(ns, Source(lang, [(key, value)])));
      && Consistent(digest, t.messages, t.metas)
      && t.messages == map[(key, lang) := Row(ns, value)]
      && (lang, ns) in t.metas
  {
    var pairs := [(key, value)];
    RowAfterUpserts(true, map[], lang, ns, pairs, (key, lang));
    assert Lookup(pairs, key) == Some(value);
    StepConsistentExactly(true, digest, State(map[], map[]), Step(ns, Source(lang, pairs)));
  }

  /** The text of a catalogue of one row tells the row's value. */
  lemma OneRowTells(d: Digest, key: string, a: string, b: string)
    requires ListsKeys(d)
    ensures Payload(d, map[key := a]) == Payload(d, map[key := b]) ==> a == b
  {
    var keys := d.order({key});
    assert Listed(keys, {key});
    ListedAlone(keys, key);
    assert map[key := a].Keys == {key} == map[key := b].Keys;
    if Payload(d, map[key := a]) == Payload(d, map[key := b]) {
      CancelPrefix(key + "=", a, b);
    }
  }

  /** The second half of KeysKeepToNamespaces is needed even on empty tables: a key both
      namespaces supply is inserted under the first and rewritten by the second, after
      the first one's hash was taken. */
  lemma SharedKeyLeavesStaleHash(digest: Digest, key: string, lang: string, ns: string, a: string, ns2: string,
          b: string)
    requires CollisionFree(digest) && ListsKeys(digest) && ns != ns2 && a != b
    ensures
      var u := RunStep(true, digest, State(map[], map[]), Step(ns, Source(lang, [(key, a)])));
      var t := RunStep(true, digest, u, Step(ns2, Source(lang, [(key, b)])));
      !Consistent(digest, t.messages, t.metas)
  {
    var u := RunStep(true, digest, State(map[], map[]), Step(ns, Source(lang, [(key, a)])));
    var second := Step(ns2, Source(lang, [(key, b)]));
    FirstMessage(digest, key, lang, ns, a);
    SecondMessage(u.messages, key, lang, ns, a, ns2, b);
    OneRowTells(digest, key, a, b);
    assert Disturbs(digest, true, u.messages, second, (lang, ns));
    StepConsistentExactly(true, digest, u, second);
  }

  lemma SecondMessage(ms: Messages, key: string, lang: string, ns: string, a: string, ns2: string, b: string)
    requires ms == map[(key, lang) := Row(ns, a)]
    ensures var after := SeededMessages(true, ms, ns2, Source(lang, [(key, b)]));
            after == map[(key, lang) := Row(ns, b)]
            && Catalogue(ms, lang, ns) == map[key := a] && Catalogue(after, lang, ns) == map[key := b]
  {
    var pairs := [(key, b)];
    assert pairs[..0] == [] && UpsertAll(true, ms, lang, ns2, pairs[..0]) == ms;
    assert UpsertAll(true, ms, lang, ns2, pairs) == Upsert(true, ms, key, lang, ns2, b);
  }

  /** A forced source that rewrites both rows of a catalogue. */
  lemma BothRewritten(ms: Messages, lang: string, ns: string, ns2: string, old_: Slice, new_: Slice, k: string,
          l: string)
    requires k != l && old_.Keys == {k, l} == new_.Keys
    requires ms == map[(k, lang) := Row(ns, old_[k]), (l, lang) := Row(ns, old_[l])]
    ensures Catalogue(ms, lang, ns) == old_
    ensures Catalogue(SeededMessages(true, ms, ns2, Source(lang, [(k, new_[k]), (l, new_[l])])), lang, ns) == new_
  {
    var pairs := [(k, new_[k]), (l, new_[l])];
    var after := SeededMessages(true, ms, ns2, Source(lang, pairs));
    forall key: string
      ensures key in Catalogue(ms, lang, ns) <==> key in old_
      ensures key in old_ ==> Catalogue(ms, lang, ns)[key] == old_[key]
    {
      InCatalogue(ms, (lang, ns), key);
    }
    forall key: string
      ensures key in Catalogue(after, lang, ns) <==> key in new_
      ensures key in new_ ==> Catalogue(after, lang, ns)[key] == new_[key]
    {
      EachRewritten(ms, lang, ns, ns2, old_, new_, k, l, key);
    }
  }

  lemma EachRewritten(ms: Messages, lang: string, ns: string, ns2: string, old_: Slice, new_: Slice, k: string,
          l: string, key: string)
    requires k != l && old_.Keys == {k, l} == new_.Keys
    requires ms == map[(k, lang) := Row(ns, old_[k]), (l, lang) := Row(ns, old_[l])]
    ensures var rows := Catalogue(SeededMessages(true, ms, ns2, Source(lang, [(k, new_[k]), (l, new_[l])])), lang, ns);
            (key in rows <==> key in new_) && (key in new_ ==> rows[key] == new_[key])
  {
    var pairs := [(k, new_[k]), (l, new_[l])];
    InCatalogue(SeededMessages(true, ms, ns2, Source(lang, pairs)), (lang, ns), key);
    RowAfterUpserts(true, ms, lang, ns2, pairs, (key, lang));
    TwoPairs(k, new_[k], l, new_[l], key);
  }

  lemma TwoPairs(k: string, v: string, l: string, w: string, key: string)
    requires k != l
    ensures Lookup([(k, v), (l, w)], key) == if key == k then Some(v) else if key == l then Some(w) else None
  {
    assert [(k, v), (l, w)][..1] == [(k, v)] && [(k, v)][..0] == [];
    assert Lookup([(k, v)], key) == if key == k then Some(v) else None;
  }

  /** Rewriting both rows goes unseen if the text stays the same. */
  lemma UnseenRewriting(digest: Digest, ms: Messages, lang: string, ns: string, ns2: string, old_: Slice,
          new_: Slice, k: string, l: string)
    requires k != l && old_.Keys == {k, l} == new_.Keys && ns != ns2
    requires ms == map[(k, lang) := Row(ns, old_[k]), (l, lang) := Row(ns, old_[l])]
    requires old_ != new_ && Payload(digest, old_) == Payload(digest, new_)
    ensures
      var step := Step(ns2, Source(lang, [(k, new_[k]), (l, new_[l])]));
      var t := RunStep(true, digest, State(ms, map[(lang, ns) := MetaOf(digest, ms, lang, ns)]), step);
      Intrudes(true, ms, step, (lang, ns)) && Consistent(digest, t.messages, t.metas)
  {
    var step := Step(ns2, Source(lang, [(k, new_[k]), (l, new_[l])]));
    BothRewritten(ms, lang, ns, ns2, old_, new_, k, l);
    OtherCatalogue(true, ms, step, (lang, ns));
    StepConsistentExactly(true, digest, State(ms, map[(lang, ns) := MetaOf(digest, ms, lang, ns)]), step);
  }

  /** A newline can hide a rewritten row from the hash: the second namespace rewrites both
      rows of the first, and the first one's meta row is still right. */
  lemma IntrusionUnseen(digest: Digest)
    requires digest.order({"a", "b"}) == ["a", "b"]
    ensures
      var (x, y) := (map["a" := "1\nb=2", "b" := "3"], map["a" := "1", "b" := "2\nb=3"]);
      var ms: Messages := map[("a", "fr") := Row("mobile", x["a"]), ("b", "fr") := Row("mobile", x["b"])];
      var step := Step("app", Source("fr", [("a", y["a"]), ("b", y["b"])]));
      var t := RunStep(true, digest, State(ms, map[("fr", "mobile") := MetaOf(digest, ms, "fr", "mobile")]), step);
      Intrudes(true, ms, step, ("fr", "mobile")) && Consistent(digest, t.messages, t.metas)
  {
    var (x, y) := (map["a" := "1\nb=2", "b" := "3"], map["a" := "1", "b" := "2\nb=3"]);
    var ms: Messages := map[("a", "fr") := Row("mobile", x["a"]), ("b", "fr") := Row("mobile", x["b"])];
    SameTextOfDifferentRows(digest);
    UnseenRewriting(digest, ms, "fr", "mobile", "app", x, y, "a", "b");
  }

  // ----- seeding twice -----

  /** A step whose rows are all there, on tables whose meta rows are right, does
      nothing. */
  lemma StepIsIdle(digest: Digest, s: State, step: Step)
    requires UniqueKeys(step.source.pairs) && Consistent(digest, s.messages, s.metas)
    requires forall p :: Supplies(step, p) ==> p in s.messages
    requires step.source.pairs != [] ==> (step.source.lang, step.ns) in s.metas
    ensures RunStep(false, digest, s, step) == s
  {
    IdleMessages(s.messages, step);
    var own := (step.source.lang, step.ns);
    if step.source.pairs != [] {
      assert s.metas[own] == MetaOf(digest, s.messages, own.0, own.1);
      assert s.metas[own := s.metas[own]] == s.metas;
    }
  }

  lemma IdleMessages(ms: Messages, step: Step)
    requires UniqueKeys(step.source.pairs) && forall p :: Supplies(step, p) ==> p in ms
    ensures SeededMessages(false, ms, step.ns, step.source) == ms
  {
    var after := SeededMessages(false, ms, step.ns, step.source);
    forall p ensures p in after <==> p in ms
             ensures p in after ==> after[p] == ms[p]
    {
      RowAfterUpserts(false, ms, step.source.lang, step.ns, step.source.pairs, p);
    }
    assert after == ms;
  }

  predicate Stamped(steps: seq<Step>, metas: Metas) {
    forall i :: 0 <= i < |steps| && steps[i].source.pairs != [] ==> (steps[i].source.lang, steps[i].ns) in metas
  }

  lemma {:induction false} RunStamps(force: bool, digest: Digest, s: State, steps: seq<Step>)
    ensures Stamped(steps, Run(force, digest, s, steps).metas)
  {
    if steps != [] {
      RunStamps(force, digest, s, steps[..|steps| - 1]);
      assert forall i :: 0 <= i < |steps| - 1 ==> steps[..|steps| - 1][i] == steps[i];
    }
  }

  lemma {:induction false} RunIsIdle(digest: Digest, s: State, steps: seq<Step>)
    requires GoodSteps(steps) && Consistent(digest, s.messages, s.metas) && Stamped(steps, s.metas)
    requires forall p :: Supplied(steps, p) ==> p in s.messages
    ensures Run(false, digest, s, steps) == s
  {
    if steps != [] {
      var front, last := steps[..|steps| - 1], steps[|steps| - 1];
      forall p ensures Supplied(front, p) || Supplies(last, p) ==> p in s.messages {
        SuppliedStep(steps, p);
      }
      assert forall i :: 0 <= i < |front| ==> front[i] == steps[i];
      RunIsIdle(digest, s, front);
      StepIsIdle(digest, s, last);
    }
  }

  /** Seeding again without FORCE changes nothing. */
  lemma SeedTwice(digest: Digest, s: State, steps: seq<Step>)
    requires GoodSteps(steps) && Consistent(digest, s.messages, s.metas)
    ensures Run(false, digest, Run(false, digest, s, steps), steps) == Run(false, digest, s, steps)
  {
    SeedWithoutForce(digest, s, steps);
    RunStamps(false, digest, s, steps);
    RunIsIdle(digest, Run(false, digest, s, steps), steps);
  }
}
