/** The hash of a catalogue: its rows in key order, one "key=value" a line, through a hash
    function.  Values may hold newlines, so the text does not always tell which rows it came
    from. */
module LocaleDigest {
  import opened Wrappers

  /** A catalogue's values by key. */
  type Slice = map<string, string>

  /** The hash function, and the order the database lists keys in. */
  datatype Digest = Digest(hash: string -> string, order: set<string> -> seq<string>)

  function Line(key: string, rows: Slice): string {
    key + "=" + if key in rows then rows[key] else ""
  }

  /** "\n".join over the keys. */
  function Lines(keys: seq<string>, rows: Slice): string {
    if keys == [] then ""
    else if |keys| == 1 then Line(keys[0], rows)
    else Line(keys[0], rows) + "\n" + Lines(keys[1..], rows)
  }

  function Payload(d: Digest, rows: Slice): string {
    Lines(d.order(rows.Keys), rows)
  }

  function HashOf(d: Digest, rows: Slice): string {
    d.hash(Payload(d, rows))
  }

  /** No two texts share a hash. */
  ghost predicate CollisionFree(d: Digest) {
    forall a: string, b: string :: d.hash(a) == d.hash(b) ==> a == b
  }

  /** ORDER BY lists each key once. */
  ghost predicate ListsKeys(d: Digest) {
    forall s: set<string> :: Listed(d.order(s), s)
  }

  ghost predicate Listed(keys: seq<string>, s: set<string>) {
    && (forall k :: k in s <==> k in keys)
    && (forall i, j :: 0 <= i < j < |keys| ==> keys[i] != keys[j])
  }

  lemma {:induction false} DistinctCount(keys: seq<string>)
    requires forall i, j :: 0 <= i < j < |keys| ==> keys[i] != keys[j]
    ensures |set k | k in keys| == |keys|
  {
    if keys != [] {
      var front, last := keys[..|keys| - 1], keys[|keys| - 1];
      DistinctCount(front);
      assert (set k | k in keys) == (set k | k in front) + {last};
    }
  }

  lemma ListedAlone(keys: seq<string>, key: string)
    requires Listed(keys, {key})
    ensures keys == [key]
  {
    DistinctCount(keys);
    assert (set k | k in keys) == {key};
    assert keys[0] in keys;
  }

  // ----- when the text tells the rows -----

  predicate OccursAt(pat: string, s: string, i: nat) {
    i + |pat| <= |s| && s[i..i + |pat|] == pat
  }

  predicate Occurs(pat: string, s: string) {
    exists i: nat :: i <= |s| && OccursAt(pat, s, i)
  }

  /** What stands between a value and the value of the next key. */
  function Separator(key: string): string {
    "\n" + key + "="
  }

  /** The value cannot be taken for the end of one line and the start of another. */
  predicate ClearValue(keys: set<string>, value: string) {
    forall k :: k in keys ==> !Occurs(Separator(k), value)
  }

  predicate ClearKeys(keys: set<string>) {
    forall k :: k in keys ==> '\n' !in k
  }

  predicate Clear(rows: Slice) {
    ClearKeys(rows.Keys) && forall k :: k in rows ==> ClearValue(rows.Keys, rows[k])
  }

  /** A separator does not occur across the start of another. */
  lemma NoOverlap(key: string, w: string, rest: string, i: nat)
    requires '\n' !in key && i < |w| < i + |Separator(key)| <= |w + Separator(key) + rest|
    ensures !OccursAt(Separator(key), w + Separator(key) + rest, i)
  {
    var sep, whole := Separator(key), w + Separator(key) + rest;
    var n := |w| - i;
    assert whole[|w|] == '\n';
    assert sep[n] == if n - 1 < |key| then key[n - 1] else '=';
    assert whole[i..i + |sep|][n] == whole[|w|];
  }

  /** A value ends where the next separator first occurs. */
  lemma ValueEnds(key: string, v: string, w: string, a: string, b: string)
    requires '\n' !in key && !Occurs(Separator(key), w)
    requires v + Separator(key) + a == w + Separator(key) + b
    ensures |v| >= |w|
  {
    var sep, whole := Separator(key), w + Separator(key) + b;
    assert OccursAt(sep, whole, |v|) by {
      assert (v + sep + a)[|v|..|v| + |sep|] == sep;
    }
    assert |v| + |sep| <= |w| ==> OccursAt(sep, w, |v|) by {
      assert |v| + |sep| <= |w| ==> w[|v|..|v| + |sep|] == whole[|v|..|v| + |sep|];
    }
    if |v| < |w| < |v| + |sep| {
      NoOverlap(key, w, b, |v|);
    }
  }

  // ----- the text tells the rows exactly when no separator can move -----

  function ValueOf(key: string, rows: Slice): string {
    if key in rows then rows[key] else ""
  }

  /** The lines without the first key. */
  function Tail(keys: seq<string>, rows: Slice): string
    requires keys != []
  {
    ValueOf(keys[0], rows) + if |keys| == 1 then "" else Separator(keys[1]) + Tail(keys[1..], rows)
  }

  lemma {:induction false} LinesTail(keys: seq<string>, rows: Slice)
    requires keys != []
    ensures Lines(keys, rows) == (keys[0] + "=") + Tail(keys, rows)
    decreases |keys|
  {
    if |keys| > 1 {
      LinesTail(keys[1..], rows);
      var (k, l, v, rest) := (keys[0], keys[1], ValueOf(keys[0], rows), Tail(keys[1..], rows));
      assert (k + "=" + v) + "\n" + ((l + "=") + rest) == (k + "=") + (v + (("\n" + l + "=") + rest));
    }
  }

  /** The separator before key i does not occur in the values on either side of it. */
  predicate StandsFirm(keys: seq<string>, rows: Slice, i: nat)
    requires 0 < i < |keys|
  {
    && !Occurs(Separator(keys[i]), ValueOf(keys[i - 1], rows))
    && !Occurs(Separator(keys[i]), ValueOf(keys[i], rows))
  }

  predicate AllStandFirm(keys: seq<string>, rows: Slice) {
    forall i :: 0 < i < |keys| ==> StandsFirm(keys, rows, i)
  }

  lemma CancelPrefix(p: string, a: string, b: string)
    requires p + a == p + b
    ensures a == b
  {
    assert a == (p + a)[|p|..] && b == (p + b)[|p|..];
  }

  lemma RestStandsFirm(keys: seq<string>, rows: Slice)
    requires |keys| > 1 && AllStandFirm(keys, rows)
    ensures AllStandFirm(keys[1..], rows) && StandsFirm(keys, rows, 1)
  {
    var rest := keys[1..];
    forall i | 0 < i < |rest| ensures StandsFirm(rest, rows, i) {
      assert StandsFirm(keys, rows, i + 1);
      assert rest[i] == keys[i + 1] && rest[i - 1] == keys[i];
    }
  }

  /** If a separator stands later in v than in w, all of one fits in between. */
  lemma SeparatorLater(key: string, w: string, a: string, v: string, b: string) returns (z: string)
    requires '\n' !in key && |v| > |w|
    requires w + (Separator(key) + a) == v + (Separator(key) + b)
    ensures a == (z + Separator(key)) + b
  {
    var sep := Separator(key);
    var whole := v + (sep + b);
    assert whole == v + sep + b;
    assert OccursAt(sep, whole, |w|) by {
      assert (w + (sep + a))[|w|..|w| + |sep|] == sep;
    }
    if |v| < |w| + |sep| {
      NoOverlap(key, v, b, |w|);
    }
    z := v[|w| + |sep|..];
    assert a == (w + (sep + a))[|w| + |sep|..];
    assert whole[|w| + |sep|..] == z + sep + b;
  }

  lemma NotEarlier(key: string, v: string, w: string, x: string, y: string)
    requires '\n' !in key && !Occurs(Separator(key), w)
    requires w + (Separator(key) + x) == v + (Separator(key) + y)
    ensures |v| >= |w|
  {
    assert v + (Separator(key) + y) == v + Separator(key) + y;
    assert w + (Separator(key) + x) == w + Separator(key) + x;
    ValueEnds(key, v, w, y, x);
  }

  lemma HoldsSeparator(key: string, z: string, rest: string)
    ensures Occurs(Separator(key), (z + Separator(key)) + rest)
  {
    var sep := Separator(key);
    assert (z + sep + rest)[|z|..|z| + |sep|] == sep;
    assert OccursAt(sep, z + sep + rest, |z|);
  }

  lemma SameLength(v: string, w: string, a: string, b: string)
    requires v + a == w + b && |v| == |w|
    ensures v == w && a == b
  {
    assert v == (v + a)[..|v|] && w == (w + b)[..|w|];
    assert a == (v + a)[|v|..] && b == (w + b)[|w|..];
  }

  /** Two cuts of one text at a separator: the same, or the second later by a whole one. */
  lemma Align(key: string, w: string, x: string, v: string, y: string) returns (gap: Option<string>)
    requires '\n' !in key && !Occurs(Separator(key), w)
    requires w + (Separator(key) + x) == v + (Separator(key) + y)
    ensures gap.None? ==> v == w && x == y
    ensures gap.Some? ==> x == gap.value + Separator(key) + y
  {
    NotEarlier(key, v, w, x, y);
    if |v| > |w| {
      var z := SeparatorLater(key, w, x, v, y);
      gap := Some(z);
    } else {
      SameLength(v, w, Separator(key) + y, Separator(key) + x);
      CancelPrefix(Separator(key), y, x);
      gap := None;
    }
  }

  lemma TailSplit(keys: seq<string>, rows: Slice, z: string)
    requires |keys| > 1
    ensures z + Tail(keys, rows) == (z + ValueOf(keys[0], rows)) + (Separator(keys[1]) + Tail(keys[1..], rows))
  {
    var v, rest := ValueOf(keys[0], rows), Separator(keys[1]) + Tail(keys[1..], rows);
    assert z + (v + rest) == (z + v) + rest;
  }

  /** Read from the left, the separators of another catalogue with the same text come no
      earlier; so if one came later, the value after it would hold the separator. */
  lemma {:induction false} TailTells(keys: seq<string>, a: Slice, b: Slice, z: string)
    requires keys != [] && (forall k :: k in keys ==> '\n' !in k) && AllStandFirm(keys, a)
    requires Tail(keys, a) == z + Tail(keys, b)
    ensures ValueOf(keys[0], a) == z + ValueOf(keys[0], b)
    ensures forall i :: 0 < i < |keys| ==> ValueOf(keys[i], a) == ValueOf(keys[i], b)
    decreases |keys|
  {
    if |keys| == 1 {
      assert Tail(keys, a) == ValueOf(keys[0], a) && Tail(keys, b) == ValueOf(keys[0], b);
    } else {
      var rest, key, w := keys[1..], keys[1], ValueOf(keys[0], a);
      RestStandsFirm(keys, a);
      TailSplit(keys, b, z);
      var gap := Align(key, w, Tail(rest, a), z + ValueOf(keys[0], b), Tail(rest, b));
      var z2 := if gap.Some? then gap.value + Separator(key) else "";
      NoGap(z2, Tail(rest, b));
      TailTells(rest, a, b, z2);
      NoGap(z2, ValueOf(key, b));
      if gap.Some? {
        HoldsSeparator(key, gap.value, ValueOf(key, b));
        assert false;
      }
      assert forall i :: 0 < i < |keys| ==> keys[i] == rest[i - 1];
    }
  }

  lemma NoGap(z: string, s: string)
    ensures z == "" ==> z + s == s
  {
  }

  /** A separator may be moved between two neighbouring values. */
  lemma {:induction false} MovedSeparator(keys: seq<string>, a: Slice, b: Slice, i: nat)
    requires 0 < i < |keys| && (forall m, n :: 0 <= m < n < |keys| ==> keys[m] != keys[n])
    requires forall m :: 0 <= m < |keys| && m != i && m != i - 1 ==> ValueOf(keys[m], a) == ValueOf(keys[m], b)
    requires ValueOf(keys[i - 1], a) + Separator(keys[i]) + ValueOf(keys[i], a) ==
             ValueOf(keys[i - 1], b) + Separator(keys[i]) + ValueOf(keys[i], b)
    ensures Tail(keys, a) == Tail(keys, b)
    decreases |keys|
  {
    var rest := keys[1..];
    if i > 1 {
      MovedSeparator(rest, a, b, i - 1);
      assert ValueOf(keys[0], a) == ValueOf(keys[0], b);
    } else {
      TailOfTwo(keys, a);
      TailOfTwo(keys, b);
      if |keys| > 2 {
        forall k | k in keys[2..] ensures ValueOf(k, a) == ValueOf(k, b) {
          var m :| 0 <= m < |keys[2..]| && keys[2..][m] == k;
          assert keys[m + 2] == k;
        }
        TailsAgree(keys[2..], a, b);
      }
    }
  }

  lemma TailOfTwo(keys: seq<string>, rows: Slice)
    requires |keys| > 1
    ensures Tail(keys, rows) ==
            (ValueOf(keys[0], rows) + Separator(keys[1]) + ValueOf(keys[1], rows))
            + if |keys| == 2 then "" else Separator(keys[2]) + Tail(keys[2..], rows)
  {
    var rest := keys[1..];
    var more := if |keys| == 2 then "" else Separator(keys[2]) + Tail(keys[2..], rows);
    assert Tail(rest, rows) == ValueOf(keys[1], rows) + more by {
      assert rest[0] == keys[1] && (|keys| > 2 ==> rest[1] == keys[2] && rest[1..] == keys[2..]);
    }
    assert Tail(keys, rows) == ValueOf(keys[0], rows) + (Separator(keys[1]) + Tail(rest, rows));
    Regroup(ValueOf(keys[0], rows), Separator(keys[1]), ValueOf(keys[1], rows), more);
  }

  lemma Regroup(a: string, b: string, c: string, d: string)
    ensures a + (b + (c + d)) == (a + b + c) + d
  {
  }

  lemma {:induction false} TailsAgree(keys: seq<string>, a: Slice, b: Slice)
    requires keys != [] && forall k :: k in keys ==> ValueOf(k, a) == ValueOf(k, b)
    ensures Tail(keys, a) == Tail(keys, b)
    decreases |keys|
  {
    if |keys| > 1 {
      TailsAgree(keys[1..], a, b);
    }
  }

  /** Around a separator that also occurs beside it, the text can be cut elsewhere. */
  lemma OtherCut(sep: string, x: string, y: string) returns (v: string, w: string)
    requires sep != "" && (Occurs(sep, x) || Occurs(sep, y))
    ensures v + sep + w == x + sep + y && |v| != |x|
  {
    if Occurs(sep, x) {
      var n: nat :| n <= |x| && OccursAt(sep, x, n);
      var rest := x[n + |sep|..];
      v, w := x[..n], rest + sep + y;
      assert x == v + sep + rest;
      assert v + sep + (rest + sep + y) == (v + sep + rest) + sep + y;
    } else {
      var n: nat :| n <= |y| && OccursAt(sep, y, n);
      var start := y[..n];
      v, w := x + sep + start, y[n + |sep|..];
      assert y == start + sep + w;
      assert (x + sep + start) + sep + w == x + sep + (start + sep + w);
    }
  }

  /** The text tells the rows of this catalogue: no other one with its keys has it. */
  ghost predicate TextTells(d: Digest, rows: Slice) {
    forall b: Slice :: b.Keys == rows.Keys && Payload(d, b) == Payload(d, rows) ==> b == rows
  }

  predicate FirmText(d: Digest, rows: Slice) {
    AllStandFirm(d.order(rows.Keys), rows)
  }

  lemma FirmTextTells(d: Digest, a: Slice, b: Slice)
    requires ListsKeys(d) && ClearKeys(a.Keys) && FirmText(d, a) && b.Keys == a.Keys && Payload(d, b) == Payload(d, a)
    ensures b == a
  {
    var keys := d.order(a.Keys);
    assert Listed(keys, a.Keys);
    if keys != [] {
      LinesTail(keys, a);
      LinesTail(keys, b);
      CancelPrefix(keys[0] + "=", Tail(keys, a), Tail(keys, b));
      assert "" + Tail(keys, b) == Tail(keys, b);
      TailTells(keys, a, b, "");
      assert "" + ValueOf(keys[0], b) == ValueOf(keys[0], b);
    }
    forall k | k in a ensures a[k] == b[k] {
      var i :| 0 <= i < |keys| && keys[i] == k;
      assert ValueOf(keys[i], a) == ValueOf(keys[i], b);
    }
  }

  lemma LooseTextMisleads(d: Digest, a: Slice, i: nat) returns (b: Slice)
    requires ListsKeys(d) && 0 < i < |d.order(a.Keys)| && !StandsFirm(d.order(a.Keys), a, i)
    ensures b.Keys == a.Keys && Payload(d, b) == Payload(d, a) && b != a
  {
    var keys := d.order(a.Keys);
    assert Listed(keys, a.Keys);
    var v, w := OtherCut(Separator(keys[i]), ValueOf(keys[i - 1], a), ValueOf(keys[i], a));
    assert keys[i - 1] in keys && keys[i] in keys;
    b := a[keys[i - 1] := v][keys[i] := w];
    assert b.Keys == a.Keys;
    assert ValueOf(keys[i - 1], b) == v && ValueOf(keys[i], b) == w;
    forall m | 0 <= m < |keys| && m != i && m != i - 1 ensures ValueOf(keys[m], a) == ValueOf(keys[m], b) {
      assert keys[m] != keys[i] && keys[m] != keys[i - 1];
    }
    MovedSeparator(keys, a, b, i);
    LinesTail(keys, a);
    LinesTail(keys, b);
    assert b[keys[i - 1]] != a[keys[i - 1]];
  }

  /** When keys hold no newlines, the text tells the rows exactly when no value holds the
      separator before its own key or before the next one. */
  lemma TextTellsExactly(d: Digest, rows: Slice)
    requires ListsKeys(d) && ClearKeys(rows.Keys)
    ensures TextTells(d, rows) <==> FirmText(d, rows)
  {
    if FirmText(d, rows) {
      forall b: Slice | b.Keys == rows.Keys && Payload(d, b) == Payload(d, rows) ensures b == rows {
        FirmTextTells(d, rows, b);
      }
    } else {
      var keys := d.order(rows.Keys);
      var i :| 0 < i < |keys| && !StandsFirm(keys, rows, i);
      var b := LooseTextMisleads(d, rows, i);
    }
  }

  /** A clear catalogue's text tells its rows. */
  lemma ClearIsFirm(d: Digest, rows: Slice)
    requires ListsKeys(d) && Clear(rows)
    ensures FirmText(d, rows)
  {
    var keys := d.order(rows.Keys);
    assert Listed(keys, rows.Keys);
    forall i | 0 < i < |keys| ensures StandsFirm(keys, rows, i) {
      assert keys[i - 1] in rows && keys[i] in rows;
      assert ClearValue(rows.Keys, rows[keys[i - 1]]) && ClearValue(rows.Keys, rows[keys[i]]);
    }
  }

  /** No key holds a newline, and the text tells the rows. */
  predicate Readable(d: Digest, rows: Slice) {
    ClearKeys(rows.Keys) && FirmText(d, rows)
  }

  /** Over the same keys, two catalogues with the same text are the same if the text of one
      of them tells its rows. */
  lemma PayloadTells(d: Digest, a: Slice, b: Slice)
    requires ListsKeys(d) && a.Keys == b.Keys && (Readable(d, a) || Readable(d, b))
    ensures Payload(d, a) == Payload(d, b) <==> a == b
  {
    if Payload(d, a) == Payload(d, b) {
      if FirmText(d, a) { FirmTextTells(d, a, b); } else { FirmTextTells(d, b, a); }
    }
  }

  /** Clearness is needed: a newline can move from one value to the next. */
  lemma SameTextOfDifferentRows(d: Digest)
    requires d.order({"a", "b"}) == ["a", "b"]
    ensures var (x, y) := (map["a" := "1\nb=2", "b" := "3"], map["a" := "1", "b" := "2\nb=3"]);
            x.Keys == y.Keys && x != y && Payload(d, x) == Payload(d, y)
  {
    var (x, y) := (map["a" := "1\nb=2", "b" := "3"], map["a" := "1", "b" := "2\nb=3"]);
    assert x.Keys == {"a", "b"} == y.Keys;
    assert "b" in x && x["b"] == "3" && y["b"] == "2\nb=3";
    var keys := ["a", "b"];
    assert keys[1..] == ["b"];
    assert Lines(keys, x) == Line("a", x) + "\n" + Line("b", x) == "a=1\nb=2\nb=3";
    assert Lines(keys, y) == Line("a", y) + "\n" + Line("b", y) == "a=1\nb=2\nb=3";
    assert x["a"] != y["a"] by { assert |x["a"]| == 5 && |y["a"]| == 1; }
  }
}
