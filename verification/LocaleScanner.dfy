/** The hand-written scanner and string rewriter for TypeScript locale objects: the brace
    matcher tracks strings with an escape flag, the rewriter by skipping two characters
    at a backslash.  Both are measured against one account of where strings are. */
module LocaleScanner {
  import opened Wrappers

  /** Outside strings, inside a string opened by q, or just after a backslash in one. */
  datatype Mode = Out | In(q: char) | Esc(q: char)

  predicate IsQuote(c: char) { c == '"' || c == '\'' }

  function NextMode(m: Mode, c: char): Mode {
    match m
    case Out => if IsQuote(c) then In(c) else Out
    case In(q) => if c == '\\' then Esc(q) else if c == q then Out else m
    case Esc(q) => In(q)
  }

  function Fold(m: Mode, s: string): Mode {
    if s == "" then m else NextMode(Fold(m, s[..|s| - 1]), s[|s| - 1])
  }

  /** The mode before position i. */
  function ModeAt(body: string, i: nat): Mode
    requires i <= |body|
  {
    Fold(Out, body[..i])
  }

  /** Braces opened and not closed before position i, not counting those in strings. */
  function DepthAt(body: string, i: nat): int
    requires i <= |body|
  {
    if i == 0 then 0
    else
      var d, c := DepthAt(body, i - 1), body[i - 1];
      if ModeAt(body, i - 1) != Out then d else if c == '{' then d + 1 else if c == '}' then d - 1 else d
  }

  lemma ModeStep(body: string, i: nat)
    requires i < |body|
    ensures ModeAt(body, i + 1) == NextMode(ModeAt(body, i), body[i])
  {
    assert body[..i + 1][..i] == body[..i];
  }

  // ----- the brace matcher -----

  /** Position e closes the brace at the start: it is outside strings, and the depth is
      zero after it for the first time. */
  predicate Closes(body: string, e: nat) {
    && e < |body|
    && ModeAt(body, e) == Out && body[e] == '}'
    && DepthAt(body, e + 1) == 0
    && forall i :: 0 < i <= e ==> DepthAt(body, i) > 0
  }

  method IndexOf(text: string, c: char) returns (r: Option<nat>)
    ensures r.Some? ==> r.value < |text| && text[r.value] == c && c !in text[..r.value]
    ensures r.None? ==> c !in text
  {
    for i := 0 to |text|
      invariant c !in text[..i]
    {
      if text[i] == c {
        return Some(i);
      }
    }
    return None;
  }

  /** There is no brace, or nothing closes the first one. */
  ghost predicate NoObject(text: string) {
    '{' !in text
    || exists start :: 0 <= start < |text| && text[start] == '{' && '{' !in text[..start]
         && forall e: nat :: !Closes(text[start..], e)
  }

  /** The matcher: from the first brace, the position that closes it, if there is one. */
  method FindObject(text: string) returns (r: Result<(nat, nat)>)
    ensures r.Success? ==>
              var (start, end) := r.value;
              start <= end < |text| && text[start] == '{' && '{' !in text[..start]
              && Closes(text[start..], end - start)
    ensures r.Failure? ==> NoObject(text)
  {
    var found := IndexOf(text, '{');
    if found.None? {
      return Failure("substring not found");
    }
    var start := found.value;
    ghost var body := text[start..];
    var depth, inStr, strChar, escape := 0, false, ' ', false;
    var i := start;
    while i < |text|
      invariant start <= i <= |text|
      invariant ModeAt(body, i - start) == if !inStr then Out else if escape then Esc(strChar) else In(strChar)
      invariant depth == DepthAt(body, i - start)
      invariant i > start ==> depth > 0
      invariant forall k :: 0 < k <= i - start ==> DepthAt(body, k) > 0
    {
      var c := text[i];
      ModeStep(body, i - start);
      if inStr {
        if escape {
          escape := false;
        } else if c == '\\' {
          escape := true;
        } else if c == strChar {
          inStr := false;
        }
      } else if c == '"' || c == '\'' {
        inStr, strChar, escape := true, c, false;
      } else if c == '{' {
        depth := depth + 1;
      } else if c == '}' {
        depth := depth - 1;
        if depth == 0 {
          return Success((start, i));
        }
      }
      i := i + 1;
    }
    return Failure("Unbalanced braces");
  }

  lemma ClosedOutsideStrings(body: string, e: nat)
    requires Closes(body, e)
    ensures ModeAt(body[..e + 1], e + 1) == Out
  {
    ModeStep(body, e);
    assert body[..e + 1][..e + 1] == body[..e + 1];
  }

  // ----- segments -----

  /** A body cut into single characters outside strings, and whole strings. */
  datatype Seg = Raw(c: char) | Str(q: char, inner: string)

  /** inner is what stands between an opening q and the quote that closes it. */
  predicate Clean(q: char, inner: string) {
    Fold(In(q), inner) == In(q) && forall k :: 0 <= k <= |inner| ==> Fold(In(q), inner[..k]) != Out
  }

  predicate GoodSeg(s: Seg) {
    match s
    case Raw(c) => !IsQuote(c)
    case Str(q, inner) => IsQuote(q) && Clean(q, inner)
  }

  function Source(s: Seg): string {
    match s
    case Raw(c) => [c]
    case Str(q, inner) => [q] + inner + [q]
  }

  function Concat(f: Seg -> string, segs: seq<Seg>): string {
    if segs == [] then "" else Concat(f, segs[..|segs| - 1]) + f(segs[|segs| - 1])
  }

  /** segs cuts body into characters outside strings and whole strings. */
  predicate Lexes(body: string, segs: seq<Seg>) {
    Concat(Source, segs) == body && forall k :: 0 <= k < |segs| ==> GoodSeg(segs[k])
  }

  lemma ConcatSnoc(f: Seg -> string, segs: seq<Seg>, s: Seg)
    ensures Concat(f, segs + [s]) == Concat(f, segs) + f(s)
  {
    assert (segs + [s])[..|segs|] == segs;
  }

  lemma {:induction false} FoldAppend(m: Mode, a: string, b: string)
    ensures Fold(m, a + b) == Fold(Fold(m, a), b)
  {
    if b == "" {
      assert a + b == a;
    } else {
      FoldAppend(m, a, b[..|b| - 1]);
      assert (a + b)[..|a + b| - 1] == a + b[..|b| - 1];
    }
  }

  /** Scanning a string from its opening quote ends outside strings, and not before its
      closing quote. */
  lemma FoldSegment(s: Seg, i: nat)
    requires GoodSeg(s) && i <= |Source(s)|
    ensures Fold(Out, Source(s)[..i]) == Out <==> i == 0 || i == |Source(s)|
  {
    if s.Str? && 0 < i {
      var q, inner := s.q, s.inner;
      assert Fold(Out, [q]) == In(q);
      if i == |Source(s)| {
        assert Source(s)[..i] == [q] + inner + [q];
        FoldAppend(Out, [q], inner);
        FoldAppend(Out, [q] + inner, [q]);
      } else {
        assert Source(s)[..i] == [q] + inner[..i - 1];
        FoldAppend(Out, [q], inner[..i - 1]);
      }
    } else if s.Raw? && i == 1 {
      assert Source(s)[..1] == [s.c] && [s.c][..0] == "";
    }
  }

  // ----- the cut, without the scanner's modes -----

  /** How many backslashes s ends with. */
  function Trailing(s: string): nat {
    if s != "" && s[|s| - 1] == '\\' then Trailing(s[..|s| - 1]) + 1 else 0
  }

  /** Every q in s is escaped: an odd number of backslashes stands before it. */
  predicate Escaping(q: char, s: string) {
    forall k :: 0 <= k < |s| && s[k] == q ==> Trailing(s[..k]) % 2 == 1
  }

  /** s stands between an opening q and the quote that closes it. */
  predicate QuotedBy(q: char, s: string) {
    Escaping(q, s) && Trailing(s) % 2 == 0
  }

  lemma EscapingFront(q: char, s: string)
    requires s != ""
    ensures var n := |s| - 1;
            Escaping(q, s) <==> Escaping(q, s[..n]) && (s[n] == q ==> Trailing(s[..n]) % 2 == 1)
  {
    var n := |s| - 1;
    assert forall k :: 0 <= k < n ==> s[..n][..k] == s[..k] && s[..n][k] == s[k];
  }

  /** The scanner is in an escape exactly after an odd number of backslashes, as long as it
      has not left the string. */
  lemma {:induction false} EscapingMode(q: char, s: string)
    requires IsQuote(q) && Escaping(q, s)
    ensures Fold(In(q), s) == if Trailing(s) % 2 == 1 then Esc(q) else In(q)
    decreases |s|
  {
    if s != "" {
      EscapingFront(q, s);
      EscapingMode(q, s[..|s| - 1]);
    }
  }

  lemma {:induction false} StaysEscaping(q: char, s: string)
    requires IsQuote(q) && forall k :: 0 <= k <= |s| ==> Fold(In(q), s[..k]) != Out
    ensures Escaping(q, s)
    decreases |s|
  {
    if s != "" {
      var n := |s| - 1;
      forall k | 0 <= k <= n ensures Fold(In(q), s[..n][..k]) != Out {
        assert s[..n][..k] == s[..k];
      }
      StaysEscaping(q, s[..n]);
      EscapingMode(q, s[..n]);
      EscapingFront(q, s);
      assert s[..n + 1] == s;
    }
  }

  lemma CleanExactly(q: char, s: string)
    requires IsQuote(q)
    ensures Clean(q, s) <==> QuotedBy(q, s)
  {
    if Clean(q, s) {
      StaysEscaping(q, s);
      EscapingMode(q, s);
    }
    if QuotedBy(q, s) {
      forall k | 0 <= k <= |s| ensures Fold(In(q), s[..k]) != Out {
        assert forall m :: 0 <= m < k ==> s[..k][..m] == s[..m] && s[..k][m] == s[m];
        EscapingMode(q, s[..k]);
      }
      EscapingMode(q, s);
    }
  }

  /** segs cuts body into single characters that are no quotes, and strings that end at
      their first unescaped quote. */
  predicate Cut(body: string, segs: seq<Seg>) {
    Concat(Source, segs) == body && forall k :: 0 <= k < |segs| ==> CutSeg(segs[k])
  }

  predicate CutSeg(s: Seg) {
    match s
    case Raw(c) => c != '"' && c != '\''
    case Str(q, inner) => (q == '"' || q == '\'') && QuotedBy(q, inner)
  }

  lemma CutExactly(body: string, segs: seq<Seg>)
    ensures Cut(body, segs) <==> Lexes(body, segs)
  {
    forall k | 0 <= k < |segs| ensures CutSeg(segs[k]) <==> GoodSeg(segs[k]) {
      if segs[k].Str? && IsQuote(segs[k].q) { CleanExactly(segs[k].q, segs[k].inner); }
    }
  }

  /** Where segment k starts. */
  function Offset(segs: seq<Seg>, k: nat): nat
    requires k <= |segs|
  {
    |Concat(Source, segs[..k])|
  }

  predicate InsideSegment(segs: seq<Seg>, k: nat, i: nat)
    requires k < |segs|
  {
    Offset(segs, k) < i < Offset(segs, k + 1)
  }

  /** Position i lies inside a string segment: after its opening quote and not after its
      closing one. */
  predicate Inside(segs: seq<Seg>, i: nat) {
    exists k :: 0 <= k < |segs| && InsideSegment(segs, k, i)
  }

  lemma OffsetStep(segs: seq<Seg>, k: nat)
    requires k < |segs|
    ensures Offset(segs, k + 1) == Offset(segs, k) + |Source(segs[k])|
  {
    assert segs[..k + 1][..k] == segs[..k];
  }

  lemma OffsetPrefix(segs: seq<Seg>, k: nat, i: nat)
    requires k + 1 < |segs|
    ensures InsideSegment(segs[..|segs| - 1], k, i) <==> InsideSegment(segs, k, i)
  {
    var front := segs[..|segs| - 1];
    assert front[..k] == segs[..k] && front[..k + 1] == segs[..k + 1];
  }

  lemma InsideStep(segs: seq<Seg>, i: nat)
    requires segs != []
    ensures Inside(segs, i) <==> Inside(segs[..|segs| - 1], i) || InsideSegment(segs, |segs| - 1, i)
  {
    var front := segs[..|segs| - 1];
    forall k: nat | k < |front| ensures InsideSegment(front, k, i) <==> InsideSegment(segs, k, i) {
      OffsetPrefix(segs, k, i);
    }
    if k :| 0 <= k < |front| && InsideSegment(front, k, i) {
      assert InsideSegment(segs, k, i);
    }
  }

  lemma {:induction false} CutEndsOutside(body: string, segs: seq<Seg>)
    requires Lexes(body, segs)
    ensures Fold(Out, body) == Out
    decreases |segs|
  {
    if segs != [] {
      var front, last := segs[..|segs| - 1], segs[|segs| - 1];
      var b := Concat(Source, front);
      CutEndsOutside(b, front);
      FoldAppend(Out, b, Source(last));
      FoldSegment(last, |Source(last)|);
      assert Source(last)[..|Source(last)|] == Source(last);
    }
  }

  /** The strings of any cut are exactly the scanner's in-string intervals. */
  lemma {:induction false} CutMatchesScanner(body: string, segs: seq<Seg>, i: nat)
    requires Lexes(body, segs) && i <= |body|
    ensures ModeAt(body, i) != Out <==> Inside(segs, i)
    decreases |segs|
  {
    if segs != [] {
      var n := |segs| - 1;
      var front, last := segs[..n], segs[n];
      var b := Concat(Source, front);
      assert body == b + Source(last);
      assert segs[..n + 1] == segs;
      InsideStep(segs, i);
      if i <= |b| {
        CutMatchesScanner(b, front, i);
        assert body[..i] == b[..i];
      } else {
        CutEndsOutside(b, front);
        PastTheFront(b, last, i);
        NotInsideBeyond(front, i);
      }
    }
  }

  lemma PastTheFront(b: string, last: Seg, i: nat)
    requires Fold(Out, b) == Out && GoodSeg(last) && |b| < i <= |b + Source(last)|
    ensures ModeAt(b + Source(last), i) != Out <==> i < |b| + |Source(last)|
  {
    assert (b + Source(last))[..i] == b + Source(last)[..i - |b|];
    FoldAppend(Out, b, Source(last)[..i - |b|]);
    FoldSegment(last, i - |b|);
  }

  lemma NotInsideBeyond(segs: seq<Seg>, i: nat)
    requires i >= |Concat(Source, segs)|
    ensures !Inside(segs, i)
  {
    forall k | 0 <= k < |segs| ensures !InsideSegment(segs, k, i) {
      OffsetsGrow(segs, k + 1, |segs|);
      assert segs[..|segs|] == segs;
    }
  }

  lemma {:induction false} OffsetsGrow(segs: seq<Seg>, j: nat, k: nat)
    requires j <= k <= |segs|
    ensures Offset(segs, j) <= Offset(segs, k)
    decreases k - j
  {
    if j < k {
      OffsetStep(segs, j);
      OffsetsGrow(segs, j + 1, k);
    }
  }

  // ----- balanced braces, counted in the cut -----

  /** How many of the first n segments are this character outside strings. */
  function RawCount(segs: seq<Seg>, n: nat, c: char): nat {
    |set k | 0 <= k < n && k < |segs| && segs[k] == Raw(c)|
  }

  /** The segments start with a brace and end with the one that closes it. */
  ghost predicate Balanced(segs: seq<Seg>) {
    && segs != [] && segs[0] == Raw('{') && segs[|segs| - 1] == Raw('}')
    && RawCount(segs, |segs|, '{') == RawCount(segs, |segs|, '}')
    && forall n :: 0 < n < |segs| ==> RawCount(segs, n, '{') > RawCount(segs, n, '}')
  }

  lemma RawCountStep(segs: seq<Seg>, n: nat, c: char)
    requires n < |segs|
    ensures RawCount(segs, n + 1, c) == RawCount(segs, n, c) + if segs[n] == Raw(c) then 1 else 0
  {
    var before := set k | 0 <= k < n && k < |segs| && segs[k] == Raw(c);
    var after := set k | 0 <= k < n + 1 && k < |segs| && segs[k] == Raw(c);
    assert after == before + if segs[n] == Raw(c) then {n} else {};
  }

  lemma DepthStep(body: string, i: nat)
    requires i < |body|
    ensures DepthAt(body, i + 1) == DepthAt(body, i) +
            if ModeAt(body, i) != Out then 0 else if body[i] == '{' then 1 else if body[i] == '}' then -1 else 0
  {
  }

  /** A text's depths are those of its prefix. */
  lemma {:induction false} DepthPrefix(text: string, body: string, i: nat)
    requires body <= text && i <= |body|
    ensures ModeAt(text, i) == ModeAt(body, i) && DepthAt(text, i) == DepthAt(body, i)
    decreases i
  {
    assert text[..i] == body[..i];
    if i > 0 {
      DepthPrefix(text, body, i - 1);
    }
  }

  lemma SegmentAt(body: string, segs: seq<Seg>, n: nat)
    requires Lexes(body, segs) && n < |segs|
    ensures Offset(segs, n + 1) == Offset(segs, n) + |Source(segs[n])| <= |body|
    ensures ModeAt(body, Offset(segs, n)) == Out
    ensures body[Offset(segs, n)..Offset(segs, n + 1)] == Source(segs[n])
  {
    OffsetStep(segs, n);
    PrefixOfCut(body, segs, n);
    PrefixOfCut(body, segs, n + 1);
    assert segs[..n + 1][..n] == segs[..n];
    CutEndsOutside(Concat(Source, segs[..n]), segs[..n]);
    assert body[..Offset(segs, n + 1)] == body[..Offset(segs, n)] + Source(segs[n]);
  }

  lemma {:induction false} PrefixOfCut(body: string, segs: seq<Seg>, n: nat)
    requires Lexes(body, segs) && n <= |segs|
    ensures Offset(segs, n) <= |body| && body[..Offset(segs, n)] == Concat(Source, segs[..n])
    ensures Lexes(Concat(Source, segs[..n]), segs[..n])
    decreases |segs|
  {
    if n == |segs| {
      assert segs[..n] == segs;
    } else {
      var m := |segs| - 1;
      var front := segs[..m];
      PrefixOfCut(Concat(Source, front), front, n);
      assert front[..n] == segs[..n];
      assert body == Concat(Source, front) + Source(segs[m]);
    }
  }

  /** Inside a segment the depth is what it was before it. */
  lemma {:induction false} DepthInSegment(body: string, s: Seg, i: nat, j: nat)
    requires i + |Source(s)| <= |body| && body[i..i + |Source(s)|] == Source(s) && GoodSeg(s)
    requires ModeAt(body, i) == Out && j < |Source(s)|
    ensures DepthAt(body, i + j) == DepthAt(body, i)
    ensures j > 0 ==> ModeAt(body, i + j) != Out
    decreases j
  {
    if j > 0 {
      DepthInSegment(body, s, i, j - 1);
      DepthStep(body, i + j - 1);
      assert body[..i + j] == body[..i] + Source(s)[..j];
      FoldAppend(Out, body[..i], Source(s)[..j]);
      FoldSegment(s, j);
      assert body[i] == Source(s)[0];
    }
  }

  lemma DepthOverSegment(body: string, s: Seg, i: nat)
    requires i + |Source(s)| <= |body| && body[i..i + |Source(s)|] == Source(s) && GoodSeg(s) && ModeAt(body, i) == Out
    ensures DepthAt(body, i + |Source(s)|) ==
            DepthAt(body, i) + if s == Raw('{') then 1 else if s == Raw('}') then -1 else 0
  {
    var n := |Source(s)|;
    DepthInSegment(body, s, i, n - 1);
    DepthStep(body, i + n - 1);
    assert body[i] == Source(s)[0];
  }

  lemma {:induction false} DepthIsCount(body: string, segs: seq<Seg>, n: nat)
    requires Lexes(body, segs) && n <= |segs|
    ensures Offset(segs, n) <= |body|
    ensures DepthAt(body, Offset(segs, n)) == RawCount(segs, n, '{') - RawCount(segs, n, '}')
    decreases n
  {
    PrefixOfCut(body, segs, n);
    if n == 0 {
      assert segs[..0] == [];
    } else {
      DepthIsCount(body, segs, n - 1);
      SegmentAt(body, segs, n - 1);
      DepthOverSegment(body, segs[n - 1], Offset(segs, n - 1));
      RawCountStep(segs, n - 1, '{');
      RawCountStep(segs, n - 1, '}');
    }
  }

  /** Every position of a non-empty cut body lies in a segment. */
  lemma {:induction false} SegmentOf(body: string, segs: seq<Seg>, i: nat) returns (n: nat)
    requires Lexes(body, segs) && i < |body|
    ensures n < |segs| && Offset(segs, n) <= i < Offset(segs, n + 1)
    decreases |segs|
  {
    assert segs != [];
    var m := |segs| - 1;
    var front := segs[..m];
    var b := Concat(Source, front);
    OffsetStep(segs, m);
    assert segs[..m + 1] == segs;
    if i < |b| {
      n := SegmentOf(b, front, i);
      assert front[..n] == segs[..n] && front[..n + 1] == segs[..n + 1];
    } else {
      n := m;
    }
  }

  /** What the matcher finds is balanced in any cut of it. */
  lemma ClosesBalanced(text: string, body: string, segs: seq<Seg>)
    requires body != "" && body <= text && Closes(text, |body| - 1) && body[0] == '{' && Cut(body, segs)
    ensures Balanced(segs)
  {
    CutExactly(body, segs);
    forall i | 0 <= i <= |body| ensures ModeAt(text, i) == ModeAt(body, i) && DepthAt(text, i) == DepthAt(body, i) {
      DepthPrefix(text, body, i);
    }
    assert segs != [];
    var m := |segs| - 1;
    SegmentAt(body, segs, 0);
    SegmentAt(body, segs, m);
    assert segs[..0] == [] && segs[..m + 1] == segs;
    assert Source(segs[0])[0] == body[0] == '{';
    var last := Source(segs[m]);
    assert last[|last| - 1] == body[|body| - 1] == '}';
    forall n | 0 < n <= |segs| ensures n < |segs| ==> RawCount(segs, n, '{') > RawCount(segs, n, '}')
                               ensures n == |segs| ==> RawCount(segs, n, '{') == RawCount(segs, n, '}') {
      DepthIsCount(body, segs, n);
      SegmentAt(body, segs, n - 1);
      OffsetsGrow(segs, 0, n - 1);
      if n < |segs| {
        SegmentAt(body, segs, n);
      }
    }
  }

  /** A balanced cut ends where the matcher would stop. */
  lemma BalancedCloses(text: string, body: string, segs: seq<Seg>)
    requires body <= text && Cut(body, segs) && Balanced(segs)
    ensures body != "" && Closes(text, |body| - 1)
  {
    CutExactly(body, segs);
    var m := |segs| - 1;
    SegmentAt(body, segs, m);
    assert segs[..m + 1] == segs;
    assert Offset(segs, m) == |body| - 1;
    assert body[|body| - 1] == '}' by { assert Source(segs[m]) == "}"; assert body[|body| - 1..|body|] == "}"; }
    DepthIsCount(body, segs, |segs|);
    forall i | 0 <= i <= |body| ensures ModeAt(text, i) == ModeAt(body, i) && DepthAt(text, i) == DepthAt(body, i) {
      DepthPrefix(text, body, i);
    }
    forall i | 0 < i <= |body| - 1 ensures DepthAt(text, i) > 0 {
      PositiveInside(body, segs, i);
    }
  }

  lemma PositiveInside(body: string, segs: seq<Seg>, i: nat)
    requires Lexes(body, segs) && Balanced(segs) && 0 < i < |body|
    ensures DepthAt(body, i) > 0
  {
    var n := SegmentOf(body, segs, i);
    SegmentAt(body, segs, n);
    DepthIsCount(body, segs, n);
    DepthInSegment(body, segs[n], Offset(segs, n), i - Offset(segs, n));
    SegmentAt(body, segs, 0);
    assert segs[..0] == [];
  }
}
