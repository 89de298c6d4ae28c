/** The rewriter that turns single-quoted strings into double-quoted JSON ones and copies
    everything else. */
module LocaleRewriter {
  import opened Wrappers
  import opened LocaleLiteral
  import opened LocaleScanner

  function Target(s: Seg): string {
    match s
    case Raw(c) => [c]
    case Str(q, inner) => if q == '\'' then Literal(inner) else Source(s)
  }

  /** What the rewriter puts out for a segment: the segment itself, unless it is
      single-quoted; then a literal that, whatever follows, reads back as a JSON string to
      the inner text after its \' replacement, if that has no control character. */
  ghost predicate PieceFor(s: Seg, piece: string) {
    if s.Str? && s.q == '\''
    then forall rest: string ::
           JsonString(piece + rest) == if NoControl(Unescaped(s.inner)) then Some((Unescaped(s.inner), rest)) else None
    else piece == Source(s)
  }

  function Joined(pieces: seq<string>): string {
    if pieces == [] then "" else Joined(pieces[..|pieces| - 1]) + pieces[|pieces| - 1]
  }

  /** out is one piece for each segment, in order. */
  ghost predicate Rewritten(segs: seq<Seg>, pieces: seq<string>, out: string) {
    |pieces| == |segs| && out == Joined(pieces) && forall k :: 0 <= k < |segs| ==> PieceFor(segs[k], pieces[k])
  }

  lemma TargetIsPiece(s: Seg)
    ensures PieceFor(s, Target(s))
  {
    if s.Str? && s.q == '\'' {
      forall rest: string
        ensures JsonString(Target(s) + rest) ==
                if NoControl(Unescaped(s.inner)) then Some((Unescaped(s.inner), rest)) else None
      {
        LiteralReadsBack(s.inner, rest);
      }
    }
  }

  lemma AddPiece(segs: seq<Seg>, pieces: seq<string>, out: string, s: Seg, piece: string)
    requires Rewritten(segs, pieces, out) && PieceFor(s, piece)
    ensures Rewritten(segs + [s], pieces + [piece], out + piece)
  {
    assert (pieces + [piece])[..|pieces|] == pieces;
  }

  predicate NoSingleQuoted(segs: seq<Seg>) {
    forall k :: 0 <= k < |segs| && segs[k].Str? ==> segs[k].q != '\''
  }

  /** A body without single-quoted strings comes out as it is. */
  lemma {:induction false} CopiedUnchanged(segs: seq<Seg>, pieces: seq<string>, out: string)
    requires Rewritten(segs, pieces, out) && NoSingleQuoted(segs)
    ensures out == Concat(Source, segs)
    decreases |segs|
  {
    if segs != [] {
      var n := |segs| - 1;
      CopiedUnchanged(segs[..n], pieces[..n], Joined(pieces[..n]));
      assert PieceFor(segs[n], pieces[n]);
    }
  }

  // ----- the rewriter -----

  /** Python's s[a:b] for non-negative bounds. */
  function Slice(s: string, a: nat, b: nat): string {
    var hi := if b <= |s| then b else |s|;
    if a <= hi then s[a..hi] else ""
  }

  lemma FoldSnoc(m: Mode, s: string, c: char)
    ensures Fold(m, s + [c]) == NextMode(Fold(m, s), c)
  {
    assert (s + [c])[..|s|] == s;
  }

  /** Scanning s from inside a string opened by q has not left it. */
  predicate Stays(q: char, s: string) {
    forall k :: 0 <= k <= |s| ==> Fold(In(q), s[..k]) != Out
  }

  lemma StaysSnoc(q: char, s: string, c: char)
    requires Stays(q, s) && Fold(In(q), s + [c]) != Out
    ensures Stays(q, s + [c])
  {
    var t := s + [c];
    forall k | 0 <= k <= |t| ensures Fold(In(q), t[..k]) != Out {
      assert t[..k] == if k <= |s| then s[..k] else t;
    }
  }

  lemma CleanSnoc(q: char, s: string, c: char)
    requires Clean(q, s) && c != q && c != '\\'
    ensures Clean(q, s + [c])
  {
    FoldSnoc(In(q), s, c);
    StaysSnoc(q, s, c);
  }

  lemma CleanEscape(q: char, s: string, c: char)
    requires Clean(q, s)
    ensures Clean(q, s + ['\\'] + [c])
  {
    FoldSnoc(In(q), s, '\\');
    StaysSnoc(q, s, '\\');
    FoldSnoc(In(q), s + ['\\'], c);
    StaysSnoc(q, s + ['\\'], c);
  }

  /** Either rewriter loop over a string opened at i: step over two characters at a
      backslash, stop at the quote.  When no quote closes the string it runs past the
      end, by one more if the body ends in a backslash. */
  method SkipString(body: string, i: nat, q: char) returns (j: nat)
    requires i < |body| && body[i] == q && IsQuote(q) && ModeAt(body, i) == Out
    ensures j < |body| ==> i < j && body[j] == q && Clean(q, body[i + 1..j])
    ensures j >= |body| ==> ModeAt(body, |body|) != Out
  {
    ModeStep(body, i);
    j := i + 1;
    ghost var inner := "";
    while j < |body|
      invariant i < j <= |body| + 1
      invariant j <= |body| ==> inner == body[i + 1..j] && Clean(q, inner) && ModeAt(body, j) == In(q)
      invariant j == |body| + 1 ==> ModeAt(body, |body|) == Esc(q)
    {
      ModeStep(body, j);
      if body[j] == '\\' {
        if j + 1 < |body| {
          ModeStep(body, j + 1);
          CleanEscape(q, inner, body[j + 1]);
          inner := inner + ['\\'] + [body[j + 1]];
        }
        j := j + 2;
      } else if body[j] == q {
        break;
      } else {
        CleanSnoc(q, inner, body[j]);
        inner := inner + [body[j]];
        j := j + 1;
      }
    }
  }

  lemma AddSegment(body: string, i: nat, segs: seq<Seg>, s: Seg, next: nat)
    requires i <= next <= |body| && body[i..next] == Source(s) && GoodSeg(s)
    requires ModeAt(body, i) == Out && Lexes(body[..i], segs)
    ensures ModeAt(body, next) == Out && Lexes(body[..next], segs + [s])
  {
    ConcatSnoc(Source, segs, s);
    assert body[..next] == body[..i] + Source(s);
    FoldAppend(Out, body[..i], Source(s));
    FoldSegment(s, |Source(s)|);
    assert Source(s)[..|Source(s)|] == Source(s);
  }

  lemma StringSource(body: string, i: nat, j: nat, q: char)
    requires i < j < |body| && body[i] == q && body[j] == q
    ensures body[i..j + 1] == Source(Str(q, body[i + 1..j]))
    ensures Slice(body, i, j + 1) == body[i..j + 1] && Slice(body, i + 1, j) == body[i + 1..j]
  {
    var inner := body[i + 1..j];
    assert body[i..j + 1] == [body[i]] + inner + [body[j]];
    assert Source(Str(q, inner)) == [q] + inner + [q];
  }

  /** One round of the rewriter's loop: the piece to output, and where to go on. */
  method NextPiece(body: string, i: nat) returns (piece: string, next: nat, ghost s: Seg)
    requires i < |body| && ModeAt(body, i) == Out
    ensures i < next
    ensures next <= |body| ==> body[i..next] == Source(s) && GoodSeg(s) && PieceFor(s, piece)
    ensures next > |body| ==> ModeAt(body, |body|) != Out
  {
    var c := body[i];
    if IsQuote(c) {
      var j := SkipString(body, i, c);
      piece := if c == '"' then Slice(body, i, j + 1) else Literal(Slice(body, i + 1, j));
      next, s := j + 1, Str(c, Slice(body, i + 1, j));
      if j < |body| {
        StringSource(body, i, j, c);
        TargetIsPiece(s);
      }
    } else {
      piece, next, s := [c], i + 1, Raw(c);
    }
  }

  /** The rewriter's loop.  It stops at the body's length exactly when the scanner leaves
      the body outside strings; then the body is cut into characters outside strings and
      closed strings, and everything but the single-quoted strings is copied unchanged. */
  method Rewrite(body: string) returns (out: string, i: nat, ghost segs: seq<Seg>, ghost pieces: seq<string>)
    ensures i >= |body|
    ensures i == |body| <==> ModeAt(body, |body|) == Out
    ensures i == |body| ==> Cut(body, segs) && Rewritten(segs, pieces, out)
    ensures i == |body| && NoSingleQuoted(segs) ==> out == body
  {
    out, i, segs, pieces := "", 0, [], [];
    while i < |body|
      invariant i <= |body| ==> ModeAt(body, i) == Out && Lexes(body[..i], segs) && Rewritten(segs, pieces, out)
      invariant i > |body| ==> ModeAt(body, |body|) != Out
      decreases |body| - i
    {
      var piece, next, s := NextPiece(body, i);
      if next <= |body| {
        AddSegment(body, i, segs, s, next);
        AddPiece(segs, pieces, out, s, piece);
      }
      out, i, segs, pieces := out + piece, next, segs + [s], pieces + [piece];
    }
    if i == |body| {
      assert body[..i] == body;
      CutExactly(body, segs);
      if NoSingleQuoted(segs) {
        CopiedUnchanged(segs, pieces, out);
      }
    }
  }

  /** From the text's first brace, body reaches to the brace that closes it, not counting
      braces in strings; and segs cuts it. */
  ghost predicate IsObject(text: string, a: nat, body: string, segs: seq<Seg>) {
    && a < |text| && text[a] == '{' && '{' !in text[..a]
    && body <= text[a..] && Cut(body, segs) && Balanced(segs)
  }

  /** The cut has exactly the matcher's in-string intervals. */
  ghost predicate SameStrings(body: string, segs: seq<Seg>) {
    forall i :: 0 <= i <= |body| ==> (ModeAt(body, i) != Out <==> Inside(segs, i))
  }

  /** Whenever some brace closes the first one, the rewriter ends at the body's length, its
      strings are the matcher's in-string intervals, they all close inside the body, and
      everything but the single-quoted ones is copied unchanged. */
  method RewriteObject(text: string) returns (r: Result<string>)
    ensures r.Success? ==> exists a: nat, body, segs, pieces ::
              IsObject(text, a, body, segs) && SameStrings(body, segs) && Rewritten(segs, pieces, r.value)
    ensures r.Failure? ==> forall a: nat, body, segs :: !IsObject(text, a, body, segs)
  {
    var found := FindObject(text);
    if found.Failure? {
      forall a: nat, body, segs ensures !IsObject(text, a, body, segs) {
        if IsObject(text, a, body, segs) {
          BalancedCloses(text[a..], body, segs);
          FirstBraceIsOne(text, a);
        }
      }
      return Failure(found.error);
    }
    var (start, end) := found.value;
    var literal := text[start..end + 1];
    ghost var tail := text[start..];
    assert literal == tail[..end - start + 1];
    ClosedOutsideStrings(tail, end - start);
    var out, i, segs, pieces := Rewrite(literal);
    forall k | 0 <= k <= |literal| ensures ModeAt(literal, k) != Out <==> Inside(segs, k) {
      CutExactly(literal, segs);
      CutMatchesScanner(literal, segs, k);
    }
    ClosesBalanced(tail, literal, segs);
    assert IsObject(text, start, literal, segs) && SameStrings(literal, segs) && Rewritten(segs, pieces, out);
    return Success(out);
  }

  lemma NoneBefore(text: string, c: char, a: nat)
    requires a <= |text| && c !in text[..a]
    ensures forall i :: 0 <= i < a ==> text[i] != c
  {
    forall i | 0 <= i < a ensures text[i] != c {
      assert text[i] == text[..a][i];
    }
  }

  /** There is one first brace. */
  lemma FirstBraceIsOne(text: string, a: nat)
    requires a < |text| && text[a] == '{' && '{' !in text[..a]
    ensures forall b :: 0 <= b < |text| && text[b] == '{' && '{' !in text[..b] ==> b == a
  {
    NoneBefore(text, '{', a);
    forall b | 0 <= b < |text| && text[b] == '{' && '{' !in text[..b] ensures b == a {
      NoneBefore(text, '{', b);
    }
  }
}
