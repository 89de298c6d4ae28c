/** The literal emitted for a single-quoted string, and what it means: to a JSON reader
    (RFC 8259, section 7), and next to the TypeScript string it stands for (ECMA-262,
    section 12.9.4). */
module LocaleLiteral {
  import opened Wrappers
  import opened LocaleScanner

  // ----- Python's str.replace -----

  /** Replace each occurrence of pat, left to right, without overlaps. */
  function Replace(s: string, pat: string, rep: string): string
    requires pat != ""
  {
    if s == "" then ""
    else if pat <= s then rep + Replace(s[|pat|..], pat, rep)
    else [s[0]] + Replace(s[1..], pat, rep)
  }

  function Unescaped(inner: string): string {
    Replace(inner, "\\'", "'")
  }

  /** The literal emitted for a single-quoted string. */
  function Literal(inner: string): string {
    "\"" + Replace(Replace(Unescaped(inner), "\\", "\\\\"), "\"", "\\\"") + "\""
  }

  /** What str.replace does: nothing without an occurrence, and from the first occurrence
      on, its replacement and the same for the rest. */
  lemma {:induction false} ReplaceLaws(x: string, y: string, pat: string, rep: string)
    requires pat != "" && forall n :: 0 <= n < |x| ==> !(pat <= (x + pat + y)[n..])
    ensures Replace(x + pat + y, pat, rep) == x + rep + Replace(y, pat, rep)
    decreases |x|
  {
    var s := x + pat + y;
    if x == "" {
      assert s == pat + y && s[|pat|..] == y;
    } else {
      assert s[0..] == s;
      assert s[1..] == x[1..] + pat + y;
      forall n | 0 <= n < |x[1..]| ensures !(pat <= (x[1..] + pat + y)[n..]) {
        assert (x[1..] + pat + y)[n..] == s[n + 1..];
      }
      ReplaceLaws(x[1..], y, pat, rep);
      assert [s[0]] + (x[1..] + rep + Replace(y, pat, rep)) == x + rep + Replace(y, pat, rep);
    }
  }

  lemma {:induction false} ReplaceNothing(s: string, pat: string, rep: string)
    requires pat != "" && forall n :: 0 <= n <= |s| ==> !(pat <= s[n..])
    ensures Replace(s, pat, rep) == s
  {
    if s != "" {
      assert s[0..] == s;
      forall n | 0 <= n <= |s[1..]| ensures !(pat <= s[1..][n..]) {
        assert s[1..][n..] == s[n + 1..];
      }
      ReplaceNothing(s[1..], pat, rep);
      assert s == [s[0]] + s[1..];
    }
  }

  // ----- JSON strings -----

  predicate IsControl(c: char) { c < ' ' }

  predicate NoControl(s: string) {
    forall k :: 0 <= k < |s| ==> !IsControl(s[k])
  }

  function HexValue(c: char): Option<nat> {
    if '0' <= c <= '9' then Some(c as nat - '0' as nat)
    else if 'a' <= c <= 'f' then Some(c as nat - 'a' as nat + 10)
    else if 'A' <= c <= 'F' then Some(c as nat - 'A' as nat + 10)
    else None
  }

  /** Four hex digits naming a character; surrogates are not characters here. */
  function HexChar(s: string): Option<char>
    requires |s| == 4
  {
    if HexValue(s[0]).None? || HexValue(s[1]).None? || HexValue(s[2]).None? || HexValue(s[3]).None? then None
    else
      var code := ((HexValue(s[0]).value * 16 + HexValue(s[1]).value) * 16 + HexValue(s[2]).value) * 16 +
          HexValue(s[3]).value;
      if code < 0xD800 || 0xE000 <= code < 0x10000 then Some(code as char) else None
  }

  function ShortEscape(c: char): Option<char> {
    match c
    case '"' => Some('"')
    case '\\' => Some('\\')
    case '/' => Some('/')
    case 'b' => Some('\U{0008}')
    case 'f' => Some('\U{000C}')
    case 'n' => Some('\n')
    case 'r' => Some('\r')
    case 't' => Some('\t')
    case _ => None
  }

  /** Read string contents up to the closing quote: their value, and the text after it. */
  function JsonTail(s: string): Option<(string, string)> {
    if s == "" || IsControl(s[0]) then None
    else if s[0] == '"' then Some(("", s[1..]))
    else if s[0] == '\\' then
      if |s| >= 2 && ShortEscape(s[1]).Some? then Cons(ShortEscape(s[1]).value, JsonTail(s[2..]))
      else if |s| >= 6 && s[1] == 'u' && HexChar(s[2..6]).Some? then Cons(HexChar(s[2..6]).value, JsonTail(s[6..]))
      else None
    else Cons(s[0], JsonTail(s[1..]))
  }

  function Cons(c: char, r: Option<(string, string)>): Option<(string, string)> {
    if r.None? then None else Some(([c] + r.value.0, r.value.1))
  }

  /** Read a JSON string at the start of s. */
  function JsonString(s: string): Option<(string, string)> {
    if s != "" && s[0] == '"' then JsonTail(s[1..]) else None
  }

  // ----- the literal read as JSON -----

  function EscapeChar(c: char): string {
    if c == '\\' then "\\\\" else if c == '"' then "\\\"" else [c]
  }

  function EscapeAll(s: string): string {
    if s == "" then "" else EscapeChar(s[0]) + EscapeAll(s[1..])
  }

  lemma ReplaceOneChar(c: char, s: string, pat: char, rep: string)
    ensures Replace([c] + s, [pat], rep) == (if c == pat then rep else [c]) + Replace(s, [pat], rep)
  {
    assert ([c] + s)[1..] == s;
    assert ([c] + s)[..1] == [c];
    assert [pat] <= [c] + s <==> [c] == [pat];
  }

  /** The two replacements together escape every backslash and double quote once. */
  lemma {:induction false} ReplacementsEscape(s: string)
    ensures Replace(Replace(s, "\\", "\\\\"), "\"", "\\\"") == EscapeAll(s)
  {
    if s != "" {
      var rest := Replace(s[1..], "\\", "\\\\");
      assert s == [s[0]] + s[1..];
      ReplaceOneChar(s[0], s[1..], '\\', "\\\\");
      ReplacementsEscape(s[1..]);
      if s[0] == '\\' {
        assert "\\\\" + rest == ['\\'] + (['\\'] + rest);
        ReplaceOneChar('\\', ['\\'] + rest, '"', "\\\"");
        ReplaceOneChar('\\', rest, '"', "\\\"");
      } else {
        ReplaceOneChar(s[0], rest, '"', "\\\"");
      }
    }
  }

  lemma {:induction false} EscapedReadsBack(s: string, rest: string)
    ensures JsonTail(EscapeAll(s) + "\"" + rest) == if NoControl(s) then Some((s, rest)) else None
  {
    if s == "" {
      assert EscapeAll(s) + "\"" + rest == "\"" + rest;
    } else {
      var tail := EscapeAll(s[1..]) + "\"" + rest;
      EscapedReadsBack(s[1..], rest);
      assert EscapeAll(s) + "\"" + rest == EscapeChar(s[0]) + tail;
      assert NoControl(s) <==> !IsControl(s[0]) && NoControl(s[1..]) by {
        assert forall k :: 0 < k < |s| ==> s[k] == s[1..][k - 1];
      }
      if s[0] == '\\' || s[0] == '"' {
        assert (EscapeChar(s[0]) + tail)[2..] == tail;
      } else {
        assert EscapeChar(s[0]) + tail == [s[0]] + tail;
        assert ([s[0]] + tail)[1..] == tail;
      }
      assert s == [s[0]] + s[1..];
    }
  }

  /** Whatever follows it, the literal emitted for a single-quoted string reads back, as
      a JSON string ending at the literal's last character, to the inner text after its
      \' replacement -- exactly when that text has no control character, which JSON does
      not allow inside strings. */
  lemma LiteralReadsBack(inner: string, rest: string)
    ensures JsonString(Literal(inner) + rest) ==
        if NoControl(Unescaped(inner)) then Some((Unescaped(inner), rest)) else None
  {
    ReplacementsEscape(Unescaped(inner));
    EscapedReadsBack(Unescaped(inner), rest);
    assert (Literal(inner) + rest)[1..] == EscapeAll(Unescaped(inner)) + "\"" + rest;
  }

  // ----- the literal next to the TypeScript string -----

  /** An account of TypeScript's escape sequences: given the text after a backslash, the
      characters it denotes and how much of the text it takes.  Every sequence takes at
      least one character, denotes at most one, and beyond its first character has no
      quote and no backslash; \' denotes a quote. */
  ghost predicate EscapeReader(esc: string -> Option<(string, nat)>) {
    forall t: string :: t != "" && esc(t).Some? ==>
      var (d, n) := esc(t).value;
      && 1 <= n <= |t| && |d| <= 1
      && (forall k :: 1 <= k < n ==> t[k] != '\\' && t[k] != '\'')
      && (t[0] == '\'' ==> d == "'" && n == 1)
  }

  /** The value of a TypeScript string with these inner characters. */
  ghost function TsValue(esc: string -> Option<(string, nat)>, s: string): Option<string>
    requires EscapeReader(esc)
  {
    if s == "" then Some("")
    else if s[0] == '\\' then
      if |s| == 1 || esc(s[1..]).None? then None
      else
        var (d, n) := esc(s[1..]).value;
        var rest := TsValue(esc, s[1 + n..]);
        if rest.None? then None else Some(d + rest.value)
    else
      var rest := TsValue(esc, s[1..]);
      if rest.None? then None else Some([s[0]] + rest.value)
  }

  /** Single-quoted inner text, read two characters at a time at a backslash. */
  predicate Escaped(s: string) {
    if s == "" then true
    else if s[0] == '\\' then |s| >= 2 && Escaped(s[2..])
    else s[0] != '\'' && Escaped(s[1..])
  }

  /** The only escape used is \'. */
  predicate OnlyQuoteEscapes(s: string) {
    if s == "" then true
    else if s[0] == '\\' then |s| >= 2 && s[1] == '\'' && OnlyQuoteEscapes(s[2..])
    else OnlyQuoteEscapes(s[1..])
  }

  lemma {:induction false} CleanIsEscaped(s: string)
    requires Clean('\'', s)
    ensures Escaped(s)
    decreases |s|
  {
    if s != "" {
      assert Fold(In('\''), s[..1]) == NextMode(In('\''), s[0]) by { assert s[..1][..0] == ""; }
      var m := if s[0] == '\\' then 2 else 1;
      if s[0] == '\\' && |s| >= 2 {
        assert Fold(In('\''), s[..2]) == NextMode(Esc('\''), s[1]) by { assert s[..2][..1] == s[..1]; }
      }
      assert |s| == 1 ==> s[..1] == s;
      CleanTail(s, m);
      CleanIsEscaped(s[m..]);
    }
  }

  lemma CleanTail(s: string, m: nat)
    requires Clean('\'', s) && m <= |s| && Fold(In('\''), s[..m]) == In('\'')
    ensures Clean('\'', s[m..])
  {
    forall k | 0 <= k <= |s| - m ensures Fold(In('\''), s[m..][..k]) == Fold(In('\''), s[..m + k]) {
      FoldAppend(In('\''), s[..m], s[m..][..k]);
      assert s[..m] + s[m..][..k] == s[..m + k];
    }
    assert s[m..][..|s| - m] == s[m..] && s[..|s|] == s;
  }

  /** Over characters that are neither quotes nor backslashes, nothing is replaced. */
  lemma {:induction false} PlainRun(s: string, n: nat)
    requires n <= |s| && forall k :: 0 <= k < n ==> s[k] != '\\' && s[k] != '\''
    ensures Unescaped(s) == s[..n] + Unescaped(s[n..])
    ensures Escaped(s) ==> Escaped(s[n..])
    decreases n
  {
    if n > 0 {
      PlainRun(s[1..], n - 1);
      assert s[1..][n - 1..] == s[n..] && [s[0]] + s[1..][..n - 1] == s[..n];
    }
  }

  /** A backslash that escapes anything but a quote stays in the output. */
  lemma OtherEscapeStays(s: string, n: nat)
    requires |s| >= 2 && s[0] == '\\' && s[1] != '\'' && Escaped(s) && 1 <= n < |s|
    requires forall k :: 2 <= k <= n ==> s[k] != '\\' && s[k] != '\''
    ensures |Unescaped(s)| >= 2 + |Unescaped(s[1 + n..])| && Escaped(s[1 + n..])
  {
    PlainRun(s[2..], n - 1);
    assert s[2..][n - 1..] == s[1 + n..];
    assert !("\\'" <= s);
    assert s[1..] == [s[1]] + s[2..];
    if s[1] == '\\' && |s| > 2 {
      assert s[2] == s[2..][0];
      assert s[2..][0] != '\'';
    }
    assert !("\\'" <= s[1..]);
    assert s[1..][1..] == s[2..];
    assert Unescaped(s) == [s[0]] + Unescaped(s[1..]);
    assert Unescaped(s[1..]) == [s[1]] + Unescaped(s[2..]);
  }

  lemma QuoteEscapeReplaced(s: string)
    requires |s| >= 2 && s[0] == '\\' && s[1] == '\''
    ensures Unescaped(s) == "'" + Unescaped(s[2..])
  {
    assert s == "\\'" + s[2..];
  }

  /** An escape of the string: it denotes at most one character, and puts one character
      into the output if it is \' and at least two otherwise. */
  lemma EscapeIsShorter(esc: string -> Option<(string, nat)>, s: string) returns (n: nat)
    requires EscapeReader(esc) && Escaped(s) && TsValue(esc, s).Some? && s != "" && s[0] == '\\'
    ensures 1 <= n < |s| && Escaped(s[1 + n..]) && TsValue(esc, s[1 + n..]).Some?
    ensures |TsValue(esc, s).value| <= 1 + |TsValue(esc, s[1 + n..]).value|
    ensures |Unescaped(s)| >= (if s[1] == '\'' then 1 else 2) + |Unescaped(s[1 + n..])|
    ensures s[1] == '\'' ==> n == 1
  {
    var t := s[1..];
    n := esc(t).value.1;
    assert t[0] == s[1];
    assert TsValue(esc, s).value == esc(t).value.0 + TsValue(esc, s[1 + n..]).value;
    if s[1] == '\'' {
      QuoteEscapeReplaced(s);
    } else {
      forall k | 2 <= k <= n ensures s[k] != '\\' && s[k] != '\'' {
        assert s[k] == t[k - 1];
      }
      OtherEscapeStays(s, n);
    }
  }

  /** A TypeScript string is never longer than the text the literal denotes, and is
      shorter if it uses any escape other than \'. */
  lemma {:induction false} TsIsShorter(esc: string -> Option<(string, nat)>, s: string)
    requires EscapeReader(esc) && Escaped(s) && TsValue(esc, s).Some?
    ensures |TsValue(esc, s).value| <= |Unescaped(s)|
    ensures !OnlyQuoteEscapes(s) ==> |TsValue(esc, s).value| < |Unescaped(s)|
    decreases |s|
  {
    if s != "" {
      if s[0] == '\\' {
        var n := EscapeIsShorter(esc, s);
        TsIsShorter(esc, s[1 + n..]);
      } else {
        TsIsShorter(esc, s[1..]);
      }
    }
  }

  lemma {:induction false} QuoteEscapesAgree(esc: string -> Option<(string, nat)>, s: string)
    requires EscapeReader(esc) && Escaped(s) && OnlyQuoteEscapes(s)
    requires forall t: string :: t != "" && t[0] == '\'' ==> esc(t).Some?
    ensures TsValue(esc, s) == Some(Unescaped(s))
    decreases |s|
  {
    if s != "" {
      if s[0] == '\\' {
        assert s[1..][0] == '\'';
        QuoteEscapeReplaced(s);
        QuoteEscapesAgree(esc, s[2..]);
      } else {
        QuoteEscapesAgree(esc, s[1..]);
      }
    }
  }

  /** The literal denotes the TypeScript string it replaces exactly when the only escape
      in it is \' : any other escape, such as \n or \\, comes out as its two source
      characters.  Stated for every account of the other escapes. */
  lemma LiteralMeansTsString(esc: string -> Option<(string, nat)>, inner: string)
    requires EscapeReader(esc) && Clean('\'', inner)
    requires forall t: string :: t != "" && t[0] == '\'' ==> esc(t).Some?
    ensures TsValue(esc, inner) == Some(Unescaped(inner)) <==> OnlyQuoteEscapes(inner)
  {
    CleanIsEscaped(inner);
    if OnlyQuoteEscapes(inner) {
      QuoteEscapesAgree(esc, inner);
    } else if TsValue(esc, inner).Some? {
      TsIsShorter(esc, inner);
    }
  }
}
