/** Java string and character literals as the supplier rewriter sees them:
    the literal recogniser, the quote stripping applied to literal tokens,
    and the escaping of a message placed back between double quotes. */
module JavaString {
  import opened Text

  predicate IsQuote(c: char) {
    c == '"' || c == '\''
  }

  /** The text between the quotes of a literal opened by `q`: characters
      other than `q` and backslash, or a backslash followed by any character
      but a line feed. */
  predicate LiteralBody(b: string, q: char)
    decreases |b|
  {
    b == []
    || (b[0] != q && b[0] != '\\' && LiteralBody(b[1..], q))
    || (|b| >= 2 && b[0] == '\\' && b[1] != '\n' && LiteralBody(b[2..], q))
  }

  /** A token that is, up to surrounding whitespace, a single double- or
      single-quoted literal. */
  predicate IsLiteralToken(t: string) {
    var u := Strip(t);
    |u| >= 2 && IsQuote(u[0]) && u[|u| - 1] == u[0] && LiteralBody(u[1..|u| - 1], u[0])
  }

  /** The characters strictly between the first and the last character
      (Python's `t[1:-1]`, empty for a single character). */
  function Inner(t: string): (r: string)
    requires t != []
    ensures |t| >= 2 ==> t == [t[0]] + r + [t[|t| - 1]]
    ensures |t| == 1 ==> r == []
  {
    if |t| == 1 then [] else t[1..|t| - 1]
  }

  /** The content of a quoted token: the text between its quotes when it
      starts and ends with the same kind of quote, the token itself
      otherwise. Escape sequences are kept as written. */
  function Unquote(t: string): (r: string)
    ensures |r| <= |t|
    ensures (t == [] || !IsQuote(t[0]) || t[|t| - 1] != t[0]) ==> r == t
  {
    if t != [] && t[0] == '"' && t[|t| - 1] == '"' then Inner(t)
    else if t != [] && t[0] == '\'' && t[|t| - 1] == '\'' then Inner(t)
    else t
  }

  /** A literal body between two of its quotes is a literal token. */
  lemma QuotedIsLiteral(q: char, b: string)
    requires IsQuote(q) && LiteralBody(b, q)
    ensures IsLiteralToken([q] + b + [q])
  {
    var t := [q] + b + [q];
    assert t[0] == q && t[|t| - 1] == q;
    assert Trimmed(t);
    TrimmedStrip(t);
    var u := Strip(t);
    assert u[1..|u| - 1] == b;
    assert LiteralBody(u[1..|u| - 1], u[0]);
    assert |u| >= 2 && IsQuote(u[0]) && u[|u| - 1] == u[0];
  }

  /** On a literal token (already stripped), the content is exactly the
      well-formed text between its two quotes. */
  lemma UnquoteLiteral(t: string)
    requires Trimmed(t) && IsLiteralToken(t)
    ensures t == [t[0]] + Unquote(t) + [t[0]]
    ensures LiteralBody(Unquote(t), t[0])
  {
    TrimmedStrip(t);
    var u := Strip(t);
    assert u == t;
    assert |t| >= 2 && IsQuote(t[0]) && t[|t| - 1] == t[0];
    assert LiteralBody(t[1..|t| - 1], t[0]);
    assert Unquote(t) == t[1..|t| - 1];
    assert t == [t[0]] + t[1..|t| - 1] + [t[0]];
  }

  /** `s.replace(c, rep)`: every occurrence of `c` replaced by `rep`. */
  function ReplaceChar(s: string, c: char, rep: string): (r: string)
    ensures c !in rep ==> c !in r
    ensures c !in s ==> r == s
    decreases |s|
  {
    if s == [] then []
    else (if s[0] == c then rep else [s[0]]) + ReplaceChar(s[1..], c, rep)
  }

  lemma {:induction false} ReplaceCharAppend(a: string, b: string, c: char, rep: string)
    ensures ReplaceChar(a + b, c, rep) == ReplaceChar(a, c, rep) + ReplaceChar(b, c, rep)
    decreases |a|
  {
    if a == [] {
      assert a + b == b;
    } else {
      assert (a + b)[0] == a[0];
      assert (a + b)[1..] == a[1..] + b;
      ReplaceCharAppend(a[1..], b, c, rep);
    }
  }

  /** Escaping for a double-quoted Java string: backslashes are doubled
      first, then every double quote is preceded by a backslash. */
  function Escape(s: string): string {
    ReplaceChar(ReplaceChar(s, '\\', "\\\\"), '"', "\\\"")
  }

  /** The same escaping done in one pass, character by character. */
  function EscapeChar(c: char): string {
    if c == '\\' then "\\\\" else if c == '"' then "\\\"" else [c]
  }

  function EscapeEach(s: string): string
    decreases |s|
  {
    if s == [] then [] else EscapeChar(s[0]) + EscapeEach(s[1..])
  }

  /** The two passes of `Escape` do not interfere: the first introduces no
      double quote, and the second introduces backslashes only in front of
      the quotes it escapes. */
  lemma {:induction false} EscapeIsOnePass(s: string)
    ensures Escape(s) == EscapeEach(s)
    decreases |s|
  {
    if s != [] {
      var h := if s[0] == '\\' then "\\\\" else [s[0]];
      var t := ReplaceChar(s[1..], '\\', "\\\\");
      assert ReplaceChar(s, '\\', "\\\\") == h + t;
      ReplaceCharAppend(h, t, '"', "\\\"");
      EscapeIsOnePass(s[1..]);
      if s[0] == '\\' {
        assert ReplaceChar(h, '"', "\\\"") == "\\\\" by {
          assert h[1..][1..] == [];
        }
      } else {
        assert ReplaceChar(h, '"', "\\\"") == EscapeChar(s[0]) by {
          assert h[1..] == [];
        }
      }
    }
  }

  /** How Java reads the escapes `Escape` writes: a backslash stands for the
      character after it. */
  function Unescape(b: string): string
    decreases |b|
  {
    if b == [] then []
    else if b[0] == '\\' && |b| >= 2 then [b[1]] + Unescape(b[2..])
    else [b[0]] + Unescape(b[1..])
  }

  lemma {:induction false} UnescapeEach(s: string)
    ensures Unescape(EscapeEach(s)) == s
    decreases |s|
  {
    if s != [] {
      var e := EscapeEach(s[1..]);
      assert EscapeEach(s) == EscapeChar(s[0]) + e;
      UnescapeEach(s[1..]);
      if s[0] == '\\' || s[0] == '"' {
        assert (EscapeChar(s[0]) + e)[2..] == e;
      } else {
        assert (EscapeChar(s[0]) + e)[1..] == e;
      }
    }
  }

  /** Escaping loses nothing: reading the escaped text back gives the
      message. */
  lemma EscapeRoundTrip(s: string)
    ensures Unescape(Escape(s)) == s
  {
    EscapeIsOnePass(s);
    UnescapeEach(s);
  }

  lemma {:induction false} EscapeEachIsBody(s: string)
    ensures LiteralBody(EscapeEach(s), '"')
    decreases |s|
  {
    if s != [] {
      var e := EscapeEach(s[1..]);
      EscapeEachIsBody(s[1..]);
      if s[0] == '\\' || s[0] == '"' {
        assert (EscapeChar(s[0]) + e)[2..] == e;
      } else {
        assert (EscapeChar(s[0]) + e)[1..] == e;
      }
    }
  }

  /** Text with neither the quote nor a backslash is a literal's body as
      it stands. */
  lemma {:induction false} PlainBody(b: string, q: char)
    requires forall i :: 0 <= i < |b| ==> b[i] != q && b[i] != '\\'
    ensures LiteralBody(b, q)
    decreases |b|
  {
    if b != [] {
      assert forall i :: 0 <= i < |b[1..]| ==> b[1..][i] == b[i + 1];
      PlainBody(b[1..], q);
    }
  }

  /** Any message, escaped and put between double quotes, is one
      well-formed string literal. */
  lemma EscapedIsLiteral(s: string)
    ensures IsLiteralToken("\"" + Escape(s) + "\"")
  {
    EscapeIsOnePass(s);
    EscapeEachIsBody(s);
    QuotedIsLiteral('"', Escape(s));
  }
}
