/** The lexical scan shared by `split_top_level` and the parenthesis
    matcher of the supplier rewriter: it tracks whether the scan is inside a
    quoted literal (and after a backslash there) and how deeply parentheses
    are nested outside literals. */
module SupplierSplit {
  import opened Wrappers
  import opened Text
  import opened JavaString

  datatype Lexer = Lexer(inStr: bool, esc: bool, quote: Option<char>, depth: nat)

  /** The state at the start of a scan, and after any balanced text. */
  const Outside: Lexer := Lexer(false, false, None, 0)

  /** The states a scan can reach: the quote is set exactly inside a
      literal, and only a literal has a pending backslash. */
  predicate Consistent(l: Lexer) {
    (l.inStr <==> l.quote.Some?) && (!l.inStr ==> !l.esc)
    && (l.quote.Some? ==> IsQuote(l.quote.value))
  }

  /** One character of the scan. Outside literals a quote opens one and
      parentheses move the depth, which never drops below zero; inside, a
      backslash escapes the next character and the opening quote closes. */
  function Lex(l: Lexer, ch: char): (r: Lexer)
    ensures Consistent(l) ==> Consistent(r)
    ensures !l.inStr && !IsQuote(ch) ==> !r.inStr && r.quote == l.quote && r.esc == l.esc
  {
    if l.inStr then
      if l.esc then l.(esc := false)
      else if ch == '\\' then l.(esc := true)
      else if l.quote == Some(ch) then l.(inStr := false, quote := None)
      else l
    else if IsQuote(ch) then l.(inStr := true, quote := Some(ch))
    else if ch == '(' then l.(depth := l.depth + 1)
    else if ch == ')' then l.(depth := if l.depth == 0 then 0 else l.depth - 1)
    else l
  }

  function LexRun(l: Lexer, s: string): (r: Lexer)
    ensures Consistent(l) ==> Consistent(r)
    decreases |s|
  {
    if s == [] then l else LexRun(Lex(l, s[0]), s[1..])
  }

  lemma {:induction false} LexRunAppend(l: Lexer, a: string, b: string)
    ensures LexRun(l, a + b) == LexRun(LexRun(l, a), b)
    decreases |a|
  {
    if a == [] {
      assert a + b == b;
    } else {
      assert (a + b)[0] == a[0];
      assert (a + b)[1..] == a[1..] + b;
      LexRunAppend(Lex(l, a[0]), a[1..], b);
    }
  }

  /** Text where the scan sees no quote and no parenthesis. */
  predicate Plain(s: string) {
    forall i :: 0 <= i < |s| ==> !IsQuote(s[i]) && s[i] != '(' && s[i] != ')'
  }

  // ---------------------------------------------------------------------
  // split_top_level

  /** The splitter's state: the parts emitted so far, the text of the part
      being read, and the scan state. */
  datatype Splitter = Splitter(parts: seq<string>, buf: string, lex: Lexer)

  const Start: Splitter := Splitter([], [], Outside)

  /** `ch` ends a part: it is the separator, seen outside every literal and
      every parenthesis (quotes and parentheses are never separators). */
  predicate SplitsAt(l: Lexer, ch: char, sep: char) {
    !l.inStr && !IsQuote(ch) && ch != '(' && ch != ')' && ch == sep && l.depth == 0
  }

  /** The part read so far, stripped, is kept only when non-empty. */
  function Flush(parts: seq<string>, buf: string): (r: seq<string>)
    ensures r == parts || r == parts + [Strip(buf)]
    ensures Strip(buf) != [] <==> r == parts + [Strip(buf)]
  {
    var part := Strip(buf);
    if part == [] then parts else parts + [part]
  }

  function SplitStep(st: Splitter, ch: char, sep: char): Splitter {
    if SplitsAt(st.lex, ch, sep) then Splitter(Flush(st.parts, st.buf), [], st.lex)
    else Splitter(st.parts, st.buf + [ch], Lex(st.lex, ch))
  }

  function SplitRun(st: Splitter, s: string, sep: char): Splitter
    decreases |s|
  {
    if s == [] then st else SplitRun(SplitStep(st, s[0], sep), s[1..], sep)
  }

  /** `split_top_level(expr, sep)`: the stripped, non-empty parts of `expr`
      between separators at the top level. */
  function SplitParts(expr: string, sep: char): seq<string> {
    var st := SplitRun(Start, expr, sep);
    Flush(st.parts, st.buf)
  }

  /** Parts as `split_top_level` returns them: non-empty and stripped. */
  predicate Clean(parts: seq<string>) {
    forall p :: p in parts ==> p != [] && Trimmed(p)
  }

  lemma FlushClean(parts: seq<string>, buf: string)
    requires Clean(parts)
    ensures Clean(Flush(parts, buf))
  {
  }

  lemma {:induction false} SplitRunClean(st: Splitter, s: string, sep: char)
    requires Clean(st.parts)
    ensures Clean(SplitRun(st, s, sep).parts)
    decreases |s|
  {
    if s != [] {
      var st' := SplitStep(st, s[0], sep);
      if SplitsAt(st.lex, s[0], sep) {
        FlushClean(st.parts, st.buf);
      }
      SplitRunClean(st', s[1..], sep);
    }
  }

  /** Every part is non-empty and has no surrounding whitespace. */
  lemma SplitPartsClean(expr: string, sep: char)
    ensures Clean(SplitParts(expr, sep))
  {
    SplitRunClean(Start, expr, sep);
    FlushClean(SplitRun(Start, expr, sep).parts, SplitRun(Start, expr, sep).buf);
  }

  lemma SplitRunStep(st: Splitter, s: string, i: nat, sep: char)
    requires i < |s|
    ensures SplitRun(st, s[i..], sep) == SplitRun(SplitStep(st, s[i], sep), s[i + 1..], sep)
  {
    assert s[i..][0] == s[i] && s[i..][1..] == s[i + 1..];
  }

  /** `split_top_level`, character by character, as the source loops. */
  method SplitTopLevel(expr: string, sep: char) returns (parts: seq<string>)
    ensures parts == SplitParts(expr, sep)
    ensures forall p :: p in parts ==> p != [] && Trimmed(p)
  {
    parts := [];
    var buf: string := [];
    var inStr, esc := false, false;
    var quote: Option<char> := None;
    var depth: nat := 0;
    for i := 0 to |expr|
      invariant SplitRun(Splitter(parts, buf, Lexer(inStr, esc, quote, depth)), expr[i..], sep)
             == SplitRun(Start, expr, sep)
      invariant Clean(parts)
    {
      var ch := expr[i];
      SplitRunStep(Splitter(parts, buf, Lexer(inStr, esc, quote, depth)), expr, i, sep);
      if inStr {
        buf := buf + [ch];
        if esc {
          esc := false;
        } else if ch == '\\' {
          esc := true;
        } else if quote == Some(ch) {
          inStr, quote := false, None;
        }
      } else {
        if IsQuote(ch) {
          inStr, quote := true, Some(ch);
          buf := buf + [ch];
        } else if ch == '(' {
          depth := depth + 1;
          buf := buf + [ch];
        } else if ch == ')' {
          depth := if depth == 0 then 0 else depth - 1;
          buf := buf + [ch];
        } else if ch == sep && depth == 0 {
          var part := Strip(buf);
          if part != [] {
            parts := parts + [part];
          }
          buf := [];
        } else {
          buf := buf + [ch];
        }
      }
    }
    var part := Strip(buf);
    if part != [] {
      parts := parts + [part];
    }
    SplitPartsClean(expr, sep);
  }

  /** `split_top_level_commas` and `split_top_level_concat`. */
  function SplitCommas(expr: string): seq<string> {
    SplitParts(expr, ',')
  }

  function SplitConcat(expr: string): seq<string> {
    SplitParts(expr, '+')
  }

  // ---------------------------------------------------------------------
  // Properties of the split

  lemma {:induction false} SplitRunAppend(st: Splitter, a: string, b: string, sep: char)
    ensures SplitRun(st, a + b, sep) == SplitRun(SplitRun(st, a, sep), b, sep)
    decreases |a|
  {
    if a == [] {
      assert a + b == b;
    } else {
      assert (a + b)[0] == a[0];
      assert (a + b)[1..] == a[1..] + b;
      SplitRunAppend(SplitStep(st, a[0], sep), a[1..], b, sep);
    }
  }

  /** The splitter scans exactly as the lexer does. */
  lemma {:induction false} SplitRunLex(st: Splitter, s: string, sep: char)
    ensures SplitRun(st, s, sep).lex == LexRun(st.lex, s)
    decreases |s|
  {
    if s != [] {
      SplitRunLex(SplitStep(st, s[0], sep), s[1..], sep);
    }
  }

  lemma FlushPrefix(ps: seq<string>, qs: seq<string>, buf: string)
    ensures Flush(ps + qs, buf) == ps + Flush(qs, buf)
  {
    if Strip(buf) != [] {
      assert ps + qs + [Strip(buf)] == ps + (qs + [Strip(buf)]);
    }
  }

  /** The part being read and the scan state do not depend on the parts
      already emitted. */
  lemma {:induction false} SplitRunBuf(ps: seq<string>, qs: seq<string>, buf: string, l: Lexer, s: string, sep: char)
    ensures SplitRun(Splitter(ps, buf, l), s, sep).buf == SplitRun(Splitter(qs, buf, l), s, sep).buf
    decreases |s|
  {
    if s != [] {
      if SplitsAt(l, s[0], sep) {
        SplitRunBuf(Flush(ps, buf), Flush(qs, buf), [], l, s[1..], sep);
      } else {
        SplitRunBuf(ps, qs, buf + [s[0]], Lex(l, s[0]), s[1..], sep);
      }
    }
  }

  /** Parts already emitted stay in front of whatever the rest adds. */
  lemma {:induction false} SplitRunPrefix(ps: seq<string>, qs: seq<string>, buf: string, l: Lexer, s: string, sep: char)
    ensures SplitRun(Splitter(ps + qs, buf, l), s, sep).parts == ps + SplitRun(Splitter(qs, buf, l), s, sep).parts
    decreases |s|
  {
    if s != [] {
      if SplitsAt(l, s[0], sep) {
        FlushPrefix(ps, qs, buf);
        SplitRunPrefix(ps, Flush(qs, buf), [], l, s[1..], sep);
      } else {
        SplitRunPrefix(ps, qs, buf + [s[0]], Lex(l, s[0]), s[1..], sep);
      }
    }
  }

  /** The scan from `l` over `s` meets no top-level separator. */
  predicate NoTopLevel(l: Lexer, s: string, sep: char)
    decreases |s|
  {
    s == [] || (!SplitsAt(l, s[0], sep) && NoTopLevel(Lex(l, s[0]), s[1..], sep))
  }

  lemma {:induction false} NoTopLevelAppend(l: Lexer, a: string, b: string, sep: char)
    requires NoTopLevel(l, a, sep) && NoTopLevel(LexRun(l, a), b, sep)
    ensures NoTopLevel(l, a + b, sep)
    decreases |a|
  {
    if a == [] {
      assert a + b == b;
    } else {
      assert (a + b)[0] == a[0];
      assert (a + b)[1..] == a[1..] + b;
      NoTopLevelAppend(Lex(l, a[0]), a[1..], b, sep);
    }
  }

  /** Without a top-level separator the whole text joins the current part. */
  lemma {:induction false} NoSplitRun(st: Splitter, s: string, sep: char)
    requires NoTopLevel(st.lex, s, sep)
    ensures SplitRun(st, s, sep) == Splitter(st.parts, st.buf + s, LexRun(st.lex, s))
    decreases |s|
  {
    if s == [] {
      assert st.buf + s == st.buf;
    } else {
      NoSplitRun(SplitStep(st, s[0], sep), s[1..], sep);
      assert st.buf + [s[0]] + s[1..] == st.buf + s;
    }
  }

  /** Text with no top-level separator is one part (or none if blank). */
  lemma SplitWhole(s: string, sep: char)
    requires NoTopLevel(Outside, s, sep)
    ensures SplitParts(s, sep) == (if Strip(s) == [] then [] else [Strip(s)])
  {
    NoSplitRun(Start, s, sep);
    assert Start.buf + s == s;
  }

  /** A consistent state outside literals with depth zero is the start. */
  lemma TopLevelIsOutside(l: Lexer)
    requires Consistent(l) && !l.inStr && l.depth == 0
    ensures l == Outside
  {
  }

  /** A separator at the top level cuts the text in two, and each side is
      split on its own. */
  lemma SplitAtSeparator(a: string, b: string, sep: char)
    requires !IsQuote(sep) && sep != '(' && sep != ')'
    requires !LexRun(Outside, a).inStr && LexRun(Outside, a).depth == 0
    ensures SplitParts(a + [sep] + b, sep) == SplitParts(a, sep) + SplitParts(b, sep)
  {
    var sa := SplitRun(Start, a, sep);
    var p := Flush(sa.parts, sa.buf);
    var sb := SplitRun(Start, b, sep);
    var whole := SplitRun(Start, a + [sep] + b, sep);
    assert whole == SplitRun(Splitter(p, [], Outside), b, sep) by {
      SplitRunLex(Start, a, sep);
      TopLevelIsOutside(sa.lex);
      assert a + [sep] + b == a + ([sep] + b);
      SplitRunAppend(Start, a, [sep] + b, sep);
      SplitRunAppend(sa, [sep], b, sep);
      assert SplitRun(sa, [sep], sep) == Splitter(p, [], Outside);
    }
    assert whole.parts == p + sb.parts && whole.buf == sb.buf by {
      assert p + [] == p;
      SplitRunPrefix(p, [], [], Outside, b, sep);
      SplitRunBuf(p, [], [], Outside, b, sep);
    }
    FlushPrefix(p, sb.parts, sb.buf);
  }

  /** Plain text moves no part of the scan state. */
  lemma {:induction false} LexPlain(l: Lexer, s: string)
    requires !l.inStr && Plain(s)
    ensures LexRun(l, s) == l
    decreases |s|
  {
    if s != [] {
      assert Plain(s[1..]) by {
        assert forall i :: 0 <= i < |s| - 1 ==> s[1..][i] == s[i + 1];
      }
      LexPlain(l, s[1..]);
    }
  }

  /** Plain text without the separator holds no split point. */
  lemma {:induction false} NoTopLevelPlain(l: Lexer, s: string, sep: char)
    requires !l.inStr && Plain(s) && sep !in s
    ensures NoTopLevel(l, s, sep)
    decreases |s|
  {
    if s != [] {
      assert Plain(s[1..]) by {
        assert forall i :: 0 <= i < |s| - 1 ==> s[1..][i] == s[i + 1];
      }
      NoTopLevelPlain(l, s[1..], sep);
    }
  }

  /** The scan state `l` with its depth raised by `k`. */
  function Deeper(l: Lexer, k: nat): Lexer {
    l.(depth := l.depth + k)
  }

  /** The scan from `l` over `s` never meets a `)` outside literals at
      depth zero, so the depth is never clamped. */
  predicate NoClamp(l: Lexer, s: string)
    decreases |s|
  {
    s == [] || (!(!l.inStr && s[0] == ')' && l.depth == 0) && NoClamp(Lex(l, s[0]), s[1..]))
  }

  /** Text whose parentheses outside literals match: the scan from the top
      level never clamps and ends at the top level. Names, literals, groups
      and calls such as `f(a, g(b, "c)"))` are all nested text. */
  predicate Nested(s: string) {
    NoClamp(Outside, s) && LexRun(Outside, s) == Outside
  }

  lemma LexDeeper(l: Lexer, ch: char, k: nat)
    requires !(!l.inStr && ch == ')' && l.depth == 0)
    ensures Lex(Deeper(l, k), ch) == Deeper(Lex(l, ch), k)
  {
  }

  /** Depth shift: a scan that never clamps runs the same way from any
      greater depth, never clamps there either, and there it is never at
      the top level, so it meets no split point. */
  lemma {:induction false} RunDeeper(l: Lexer, s: string, k: nat, sep: char)
    requires k > 0 && NoClamp(l, s)
    ensures NoTopLevel(Deeper(l, k), s, sep) && NoClamp(Deeper(l, k), s)
    ensures LexRun(Deeper(l, k), s) == Deeper(LexRun(l, s), k)
    decreases |s|
  {
    if s != [] {
      LexDeeper(l, s[0], k);
      RunDeeper(Lex(l, s[0]), s[1..], k, sep);
    }
  }

  /** Nested text inside parentheses holds no split point, even where it
      holds the separator at its own top level, and leaves the scan state
      as it found it. */
  lemma InsideParens(l: Lexer, s: string, sep: char)
    requires Consistent(l) && !l.inStr && l.depth > 0 && Nested(s)
    ensures NoTopLevel(l, s, sep) && LexRun(l, s) == l
  {
    assert l == Deeper(Outside, l.depth);
    RunDeeper(Outside, s, l.depth, sep);
  }

  /** A parenthesised group of nested text is one token for the scan. */
  lemma ParenGroup(l: Lexer, s: string, sep: char)
    requires Consistent(l) && !l.inStr && Nested(s)
    ensures NoTopLevel(l, "(" + s + ")", sep) && LexRun(l, "(" + s + ")") == l
  {
    var g := "(" + s + ")";
    var l1 := Lex(l, '(');
    InsideParens(l1, s, sep);
    assert g[0] == '(' && g[1..] == s + ")";
    LexRunAppend(l1, s, ")");
    NoTopLevelAppend(l1, s, ")", sep);
  }

  lemma {:induction false} NoClampAppend(l: Lexer, a: string, b: string)
    requires NoClamp(l, a) && NoClamp(LexRun(l, a), b)
    ensures NoClamp(l, a + b)
    decreases |a|
  {
    if a == [] {
      assert a + b == b;
    } else {
      assert (a + b)[0] == a[0];
      assert (a + b)[1..] == a[1..] + b;
      NoClampAppend(Lex(l, a[0]), a[1..], b);
    }
  }

  lemma {:induction false} NoClampPlain(l: Lexer, s: string)
    requires !l.inStr && Plain(s)
    ensures NoClamp(l, s)
    decreases |s|
  {
    if s != [] {
      assert Plain(s[1..]) by {
        assert forall i :: 0 <= i < |s| - 1 ==> s[1..][i] == s[i + 1];
      }
      NoClampPlain(l, s[1..]);
    }
  }

  lemma NestedPlain(s: string)
    requires Plain(s)
    ensures Nested(s)
  {
    NoClampPlain(Outside, s);
    LexPlain(Outside, s);
  }

  lemma NestedAppend(a: string, b: string)
    requires Nested(a) && Nested(b)
    ensures Nested(a + b)
  {
    NoClampAppend(Outside, a, b);
    LexRunAppend(Outside, a, b);
  }

  /** Parentheses around nested text keep it nested. */
  lemma NestedGroup(s: string)
    requires Nested(s)
    ensures Nested("(" + s + ")")
  {
    var g := "(" + s + ")";
    var l1 := Lex(Outside, '(');
    assert l1 == Deeper(Outside, 1);
    RunDeeper(Outside, s, 1, ',');
    assert g[0] == '(' && g[1..] == s + ")";
    LexRunAppend(l1, s, ")");
    assert NoClamp(LexRun(l1, s), ")");
    NoClampAppend(l1, s, ")");
  }

  /** Inside a literal opened by `q` the scan never leaves it while reading
      a well-formed body. */
  lemma {:induction false} InsideLiteral(l: Lexer, b: string, q: char, sep: char)
    requires l.inStr && !l.esc && l.quote == Some(q) && LiteralBody(b, q)
    ensures NoTopLevel(l, b, sep) && LexRun(l, b) == l
    decreases |b|
  {
    if b != [] {
      if b[0] != q && b[0] != '\\' && LiteralBody(b[1..], q) {
        InsideLiteral(l, b[1..], q, sep);
      } else {
        var l1 := Lex(l, b[0]);
        assert b[1..][0] == b[1] && b[1..][1..] == b[2..];
        InsideLiteral(l, b[2..], q, sep);
      }
    }
  }

  /** A whole literal is one token for the scan: no split point inside it,
      and the state after it is the state before it. */
  lemma Literal(l: Lexer, q: char, b: string, sep: char)
    requires Consistent(l) && !l.inStr && IsQuote(q) && LiteralBody(b, q)
    ensures NoTopLevel(l, [q] + b + [q], sep) && LexRun(l, [q] + b + [q]) == l
  {
    var t := [q] + b + [q];
    var l1 := Lex(l, q);
    InsideLiteral(l1, b, q, sep);
    assert t[0] == q && t[1..] == b + [q];
    LexRunAppend(l1, b, [q]);
    NoTopLevelAppend(l1, b, [q], sep);
  }

  lemma {:induction false} NoClampInLiteral(l: Lexer, b: string, q: char)
    requires l.inStr && !l.esc && l.quote == Some(q) && LiteralBody(b, q)
    ensures NoClamp(l, b)
    decreases |b|
  {
    if b != [] {
      if b[0] != q && b[0] != '\\' && LiteralBody(b[1..], q) {
        NoClampInLiteral(l, b[1..], q);
      } else {
        assert b[1..][0] == b[1] && b[1..][1..] == b[2..];
        NoClampInLiteral(l, b[2..], q);
      }
    }
  }

  /** A literal is nested text, whatever parentheses it holds. */
  lemma NestedLiteral(q: char, b: string)
    requires IsQuote(q) && LiteralBody(b, q)
    ensures Nested([q] + b + [q])
  {
    var t := [q] + b + [q];
    var l1 := Lex(Outside, q);
    Literal(Outside, q, b, ',');
    InsideLiteral(l1, b, q, ',');
    NoClampInLiteral(l1, b, q);
    assert t[0] == q && t[1..] == b + [q];
    LexRunAppend(l1, b, [q]);
    NoClampAppend(l1, b, [q]);
  }

  /** The separator inside a literal does not split it. */
  lemma LiteralIsOnePart(q: char, b: string, sep: char)
    requires IsQuote(q) && LiteralBody(b, q)
    ensures SplitParts([q] + b + [q], sep) == [[q] + b + [q]]
  {
    var t := [q] + b + [q];
    Literal(Outside, q, b, sep);
    SplitWhole(t, sep);
    assert t[0] == q && t[|t| - 1] == q;
    TrimmedStrip(t);
  }

  /** An unmatched closing parenthesis leaves the depth at zero, so a
      separator after it still splits. */
  lemma UnmatchedCloseIsClamped(a: string, b: string, sep: char)
    requires Plain(a) && !IsQuote(sep) && sep != '(' && sep != ')'
    ensures SplitParts(a + ")" + [sep] + b, sep) == SplitParts(a + ")", sep) + SplitParts(b, sep)
  {
    LexPlain(Outside, a);
    LexRunAppend(Outside, a, ")");
    SplitAtSeparator(a + ")", b, sep);
  }

  /** Every part is made of characters of the input. */
  lemma SplitPartsCharsIn(expr: string, sep: char)
    ensures forall p :: p in SplitParts(expr, sep) ==> CharsIn(p, expr)
  {
    SplitRunCharsIn(Start, expr, sep, expr);
    var st := SplitRun(Start, expr, sep);
    StripCharsIn(st.buf);
  }

  lemma {:induction false} SplitRunCharsIn(st: Splitter, s: string, sep: char, x: string)
    requires forall p :: p in st.parts ==> CharsIn(p, x)
    requires CharsIn(st.buf, x) && CharsIn(s, x)
    ensures forall p :: p in SplitRun(st, s, sep).parts ==> CharsIn(p, x)
    ensures CharsIn(SplitRun(st, s, sep).buf, x)
    decreases |s|
  {
    if s != [] {
      assert s[0] in s;
      assert CharsIn(s[1..], x) by {
        assert forall c :: c in s[1..] ==> c in s;
      }
      if SplitsAt(st.lex, s[0], sep) {
        StripCharsIn(st.buf);
      }
      SplitRunCharsIn(SplitStep(st, s[0], sep), s[1..], sep, x);
    }
  }

  // ---------------------------------------------------------------------
  // Splitting joined parts

  /** Text the scan reads from the top level back to the top level without
      meeting a separator there: a name, a literal, a parenthesised group,
      or a sequence of these. */
  predicate Balanced(s: string, sep: char) {
    NoTopLevel(Outside, s, sep) && LexRun(Outside, s) == Outside
  }

  lemma BalancedAppend(a: string, b: string, sep: char)
    requires Balanced(a, sep) && Balanced(b, sep)
    ensures Balanced(a + b, sep)
  {
    NoTopLevelAppend(Outside, a, b, sep);
    LexRunAppend(Outside, a, b);
  }

  lemma BalancedPlain(s: string, sep: char)
    requires Plain(s) && sep !in s
    ensures Balanced(s, sep)
  {
    NoTopLevelPlain(Outside, s, sep);
    LexPlain(Outside, s);
  }

  /** A separator inside parentheses never splits: a group of nested text
      is balanced for every separator. */
  lemma BalancedGroup(s: string, sep: char)
    requires Nested(s)
    ensures Balanced("(" + s + ")", sep)
  {
    ParenGroup(Outside, s, sep);
  }

  lemma BalancedLiteral(q: char, b: string, sep: char)
    requires IsQuote(q) && LiteralBody(b, q)
    ensures Balanced([q] + b + [q], sep)
  {
    Literal(Outside, q, b, sep);
  }

  /** The parts joined by the separator. */
  function Join(ps: seq<string>, sep: char): string
    decreases |ps|
  {
    if ps == [] then [] else if |ps| == 1 then ps[0] else ps[0] + [sep] + Join(ps[1..], sep)
  }

  function StripAll(ps: seq<string>): (r: seq<string>)
    ensures |r| == |ps|
    decreases |ps|
  {
    if ps == [] then [] else [Strip(ps[0])] + StripAll(ps[1..])
  }

  /** Splitting undoes joining: balanced parts that are not blank, joined
      by the separator, split back into those parts, stripped. */
  lemma {:induction false} SplitJoin(ps: seq<string>, sep: char)
    requires !IsQuote(sep) && sep != '(' && sep != ')'
    requires forall i :: 0 <= i < |ps| ==> Balanced(ps[i], sep) && Strip(ps[i]) != []
    ensures SplitParts(Join(ps, sep), sep) == StripAll(ps)
    decreases |ps|
  {
    if ps == [] {
      assert SplitParts([], sep) == [] by {
        assert Strip([]) == [];
      }
    } else if |ps| == 1 {
      SplitWhole(ps[0], sep);
      assert StripAll(ps) == [Strip(ps[0])] + StripAll([]);
    } else {
      var rest := ps[1..];
      assert forall i :: 0 <= i < |rest| ==> rest[i] == ps[i + 1];
      SplitJoin(rest, sep);
      SplitAtSeparator(ps[0], Join(rest, sep), sep);
      SplitWhole(ps[0], sep);
    }
  }
}
