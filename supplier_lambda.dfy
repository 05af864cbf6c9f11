/** The body of a supplier lambda turned into an SLF4J message template and
    its arguments: `normalize_lambda` and `build_msg_and_args_from_lambda`. */
module SupplierLambda {
  import opened Wrappers
  import opened Text
  import opened JavaString
  import opened SupplierSplit

  // ---------------------------------------------------------------------
  // normalize_lambda

  /** The block-lambda pattern on text that is already stripped: `{`,
      optional whitespace, `return`, at least one whitespace, the
      expression, `;`, optional whitespace, `}`. The expression is what
      lies between the whitespace after `return` and the last `;`. */
  function BlockBody(s: string): Option<string> {
    if |s| >= 2 && s[0] == '{' && s[|s| - 1] == '}' then
      var a := TrimLeft(s[1..|s| - 1]);
      if |a| > 6 && a[..6] == "return" && IsSpace(a[6]) then
        var b := TrimRight(a[6..]);
        if b != [] && b[|b| - 1] == ';' then Some(b[..|b| - 1]) else None
      else None
    else None
  }

  /** `normalize_lambda`: a block body `{ return e; }` becomes `e`, stripped;
      any other body is only stripped. */
  function NormalizeLambda(src: string): (r: string)
    ensures Trimmed(r)
    ensures var s := Strip(src); (s == [] || s[0] != '{') ==> r == s
    ensures BlockBody(Strip(src)).None? ==> r == Strip(src)
  {
    var s := Strip(src);
    match BlockBody(s)
    case Some(e) => Strip(e)
    case None => s
  }

  /** A block lambda, however its whitespace is laid out, normalises to its
      returned expression. */
  lemma NormalizeBlock(w1: string, w2: string, w3: string, e: string, w4: string, w5: string)
    requires AllSpace(w1) && AllSpace(w2) && AllSpace(w3) && AllSpace(w4) && AllSpace(w5)
    requires w3 != []
    ensures NormalizeLambda(w1 + "{" + w2 + "return" + w3 + e + ";" + w4 + "}" + w5) == Strip(e)
  {
    var t := "{" + w2 + "return" + w3 + e + ";" + w4 + "}";
    assert w1 + "{" + w2 + "return" + w3 + e + ";" + w4 + "}" + w5 == w1 + t + w5;
    StripSurrounded(w1, t, w5);
    assert t[0] == '{' && t[|t| - 1] == '}';
    TrimmedStrip(t);
    BlockBodyOf(t, w2, w3, e, w4);
    StripSurrounded(w3, e, []);
    assert w3 + e + [] == w3 + e;
  }

  lemma BlockBodyOf(t: string, w2: string, w3: string, e: string, w4: string)
    requires AllSpace(w2) && AllSpace(w3) && AllSpace(w4) && w3 != []
    requires t == "{" + w2 + "return" + w3 + e + ";" + w4 + "}"
    ensures BlockBody(t) == Some(w3 + e)
  {
    var a := "return" + (w3 + e + ";") + w4;
    BlockSplit(t, w2, w3, e, w4, a);
    AfterReturn(w3, e, w4);
    BeforeBrace(w3, e, w4);
    BlockBodyIntro(t, a, TrimRight(a[6..]), w3 + e);
  }

  /** The converse of `BlockBodyOf`: the block pattern matches only text of
      the shape `{ return e; }`, so any other text, even one opening with
      `{`, is left to `strip()` alone. */
  lemma BlockBodyShape(t: string) returns (w2: string, w3: string, e: string, w4: string)
    requires BlockBody(t).Some?
    ensures AllSpace(w2) && AllSpace(w3) && AllSpace(w4) && w3 != []
    ensures t == "{" + w2 + "return" + w3 + e + ";" + w4 + "}"
    ensures BlockBody(t) == Some(w3 + e)
  {
    var a;
    w2, a := Braced(t);
    var tail := a[6..];
    var b;
    b, w4 := Unpadded(tail);
    var x := b[..|b| - 1];
    w3 := [a[6]];
    e := x[1..];
    BodyWords(a, b, x, w3, e);
    Reassembled(t, w2, a, tail, b, w4, x, w3, e);
  }

  lemma Braced(t: string) returns (w2: string, a: string)
    requires |t| >= 2 && t[0] == '{' && t[|t| - 1] == '}'
    ensures a == TrimLeft(t[1..|t| - 1]) && AllSpace(w2) && t == "{" + w2 + a + "}"
  {
    var inner := t[1..|t| - 1];
    a := TrimLeft(inner);
    LeadingSpaces(inner);
    w2 := inner[..|inner| - |a|];
    assert inner == w2 + a;
    assert t == "{" + inner + "}";
  }

  lemma Unpadded(tail: string) returns (b: string, w4: string)
    ensures b == TrimRight(tail) && AllSpace(w4) && tail == b + w4
  {
    b := TrimRight(tail);
    TrailingSpaces(tail);
    w4 := tail[|b|..];
  }

  lemma BodyWords(a: string, b: string, x: string, w3: string, e: string)
    requires |a| > 6 && IsSpace(a[6]) && b == TrimRight(a[6..])
    requires b != [] && b[|b| - 1] == ';' && x == b[..|b| - 1]
    requires w3 == [a[6]] && e == x[1..]
    ensures b == x + ";" && x == w3 + e && AllSpace(w3)
  {
    assert b[0] == a[6];
  }

  lemma Reassembled(t: string, w2: string, a: string, tail: string, b: string, w4: string,
                    x: string, w3: string, e: string)
    requires t == "{" + w2 + a + "}" && |a| > 6 && a[..6] == "return" && tail == a[6..]
    requires tail == b + w4 && b == x + ";" && x == w3 + e
    ensures t == "{" + w2 + "return" + w3 + e + ";" + w4 + "}"
  {
    assert a == "return" + tail;
  }

  lemma BlockSplit(t: string, w2: string, w3: string, e: string, w4: string, a: string)
    requires AllSpace(w2) && t == "{" + w2 + "return" + w3 + e + ";" + w4 + "}"
    requires a == "return" + (w3 + e + ";") + w4
    ensures |t| >= 2 && t[0] == '{' && t[|t| - 1] == '}' && TrimLeft(t[1..|t| - 1]) == a
  {
    assert t == "{" + w2 + a + "}";
    assert t[1..|t| - 1] == w2 + a;
    AfterBrace(w2, a);
  }

  lemma BlockBodyIntro(t: string, a: string, b: string, x: string)
    requires |t| >= 2 && t[0] == '{' && t[|t| - 1] == '}'
    requires TrimLeft(t[1..|t| - 1]) == a
    requires |a| > 6 && a[..6] == "return" && IsSpace(a[6])
    requires TrimRight(a[6..]) == b
    requires b != [] && b[|b| - 1] == ';' && b[..|b| - 1] == x
    ensures BlockBody(t) == Some(x)
  {
  }

  lemma AfterBrace(w2: string, a: string)
    requires AllSpace(w2) && a != [] && a[0] == 'r'
    ensures TrimLeft(w2 + a) == a
  {
    TrimLeftSpaces(w2, a);
    TrimLeftOfTrimmed(a);
  }

  lemma AfterReturn(w3: string, e: string, w4: string)
    requires AllSpace(w3) && w3 != []
    ensures var a := "return" + (w3 + e + ";") + w4;
      |a| > 6 && a[..6] == "return" && IsSpace(a[6]) && a[6..] == (w3 + e + ";") + w4
  {
    var a := "return" + (w3 + e + ";") + w4;
    assert a[6] == w3[0];
  }

  lemma BeforeBrace(w3: string, e: string, w4: string)
    requires AllSpace(w4)
    ensures var b := TrimRight((w3 + e + ";") + w4);
      b != [] && b[|b| - 1] == ';' && b[..|b| - 1] == w3 + e
  {
    var tail := w3 + e + ";";
    TrimRightSpaces(tail, w4);
    assert tail[|tail| - 1] == ';';
    assert TrimRight(tail) == tail;
    assert tail[..|tail| - 1] == w3 + e;
  }

  // ---------------------------------------------------------------------
  // build_msg_and_args_from_lambda

  /** What a `+` operand contributes to the message: a literal its
      content, any other expression a `{}` placeholder. */
  function TokenText(t: string): string {
    if IsLiteralToken(t) then Unquote(t) else "{}"
  }

  function Pieces(ts: seq<string>): (r: seq<string>)
    ensures |r| == |ts|
    decreases |ts|
  {
    if ts == [] then [] else [TokenText(ts[0])] + Pieces(ts[1..])
  }

  /** `"".join(parts)`. */
  function Concat(ps: seq<string>): string
    decreases |ps|
  {
    if ps == [] then [] else ps[0] + Concat(ps[1..])
  }

  /** A non-literal operand as it becomes an argument: stripped, its
      whitespace runs collapsed to single spaces. */
  function ArgText(t: string): string {
    CollapseSpaces(Strip(t))
  }

  /** What an operand contributes to the arguments. */
  function ArgOf(t: string): seq<string> {
    if IsLiteralToken(t) then [] else [ArgText(t)]
  }

  /** The arguments: every non-literal operand, in order. */
  function ArgsOf(ts: seq<string>): seq<string>
    decreases |ts|
  {
    if ts == [] then [] else ArgOf(ts[0]) + ArgsOf(ts[1..])
  }

  /** The `+` operands of a lambda body, after block normalisation. */
  function Operands(lambdaSrc: string): seq<string> {
    SplitParts(NormalizeLambda(lambdaSrc), '+')
  }

  /** `build_msg_and_args_from_lambda`: the message template and the
      argument expressions. */
  function Template(lambdaSrc: string): (string, seq<string>) {
    var ts := Operands(lambdaSrc);
    (Concat(Pieces(ts)), ArgsOf(ts))
  }

  /** The loop invariant of `BuildMsgAndArgs`: what has been collected,
      followed by what the remaining operands give, is the whole result. */
  predicate Collected(msgParts: seq<string>, args: seq<string>, ts: seq<string>, i: nat)
    requires i <= |ts|
  {
    msgParts + Pieces(ts[i..]) == Pieces(ts) && args + ArgsOf(ts[i..]) == ArgsOf(ts)
  }

  lemma CollectStep(msgParts: seq<string>, args: seq<string>, ts: seq<string>, i: nat)
    requires i < |ts| && Collected(msgParts, args, ts, i)
    ensures Collected(msgParts + [TokenText(ts[i])], args + ArgOf(ts[i]), ts, i + 1)
  {
    assert ts[i..][0] == ts[i] && ts[i..][1..] == ts[i + 1..];
    AppendAssoc(msgParts, [TokenText(ts[i])], Pieces(ts[i + 1..]));
    AppendAssoc(args, ArgOf(ts[i]), ArgsOf(ts[i + 1..]));
  }

  lemma AppendAssoc<T>(a: seq<T>, b: seq<T>, c: seq<T>)
    ensures a + b + c == a + (b + c)
  {
  }

  lemma CollectEnds(msgParts: seq<string>, args: seq<string>, ts: seq<string>)
    requires Collected(msgParts, args, ts, |ts|)
    ensures msgParts == Pieces(ts) && args == ArgsOf(ts)
  {
    assert ts[|ts|..] == [];
    assert msgParts == msgParts + Pieces([]);
    assert args == args + ArgsOf([]);
  }

  /** One operand of the loop: a literal gives its text, anything else a
      placeholder and itself, whitespace-collapsed, as an argument. Only a
      non-literal adds an argument, at most one, on one line and with the
      operand's own characters; and unless a literal holds braces, the
      piece has exactly as many placeholders as arguments were added. */
  method CollectToken(t: string) returns (piece: string, extra: seq<string>)
    ensures piece == TokenText(t) && extra == ArgOf(t)
    ensures IsLiteralToken(t) <==> extra == []
    ensures |extra| <= 1
    ensures forall i :: 0 <= i < |extra| ==> OneLine(extra[i]) && NonSpace(extra[i]) == NonSpace(t)
    ensures (IsLiteralToken(t) ==> BraceFree(Unquote(t))) ==> Holes(piece) == |extra|
  {
    if IsLiteralToken(t) {
      piece, extra := Unquote(t), [];
      if BraceFree(piece) {
        HolesBraceFree(piece);
      }
    } else {
      piece, extra := "{}", [CollapseSpaces(Strip(t))];
      assert Holes(piece) == 1 by {
        assert piece[1..] == "}";
      }
      ArgTextOneLine(t);
    }
  }

  /** `build_msg_and_args_from_lambda` as the source loops over the
      operands, collecting message parts and arguments. */
  method BuildMsgAndArgs(lambdaSrc: string) returns (msg: string, args: seq<string>)
    ensures (msg, args) == Template(lambdaSrc)
  {
    var expr := NormalizeLambda(lambdaSrc);
    var tokens := SplitTopLevel(expr, '+');
    var msgParts: seq<string> := [];
    args := [];
    assert tokens[0..] == tokens;
    for i := 0 to |tokens|
      invariant Collected(msgParts, args, tokens, i)
    {
      CollectStep(msgParts, args, tokens, i);
      var piece, extra := CollectToken(tokens[i]);
      msgParts := msgParts + [piece];
      args := args + extra;
    }
    CollectEnds(msgParts, args, tokens);
    msg := Concat(msgParts);
  }

  // ---------------------------------------------------------------------
  // Properties of the template

  /** The number of `{}` placeholders in a text. */
  function Holes(s: string): nat
    decreases |s|
  {
    if |s| < 2 then 0 else (if s[0] == '{' && s[1] == '}' then 1 else 0) + Holes(s[1..])
  }

  predicate BraceFree(s: string) {
    '{' !in s && '}' !in s
  }

  lemma {:induction false} HolesAppend(a: string, b: string)
    requires a == [] || a[|a| - 1] != '{'
    ensures Holes(a + b) == Holes(a) + Holes(b)
    decreases |a|
  {
    if a == [] {
      assert a + b == b;
    } else if |a| == 1 {
      assert (a + b)[1..] == b;
    } else {
      assert (a + b)[0] == a[0] && (a + b)[1] == a[1];
      assert (a + b)[1..] == a[1..] + b;
      HolesAppend(a[1..], b);
    }
  }

  lemma {:induction false} HolesBraceFree(s: string)
    requires BraceFree(s)
    ensures Holes(s) == 0
    decreases |s|
  {
    if |s| >= 2 {
      assert s[0] in s;
      assert forall c :: c in s[1..] ==> c in s;
      HolesBraceFree(s[1..]);
    }
  }

  /** No literal operand's content holds a brace. */
  predicate LiteralsBraceFree(ts: seq<string>) {
    forall t :: t in ts && IsLiteralToken(t) ==> BraceFree(Unquote(t))
  }

  /** The template has one placeholder per argument, as long as the
      literals themselves hold no braces. */
  lemma {:induction false} PlaceholdersMatchArgs(ts: seq<string>)
    requires LiteralsBraceFree(ts)
    ensures Holes(Concat(Pieces(ts))) == |ArgsOf(ts)|
    decreases |ts|
  {
    if ts != [] {
      var p := TokenText(ts[0]);
      assert LiteralsBraceFree(ts[1..]) by {
        assert forall t :: t in ts[1..] ==> t in ts;
      }
      PlaceholdersMatchArgs(ts[1..]);
      if IsLiteralToken(ts[0]) {
        assert BraceFree(p);
        HolesBraceFree(p);
        if p != [] {
          assert p[|p| - 1] in p;
        }
      } else {
        assert Holes(p) == 1 by {
          assert p == "{}";
          assert p[1..] == "}";
        }
      }
      HolesAppend(p, Concat(Pieces(ts[1..])));
    }
  }

  /** Every argument is on one line: stripped, with all whitespace turned
      into single spaces, and without any of its other characters lost. */
  predicate OneLine(arg: string) {
    Trimmed(arg) && SingleSpaced(arg)
  }

  lemma ArgTextOneLine(t: string)
    ensures OneLine(ArgText(t))
    ensures NonSpace(ArgText(t)) == NonSpace(t)
  {
    var s := Strip(t);
    CollapseTrimmed(s);
    CollapseOnlySpaces(s);
    CollapseNoDoubleSpace(s);
    CollapseKeepsText(s);
    StripKeepsText(t);
  }

  lemma ArgOfOneLine(t: string, a: string)
    requires a in ArgOf(t)
    ensures OneLine(a)
  {
    assert !IsLiteralToken(t) && a == ArgText(t);
    ArgTextOneLine(t);
  }

  lemma {:induction false} ArgsOneLine(ts: seq<string>)
    ensures forall a :: a in ArgsOf(ts) ==> OneLine(a)
    decreases |ts|
  {
    if ts != [] {
      ArgsOneLine(ts[1..]);
      var x := ArgOf(ts[0]);
      var y := ArgsOf(ts[1..]);
      assert ArgsOf(ts) == x + y;
      forall a | a in x + y
        ensures OneLine(a)
      {
        if a in x {
          ArgOfOneLine(ts[0], a);
        } else {
          assert a in y;
        }
      }
    }
  }

  /** Operands that are all literals give no arguments and a message that
      is their contents joined. */
  lemma {:induction false} AllLiterals(ts: seq<string>)
    requires forall t :: t in ts ==> IsLiteralToken(t)
    ensures ArgsOf(ts) == []
    ensures Concat(Pieces(ts)) == Concat(UnquoteAll(ts))
    decreases |ts|
  {
    if ts != [] {
      assert forall t :: t in ts[1..] ==> t in ts;
      AllLiterals(ts[1..]);
    }
  }

  function UnquoteAll(ts: seq<string>): seq<string>
    decreases |ts|
  {
    if ts == [] then [] else [Unquote(ts[0])] + UnquoteAll(ts[1..])
  }

  /** A text whose last character does not open a placeholder. */
  predicate ClosedEnd(s: string) {
    s == [] || s[|s| - 1] != '{'
  }

  lemma ClosedEndAppend(a: string, b: string)
    requires ClosedEnd(a) && ClosedEnd(b)
    ensures ClosedEnd(a + b)
  {
    if b != [] {
      assert (a + b)[|a + b| - 1] == b[|b| - 1];
    } else {
      assert a + b == a;
    }
  }

  /** With brace-free literals the template never ends inside a
      placeholder, so whatever follows it cannot complete one. */
  lemma {:induction false} TemplateClosedEnd(ts: seq<string>)
    requires LiteralsBraceFree(ts)
    ensures ClosedEnd(Concat(Pieces(ts)))
    decreases |ts|
  {
    if ts != [] {
      var p := TokenText(ts[0]);
      assert LiteralsBraceFree(ts[1..]) by {
        assert forall t :: t in ts[1..] ==> t in ts;
      }
      TemplateClosedEnd(ts[1..]);
      if IsLiteralToken(ts[0]) {
        if p != [] {
          assert p[|p| - 1] in p;
        }
      }
      ClosedEndAppend(p, Concat(Pieces(ts[1..])));
    }
  }
}
