/** The rewriter's self-tests, stated about the model. Each is first proved
    for every call of its shape (an expression or block lambda over string
    literals and names, followed by further names) and then instantiated
    for the texts the self-tests use. The split results follow from the
    round trip of splitting, not from unfolding the scan. */
module SupplierExamples {
  import opened Wrappers
  import opened Text
  import opened JavaString
  import opened SupplierSplit
  import opened SupplierLambda
  import opened SupplierRewrite

  // ---------------------------------------------------------------------
  // Operands

  /** A Java name as these calls use it: no quote, parenthesis, brace,
      operator, separator or whitespace. */
  predicate Name(x: string) {
    x != [] && Plain(x) && '+' !in x && ',' !in x && '{' !in x
    && forall i :: 0 <= i < |x| ==> !IsSpace(x[i])
  }

  /** A double-quoted Java string literal. */
  predicate StringLit(t: string) {
    |t| >= 2 && t[0] == '"' && t[|t| - 1] == '"' && LiteralBody(t[1..|t| - 1], '"')
  }

  /** A parenthesised expression: calls, literals and further groups may
      stand inside, as long as its parentheses match. */
  predicate Group(t: string) {
    |t| >= 2 && t[0] == '(' && t[|t| - 1] == ')' && Nested(t[1..|t| - 1])
  }

  /** An operand of a lambda body: a literal, a name or a group. */
  predicate Operand(t: string) {
    StringLit(t) || Name(t) || Group(t)
  }

  lemma NameFacts(x: string, sep: char)
    requires Name(x) && (sep == '+' || sep == ',')
    ensures Balanced(x, sep) && Strip(x) == x
    ensures !IsLiteralToken(x) && TokenText(x) == "{}" && ArgOf(x) == [x]
  {
    BalancedPlain(x, sep);
    TrimmedStrip(x);
    CollapseNoSpaces(x);
    if |x| >= 2 {
      assert !IsQuote(x[0]);
    }
  }

  lemma LiteralFacts(t: string, sep: char)
    requires StringLit(t)
    ensures Balanced(t, sep) && Strip(t) == t
    ensures IsLiteralToken(t) && TokenText(t) == t[1..|t| - 1] && ArgOf(t) == []
  {
    var b := t[1..|t| - 1];
    assert t[..1] == ['"'] && t[|t| - 1..] == ['"'];
    assert t == t[..1] + b + t[|t| - 1..];
    BalancedLiteral('"', b, sep);
    QuotedIsLiteral('"', b);
    TrimmedStrip(t);
  }

  /** A group is one operand for both separators, and it becomes the
      argument it spells, on one line. */
  lemma GroupFacts(t: string, sep: char)
    requires Group(t)
    ensures Balanced(t, sep) && Strip(t) == t
    ensures !IsLiteralToken(t) && TokenText(t) == "{}" && ArgOf(t) == [CollapseSpaces(t)]
  {
    assert t == "(" + t[1..|t| - 1] + ")";
    BalancedGroup(t[1..|t| - 1], sep);
    TrimmedStrip(t);
  }

  /** An operand is balanced for both separators, already stripped, and
      does not open a block. */
  lemma OperandFacts(t: string, sep: char)
    requires Operand(t) && (sep == '+' || sep == ',')
    ensures Balanced(t, sep) && Strip(t) == t && t != [] && t[0] != '{'
  {
    if StringLit(t) {
      LiteralFacts(t, sep);
    } else if Name(t) {
      NameFacts(x := t, sep := sep);
      assert t[0] in t;
    } else {
      GroupFacts(t, sep);
    }
  }

  // ---------------------------------------------------------------------
  // Joined text

  lemma {:induction false} JoinEnds(ps: seq<string>, sep: char)
    requires ps != [] && forall i :: 0 <= i < |ps| ==> ps[i] != []
    ensures Join(ps, sep) != [] && Join(ps, sep)[0] == ps[0][0]
    ensures Join(ps, sep)[|Join(ps, sep)| - 1] == ps[|ps| - 1][|ps[|ps| - 1]| - 1]
    decreases |ps|
  {
    if |ps| > 1 {
      var rest := ps[1..];
      assert forall i :: 0 <= i < |rest| ==> rest[i] == ps[i + 1];
      JoinEnds(rest, sep);
    }
  }

  lemma {:induction false} JoinBalanced(ps: seq<string>, j: char, sep: char)
    requires Balanced([j], sep)
    requires forall i :: 0 <= i < |ps| ==> Balanced(ps[i], sep)
    ensures Balanced(Join(ps, j), sep)
    decreases |ps|
  {
    if ps == [] {
      assert Balanced([], sep) by {
        BalancedPlain([], sep);
      }
    } else if |ps| > 1 {
      var rest := ps[1..];
      assert forall i :: 0 <= i < |rest| ==> rest[i] == ps[i + 1];
      JoinBalanced(rest, j, sep);
      BalancedAppend(ps[0], [j], sep);
      BalancedAppend(ps[0] + [j], Join(rest, j), sep);
    }
  }

  lemma {:induction false} StripAllTrimmed(ps: seq<string>)
    requires forall i :: 0 <= i < |ps| ==> Strip(ps[i]) == ps[i]
    ensures StripAll(ps) == ps
    decreases |ps|
  {
    if ps != [] {
      var rest := ps[1..];
      assert forall i :: 0 <= i < |rest| ==> rest[i] == ps[i + 1];
      StripAllTrimmed(rest);
    }
  }

  lemma OperandsBalanced(ts: seq<string>, sep: char)
    requires forall i :: 0 <= i < |ts| ==> Operand(ts[i])
    requires sep == '+' || sep == ','
    ensures forall i :: 0 <= i < |ts| ==> Balanced(ts[i], sep) && Strip(ts[i]) == ts[i]
    ensures forall i :: 0 <= i < |ts| ==> ts[i] != [] && ts[i][0] != '{'
  {
    forall i | 0 <= i < |ts|
      ensures Balanced(ts[i], sep) && Strip(ts[i]) == ts[i] && ts[i] != [] && ts[i][0] != '{'
    {
      OperandFacts(ts[i], sep);
    }
  }

  lemma JoinedTrimmed(ps: seq<string>, sep: char)
    requires ps != [] && forall i :: 0 <= i < |ps| ==> ps[i] != [] && Strip(ps[i]) == ps[i]
    ensures Trimmed(Join(ps, sep))
  {
    JoinEnds(ps, sep);
    TrimmedStrip(ps[0]);
    TrimmedStrip(ps[|ps| - 1]);
  }

  /** The lambda body `t1+t2+...`, as the self-tests write it. */
  lemma OperandsJoined(ts: seq<string>)
    requires ts != [] && forall i :: 0 <= i < |ts| ==> Operand(ts[i])
    ensures Trimmed(Join(ts, '+')) && Join(ts, '+') != [] && Join(ts, '+')[0] != '{'
    ensures Balanced(Join(ts, '+'), ',') && SplitParts(Join(ts, '+'), '+') == ts
  {
    OperandsSplitBack(ts);
    OperandsTrimmed(ts);
    OperandsCommaBalanced(ts);
  }

  lemma OperandsTrimmed(ts: seq<string>)
    requires ts != [] && forall i :: 0 <= i < |ts| ==> Operand(ts[i])
    ensures Trimmed(Join(ts, '+')) && Join(ts, '+') != [] && Join(ts, '+')[0] != '{'
  {
    OperandsBalanced(ts, '+');
    JoinedTrimmed(ts, '+');
    JoinEnds(ts, '+');
  }

  lemma OperandsSplitBack(ts: seq<string>)
    requires forall i :: 0 <= i < |ts| ==> Operand(ts[i])
    ensures SplitParts(Join(ts, '+'), '+') == ts
  {
    OperandsBalanced(ts, '+');
    SplitJoin(ts, '+');
    StripAllTrimmed(ts);
  }

  lemma OperandsCommaBalanced(ts: seq<string>)
    requires forall i :: 0 <= i < |ts| ==> Operand(ts[i])
    ensures Balanced(Join(ts, '+'), ',')
  {
    OperandsBalanced(ts, ',');
    BalancedPlain("+", ',');
    JoinBalanced(ts, '+', ',');
  }

  /** An expression lambda over literals and names: the literals' contents
      with a placeholder for each name, and the names as arguments. */
  lemma ExpressionTemplate(ts: seq<string>)
    requires ts != [] && forall i :: 0 <= i < |ts| ==> Operand(ts[i])
    ensures Template(Join(ts, '+')) == (Concat(Pieces(ts)), ArgsOf(ts))
  {
    OperandsJoined(ts);
    TrimmedStrip(Join(ts, '+'));
  }

  // ---------------------------------------------------------------------
  // Supplier calls

  /** The first argument `() -> lam` of a supplier call. */
  lemma ArrowPart(lam: string)
    requires Balanced(lam, ',') && Trimmed(lam) && lam != []
    ensures Balanced("() -> " + lam, ',') && Strip("() -> " + lam) == "() -> " + lam
    ensures StartsWith("() -> " + lam, Arrow) && LambdaOf("() -> " + lam) == lam
  {
    var p := "() -> " + lam;
    assert Balanced(p, ',') by {
      assert p == "(" + [] + ")" + " -> " + lam;
      BalancedGroup([], ',');
      BalancedPlain(" -> ", ',');
      BalancedAppend("(" + [] + ")", " -> ", ',');
      BalancedAppend("(" + [] + ")" + " -> ", lam, ',');
    }
    assert Strip(p) == p by {
      assert p[0] == '(' && p[|p| - 1] == lam[|lam| - 1];
      TrimmedStrip(p);
    }
    assert p[..5] == Arrow;
    assert p[5..] == " " + lam + [];
    StripSurrounded(" ", lam, []);
    TrimmedStrip(lam);
  }

  /** Further arguments, each written after `, `. */
  function Spaced(ys: seq<string>): (r: seq<string>)
    ensures |r| == |ys|
    ensures forall i :: 0 <= i < |ys| ==> r[i] == " " + ys[i]
    decreases |ys|
  {
    if ys == [] then [] else [" " + ys[0]] + Spaced(ys[1..])
  }

  lemma SpacedNames(ys: seq<string>)
    requires forall i :: 0 <= i < |ys| ==> Name(ys[i])
    ensures forall i :: 0 <= i < |ys| ==> Balanced(Spaced(ys)[i], ',') && Strip(Spaced(ys)[i]) != []
    ensures StripAll(Spaced(ys)) == ys
  {
    forall i | 0 <= i < |ys|
      ensures Balanced(" " + ys[i], ',') && Strip(" " + ys[i]) == ys[i]
    {
      SpacedName(ys[i]);
    }
    StripAllSpaced(ys);
  }

  lemma SpacedName(y: string)
    requires Name(y)
    ensures Balanced(" " + y, ',') && Strip(" " + y) == y
  {
    NameFacts(y, ',');
    BalancedPlain(" ", ',');
    BalancedAppend(" ", y, ',');
    StripSurrounded(" ", y, []);
    assert " " + y + [] == " " + y;
  }

  lemma {:induction false} StripAllSpaced(ys: seq<string>)
    requires forall i :: 0 <= i < |ys| ==> Strip(" " + ys[i]) == ys[i]
    ensures StripAll(Spaced(ys)) == ys
    decreases |ys|
  {
    if ys != [] {
      var rest := ys[1..];
      assert forall i :: 0 <= i < |rest| ==> rest[i] == ys[i + 1];
      StripAllSpaced(rest);
      assert Spaced(ys)[1..] == Spaced(rest);
    }
  }

  lemma ArgPartsBalanced(first: string, ys: seq<string>)
    requires Balanced(first, ',') && Strip(first) == first && first != []
    requires forall i :: 0 <= i < |ys| ==> Name(ys[i])
    ensures var ps := [first] + Spaced(ys);
      forall i :: 0 <= i < |ps| ==> Balanced(ps[i], ',') && Strip(ps[i]) != []
  {
    SpacedNames(ys);
    var ps := [first] + Spaced(ys);
    assert forall i :: 1 <= i < |ps| ==> ps[i] == Spaced(ys)[i - 1];
  }

  lemma ArgPartsStripped(first: string, ys: seq<string>)
    requires Strip(first) == first
    requires forall i :: 0 <= i < |ys| ==> Name(ys[i])
    ensures StripAll([first] + Spaced(ys)) == [first] + ys
  {
    SpacedNames(ys);
    var ps := [first] + Spaced(ys);
    assert ps[0] == first && ps[1..] == Spaced(ys);
  }

  /** The arguments of `first, y1, y2, ...`. */
  lemma ArgsAfter(first: string, ys: seq<string>)
    requires Balanced(first, ',') && Strip(first) == first && first != []
    requires forall i :: 0 <= i < |ys| ==> Name(ys[i])
    ensures SplitParts(Join([first] + Spaced(ys), ','), ',') == [first] + ys
  {
    ArgPartsBalanced(first, ys);
    ArgPartsStripped(first, ys);
    SplitJoin([first] + Spaced(ys), ',');
  }

  /** A supplier `() -> lam` whose lambda splits into the operands `ts`,
      followed by the names `ys`: the lambda's names and then `ys` become
      arguments, and the lambda's message with one placeholder per name
      in `ys` is joined onto the message so far. */
  lemma SupplierCallOf(lam: string, ts: seq<string>, ys: seq<string>, acc: string)
    requires Balanced(lam, ',') && Trimmed(lam) && lam != [] && Operands(lam) == ts
    requires forall i :: 0 <= i < |ys| ==> Name(ys[i])
    ensures RenderCall(Join(["() -> " + lam] + Spaced(ys), ','), acc)
      == (AddArgs(ArgsOf(ts) + ys), JoinSpaced(acc, Fragment(Concat(Pieces(ts)), |ys|)))
  {
    var args := ["() -> " + lam] + ys;
    ArrowPart(lam);
    ArgsAfter("() -> " + lam, ys);
    assert args[0] == "() -> " + lam && args[1..] == ys;
    RenderSupplier(Join(["() -> " + lam] + Spaced(ys), ','), acc, args, Concat(Pieces(ts)), ArgsOf(ts));
  }

  /** An expression lambda `t1+t2+...` over literals and names. */
  lemma ExpressionCall(ts: seq<string>, ys: seq<string>, acc: string)
    requires ts != [] && forall i :: 0 <= i < |ts| ==> Operand(ts[i])
    requires forall i :: 0 <= i < |ys| ==> Name(ys[i])
    ensures RenderCall(Join(["() -> " + Join(ts, '+')] + Spaced(ys), ','), acc)
      == (AddArgs(ArgsOf(ts) + ys), JoinSpaced(acc, Fragment(Concat(Pieces(ts)), |ys|)))
  {
    OperandsJoined(ts);
    TrimmedStrip(Join(ts, '+'));
    SupplierCallOf(Join(ts, '+'), ts, ys, acc);
  }

  /** The block `{ return e; }`. */
  function Block(e: string): string {
    "{ return " + e + "; }"
  }

  /** A block returning `e` normalises to `e`. */
  lemma BlockNormalizes(e: string)
    requires Trimmed(e)
    ensures NormalizeLambda(Block(e)) == e
  {
    assert Block(e) == [] + "{" + " " + "return" + " " + e + ";" + " " + "}" + [];
    NormalizeBlock([], " ", " ", e, " ", []);
    TrimmedStrip(e);
  }

  lemma Surrounded(a: string, e: string, c: string, sep: char)
    requires Balanced(a, sep) && Balanced(e, sep) && Balanced(c, sep)
    ensures Balanced(a + e + c, sep)
  {
    BalancedAppend(a, e, sep);
    BalancedAppend(a + e, c, sep);
  }

  lemma OpenBalanced()
    ensures Balanced("{ return ", ',')
  {
    BalancedPlain("{ return ", ',');
  }

  lemma CloseBalanced()
    ensures Balanced("; }", ',')
  {
    BalancedPlain("; }", ',');
  }

  lemma BlockBalanced(e: string)
    requires Balanced(e, ',')
    ensures Balanced(Block(e), ',')
  {
    assert Balanced("{ return ", ',') by { OpenBalanced(); }
    assert Balanced("; }", ',') by { CloseBalanced(); }
    Surrounded("{ return ", e, "; }", ',');
  }

  lemma BlockTrimmed(e: string)
    ensures Trimmed(Block(e)) && Block(e) != []
  {
    assert Block(e)[0] == '{' && Block(e)[|Block(e)| - 1] == '}';
  }

  /** A block lambda `{ return t1+t2+...; }` over literals and names. */
  lemma BlockCall(ts: seq<string>, ys: seq<string>, acc: string)
    requires ts != [] && forall i :: 0 <= i < |ts| ==> Operand(ts[i])
    requires forall i :: 0 <= i < |ys| ==> Name(ys[i])
    ensures RenderCall(Join(["() -> " + Block(Join(ts, '+'))] + Spaced(ys), ','), acc)
      == (AddArgs(ArgsOf(ts) + ys), JoinSpaced(acc, Fragment(Concat(Pieces(ts)), |ys|)))
  {
    OperandsJoined(ts);
    BlockNormalizes(Join(ts, '+'));
    BlockBalanced(Join(ts, '+'));
    BlockTrimmed(Join(ts, '+'));
    SupplierCallOf(Block(Join(ts, '+')), ts, ys, acc);
  }

  // ---------------------------------------------------------------------
  // Literal and name operands

  /** Message text that can stand between double quotes as it is. */
  predicate PlainText(b: string) {
    forall i :: 0 <= i < |b| ==> b[i] != '"' && b[i] != '\\'
  }

  /** The literal `"b"`. */
  function Lit(b: string): string {
    "\"" + b + "\""
  }

  lemma LitOperand(b: string)
    requires PlainText(b)
    ensures Operand(Lit(b)) && TokenText(Lit(b)) == b && ArgOf(Lit(b)) == []
  {
    var t := Lit(b);
    assert t[1..|t| - 1] == b;
    PlainBody(b, '"');
    LiteralFacts(t, '+');
  }

  /** A literal is an operand; the cheaper half of `LitOperand`. */
  lemma LitIsOperand(b: string)
    requires PlainText(b)
    ensures Operand(Lit(b))
  {
    var t := Lit(b);
    assert t[1..|t| - 1] == b;
    PlainBody(b, '"');
  }

  lemma NameOperand(x: string)
    requires Name(x)
    ensures Operand(x) && TokenText(x) == "{}" && ArgOf(x) == [x]
  {
    NameFacts(x, '+');
  }

  lemma PiecesCons(t: string, ts: seq<string>)
    ensures Concat(Pieces([t] + ts)) == TokenText(t) + Concat(Pieces(ts))
    ensures ArgsOf([t] + ts) == ArgOf(t) + ArgsOf(ts)
  {
    assert ([t] + ts)[0] == t && ([t] + ts)[1..] == ts;
  }

  lemma Pieces2(p: string, q: string)
    ensures Concat(Pieces([p, q])) == TokenText(p) + TokenText(q)
    ensures ArgsOf([p, q]) == ArgOf(p) + ArgOf(q)
  {
    PiecesCons(q, []);
    PiecesCons(p, [q]);
    assert [p] + [q] == [p, q];
    assert TokenText(q) + [] == TokenText(q) && ArgOf(q) + [] == ArgOf(q);
  }

  lemma Pieces3(p: string, q: string, r: string)
    ensures Concat(Pieces([p, q, r])) == TokenText(p) + (TokenText(q) + TokenText(r))
    ensures ArgsOf([p, q, r]) == ArgOf(p) + (ArgOf(q) + ArgOf(r))
  {
    Pieces2(q, r);
    PiecesCons(p, [q, r]);
    assert [p] + [q, r] == [p, q, r];
  }

  lemma Pieces4(p: string, q: string, r: string, t: string)
    ensures Concat(Pieces([p, q, r, t])) == TokenText(p) + (TokenText(q) + (TokenText(r) + TokenText(t)))
    ensures ArgsOf([p, q, r, t]) == ArgOf(p) + (ArgOf(q) + (ArgOf(r) + ArgOf(t)))
  {
    Pieces3(q, r, t);
    PiecesCons(p, [q, r, t]);
    assert [p] + [q, r, t] == [p, q, r, t];
  }

  /** The piece and the arguments a literal contributes. */
  lemma LitPiece(b: string)
    requires PlainText(b)
    ensures TokenText(Lit(b)) == b && ArgOf(Lit(b)) == []
  {
    LitOperand(b);
  }

  /** The piece and the argument a name contributes. */
  lemma NamePiece(x: string)
    requires Name(x)
    ensures TokenText(x) == "{}" && ArgOf(x) == [x]
  {
    NameOperand(x);
  }

  lemma JoinCons(p: string, ps: seq<string>, sep: char)
    requires ps != []
    ensures Join([p] + ps, sep) == p + [sep] + Join(ps, sep)
  {
    assert ([p] + ps)[0] == p && ([p] + ps)[1..] == ps;
  }

  /** `"a"+x`: the message `a{}` and the argument `x`. */
  lemma LitName(a: string, x: string)
    requires PlainText(a) && Name(x)
    ensures var ts := [Lit(a), x];
      (forall i :: 0 <= i < |ts| ==> Operand(ts[i])) && Join(ts, '+') == Lit(a) + "+" + x
      && Concat(Pieces(ts)) == a + "{}" && ArgsOf(ts) == [x]
  {
    LitOperand(a);
    NameOperand(x);
    Pieces2(Lit(a), x);
    JoinCons(Lit(a), [x], '+');
    assert [Lit(a)] + [x] == [Lit(a), x];
    assert [] + [x] == [x];
  }

  lemma LitNameLitOperands(a: string, x: string, c: string)
    requires PlainText(a) && Name(x) && PlainText(c)
    ensures forall i :: 0 <= i < |[Lit(a), x, Lit(c)]| ==> Operand([Lit(a), x, Lit(c)][i])
  {
    var ts := [Lit(a), x, Lit(c)];
    LitIsOperand(a);
    LitIsOperand(c);
    forall i | 0 <= i < |ts|
      ensures Operand(ts[i])
    {
      if i == 0 {
        assert ts[i] == Lit(a);
      } else if i == 1 {
        assert ts[i] == x;
      } else {
        assert ts[i] == Lit(c);
      }
    }
  }

  lemma LitNameLitPieces(a: string, x: string, c: string)
    requires PlainText(a) && Name(x) && PlainText(c)
    ensures Concat(Pieces([Lit(a), x, Lit(c)])) == a + ("{}" + c) && ArgsOf([Lit(a), x, Lit(c)]) == [x]
  {
    Pieces3(Lit(a), x, Lit(c));
    LitPiece(a);
    NamePiece(x);
    LitPiece(c);
    assert [] + ([x] + []) == [x];
  }

  lemma Join3(p: string, q: string, r: string, sep: char)
    ensures Join([p, q, r], sep) == p + [sep] + q + [sep] + r
  {
    JoinCons(q, [r], sep);
    JoinCons(p, [q, r], sep);
    assert [q] + [r] == [q, r] && [p] + [q, r] == [p, q, r];
  }

  lemma Join4(p: string, q: string, r: string, t: string, sep: char)
    ensures Join([p, q, r, t], sep) == p + [sep] + q + [sep] + r + [sep] + t
  {
    Join3(q, r, t, sep);
    JoinCons(p, [q, r, t], sep);
    assert [p] + [q, r, t] == [p, q, r, t];
  }

  /** `"a"+x+"c"`: the message `a{}c` and the argument `x`. */
  lemma LitNameLit(a: string, x: string, c: string)
    requires PlainText(a) && Name(x) && PlainText(c)
    ensures var ts := [Lit(a), x, Lit(c)];
      (forall i :: 0 <= i < |ts| ==> Operand(ts[i])) && Join(ts, '+') == Lit(a) + "+" + x + "+" + Lit(c)
      && Concat(Pieces(ts)) == a + ("{}" + c) && ArgsOf(ts) == [x]
  {
    LitNameLitOperands(a, x, c);
    Join3(Lit(a), x, Lit(c), '+');
    LitNameLitPieces(a, x, c);
  }

  lemma LitNameLitNameOperands(a: string, x: string, c: string, y: string)
    requires PlainText(a) && Name(x) && PlainText(c) && Name(y)
    ensures forall i :: 0 <= i < |[Lit(a), x, Lit(c), y]| ==> Operand([Lit(a), x, Lit(c), y][i])
  {
    var ts := [Lit(a), x, Lit(c), y];
    LitIsOperand(a);
    LitIsOperand(c);
    forall i | 0 <= i < |ts|
      ensures Operand(ts[i])
    {
      if i == 0 {
        assert ts[i] == Lit(a);
      } else if i == 1 {
        assert ts[i] == x;
      } else if i == 2 {
        assert ts[i] == Lit(c);
      } else {
        assert ts[i] == y;
      }
    }
  }

  lemma LitNameLitNamePieces(a: string, x: string, c: string, y: string)
    requires PlainText(a) && Name(x) && PlainText(c) && Name(y)
    ensures Concat(Pieces([Lit(a), x, Lit(c), y])) == a + ("{}" + (c + "{}"))
    ensures ArgsOf([Lit(a), x, Lit(c), y]) == [x, y]
  {
    Pieces4(Lit(a), x, Lit(c), y);
    LitPiece(a);
    NamePiece(x);
    LitPiece(c);
    NamePiece(y);
    assert [] + ([x] + ([] + [y])) == [x, y];
  }

  /** `"a"+x+"c"+y`: the message `a{}c{}` and the arguments `x`, `y`. */
  lemma LitNameLitName(a: string, x: string, c: string, y: string)
    requires PlainText(a) && Name(x) && PlainText(c) && Name(y)
    ensures var ts := [Lit(a), x, Lit(c), y];
      (forall i :: 0 <= i < |ts| ==> Operand(ts[i]))
      && Join(ts, '+') == Lit(a) + "+" + x + "+" + Lit(c) + "+" + y
      && Concat(Pieces(ts)) == a + ("{}" + (c + "{}")) && ArgsOf(ts) == [x, y]
  {
    LitNameLitNameOperands(a, x, c, y);
    Join4(Lit(a), x, Lit(c), y, '+');
    LitNameLitNamePieces(a, x, c, y);
  }

  /** The argument text `first, y, z`. */
  lemma ThreeArgs(first: string, y: string, z: string)
    ensures Join([first] + Spaced([y, z]), ',') == first + ", " + y + ", " + z
  {
    assert Spaced([y, z]) == [" " + y, " " + z];
    JoinCons(" " + y, [" " + z], ',');
    JoinCons(first, [" " + y, " " + z], ',');
    assert [" " + y] + [" " + z] == [" " + y, " " + z];
  }

  /** The argument text of a lone supplier. */
  lemma OneArg(first: string)
    ensures Join([first] + Spaced([]), ',') == first
  {
    assert [first] + Spaced([]) == [first];
  }

  lemma AddArgsOf2(a: string, b: string)
    ensures AddArgs([a, b]) == (CallOpen + a + ")") + (CallOpen + b + ")")
  {
    assert [a, b][1..] == [b] && [b][1..] == [];
    assert AddArgs([b]) == CallOpen + b + ")" + [];
  }

  lemma AddArgsOf3(a: string, b: string, c: string)
    ensures AddArgs([a, b, c]) == (CallOpen + a + ")") + (CallOpen + b + ")") + (CallOpen + c + ")")
  {
    assert [a, b, c][1..] == [b, c];
    AddArgsOf2(b, c);
  }

  // ---------------------------------------------------------------------
  // The shapes of the self-tests, for all texts and names

  /** `() -> "a"+x, y, z`: the arguments `x`, `y`, `z` and the fragment
      `a{} {} {}`. */
  lemma LitNameThenTwo(a: string, x: string, y: string, z: string, acc: string)
    requires PlainText(a) && Name(x) && Name(y) && Name(z)
    ensures RenderCall("() -> " + (Lit(a) + "+" + x) + ", " + y + ", " + z, acc)
      == (AddArgs([x, y, z]), JoinSpaced(acc, Fragment(a + "{}", 2)))
  {
    var ts := [Lit(a), x];
    LitName(a, x);
    ExpressionCall(ts, [y, z], acc);
    ThreeArgs("() -> " + Join(ts, '+'), y, z);
    assert [x] + [y, z] == [x, y, z];
  }

  /** `() -> "a"+x+"c"`: the argument `x` and the fragment `a{}c`. */
  lemma LitNameLitAlone(a: string, x: string, c: string, acc: string)
    requires PlainText(a) && Name(x) && PlainText(c)
    ensures RenderCall("() -> " + (Lit(a) + "+" + x + "+" + Lit(c)), acc)
      == (AddArgs([x]), JoinSpaced(acc, a + ("{}" + c)))
  {
    var ts := [Lit(a), x, Lit(c)];
    LitNameLit(a, x, c);
    ExpressionCall(ts, [], acc);
    OneArg("() -> " + Join(ts, '+'));
    assert [x] + [] == [x];
  }

  /** `() -> "a"+x+"c"+y`: the arguments `x`, `y` and the fragment
      `a{}c{}`. */
  lemma LitNameLitNameAlone(a: string, x: string, c: string, y: string, acc: string)
    requires PlainText(a) && Name(x) && PlainText(c) && Name(y)
    ensures RenderCall("() -> " + (Lit(a) + "+" + x + "+" + Lit(c) + "+" + y), acc)
      == (AddArgs([x, y]), JoinSpaced(acc, a + ("{}" + (c + "{}"))))
  {
    var ts := [Lit(a), x, Lit(c), y];
    LitNameLitName(a, x, c, y);
    ExpressionCall(ts, [], acc);
    OneArg("() -> " + Join(ts, '+'));
    assert [x, y] + [] == [x, y];
  }

  /** `() -> { return "a"+x+"c"+y; }`: the same as the expression
      lambda it returns. */
  lemma LitNameLitNameBlock(a: string, x: string, c: string, y: string, acc: string)
    requires PlainText(a) && Name(x) && PlainText(c) && Name(y)
    ensures RenderCall("() -> " + Block(Lit(a) + "+" + x + "+" + Lit(c) + "+" + y), acc)
      == (AddArgs([x, y]), JoinSpaced(acc, a + ("{}" + (c + "{}"))))
  {
    var ts := [Lit(a), x, Lit(c), y];
    LitNameLitName(a, x, c, y);
    BlockCall(ts, [], acc);
    OneArg("() -> " + Block(Join(ts, '+')));
    assert [x, y] + [] == [x, y];
  }

  // ---------------------------------------------------------------------
  // Self-test 2: a block lambda

  lemma CauseWords()
    ensures PlainText("N=") && Name("n") && PlainText(", cause=") && Name("e")
  {
  }

  lemma CauseText()
    ensures "() -> " + Block(Lit("N=") + "+" + "n" + "+" + Lit(", cause=") + "+" + "e")
      == "() -> { return \"N=\"+n+\", cause=\"+e; }"
  {
  }

  lemma CauseMessage()
    ensures JoinSpaced([], "N=" + ("{}" + (", cause=" + "{}"))) == "N={}, cause={}"
  {
  }

  lemma CauseArguments()
    ensures AddArgs(["n", "e"]) == ".addArgument(n)" + ".addArgument(e)"
  {
    AddArgsOf2("n", "e");
  }

  /** `() -> { return "N="+n+", cause="+e; }` becomes `.addArgument(n)`
      and `.addArgument(e)` with the message `N={}, cause={}`: the comma
      inside the literal does not split the arguments. */
  lemma BlockLambdaCall()
    ensures RenderCall("() -> { return \"N=\"+n+\", cause=\"+e; }", [])
      == (".addArgument(n)" + ".addArgument(e)", "N={}, cause={}")
  {
    CauseWords();
    LitNameLitNameBlock("N=", "n", ", cause=", "e", []);
    CauseText();
    CauseMessage();
    CauseArguments();
  }

  // ---------------------------------------------------------------------
  // Self-test 7: a supplier followed by two more arguments

  lemma OopsWords()
    ensures PlainText("Oops: ") && Name("e") && Name("ctx")
  {
  }

  lemma OopsText()
    ensures "() -> " + (Lit("Oops: ") + "+" + "e") + ", " + "ctx" + ", " + "e" == "() -> \"Oops: \"+e, ctx, e"
  {
  }

  lemma OopsMessage()
    ensures JoinSpaced([], Fragment("Oops: " + "{}", 2)) == "Oops: {} {} {}"
  {
    assert Placeholders(2) == "{} {}";
  }

  lemma OopsArguments()
    ensures AddArgs(["e", "ctx", "e"]) == ".addArgument(e)" + ".addArgument(ctx)" + ".addArgument(e)"
  {
    AddArgsOf3("e", "ctx", "e");
  }

  /** `() -> "Oops: "+e, ctx, e` becomes `.addArgument(e)`,
      `.addArgument(ctx)`, `.addArgument(e)` with the message
      `Oops: {} {} {}`. */
  lemma OopsCall()
    ensures RenderCall("() -> \"Oops: \"+e, ctx, e", [])
      == (".addArgument(e)" + ".addArgument(ctx)" + ".addArgument(e)", "Oops: {} {} {}")
  {
    OopsWords();
    LitNameThenTwo("Oops: ", "e", "ctx", "e", []);
    OopsText();
    OopsMessage();
    OopsArguments();
  }

  // ---------------------------------------------------------------------
  // Self-test 3: two suppliers whose fragments join into one message

  lemma UserWords()
    ensures PlainText("User=") && Name("userId") && PlainText(" ")
  {
  }

  lemma UserText()
    ensures "() -> " + (Lit("User=") + "+" + "userId" + "+" + Lit(" ")) == "() -> \"User=\"+userId+\" \""
  {
  }

  lemma UserArguments()
    ensures AddArgs(["userId"]) == ".addArgument(userId)"
  {
    assert AddArgs(["userId"]) == CallOpen + "userId" + ")" + [];
  }

  lemma UserMessage()
    ensures JoinSpaced([], "User=" + ("{}" + " ")) == "User={} "
  {
  }

  /** `() -> "User="+userId+" "` becomes `.addArgument(userId)`; the
      message starts as `User={} `. */
  lemma UserCall()
    ensures RenderCall("() -> \"User=\"+userId+\" \"", []) == (".addArgument(userId)", "User={} ")
  {
    UserWords();
    LitNameLitAlone("User=", "userId", " ", []);
    UserText();
    UserArguments();
    UserMessage();
  }

  lemma FileWords()
    ensures PlainText("File:") && Name("file") && PlainText(" size=") && Name("size")
  {
  }

  lemma FileText()
    ensures "() -> " + (Lit("File:") + "+" + "file" + "+" + Lit(" size=") + "+" + "size")
      == "() -> \"File:\"+file+\" size=\"+size"
  {
  }

  lemma FileMessage()
    ensures JoinSpaced("User={} ", "File:" + ("{}" + (" size=" + "{}"))) == "User={} File:{} size={}"
  {
  }

  lemma FileArguments()
    ensures AddArgs(["file", "size"]) == ".addArgument(file)" + ".addArgument(size)"
  {
    AddArgsOf2("file", "size");
  }

  /** `() -> "File:"+file+" size="+size`, after the message `User={} `,
      becomes `.addArgument(file)` and `.addArgument(size)`, and the
      message becomes `User={} File:{} size={}`: no second space is put
      after the first fragment's trailing one. */
  lemma FileCall()
    ensures RenderCall("() -> \"File:\"+file+\" size=\"+size", "User={} ")
      == (".addArgument(file)" + ".addArgument(size)", "User={} File:{} size={}")
  {
    FileWords();
    LitNameLitNameAlone("File:", "file", " size=", "size", "User={} ");
    FileText();
    FileMessage();
    FileArguments();
  }

  // ---------------------------------------------------------------------
  // Self-tests 4, 5 and 6: a kept call, and a lone literal with and
  // without a further argument

  /** `"a"` alone: the message `a` and no argument. */
  lemma LitAlone(a: string)
    requires PlainText(a)
    ensures forall i :: 0 <= i < |[Lit(a)]| ==> Operand([Lit(a)][i])
    ensures Join([Lit(a)], '+') == Lit(a)
    ensures Concat(Pieces([Lit(a)])) == a && ArgsOf([Lit(a)]) == []
  {
    LitIsOperand(a);
    LitPiece(a);
    PiecesCons(Lit(a), []);
    assert [Lit(a)] + [] == [Lit(a)];
    assert a + [] == a;
  }

  /** `() -> "a", y1, y2, ...`: the arguments `ys` and the fragment `a`
      followed by one placeholder per further argument. */
  lemma LitThen(a: string, ys: seq<string>, acc: string)
    requires PlainText(a) && forall i :: 0 <= i < |ys| ==> Name(ys[i])
    ensures RenderCall(Join(["() -> " + Lit(a)] + Spaced(ys), ','), acc)
      == (AddArgs(ys), JoinSpaced(acc, Fragment(a, |ys|)))
  {
    LitAlone(a);
    OperandThen(Lit(a), a, ys, acc);
  }

  /** `() -> t, y1, y2, ...` for a lone operand `t` with piece `a` and no
      argument of its own. */
  lemma OperandThen(t: string, a: string, ys: seq<string>, acc: string)
    requires forall i :: 0 <= i < |[t]| ==> Operand([t][i])
    requires Join([t], '+') == t && Concat(Pieces([t])) == a && ArgsOf([t]) == []
    requires forall i :: 0 <= i < |ys| ==> Name(ys[i])
    ensures RenderCall(Join(["() -> " + t] + Spaced(ys), ','), acc)
      == (AddArgs(ys), JoinSpaced(acc, Fragment(a, |ys|)))
  {
    OperandsThen([t], t, a, ys, acc);
  }

  lemma OperandsThen(ts: seq<string>, t: string, a: string, ys: seq<string>, acc: string)
    requires ts != [] && forall i :: 0 <= i < |ts| ==> Operand(ts[i])
    requires Join(ts, '+') == t && Concat(Pieces(ts)) == a && ArgsOf(ts) == []
    requires forall i :: 0 <= i < |ys| ==> Name(ys[i])
    ensures RenderCall(Join(["() -> " + t] + Spaced(ys), ','), acc)
      == (AddArgs(ys), JoinSpaced(acc, Fragment(a, |ys|)))
  {
    ExpressionCall(ts, ys, acc);
    assert ArgsOf(ts) + ys == ys;
  }

  lemma StaticWords()
    ensures PlainText("Static text only") && Name("e")
  {
  }

  lemma StaticText()
    ensures Join(["() -> " + Lit("Static text only")] + Spaced(["e"]), ',') == "() -> \"Static text only\", e"
  {
    ThreeArgsOne("() -> " + Lit("Static text only"), "e");
  }

  /** The argument text `first, y`. */
  lemma ThreeArgsOne(first: string, y: string)
    ensures Join([first] + Spaced([y]), ',') == first + ", " + y
  {
    assert Spaced([y]) == [" " + y];
    JoinCons(first, [" " + y], ',');
  }

  lemma StaticMessage()
    ensures JoinSpaced([], Fragment("Static text only", 1)) == "Static text only {}"
  {
    assert Placeholders(1) == "{}";
  }

  lemma StaticArgument()
    ensures AddArgs(["e"]) == ".addArgument(e)"
  {
    assert AddArgs(["e"]) == CallOpen + "e" + ")" + [];
  }

  /** `() -> "Static text only", e` becomes `.addArgument(e)` with the
      message `Static text only {}`: the further argument adds a
      placeholder after one space. */
  lemma StaticThenOneCall()
    ensures RenderCall("() -> \"Static text only\", e", [])
      == (".addArgument(e)", "Static text only {}")
  {
    StaticWords();
    LitThen("Static text only", ["e"], []);
    StaticText();
    StaticMessage();
    StaticArgument();
  }

  lemma StaticAloneText()
    ensures Join(["() -> " + Lit("Static text only")] + Spaced([]), ',') == "() -> \"Static text only\""
  {
    OneArg("() -> " + Lit("Static text only"));
  }

  /** `() -> "Static text only"` becomes no argument at all, and the
      message is the literal's text. */
  lemma StaticAloneCall()
    ensures RenderCall("() -> \"Static text only\"", []) == ([], "Static text only")
  {
    StaticWords();
    LitThen("Static text only", [], []);
    StaticAloneText();
    assert JoinSpaced([], Fragment("Static text only", 0)) == "Static text only";
  }

  lemma CauseWord()
    ensures '>' !in "cause" && CallOpen + "cause" + ")" == ".addArgument(cause)"
  {
  }

  /** `.addArgument(cause)` is not a supplier: it is written back as it
      was and the message is untouched. */
  lemma KeptCauseCall(acc: string)
    ensures RenderCall("cause", acc) == (".addArgument(cause)", acc)
  {
    CauseWord();
    NoArrowKept("cause", acc);
  }

  /** `() -> ""` becomes no argument at all and adds nothing to an empty
      message: a chain whose only supplier is this one ends with an empty
      message, so `transform_chain` hands back the original chain and the
      rewritten call is dropped (see `NoMessageUnchanged`). */
  lemma EmptyLiteralCall(acc: string)
    ensures RenderCall("() -> \"\"", acc) == ([], JoinSpaced(acc, []))
    ensures RenderCall("() -> \"\"", []) == ([], [])
  {
    assert PlainText([]);
    LitThen([], [], acc);
    LitThen([], [], []);
    OneArg("() -> " + Lit([]));
    assert "() -> " + Lit([]) == "() -> \"\"";
  }

  /** `() -> "a"+x`: the argument `x` and the fragment `a{}`. */
  lemma LitNameAlone(a: string, x: string, acc: string)
    requires PlainText(a) && Name(x)
    ensures RenderCall("() -> " + (Lit(a) + "+" + x), acc) == (AddArgs([x]), JoinSpaced(acc, a + "{}"))
  {
    var ts := [Lit(a), x];
    LitName(a, x);
    ExpressionCall(ts, [], acc);
    OneArg("() -> " + Join(ts, '+'));
    assert [x] + [] == [x];
  }

  lemma IdWords()
    ensures PlainText("ID=") && Name("id")
  {
  }

  lemma IdText()
    ensures "() -> " + (Lit("ID=") + "+" + "id") == "() -> \"ID=\"+id"
  {
  }

  lemma IdArguments()
    ensures AddArgs(["id"]) == ".addArgument(id)"
  {
    assert AddArgs(["id"]) == CallOpen + "id" + ")" + [];
  }

  lemma IdMessage()
    ensures JoinSpaced([], "ID=" + "{}") == "ID={}"
  {
  }

  /** `() -> "ID="+id` becomes `.addArgument(id)` with the fragment
      `ID={}`. */
  lemma IdCall()
    ensures RenderCall("() -> \"ID=\"+id", []) == (".addArgument(id)", "ID={}")
  {
    IdWords();
    LitNameAlone("ID=", "id", []);
    IdText();
    IdArguments();
    IdMessage();
  }

  // ---------------------------------------------------------------------
  // Self-test 1: an expression lambda with two names

  lemma ErrorWords()
    ensures PlainText("My Error: ") && Name("e") && PlainText(", the parameter=") && Name("param")
  {
  }

  lemma ErrorLits()
    ensures Lit("My Error: ") == "\"My Error: \"" && Lit(", the parameter=") == "\", the parameter=\""
  {
  }

  lemma ErrorText()
    ensures "() -> " + (Lit("My Error: ") + "+" + "e" + "+" + Lit(", the parameter=") + "+" + "param")
      == "() -> " + "\"My Error: \"" + "+e+" + "\", the parameter=\"" + "+param"
  {
    ErrorLits();
  }

  lemma ErrorMessage()
    ensures JoinSpaced([], "My Error: " + ("{}" + (", the parameter=" + "{}")))
      == "My Error: " + "{}, the parameter=" + "{}"
  {
  }

  lemma ErrorArguments()
    ensures AddArgs(["e", "param"]) == ".addArgument(e)" + ".addArgument(param)"
  {
    AddArgsOf2("e", "param");
  }

  /** `() -> "My Error: "+e+", the parameter="+param` becomes
      `.addArgument(e)` and `.addArgument(param)` with the message
      `My Error: {}, the parameter={}`. */
  lemma ErrorCall()
    ensures RenderCall("() -> " + "\"My Error: \"" + "+e+" + "\", the parameter=\"" + "+param", [])
      == (".addArgument(e)" + ".addArgument(param)", "My Error: " + "{}, the parameter=" + "{}")
  {
    ErrorWords();
    LitNameLitNameAlone("My Error: ", "e", ", the parameter=", "param", []);
    ErrorText();
    ErrorMessage();
    ErrorArguments();
  }

  // ---------------------------------------------------------------------
  // Self-test 8: a parenthesised condition spread over several lines

  /** `"a"+g` for a group `g`: the message `a{}` and the argument `g`, on
      one line. */
  lemma LitGroup(a: string, g: string)
    requires PlainText(a) && Group(g)
    ensures var ts := [Lit(a), g];
      (forall i :: 0 <= i < |ts| ==> Operand(ts[i])) && Join(ts, '+') == Lit(a) + "+" + g
      && Concat(Pieces(ts)) == a + "{}" && ArgsOf(ts) == [CollapseSpaces(g)]
  {
    LitIsOperand(a);
    LitPiece(a);
    GroupFacts(g, '+');
    Pieces2(Lit(a), g);
    JoinCons(Lit(a), [g], '+');
    assert [Lit(a)] + [g] == [Lit(a), g];
    assert [] + [CollapseSpaces(g)] == [CollapseSpaces(g)];
  }

  /** `() -> "a"+g, y`: the arguments `g`, collapsed onto one line, and
      `y`, and the fragment `a{} {}`. */
  lemma LitGroupThenOne(a: string, g: string, y: string, acc: string)
    requires PlainText(a) && Group(g) && Name(y)
    ensures RenderCall("() -> " + (Lit(a) + "+" + g) + ", " + y, acc)
      == (AddArgs([CollapseSpaces(g), y]), JoinSpaced(acc, Fragment(a + "{}", 1)))
  {
    var ts := [Lit(a), g];
    LitGroup(a, g);
    ExpressionCall(ts, [y], acc);
    ThreeArgsOne("() -> " + Join(ts, '+'), y);
    assert [CollapseSpaces(g)] + [y] == [CollapseSpaces(g), y];
  }

  /** The words `a1` to `a7`, separated by the whitespace runs `g1` to
      `g6`. */
  function Spread7(a1: string, a2: string, a3: string, a4: string, a5: string, a6: string, a7: string,
                   g1: string, g2: string, g3: string, g4: string, g5: string, g6: string): string
  {
    a1 + (g1 + (a2 + (g2 + (a3 + (g3 + (a4 + (g4 + (a5 + (g5 + (a6 + (g6 + a7)))))))))))
  }

  predicate Word(a: string) {
    a != [] && forall i :: 0 <= i < |a| ==> !IsSpace(a[i])
  }

  predicate Gap(g: string) {
    g != [] && AllSpace(g)
  }

  /** Collapsing turns every run between the words into one space. */
  lemma CollapseSpread7(a1: string, a2: string, a3: string, a4: string, a5: string, a6: string, a7: string,
                        g1: string, g2: string, g3: string, g4: string, g5: string, g6: string)
    requires Word(a1) && Word(a2) && Word(a3) && Word(a4) && Word(a5) && Word(a6) && Word(a7)
    requires Gap(g1) && Gap(g2) && Gap(g3) && Gap(g4) && Gap(g5) && Gap(g6)
    ensures CollapseSpaces(Spread7(a1, a2, a3, a4, a5, a6, a7, g1, g2, g3, g4, g5, g6))
      == Spread7(a1, a2, a3, a4, a5, a6, a7, " ", " ", " ", " ", " ", " ")
  {
    var r6 := a6 + (g6 + a7);
    var r5 := a5 + (g5 + r6);
    var r4 := a4 + (g4 + r5);
    var r3 := a3 + (g3 + r4);
    var r2 := a2 + (g2 + r3);
    assert r2[0] == a2[0] && r3[0] == a3[0] && r4[0] == a4[0] && r5[0] == a5[0] && r6[0] == a6[0];
    CollapseNoSpaces(a7);
    CollapseGap(a6, g6, a7);
    CollapseGap(a5, g5, r6);
    CollapseGap(a4, g4, r5);
    CollapseGap(a3, g3, r4);
    CollapseGap(a2, g2, r3);
    CollapseGap(a1, g1, r2);
  }

  lemma SpacesPlain(w: string)
    requires AllSpace(w)
    ensures Plain(w)
  {
  }

  lemma NestedGap(a: string, g: string, b: string)
    requires Nested(a) && AllSpace(g) && Nested(b)
    ensures Nested(a + (g + b))
  {
    SpacesPlain(g);
    NestedPlain(g);
    NestedAppend(g, b);
    NestedAppend(a, g + b);
  }

  /** Nested words separated by whitespace are nested text. */
  lemma NestedSpread7(a1: string, a2: string, a3: string, a4: string, a5: string, a6: string, a7: string,
                      g1: string, g2: string, g3: string, g4: string, g5: string, g6: string)
    requires Nested(a1) && Nested(a2) && Nested(a3) && Nested(a4) && Nested(a5) && Nested(a6) && Nested(a7)
    requires AllSpace(g1) && AllSpace(g2) && AllSpace(g3) && AllSpace(g4) && AllSpace(g5) && AllSpace(g6)
    ensures Nested(Spread7(a1, a2, a3, a4, a5, a6, a7, g1, g2, g3, g4, g5, g6))
  {
    NestedGap(a6, g6, a7);
    NestedGap(a5, g5, a6 + (g6 + a7));
    NestedGap(a4, g4, a5 + (g5 + (a6 + (g6 + a7))));
    NestedGap(a3, g3, a4 + (g4 + (a5 + (g5 + (a6 + (g6 + a7))))));
    NestedGap(a2, g2, a3 + (g3 + (a4 + (g4 + (a5 + (g5 + (a6 + (g6 + a7))))))));
    NestedGap(a1, g1, a2 + (g2 + (a3 + (g3 + (a4 + (g4 + (a5 + (g5 + (a6 + (g6 + a7))))))))));
  }

  /** The condition of self-test 8, `(cause != null ? cause.getMessage() :
      "none")`, with the line breaks and indentation `w1` and `w2` before
      `?` and before `:`. `Condition(" ", " ")` is its one-line form. */
  function Condition(w1: string, w2: string): string {
    "(" + Spread7("cause", "!=", "null", "?", "cause.getMessage" + "()", ":", "\"" + "none" + "\"", " ", " ", w1, " ", w2, " ") + ")"
  }

  /** A group of words, a call `m()` and a literal `"n"`, spread over
      whitespace, is a group: its parentheses match. */
  lemma GroupOfSpread7(c1: string, c2: string, c3: string, c4: string, m: string, c6: string, n: string,
                       w1: string, w2: string)
    requires Plain(c1) && Plain(c2) && Plain(c3) && Plain(c4) && Plain(m) && Plain(c6)
    requires LiteralBody(n, '"') && AllSpace(w1) && AllSpace(w2)
    ensures Group("(" + Spread7(c1, c2, c3, c4, m + "()", c6, "\"" + n + "\"", " ", " ", w1, " ", w2, " ") + ")")
  {
    var body := Spread7(c1, c2, c3, c4, m + "()", c6, "\"" + n + "\"", " ", " ", w1, " ", w2, " ");
    NestedPlain(c1);
    NestedPlain(c2);
    NestedPlain(c3);
    NestedPlain(c4);
    NestedPlain(c6);
    NestedPlain(m);
    NestedPlain([]);
    NestedGroup([]);
    NestedAppend(m, "(" + [] + ")");
    assert m + ("(" + [] + ")") == m + "()";
    NestedLiteral('"', n);
    assert ['"'] + n + ['"'] == "\"" + n + "\"";
    NestedSpread7(c1, c2, c3, c4, m + "()", c6, "\"" + n + "\"", " ", " ", w1, " ", w2, " ");
    var c := "(" + body + ")";
    assert c[1..|c| - 1] == body;
  }

  lemma ConditionWords()
    ensures Word("cause") && Word("!=") && Word("null") && Word("?")
    ensures Word("cause.getMessage" + "()") && Word(":") && Word("\"" + "none" + "\"")
  {
  }

  lemma ConditionPlainWords()
    ensures Plain("cause") && Plain("!=") && Plain("null") && Plain("?") && Plain(":")
    ensures Plain("cause.getMessage") && LiteralBody("none", '"')
  {
    PlainBody("none", '"');
  }

  /** The condition's parentheses match, the call's `()` and the `"none"`
      literal included. */
  lemma ConditionGroup(w1: string, w2: string)
    requires AllSpace(w1) && AllSpace(w2)
    ensures Group(Condition(w1, w2))
  {
    ConditionPlainWords();
    GroupOfSpread7("cause", "!=", "null", "?", "cause.getMessage", ":", "none", w1, w2);
  }

  lemma ConditionBodyEnds(body: string, w1: string, w2: string)
    requires body == Spread7("cause", "!=", "null", "?", "cause.getMessage" + "()", ":", "\"" + "none" + "\"", " ", " ", w1, " ", w2, " ")
    ensures body != [] && body[|body| - 1] == '"'
  {
  }

  /** Collapsing puts the condition on one line, whatever its line breaks
      and indentation. */
  lemma ConditionCollapsed(w1: string, w2: string)
    requires AllSpace(w1) && AllSpace(w2) && w1 != [] && w2 != []
    ensures CollapseSpaces(Condition(w1, w2)) == Condition(" ", " ")
  {
    var body := Spread7("cause", "!=", "null", "?", "cause.getMessage" + "()", ":", "\"" + "none" + "\"", " ", " ", w1, " ", w2, " ");
    ConditionWords();
    CollapseSpread7("cause", "!=", "null", "?", "cause.getMessage" + "()", ":", "\"" + "none" + "\"", " ", " ", w1, " ", w2, " ");
    ConditionBodyEnds(body, w1, w2);
    CollapseAppend(body, ")");
    CollapseNoSpaces(")");
    CollapseAppend("(", body + ")");
    CollapseNoSpaces("(");
    assert "(" + body + ")" == "(" + (body + ")");
  }

  lemma ConditionWordsAround()
    ensures PlainText("C=") && Name("cause")
  {
  }

  lemma ConditionText(w1: string, w2: string)
    ensures "() -> " + (Lit("C=") + "+" + Condition(w1, w2)) + ", " + "cause"
      == "() -> " + "\"C=\"" + "+" + Condition(w1, w2) + ", cause"
  {
  }

  lemma ConditionMessage()
    ensures JoinSpaced("ID={}", Fragment("C=" + "{}", 1)) == "ID={} C={} {}"
  {
    assert Placeholders(1) == "{}";
  }

  lemma ConditionArguments(g: string)
    ensures AddArgs([g, "cause"]) == ".addArgument(" + g + ")" + ".addArgument(cause)"
  {
    AddArgsOf2(g, "cause");
  }

  /** `() -> "C="+(cause != null ? cause.getMessage() : "none"), cause`,
      spread over lines, after the message `ID={}` of the call before it:
      the condition becomes one argument on one line, `cause` another,
      and the message becomes `ID={} C={} {}`, one space between the
      fragments. */
  lemma ConditionCall(w1: string, w2: string)
    requires AllSpace(w1) && AllSpace(w2) && w1 != [] && w2 != []
    ensures RenderCall("() -> " + "\"C=\"" + "+" + Condition(w1, w2) + ", cause", "ID={}")
      == (".addArgument(" + Condition(" ", " ") + ")" + ".addArgument(cause)", "ID={} C={} {}")
  {
    ConditionWordsAround();
    ConditionGroup(w1, w2);
    LitGroupThenOne("C=", Condition(w1, w2), "cause", "ID={}");
    ConditionText(w1, w2);
    ConditionCollapsed(w1, w2);
    ConditionMessage();
    ConditionArguments(CollapseSpaces(Condition(w1, w2)));
  }
}
