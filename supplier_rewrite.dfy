/** The chain rewriter: `replace_supplier_calls` walks a fluent logging
    chain, turns every `.addArgument(() -> ...)` supplier into plain
    arguments and a message fragment, and `transform_chain` puts the
    accumulated message into the chain's `setMessage("{}")`. */
module SupplierRewrite {
  import opened Wrappers
  import opened Text
  import opened JavaString
  import opened SupplierSplit
  import opened SupplierLambda

  const CallOpen: string := ".addArgument("

  // ---------------------------------------------------------------------
  // The matching parenthesis of a call

  /** The scan state just inside the call's opening parenthesis. */
  const InCall: Lexer := Lexer(false, false, None, 1)

  datatype Close = Closed(at: nat) | Unclosed

  /** The closing parenthesis of the call, scanning from `k` in state `l`:
      the first `)` seen outside literals at depth one. */
  function CloseFrom(s: string, k: nat, l: Lexer): (r: Close)
    requires k <= |s|
    ensures r.Closed? ==> k <= r.at < |s| && s[r.at] == ')'
    decreases |s| - k
  {
    if k == |s| then Unclosed
    else if !l.inStr && s[k] == ')' && l.depth == 1 then Closed(k)
    else CloseFrom(s, k + 1, Lex(l, s[k]))
  }

  /** Where the scan of the source stops: just after the closing
      parenthesis, or at the end of the text when there is none. */
  function CallEnd(s: string, start: nat): (k: nat)
    requires start <= |s|
    ensures start <= k <= |s|
  {
    match CloseFrom(s, start, InCall)
    case Closed(j) => j + 1
    case Unclosed => |s|
  }

  /** Between the parentheses of a closed call the text is balanced: the
      scan ends outside literals, back at depth one, and no earlier `)`
      closed the call. */
  lemma {:induction false} ClosedIsBalanced(s: string, k: nat, l: Lexer)
    requires k <= |s| && Consistent(l) && l.depth >= 1
    requires CloseFrom(s, k, l).Closed?
    ensures var j := CloseFrom(s, k, l).at;
      var e := LexRun(l, s[k..j]); !e.inStr && e.depth == 1
    decreases |s| - k
  {
    var j := CloseFrom(s, k, l).at;
    if !l.inStr && s[k] == ')' && l.depth == 1 {
      assert s[k..j] == [];
    } else {
      var l1 := Lex(l, s[k]);
      assert l1.depth >= 1;
      ClosedIsBalanced(s, k + 1, l1);
      assert s[k..j] == [s[k]] + s[k + 1..j];
    }
  }

  lemma CloseFromStep(s: string, k: nat, l: Lexer)
    requires k < |s|
    ensures !(!l.inStr && s[k] == ')' && l.depth == 1) ==> CloseFrom(s, k, l) == CloseFrom(s, k + 1, Lex(l, s[k]))
  {
  }

  /** The parenthesis matcher of `replace_supplier_calls`, as the source
      loops. The quote of a literal that has been closed stays in the
      variable, but is never read outside a literal. */
  method MatchingParen(s: string, start: nat) returns (k: nat)
    requires start <= |s|
    ensures k == CallEnd(s, start)
  {
    k := start;
    var depth: nat := 1;
    var inStr, esc := false, false;
    var quote: Option<char> := None;
    while k < |s|
      invariant start <= k <= |s| && depth >= 1
      invariant inStr ==> quote.Some? && IsQuote(quote.value)
      invariant !inStr ==> !esc
      invariant CloseFrom(s, k, Lexer(inStr, esc, if inStr then quote else None, depth))
             == CloseFrom(s, start, InCall)
      decreases |s| - k
    {
      var ch := s[k];
      CloseFromStep(s, k, Lexer(inStr, esc, if inStr then quote else None, depth));
      if inStr {
        if esc {
          esc := false;
        } else if ch == '\\' {
          esc := true;
        } else if Some(ch) == quote {
          inStr := false;
        }
        k := k + 1;
      } else if IsQuote(ch) {
        inStr, quote := true, Some(ch);
        k := k + 1;
      } else if ch == '(' {
        depth := depth + 1;
        k := k + 1;
      } else if ch == ')' {
        if depth == 1 {
          k := k + 1;
          return;
        }
        depth := depth - 1;
        k := k + 1;
      } else {
        k := k + 1;
      }
    }
  }

  /** `s[start:k-1]`: the argument text, without the closing parenthesis
      (or without the last character when the call is never closed). */
  function ArgSlice(s: string, start: nat, k: nat): string
    requires start <= k <= |s|
  {
    if k >= start + 1 then s[start..k - 1] else []
  }

  // ---------------------------------------------------------------------
  // One call

  /** `" ".join(["{}"] * n)`. */
  function Placeholders(n: nat): string
    decreases n
  {
    if n == 0 then [] else if n == 1 then "{}" else "{} " + Placeholders(n - 1)
  }

  lemma {:induction false} PlaceholdersCount(n: nat)
    ensures Holes(Placeholders(n)) == n && ClosedEnd(Placeholders(n))
    decreases n
  {
    if n == 1 {
      assert Placeholders(1)[1..] == "}";
    } else if n > 1 {
      PlaceholdersCount(n - 1);
      var p := Placeholders(n - 1);
      assert "{} " + p == "{}" + (" " + p);
      HolesAppend("{}", " " + p);
      assert "{}"[1..] == "}";
      HolesAppend(" ", p);
      ClosedEndAppend("{} ", p);
    }
  }

  /** Two fragments joined with a space between them, unless the first is
      empty or already ends with a space or a tab. */
  function JoinSpaced(a: string, b: string): (r: string)
    ensures r == a + b || r == a + " " + b
    ensures a != [] && a[|a| - 1] != ' ' && a[|a| - 1] != '\t' <==> r == a + " " + b
  {
    if a != [] && a[|a| - 1] != ' ' && a[|a| - 1] != '\t' then a + " " + b else a + b
  }

  /** What joining promises the message: the first fragment starts it and
      the second ends it; a non-empty first fragment is always followed by
      whitespace, so two fragments never run together; and the seam adds no
      double space when the second fragment does not start with one. */
  lemma JoinSpacedSeam(a: string, b: string)
    ensures var r := JoinSpaced(a, b);
      && |r| >= |a| + |b| && r[..|a|] == a && r[|r| - |b|..] == b
      && (a != [] ==> a[|a| - 1] == ' ' || a[|a| - 1] == '\t' || (|r| > |a| && r[|a|] == ' '))
      && (NoDoubleSpace(a) && NoDoubleSpace(b) && (b == [] || b[0] != ' ') ==> NoDoubleSpace(r))
  {
  }

  lemma JoinSpacedHoles(a: string, b: string)
    requires ClosedEnd(a)
    ensures Holes(JoinSpaced(a, b)) == Holes(a) + Holes(b)
  {
    if JoinSpaced(a, b) == a + " " + b {
      assert a + " " + b == a + (" " + b);
      HolesAppend(a, " " + b);
      HolesAppend(" ", b);
    } else {
      HolesAppend(a, b);
    }
  }

  /** `() ->`, the start of the supplier lambdas the rewriter handles. */
  const Arrow: string := "() ->"

  /** The body of a supplier lambda: its first part after `->`, stripped.
      Parts are already stripped, so their first `->` is the one that
      starts at index 3. */
  function LambdaOf(first: string): string
    requires StartsWith(first, Arrow)
  {
    Strip(first[5..])
  }

  /** The lambda's message followed by one placeholder for each of the `n`
      arguments after the supplier. */
  function Fragment(m: string, n: nat): string {
    if n == 0 then m else JoinSpaced(m, Placeholders(n))
  }

  /** A supplier call: its message fragment and the arguments it becomes,
      or `None` when the first argument is not a supplier. The arguments
      are already stripped, so stripping the first one again changes
      nothing. */
  function SupplierCall(args: seq<string>): Option<(string, seq<string>)> {
    if args != [] && StartsWith(args[0], Arrow) then
      var (m, exprs) := Template(LambdaOf(args[0]));
      Some((Fragment(m, |args| - 1), exprs + args[1..]))
    else None
  }

  /** `.addArgument(x)` for every `x`, in order. */
  function AddArgs(xs: seq<string>): string
    decreases |xs|
  {
    if xs == [] then [] else CallOpen + xs[0] + ")" + AddArgs(xs[1..])
  }

  lemma {:induction false} AddArgsAppend(a: seq<string>, b: seq<string>)
    ensures AddArgs(a + b) == AddArgs(a) + AddArgs(b)
    decreases |a|
  {
    if a == [] {
      assert a + b == b;
    } else {
      assert (a + b)[0] == a[0] && (a + b)[1..] == a[1..] + b;
      AddArgsAppend(a[1..], b);
    }
  }

  /** One call rewritten: the replacement text and the accumulated message
      after it. */
  function RenderCall(arglist: string, acc: string): (string, string) {
    match SupplierCall(SplitParts(arglist, ','))
    case Some((fragment, xs)) => (AddArgs(xs), JoinSpaced(acc, fragment))
    case None => (CallOpen + arglist + ")", acc)
  }

  /** The message fragment of a supplier has exactly one placeholder per
      argument the call is replaced by, as long as the literals in the
      lambda hold no braces. */
  lemma SupplierPlaceholders(args: seq<string>)
    requires SupplierCall(args).Some?
    requires LiteralsBraceFree(Operands(LambdaOf(args[0])))
    ensures Holes(SupplierCall(args).value.0) == |SupplierCall(args).value.1|
  {
    var ts := Operands(LambdaOf(args[0]));
    PlaceholdersMatchArgs(ts);
    var m := Concat(Pieces(ts));
    var n := |args| - 1;
    if n != 0 {
      TemplateClosedEnd(ts);
      PlaceholdersCount(n);
      JoinSpacedHoles(m, Placeholders(n));
    }
  }

  /** A call whose argument text holds no `>` has no supplier: it is kept
      (with its arguments stripped) and the message is untouched. */
  lemma NoArrowKept(arglist: string, acc: string)
    requires '>' !in arglist
    ensures RenderCall(arglist, acc) == (CallOpen + arglist + ")", acc)
  {
    var args := SplitParts(arglist, ',');
    SplitPartsCharsIn(arglist, ',');
    NoArrowNoSupplier(args, arglist);
    KeptCall(arglist, acc);
  }

  lemma NoArrowNoSupplier(args: seq<string>, x: string)
    requires '>' !in x
    requires forall p :: p in args ==> CharsIn(p, x)
    ensures SupplierCall(args).None?
  {
    SupplierHasArrow(args);
    assert args != [] ==> args[0] in args;
  }

  lemma SupplierHasArrow(args: seq<string>)
    ensures SupplierCall(args).Some? ==> args != [] && '>' in args[0]
    ensures SupplierCall(args).Some? ==> StartsWith(args[0], Arrow) && args[0][3..5] == "->"
  {
    if args != [] && StartsWith(args[0], Arrow) {
      assert args[0][..5] == Arrow;
      assert args[0][3..5] == Arrow[3..5];
      assert args[0][4] == '>';
    }
  }

  lemma KeptCall(arglist: string, acc: string)
    requires SupplierCall(SplitParts(arglist, ',')).None?
    ensures RenderCall(arglist, acc) == (CallOpen + arglist + ")", acc)
  {
  }

  lemma RenderSupplier(arglist: string, acc: string, args: seq<string>, msg: string, exprs: seq<string>)
    requires args == SplitParts(arglist, ',') && args != [] && StartsWith(args[0], Arrow)
    requires (msg, exprs) == Template(LambdaOf(args[0]))
    ensures RenderCall(arglist, acc) == (AddArgs(exprs + args[1..]), JoinSpaced(acc, Fragment(msg, |args| - 1)))
  {
  }

  /** `"".join('.addArgument(' + x + ')' for x in xs)` appended to `out`,
      as the source loops. */
  method EmitCalls(out: string, xs: seq<string>) returns (r: string)
    ensures r == out + AddArgs(xs)
  {
    r := out;
    for i := 0 to |xs|
      invariant r + AddArgs(xs[i..]) == out + AddArgs(xs)
    {
      assert xs[i..][1..] == xs[i + 1..];
      r := r + CallOpen + xs[i] + ")";
    }
    assert xs[|xs|..] == [] && xs[0..] == xs;
  }

  /** `replace_supplier_calls` on one call. */
  method RewriteCall(arglist: string, acc: string) returns (replacement: string, acc': string)
    ensures (replacement, acc') == RenderCall(arglist, acc)
  {
    var args := SplitTopLevel(arglist, ',');
    if args != [] {
      assert args[0] in args;
      TrimmedStrip(args[0]);
    }
    if args != [] && StartsWith(Strip(args[0]), Arrow) {
      replacement, acc' := RewriteSupplier(arglist, acc, args);
    } else {
      KeptBranch(arglist, acc, args);
      replacement, acc' := CallOpen + arglist + ")", acc;
    }
  }

  /** The supplier case of one call: the lambda after `->` becomes a
      message fragment and arguments. */
  method RewriteSupplier(arglist: string, acc: string, args: seq<string>) returns (replacement: string, acc': string)
    requires args == SplitParts(arglist, ',') && args != [] && Strip(args[0]) == args[0]
    requires StartsWith(args[0], Arrow)
    ensures (replacement, acc') == RenderCall(arglist, acc)
  {
    var lam := Strip(args[0][5..]);
    var msg, exprs := BuildMsgAndArgs(lam);
    var rest := args[1..];
    replacement, acc' := AssembleCall(acc, msg, exprs, rest);
    SupplierRendered(arglist, acc, args, msg, exprs, replacement, acc');
  }

  lemma SupplierRendered(arglist: string, acc: string, args: seq<string>, msg: string, exprs: seq<string>,
                         replacement: string, acc': string)
    requires args == SplitParts(arglist, ',') && args != [] && StartsWith(args[0], Arrow)
    requires (msg, exprs) == Template(LambdaOf(args[0]))
    requires replacement == AddArgs(exprs + args[1..])
    requires acc' == JoinSpaced(acc, Fragment(msg, |args| - 1))
    ensures (replacement, acc') == RenderCall(arglist, acc)
  {
    RenderSupplier(arglist, acc, args, msg, exprs);
  }

  lemma KeptBranch(arglist: string, acc: string, args: seq<string>)
    requires args == SplitParts(arglist, ',') && (args != [] ==> Strip(args[0]) == args[0])
    requires !(args != [] && StartsWith(args[0], Arrow))
    ensures RenderCall(arglist, acc) == (CallOpen + arglist + ")", acc)
  {
    KeptCall(arglist, acc);
  }

  /** The supplier branch of `replace_supplier_calls`: placeholders for the
      extra arguments, the fragment appended to the message, and one
      `.addArgument` per lambda argument and per extra argument. */
  method AssembleCall(acc: string, msg: string, exprs: seq<string>, rest: seq<string>)
    returns (replacement: string, acc': string)
    ensures replacement == AddArgs(exprs + rest)
    ensures acc' == JoinSpaced(acc, Fragment(msg, |rest|))
  {
    var m := msg;
    if rest != [] {
      if m != [] && m[|m| - 1] != ' ' && m[|m| - 1] != '\t' {
        m := m + " ";
      }
      m := m + Placeholders(|rest|);
    }
    acc' := acc;
    if acc' != [] && acc'[|acc'| - 1] != ' ' && acc'[|acc'| - 1] != '\t' {
      acc' := acc' + " ";
    }
    acc' := acc' + m;
    replacement := EmitCalls([], exprs);
    replacement := EmitCalls(replacement, rest);
    AddArgsAppend(exprs, rest);
  }

  // ---------------------------------------------------------------------
  // The whole chain

  /** The scan of `replace_supplier_calls` from position `i`, with the
      message accumulated so far: text outside the calls is copied, and
      `render` turns the stripped argument list of each call, together with
      the message, into the replacement text and the new message. The
      result is the rewritten rest of the chain and the final message. */
  function Scan(s: string, i: nat, acc: string, render: (string, string) -> (string, string)): (r: (string, string))
    requires i <= |s|
    decreases |s| - i
  {
    if i == |s| then ([], acc)
    else
      var j := Find(s, CallOpen, i);
      if j == -1 then (s[i..], acc)
      else
        var start := j + |CallOpen|;
        var k := CallEnd(s, start);
        var call := render(Strip(ArgSlice(s, start, k)), acc);
        var rest := Scan(s, k, call.1, render);
        (s[i..j] + call.0 + rest.0, rest.1)
  }

  /** `replace_supplier_calls(s)` from position `i`, each call rendered as
      `RenderCall` does. */
  function Rewritten(s: string, i: nat, acc: string): (string, string)
    requires i <= |s|
  {
    Scan(s, i, acc, RenderCall)
  }

  /** The loop invariant of `ReplaceSupplierCalls`: the text written so
      far followed by the rewritten rest is the whole result, and the rest
      ends with the whole message. */
  predicate Progress(s: string, i: nat, out: string, acc: string, render: (string, string) -> (string, string))
    requires i <= |s|
  {
    out + Scan(s, i, acc, render).0 == Scan(s, 0, [], render).0
    && Scan(s, i, acc, render).1 == Scan(s, 0, [], render).1
  }

  lemma ProgressCall(s: string, i: nat, out: string, acc: string, j: nat, k: nat,
                     replacement: string, acc1: string, render: (string, string) -> (string, string))
    requires i < |s| && Progress(s, i, out, acc, render)
    requires j == Find(s, CallOpen, i) && k == CallEnd(s, j + |CallOpen|)
    requires (replacement, acc1) == render(Strip(ArgSlice(s, j + |CallOpen|, k)), acc)
    ensures Progress(s, k, out + s[i..j] + replacement, acc1, render)
  {
    ScanAtCall(s, i, acc, j, k, replacement, acc1, render);
    Regroup(out, s[i..j], replacement, Scan(s, k, acc1, render).0);
  }

  lemma Regroup(a: string, b: string, c: string, d: string)
    ensures a + b + c + d == a + (b + c + d)
  {
  }

  /** One step of the scan at a call. */
  lemma ScanAtCall(s: string, i: nat, acc: string, j: nat, k: nat,
                   replacement: string, acc1: string, render: (string, string) -> (string, string))
    requires i < |s| && j == Find(s, CallOpen, i) && k == CallEnd(s, j + |CallOpen|)
    requires (replacement, acc1) == render(Strip(ArgSlice(s, j + |CallOpen|, k)), acc)
    ensures Scan(s, i, acc, render).0 == s[i..j] + replacement + Scan(s, k, acc1, render).0
    ensures Scan(s, i, acc, render).1 == Scan(s, k, acc1, render).1
  {
  }

  lemma ProgressLast(s: string, i: nat, out: string, acc: string, render: (string, string) -> (string, string))
    requires i < |s| && Progress(s, i, out, acc, render) && Find(s, CallOpen, i) == -1
    ensures (out + s[i..], acc) == Scan(s, 0, [], render)
  {
  }

  lemma ProgressEnd(s: string, out: string, acc: string, render: (string, string) -> (string, string))
    requires Progress(s, |s|, out, acc, render)
    ensures (out, acc) == Scan(s, 0, [], render)
  {
    assert out + [] == out;
  }

  /** `replace_supplier_calls`, as the source loops. */
  method ReplaceSupplierCalls(chainText: string) returns (newChain: string, msg: string)
    ensures (newChain, msg) == Rewritten(chainText, 0, [])
  {
    var s := chainText;
    var i := 0;
    newChain := [];
    msg := [];
    while i < |s|
      invariant i <= |s| && Progress(s, i, newChain, msg, RenderCall)
      decreases |s| - i
    {
      var j := Find(s, CallOpen, i);
      if j == -1 {
        ProgressLast(s, i, newChain, msg, RenderCall);
        newChain := newChain + s[i..];
        return;
      }
      var start := j + |CallOpen|;
      var k := MatchingParen(s, start);
      var arglist := Strip(ArgSlice(s, start, k));
      var replacement, acc1 := RewriteCall(arglist, msg);
      ProgressCall(s, i, newChain, msg, j, k, replacement, acc1, RenderCall);
      newChain := newChain + s[i..j] + replacement;
      msg := acc1;
      i := k;
    }
    ProgressEnd(s, newChain, msg, RenderCall);
  }

  /** A chain without `.addArgument(` is left exactly as it is. */
  lemma NoCallsUnchanged(s: string, acc: string)
    requires s == [] || Find(s, CallOpen, 0) == -1
    ensures Rewritten(s, 0, acc) == (s, acc)
  {
    assert s[0..] == s;
  }

  /** Without any `>` in the chain there is no supplier, and the message
      stays what it was. */
  lemma {:induction false} NoArrowNoMessage(s: string, i: nat, acc: string)
    requires i <= |s| && '>' !in s
    ensures Rewritten(s, i, acc).1 == acc
    decreases |s| - i
  {
    if i < |s| {
      var j := Find(s, CallOpen, i);
      if j != -1 {
        var start := j + |CallOpen|;
        var k := CallEnd(s, start);
        var arglist := Strip(ArgSlice(s, start, k));
        assert '>' !in arglist by {
          if k >= start + 1 {
            SliceCharsIn(s, start, k - 1);
          }
          StripCharsIn(ArgSlice(s, start, k));
        }
        NoArrowKept(arglist, acc);
        NoArrowNoMessage(s, k, acc);
      }
    }
  }

  // ---------------------------------------------------------------------
  // setMessage("{}")

  /** The end of the whitespace run starting at `i`. */
  function SkipSpaces(s: string, i: nat): (r: nat)
    ensures i <= r && (r < |s| ==> !IsSpace(s[r]))
    ensures i < r ==> r <= |s|
    decreases |s| - i
  {
    if i < |s| && IsSpace(s[i]) then SkipSpaces(s, i + 1) else i
  }

  /** What `SkipSpaces` passes over is whitespace. */
  lemma {:induction false} SkipSpacesRun(s: string, i: nat)
    requires i <= |s|
    ensures AllSpace(s[i..SkipSpaces(s, i)])
    decreases |s| - i
  {
    var r := SkipSpaces(s, i);
    if i < |s| && IsSpace(s[i]) {
      SkipSpacesRun(s, i + 1);
      assert forall m :: 1 <= m < r - i ==> s[i..r][m] == s[i + 1..r][m - 1];
    }
  }

  /** Whitespace from `i`, then the character `ch`: the position just after
      `ch`, or `None` when the next non-whitespace character is another one. */
  function Expect(s: string, i: nat, ch: char): (r: Option<nat>)
    ensures r.Some? ==> i < r.value <= |s| && s[r.value - 1] == ch
  {
    var j := SkipSpaces(s, i);
    if j < |s| && s[j] == ch then Some(j + 1) else None
  }

  /** The pattern `.` ws `setMessage` ws `(` ws `"` ws `{}` ws `"` ws `)`
      at position `p` (ws is any run of whitespace): the end of its part up
      to and including `(`, and the end of the whole match. Every run is
      followed by a fixed non-whitespace character, so it takes all the
      whitespace there is. */
  function SetMessageAt(s: string, p: nat): (r: Option<(nat, nat)>)
    ensures r.Some? ==> p < r.value.0 < r.value.1 <= |s|
    ensures r.Some? ==> s[p] == '.' && s[r.value.0 - 1] == '(' && s[r.value.1 - 1] == ')'
  {
    if p < |s| && s[p] == '.' then
      var a := SkipSpaces(s, p + 1);
      if MatchAt(s, "setMessage", a) then
        var open := Expect(s, a + 10, '(');
        if open.None? then None else
        var quote1 := Expect(s, open.value, '"');
        if quote1.None? then None else
        var brace := Expect(s, quote1.value, '{');
        if brace.None? || brace.value >= |s| || s[brace.value] != '}' then None else
        var quote2 := Expect(s, brace.value + 1, '"');
        if quote2.None? then None else
        var close := Expect(s, quote2.value, ')');
        if close.None? then None else Some((open.value, close.value))
      else None
    else None
  }

  /** The leftmost match at or after `p`. */
  function FirstSetMessage(s: string, p: nat): (r: Option<(nat, nat)>)
    ensures r.Some? ==> SetMessageAt(s, FirstAt(s, p)) == r
    ensures forall m :: p <= m < (if r.Some? then FirstAt(s, p) else |s|) ==> SetMessageAt(s, m).None?
    decreases |s| - p
  {
    if p >= |s| then None
    else if SetMessageAt(s, p).Some? then SetMessageAt(s, p)
    else FirstSetMessage(s, p + 1)
  }

  /** Where `FirstSetMessage` finds its match. */
  function FirstAt(s: string, p: nat): nat
    decreases |s| - p
  {
    if p >= |s| || SetMessageAt(s, p).Some? then p else FirstAt(s, p + 1)
  }

  /** The replacement `transform_chain` puts into the placeholder. */
  function MessageLiteral(msg: string): string {
    "\"" + Escape(msg) + "\""
  }

  /** The first `setMessage("{}")` with its literal replaced by the
      message, everything else kept. */
  function ReplaceSetMessage(chain: string, msg: string): string {
    match FirstSetMessage(chain, 0)
    case None => chain
    case Some((g, e)) => chain[..g] + MessageLiteral(msg) + ")" + chain[e..]
  }

  /** The last step of `transform_chain`, given the rewritten chain and
      the message: without a message the original chain is returned,
      before any rewriting; otherwise the rewritten chain with its first
      `setMessage("{}")` filled in. */
  function Substituted(chain: string, newChain: string, msg: string): string {
    if msg == [] then chain else ReplaceSetMessage(newChain, msg)
  }

  /** `transform_chain`. */
  function TransformChain(chain: string): string {
    var r := Rewritten(chain, 0, []);
    Substituted(chain, r.0, r.1)
  }

  /** A chain without any `>` holds no supplier and is returned unchanged. */
  lemma NoSupplierUnchanged(chain: string)
    requires '>' !in chain
    ensures TransformChain(chain) == chain
  {
    NoArrowNoMessage(chain, 0, []);
  }

  /** Whenever the scan ends with an empty message, the original chain is
      returned and the rewritten text is discarded, even when suppliers
      were found: a supplier such as `() -> ""` contributes neither an
      argument nor a message, and the chain keeps its `.addArgument(() -> "")`. */
  lemma NoMessageUnchanged(chain: string)
    requires Rewritten(chain, 0, []).1 == []
    ensures TransformChain(chain) == chain
    ensures Rewritten(chain, 0, []).0 != chain ==> TransformChain(chain) != Rewritten(chain, 0, []).0
  {
  }

  /** With a message and a `setMessage("{}")` in the rewritten chain, the
      result is that chain with the call's literal replaced by a
      well-formed Java literal that reads back as the message; the text
      before and after it, the call's `(` and its `)` are kept. Without a
      `setMessage("{}")` the rewritten chain is returned as it is. */
  lemma TransformedMessage(chain: string, newChain: string, msg: string)
    requires msg != []
    ensures FirstSetMessage(newChain, 0).None? ==> Substituted(chain, newChain, msg) == newChain
    ensures FirstSetMessage(newChain, 0).Some? ==>
      var (g, e) := FirstSetMessage(newChain, 0).value;
      var lit := MessageLiteral(msg);
      Substituted(chain, newChain, msg) == newChain[..g] + lit + ")" + newChain[e..]
      && IsLiteralToken(lit) && Unescape(Unquote(lit)) == msg
      && newChain[g - 1] == '(' && newChain[e - 1] == ')'
  {
    var lit := MessageLiteral(msg);
    EscapedIsLiteral(msg);
    EscapeRoundTrip(msg);
    assert Unquote(lit) == Escape(msg) by {
      assert lit[0] == '"' && lit[|lit| - 1] == '"';
      assert lit[1..|lit| - 1] == Escape(msg);
    }
  }
}
