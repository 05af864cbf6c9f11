/**
 * Character-level string helpers shared by the supplier-chain rewriter:
 * Python's `str.strip`, `str.startswith`, `str.find` and the `\s+` -> " "
 * substitution, over `string` = `seq<char>`.
 */
module Text {

  /** The ASCII characters Python's `str.isspace()` accepts, which are the
      ones `str.strip()` removes and the regex class `\s` matches: space,
      tab, line feed, vertical tab, form feed, carriage return and the four
      separators 0x1C to 0x1F. */
  predicate IsSpace(c: char) {
    c == ' ' || ('\t' <= c <= '\r') || ('\U{1C}' <= c <= '\U{1F}')
  }

  predicate AllSpace(s: string) {
    forall i :: 0 <= i < |s| ==> IsSpace(s[i])
  }

  /** Neither end of `s` is whitespace. */
  predicate Trimmed(s: string) {
    s == [] || (!IsSpace(s[0]) && !IsSpace(s[|s| - 1]))
  }

  /** `s.lstrip()`: the suffix of `s` left after its leading whitespace. */
  function TrimLeft(s: string): (r: string)
    ensures |r| <= |s|
    ensures r == [] || !IsSpace(r[0])
    ensures s != [] && IsSpace(s[0]) ==> |r| < |s|
  {
    if s != [] && IsSpace(s[0]) then TrimLeft(s[1..]) else s
  }

  /** `s.rstrip()`: the prefix of `s` left after its trailing whitespace. */
  function TrimRight(s: string): (r: string)
    ensures |r| <= |s|
    ensures r == [] || (r[0] == s[0] && !IsSpace(r[|r| - 1]))
  {
    if s != [] && IsSpace(s[|s| - 1]) then TrimRight(s[..|s| - 1]) else s
  }

  /** `s.strip()`. */
  function Strip(s: string): (r: string)
    ensures Trimmed(r) && |r| <= |s|
  {
    TrimRight(TrimLeft(s))
  }

  /** `strip()` removes exactly leading and trailing whitespace: it yields the
      empty string exactly when `s` is all whitespace. */
  lemma {:induction false} StripEmpty(s: string)
    ensures Strip(s) == [] <==> AllSpace(s)
    decreases |s|
  {
    if s != [] && IsSpace(s[0]) {
      StripEmpty(s[1..]);
      assert AllSpace(s) <==> AllSpace(s[1..]) by {
        assert forall i :: 0 < i < |s| ==> s[i] == s[1..][i - 1];
      }
    } else if s != [] {
      TrimRightNonEmpty(s);
    }
  }

  lemma {:induction false} TrimRightNonEmpty(s: string)
    requires s != [] && !IsSpace(s[0])
    ensures TrimRight(s) != []
    decreases |s|
  {
    if IsSpace(s[|s| - 1]) {
      assert |s| > 1;
      TrimRightNonEmpty(s[..|s| - 1]);
    }
  }

  lemma TrimLeftOfTrimmed(s: string)
    requires s == [] || !IsSpace(s[0])
    ensures TrimLeft(s) == s
  {
  }

  lemma {:induction false} TrimLeftSpaces(w: string, s: string)
    requires AllSpace(w)
    ensures TrimLeft(w + s) == TrimLeft(s)
    decreases |w|
  {
    if w != [] {
      assert (w + s)[0] == w[0];
      assert (w + s)[1..] == w[1..] + s;
      assert AllSpace(w[1..]) by {
        assert forall i :: 0 <= i < |w| - 1 ==> w[1..][i] == w[i + 1];
      }
      TrimLeftSpaces(w[1..], s);
    } else {
      assert w + s == s;
    }
  }

  lemma {:induction false} TrimRightSpaces(s: string, w: string)
    requires AllSpace(w)
    ensures TrimRight(s + w) == TrimRight(s)
    decreases |w|
  {
    if w != [] {
      assert (s + w)[|s + w| - 1] == w[|w| - 1];
      assert (s + w)[..|s + w| - 1] == s + w[..|w| - 1];
      assert AllSpace(w[..|w| - 1]) by {
        assert forall i :: 0 <= i < |w| - 1 ==> w[..|w| - 1][i] == w[i];
      }
      TrimRightSpaces(s, w[..|w| - 1]);
    } else {
      assert s + w == s;
    }
  }

  /** A string whose ends are not whitespace is its own `strip()`. */
  lemma TrimmedStrip(s: string)
    requires Trimmed(s)
    ensures Strip(s) == s
  {
  }

  /** Whitespace on either side does not survive `strip()`. */
  lemma {:induction false} StripSurrounded(w1: string, s: string, w2: string)
    requires AllSpace(w1) && AllSpace(w2)
    ensures Strip(w1 + s + w2) == Strip(s)
  {
    var sw := s + w2;
    assert w1 + s + w2 == w1 + sw;
    TrimLeftSpaces(w1, sw);
    TrimLeftAppend(s, w2);
    StripTail(TrimLeft(s), w2);
  }

  lemma TrimLeftAppend(s: string, w: string)
    ensures TrimLeft(s + w) == TrimLeft(TrimLeft(s) + w)
  {
    var l := TrimLeft(s);
    var lead := s[..|s| - |l|];
    LeadingSpaces(s);
    assert s == lead + l;
    assert s + w == lead + (l + w);
    TrimLeftSpaces(lead, l + w);
  }

  lemma StripTail(l: string, w: string)
    requires l == [] || !IsSpace(l[0])
    requires AllSpace(w)
    ensures TrimRight(TrimLeft(l + w)) == TrimRight(l)
  {
    if l == [] {
      assert l + w == w + [];
      TrimLeftSpaces(w, []);
    } else {
      assert (l + w)[0] == l[0];
      TrimLeftOfTrimmed(l + w);
      TrimRightSpaces(l, w);
    }
  }

  /** `lstrip()` keeps a suffix and drops only whitespace. */
  lemma {:induction false} LeadingSpaces(s: string)
    ensures TrimLeft(s) == s[|s| - |TrimLeft(s)|..]
    ensures AllSpace(s[..|s| - |TrimLeft(s)|])
    decreases |s|
  {
    if s != [] && IsSpace(s[0]) {
      LeadingSpaces(s[1..]);
      assert s[1..][|s| - 1 - |TrimLeft(s)|..] == s[|s| - |TrimLeft(s)|..];
      var k := |s| - |TrimLeft(s)|;
      assert forall i :: 1 <= i < k ==> s[..k][i] == s[1..][..k - 1][i - 1];
    }
  }

  predicate StartsWith(s: string, p: string) {
    |p| <= |s| && s[..|p|] == p
  }

  /** Whether `pat` occurs in `s` at position `i`. */
  predicate MatchAt(s: string, pat: string, i: nat) {
    i + |pat| <= |s| && s[i..i + |pat|] == pat
  }

  /** `s.find(pat, i)`: the first position at or after `i` where `pat` occurs,
      or -1 when there is none. */
  function Find(s: string, pat: string, i: nat): (r: int)
    requires i <= |s|
    ensures r == -1 || (i <= r && MatchAt(s, pat, r))
    ensures forall m {:trigger MatchAt(s, pat, m)} :: i <= m && (r == -1 || m < r) ==> !MatchAt(s, pat, m)
    decreases |s| - i
  {
    if i + |pat| > |s| then -1
    else if MatchAt(s, pat, i) then i
    else Find(s, pat, i + 1)
  }

  /** Python's `re.sub(r"\s+", " ", s)`: every maximal run of whitespace
      becomes a single space. */
  function CollapseSpaces(s: string): string
    decreases |s|
  {
    if s == [] then []
    else if IsSpace(s[0]) then
      [' '] + CollapseSpaces(TrimLeft(s))
    else [s[0]] + CollapseSpaces(s[1..])
  }

  /** After collapsing, every whitespace character left is a plain space. */
  lemma {:induction false} CollapseOnlySpaces(s: string)
    ensures var r := CollapseSpaces(s); forall i :: 0 <= i < |r| && IsSpace(r[i]) ==> r[i] == ' '
    decreases |s|
  {
    var r := CollapseSpaces(s);
    if s != [] && IsSpace(s[0]) {
      var t := TrimLeft(s);
      CollapseOnlySpaces(t);
      assert r == [' '] + CollapseSpaces(t);
      assert forall i :: 1 <= i < |r| ==> r[i] == CollapseSpaces(t)[i - 1];
    } else if s != [] {
      CollapseOnlySpaces(s[1..]);
      assert r == [s[0]] + CollapseSpaces(s[1..]);
      assert forall i :: 1 <= i < |r| ==> r[i] == CollapseSpaces(s[1..])[i - 1];
    }
  }

  /** The first character of a collapsed string is whitespace only if the
      first character of the input is. */
  lemma CollapseHead(s: string)
    ensures var r := CollapseSpaces(s); r != [] ==> (IsSpace(r[0]) <==> IsSpace(s[0]))
  {
  }

  /** After collapsing, no two spaces are adjacent. */
  /** No two spaces stand next to each other. */
  predicate NoDoubleSpace(s: string) {
    forall i :: 0 <= i < |s| - 1 ==> !(s[i] == ' ' && s[i + 1] == ' ')
  }

  lemma {:induction false} CollapseNoDoubleSpace(s: string)
    ensures NoDoubleSpace(CollapseSpaces(s))
    decreases |s|
  {
    var r := CollapseSpaces(s);
    if s != [] && IsSpace(s[0]) {
      var t := TrimLeft(s);
      CollapseNoDoubleSpace(t);
      CollapseHead(t);
      assert r == [' '] + CollapseSpaces(t);
    } else if s != [] {
      CollapseNoDoubleSpace(s[1..]);
      assert r == [s[0]] + CollapseSpaces(s[1..]);
    }
  }

  /** Collapsing neither loses, adds nor reorders a non-whitespace character. */
  lemma {:induction false} CollapseKeepsText(s: string)
    ensures NonSpace(CollapseSpaces(s)) == NonSpace(s)
    decreases |s|
  {
    if s != [] && IsSpace(s[0]) {
      var t := TrimLeft(s);
      CollapseKeepsText(t);
      LeadingSpaces(s);
      assert s == s[..|s| - |t|] + t;
      NonSpaceOfSpaces(s[..|s| - |t|], t);
      NonSpaceAppend([' '], CollapseSpaces(t));
    } else if s != [] {
      CollapseKeepsText(s[1..]);
      assert s == [s[0]] + s[1..];
      NonSpaceAppend([s[0]], s[1..]);
      NonSpaceAppend([s[0]], CollapseSpaces(s[1..]));
    }
  }

  /** Collapsing a string with no whitespace at either end gives a string with
      none at either end. */
  lemma {:induction false} CollapseTrimmed(s: string)
    requires Trimmed(s)
    ensures Trimmed(CollapseSpaces(s))
  {
    CollapseHead(s);
    CollapseLast(s);
  }

  lemma {:induction false} CollapseLast(s: string)
    ensures var r := CollapseSpaces(s); r != [] && IsSpace(r[|r| - 1]) ==> IsSpace(s[|s| - 1])
    decreases |s|
  {
    var r := CollapseSpaces(s);
    if s != [] && IsSpace(s[0]) {
      var t := TrimLeft(s);
      CollapseLast(t);
      LeadingSpaces(s);
      assert r == [' '] + CollapseSpaces(t);
      assert t != [] ==> s[|s| - 1] == t[|t| - 1];
      assert t == [] ==> s[..|s|][|s| - 1] == s[|s| - 1];
    } else if s != [] {
      CollapseLast(s[1..]);
      assert r == [s[0]] + CollapseSpaces(s[1..]);
      assert s[1..] != [] ==> s[|s| - 1] == s[1..][|s| - 2];
    }
  }

  /** `s` with every whitespace character removed. */
  function NonSpace(s: string): string {
    if s == [] then [] else (if IsSpace(s[0]) then [] else [s[0]]) + NonSpace(s[1..])
  }

  lemma {:induction false} NonSpaceAppend(a: string, b: string)
    ensures NonSpace(a + b) == NonSpace(a) + NonSpace(b)
    decreases |a|
  {
    if a != [] {
      assert (a + b)[0] == a[0];
      assert (a + b)[1..] == a[1..] + b;
      NonSpaceAppend(a[1..], b);
    } else {
      assert a + b == b;
    }
  }

  lemma NonSpaceOfSpaces(w: string, s: string)
    requires AllSpace(w)
    ensures NonSpace(w + s) == NonSpace(s)
  {
    NonSpaceAppend(w, s);
    NonSpaceOfAllSpace(w);
  }

  lemma {:induction false} NonSpaceOfAllSpace(w: string)
    requires AllSpace(w)
    ensures NonSpace(w) == []
    decreases |w|
  {
    if w != [] {
      assert AllSpace(w[1..]) by {
        forall i | 0 <= i < |w| - 1 ensures IsSpace(w[1..][i]) { assert w[1..][i] == w[i + 1]; }
      }
      NonSpaceOfAllSpace(w[1..]);
    }
  }

  /** `rstrip()` keeps a prefix and drops only whitespace. */
  lemma {:induction false} TrailingSpaces(s: string)
    ensures TrimRight(s) == s[..|TrimRight(s)|]
    ensures AllSpace(s[|TrimRight(s)|..])
    decreases |s|
  {
    if s != [] && IsSpace(s[|s| - 1]) {
      var p := s[..|s| - 1];
      TrailingSpaces(p);
      assert p[..|TrimRight(s)|] == s[..|TrimRight(s)|];
      var k := |TrimRight(s)|;
      assert forall i :: 0 <= i < |s| - k - 1 ==> s[k..][i] == p[k..][i];
    }
  }

  /** Every character of `s` also occurs in `t`. */
  predicate CharsIn(s: string, t: string) {
    forall c :: c in s ==> c in t
  }

  /** Stripping keeps a contiguous piece of the text. */
  lemma StripCharsIn(s: string)
    ensures CharsIn(Strip(s), s)
  {
    var l := TrimLeft(s);
    LeadingSpaces(s);
    assert forall c :: c in l ==> c in s;
    var r := TrimRight(l);
    TrailingSpaces(l);
    assert forall c :: c in r ==> c in l;
  }

  lemma SliceCharsIn(s: string, a: nat, b: nat)
    requires a <= b <= |s|
    ensures CharsIn(s[a..b], s)
  {
    forall c | c in s[a..b] ensures c in s {
      var i :| 0 <= i < b - a && s[a..b][i] == c;
      assert s[a + i] == c;
    }
  }

  /** Stripping removes whitespace only. */
  lemma StripKeepsText(s: string)
    ensures NonSpace(Strip(s)) == NonSpace(s)
  {
    var l := TrimLeft(s);
    LeadingSpaces(s);
    assert s == s[..|s| - |l|] + l;
    NonSpaceOfSpaces(s[..|s| - |l|], l);
    var r := TrimRight(l);
    TrailingSpaces(l);
    assert l == r + l[|r|..];
    NonSpaceAppend(r, l[|r|..]);
    NonSpaceOfAllSpace(l[|r|..]);
    assert r + [] == r;
  }

  /** Collapsing leaves a string without whitespace as it is. */
  lemma {:induction false} CollapseNoSpaces(s: string)
    requires forall i :: 0 <= i < |s| ==> !IsSpace(s[i])
    ensures CollapseSpaces(s) == s
    decreases |s|
  {
    if s != [] {
      assert forall i :: 0 <= i < |s| - 1 ==> s[1..][i] == s[i + 1];
      CollapseNoSpaces(s[1..]);
      assert s == [s[0]] + s[1..];
    }
  }

  /** Every whitespace character is a plain space and no two whitespace
      characters are adjacent. */
  predicate SingleSpaced(s: string) {
    (forall i :: 0 <= i < |s| && IsSpace(s[i]) ==> s[i] == ' ')
    && (forall i :: 0 <= i < |s| - 1 ==> !(IsSpace(s[i]) && IsSpace(s[i + 1])))
  }

  /** Collapsing leaves single-spaced text as it is. */
  lemma {:induction false} CollapseSingleSpaced(s: string)
    requires SingleSpaced(s)
    ensures CollapseSpaces(s) == s
    decreases |s|
  {
    if s != [] {
      var t := s[1..];
      assert SingleSpaced(t) by {
        assert forall i :: 0 <= i < |t| ==> t[i] == s[i + 1];
      }
      CollapseSingleSpaced(t);
      if IsSpace(s[0]) {
        if t != [] {
          assert t[0] == s[1];
        }
        TrimLeftOfTrimmed(t);
        assert TrimLeft(s) == TrimLeft(t);
      }
      assert s == [s[0]] + t;
    }
  }

  /** Text that ends in a non-space collapses independently of what
      follows it. */
  lemma {:induction false} CollapseAppend(a: string, b: string)
    requires a != [] && !IsSpace(a[|a| - 1])
    ensures CollapseSpaces(a + b) == CollapseSpaces(a) + CollapseSpaces(b)
    decreases |a|
  {
    assert (a + b)[0] == a[0];
    if IsSpace(a[0]) {
      var t := TrimLeft(a);
      LeadingSpaces(a);
      assert t[|t| - 1] == a[|a| - 1];
      TrimLeftAppend(a, b);
      assert (t + b)[0] == t[0];
      TrimLeftOfTrimmed(t + b);
      CollapseAppend(t, b);
    } else if |a| == 1 {
      assert (a + b)[1..] == b;
      assert CollapseSpaces(a) == [a[0]] + CollapseSpaces([]);
    } else {
      assert (a + b)[1..] == a[1..] + b;
      CollapseAppend(a[1..], b);
    }
  }

  /** A run of whitespace before a non-space becomes one space. */
  lemma CollapseRun(w: string, b: string)
    requires AllSpace(w) && w != [] && b != [] && !IsSpace(b[0])
    ensures CollapseSpaces(w + b) == " " + CollapseSpaces(b)
  {
    assert (w + b)[0] == w[0];
    TrimLeftSpaces(w, b);
    TrimLeftOfTrimmed(b);
  }

  /** A word followed by a whitespace gap: the gap collapses to one space. */
  lemma CollapseGap(a: string, w: string, b: string)
    requires a != [] && (forall i :: 0 <= i < |a| ==> !IsSpace(a[i]))
    requires AllSpace(w) && w != [] && b != [] && !IsSpace(b[0])
    ensures CollapseSpaces(a + (w + b)) == a + (" " + CollapseSpaces(b))
  {
    CollapseAppend(a, w + b);
    CollapseNoSpaces(a);
    CollapseRun(w, b);
  }
}
