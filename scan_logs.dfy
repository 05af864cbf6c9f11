/** The bookkeeping of the log-migration scanner: the findings it collects,
    the suggestions it files per source file, the totals per kind, the
    line numbers it reports, the order of its summary, the grouping of its
    report by file and the exit code of `--fail-on`. How findings are
    matched in the scanned text is outside this model: findings are inputs. */
module ScanLogs {

  /** One hit of one rule in one file. */
  datatype Finding = Finding(file: string, line: int, kind: string, message: string, snippet: string)

  /** A dry-run edit proposed for a file. */
  datatype Suggestion = Suggestion(before: string, after: string, note: string)

  // ---------------------------------------------------------------------
  // Counting findings by kind

  /** The number of findings of kind `k`. */
  function Count(fs: seq<Finding>, k: string): nat
    decreases |fs|
  {
    if fs == [] then 0
    else Count(fs[..|fs| - 1], k) + (if fs[|fs| - 1].kind == k then 1 else 0)
  }

  /** The kinds that occur. */
  function Kinds(fs: seq<Finding>): set<string> {
    set i | 0 <= i < |fs| :: fs[i].kind
  }

  /** The totals `finalize` computes: one increment per finding, in order. */
  function Tally(fs: seq<Finding>): map<string, nat>
    decreases |fs|
  {
    if fs == [] then map[]
    else
      var t := Tally(fs[..|fs| - 1]);
      var k := fs[|fs| - 1].kind;
      t[k := (if k in t then t[k] else 0) + 1]
  }

  lemma KindsSnoc(fs: seq<Finding>)
    requires fs != []
    ensures Kinds(fs) == Kinds(fs[..|fs| - 1]) + {fs[|fs| - 1].kind}
  {
    var p := fs[..|fs| - 1];
    forall k | k in Kinds(fs) ensures k in Kinds(p) + {fs[|fs| - 1].kind} {
      var i :| 0 <= i < |fs| && fs[i].kind == k;
      if i < |p| {
        assert p[i] == fs[i];
      }
    }
    forall k | k in Kinds(p) ensures k in Kinds(fs) {
      var i :| 0 <= i < |p| && p[i].kind == k;
      assert fs[i] == p[i];
    }
  }

  /** A kind that never occurs is counted zero times. */
  lemma {:induction false} CountAbsent(fs: seq<Finding>, k: string)
    requires k !in Kinds(fs)
    ensures Count(fs, k) == 0
    decreases |fs|
  {
    if fs != [] {
      KindsSnoc(fs);
      CountAbsent(fs[..|fs| - 1], k);
    }
  }

  /** After `finalize`, the totals have exactly the kinds that occur as
      keys, and each kind's total is its number of findings. */
  lemma {:induction false} TallyCounts(fs: seq<Finding>)
    ensures forall k :: k in Tally(fs) <==> k in Kinds(fs)
    ensures forall k :: k in Tally(fs) ==> Tally(fs)[k] == Count(fs, k)
    decreases |fs|
  {
    if fs != [] {
      var p := fs[..|fs| - 1];
      TallyCounts(p);
      KindsSnoc(fs);
      var k := fs[|fs| - 1].kind;
      if k !in Tally(p) {
        CountAbsent(p, k);
      }
    }
  }

  /** `Count(fs, ks[0]) + Count(fs, ks[1]) + ...`. */
  function CountAll(fs: seq<Finding>, ks: seq<string>): nat
    decreases |ks|
  {
    if ks == [] then 0 else Count(fs, ks[0]) + CountAll(fs, ks[1..])
  }

  /** `totals[ks[0]] + totals[ks[1]] + ...` over keys of `totals`. */
  function SumTotals(totals: map<string, nat>, ks: seq<string>): nat
    requires forall i :: 0 <= i < |ks| ==> ks[i] in totals
    decreases |ks|
  {
    if ks == [] then 0 else totals[ks[0]] + SumTotals(totals, ks[1..])
  }

  predicate Distinct(ks: seq<string>) {
    forall i, j :: 0 <= i < j < |ks| ==> ks[i] != ks[j]
  }

  /** How many of `ks` equal `k`: one when `k` is listed once. */
  lemma {:induction false} CountAllOne(fs: seq<Finding>, f: Finding, ks: seq<string>)
    requires Distinct(ks)
    ensures CountAll(fs + [f], ks) == CountAll(fs, ks) + (if f.kind in ks then 1 else 0)
    decreases |ks|
  {
    if ks != [] {
      assert (fs + [f])[..|fs + [f]| - 1] == fs;
      var rest := ks[1..];
      assert Distinct(rest) by {
        forall i, j | 0 <= i < j < |rest| ensures rest[i] != rest[j] {
          assert rest[i] == ks[i + 1] && rest[j] == ks[j + 1];
        }
      }
      CountAllOne(fs, f, rest);
      if f.kind == ks[0] {
        assert f.kind !in rest by {
          forall i | 0 <= i < |rest| ensures rest[i] != ks[0] {
            assert rest[i] == ks[i + 1];
          }
        }
      } else {
        assert f.kind in ks <==> f.kind in rest by {
          assert ks == [ks[0]] + rest;
        }
      }
    }
  }

  /** Counting over a list of distinct kinds that covers every kind that
      occurs counts every finding once. */
  lemma {:induction false} CountAllIsLength(fs: seq<Finding>, ks: seq<string>)
    requires Distinct(ks) && forall k :: k in Kinds(fs) ==> k in ks
    ensures CountAll(fs, ks) == |fs|
    decreases |fs|
  {
    if fs == [] {
      CountAllEmpty(ks);
    } else {
      var p := fs[..|fs| - 1];
      var f := fs[|fs| - 1];
      KindsSnoc(fs);
      CountAllIsLength(p, ks);
      assert p + [f] == fs;
      CountAllOne(p, f, ks);
    }
  }

  lemma {:induction false} CountAllEmpty(ks: seq<string>)
    ensures CountAll([], ks) == 0
    decreases |ks|
  {
    if ks != [] {
      CountAllEmpty(ks[1..]);
    }
  }

  lemma {:induction false} SumTotalsIsCountAll(fs: seq<Finding>, ks: seq<string>)
    requires forall i :: 0 <= i < |ks| ==> ks[i] in Tally(fs)
    ensures SumTotals(Tally(fs), ks) == CountAll(fs, ks)
    decreases |ks|
  {
    TallyCounts(fs);
    if ks != [] {
      SumTotalsIsCountAll(fs, ks[1..]);
    }
  }

  /** The totals add up to the number of findings, whatever order their
      kinds are listed in. */
  lemma TallySum(fs: seq<Finding>, ks: seq<string>)
    requires Distinct(ks) && forall k :: k in ks <==> k in Tally(fs)
    ensures SumTotals(Tally(fs), ks) == |fs|
  {
    TallyCounts(fs);
    SumTotalsIsCountAll(fs, ks);
    CountAllIsLength(fs, ks);
  }

  // ---------------------------------------------------------------------
  // The scan result

  class ScanResult {
    var findings: seq<Finding>
    var suggestions: map<string, seq<Suggestion>>
    var totals: map<string, nat>

    constructor()
      ensures findings == [] && suggestions == map[] && totals == map[]
    {
      findings := [];
      suggestions := map[];
      totals := map[];
    }

    /** `add_finding`: appended at the end. */
    method AddFinding(f: Finding)
      modifies this
      ensures findings == old(findings) + [f]
      ensures suggestions == old(suggestions) && totals == old(totals)
    {
      findings := findings + [f];
    }

    /** `add_suggestion`: appended to that file's list, which is created
        when absent; every other file's list is unchanged. */
    method AddSuggestion(file: string, before: string, after: string, note: string)
      modifies this
      ensures file in suggestions
      ensures suggestions[file] == (if file in old(suggestions) then old(suggestions)[file] else [])
        + [Suggestion(before, after, note)]
      ensures forall g :: g != file ==> (g in suggestions <==> g in old(suggestions))
      ensures forall g :: g != file && g in suggestions ==> suggestions[g] == old(suggestions)[g]
      ensures findings == old(findings) && totals == old(totals)
    {
      var existing := if file in suggestions then suggestions[file] else [];
      suggestions := suggestions[file := existing + [Suggestion(before, after, note)]];
    }

    /** `finalize`: the totals are rebuilt from the findings, so calling
        it again gives the same totals. */
    method Finalize()
      modifies this
      ensures totals == Tally(findings)
      ensures findings == old(findings) && suggestions == old(suggestions)
    {
      var t: map<string, nat> := map[];
      var i := 0;
      while i < |findings|
        invariant 0 <= i <= |findings|
        invariant t == Tally(findings[..i])
      {
        var k := findings[i].kind;
        assert findings[..i + 1][..i] == findings[..i];
        t := t[k := (if k in t then t[k] else 0) + 1];
        i := i + 1;
      }
      assert findings[..i] == findings;
      totals := t;
    }
  }

  /** `finalize` rebuilds the totals from scratch, so a second call
      leaves what the first one computed. */
  method FinalizeTwice(sr: ScanResult)
    modifies sr
    ensures sr.findings == old(sr.findings) && sr.suggestions == old(sr.suggestions)
    ensures sr.totals == Tally(old(sr.findings))
  {
    sr.Finalize();
    ghost var once := sr.totals;
    sr.Finalize();
    assert sr.totals == once;
  }

  // ---------------------------------------------------------------------
  // Line numbers

  /** The number of `\n` in `s`. */
  function Newlines(s: string): nat
    decreases |s|
  {
    if s == [] then 0 else Newlines(s[..|s| - 1]) + (if s[|s| - 1] == '\n' then 1 else 0)
  }

  /** The line of the match at offset `o`: the newlines before it, plus 1. */
  function LineOf(text: string, o: nat): (r: nat)
    requires o <= |text|
    ensures 1 <= r <= o + 1
  {
    NewlinesBound(text[..o]);
    Newlines(text[..o]) + 1
  }

  lemma {:induction false} NewlinesBound(s: string)
    ensures Newlines(s) <= |s|
    decreases |s|
  {
    if s != [] {
      NewlinesBound(s[..|s| - 1]);
    }
  }

  /** Moving one character on changes the line exactly when that character
      is a newline. */
  lemma LineOfStep(text: string, o: nat)
    requires o < |text|
    ensures LineOf(text, o + 1) == LineOf(text, o) + (if text[o] == '\n' then 1 else 0)
  {
    assert text[..o + 1][..o] == text[..o];
  }

  /** Later matches are never on earlier lines. */
  lemma {:induction false} LineOfMonotone(text: string, o1: nat, o2: nat)
    requires o1 <= o2 <= |text|
    ensures LineOf(text, o1) <= LineOf(text, o2)
    decreases o2 - o1
  {
    if o1 < o2 {
      LineOfStep(text, o2 - 1);
      LineOfMonotone(text, o1, o2 - 1);
    }
  }

  // ---------------------------------------------------------------------
  // The summary order

  /** Python's string order: lexicographic by code point, a proper
      prefix first. */
  predicate LexLess(a: string, b: string)
    decreases |a|
  {
    if a == [] then b != []
    else if b == [] then false
    else if a[0] != b[0] then a[0] < b[0]
    else LexLess(a[1..], b[1..])
  }

  lemma {:induction false} LexTotal(a: string, b: string)
    ensures a == b || LexLess(a, b) || LexLess(b, a)
    decreases |a|
  {
    if a != [] && b != [] && a[0] == b[0] {
      LexTotal(a[1..], b[1..]);
      if a[1..] == b[1..] {
        assert a == [a[0]] + a[1..] && b == [b[0]] + b[1..];
      }
    }
  }

  lemma {:induction false} LexIrreflexive(a: string)
    ensures !LexLess(a, a)
    decreases |a|
  {
    if a != [] {
      LexIrreflexive(a[1..]);
    }
  }

  /** The sort key `(-count, kind)`: `a` comes before `b`. */
  predicate Precedes(a: (string, nat), b: (string, nat)) {
    a.1 > b.1 || (a.1 == b.1 && (a.0 == b.0 || LexLess(a.0, b.0)))
  }

  lemma PrecedesTotal(a: (string, nat), b: (string, nat))
    ensures Precedes(a, b) || Precedes(b, a)
  {
    LexTotal(a.0, b.0);
  }

  /** Descending by count, and by kind ascending among equal counts. */
  predicate SortedSummary(s: seq<(string, nat)>) {
    forall i :: 0 <= i < |s| - 1 ==> Precedes(s[i], s[i + 1])
  }

  function Insert(x: (string, nat), s: seq<(string, nat)>): (r: seq<(string, nat)>)
    requires SortedSummary(s)
    ensures SortedSummary(r) && multiset(r) == multiset(s) + multiset{x}
    ensures |r| == |s| + 1 && (r[0] == x || (s != [] && r[0] == s[0]))
    decreases |s|
  {
    if s == [] || Precedes(x, s[0]) then
      assert ([x] + s)[1..] == s;
      [x] + s
    else
      PrecedesTotal(x, s[0]);
      var rest := Insert(x, s[1..]);
      assert s == [s[0]] + s[1..];
      [s[0]] + rest
  }

  /** The summary lines, in the order `sorted(..., key=(-v, k))` gives. */
  function Summary(items: seq<(string, nat)>): (r: seq<(string, nat)>)
    ensures SortedSummary(r) && multiset(r) == multiset(items)
    decreases |items|
  {
    if items == [] then []
    else
      assert items == [items[0]] + items[1..];
      Insert(items[0], Summary(items[1..]))
  }

  /** With distinct kinds, a kind that comes first has the greater count,
      or the same count and the smaller name. */
  lemma SummaryStrict(items: seq<(string, nat)>, i: nat)
    requires forall a, b :: 0 <= a < b < |items| ==> items[a].0 != items[b].0
    requires i + 1 < |Summary(items)|
    ensures var s := Summary(items);
      s[i].1 > s[i + 1].1 || (s[i].1 == s[i + 1].1 && LexLess(s[i].0, s[i + 1].0))
  {
    var s := Summary(items);
    ItemOnce(items, s[i]);
    MultisetTwice(s, i, i + 1);
    assert s[i] in multiset(items) && s[i + 1] in multiset(items);
    var a :| 0 <= a < |items| && items[a] == s[i];
    var b :| 0 <= b < |items| && items[b] == s[i + 1];
  }

  /** An item at two places of a list occurs twice in its multiset. */
  lemma MultisetTwice(s: seq<(string, nat)>, i: nat, j: nat)
    requires i < j < |s|
    ensures s[i] == s[j] ==> multiset(s)[s[i]] >= 2
  {
    if s[i] == s[j] {
      var x := s[i];
      var rest := s[..i] + s[i + 1..];
      assert s == s[..i] + [x] + s[i + 1..];
      assert x in rest by {
        assert rest[j - 1] == s[j];
      }
      assert multiset(s) == multiset(rest) + multiset{x};
    }
  }

  lemma {:induction false} ItemOnce(items: seq<(string, nat)>, x: (string, nat))
    requires forall a, b :: 0 <= a < b < |items| ==> items[a].0 != items[b].0
    ensures multiset(items)[x] <= 1
    decreases |items|
  {
    if items != [] {
      var rest := items[1..];
      assert items == [items[0]] + rest;
      ItemOnce(rest, x);
      if items[0] == x {
        assert x !in rest by {
          forall a | 0 <= a < |rest| ensures rest[a] != x {
            assert rest[a] == items[a + 1];
          }
        }
      }
    }
  }

  // ---------------------------------------------------------------------
  // Grouping by file

  /** The findings of one file, in scan order. */
  function OfFile(fs: seq<Finding>, file: string): seq<Finding>
    decreases |fs|
  {
    if fs == [] then []
    else OfFile(fs[..|fs| - 1], file) + (if fs[|fs| - 1].file == file then [fs[|fs| - 1]] else [])
  }

  function Files(fs: seq<Finding>): set<string> {
    set i | 0 <= i < |fs| :: fs[i].file
  }

  /** `by_file` as `render_html` builds it. */
  function Grouped(fs: seq<Finding>): map<string, seq<Finding>>
    decreases |fs|
  {
    if fs == [] then map[]
    else
      var g := Grouped(fs[..|fs| - 1]);
      var f := fs[|fs| - 1];
      g[f.file := (if f.file in g then g[f.file] else []) + [f]]
  }

  lemma FilesSnoc(fs: seq<Finding>)
    requires fs != []
    ensures Files(fs) == Files(fs[..|fs| - 1]) + {fs[|fs| - 1].file}
  {
    var p := fs[..|fs| - 1];
    forall k | k in Files(fs) ensures k in Files(p) + {fs[|fs| - 1].file} {
      var i :| 0 <= i < |fs| && fs[i].file == k;
      if i < |p| {
        assert p[i] == fs[i];
      }
    }
    forall k | k in Files(p) ensures k in Files(fs) {
      var i :| 0 <= i < |p| && p[i].file == k;
      assert fs[i] == p[i];
    }
  }

  lemma {:induction false} OfFileAbsent(fs: seq<Finding>, file: string)
    requires file !in Files(fs)
    ensures OfFile(fs, file) == []
    decreases |fs|
  {
    if fs != [] {
      FilesSnoc(fs);
      OfFileAbsent(fs[..|fs| - 1], file);
    }
  }

  /** Each file's group holds exactly that file's findings, in the order
      they were found, and only files with findings have a group. */
  lemma {:induction false} GroupedIsOfFile(fs: seq<Finding>)
    ensures forall file :: file in Grouped(fs) <==> file in Files(fs)
    ensures forall file :: file in Grouped(fs) ==> Grouped(fs)[file] == OfFile(fs, file)
    decreases |fs|
  {
    if fs != [] {
      var p := fs[..|fs| - 1];
      GroupedIsOfFile(p);
      FilesSnoc(fs);
      var f := fs[|fs| - 1];
      if f.file !in Grouped(p) {
        OfFileAbsent(p, f.file);
      }
    }
  }

  /** Grouping keeps the scan order: the group of a run of findings
      followed by another is the first run's group followed by the
      second's. */
  lemma {:induction false} OfFileAppend(a: seq<Finding>, b: seq<Finding>, file: string)
    ensures OfFile(a + b, file) == OfFile(a, file) + OfFile(b, file)
    decreases |b|
  {
    if b == [] {
      assert a + b == a;
    } else {
      var b' := b[..|b| - 1];
      assert (a + b)[..|a + b| - 1] == a + b';
      assert (a + b)[|a + b| - 1] == b[|b| - 1];
      OfFileAppend(a, b', file);
    }
  }

  /** A file's group holds exactly the findings of that file. */
  lemma {:induction false} OfFileMembers(fs: seq<Finding>, file: string)
    ensures forall x :: x in OfFile(fs, file) <==> x in fs && x.file == file
    decreases |fs|
  {
    if fs != [] {
      var p := fs[..|fs| - 1];
      OfFileMembers(p, file);
      assert fs == p + [fs[|fs| - 1]];
    }
  }

  /** The loop of `render_html` that fills `by_file`. */
  method GroupByFile(fs: seq<Finding>) returns (byFile: map<string, seq<Finding>>)
    ensures byFile == Grouped(fs)
  {
    byFile := map[];
    var i := 0;
    while i < |fs|
      invariant 0 <= i <= |fs|
      invariant byFile == Grouped(fs[..i])
    {
      var f := fs[i];
      assert fs[..i + 1][..i] == fs[..i];
      byFile := byFile[f.file := (if f.file in byFile then byFile[f.file] else []) + [f]];
      i := i + 1;
    }
    assert fs[..i] == fs;
  }

  // ---------------------------------------------------------------------
  // The exit code

  /** Some finding has one of the given kinds. */
  predicate Hit(fs: seq<Finding>, failOn: set<string>)
    decreases |fs|
  {
    fs != [] && (fs[0].kind in failOn || Hit(fs[1..], failOn))
  }

  lemma {:induction false} HitExists(fs: seq<Finding>, failOn: set<string>)
    ensures Hit(fs, failOn) <==> exists i :: 0 <= i < |fs| && fs[i].kind in failOn
    decreases |fs|
  {
    if fs != [] {
      HitExists(fs[1..], failOn);
      if exists i :: 0 <= i < |fs| && fs[i].kind in failOn {
        var i :| 0 <= i < |fs| && fs[i].kind in failOn;
        if i > 0 {
          assert fs[1..][i - 1] == fs[i];
        }
      }
      if exists i :: 0 <= i < |fs[1..]| && fs[1..][i].kind in failOn {
        var i :| 0 <= i < |fs[1..]| && fs[1..][i].kind in failOn;
        assert fs[i + 1] == fs[1..][i];
      }
    }
  }

  /** The exit status after a scan: 1 exactly when `--fail-on` named kinds
      and some finding has one of them, 0 otherwise. */
  function ExitCode(failOn: set<string>, fs: seq<Finding>): (r: int)
    ensures r == 0 || r == 1
    ensures r == 1 <==> failOn != {} && exists i :: 0 <= i < |fs| && fs[i].kind in failOn
  {
    HitExists(fs, failOn);
    if failOn != {} then (if Hit(fs, failOn) then 1 else 0) else 0
  }
}
