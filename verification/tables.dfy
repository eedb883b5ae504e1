/** Step 2 of `markdown_to_telegram_html`, `_extract_tables`: the text is cut into lines; a run of consecutive
    lines that all contain `|` becomes one hole when it has at least two lines and one of them is a separator
    row, and is kept line for line otherwise. */
module Tables {
  import opened Seqs
  import opened Tokens
  import PyText

  const Pipe: Tok := Ch('|')

  const Dashes: seq<Tok> := [Ch('-'), Ch('-')]

  /** A character of the class `[\s|:\-]`. */
  predicate IsRuleChar(t: Tok) {
    t.Ch? && (PyText.IsSpace(t.c) || t.c == '|' || t.c == ':' || t.c == '-')
  }

  /** `re.match(r"^[\s|:\-]+$", line) and "--" in line`: nothing but whitespace, pipes, colons and dashes, with
      two dashes in a row somewhere (which also makes the line non-empty). */
  predicate IsSeparatorRow(line: seq<Tok>) {
    && (forall i :: 0 <= i < |line| ==> IsRuleChar(line[i]))
    && (exists i :: 0 <= i <= |line| - 2 && OccursAt(line, Dashes, i))
  }

  /** The number of leading lines that contain `|`: the run the inner `while` collects. */
  function RunLength(lines: seq<seq<Tok>>): (k: nat)
    ensures k <= |lines|
    ensures forall j :: 0 <= j < k ==> Pipe in lines[j]
    ensures k < |lines| ==> Pipe !in lines[k]
    decreases |lines|
  {
    if |lines| == 0 || Pipe !in lines[0] then 0
    else
      var k := 1 + RunLength(lines[1..]);
      assert forall j :: 1 <= j < k ==> lines[j] == lines[1..][j - 1];
      k
  }

  /** `has_separator and len(table_lines) >= 2`. */
  predicate IsTable(run: seq<seq<Tok>>) {
    |run| >= 2 && exists j :: 0 <= j < |run| && IsSeparatorRow(run[j])
  }

  /** The outer `while` of `_extract_tables` over `lines`, numbering new tables from `n`: the result lines and the
      saved tables, each saved as the `"\n".join` of its run. */
  function Group(lines: seq<seq<Tok>>, n: nat): (r: (seq<seq<Tok>>, seq<seq<Tok>>))
    ensures |r.0| == 0 <==> |lines| == 0
    decreases |lines|
  {
    if |lines| == 0 then ([], [])
    else if Pipe !in lines[0] then
      var rest := Group(lines[1..], n);
      ([lines[0]] + rest.0, rest.1)
    else
      var k := RunLength(lines);
      if IsTable(lines[..k]) then
        var rest := Group(lines[k..], n + 1);
        ([[Ph(Table(n))]] + rest.0, [Join(lines[..k], NL)] + rest.1)
      else
        var rest := Group(lines[k..], n);
        (lines[..k] + rest.0, rest.1)
  }

  /** `_extract_tables(text)` on a token stream: split at newlines, group, join with newlines. */
  function ExtractTables(toks: seq<Tok>): (r: (seq<Tok>, seq<seq<Tok>>))
  {
    var g := Group(Split(toks, NL), 0);
    (Join(g.0, NL), g.1)
  }

  /** A saved table: at least two lines, each containing `|`, one of them a separator row. */
  predicate TableText(t: seq<Tok>) {
    var ls := Split(t, NL);
    IsTable(ls) && forall j :: 0 <= j < |ls| ==> Pipe in ls[j]
  }

  /** The partner of the extraction: every table hole written back out as the table's text. */
  function Untable(t: seq<Tok>, tables: seq<seq<Tok>>): seq<Tok>
    decreases |t|
  {
    if |t| == 0 then []
    else
      (if t[0].Ph? && t[0].hole.Table? && t[0].hole.i < |tables| then tables[t[0].hole.i] else [t[0]])
      + Untable(t[1..], tables)
  }

  lemma {:induction false} UntableAppend(a: seq<Tok>, b: seq<Tok>, tables: seq<seq<Tok>>)
    ensures Untable(a + b, tables) == Untable(a, tables) + Untable(b, tables)
    decreases |a|
  {
    if |a| == 0 {
      assert a + b == b;
    } else {
      assert (a + b)[0] == a[0];
      assert (a + b)[1..] == a[1..] + b;
      UntableAppend(a[1..], b, tables);
    }
  }

  lemma {:induction false} UntableNoTables(t: seq<Tok>, tables: seq<seq<Tok>>)
    requires NoTables(t)
    ensures Untable(t, tables) == t
    decreases |t|
  {
    if |t| > 0 {
      assert NoTables(t[1..]) by { assert forall i :: 0 <= i < |t[1..]| ==> t[1..][i] == t[i + 1]; }
      UntableNoTables(t[1..], tables);
      assert t == [t[0]] + t[1..];
    }
  }

  /** Lines without table holes join into a stream without table holes. */
  lemma JoinNoTables(ls: seq<seq<Tok>>)
    requires forall j :: 0 <= j < |ls| ==> NoTables(ls[j])
    ensures NoTables(Join(ls, NL))
  {
    forall i | 0 <= i < |Join(ls, NL)| ensures !(Join(ls, NL)[i].Ph? && Join(ls, NL)[i].hole.Table?) {
      var x := Join(ls, NL)[i];
      JoinIn(ls, NL, x);
      if x != NL {
        var j :| 0 <= j < |ls| && x in ls[j];
        var k :| 0 <= k < |ls[j]| && ls[j][k] == x;
      }
    }
  }

  /** The lines of a stream without table holes have none either. */
  lemma SplitNoTables(toks: seq<Tok>)
    requires NoTables(toks)
    ensures forall j :: 0 <= j < |Split(toks, NL)| ==> NoTables(Split(toks, NL)[j])
  {
    SplitPiecesIn(toks, NL);
    forall j, i | 0 <= j < |Split(toks, NL)| && 0 <= i < |Split(toks, NL)[j]|
      ensures !(Split(toks, NL)[j][i].Ph? && Split(toks, NL)[j][i].hole.Table?)
    {
      var x := Split(toks, NL)[j][i];
      assert x in toks;
    }
  }

  /** Table `n + i` of `all` is table `i` of `ts`. */
  predicate Names(all: seq<seq<Tok>>, n: nat, ts: seq<seq<Tok>>) {
    n + |ts| <= |all| && forall i :: 0 <= i < |ts| ==> all[n + i] == ts[i]
  }

  /** Grouping loses nothing: writing the table holes back out as their tables gives back the joined lines. */
  lemma {:induction false} GroupLossless(lines: seq<seq<Tok>>, n: nat, all: seq<seq<Tok>>)
    requires forall j :: 0 <= j < |lines| ==> NoTables(lines[j])
    requires Names(all, n, Group(lines, n).1)
    ensures Untable(Join(Group(lines, n).0, NL), all) == Join(lines, NL)
    decreases |lines|
  {
    if |lines| > 0 {
      var g := Group(lines, n);
      var k := HeadLen(lines);
      var (x, y, t) := Head(lines, n);
      HeadIs(lines, n);
      var rest := Group(lines[k..], t);
      assert Names(all, n, y) by {
        assert forall i :: 0 <= i < |y| ==> g.1[i] == y[i];
      }
      HeadLossless(lines, n, all);
      assert Names(all, t, rest.1) by {
        assert forall i :: 0 <= i < |rest.1| ==> g.1[|y| + i] == rest.1[i];
      }
      assert forall j :: 0 <= j < |lines[k..]| ==> lines[k..][j] == lines[k + j];
      GroupLossless(lines[k..], t, all);
      UntableJoin(x, rest.0, lines[..k], lines[k..], all);
      assert lines[..k] + lines[k..] == lines;
    }
  }

  /** The head of the grouping loses nothing: a kept line or run is itself, a table hole is the run's text. */
  lemma HeadLossless(lines: seq<seq<Tok>>, n: nat, all: seq<seq<Tok>>)
    requires |lines| > 0 && forall j :: 0 <= j < |lines| ==> NoTables(lines[j])
    requires Names(all, n, Head(lines, n).1)
    ensures 0 < HeadLen(lines) <= |lines| && |Head(lines, n).0| > 0
    ensures Untable(Join(Head(lines, n).0, NL), all) == Join(lines[..HeadLen(lines)], NL)
  {
    if Pipe !in lines[0] {
      assert lines[..1] == [lines[0]];
      UntableNoTables(lines[0], all);
    } else {
      var run := lines[..RunLength(lines)];
      assert forall j :: 0 <= j < |run| ==> NoTables(run[j]);
      JoinNoTables(run);
      UntableNoTables(Join(run, NL), all);
      if IsTable(run) {
        var hole := [Ph(Table(n))];
        assert all[n] == Join(run, NL) by { assert Head(lines, n).1[0] == Join(run, NL); }
        assert Untable(hole, all) == all[n] + Untable(hole[1..], all);
        assert hole[1..] == [];
        assert Join([hole], NL) == hole;
      }
    }
  }

  /** Two stretches of result lines that each write back out to their source lines, joined, write back out to
      the joined source lines. */
  lemma UntableJoin(x: seq<seq<Tok>>, r: seq<seq<Tok>>, p: seq<seq<Tok>>, q: seq<seq<Tok>>, all: seq<seq<Tok>>)
    requires |x| > 0 && |p| > 0 && (|r| == 0 <==> |q| == 0)
    requires Untable(Join(x, NL), all) == Join(p, NL) && Untable(Join(r, NL), all) == Join(q, NL)
    ensures Untable(Join(x + r, NL), all) == Join(p + q, NL)
  {
    if |r| == 0 {
      assert x + r == x && p + q == p;
    } else {
      JoinAppend(x, r, NL);
      JoinAppend(p, q, NL);
      UntableAppend(Join(x, NL), [NL], all);
      UntableAppend(Join(x, NL) + [NL], Join(r, NL), all);
      assert Untable([NL], all) == [NL] by { assert [NL][1..] == []; }
    }
  }

  /** Round trip of step 2: for a stream without table holes, writing each table hole back out as its saved
      table gives back the stream. */
  lemma ExtractTablesLossless(toks: seq<Tok>)
    requires NoTables(toks)
    ensures Untable(ExtractTables(toks).0, ExtractTables(toks).1) == toks
  {
    var lines := Split(toks, NL);
    SplitNoTables(toks);
    var g := Group(lines, 0);
    assert Names(g.1, 0, g.1);
    GroupLossless(lines, 0, g.1);
    JoinSplit(toks, NL);
  }

  /** Without a separator row among the lines containing `|`, no run is a table and every line is kept. */
  lemma {:induction false} GroupWithoutSeparator(lines: seq<seq<Tok>>, n: nat)
    requires forall j :: 0 <= j < |lines| && Pipe in lines[j] ==> !IsSeparatorRow(lines[j])
    ensures Group(lines, n) == (lines, [])
    decreases |lines|
  {
    if |lines| > 0 {
      if Pipe !in lines[0] {
        GroupWithoutSeparator(lines[1..], n);
        assert [lines[0]] + lines[1..] == lines;
      } else {
        var k := RunLength(lines);
        assert !IsTable(lines[..k]);
        GroupWithoutSeparator(lines[k..], n);
        assert lines[..k] + lines[k..] == lines;
      }
    }
  }

  /** `_extract_tables` leaves a text unchanged, and saves no table, when none of its lines that contain `|` is a
      separator row: pipe-bearing lines without a `--` row are not a table. */
  lemma NoSeparatorUnchanged(toks: seq<Tok>)
    requires forall j :: 0 <= j < |Split(toks, NL)| && Pipe in Split(toks, NL)[j] ==> !IsSeparatorRow(Split(toks, NL)[j])
    ensures ExtractTables(toks) == (toks, [])
  {
    GroupWithoutSeparator(Split(toks, NL), 0);
    JoinSplit(toks, NL);
  }

  /** Grouping is local to the runs: lines up to and including one without `|` are grouped on their own, and the
      lines after them are grouped as if they came first, numbering on from the tables already saved. */
  lemma {:induction false} GroupSplitsAtPlainLine(a: seq<seq<Tok>>, b: seq<seq<Tok>>, n: nat)
    requires |a| > 0 && Pipe !in Last(a)
    ensures var ga := Group(a, n); var gb := Group(b, n + |ga.1|);
      Group(a + b, n) == (ga.0 + gb.0, ga.1 + gb.1)
    decreases |a|
  {
    var k := HeadLen(a);
    HeadOfAppend(a, b, n);
    var (x, y, t) := Head(a, n);
    HeadIs(a, n);
    HeadIs(a + b, n);
    if k == |a| {
      assert a[k..] == [];
      assert Group(a, n) == (x, y) by { assert x + [] == x && y + [] == y; }
    } else {
      GroupSplitsAtPlainLine(a[k..], b, t);
      var g := Group(a[k..], t);
      AppendAssoc(x, g.0, Group(b, t + |g.1|).0);
      AppendAssoc(y, g.1, Group(b, t + |g.1|).1);
    }
  }

  /** How many lines `Group` takes at once from the front: one line without `|`, or the whole run of lines with
      one. */
  function HeadLen(lines: seq<seq<Tok>>): nat
    requires |lines| > 0
  {
    if Pipe !in lines[0] then 1 else RunLength(lines)
  }

  /** When `a` ends with a line without `|`, the head of `a + b` is the head of `a`, and what follows it is the
      rest of `a` followed by `b`. */
  lemma HeadOfAppend(a: seq<seq<Tok>>, b: seq<seq<Tok>>, n: nat)
    requires |a| > 0 && Pipe !in Last(a)
    ensures 0 < HeadLen(a) <= |a| && HeadLen(a + b) == HeadLen(a)
    ensures HeadLen(a) == |a| ==> Pipe !in a[0]
    ensures HeadLen(a) < |a| ==> Pipe !in Last(a[HeadLen(a)..])
    ensures Head(a + b, n) == Head(a, n)
    ensures (a + b)[HeadLen(a)..] == a[HeadLen(a)..] + b
  {
    var k := HeadLen(a);
    if Pipe in a[0] {
      RunLengthPrefix(a, b);
    }
    assert (a + b)[..k] == a[..k];
    assert (a + b)[0] == a[0];
  }

  /** What `Group` does with its first line or run: the result lines `x` and tables `y` it contributes, and the
      number the rest is grouped from. */
  function Head(lines: seq<seq<Tok>>, n: nat): (seq<seq<Tok>>, seq<seq<Tok>>, nat)
    requires |lines| > 0
  {
    if Pipe !in lines[0] then ([lines[0]], [], n)
    else
      var k := RunLength(lines);
      if IsTable(lines[..k]) then ([[Ph(Table(n))]], [Join(lines[..k], NL)], n + 1) else (lines[..k], [], n)
  }

  /** `Group` is its head followed by the grouping of the rest. */
  lemma HeadIs(lines: seq<seq<Tok>>, n: nat)
    requires |lines| > 0
    ensures var (x, y, t) := Head(lines, n);
      && t == n + |y|
      && Group(lines, n) == (x + Group(lines[HeadLen(lines)..], t).0, y + Group(lines[HeadLen(lines)..], t).1)
  {
    if Pipe !in lines[0] {
      assert [] + Group(lines[1..], n).1 == Group(lines[1..], n).1;
    } else if !IsTable(lines[..RunLength(lines)]) {
      assert [] + Group(lines[RunLength(lines)..], n).1 == Group(lines[RunLength(lines)..], n).1;
    }
  }

  /** The run at the start of `a` ends inside `a` when `a` ends with a line without `|`. */
  lemma {:induction false} RunLengthPrefix(a: seq<seq<Tok>>, b: seq<seq<Tok>>)
    requires |a| > 0 && Pipe !in Last(a)
    ensures RunLength(a + b) == RunLength(a) < |a|
    decreases |a|
  {
    if Pipe in a[0] {
      assert |a| > 1;
      assert (a + b)[1..] == a[1..] + b;
      RunLengthPrefix(a[1..], b);
    }
  }

  /** A maximal run of lines containing `|` with no separator row among them comes out of `_extract_tables` line
      for line, between what the lines before and after it become. */
  lemma RunWithoutSeparatorKept(a: seq<seq<Tok>>, run: seq<seq<Tok>>, b: seq<seq<Tok>>, n: nat)
    requires |a| > 0 && Pipe !in Last(a)
    requires |run| > 0 && forall j :: 0 <= j < |run| ==> Pipe in run[j] && !IsSeparatorRow(run[j])
    requires |b| > 0 && Pipe !in b[0]
    ensures var ga := Group(a, n); var gb := Group(b, n + |ga.1|);
      Group(a + run + b, n) == (ga.0 + run + gb.0, ga.1 + gb.1)
  {
    var ga := Group(a, n);
    var m := n + |ga.1|;
    GroupSplitsAtPlainLine(a, run + b, n);
    assert a + run + b == a + (run + b);
    var rb := run + b;
    assert RunLength(rb) == |run| by {
      RunLengthOfRun(run, b);
    }
    assert rb[..|run|] == run && rb[|run|..] == b;
    assert !IsTable(run);
    assert Pipe in rb[0];
    assert Group(rb, m) == (run + Group(b, m).0, Group(b, m).1);
    assert ga.0 + (run + Group(b, m).0) == ga.0 + run + Group(b, m).0;
  }

  /** The run at the start of `run + b` is exactly `run` when every line of `run` contains `|` and the first line
      of `b` does not. */
  lemma {:induction false} RunLengthOfRun(run: seq<seq<Tok>>, b: seq<seq<Tok>>)
    requires forall j :: 0 <= j < |run| ==> Pipe in run[j]
    requires |b| > 0 && Pipe !in b[0]
    ensures RunLength(run + b) == |run|
    decreases |run|
  {
    if |run| == 0 {
      assert run + b == b;
    } else {
      assert (run + b)[0] == run[0];
      assert (run + b)[1..] == run[1..] + b;
      RunLengthOfRun(run[1..], b);
    }
  }

  /** Every saved table is a real one, and the holes are numbered from `n` in order. */
  lemma {:induction false} GroupTables(lines: seq<seq<Tok>>, n: nat)
    requires forall j :: 0 <= j < |lines| ==> NL !in lines[j]
    ensures forall i :: 0 <= i < |Group(lines, n).1| ==> TableText(Group(lines, n).1[i])
    decreases |lines|
  {
    if |lines| > 0 {
      if Pipe !in lines[0] {
        GroupTables(lines[1..], n);
      } else {
        var k := RunLength(lines);
        var run := lines[..k];
        if IsTable(run) {
          GroupTables(lines[k..], n + 1);
          SplitJoin(run, NL);
          var g := Group(lines, n);
          assert g.1[0] == Join(run, NL);
          assert forall i :: 1 <= i < |g.1| ==> g.1[i] == Group(lines[k..], n + 1).1[i - 1];
        } else {
          GroupTables(lines[k..], n);
        }
      }
    }
  }

  /** Every line of `ls` has its holes below the bounds. */
  predicate LinesHolesBelow(ls: seq<seq<Tok>>, nb: nat, nt: nat, ni: nat) {
    forall j :: 0 <= j < |ls| ==> HolesBelow(ls[j], nb, nt, ni)
  }

  lemma LinesHolesBelowAppend(a: seq<seq<Tok>>, b: seq<seq<Tok>>, nb: nat, nt: nat, ni: nat)
    requires LinesHolesBelow(a, nb, nt, ni) && LinesHolesBelow(b, nb, nt, ni)
    ensures LinesHolesBelow(a + b, nb, nt, ni)
  {
    assert forall j :: |a| <= j < |a + b| ==> (a + b)[j] == b[j - |a|];
  }

  lemma LinesHolesBelowWiden(ls: seq<seq<Tok>>, nb: nat, nt: nat, nt': nat, ni: nat)
    requires LinesHolesBelow(ls, nb, nt, ni) && nt <= nt'
    ensures LinesHolesBelow(ls, nb, nt', ni)
  {
    forall j | 0 <= j < |ls| ensures HolesBelow(ls[j], nb, nt', ni) {
      assert HolesBelow(ls[j], nb, nt, ni);
    }
  }

  lemma LinesHolesBelowSlice(ls: seq<seq<Tok>>, k: nat, nb: nat, nt: nat, ni: nat)
    requires LinesHolesBelow(ls, nb, nt, ni) && k <= |ls|
    ensures LinesHolesBelow(ls[..k], nb, nt, ni) && LinesHolesBelow(ls[k..], nb, nt, ni)
  {
    assert forall j :: 0 <= j < |ls[k..]| ==> ls[k..][j] == ls[k + j];
  }

  /** The holes of the grouped lines: those of the input, and one table hole for each saved table. */
  lemma {:induction false} GroupHoles(lines: seq<seq<Tok>>, n: nat, nb: nat, ni: nat)
    requires LinesHolesBelow(lines, nb, n, ni)
    ensures LinesHolesBelow(Group(lines, n).0, nb, n + |Group(lines, n).1|, ni)
    decreases |lines|
  {
    if |lines| > 0 {
      var g := Group(lines, n);
      var hi := n + |g.1|;
      if Pipe !in lines[0] {
        LinesHolesBelowSlice(lines, 1, nb, n, ni);
        GroupHoles(lines[1..], n, nb, ni);
        assert lines[..1] == [lines[0]];
        LinesHolesBelowWiden(lines[..1], nb, n, hi, ni);
        LinesHolesBelowAppend([lines[0]], Group(lines[1..], n).0, nb, hi, ni);
      } else {
        var k := RunLength(lines);
        LinesHolesBelowSlice(lines, k, nb, n, ni);
        if IsTable(lines[..k]) {
          LinesHolesBelowWiden(lines[k..], nb, n, n + 1, ni);
          GroupHoles(lines[k..], n + 1, nb, ni);
          var hole := [Ph(Table(n))];
          assert LinesHolesBelow([hole], nb, hi, ni) by {
            assert forall x :: x in hole ==> x == Ph(Table(n));
          }
          LinesHolesBelowAppend([hole], Group(lines[k..], n + 1).0, nb, hi, ni);
        } else {
          GroupHoles(lines[k..], n, nb, ni);
          LinesHolesBelowWiden(lines[..k], nb, n, hi, ni);
          LinesHolesBelowAppend(lines[..k], Group(lines[k..], n).0, nb, hi, ni);
        }
      }
    }
  }

  /** After step 2 every hole numbers a saved block or a saved table, and every saved table is a real one. */
  lemma ExtractTablesHoles(toks: seq<Tok>, nb: nat)
    requires HolesBelow(toks, nb, 0, 0)
    ensures HolesBelow(ExtractTables(toks).0, nb, |ExtractTables(toks).1|, 0)
    ensures forall i :: 0 <= i < |ExtractTables(toks).1| ==> TableText(ExtractTables(toks).1[i])
  {
    var lines := Split(toks, NL);
    SplitPiecesIn(toks, NL);
    SplitPiecesFree(toks, NL);
    assert LinesHolesBelow(lines, nb, 0, 0) by {
      forall j | 0 <= j < |lines| ensures HolesBelow(lines[j], nb, 0, 0) {
        forall x: Tok | x in lines[j] && x.Ph? ensures HoleBelow(x.hole, nb, 0, 0) {
          assert x in toks;
        }
      }
    }
    GroupHoles(lines, 0, nb, 0);
    GroupTables(lines, 0);
    var g := Group(lines, 0);
    forall x: Tok | x in Join(g.0, NL) && x.Ph? ensures HoleBelow(x.hole, nb, |g.1|, 0) {
      JoinIn(g.0, NL, x);
      var j :| 0 <= j < |g.0| && x in g.0[j];
      assert HolesBelow(g.0[j], nb, |g.1|, 0);
    }
  }

  /** No line holds a NUL character. */
  predicate LinesNulFree(ls: seq<seq<Tok>>) {
    forall j :: 0 <= j < |ls| ==> NulFree(ls[j])
  }

  lemma JoinNulFree(ls: seq<seq<Tok>>)
    requires LinesNulFree(ls)
    ensures NulFree(Join(ls, NL))
  {
    if Ch('\0') in Join(ls, NL) {
      JoinIn(ls, NL, Ch('\0'));
    }
  }

  /** Grouping NUL-free lines gives NUL-free lines and tables. */
  lemma {:induction false} GroupNulFree(lines: seq<seq<Tok>>, n: nat)
    requires LinesNulFree(lines)
    ensures LinesNulFree(Group(lines, n).0) && LinesNulFree(Group(lines, n).1)
    decreases |lines|
  {
    if |lines| > 0 {
      var g := Group(lines, n);
      if Pipe !in lines[0] {
        assert LinesNulFree(lines[1..]) by { assert forall j :: 0 <= j < |lines| - 1 ==> lines[1..][j] == lines[j + 1]; }
        GroupNulFree(lines[1..], n);
        var rest := Group(lines[1..], n);
        assert forall j :: 1 <= j < |g.0| ==> g.0[j] == rest.0[j - 1];
      } else {
        var k := RunLength(lines);
        assert LinesNulFree(lines[k..]) by { assert forall j :: 0 <= j < |lines| - k ==> lines[k..][j] == lines[k + j]; }
        assert LinesNulFree(lines[..k]);
        if IsTable(lines[..k]) {
          GroupNulFree(lines[k..], n + 1);
          var rest := Group(lines[k..], n + 1);
          JoinNulFree(lines[..k]);
          assert forall j :: 1 <= j < |g.0| ==> g.0[j] == rest.0[j - 1];
          assert forall j :: 1 <= j < |g.1| ==> g.1[j] == rest.1[j - 1];
        } else {
          GroupNulFree(lines[k..], n);
          var rest := Group(lines[k..], n);
          assert forall j :: k <= j < |g.0| ==> g.0[j] == rest.0[j - k];
        }
      }
    }
  }

  /** Step 2 of a NUL-free stream gives a NUL-free stream and NUL-free tables. */
  lemma ExtractTablesNulFree(toks: seq<Tok>)
    requires NulFree(toks)
    ensures NulFree(ExtractTables(toks).0) && LinesNulFree(ExtractTables(toks).1)
  {
    var lines := Split(toks, NL);
    SplitPiecesIn(toks, NL);
    assert LinesNulFree(lines);
    GroupNulFree(lines, 0);
    JoinNulFree(Group(lines, 0).0);
  }
}
