/** Step 3 of `markdown_to_telegram_html`: every inline code span, as matched by `` `([^`\n]+)` `` scanning from
    the left, becomes a hole and its content is saved. A hole already in the text is one character of the span
    as far as the pattern is concerned (its placeholder holds neither a backtick nor a newline). */
module InlineCode {
  import opened Wrappers
  import opened Seqs
  import opened Tokens

  const Tick: Tok := Ch('`')

  /** The first index at or after `from` holding a backtick or a newline, or the end of `t`: where the greedy
      `[^`\n]+` stops. */
  function Stop(t: seq<Tok>, from: nat): (j: nat)
    requires from <= |t|
    ensures from <= j <= |t|
    ensures forall i :: from <= i < j ==> t[i] != Tick && t[i] != NL
    ensures j < |t| ==> t[j] == Tick || t[j] == NL
    decreases |t| - from
  {
    if from == |t| || t[from] == Tick || t[from] == NL then from else Stop(t, from + 1)
  }

  /** The closing backtick of the span the pattern matches at the start of `t`, if it matches there: a backtick,
      at least one character that is neither a backtick nor a newline, and a backtick. */
  function SpanEnd(t: seq<Tok>): (r: Option<nat>)
    ensures r.Some? <==> exists j :: 1 < j < |t| && IsSpan(t, j)
    ensures r.Some? ==> IsSpan(t, r.value)
  {
    if |t| == 0 || t[0] != Tick then None
    else
      var j := Stop(t, 1);
      if 1 < j < |t| && t[j] == Tick then
        assert IsSpan(t, j);
        Some(j)
      else
        forall j' | 1 < j' < |t| ensures !IsSpan(t, j') {
          if j' < j {
            assert t[j'] != Tick;
          } else if j' > j {
            assert t[j] == Tick || t[j] == NL;
          }
        }
        None
  }

  /** `t[1..j]` is the content of a span opening at 0 and closing at `j`. */
  predicate IsSpan(t: seq<Tok>, j: nat) {
    && 1 < j < |t| && t[0] == Tick && t[j] == Tick
    && forall i :: 1 <= i < j ==> t[i] != Tick && t[i] != NL
  }

  /** `re.sub(r"`([^`\n]+)`", _save_inline, text)` numbering the saved spans from `n`: where a span matches, it
      becomes a hole and scanning resumes after it; elsewhere the token is kept and scanning moves on by one. */
  function Extract(t: seq<Tok>, n: nat): (r: (seq<Tok>, seq<seq<Tok>>))
    ensures forall i :: 0 <= i < |r.1| ==> |r.1[i]| > 0 && Tick !in r.1[i] && NL !in r.1[i]
    decreases |t|
  {
    if |t| == 0 then ([], [])
    else match SpanEnd(t)
      case Some(j) =>
        var rest := Extract(t[j + 1..], n + 1);
        var code := t[1..j];
        assert forall i :: 0 <= i < |code| ==> code[i] == t[i + 1];
        ([Ph(InlineCode(n))] + rest.0, [code] + rest.1)
      case None =>
        var rest := Extract(t[1..], n);
        ([t[0]] + rest.0, rest.1)
  }

  /** No inline code hole. */
  predicate NoInline(t: seq<Tok>) {
    forall i :: 0 <= i < |t| ==> !(t[i].Ph? && t[i].hole.InlineCode?)
  }

  /** The partner of the extraction: every inline code hole written back out between its backticks. */
  function Uninline(t: seq<Tok>, codes: seq<seq<Tok>>): seq<Tok>
    decreases |t|
  {
    if |t| == 0 then []
    else
      (if t[0].Ph? && t[0].hole.InlineCode? && t[0].hole.i < |codes| then [Tick] + codes[t[0].hole.i] + [Tick]
       else [t[0]])
      + Uninline(t[1..], codes)
  }

  /** Span `n + i` of `all` is span `i` of `cs`. */
  predicate Names(all: seq<seq<Tok>>, n: nat, cs: seq<seq<Tok>>) {
    n + |cs| <= |all| && forall i :: 0 <= i < |cs| ==> all[n + i] == cs[i]
  }

  /** Step 3 loses nothing: writing each hole back out between backticks gives back the text. */
  lemma {:induction false} ExtractLossless(t: seq<Tok>, n: nat, all: seq<seq<Tok>>)
    requires NoInline(t)
    requires Names(all, n, Extract(t, n).1)
    ensures Uninline(Extract(t, n).0, all) == t
    decreases |t|
  {
    if |t| > 0 {
      var r := Extract(t, n);
      match SpanEnd(t)
      case Some(j) =>
        var rest := Extract(t[j + 1..], n + 1);
        var tail := t[j + 1..];
        assert NoInline(tail) by {
          forall i | 0 <= i < |tail| ensures !(tail[i].Ph? && tail[i].hole.InlineCode?) { assert tail[i] == t[j + 1 + i]; }
        }
        assert Names(all, n + 1, rest.1) by {
          assert forall i :: 0 <= i < |rest.1| ==> r.1[i + 1] == rest.1[i];
        }
        ExtractLossless(tail, n + 1, all);
        SpanLossless(t, j, n, all);
      case None =>
        var rest := Extract(t[1..], n);
        assert NoInline(t[1..]) by { assert forall i :: 0 <= i < |t[1..]| ==> t[1..][i] == t[i + 1]; }
        ExtractLossless(t[1..], n, all);
        UninlineChar(t[0], rest.0, all);
        assert t == [t[0]] + t[1..];
    }
  }

  /** The step of the round trip at a span: the hole writes back out as the saved span between backticks. */
  lemma SpanLossless(t: seq<Tok>, j: nat, n: nat, all: seq<seq<Tok>>)
    requires SpanEnd(t) == Some(j)
    requires Names(all, n, Extract(t, n).1)
    requires Uninline(Extract(t[j + 1..], n + 1).0, all) == t[j + 1..]
    ensures Uninline(Extract(t, n).0, all) == t
  {
    var r := Extract(t, n);
    var rest := Extract(t[j + 1..], n + 1);
    assert r == ([Ph(InlineCode(n))] + rest.0, [t[1..j]] + rest.1);
    assert all[n] == t[1..j] by { assert r.1[0] == t[1..j]; }
    UninlineHole(n, rest.0, all);
    SpanSplit(t, j);
  }

  /** A saved span's hole writes back out as the span between its backticks. */
  lemma UninlineHole(n: nat, rest: seq<Tok>, all: seq<seq<Tok>>)
    requires n < |all|
    ensures Uninline([Ph(InlineCode(n))] + rest, all) == [Tick] + all[n] + [Tick] + Uninline(rest, all)
  {
    assert ([Ph(InlineCode(n))] + rest)[1..] == rest;
  }

  /** A token that is no inline code hole writes back out as itself. */
  lemma UninlineChar(x: Tok, rest: seq<Tok>, all: seq<seq<Tok>>)
    requires !(x.Ph? && x.hole.InlineCode?)
    ensures Uninline([x] + rest, all) == [x] + Uninline(rest, all)
  {
    assert ([x] + rest)[1..] == rest;
  }

  /** A span closing at `j` cut out of the text: the opening backtick, the content, the closing backtick, the rest. */
  lemma SpanSplit(t: seq<Tok>, j: nat)
    requires IsSpan(t, j)
    ensures t == [Tick] + t[1..j] + [Tick] + t[j + 1..]
  {
    assert t == [t[0]] + t[1..j] + [t[j]] + t[j + 1..];
  }

  /** The holes after step 3: those of the text, and one inline code hole for each saved span. */
  lemma {:induction false} ExtractHoles(t: seq<Tok>, n: nat, nb: nat, nt: nat)
    requires HolesBelow(t, nb, nt, n)
    ensures HolesBelow(Extract(t, n).0, nb, nt, n + |Extract(t, n).1|)
    decreases |t|
  {
    if |t| > 0 {
      var r := Extract(t, n);
      match SpanEnd(t)
      case Some(j) =>
        var rest := Extract(t[j + 1..], n + 1);
        assert HolesBelow(t[j + 1..], nb, nt, n + 1) by {
          forall x: Tok | x in t[j + 1..] && x.Ph? ensures HoleBelow(x.hole, nb, nt, n + 1) { assert x in t; }
        }
        ExtractHoles(t[j + 1..], n + 1, nb, nt);
        forall x: Tok | x in r.0 && x.Ph? ensures HoleBelow(x.hole, nb, nt, n + |r.1|) {
          if x != Ph(InlineCode(n)) { assert x in rest.0; }
        }
      case None =>
        var rest := Extract(t[1..], n);
        assert HolesBelow(t[1..], nb, nt, n) by {
          forall x: Tok | x in t[1..] && x.Ph? ensures HoleBelow(x.hole, nb, nt, n) { assert x in t; }
        }
        ExtractHoles(t[1..], n, nb, nt);
        forall x: Tok | x in r.0 && x.Ph? ensures HoleBelow(x.hole, nb, nt, n + |r.1|) {
          if x != t[0] { assert x in rest.0; }
        }
    }
  }

  /** A text without backticks has no inline code: step 3 leaves it as it is. */
  lemma {:induction false} NoTickUnchanged(t: seq<Tok>, n: nat)
    requires Tick !in t
    ensures Extract(t, n) == (t, [])
    decreases |t|
  {
    if |t| > 0 {
      assert Tick !in t[1..];
      NoTickUnchanged(t[1..], n);
      assert t == [t[0]] + t[1..];
    }
  }

  /** Step 3 of a NUL-free stream gives a NUL-free stream and NUL-free spans. */
  lemma {:induction false} ExtractNulFree(t: seq<Tok>, n: nat)
    requires NulFree(t)
    ensures NulFree(Extract(t, n).0)
    ensures forall i :: 0 <= i < |Extract(t, n).1| ==> NulFree(Extract(t, n).1[i])
    decreases |t|
  {
    if |t| > 0 {
      var r := Extract(t, n);
      match SpanEnd(t)
      case Some(j) =>
        var rest := Extract(t[j + 1..], n + 1);
        assert NulFree(t[j + 1..]) by { assert forall x :: x in t[j + 1..] ==> x in t; }
        ExtractNulFree(t[j + 1..], n + 1);
        assert NulFree(t[1..j]) by { assert forall x :: x in t[1..j] ==> x in t; }
        assert forall i :: 1 <= i < |r.1| ==> r.1[i] == rest.1[i - 1];
      case None =>
        assert NulFree(t[1..]) by { assert forall x :: x in t[1..] ==> x in t; }
        ExtractNulFree(t[1..], n);
        assert t[0] in t;
    }
  }
}
