/** Generic sequence helpers: Python's `split`/`join` on one separator, flattening and searching. */
module Seqs {
  import opened Wrappers

  /** Python's `s.split(sep)` for a one-element separator: the maximal separator-free pieces, in order.
      Defined element by element, so it serves as the reference that faster splitting is compared to. */
  function Split<T(==)>(s: seq<T>, sep: T): (r: seq<seq<T>>)
    ensures |r| >= 1
    decreases |s|
  {
    if |s| == 0 then [[]]
    else
      var rest := Split(s[1..], sep);
      if s[0] == sep then [[]] + rest
      else [[s[0]] + rest[0]] + rest[1..]
  }

  /** Python's `sep.join(parts)`. */
  function Join<T>(parts: seq<seq<T>>, sep: T): seq<T>
    decreases |parts|
  {
    if |parts| == 0 then []
    else if |parts| == 1 then parts[0]
    else parts[0] + [sep] + Join(parts[1..], sep)
  }

  /** Concatenation of all pieces, in order. */
  function Concat<T>(parts: seq<seq<T>>): seq<T>
    decreases |parts|
  {
    if |parts| == 0 then [] else parts[0] + Concat(parts[1..])
  }

  /** The last element of a non-empty sequence. */
  function Last<T>(s: seq<T>): T
    requires |s| > 0
  {
    s[|s| - 1]
  }

  /** `t` is a suffix of `s` (Python's `s.endswith(t)`). */
  predicate IsSuffix<T(==)>(t: seq<T>, s: seq<T>) {
    |t| <= |s| && s[|s| - |t|..] == t
  }

  /** `pat` occurs in `s` starting at index `i`. */
  predicate OccursAt<T(==)>(s: seq<T>, pat: seq<T>, i: int) {
    0 <= i && i + |pat| <= |s| && s[i..i + |pat|] == pat
  }

  /** The position of the first occurrence of `x` in `s`. */
  function IndexOf<T(==)>(s: seq<T>, x: T): (i: nat)
    requires x in s
    ensures i < |s| && s[i] == x && x !in s[..i]
  {
    if s[0] == x then 0
    else
      assert x in s[1..] by { var k :| 0 <= k < |s| && s[k] == x; assert s[1..][k - 1] == x; }
      var j := IndexOf(s[1..], x);
      assert s[..j + 1] == [s[0]] + s[1..][..j];
      j + 1
  }

  /** The first occurrence of `pat` in `s` at or after index `from` (Python's `s.find(pat, from)`). */
  function FindFrom<T(==)>(s: seq<T>, pat: seq<T>, from: nat): (r: Option<nat>)
    ensures r.Some? ==> from <= r.value && r.value + |pat| <= |s|
    decreases |s| - from
  {
    if from + |pat| > |s| then None
    else if OccursAt(s, pat, from) then Some(from)
    else FindFrom(s, pat, from + 1)
  }

  /** `FindFrom` finds the first occurrence, and reports none only when there is none. */
  lemma {:induction false} FindFromFirst<T>(s: seq<T>, pat: seq<T>, from: nat)
    ensures var r := FindFrom(s, pat, from);
      && (r.Some? ==> OccursAt(s, pat, r.value))
      && (r.Some? ==> forall j :: from <= j < r.value ==> !OccursAt(s, pat, j))
      && (r.None? ==> forall j :: from <= j ==> !OccursAt(s, pat, j))
    decreases |s| - from
  {
    if from + |pat| <= |s| && !OccursAt(s, pat, from) {
      FindFromFirst(s, pat, from + 1);
    }
  }

  /** No piece of a split contains the separator. */
  lemma {:induction false} SplitPiecesFree<T>(s: seq<T>, sep: T)
    ensures forall i :: 0 <= i < |Split(s, sep)| ==> sep !in Split(s, sep)[i]
    decreases |s|
  {
    if |s| > 0 {
      SplitPiecesFree(s[1..], sep);
    }
  }

  /** Splitting and joining are inverse: joining the pieces restores the input. */
  lemma {:induction false} JoinSplit<T>(s: seq<T>, sep: T)
    ensures Join(Split(s, sep), sep) == s
    decreases |s|
  {
    if |s| > 0 {
      var rest := Split(s[1..], sep);
      JoinSplit(s[1..], sep);
      if s[0] == sep {
        assert Split(s, sep) == [[]] + rest;
      } else {
        var r := Split(s, sep);
        assert r == [[s[0]] + rest[0]] + rest[1..];
        if |rest| == 1 {
          assert Join(r, sep) == [s[0]] + rest[0];
        } else {
          assert r[1..] == rest[1..];
          assert Join(rest, sep) == rest[0] + [sep] + Join(rest[1..], sep);
        }
      }
      assert s == [s[0]] + s[1..];
    }
  }

  /** The other direction: separator-free pieces survive a join followed by a split. */
  lemma {:induction false} SplitJoin<T>(parts: seq<seq<T>>, sep: T)
    requires |parts| >= 1
    requires forall i :: 0 <= i < |parts| ==> sep !in parts[i]
    ensures Split(Join(parts, sep), sep) == parts
    decreases |parts|
  {
    if |parts| == 1 {
      SplitFree(parts[0], sep);
    } else {
      var j := Join(parts[1..], sep);
      assert Join(parts, sep) == parts[0] + ([sep] + j);
      SplitJoin(parts[1..], sep);
      SplitCons(sep, j, sep);
      SplitFree(parts[0], sep);
      SplitAppend(parts[0], [sep] + j, sep);
      assert [] + parts[1..] == parts[1..];
      assert parts[0] + [] == parts[0];
      assert parts == [parts[0]] + parts[1..];
    }
  }

  /** A separator-free sequence splits into itself alone. */
  lemma {:induction false} SplitFree<T>(s: seq<T>, sep: T)
    requires sep !in s
    ensures Split(s, sep) == [s]
    decreases |s|
  {
    if |s| > 0 {
      assert sep !in s[1..];
      SplitFree(s[1..], sep);
      assert s == [s[0]] + s[1..];
    }
  }

  /** The pieces of `a + b` when `a` splits into `pa` and `b` into `pb`: the last piece of `a` fuses with the
      first piece of `b`. */
  function Fuse<T>(pa: seq<seq<T>>, pb: seq<seq<T>>): seq<seq<T>>
    requires |pa| > 0 && |pb| > 0
  {
    pa[..|pa| - 1] + [Last(pa) + pb[0]] + pb[1..]
  }

  /** Fusing after a known prefix of pieces keeps that prefix. */
  lemma FuseSnoc<T>(init: seq<seq<T>>, last: seq<T>, pb: seq<seq<T>>)
    requires |pb| > 0
    ensures Fuse(init + [last], pb) == init + Fuse([last], pb)
  {
    assert (init + [last])[..|init|] == init;
  }

  /** One step of `Split`: how a leading element extends the pieces of the rest. */
  lemma SplitCons<T>(x: T, s: seq<T>, sep: T)
    ensures var rest := Split(s, sep);
      Split([x] + s, sep) == if x == sep then [[]] + rest else [[x] + rest[0]] + rest[1..]
  {
    assert ([x] + s)[1..] == s;
  }

  /** How splitting distributes over concatenation. */
  lemma {:induction false} SplitAppend<T>(a: seq<T>, b: seq<T>, sep: T)
    ensures Split(a + b, sep) == Fuse(Split(a, sep), Split(b, sep))
    decreases |a|
  {
    if |a| == 0 {
      assert a + b == b;
      var pb := Split(b, sep);
      assert [] + pb[0] == pb[0];
      assert pb == [pb[0]] + pb[1..];
    } else {
      var x, a' := a[0], a[1..];
      assert a == [x] + a';
      assert a + b == [x] + (a' + b);
      SplitAppend(a', b, sep);
      SplitCons(x, a', sep);
      SplitCons(x, a' + b, sep);
      FuseCons(x, Split(a', sep), Split(b, sep), sep);
    }
  }

  /** `Fuse` commutes with the leading step of `Split`. */
  lemma FuseCons<T>(x: T, pr: seq<seq<T>>, pb: seq<seq<T>>, sep: T)
    requires |pr| > 0 && |pb| > 0
    ensures var q := Fuse(pr, pb);
      (if x == sep then [[]] + q else [[x] + q[0]] + q[1..])
      == Fuse(if x == sep then [[]] + pr else [[x] + pr[0]] + pr[1..], pb)
  {
    var q := Fuse(pr, pb);
    if x == sep {
      assert ([[]] + pr)[..|pr|] == [[]] + pr[..|pr| - 1];
    } else {
      var pa := [[x] + pr[0]] + pr[1..];
      if |pr| == 1 {
        assert q == [pr[0] + pb[0]] + pb[1..];
        assert [x] + (pr[0] + pb[0]) == ([x] + pr[0]) + pb[0];
        assert pa[..|pa| - 1] == [];
      } else {
        assert q[0] == pr[0];
        assert q[1..] == pr[1..|pr| - 1] + [Last(pr) + pb[0]] + pb[1..];
        assert pa[..|pa| - 1] == [[x] + pr[0]] + pr[1..|pr| - 1];
      }
    }
  }

  /** Cutting at the first separator: the piece before it, then the pieces of everything after it. */
  lemma SplitAtFirst<T>(s: seq<T>, i: nat, sep: T)
    requires i < |s| && s[i] == sep && sep !in s[..i]
    ensures Split(s, sep) == [s[..i]] + Split(s[i + 1..], sep)
  {
    SliceAround(s, i);
    SplitAround(s[..i], s[i + 1..], sep);
  }

  lemma SliceAround<T>(s: seq<T>, i: nat)
    requires i < |s|
    ensures s == s[..i] + ([s[i]] + s[i + 1..])
  {
  }

  /** The head and the tail of a concatenation with a non-empty left part. */
  lemma ConsAppend<T>(a: seq<T>, b: seq<T>)
    requires |a| > 0
    ensures (a + b)[0] == a[0] && (a + b)[1..] == a[1..] + b
  {
  }

  /** A non-empty sequence is its front followed by its last element. */
  lemma FrontLast<T>(s: seq<T>)
    requires |s| > 0
    ensures s == s[..|s| - 1] + [Last(s)]
  {
  }

  lemma EmptyAppend<T>(a: seq<T>, b: seq<T>)
    requires |a| == 0
    ensures a + b == b
  {
  }

  lemma AppendAssoc<T>(a: seq<T>, b: seq<T>, c: seq<T>)
    ensures a + (b + c) == a + b + c
  {
  }

  /** A separator-free piece, the separator, and the rest. */
  lemma SplitAround<T>(pre: seq<T>, post: seq<T>, sep: T)
    requires sep !in pre
    ensures Split(pre + ([sep] + post), sep) == [pre] + Split(post, sep)
  {
    SplitFree(pre, sep);
    SplitCons(sep, post, sep);
    var pb := [[]] + Split(post, sep);
    SplitAppend(pre, [sep] + post, sep);
    assert Fuse([pre], pb) == [pre + []] + pb[1..];
    assert pre + [] == pre && pb[1..] == Split(post, sep);
  }

  /** Splitting a longer sequence: once `x` has been cut into complete pieces and a separator-free remainder,
      the pieces of `x + tail` are those complete pieces followed by the pieces of the remainder plus `tail`. */
  lemma SplitResume<T>(x: seq<T>, tail: seq<T>, done: seq<seq<T>>, rest: seq<T>, sep: T)
    requires sep !in rest
    requires done + [rest] == Split(x, sep)
    ensures Split(x + tail, sep) == done + Split(rest + tail, sep)
  {
    SplitAppend(x, tail, sep);
    SplitAppend(rest, tail, sep);
    SplitFree(rest, sep);
    FuseSnoc(done, rest, Split(tail, sep));
  }

  /** Flattening distributes over concatenation. */
  lemma {:induction false} ConcatAppend<T>(a: seq<seq<T>>, b: seq<seq<T>>)
    ensures Concat(a + b) == Concat(a) + Concat(b)
    decreases |a|
  {
    if |a| == 0 {
      assert a + b == b;
    } else {
      assert (a + b)[1..] == a[1..] + b;
      ConcatAppend(a[1..], b);
    }
  }

  /** Joining a head piece onto the rest. */
  lemma JoinCons<T>(x: seq<T>, rest: seq<seq<T>>, sep: T)
    ensures Join([x] + rest, sep) == if |rest| == 0 then x else x + [sep] + Join(rest, sep)
  {
    assert ([x] + rest)[1..] == rest;
  }

  /** Joining two non-empty lists of pieces: the joins of both, with one separator between. */
  lemma {:induction false} JoinAppend<T>(a: seq<seq<T>>, b: seq<seq<T>>, sep: T)
    requires |a| > 0 && |b| > 0
    ensures Join(a + b, sep) == Join(a, sep) + [sep] + Join(b, sep)
    decreases |a|
  {
    assert a + b == [a[0]] + (a[1..] + b);
    JoinCons(a[0], a[1..] + b, sep);
    if |a| == 1 {
      assert a[1..] + b == b;
    } else {
      JoinAppend(a[1..], b, sep);
      JoinCons(a[0], a[1..], sep);
      assert a == [a[0]] + a[1..];
    }
  }

  /** Every element of a piece of a split is an element of the split sequence. */
  lemma {:induction false} SplitPiecesIn<T>(s: seq<T>, sep: T)
    ensures forall j, x :: 0 <= j < |Split(s, sep)| && x in Split(s, sep)[j] ==> x in s
    decreases |s|
  {
    if |s| > 0 {
      SplitPiecesIn(s[1..], sep);
      var rest := Split(s[1..], sep);
      forall j, x | 0 <= j < |Split(s, sep)| && x in Split(s, sep)[j] ensures x in s {
        if s[0] != sep && j == 0 {
          assert x in [s[0]] + rest[0];
          if x != s[0] { assert x in rest[0]; assert x in s[1..]; }
        } else if s[0] != sep {
          assert Split(s, sep)[j] == rest[j];
          assert x in s[1..];
        } else if j > 0 {
          assert Split(s, sep)[j] == rest[j - 1];
          assert x in s[1..];
        }
      }
    }
  }

  /** Every element of a join is the separator or an element of one of the pieces. */
  lemma {:induction false} JoinIn<T>(parts: seq<seq<T>>, sep: T, x: T)
    requires x in Join(parts, sep)
    ensures x == sep || exists j :: 0 <= j < |parts| && x in parts[j]
    decreases |parts|
  {
    if |parts| > 1 {
      if x !in parts[0] && x != sep {
        assert x in Join(parts[1..], sep);
        JoinIn(parts[1..], sep, x);
        if x != sep {
          var j :| 0 <= j < |parts[1..]| && x in parts[1..][j];
          assert x in parts[j + 1];
        }
      }
    }
  }

  /** `FindFrom` reports an occurrence with none before it. */
  lemma {:induction false} FindFromIs<T>(s: seq<T>, pat: seq<T>, from: nat, c: nat)
    requires from <= c && OccursAt(s, pat, c)
    requires forall j :: from <= j < c ==> !OccursAt(s, pat, j)
    ensures FindFrom(s, pat, from) == Some(c)
    decreases c - from
  {
    if from < c {
      FindFromIs(s, pat, from + 1, c);
    }
  }

  /** An occurrence starts with the pattern's first element. */
  lemma OccursHead<T>(s: seq<T>, pat: seq<T>, j: int)
    requires |pat| > 0 && OccursAt(s, pat, j)
    ensures s[j] == pat[0]
  {
    assert s[j..j + |pat|][0] == s[j];
  }

  /** A pattern whose first element is not in `s` occurs nowhere in it. */
  lemma NeverOccurs<T>(s: seq<T>, pat: seq<T>)
    requires |pat| > 0 && pat[0] !in s
    ensures forall j :: !OccursAt(s, pat, j)
  {
    forall j | OccursAt(s, pat, j) ensures false {
      OccursHead(s, pat, j);
    }
  }
}
