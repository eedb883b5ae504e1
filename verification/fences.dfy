/** Step 1 of `markdown_to_telegram_html`: every fenced code block, as matched by the pattern
    ```` ```\w*\n?(.*?)``` ```` over the whole text (dot matching newlines), becomes a hole, and its content
    is saved. */
module Fences {
  import opened Wrappers
  import opened Seqs
  import opened Tokens

  const Fence: string := "```"

  /** A character of `\w`, restricted to ASCII: Python's `\w` on a `str` also takes letters and digits of other
      scripts, whose Unicode table is not modelled. */
  predicate IsWordChar(c: char) {
    ('a' <= c <= 'z') || ('A' <= c <= 'Z') || ('0' <= c <= '9') || c == '_'
  }

  /** One matched block: `head` is what the pattern skips after the opening fence (the info word and at most one
      newline), `code` is the saved group, the content up to the closing fence. */
  datatype Block = Block(head: string, code: string)

  /** The text a block was matched from. */
  function FenceText(b: Block): string {
    Fence + b.head + b.code + Fence
  }

  /** What the pattern allows: a head of word characters with at most one final newline, and a content with no
      fence in it (the lazy group stops at the first closing fence). */
  predicate WellFormed(b: Block) {
    && (forall i :: 0 <= i < |b.head| ==> IsWordChar(b.head[i]) || (b.head[i] == '\n' && i == |b.head| - 1))
    && (forall i :: 0 <= i < |b.code| ==> !OccursAt(b.code, Fence, i))
  }

  /** The end of the run of word characters starting at `from`. */
  function WordEnd(s: string, from: nat): (i: nat)
    requires from <= |s|
    ensures from <= i <= |s|
    decreases |s| - from
  {
    if from == |s| || !IsWordChar(s[from]) then from else WordEnd(s, from + 1)
  }

  /** `WordEnd` stops at the first character that is not a word character. */
  lemma {:induction false} WordEndSpec(s: string, from: nat)
    requires from <= |s|
    ensures forall j :: from <= j < WordEnd(s, from) ==> IsWordChar(s[j])
    ensures WordEnd(s, from) < |s| ==> !IsWordChar(s[WordEnd(s, from)])
    decreases |s| - from
  {
    if from < |s| && IsWordChar(s[from]) {
      WordEndSpec(s, from + 1);
    }
  }

  /** Where the content of a block opened at `p` starts: after the greedy `\w*` and the optional `\n`. */
  function ContentStart(s: string, p: nat): (q: nat)
    requires p + 3 <= |s|
    ensures p + 3 <= q <= |s|
  {
    var w := WordEnd(s, p + 3);
    if w < |s| && s[w] == '\n' then w + 1 else w
  }

  /** The block matched at an opening fence `p`, if there is a closing fence after its head. */
  function MatchAt(s: string, p: nat): (r: Option<(Block, nat)>)
    requires p + 3 <= |s|
    ensures r.Some? ==> var (b, c) := r.value; p + 3 + |b.head| + |b.code| == c && c + 3 <= |s|
  {
    var q := ContentStart(s, p);
    match FindFrom(s, Fence, q)
    case None => None
    case Some(c) => Some((Block(s[p + 3..q], s[q..c]), c))
  }

  /** A match spans exactly the text of its block. */
  lemma MatchAtText(s: string, p: nat)
    requires OccursAt(s, Fence, p) && MatchAt(s, p).Some?
    ensures var (b, c) := MatchAt(s, p).value; s[p..c + 3] == FenceText(b)
  {
    var q := ContentStart(s, p);
    var c := FindFrom(s, Fence, q).value;
    FindFromFirst(s, Fence, q);
    assert s[p..p + 3] == Fence && s[c..c + 3] == Fence;
    SliceFour(s, p, p + 3, q, c, c + 3);
  }

  lemma SliceThree<T>(s: seq<T>, a: nat, b: nat, c: nat)
    requires a <= b <= c <= |s|
    ensures s[a..] == s[a..b] + s[b..c] + s[c..]
  {
    assert s[a..] == s[a..b] + s[b..];
    assert s[b..] == s[b..c] + s[c..];
  }

  lemma SliceFour<T>(s: seq<T>, a: nat, b: nat, c: nat, d: nat, e: nat)
    requires a <= b <= c <= d <= e <= |s|
    ensures s[a..e] == s[a..b] + s[b..c] + s[c..d] + s[d..e]
  {
    assert s[a..c] == s[a..b] + s[b..c];
    assert s[a..d] == s[a..c] + s[c..d];
    assert s[a..e] == s[a..d] + s[d..e];
  }

  /** A matched block is what the pattern allows. */
  lemma MatchWellFormed(s: string, p: nat)
    requires p + 3 <= |s| && MatchAt(s, p).Some?
    ensures WellFormed(MatchAt(s, p).value.0)
  {
    var q := ContentStart(s, p);
    var c := FindFrom(s, Fence, q).value;
    FindFromFirst(s, Fence, q);
    WordEndSpec(s, p + 3);
    var b := Block(s[p + 3..q], s[q..c]);
    forall i | 0 <= i < |b.code| ensures !OccursAt(b.code, Fence, i) {
      if i + 3 <= |b.code| {
        assert b.code[i..i + 3] == s[q + i..q + i + 3];
        assert OccursAt(b.code, Fence, i) <==> OccursAt(s, Fence, q + i);
      }
    }
  }

  /** A block found in the text: its opening fence at `p`, the block, its closing fence at `c`. */
  datatype Found = Found(p: nat, b: Block, c: nat)

  /** The block `re.sub` replaces next when scanning from `from`: the pattern is tried at each opening fence. At
      the first one it either has a closing fence after its head, or it has none, and then no later position can
      start a match either (`NoLaterMatch`), so scanning stops. */
  function NextBlock(s: string, from: nat): (r: Option<Found>)
    requires from <= |s|
    ensures r.Some? ==> from <= r.value.p && r.value.p + 3 + |r.value.b.head| + |r.value.b.code| == r.value.c
                        && r.value.c + 3 <= |s|
  {
    match FindFrom(s, Fence, from)
    case None => None
    case Some(p) =>
      match MatchAt(s, p)
      case None => None
      case Some(m) => Some(Found(p, m.0, m.1))
  }

  /** Why scanning stops at the first opening fence that has no closing fence after its head: no later opening
      fence has one either, since its content could only start further on. */
  lemma NoLaterMatch(s: string, p: nat, p': nat)
    requires OccursAt(s, Fence, p) && MatchAt(s, p).None?
    requires p < p' && OccursAt(s, Fence, p')
    ensures MatchAt(s, p').None?
  {
    var q, q' := ContentStart(s, p), ContentStart(s, p');
    WordEndSpec(s, p + 3);
    FindFromFirst(s, Fence, q);
    FindFromFirst(s, Fence, q');
    if p' < q {
      assert s[p'..p' + 3][0] == '`' && s[p'..p' + 3][2] == '`';
      if p' < p + 3 {
        assert s[p'..p' + 3][p + 3 - p'] == s[p + 3];
      }
    }
  }

  /** `NextBlock` is the leftmost match: a block at the first opening fence from `from` on, and none at all when
      no opening fence from `from` on has a closing fence after its head. */
  lemma NextBlockLeftmost(s: string, from: nat)
    requires from <= |s|
    ensures NextBlock(s, from).Some? ==>
              var f := NextBlock(s, from).value;
              && OccursAt(s, Fence, f.p) && MatchAt(s, f.p) == Some((f.b, f.c))
              && forall j :: from <= j < f.p ==> !OccursAt(s, Fence, j)
    ensures NextBlock(s, from).None? ==> forall j :: from <= j && OccursAt(s, Fence, j) ==> MatchAt(s, j).None?
  {
    FindFromFirst(s, Fence, from);
    match FindFrom(s, Fence, from)
    case None =>
    case Some(p) =>
      if MatchAt(s, p).None? {
        forall j | from <= j && OccursAt(s, Fence, j) ensures MatchAt(s, j).None? {
          if j > p { NoLaterMatch(s, p, j); }
        }
      }
  }

  /** The next block spans exactly its text. */
  lemma NextBlockText(s: string, from: nat)
    requires from <= |s| && NextBlock(s, from).Some?
    ensures var m := NextBlock(s, from).value; s[m.p..m.c + 3] == FenceText(m.b)
  {
    FindFromFirst(s, Fence, from);
    MatchAtText(s, FindFrom(s, Fence, from).value);
  }

  /** The next block is well formed. */
  lemma NextBlockWellFormed(s: string, from: nat)
    requires from <= |s| && NextBlock(s, from).Some?
    ensures WellFormed(NextBlock(s, from).value.b)
  {
    MatchWellFormed(s, FindFrom(s, Fence, from).value);
  }

  /** Every block `re.sub` replaces scanning from `from`, in order. */
  function Scan(s: string, from: nat): (r: seq<Found>)
    requires from <= |s|
    decreases |s| - from
  {
    var m := NextBlock(s, from);
    if m.None? then [] else [m.value] + Scan(s, m.value.c + 3)
  }

  /** The scan from `from` is the next block followed by the scan after it. */
  lemma ScanStep(s: string, from: nat)
    requires from <= |s| && NextBlock(s, from).Some?
    ensures var m := NextBlock(s, from).value;
      |Scan(s, from)| > 0 && Scan(s, from)[0] == m && Scan(s, from)[1..] == Scan(s, m.c + 3)
  {
    var m := NextBlock(s, from).value;
    ScanUnfold(s, from);
    ConsAppend([m], Scan(s, m.c + 3));
  }

  lemma ScanUnfold(s: string, from: nat)
    requires from <= |s| && NextBlock(s, from).Some?
    ensures Scan(s, from) == [NextBlock(s, from).value] + Scan(s, NextBlock(s, from).value.c + 3)
  {
  }

  /** Blocks laid along the text from `from`: each starts at or after the end of the one before and spans its own
      text. */
  predicate Laid(s: string, from: nat, fs: seq<Found>)
    decreases |fs|
  {
    && from <= |s|
    && (|fs| > 0 ==>
          var f := fs[0];
          && from <= f.p && f.p + 3 + |f.b.head| + |f.b.code| == f.c && f.c + 3 <= |s|
          && s[f.p..f.c + 3] == FenceText(f.b)
          && Laid(s, f.c + 3, fs[1..]))
  }

  /** What the scan finds is laid along the text. */
  lemma {:induction false} ScanLaid(s: string, from: nat)
    requires from <= |s|
    ensures Laid(s, from, Scan(s, from))
    decreases |s| - from
  {
    var m := NextBlock(s, from);
    if m.Some? {
      NextBlockText(s, from);
      ScanLaid(s, m.value.c + 3);
      ScanStep(s, from);
    }
  }

  /** Every block of `fs` is well formed. */
  predicate FoundWellFormed(fs: seq<Found>)
  {
    forall i :: 0 <= i < |fs| ==> WellFormed(fs[i].b)
  }

  lemma FoundWellFormedCons(fs: seq<Found>)
    requires |fs| > 0 && WellFormed(fs[0].b) && FoundWellFormed(fs[1..])
    ensures FoundWellFormed(fs)
  {
    assert forall i :: 1 <= i < |fs| ==> fs[i] == fs[1..][i - 1];
  }

  /** Every block the scan finds is well formed. */
  lemma {:induction false} ScanWellFormed(s: string, from: nat)
    requires from <= |s|
    ensures FoundWellFormed(Scan(s, from))
    decreases |s| - from
  {
    if NextBlock(s, from).Some? {
      var next := ScanNext(s, from);
      ScanWellFormed(s, next);
      ScanWellFormedStep(s, from);
    }
  }

  /** Where the scan resumes after the next block: past its closing fence. */
  function ScanNext(s: string, from: nat): (next: nat)
    requires from <= |s| && NextBlock(s, from).Some?
    ensures from < next <= |s| && next == NextBlock(s, from).value.c + 3
  {
    NextBlock(s, from).value.c + 3
  }

  lemma ScanWellFormedStep(s: string, from: nat)
    requires from <= |s| && NextBlock(s, from).Some?
    requires FoundWellFormed(Scan(s, NextBlock(s, from).value.c + 3))
    ensures FoundWellFormed(Scan(s, from))
  {
    NextBlockWellFormed(s, from);
    ScanStep(s, from);
    FoundWellFormedCons(Scan(s, from));
  }

  /** The replacement: each block laid along the text becomes one hole, numbered on from `n`. */
  function Substitute(s: string, from: nat, fs: seq<Found>, n: nat): (r: seq<Tok>)
    requires Laid(s, from, fs)
    decreases |fs|
  {
    if |fs| == 0 then Chars(s[from..])
    else Chars(s[from..fs[0].p]) + [Ph(CodeBlock(n))] + Substitute(s, fs[0].c + 3, fs[1..], n + 1)
  }

  /** The contents saved, one per block. */
  function Blocks(fs: seq<Found>): (r: seq<Block>)
    ensures |r| == |fs| && forall i :: 0 <= i < |fs| ==> r[i] == fs[i].b
  {
    seq(|fs|, i requires 0 <= i < |fs| => fs[i].b)
  }

  /** Every hole of `toks` is a block hole with an index in `[lo, hi)`. */
  predicate BlockHolesIn(toks: seq<Tok>, lo: nat, hi: nat) {
    forall i :: 0 <= i < |toks| ==> toks[i].Ch? || (toks[i].hole.CodeBlock? && lo <= toks[i].hole.i < hi)
  }

  predicate AllWellFormed(bs: seq<Block>) {
    forall i :: 0 <= i < |bs| ==> WellFormed(bs[i])
  }

  /** The holes of a substitution number its blocks. */
  lemma {:induction false} SubstituteHoles(s: string, from: nat, fs: seq<Found>, n: nat)
    requires Laid(s, from, fs)
    ensures BlockHolesIn(Substitute(s, from, fs, n), n, n + |fs|)
    decreases |fs|
  {
    if |fs| > 0 {
      SubstituteHoles(s, fs[0].c + 3, fs[1..], n + 1);
      HolesStep(s[from..fs[0].p], Substitute(s, fs[0].c + 3, fs[1..], n + 1), n, n + |fs|);
    }
  }

  lemma HolesStep(x: string, rest: seq<Tok>, n: nat, hi: nat)
    requires n < hi && BlockHolesIn(rest, n + 1, hi)
    ensures BlockHolesIn(Chars(x) + [Ph(CodeBlock(n))] + rest, n, hi)
  {
  }

  /** Step 1 on the whole text: the token stream and the saved blocks, hole `CodeBlock(i)` standing for block `i`. */
  function ExtractFences(s: string): (r: (seq<Tok>, seq<Block>))
    ensures AllWellFormed(r.1)
    ensures BlockHolesIn(r.0, 0, |r.1|)
  {
    var fs := Scan(s, 0);
    ScanLaid(s, 0);
    ScanWellFormed(s, 0);
    SubstituteHoles(s, 0, fs, 0);
    (Substitute(s, 0, fs, 0), Blocks(fs))
  }

  /** The text a token stream stands for before step 1: each block hole written out as the block's text. Any
      other hole has no text at this level. */
  function Unfence(toks: seq<Tok>, blocks: seq<Block>): string {
    if |toks| == 0 then "" else TokText(toks[0], blocks) + Unfence(toks[1..], blocks)
  }

  /** The text one token stands for before step 1. */
  function TokText(t: Tok, blocks: seq<Block>): string {
    if t.Ch? then [t.c]
    else if t.hole.CodeBlock? && t.hole.i < |blocks| then FenceText(blocks[t.hole.i])
    else ""
  }

  lemma {:induction false} UnfenceAppend(a: seq<Tok>, b: seq<Tok>, blocks: seq<Block>)
    ensures Unfence(a + b, blocks) == Unfence(a, blocks) + Unfence(b, blocks)
  {
    if |a| == 0 {
      assert a + b == b;
    } else {
      assert (a + b)[0] == a[0];
      assert (a + b)[1..] == a[1..] + b;
      UnfenceAppend(a[1..], b, blocks);
    }
  }

  lemma {:induction false} UnfenceChars(s: string, blocks: seq<Block>)
    ensures Unfence(Chars(s), blocks) == s
  {
    if |s| > 0 {
      assert Chars(s)[1..] == Chars(s[1..]);
      UnfenceChars(s[1..], blocks);
    }
  }

  /** Hole `CodeBlock(n + i)` names block `i` of `fs` in `all`. */
  predicate Names(all: seq<Block>, n: nat, fs: seq<Found>)
    decreases |fs|
  {
    |fs| > 0 ==> n < |all| && all[n] == fs[0].b && Names(all, n + 1, fs[1..])
  }

  lemma {:induction false} NamesBlocks(fs: seq<Found>, all: seq<Block>, n: nat)
    requires n + |fs| <= |all| && forall i :: 0 <= i < |fs| ==> all[n + i] == fs[i].b
    ensures Names(all, n, fs)
    decreases |fs|
  {
    if |fs| > 0 {
      assert all[n + 0] == fs[0].b;
      forall i | 0 <= i < |fs| - 1 ensures all[n + 1 + i] == fs[1..][i].b {
        assert all[n + (i + 1)] == fs[i + 1].b;
      }
      NamesBlocks(fs[1..], all, n + 1);
    }
  }

  /** Step 1 loses nothing: writing each hole back out as its block's text gives the remaining text, when hole
      `CodeBlock(n + i)` names block `i` of `fs`. */
  lemma {:induction false} SubstituteLossless(s: string, from: nat, fs: seq<Found>, n: nat, all: seq<Block>)
    requires Laid(s, from, fs)
    requires Names(all, n, fs)
    ensures Unfence(Substitute(s, from, fs, n), all) == s[from..]
    decreases |fs|
  {
    if |fs| == 0 {
      UnfenceChars(s[from..], all);
    } else {
      SubstituteLossless(s, fs[0].c + 3, fs[1..], n + 1, all);
      LosslessStep(s, from, fs, n, all);
    }
  }

  /** One step of `SubstituteLossless`: the text before the first block, the block, and the rest. */
  lemma LosslessStep(s: string, from: nat, fs: seq<Found>, n: nat, all: seq<Block>)
    requires Laid(s, from, fs) && |fs| > 0 && Names(all, n, fs)
    requires Unfence(Substitute(s, fs[0].c + 3, fs[1..], n + 1), all) == s[fs[0].c + 3..]
    ensures Unfence(Substitute(s, from, fs, n), all) == s[from..]
  {
    var f := fs[0];
    var rest := Substitute(s, f.c + 3, fs[1..], n + 1);
    assert Substitute(s, from, fs, n) == Chars(s[from..f.p]) + [Ph(CodeBlock(n))] + rest;
    UnfenceBlock(s, from, f.p, f.c, f.b, rest, all, n);
  }

  lemma UnfenceBlock(s: string, from: nat, p: nat, c: nat, b: Block, rest: seq<Tok>, all: seq<Block>, k: nat)
    requires from <= p <= c && c + 3 <= |s| && s[p..c + 3] == FenceText(b)
    requires k < |all| && all[k] == b
    requires Unfence(rest, all) == s[c + 3..]
    ensures Unfence(Chars(s[from..p]) + [Ph(CodeBlock(k))] + rest, all) == s[from..]
  {
    var hole := [Ph(CodeBlock(k))];
    var x, y, z := s[from..p], s[p..c + 3], s[c + 3..];
    SliceThree(s, from, p, c + 3);
    assert Unfence(hole, all) == y by {
      assert Unfence(hole, all) == TokText(hole[0], all) + Unfence(hole[1..], all);
      assert hole[1..] == [];
    }
    UnfenceChars(x, all);
    UnfenceAppend(Chars(x), hole, all);
    UnfenceAppend(Chars(x) + hole, rest, all);
  }

  /** Round trip of step 1. */
  lemma ExtractFencesLossless(s: string)
    ensures Unfence(ExtractFences(s).0, ExtractFences(s).1) == s
  {
    var fs := Scan(s, 0);
    ScanLaid(s, 0);
    NamesBlocks(fs, Blocks(fs), 0);
    SubstituteLossless(s, 0, fs, 0, Blocks(fs));
    assert s[0..] == s;
  }

  /** A block's text and content taken from a NUL-free text hold no NUL. */
  predicate BlockNulFree(b: Block) {
    NoNul(FenceText(b)) && NoNul(b.code)
  }

  lemma SliceNoNul(s: string, a: nat, b: nat)
    requires a <= b <= |s| && NoNul(s)
    ensures NoNul(s[a..b]) && NulFree(Chars(s[a..b]))
  {
    assert forall i :: 0 <= i < b - a ==> s[a..b][i] == s[a + i];
  }

  /** What step 1 makes of a NUL-free text is NUL-free: the characters between blocks and the blocks themselves
      are pieces of the text. */
  lemma {:induction false} SubstituteNulFree(s: string, from: nat, fs: seq<Found>, n: nat)
    requires Laid(s, from, fs) && NoNul(s)
    ensures NulFree(Substitute(s, from, fs, n))
    ensures forall i :: 0 <= i < |fs| ==> BlockNulFree(fs[i].b)
    decreases |fs|
  {
    if |fs| == 0 {
      SliceNoNul(s, from, |s|);
    } else {
      var f := fs[0];
      SubstituteNulFree(s, f.c + 3, fs[1..], n + 1);
      SliceNoNul(s, from, f.p);
      FoundNulFree(s, f);
      assert forall i :: 1 <= i < |fs| ==> fs[i] == fs[1..][i - 1];
    }
  }

  /** A block found in a NUL-free text is NUL-free. */
  lemma FoundNulFree(s: string, f: Found)
    requires f.p + 3 + |f.b.head| + |f.b.code| == f.c && f.c + 3 <= |s|
    requires s[f.p..f.c + 3] == FenceText(f.b) && NoNul(s)
    ensures BlockNulFree(f.b)
  {
    SliceNoNul(s, f.p, f.c + 3);
    var t := FenceText(f.b);
    forall i | 0 <= i < |f.b.code| ensures f.b.code[i] != '\0' {
      assert f.b.code[i] == t[3 + |f.b.head| + i];
    }
  }

  /** Step 1 of a NUL-free text. */
  lemma ExtractFencesNulFree(s: string)
    requires NoNul(s)
    ensures NulFree(ExtractFences(s).0)
    ensures forall i :: 0 <= i < |ExtractFences(s).1| ==> BlockNulFree(ExtractFences(s).1[i])
  {
    ScanLaid(s, 0);
    SubstituteNulFree(s, 0, Scan(s, 0), 0);
  }

  /** Writing holes back out as NUL-free blocks adds no NUL. */
  lemma {:induction false} UnfenceNulFree(toks: seq<Tok>, blocks: seq<Block>)
    requires NulFree(toks)
    requires forall i :: 0 <= i < |blocks| ==> BlockNulFree(blocks[i])
    ensures NoNul(Unfence(toks, blocks))
    decreases |toks|
  {
    if |toks| > 0 {
      assert toks[0] in toks;
      assert NulFree(toks[1..]) by { assert forall x :: x in toks[1..] ==> x in toks; }
      UnfenceNulFree(toks[1..], blocks);
      NoNulAppend(TokText(toks[0], blocks), Unfence(toks[1..], blocks));
    }
  }
}
