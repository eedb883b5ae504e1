/** `_split_text`: cutting a reply into pieces that fit one Telegram message, preferring paragraph breaks, then
    line breaks, then spaces. */
module Chunker {
  import opened Seqs
  import PyText

  /** `MAX_MSG_LEN`: Telegram's limit on the length of one message. */
  const MaxMsgLen: nat := 4096

  /** The boundaries tried, in order of preference. */
  const Separators: seq<string> := ["\n\n", "\n", " "]

  /** Search downwards from `hi` for the highest index at which `sep` occurs. */
  function RFindBelow(s: string, sep: string, hi: int): (r: int)
    requires |sep| > 0
    ensures -1 <= r && (r == -1 || r <= hi)
    ensures r >= 0 ==> OccursAt(s, sep, r)
    ensures forall i :: r < i <= hi ==> !OccursAt(s, sep, i)
    decreases hi + 1
  {
    if hi < 0 then -1
    else if OccursAt(s, sep, hi) then hi
    else RFindBelow(s, sep, hi - 1)
  }

  /** Python's `s.rfind(sep, 0, end)`: the highest index of an occurrence lying wholly before `end`, or -1. */
  function RFind(s: string, sep: string, end: nat): (r: int)
    requires |sep| > 0
    ensures -1 <= r
    ensures r >= 0 ==> r + |sep| <= end && OccursAt(s, sep, r)
    ensures forall i :: r < i && i + |sep| <= end ==> !OccursAt(s, sep, i)
  {
    RFindBelow(s, sep, (if end < |s| then end else |s|) - |sep|)
  }

  /** `sep` occurs in the first `MaxMsgLen` characters somewhere other than at the very start. */
  predicate HasCut(s: string, sep: string) {
    exists i :: 0 < i && i + |sep| <= MaxMsgLen && OccursAt(s, sep, i)
  }

  /** Cutting at `k` cuts just after the last occurrence of `sep` within the first `MaxMsgLen` characters, and
      that occurrence is not at the very start. */
  predicate CutsAfterLast(s: string, sep: string, k: int) {
    && 0 < k - |sep| && k <= MaxMsgLen && OccursAt(s, sep, k - |sep|)
    && forall i :: k - |sep| < i && i + |sep| <= MaxMsgLen ==> !OccursAt(s, sep, i)
  }

  /** `rfind` finds a usable cut (`idx > 0`) exactly when one exists, and cuts after the last one. */
  lemma RFindCut(s: string, sep: string)
    requires |sep| > 0
    ensures HasCut(s, sep) <==> RFind(s, sep, MaxMsgLen) > 0
    ensures HasCut(s, sep) ==> CutsAfterLast(s, sep, RFind(s, sep, MaxMsgLen) + |sep|)
  {
    var r := RFind(s, sep, MaxMsgLen);
    if r > 0 {
      assert OccursAt(s, sep, r);
    }
  }

  /** The inner `for sep in [...]` loop: the first separator with a usable occurrence decides the cut. */
  function CutWith(s: string, seps: seq<string>): nat
    requires forall i :: 0 <= i < |seps| ==> |seps[i]| > 0
  {
    if |seps| == 0 then MaxMsgLen
    else
      var idx := RFind(s, seps[0], MaxMsgLen);
      if idx > 0 then idx + |seps[0]| else CutWith(s, seps[1..])
  }

  /** Where one step of the loop cuts a `remaining` text that is too long (see `SplitPointPrefers`). */
  function SplitPoint(s: string): (k: nat)
    requires |s| > MaxMsgLen
    ensures 0 < k <= MaxMsgLen
  {
    RFindCut(s, "\n\n");
    RFindCut(s, "\n");
    RFindCut(s, " ");
    CutWithSeparators(s);
    CutWith(s, Separators)
  }

  /** The cut falls after the last paragraph break in the first `MaxMsgLen` characters, failing that after the
      last line break, failing that after the last space, and failing all three at `MaxMsgLen` itself. */
  lemma SplitPointPrefers(s: string)
    requires |s| > MaxMsgLen
    ensures var k := SplitPoint(s);
      && (HasCut(s, "\n\n") ==> CutsAfterLast(s, "\n\n", k))
      && (!HasCut(s, "\n\n") && HasCut(s, "\n") ==> CutsAfterLast(s, "\n", k))
      && (!HasCut(s, "\n\n") && !HasCut(s, "\n") && HasCut(s, " ") ==> CutsAfterLast(s, " ", k))
      && (!HasCut(s, "\n\n") && !HasCut(s, "\n") && !HasCut(s, " ") ==> k == MaxMsgLen)
  {
    RFindCut(s, "\n\n");
    RFindCut(s, "\n");
    RFindCut(s, " ");
    CutWithSeparators(s);
  }

  /** The inner loop over the three separators, unrolled. */
  lemma CutWithSeparators(s: string)
    ensures CutWith(s, Separators)
         == if RFind(s, "\n\n", MaxMsgLen) > 0 then RFind(s, "\n\n", MaxMsgLen) + 2
            else if RFind(s, "\n", MaxMsgLen) > 0 then RFind(s, "\n", MaxMsgLen) + 1
            else if RFind(s, " ", MaxMsgLen) > 0 then RFind(s, " ", MaxMsgLen) + 1
            else MaxMsgLen
  {
    var s1, s2, s3 := Separators[1..], Separators[2..], Separators[3..];
    assert Separators[0] == "\n\n" && s1 == Separators[1..];
    assert s1[0] == "\n" && s1[1..] == s2;
    assert s2[0] == " " && s2[1..] == s3;
    assert s3 == [];
    assert CutWith(s, s2) == if RFind(s, " ", MaxMsgLen) > 0 then RFind(s, " ", MaxMsgLen) + 1 else MaxMsgLen;
    assert CutWith(s, s1) == if RFind(s, "\n", MaxMsgLen) > 0 then RFind(s, "\n", MaxMsgLen) + 1 else CutWith(s, s2);
  }

  /** Reference definition: the pieces the loop produces before blank ones are filtered out. */
  function Pieces(s: string): (r: seq<string>)
    ensures Concat(r) == s
    ensures forall i :: 0 <= i < |r| ==> 0 < |r[i]| <= MaxMsgLen
    decreases |s|
  {
    if |s| == 0 then []
    else if |s| <= MaxMsgLen then [s]
    else
      var k := SplitPoint(s);
      var rest := Pieces(s[k..]);
      assert s == s[..k] + s[k..];
      [s[..k]] + rest
  }

  /** `[c for c in chunks if c.strip()]`. */
  function NonBlank(chunks: seq<string>): (r: seq<string>)
    ensures forall i :: 0 <= i < |r| ==> !PyText.IsBlank(r[i])
    ensures forall i :: 0 <= i < |r| ==> r[i] in chunks
    ensures forall i :: 0 <= i < |chunks| && !PyText.IsBlank(chunks[i]) ==> chunks[i] in r
  {
    if |chunks| == 0 then []
    else
      var init := NonBlank(chunks[..|chunks| - 1]);
      if PyText.IsBlank(Last(chunks)) then init else init + [Last(chunks)]
  }

  /** One pass of the inner `for sep in ["\n\n", "\n", " "]` loop. */
  method FindSplit(remaining: string) returns (splitAt: nat)
    requires |remaining| > MaxMsgLen
    ensures splitAt == SplitPoint(remaining)
  {
    splitAt := MaxMsgLen;
    var i := 0;
    while i < |Separators|
      invariant 0 <= i <= |Separators|
      invariant splitAt == MaxMsgLen
      invariant CutWith(remaining, Separators) == CutWith(remaining, Separators[i..])
    {
      var sep := Separators[i];
      var idx := RFind(remaining, sep, MaxMsgLen);
      if idx > 0 {
        splitAt := idx + |sep|;
        return;
      }
      assert Separators[i..][1..] == Separators[i + 1..];
      i := i + 1;
    }
  }

  /** The closing filter `[c for c in chunks if c.strip()]`. */
  method DropBlank(chunks: seq<string>) returns (r: seq<string>)
    ensures r == NonBlank(chunks)
  {
    r := [];
    var j := 0;
    while j < |chunks|
      invariant 0 <= j <= |chunks|
      invariant r == NonBlank(chunks[..j])
    {
      assert chunks[..j + 1][..j] == chunks[..j];
      if !PyText.IsBlank(chunks[j]) {
        r := r + [chunks[j]];
      }
      j := j + 1;
    }
    assert chunks[..j] == chunks;
  }

  /** `_split_text(text)`. */
  method SplitText(text: string) returns (r: seq<string>)
    ensures |text| <= MaxMsgLen ==> r == [text]
    ensures |text| > MaxMsgLen ==> r == NonBlank(Pieces(text))
    ensures |text| > MaxMsgLen ==> forall i :: 0 <= i < |r| ==> 0 < |r[i]| <= MaxMsgLen && !PyText.IsBlank(r[i])
  {
    if |text| <= MaxMsgLen {
      return [text];
    }
    var chunks: seq<string> := [];
    var remaining := text;
    while |remaining| > 0
      invariant chunks + Pieces(remaining) == Pieces(text)
      decreases |remaining|
    {
      if |remaining| <= MaxMsgLen {
        assert Pieces(remaining) == [remaining];
        AppendAssoc(chunks, [remaining], Pieces([]));
        chunks := chunks + [remaining];
        remaining := [];
        break;
      }
      var splitAt := FindSplit(remaining);
      PiecesStep(remaining);
      AppendAssoc(chunks, [remaining[..splitAt]], Pieces(remaining[splitAt..]));
      chunks := chunks + [remaining[..splitAt]];
      remaining := remaining[splitAt..];
    }
    assert chunks == Pieces(text) by {
      assert Pieces(remaining) == [];
      assert chunks + [] == chunks;
    }
    r := DropBlank(chunks);
    NonBlankPiecesFit(text);
  }

  /** One turn of the loop: the first piece is cut at the split point. */
  lemma PiecesStep(s: string)
    requires |s| > MaxMsgLen
    ensures Pieces(s) == [s[..SplitPoint(s)]] + Pieces(s[SplitPoint(s)..])
  {
  }

  /** Every piece kept by the filter fits one message and is not blank. */
  lemma NonBlankPiecesFit(text: string)
    ensures forall i :: 0 <= i < |NonBlank(Pieces(text))| ==>
      0 < |NonBlank(Pieces(text))[i]| <= MaxMsgLen && !PyText.IsBlank(NonBlank(Pieces(text))[i])
  {
    var ps := Pieces(text);
    var r := NonBlank(ps);
    forall k | 0 <= k < |r| ensures 0 < |r[k]| <= MaxMsgLen {
      assert r[k] in ps;
    }
  }

  /** The filter drops nothing when no piece is blank, so the message is then delivered whole. */
  lemma {:induction false} NonBlankKeepsAll(chunks: seq<string>)
    requires forall i :: 0 <= i < |chunks| ==> !PyText.IsBlank(chunks[i])
    ensures NonBlank(chunks) == chunks
  {
    if |chunks| > 0 {
      var init := chunks[..|chunks| - 1];
      NonBlankKeepsAll(init);
      assert init + [Last(chunks)] == chunks;
    }
  }

  /** Filtering a list is filtering its two parts one after the other. */
  lemma {:induction false} NonBlankAppend(a: seq<string>, b: seq<string>)
    ensures NonBlank(a + b) == NonBlank(a) + NonBlank(b)
    decreases |b|
  {
    if |b| == 0 {
      assert a + b == a;
    } else {
      var b' := b[..|b| - 1];
      assert (a + b)[..|a + b| - 1] == a + b';
      assert Last(a + b) == Last(b);
      NonBlankAppend(a, b');
    }
  }

  /** A single chunk is kept exactly when it is not blank. */
  lemma NonBlankOne(c: string)
    ensures NonBlank([c]) == if PyText.IsBlank(c) then [] else [c]
  {
    assert [c][..0] == [];
  }

  /** The filter read front to back: each chunk is kept, in order, exactly when it is not blank. */
  lemma NonBlankFront(chunks: seq<string>)
    requires |chunks| > 0
    ensures NonBlank(chunks) == (if PyText.IsBlank(chunks[0]) then [] else [chunks[0]]) + NonBlank(chunks[1..])
  {
    var head, tail := [chunks[0]], chunks[1..];
    assert chunks == head + tail;
    NonBlankAppend(head, tail);
    NonBlankOne(chunks[0]);
  }

  /** Each chunk as the filter leaves it in place: itself, or nothing when it is blank. */
  function Blanked(chunks: seq<string>): seq<string> {
    seq(|chunks|, i requires 0 <= i < |chunks| => if PyText.IsBlank(chunks[i]) then "" else chunks[i])
  }

  /** The filter loses blank chunks only: the kept chunks concatenate to the chunks with every blank one emptied. */
  lemma {:induction false} ConcatNonBlank(chunks: seq<string>)
    ensures Concat(NonBlank(chunks)) == Concat(Blanked(chunks))
    decreases |chunks|
  {
    if |chunks| > 0 {
      var init := chunks[..|chunks| - 1];
      var x := Last(chunks);
      var y := if PyText.IsBlank(x) then "" else x;
      ConcatNonBlank(init);
      assert Blanked(chunks) == Blanked(init) + [y];
      ConcatAppend(Blanked(init), [y]);
      assert Concat([y]) == y by { assert [y][1..] == []; }
      if !PyText.IsBlank(x) {
        ConcatAppend(NonBlank(init), [x]);
        assert Concat([x]) == x by { assert [x][1..] == []; }
      } else {
        assert y == "" && Concat(Blanked(init)) + "" == Concat(Blanked(init));
      }
    }
  }

  /** Nothing but whitespace is lost: the pieces `_split_text` keeps concatenate to the text with every
      all-whitespace piece cut out, and a piece is cut out only when it is blank. */
  lemma SplitDropsOnlyBlank(text: string)
    ensures Concat(Pieces(text)) == text
    ensures Concat(NonBlank(Pieces(text))) == Concat(Blanked(Pieces(text)))
    ensures forall i :: 0 <= i < |Pieces(text)| ==>
      Blanked(Pieces(text))[i] == Pieces(text)[i] || PyText.IsBlank(Pieces(text)[i])
  {
    ConcatNonBlank(Pieces(text));
  }

  /** Lossless delivery of a long text none of whose pieces is blank: the pieces put back together give the text. */
  lemma SplitLossless(text: string)
    requires forall i :: 0 <= i < |Pieces(text)| ==> !PyText.IsBlank(Pieces(text)[i])
    ensures Concat(NonBlank(Pieces(text))) == text
  {
    NonBlankKeepsAll(Pieces(text));
  }
}
