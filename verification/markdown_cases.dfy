/** What `markdown_to_telegram_html` makes of particular inputs: plain text, a lone fenced block, and a fenced
    block inside an inline code span, the input on which the source's restore leaves a placeholder behind. */
module MarkdownCases {
  import opened Wrappers
  import opened Seqs
  import opened Tokens
  import Html
  import PyText
  import Fences
  import Tables
  import InlineCode
  import opened Markdown

  /** Text with none of the characters the protection or the bold step looks at, and nothing to escape. */
  predicate Plain(s: string) {
    forall i :: 0 <= i < |s| ==> s[i] != '`' && s[i] != '|' && s[i] != '*' && !Html.IsSpecial(s[i])
  }

  /** Steps 1 to 3 find nothing in plain text. */
  lemma ProtectPlain(s: string)
    requires Plain(s)
    ensures Protect(s) == Protected(Chars(s), [], [], [])
  {
    FindFromFirst(s, Fences.Fence, 0);
    NeverOccurs(s, Fences.Fence);
    assert Fences.NextBlock(s, 0).None?;
    assert Fences.Scan(s, 0) == [];
    assert s[0..] == s;
    var t := Chars(s);
    assert Fences.ExtractFences(s) == (t, []);
    SplitPiecesIn(t, NL);
    assert Tables.Pipe !in t;
    Tables.NoSeparatorUnchanged(t);
    assert InlineCode.Tick !in t;
    InlineCode.NoTickUnchanged(t, 0);
  }

  /** Plain text comes out exactly as it went in, with the source's restore and with the corrected one. */
  lemma PlainTextUnchanged(s: string)
    requires Plain(s)
    ensures Render(s, Bold) == s && RenderAsWritten(s, Bold) == s
  {
    ProtectPlain(s);
    var p := Protect(s);
    EscapeToksPlain(s);
    assert Star !in Chars(s);
    BoldWithoutStars(Chars(s));
    RenderRestoresOriginals(s, Bold);
    ExpandChars(s, Image(p));
    RenderAsWrittenRestoresSaved(s, Bold);
    ExpandChars(s, FirstOf(BlockImage(p), TableImageAsWritten(p), InlineImageAsWritten(p)));
  }

  /** A fenced block opened with a language word: `WordEnd` stops at the newline after the word. */
  lemma LangEnd(s: string, lang: string)
    requires |s| > 3 + |lang| && s[3..3 + |lang|] == lang && s[3 + |lang|] == '\n'
    requires forall i :: 0 <= i < |lang| ==> Fences.IsWordChar(lang[i])
    ensures Fences.WordEnd(s, 3) == 3 + |lang|
  {
    Fences.WordEndSpec(s, 3);
  }

  /** The fence pattern on a lone fenced block whose content holds no backtick: one match, spanning the text. */
  lemma FencedMatch(lang: string, code: string)
    requires forall i :: 0 <= i < |lang| ==> Fences.IsWordChar(lang[i])
    requires '`' !in code
    ensures var s := "```" + lang + "\n" + code + "```";
      Fences.NextBlock(s, 0) == Some(Fences.Found(0, Fences.Block(lang + "\n", code), |s| - 3))
  {
    var s := "```" + lang + "\n" + code + "```";
    var q := 4 + |lang|;
    var c := q + |code|;
    assert |s| == c + 3;
    assert s[..3] == Fences.Fence && s[3..3 + |lang|] == lang && s[3 + |lang|] == '\n';
    assert s[q..c] == code && s[c..] == Fences.Fence;
    assert OccursAt(s, Fences.Fence, 0) by { assert s[0..3] == s[..3]; }
    FindFromIs(s, Fences.Fence, 0, 0);
    LangEnd(s, lang);
    assert Fences.ContentStart(s, 0) == q;
    forall j | q <= j < c ensures !OccursAt(s, Fences.Fence, j) {
      assert s[j] == code[j - q];
    }
    assert OccursAt(s, Fences.Fence, c) by { assert s[c..c + 3] == s[c..]; }
    FindFromIs(s, Fences.Fence, q, c);
    assert s[3..q] == lang + "\n";
  }

  /** Step 1 on a lone fenced block whose content holds no backtick. */
  lemma ProtectFenced(lang: string, code: string)
    requires forall i :: 0 <= i < |lang| ==> Fences.IsWordChar(lang[i])
    requires '`' !in code
    ensures Fences.ExtractFences("```" + lang + "\n" + code + "```") == ([Ph(CodeBlock(0))], [Fences.Block(lang + "\n", code)])
  {
    var s := "```" + lang + "\n" + code + "```";
    var b := Fences.Block(lang + "\n", code);
    var c := |s| - 3;
    var f := Fences.Found(0, b, c);
    FencedMatch(lang, code);
    Fences.ScanUnfold(s, 0);
    assert Fences.Scan(s, c + 3) == [];
    assert Fences.Scan(s, 0) == [f];
    Fences.ScanLaid(s, 0);
    assert Fences.Substitute(s, c + 3, [], 1) == [];
    assert Fences.Substitute(s, 0, [f], 0) == Chars(s[0..0]) + [Ph(CodeBlock(0))] + [];
    assert Fences.Blocks([f]) == [b];
    assert Chars(s[0..0]) + [Ph(CodeBlock(0))] + [] == [Ph(CodeBlock(0))];
  }

  /** A lone fenced block renders as its content escaped inside `<pre>`, the language word dropped and nothing in
      it styled. */
  lemma FencedBlockVerbatim(lang: string, code: string)
    requires forall i :: 0 <= i < |lang| ==> Fences.IsWordChar(lang[i])
    requires '`' !in code
    ensures Render("```" + lang + "\n" + code + "```", Bold) == Pre(code)
    ensures RenderAsWritten("```" + lang + "\n" + code + "```", Bold) == Pre(code)
  {
    var s := "```" + lang + "\n" + code + "```";
    ProtectFenced(lang, code);
    var t := [Ph(CodeBlock(0))];
    SplitFree(t, NL);
    Tables.NoSeparatorUnchanged(t);
    InlineCode.NoTickUnchanged(t, 0);
    var p := Protect(s);
    assert p == Protected(t, [Fences.Block(lang + "\n", code)], [], []);
    assert EscapeToks(t) == t;
    BoldWithoutStars(t);
    RenderRestoresOriginals(s, Bold);
    assert Expand(t, Image(p)) == Pre(code) + Expand([], Image(p));
    RenderAsWrittenRestoresSaved(s, Bold);
    var g := FirstOf(BlockImage(p), TableImageAsWritten(p), InlineImageAsWritten(p));
    assert Expand(t, g) == Pre(code) + Expand([], g);
  }

  /** A fenced block written inside an inline code span. */
  const Sample: string := "`a```x```b`"

  /** Step 1 on the sample: the fence pattern matches from the second backtick run, with head `x` and empty
      content. */
  lemma SampleFences()
    ensures Fences.ExtractFences(Sample)
         == ([Ch('`'), Ch('a'), Ph(CodeBlock(0)), Ch('b'), Ch('`')], [Fences.Block("x", "")])
  {
    var s := Sample;
    assert s[0] == '`' && s[1] == 'a' && s[2] == '`' && s[3] == '`' && s[4] == '`' && s[5] == 'x';
    assert s[6] == '`' && s[7] == '`' && s[8] == '`' && s[9] == 'b' && s[10] == '`' && |s| == 11;
    assert !OccursAt(s, Fences.Fence, 0) by { assert s[0..3][1] == 'a'; }
    assert !OccursAt(s, Fences.Fence, 1) by { assert s[1..4][0] == 'a'; }
    assert OccursAt(s, Fences.Fence, 2);
    FindFromIs(s, Fences.Fence, 0, 2);
    assert Fences.WordEnd(s, 6) == 6;
    assert Fences.WordEnd(s, 5) == 6;
    assert Fences.ContentStart(s, 2) == 6;
    assert OccursAt(s, Fences.Fence, 6);
    FindFromIs(s, Fences.Fence, 6, 6);
    assert s[5..6] == "x" && s[6..6] == "";
    var b := Fences.Block("x", "");
    assert Fences.MatchAt(s, 2) == Some((b, 6));
    var f := Fences.Found(2, b, 6);
    assert Fences.NextBlock(s, 0) == Some(f);
    assert Fences.Scan(s, 9) == [];
    assert Fences.Scan(s, 0) == [f];
    Fences.ScanLaid(s, 0);
    assert Fences.Substitute(s, 9, [], 1) == Chars(s[9..]);
    assert Chars(s[9..]) == [Ch('b'), Ch('`')];
    assert Chars(s[0..2]) == [Ch('`'), Ch('a')];
    assert [f][1..] == [];
    assert Fences.Substitute(s, 0, [f], 0) == Chars(s[0..2]) + [Ph(CodeBlock(0))] + Fences.Substitute(s, 9, [], 1);
    assert Fences.Blocks([f]) == [b];
    assert Fences.ExtractFences(s).1 == [b];
    assert Fences.ExtractFences(s).0 == [Ch('`'), Ch('a'), Ph(CodeBlock(0)), Ch('b'), Ch('`')];
  }

  /** Step 3 on the sample: the whole of it is one inline span, whose content holds the block's hole. */
  lemma SampleInline()
    ensures InlineCode.Extract([Ch('`'), Ch('a'), Ph(CodeBlock(0)), Ch('b'), Ch('`')], 0)
         == ([Ph(Hole.InlineCode(0))], [[Ch('a'), Ph(CodeBlock(0)), Ch('b')]])
  {
    var t := [Ch('`'), Ch('a'), Ph(CodeBlock(0)), Ch('b'), Ch('`')];
    assert InlineCode.Stop(t, 4) == 4;
    assert InlineCode.Stop(t, 3) == 4;
    assert InlineCode.Stop(t, 2) == 4;
    assert InlineCode.Stop(t, 1) == 4;
    assert InlineCode.SpanEnd(t) == Some(4);
    assert t[5..] == [];
    assert t[1..4] == [Ch('a'), Ph(CodeBlock(0)), Ch('b')];
    assert InlineCode.Extract([], 1) == ([], []);
    var r := InlineCode.Extract(t, 0);
    assert r.0 == [Ph(Hole.InlineCode(0))] + [];
    assert r.1 == [t[1..4]] + [];
    assert [t[1..4]] + [] == [t[1..4]];
    assert |r.1| == 1;
    assert r.1[0] == t[1..4];
    assert r.1[0] == [Ch('a'), Ph(CodeBlock(0)), Ch('b')];
    assert r.1 == [[Ch('a'), Ph(CodeBlock(0)), Ch('b')]];
    assert r.0 == [Ph(Hole.InlineCode(0))];
  }

  /** Steps 1 to 3 on the sample. */
  lemma SampleProtect()
    ensures Protect(Sample) == SampleProtected
  {
    SampleFences();
    var t := [Ch('`'), Ch('a'), Ph(CodeBlock(0)), Ch('b'), Ch('`')];
    SplitFree(t, NL);
    Tables.NoSeparatorUnchanged(t);
    SampleInline();
  }

  /** The saved span of the sample as the source holds it: the block's placeholder between `a` and `b`. */
  lemma SampleSpanSpelled()
    ensures Spell([Ch('a'), Ph(CodeBlock(0)), Ch('b')]) == "a\0CB0\0b"
  {
    var saved := [Ch('a'), Ph(CodeBlock(0)), Ch('b')];
    assert PyText.NatToString(0) == "0";
    assert Placeholder(CodeBlock(0)) == "\0CB0\0";
    assert Spell(saved) == "a" + Spell(saved[1..]);
    assert Spell(saved[1..]) == "\0CB0\0" + Spell(saved[2..]);
    assert Spell(saved[2..]) == "b" + Spell([]);
  }

  lemma SampleSpanEscaped()
    ensures Html.Escape("a\0CB0\0b") == "a\0CB0\0b"
  {
    Html.EscapeUnchangedIff("a\0CB0\0b");
  }

  /** The saved span of the sample with its block written back out. */
  lemma SampleSpanUnfenced()
    ensures Fences.Unfence([Ch('a'), Ph(CodeBlock(0)), Ch('b')], [Fences.Block("x", "")]) == "a```x```b"
  {
    var saved := [Ch('a'), Ph(CodeBlock(0)), Ch('b')];
    var blocks := [Fences.Block("x", "")];
    assert Fences.Unfence(saved, blocks) == "a" + Fences.Unfence(saved[1..], blocks);
    assert Fences.Unfence(saved[1..], blocks) == "```x```" + Fences.Unfence(saved[2..], blocks);
    assert Fences.Unfence(saved[2..], blocks) == "b" + Fences.Unfence([], blocks);
  }

  lemma SampleTextEscaped()
    ensures Html.Escape("a```x```b") == "a```x```b"
  {
    Html.EscapeUnchangedIff("a```x```b");
  }

  /** What steps 1 to 3 make of the sample. */
  const SampleProtected: Protected :=
    Protected([Ph(Hole.InlineCode(0))], [Fences.Block("x", "")], [], [[Ch('a'), Ph(CodeBlock(0)), Ch('b')]])

  /** The styled sample: escaping and the bold step leave the lone hole alone. */
  lemma SampleStyled(text: string)
    requires Protect(text) == SampleProtected
    ensures Styled(Protect(text), Bold) == [Ph(Hole.InlineCode(0))]
  {
    var t := [Ph(Hole.InlineCode(0))];
    assert EscapeToks(t) == t;
    BoldWithoutStars(t);
  }

  lemma SampleAsWritten(text: string)
    requires Protect(text) == SampleProtected
    ensures RenderAsWritten(text, Bold) == CodeTag("a\0CB0\0b")
  {
    var p := Protect(text);
    var g := FirstOf(BlockImage(p), TableImageAsWritten(p), InlineImageAsWritten(p));
    SampleStyled(text);
    RenderAsWrittenRestoresSaved(text, Bold);
    SampleImageAsWritten(text);
    ExpandOne(Ph(Hole.InlineCode(0)), g);
  }

  /** The source's restore writes the sample's span with the placeholder inside. */
  lemma SampleImageAsWritten(text: string)
    requires Protect(text) == SampleProtected
    ensures var p := Protect(text);
      FirstOf(BlockImage(p), TableImageAsWritten(p), InlineImageAsWritten(p))(Hole.InlineCode(0))
      == Some(CodeTag("a\0CB0\0b"))
  {
    SampleSpanSpelled();
  }

  lemma SampleCorrected(text: string)
    requires Protect(text) == SampleProtected
    ensures Render(text, Bold) == CodeTag("a```x```b")
  {
    var p := Protect(text);
    SampleStyled(text);
    RenderRestoresOriginals(text, Bold);
    SampleImage(text);
    ExpandOne(Ph(Hole.InlineCode(0)), Image(p));
  }

  /** The corrected restore writes the sample's span with the fenced text inside. */
  lemma SampleImage(text: string)
    requires Protect(text) == SampleProtected
    ensures Image(Protect(text))(Hole.InlineCode(0)) == Some(CodeTag("a```x```b"))
  {
    SampleSpanUnfenced();
  }

  lemma SampleNulFree()
    ensures NoNul(Sample)
  {
  }

  /** `<code>` around a text that `html.escape` leaves as it is. */
  lemma CodeTagPlain(s: string)
    requires Html.Escape(s) == s
    ensures CodeTag(s) == "<code>" + s + "</code>"
  {
  }

  /** The rendered sample holds the NUL characters of the placeholder. */
  lemma LeakedNul()
    ensures !NoNul("<code>" + "a\0CB0\0b" + "</code>")
  {
    assert ("<code>" + "a\0CB0\0b" + "</code>")[7] == "a\0CB0\0b"[1];
  }

  /** The sample with the source's restore: the block's placeholder, NUL characters and all, is written inside
      the `<code>` element, though the input holds no NUL. */
  lemma SourceLeaksPlaceholder()
    ensures NoNul(Sample)
    ensures RenderAsWritten(Sample, Bold) == "<code>" + "a\0CB0\0b" + "</code>"
    ensures !NoNul(RenderAsWritten(Sample, Bold))
  {
    SampleNulFree();
    SampleProtect();
    SampleAsWritten(Sample);
    SampleSpanEscaped();
    CodeTagPlain("a\0CB0\0b");
    LeakedNul();
  }

  /** The sample with the corrected restore: the inline span comes back with the fenced text it held. */
  lemma CorrectedRestoresSample()
    ensures Render(Sample, Bold) == "<code>" + "a```x```b" + "</code>"
  {
    SampleProtect();
    SampleCorrected(Sample);
    SampleTextEscaped();
    CodeTagPlain("a```x```b");
  }
}
