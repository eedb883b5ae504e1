/** `markdown_to_telegram_html`: fenced blocks, tables and inline code are protected behind holes (steps 1 to 3),
    the rest is escaped (step 4) and styled (steps 5 to 9), and every protected part is then restored, escaped,
    inside `<pre>` or `<code>` (step 10). The styling steps are a parameter: any function on token streams; the
    bold step is given as one concrete instance. */
module Markdown {
  import opened Wrappers
  import opened Seqs
  import opened Tokens
  import PyText
  import Html
  import Fences
  import Tables
  import InlineCode

  /** The text after steps 1 to 3, with the contents they saved. */
  datatype Protected = Protected(
    toks: seq<Tok>,
    blocks: seq<Fences.Block>,
    tables: seq<seq<Tok>>,
    inlines: seq<seq<Tok>>)

  /** Steps 1 to 3 in the source's order. Every hole left in the text numbers one of the saved contents. */
  function Protect(text: string): (p: Protected)
    ensures HolesBelow(p.toks, |p.blocks|, |p.tables|, |p.inlines|)
  {
    var (t1, blocks) := Fences.ExtractFences(text);
    BlockHoles(t1, |blocks|);
    Tables.ExtractTablesHoles(t1, |blocks|);
    var (t2, tables) := Tables.ExtractTables(t1);
    InlineCode.ExtractHoles(t2, 0, |blocks|, |tables|);
    var (t3, inlines) := InlineCode.Extract(t2, 0);
    Protected(t3, blocks, tables, inlines)
  }

  lemma BlockHoles(t: seq<Tok>, nb: nat)
    requires Fences.BlockHolesIn(t, 0, nb)
    ensures HolesBelow(t, nb, 0, 0)
  {
    forall x: Tok | x in t && x.Ph? ensures HoleBelow(x.hole, nb, 0, 0) {
      var i :| 0 <= i < |t| && t[i] == x;
    }
  }

  /** The text a protected stream stands for: every hole written back out as what it replaced. */
  function Unprotect(p: Protected): string {
    Fences.Unfence(Tables.Untable(InlineCode.Uninline(p.toks, p.inlines), p.tables), p.blocks)
  }

  /** Steps 1 to 3 lose nothing. */
  lemma ProtectLossless(text: string)
    ensures Unprotect(Protect(text)) == text
  {
    var (t1, blocks) := Fences.ExtractFences(text);
    var (t2, tables) := Tables.ExtractTables(t1);
    var (t3, inlines) := InlineCode.Extract(t2, 0);
    BlockHoles(t1, |blocks|);
    Tables.ExtractTablesHoles(t1, |blocks|);
    assert InlineCode.NoInline(t2) by {
      forall i | 0 <= i < |t2| ensures !(t2[i].Ph? && t2[i].hole.InlineCode?) {
        assert t2[i] in t2;
      }
    }
    InlineCode.ExtractLossless(t2, 0, inlines);
    Tables.ExtractTablesLossless(t1);
    Fences.ExtractFencesLossless(text);
  }

  /** Step 4, `html.escape` of the whole text, on the token stream: every character escaped, every hole kept. */
  function EscapeToks(t: seq<Tok>): (r: seq<Tok>)
    ensures forall x :: x in r && x.Ph? ==> x in t
    ensures NulFree(t) ==> NulFree(r)
    decreases |t|
  {
    if |t| == 0 then []
    else
      var rest := EscapeToks(t[1..]);
      assert forall x :: x in t[1..] ==> x in t;
      assert t[0] in t;
      EscapeTok(t[0]) + rest
  }

  /** What escaping makes of one token: a character's replacement, or the hole itself. */
  function EscapeTok(x: Tok): (r: seq<Tok>)
    ensures forall y :: y in r && y.Ph? ==> y == x
    ensures x != Ch('\0') ==> Ch('\0') !in r
  {
    if x.Ch? then
      CharsNoHoles(Html.EscapeChar(x.c));
      Chars(Html.EscapeChar(x.c))
    else [x]
  }

  /** `html.escape` writes no NUL of its own. */
  lemma {:induction false} EscapeNoNul(s: string)
    requires NoNul(s)
    ensures NoNul(Html.Escape(s))
    decreases |s|
  {
    if |s| > 0 {
      EscapeNoNul(s[1..]);
      assert s[0] != '\0';
    }
  }

  /** A placeholder holds nothing `html.escape` rewrites. */
  lemma PlaceholderEscaped(h: Hole)
    ensures Html.Escape(Placeholder(h)) == Placeholder(h)
  {
    var tag, digits := Tag(h), PyText.NatToString(h.i);
    var r := Placeholder(h);
    forall i | 0 <= i < |r| ensures !Html.IsSpecial(r[i]) {
      if 1 <= i < 1 + |tag| {
        assert r[i] == tag[i - 1];
      } else if 1 + |tag| <= i < 1 + |tag| + |digits| {
        assert r[i] == digits[i - 1 - |tag|];
      }
    }
    Html.EscapeUnchangedIff(r);
  }

  /** Escaping the token stream is escaping the source's text: holes pass through `html.escape` unchanged. */
  lemma {:induction false} EscapeMatchesSource(t: seq<Tok>)
    ensures Spell(EscapeToks(t)) == Html.Escape(Spell(t))
    decreases |t|
  {
    if |t| > 0 {
      var head := EscapeTok(t[0]);
      var first := if t[0].Ch? then [t[0].c] else Placeholder(t[0].hole);
      SpellAppend(head, EscapeToks(t[1..]));
      EscapeMatchesSource(t[1..]);
      Html.EscapeAppend(first, Spell(t[1..]));
      if t[0].Ch? {
        SpellChars(Html.EscapeChar(t[0].c));
        assert [t[0].c][1..] == [];
      } else {
        PlaceholderEscaped(t[0].hole);
        assert Spell([t[0]]) == Placeholder(t[0].hole) + Spell([]);
      }
    }
  }

  /** A styling step moves holes around or drops them, and makes up none. */
  ghost predicate KeepsHoles(style: seq<Tok> -> seq<Tok>) {
    forall t, x :: x in style(t) && x.Ph? ==> x in t
  }

  /** A styling step writes no NUL character of its own. */
  ghost predicate KeepsNulFree(style: seq<Tok> -> seq<Tok>) {
    forall t :: NulFree(t) ==> NulFree(style(t))
  }

  const Star: Tok := Ch('*')

  /** Where the lazy group of `\*\*(.+?)\*\*` ends for a match opening at index 0, trying the content `t[2..q]`
      first and then longer ones: the first closing `**`, provided no newline comes before it (`.` does not
      match a newline). */
  function BoldClose(t: seq<Tok>, q: nat): (r: Option<nat>)
    requires 3 <= q
    requires forall i :: 2 <= i < q - 1 && i < |t| ==> t[i] != NL
    ensures r.Some? ==> q <= r.value && r.value + 2 <= |t| && t[r.value] == Star && t[r.value + 1] == Star
    ensures r.Some? ==> forall i :: 2 <= i < r.value ==> t[i] != NL
    ensures r.Some? ==> forall i :: q <= i < r.value ==> !(t[i] == Star && t[i + 1] == Star)
    decreases |t| - q
  {
    if q + 2 > |t| then None
    else if t[q - 1] == NL then None
    else if t[q] == Star && t[q + 1] == Star then Some(q)
    else BoldClose(t, q + 1)
  }

  /** Step 6, `re.sub(r"\*\*(.+?)\*\*", r"<b>\1</b>", text)`: scanning from the left, a match becomes its content
      between `<b>` and `</b>` and scanning resumes after it; elsewhere the token is kept. */
  function Bold(t: seq<Tok>): (r: seq<Tok>)
    decreases |t|
  {
    if |t| == 0 then []
    else if |t| >= 2 && t[0] == Star && t[1] == Star && BoldClose(t, 3).Some? then
      var q := BoldClose(t, 3).value;
      Chars("<b>") + t[2..q] + Chars("</b>") + Bold(t[q + 2..])
    else
      [t[0]] + Bold(t[1..])
  }

  /** One step of the bold scan at a match closing at `q`. */
  lemma BoldMatch(t: seq<Tok>)
    requires |t| >= 2 && t[0] == Star && t[1] == Star && BoldClose(t, 3).Some?
    ensures var q := BoldClose(t, 3).value;
      && 2 <= q && q + 2 <= |t|
      && Bold(t) == Chars("<b>") + t[2..q] + Chars("</b>") + Bold(t[q + 2..])
  {
  }

  /** One step of the bold scan where no match opens. */
  lemma BoldSkip(t: seq<Tok>)
    requires |t| > 0 && !(|t| >= 2 && t[0] == Star && t[1] == Star && BoldClose(t, 3).Some?)
    ensures Bold(t) == [t[0]] + Bold(t[1..])
  {
  }

  /** The bold step makes up no hole: every hole it writes was in its input. */
  lemma {:induction false} BoldHoles(t: seq<Tok>)
    ensures forall x :: x in Bold(t) && x.Ph? ==> x in t
    decreases |t|
  {
    if |t| > 0 {
      if |t| >= 2 && t[0] == Star && t[1] == Star && BoldClose(t, 3).Some? {
        var q := BoldClose(t, 3).value;
        BoldMatch(t);
        BoldHoles(t[q + 2..]);
        CharsNoHoles("<b>");
        CharsNoHoles("</b>");
        assert forall x :: x in t[2..q] ==> x in t;
        assert forall x :: x in t[q + 2..] ==> x in t;
      } else {
        BoldSkip(t);
        BoldHoles(t[1..]);
        assert forall x :: x in t[1..] ==> x in t;
      }
    }
  }

  /** The bold step writes no NUL of its own. */
  lemma {:induction false} BoldNulFree(t: seq<Tok>)
    requires NulFree(t)
    ensures NulFree(Bold(t))
    decreases |t|
  {
    if |t| > 0 {
      if |t| >= 2 && t[0] == Star && t[1] == Star && BoldClose(t, 3).Some? {
        var q := BoldClose(t, 3).value;
        BoldMatch(t);
        assert NulFree(t[q + 2..]) by { assert forall x :: x in t[q + 2..] ==> x in t; }
        BoldNulFree(t[q + 2..]);
        CharsNoHoles("<b>");
        CharsNoHoles("</b>");
        assert Ch('\0') !in Chars("<b>") && Ch('\0') !in Chars("</b>");
        assert forall x :: x in t[2..q] ==> x in t;
      } else {
        BoldSkip(t);
        assert NulFree(t[1..]) by { assert forall x :: x in t[1..] ==> x in t; }
        BoldNulFree(t[1..]);
        assert t[0] in t;
      }
    }
  }

  /** Without `*` the bold step leaves the text as it is. */
  lemma {:induction false} BoldWithoutStars(t: seq<Tok>)
    requires Star !in t
    ensures Bold(t) == t
    decreases |t|
  {
    if |t| > 0 {
      assert Star !in t[1..];
      BoldWithoutStars(t[1..]);
      assert t == [t[0]] + t[1..];
    }
  }

  /** The bold step is a styling step as the protection needs one: it keeps holes and writes no NUL. */
  lemma BoldIsStyle()
    ensures KeepsHoles(Bold) && KeepsNulFree(Bold)
  {
    forall t: seq<Tok> ensures forall x :: x in Bold(t) && x.Ph? ==> x in t {
      BoldHoles(t);
    }
    forall t: seq<Tok> | NulFree(t) ensures NulFree(Bold(t)) {
      BoldNulFree(t);
    }
  }

  /** `<pre>` around the escaped content, as step 10 writes a code block or a table. */
  function Pre(s: string): string {
    "<pre>" + Html.Escape(s) + "</pre>"
  }

  /** `<code>` around the escaped content, as step 10 writes an inline code span. */
  function CodeTag(s: string): string {
    "<code>" + Html.Escape(s) + "</code>"
  }

  /** One loop of step 10: every hole that has an image becomes the image's characters. */
  function Fill(t: seq<Tok>, img: Hole -> Option<string>): (r: seq<Tok>)
    decreases |t|
  {
    if |t| == 0 then []
    else FillTok(t[0], img) + Fill(t[1..], img)
  }

  function FillTok(x: Tok, img: Hole -> Option<string>): seq<Tok> {
    if x.Ph? && img(x.hole).Some? then Chars(img(x.hole).value) else [x]
  }

  lemma {:induction false} FillAppend(a: seq<Tok>, b: seq<Tok>, img: Hole -> Option<string>)
    ensures Fill(a + b, img) == Fill(a, img) + Fill(b, img)
    decreases |a|
  {
    if |a| == 0 {
      assert a + b == b;
    } else {
      assert (a + b)[0] == a[0];
      assert (a + b)[1..] == a[1..] + b;
      FillAppend(a[1..], b, img);
    }
  }

  lemma {:induction false} FillChars(s: string, img: Hole -> Option<string>)
    ensures Fill(Chars(s), img) == Chars(s)
    decreases |s|
  {
    if |s| > 0 {
      assert Chars(s)[1..] == Chars(s[1..]);
      FillChars(s[1..], img);
      assert Chars(s) == [Ch(s[0])] + Chars(s[1..]);
    }
  }

  /** The images step 10 writes for code blocks. */
  function BlockImage(p: Protected): Hole -> Option<string> {
    (h: Hole) => if h.CodeBlock? && h.i < |p.blocks| then Some(Pre(p.blocks[h.i].code)) else None
  }

  /** The images step 10 writes for tables: the saved table text, block placeholders and all. */
  function TableImageAsWritten(p: Protected): Hole -> Option<string> {
    (h: Hole) => if h.Table? && h.i < |p.tables| then Some(Pre(Spell(p.tables[h.i]))) else None
  }

  /** The images step 10 writes for inline code: the saved span text, block placeholders and all. */
  function InlineImageAsWritten(p: Protected): Hole -> Option<string> {
    (h: Hole) => if h.InlineCode? && h.i < |p.inlines| then Some(CodeTag(Spell(p.inlines[h.i]))) else None
  }

  /** The images of tables with any code block inside written back out as the fenced text it replaced. */
  function TableImage(p: Protected): Hole -> Option<string> {
    (h: Hole) => if h.Table? && h.i < |p.tables| then Some(Pre(Fences.Unfence(p.tables[h.i], p.blocks))) else None
  }

  /** The images of inline code with any code block inside written back out as the fenced text it replaced. */
  function InlineImage(p: Protected): Hole -> Option<string> {
    (h: Hole) => if h.InlineCode? && h.i < |p.inlines| then Some(CodeTag(Fences.Unfence(p.inlines[h.i], p.blocks))) else None
  }

  /** The styled text before step 10. */
  function Styled(p: Protected, style: seq<Tok> -> seq<Tok>): seq<Tok> {
    style(EscapeToks(p.toks))
  }

  /** `markdown_to_telegram_html` as the source writes it: the code block loop of step 10 runs first, so a block
      saved inside a table or an inline span is restored as its placeholder. */
  function RenderAsWritten(text: string, style: seq<Tok> -> seq<Tok>): string {
    var p := Protect(text);
    Spell(Fill(Fill(Fill(Styled(p, style), BlockImage(p)), TableImageAsWritten(p)), InlineImageAsWritten(p)))
  }

  /** `markdown_to_telegram_html` with the restore the protection promises: every table and inline span written
      with the text it was saved from. */
  function Render(text: string, style: seq<Tok> -> seq<Tok>): string {
    var p := Protect(text);
    Spell(Fill(Fill(Fill(Styled(p, style), BlockImage(p)), TableImage(p)), InlineImage(p)))
  }

  /** The text of the input a hole replaced, when the hole numbers a saved content. */
  function Original(p: Protected, h: Hole): Option<string> {
    match h
    case CodeBlock(i) => if i < |p.blocks| then Some(p.blocks[i].code) else None
    case Table(i) => if i < |p.tables| then Some(Fences.Unfence(p.tables[i], p.blocks)) else None
    case InlineCode(i) => if i < |p.inlines| then Some(Fences.Unfence(p.inlines[i], p.blocks)) else None
  }

  /** Restoring as one pass: characters as they are, a hole with an image as the image, any other hole as its
      placeholder. */
  function Expand(t: seq<Tok>, img: Hole -> Option<string>): string
    decreases |t|
  {
    if |t| == 0 then "" else ExpandTok(t[0], img) + Expand(t[1..], img)
  }

  /** What one token is restored as: a character as itself, a hole as its image or else its placeholder. */
  function ExpandTok(x: Tok, img: Hole -> Option<string>): string {
    if x.Ch? then [x.c] else if img(x.hole).Some? then img(x.hole).value else Placeholder(x.hole)
  }

  /** The first of three images. */
  function FirstOf(f1: Hole -> Option<string>, f2: Hole -> Option<string>, f3: Hole -> Option<string>)
    : Hole -> Option<string>
  {
    (h: Hole) => if f1(h).Some? then f1(h) else if f2(h).Some? then f2(h) else f3(h)
  }

  lemma FillOne(x: Tok, f: Hole -> Option<string>)
    ensures Fill([x], f) == FillTok(x, f)
  {
    assert Fill([x], f) == FillTok(x, f) + Fill([], f);
  }

  lemma FillTokStep(x: Tok, f1: Hole -> Option<string>, f2: Hole -> Option<string>, f3: Hole -> Option<string>)
    ensures Spell(Fill(Fill(FillTok(x, f1), f2), f3)) == Expand([x], FirstOf(f1, f2, f3))
  {
    var g := FirstOf(f1, f2, f3);
    var out := ExpandTok(x, g);
    ExpandOne(x, g);
    if x.Ph? && f1(x.hole).Some? {
      FillChars(f1(x.hole).value, f2);
      FillChars(f1(x.hole).value, f3);
      SpellChars(f1(x.hole).value);
    } else {
      assert FillTok(x, f1) == [x];
      FillOne(x, f2);
      if x.Ph? && f2(x.hole).Some? {
        var v := f2(x.hole).value;
        FillChars(v, f3);
        SpellChars(v);
        assert g(x.hole) == f2(x.hole);
      } else {
        assert FillTok(x, f2) == [x];
        FillOne(x, f3);
        if x.Ph? && f3(x.hole).Some? {
          var v := f3(x.hole).value;
          SpellChars(v);
          assert g(x.hole) == f3(x.hole);
        } else {
          assert FillTok(x, f3) == [x];
          assert Spell([x]) == out + Spell([]);
        }
      }
    }
  }

  /** The three loops of step 10 in turn are one pass in which each hole takes the first image it has: the images
      are plain characters, so no loop can touch what an earlier one wrote. */
  lemma {:induction false} FillThrice(t: seq<Tok>, f1: Hole -> Option<string>, f2: Hole -> Option<string>,
                                      f3: Hole -> Option<string>)
    ensures Spell(Fill(Fill(Fill(t, f1), f2), f3)) == Expand(t, FirstOf(f1, f2, f3))
    decreases |t|
  {
    if |t| > 0 {
      var x, r := t[0], t[1..];
      var a := FillTok(x, f1);
      var b := Fill(r, f1);
      assert Fill(t, f1) == a + b;
      FillAppend(a, b, f2);
      FillAppend(Fill(a, f2), Fill(b, f2), f3);
      SpellAppend(Fill(Fill(a, f2), f3), Fill(Fill(b, f2), f3));
      FillTokStep(x, f1, f2, f3);
      FillThrice(r, f1, f2, f3);
      ExpandCons(t, FirstOf(f1, f2, f3));
    }
  }

  lemma ExpandCons(t: seq<Tok>, g: Hole -> Option<string>)
    requires |t| > 0
    ensures Expand(t, g) == Expand([t[0]], g) + Expand(t[1..], g)
  {
    ExpandOne(t[0], g);
  }

  lemma ExpandOne(x: Tok, g: Hole -> Option<string>)
    ensures Expand([x], g) == ExpandTok(x, g)
  {
    assert [x][1..] == [];
    assert Expand([x], g) == ExpandTok(x, g) + Expand([], g);
  }

  /** Images that agree on every hole expand alike. */
  lemma {:induction false} ExpandSame(t: seq<Tok>, f: Hole -> Option<string>, g: Hole -> Option<string>)
    requires forall h :: f(h) == g(h)
    ensures Expand(t, f) == Expand(t, g)
    decreases |t|
  {
    if |t| > 0 {
      ExpandSame(t[1..], f, g);
    }
  }

  /** The image of a hole: its original text escaped once, inside `<code>` for inline code and `<pre>` otherwise. */
  function Image(p: Protected): Hole -> Option<string> {
    (h: Hole) => match Original(p, h)
      case Some(s) => Some(if h.InlineCode? then CodeTag(s) else Pre(s))
      case None => None
  }

  /** What the output is: the styled text with every hole replaced by the wrap of the input text it protected,
      whatever the styling steps did around it. */
  lemma RenderRestoresOriginals(text: string, style: seq<Tok> -> seq<Tok>)
    ensures var p := Protect(text); Render(text, style) == Expand(Styled(p, style), Image(p))
  {
    var p := Protect(text);
    var t := Styled(p, style);
    var g := FirstOf(BlockImage(p), TableImage(p), InlineImage(p));
    FillThrice(t, BlockImage(p), TableImage(p), InlineImage(p));
    ImagesAgree(p);
    ExpandSame(t, g, Image(p));
  }

  /** The three loops' images, the first that applies, are the image of each hole. */
  lemma ImagesAgree(p: Protected)
    ensures forall h :: FirstOf(BlockImage(p), TableImage(p), InlineImage(p))(h) == Image(p)(h)
  {
    forall h ensures FirstOf(BlockImage(p), TableImage(p), InlineImage(p))(h) == Image(p)(h) {
      match h
      case CodeBlock(i) =>
      case Table(i) =>
      case InlineCode(i) =>
    }
  }

  /** The same decomposition of the source's restore: tables and inline spans are written as their saved text, in
      which any code block is still a placeholder. */
  lemma RenderAsWrittenRestoresSaved(text: string, style: seq<Tok> -> seq<Tok>)
    ensures var p := Protect(text);
      RenderAsWritten(text, style) == Expand(Styled(p, style), FirstOf(BlockImage(p), TableImageAsWritten(p),
                                                                      InlineImageAsWritten(p)))
  {
    var p := Protect(text);
    FillThrice(Styled(p, style), BlockImage(p), TableImageAsWritten(p), InlineImageAsWritten(p));
  }

  /** The correction changes nothing else: when no saved table or inline span holds a hole, the source's restore
      and the corrected one write the same HTML. */
  lemma AsWrittenAgreesWithoutNesting(text: string, style: seq<Tok> -> seq<Tok>)
    ensures var p := Protect(text);
      (forall i :: 0 <= i < |p.tables| ==> NoHoles(p.tables[i])) && (forall i :: 0 <= i < |p.inlines| ==> NoHoles(p.inlines[i]))
      ==> RenderAsWritten(text, style) == Render(text, style)
  {
    var p := Protect(text);
    if (forall i :: 0 <= i < |p.tables| ==> NoHoles(p.tables[i])) && (forall i :: 0 <= i < |p.inlines| ==> NoHoles(p.inlines[i])) {
      var t := Styled(p, style);
      var f := FirstOf(BlockImage(p), TableImageAsWritten(p), InlineImageAsWritten(p));
      var g := FirstOf(BlockImage(p), TableImage(p), InlineImage(p));
      forall h ensures f(h) == g(h) {
        match h
        case CodeBlock(i) =>
        case Table(i) =>
          if i < |p.tables| { SpellIsUnfence(p.tables[i], p.blocks); }
        case InlineCode(i) =>
          if i < |p.inlines| { SpellIsUnfence(p.inlines[i], p.blocks); }
      }
      FillThrice(t, BlockImage(p), TableImageAsWritten(p), InlineImageAsWritten(p));
      FillThrice(t, BlockImage(p), TableImage(p), InlineImage(p));
      ExpandSame(t, f, g);
    }
  }

  /** A stream without holes spells as the text it stands for before step 1. */
  lemma {:induction false} SpellIsUnfence(t: seq<Tok>, blocks: seq<Fences.Block>)
    requires NoHoles(t)
    ensures Spell(t) == Fences.Unfence(t, blocks)
    decreases |t|
  {
    if |t| > 0 {
      assert NoHoles(t[1..]) by { assert forall i :: 0 <= i < |t[1..]| ==> t[1..][i] == t[i + 1]; }
      SpellIsUnfence(t[1..], blocks);
      assert t[0].Ch?;
    }
  }

  /** With a styling step that keeps holes, every hole reaching step 10 has an image: no placeholder is written
      for a hole of the styled text. */
  lemma AllHolesRestored(text: string, style: seq<Tok> -> seq<Tok>)
    requires KeepsHoles(style)
    ensures var p := Protect(text);
      forall x :: x in Styled(p, style) && x.Ph? ==> Original(p, x.hole).Some?
  {
    var p := Protect(text);
    forall x | x in Styled(p, style) && x.Ph? ensures Original(p, x.hole).Some? {
      assert x in EscapeToks(p.toks);
      assert HoleBelow(x.hole, |p.blocks|, |p.tables|, |p.inlines|);
    }
  }

  /** Everything steps 1 to 3 saved or left is NUL-free. */
  predicate ProtectedNulFree(p: Protected) {
    && NulFree(p.toks)
    && (forall i :: 0 <= i < |p.blocks| ==> Fences.BlockNulFree(p.blocks[i]))
    && Tables.LinesNulFree(p.tables)
    && Tables.LinesNulFree(p.inlines)
  }

  lemma ProtectNulFree(text: string)
    requires NoNul(text)
    ensures ProtectedNulFree(Protect(text))
  {
    var (t1, blocks) := Fences.ExtractFences(text);
    var (t2, tables) := Tables.ExtractTables(t1);
    Fences.ExtractFencesNulFree(text);
    Tables.ExtractTablesNulFree(t1);
    InlineCode.ExtractNulFree(t2, 0);
  }

  /** Expanding a NUL-free stream whose every hole has a NUL-free image writes no NUL. */
  lemma {:induction false} ExpandNoNul(t: seq<Tok>, img: Hole -> Option<string>)
    requires NulFree(t)
    requires forall x :: x in t && x.Ph? ==> img(x.hole).Some? && NoNul(img(x.hole).value)
    ensures NoNul(Expand(t, img))
    decreases |t|
  {
    if |t| > 0 {
      assert t[0] in t;
      assert forall x :: x in t[1..] ==> x in t;
      ExpandNoNul(t[1..], img);
    }
  }

  lemma WrapNoNul(s: string)
    requires NoNul(s)
    ensures NoNul(Pre(s)) && NoNul(CodeTag(s))
  {
    EscapeNoNul(s);
  }

  /** The protection keeps its promise with the corrected restore: a NUL-free text renders to NUL-free HTML, so no
      placeholder survives, whatever the styling steps do so long as they keep holes and write no NUL. */
  lemma RenderNoNul(text: string, style: seq<Tok> -> seq<Tok>)
    requires NoNul(text) && KeepsHoles(style) && KeepsNulFree(style)
    ensures NoNul(Render(text, style))
  {
    var p := Protect(text);
    ProtectNulFree(text);
    AllHolesRestored(text, style);
    RenderRestoresOriginals(text, style);
    var t := Styled(p, style);
    forall x | x in t && x.Ph? ensures Image(p)(x.hole).Some? && NoNul(Image(p)(x.hole).value) {
      var h := x.hole;
      match h
      case CodeBlock(i) =>
        WrapNoNul(p.blocks[i].code);
      case Table(i) =>
        Fences.UnfenceNulFree(p.tables[i], p.blocks);
        WrapNoNul(Fences.Unfence(p.tables[i], p.blocks));
      case InlineCode(i) =>
        Fences.UnfenceNulFree(p.inlines[i], p.blocks);
        WrapNoNul(Fences.Unfence(p.inlines[i], p.blocks));
    }
    ExpandNoNul(t, Image(p));
  }

  /** Escaping leaves a text without special characters as it is. */
  lemma {:induction false} EscapeToksPlain(s: string)
    requires forall i :: 0 <= i < |s| ==> !Html.IsSpecial(s[i])
    ensures EscapeToks(Chars(s)) == Chars(s)
    decreases |s|
  {
    if |s| > 0 {
      var t := Chars(s);
      assert t[1..] == Chars(s[1..]);
      EscapeToksPlain(s[1..]);
      assert EscapeTok(t[0]) == [Ch(s[0])] by {
        assert Html.EscapeChar(s[0]) == [s[0]];
      }
      assert EscapeToks(t) == EscapeTok(t[0]) + EscapeToks(t[1..]);
      assert t == [t[0]] + t[1..];
    }
  }

  /** Restoring a stream without holes spells its characters. */
  lemma {:induction false} ExpandChars(s: string, img: Hole -> Option<string>)
    ensures Expand(Chars(s), img) == s
    decreases |s|
  {
    if |s| > 0 {
      assert Chars(s)[1..] == Chars(s[1..]);
      ExpandChars(s[1..], img);
    }
  }
}
