/** The text the markdown renderer works on once parts of it are protected: ordinary characters, and holes that
    stand for a protected fenced block, table or inline code span. The source writes a hole as a placeholder
    string framed by NUL characters; here it is one indivisible token, which is the same thing for any input
    without NUL characters, since no other step can then produce, split or match a placeholder. */
module Tokens {
  import PyText

  datatype Hole = CodeBlock(i: nat) | Table(i: nat) | InlineCode(i: nat)

  datatype Tok = Ch(c: char) | Ph(hole: Hole)

  const NL: Tok := Ch('\n')

  /** A plain string as a token stream. */
  function Chars(s: string): (r: seq<Tok>)
    ensures |r| == |s|
    ensures forall i :: 0 <= i < |s| ==> r[i] == Ch(s[i])
  {
    seq(|s|, i requires 0 <= i < |s| => Ch(s[i]))
  }

  lemma CharsAppend(a: string, b: string)
    ensures Chars(a + b) == Chars(a) + Chars(b)
  {
  }

  /** No hole of any kind. */
  predicate NoHoles(toks: seq<Tok>) {
    forall i :: 0 <= i < |toks| ==> toks[i].Ch?
  }

  /** A plain string has no hole, and none of its characters is anything but itself. */
  lemma CharsNoHoles(s: string)
    ensures NoHoles(Chars(s)) && forall x :: x in Chars(s) ==> x.Ch? && x.c in s
  {
  }

  /** No hole of the given table kind. */
  predicate NoTables(toks: seq<Tok>) {
    forall i :: 0 <= i < |toks| ==> !(toks[i].Ph? && toks[i].hole.Table?)
  }

  /** No NUL character: the placeholders cannot be forged. */
  predicate NoNul(s: string) {
    forall i :: 0 <= i < |s| ==> s[i] != '\0'
  }

  lemma NoNulAppend(a: string, b: string)
    requires NoNul(a) && NoNul(b)
    ensures NoNul(a + b)
  {
    assert forall i :: |a| <= i < |a| + |b| ==> (a + b)[i] == b[i - |a|];
  }

  /** No NUL character token: the stream holds no forged placeholder. */
  predicate NulFree(toks: seq<Tok>) {
    Ch('\0') !in toks
  }

  /** The placeholder string the source writes for a hole: NUL, a tag, the index in decimal, NUL. */
  function Placeholder(h: Hole): (r: string)
    ensures |r| >= 3 && r[0] == '\0' && r[|r| - 1] == '\0'
  {
    "\0" + Tag(h) + PyText.NatToString(h.i) + "\0"
  }

  /** The letters naming the kind of a hole in its placeholder. */
  function Tag(h: Hole): string {
    match h
    case CodeBlock(_) => "CB"
    case Table(_) => "TBL"
    case InlineCode(_) => "IC"
  }

  /** The text a token stream stands for in the source, holes written as their placeholders. */
  function Spell(toks: seq<Tok>): string
  {
    if |toks| == 0 then ""
    else (if toks[0].Ch? then [toks[0].c] else Placeholder(toks[0].hole)) + Spell(toks[1..])
  }

  /** Spelling a stream without holes gives back its characters. */
  lemma {:induction false} SpellChars(s: string)
    ensures Spell(Chars(s)) == s
  {
    if |s| > 0 {
      assert Chars(s)[1..] == Chars(s[1..]);
      SpellChars(s[1..]);
    }
  }

  /** A hole numbers one of the saved contents: fewer than `nb` code blocks, `nt` tables and `ni` inline spans. */
  predicate HoleBelow(h: Hole, nb: nat, nt: nat, ni: nat) {
    match h
    case CodeBlock(i) => i < nb
    case Table(i) => i < nt
    case InlineCode(i) => i < ni
  }

  /** Every hole of `toks` numbers a saved content. */
  predicate HolesBelow(toks: seq<Tok>, nb: nat, nt: nat, ni: nat) {
    forall x :: x in toks && x.Ph? ==> HoleBelow(x.hole, nb, nt, ni)
  }

  /** A stream without holes has every hole below any bounds. */
  lemma CharsHolesBelow(s: string, nb: nat, nt: nat, ni: nat)
    ensures HolesBelow(Chars(s), nb, nt, ni)
  {
  }

  /** Spelling can be done piece by piece. */
  lemma {:induction false} SpellAppend(a: seq<Tok>, b: seq<Tok>)
    ensures Spell(a + b) == Spell(a) + Spell(b)
    decreases |a|
  {
    if |a| == 0 {
      assert a + b == b;
    } else {
      assert (a + b)[0] == a[0];
      assert (a + b)[1..] == a[1..] + b;
      SpellAppend(a[1..], b);
    }
  }
}
