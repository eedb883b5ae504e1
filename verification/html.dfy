/** Python's `html.escape(s)` (with its default `quote=True`) and the inverse used to state its round trip. */
module Html {

  /** The characters `html.escape` rewrites. */
  predicate IsSpecial(c: char) {
    c == '&' || c == '<' || c == '>' || c == '"' || c == '\''
  }

  /** The replacement of one character: `&` `<` `>` `"` `'` become entities, everything else is kept. */
  function EscapeChar(c: char): string {
    if c == '&' then "&amp;"
    else if c == '<' then "&lt;"
    else if c == '>' then "&gt;"
    else if c == '"' then "&quot;"
    else if c == '\'' then "&#x27;"
    else [c]
  }

  /** `html.escape(s)`: the five replacements applied to every character (the library replaces `&` first,
      so no entity it writes is escaped again, which makes the passes equal to this per-character map). */
  function Escape(s: string): (r: string)
    ensures forall i :: 0 <= i < |r| ==> r[i] != '<' && r[i] != '>' && r[i] != '"' && r[i] != '\''
    ensures |r| >= |s|
    decreases |s|
  {
    if |s| == 0 then [] else EscapeChar(s[0]) + Escape(s[1..])
  }

  /** Decodes exactly the five entities that `Escape` writes. */
  function Unescape(s: string): string
    decreases |s|
  {
    if |s| == 0 then []
    else if "&amp;" <= s then "&" + Unescape(s[5..])
    else if "&lt;" <= s then "<" + Unescape(s[4..])
    else if "&gt;" <= s then ">" + Unescape(s[4..])
    else if "&quot;" <= s then "\"" + Unescape(s[6..])
    else if "&#x27;" <= s then "'" + Unescape(s[6..])
    else [s[0]] + Unescape(s[1..])
  }

  /** Escaping is a homomorphism: it can be applied piece by piece. */
  lemma {:induction false} EscapeAppend(a: string, b: string)
    ensures Escape(a + b) == Escape(a) + Escape(b)
    decreases |a|
  {
    if |a| == 0 {
      assert a + b == b;
    } else {
      assert (a + b)[1..] == a[1..] + b;
      EscapeAppend(a[1..], b);
    }
  }

  /** Escaping loses nothing: unescaping its output gives back the input, so it was applied exactly once. */
  lemma {:induction false} UnescapeEscape(s: string)
    ensures Unescape(Escape(s)) == s
    decreases |s|
  {
    if |s| > 0 {
      UnescapeEscape(s[1..]);
      UnescapeEscapeChar(s[0], Escape(s[1..]));
      assert s == [s[0]] + s[1..];
    }
  }

  lemma UnescapeEscapeChar(c: char, t: string)
    ensures Unescape(EscapeChar(c) + t) == [c] + Unescape(t)
  {
    var e := EscapeChar(c) + t;
    if IsSpecial(c) {
      // The entities differ in their second character, so at most one of them is a prefix of `e`.
      assert e[0] == '&';
      assert e[1] == (if c == '&' then 'a' else if c == '<' then 'l' else if c == '>' then 'g' else if c == '"' then 'q' else '#');
      assert e[|EscapeChar(c)|..] == t;
    } else {
      assert e[0] == c && e[1..] == t;
    }
  }

  /** Escaping changes a string exactly when it holds one of the five special characters. */
  lemma {:induction false} EscapeUnchangedIff(s: string)
    ensures Escape(s) == s <==> forall i :: 0 <= i < |s| ==> !IsSpecial(s[i])
    decreases |s|
  {
    if |s| > 0 {
      EscapeUnchangedIff(s[1..]);
      var rest := Escape(s[1..]);
      if IsSpecial(s[0]) {
        assert |EscapeChar(s[0])| > 1;
        assert |Escape(s)| > |s|;
      } else {
        assert Escape(s) == [s[0]] + rest;
        if Escape(s) == s {
          assert rest == s[1..];
        } else {
          assert s == [s[0]] + s[1..];
          assert exists i :: 0 <= i < |s[1..]| && IsSpecial(s[1..][i]);
          var i :| 0 <= i < |s[1..]| && IsSpecial(s[1..][i]);
          assert IsSpecial(s[i + 1]);
        }
        assert (forall i :: 0 <= i < |s| ==> !IsSpecial(s[i])) <==> (forall i :: 0 <= i < |s[1..]| ==> !IsSpecial(s[1..][i])) by {
          if forall i :: 0 <= i < |s[1..]| ==> !IsSpecial(s[1..][i]) {
            forall i | 0 <= i < |s| ensures !IsSpecial(s[i]) { if i > 0 { assert s[i] == s[1..][i - 1]; } }
          }
        }
      }
    }
  }
}
