/** Slash commands: the Telegram-safe name a Claude command or skill is registered under, and the rewriting of
    an incoming Telegram command back to the Claude command it stands for. */
module Commands {
  import opened Wrappers
  import opened Seqs
  import PyText

  /** Telegram's limit on the length of a bot command. */
  const MaxCommandLen: nat := 32

  predicate IsAsciiUpper(c: char) {
    'A' <= c <= 'Z'
  }

  /** One character of `name.lower().replace(" ", "_").replace("-", "_")`, for ASCII letters. */
  function NormalizeChar(c: char): (d: char)
    ensures !IsAsciiUpper(d) && d != ' ' && d != '-'
  {
    if IsAsciiUpper(c) then (c as int + 32) as char
    else if c == ' ' || c == '-' then '_'
    else c
  }

  /** `name.lower().replace(" ", "_").replace("-", "_")[:32]`. */
  function CommandName(name: string): (r: string)
    ensures |r| == if |name| < MaxCommandLen then |name| else MaxCommandLen
    ensures forall i :: 0 <= i < |r| ==> r[i] == NormalizeChar(name[i])
    ensures forall i :: 0 <= i < |r| ==> !IsAsciiUpper(r[i]) && r[i] != ' ' && r[i] != '-'
  {
    var n := if |name| < MaxCommandLen then |name| else MaxCommandLen;
    seq(n, i requires 0 <= i < n => NormalizeChar(name[i]))
  }

  /** A command name is already in normal form: normalising it again changes nothing. */
  lemma CommandNameIdempotent(name: string)
    ensures CommandName(CommandName(name)) == CommandName(name)
  {
    var r := CommandName(name);
    assert forall i :: 0 <= i < |r| ==> NormalizeChar(r[i]) == r[i];
  }

  /** The registration loop over the names found on disk: a name already seen is skipped; otherwise its command
      name is mapped back to it (a later name with the same command name takes the entry over) and the command
      is listed. */
  function Register(names: seq<string>): (r: (map<string, string>, seq<string>))
    ensures forall c :: c in r.0 ==> CommandName(r.0[c]) == c
    ensures forall i :: 0 <= i < |names| ==> CommandName(names[i]) in r.0
    ensures forall c :: c in r.0 <==> c in r.1
    decreases |names|
  {
    if |names| == 0 then (map[], [])
    else
      var init := names[..|names| - 1];
      var prev := Register(init);
      var name := Last(names);
      if name in init then prev
      else (prev.0[CommandName(name) := name], prev.1 + [CommandName(name)])
  }

  /** `text.split(None, 1)`: the first whitespace-separated word and, if anything but whitespace follows it, the
      rest with its leading whitespace removed. `None` when the text is blank and there is no word at all. */
  function SplitFirstWord(text: string): (r: Option<(string, Option<string>)>)
    ensures r.None? <==> PyText.IsBlank(text)
    ensures r.Some? ==> |r.value.0| > 0 && forall i :: 0 <= i < |r.value.0| ==> !PyText.IsSpace(r.value.0[i])
    ensures r.Some? && r.value.1.Some? ==> |r.value.1.value| > 0 && !PyText.IsSpace(r.value.1.value[0])
  {
    var s := PyText.TrimStart(text);
    if s == [] then None
    else
      var i := WordEnd(s, 0);
      FirstWord(s, i);
      var tail := PyText.TrimStart(s[i..]);
      Some((s[..i], if tail == [] then None else Some(tail)))
  }

  /** The word at the start of a text that starts with a non-space character is not empty and has no space. */
  lemma FirstWord(s: string, i: nat)
    requires |s| > 0 && !PyText.IsSpace(s[0]) && i == WordEnd(s, 0)
    ensures 0 < i <= |s| && NoSpace(s[..i])
  {
    assert forall j :: 0 <= j < i ==> s[..i][j] == s[j];
  }

  /** The end of the word starting at `from`: the first whitespace at or after it, or the end of `s`. */
  function WordEnd(s: string, from: nat): (i: nat)
    requires from <= |s|
    ensures from <= i <= |s|
    ensures forall j :: from <= j < i ==> !PyText.IsSpace(s[j])
    ensures i < |s| ==> PyText.IsSpace(s[i])
    decreases |s| - from
  {
    if from == |s| || PyText.IsSpace(s[from]) then from else WordEnd(s, from + 1)
  }

  /** `s.lstrip("/")`. */
  function StripSlashes(s: string): (r: string)
    ensures IsSuffix(r, s)
    ensures |r| > 0 ==> r[0] != '/'
    ensures forall i :: 0 <= i < |s| - |r| ==> s[i] == '/'
  {
    if |s| > 0 && s[0] == '/' then StripSlashes(s[1..]) else s
  }

  /** `parts[0].lstrip("/").split("@")[0]`: the command word without its slashes and without `@botname`. */
  function TelegramCommand(word: string): (r: string)
    ensures '@' !in r
  {
    var parts := Split(StripSlashes(word), '@');
    SplitPiecesFree(StripSlashes(word), '@');
    parts[0]
  }

  /** `handle_claude_command`'s rewriting: the command word loses its leading slashes and any `@botname`, is
      mapped back to the Claude command it was registered for (kept as it is when unknown), and the arguments
      follow after one space. `None` stands for the failure on a blank message, which has no command word. */
  function Rewrite(text: string, mapping: map<string, string>): (r: Option<string>)
    ensures r.None? <==> PyText.IsBlank(text)
    ensures r.Some? ==> |r.value| > 0 && r.value[0] == '/'
  {
    var parts := SplitFirstWord(text);
    if parts.None? then None
    else
      var tg := TelegramCommand(parts.value.0);
      var original := if tg in mapping then mapping[tg] else tg;
      var head := "/" + original;
      Some(if parts.value.1.Some? then head + " " + parts.value.1.value else head)
  }

  /** A registered command typed as `/cmd@bot args` comes back as the Claude command it was registered for, with
      the arguments intact. */
  lemma RewriteRegistered(names: seq<string>, k: nat, bot: string, args: string)
    requires k < |names|
    requires var c := CommandName(names[k]); |c| > 0 && '/' != c[0] && '@' !in c && NoSpace(c)
    requires '@' !in bot && NoSpace(bot)
    requires |args| > 0 && !PyText.IsSpace(args[0])
    ensures var mapping := Register(names).0;
      var c := CommandName(names[k]);
      Rewrite("/" + c + "@" + bot + " " + args, mapping) == Some("/" + mapping[c] + " " + args)
      && CommandName(mapping[c]) == c
  {
    var mapping := Register(names).0;
    var c := CommandName(names[k]);
    assert c in mapping;
    RewriteKnown(c, bot, args, mapping);
  }

  /** The rewriting of `/c@bot args` for a command `c` present in the table. */
  lemma RewriteKnown(c: string, bot: string, args: string, mapping: map<string, string>)
    requires |c| > 0 && '/' != c[0] && '@' !in c && NoSpace(c)
    requires '@' !in bot && NoSpace(bot)
    requires |args| > 0 && !PyText.IsSpace(args[0])
    requires c in mapping
    ensures Rewrite("/" + c + "@" + bot + " " + args, mapping) == Some("/" + mapping[c] + " " + args)
  {
    var at := "@" + bot;
    var word := "/" + c + at;
    CommandWordNoSpace(c, bot);
    CommandWord(c, at);
    RewriteWordArgs(word, args, mapping);
    AppendAssoc("/" + c, "@", bot);
  }

  /** The rewriting of a command word followed by one space and arguments. */
  lemma RewriteWordArgs(word: string, args: string, mapping: map<string, string>)
    requires |word| > 0 && NoSpace(word)
    requires |args| > 0 && !PyText.IsSpace(args[0])
    ensures var tg := TelegramCommand(word);
      Rewrite(word + " " + args, mapping) == Some("/" + (if tg in mapping then mapping[tg] else tg) + " " + args)
  {
    SplitWordArgs(word, args);
    RewriteParts(word + " " + args, mapping);
  }

  /** `Rewrite` in terms of the two parts `split(None, 1)` returns. */
  lemma RewriteParts(text: string, mapping: map<string, string>)
    requires SplitFirstWord(text).Some?
    ensures var parts := SplitFirstWord(text).value;
      var tg := TelegramCommand(parts.0);
      Rewrite(text, mapping)
      == Some(var head := "/" + (if tg in mapping then mapping[tg] else tg);
              if parts.1.Some? then head + " " + parts.1.value else head)
  {
  }

  lemma CommandWordNoSpace(c: string, bot: string)
    requires NoSpace(c) && NoSpace(bot)
    ensures NoSpace("/" + c + ("@" + bot))
  {
    var at := "@" + bot;
    assert NoSpace(at) by { assert forall j :: 1 <= j < |at| ==> at[j] == bot[j - 1]; }
    assert NoSpace("/" + c) by { assert forall j :: 1 <= j < |c| + 1 ==> ("/" + c)[j] == c[j - 1]; }
    NoSpaceAppend("/" + c, at);
  }

  /** No whitespace anywhere in `s`: it is one word. */
  predicate NoSpace(s: string) {
    forall j :: 0 <= j < |s| ==> !PyText.IsSpace(s[j])
  }

  lemma NoSpaceAppend(a: string, b: string)
    requires NoSpace(a) && NoSpace(b)
    ensures NoSpace(a + b)
  {
    assert forall j :: |a| <= j < |a| + |b| ==> (a + b)[j] == b[j - |a|];
  }

  /** `split(None, 1)` of a word, one space and arguments starting with a non-space character. */
  lemma SplitWordArgs(word: string, args: string)
    requires |word| > 0 && NoSpace(word)
    requires |args| > 0 && !PyText.IsSpace(args[0])
    ensures SplitFirstWord(word + " " + args) == Some((word, Some(args)))
  {
    var text := word + " " + args;
    assert text[0] == word[0];
    PyText.TrimStartKeeps(text);
    assert forall j :: 0 <= j < |word| ==> text[j] == word[j];
    assert text[|word|] == ' ';
    WordEndSkips(text, 0, |word|);
    var tail := text[|word|..];
    assert tail == " " + args;
    PyText.TrimStartSkips(tail);
    assert tail[1..] == args;
    PyText.TrimStartKeeps(args);
    assert text[..|word|] == word;
  }

  /** `split(None, 1)` of a lone word. */
  lemma SplitWord(word: string)
    requires |word| > 0 && forall j :: 0 <= j < |word| ==> !PyText.IsSpace(word[j])
    ensures SplitFirstWord(word) == Some((word, None))
  {
    assert PyText.TrimStart(word) == word;
    WordEndSkips(word, 0, |word|);
    assert word[..|word|] == word;
  }

  /** The command word `/c` followed by a part `at` that is empty or starts with `@` names the command `c`. */
  lemma CommandWord(c: string, at: string)
    requires |c| > 0 && c[0] != '/' && '@' !in c
    requires |at| > 0 ==> at[0] == '@'
    ensures TelegramCommand("/" + c + at) == c
  {
    assert ("/" + c + at)[1..] == c + at;
    assert StripSlashes("/" + c + at) == c + at;
    if |at| == 0 {
      assert c + at == c;
      SplitFree(c, '@');
    } else {
      SplitAtFirst(c + at, |c|, '@');
      assert (c + at)[..|c|] == c;
    }
  }

  /** `WordEnd` runs over every non-space character up to the first space. */
  lemma {:induction false} WordEndSkips(s: string, from: nat, i: nat)
    requires from <= i <= |s|
    requires forall j :: from <= j < i ==> !PyText.IsSpace(s[j])
    requires i < |s| ==> PyText.IsSpace(s[i])
    ensures WordEnd(s, from) == i
    decreases i - from
  {
    if from < i {
      WordEndSkips(s, from + 1, i);
    }
  }

  /** An unknown command is passed through unchanged. */
  lemma RewriteUnknown(cmd: string, mapping: map<string, string>)
    requires |cmd| > 0 && cmd[0] != '/' && '@' !in cmd && cmd !in mapping
    requires forall i :: 0 <= i < |cmd| ==> !PyText.IsSpace(cmd[i])
    ensures Rewrite("/" + cmd, mapping) == Some("/" + cmd)
  {
    var text := "/" + cmd;
    assert forall j :: 0 <= j < |text| ==> !PyText.IsSpace(text[j]);
    SplitWord(text);
    CommandWord(cmd, []);
    assert text + [] == text;
  }
}
