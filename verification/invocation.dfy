/** `call_claude`: the argument list, the streamed classification, and the choice of the returned
    `(text, session id)` pair from how the process ended. */
module Invocation {
  import opened Wrappers
  import opened Seqs
  import PyText
  import Framer
  import Classifier

  /** The `BotInstance` settings `call_claude` reads: `claude_bin`, `claude_timeout` and `allowed_tools`. */
  datatype Config = Config(claudeBin: string, timeout: int, allowedTools: string)

  /** `DEFAULT_ALLOWED_TOOLS`. */
  const DefaultAllowedTools := "Bash,Read,Write,Edit,Glob,Grep,WebFetch,WebSearch,Skill,Task"

  /** The fixed `--disallowedTools` list. */
  const DisallowedTools := "AskUserQuestion,EnterPlanMode,ExitPlanMode"

  /** How many characters of the stripped standard error an error reply keeps. */
  const StderrLimit: nat := 500

  /** The reply when the process exits normally without a `result` event. */
  const EmptyReply := "Claude returned an empty response."

  /** The prefix of every error reply, which the retry controller tests for. */
  const ErrorPrefix := "Claude error"

  /** Python truthiness of a `str | None` session id: present and non-empty. */
  predicate Truthy(sid: Option<string>) {
    sid.Some? && sid.value != ""
  }

  /** The argument vector of the spawned process. The prompt is passed as one argument, and `--resume <id>` is
      appended exactly when the session id is truthy. */
  function Args(cfg: Config, message: string, sid: Option<string>): (r: seq<string>)
    ensures |r| == 10 || |r| == 12
    ensures r[0] == cfg.claudeBin && r[1] == "--print" && r[2] == message
    ensures r[3..10] == ["--output-format", "stream-json", "--verbose", "--allowedTools", cfg.allowedTools,
                         "--disallowedTools", DisallowedTools]
    ensures |r| == 12 <==> Truthy(sid)
    ensures |r| == 12 ==> r[10] == "--resume" && Some(r[11]) == sid
  {
    var base := [cfg.claudeBin, "--print", message, "--output-format", "stream-json", "--verbose",
                 "--allowedTools", cfg.allowedTools, "--disallowedTools", DisallowedTools];
    if Truthy(sid) then base + ["--resume", sid.value] else base
  }

  /** How the process ended: the deadline expired while reading (`Timeout`), or it exited with a return code and
      a standard error text (already decoded). */
  datatype Exit = Timeout | Exited(code: int, stderr: string)

  /** What `call_claude` returns. */
  datatype Reply = Reply(text: string, sid: Option<string>)

  /** Python's `s[:n]`. */
  function Take(s: string, n: nat): (r: string)
    ensures |r| <= n && r <= s
    ensures |s| <= n ==> r == s
  {
    if |s| <= n then s else s[..n]
  }

  /** The reply after the deadline expired. */
  function TimeoutText(cfg: Config): string {
    "Claude timed out after " + PyText.IntToString(cfg.timeout) + "s. Try a simpler request."
  }

  /** The reply after a non-zero exit: the code, then the first 500 characters of the stripped standard error. */
  function ErrorText(code: int, stderr: string): (r: string)
    ensures ErrorPrefix <= r
    ensures IsSuffix(Take(PyText.Strip(stderr), StderrLimit), r)
  {
    ErrorPrefix + " (exit code " + PyText.IntToString(code) + "):\n" + Take(PyText.Strip(stderr), StderrLimit)
  }

  /** The returned pair, chosen from the classifier's final state and how the process ended: on a timeout or a
      non-zero exit the caller's session id is returned unchanged; otherwise the last observed one is, with the
      result text or, when there was none, the empty-response notice. The reply is never empty. */
  function Outcome(cfg: Config, callerSid: Option<string>, st: Classifier.State, exit: Exit): (r: Reply)
    ensures exit.Timeout? ==> r == Reply(TimeoutText(cfg), callerSid)
    ensures exit.Exited? && exit.code != 0 ==> r.sid == callerSid && ErrorPrefix <= r.text
    ensures exit.Exited? && exit.code != 0 ==> IsSuffix(Take(PyText.Strip(exit.stderr), StderrLimit), r.text)
    ensures exit.Exited? && exit.code == 0 ==> r.sid == st.sid
    ensures exit.Exited? && exit.code == 0 ==> r.text == (if st.result == "" then EmptyReply else st.result)
    ensures r.text != ""
  {
    match exit
    case Timeout => Reply(TimeoutText(cfg), callerSid)
    case Exited(code, stderr) =>
      if code != 0 then Reply(ErrorText(code, stderr), callerSid)
      else if st.result == "" then Reply(EmptyReply, st.sid)
      else Reply(st.result, st.sid)
  }

  /** One invocation: the reply and the status messages delivered while streaming. */
  datatype Call = Call(reply: Reply, notices: seq<Classifier.Notice>)

  /** `call_claude(message, session_id, chat)` given the chunks read from standard output before end of file (or
      before the deadline expired) and how the process ended. After a timeout the unterminated tail of the
      buffer is never processed. */
  function CallClaude(cfg: Config, dec: Classifier.Decoder, env: Classifier.Env, sid: Option<string>,
                      chunks: seq<Framer.Bytes>, exit: Exit): Call
  {
    var lines := if exit.Timeout? then Framer.CompleteLines(chunks) else Framer.Lines(chunks);
    var st := Classifier.Classify(dec, env, Classifier.Start(sid), lines);
    Call(Outcome(cfg, sid, st, exit), st.sent)
  }

  /** After a normal exit, the returned session id is the one carried by the last event of the whole stream that
      had a `session_id` key (the caller's id if none did), and a non-empty result text is that of the last
      `result` event; how the stream was chunked plays no part. */
  lemma SuccessReportsLastObserved(cfg: Config, dec: Classifier.Decoder, env: Classifier.Env, sid: Option<string>,
                                   chunks: seq<Framer.Bytes>, stderr: string)
    ensures var c := CallClaude(cfg, dec, env, sid, chunks, Exited(0, stderr));
      var lines := Framer.NaiveLines(Concat(chunks));
      && c.reply.sid == Classifier.LastSession(dec, sid, lines)
      && c.reply.text == (if Classifier.LastResult(dec, "", lines) == "" then EmptyReply else Classifier.LastResult(dec, "", lines))
  {
    Classifier.LastOneWins(dec, env, Classifier.Start(sid), Framer.NaiveLines(Concat(chunks)));
  }

  /** Failures never move the session: after a timeout or a non-zero exit the caller's id comes back. */
  lemma FailureKeepsCallerSession(cfg: Config, dec: Classifier.Decoder, env: Classifier.Env, sid: Option<string>,
                                  chunks: seq<Framer.Bytes>, exit: Exit)
    requires exit.Timeout? || exit.code != 0
    ensures CallClaude(cfg, dec, env, sid, chunks, exit).reply.sid == sid
  {
  }

  /** Status messages of one invocation are spaced by at least `STATUS_THROTTLE_SECS`, whatever happens to the
      process, and none are sent unless status reporting is on and a chat was passed. */
  lemma CallThrottled(cfg: Config, dec: Classifier.Decoder, env: Classifier.Env, sid: Option<string>,
                      chunks: seq<Framer.Bytes>, exit: Exit)
    ensures var n := CallClaude(cfg, dec, env, sid, chunks, exit).notices;
      && (forall i, j :: 0 <= i < j < |n| ==> n[i].at + 8 <= n[j].at)
      && (!(env.verbose && env.hasChat) ==> n == [])
  {
    var lines := if exit.Timeout? then Framer.CompleteLines(chunks) else Framer.Lines(chunks);
    Classifier.StatusThrottle(dec, env, sid, lines);
  }

  /** Which replies look like agent errors to the retry controller: exactly the non-zero exits, and successful
      replies whose own text happens to start with "Claude error"; timeouts and empty responses never do. */
  lemma ErrorPrefixIff(cfg: Config, callerSid: Option<string>, st: Classifier.State, exit: Exit)
    ensures ErrorPrefix <= Outcome(cfg, callerSid, st, exit).text
      <==> (exit.Exited? && (exit.code != 0 || ErrorPrefix <= st.result))
  {
    var r := Outcome(cfg, callerSid, st, exit);
    if exit.Timeout? {
      assert r.text[7] == 't';
    } else if exit.code == 0 && st.result == "" {
      assert r.text[7] == 'r';
    }
  }
}
