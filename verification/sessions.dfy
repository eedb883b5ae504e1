/** The session store (`load_sessions`, `get_session_id`, `set_session_id`, `clear_session`) and
    `call_claude_with_retry`, which resumes the stored session and falls back once to a fresh one. */
module Sessions {
  import opened Wrappers
  import opened Seqs
  import PyText
  import Framer
  import Classifier
  import opened Invocation

  /** The sessions file: absent, present but unreadable or not valid JSON, or holding a JSON object that maps
      `str(chat_id)` to a session id. */
  datatype StoreFile = Missing | Unreadable | Stored(entries: map<string, string>)

  /** `load_sessions()`: a missing file, and one that fails to read or parse, both read as the empty map. */
  function Load(f: StoreFile): (m: map<string, string>)
    ensures !f.Stored? ==> m == map[]
  {
    if f.Stored? then f.entries else map[]
  }

  /** The sessions file key of a chat: `str(chat_id)`. */
  function Key(chat: int): string {
    PyText.IntToString(chat)
  }

  /** `get_session_id(chat_id)`. */
  function GetSession(f: StoreFile, chat: int): Option<string> {
    var m := Load(f);
    if Key(chat) in m then Some(m[Key(chat)]) else None
  }

  /** `set_session_id(chat_id, session_id)`: load, overwrite one entry, save the whole map back. */
  function SetSession(f: StoreFile, chat: int, sid: string): (r: StoreFile)
    ensures r.Stored?
    ensures GetSession(r, chat) == Some(sid)
    ensures forall c :: c != chat ==> GetSession(r, c) == GetSession(f, c)
  {
    var r := Stored(Load(f)[Key(chat) := sid]);
    assert forall c :: c != chat ==> Key(c) != Key(chat) by {
      forall c | c != chat ensures Key(c) != Key(chat) {
        if Key(c) == Key(chat) { PyText.IntToStringInjective(c, chat); }
      }
    }
    r
  }

  /** `clear_session(chat_id)`: load, drop one entry if present, save the whole map back. */
  function ClearSession(f: StoreFile, chat: int): (r: StoreFile)
    ensures r.Stored?
    ensures GetSession(r, chat) == None
    ensures forall c :: c != chat ==> GetSession(r, c) == GetSession(f, c)
  {
    var r := Stored(Load(f) - {Key(chat)});
    assert forall c :: c != chat ==> Key(c) != Key(chat) by {
      forall c | c != chat ensures Key(c) != Key(chat) {
        if Key(c) == Key(chat) { PyText.IntToStringInjective(c, chat); }
      }
    }
    r
  }

  /** Saving over an unreadable file starts afresh: only the written entry survives. */
  lemma UnreadableStartsFresh(chat: int, sid: string)
    ensures SetSession(Unreadable, chat, sid) == Stored(map[Key(chat) := sid])
    ensures ClearSession(Unreadable, chat) == Stored(map[])
  {
  }

  /** What the retry controller does, in order: call `call_claude` with a session id, clear the stored entry,
      or save a session id. */
  datatype Step = Invoke(sid: Option<string>) | Clear | Save(saved: string)

  /** The result of `call_claude_with_retry`, the sessions file afterwards, and the steps taken. */
  datatype RetryRun = RetryRun(reply: Reply, store: StoreFile, steps: seq<Step>)

  /** The session ids `call_claude` was called with, in order. */
  function Invocations(steps: seq<Step>): (r: seq<Option<string>>)
    ensures |r| <= |steps|
    decreases |steps|
  {
    if |steps| == 0 then []
    else (if steps[0].Invoke? then [steps[0].sid] else []) + Invocations(steps[1..])
  }

  /** `call_claude_with_retry(message, chat_id)`: `claude(sid, k)` is what the `k`-th call to `call_claude` (counting
      from 0) returns when made with session id `sid`. A truthy stored session whose call returns an error reply
      is cleared and the message is sent once more without a session; whichever reply is returned last is the
      one whose truthy session id is saved. */
  function CallWithRetry(f: StoreFile, chat: int, claude: (Option<string>, nat) -> Reply): (r: RetryRun)
    ensures |r.steps| >= 1 && r.steps[0] == Invoke(GetSession(f, chat))
    ensures var retried := Truthy(GetSession(f, chat)) && ErrorPrefix <= claude(GetSession(f, chat), 0).text;
      && (retried ==> |r.steps| >= 3 && r.steps[..3] == [Invoke(GetSession(f, chat)), Clear, Invoke(None)] && r.reply == claude(None, 1))
      && (!retried ==> r.reply == claude(GetSession(f, chat), 0))
      && Invocations(r.steps) == (if retried then [GetSession(f, chat), None] else [GetSession(f, chat)])
      && (Truthy(r.reply.sid) ==> GetSession(r.store, chat) == r.reply.sid)
      && (!Truthy(r.reply.sid) && !retried ==> r.store == f)
      && (!Truthy(r.reply.sid) && retried ==> GetSession(r.store, chat) == None)
    ensures forall c :: c != chat ==> GetSession(r.store, c) == GetSession(f, c)
  {
    var sid := GetSession(f, chat);
    var first := claude(sid, 0);
    if Truthy(sid) && ErrorPrefix <= first.text then
      var cleared := ClearSession(f, chat);
      var second := claude(None, 1);
      if Truthy(second.sid) then
        var steps := [Invoke(sid), Clear, Invoke(None), Save(second.sid.value)];
        RetriedSavedCalls(sid, second.sid.value);
        RetryRun(second, SetSession(cleared, chat, second.sid.value), steps)
      else
        var steps := [Invoke(sid), Clear, Invoke(None)];
        RetriedCalls(sid);
        RetryRun(second, cleared, steps)
    else if Truthy(first.sid) then
      var steps := [Invoke(sid), Save(first.sid.value)];
      SavedCalls(sid, first.sid.value);
      RetryRun(first, SetSession(f, chat, first.sid.value), steps)
    else
      assert Invocations([Invoke(sid)]) == [sid];
      RetryRun(first, f, [Invoke(sid)])
  }

  /** A retry whose second reply is saved calls `call_claude` with the stored session, then without one. */
  lemma RetriedSavedCalls(sid: Option<string>, saved: string)
    ensures Invocations([Invoke(sid), Clear, Invoke(None), Save(saved)]) == [sid, None]
  {
    var steps := [Invoke(sid), Clear, Invoke(None), Save(saved)];
    assert Invocations(steps[3..]) == [] by { InvocationsUnroll(steps[3..]); }
    assert steps[2..][1..] == steps[3..];
    assert steps[1..][1..] == steps[2..];
    InvocationsUnroll(steps[2..]);
    InvocationsUnroll(steps[1..]);
    InvocationsUnroll(steps);
  }

  /** A retry whose second reply has no session calls `call_claude` with the stored session, then without one. */
  lemma RetriedCalls(sid: Option<string>)
    ensures Invocations([Invoke(sid), Clear, Invoke(None)]) == [sid, None]
  {
    var steps := [Invoke(sid), Clear, Invoke(None)];
    assert steps[1..][1..] == steps[2..];
    InvocationsUnroll(steps[2..]);
    InvocationsUnroll(steps[1..]);
    InvocationsUnroll(steps);
  }

  /** A first reply that is saved comes from the one call. */
  lemma SavedCalls(sid: Option<string>, saved: string)
    ensures Invocations([Invoke(sid), Save(saved)]) == [sid]
  {
    var steps := [Invoke(sid), Save(saved)];
    InvocationsUnroll(steps[1..]);
    InvocationsUnroll(steps);
  }

  lemma InvocationsUnroll(steps: seq<Step>)
    requires |steps| > 0
    ensures Invocations(steps) == (if steps[0].Invoke? then [steps[0].sid] else []) + Invocations(steps[1..])
  {
  }

  /** `call_claude` is called at most twice, and the second call never resumes a session. */
  lemma AtMostTwoCalls(f: StoreFile, chat: int, claude: (Option<string>, nat) -> Reply)
    ensures var calls := Invocations(CallWithRetry(f, chat, claude).steps);
      1 <= |calls| <= 2 && (|calls| == 2 ==> calls[1] == None)
  {
  }

  /** The retry controller driving the invocation model: the `k`-th call reads `world(k)`, the chunks of standard
      output and how the process ended. */
  function Claude(cfg: Config, dec: Classifier.Decoder, env: Classifier.Env,
                  world: nat -> (seq<Framer.Bytes>, Exit)): (Option<string>, nat) -> Reply
  {
    (sid: Option<string>, k: nat) => CallClaude(cfg, dec, env, sid, world(k).0, world(k).1).reply
  }

  /** Timeouts and empty responses are returned as they are, never retried, even when a session was resumed. */
  lemma TimeoutNotRetried(f: StoreFile, chat: int, cfg: Config, dec: Classifier.Decoder, env: Classifier.Env,
                          world: nat -> (seq<Framer.Bytes>, Exit))
    requires world(0).1.Timeout? || (world(0).1.Exited? && world(0).1.code == 0 && !(ErrorPrefix <= Classifier.Classify(dec, env, Classifier.Start(GetSession(f, chat)), Framer.Lines(world(0).0)).result))
    ensures Invocations(CallWithRetry(f, chat, Claude(cfg, dec, env, world)).steps) == [GetSession(f, chat)]
  {
    var sid := GetSession(f, chat);
    var lines := if world(0).1.Timeout? then Framer.CompleteLines(world(0).0) else Framer.Lines(world(0).0);
    ErrorPrefixIff(cfg, sid, Classifier.Classify(dec, env, Classifier.Start(sid), lines), world(0).1);
  }

  /** A first message in a chat with no stored session: the process is spawned without `--resume`, and when it
      exits normally after a stream whose last session id is `s`, the chat's stored session becomes `s`. */
  lemma FirstMessageStoresSession(f: StoreFile, chat: int, cfg: Config, message: string, dec: Classifier.Decoder,
                                  env: Classifier.Env, world: nat -> (seq<Framer.Bytes>, Exit), s: string)
    requires GetSession(f, chat) == None
    requires world(0).1.Exited? && world(0).1.code == 0
    requires Classifier.LastSession(dec, None, Framer.NaiveLines(Concat(world(0).0))) == Some(s) && s != ""
    ensures |Args(cfg, message, GetSession(f, chat))| == 10
    ensures GetSession(CallWithRetry(f, chat, Claude(cfg, dec, env, world)).store, chat) == Some(s)
  {
    var claude := Claude(cfg, dec, env, world);
    var reply := claude(None, 0);
    ReplyOfNormalExit(cfg, dec, env, world, None);
    assert reply.sid == Some(s);
    var r := CallWithRetry(f, chat, claude);
    assert r.reply == reply;
  }

  /** The `k`-th reply of `Claude` after a normal exit, spelled out through the reference definitions. */
  lemma ReplyOfNormalExit(cfg: Config, dec: Classifier.Decoder, env: Classifier.Env,
                          world: nat -> (seq<Framer.Bytes>, Exit), sid: Option<string>)
    requires world(0).1.Exited? && world(0).1.code == 0
    ensures Claude(cfg, dec, env, world)(sid, 0).sid
            == Classifier.LastSession(dec, sid, Framer.NaiveLines(Concat(world(0).0)))
  {
    var chunks, stderr := world(0).0, world(0).1.stderr;
    assert world(0).1 == Exited(0, stderr);
    assert Claude(cfg, dec, env, world)(sid, 0) == CallClaude(cfg, dec, env, sid, chunks, Exited(0, stderr)).reply;
    SuccessReportsLastObserved(cfg, dec, env, sid, chunks, stderr);
  }
}
