/** The event classifier of `call_claude`: `_process_line` applied to every framed line, as a fold over the
    state it closes over. */
module Classifier {
  import opened Wrappers
  import opened Seqs
  import PyText
  import Framer
  import Tools

  /** The `session_id` key of an event: missing, JSON `null`, or a string. */
  datatype SidField = Absent | Null | Sid(id: string)

  /** One entry of `message.content`: a `tool_use` block (its `name` and `input` keys may be missing) or any
      other block. */
  datatype Block = ToolUse(name: Option<string>, input: Option<map<string, string>>) | OtherBlock

  /** The event's `type` together with the fields read for it: `message.content` of an `assistant` event (empty
      when missing) and `result` of a `result` event. */
  datatype Body = Assistant(content: seq<Block>) | ResultMsg(result: Option<string>) | OtherMsg

  datatype Event = Event(sessionId: SidField, body: Body)

  /** The decoding the classifier treats as opaque: `raw.decode()` and `json.loads`, the latter either giving an
      event or raising `JSONDecodeError` (`None`). */
  datatype Decoder = Decoder(utf8: Framer.Bytes -> string, json: string -> Option<Event>)

  /** What the invocation depends on: `self.verbose`, whether a chat was passed, the `k`-th reading of the
      monotonic clock, and whether the `k`-th status message was delivered (`send_message` did not raise). */
  datatype Env = Env(verbose: bool, hasChat: bool, clock: nat -> nat, delivered: nat -> bool)

  /** A delivered status message: when it was sent, for which tool, and its text. */
  datatype Notice = Notice(at: nat, tool: string, text: string)

  /** The variables `_process_line` updates (`result_text`, `new_session_id`, `last_status_time`), the number of
      clock readings taken so far, and the status messages delivered so far. */
  datatype State = State(result: string, sid: Option<string>, lastStatus: nat, readings: nat, sent: seq<Notice>)

  /** The state before the first line: no result, the caller's session id, `last_status_time = 0`. */
  function Start(sid: Option<string>): State {
    State("", sid, 0, 0, [])
  }

  /** `line = raw.decode().strip()`, then `json.loads(line)` unless the line is empty. */
  function Decode(dec: Decoder, raw: Framer.Bytes): (r: Option<Event>)
    ensures PyText.IsBlank(dec.utf8(raw)) ==> r == None
    ensures !PyText.IsBlank(dec.utf8(raw)) ==> r == dec.json(PyText.Strip(dec.utf8(raw)))
  {
    var line := PyText.Strip(dec.utf8(raw));
    if line == [] then None else dec.json(line)
  }

  /** Status messages are spaced: the last one was sent at `last_status_time`, and any two delivered messages are
      at least `STATUS_THROTTLE_SECS` apart. */
  ghost predicate Throttled(st: State) {
    && (forall i :: 0 <= i < |st.sent| ==> st.sent[i].at <= st.lastStatus)
    && (forall i, j :: 0 <= i < j < |st.sent| ==> st.sent[i].at + Tools.ThrottleSecs <= st.sent[j].at)
  }

  /** `r` is a later state of the same run than `st`: messages are only appended, each new one at least
      `STATUS_THROTTLE_SECS` after `st`'s `last_status_time`, which never goes back and moves exactly when a
      message was delivered, to that message's time. */
  predicate Extends(st: State, r: State) {
    && |st.sent| <= |r.sent| && r.sent[..|st.sent|] == st.sent
    && r.lastStatus >= st.lastStatus
    && (|r.sent| == |st.sent| ==> r.lastStatus == st.lastStatus)
    && (|r.sent| > |st.sent| ==> r.lastStatus == Last(r.sent).at && r.lastStatus > st.lastStatus)
    && (forall i :: |st.sent| <= i < |r.sent| ==> st.lastStatus + Tools.ThrottleSecs <= r.sent[i].at)
  }

  lemma ExtendsTransitive(a: State, b: State, c: State)
    requires Extends(a, b) && Extends(b, c)
    ensures Extends(a, c)
  {
    assert c.sent[..|a.sent|] == c.sent[..|b.sent|][..|a.sent|];
  }

  /** Handling one content block: a `tool_use` block, when status reporting is on and a chat is present, reads the
      clock, and if at least `STATUS_THROTTLE_SECS` have passed since the last delivered message sends a status
      message; only a delivered message moves `last_status_time`. */
  function BlockStep(env: Env, st: State, b: Block): (r: State)
    ensures r.result == st.result && r.sid == st.sid
    ensures Extends(st, r) && |r.sent| <= |st.sent| + 1
    ensures |r.sent| > |st.sent| ==> r.lastStatus >= st.lastStatus + Tools.ThrottleSecs
    ensures !(env.verbose && env.hasChat && b.ToolUse?) ==> r == st
    ensures Throttled(st) ==> Throttled(r)
  {
    if env.verbose && b.ToolUse? && env.hasChat then
      var name := b.name.GetOr("unknown");
      var now := env.clock(st.readings);
      var st1 := st.(readings := st.readings + 1);
      if now - st.lastStatus >= Tools.ThrottleSecs && env.delivered(st.readings) then
        var text := Tools.StatusText(Tools.Label(name), Tools.ToolDetail(name, b.input.GetOr(map[])));
        var r := st1.(lastStatus := now, sent := st.sent + [Notice(now, name, text)]);
        assert r.sent[..|st.sent|] == st.sent;
        r
      else st1
    else st
  }

  /** The loop over `message.content` of an `assistant` event. */
  function Notify(env: Env, st: State, blocks: seq<Block>): (r: State)
    ensures r.result == st.result && r.sid == st.sid
    ensures Extends(st, r)
    ensures !(env.verbose && env.hasChat) ==> r == st
    ensures Throttled(st) ==> Throttled(r)
    decreases |blocks|
  {
    if |blocks| == 0 then st
    else
      var st1 := BlockStep(env, st, blocks[0]);
      var r := Notify(env, st1, blocks[1..]);
      ExtendsTransitive(st, st1, r);
      r
  }

  /** The session id an event leaves behind: any `session_id` key overwrites the candidate, even with `null`. */
  function SidAfter(e: SidField, current: Option<string>): Option<string> {
    match e
    case Absent => current
    case Null => None
    case Sid(s) => Some(s)
  }

  /** The result text an event leaves behind: a `result` event overwrites it with its `result` key (`""` when
      missing). */
  function ResultAfter(b: Body, current: string): string {
    match b
    case ResultMsg(text) => text.GetOr("")
    case _ => current
  }

  /** `_process_line(raw)`. */
  function ProcessLine(dec: Decoder, env: Env, st: State, raw: Framer.Bytes): (r: State)
    ensures Decode(dec, raw).None? ==> r == st
    ensures Decode(dec, raw).Some? ==> r.sid == SidAfter(Decode(dec, raw).value.sessionId, st.sid)
    ensures Decode(dec, raw).Some? ==> r.result == ResultAfter(Decode(dec, raw).value.body, st.result)
    ensures Extends(st, r)
    ensures !(env.verbose && env.hasChat) ==> r.sent == st.sent && r.lastStatus == st.lastStatus && r.readings == st.readings
    ensures Throttled(st) ==> Throttled(r)
  {
    var e := Decode(dec, raw);
    if e.None? then
      SameStatus(st, st);
      st
    else
      var st1 := st.(sid := SidAfter(e.value.sessionId, st.sid));
      SameStatus(st, st1);
      match e.value.body
      case Assistant(blocks) =>
        var r := Notify(env, st1, blocks);
        ExtendsTransitive(st, st1, r);
        r
      case ResultMsg(text) =>
        SameStatus(st, st1.(result := text.GetOr("")));
        st1.(result := text.GetOr(""))
      case OtherMsg => st1
  }

  /** A state with the same status messages and `last_status_time` is a later state of the same run. */
  lemma SameStatus(st: State, r: State)
    requires r.sent == st.sent && r.lastStatus == st.lastStatus
    ensures Extends(st, r) && (Throttled(st) ==> Throttled(r))
  {
  }

  /** Every line of the stream through `_process_line`, in order. */
  function Classify(dec: Decoder, env: Env, st: State, lines: seq<Framer.Bytes>): (r: State)
    ensures Extends(st, r)
    ensures !(env.verbose && env.hasChat) ==> r.sent == st.sent && r.lastStatus == st.lastStatus
    ensures Throttled(st) ==> Throttled(r)
    decreases |lines|
  {
    if |lines| == 0 then st
    else
      var st1 := ProcessLine(dec, env, st, lines[0]);
      var r := Classify(dec, env, st1, lines[1..]);
      ExtendsTransitive(st, st1, r);
      r
  }

  /** Reference definition, read backwards: the session id is the one carried by the last line that decodes to an
      event with a `session_id` key, or the caller's id when there is none. */
  function LastSession(dec: Decoder, init: Option<string>, lines: seq<Framer.Bytes>): Option<string>
    decreases |lines|
  {
    if |lines| == 0 then init
    else
      var e := Decode(dec, Last(lines));
      if e.Some? && !e.value.sessionId.Absent? then SidAfter(e.value.sessionId, init)
      else LastSession(dec, init, lines[..|lines| - 1])
  }

  /** Reference definition, read backwards: the result text is that of the last `result` event, or the initial
      text when there is none. */
  function LastResult(dec: Decoder, init: string, lines: seq<Framer.Bytes>): string
    decreases |lines|
  {
    if |lines| == 0 then init
    else
      var e := Decode(dec, Last(lines));
      if e.Some? && e.value.body.ResultMsg? then e.value.body.result.GetOr("")
      else LastResult(dec, init, lines[..|lines| - 1])
  }

  /** Folding one more line is one more `_process_line` call. */
  lemma {:induction false} ClassifySnoc(dec: Decoder, env: Env, st: State, lines: seq<Framer.Bytes>, raw: Framer.Bytes)
    ensures Classify(dec, env, st, lines + [raw]) == ProcessLine(dec, env, Classify(dec, env, st, lines), raw)
    decreases |lines|
  {
    if |lines| > 0 {
      assert (lines + [raw])[1..] == lines[1..] + [raw];
      ClassifySnoc(dec, env, ProcessLine(dec, env, st, lines[0]), lines[1..], raw);
    } else {
      assert (lines + [raw])[1..] == [];
    }
  }

  /** Last one wins: after the whole stream, the candidate session id and the result text are those of the last
      events that carried them, whatever came before. */
  lemma {:induction false} LastOneWins(dec: Decoder, env: Env, st: State, lines: seq<Framer.Bytes>)
    ensures Classify(dec, env, st, lines).sid == LastSession(dec, st.sid, lines)
    ensures Classify(dec, env, st, lines).result == LastResult(dec, st.result, lines)
    decreases |lines|
  {
    if |lines| > 0 {
      var init, raw := lines[..|lines| - 1], Last(lines);
      FrontLast(lines);
      LastOneWins(dec, env, st, init);
      ClassifySnoc(dec, env, st, init, raw);
      var c := Classify(dec, env, st, init);
      assert Classify(dec, env, st, lines) == ProcessLine(dec, env, c, raw);
    }
  }

  /** Blank and undecodable lines are ignored: removing them from the stream changes nothing. */
  lemma {:induction false} IgnoredLinesIrrelevant(dec: Decoder, env: Env, st: State, a: seq<Framer.Bytes>, raw: Framer.Bytes, b: seq<Framer.Bytes>)
    requires Decode(dec, raw).None?
    ensures Classify(dec, env, st, a + [raw] + b) == Classify(dec, env, st, a + b)
    decreases |a|
  {
    if |a| == 0 {
      EmptyAppend(a, [raw]);
      EmptyAppend(a, b);
      ConsAppend([raw], b);
    } else {
      ConsAppend(a, [raw]);
      ConsAppend(a + [raw], b);
      ConsAppend(a, b);
      IgnoredLinesIrrelevant(dec, env, ProcessLine(dec, env, st, a[0]), a[1..], raw, b);
    }
  }

  /** Over a whole invocation, every delivered status message came at least `STATUS_THROTTLE_SECS` after the
      previous one, and the first at least that long after clock reading 0. */
  lemma StatusThrottle(dec: Decoder, env: Env, sid: Option<string>, lines: seq<Framer.Bytes>)
    ensures var sent := Classify(dec, env, Start(sid), lines).sent;
      && (forall i, j :: 0 <= i < j < |sent| ==> sent[i].at + Tools.ThrottleSecs <= sent[j].at)
      && (forall i :: 0 <= i < |sent| ==> Tools.ThrottleSecs <= sent[i].at)
  {
    assert Throttled(Start(sid));
  }
}
