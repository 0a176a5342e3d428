/** The newer SIM800L driver (`devices/sim800l.py`).

    A command is written after throwing away whatever the modem had
    already sent; the reply is then collected line by line until a line
    holding `OK` or `ERROR`, a line holding the caller's detect text, or
    the deadline. Replies carry one of three states, which in the driver
    are the Python values True, False and None.
 */
module Sim800 {
  import opened Wrappers
  import opened PyText
  import opened Transport
  import opened Sanitize

  /** REPLY_OK (True), REPLY_ERROR (False), REPLY_TIMEOUT (None). */
  datatype ReplyState = ReplyOk | ReplyError | ReplyTimeout

  /** What `process_resp` returns: the state and the collected text. */
  datatype Reply = Reply(state: ReplyState, payload: Bytes)

  const CRLF: Bytes := "\r\n"

  /** Ctrl-Z, which ends an SMS body (3GPP TS 27.005, section 3.5.1). */
  const CtrlZ: byte := 0x1A as char

  // ---------------------------------------------------------------------
  // process_resp

  /** A stripped line that ends the reply. `OK` is looked for first. */
  predicate Terminal(s: Bytes) {
    Contains(s, "OK") || Contains(s, "ERROR")
  }

  /** A stripped line holding the detect text. */
  predicate Detected(s: Bytes, detect: Option<Bytes>) {
    detect.Some? && Contains(s, detect.value)
  }

  /** `process_resp(detect_str, waitfor)` from its start time `t0` on, with
      the text `acc` collected so far. The loop polls while fewer than
      `waitfor` ms have passed since `t0`; each line is taken once it has
      arrived. A blank `\r\n` line is skipped; otherwise the line is
      stripped, tested for `OK`, then `ERROR`, and only when it is neither
      appended to the reply text followed by `\n`. */
  function Collect(p: Port, t0: int, waitfor: int, detect: Option<Bytes>, acc: Bytes): (r: (Port, Reply))
    ensures r.0.written == p.written && r.0.readTimeout == p.readTimeout
    ensures r.0.now >= p.now
    ensures Trimmed(r.1.payload, IsByteSpace)
    decreases |p.feed|
  {
    if |p.feed| == 0 || Max(p.now, p.feed[0].at) - t0 >= waitfor then
      (WaitUntil(p, t0 + waitfor), Reply(ReplyTimeout, StripBytes(acc)))
    else
      var (q, buf) := Take(p);
      match Judge(buf, detect)
      case Skip => Collect(q, t0, waitfor, detect, acc)
      case EndOk => (q, Reply(ReplyOk, StripBytes(acc)))
      case EndError => (q, Reply(ReplyError, StripBytes(acc)))
      case Stop => (q, Reply(ReplyTimeout, StripBytes(AddLine(acc, buf))))
      case Keep => Collect(q, t0, waitfor, detect, AddLine(acc, buf))
  }

  /** `result += buf.strip() + b'\n'`. */
  function AddLine(acc: Bytes, buf: Bytes): Bytes {
    acc + StripBytes(buf) + "\n"
  }

  /** What `process_resp` does with one line it has read. */
  datatype Verdict = Skip | EndOk | EndError | Stop | Keep

  /** The tests of `process_resp` on one line, in the driver's order: the
      blank line first, then `OK`, then `ERROR` (both on the stripped
      line), then the detect text. */
  function Judge(buf: Bytes, detect: Option<Bytes>): (v: Verdict)
    ensures v == Skip <==> buf == CRLF
    ensures v == EndOk ==> Contains(StripBytes(buf), "OK")
    ensures v == EndError ==> Contains(StripBytes(buf), "ERROR") && !Contains(StripBytes(buf), "OK")
    ensures v == Stop || v == Keep ==> !Terminal(StripBytes(buf))
    ensures v == Stop <==> buf != CRLF && !Terminal(StripBytes(buf)) && Detected(StripBytes(buf), detect)
  {
    if buf == CRLF then Skip
    else
      var s := StripBytes(buf);
      if Contains(s, "OK") then EndOk
      else if Contains(s, "ERROR") then EndError
      else if Detected(s, detect) then Stop
      else Keep
  }

  /** A line that arrives before the deadline. */
  predicate InTime(a: Arrival, t0: int, waitfor: int) {
    a.at - t0 < waitfor
  }

  /** A line that neither ends the reply nor stops the wait. */
  predicate Quiet(line: Bytes, detect: Option<Bytes>) {
    Judge(line, detect) == Skip || Judge(line, detect) == Keep
  }

  /** Lines that all arrive in time and neither end nor stop the wait. */
  predicate QuietRun(lines: seq<Arrival>, t0: int, waitfor: int, detect: Option<Bytes>) {
    forall k :: 0 <= k < |lines| ==> InTime(lines[k], t0, waitfor) && Quiet(lines[k].line, detect)
  }

  /** The reply text after a run of quiet lines: each stripped line
      followed by `\n` added in arrival order, blank lines left out. */
  function Kept(acc: Bytes, lines: seq<Arrival>): Bytes
    decreases |lines|
  {
    if |lines| == 0 then acc
    else Kept(if lines[0].line == CRLF then acc else AddLine(acc, lines[0].line), lines[1..])
  }

  /** The clock after taking each of `lines` in turn. */
  function NowAfter(now: int, lines: seq<Arrival>): (r: int)
    ensures r >= now
    decreases |lines|
  {
    if |lines| == 0 then now else NowAfter(Max(now, lines[0].at), lines[1..])
  }

  /** One quiet line that arrives in time is taken and, unless blank,
      added to the text; the wait goes on. */
  lemma CollectQuietLine(p: Port, t0: int, waitfor: int, detect: Option<Bytes>, acc: Bytes)
    requires |p.feed| > 0 && p.now - t0 < waitfor
    requires InTime(p.feed[0], t0, waitfor) && Quiet(p.feed[0].line, detect)
    ensures Collect(p, t0, waitfor, detect, acc)
            == Collect(p.(now := Max(p.now, p.feed[0].at), feed := p.feed[1..]), t0, waitfor, detect,
                       if p.feed[0].line == CRLF then acc else AddLine(acc, p.feed[0].line))
  {
  }

  /** Reading a run of quiet, timely lines only adds their text. */
  lemma {:induction false} CollectPrefix(p: Port, t0: int, waitfor: int, detect: Option<Bytes>, acc: Bytes,
                                         pre: seq<Arrival>, rest: seq<Arrival>)
    requires p.feed == pre + rest
    requires p.now - t0 < waitfor
    requires QuietRun(pre, t0, waitfor, detect)
    ensures NowAfter(p.now, pre) - t0 < waitfor
    ensures Collect(p, t0, waitfor, detect, acc)
            == Collect(p.(now := NowAfter(p.now, pre), feed := rest), t0, waitfor, detect, Kept(acc, pre))
    decreases |pre|
  {
    if |pre| == 0 {
      assert pre + rest == rest;
    } else {
      QuietRunTail(pre, t0, waitfor, detect);
      var a := pre[0];
      assert p.feed[0] == a && p.feed[1..] == pre[1..] + rest;
      CollectQuietLine(p, t0, waitfor, detect, acc);
      var q := p.(now := Max(p.now, a.at), feed := pre[1..] + rest);
      var acc' := if a.line == CRLF then acc else AddLine(acc, a.line);
      CollectPrefix(q, t0, waitfor, detect, acc', pre[1..], rest);
      assert Kept(acc, pre) == Kept(acc', pre[1..]);
      assert NowAfter(p.now, pre) == NowAfter(q.now, pre[1..]);
    }
  }

  lemma QuietRunTail(pre: seq<Arrival>, t0: int, waitfor: int, detect: Option<Bytes>)
    requires |pre| > 0 && QuietRun(pre, t0, waitfor, detect)
    ensures InTime(pre[0], t0, waitfor) && Quiet(pre[0].line, detect)
    ensures QuietRun(pre[1..], t0, waitfor, detect)
  {
    forall k | 0 <= k < |pre[1..]|
      ensures InTime(pre[1..][k], t0, waitfor) && Quiet(pre[1..][k].line, detect)
    {
      assert pre[1..][k] == pre[k + 1];
    }
  }

  /** The reply an ending line gives, from the text collected before it. */
  function Ending(v: Verdict, acc: Bytes, buf: Bytes): Reply {
    match v
    case EndOk => Reply(ReplyOk, StripBytes(acc))
    case EndError => Reply(ReplyError, StripBytes(acc))
    case _ => Reply(ReplyTimeout, StripBytes(AddLine(acc, buf)))
  }

  /** A line that ends the wait and arrives in time is the last one read. */
  lemma CollectEndingLine(p: Port, t0: int, waitfor: int, detect: Option<Bytes>, acc: Bytes)
    requires |p.feed| > 0 && p.now - t0 < waitfor && InTime(p.feed[0], t0, waitfor)
    requires !Quiet(p.feed[0].line, detect)
    ensures Collect(p, t0, waitfor, detect, acc).1 == Ending(Judge(p.feed[0].line, detect), acc, p.feed[0].line)
    ensures Collect(p, t0, waitfor, detect, acc).0.feed == p.feed[1..]
  {
  }

  /** A run of quiet lines followed by an ending line: the reply is what
      that line decides, from the text of the quiet lines, and nothing
      after it is read. */
  lemma CollectStops(p: Port, t0: int, waitfor: int, detect: Option<Bytes>,
                     pre: seq<Arrival>, term: Arrival, post: seq<Arrival>)
    requires p.feed == pre + [term] + post
    requires p.now - t0 < waitfor
    requires QuietRun(pre, t0, waitfor, detect)
    requires InTime(term, t0, waitfor) && !Quiet(term.line, detect)
    ensures Collect(p, t0, waitfor, detect, []).1 == Ending(Judge(term.line, detect), Kept([], pre), term.line)
    ensures Collect(p, t0, waitfor, detect, []).0.feed == post
  {
    assert p.feed == pre + ([term] + post);
    CollectPrefix(p, t0, waitfor, detect, [], pre, [term] + post);
    var q := p.(now := NowAfter(p.now, pre), feed := [term] + post);
    assert q.feed[0] == term && q.feed[1..] == post;
    CollectEndingLine(q, t0, waitfor, detect, Kept([], pre));
  }

  /** A line holding `OK` ends the reply with REPLY_OK; it is not part of
      the reply text, and nothing after it is read. */
  lemma CollectStopsAtOk(p: Port, t0: int, waitfor: int, detect: Option<Bytes>,
                         pre: seq<Arrival>, term: Arrival, post: seq<Arrival>)
    requires p.feed == pre + [term] + post
    requires p.now - t0 < waitfor
    requires QuietRun(pre, t0, waitfor, detect)
    requires InTime(term, t0, waitfor) && term.line != CRLF && Contains(StripBytes(term.line), "OK")
    ensures Collect(p, t0, waitfor, detect, []).1 == Reply(ReplyOk, StripBytes(Kept([], pre)))
    ensures Collect(p, t0, waitfor, detect, []).0.feed == post
  {
    assert Judge(term.line, detect) == EndOk;
    CollectStops(p, t0, waitfor, detect, pre, term, post);
  }

  /** A line holding `ERROR` but not `OK` ends the reply with REPLY_ERROR,
      without being added to the text. */
  lemma CollectStopsAtError(p: Port, t0: int, waitfor: int, detect: Option<Bytes>,
                            pre: seq<Arrival>, term: Arrival, post: seq<Arrival>)
    requires p.feed == pre + [term] + post
    requires p.now - t0 < waitfor
    requires QuietRun(pre, t0, waitfor, detect)
    requires InTime(term, t0, waitfor) && term.line != CRLF
    requires !Contains(StripBytes(term.line), "OK") && Contains(StripBytes(term.line), "ERROR")
    ensures Collect(p, t0, waitfor, detect, []).1 == Reply(ReplyError, StripBytes(Kept([], pre)))
    ensures Collect(p, t0, waitfor, detect, []).0.feed == post
  {
    assert Judge(term.line, detect) == EndError;
    CollectStops(p, t0, waitfor, detect, pre, term, post);
  }

  /** A line holding the detect text (and neither `OK` nor `ERROR`) is
      added to the text and stops the wait, yet the state stays
      REPLY_TIMEOUT. */
  lemma CollectStopsAtDetect(p: Port, t0: int, waitfor: int, detect: Option<Bytes>,
                             pre: seq<Arrival>, term: Arrival, post: seq<Arrival>)
    requires p.feed == pre + [term] + post
    requires p.now - t0 < waitfor
    requires QuietRun(pre, t0, waitfor, detect)
    requires InTime(term, t0, waitfor) && term.line != CRLF
    requires !Terminal(StripBytes(term.line)) && Detected(StripBytes(term.line), detect)
    ensures Collect(p, t0, waitfor, detect, []).1
            == Reply(ReplyTimeout, StripBytes(AddLine(Kept([], pre), term.line)))
    ensures Collect(p, t0, waitfor, detect, []).0.feed == post
  {
    assert Judge(term.line, detect) == Stop;
    CollectStops(p, t0, waitfor, detect, pre, term, post);
  }

  /** With no ending line before the deadline, the wait lasts until the
      deadline and the reply is REPLY_TIMEOUT with all text so far. */
  lemma CollectTimesOut(p: Port, t0: int, waitfor: int, detect: Option<Bytes>,
                        pre: seq<Arrival>, post: seq<Arrival>)
    requires p.feed == pre + post
    requires p.now - t0 < waitfor
    requires QuietRun(pre, t0, waitfor, detect)
    requires |post| == 0 || !InTime(post[0], t0, waitfor)
    ensures Collect(p, t0, waitfor, detect, []).1 == Reply(ReplyTimeout, StripBytes(Kept([], pre)))
    ensures Collect(p, t0, waitfor, detect, []).0.feed == post
    ensures Collect(p, t0, waitfor, detect, []).0.now == t0 + waitfor
  {
    CollectPrefix(p, t0, waitfor, detect, [], pre, post);
  }

  // ---------------------------------------------------------------------
  // command

  /** The wait for the `>` prompt before an SMS body: up to 1000 ms from
      `t0`, ending early at the first line that holds `>`. */
  function AwaitPrompt(p: Port, t0: int): (r: Port)
    ensures r.written == p.written && r.readTimeout == p.readTimeout
    ensures |r.feed| <= |p.feed| && r.feed == p.feed[|p.feed| - |r.feed|..]
    ensures p.now <= r.now <= Max(p.now, t0 + 1000)
    decreases |p.feed|
  {
    if |p.feed| == 0 || Max(p.now, p.feed[0].at) - t0 >= 1000 then WaitUntil(p, t0 + 1000)
    else
      var (q, buf) := Take(p);
      if Contains(buf, ">") then q else AwaitPrompt(q, t0)
  }

  /** A prompt that is already the next line ends the wait on it. */
  lemma PromptFirst(p: Port, t0: int, prompt: Arrival, rest: seq<Arrival>)
    requires p.feed == [prompt] + rest
    requires p.now - t0 < 1000 && prompt.at - t0 < 1000 && Contains(prompt.line, ">")
    ensures AwaitPrompt(p, t0).feed == rest
    ensures AwaitPrompt(p, t0).now == Max(p.now, prompt.at)
  {
    assert p.feed[1..] == rest;
  }

  /** The wait reads past every line without `>` that comes within the
      1000 ms, and stops just after the first line holding `>`. */
  lemma {:induction false} PromptAfter(p: Port, t0: int, pre: seq<Arrival>, prompt: Arrival, rest: seq<Arrival>)
    requires p.feed == pre + [prompt] + rest
    requires p.now - t0 < 1000 && prompt.at - t0 < 1000 && Contains(prompt.line, ">")
    requires forall i :: 0 <= i < |pre| ==> !Contains(pre[i].line, ">") && pre[i].at <= prompt.at
    ensures AwaitPrompt(p, t0).feed == rest
    ensures AwaitPrompt(p, t0).now == Max(p.now, prompt.at)
    decreases |pre|
  {
    if |pre| == 0 {
      PromptFirst(p, t0, prompt, rest);
    } else {
      assert p.feed[0] == pre[0];
      var q := Take(p).0;
      assert q.feed == pre[1..] + [prompt] + rest;
      PromptAfter(q, t0, pre[1..], prompt, rest);
    }
  }

  /** Without a `>` line in time the wait lasts the full 1000 ms and
      consumes exactly the lines that came within it. */
  lemma {:induction false} NoPrompt(p: Port, t0: int, pre: seq<Arrival>, post: seq<Arrival>)
    requires p.feed == pre + post && p.now - t0 < 1000
    requires forall i :: 0 <= i < |pre| ==> !Contains(pre[i].line, ">") && pre[i].at - t0 < 1000
    requires |post| > 0 ==> post[0].at - t0 >= 1000
    ensures AwaitPrompt(p, t0).feed == post
    ensures AwaitPrompt(p, t0).now == t0 + 1000
    decreases |pre|
  {
    if |pre| == 0 {
      assert p.feed == post;
    } else {
      assert p.feed[0] == pre[0];
      var q := Take(p).0;
      assert q.feed == pre[1..] + post;
      NoPrompt(q, t0, pre[1..], post);
    }
  }

  /** The line terminator: `end`, or `\n` when none is given. */
  function EndOf(end: Option<Bytes>): Bytes {
    end.GetOr("\n")
  }

  /** `command(cmd, waitfor=, detect_str=, end=, msgtext=)`. An empty
      `msgtext` stands for both None and `b''`, which the driver treats
      alike. */
  function Command(p: Port, cmd: Bytes, waitfor: int, detect: Option<Bytes>, end: Option<Bytes>, msgtext: Bytes)
    : (r: (Port, Reply))
    ensures r.0.written == p.written + [cmd + EndOf(end)] + (if |msgtext| > 0 then [msgtext + [CtrlZ]] else [])
    ensures r.0.readTimeout == p.readTimeout && r.0.now >= p.now
  {
    var q := Write(Drain(p), cmd + EndOf(end));
    var q := if |msgtext| > 0 then Write(AwaitPrompt(q, q.now), msgtext + [CtrlZ]) else q;
    Collect(q, q.now, waitfor, detect, [])
  }

  /** A command with the defaults: one second, no detect text, no body. */
  function Ask(p: Port, cmd: Bytes): (r: (Port, Reply))
    ensures r.0.written == p.written + [cmd + "\n"]
  {
    Command(p, cmd, 1000, None, None, [])
  }

  /** Lines that were already waiting when a command is issued never
      reach its reply: the command behaves as if they had not come. */
  lemma CommandIgnoresStale(p: Port, cmd: Bytes, waitfor: int, detect: Option<Bytes>, end: Option<Bytes>,
                            msgtext: Bytes)
    ensures Command(p, cmd, waitfor, detect, end, msgtext)
            == Command(p.(feed := Drain(p).feed), cmd, waitfor, detect, end, msgtext)
  {
    var d := Drain(p);
    assert d == p.(feed := d.feed);
    assert !Any(d);
  }

  /** An OK reply to a plain command: the text before the OK line, with
      the OK line and everything before the command left out. */
  lemma CommandOk(p: Port, cmd: Bytes, waitfor: int, pre: seq<Arrival>, term: Arrival, post: seq<Arrival>)
    requires !Any(p) && p.feed == pre + [term] + post
    requires 0 < waitfor
    requires QuietRun(pre, p.now, waitfor, None)
    requires InTime(term, p.now, waitfor) && term.line != CRLF && Contains(StripBytes(term.line), "OK")
    ensures Command(p, cmd, waitfor, None, None, []).1 == Reply(ReplyOk, StripBytes(Kept([], pre)))
    ensures Command(p, cmd, waitfor, None, None, []).0.feed == post
  {
    var q := Write(p, cmd + "\n");
    assert Drain(p) == p;
    CollectStopsAtOk(q, q.now, waitfor, None, pre, term, post);
  }

  // ---------------------------------------------------------------------
  // Reading the replies

  /** `math.floor(x/6 + 0.5)`: `x/6` rounded to the nearest integer, a
      half rounded up. */
  function RoundSixth(x: int): (r: int)
    ensures 6 * r - 3 <= x < 6 * r + 3
  {
    (x + 3) / 6
  }

  /** `signal_strength()` on the reply to `AT+CSQ`: the rssi of a
      `+CSQ: <rssi>,<ber>` reply mapped onto 0..5, or 0 when the reply is
      not OK, does not carry the tag, or reports 99 ("not known",
      3GPP TS 27.007, section 8.5). */
  function SignalOf(r: Reply): (v: Result<int>)
    ensures r.state != ReplyOk ==> v == Ok(0)
    ensures v.Err? ==> v.error == IndexError || v.error == ValueError
  {
    if r.state != ReplyOk then Ok(0)
    else
      var params := Split(r.payload, ',');
      if params[0] == [] then Ok(0)
      else
        var params2 := Split(params[0], ':');
        if !Contains(params2[0], "+CSQ") then Ok(0)
        else if |params2| < 2 then Err(IndexError)
        else
          var x :- Int(params2[1], BytesText);
          Ok(if x == 99 then 0 else RoundSixth(x))
  }

  /** The head of an information reply: `<tag>: <n>`. */
  function TagLine(tag: Bytes, n: int): Bytes {
    tag + ": " + DecimalBytes(n)
  }

  /** A head `<tag>: <n>` has no comma, ... */
  lemma TagLineNoComma(tag: Bytes, n: int)
    requires ',' !in tag
    ensures ',' !in TagLine(tag, n)
  {
    DecimalChars(n);
  }

  /** ... splits on `:` into the tag and the number with its space, ... */
  lemma TagLineSplit(tag: Bytes, n: int)
    requires ':' !in tag
    ensures Split(TagLine(tag, n), ':') == [tag, " " + DecimalBytes(n)]
  {
    var d := DecimalBytes(n);
    DecimalChars(n);
    assert TagLine(tag, n) == tag + [':'] + (" " + d);
    SplitField(tag, ':', " " + d);
    SplitWhole(" " + d, ':');
  }

  /** ... and `int()` reads the number back despite the space. */
  lemma SpacedNumber(n: int, f: Flavour)
    ensures Int(" " + DecimalBytes(n), f) == Ok(n)
  {
    ParseDecimal(n, " ", f);
  }

  /** An OK `+CSQ: <rssi>,<ber>` reply gives the rssi rounded on a scale
      of six, and 0 for 99; an rssi of 0..31 gives 0..5. */
  lemma SignalOfCsq(rssi: int, rest: Bytes)
    requires |rest| == 0 || rest[0] == ','
    ensures SignalOf(Reply(ReplyOk, TagLine("+CSQ", rssi) + rest))
            == Ok(if rssi == 99 then 0 else RoundSixth(rssi))
    ensures 0 <= rssi <= 31 ==> 0 <= RoundSixth(rssi) <= 5
  {
    var head := TagLine("+CSQ", rssi);
    TagLineNoComma("+CSQ", rssi);
    FirstField(head, ',', rest);
    TagLineSplit("+CSQ", rssi);
    SpacedNumber(rssi, BytesText);
    ContainsSelf("+CSQ");
  }

  /** `battery_charge()` on the reply to `AT+CBC`: the second comma field
      of a reply whose tag holds `+CBC`, else 0. The driver's test of the
      first field against the text `''` compares bytes with a string and
      never succeeds, so it filters nothing. */
  function BatteryOf(r: Reply): (v: Result<int>)
    ensures r.state != ReplyOk ==> v == Ok(0)
    ensures v.Err? ==> v.error == IndexError || v.error == ValueError
  {
    if r.state != ReplyOk then Ok(0)
    else
      var params := Split(r.payload, ',');
      var params2 := Split(params[0], ':');
      if !Contains(params2[0], "+CBC") then Ok(0)
      else if |params| < 2 then Err(IndexError)
      else Int(params[1], BytesText)
  }

  /** An OK `+CBC: <bcs>,<bcl>,<mV>` reply gives the charge level `bcl`. */
  lemma BatteryOfCbc(bcs: int, level: int, rest: Bytes)
    requires |rest| == 0 || rest[0] == ','
    ensures BatteryOf(Reply(ReplyOk, TagLine("+CBC", bcs) + "," + DecimalBytes(level) + rest)) == Ok(level)
  {
    TagLineNoComma("+CBC", bcs);
    DecimalNoComma(level);
    SecondField(TagLine("+CBC", bcs), ',', DecimalBytes(level), rest);
    TagLineSplit("+CBC", bcs);
    ContainsSelf("+CBC");
    DecimalParses(level, BytesText);
  }

  /** `network_name()` on the reply to `AT+COPS?`: the text between the
      first pair of quotes in the third comma field, when the tag is
      exactly `+COPS`; otherwise empty. As in `battery_charge`, the test
      against `''` never filters. */
  function NetworkOf(r: Reply): (v: Bytes)
    ensures r.state != ReplyOk ==> v == []
  {
    if r.state != ReplyOk then []
    else
      var params := Split(r.payload, ',');
      var params2 := Split(params[0], ':');
      if params2[0] == "+COPS" && |params| > 2 then
        var names := Split(params[2], '"');
        if |names| > 1 then names[1] else []
      else []
  }

  /** `"<x>"`. */
  function Quoted(x: Bytes): Bytes {
    "\"" + x + "\""
  }

  /** The text between the first pair of quotes of `"<x>"<rest>`. */
  lemma QuotedSplit(x: Bytes, rest: Bytes)
    requires '"' !in x
    ensures |Split(Quoted(x) + rest, '"')| >= 2
    ensures Split(Quoted(x) + rest, '"')[1] == x
  {
    assert Quoted(x) + rest == [] + ['"'] + x + (['"'] + rest);
    SecondField([], '"', x, ['"'] + rest);
  }

  /** The name never holds a quote. */
  lemma NetworkOfUnquoted(r: Reply)
    ensures '"' !in NetworkOf(r)
  {
    if r.state == ReplyOk {
      var params := Split(r.payload, ',');
      if |params| > 2 {
        SplitJoin(params[2], '"');
      }
    }
  }

  lemma CopsHead(mode: Bytes)
    requires ',' !in mode
    ensures ',' !in "+COPS:" + mode
    ensures Split("+COPS:" + mode, ':')[0] == "+COPS"
  {
    var head := "+COPS:" + mode;
    assert forall i :: 0 <= i < 6 ==> head[i] == "+COPS:"[i];
    assert head == "+COPS" + ([':'] + mode);
    FirstField("+COPS", ':', [':'] + mode);
  }

  lemma QuotedNoComma(x: Bytes)
    requires ',' !in x
    ensures ',' !in Quoted(x)
  {
  }

  /** An OK `+COPS:<mode>,<format>,"<operator>"` reply gives the operator
      name. */
  lemma NetworkOfCops(mode: Bytes, format: Bytes, name: Bytes, rest: Bytes)
    requires ',' !in mode && ',' !in format
    requires '"' !in name && ',' !in name
    requires |rest| == 0 || rest[0] == ','
    ensures NetworkOf(Reply(ReplyOk, ("+COPS:" + mode) + "," + format + "," + Quoted(name) + rest)) == name
  {
    var head := "+COPS:" + mode;
    var payload := head + "," + format + "," + Quoted(name) + rest;
    CopsHead(mode);
    QuotedNoComma(name);
    ThirdField(head, ',', format, Quoted(name), rest);
    QuotedSplit(name, []);
    assert Quoted(name) + [] == Quoted(name);
  }

  /** A message as `read_sms` returns it: number, date, time and the
      whole reply text. */
  datatype Sms = Sms(number: Bytes, date: Bytes, time: Bytes, text: Bytes)

  /** `f.replace('"', ' ').strip()`, where `sp` is the white space of
      the text's type. */
  function Clean(f: Bytes, sp: char -> bool): (r: Bytes)
    ensures '"' !in r && Trimmed(r, sp)
  {
    var t := Replace(f, '"', ' ');
    StripAbsent(t, '"', sp);
    Strip(t, sp)
  }

  /** `read_sms(id)` on the reply to `AT+CMGR=<id>`: comma fields 1, 3 and
      4 of the whole reply text, cleaned of quotes, when the tag holds
      `+CMGR`; None when the reply is not OK or has another tag;
      IndexError when the reply has fewer than five fields. */
  function ReadSmsOf(r: Reply): (v: Result<Option<Sms>>)
    ensures r.state != ReplyOk ==> v == Ok(None)
    ensures v.Err? ==> v.error == IndexError
    ensures v.Ok? && v.value.Some? ==> v.value.value.text == r.payload
  {
    if r.state != ReplyOk then Ok(None)
    else
      var params := Split(r.payload, ',');
      if params[0] == [] then Ok(None)
      else
        var params2 := Split(params[0], ':');
        if !Contains(params2[0], "+CMGR") then Ok(None)
        else if |params| < 5 then Err(IndexError)
        else Ok(Some(Sms(Clean(params[1], IsByteSpace), Clean(params[3], IsByteSpace), Clean(params[4], IsByteSpace), r.payload)))
  }

  /** The reply text of `AT+CMGR` in text mode: the header line
      `+CMGR:<stat>,"<number>",<alpha>,"<date>,<time>"`, then the message
      on the next line (3GPP TS 27.005, section 3.4.3). The quoted time
      stamp holds a comma, so the driver finds date and time in comma
      fields 3 and 4; the message follows in the same field 4. */
  function CmgrReply(stat: Bytes, number: Bytes, alpha: Bytes, date: Bytes, time: Bytes, text: Bytes): Bytes {
    Join(CmgrHead(stat, number, alpha, date, time + "\"" + "\n" + text), ',')
  }

  /** The comma fields of a `+CMGR` header whose last field is `last`. */
  function CmgrHead(stat: Bytes, number: Bytes, alpha: Bytes, date: Bytes, last: Bytes): seq<Bytes> {
    ["+CMGR:" + stat, Quoted(number), alpha, "\"" + date, last]
  }

  /** A `+CMGR` header without commas in its fields splits back into them. */
  lemma CmgrSplit(stat: Bytes, number: Bytes, alpha: Bytes, date: Bytes, last: Bytes)
    requires ',' !in stat && ',' !in number && ',' !in alpha && ',' !in date && ',' !in last
    ensures Split(Join(CmgrHead(stat, number, alpha, date, last), ','), ',') == CmgrHead(stat, number, alpha, date, last)
  {
    var fields := CmgrHead(stat, number, alpha, date, last);
    assert ',' !in "+CMGR:" + stat by {
      var h := "+CMGR:" + stat;
      assert forall i :: 0 <= i < 6 ==> h[i] == "+CMGR:"[i];
    }
    assert forall i :: 0 <= i < |fields| ==> ',' !in fields[i];
    JoinSplit(fields, ',');
  }

  /** The preconditions of the `+CMGR` lemmas: no field holds a comma,
      number, date and time hold no quote, and number, date, time and the
      message have no white space at their ends. */
  predicate CmgrParts(stat: Bytes, number: Bytes, alpha: Bytes, date: Bytes, time: Bytes, text: Bytes) {
    && ',' !in stat && ',' !in number && ',' !in alpha && ',' !in date && ',' !in time && ',' !in text
    && '"' !in number && '"' !in date && '"' !in time && '"' !in text
    && Trimmed(number, IsByteSpace) && Trimmed(date, IsByteSpace)
    && |time| > 0 && Trimmed(time, IsByteSpace) && |text| > 0 && Trimmed(text, IsByteSpace)
  }

  /** The tag test passes on the header. */
  lemma CmgrTag(stat: Bytes)
    ensures Split("+CMGR:" + stat, ':')[0] == "+CMGR"
    ensures Contains(Split("+CMGR:" + stat, ':')[0], "+CMGR")
  {
    assert "+CMGR:" + stat == "+CMGR" + ([':'] + stat);
    FirstField("+CMGR", ':', [':'] + stat);
    ContainsSelf("+CMGR");
  }

  lemma CleanQuoted(x: Bytes, sp: char -> bool)
    requires '"' !in x && Trimmed(x, sp) && sp(' ')
    ensures Clean(Quoted(x), sp) == x
  {
    assert Replace(Quoted(x), '"', ' ') == [' '] + x + [' '];
    StripPadded(' ', x, sp);
  }

  lemma CleanOpenQuote(x: Bytes, sp: char -> bool)
    requires '"' !in x && Trimmed(x, sp) && sp(' ')
    ensures Clean("\"" + x, sp) == x
  {
    assert Replace("\"" + x, '"', ' ') == [' '] + x;
    StripDropsLeadingSpace(' ', x, sp);
    StripNoSpaceEnds(x, sp);
  }

  /** The time field as the driver cleans it: the quote becomes a space
      and the message stays attached. */
  lemma CleanTimeField(time: Bytes, text: Bytes)
    requires '"' !in time && '"' !in text
    requires |time| > 0 && Trimmed(time, IsByteSpace) && |text| > 0 && Trimmed(text, IsByteSpace)
    ensures Clean(time + "\"" + "\n" + text, IsByteSpace) == time + " \n" + text
  {
    var f := time + "\"" + "\n" + text;
    var g := time + " \n" + text;
    assert Replace(f, '"', ' ') == g by {
      assert |f| == |g|;
      forall i | 0 <= i < |f|
        ensures Replace(f, '"', ' ')[i] == g[i]
      {
        if i < |time| {
          assert f[i] == time[i] == g[i];
        } else if i >= |time| + 2 {
          assert f[i] == text[i - |time| - 2] == g[i];
        }
      }
    }
    assert g[0] == time[0] && g[|g| - 1] == text[|text| - 1];
    StripNoSpaceEnds(g, IsByteSpace);
  }

  /** As written, a read message's time comes back with the message text
      glued on after a space and a line break, because the reply's lines
      are joined before the comma split. */
  lemma ReadSmsTimeHoldsText(stat: Bytes, number: Bytes, alpha: Bytes, date: Bytes, time: Bytes, text: Bytes)
    requires CmgrParts(stat, number, alpha, date, time, text)
    ensures ReadSmsOf(Reply(ReplyOk, CmgrReply(stat, number, alpha, date, time, text)))
            == Ok(Some(Sms(number, date, time + " \n" + text, CmgrReply(stat, number, alpha, date, time, text))))
  {
    var payload := CmgrReply(stat, number, alpha, date, time, text);
    CmgrSplit(stat, number, alpha, date, time + "\"" + "\n" + text);
    CmgrTag(stat);
    ReadSmsFields(payload, "+CMGR:" + stat, Quoted(number), alpha, "\"" + date, time + "\"" + "\n" + text);
    CleanQuoted(number, IsByteSpace);
    CleanOpenQuote(date, IsByteSpace);
    CleanTimeField(time, text);
  }

  /** Any OK reply with five comma fields and a `+CMGR` tag is read from
      fields 1, 3 and 4. */
  lemma ReadSmsFields(payload: Bytes, f0: Bytes, f1: Bytes, f2: Bytes, f3: Bytes, f4: Bytes)
    requires Split(payload, ',') == [f0, f1, f2, f3, f4]
    requires Contains(Split(f0, ':')[0], "+CMGR")
    ensures ReadSmsOf(Reply(ReplyOk, payload)) == Ok(Some(Sms(Clean(f1, IsByteSpace), Clean(f3, IsByteSpace), Clean(f4, IsByteSpace), payload)))
  {
    assert f0 != [] by {
      if f0 == [] {
        SplitWhole(f0, ':');
      }
    }
    var r := Reply(ReplyOk, payload);
    var params := Split(payload, ',');
    assert params[0] == f0 && |params| == 5;
    assert params[1] == f1 && params[3] == f3 && params[4] == f4;
  }
  /** `read_sms` with the time field cut at the end of the header line,
      which is what the fields are meant to hold. */
  function ReadSmsFixed(r: Reply): (v: Result<Option<Sms>>)
    ensures r.state != ReplyOk ==> v == Ok(None)
    ensures v.Err? ==> v.error == IndexError
    ensures v.Ok? && v.value.Some? ==> '\n' !in v.value.value.time
  {
    match ReadSmsOf(r)
    case Ok(Some(m)) =>
      var params := Split(r.payload, ',');
      var line := Split(params[4], '\n')[0];
      SplitJoin(params[4], '\n');
      ReplaceAbsent(line, '"', ' ', '\n');
      StripAbsent(Replace(line, '"', ' '), '\n', IsByteSpace);
      Ok(Some(m.(time := Clean(line, IsByteSpace))))
    case other => other
  }

  /** With the correction, the time is exactly the time stamp's time. */
  lemma ReadSmsFixedTime(stat: Bytes, number: Bytes, alpha: Bytes, date: Bytes, time: Bytes, text: Bytes)
    requires CmgrParts(stat, number, alpha, date, time, text) && '\n' !in time
    ensures ReadSmsFixed(Reply(ReplyOk, CmgrReply(stat, number, alpha, date, time, text)))
            == Ok(Some(Sms(number, date, time, CmgrReply(stat, number, alpha, date, time, text))))
  {
    var payload := CmgrReply(stat, number, alpha, date, time, text);
    ReadSmsTimeHoldsText(stat, number, alpha, date, time, text);
    assert Split(Split(payload, ',')[4], '\n')[0] == time + "\"" by {
      var last := time + "\"" + "\n" + text;
      CmgrSplit(stat, number, alpha, date, last);
      assert last == (time + "\"") + ['\n'] + text;
      SplitField(time + "\"", '\n', text);
    }
    assert Clean(time + "\"", IsByteSpace) == time by {
      CleanCloseQuote(time, IsByteSpace);
    }
    ReadSmsFixedOf(Reply(ReplyOk, payload), Sms(number, date, time + " \n" + text, payload));
  }

  /** The correction keeps what `read_sms` read and replaces the time by
      the first line of the fifth field, cleaned. */
  lemma ReadSmsFixedOf(r: Reply, m: Sms)
    requires ReadSmsOf(r) == Ok(Some(m))
    ensures ReadSmsFixed(r) == Ok(Some(m.(time := Clean(Split(Split(r.payload, ',')[4], '\n')[0], IsByteSpace))))
  {
  }

  lemma CleanCloseQuote(x: Bytes, sp: char -> bool)
    requires '"' !in x && Trimmed(x, sp) && sp(' ')
    ensures Clean(x + "\"", sp) == x
  {
    assert Replace(x + "\"", '"', ' ') == x + [' '];
    StripDropsTrailingSpace(x, ' ', sp);
    StripNoSpaceEnds(x, sp);
  }

  /** `send_sms(destno, msgtext)` on the reply: True only for an OK reply
      whose text before the first `:` holds `+CUSD` or `+CMGS`. */
  function SendSmsOf(r: Reply): (v: bool)
    ensures v ==> r.state == ReplyOk
  {
    var params := Split(r.payload, ':');
    r.state == ReplyOk && (Contains(params[0], "+CUSD") || Contains(params[0], "+CMGS"))
  }

  /** The message reference reply `+CMGS: <mr>` (3GPP TS 27.005,
      section 3.5.1) reports success. */
  lemma SendSmsOfCmgs(mr: int)
    ensures SendSmsOf(Reply(ReplyOk, TagLine("+CMGS", mr)))
  {
    TagLineSplit("+CMGS", mr);
    ContainsSelf("+CMGS");
  }

  /** `send_sms`: the command, then the body ended by Ctrl-Z once the
      prompt has come or a second has passed, then the verdict. */
  function SendSms(p: Port, destno: Bytes, msgtext: Bytes): (r: (Port, bool))
    ensures r.0.written == p.written + ["AT+CMGS=\"" + destno + "\"" + "\n"]
                           + (if |msgtext| > 0 then [msgtext + [CtrlZ]] else [])
  {
    var (q, reply) := Command(p, "AT+CMGS=\"" + destno + "\"", 1000, None, None, msgtext);
    (q, SendSmsOf(reply))
  }

  /** The clock text of a `+CCLK` line: what lies between its first pair
      of quotes; empty for any other line; IndexError when the line has
      no quote. */
  function CclkTime(s: Bytes): (v: Result<Bytes>)
    ensures v.Err? ==> v.error == IndexError && '"' !in s
    ensures v.Ok? && v.value != [] ==> Prefix(s, 5) == "+CCLK"
    ensures v.Ok? ==> '"' !in v.value
  {
    if Prefix(s, 5) == "+CCLK" then
      var q := Split(s, '"');
      SplitJoin(s, '"');
      if |q| < 2 then Err(IndexError)
      else Ok(q[1])
    else Ok([])
  }

  /** A `+CCLK: "<time>"` line gives the quoted time. */
  lemma CclkTimeOf(t: Bytes, rest: Bytes)
    requires '"' !in t
    ensures CclkTime("+CCLK: " + Quoted(t) + rest) == Ok(t)
  {
    var s := "+CCLK: " + Quoted(t) + rest;
    assert Prefix(s, 5) == "+CCLK" by {
      assert forall i :: 0 <= i < 5 ==> s[i] == "+CCLK: "[i];
    }
    assert s == "+CCLK: " + ['"'] + t + (['"'] + rest);
    SecondField("+CCLK: ", '"', t, ['"'] + rest);
  }

  /** `date_time()` on the reply to `AT+CCLK?`: the clock text of an OK
      reply, else empty. */
  function DateTimeOf(r: Reply): (v: Result<Bytes>)
    ensures r.state != ReplyOk ==> v == Ok([])
    ensures v.Err? ==> v.error == IndexError && '"' !in r.payload
    ensures v.Ok? ==> '"' !in v.value
    ensures v.Ok? && v.value != [] ==> r.state == ReplyOk && Prefix(r.payload, 5) == "+CCLK"
  {
    if r.state != ReplyOk then Ok([]) else CclkTime(r.payload)
  }

  /** The modem's clock comes back as it was sent: an OK reply
      `+CCLK: "<t>"` gives `t` (3GPP TS 27.007, section 8.15). */
  lemma DateTimeOfCclk(t: Bytes, rest: Bytes)
    requires '"' !in t
    ensures DateTimeOf(Reply(ReplyOk, "+CCLK: " + Quoted(t) + rest)) == Ok(t)
  {
    CclkTimeOf(t, rest);
  }

  // ---------------------------------------------------------------------
  // GPRS bearer and HTTP

  /** Python's `a & b` on two reply states (True, False or None): a bool
      result on two bools, TypeError when either side is None. */
  function PyAnd(a: ReplyState, b: ReplyState): (r: Result<ReplyState>)
    ensures r.Err? <==> a == ReplyTimeout || b == ReplyTimeout
    ensures r.Err? ==> r.error == TypeError
    ensures r.Ok? ==> (r.value == ReplyOk <==> a == ReplyOk && b == ReplyOk)
    ensures r.Ok? ==> r.value != ReplyTimeout
  {
    if a == ReplyTimeout || b == ReplyTimeout then Err(TypeError)
    else if a == ReplyOk && b == ReplyOk then Ok(ReplyOk)
    else Ok(ReplyError)
  }

  const ContypeCommand: Bytes := "AT+SAPBR=3,1,\"Contype\",\"GPRS\""
  const OpenBearer: Bytes := "AT+SAPBR=1,1"

  function ApnCommand(apn: Bytes): Bytes {
    "AT+SAPBR=3,1,\"APN\",\"" + apn + "\""
  }

  const GprsFailed: PyError := OSError("Failed to setup GPRS")

  /** The states of the two bearer settings `gprs_setup` sends. */
  function GprsReplies(p: Port, apn: Bytes): (r: (Port, ReplyState, ReplyState))
    ensures r.0.written == p.written + [ContypeCommand + "\n"] + [ApnCommand(apn) + "\n"]
    ensures r.0.now >= p.now && r.0.readTimeout == p.readTimeout
  {
    var (q1, r1) := Ask(p, ContypeCommand);
    var (q2, r2) := Ask(q1, ApnCommand(apn));
    (q2, r1.state, r2.state)
  }

  /** `gprs_setup(apn)`: sets the bearer's connection type and APN, both
      commands sent before their states are combined, then opens the
      bearer; OSError when a setting is refused. */
  function GprsSetup(p: Port, apn: Bytes): (r: (Port, Result<bool>))
    ensures var (_, s1, s2) := GprsReplies(p, apn);
            && (r.1 == Ok(true) <==> s1 == ReplyOk && s2 == ReplyOk)
            && (r.1 == Err(TypeError) <==> s1 == ReplyTimeout || s2 == ReplyTimeout)
            && (r.1 == Err(GprsFailed) <==> s1 != ReplyTimeout && s2 != ReplyTimeout && (s1 == ReplyError || s2 == ReplyError))
    ensures r.1.Ok? ==> r.0.written == p.written + [ContypeCommand + "\n"] + [ApnCommand(apn) + "\n"] + [OpenBearer + "\n"]
    ensures r.1.Err? ==> r.0.written == p.written + [ContypeCommand + "\n"] + [ApnCommand(apn) + "\n"]
  {
    var (q, s1, s2) := GprsReplies(p, apn);
    match PyAnd(s1, s2)
    case Err(e) => (q, Err(e))
    case Ok(setup) =>
      if setup != ReplyOk then (q, Err(GprsFailed))
      else (Ask(q, OpenBearer).0, Ok(true))
  }

  /** A modem that sends nothing times out every command. */
  lemma SilentCommand(p: Port, cmd: Bytes)
    requires |p.feed| == 0
    ensures Ask(p, cmd).1.state == ReplyTimeout
    ensures Ask(p, cmd).0.feed == []
  {
  }

  /** With a silent modem `gprs_setup` fails with TypeError, from `&` on
      None, rather than with its own OSError. */
  lemma GprsSetupSilent(p: Port, apn: Bytes)
    requires |p.feed| == 0
    ensures GprsSetup(p, apn).1 == Err(TypeError)
  {
    SilentCommand(p, ContypeCommand);
    SilentCommand(Ask(p, ContypeCommand).0, ApnCommand(apn));
  }

  /** The TLS flag for a URL's scheme: ValueError for any scheme but
      `http:` and `https:`. */
  function SchemeOf(proto: string): (r: Result<int>)
    ensures r == Ok(0) <==> proto == "http:"
    ensures r == Ok(1) <==> proto == "https:"
    ensures r.Err? <==> proto != "http:" && proto != "https:"
    ensures r.Err? ==> r.error == ValueError
  {
    if proto == "http:" then Ok(0)
    else if proto == "https:" then Ok(1)
    else Err(ValueError)
  }

  /** `scheme//rest` splits at its first two slashes into the scheme, an
      empty host field and the rest. */
  lemma UrlParts(scheme: string, rest: string)
    requires '/' !in scheme
    ensures SplitThree(scheme + "//" + rest, '/') == Ok((scheme, [], rest))
  {
    var url := scheme + "//" + rest;
    assert url == scheme + ['/'] + [] + ['/'] + rest;
    SplitThreeOf(scheme, [], rest, '/');
  }

  /** The `+HTTPACTION: <method>,<status>,<length>` line (as text): status
      and length when it has exactly three comma fields that parse;
      ValueError otherwise. */
  function ActionLine(s: string): (r: Result<(int, int)>)
    ensures r.Ok? ==> |Split(s, ',')| == 3
    ensures |Split(s, ',')| != 3 ==> r == Err(ValueError)
    ensures r.Err? ==> r.error == ValueError
  {
    var f := Split(s, ',');
    if |f| != 3 then Err(ValueError)
    else
      var status :- Int(f[1], StrText);
      var length :- Int(f[2], StrText);
      Ok((status, length))
  }

  /** The line the modem sends when an HTTP action ends gives back its
      status and length. */
  lemma ActionLineOf(m: int, status: int, length: int)
    ensures ActionLine(TagLine("+HTTPACTION", m) + "," + Decimal(status) + "," + Decimal(length))
            == Ok((status, length))
  {
    var a := TagLine("+HTTPACTION", m);
    var b := Decimal(status);
    var c := Decimal(length);
    TagLineNoComma("+HTTPACTION", m);
    DecimalNoComma(status);
    DecimalNoComma(length);
    assert a + "," + b + "," + c == a + [','] + (b + [','] + c);
    SplitField(a, ',', b + [','] + c);
    SplitField(b, ',', c);
    SplitWhole(c, ',');
    var line := a + "," + b + "," + c;
    assert Split(line, ',') == [a, b, c];
    DecimalParses(status, StrText);
    DecimalParses(length, StrText);
    assert Int(Split(line, ',')[1], StrText) == Ok(status);
    assert Int(Split(line, ',')[2], StrText) == Ok(length);
  }

  const ActionTimeout: int := 20000
  const ActionIncomplete: PyError := OSError("HTTP ACTION NOT COMPLETE")

  /** The wait for the end of an HTTP action: for 20 s from `ts`, every
      line other than an empty or blank one is decoded and must be the
      action line; OSError when none comes in time. */
  function AwaitAction(p: Port, ts: int): (r: (Port, Result<(int, int)>))
    ensures r.0.written == p.written && r.0.readTimeout == p.readTimeout && r.0.now >= p.now
    ensures r.1.Err? ==> r.1.error == ValueError || r.1.error == ActionIncomplete
    decreases |p.feed|
  {
    if |p.feed| == 0 || Max(p.now, p.feed[0].at) - ts >= ActionTimeout then
      (WaitUntil(p, ts + ActionTimeout), Err(ActionIncomplete))
    else
      var (q, buf) := Take(p);
      if buf == [] || buf == CRLF then AwaitAction(q, ts)
      else (q, ActionLine(ConvertToString(buf)))
  }

  /** Blank lines before the action line are passed over, and nothing
      after it is read. */
  lemma {:induction false} AwaitActionSkipsBlank(p: Port, ts: int, blanks: nat, line: Arrival, rest: seq<Arrival>)
    requires p.feed == seq(blanks, _ => Arrival(p.now, CRLF)) + [line] + rest
    requires p.now <= line.at && line.at - ts < ActionTimeout && p.now - ts < ActionTimeout
    requires line.line != [] && line.line != CRLF
    ensures AwaitAction(p, ts) == (p.(now := line.at, feed := rest), ActionLine(ConvertToString(line.line)))
    decreases blanks
  {
    if blanks > 0 {
      var q := p.(feed := p.feed[1..]);
      BlankShift(p.feed, Arrival(p.now, CRLF), blanks, line, rest);
      AwaitActionBlank(p, ts);
      AwaitActionSkipsBlank(q, ts, blanks - 1, line, rest);
    } else {
      assert p.feed[0] == line && p.feed[1..] == rest by {
        assert p.feed == [line] + rest;
      }
      AwaitActionFirst(p, ts);
    }
  }

  /** Dropping the first of `blanks` equal arrivals leaves one fewer. */
  lemma BlankShift(feed: seq<Arrival>, blank: Arrival, blanks: nat, line: Arrival, rest: seq<Arrival>)
    requires blanks > 0 && feed == seq(blanks, _ => blank) + [line] + rest
    ensures feed[0] == blank && feed[1..] == seq(blanks - 1, _ => blank) + [line] + rest
  {
    assert seq(blanks, _ => blank) == [blank] + seq(blanks - 1, _ => blank);
  }

  /** A line that is not blank, arriving in time, is the action line. */
  lemma AwaitActionFirst(p: Port, ts: int)
    requires |p.feed| > 0 && Max(p.now, p.feed[0].at) - ts < ActionTimeout
    requires p.feed[0].line != [] && p.feed[0].line != CRLF
    ensures AwaitAction(p, ts) == (Take(p).0, ActionLine(ConvertToString(p.feed[0].line)))
  {
  }

  /** One blank line in time is passed over. */
  lemma AwaitActionBlank(p: Port, ts: int)
    requires |p.feed| > 0 && p.feed[0] == Arrival(p.now, CRLF) && p.now - ts < ActionTimeout
    ensures AwaitAction(p, ts) == AwaitAction(p.(feed := p.feed[1..]), ts)
  {
  }

  function UrlCommand(surl: Bytes): Bytes {
    "AT+HTTPPARA=\"URL\",\"" + surl + "\""
  }

  function SslCommand(ssl: int): Bytes {
    "AT+HTTPSSL=" + DecimalBytes(ssl)
  }

  function ActionCommand(action: int): Bytes {
    "AT+HTTPACTION=" + DecimalBytes(action)
  }

  /** The commands `http` sends before it waits for the action to end. */
  function HttpParams(p: Port, surl: Bytes, ssl: int): (r: (Port, Result<ReplyState>))
    ensures r.0.written == p.written + [UrlCommand(surl) + "\n"] + [SslCommand(ssl) + "\n"]
    ensures r.0.now >= p.now && r.0.readTimeout == p.readTimeout
    ensures r.1.Err? ==> r.1.error == TypeError
  {
    var (q1, r1) := Ask(p, UrlCommand(surl));
    var (q2, r2) := Ask(q1, SslCommand(ssl));
    (q2, PyAnd(r1.state, r2.state))
  }

  /** The URL and TLS commands, then the action command when their
      states combine. */
  function HttpSend(p: Port, surl: Bytes, ssl: int, action: int): (r: (Port, Result<ReplyState>))
    ensures r.1.Ok? ==> r.0.written == p.written + [UrlCommand(surl) + "\n"] + [SslCommand(ssl) + "\n"]
                                       + [ActionCommand(action) + "\n"]
    ensures r.1.Err? ==> r.1.error == TypeError
    ensures r.0.now >= p.now && r.0.readTimeout == p.readTimeout
  {
    var (q2, s) := HttpParams(p, surl, ssl);
    match s
    case Err(e) => (q2, Err(e))
    case Ok(s2) =>
      var (q3, r3) := Ask(q2, ActionCommand(action));
      (q3, PyAnd(s2, r3.state))
  }

  /** The wait for the action to end, then `AT+HTTPREAD` and an empty
      command, whose reply text is the response. */
  function HttpFetch(p: Port): (r: (Port, Result<Bytes>))
    ensures r.1.Ok? ==> r.0.written == p.written + ["AT+HTTPREAD" + "\n"] + [[] + "\n"]
    ensures r.1.Err? ==> r.0.written == p.written
    ensures r.1.Err? ==> r.1.error == ValueError || r.1.error == ActionIncomplete
  {
    var (q4, done) := AwaitAction(p, p.now);
    match done
    case Err(e) => (q4, Err(e))
    case Ok(_) =>
      var q5 := Ask(q4, "AT+HTTPREAD").0;
      var (q6, body) := Ask(q5, []);
      (q6, Ok(body.payload))
  }

  /** `http(url, action)`: the URL's path after the scheme and host
      separator, the TLS flag and the action are sent; once the modem
      reports the action's end, the body is read with `AT+HTTPREAD` and
      an empty command, and the last reply's text is the response. The
      reply states are combined with `&`, so a timed-out command raises
      TypeError; a refused one is otherwise ignored. A URL with fewer
      than two slashes or another scheme raises ValueError before
      anything is sent. */
  function Http(p: Port, url: string, action: int): (r: (Port, Result<Bytes>))
    ensures SplitThree(url, '/').Err? ==> r == (p, Err(ValueError))
    ensures SplitThree(url, '/').Ok? && SchemeOf(SplitThree(url, '/').value.0).Err? ==> r == (p, Err(ValueError))
    ensures r.1.Err? ==> r.1.error in {ValueError, TypeError, ActionIncomplete}
  {
    match SplitThree(url, '/')
    case Err(e) => (p, Err(e))
    case Ok((proto, _, surl)) =>
      match SchemeOf(proto)
      case Err(e) => (p, Err(e))
      case Ok(ssl) =>
        var (q, sent) := HttpSend(p, surl, ssl, action);
        match sent
        case Err(e) => (q, Err(e))
        case Ok(_) => HttpFetch(q)
  }

  /** A request that succeeds has sent exactly the URL's path, the TLS
      flag its scheme calls for, the action, `AT+HTTPREAD` and an empty
      command, in that order. */
  lemma HttpWire(p: Port, scheme: string, rest: string, action: int)
    requires scheme == "http:" || scheme == "https:"
    ensures var r := Http(p, scheme + "//" + rest, action);
            r.1.Ok? ==> r.0.written == p.written + [UrlCommand(rest) + "\n"]
                                      + [SslCommand(if scheme == "https:" then 1 else 0) + "\n"]
                                      + [ActionCommand(action) + "\n"] + ["AT+HTTPREAD\n"] + ["\n"]
  {
    UrlParts(scheme, rest);
    assert "AT+HTTPREAD" + "\n" == "AT+HTTPREAD\n";
    assert [] + "\n" == "\n";
  }

  /** With a silent modem a request fails with TypeError once the URL and
      TLS commands are out, and the action itself is never sent. */
  lemma HttpSilent(p: Port, rest: string, action: int)
    requires |p.feed| == 0
    ensures Http(p, "https://" + rest, action)
            == (HttpParams(p, rest, 1).0, Err(TypeError))
    ensures Http(p, "https://" + rest, action).0.written
            == p.written + [UrlCommand(rest) + "\n"] + [SslCommand(1) + "\n"]
  {
    UrlParts("https:", rest);
    assert "https://" + rest == "https:" + "//" + rest;
    SilentParams(p, rest, 1);
  }

  /** With a silent modem the URL command times out, so `&` raises. */
  lemma SilentParams(p: Port, surl: Bytes, ssl: int)
    requires |p.feed| == 0
    ensures HttpParams(p, surl, ssl).1 == Err(TypeError)
  {
    SilentCommand(p, UrlCommand(surl));
  }
}
