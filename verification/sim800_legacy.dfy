/** The older SIM800L driver, the one the rowing computer uses.

    A command is written after throwing away whatever the modem had
    already sent, then the driver sleeps for the command's wait and reads
    a fixed number of lines: the first (the echo or a blank line) is
    thrown away, the second is the command's result, and for a command
    that asks for more lines the following ones are kept, as text, in a
    buffer the parsers read afterwards. Unsolicited lines go through the
    same classifier as in the newer driver (module Urc) with the currency
    text `£`.
 */
module Sim800Legacy {
  import opened Wrappers
  import opened PyText
  import opened Transport
  import opened Sanitize
  import Utf8
  import Sim800

  /** The driver's state: the serial port and the text kept from the
      last multi-line command (None until the first one). */
  datatype Modem = Modem(port: Port, savbuf: Option<string>)

  /** `not buf` for a read: nothing came, or an empty line. */
  predicate Missing(b: Option<Bytes>) {
    b.None? || b.value == []
  }

  /** Whether the text of a kept line goes into the buffer: empty lines
      and `OK` do not. */
  predicate Worth(s: string) {
    s != "" && s != "OK"
  }

  /** The extra lines of a multi-line command: up to `n` reads, stopping
      at the first read that brings nothing; each line is decoded by
      `text` (the driver's `convert_to_string`) and, unless it is empty or
      `OK`, added to `acc` followed by `\n`. */
  function SaveLines(p: Port, n: int, acc: string, text: Bytes -> string): (r: (Port, string))
    ensures r.0.written == p.written && r.0.readTimeout == p.readTimeout && r.0.now >= p.now
    decreases n
  {
    if n <= 0 then (p, acc)
    else
      var (q, buf) := ReadLine(p);
      if Missing(buf) then (q, acc)
      else
        var s := text(buf.value);
        SaveLines(q, n - 1, if Worth(s) then acc + s + "\n" else acc, text)
  }

  /** The buffer text a run of lines gives: each line's text followed by
      `\n`, in order, empty and `OK` lines left out. */
  function Saved(acc: string, lines: seq<Arrival>, text: Bytes -> string): string
    decreases |lines|
  {
    if |lines| == 0 then acc
    else
      var s := text(lines[0].line);
      Saved(if Worth(s) then acc + s + "\n" else acc, lines[1..], text)
  }

  /** Every line has arrived by `t` and none is empty. */
  predicate Ready(lines: seq<Arrival>, t: int) {
    forall i :: 0 <= i < |lines| ==> lines[i].at <= t && lines[i].line != []
  }

  /** Lines that are all there are kept in order, whatever the read
      timeout, as long as the count allows them all. */
  lemma {:induction false} SaveLinesOf(p: Port, n: int, acc: string, text: Bytes -> string)
    requires Ready(p.feed, p.now) && n >= |p.feed|
    ensures SaveLines(p, n, acc, text).1 == Saved(acc, p.feed, text)
    decreases |p.feed|
  {
    if |p.feed| == 0 {
      assert n > 0 ==> ReadLine(p).1.None?;
    } else {
      var s := text(p.feed[0].line);
      var acc' := if Worth(s) then acc + s + "\n" else acc;
      assert ReadLine(p) == (p.(feed := p.feed[1..]), Some(p.feed[0].line));
      ReadyTail(p.feed, p.now);
      SaveLinesOf(p.(feed := p.feed[1..]), n - 1, acc', text);
    }
  }

  lemma ReadyTail(lines: seq<Arrival>, t: int)
    requires Ready(lines, t) && |lines| > 0
    ensures Ready(lines[1..], t)
  {
    forall i | 0 <= i < |lines| - 1
      ensures lines[1..][i].at <= t && lines[1..][i].line != []
    {
      assert lines[1..][i] == lines[i + 1];
    }
  }

  /** The port once a command is written and its wait is over. */
  function Settled(m: Modem, cmd: Bytes, waitfor: int, msgtext: Bytes): Port {
    var q := Write(Drain(m.port), cmd);
    var q := if |msgtext| > 0 then Write(q, msgtext) else q;
    WaitUntil(q, q.now + waitfor)
  }

  /** `command(cmd, lines, waitfor, msgtext)`: drains the input, writes
      the command (and the message body when there is one), sleeps for
      `waitfor` ms, throws the first line away and decodes the second;
      None when the second read brings nothing. With `lines > 1` the
      buffer restarts empty and collects up to `lines - 1` more lines. */
  function Command(m: Modem, cmd: Bytes, lines: int, waitfor: int, msgtext: Bytes): (r: (Modem, Option<string>))
    ensures |msgtext| == 0 ==> r.0.port.written == m.port.written + [cmd]
    ensures |msgtext| > 0 ==> r.0.port.written == m.port.written + [cmd] + [msgtext]
    ensures r.0.port.readTimeout == m.port.readTimeout && r.0.port.now >= m.port.now
    ensures r.1.None? || lines <= 1 ==> r.0.savbuf == m.savbuf
    ensures r.1.Some? && lines > 1 ==> r.0.savbuf.Some?
  {
    var q := ReadLine(Settled(m, cmd, waitfor, msgtext)).0;
    var (q, buf) := ReadLine(q);
    if Missing(buf) then (m.(port := q), None)
    else
      var result := ConvertToString(buf.value);
      if lines > 1 then
        var (q, saved) := SaveLines(q, lines - 1, "", ConvertToString);
        (Modem(q, Some(saved)), Some(result))
      else (m.(port := q), Some(result))
  }

  /** When nothing is pending and the echo and the reply line both come
      within the wait, the result is the reply line's text: the echo is
      never the result. */
  lemma CommandReply(m: Modem, cmd: Bytes, lines: int, waitfor: int, msgtext: Bytes,
                     echo: Arrival, reply: Arrival, post: seq<Arrival>)
    requires !Any(m.port) && waitfor >= 0
    requires m.port.feed == [echo, reply] + post
    requires echo.at <= m.port.now + waitfor && reply.at <= m.port.now + waitfor && reply.line != []
    ensures Command(m, cmd, lines, waitfor, msgtext).1 == Some(ConvertToString(reply.line))
  {
    var _ := ReplyPort(m, cmd, waitfor, msgtext, echo, reply, post);
  }

  /** ... and the lines after it, all there by the end of the wait, make
      up the buffer of a multi-line command. */
  lemma CommandSaves(m: Modem, cmd: Bytes, lines: int, waitfor: int, msgtext: Bytes,
                     echo: Arrival, reply: Arrival, post: seq<Arrival>)
    requires !Any(m.port) && waitfor >= 0
    requires m.port.feed == [echo, reply] + post
    requires echo.at <= m.port.now + waitfor && reply.at <= m.port.now + waitfor && reply.line != []
    requires Ready(post, m.port.now + waitfor) && lines - 1 >= |post| && lines > 1
    ensures Command(m, cmd, lines, waitfor, msgtext).0.savbuf == Some(Saved("", post, ConvertToString))
  {
    var q := ReplyPort(m, cmd, waitfor, msgtext, echo, reply, post);
    SaveLinesOf(q, lines - 1, "", ConvertToString);
  }

  /** The port right after the reply line is read. */
  lemma ReplyPort(m: Modem, cmd: Bytes, waitfor: int, msgtext: Bytes, echo: Arrival, reply: Arrival,
                  post: seq<Arrival>) returns (q: Port)
    requires !Any(m.port) && waitfor >= 0
    requires m.port.feed == [echo, reply] + post
    requires echo.at <= m.port.now + waitfor && reply.at <= m.port.now + waitfor
    ensures q.feed == post && q.now == m.port.now + waitfor
    ensures var s := Settled(m, cmd, waitfor, msgtext);
            ReadLine(ReadLine(s).0) == (q, Some(reply.line))
  {
    var s := Settled(m, cmd, waitfor, msgtext);
    assert Drain(m.port) == m.port;
    assert s.feed == m.port.feed && s.now == m.port.now + waitfor;
    var s1 := ReadLine(s).0;
    assert s1.feed == [reply] + post && s1.now == s.now;
    q := ReadLine(s1).0;
  }

  /** `_check_result(errmsg, expected, res)`: raises the driver's error
      exactly when the reply is there, is not the text `None`, and
      differs from what was expected; a missing reply passes. */
  function CheckResult(expected: string, res: Option<string>): (r: Result<()>)
    ensures r.Err? <==> res.Some? && res.value != "" && res.value != "None" && res.value != expected
    ensures r.Err? ==> r.error == ModemError
  {
    var shown := if res.None? || res.value == "" then "None" else res.value;
    if expected != shown && shown != "None" then Err(ModemError) else Ok(())
  }

  // ---------------------------------------------------------------------
  // Field parsers

  /** The comma fields of a result line whose first field is not empty
      and whose tag, the text before its first `:`, is exactly `tag`. */
  function Tagged(result: Option<string>, tag: string): (r: Option<seq<string>>)
    ensures r.Some? ==> result.Some? && r.value == Split(result.value, ',')
    ensures r.Some? ==> Split(r.value[0], ':')[0] == tag
    ensures result.Some? && result.value != "" && Split(Split(result.value, ',')[0], ':')[0] == tag && tag != ""
            ==> r.Some?
  {
    if result.None? || result.value == "" then None
    else
      var params := Split(result.value, ',');
      if params[0] == "" then None
      else if Split(params[0], ':')[0] == tag then Some(params)
      else None
  }

  /** `signal_strength()` on the result of `AT+CSQ`: the rssi mapped onto
      0..5, or 0 for 99, another tag or no result. */
  function SignalOf(result: Option<string>): (v: Result<int>)
    ensures Tagged(result, "+CSQ").None? ==> v == Ok(0)
    ensures v.Err? ==> v.error == IndexError || v.error == ValueError
  {
    match Tagged(result, "+CSQ")
    case None => Ok(0)
    case Some(params) =>
      var params2 := Split(params[0], ':');
      if |params2| < 2 then Err(IndexError)
      else
        var x :- Int(params2[1], StrText);
        Ok(if x == 99 then 0 else Sim800.RoundSixth(x))
  }

  /** A `+CSQ: <rssi>,<ber>` result gives the rssi on a scale of six. */
  lemma SignalOfCsq(rssi: int, rest: string)
    requires |rest| == 0 || rest[0] == ','
    ensures SignalOf(Some(Sim800.TagLine("+CSQ", rssi) + rest))
            == Ok(if rssi == 99 then 0 else Sim800.RoundSixth(rssi))
  {
    var head := Sim800.TagLine("+CSQ", rssi);
    Sim800.TagLineNoComma("+CSQ", rssi);
    FirstField(head, ',', rest);
    Sim800.TagLineSplit("+CSQ", rssi);
    Sim800.SpacedNumber(rssi, StrText);
  }

  /** `battery_charge()` on the result of `AT+CBC`: the second comma
      field when the tag is `+CBC`, else 0. */
  function BatteryOf(result: Option<string>): (v: Result<int>)
    ensures Tagged(result, "+CBC").None? ==> v == Ok(0)
    ensures v.Err? ==> v.error == IndexError || v.error == ValueError
  {
    match Tagged(result, "+CBC")
    case None => Ok(0)
    case Some(params) =>
      if |params| < 2 then Err(IndexError) else Int(params[1], StrText)
  }

  /** A `+CBC: <bcs>,<bcl>,<mV>` result gives the charge level. */
  lemma BatteryOfCbc(bcs: int, level: int, rest: string)
    requires |rest| == 0 || rest[0] == ','
    ensures BatteryOf(Some(Sim800.TagLine("+CBC", bcs) + "," + Decimal(level) + rest)) == Ok(level)
  {
    Sim800.TagLineNoComma("+CBC", bcs);
    DecimalNoComma(level);
    SecondField(Sim800.TagLine("+CBC", bcs), ',', Decimal(level), rest);
    Sim800.TagLineSplit("+CBC", bcs);
    DecimalParses(level, StrText);
  }

  /** `network_name()` on the result of `AT+COPS?`: the text between the
      first pair of quotes in the third comma field, else empty. */
  function NetworkOf(result: Option<string>): (v: string)
    ensures Tagged(result, "+COPS").None? ==> v == ""
  {
    match Tagged(result, "+COPS")
    case None => ""
    case Some(params) =>
      if |params| > 2 then
        var names := Split(params[2], '"');
        if |names| > 1 then names[1] else ""
      else ""
  }

  /** A `+COPS:<mode>,<format>,"<operator>"` result gives the operator. */
  lemma NetworkOfCops(mode: string, format: string, name: string, rest: string)
    requires ',' !in mode && ',' !in format
    requires '"' !in name && ',' !in name
    requires |rest| == 0 || rest[0] == ','
    ensures NetworkOf(Some(("+COPS:" + mode) + "," + format + "," + Sim800.Quoted(name) + rest)) == name
  {
    var head := "+COPS:" + mode;
    Sim800.CopsHead(mode);
    Sim800.QuotedNoComma(name);
    ThirdField(head, ',', format, Sim800.Quoted(name), rest);
    Sim800.QuotedSplit(name, []);
    assert Sim800.Quoted(name) + [] == Sim800.Quoted(name);
  }

  /** A message as `read_sms` returns it: number, date and time from the
      header, and the kept lines, which hold the message text. */
  datatype Sms = Sms(number: string, date: string, time: string, text: Option<string>)

  /** `read_sms(id)` on the result of `AT+CMGR=<id>` and the kept lines:
      comma fields 1, 3 and 4 of the header with quotes turned into
      spaces and trimmed; None for another tag; IndexError for fewer than
      five fields. */
  function ReadSmsOf(result: Option<string>, savbuf: Option<string>): (v: Result<Option<Sms>>)
    ensures Tagged(result, "+CMGR").None? ==> v == Ok(None)
    ensures v.Err? ==> v.error == IndexError
    ensures v.Ok? && v.value.Some? ==> v.value.value.text == savbuf
    ensures v.Ok? && v.value.Some? ==> '"' !in v.value.value.number && '"' !in v.value.value.time
  {
    match Tagged(result, "+CMGR")
    case None => Ok(None)
    case Some(params) =>
      if |params| < 5 then Err(IndexError)
      else Ok(Some(Sms(Sim800.Clean(params[1], IsStrSpace), Sim800.Clean(params[3], IsStrSpace), Sim800.Clean(params[4], IsStrSpace), savbuf)))
  }

  /** The header line `+CMGR:<stat>,"<number>",<alpha>,"<date>,<time>"`
      gives back number, date and time: this driver reads the message
      text separately, so the time stays clean. */
  lemma ReadSmsHeader(stat: string, number: string, alpha: string, date: string, time: string,
                      savbuf: Option<string>)
    requires ',' !in stat && ',' !in number && ',' !in alpha && ',' !in date && ',' !in time
    requires '"' !in number && '"' !in date && '"' !in time
    requires Trimmed(number, IsStrSpace) && Trimmed(date, IsStrSpace) && Trimmed(time, IsStrSpace)
    ensures ReadSmsOf(Some(Join(Sim800.CmgrHead(stat, number, alpha, date, time + "\""), ',')), savbuf)
            == Ok(Some(Sms(number, date, time, savbuf)))
  {
    var line := Join(Sim800.CmgrHead(stat, number, alpha, date, time + "\""), ',');
    Sim800.CmgrSplit(stat, number, alpha, date, time + "\"");
    Sim800.CmgrTag(stat);
    assert line != "" by {
      SplitJoin(line, ',');
      if line == "" {
        SplitWhole(line, ',');
      }
    }
    var params := Sim800.CmgrHead(stat, number, alpha, date, time + "\"");
    assert Split(line, ',') == params;
    assert Tagged(Some(line), "+CMGR") == Some(params);
    Sim800.CleanQuoted(number, IsStrSpace);
    Sim800.CleanOpenQuote(date, IsStrSpace);
    Sim800.CleanCloseQuote(time, IsStrSpace);
    assert params[1] == Sim800.Quoted(number) && params[3] == "\"" + date && params[4] == time + "\"";
  }

  /** `send_sms`'s verdict: success only when the result line is `>` and
      the kept text's first `:` field is `+CUSD` or `+CMGS`. */
  function SendSmsOk(result: Option<string>, savbuf: Option<string>): (v: bool)
    ensures v ==> result == Some(">") && savbuf.Some? && savbuf.value != ""
  {
    && result == Some(">") && savbuf.Some? && savbuf.value != ""
    && var f := Split(savbuf.value, ':')[0];
       f == "+CUSD" || f == "+CMGS"
  }

  function CmgsCommand(destno: Bytes): Bytes {
    "AT+CMGS=\"" + destno + "\"\n"
  }

  /** `send_sms(destno, msgtext)`: the command and the body ended by
      Ctrl-Z go out together, then five seconds later the prompt and the
      confirmation are read back. */
  function SendSms(m: Modem, destno: Bytes, msgtext: Bytes): (r: (Modem, bool))
    ensures r.0.port.written == m.port.written + [CmgsCommand(destno)] + [msgtext + [Sim800.CtrlZ]]
    ensures r.1 ==> r.0.savbuf.Some? && r.0.savbuf.value != ""
  {
    var (m1, result) := Command(m, CmgsCommand(destno), 99, 5000, msgtext + [Sim800.CtrlZ]);
    (m1, SendSmsOk(result, m1.savbuf))
  }

  /** A prompt line followed by `+CMGS: <mr>` within the wait is a
      success (3GPP TS 27.005, section 3.5.1). */
  lemma SendSmsConfirmed(m: Modem, destno: Bytes, msgtext: Bytes, echo: Arrival, prompt: Arrival,
                         confirm: Arrival, mr: int)
    requires !Any(m.port)
    requires m.port.feed == [echo, prompt, confirm]
    requires echo.at <= m.port.now + 5000 && prompt.at <= m.port.now + 5000 && confirm.at <= m.port.now + 5000
    requires prompt.line != [] && ConvertToString(prompt.line) == ">"
    requires confirm.line != [] && ConvertToString(confirm.line) == Sim800.TagLine("+CMGS", mr)
    ensures SendSms(m, destno, msgtext).1
  {
    var cmd := CmgsCommand(destno);
    var body := msgtext + [Sim800.CtrlZ];
    CommandReply(m, cmd, 99, 5000, body, echo, prompt, [confirm]);
    assert Ready([confirm], m.port.now + 5000);
    CommandSaves(m, cmd, 99, 5000, body, echo, prompt, [confirm]);
    SavedOne(confirm, ConvertToString);
    SendSmsOkCmgs(mr);
  }

  /** One worthwhile line is kept with its newline. */
  lemma SavedOne(a: Arrival, text: Bytes -> string)
    requires Worth(text(a.line))
    ensures Saved("", [a], text) == text(a.line) + "\n"
  {
    assert Saved("", [a], text) == Saved("" + text(a.line) + "\n", [], text);
  }

  /** A `+CMGS: <mr>` confirmation after the prompt is accepted. */
  lemma SendSmsOkCmgs(mr: int)
    ensures Worth(Sim800.TagLine("+CMGS", mr))
    ensures SendSmsOk(Some(">"), Some(Sim800.TagLine("+CMGS", mr) + "\n"))
  {
    var t := Sim800.TagLine("+CMGS", mr);
    assert |t| > 2;
    Sim800.TagLineSplit("+CMGS", mr);
    assert t + "\n" == "+CMGS" + ([':'] + (" " + DecimalBytes(mr) + "\n"));
    FirstField("+CMGS", ':', [':'] + (" " + DecimalBytes(mr) + "\n"));
  }

  /** `date_time()` on the result of `AT+CCLK?`: the clock text of a
      `+CCLK` line, else empty. */
  function DateTimeOf(result: Option<string>): (v: Result<string>)
    ensures result.None? || result == Some("") ==> v == Ok("")
    ensures v.Err? ==> v.error == IndexError && '"' !in result.value
    ensures v.Ok? ==> '"' !in v.value
    ensures v.Ok? && v.value != "" ==> result.Some? && Prefix(result.value, 5) == "+CCLK"
  {
    if result.None? || result.value == "" then Ok("") else Sim800.CclkTime(result.value)
  }

  /** A `+CCLK: "<t>"` result gives `t`. */
  lemma DateTimeOfCclk(t: string, rest: string)
    requires '"' !in t
    ensures DateTimeOf(Some("+CCLK: " + Sim800.Quoted(t) + rest)) == Ok(t)
  {
    Sim800.CclkTimeOf(t, rest);
  }

  // ---------------------------------------------------------------------
  // HTTP GET over GPRS

  /** A step of `http_get`: a command, its line count and its wait. */
  datatype Step = Step(cmd: Bytes, lines: int, waitfor: int)

  /** The commands of a list of steps, in order. */
  function Cmds(steps: seq<Step>): (r: seq<Bytes>)
    ensures |r| == |steps| && forall i :: 0 <= i < |steps| ==> r[i] == steps[i].cmd
    decreases |steps|
  {
    if |steps| == 0 then [] else [steps[0].cmd] + Cmds(steps[1..])
  }

  /** An AT command line as the driver sends it: `AT+`, then the command,
      then a newline. */
  predicate AtCommand(c: Bytes) {
    |c| > 3 && c[..3] == "AT+" && c[|c| - 1] == '\n'
  }

  /** The line for command `body`. */
  function At(body: Bytes): Bytes {
    "AT+" + body + "\n"
  }

  lemma AtLine(body: Bytes)
    ensures AtCommand(At(body)) && At(body)[3..|At(body)| - 1] == body
  {
    var c := At(body);
    assert c[..3] == "AT+" && c[3..|c| - 1] == body;
  }

  /** The eight steps before the wait: bearer type, APN, bearer open,
      HTTP service start, bearer id, URL, TLS flag and the GET action. */
  function HttpSteps(apn: Bytes, surl: Bytes, ssl: int): seq<Step> {
    [ Step(At("SAPBR=3,1,\"Contype\",\"GPRS\""), 1, 500),
      Step(At("SAPBR=3,1,\"APN\",\"" + apn + "\""), 1, 500),
      Step(At("SAPBR=1,1"), 1, 2000),
      Step(At("HTTPINIT"), 1, 500),
      Step(At("HTTPPARA=\"CID\",1"), 1, 500),
      Step(At("HTTPPARA=\"URL\",\"" + surl + "\""), 1, 500),
      Step(At("HTTPSSL=" + DecimalBytes(ssl)), 1, 500),
      Step(At("HTTPACTION=0"), 1, 500) ]
  }

  /** Each of the eight is an AT command line answered by one line, and
      only opening the bearer waits 2000 ms rather than 500. */
  lemma HttpStepsShape(apn: Bytes, surl: Bytes, ssl: int)
    ensures var r := HttpSteps(apn, surl, ssl);
            && |r| == 8
            && (forall i :: 0 <= i < |r| ==> AtCommand(r[i].cmd) && r[i].lines == 1)
            && (forall i :: 0 <= i < |r| ==> r[i].waitfor == (if i == 2 then 2000 else 500))
  {
    var r := HttpSteps(apn, surl, ssl);
    forall i | 0 <= i < |r| ensures AtCommand(r[i].cmd) {
      AtLine(r[i].cmd[3..|r[i].cmd| - 1]);
    }
  }

  /** `after` is `before` followed by the first few of `cmds`. */
  predicate Began(before: seq<Bytes>, after: seq<Bytes>, cmds: seq<Bytes>) {
    |before| <= |after| <= |before| + |cmds| && after == before + cmds[..|after| - |before|]
  }

  /** Runs the steps in order, each result checked against `OK`; the
      first refusal stops the run with the driver's error. */
  function RunSteps(m: Modem, steps: seq<Step>): (r: (Modem, Result<()>))
    ensures r.1.Ok? ==> r.0.port.written == m.port.written + Cmds(steps)
    ensures r.1.Err? ==> r.1.error == ModemError && Began(m.port.written, r.0.port.written, Cmds(steps))
    ensures r.0.port.readTimeout == m.port.readTimeout && r.0.port.now >= m.port.now
    decreases |steps|
  {
    if |steps| == 0 then (m, Ok(()))
    else
      var (m1, res) := Command(m, steps[0].cmd, steps[0].lines, steps[0].waitfor, []);
      match CheckResult("OK", res)
      case Err(e) =>
        BeganOne(m.port.written, steps[0].cmd, Cmds(steps[1..]));
        (m1, Err(e))
      case Ok(_) =>
        var r := RunSteps(m1, steps[1..]);
        BeganMore(m.port.written, steps[0].cmd, r.0.port.written, Cmds(steps[1..]));
        r
  }

  lemma BeganOne(before: seq<Bytes>, c: Bytes, cmds: seq<Bytes>)
    ensures Began(before, before + [c], [c] + cmds)
  {
    assert ([c] + cmds)[..1] == [c];
  }

  lemma BeganMore(before: seq<Bytes>, c: Bytes, after: seq<Bytes>, cmds: seq<Bytes>)
    ensures Began(before + [c], after, cmds) ==> Began(before, after, [c] + cmds)
  {
    if Began(before + [c], after, cmds) {
      var k := |after| - |before| - 1;
      assert ([c] + cmds)[..k + 1] == [c] + cmds[..k];
    }
  }

  /** The wait for the end of the action: at most `tries` reads; the
      first read that brings a non-empty line ends it, and that line must
      be the action line (ValueError otherwise). None when no read
      brought a line. The driver also tests the line against `\r\n`,
      but as a string, which bytes never equal. */
  function AwaitCompletion(p: Port, tries: nat): (r: (Port, Result<Option<int>>))
    ensures r.0.written == p.written && r.0.readTimeout == p.readTimeout && r.0.now >= p.now
    ensures |p.feed| - tries <= |r.0.feed| <= |p.feed|
    ensures r.1.Err? ==> r.1.error == ValueError
    decreases tries
  {
    if tries == 0 then (p, Ok(None))
    else
      var (q, buf) := ReadLine(p);
      if !Missing(buf) then
        match Sim800.ActionLine(ConvertToString(buf.value))
        case Err(e) => (q, Err(e))
        case Ok((_, nbytes)) => (q, Ok(Some(nbytes)))
      else AwaitCompletion(q, tries - 1)
  }

  /** A blank line ends the wait and fails the three-field unpacking. */
  lemma AwaitCompletionBlank(p: Port, tries: nat)
    requires tries > 0 && |p.feed| > 0 && p.feed[0].line == Sim800.CRLF
    requires p.feed[0].at <= p.now + p.readTimeout
    ensures AwaitCompletion(p, tries).1 == Err(ValueError)
  {
    assert ReadLine(p).1 == Some(Sim800.CRLF);
    assert !Missing(ReadLine(p).1);
    BlankActionLine();
  }

  /** The text of a bare line terminator has no fields to unpack. */
  lemma BlankActionLine()
    ensures Sim800.ActionLine(ConvertToString(Sim800.CRLF)) == Err(ValueError)
  {
    ConvertCrlf();
    assert |Split("", ',')| == 1 by {
      SplitWhole("", ',');
    }
  }

  lemma ConvertCrlf()
    ensures ConvertToString(Sim800.CRLF) == ""
  {
    assert Utf8.AllAscii(Sim800.CRLF) && IsStrSpace('\r') && IsStrSpace('\n');
    ConvertBlank(Sim800.CRLF);
  }

  const ReadCommand: Bytes := "AT+HTTPREAD\n"
  const Cleanup: seq<Bytes> := ["AT+HTTPTERM\n", "AT+SAPBR=0,1\n"]

  /** After the steps: the wait for the action's end, then `AT+HTTPREAD`
      and `nbytes` bytes of the body, with the read command's result
      checked against `+HTTPREAD: <nbytes>`. NameError when the
      action never reported its end; TypeError when the body read brings
      nothing. */
  function Fetch(m: Modem): (r: (Modem, Result<Bytes>))
    ensures r.1.Ok? ==> r.0.port.written == m.port.written + [ReadCommand]
    ensures r.0.port.written == m.port.written || r.0.port.written == m.port.written + [ReadCommand]
    ensures r.1.Err? ==> r.1.error in {ModemError, ValueError, NameError, TypeError}
  {
    var (p2, done) := AwaitCompletion(m.port, 20);
    var m2 := m.(port := p2);
    match done
    case Err(e) => (m2, Err(e))
    case Ok(nbytes) =>
      var (m3, res) := Command(m2, ReadCommand, 1, 500, []);
      if nbytes.None? then (m3, Err(NameError))
      else ReadBody(m3, nbytes.value, res)
  }

  /** The body read once `AT+HTTPREAD` has answered `res`: a negative
      length reads as a zero one, and a zero length is the empty body. */
  function ReadBody(m: Modem, n: int, res: Option<string>): (r: (Modem, Result<Bytes>))
    ensures r.0.port.written == m.port.written
    ensures r.1.Err? ==> r.1.error in {ModemError, TypeError}
    ensures r.1.Ok? ==> CheckResult("+HTTPREAD: " + Decimal(n), res).Ok? && |r.1.value| <= Max(n, 0)
    ensures n <= 0 ==> r.1 == (if CheckResult("+HTTPREAD: " + Decimal(n), res).Ok? then Ok([]) else Err(ModemError))
  {
    var (p, buf) := ReadBytes(m.port, if n < 0 then 0 else n);
    var m1 := m.(port := p);
    match CheckResult("+HTTPREAD: " + Decimal(n), res)
    case Err(e) => (m1, Err(e))
    case Ok(_) =>
      if buf.None? then (m1, Err(TypeError)) else (m1, Ok(buf.value))
  }

  /** The body of the `try` block: the steps, then the fetch. */
  function Attempt(m: Modem, apn: Bytes, surl: Bytes, ssl: int): (r: (Modem, Result<Bytes>))
    ensures r.1.Ok? ==> r.0.port.written == m.port.written + Cmds(HttpSteps(apn, surl, ssl)) + [ReadCommand]
    ensures Began(m.port.written, r.0.port.written, Cmds(HttpSteps(apn, surl, ssl)) + [ReadCommand])
    ensures r.1.Err? ==> r.1.error in {ModemError, ValueError, NameError, TypeError}
  {
    var steps := HttpSteps(apn, surl, ssl);
    var (m1, ok) := RunSteps(m, steps);
    BeganExtend(m.port.written, m1.port.written, Cmds(steps), [ReadCommand]);
    if ok.Err? then (m1, Err(ok.error))
    else
      var r := Fetch(m1);
      BeganAll(m.port.written, Cmds(steps), [ReadCommand]);
      r
  }

  /** A prefix of the commands is a prefix of a longer list. */
  lemma BeganExtend(before: seq<Bytes>, after: seq<Bytes>, cmds: seq<Bytes>, extra: seq<Bytes>)
    ensures Began(before, after, cmds) ==> Began(before, after, cmds + extra)
  {
    if Began(before, after, cmds) {
      assert (cmds + extra)[..|after| - |before|] == cmds[..|after| - |before|];
    }
  }

  /** All the commands, or all of them and the extra ones, were written. */
  lemma BeganAll(before: seq<Bytes>, cmds: seq<Bytes>, extra: seq<Bytes>)
    ensures Began(before, before + cmds, cmds + extra)
    ensures Began(before, before + cmds + extra, cmds + extra)
  {
    assert (cmds + extra)[..|cmds|] == cmds;
    assert (cmds + extra)[..|cmds + extra|] == cmds + extra;
  }

  /** Closes the HTTP service and then the bearer. */
  function Close(m: Modem): (r: Modem)
    ensures r.port.written == m.port.written + Cleanup
  {
    var m1 := Command(m, Cleanup[0], 1, 500, []).0;
    Command(m1, Cleanup[1], 1, 500, []).0
  }

  /** `http_get(url, apn)`: the URL must be `http:` or `https:` with two
      slashes, else ValueError before anything is written. The driver's
      own error from a checked step is caught and makes the response
      None; the service and the bearer are closed after success and
      after that error, but any other error leaves them open. */
  function HttpGet(m: Modem, url: string, apn: Bytes): (r: (Modem, Result<Option<Bytes>>))
    ensures SplitThree(url, '/').Err? ==> r == (m, Err(ValueError))
    ensures SplitThree(url, '/').Ok? && Sim800.SchemeOf(SplitThree(url, '/').value.0).Err? ==> r == (m, Err(ValueError))
    ensures r.1.Err? ==> r.1.error in {ValueError, NameError, TypeError}
  {
    match SplitThree(url, '/')
    case Err(e) => (m, Err(e))
    case Ok((proto, _, surl)) =>
      match Sim800.SchemeOf(proto)
      case Err(e) => (m, Err(e))
      case Ok(ssl) =>
        Conclude(Attempt(m, apn, surl, ssl))
  }

  /** The `except` and `finally` of `http_get`: the driver's own error
      becomes a None response; the service is closed after a response and
      after that error only. */
  function Conclude(attempt: (Modem, Result<Bytes>)): (r: (Modem, Result<Option<Bytes>>))
    ensures r.1.Ok? ==> r.0.port.written == attempt.0.port.written + Cleanup
    ensures r.1.Err? ==> attempt.1.Err? && attempt.1.error != ModemError && r == (attempt.0, Err(attempt.1.error))
    ensures r.1 == Ok(None) <==> attempt.1 == Err(ModemError)
    ensures r.1.Ok? && r.1.value.Some? <==> attempt.1.Ok?
  {
    var (m1, body) := attempt;
    match body
    case Ok(b) => (Close(m1), Ok(Some(b)))
    case Err(e) => if e == ModemError then (Close(m1), Ok(None)) else (m1, Err(e))
  }

  /** What a request writes, by outcome, after `before`: a response
      comes after all the commands `all`, then the two closing commands; a
      None response after some of them, then the closing commands; an
      error after some of them and no closing command. */
  predicate WireShape(before: seq<Bytes>, all: seq<Bytes>, r: (Modem, Result<Option<Bytes>>)) {
    && (r.1.Ok? && r.1.value.Some? ==> r.0.port.written == before + all + Cleanup)
    && (r.1 == Ok(None) ==> Closed(before, r.0.port.written, all))
    && (r.1.Err? ==> Began(before, r.0.port.written, all))
  }

  /** `after` is some of the commands, then the closing commands. */
  predicate Closed(before: seq<Bytes>, after: seq<Bytes>, all: seq<Bytes>) {
    |after| >= |Cleanup| && after[|after| - |Cleanup|..] == Cleanup
    && Began(before, after[..|after| - |Cleanup|], all)
  }

  /** What `http_get` writes after an attempt that wrote some of `all`
      (and all of it when it succeeded), by outcome. */
  lemma ConcludeWire(a: (Modem, Result<Bytes>), before: seq<Bytes>, all: seq<Bytes>)
    requires Began(before, a.0.port.written, all)
    requires a.1.Ok? ==> a.0.port.written == before + all
    ensures WireShape(before, all, Conclude(a))
  {
    var w := a.0.port.written;
    if Conclude(a).1 == Ok(None) {
      assert (w + Cleanup)[..|w|] == w;
      assert (w + Cleanup)[|w|..] == Cleanup;
    }
  }

  /** A well-formed URL goes straight to the attempt. */
  lemma HttpGetRoute(m: Modem, scheme: string, rest: string, apn: Bytes)
    requires scheme == "http:" || scheme == "https:"
    ensures HttpGet(m, scheme + "//" + rest, apn)
            == Conclude(Attempt(m, apn, rest, if scheme == "https:" then 1 else 0))
  {
    Sim800.UrlParts(scheme, rest);
    assert Sim800.SchemeOf(scheme) == Ok(if scheme == "https:" then 1 else 0);
  }

  /** With nothing arriving, every try waits out the read timeout and
      the wait ends without a length. */
  lemma {:induction false} AwaitCompletionSilent(p: Port, tries: nat)
    requires |p.feed| == 0
    ensures AwaitCompletion(p, tries) == (p.(now := p.now + tries * p.readTimeout), Ok(None))
    decreases tries
  {
    if tries > 0 {
      var q := p.(now := p.now + p.readTimeout);
      assert ReadLine(p) == (q, None);
      AwaitCompletionSilent(q, tries - 1);
      assert q.now + (tries - 1) * p.readTimeout == p.now + tries * p.readTimeout;
    }
  }

  /** When the action never reports its end, the read command still goes
      out, then the unset length raises NameError. */
  lemma FetchNoCompletion(m: Modem)
    requires |m.port.feed| == 0
    ensures Fetch(m).1 == Err(NameError)
    ensures Fetch(m).0.port.written == m.port.written + [ReadCommand]
  {
    AwaitCompletionSilent(m.port, 20);
  }
}
