# python-rowing-meter core, modelled in Dafny

This project models the core logic of a MicroPython rowing computer:

- the two generations of the SIM800L GSM-modem driver: AT-command replies, reply-field parsing, unsolicited notifications, and HTTP over GPRS;
- the NMEA GPS driver: sentence framing and checksum, and the GGA and RMC sentences;
- the accelerometer stroke tracker;
- the enable-gated chronometer;
- the file logger and its rate-limited transducer logger;
- the display and power-button helpers of the main program.

Every operation is a pure function over immutable data. The modem and the GPS are reached through a modelled serial port. A port is a clock, the lines still to arrive (each with the millisecond it arrives at), a readline timeout, and the list of writes so far. Time comes in through parameters, and `ticks_diff` is plain subtraction. Registered callbacks are not run; each call of one is recorded as an event. Python exceptions are results: `Err(ValueError)`, `Err(TypeError)` and so on, with the driver's `SIM800LError` as `ModemError`.

Python's built-ins are modelled on MicroPython, the interpreter the code runs on. `strip()` and `int()` know only the six ASCII white-space characters. `int(s)` reads as MicroPython's number parser does with base 0: an optional sign, then `0x`, `0o` or `0b` in either case for base 16, 8 or 2, otherwise base 10. `int(s, 16)` also skips a `0x`. An underscore among the digits is skipped in every base, and letters are digits up to the base. `bytes.decode` and `str(b, enc)` run MicroPython's lax UTF-8 check and ignore the encoding they are given. `uart.read(0)` returns the empty bytes at once. `b'%s' % s` is concatenation.

Files and modules:

- `wrappers.dfy` (`Wrappers`): Option and Result, and the Python exceptions.
- `pytext.dfy` (`PyText`): the parts of Python's `str`/`bytes` methods (`strip`, `split`, `find`, `replace`, `lower`, `upper`, `int()`, `'%d'`, `'{:02x}'`) that the drivers use.
- `pyfloat.dfy` (`PyFloat`): `float()` on decimal text, `int()` of a float, and truncating division.
- `utf8.dfy`, `sanitize.dfy` (`Utf8`, `Sanitize`): `_convert_to_string`.
- `transport.dfy` (`Transport`): the serial port.
- `sim800.dfy` (`Sim800`): the newer modem driver.
- `sim800_legacy.dfy` (`Sim800Legacy`): the older modem driver.
- `urc.dfy` (`Urc`): `check_incoming`, which both drivers share.
- `gps.dfy` (`Gps`): the GPS driver.
- `stroke.dfy` (`Stroke`): the stroke tracker.
- `chrono.dfy` (`Chrono`): the chronometer.
- `logging.dfy` (`Logging`): `Log` and `TransLog`.
- `panel.dfy` (`Panel`): the main-program helpers.

Where the code does something other than what its comments or names suggest, the model follows the code:

- In the newer driver, a line holding the detect text ends the wait with the timeout state (None), not OK.
- In both drivers, a `+CMTI` notification takes the message index from the second comma field.
- In both drivers, `NO CARRIER` calls its handler without checking that one is registered, so with none registered it is a TypeError.
- In the newer driver, `&=` on reply states raises TypeError as soon as one reply timed out (its state is None). So `gprs_setup` and `http` on a silent modem end in TypeError, not in the OSError or the None response they were written to give.
- In the older driver, `buf == '\r\n'` compares bytes with a str and never holds. A blank line therefore ends the HTTP completion wait and then fails the three-field unpack with ValueError, and the closing commands are skipped.
- In the older driver, `_check_result` lets a missing or empty reply through, and also the literal text `None`.
- In the older driver, a completion wait that sees nothing leaves `nbytes` unbound: NameError, after `AT+HTTPREAD` has been written.
- In the GPS driver, `str(sentence, 'ascii')` does not reject non-ASCII bytes on MicroPython: a sentence that passes the UTF-8 check goes on to the checksum test.
- In the GPS driver, an empty time field reaches `int(None)`, a TypeError. A `*` suffix whose two characters are not hexadecimal is a ValueError, not a None.
- `TransLog.log` sets the last-log time before the write, so a failed write still starts the rate-limit interval.

## Model

| member | source | states |
|---|---|---|
| Sanitize.MaskHighBytes | devices/sim800l.py:24-27 | every byte above 127 becomes `#`, every other byte is kept, the length is unchanged and the result is ASCII |
| Sanitize.ConvertToString | devices/sim800l.py:19-28 | bytes that pass MicroPython's UTF-8 check are decoded and stripped of ASCII white space; otherwise the masked bytes are; it is total, so it never raises |
| Sanitize.ConvertOverlong | devices/sim800l.py:19-22 | the overlong NUL `b'\xc0\x80'` is decoded, not masked |
| Sanitize.ConvertAscii | devices/sim800l.py:19-22 | ASCII input comes back only stripped |
| Sanitize.ConvertOneHighByte | devices/sim800l.py:23-28 | a lone non-ASCII byte between ASCII text makes the decode fail and shows as `#` |
| Sanitize.ConvertBlank | devices/sim800l.py:19-22 | a line of whitespace converts to the empty string |
| Utf8.DecodeOne | devices/sim800l.py:21 | a sequence is accepted iff its lead byte is not a continuation byte and is below 0xF8, and the 0 to 3 continuation bytes it announces follow; it uses exactly that many bytes, and ASCII reads as itself |
| Utf8.DecodeOverlong | devices/sim800l.py:21 | MicroPython's lax check accepts the overlong form of NUL and reads it as NUL |
| Utf8.DecodeAscii | devices/sim800l.py:21 | ASCII bytes decode to themselves |
| Utf8.DecodeLoneHighByte | devices/sim800l.py:21-23 | a lone high byte between ASCII text is a decode error |
| Transport.Drain | devices/sim800l.py:107-108 | draining leaves nothing ready; only lines that had arrived are dropped, and the clock and writes are unchanged |
| Transport.DrainKeepsLater | devices/sim800l.py:107-108 | after draining a time-ordered feed, every line left arrives after now |
| Transport.ReadLine | rowing/devices/sim800l.py:81-83 | a read returns the next line iff it arrives within the read timeout; otherwise None, after the full timeout |
| Transport.ReadBytes | rowing/devices/sim800l.py:280 | `read(0)` is the empty bytes at once; for n > 0, `read(n)` returns between 1 and n bytes, or None when nothing arrives in time |
| Sim800.Judge | devices/sim800l.py:85-100 | a line is skipped iff it is exactly CRLF; OK is tested before ERROR on the stripped line; the detect text stops only a non-terminal line |
| Sim800.Collect | devices/sim800l.py:76-102 | the wait reads without writing and never turns the clock back; its payload is stripped |
| Sim800.CollectQuietLine | devices/sim800l.py:81-97 | a line in time that ends nothing is appended stripped with a newline and the wait goes on |
| Sim800.CollectPrefix | devices/sim800l.py:81-97 | a run of quiet lines is consumed in order and leaves their stripped text, newline-joined, as the payload so far |
| Sim800.CollectEndingLine | devices/sim800l.py:85-100 | the first non-quiet line in time is the last one read, and its verdict decides the reply |
| Sim800.CollectStops | devices/sim800l.py:79-102 | quiet lines then an ending line: the reply is decided by that line, and the lines after it stay unread |
| Sim800.CollectStopsAtOk | devices/sim800l.py:90-102 | a line containing OK gives REPLY_OK with the earlier lines only; the OK line is not in the payload |
| Sim800.CollectStopsAtError | devices/sim800l.py:93-102 | a line containing ERROR and not OK gives REPLY_ERROR with the earlier lines only |
| Sim800.CollectStopsAtDetect | devices/sim800l.py:97-100 | a detect-text line is appended to the payload and stops the wait with the timeout state, not OK |
| Sim800.CollectTimesOut | devices/sim800l.py:79-102 | with no ending line before the deadline, the state is the timeout state, the payload is the lines so far, and the clock is at the deadline |
| Sim800.AwaitPrompt | devices/sim800l.py:113-117 | the prompt wait only consumes lines and lasts at most 1000 ms |
| Sim800.PromptAfter | devices/sim800l.py:113-117 | lines without `>` within the 1000 ms are read past, and the wait stops just after the first `>` line |
| Sim800.NoPrompt | devices/sim800l.py:113-117 | with no `>` line in time, the wait ends at t0 + 1000 with exactly the lines that came within it consumed |
| Sim800.PromptFirst | devices/sim800l.py:113-117 | a line with `>` ends the prompt wait at once |
| Sim800.Command | devices/sim800l.py:104-119 | writes `cmd + end` (newline by default), then the message body with Ctrl-Z exactly once when there is one, and nothing else |
| Sim800.Ask | devices/sim800l.py:104-119 | a default command writes the command and a newline |
| Sim800.CommandIgnoresStale | devices/sim800l.py:107-108 | lines already waiting when a command is issued cannot affect its reply |
| Sim800.CommandOk | devices/sim800l.py:104-119 | a plain command answered by OK returns the stripped text before the OK line |
| Sim800.RoundSixth | devices/sim800l.py:165 | `floor(x/6 + 0.5)`: the integer nearest x/6, halves up |
| Sim800.SignalOf | devices/sim800l.py:156-166 | a reply that is not OK gives 0; the only exceptions are from indexing and `int()` |
| Sim800.SpacedNumber | devices/sim800l.py:163 | `int()` accepts the space after the colon |
| Sim800.SignalOfCsq | devices/sim800l.py:156-166 | `+CSQ: x,…` gives 0 for x = 99, else floor(x/6 + 0.5), which is 0..5 for rssi 0..31 |
| Sim800.BatteryOf | devices/sim800l.py:168-176 | a reply that is not OK gives 0 |
| Sim800.BatteryOfCbc | devices/sim800l.py:168-176 | `+CBC: s,level,…` gives the second field as a number |
| Sim800.NetworkOf | devices/sim800l.py:178-189 | a reply that is not OK gives the empty name |
| Sim800.NetworkOfUnquoted | devices/sim800l.py:186-188 | the name never holds a quote |
| Sim800.NetworkOfCops | devices/sim800l.py:178-189 | `+COPS: m,f,"name",…` gives the name between the quotes |
| Sim800.Clean | devices/sim800l.py:198-200 | quotes become spaces and the field is stripped: the result has no quote and no outer whitespace |
| Sim800.ReadSmsOf | devices/sim800l.py:191-202 | a reply that is not OK gives None; the only exception is IndexError; the full reply comes back as the text |
| Sim800.ReadSmsFields | devices/sim800l.py:191-201 | fields 1, 3 and 4 of the comma split, cleaned, are the number, date and time |
| Sim800.ReadSmsTimeHoldsText | devices/sim800l.py:200 | on a real `+CMGR` reply the time field runs on to the message text (see Findings) |
| Sim800.ReadSmsFixed | devices/sim800l.py:191-202 | the corrected reader's time never holds a line break |
| Sim800.ReadSmsFixedTime | devices/sim800l.py:191-202 | on a `+CMGR` reply, the corrected reader returns exactly the number, date and time sent |
| Sim800.ReadSmsFixedOf | devices/sim800l.py:191-202 | the corrected reader differs from the original only in cutting the time field at the line break |
| Sim800.SendSmsOf | devices/sim800l.py:206-210 | success needs an OK reply |
| Sim800.SendSmsOfCmgs | devices/sim800l.py:206-209 | an OK `+CMGS: mr` reply is success |
| Sim800.SendSms | devices/sim800l.py:204-210 | writes `AT+CMGS="dest"` and a newline, then a non-empty body ended by Ctrl-Z, and nothing else (3GPP TS 27.005, section 3.5.1) |
| Sim800.CclkTime | devices/sim800l.py:224-225 | a `+CCLK` reply gives the text between its first quotes; IndexError only when there is no quote |
| Sim800.CclkTimeOf | devices/sim800l.py:221-226 | `+CCLK: "t"…` gives t |
| Sim800.DateTimeOf | devices/sim800l.py:221-226 | a reply that is not OK gives the empty text; the time never holds a quote; IndexError only for a payload without one |
| Sim800.DateTimeOfCclk | devices/sim800l.py:221-226 | an OK reply `+CCLK: "t"…` gives back t, for any quote-free t |
| Sim800.PyAnd | devices/sim800l.py:259-260 | `&=` on reply states: TypeError iff one is None; the result is OK iff both are |
| Sim800.GprsReplies | devices/sim800l.py:259-260 | the two bearer settings are written in order |
| Sim800.GprsSetup | devices/sim800l.py:258-264 | True iff both settings are OK; TypeError iff one timed out; OSError iff neither timed out and one failed; on success the bearer open follows |
| Sim800.SilentCommand | devices/sim800l.py:76-102 | with nothing arriving, a command times out |
| Sim800.GprsSetupSilent | devices/sim800l.py:258-262 | with a silent modem, `gprs_setup` raises TypeError |
| Sim800.SchemeOf | devices/sim800l.py:280-285 | `http:` gives 0, `https:` gives 1, and anything else is ValueError |
| Sim800.UrlParts | devices/sim800l.py:278 | `scheme//rest` splits into the scheme, an empty part and the rest |
| Sim800.ActionLine | devices/sim800l.py:300-302 | the completion line must have exactly three comma fields, else ValueError |
| Sim800.ActionLineOf | devices/sim800l.py:300-302 | `+HTTPACTION: m,status,length` gives status and length |
| Sim800.AwaitAction | devices/sim800l.py:291-304 | the wait only reads; it fails with ValueError or the OSError for a missing completion |
| Sim800.AwaitActionSkipsBlank | devices/sim800l.py:294-303 | blank lines are skipped, and the first other line in time is parsed |
| Sim800.AwaitActionBlank | devices/sim800l.py:297 | a CRLF line is dropped without effect |
| Sim800.HttpParams | devices/sim800l.py:288-289 | the URL and TLS parameters are written in order |
| Sim800.HttpSend | devices/sim800l.py:288-290 | on success the URL, TLS and action commands are written in order; the only error is TypeError |
| Sim800.HttpFetch | devices/sim800l.py:291-306 | after a completion, `AT+HTTPREAD` and an empty command are written; before one, nothing is written |
| Sim800.Http | devices/sim800l.py:274-314 | a URL that does not split or has an unsupported scheme is ValueError before any write |
| Sim800.HttpWire | devices/sim800l.py:278-306 | a successful request writes exactly the URL, TLS, action, read and empty commands |
| Sim800.HttpSilent | devices/sim800l.py:288-290 | with a silent modem, `http` writes two commands and raises TypeError |
| Sim800.SilentParams | devices/sim800l.py:288-289 | with a silent modem, the `&=` of two timeouts is TypeError |
| Urc.Initial | devices/sim800l.py:46-53 | no handlers, no caller id, message index 0, no credit |
| Urc.Notify | devices/sim800l.py:235-236 | a handler call is recorded iff the handler is registered; nothing else changes |
| Urc.Balance | devices/sim800l.py:248-251 | the balance is a strict part of the field |
| Urc.Credit | devices/sim800l.py:246-254 | without a balance, the state is unchanged |
| Urc.KindOf | devices/sim800l.py:234-255 | the first field is tested in the driver's order: RING, then the `+CLIP`, `+CMTI` and `+CUSD` prefixes, then NO CARRIER |
| Urc.Classify | devices/sim800l.py:233-256 | a line adds at most one event and keeps the earlier ones; it fails only with IndexError, ValueError or TypeError; a line the chain does not recognise changes nothing |
| Urc.ClassifyOther | devices/sim800l.py:233-256 | a line with no known head, such as `OK`, leaves the state as it was |
| Urc.Dispatch | devices/sim800l.py:234-256 | one branch adds at most one event and keeps the handlers |
| Urc.CheckIncoming | devices/sim800l.py:228-233 | with nothing ready, nothing happens; otherwise exactly one line is read and classified |
| Urc.ClassifyRing | devices/sim800l.py:234-236 | RING records the incoming-call event iff its handler is registered |
| Urc.ClassifyClip | devices/sim800l.py:237-241 | `+CLIP: "n"` stores n as the caller and records the event when registered (3GPP TS 27.007, section 7.6) |
| Urc.ClipHead | devices/sim800l.py:237-239 | the `+CLIP` head is one comma field, and its first quoted text is the number |
| Urc.ClipQuoted | devices/sim800l.py:238-239 | the second quote-split field of `+CLIP: "n"` is n |
| Urc.KindOfClip | devices/sim800l.py:237 | a `+CLIP` prefix selects the caller branch |
| Urc.ClassifyCmti | devices/sim800l.py:242-245 | `+CMTI: "SM",n` stores n from the second comma field (3GPP TS 27.005, section 3.4.1) |
| Urc.CmtiTwice | devices/sim800l.py:242-245 | the same notification twice keeps the index and records two events |
| Urc.KindOfCmti | devices/sim800l.py:242 | a `+CMTI` prefix selects the message branch |
| Urc.TwoFields | devices/sim800l.py:233 | `a,b` with no comma inside splits into a and b |
| Urc.BalanceExtract | devices/sim800l.py:248-252 | the balance is the text after the first `#` up to the second `.` after it |
| Urc.BalanceHash | devices/sim800l.py:248 | the `#` search finds the first `#` |
| Urc.BalanceFirstDot | devices/sim800l.py:249 | the first `.` search from the `#` finds the dot after the integer part |
| Urc.BalanceSecondDot | devices/sim800l.py:250 | the second `.` search starts after the first dot |
| Urc.BalanceAmount | devices/sim800l.py:252 | the slice between them is the amount |
| Urc.ClassifyCusd | devices/sim800l.py:246-254 | a USSD balance sets the credit to the currency sign and the amount, recording the event when registered |
| Urc.ClassifyCusdIgnored | devices/sim800l.py:247-251 | without a `#` after the first character, the state is unchanged |
| Urc.CreditIgnored | devices/sim800l.py:251 | `st > 0` fails, so the credit stays |
| Urc.CusdFields | devices/sim800l.py:246-248 | the second comma field of a `+CUSD` line is the USSD text |
| Urc.KindOfCusd | devices/sim800l.py:246 | a `+CUSD` prefix selects the USSD branch |
| Urc.ClassifyNoCarrier | devices/sim800l.py:255-256 | NO CARRIER records the event with a handler registered, and is a TypeError without one |
| Urc.KindOfNoCarrier | devices/sim800l.py:255 | NO CARRIER selects its branch |
| Sim800Legacy.SaveLines | rowing/devices/sim800l.py:90-97 | collecting the extra lines only reads and never turns the clock back |
| Sim800Legacy.SaveLinesOf | rowing/devices/sim800l.py:88-97 | with the lines ready, `savbuf` is the non-empty, non-`OK` lines in order, each followed by a newline |
| Sim800Legacy.Command | rowing/devices/sim800l.py:69-98 | writes the command, then the body when there is one; `savbuf` changes only when a reply came and lines > 1 |
| Sim800Legacy.CommandReply | rowing/devices/sim800l.py:81-87 | the first line is thrown away and the second is the result |
| Sim800Legacy.CommandSaves | rowing/devices/sim800l.py:88-97 | with lines > 1 and the lines ready, `savbuf` restarts empty and collects the later lines |
| Sim800Legacy.ReplyPort | rowing/devices/sim800l.py:72-83 | after the wait, the two reads take the echo and the reply |
| Sim800Legacy.CheckResult | rowing/devices/sim800l.py:27-32 | the driver's error iff the reply is present, non-empty, not `None` and not the expected text |
| Sim800Legacy.Tagged | rowing/devices/sim800l.py:137-141 | a result is tagged iff it is non-empty and its first field's head is exactly the tag |
| Sim800Legacy.SignalOf | rowing/devices/sim800l.py:135-145 | an untagged result gives 0 |
| Sim800Legacy.SignalOfCsq | rowing/devices/sim800l.py:135-145 | `+CSQ: x,…` gives 0 for x = 99, else floor(x/6 + 0.5) |
| Sim800Legacy.BatteryOf | rowing/devices/sim800l.py:147-155 | an untagged result gives 0 |
| Sim800Legacy.BatteryOfCbc | rowing/devices/sim800l.py:147-155 | `+CBC: s,level,…` gives the level |
| Sim800Legacy.NetworkOf | rowing/devices/sim800l.py:157-168 | an untagged result gives the empty name |
| Sim800Legacy.NetworkOfCops | rowing/devices/sim800l.py:157-168 | `+COPS: m,f,"name",…` gives the name |
| Sim800Legacy.ReadSmsOf | rowing/devices/sim800l.py:171-182 | only an exact `+CMGR` head gives a message, and its text is `savbuf`; the number and time hold no quote |
| Sim800Legacy.ReadSmsHeader | rowing/devices/sim800l.py:171-181 | a `+CMGR` header gives the number, date and time it carries, with `savbuf` as the text |
| Sim800Legacy.SendSmsOk | rowing/devices/sim800l.py:186-190 | `OK` needs the `>` prompt as result and a non-empty `savbuf` |
| Sim800Legacy.SendSms | rowing/devices/sim800l.py:184-190 | the command and the body ended by Ctrl-Z are written together |
| Sim800Legacy.SendSmsConfirmed | rowing/devices/sim800l.py:184-190 | echo, prompt and `+CMGS: mr` within five seconds give OK |
| Sim800Legacy.SendSmsOkCmgs | rowing/devices/sim800l.py:186-189 | a saved `+CMGS` line after the prompt is OK |
| Sim800Legacy.DateTimeOf | rowing/devices/sim800l.py:201-206 | no result gives the empty text; the time never holds a quote; a non-empty time comes from a `+CCLK` result |
| Sim800Legacy.DateTimeOfCclk | rowing/devices/sim800l.py:201-206 | a `+CCLK: "t"…` result gives back t |
| Sim800Legacy.Cmds | rowing/devices/sim800l.py:253-268 | the commands of the steps, in order |
| Sim800Legacy.RunSteps | rowing/devices/sim800l.py:253-269 | when every step passes, all commands are written in order; the first refusal stops with the driver's error after a prefix of them |
| Sim800Legacy.AwaitCompletion | rowing/devices/sim800l.py:270-278 | at most `tries` reads; the only error is ValueError |
| Sim800Legacy.AwaitCompletionBlank | rowing/devices/sim800l.py:272-275 | a CRLF line is not skipped: it ends the wait with ValueError |
| Sim800Legacy.AwaitCompletionSilent | rowing/devices/sim800l.py:270-278 | with nothing arriving, all tries time out and no completion is found |
| Sim800Legacy.Fetch | rowing/devices/sim800l.py:270-284 | on success `AT+HTTPREAD` is the one command written |
| Sim800Legacy.FetchNoCompletion | rowing/devices/sim800l.py:270-280 | without a completion line, `AT+HTTPREAD` is written and then `nbytes` is unbound |
| Sim800Legacy.ReadBody | rowing/devices/sim800l.py:280-284 | a body is at most nbytes bytes, and only after the read reply passed the check; a zero length gives the empty body |
| Sim800Legacy.Attempt | rowing/devices/sim800l.py:251-284 | a success writes all eight steps then the read; any outcome writes a prefix of them |
| Sim800Legacy.Close | rowing/devices/sim800l.py:287-288 | writes `AT+HTTPTERM`, then `AT+SAPBR=0,1` |
| Sim800Legacy.Conclude | rowing/devices/sim800l.py:285-289 | the driver's error becomes a None response; the service is closed after a response and after that error only |
| Sim800Legacy.ConcludeWire | rowing/devices/sim800l.py:251-289 | a response comes after every command and then the cleanup; None after some commands and then the cleanup; an error after some commands and no cleanup |
| Sim800Legacy.HttpGet | rowing/devices/sim800l.py:240-289 | a URL that does not split or has an unsupported scheme is ValueError before any write |
| Sim800Legacy.HttpGetRoute | rowing/devices/sim800l.py:243-251 | a well-formed URL goes straight to the attempt, with the TLS flag from the scheme |
| Sim800Legacy.HttpStepsShape | rowing/devices/sim800l.py:253-268 | eight AT command lines, each answered by one line; only opening the bearer waits 2000 ms, the others 500 |
| Gps.Init | rowing/devices/adafruit_gps.py:142-155 | a new driver has no fix and no timestamp |
| Gps.SendCommand | rowing/devices/adafruit_gps.py:175-189 | only appends writes, whose concatenation is the framed sentence |
| Gps.PiecesConcat | rowing/devices/adafruit_gps.py:181-189 | the five writes make `$`, the command, `*HH` with the checksum, and CRLF |
| Gps.Concat | rowing/devices/adafruit_gps.py:181-189 | writes join in order |
| Gps.ParseSentence | rowing/devices/adafruit_gps.py:196-225 | nothing read, or bytes that fail the UTF-8 check, gives None; a parsed sentence had a comma; the only exception is ValueError |
| Gps.Validate | rowing/devices/adafruit_gps.py:208-225 | a sentence is returned only when it holds a comma; bad hex is ValueError |
| Gps.Frame | rowing/devices/adafruit_gps.py:221-225 | a frame exists iff there is a comma, and the type holds none |
| Gps.ParseLine | rowing/devices/adafruit_gps.py:198-204 | a line read with CRLF is validated without its line end |
| Gps.ParseSentenceOf | rowing/devices/adafruit_gps.py:196-206 | an ASCII line is stripped, then validated |
| Gps.ValidatePlain | rowing/devices/adafruit_gps.py:209-225 | without a `*` suffix, the sentence is framed as it is |
| Gps.ValidateSuffix | rowing/devices/adafruit_gps.py:209-218 | with a `*HH` suffix, the XOR of the characters after `$` must equal HH, and the suffix is removed |
| Gps.ValidateChecked | rowing/devices/adafruit_gps.py:209-225 | a `*HH` suffix on `$cmd` gives the frame when HH is the checksum of cmd, and None otherwise |
| Gps.CheckedLine | rowing/devices/adafruit_gps.py:196-225 | the same, for the line as read |
| Gps.FrameCommand | rowing/devices/adafruit_gps.py:221-225 | the frame of `$cmd` is the text before the first comma and the text after it |
| Gps.SentenceRoundTrip | rowing/devices/adafruit_gps.py:181-225 | a checksummed command of at least four characters with a comma parses back to its type and data |
| Gps.SendThenParse | rowing/devices/adafruit_gps.py:175-225 | what `send_command` writes parses back to the command's type and data |
| Gps.WrongChecksum | rowing/devices/adafruit_gps.py:215-216 | any other checksum value makes the sentence None |
| Gps.PlainParses | rowing/devices/adafruit_gps.py:183-225 | without a checksum, a sentence without a `*` three from the end is framed as written |
| Gps.PlainRoundTrip | rowing/devices/adafruit_gps.py:181-225 | the round trip also holds without a checksum |
| Gps.ChecksumAscii | rowing/devices/adafruit_gps.py:184-186 | the XOR of ASCII text is below 128, so it fits two hex digits |
| Gps.ChecksumLoop | rowing/devices/adafruit_gps.py:184-186 | the loop's running XOR, from 0, is the checksum of the whole command |
| Gps.ChecksumConcat | rowing/devices/adafruit_gps.py:212-214 | the checksum of joined text is the XOR of the parts' checksums |
| Gps.HexChars | rowing/devices/adafruit_gps.py:188 | `{:02x}`, upper-cased, is two hex digits for a byte |
| Gps.StripCrLf | rowing/devices/adafruit_gps.py:204 | `strip()` removes the CRLF of a line |
| Gps.IntField | rowing/devices/adafruit_gps.py:126-129 | empty iff None; the only exception is ValueError |
| Gps.IntFieldOfDecimal | rowing/devices/adafruit_gps.py:126-129 | a decimal numeral parses to its value |
| Gps.FloatField | rowing/devices/adafruit_gps.py:131-134 | empty iff None; the only exception is ValueError |
| Gps.FloatFieldOfDecimal | rowing/devices/adafruit_gps.py:131-134 | `ip.fp` parses to the exact decimal |
| Gps.DegreesField | rowing/devices/adafruit_gps.py:116-121 | fields shorter than three characters are None; others go through `float()` |
| Gps.Hemisphere | rowing/devices/adafruit_gps.py:248-255 | the coordinate is negated iff the letter lower-cases to `s` or `w` |
| Gps.TimeOfDay | rowing/devices/adafruit_gps.py:234 | an empty field is TypeError; otherwise only ValueError or OverflowError |
| Gps.TimeOfDecimal | rowing/devices/adafruit_gps.py:234 | `int(float("hhmmss.ff"))` is the value of hhmmss |
| Gps.TimeOfDigits | rowing/devices/adafruit_gps.py:234 | `int(float("hhmmss"))` is its value |
| Gps.Clock | rowing/devices/adafruit_gps.py:236-238 | h·10000 + m·100 + s rebuilds t, with m and s in 0..99 |
| Gps.SplitUnique | rowing/devices/adafruit_gps.py:236-238 | the decomposition is the only one with m and s in 0..99 |
| Gps.ClockOfDigits | rowing/devices/adafruit_gps.py:234-238 | `hhmmss` decomposes into hh, mm and ss |
| Gps.SetClock | rowing/devices/adafruit_gps.py:239-246 | the time is set, keeping a known date, else the date is 0 |
| Gps.DateOf | rowing/devices/adafruit_gps.py:301-304 | the only exception is ValueError |
| Gps.DateParts | rowing/devices/adafruit_gps.py:302-304 | a date iff all three parts parse, with year 2000 + yy; else the first part's error |
| Gps.DateOfFields | rowing/devices/adafruit_gps.py:301-304 | `ddmmyy` gives day dd, month mm, year 2000 + yy |
| Gps.SetDate | rowing/devices/adafruit_gps.py:307-320 | the date is set, keeping a known time, else the time is 0 |
| Gps.ApplyGga | rowing/devices/adafruit_gps.py:227-261 | applied only with exactly 14 fields, and otherwise nothing changes; only GGA attributes change |
| Gps.GgaNumbers | rowing/devices/adafruit_gps.py:257-261 | fix quality is set from field 5, or kept when that field raises; time, position, speed and track are untouched |
| Gps.GgaFix | rowing/devices/adafruit_gps.py:192-194 | after a GGA sentence whose time and position parsed, `has_fix` holds iff field 5 reads as an integer of at least 1, or it raised and there was a fix before |
| Gps.GgaSetsClock | rowing/devices/adafruit_gps.py:234-246 | a GGA time `hhmmss.ff` sets hour, minute and second |
| Gps.ApplyRmc | rowing/devices/adafruit_gps.py:263-320 | applied only with at least 11 fields; a failing time leaves the state; only RMC attributes change |
| Gps.RmcFields | rowing/devices/adafruit_gps.py:289-320 | a 6-character date that parses is set; otherwise the timestamp stays |
| Gps.RmcFix | rowing/devices/adafruit_gps.py:284-287 | after RMC, `has_fix` (fix quality at least 1) iff the status is `A` or `a` |
| Gps.RmcSetsDate | rowing/devices/adafruit_gps.py:270-320 | a full RMC sentence sets the date and keeps the time it just set |
| Gps.Status | rowing/devices/adafruit_gps.py:284-287 | fix quality 1 iff the status lower-cases to `a`, else 0 |
| Gps.Update | rowing/devices/adafruit_gps.py:157-173 | False iff no sentence parsed, and then only the UART moved |
| Gps.Dispatch | rowing/devices/adafruit_gps.py:167-173 | any parsed sentence gives True, an unknown type changes nothing, and the type is matched case-insensitively |
| Stroke.Init | rowing/stroke_track.py:25-27 | no strokes, not in a stroke, no last in-stroke time |
| Stroke.Recent | rowing/stroke_track.py:58-62 | exactly the strokes at most 10000 ms old, order kept |
| Stroke.Prune | rowing/stroke_track.py:58-62 | the backwards delete loop keeps exactly the recent strokes |
| Stroke.SinceLast | rowing/stroke_track.py:46 | the time since the last in-stroke sample; before the first one, the number `ticks_diff` makes of `None` |
| Stroke.DataTick | rowing/stroke_track.py:41-62 | a stroke is counted iff above threshold, not in a stroke, and more than 200 ms after the last in-stroke time, or, before any in-stroke sample, iff the number `ticks_diff` gives for `None` exceeds 200; the state follows the sample; the strokes kept are the recent ones |
| Stroke.FirstStroke | rowing/stroke_track.py:42-54 | the first sample above the threshold after start-up records its time and counts a stroke exactly when the `None` difference exceeds 200 ms |
| Stroke.InitValid | rowing/stroke_track.py:25-27 | the initial state is valid |
| Stroke.TickValid | rowing/stroke_track.py:41-62 | a sample no earlier than the last, including the first one after start-up whatever `ticks_diff` makes of `None`, keeps the strokes increasing, in the window, and not after the last in-stroke time |
| Stroke.AddedIncreasing | rowing/stroke_track.py:48-51 | a counted stroke comes after every stored one |
| Stroke.KeptInWindow | rowing/stroke_track.py:59-62 | every kept stroke is within the window |
| Stroke.LastKeptBefore | rowing/stroke_track.py:53-56 | kept strokes end no later than the last in-stroke time |
| Stroke.StrokeRate | rowing/stroke_track.py:64-76 | 0 for fewer than two strokes; ZeroDivisionError iff first and last coincide; otherwise the truncated strokes per minute, capped at 99 |
| Stroke.QuotientAtLeast | rowing/stroke_track.py:74-75 | a rate of at least 100 is capped |
| Stroke.InMotion | rowing/stroke_track.py:78-82 | in motion iff the rate is above 0; it fails exactly when the rate does |
| Stroke.MotionOfValid | rowing/stroke_track.py:64-82 | for a valid tracker the rate never fails, lies in 0..99, and the boat moves iff two strokes are stored |
| Chrono.Init | rowing/util/chrono.py:12-14 | total 0, no open interval |
| Chrono.Tick | rowing/util/chrono.py:21-31 | adds `curr - t_last` iff an interval is open, and opens one at curr iff enabled |
| Chrono.Time | rowing/util/chrono.py:16-19 | the value read counts the open interval up to now and equals the new total |
| Chrono.TickMonotone | rowing/util/chrono.py:25-26 | a tick no earlier than the interval start never lowers the total |
| Chrono.RunTotal | rowing/util/chrono.py:21-31 | from a new chronometer, the total is the sum of the gaps that begin at an enabled tick |
| Chrono.RunFrom | rowing/util/chrono.py:21-31 | from any state, the open interval is closed by the first tick |
| Chrono.EnabledNonNegative | rowing/util/chrono.py:26 | with a clock that does not go back, enabled time is not negative |
| Chrono.EnabledSplit | rowing/util/chrono.py:24-31 | enabled time splits at any tick |
| Chrono.EnabledPrefix | rowing/util/chrono.py:26 | a prefix of the ticks has no more enabled time |
| Chrono.RunMonotone | rowing/util/chrono.py:16-31 | with a clock that does not go back, the total never decreases from one reading to a later one |
| Logging.NewLog | rowing/util/logging.py:18-23 | ValueError iff neither path nor log is given; nothing open yet |
| Logging.Open | rowing/util/logging.py:31-34 | with an external log nothing changes; otherwise the path is opened; the result is `fbuf` |
| Logging.Close | rowing/util/logging.py:36-39 | with an external log nothing changes; otherwise the buffer is closed, AttributeError when none is open |
| Logging.EnsureClose | rowing/util/logging.py:47-49 | only a local buffer is closed, and files are untouched |
| Logging.EnsureCloseIdempotent | rowing/util/logging.py:47-49 | closing twice is closing once |
| Logging.OpenClose | rowing/util/logging.py:31-39 | open then close restores the logs |
| Logging.ExternalUntouched | rowing/util/logging.py:25-39 | with an external log, `fbuf` is the external buffer and open or close leaves the local one |
| Logging.Str | rowing/util/logging.py:56 | `str()` of a string is itself; `int()` reads an integer's text back to it; the texts of booleans and None are not integers |
| Logging.LineOf | rowing/util/logging.py:53-56 | a dict with time gets `ts` set to the epoch and is dumped, keeping its other keys; other values go through `str()` |
| Logging.Write | rowing/util/logging.py:51-64 | ValueError iff no buffer; otherwise one line is appended to that buffer's file and nothing else in the store changes |
| Logging.Fbuf | rowing/util/logging.py:25-29 | the external log's buffer when one was given, else the log's own |
| Logging.NewTransLog | rowing/util/logging.py:70-84 | the base log, and the tags with `atype` set; no last log time |
| Logging.ShouldLog | rowing/util/logging.py:90-97 | never limited without a timeout or before the first record; otherwise allowed exactly from the last log time plus the timeout on |
| Logging.ShouldLogLater | rowing/util/logging.py:90-97 | once a record is allowed, it stays allowed at every later time |
| Logging.Message | rowing/util/logging.py:110-117 | global tags override call tags, which override data; a non-dict becomes `val` |
| Logging.RateLimited | rowing/util/logging.py:95-109 | after a record at t, any call before t + timeout changes nothing |
| Logging.EmittedRecord | rowing/util/logging.py:107-118 | an emitted record is the last line of the buffer's file, with the epoch and the tags |
| Logging.TransLogLog | rowing/util/logging.py:99-118 | a dropped record changes nothing; an emitted one sets the last log time to now, fails iff no buffer is open, and otherwise appends the merged message with the epoch to that buffer's file and changes nothing else |
| Logging.FromLogAsWritten | rowing/util/logging.py:86-88 | the source path becomes `atype`; an extra positional or an `atype=` keyword is TypeError |
| Logging.FromLogNeverWritesToSource | rowing/util/logging.py:86-88 | without `path=` or `log=`, `from_log` never builds a logger (see Findings) |
| Logging.FromLog | rowing/util/logging.py:86-88 | the corrected logger has the type given and the source's path |
| Logging.FromLogSharesFile | rowing/util/logging.py:86-88 | once both are opened, the corrected logger writes to the source's file |
| Panel.TableDescending | run.py:24-32 | thresholds fall strictly down the table, and percents do not rise |
| Panel.Percent | run.py:157-161 | the percent of the first row at or below the voltage; None iff the voltage is below every row |
| Panel.BatteryPercent | run.py:156-161 | the loop with `break` computes the first matching row |
| Panel.PercentMonotone | run.py:24-32 | the percent never falls as the voltage rises; None exactly below 3.0 V |
| Panel.Monotone | run.py:157-161 | the same for any descending table |
| Panel.SplitMs | run.py:189-195 | the parts rebuild the ms; for ms ≥ 0, minutes and seconds are in 0..59 and the remainder in 0..999 |
| PyFloat.TruncDiv | run.py:190-194 | `int()` of a quotient truncates toward zero, for both signs |
| Panel.RoundHundredth | run.py:196 | `round(n/100)`: the nearest integer, ties to even |
| Panel.Tenths | run.py:196 | the tenths of a remainder 0..999 are 0..10 |
| Panel.TenthsReachTen | run.py:196 | 950 ms shows as `0:00:00.10` (see Findings) |
| Panel.ChronoText | run.py:189-196 | the corrected text shows a single tenths digit, and is within half a tenth of the time |
| Panel.ChronoTextOneDigit | run.py:196 | the corrected tenths field is one character |
| Panel.ChronoTextAsWritten | run.py:189-196 | for ms ≥ 0, the tenths field is one digit exactly when the remainder is below 950 ms |
| Panel.AsWrittenAgrees | run.py:189-196 | the text as written equals the corrected one exactly when the remainder is below 950 ms |
| Panel.ButtonInit | run.py:127-128 | released, no start time |
| Panel.ButtonStep | run.py:137-145 | a rising edge records the start; sleep iff falling edge more than 2000 ms after the start |
| Panel.ReplayState | run.py:137-145 | after any polls, the detector holds the last level and the start of the last press |
| Panel.HeldSinceRise | run.py:137-140 | the last press is still held since its start |
| Panel.SleepOnLongPress | run.py:137-145 | sleep exactly on a release after a press held for more than 2000 ms |
| PyFloat.IntOfFloat | rowing/devices/adafruit_gps.py:234 | `int()` of a float: error iff not finite, else truncation of the exact value |
| PyFloat.FloatOfDecimal | rowing/devices/adafruit_gps.py:234 | `float("ip.fp")` is the exact decimal, and its `int()` is ip |
| PyText.HexRoundTrip | rowing/devices/adafruit_gps.py:188-211 | `int(h, 16)` reads back the two hex digits written |
| PyText.SplitThree | devices/sim800l.py:278 | unpacking `split("/", 2)` into three is ValueError when fewer than two separators |
| PyText.Int | rowing/devices/adafruit_gps.py:126-129 | the only exception is ValueError; blank text is one; a number is read only from text that starts with a decimal digit, a sign or an underscore |
| PyText.IntPrefixed | rowing/devices/adafruit_gps.py:129 | after an optional minus, `0x`, `0o` or `0b` in either case selects base 16, 8 or 2, and the digits after it give the value, negated for the minus |
| PyText.IntDecimalRun | rowing/devices/adafruit_gps.py:129 | decimal digits and underscores read as the value of the digits, leading zeros included |
| PyText.UnderscoreSkipped | rowing/devices/adafruit_gps.py:129 | an underscore among the digits changes neither the digits nor the value |
| PyText.HexRun | rowing/devices/adafruit_gps.py:211 | `int(h, 16)` of hexadecimal digits and underscores is the value of the digits |
| PyFloat.ParseFloat | rowing/devices/adafruit_gps.py:131-134 | blank text is a ValueError; a nonzero finite value, or an infinity, is negative exactly when the text starts with `-` |
| Utf8.Decode | devices/sim800l.py:21 | a decoded string has at most one character per byte and starts with the character the first sequence encodes |
| Utf8.DecodeConcat | devices/sim800l.py:21 | text that decodes, followed by text that decodes, decodes to the two strings joined |

## Left out

- Hardware: the UART, I2C, SPI and ADC, `machine`, deep sleep, the display and the UI elements are not modelled. The serial port is the modelled `Port`, and the battery voltage is an integer in millivolts.
- Threads, locks, the asyncio loops and `sleep` calls are not modelled. A poll is a step function applied to an injected time.
- `ticks_ms`/`ticks_diff` wrap-around is not modelled, because the clock is an unbounded integer. Each routine reads the clock once per step, so several `ticks_ms()` calls within one step are one instant.
- The newer driver's `setup`, `sleep`, `call`, `hangup`, `answer`, `set_volume`, `sms_alert`, `check_credit`, `delete_sms`, `http_setup`, `http_close` and `gprs_close` are single `command` calls with fixed text. Only `command` itself is modelled. The same holds for the older driver's wrappers.
- `Response` is not modelled beyond the body it holds. `Response.text` decodes and `Response.json` calls `ujson`.
- Gps.DegreesField: the `dddmm.mmmm` to degrees conversion is floating-point work. The field is kept as the parsed decimal with a hemisphere flag.
- Gps.FloatField: `float()` is modelled on decimal text with an optional exponent and the special values. The result is the exact decimal. The device's MicroPython floats are binary32, and their rounding is not modelled.
- PyFloat.FloatOfDecimal: the exact decimal is stated. On binary32, `int(float("235959.995"))` is 235960, because the float rounds up to a whole number.
- Gps.TimeOfDecimal: states `int()` of the exact decimal. It agrees with the device only while the rounding to binary32 does not reach the next integer.
- Gps.TimeOfDigits: states the exact value of any digit string. binary32 holds every integer only up to 2^24.
- PyFloat.TruncDiv: the exact quotient is truncated. The source divides in binary32 first, so a quotient just below an integer can round up to it.
- Panel.SplitMs: the split is exact. At ms = 17,999,999 the binary32 division `ms / 3600000` rounds to 5.0, so the device shows `5:00:00.0` where the model gives 4 h 59 min 59 s 999 ms.
- PyText.Int: only the bases the code passes are modelled: 0 for `int(s)`, 16 for the checksum, and 10 for a float's exponent. Other bases of `int(s, b)` are left out.
- PyFloat.ParseFloat: MicroPython's own float scanner is not modelled. The model takes decimal digits with one point and an optional `e` exponent, plus `inf`, `infinity` and `nan`. The mantissa takes no underscores, and the exponent is read by the integer reader, which skips them.
- The struct_time fields `tm_wday`, `tm_yday` and `tm_isdst` are constants in the source (0, 0, -1) and are not kept.
- Utf8.DecodeOne: MicroPython keeps the bytes of a string. An encoded surrogate or a value above U+10FFFF (F4 90 and up, F5-F7 leads) passes its check, but a Dafny `char` cannot hold it, so U+FFFD stands in for that one character.
- Sanitize.ConvertToString: inherits the stand-in above. Every other input decodes, is masked and is stripped as on the device.
- `velocity_knots` is never set by the driver. It is kept as None.
- Stroke.DataTick: the first sample above the threshold after start-up passes `None` to `ticks_diff`, which does not check its arguments and reads the object's bits as a small int. The resulting number depends on the tick and on the address of `None`, so it is the parameter `noneDiff`; the model does not compute it.
- Stroke.DataTick: the accelerometer magnitude and its log line are not modelled. The magnitude is abstracted to whether it exceeds 2.0 m/s².
- Logging.Write: JSON rendering and the write-retry loop on OSError are not modelled. A line is the record itself, and a write always succeeds once.
- Logging.Write: `Log.log` stores `ts` into the caller's own dict (rowing/util/logging.py:53). Values are immutable here, so the caller's dict is not changed. `TransLog.log` passes a fresh dict, so only a direct `Log.log` caller would see the difference.
- `_t_epoch` is an injected parameter, because it reads the RTC.
- `"{:02}%".format(bp)` on a None percent, in `_ui_update`, is display code and is not modelled.
- Sim800.SendSms: MicroPython formats `b'%s' % str` by concatenation; CPython would raise TypeError. The model follows MicroPython.
- Sim800Legacy.ReadBody: a negative `nbytes` in the completion line is read as `read(0)`, the empty body. MicroPython's `read(-1)` would read whatever comes until the timeout.
- The RMC date branch for a missing timestamp (rowing/devices/adafruit_gps.py:317-320) cannot be reached from `_parse_gprmc`, because the time was set just before. `Gps.SetDate` still models it.
- rowing/loc_track.py, the knots conversion in run.py and devices/esp32_batv.py are floating-point glue outside the core.

## Findings

| source | as written | input that shows it | evidently intended | confidence | as-written member | corrected member |
|---|---|---|---|---|---|---|
| devices/sim800l.py:194-200 | the comma split of the whole `+CMGR` reply makes field 4 the time, the closing quote, the line break and the message text | `+CMGR: "REC UNREAD","+441234",,"21/05/01,10:00:00+04"` then a newline and `hello`: the time is `10:00:00+04 \nhello` | the time alone, cut at the end of the header line | not executed | Sim800.ReadSmsTimeHoldsText | Sim800.ReadSmsFixedTime |
| rowing/util/logging.py:86-88 | `cls(log.fp, *args, **kwargs)` passes the source path as the positional `atype`, not as `path=` | `TransLog.from_log(log, "accel")` and `TransLog.from_log(log, atype="accel")` are TypeErrors, and `TransLog.from_log(log)` is a ValueError | a TransLog of the given type writing to the source log's path | not executed | Logging.FromLogNeverWritesToSource | Logging.FromLogSharesFile |
| run.py:196 | the tenths are `round(ms/100)` of the remainder, so a remainder of 950..999 shows 10 in the one-digit field | 950 ms shows `0:00:00.10` | round to the nearest tenth before the split, carrying into the seconds | not executed | Panel.TenthsReachTen | Panel.ChronoTextOneDigit |
