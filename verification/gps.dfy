/** The NMEA GPS driver: sentence framing with the NMEA 0183 checksum (the
    XOR of the characters between `$` and `*`, written as two hexadecimal
    digits), the dispatch of GGA and RMC sentences, and the integer parts
    of their fields. Degrees stay as the parsed `float()` of the field
    with a flag for the southern or western hemisphere; the conversion of
    `dddmm.mmmm` to degrees is floating-point work outside this model.
 */
module Gps {
  import opened Wrappers
  import opened PyText
  import opened PyFloat
  import opened Utf8
  import opened Transport

  // ---------------------------------------------------------------------
  // State

  /** The fields of `struct_time` the driver sets; `tm_wday`, `tm_yday`
      and `tm_isdst` are always 0, 0 and -1. */
  datatype Stamp = Stamp(year: int, mon: int, mday: int, hour: int, min: int, sec: int)

  /** The date an RMC sentence carries. */
  datatype Date = Date(mday: int, mon: int, year: int)

  /** A latitude or longitude: the `float()` of the `dddmm.mmmm` field,
      negated for `S` or `W`. */
  datatype Degrees = Degrees(raw: Float, negated: bool)

  /** The driver object: its UART and the attributes it keeps up to date
      (None until a sentence sets them). */
  datatype Gps = Gps(
    uart: Port,
    timestamp: Option<Stamp>,
    latitude: Option<Degrees>,
    longitude: Option<Degrees>,
    fixQuality: Option<int>,
    satellites: Option<int>,
    hdop: Option<Float>,
    altitude: Option<Float>,
    geoid: Option<Float>,
    velocity: Option<Float>,
    speed: Option<Float>,
    track: Option<Float>)

  /** `GPS(uart)`: nothing known yet. */
  function Init(uart: Port): (g: Gps)
    ensures g.uart == uart && !HasFix(g) && g.timestamp.None?
  {
    Gps(uart, None, None, None, None, None, None, None, None, None, None, None)
  }

  /** `has_fix`: a fix quality of at least 1 is known. */
  predicate HasFix(g: Gps) {
    g.fixQuality.Some? && g.fixQuality.value >= 1
  }

  // ---------------------------------------------------------------------
  // Checksum and framing

  /** The XOR of the code points of `s`. */
  function Checksum(s: string): bv32
    decreases |s|
  {
    if |s| == 0 then 0 else Checksum(s[..|s| - 1]) ^ (s[|s| - 1] as int as bv32)
  }

  /** The checksum loop of `send_command` and `_parse_sentence`: XOR each
      character's code point into a running value that starts at 0. */
  method ChecksumLoop(s: string) returns (checksum: bv32)
    ensures checksum == Checksum(s)
  {
    checksum := 0;
    var i := 0;
    while i < |s|
      invariant 0 <= i <= |s|
      invariant checksum == Checksum(s[..i])
    {
      assert s[..i + 1][..i] == s[..i];
      checksum := checksum ^ (s[i] as int as bv32);
      i := i + 1;
    }
    assert s[..|s|] == s;
  }

  /** The checksum of joined text is the XOR of the parts' checksums, so a
      text repeated twice sums to 0. */
  lemma {:induction false} ChecksumConcat(a: string, b: string)
    ensures Checksum(a + b) == Checksum(a) ^ Checksum(b)
    decreases |b|
  {
    if |b| > 0 {
      var init := b[..|b| - 1];
      assert (a + b)[..|a + b| - 1] == a + init;
      ChecksumConcat(a, init);
    } else {
      assert a + b == a;
    }
  }

  /** `send_command(command, add_checksum)`: writes `$`, the command, then
      `*` and the checksum in upper-case hexadecimal when asked, then CRLF. */
  function SendCommand(p: Port, cmd: string, addChecksum: bool): (r: Port)
    ensures r.now == p.now && r.feed == p.feed && r.readTimeout == p.readTimeout
    ensures |r.written| > |p.written| && r.written[..|p.written|] == p.written
    ensures Concat(r.written[|p.written|..]) == Sentence(cmd, addChecksum)
  {
    var out := Pieces(cmd, addChecksum);
    PiecesConcat(cmd, addChecksum);
    assert (p.written + out)[|p.written|..] == out;
    p.(written := p.written + out)
  }

  /** The separate writes `send_command` makes. */
  function Pieces(cmd: string, addChecksum: bool): seq<string> {
    var tail := if addChecksum then ["*", Hex02Upper(Checksum(cmd) as int)] else [];
    ["$", cmd] + tail + ["\r\n"]
  }

  lemma PiecesConcat(cmd: string, addChecksum: bool)
    ensures Concat(Pieces(cmd, addChecksum)) == Sentence(cmd, addChecksum)
  {
    var tail := if addChecksum then ["*", Hex02Upper(Checksum(cmd) as int)] else [];
    var out := ["$", cmd] + tail + ["\r\n"];
    assert Concat(out) == "$" + Concat([cmd] + tail + ["\r\n"]) by {
      assert out[1..] == [cmd] + tail + ["\r\n"];
    }
    assert Concat([cmd] + tail + ["\r\n"]) == cmd + Concat(tail + ["\r\n"]) by {
      assert ([cmd] + tail + ["\r\n"])[1..] == tail + ["\r\n"];
    }
    if addChecksum {
      var hh := Hex02Upper(Checksum(cmd) as int);
      assert Concat(tail + ["\r\n"]) == "*" + (hh + "\r\n") by {
        assert (tail + ["\r\n"])[1..] == [hh, "\r\n"];
        assert [hh, "\r\n"][1..] == ["\r\n"];
      }
    } else {
      assert tail + ["\r\n"] == ["\r\n"];
    }
  }

  /** All the pieces of a write log run together, as the receiver sees
      them. */
  function Concat(parts: seq<string>): (r: string)
    ensures |parts| > 0 ==> r == parts[0] + Concat(parts[1..])
  {
    if |parts| == 0 then "" else parts[0] + Concat(parts[1..])
  }

  /** The line a command is sent as. */
  function Sentence(cmd: string, addChecksum: bool): string {
    "$" + cmd + Suffix(cmd, addChecksum) + "\r\n"
  }

  /** `*HH`, or nothing without a checksum. */
  function Suffix(cmd: string, addChecksum: bool): string {
    if addChecksum then "*" + Hex02Upper(Checksum(cmd) as int) else ""
  }

  /** `_parse_sentence()` on what `readline()` returned: the sentence type
      and its data; None when nothing was read, the bytes fail the UTF-8
      check (MicroPython's `str(b, 'ascii')` ignores the encoding it is
      given), the checksum does not match or there is no comma; a
      ValueError when the two characters after `*` are not hexadecimal. */
  function ParseSentence(line: Option<Bytes>): (r: Result<Option<(string, string)>>)
    ensures line.None? || |line.value| == 0 ==> r == Ok(None)
    ensures line.Some? && Decode(line.value).None? ==> r == Ok(None)
    ensures r.Ok? && r.value.Some? ==> line.Some? && Decode(line.value).Some? && ',' in Decode(line.value).value
    ensures r.Err? ==> r.error == ValueError
  {
    if line.None? || |line.value| == 0 then Ok(None)
    else
      match Decode(line.value)
      case None => Ok(None)
      case Some(text) =>
        var r := Validate(StripStr(text));
        assert r.Ok? && r.value.Some? ==> ',' in text by {
          if r.Ok? && r.value.Some? { StripInfix(text, ','); }
        }
        r
  }

  /** The stripped sentence: a `*HH` suffix on a sentence of more than
      seven characters is checked against the XOR of the characters
      between the first and the `*`, and removed. */
  function Validate(s: string): (r: Result<Option<(string, string)>>)
    ensures r.Ok? && r.value.Some? ==> ',' in s
    ensures r.Err? ==> r.error == ValueError
  {
    if |s| > 7 && s[|s| - 3] == '*' then
      match ParseInt(s[|s| - 2..], 16, StrText)
      case None => Err(ValueError)
      case Some(expected) =>
        if Checksum(s[1..|s| - 3]) as int != expected then Ok(None)
        else
          var r := Frame(s[..|s| - 3]);
          assert r.Some? ==> ',' in s by {
            if r.Some? {
              var i :| 0 <= i < |s| - 3 && s[..|s| - 3][i] == ',';
              assert s[i] == ',';
            }
          }
          Ok(r)
    else Ok(Frame(s))
  }

  /** The type (after the first character, up to the first comma) and the
      data after that comma. */
  function Frame(s: string): (r: Option<(string, string)>)
    ensures r.Some? <==> ',' in s
    ensures r.Some? ==> ',' !in r.value.0
  {
    var k := IndexOf(s, ',');
    if k < 0 then None else Some((Slice(s, 1, k), s[k + 1..]))
  }

  lemma StripInfix(s: string, c: char)
    requires c in StripStr(s)
    ensures c in s
  {
    var t := TrimStart(s, IsStrSpace);
    var u := TrimEnd(t, IsStrSpace);
    var i :| 0 <= i < |u| && u[i] == c;
    assert u[i] == t[i] == s[|s| - |t| + i];
  }

  // ---------------------------------------------------------------------
  // Round trip between send_command and _parse_sentence

  /** A line `$cmd*HH` with two hexadecimal digits `HH` passes exactly when
      `HH` is the checksum of `cmd`; then the type and data are framed
      from `$cmd`, otherwise the sentence is dropped. */
  lemma CheckedLine(cmd: string, k: nat)
    requires |cmd| >= 4 && AllAscii(cmd) && k < 256
    ensures ParseSentence(Some("$" + cmd + ("*" + Hex02Upper(k)) + "\r\n"))
         == if Checksum(cmd) as int == k then Ok(Frame("$" + cmd)) else Ok(None)
  {
    CheckedBody(cmd, k);
    ParseLine("$" + cmd + ("*" + Hex02Upper(k)));
    ValidateChecked(cmd, k);
  }

  /** `$cmd*HH` is ASCII and starts and ends with no white space. */
  lemma CheckedBody(cmd: string, k: nat)
    requires AllAscii(cmd) && k < 256
    ensures var body := "$" + cmd + ("*" + Hex02Upper(k));
            AllAscii(body) && body[0] == '$' && !IsStrSpace(body[|body| - 1])
  {
    var hh := Hex02Upper(k);
    HexChars(k);
    var tail := "*" + hh;
    assert AllAscii(tail) by {
      assert tail == ['*', hh[0], hh[1]];
    }
    AsciiConcat("$", cmd);
    AsciiConcat("$" + cmd, tail);
    var body := "$" + cmd + tail;
    assert body[|body| - 1] == hh[1];
  }

  /** A non-empty ASCII sentence with no white space at its ends, sent
      with CRLF, is validated as it was sent. */
  lemma ParseLine(body: string)
    requires |body| > 0 && AllAscii(body) && !IsStrSpace(body[0]) && !IsStrSpace(body[|body| - 1])
    ensures ParseSentence(Some(body + "\r\n")) == Validate(body)
  {
    StripCrLf(body);
    AsciiConcat(body, "\r\n");
    ParseSentenceOf(body + "\r\n");
  }

  lemma LastOfPrefixed(cmd: string)
    requires |cmd| > 0
    ensures var body := "$" + cmd; body[0] == '$' && body[|body| - 1] == cmd[|cmd| - 1]
  {
  }

  /** A non-empty ASCII line is validated once stripped. */
  lemma ParseSentenceOf(line: string)
    requires |line| > 0 && AllAscii(line)
    ensures ParseSentence(Some(line)) == Validate(StripStr(line))
  {
    DecodeAscii(line);
  }

  /** A sentence without a `*HH` suffix is only framed. */
  lemma ValidatePlain(s: string)
    requires !(|s| > 7 && s[|s| - 3] == '*')
    ensures Validate(s) == Ok(Frame(s))
  {
  }

  lemma AsciiConcat(a: string, b: string)
    requires AllAscii(a) && AllAscii(b)
    ensures AllAscii(a + b)
  {
  }

  lemma ValidateChecked(cmd: string, k: nat)
    requires |cmd| >= 4 && k < 256
    ensures Validate("$" + cmd + ("*" + Hex02Upper(k)))
         == if Checksum(cmd) as int == k then Ok(Frame("$" + cmd)) else Ok(None)
  {
    var hh := Hex02Upper(k);
    HexChars(k);
    var body := "$" + cmd + ("*" + hh);
    assert body[|body| - 3] == '*';
    assert body[|body| - 2..] == hh;
    HexRoundTrip(k);
    assert body[1..|body| - 3] == cmd;
    assert body[..|body| - 3] == "$" + cmd;
    ValidateSuffix(body, k);
  }

  /** A sentence with a well-formed `*HH` suffix is kept exactly when the
      checksum matches. */
  lemma ValidateSuffix(s: string, k: int)
    requires |s| > 7 && s[|s| - 3] == '*' && ParseInt(s[|s| - 2..], 16, StrText) == Some(k)
    ensures Validate(s) == if Checksum(s[1..|s| - 3]) as int == k then Ok(Frame(s[..|s| - 3])) else Ok(None)
  {
  }

  /** The first comma of `$cmd` is the first comma of `cmd`. */
  lemma FrameCommand(cmd: string)
    requires ',' in cmd
    ensures var k := IndexOf(cmd, ',');
            Frame("$" + cmd) == Some((cmd[..k], cmd[k + 1..]))
  {
    var k := IndexOf(cmd, ',');
    var s := "$" + cmd;
    assert IndexOf(s, ',') == 1 + k by {
      IndexOfAfter('$', cmd, ',');
    }
    assert Slice(s, 1, k + 1) == cmd[..k] && s[k + 2..] == cmd[k + 1..] by {
      assert s[1..k + 1] == cmd[..k];
    }
  }

  /** Behind a different first element the first `x` moves up by one. */
  lemma IndexOfAfter<T>(c: T, s: seq<T>, x: T)
    requires c != x
    ensures IndexOf([c] + s, x) == if IndexOf(s, x) < 0 then -1 else 1 + IndexOf(s, x)
  {
    assert ([c] + s)[1..] == s;
  }

  /** Round trip: what `send_command` writes for a command of at least four
      ASCII characters with a comma parses back to the text before the
      first comma and the text after it. */
  lemma SentenceRoundTrip(cmd: string)
    requires |cmd| >= 4 && AllAscii(cmd) && ',' in cmd
    ensures var k := IndexOf(cmd, ',');
            ParseSentence(Some(Sentence(cmd, true))) == Ok(Some((cmd[..k], cmd[k + 1..])))
  {
    ChecksumAscii(cmd);
    var n := Checksum(cmd) as int;
    CheckedLine(cmd, n);
    FrameCommand(cmd);
  }

  /** A corrupted checksum drops the sentence. */
  lemma WrongChecksum(cmd: string, k: nat)
    requires |cmd| >= 4 && AllAscii(cmd) && k < 256 && k != Checksum(cmd) as int
    ensures ParseSentence(Some("$" + cmd + ("*" + Hex02Upper(k)) + "\r\n")) == Ok(None)
  {
    CheckedLine(cmd, k);
  }

  /** Without a checksum the command comes back the same way, as long as
      its own third-last character does not look like a `*`. */
  lemma PlainRoundTrip(cmd: string)
    requires AllAscii(cmd) && ',' in cmd && !IsStrSpace(cmd[|cmd| - 1])
    requires |cmd| >= 7 ==> cmd[|cmd| - 3] != '*'
    ensures var k := IndexOf(cmd, ',');
            ParseSentence(Some(Sentence(cmd, false))) == Ok(Some((cmd[..k], cmd[k + 1..])))
  {
    PlainParses(cmd);
    FrameCommand(cmd);
  }

  /** Without a checksum the sentence is only framed. */
  lemma PlainParses(cmd: string)
    requires AllAscii(cmd) && |cmd| > 0 && !IsStrSpace(cmd[|cmd| - 1])
    requires |cmd| >= 7 ==> cmd[|cmd| - 3] != '*'
    ensures ParseSentence(Some(Sentence(cmd, false))) == Ok(Frame("$" + cmd))
  {
    var body := "$" + cmd;
    assert ParseSentence(Some(Sentence(cmd, false))) == Validate(body) by {
      assert Sentence(cmd, false) == body + "\r\n";
      LastOfPrefixed(cmd);
      AsciiConcat("$", cmd);
      ParseLine(body);
    }
    assert Validate(body) == Ok(Frame(body)) by {
      assert |body| > 7 ==> body[|body| - 3] == cmd[|cmd| - 3];
      ValidatePlain(body);
    }
  }

  /** ASCII text has an ASCII checksum. */
  lemma {:induction false} ChecksumAscii(s: string)
    requires AllAscii(s)
    ensures Checksum(s) < 128
    decreases |s|
  {
    if |s| > 0 {
      var init := s[..|s| - 1];
      assert AllAscii(init) by {
        forall i | 0 <= i < |init| ensures IsAscii(init[i]) { assert init[i] == s[i]; }
      }
      ChecksumAscii(init);
      CodeBelow(s[|s| - 1]);
      XorBelow(Checksum(init), s[|s| - 1] as int as bv32);
    }
  }

  lemma XorBelow(a: bv32, b: bv32)
    requires a < 128 && b < 128
    ensures a ^ b < 128
  {
  }

  lemma CodeBelow(c: char)
    requires IsAscii(c)
    ensures c as int as bv32 < 128
  {
  }

  /** Two upper-case hexadecimal digits, neither of them white space. */
  lemma HexChars(k: nat)
    requires k < 256
    ensures var h := Hex02Upper(k);
            |h| == 2 && IsAscii(h[0]) && IsAscii(h[1]) && !IsStrSpace(h[1])
            && IsDigitIn(h[0], 16) && IsDigitIn(h[1], 16)
  {
    assert Hex02Upper(k) == [DigitChar(k / 16), DigitChar(k % 16)];
  }

  /** CRLF after a line with non-space ends is stripped off. */
  lemma StripCrLf(body: string)
    requires |body| > 0 && !IsStrSpace(body[0]) && !IsStrSpace(body[|body| - 1])
    ensures StripStr(body + "\r\n") == body
  {
    assert body + "\r\n" == (body + ['\r']) + ['\n'];
    StripDropsTrailingSpace(body + ['\r'], '\n', IsStrSpace);
    StripDropsTrailingSpace(body, '\r', IsStrSpace);
    StripNoSpaceEnds(body, IsStrSpace);
  }

  // ---------------------------------------------------------------------
  // Fields

  /** `_parse_int(field)`: an empty field is None, anything else goes
      through `int()`. */
  function IntField(f: string): (r: Result<Option<int>>)
    ensures f == "" <==> r == Ok(None)
    ensures r.Err? ==> r.error == ValueError
  {
    if f == "" then Ok(None)
    else
      match ParseInt(f, 0, StrText)
      case None => Err(ValueError)
      case Some(n) => Ok(Some(n))
  }

  /** `_parse_float(field)`: an empty field is None, anything else goes
      through `float()`. */
  function FloatField(f: string): (r: Result<Option<Float>>)
    ensures f == "" <==> r == Ok(None)
    ensures r.Err? ==> r.error == ValueError
  {
    if f == "" then Ok(None)
    else
      match ParseFloat(f)
      case None => Err(ValueError)
      case Some(x) => Ok(Some(x))
  }

  /** `_parse_degrees(field)` up to the conversion of the float: fields
      shorter than three characters are None. */
  function DegreesField(f: string): (r: Result<Option<Float>>)
    ensures |f| < 3 ==> r == Ok(None)
    ensures r.Err? ==> r.error == ValueError
    ensures r.Ok? && r.value.Some? ==> ParseFloat(f) == r.value
  {
    if |f| < 3 then Ok(None) else FloatField(f)
  }

  /** The hemisphere letter applied to a parsed coordinate. */
  function Hemisphere(x: Option<Float>, letter: string, negative: string): (r: Option<Degrees>)
    ensures r.Some? <==> x.Some?
    ensures r.Some? ==> r.value.raw == x.value && (r.value.negated <==> Lower(letter) == negative)
  {
    match x
    case None => None
    case Some(v) => Some(Degrees(v, Lower(letter) == negative))
  }

  /** `int(_parse_float(field))` for the time of day: an empty field makes
      it `int(None)`, a TypeError; an infinity overflows and NaN is a
      ValueError. */
  function TimeOfDay(f: string): (r: Result<int>)
    ensures f == "" ==> r == Err(TypeError)
    ensures r.Err? && f != "" ==> r.error == ValueError || r.error == OverflowError
  {
    if f == "" then Err(TypeError)
    else
      match ParseFloat(f)
      case None => Err(ValueError)
      case Some(x) => IntOfFloat(x)
  }

  /** `hhmmss` as hours, minutes and seconds: `t // 10000`,
      `(t // 100) % 100` and `t % 100`. Python's floor division is
      Euclidean division here, since the divisors are positive. */
  function Clock(t: int): (r: (int, int, int))
    ensures r.0 * 10000 + r.1 * 100 + r.2 == t
    ensures 0 <= r.1 < 100 && 0 <= r.2 < 100
    ensures t >= 0 ==> r.0 >= 0
  {
    (t / 10000, (t / 100) % 100, t % 100)
  }

  /** The time of day put into the timestamp, keeping a date already
      known. */
  function SetClock(ts: Option<Stamp>, t: int): (r: Stamp)
    ensures (r.hour, r.min, r.sec) == Clock(t)
    ensures ts.Some? ==> (r.year, r.mon, r.mday) == (ts.value.year, ts.value.mon, ts.value.mday)
    ensures ts.None? ==> (r.year, r.mon, r.mday) == (0, 0, 0)
  {
    var (h, m, s) := Clock(t);
    match ts
    case Some(prev) => Stamp(prev.year, prev.mon, prev.mday, h, m, s)
    case None => Stamp(0, 0, 0, h, m, s)
  }

  /** `ddmmyy` as day, month and year 2000 + yy; each part through
      `int()`. */
  function DateOf(f: string): (r: Result<Date>)
    requires |f| == 6
    ensures r.Err? ==> r.error == ValueError
  {
    IntError(f[0..2]);
    IntError(f[2..4]);
    IntError(f[4..6]);
    DateParts(Int(f[0..2], StrText), Int(f[2..4], StrText), Int(f[4..6], StrText))
  }

  /** Day, month and two-digit year as `int()` left them, in that order. */
  function DateParts(day: Result<int>, month: Result<int>, yy: Result<int>): (r: Result<Date>)
    ensures r.Ok? <==> day.Ok? && month.Ok? && yy.Ok?
    ensures r.Ok? ==> r.value == Date(day.value, month.value, 2000 + yy.value)
    ensures r.Err? ==> r.error == if day.Err? then day.error else if month.Err? then month.error else yy.error
  {
    var d :- day;
    var m :- month;
    var y :- yy;
    Ok(Date(d, m, 2000 + y))
  }

  /** The date put into the timestamp, keeping a time already known. */
  function SetDate(ts: Option<Stamp>, date: Date): (r: Stamp)
    ensures r.mday == date.mday && r.mon == date.mon && r.year == date.year
    ensures ts.Some? ==> (r.hour, r.min, r.sec) == (ts.value.hour, ts.value.min, ts.value.sec)
    ensures ts.None? ==> (r.hour, r.min, r.sec) == (0, 0, 0)
  {
    match ts
    case Some(prev) => Stamp(date.year, date.mon, date.mday, prev.hour, prev.min, prev.sec)
    case None => Stamp(date.year, date.mon, date.mday, 0, 0, 0)
  }

  // ---------------------------------------------------------------------
  // Sentences

  /** Nothing but the GGA attributes (and nothing at all on the UART)
      differs. */
  predicate GgaOnly(g: Gps, h: Gps) {
    h.uart == g.uart && h.velocity == g.velocity && h.speed == g.speed && h.track == g.track
  }

  /** Nothing but the RMC attributes differs. */
  predicate RmcOnly(g: Gps, h: Gps) {
    && h.uart == g.uart && h.satellites == g.satellites && h.hdop == g.hdop
    && h.altitude == g.altitude && h.geoid == g.geoid && h.velocity == g.velocity
  }

  /** `_parse_gpgga(args)`: applied only to exactly 14 fields. The fields
      are assigned in order and a field that raises leaves the earlier
      assignments in place, so the result is the state reached and the
      exception, if any. */
  function ApplyGga(g: Gps, args: string): (r: (Gps, Result<()>))
    ensures GgaOnly(g, r.0)
    ensures |Split(args, ',')| != 14 ==> r == (g, Ok(()))
    ensures |Split(args, ',')| == 14 ==> GgaTime(g, Split(args, ',')[0], r)
  {
    var d := Split(args, ',');
    if |d| != 14 then (g, Ok(()))
    else
      match TimeOfDay(d[0])
      case Err(e) => (g, Err(e))
      case Ok(t) =>
        var g1 := g.(timestamp := Some(SetClock(g.timestamp, t)));
        match DegreesField(d[1])
        case Err(e) => (g1, Err(e))
        case Ok(lat) =>
          var g2 := g1.(latitude := Hemisphere(lat, d[2], "s"));
          match DegreesField(d[3])
          case Err(e) => (g2, Err(e))
          case Ok(lon) =>
            var g3 := g2.(longitude := Hemisphere(lon, d[4], "w"));
            GgaNumbers(g3, d)
  }

  /** The simple numeric fields of GGA, assigned in order until one
      raises: fix quality, satellites, dilution, altitude and geoid
      height. */
  function GgaNumbers(g: Gps, d: seq<string>): (r: (Gps, Result<()>))
    requires |d| == 14
    ensures r.0.uart == g.uart && r.0.timestamp == g.timestamp
    ensures r.0.latitude == g.latitude && r.0.longitude == g.longitude
    ensures r.0.velocity == g.velocity && r.0.speed == g.speed && r.0.track == g.track
    ensures r.0.fixQuality == (match IntField(d[5]) case Ok(q) => q case Err(_) => g.fixQuality)
  {
    match IntField(d[5])
    case Err(e) => (g, Err(e))
    case Ok(quality) =>
      var g4 := g.(fixQuality := quality);
      match IntField(d[6])
      case Err(e) => (g4, Err(e))
      case Ok(sats) =>
        var g5 := g4.(satellites := sats);
        match FloatField(d[7])
        case Err(e) => (g5, Err(e))
        case Ok(hdop) =>
          var g6 := g5.(hdop := hdop);
          match FloatField(d[8])
          case Err(e) => (g6, Err(e))
          case Ok(alt) =>
            var g7 := g6.(altitude := alt);
            match FloatField(d[10])
            case Err(e) => (g7, Err(e))
            case Ok(geoid) => (g7.(geoid := geoid), Ok(()))
  }

  /** The time field's effect: a time field that raises changes nothing;
      one that parses sets the time of day and keeps the date. */
  predicate GgaTime(g: Gps, f: string, r: (Gps, Result<()>)) {
    match TimeOfDay(f)
    case Err(e) => r == (g, Err(e))
    case Ok(t) => r.0.timestamp == Some(SetClock(g.timestamp, t))
  }

  /** `_parse_gprmc(args)`: applied only to at least 11 fields; fields are
      assigned in order as for GGA. */
  function ApplyRmc(g: Gps, args: string): (r: (Gps, Result<()>))
    ensures RmcOnly(g, r.0)
    ensures |Split(args, ',')| < 11 ==> r == (g, Ok(()))
    ensures |Split(args, ',')| >= 11 && TimeOfDay(Split(args, ',')[0]).Err? ==> r == (g, Err(TimeOfDay(Split(args, ',')[0]).error))
    ensures |Split(args, ',')| >= 11 && TimeOfDay(Split(args, ',')[0]).Ok? ==> r.0.fixQuality == Some(Status(Split(args, ',')[1]))
  {
    var d := Split(args, ',');
    if |d| < 11 then (g, Ok(()))
    else
      match TimeOfDay(d[0])
      case Err(e) => (g, Err(e))
      case Ok(t) =>
        var g1 := g.(timestamp := Some(SetClock(g.timestamp, t)));
        RmcFields(g1.(fixQuality := Some(Status(d[1]))), d)
  }

  /** The RMC fields after the status: position, speed, track and the
      date. Only the date touches the timestamp. */
  function RmcFields(g: Gps, d: seq<string>): (r: (Gps, Result<()>))
    requires |d| >= 11
    ensures RmcOnly(g, r.0) && r.0.fixQuality == g.fixQuality
    ensures r.1.Ok? && |d[8]| == 6 ==> DateOf(d[8]).Ok? && r.0.timestamp == Some(SetDate(g.timestamp, DateOf(d[8]).value))
    ensures r.1.Err? || |d[8]| != 6 ==> r.0.timestamp == g.timestamp
  {
    match DegreesField(d[2])
    case Err(e) => (g, Err(e))
    case Ok(lat) =>
      var g1 := g.(latitude := Hemisphere(lat, d[3], "s"));
      match DegreesField(d[4])
      case Err(e) => (g1, Err(e))
      case Ok(lon) =>
        var g2 := g1.(longitude := Hemisphere(lon, d[5], "w"));
        match FloatField(d[6])
        case Err(e) => (g2, Err(e))
        case Ok(speed) =>
          var g3 := g2.(speed := speed);
          match FloatField(d[7])
          case Err(e) => (g3, Err(e))
          case Ok(track) =>
            var g4 := g3.(track := track);
            if |d[8]| != 6 then (g4, Ok(()))
            else
              match DateOf(d[8])
              case Err(e) => (g4, Err(e))
              case Ok(date) => (g4.(timestamp := Some(SetDate(g4.timestamp, date))), Ok(()))
  }

  /** RMC's status: 1 for an active fix, otherwise 0. */
  function Status(f: string): (q: int)
    ensures q == 1 <==> f == "A" || f == "a"
    ensures q == 0 || q == 1
  {
    assert Lower(f) == "a" <==> f == "A" || f == "a" by {
      if Lower(f) == "a" {
        assert LowerChar(f[0]) == 'a';
        assert f == [f[0]];
      }
    }
    if Lower(f) == "a" then 1 else 0
  }

  /** `update()`: reads one line; False when no sentence came out of it,
      otherwise the sentence is dispatched on its upper-cased type and the
      answer is True, whatever the type. */
  function Update(g: Gps): (r: (Gps, Result<bool>))
    ensures r.0.uart == ReadLine(g.uart).0
    ensures r.1 == Ok(false) <==> ParseSentence(ReadLine(g.uart).1) == Ok(None)
    ensures r.1 == Ok(false) ==> r.0 == g.(uart := ReadLine(g.uart).0)
  {
    var (p, line) := ReadLine(g.uart);
    var g1 := g.(uart := p);
    match ParseSentence(line)
    case Err(e) => (g1, Err(e))
    case Ok(None) => (g1, Ok(false))
    case Ok(Some((kind, args))) => Dispatch(g1, kind, args)
  }

  /** A framed sentence: GGA and RMC in any case are applied, other types
      are ignored; either way the answer is True unless a field raised. */
  function Dispatch(g: Gps, kind: string, args: string): (r: (Gps, Result<bool>))
    ensures r.1.Ok? ==> r.1.value
    ensures r.0.uart == g.uart
    ensures Upper(kind) != "GPGGA" && Upper(kind) != "GPRMC" ==> r == (g, Ok(true))
  {
    var t := Upper(kind);
    var (h, done) := if t == "GPGGA" then ApplyGga(g, args) else if t == "GPRMC" then ApplyRmc(g, args) else (g, Ok(()));
    (h, if done.Ok? then Ok(true) else Err(done.error))
  }

  // ---------------------------------------------------------------------
  // What the fields mean

  /** What `send_command` puts on the wire comes back out of
      `_parse_sentence` split at the command's first comma. */
  lemma SendThenParse(p: Port, cmd: string)
    requires |cmd| >= 4 && AllAscii(cmd) && ',' in cmd
    ensures var wire := Concat(SendCommand(p, cmd, true).written[|p.written|..]);
            var k := IndexOf(cmd, ',');
            ParseSentence(Some(wire)) == Ok(Some((cmd[..k], cmd[k + 1..])))
  {
    SentenceRoundTrip(cmd);
  }

  /** `hhmmss.sss` reads as the integer `hhmmss`. */
  lemma TimeOfDecimal(ip: string, fp: string)
    requires AllDigits(ip) && AllDigits(fp) && |ip| > 0
    ensures TimeOfDay(ip + "." + fp) == Ok(Value(ip))
  {
    FloatOfDecimal(ip, fp);
  }

  /** `hhmmss` without a fraction reads as the same integer. */
  lemma TimeOfDigits(ip: string)
    requires AllDigits(ip) && |ip| > 0
    ensures TimeOfDay(ip) == Ok(Value(ip))
  {
    FloatOfDigits(ip);
  }

  /** Two-digit hours, minutes and seconds come back out of the clock
      split. */
  lemma ClockOfDigits(hh: string, mm: string, ss: string)
    requires |hh| == 2 && |mm| == 2 && |ss| == 2
    requires AllDigits(hh) && AllDigits(mm) && AllDigits(ss)
    ensures AllDigits(hh + mm + ss)
    ensures Clock(Value(hh + mm + ss)) == (Value(hh), Value(mm), Value(ss))
  {
    AllDigitsConcat(hh, mm);
    AllDigitsConcat(hh + mm, ss);
    ValueConcat(hh, mm);
    ValueConcat(hh + mm, ss);
    ValueBound(mm);
    ValueBound(ss);
    assert Pow10(2) == 100;
    var t := Value(hh + mm + ss);
    assert t == Value(hh) * 10000 + Value(mm) * 100 + Value(ss);
    SplitUnique(t, Value(hh), Value(mm), Value(ss));
  }

  /** Hours, minutes and seconds with minutes and seconds below 100 are
      the only split of `hhmmss`. */
  lemma SplitUnique(t: int, h: int, m: int, s: int)
    requires 0 <= m < 100 && 0 <= s < 100 && t == h * 10000 + m * 100 + s
    ensures Clock(t) == (h, m, s)
  {
    var (h', m', s') := Clock(t);
    var k := (h - h') * 100 + (m - m');
    assert k * 100 == s' - s;
    HundredApart(k);
    var j := h - h';
    assert j * 100 == m' - m;
    HundredApart(j);
  }

  /** A non-zero multiple of 100 is at least 100 away from 0. */
  lemma HundredApart(k: int)
    ensures k != 0 ==> k * 100 >= 100 || k * 100 <= -100
  {
  }

  lemma AllDigitsConcat(a: string, b: string)
    requires AllDigits(a) && AllDigits(b)
    ensures AllDigits(a + b)
  {
    assert forall i :: 0 <= i < |a + b| ==> (a + b)[i] == if i < |a| then a[i] else b[i - |a|];
  }

  /** A GGA sentence whose time field is `hhmmss.sss` sets the time of day
      to those hours, minutes and seconds and keeps any date. */
  lemma GgaSetsClock(g: Gps, args: string, hh: string, mm: string, ss: string, fp: string)
    requires |Split(args, ',')| == 14 && Split(args, ',')[0] == hh + mm + ss + "." + fp
    requires |hh| == 2 && |mm| == 2 && |ss| == 2
    requires AllDigits(hh) && AllDigits(mm) && AllDigits(ss) && AllDigits(fp)
    ensures var ts := ApplyGga(g, args).0.timestamp;
            && ts.Some? && (ts.value.hour, ts.value.min, ts.value.sec) == (Value(hh), Value(mm), Value(ss))
            && (g.timestamp.Some? ==> (ts.value.year, ts.value.mon, ts.value.mday)
                                      == (g.timestamp.value.year, g.timestamp.value.mon, g.timestamp.value.mday))
  {
    ClockOfDigits(hh, mm, ss);
    TimeOfDecimal(hh + mm + ss, fp);
  }

  /** Once the time and both coordinates of a GGA sentence have parsed,
      `has_fix` holds after it exactly when its fix quality field reads as
      an integer of at least 1, or that field raised and there was a fix
      already. */
  lemma GgaFix(g: Gps, args: string)
    requires |Split(args, ',')| == 14
    ensures var d := Split(args, ',');
            var q := IntField(d[5]);
            TimeOfDay(d[0]).Ok? && DegreesField(d[1]).Ok? && DegreesField(d[3]).Ok? ==>
              (HasFix(ApplyGga(g, args).0) <==> (q.Ok? && q.value.Some? && q.value.value >= 1) || (q.Err? && HasFix(g)))
  {
  }

  /** RMC reports a fix exactly when its status is `A` or `a`, once the
      time field has parsed. */
  lemma RmcFix(g: Gps, args: string)
    requires |Split(args, ',')| >= 11 && TimeOfDay(Split(args, ',')[0]).Ok?
    ensures var d := Split(args, ',');
            HasFix(ApplyRmc(g, args).0) <==> d[1] == "A" || d[1] == "a"
  {
  }

  /** A date field whose three pairs `int()` reads as day, month and
      two-digit year gives that date in the 21st century. */
  lemma DateOfFields(f: string, day: int, month: int, yy: int)
    requires |f| == 6
    requires Int(f[0..2], StrText) == Ok(day)
    requires Int(f[2..4], StrText) == Ok(month)
    requires Int(f[4..6], StrText) == Ok(yy)
    ensures DateOf(f) == Ok(Date(day, month, 2000 + yy))
  {
    DateUnfold(f);
    DatePartsFields(f[0..2], f[2..4], f[4..6], day, month, yy);
  }

  lemma DateUnfold(f: string)
    requires |f| == 6
    ensures DateOf(f) == DateParts(Int(f[0..2], StrText), Int(f[2..4], StrText), Int(f[4..6], StrText))
  {
  }

  lemma DatePartsFields(a: string, b: string, c: string, day: int, month: int, yy: int)
    requires Int(a, StrText) == Ok(day) && Int(b, StrText) == Ok(month) && Int(c, StrText) == Ok(yy)
    ensures DateParts(Int(a, StrText), Int(b, StrText), Int(c, StrText)) == Ok(Date(day, month, 2000 + yy))
  {
    DatePartsOk(Int(a, StrText), Int(b, StrText), Int(c, StrText), day, month, yy);
  }

  lemma IntError(s: string)
    ensures Int(s, StrText).Err? ==> Int(s, StrText).error == ValueError
  {
  }

  lemma DatePartsOk(day: Result<int>, month: Result<int>, yy: Result<int>, d: int, m: int, y: int)
    requires day == Ok(d) && month == Ok(m) && yy == Ok(y)
    ensures DateParts(day, month, yy) == Ok(Date(d, m, 2000 + y))
  {
  }

  /** A run of decimal digits reads through `int()` as its value; with
      DateOfFields this gives `ddmmyy` as day dd, month mm, year 20yy. */
  lemma IntOfDigits(s: string)
    requires |s| > 0 && AllDigits(s)
    ensures Int(s, StrText) == Ok(Value(s))
  {
    StripNoSpaceEnds(s, IsStrSpace);
    assert forall i :: 0 <= i < |s| ==> IsDigitIn(s[i], 10);
    ParseDigitText(s, StrText, s);
  }

  /** An RMC sentence that is applied completely and carries a
      six-character date whose parts read as day, month and year sets
      that date and keeps the time of day its time field gave. */
  lemma RmcSetsDate(g: Gps, args: string, day: int, month: int, yy: int)
    requires |Split(args, ',')| >= 11
    requires var f := Split(args, ',')[8];
      && |f| == 6 && Int(f[0..2], StrText) == Ok(day)
      && Int(f[2..4], StrText) == Ok(month) && Int(f[4..6], StrText) == Ok(yy)
    requires ApplyRmc(g, args).1.Ok?
    ensures TimeOfDay(Split(args, ',')[0]).Ok?
    ensures var t := Clock(TimeOfDay(Split(args, ',')[0]).value);
            ApplyRmc(g, args).0.timestamp == Some(Stamp(2000 + yy, month, day, t.0, t.1, t.2))
  {
    DateOfFields(Split(args, ',')[8], day, month, yy);
  }

  /** A field written with `'%d'` reads back through `_parse_int`. */
  lemma IntFieldOfDecimal(n: int)
    ensures IntField(Decimal(n)) == Ok(Some(n))
  {
    DecimalParses(n, StrText);
  }

  /** A decimal field reads back through `_parse_float` as its exact
      value. */
  lemma FloatFieldOfDecimal(ip: string, fp: string)
    requires AllDigits(ip) && AllDigits(fp) && |ip| > 0
    ensures FloatField(ip + "." + fp) == Ok(Some(Finite(Digits(ip, fp), -|fp|)))
  {
    FloatOfDecimal(ip, fp);
  }
}
