/** The unsolicited-line classifier both modem drivers share
    (`check_incoming`). A notification line from the modem is split on
    commas and recognised by its first field:

    - `RING`: an incoming call;
    - a first field starting `+CLIP`: caller identification, the number
      being the text between the first pair of quotes (3GPP TS 27.007,
      section 7.6);
    - `+CMTI`: a new SMS, whose storage index is the second comma field
      (3GPP TS 27.005, section 3.4.1);
    - `+CUSD`: a USSD reply, from which the balance between a `#` and the
      second `.` after it is kept as the credit;
    - `NO CARRIER`: the call ended.

    Registered handlers are not run; each call of one is recorded as an
    event. The two drivers differ only in the currency text put in front of
    the credit, so it is a parameter.
 */
module Urc {
  import opened Wrappers
  import opened PyText
  import opened Transport
  import opened Sanitize

  /** Which callbacks are registered (`callback_incoming` and friends). */
  datatype Handlers = Handlers(incoming: bool, noCarrier: bool, clip: bool, msg: bool, credit: bool)

  /** One call of a registered handler. */
  datatype Event = IncomingCall | CallerId | MessageArrived | CreditUpdated | CarrierLost

  /** The notification state of a driver object. */
  datatype UrcState = UrcState(
    clip: Option<string>,
    msgId: int,
    credit: string,
    handlers: Handlers,
    events: seq<Event>)

  /** The state right after construction: nothing registered, nothing seen. */
  function Initial(): (u: UrcState)
    ensures u.events == [] && u.clip == None && u.msgId == 0 && u.credit == ""
    ensures !u.handlers.incoming && !u.handlers.noCarrier && !u.handlers.clip
    ensures !u.handlers.msg && !u.handlers.credit
  {
    UrcState(None, 0, "", Handlers(false, false, false, false, false), [])
  }

  /** Runs (records) the handler for `e` when one is registered. */
  function Notify(u: UrcState, registered: bool, e: Event): (r: UrcState)
    ensures r.events == u.events + (if registered then [e] else [])
    ensures r.clip == u.clip && r.msgId == u.msgId && r.credit == u.credit && r.handlers == u.handlers
  {
    if registered then u.(events := u.events + [e]) else u
  }

  /** The balance inside the second comma field `f` of a `+CUSD` line:
      from just after the first `#` up to the second `.` searched for
      from there, provided the `#` is not the first character. */
  function Balance(f: string): (r: Option<string>)
    ensures r.Some? ==> |r.value| < |f|
  {
    var st := Find(f, '#', 0);
    var en := Find(f, '.', st);
    var en2 := Find(f, '.', en + 1);
    if st > 0 && en2 > 0 then Some(Slice(f, st + 1, en2)) else None
  }

  /** The credit update a `+CUSD` field makes. */
  function Credit(f: string, currency: string, u: UrcState): (r: UrcState)
    ensures r.clip == u.clip && r.msgId == u.msgId && r.handlers == u.handlers
    ensures Balance(f).None? ==> r == u
  {
    match Balance(f)
    case Some(amount) => Notify(u.(credit := currency + amount), u.handlers.credit, CreditUpdated)
    case None => u
  }

  /** The kinds of notification line, told apart by the first comma field. */
  datatype Kind = Ring | CallerLine | NewMessage | Ussd | NoCarrier | Unrecognised

  /** The if/elif chain of `check_incoming`, tried in its order. */
  function KindOf(head: string): (k: Kind)
    ensures k == Ring <==> head == "RING"
    ensures k == NoCarrier ==> head == "NO CARRIER"
    ensures k == CallerLine ==> Prefix(head, 5) == "+CLIP"
    ensures k == NewMessage ==> Prefix(head, 5) == "+CMTI"
    ensures k == Ussd ==> Prefix(head, 5) == "+CUSD"
    ensures k == Unrecognised <==>
              (head != "RING" && head != "NO CARRIER" && Prefix(head, 5) !in {"+CLIP", "+CMTI", "+CUSD"})
  {
    if head == "RING" then Ring
    else if Prefix(head, 5) == "+CLIP" then CallerLine
    else if Prefix(head, 5) == "+CMTI" then NewMessage
    else if Prefix(head, 5) == "+CUSD" then Ussd
    else if head == "NO CARRIER" then NoCarrier
    else Unrecognised
  }

  /** Classifies one sanitised notification line. A failure is the
      exception `check_incoming` raises, and then the state is unchanged. */
  function Classify(line: string, currency: string, u: UrcState): (r: Result<UrcState>)
    ensures r.Ok? ==> r.value.handlers == u.handlers
    ensures r.Ok? ==> |u.events| <= |r.value.events| <= |u.events| + 1
    ensures r.Ok? ==> r.value.events[..|u.events|] == u.events
    ensures r.Err? ==> r.error == IndexError || r.error == ValueError || r.error == TypeError
    ensures KindOf(Split(line, ',')[0]) == Unrecognised ==> r == Ok(u)
  {
    var params := Split(line, ',');
    Dispatch(KindOf(params[0]), params, currency, u)
  }

  /** What a line of kind `k` with comma fields `params` does. */
  function Dispatch(k: Kind, params: seq<string>, currency: string, u: UrcState): (r: Result<UrcState>)
    requires |params| >= 1
    ensures r.Ok? ==> r.value.handlers == u.handlers
    ensures r.Ok? ==> |u.events| <= |r.value.events| <= |u.events| + 1
    ensures r.Ok? ==> r.value.events[..|u.events|] == u.events
    ensures r.Err? ==> r.error == IndexError || r.error == ValueError || r.error == TypeError
    ensures k == Unrecognised ==> r == Ok(u)
  {
    match k
    case Ring =>
      Ok(Notify(u, u.handlers.incoming, IncomingCall))
    case CallerLine =>
      var q := Split(params[0], '"');
      if |q| < 2 then Err(IndexError)
      else Ok(Notify(u.(clip := Some(q[1])), u.handlers.clip, CallerId))
    case NewMessage =>
      if |params| < 2 then Err(IndexError)
      else
        var n :- Int(params[1], StrText);
        Ok(Notify(u.(msgId := n), u.handlers.msg, MessageArrived))
    case Ussd =>
      if |params| > 1 then Ok(Credit(params[1], currency, u)) else Ok(u)
    case NoCarrier =>
      if u.handlers.noCarrier then Ok(u.(events := u.events + [CarrierLost]))
      else Err(TypeError)
    case Unrecognised =>
      Ok(u)
  }

  /** `check_incoming()`: when a line is waiting, reads exactly that one
      line, sanitises it and classifies it; otherwise does nothing. It
      never waits and never writes. */
  function CheckIncoming(p: Port, currency: string, u: UrcState): (r: (Port, Result<UrcState>))
    ensures r.0.written == p.written && r.0.now == p.now && r.0.readTimeout == p.readTimeout
    ensures !Any(p) ==> r == (p, Ok(u))
    ensures Any(p) ==> r.0.feed == p.feed[1..]
    ensures Any(p) ==> r.1 == Classify(ConvertToString(p.feed[0].line), currency, u)
  {
    if Any(p) then
      var (q, buf) := Take(p);
      (q, Classify(ConvertToString(buf), currency, u))
    else (p, Ok(u))
  }

  // ---------------------------------------------------------------------
  // What each kind of line does

  /** `RING` (alone or as the first field) calls the incoming-call handler
      when one is registered and changes nothing else. */
  lemma ClassifyRing(rest: string, currency: string, u: UrcState)
    requires |rest| == 0 || rest[0] == ','
    ensures Classify("RING" + rest, currency, u)
            == Ok(u.(events := u.events + if u.handlers.incoming then [IncomingCall] else []))
  {
    FirstField("RING", ',', rest);
  }

  /** A line the chain does not know, such as a stray `OK`, falls through
      every branch and leaves the state as it was. */
  lemma ClassifyOther(line: string, currency: string, u: UrcState)
    requires ',' !in line && line != "RING" && line != "NO CARRIER"
    requires Prefix(line, 5) !in {"+CLIP", "+CMTI", "+CUSD"}
    ensures Classify(line, currency, u) == Ok(u)
  {
    SplitWhole(line, ',');
  }

  /** `+CLIP: "<number>"...` stores the number between the first pair of
      quotes and calls the caller-id handler when one is registered. */
  lemma ClassifyClip(number: string, rest: string, currency: string, u: UrcState)
    requires '"' !in number && ',' !in number
    requires |rest| == 0 || rest[0] == ','
    ensures Classify("+CLIP: \"" + number + "\"" + rest, currency, u)
            == Ok(u.(clip := Some(number),
                     events := u.events + if u.handlers.clip then [CallerId] else []))
  {
    var head := "+CLIP: \"" + number + "\"";
    assert "+CLIP: \"" + number + "\"" + rest == head + rest;
    ClipHead(number);
    FirstField(head, ',', rest);
  }

  lemma ClipHead(number: string)
    requires '"' !in number && ',' !in number
    ensures ',' !in "+CLIP: \"" + number + "\""
    ensures KindOf("+CLIP: \"" + number + "\"") == CallerLine
    ensures Split("+CLIP: \"" + number + "\"", '"')[1] == number
  {
    var head := "+CLIP: \"" + number + "\"";
    assert ',' !in head by {
      assert head == "+CLIP: \"" + (number + "\"");
    }
    assert KindOf(head) == CallerLine by {
      assert head[..5] == "+CLIP";
      KindOfClip(head);
    }
    ClipQuoted(number);
  }

  /** The text between the first two quotes of the header is the number. */
  lemma ClipQuoted(number: string)
    requires '"' !in number
    ensures Split("+CLIP: \"" + number + "\"", '"')[1] == number
  {
    var head := "+CLIP: \"" + number + "\"";
    var tail := number + ['"'] + [];
    assert head == "+CLIP: " + ['"'] + tail;
    SplitField("+CLIP: ", '"', tail);
    SplitField(number, '"', []);
  }

  lemma KindOfClip(head: string)
    requires |head| >= 5 && head[..5] == "+CLIP"
    ensures KindOf(head) == CallerLine
  {
    assert Prefix(head, 5) == "+CLIP";
  }

  /** `+CMTI: <mem>,<index>` stores the index and calls the message
      handler when one is registered. */
  lemma ClassifyCmti(tag: string, n: int, currency: string, u: UrcState)
    requires ',' !in tag && Prefix(tag, 5) == "+CMTI"
    ensures Classify(tag + "," + Decimal(n), currency, u)
            == Ok(u.(msgId := n, events := u.events + if u.handlers.msg then [MessageArrived] else []))
  {
    var d := Decimal(n);
    DecimalNoComma(n);
    TwoFields(tag, d);
    KindOfCmti(tag);
    DecimalParses(n, StrText);
  }

  /** Two comma-free fields joined by a comma split back into the two. */
  lemma TwoFields(a: string, b: string)
    requires ',' !in a && ',' !in b
    ensures Split(a + "," + b, ',') == [a, b]
  {
    SplitField(a, ',', b);
    SplitWhole(b, ',');
  }

  lemma KindOfCmti(tag: string)
    requires Prefix(tag, 5) == "+CMTI"
    ensures KindOf(tag) == NewMessage
  {
    assert Prefix("RING", 5) == "RING";
  }

  /** A USSD text holding a balance: `a#x.y.z`. */
  function BalanceText(a: string, x: string, y: string, z: string): string {
    a + "#" + x + "." + y + "." + z
  }

  /** The balance of a USSD text holding a `#` after its first
      character: the text from just after that `#` up to the second `.`
      that follows it. */
  lemma BalanceExtract(a: string, x: string, y: string, z: string)
    requires |a| > 0 && '#' !in a && '.' !in x && '.' !in y
    ensures Balance(BalanceText(a, x, y, z)) == Some(x + "." + y)
  {
    BalanceHash(a, x, y, z);
    BalanceFirstDot(a, x, y, z);
    BalanceSecondDot(a, x, y, z);
    BalanceAmount(a, x, y, z);
  }

  lemma BalanceHash(a: string, x: string, y: string, z: string)
    requires '#' !in a
    ensures Find(BalanceText(a, x, y, z), '#', 0) == |a|
  {
    assert BalanceText(a, x, y, z) == [] + a + ['#'] + (x + "." + y + "." + z);
    FindAfter([], a, '#', x + "." + y + "." + z);
  }

  lemma BalanceFirstDot(a: string, x: string, y: string, z: string)
    requires '.' !in x
    ensures Find(BalanceText(a, x, y, z), '.', |a|) == |a| + 1 + |x|
  {
    assert BalanceText(a, x, y, z) == (a + "#") + x + ['.'] + (y + "." + z);
    FindAfter(a + "#", x, '.', y + "." + z);
  }

  lemma BalanceSecondDot(a: string, x: string, y: string, z: string)
    requires '.' !in y
    ensures Find(BalanceText(a, x, y, z), '.', |a| + 2 + |x|) == |a| + 2 + |x| + |y|
  {
    assert BalanceText(a, x, y, z) == (a + "#" + x + ".") + y + ['.'] + z;
    FindAfter(a + "#" + x + ".", y, '.', z);
  }

  lemma BalanceAmount(a: string, x: string, y: string, z: string)
    ensures Slice(BalanceText(a, x, y, z), |a| + 1, |a| + 2 + |x| + |y|) == x + "." + y
  {
    assert BalanceText(a, x, y, z) == (a + "#") + (x + "." + y) + ("." + z);
    SliceMid(a + "#", x + "." + y, "." + z);
  }

  /** A `+CUSD` line whose second field has the balance form updates the
      credit and calls the credit handler when one is registered. */
  lemma ClassifyCusd(tag: string, f: string, rest: string, a: string, x: string, y: string, z: string,
                     currency: string, u: UrcState)
    requires ',' !in tag && Prefix(tag, 5) == "+CUSD"
    requires ',' !in f && f == BalanceText(a, x, y, z)
    requires |a| > 0 && '#' !in a && '.' !in x && '.' !in y
    requires |rest| == 0 || rest[0] == ','
    ensures Classify(tag + "," + f + rest, currency, u)
            == Ok(u.(credit := currency + (x + "." + y),
                     events := u.events + if u.handlers.credit then [CreditUpdated] else []))
  {
    CusdFields(tag, f, rest);
    BalanceExtract(a, x, y, z);
  }

  /** A `+CUSD` line whose second field has no `#`, or starts with it,
      changes nothing. */
  lemma ClassifyCusdIgnored(tag: string, f: string, rest: string, currency: string, u: UrcState)
    requires ',' !in tag && Prefix(tag, 5) == "+CUSD"
    requires ',' !in f
    requires |rest| == 0 || rest[0] == ','
    requires '#' !in f || f[0] == '#'
    ensures Classify(tag + "," + f + rest, currency, u) == Ok(u)
  {
    CusdFields(tag, f, rest);
    CreditIgnored(f, currency, u);
  }

  lemma CreditIgnored(f: string, currency: string, u: UrcState)
    requires '#' !in f || f[0] == '#'
    ensures Credit(f, currency, u) == u
  {
    if '#' in f {
      FindIs(f, '#', 0, 0);
    } else {
      FindSpec(f, '#', 0);
    }
  }

  lemma CusdFields(tag: string, f: string, rest: string)
    requires ',' !in tag && Prefix(tag, 5) == "+CUSD"
    requires ',' !in f
    requires |rest| == 0 || rest[0] == ','
    ensures |Split(tag + "," + f + rest, ',')| > 1
    ensures Split(tag + "," + f + rest, ',')[0] == tag
    ensures Split(tag + "," + f + rest, ',')[1] == f
    ensures KindOf(tag) == Ussd
  {
    assert tag + "," + f + rest == tag + [','] + (f + rest);
    SplitField(tag, ',', f + rest);
    FirstField(f, ',', rest);
    KindOfCusd(tag);
  }

  lemma KindOfCusd(tag: string)
    requires Prefix(tag, 5) == "+CUSD"
    ensures KindOf(tag) == Ussd
  {
    assert Prefix("RING", 5) == "RING";
  }

  /** `NO CARRIER` calls its handler without checking that one is
      registered: with none, the call fails with TypeError. */
  lemma ClassifyNoCarrier(rest: string, currency: string, u: UrcState)
    requires |rest| == 0 || rest[0] == ','
    ensures !u.handlers.noCarrier ==> Classify("NO CARRIER" + rest, currency, u) == Err(TypeError)
    ensures u.handlers.noCarrier ==>
              Classify("NO CARRIER" + rest, currency, u) == Ok(u.(events := u.events + [CarrierLost]))
  {
    FirstField("NO CARRIER", ',', rest);
    KindOfNoCarrier();
  }

  lemma KindOfNoCarrier()
    ensures KindOf("NO CARRIER") == NoCarrier
  {
    assert Prefix("NO CARRIER", 5) == "NO CA";
  }

  /** The same `+CMTI` line seen twice gives two message events and leaves
      the index it names. */
  lemma CmtiTwice(tag: string, n: int, currency: string, u: UrcState)
    requires ',' !in tag && Prefix(tag, 5) == "+CMTI"
    requires u.handlers.msg
    ensures Classify(tag + "," + Decimal(n), currency, u).Ok?
    ensures var v := Classify(tag + "," + Decimal(n), currency, u).value;
            Classify(tag + "," + Decimal(n), currency, v)
            == Ok(u.(msgId := n, events := u.events + [MessageArrived, MessageArrived]))
  {
    ClassifyCmti(tag, n, currency, u);
    var v := u.(msgId := n, events := u.events + [MessageArrived]);
    ClassifyCmti(tag, n, currency, v);
    assert v.events + [MessageArrived] == u.events + [MessageArrived, MessageArrived];
  }
}
