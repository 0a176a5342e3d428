/** The logging layer of the rowing computer: `Log` appends lines to a
    file it opens itself or to the buffer of another (external) log, and
    `TransLog` rate-limits transducer records and merges their tags.

    Objects are kept in a store under ids so that a log can refer to an
    external one whose buffer changes; files are sequences of lines. The
    epoch time and the clock are injected.
 */
module Logging {
  import opened Wrappers
  import opened PyText

  /** The values a record holds. */
  datatype Val = VStr(s: string) | VInt(i: int) | VBool(b: bool) | VNone

  type Fields = map<string, Val>

  /** What is handed to `log`: a dict, or any other value. */
  datatype Data = DictData(fields: Fields) | Scalar(v: Val)

  /** A line in a file: a dict dumped as JSON, the `str()` of a dict, or
      text. */
  datatype Line = JsonLine(fields: Fields) | DictText(dict: Fields) | TextLine(text: string)

  /** An open file buffer (mode `'a'`). */
  datatype Handle = Handle(path: string)

  type LogId = nat

  datatype Log = Log(path: Option<string>, ext: Option<LogId>, loc: Option<Handle>)

  datatype Store = Store(logs: map<LogId, Log>, files: map<string, seq<Line>>)

  /** `Log(path, log=…)`: one of the two must be given. */
  function NewLog(path: Option<string>, ext: Option<LogId>): (r: Result<Log>)
    ensures r.Err? <==> path.None? && ext.None?
    ensures r.Err? ==> r.error == ValueError
    ensures r.Ok? ==> r.value.path == path && r.value.ext == ext && r.value.loc.None?
  {
    if path.None? && ext.None? then Err(ValueError) else Ok(Log(path, ext, None))
  }

  /** The log under `id` exists, and so does its external log. */
  predicate Linked(st: Store, id: LogId) {
    id in st.logs && (st.logs[id].ext.Some? ==> st.logs[id].ext.value in st.logs)
  }

  /** `fbuf`: the external log's own buffer when there is one, else this
      log's. */
  function Fbuf(st: Store, id: LogId): (r: Option<Handle>)
    requires Linked(st, id)
    ensures st.logs[id].ext.Some? ==> r == st.logs[st.logs[id].ext.value].loc
    ensures st.logs[id].ext.None? ==> r == st.logs[id].loc
  {
    var l := st.logs[id];
    if l.ext.Some? then st.logs[l.ext.value].loc else l.loc
  }

  /** `open`: a log without an external one opens its path for appending;
      either way the result is `fbuf`. */
  function Open(st: Store, id: LogId): (r: (Store, Option<Handle>))
    requires Linked(st, id) && (st.logs[id].ext.None? ==> st.logs[id].path.Some?)
    ensures st.logs[id].ext.Some? ==> r.0 == st
    ensures st.logs[id].ext.None? ==> r.0.logs == st.logs[id := st.logs[id].(loc := Some(Handle(st.logs[id].path.value)))]
    ensures r.0.files.Keys == st.files.Keys + (if st.logs[id].ext.None? then {st.logs[id].path.value} else {})
    ensures forall p :: p in st.files ==> r.0.files[p] == st.files[p]
    ensures Linked(r.0, id) && r.1 == Fbuf(r.0, id)
  {
    var l := st.logs[id];
    if l.ext.Some? then (st, Fbuf(st, id))
    else
      var p := l.path.value;
      var files := if p in st.files then st.files else st.files[p := []];
      var st' := Store(st.logs[id := l.(loc := Some(Handle(p)))], files);
      (st', Fbuf(st', id))
  }

  /** `close`: a log without an external one closes its buffer, which is
      an AttributeError when none is open; with an external log nothing
      happens. */
  function Close(st: Store, id: LogId): (r: Result<Store>)
    requires id in st.logs
    ensures st.logs[id].ext.Some? ==> r == Ok(st)
    ensures st.logs[id].ext.None? && st.logs[id].loc.None? ==> r == Err(AttributeError)
    ensures st.logs[id].ext.None? && st.logs[id].loc.Some? ==> r == Ok(st.(logs := st.logs[id := st.logs[id].(loc := None)]))
  {
    var l := st.logs[id];
    if l.ext.Some? then Ok(st)
    else if l.loc.None? then Err(AttributeError)
    else Ok(st.(logs := st.logs[id := l.(loc := None)]))
  }

  /** `ensure_close`: closes only a buffer this log opened itself. */
  function EnsureClose(st: Store, id: LogId): (r: Store)
    requires id in st.logs
    ensures id in r.logs && r.files == st.files
    ensures st.logs[id].ext.None? ==> r.logs == st.logs[id := st.logs[id].(loc := None)]
    ensures st.logs[id].ext.Some? ==> r == st
  {
    var l := st.logs[id];
    if l.loc.Some? then
      match Close(st, id)
      case Ok(st') => st'
      case Err(_) => st
    else st
  }

  /** Closing twice is the same as closing once. */
  lemma EnsureCloseIdempotent(st: Store, id: LogId)
    requires id in st.logs
    ensures EnsureClose(EnsureClose(st, id), id) == EnsureClose(st, id)
  {
  }

  /** Open, then close, leaves the logs as they were before, when this log
      had no buffer open. */
  lemma OpenClose(st: Store, id: LogId)
    requires Linked(st, id) && (st.logs[id].ext.None? ==> st.logs[id].path.Some?)
    requires st.logs[id].loc.None?
    ensures Close(Open(st, id).0, id).Ok?
    ensures Close(Open(st, id).0, id).value.logs == st.logs
  {
    var l := st.logs[id];
    if l.ext.None? {
      var st1 := Open(st, id).0;
      assert st1.logs[id] == l.(loc := Some(Handle(l.path.value)));
      assert st1.logs[id := l] == st.logs;
    }
  }

  /** With an external log, opening and closing never touch the log's own
      buffer: `fbuf` follows the external log. */
  lemma ExternalUntouched(st: Store, id: LogId)
    requires Linked(st, id) && st.logs[id].ext.Some?
    ensures Open(st, id).0.logs[id].loc == st.logs[id].loc
    ensures Close(st, id) == Ok(st)
    ensures Open(st, id).1 == st.logs[st.logs[id].ext.value].loc
  {
  }

  /** `str()` of a logged value: a string is its own text, an integer's
      text reads back through `int()` to the same integer, and the
      booleans and None are names that no integer's text can be. */
  function Str(v: Val): (s: string)
    ensures v.VStr? ==> s == v.s
    ensures v.VInt? ==> Int(s, StrText) == Ok(v.i)
    ensures v.VBool? || v.VNone? ==> Int(s, StrText).Err?
    ensures v.VBool? ==> (s == "True" <==> v.b)
  {
    match v
    case VStr(s) => s
    case VInt(i) => DecimalParses(i, StrText); Decimal(i)
    case VBool(b) =>
      var w := if b then "True" else "False";
      WordNotInt(w);
      w
    case VNone => WordNotInt("None"); "None"
  }

  /** The line `Log.log` writes: a dict with injected time gets its `ts`
      key set to the epoch time and is dumped as JSON; other values are
      written through `str()`. */
  function LineOf(d: Data, injectTime: bool, epoch: int): (r: Line)
    ensures d.DictData? && injectTime ==> r.JsonLine? && r.fields.Keys == d.fields.Keys + {"ts"}
    ensures d.DictData? && injectTime ==> r.fields["ts"] == VInt(epoch)
    ensures d.DictData? && injectTime ==> forall k :: k in d.fields && k != "ts" ==> r.fields[k] == d.fields[k]
    ensures d.DictData? && !injectTime ==> r == DictText(d.fields)
    ensures d.Scalar? ==> r == TextLine(Str(d.v))
  {
    match d
    case DictData(f) => if injectTime then JsonLine(f["ts" := VInt(epoch)]) else DictText(f)
    case Scalar(v) => TextLine(Str(v))
  }

  /** `Log.log`: a ValueError when `fbuf` is None; otherwise one line is
      appended to the file of `fbuf` and nothing else changes. */
  function Write(st: Store, id: LogId, d: Data, injectTime: bool, epoch: int): (r: Result<Store>)
    requires Linked(st, id)
    ensures r.Err? <==> Fbuf(st, id).None?
    ensures r.Err? ==> r.error == ValueError
    ensures r.Ok? ==> r.value.logs == st.logs
    ensures r.Ok? ==> var p := Fbuf(st, id).value.path;
      && r.value.files.Keys == st.files.Keys + {p}
      && r.value.files[p] == (if p in st.files then st.files[p] else []) + [LineOf(d, injectTime, epoch)]
      && forall q :: q in st.files && q != p ==> r.value.files[q] == st.files[q]
  {
    match Fbuf(st, id)
    case None => Err(ValueError)
    case Some(h) =>
      var prev := if h.path in st.files then st.files[h.path] else [];
      Ok(st.(files := st.files[h.path := prev + [LineOf(d, injectTime, epoch)]]))
  }

  // ---------------------------------------------------------------------
  // TransLog

  datatype TransLog = TransLog(
    log: LogId,              // the Log this TransLog is, in the store
    supKw: Fields,           // global tags, `atype` among them
    lastLogT: Option<int>,   // time of the last emitted record
    tout: Option<int>)       // minimal ms between records

  /** `TransLog(atype, path=…, log=…, log_tout=…, **tags)`: the base log
      under `id`, and the tags with `atype` set. */
  function NewTransLog(id: LogId, atype: Val, path: Option<string>, ext: Option<LogId>, tout: Option<int>, tags: Fields)
    : (r: Result<(Log, TransLog)>)
    ensures r.Err? <==> path.None? && ext.None?
    ensures r.Err? ==> r.error == ValueError
    ensures r.Ok? ==> r.value.0 == NewLog(path, ext).value && r.value.1.log == id
    ensures r.Ok? ==> r.value.1.supKw.Keys == tags.Keys + {"atype"} && r.value.1.supKw["atype"] == atype
    ensures r.Ok? ==> forall k :: k in tags && k != "atype" ==> r.value.1.supKw[k] == tags[k]
    ensures r.Ok? ==> r.value.1.lastLogT.None? && r.value.1.tout == tout
  {
    var base :- NewLog(path, ext);
    Ok((base, TransLog(id, tags["atype" := atype], None, tout)))
  }

  /** `should_log`: no record only when a timeout is set, something was
      logged before, and less than the timeout has passed since. */
  function ShouldLog(tl: TransLog, now: int): (r: bool)
    ensures tl.tout.None? || tl.lastLogT.None? ==> r
    ensures tl.tout.Some? && tl.lastLogT.Some? ==> (r <==> now >= tl.lastLogT.value + tl.tout.value)
  {
    !(tl.tout.Some? && tl.lastLogT.Some? && now - tl.lastLogT.value < tl.tout.value)
  }

  /** Once a record is allowed, it stays allowed as time goes on. */
  lemma ShouldLogLater(tl: TransLog, t: int, t': int)
    requires ShouldLog(tl, t) && t <= t'
    ensures ShouldLog(tl, t')
  {
  }

  /** The record `TransLog.log` builds: a copy of the dict (or `{'val':
      d}`), then the call's tags, then the global tags, each overriding the
      ones before. */
  function Message(d: Data, tags: Fields, supKw: Fields): (r: Fields)
    ensures forall k :: k in r <==> k in supKw || k in tags || (d.DictData? && k in d.fields) || (d.Scalar? && k == "val")
    ensures forall k :: k in supKw ==> r[k] == supKw[k]
    ensures forall k :: k in tags && k !in supKw ==> r[k] == tags[k]
    ensures forall k :: d.DictData? && k in d.fields && k !in tags && k !in supKw ==> r[k] == d.fields[k]
    ensures d.Scalar? && "val" !in tags && "val" !in supKw ==> r["val"] == d.v
  {
    var base := match d case DictData(f) => f case Scalar(v) => map["val" := v];
    base + tags + supKw
  }

  /** `TransLog.log(d, **tags)` at time `now`: when the rate limit allows,
      the last-log time becomes `now` and the merged record, stamped with
      the epoch time, goes through `Log.log`, which can fail when no
      buffer is open; otherwise nothing happens. */
  function TransLogLog(st: Store, tl: TransLog, d: Data, tags: Fields, now: int, epoch: int): (r: (TransLog, Result<Store>))
    requires Linked(st, tl.log)
    ensures !ShouldLog(tl, now) ==> r == (tl, Ok(st))
    ensures ShouldLog(tl, now) ==> r.0 == tl.(lastLogT := Some(now))
    ensures ShouldLog(tl, now) ==> (r.1.Err? <==> Fbuf(st, tl.log).None?)
    ensures ShouldLog(tl, now) && r.1.Ok? ==>
              var p := Fbuf(st, tl.log).value.path;
              && r.1.value.logs == st.logs
              && r.1.value.files == st.files[p := (if p in st.files then st.files[p] else []) + [LineOf(DictData(Message(d, tags, tl.supKw)), true, epoch)]]
  {
    if !ShouldLog(tl, now) then (tl, Ok(st))
    else (tl.(lastLogT := Some(now)), Write(st, tl.log, DictData(Message(d, tags, tl.supKw)), true, epoch))
  }

  /** After a record at `t`, another one before `t + tout` is dropped and
      leaves the store and the logger as they were. */
  lemma RateLimited(st: Store, tl: TransLog, d: Data, tags: Fields, t: int, epoch: int, st': Store, d': Data, tags': Fields, now: int, epoch': int)
    requires Linked(st, tl.log) && Linked(st', tl.log)
    requires ShouldLog(tl, t) && tl.tout.Some? && t <= now < t + tl.tout.value
    ensures var tl' := TransLogLog(st, tl, d, tags, t, epoch).0;
            TransLogLog(st', tl', d', tags', now, epoch') == (tl', Ok(st'))
  {
  }

  /** A record that is emitted lands in the file of `fbuf` with the global
      tags, then the call's tags, then the data, and the epoch as `ts`. */
  lemma EmittedRecord(st: Store, tl: TransLog, d: Data, tags: Fields, now: int, epoch: int)
    requires Linked(st, tl.log) && ShouldLog(tl, now) && Fbuf(st, tl.log).Some?
    ensures var r := TransLogLog(st, tl, d, tags, now, epoch).1;
            var p := Fbuf(st, tl.log).value.path;
            && r.Ok? && |r.value.files[p]| > 0
            && var line := r.value.files[p][|r.value.files[p]| - 1];
            && line.JsonLine? && line.fields["ts"] == VInt(epoch)
            && (forall k :: k in tl.supKw && k != "ts" ==> line.fields[k] == tl.supKw[k])
            && (forall k :: k in tags && k !in tl.supKw && k != "ts" ==> line.fields[k] == tags[k])
  {
    var msg := Message(d, tags, tl.supKw);
    var line := LineOf(DictData(msg), true, epoch);
    assert forall k :: k in tl.supKw && k != "ts" ==> line.fields[k] == msg[k];
  }

  // ---------------------------------------------------------------------
  // from_log

  /** `TransLog.from_log(log, *args, **kwargs)` as written: it calls
      `cls(log.fp, *args, **kwargs)`, so the source path lands in `atype`;
      a further positional argument is one too many, and an `atype=`
      keyword (`kwAtype`) gives `atype` a second value. Either is a
      TypeError. */
  function FromLogAsWritten(src: Log, id: LogId, args: seq<Val>, kwAtype: Option<Val>, path: Option<string>, ext: Option<LogId>, tout: Option<int>, tags: Fields)
    : (r: Result<(Log, TransLog)>)
    ensures |args| > 0 || kwAtype.Some? ==> r == Err(TypeError)
    ensures |args| == 0 && kwAtype.None? ==> r == NewTransLog(id, if src.path.Some? then VStr(src.path.value) else VNone, path, ext, tout, tags)
  {
    if |args| > 0 || kwAtype.Some? then Err(TypeError)
    else NewTransLog(id, if src.path.Some? then VStr(src.path.value) else VNone, path, ext, tout, tags)
  }

  /** Without an explicit `path=` or `log=`, `from_log` never builds a
      logger: with the sensor type as argument or as `atype=` it is a
      TypeError, without it a ValueError. */
  lemma FromLogNeverWritesToSource(src: Log, id: LogId, atype: Val, tout: Option<int>, tags: Fields)
    ensures FromLogAsWritten(src, id, [atype], None, None, None, tout, tags) == Err(TypeError)
    ensures FromLogAsWritten(src, id, [], Some(atype), None, None, tout, tags) == Err(TypeError)
    ensures FromLogAsWritten(src, id, [], None, None, None, tout, tags) == Err(ValueError)
  {
  }

  /** `from_log` as evidently intended: a TransLog of type `atype` that
      appends to the source log's path. */
  function FromLog(src: Log, id: LogId, atype: Val, tout: Option<int>, tags: Fields): (r: Result<(Log, TransLog)>)
    ensures r.Ok? <==> src.path.Some?
    ensures r.Ok? ==> r.value.0.path == src.path && r.value.0.ext.None?
    ensures r.Ok? ==> "atype" in r.value.1.supKw && r.value.1.supKw["atype"] == atype
  {
    NewTransLog(id, atype, src.path, None, tout, tags)
  }

  /** The corrected `from_log` writes where the source log writes: once
      both are open, their buffers are on the same file. */
  lemma FromLogSharesFile(st: Store, srcId: LogId, id: LogId, atype: Val, tout: Option<int>, tags: Fields)
    requires srcId in st.logs && id !in st.logs
    requires var src := st.logs[srcId]; src.ext.None? && src.path.Some?
    ensures var src := st.logs[srcId];
            var r := FromLog(src, id, atype, tout, tags);
            && r.Ok?
            && var st1 := st.(logs := st.logs[id := r.value.0]);
            && Open(Open(st1, srcId).0, id).1 == Some(Handle(src.path.value))
            && Open(st1, srcId).1 == Some(Handle(src.path.value))
  {
  }
}
