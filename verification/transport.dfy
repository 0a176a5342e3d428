/** The modem's serial line as the drivers see it.

    Incoming traffic is a queue of whole lines, each with the millisecond at
    which it is complete in the receive buffer; the clock is a plain integer
    that only the model advances. Everything the drivers write is appended
    to a wire log, so a property about "what was sent" is a property about
    that log.
 */
module Transport {
  import opened Wrappers
  import opened PyText

  /** A line from the modem and the time at which it can be read. */
  datatype Arrival = Arrival(at: int, line: Bytes)

  /** The port: current time, lines still to be read (oldest first), the
      UART's read timeout in ms, and every write so far (oldest first). */
  datatype Port = Port(now: int, feed: seq<Arrival>, readTimeout: nat, written: seq<Bytes>)

  /** Arrival times never go backwards. */
  predicate Sorted(feed: seq<Arrival>) {
    forall i, j :: 0 <= i < j < |feed| ==> feed[i].at <= feed[j].at
  }

  /** `uart.any()`: a complete line is waiting. */
  predicate Any(p: Port) {
    |p.feed| > 0 && p.feed[0].at <= p.now
  }

  /** `uart.write(b)`. */
  function Write(p: Port, b: Bytes): (r: Port)
    ensures r.written == p.written + [b]
    ensures r.now == p.now && r.feed == p.feed && r.readTimeout == p.readTimeout
  {
    p.(written := p.written + [b])
  }

  /** Moves the clock forward to `t` (never backwards). */
  function WaitUntil(p: Port, t: int): (r: Port)
    ensures r.now == Max(p.now, t)
    ensures r.feed == p.feed && r.written == p.written && r.readTimeout == p.readTimeout
  {
    p.(now := Max(p.now, t))
  }

  /** `while uart.any(): uart.read(1)`: throws away everything already
      received, and nothing that arrives later. */
  function Drain(p: Port): (r: Port)
    ensures !Any(r)
    ensures r.now == p.now && r.written == p.written && r.readTimeout == p.readTimeout
    ensures |r.feed| <= |p.feed| && r.feed == p.feed[|p.feed| - |r.feed|..]
    ensures forall i :: 0 <= i < |p.feed| - |r.feed| ==> p.feed[i].at <= p.now
    decreases |p.feed|
  {
    if Any(p) then Drain(p.(feed := p.feed[1..])) else p
  }

  /** Takes the oldest line off the queue, once it has arrived. */
  function Take(p: Port): (r: (Port, Bytes))
    requires |p.feed| > 0
    ensures r.0.feed == p.feed[1..] && r.1 == p.feed[0].line
    ensures r.0.now == Max(p.now, p.feed[0].at)
    ensures r.0.written == p.written && r.0.readTimeout == p.readTimeout
  {
    (p.(now := Max(p.now, p.feed[0].at), feed := p.feed[1..]), p.feed[0].line)
  }

  /** `uart.readline()`: the next line if it arrives within the read
      timeout, otherwise None after waiting the whole timeout. */
  function ReadLine(p: Port): (r: (Port, Option<Bytes>))
    ensures r.0.written == p.written && r.0.readTimeout == p.readTimeout
    ensures r.1.Some? <==> |p.feed| > 0 && p.feed[0].at <= p.now + p.readTimeout
    ensures r.1.Some? ==> r.1.value == p.feed[0].line && r.0.feed == p.feed[1..]
    ensures r.1.None? ==> r.0.feed == p.feed && r.0.now == p.now + p.readTimeout
    ensures r.0.now >= p.now
  {
    if |p.feed| > 0 && p.feed[0].at <= p.now + p.readTimeout then
      var (q, line) := Take(p);
      (q, Some(line))
    else
      (p.(now := p.now + p.readTimeout), None)
  }

  /** `uart.read(n)`: up to `n` bytes of what arrives within the read
      timeout, or None when nothing does. A line that is only partly
      consumed keeps its remainder at the front of the queue. `read(0)`
      returns the empty bytes at once, without waiting. */
  function ReadBytes(p: Port, n: nat): (r: (Port, Option<Bytes>))
    ensures r.0.written == p.written && r.0.readTimeout == p.readTimeout
    ensures n == 0 ==> r == (p, Some([]))
    ensures n > 0 && r.1.Some? ==> 0 < |r.1.value| <= n
    ensures n > 0 && (|p.feed| == 0 || p.feed[0].at > p.now + p.readTimeout) ==> r.1.None?
  {
    if n == 0 then (p, Some([]))
    else
      var (q, got) := Gather(p, n, []);
      if |got| == 0 then (q.(now := Max(q.now, p.now + p.readTimeout)), None) else (q, Some(got))
  }

  function Gather(p: Port, n: nat, acc: Bytes): (r: (Port, Bytes))
    requires |acc| <= n
    ensures r.0.written == p.written && r.0.readTimeout == p.readTimeout
    ensures |acc| <= |r.1| <= n && r.1[..|acc|] == acc
    ensures |p.feed| == 0 || p.feed[0].at > p.now + p.readTimeout ==> r.1 == acc
    decreases |p.feed|
  {
    if |acc| == n || |p.feed| == 0 || p.feed[0].at > p.now + p.readTimeout then (p, acc)
    else
      var head := p.feed[0];
      var room := n - |acc|;
      if |head.line| <= room then
        var r := Gather(p.(now := Max(p.now, head.at), feed := p.feed[1..]), n, acc + head.line);
        assert r.1[..|acc|] == (acc + head.line)[..|acc + head.line|][..|acc|];
        r
      else
        (p.(now := Max(p.now, head.at), feed := [Arrival(head.at, head.line[room..])] + p.feed[1..]),
         acc + head.line[..room])
  }

  /** Draining keeps the queue's order and, on a sorted queue, leaves
      exactly the lines that arrive after the current time. */
  lemma {:induction false} DrainKeepsLater(p: Port)
    requires Sorted(p.feed)
    ensures Sorted(Drain(p).feed)
    ensures forall i :: 0 <= i < |Drain(p).feed| ==> Drain(p).feed[i].at > p.now
    decreases |p.feed|
  {
    if Any(p) {
      DrainKeepsLater(p.(feed := p.feed[1..]));
    } else if |p.feed| > 0 {
      assert p.feed[0].at > p.now;
    }
  }
}
