/**
 The resolve-once logic of the two probes, `testIP` (an image load) and
 `testIPWebSocket` (a WebSocket handshake).

 Each probe returns a promise that the first of its handlers to run settles:
 the success handler with the elapsed time, the error handler with the
 elapsed time when it is below a limit and with `null` otherwise, and the
 timer with `null`. The image probe then detaches its handlers and clears
 its timer; the WebSocket probe sets its `completed` flag, which every
 handler tests first. Either way nothing that happens afterwards changes
 the value. The model keeps the order in which the browser delivers the
 events and abstracts away the clock: each event carries the elapsed time
 the handler would compute as `Date.now() - start`.
 */
module Probe {
  import opened Wrappers

  /** The timeout `testIPCombined` passes to both probes, also `testIP`'s default. */
  const PROBE_TIMEOUT: nat := 3000

  /** A WebSocket error reported faster than this many milliseconds still counts as an answer. */
  const FAST_ERROR_LIMIT: nat := 500

  datatype Kind = Image | Socket

  /**
   What the browser reports to a probe: the image loaded or the socket
   opened, the image or the socket failed, or the probe's timer fired.
   */
  datatype Event = Succeeded(elapsed: nat) | Failed(elapsed: nat) | TimerFired

  /** A probe's promise: still pending, or resolved with a ping or with `null` (None). */
  datatype State = Pending | Resolved(ping: Option<nat>)

  /** Below this elapsed time an error handler resolves with the time rather than `null`. */
  function ErrorLimit(kind: Kind, timeout: nat): nat {
    match kind
    case Image => timeout
    case Socket => FAST_ERROR_LIMIT
  }

  /** The value the handler for `e` resolves with, when it is the first to run. */
  function Decide(kind: Kind, timeout: nat, e: Event): (p: Option<nat>)
    ensures p.Some? ==> !e.TimerFired? && p.value == e.elapsed
    ensures e.Succeeded? ==> p.Some?
    ensures e.Failed? ==> (p.Some? <==> e.elapsed < ErrorLimit(kind, timeout))
  {
    match e
    case Succeeded(t) => Some(t)
    case Failed(t) => if t < ErrorLimit(kind, timeout) then Some(t) else None
    case TimerFired => None
  }

  /** One event: a pending probe resolves, a resolved one ignores it. */
  function Step(kind: Kind, timeout: nat, s: State, e: Event): State {
    match s
    case Pending => Resolved(Decide(kind, timeout, e))
    case Resolved(_) => s
  }

  /** The state after the events, delivered in order. */
  function Run(kind: Kind, timeout: nat, s: State, events: seq<Event>): State
    decreases |events|
  {
    if |events| == 0 then s else Run(kind, timeout, Step(kind, timeout, s, events[0]), events[1..])
  }

  /** `testIP(ip, 443, timeout)` given the events its image receives. */
  function ImageProbe(timeout: nat, events: seq<Event>): State {
    Run(Image, timeout, Pending, events)
  }

  /**
   `testIPWebSocket(ip, timeout)` given whether `new WebSocket` throws and the
   events the socket receives otherwise; a throw resolves with `null` at once.
   */
  function SocketProbe(timeout: nat, threw: bool, events: seq<Event>): State {
    if threw then Resolved(None) else Run(Socket, timeout, Pending, events)
  }

  // ---------------------------------------------------------------------
  // Resolve once
  // ---------------------------------------------------------------------

  /** Once resolved, a probe keeps its value whatever the browser reports afterwards. */
  lemma {:induction false} ResolvedStays(kind: Kind, timeout: nat, s: State, events: seq<Event>)
    requires s.Resolved?
    ensures Run(kind, timeout, s, events) == s
    decreases |events|
  {
    if |events| > 0 {
      ResolvedStays(kind, timeout, s, events[1..]);
    }
  }

  /** The first event settles the probe, with the value its handler decides. */
  lemma FirstEventDecides(kind: Kind, timeout: nat, events: seq<Event>)
    requires |events| > 0
    ensures Run(kind, timeout, Pending, events) == Resolved(Decide(kind, timeout, events[0]))
  {
    ResolvedStays(kind, timeout, Resolved(Decide(kind, timeout, events[0])), events[1..]);
  }

  /** Delivering events in two installments is delivering them at once. */
  lemma {:induction false} RunAppend(kind: Kind, timeout: nat, s: State, xs: seq<Event>, ys: seq<Event>)
    ensures Run(kind, timeout, s, xs + ys) == Run(kind, timeout, Run(kind, timeout, s, xs), ys)
    decreases |xs|
  {
    if |xs| > 0 {
      assert (xs + ys)[0] == xs[0] && (xs + ys)[1..] == xs[1..] + ys;
      RunAppend(kind, timeout, Step(kind, timeout, s, xs[0]), xs[1..], ys);
    } else {
      assert xs + ys == ys;
    }
  }

  /**
   A probe stays pending exactly as long as nothing has been reported; in
   particular the timer, which each probe arms, always settles it.
   */
  lemma PendingUntilFirstEvent(kind: Kind, timeout: nat, events: seq<Event>)
    ensures Run(kind, timeout, Pending, events).Pending? <==> |events| == 0
    ensures TimerFired in events ==> Run(kind, timeout, Pending, events).Resolved?
  {
    if |events| > 0 {
      FirstEventDecides(kind, timeout, events);
    }
  }

  /**
   A resolved probe's ping is the elapsed time of the first event, which was
   a success or an error fast enough for its kind; `null` comes from the
   timer or from a slow error.
   */
  lemma ProbeValue(kind: Kind, timeout: nat, events: seq<Event>)
    requires |events| > 0
    ensures var s, e := Run(kind, timeout, Pending, events), events[0];
      && s.Resolved?
      && (s.ping.Some? <==> e.Succeeded? || (e.Failed? && e.elapsed < ErrorLimit(kind, timeout)))
      && (s.ping.Some? ==> s.ping.value == e.elapsed)
  {
    FirstEventDecides(kind, timeout, events);
  }
}
