/**
 The per-address measurement, `testIPCombined`, and the ping ceiling it is
 given, read in `startScan`.

 An address is tried three times. Each time the image probe runs first and
 the WebSocket probe runs only when the image probe resolved with `null`;
 the value of the repetition is kept when it is a number strictly below the
 ceiling. The 200 ms pause between repetitions only spaces them in time.
 */
module Runner {
  import opened Wrappers
  import opened Probe

  /** How many times `testIPCombined` tries an address. */
  const REPETITIONS: nat := 3

  /** The ceiling used when the field is empty, not a number, or zero. */
  const DEFAULT_MAX_PING: int := 300

  /**
   `parseInt(field) || 300`, given what `parseInt` made of the field: None
   for NaN. A NaN or a zero falls back to the default; any other number,
   negative ones included, is the ceiling.
   */
  function MaxPing(parsed: Option<int>): (m: int)
    ensures m != 0
    ensures parsed.Some? && parsed.value != 0 ==> m == parsed.value
    ensures parsed.None? || parsed.value == 0 ==> m == DEFAULT_MAX_PING
  {
    match parsed
    case Some(v) => if v != 0 then v else DEFAULT_MAX_PING
    case None => DEFAULT_MAX_PING
  }

  /**
   What the browser reports during one repetition: the events of the image
   probe, whether `new WebSocket` throws, and the events of the socket.
   The socket part is read only if the socket probe is started.
   */
  datatype Attempt = Attempt(image: seq<Event>, socketThrew: bool, socket: seq<Event>)

  function ImageOf(a: Attempt): State {
    ImageProbe(PROBE_TIMEOUT, a.image)
  }

  function SocketOf(a: Attempt): State {
    SocketProbe(PROBE_TIMEOUT, a.socketThrew, a.socket)
  }

  /**
   The repetition gets past its `await`s: the image probe resolves, and so
   does the socket probe when it is started.
   */
  predicate Completes(a: Attempt) {
    && ImageOf(a).Resolved?
    && (ImageOf(a).ping.None? ==> SocketOf(a).Resolved?)
  }

  /**
   What one repetition observed: the image probe answered with a ping, or it
   answered `null` and the socket probe was consulted, with its own answer.
   */
  datatype Round = ImageAnswered(ping: nat) | SocketConsulted(answer: Option<nat>)

  /**
   `r` is what the repetition observes when the browser reports `a`: a ping
   from the image probe, or `null` from it and then the socket probe's answer.
   */
  predicate Observed(a: Attempt, r: Round) {
    match r
    case ImageAnswered(p) => ImageOf(a) == Resolved(Some(p))
    case SocketConsulted(x) => ImageOf(a) == Resolved(None) && SocketOf(a) == Resolved(x)
  }

  /** The `ping` variable at the end of a repetition. */
  function Sample(r: Round): Option<nat> {
    match r
    case ImageAnswered(p) => Some(p)
    case SocketConsulted(a) => a
  }

  /** The samples a run keeps, in repetition order: the numbers strictly below the ceiling. */
  function Kept(rounds: seq<Round>, maxPing: int): (ps: seq<nat>)
    ensures |ps| <= |rounds|
    ensures forall k :: 0 <= k < |ps| ==> ps[k] < maxPing
  {
    if |rounds| == 0 then []
    else
      var last := Sample(rounds[|rounds| - 1]);
      Kept(rounds[..|rounds| - 1], maxPing) + (if last.Some? && last.value < maxPing then [last.value] else [])
  }

  /** One repetition: the image probe, then the socket probe only on `null`. */
  method Repeat(a: Attempt) returns (r: Round)
    requires Completes(a)
    ensures Observed(a, r)
  {
    var ping := ImageOf(a).ping;
    if ping.None? {
      ping := SocketOf(a).ping;
      r := SocketConsulted(ping);
    } else {
      r := ImageAnswered(ping.value);
    }
  }

  /**
   `testIPCombined(ip, maxPing)`, given what the browser reports in each
   repetition. Returns the kept samples and, for the record, what each
   repetition observed.
   */
  method TestCombined(attempts: seq<Attempt>, maxPing: int) returns (pings: seq<nat>, rounds: seq<Round>)
    requires |attempts| == REPETITIONS
    requires forall k :: 0 <= k < |attempts| ==> Completes(attempts[k])
    ensures |rounds| == REPETITIONS && |pings| <= REPETITIONS
    ensures forall k :: 0 <= k < |rounds| ==> Observed(attempts[k], rounds[k])
    ensures pings == Kept(rounds, maxPing)
    ensures forall k :: 0 <= k < |pings| ==> pings[k] < maxPing
  {
    pings, rounds := [], [];
    for i := 0 to REPETITIONS
      invariant |rounds| == i
      invariant forall k :: 0 <= k < i ==> Observed(attempts[k], rounds[k])
      invariant pings == Kept(rounds, maxPing)
    {
      var r := Repeat(attempts[i]);
      var ping := Sample(r);
      if ping.Some? && ping.value < maxPing {
        pings := pings + [ping.value];
      }
      assert (rounds + [r])[..i] == rounds;
      rounds := rounds + [r];
    }
  }

  // ---------------------------------------------------------------------
  // What the kept samples are
  // ---------------------------------------------------------------------

  /**
   A sample is kept exactly when its repetition produced a number below the
   ceiling: the kept samples are those values, and the count of kept samples
   is the count of such repetitions.
   */
  lemma {:induction false} KeptCount(rounds: seq<Round>, maxPing: int)
    ensures |Kept(rounds, maxPing)| == |set k | 0 <= k < |rounds| && Sample(rounds[k]).Some? && Sample(rounds[k]).value < maxPing|
  {
    if |rounds| > 0 {
      var n := |rounds| - 1;
      KeptCount(rounds[..n], maxPing);
      var inner := set k | 0 <= k < n && Sample(rounds[..n][k]).Some? && Sample(rounds[..n][k]).value < maxPing;
      var all := set k | 0 <= k < |rounds| && Sample(rounds[k]).Some? && Sample(rounds[k]).value < maxPing;
      var last := Sample(rounds[n]);
      if last.Some? && last.value < maxPing {
        assert all == inner + {n};
      } else {
        assert all == inner;
      }
    }
  }

  /** Every kept sample is the value of some repetition, and every value below the ceiling is kept. */
  lemma {:induction false} KeptMembers(rounds: seq<Round>, maxPing: int, p: nat)
    ensures p in Kept(rounds, maxPing) <==>
      p < maxPing && exists k :: 0 <= k < |rounds| && Sample(rounds[k]) == Some(p)
  {
    if |rounds| > 0 {
      var n := |rounds| - 1;
      KeptMembers(rounds[..n], maxPing, p);
      if exists k :: 0 <= k < n && Sample(rounds[..n][k]) == Some(p) {
        var k :| 0 <= k < n && Sample(rounds[..n][k]) == Some(p);
        assert Sample(rounds[k]) == Some(p);
      }
      if exists k :: 0 <= k < |rounds| && Sample(rounds[k]) == Some(p) {
        var k :| 0 <= k < |rounds| && Sample(rounds[k]) == Some(p);
        if k < n {
          assert Sample(rounds[..n][k]) == Some(p);
        }
      }
    }
  }
}
