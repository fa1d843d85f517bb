/**
 The second half of `startScan`: the worklist is probed in batches of five.

 The loop `for (let i = 0; i < allIPs.length && scanning; i += batchSize)`
 takes the next slice of at most five addresses, starts `testIPCombined`
 on each, and waits for the whole batch with `Promise.all` before it
 tests its condition again. Each address, on completing, increments
 `tested` and, if it kept at least one sample and `scanning` is still set,
 is recorded with `addResult`.

 Inside a batch the addresses complete in an order the network decides;
 the model takes that order as an input, one permutation per batch. The
 user may press stop at any time; since JavaScript runs one handler at a
 time, the click lands between two completions, never between a
 completion's own bookkeeping and the loop test that follows it. The
 model takes as input after how many completions the click lands, if at
 all. What each address's probing returns is an input as well: the
 samples `testIPCombined` keeps for it.
 */
module Scheduler {
  import opened Wrappers
  import opened Seqs
  import opened Results

  /** `batchSize` in `startScan`. */
  const BATCH_SIZE: nat := 5

  function Min(a: int, b: int): int {
    if a <= b then a else b
  }

  // ---------------------------------------------------------------------
  // Batches
  // ---------------------------------------------------------------------

  /** The number of batches the loop forms from `n` addresses: n / 5 rounded up. */
  function BatchCount(n: nat): (c: nat)
    ensures BATCH_SIZE * c >= n
    ensures c > 0 ==> BATCH_SIZE * (c - 1) < n
  {
    (n + BATCH_SIZE - 1) / BATCH_SIZE
  }

  /** Batch `b` exists exactly when its first index is inside the worklist. */
  lemma BatchIndex(n: nat, b: nat)
    ensures b < BatchCount(n) <==> BATCH_SIZE * b < n
  {
  }

  /** The length of batch `b` of `n` addresses: five, or what is left for the last one. */
  function BatchLength(n: nat, b: nat): (len: nat)
    ensures len > 0 ==> BATCH_SIZE * b + len <= n
    ensures len <= BATCH_SIZE
  {
    if BATCH_SIZE * b >= n then 0 else Min(BATCH_SIZE, n - BATCH_SIZE * b)
  }

  /** `allIPs.slice(i, Math.min(i + batchSize, allIPs.length))` for `i = 5 * b`. */
  function Batch<T>(w: seq<T>, b: nat): seq<T>
    requires BATCH_SIZE * b < |w|
  {
    w[BATCH_SIZE * b .. Min(BATCH_SIZE * b + BATCH_SIZE, |w|)]
  }

  /** The slices the loop takes when it is not stopped, in order. */
  function Batches<T>(w: seq<T>): seq<seq<T>> {
    seq(BatchCount(|w|), b requires 0 <= b < BatchCount(|w|) => Batch(w, b))
  }

  /**
   The batches are consecutive: the first `b` of them, appended, are the
   first `5 * b` addresses, or all of them.
   */
  lemma {:induction false} BatchesPrefix<T>(w: seq<T>, b: nat)
    requires b <= BatchCount(|w|)
    ensures Flatten(Batches(w)[..b]) == w[..Min(BATCH_SIZE * b, |w|)]
  {
    if b > 0 {
      BatchesPrefix(w, b - 1);
      FlattenSnoc(Batches(w), b - 1);
      var lo := BATCH_SIZE * (b - 1);
      assert w[..lo] + w[lo..Min(lo + BATCH_SIZE, |w|)] == w[..Min(lo + BATCH_SIZE, |w|)];
    }
  }

  /**
   The batches partition the worklist: appended in order they give it back;
   each holds one to five addresses, and all but the last hold five.
   */
  lemma BatchesPartition<T>(w: seq<T>)
    ensures Flatten(Batches(w)) == w
    ensures forall b :: 0 <= b < |Batches(w)| ==>
      |Batches(w)[b]| == BatchLength(|w|, b) && 1 <= |Batches(w)[b]| <= BATCH_SIZE
    ensures forall b :: 0 <= b < |Batches(w)| - 1 ==> |Batches(w)[b]| == BATCH_SIZE
  {
    var bs := Batches(w);
    BatchesPrefix(w, |bs|);
    assert bs[..|bs|] == bs;
    assert w[..Min(BATCH_SIZE * |bs|, |w|)] == w;
  }

  // ---------------------------------------------------------------------
  // The inputs that stand for the network and the user
  // ---------------------------------------------------------------------

  /** `ord` lists the positions 0 .. len - 1 of a batch, each once: the order in which they complete. */
  predicate IsOrder(ord: seq<nat>, len: nat) {
    && |ord| == len
    && (forall t :: 0 <= t < |ord| ==> ord[t] < len)
    && (forall t, u :: 0 <= t < u < |ord| ==> ord[t] != ord[u])
    && (forall x :: 0 <= x < len ==> x in ord)
  }

  /** A completion order for every batch of `n` addresses. */
  predicate ValidOrders(order: seq<seq<nat>>, n: nat) {
    && |order| == BatchCount(n)
    && forall b :: 0 <= b < |order| ==> IsOrder(order[b], BatchLength(n, b))
  }

  /** The worklist index of the address that completes `t`-th in batch `b`. */
  function Slot(order: seq<seq<nat>>, n: nat, b: nat, t: nat): (a: nat)
    requires ValidOrders(order, n) && b < |order| && t < |order[b]|
    ensures a < n && a / BATCH_SIZE == b
  {
    BATCH_SIZE * b + order[b][t]
  }

  /**
   Whether `scanning` is still set right after the `done`-th completion
   (or at the start, for 0) when the user stops the scan after `stop`
   completions, or never.
   */
  predicate Scanning(stop: Option<nat>, done: nat) {
    stop.None? || done <= stop.value
  }

  /**
   The recorded addresses, as indices into the worklist, and the entries
   pushed onto `results` for them, one for one.
   */
  predicate Recorded(worklist: seq<string>, samples: seq<seq<nat>>, found: seq<nat>, results: seq<Result>)
    requires |samples| == |worklist|
  {
    && |results| == |found|
    && forall k :: 0 <= k < |found| ==>
      && found[k] < |worklist| && |samples[found[k]]| > 0
      && results[k] == Record(worklist[found[k]], samples[found[k]])
  }

  predicate Distinct(xs: seq<nat>) {
    forall k, l :: 0 <= k < l < |xs| ==> xs[k] != xs[l]
  }

  /** Recording one more address with a sample keeps the records matched with their entries. */
  lemma RecordedSnoc(worklist: seq<string>, samples: seq<seq<nat>>, found: seq<nat>, results: seq<Result>, a: nat)
    requires |samples| == |worklist| && Recorded(worklist, samples, found, results)
    requires a < |worklist| && |samples[a]| > 0
    ensures Recorded(worklist, samples, found + [a], results + [Record(worklist[a], samples[a])])
  {
  }

  /** Appending a new element keeps a sequence free of repetitions. */
  lemma DistinctSnoc(xs: seq<nat>, x: nat)
    requires Distinct(xs) && x !in xs
    ensures Distinct(xs + [x])
  {
  }

  /**
   The indices batch `b` records in its first `t` completions, in the order
   they are recorded: the address completing `t`-th is appended when it
   kept a sample and `scanning` is still set right after it completes.
   */
  function Discovered(samples: seq<seq<nat>>, stop: Option<nat>, b: nat, ord: seq<nat>, t: nat): seq<nat>
    requires IsOrder(ord, BatchLength(|samples|, b)) && t <= |ord|
  {
    if t == 0 then []
    else
      var a := BATCH_SIZE * b + ord[t - 1];
      Discovered(samples, stop, b, ord, t - 1)
        + if |samples[a]| > 0 && Scanning(stop, BATCH_SIZE * b + t) then [a] else []
  }

  /** The indices the first `started` batches record, batch after batch, each in completion order. */
  function ScanDiscovered(samples: seq<seq<nat>>, order: seq<seq<nat>>, stop: Option<nat>, started: nat): seq<nat>
    requires ValidOrders(order, |samples|) && started <= |order|
  {
    if started == 0 then []
    else
      var b := started - 1;
      ScanDiscovered(samples, order, stop, b) + Discovered(samples, stop, b, order[b], |order[b]|)
  }

  /**
   Records are kept in completion order: what the first `u` completions of
   a batch record is a prefix of what the first `t` record, for `u <= t`.
   */
  lemma {:induction false} DiscoveredPrefix(samples: seq<seq<nat>>, stop: Option<nat>, b: nat, ord: seq<nat>,
                                            u: nat, t: nat)
    requires IsOrder(ord, BatchLength(|samples|, b)) && u <= t <= |ord|
    ensures var early, late := Discovered(samples, stop, b, ord, u), Discovered(samples, stop, b, ord, t);
      |early| <= |late| && late[..|early|] == early
    decreases t
  {
    if u < t {
      DiscoveredPrefix(samples, stop, b, ord, u, t - 1);
      var early, mid := Discovered(samples, stop, b, ord, u), Discovered(samples, stop, b, ord, t - 1);
      var late := Discovered(samples, stop, b, ord, t);
      assert late[..|mid|] == mid;
      assert late[..|early|] == mid[..|early|];
    }
  }

  // ---------------------------------------------------------------------
  // One batch
  // ---------------------------------------------------------------------

  /**
   The state of batch `b` after its first `t` completions, in the order
   `ord`: the indices recorded so far (`news`) and their entries, when
   `before` addresses were recorded by earlier batches. An address is
   recorded exactly when it kept a sample and `scanning` was still set
   right after it completed; the count of recorded addresses never passes
   the count of completions, nor the completion the stop follows.
   */
  predicate BatchSoFar(worklist: seq<string>, samples: seq<seq<nat>>, stop: Option<nat>, b: nat, ord: seq<nat>,
                       before: nat, t: nat, news: seq<nat>, entries: seq<Result>)
    requires |samples| == |worklist| && IsOrder(ord, BatchLength(|worklist|, b)) && t <= |ord|
  {
    && news == Discovered(samples, stop, b, ord, t)
    && Recorded(worklist, samples, news, entries)
    && (forall k :: 0 <= k < |news| ==> BATCH_SIZE * b <= news[k] < BATCH_SIZE * b + |ord|)
    && Distinct(news)
    && (forall u :: 0 <= u < t ==>
         (BATCH_SIZE * b + ord[u] in news <==>
           |samples[BATCH_SIZE * b + ord[u]]| > 0 && Scanning(stop, BATCH_SIZE * b + u + 1)))
    && (forall u :: t <= u < |ord| ==> BATCH_SIZE * b + ord[u] !in news)
    && before + |news| <= BATCH_SIZE * b + t
    && (stop.Some? ==> before + |news| <= stop.value)
  }

  /** The `t`-th completion of a batch keeps `BatchSoFar`, recording the address or not. */
  lemma BatchStep(worklist: seq<string>, samples: seq<seq<nat>>, stop: Option<nat>, b: nat, ord: seq<nat>,
                  before: nat, t: nat, news: seq<nat>, entries: seq<Result>)
    requires |samples| == |worklist| && IsOrder(ord, BatchLength(|worklist|, b)) && t < |ord|
    requires BatchSoFar(worklist, samples, stop, b, ord, before, t, news, entries)
    ensures var a := BATCH_SIZE * b + ord[t];
      if |samples[a]| > 0 && Scanning(stop, BATCH_SIZE * b + t + 1) then
        BatchSoFar(worklist, samples, stop, b, ord, before, t + 1, news + [a],
                   entries + [Record(worklist[a], samples[a])])
      else
        BatchSoFar(worklist, samples, stop, b, ord, before, t + 1, news, entries)
  {
    var a := BATCH_SIZE * b + ord[t];
    if |samples[a]| > 0 && Scanning(stop, BATCH_SIZE * b + t + 1) {
      BatchRecord(worklist, samples, stop, b, ord, before, t, news, entries);
    } else {
      BatchSkip(worklist, samples, stop, b, ord, before, t, news, entries);
    }
  }

  /** A completion whose address kept a sample, while scanning, records it. */
  lemma BatchRecord(worklist: seq<string>, samples: seq<seq<nat>>, stop: Option<nat>, b: nat, ord: seq<nat>,
                    before: nat, t: nat, news: seq<nat>, entries: seq<Result>)
    requires |samples| == |worklist| && IsOrder(ord, BatchLength(|worklist|, b)) && t < |ord|
    requires BatchSoFar(worklist, samples, stop, b, ord, before, t, news, entries)
    requires |samples[BATCH_SIZE * b + ord[t]]| > 0 && Scanning(stop, BATCH_SIZE * b + t + 1)
    ensures var a := BATCH_SIZE * b + ord[t];
      BatchSoFar(worklist, samples, stop, b, ord, before, t + 1, news + [a],
                 entries + [Record(worklist[a], samples[a])])
  {
    var a := BATCH_SIZE * b + ord[t];
    var news', entries' := news + [a], entries + [Record(worklist[a], samples[a])];
    RecordedSnoc(worklist, samples, news, entries, a);
    DistinctSnoc(news, a);
    forall u | 0 <= u < t + 1
      ensures BATCH_SIZE * b + ord[u] in news' <==>
        |samples[BATCH_SIZE * b + ord[u]]| > 0 && Scanning(stop, BATCH_SIZE * b + u + 1)
    {
      if u < t {
        assert ord[u] != ord[t];
      }
    }
    forall u | t + 1 <= u < |ord|
      ensures BATCH_SIZE * b + ord[u] !in news'
    {
      assert ord[u] != ord[t];
    }
  }

  /** Any other completion records nothing. */
  lemma BatchSkip(worklist: seq<string>, samples: seq<seq<nat>>, stop: Option<nat>, b: nat, ord: seq<nat>,
                  before: nat, t: nat, news: seq<nat>, entries: seq<Result>)
    requires |samples| == |worklist| && IsOrder(ord, BatchLength(|worklist|, b)) && t < |ord|
    requires BatchSoFar(worklist, samples, stop, b, ord, before, t, news, entries)
    requires !(|samples[BATCH_SIZE * b + ord[t]]| > 0 && Scanning(stop, BATCH_SIZE * b + t + 1))
    ensures BatchSoFar(worklist, samples, stop, b, ord, before, t + 1, news, entries)
  {
  }

  /**
   One batch: the addresses complete in the order `ord`; each completion
   increments `tested`, and an address that kept a sample is recorded when
   `scanning` is still set at that moment. `before` is how many addresses
   earlier batches recorded.
   */
  method RunBatch(worklist: seq<string>, samples: seq<seq<nat>>, stop: Option<nat>, b: nat, ord: seq<nat>, before: nat)
    returns (tested: nat, news: seq<nat>, entries: seq<Result>)
    requires |samples| == |worklist| && BATCH_SIZE * b < |worklist|
    requires IsOrder(ord, BatchLength(|worklist|, b))
    requires before <= BATCH_SIZE * b && (stop.Some? ==> before <= stop.value)
    ensures tested == BATCH_SIZE * b + |ord|
    ensures news == Discovered(samples, stop, b, ord, |ord|)
    ensures BatchSoFar(worklist, samples, stop, b, ord, before, |ord|, news, entries)
  {
    var batch := Batch(worklist, b);
    BatchStart(worklist, samples, stop, b, ord, before);
    tested, news, entries := BATCH_SIZE * b, [], [];
    for t := 0 to |ord|
      invariant tested == BATCH_SIZE * b + t
      invariant BatchSoFar(worklist, samples, stop, b, ord, before, t, news, entries)
    {
      tested := tested + 1;
      news, entries := Complete(worklist, samples, stop, b, ord, before, t, batch, tested, news, entries);
    }
  }

  /** Before its first completion a batch has recorded nothing. */
  lemma BatchStart(worklist: seq<string>, samples: seq<seq<nat>>, stop: Option<nat>, b: nat, ord: seq<nat>, before: nat)
    requires |samples| == |worklist| && IsOrder(ord, BatchLength(|worklist|, b))
    requires before <= BATCH_SIZE * b && (stop.Some? ==> before <= stop.value)
    ensures BatchSoFar(worklist, samples, stop, b, ord, before, 0, [], [])
  {
  }

  /**
   The handler of the `t`-th completion of batch `b`, whose address sits at
   `ord[t]` in `batch`, after `tested` has reached `done`: the address is
   recorded when it kept a sample and the scan is still running.
   */
  method Complete(worklist: seq<string>, samples: seq<seq<nat>>, stop: Option<nat>, b: nat, ord: seq<nat>,
                  before: nat, t: nat, batch: seq<string>, done: nat, news: seq<nat>, entries: seq<Result>)
    returns (news': seq<nat>, entries': seq<Result>)
    requires |samples| == |worklist| && BATCH_SIZE * b < |worklist| && batch == Batch(worklist, b)
    requires IsOrder(ord, BatchLength(|worklist|, b)) && t < |ord| && done == BATCH_SIZE * b + t + 1
    requires BatchSoFar(worklist, samples, stop, b, ord, before, t, news, entries)
    ensures BatchSoFar(worklist, samples, stop, b, ord, before, t + 1, news', entries')
  {
    BatchStep(worklist, samples, stop, b, ord, before, t, news, entries);
    var a := BATCH_SIZE * b + ord[t];
    var ip := batch[ord[t]];
    assert ip == worklist[a];
    news', entries' := news, entries;
    if |samples[a]| > 0 && Scanning(stop, done) {
      news', entries' := news + [a], entries + [Record(ip, samples[a])];
    }
  }

  // ---------------------------------------------------------------------
  // The batch loop
  // ---------------------------------------------------------------------

  /**
   The state of the loop once `started` batches have run: each of them was
   started while `scanning` was set, `found` lists the recorded indices in
   the order they were recorded, batch by batch, each once, and an address
   is recorded exactly when it kept a sample and `scanning` was still set
   right after it completed.
   */
  predicate ScanSoFar(worklist: seq<string>, samples: seq<seq<nat>>, order: seq<seq<nat>>, stop: Option<nat>,
                      started: nat, found: seq<nat>, results: seq<Result>)
    requires |samples| == |worklist| && ValidOrders(order, |worklist|) && started <= |order|
  {
    var n := |worklist|;
    && (forall b :: 0 <= b < started ==> Scanning(stop, BATCH_SIZE * b))
    && found == ScanDiscovered(samples, order, stop, started)
    && Recorded(worklist, samples, found, results)
    && (forall k :: 0 <= k < |found| ==> found[k] < Min(n, BATCH_SIZE * started))
    && Distinct(found)
    && (forall k, l :: 0 <= k < l < |found| ==> found[k] / BATCH_SIZE <= found[l] / BATCH_SIZE)
    && (forall b, t :: 0 <= b < started && 0 <= t < |order[b]| ==>
         (Slot(order, n, b, t) in found <==>
           |samples[Slot(order, n, b, t)]| > 0 && Scanning(stop, BATCH_SIZE * b + t + 1)))
    && |found| <= Min(n, BATCH_SIZE * started)
    && (stop.Some? ==> |found| <= stop.value)
  }

  /** Appending the records of the next batch keeps `ScanSoFar`. */
  lemma ScanStep(worklist: seq<string>, samples: seq<seq<nat>>, order: seq<seq<nat>>, stop: Option<nat>,
                 started: nat, found: seq<nat>, results: seq<Result>, news: seq<nat>, entries: seq<Result>)
    requires |samples| == |worklist| && ValidOrders(order, |worklist|) && started < |order|
    requires Scanning(stop, BATCH_SIZE * started)
    requires ScanSoFar(worklist, samples, order, stop, started, found, results)
    requires BatchSoFar(worklist, samples, stop, started, order[started], |found|, |order[started]|, news, entries)
    ensures ScanSoFar(worklist, samples, order, stop, started + 1, found + news, results + entries)
  {
    var n, first := |worklist|, BATCH_SIZE * started;
    BatchIndex(n, started);
    Append(worklist, samples, found, results, news, entries, first);
    StepSlots(samples, order, stop, started, found, news);
  }

  /**
   The completions of the batches so far are recorded in `found`, those of
   batch `started` in `news`: together they are recorded in `found + news`.
   */
  lemma StepSlots(samples: seq<seq<nat>>, order: seq<seq<nat>>, stop: Option<nat>,
                  started: nat, found: seq<nat>, news: seq<nat>)
    requires ValidOrders(order, |samples|) && started < |order|
    requires forall k :: 0 <= k < |found| ==> found[k] < BATCH_SIZE * started
    requires forall k :: 0 <= k < |news| ==> BATCH_SIZE * started <= news[k]
    requires forall b, t :: 0 <= b < started && 0 <= t < |order[b]| ==>
      (Slot(order, |samples|, b, t) in found <==>
        |samples[Slot(order, |samples|, b, t)]| > 0 && Scanning(stop, BATCH_SIZE * b + t + 1))
    requires forall u :: 0 <= u < |order[started]| ==>
      (BATCH_SIZE * started + order[started][u] in news <==>
        |samples[BATCH_SIZE * started + order[started][u]]| > 0 && Scanning(stop, BATCH_SIZE * started + u + 1))
    ensures forall b, t :: 0 <= b < started + 1 && 0 <= t < |order[b]| ==>
      (Slot(order, |samples|, b, t) in found + news <==>
        |samples[Slot(order, |samples|, b, t)]| > 0 && Scanning(stop, BATCH_SIZE * b + t + 1))
  {
    forall b, t | 0 <= b < started + 1 && 0 <= t < |order[b]|
      ensures Slot(order, |samples|, b, t) in found + news <==>
        |samples[Slot(order, |samples|, b, t)]| > 0 && Scanning(stop, BATCH_SIZE * b + t + 1)
    {
      var a := Slot(order, |samples|, b, t);
      if b < started {
        assert a !in news;
      } else {
        assert a !in found;
      }
    }
  }

  /**
   Appending a batch's records, all at or after `first`, to earlier records
   below `first` keeps the records distinct, in batch order and matched
   with their entries.
   */
  lemma Append(worklist: seq<string>, samples: seq<seq<nat>>, found: seq<nat>, results: seq<Result>,
               news: seq<nat>, entries: seq<Result>, first: nat)
    requires |samples| == |worklist|
    requires Recorded(worklist, samples, found, results) && Recorded(worklist, samples, news, entries)
    requires forall k :: 0 <= k < |found| ==> found[k] < first
    requires forall k :: 0 <= k < |news| ==> first <= news[k] < first + BATCH_SIZE
    requires first % BATCH_SIZE == 0
    requires Distinct(found) && Distinct(news)
    requires forall k, l :: 0 <= k < l < |found| ==> found[k] / BATCH_SIZE <= found[l] / BATCH_SIZE
    ensures Recorded(worklist, samples, found + news, results + entries)
    ensures Distinct(found + news)
    ensures forall k, l :: 0 <= k < l < |found + news| ==>
      (found + news)[k] / BATCH_SIZE <= (found + news)[l] / BATCH_SIZE
  {
    var all := found + news;
    forall k, l | 0 <= k < l < |all|
      ensures all[k] != all[l] && all[k] / BATCH_SIZE <= all[l] / BATCH_SIZE
    {
      if l >= |found| {
        assert first / BATCH_SIZE <= all[l] / BATCH_SIZE;
        if k >= |found| {
          assert all[k] / BATCH_SIZE == first / BATCH_SIZE == all[l] / BATCH_SIZE;
        } else {
          assert all[k] / BATCH_SIZE <= first / BATCH_SIZE;
        }
      }
    }
  }

  /** Without a stop every batch runs, and every address that kept a sample is recorded. */
  lemma ScanComplete(worklist: seq<string>, samples: seq<seq<nat>>, order: seq<seq<nat>>,
                     found: seq<nat>, results: seq<Result>)
    requires |samples| == |worklist| && ValidOrders(order, |worklist|)
    requires ScanSoFar(worklist, samples, order, None, |order|, found, results)
    ensures forall a :: 0 <= a < |worklist| ==> (a in found <==> |samples[a]| > 0)
  {
    var n := |worklist|;
    forall a | 0 <= a < n
      ensures a in found <==> |samples[a]| > 0
    {
      var b, x := a / BATCH_SIZE, a % BATCH_SIZE;
      BatchIndex(n, b);
      assert x < BatchLength(n, b);
      assert x in order[b];
      var t :| 0 <= t < |order[b]| && order[b][t] == x;
      assert Slot(order, n, b, t) == a;
    }
  }

  /**
   One pass of the loop body: batch `started` runs, and its records are
   appended to those of the earlier batches.
   */
  method NextBatch(worklist: seq<string>, samples: seq<seq<nat>>, order: seq<seq<nat>>, stop: Option<nat>,
                   started: nat, found: seq<nat>, results: seq<Result>)
    returns (tested: nat, found': seq<nat>, results': seq<Result>)
    requires |samples| == |worklist| && ValidOrders(order, |worklist|) && started <= |order|
    requires BATCH_SIZE * started < |worklist| && Scanning(stop, BATCH_SIZE * started)
    requires ScanSoFar(worklist, samples, order, stop, started, found, results)
    ensures started < |order|
    ensures tested == Min(|worklist|, BATCH_SIZE * (started + 1))
    ensures ScanSoFar(worklist, samples, order, stop, started + 1, found', results')
  {
    BatchIndex(|worklist|, started);
    var news, entries;
    tested, news, entries := RunBatch(worklist, samples, stop, started, order[started], |found|);
    ScanStep(worklist, samples, order, stop, started, found, results, news, entries);
    found', results' := found + news, results + entries;
  }

  /** What the loop has established when it exits, spelled out. */
  lemma ScanEnd(worklist: seq<string>, samples: seq<seq<nat>>, order: seq<seq<nat>>, stop: Option<nat>,
                started: nat, found: seq<nat>, results: seq<Result>)
    requires |samples| == |worklist| && ValidOrders(order, |worklist|) && started <= |order|
    requires !(BATCH_SIZE * started < |worklist| && Scanning(stop, Min(|worklist|, BATCH_SIZE * started)))
    requires ScanSoFar(worklist, samples, order, stop, started, found, results)
    ensures forall b :: 0 <= b < started ==> Scanning(stop, BATCH_SIZE * b)
    ensures started < |order| ==> !Scanning(stop, BATCH_SIZE * started)
    ensures found == ScanDiscovered(samples, order, stop, started)
    ensures Recorded(worklist, samples, found, results)
    ensures forall k :: 0 <= k < |found| ==> found[k] < Min(|worklist|, BATCH_SIZE * started)
    ensures Distinct(found)
    ensures forall k, l :: 0 <= k < l < |found| ==> found[k] / BATCH_SIZE <= found[l] / BATCH_SIZE
    ensures forall b, t :: 0 <= b < started && 0 <= t < |order[b]| ==>
      (Slot(order, |worklist|, b, t) in found <==>
        |samples[Slot(order, |worklist|, b, t)]| > 0 && Scanning(stop, BATCH_SIZE * b + t + 1))
    ensures stop.Some? ==> |found| <= stop.value
    ensures stop.None? ==> started == |order| && Min(|worklist|, BATCH_SIZE * started) == |worklist|
    ensures stop.None? ==> forall a :: 0 <= a < |worklist| ==> (a in found <==> |samples[a]| > 0)
  {
    BatchIndex(|worklist|, started);
    if stop.None? {
      ScanComplete(worklist, samples, order, found, results);
    }
  }

  /**
   The batch loop of `startScan` over `worklist`. Returns the final `tested`,
   how many batches were started, the recorded addresses in the order they
   were recorded, and `results`.
   */
  method Scan(worklist: seq<string>, samples: seq<seq<nat>>, order: seq<seq<nat>>, stop: Option<nat>)
    returns (tested: nat, started: nat, found: seq<nat>, results: seq<Result>)
    requires |samples| == |worklist| && ValidOrders(order, |worklist|)
    // which batches start, and how far the count gets
    ensures started <= |order|
    ensures forall b :: 0 <= b < started ==> Scanning(stop, BATCH_SIZE * b)
    ensures started < |order| ==> !Scanning(stop, BATCH_SIZE * started)
    ensures tested == Min(|worklist|, BATCH_SIZE * started)
    // what is recorded, and in which order
    ensures found == ScanDiscovered(samples, order, stop, started)
    ensures Recorded(worklist, samples, found, results)
    ensures forall k :: 0 <= k < |found| ==> found[k] < tested
    ensures Distinct(found)
    ensures forall k, l :: 0 <= k < l < |found| ==> found[k] / BATCH_SIZE <= found[l] / BATCH_SIZE
    ensures forall b, t :: 0 <= b < started && 0 <= t < |order[b]| ==>
      (Slot(order, |worklist|, b, t) in found <==>
        |samples[Slot(order, |worklist|, b, t)]| > 0 && Scanning(stop, BATCH_SIZE * b + t + 1))
    ensures stop.Some? ==> |found| <= stop.value
    // without a stop, everything is probed and every address with a sample is recorded
    ensures stop.None? ==> started == |order| && tested == |worklist|
    ensures stop.None? ==> forall a :: 0 <= a < |worklist| ==> (a in found <==> |samples[a]| > 0)
  {
    var n := |worklist|;
    tested, started, found, results := 0, 0, [], [];
    while BATCH_SIZE * started < n && Scanning(stop, tested)
      invariant started <= |order|
      invariant tested == Min(n, BATCH_SIZE * started)
      invariant ScanSoFar(worklist, samples, order, stop, started, found, results)
    {
      tested, found, results := NextBatch(worklist, samples, order, stop, started, found, results);
      started := started + 1;
    }
    ScanEnd(worklist, samples, order, stop, started, found, results);
  }
}
