/** The run ledger shared by the emitter goroutines and the confirmation
    listener (main.go: the package-level `TxTimes`, `SentTransactions`,
    `ProcessedTransactions`, `TxDeltas`, `TxBlocks` and the listener's
    `Listening` flag). Each `mu.Lock()`...`mu.Unlock()` section is one atomic
    step on an immutable `Ledger`, so any interleaving of emitters, listener,
    deadline timer and interrupt handler is a plain sequence of steps. */
module RunLedger {
  import opened Wrappers
  import Memo

  /** A transaction signature, as returned by the send endpoint. */
  type Signature = seq<Memo.Byte>

  /** The shared state of one run. Times and durations are integer nanoseconds.
      `unsubscribes` counts the calls `Stop` makes to the subscription's
      `Unsubscribe`; the subscription itself is not modelled. */
  datatype Ledger = Ledger(
    txTimes: map<Signature, int>,
    sent: nat,
    processed: nat,
    deltas: seq<int>,
    blocks: map<nat, nat>,
    listening: bool,
    unsubscribes: nat)

  /** One confirmation delivered by the log subscription: the slot it landed in,
      the transaction's signature, whether the transaction failed, its log lines. */
  datatype LogEvent = LogEvent(slot: nat, signature: Signature, failed: bool, logs: seq<string>)

  /** The ledger right after the listener subscribed and set `Listening`,
      before any transaction was sent. */
  function Started(): (l: Ledger)
    ensures Valid(l)
    ensures l.listening && l.sent == 0 && l.processed == 0
  {
    Ledger(map[], 0, 0, [], map[], true, 0)
  }

  // ---------------------------------------------------------------------------
  // The emitter's locked section
  // ---------------------------------------------------------------------------

  /** A send that succeeded with signature `sig` at time `now`: its send time is
      recorded and `SentTransactions` goes up by one; nothing else changes. */
  function RecordSend(l: Ledger, sig: Signature, now: int): (r: Ledger)
    ensures sig in r.txTimes && r.txTimes[sig] == now
    ensures r.txTimes.Keys == l.txTimes.Keys + {sig}
    ensures forall s :: s in l.txTimes && s != sig ==> r.txTimes[s] == l.txTimes[s]
    ensures r.sent == l.sent + 1
    ensures r.processed == l.processed && r.deltas == l.deltas && r.blocks == l.blocks
    ensures r.listening == l.listening && r.unsubscribes == l.unsubscribes
  {
    l.(txTimes := l.txTimes[sig := now], sent := l.sent + 1)
  }

  // ---------------------------------------------------------------------------
  // Stopping the listener
  // ---------------------------------------------------------------------------

  /** `WebsocketListener.Stop`: a no-op unless listening; otherwise clears
      `Listening` and unsubscribes once. */
  function Stop(l: Ledger): (r: Ledger)
    ensures !r.listening
    ensures r.unsubscribes == if l.listening then l.unsubscribes + 1 else l.unsubscribes
    ensures !l.listening ==> r == l
    ensures r.txTimes == l.txTimes && r.sent == l.sent && r.processed == l.processed
    ensures r.deltas == l.deltas && r.blocks == l.blocks
  {
    if !l.listening then l
    else l.(listening := false, unsubscribes := l.unsubscribes + 1)
  }

  /** Stopping twice is stopping once. */
  lemma StopIdempotent(l: Ledger)
    ensures Stop(Stop(l)) == Stop(l)
    ensures Stop(Stop(l)).unsubscribes <= l.unsubscribes + 1
  {
  }

  // ---------------------------------------------------------------------------
  // The listener's handling of one event
  // ---------------------------------------------------------------------------

  /** `TxBlocks[slot]` with Go's zero value for a missing key. */
  function BlockCount(blocks: map<nat, nat>, slot: nat): nat
  {
    if slot in blocks then blocks[slot] else 0
  }

  /** The listener's locked section for a signature it knows: count the
      confirmation, record its latency and the block it landed in. */
  function Confirm(l: Ledger, sig: Signature, slot: nat, now: int): (r: Ledger)
    requires sig in l.txTimes
    ensures r.processed == l.processed + 1
    ensures r.deltas == l.deltas + [now - l.txTimes[sig]]
    ensures slot in r.blocks && r.blocks[slot] == BlockCount(l.blocks, slot) + 1
    ensures r.blocks.Keys == l.blocks.Keys + {slot}
    ensures forall b :: b in l.blocks && b != slot ==> r.blocks[b] == l.blocks[b]
    ensures r.txTimes == l.txTimes && r.sent == l.sent
    ensures r.listening == l.listening && r.unsubscribes == l.unsubscribes
  {
    var created := if slot in l.blocks then l.blocks else l.blocks[slot := 0];
    l.(processed := l.processed + 1,
       deltas := l.deltas + [now - l.txTimes[sig]],
       blocks := created[slot := created[slot] + 1])
  }

  /** After a counted confirmation: stop once every sent transaction is
      processed. The counters are untouched; the listener ends up stopped
      exactly when it already was or nothing remains outstanding, and it
      unsubscribes only when this is what stops it. */
  function StopIfDone(l: Ledger): (r: Ledger)
    ensures r.txTimes == l.txTimes && r.sent == l.sent && r.processed == l.processed
    ensures r.deltas == l.deltas && r.blocks == l.blocks
    ensures !r.listening <==> !l.listening || l.processed >= l.sent
    ensures r.unsubscribes == if l.listening && l.processed >= l.sent then l.unsubscribes + 1 else l.unsubscribes
  {
    if l.processed >= l.sent then Stop(l) else l
  }

  /** A log line whose memo parses and names this run. */
  predicate LineCounts(line: string, testId: string)
  {
    var m := Memo.ParseMemo(line);
    m.Some? && m.value.id == testId
  }

  /** Some line of `lines` names this run. */
  predicate AnyLineCounts(lines: seq<string>, testId: string)
  {
    exists i :: 0 <= i < |lines| && LineCounts(lines[i], testId)
  }

  /** The event is counted: it is present, did not fail, its signature was
      recorded by a send, and one of its log lines names this run. */
  predicate Matches(sigs: set<Signature>, got: Option<LogEvent>, testId: string)
  {
    && got.Some?
    && !got.value.failed
    && got.value.signature in sigs
    && AnyLineCounts(got.value.logs, testId)
  }

  /** What the listener counts: a line naming this run carries the marker at
      an occurrence that starts a match, with no earlier occurrence starting
      one; so an identifier holding `]` or a line break is never named. A
      matching event has a log line, and its signature was sent. */
  lemma CountedShape(sigs: set<Signature>, got: Option<LogEvent>, line: string, testId: string)
    ensures LineCounts(line, testId) ==>
              exists m: nat :: Memo.MarkerAt(line, m) && Memo.MatchAt(line, m).Some? && Memo.NoMatchBetween(line, 0, m)
    ensures LineCounts(line, testId) ==> ']' !in testId && '\n' !in testId
    ensures Matches(sigs, got, testId) ==>
              |got.value.logs| > 0 && got.value.signature in sigs && ']' !in testId && '\n' !in testId
  {
    if LineCounts(line, testId) {
      Memo.ParseFromFirst(line, 0);
    }
    if Matches(sigs, got, testId) {
      var i :| 0 <= i < |got.value.logs| && LineCounts(got.value.logs[i], testId);
      var p := Memo.ParseMemo(got.value.logs[i]);
      assert p.Some? && p.value.id == testId;
    }
  }

  /** The scan over an event's log lines: skip lines that do not parse or name
      another run; at the first line naming this run, count the event if its
      signature is known and leave the scan; otherwise keep scanning. */
  function ScanLines(l: Ledger, ev: LogEvent, lines: seq<string>, testId: string, now: int): (r: Ledger)
    ensures ev.signature in l.txTimes && AnyLineCounts(lines, testId) ==>
              r == StopIfDone(Confirm(l, ev.signature, ev.slot, now))
    ensures !(ev.signature in l.txTimes && AnyLineCounts(lines, testId)) ==> r == l
    decreases |lines|
  {
    if |lines| == 0 then l
    else
      var rest := ScanLines(l, ev, lines[1..], testId, now);
      assert AnyLineCounts(lines, testId) <==> LineCounts(lines[0], testId) || AnyLineCounts(lines[1..], testId) by {
        if AnyLineCounts(lines[1..], testId) {
          var i :| 0 <= i < |lines[1..]| && LineCounts(lines[1..][i], testId);
          assert lines[i + 1] == lines[1..][i];
        }
        if AnyLineCounts(lines, testId) && !LineCounts(lines[0], testId) {
          var i :| 0 <= i < |lines| && LineCounts(lines[i], testId);
          assert lines[1..][i - 1] == lines[i];
        }
      }
      match Memo.ParseMemo(lines[0])
      case None => rest
      case Some(m) =>
        if m.id != testId then rest
        else if ev.signature in l.txTimes then StopIfDone(Confirm(l, ev.signature, ev.slot, now))
        else rest
  }

  /** One iteration of the listener loop on the received value `got` at time
      `now`. Unless the event matches, the ledger is left exactly as it was:
      a missing or failed event, no line naming this run, a line naming another
      run, an unknown signature. A matching event is counted exactly once,
      however many of its lines name this run, and stops the listener once
      every sent transaction is processed. */
  function HandleEvent(l: Ledger, got: Option<LogEvent>, testId: string, now: int): (r: Ledger)
    ensures !Matches(l.txTimes.Keys, got, testId) ==> r == l
    ensures Matches(l.txTimes.Keys, got, testId) ==>
              r == StopIfDone(Confirm(l, got.value.signature, got.value.slot, now))
    ensures r.processed <= l.processed + 1
  {
    match got
    case None => l
    case Some(ev) =>
      if ev.failed then l
      else ScanLines(l, ev, ev.logs, testId, now)
  }

  /** What a counted event does: one more processed confirmation, its latency
      appended, one more landing in its slot and no other block changed, no
      send forgotten; the listener stops exactly when the processed count
      reaches the sent count, and only then unsubscribes. */
  lemma CountedEvent(l: Ledger, got: Option<LogEvent>, testId: string, now: int)
    requires Matches(l.txTimes.Keys, got, testId)
    ensures var r := HandleEvent(l, got, testId, now);
            var ev := got.value;
            && r.processed == l.processed + 1
            && r.deltas == l.deltas + [now - l.txTimes[ev.signature]]
            && r.blocks == l.blocks[ev.slot := BlockCount(l.blocks, ev.slot) + 1]
            && r.txTimes == l.txTimes && r.sent == l.sent
            && (r.processed >= r.sent ==> !r.listening && r.unsubscribes == if l.listening then l.unsubscribes + 1 else l.unsubscribes)
            && (r.processed < r.sent ==> r.listening == l.listening && r.unsubscribes == l.unsubscribes)
  {
    var c := Confirm(l, got.value.signature, got.value.slot, now);
    assert c.blocks == l.blocks[got.value.slot := BlockCount(l.blocks, got.value.slot) + 1];
  }

  // ---------------------------------------------------------------------------
  // Runs: any interleaving of the atomic steps
  // ---------------------------------------------------------------------------

  /** An atomic step: an emitter's successful send, one listener iteration, or
      a `Stop` from the deadline timer or the interrupt handler. */
  datatype Step =
    | Send(sig: Signature, at: int)
    | Receive(got: Option<LogEvent>, at: int)
    | ForceStop

  /** The effect of one step. */
  function Apply(l: Ledger, s: Step, testId: string): Ledger
  {
    match s
    case Send(sig, at) => RecordSend(l, sig, at)
    case Receive(got, at) => HandleEvent(l, got, testId, at)
    case ForceStop => Stop(l)
  }

  /** The effect of a sequence of steps, in order. */
  function Run(l: Ledger, steps: seq<Step>, testId: string): Ledger
    decreases |steps|
  {
    if |steps| == 0 then l else Run(Apply(l, steps[0], testId), steps[1..], testId)
  }

  /** Running two sequences one after the other is running their concatenation. */
  lemma {:induction false} RunAppend(l: Ledger, a: seq<Step>, b: seq<Step>, testId: string)
    ensures Run(l, a + b, testId) == Run(Run(l, a, testId), b, testId)
    decreases |a|
  {
    if |a| > 0 {
      assert (a + b)[1..] == a[1..] + b;
      RunAppend(Apply(l, a[0], testId), a[1..], b, testId);
    } else {
      assert a + b == b;
    }
  }

  // ---------------------------------------------------------------------------
  // The invariant
  // ---------------------------------------------------------------------------

  /** Some block of a non-empty map. */
  ghost function Pick(m: map<nat, nat>): (k: nat)
    requires |m| != 0
    ensures k in m
  {
    assert |m.Keys| == |m|;
    var k :| k in m.Keys;
    k
  }

  /** The sum of the per-block counts. */
  ghost function Total(m: map<nat, nat>): nat
    decreases |m|
  {
    if |m| == 0 then 0
    else
      var k := Pick(m);
      RemoveShrinks(m, k);
      m[k] + Total(m - {k})
  }

  /** Removing a present key removes exactly one entry. */
  lemma RemoveShrinks(m: map<nat, nat>, k: nat)
    requires k in m
    ensures |m - {k}| == |m| - 1
  {
    assert (m - {k}).Keys == m.Keys - {k};
  }

  lemma {:induction false} TotalRemove(m: map<nat, nat>, k: nat)
    requires k in m
    ensures Total(m) == m[k] + Total(m - {k})
    decreases |m|
  {
    RemoveShrinks(m, k);
    var j := Pick(m);
    if j != k {
      var mj, mk := m - {j}, m - {k};
      RemoveShrinks(m, j);
      RemoveShrinks(m, k);
      assert k in mj && mj[k] == m[k];
      assert j in mk && mk[j] == m[j];
      TotalRemove(mj, k);
      TotalRemove(mk, j);
      assert mj - {k} == mk - {j};
    }
  }

  /** Adding one landing to a block adds one to the total. */
  lemma TotalIncrement(m: map<nat, nat>, k: nat)
    ensures Total(m[k := BlockCount(m, k) + 1]) == Total(m) + 1
  {
    var m' := m[k := BlockCount(m, k) + 1];
    TotalRemove(m', k);
    if k in m {
      TotalRemove(m, k);
      assert m' - {k} == m - {k};
    } else {
      assert m' - {k} == m;
    }
  }

  /** Every block count is at most the total. */
  lemma TotalBounds(m: map<nat, nat>, k: nat)
    requires k in m
    ensures m[k] <= Total(m)
  {
    TotalRemove(m, k);
  }

  /** What every reachable ledger satisfies: one latency per processed
      confirmation, block counts that add up to the processed count and are
      never zero, at most one recorded time per send, and `Unsubscribe`
      called exactly when the listener stopped, and at most once. */
  ghost predicate Valid(l: Ledger)
  {
    && |l.deltas| == l.processed
    && Total(l.blocks) == l.processed
    && (forall b :: b in l.blocks ==> l.blocks[b] > 0)
    && |l.txTimes| <= l.sent
    && l.unsubscribes <= 1
    && (l.listening <==> l.unsubscribes == 0)
  }

  /** A counted confirmation adds one landing to the block total. */
  lemma ConfirmTotal(l: Ledger, sig: Signature, slot: nat, now: int)
    requires sig in l.txTimes && Total(l.blocks) == l.processed
    ensures Total(Confirm(l, sig, slot, now).blocks) == l.processed + 1
  {
    TotalIncrement(l.blocks, slot);
    assert Confirm(l, sig, slot, now).blocks == l.blocks[slot := BlockCount(l.blocks, slot) + 1];
  }

  /** The confirmation section keeps the invariant. */
  lemma ConfirmValid(l: Ledger, sig: Signature, slot: nat, now: int)
    requires Valid(l) && sig in l.txTimes
    ensures Valid(Confirm(l, sig, slot, now))
  {
    ConfirmTotal(l, sig, slot, now);
  }

  /** `Stop` keeps the invariant. */
  lemma StopValid(l: Ledger)
    requires Valid(l)
    ensures Valid(Stop(l))
  {
  }

  /** Every atomic step keeps the invariant. */
  lemma StepValid(l: Ledger, s: Step, testId: string)
    requires Valid(l)
    ensures Valid(Apply(l, s, testId))
  {
    match s
    case Send(sig, at) =>
    case ForceStop =>
    case Receive(got, at) =>
      if Matches(l.txTimes.Keys, got, testId) {
        ConfirmValid(l, got.value.signature, got.value.slot, at);
        StopValid(Confirm(l, got.value.signature, got.value.slot, at));
      }
  }

  /** Every run keeps the invariant, whatever the interleaving. */
  lemma {:induction false} RunValid(l: Ledger, steps: seq<Step>, testId: string)
    requires Valid(l)
    ensures Valid(Run(l, steps, testId))
    decreases |steps|
  {
    if |steps| > 0 {
      StepValid(l, steps[0], testId);
      RunValid(Apply(l, steps[0], testId), steps[1..], testId);
    }
  }

  /** From the start of a run, `Unsubscribe` is called at most once, the
      latencies and block counts both add up to the processed count. */
  lemma RunFromStart(steps: seq<Step>, testId: string)
    ensures var r := Run(Started(), steps, testId);
            && r.unsubscribes <= 1
            && (!r.listening <==> r.unsubscribes == 1)
            && |r.deltas| == r.processed
            && Total(r.blocks) == r.processed
  {
    RunValid(Started(), steps, testId);
  }

  /** Counters only grow, latencies are only appended, recorded send times and
      block counts are never removed or lowered. */
  lemma {:induction false} RunMonotone(l: Ledger, steps: seq<Step>, testId: string)
    ensures var r := Run(l, steps, testId);
            && l.sent <= r.sent && l.processed <= r.processed
            && l.deltas <= r.deltas
            && l.txTimes.Keys <= r.txTimes.Keys
            && (forall b :: b in l.blocks ==> b in r.blocks && l.blocks[b] <= r.blocks[b])
    decreases |steps|
  {
    if |steps| > 0 {
      var l' := Apply(l, steps[0], testId);
      assert l.deltas <= l'.deltas;
      RunMonotone(l', steps[1..], testId);
    }
  }

  // ---------------------------------------------------------------------------
  // Stops, completion and double counting
  // ---------------------------------------------------------------------------

  /** Any number of stops from the timer and the interrupt handler, in a row,
      act as a single stop: `Unsubscribe` is called at most once. */
  lemma {:induction false} RepeatedStops(l: Ledger, steps: seq<Step>, testId: string)
    requires |steps| > 0
    requires forall i :: 0 <= i < |steps| ==> steps[i] == ForceStop
    ensures Run(l, steps, testId) == Stop(l)
    ensures Run(l, steps, testId).unsubscribes <= l.unsubscribes + 1
    decreases |steps|
  {
    if |steps| > 1 {
      RepeatedStops(Stop(l), steps[1..], testId);
      StopIdempotent(l);
    }
  }

  /** The signatures a sequence of sends records. */
  function SentSigs(sends: seq<Step>): (sigs: set<Signature>)
    requires forall i :: 0 <= i < |sends| ==> sends[i].Send?
    ensures forall i :: 0 <= i < |sends| ==> sends[i].sig in sigs
    ensures forall s :: s in sigs ==> exists i :: 0 <= i < |sends| && sends[i].sig == s
  {
    set i | 0 <= i < |sends| :: sends[i].sig
  }

  /** Sends only record: every signature becomes known and the sent count
      grows by the number of sends; nothing processed, nothing stopped. */
  lemma {:induction false} RunSends(l: Ledger, sends: seq<Step>, testId: string)
    requires forall i :: 0 <= i < |sends| ==> sends[i].Send?
    ensures var r := Run(l, sends, testId);
            && r.txTimes.Keys == l.txTimes.Keys + SentSigs(sends)
            && r.sent == l.sent + |sends|
            && r.processed == l.processed && r.deltas == l.deltas && r.blocks == l.blocks
            && r.listening == l.listening && r.unsubscribes == l.unsubscribes
    decreases |sends|
  {
    if |sends| > 0 {
      RunSends(Apply(l, sends[0], testId), sends[1..], testId);
      assert SentSigs(sends) == {sends[0].sig} + SentSigs(sends[1..]) by {
        forall s | s in SentSigs(sends) ensures s in {sends[0].sig} + SentSigs(sends[1..]) {
          var i :| 0 <= i < |sends| && sends[i].sig == s;
          if i > 0 { assert sends[1..][i - 1] == sends[i]; }
        }
      }
    }
  }

  /** A listening ledger that receives exactly as many matching events as it
      still awaits processes them all, then stops and unsubscribes once. */
  lemma {:induction false} ConfirmAll(l: Ledger, events: seq<Step>, testId: string)
    requires l.listening
    requires |events| > 0 && l.processed + |events| == l.sent
    requires forall i :: 0 <= i < |events| ==>
               events[i].Receive? && Matches(l.txTimes.Keys, events[i].got, testId)
    ensures var r := Run(l, events, testId);
            && r.processed == r.sent == l.sent
            && !r.listening && r.unsubscribes == l.unsubscribes + 1
            && r.txTimes == l.txTimes
    decreases |events|
  {
    var e := events[0];
    CountedEvent(l, e.got, testId, e.at);
    var l' := Apply(l, e, testId);
    if |events| > 1 {
      ConfirmAll(l', events[1..], testId);
    }
  }

  /** The natural end of a run: after `n > 0` sends, `n` matching
      confirmations of those sends finish the run with every transaction
      processed, one latency and one landing per transaction, and exactly one
      `Unsubscribe`. */
  lemma RunToCompletion(sends: seq<Step>, events: seq<Step>, testId: string)
    requires |sends| == |events| > 0
    requires forall i :: 0 <= i < |sends| ==> sends[i].Send?
    requires forall i :: 0 <= i < |events| ==>
               events[i].Receive? && Matches(SentSigs(sends), events[i].got, testId)
    ensures var r := Run(Started(), sends + events, testId);
            && r.processed == r.sent == |sends|
            && |r.deltas| == |sends| && Total(r.blocks) == |sends|
            && !r.listening && r.unsubscribes == 1
  {
    var mid := Run(Started(), sends, testId);
    RunSends(Started(), sends, testId);
    RunAppend(Started(), sends, events, testId);
    ConfirmAll(mid, events, testId);
    RunFromStart(sends + events, testId);
  }

  /** The ledger never forgets a send time, so the same confirmation delivered
      twice is counted twice: one send can yield two processed transactions. */
  lemma DuplicateCounted(sig: Signature, testId: string, slot: nat)
    requires Memo.IsTestId(testId)
    ensures var ev := Some(LogEvent(slot, sig, false, [Memo.Payload(1, testId)]));
            var r := Run(Started(), [Send(sig, 0), Receive(ev, 1), Receive(ev, 2)], testId);
            r.sent == 1 && r.processed == 2 && r.processed > r.sent
  {
    var ev := Some(LogEvent(slot, sig, false, [Memo.Payload(1, testId)]));
    var steps := [Send(sig, 0), Receive(ev, 1), Receive(ev, 2)];
    var l1 := RecordSend(Started(), sig, 0);
    assert Matches(l1.txTimes.Keys, ev, testId) by {
      PayloadCounts(1, testId);
    }
    CountedEvent(l1, ev, testId, 1);
    var l2 := HandleEvent(l1, ev, testId, 1);
    CountedEvent(l2, ev, testId, 2);
    var l3 := HandleEvent(l2, ev, testId, 2);
    assert Run(l2, steps[2..], testId) == l3;
    assert Run(l1, steps[1..], testId) == Run(l2, steps[2..], testId);
  }

  /** A log line that is exactly a memo of this run counts. */
  lemma PayloadCounts(id: nat, testId: string)
    requires Memo.IsTestId(testId)
    ensures AnyLineCounts([Memo.Payload(id, testId)], testId)
  {
    var line := Memo.Payload(id, testId);
    forall i | 0 <= i < |testId|
      ensures testId[i] != '[' && testId[i] != ']' && testId[i] != '\n'
    {
      assert Memo.IsLowerHex(testId[i]);
    }
    Memo.ParsePayload("", id, testId, "");
    assert "" + line + "" == line;
    assert LineCounts([line][0], testId);
  }
}
