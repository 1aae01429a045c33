/** The rotation tick `updateStatus` (app.js lines 67-93) and what repeated
    ticks do. The only mutable state is `sequenceIndex`; a tick is a pure
    function from that index and the reply the status update got to the new
    index, whether the console was cleared, and the request body that was
    sent. Traces of replies model the ticks that the timer goes on firing. */
module Scheduler {
  import opened Options
  import opened Json
  import opened JsNumber
  import opened Remote
  import opened Cursor

  /** How a tick ended: the update was applied, the service rejected it (or
      the call threw), or the tick threw before the call and the error was
      caught at the tick boundary (line 90). */
  datatype Outcome = Applied | Rejected | Aborted

  /** The result of one tick: its outcome, the value of `sequenceIndex`
      afterwards, whether the console was cleared, and the JSON body handed to
      `fetch` (none when the tick aborted before calling the service; when
      `fetch` threw, the body may never have reached the service). */
  datatype TickResult = TickResult(outcome: Outcome, index: nat, cleared: bool, request: Option<Value>)

  /** The reply that `changeStatus` counts as success. */
  predicate Succeeded(reply: Reply) {
    reply == Responded(200)
  }

  /** One run of `updateStatus` with `sequenceIndex == index`. With an empty
      `sequences` list, reading `sequence.text` throws before the request is
      made; the error is caught and nothing changes. Otherwise the chosen
      entry is submitted, and on success the index is incremented first and
      the clear rule is evaluated on the incremented value. */
  function Tick(cfg: Config, index: nat, reply: Reply): (t: TickResult)
    ensures t.outcome.Aborted? <==> |cfg.sequences| == 0
    ensures t.request.None? <==> t.outcome.Aborted?
    ensures t.outcome.Applied? <==> |cfg.sequences| > 0 && Succeeded(reply)
    ensures t.index == if t.outcome.Applied? then index + 1 else index
    ensures t.cleared ==> t.outcome.Applied? && t.index > 0
    ensures t.cleared <==>
      t.outcome.Applied? && cfg.clearEnabled && cfg.clearInterval != 0 && t.index % Abs(cfg.clearInterval) == 0
  {
    ClearDueMultiple(cfg, index + 1);
    match CurrentEntry(cfg, index)
    case None => TickResult(Aborted, index, false, None)
    case Some(entry) =>
      var s := ChangeStatus(entry.text, entry.emoji, CurrentAvailability(cfg, index), reply);
      if s.ok then TickResult(Applied, index + 1, ClearDue(cfg, index + 1), Some(s.body))
      else TickResult(Rejected, index, false, Some(s.body))
  }

  /** The body a tick hands to `fetch` carries the entry at the index modulo
      the list's length as `custom_status` (its `text` and `emoji_name` and no
      other key), and a top-level `status` holding the availability value at
      the index modulo that list's own length exactly when cycling is on and
      that value is truthy. */
  lemma TickRequest(cfg: Config, index: nat, reply: Reply)
    requires |cfg.sequences| > 0
    ensures var t := Tick(cfg, index, reply);
      var entry := cfg.sequences[index % |cfg.sequences|];
      var cs := Lookup(t.request.value, "custom_status");
      && cs.Some? && cs.value.Obj?
      && Get(cs.value.members, "text") == Emitted(entry.text)
      && Get(cs.value.members, "emoji_name") == Emitted(entry.emoji)
      && (forall k :: k in Keys(cs.value.members) ==> k == "text" || k == "emoji_name")
    ensures var t := Tick(cfg, index, reply);
      var cycling := cfg.useStatusSequence && |cfg.statusSequence| > 0;
      var a := if cycling then cfg.statusSequence[index % |cfg.statusSequence|] else Null;
      Lookup(t.request.value, "status") == if cycling && Truthy(a) then Some(Wire(a)) else None
  {
    CurrentEntryPosition(cfg, index);
    var entry := cfg.sequences[index % |cfg.sequences|];
    var a := CurrentAvailability(cfg, index);
    SubmittedCustomStatus(entry.text, entry.emoji, a, reply);
    SubmittedStatus(entry.text, entry.emoji, a, reply);
    if cfg.useStatusSequence && |cfg.statusSequence| > 0 {
      CurrentAvailabilityPosition(cfg, index);
    }
  }

  /** With availability cycling off, no request ever carries `status`. */
  lemma NoStatusWithoutCycling(cfg: Config, index: nat, reply: Reply)
    requires !cfg.useStatusSequence
    ensures var t := Tick(cfg, index, reply);
      t.request.Some? ==> Lookup(t.request.value, "status").None?
  {
    if |cfg.sequences| > 0 {
      TickRequest(cfg, index, reply);
    }
  }

  /** The ticks run one after another, each seeing the index the previous one
      left behind; `replies[k]` is what the k-th status update got. */
  function Run(cfg: Config, index: nat, replies: seq<Reply>): (ts: seq<TickResult>)
    ensures |ts| == |replies|
    decreases |replies|
  {
    if replies == [] then []
    else
      var t := Tick(cfg, index, replies[0]);
      [t] + Run(cfg, t.index, replies[1..])
  }

  /** `sequenceIndex` after the ticks of `replies`: the index the last tick
      left behind. */
  function FinalIndex(cfg: Config, index: nat, replies: seq<Reply>): nat {
    if replies == [] then index else Run(cfg, index, replies)[|replies| - 1].index
  }

  /** How many replies report success. */
  function Successes(replies: seq<Reply>): (n: nat)
    ensures n <= |replies|
  {
    if replies == [] then 0
    else (if Succeeded(replies[0]) then 1 else 0) + Successes(replies[1..])
  }

  /** How many ticks cleared the console. */
  function Clears(ts: seq<TickResult>): (n: nat)
    ensures n <= |ts|
  {
    if ts == [] then 0
    else (if ts[0].cleared then 1 else 0) + Clears(ts[1..])
  }

  /** The entries whose update was applied, in the order they were applied. */
  function AppliedEntries(cfg: Config, index: nat, replies: seq<Reply>): seq<StatusEntry>
    decreases |replies|
  {
    if replies == [] then []
    else
      var t := Tick(cfg, index, replies[0]);
      (if t.outcome.Applied? then [CurrentEntry(cfg, index).value] else [])
        + AppliedEntries(cfg, t.index, replies[1..])
  }

  /** `n` consecutive entries of the cyclic list, starting at position `start`. */
  function Cycle(cfg: Config, start: nat, n: nat): (c: seq<StatusEntry>)
    requires |cfg.sequences| > 0
    ensures |c| == n
  {
    seq(n, k requires 0 <= k < n => cfg.sequences[(start + k) % |cfg.sequences|])
  }

  lemma {:induction false} SuccessesAppend(a: seq<Reply>, b: seq<Reply>)
    ensures Successes(a + b) == Successes(a) + Successes(b)
  {
    if a != [] {
      assert (a + b)[0] == a[0];
      assert (a + b)[1..] == a[1..] + b;
      SuccessesAppend(a[1..], b);
    } else {
      assert a + b == b;
    }
  }

  lemma SuccessesSnoc(rs: seq<Reply>, k: nat)
    requires k < |rs|
    ensures Successes(rs[..k + 1]) == Successes(rs[..k]) + (if Succeeded(rs[k]) then 1 else 0)
  {
    assert rs[..k + 1] == rs[..k] + [rs[k]];
    SuccessesAppend(rs[..k], [rs[k]]);
  }

  /** The index counts successful updates and nothing else: after any trace of
      replies it has grown by exactly the number of successes (and not at all
      when every tick aborts on an empty list). */
  lemma FinalIndexCountsSuccesses(cfg: Config, index: nat, replies: seq<Reply>)
    ensures FinalIndex(cfg, index, replies)
      == index + if |cfg.sequences| > 0 then Successes(replies) else 0
  {
    if replies != [] {
      if |cfg.sequences| > 0 {
        RunLastIndex(cfg, index, replies);
      } else {
        RunAllAbort(cfg, index, replies, |replies| - 1);
      }
    }
  }

  /** The k-th tick of a trace runs with the index raised by the successes
      before it: failures are retried at the same position. */
  lemma {:induction false} RunTickAt(cfg: Config, index: nat, replies: seq<Reply>, k: nat)
    requires |cfg.sequences| > 0
    requires k < |replies|
    ensures Run(cfg, index, replies)[k] == Tick(cfg, index + Successes(replies[..k]), replies[k])
    decreases |replies|
  {
    if k > 0 {
      var t := Tick(cfg, index, replies[0]);
      var rest := replies[1..];
      RunTickAt(cfg, t.index, rest, k - 1);
      assert Run(cfg, index, replies)[k] == Run(cfg, t.index, rest)[k - 1];
      assert rest[k - 1] == replies[k];
      SuccessesFirst(replies, k);
      assert t.index == index + if Succeeded(replies[0]) then 1 else 0;
    }
  }

  lemma SuccessesFirst(rs: seq<Reply>, k: nat)
    requires 0 < k <= |rs|
    ensures Successes(rs[..k]) == (if Succeeded(rs[0]) then 1 else 0) + Successes(rs[1..][..k - 1])
  {
    assert rs[..k][0] == rs[0];
    assert rs[..k][1..] == rs[1..][..k - 1];
  }

  /** The last tick of a non-empty trace leaves the index raised by the
      number of successes in the whole trace. */
  lemma RunLastIndex(cfg: Config, index: nat, replies: seq<Reply>)
    requires |cfg.sequences| > 0
    requires |replies| > 0
    ensures Run(cfg, index, replies)[|replies| - 1].index == index + Successes(replies)
  {
    var n := |replies|;
    RunTickAt(cfg, index, replies, n - 1);
    SuccessesSnoc(replies, n - 1);
    assert replies[..n] == replies;
  }

  /** A failed tick is followed by one that sends exactly the same request:
      no entry is skipped because of a failure. */
  lemma FailureRetriesSameRequest(cfg: Config, index: nat, replies: seq<Reply>, k: nat)
    requires k + 1 < |replies|
    requires !Succeeded(replies[k])
    ensures Run(cfg, index, replies)[k + 1].request == Run(cfg, index, replies)[k].request
  {
    if |cfg.sequences| > 0 {
      RunTickAt(cfg, index, replies, k);
      RunTickAt(cfg, index, replies, k + 1);
      SuccessesSnoc(replies, k);
      var i := index + Successes(replies[..k]);
      SubmittedBodyIgnoresReply(
        CurrentEntry(cfg, i).value.text, CurrentEntry(cfg, i).value.emoji,
        CurrentAvailability(cfg, i), replies[k], replies[k + 1]);
    } else {
      RunAllAbort(cfg, index, replies, k);
      RunAllAbort(cfg, index, replies, k + 1);
    }
  }

  /** With an empty `sequences` list every tick aborts and nothing is sent. */
  lemma {:induction false} RunAllAbort(cfg: Config, index: nat, replies: seq<Reply>, k: nat)
    requires |cfg.sequences| == 0
    requires k < |replies|
    ensures Run(cfg, index, replies)[k] == TickResult(Aborted, index, false, None)
  {
    if k > 0 {
      RunAllAbort(cfg, index, replies[1..], k - 1);
    }
  }

  /** The applied entries are the configured list read cyclically from the
      starting position, one per success, with nothing skipped or repeated. */
  lemma {:induction false} NoEntrySkipped(cfg: Config, index: nat, replies: seq<Reply>)
    requires |cfg.sequences| > 0
    ensures AppliedEntries(cfg, index, replies) == Cycle(cfg, index, Successes(replies))
    decreases |replies|
  {
    if replies != [] {
      var t := Tick(cfg, index, replies[0]);
      var rest := replies[1..];
      NoEntrySkipped(cfg, t.index, rest);
      if Succeeded(replies[0]) {
        assert t.outcome.Applied? && t.index == index + 1;
        CurrentEntryPosition(cfg, index);
        CycleCons(cfg, index, Successes(rest));
      } else {
        assert !t.outcome.Applied? && t.index == index;
      }
    }
  }

  /** A cyclic reading is its first entry followed by the reading from the
      next position. */
  lemma CycleCons(cfg: Config, start: nat, m: nat)
    requires |cfg.sequences| > 0
    ensures Cycle(cfg, start, 1 + m)
      == [cfg.sequences[start % |cfg.sequences|]] + Cycle(cfg, start + 1, m)
  {
    var c := Cycle(cfg, start, 1 + m);
    var tail := Cycle(cfg, start + 1, m);
    forall k | 0 <= k < |c| ensures c[k] == ([cfg.sequences[start % |cfg.sequences|]] + tail)[k] {
      if k > 0 {
        assert start + k == start + 1 + (k - 1);
      }
    }
  }

  /** Over any trace the console is cleared once per completed block of
      `clear_interval` successes: exactly at the positive multiples of the
      interval that the index passes through. */
  lemma {:induction false} ClearsCountMultiples(cfg: Config, index: nat, replies: seq<Reply>)
    requires |cfg.sequences| > 0
    requires cfg.clearEnabled && cfg.clearInterval != 0
    ensures Clears(Run(cfg, index, replies))
      == (index + Successes(replies)) / Abs(cfg.clearInterval) - index / Abs(cfg.clearInterval)
    decreases |replies|
  {
    if replies != [] {
      var t := Tick(cfg, index, replies[0]);
      ClearsCountMultiples(cfg, t.index, replies[1..]);
      assert Run(cfg, index, replies)[1..] == Run(cfg, t.index, replies[1..]);
      if t.outcome.Applied? {
        DivStep(index, Abs(cfg.clearInterval));
      }
    }
  }

  /** With clearing disabled no tick of any trace clears the console. */
  lemma {:induction false} NoClearsWhenDisabled(cfg: Config, index: nat, replies: seq<Reply>)
    requires !cfg.clearEnabled || cfg.clearInterval == 0
    ensures Clears(Run(cfg, index, replies)) == 0
    decreases |replies|
  {
    if replies != [] {
      var t := Tick(cfg, index, replies[0]);
      NoClearsWhenDisabled(cfg, t.index, replies[1..]);
      assert Run(cfg, index, replies)[1..] == Run(cfg, t.index, replies[1..]);
    }
  }

  /** What the n-th tick of a trace from index 0 does to the success count
      and to the number of completed clear intervals. */
  lemma RotateStep(cfg: Config, replies: seq<Reply>, n: nat)
    requires |cfg.sequences| > 0
    requires n < |replies|
    ensures var t := Tick(cfg, Successes(replies[..n]), replies[n]);
      && Run(cfg, 0, replies)[n] == t
      && Successes(replies[..n + 1]) == t.index
      && (cfg.clearEnabled && cfg.clearInterval != 0 ==>
            t.index / Abs(cfg.clearInterval)
              == Successes(replies[..n]) / Abs(cfg.clearInterval) + if t.cleared then 1 else 0)
  {
    var i := Successes(replies[..n]);
    var t := Tick(cfg, i, replies[n]);
    RunTickAt(cfg, 0, replies, n);
    SuccessesSnoc(replies, n);
    if Succeeded(replies[n]) {
      assert t.index == i + 1;
      if cfg.clearEnabled && cfg.clearInterval != 0 {
        DivStep(i, Abs(cfg.clearInterval));
        assert t.cleared <==> (i + 1) % Abs(cfg.clearInterval) == 0;
      }
    } else {
      assert t.index == i && !t.cleared;
    }
  }

  /** The body of `updateStatus` on the mutable index: read the entry and
      availability value, submit them, and on success increment the index and
      then test the clear rule. A tick that throws before the request (no
      entry) changes nothing. */
  method UpdateStatus(cfg: Config, sequenceIndex: nat, reply: Reply)
    returns (newIndex: nat, request: Option<Value>, cleared: bool)
    ensures var t := Tick(cfg, sequenceIndex, reply);
      newIndex == t.index && request == t.request && cleared == t.cleared
  {
    newIndex := sequenceIndex;
    request := None;
    cleared := false;
    var entry := CurrentEntry(cfg, sequenceIndex);
    if entry.Some? {
      var status := CurrentAvailability(cfg, sequenceIndex);
      var s := ChangeStatus(entry.value.text, entry.value.emoji, status, reply);
      request := Some(s.body);
      if s.ok {
        newIndex := newIndex + 1;
        if ClearDue(cfg, newIndex) {
          cleared := true;
        }
      }
    }
  }

  /** The rotation as the closure in `main` runs it: one mutable
      `sequenceIndex`, starting at 0, updated tick by tick in place. Returns
      the final index, the bodies sent and the number of console clears. */
  method Rotate(cfg: Config, replies: seq<Reply>) returns (sequenceIndex: nat, sent: seq<Value>, clears: nat)
    ensures sequenceIndex == if |cfg.sequences| > 0 then Successes(replies) else 0
    ensures |sent| == if |cfg.sequences| > 0 then |replies| else 0
    ensures forall k :: 0 <= k < |sent| ==> Some(sent[k]) == Run(cfg, 0, replies)[k].request
    ensures clears == if |cfg.sequences| > 0 && cfg.clearEnabled && cfg.clearInterval != 0
      then Successes(replies) / Abs(cfg.clearInterval) else 0
  {
    sequenceIndex := 0;
    sent := [];
    clears := 0;
    var n := 0;
    while n < |replies|
      invariant n <= |replies|
      invariant sequenceIndex == if |cfg.sequences| > 0 then Successes(replies[..n]) else 0
      invariant |sent| == if |cfg.sequences| > 0 then n else 0
      invariant forall k :: 0 <= k < |sent| ==> Some(sent[k]) == Run(cfg, 0, replies)[k].request
      invariant clears == if |cfg.sequences| > 0 && cfg.clearEnabled && cfg.clearInterval != 0
        then sequenceIndex / Abs(cfg.clearInterval) else 0
    {
      var index, request, cleared := UpdateStatus(cfg, sequenceIndex, replies[n]);
      if |cfg.sequences| > 0 {
        RotateStep(cfg, replies, n);
      }
      if request.Some? {
        sent := sent + [request.value];
      }
      if cleared {
        clears := clears + 1;
      }
      sequenceIndex := index;
      n := n + 1;
    }
    assert replies[..n] == replies;
  }
}
