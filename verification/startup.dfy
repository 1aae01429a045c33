/** `main` (app.js lines 55-99): the token is checked once; an invalid token
    ends the program before any tick, while a valid one logs the user name,
    runs one tick immediately and then arms the repeating timer, whose firings
    run the later ticks. The run is described by the sequence of events it
    produces; the timer's period and the process's exit are outside the model. */
module Startup {
  import opened Json
  import opened Remote
  import opened Cursor
  import opened Scheduler

  /** What `main` does, in order: report the invalid token and return, log
      the user it logged in as, run a tick, or arm the interval timer. */
  datatype Event = TokenRejected | LoggedIn(username: Value) | Ticked(tick: TickResult) | TimerArmed

  /** One `Ticked` event per tick result, in order. */
  function TickEvents(ts: seq<TickResult>): (es: seq<Event>)
    ensures |es| == |ts|
    ensures forall i :: 0 <= i < |ts| ==> es[i] == Ticked(ts[i])
  {
    seq(|ts|, i requires 0 <= i < |ts| => Ticked(ts[i]))
  }

  /** The ticks among a sequence of events, in order. */
  function TicksIn(events: seq<Event>): (ts: seq<TickResult>)
    ensures |ts| <= |events|
  {
    if events == [] then []
    else (if events[0].Ticked? then [events[0].tick] else []) + TicksIn(events[1..])
  }

  /** The events of one run of the program. `identity` is the reply to the
      token check, `first` the reply to the immediate tick's update and
      `fired` the replies to the updates of the ticks the timer fires later. */
  function Main(cfg: Config, identity: IdentityReply, first: Reply, fired: seq<Reply>): (events: seq<Event>)
    ensures |events| > 0
    ensures events[0] == TokenRejected <==> !GetUserInfo(identity).valid
  {
    var info := GetUserInfo(identity);
    if !info.valid then [TokenRejected]
    else
      var ts := Run(cfg, 0, [first] + fired);
      [LoggedIn(info.username), Ticked(ts[0]), TimerArmed] + TickEvents(ts[1..])
  }

  lemma {:induction false} TicksInAppend(a: seq<Event>, b: seq<Event>)
    ensures TicksIn(a + b) == TicksIn(a) + TicksIn(b)
  {
    if a == [] {
      assert a + b == b;
    } else {
      assert (a + b)[0] == a[0];
      assert (a + b)[1..] == a[1..] + b;
      TicksInAppend(a[1..], b);
    }
  }

  lemma {:induction false} TicksInTickEvents(ts: seq<TickResult>)
    ensures TicksIn(TickEvents(ts)) == ts
  {
    if ts != [] {
      assert TickEvents(ts)[1..] == TickEvents(ts[1..]);
      TicksInTickEvents(ts[1..]);
    }
  }

  /** An invalid token (any status but 200, a thrown request, or an unreadable
      body) ends the program at once: no tick runs, so no status update is
      ever sent, and no timer is armed. */
  lemma MainStopsOnInvalidToken(cfg: Config, identity: IdentityReply, first: Reply, fired: seq<Reply>)
    requires !GetUserInfo(identity).valid
    ensures var events := Main(cfg, identity, first, fired);
      forall i :: 0 <= i < |events| ==> !events[i].Ticked? && !events[i].TimerArmed?
  {
  }

  /** A valid token arms the timer exactly once, and exactly one tick, the
      immediate one at index 0, comes before it. */
  lemma MainImmediateTickThenTimer(cfg: Config, identity: IdentityReply, first: Reply, fired: seq<Reply>)
    requires GetUserInfo(identity).valid
    ensures var events := Main(cfg, identity, first, fired);
      exists p :: 0 <= p < |events|
        && events[p] == TimerArmed
        && (forall q :: 0 <= q < |events| && q != p ==> !events[q].TimerArmed?)
        && TicksIn(events[..p]) == [Tick(cfg, 0, first)]
  {
    var events := Main(cfg, identity, first, fired);
    var ts := Run(cfg, 0, [first] + fired);
    assert events[..2] == [LoggedIn(GetUserInfo(identity).username), Ticked(ts[0])];
    assert TicksIn(events[..2]) == [ts[0]] by {
      assert events[..2][1..] == [Ticked(ts[0])];
      assert TicksIn(events[..2][1..]) == [ts[0]] by {
        assert events[..2][1..][1..] == [];
      }
    }
    forall q | 0 <= q < |events| && q != 2 ensures !events[q].TimerArmed? {
      if q > 2 {
        assert events[q] == TickEvents(ts[1..])[q - 3];
      }
    }
    assert events[2] == TimerArmed;
  }

  /** With a valid token the ticks of the run are the trace of the immediate
      tick followed by the timer's ticks, threading one index from 0. */
  lemma MainTicksAreRun(cfg: Config, identity: IdentityReply, first: Reply, fired: seq<Reply>)
    requires GetUserInfo(identity).valid
    ensures TicksIn(Main(cfg, identity, first, fired)) == Run(cfg, 0, [first] + fired)
  {
    var ts := Run(cfg, 0, [first] + fired);
    var head := [LoggedIn(GetUserInfo(identity).username), Ticked(ts[0]), TimerArmed];
    TicksInAppend(head, TickEvents(ts[1..]));
    TicksInTickEvents(ts[1..]);
    assert TicksIn([TimerArmed]) == [] by {
      assert [TimerArmed][1..] == [];
    }
    assert TicksIn([Ticked(ts[0]), TimerArmed]) == [ts[0]] by {
      assert [Ticked(ts[0]), TimerArmed][1..] == [TimerArmed];
    }
    assert TicksIn(head) == [ts[0]] by {
      assert head[1..] == [Ticked(ts[0]), TimerArmed];
    }
    assert ts == [ts[0]] + ts[1..];
  }

  /** With a valid token and a non-empty status list, the index after the last
      tick is the number of updates that succeeded, counting the immediate
      tick. */
  lemma MainIndexCountsSuccesses(cfg: Config, identity: IdentityReply, first: Reply, fired: seq<Reply>)
    requires GetUserInfo(identity).valid
    requires |cfg.sequences| > 0
    ensures var ts := TicksIn(Main(cfg, identity, first, fired));
      |ts| == 1 + |fired| && ts[|ts| - 1].index == Successes([first] + fired)
  {
    MainTicksAreRun(cfg, identity, first, fired);
    RunLastIndex(cfg, 0, [first] + fired);
  }
}
