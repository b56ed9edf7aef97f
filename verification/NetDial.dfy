/** src/net/dial.go: dialParallel, as a step relation over its loop, the racers
    it starts and the timer. */
module NetDial {
  import opened Basics

  type Error = nat

  /** What dialSerial returns. */
  datatype Dialed = Conn | Failed(err: Error)

  /** A racer: in dialSerial, at its select, and after it: its result went to
      the loop, or the loop was over and a connection was closed. */
  datatype Racer = Dialing | Sending(result: Dialed) | Sent(result: Dialed) | Dropped(result: Dialed, closed: bool)

  datatype Timer = Running(delay: nat) | Fired | Drained

  /** What dialParallel returns: the connection of a racer, or an error. */
  datatype Outcome = ConnOf(racer: nat) | Failure(err: Error)

  /** The loop, with the errors received so far; returning, before and after the
      deferred close of the channel returned. */
  datatype Loop =
    | Waiting(primary: Option<Error>, fallback: Option<Error>)
    | Returning(outcome: Outcome)
    | Returned(outcome: Outcome)

  /** The first racer is the primary one. */
  datatype State = State(loop: Loop, timer: Timer, racers: seq<Racer>)

  function Start(delay: nat): State { State(Waiting(None, None), Running(delay), [Dialing]) }

  // ----- steps -----

  ghost predicate TimerFires(s: State, s': State) {
    s.timer.Running? && s' == s.(timer := Fired)
  }

  /** The loop takes the timer's tick and starts a fallback racer. */
  ghost predicate StartFallback(s: State, s': State) {
    s.loop.Waiting? && s.timer == Fired && s' == s.(timer := Drained, racers := s.racers + [Dialing])
  }

  ghost predicate DialEnds(s: State, r: nat, s': State)
    requires r < |s.racers|
  {
    s.racers[r] == Dialing && exists d: Dialed :: s' == s.(racers := s.racers[r := Sending(d)])
  }

  /** The loop after a result. */
  function AfterResult(loop: Loop, r: nat, d: Dialed): Loop
    requires loop.Waiting?
  {
    if d == Conn then Returning(ConnOf(r))
    else
      var next := if r == 0 then loop.(primary := Some(d.err)) else loop.(fallback := Some(d.err));
      if next.primary.Some? && next.fallback.Some? then Returning(Failure(next.primary.value)) else next
  }

  ghost predicate Receive(s: State, r: nat, s': State)
    requires r < |s.racers|
  {
    && s.loop.Waiting? && s.racers[r].Sending?
    && var d := s.racers[r].result;
       s' == Received(s, r, d)
  }

  /** When the primary racer fails and the timer can still be stopped, it is
      set to fire at once. */
  function Received(s: State, r: nat, d: Dialed): State
    requires s.loop.Waiting? && r < |s.racers|
  {
    var loop := AfterResult(s.loop, r, d);
    State(loop, if loop.Waiting? && r == 0 && s.timer.Running? then Running(0) else s.timer, s.racers[r := Sent(d)])
  }

  ghost predicate CloseReturned(s: State, s': State) {
    s.loop.Returning? && s' == s.(loop := Returned(s.loop.outcome))
  }

  /** A racer that finds the call over closes its connection. */
  function Closing(d: Dialed): Racer { Dropped(d, d == Conn) }

  ghost predicate Drop(s: State, r: nat, s': State)
    requires r < |s.racers|
  {
    s.loop.Returned? && s.racers[r].Sending? && s' == s.(racers := s.racers[r := Closing(s.racers[r].result)])
  }

  ghost predicate RacerStep(s: State, r: nat, s': State)
    requires r < |s.racers|
  {
    DialEnds(s, r, s') || Receive(s, r, s') || Drop(s, r, s')
  }

  ghost predicate Next(s: State, s': State) {
    || TimerFires(s, s') || StartFallback(s, s') || CloseReturned(s, s')
    || exists r: nat :: r < |s.racers| && RacerStep(s, r, s')
  }

  ghost predicate IsRun(run: seq<State>) {
    |run| > 0 && (exists delay :: run[0] == Start(delay)) && forall k :: 0 < k < |run| ==> Next(run[k - 1], run[k])
  }

  // ----- invariant -----

  /** The error the loop knows of racer r is the one that racer sent. */
  predicate Heard(err: Option<Error>, racers: seq<Racer>, r: nat) {
    if r < |racers| && racers[r].Sent? && racers[r].result.Failed? then err == Some(racers[r].result.err) else err == None
  }

  ghost predicate Inv(s: State) {
    // at most one fallback racer, started by the timer
    && 1 <= |s.racers| <= 2 && (s.timer == Drained <==> |s.racers| == 2)
    && (forall r :: 0 <= r < |s.racers| && s.racers[r].Dropped? ==>
          s.loop.Returned? && s.racers[r] == Closing(s.racers[r].result))
    && match s.loop {
         case Waiting(primary, fallback) =>
           && Heard(primary, s.racers, 0) && Heard(fallback, s.racers, 1) && !(primary.Some? && fallback.Some?)
           && (primary.Some? && s.timer.Running? ==> s.timer.delay == 0)
           && forall r :: 0 <= r < |s.racers| ==> s.racers[r] != Sent(Conn)
         case Returning(outcome) => Settled(outcome, s.racers)
         case Returned(outcome) => Settled(outcome, s.racers)
       }
  }

  /** The connection that is returned is the only one the loop received; an
      error is the primary racer's, and both have failed. */
  ghost predicate Settled(outcome: Outcome, racers: seq<Racer>) {
    match outcome
    case ConnOf(k) => forall r: nat :: r < |racers| ==> (racers[r] == Sent(Conn) <==> r == k)
    case Failure(err) => |racers| == 2 && racers[0] == Sent(Failed(err)) && racers[1].Sent? && racers[1].result.Failed?
  }

  lemma ReceiveKeepsInv(s: State, r: nat, s': State)
    requires Inv(s) && r < |s.racers| && Receive(s, r, s')
    ensures Inv(s')
  {}

  lemma NextKeepsInv(s: State, s': State)
    requires Inv(s) && Next(s, s')
    ensures Inv(s')
  {
    if !TimerFires(s, s') && !StartFallback(s, s') && !CloseReturned(s, s') {
      var r: nat :| r < |s.racers| && RacerStep(s, r, s');
      if Receive(s, r, s') { ReceiveKeepsInv(s, r, s'); }
    }
  }

  lemma {:induction false} RunInv(run: seq<State>, k: nat)
    requires IsRun(run) && k < |run|
    ensures Inv(run[k])
  {
    if k > 0 {
      RunInv(run, k - 1);
      NextKeepsInv(run[k - 1], run[k]);
    }
  }

  // ----- what dialParallel promises -----

  /** Nothing leaks: when the call has returned and no racer is left running,
      every connection a racer has made is the one returned, or is closed. */
  lemma NothingLeaks(run: seq<State>, k: nat, r: nat)
    requires IsRun(run) && k < |run| && run[k].loop.Returned? && r < |run[k].racers|
    ensures var x := run[k].racers[r];
            match x
            case Dialing => true
            case Sending(_) => exists s' :: Drop(run[k], r, s')
            case Sent(d) => d == Conn <==> run[k].loop.outcome == ConnOf(r)
            case Dropped(d, closed) => run[k].loop.outcome != ConnOf(r) && (closed <==> d == Conn)
  {
    RunInv(run, k);
    var s := run[k];
    if s.racers[r].Sending? {
      assert Drop(s, r, s.(racers := s.racers[r := Closing(s.racers[r].result)]));
    }
  }

  lemma OneFallback(run: seq<State>, k: nat)
    requires IsRun(run) && k < |run|
    ensures |run[k].racers| <= 2
  {
    RunInv(run, k);
  }

  /** An error is returned only after both racers have failed, and it is the
      primary racer's. */
  lemma ErrorIsPrimary(run: seq<State>, k: nat, err: Error)
    requires IsRun(run) && k < |run| && (run[k].loop == Returning(Failure(err)) || run[k].loop == Returned(Failure(err)))
    ensures |run[k].racers| == 2 && run[k].racers[0] == Sent(Failed(err))
    ensures run[k].racers[1].Sent? && run[k].racers[1].result.Failed?
  {
    RunInv(run, k);
  }

  /** After the primary racer has failed, the fallback racer does not wait. */
  lemma FallbackAtOnce(run: seq<State>, k: nat)
    requires IsRun(run) && k < |run| && run[k].loop.Waiting? && run[k].loop.primary.Some?
    ensures |run[k].racers| == 2 || run[k].timer == Fired || run[k].timer == Running(0)
  {
    RunInv(run, k);
  }

  /** A bound on the steps that are left. */
  function RacerRank(x: Racer): nat { match x case Dialing => 2 case Sending(_) => 1 case _ => 0 }

  function RacersRank(racers: seq<Racer>): nat {
    if racers == [] then 0 else RacersRank(racers[..|racers| - 1]) + RacerRank(racers[|racers| - 1])
  }

  function Rank(s: State): nat {
    (match s.loop case Waiting(_, _) => 2 case Returning(_) => 1 case Returned(_) => 0)
    + (match s.timer case Running(_) => 4 case Fired => 3 case Drained => 0)
    + RacersRank(s.racers)
  }

  lemma {:induction false} RankUpdate(racers: seq<Racer>, r: nat, x: Racer)
    requires r < |racers|
    ensures RacersRank(racers[r := x]) == RacersRank(racers) - RacerRank(racers[r]) + RacerRank(x)
  {
    var k := |racers| - 1;
    if r < k {
      RankUpdate(racers[..k], r, x);
      assert racers[r := x][..k] == racers[..k][r := x];
    } else {
      assert racers[r := x][..k] == racers[..k];
    }
  }

  lemma StepsDescend(s: State, s': State)
    requires Next(s, s')
    ensures Rank(s') < Rank(s)
  {
    if StartFallback(s, s') {
      assert s'.racers[..|s.racers|] == s.racers;
    } else if !TimerFires(s, s') && !CloseReturned(s, s') {
      var r: nat :| r < |s.racers| && RacerStep(s, r, s');
      RankUpdate(s.racers, r, s'.racers[r]);
    }
  }

  /** The loop is never stuck: while it waits and no racer is dialing, it can
      take a step of its own, and only finitely many are left. */
  lemma LoopNotStuck(run: seq<State>, k: nat)
    requires IsRun(run) && k < |run| && run[k].loop.Waiting?
    requires forall r :: 0 <= r < |run[k].racers| ==> run[k].racers[r] != Dialing
    ensures exists s' ::
              && (TimerFires(run[k], s') || StartFallback(run[k], s')
                  || exists r: nat :: r < |run[k].racers| && Receive(run[k], r, s'))
              && Rank(s') < Rank(run[k])
  {
    RunInv(run, k);
    var s := run[k];
    if s.racers[0].Sending? {
      CanReceive(s, 0);
    } else if s.timer.Running? {
      StepsDescend(s, s.(timer := Fired));
    } else if s.timer == Fired {
      StepsDescend(s, s.(timer := Drained, racers := s.racers + [Dialing]));
    } else {
      CanReceive(s, 1);
    }
  }

  lemma CanReceive(s: State, r: nat)
    requires s.loop.Waiting? && r < |s.racers| && s.racers[r].Sending?
    ensures exists s' :: Receive(s, r, s') && Rank(s') < Rank(s)
  {
    var d := s.racers[r].result;
    var s' := Received(s, r, d);
    assert Receive(s, r, s') && RacerStep(s, r, s');
    StepsDescend(s, s');
  }
}
