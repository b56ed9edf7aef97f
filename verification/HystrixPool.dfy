/** Any number of hystrix commands on one ticket pool, under every
    interleaving of all their goroutines and callers. */
module HystrixPool {
  import opened Basics
  import opened HystrixCommand

  datatype System = System(pool: Pool, cmds: seq<Command>)

  /** newExecutorPool fills the ticket channel. */
  method NewTickets(max: nat) returns (p: Pool)
    ensures p.max == max == |p.tickets|
    ensures forall t: nat :: multiset(p.tickets)[t] == if t < max then 1 else 0
  {
    var tickets: seq<Ticket> := [];
    for i := 0 to max
      invariant |tickets| == i
      invariant forall t: nat :: multiset(tickets)[t] == if t < i then 1 else 0
    {
      tickets := tickets + [i];
    }
    p := Pool(max, tickets);
  }

  ghost predicate Init(s: System) {
    |s.pool.tickets| == s.pool.max && s.cmds == []
  }

  /** A call of GoC, or a step of a goroutine or of the caller of command i. */
  ghost predicate Next(s: System, s': System) {
    || (exists f: bool :: s' == System(s.pool, s.cmds + [NewCommand(f)]))
    || (exists i: nat, p', c' :: StepAt(s, i, p', c') && s' == System(p', s.cmds[i := c']))
  }

  ghost predicate StepAt(s: System, i: nat, p': Pool, c': Command) {
    i < |s.cmds| && CommandStep(s.pool, s.cmds[i], p', c')
  }

  ghost predicate IsRun(run: seq<System>) {
    && |run| > 0 && Init(run[0])
    && forall k :: 0 < k < |run| ==> Next(run[k - 1], run[k])
  }

  // ----- conservation of tickets -----

  /** The ticket a command has taken and not yet given back. */
  function Held(c: Command): multiset<Ticket> {
    if c.ticket.Some? && c.returned == 0 then multiset{c.ticket.value} else multiset{}
  }

  function Sum(ms: seq<multiset<Ticket>>): multiset<Ticket> {
    if ms == [] then multiset{} else ms[0] + Sum(ms[1..])
  }

  function HeldByAll(cmds: seq<Command>): multiset<Ticket> {
    Sum(seq(|cmds|, i requires 0 <= i < |cmds| => Held(cmds[i])))
  }

  lemma {:induction false} SumUpdate(ms: seq<multiset<Ticket>>, i: nat, m: multiset<Ticket>)
    requires i < |ms|
    ensures Sum(ms[i := m]) + ms[i] == Sum(ms) + m && ms[i] <= Sum(ms)
  {
    var ms' := ms[i := m];
    assert Sum(ms') == ms'[0] + Sum(ms'[1..]);
    if i > 0 {
      SumUpdate(ms[1..], i - 1, m);
      assert ms'[1..] == ms[1..][i - 1 := m];
      Exchange(Sum(ms[1..]), Sum(ms'[1..]), ms[i], m, ms[0]);
    } else {
      assert ms'[1..] == ms[1..];
    }
  }

  lemma Exchange(a: multiset<Ticket>, b: multiset<Ticket>, x: multiset<Ticket>, y: multiset<Ticket>, z: multiset<Ticket>)
    requires b + x == a + y
    ensures (z + b) + x == (z + a) + y
  {
    assert (z + b) + x == z + (b + x) && (z + a) + y == z + (a + y);
  }

  /** What the channel gained is what the holders lost. */
  lemma Balance(a: multiset<Ticket>, b: multiset<Ticket>, a': multiset<Ticket>, b': multiset<Ticket>,
                h: multiset<Ticket>, h': multiset<Ticket>)
    requires a' + h' == a + h && b' + h == b + h'
    ensures a' + b' == a + b
  {
    forall t: Ticket
      ensures (a' + b')[t] == (a + b)[t]
    {
      assert (a' + h')[t] == (a + h)[t] && (b' + h)[t] == (b + h')[t];
    }
  }

  lemma {:induction false} SumAppend(ms: seq<multiset<Ticket>>, m: multiset<Ticket>)
    ensures Sum(ms + [m]) == Sum(ms) + m
  {
    if ms == [] {
      assert ms + [m] == [m];
    } else {
      SumAppend(ms[1..], m);
      assert (ms + [m])[1..] == ms[1..] + [m];
    }
  }

  lemma HeldUpdate(cmds: seq<Command>, i: nat, c: Command)
    requires i < |cmds|
    ensures HeldByAll(cmds[i := c]) + Held(cmds[i]) == HeldByAll(cmds) + Held(c)
    ensures Held(cmds[i]) <= HeldByAll(cmds)
  {
    hide Held;
    var ms := seq(|cmds|, j requires 0 <= j < |cmds| => Held(cmds[j]));
    SumUpdate(ms, i, Held(c));
    var cmds' := cmds[i := c];
    assert seq(|cmds'|, j requires 0 <= j < |cmds'| => Held(cmds'[j])) == ms[i := Held(c)];
  }

  lemma HeldAppend(cmds: seq<Command>, c: Command)
    ensures HeldByAll(cmds + [c]) == HeldByAll(cmds) + Held(c)
  {
    hide Held;
    var ms := seq(|cmds|, j requires 0 <= j < |cmds| => Held(cmds[j]));
    SumAppend(ms, Held(c));
    var cmds' := cmds + [c];
    assert seq(|cmds'|, j requires 0 <= j < |cmds'| => Held(cmds'[j])) == ms + [Held(c)];
  }

  /** One step moves a ticket between the channel and the command, or nothing. */
  lemma StepConserves(p: Pool, c: Command, p': Pool, c': Command)
    requires Valid(c) && CommandStep(p, c, p', c')
    ensures p'.max == p.max
    ensures multiset(p'.tickets) + Held(c') == multiset(p.tickets) + Held(c)
  {
    hide Valid;
    if RunnerStep(p, c, p', c') {
      RunnerConserves(p, c, p', c');
    } else if WatcherStep(p, c, p', c') {
      WatcherConserves(p, c, p', c');
    }
  }

  lemma BodyConserves(p: Pool, c: Command, w: Who, d: Body, p': Pool, c': Command, d': Body)
    requires BodyStep(p, c, w, d, p', c', d')
    requires d.RetPut? && c.ticket.Some? ==> c.returned == 0
    ensures p'.max == p.max
    ensures multiset(p'.tickets) + Held(c') == multiset(p.tickets) + Held(c)
  {}

  lemma PutOnce(c: Command)
    requires Valid(c)
    ensures c.runner.RunnerDo? && c.runner.d.RetPut? ==> c.returned == 0
    ensures c.watcher.WatcherDo? && c.watcher.d.RetPut? ==> c.returned == 0
    ensures c.runner == Take ==> c.ticket == None && c.returned == 0
  {}

  lemma TakeConserves(p: Pool, c: Command, p': Pool, c': Command)
    requires c.ticket == None && c.returned == 0 && c.runner == Take && RunnerStep(p, c, p', c')
    ensures p'.max == p.max
    ensures multiset(p'.tickets) + Held(c') == multiset(p.tickets) + Held(c)
  {
    if p.tickets != [] {
      assert p.tickets == [p.tickets[0]] + p.tickets[1..];
    }
  }

  lemma OtherRunnerSteps(p: Pool, c: Command, p': Pool, c': Command)
    requires c.runner != Take && (c.runner.RunnerDo? ==> c.runner.d == Publish) && RunnerStep(p, c, p', c')
    ensures p' == p && c'.ticket == c.ticket && c'.returned == c.returned
  {}

  lemma OtherWatcherSteps(p: Pool, c: Command, p': Pool, c': Command)
    requires (c.watcher.WatcherDo? ==> c.watcher.d == Publish) && WatcherStep(p, c, p', c')
    ensures p' == p && c'.ticket == c.ticket && c'.returned == c.returned
  {}

  lemma RunnerConserves(p: Pool, c: Command, p': Pool, c': Command)
    requires Valid(c) && RunnerStep(p, c, p', c')
    ensures p'.max == p.max
    ensures multiset(p'.tickets) + Held(c') == multiset(p.tickets) + Held(c)
  {
    hide Valid, BodyStep;
    PutOnce(c);
    if c.runner == Take {
      TakeConserves(p, c, p', c');
    } else if c.runner.RunnerDo? && c.runner.d != Publish {
      var c1, d' :| BodyStep(p, c, Runner, c.runner.d, p', c1, d') && c' == c1.(runner := RunnerDo(d'));
      BodyConserves(p, c, Runner, c.runner.d, p', c1, d');
    } else {
      OtherRunnerSteps(p, c, p', c');
    }
  }

  lemma WatcherConserves(p: Pool, c: Command, p': Pool, c': Command)
    requires Valid(c) && WatcherStep(p, c, p', c')
    ensures p'.max == p.max
    ensures multiset(p'.tickets) + Held(c') == multiset(p.tickets) + Held(c)
  {
    hide Valid, BodyStep;
    PutOnce(c);
    if c.watcher.WatcherDo? && c.watcher.d != Publish {
      var c1, d' :| BodyStep(p, c, Watcher, c.watcher.d, p', c1, d') && c' == c1.(watcher := WatcherDo(d'));
      BodyConserves(p, c, Watcher, c.watcher.d, p', c1, d');
    } else {
      OtherWatcherSteps(p, c, p', c');
    }
  }

  // ----- the invariant of the system -----

  ghost predicate Inv(s: System, all: multiset<Ticket>) {
    && (forall i :: 0 <= i < |s.cmds| ==> Valid(s.cmds[i]) && Caused(s.cmds[i]) && Fell(s.cmds[i]))
    && multiset(s.pool.tickets) + HeldByAll(s.cmds) == all
    && |all| == s.pool.max
  }

  lemma NothingHeld(f: bool)
    ensures Held(NewCommand(f)) == multiset{}
  {}

  lemma NextKeepsInv(s: System, s': System, all: multiset<Ticket>)
    requires Inv(s, all) && Next(s, s')
    ensures Inv(s', all) && s'.pool.max == s.pool.max
  {
    hide Valid, Caused, Fell, CommandStep, Held, HeldByAll;
    if f: bool :| s' == System(s.pool, s.cmds + [NewCommand(f)]) {
      NewCommandValid(f);
      NewCommandCaused(f);
      assert Held(NewCommand(f)) == multiset{} by { NothingHeld(f); }
      HeldAppend(s.cmds, NewCommand(f));
    } else {
      var i: nat, p', c' :| StepAt(s, i, p', c') && s' == System(p', s.cmds[i := c']);
      StepValid(s.pool, s.cmds[i], p', c');
      StepCaused(s.pool, s.cmds[i], p', c');
      StepFell(s.pool, s.cmds[i], p', c');
      StepConserves(s.pool, s.cmds[i], p', c');
      HeldUpdate(s.cmds, i, c');
      Balance(multiset(s.pool.tickets), HeldByAll(s.cmds), multiset(p'.tickets), HeldByAll(s'.cmds),
              Held(s.cmds[i]), Held(c'));
    }
  }

  lemma {:induction false} RunInv(run: seq<System>, k: nat)
    requires IsRun(run) && k < |run|
    ensures Inv(run[k], multiset(run[0].pool.tickets)) && run[k].pool.max == run[0].pool.max
  {
    if k == 0 {
      assert HeldByAll(run[0].cmds) == multiset{};
    } else {
      RunInv(run, k - 1);
      hide Inv, Next;
      NextKeepsInv(run[k - 1], run[k], multiset(run[0].pool.tickets));
    }
  }

  /** In every run, the tickets in the channel and the tickets held by commands
      are together the tickets the pool was filled with. */
  lemma TicketsConserved(run: seq<System>, k: nat)
    requires IsRun(run) && k < |run|
    ensures multiset(run[k].pool.tickets) + HeldByAll(run[k].cmds) == multiset(run[0].pool.tickets)
    ensures |run[k].pool.tickets| + |HeldByAll(run[k].cmds)| == run[0].pool.max
  {
    RunInv(run, k);
    assert |multiset(run[k].pool.tickets) + HeldByAll(run[k].cmds)| == |multiset(run[k].pool.tickets)| + |HeldByAll(run[k].cmds)|;
  }

  /** In every run, a command that holds a ticket finds room for it: no Return
      blocks on the ticket channel. */
  lemma ReturnNeverBlocks(run: seq<System>, k: nat, i: nat)
    requires IsRun(run) && k < |run| && i < |run[k].cmds|
    ensures var c, p := run[k].cmds[i], run[k].pool;
            c.ticket.Some? && c.returned == 0 ==> |p.tickets| < p.max
  {
    TicketsConserved(run, k);
    RunInv(run, k);
    var c := run[k].cmds[i];
    HeldUpdate(run[k].cmds, i, c);
    if c.ticket.Some? && c.returned == 0 {
      assert |Held(c)| == 1;
      assert HeldByAll(run[k].cmds) == Held(c) + (HeldByAll(run[k].cmds) - Held(c));
    }
  }

  /** In every run: a ticket goes back at most once; no error is sent, or can
      be seen by the caller, before it has; the error channel never holds more
      than one error; and the outcome is published at most once. */
  lemma ReturnedBeforeError(run: seq<System>, k: nat, i: nat)
    requires IsRun(run) && k < |run| && i < |run[k].cmds|
    ensures var c := run[k].cmds[i];
            && c.returned <= 1 && c.sent <= 1 && c.published <= 1 && c.errors <= c.sent
            && (c.sent == 1 && c.ticket.Some? ==> c.returned == 1)
            && (c.returned == 1 ==> c.ticket.Some?)
  {
    RunInv(run, k);
    assert Valid(run[k].cmds[i]);
  }

  /** In every run, a command whose goroutines have ended has given its ticket
      back, and has settled and published its outcome exactly once. */
  lemma EndedIsSettled(run: seq<System>, k: nat, i: nat)
    requires IsRun(run) && k < |run| && i < |run[k].cmds| && Ended(run[k].cmds[i])
    ensures var c := run[k].cmds[i];
            && c.published == 1 && Settled(c) && Held(c) == multiset{}
            && (c.ticket.Some? <==> c.returned == 1)
  {
    RunInv(run, k);
    assert Valid(run[k].cmds[i]);
  }

  /** In every run, the outcome of an ended command says what happened to it:
      whether AllowRequest refused it, whether it found a ticket, how the function
      returned, or which signal overtook it; the event of the fallback says how
      the fallback returned; and the caller is sent an error exactly if neither
      succeeded, with that reason. */
  lemma OutcomeHasItsCause(run: seq<System>, k: nat, i: nat)
    requires IsRun(run) && k < |run| && i < |run[k].cmds| && Ended(run[k].cmds[i])
    ensures var c := run[k].cmds[i];
            && c.events != [] && c.events[0].Outcome? && c.decided.Some?
            && var r, byRunner := c.events[0].reason, c.decided == Some(Runner);
               && (r == CircuitOpen <==> byRunner && c.allowed == Some(false))
               && (r == MaxConcurrency <==> byRunner && c.allowed == Some(true) && c.ticket == None)
               && (r == RunSucceeded <==> byRunner && c.ticket.Some? && c.ran == Some(true))
               && (r == RunFailed <==> byRunner && c.ticket.Some? && c.ran == Some(false))
               && (r == ContextDone <==> !byRunner && c.fired == Some(ContextSignal))
               && (r == Timeout <==> !byRunner && c.fired == Some(TimerSignal))
    ensures var c := run[k].cmds[i];
            && (|c.events| > 1 <==> c.fell.Some?)
            && (|c.events| > 1 ==> c.events[1] == if c.fell == Some(true) then FallbackSuccess else FallbackFailure)
    ensures var c := run[k].cmds[i];
            c.message == if c.events[0].reason == RunSucceeded || c.fell == Some(true) then None
                         else if c.hasFallback then Some(FallbackFailed(c.events[0].reason))
                         else Some(Plain(c.events[0].reason))
  {
    EndedIsSettled(run, k, i);
    var c := run[k].cmds[i];
    assert Caused(c) && Fell(c) by { RunInv(run, k); }
    hide IsRun;
    WhoIs(c.decided.value);
  }

  /** In every run, a command that has not ended can step on its own, and
      every such step brings it nearer to its end. */
  lemma Progress(run: seq<System>, k: nat, i: nat) returns (s': System)
    requires IsRun(run) && k < |run| && i < |run[k].cmds| && !Ended(run[k].cmds[i])
    ensures Next(run[k], s') && |s'.cmds| == |run[k].cmds|
    ensures Rank(s'.cmds[i]) < Rank(run[k].cmds[i])
    ensures forall j :: 0 <= j < |s'.cmds| && j != i ==> s'.cmds[j] == run[k].cmds[j]
  {
    var s := run[k];
    RunInv(run, k);
    ReturnNeverBlocks(run, k, i);
    assert Valid(s.cmds[i]);
    hide Valid, RunnerStep, WatcherStep, Rank, Ended, HeldByAll;
    var p', c' := CommandCanStep(s.pool, s.cmds[i]);
    if RunnerStep(s.pool, s.cmds[i], p', c') {
      RunnerStepDescends(s.pool, s.cmds[i], p', c');
    } else {
      WatcherStepDescends(s.pool, s.cmds[i], p', c');
    }
    s' := System(p', s.cmds[i := c']);
    assert StepAt(s, i, p', c');
  }
}
