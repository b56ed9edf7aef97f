/** hystrix-go/hystrix/hystrix.go and pool.go: one command and the ticket pool
    it shares, as a step relation over the two goroutines that GoC starts. */
module HystrixCommand {
  import opened Basics

  type Ticket = nat

  /** executorPool: a buffered channel of tickets. */
  datatype Pool = Pool(max: nat, tickets: seq<Ticket>)

  /** Why the outcome of a command is being decided. */
  datatype Reason = CircuitOpen | MaxConcurrency | RunFailed | RunSucceeded | ContextDone | Timeout

  /** The error a caller is sent: its own reason, or that the fallback failed. */
  datatype Message = Plain(reason: Reason) | FallbackFailed(reason: Reason)

  datatype Event = Outcome(reason: Reason) | FallbackSuccess | FallbackFailure

  /** The two goroutines: the one that runs the function, and the one that
      watches its context and its timer. */
  datatype Who = Runner | Watcher

  datatype Lock = Free | HeldBy(who: Who)

  datatype Once = Idle | Running(who: Who) | Done

  /** Inside returnOnce.Do: returnTicket, then the events and the fallback. */
  datatype Body =
    | RetLock(r: Reason)        // about to lock the command
    | RetCheck(r: Reason)       // lock held, testing ticketChecked
    | RetWait(r: Reason)        // in ticketCond.Wait, lock released
    | RetPut(r: Reason)         // lock held, about to put the ticket back
    | RetUnlock(r: Reason)
    | Report(r: Reason)         // about to append the outcome event
    | Fallback(r: Reason)       // about to call the fallback, if there is one
    | ReportFallback(r: Reason, ok: bool)  // about to append the fallback event
    | Send(m: Message)          // about to send the error
    | Publish                   // about to call reportAllEvent

  datatype RunnerPc =
    | Allow                     // about to call AllowRequest
    | DenyLock | Deny           // marking the ticket checked without one
    | TakeLock | Take           // selecting on the ticket channel
    | Mark(got: bool)           // marking the ticket checked
    | Run                       // inside the user's function
    | RunnerOnce(r: Reason)
    | RunnerDo(d: Body)
    | Finish                    // deferred send on finished
    | RunnerEnd

  datatype WatcherPc = Select | WatcherOnce(r: Reason) | WatcherDo(d: Body) | WatcherEnd

  /** What the watcher may see first. */
  datatype Signal = ContextSignal | TimerSignal

  /** A command.  The fields from returned on are history: how often the ticket
      was returned, an error was sent, and the events were published; what
      AllowRequest answered, whether the function returned without error, which
      signal the watcher saw, whether the fallback returned without error, which
      goroutine got into returnOnce.Do, and the error that was sent. */
  datatype Command = Command(
    hasFallback: bool, runner: RunnerPc, watcher: WatcherPc,
    lock: Lock, checked: bool, wake: bool, ticket: Option<Ticket>, once: Once,
    finished: nat, errors: nat, events: seq<Event>,
    returned: nat, sent: nat, published: nat,
    allowed: Option<bool>, ran: Option<bool>, fired: Option<Signal>, fell: Option<bool>, decided: Option<Who>, message: Option<Message>)

  function NewCommand(hasFallback: bool): Command {
    Command(hasFallback, Allow, Select, Free, false, false, None, Idle, 0, 0, [], 0, 0, 0,
            None, None, None, None, None, None)
  }

  // ----- steps -----

  /** One step of the body of returnOnce.Do by w, up to the publication. */
  ghost predicate BodyStep(p: Pool, c: Command, w: Who, d: Body, p': Pool, c': Command, d': Body) {
    match d
    case RetLock(r) => c.lock == Free && p' == p && c' == c.(lock := HeldBy(w)) && d' == RetCheck(r)
    case RetCheck(r) =>
      p' == p &&
      if c.checked then c' == c && d' == RetPut(r) else c' == c.(lock := Free) && d' == RetWait(r)
    case RetWait(r) => c.wake && p' == p && c' == c.(wake := false) && d' == RetLock(r)
    case RetPut(r) =>
      && d' == RetUnlock(r)
      && (match c.ticket
          case None => p' == p && c' == c
          case Some(t) => |p.tickets| < p.max && p' == p.(tickets := p.tickets + [t])
                          && c' == c.(returned := c.returned + 1))
    case RetUnlock(r) => p' == p && c' == c.(lock := Free) && d' == Report(r)
    case Report(r) =>
      && c.lock == Free && p' == p && c' == c.(events := c.events + [Outcome(r)])
      && d' == (if r == RunSucceeded then Publish else Fallback(r))
    case Fallback(r) =>
      p' == p &&
      if c.hasFallback then d'.ReportFallback? && d'.r == r && c' == c.(fell := Some(d'.ok))
      else c' == c && d' == Send(Plain(r))
    case ReportFallback(r, ok) =>
      && c.lock == Free && p' == p
      && c' == c.(events := c.events + [if ok then FallbackSuccess else FallbackFailure])
      && d' == (if ok then Publish else Send(FallbackFailed(r)))
    case Send(m) =>
      && c.errors < 1 && p' == p && d' == Publish
      && c' == c.(errors := c.errors + 1, sent := c.sent + 1, message := Some(m))
    case Publish => false
  }

  ghost predicate RunnerStep(p: Pool, c: Command, p': Pool, c': Command) {
    match c.runner
    case Allow =>
      p' == p && (c' == c.(runner := DenyLock, allowed := Some(false)) || c' == c.(runner := TakeLock, allowed := Some(true)))
    case DenyLock => c.lock == Free && p' == p && c' == c.(lock := HeldBy(Runner), runner := Deny)
    case Deny => p' == p && c' == Marked(c).(runner := RunnerOnce(CircuitOpen))
    case TakeLock => c.lock == Free && p' == p && c' == c.(lock := HeldBy(Runner), runner := Take)
    case Take =>
      if p.tickets != []
      then p' == p.(tickets := p.tickets[1..]) && c' == c.(ticket := Some(p.tickets[0]), runner := Mark(true))
      else p' == p && c' == c.(runner := Mark(false))
    case Mark(got) => p' == p && c' == Marked(c).(runner := if got then Run else RunnerOnce(MaxConcurrency))
    case Run =>
      && p' == p
      && (c' == c.(runner := RunnerOnce(RunSucceeded), ran := Some(true))
          || c' == c.(runner := RunnerOnce(RunFailed), ran := Some(false)))
    case RunnerOnce(r) =>
      p' == p &&
      (match c.once
       case Idle => c' == c.(once := Running(Runner), decided := Some(Runner), runner := RunnerDo(RetLock(r)))
       case Running(_) => false
       case Done => c' == c.(runner := Finish))
    case RunnerDo(d) =>
      if d == Publish
      then p' == p && c' == c.(published := c.published + 1, once := Done, runner := Finish)
      else exists c1, d' :: BodyStep(p, c, Runner, d, p', c1, d') && c' == c1.(runner := RunnerDo(d'))
    case Finish => c.finished < 1 && p' == p && c' == c.(finished := c.finished + 1, runner := RunnerEnd)
    case RunnerEnd => false
  }

  /** ticketChecked, the signal to a waiting goroutine, and the unlock. */
  function Marked(c: Command): Command {
    c.(checked := true, lock := Free, wake := c.watcher.WatcherDo? && c.watcher.d.RetWait?)
  }

  ghost predicate WatcherStep(p: Pool, c: Command, p': Pool, c': Command) {
    match c.watcher
    case Select =>
      p' == p &&
      ((c.finished > 0 && c' == c.(finished := c.finished - 1, watcher := WatcherEnd))
       || c' == c.(watcher := WatcherOnce(ContextDone), fired := Some(ContextSignal))
       || c' == c.(watcher := WatcherOnce(Timeout), fired := Some(TimerSignal)))
    case WatcherOnce(r) =>
      p' == p &&
      (match c.once
       case Idle => c' == c.(once := Running(Watcher), decided := Some(Watcher), watcher := WatcherDo(RetLock(r)))
       case Running(_) => false
       case Done => c' == c.(watcher := WatcherEnd))
    case WatcherDo(d) =>
      if d == Publish
      then p' == p && c' == c.(published := c.published + 1, once := Done, watcher := WatcherEnd)
      else exists c1, d' :: BodyStep(p, c, Watcher, d, p', c1, d') && c' == c1.(watcher := WatcherDo(d'))
    case WatcherEnd => false
  }

  /** The caller takes the error from the channel GoC returned. */
  ghost predicate CallerStep(p: Pool, c: Command, p': Pool, c': Command) {
    c.errors > 0 && p' == p && c' == c.(errors := c.errors - 1)
  }

  ghost predicate CommandStep(p: Pool, c: Command, p': Pool, c': Command) {
    RunnerStep(p, c, p', c') || WatcherStep(p, c, p', c') || CallerStep(p, c, p', c')
  }

  // ----- the invariant of one command -----

  /** How far the body of returnOnce.Do has come. */
  predicate HoldsLock(d: Body) { d.RetCheck? || d.RetPut? || d.RetUnlock? }

  predicate PutBack(d: Body) { !(d.RetLock? || d.RetCheck? || d.RetWait? || d.RetPut?) }

  predicate RunnerLocked(a: RunnerPc) {
    a == Deny || a == Take || a.Mark? || (a.RunnerDo? && HoldsLock(a.d))
  }

  predicate Checked(a: RunnerPc) {
    a == Run || a.RunnerOnce? || a.RunnerDo? || a == Finish || a == RunnerEnd
  }

  /** The body in progress, if any. */
  function Active(c: Command): Option<Body> {
    if c.runner.RunnerDo? then Some(c.runner.d)
    else if c.watcher.WatcherDo? then Some(c.watcher.d)
    else None
  }

  predicate Returned(c: Command) {
    c.once == Done || (Active(c).Some? && PutBack(Active(c).value))
  }

  /** The outcome is settled once: one outcome event, at most one fallback
      event, and an error sent exactly when neither the run nor the fallback
      succeeded. */
  predicate Settled(c: Command) {
    && |c.events| > 0 && c.events[0].Outcome?
    && var r := c.events[0].reason;
       if r == RunSucceeded then c.events == [Outcome(r)] && c.sent == 0
       else if !c.hasFallback then c.events == [Outcome(r)] && c.sent == 1
       else
         || (c.events == [Outcome(r), FallbackSuccess] && c.sent == 0)
         || (c.events == [Outcome(r), FallbackFailure] && c.sent == 1)
  }

  predicate EventsSoFar(c: Command) {
    match Active(c)
    case None => if c.once == Done then Settled(c) else c.events == [] && c.sent == 0
    case Some(d) =>
      match d
      case Fallback(r) => c.events == [Outcome(r)] && c.sent == 0 && r != RunSucceeded
      case ReportFallback(_, _) =>
        && c.hasFallback && c.sent == 0 && |c.events| == 1
        && c.events[0].Outcome? && c.events[0].reason != RunSucceeded
      case Send(_) => Settled(c.(sent := c.sent + 1)) && c.sent == 0
      case Publish => Settled(c)
      case _ => c.events == [] && c.sent == 0
  }

  predicate Valid(c: Command) {
    // the mutex
    && (c.lock == HeldBy(Runner) <==> RunnerLocked(c.runner))
    && (c.lock == HeldBy(Watcher) <==> c.watcher.WatcherDo? && HoldsLock(c.watcher.d))
    // the ticket, and the condition variable
    && (c.checked <==> Checked(c.runner))
    && (c.ticket.Some? ==> Checked(c.runner) || c.runner == Mark(true))
    && (c.runner.Mark? ==> c.runner.got == c.ticket.Some?)
    && (c.runner == Run ==> c.ticket.Some?)
    && !(c.runner.RunnerDo? && c.runner.d.RetWait?)
    && (c.wake ==> c.checked && c.watcher.WatcherDo? && c.watcher.d.RetWait?)
    && (c.watcher.WatcherDo? && c.watcher.d.RetWait? && c.checked ==> c.wake)
    && (c.watcher.WatcherDo? && c.watcher.d.RetPut? ==> c.checked)
    && (Returned(c) ==> c.checked)
    && c.returned == (if c.ticket.Some? && Returned(c) then 1 else 0)
    // the once
    && (c.once == Running(Runner) <==> c.runner.RunnerDo?)
    && (c.once == Running(Watcher) <==> c.watcher.WatcherDo?)
    && ((c.runner == Finish || c.runner == RunnerEnd) ==> c.once == Done)
    && (c.watcher == WatcherEnd ==> c.once == Done)
    && c.published == (if c.once == Done then 1 else 0)
    // the channels
    && c.finished <= 1 && (c.finished == 1 ==> c.runner == RunnerEnd)
    && c.errors <= c.sent
    && EventsSoFar(c)
  }

  lemma NewCommandValid(hasFallback: bool)
    ensures Valid(NewCommand(hasFallback))
  {}

  lemma RunnerReturnValid(p: Pool, c: Command, d: Body, p': Pool, c': Command, d': Body)
    requires Valid(c) && c.runner == RunnerDo(d) && BodyStep(p, c, Runner, d, p', c', d')
    requires !PutBack(d)
    ensures Valid(c'.(runner := RunnerDo(d')))
  {}

  lemma RunnerUnlockValid(p: Pool, c: Command, d: Body, p': Pool, c': Command, d': Body)
    requires Valid(c) && c.runner == RunnerDo(d) && BodyStep(p, c, Runner, d, p', c', d')
    requires d.RetUnlock? || d.Report?
    ensures Valid(c'.(runner := RunnerDo(d')))
  {}

  lemma RunnerSettleValid(p: Pool, c: Command, d: Body, p': Pool, c': Command, d': Body)
    requires Valid(c) && c.runner == RunnerDo(d) && BodyStep(p, c, Runner, d, p', c', d')
    requires PutBack(d) && !d.RetUnlock? && !d.Report?
    ensures Valid(c'.(runner := RunnerDo(d')))
  {}

  lemma RunnerBodyValid(p: Pool, c: Command, d: Body, p': Pool, c': Command, d': Body)
    requires Valid(c) && c.runner == RunnerDo(d) && BodyStep(p, c, Runner, d, p', c', d')
    ensures Valid(c'.(runner := RunnerDo(d')))
  {
    hide Valid, BodyStep;
    if !PutBack(d) {
      RunnerReturnValid(p, c, d, p', c', d');
    } else if d.RetUnlock? || d.Report? {
      RunnerUnlockValid(p, c, d, p', c', d');
    } else {
      RunnerSettleValid(p, c, d, p', c', d');
    }
  }

  lemma WatcherReturnValid(p: Pool, c: Command, d: Body, p': Pool, c': Command, d': Body)
    requires Valid(c) && c.watcher == WatcherDo(d) && BodyStep(p, c, Watcher, d, p', c', d')
    requires !PutBack(d)
    ensures Valid(c'.(watcher := WatcherDo(d')))
  {}

  lemma WatcherUnlockValid(p: Pool, c: Command, d: Body, p': Pool, c': Command, d': Body)
    requires Valid(c) && c.watcher == WatcherDo(d) && BodyStep(p, c, Watcher, d, p', c', d')
    requires d.RetUnlock? || d.Report?
    ensures Valid(c'.(watcher := WatcherDo(d')))
  {}

  lemma WatcherSettleValid(p: Pool, c: Command, d: Body, p': Pool, c': Command, d': Body)
    requires Valid(c) && c.watcher == WatcherDo(d) && BodyStep(p, c, Watcher, d, p', c', d')
    requires PutBack(d) && !d.RetUnlock? && !d.Report?
    ensures Valid(c'.(watcher := WatcherDo(d')))
  {}

  lemma WatcherBodyValid(p: Pool, c: Command, d: Body, p': Pool, c': Command, d': Body)
    requires Valid(c) && c.watcher == WatcherDo(d) && BodyStep(p, c, Watcher, d, p', c', d')
    ensures Valid(c'.(watcher := WatcherDo(d')))
  {
    hide Valid, BodyStep;
    if !PutBack(d) {
      WatcherReturnValid(p, c, d, p', c', d');
    } else if d.RetUnlock? || d.Report? {
      WatcherUnlockValid(p, c, d, p', c', d');
    } else {
      WatcherSettleValid(p, c, d, p', c', d');
    }
  }

  lemma AskPhaseValid(p: Pool, c: Command, p': Pool, c': Command)
    requires Valid(c) && RunnerStep(p, c, p', c') && (c.runner == Allow || c.runner == DenyLock || c.runner == Deny)
    ensures Valid(c')
  {
    hide BodyStep, Settled;
  }

  lemma TicketPhaseValid(p: Pool, c: Command, p': Pool, c': Command)
    requires Valid(c) && RunnerStep(p, c, p', c') && (c.runner == TakeLock || c.runner == Take || c.runner.Mark?)
    ensures Valid(c')
  {
    hide BodyStep, Settled;
  }

  lemma RunPhaseValid(p: Pool, c: Command, p': Pool, c': Command)
    requires Valid(c) && RunnerStep(p, c, p', c') && c.runner == Run
    ensures Valid(c')
  {
    hide BodyStep;
  }

  lemma OncePhaseValid(p: Pool, c: Command, p': Pool, c': Command)
    requires Valid(c) && RunnerStep(p, c, p', c') && c.runner.RunnerOnce?
    ensures Valid(c')
  {
    hide BodyStep;
  }

  lemma FinishPhaseValid(p: Pool, c: Command, p': Pool, c': Command)
    requires Valid(c) && RunnerStep(p, c, p', c') && (c.runner == RunnerDo(Publish) || c.runner == Finish)
    ensures Valid(c')
  {}

  lemma RunnerStepValid(p: Pool, c: Command, p': Pool, c': Command)
    requires Valid(c) && RunnerStep(p, c, p', c')
    ensures Valid(c')
  {
    hide Valid, BodyStep;
    if c.runner == Allow || c.runner == DenyLock || c.runner == Deny {
      AskPhaseValid(p, c, p', c');
    } else if c.runner == TakeLock || c.runner == Take || c.runner.Mark? {
      TicketPhaseValid(p, c, p', c');
    } else if c.runner.RunnerDo? && c.runner.d != Publish {
      var d := c.runner.d;
      var c1, d' :| BodyStep(p, c, Runner, d, p', c1, d') && c' == c1.(runner := RunnerDo(d'));
      RunnerBodyValid(p, c, d, p', c1, d');
    } else if c.runner == Run {
      RunPhaseValid(p, c, p', c');
    } else if c.runner.RunnerOnce? {
      OncePhaseValid(p, c, p', c');
    } else {
      FinishPhaseValid(p, c, p', c');
    }
  }

  lemma WatcherSelectValid(p: Pool, c: Command, p': Pool, c': Command)
    requires Valid(c) && WatcherStep(p, c, p', c') && c.watcher == Select
    ensures Valid(c')
  {
    hide BodyStep;
  }

  lemma WatcherOnceValid(p: Pool, c: Command, p': Pool, c': Command)
    requires Valid(c) && WatcherStep(p, c, p', c') && c.watcher.WatcherOnce?
    ensures Valid(c')
  {
    hide BodyStep;
  }

  lemma WatcherPublishValid(p: Pool, c: Command, p': Pool, c': Command)
    requires Valid(c) && WatcherStep(p, c, p', c') && c.watcher == WatcherDo(Publish)
    ensures Valid(c')
  {}

  lemma WatcherStepValid(p: Pool, c: Command, p': Pool, c': Command)
    requires Valid(c) && WatcherStep(p, c, p', c')
    ensures Valid(c')
  {
    hide Valid, BodyStep;
    if c.watcher == Select {
      WatcherSelectValid(p, c, p', c');
    } else if c.watcher.WatcherOnce? {
      WatcherOnceValid(p, c, p', c');
    } else if c.watcher.d == Publish {
      WatcherPublishValid(p, c, p', c');
    } else {
      var d := c.watcher.d;
      var c1, d' :| BodyStep(p, c, Watcher, d, p', c1, d') && c' == c1.(watcher := WatcherDo(d'));
      WatcherBodyValid(p, c, d, p', c1, d');
    }
  }

  /** Every step of a command keeps its invariant. */
  lemma StepValid(p: Pool, c: Command, p': Pool, c': Command)
    requires Valid(c) && CommandStep(p, c, p', c')
    ensures Valid(c')
  {
    hide RunnerStep, WatcherStep;
    if RunnerStep(p, c, p', c') {
      RunnerStepValid(p, c, p', c');
    } else if WatcherStep(p, c, p', c') {
      WatcherStepValid(p, c, p', c');
    }
  }

  // ----- why an outcome was decided -----

  /** What has to have happened for goroutine w to decide on r. */
  predicate Cause(c: Command, w: Who, r: Reason) {
    match r
    case CircuitOpen => w == Runner && c.allowed == Some(false) && c.ticket == None && c.ran == None
    case MaxConcurrency => w == Runner && c.allowed == Some(true) && c.ticket == None && c.ran == None
    case RunSucceeded => w == Runner && c.allowed == Some(true) && c.ticket.Some? && c.ran == Some(true)
    case RunFailed => w == Runner && c.allowed == Some(true) && c.ticket.Some? && c.ran == Some(false)
    case ContextDone => w == Watcher && c.fired == Some(ContextSignal)
    case Timeout => w == Watcher && c.fired == Some(TimerSignal)
  }

  function ReasonOf(d: Body): Option<Reason> {
    match d
    case RetLock(r) => Some(r)
    case RetCheck(r) => Some(r)
    case RetWait(r) => Some(r)
    case RetPut(r) => Some(r)
    case RetUnlock(r) => Some(r)
    case Report(r) => Some(r)
    case Fallback(r) => Some(r)
    case _ => None
  }

  /** The runner, on its way to a decision. */
  predicate RunnerCaused(c: Command) {
    match c.runner
    case Allow => c.allowed == None && c.ticket == None && c.ran == None
    case DenyLock => c.allowed == Some(false) && c.ticket == None && c.ran == None
    case Deny => c.allowed == Some(false) && c.ticket == None && c.ran == None
    case TakeLock => c.allowed == Some(true) && c.ticket == None && c.ran == None
    case Take => c.allowed == Some(true) && c.ticket == None && c.ran == None
    case Mark(got) => c.allowed == Some(true) && got == c.ticket.Some? && c.ran == None
    case Run => c.allowed == Some(true) && c.ticket.Some? && c.ran == None
    case RunnerOnce(r) => Cause(c, Runner, r)
    case RunnerDo(d) => c.decided == Some(Runner) && (ReasonOf(d).Some? ==> Cause(c, Runner, ReasonOf(d).value))
    case _ => true
  }

  predicate WatcherCaused(c: Command) {
    match c.watcher
    case Select => c.fired == None
    case WatcherOnce(r) => Cause(c, Watcher, r)
    case WatcherDo(d) => c.decided == Some(Watcher) && (ReasonOf(d).Some? ==> Cause(c, Watcher, ReasonOf(d).value))
    case WatcherEnd => true
  }

  /** Who decided, and what was reported. */
  predicate Decided(c: Command) {
    && (c.decided == None <==> c.once == Idle)
    && (c.decided == Some(Runner) ==> c.runner.RunnerDo? || c.runner == Finish || c.runner == RunnerEnd)
    && (c.decided == Some(Watcher) ==> c.watcher.WatcherDo? || c.watcher == WatcherEnd)
    && (c.events != [] ==>
          c.events[0].Outcome? && c.decided.Some? && Cause(c, c.decided.value, c.events[0].reason))
  }

  /** What a caller is told: that the fallback failed, if there is one. */
  function Expected(c: Command, r: Reason): Message { if c.hasFallback then FallbackFailed(r) else Plain(r) }

  /** The reason of an outcome event. */
  function Reported(c: Command): Option<Reason> {
    if c.events != [] && c.events[0].Outcome? then Some(c.events[0].reason) else None
  }

  /** The error on its way, and the one that was sent. */
  predicate Told(c: Command) {
    && (c.sent == 0 ==> c.message == None)
    && (c.sent > 0 ==> Reported(c).Some? && c.message == Some(Expected(c, Reported(c).value)))
    && (Active(c).Some? ==>
          var d := Active(c).value;
          && (d.Fallback? || d.ReportFallback? ==> Reported(c) == Some(d.r))
          && (d.ReportFallback? ==> c.hasFallback)
          && (d.Send? ==> Reported(c).Some? && d.m == Expected(c, Reported(c).value)))
  }

  /** The fallback was called only where its result is reported. */
  predicate Fell(c: Command) {
    && Told(c)
    && (|c.events| <= 1 && !(Active(c).Some? && Active(c).value.ReportFallback?) ==> c.fell == None)
    && (Active(c).Some? && Active(c).value.ReportFallback? ==> c.fell == Some(Active(c).value.ok))
    && (|c.events| > 1 ==> c.events[1] == if c.fell == Some(true) then FallbackSuccess else FallbackFailure)
    && (|c.events| > 1 ==> c.fell.Some?)
  }

  predicate Caused(c: Command) { RunnerCaused(c) && WatcherCaused(c) && Decided(c) }

  lemma NewCommandCaused(hasFallback: bool)
    ensures Caused(NewCommand(hasFallback)) && Fell(NewCommand(hasFallback))
  {}

  /** What a step inside returnOnce.Do leaves of the history. */
  lemma BodyHistory(p: Pool, c: Command, w: Who, d: Body, p': Pool, c': Command, d': Body)
    requires BodyStep(p, c, w, d, p', c', d')
    ensures c'.allowed == c.allowed && c'.ticket == c.ticket && c'.ran == c.ran && c'.fired == c.fired
    ensures c'.decided == c.decided && c'.once == c.once && c'.runner == c.runner && c'.watcher == c.watcher
    ensures ReasonOf(d').Some? ==> ReasonOf(d) == ReasonOf(d')
    ensures c'.events == c.events || (d.Report? && c'.events == c.events + [Outcome(d.r)])
            || (d.ReportFallback? && |c'.events| == |c.events| + 1 && c.events <= c'.events)
  {}

  lemma RunnerBodyCaused(p: Pool, c: Command, d: Body, p': Pool, c': Command, d': Body)
    requires Valid(c) && Caused(c) && c.runner == RunnerDo(d) && BodyStep(p, c, Runner, d, p', c', d')
    ensures Caused(c'.(runner := RunnerDo(d')))
  {
    hide Valid, BodyStep;
    BodyHistory(p, c, Runner, d, p', c', d');
    EventsBegin(c);
  }

  lemma WatcherBodyCaused(p: Pool, c: Command, d: Body, p': Pool, c': Command, d': Body)
    requires Valid(c) && Caused(c) && c.watcher == WatcherDo(d) && BodyStep(p, c, Watcher, d, p', c', d')
    ensures Caused(c'.(watcher := WatcherDo(d')))
  {
    hide Valid, BodyStep;
    BodyHistory(p, c, Watcher, d, p', c', d');
    EventsBegin(c);
  }

  /** The first event is the outcome. */
  lemma EventsBegin(c: Command)
    requires Valid(c)
    ensures c.once == Running(Runner) <==> c.runner.RunnerDo?
    ensures c.once == Running(Watcher) <==> c.watcher.WatcherDo?
    ensures Active(c).Some? && Active(c).value.Report? ==> c.events == []
    ensures Active(c).Some? && Active(c).value.ReportFallback? ==> |c.events| == 1
  {}

  predicate Inside(a: RunnerPc) { a.RunnerDo? || a == Finish || a == RunnerEnd }

  predicate WatcherInside(b: WatcherPc) { b.WatcherDo? || b == WatcherEnd }

  /** What a step of the runner outside the body of returnOnce.Do leaves of the
      history. */
  predicate RunnerLeaves(c: Command, c': Command) {
    && c'.watcher == c.watcher && c'.fired == c.fired && c'.events == c.events && c'.fell == c.fell
    && c'.sent == c.sent && c'.message == c.message && c'.hasFallback == c.hasFallback
    && (c'.runner.RunnerDo? ==> c'.runner.d.RetLock? && c.once == Idle)
    && (Inside(c.runner) ==>
          Inside(c'.runner) && c'.allowed == c.allowed && c'.ticket == c.ticket && c'.ran == c.ran)
    && (if c.runner.RunnerOnce? && c.once == Idle then c'.decided == Some(Runner) && c'.runner.RunnerDo?
        else c'.decided == c.decided)
    && (c'.once == Idle <==> c.once == Idle && !c.runner.RunnerOnce? && !c.runner.RunnerDo?)
  }

  lemma TicketLeaves(p: Pool, c: Command, p': Pool, c': Command)
    requires RunnerStep(p, c, p', c') && !Checked(c.runner)
    ensures RunnerLeaves(c, c')
  {
    hide BodyStep;
  }

  lemma RunLeaves(p: Pool, c: Command, p': Pool, c': Command)
    requires RunnerStep(p, c, p', c') && Checked(c.runner) && (c.runner.RunnerDo? ==> c.runner.d == Publish)
    ensures RunnerLeaves(c, c')
  {
    hide BodyStep;
  }

  lemma RunnerHistory(p: Pool, c: Command, p': Pool, c': Command)
    requires RunnerStep(p, c, p', c') && (c.runner.RunnerDo? ==> c.runner.d == Publish)
    ensures RunnerLeaves(c, c')
  {
    hide RunnerStep, RunnerLeaves;
    if Checked(c.runner) { RunLeaves(p, c, p', c'); } else { TicketLeaves(p, c, p', c'); }
  }

  lemma TicketCauses(p: Pool, c: Command, p': Pool, c': Command)
    requires RunnerStep(p, c, p', c') && !Checked(c.runner) && RunnerCaused(c)
    ensures RunnerCaused(c')
  {
    hide BodyStep;
  }

  lemma RunCauses(p: Pool, c: Command, p': Pool, c': Command)
    requires RunnerStep(p, c, p', c') && Checked(c.runner) && (c.runner.RunnerDo? ==> c.runner.d == Publish) && RunnerCaused(c)
    ensures RunnerCaused(c')
  {
    hide BodyStep;
  }

  lemma RunnerCauses(p: Pool, c: Command, p': Pool, c': Command)
    requires RunnerStep(p, c, p', c') && (c.runner.RunnerDo? ==> c.runner.d == Publish) && RunnerCaused(c)
    ensures RunnerCaused(c')
  {
    hide RunnerStep, RunnerCaused;
    if Checked(c.runner) { RunCauses(p, c, p', c'); } else { TicketCauses(p, c, p', c'); }
  }

  lemma RunnerStepCaused(p: Pool, c: Command, p': Pool, c': Command)
    requires Valid(c) && Caused(c) && RunnerStep(p, c, p', c')
    ensures Caused(c')
  {
    hide Valid, BodyStep, Cause, RunnerCaused, RunnerStep;
    EventsBegin(c);
    if c.runner.RunnerDo? && c.runner.d != Publish {
      RunnerDoCaused(p, c, p', c');
    } else {
      RunnerHistory(p, c, p', c');
      RunnerCauses(p, c, p', c');
      CauseKept(c, c');
      WhoCases(c.lock, c.once);
      if c.decided.Some? { WhoIs(c.decided.value); }
    }
  }

  lemma WhoIs(w: Who)
    ensures w == Runner || w == Watcher
  {
    match w {
      case Runner =>
      case Watcher =>
    }
  }

  /** What the runner decided on depends on its own history, and what the watcher
      decided on depends on its signal. */
  lemma CauseKept(c: Command, c': Command)
    ensures c'.fired == c.fired ==> forall r :: Cause(c', Watcher, r) == Cause(c, Watcher, r)
    ensures c'.allowed == c.allowed && c'.ticket == c.ticket && c'.ran == c.ran ==>
              forall r :: Cause(c', Runner, r) == Cause(c, Runner, r)
  {}

  lemma WatcherHistory(p: Pool, c: Command, p': Pool, c': Command)
    requires WatcherStep(p, c, p', c') && (c.watcher.WatcherDo? ==> c.watcher.d == Publish)
    ensures c'.runner == c.runner && c'.events == c.events && c'.fell == c.fell
    ensures c'.sent == c.sent && c'.message == c.message && c'.hasFallback == c.hasFallback
    ensures c'.watcher.WatcherDo? ==> c'.watcher.d.RetLock? && c.once == Idle
    ensures c'.allowed == c.allowed && c'.ticket == c.ticket && c'.ran == c.ran
    ensures WatcherInside(c.watcher) ==> WatcherInside(c'.watcher) && c'.fired == c.fired
    ensures if c.watcher.WatcherOnce? && c.once == Idle then c'.decided == Some(Watcher) && c'.watcher.WatcherDo?
            else c'.decided == c.decided
    ensures c'.once == Idle <==> c.once == Idle && !c.watcher.WatcherOnce? && !c.watcher.WatcherDo?
  {
    hide BodyStep;
  }

  lemma WatcherCauses(p: Pool, c: Command, p': Pool, c': Command)
    requires WatcherStep(p, c, p', c') && (c.watcher.WatcherDo? ==> c.watcher.d == Publish) && WatcherCaused(c)
    ensures WatcherCaused(c')
  {
    hide BodyStep;
  }

  lemma WatcherStepCaused(p: Pool, c: Command, p': Pool, c': Command)
    requires Valid(c) && Caused(c) && WatcherStep(p, c, p', c')
    ensures Caused(c')
  {
    hide Valid, BodyStep, Cause, WatcherCaused, WatcherStep;
    EventsBegin(c);
    if c.watcher.WatcherDo? && c.watcher.d != Publish {
      WatcherDoCaused(p, c, p', c');
    } else {
      WatcherHistory(p, c, p', c');
      WatcherCauses(p, c, p', c');
      CauseKept(c, c');
      WhoCases(c.lock, c.once);
      if c.decided.Some? { WhoIs(c.decided.value); }
    }
  }

  lemma WatcherDoCaused(p: Pool, c: Command, p': Pool, c': Command)
    requires Valid(c) && Caused(c) && WatcherStep(p, c, p', c') && c.watcher.WatcherDo? && c.watcher.d != Publish
    ensures Caused(c')
  {
    hide Valid, BodyStep, Caused;
    var d := c.watcher.d;
    var c1, d' :| BodyStep(p, c, Watcher, d, p', c1, d') && c' == c1.(watcher := WatcherDo(d'));
    WatcherBodyCaused(p, c, d, p', c1, d');
  }

  lemma RunnerDoCaused(p: Pool, c: Command, p': Pool, c': Command)
    requires Valid(c) && Caused(c) && RunnerStep(p, c, p', c') && c.runner.RunnerDo? && c.runner.d != Publish
    ensures Caused(c')
  {
    hide Valid, BodyStep, Caused;
    var d := c.runner.d;
    var c1, d' :| BodyStep(p, c, Runner, d, p', c1, d') && c' == c1.(runner := RunnerDo(d'));
    RunnerBodyCaused(p, c, d, p', c1, d');
  }

  lemma BodyFell(p: Pool, c: Command, w: Who, d: Body, p': Pool, c': Command, d': Body)
    requires BodyStep(p, c, w, d, p', c', d') && EventsSoFar(c) && Active(c) == Some(d)
    requires Fell(c) && Active(c') == Active(c)
    ensures c'.fell == c.fell || d.Fallback?
    ensures d.Fallback? && d'.ReportFallback? ==> c'.fell == Some(d'.ok)
    ensures |c'.events| <= 1 && !d'.ReportFallback? ==> c'.fell == None
    ensures d'.ReportFallback? ==> c'.fell == Some(d'.ok)
    ensures |c'.events| > 1 ==>
              c'.fell.Some? && c'.events[1] == if c'.fell == Some(true) then FallbackSuccess else FallbackFailure
  {}

  lemma BodyTold(p: Pool, c: Command, w: Who, d: Body, p': Pool, c': Command, d': Body)
    requires BodyStep(p, c, w, d, p', c', d') && EventsSoFar(c) && Active(c) == Some(d) && Told(c)
    ensures c'.sent == 0 ==> c'.message == None
    ensures c'.sent > 0 ==> Reported(c').Some? && c'.message == Some(Expected(c', Reported(c').value))
    ensures d'.Fallback? || d'.ReportFallback? ==> Reported(c') == Some(d'.r)
    ensures d'.ReportFallback? ==> c'.hasFallback
    ensures d'.Send? ==> Reported(c').Some? && d'.m == Expected(c', Reported(c').value)
  {}

  lemma DoFell(p: Pool, c: Command, w: Who, d: Body, p': Pool, c1: Command, d': Body, c': Command)
    requires Valid(c) && Fell(c) && BodyStep(p, c, w, d, p', c1, d')
    requires if w == Runner then c.runner == RunnerDo(d) && c' == c1.(runner := RunnerDo(d'))
             else c.watcher == WatcherDo(d) && c' == c1.(watcher := WatcherDo(d'))
    ensures Fell(c')
  {
    hide BodyStep, Valid, EventsSoFar;
    EventsBegin(c);
    WhoIs(w);
    ValidEvents(c);
    BodyHistory(p, c, w, d, p', c1, d');
    BodyFell(p, c, w, d, p', c1, d');
    BodyTold(p, c, w, d, p', c1, d');
  }

  lemma ValidEvents(c: Command)
    requires Valid(c)
    ensures EventsSoFar(c)
    ensures c.once == Idle ==> c.events == [] && Active(c) == None
    ensures !(c.runner.RunnerDo? && c.watcher.WatcherDo?)
  {}

  lemma RunnerStepFell(p: Pool, c: Command, p': Pool, c': Command)
    requires Valid(c) && Fell(c) && RunnerStep(p, c, p', c')
    ensures Fell(c')
  {
    hide BodyStep, Valid, EventsSoFar, RunnerStep;
    ValidEvents(c);
    EventsBegin(c);
    if c.runner.RunnerDo? && c.runner.d != Publish {
      RunnerDoFell(p, c, p', c');
    } else {
      RunnerHistory(p, c, p', c');
    }
  }

  lemma RunnerDoFell(p: Pool, c: Command, p': Pool, c': Command)
    requires Valid(c) && Fell(c) && RunnerStep(p, c, p', c') && c.runner.RunnerDo? && c.runner.d != Publish
    ensures Fell(c')
  {
    hide BodyStep, Valid, Fell;
    var d := c.runner.d;
    var c1, d' :| BodyStep(p, c, Runner, d, p', c1, d') && c' == c1.(runner := RunnerDo(d'));
    DoFell(p, c, Runner, d, p', c1, d', c');
  }

  lemma WatcherStepFell(p: Pool, c: Command, p': Pool, c': Command)
    requires Valid(c) && Fell(c) && WatcherStep(p, c, p', c')
    ensures Fell(c')
  {
    hide BodyStep, Valid, EventsSoFar, WatcherStep;
    ValidEvents(c);
    EventsBegin(c);
    if c.watcher.WatcherDo? && c.watcher.d != Publish {
      WatcherDoFell(p, c, p', c');
    } else {
      WatcherHistory(p, c, p', c');
    }
  }

  lemma WatcherDoFell(p: Pool, c: Command, p': Pool, c': Command)
    requires Valid(c) && Fell(c) && WatcherStep(p, c, p', c') && c.watcher.WatcherDo? && c.watcher.d != Publish
    ensures Fell(c')
  {
    hide BodyStep, Valid, Fell;
    var d := c.watcher.d;
    var c1, d' :| BodyStep(p, c, Watcher, d, p', c1, d') && c' == c1.(watcher := WatcherDo(d'));
    DoFell(p, c, Watcher, d, p', c1, d', c');
  }

  lemma StepFell(p: Pool, c: Command, p': Pool, c': Command)
    requires Valid(c) && Fell(c) && CommandStep(p, c, p', c')
    ensures Fell(c')
  {
    hide RunnerStep, WatcherStep, Valid;
    if RunnerStep(p, c, p', c') {
      RunnerStepFell(p, c, p', c');
    } else if WatcherStep(p, c, p', c') {
      WatcherStepFell(p, c, p', c');
    }
  }

  lemma StepCaused(p: Pool, c: Command, p': Pool, c': Command)
    requires Valid(c) && Caused(c) && CommandStep(p, c, p', c')
    ensures Caused(c')
  {
    hide RunnerStep, WatcherStep, Valid;
    if RunnerStep(p, c, p', c') {
      RunnerStepCaused(p, c, p', c');
    } else if WatcherStep(p, c, p', c') {
      WatcherStepCaused(p, c, p', c');
    }
  }

  // ----- progress -----

  /** Inside returnOnce.Do nothing can block: not the mutex, not the condition
      variable, not the ticket channel and not the error channel. */
  lemma BodyCanStep(p: Pool, c: Command, w: Who, d: Body) returns (p': Pool, c': Command, d': Body)
    requires Valid(c) && d != Publish
    requires if w == Runner then c.runner == RunnerDo(d) else c.watcher == WatcherDo(d)
    requires c.lock == Free || HoldsLock(d)
    requires d.RetWait? ==> c.checked
    requires d.RetPut? && c.ticket.Some? ==> |p.tickets| < p.max
    ensures BodyStep(p, c, w, d, p', c', d')
  {
    p', c', d' := p, c, d;
    match d
    case RetLock(r) => c', d' := c.(lock := HeldBy(w)), RetCheck(r);
    case RetCheck(r) =>
      if c.checked { d' := RetPut(r); } else { c', d' := c.(lock := Free), RetWait(r); }
    case RetWait(r) => c', d' := c.(wake := false), RetLock(r);
    case RetPut(r) =>
      d' := RetUnlock(r);
      if c.ticket.Some? {
        p', c' := p.(tickets := p.tickets + [c.ticket.value]), c.(returned := c.returned + 1);
      }
    case RetUnlock(r) => c', d' := c.(lock := Free), Report(r);
    case Report(r) =>
      c', d' := c.(events := c.events + [Outcome(r)]), if r == RunSucceeded then Publish else Fallback(r);
    case Fallback(r) =>
      if c.hasFallback { c', d' := c.(fell := Some(true)), ReportFallback(r, true); } else { d' := Send(Plain(r)); }
    case ReportFallback(r, ok) =>
      c' := c.(events := c.events + [if ok then FallbackSuccess else FallbackFailure]);
      d' := if ok then Publish else Send(FallbackFailed(r));
    case Send(m) => c', d' := c.(errors := c.errors + 1, sent := c.sent + 1, message := Some(m)), Publish;
  }

  predicate Ended(c: Command) { c.runner == RunnerEnd && c.watcher == WatcherEnd }

  lemma BodyCommandCanStep(p: Pool, c: Command, w: Who, d: Body) returns (p': Pool, c': Command)
    requires Valid(c)
    requires if w == Runner then c.runner == RunnerDo(d) else c.watcher == WatcherDo(d)
    requires c.lock == Free || HoldsLock(d)
    requires d.RetWait? ==> c.checked
    requires d.RetPut? && c.ticket.Some? ==> |p.tickets| < p.max
    ensures if w == Runner then RunnerStep(p, c, p', c') else WatcherStep(p, c, p', c')
  {
    if d == Publish {
      p' := p;
      c' := c.(published := c.published + 1, once := Done);
      c' := if w == Runner then c'.(runner := Finish) else c'.(watcher := WatcherEnd);
    } else {
      hide Valid, BodyStep;
      var c1, d';
      p', c1, d' := BodyCanStep(p, c, w, d);
      c' := if w == Runner then c1.(runner := RunnerDo(d')) else c1.(watcher := WatcherDo(d'));
    }
  }

  lemma WhoCases(l: Lock, o: Once)
    ensures l == Free || l == HeldBy(Runner) || l == HeldBy(Watcher)
    ensures o == Idle || o == Done || o == Running(Runner) || o == Running(Watcher)
  {
    match l {
      case Free =>
      case HeldBy(w) => assert w == Runner || w == Watcher;
    }
    match o {
      case Running(w) => assert w == Runner || w == Watcher;
      case _ =>
    }
  }

  /** Outside returnOnce.Do the runner can step when the mutex is free or its
      own, and when the watcher is not inside. */
  lemma RunnerCanStep(p: Pool, c: Command) returns (p': Pool, c': Command)
    requires Valid(c) && c.runner != RunnerEnd && !c.runner.RunnerDo?
    requires c.lock != HeldBy(Watcher) && (c.once == Running(Watcher) ==> !Checked(c.runner) || c.runner == Run)
    ensures RunnerStep(p, c, p', c')
  {
    WhoCases(c.lock, c.once);
    p', c' := p, c;
    match c.runner
    case Allow => c' := c.(runner := TakeLock, allowed := Some(true));
    case DenyLock => c' := c.(lock := HeldBy(Runner), runner := Deny);
    case Deny => c' := Marked(c).(runner := RunnerOnce(CircuitOpen));
    case TakeLock => c' := c.(lock := HeldBy(Runner), runner := Take);
    case Take =>
      if p.tickets != [] {
        p', c' := p.(tickets := p.tickets[1..]), c.(ticket := Some(p.tickets[0]), runner := Mark(true));
      } else {
        c' := c.(runner := Mark(false));
      }
    case Mark(got) => c' := Marked(c).(runner := if got then Run else RunnerOnce(MaxConcurrency));
    case Run => c' := c.(runner := RunnerOnce(RunFailed), ran := Some(false));
    case RunnerOnce(r) =>
      c' := if c.once == Idle then c.(once := Running(Runner), decided := Some(Runner), runner := RunnerDo(RetLock(r)))
            else c.(runner := Finish);
    case Finish => c' := c.(finished := c.finished + 1, runner := RunnerEnd);
  }

  /** While one of its goroutines has not ended, a command has a step of its
      own, provided that the pool has room for a ticket the command holds. */
  lemma CommandCanStep(p: Pool, c: Command) returns (p': Pool, c': Command)
    requires Valid(c) && !Ended(c)
    requires c.ticket.Some? && c.returned == 0 ==> |p.tickets| < p.max
    ensures RunnerStep(p, c, p', c') || WatcherStep(p, c, p', c')
  {
    WhoCases(c.lock, c.once);
    if c.watcher.WatcherDo? {
      var d := c.watcher.d;
      if c.lock == HeldBy(Runner) || (d.RetWait? && !c.checked) {
        p', c' := RunnerCanStep(p, c);
      } else {
        p', c' := BodyCommandCanStep(p, c, Watcher, d);
      }
    } else if c.runner.RunnerDo? {
      p', c' := BodyCommandCanStep(p, c, Runner, c.runner.d);
    } else if c.runner != RunnerEnd {
      p', c' := RunnerCanStep(p, c);
    } else if c.watcher == Select {
      p', c' := p, c.(watcher := WatcherOnce(Timeout), fired := Some(TimerSignal));
      assert WatcherStep(p, c, p', c');
    } else {
      p', c' := p, c.(watcher := WatcherEnd);
      assert c.watcher.WatcherOnce? && c.once == Done;
      assert WatcherStep(p, c, p', c');
    }
  }

  // ----- termination -----

  function BodyRank(d: Body, checked: bool): nat {
    match d
    case RetLock(_) => if checked then 8 else 12
    case RetCheck(_) => if checked then 7 else 11
    case RetWait(_) => if checked then 9 else 10
    case RetPut(_) => 6
    case RetUnlock(_) => 5
    case Report(_) => 4
    case Fallback(_) => 3
    case ReportFallback(_, _) => 2
    case Send(_) => 1
    case Publish => 0
  }

  function RunnerRank(a: RunnerPc): nat {
    match a
    case Allow => 25
    case DenyLock => 23
    case Deny => 22
    case TakeLock => 24
    case Take => 23
    case Mark(_) => 22
    case Run => 16
    case RunnerOnce(_) => 15
    case RunnerDo(d) => 2 + BodyRank(d, true)
    case Finish => 1
    case RunnerEnd => 0
  }

  function WatcherRank(b: WatcherPc, checked: bool): nat {
    match b
    case Select => 16
    case WatcherOnce(_) => 14
    case WatcherDo(d) => 1 + BodyRank(d, checked)
    case WatcherEnd => 0
  }

  /** How many more steps the two goroutines of a command can take. */
  function Rank(c: Command): nat {
    RunnerRank(c.runner) + WatcherRank(c.watcher, c.checked)
  }

  lemma BodyDescends(p: Pool, c: Command, w: Who, d: Body, p': Pool, c': Command, d': Body)
    requires BodyStep(p, c, w, d, p', c', d') && (d.RetWait? ==> c.checked)
    ensures BodyRank(d', c.checked) < BodyRank(d, c.checked)
    ensures c'.checked == c.checked && c'.runner == c.runner && c'.watcher == c.watcher
  {}

  /** Only the watcher waits for the ticket, and it wakes when that is marked. */
  lemma WaitIsChecked(c: Command)
    requires Valid(c)
    ensures !(c.runner.RunnerDo? && c.runner.d.RetWait?)
    ensures c.wake ==> c.checked
    ensures c.checked <==> Checked(c.runner)
  {}

  lemma RunnerStepDescends(p: Pool, c: Command, p': Pool, c': Command)
    requires Valid(c) && RunnerStep(p, c, p', c')
    ensures Rank(c') < Rank(c)
  {
    hide Valid, BodyStep, BodyRank;
    WaitIsChecked(c);
    if c.runner.RunnerDo? {
      RunnerBodyDescends(p, c, p', c');
    } else {
      RunnerOtherDescends(p, c, p', c');
    }
  }

  lemma RunnerBodyDescends(p: Pool, c: Command, p': Pool, c': Command)
    requires RunnerStep(p, c, p', c') && c.runner.RunnerDo? && !c.runner.d.RetWait? && c.checked
    ensures Rank(c') < Rank(c)
  {
    hide BodyStep, BodyRank;
    var d := c.runner.d;
    if d != Publish {
      var c1, d' :| BodyStep(p, c, Runner, d, p', c1, d') && c' == c1.(runner := RunnerDo(d'));
      BodyDescends(p, c, Runner, d, p', c1, d');
    }
  }

  lemma RunnerOtherDescends(p: Pool, c: Command, p': Pool, c': Command)
    requires RunnerStep(p, c, p', c') && !c.runner.RunnerDo? && (c.checked <==> Checked(c.runner))
    ensures Rank(c') < Rank(c)
  {
    hide BodyStep;
  }

  lemma WatcherStepDescends(p: Pool, c: Command, p': Pool, c': Command)
    requires Valid(c) && WatcherStep(p, c, p', c')
    ensures Rank(c') < Rank(c)
  {
    hide Valid, BodyStep;
    WaitIsChecked(c);
    if c.watcher.WatcherDo? && c.watcher.d != Publish {
      var d := c.watcher.d;
      var c1, d' :| BodyStep(p, c, Watcher, d, p', c1, d') && c' == c1.(watcher := WatcherDo(d'));
      WaitIsWoken(p, c, d, p', c1, d');
      BodyDescends(p, c, Watcher, d, p', c1, d');
    }
  }

  lemma WaitIsWoken(p: Pool, c: Command, d: Body, p': Pool, c': Command, d': Body)
    requires BodyStep(p, c, Watcher, d, p', c', d')
    ensures d.RetWait? ==> c.wake
  {}
}
