/** hystrix-go/hystrix/circuit.go: the circuit breaker under any number of
    concurrent AllowRequest and ReportEvent calls. */
module HystrixCircuit {
  import opened Basics

  /** now and loaded are locals of allowSingleTest. */
  datatype Pc =
    | Arrived                           // AllowRequest, before IsOpen's RLock
    | Reading                           // RLock held, reading open
    | Judging                           // closed: asking the metrics for health
    | OpeningLock | Opening             // setOpen
    | TestLock                          // allowSingleTest, before its RLock
    | TestClock                         // RLock held, about to read the clock
    | TestLoad(now: int)                // about to load the last tested time
    | TestSwap(now: int, loaded: int)   // about to compare and swap
    | Returned(allowed: bool)
    | Reporting | ReportReading         // ReportEvent, the same way
    | ClosingLock | Closing             // setClose
    | Reported

  /** A call: of ReportEvent, with success or not, if report is given.  The rest
      is history: what it read of the circuit, what the metrics said, and when
      and in which open episode it read the clock for a test. */
  datatype Call = Call(
    pc: Pc, report: Option<bool>, saw: Option<bool>, healthy: Option<bool>, tested: int, episode: nat)

  /** openings, the times at which the circuit opened, and tester, the call that
      was granted the last test since, are history. */
  datatype Circuit = Circuit(
    open: bool, forceOpen: bool, lastTested: int, clock: int, calls: seq<Call>,
    openings: seq<int>, tester: Option<nat>)

  predicate Reads(c: Call) {
    c.pc == Reading || c.pc == TestClock || c.pc.TestLoad? || c.pc.TestSwap? || c.pc == ReportReading
  }

  predicate Writes(c: Call) { c.pc == Opening || c.pc == Closing }

  ghost predicate NoWriter(s: Circuit) { forall i :: 0 <= i < |s.calls| ==> !Writes(s.calls[i]) }

  ghost predicate NoReader(s: Circuit) { forall i :: 0 <= i < |s.calls| ==> !Reads(s.calls[i]) }

  function At(s: Circuit, i: nat, c: Call): Circuit
    requires i < |s.calls|
  {
    s.(calls := s.calls[i := c])
  }

  /** One step of call i; window is the sleep window. */
  ghost predicate CallStep(s: Circuit, i: nat, s': Circuit, window: int)
    requires i < |s.calls|
  {
    var c := s.calls[i];
    match c.pc
    case Arrived => NoWriter(s) && s' == At(s, i, c.(pc := Reading))
    case Reading =>
      var o := s.forceOpen || s.open;
      s' == At(s, i, c.(pc := if o then TestLock else Judging, saw := Some(o)))
    case Judging =>
      exists healthy: bool ::
        s' == At(s, i, c.(pc := if healthy then Returned(true) else OpeningLock, healthy := Some(healthy)))
    case OpeningLock => NoWriter(s) && NoReader(s) && s' == At(s, i, c.(pc := Opening))
    case Opening =>
      s' == if s.open then At(s, i, c.(pc := TestLock))
            else At(s, i, c.(pc := TestLock))
                 .(open := true, lastTested := s.clock, openings := s.openings + [s.clock], tester := None)
    case TestLock => NoWriter(s) && s' == At(s, i, c.(pc := TestClock))
    case TestClock => s' == At(s, i, c.(pc := TestLoad(s.clock), tested := s.clock, episode := |s.openings|))
    case TestLoad(now) =>
      s' == if s.open && now > s.lastTested + window
            then At(s, i, c.(pc := TestSwap(now, s.lastTested))) else At(s, i, c.(pc := Returned(false)))
    case TestSwap(now, loaded) =>
      s' == if s.lastTested == loaded
            then At(s, i, c.(pc := Returned(true))).(lastTested := now, tester := Some(i))
            else At(s, i, c.(pc := Returned(false)))
    case Reporting => NoWriter(s) && s' == At(s, i, c.(pc := ReportReading))
    case ReportReading =>
      s' == At(s, i, c.(pc := if c.report == Some(true) && s.open then ClosingLock else Reported, saw := Some(s.open)))
    case ClosingLock => NoWriter(s) && NoReader(s) && s' == At(s, i, c.(pc := Closing))
    case Closing => s' == At(s, i, c.(pc := Reported)).(open := false)
    case _ => false
  }

  function NewCall(report: Option<bool>): Call {
    Call(if report.Some? then Reporting else Arrived, report, None, None, 0, 0)
  }

  ghost predicate Next(s: Circuit, s': Circuit, window: int) {
    || (exists report: Option<bool> :: s' == s.(calls := s.calls + [NewCall(report)]))
    || (exists b: bool :: s' == s.(forceOpen := b))
    || (exists t: int :: t > s.clock && s' == s.(clock := t))
    || (exists i: nat :: i < |s.calls| && CallStep(s, i, s', window))
  }

  ghost predicate IsRun(run: seq<Circuit>, window: int) {
    && |run| > 0 && !run[0].open && run[0].calls == [] && run[0].openings == []
    && forall k :: 0 < k < |run| ==> Next(run[k - 1], run[k], window)
  }

  // ----- invariants -----

  /** Readers and a writer exclude each other. */
  ghost predicate Exclusive(s: Circuit) {
    forall i, j :: 0 <= i < |s.calls| && 0 <= j < |s.calls| && i != j && Writes(s.calls[i]) ==>
      !Writes(s.calls[j]) && !Reads(s.calls[j])
  }

  /** Saw the circuit closed, and found it healthy. */
  predicate Healthy(c: Call) { c.saw == Some(false) && c.healthy == Some(true) }

  /** A request that was let through although it saw the circuit open, or found
      that it should be. */
  predicate Test(c: Call) { c.pc == Returned(true) && !Healthy(c) }

  /** What a call has seen on its way. */
  predicate CallInv(c: Call) {
    match c.pc
    case Arrived | Reading => c.report == None && c.saw == None && c.healthy == None
    case Judging => c.report == None && c.saw == Some(false) && c.healthy == None
    case OpeningLock | Opening => c.report == None && c.saw == Some(false) && c.healthy == Some(false)
    case Returned(true) => c.report == None && c.saw.Some?
    case TestLock | TestClock | TestLoad(_) | TestSwap(_, _) | Returned(false) =>
      c.report == None && c.saw.Some? && !Healthy(c)
    case Reporting | ReportReading => c.report.Some? && c.saw == None
    case ClosingLock | Closing => c.report == Some(true) && c.saw == Some(true)
    case Reported => c.report.Some? && c.saw.Some?
  }

  ghost predicate CallsInv(s: Circuit) { forall i :: 0 <= i < |s.calls| ==> CallInv(s.calls[i]) }

  /** When the episode of a test began. */
  function OpenedAt(s: Circuit, c: Call): int {
    if 0 < c.episode <= |s.openings| then s.openings[c.episode - 1] else 0
  }

  /** The clock reading of a test, in its episode. */
  predicate TestedInv(s: Circuit, c: Call, window: int) {
    && (c.pc.TestLoad? || c.pc.TestSwap? ==> c.pc.now == c.tested && c.episode == |s.openings|)
    && (c.pc.TestSwap? ==> s.open && c.pc.now > c.pc.loaded + window && (window >= 0 ==> c.pc.loaded >= OpenedAt(s, c)))
    && (c.pc.TestSwap? && s.tester == None ==> c.pc.loaded == OpenedAt(s, c))
    && (Test(c) ==>
          && 0 < c.episode <= |s.openings| && (window >= 0 ==> c.tested > OpenedAt(s, c) + window)
          && (window >= 0 && s.open && c.episode == |s.openings| ==> c.tested <= s.lastTested))
  }

  ghost predicate TestsInv(s: Circuit, window: int) {
    forall i :: 0 <= i < |s.calls| ==> TestedInv(s, s.calls[i], window)
  }

  /** The last tested time is when the circuit opened, or that of the last test. */
  ghost predicate LastInv(s: Circuit, window: int) {
    s.open ==>
      && |s.openings| > 0
      && (s.tester == None ==> s.lastTested == s.openings[|s.openings| - 1])
      && (s.tester.Some? ==>
            && s.tester.value < |s.calls|
            && var c := s.calls[s.tester.value]; Test(c) && c.episode == |s.openings| && c.tested == s.lastTested)
      && (window >= 0 ==> s.lastTested >= s.openings[|s.openings| - 1])
  }

  predicate Apart(a: Call, b: Call, window: int) {
    Test(a) && Test(b) && a.episode == b.episode ==> a.tested > b.tested + window || b.tested > a.tested + window
  }

  ghost predicate ApartInv(s: Circuit, window: int) {
    forall i, j :: 0 <= i < |s.calls| && 0 <= j < |s.calls| && i != j ==> Apart(s.calls[i], s.calls[j], window)
  }

  ghost predicate Inv(s: Circuit, window: int) {
    Exclusive(s) && CallsInv(s) && TestsInv(s, window) && LastInv(s, window) && ApartInv(s, window)
  }

  // ----- every step keeps them -----

  lemma StepKeepsExclusive(s: Circuit, i: nat, s': Circuit, window: int)
    requires Exclusive(s) && i < |s.calls| && CallStep(s, i, s', window)
    ensures Exclusive(s')
  {
    hide CallStep, Reads, Writes;
    StepTakesLock(s, i, s', window);
  }

  /** A call starts to read when nobody writes, and to write when nobody holds
      the lock. */
  lemma StepTakesLock(s: Circuit, i: nat, s': Circuit, window: int)
    requires i < |s.calls| && CallStep(s, i, s', window)
    ensures |s'.calls| == |s.calls| && forall j :: 0 <= j < |s.calls| && j != i ==> s'.calls[j] == s.calls[j]
    ensures Reads(s'.calls[i]) ==> (Reads(s.calls[i]) || NoWriter(s)) && !Writes(s'.calls[i])
    ensures Writes(s'.calls[i]) ==> Writes(s.calls[i]) || (NoWriter(s) && NoReader(s))
  {
    hide NoWriter, NoReader;
  }

  lemma StepKeepsCalls(s: Circuit, i: nat, s': Circuit, window: int)
    requires CallsInv(s) && i < |s.calls| && CallStep(s, i, s', window)
    ensures CallsInv(s')
  {
    assert CallInv(s.calls[i]);
  }

  /** What a step does to the circuit itself. */
  ghost predicate Effect(s: Circuit, i: nat, s': Circuit) {
    && i < |s.calls| == |s'.calls| && (forall j :: 0 <= j < |s.calls| && j != i ==> s'.calls[j] == s.calls[j])
    && (|| (s'.open == s.open && s'.lastTested == s.lastTested && s'.openings == s.openings && s'.tester == s.tester)
        || Opens(s, i, s') || Grants(s, i, s') || Closes(s, i, s'))
  }

  ghost predicate Opens(s: Circuit, i: nat, s': Circuit)
    requires i < |s.calls|
  {
    && s.calls[i].pc == Opening && !s.open && s'.open && s'.openings == s.openings + [s.clock]
    && s'.lastTested == s.clock && s'.tester == None
  }

  ghost predicate Grants(s: Circuit, i: nat, s': Circuit)
    requires i < |s.calls| == |s'.calls|
  {
    && s.calls[i].pc.TestSwap? && s.lastTested == s.calls[i].pc.loaded && s'.open == s.open
    && s'.openings == s.openings && s'.lastTested == s.calls[i].pc.now && s'.tester == Some(i)
    && s'.calls[i] == s.calls[i].(pc := Returned(true))
  }

  ghost predicate Closes(s: Circuit, i: nat, s': Circuit)
    requires i < |s.calls|
  {
    && s.calls[i].pc == Closing && !s'.open
    && s'.lastTested == s.lastTested && s'.openings == s.openings && s'.tester == s.tester
  }

  lemma StepEffect(s: Circuit, i: nat, s': Circuit, window: int)
    requires i < |s.calls| && CallStep(s, i, s', window)
    ensures Effect(s, i, s')
  {
    hide NoWriter, NoReader;
  }

  lemma OtherTested(s: Circuit, i: nat, s': Circuit, j: nat, window: int)
    requires Exclusive(s) && LastInv(s, window) && Effect(s, i, s') && TestedInv(s, s.calls[i], window)
    requires j < |s.calls| && j != i && TestedInv(s, s.calls[j], window)
    ensures TestedInv(s', s'.calls[j], window)
  {
    hide LastInv;
    if Opens(s, i, s') {
      assert Writes(s.calls[i]) && !Reads(s.calls[j]);
    } else if Closes(s, i, s') {
      assert Writes(s.calls[i]) && !Reads(s.calls[j]);
    }
  }

  lemma OwnTested(s: Circuit, i: nat, s': Circuit, window: int)
    requires LastInv(s, window) && i < |s.calls| && CallInv(s.calls[i]) && TestedInv(s, s.calls[i], window)
    requires CallStep(s, i, s', window)
    ensures i < |s'.calls| && TestedInv(s', s'.calls[i], window)
  {
    hide CallStep, TestedInv, LastInv, CallInv;
    if s.calls[i].pc.TestLoad? || s.calls[i].pc.TestSwap? {
      TestTested(s, i, s', window);
    } else {
      UntestedTested(s, i, s', window);
    }
  }

  lemma TestTested(s: Circuit, i: nat, s': Circuit, window: int)
    requires LastInv(s, window) && i < |s.calls| && CallInv(s.calls[i]) && TestedInv(s, s.calls[i], window)
    requires CallStep(s, i, s', window) && (s.calls[i].pc.TestLoad? || s.calls[i].pc.TestSwap?)
    ensures i < |s'.calls| && TestedInv(s', s'.calls[i], window)
  {}

  lemma UntestedTested(s: Circuit, i: nat, s': Circuit, window: int)
    requires i < |s.calls| && CallInv(s.calls[i]) && CallStep(s, i, s', window)
    requires !s.calls[i].pc.TestLoad? && !s.calls[i].pc.TestSwap?
    ensures i < |s'.calls| && TestedInv(s', s'.calls[i], window)
  {
    hide NoWriter, NoReader;
  }

  lemma StepKeepsTests(s: Circuit, i: nat, s': Circuit, window: int)
    requires Exclusive(s) && CallsInv(s) && TestsInv(s, window) && LastInv(s, window)
    requires i < |s.calls| && CallStep(s, i, s', window)
    ensures TestsInv(s', window)
  {
    hide CallStep, Exclusive, LastInv, TestedInv, CallInv, Effect;
    assert CallInv(s.calls[i]) && TestedInv(s, s.calls[i], window);
    StepEffect(s, i, s', window);
    EffectFrame(s, i, s');
    OwnTested(s, i, s', window);
    forall j | 0 <= j < |s'.calls|
      ensures TestedInv(s', s'.calls[j], window)
    {
      assert TestedInv(s, s.calls[j], window);
      if j != i { OtherTested(s, i, s', j, window); }
    }
  }

  lemma EffectFrame(s: Circuit, i: nat, s': Circuit)
    requires Effect(s, i, s')
    ensures i < |s.calls| == |s'.calls|
  {}

  lemma StepKeepsLast(s: Circuit, i: nat, s': Circuit, window: int)
    requires CallsInv(s) && TestsInv(s, window) && LastInv(s, window)
    requires i < |s.calls| && CallStep(s, i, s', window)
    ensures LastInv(s', window)
  {
    hide NoWriter, NoReader;
    assert CallInv(s.calls[i]) && TestedInv(s, s.calls[i], window);
  }

  /** A call becomes a test only by a swap, with its clock reading more than a
      window after the last tested time. */
  lemma NewTest(s: Circuit, i: nat, s': Circuit, window: int)
    requires i < |s.calls| && CallInv(s.calls[i]) && TestedInv(s, s.calls[i], window) && CallStep(s, i, s', window)
    ensures i < |s'.calls| && (Test(s'.calls[i]) ==>
              var c := s'.calls[i]; s.open && c.episode == |s.openings| && c.tested > s.lastTested + window)
  {
    hide NoWriter, NoReader;
  }

  lemma StepKeepsApart(s: Circuit, i: nat, s': Circuit, window: int)
    requires CallsInv(s) && TestsInv(s, window) && ApartInv(s, window)
    requires i < |s.calls| && CallStep(s, i, s', window)
    ensures ApartInv(s', window)
  {
    hide CallStep, CallInv;
    StepEffect(s, i, s', window);
    assert CallInv(s.calls[i]) && TestedInv(s, s.calls[i], window);
    NewTest(s, i, s', window);
    forall j | 0 <= j < |s'.calls| && j != i
      ensures Apart(s'.calls[i], s'.calls[j], window)
    {
      assert TestedInv(s, s.calls[j], window);
    }
  }

  lemma StepKeepsInv(s: Circuit, i: nat, s': Circuit, window: int)
    requires Inv(s, window) && i < |s.calls| && CallStep(s, i, s', window)
    ensures Inv(s', window)
  {
    hide CallStep, Exclusive, CallsInv, TestsInv, LastInv, ApartInv;
    StepKeepsExclusive(s, i, s', window);
    StepKeepsCalls(s, i, s', window);
    StepKeepsTests(s, i, s', window);
    StepKeepsLast(s, i, s', window);
    StepKeepsApart(s, i, s', window);
  }

  lemma NewCallKeeps(s: Circuit, report: Option<bool>, window: int)
    requires Inv(s, window)
    ensures Inv(s.(calls := s.calls + [NewCall(report)]), window)
  {
    var s' := s.(calls := s.calls + [NewCall(report)]);
    forall j | 0 <= j < |s'.calls|
      ensures TestedInv(s', s'.calls[j], window)
    {
      if j < |s.calls| { assert TestedInv(s, s.calls[j], window); }
    }
  }

  lemma NextKeepsInv(s: Circuit, s': Circuit, window: int)
    requires Inv(s, window) && Next(s, s', window)
    ensures Inv(s', window)
  {
    hide CallStep, Inv, NewCall;
    if report: Option<bool> :| s' == s.(calls := s.calls + [NewCall(report)]) {
      NewCallKeeps(s, report, window);
    } else if i: nat :| i < |s.calls| && CallStep(s, i, s', window) {
      StepKeepsInv(s, i, s', window);
    } else {
      OutsideKeeps(s, s', window);
    }
  }

  /** Neither the clock nor forcing the circuit open matters to the rest. */
  lemma OutsideKeeps(s: Circuit, s': Circuit, window: int)
    requires Inv(s, window) && s' == s.(forceOpen := s'.forceOpen, clock := s'.clock)
    ensures Inv(s', window)
  {
    hide ApartInv, CallsInv;
    assert CallsInv(s') by { SameCalls(s, s', window); }
    assert ApartInv(s', window) by { SameCalls(s, s', window); }
    forall j | 0 <= j < |s'.calls|
      ensures TestedInv(s', s'.calls[j], window)
    {
      assert TestedInv(s, s.calls[j], window);
    }
  }

  lemma SameCalls(s: Circuit, s': Circuit, window: int)
    requires s'.calls == s.calls && CallsInv(s) && ApartInv(s, window)
    ensures CallsInv(s') && ApartInv(s', window)
  {}

  lemma {:induction false} RunInv(run: seq<Circuit>, k: nat, window: int)
    requires IsRun(run, window) && k < |run|
    ensures Inv(run[k], window)
  {
    if k > 0 {
      RunInv(run, k - 1, window);
      hide Inv, Next;
      NextKeepsInv(run[k - 1], run[k], window);
    }
  }

  // ----- who is let through -----

  /** In every run, a request that saw the circuit closed and healthy is let
      through; one that saw it open or forced open, or found it unhealthy, is let
      through only more than a sleep window after the circuit opened. */
  lemma AnswerIs(run: seq<Circuit>, k: nat, i: nat, window: int)
    requires IsRun(run, window) && k < |run| && i < |run[k].calls| && run[k].calls[i].pc.Returned?
    ensures var s, c := run[k], run[k].calls[i];
            && c.saw.Some? && (c.saw == Some(false) && c.healthy == Some(true) ==> c.pc.allowed)
            && (c.pc.allowed && !(c.saw == Some(false) && c.healthy == Some(true)) ==>
                  0 < c.episode <= |s.openings| && (window >= 0 ==> c.tested > s.openings[c.episode - 1] + window))
  {
    RunInv(run, k, window);
    assert CallInv(run[k].calls[i]) && TestedInv(run[k], run[k].calls[i], window);
  }

  /** In every run, any two requests that were let through in one open episode
      read the clock more than a sleep window apart. */
  lemma TestsSpaced(run: seq<Circuit>, k: nat, i: nat, j: nat, window: int)
    requires IsRun(run, window) && k < |run| && i < |run[k].calls| && j < |run[k].calls| && i != j
    requires Test(run[k].calls[i]) && Test(run[k].calls[j]) && run[k].calls[i].episode == run[k].calls[j].episode
    ensures var a, b := run[k].calls[i].tested, run[k].calls[j].tested; a > b + window || b > a + window
  {
    RunInv(run, k, window);
    assert Apart(run[k].calls[i], run[k].calls[j], window);
  }

  /** So n requests let through in one open episode take more than n windows from
      when the circuit opened. */
  lemma {:induction false} TestsAreFew(run: seq<Circuit>, k: nat, tests: set<nat>, episode: nat, window: int)
    returns (last: nat)
    requires IsRun(run, window) && k < |run| && window >= 0 && tests != {}
    requires forall i :: i in tests ==>
               i < |run[k].calls| && Test(run[k].calls[i]) && run[k].calls[i].episode == episode
    ensures last in tests && 0 < episode <= |run[k].openings|
    ensures forall i :: i in tests ==> run[k].calls[i].tested <= run[k].calls[last].tested
    ensures run[k].calls[last].tested > run[k].openings[episode - 1] + window * |tests|
    decreases |tests|
  {
    hide IsRun;
    last := LatestOf(run[k].calls, tests);
    AnswerIs(run, k, last, window);
    var rest := tests - {last};
    assert |rest| == |tests| - 1;
    if rest == {} {
      assert window * |tests| == window;
    } else {
      var before := TestsAreFew(run, k, rest, episode, window);
      TestsSpaced(run, k, last, before, window);
      assert window * |tests| == window * |rest| + window;
    }
  }

  lemma {:induction false} LatestOf(calls: seq<Call>, among: set<nat>) returns (last: nat)
    requires among != {} && forall i :: i in among ==> i < |calls|
    ensures last in among && forall i :: i in among ==> calls[i].tested <= calls[last].tested
    decreases |among|
  {
    var first :| first in among;
    var rest := among - {first};
    last := first;
    if rest != {} {
      var other := LatestOf(calls, rest);
      if calls[other].tested > calls[first].tested { last := other; }
    }
    forall i | i in among
      ensures calls[i].tested <= calls[last].tested
    {
      assert i in rest || i == first;
    }
  }

  // ----- what one step may do -----

  /** A step moves one call, or none and leaves the breaker alone. */
  lemma MoverOf(s: Circuit, s': Circuit, i: nat, window: int)
    requires Next(s, s', window) && i < |s.calls|
    ensures i < |s'.calls| && (s'.calls[i] != s.calls[i] ==> CallStep(s, i, s', window))
  {
    hide CallStep;
    if n: nat :| n < |s.calls| && CallStep(s, n, s', window) {
      StepEffect(s, n, s', window);
    }
  }

  /** What a request records is true: what it saw of the circuit, and when, in
      which open episode, it read the clock. */
  lemma HistoryIsTrue(run: seq<Circuit>, k: nat, i: nat, window: int)
    requires IsRun(run, window) && k + 1 < |run| && i < |run[k].calls| && i < |run[k + 1].calls|
    ensures var s, c, c' := run[k], run[k].calls[i], run[k + 1].calls[i];
            && c'.report == c.report
            && (c'.saw != c.saw ==> c'.saw == Some(s.open || (c.report == None && s.forceOpen)))
            && (c'.healthy != c.healthy ==> c.pc == Judging)
            && (c'.tested != c.tested || c'.episode != c.episode ==> c'.tested == s.clock && c'.episode == |s.openings|)
  {
    hide CallStep;
    RunInv(run, k, window);
    assert CallInv(run[k].calls[i]);
    assert Next(run[k], run[k + 1], window);
    MoverOf(run[k], run[k + 1], i, window);
    if run[k + 1].calls[i] != run[k].calls[i] { CallRecords(run[k], i, run[k + 1], window); }
  }

  lemma CallRecords(s: Circuit, i: nat, s': Circuit, window: int)
    requires i < |s.calls| && CallInv(s.calls[i]) && CallStep(s, i, s', window)
    ensures i < |s'.calls|
    ensures var c, c' := s.calls[i], s'.calls[i];
            && c'.report == c.report
            && (c'.saw != c.saw ==> c'.saw == Some(s.open || (c.report == None && s.forceOpen)))
            && (c'.healthy != c.healthy ==> c.pc == Judging)
            && (c'.tested != c.tested || c'.episode != c.episode ==> c'.tested == s.clock && c'.episode == |s.openings|)
  {
    hide NoWriter, NoReader;
  }

  /** A request that was not found healthy is told yes exactly by the step that
      makes its clock reading the last tested time; it is told no when the
      circuit is not open, when the window has not gone by, or when another
      request, which read the clock in the same episode, has been granted the
      test. */
  lemma TestAnswers(run: seq<Circuit>, k: nat, i: nat, window: int)
    requires IsRun(run, window) && k + 1 < |run| && i < |run[k].calls| && i < |run[k + 1].calls|
    requires !run[k].calls[i].pc.Returned? && run[k + 1].calls[i].pc.Returned? && !Healthy(run[k + 1].calls[i])
    ensures var s, s', c := run[k], run[k + 1], run[k + 1].calls[i];
            && (c.pc.allowed <==> s'.tester == Some(i) && s.tester != Some(i))
            && (c.pc.allowed ==> s.open && c.tested > s.lastTested + window && s'.lastTested == c.tested)
            && (!c.pc.allowed ==>
                  || !s.open || c.tested <= s.lastTested + window
                  || exists j: nat :: j < |s.calls| && j != i && Test(s.calls[j])
                       && s.calls[j].episode == c.episode && s.calls[j].tested == s.lastTested)
  {
    hide CallStep;
    RunInv(run, k, window);
    assert Next(run[k], run[k + 1], window);
    MoverOf(run[k], run[k + 1], i, window);
    StepAnswers(run[k], i, run[k + 1], window);
  }

  ghost predicate RightlyAnswered(s: Circuit, i: nat, s': Circuit, window: int) {
    i < |s'.calls| && s'.calls[i].pc.Returned? &&
    var c := s'.calls[i];
    && (c.pc.allowed <==> s'.tester == Some(i) && s.tester != Some(i))
    && (c.pc.allowed ==> s.open && c.tested > s.lastTested + window && s'.lastTested == c.tested)
    && (!c.pc.allowed ==>
          || !s.open || c.tested <= s.lastTested + window
          || exists j: nat :: j < |s.calls| && j != i && Test(s.calls[j])
               && s.calls[j].episode == c.episode && s.calls[j].tested == s.lastTested)
  }

  lemma LoadAnswers(s: Circuit, i: nat, s': Circuit, window: int)
    requires Inv(s, window) && i < |s.calls| && CallStep(s, i, s', window) && i < |s'.calls|
    requires s.calls[i].pc.TestLoad? && s'.calls[i].pc.Returned?
    ensures RightlyAnswered(s, i, s', window)
  {
    hide NoWriter, NoReader, Exclusive, ApartInv, LastInv;
    assert TestedInv(s, s.calls[i], window);
  }

  lemma SwapAnswers(s: Circuit, i: nat, s': Circuit, window: int)
    requires Inv(s, window) && i < |s.calls| && CallStep(s, i, s', window) && i < |s'.calls|
    requires s.calls[i].pc.TestSwap? && s'.calls[i].pc.Returned?
    ensures RightlyAnswered(s, i, s', window)
  {
    hide NoWriter, NoReader, Exclusive, ApartInv;
    assert CallInv(s.calls[i]) && TestedInv(s, s.calls[i], window);
  }

  /** A request that is answered without a test was found healthy. */
  lemma AnsweredWithout(s: Circuit, i: nat, s': Circuit, window: int)
    requires i < |s.calls| && CallInv(s.calls[i]) && CallStep(s, i, s', window) && i < |s'.calls|
    requires !s.calls[i].pc.Returned? && s'.calls[i].pc.Returned? && !s.calls[i].pc.TestLoad? && !s.calls[i].pc.TestSwap?
    ensures Healthy(s'.calls[i])
  {
    hide NoWriter, NoReader;
  }

  lemma StepAnswers(s: Circuit, i: nat, s': Circuit, window: int)
    requires Inv(s, window) && i < |s.calls| && CallStep(s, i, s', window) && i < |s'.calls|
    requires !s.calls[i].pc.Returned? && s'.calls[i].pc.Returned? && !Healthy(s'.calls[i])
    ensures RightlyAnswered(s, i, s', window)
  {
    hide CallStep, RightlyAnswered, Healthy;
    assert CallInv(s.calls[i]);
    if s.calls[i].pc.TestLoad? {
      LoadAnswers(s, i, s', window);
    } else if s.calls[i].pc.TestSwap? {
      SwapAnswers(s, i, s', window);
    } else {
      AnsweredWithout(s, i, s', window);
    }
  }

  /** The circuit opens only by a request that found it closed and unhealthy, at
      the time the clock shows; it closes only by a report of success that saw
      it open. */
  lemma OpensAndCloses(run: seq<Circuit>, k: nat, window: int) returns (i: nat)
    requires IsRun(run, window) && k + 1 < |run| && run[k].open != run[k + 1].open
    ensures i < |run[k].calls| && run[k].calls[i].saw.Some?
    ensures run[k + 1].open ==>
              && run[k].calls[i].saw == Some(false) && run[k].calls[i].healthy == Some(false)
              && run[k + 1].openings == run[k].openings + [run[k].clock] && run[k + 1].lastTested == run[k].clock
    ensures !run[k + 1].open ==> run[k].calls[i].report == Some(true) && run[k].calls[i].saw == Some(true)
  {
    hide CallStep;
    RunInv(run, k, window);
    assert Next(run[k], run[k + 1], window);
    i :| i < |run[k].calls| && CallStep(run[k], i, run[k + 1], window);
    StepEffect(run[k], i, run[k + 1], window);
    assert CallInv(run[k].calls[i]);
  }

  /** What a step makes of a call that found the circuit unhealthy. */
  lemma UnhealthyStep(s: Circuit, i: nat, s': Circuit, window: int)
    requires i < |s.calls| && CallInv(s.calls[i]) && CallStep(s, i, s', window)
    ensures i < |s'.calls|
    ensures s.calls[i].healthy != Some(false) && s'.calls[i].healthy == Some(false) ==> s'.calls[i].pc == OpeningLock
    ensures s.calls[i].pc == OpeningLock ==> s'.calls[i].pc == Opening
    ensures s.calls[i].pc == Opening ==> s'.open
    ensures s.calls[i].healthy == Some(false) && s.calls[i].pc != OpeningLock ==> s'.calls[i].pc != OpeningLock
  {
    hide NoWriter, NoReader;
  }

  /** A request that finds the circuit unhealthy is answered only once the circuit
      is, or has since been, open. */
  lemma {:induction false} UnhealthyOpens(run: seq<Circuit>, m: nat, k: nat, i: nat, window: int) returns (j: nat)
    requires IsRun(run, window) && m <= k < |run| && i < |run[m].calls| && run[m].calls[i].healthy != Some(false)
    requires i < |run[k].calls| && run[k].calls[i].healthy == Some(false)
    requires run[k].calls[i].pc != OpeningLock && run[k].calls[i].pc != Opening
    ensures m < j <= k && run[j].open
    decreases k - m
  {
    hide CallStep, CallInv, IsRun;
    CallsStay(run, m, k - 1, i, window);
    var s, s' := run[k - 1], run[k];
    assert Next(s, s', window) && CallInv(s.calls[i]) by { RunInv(run, k - 1, window); StepOfRun(run, k, window); }
    MoverOf(s, s', i, window);
    if s'.calls[i] == s.calls[i] {
      j := UnhealthyOpens(run, m, k - 1, i, window);
    } else {
      UnhealthyStep(s, i, s', window);
      if s.calls[i].pc == Opening { j := k; } else { j := UnhealthyOpens(run, m, k - 1, i, window); }
    }
  }

  /** What a step makes of a report of success. */
  lemma SuccessStep(s: Circuit, i: nat, s': Circuit, window: int)
    requires i < |s.calls| && CallInv(s.calls[i]) && CallStep(s, i, s', window)
    ensures i < |s'.calls| && s'.calls[i].report == s.calls[i].report
    ensures s'.calls[i].pc == Reported && s'.calls[i].report == Some(true) ==>
              if s.calls[i].pc == Closing then !s'.open else s.calls[i].pc == ReportReading && !s.open
  {
    hide NoWriter, NoReader;
  }

  /** A report of success returns only once the circuit is, or has been since it
      was called, closed. */
  lemma {:induction false} SuccessCloses(run: seq<Circuit>, m: nat, k: nat, i: nat, window: int) returns (j: nat)
    requires IsRun(run, window) && m <= k < |run| && i < |run[m].calls| && run[m].calls[i].pc != Reported
    requires i < |run[k].calls| && run[k].calls[i].pc == Reported && run[k].calls[i].report == Some(true)
    ensures m <= j <= k && !run[j].open
    decreases k - m
  {
    hide CallStep, CallInv, IsRun;
    CallsStay(run, m, k - 1, i, window);
    var s, s' := run[k - 1], run[k];
    assert Next(s, s', window) && CallInv(s.calls[i]) by { RunInv(run, k - 1, window); StepOfRun(run, k, window); }
    MoverOf(s, s', i, window);
    if s'.calls[i] == s.calls[i] {
      j := SuccessCloses(run, m, k - 1, i, window);
    } else {
      SuccessStep(s, i, s', window);
      j := if s.calls[i].pc == Closing then k else k - 1;
    }
  }

  lemma StepOfRun(run: seq<Circuit>, k: nat, window: int)
    requires IsRun(run, window) && 0 < k < |run|
    ensures Next(run[k - 1], run[k], window)
  {}

  lemma {:induction false} CallsStay(run: seq<Circuit>, m: nat, k: nat, i: nat, window: int)
    requires IsRun(run, window) && m <= k < |run| && i < |run[m].calls|
    ensures i < |run[k].calls|
    decreases k - m
  {
    hide IsRun, Next;
    if m < k {
      CallsStay(run, m, k - 1, i, window);
      StepOfRun(run, k, window);
      MoverOf(run[k - 1], run[k], i, window);
    }
  }

  // ----- no deadlock -----

  predicate Ended(c: Call) { c.pc.Returned? || c.pc == Reported }

  predicate AsksRead(c: Call) { c.pc == Arrived || c.pc == TestLock || c.pc == Reporting }

  predicate AsksWrite(c: Call) { c.pc == OpeningLock || c.pc == ClosingLock }

  /** A call that does not wait for the lock can take its next step. */
  lemma UnblockedCanStep(s: Circuit, i: nat, window: int) returns (s': Circuit)
    requires i < |s.calls| && !Ended(s.calls[i])
    requires AsksRead(s.calls[i]) || AsksWrite(s.calls[i]) ==> NoWriter(s)
    requires AsksWrite(s.calls[i]) ==> NoReader(s)
    ensures CallStep(s, i, s', window)
  {
    hide NoWriter, NoReader;
    var c := s.calls[i];
    match c.pc
    case Arrived => s' := At(s, i, c.(pc := Reading));
    case Reading =>
      var o := s.forceOpen || s.open;
      s' := At(s, i, c.(pc := if o then TestLock else Judging, saw := Some(o)));
    case Judging =>
      var healthy := true;
      s' := At(s, i, c.(pc := if healthy then Returned(true) else OpeningLock, healthy := Some(healthy)));
    case OpeningLock => s' := At(s, i, c.(pc := Opening));
    case Opening =>
      s' := if s.open then At(s, i, c.(pc := TestLock))
            else At(s, i, c.(pc := TestLock))
                 .(open := true, lastTested := s.clock, openings := s.openings + [s.clock], tester := None);
    case TestLock => s' := At(s, i, c.(pc := TestClock));
    case TestClock => s' := At(s, i, c.(pc := TestLoad(s.clock), tested := s.clock, episode := |s.openings|));
    case TestLoad(now) =>
      s' := if s.open && now > s.lastTested + window
            then At(s, i, c.(pc := TestSwap(now, s.lastTested))) else At(s, i, c.(pc := Returned(false)));
    case TestSwap(now, loaded) =>
      s' := if s.lastTested == loaded
            then At(s, i, c.(pc := Returned(true))).(lastTested := now, tester := Some(i))
            else At(s, i, c.(pc := Returned(false)));
    case Reporting => s' := At(s, i, c.(pc := ReportReading));
    case ReportReading =>
      s' := At(s, i, c.(pc := if c.report == Some(true) && s.open then ClosingLock else Reported, saw := Some(s.open)));
    case ClosingLock => s' := At(s, i, c.(pc := Closing));
    case Closing => s' := At(s, i, c.(pc := Reported)).(open := false);
  }

  /** While a call has not ended, some call can take a step: the holder of the
      lock never waits. */
  lemma NoDeadlock(s: Circuit, i: nat, window: int) returns (j: nat, s': Circuit)
    requires i < |s.calls| && !Ended(s.calls[i])
    ensures j < |s.calls| && !Ended(s.calls[j]) && CallStep(s, j, s', window)
  {
    hide CallStep;
    j := i;
    if n: nat :| n < |s.calls| && (Writes(s.calls[n]) || Reads(s.calls[n])) { j := n; }
    s' := UnblockedCanStep(s, j, window);
  }
}
