/** rate/rate.go: the token bucket, over exact reals.  Times and durations are
    in seconds. */
module RateLimiter {

  datatype Limit = Inf | PerSecond(rate: real)

  /** The longest wait a caller accepts; Forever is InfDuration. */
  datatype Patience = Forever | AtMost(d: real)

  datatype Bucket = Bucket(limit: Limit, burst: int, tokens: real, last: real, lastEvent: real)

  datatype Reservation = Reservation(ok: bool, tokens: int, timeToAct: real, limit: Limit)

  function Min(a: real, b: real): real { if a < b then a else b }

  function Max(a: real, b: real): real { if a < b then b else a }

  /** A finite limit is positive: a limit of zero makes the source divide by
      zero. */
  predicate Valid(s: Bucket) { s.limit.PerSecond? ==> s.limit.rate > 0.0 }

  function DurationFromTokens(rate: real, tokens: real): real
    requires rate > 0.0
  {
    tokens / rate
  }

  function TokensFromDuration(rate: real, d: real): real { d * rate }

  datatype Advanced = Advanced(now: real, last: real, tokens: real)

  /** The state at a later time.  At the infinite limit the time it takes to
      fill the bucket truncates to zero nanoseconds, so that nothing is added. */
  function Advance(s: Bucket, now: real): Advanced
    requires Valid(s)
  {
    var last := if now < s.last then now else s.last;
    if s.limit == Inf then Advanced(now, last, Min(s.tokens, s.burst as real))
    else
      var maxElapsed := DurationFromTokens(s.limit.rate, s.burst as real - s.tokens);
      var elapsed := now - last;
      var elapsed := if elapsed > maxElapsed then maxElapsed else elapsed;
      var tokens := s.tokens + TokensFromDuration(s.limit.rate, elapsed);
      Advanced(now, last, if tokens > s.burst as real then s.burst as real else tokens)
  }

  predicate Accepts(max: Patience, wait: real) { max.AtMost? ==> wait <= max.d }

  /** What a reservation of n tokens has to wait for. */
  function WaitFor(s: Bucket, now: real, n: int): real
    requires Valid(s) && s.limit.PerSecond?
  {
    var left := Advance(s, now).tokens - n as real;
    if left < 0.0 then DurationFromTokens(s.limit.rate, -left) else 0.0
  }

  function Reserve(s: Bucket, now: real, n: int, max: Patience): (Bucket, Reservation)
    requires Valid(s)
  {
    if s.limit == Inf then (s, Reservation(true, n, now, PerSecond(0.0)))
    else
      var a := Advance(s, now);
      var wait := WaitFor(s, now, n);
      if n <= s.burst && Accepts(max, wait) then
        (s.(last := now, tokens := a.tokens - n as real, lastEvent := now + wait),
         Reservation(true, n, now + wait, s.limit))
      else (s.(last := a.last), Reservation(false, 0, 0.0, s.limit))
  }

  function Cancel(s: Bucket, r: Reservation, now: real): Bucket
    requires Valid(s)
  {
    if !r.ok || s.limit == Inf || r.tokens == 0 || r.timeToAct < now || r.limit == Inf then s
    else
      var restore := r.tokens as real - TokensFromDuration(r.limit.rate, s.lastEvent - r.timeToAct);
      if restore <= 0.0 then s
      else
        var tokens := Min(Advance(s, now).tokens + restore, s.burst as real);
        s.(last := now, tokens := tokens, lastEvent := PreviousEvent(s, r, now))
  }

  /** The event before a cancelled one that was the latest, if that is not past.
      A reservation made at the infinite limit carries limit zero, and its
      previous event is infinitely long ago. */
  function PreviousEvent(s: Bucket, r: Reservation, now: real): real
    requires r.limit.PerSecond?
  {
    if r.timeToAct != s.lastEvent || r.limit.rate <= 0.0 then s.lastEvent
    else
      var prev := r.timeToAct + DurationFromTokens(r.limit.rate, -(r.tokens as real));
      if prev >= now then prev else s.lastEvent
  }

  function SetLimit(s: Bucket, now: real, limit: Limit): Bucket
    requires Valid(s)
  {
    var a := Advance(s, now);
    s.(last := a.now, tokens := a.tokens, limit := limit)
  }

  function SetBurst(s: Bucket, now: real, burst: int): Bucket
    requires Valid(s)
  {
    var a := Advance(s, now);
    s.(last := a.now, tokens := a.tokens, burst := burst)
  }

  // ----- what a caller sees -----

  /** The tokens available at a later time. */
  function Available(s: Bucket, t: real): real
    requires Valid(s)
  {
    Advance(s, t).tokens
  }

  lemma AdvanceNow(s: Bucket, now: real)
    requires Valid(s)
    ensures Advance(s, now).now == now && Advance(s, now).last == Min(now, s.last)
  {}

  /** What have tokens have become after some time. */
  function Filled(limit: Limit, burst: int, have: real, elapsed: real): real {
    Min(burst as real, if limit.PerSecond? then have + limit.rate * elapsed else have)
  }

  /** A request for n is granted if it is not above the burst and the missing
      tokens come in time; it may act exactly when they have. */
  predicate Granted(s: Bucket, now: real, n: int, max: Patience, r: Reservation)
    requires Valid(s) && s.limit.PerSecond?
  {
    var missing := n as real - Available(s, now);
    && (r.ok <==> n <= s.burst && (max.AtMost? ==> 0.0 <= max.d && missing <= s.limit.rate * max.d))
    && (r.ok ==> now <= r.timeToAct && s.limit.rate * (r.timeToAct - now) == Max(missing, 0.0))
  }

  /** What cancelling r gives back: its tokens, less those that the time between
      r and the latest event stands for. */
  function Refund(s: Bucket, r: Reservation, now: real): real {
    if !r.ok || s.limit == Inf || r.tokens == 0 || r.timeToAct < now || r.limit == Inf then 0.0
    else Max(r.tokens as real - r.limit.rate * (s.lastEvent - r.timeToAct), 0.0)
  }

  /** Where cancelling r leaves the latest event: only if r is the latest
      reservation, and its tokens can all still accrue before it acts, the event
      moves back, by the time they take. */
  predicate EventMoved(event: real, r: Reservation, now: real, event': real) {
    if r.timeToAct == event && r.limit.PerSecond? && r.limit.rate > 0.0
       && r.limit.rate * (r.timeToAct - now) >= r.tokens as real
    then r.limit.rate * (event - event') == r.tokens as real
    else event' == event
  }

  /** The limiter object; its mutex makes every method one atomic step. */
  class Limiter {
    var limit: Limit
    var burst: int
    var tokens: real
    var last: real
    var lastEvent: real

    function State(): Bucket
      reads this
    {
      Bucket(limit, burst, tokens, last, lastEvent)
    }

    constructor (r: Limit, b: int)
      ensures State() == Bucket(r, b, 0.0, 0.0, 0.0)
    {
      limit, burst, tokens, last, lastEvent := r, b, 0.0, 0.0, 0.0;
    }

    method ReserveN(now: real, n: int, maxFutureReserve: Patience) returns (r: Reservation)
      requires Valid(State())
      modifies this
      ensures (State(), r) == Reserve(old(State()), now, n, maxFutureReserve)
      ensures limit == old(limit) && burst == old(burst) && (r.ok ==> r.tokens == n)
      ensures lastEvent == if limit.PerSecond? && r.ok then r.timeToAct else old(lastEvent)
      ensures limit.PerSecond? && !r.ok ==> tokens == old(tokens) && last == Min(now, old(last))
      ensures limit == Inf ==> r.ok && r.timeToAct == now && State() == old(State())
      ensures limit.PerSecond? ==> Granted(old(State()), now, n, maxFutureReserve, r)
      ensures limit.PerSecond? && r.ok ==> forall t :: t >= now ==>
                Available(State(), t) == Min(burst as real, old(Available(State(), now)) - n as real + limit.rate * (t - now))
      ensures limit.PerSecond? && !r.ok && old(last) <= now ==> forall t :: t >= now ==>
                Available(State(), t) == old(Available(State(), t))
    {
      hide Available, Advance, Granted;
      ReserveAnswers(State(), now, n, maxFutureReserve);
      AdvanceNow(State(), now);
      if limit == Inf {
        return Reservation(true, n, now, PerSecond(0.0));
      }
      var a := Advance(State(), now);
      var left := a.tokens - n as real;
      var waitDuration := 0.0;
      if left < 0.0 {
        waitDuration := DurationFromTokens(limit.rate, -left);
      }
      var ok := n <= burst && Accepts(maxFutureReserve, waitDuration);
      r := Reservation(ok, 0, 0.0, limit);
      if ok {
        r := r.(tokens := n, timeToAct := a.now + waitDuration);
        last := a.now;
        tokens := left;
        lastEvent := r.timeToAct;
      } else {
        last := a.last;
      }
    }

    /** AllowN: take n tokens now or not at all. */
    method AllowN(now: real, n: int) returns (ok: bool)
      requires Valid(State())
      modifies this
      ensures ok <==> limit == Inf || (n <= old(burst) && n as real <= old(Available(State(), now)))
      ensures State() == Reserve(old(State()), now, n, AtMost(0.0)).0
    {
      var r := ReserveN(now, n, AtMost(0.0));
      ok := r.ok;
    }

    method CancelAt(r: Reservation, now: real)
      requires Valid(State())
      modifies this
      ensures State() == Cancel(old(State()), r, now)
      ensures limit == old(limit) && burst == old(burst)
      ensures limit == old(limit) && burst == old(burst)
      ensures old(Refund(State(), r, now)) == 0.0 ==> State() == old(State())
      ensures old(Refund(State(), r, now)) > 0.0 ==> EventMoved(old(lastEvent), r, now, lastEvent)
      ensures old(Refund(State(), r, now)) > 0.0 ==> limit.PerSecond? && forall t :: t >= now ==>
                Available(State(), t) ==
                Min(burst as real, old(Available(State(), now)) + old(Refund(State(), r, now)) + limit.rate * (t - now))
    {
      hide Available, Advance, Refund, EventMoved;
      CancelAnswers(State(), r, now);
      AdvanceNow(State(), now);
      if !r.ok {
        return;
      }
      if limit == Inf || r.tokens == 0 || r.timeToAct < now || r.limit == Inf {
        return;
      }
      var restoreTokens := r.tokens as real - TokensFromDuration(r.limit.rate, lastEvent - r.timeToAct);
      if restoreTokens <= 0.0 {
        return;
      }
      var a := Advance(State(), now);
      var left := a.tokens + restoreTokens;
      if left > burst as real {
        left := burst as real;
      }
      last := a.now;
      tokens := left;
      if r.timeToAct == lastEvent && r.limit.rate > 0.0 {
        var prevEvent := r.timeToAct + DurationFromTokens(r.limit.rate, -(r.tokens as real));
        if prevEvent >= a.now {
          lastEvent := prevEvent;
        }
      }
    }

    method SetLimitAt(now: real, newLimit: Limit)
      requires Valid(State())
      modifies this
      ensures State() == SetLimit(old(State()), now, newLimit)
      ensures limit == newLimit && burst == old(burst) && lastEvent == old(lastEvent)
      ensures Valid(State()) ==> forall t :: t >= now ==>
                Available(State(), t) == Filled(newLimit, old(burst), old(Available(State(), now)), t - now)
    {
      SetLimitAnswers(State(), now, newLimit);
      var a := Advance(State(), now);
      last := a.now;
      tokens := a.tokens;
      limit := newLimit;
    }

    method SetBurstAt(now: real, newBurst: int)
      requires Valid(State())
      modifies this
      ensures State() == SetBurst(old(State()), now, newBurst)
      ensures limit == old(limit) && burst == newBurst && lastEvent == old(lastEvent)
      ensures forall t :: t >= now ==>
                Available(State(), t) == Filled(old(limit), newBurst, old(Available(State(), now)), t - now)
    {
      SetBurstAnswers(State(), now, newBurst);
      var a := Advance(State(), now);
      last := a.now;
      tokens := a.tokens;
      burst := newBurst;
    }
  }

  // ----- one call -----

  /** What the limit gives between two times. */
  function Gain(rate: real, from: real, t: real): real { rate * (t - from) }

  lemma WaitIsZero(s: Bucket, now: real, n: int)
    requires Valid(s) && s.limit.PerSecond?
    ensures WaitFor(s, now, n) >= 0.0
    ensures WaitFor(s, now, n) <= 0.0 <==> n as real <= Advance(s, now).tokens
    ensures WaitFor(s, now, n) * s.limit.rate == Max(n as real - Advance(s, now).tokens, 0.0)
  {
    var left := Advance(s, now).tokens - n as real;
    if left < 0.0 {
      Divide(-left, s.limit.rate);
    }
  }

  lemma Divide(a: real, b: real)
    requires b > 0.0
    ensures a / b * b == a && (a > 0.0 ==> a / b > 0.0) && (a <= 0.0 ==> a / b <= 0.0)
  {}

  /** The guard against overflow changes nothing: the bucket fills at the limit,
      up to the burst. */
  lemma AdvanceFills(s: Bucket, now: real)
    requires Valid(s) && s.limit.PerSecond?
    ensures var a := Advance(s, now); var elapsed := Max(now - s.last, 0.0);
            a.tokens == Min(s.burst as real, s.tokens + s.limit.rate * elapsed)
  {
    var rate, room := s.limit.rate, s.burst as real - s.tokens;
    var maxElapsed := DurationFromTokens(rate, room);
    Divide(room, rate);
    var elapsed := Max(now - s.last, 0.0);
    Faster(elapsed, maxElapsed, rate);
  }

  lemma Faster(a: real, b: real, rate: real)
    requires rate > 0.0
    ensures a > b <==> rate * a > rate * b
    ensures a * rate == rate * a && b * rate == rate * b
  {
    if a > b { assert rate * (a - b) > 0.0; }
    if a < b { assert rate * (b - a) > 0.0; }
  }

  // ----- histories -----

  datatype Request = Request(now: real, n: int, max: Patience)

  /** The bucket after a sequence of requests, and the reservations granted. */
  function History(s: Bucket, reqs: seq<Request>): (h: (Bucket, seq<Reservation>))
    requires Valid(s)
    ensures Valid(h.0) && h.0.limit == s.limit && h.0.burst == s.burst
  {
    if reqs == [] then (s, [])
    else
      var k := |reqs| - 1;
      var h := History(s, reqs[..k]);
      var (s', r) := Reserve(h.0, reqs[k].now, reqs[k].n, reqs[k].max);
      (s', if r.ok then h.1 + [r] else h.1)
  }

  /** Requests in the order of their times. */
  ghost predicate InTime(s: Bucket, reqs: seq<Request>) {
    && (forall i :: 0 <= i < |reqs| ==> s.last <= reqs[i].now)
    && (forall i, j :: 0 <= i < j < |reqs| ==> reqs[i].now <= reqs[j].now)
  }

  /** None of them for a negative number. */
  ghost predicate InOrder(s: Bucket, reqs: seq<Request>) {
    InTime(s, reqs) && forall i :: 0 <= i < |reqs| ==> reqs[i].n >= 0
  }

  /** The tokens of the reservations whose time to act lies in [lo, hi]. */
  function Total(g: seq<Reservation>, lo: real, hi: real): real {
    if g == [] then 0.0
    else
      var k := |g| - 1;
      Total(g[..k], lo, hi) + (if lo <= g[k].timeToAct <= hi then g[k].tokens as real else 0.0)
  }

  /** The tokens left at the time of the latest event. */
  function Level(s: Bucket): real { Max(s.tokens, 0.0) }

  /** The latest event is when the debt of the bucket is paid. */
  ghost predicate Settled(s: Bucket, g: seq<Reservation>) {
    && s.limit.PerSecond?
    && (forall i, j :: 0 <= i < j < |g| ==> g[i].timeToAct <= g[j].timeToAct)
    && (|g| > 0 ==>
          && s.lastEvent == g[|g| - 1].timeToAct
          && Gain(s.limit.rate, s.last, s.lastEvent) == Max(-s.tokens, 0.0))
  }

  lemma GainSplit(rate: real, a: real, b: real, c: real)
    ensures Gain(rate, a, b) + Gain(rate, b, c) == Gain(rate, a, c)
  {}

  lemma GainSign(rate: real, a: real, b: real)
    requires rate > 0.0
    ensures a <= b <==> Gain(rate, a, b) >= 0.0
  {
    Faster(b, a, rate);
    Faster(a, b, rate);
    GainDifference(rate, a, b);
  }

  lemma GainDifference(rate: real, a: real, b: real)
    ensures Gain(rate, a, b) == rate * b - rate * a
  {}

  /** What one grant adds, it takes from the level or from the time that
      passed between the two events. */
  lemma GrantStep(s: Bucket, now: real, n: int, max: Patience)
    requires Valid(s) && s.limit.PerSecond? && s.last <= now && n >= 0
    requires Reserve(s, now, n, max).1.ok
    ensures var s' := Reserve(s, now, n, max).0;
            && Gain(s.limit.rate, s'.last, s'.lastEvent) == Max(-s'.tokens, 0.0)
            && n as real + Level(s') <= Max(n as real, s.burst as real) && n <= s.burst
            && s'.tokens <= s.burst as real
    ensures Gain(s.limit.rate, s.last, s.lastEvent) == Max(-s.tokens, 0.0) ==>
              var s' := Reserve(s, now, n, max).0;
              && n as real + Level(s') <= Level(s) + Gain(s.limit.rate, s.lastEvent, s'.lastEvent)
              && s.lastEvent <= s'.lastEvent
  {
    hide Reserve, Advance, WaitFor, Level, Max, Min, Gain;
    GrantTokens(s, now, n, max);
    var rate, a, b := s.limit.rate, Advance(s, now).tokens, s.burst as real;
    var s' := Reserve(s, now, n, max).0;
    var x, y := Gain(rate, s.last, s'.last), Gain(rate, s'.last, s'.lastEvent);
    GrantLevel(b, a, n as real, y);
    if Gain(rate, s.last, s.lastEvent) == Max(-s.tokens, 0.0) {
      var gap := Gain(rate, s.lastEvent, s'.lastEvent);
      GainSplit(rate, s.last, s.lastEvent, s'.lastEvent);
      GainSplit(rate, s.last, s'.last, s'.lastEvent);
      GrantAlgebra(b, s.tokens, a, n as real, x, y, gap);
      GainSign(rate, s.lastEvent, s'.lastEvent);
    }
  }

  /** A grant, in terms of what the limit gives until now and while waiting. */
  lemma GrantTokens(s: Bucket, now: real, n: int, max: Patience)
    requires Valid(s) && s.limit.PerSecond? && s.last <= now && Reserve(s, now, n, max).1.ok
    ensures var s' := Reserve(s, now, n, max).0;
            var a, rate := Advance(s, now).tokens, s.limit.rate;
            && n <= s.burst && s'.tokens == a - n as real && s'.last == now
            && a == Min(s.burst as real, s.tokens + Gain(rate, s.last, s'.last)) && a <= s.burst as real
            && Gain(rate, s'.last, s'.lastEvent) == Max(n as real - a, 0.0)
            && Level(s') == Max(s'.tokens, 0.0) && Level(s) == Max(s.tokens, 0.0)
            && Gain(rate, s.last, s'.last) >= 0.0
  {
    AdvanceFills(s, now);
    WaitIsZero(s, now, n);
    ReservedTokens(s, now, n, max);
    GainSign(s.limit.rate, s.last, now);
    hide Reserve, Advance, WaitFor;
  }

  lemma GrantLevel(b: real, a: real, n: real, y: real)
    requires 0.0 <= n <= b && a <= b && y == Max(n - a, 0.0)
    ensures y == Max(-(a - n), 0.0) && n + Max(a - n, 0.0) <= Max(n, b) && a - n <= b
  {}

  /** x is given until now, y while waiting, and gap between the two events. */
  lemma GrantAlgebra(b: real, tokens: real, a: real, n: real, x: real, y: real, gap: real)
    requires n >= 0.0 && x >= 0.0 && a == Min(b, tokens + x) && y == Max(n - a, 0.0)
    requires gap == y + x - Max(-tokens, 0.0)
    ensures n + Max(a - n, 0.0) <= Max(tokens, 0.0) + gap && gap >= 0.0
  {}

  /** What was granted from lo on, and what is left, is at most the burst and
      what the limit gave since lo. */
  ghost predicate Bounded(s: Bucket, g: seq<Reservation>, lo: real) {
    s.limit.PerSecond? && |g| > 0 && lo <= s.lastEvent ==>
      Total(g, lo, s.lastEvent) + Level(s) <= s.burst as real + Gain(s.limit.rate, lo, s.lastEvent)
  }

  function WithGrant(g: seq<Reservation>, r: Reservation): seq<Reservation> { if r.ok then g + [r] else g }

  lemma StepSettled(s: Bucket, g: seq<Reservation>, q: Request)
    requires Valid(s) && Settled(s, g) && s.tokens <= s.burst as real && s.last <= q.now && q.n >= 0
    ensures var (s', r) := Reserve(s, q.now, q.n, q.max);
            && Settled(s', WithGrant(g, r)) && s'.tokens <= s.burst as real
            && s.last <= s'.last <= q.now
  {
    var (s', r) := Reserve(s, q.now, q.n, q.max);
    if r.ok {
      GrantStep(s, q.now, q.n, q.max);
      hide Advance, WaitFor, Level;
      assert |g| > 0 ==> s.lastEvent <= s'.lastEvent;
    }
  }

  lemma StepBounded(s: Bucket, g: seq<Reservation>, q: Request, lo: real)
    requires Valid(s) && Settled(s, g) && Bounded(s, g, lo) && s.last <= q.now && q.n >= 0
    ensures var (s', r) := Reserve(s, q.now, q.n, q.max);
            Bounded(s', WithGrant(g, r), lo)
  {
    hide Reserve, Level, Gain, Max;
    var (s', r) := Reserve(s, q.now, q.n, q.max);
    if r.ok {
      GrantStep(s, q.now, q.n, q.max);
      GrantEvent(s, q);
      if lo <= s'.lastEvent {
        GrantBounded(s, g, s', r, lo);
      }
    } else {
      RefusalKeeps(s, q);
    }
  }

  lemma RefusalKeeps(s: Bucket, q: Request)
    requires Valid(s) && s.limit.PerSecond? && !Reserve(s, q.now, q.n, q.max).1.ok
    ensures var s' := Reserve(s, q.now, q.n, q.max).0;
            Level(s') == Level(s) && s'.lastEvent == s.lastEvent && s'.limit == s.limit && s'.burst == s.burst
  {}

  lemma GrantEvent(s: Bucket, q: Request)
    requires Valid(s) && s.limit.PerSecond? && Reserve(s, q.now, q.n, q.max).1.ok
    ensures var (s', r) := Reserve(s, q.now, q.n, q.max);
            r.timeToAct == s'.lastEvent && r.tokens == q.n && s'.limit == s.limit && s'.burst == s.burst
  {}

  lemma GrantBounded(s: Bucket, g: seq<Reservation>, s': Bucket, r: Reservation, lo: real)
    requires Settled(s, g) && Bounded(s, g, lo) && r.ok && r.tokens <= s.burst
    requires s'.limit == s.limit && s'.burst == s.burst && r.timeToAct == s'.lastEvent >= lo && s.limit.rate > 0.0
    requires r.tokens as real + Level(s') <= Max(r.tokens as real, s.burst as real)
    requires |g| > 0 ==>
               && s.lastEvent <= s'.lastEvent
               && r.tokens as real + Level(s') <= Level(s) + Gain(s.limit.rate, s.lastEvent, s'.lastEvent)
    ensures Bounded(s', g + [r], lo)
  {
    hide Level, Gain;
    var rate, hi := s.limit.rate, s'.lastEvent;
    assert (g + [r])[..|g|] == g;
    if |g| > 0 && s.lastEvent >= lo {
      TotalUpTo(g, lo, s.lastEvent, hi);
      GainSplit(rate, lo, s.lastEvent, hi);
    } else {
      assert forall i :: 0 <= i < |g| ==> g[i].timeToAct < lo;
      TotalBefore(g, lo, hi);
      GainSign(rate, lo, hi);
      assert Total(g + [r], lo, hi) == r.tokens as real;
      assert Max(r.tokens as real, s.burst as real) == s.burst as real;
    }
  }

  lemma {:induction false} TotalUpTo(g: seq<Reservation>, lo: real, hi: real, hi': real)
    requires hi <= hi' && forall i :: 0 <= i < |g| ==> g[i].timeToAct <= hi
    ensures Total(g, lo, hi') == Total(g, lo, hi)
  {
    if g != [] { TotalUpTo(g[..|g| - 1], lo, hi, hi'); }
  }

  lemma {:induction false} TotalBefore(g: seq<Reservation>, lo: real, hi: real)
    requires forall i :: 0 <= i < |g| ==> g[i].timeToAct < lo
    ensures Total(g, lo, hi) == 0.0
  {
    if g != [] { TotalBefore(g[..|g| - 1], lo, hi); }
  }

  /** Every history keeps the bucket within its burst, its grants in order, its
      latest event where the debt is paid, and what it granted bounded. */
  lemma {:induction false} HistoryBounded(s: Bucket, reqs: seq<Request>, lo: real)
    requires Valid(s) && s.limit.PerSecond? && s.tokens <= s.burst as real && InOrder(s, reqs)
    ensures var (s', g) := History(s, reqs);
            && Settled(s', g) && Bounded(s', g, lo) && s'.tokens <= s.burst as real
            && s'.last >= s.last && (reqs == [] ==> s' == s)
            && (reqs != [] ==> s'.last <= reqs[|reqs| - 1].now)
  {
    if reqs != [] {
      var k := |reqs| - 1;
      HistoryBounded(s, reqs[..k], lo);
      var h := History(s, reqs[..k]);
      assert h.0.last <= reqs[k].now by {
        if k > 0 { assert reqs[..k][k - 1] == reqs[k - 1]; }
      }
      hide Reserve, Settled, Bounded;
      StepSettled(h.0, h.1, reqs[k]);
      StepBounded(h.0, h.1, reqs[k], lo);
    }
  }

  lemma {:induction false} TotalBounded(s: Bucket, reqs: seq<Request>, lo: real, hi: real)
    requires Valid(s) && s.limit.PerSecond? && 0 <= s.burst && s.tokens <= s.burst as real
    requires InOrder(s, reqs) && lo <= hi
    ensures Total(History(s, reqs).1, lo, hi) <= s.burst as real + Gain(s.limit.rate, lo, hi)
  {
    hide Reserve, Settled, Bounded, Gain;
    GainSign(s.limit.rate, lo, hi);
    if reqs != [] {
      var k := |reqs| - 1;
      TotalBounded(s, reqs[..k], lo, hi);
      HistoryBounded(s, reqs, lo);
      var h := History(s, reqs[..k]);
      var (s', g) := History(s, reqs);
      SameLimits(s, reqs);
      var r := Reserve(h.0, reqs[k].now, reqs[k].n, reqs[k].max).1;
      if |g| > 0 && s'.lastEvent <= hi {
        IntervalBound(s', g, lo, hi);
      } else if r.ok {
        assert g[..|h.1|] == h.1 && g[|h.1|] == r;
        LatestGrant(s', g);
      }
    }
  }

  lemma {:induction false} SameLimits(s: Bucket, reqs: seq<Request>)
    requires Valid(s)
    ensures var s' := History(s, reqs).0; s'.limit == s.limit && s'.burst == s.burst
  {
    if reqs != [] { SameLimits(s, reqs[..|reqs| - 1]); }
  }

  /** The rate bound.  For every history of requests with non-decreasing times,
      from any bucket that is not overfull, the reservations whose time to act
      lies in any interval take at most the burst, and the limit times the
      length of the interval. */
  lemma RateBound(s: Bucket, reqs: seq<Request>, lo: real, hi: real)
    requires Valid(s) && s.limit.PerSecond? && 0 <= s.burst && s.tokens <= s.burst as real
    requires InOrder(s, reqs) && lo <= hi
    ensures Total(History(s, reqs).1, lo, hi) <= s.burst as real + s.limit.rate * (hi - lo)
  {
    TotalBounded(s, reqs, lo, hi);
    hide History, InOrder;
  }

  lemma LatestGrant(s: Bucket, g: seq<Reservation>)
    requires Settled(s, g) && |g| > 0
    ensures g[|g| - 1].timeToAct == s.lastEvent
  {}

  lemma IntervalBound(s: Bucket, g: seq<Reservation>, lo: real, hi: real)
    requires Settled(s, g) && Bounded(s, g, lo) && |g| > 0 && s.lastEvent <= hi && lo <= hi
    requires s.limit.rate > 0.0 && s.burst >= 0
    ensures Total(g, lo, hi) <= s.burst as real + Gain(s.limit.rate, lo, hi)
  {
    var rate := s.limit.rate;
    if lo <= s.lastEvent {
      TotalUpTo(g, lo, s.lastEvent, hi);
      GainSign(rate, s.lastEvent, hi);
      GainSplit(rate, lo, s.lastEvent, hi);
    } else {
      TotalBefore(g, lo, hi);
      GainSign(rate, lo, hi);
    }
  }

  // ----- requests for a negative number -----

  /** The source accepts a request for a negative number.  It may leave more than
      burst tokens stored, until the next call caps them. */
  lemma NegativeRequestOverfills()
    ensures var s := Bucket(PerSecond(1.0), 5, 5.0, 0.0, 0.0);
            var (s', r) := Reserve(s, 0.0, -3, Forever);
            r.ok && s'.tokens == 8.0 > s'.burst as real
  {}

  /** A request for n events can leave more than burst tokens in a bucket that
      held no more than that. */
  ghost predicate Overfills(n: int) {
    exists s: Bucket, now: real, max: Patience ::
      && Valid(s) && s.limit.PerSecond? && s.last <= now && s.tokens <= s.burst as real
      && Reserve(s, now, n, max).0.tokens > s.burst as real
  }

  /** Exactly the requests for a negative number overfill. */
  lemma OverfillsIfNegative(n: int)
    ensures Overfills(n) <==> n < 0
  {
    hide Reserve, Advance, WaitFor;
    EmptyOverfills(n);
    forall s: Bucket, now: real, max: Patience |
      n >= 0 && Valid(s) && s.limit.PerSecond? && s.last <= now && s.tokens <= s.burst as real
      ensures Reserve(s, now, n, max).0.tokens <= s.burst as real
    {
      if Reserve(s, now, n, max).1.ok {
        GrantStep(s, now, n, max);
      } else {
        RefusalTokens(s, now, n, max);
      }
    }
  }

  lemma EmptyOverfills(n: int)
    ensures n < 0 ==> Reserve(Bucket(PerSecond(1.0), 0, 0.0, 0.0, 0.0), 0.0, n, Forever).0.tokens > 0.0
  {}

  lemma RefusalTokens(s: Bucket, now: real, n: int, max: Patience)
    requires Valid(s) && s.limit.PerSecond? && !Reserve(s, now, n, max).1.ok
    ensures Reserve(s, now, n, max).0.tokens == s.tokens
  {}

  ghost predicate ActsInOrder(g: seq<Reservation>) {
    forall i, j :: 0 <= i < j < |g| ==> g[i].timeToAct <= g[j].timeToAct
  }

  /** It also moves the latest event back, so that the tokens it gave can be
      reserved again for the same time: 10 act at once, with burst 5. */
  lemma NegativeRequestBreaksBound()
    ensures var s := Bucket(PerSecond(1.0), 5, 0.0, 0.0, 0.0);
            var g := History(s, GiveAndTake(5)).1;
            Total(g, 5.0, 5.0) == 10.0 && !ActsInOrder(g)
  {
    GivenAndTaken(5);
  }

  /** k events, k of them taken back, and k again, all at time zero. */
  function GiveAndTake(k: int): seq<Request> {
    [Request(0.0, k, Forever), Request(0.0, -k, Forever), Request(0.0, k, Forever)]
  }

  function EmptyBucket(k: int): Bucket { Bucket(PerSecond(1.0), k, 0.0, 0.0, 0.0) }

  lemma GivenAndTaken(k: int)
    requires k > 0
    ensures var g := History(EmptyBucket(k), GiveAndTake(k)).1;
            Total(g, k as real, k as real) == 2.0 * k as real && !ActsInOrder(g)
  {
    hide Reserve, History, Total, ActsInOrder;
    var s, reqs := EmptyBucket(k), GiveAndTake(k);
    var a := TakeAll(k);
    var back := Reservation(true, -k, 0.0, PerSecond(1.0));
    GiveBack(k);
    NoHistory(s);
    HistoryMore(s, [], reqs[0]);
    HistoryMore(s, [reqs[0]], reqs[1]);
    HistoryMore(s, [reqs[0], reqs[1]], reqs[2]);
    assert [] + [reqs[0]] == [reqs[0]] && [reqs[0]] + [reqs[1]] == [reqs[0], reqs[1]];
    assert [reqs[0], reqs[1]] + [reqs[2]] == reqs;
    assert [] + [a] == [a] && [a] + [back] == [a, back] && [a, back] + [a] == [a, back, a];
    TotalOfThree(a, back, a, k as real);
  }

  lemma NoHistory(s: Bucket)
    requires Valid(s)
    ensures History(s, []) == (s, [])
  {}

  lemma HistoryMore(s: Bucket, reqs: seq<Request>, q: Request)
    requires Valid(s)
    ensures var h := History(s, reqs); var (s', r) := Reserve(h.0, q.now, q.n, q.max);
            History(s, reqs + [q]) == (s', WithGrant(h.1, r))
  {
    assert (reqs + [q])[..|reqs|] == reqs;
  }

  lemma TakeAll(k: int) returns (r: Reservation)
    requires k > 0
    ensures r == Reservation(true, k, k as real, PerSecond(1.0))
    ensures Reserve(EmptyBucket(k), 0.0, k, Forever) ==
            (Bucket(PerSecond(1.0), k, -(k as real), 0.0, k as real), r)
  {
    r := Reservation(true, k, k as real, PerSecond(1.0));
  }

  lemma GiveBack(k: int)
    requires k > 0
    ensures Reserve(Bucket(PerSecond(1.0), k, -(k as real), 0.0, k as real), 0.0, -k, Forever) ==
            (EmptyBucket(k), Reservation(true, -k, 0.0, PerSecond(1.0)))
  {}

  lemma TotalOfThree(a: Reservation, b: Reservation, c: Reservation, t: real)
    requires a.timeToAct == c.timeToAct == t > b.timeToAct
    ensures Total([a, b, c], t, t) == a.tokens as real + c.tokens as real && !ActsInOrder([a, b, c])
  {
    var g := [a, b, c];
    assert g[..2] == [a, b] && g[..2][..1] == [a] && [a][..0] == [];
    assert Total([a], t, t) == a.tokens as real;
    assert Total([a, b], t, t) == a.tokens as real;
    assert g[0] == a && g[1] == b;
  }

  /** A history whose only negative requests are for n, from a bucket that is not
      overfull. */
  ghost predicate UsesOnly(n: int, s: Bucket, reqs: seq<Request>) {
    && Valid(s) && s.limit.PerSecond? && 0 <= s.burst && s.tokens <= s.burst as real && InTime(s, reqs)
    && forall i :: 0 <= i < |reqs| ==> reqs[i].n >= 0 || reqs[i].n == n
  }

  ghost predicate BreaksBound(n: int) {
    exists s: Bucket, reqs: seq<Request>, lo: real, hi: real ::
      && UsesOnly(n, s, reqs) && lo <= hi
      && Total(History(s, reqs).1, lo, hi) > s.burst as real + s.limit.rate * (hi - lo)
  }

  ghost predicate BreaksOrder(n: int) {
    exists s: Bucket, reqs: seq<Request> :: UsesOnly(n, s, reqs) && !ActsInOrder(History(s, reqs).1)
  }

  /** Exactly the requests for a negative number can break the rate bound, and
      the order of the times to act. */
  lemma BreaksIfNegative(n: int)
    ensures BreaksBound(n) <==> n < 0
    ensures BreaksOrder(n) <==> n < 0
  {
    hide History, Total;
    if n < 0 {
      GivenAndTaken(-n);
      var s, reqs, t := EmptyBucket(-n), GiveAndTake(-n), -n as real;
      assert UsesOnly(n, s, reqs);
      assert Total(History(s, reqs).1, t, t) > s.burst as real + s.limit.rate * (t - t);
    } else {
      forall s: Bucket, reqs: seq<Request>, lo: real, hi: real | UsesOnly(n, s, reqs) && lo <= hi
        ensures Total(History(s, reqs).1, lo, hi) <= s.burst as real + s.limit.rate * (hi - lo)
      {
        RateBound(s, reqs, lo, hi);
      }
      forall s: Bucket, reqs: seq<Request> | UsesOnly(n, s, reqs)
        ensures ActsInOrder(History(s, reqs).1)
      {
        HistoryBounded(s, reqs, 0.0);
      }
    }
  }

  // ----- the answers of one call -----

  lemma ReserveAnswers(s: Bucket, now: real, n: int, max: Patience)
    requires Valid(s)
    ensures s.limit.PerSecond? ==> Granted(s, now, n, max, Reserve(s, now, n, max).1)
    ensures var (s', r) := Reserve(s, now, n, max);
            s.limit.PerSecond? && r.ok ==> forall t :: t >= now ==>
              Available(s', t) == Min(s.burst as real, Available(s, now) - n as real + s.limit.rate * (t - now))
    ensures var (s', r) := Reserve(s, now, n, max);
            s.limit.PerSecond? && !r.ok && s.last <= now ==> forall t :: t >= now ==>
              Available(s', t) == Available(s, t)
  {
    if s.limit.PerSecond? {
      hide Reserve, Advance, WaitFor, Min, Max;
      var (s', r) := Reserve(s, now, n, max);
      ReserveDecides(s, now, n, max);
      forall t | t >= now
        ensures r.ok ==> Available(s', t) == Min(s.burst as real, Available(s, now) - n as real + s.limit.rate * (t - now))
        ensures !r.ok && s.last <= now ==> Available(s', t) == Available(s, t)
      {
        if r.ok {
          ReservedTokens(s, now, n, max);
          FillsSince(s', now, t, s.limit.rate);
        } else if s.last <= now {
          RefusalSame(s, now, n, max);
        }
      }
    }
  }

  lemma ReserveDecides(s: Bucket, now: real, n: int, max: Patience)
    requires Valid(s) && s.limit.PerSecond?
    ensures Granted(s, now, n, max, Reserve(s, now, n, max).1)
  {
    hide Advance;
    WaitIsZero(s, now, n);
    if max.AtMost? { Faster(WaitFor(s, now, n), max.d, s.limit.rate); }
  }

  lemma RefusalSame(s: Bucket, now: real, n: int, max: Patience)
    requires Valid(s) && s.limit.PerSecond? && !Reserve(s, now, n, max).1.ok && s.last <= now
    ensures Reserve(s, now, n, max).0 == s
  {}

  lemma CancelAnswers(s: Bucket, r: Reservation, now: real)
    requires Valid(s)
    ensures var c := Cancel(s, r, now); var refund := Refund(s, r, now);
            && c.limit == s.limit && c.burst == s.burst && refund >= 0.0
            && (refund > 0.0 ==> EventMoved(s.lastEvent, r, now, c.lastEvent))
            && (refund == 0.0 ==> c == s)
            && (refund > 0.0 ==> s.limit.PerSecond? && forall t :: t >= now ==>
                  Available(c, t) == Min(s.burst as real, Available(s, now) + refund + s.limit.rate * (t - now)))
  {
    hide Advance, PreviousEvent, EventMoved;
    var c, refund := Cancel(s, r, now), Refund(s, r, now);
    if refund > 0.0 {
      EventMovesBack(s, r, now);
      forall t | t >= now
        ensures Available(c, t) == Min(s.burst as real, Available(s, now) + refund + s.limit.rate * (t - now))
      {
        FillsSince(c, now, t, s.limit.rate);
      }
    }
  }

  lemma EventMovesBack(s: Bucket, r: Reservation, now: real)
    requires Refund(s, r, now) > 0.0
    ensures EventMoved(s.lastEvent, r, now, PreviousEvent(s, r, now))
  {
    if r.limit.rate > 0.0 {
      var rate, n := r.limit.rate, r.tokens as real;
      Divide(-n, rate);
      Divide(n, rate);
      Negated(n, rate);
      Faster(n / rate, r.timeToAct - now, rate);
      Faster(r.timeToAct - now, n / rate, rate);
    }
  }

  lemma SetLimitAnswers(s: Bucket, now: real, limit: Limit)
    requires Valid(s)
    ensures var s' := SetLimit(s, now, limit);
            Valid(s') ==> forall t :: t >= now ==>
              Available(s', t) == Filled(limit, s.burst, Available(s, now), t - now)
  {
    var s' := SetLimit(s, now, limit);
    if Valid(s') {
      forall t | t >= now
        ensures Available(s', t) == Filled(limit, s.burst, Available(s, now), t - now)
      {
        if limit.PerSecond? {
          hide Advance;
          FillsSince(s', now, t, limit.rate);
        }
      }
    }
  }

  lemma SetBurstAnswers(s: Bucket, now: real, burst: int)
    requires Valid(s)
    ensures var s' := SetBurst(s, now, burst);
            forall t :: t >= now ==> Available(s', t) == Filled(s.limit, burst, Available(s, now), t - now)
  {
    var s' := SetBurst(s, now, burst);
    forall t | t >= now
      ensures Available(s', t) == Filled(s.limit, burst, Available(s, now), t - now)
    {
      if s.limit.PerSecond? {
        hide Advance;
        FillsSince(s', now, t, s.limit.rate);
      }
    }
  }

  // ----- cancellation and reconfiguration -----

  /** Cancelling a reservation before its time to act, with no call in between,
      gives everything back: at every later instant as many tokens are available
      as if it had never been made. */
  lemma CancelUndoesReserve(s: Bucket, now: real, n: int, max: Patience, later: real, t: real)
    requires Valid(s) && s.limit.PerSecond? && s.last <= now <= later <= t && 0 <= s.burst && n > 0
    requires var r := Reserve(s, now, n, max).1; r.ok && later <= r.timeToAct
    ensures var (s', r) := Reserve(s, now, n, max);
            Available(Cancel(s', r, later), t) == Available(s, t)
  {
    hide Reserve, Cancel, Advance, WaitFor, Min, Max, Gain;
    ReservedTokens(s, now, n, max);
    var (s', r) := Reserve(s, now, n, max);
    var c := Cancel(s', r, later);
    var rate, b := s.limit.rate, s.burst as real;
    var x, y, z := Gain(rate, s.last, now), Gain(rate, now, later), Gain(rate, later, t);
    CancelTokens(s', r, later);
    FillsSince(s, s.last, now, rate);
    FillsSince(s, s.last, t, rate);
    FillsSince(s', now, later, rate);
    FillsSince(c, later, t, rate);
    WaitCovers(s, now, n, later, rate);
    GainSplit(rate, s.last, now, t);
    GainSplit(rate, now, later, t);
    CancelAlgebra(b, s.tokens, n as real, x, y, z);
  }

  lemma FillsSince(s: Bucket, from: real, t: real, rate: real)
    requires Valid(s) && s.limit == PerSecond(rate) && s.last == from <= t
    ensures Advance(s, t).tokens == Min(s.burst as real, s.tokens + Gain(rate, from, t))
    ensures Gain(rate, from, t) >= 0.0
  {
    AdvanceFills(s, t);
    GainSign(rate, from, t);
  }

  lemma WaitCovers(s: Bucket, now: real, n: int, later: real, rate: real)
    requires Valid(s) && s.limit == PerSecond(rate) && now <= later <= now + WaitFor(s, now, n)
    ensures Gain(rate, now, later) <= Max(n as real - Advance(s, now).tokens, 0.0)
  {
    WaitIsZero(s, now, n);
    var act := now + WaitFor(s, now, n);
    hide WaitFor, Advance;
    GainSign(rate, later, act);
    GainSplit(rate, now, later, act);
  }

  lemma ReservedTokens(s: Bucket, now: real, n: int, max: Patience)
    requires Valid(s) && s.limit.PerSecond? && Reserve(s, now, n, max).1.ok
    ensures var (s', r) := Reserve(s, now, n, max);
            && s'.tokens == Advance(s, now).tokens - n as real && s'.last == now
            && s'.limit == s.limit && s'.burst == s.burst && s'.lastEvent == r.timeToAct
            && r.limit == s.limit && r.tokens == n && r.timeToAct - now == WaitFor(s, now, n)
  {}

  /** b is the burst; x, y and z are what the limit gives before the call,
      until the cancellation, and after it. */
  lemma CancelAlgebra(b: real, tokens: real, n: real, x: real, y: real, z: real)
    requires b >= 0.0 && n > 0.0 && x >= 0.0 && y >= 0.0 && z >= 0.0
    requires var a := Min(b, tokens + x); y <= Max(n - a, 0.0)
    ensures var a := Min(b, tokens + x);
            Min(b, Min(Min(b, a - n + y) + n, b) + z) == Min(b, tokens + (x + y + z))
  {}

  lemma CancelTokens(s: Bucket, r: Reservation, now: real)
    requires Valid(s) && s.limit.PerSecond? && r.ok && r.tokens > 0 && now <= r.timeToAct == s.lastEvent
    requires r.limit.PerSecond?
    ensures var c := Cancel(s, r, now);
            && c.tokens == Min(Advance(s, now).tokens + r.tokens as real, s.burst as real)
            && c.last == now && c.limit == s.limit && c.burst == s.burst
  {}

  /** The second of two cancellations of one reservation: what it gives on top,
      which is n, or twice n when the first has moved the latest event back.  It
      changes nothing exactly when the bucket would be full anyway. */
  lemma CancelTwice(s: Bucket, now: real, n: int, max: Patience, first: real, second: real)
    requires Valid(s) && s.limit.PerSecond? && 0 <= s.burst && n > 0 && s.last <= now <= first <= second
    requires var r := Reserve(s, now, n, max).1; r.ok && second <= r.timeToAct
    ensures var (s', r) := Reserve(s, now, n, max);
            var extra := if s.limit.rate * (r.timeToAct - first) >= n as real then 2 * n else n;
            var c := Cancel(Cancel(s', r, first), r, second);
            && Available(c, second) == Min(s.burst as real, Available(s, second) + extra as real)
            && (Available(c, second) == Available(s, second) <==> Available(s, second) == s.burst as real)
  {
    hide Reserve, Cancel, Advance, WaitFor;
    ReservedTokens(s, now, n, max);
    var (s', r) := Reserve(s, now, n, max);
    var c := Cancel(s', r, first);
    CancelTokens(s', r, first);
    CancelUndoesReserve(s, now, n, max, first, second);
    SecondRefund(s', r, first, second);
    CancelAnswers(c, r, second);
    AvailableAtMost(s, second);
  }

  lemma AvailableAtMost(s: Bucket, t: real)
    requires Valid(s)
    ensures Available(s, t) <= s.burst as real
  {}

  lemma SecondRefund(s: Bucket, r: Reservation, first: real, second: real)
    requires Valid(s) && s.limit.PerSecond? && r.ok && r.tokens > 0 && r.limit == s.limit
    requires first <= second <= r.timeToAct == s.lastEvent
    ensures Refund(Cancel(s, r, first), r, second) ==
            if s.limit.rate * (r.timeToAct - first) >= r.tokens as real then 2.0 * r.tokens as real else r.tokens as real
  {
    hide Advance;
    var rate, n := s.limit.rate, r.tokens as real;
    Divide(-n, rate);
    Faster(r.timeToAct - first, n / rate, rate);
    Divide(n, rate);
    Negated(n, rate);
  }

  lemma Negated(a: real, b: real)
    requires b > 0.0
    ensures -a / b == -(a / b)
  {}

  /** Cancelling a reservation that is not the latest changes no other refund. */
  lemma OtherRefundsSame(s: Bucket, r: Reservation, q: Reservation, first: real, second: real)
    requires Valid(s) && r.timeToAct != s.lastEvent
    ensures Refund(Cancel(s, r, first), q, second) == Refund(s, q, second)
  {
    hide Cancel;
    CancelAnswers(s, r, first);
  }

  /** One that does: cancelled twice, a reservation of 4 leaves 8 tokens where
      there were none. */
  lemma CancelTwiceOverpays()
    ensures var s := Bucket(PerSecond(1.0), 10, 0.0, 0.0, 0.0);
            var (s', r) := Reserve(s, 0.0, 4, Forever);
            && r.ok
            && Cancel(s', r, 0.0).tokens == 0.0
            && Cancel(Cancel(s', r, 0.0), r, 0.0).tokens == 8.0
  {}

  /** In debt until act at least: the latest event is when it is paid. */
  ghost predicate InDebt(s: Bucket, act: real) {
    && Valid(s) && s.limit.PerSecond? && 0 <= s.burst && s.tokens <= 0.0 && act <= s.lastEvent
    && Gain(s.limit.rate, s.last, s.lastEvent) == -s.tokens
  }

  function Taken(g: seq<Reservation>): real {
    if g == [] then 0.0 else Taken(g[..|g| - 1]) + g[|g| - 1].tokens as real
  }

  lemma DebtOnly(s: Bucket)
    requires exists act :: InDebt(s, act)
    ensures Valid(s) && s.limit.PerSecond?
  {}

  lemma GainZero(rate: real, t: real)
    ensures Gain(rate, t, t) == 0.0
  {}

  lemma {:induction false} DebtHistory(s: Bucket, reqs: seq<Request>, act: real)
    requires InDebt(s, act) && InOrder(s, reqs) && forall i :: 0 <= i < |reqs| ==> reqs[i].now <= act
    ensures var (s', g) := History(s, reqs);
            && InDebt(s', act)
            && Gain(s.limit.rate, act, s'.lastEvent) == Gain(s.limit.rate, act, s.lastEvent) + Taken(g)
            && (if reqs == [] then s' == s else s'.last <= reqs[|reqs| - 1].now)
  {
    hide Reserve, InDebt, Gain;
    DebtOnly(s);
    if reqs != [] {
      var k := |reqs| - 1;
      DebtHistory(s, reqs[..k], act);
      SameLimits(s, reqs[..k]);
      var (h, g) := History(s, reqs[..k]);
      assert h.last <= reqs[k].now by {
        if k > 0 { assert reqs[..k][k - 1] == reqs[k - 1]; }
      }
      var q := Reserve(h, reqs[k].now, reqs[k].n, reqs[k].max).1;
      DebtGrows(h, reqs[k], act);
      assert q.ok ==> (g + [q])[..|g|] == g;
    }
  }

  lemma DebtGrows(s: Bucket, q: Request, act: real)
    requires InDebt(s, act) && q.n >= 0 && s.last <= q.now <= act
    ensures var (s', r) := Reserve(s, q.now, q.n, q.max); var rate := s.limit.rate;
            && InDebt(s', act) && s'.last <= q.now && (r.ok ==> r.tokens == q.n)
            && Gain(rate, act, s'.lastEvent) == Gain(rate, act, s.lastEvent) + (if r.ok then q.n as real else 0.0)
  {
    hide Reserve, Advance, WaitFor, Gain, Max, Min;
    var (s', r) := Reserve(s, q.now, q.n, q.max);
    var rate := s.limit.rate;
    if r.ok {
      GrantTokens(s, q.now, q.n, q.max);
      GrantEvent(s, q);
      GainSplit(rate, s.last, q.now, s.lastEvent);
      GainSign(rate, q.now, s.lastEvent);
      GainSplit(rate, q.now, s.lastEvent, s'.lastEvent);
      GainSplit(rate, act, s.lastEvent, s'.lastEvent);
      DebtAlgebra(s.burst as real, s.tokens, Gain(rate, s.last, q.now), Gain(rate, q.now, s.lastEvent), q.n as real);
      GainSign(rate, s.lastEvent, s'.lastEvent);
    } else {
      RefusalSame(s, q.now, q.n, q.max);
    }
  }

  /** In debt, nothing is lost to the burst. */
  lemma DebtAlgebra(b: real, tokens: real, x: real, y: real, n: real)
    requires b >= 0.0 && x + y == -tokens && y >= 0.0 && n >= 0.0
    ensures var a := Min(b, tokens + x); a == -y && Max(n - a, 0.0) == n + y && a - n <= 0.0
  {}

  lemma GrantInDebt(s: Bucket, now: real, n: int, max: Patience)
    requires Valid(s) && s.limit.PerSecond? && s.last <= now && 0 <= s.burst && n > 0
    requires var (b, r) := Reserve(s, now, n, max); r.ok && b.tokens <= 0.0
    ensures var (b, r) := Reserve(s, now, n, max); InDebt(b, r.timeToAct) && r.limit == b.limit
  {
    hide Reserve, Advance, WaitFor, Gain;
    GrantStep(s, now, n, max);
    ReservedTokens(s, now, n, max);
  }

  lemma RefundLess(s: Bucket, r: Reservation, later: real, taken: real)
    requires s.limit.PerSecond? && r.ok && r.tokens > 0 && r.limit == s.limit && later <= r.timeToAct
    requires Gain(s.limit.rate, r.timeToAct, s.lastEvent) == taken
    ensures Refund(s, r, later) == Max(r.tokens as real - taken, 0.0)
  {}

  /** Other requests after a grant that left the bucket in debt, all before the
      grant may act: cancelling it then gives back what they have not taken. */
  lemma CancelGivesRest(s: Bucket, now: real, n: int, max: Patience, reqs: seq<Request>, later: real)
    requires Valid(s) && s.limit.PerSecond? && s.last <= now && 0 <= s.burst && n > 0
    requires var (b, r) := Reserve(s, now, n, max);
             && r.ok && b.tokens <= 0.0 && later <= r.timeToAct
             && InOrder(b, reqs) && forall i :: 0 <= i < |reqs| ==> reqs[i].now <= later
    ensures var (b, r) := Reserve(s, now, n, max); var (s', g) := History(b, reqs);
            Refund(s', r, later) == Max(n as real - Taken(g), 0.0)
  {
    hide Reserve, History, InDebt, Taken, Refund, Max, Gain;
    var (b, r) := Reserve(s, now, n, max);
    GrantInDebt(s, now, n, max);
    ReservedTokens(s, now, n, max);
    DebtHistory(b, reqs, r.timeToAct);
    SameLimits(b, reqs);
    GainZero(s.limit.rate, r.timeToAct);
    RefundLess(History(b, reqs).0, r, later, Taken(History(b, reqs).1));
  }

  /** With tokens granted in between, cancelling the first grant changes the
      refund of none of the later ones. */
  lemma LaterRefundsSame(s: Bucket, now: real, n: int, max: Patience, reqs: seq<Request>, first: real,
                         q: Reservation, second: real)
    requires Valid(s) && s.limit.PerSecond? && s.last <= now && 0 <= s.burst && n > 0
    requires var (b, r) := Reserve(s, now, n, max);
             && r.ok && b.tokens <= 0.0 && first <= r.timeToAct
             && InOrder(b, reqs) && (forall i :: 0 <= i < |reqs| ==> reqs[i].now <= first)
             && Taken(History(b, reqs).1) > 0.0
    ensures var (b, r) := Reserve(s, now, n, max); var s' := History(b, reqs).0;
            Refund(Cancel(s', r, first), q, second) == Refund(s', q, second)
  {
    hide Reserve, History, InDebt, Taken, Refund, Cancel, Gain;
    var (b, r) := Reserve(s, now, n, max);
    GrantInDebt(s, now, n, max);
    ReservedTokens(s, now, n, max);
    DebtHistory(b, reqs, r.timeToAct);
    GainZero(s.limit.rate, r.timeToAct);
    OtherRefundsSame(History(b, reqs).0, r, q, first, second);
  }

  /** Two grants that leave the bucket in debt, cancelled in the same order before
      they may act.  The first gives back what the second has not taken, the
      second all it took; and what is available then is as if only the smaller
      had been made, when the first was. */
  lemma CancelBoth(s: Bucket, now1: real, n1: int, max1: Patience, now2: real, n2: int, max2: Patience,
                   first: real, second: real, t: real)
    requires Valid(s) && s.limit.PerSecond? && 0 <= s.burst && n1 > 0 && n2 > 0
    requires s.last <= now1 <= now2 <= first <= second <= t
    requires var (b1, r1) := Reserve(s, now1, n1, max1); var (b2, r2) := Reserve(b1, now2, n2, max2);
             r1.ok && r2.ok && b1.tokens <= 0.0 && first <= r1.timeToAct && second <= r2.timeToAct
    ensures var (b1, r1) := Reserve(s, now1, n1, max1); var (b2, r2) := Reserve(b1, now2, n2, max2);
            var c1 := Cancel(b2, r1, first);
            && Refund(b2, r1, first) == Max(n1 as real - n2 as real, 0.0) && Refund(c1, r2, second) == n2 as real
            && Available(Cancel(c1, r2, second), t) ==
               Min(s.burst as real, Available(s, now1) - Min(n1 as real, n2 as real) + s.limit.rate * (t - now1))
  {
    hide Reserve, Cancel, Advance, WaitFor, Refund, InDebt, Gain, Available, Min, Max;
    var b1, r1, b2, r2 := TwoGrants(s, now1, n1, max1, now2, n2, max2);
    BothRefunds(s, b2, r1, r2, n1, n2, first, second);
    BothCancelled(s, now1, n1, n2, b2, r1, r2, first, second, t);
  }

  /** Two grants in a row: r2 is the latest, and acts as much later than r1 as
      its tokens take. */
  ghost predicate Stacked(s: Bucket, n1: int, n2: int, b2: Bucket, r1: Reservation, r2: Reservation) {
    && Valid(s) && s.limit.PerSecond? && 0 <= s.burst && 0 < n1 <= s.burst && 0 < n2
    && b2.limit == s.limit && b2.burst == s.burst && b2.lastEvent == r2.timeToAct > r1.timeToAct
    && r1.ok && r1.tokens == n1 && r1.limit == s.limit && r2.ok && r2.tokens == n2 && r2.limit == s.limit
    && Gain(s.limit.rate, r1.timeToAct, r2.timeToAct) == n2 as real
  }

  lemma TwoGrants(s: Bucket, now1: real, n1: int, max1: Patience, now2: real, n2: int, max2: Patience)
    returns (b1: Bucket, r1: Reservation, b2: Bucket, r2: Reservation)
    requires Valid(s) && s.limit.PerSecond? && 0 <= s.burst && n1 > 0 && n2 > 0 && s.last <= now1 <= now2
    requires var (b1, r1) := Reserve(s, now1, n1, max1); var (b2, r2) := Reserve(b1, now2, n2, max2);
             r1.ok && r2.ok && b1.tokens <= 0.0 && now2 <= r1.timeToAct
    ensures (b1, r1) == Reserve(s, now1, n1, max1) && Valid(b1) && (b2, r2) == Reserve(b1, now2, n2, max2)
    ensures Stacked(s, n1, n2, b2, r1, r2) && b2.last == now2 && b2.tokens <= 0.0
    ensures Gain(s.limit.rate, now2, r2.timeToAct) == -b2.tokens
    ensures b2.tokens == Available(s, now1) - n1 as real - n2 as real + Gain(s.limit.rate, now1, now2)
  {
    hide Reserve, Advance, WaitFor, Gain;
    ReservedTokens(s, now1, n1, max1);
    b1 := Reserve(s, now1, n1, max1).0;
    r1 := Reserve(s, now1, n1, max1).1;
    GrantInDebt(s, now1, n1, max1);
    GrantStep(s, now1, n1, max1);
    ReservedTokens(b1, now2, n2, max2);
    b2 := Reserve(b1, now2, n2, max2).0;
    r2 := Reserve(b1, now2, n2, max2).1;
    DebtGrows(b1, Request(now2, n2, max2), r1.timeToAct);
    GainZero(s.limit.rate, r1.timeToAct);
    GainSign(s.limit.rate, r2.timeToAct, r1.timeToAct);
    GainBack(s.limit.rate, r1.timeToAct, r2.timeToAct);
    DebtFills(b1, r1.timeToAct, now2);
  }

  lemma GainBack(rate: real, a: real, b: real)
    ensures Gain(rate, b, a) == -Gain(rate, a, b)
  {}

  lemma BothRefunds(s: Bucket, b2: Bucket, r1: Reservation, r2: Reservation, n1: int, n2: int,
                    first: real, second: real)
    requires Stacked(s, n1, n2, b2, r1, r2) && first <= r1.timeToAct && second <= r2.timeToAct
    ensures Valid(b2) && Refund(b2, r1, first) == Max(n1 as real - n2 as real, 0.0)
    ensures Refund(Cancel(b2, r1, first), r2, second) == n2 as real
  {
    hide Cancel, Refund, Gain;
    RefundLess(b2, r1, first, n2 as real);
    OtherRefundsSame(b2, r1, r2, first, second);
    GainZero(s.limit.rate, r2.timeToAct);
    RefundLess(b2, r2, second, 0.0);
    assert r2.tokens as real - 0.0 == n2 as real > 0.0;
  }

  lemma BothCancelled(s: Bucket, now1: real, n1: int, n2: int, b2: Bucket, r1: Reservation, r2: Reservation,
                      first: real, second: real, t: real)
    requires Stacked(s, n1, n2, b2, r1, r2) && now1 <= b2.last <= first <= second <= t
    requires first <= r1.timeToAct && second <= r2.timeToAct && b2.tokens <= 0.0
    requires Gain(s.limit.rate, b2.last, r2.timeToAct) == -b2.tokens
    requires b2.tokens == Available(s, now1) - n1 as real - n2 as real + Gain(s.limit.rate, now1, b2.last)
    ensures Available(Cancel(Cancel(b2, r1, first), r2, second), t) ==
            Min(s.burst as real, Available(s, now1) - Min(n1 as real, n2 as real) + s.limit.rate * (t - now1))
  {
    hide Reserve, Cancel, Advance, Refund, Gain, EventMoved, Available;
    var rate, b, h, c1 := s.limit.rate, s.burst as real, Available(s, now1), Cancel(b2, r1, first);
    var x, y, z := Gain(rate, now1, first), Gain(rate, first, second), Gain(rate, second, t);
    BothRefunds(s, b2, r1, r2, n1, n2, first, second);
    CancelAvailable(b2, r1, first, second);
    CancelAvailable(c1, r2, second, t);
    AvailableAtMost(s, now1);
    DebtFills(b2, r2.timeToAct, first);
    DebtFills(b2, r2.timeToAct, second);
    GainSplit(rate, now1, b2.last, first);
    GainSplit(rate, now1, b2.last, second);
    GainSplit(rate, now1, first, second);
    GainSplit(rate, now1, second, t);
    GainSign(rate, first, second);
    GainSign(rate, second, t);
    GainTimes(rate, first, second);
    GainTimes(rate, second, t);
    GainTimes(rate, now1, t);
    var mid, end := Available(c1, second), Available(Cancel(c1, r2, second), t);
    BothAlgebra(b, h, n1 as real, n2 as real, x, y, z, rate * (t - now1), mid, end);
  }

  /** What a cancellation leaves available, at one time. */
  lemma CancelAvailable(s: Bucket, r: Reservation, now: real, t: real)
    requires Valid(s) && s.limit.PerSecond? && now <= t
    ensures var c, refund := Cancel(s, r, now), Refund(s, r, now);
            && c.limit == s.limit && c.burst == s.burst
            && Available(c, t) == if refund > 0.0 then Min(s.burst as real, Available(s, now) + refund + Gain(s.limit.rate, now, t))
                                  else Available(s, t)
  {
    hide Cancel, Refund, EventMoved, Available;
    CancelAnswers(s, r, now);
  }

  lemma GainTimes(rate: real, a: real, b: real)
    ensures Gain(rate, a, b) == rate * (b - a)
  {}

  lemma DebtFills(s: Bucket, act: real, x: real)
    requires InDebt(s, act) && s.last <= x <= s.lastEvent
    ensures Available(s, x) == s.tokens + Gain(s.limit.rate, s.last, x) <= 0.0
  {
    hide Advance, Gain;
    var rate := s.limit.rate;
    FillsSince(s, s.last, x, rate);
    GainSplit(rate, s.last, x, s.lastEvent);
    GainSign(rate, x, s.lastEvent);
  }

  /** h is what the first grant found; x, y and z are what the limit gives until
      the first cancellation, until the second, and after it. */
  lemma BothAlgebra(b: real, h: real, n1: real, n2: real, x: real, y: real, z: real, all: real, mid: real, end: real)
    requires all == x + y + z && end == Min(b, mid + n2 + z)
    requires var refund := Max(n1 - n2, 0.0);
             mid == if refund > 0.0 then Min(b, h - n1 - n2 + x + refund + y) else h - n1 - n2 + (x + y)
    requires b >= 0.0 && h <= b && 0.0 < n1 <= b && 0.0 < n2
    requires h - n1 - n2 + x <= 0.0 && h - n1 - n2 + (x + y) <= 0.0 && y >= 0.0 && z >= 0.0
    ensures end == Min(b, h - Min(n1, n2) + all)
  {}

  /** Lowering the burst may leave more tokens stored than the new burst, but
      never makes more than the new burst available. */
  lemma SetBurstCaps(s: Bucket, now: real, burst: int, t: real)
    requires Valid(s) && s.limit.PerSecond? && now <= t
    ensures var s' := SetBurst(s, now, burst);
            && Available(s', t) == Min(burst as real, Available(s, now) + s.limit.rate * (t - now))
            && (s'.tokens <= burst as real <==> Available(s, now) <= burst as real)
  {
    AdvanceFills(SetBurst(s, now, burst), t);
  }

  /** A new limit holds from the moment it is set; what was saved up is kept. */
  lemma SetLimitKeepsTokens(s: Bucket, now: real, rate: real, t: real)
    requires Valid(s) && s.limit.PerSecond? && rate > 0.0 && now <= t
    ensures Available(SetLimit(s, now, PerSecond(rate)), t)
              == Min(s.burst as real, Available(s, now) + rate * (t - now))
  {
    AdvanceFills(SetLimit(s, now, PerSecond(rate)), t);
  }
}
