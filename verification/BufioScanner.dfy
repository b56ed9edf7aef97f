/** src/bufio/scan.go: Scanner, over a source that may deliver its bytes in any
    pieces. */
module BufioScanner {
  import opened Basics
  import opened ByteSource
  import opened BufioSplit

  const MAX_CONSECUTIVE_EMPTY_READS := 100
  const START_BUF_SIZE := 4096
  const MAX_INT := 0x7FFF_FFFF_FFFF_FFFF

  datatype Error =
    | FromSource(err: SourceError) | NoProgress
    | TooLong | NegativeAdvance | AdvanceTooFar | FromSplit(split: SplitError)

  /** What is buffered, the sticky error, and what the source has before its
      next error. */
  datatype View = View(held: seq<byte>, err: Option<Error>, rest: seq<byte>, next: SourceError) {

    /** The input that is still to be split. */
    ghost function Input(): seq<byte> { if err.Some? then held else held + rest }
  }

  /** How a call of Scan ends, for a lawful split: with the first token of the
      input, or with none if there is none, however the input arrives; unless
      the source stalls, or a piece that fills the buffer holds no token. */
  ghost predicate Scanned(split: SplitFunc, max: nat, v: View, ok: bool, token: Option<seq<byte>>, v': View)
    requires Lawful(split)
  {
    (ok ==> token.Some?) &&
    if Broken(v, v') then
      v'.err == Some(TooLong) ==> !ok && exists i: nat :: StuckAt(split, Limit(max), v.Input(), v'.held, i)
    else
      && (ok ==> Tokens(split, v.Input()) == [token.value] + Tokens(split, v'.Input()))
      && (!ok ==> Tokens(split, v.Input()) == [] && v'.Input() == [] && v'.err.Some?)
      && (if v.err.Some? then v'.err == v.err else v'.err == None || v'.err == Some(FromSource(v.next)))
      && (v'.err == None ==> v'.next == v.next && IsSuffix(v'.Input(), v.Input()))
  }

  predicate Broken(v: View, v': View) {
    v.err == None && (v'.err == Some(NoProgress) || v'.err == Some(TooLong))
  }

  /** The length of a full buffer that cannot grow is at least this. */
  function Limit(max: nat): nat { if max > MAX_INT / 2 then MAX_INT / 2 + 1 else max }

  /** No token and no progress in max bytes of s or more. */
  predicate Stuck(split: SplitFunc, max: nat, s: seq<byte>, i: int, j: int) {
    0 <= i <= j <= |s| && j - i >= max && (i < j ==> split(s[i..j], false) == More(0))
  }

  /** The scanner is stuck with what it holds, which comes next in s. */
  ghost predicate StuckAt(split: SplitFunc, max: nat, s: seq<byte>, held: seq<byte>, i: nat)
    requires Lawful(split)
  {
    && i + |held| <= |s| && held == s[i..i + |held|] && Stuck(split, max, s, i, i + |held|)
    && Tokens(split, s[i..]) == Tokens(split, s)
  }

  /** During a call: the tokens still to come are those of the input. */
  ghost predicate Scanning(split: SplitFunc, v: View, u: View)
    requires Lawful(split)
  {
    && (u.err == Some(TooLong) ==> v.err == u.err)
    && (!Broken(v, u) ==>
          && Tokens(split, u.Input()) == Tokens(split, v.Input())
          && (if v.err.Some? then u.err == v.err else u.err == None || u.err == Some(FromSource(v.next))))
    && (u.err == None ==> v.err == None && u.next == v.next && IsSuffix(u.Input(), v.Input()))
  }

  predicate IsSuffix(t: seq<byte>, s: seq<byte>) { |t| <= |s| && t == s[|s| - |t|..] }

  /** What split made of the buffered bytes. */
  lemma Found(split: SplitFunc, v: View, u: View, x: SplitResult)
    requires Lawful(split) && Scanning(split, v, u) && (u.held != [] || u.err.Some?)
    requires x == split(u.held, u.err.Some?)
    ensures x.err == None && 0 <= x.advance <= |u.held|
    ensures var u' := u.(held := u.held[x.advance..]);
            if x.token.Some? then
              x.advance > 0 &&
              (!Broken(v, u) ==> Tokens(split, v.Input()) == [x.token.value] + Tokens(split, u'.Input()))
            else if u.err.Some? then (!Broken(v, u) ==> Tokens(split, v.Input()) == [])
            else Scanning(split, v, u')
  {
    assert LawfulEnd(split, u.held);
    if u.err == None {
      assert LawfulAt(split, u.held, u.rest, true);
      assert LawfulEnd(split, u.Input());
      assert u.held[x.advance..] + u.rest == u.Input()[x.advance..];
      if x.token == None { TokensAfter(split, u.held, u.rest); }
    }
  }

  lemma TokensAfter(split: SplitFunc, d: seq<byte>, m: seq<byte>)
    requires Lawful(split) && d != [] && split(d, false).token == None
    ensures 0 <= split(d, false).advance <= |d|
    ensures Tokens(split, d + m) == Tokens(split, d[split(d, false).advance..] + m)
  {
    assert LawfulAt(split, d, m, true);
    var k := split(d, false).advance;
    var e := d[k..] + m;
    assert LawfulEnd(split, e) && LawfulEnd(split, d + m);
    var z := split(e, true);
    assert (d + m)[k + z.advance..] == e[z.advance..];
  }

  lemma ScanningStarts(split: SplitFunc, v: View)
    requires Lawful(split)
    ensures Scanning(split, v, v)
  {}

  /** What reading does to the view. */
  ghost predicate Refilled(u: View, u': View) {
    if u'.err == Some(NoProgress) then u'.held == u.held
    else u'.Input() == u.Input() && if u'.err == None then u'.next == u.next else u'.err == Some(FromSource(u.next))
  }

  lemma ReadRefills(u: View, n: nat, u': View)
    requires u.err == None && n <= |u.rest| && u'.held == u.held + u.rest[..n]
    requires u'.err == None || (u'.err == Some(FromSource(u.next)) && n == |u.rest|)
    requires u'.err == None ==> u'.rest == u.rest[n..] && u'.next == u.next
    ensures Refilled(u, u') && (n == 0 && u'.err == None ==> u' == u)
  {
    assert u.held + u.rest[..n] + u.rest[n..] == u.held + u.rest;
  }

  lemma StallRefills(u: View)
    ensures Refilled(u, u.(err := Some(NoProgress)))
  {}

  lemma ScannedToken(split: SplitFunc, max: nat, v: View, u: View, x: SplitResult, u': View)
    requires Lawful(split) && Scanning(split, v, u) && x.token.Some? && 0 <= x.advance <= |u.held|
    requires u' == u.(held := u.held[x.advance..])
    requires !Broken(v, u) ==> Tokens(split, v.Input()) == [x.token.value] + Tokens(split, u'.Input())
    ensures Scanned(split, max, v, true, x.token, u')
  {}

  lemma ScannedNothing(split: SplitFunc, max: nat, v: View, u: View, token: Option<seq<byte>>, u': View)
    requires Lawful(split) && Scanning(split, v, u) && u.err.Some? && u' == u.(held := [])
    requires !Broken(v, u) ==> Tokens(split, v.Input()) == []
    ensures Scanned(split, max, v, false, token, u')
  {}

  lemma ScanningRefilled(split: SplitFunc, v: View, u: View, u': View)
    requires Lawful(split) && Scanning(split, v, u) && u.err == None && Refilled(u, u')
    ensures Scanning(split, v, u')
  {}

  lemma ScannedTooLong(split: SplitFunc, max: nat, v: View, u: View, token: Option<seq<byte>>)
    requires Lawful(split) && Scanning(split, v, u) && u.err == None && |u.held| >= Limit(max)
    requires u.held != [] ==> split(u.held, false) == More(0)
    ensures Scanned(split, max, v, false, token, u.(err := Some(TooLong)))
  {
    var s := v.Input();
    var i := |s| - |u.Input()|;
    assert s[i..] == u.Input() && s[i..i + |u.held|] == u.held;
    assert StuckAt(split, Limit(max), s, u.held, i);
  }

  /** A token that split makes of no more than size bytes. */
  ghost predicate FromBuffer(split: SplitFunc, size: nat, token: Option<seq<byte>>) {
    exists d: seq<byte>, atEOF: bool :: |d| <= size && split(d, atEOF).token == token
  }

  lemma SplitFromBuffer(split: SplitFunc, size: nat, d: seq<byte>, atEOF: bool)
    requires |d| <= size
    ensures FromBuffer(split, size, split(d, atEOF).token)
  {}

  /** With an error pending, a call goes on with what is buffered: it yields a
      token as long as there is one in it, even if that is only a part of a token
      of the whole input. */
  lemma TokenAfterError(split: SplitFunc, max: nat, v: View, ok: bool, token: Option<seq<byte>>, v': View)
    requires Lawful(split) && Scanned(split, max, v, ok, token, v') && v.err.Some?
    ensures ok <==> Tokens(split, v.held) != []
    ensures ok ==> token.Some? && token.value == Tokens(split, v.held)[0]
    ensures v'.err == v.err
  {}

  /** What is in the buffer after a read. */
  lemma Extended(have: seq<byte>, more: seq<byte>, buf: seq<byte>, start: nat, end: nat)
    requires start + |have| == end && end + |more| <= |buf|
    requires forall i :: 0 <= i < |have| ==> buf[start + i] == have[i]
    requires forall i :: 0 <= i < |more| ==> buf[end + i] == more[i]
    ensures buf[start..end + |more|] == have + more
  {
    forall i | 0 <= i < |have + more|
      ensures buf[start + i] == (have + more)[i]
    {
      if i >= |have| { assert buf[end + (i - |have|)] == more[i - |have|]; }
    }
  }

  class Scanner {
    const r: Source
    const split: SplitFunc
    const maxTokenSize: nat
    var token: Option<seq<byte>>
    var buf: array<byte>
    var start: nat
    var end: nat
    var err: Option<Error>
    var empties: nat
    var done: bool
    /** What is buffered and not yet split. */
    ghost var held: seq<byte>

    ghost predicate Valid()
      reads this, buf, r
    {
      && start <= end <= buf.Length && held == buf[start..end] && r.Valid()
      // the source is given up on only after so many empty reads in a row
      && (err == Some(NoProgress) ==> r.idle > MAX_CONSECUTIVE_EMPTY_READS)
    }

    ghost function Seen(): View
      reads this, r
    {
      View(held, err, r.rest, r.NextError())
    }

    /** NewScanner, Split and Buffer. */
    constructor (r: Source, split: SplitFunc, buf: array<byte>, maxTokenSize: nat)
      requires r.Valid()
      ensures Valid() && this.r == r && this.split == split && this.maxTokenSize == maxTokenSize && this.buf == buf
      ensures Seen() == View([], None, r.rest, r.NextError()) && !done && empties == 0
    {
      this.r, this.split, this.maxTokenSize, this.buf := r, split, maxTokenSize, buf;
      start, end, held, err, token, empties, done := 0, 0, [], None, None, 0, false;
    }

    /** Records the first error. */
    method SetErr(e: Error)
      modifies this`err
      ensures err == if old(err) == None || old(err) == Some(FromSource(EOF)) then Some(e) else old(err)
    {
      if err == None || err == Some(FromSource(EOF)) {
        err := Some(e);
      }
    }

    method Advance(n: int) returns (ok: bool)
      requires Valid()
      modifies this`start, this`held, this`err
      ensures Valid() && ok == (0 <= n <= old(|held|))
      ensures ok ==> held == old(held)[n..] && err == old(err)
      ensures !ok ==> held == old(held) && err.Some?
    {
      if n < 0 {
        SetErr(NegativeAdvance);
        return false;
      }
      if n > end - start {
        SetErr(AdvanceTooFar);
        return false;
      }
      start, held := start + n, held[n..];
      return true;
    }

    /** Moves what is buffered to the front, if there is much room or none. */
    method Shift()
      requires Valid()
      modifies this`start, this`end, buf
      ensures Valid() && (end == buf.Length ==> start == 0 && old(start) == 0)
    {
      if start > 0 && (end == buf.Length || start > buf.Length / 2) {
        forall i | 0 <= i < end - start {
          buf[i] := buf[start + i];
        }
        start, end := 0, end - start;
      }
    }

    /** A larger buffer, when it is full. */
    method Grow() returns (ok: bool)
      requires Valid() && (end == buf.Length ==> start == 0)
      modifies this`start, this`end, this`buf, this`err
      ensures Valid() && (buf == old(buf) || fresh(buf))
      ensures buf.Length <= old(buf.Length) || buf.Length <= maxTokenSize
      ensures if ok then err == old(err) && end < buf.Length
              else buf == old(buf) && end == old(end) == buf.Length && |held| == buf.Length
                   && (buf.Length >= maxTokenSize || buf.Length > MAX_INT / 2)
                   && err == if old(err) == None || old(err) == Some(FromSource(EOF)) then Some(TooLong) else old(err)
    {
      if end == buf.Length {
        if buf.Length >= maxTokenSize || buf.Length > MAX_INT / 2 {
          SetErr(TooLong);
          return false;
        }
        var newSize := buf.Length * 2;
        if newSize == 0 {
          newSize := START_BUF_SIZE;
        }
        if newSize > maxTokenSize {
          newSize := maxTokenSize;
        }
        var newBuf := new byte[newSize];
        forall i | 0 <= i < end - start {
          newBuf[i] := buf[start + i];
        }
        buf := newBuf;
        start, end := 0, end - start;
        assert held == buf[start..end];
      }
      return true;
    }

    /** One read into the free part of the buffer. */
    method ReadMore() returns (n: nat)
      requires Valid() && err == None
      modifies this`end, this`held, this`err, buf, r
      ensures Valid() && |held| == old(|held|) + n && n <= old(|r.rest|) && held == old(held) + old(r.rest)[..n]
      ensures err == None ==> r.rest == old(r.rest)[n..] && r.NextError() == old(r.NextError())
      ensures err.Some? ==> n == old(|r.rest|) && err == Some(FromSource(old(r.NextError())))
      ensures n == 0 && err == None ==> r.idle == old(r.idle) + 1
    {
      ghost var rest := r.rest;
      var e;
      n, e := r.Read(buf, end);
      Extended(held, rest[..n], buf[..], start, end);
      end := end + n;
      held := held + rest[..n];
      assert buf[..][start..end] == buf[start..end];
      if e.Some? {
        SetErr(FromSource(e.value));
      }
    }

    /** Reads until something arrives, or gives up. */
    method Refill()
      requires Valid() && err == None && end < buf.Length
      modifies this`end, this`held, this`err, this`empties, buf, r
      ensures Valid() && Refilled(old(Seen()), Seen())
      ensures err == None ==> |r.rest| < old(|r.rest|)
    {
      hide Refilled;
      ghost var u := Seen();
      var loop := 0;
      while true
        invariant Valid() && Seen() == u && 0 <= loop <= MAX_CONSECUTIVE_EMPTY_READS && r.idle >= loop
        decreases MAX_CONSECUTIVE_EMPTY_READS - loop
      {
        var n := ReadMore();
        ReadRefills(u, n, Seen());
        if err.Some? {
          return;
        }
        if n > 0 {
          empties := 0;
          return;
        }
        loop := loop + 1;
        if loop > MAX_CONSECUTIVE_EMPTY_READS {
          SetErr(NoProgress);
          StallRefills(u);
          return;
        }
      }
    }

    /** Counts the tokens that do not advance at the end of the input. */
    method CountEmpty(advance: int) returns (panicked: bool)
      modifies this`empties
      ensures panicked ==> err.Some? && advance <= 0
    {
      if err == None || advance > 0 {
        empties := 0;
        return false;
      }
      empties := empties + 1;
      return empties > MAX_CONSECUTIVE_EMPTY_READS;
    }

    /** Gives split what is buffered.  over: Scan returns. */
    method TryToken(ghost v: View) returns (over: bool, ok: bool, panicked: bool)
      requires Valid() && !done && (Lawful(split) ==> Scanning(split, v, Seen()))
      modifies this`start, this`end, this`held, this`err, this`token, this`empties, this`done
      ensures Valid() && (over || !done)
      ensures over && Lawful(split) ==> !done && !panicked && Scanned(split, maxTokenSize, v, ok, token, Seen())
      ensures !over ==> err == None && old(err) == None && (Lawful(split) ==> Scanning(split, v, Seen()))
      ensures over && ok ==> FromBuffer(split, buf.Length, token)
      ensures !over && start == 0 && held != [] && Lawful(split) ==> split(held, false) == More(0)
    {
      hide Scanning, Scanned, Tokens, Lawful;
      ghost var u := Seen();
      panicked := false;
      if end > start || err.Some? {
        var x := split(buf[start..end], err.Some?);
        SplitFromBuffer(split, buf.Length, buf[start..end], err.Some?);
        if Lawful(split) { Found(split, v, u, x); }
        if x.err.Some? {
          if x.err.value == FinalToken {
            token, done := x.token, true;
            return true, true, false;
          }
          SetErr(FromSplit(x.err.value));
          return true, false, false;
        }
        ok := Advance(x.advance);
        if !ok {
          return true, false, false;
        }
        token := x.token;
        if token.Some? {
          panicked := CountEmpty(x.advance);
          if Lawful(split) { ScannedToken(split, maxTokenSize, v, u, x, Seen()); }
          return true, true, panicked;
        }
      }
      if err.Some? {
        start, end, held := 0, 0, [];
        if Lawful(split) { ScannedNothing(split, maxTokenSize, v, u, token, Seen()); }
        return true, false, false;
      }
      over, ok := false, false;
    }

    /** Shift and Grow. */
    method MakeRoom() returns (ok: bool)
      requires Valid() && err == None
      modifies this`start, this`end, this`buf, this`err, buf
      ensures Valid() && (buf == old(buf) || fresh(buf))
      ensures buf.Length <= old(buf.Length) || buf.Length <= maxTokenSize
      ensures if ok then err == None && end < buf.Length
              else err == Some(TooLong) && old(start) == 0 && |held| >= Limit(maxTokenSize)
    {
      Shift();
      ok := Grow();
    }

    /** Makes room, and reads. */
    method Fetch(ghost v: View) returns (ok: bool)
      requires Valid() && err == None && !done && (Lawful(split) ==> Scanning(split, v, Seen()))
      requires start == 0 && held != [] && Lawful(split) ==> split(held, false) == More(0)
      modifies this`start, this`end, this`buf, this`held, this`err, this`empties, buf, r
      ensures Valid() && (buf == old(buf) || fresh(buf))
      ensures !ok && Lawful(split) ==> Scanned(split, maxTokenSize, v, false, token, Seen())
      ensures buf.Length <= old(buf.Length) || buf.Length <= maxTokenSize
      ensures ok && Lawful(split) ==> Scanning(split, v, Seen())
      ensures ok && err == None ==> |r.rest| < old(|r.rest|)
    {
      hide Scanning, Scanned, Refilled, Tokens, Lawful, StuckAt, Stuck, IsSuffix, Valid, Limit;
      ghost var u := Seen();
      ok := MakeRoom();
      if !ok {
        if Lawful(split) { ScannedTooLong(split, maxTokenSize, v, u, token); }
        return;
      }
      Refill();
      if Lawful(split) { ScanningRefilled(split, v, u, Seen()); }
    }

    method Scan() returns (ok: bool, panicked: bool)
      requires Valid()
      modifies this, buf, r
      ensures Valid() && (buf == old(buf) || fresh(buf))
      ensures old(done) ==> !ok && done && Seen() == old(Seen())
      ensures Lawful(split) && !old(done) ==>
                && !done && !panicked
                && Scanned(split, maxTokenSize, old(Seen()), ok, token, Seen())
      ensures ok ==> FromBuffer(split, buf.Length, token)
      ensures buf.Length <= old(buf.Length) || buf.Length <= maxTokenSize
    {
      hide Scanning, Scanned, Tokens, Lawful, FromBuffer;
      if done {
        return false, false;
      }
      ghost var v := Seen();
      if Lawful(split) { ScanningStarts(split, v); }
      while true
        invariant Valid() && !done && (buf == old(buf) || fresh(buf))
        invariant buf.Length <= old(buf.Length) || buf.Length <= maxTokenSize
        invariant Lawful(split) ==> Scanning(split, v, Seen())
        decreases err == None, |r.rest|
      {
        var over;
        over, ok, panicked := TryToken(v);
        if over {
          return;
        }
        ok := Fetch(v);
        if !ok {
          return ok, false;
        }
      }
    }
  }

  /** What the calls so far have found: the first tokens of the input. */
  ghost predicate Progress(split: SplitFunc, max: nat, v0: View, tokens: seq<seq<byte>>, v: View)
    requires Lawful(split)
  {
    && (v.err == None ==> v0.err == None && v.next == v0.next && IsSuffix(v.Input(), v0.Input()))
    && (!Broken(v0, v) ==>
          && Tokens(split, v0.Input()) == tokens + Tokens(split, v.Input())
          && (if v0.err.Some? then v.err == v0.err else v.err == None || v.err == Some(FromSource(v0.next))))
    && (v0.err == None && v.err == Some(TooLong) ==>
          tokens <= Tokens(split, v0.Input()) && exists i, j :: Stuck(split, Limit(max), v0.Input(), i, j))
  }

  lemma ProgressStarts(split: SplitFunc, max: nat, v: View)
    requires Lawful(split)
    ensures Progress(split, max, v, [], v)
  {}

  lemma StuckInSuffix(split: SplitFunc, max: nat, t: seq<byte>, s: seq<byte>, i: int, j: int)
    requires IsSuffix(t, s) && Stuck(split, max, t, i, j)
    ensures Stuck(split, max, s, |s| - |t| + i, |s| - |t| + j)
  {
    assert s[|s| - |t| + i..|s| - |t| + j] == t[i..j];
  }

  lemma ProgressMade(split: SplitFunc, max: nat, v0: View, tokens: seq<seq<byte>>, v: View, token: Option<seq<byte>>, v': View)
    requires Lawful(split) && Progress(split, max, v0, tokens, v) && (v.err == Some(TooLong) ==> v0.err == v.err)
    requires Scanned(split, max, v, true, token, v')
    ensures token.Some? && Progress(split, max, v0, tokens + [token.value], v') && (v'.err == Some(TooLong) ==> v0.err == v'.err)
    ensures v'.err == v.err ==> Tokens(split, v.Input()) == [token.value] + Tokens(split, v'.Input())
    ensures v.err.Some? ==> v'.err == v.err
  {
    assert tokens + ([token.value] + Tokens(split, v'.Input())) == tokens + [token.value] + Tokens(split, v'.Input());
  }

  lemma ProgressEnds(split: SplitFunc, max: nat, v0: View, tokens: seq<seq<byte>>, v: View, token: Option<seq<byte>>, v': View)
    requires Lawful(split) && Progress(split, max, v0, tokens, v) && (v.err == Some(TooLong) ==> v0.err == v.err)
    requires Scanned(split, max, v, false, token, v')
    ensures Progress(split, max, v0, tokens, v') && v'.err.Some?
    ensures !Broken(v0, v') ==> tokens == Tokens(split, v0.Input())
  {
    if Broken(v, v') && v'.err == Some(TooLong) {
      var i: nat :| StuckAt(split, Limit(max), v.Input(), v'.held, i);
      StuckInSuffix(split, Limit(max), v.Input(), v0.Input(), i, i + |v'.held|);
      assert tokens <= tokens + Tokens(split, v.Input());
    } else if !Broken(v, v') {
      assert LawfulEnd(split, v'.Input());
      assert tokens + [] == tokens;
    }
  }

  /** A client that scans to the end finds exactly the tokens of the input, and
      the source's error; or the source stalled; or some piece of the input
      that fills the largest buffer has no token. */
  method ScanAll(s: Scanner) returns (tokens: seq<seq<byte>>)
    requires s.Valid() && !s.done && Lawful(s.split)
    modifies s, s.buf, s.r
    ensures s.Valid() && s.err.Some? && Progress(s.split, s.maxTokenSize, old(s.Seen()), tokens, s.Seen())
    ensures !Broken(old(s.Seen()), s.Seen()) ==> tokens == Tokens(s.split, old(s.Seen()).Input())
  {
    hide Progress, Scanned, Lawful, Broken;
    ghost var v0 := s.Seen();
    tokens := [];
    ProgressStarts(s.split, s.maxTokenSize, v0);
    while true
      invariant s.Valid() && !s.done && (s.buf == old(s.buf) || fresh(s.buf))
      invariant Progress(s.split, s.maxTokenSize, v0, tokens, s.Seen())
      invariant s.err == Some(TooLong) ==> v0.err == s.err
      decreases s.err == None, |Tokens(s.split, s.Seen().Input())|
    {
      ghost var v := s.Seen();
      var ok, panicked := s.Scan();
      if !ok {
        ProgressEnds(s.split, s.maxTokenSize, v0, tokens, v, s.token, s.Seen());
        return;
      }
      ProgressMade(s.split, s.maxTokenSize, v0, tokens, v, s.token, s.Seen());
      tokens := tokens + [s.token.value];
    }
  }

  // ----- Scan called again after ErrTooLong -----

  lemma StuckLine(max: nat, v: View, ok: bool, token: Option<seq<byte>>, u: View)
    requires Lawful(ScanLines) && Scanned(ScanLines, max, v, ok, token, u)
    requires v.err == None && u.err == Some(TooLong) && max > 0
    ensures !ok && exists i: nat :: StuckAt(ScanLines, Limit(max), v.Input(), u.held, i)
    ensures LF !in u.held && |u.held| >= Limit(max) && Tokens(ScanLines, u.held) == [DropCR(u.held)]
  {
    var i: nat :| StuckAt(ScanLines, Limit(max), v.Input(), u.held, i);
    LineTokens(u.held, []);
  }

  /** A client that calls Scan once more: it gets what fills the buffer as if it
      were a line. */
  method ScanAgain(s: Scanner) returns (first: bool, again: bool, ghost piece: seq<byte>)
    requires s.Valid() && !s.done && s.err == None && s.split == ScanLines && s.maxTokenSize > 0
    modifies s, s.buf, s.r
    ensures Lawful(ScanLines) && (|piece| <= old(s.buf.Length) || |piece| <= s.maxTokenSize)
    ensures s.err == Some(TooLong) ==>
              && !first && again && s.token == Some(DropCR(piece)) && LF !in piece
              && exists i: nat :: StuckAt(ScanLines, Limit(s.maxTokenSize), old(s.Seen()).Input(), piece, i)
    ensures s.err != Some(TooLong) ==>
              && Scanned(ScanLines, s.maxTokenSize, old(s.Seen()), first, s.token, s.Seen())
              && (first ==> exists n: nat :: FromBuffer(ScanLines, n, s.token) && (n <= old(s.buf.Length) || n <= s.maxTokenSize))
  {
    hide Scanned, Lawful, Tokens, FromBuffer;
    LinesLawful();
    ghost var v := s.Seen();
    var panicked;
    first, panicked := s.Scan();
    again, piece := false, s.held;
    if s.err == Some(TooLong) {
      ghost var u := s.Seen();
      StuckLine(s.maxTokenSize, v, first, s.token, u);
      again, panicked := s.Scan();
      TokenAfterError(ScanLines, s.maxTokenSize, u, again, s.token, s.Seen());
    }
  }

  /** One line of three bytes, without its end. */
  const THREE: seq<byte> := [97, 98, 99]

  lemma ThreeIsOneLine()
    requires Lawful(ScanLines)
    ensures |THREE| == 3 && THREE[..2] == [97, 98] && DropCR([97, 98]) == [97, 98]
    ensures Tokens(ScanLines, THREE) == [THREE] && Tokens(ScanLines, THREE[1..]) != [THREE]
  {
    LineTokens(THREE, []);
    LineTokens(THREE[1..], []);
  }

  lemma PieceOfThree(piece: seq<byte>)
    requires Lawful(ScanLines) && |piece| <= 2 && exists i: nat :: StuckAt(ScanLines, Limit(2), THREE, piece, i)
    ensures piece == [97, 98]
  {
    ThreeIsOneLine();
    hide Tokens, Lawful;
    var i: nat :| StuckAt(ScanLines, Limit(2), THREE, piece, i);
    assert i + 2 <= 3;
  }

  lemma NotAtOnce(v: View, ok: bool, token: Option<seq<byte>>, v': View, n: nat)
    requires Lawful(ScanLines) && Scanned(ScanLines, 2, v, ok, token, v') && v.err == None && v.Input() == THREE
    requires ok ==> FromBuffer(ScanLines, n, token) && n <= 2
    ensures Broken(v, v')
  {
    ThreeIsOneLine();
    hide Tokens, Lawful;
    if !Broken(v, v') {
      assert ([token.value] + Tokens(ScanLines, v'.Input()))[0] == token.value;
    }
  }

  /** With a buffer of two bytes, unless the source stalls, the second call
      yields the first two bytes, which are not a line. */
  method HalfALine() returns (s: Scanner, first: bool, again: bool)
    ensures fresh(s) && (s.err == Some(TooLong) || s.err == Some(NoProgress))
    ensures s.err == Some(TooLong) ==> !first && again && s.token == Some([97, 98])
  {
    hide Scanned, Lawful, Tokens, FromBuffer, StuckAt, THREE, Broken, Limit, Scanner.Valid, Source.Valid;
    var source := new Source(_ => Segment(THREE, EOF));
    var buf := new byte[2];
    s := new Scanner(source, ScanLines, buf, 2);
    ghost var v := s.Seen();
    ghost var piece;
    assert v.Input() == THREE;
    first, again, piece := ScanAgain(s);
    if s.err == Some(TooLong) {
      PieceOfThree(piece);
      ThreeIsOneLine();
    } else {
      ghost var n: nat := 0;
      if first { n :| FromBuffer(ScanLines, n, s.token) && n <= 2; }
      NotAtOnce(v, first, s.token, s.Seen(), n);
      BrokenMeans(v, s.Seen());
    }
  }

  lemma BrokenMeans(v: View, v': View)
    requires Broken(v, v')
    ensures v'.err == Some(NoProgress) || v'.err == Some(TooLong)
  {}
}
