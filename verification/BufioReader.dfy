/** src/bufio/bufio.go: Reader, over a source that may deliver its bytes in any
    pieces. */
module BufioReader {
  import opened Basics
  import opened ByteSource

  const MIN_READ_BUFFER_SIZE := 16
  const MAX_CONSECUTIVE_EMPTY_READS := 100

  datatype Error = FromSource(err: SourceError) | NoProgress | BufferFull | NegativeCount | InvalidUnreadByte

  /** What has been given out, and what is unread: the buffered bytes, the
      pending error, and what the source has before its next error. */
  datatype View = View(given: seq<byte>, held: seq<byte>, err: Option<Error>, rest: seq<byte>, next: SourceError) {

    /** The unread bytes before the next error. */
    ghost function Ahead(): seq<byte> { if err.Some? then held else held + rest }

    /** The error after them. */
    ghost function NextError(): Error { if err.Some? then err.value else FromSource(next) }
  }

  /** What filling the buffer does to what is unread: nothing, but for the
      error made up when the source stalls. */
  ghost predicate Same(v: View, v': View, stalled: bool) {
    v'.given == v.given &&
    if stalled then v'.err == Some(NoProgress) && v'.held + v'.rest == v.Ahead() && FromSource(v'.next) == v.NextError()
    else v'.Ahead() == v.Ahead() && v'.NextError() == v.NextError()
  }

  /** What a call leaves that gives out line and e: the bytes after line, if it
      stopped before the next error, and otherwise nothing but what comes after
      that error.  It gives out another error only if the source stalled. */
  ghost predicate Leaves(v: View, line: seq<byte>, e: Option<Error>, v': View, stalled: bool) {
    v'.given == v.given + line &&
    if e == None || e == Some(BufferFull) then
      v.Ahead() == line + v'.Ahead() && v'.NextError() == v.NextError() && !stalled
    else
      v'.err == None &&
      if stalled then e == Some(NoProgress) && v.Ahead() == line + v'.Ahead() && v'.NextError() == v.NextError()
      else e == Some(v.NextError()) && v.Ahead() == line
  }

  lemma Stall(v: View)
    requires v.err == None
    ensures Same(v, v.(err := Some(NoProgress)), true)
  {}

  /** What is in the buffer after a read. */
  lemma Grown(have: seq<byte>, more: seq<byte>, buf: seq<byte>, w: nat)
    requires |have| == w && w + |more| <= |buf|
    requires forall i :: 0 <= i < w ==> buf[i] == have[i]
    requires forall i :: 0 <= i < |more| ==> buf[w + i] == more[i]
    ensures buf[0..w + |more|] == have + more
  {
    forall i | 0 <= i < w + |more|
      ensures buf[i] == (have + more)[i]
    {
      if i >= w { assert buf[w + (i - w)] == more[i - w]; }
    }
  }

  lemma Regroup(a: seq<byte>, b: seq<byte>, c: seq<byte>)
    ensures a + b + c == a + (b + c)
  {}

  lemma MoreSame(v: View, n: nat, v': View)
    requires v.err == None && n <= |v.rest| && v'.given == v.given && v'.held == v.held + v.rest[..n]
    requires v'.err == None || (v'.err == Some(FromSource(v.next)) && n == |v.rest|)
    requires v'.err == None ==> v'.rest == v.rest[n..] && v'.next == v.next
    ensures Same(v, v', false) && v.held <= v'.held
  {
    assert v.held + v.rest[..n] + v.rest[n..] == v.held + v.rest;
  }

  lemma SameRefl(v: View)
    ensures Same(v, v, false)
  {}

  lemma SameThen(v0: View, v: View, v': View, stalled: bool)
    requires Same(v0, v, false) && v.err == None && Same(v, v', stalled)
    ensures Same(v0, v', stalled)
  {}

  lemma TakeLeaves(v0: View, v: View, line: seq<byte>, v': View)
    requires Same(v0, v, false) && v.held == line + v'.held && v' == v.(held := v'.held, given := v.given + line)
    ensures Leaves(v0, line, None, v', false) && Leaves(v0, line, Some(BufferFull), v', false)
  {
    assert line + v'.held + v.rest == line + (v'.held + v.rest);
  }

  lemma AllLeaves(v0: View, v: View, stalled: bool)
    requires Same(v0, v, stalled) && v.err.Some? && v.err != Some(BufferFull)
    ensures Leaves(v0, v.held, v.err, v.(given := v.given + v.held, held := [], err := None), stalled)
  {}

  /** A read past the empty buffer. */
  lemma DirectLeaves(v: View, n: nat, e: Option<SourceError>)
    requires v.held == [] && v.err == None && n <= |v.rest| && (e.Some? ==> n == |v.rest| && e.value == v.next)
    ensures forall rest: seq<byte>, next: SourceError :: (e == None ==> rest == v.rest[n..] && next == v.next) ==>
              Leaves(v, v.rest[..n], if e.Some? then Some(FromSource(e.value)) else None,
                     View(v.given + v.rest[..n], [], None, rest, next), false)
  {
    assert v.rest[..n] + v.rest[n..] == v.rest;
  }

  class Reader {
    const rd: Source
    const buf: array<byte>
    var r: nat
    var w: nat
    var err: Option<Error>
    var lastByte: int
    /** What is buffered; all the bytes given out and not taken back; how often
        the source was given up on. */
    ghost var held: seq<byte>
    ghost var delivered: seq<byte>
    ghost var stalls: nat
    /** The byte in lastByte was put back by ReadLine; a byte that was never
        given out last has been put back over another. */
    ghost var stale: bool
    ghost var spoiled: bool

    ghost predicate Valid()
      reads this, buf, rd
    {
      && MIN_READ_BUFFER_SIZE <= buf.Length && r <= w <= buf.Length && held == buf[r..w] && rd.Valid()
      && -1 <= lastByte < 256 && err != Some(BufferFull) && Faithful()
    }

    ghost predicate Faithful()
      reads this, rd
    {
      // nothing is lost, repeated or reordered
      && (!spoiled ==> rd.taken == delivered + held)
      && (lastByte >= 0 ==> if stale then delivered != [] else LastGiven())
      // the source is given up on only when it pauses
      && stalls <= rd.pauses
    }

    /** lastByte is what was given out last. */
    ghost predicate LastGiven()
      reads this
    {
      delivered != [] && delivered[|delivered| - 1] == lastByte
    }

    ghost function Unread(): View
      reads this, rd
    {
      View(delivered, held, err, rd.rest, rd.NextError())
    }

    constructor (rd: Source, size: int)
      requires rd.Valid() && rd.taken == []
      ensures Valid() && this.rd == rd && fresh(buf) && Unread() == View([], [], None, rd.rest, rd.NextError())
      ensures buf.Length == (if size < MIN_READ_BUFFER_SIZE then MIN_READ_BUFFER_SIZE else size)
      ensures lastByte == -1 && !spoiled && stalls == 0
    {
      var length := if size < MIN_READ_BUFFER_SIZE then MIN_READ_BUFFER_SIZE else size;
      this.rd := rd;
      buf := new byte[length];
      r, w, err, lastByte := 0, 0, None, -1;
      held, delivered, stalls, stale, spoiled := [], [], 0, false, false;
    }

    /** Moves what is buffered to the front. */
    method Slide()
      requires Valid()
      modifies this`r, this`w, buf
      ensures Valid() && r == 0
    {
      if r > 0 {
        forall i | 0 <= i < w - r {
          buf[i] := buf[r + i];
        }
        r, w := 0, w - r;
      }
    }

    /** One read into the free part of the buffer. */
    method ReadMore() returns (n: nat)
      requires Valid() && r == 0 && err == None
      modifies this`w, this`held, this`err, buf, rd
      ensures Valid() && Same(old(Unread()), Unread(), false) && |held| == old(|held|) + n && old(held) <= held
      ensures n == 0 && err == None ==> Unread() == old(Unread())
      ensures rd.idle == if n == 0 && err == None then old(rd.idle) + 1 else 0
      ensures rd.pauses == old(rd.pauses) + if rd.idle > 0 && rd.idle % PAUSE == 0 then 1 else 0
    {
      hide Same;
      ghost var v := Unread();
      var e;
      n, e := rd.Read(buf, w);
      Grown(v.held, v.rest[..n], buf[..], w);
      Regroup(delivered, held, v.rest[..n]);
      w := w + n;
      held := held + v.rest[..n];
      if e.Some? {
        err := Some(FromSource(e.value));
      }
      MoreSame(v, n, Unread());
    }

    /** Reads once, or gives up after 100 empty reads. */
    method Fill()
      requires Valid() && err == None && w - r < buf.Length
      modifies this`r, this`w, this`err, this`held, this`stalls, buf, rd
      ensures Valid() && r == 0 && stalls >= old(stalls) && Same(old(Unread()), Unread(), stalls != old(stalls))
      ensures if stalls != old(stalls) then held == old(held) else old(held) <= held && (err == None ==> |held| > old(|held|))
    {
      hide Same;
      ghost var v0 := Unread();
      Slide();
      Stall(v0);
      for i := 0 to MAX_CONSECUTIVE_EMPTY_READS
        invariant Valid() && r == 0 && Unread() == v0 && stalls == old(stalls)
        invariant rd.idle == old(rd.idle) + i
        invariant rd.pauses == old(rd.pauses) + (old(rd.idle) + i) / PAUSE - old(rd.idle) / PAUSE
      {
        var n := ReadMore();
        if err.Some? || n > 0 {
          return;
        }
      }
      err := Some(NoProgress);
      stalls := stalls + 1;
    }

    method ReadErr() returns (e: Option<Error>)
      requires Valid()
      modifies this`err
      ensures Valid() && e == old(err) && err == None
    {
      e := err;
      err := None;
    }

    /** Gives out the first n buffered bytes. */
    method Take(n: nat) returns (line: seq<byte>)
      requires Valid() && 0 < n <= w - r
      modifies this`r, this`lastByte, this`held, this`delivered, this`stale
      ensures Valid() && line == old(held)[..n] && old(held) == line + held && delivered == old(delivered) + line
      ensures lastByte == line[n - 1] && r == old(r) + n && !stale
    {
      line := buf[r..r + n];
      assert line == held[..n];
      r := r + n;
      delivered, held := delivered + held[..n], held[n..];
      lastByte, stale := buf[r - 1], false;
      assert old(held) == line + held;
    }

    /** Gives out everything buffered, and the error. */
    method TakeAll() returns (line: seq<byte>, e: Option<Error>)
      requires Valid()
      modifies this`r, this`lastByte, this`held, this`delivered, this`stale, this`err
      ensures Valid() && line == old(held) && held == [] && delivered == old(delivered) + line
      ensures e == old(err) && err == None
      ensures if line == [] then lastByte == old(lastByte) && stale == old(stale) else lastByte == line[|line| - 1] && r > 0 && !stale
    {
      line := [];
      if r < w {
        line := Take(w - r);
      }
      e := ReadErr();
    }

    /** Take and TakeAll, at the end of a call that found v0. */
    method Give(ghost v0: View, n: nat) returns (line: seq<byte>)
      requires Valid() && 0 < n <= w - r && Same(v0, Unread(), false)
      modifies this`r, this`lastByte, this`held, this`delivered, this`stale
      ensures Valid() && line == old(held)[..n]
      ensures n == |old(held)| ==> line == old(held)
      ensures Leaves(v0, line, None, Unread(), false) && Leaves(v0, line, Some(BufferFull), Unread(), false)
      ensures lastByte == line[n - 1] && r == old(r) + n && !stale
    {
      ghost var v := Unread();
      line := Take(n);
      TakeLeaves(v0, v, line, Unread());
    }

    method GiveAll(ghost v0: View, ghost stalled: bool) returns (line: seq<byte>, e: Option<Error>)
      requires Valid() && err.Some? && Same(v0, Unread(), stalled)
      modifies this`r, this`lastByte, this`held, this`delivered, this`stale, this`err
      ensures Valid() && line == old(held)
      ensures Leaves(v0, line, e, Unread(), stalled) && e.Some? && e != Some(BufferFull)
      ensures if line == [] then lastByte == old(lastByte) && stale == old(stale) else lastByte == line[|line| - 1] && r > 0 && !stale
    {
      AllLeaves(v0, Unread(), stalled);
      line, e := TakeAll();
    }

    /** Fill, in a call that found v0. */
    method FillMore(ghost v0: View)
      requires Valid() && err == None && w - r < buf.Length && Same(v0, Unread(), false)
      modifies this`r, this`w, this`err, this`held, this`stalls, buf, rd
      ensures Valid() && r == 0
      ensures stalls >= old(stalls) && Same(v0, Unread(), stalls != old(stalls)) && old(held) <= held
      ensures stalls != old(stalls) ==> err.Some? && held == old(held)
      ensures err == None ==> |held| > old(|held|)
    {
      ghost var v := Unread();
      Fill();
      SameThen(v0, v, Unread(), stalls != old(stalls));
    }

    method ReadByte() returns (c: byte, e: Option<Error>)
      requires Valid()
      modifies this, buf, rd
      ensures Valid() && Leaves(old(Unread()), if e == None then [c] else [], e, Unread(), stalls != old(stalls))
      ensures e == None ==> CanUnread() && lastByte == c
    {
      hide Same, Leaves;
      ghost var v0 := Unread();
      SameRefl(v0);
      while r == w
        invariant Valid() && Same(v0, Unread(), stalls != old(stalls)) && (stalls != old(stalls) ==> err.Some? && held == [])
        decreases if err == None && r == w then 1 else 0
      {
        if err.Some? {
          var line;
          line, e := GiveAll(v0, stalls != old(stalls));
          return 0, e;
        }
        FillMore(v0);
      }
      var line := Give(v0, 1);
      c, e := line[0], None;
      assert line == [c];
    }

    predicate CanUnread()
      reads this
    {
      lastByte >= 0 && (r > 0 || w == 0)
    }

    /** Puts a byte into the buffer. */
    method Prepend(c: byte)
      requires Valid() && (r > 0 || w == 0)
      modifies this`r, this`w, this`held, buf
      ensures r <= w <= buf.Length && held == [c] + old(held) && held == buf[r..w]
      ensures r == if old(r) > 0 then old(r) - 1 else 0
    {
      hide Faithful;
      if r > 0 {
        r := r - 1;
      } else {
        w := 1;
      }
      buf[r] := c;
      held := [c] + held;
      assert buf[r..w] == held;
    }

    /** Puts a byte back in front of what is buffered. */
    method PutBack(c: byte)
      requires Valid() && (r > 0 || w == 0) && delivered != []
      modifies this, buf
      ensures Valid() && err == old(err) && held == [c] + old(held) && lastByte == -1 && !stale
      ensures delivered == old(delivered)[..old(|delivered|) - 1] && stalls == old(stalls)
      ensures spoiled == old(spoiled || delivered[|delivered| - 1] != c)
      ensures r == if old(r) > 0 then old(r) - 1 else 0
    {
      hide LastGiven;
      Prepend(c);
      spoiled := spoiled || delivered[|delivered| - 1] != c;
      delivered := delivered[..|delivered| - 1];
      assert !spoiled ==> old(delivered) == delivered + [c];
      lastByte, stale := -1, false;
    }

    /** What it puts back is the byte given out last, unless ReadLine has
        already put that byte back. */
    method UnreadByte() returns (e: Option<Error>)
      requires Valid()
      modifies this, buf
      ensures Valid() && Unread().NextError() == old(Unread().NextError()) && stalls == old(stalls)
      ensures e == if old(CanUnread()) then None else Some(InvalidUnreadByte)
      ensures e == None ==> Unread().Ahead() == [old(lastByte)] + old(Unread().Ahead()) && lastByte == -1
      ensures e == None ==>
                && (!old(stale) ==> old(LastGiven()))
                && delivered == old(delivered)[..old(|delivered|) - 1] && spoiled == old(spoiled || !LastGiven())
      ensures e.Some? ==> Unread() == old(Unread()) && lastByte == old(lastByte)
    {
      if lastByte < 0 || (r == 0 && w > 0) {
        e := Some(InvalidUnreadByte);
      } else {
        ghost var x := lastByte as byte;
        PutBack(lastByte);
        e := None;
        assert [x] + old(held) + rd.rest == [x] + (old(held) + rd.rest);
      }
    }

    /** Where delim is among the buffered bytes, when it is not in the first s. */
    method Search(delim: byte, s: nat) returns (i: int)
      requires Valid() && Searched(held, s, delim)
      ensures -1 <= i < |held|
      ensures i == -1 ==> Searched(held, |held|, delim) && forall e: Error :: Ends(held, delim, Some(e))
      ensures i >= 0 ==> Ends(held[..i + 1], delim, None) && s < |held|
    {
      i := IndexByte(buf[r + s..w], delim);
      assert buf[r + s..w] == held[s..];
      if i >= 0 {
        i := i + s;
        FirstAt(held, delim, s, i);
      } else {
        assert held == held[..s] + held[s..];
      }
    }

    /** Fills the buffer again, when there is no delim in it; what was there need
        not be searched again. */
    method SearchMore(ghost v0: View, delim: byte) returns (s: nat)
      requires Valid() && err == None && w - r < buf.Length && Same(v0, Unread(), false) && Searched(held, |held|, delim)
      modifies this`r, this`w, this`err, this`held, this`stalls, buf, rd
      ensures Valid() && Searched(held, s, delim) && s <= |held|
      ensures stalls >= old(stalls) && Same(v0, Unread(), stalls != old(stalls))
      ensures stalls != old(stalls) ==> s == |held| && err.Some?
      ensures err == None ==> |held| > old(|held|)
    {
      hide Same, Searched, Faithful;
      s := w - r;
      ghost var have := held;
      FillMore(v0);
      SearchedPrefix(have, held, delim);
    }

    method ReadSlice(delim: byte) returns (line: seq<byte>, e: Option<Error>)
      requires Valid()
      modifies this, buf, rd
      ensures Valid() && Leaves(old(Unread()), line, e, Unread(), stalls != old(stalls))
      ensures Ends(line, delim, e) && |line| <= buf.Length && (e == Some(BufferFull) ==> line != [] && |line| == buf.Length == r)
      ensures line != [] ==> CanUnread() && lastByte == line[|line| - 1] && !stale
      ensures (stale ==> old(stale)) && spoiled == old(spoiled) && stalls >= old(stalls)
    {
      hide Same, Leaves, Ends, Searched, Faithful, IndexByte;
      ghost var v0 := Unread();
      SameRefl(v0);
      var s: nat := 0;
      NotSearched(held, delim);
      while true
        invariant Valid() && Searched(held, s, delim) && Same(v0, Unread(), stalls != old(stalls))
        invariant stale == old(stale) && spoiled == old(spoiled) && stalls >= old(stalls)
        invariant stalls != old(stalls) ==> s == |held| && err.Some?
        decreases err == None, buf.Length - |held|
      {
        var i := Search(delim, s);
        if i >= 0 {
          line := Give(v0, i + 1);
          return line, None;
        }
        if err.Some? {
          line, e := GiveAll(v0, stalls != old(stalls));
          return;
        }
        if w - r >= buf.Length {
          line := Give(v0, w - r);
          return line, Some(BufferFull);
        }
        s := SearchMore(v0, delim);
      }
    }
    /** A '\\r' that ends a full buffer goes back, so that it stays with a '\\n'. */
    method CutCR(ghost v0: View, full: seq<byte>) returns (line: seq<byte>)
      requires Valid() && Leaves(v0, full, Some(BufferFull), Unread(), false)
      requires LF !in full && |full| == buf.Length == r && lastByte == full[|full| - 1] && !stale
      modifies this, buf
      ensures Valid() && IsPrefix(v0, line, Unread()) && stalls == old(stalls) && spoiled == old(spoiled) && CanUnread()
      ensures buf.Length - 1 <= |line| <= buf.Length && (stale <==> |line| == buf.Length - 1)
      ensures if stale then lastByte == CR else lastByte == line[|line| - 1] != CR
    {
      line := full;
      if line[|line| - 1] == CR {
        var c := lastByte;
        ghost var v := Unread();
        PutBack(c);
        lastByte, stale := c, true;
        line := line[..|line| - 1];
        CutPrefix(v0, full, v, Unread());
      } else {
        WholePrefix(v0, full, Unread());
      }
    }

    method ReadLine() returns (line: seq<byte>, isPrefix: bool, e: Option<Error>)
      requires Valid()
      modifies this, buf, rd
      ensures Valid() && (isPrefix ==> IsPrefix(old(Unread()), line, Unread()) && stalls == old(stalls) && e == None)
      ensures !isPrefix && stalls == old(stalls) ==> IsLine(old(Unread()), line, e, Unread())
      ensures e.Some? ==> line == []
      ensures |line| <= buf.Length && spoiled == old(spoiled) && stalls >= old(stalls)
      ensures !isPrefix && stale ==> old(stale)
      ensures isPrefix ==> CanUnread() && |line| >= buf.Length - 1 && (stale <==> |line| == buf.Length - 1)
      ensures isPrefix ==> if stale then lastByte == CR else lastByte == line[|line| - 1] != CR
    {
      hide Leaves, Ends, IsPrefix, IsLine, Line, IndexByte, Valid, LastGiven;
      ghost var v0 := Unread();
      line, e := ReadSlice(LF);
      EndsMeans(line, LF, e);
      if e == Some(BufferFull) {
        NotStalled(v0, line, Unread(), stalls != old(stalls));
        line := CutCR(v0, line);
        return line, true, None;
      }
      isPrefix := false;
      if stalls == old(stalls) { FinishLine(v0, line, e, Unread()); }
      if line == [] {
        return;
      }
      e := None;
      if line[|line| - 1] == LF {
        var drop := if |line| > 1 && line[|line| - 2] == CR then 2 else 1;
        line := line[..|line| - drop];
      }
    }

    method Peek(n: int) returns (bytes: seq<byte>, e: Option<Error>)
      requires Valid()
      modifies this, buf, rd
      ensures Valid()
      ensures n < 0 ==> e == Some(NegativeCount) && bytes == [] && Unread() == old(Unread()) && lastByte == old(lastByte)
      ensures n >= 0 ==>
                && lastByte == -1
                && Peeked(old(Unread()), n, buf.Length, bytes, e, Unread(), stalls != old(stalls))
    {
      hide Same, Peeked;
      if n < 0 {
        return [], Some(NegativeCount);
      }
      lastByte := -1;
      ghost var v0 := Unread();
      SameRefl(v0);
      while w - r < n && w - r < buf.Length && err == None
        invariant Valid() && Same(v0, Unread(), stalls != old(stalls)) && lastByte == -1
        invariant stalls != old(stalls) ==> err.Some? && w - r < n && w - r < buf.Length
        decreases err == None, buf.Length - |held|
      {
        FillMore(v0);
      }
      ghost var v := Unread();
      bytes := buf[r..w];
      if n > buf.Length {
        e := Some(BufferFull);
      } else if w - r < n {
        e := ReadErr();
      } else {
        bytes, e := bytes[..n], None;
      }
      IsPeeked(v0, n, buf.Length, v, bytes, e, Unread(), stalls != old(stalls));
    }

    /** At most one read of the source. */
    method Read(p: array<byte>) returns (n: nat, e: Option<Error>)
      requires Valid() && p != buf
      modifies this, buf, rd, p
      ensures Valid() && n <= p.Length && stalls == old(stalls) && e != Some(BufferFull)
      ensures Leaves(old(Unread()), p[..n], e, Unread(), false)
    {
      hide Same, Leaves;
      ghost var v0 := Unread();
      SameRefl(v0);
      if p.Length == 0 || (r == w && err.Some?) {
        n := 0;
        assert p[..n] == [];
        if r < w || err == None {
          LeavesNone(v0);
          return n, None;
        }
        var line;
        line, e := GiveAll(v0, false);
        return;
      }
      if r == w && p.Length >= buf.Length {
        n, e := ReadDirectly(p);
        return;
      }
      if r == w {
        r, w := 0, 0;
        n := ReadMore();
        if n == 0 {
          assert p[..n] == [];
          if err == None {
            LeavesNone(v0);
            return n, None;
          }
          var line;
          line, e := GiveAll(v0, false);
          return;
        }
      }
      n := if p.Length < w - r then p.Length else w - r;
      var line := Give(v0, n);
      forall i | 0 <= i < n {
        p[i] := line[i];
      }
      assert p[..n] == line;
      e := None;
    }

    /** A large read bypasses the empty buffer. */
    method ReadDirectly(p: array<byte>) returns (n: nat, e: Option<Error>)
      requires Valid() && r == w && err == None && p != buf && p.Length > 0
      modifies this, rd, p
      ensures Valid() && n <= p.Length && stalls == old(stalls) && e != Some(BufferFull)
      ensures Leaves(old(Unread()), p[..n], e, Unread(), false)
    {
      hide Leaves;
      ghost var v := Unread();
      var se;
      n, se := rd.Read(p, 0);
      assert p[..n] == v.rest[..n];
      DirectLeaves(v, n, se);
      delivered := delivered + p[..n];
      if n > 0 {
        lastByte, stale := p[n - 1], false;
      }
      e := if se.Some? then Some(FromSource(se.value)) else None;
    }

    /** Full buffers until a delimiter or an error, and the last fragment. */
    method CollectFragments(delim: byte) returns (full: seq<seq<byte>>, frag: seq<byte>, e: Option<Error>)
      requires Valid()
      modifies this, buf, rd
      ensures Valid() && e != Some(BufferFull)
      ensures Leaves(old(Unread()), Flatten(full) + frag, e, Unread(), stalls != old(stalls))
      ensures Ends(Flatten(full) + frag, delim, e)
    {
      hide Leaves, Ends, Flatten;
      ghost var v0 := Unread();
      full := [];
      NothingYet(v0);
      while true
        invariant Valid() && stalls == old(stalls)
        invariant Leaves(v0, Flatten(full), Some(BufferFull), Unread(), false) && delim !in Flatten(full)
        decreases |Unread().Ahead()|
      {
        ghost var v, have := Unread(), Flatten(full);
        frag, e := ReadSlice(delim);
        LeavesThen(v0, have, v, frag, e, Unread(), stalls != old(stalls));
        EndsThen(have, frag, delim, e);
        if e != Some(BufferFull) {
          return;
        }
        NotStalled(v, frag, Unread(), stalls != old(stalls));
        FlattenLast(full, frag);
        full := full + [frag];
      }
    }

    method ReadBytes(delim: byte) returns (line: seq<byte>, e: Option<Error>)
      requires Valid()
      modifies this, buf, rd
      ensures Valid() && Leaves(old(Unread()), line, e, Unread(), stalls != old(stalls)) && Ends(line, delim, e)
      ensures stalls == old(stalls) ==> IsThrough(old(Unread()), line, delim, e)
    {
      hide Leaves, Ends, Flatten, IsThrough;
      ghost var v0 := Unread();
      var full, frag;
      full, frag, e := CollectFragments(delim);
      line := Join(full, frag);
      if stalls == old(stalls) { ThroughFirst(v0, line, delim, e, Unread()); }
    }
  }

  /** UnreadByte after a prefix from ReadLine.  It puts the last byte of the
      prefix back, as it should, exactly if that byte is a '\\r' or ReadLine
      has put none back, so that the buffer was given out to its end. */
  method UnreadAfterPrefix(b: Reader) returns (line: seq<byte>, isPrefix: bool)
    requires b.Valid()
    modifies b, b.buf, b.rd
    ensures b.Valid() && |line| <= b.buf.Length && b.stalls >= old(b.stalls)
    ensures isPrefix ==>
              && line != [] && b.Unread().Ahead() != [] && old(b.Unread()).Ahead() == line + b.Unread().Ahead()[1..]
              && b.Unread().Ahead()[..1] == [if |line| == b.buf.Length then line[|line| - 1] else CR]
              && (old(b.Unread()).Ahead() == line[..|line| - 1] + b.Unread().Ahead()
                  <==> |line| == b.buf.Length || line[|line| - 1] == CR)
              && (b.spoiled <==> old(b.spoiled) || !(|line| == b.buf.Length || line[|line| - 1] == CR))
    ensures isPrefix ==> LF !in line && |line| >= b.buf.Length - 1 && (|line| == b.buf.Length ==> line[|line| - 1] != CR)
    ensures !isPrefix && b.stalls == old(b.stalls) ==> line == Line(old(b.Unread()).Ahead())
  {
    hide Reader.Faithful, Line;
    ghost var v := b.Unread();
    var e;
    line, isPrefix, e := b.ReadLine();
    if isPrefix {
      ghost var u := b.Unread();
      GivenLast(v, line, u);
      e := b.UnreadByte();
      PutBackAhead(v.Ahead(), line, u.Ahead(), b.Unread().Ahead()[0]);
    }
  }

  lemma GivenLast(v: View, line: seq<byte>, u: View)
    requires IsPrefix(v, line, u) && line != []
    ensures u.given[..|u.given| - 1] == v.given + line[..|line| - 1] && u.given[|u.given| - 1] == line[|line| - 1]
    ensures v.Ahead() == line + u.Ahead() && LF !in line
  {}

  lemma PutBackAhead(s: seq<byte>, line: seq<byte>, rest: seq<byte>, c: byte)
    requires s == line + rest && line != []
    ensures ([c] + rest)[1..] == rest && ([c] + rest)[..1] == [c]
    ensures s == line[..|line| - 1] + ([c] + rest) <==> c == line[|line| - 1]
  {
    var k := |line| - 1;
    assert line == line[..k] + [line[k]];
    assert (line[..k] + ([c] + rest))[k] == c;
    if c == line[k] { assert line + rest == line[..k] + ([c] + rest); }
  }

  /** Fifteen letters, a '\\r', and one more. */
  const FIFTEEN: seq<byte> := [97, 98, 99, 100, 101, 102, 103, 104, 105, 106, 107, 108, 109, 110, 111]
  const LONG_LINE: seq<byte> := FIFTEEN + [CR, 112]

  /** A client that meets the other case: unless the source stalls, the smallest
      buffer ends with the '\\r', and UnreadByte puts a second one in place of
      the fifteenth letter. */
  method LetterOverwritten() returns (b: Reader)
    ensures fresh(b) && b.Valid()
    ensures b.stalls == 0 ==> b.spoiled && b.Unread().Ahead() == [CR, CR, 112]
  {
    hide Line, FIFTEEN, LONG_LINE, Reader.Valid, Source.Valid;
    var source := LongLineSource();
    b := new Reader(source, MIN_READ_BUFFER_SIZE);
    ghost var v := b.Unread();
    var line, isPrefix := UnreadAfterPrefix(b);
    if b.stalls == 0 {
      assert v.Ahead() == LONG_LINE;
      WholeLine();
      LongLinePrefix(line, isPrefix, b.Unread().Ahead());
    }
  }

  method LongLineSource() returns (source: Source)
    ensures fresh(source) && source.Valid() && source.rest == LONG_LINE && source.taken == []
  {
    source := new Source(_ => Segment(LONG_LINE, EOF));
  }

  lemma WholeLine()
    ensures |LONG_LINE| == 17 && LONG_LINE[15] == CR && LONG_LINE[14] == 111 && Line(LONG_LINE) == LONG_LINE
  {
    assert LF !in LONG_LINE;
  }

  lemma LongLinePrefix(line: seq<byte>, isPrefix: bool, ahead: seq<byte>)
    requires |line| <= 16 && (!isPrefix ==> line == LONG_LINE)
    requires isPrefix ==>
               && |line| >= 15 && ahead != [] && LONG_LINE == line + ahead[1..]
               && ahead[..1] == [if |line| == 16 then line[|line| - 1] else CR] && (|line| == 16 ==> line[15] != CR)
    ensures isPrefix && |line| == 15 && line[14] != CR && ahead == [CR, CR, 112]
  {
    WholeLine();
    if |line| == 15 {
      assert ahead[1..] == LONG_LINE[15..];
      assert ahead == ahead[..1] + ahead[1..];
    }
  }

  method Join(full: seq<seq<byte>>, frag: seq<byte>) returns (line: seq<byte>)
    ensures line == Flatten(full) + frag
  {
    line := [];
    for i := 0 to |full|
      invariant line == Flatten(full[..i])
    {
      FlattenLast(full[..i], full[i]);
      assert full[..i + 1] == full[..i] + [full[i]];
      line := line + full[i];
    }
    assert full[..|full|] == full;
    line := line + frag;
  }

  /** The first line of s: up to "\n" or "\r\n", or all of s. */
  function Line(s: seq<byte>): seq<byte> {
    if LF in s then DropCR(s[..IndexByte(s, LF)]) else s
  }

  /** A part of a line: what is left starts with the rest of the same line. */
  ghost predicate IsPrefix(v: View, line: seq<byte>, v': View) {
    Leaves(v, line, None, v', false) && LF !in line && Line(v.Ahead()) == line + Line(v'.Ahead())
  }

  /** The line, and what is after its end; or, if nothing is left, the error. */
  ghost predicate IsLine(v: View, line: seq<byte>, e: Option<Error>, v': View) {
    var s := v.Ahead();
    && line == Line(s) && e == (if s == [] then Some(v.NextError()) else None)
    && v'.given == v.given + Through(s, LF)
    && if LF in s then v'.Ahead() == s[IndexByte(s, LF) + 1..] && v'.NextError() == v.NextError() else v'.err == None
  }

  lemma LinePrefix(x: seq<byte>, y: seq<byte>)
    requires LF !in x && (x == [] || x[|x| - 1] != CR || y == [] || y[0] != LF)
    ensures Line(x + y) == x + Line(y)
  {
    hide IndexByte;
    if LF in y {
      var i := IndexByte(y, LF);
      assert (x + y)[..|x| + i] == x + y[..i];
      assert (x + y)[|x| + i] == LF;
      IndexByteIs(x + y, LF, |x| + i);
      DropCRAfter(x, y[..i]);
    }
  }

  lemma DropCRAfter(x: seq<byte>, z: seq<byte>)
    requires x == [] || x[|x| - 1] != CR || z != []
    ensures DropCR(x + z) == x + DropCR(z)
  {
    if z != [] { assert (x + z)[..|x| + |z| - 1] == x + z[..|z| - 1]; } else { assert x + z == x; }
  }

  lemma WholePrefix(v0: View, full: seq<byte>, v: View)
    requires Leaves(v0, full, Some(BufferFull), v, false) && LF !in full && full != [] && full[|full| - 1] != CR
    ensures IsPrefix(v0, full, v)
  {
    LinePrefix(full, v.Ahead());
  }

  lemma CutPrefix(v0: View, full: seq<byte>, v: View, v': View)
    requires Leaves(v0, full, Some(BufferFull), v, false) && LF !in full && full != [] && full[|full| - 1] == CR
    requires v' == v.(given := v'.given, held := [CR] + v.held) && v'.given == v.given[..|v.given| - 1]
    ensures IsPrefix(v0, full[..|full| - 1], v')
  {
    var line := full[..|full| - 1];
    assert full == line + [CR];
    assert v'.Ahead() == [CR] + v.Ahead();
    assert v0.Ahead() == line + v'.Ahead();
    assert v'.given == v0.given + line;
    LinePrefix(line, v'.Ahead());
  }

  /** What ReadLine makes of a line from ReadSlice. */
  function Trimmed(line: seq<byte>): seq<byte> {
    if line == [] || line[|line| - 1] != LF then line
    else line[..|line| - if |line| > 1 && line[|line| - 2] == CR then 2 else 1]
  }

  lemma FinishLine(v: View, line: seq<byte>, e: Option<Error>, v': View)
    requires Leaves(v, line, e, v', false) && Ends(line, LF, e) && e != Some(BufferFull)
    ensures IsLine(v, Trimmed(line), if line == [] then e else None, v')
  {
    ThroughFirst(v, line, LF, e, v');
    var s := v.Ahead();
    if LF in s {
      var i := IndexByte(s, LF);
      assert line == s[..i + 1];
      assert line[..i] == s[..i];
      assert v'.Ahead() == s[i + 1..];
    }
  }

  lemma EndsMeans(line: seq<byte>, delim: byte, e: Option<Error>)
    requires Ends(line, delim, e)
    ensures e.Some? ==> delim !in line
    ensures e == None ==> line != []
  {}

  /** The next n unread bytes, which stay unread; fewer only with an error. */
  ghost predicate Peeked(v: View, n: nat, size: nat, bytes: seq<byte>, e: Option<Error>, v': View, stalled: bool) {
    && v'.given == v.given
    && if n > size then e == Some(BufferFull) && bytes <= v.Ahead() && bytes == v'.held && Same(v, v', stalled)
       else if e == None then |bytes| == n && bytes <= v.Ahead() && Same(v, v', false) && !stalled
       else
         && |bytes| < n && v'.err == None && v'.held == bytes
         && if stalled then e == Some(NoProgress) && v'.Ahead() == v.Ahead() else bytes == v.Ahead() && e == Some(v.NextError())
  }

  lemma IsPeeked(v0: View, n: nat, size: nat, v: View, bytes: seq<byte>, e: Option<Error>, v': View, stalled: bool)
    requires Same(v0, v, stalled) && v.err != Some(BufferFull) && (stalled ==> |v.held| < n)
    requires |v.held| < n && n <= size ==> v.err.Some?
    requires v' == if n <= size && |v.held| < n then v.(err := None) else v
    requires e == if n > size then Some(BufferFull) else if |v.held| < n then v.err else None
    requires bytes == if n > size || |v.held| < n then v.held else v.held[..n]
    ensures Peeked(v0, n, size, bytes, e, v', stalled)
  {}

  lemma LeavesNone(v: View)
    ensures Leaves(v, [], None, v, false)
  {}

  /** s through the first delim, or all of s. */
  function Through(s: seq<byte>, delim: byte): seq<byte> {
    if delim in s then s[..IndexByte(s, delim) + 1] else s
  }

  lemma NothingYet(v: View)
    ensures Leaves(v, Flatten([]), Some(BufferFull), v, false) && Flatten([]) == []
  {}

  lemma NotStalled(v: View, line: seq<byte>, v': View, stalled: bool)
    requires Leaves(v, line, Some(BufferFull), v', stalled) && line != []
    ensures !stalled && |v'.Ahead()| < |v.Ahead()|
  {}

  lemma LeavesThen(v0: View, line: seq<byte>, v: View, line': seq<byte>, e: Option<Error>, v': View, stalled: bool)
    requires Leaves(v0, line, Some(BufferFull), v, false) && Leaves(v, line', e, v', stalled)
    ensures Leaves(v0, line + line', e, v', stalled)
  {
    assert line + (line' + v'.Ahead()) == line + line' + v'.Ahead();
    assert v0.given + line + line' == v0.given + (line + line');
  }

  lemma EndsThen(full: seq<byte>, frag: seq<byte>, delim: byte, e: Option<Error>)
    requires delim !in full && Ends(frag, delim, e)
    ensures Ends(full + frag, delim, e) && (e.Some? ==> delim !in full + frag)
  {
    if e == None { assert (full + frag)[..|full + frag| - 1] == full + frag[..|frag| - 1]; }
  }

  /** The unread bytes through the first delimiter, or all of them with the
      error that comes after them. */
  ghost predicate IsThrough(v: View, line: seq<byte>, delim: byte, e: Option<Error>) {
    line == Through(v.Ahead(), delim) && e == if delim in v.Ahead() then None else Some(v.NextError())
  }

  /** What ReadBytes gives out is determined by the unread bytes alone. */
  lemma ThroughFirst(v: View, line: seq<byte>, delim: byte, e: Option<Error>, v': View)
    requires Leaves(v, line, e, v', false) && Ends(line, delim, e) && e != Some(BufferFull)
    ensures IsThrough(v, line, delim, e)
  {
    if e == None {
      var s := v.Ahead();
      assert s[|line| - 1] == line[|line| - 1];
      assert s[..|line| - 1] == line[..|line| - 1];
      IndexByteIs(s, delim, |line| - 1);
      assert s[..|line|] == line;
    }
  }

  /** line stops at the first delim, if no error stopped it before. */
  predicate Ends(line: seq<byte>, delim: byte, e: Option<Error>) {
    if e == None then line != [] && line[|line| - 1] == delim && delim !in line[..|line| - 1] else delim !in line
  }

  /** delim is not in the first s bytes. */
  predicate Searched(held: seq<byte>, s: nat, delim: byte) { s <= |held| && delim !in held[..s] }

  lemma NotSearched(held: seq<byte>, delim: byte)
    ensures Searched(held, 0, delim)
  {}

  lemma SearchedPrefix(have: seq<byte>, held: seq<byte>, delim: byte)
    requires Searched(have, |have|, delim) && have <= held
    ensures Searched(held, |have|, delim)
  {
    assert held[..|have|] == have;
    assert have[..|have|] == have;
  }

  lemma FirstAt(held: seq<byte>, delim: byte, s: nat, i: nat)
    requires s <= i < |held| && Searched(held, s, delim) && delim !in held[s..][..i - s] && held[i] == delim
    ensures Ends(held[..i + 1], delim, None)
  {
    assert held[..i + 1][..i] == held[..s] + held[s..][..i - s];
  }
}
