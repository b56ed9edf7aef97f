/** src/io/pipe.go: any number of concurrent Reads, Writes and closes on one
    pipe, as a step relation.  A send on an unbuffered channel and the matching
    receive are one step. */
module Pipe {
  import opened Basics

  datatype Error = EOF | ErrClosedPipe | Custom(id: nat)

  /** A Write: before the first select, waiting for wrMu, at the select of the
      loop, waiting on rdCh, loading the two errors, before the unlock. */
  datatype WritePc =
    | WStart | WLock | WSelect | WAwait
    | WLoad(locked: bool) | WLoadOther(locked: bool, werr: Option<Error>)
    | WUnlock(err: Option<Error>) | WDone(err: Option<Error>)

  /** n is how much of data has been consumed; first is the loop's once. */
  datatype Writer = Writer(data: seq<byte>, n: nat, first: bool, pc: WritePc)

  /** A Read: before the first select, at the second, sending on rdCh, loading
      the two errors. */
  datatype ReadPc = RStart | RSelect | RSend | RLoad | RLoadOther(rerr: Option<Error>) | RDone(err: Option<Error>)

  datatype Reader = Reader(room: nat, got: seq<byte>, pc: ReadPc)

  /** CloseRead or CloseWrite, without or with an error of its own: before the
      store, before the close of done. */
  datatype ClosePc = Store | CloseDone | Closed

  datatype Closer = Closer(write: bool, err: Option<Error>, pc: ClosePc)

  /** writeOrder lists the writers that got wrMu, and readOrder the readers that
      were handed bytes; both are history. */
  datatype Pipe = Pipe(
    writers: seq<Writer>, readers: seq<Reader>, closers: seq<Closer>,
    holder: Option<nat>, done: bool, rerr: Option<Error>, werr: Option<Error>,
    writeOrder: seq<nat>, readOrder: seq<nat>)

  function SetW(s: Pipe, w: nat, x: Writer): Pipe
    requires w < |s.writers|
  {
    s.(writers := s.writers[w := x])
  }

  function SetR(s: Pipe, r: nat, x: Reader): Pipe
    requires r < |s.readers|
  {
    s.(readers := s.readers[r := x])
  }

  /** writeCloseError and readCloseError, from the two loaded errors. */
  function CloseError(own: Option<Error>, other: Option<Error>): Error {
    if own == None && other.Some? then other.value else ErrClosedPipe
  }

  function Count(x: Writer, y: Reader): nat
    requires x.n <= |x.data|
  {
    if y.room < |x.data| - x.n then y.room else |x.data| - x.n
  }

  // ----- steps -----

  ghost predicate WriteStep(s: Pipe, w: nat, s': Pipe)
    requires w < |s.writers|
  {
    var x := s.writers[w];
    match x.pc
    case WStart => s' == SetW(s, w, x.(pc := if s.done then WLoad(false) else WLock))
    case WLock =>
      s.holder == None
      && s' == SetW(s, w, x.(pc := WSelect, first := true)).(holder := Some(w), writeOrder := s.writeOrder + [w])
    case WSelect =>
      if x.first || x.n < |x.data|
      then s.done && s' == SetW(s, w, x.(pc := WLoad(true)))
      else s' == SetW(s, w, x.(pc := WUnlock(None)))
    case WAwait => false
    case WLoad(locked) => s' == SetW(s, w, x.(pc := WLoadOther(locked, s.werr)))
    case WLoadOther(locked, werr) =>
      var e := Some(CloseError(werr, s.rerr));
      s' == SetW(s, w, x.(pc := if locked then WUnlock(e) else WDone(e)))
    case WUnlock(err) => s' == SetW(s, w, x.(pc := WDone(err))).(holder := None)
    case WDone(_) => false
  }

  ghost predicate ReadStep(s: Pipe, r: nat, s': Pipe)
    requires r < |s.readers|
  {
    var y := s.readers[r];
    match y.pc
    case RStart => s' == SetR(s, r, y.(pc := if s.done then RLoad else RSelect))
    case RSelect => s.done && s' == SetR(s, r, y.(pc := RLoad))
    case RSend => false
    case RLoad => s' == SetR(s, r, y.(pc := RLoadOther(s.rerr)))
    case RLoadOther(rerr) => s' == SetR(s, r, y.(pc := RDone(Some(CloseError(rerr, s.werr)))))
    case RDone(_) => false
  }

  /** wrCh: writer w hands its slice to reader r, which copies what fits. */
  ghost predicate HandOff(s: Pipe, w: nat, r: nat, s': Pipe)
    requires w < |s.writers| && r < |s.readers|
  {
    var x, y := s.writers[w], s.readers[r];
    && x.pc == WSelect && y.pc == RSelect && x.n <= |x.data| && (x.first || x.n < |x.data|)
    && s' == SetR(SetW(s, w, x.(pc := WAwait)), r,
                  y.(pc := RSend, got := x.data[x.n..x.n + Count(x, y)])).(readOrder := s.readOrder + [r])
  }

  /** rdCh: reader r tells writer w how much it took. */
  ghost predicate Acknowledge(s: Pipe, w: nat, r: nat, s': Pipe)
    requires w < |s.writers| && r < |s.readers|
  {
    var x, y := s.writers[w], s.readers[r];
    && x.pc == WAwait && y.pc == RSend
    && s' == SetR(SetW(s, w, x.(pc := WSelect, first := false, n := x.n + |y.got|)), r, y.(pc := RDone(None)))
  }

  ghost predicate CloseStep(s: Pipe, c: nat, s': Pipe)
    requires c < |s.closers|
  {
    var z := s.closers[c];
    match z.pc
    case Store =>
      if z.write then
        var e := if z.err == None then EOF else z.err.value;
        s' == s.(closers := s.closers[c := z.(pc := CloseDone)], werr := if s.werr == None then Some(e) else s.werr)
      else
        var e := if z.err == None then ErrClosedPipe else z.err.value;
        s' == s.(closers := s.closers[c := z.(pc := CloseDone)], rerr := if s.rerr == None then Some(e) else s.rerr)
    case CloseDone => s' == s.(closers := s.closers[c := z.(pc := Closed)], done := true)
    case Closed => false
  }

  /** A new call. */
  ghost predicate Call(s: Pipe, s': Pipe) {
    || (exists data: seq<byte> :: s' == s.(writers := s.writers + [Writer(data, 0, true, WStart)]))
    || (exists room: nat :: s' == s.(readers := s.readers + [Reader(room, [], RStart)]))
    || (exists write: bool, err: Option<Error> :: s' == s.(closers := s.closers + [Closer(write, err, Store)]))
  }

  ghost predicate Next(s: Pipe, s': Pipe) {
    || Call(s, s')
    || (exists w: nat :: w < |s.writers| && WriteStep(s, w, s'))
    || (exists r: nat :: r < |s.readers| && ReadStep(s, r, s'))
    || (exists w: nat, r: nat :: w < |s.writers| && r < |s.readers| && HandOff(s, w, r, s'))
    || (exists w: nat, r: nat :: w < |s.writers| && r < |s.readers| && Acknowledge(s, w, r, s'))
    || (exists c: nat :: c < |s.closers| && CloseStep(s, c, s'))
  }

  const NEW_PIPE := Pipe([], [], [], None, false, None, None, [], [])

  ghost predicate IsRun(run: seq<Pipe>) {
    |run| > 0 && run[0] == NEW_PIPE && forall k :: 0 < k < |run| ==> Next(run[k - 1], run[k])
  }

  // ----- what was written and what was read -----

  function Consumed(x: Writer): seq<byte> { if x.n <= |x.data| then x.data[..x.n] else x.data }

  /** The consumed prefixes of the writes, in the order of the lock. */
  function Written(ws: seq<Writer>, order: seq<nat>): seq<byte> {
    if order == [] then []
    else
      var k := |order| - 1;
      Written(ws, order[..k]) + (if order[k] < |ws| then Consumed(ws[order[k]]) else [])
  }

  /** The bytes handed to the reads, in the order of the hand-offs. */
  function Read(rs: seq<Reader>, order: seq<nat>): seq<byte> {
    if order == [] then []
    else
      var k := |order| - 1;
      Read(rs, order[..k]) + (if order[k] < |rs| then rs[order[k]].got else [])
  }

  predicate Locked(pc: WritePc) {
    pc == WSelect || pc == WAwait || pc.WUnlock?
    || (pc.WLoad? && pc.locked) || (pc.WLoadOther? && pc.locked)
  }

  /** The one hand-off that may be outstanding: the holder of the lock waits
      for the last reader, which has copied the next bytes. */
  ghost predicate Outstanding(ws: seq<Writer>, rs: seq<Reader>, holder: Option<nat>, line: seq<nat>, r: nat) {
    && holder.Some? && holder.value < |ws| && r < |rs|
    && ws[holder.value].pc == WAwait && rs[r].pc == RSend
    && |line| > 0 && line[|line| - 1] == r
    && var x, y := ws[holder.value], rs[r];
       x.n + |y.got| <= |x.data| && y.got == x.data[x.n..x.n + |y.got|]
  }

  ghost predicate Waiting(ws: seq<Writer>, holder: Option<nat>) {
    holder.Some? && holder.value < |ws| && ws[holder.value].pc == WAwait
  }

  /** The bytes of the last reader in line. */
  function LastGot(rs: seq<Reader>, line: seq<nat>): seq<byte> {
    if |line| > 0 && line[|line| - 1] < |rs| then rs[line[|line| - 1]].got else []
  }

  /** Who holds the lock. */
  ghost predicate LockInv(ws: seq<Writer>, holder: Option<nat>, queue: seq<nat>) {
    && (forall w :: 0 <= w < |ws| ==> (Locked(ws[w].pc) <==> holder == Some(w)))
    && (holder.Some? ==> holder.value < |ws| && |queue| > 0 && queue[|queue| - 1] == holder.value)
  }

  /** Who has had the lock. */
  ghost predicate QueueInv(ws: seq<Writer>, queue: seq<nat>) {
    && (forall i, j :: 0 <= i < j < |queue| ==> queue[i] != queue[j])
    && (forall i :: 0 <= i < |queue| ==>
          queue[i] < |ws| && ws[queue[i]].pc != WStart && ws[queue[i]].pc != WLock)
  }

  /** A write: what it has delivered, and when it may return without error. */
  predicate WriteValid(x: Writer, done: bool) {
    && x.n <= |x.data|
    && (x.pc == WStart || x.pc == WLock ==> x.n == 0)
    && (x.pc == WUnlock(None) || x.pc == WDone(None) ==> x.n == |x.data|)
    && (x.pc.WLoad? || x.pc.WLoadOther? ==> done)
    && ((x.pc.WUnlock? || x.pc.WDone?) && x.pc.err.Some? ==> done)
  }

  ghost predicate WriteInv(ws: seq<Writer>, done: bool) {
    forall w :: 0 <= w < |ws| ==> WriteValid(ws[w], done)
  }

  /** At most one hand-off is outstanding. */
  ghost predicate HandInv(ws: seq<Writer>, rs: seq<Reader>, holder: Option<nat>, line: seq<nat>) {
    && (forall r :: 0 <= r < |rs| && rs[r].pc == RSend ==> Outstanding(ws, rs, holder, line, r))
    && (Waiting(ws, holder) ==> |line| > 0 && Outstanding(ws, rs, holder, line, line[|line| - 1]))
  }

  /** Who has been handed bytes. */
  ghost predicate LineInv(rs: seq<Reader>, line: seq<nat>) {
    && (forall i, j :: 0 <= i < j < |line| ==> line[i] != line[j])
    && (forall i :: 0 <= i < |line| ==>
          line[i] < |rs| && (rs[line[i]].pc == RSend || rs[line[i]].pc == RDone(None)))
  }

  /** A read returns no more bytes than it has room for; bytes or an error,
      never both; and an error only after done was closed. */
  predicate ReadValid(y: Reader, done: bool) {
    && |y.got| <= y.room
    && (y.pc == RLoad || y.pc.RLoadOther? ==> done)
    && (y.pc.RDone? && y.pc.err.Some? ==> done)
    && (y.pc != RSend && y.pc != RDone(None) ==> y.got == [])
  }

  ghost predicate ReadInv(rs: seq<Reader>, done: bool) {
    forall r :: 0 <= r < |rs| ==> ReadValid(rs[r], done)
  }

  /** done is closed only after an error has been stored. */
  ghost predicate CloseInv(cs: seq<Closer>, done: bool, stored: bool) {
    && (done ==> stored)
    && (forall c :: 0 <= c < |cs| && cs[c].pc == CloseDone ==> stored)
  }

  ghost predicate StateInv(s: Pipe) {
    && LockInv(s.writers, s.holder, s.writeOrder)
    && QueueInv(s.writers, s.writeOrder)
    && WriteInv(s.writers, s.done)
    && HandInv(s.writers, s.readers, s.holder, s.readOrder)
    && LineInv(s.readers, s.readOrder)
    && ReadInv(s.readers, s.done)
    && CloseInv(s.closers, s.done, s.rerr.Some? || s.werr.Some?)
  }

  /** What the reads got is what the writes delivered, and the bytes of a
      hand-off that is not acknowledged yet. */
  ghost predicate Conserved(ws: seq<Writer>, rs: seq<Reader>, holder: Option<nat>, queue: seq<nat>, line: seq<nat>) {
    Read(rs, line) == Written(ws, queue) + (if Waiting(ws, holder) then LastGot(rs, line) else [])
  }

  ghost predicate Inv(s: Pipe) {
    StateInv(s) && Conserved(s.writers, s.readers, s.holder, s.writeOrder, s.readOrder)
  }

  // ----- the invariant is kept -----

  lemma {:induction false} WrittenSame(ws: seq<Writer>, ws': seq<Writer>, order: seq<nat>)
    requires forall i :: 0 <= i < |order| ==>
               order[i] < |ws| && order[i] < |ws'| && Consumed(ws'[order[i]]) == Consumed(ws[order[i]])
    ensures Written(ws', order) == Written(ws, order)
  {
    if order != [] { WrittenSame(ws, ws', order[..|order| - 1]); }
  }

  lemma {:induction false} ReadSame(rs: seq<Reader>, rs': seq<Reader>, order: seq<nat>)
    requires forall i :: 0 <= i < |order| ==>
               order[i] < |rs| && order[i] < |rs'| && rs'[order[i]].got == rs[order[i]].got
    ensures Read(rs', order) == Read(rs, order)
  {
    if order != [] { ReadSame(rs, rs', order[..|order| - 1]); }
  }

  lemma WrittenLast(ws: seq<Writer>, order: seq<nat>, w: nat)
    ensures Written(ws, order + [w]) == Written(ws, order) + (if w < |ws| then Consumed(ws[w]) else [])
  {
    assert (order + [w])[..|order|] == order;
  }

  lemma ReadLast(rs: seq<Reader>, order: seq<nat>, r: nat)
    ensures Read(rs, order + [r]) == Read(rs, order) + (if r < |rs| then rs[r].got else [])
  {
    assert (order + [r])[..|order|] == order;
  }

  lemma WriteKeepsLock(s: Pipe, w: nat, s': Pipe)
    requires LockInv(s.writers, s.holder, s.writeOrder) && w < |s.writers| && WriteStep(s, w, s')
    ensures LockInv(s'.writers, s'.holder, s'.writeOrder)
  {}

  lemma WriteKeepsQueue(s: Pipe, w: nat, s': Pipe)
    requires QueueInv(s.writers, s.writeOrder) && w < |s.writers| && WriteStep(s, w, s')
    ensures QueueInv(s'.writers, s'.writeOrder)
  {}

  lemma WriteKeepsHands(s: Pipe, w: nat, s': Pipe)
    requires LockInv(s.writers, s.holder, s.writeOrder) && HandInv(s.writers, s.readers, s.holder, s.readOrder)
    requires w < |s.writers| && WriteStep(s, w, s')
    ensures HandInv(s'.writers, s'.readers, s'.holder, s'.readOrder)
  {}

  lemma WriteKeeps(s: Pipe, w: nat, s': Pipe)
    requires StateInv(s) && w < |s.writers| && WriteStep(s, w, s')
    ensures StateInv(s')
  {
    hide LineInv, ReadInv, CloseInv, LockInv, QueueInv, HandInv;
    WriteKeepsLock(s, w, s');
    WriteKeepsQueue(s, w, s');
    WriteKeepsHands(s, w, s');
  }

  lemma ReadKeepsHands(s: Pipe, r: nat, s': Pipe)
    requires HandInv(s.writers, s.readers, s.holder, s.readOrder) && r < |s.readers| && ReadStep(s, r, s')
    ensures HandInv(s'.writers, s'.readers, s'.holder, s'.readOrder)
  {}

  lemma ReadKeepsLine(s: Pipe, r: nat, s': Pipe)
    requires LineInv(s.readers, s.readOrder) && r < |s.readers| && ReadStep(s, r, s')
    ensures LineInv(s'.readers, s'.readOrder)
  {}

  lemma ReadKeepsReads(s: Pipe, r: nat, s': Pipe)
    requires ReadInv(s.readers, s.done) && r < |s.readers| && ReadStep(s, r, s')
    ensures ReadInv(s'.readers, s'.done)
  {}

  lemma ReadKeeps(s: Pipe, r: nat, s': Pipe)
    requires StateInv(s) && r < |s.readers| && ReadStep(s, r, s')
    ensures StateInv(s')
  {
    hide LockInv, QueueInv, WriteInv, CloseInv, HandInv, LineInv, ReadInv;
    ReadKeepsHands(s, r, s');
    ReadKeepsLine(s, r, s');
    ReadKeepsReads(s, r, s');
  }

  lemma HandOffKeeps(s: Pipe, w: nat, r: nat, s': Pipe)
    requires StateInv(s) && w < |s.writers| && r < |s.readers| && HandOff(s, w, r, s')
    ensures StateInv(s')
  {
    hide CloseInv;
  }

  lemma AcknowledgeKeeps(s: Pipe, w: nat, r: nat, s': Pipe)
    requires StateInv(s) && w < |s.writers| && r < |s.readers| && Acknowledge(s, w, r, s')
    ensures StateInv(s')
  {
    hide CloseInv;
  }

  lemma CloseKeeps(s: Pipe, c: nat, s': Pipe)
    requires StateInv(s) && c < |s.closers| && CloseStep(s, c, s')
    ensures StateInv(s')
  {
    hide LockInv, QueueInv, HandInv, LineInv;
  }

  lemma NewWriterWaits(ws: seq<Writer>, data: seq<byte>, holder: Option<nat>, queue: seq<nat>)
    requires LockInv(ws, holder, queue) && QueueInv(ws, queue)
    ensures var ws' := ws + [Writer(data, 0, true, WStart)];
            LockInv(ws', holder, queue) && QueueInv(ws', queue)
  {}

  lemma NewWriterApart(ws: seq<Writer>, data: seq<byte>, rs: seq<Reader>, holder: Option<nat>, line: seq<nat>)
    requires HandInv(ws, rs, holder, line) && (holder.Some? ==> holder.value < |ws|)
    ensures HandInv(ws + [Writer(data, 0, true, WStart)], rs, holder, line)
  {}

  lemma WriterCallKeeps(s: Pipe, s': Pipe)
    requires StateInv(s) && Call(s, s') && s'.writers != s.writers
    ensures StateInv(s')
  {
    hide LineInv, ReadInv, CloseInv, LockInv, QueueInv, HandInv;
    var data: seq<byte> :| s' == s.(writers := s.writers + [Writer(data, 0, true, WStart)]);
    NewWriterWaits(s.writers, data, s.holder, s.writeOrder);
    NewWriterApart(s.writers, data, s.readers, s.holder, s.readOrder);
  }

  lemma OtherCallKeeps(s: Pipe, s': Pipe)
    requires StateInv(s) && Call(s, s') && s'.writers == s.writers
    ensures StateInv(s')
  {
    hide LockInv, QueueInv, WriteInv;
  }

  lemma CallKeeps(s: Pipe, s': Pipe)
    requires StateInv(s) && Call(s, s')
    ensures StateInv(s')
  {
    hide StateInv, Call;
    if s'.writers != s.writers { WriterCallKeeps(s, s'); } else { OtherCallKeeps(s, s'); }
  }

  // ----- conservation -----

  lemma WriteWaits(s: Pipe, w: nat, s': Pipe)
    requires LockInv(s.writers, s.holder, s.writeOrder) && w < |s.writers| && WriteStep(s, w, s')
    ensures Waiting(s'.writers, s'.holder) == Waiting(s.writers, s.holder)
  {}

  lemma WriteConserves(s: Pipe, w: nat, s': Pipe)
    requires Inv(s) && w < |s.writers| && WriteStep(s, w, s')
    ensures Written(s'.writers, s'.writeOrder) == Written(s.writers, s.writeOrder)
    ensures Waiting(s'.writers, s'.holder) == Waiting(s.writers, s.holder)
    ensures s'.readers == s.readers && s'.readOrder == s.readOrder
  {
    hide HandInv, LineInv, ReadInv, CloseInv, Conserved, LockInv, Waiting;
    WriteWaits(s, w, s');
    assert Consumed(s'.writers[w]) == Consumed(s.writers[w]);
    if s.writers[w].pc == WLock {
      assert Consumed(s.writers[w]) == [];
      WrittenLast(s'.writers, s.writeOrder, w);
    }
    WrittenSame(s.writers, s'.writers, s.writeOrder);
  }

  lemma HandOffReads(s: Pipe, w: nat, r: nat, s': Pipe)
    requires LineInv(s.readers, s.readOrder) && w < |s.writers| && r < |s.readers| && HandOff(s, w, r, s')
    ensures Read(s'.readers, s'.readOrder) == Read(s.readers, s.readOrder) + LastGot(s'.readers, s'.readOrder)
  {
    ReadLast(s'.readers, s.readOrder, r);
    ReadSame(s.readers, s'.readers, s.readOrder);
  }

  lemma HandOffConserves(s: Pipe, w: nat, r: nat, s': Pipe)
    requires Inv(s) && w < |s.writers| && r < |s.readers| && HandOff(s, w, r, s')
    ensures Conserved(s'.writers, s'.readers, s'.holder, s'.writeOrder, s'.readOrder)
  {
    hide ReadInv, CloseInv, LineInv, HandInv, Read;
    HandOffReads(s, w, r, s');
    assert s.holder == Some(w);
    WrittenSame(s.writers, s'.writers, s.writeOrder);
  }

  /** More from the last writer in the order comes last. */
  lemma LastDelivers(ws: seq<Writer>, ws': seq<Writer>, order: seq<nat>, w: nat, got: seq<byte>)
    requires QueueInv(ws, order) && |order| > 0 && order[|order| - 1] == w && |ws'| == |ws|
    requires forall v :: 0 <= v < |ws| && v != w ==> ws'[v] == ws[v]
    requires Consumed(ws'[w]) == Consumed(ws[w]) + got
    ensures Written(ws', order) == Written(ws, order) + got
  {
    hide Consumed;
    WrittenSame(ws, ws', order[..|order| - 1]);
  }

  lemma AcknowledgeWrites(s: Pipe, w: nat, r: nat, s': Pipe)
    requires QueueInv(s.writers, s.writeOrder) && w < |s.writers| && r < |s.readers| && Acknowledge(s, w, r, s')
    requires |s.writeOrder| > 0 && s.writeOrder[|s.writeOrder| - 1] == w
    requires var x, y := s.writers[w], s.readers[r];
             x.n + |y.got| <= |x.data| && y.got == x.data[x.n..x.n + |y.got|]
    ensures Written(s'.writers, s'.writeOrder) == Written(s.writers, s.writeOrder) + s.readers[r].got
  {
    hide Written;
    var x, y := s.writers[w], s.readers[r];
    assert Consumed(s'.writers[w]) == Consumed(x) + y.got by {
      assert x.data[..x.n + |y.got|] == x.data[..x.n] + y.got;
    }
    LastDelivers(s.writers, s'.writers, s.writeOrder, w, y.got);
  }

  lemma AcknowledgeConserves(s: Pipe, w: nat, r: nat, s': Pipe)
    requires Inv(s) && w < |s.writers| && r < |s.readers| && Acknowledge(s, w, r, s')
    ensures Conserved(s'.writers, s'.readers, s'.holder, s'.writeOrder, s'.readOrder)
  {
    hide ReadInv, CloseInv, Written;
    assert Outstanding(s.writers, s.readers, s.holder, s.readOrder, r);
    AcknowledgeWrites(s, w, r, s');
    ReadSame(s.readers, s'.readers, s.readOrder);
  }

  lemma NextKeepsInv(s: Pipe, s': Pipe)
    requires Inv(s) && Next(s, s')
    ensures Inv(s')
  {
    hide StateInv, Call, WriteStep, ReadStep, HandOff, Acknowledge, CloseStep;
    if Call(s, s') {
      CallKeeps(s, s');
      CallConserves(s, s');
    } else if w: nat :| w < |s.writers| && WriteStep(s, w, s') {
      WriteKeeps(s, w, s');
      WriteConserves(s, w, s');
    } else if r: nat :| r < |s.readers| && ReadStep(s, r, s') {
      ReadKeeps(s, r, s');
      ReadConserves(s, r, s');
    } else if w: nat, r: nat :| w < |s.writers| && r < |s.readers| && HandOff(s, w, r, s') {
      HandOffKeeps(s, w, r, s');
      HandOffConserves(s, w, r, s');
    } else if w: nat, r: nat :| w < |s.writers| && r < |s.readers| && Acknowledge(s, w, r, s') {
      AcknowledgeKeeps(s, w, r, s');
      AcknowledgeConserves(s, w, r, s');
    } else {
      var c: nat :| c < |s.closers| && CloseStep(s, c, s');
      CloseKeeps(s, c, s');
      CloseConserves(s, c, s');
    }
  }

  lemma CallConserves(s: Pipe, s': Pipe)
    requires Inv(s) && Call(s, s')
    ensures Conserved(s'.writers, s'.readers, s'.holder, s'.writeOrder, s'.readOrder)
  {
    hide HandInv, ReadInv, CloseInv, WriteInv;
    WrittenSame(s.writers, s'.writers, s.writeOrder);
    ReadSame(s.readers, s'.readers, s.readOrder);
  }

  lemma ReadStepFrame(s: Pipe, r: nat, s': Pipe)
    requires r < |s.readers| && ReadStep(s, r, s')
    ensures s'.writers == s.writers && s'.holder == s.holder
    ensures s'.writeOrder == s.writeOrder && s'.readOrder == s.readOrder
    ensures |s'.readers| == |s.readers|
    ensures forall i :: 0 <= i < |s.readers| ==> s'.readers[i].got == s.readers[i].got
  {}

  lemma ReadConserves(s: Pipe, r: nat, s': Pipe)
    requires Inv(s) && r < |s.readers| && ReadStep(s, r, s')
    ensures Conserved(s'.writers, s'.readers, s'.holder, s'.writeOrder, s'.readOrder)
  {
    hide ReadStep, HandInv, ReadInv, CloseInv, WriteInv, LockInv, QueueInv;
    ReadStepFrame(s, r, s');
    ReadSame(s.readers, s'.readers, s.readOrder);
  }

  lemma CloseConserves(s: Pipe, c: nat, s': Pipe)
    requires Inv(s) && c < |s.closers| && CloseStep(s, c, s')
    ensures Conserved(s'.writers, s'.readers, s'.holder, s'.writeOrder, s'.readOrder)
  {
    hide HandInv, ReadInv, CloseInv, WriteInv, LockInv, QueueInv, LineInv;
  }

  lemma {:induction false} RunInv(run: seq<Pipe>, k: nat)
    requires IsRun(run) && k < |run|
    ensures Inv(run[k])
  {
    if k > 0 {
      RunInv(run, k - 1);
      hide Inv, Next;
      NextKeepsInv(run[k - 1], run[k]);
    }
  }

  /** In every run, the bytes handed to the reads are the bytes consumed from
      the writes in the order of the lock, and those of at most one hand-off that
      is still to be acknowledged. */
  lemma BytesConserved(run: seq<Pipe>, k: nat)
    requires IsRun(run) && k < |run|
    ensures var s := run[k];
            && (Waiting(s.writers, s.holder) ==>
                  Read(s.readers, s.readOrder) == Written(s.writers, s.writeOrder) + LastGot(s.readers, s.readOrder))
            && (!Waiting(s.writers, s.holder) ==>
                  Read(s.readers, s.readOrder) == Written(s.writers, s.writeOrder))
  {
    RunInv(run, k);
  }

  /** In every run, the count a reader is about to send belongs to the one
      writer that waits for it, so the hand-off can be completed, and it is the
      number of that writer's next bytes the reader has. */
  lemma CountReachesItsWriter(run: seq<Pipe>, k: nat, r: nat) returns (w: nat, s': Pipe)
    requires IsRun(run) && k < |run| && r < |run[k].readers| && run[k].readers[r].pc == RSend
    ensures w < |run[k].writers| && Acknowledge(run[k], w, r, s') && Next(run[k], s')
    ensures forall v :: 0 <= v < |run[k].writers| && run[k].writers[v].pc == WAwait ==> v == w
    ensures forall q :: 0 <= q < |run[k].readers| && run[k].readers[q].pc == RSend ==> q == r
    ensures var x, y := run[k].writers[w], run[k].readers[r];
            x.n + |y.got| <= |x.data| && y.got == x.data[x.n..x.n + |y.got|]
  {
    RunInv(run, k);
    var s := run[k];
    assert Outstanding(s.writers, s.readers, s.holder, s.readOrder, r);
    w := s.holder.value;
    var x, y := s.writers[w], s.readers[r];
    s' := SetR(SetW(s, w, x.(pc := WSelect, first := false, n := x.n + |y.got|)), r, y.(pc := RDone(None)));
    assert Acknowledge(s, w, r, s');
  }

  /** In every run, a Write that returns without error has delivered all of its
      bytes; one that returns an error returns it after a close, with the count
      of what it delivered. */
  lemma WriteReturns(run: seq<Pipe>, k: nat, w: nat)
    requires IsRun(run) && k < |run| && w < |run[k].writers| && run[k].writers[w].pc.WDone?
    ensures var x := run[k].writers[w];
            && x.n <= |x.data| && (x.pc.err == None ==> x.n == |x.data|)
            && (x.pc.err.Some? ==> run[k].done && (run[k].rerr.Some? || run[k].werr.Some?))
  {
    RunInv(run, k);
    assert WriteValid(run[k].writers[w], run[k].done);
  }

  /** In every run, a Read returns at most as many bytes as it has room for;
      bytes or an error, never both; and an error only after a close that stored
      one. */
  lemma ReadReturns(run: seq<Pipe>, k: nat, r: nat)
    requires IsRun(run) && k < |run| && r < |run[k].readers| && run[k].readers[r].pc.RDone?
    ensures var y := run[k].readers[r];
            && |y.got| <= y.room
            && (y.pc.err.Some? ==> y.got == [] && run[k].done && (run[k].rerr.Some? || run[k].werr.Some?))
  {
    RunInv(run, k);
    assert ReadValid(run[k].readers[r], run[k].done);
  }

  /** Only a close changes the stored errors and done, and it only adds. */
  lemma NextKeepsErrors(s: Pipe, s': Pipe)
    requires Next(s, s')
    ensures s.rerr.Some? ==> s'.rerr == s.rerr
    ensures s.werr.Some? ==> s'.werr == s.werr
    ensures s.done ==> s'.done
  {
    hide Call, WriteStep, ReadStep, HandOff, Acknowledge, CloseStep;
    if Call(s, s') {
      CallErrors(s, s');
    } else if w: nat :| w < |s.writers| && WriteStep(s, w, s') {
      WriteErrors(s, w, s');
    } else if r: nat :| r < |s.readers| && ReadStep(s, r, s') {
      ReadErrors(s, r, s');
    } else if w: nat, r: nat :| w < |s.writers| && r < |s.readers| && HandOff(s, w, r, s') {
      HandOffErrors(s, w, r, s');
    } else if w: nat, r: nat :| w < |s.writers| && r < |s.readers| && Acknowledge(s, w, r, s') {
      AcknowledgeErrors(s, w, r, s');
    } else {
      var c: nat :| c < |s.closers| && CloseStep(s, c, s');
      CloseErrors(s, c, s');
    }
  }

  lemma CallErrors(s: Pipe, s': Pipe)
    requires Call(s, s')
    ensures s'.rerr == s.rerr && s'.werr == s.werr && s'.done == s.done
  {}

  lemma WriteErrors(s: Pipe, w: nat, s': Pipe)
    requires w < |s.writers| && WriteStep(s, w, s')
    ensures s'.rerr == s.rerr && s'.werr == s.werr && s'.done == s.done
  {}

  lemma ReadErrors(s: Pipe, r: nat, s': Pipe)
    requires r < |s.readers| && ReadStep(s, r, s')
    ensures s'.rerr == s.rerr && s'.werr == s.werr && s'.done == s.done
  {}

  lemma HandOffErrors(s: Pipe, w: nat, r: nat, s': Pipe)
    requires w < |s.writers| && r < |s.readers| && HandOff(s, w, r, s')
    ensures s'.rerr == s.rerr && s'.werr == s.werr && s'.done == s.done
  {}

  lemma AcknowledgeErrors(s: Pipe, w: nat, r: nat, s': Pipe)
    requires w < |s.writers| && r < |s.readers| && Acknowledge(s, w, r, s')
    ensures s'.rerr == s.rerr && s'.werr == s.werr && s'.done == s.done
  {}

  lemma CloseErrors(s: Pipe, c: nat, s': Pipe)
    requires c < |s.closers| && CloseStep(s, c, s')
    ensures s.rerr.Some? ==> s'.rerr == s.rerr
    ensures s.werr.Some? ==> s'.werr == s.werr
    ensures s.done ==> s'.done
  {}

  /** A stored error is never replaced. */
  lemma {:induction false} ErrorsStick(run: seq<Pipe>, j: nat, k: nat)
    requires IsRun(run) && j <= k < |run|
    ensures run[j].rerr.Some? ==> run[k].rerr == run[j].rerr
    ensures run[j].werr.Some? ==> run[k].werr == run[j].werr
    ensures run[j].done ==> run[k].done
  {
    hide Next;
    if j < k {
      ErrorsStick(run, j, k - 1);
      NextKeepsErrors(run[k - 1], run[k]);
    }
  }

  // ----- after a close -----

  /** How many steps a Write is from its return, once done is closed. */
  function WriteRank(pc: WritePc): nat {
    match pc
    case WStart => 7
    case WLock => 6
    case WAwait => 5
    case WSelect => 4
    case WLoad(_) => 3
    case WLoadOther(_, _) => 2
    case WUnlock(_) => 1
    case WDone(_) => 0
  }

  function ReadRank(pc: ReadPc): nat {
    match pc
    case RStart => 4
    case RSelect => 3
    case RLoad => 2
    case RLoadOther(_) => 1
    case RSend => 1
    case RDone(_) => 0
  }

  /** The acknowledgement of an outstanding hand-off. */
  lemma HandOffCompletes(s: Pipe, r: nat) returns (w: nat, s': Pipe)
    requires Inv(s) && r < |s.readers| && Outstanding(s.writers, s.readers, s.holder, s.readOrder, r)
    ensures s.holder == Some(w) && w < |s.writers| && Next(s, s')
    ensures |s'.writers| == |s.writers| && s'.writers[w].pc == WSelect
    ensures |s'.readers| == |s.readers| && s'.readers[r].pc == RDone(None)
  {
    w := s.holder.value;
    var x, y := s.writers[w], s.readers[r];
    s' := SetR(SetW(s, w, x.(pc := WSelect, first := false, n := x.n + |y.got|)), r, y.(pc := RDone(None)));
    assert Acknowledge(s, w, r, s');
  }

  lemma OwnStep(s: Pipe, w: nat) returns (s': Pipe)
    requires s.done && w < |s.writers| && !s.writers[w].pc.WDone? && s.writers[w].pc != WAwait
    requires s.writers[w].pc == WLock ==> s.holder == None
    ensures WriteStep(s, w, s') && |s'.writers| == |s.writers|
    ensures WriteRank(s'.writers[w].pc) < WriteRank(s.writers[w].pc)
  {
    var x := s.writers[w];
    match x.pc
    case WStart => s' := SetW(s, w, x.(pc := WLoad(false)));
    case WLock => s' := SetW(s, w, x.(pc := WSelect, first := true)).(holder := Some(w), writeOrder := s.writeOrder + [w]);
    case WSelect => s' := SetW(s, w, x.(pc := if x.first || x.n < |x.data| then WLoad(true) else WUnlock(None)));
    case WLoad(locked) => s' := SetW(s, w, x.(pc := WLoadOther(locked, s.werr)));
    case WLoadOther(locked, werr) =>
      var e := Some(CloseError(werr, s.rerr));
      s' := SetW(s, w, x.(pc := if locked then WUnlock(e) else WDone(e)));
    case WUnlock(err) => s' := SetW(s, w, x.(pc := WDone(err))).(holder := None);
  }

  /** In every run, once done is closed, a Write that has not returned can take a
      step towards its return; if it waits for the lock, its holder can. */
  lemma WriteUnblocked(run: seq<Pipe>, k: nat, w: nat) returns (v: nat, s': Pipe)
    requires IsRun(run) && k < |run| && run[k].done && w < |run[k].writers| && !run[k].writers[w].pc.WDone?
    ensures v < |run[k].writers| && (v == w || (run[k].writers[w].pc == WLock && run[k].holder == Some(v)))
    ensures Next(run[k], s') && |s'.writers| == |run[k].writers|
    ensures WriteRank(s'.writers[v].pc) < WriteRank(run[k].writers[v].pc)
  {
    var s := run[k];
    RunInv(run, k);
    hide IsRun;
    v := if s.writers[w].pc == WLock && s.holder.Some? then s.holder.value else w;
    assert v != w ==> Locked(s.writers[v].pc);
    if s.writers[v].pc == WAwait {
      assert Locked(s.writers[v].pc);
      assert Waiting(s.writers, s.holder);
      var w';
      w', s' := HandOffCompletes(s, s.readOrder[|s.readOrder| - 1]);
    } else {
      s' := OwnStep(s, v);
    }
  }

  /** And a Read that has not returned can always take a step towards its
      return, on its own or by completing its hand-off. */
  lemma ReadUnblocked(run: seq<Pipe>, k: nat, r: nat) returns (s': Pipe)
    requires IsRun(run) && k < |run| && run[k].done && r < |run[k].readers| && !run[k].readers[r].pc.RDone?
    ensures Next(run[k], s') && |s'.readers| == |run[k].readers|
    ensures ReadRank(s'.readers[r].pc) < ReadRank(run[k].readers[r].pc)
  {
    var s := run[k];
    RunInv(run, k);
    hide IsRun;
    if s.readers[r].pc == RSend {
      var w;
      w, s' := HandOffCompletes(s, r);
    } else {
      s' := ReadOwnStep(s, r);
    }
  }

  lemma ReadOwnStep(s: Pipe, r: nat) returns (s': Pipe)
    requires s.done && r < |s.readers| && !s.readers[r].pc.RDone? && s.readers[r].pc != RSend
    ensures ReadStep(s, r, s') && |s'.readers| == |s.readers|
    ensures ReadRank(s'.readers[r].pc) < ReadRank(s.readers[r].pc)
  {
    var y := s.readers[r];
    match y.pc
    case RStart => s' := SetR(s, r, y.(pc := RLoad));
    case RSelect => s' := SetR(s, r, y.(pc := RLoad));
    case RLoad => s' := SetR(s, r, y.(pc := RLoadOther(s.rerr)));
    case RLoadOther(rerr) => s' := SetR(s, r, y.(pc := RDone(Some(CloseError(rerr, s.werr)))));
  }

  // ----- how one call moves -----

  /** Writer w meets reader r: r gets the next bytes of w, and either fills its
      room or empties w's slice. */
  ghost predicate Met(s: Pipe, w: nat, r: nat, s': Pipe) {
    && w < |s.writers| && w < |s'.writers| && r < |s.readers| && r < |s'.readers|
    && s.writers[w].pc == WSelect && s'.writers[w] == s.writers[w].(pc := WAwait)
    && s.readers[r].pc == RSelect && s'.readers[r] == s.readers[r].(pc := RSend, got := s'.readers[r].got)
    && var data, n, got := s.writers[w].data, s.writers[w].n, s'.readers[r].got;
       && n + |got| <= |data| && got == data[n..n + |got|]
       && |got| <= s.readers[r].room && (|got| == s.readers[r].room || n + |got| == |data|)
  }

  ghost predicate ReaderMoves(s: Pipe, r: nat, s': Pipe) {
    r < |s'.readers| &&
    if r >= |s.readers| then s'.readers[r].pc == RStart
    else
      var y, y' := s.readers[r], s'.readers[r];
      || y' == y
      || (y.pc == RStart && !s.done && y'.pc == RSelect)
      || ((y.pc == RStart || y.pc == RSelect) && s.done && y'.pc == RLoad)
      || (y.pc == RSelect && exists w: nat :: Met(s, w, r, s'))
      || (y.pc == RSend && y'.pc == RDone(None))
      || (y.pc == RLoad && y'.pc == RLoadOther(s.rerr))
      || (y.pc.RLoadOther? && y'.pc == RDone(Some(CloseError(y.pc.rerr, s.werr))))
  }

  ghost predicate WriterMoves(s: Pipe, w: nat, s': Pipe) {
    w < |s'.writers| &&
    if w >= |s.writers| then s'.writers[w].pc == WStart && s'.writers[w].first
    else
      var x, x' := s.writers[w], s'.writers[w];
      && (x'.first == x.first || (x.pc == WAwait && x'.pc == WSelect) || (x.pc == WLock && x'.pc == WSelect && x'.first))
      && (x.pc == WSelect && x'.pc == WUnlock(None) ==> !x.first)
      &&
      (|| x' == x
      || (x.pc == WStart && x'.pc == if s.done then WLoad(false) else WLock)
      || (x.pc == WLock && x'.pc == WSelect)
      || (x.pc == WSelect && (x'.pc == WAwait || x'.pc == WUnlock(None) || (s.done && x'.pc == WLoad(true))))
      || (x.pc == WAwait && x'.pc == WSelect)
      || (x.pc.WLoad? && x'.pc == WLoadOther(x.pc.locked, s.werr))
      || (x.pc.WLoadOther? && var e := Some(CloseError(x.pc.werr, s.rerr));
                              x'.pc == if x.pc.locked then WUnlock(e) else WDone(e))
      || (x.pc.WUnlock? && x'.pc == WDone(x.pc.err)))
  }

  lemma WriterFirst(s: Pipe, w: nat, s': Pipe)
    requires WriterMoves(s, w, s') && Acknowledged(s'.writers[w]) && s'.writers[w].pc != WAwait
    ensures w < |s.writers| && Acknowledged(s.writers[w])
  {}

  ghost predicate AllMove(s: Pipe, s': Pipe) {
    && |s.readers| <= |s'.readers| && |s.writers| <= |s'.writers|
    && (forall r: nat :: r < |s'.readers| ==> ReaderMoves(s, r, s'))
    && (forall w: nat :: w < |s'.writers| ==> WriterMoves(s, w, s'))
  }

  lemma NextMoves(s: Pipe, s': Pipe)
    requires Next(s, s')
    ensures AllMove(s, s')
  {
    hide Call, WriteStep, ReadStep, HandOff, Acknowledge, CloseStep, ReaderMoves, WriterMoves;
    if Call(s, s') {
      CallMoves(s, s');
    } else if w: nat :| w < |s.writers| && WriteStep(s, w, s') {
      WriteMoves(s, w, s');
    } else if r: nat :| r < |s.readers| && ReadStep(s, r, s') {
      ReadMoves(s, r, s');
    } else if w: nat, r: nat :| w < |s.writers| && r < |s.readers| && HandOff(s, w, r, s') {
      HandOffMoves(s, w, r, s');
    } else if w: nat, r: nat :| w < |s.writers| && r < |s.readers| && Acknowledge(s, w, r, s') {
      AcknowledgeMoves(s, w, r, s');
    } else {
      var c: nat :| c < |s.closers| && CloseStep(s, c, s');
      CloseMoves(s, c, s');
    }
  }

  lemma CallMoves(s: Pipe, s': Pipe)
    requires Call(s, s')
    ensures AllMove(s, s')
  {}

  lemma WriteMoves(s: Pipe, w: nat, s': Pipe)
    requires w < |s.writers| && WriteStep(s, w, s')
    ensures AllMove(s, s')
  {}

  lemma ReadMoves(s: Pipe, r: nat, s': Pipe)
    requires r < |s.readers| && ReadStep(s, r, s')
    ensures AllMove(s, s')
  {}

  lemma HandOffMoves(s: Pipe, w: nat, r: nat, s': Pipe)
    requires w < |s.writers| && r < |s.readers| && HandOff(s, w, r, s')
    ensures AllMove(s, s')
  {
    assert Met(s, w, r, s');
  }

  lemma AcknowledgeMoves(s: Pipe, w: nat, r: nat, s': Pipe)
    requires w < |s.writers| && r < |s.readers| && Acknowledge(s, w, r, s')
    ensures AllMove(s, s')
  {}

  lemma CloseMoves(s: Pipe, c: nat, s': Pipe)
    requires c < |s.closers| && CloseStep(s, c, s')
    ensures AllMove(s, s')
  {}

  /** Whenever a Read is handed bytes, it meets one Write, and gets as many of
      its next bytes as fit: it fills its room, or that Write has no more. */
  lemma ReadFills(run: seq<Pipe>, k: nat, r: nat) returns (w: nat)
    requires IsRun(run) && k + 1 < |run| && r < |run[k].readers|
    requires run[k].readers[r].pc != RSend && r < |run[k + 1].readers| && run[k + 1].readers[r].pc == RSend
    ensures w < |run[k].writers| && w < |run[k + 1].writers| && run[k].readers[r].pc == RSelect
    ensures run[k].writers[w].pc == WSelect && run[k + 1].writers[w].pc == WAwait
    ensures var data, n, y := run[k].writers[w].data, run[k].writers[w].n, run[k + 1].readers[r];
            && n + |y.got| <= |data| && y.got == data[n..n + |y.got|] && y.room == run[k].readers[r].room
            && |y.got| <= y.room && (|y.got| == y.room || n + |y.got| == |data|)
  {
    hide Next;
    assert Next(run[k], run[k + 1]);
    NextMoves(run[k], run[k + 1]);
    assert ReaderMoves(run[k], r, run[k + 1]);
    w :| Met(run[k], w, r, run[k + 1]);
  }

  // ----- which error -----

  /** Of two stored errors, one side's and the other's, a call of the one side
      returns ErrClosedPipe if its own was stored first, and the other's error
      if its own was not. */
  predicate ErrorFrom(e: Error, own: Option<Error>, other: Option<Error>) {
    (e == ErrClosedPipe && own.Some?) || other == Some(e)
  }

  predicate ReadErr(y: Reader, rerr: Option<Error>, werr: Option<Error>) {
    && (y.pc.RLoadOther? ==> if y.pc.rerr.Some? then rerr == y.pc.rerr else werr.Some?)
    && (y.pc.RDone? && y.pc.err.Some? ==> ErrorFrom(y.pc.err.value, rerr, werr))
  }

  predicate WriteErr(x: Writer, rerr: Option<Error>, werr: Option<Error>) {
    && (x.pc.WLoadOther? ==> if x.pc.werr.Some? then werr == x.pc.werr else rerr.Some?)
    && ((x.pc.WDone? || x.pc.WUnlock?) && x.pc.err.Some? ==> ErrorFrom(x.pc.err.value, werr, rerr))
  }

  ghost predicate ErrInv(s: Pipe) {
    && (forall r: nat :: r < |s.readers| ==> ReadErr(s.readers[r], s.rerr, s.werr))
    && (forall w: nat :: w < |s.writers| ==> WriteErr(s.writers[w], s.rerr, s.werr))
  }

  lemma NextKeepsErr(s: Pipe, s': Pipe)
    requires Inv(s) && ErrInv(s) && Next(s, s')
    ensures ErrInv(s')
  {
    hide Next, LockInv, QueueInv, HandInv, LineInv, Conserved;
    NextKeepsErrors(s, s');
    NextMoves(s, s');
    forall r: nat | r < |s'.readers|
      ensures ReadErr(s'.readers[r], s'.rerr, s'.werr)
    {
      assert ReaderMoves(s, r, s');
      if r < |s.readers| { assert ReadErr(s.readers[r], s.rerr, s.werr) && ReadValid(s.readers[r], s.done); }
    }
    forall w: nat | w < |s'.writers|
      ensures WriteErr(s'.writers[w], s'.rerr, s'.werr)
    {
      assert WriterMoves(s, w, s');
      if w < |s.writers| { assert WriteErr(s.writers[w], s.rerr, s.werr) && WriteValid(s.writers[w], s.done); }
    }
  }

  lemma {:induction false} RunErr(run: seq<Pipe>, k: nat)
    requires IsRun(run) && k < |run|
    ensures ErrInv(run[k])
  {
    if k > 0 {
      RunErr(run, k - 1);
      RunInv(run, k - 1);
      hide Inv, Next, ErrInv;
      NextKeepsErr(run[k - 1], run[k]);
    }
  }

  /** A call begun after done was closed returns an error. */
  lemma {:induction false} ReadAfterClose(run: seq<Pipe>, i: nat, k: nat, r: nat)
    requires IsRun(run) && i <= k < |run| && run[i].done && (r < |run[i].readers| ==> run[i].readers[r].pc == RStart)
    requires r < |run[k].readers|
    ensures var y := run[k].readers[r];
            y.pc == RStart || y.pc == RLoad || y.pc.RLoadOther? || (y.pc.RDone? && y.pc.err.Some?)
    decreases k - i
  {
    hide Next;
    if i < k {
      ErrorsStick(run, i, k - 1);
      NextMoves(run[k - 1], run[k]);
      assert ReaderMoves(run[k - 1], r, run[k]);
      if r < |run[k - 1].readers| { ReadAfterClose(run, i, k - 1, r); }
    }
  }

  lemma {:induction false} WriteAfterClose(run: seq<Pipe>, i: nat, k: nat, w: nat)
    requires IsRun(run) && i <= k < |run| && run[i].done && (w < |run[i].writers| ==> run[i].writers[w].pc == WStart)
    requires w < |run[k].writers|
    ensures var x := run[k].writers[w];
            || x.pc == WStart || x.pc == WLoad(false) || (x.pc.WLoadOther? && !x.pc.locked)
            || (x.pc.WDone? && x.pc.err.Some?)
    decreases k - i
  {
    hide Next;
    if i < k {
      ErrorsStick(run, i, k - 1);
      NextMoves(run[k - 1], run[k]);
      assert WriterMoves(run[k - 1], w, run[k]);
      if w < |run[k - 1].writers| { WriteAfterClose(run, i, k - 1, w); }
    }
  }

  /** Has a Read not loaded the error of its own side by state s, and has one not
      begun, if it has none there? */
  predicate ReadUnloaded(s: Pipe, r: nat) {
    r < |s.readers| ==> !s.readers[r].pc.RLoadOther? && !s.readers[r].pc.RDone?
  }

  predicate WriteUnloaded(s: Pipe, w: nat) {
    w < |s.writers| ==> var pc := s.writers[w].pc; !pc.WLoadOther? && !pc.WUnlock? && !pc.WDone?
  }

  lemma {:induction false} ReadsOwn(run: seq<Pipe>, i: nat, k: nat, r: nat)
    requires IsRun(run) && i <= k < |run| && run[i].rerr.Some? && ReadUnloaded(run[i], r)
    ensures r < |run[k].readers| ==> var pc := run[k].readers[r].pc;
              && (pc.RLoadOther? ==> pc.rerr.Some?) && (pc.RDone? && pc.err.Some? ==> pc.err.value == ErrClosedPipe)
    decreases k - i
  {
    hide Next;
    if i < k {
      ReadsOwn(run, i, k - 1, r);
      ErrorsStick(run, i, k - 1);
      NextMoves(run[k - 1], run[k]);
      assert r < |run[k].readers| ==> ReaderMoves(run[k - 1], r, run[k]);
    }
  }

  lemma {:induction false} WritesOwn(run: seq<Pipe>, i: nat, k: nat, w: nat)
    requires IsRun(run) && i <= k < |run| && run[i].werr.Some? && WriteUnloaded(run[i], w)
    ensures w < |run[k].writers| ==> var pc := run[k].writers[w].pc;
              && (pc.WLoadOther? ==> pc.werr.Some?)
              && ((pc.WDone? || pc.WUnlock?) && pc.err.Some? ==> pc.err.value == ErrClosedPipe)
    decreases k - i
  {
    hide Next;
    if i < k {
      WritesOwn(run, i, k - 1, w);
      ErrorsStick(run, i, k - 1);
      NextMoves(run[k - 1], run[k]);
      assert w < |run[k].writers| ==> WriterMoves(run[k - 1], w, run[k]);
    }
  }

  /** The error of a Read, in every run.  It is the writer's error if the reader's
      side is not closed by the return, and ErrClosedPipe if it was before the
      Read looked; and always one of the two. */
  lemma ReadErrorIs(run: seq<Pipe>, i: nat, k: nat, r: nat, e: Error)
    requires IsRun(run) && i <= k < |run| && r < |run[k].readers| && run[k].readers[r].pc == RDone(Some(e))
    ensures run[k].rerr == None ==> run[k].werr == Some(e)
    ensures run[i].rerr.Some? && ReadUnloaded(run[i], r) ==> e == ErrClosedPipe
    ensures e == ErrClosedPipe || run[k].werr == Some(e)
  {
    hide Next, IsRun;
    RunErr(run, k);
    assert ReadErr(run[k].readers[r], run[k].rerr, run[k].werr);
    if run[i].rerr.Some? && ReadUnloaded(run[i], r) { ReadsOwn(run, i, k, r); }
  }

  /** The error of a Write: the same with the sides exchanged. */
  lemma WriteErrorIs(run: seq<Pipe>, i: nat, k: nat, w: nat, e: Error)
    requires IsRun(run) && i <= k < |run| && w < |run[k].writers| && run[k].writers[w].pc == WDone(Some(e))
    ensures run[k].werr == None ==> run[k].rerr == Some(e)
    ensures run[i].werr.Some? && WriteUnloaded(run[i], w) ==> e == ErrClosedPipe
    ensures e == ErrClosedPipe || run[k].rerr == Some(e)
  {
    hide Next, IsRun;
    RunErr(run, k);
    assert WriteErr(run[k].writers[w], run[k].rerr, run[k].werr);
    if run[i].werr.Some? && WriteUnloaded(run[i], w) { WritesOwn(run, i, k, w); }
  }

  // ----- what a close does -----

  /** A closer past its store has stored an error on its side, and one that has
      returned has closed done; and a stored error is one a closer came with, or
      stands for none. */
  predicate CloserInv(z: Closer, done: bool, rerr: Option<Error>, werr: Option<Error>) {
    && (z.pc != Store ==> if z.write then werr.Some? else rerr.Some?)
    && (z.pc == Closed ==> done)
  }

  predicate Brought(z: Closer, write: bool, e: Error) {
    z.pc != Store && z.write == write && if z.err.Some? then z.err.value == e else e == if write then EOF else ErrClosedPipe
  }

  ghost predicate ClosersInv(s: Pipe) {
    && (forall c: nat :: c < |s.closers| ==> CloserInv(s.closers[c], s.done, s.rerr, s.werr))
    && (s.rerr.Some? ==> exists c: nat :: c < |s.closers| && Brought(s.closers[c], false, s.rerr.value))
    && (s.werr.Some? ==> exists c: nat :: c < |s.closers| && Brought(s.closers[c], true, s.werr.value))
  }

  lemma NextKeepsClosers(s: Pipe, s': Pipe)
    requires ClosersInv(s) && Next(s, s')
    ensures ClosersInv(s')
  {
    hide Call, WriteStep, ReadStep, HandOff, Acknowledge, CloseStep, ClosersInv;
    if Call(s, s') {
      CallKeepsClosers(s, s');
    } else if c: nat :| c < |s.closers| && CloseStep(s, c, s') {
      CloseKeepsClosers(s, c, s');
    } else {
      OtherCloseSame(s, s');
      SameClosers(s, s');
    }
  }

  lemma OtherCloseSame(s: Pipe, s': Pipe)
    requires Next(s, s') && !Call(s, s') && !exists c: nat :: c < |s.closers| && CloseStep(s, c, s')
    ensures s'.closers == s.closers && s'.done == s.done && s'.rerr == s.rerr && s'.werr == s.werr
  {
    hide Call, CloseStep;
    if w: nat :| w < |s.writers| && WriteStep(s, w, s') {
    } else if r: nat :| r < |s.readers| && ReadStep(s, r, s') {
    }
  }

  lemma SameClosers(s: Pipe, s': Pipe)
    requires ClosersInv(s)
    requires s'.closers == s.closers && s'.done == s.done && s'.rerr == s.rerr && s'.werr == s.werr
    ensures ClosersInv(s')
  {}

  lemma CallKeepsClosers(s: Pipe, s': Pipe)
    requires ClosersInv(s) && Call(s, s')
    ensures ClosersInv(s')
  {
    assert |s.closers| <= |s'.closers| && forall c: nat :: c < |s.closers| ==> s'.closers[c] == s.closers[c];
    if s.rerr.Some? {
      var c: nat :| c < |s.closers| && Brought(s.closers[c], false, s.rerr.value);
      assert Brought(s'.closers[c], false, s.rerr.value);
    }
    if s.werr.Some? {
      var c: nat :| c < |s.closers| && Brought(s.closers[c], true, s.werr.value);
      assert Brought(s'.closers[c], true, s.werr.value);
    }
  }

  lemma CloseKeepsClosers(s: Pipe, c: nat, s': Pipe)
    requires ClosersInv(s) && c < |s.closers| && CloseStep(s, c, s')
    ensures ClosersInv(s')
  {
    assert CloserInv(s.closers[c], s.done, s.rerr, s.werr);
    if s.rerr.Some? {
      var d: nat :| d < |s.closers| && Brought(s.closers[d], false, s.rerr.value);
      assert Brought(s'.closers[d], false, s.rerr.value);
    } else if s'.rerr.Some? {
      assert Brought(s'.closers[c], false, s'.rerr.value);
    }
    if s.werr.Some? {
      var d: nat :| d < |s.closers| && Brought(s.closers[d], true, s.werr.value);
      assert Brought(s'.closers[d], true, s.werr.value);
    } else if s'.werr.Some? {
      assert Brought(s'.closers[c], true, s'.werr.value);
    }
  }

  lemma {:induction false} RunClosers(run: seq<Pipe>, k: nat)
    requires IsRun(run) && k < |run|
    ensures ClosersInv(run[k])
  {
    if k > 0 {
      RunClosers(run, k - 1);
      hide Next, ClosersInv;
      NextKeepsClosers(run[k - 1], run[k]);
    }
  }

  /** In every run, a close that has returned has stored an error on its side and
      has closed the pipe. */
  lemma CloseReturns(run: seq<Pipe>, k: nat, c: nat)
    requires IsRun(run) && k < |run| && c < |run[k].closers| && run[k].closers[c].pc == Closed
    ensures run[k].done && if run[k].closers[c].write then run[k].werr.Some? else run[k].rerr.Some?
  {
    RunClosers(run, k);
    assert CloserInv(run[k].closers[c], run[k].done, run[k].rerr, run[k].werr);
  }

  /** A stored error is that of a close of that side; a close without one stands
      for EOF on the writer's side, and for ErrClosedPipe on the reader's. */
  lemma ErrorIsFromAClose(run: seq<Pipe>, k: nat, write: bool) returns (c: nat)
    requires IsRun(run) && k < |run| && if write then run[k].werr.Some? else run[k].rerr.Some?
    ensures c < |run[k].closers| && run[k].closers[c].write == write && run[k].closers[c].pc != Store
    ensures var e, z := if write then run[k].werr.value else run[k].rerr.value, run[k].closers[c];
            z.err == Some(e) || (z.err == None && e == if write then EOF else ErrClosedPipe)
  {
    RunClosers(run, k);
    c :| c < |run[k].closers| &&
         Brought(run[k].closers[c], write, if write then run[k].werr.value else run[k].rerr.value);
  }

  /** A Write that returns without error has met a Read, even if it had nothing
      to write. */
  lemma {:induction false} WriteMeetsARead(run: seq<Pipe>, k: nat, w: nat) returns (j: nat)
    requires IsRun(run) && k < |run| && w < |run[k].writers| && Acknowledged(run[k].writers[w])
    ensures j <= k && w < |run[j].writers| && run[j].writers[w].pc == WAwait
  {
    hide Next, IsRun;
    var x := run[k].writers[w];
    if x.pc == WAwait { return k; }
    NotAtFirst(run, k, w);
    StepOfRun(run, k);
    NextMoves(run[k - 1], run[k]);
    assert WriterMoves(run[k - 1], w, run[k]);
    WriterFirst(run[k - 1], w, run[k]);
    j := WriteMeetsARead(run, k - 1, w);
  }

  predicate Acknowledged(x: Writer) { x.pc == WAwait || x.pc == WUnlock(None) || x.pc == WDone(None) || !x.first }

  lemma NotAtFirst(run: seq<Pipe>, k: nat, w: nat)
    requires IsRun(run) && k < |run| && w < |run[k].writers|
    ensures k > 0
  {}

  lemma StepOfRun(run: seq<Pipe>, k: nat)
    requires IsRun(run) && 0 < k < |run|
    ensures Next(run[k - 1], run[k])
  {}

  // ----- no deadlock -----

  /** While a Write and a Read are under way, one of the calls on the pipe can
      take a step, without a close. */
  lemma NoDeadlock(run: seq<Pipe>, k: nat, w: nat, r: nat) returns (s': Pipe)
    requires IsRun(run) && k < |run| && w < |run[k].writers| && r < |run[k].readers|
    requires !run[k].writers[w].pc.WDone? && !run[k].readers[r].pc.RDone?
    ensures Next(run[k], s') && (s'.writers != run[k].writers || s'.readers != run[k].readers)
    ensures s'.closers == run[k].closers && |s'.writers| == |run[k].writers| && |s'.readers| == |run[k].readers|
  {
    var s := run[k];
    RunInv(run, k);
    hide IsRun;
    var v := if s.writers[w].pc == WLock && s.holder.Some? then s.holder.value else w;
    assert Locked(s.writers[v].pc) || v == w;
    if s.writers[v].pc == WAwait {
      s' := LastCompletes(s, v);
    } else if s.writers[v].pc == WSelect && (s.writers[v].first || s.writers[v].n < |s.writers[v].data|) {
      s' := ReaderSteps(s, v, r);
    } else {
      s' := WriterSteps(s, v);
    }
  }

  lemma LastCompletes(s: Pipe, v: nat) returns (s': Pipe)
    requires Inv(s) && v < |s.writers| && s.writers[v].pc == WAwait
    ensures Next(s, s') && s'.writers != s.writers
    ensures s'.closers == s.closers && |s'.writers| == |s.writers| && |s'.readers| == |s.readers|
  {
    assert Locked(s.writers[v].pc) && Waiting(s.writers, s.holder);
    var w';
    w', s' := HandOffCompletes(s, s.readOrder[|s.readOrder| - 1]);
  }

  lemma WriterSteps(s: Pipe, v: nat) returns (s': Pipe)
    requires v < |s.writers| && !s.writers[v].pc.WDone? && s.writers[v].pc != WAwait
    requires s.writers[v].pc == WLock ==> s.holder == None
    requires s.writers[v].pc == WSelect ==> !s.writers[v].first && s.writers[v].n >= |s.writers[v].data|
    ensures Next(s, s') && s'.writers != s.writers
    ensures s'.closers == s.closers && |s'.writers| == |s.writers| && |s'.readers| == |s.readers|
  {
    var x := s.writers[v];
    match x.pc {
      case WStart => s' := SetW(s, v, x.(pc := if s.done then WLoad(false) else WLock));
      case WLock => s' := SetW(s, v, x.(pc := WSelect, first := true)).(holder := Some(v), writeOrder := s.writeOrder + [v]);
      case WSelect => s' := SetW(s, v, x.(pc := WUnlock(None)));
      case WLoad(locked) => s' := SetW(s, v, x.(pc := WLoadOther(locked, s.werr)));
      case WLoadOther(locked, werr) =>
        var e := Some(CloseError(werr, s.rerr));
        s' := SetW(s, v, x.(pc := if locked then WUnlock(e) else WDone(e)));
      case WUnlock(err) => s' := SetW(s, v, x.(pc := WDone(err))).(holder := None);
    }
    assert WriteStep(s, v, s') && s'.writers[v] != x;
  }

  /** Writer v offers bytes: reader r takes them, or takes its own next step. */
  lemma ReaderSteps(s: Pipe, v: nat, r: nat) returns (s': Pipe)
    requires Inv(s) && v < |s.writers| && s.writers[v].pc == WSelect
    requires s.writers[v].first || s.writers[v].n < |s.writers[v].data|
    requires r < |s.readers| && !s.readers[r].pc.RDone?
    ensures Next(s, s') && s'.readers != s.readers
    ensures s'.closers == s.closers && |s'.writers| == |s.writers| && |s'.readers| == |s.readers|
  {
    var x, y := s.writers[v], s.readers[r];
    assert WriteValid(x, s.done);
    if y.pc == RSend {
      var w';
      w', s' := HandOffCompletes(s, r);
    } else if y.pc == RSelect {
      s' := SetR(SetW(s, v, x.(pc := WAwait)), r, y.(pc := RSend, got := x.data[x.n..x.n + Count(x, y)]))
            .(readOrder := s.readOrder + [r]);
      assert HandOff(s, v, r, s') && s'.readers[r] != y;
    } else {
      match y.pc {
        case RStart => s' := SetR(s, r, y.(pc := if s.done then RLoad else RSelect));
        case RLoad => s' := SetR(s, r, y.(pc := RLoadOther(s.rerr)));
        case RLoadOther(rerr) => s' := SetR(s, r, y.(pc := RDone(Some(CloseError(rerr, s.werr)))));
      }
      assert ReadStep(s, r, s') && s'.readers[r] != y;
    }
  }
}
