/** src/context/context.go: cancellation over a tree of contexts, with any
    number of goroutines creating and cancelling contexts at the same time. */
module ContextTree {
  import opened Basics

  datatype Error = Canceled | DeadlineExceeded

  /** A cancelCtx, or a timerCtx if timed.  lock is the goroutine that holds mu.
      The last three fields are history: whether WithCancel or WithDeadline has
      returned it, whether a cancellation of it has run to its end, and the
      errors its own cancel was called with. */
  datatype Node = Node(
    parent: Option<nat>, timed: bool, lock: Option<nat>, err: Option<Error>, children: set<nat>,
    ready: bool, closed: bool, asked: set<Error>)

  /** An activation of cancelCtx.cancel: about to lock its node, or holding the
      lock and going through the children. */
  datatype Frame = Enter(node: nat) | Loop(node: nat, todo: set<nat>)

  /** The activations of a goroutine, the innermost last. */
  datatype Stack = Empty | Push(outer: Stack, top: Frame)

  datatype Pc =
    | GetDone                // propagateCancel: about to lock the parent for its done channel
    | Select                 // is the channel closed?  No lock is needed
    | LoadErr                // it is: about to read the parent's error
    | LockParent             // it is not: about to lock the parent
    | Cancelling             // in nested calls of cancel
    | Unlock                 // holding the parent's lock after a nested call
    | RemoveChild            // about to lock the parent and leave it
    | Ended

  /** A goroutine that cancels root with err, or that propagates to it from its
      parent (and then may hold the parent's lock).  won says that it did not
      find root already cancelled. */
  datatype Thread = Thread(
    root: nat, propagate: bool, remove: bool, holdsParent: bool, pc: Pc, err: Error, stack: Stack, won: bool)

  datatype State = State(nodes: seq<Node>, threads: seq<Thread>)

  // ----- steps -----

  /** One step of cancel, in the innermost activation. */
  ghost predicate FrameStep(ns: seq<Node>, t: nat, e: Error, st: Stack, ns': seq<Node>, st': Stack)
    requires st.Push? && st.top.node < |ns|
  {
    var n := st.top.node;
    match st.top
    case Enter(_) =>
      ns[n].lock == None &&
      if ns[n].err.Some? then ns' == ns && st' == st.outer
      else
        && ns' == ns[n := ns[n].(lock := Some(t), err := Some(e))]
        && st' == Push(st.outer, Loop(n, ns[n].children))
    case Loop(_, todo) =>
      if todo == {} then ns' == ns[n := ns[n].(lock := None, children := {}, closed := true)] && st' == st.outer
      else ns' == ns && exists c :: c in todo && st' == Push(Push(st.outer, Loop(n, todo - {c})), Enter(c))
  }

  /** propagateCancel, from p to the root of x. */
  ghost predicate PropagateStep(ns: seq<Node>, t: nat, x: Thread, p: nat, ns': seq<Node>, x': Thread)
    requires x.root < |ns| && p < |ns|
  {
    var c := x.root;
    match x.pc
    case GetDone => ns[p].lock == None && ns' == ns && x' == x.(pc := Select)
    case Select => ns' == ns && x' == x.(pc := if ns[p].err.Some? then LoadErr else LockParent)
    case LoadErr =>
      ns[p].lock == None && ns[p].err.Some? && ns' == ns
      && x' == x.(pc := Cancelling, err := ns[p].err.value, stack := Push(Empty, Enter(c)))
    case LockParent =>
      ns[p].lock == None &&
      if ns[p].err.Some? then
        && ns' == ns[p := ns[p].(lock := Some(t))]
        && x' == x.(pc := Cancelling, holdsParent := true, err := ns[p].err.value, stack := Push(Empty, Enter(c)))
      else
        && ns' == ns[p := ns[p].(children := ns[p].children + {c})][c := ns[c].(ready := true)]
        && x' == x.(pc := Ended)
    case Unlock =>
      ns' == ns[p := ns[p].(lock := None)][c := ns[c].(ready := true)] && x' == x.(pc := Ended, holdsParent := false)
    case _ => false
  }

  function Moved(x: Thread, st': Stack): Thread {
    x.(stack := st', won := x.won || (st'.Push? && st'.top.Loop?))
  }

  /** The outermost cancel has returned.  A cancelCtx that was cancelled already
      returns before it would leave its parent; a timerCtx leaves it anyway. */
  ghost predicate ReturnStep(ns: seq<Node>, x: Thread, ns': seq<Node>, x': Thread)
    requires x.root < |ns|
  {
    if x.propagate then
      if x.holdsParent then ns' == ns && x' == x.(pc := Unlock)
      else ns' == ns[x.root := ns[x.root].(ready := true)] && x' == x.(pc := Ended)
    else
      ns' == ns && x' == x.(pc := if Leaves(ns, x) && ns[x.root].parent.Some? then RemoveChild else Ended)
  }

  predicate Leaves(ns: seq<Node>, x: Thread)
    requires x.root < |ns|
  {
    !x.propagate && x.remove && (x.won || ns[x.root].timed)
  }

  /** removeChild; parentCancelCtx may not find a parent that is cancelled. */
  ghost predicate RemoveStep(ns: seq<Node>, x: Thread, p: nat, ns': seq<Node>, x': Thread)
    requires x.root < |ns| && p < |ns|
  {
    && x' == x.(pc := Ended)
    && ((ns[p].lock == None && ns' == ns[p := ns[p].(children := ns[p].children - {x.root})])
        || (ns[p].err.Some? && ns' == ns))
  }

  ghost predicate ThreadStep(ns: seq<Node>, t: nat, x: Thread, ns': seq<Node>, x': Thread)
    requires x.root < |ns|
  {
    if x.pc == Cancelling then
      if x.stack == Empty then ReturnStep(ns, x, ns', x')
      else
        && x.stack.top.node < |ns|
        && exists st' :: FrameStep(ns, t, x.err, x.stack, ns', st') && x' == Moved(x, st')
    else
      && ns[x.root].parent.Some? && ns[x.root].parent.value < |ns|
      && var p := ns[x.root].parent.value;
         if x.pc == RemoveChild then RemoveStep(ns, x, p, ns', x') else PropagateStep(ns, t, x, p, ns', x')
  }

  /** A context on the background is ready at once. */
  function NewNode(parent: Option<nat>, timed: bool): Node {
    Node(parent, timed, None, None, {}, parent == None, false, {})
  }

  function Rooted(s: State, timed: bool): State { s.(nodes := s.nodes + [NewNode(None, timed)]) }

  /** WithCancel, or WithDeadline if timed, on the background or on a context
      that has been returned. */
  ghost predicate WithCancel(s: State, s': State) {
    || (exists timed: bool :: s' == Rooted(s, timed))
    || exists p: nat, timed: bool :: p < |s.nodes| && s.nodes[p].ready && s' == Created(s, p, timed)
  }

  function Created(s: State, p: nat, timed: bool): State {
    State(s.nodes + [NewNode(Some(p), timed)],
          s.threads + [Thread(|s.nodes|, true, false, false, GetDone, Canceled, Empty, false)])
  }

  /** What cancel may be called with, by a CancelFunc or a timer: a CancelFunc
      leaves the parent, except that of a deadline that had passed at once. */
  predicate MayCall(m: Node, e: Error, remove: bool) {
    if m.timed then e == Canceled || remove else e == Canceled && remove
  }

  /** A call of a CancelFunc, or a timer that fires. */
  ghost predicate CallCancel(s: State, s': State) {
    exists n: nat, e: Error, remove: bool ::
      n < |s.nodes| && s.nodes[n].ready && MayCall(s.nodes[n], e, remove) && s' == Called(s, n, e, remove)
  }

  function Called(s: State, n: nat, e: Error, remove: bool): State
    requires n < |s.nodes|
  {
    State(s.nodes[n := s.nodes[n].(asked := s.nodes[n].asked + {e})],
          s.threads + [Thread(n, false, remove, false, Cancelling, e, Push(Empty, Enter(n)), false)])
  }

  ghost predicate StepOf(s: State, t: nat, ns': seq<Node>, x': Thread) {
    t < |s.threads| && s.threads[t].root < |s.nodes| && ThreadStep(s.nodes, t, s.threads[t], ns', x')
  }

  ghost predicate Next(s: State, s': State) {
    || WithCancel(s, s') || CallCancel(s, s')
    || exists t: nat, ns', x' :: StepOf(s, t, ns', x') && s' == State(ns', s.threads[t := x'])
  }

  ghost predicate IsRun(run: seq<State>) {
    |run| > 0 && run[0] == State([], []) && forall k :: 0 < k < |run| ==> Next(run[k - 1], run[k])
  }

  // ----- invariants -----

  /** A node of the tree. */
  ghost predicate NodeInv(ns: seq<Node>, n: nat)
    requires n < |ns|
  {
    // children are created after their parents
    && (ns[n].parent.Some? ==> ns[n].parent.value < n && ns[ns[n].parent.value].ready)
    && (ns[n].parent == None ==> ns[n].ready)
    && (forall c :: c in ns[n].children ==> c < |ns| && ns[c].parent == Some(n))
    // a finished cancellation leaves no child registered
    && (ns[n].closed ==> ns[n].err.Some? && ns[n].children == {})
    // what is not cancelled is registered
    && (ns[n].ready && !ns[n].closed && ns[n].parent.Some? ==> n in ns[ns[n].parent.value].children)
    // where the error comes from
    && (ns[n].err.Some? ==>
          || ns[n].err.value in ns[n].asked
          || (ns[n].parent.Some? && ns[ns[n].parent.value].err == ns[n].err))
  }

  ghost predicate TreeInv(ns: seq<Node>) { forall n: nat :: n < |ns| ==> NodeInv(ns, n) }

  predicate HeldBy(st: Stack, n: nat) {
    st.Push? && ((st.top.Loop? && st.top.node == n) || HeldBy(st.outer, n))
  }

  predicate Holds(ns: seq<Node>, x: Thread, n: nat) {
    HeldBy(x.stack, n) || (x.holdsParent && x.root < |ns| && ns[x.root].parent == Some(n))
  }

  /** An activation whose loop runs: every live child that has been returned is
      still to do, or is the node of the next activation. */
  ghost predicate LoopInv(ns: seq<Node>, f: Frame, next: Option<nat>, e: Error) {
    && f.node < |ns|
    && (f.Loop? ==>
          && ns[f.node].err == Some(e) && !ns[f.node].closed && f.todo <= ns[f.node].children
          && forall c: nat :: c < |ns| && ns[c].ready && !ns[c].closed && ns[c].parent == Some(f.node) ==>
               c in f.todo || next == Some(c))
  }

  /** The activations go down the tree from root; next is the node of the
      activation inside the innermost one of st. */
  ghost predicate ChainInv(ns: seq<Node>, st: Stack, next: Option<nat>, root: nat, e: Error) {
    match st
    case Empty => next.Some? ==> next.value == root
    case Push(outer, f) =>
      && LoopInv(ns, f, next, e)
      && (next.Some? ==> f.Loop? && next.value < |ns| && ns[next.value].parent == Some(f.node))
      && ChainInv(ns, outer, Some(f.node), root, e)
  }

  /** What a thread is about. */
  ghost predicate BaseInv(ns: seq<Node>, x: Thread) {
    && x.root < |ns|
    && (x.propagate || x.pc == RemoveChild ==> ns[x.root].parent.Some? && ns[x.root].parent.value < x.root)
    && (x.stack != Empty ==>
          && x.pc == Cancelling
          && (if x.propagate then ns[ns[x.root].parent.value].err == Some(x.err) else x.err in ns[x.root].asked))
    && (x.holdsParent ==> x.propagate && (x.pc == Cancelling || x.pc == Unlock) && ns[ns[x.root].parent.value].closed)
    && (x.pc == Unlock ==> x.holdsParent)
    && (x.pc == GetDone || x.pc == Select || x.pc == LoadErr || x.pc == LockParent ==> x.propagate)
    && (x.pc == LoadErr ==> ns[ns[x.root].parent.value].err.Some?)
    && (x.pc == RemoveChild ==> !x.propagate)
    // cancel has run to its end
    && ((x.pc == Cancelling && x.stack == Empty) || x.pc == Unlock || x.pc == RemoveChild || (x.pc == Ended && !x.propagate) ==>
          ns[x.root].closed)
    && (x.pc == Ended && x.propagate ==> ns[x.root].ready)
  }

  ghost predicate ThreadInv(ns: seq<Node>, x: Thread) {
    BaseInv(ns, x) && ChainInv(ns, x.stack, None, x.root, x.err)
  }

  // ----- what a step of thread t may do to the nodes -----

  ghost predicate Stable(m: Node, m': Node) {
    && m'.parent == m.parent && m'.timed == m.timed && (m.err.Some? ==> m'.err == m.err)
    && (m.closed ==> m'.closed) && (m.ready ==> m'.ready) && m.asked <= m'.asked
  }

  /** n is left alone, and gets no new live child. */
  ghost predicate LeftAlone(ns: seq<Node>, ns': seq<Node>, n: nat) {
    && n < |ns| <= |ns'|
    && ns'[n].lock == ns[n].lock && ns'[n].err == ns[n].err
    && ns'[n].closed == ns[n].closed && ns'[n].children == ns[n].children
    && forall c: nat :: c < |ns'| && ns'[c].ready && !ns'[c].closed && ns'[c].parent == Some(n) ==>
         c < |ns| && ns[c].ready && !ns[c].closed && ns[c].parent == Some(n)
  }

  ghost predicate Grows(ns: seq<Node>, ns': seq<Node>) {
    |ns| <= |ns'| && forall m: nat :: m < |ns| ==> Stable(ns[m], ns'[m])
  }

  lemma {:induction false} ChainKept(ns: seq<Node>, ns': seq<Node>, st: Stack, next: Option<nat>, root: nat, e: Error)
    requires ChainInv(ns, st, next, root, e) && Grows(ns, ns')
    requires forall n: nat :: HeldBy(st, n) ==> LeftAlone(ns, ns', n)
    ensures ChainInv(ns', st, next, root, e)
  {
    if st.Push? {
      ChainKept(ns, ns', st.outer, Some(st.top.node), root, e);
      if st.top.Loop? { assert HeldBy(st, st.top.node); }
    }
  }

  /** Nodes held by outer activations are strictly above. */
  lemma {:induction false} HeldAbove(ns: seq<Node>, st: Stack, m: nat, root: nat, e: Error, n: nat)
    requires TreeInv(ns) && m < |ns| && ChainInv(ns, st, Some(m), root, e) && HeldBy(st, n)
    ensures n < m
  {
    assert NodeInv(ns, m);
    if st.top.node != n {
      HeldAbove(ns, st.outer, st.top.node, root, e, n);
    }
  }

  /** The node of a finished activation needs no more watching. */
  lemma PopChain(ns: seq<Node>, st: Stack, m: nat, root: nat, e: Error)
    requires ChainInv(ns, st, Some(m), root, e) && m < |ns| && ns[m].closed
    ensures ChainInv(ns, st, None, root, e)
  {}

  // ----- the steps of one thread -----

  /** Who holds what, from the point of view of thread t. */
  ghost predicate Own(ns: seq<Node>, t: nat, x: Thread) {
    && (forall n: nat :: n < |ns| ==> (Holds(ns, x, n) <==> ns[n].lock == Some(t)))
    && (forall n: nat :: n < |ns| && ns[n].err.Some? && !ns[n].closed ==>
          ns[n].lock.Some? && (ns[n].lock == Some(t) ==> HeldBy(x.stack, n)))
  }

  /** Other threads are not disturbed. */
  ghost predicate Polite(ns: seq<Node>, t: nat, ns': seq<Node>) {
    && Grows(ns, ns')
    && (forall n: nat :: n < |ns| && ns[n].lock.Some? && ns[n].lock != Some(t) ==> LeftAlone(ns, ns', n))
    && (forall n: nat :: n < |ns| && (ns[n].lock == None || ns[n].lock == Some(t)) ==>
          ns'[n].lock == None || ns'[n].lock == Some(t))
    && (forall n: nat :: |ns| <= n < |ns'| ==> ns'[n].lock == None)
  }

  ghost predicate Before(ns: seq<Node>, t: nat, x: Thread) {
    TreeInv(ns) && ThreadInv(ns, x) && Own(ns, t, x)
  }

  ghost predicate Kept(ns: seq<Node>, t: nat, ns': seq<Node>, x': Thread) {
    TreeInv(ns') && ThreadInv(ns', x') && Own(ns', t, x') && Polite(ns, t, ns')
  }

  lemma EnterPop(ns: seq<Node>, t: nat, x: Thread)
    requires Before(ns, t, x) && x.stack.Push? && x.stack.top.Enter?
    requires var n := x.stack.top.node; n < |ns| && ns[n].lock == None && ns[n].err.Some?
    ensures Kept(ns, t, ns, x.(stack := x.stack.outer))
  {
    PopChain(ns, x.stack.outer, x.stack.top.node, x.root, x.err);
  }

  /** Locking a live node and setting its error. */
  ghost predicate Locks(ns: seq<Node>, t: nat, x: Thread, ns': seq<Node>) {
    && x.stack.Push? && x.stack.top.Enter?
    && var n := x.stack.top.node;
       && n < |ns| && ns[n].lock == None && ns[n].err == None
       && ns' == ns[n := ns[n].(lock := Some(t), err := Some(x.err))]
  }

  function LoopOver(ns: seq<Node>, x: Thread): Thread
    requires x.stack.Push? && x.stack.top.node < |ns|
  {
    x.(stack := Push(x.stack.outer, Loop(x.stack.top.node, ns[x.stack.top.node].children)))
  }

  lemma EnterLockTree(ns: seq<Node>, t: nat, x: Thread, ns': seq<Node>)
    requires Before(ns, t, x) && Locks(ns, t, x, ns')
    ensures TreeInv(ns')
  {
    assert ChainInv(ns, x.stack.outer, Some(x.stack.top.node), x.root, x.err);
    forall m: nat | m < |ns'|
      ensures NodeInv(ns', m)
    {
      assert NodeInv(ns, m);
    }
  }

  lemma OuterLeftAlone(ns: seq<Node>, ns': seq<Node>, st: Stack, n: nat, root: nat, e: Error, h: nat)
    requires TreeInv(ns) && n < |ns| == |ns'| && ChainInv(ns, st, Some(n), root, e) && HeldBy(st, h)
    requires Stable(ns[n], ns'[n]) && ns' == ns[n := ns'[n]] && ns'[n].ready == ns[n].ready
    ensures LeftAlone(ns, ns', h)
  {
    HeldAbove(ns, st, n, root, e, h);
  }

  lemma EnterLockThread(ns: seq<Node>, t: nat, x: Thread, ns': seq<Node>)
    requires Before(ns, t, x) && Locks(ns, t, x, ns')
    ensures ThreadInv(ns', LoopOver(ns, x))
  {
    var n := x.stack.top.node;
    assert NodeInv(ns, n);
    forall h: nat | HeldBy(x.stack.outer, h)
      ensures LeftAlone(ns, ns', h)
    {
      OuterLeftAlone(ns, ns', x.stack.outer, n, x.root, x.err, h);
    }
    ChainKept(ns, ns', x.stack.outer, Some(n), x.root, x.err);
    forall c: nat | c < |ns'| && ns'[c].ready && !ns'[c].closed && ns'[c].parent == Some(n)
      ensures c in ns[n].children
    {
      assert NodeInv(ns, c);
    }
  }

  lemma EnterLockOwn(ns: seq<Node>, t: nat, x: Thread, ns': seq<Node>)
    requires Before(ns, t, x) && Locks(ns, t, x, ns')
    ensures Own(ns', t, LoopOver(ns, x)) && Polite(ns, t, ns')
  {
    hide TreeInv, ThreadInv;
  }

  lemma PushOwn(ns: seq<Node>, t: nat, x: Thread, c: nat)
    requires Own(ns, t, x) && x.stack.Push? && x.stack.top.Loop?
    ensures var f := x.stack.top;
            Own(ns, t, x.(stack := Push(Push(x.stack.outer, Loop(f.node, f.todo - {c})), Enter(c))))
  {
    var f := x.stack.top;
    var st' := Push(Push(x.stack.outer, Loop(f.node, f.todo - {c})), Enter(c));
    forall n: nat
      ensures HeldBy(st', n) <==> HeldBy(x.stack, n)
    {
      assert HeldBy(st', n) <==> HeldBy(st'.outer, n);
    }
  }

  lemma LoopPush(ns: seq<Node>, t: nat, x: Thread, c: nat)
    requires Before(ns, t, x) && x.stack.Push? && x.stack.top.Loop? && c in x.stack.top.todo
    ensures var f := x.stack.top;
            Kept(ns, t, ns, x.(stack := Push(Push(x.stack.outer, Loop(f.node, f.todo - {c})), Enter(c))))
  {
    var f := x.stack.top;
    assert NodeInv(ns, f.node);
    PushOwn(ns, t, x, c);
    hide Own, TreeInv;
    var st1 := Push(x.stack.outer, Loop(f.node, f.todo - {c}));
    assert ChainInv(ns, st1, Some(c), x.root, x.err);
    assert ChainInv(ns, Push(st1, Enter(c)), None, x.root, x.err);
  }

  /** Leaving a node whose children are all done. */
  ghost predicate Finishes(ns: seq<Node>, x: Thread, ns': seq<Node>) {
    && x.stack.Push? && x.stack.top.Loop? && x.stack.top.todo == {}
    && var n := x.stack.top.node;
       n < |ns| && ns' == ns[n := ns[n].(lock := None, children := {}, closed := true)]
  }

  lemma LoopFinishTree(ns: seq<Node>, t: nat, x: Thread, ns': seq<Node>)
    requires Before(ns, t, x) && Finishes(ns, x, ns')
    ensures TreeInv(ns')
  {
    var n := x.stack.top.node;
    assert LoopInv(ns, x.stack.top, None, x.err);
    forall m: nat | m < |ns'|
      ensures NodeInv(ns', m)
    {
      assert NodeInv(ns, m);
    }
  }

  lemma LoopFinishThread(ns: seq<Node>, t: nat, x: Thread, ns': seq<Node>)
    requires Before(ns, t, x) && Finishes(ns, x, ns')
    ensures ThreadInv(ns', x.(stack := x.stack.outer))
  {
    var n := x.stack.top.node;
    forall h: nat | HeldBy(x.stack.outer, h)
      ensures LeftAlone(ns, ns', h)
    {
      OuterLeftAlone(ns, ns', x.stack.outer, n, x.root, x.err, h);
    }
    ChainKept(ns, ns', x.stack.outer, Some(n), x.root, x.err);
    PopChain(ns', x.stack.outer, n, x.root, x.err);
  }

  lemma LoopFinishOwn(ns: seq<Node>, t: nat, x: Thread, ns': seq<Node>)
    requires Before(ns, t, x) && Finishes(ns, x, ns')
    ensures Own(ns', t, x.(stack := x.stack.outer)) && Polite(ns, t, ns')
  {
    var n := x.stack.top.node;
    forall h: nat | HeldBy(x.stack.outer, h)
      ensures h < n
    {
      HeldAbove(ns, x.stack.outer, n, x.root, x.err, h);
    }
    assert NodeInv(ns, n);
    hide TreeInv, ChainInv;
  }

  lemma FrameStepKept(ns: seq<Node>, t: nat, x: Thread, ns': seq<Node>, st': Stack)
    requires Before(ns, t, x) && x.stack.Push? && x.stack.top.node < |ns|
    requires FrameStep(ns, t, x.err, x.stack, ns', st')
    ensures Kept(ns, t, ns', x.(stack := st'))
  {
    hide Before, TreeInv, ThreadInv, Own, Polite;
    var n := x.stack.top.node;
    match x.stack.top
    case Enter(_) =>
      if ns[n].err.Some? {
        EnterPop(ns, t, x);
      } else {
        EnterLockTree(ns, t, x, ns');
        EnterLockThread(ns, t, x, ns');
        EnterLockOwn(ns, t, x, ns');
      }
    case Loop(_, todo) =>
      if todo == {} {
        LoopFinishTree(ns, t, x, ns');
        LoopFinishThread(ns, t, x, ns');
        LoopFinishOwn(ns, t, x, ns');
      } else {
        var c :| c in todo && st' == Push(Push(x.stack.outer, Loop(n, todo - {c})), Enter(c));
        LoopPush(ns, t, x, c);
      }
  }

  lemma RegisterTree(ns: seq<Node>, t: nat, x: Thread, ns': seq<Node>, x': Thread)
    requires Before(ns, t, x) && ns[x.root].parent.Some? && ns[x.root].parent.value < |ns|
    requires x.pc == LockParent && PropagateStep(ns, t, x, ns[x.root].parent.value, ns', x')
    ensures TreeInv(ns')
  {
    assert NodeInv(ns, x.root) && NodeInv(ns, ns[x.root].parent.value);
    forall m: nat | m < |ns'|
      ensures NodeInv(ns', m)
    {
      assert NodeInv(ns, m);
    }
  }

  lemma RegisterKept(ns: seq<Node>, t: nat, x: Thread, ns': seq<Node>, x': Thread)
    requires Before(ns, t, x) && ns[x.root].parent.Some? && ns[x.root].parent.value < |ns|
    requires x.pc == LockParent && PropagateStep(ns, t, x, ns[x.root].parent.value, ns', x')
    ensures Kept(ns, t, ns', x')
  {
    RegisterTree(ns, t, x, ns', x');
    assert NodeInv(ns, x.root) && NodeInv(ns, ns[x.root].parent.value);
  }

  lemma PropagateKept(ns: seq<Node>, t: nat, x: Thread, ns': seq<Node>, x': Thread)
    requires Before(ns, t, x) && ns[x.root].parent.Some? && ns[x.root].parent.value < |ns|
    requires x.pc != Cancelling && PropagateStep(ns, t, x, ns[x.root].parent.value, ns', x')
    ensures Kept(ns, t, ns', x')
  {
    if x.pc == LockParent {
      RegisterKept(ns, t, x, ns', x');
    } else if x.pc == Unlock {
      UnlockKept(ns, t, x, ns', x');
    }
  }

  lemma UnlockKept(ns: seq<Node>, t: nat, x: Thread, ns': seq<Node>, x': Thread)
    requires Before(ns, t, x) && ns[x.root].parent.Some? && ns[x.root].parent.value < |ns|
    requires x.pc == Unlock && PropagateStep(ns, t, x, ns[x.root].parent.value, ns', x')
    ensures Kept(ns, t, ns', x')
  {
    assert NodeInv(ns, x.root) && NodeInv(ns, ns[x.root].parent.value);
    forall m: nat | m < |ns'|
      ensures NodeInv(ns', m)
    {
      assert NodeInv(ns, m);
    }
  }

  lemma ReturnKept(ns: seq<Node>, t: nat, x: Thread, ns': seq<Node>, x': Thread)
    requires Before(ns, t, x) && x.pc == Cancelling && x.stack == Empty && ReturnStep(ns, x, ns', x')
    ensures Kept(ns, t, ns', x')
  {
    assert NodeInv(ns, x.root);
    forall m: nat | m < |ns'|
      ensures NodeInv(ns', m)
    {
      assert NodeInv(ns, m);
    }
  }

  lemma RemoveKept(ns: seq<Node>, t: nat, x: Thread, ns': seq<Node>, x': Thread)
    requires Before(ns, t, x) && x.pc == RemoveChild && ns[x.root].parent.Some? && ns[x.root].parent.value < |ns|
    requires RemoveStep(ns, x, ns[x.root].parent.value, ns', x')
    ensures Kept(ns, t, ns', x')
  {
    assert NodeInv(ns, x.root) && NodeInv(ns, ns[x.root].parent.value);
    forall m: nat | m < |ns'|
      ensures NodeInv(ns', m)
    {
      assert NodeInv(ns, m);
    }
  }

  lemma MovedKept(ns: seq<Node>, t: nat, x: Thread, ns': seq<Node>, st': Stack)
    requires Kept(ns, t, ns', x.(stack := st'))
    ensures Kept(ns, t, ns', Moved(x, st'))
  {}

  lemma ThreadStepKept(ns: seq<Node>, t: nat, x: Thread, ns': seq<Node>, x': Thread)
    requires Before(ns, t, x) && x.root < |ns| && ThreadStep(ns, t, x, ns', x')
    ensures Kept(ns, t, ns', x')
  {
    hide Before, Kept, FrameStep, ReturnStep, RemoveStep, PropagateStep;
    if x.pc == Cancelling {
      if x.stack == Empty {
        ReturnKept(ns, t, x, ns', x');
      } else {
        var st' :| FrameStep(ns, t, x.err, x.stack, ns', st') && x' == Moved(x, st');
        FrameStepKept(ns, t, x, ns', st');
        MovedKept(ns, t, x, ns', st');
      }
    } else if x.pc == RemoveChild {
      RemoveKept(ns, t, x, ns', x');
    } else {
      PropagateKept(ns, t, x, ns', x');
    }
  }

  // ----- the system -----

  /** Mutual exclusion: the lock of a node belongs to the thread that holds it,
      and a node is half cancelled only under its lock. */
  ghost predicate LocksInv(s: State) {
    && (forall t: nat :: t < |s.threads| ==> Own(s.nodes, t, s.threads[t]))
    && (forall n: nat :: n < |s.nodes| && s.nodes[n].lock.Some? ==> s.nodes[n].lock.value < |s.threads|)
    && (forall n: nat :: n < |s.nodes| && s.nodes[n].err.Some? && !s.nodes[n].closed ==> s.nodes[n].lock.Some?)
  }

  ghost predicate Inv(s: State) {
    && TreeInv(s.nodes) && LocksInv(s)
    && (forall t: nat :: t < |s.threads| ==> ThreadInv(s.nodes, s.threads[t]))
  }

  /** The other threads keep their invariant, and what they hold. */
  lemma OtherKept(ns: seq<Node>, ns': seq<Node>, t: nat, u: nat, y: Thread)
    requires ThreadInv(ns, y) && Own(ns, u, y) && Polite(ns, t, ns') && u != t
    requires forall n: nat :: n < |ns'| && ns'[n].err.Some? && !ns'[n].closed ==> ns'[n].lock.Some?
    ensures ThreadInv(ns', y) && Own(ns', u, y)
  {
    forall n: nat | HeldBy(y.stack, n)
      ensures LeftAlone(ns, ns', n)
    {
      HeldInRange(ns, y.stack, None, y.root, y.err, n);
      assert Holds(ns, y, n);
    }
    ChainKept(ns, ns', y.stack, None, y.root, y.err);
    forall n: nat | |ns| <= n < |ns'|
      ensures !Holds(ns', y, n)
    {
      if HeldBy(y.stack, n) { HeldInRange(ns, y.stack, None, y.root, y.err, n); }
    }
  }

  lemma {:induction false} HeldInRange(ns: seq<Node>, st: Stack, next: Option<nat>, root: nat, e: Error, n: nat)
    requires ChainInv(ns, st, next, root, e) && HeldBy(st, n)
    ensures n < |ns|
  {
    if st.top.node != n { HeldInRange(ns, st.outer, Some(st.top.node), root, e, n); }
  }

  lemma ThreadKeepsInv(s: State, t: nat, ns': seq<Node>, x': Thread)
    requires Inv(s) && StepOf(s, t, ns', x')
    ensures Inv(State(ns', s.threads[t := x'])) && Grows(s.nodes, ns')
  {
    hide TreeInv, ThreadInv, ThreadStep;
    ThreadStepKept(s.nodes, t, s.threads[t], ns', x');
    forall u: nat | u < |s.threads| && u != t
      ensures ThreadInv(ns', s.threads[u]) && Own(ns', u, s.threads[u])
    {
      OtherKept(s.nodes, ns', t, u, s.threads[u]);
    }
  }

  /** Steps that only add a thread, and leave every node alone. */
  lemma AddThread(s: State, ns': seq<Node>, x: Thread)
    requires Inv(s) && TreeInv(ns') && Polite(s.nodes, |s.threads|, ns') && ThreadInv(ns', x)
    requires forall n: nat :: n < |s.nodes| ==> LeftAlone(s.nodes, ns', n)
    requires forall n: nat :: |s.nodes| <= n < |ns'| ==> ns'[n].err == None
    requires !x.holdsParent && (forall n: nat :: !HeldBy(x.stack, n))
    ensures Inv(State(ns', s.threads + [x]))
  {
    hide TreeInv, ThreadInv;
    forall n: nat | n < |ns'|
      ensures ns'[n].err.Some? && !ns'[n].closed ==> ns'[n].lock.Some?
      ensures ns'[n].lock.Some? ==> ns'[n].lock.value < |s.threads|
    {
      if n < |s.nodes| { assert LeftAlone(s.nodes, ns', n); }
    }
    forall u: nat | u < |s.threads|
      ensures ThreadInv(ns', s.threads[u]) && Own(ns', u, s.threads[u])
    {
      OtherKept(s.nodes, ns', |s.threads|, u, s.threads[u]);
    }
  }

  lemma BackgroundKeepsInv(s: State, timed: bool)
    requires Inv(s)
    ensures Inv(Rooted(s, timed)) && Grows(s.nodes, Rooted(s, timed).nodes)
  {
    var ns' := Rooted(s, timed).nodes;
    forall m: nat | m < |ns'|
      ensures NodeInv(ns', m)
    {
      if m < |s.nodes| { assert NodeInv(s.nodes, m); }
    }
    assert TreeInv(ns');
    hide TreeInv, ThreadInv;
    forall u: nat | u < |s.threads|
      ensures ThreadInv(ns', s.threads[u]) && Own(ns', u, s.threads[u])
    {
      OtherKept(s.nodes, ns', |s.threads|, u, s.threads[u]);
    }
  }

  lemma WithCancelKeepsInv(s: State, p: nat, timed: bool)
    requires Inv(s) && p < |s.nodes| && s.nodes[p].ready
    ensures Inv(Created(s, p, timed)) && Grows(s.nodes, Created(s, p, timed).nodes)
  {
    var ns' := Created(s, p, timed).nodes;
    forall m: nat | m < |ns'|
      ensures NodeInv(ns', m)
    {
      if m < |s.nodes| { assert NodeInv(s.nodes, m); }
    }
    assert TreeInv(ns');
    hide TreeInv;
    AddThread(s, ns', Thread(|s.nodes|, true, false, false, GetDone, Canceled, Empty, false));
  }

  lemma CallCancelKeepsInv(s: State, n: nat, e: Error, remove: bool)
    requires Inv(s) && n < |s.nodes| && s.nodes[n].ready
    ensures Inv(Called(s, n, e, remove)) && Grows(s.nodes, Called(s, n, e, remove).nodes)
  {
    var ns' := Called(s, n, e, remove).nodes;
    forall m: nat | m < |ns'|
      ensures NodeInv(ns', m)
    {
      assert NodeInv(s.nodes, m);
    }
    assert TreeInv(ns');
    hide TreeInv;
    assert ChainInv(ns', Empty, Some(n), n, e);
    AddThread(s, ns', Thread(n, false, remove, false, Cancelling, e, Push(Empty, Enter(n)), false));
  }

  lemma NextKeepsInv(s: State, s': State)
    requires Inv(s) && Next(s, s')
    ensures Inv(s') && Grows(s.nodes, s'.nodes)
  {
    hide Inv, Grows, ThreadStep, Created, Called, Rooted;
    if WithCancel(s, s') {
      if timed: bool :| s' == Rooted(s, timed) {
        BackgroundKeepsInv(s, timed);
      } else {
        var p: nat, timed: bool :| p < |s.nodes| && s.nodes[p].ready && s' == Created(s, p, timed);
        WithCancelKeepsInv(s, p, timed);
      }
    } else if CallCancel(s, s') {
      var n: nat, e: Error, remove: bool :|
        n < |s.nodes| && s.nodes[n].ready && MayCall(s.nodes[n], e, remove) && s' == Called(s, n, e, remove);
      CallCancelKeepsInv(s, n, e, remove);
    } else {
      var t: nat, ns', x' :| StepOf(s, t, ns', x') && s' == State(ns', s.threads[t := x']);
      ThreadKeepsInv(s, t, ns', x');
    }
  }

  lemma {:induction false} RunInv(run: seq<State>, k: nat)
    requires IsRun(run) && k < |run|
    ensures Inv(run[k])
  {
    if k > 0 {
      RunInv(run, k - 1);
      NextKeepsInv(run[k - 1], run[k]);
    }
  }

  // ----- what the protocol is for -----

  /** n is m or one of its ancestors. */
  predicate Under(ns: seq<Node>, m: nat, n: nat)
    decreases m
  {
    m == n || (m < |ns| && ns[m].parent.Some? && ns[m].parent.value < m && Under(ns, ns[m].parent.value, n))
  }

  /** Some node from m up to, but not including, n was asked to cancel with e. */
  predicate AskedBelow(ns: seq<Node>, m: nat, n: nat, e: Error)
    decreases m
  {
    && m != n && m < |ns|
    && (e in ns[m].asked
        || (ns[m].parent.Some? && ns[m].parent.value < m && AskedBelow(ns, ns[m].parent.value, n, e)))
  }

  lemma {:induction false} SubtreeDone(ns: seq<Node>, m: nat, n: nat)
    requires TreeInv(ns) && m < |ns| && n < |ns| && Under(ns, m, n) && ns[m].ready && ns[n].closed
    ensures ns[m].closed && ns[m].err.Some?
    ensures ns[m].err == ns[n].err || AskedBelow(ns, m, n, ns[m].err.value)
    decreases m
  {
    assert NodeInv(ns, m);
    if m != n {
      SubtreeDone(ns, ns[m].parent.value, n);
      assert NodeInv(ns, ns[m].parent.value);
    }
  }

  /** Once a call of cancel has returned, its node and every context below it
      that has been returned are done, with the error of the node or with the
      one some context in between was itself cancelled with, and nothing is
      registered under any of them. */
  lemma CancelReturned(run: seq<State>, k: nat, t: nat, m: nat)
    requires IsRun(run) && k < |run| && t < |run[k].threads| && m < |run[k].nodes|
    requires var x := run[k].threads[t]; !x.propagate && x.pc != Cancelling
    requires Under(run[k].nodes, m, run[k].threads[t].root) && run[k].nodes[m].ready
    ensures var ns, n := run[k].nodes, run[k].threads[t].root;
            && n < |ns| && ns[m].err.Some? && ns[m].children == {}
            && (ns[m].err == ns[n].err || AskedBelow(ns, m, n, ns[m].err.value))
  {
    RunInv(run, k);
    assert ThreadInv(run[k].nodes, run[k].threads[t]);
    SubtreeDone(run[k].nodes, m, run[k].threads[t].root);
    assert NodeInv(run[k].nodes, m);
  }

  /** However the calls race: a context that is done, and whose lock is free,
      has nothing registered, and every child of it that has been returned is
      done; a live child of a live context is registered. */
  lemma NoLiveChildLeft(run: seq<State>, k: nat, c: nat)
    requires IsRun(run) && k < |run| && c < |run[k].nodes| && run[k].nodes[c].ready && run[k].nodes[c].parent.Some?
    ensures var ns := run[k].nodes;
            var p := ns[c].parent.value;
            && p < c
            && (ns[p].err.Some? && ns[p].lock == None ==> ns[p].children == {} && ns[c].err.Some?)
            && (ns[c].err == None ==> c in ns[p].children)
  {
    RunInv(run, k);
    assert NodeInv(run[k].nodes, c) && NodeInv(run[k].nodes, run[k].nodes[c].parent.value);
  }

  lemma RunGrows(run: seq<State>, k: nat)
    requires IsRun(run) && 0 < k < |run|
    ensures Grows(run[k - 1].nodes, run[k].nodes)
  {
    hide Inv, Next, Grows;
    RunInv(run, k - 1);
    NextKeepsInv(run[k - 1], run[k]);
  }

  lemma {:induction false} RunGrowsTo(run: seq<State>, i: nat, k: nat)
    requires IsRun(run) && i <= k < |run|
    ensures Grows(run[i].nodes, run[k].nodes)
    decreases k - i
  {
    hide Next;
    if i < k {
      RunGrowsTo(run, i, k - 1);
      RunGrows(run, k);
      GrowsThen(run[i].nodes, run[k - 1].nodes, run[k].nodes);
    }
  }

  lemma GrowsThen(a: seq<Node>, b: seq<Node>, c: seq<Node>)
    requires Grows(a, b) && Grows(b, c)
    ensures Grows(a, c)
  {
    forall m: nat | m < |a|
      ensures Stable(a[m], c[m])
    {
      assert Stable(a[m], b[m]) && Stable(b[m], c[m]);
    }
  }

  /** Each context from m up to, but not including, n was never asked to cancel,
      or is done with it, and none of them is asked again until ns'. */
  predicate Quiet(ns: seq<Node>, ns': seq<Node>, m: nat, n: nat)
    decreases m
  {
    m == n ||
    (&& m < |ns| && m < |ns'| && (ns[m].asked == {} || ns[m].closed) && ns'[m].asked == ns[m].asked
     && (ns[m].parent.Some? ==> ns[m].parent.value < m && Quiet(ns, ns', ns[m].parent.value, n)))
  }

  lemma {:induction false} AskedWasClosed(ns: seq<Node>, ns': seq<Node>, m: nat, n: nat, e: Error) returns (x: nat)
    requires AskedBelow(ns', m, n, e) && Quiet(ns, ns', m, n) && Grows(ns, ns')
    ensures x < |ns| && Under(ns, m, x) && ns[x].closed
    decreases m
  {
    assert Stable(ns[m], ns'[m]);
    if e in ns'[m].asked {
      x := m;
    } else {
      x := AskedWasClosed(ns, ns', ns[m].parent.value, n, e);
    }
  }

  /** When a descendant ends with the error of the cancellation.  Take any moment
      before, or during, a call of cancel on n, at which no other cancellation
      is under way between m and n, and let none begin until that call has
      returned.  Then m ends with the error of n exactly if it had no error at
      that moment, or that one. */
  lemma SameErrorExactly(run: seq<State>, i: nat, k: nat, t: nat, m: nat)
    requires IsRun(run) && i <= k < |run| && t < |run[k].threads| && m < |run[i].nodes| && m < |run[k].nodes|
    requires var x := run[k].threads[t]; !x.propagate && x.pc != Cancelling
    requires Under(run[k].nodes, m, run[k].threads[t].root) && run[i].nodes[m].ready
    requires Quiet(run[i].nodes, run[k].nodes, m, run[k].threads[t].root)
    ensures var before, after, n := run[i].nodes[m].err, run[k].nodes, run[k].threads[t].root;
            n < |after| && (after[m].err == after[n].err <==> before == None || before == after[n].err)
  {
    hide IsRun, Inv, Quiet, AskedBelow, Under, Next;
    var n := run[k].threads[t].root;
    RunGrowsTo(run, i, k);
    assert Stable(run[i].nodes[m], run[k].nodes[m]);
    CancelReturned(run, k, t, m);
    if run[i].nodes[m].err.Some? {
      ErrorsStick(run, i, k, m);
    } else if run[k].nodes[m].err != run[k].nodes[n].err {
      var x := AskedWasClosed(run[i].nodes, run[k].nodes, m, n, run[k].nodes[m].err.value);
      RunTree(run, i);
      SubtreeDone(run[i].nodes, m, x);
    }
  }

  lemma RunTree(run: seq<State>, k: nat)
    requires IsRun(run) && k < |run|
    ensures TreeInv(run[k].nodes)
  {
    hide IsRun;
    RunInv(run, k);
  }

  /** An error, once set, never changes. */
  lemma {:induction false} ErrorsStick(run: seq<State>, i: nat, j: nat, n: nat)
    requires IsRun(run) && i <= j < |run| && n < |run[i].nodes| && run[i].nodes[n].err.Some?
    ensures n < |run[j].nodes| && run[j].nodes[n].err == run[i].nodes[n].err
    decreases j - i
  {
    hide Next;
    if i < j {
      RunGrows(run, j);
      ErrorsStick(run, i, j - 1, n);
    }
  }

  // ----- no deadlock -----

  /** The node whose lock a thread needs for its next step. */
  function Wants(ns: seq<Node>, x: Thread): Option<nat> {
    if x.pc == Cancelling then
      if x.stack.Push? && x.stack.top.Enter? then Some(x.stack.top.node) else None
    else if x.pc == Select || x.pc == Unlock || x.root >= |ns| then None
    else ns[x.root].parent
  }

  predicate Free(ns: seq<Node>, n: Option<nat>) { n.Some? && n.value < |ns| ==> ns[n.value].lock == None }

  ghost predicate CanStep(s: State, t: nat) { exists ns', x' :: StepOf(s, t, ns', x') }

  lemma FrameCanStep(ns: seq<Node>, t: nat, x: Thread) returns (ns': seq<Node>, st': Stack)
    requires ThreadInv(ns, x) && x.stack.Push? && Free(ns, Wants(ns, x))
    ensures x.stack.top.node < |ns| && FrameStep(ns, t, x.err, x.stack, ns', st')
  {
    var n := x.stack.top.node;
    assert x.pc == Cancelling && n < |ns|;
    match x.stack.top
    case Enter(_) =>
      if ns[n].err.Some? { ns', st' := ns, x.stack.outer; }
      else {
        ns' := ns[n := ns[n].(lock := Some(t), err := Some(x.err))];
        st' := Push(x.stack.outer, Loop(n, ns[n].children));
      }
    case Loop(_, todo) =>
      if todo == {} {
        ns' := ns[n := ns[n].(lock := None, children := {}, closed := true)];
        st' := x.stack.outer;
      } else {
        var c :| c in todo;
        ns', st' := ns, Push(Push(x.stack.outer, Loop(n, todo - {c})), Enter(c));
      }
  }

  lemma UnblockedCanStep(s: State, t: nat)
    requires Inv(s) && t < |s.threads| && s.threads[t].pc != Ended && Free(s.nodes, Wants(s.nodes, s.threads[t]))
    ensures CanStep(s, t)
  {
    var ns, x := s.nodes, s.threads[t];
    assert ThreadInv(ns, x);
    if x.stack.Push? {
      var ns', st' := FrameCanStep(ns, t, x);
      assert StepOf(s, t, ns', Moved(x, st'));
    } else {
      PlainCanStep(s, t);
    }
  }

  lemma PlainCanStep(s: State, t: nat)
    requires Inv(s) && t < |s.threads| && s.threads[t].pc != Ended && Free(s.nodes, Wants(s.nodes, s.threads[t]))
    requires s.threads[t].stack == Empty
    ensures CanStep(s, t)
  {
    var ns, x := s.nodes, s.threads[t];
    assert ThreadInv(ns, x);
    hide Inv;
    if x.pc == Cancelling && x.propagate && !x.holdsParent {
      assert StepOf(s, t, ns[x.root := ns[x.root].(ready := true)], x.(pc := Ended));
    } else if x.pc == Cancelling && x.propagate {
      assert StepOf(s, t, ns, x.(pc := Unlock));
    } else if x.pc == Cancelling {
      assert StepOf(s, t, ns, x.(pc := if Leaves(ns, x) && ns[x.root].parent.Some? then RemoveChild else Ended));
    } else {
      var p, c := ns[x.root].parent.value, x.root;
      match x.pc
      case GetDone => assert StepOf(s, t, ns, x.(pc := Select));
      case Select => assert StepOf(s, t, ns, x.(pc := if ns[p].err.Some? then LoadErr else LockParent));
      case LoadErr =>
        assert StepOf(s, t, ns, x.(pc := Cancelling, err := ns[p].err.value, stack := Push(Empty, Enter(c))));
      case LockParent =>
        if ns[p].err.Some? {
          assert StepOf(s, t, ns[p := ns[p].(lock := Some(t))],
                        x.(pc := Cancelling, holdsParent := true, err := ns[p].err.value, stack := Push(Empty, Enter(c))));
        } else {
          assert StepOf(s, t, ns[p := ns[p].(children := ns[p].children + {c})][c := ns[c].(ready := true)],
                        x.(pc := Ended));
        }
      case Unlock =>
        assert StepOf(s, t, ns[p := ns[p].(lock := None)][c := ns[c].(ready := true)],
                      x.(pc := Ended, holdsParent := false));
      case RemoveChild =>
        assert StepOf(s, t, ns[p := ns[p].(children := ns[p].children - {x.root})], x.(pc := Ended));
    }
  }

  lemma {:induction false} StackBelowRoot(ns: seq<Node>, st: Stack, m: nat, root: nat, e: Error)
    requires TreeInv(ns) && m < |ns| && ChainInv(ns, st, Some(m), root, e)
    ensures root <= m
  {
    assert NodeInv(ns, m);
    if st.Push? { StackBelowRoot(ns, st.outer, st.top.node, root, e); }
  }

  /** Locks are taken from parent to child: who holds n waits only for nodes
      below n. */
  lemma WaitsBelow(s: State, n: nat)
    requires Inv(s) && n < |s.nodes| && s.nodes[n].lock.Some?
    ensures var u := s.nodes[n].lock.value;
            && u < |s.threads| && s.threads[u].pc != Ended
            && var w := Wants(s.nodes, s.threads[u]); (w.Some? ==> n < w.value < |s.nodes|)
  {
    var u := s.nodes[n].lock.value;
    var x := s.threads[u];
    assert Own(s.nodes, u, x) && ThreadInv(s.nodes, x);
    assert Holds(s.nodes, x, n);
    if x.stack.Push? && x.stack.top.Enter? {
      var m := x.stack.top.node;
      if HeldBy(x.stack, n) {
        HeldAbove(s.nodes, x.stack.outer, m, x.root, x.err, n);
      } else {
        StackBelowRoot(s.nodes, x.stack.outer, m, x.root, x.err);
      }
    }
  }

  lemma {:induction false} HolderUnblocked(s: State, n: nat) returns (t: nat)
    requires Inv(s) && n < |s.nodes| && s.nodes[n].lock.Some?
    ensures t < |s.threads| && s.threads[t].pc != Ended && CanStep(s, t)
    decreases |s.nodes| - n
  {
    WaitsBelow(s, n);
    t := s.nodes[n].lock.value;
    var w := Wants(s.nodes, s.threads[t]);
    if Free(s.nodes, w) {
      UnblockedCanStep(s, t);
    } else {
      t := HolderUnblocked(s, w.value);
    }
  }

  /** While a call has not ended, some call can take a step. */
  lemma NoDeadlock(run: seq<State>, k: nat, u: nat)
    requires IsRun(run) && k < |run| && u < |run[k].threads| && run[k].threads[u].pc != Ended
    ensures exists t: nat :: t < |run[k].threads| && run[k].threads[t].pc != Ended && CanStep(run[k], t)
  {
    RunInv(run, k);
    var s := run[k];
    var w := Wants(s.nodes, s.threads[u]);
    if Free(s.nodes, w) {
      UnblockedCanStep(s, u);
    } else {
      var t := HolderUnblocked(s, w.value);
    }
  }

  // ----- leaving the parent -----

  /** A call that has left the parent of c: it was to, and did not find a plain
      cancelCtx cancelled already. */
  predicate Left(ns: seq<Node>, x: Thread, c: nat) {
    x.root < |ns| && x.root == c && x.pc == Ended && Leaves(ns, x)
  }

  ghost predicate SomeLeft(s: State, c: nat) {
    exists t: nat :: t < |s.threads| && Left(s.nodes, s.threads[t], c)
  }

  /** A node is made by one thread, and is not ready before that ends; the other
      threads are calls on ready nodes. */
  ghost predicate MakerInv(ns: seq<Node>, x: Thread) {
    && x.root < |ns|
    && (x.propagate && x.pc != Ended ==> !ns[x.root].ready)
    && (!x.propagate ==> ns[x.root].ready)
    && (x.pc == RemoveChild ==> Leaves(ns, x))
    && (x.propagate && (x.pc == Cancelling || x.pc == Unlock) ==> !LiveParent(ns, x.root))
  }

  ghost predicate MakersInv(s: State) {
    && (forall t: nat :: t < |s.threads| ==> MakerInv(s.nodes, s.threads[t]))
    && forall t: nat, u: nat :: t < u < |s.threads| && s.threads[t].propagate && s.threads[u].propagate ==>
         s.threads[t].root != s.threads[u].root
  }

  predicate LiveParent(ns: seq<Node>, c: nat) {
    c < |ns| && ns[c].parent.Some? && ns[c].parent.value < |ns| && ns[ns[c].parent.value].err == None
  }

  predicate Registered(ns: seq<Node>, c: nat) {
    c < |ns| && ns[c].parent.Some? && ns[c].parent.value < |ns| && c in ns[ns[c].parent.value].children
  }

  ghost predicate LeaveInv(s: State) {
    forall c: nat :: c < |s.nodes| && s.nodes[c].ready && LiveParent(s.nodes, c) ==>
      (Registered(s.nodes, c) <==> !SomeLeft(s, c))
  }

  /** What a step of a thread does besides cancelling. */
  ghost predicate Shape(ns: seq<Node>, x: Thread, ns': seq<Node>, x': Thread) {
    && |ns'| == |ns| && x.root < |ns| && x.pc != Ended
    && x' == x.(pc := x'.pc, err := x'.err, stack := x'.stack, won := x'.won, holdsParent := x'.holdsParent)
    && (x.pc == RemoveChild ==> x'.pc == Ended && x'.won == x.won)
    && (x.pc == LockParent ==> x.propagate)
    && (x'.pc == RemoveChild ==> Leaves(ns, x'))
    && (x'.pc == Ended && ns[x.root].parent.Some? && x.pc != RemoveChild ==> !Leaves(ns, x'))
    && (x.propagate && (x'.pc == Cancelling || x'.pc == Unlock) && x.pc != Cancelling && x.pc != Unlock ==>
          !LiveParent(ns, x.root))
    && (forall n: nat :: n < |ns| ==>
          ns'[n].ready == (ns[n].ready || (n == x.root && x.propagate && x'.pc == Ended)))
    && (x.propagate && x'.pc == Ended ==> LiveParent(ns, x.root) ==> x.pc == LockParent || x.pc == Cancelling || x.pc == Unlock)
    && (forall p: nat :: p < |ns| && ns'[p].err == None ==> ns'[p].children == ChildrenAfter(ns, x, p))
  }

  function ChildrenAfter(ns: seq<Node>, x: Thread, p: nat): set<nat>
    requires p < |ns| && x.root < |ns|
  {
    if ns[x.root].parent != Some(p) then ns[p].children
    else if x.pc == LockParent then ns[p].children + {x.root}
    else if x.pc == RemoveChild then ns[p].children - {x.root}
    else ns[p].children
  }

  lemma FrameShape(ns: seq<Node>, t: nat, x: Thread, ns': seq<Node>, st': Stack)
    requires ThreadInv(ns, x) && x.pc == Cancelling && x.stack.Push? && x.stack.top.node < |ns|
    requires FrameStep(ns, t, x.err, x.stack, ns', st')
    ensures Shape(ns, x, ns', Moved(x, st'))
  {
    assert LoopInv(ns, x.stack.top, None, x.err);
  }

  lemma StepShape(s: State, t: nat, ns': seq<Node>, x': Thread)
    requires Inv(s) && StepOf(s, t, ns', x')
    ensures Shape(s.nodes, s.threads[t], ns', x')
  {
    var ns, x := s.nodes, s.threads[t];
    assert ThreadInv(ns, x);
    hide Inv, ThreadInv, FrameStep, Shape;
    if x.pc == Cancelling && x.stack != Empty {
      var st' :| FrameStep(ns, t, x.err, x.stack, ns', st') && x' == Moved(x, st');
      FrameShape(ns, t, x, ns', st');
    } else {
      PlainShape(ns, t, x, ns', x');
    }
  }

  lemma PlainShape(ns: seq<Node>, t: nat, x: Thread, ns': seq<Node>, x': Thread)
    requires ThreadInv(ns, x) && !(x.pc == Cancelling && x.stack != Empty) && ThreadStep(ns, t, x, ns', x')
    ensures Shape(ns, x, ns', x')
  {}

  lemma LiveBefore(ns: seq<Node>, ns': seq<Node>, c: nat)
    requires Grows(ns, ns') && |ns'| == |ns| && c < |ns|
    ensures LiveParent(ns', c) ==> LiveParent(ns, c)
    ensures ns'[c].parent == ns[c].parent && ns'[c].timed == ns[c].timed
  {
    assert Stable(ns[c], ns'[c]);
    if LiveParent(ns', c) { assert Stable(ns[ns[c].parent.value], ns'[ns[c].parent.value]); }
  }

  lemma StepKeepsMakers(s: State, t: nat, ns': seq<Node>, x': Thread)
    requires MakersInv(s) && t < |s.threads| && Shape(s.nodes, s.threads[t], ns', x') && Grows(s.nodes, ns')
    ensures MakersInv(State(ns', s.threads[t := x']))
  {
    var threads := s.threads[t := x'];
    forall u: nat | u < |threads|
      ensures MakerInv(ns', threads[u])
    {
      var y := s.threads[u];
      assert MakerInv(s.nodes, y) && MakerInv(s.nodes, s.threads[t]);
      assert Stable(s.nodes[y.root], ns'[y.root]);
      LiveBefore(s.nodes, ns', y.root);
    }
  }

  lemma StepKeepsLeave(s: State, t: nat, ns': seq<Node>, x': Thread, c: nat)
    requires MakersInv(s) && LeaveInv(s) && t < |s.threads| && Shape(s.nodes, s.threads[t], ns', x') && Grows(s.nodes, ns')
    requires c < |ns'| && ns'[c].ready && LiveParent(ns', c)
    ensures Registered(ns', c) <==> !SomeLeft(State(ns', s.threads[t := x']), c)
  {
    var ns, x, s' := s.nodes, s.threads[t], State(ns', s.threads[t := x']);
    LiveBefore(ns, ns', c);
    LiveBefore(ns, ns', x.root);
    assert MakerInv(ns, x);
    forall u: nat | u < |s.threads|
      ensures Left(ns', s'.threads[u], c) <==> Left(ns, s.threads[u], c) || (u == t && Left(ns', x', c))
    {
      var y := s.threads[u];
      assert MakerInv(ns, y);
      LiveBefore(ns, ns', y.root);
    }
    if t1: nat :| t1 < |s.threads| && Left(ns, s.threads[t1], c) {
      assert Left(ns', s'.threads[t1], c);
      assert MakerInv(ns, s.threads[t1]);
    }
    if Left(ns', x', c) { assert Left(ns', s'.threads[t], c); }
  }

  /** WithCancel and new calls: nodes and threads are added. */
  ghost predicate Adds(s: State, s': State) {
    && |s.nodes| <= |s'.nodes| && |s.threads| <= |s'.threads| <= |s.threads| + 1
    && (forall n: nat :: n < |s.nodes| ==> s'.nodes[n] == s.nodes[n].(asked := s'.nodes[n].asked))
    && (forall n: nat :: |s.nodes| <= n < |s'.nodes| ==> s'.nodes[n].ready ==> s'.nodes[n].parent == None)
    && (forall t: nat :: t < |s.threads| ==> s'.threads[t] == s.threads[t])
    && (|s'.threads| > |s.threads| ==>
          var x := s'.threads[|s.threads|];
          && MakerInv(s'.nodes, x) && x.pc != Ended && (x.propagate ==> x.root >= |s.nodes|))
  }

  lemma AddsKeeps(s: State, s': State)
    requires Inv(s) && MakersInv(s) && LeaveInv(s) && Adds(s, s')
    ensures MakersInv(s') && LeaveInv(s')
  {
    hide Inv;
    forall t: nat | t < |s'.threads|
      ensures MakerInv(s'.nodes, s'.threads[t])
    {
      if t < |s.threads| { OldMaker(s, s', t); }
    }
    forall c: nat | c < |s'.nodes| && s'.nodes[c].ready && LiveParent(s'.nodes, c)
      ensures Registered(s'.nodes, c) <==> !SomeLeft(s', c)
    {
      OldParent(s, c);
      forall t: nat | t < |s.threads|
        ensures Left(s'.nodes, s'.threads[t], c) <==> Left(s.nodes, s.threads[t], c)
      {
        assert MakerInv(s.nodes, s.threads[t]);
      }
      if t1: nat :| t1 < |s.threads| && Left(s.nodes, s.threads[t1], c) {
        assert Left(s'.nodes, s'.threads[t1], c);
      }
    }
  }

  lemma OldMaker(s: State, s': State, t: nat)
    requires Inv(s) && MakersInv(s) && Adds(s, s') && t < |s.threads|
    ensures MakerInv(s'.nodes, s'.threads[t])
  {
    var x := s.threads[t];
    assert MakerInv(s.nodes, x);
    OldParent(s, x.root);
  }

  /** A parent is a node. */
  lemma OldParent(s: State, c: nat)
    requires Inv(s)
    ensures c < |s.nodes| && s.nodes[c].parent.Some? ==> s.nodes[c].parent.value < |s.nodes|
  {
    if c < |s.nodes| { assert NodeInv(s.nodes, c); }
  }

  lemma NextKeepsLeave(s: State, s': State)
    requires Inv(s) && MakersInv(s) && LeaveInv(s) && Next(s, s')
    ensures MakersInv(s') && LeaveInv(s')
  {
    hide Inv, MakersInv, LeaveInv, ThreadStep;
    if WithCancel(s, s') || CallCancel(s, s') {
      assert Adds(s, s');
      AddsKeeps(s, s');
    } else {
      var t: nat, ns', x' :| StepOf(s, t, ns', x') && s' == State(ns', s.threads[t := x']);
      ThreadKeepsInv(s, t, ns', x');
      StepShape(s, t, ns', x');
      StepKeepsMakers(s, t, ns', x');
      ThreadKeepsLeave(s, t, ns', x');
    }
  }

  lemma ThreadKeepsLeave(s: State, t: nat, ns': seq<Node>, x': Thread)
    requires MakersInv(s) && LeaveInv(s) && t < |s.threads| && Shape(s.nodes, s.threads[t], ns', x') && Grows(s.nodes, ns')
    ensures LeaveInv(State(ns', s.threads[t := x']))
  {
    hide MakersInv, Shape, Grows, SomeLeft, Registered, LiveParent;
    forall c: nat | c < |ns'| && ns'[c].ready && LiveParent(ns', c)
      ensures Registered(ns', c) <==> !SomeLeft(State(ns', s.threads[t := x']), c)
    {
      StepKeepsLeave(s, t, ns', x', c);
    }
  }

  lemma {:induction false} RunLeave(run: seq<State>, k: nat)
    requires IsRun(run) && k < |run|
    ensures MakersInv(run[k]) && LeaveInv(run[k])
  {
    hide Next, Inv;
    if k > 0 {
      RunLeave(run, k - 1);
      RunInv(run, k - 1);
      NextKeepsLeave(run[k - 1], run[k]);
    }
  }

  /** In every reachable state, a context that has been returned is missing among
      the children of its live parent exactly if a call that leaves has ended:
      one that is to leave, of a timerCtx, or that did not find its cancelCtx
      already cancelled.  No other call takes it off. */
  lemma OffItsParentExactly(run: seq<State>, k: nat, c: nat)
    requires IsRun(run) && k < |run| && c < |run[k].nodes| && run[k].nodes[c].ready && LiveParent(run[k].nodes, c)
    ensures c !in run[k].nodes[run[k].nodes[c].parent.value].children <==>
            exists t: nat ::
              && t < |run[k].threads|
              && var x := run[k].threads[t];
                 x.root == c && !x.propagate && x.remove && x.pc == Ended && (x.won || run[k].nodes[c].timed)
  {
    hide IsRun, MakersInv;
    RunLeave(run, k);
    if SomeLeft(run[k], c) {
      var t: nat :| t < |run[k].threads| && Left(run[k].nodes, run[k].threads[t], c);
      assert run[k].threads[t].root == c;
    }
    if t: nat :| t < |run[k].threads| && var x := run[k].threads[t];
                 x.root == c && !x.propagate && x.remove && x.pc == Ended && (x.won || run[k].nodes[c].timed) {
      assert Left(run[k].nodes, run[k].threads[t], c);
    }
  }

  lemma {:induction false} EndedStays(run: seq<State>, i: nat, k: nat, t: nat)
    requires IsRun(run) && i <= k < |run| && t < |run[i].threads| && run[i].threads[t].pc == Ended
    ensures t < |run[k].threads| && run[k].threads[t] == run[i].threads[t]
    decreases k - i
  {
    hide ThreadStep, Inv;
    if i < k {
      EndedStays(run, i, k - 1, t);
      EndedStep(run[k - 1], run[k], t);
    }
  }

  lemma EndedStep(s: State, s': State, t: nat)
    requires Next(s, s') && t < |s.threads| && s.threads[t].pc == Ended
    ensures t < |s'.threads| && s'.threads[t] == s.threads[t]
  {}

  /** Once a call that leaves has ended, its context is never again among the
      children of a live parent. */
  lemma RemovedFromParent(run: seq<State>, i: nat, k: nat, t: nat)
    requires IsRun(run) && i <= k < |run| && t < |run[i].threads| && run[i].threads[t].root < |run[i].nodes|
    requires var x := run[i].threads[t];
             !x.propagate && x.remove && x.pc == Ended && (x.won || run[i].nodes[x.root].timed)
    ensures var ns, c := run[k].nodes, run[i].threads[t].root;
            c < |ns| && (LiveParent(ns, c) ==> c !in ns[ns[c].parent.value].children)
  {
    hide IsRun, Inv, Next;
    var c := run[i].threads[t].root;
    EndedStays(run, i, k, t);
    RunGrowsTo(run, i, k);
    assert Stable(run[i].nodes[c], run[k].nodes[c]);
    RunLeave(run, k);
    assert MakerInv(run[k].nodes, run[k].threads[t]);
    if LiveParent(run[k].nodes, c) { OffItsParentExactly(run, k, c); }
  }

  // ----- errors may differ -----

  function Root(lock: Option<nat>, err: Option<Error>, children: set<nat>, closed: bool, asked: set<Error>): Node {
    Node(None, false, lock, err, children, true, closed, asked)
  }

  function Child(timed: bool, lock: Option<nat>, err: Option<Error>, ready: bool, closed: bool, asked: set<Error>): Node {
    Node(Some(0), timed, lock, err, {}, ready, closed, asked)
  }

  function Making(pc: Pc): Thread { Thread(1, true, false, false, pc, Canceled, Empty, false) }

  function Canceling(root: nat, err: Error, pc: Pc, stack: Stack, won: bool): Thread {
    Thread(root, false, true, false, pc, err, stack, won)
  }

  /** How each of the runs below begins: a context and a child of it. */
  function Begun(timed: bool): seq<State> {
    [State([], []),
     State([Root(None, None, {}, false, {})], []),
     State([Root(None, None, {}, false, {}), Child(timed, None, None, false, false, {})], [Making(GetDone)]),
     State([Root(None, None, {}, false, {}), Child(timed, None, None, false, false, {})], [Making(Select)]),
     State([Root(None, None, {}, false, {}), Child(timed, None, None, false, false, {})], [Making(LockParent)]),
     State([Root(None, None, {1}, false, {}), Child(timed, None, None, true, false, {})], [Making(Ended)])]
  }

  lemma BegunIsRun(timed: bool)
    ensures IsRun(Begun(timed))
  {
    hide Next;
    CreatedFirst(timed);
    RegisteredFirst(timed);
  }

  lemma CreatedFirst(timed: bool)
    ensures var run := Begun(timed); Next(run[0], run[1]) && Next(run[1], run[2])
  {
    var run := Begun(timed);
    assert run[1] == Rooted(run[0], false);
    assert WithCancel(run[0], run[1]);
    assert run[2] == Created(run[1], 0, timed);
    assert WithCancel(run[1], run[2]);
  }

  lemma RegisteredFirst(timed: bool)
    ensures var run := Begun(timed); Next(run[2], run[3]) && Next(run[3], run[4]) && Next(run[4], run[5])
  {
    var run := Begun(timed);
    assert StepOf(run[2], 0, run[3].nodes, run[3].threads[0]);
    assert run[3] == State(run[3].nodes, run[2].threads[0 := run[3].threads[0]]);
    assert StepOf(run[3], 0, run[4].nodes, run[4].threads[0]);
    assert run[4] == State(run[4].nodes, run[3].threads[0 := run[4].threads[0]]);
    assert run[4].nodes[0].children + {1} == {1};
    assert StepOf(run[4], 0, run[5].nodes, run[5].threads[0]);
    assert run[5] == State(run[5].nodes, run[4].threads[0 := run[5].threads[0]]);
  }

  ghost predicate Steps(tail: seq<State>) { forall k :: 0 < k < |tail| ==> Next(tail[k - 1], tail[k]) }

  lemma RunThen(run: seq<State>, tail: seq<State>)
    requires IsRun(run) && |tail| > 0 && Steps(tail) && tail[0] == run[|run| - 1]
    ensures IsRun(run + tail[1..])
  {
    hide Next;
    var all := run + tail[1..];
    forall k | 0 < k < |all|
      ensures Next(all[k - 1], all[k])
    {
      if k >= |run| { assert Next(tail[k - |run|], tail[k - |run| + 1]); }
    }
  }

  /** One step of the innermost activation of thread t. */
  lemma FrameAt(s: State, t: nat, s': State)
    requires t < |s.threads| && t < |s'.threads| && s.threads[t].stack.Push? && s.threads[t].pc == Cancelling
    requires s.threads[t].root < |s.nodes| && s.threads[t].stack.top.node < |s.nodes|
    requires s' == State(s'.nodes, s.threads[t := Moved(s.threads[t], s'.threads[t].stack)])
    requires FrameStep(s.nodes, t, s.threads[t].err, s.threads[t].stack, s'.nodes, s'.threads[t].stack)
    ensures Next(s, s')
  {
    assert StepOf(s, t, s'.nodes, s'.threads[t]);
  }

  /** A child's own deadline passes, and then its parent is cancelled. */
  function DeadlineFirst(): seq<State> {
    var quiet := Root(None, None, {1}, false, {});
    var expired := Child(true, None, Some(DeadlineExceeded), true, true, {DeadlineExceeded});
    var made, left := Making(Ended), Canceling(1, DeadlineExceeded, Cancelling, Empty, true);
    var locked := Root(Some(2), Some(Canceled), {1}, false, {Canceled});
    [State([quiet, Child(true, None, None, true, false, {})], [made]),
     State([quiet, Child(true, None, None, true, false, {DeadlineExceeded})],
           [made, Canceling(1, DeadlineExceeded, Cancelling, Push(Empty, Enter(1)), false)]),
     State([quiet, Child(true, Some(1), Some(DeadlineExceeded), true, false, {DeadlineExceeded})],
           [made, Canceling(1, DeadlineExceeded, Cancelling, Push(Empty, Loop(1, {})), true)]),
     State([quiet, expired], [made, left]),
     State([Root(None, None, {1}, false, {Canceled}), expired],
           [made, left, Canceling(0, Canceled, Cancelling, Push(Empty, Enter(0)), false)]),
     State([locked, expired], [made, left, Canceling(0, Canceled, Cancelling, Push(Empty, Loop(0, {1})), true)]),
     State([locked, expired], [made, left, Canceling(0, Canceled, Cancelling, Push(Push(Empty, Loop(0, {})), Enter(1)), true)]),
     State([locked, expired], [made, left, Canceling(0, Canceled, Cancelling, Push(Empty, Loop(0, {})), true)]),
     State([Root(None, Some(Canceled), {}, true, {Canceled}), expired], [made, left, Canceling(0, Canceled, Cancelling, Empty, true)]),
     State([Root(None, Some(Canceled), {}, true, {Canceled}), expired], [made, left, Canceling(0, Canceled, Ended, Empty, true)])]
  }

  lemma Expired3()
    ensures var run := DeadlineFirst(); Next(run[0], run[1]) && Next(run[1], run[2]) && Next(run[2], run[3])
  {
    var run := DeadlineFirst();
    assert run[0].nodes[1].asked + {DeadlineExceeded} == {DeadlineExceeded};
    assert run[1] == Called(run[0], 1, DeadlineExceeded, true);
    assert CallCancel(run[0], run[1]);
    FrameAt(run[1], 1, run[2]);
    FrameAt(run[2], 1, run[3]);
  }

  lemma Canceled3()
    ensures var run := DeadlineFirst(); Next(run[3], run[4]) && Next(run[4], run[5]) && Next(run[5], run[6])
  {
    var run := DeadlineFirst();
    assert run[3].nodes[0].asked + {Canceled} == {Canceled};
    assert run[4] == Called(run[3], 0, Canceled, true);
    assert CallCancel(run[3], run[4]);
    FrameAt(run[4], 2, run[5]);
    assert {1} - {1} == {};
    FrameAt(run[5], 2, run[6]);
  }

  lemma Finished3()
    ensures var run := DeadlineFirst(); Next(run[6], run[7]) && Next(run[7], run[8]) && Next(run[8], run[9])
  {
    var run := DeadlineFirst();
    FrameAt(run[6], 2, run[7]);
    FrameAt(run[7], 2, run[8]);
    assert StepOf(run[8], 2, run[9].nodes, run[9].threads[2]);
    assert run[9] == State(run[9].nodes, run[8].threads[2 := run[9].threads[2]]);
  }

  /** A registered child of a cancelled context need not have its error. */
  lemma ErrorsMayDiffer() returns (run: seq<State>)
    ensures IsRun(run) && |run| == 15 && |run[9].nodes| == |run[14].nodes| == 2 && |run[14].threads| == 3
    ensures 1 in run[9].nodes[0].children && run[14].threads[2] == Canceling(0, Canceled, Ended, Empty, true)
    ensures run[14].nodes[0].err == Some(Canceled) && run[14].nodes[1].err == Some(DeadlineExceeded)
  {
    hide Next;
    BegunIsRun(true);
    Expired3();
    Canceled3();
    Finished3();
    assert Steps(DeadlineFirst());
    RunThen(Begun(true), DeadlineFirst());
    run := Begun(true) + DeadlineFirst()[1..];
  }

  /** The child is cancelled, and cancelled again before the first call has left
      the parent. */
  function CalledTwice(): seq<State> {
    var parent := Root(None, None, {1}, false, {});
    var canceled := Child(false, None, Some(Canceled), true, true, {Canceled});
    var made, first := Making(Ended), Canceling(1, Canceled, Cancelling, Empty, true);
    [State([parent, Child(false, None, None, true, false, {})], [made]),
     State([parent, Child(false, None, None, true, false, {Canceled})],
           [made, Canceling(1, Canceled, Cancelling, Push(Empty, Enter(1)), false)]),
     State([parent, Child(false, Some(1), Some(Canceled), true, false, {Canceled})],
           [made, Canceling(1, Canceled, Cancelling, Push(Empty, Loop(1, {})), true)]),
     State([parent, canceled], [made, first]),
     State([parent, canceled], [made, first, Canceling(1, Canceled, Cancelling, Push(Empty, Enter(1)), false)]),
     State([parent, canceled], [made, first, Canceling(1, Canceled, Cancelling, Empty, false)]),
     State([parent, canceled], [made, first, Canceling(1, Canceled, Ended, Empty, false)])]
  }

  lemma FirstCall()
    ensures var run := CalledTwice(); Next(run[0], run[1]) && Next(run[1], run[2]) && Next(run[2], run[3])
  {
    var run := CalledTwice();
    assert run[0].nodes[1].asked + {Canceled} == {Canceled};
    assert run[1] == Called(run[0], 1, Canceled, true);
    assert CallCancel(run[0], run[1]);
    FrameAt(run[1], 1, run[2]);
    FrameAt(run[2], 1, run[3]);
  }

  lemma SecondCall()
    ensures var run := CalledTwice(); Next(run[3], run[4]) && Next(run[4], run[5]) && Next(run[5], run[6])
  {
    var run := CalledTwice();
    assert run[3].nodes[1].asked + {Canceled} == {Canceled};
    assert run[4] == Called(run[3], 1, Canceled, true);
    assert CallCancel(run[3], run[4]);
    FrameAt(run[4], 2, run[5]);
    assert StepOf(run[5], 2, run[6].nodes, run[6].threads[2]);
    assert run[6] == State(run[6].nodes, run[5].threads[2 := run[6].threads[2]]);
  }

  /** A CancelFunc may return while its context is still registered with a live
      parent: another call of it is still on the way to leave. */
  lemma LateCallLeavesNothing() returns (run: seq<State>)
    ensures IsRun(run) && |run| == 12 && |run[11].nodes| == 2 && |run[11].threads| == 3
    ensures run[11].threads[2] == Canceling(1, Canceled, Ended, Empty, false) && run[11].threads[2].remove
    ensures run[11].nodes[0].err == None && 1 in run[11].nodes[0].children
  {
    hide Next;
    BegunIsRun(false);
    FirstCall();
    SecondCall();
    assert Steps(CalledTwice());
    RunThen(Begun(false), CalledTwice());
    run := Begun(false) + CalledTwice()[1..];
  }
}
