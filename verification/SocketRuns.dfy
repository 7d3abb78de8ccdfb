/** Whole runs of one socket: both halves, interleaved in any order. A run is one connection epoch: the
    service is running, the socket is open, and nobody resets it. */
module SocketRuns {
  import opened Framing
  import opened SocketModel
  import opened SendInvariants
  import opened ReceiveInvariants

  datatype Socket = Socket(tx: Tx, rx: Rx)

  datatype Step = TxMove(t: TxStep) | RxMove(r: RxStep)

  predicate Enabled(s: Socket, step: Step) {
    match step
    case TxMove(t) => TxEnabled(s.tx, t)
    case RxMove(r) => RxEnabled(s.rx, s.tx.posting, r)
  }

  /** The halves move on their own, except that the handler of timer 2, once nothing is left to post, goes on
      to dispatch. */
  function Apply(s: Socket, step: Step): (s': Socket)
    requires Enabled(s, step)
  {
    match step
    case TxMove(t) =>
      var tx := TxApply(s.tx, t);
      Socket(tx, if t.Timer2Fire? && tx.post == [] then s.rx.(wakers := s.rx.wakers + 1) else s.rx)
    case RxMove(r) => Socket(s.tx, RxApply(s.rx, s.tx.posting, r))
  }

  function Init(forced: bool): (s: Socket) {
    Socket(TxInit, RxInit(forced))
  }

  ghost predicate SocketInv(s: Socket) {
    TxInv(s.tx) && RxInv(s.rx, s.tx.posting)
  }

  lemma PostingStarts(rx: Rx)
    requires RxInv(rx, false)
    ensures RxInv(rx, true)
  {
  }

  /** Only the handler of timer 2 ends posting. */
  lemma PostingStays(tx: Tx, t: TxStep)
    requires tx.posting && TxEnabled(tx, t) && !t.Timer2Fire?
    ensures TxApply(tx, t).posting
  {
    if Sends(tx, t) {
      SendShape(tx, t);
    }
  }

  lemma Timer2Shape(s: Socket)
    requires s.tx.timer2 == Armed
    ensures var tx := Timer2Fires(s.tx, false);
            Apply(s, TxMove(Timer2Fire)) == Socket(tx, if tx.posting then s.rx else s.rx.(wakers := s.rx.wakers + 1))
  {
  }

  lemma Timer2MoveKeeps(s: Socket)
    requires SocketInv(s) && s.tx.timer2 == Armed
    ensures SocketInv(Apply(s, TxMove(Timer2Fire)))
  {
    Timer2Shape(s);
    Timer2Keeps(s.tx);
    JoinKeeps(s.rx, Timer2Fires(s.tx, false), Apply(s, TxMove(Timer2Fire)));
  }

  lemma JoinKeeps(rx: Rx, tx: Tx, s: Socket)
    requires RxInv(rx, true) && TxInv(tx)
    requires s == Socket(tx, if tx.posting then rx else rx.(wakers := rx.wakers + 1))
    ensures SocketInv(s)
  {
    if !tx.posting {
      PostingEnds(rx);
    }
  }

  lemma TxMoveKeeps(s: Socket, t: TxStep)
    requires SocketInv(s) && TxEnabled(s.tx, t) && !t.Timer2Fire?
    ensures SocketInv(Apply(s, TxMove(t)))
  {
    TxStepKeeps(s.tx, t);
    if s.tx.posting {
      PostingStays(s.tx, t);
    } else {
      PostingStarts(s.rx);
    }
    assert RxInv(s.rx, TxApply(s.tx, t).posting);
  }

  lemma StepKeeps(s: Socket, step: Step)
    requires SocketInv(s) && Enabled(s, step)
    ensures SocketInv(Apply(s, step))
  {
    match step
    case TxMove(t) =>
      if t.Timer2Fire? {
        Timer2MoveKeeps(s);
      } else {
        TxMoveKeeps(s, t);
      }
    case RxMove(r) => RxStepKeeps(s.rx, s.tx.posting, r);
  }

  /** A run; a step that is not enabled changes nothing, so that every list of steps is a run. */
  function Run(s: Socket, steps: seq<Step>): (s': Socket)
    decreases |steps|
  {
    if steps == [] then s
    else
      var before, step := Run(s, steps[..|steps| - 1]), steps[|steps| - 1];
      if Enabled(before, step) then Apply(before, step) else before
  }

  /** In every state of every run: messages are conserved, in order where order is promised, the buffers are
      bounded, and no wake-up is lost. */
  lemma {:induction false} SocketAlways(forced: bool, steps: seq<Step>)
    ensures SocketInv(Run(Init(forced), steps))
    decreases |steps|
  {
    if steps != [] {
      var prefix, step := steps[..|steps| - 1], steps[|steps| - 1];
      SocketAlways(forced, prefix);
      if Enabled(Run(Init(forced), prefix), step) {
        StepKeeps(Run(Init(forced), prefix), step);
      }
    }
  }

  /** If no read yields more than `limit` messages, no more than that wait outside the receive buffer. */
  lemma {:induction false} WaitingAlways(forced: bool, steps: seq<Step>, limit: nat)
    requires forall s :: s in steps && s.RxMove? && s.r.ReadCompletes? ==> |s.r.msgs| <= limit
    ensures |Run(Init(forced), steps).rx.temp| <= limit
    decreases |steps|
  {
    if steps != [] {
      var prefix, step := steps[..|steps| - 1], steps[|steps| - 1];
      var before := Run(Init(forced), prefix);
      WaitingAlways(forced, prefix, limit);
      SocketAlways(forced, prefix);
      if Enabled(before, step) && step.RxMove? {
        WaitingBound(before.rx, before.tx.posting, step.r, limit);
      }
    }
  }

  /** Nothing is pending: no timer is armed, no handler is queued, no write is outstanding, no call is under
      way; at most a read waits for bytes. */
  predicate Idle(s: Socket) {
    && s.tx.timer2 == Off && s.tx.writes == [] && s.tx.wakers == 0
    && s.rx.chain == Reading && !s.rx.dispatching && !s.rx.timer1 && !s.rx.timer3 && s.rx.wakers == 0
  }

  /** A socket cannot fall asleep on messages: when it is idle, everything parsed has been handled, nothing
      waits to be posted, and, unless sending is disallowed or a write has failed, nothing waits to be sent. */
  lemma IdleMeansDone(forced: bool, steps: seq<Step>)
    requires Idle(Run(Init(forced), steps))
    ensures var s := Run(Init(forced), steps);
            && s.rx.recv == [] && s.rx.temp == []
            && multiset(s.rx.handled) == multiset(s.rx.parsed)
            && (s.rx.forced ==> s.rx.handled == s.rx.parsed)
            && s.tx.post == [] && s.tx.posted == ViaPost(s.tx.entered)
            && (Allowed(s.tx) && !s.tx.failed ==>
                  s.tx.send == [] && multiset(s.tx.finished) == multiset(Msgs(s.tx.entered)))
  {
    SocketAlways(forced, steps);
    IdleState(Run(Init(forced), steps));
  }

  lemma IdleState(s: Socket)
    requires SocketInv(s) && Idle(s)
    ensures s.rx.recv == [] && s.rx.temp == [] && multiset(s.rx.handled) == multiset(s.rx.parsed)
    ensures s.rx.forced ==> s.rx.handled == s.rx.parsed
    ensures s.tx.post == [] && s.tx.posted == ViaPost(s.tx.entered)
    ensures Allowed(s.tx) && !s.tx.failed ==> s.tx.send == [] && multiset(s.tx.finished) == multiset(Msgs(s.tx.entered))
  {
    var rx := s.rx;
    assert rx.recv == [] && rx.temp == [];
    assert rx.handled + ([] + ([] + [])) == rx.handled;
    assert ViaPost(s.tx.entered) + [] == ViaPost(s.tx.entered);
  }

  // ---------------------------------------------------------------- what a run amounts to

  /** The messages that the user takes, in the order in which he takes them. */
  function Taken(forced: bool, steps: seq<Step>): (ms: seq<Bytes>) {
    if steps == [] then []
    else
      var front, step := steps[..|steps| - 1], steps[|steps| - 1];
      var s := Run(Init(forced), front);
      Taken(forced, front) + if step.RxMove? && Enabled(s, step) then TakenBy(s.rx, step.r) else []
  }

  /** What the reads yield. */
  function Reads(forced: bool, steps: seq<Step>): (ms: seq<Bytes>) {
    if steps == [] then []
    else
      var front, step := steps[..|steps| - 1], steps[|steps| - 1];
      Reads(forced, front) + if step.RxMove? && Enabled(Run(Init(forced), front), step) then ReadBy(step.r) else []
  }

  /** What counts as handled is what the user took, one message for each time he took one; with the forced receive
      buffer that is what the reads yielded, in order and as far as it goes; without it, nothing else. */
  lemma {:induction false} AnswersCount(forced: bool, steps: seq<Step>)
    ensures var rx := Run(Init(forced), steps).rx;
            && rx.handled == Taken(forced, steps) && rx.parsed == Reads(forced, steps)
            && (forced ==> Taken(forced, steps) <= Reads(forced, steps))
            && multiset(Taken(forced, steps)) <= multiset(Reads(forced, steps))
    decreases |steps|
  {
    RunHistory(forced, steps);
    SocketAlways(forced, steps);
    RunForced(forced, steps);
    var rx := Run(Init(forced), steps).rx;
    assert rx.handled <= Line(rx);
  }

  lemma {:induction false} RunHistory(forced: bool, steps: seq<Step>)
    ensures var rx := Run(Init(forced), steps).rx;
            rx.handled == Taken(forced, steps) && rx.parsed == Reads(forced, steps)
    decreases |steps|
  {
    if steps != [] {
      var front, step := steps[..|steps| - 1], steps[|steps| - 1];
      RunHistory(forced, front);
      var s := Run(Init(forced), front);
      if Enabled(s, step) && step.RxMove? {
        AnswerStep(s.rx, s.tx.posting, step.r);
      }
    }
  }

  lemma {:induction false} RunForced(forced: bool, steps: seq<Step>)
    ensures Run(Init(forced), steps).rx.forced == forced
    decreases |steps|
  {
    if steps != [] {
      var front, step := steps[..|steps| - 1], steps[|steps| - 1];
      RunForced(forced, front);
      var s := Run(Init(forced), front);
      if Enabled(s, step) && step.RxMove? {
        ForcedStep(s.rx, s.tx.posting, step.r);
      }
    }
  }

  /** Suspending works: with nothing being dispatched, no message is given to the user until dispatching is
      resumed. */
  lemma {:induction false} SuspendedStays(s: Socket, steps: seq<Step>)
    requires s.rx.suspendDispatch && !s.rx.dispatching && RxMove(SuspendDispatchCall(false)) !in steps
    ensures var s' := Run(s, steps); s'.rx.suspendDispatch && !s'.rx.dispatching && s'.rx.handled == s.rx.handled
    decreases |steps|
  {
    if steps != [] {
      var front, step := steps[..|steps| - 1], steps[|steps| - 1];
      SuspendedStays(s, front);
      if Enabled(Run(s, front), step) && step.RxMove? {
        QuietStep(Run(s, front).rx, Run(s, front).tx.posting, step.r);
      }
    }
  }

  /** Posting comes first: with nothing being dispatched, no message is given to the user until the handler of
      timer 2 has posted everything. */
  lemma {:induction false} PostingFirst(s: Socket, steps: seq<Step>)
    requires s.tx.posting && !s.rx.dispatching && !s.rx.suspendDispatch && TxMove(Timer2Fire) !in steps
    requires forall b :: RxMove(SuspendDispatchCall(b)) !in steps
    ensures var s' := Run(s, steps);
            s'.tx.posting && !s'.rx.dispatching && !s'.rx.suspendDispatch && s'.rx.handled == s.rx.handled
    decreases |steps|
  {
    if steps != [] {
      var front, step := steps[..|steps| - 1], steps[|steps| - 1];
      PostingFirst(s, front);
      var t := Run(s, front);
      assert step in steps;
      if Enabled(t, step) {
        match step
        case TxMove(x) => PostingStays(t.tx, x);
        case RxMove(r) => QuietStep(t.rx, true, r);
      }
    }
  }
}
