/** What every step of the receiving half keeps. */
module ReceiveInvariants {
  import opened Framing
  import opened SocketModel

  datatype RxStep =
    | ReadCompletes(msgs: seq<Bytes>)    // a read completed and was parsed
    | ReadFails
    | DispatchTemp                       // with the forced receive buffer
    | ScanTurn(taken: bool)              // without: one turn of the loop; the user takes the message or not
    | ScanDone
    | Timer0Fire
    | Timer1Fire
    | Timer3Fire
    | HandlerReturns(re: bool)
    | SuspendDispatchCall(suspend: bool)
    | WakeUp

  predicate RxEnabled(rx: Rx, posting: bool, step: RxStep) {
    match step
    case ReadCompletes(_) => rx.chain == Reading
    case ReadFails => rx.chain == Reading
    case DispatchTemp => rx.chain == Dispatching
    case ScanTurn(_) => ScanGoesOn(rx, Env(posting, false, true))
    case ScanDone => rx.chain.Scanning? && !ScanGoesOn(rx, Env(posting, false, true))
    case Timer0Fire => rx.chain == Parked
    case Timer1Fire => rx.timer1
    case Timer3Fire => rx.timer3
    case HandlerReturns(_) => rx.dispatching
    case SuspendDispatchCall(_) => true
    case WakeUp => rx.wakers > 0
  }

  function RxApply(rx: Rx, posting: bool, step: RxStep): (rx': Rx)
    requires RxEnabled(rx, posting, step)
  {
    var env := Env(posting, false, true);
    match step
    case ReadCompletes(msgs) => Received(rx, msgs)
    case ReadFails => rx.(chain := Ended)
    case DispatchTemp => Dispatch(rx, env)
    case ScanTurn(taken) => ScanOne(rx, taken)
    case ScanDone => ScanEnd(rx, env)
    case Timer0Fire => StartDispatch(rx)
    case Timer1Fire => rx.(timer1 := false, wakers := rx.wakers + 1)
    case Timer3Fire => rx.(timer3 := false, wakers := rx.wakers + 1)
    case HandlerReturns(re) => Handled(rx, re, env)
    case SuspendDispatchCall(b) => SuspendDispatch(rx, b)
    case WakeUp => Wake(rx, env)
  }

  function RxInit(forced: bool): (rx: Rx) {
    Rx(forced, [], [], [], false, false, false, false, 0, Reading, [], [])
  }

  // ---------------------------------------------------------------- in every state

  /** Everything that was parsed, in the order in which it will have been handled. */
  function Line(rx: Rx): (s: seq<Bytes>) {
    rx.handled + (InHand(rx) + (rx.recv + rx.temp))
  }

  /** Exactly once and, with the forced receive buffer, in order. */
  ghost predicate Ordered(rx: Rx) {
    rx.forced ==> Line(rx) == rx.parsed
  }

  ghost predicate NothingLost(rx: Rx) {
    multiset(rx.handled) + multiset(InHand(rx)) + multiset(rx.recv) + multiset(rx.temp) == multiset(rx.parsed)
  }

  /** Back-pressure: the receive buffer holds at most one message too many, and then nothing is being
      dispatched; and nobody reads while messages wait outside the buffer. */
  ghost predicate Bounded(rx: Rx) {
    && |rx.recv| + |InHand(rx)| <= MAX_MSG_NUM + 1
    && (rx.chain == Reading ==> rx.temp == [])
    && (rx.chain == Dispatching ==> rx.forced) && (rx.chain.Scanning? ==> !rx.forced && rx.chain.at <= |rx.temp|)
  }

  /** No lost wake-up: messages in the receive buffer with no dispatch in progress mean that something is
      going to come back to them. */
  ghost predicate Watched(rx: Rx, posting: bool) {
    rx.recv != [] && !rx.dispatching ==>
      || (rx.suspendDispatch && rx.timer1)
      || posting
      || rx.timer3
      || rx.wakers > 0
      || (rx.chain.Scanning? && rx.chain.dispatch)
  }

  /** What does not depend on who is watching. */
  ghost predicate Kept(rx: Rx) {
    Ordered(rx) && NothingLost(rx) && Bounded(rx)
  }

  ghost predicate RxInv(rx: Rx, posting: bool) {
    Kept(rx) && Watched(rx, posting)
  }

  lemma First(s: seq<Bytes>, t: seq<Bytes>)
    requires s != []
    ensures [s[0]] + (s[1..] + t) == s + t
    ensures multiset([s[0]]) + multiset(s[1..]) == multiset(s)
  {
    assert s == [s[0]] + s[1..];
    Associative([s[0]], s[1..], t);
  }

  /** The first message of the buffer goes to the handler. */
  function Pop(rx: Rx): (rx': Rx)
    requires rx.recv != []
  {
    rx.(dispatching := true, lastDispatch := rx.recv[0], recv := rx.recv[1..])
  }

  lemma PopKeeps(rx: Rx)
    requires Kept(rx) && rx.recv != [] && !rx.dispatching
    ensures Kept(Pop(rx))
  {
    First(rx.recv, rx.temp);
    var tail := rx.recv + rx.temp;
    assert [] + tail == tail;
    assert InHand(Pop(rx)) == [rx.recv[0]];
    assert multiset(InHand(rx)) == multiset{};
  }

  lemma TimerKeeps(rx: Rx)
    requires Kept(rx)
    ensures Kept(rx.(timer1 := true))
  {
  }

  /** Trying to dispatch moves at most one message, from the buffer to the handler; and whatever was the
      case before, the buffer is watched afterwards. */
  lemma DoDispatchShape(rx: Rx, posting: bool)
    ensures var rx' := DoDispatch(rx, Env(posting, false, true));
            && (rx' == rx || rx' == rx.(timer1 := true) || (rx.recv != [] && !rx.dispatching && rx' == Pop(rx)))
            && Watched(rx', posting)
  {
  }

  lemma DoDispatchKeeps(rx: Rx, posting: bool)
    requires Kept(rx)
    ensures RxInv(DoDispatch(rx, Env(posting, false, true)), posting)
  {
    DoDispatchShape(rx, posting);
    TimerKeeps(rx);
    if rx.recv != [] && !rx.dispatching {
      PopKeeps(rx);
    }
  }

  lemma MoveKeeps(rx: Rx, n: nat)
    requires Kept(rx) && n == Movable(rx.recv, rx.temp) && rx.chain == Dispatching
    ensures Kept(rx.(recv := rx.recv + rx.temp[..n], temp := rx.temp[n..]))
  {
    var moved, left := rx.temp[..n], rx.temp[n..];
    assert moved + left == rx.temp;
    Associative(rx.recv, moved, left);
  }

  /** Whoever continues the chain changes nothing else. */
  lemma ContinueKeeps(rx: Rx, posting: bool)
    requires RxInv(rx, posting) && (rx.chain.Scanning? ==> !rx.chain.dispatch)
    ensures RxInv(Continue(rx), posting)
  {
  }

  lemma DispatchKeeps(rx: Rx, posting: bool)
    requires RxInv(rx, posting) && rx.chain == Dispatching
    ensures RxInv(Dispatch(rx, Env(posting, false, true)), posting)
  {
    var n := Movable(rx.recv, rx.temp);
    MoveKeeps(rx, n);
    var moved := rx.(recv := rx.recv + rx.temp[..n], temp := rx.temp[n..]);
    var next := if n > 0 then DoDispatch(moved, Env(posting, false, true)) else moved;
    assert RxInv(next, posting) && next.chain == Dispatching by {
      if n > 0 {
        DoDispatchKeeps(moved, posting);
        DoDispatchShape(moved, posting);
      } else {
        assert moved.recv == rx.recv;
      }
    }
    ContinueKeeps(next, posting);
  }

  lemma ReceivedKeeps(rx: Rx, posting: bool, msgs: seq<Bytes>)
    requires RxInv(rx, posting) && rx.chain == Reading
    ensures RxInv(Received(rx, msgs), posting)
  {
    assert rx.temp == [] && [] + msgs == msgs;
    assert rx.recv + [] == rx.recv;
    Associative(rx.handled, InHand(rx) + rx.recv, msgs);
    Associative(InHand(rx), rx.recv, msgs);
  }

  lemma RemoveAt(s: seq<Bytes>, i: nat)
    requires i < |s|
    ensures multiset(s[..i] + s[i + 1..]) + multiset([s[i]]) == multiset(s)
  {
    assert s == s[..i] + [s[i]] + s[i + 1..];
  }

  lemma ScanTakenKeeps(rx: Rx, i: nat)
    requires Kept(rx) && !rx.forced && i < |rx.temp|
    requires rx.chain.Scanning? && rx.chain.at == i
    ensures Kept(rx.(temp := rx.temp[..i] + rx.temp[i + 1..], handled := rx.handled + [rx.temp[i]]))
  {
    RemoveAt(rx.temp, i);
    assert multiset(rx.handled + [rx.temp[i]]) == multiset(rx.handled) + multiset([rx.temp[i]]);
  }

  lemma ScanMovedKeeps(rx: Rx, i: nat)
    requires Kept(rx) && !rx.forced && i < |rx.temp| && |rx.recv| < MAX_MSG_NUM
    requires rx.chain.Scanning? && rx.chain.at == i
    ensures Kept(rx.(temp := rx.temp[..i] + rx.temp[i + 1..], recv := rx.recv + [rx.temp[i]],
                     chain := rx.chain.(dispatch := true)))
  {
    RemoveAt(rx.temp, i);
    assert multiset(rx.recv + [rx.temp[i]]) == multiset(rx.recv) + multiset([rx.temp[i]]);
  }

  lemma ScanTurnKeeps(rx: Rx, posting: bool, taken: bool)
    requires RxInv(rx, posting) && rx.chain.Scanning? && rx.chain.at < |rx.temp|
    ensures RxInv(ScanOne(rx, taken), posting)
  {
    ScanTurnKept(rx, taken);
    ScanTurnWatched(rx, posting, taken);
  }

  lemma ScanTurnWatched(rx: Rx, posting: bool, taken: bool)
    requires Watched(rx, posting) && rx.chain.Scanning? && rx.chain.at < |rx.temp|
    ensures Watched(ScanOne(rx, taken), posting)
  {
  }

  lemma ScanTurnKept(rx: Rx, taken: bool)
    requires Kept(rx) && rx.chain.Scanning? && rx.chain.at < |rx.temp|
    ensures Kept(ScanOne(rx, taken))
  {
    if taken {
      ScanTakenKeeps(rx, rx.chain.at);
    } else if |rx.recv| < MAX_MSG_NUM {
      ScanMovedKeeps(rx, rx.chain.at);
    }
  }

  lemma ScanDoneKeeps(rx: Rx, posting: bool)
    requires RxInv(rx, posting) && rx.chain.Scanning?
    ensures RxInv(ScanEnd(rx, Env(posting, false, true)), posting)
  {
    if rx.chain.dispatch {
      DoDispatchKeeps(rx, posting);
      DoDispatchShape(rx, posting);
      DispatchedAside(rx, posting);
    } else {
      ContinueKeeps(rx, posting);
    }
  }

  /** After an attempt to dispatch, ending the scan leaves the buffer watched without the scan. */
  lemma DispatchedAside(rx: Rx, posting: bool)
    requires RxInv(DoDispatch(rx, Env(posting, false, true)), posting) && rx.chain.Scanning?
    ensures RxInv(Continue(DoDispatch(rx, Env(posting, false, true))), posting)
  {
  }

  /** The handler's message goes to the user, or back to the front of the buffer. */
  lemma GiveBackKeeps(rx: Rx, re: bool)
    requires Kept(rx) && rx.dispatching
    ensures var m, idle := rx.lastDispatch, rx.(dispatching := false);
            Kept(if re then idle.(handled := idle.handled + [m]) else idle.(recv := [m] + idle.recv))
  {
    var m, tail := rx.lastDispatch, rx.recv + rx.temp;
    if re {
      Associative(rx.handled, [m], tail);
      assert [] + tail == tail;
    } else {
      Associative([m], rx.recv, rx.temp);
      assert [] + ([m] + rx.recv + rx.temp) == [m] + rx.recv + rx.temp;
      assert multiset([m] + rx.recv) == multiset([m]) + multiset(rx.recv);
    }
  }

  lemma ClearLastKeeps(rx: Rx, posting: bool)
    requires RxInv(rx, posting) && !rx.dispatching
    ensures RxInv(rx.(lastDispatch := []), posting)
  {
  }

  lemma AcceptedKeeps(rx: Rx, posting: bool)
    requires RxInv(rx, posting) && rx.dispatching
    ensures RxInv(Handled(rx, true, Env(posting, false, true)), posting)
  {
    var done := rx.(dispatching := false, handled := rx.handled + [rx.lastDispatch]);
    var next := DoDispatch(done, Env(posting, false, true));
    GiveBackKeeps(rx, true);
    DoDispatchKeeps(done, posting);
    if !next.dispatching {
      ClearLastKeeps(next, posting);
    }
  }

  lemma HandledKeeps(rx: Rx, posting: bool, re: bool)
    requires RxInv(rx, posting) && rx.dispatching
    ensures RxInv(Handled(rx, re, Env(posting, false, true)), posting)
  {
    if re {
      AcceptedKeeps(rx, posting);
    } else {
      GiveBackKeeps(rx, false);
      FlagsAside(rx.(dispatching := false, recv := [rx.lastDispatch] + rx.recv), posting);
    }
  }

  lemma FlagsAside(rx: Rx, posting: bool)
    requires Kept(rx) && !rx.dispatching
    ensures RxInv(rx.(lastDispatch := [], timer3 := true), posting)
  {
  }

  lemma WakeKeeps(rx: Rx, posting: bool)
    requires RxInv(rx, posting) && rx.wakers > 0
    ensures RxInv(Wake(rx, Env(posting, false, true)), posting)
  {
    DoDispatchKeeps(rx.(wakers := rx.wakers - 1), posting);
  }

  /** Timers that fire and the suspension switch leave a call behind that will look at the buffer. */
  lemma SignalKeeps(rx: Rx, posting: bool, timer1: bool, timer3: bool, suspend: bool)
    requires RxInv(rx, posting)
    ensures RxInv(rx.(timer1 := timer1, timer3 := timer3, suspendDispatch := suspend, wakers := rx.wakers + 1), posting)
  {
  }

  lemma ChainKeeps(rx: Rx, posting: bool, step: RxStep)
    requires RxInv(rx, posting) && RxEnabled(rx, posting, step) && (step.ReadFails? || step.Timer0Fire?)
    ensures RxInv(RxApply(rx, posting, step), posting)
  {
  }

  lemma RxStepKeeps(rx: Rx, posting: bool, step: RxStep)
    requires RxInv(rx, posting) && RxEnabled(rx, posting, step)
    ensures RxInv(RxApply(rx, posting, step), posting)
  {
    match step
    case ReadCompletes(msgs) => ReceivedKeeps(rx, posting, msgs);
    case ReadFails => ChainKeeps(rx, posting, step);
    case DispatchTemp => DispatchKeeps(rx, posting);
    case ScanTurn(taken) => ScanTurnKeeps(rx, posting, taken);
    case ScanDone => ScanDoneKeeps(rx, posting);
    case Timer0Fire => ChainKeeps(rx, posting, step);
    case Timer1Fire => SignalKeeps(rx, posting, false, rx.timer3, rx.suspendDispatch);
    case Timer3Fire => SignalKeeps(rx, posting, rx.timer1, false, rx.suspendDispatch);
    case HandlerReturns(re) => HandledKeeps(rx, posting, re);
    case SuspendDispatchCall(b) => SignalKeeps(rx, posting, false, rx.timer3, b);
    case WakeUp => WakeKeeps(rx, posting);
  }

  /** As nobody reads while messages wait outside the buffer, no more wait there than one read has yielded. */
  lemma WaitingBound(rx: Rx, posting: bool, step: RxStep, limit: nat)
    requires Bounded(rx) && RxEnabled(rx, posting, step) && |rx.temp| <= limit
    requires step.ReadCompletes? ==> |step.msgs| <= limit
    ensures |RxApply(rx, posting, step).temp| <= limit
  {
    if step.ReadCompletes? {
      assert rx.temp + step.msgs == step.msgs;
    }
  }

  /** The end of posting is watched too: the handler of timer 2 goes on to dispatch. */
  lemma PostingEnds(rx: Rx)
    requires RxInv(rx, true)
    ensures RxInv(rx.(wakers := rx.wakers + 1), false)
  {
  }

  /** Without the forced receive buffer messages can overtake each other: the user may decline one and take
      the next one at once. */
  lemma OvertakingWithoutForcedBuffer(a: Bytes, b: Bytes)
    requires a != b
    ensures exists steps: seq<RxStep> :: |steps| == 3 &&
              var rx1 := RxInit(false);
              RxEnabled(rx1, false, steps[0]) &&
              var rx2 := RxApply(rx1, false, steps[0]);
              RxEnabled(rx2, false, steps[1]) &&
              var rx3 := RxApply(rx2, false, steps[1]);
              RxEnabled(rx3, false, steps[2]) &&
              var rx4 := RxApply(rx3, false, steps[2]);
              rx4.parsed == [a, b] && rx4.handled == [b]
  {
    var steps := [ReadCompletes([a, b]), ScanTurn(false), ScanTurn(true)];
    var rx2 := RxApply(RxInit(false), false, steps[0]);
    assert rx2.temp == [a, b] && rx2.parsed == [a, b];
    var rx3 := RxApply(rx2, false, steps[1]);
    assert rx3.temp == [b];
    var rx4 := RxApply(rx3, false, steps[2]);
    assert rx4.handled == [b];
  }

  lemma {:induction false} Rotates(q: seq<Bytes>, m: Bytes)
    requires [m] + q == q + [m]
    ensures forall k :: 0 <= k < |q| ==> q[k] == m
  {
    if q != [] {
      assert q[0] == (q + [m])[0] == ([m] + q)[0] == m;
      assert [m] + q[1..] == (q + [m])[1..] == q[1..] + [m] by {
        assert ([m] + q)[1..] == q == [m] + q[1..];
      }
      Rotates(q[1..], m);
      assert q == [m] + q[1..];
    }
  }

  /** Exactly when taking a message at once keeps the order: if all messages ahead of it are equal to it, and
      so in particular if there are none. */
  lemma OrderWithoutForcedBuffer(rx: Rx)
    requires !rx.forced && rx.chain.Scanning? && rx.chain.at < |rx.temp| && Line(rx) == rx.parsed
    ensures var i := rx.chain.at; var ahead := InHand(rx) + (rx.recv + rx.temp[..i]);
            Line(ScanOne(rx, true)) == rx.parsed <==> forall k :: 0 <= k < |ahead| ==> ahead[k] == rx.temp[i]
  {
    var i := rx.chain.at;
    var ahead := InHand(rx) + (rx.recv + rx.temp[..i]);
    LineAhead(rx.handled, InHand(rx), rx.recv, rx.temp, i);
    LineTaken(rx.handled, InHand(rx), rx.recv, rx.temp, i);
    Swapped(rx.handled, rx.temp[i], ahead, rx.temp[i + 1..]);
  }

  lemma Swapped(h: seq<Bytes>, m: Bytes, ahead: seq<Bytes>, left: seq<Bytes>)
    ensures h + (([m] + ahead) + left) == h + ((ahead + [m]) + left) <==> forall k :: 0 <= k < |ahead| ==> ahead[k] == m
  {
    if forall k :: 0 <= k < |ahead| ==> ahead[k] == m {
      assert [m] + ahead == ahead + [m];
    }
    if h + (([m] + ahead) + left) == h + ((ahead + [m]) + left) {
      Middle(h, [m] + ahead, left);
      Middle(h, ahead + [m], left);
      Rotates(ahead, m);
    }
  }

  lemma Middle(h: seq<Bytes>, x: seq<Bytes>, left: seq<Bytes>)
    ensures (h + (x + left))[|h|..|h| + |x|] == x
  {
  }

  lemma LineAhead(h: seq<Bytes>, d: seq<Bytes>, r: seq<Bytes>, t: seq<Bytes>, i: nat)
    requires i < |t|
    ensures h + (d + (r + t)) == h + ((d + (r + t[..i]) + [t[i]]) + t[i + 1..])
  {
    assert t == t[..i] + [t[i]] + t[i + 1..];
  }

  lemma LineTaken(h: seq<Bytes>, d: seq<Bytes>, r: seq<Bytes>, t: seq<Bytes>, i: nat)
    requires i < |t|
    ensures (h + [t[i]]) + (d + (r + (t[..i] + t[i + 1..]))) == h + (([t[i]] + (d + (r + t[..i]))) + t[i + 1..])
  {
  }

  /** When the link is down or the service has stopped, an attempt to dispatch hands over all that is left, once
      and in order, unless a message is just being dispatched. Then a closed socket leaves everything to the end of
      that dispatch; a stopped service hands over the rest without it, and that message is the only one lost,
      for its handler is left in the stopped service. */
  lemma LinkDownDrains(rx: Rx, stopped: bool, open: bool)
    requires Ordered(rx) && rx.forced && !rx.suspendDispatch && (stopped || !open)
    ensures var rx' := DoDispatch(rx, Env(false, stopped, open));
            if rx.dispatching && !stopped then rx' == rx
            else
              && rx'.recv == [] && rx'.temp == [] && !rx'.dispatching
              && rx'.handled == rx.handled + (rx.recv + rx.temp)
              && rx.parsed == rx.handled + (InHand(rx) + (rx.recv + rx.temp))
              && (rx'.handled == rx.parsed <==> !rx.dispatching)
  {
    assert [] + (rx.recv + rx.temp) == rx.recv + rx.temp;
  }

  // ---------------------------------------------------------------- what answers, reads and suspension amount to

  /** The message that the user takes in this step. */
  function TakenBy(rx: Rx, step: RxStep): (ms: seq<Bytes>) {
    match step
    case HandlerReturns(re) => if re then [rx.lastDispatch] else []
    case ScanTurn(taken) =>
      if taken && rx.chain.Scanning? && rx.chain.at < |rx.temp| then [rx.temp[rx.chain.at]] else []
    case _ => []
  }

  function ReadBy(step: RxStep): (ms: seq<Bytes>) {
    if step.ReadCompletes? then step.msgs else []
  }

  /** A message counts as handled when the user takes it, and only then; as parsed when a read yields it. */
  lemma AnswerStep(rx: Rx, posting: bool, step: RxStep)
    requires RxEnabled(rx, posting, step)
    ensures RxApply(rx, posting, step).handled == rx.handled + TakenBy(rx, step)
    ensures RxApply(rx, posting, step).parsed == rx.parsed + ReadBy(step)
  {
    match step
    case HandlerReturns(re) => HandlerTakes(rx, posting, re);
    case DispatchTemp => DispatchTakesNothing(rx, posting);
    case ScanDone => DoDispatchTakesNothing(rx, posting);
    case WakeUp => DoDispatchTakesNothing(rx.(wakers := rx.wakers - 1), posting);
    case _ =>
  }

  lemma DoDispatchTakesNothing(rx: Rx, posting: bool)
    ensures DoDispatch(rx, Env(posting, false, true)).handled == rx.handled
    ensures DoDispatch(rx, Env(posting, false, true)).parsed == rx.parsed
  {
    DoDispatchShape(rx, posting);
  }

  lemma DispatchTakesNothing(rx: Rx, posting: bool)
    ensures Dispatch(rx, Env(posting, false, true)).handled == rx.handled
    ensures Dispatch(rx, Env(posting, false, true)).parsed == rx.parsed
  {
    var n := Movable(rx.recv, rx.temp);
    DoDispatchTakesNothing(rx.(recv := rx.recv + rx.temp[..n], temp := rx.temp[n..]), posting);
  }

  lemma HandlerTakes(rx: Rx, posting: bool, re: bool)
    ensures var rx' := Handled(rx, re, Env(posting, false, true));
            rx'.handled == rx.handled + (if re then [rx.lastDispatch] else []) && rx'.parsed == rx.parsed
  {
    if re {
      DoDispatchTakesNothing(rx.(dispatching := false, handled := rx.handled + [rx.lastDispatch]), posting);
    }
  }

  lemma ForcedStep(rx: Rx, posting: bool, step: RxStep)
    requires RxEnabled(rx, posting, step)
    ensures RxApply(rx, posting, step).forced == rx.forced
  {
  }

  /** A message that the user declines goes back to the front of the buffer, and timer 3 is going to come back to
      it. */
  lemma DeclinedStep(rx: Rx, posting: bool)
    requires rx.dispatching
    ensures var rx' := RxApply(rx, posting, HandlerReturns(false));
            && !rx'.dispatching && rx'.timer3 && rx'.handled == rx.handled && rx'.temp == rx.temp
            && rx'.recv == [rx.lastDispatch] + rx.recv
  {
  }

  /** The switch says what was last asked for. */
  lemma SwitchStep(rx: Rx, posting: bool, step: RxStep)
    requires RxEnabled(rx, posting, step)
    ensures RxApply(rx, posting, step).suspendDispatch
         == if step.SuspendDispatchCall? then step.suspend else rx.suspendDispatch
  {
    match step
    case HandlerReturns(re) =>
      if re {
        DispatchSwitch(rx.(dispatching := false, handled := rx.handled + [rx.lastDispatch]), posting);
      }
    case DispatchTemp => SpliceSwitch(rx, posting);
    case ScanDone => DispatchSwitch(rx, posting);
    case WakeUp => DispatchSwitch(rx.(wakers := rx.wakers - 1), posting);
    case _ =>
  }

  lemma DispatchSwitch(rx: Rx, posting: bool)
    ensures DoDispatch(rx, Env(posting, false, true)).suspendDispatch == rx.suspendDispatch
  {
  }

  lemma SpliceSwitch(rx: Rx, posting: bool)
    ensures Dispatch(rx, Env(posting, false, true)).suspendDispatch == rx.suspendDispatch
  {
    var n := Movable(rx.recv, rx.temp);
    DispatchSwitch(rx.(recv := rx.recv + rx.temp[..n], temp := rx.temp[n..]), posting);
  }

  /** While dispatching is suspended, or posting is under way, no message is given to the user. */
  lemma QuietStep(rx: Rx, posting: bool, step: RxStep)
    requires RxEnabled(rx, posting, step) && !rx.dispatching
    requires rx.suspendDispatch || posting
    requires rx.suspendDispatch ==> step != SuspendDispatchCall(false)
    ensures var rx' := RxApply(rx, posting, step);
            && !rx'.dispatching && rx'.handled == rx.handled && (rx.suspendDispatch ==> rx'.suspendDispatch)
            && rx'.lastDispatch == rx.lastDispatch
  {
  }

  /** With something in the buffer, a suspended attempt to dispatch arms timer 1. */
  lemma SuspendedWaits(rx: Rx, env: Env)
    requires rx.suspendDispatch
    ensures DoDispatch(rx, env) == rx.(timer1 := rx.timer1 || (!rx.dispatching && rx.recv != []))
  {
  }
}
