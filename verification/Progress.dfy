/** Nothing gets stuck: whatever has happened on a link, letting pending events happen, in any fair order and
    nothing else, delivers everything. */
module Progress {
  import opened Framing
  import opened SocketModel
  import opened SendInvariants
  import opened ReceiveInvariants
  import opened SocketRuns
  import opened Link

  /** Events that are already pending: transport, timers, handlers, calls under way; the user accepts what he is
      given. No application calls anything. */
  predicate Event(e: LinkStep) {
    match e
    case SenderMove(s) => s.TxMove? && TxEvent(s.t) && !s.t.WriteCompletes?
    case ReceiverMove(s) => if s.TxMove? then TxEvent(s.t) else RxEvent(s.r)
    case _ => true
  }

  predicate TxEvent(t: TxStep) {
    t.Timer2Fire? || t.Timer2Restart? || t.SendWake? || (t.WriteCompletes? && t.i == 0 && t.ok)
  }

  predicate RxEvent(r: RxStep) {
    r.DispatchTemp? || r.Timer0Fire? || r.Timer1Fire? || r.Timer3Fire? || r.WakeUp? || r == HandlerReturns(true)
  }

  /** Both ends may send, the receiver dispatches and reads, and the receiver's own writes have not failed. */
  predicate Willing(l: Link) {
    && Allowed(l.a.tx) && Allowed(l.b.tx) && !l.b.tx.failed
    && !l.b.rx.suspendDispatch && l.b.rx.chain != Ended
  }

  /** The trigger keeps what it says folded: only `GoingIs` looks inside. */
  ghost predicate Going(l: Link) {
    forall n: nat {:trigger Unfold(n)} :: Unfold(n) ==> LinkInv(l) && Willing(l)
  }

  lemma GoingIs(l: Link)
    ensures Going(l) <==> LinkInv(l) && Willing(l)
  {
    assert Unfold(0);
  }

  predicate Done(l: Link) {
    Finished(Look(l))
  }

  /** Nothing new is asked of the sender. */
  predicate Grows(tx: Tx, tx': Tx) {
    tx'.posted == tx.posted && tx.entered <= tx'.entered && Direct(tx'.entered) == Direct(tx.entered)
  }

  // ---------------------------------------------------------------- a sending half

  predicate Pending(tx: Tx) {
    tx.writes != [] || tx.send != [] || tx.post != []
  }

  function Load(tx: Tx): (n: nat) {
    6 * |tx.post| + 4 * |tx.send| + 2 * |tx.writes|
  }

  /** The event that brings a sending half closer to having sent everything, if anything is pending. */
  function NextTx(tx: Tx): (t: TxStep) {
    if tx.writes != [] then WriteCompletes(0, true)
    else if tx.send != [] then SendWake
    else if tx.timer2 == Restarting then Timer2Restart
    else Timer2Fire
  }

  /** How many events away it is from the one that lessens the load. */
  function TxStage(tx: Tx): (n: nat) {
    if tx.writes == [] && tx.send == [] && tx.timer2 == Restarting then 1 else 0
  }

  /** A sender at work, whose own writes have not failed. */
  ghost predicate Sending(tx: Tx) {
    TxInv(tx) && Allowed(tx) && !tx.failed
  }

  lemma NextTxEnabled(tx: Tx)
    requires Sending(tx) && Pending(tx)
    ensures TxEnabled(tx, NextTx(tx)) && TxEvent(NextTx(tx)) && !StartsSecond(tx, NextTx(tx))
  {
  }

  lemma DoSendLoad(tx: Tx)
    requires Allowed(tx)
    ensures var tx' := DoSend(tx, false);
            && Allowed(tx') && tx'.failed == tx.failed && Grows(tx, tx')
            && (if !tx.sending && tx.send != [] then Load(tx') + 2 == Load(tx) else tx' == tx)
  {
  }

  lemma CompleteLoad(tx: Tx)
    requires Allowed(tx) && tx.writes != []
    ensures var tx' := WriteDone(tx, 0, true, false);
            Load(tx') < Load(tx) && Allowed(tx') && tx'.failed == tx.failed && Grows(tx, tx')
  {
    var done := tx.(writes := tx.writes[..0] + tx.writes[1..], finished := tx.finished + [tx.writes[0]],
                    sending := false);
    assert |done.writes| == |tx.writes| - 1;
    DoSendLoad(done);
  }

  /** Timer 2 moves something, or the send buffer is full and nothing but the timer changes. */
  lemma FireLoad(tx: Tx)
    requires Sending(tx) && tx.timer2 == Armed
    ensures var tx' := Timer2Fires(tx, false);
            && Allowed(tx') && tx'.failed == tx.failed && Grows(tx, tx')
            && (Load(tx') < Load(tx) || (tx.send != [] && tx' == tx.(timer2 := Restarting)))
  {
    var n := Movable(tx.send, tx.post);
    var spliced := Spliced(tx, n);
    assert |spliced.send| == |tx.send| + n && |spliced.post| == |tx.post| - n;
    DirectAppend(tx.entered, Posted(tx.post[..n]));
    PostedNotDirect(tx.post[..n]);
    assert Direct(tx.entered) + [] == Direct(tx.entered);
    if n > 0 {
      DoSendLoad(spliced);
    } else {
      assert spliced.send == tx.send && spliced.post == tx.post && spliced.entered == tx.entered;
    }
  }

  /** Every event lessens the load, or changes nothing but a timer or the number of calls under way. */
  lemma TxEventLoad(tx: Tx, t: TxStep)
    requires Sending(tx) && TxEvent(t) && TxEnabled(tx, t)
    ensures var tx' := TxApply(tx, t);
            && Allowed(tx') && !tx'.failed && Grows(tx, tx')
            && (Load(tx') < Load(tx) || (tx' == tx.(timer2 := tx'.timer2, wakers := tx'.wakers) && Idles(tx, t, tx')))
  {
    match t
    case WriteCompletes(_, _) => CompleteLoad(tx);
    case Timer2Fire => FireLoad(tx);
    case SendWake => DoSendLoad(tx.(wakers := tx.wakers - 1));
    case _ =>
  }

  predicate Idles(tx: Tx, t: TxStep, tx': Tx) {
    match t
    case Timer2Fire => tx.send != [] && tx'.timer2 == Restarting
    case Timer2Restart => tx'.timer2 == Armed
    case SendWake => tx'.timer2 == tx.timer2 && (tx.sending || tx.send == [])
    case _ => false
  }

  /** What an event does to a sending half: it lessens the load, or the next event is not lost sight of. */
  predicate TxProgress(tx: Tx, t: TxStep, tx': Tx) {
    || Load(tx') < Load(tx)
    || (&& Load(tx') == Load(tx) && Pending(tx') == Pending(tx) && tx'.writes == tx.writes && tx'.post == tx.post
        && (Pending(tx) ==>
              if t == NextTx(tx) then TxStage(tx') < TxStage(tx)
              else TxStage(tx') == TxStage(tx) && NextTx(tx') == NextTx(tx)))
  }

  lemma TxEventProgress(tx: Tx, t: TxStep)
    requires Sending(tx) && TxEvent(t) && TxEnabled(tx, t)
    ensures var tx' := TxApply(tx, t); TxProgress(tx, t, tx') && Allowed(tx') && !tx'.failed && Grows(tx, tx')
  {
    TxEventLoad(tx, t);
  }

  // ---------------------------------------------------------------- the receiving half

  predicate RxPending(rx: Rx) {
    rx.dispatching || rx.recv != [] || rx.chain == Parked || rx.chain == Dispatching
  }

  function Work(rx: Rx): (n: nat) {
    9 * |rx.temp| + 3 * |rx.recv| + if rx.dispatching then 2 else 0
  }

  function NextRx(rx: Rx): (r: RxStep) {
    if rx.dispatching then HandlerReturns(true)
    else if rx.recv != [] then if rx.wakers > 0 then WakeUp else Timer3Fire
    else if rx.chain == Parked then Timer0Fire
    else DispatchTemp
  }

  function RxStage(rx: Rx): (n: nat) {
    if rx.dispatching then 0
    else if rx.recv != [] then if rx.wakers > 0 then 0 else 1
    else if rx.chain == Parked then 2
    else if rx.chain == Dispatching then 1
    else 0
  }

  /** A receiver at work, with the forced receive buffer. */
  ghost predicate Serving(rx: Rx, posting: bool) {
    RxInv(rx, posting) && rx.forced && !rx.suspendDispatch
  }

  /** No lost wake-up, in terms of events. */
  lemma NextRxEnabled(rx: Rx)
    requires Serving(rx, false) && RxPending(rx)
    ensures RxEnabled(rx, false, NextRx(rx)) && RxEvent(NextRx(rx))
  {
  }

  predicate SameWork(rx: Rx, rx': Rx) {
    rx'.temp == rx.temp && rx'.recv == rx.recv && rx'.dispatching == rx.dispatching
  }

  lemma DoDispatchWork(rx: Rx, posting: bool)
    requires !rx.suspendDispatch
    ensures var rx' := DoDispatch(rx, Env(posting, false, true));
            && rx'.suspendDispatch == rx.suspendDispatch && rx'.wakers == rx.wakers
            && (if !posting && !rx.dispatching && rx.recv != [] then Work(rx') + 1 == Work(rx) else rx' == rx)
  {
  }

  lemma DispatchWork(rx: Rx, posting: bool)
    requires !rx.suspendDispatch && rx.chain == Dispatching
    ensures var rx' := Dispatch(rx, Env(posting, false, true));
            && !rx'.suspendDispatch && rx'.chain != Ended && rx'.wakers == rx.wakers
            && (Work(rx') < Work(rx)
                || (SameWork(rx, rx') && (rx.recv == [] ==> rx'.chain == Reading)))
  {
    var n := Movable(rx.recv, rx.temp);
    var moved := rx.(recv := rx.recv + rx.temp[..n], temp := rx.temp[n..]);
    assert |moved.recv| == |rx.recv| + n && |moved.temp| == |rx.temp| - n;
    if n > 0 {
      DoDispatchWork(moved, posting);
    } else {
      assert moved.recv == rx.recv && moved.temp == rx.temp;
    }
  }

  lemma HandledWork(rx: Rx, posting: bool)
    requires !rx.suspendDispatch && rx.dispatching
    ensures var rx' := Handled(rx, true, Env(posting, false, true));
            !rx'.suspendDispatch && rx'.chain == rx.chain && Work(rx') < Work(rx)
  {
    DoDispatchWork(rx.(dispatching := false, handled := rx.handled + [rx.lastDispatch]), posting);
  }

  /** Every event lessens the work, or leaves it as it is. */
  lemma RxEventWork(rx: Rx, posting: bool, r: RxStep)
    requires Serving(rx, posting) && RxEvent(r) && RxEnabled(rx, posting, r)
    ensures var rx' := RxApply(rx, posting, r);
            && !rx'.suspendDispatch && (rx.chain != Ended ==> rx'.chain != Ended)
            && (Work(rx') < Work(rx) || SameWork(rx, rx'))
  {
    match r
    case HandlerReturns(_) => HandledWork(rx, posting);
    case WakeUp => DoDispatchWork(rx.(wakers := rx.wakers - 1), posting);
    case DispatchTemp => DispatchWork(rx, posting);
    case _ =>
  }

  /** Or rather, the next event is not lost sight of. */
  predicate RxProgress(rx: Rx, r: RxStep, rx': Rx) {
    || Work(rx') < Work(rx)
    || (SameWork(rx, rx') && RxStage(rx') < RxStage(rx))
    || (&& SameWork(rx, rx') && RxStage(rx') == RxStage(rx)
        && RxPending(rx') == RxPending(rx) && NextRx(rx') == NextRx(rx)
        && (RxPending(rx) ==> r != NextRx(rx)))
  }

  lemma RxEventProgress(rx: Rx, r: RxStep)
    requires Serving(rx, false) && RxEvent(r) && RxEnabled(rx, false, r)
    ensures RxProgress(rx, r, RxApply(rx, false, r))
  {
    match r
    case HandlerReturns(_) => HandledWork(rx, false);
    case WakeUp => WakeProgress(rx);
    case DispatchTemp => DispatchProgress(rx);
    case _ => TimerProgress(rx, r);
  }

  lemma WakeProgress(rx: Rx)
    requires Serving(rx, false) && rx.wakers > 0
    ensures RxProgress(rx, WakeUp, RxApply(rx, false, WakeUp))
  {
    DoDispatchWork(rx.(wakers := rx.wakers - 1), false);
  }

  lemma DispatchProgress(rx: Rx)
    requires Serving(rx, false) && rx.chain == Dispatching
    ensures RxProgress(rx, DispatchTemp, RxApply(rx, false, DispatchTemp))
  {
    DispatchWork(rx, false);
    DispatchShape(rx, Dispatch(rx, Env(false, false, true)));
  }

  lemma DispatchShape(rx: Rx, rx': Rx)
    requires rx.chain == Dispatching && rx'.wakers == rx.wakers
    requires Work(rx') < Work(rx) || (SameWork(rx, rx') && (rx.recv == [] ==> rx'.chain == Reading))
    ensures RxProgress(rx, DispatchTemp, rx')
  {
  }

  lemma TimerProgress(rx: Rx, r: RxStep)
    requires rx.forced && RxEnabled(rx, false, r) && (r.Timer0Fire? || r.Timer1Fire? || r.Timer3Fire?)
    ensures RxProgress(rx, r, RxApply(rx, false, r))
  {
  }

  // ---------------------------------------------------------------- the link

  /** What matters of a link: the two sending halves, how much of the sender's current write is not on the wire
      yet, how much is on the wire, and the receiving half. */
  datatype View = View(a: Tx, u: nat, b: Tx, w: nat, rx: Rx)

  function Look(l: Link): (v: View) {
    View(l.a.tx, Unwritten(l.a.tx, l.written), l.b.tx, |l.wire|, l.b.rx)
  }

  function Unwritten(tx: Tx, written: nat): (n: nat) {
    if tx.writes != [] && written <= |tx.writes[0]| then |tx.writes[0]| - written else 0
  }

  predicate Finished(v: View) {
    !Pending(v.a) && v.w == 0 && v.rx.temp == [] && v.rx.recv == [] && !v.rx.dispatching
  }

  ghost predicate Working(v: View) {
    && Sending(v.a) && (v.a.writes == [] ==> v.u == 0)
    && Sending(v.b) && Serving(v.rx, v.b.posting) && v.rx.chain != Ended
  }

  lemma GoingWorks(l: Link)
    requires Going(l)
    ensures Working(Look(l)) && l.written <= if l.a.tx.writes == [] then 0 else |l.a.tx.writes[0]|
  {
    GoingIs(l);
  }

  /** What is left to do, the most important first: in the sender, of its current write, in the receiver's
      sending half, on the wire, in its receiving half; and how far away the event is that lessens it. */
  datatype Measure = Measure(a: nat, u: nat, b: nat, w: nat, c: nat, s: nat)

  function Left(v: View): (m: Measure) {
    Measure(Load(v.a), v.u, Load(v.b), v.w, Work(v.rx), Stage(v))
  }

  predicate Less(m': Measure, m: Measure) {
    || m'.a < m.a
    || (m'.a == m.a && m'.u < m.u)
    || (m'.a == m.a && m'.u == m.u && m'.b < m.b)
    || (m'.a == m.a && m'.u == m.u && m'.b == m.b && m'.w < m.w)
    || (m'.a == m.a && m'.u == m.u && m'.b == m.b && m'.w == m.w && m'.c < m.c)
    || (m'.a == m.a && m'.u == m.u && m'.b == m.b && m'.w == m.w && m'.c == m.c && m'.s < m.s)
  }

  function Stage(v: View): (n: nat) {
    if Pending(v.a) then TxStage(v.a) else if Pending(v.b) then TxStage(v.b) else RxStage(v.rx)
  }

  /** Events of one kind differ in the number of bytes only. */
  function Kind(e: LinkStep): (k: LinkStep) {
    match e
    case WriteSome(_) => WriteSome(0)
    case Arrive(_) => Arrive(0)
    case _ => e
  }

  /** The kind of event that brings the link closer to its end. */
  function Helpful(v: View): (k: LinkStep) {
    if v.a.writes != [] then if v.u > 0 then WriteSome(0) else WriteEnds
    else if Pending(v.a) then SenderMove(TxMove(NextTx(v.a)))
    else if Pending(v.b) then ReceiverMove(TxMove(NextTx(v.b)))
    else if RxPending(v.rx) then ReceiverMove(RxMove(NextRx(v.rx)))
    else Arrive(0)
  }

  /** What an event does to the measure: it lessens it, or it leaves it, and the kind of event that is waited
      for, as they are, and was not of that kind. */
  predicate Steady(v: View, e: LinkStep, v': View) {
    || Less(Left(v'), Left(v))
    || (Left(v') == Left(v) && Helpful(v') == Helpful(v) && Kind(e) != Helpful(v) && Finished(v') == Finished(v))
  }

  lemma SenderSteady(v: View, t: TxStep, v': View)
    requires TxProgress(v.a, t, v'.a) && !t.WriteCompletes?
    requires v' == v.(a := v'.a, u := v'.u) && (v'.a.writes == v.a.writes ==> v'.u == v.u)
    ensures Steady(v, SenderMove(TxMove(t)), v')
  {
  }

  lemma ReceiverTxSteady(v: View, t: TxStep, v': View)
    requires TxProgress(v.b, t, v'.b)
    requires v' == v.(b := v'.b, rx := v'.rx) && (v'.b.post == v.b.post ==> v'.rx == v.rx)
    ensures Steady(v, ReceiverMove(TxMove(t)), v')
  {
  }

  lemma ReceiverRxSteady(v: View, r: RxStep, v': View)
    requires v' == v.(rx := v'.rx) && (Work(v'.rx) < Work(v.rx) || SameWork(v.rx, v'.rx))
    requires !Pending(v.b) ==> RxProgress(v.rx, r, v'.rx)
    ensures Steady(v, ReceiverMove(RxMove(r)), v')
  {
  }

  // ---------------------------------------------------------------- events

  /** As long as something is left to do, an event of the helpful kind is pending. */
  lemma HelpfulEnabled(l: Link) returns (e: LinkStep)
    requires Going(l) && !Done(l)
    ensures Event(e) && LinkEnabled(l, e) && Kind(e) == Helpful(Look(l))
  {
    GoingWorks(l);
    var tx := l.a.tx;
    if tx.writes != [] {
      e := if l.written < |tx.writes[0]| then WriteSome(|tx.writes[0]| - l.written) else WriteEnds;
    } else if Pending(tx) {
      NextTxEnabled(tx);
      e := SenderMove(TxMove(NextTx(tx)));
    } else if Pending(l.b.tx) {
      NextTxEnabled(l.b.tx);
      e := ReceiverMove(TxMove(NextTx(l.b.tx)));
    } else if RxPending(l.b.rx) {
      NextRxEnabled(l.b.rx);
      e := ReceiverMove(RxMove(NextRx(l.b.rx)));
    } else {
      e := NextChunk(l);
    }
  }

  lemma NextChunk(l: Link) returns (e: LinkStep)
    requires Going(l) && !Done(l) && !Pending(l.a.tx) && !RxPending(l.b.rx)
    ensures Event(e) && LinkEnabled(l, e) && Kind(e) == Arrive(0)
  {
    GoingIs(l);
    assert l.b.rx.chain == Reading && l.b.rx.temp == [];
    e := Arrive(Min(|l.wire|, MSG_BUFFER_SIZE - |l.buffer|));
  }

  /** The outcome of an event. */
  ghost predicate Advances(l: Link, e: LinkStep, l': Link) {
    Steady(Look(l), e, Look(l')) && Willing(l') && Grows(l.a.tx, l'.a.tx)
  }

  lemma SenderAdvances(l: Link, t: TxStep)
    requires Going(l) && TxEvent(t) && !t.WriteCompletes? && LinkEnabled(l, SenderMove(TxMove(t)))
    ensures Advances(l, SenderMove(TxMove(t)), LinkApply(l, SenderMove(TxMove(t))))
  {
    GoingWorks(l);
    WillingIs(l);
    TxEventProgress(l.a.tx, t);
    SenderSteady(Look(l), t, Look(LinkApply(l, SenderMove(TxMove(t)))));
  }

  lemma WillingIs(l: Link)
    requires Going(l)
    ensures Willing(l)
  {
    GoingIs(l);
  }

  lemma WriteAdvances(l: Link, e: LinkStep)
    requires Going(l) && (e.WriteSome? || e.WriteEnds?) && LinkEnabled(l, e)
    ensures Advances(l, e, LinkApply(l, e))
  {
    GoingWorks(l);
    WillingIs(l);
    if e.WriteEnds? {
      WriteEndsShape(l);
      CompleteLoad(l.a.tx);
    } else {
      WriteSomeShape(l, e.n);
    }
  }

  lemma ReceiverTxAdvances(l: Link, t: TxStep)
    requires Going(l) && TxEvent(t) && LinkEnabled(l, ReceiverMove(TxMove(t)))
    ensures Advances(l, ReceiverMove(TxMove(t)), LinkApply(l, ReceiverMove(TxMove(t))))
  {
    GoingWorks(l);
    WillingIs(l);
    ReceiverTxShape(l.b, t);
    TxEventProgress(l.b.tx, t);
    ReceiverTxSteady(Look(l), t, Look(LinkApply(l, ReceiverMove(TxMove(t)))));
  }

  lemma ReceiverRxAdvances(l: Link, r: RxStep)
    requires Going(l) && RxEvent(r) && LinkEnabled(l, ReceiverMove(RxMove(r)))
    ensures Advances(l, ReceiverMove(RxMove(r)), LinkApply(l, ReceiverMove(RxMove(r))))
  {
    GoingWorks(l);
    WillingIs(l);
    RxEventWork(l.b.rx, l.b.tx.posting, r);
    if !Pending(l.b.tx) {
      assert !l.b.tx.posting;
      RxEventProgress(l.b.rx, r);
    }
    ReceiverRxSteady(Look(l), r, Look(LinkApply(l, ReceiverMove(RxMove(r)))));
  }

  /** Only the end of posting wakes the receiving half. */
  lemma ReceiverTxShape(s: Socket, t: TxStep)
    requires Enabled(s, TxMove(t)) && TxInv(s.tx)
    ensures var s' := Apply(s, TxMove(t));
            && s'.tx == TxApply(s.tx, t) && s'.rx == s.rx.(wakers := s'.rx.wakers)
            && (s'.tx.post == s.tx.post ==> s'.rx == s.rx)
  {
  }

  lemma ArriveAdvances(l: Link, n: nat)
    requires Going(l) && LinkEnabled(l, Arrive(n))
    ensures Advances(l, Arrive(n), LinkApply(l, Arrive(n)))
  {
    WillingIs(l);
    ArriveShape(l, n);
  }

  lemma ArriveShape(l: Link, n: nat)
    requires LinkEnabled(l, Arrive(n))
    ensures var l' := LinkApply(l, Arrive(n));
            && l'.a == l.a && l'.written == l.written && l'.b.tx == l.b.tx && |l'.wire| == |l.wire| - n < |l.wire|
            && l'.b.rx.suspendDispatch == l.b.rx.suspendDispatch && l'.b.rx.chain != Ended
  {
    var s := l.buffer + l.wire[..n];
    if Scan(LengthHead, s) != NeedMore {
      assert Arrived(l, n).b == Apply(l.b, RxMove(ReadCompletes(Decode(LengthHead, s).msgs)));
    }
  }

  lemma EventAdvances(l: Link, e: LinkStep)
    requires Going(l) && Event(e) && LinkEnabled(l, e)
    ensures Advances(l, e, LinkApply(l, e))
  {
    match e
    case SenderMove(s) => SenderAdvances(l, s.t);
    case WriteSome(_) => WriteAdvances(l, e);
    case WriteEnds => WriteAdvances(l, e);
    case Arrive(n) => ArriveAdvances(l, n);
    case ReceiverMove(s) =>
      if s.TxMove? {
        ReceiverTxAdvances(l, s.t);
      } else {
        ReceiverRxAdvances(l, s.r);
      }
  }

  lemma StaysGoing(l: Link, e: LinkStep)
    requires Going(l) && LinkEnabled(l, e) && Willing(LinkApply(l, e))
    ensures Going(LinkApply(l, e))
  {
    GoingIs(l);
    LinkStepKeeps(l, e);
    GoingIs(LinkApply(l, e));
  }

  // ---------------------------------------------------------------- fair runs

  /** The trigger keeps the equation folded: only `NextIs` looks inside. */
  ghost predicate Follows(l: Link, e: LinkStep, l': Link) {
    forall n: nat {:trigger Unfold(n)} :: Unfold(n) ==> l' == if LinkEnabled(l, e) then LinkApply(l, e) else l
  }

  ghost function LinkNext(l: Link, e: LinkStep): (l': Link) {
    assert Follows(l, e, if LinkEnabled(l, e) then LinkApply(l, e) else l);
    var l' :| Follows(l, e, l');
    l'
  }

  lemma NextIs(l: Link, e: LinkStep)
    ensures LinkNext(l, e) == if LinkEnabled(l, e) then LinkApply(l, e) else l
  {
    assert Unfold(0);
  }

  lemma NextAdvances(l: Link, e: LinkStep)
    requires Going(l) && Event(e)
    ensures var l' := LinkNext(l, e);
            && Going(l') && Grows(l.a.tx, l'.a.tx)
            && (if LinkEnabled(l, e) then Steady(Look(l), e, Look(l')) else l' == l)
  {
    NextIs(l, e);
    if LinkEnabled(l, e) {
      EventAdvances(l, e);
      StaysGoing(l, e);
    }
  }

  ghost function StateAt(l: Link, run: nat -> LinkStep, i: nat): (l': Link) {
    if i == 0 then l else LinkNext(StateAt(l, run, i - 1), run(i - 1))
  }

  ghost predicate Possible(l: Link, k: LinkStep) {
    exists e :: Event(e) && Kind(e) == k && LinkEnabled(l, e)
  }

  /** An event of kind `k` happens as the j-th, or is not pending then. */
  ghost predicate Served(l: Link, run: nat -> LinkStep, k: LinkStep, j: nat) {
    Possible(StateAt(l, run, j), k) ==> Kind(run(j)) == k && LinkEnabled(StateAt(l, run, j), run(j))
  }

  ghost predicate ServedFrom(l: Link, run: nat -> LinkStep, k: LinkStep, i: nat) {
    exists j :: i <= j && Served(l, run, k, j)
  }

  /** An endless run of pending events in which no kind of event is put off for ever: again and again it happens,
      or is not pending. */
  ghost predicate Fair(l: Link, run: nat -> LinkStep) {
    (forall i :: Event(run(i))) && (forall i, k :: ServedFrom(l, run, k, i))
  }

  lemma {:induction false} RunGoing(l: Link, run: nat -> LinkStep, i: nat)
    requires Going(l) && forall k :: Event(run(k))
    ensures Going(StateAt(l, run, i)) && Grows(l.a.tx, StateAt(l, run, i).a.tx)
    decreases i
  {
    if i > 0 {
      var k: nat := i - 1;
      RunGoing(l, run, k);
      GoesOn(l, StateAt(l, run, k), run, k, StateAt(l, run, i));
    }
  }

  lemma GoesOn(l: Link, before: Link, run: nat -> LinkStep, k: nat, after: Link)
    requires Going(before) && Grows(l.a.tx, before.a.tx) && (forall n :: Event(run(n)))
    requires after == LinkNext(before, run(k))
    ensures Going(after) && Grows(l.a.tx, after.a.tx)
  {
    var e := run(k);
    assert Event(e);
    NextAdvances(before, e);
    GrowsOn(l.a.tx, before.a.tx, after.a.tx);
  }

  lemma GrowsOn(x: Tx, y: Tx, z: Tx)
    requires Grows(x, y) && Grows(y, z)
    ensures Grows(x, z)
  {
  }

  /** From the i-th state on, either something is done by the j-th, or the same event is still waited for. */
  lemma {:induction false} Waits(l: Link, run: nat -> LinkStep, i: nat, j: nat) returns (n: nat)
    requires Going(l) && (forall k :: Event(run(k))) && i <= j && !Done(StateAt(l, run, i))
    ensures i <= n <= j
    ensures var from, to := Look(StateAt(l, run, i)), Look(StateAt(l, run, n));
            Less(Left(to), Left(from))
            || (n == j && Left(to) == Left(from) && Helpful(to) == Helpful(from) && !Finished(to))
    decreases j - i
  {
    n := j;
    if i < j {
      n := Waits(l, run, i, j - 1);
      var from, to := Look(StateAt(l, run, i)), Look(StateAt(l, run, n));
      if !Less(Left(to), Left(from)) {
        RunGoing(l, run, n);
        NextAdvances(StateAt(l, run, n), run(n));
        n := j;
      }
    }
  }

  /** As long as something is left to do, some of it gets done. */
  lemma Helped(l: Link, run: nat -> LinkStep, i: nat) returns (n: nat)
    requires Going(l) && Fair(l, run) && !Done(StateAt(l, run, i))
    ensures Less(Left(Look(StateAt(l, run, n))), Left(Look(StateAt(l, run, i))))
  {
    var k := Helpful(Look(StateAt(l, run, i)));
    assert ServedFrom(l, run, k, i);
    var j :| i <= j && Served(l, run, k, j);
    n := Waits(l, run, i, j);
    if !Less(Left(Look(StateAt(l, run, n))), Left(Look(StateAt(l, run, i)))) {
      RunGoing(l, run, j);
      Taken(l, run, k, j);
      n := j + 1;
    }
  }

  lemma Taken(l: Link, run: nat -> LinkStep, k: LinkStep, j: nat)
    requires Going(StateAt(l, run, j)) && !Done(StateAt(l, run, j)) && Event(run(j))
    requires k == Helpful(Look(StateAt(l, run, j))) && Served(l, run, k, j)
    ensures Less(Left(Look(StateAt(l, run, j + 1))), Left(Look(StateAt(l, run, j))))
  {
    var e := HelpfulEnabled(StateAt(l, run, j));
    NextAdvances(StateAt(l, run, j), run(j));
  }

  lemma {:induction false} EventuallyDone(l: Link, run: nat -> LinkStep, i: nat) returns (n: nat)
    requires Going(l) && Fair(l, run)
    ensures Done(StateAt(l, run, n))
    decreases var m := Left(Look(StateAt(l, run, i))); m.a, var m := Left(Look(StateAt(l, run, i))); m.u,
              var m := Left(Look(StateAt(l, run, i))); m.b, var m := Left(Look(StateAt(l, run, i))); m.w,
              var m := Left(Look(StateAt(l, run, i))); m.c, var m := Left(Look(StateAt(l, run, i))); m.s
  {
    n := i;
    if !Done(StateAt(l, run, i)) {
      var j := Helped(l, run, i);
      n := EventuallyDone(l, run, j);
    }
  }

  /** What the sender's steps have asked for: the messages of its calls to post, and of its calls to send that
      were accepted. */
  ghost function PostsOf(steps: seq<LinkStep>): (ms: seq<Bytes>) {
    if steps == [] then []
    else
      var front, step := steps[..|steps| - 1], steps[|steps| - 1];
      PostsOf(front) +
        if LinkEnabled(LinkRun(front), step) && step.SenderMove? && step.step.TxMove?
        then PostOf(step.step.t) else []
  }

  ghost function SendsOf(steps: seq<LinkStep>): (ms: seq<Bytes>) {
    if steps == [] then []
    else
      var front, step := steps[..|steps| - 1], steps[|steps| - 1];
      SendsOf(front) +
        if LinkEnabled(LinkRun(front), step) && step.SenderMove? && step.step.TxMove?
        then SendOf(LinkRun(front).a.tx, step.step.t) else []
  }

  lemma {:induction false} CallsRecorded(steps: seq<LinkStep>)
    ensures var tx := LinkRun(steps).a.tx; tx.posted == PostsOf(steps) && Direct(tx.entered) == SendsOf(steps)
    decreases |steps|
  {
    if steps != [] {
      var front, step := steps[..|steps| - 1], steps[|steps| - 1];
      CallsRecorded(front);
      if LinkEnabled(LinkRun(front), step) {
        CallRecorded(LinkRun(front), step);
      }
    }
  }

  lemma CallRecorded(l: Link, step: LinkStep)
    requires LinkEnabled(l, step)
    ensures var tx, tx' := l.a.tx, LinkApply(l, step).a.tx;
            var t := if step.SenderMove? && step.step.TxMove? then step.step.t else Timer2Restart;
            tx'.posted == tx.posted + PostOf(t) && Direct(tx'.entered) == Direct(tx.entered) + SendOf(tx, t)
  {
    match step
    case SenderMove(s) =>
      if s.TxMove? {
        InputStep(l.a.tx, s.t);
      }
    case WriteEnds =>
      WriteEndsShape(l);
      InputStep(l.a.tx, WriteCompletes(0, true));
    case _ =>
  }

  /** All that was asked for, and nothing else, has been handled: the handled messages are the bodies of a sequence
      that consists of the messages of the calls to post and of the accepted calls to send, each in order. */
  ghost predicate Delivered(steps: seq<LinkStep>, handled: seq<Bytes>) {
    exists es: seq<Entry> ::
      ViaPost(es) == PostsOf(steps) && Direct(es) == SendsOf(steps) && handled == Bodies(Msgs(es))
  }

  /** From every reachable state of the link in which both ends may send and the receiver dispatches and reads:
      in every fair run of pending events there comes a state in which everything that the sender was ever asked
      to send or to post has been handled, once and in order. */
  lemma FairRunsDeliver(steps: seq<LinkStep>, run: nat -> LinkStep) returns (n: nat)
    requires Willing(LinkRun(steps)) && Fair(LinkRun(steps), run)
    ensures Delivered(steps, StateAt(LinkRun(steps), run, n).b.rx.handled)
    ensures var l, l' := LinkRun(steps), StateAt(LinkRun(steps), run, n);
            && l'.a.tx.posted == l.a.tx.posted == ViaPost(l'.a.tx.entered)
            && l.a.tx.entered <= l'.a.tx.entered
            && l'.b.rx.handled == Bodies(Msgs(l'.a.tx.entered))
  {
    CallsRecorded(steps);
    LinkAlways(steps);
    GoingIs(LinkRun(steps));
    n := EventuallyDone(LinkRun(steps), run, 0);
    RunGoing(LinkRun(steps), run, n);
    DoneDelivered(StateAt(LinkRun(steps), run, n));
  }

  lemma DoneDelivered(l: Link)
    requires Going(l) && Done(l)
    ensures l.a.tx.posted == ViaPost(l.a.tx.entered) && l.b.rx.handled == Bodies(Msgs(l.a.tx.entered))
  {
    GoingIs(l);
    assert l.wire == [];
    DeliveredState(l);
  }

  // ---------------------------------------------------------------- there are fair runs

  const KINDS: nat := 16

  function KindAt(i: nat): (k: LinkStep) {
    match i
    case 0 => WriteSome(0)
    case 1 => WriteEnds
    case 2 => Arrive(0)
    case 3 => SenderMove(TxMove(Timer2Fire))
    case 4 => SenderMove(TxMove(Timer2Restart))
    case 5 => SenderMove(TxMove(SendWake))
    case 6 => ReceiverMove(TxMove(Timer2Fire))
    case 7 => ReceiverMove(TxMove(Timer2Restart))
    case 8 => ReceiverMove(TxMove(SendWake))
    case 9 => ReceiverMove(TxMove(WriteCompletes(0, true)))
    case 10 => ReceiverMove(RxMove(DispatchTemp))
    case 11 => ReceiverMove(RxMove(HandlerReturns(true)))
    case 12 => ReceiverMove(RxMove(WakeUp))
    case 13 => ReceiverMove(RxMove(Timer0Fire))
    case 14 => ReceiverMove(RxMove(Timer1Fire))
    case _ => ReceiverMove(RxMove(Timer3Fire))
  }

  lemma KindsComplete(e: LinkStep) returns (i: nat)
    requires Event(e)
    ensures i < KINDS && KindAt(i) == Kind(e)
  {
    match e
    case WriteSome(_) => i := 0;
    case WriteEnds => i := 1;
    case Arrive(_) => i := 2;
    case SenderMove(s) => i := if s.t.Timer2Fire? then 3 else if s.t.Timer2Restart? then 4 else 5;
    case ReceiverMove(s) =>
      if s.TxMove? {
        i := if s.t.Timer2Fire? then 6 else if s.t.Timer2Restart? then 7 else if s.t.SendWake? then 8 else 9;
      } else {
        i := if s.r.DispatchTemp? then 10 else if s.r.HandlerReturns? then 11 else if s.r.WakeUp? then 12
             else if s.r.Timer0Fire? then 13 else if s.r.Timer1Fire? then 14 else 15;
      }
  }

  /** An event of the kind, if one is pending. */
  ghost function Pick(l: Link, k: LinkStep): (e: LinkStep)
    ensures Event(e) && (Possible(l, k) ==> Kind(e) == k && LinkEnabled(l, e))
  {
    if Possible(l, k) then var e :| Event(e) && Kind(e) == k && LinkEnabled(l, e); e else WriteEnds
  }

  /** The state when all kinds have taken turns `i` times. */
  ghost function After(l: Link, i: nat): (l': Link) {
    if i == 0 then l else LinkNext(After(l, i - 1), Pick(After(l, i - 1), KindAt((i - 1) % KINDS)))
  }

  ghost function Turn(l: Link, i: nat): (e: LinkStep) {
    Pick(After(l, i), KindAt(i % KINDS))
  }

  lemma {:induction false} TurnsStates(l: Link, run: nat -> LinkStep, i: nat)
    requires forall k: nat :: run(k) == Turn(l, k)
    ensures StateAt(l, run, i) == After(l, i)
    decreases i
  {
    if i > 0 {
      TurnsStates(l, run, i - 1);
      assert run(i - 1) == Turn(l, i - 1);
    }
  }

  lemma TurnServes(l: Link, run: nat -> LinkStep, i: nat, k: LinkStep)
    requires forall n: nat :: run(n) == Turn(l, n)
    ensures ServedFrom(l, run, k, i)
  {
    TurnsStates(l, run, i);
    if Possible(After(l, i), k) {
      var e :| Event(e) && Kind(e) == k && LinkEnabled(After(l, i), e);
      var t := KindsComplete(e);
      var j := NextTurn(i, t);
      TurnsStates(l, run, j);
      assert run(j) == Turn(l, j);
      assert Served(l, run, k, j);
    } else {
      assert Served(l, run, k, i);
    }
  }

  lemma NextTurn(i: nat, t: nat) returns (j: nat)
    requires t < KINDS
    ensures i <= j && j % KINDS == t
  {
    j := i / KINDS * KINDS + KINDS + t;
  }

  /** Letting all kinds take turns is fair. */
  lemma FairRunExists(l: Link) returns (run: nat -> LinkStep)
    ensures Fair(l, run)
  {
    run := (i: nat) => Turn(l, i);
    forall i, k ensures ServedFrom(l, run, k, i) {
      TurnServes(l, run, i, k);
    }
  }

  /** So pending events alone can always deliver everything: the beginning of such a run does. */
  lemma EverythingCanBeDelivered(steps: seq<LinkStep>) returns (events: seq<LinkStep>)
    requires Willing(LinkRun(steps))
    ensures forall e :: e in events ==> Event(e)
    ensures Delivered(steps, LinkRun(steps + events).b.rx.handled)
  {
    var run := FairRunExists(LinkRun(steps));
    var n := FairRunsDeliver(steps, run);
    events := Beginning(steps, run, n);
  }

  lemma {:induction false} Beginning(steps: seq<LinkStep>, run: nat -> LinkStep, n: nat) returns (events: seq<LinkStep>)
    requires forall k :: Event(run(k))
    ensures forall e :: e in events ==> Event(e)
    ensures LinkRun(steps + events) == StateAt(LinkRun(steps), run, n)
  {
    if n == 0 {
      events := [];
      assert steps + [] == steps;
    } else {
      var k: nat := n - 1;
      var before := Beginning(steps, run, k);
      events := before + [run(k)];
      LinkRunNext(steps + before, run(k));
      assert steps + before + [run(k)] == steps + events;
    }
  }

  lemma LinkRunNext(steps: seq<LinkStep>, e: LinkStep)
    ensures LinkRun(steps + [e]) == LinkNext(LinkRun(steps), e)
  {
    assert (steps + [e])[..|steps|] == steps;
    NextIs(LinkRun(steps), e);
  }

  // ---------------------------------------------------------------- why the receiver must be allowed to send

  /** A socket that is closing gracefully with something left to post, its send buffer full, no write outstanding
      and nothing being dispatched. */
  predicate HeldUp(s: Socket) {
    && s.tx.closing && s.tx.writes == [] && s.tx.post != [] && |s.tx.send| >= MAX_MSG_NUM && s.tx.posting
    && s.rx.forced && !s.rx.dispatching
  }

  lemma HeldUpTx(tx: Tx, t: TxStep)
    requires tx.closing && tx.writes == [] && tx.post != [] && |tx.send| >= MAX_MSG_NUM && tx.posting
    requires TxEnabled(tx, t)
    ensures var tx' := TxApply(tx, t);
            tx'.closing && tx'.writes == [] && tx'.post != [] && |tx'.send| >= MAX_MSG_NUM && tx'.posting
  {
    match t
    case DirectSendCall(msg, o) =>
      if Sends(tx, t) {
        SendShape(tx, t);
      }
    case Timer2Fire =>
      assert Spliced(tx, 0).post == tx.post && Spliced(tx, 0).send == tx.send;
    case _ =>
  }

  /** Nothing gets it out of there, no timer, no handler, no call and no bytes that arrive; and so no message is
      handled any more. */
  lemma HeldUpStays(s: Socket, step: Step)
    requires HeldUp(s) && Enabled(s, step)
    ensures HeldUp(Apply(s, step)) && Apply(s, step).rx.handled == s.rx.handled
  {
    match step
    case TxMove(t) => HeldUpTx(s.tx, t);
    case RxMove(r) =>
  }

  lemma {:induction false} HeldUpForever(s: Socket, steps: seq<Step>)
    requires HeldUp(s)
    ensures HeldUp(Run(s, steps)) && Run(s, steps).rx.handled == s.rx.handled
    decreases |steps|
  {
    if steps != [] {
      var prefix, step := steps[..|steps| - 1], steps[|steps| - 1];
      HeldUpForever(s, prefix);
      if Enabled(Run(s, prefix), step) {
        HeldUpStays(Run(s, prefix), step);
      }
    }
  }

  /** A socket gets there by posting more than fits, closing gracefully, and the end of its last write. */
  lemma HeldUpArises(s: Socket)
    requires |s.tx.writes| == 1 && s.tx.post != [] && |s.tx.send| >= MAX_MSG_NUM && s.tx.posting
    requires s.rx.forced && !s.rx.dispatching
    ensures HeldUp(Apply(Apply(s, TxMove(GracefulClose)), TxMove(WriteCompletes(0, true))))
  {
    var closing := s.tx.(closing := true);
    assert Apply(s, TxMove(GracefulClose)).tx == closing;
    assert s.tx.writes[..0] + s.tx.writes[1..] == [];
  }

  lemma RunNext(s: Socket, steps: seq<Step>, step: Step)
    ensures var before := Run(s, steps);
            Run(s, steps + [step]) == if Enabled(before, step) then Apply(before, step) else before
  {
    assert (steps + [step])[..|steps|] == steps;
  }

  /** The first message is being written, `n` more wait. */
  predicate Filled(s: Socket, n: nat) {
    && |s.tx.writes| == 1 && |s.tx.send| == n && s.tx.sending && !s.tx.closing && !s.tx.suspendSend
    && !s.tx.posting && s.rx.forced && !s.rx.dispatching
  }

  lemma {:induction false} Filling(m: Bytes, n: nat) returns (steps: seq<Step>)
    requires m != [] && n <= MAX_MSG_NUM
    ensures Filled(Run(Init(true), steps), n)
  {
    var send := TxMove(DirectSendCall(m, false));
    if n == 0 {
      steps := [send];
      assert steps[..0] == [];
    } else {
      var fewer := Filling(m, n - 1);
      steps := fewer + [send];
      RunNext(Init(true), fewer, send);
    }
  }

  /** There is such a run. */
  lemma HeldUpHappens(m: Bytes) returns (steps: seq<Step>)
    requires m != []
    ensures HeldUp(Run(Init(true), steps))
  {
    var full := Filling(m, MAX_MSG_NUM);
    var post, close, done := TxMove(DirectPostCall(m)), TxMove(GracefulClose), TxMove(WriteCompletes(0, true));
    RunNext(Init(true), full, post);
    var s := Run(Init(true), full + [post]);
    assert s.tx.post != [] && s.tx.posting;
    RunNext(Init(true), full + [post], close);
    RunNext(Init(true), full + [post] + [close], done);
    HeldUpArises(s);
    steps := full + [post] + [close] + [done];
  }
}
