/** The socket itself: objects whose methods change their fields in place. Each handler is proved to take its steps
    of the machine, and so to keep the invariants of the machine, on the fields themselves. The two halves of a
    socket are two objects; what the receiving half needs to know of its surroundings (`posting`, whether the
    service is stopped, whether the socket is open) comes in as a parameter. Each method is one lock region or one
    handler, run without interference; others can come in between only at the borders of the model's steps. */
module StSocket {
  import opened Framing
  import opened SocketModel
  import opened SendInvariants
  import opened ReceiveInvariants

  /** Moves items from the front of `src` to the back of `dest`, as many as fit, and tells whether any moved. */
  method SpliceHelper(dest: seq<Bytes>, src: seq<Bytes>) returns (dest': seq<Bytes>, src': seq<Bytes>, moved: bool)
    ensures dest' + src' == dest + src
    ensures var n := Movable(dest, src); dest' == dest + src[..n] && src' == src[n..] && moved == (n > 0)
    ensures |dest'| <= |dest| || |dest'| <= MAX_MSG_NUM
    ensures src' != [] ==> |dest'| >= MAX_MSG_NUM
  {
    var size := |dest|;
    if size < MAX_MSG_NUM {
      size := MAX_MSG_NUM - size;
      var end: nat := |src|;
      if |src| > size {
        var leftNum := |src| - size;
        // walk from the nearer end of the list
        end := if leftNum > size then 0 + size else |src| - leftNum;
      } else {
        size := |src|;
      }
      assert dest + src == (dest + src[..end]) + src[end..];
      return dest + src[..end], src[end..], size > 0;
    }
    return dest, src, false;
  }

  /** Without the forced receive buffer: the loop over the messages that wait, offering each to the user. From
      turn to turn the surroundings may change, and so may the user's mind. */
  function ScanAll(rx: Rx, envs: nat -> Env, answers: nat -> bool, turn: nat): (rx': Rx)
    requires rx.chain.Scanning?
    ensures rx'.parsed == rx.parsed
    decreases |rx.temp| - rx.chain.at
  {
    if ScanGoesOn(rx, envs(turn)) then ScanAll(ScanOne(rx, answers(turn)), envs, answers, turn + 1)
    else ScanEnd(rx, envs(turn))
  }

  function Dispatched(rx: Rx, envs: nat -> Env, answers: nat -> bool): (rx': Rx)
    requires rx.forced || rx.chain.Scanning?
  {
    if rx.forced then Dispatch(rx, envs(0)) else ScanAll(rx, envs, answers, 0)
  }

  /** The turn at which it ends. */
  function Turns(rx: Rx, envs: nat -> Env, answers: nat -> bool, turn: nat): (k: nat)
    requires rx.chain.Scanning?
    decreases |rx.temp| - rx.chain.at
  {
    if ScanGoesOn(rx, envs(turn)) then Turns(ScanOne(rx, answers(turn)), envs, answers, turn + 1) else turn
  }

  /** What a step of the sending machine keeps, in one place. */
  lemma StepHolds(tx: Tx, step: TxStep)
    ensures TxInv(tx) && TxEnabled(tx, step) ==> TxInv(TxApply(tx, step))
    ensures OneWrite(tx) && Intact(tx) && TxEnabled(tx, step) && !StartsSecond(tx, step)
            ==> OneWrite(TxApply(tx, step)) && Intact(TxApply(tx, step))
  {
    if TxEnabled(tx, step) {
      if TxInv(tx) {
        TxStepKeeps(tx, step);
      }
      if OneWrite(tx) && Intact(tx) && !StartsSecond(tx, step) {
        OneWriteStep(tx, step);
      }
    }
  }

  class SendHalf {
    var postMsgBuffer: seq<Bytes>
    var sendMsgBuffer: seq<Bytes>
    var lastSendMsg: Bytes
    var posting: bool
    var sending: bool
    var suspendSend: bool
    var closing: bool
    var timer2: Timer2

    ghost var writes: seq<Bytes>
    ghost var wakers: nat
    ghost var posted: seq<Bytes>
    ghost var entered: seq<Entry>
    ghost var finished: seq<Bytes>
    ghost var failed: bool
    ghost var overflowed: bool

    ghost function State(): Tx
      reads this
    {
      Tx(postMsgBuffer, sendMsgBuffer, writes, lastSendMsg, posting, sending, suspendSend, closing, timer2, wakers,
         posted, entered, finished, failed, overflowed)
    }

    /** Messages are conserved, posted ones in order; the flags and the timer agree with the buffers; the send
        buffer is bounded and not forgotten. Every handler keeps this while the service runs. */
    ghost predicate Valid()
      reads this
    {
      TxInv(State())
    }

    /** One write at a time, in order, with its bytes intact. */
    ghost predicate InOrder()
      reads this
    {
      OneWrite(State()) && Intact(State())
    }

    constructor ()
      ensures State() == TxInit && Valid() && InOrder()
    {
      postMsgBuffer, sendMsgBuffer, lastSendMsg := [], [], [];
      posting, sending, suspendSend, closing, timer2 := false, false, false, false, Off;
      writes, wakers, posted, entered, finished, failed, overflowed := [], 0, [], [], [], false, false;
    }

    method DoSendMsg(stopped: bool) returns (r: bool)
      modifies this`sending, this`lastSendMsg, this`writes, this`sendMsgBuffer
      ensures State() == DoSend(old(State()), stopped) && r == sending
    {
      if closing || suspendSend || stopped {
        sending := false;
      } else if !sending && sendMsgBuffer != [] {
        sending := true;
        lastSendMsg := sendMsgBuffer[0];
        writes := writes + [lastSendMsg];
        sendMsgBuffer := sendMsgBuffer[1..];
      }
      return sending;
    }

    /** send_msg() without a message. */
    method SendMsg(stopped: bool) returns (r: bool)
      requires Valid()
      modifies this`sending, this`lastSendMsg, this`writes, this`sendMsgBuffer
      ensures State() == DoSend(old(State()), stopped) && r == sending
      ensures !stopped ==> Valid()
      ensures !stopped && old(InOrder() && !StartsSecond(State(), SendCall)) ==> InOrder()
    {
      DoSendHolds(State());
      r := DoSendMsg(stopped);
    }

    method DoDirectSendMsg(msg: Bytes, ghost canOverflow: bool, stopped: bool)
      requires Accepts(State(), canOverflow)
      modifies this`sending, this`lastSendMsg, this`writes, this`sendMsgBuffer, this`entered, this`overflowed
      ensures State() == DirectSend(old(State()), msg, canOverflow, stopped)
    {
      if msg != [] {
        sendMsgBuffer := sendMsgBuffer + [msg];
        entered, overflowed := entered + [Entry(msg, false)], overflowed || canOverflow;
        var _ := DoSendMsg(stopped);
      }
    }

    method DirectSendMsg(msg: Bytes, canOverflow: bool, stopped: bool) returns (accepted: bool)
      requires Valid()
      modifies this`sending, this`lastSendMsg, this`writes, this`sendMsgBuffer, this`entered, this`overflowed
      ensures accepted <==> canOverflow || |old(sendMsgBuffer)| < MAX_MSG_NUM
      ensures State() == DirectSend(old(State()), msg, canOverflow, stopped)
      ensures entered == if accepted && msg != [] then old(entered) + [Entry(msg, false)] else old(entered)
      ensures writes + sendMsgBuffer == old(writes) + old(sendMsgBuffer) + if accepted && msg != [] then [msg] else []
      ensures !stopped ==> Valid()
      ensures !stopped && old(InOrder() && !StartsSecond(State(), DirectSendCall(msg, canOverflow))) ==> InOrder()
    {
      StepHolds(State(), DirectSendCall(msg, canOverflow));
      SentIs(State(), msg, canOverflow, stopped);
      accepted := canOverflow || |sendMsgBuffer| < MAX_MSG_NUM;
      if accepted {
        DoDirectSendMsg(msg, canOverflow, stopped);
      }
    }

    /** Empty messages are accepted and forgotten. */
    method DoDirectPostMsg(msg: Bytes)
      requires Valid()
      modifies this`postMsgBuffer, this`posted, this`posting, this`timer2
      ensures State() == DirectPost(old(State()), msg)
      ensures msg != [] ==> postMsgBuffer == old(postMsgBuffer) + [msg] && posted == old(posted) + [msg] && posting
      ensures msg == [] ==> State() == old(State())
      ensures Valid() && (old(InOrder()) ==> InOrder())
    {
      StepHolds(State(), DirectPostCall(msg));
      Enqueue(msg);
    }

    method Enqueue(msg: Bytes)
      modifies this`postMsgBuffer, this`posted, this`posting, this`timer2
      ensures State() == DirectPost(old(State()), msg)
    {
      if msg != [] {
        postMsgBuffer, posted := postMsgBuffer + [msg], posted + [msg];
        if !posting {
          posting, timer2 := true, Armed;
        }
      }
    }

    /** Tries to send and otherwise posts; never refuses. */
    method DirectPostMsg(msg: Bytes, canOverflow: bool, stopped: bool)
      requires Valid()
      modifies this
      ensures State() == if Accepts(old(State()), canOverflow) then DirectSend(old(State()), msg, canOverflow, stopped)
                         else DirectPost(old(State()), msg)
      ensures if canOverflow || |old(sendMsgBuffer)| < MAX_MSG_NUM then
                && entered == (if msg != [] then old(entered) + [Entry(msg, false)] else old(entered))
                && posted == old(posted)
              else
                entered == old(entered) && posted == if msg != [] then old(posted) + [msg] else old(posted)
      ensures !stopped ==> Valid()
      ensures !stopped && old(InOrder() && !StartsSecond(State(), DirectSendCall(msg, canOverflow))) ==> InOrder()
    {
      var sent := DirectSendMsg(msg, canOverflow, stopped);
      if !sent {
        DoDirectPostMsg(msg);
      }
    }

    method SuspendSendMsg(suspend: bool, stopped: bool)
      requires Valid()
      modifies this
      ensures var tx := old(State()).(suspendSend := suspend); State() == if suspend then tx else DoSend(tx, stopped)
      ensures !stopped ==> Valid()
      ensures var tx := old(State()).(suspendSend := suspend);
              !stopped && old(InOrder()) && (suspend || !StartsSecond(tx, SendCall)) ==> InOrder()
    {
      SuspendHolds(State(), suspend);
      SetSuspend(suspend, stopped);
    }

    method SetSuspend(suspend: bool, stopped: bool)
      modifies this
      ensures var tx := old(State()).(suspendSend := suspend); State() == if suspend then tx else DoSend(tx, stopped)
    {
      suspendSend := suspend;
      if !suspend {
        var _ := DoSendMsg(stopped);
      }
    }

    method SplicePosted() returns (moved: bool)
      modifies this`sendMsgBuffer, this`postMsgBuffer, this`entered
      ensures var tx := old(State()); var n := Movable(tx.send, tx.post);
              && moved == (n > 0)
              && State() == tx.(send := tx.send + tx.post[..n], post := tx.post[n..],
                                entered := tx.entered + Posted(tx.post[..n]))
    {
      entered := entered + Posted(postMsgBuffer[..Movable(sendMsgBuffer, postMsgBuffer)]);
      sendMsgBuffer, postMsgBuffer, moved := SpliceHelper(sendMsgBuffer, postMsgBuffer);
    }

    /** The part of timer 2's handler that holds the locks. */
    method PostToSend(stopped: bool)
      modifies this
      ensures State() == Timer2Fires(old(State()), stopped)
    {
      var moved := SplicePosted();
      ghost var spliced := State();
      if moved {
        var _ := DoSendMsg(stopped);
      }
      SetPosting();
      FlagsCommute(spliced, posting, timer2, stopped);
    }

    method SetPosting()
      modifies this`posting, this`timer2
      ensures var left := postMsgBuffer != [];
              State() == old(State()).(posting := left, timer2 := if left then Restarting else Off)
    {
      var empty := postMsgBuffer == [];
      posting, timer2 := !empty, if empty then Off else Restarting;
    }

    /** `again` re-arms the timer. */
    method OnTimer2(stopped: bool) returns (again: bool)
      requires Valid() && timer2 == Armed
      modifies this
      ensures State() == Timer2Fires(old(State()), stopped)
      ensures again <==> postMsgBuffer != []
      ensures !stopped ==> Valid()
      ensures !stopped && old(InOrder() && !StartsSecond(State(), Timer2Fire)) ==> InOrder()
    {
      StepHolds(State(), Timer2Fire);
      PostToSend(stopped);
      return posting;
    }

    /** The write is over, whatever its outcome. */
    method Finish(ghost i: nat, ok: bool)
      requires i < |writes|
      modifies this`writes, this`finished, this`failed, this`sending
      ensures var tx := old(State());
              State() == tx.(writes := tx.writes[..i] + tx.writes[i + 1..], finished := tx.finished + [tx.writes[i]],
                             failed := tx.failed || !ok, sending := false)
    {
      writes, finished, failed := writes[..i] + writes[i + 1..], finished + [writes[i]], failed || !ok;
      sending := false;
    }

    method ReleaseSent()
      modifies this`lastSendMsg
      ensures State() == if sending then old(State()) else old(State()).(lastSend := [])
    {
      if !sending {
        lastSendMsg := [];
      }
    }

    method SendNext(ghost i: nat, ok: bool, stopped: bool)
      requires i < |writes|
      modifies this
      ensures State() == WriteDone(old(State()), i, ok, stopped)
    {
      Finish(i, ok);
      if ok {
        var _ := DoSendMsg(stopped);
      }
      ReleaseSent();
    }

    /** The handler of a write; which of the outstanding writes it belongs to is not visible to the code. */
    method SendHandler(ghost i: nat, ok: bool, stopped: bool)
      requires Valid() && i < |writes|
      modifies this
      ensures State() == WriteDone(old(State()), i, ok, stopped)
      ensures finished == old(finished) + [old(writes)[i]] && failed == (old(failed) || !ok)
      ensures !ok ==> sendMsgBuffer == old(sendMsgBuffer) && !sending && |writes| == |old(writes)| - 1
      ensures !stopped ==> Valid()
      ensures !stopped && old(InOrder()) ==> InOrder()
    {
      WriteHolds(State(), i, ok);
      WriteIs(State(), i, ok, stopped);
      SendNext(i, ok, stopped);
    }
  }

  lemma SentIs(tx: Tx, msg: Bytes, canOverflow: bool, stopped: bool)
    ensures var tx', enters := DirectSend(tx, msg, canOverflow, stopped), Accepts(tx, canOverflow) && msg != [];
            && tx'.entered == (if enters then tx.entered + [Entry(msg, false)] else tx.entered)
            && tx'.writes + tx'.send == tx.writes + tx.send + if enters then [msg] else []
  {
    if Accepts(tx, canOverflow) && msg != [] {
      StartMoves(tx.writes, tx.send + [msg]);
      Associative(tx.writes, tx.send, [msg]);
    }
  }

  lemma StartMoves(writes: seq<Bytes>, send: seq<Bytes>)
    requires send != []
    ensures (writes + [send[0]]) + send[1..] == writes + send
  {
  }

  lemma WriteIs(tx: Tx, i: nat, ok: bool, stopped: bool)
    requires i < |tx.writes|
    ensures var tx' := WriteDone(tx, i, ok, stopped);
            && tx'.failed == (tx.failed || !ok)
            && (!ok ==> tx'.send == tx.send && !tx'.sending && |tx'.writes| == |tx.writes| - 1)
  {
  }

  lemma DoSendHolds(tx: Tx)
    ensures TxInv(tx) ==> TxInv(DoSend(tx, false))
    ensures OneWrite(tx) && Intact(tx) && !StartsSecond(tx, SendCall) ==>
              OneWrite(DoSend(tx, false)) && Intact(DoSend(tx, false))
  {
    if TxInv(tx) {
      DoSendKeeps(tx);
    }
    if OneWrite(tx) && Intact(tx) && !StartsSecond(tx, SendCall) {
      DoSendOrder(tx);
    }
  }

  lemma WriteHolds(tx: Tx, i: nat, ok: bool)
    requires i < |tx.writes|
    ensures TxInv(tx) ==> TxInv(WriteDone(tx, i, ok, false))
    ensures OneWrite(tx) && Intact(tx) ==>
              OneWrite(WriteDone(tx, i, ok, false)) && Intact(WriteDone(tx, i, ok, false))
  {
    if TxInv(tx) {
      WriteDoneKeeps(tx, i, ok);
    }
    if OneWrite(tx) && Intact(tx) {
      WriteOrder(tx, ok);
    }
  }

  /** Lifting the suspension is a step that leaves a call behind, and then that call. */
  lemma SuspendHolds(tx: Tx, suspend: bool)
    ensures var last := Suspended(tx, suspend); TxInv(tx) ==> TxInv(last)
    ensures var last := Suspended(tx, suspend);
            OneWrite(tx) && Intact(tx) && (suspend || !StartsSecond(tx.(suspendSend := false), SendCall)) ==>
              OneWrite(last) && Intact(last)
  {
    if !suspend {
      if TxInv(tx) {
        DoSendKeeps(tx.(suspendSend := false));
      }
      DoSendHolds(tx.(suspendSend := false));
    }
  }

  function Suspended(tx: Tx, suspend: bool): (tx': Tx) {
    if suspend then tx.(suspendSend := true) else DoSend(tx.(suspendSend := false), false)
  }

  /** The code sets the flags after sending, the model before; `do_send_msg` does not look at them. */
  lemma FlagsCommute(tx: Tx, posting: bool, timer2: Timer2, stopped: bool)
    ensures DoSend(tx.(posting := posting, timer2 := timer2), stopped)
         == DoSend(tx, stopped).(posting := posting, timer2 := timer2)
  {
  }

  /** What the user is told about a read. */
  datatype Report = Fine | UnpackError | RecvError

  class RecvHalf {
    const forced: bool
    var recvMsgBuffer: seq<Bytes>
    var tempMsgBuffer: seq<Bytes>
    var lastDispatchMsg: Bytes
    var dispatching: bool
    var suspendDispatch: bool
    var timer1: bool
    var timer3: bool

    ghost var wakers: nat
    ghost var chain: Chain
    ghost var parsed: seq<Bytes>
    ghost var handled: seq<Bytes>

    ghost function State(): Rx
      reads this
    {
      Rx(forced, tempMsgBuffer, recvMsgBuffer, lastDispatchMsg, dispatching, suspendDispatch, timer1, timer3, wakers,
         chain, parsed, handled)
    }

    /** Every parsed message exactly once and, with the forced buffer, in order; bounded buffers; no lost wake-up. */
    ghost predicate Valid(posting: bool)
      reads this
    {
      RxInv(State(), posting)
    }

    constructor (forced: bool)
      ensures State() == RxInit(forced) && forall posting :: Valid(posting)
    {
      this.forced := forced;
      recvMsgBuffer, tempMsgBuffer, lastDispatchMsg := [], [], [];
      dispatching, suspendDispatch, timer1, timer3 := false, false, false, false;
      wakers, chain, parsed, handled := 0, Reading, [], [];
    }

    /** Gives at most one message to the user, and none while dispatching is suspended or posting is under way. */
    method DoDispatchMsg(env: Env)
      modifies this
      ensures State() == DoDispatch(old(State()), env)
      ensures suspendDispatch ==>
                && recvMsgBuffer == old(recvMsgBuffer) && tempMsgBuffer == old(tempMsgBuffer) && handled == old(handled)
                && dispatching == old(dispatching) && lastDispatchMsg == old(lastDispatchMsg)
                && timer1 == (old(timer1) || (!dispatching && recvMsgBuffer != []))
      ensures !suspendDispatch && env.posting ==> State() == old(State())
      ensures !suspendDispatch && !env.posting && !env.stopped && env.open ==>
                if !old(dispatching) && old(recvMsgBuffer) != [] then
                  dispatching && [lastDispatchMsg] + recvMsgBuffer == old(recvMsgBuffer) && handled == old(handled)
                else State() == old(State())
    {
      TryDispatch(env);
    }

    method TryDispatch(env: Env)
      modifies this
      ensures State() == DoDispatch(old(State()), env)
    {
      if suspendDispatch {
        if !dispatching && recvMsgBuffer != [] {
          timer1 := true;
        }
      } else if !env.posting {
        var dispatchAll := false;
        if env.stopped {
          dispatching := false;
          dispatchAll := true;
        } else if !dispatching {
          if !env.open {
            dispatchAll := true;
          } else if recvMsgBuffer != [] {
            dispatching := true;
            lastDispatchMsg := recvMsgBuffer[0];
            recvMsgBuffer := recvMsgBuffer[1..];
          }
        }
        if dispatchAll {
          HandOverAll();
        }
      }
    }

    /** The link is down. */
    method HandOverAll()
      modifies this
      ensures State() == DispatchAll(old(State()))
    {
      if forced {
        recvMsgBuffer, tempMsgBuffer := recvMsgBuffer + tempMsgBuffer, [];
      }
      handled := handled + recvMsgBuffer;
      recvMsgBuffer := [];
    }

    method SpliceParsed(env: Env)
      requires forced
      modifies this
      ensures State() == Dispatch(old(State()), env)
    {
      assert tempMsgBuffer == [] ==> recvMsgBuffer + tempMsgBuffer[..0] == recvMsgBuffer;
      if tempMsgBuffer != [] {
        var moved: bool;
        recvMsgBuffer, tempMsgBuffer, moved := SpliceHelper(recvMsgBuffer, tempMsgBuffer);
        if moved {
          TryDispatch(env);
        }
      }
      chain := if tempMsgBuffer == [] then Reading else Parked;
    }

    /** With the forced receive buffer. */
    method DispatchMsg(env: Env)
      requires forced && chain == Dispatching && Valid(env.posting)
      modifies this
      ensures State() == Dispatch(old(State()), env)
      ensures !env.stopped && env.open ==> Valid(env.posting)
    {
      DispatchHolds(State(), env);
      SpliceParsed(env);
    }

    method ScanTemp(envs: nat -> Env, answers: nat -> bool) returns (turns: nat)
      requires !forced && chain == Scanning(0, false)
      modifies this
      ensures State() == ScanAll(old(State()), envs, answers, 0) && turns == Turns(old(State()), envs, answers, 0)
    {
      var dispatch := false;
      var iter: nat := 0;
      turns := 0;
      while !suspendDispatch && !envs(turns).posting && iter < |tempMsgBuffer|
        invariant iter <= |tempMsgBuffer| && chain == Scanning(iter, dispatch)
        invariant ScanAll(State(), envs, answers, turns) == ScanAll(old(State()), envs, answers, 0)
        invariant Turns(State(), envs, answers, turns) == Turns(old(State()), envs, answers, 0)
        decreases |tempMsgBuffer| - iter
      {
        dispatch, iter := OfferMsg(answers(turns), dispatch, iter);
        turns := turns + 1;
      }
      if dispatch {
        TryDispatch(envs(turns));
      }
      chain := if tempMsgBuffer == [] then Reading else Parked;
    }

    /** Without it: each waiting message is offered to the user, and otherwise moves to the receive buffer if
        there is room. The loop ends early when posting starts; `turns` is when it ends. */
    method OfferMsgs(envs: nat -> Env, answers: nat -> bool) returns (turns: nat)
      requires !forced && chain == Scanning(0, false) && Valid(envs(0).posting)
      modifies this
      ensures State() == ScanAll(old(State()), envs, answers, 0) && turns == Turns(old(State()), envs, answers, 0)
      ensures (forall k :: !envs(k).stopped && envs(k).open) ==> Valid(envs(turns).posting)
    {
      ghost var before := State();
      turns := ScanTemp(envs, answers);
      if forall k :: !envs(k).stopped && envs(k).open {
        ScanAllKeeps(before, envs, answers, 0);
      }
    }

    /** One turn of the loop, once the user has answered. */
    method OfferMsg(taken: bool, dispatch: bool, iter: nat) returns (dispatch': bool, iter': nat)
      requires chain == Scanning(iter, dispatch) && iter < |tempMsgBuffer|
      modifies this
      ensures State() == ScanOne(old(State()), taken) && chain == Scanning(iter', dispatch')
      ensures handled == old(handled) + if taken then [old(tempMsgBuffer)[iter]] else []
      ensures !taken ==>
                if |old(recvMsgBuffer)| < MAX_MSG_NUM then
                  recvMsgBuffer == old(recvMsgBuffer) + [old(tempMsgBuffer)[iter]]
                else tempMsgBuffer == old(tempMsgBuffer) && iter' == iter + 1
    {
      dispatch', iter' := dispatch, iter;
      var m := tempMsgBuffer[iter];
      if taken {
        tempMsgBuffer := tempMsgBuffer[..iter] + tempMsgBuffer[iter + 1..];
        handled := handled + [m];
      } else if |recvMsgBuffer| < MAX_MSG_NUM {
        dispatch' := true;
        recvMsgBuffer := recvMsgBuffer + [m];
        tempMsgBuffer := tempMsgBuffer[..iter] + tempMsgBuffer[iter + 1..];
      } else {
        iter' := iter + 1;
      }
      chain := Scanning(iter', dispatch');
    }

    method Answered(re: bool, env: Env)
      modifies this
      ensures State() == Handled(old(State()), re, env)
    {
      dispatching := false;
      if !re {
        recvMsgBuffer := [lastDispatchMsg] + recvMsgBuffer;
        lastDispatchMsg := [];
        timer3 := true;
      } else {
        handled := handled + [lastDispatchMsg];
        TryDispatch(env);
      }
      if !dispatching {
        lastDispatchMsg := [];
      }
    }

    /** The message handler, with the user's answer. */
    method MsgHandler(re: bool, env: Env)
      requires dispatching && Valid(env.posting)
      modifies this
      ensures State() == Handled(old(State()), re, env)
      ensures !re ==>
                && !dispatching && timer3 && handled == old(handled) && tempMsgBuffer == old(tempMsgBuffer)
                && recvMsgBuffer == [old(lastDispatchMsg)] + old(recvMsgBuffer)
      ensures re && env.open && !env.stopped ==> handled == old(handled) + [old(lastDispatchMsg)]
      ensures re ==> old(handled) + [old(lastDispatchMsg)] <= handled
      ensures !env.stopped && env.open ==> Valid(env.posting)
    {
      HandledHolds(State(), re, env);
      AnswerIs(State(), re, env);
      Answered(re, env);
    }

    /** Up to the moment when the call takes the receive lock, and from there on. */
    method SuspendDispatchMsg(suspend: bool, env: Env)
      requires Valid(env.posting)
      modifies this
      ensures State() == Wake(SuspendDispatch(old(State()), suspend), env)
      ensures suspendDispatch == suspend
      ensures suspend ==>
                && handled == old(handled) && dispatching == old(dispatching) && recvMsgBuffer == old(recvMsgBuffer)
                && timer1 == (!dispatching && recvMsgBuffer != [])
      ensures !env.stopped && env.open ==> Valid(env.posting)
    {
      PauseHolds(State(), suspend, env);
      PauseIs(State(), suspend, env);
      SetPause(suspend, env);
    }

    method SetPause(suspend: bool, env: Env)
      modifies this
      ensures State() == Wake(SuspendDispatch(old(State()), suspend), env)
    {
      suspendDispatch := suspend;
      timer1 := false;
      TryDispatch(env);
    }

    /** The handler of a read: `msgs` and `ok` are what the unpacker made of its bytes. The messages in front of
        malformed bytes are dispatched, and the next read may be under way, before the user is told. */
    method RecvHandler(ec: bool, received: nat, msgs: seq<Bytes>, ok: bool, envs: nat -> Env, answers: nat -> bool)
        returns (report: Report, turns: nat)
      requires chain == Reading && Valid(envs(0).posting)
      modifies this
      ensures report == if ec || received == 0 then RecvError else if ok then Fine else UnpackError
      ensures State() == if report == RecvError then old(State()).(chain := Ended)
                         else Dispatched(Received(old(State()), msgs), envs, answers)
      ensures parsed == if report == RecvError then old(parsed) else old(parsed) + msgs
      ensures (forall k :: !envs(k).stopped && envs(k).open) ==> Valid(envs(turns).posting)
    {
      if !ec && received > 0 {
        turns := GoOn(msgs, envs, answers);
        report := if ok then Fine else UnpackError;
      } else {
        EndReading(envs(0).posting);
        turns, report := 0, RecvError;
      }
    }

    method GoOn(msgs: seq<Bytes>, envs: nat -> Env, answers: nat -> bool) returns (turns: nat)
      requires chain == Reading && Valid(envs(0).posting)
      modifies this
      ensures State() == Dispatched(Received(old(State()), msgs), envs, answers)
      ensures (forall k :: !envs(k).stopped && envs(k).open) ==> Valid(envs(turns).posting)
    {
      ReceivedKeeps(State(), envs(0).posting, msgs);
      TakeParsed(msgs);
      turns := DispatchParsed(envs, answers);
    }

    ghost method EndReading(posting: bool)
      requires chain == Reading && Valid(posting)
      modifies this`chain
      ensures State() == old(State()).(chain := Ended) && Valid(posting)
    {
      ChainKeeps(State(), posting, ReadFails);
      chain := Ended;
    }

    /** dispatch_msg() in either configuration. */
    method DispatchParsed(envs: nat -> Env, answers: nat -> bool) returns (turns: nat)
      requires Valid(envs(0).posting) && chain == if forced then Dispatching else Scanning(0, false)
      modifies this
      ensures State() == Dispatched(old(State()), envs, answers)
      ensures (forall k :: !envs(k).stopped && envs(k).open) ==> Valid(envs(turns).posting)
    {
      turns := 0;
      if forced {
        DispatchMsg(envs(0));
      } else {
        turns := OfferMsgs(envs, answers);
      }
    }

    method TakeParsed(msgs: seq<Bytes>)
      modifies this`tempMsgBuffer, this`parsed, this`chain
      ensures State() == Received(old(State()), msgs)
    {
      tempMsgBuffer, parsed := tempMsgBuffer + msgs, parsed + msgs;
      chain := if forced then Dispatching else Scanning(0, false);
    }
  }

  lemma DispatchHolds(rx: Rx, env: Env)
    requires RxInv(rx, env.posting) && rx.chain == Dispatching
    ensures !env.stopped && env.open ==> RxInv(Dispatch(rx, env), env.posting)
  {
    if !env.stopped && env.open {
      assert env == Env(env.posting, false, true);
      DispatchKeeps(rx, env.posting);
    }
  }

  lemma PauseIs(rx: Rx, suspend: bool, env: Env)
    ensures var rx' := Wake(SuspendDispatch(rx, suspend), env);
            && rx'.suspendDispatch == suspend
            && (suspend ==>
                  && rx'.handled == rx.handled && rx'.dispatching == rx.dispatching && rx'.recv == rx.recv
                  && rx'.timer1 == (!rx.dispatching && rx.recv != []))
  {
  }

  lemma AnswerIs(rx: Rx, re: bool, env: Env)
    ensures var rx' := Handled(rx, re, env);
            && (!re ==>
                  && !rx'.dispatching && rx'.timer3 && rx'.handled == rx.handled && rx'.temp == rx.temp
                  && rx'.recv == [rx.lastDispatch] + rx.recv)
            && (re && env.open && !env.stopped ==> rx'.handled == rx.handled + [rx.lastDispatch])
            && (re ==> rx.handled + [rx.lastDispatch] <= rx'.handled)
  {
  }

  lemma HandledHolds(rx: Rx, re: bool, env: Env)
    requires RxInv(rx, env.posting) && rx.dispatching
    ensures !env.stopped && env.open ==> RxInv(Handled(rx, re, env), env.posting)
  {
    if !env.stopped && env.open {
      assert env == Env(env.posting, false, true);
      HandledKeeps(rx, env.posting, re);
    }
  }

  lemma PauseHolds(rx: Rx, suspend: bool, env: Env)
    requires RxInv(rx, env.posting)
    ensures !env.stopped && env.open ==> RxInv(Wake(SuspendDispatch(rx, suspend), env), env.posting)
  {
    if !env.stopped && env.open {
      assert env == Env(env.posting, false, true);
      RxStepKeeps(rx, env.posting, SuspendDispatchCall(suspend));
      WakeKeeps(SuspendDispatch(rx, suspend), env.posting);
    }
  }

  /** While the loop goes on nothing is being posted; at its end something may be. */
  lemma {:induction false} ScanAllKeeps(rx: Rx, envs: nat -> Env, answers: nat -> bool, turn: nat)
    requires RxInv(rx, envs(turn).posting) && rx.chain.Scanning?
    requires forall k :: !envs(k).stopped && envs(k).open
    ensures RxInv(ScanAll(rx, envs, answers, turn), envs(Turns(rx, envs, answers, turn)).posting)
    decreases |rx.temp| - rx.chain.at
  {
    var posting := envs(turn).posting;
    assert envs(turn) == Env(posting, false, true);
    if ScanGoesOn(rx, envs(turn)) {
      var next := ScanOne(rx, answers(turn));
      ScanTurnKeeps(rx, false, answers(turn));
      MayPost(next, envs(turn + 1).posting);
      ScanAllKeeps(next, envs, answers, turn + 1);
    } else {
      ScanDoneKeeps(rx, posting);
    }
  }

  lemma MayPost(rx: Rx, posting: bool)
    requires RxInv(rx, false)
    ensures RxInv(rx, posting)
  {
  }
}
