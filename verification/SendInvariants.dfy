/** What every step of the sending half keeps. */
module SendInvariants {
  import opened Framing
  import opened SocketModel

  datatype TxStep =
    | DirectSendCall(msg: Bytes, canOverflow: bool)
    | DirectPostCall(msg: Bytes)
    | Timer2Fire
    | Timer2Restart
    | SuspendSendCall(suspend: bool)
    | SendWake                          // the tail of a call that lifted the suspension
    | SendCall                          // send_msg() without a message
    | GracefulClose
    | WriteCompletes(i: nat, ok: bool)

  predicate TxEnabled(tx: Tx, step: TxStep) {
    match step
    case Timer2Fire => tx.timer2 == Armed
    case Timer2Restart => tx.timer2 == Restarting
    case SendWake => tx.wakers > 0
    case WriteCompletes(i, _) => i < |tx.writes|
    case _ => true
  }

  function TxApply(tx: Tx, step: TxStep): (tx': Tx)
    requires TxEnabled(tx, step)
  {
    match step
    case DirectSendCall(msg, canOverflow) => DirectSend(tx, msg, canOverflow, false)
    case DirectPostCall(msg) => DirectPost(tx, msg)
    case Timer2Fire => Timer2Fires(tx, false)
    case Timer2Restart => tx.(timer2 := Armed)
    case SuspendSendCall(b) => tx.(suspendSend := b, wakers := tx.wakers + if b then 0 else 1)
    case SendWake => DoSend(tx.(wakers := tx.wakers - 1), false)
    case SendCall => DoSend(tx, false)
    case GracefulClose => tx.(closing := true)
    case WriteCompletes(i, ok) => WriteDone(tx, i, ok, false)
  }

  const TxInit := Tx([], [], [], [], false, false, false, false, Off, 0, [], [], [], false, false)

  // ---------------------------------------------------------------- histories

  function Msgs(es: seq<Entry>): (ms: seq<Bytes>) {
    if es == [] then [] else [es[0].msg] + Msgs(es[1..])
  }

  /** The messages that came through the post buffer. */
  function ViaPost(es: seq<Entry>): (ms: seq<Bytes>) {
    if es == [] then [] else (if es[0].posted then [es[0].msg] else []) + ViaPost(es[1..])
  }

  /** The messages that were sent directly. */
  function Direct(es: seq<Entry>): (ms: seq<Bytes>) {
    if es == [] then [] else (if es[0].posted then [] else [es[0].msg]) + Direct(es[1..])
  }

  lemma {:induction false} DirectAppend(a: seq<Entry>, b: seq<Entry>)
    ensures Direct(a + b) == Direct(a) + Direct(b)
  {
    if a == [] {
      assert a + b == b;
    } else {
      DirectAppend(a[1..], b);
      assert (a + b)[1..] == a[1..] + b;
      Associative(if a[0].posted then [] else [a[0].msg], Direct(a[1..]), Direct(b));
    }
  }

  lemma {:induction false} PostedNotDirect(ms: seq<Bytes>)
    ensures Direct(Posted(ms)) == []
  {
    if ms != [] {
      PostedNotDirect(ms[1..]);
      assert Posted(ms)[1..] == Posted(ms[1..]);
    }
  }

  lemma {:induction false} MsgsAppend(a: seq<Entry>, b: seq<Entry>)
    ensures Msgs(a + b) == Msgs(a) + Msgs(b)
  {
    if a == [] {
      assert a + b == b;
    } else {
      MsgsAppend(a[1..], b);
      assert (a + b)[1..] == a[1..] + b;
      Associative([a[0].msg], Msgs(a[1..]), Msgs(b));
    }
  }

  lemma {:induction false} ViaPostAppend(a: seq<Entry>, b: seq<Entry>)
    ensures ViaPost(a + b) == ViaPost(a) + ViaPost(b)
  {
    if a == [] {
      assert a + b == b;
    } else {
      ViaPostAppend(a[1..], b);
      assert (a + b)[1..] == a[1..] + b;
      Associative(if a[0].posted then [a[0].msg] else [], ViaPost(a[1..]), ViaPost(b));
    }
  }

  lemma {:induction false} HistoryPosted(ms: seq<Bytes>)
    ensures Msgs(Posted(ms)) == ms && ViaPost(Posted(ms)) == ms
  {
    if ms != [] {
      HistoryPosted(ms[1..]);
      assert Posted(ms)[1..] == Posted(ms[1..]);
      assert ms == [ms[0]] + ms[1..];
    }
  }

  lemma HistoryOne(msg: Bytes)
    ensures Msgs([Entry(msg, false)]) == [msg] && ViaPost([Entry(msg, false)]) == []
  {
    assert [Entry(msg, false)][1..] == [];
  }

  // ---------------------------------------------------------------- in every state

  /** Posting: the flag, the buffer and the timer agree, so nothing is left in the post buffer without a
      retry under way. */
  ghost predicate PostingInv(tx: Tx) {
    && (tx.posting <==> tx.post != [])
    && (tx.timer2 == Off <==> !tx.posting)
  }

  /** The buffer is bounded unless the caller waived it, and it is not forgotten: while sending is allowed and
      no write has failed, messages in the buffer mean that a write or a call is under way. */
  ghost predicate BufferInv(tx: Tx) {
    && (!tx.overflowed ==> |tx.send| <= MAX_MSG_NUM)
    && (tx.sending ==> tx.writes != [])
    && (!tx.failed && Allowed(tx) && tx.send != [] ==> tx.sending || tx.wakers > 0)
  }

  /** A message that entered the post buffer has moved to the send buffer in its turn or is still there. */
  ghost predicate PostOrder(tx: Tx) {
    tx.posted == ViaPost(tx.entered) + tx.post
  }

  /** A message that entered the send buffer is in exactly one of buffer, outstanding write, finished write. */
  ghost predicate Conserved(tx: Tx) {
    multiset(Msgs(tx.entered)) == multiset(tx.finished) + multiset(tx.writes) + multiset(tx.send)
  }

  ghost predicate TxInv(tx: Tx) {
    PostingInv(tx) && BufferInv(tx) && PostOrder(tx) && Conserved(tx)
  }

  lemma SplitFirst(s: seq<Bytes>)
    requires s != []
    ensures multiset(s) == multiset([s[0]]) + multiset(s[1..])
  {
    assert s == [s[0]] + s[1..];
  }

  lemma SplitAt(s: seq<Bytes>, i: nat)
    requires i < |s|
    ensures multiset(s) == multiset(s[..i] + s[i + 1..]) + multiset([s[i]])
  {
    assert s == s[..i] + [s[i]] + s[i + 1..];
  }

  lemma DoSendKeeps(tx: Tx)
    requires PostingInv(tx) && PostOrder(tx) && Conserved(tx)
    requires (!tx.overflowed ==> |tx.send| <= MAX_MSG_NUM) && (tx.sending ==> tx.writes != [])
    ensures TxInv(DoSend(tx, false))
  {
    if tx.send != [] {
      SplitFirst(tx.send);
    }
  }

  /** Messages enter the send buffer. */
  lemma EnterKeeps(tx: Tx, msgs: seq<Bytes>, es: seq<Entry>)
    requires Conserved(tx) && Msgs(es) == msgs
    ensures Conserved(tx.(send := tx.send + msgs, entered := tx.entered + es))
    ensures ViaPost(tx.entered + es) == ViaPost(tx.entered) + ViaPost(es)
  {
    MsgsAppend(tx.entered, es);
    ViaPostAppend(tx.entered, es);
  }

  /** The step runs `do_send_msg`. */
  predicate Sends(tx: Tx, step: TxStep) {
    match step
    case DirectSendCall(msg, canOverflow) => Accepts(tx, canOverflow) && msg != []
    case Timer2Fire => Movable(tx.send, tx.post) > 0
    case SendWake => true
    case SendCall => true
    case _ => false
  }

  /** The state in which it does: messages have entered the send buffer, or a call has come to its turn. */
  function Ready(tx: Tx, step: TxStep): (tx': Tx)
    requires TxEnabled(tx, step) && Sends(tx, step)
  {
    match step
    case DirectSendCall(msg, canOverflow) =>
      tx.(send := tx.send + [msg], entered := tx.entered + [Entry(msg, false)],
          overflowed := tx.overflowed || canOverflow)
    case Timer2Fire => Spliced(tx, Movable(tx.send, tx.post))
    case SendWake => tx.(wakers := tx.wakers - 1)
    case SendCall => tx
  }

  lemma SendShape(tx: Tx, step: TxStep)
    requires TxEnabled(tx, step) && Sends(tx, step)
    ensures TxApply(tx, step) == DoSend(Ready(tx, step), false)
  {
  }

  /** All other steps but the end of a write leave the send buffer alone. */
  lemma RestShape(tx: Tx, step: TxStep)
    requires TxEnabled(tx, step) && !Sends(tx, step) && !step.WriteCompletes?
    ensures SameFlow(tx, TxApply(tx, step))
  {
    if step.Timer2Fire? {
      assert tx.send + tx.post[..0] == tx.send && tx.entered + Posted(tx.post[..0]) == tx.entered;
    }
  }

  predicate SameFlow(tx: Tx, tx': Tx) {
    && tx'.send == tx.send && tx'.writes == tx.writes && tx'.lastSend == tx.lastSend && tx'.sending == tx.sending
    && tx'.entered == tx.entered && tx'.finished == tx.finished && tx'.failed == tx.failed
  }

  lemma DirectSendKeeps(tx: Tx, step: TxStep)
    requires TxInv(tx) && step.DirectSendCall? && Sends(tx, step)
    ensures TxInv(DoSend(Ready(tx, step), false))
  {
    var es := [Entry(step.msg, false)];
    HistoryOne(step.msg);
    EnterKeeps(tx, [step.msg], es);
    assert ViaPost(tx.entered) + [] == ViaPost(tx.entered);
    DoSendKeeps(Ready(tx, step));
  }

  lemma DirectPostKeeps(tx: Tx, msg: Bytes)
    requires TxInv(tx)
    ensures TxInv(DirectPost(tx, msg))
  {
    Associative(ViaPost(tx.entered), tx.post, [msg]);
  }

  lemma SpliceKeeps(tx: Tx, n: nat)
    requires TxInv(tx) && n == Movable(tx.send, tx.post)
    ensures var tx' := Spliced(tx, n);
            && PostingInv(tx') && PostOrder(tx') && Conserved(tx')
            && (!tx'.overflowed ==> |tx'.send| <= MAX_MSG_NUM)
  {
    var moved, left := tx.post[..n], tx.post[n..];
    assert moved + left == tx.post;
    HistoryPosted(moved);
    EnterKeeps(tx, moved, Posted(moved));
    Associative(ViaPost(tx.entered), moved, left);
  }

  lemma Timer2Keeps(tx: Tx)
    requires TxInv(tx) && tx.timer2 == Armed
    ensures TxInv(Timer2Fires(tx, false))
  {
    var n := Movable(tx.send, tx.post);
    SpliceKeeps(tx, n);
    if n > 0 {
      DoSendKeeps(Spliced(tx, n));
    } else {
      assert Spliced(tx, 0).send == tx.send;
    }
  }

  lemma FinishConserves(tx: Tx, i: nat)
    requires Conserved(tx) && i < |tx.writes|
    ensures Conserved(tx.(writes := tx.writes[..i] + tx.writes[i + 1..], finished := tx.finished + [tx.writes[i]]))
  {
    SplitAt(tx.writes, i);
  }

  lemma ClearLastKeeps(tx: Tx)
    requires TxInv(tx)
    ensures TxInv(tx.(lastSend := []))
  {
  }

  lemma WriteDoneKeeps(tx: Tx, i: nat, ok: bool)
    requires TxInv(tx) && i < |tx.writes|
    ensures TxInv(WriteDone(tx, i, ok, false))
  {
    FinishConserves(tx, i);
    var done := tx.(writes := tx.writes[..i] + tx.writes[i + 1..], finished := tx.finished + [tx.writes[i]],
                    failed := tx.failed || !ok, sending := false);
    assert Conserved(done) && PostOrder(done) && PostingInv(done);
    var next := if ok then DoSend(done, false) else done;
    assert TxInv(next) by {
      if ok {
        DoSendKeeps(done);
      }
    }
    ClearLastKeeps(next);
  }

  lemma FlagsKeep(tx: Tx, step: TxStep)
    requires TxInv(tx) && TxEnabled(tx, step)
    requires step.Timer2Restart? || step.SuspendSendCall? || step.GracefulClose?
    ensures TxInv(TxApply(tx, step))
  {
  }

  lemma TxStepKeeps(tx: Tx, step: TxStep)
    requires TxInv(tx) && TxEnabled(tx, step)
    ensures TxInv(TxApply(tx, step))
  {
    match step
    case DirectSendCall(msg, canOverflow) =>
      if Sends(tx, step) {
        SendShape(tx, step);
        DirectSendKeeps(tx, step);
      }
    case DirectPostCall(msg) => DirectPostKeeps(tx, msg);
    case Timer2Fire => Timer2Keeps(tx);
    case SendWake => DoSendKeeps(tx.(wakers := tx.wakers - 1));
    case SendCall => DoSendKeeps(tx);
    case WriteCompletes(i, ok) => WriteDoneKeeps(tx, i, ok);
    case _ => FlagsKeep(tx, step);
  }

  // ---------------------------------------------------------------- one write at a time

  /** At most one write is outstanding, and messages leave in the order in which they entered. */
  ghost predicate OneWrite(tx: Tx) {
    |tx.writes| <= 1 && Msgs(tx.entered) == tx.finished + (tx.writes + tx.send)
  }

  /** The bytes of an outstanding write are still where the write found them, in `last_send_msg`. */
  predicate Intact(tx: Tx) {
    && (tx.sending ==> tx.writes != [])
    && (tx.writes != [] ==> tx.writes == [tx.lastSend])
  }

  /** A message waits in the send buffer, or comes with the step. */
  predicate Waiting(tx: Tx, step: TxStep) {
    step.DirectSendCall? || step.Timer2Fire? || tx.send != []
  }

  /** The step runs `do_send_msg` with sending allowed and `sending` clear, although a write is outstanding,
      and there is a message to send. */
  predicate StartsSecond(tx: Tx, step: TxStep) {
    Sends(tx, step) && Allowed(tx) && !tx.sending && tx.writes != [] && Waiting(tx, step)
  }

  lemma EnterOrder(tx: Tx, msgs: seq<Bytes>, es: seq<Entry>)
    requires OneWrite(tx) && Msgs(es) == msgs
    ensures OneWrite(tx.(send := tx.send + msgs, entered := tx.entered + es))
  {
    MsgsAppend(tx.entered, es);
    Associative(tx.finished, tx.writes + tx.send, msgs);
    Associative(tx.writes, tx.send, msgs);
  }

  /** What entered is behind everything else, and nothing but the buffer has changed. */
  lemma ReadyOrder(tx: Tx, step: TxStep)
    requires TxEnabled(tx, step) && Sends(tx, step)
    ensures var r := Ready(tx, step);
            && (OneWrite(tx) ==> OneWrite(r))
            && r.writes == tx.writes && r.sending == tx.sending && r.lastSend == tx.lastSend
            && r.finished == tx.finished && r.failed == tx.failed
            && Allowed(r) == Allowed(tx) && (r.send != [] <==> Waiting(tx, step))
  {
    if OneWrite(tx) {
      match step
      case DirectSendCall(msg, canOverflow) =>
        HistoryOne(msg);
        EnterOrder(tx, [msg], [Entry(msg, false)]);
      case Timer2Fire =>
        var moved := tx.post[..Movable(tx.send, tx.post)];
        HistoryPosted(moved);
        EnterOrder(tx, moved, Posted(moved));
      case _ =>
    }
  }

  lemma DoSendOrder(tx: Tx)
    requires OneWrite(tx) && Intact(tx)
    requires !(Allowed(tx) && !tx.sending && tx.writes != [] && tx.send != [])
    ensures OneWrite(DoSend(tx, false)) && Intact(DoSend(tx, false))
    ensures tx.writes != [] ==> DoSend(tx, false).writes == tx.writes
  {
    if Allowed(tx) && !tx.sending && tx.send != [] {
      assert [] + tx.send == [tx.send[0]] + tx.send[1..];
    }
  }

  lemma WriteOrder(tx: Tx, ok: bool)
    requires OneWrite(tx) && Intact(tx) && tx.writes != []
    ensures OneWrite(WriteDone(tx, 0, ok, false)) && Intact(WriteDone(tx, 0, ok, false))
  {
    var m := tx.lastSend;
    assert tx.writes[..0] + tx.writes[1..] == [];
    Associative(tx.finished, [m], tx.send);
    assert [] + tx.send == tx.send;
    var done := tx.(writes := tx.writes[..0] + tx.writes[1..], finished := tx.finished + [tx.writes[0]],
                    failed := tx.failed || !ok, sending := false);
    assert OneWrite(done);
    if ok {
      DoSendOrder(done);
    }
  }

  lemma OneWriteStep(tx: Tx, step: TxStep)
    requires OneWrite(tx) && Intact(tx) && TxEnabled(tx, step) && !StartsSecond(tx, step)
    ensures OneWrite(TxApply(tx, step)) && Intact(TxApply(tx, step))
  {
    if step.WriteCompletes? {
      WriteOrder(tx, step.ok);
    } else if Sends(tx, step) {
      SendShape(tx, step);
      ReadyOrder(tx, step);
      DoSendOrder(Ready(tx, step));
    } else {
      RestShape(tx, step);
    }
  }

  lemma SecondStarts(tx: Tx, step: TxStep)
    requires TxEnabled(tx, step) && StartsSecond(tx, step)
    ensures |TxApply(tx, step).writes| > 1
  {
    SendShape(tx, step);
    ReadyOrder(tx, step);
  }

  /** Losing it is easy: from every such state with a write outstanding and a message waiting, suspending,
      trying to send and resuming starts a second write beside the first, and overwrites the bytes that the
      first one is sending. */
  lemma SecondWrite(tx: Tx)
    requires OneWrite(tx) && Intact(tx) && tx.writes != [] && tx.send != [] && !tx.closing
    ensures var a := TxApply(tx, SuspendSendCall(true)); var b := TxApply(a, SendCall);
            var c := TxApply(b, SuspendSendCall(false)); var d := TxApply(c, SendWake);
            d.writes == [tx.lastSend, tx.send[0]] && d.lastSend == tx.send[0]
  {
  }

  // ---------------------------------------------------------------- runs

  /** A run; a step that is not enabled changes nothing, so that every list of steps is a run. */
  function TxRun(tx: Tx, steps: seq<TxStep>): (tx': Tx)
    decreases |steps|
  {
    if steps == [] then tx
    else
      var before, step := TxRun(tx, steps[..|steps| - 1]), steps[|steps| - 1];
      if TxEnabled(before, step) then TxApply(before, step) else before
  }

  lemma {:induction false} SendingAlways(steps: seq<TxStep>)
    ensures TxInv(TxRun(TxInit, steps))
    decreases |steps|
  {
    if steps != [] {
      var prefix, step := steps[..|steps| - 1], steps[|steps| - 1];
      SendingAlways(prefix);
      if TxEnabled(TxRun(TxInit, prefix), step) {
        TxStepKeeps(TxRun(TxInit, prefix), step);
      }
    }
  }

  lemma TxRunNext(tx: Tx, steps: seq<TxStep>, step: TxStep)
    ensures var before := TxRun(tx, steps);
            TxRun(tx, steps + [step]) == if TxEnabled(before, step) then TxApply(before, step) else before
  {
    assert (steps + [step])[..|steps|] == steps;
  }

  lemma TwoSends(m: Bytes) returns (steps: seq<TxStep>)
    requires m != []
    ensures var tx := TxRun(TxInit, steps);
            && tx.writes == [m] && tx.send == [m] && tx.lastSend == m && tx.sending && !tx.closing
            && OneWrite(tx) && Intact(tx)
  {
    var send := DirectSendCall(m, false);
    var one := DirectSend(TxInit, m, false, false);
    steps := [send] + [send];
    assert [send][..0] == [];
    TxRunNext(TxInit, [send], send);
    assert TxRun(TxInit, [send]) == one;
    OneWriteStep(TxInit, send);
    OneWriteStep(one, send);
  }

  lemma FourMore(steps: seq<TxStep>, tx: Tx)
    requires TxRun(TxInit, steps) == tx
    ensures var a := TxApply(tx, SuspendSendCall(true)); var b := TxApply(a, SendCall);
            var c := TxApply(b, SuspendSendCall(false)); var d := TxApply(c, SendWake);
            TxRun(TxInit, steps + [SuspendSendCall(true)] + [SendCall] + [SuspendSendCall(false)] + [SendWake]) == d
  {
    TxRunNext(TxInit, steps, SuspendSendCall(true));
    TxRunNext(TxInit, steps + [SuspendSendCall(true)], SendCall);
    TxRunNext(TxInit, steps + [SuspendSendCall(true)] + [SendCall], SuspendSendCall(false));
    TxRunNext(TxInit, steps + [SuspendSendCall(true)] + [SendCall] + [SuspendSendCall(false)], SendWake);
  }

  /** There is such a run. */
  lemma SecondWriteHappens(m: Bytes) returns (steps: seq<TxStep>)
    requires m != []
    ensures TxRun(TxInit, steps).writes == [m, m] && !OneWrite(TxRun(TxInit, steps))
  {
    var two := TwoSends(m);
    SecondWrite(TxRun(TxInit, two));
    FourMore(two, TxRun(TxInit, two));
    steps := two + [SuspendSendCall(true)] + [SendCall] + [SuspendSendCall(false)] + [SendWake];
  }

  /** The state before the k-th step. */
  function At(steps: seq<TxStep>, k: nat): (tx: Tx)
    requires k <= |steps|
  {
    TxRun(TxInit, steps[..k])
  }

  predicate Happens(steps: seq<TxStep>, k: nat)
    requires k < |steps|
  {
    TxEnabled(At(steps, k), steps[k])
  }

  lemma AtNext(steps: seq<TxStep>, k: nat)
    requires k < |steps|
    ensures At(steps, k + 1) == if Happens(steps, k) then TxApply(At(steps, k), steps[k]) else At(steps, k)
  {
    assert steps[..k + 1][..k] == steps[..k];
  }

  /** No step up to the n-th starts a second write. */
  ghost predicate NeverSecond(steps: seq<TxStep>, n: nat) {
    forall k :: 0 <= k < n <= |steps| && Happens(steps, k) ==> !StartsSecond(At(steps, k), steps[k])
  }

  lemma {:induction false} OneWriteAlways(steps: seq<TxStep>, n: nat)
    requires n <= |steps| && NeverSecond(steps, n)
    ensures OneWrite(At(steps, n)) && Intact(At(steps, n))
    decreases n
  {
    if n > 0 {
      OneWriteAlways(steps, n - 1);
      AtNext(steps, n - 1);
      if Happens(steps, n - 1) {
        OneWriteStep(At(steps, n - 1), steps[n - 1]);
      }
    }
  }

  /** Exactly when one write at a time and the order are kept all along a run. */
  lemma OneWriteExactly(steps: seq<TxStep>)
    ensures NeverSecond(steps, |steps|) <==> forall k :: 0 <= k <= |steps| ==> OneWrite(At(steps, k))
  {
    if NeverSecond(steps, |steps|) {
      forall k | 0 <= k <= |steps| ensures OneWrite(At(steps, k)) {
        OneWriteAlways(steps, k);
      }
    } else {
      var k :| 0 <= k < |steps| && Happens(steps, k) && StartsSecond(At(steps, k), steps[k]);
      SecondStarts(At(steps, k), steps[k]);
      AtNext(steps, k);
      assert !OneWrite(At(steps, k + 1));
    }
  }

  /** Before the n-th step, some call has tried to send while a write was outstanding and sending disallowed,
      and no write has completed since. This is all that a caller has to know. */
  function Spoiled(steps: seq<TxStep>, n: nat): (b: bool)
    requires n <= |steps|
  {
    if n == 0 then false
    else
      var tx, step := At(steps, n - 1), steps[n - 1];
      if !Happens(steps, n - 1) then Spoiled(steps, n - 1)
      else !step.WriteCompletes? && (Spoiled(steps, n - 1) || (Sends(tx, step) && !Allowed(tx) && tx.writes != []))
  }

  /** No step up to the n-th tries to send, with sending allowed and a message waiting, in a spoiled state. */
  ghost predicate Careful(steps: seq<TxStep>, n: nat) {
    forall k :: 0 <= k < n <= |steps| && Happens(steps, k) && Spoiled(steps, k) ==>
      !(Sends(At(steps, k), steps[k]) && Allowed(At(steps, k)) && Waiting(At(steps, k), steps[k]))
  }

  lemma SpoilStep(tx: Tx, step: TxStep, spoiled: bool)
    requires OneWrite(tx) && Intact(tx) && TxEnabled(tx, step) && !StartsSecond(tx, step)
    requires spoiled <==> tx.writes != [] && !tx.sending
    ensures var tx' := TxApply(tx, step);
            (tx'.writes != [] && !tx'.sending) <==>
              !step.WriteCompletes? && (spoiled || (Sends(tx, step) && !Allowed(tx) && tx.writes != []))
  {
    if step.WriteCompletes? {
      assert tx.writes[..0] + tx.writes[1..] == [];
    } else if Sends(tx, step) {
      SendShape(tx, step);
      ReadyOrder(tx, step);
    } else {
      RestShape(tx, step);
    }
  }

  /** While one write at a time is kept, spoiled means that `sending` is clear in spite of a write. */
  lemma {:induction false} SpoiledIs(steps: seq<TxStep>, n: nat)
    requires n <= |steps| && NeverSecond(steps, n)
    ensures Spoiled(steps, n) <==> At(steps, n).writes != [] && !At(steps, n).sending
    decreases n
  {
    if n > 0 {
      SpoiledIs(steps, n - 1);
      AtNext(steps, n - 1);
      OneWriteAlways(steps, n - 1);
      if Happens(steps, n - 1) {
        SpoilStep(At(steps, n - 1), steps[n - 1], Spoiled(steps, n - 1));
      }
    }
  }

  /** What `Careful` excludes of a step and what `NeverSecond` excludes is the same. */
  lemma CarefulStep(steps: seq<TxStep>, k: nat)
    requires k < |steps| && NeverSecond(steps, k)
    ensures var tx := At(steps, k);
            StartsSecond(tx, steps[k]) <==>
              Spoiled(steps, k) && Sends(tx, steps[k]) && Allowed(tx) && Waiting(tx, steps[k])
  {
    SpoiledIs(steps, k);
  }

  lemma {:induction false} CarefulExactly(steps: seq<TxStep>, n: nat)
    requires n <= |steps|
    ensures Careful(steps, n) <==> NeverSecond(steps, n)
    decreases n
  {
    if n > 0 {
      CarefulExactly(steps, n - 1);
      if NeverSecond(steps, n - 1) {
        CarefulStep(steps, n - 1);
        assert Careful(steps, n - 1);
      }
    }
  }

  /** The same in the caller's terms: after an attempt to send that came while sending was disallowed and a
      write outstanding, no allowed attempt with a message waiting before that write has completed. */
  lemma OneWriteForCallers(steps: seq<TxStep>)
    ensures Careful(steps, |steps|) <==> forall k :: 0 <= k <= |steps| ==> OneWrite(At(steps, k))
  {
    CarefulExactly(steps, |steps|);
    OneWriteExactly(steps);
  }

  // ---------------------------------------------------------------- what the calls and completions amount to

  /** The message that the call puts into the post buffer: any but an empty one. */
  function PostOf(step: TxStep): (ms: seq<Bytes>) {
    if step.DirectPostCall? && step.msg != [] then [step.msg] else []
  }

  /** The message that the call puts into the send buffer: any but an empty one, if there is room or the caller
      waives the limit. */
  function SendOf(tx: Tx, step: TxStep): (ms: seq<Bytes>) {
    if step.DirectSendCall? && step.msg != [] && (step.canOverflow || |tx.send| < MAX_MSG_NUM) then [step.msg] else []
  }

  lemma InputStep(tx: Tx, step: TxStep)
    requires TxEnabled(tx, step)
    ensures TxApply(tx, step).posted == tx.posted + PostOf(step)
    ensures Direct(TxApply(tx, step).entered) == Direct(tx.entered) + SendOf(tx, step)
  {
    if Sends(tx, step) {
      SendShape(tx, step);
      InputReady(tx, step);
    } else {
      InputRest(tx, step);
    }
  }

  lemma InputReady(tx: Tx, step: TxStep)
    requires TxEnabled(tx, step) && Sends(tx, step)
    ensures Ready(tx, step).posted == tx.posted + PostOf(step)
    ensures Direct(Ready(tx, step).entered) == Direct(tx.entered) + SendOf(tx, step)
  {
    match step
    case DirectSendCall(msg, canOverflow) =>
      DirectAppend(tx.entered, [Entry(msg, false)]);
      assert [Entry(msg, false)][1..] == [];
    case Timer2Fire =>
      var moved := tx.post[..Movable(tx.send, tx.post)];
      DirectAppend(tx.entered, Posted(moved));
      PostedNotDirect(moved);
    case _ =>
  }

  lemma InputRest(tx: Tx, step: TxStep)
    requires TxEnabled(tx, step) && !Sends(tx, step)
    ensures TxApply(tx, step).posted == tx.posted + PostOf(step)
    ensures Direct(TxApply(tx, step).entered) == Direct(tx.entered) + SendOf(tx, step)
  {
    if !step.WriteCompletes? {
      RestShape(tx, step);
    }
  }

  /** The non-empty messages of the calls to post. */
  function PostCalls(steps: seq<TxStep>): (ms: seq<Bytes>) {
    if steps == [] then [] else PostCalls(steps[..|steps| - 1]) + PostOf(steps[|steps| - 1])
  }

  /** The non-empty messages of the calls to send that were accepted. */
  function SendCalls(steps: seq<TxStep>): (ms: seq<Bytes>) {
    if steps == [] then []
    else SendCalls(steps[..|steps| - 1]) + SendOf(TxRun(TxInit, steps[..|steps| - 1]), steps[|steps| - 1])
  }

  /** Nothing that was asked for is forgotten, and nothing is made up: what entered the send buffer directly are
      the messages of the accepted calls to send; what came through the post buffer, and then what is still in
      it, are the messages of all calls to post; each in order. */
  lemma CallsEnter(steps: seq<TxStep>)
    ensures var tx := TxRun(TxInit, steps);
            Direct(tx.entered) == SendCalls(steps) && ViaPost(tx.entered) + tx.post == tx.posted == PostCalls(steps)
  {
    SendingAlways(steps);
    InputsRecorded(steps);
  }

  lemma {:induction false} InputsRecorded(steps: seq<TxStep>)
    ensures var tx := TxRun(TxInit, steps); Direct(tx.entered) == SendCalls(steps) && tx.posted == PostCalls(steps)
    decreases |steps|
  {
    if steps != [] {
      var prefix, step := steps[..|steps| - 1], steps[|steps| - 1];
      InputsRecorded(prefix);
      if TxEnabled(TxRun(TxInit, prefix), step) {
        InputStep(TxRun(TxInit, prefix), step);
      }
    }
  }

  /** A write is finished by its completion and by nothing else, and a failed one is not followed by another;
      the switches say what was last asked for. */
  lemma OutcomeStep(tx: Tx, step: TxStep)
    requires TxEnabled(tx, step)
    ensures var tx' := TxApply(tx, step);
            && tx'.finished == tx.finished + (if step.WriteCompletes? then [tx.writes[step.i]] else [])
            && tx'.failed == (tx.failed || (step.WriteCompletes? && !step.ok))
            && tx'.suspendSend == (if step.SuspendSendCall? then step.suspend else tx.suspendSend)
            && tx'.closing == (tx.closing || step.GracefulClose?)
            && (step.WriteCompletes? && !tx'.sending ==> tx'.lastSend == [])
            && tx'.overflowed == (tx.overflowed || (step.DirectSendCall? && step.msg != [] && step.canOverflow))
    ensures var tx' := TxApply(tx, step);
            step.WriteCompletes? && !step.ok ==>
              && tx'.writes == tx.writes[..step.i] + tx.writes[step.i + 1..] && tx'.send == tx.send
              && !tx'.sending && tx'.lastSend == []
  {
    if Sends(tx, step) {
      SendShape(tx, step);
      ReadyOrder(tx, step);
    } else if !step.WriteCompletes? {
      RestShape(tx, step);
    }
  }

  /** While sending is disallowed nothing leaves the send buffer and no write starts. */
  lemma DisallowedStep(tx: Tx, step: TxStep)
    requires TxEnabled(tx, step) && (tx.closing || (tx.suspendSend && step != SuspendSendCall(false)))
    ensures var tx' := TxApply(tx, step);
            && (tx.closing ==> tx'.closing) && (tx.closing || tx'.suspendSend) && tx.send <= tx'.send
            && tx'.writes == (if step.WriteCompletes? then tx.writes[..step.i] + tx.writes[step.i + 1..] else tx.writes)
  {
    OutcomeStep(tx, step);
    if Sends(tx, step) {
      SendShape(tx, step);
      ReadyOrder(tx, step);
    } else if !step.WriteCompletes? {
      RestShape(tx, step);
    }
  }

  /** A socket that is closing, or is suspended and not resumed, sends nothing more. */
  lemma {:induction false} NothingStarts(tx: Tx, steps: seq<TxStep>)
    requires tx.closing || (tx.suspendSend && SuspendSendCall(false) !in steps)
    ensures var tx' := TxRun(tx, steps);
            && (tx.closing ==> tx'.closing) && (tx.closing || tx'.suspendSend)
            && tx.send <= tx'.send && |tx'.writes| <= |tx.writes|
    decreases |steps|
  {
    if steps != [] {
      var prefix, step := steps[..|steps| - 1], steps[|steps| - 1];
      NothingStarts(tx, prefix);
      if TxEnabled(TxRun(tx, prefix), step) {
        DisallowedStep(TxRun(tx, prefix), step);
      }
    }
  }
}
