/** The state of one socket, and what each lock region and each handler does to it.

    A socket has a sending half and a receiving half. They share one thing: the receiving half looks at
    `posting`, and the end of posting wakes it up. Every function below is one indivisible step, that is, what
    happens under one lock or in one handler; anything may happen between two steps. */
module SocketModel {
  import opened Framing

  /** Capacity of the send buffer and of the receive buffer. */
  const MAX_MSG_NUM: nat := 1024

  /** The most messages one parse of the default unpacker can yield. */
  const MAX_PARSED: nat := MSG_BUFFER_SIZE / (HEAD_LEN + 1)

  // ---------------------------------------------------------------- moving messages

  /** How many messages fit. */
  function Movable(dest: seq<Bytes>, src: seq<Bytes>): (n: nat)
    ensures n <= |src|
  {
    if |dest| >= MAX_MSG_NUM then 0
    else if |src| > MAX_MSG_NUM - |dest| then MAX_MSG_NUM - |dest|
    else |src|
  }

  // ---------------------------------------------------------------- the sending half

  /** Timer 2 retries posting. Its handler decides to go on and re-arms it only afterwards. */
  datatype Timer2 = Off | Armed | Restarting

  /** A message that entered the send buffer, directly or out of the post buffer. */
  datatype Entry = Entry(msg: Bytes, posted: bool)

  datatype Tx = Tx(
    post: seq<Bytes>,
    send: seq<Bytes>,
    writes: seq<Bytes>,      // asynchronous writes that have not completed
    lastSend: Bytes,
    posting: bool,
    sending: bool,
    suspendSend: bool,
    closing: bool,
    timer2: Timer2,
    wakers: nat,             // calls that are about to take the send lock and try to send
    // history
    posted: seq<Bytes>,      // entered the post buffer
    entered: seq<Entry>,     // entered the send buffer
    finished: seq<Bytes>,    // writes that completed or failed
    failed: bool,            // some write failed
    overflowed: bool)        // some message was sent with can_overflow

  predicate Allowed(tx: Tx) {
    !tx.closing && !tx.suspendSend
  }

  /** Starts the next write, if there is none and sending is allowed; touches nothing else. */
  function DoSend(tx: Tx, stopped: bool): (tx': Tx)
    ensures tx' == tx.(sending := tx'.sending, lastSend := tx'.lastSend, writes := tx'.writes, send := tx'.send)
  {
    if !Allowed(tx) || stopped then tx.(sending := false)
    else if !tx.sending && tx.send != [] then
      tx.(sending := true, lastSend := tx.send[0], writes := tx.writes + [tx.send[0]], send := tx.send[1..])
    else tx
  }

  /** Every send function ends here; the result of the call is whether the buffer accepted the message. An
      empty message is accepted and forgotten. */
  predicate Accepts(tx: Tx, canOverflow: bool) {
    canOverflow || |tx.send| < MAX_MSG_NUM
  }

  function DirectSend(tx: Tx, msg: Bytes, canOverflow: bool, stopped: bool): (tx': Tx) {
    if !Accepts(tx, canOverflow) || msg == [] then tx
    else DoSend(tx.(send := tx.send + [msg], entered := tx.entered + [Entry(msg, false)],
                    overflowed := tx.overflowed || canOverflow), stopped)
  }

  function DirectPost(tx: Tx, msg: Bytes): (tx': Tx) {
    if msg == [] then tx
    else
      var queued := tx.(post := tx.post + [msg], posted := tx.posted + [msg]);
      if tx.posting then queued else queued.(posting := true, timer2 := Armed)
  }

  function Posted(msgs: seq<Bytes>): (es: seq<Entry>)
    ensures |es| == |msgs| && forall i :: 0 <= i < |msgs| ==> es[i] == Entry(msgs[i], true)
  {
    seq(|msgs|, i requires 0 <= i < |msgs| => Entry(msgs[i], true))
  }

  /** What fits moves from the post buffer to the send buffer. The flags say already what the handler of timer 2
      is going to do next. */
  function Spliced(tx: Tx, n: nat): (tx': Tx)
    requires n <= |tx.post|
  {
    var left := tx.post[n..];
    tx.(send := tx.send + tx.post[..n], post := left, entered := tx.entered + Posted(tx.post[..n]),
        posting := left != [], timer2 := if left == [] then Off else Restarting)
  }

  function Timer2Fires(tx: Tx, stopped: bool): (tx': Tx)
    ensures tx'.posting <==> tx'.post != []
  {
    var n := Movable(tx.send, tx.post);
    if n > 0 then DoSend(Spliced(tx, n), stopped) else Spliced(tx, n)
  }

  function WriteDone(tx: Tx, i: nat, ok: bool, stopped: bool): (tx': Tx)
    requires i < |tx.writes|
    ensures tx'.entered == tx.entered && tx'.post == tx.post && tx'.finished == tx.finished + [tx.writes[i]]
    ensures tx'.posting == tx.posting
  {
    var done := tx.(writes := tx.writes[..i] + tx.writes[i + 1..], finished := tx.finished + [tx.writes[i]],
                    failed := tx.failed || !ok, sending := false);
    var next := if ok then DoSend(done, stopped) else done;
    if next.sending then next else next.(lastSend := [])
  }

  // ---------------------------------------------------------------- the receiving half

  /** Who will look at `temp` next: exactly one read, or the dispatching call that followed it, or timer 0. */
  datatype Chain =
    | Reading
    | Dispatching                            // with the forced receive buffer
    | Scanning(at: nat, dispatch: bool)      // without: the loop over `temp`
    | Parked                                 // timer 0 is armed
    | Ended                                  // a read failed, and nobody reads on

  datatype Rx = Rx(
    forced: bool,            // FORCE_TO_USE_MSG_RECV_BUFFER
    temp: seq<Bytes>,
    recv: seq<Bytes>,
    lastDispatch: Bytes,
    dispatching: bool,
    suspendDispatch: bool,
    timer1: bool,
    timer3: bool,
    wakers: nat,             // calls that are about to take the receive lock and try to dispatch
    chain: Chain,
    // history
    parsed: seq<Bytes>,      // delivered by the unpacker
    handled: seq<Bytes>)     // accepted by the user

  /** What the receiving half sees of its surroundings. */
  datatype Env = Env(posting: bool, stopped: bool, open: bool)

  function InHand(rx: Rx): (s: seq<Bytes>) {
    if rx.dispatching then [rx.lastDispatch] else []
  }

  /** The link is down: everything that is left is handed to the user at once. */
  function DispatchAll(rx: Rx): (rx': Rx) {
    var all := if rx.forced then rx.recv + rx.temp else rx.recv;
    rx.(handled := rx.handled + all, recv := [], temp := if rx.forced then [] else rx.temp)
  }

  function DoDispatch(rx: Rx, env: Env): (rx': Rx)
    ensures rx'.parsed == rx.parsed && rx'.forced == rx.forced && rx'.chain == rx.chain
  {
    if rx.suspendDispatch then
      if !rx.dispatching && rx.recv != [] then rx.(timer1 := true) else rx
    else if env.posting then rx
    else if env.stopped then DispatchAll(rx.(dispatching := false))
    else if rx.dispatching then rx
    else if !env.open then DispatchAll(rx)
    else if rx.recv != [] then rx.(dispatching := true, lastDispatch := rx.recv[0], recv := rx.recv[1..])
    else rx
  }

  /** After dispatching: read on, or let timer 0 come back to what did not fit. */
  function Continue(rx: Rx): (rx': Rx) {
    rx.(chain := if rx.temp == [] then Reading else Parked)
  }

  function StartDispatch(rx: Rx): (rx': Rx) {
    rx.(chain := if rx.forced then Dispatching else Scanning(0, false))
  }

  function Received(rx: Rx, msgs: seq<Bytes>): (rx': Rx) {
    StartDispatch(rx.(temp := rx.temp + msgs, parsed := rx.parsed + msgs))
  }

  /** With the forced receive buffer. */
  function Dispatch(rx: Rx, env: Env): (rx': Rx)
    ensures rx'.parsed == rx.parsed && rx'.forced == rx.forced
  {
    var n := Movable(rx.recv, rx.temp);
    var moved := rx.(recv := rx.recv + rx.temp[..n], temp := rx.temp[n..]);
    Continue(if n > 0 then DoDispatch(moved, env) else moved)
  }

  /** Without: one turn of the loop. The user handles the message at once, or it moves to the receive
      buffer, or it stays where it is because that buffer is full. */
  predicate ScanGoesOn(rx: Rx, env: Env) {
    rx.chain.Scanning? && !rx.suspendDispatch && !env.posting && rx.chain.at < |rx.temp|
  }

  function ScanOne(rx: Rx, taken: bool): (rx': Rx)
    requires rx.chain.Scanning? && rx.chain.at < |rx.temp|
    ensures rx'.chain.Scanning? && |rx'.temp| - rx'.chain.at == |rx.temp| - rx.chain.at - 1
  {
    var i := rx.chain.at;
    var m, without := rx.temp[i], rx.temp[..i] + rx.temp[i + 1..];
    if taken then rx.(temp := without, handled := rx.handled + [m])
    else if |rx.recv| < MAX_MSG_NUM then
      rx.(temp := without, recv := rx.recv + [m], chain := rx.chain.(dispatch := true))
    else rx.(chain := rx.chain.(at := i + 1))
  }

  function ScanEnd(rx: Rx, env: Env): (rx': Rx)
    requires rx.chain.Scanning?
  {
    Continue(if rx.chain.dispatch then DoDispatch(rx, env) else rx)
  }

  /** The message handler, once the user has answered. */
  function Handled(rx: Rx, re: bool, env: Env): (rx': Rx)
    ensures rx'.parsed == rx.parsed && rx'.forced == rx.forced
  {
    var idle := rx.(dispatching := false);
    var next := if re then DoDispatch(idle.(handled := idle.handled + [rx.lastDispatch]), env)
                else idle.(recv := [rx.lastDispatch] + idle.recv, lastDispatch := [], timer3 := true);
    if next.dispatching then next else next.(lastDispatch := [])
  }

  function SuspendDispatch(rx: Rx, suspend: bool): (rx': Rx) {
    rx.(suspendDispatch := suspend, timer1 := false, wakers := rx.wakers + 1)
  }

  function Wake(rx: Rx, env: Env): (rx': Rx)
    requires rx.wakers > 0
  {
    DoDispatch(rx.(wakers := rx.wakers - 1), env)
  }
}
