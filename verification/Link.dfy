/** Two sockets and the bytes between them: a sender with the default packer, a receiver with the default
    unpacker and the forced receive buffer. */
module Link {
  import opened Framing
  import opened Packer
  import opened SocketModel
  import opened SendInvariants
  import opened ReceiveInvariants
  import opened SocketRuns

  datatype Link = Link(
    a: Socket,           // sends
    b: Socket,           // receives
    written: nat,        // bytes of the outstanding write that are on the wire
    wire: Bytes,         // on the wire, not received
    buffer: Bytes,       // received, not decoded: what the unpacker holds
    // history
    received: Bytes)

  datatype LinkStep =
    | SenderMove(step: Step)      // anything but the end of a write
    | ReceiverMove(step: Step)    // anything but the end of a read
    | WriteSome(n: nat)           // the transport takes some bytes of the outstanding write
    | WriteEnds                   // the transport has taken all of them
    | Arrive(n: nat)              // a chunk of any size that fits reaches the unpacker

  /** What the packer returns: a frame of a body that fits, or nothing. */
  predicate IsFrame(m: Bytes) {
    Fits(Payload(m)) && m == LengthFrame(Payload(m))
  }

  function Payload(m: Bytes): (body: Bytes) {
    if |m| >= HEAD_LEN then m[HEAD_LEN..] else []
  }

  predicate Packed(m: Bytes) {
    m == [] || IsFrame(m)
  }

  /** The sender's steps: packed messages only, and none that starts a second write beside the first. */
  predicate SenderMay(a: Socket, step: Step) {
    && Enabled(a, step)
    && (step.TxMove? ==>
          && !step.t.WriteCompletes?
          && !StartsSecond(a.tx, step.t)
          && (step.t.DirectSendCall? ==> Packed(step.t.msg))
          && (step.t.DirectPostCall? ==> Packed(step.t.msg)))
  }

  ghost predicate LinkEnabled(l: Link, step: LinkStep) {
    match step
    case SenderMove(s) => SenderMay(l.a, s)
    case ReceiverMove(s) => Enabled(l.b, s) && !(s.RxMove? && s.r.ReadCompletes?)
    case WriteSome(n) => l.a.tx.writes != [] && 0 < n && l.written + n <= |l.a.tx.writes[0]|
    case WriteEnds => l.a.tx.writes != [] && l.written == |l.a.tx.writes[0]|
    case Arrive(n) => l.b.rx.chain == Reading && 0 < n <= |l.wire| && |l.buffer| + n <= MSG_BUFFER_SIZE
  }

  /** A chunk arrives: the read goes on, or it completes and what the buffer decodes to is delivered. */
  ghost function Arrived(l: Link, n: nat): (l': Link)
    requires LinkEnabled(l, Arrive(n))
  {
    var s := l.buffer + l.wire[..n];
    var l1 := l.(wire := l.wire[n..], received := l.received + l.wire[..n]);
    if Scan(LengthHead, s) == NeedMore then l1.(buffer := s)
    else
      var e := Decode(LengthHead, s);
      l1.(buffer := e.rest, b := Apply(l.b, RxMove(ReadCompletes(e.msgs))))
  }

  /** The sending side and the wire move on. */
  function Moved(l: Link, a: Socket, written: nat, wire: Bytes): (l': Link) {
    l.(a := a, written := written, wire := wire)
  }

  ghost function LinkApply(l: Link, step: LinkStep): (l': Link)
    requires LinkEnabled(l, step)
  {
    match step
    case SenderMove(s) => l.(a := Apply(l.a, s))
    case ReceiverMove(s) => l.(b := Apply(l.b, s))
    case WriteSome(n) => Moved(l, l.a, l.written + n, l.wire + l.a.tx.writes[0][l.written..l.written + n])
    case WriteEnds => Moved(l, Apply(l.a, TxMove(WriteCompletes(0, true))), 0, l.wire)
    case Arrive(n) => Arrived(l, n)
  }

  ghost function LinkRun(steps: seq<LinkStep>): (l: Link)
    decreases |steps|
  {
    if steps == [] then Link(Init(true), Init(true), 0, [], [], [])
    else
      var before, step := LinkRun(steps[..|steps| - 1]), steps[|steps| - 1];
      if LinkEnabled(before, step) then LinkApply(before, step) else before
  }

  lemma ParsedFew(s: Bytes)
    requires |s| <= MSG_BUFFER_SIZE
    ensures |Decode(LengthHead, s).msgs| <= MAX_PARSED
  {
    LengthMsgCount(s);
  }

  // ---------------------------------------------------------------- the sender's bytes

  function Bodies(frames: seq<Bytes>): (bs: seq<Bytes>)
    ensures |bs| == |frames| && forall i :: 0 <= i < |bs| ==> bs[i] == Payload(frames[i])
  {
    seq(|frames|, i requires 0 <= i < |frames| => Payload(frames[i]))
  }

  ghost predicate Framed(tx: Tx) {
    && (forall e :: e in tx.entered ==> IsFrame(e.msg))
    && (forall m :: m in tx.post ==> IsFrame(m))
  }

  lemma {:induction false} MsgsAt(es: seq<Entry>)
    ensures |Msgs(es)| == |es| && forall i :: 0 <= i < |es| ==> Msgs(es)[i] == es[i].msg
  {
    if es != [] {
      MsgsAt(es[1..]);
    }
  }

  lemma MsgsFramed(tx: Tx)
    requires Framed(tx)
    ensures forall m :: m in Msgs(tx.entered) ==> IsFrame(m)
  {
    MsgsAt(tx.entered);
  }

  /** All bytes the transport has taken. */
  function Sent(tx: Tx, written: nat): (s: Bytes) {
    Concat(tx.finished) + Unfinished(tx, written)
  }

  function Unfinished(tx: Tx, written: nat): (s: Bytes) {
    if tx.writes != [] && written <= |tx.writes[0]| then tx.writes[0][..written] else []
  }

  // ---------------------------------------------------------------- the invariant

  /** The sender writes frames, one at a time and in order. */
  ghost predicate Flow(tx: Tx, written: nat) {
    && OneWrite(tx) && Intact(tx) && Framed(tx) && !tx.failed
    && (if tx.writes == [] then written == 0 else written <= |tx.writes[0]|)
  }

  /** The receiver's account of the stream is right, and the stream is not malformed. */
  ghost predicate Account(parsed: seq<Bytes>, received: Bytes, buffer: Bytes) {
    Decode(LengthHead, received) == Decoded(parsed, buffer, false) && Hungry(LengthHead, buffer)
  }

  /** `bytes` are all that have left the sender. */
  ghost predicate SenderInv(tx: Tx, written: nat, bytes: Bytes) {
    TxInv(tx) && Flow(tx, written) && bytes == Sent(tx, written)
  }

  ghost predicate ReceiverInv(b: Socket, received: Bytes, buffer: Bytes) {
    && SocketInv(b) && b.rx.forced && |b.rx.temp| <= MAX_PARSED
    && Account(b.rx.parsed, received, buffer)
  }

  ghost predicate LinkInv(l: Link) {
    SenderInv(l.a.tx, l.written, l.received + l.wire) && ReceiverInv(l.b, l.received, l.buffer)
  }

  /** Only the end of a write finishes it, and while one is outstanding no other starts. */
  lemma TxAside(tx: Tx, t: TxStep)
    requires OneWrite(tx) && Intact(tx) && TxEnabled(tx, t) && !StartsSecond(tx, t) && !t.WriteCompletes?
    ensures TxApply(tx, t).finished == tx.finished && TxApply(tx, t).failed == tx.failed
    ensures tx.writes != [] ==> TxApply(tx, t).writes == tx.writes
  {
    if Sends(tx, t) {
      SendShape(tx, t);
      ReadyOrder(tx, t);
      DoSendOrder(Ready(tx, t));
    } else {
      RestShape(tx, t);
    }
  }

  lemma FramedSplice(tx: Tx, n: nat)
    requires Framed(tx) && n <= |tx.post|
    ensures Framed(Spliced(tx, n))
  {
    forall e | e in Spliced(tx, n).entered ensures IsFrame(e.msg) {
      if e !in tx.entered {
        var i :| 0 <= i < n && Posted(tx.post[..n])[i] == e;
        assert tx.post[i] in tx.post;
      }
    }
  }

  lemma FramedSend(tx: Tx, t: TxStep)
    requires Framed(tx) && TxEnabled(tx, t) && Sends(tx, t) && (t.DirectSendCall? ==> Packed(t.msg))
    ensures Framed(Ready(tx, t))
  {
    match t
    case Timer2Fire => FramedSplice(tx, Movable(tx.send, tx.post));
    case _ =>
  }

  lemma FramedStep(tx: Tx, t: TxStep)
    requires Framed(tx) && TxEnabled(tx, t) && !t.WriteCompletes?
    requires (t.DirectSendCall? ==> Packed(t.msg)) && (t.DirectPostCall? ==> Packed(t.msg))
    ensures Framed(TxApply(tx, t))
  {
    if Sends(tx, t) {
      SendShape(tx, t);
      FramedSend(tx, t);
    } else {
      FramedRest(tx, t);
    }
  }

  lemma FramedRest(tx: Tx, t: TxStep)
    requires Framed(tx) && TxEnabled(tx, t) && !Sends(tx, t) && !t.WriteCompletes?
    requires t.DirectPostCall? ==> Packed(t.msg)
    ensures Framed(TxApply(tx, t))
  {
    RestShape(tx, t);
  }

  lemma SenderFlows(tx: Tx, t: TxStep, written: nat)
    requires Flow(tx, written)
    requires TxEnabled(tx, t) && !StartsSecond(tx, t) && !t.WriteCompletes?
    requires (t.DirectSendCall? ==> Packed(t.msg)) && (t.DirectPostCall? ==> Packed(t.msg))
    ensures Flow(TxApply(tx, t), written)
    ensures Sent(TxApply(tx, t), written) == Sent(tx, written)
  {
    OneWriteStep(tx, t);
    FramedStep(tx, t);
    TxAside(tx, t);
  }

  lemma SenderStepInv(tx: Tx, t: TxStep, written: nat, bytes: Bytes)
    requires SenderInv(tx, written, bytes)
    requires TxEnabled(tx, t) && !StartsSecond(tx, t) && !t.WriteCompletes?
    requires (t.DirectSendCall? ==> Packed(t.msg)) && (t.DirectPostCall? ==> Packed(t.msg))
    ensures SenderInv(TxApply(tx, t), written, bytes)
  {
    SenderFlows(tx, t, written);
    TxStepKeeps(tx, t);
  }

  lemma SenderMoveKeeps(l: Link, step: Step)
    requires LinkInv(l) && SenderMay(l.a, step)
    ensures LinkInv(l.(a := Apply(l.a, step)))
  {
    if step.TxMove? {
      SenderStepInv(l.a.tx, step.t, l.written, l.received + l.wire);
    }
  }

  lemma ParsedAside(rx: Rx, posting: bool, r: RxStep)
    requires RxEnabled(rx, posting, r) && !r.ReadCompletes?
    ensures RxApply(rx, posting, r).parsed == rx.parsed && RxApply(rx, posting, r).forced == rx.forced
  {
  }

  lemma ReceiverStepInv(b: Socket, step: Step, received: Bytes, buffer: Bytes)
    requires ReceiverInv(b, received, buffer) && Enabled(b, step) && !(step.RxMove? && step.r.ReadCompletes?)
    ensures ReceiverInv(Apply(b, step), received, buffer)
  {
    StepKeeps(b, step);
    if step.RxMove? {
      ParsedAside(b.rx, b.tx.posting, step.r);
      WaitingBound(b.rx, b.tx.posting, step.r, MAX_PARSED);
    }
  }

  lemma ReceiverMoveKeeps(l: Link, step: Step)
    requires LinkInv(l) && LinkEnabled(l, ReceiverMove(step))
    ensures LinkInv(l.(b := Apply(l.b, step)))
  {
    ReceiverStepInv(l.b, step, l.received, l.buffer);
  }

  lemma WriteSomeSent(tx: Tx, written: nat, n: nat)
    requires tx.writes != [] && written + n <= |tx.writes[0]|
    ensures Sent(tx, written + n) == Sent(tx, written) + tx.writes[0][written..written + n]
  {
    var w := tx.writes[0];
    assert w[..written] + w[written..written + n] == w[..written + n];
    Associative(Concat(tx.finished), w[..written], w[written..written + n]);
  }

  lemma WriteSomeShape(l: Link, n: nat)
    requires LinkEnabled(l, WriteSome(n))
    ensures LinkApply(l, WriteSome(n))
         == Moved(l, l.a, l.written + n, l.wire + l.a.tx.writes[0][l.written..l.written + n])
  {
  }

  lemma WriteSomeWire(tx: Tx, written: nat, n: nat, received: Bytes, wire: Bytes)
    requires tx.writes != [] && written + n <= |tx.writes[0]| && received + wire == Sent(tx, written)
    ensures received + (wire + tx.writes[0][written..written + n]) == Sent(tx, written + n)
  {
    WriteSomeSent(tx, written, n);
    Associative(received, wire, tx.writes[0][written..written + n]);
  }

  lemma WriteSomeInv(tx: Tx, written: nat, n: nat, received: Bytes, wire: Bytes, part: Bytes)
    requires SenderInv(tx, written, received + wire) && tx.writes != [] && written + n <= |tx.writes[0]|
    requires part == tx.writes[0][written..written + n]
    ensures SenderInv(tx, written + n, received + (wire + part))
  {
    WriteSomeWire(tx, written, n, received, wire);
  }

  lemma WriteSomeKeeps(l: Link, n: nat)
    requires LinkInv(l) && LinkEnabled(l, WriteSome(n))
    ensures LinkInv(LinkApply(l, WriteSome(n)))
  {
    var part := l.a.tx.writes[0][l.written..l.written + n];
    WriteSomeShape(l, n);
    WriteSomeInv(l.a.tx, l.written, n, l.received, l.wire, part);
    MovedKeeps(l, l.a, l.written + n, l.wire + part, LinkApply(l, WriteSome(n)));
  }

  lemma MovedKeeps(l: Link, a: Socket, written: nat, wire: Bytes, l': Link)
    requires LinkInv(l) && l' == Moved(l, a, written, wire) && SenderInv(a.tx, written, l.received + wire)
    ensures LinkInv(l')
  {
  }

  lemma ConcatOne(w: Bytes)
    ensures Concat([w]) == w
  {
    var one: seq<Bytes> := [w];
    assert one[1..] == [];
  }

  lemma WriteEndsFlows(tx: Tx)
    requires tx.writes != [] && Flow(tx, |tx.writes[0]|)
    ensures Flow(WriteDone(tx, 0, true, false), 0)
    ensures Sent(WriteDone(tx, 0, true, false), 0) == Sent(tx, |tx.writes[0]|)
  {
    WriteOrder(tx, true);
    var w := tx.writes[0];
    var tx' := WriteDone(tx, 0, true, false);
    ConcatAppend(tx.finished, [w]);
    ConcatOne(w);
    assert w[..|w|] == w;
    assert Unfinished(tx', 0) == [];
    assert Concat(tx.finished) + w + [] == Concat(tx.finished) + w;
  }

  lemma WriteEndsShape(l: Link)
    requires LinkEnabled(l, WriteEnds)
    ensures LinkApply(l, WriteEnds) == Moved(l, Socket(WriteDone(l.a.tx, 0, true, false), l.a.rx), 0, l.wire)
  {
  }

  lemma WriteEndsInv(tx: Tx, bytes: Bytes)
    requires tx.writes != [] && SenderInv(tx, |tx.writes[0]|, bytes)
    ensures SenderInv(WriteDone(tx, 0, true, false), 0, bytes)
  {
    WriteEndsFlows(tx);
    WriteDoneKeeps(tx, 0, true);
  }

  lemma WriteEndsKeeps(l: Link)
    requires LinkInv(l) && LinkEnabled(l, WriteEnds)
    ensures LinkInv(LinkApply(l, WriteEnds))
  {
    WriteEndsShape(l);
    WriteEndsInv(l.a.tx, l.received + l.wire);
  }

  /** What has been received is a prefix of what the entered messages amount to, so it is never malformed
      and decodes to a prefix of their bodies. */
  lemma ReceivedDecodes(tx: Tx, written: nat, r: Bytes)
    requires Flow(tx, written) && r <= Sent(tx, written)
    ensures forall m :: m in Msgs(tx.entered) ==> IsFrame(m)
    ensures var d := Decode(LengthHead, r); !d.bad && d.msgs <= Bodies(Msgs(tx.entered))
  {
    MsgsFramed(tx);
    SentPrefix(tx, written);
    FramesDecode(Msgs(tx.entered));
    DecodePrefix(LengthHead, r, Concat(Msgs(tx.entered)));
  }

  lemma SentPrefix(tx: Tx, written: nat)
    requires Flow(tx, written)
    ensures Sent(tx, written) <= Concat(Msgs(tx.entered))
  {
    ConcatAppend(tx.finished, tx.writes + tx.send);
    if tx.writes != [] {
      var w := tx.writes[0];
      assert tx.writes + tx.send == [w] + tx.send;
      assert ([w] + tx.send)[1..] == tx.send;
      assert w[..written] <= w + Concat(tx.send);
    }
  }

  lemma FramesDecode(all: seq<Bytes>)
    requires forall m :: m in all ==> IsFrame(m)
    ensures Decode(LengthHead, Concat(all)) == Decoded(Bodies(all), [], false)
  {
    forall i | 0 <= i < |all| ensures Fits(Bodies(all)[i]) && all[i] == LengthFrame(Bodies(all)[i]) {
      assert all[i] in all;
    }
    LengthRoundTrip(all, Bodies(all));
  }

  lemma ChunkMoves(received: Bytes, wire: Bytes, n: nat)
    requires n <= |wire|
    ensures (received + wire[..n]) + wire[n..] == received + wire
    ensures received + wire[..n] <= received + wire
  {
    assert wire[..n] + wire[n..] == wire;
    Associative(received, wire[..n], wire[n..]);
  }

  /** The account is kept, chunk by chunk, as long as the stream is not malformed. */
  lemma AccountChunk(parsed: seq<Bytes>, received: Bytes, buffer: Bytes, chunk: Bytes)
    requires Account(parsed, received, buffer) && !Decode(LengthHead, received + chunk).bad
    ensures var s := buffer + chunk; var e := Decode(LengthHead, s);
            if Scan(LengthHead, s) == NeedMore then Account(parsed, received + chunk, s) && |s| < MSG_BUFFER_SIZE
            else Account(parsed + e.msgs, received + chunk, e.rest)
  {
    DecodeSplit(LengthHead, received, chunk);
    DecodeChunk(LengthHead, buffer + chunk);
    ScanSize(LengthHead, buffer + chunk);
    assert parsed + [] == parsed;
  }

  lemma ArriveKeeps(l: Link, n: nat)
    requires LinkInv(l) && LinkEnabled(l, Arrive(n))
    ensures LinkInv(Arrived(l, n))
  {
    var chunk := l.wire[..n];
    ChunkMoves(l.received, l.wire, n);
    ReceivedDecodes(l.a.tx, l.written, l.received + chunk);
    if Scan(LengthHead, l.buffer + chunk) != NeedMore {
      ParseInv(l.b, l.received, l.buffer, chunk);
    } else {
      AccountChunk(l.b.rx.parsed, l.received, l.buffer, chunk);
    }
  }

  /** The read completes. */
  lemma ParseInv(b: Socket, received: Bytes, buffer: Bytes, chunk: Bytes)
    requires ReceiverInv(b, received, buffer) && b.rx.chain == Reading && |buffer + chunk| <= MSG_BUFFER_SIZE
    requires Scan(LengthHead, buffer + chunk) != NeedMore && !Decode(LengthHead, received + chunk).bad
    ensures var e := Decode(LengthHead, buffer + chunk);
            ReceiverInv(Apply(b, RxMove(ReadCompletes(e.msgs))), received + chunk, e.rest)
  {
    var e := Decode(LengthHead, buffer + chunk);
    AccountChunk(b.rx.parsed, received, buffer, chunk);
    ParsedFew(buffer + chunk);
    StepKeeps(b, RxMove(ReadCompletes(e.msgs)));
    WaitingBound(b.rx, b.tx.posting, ReadCompletes(e.msgs), MAX_PARSED);
  }

  lemma LinkStepKeeps(l: Link, step: LinkStep)
    requires LinkInv(l) && LinkEnabled(l, step)
    ensures LinkInv(LinkApply(l, step))
  {
    match step
    case SenderMove(s) => SenderMoveKeeps(l, s);
    case ReceiverMove(s) => ReceiverMoveKeeps(l, s);
    case WriteSome(n) => WriteSomeKeeps(l, n);
    case WriteEnds => WriteEndsKeeps(l);
    case Arrive(n) => ArriveKeeps(l, n);
  }

  lemma {:induction false} LinkAlways(steps: seq<LinkStep>)
    ensures LinkInv(LinkRun(steps))
    decreases |steps|
  {
    if steps == [] {
      ScanSize(LengthHead, []);
    } else {
      var prefix, step := steps[..|steps| - 1], steps[|steps| - 1];
      LinkAlways(prefix);
      if LinkEnabled(LinkRun(prefix), step) {
        LinkStepKeeps(LinkRun(prefix), step);
      }
    }
  }

  // ---------------------------------------------------------------- end to end

  /** In every state of every run, for every cut of the bytes into chunks: the messages the receiver has
      handled are a prefix of the bodies of the messages that entered the sender's send buffer. */
  lemma EndToEnd(steps: seq<LinkStep>)
    ensures var l := LinkRun(steps);
            && (forall m :: m in Msgs(l.a.tx.entered) ==> IsFrame(m))
            && l.b.rx.handled <= Bodies(Msgs(l.a.tx.entered))
  {
    LinkAlways(steps);
    var l := LinkRun(steps);
    assert l.received <= Sent(l.a.tx, l.written);
    ReceivedDecodes(l.a.tx, l.written, l.received);
    assert l.b.rx.handled <= l.b.rx.parsed;
  }

  /** Nothing is lost: when both sockets are idle, the wire is empty and sending is allowed, the receiver has
      handled exactly the bodies of all messages the sender accepted, in order. */
  lemma EverythingDelivered(steps: seq<LinkStep>)
    requires var l := LinkRun(steps); Idle(l.a) && Idle(l.b) && l.wire == [] && Allowed(l.a.tx)
    ensures var l := LinkRun(steps);
            && (forall m :: m in Msgs(l.a.tx.entered) ==> IsFrame(m))
            && l.b.rx.handled == Bodies(Msgs(l.a.tx.entered))
            && l.a.tx.posted == ViaPost(l.a.tx.entered)
  {
    LinkAlways(steps);
    var l := LinkRun(steps);
    IdleState(l.b);
    assert l.a.tx.send == [];
    DeliveredState(l);
  }

  lemma DeliveredState(l: Link)
    requires LinkInv(l) && l.a.tx.send == [] && l.a.tx.writes == [] && l.a.tx.post == [] && l.wire == []
    requires l.b.rx.recv == [] && l.b.rx.temp == [] && !l.b.rx.dispatching
    ensures forall m :: m in Msgs(l.a.tx.entered) ==> IsFrame(m)
    ensures l.b.rx.handled == Bodies(Msgs(l.a.tx.entered))
    ensures l.a.tx.posted == ViaPost(l.a.tx.entered)
  {
    var all := Msgs(l.a.tx.entered);
    MsgsFramed(l.a.tx);
    HandledAll(l.b.rx);
    assert l.a.tx.finished + ([] + []) == l.a.tx.finished == all;
    assert l.received + [] == l.received && Concat(all) + [] == Concat(all);
    FramesDecode(all);
    assert ViaPost(l.a.tx.entered) + [] == ViaPost(l.a.tx.entered);
  }

  lemma HandledAll(rx: Rx)
    requires Ordered(rx) && rx.forced && rx.recv == [] && rx.temp == [] && !rx.dispatching
    ensures rx.handled == rx.parsed
  {
    assert rx.handled + ([] + ([] + [])) == rx.handled;
  }
}
