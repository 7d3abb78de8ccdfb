/** The default unpacker: a fixed buffer, a cached message length and a remainder, updated in place. */
module LengthUnpacker {
  import opened Framing

  /** A message inside the buffer: where its body starts and how long it is. */
  datatype Span = Span(start: nat, len: nat)

  function Slice(s: Bytes, span: Span): (m: Bytes) {
    if span.start + span.len <= |s| then s[span.start..span.start + span.len] else []
  }

  function HeadAt(s: Bytes, p: nat): (n: nat)
    requires p + HEAD_LEN <= |s|
  {
    (s[p] as int) * 256 + (s[p + 1] as int)
  }

  function Cut(s: Bytes, spans: seq<Span>): (msgs: seq<Bytes>)
    ensures |msgs| == |spans|
  {
    if spans == [] then [] else Cut(s, spans[..|spans| - 1]) + [Slice(s, spans[|spans| - 1])]
  }

  lemma CutAppend(s: Bytes, spans: seq<Span>, span: Span)
    ensures Cut(s, spans + [span]) == Cut(s, spans) + [Slice(s, span)]
  {
    assert (spans + [span])[..|spans|] == spans;
  }

  /** Where the last message ends. */
  function Last(spans: seq<Span>): (end: nat)
    requires spans != []
  {
    spans[|spans| - 1].start + spans[|spans| - 1].len
  }

  class Unpacker {
    const rawBuff: array<byte>
    var curMsgLen: int   // -1: the head has not been looked at
    var remainLen: nat

    ghost predicate Valid()
      reads this
    {
      rawBuff.Length == MSG_BUFFER_SIZE && remainLen <= MSG_BUFFER_SIZE && -1 <= curMsgLen
    }

    /** The bytes at hand once `received` bytes have landed behind the remainder. */
    ghost function Buffered(received: nat): (s: Bytes)
      requires Valid() && remainLen + received <= MSG_BUFFER_SIZE
      reads this, rawBuff
      ensures |s| == remainLen + received
    {
      rawBuff[..remainLen + received]
    }

    /** The cached length, if there is one, is the length in the head of `s`. */
    ghost predicate Cached(s: Bytes)
      reads this
    {
      curMsgLen != -1 ==> |s| >= HEAD_LEN && curMsgLen == HeadValue(s)
    }

    /** A composed read is under way: no verdict was reached yet. */
    ghost predicate Reading(received: nat)
      reads this, rawBuff
    {
      && Valid() && remainLen + received <= MSG_BUFFER_SIZE
      && Hungry(LengthHead, Buffered(received)) && Cached(Buffered(received))
    }

    constructor ()
      ensures Valid() && remainLen == 0 && curMsgLen == -1 && fresh(rawBuff)
      ensures Reading(0)
    {
      rawBuff := new byte[MSG_BUFFER_SIZE];
      curMsgLen, remainLen := -1, 0;
      new;
      ScanSize(LengthHead, []);
    }

    method ResetState()
      requires Valid()
      modifies this
      ensures Valid() && remainLen == 0 && curMsgLen == -1 && Reading(0)
    {
      curMsgLen, remainLen := -1, 0;
      ScanSize(LengthHead, []);
    }

    /** Remembers the length as soon as the head is there, and then asks for that many bytes; an invalid length
        stops the read when it is found. So within a read it stops exactly on a verdict on the first frame. */
    method CompletionCondition(ec: bool, received: nat) returns (r: nat)
      requires Valid() && remainLen + received <= MSG_BUFFER_SIZE
      modifies this`curMsgLen
      ensures Valid() && (r == 0 || r == MAX_TRANSFER)
      ensures ec ==> r == 0 && curMsgLen == old(curMsgLen)
      ensures !ec && old(curMsgLen) == -1 ==> Cached(Buffered(received))
      ensures !ec && old(curMsgLen) == -1 ==> (curMsgLen == -1 <==> |Buffered(received)| < HEAD_LEN)
      ensures !ec && old(curMsgLen) == -1 ==> (r == 0 <==> Scan(LengthHead, Buffered(received)) != NeedMore)
      ensures !ec && old(curMsgLen) != -1 ==>
                curMsgLen == old(curMsgLen) && (r == 0 <==> |Buffered(received)| >= curMsgLen)
      ensures !ec && HeadOk(old(curMsgLen)) && old(Cached(Buffered(received))) ==>
                (r == 0 <==> Scan(LengthHead, Buffered(received)) != NeedMore)
    {
      if ec {
        return 0;
      }
      ScanIs(LengthHead, Buffered(received));
      var dataLen := remainLen + received;
      if curMsgLen == -1 && dataLen >= HEAD_LEN {
        curMsgLen := HeadValue(rawBuff[..HEAD_LEN]);
        if curMsgLen > MSG_BUFFER_SIZE || curMsgLen <= HEAD_LEN {
          return 0;
        }
      }
      // an unknown length is the largest size_t, so no amount of data reaches it
      return if curMsgLen != -1 && dataLen >= curMsgLen then 0 else MAX_TRANSFER;
    }

    /** Finds every whole message in the buffer, without copying. */
    method ParsePositions(received: nat) returns (ok: bool, spans: seq<Span>)
      requires Valid() && remainLen + received <= MSG_BUFFER_SIZE && Cached(Buffered(received))
      modifies this
      ensures Valid()
      ensures var s := old(Buffered(received)); var d := Decode(LengthHead, s);
              && Cut(s, spans) == d.msgs
              && remainLen == |d.rest| <= |s| && s[|s| - |d.rest|..] == d.rest && Cached(d.rest)
              && ok == (!d.bad && d.msgs != [])
              && (spans != [] ==> Last(spans) == |s| - |d.rest|)
      ensures curMsgLen == -1 <==> remainLen < HEAD_LEN
    {
      var s := rawBuff[..remainLen + received];
      var pnext: nat;
      ok, spans, pnext, curMsgLen := ScanBuffer(s, curMsgLen);
      ScannedAll(s, pnext, spans, curMsgLen, ok);
      remainLen := |s| - pnext;
      if pnext == 0 {
        ok := false;
      }
    }

    /** The loop of the parser: alternately looks at a head and takes a whole message, until the head is
        invalid or something is missing. */
    static method ScanBuffer(s: Bytes, known: int) returns (ok: bool, spans: seq<Span>, pnext: nat, cur: int)
      requires known == -1 || (known >= 0 && HEAD_LEN <= |s| && known == HeadAt(s, 0))
      ensures Scanned(s, pnext, spans) && Stuck(s, pnext, cur, ok)
    {
      var remain: nat := |s|;
      pnext, cur, spans, ok := 0, known, [], true;
      ScannedNothing(s);
      while ok
        invariant pnext + remain == |s| && Scanned(s, pnext, spans)
        invariant cur == -1 || (remain >= HEAD_LEN && cur == HeadAt(s, pnext))
        invariant !ok ==> cur != -1 && !HeadOk(cur)
        decreases ok, remain, cur == -1
      {
        if cur != -1 {
          if cur > MSG_BUFFER_SIZE || cur <= HEAD_LEN {
            ok := false;
          } else if remain >= cur {
            TakeFrame(s, pnext, cur, spans);
            spans := spans + [Span(pnext + HEAD_LEN, cur - HEAD_LEN)];
            pnext, remain, cur := pnext + cur, remain - cur, -1;
          } else {
            break;
          }
        } else if remain >= HEAD_LEN {
          cur := HeadAt(s, pnext);
        } else {
          break;
        }
      }
    }

    /** Delivers what the buffer decodes to; on success the remainder is moved to the front. On failure
        the messages in front of the bad frame are still delivered and the buffer is left as it was. */
    method ParseMsg(received: nat) returns (ok: bool, msgs: seq<Bytes>)
      requires Valid() && remainLen + received <= MSG_BUFFER_SIZE && Cached(Buffered(received))
      modifies this, rawBuff
      ensures Valid()
      ensures var d := Decode(LengthHead, old(Buffered(received)));
              && msgs == d.msgs && remainLen == |d.rest|
              && ok == (!d.bad && d.msgs != [])
              && (ok ==> Reading(0) && Buffered(0) == d.rest)
      ensures !ok ==> rawBuff[..] == old(rawBuff[..])
      ensures var rest := Decode(LengthHead, old(Buffered(received))).rest;
              curMsgLen == if remainLen < HEAD_LEN then -1 else HeadValue(rest)
    {
      ghost var s := Buffered(received);
      var spans: seq<Span>;
      var total := remainLen + received;
      ok, spans := ParsePositions(received);
      msgs := CopyOut(total, spans);
      if ok && remainLen > 0 {
        Compact(rawBuff, s, Last(spans), remainLen);
      }
      DecodeChunk(LengthHead, s);
      assert ok ==> rawBuff[..remainLen] == Decode(LengthHead, s).rest;
    }

    method CopyOut(total: nat, spans: seq<Span>) returns (msgs: seq<Bytes>)
      requires total <= rawBuff.Length
      ensures msgs == Cut(rawBuff[..total], spans)
    {
      var s := rawBuff[..total];
      msgs := [];
      for i := 0 to |spans|
        invariant msgs == Cut(s, spans[..i])
      {
        CutAppend(s, spans[..i], spans[i]);
        assert spans[..i] + [spans[i]] == spans[..i + 1];
        msgs := msgs + [Slice(s, spans[i])];
      }
      assert spans[..|spans|] == spans;
    }

    /** Where the next chunk goes and how much of it fits. `asserted` is the source's own assertion. */
    method PrepareNextRecv() returns (offset: nat, room: nat, asserted: bool)
      requires Valid()
      ensures offset == remainLen && offset + room == MSG_BUFFER_SIZE
      ensures asserted <==> room > 0
    {
      return remainLen, MSG_BUFFER_SIZE - remainLen, remainLen < MSG_BUFFER_SIZE;
    }
  }

  /** The buffer is decoded up to `pnext`, which is where the last message found ends. */
  ghost predicate Scanned(s: Bytes, pnext: nat, spans: seq<Span>) {
    && Progress(LengthHead, s, pnext, Cut(s, spans))
    && if spans == [] then pnext == 0 else pnext == Last(spans) > 0
  }

  lemma ScannedNothing(s: Bytes)
    ensures s[0..] == s && Scanned(s, 0, [])
  {
    ProgressStart(LengthHead, s);
  }

  lemma TakeFrame(s: Bytes, pnext: nat, n: nat, spans: seq<Span>)
    requires Scanned(s, pnext, spans)
    requires HeadOk(n) && pnext + n <= |s| && HeadAt(s, pnext) == n
    ensures Scanned(s, pnext + n, spans + [Span(pnext + HEAD_LEN, n - HEAD_LEN)])
  {
    var m := s[pnext + HEAD_LEN..pnext + n];
    SliceOfDrop(s, pnext, HEAD_LEN, n);
    ScanIs(LengthHead, s[pnext..]);
    ProgressStep(LengthHead, s, pnext, Cut(s, spans), n, m);
    CutAppend(s, spans, Span(pnext + HEAD_LEN, n - HEAD_LEN));
  }

  /** No whole message at `pnext`: the head or the body is incomplete, or the head is invalid. */
  ghost predicate Stuck(s: Bytes, pnext: nat, cur: int, ok: bool) {
    if cur == -1 then ok && |s| < pnext + HEAD_LEN
    else pnext + HEAD_LEN <= |s| && cur == HeadAt(s, pnext) && ok == HeadOk(cur) && (ok ==> |s| < pnext + cur)
  }

  /** The loop stops at the bytes that `Decode` leaves over, for the reason `Decode` gives. */
  lemma ScannedAll(s: Bytes, pnext: nat, spans: seq<Span>, cur: int, ok: bool)
    requires Scanned(s, pnext, spans) && Stuck(s, pnext, cur, ok)
    ensures Decode(LengthHead, s) == Decoded(Cut(s, spans), s[pnext..], !ok)
    ensures cur != -1 ==> cur == HeadValue(s[pnext..])
  {
    ScanIs(LengthHead, s[pnext..]);
    ProgressDone(LengthHead, s, pnext, Cut(s, spans));
  }

  // ---------------------------------------------------------------- composed reads

  /** The question after a chunk, and the parse if the read is complete: on a verdict, or when the room it was
      given is full. */
  method Judge(u: Unpacker, received: nat, full: bool) returns (completed: bool, ok: bool, msgs: seq<Bytes>)
    requires u.Valid() && u.remainLen + received <= MSG_BUFFER_SIZE
    requires u.Cached(u.Buffered(received)) && (u.curMsgLen == -1 || HeadOk(u.curMsgLen))
    requires full || u.remainLen + received < MSG_BUFFER_SIZE
    modifies u, u.rawBuff
    ensures var s := old(u.Buffered(received)); var d := Decode(LengthHead, s);
            && (completed <==> Scan(LengthHead, s) != NeedMore || full) && msgs == d.msgs
            && (completed ==> ok == (!d.bad && msgs != []) && (ok ==> u.Reading(0) && u.Buffered(0) == d.rest))
            && (!completed ==> ok && d == Decoded([], s, false))
    ensures !completed ==>
              u.Reading(received) && u.remainLen == old(u.remainLen) && u.rawBuff[..] == old(u.rawBuff[..])
  {
    DecodeChunk(LengthHead, u.Buffered(received));
    var r := u.CompletionCondition(false, received);
    completed, ok, msgs := false, true, [];
    if r == 0 || full {
      completed := true;
      ok, msgs := u.ParseMsg(received);
    }
  }

  /** One chunk of a composed read, and the parse if that completes the read: whatever the chunk, exactly
      what the buffered bytes now decode to is delivered, and the undecoded rest stays buffered. */
  method ReadSome(u: Unpacker, before: nat, chunk: Bytes)
      returns (msgs: seq<Bytes>, received: nat, failed: bool)
    requires u.Reading(before)
    requires chunk != [] && u.remainLen + before + |chunk| <= MSG_BUFFER_SIZE
    modifies u, u.rawBuff
    ensures var e := Decode(LengthHead, old(u.Buffered(before)) + chunk);
            && msgs == e.msgs && failed == e.bad
            && (!failed ==> u.Reading(received) && u.Buffered(received) == e.rest)
  {
    ghost var s := u.Buffered(before) + chunk;
    DecodeChunk(LengthHead, s);
    ScanSize(LengthHead, s);
    ScanIs(LengthHead, u.Buffered(before));
    Land(u.rawBuff, u.remainLen + before, chunk);
    received := before + |chunk|;
    assert u.Buffered(received) == s;
    var completed, ok, parsed := Judge(u, received, u.remainLen + received == MSG_BUFFER_SIZE);
    msgs, failed := parsed, !ok;
    if completed {
      received := 0;
    }
  }

  /** Before a chunk: there is room for it, as the source asserts, and a read that has nothing yet asks for
      more. */
  method Room(u: Unpacker, received: nat) returns (room: nat)
    requires u.Reading(received)
    modifies u`curMsgLen
    ensures u.Reading(received) && u.Buffered(received) == old(u.Buffered(received))
    ensures 0 < room == MSG_BUFFER_SIZE - |u.Buffered(received)|
  {
    var offset, free, asserted := u.PrepareNextRecv();
    assert asserted;
    if received == 0 {
      ScanIs(LengthHead, u.Buffered(0));
      var more := u.CompletionCondition(false, 0);
      assert more != 0;
    }
    room := free - received;
  }

  /** The next chunk of the stream, of about the wanted size. */
  method ReadNext(u: Unpacker, before: nat, stream: Bytes, used: nat, want: nat)
      returns (size: nat, msgs: seq<Bytes>, received: nat, failed: bool)
    requires u.Reading(before) && used < |stream|
    modifies u, u.rawBuff
    ensures 0 < size <= |stream| - used
    ensures var e := Decode(LengthHead, old(u.Buffered(before)) + stream[used..used + size]);
            && msgs == e.msgs && failed == e.bad
            && (!failed ==> u.Reading(received) && u.Buffered(received) == e.rest)
  {
    var room := Room(u, before);
    size := Clamp(want, Min(room, |stream| - used));
    msgs, received, failed := ReadSome(u, before, stream[used..used + size]);
  }

  /** A whole stream through composed reads: a read starts with nothing transferred, takes chunks whose
      sizes the transport picks freely, stops when the completion condition says so or the buffer is full,
      and then parses. Whatever the sizes, exactly what the stream decodes to is delivered, a failure is
      reported exactly when the stream is malformed, and the buffer holds the undecoded rest. */
  method Receive(u: Unpacker, stream: Bytes, pick: nat -> nat)
      returns (msgs: seq<Bytes>, failed: bool, used: nat, received: nat)
    requires u.Reading(0) && u.remainLen == 0
    modifies u, u.rawBuff
    ensures msgs == Decode(LengthHead, stream).msgs && failed == Decode(LengthHead, stream).bad
    ensures failed <==> BadHeads(stream)
    ensures used <= |stream| && failed == Decode(LengthHead, stream[..used]).bad
    ensures !failed ==>
              used == |stream| && u.Reading(received) && u.Buffered(received) == Decode(LengthHead, stream).rest
  {
    msgs, failed, used, received := [], false, 0, 0;
    ghost var d := Decode(LengthHead, []);
    assert stream[..0] == [];
    var calls := 0;
    while used < |stream| && !failed
      invariant used <= |stream| && d == Decode(LengthHead, stream[..used])
      invariant msgs == d.msgs && failed == d.bad
      invariant !failed ==> u.Reading(received) && u.Buffered(received) == d.rest
      decreases |stream| - used
    {
      var size, ms, received', failed' := ReadNext(u, received, stream, used, pick(calls));
      ghost var e := Decode(LengthHead, d.rest + stream[used..used + size]);
      DecodeNext(LengthHead, stream, used, size, d, e);
      received, failed, calls := received', failed', calls + 1;
      msgs, used, d := msgs + ms, used + size, Decoded(d.msgs + e.msgs, e.rest, e.bad);
    }
    DecodeEnd(LengthHead, stream, used, d);
    MalformedLength(stream);
  }

  /** After a parse the next read has room, which `PrepareNextRecv` asserts, unless one single read filled
      the whole buffer behind an invalid first head. The socket starts that next read before it reports
      the failure, so the assertion is then violated. */
  lemma RoomAfterParse(s: Bytes)
    requires |s| <= MSG_BUFFER_SIZE
    ensures |Decode(LengthHead, s).rest| < MSG_BUFFER_SIZE <==> |s| < MSG_BUFFER_SIZE || HeadOk(HeadValue(s))
  {
    ScanIs(LengthHead, s);
    ScanSize(LengthHead, s);
  }

  lemma FullBufferWithBadHead()
    ensures exists s: Bytes :: |s| == MSG_BUFFER_SIZE && |Decode(LengthHead, s).rest| == MSG_BUFFER_SIZE
  {
    var s: Bytes := seq(MSG_BUFFER_SIZE, i => 0);
    RoomAfterParse(s);
    assert |s| == MSG_BUFFER_SIZE && |Decode(LengthHead, s).rest| == MSG_BUFFER_SIZE;
  }

  // ---------------------------------------------------------------- reading on after a failure

  /** A read is under way whose bytes land behind the first `at` bytes of what was in the buffer, and are looked
      for at its front. */
  ghost predicate StaleReading(u: Unpacker, was: Bytes, at: nat, got: Bytes)
    reads u, u.rawBuff
  {
    && at + |got| <= |was| == MSG_BUFFER_SIZE && u.Reading(|got|) && u.remainLen == 0
    && u.rawBuff[..] == was[..at] + got + was[at + |got|..]
  }

  /** When such a read completes, and what it delivers. */
  ghost predicate StaleResult(was: Bytes, at: nat, got: Bytes, completed: bool, ok: bool, msgs: seq<Bytes>)
    requires at + |got| <= |was|
  {
    var s := Stale(was, at, got);
    var d := Decode(LengthHead, s);
    && (completed <==> Scan(LengthHead, s) != NeedMore || at + |got| == MSG_BUFFER_SIZE)
    && msgs == d.msgs && (completed ==> ok == (!d.bad && msgs != []))
  }

  /** The parse has failed, and the next read has been started before the user is told and the unpacker is reset.
      Behind an impossibly short length that read ends at once, with nothing received, which the socket takes
      for an error. Otherwise its chunks land where the failed parse ended, but after the reset the unpacker
      looks for them at the front of the buffer. */
  method ReadAfterFailure(u: Unpacker, chunks: seq<Bytes>)
      returns (ended: bool, completed: bool, used: nat, ok: bool, msgs: seq<Bytes>)
    requires u.Valid() && HEAD_LEN <= u.remainLen < MSG_BUFFER_SIZE && u.curMsgLen != -1 && !HeadOk(u.curMsgLen)
    requires [] !in chunks && u.remainLen + |Concat(chunks)| <= MSG_BUFFER_SIZE
    modifies u, u.rawBuff
    ensures ended <==> old(u.curMsgLen) <= HEAD_LEN
    ensures used <= |chunks| && |Concat(chunks[..used])| <= |Concat(chunks)|
    ensures !ended ==>
              && (completed || used == |chunks|)
              && StaleResult(old(u.rawBuff[..]), old(u.remainLen), Concat(chunks[..used]), completed, ok, msgs)
  {
    completed, used, ok, msgs := false, 0, true, [];
    ghost var was := u.rawBuff[..];
    var offset;
    ended, offset := StartAfterFailure(u);
    if ended {
      return;
    }
    var size := 0;
    ScanSize(LengthHead, []);
    while used < |chunks| && !completed
      invariant used <= |chunks| && size == |Concat(chunks[..used])| <= |Concat(chunks)|
      invariant StaleResult(was, offset, Concat(chunks[..used]), completed, ok, msgs)
      invariant !completed ==> StaleReading(u, was, offset, Concat(chunks[..used]))
      decreases |chunks| - used
    {
      ConcatNext(chunks, used);
      ConcatPart(chunks, used + 1);
      assert chunks[used] in chunks;
      completed, ok, msgs := StaleChunk(u, was, offset, Concat(chunks[..used]), size, chunks[used]);
      size := size + |chunks[used]|;
      used := used + 1;
    }
  }

  /** The start of that read, its first question, and the reset. */
  method StartAfterFailure(u: Unpacker) returns (ended: bool, offset: nat)
    requires u.Valid() && HEAD_LEN <= u.remainLen < MSG_BUFFER_SIZE && u.curMsgLen != -1 && !HeadOk(u.curMsgLen)
    modifies u
    ensures ended <==> old(u.curMsgLen) <= HEAD_LEN
    ensures offset == old(u.remainLen) && (!ended ==> StaleReading(u, u.rawBuff[..], offset, []))
  {
    var room, asserted;
    offset, room, asserted := u.PrepareNextRecv();
    assert asserted;
    var more := u.CompletionCondition(false, 0);
    ended := more == 0;
    u.ResetState();
    assert u.rawBuff[..] == u.rawBuff[..offset] + [] + u.rawBuff[offset..];
  }

  /** One chunk of that read. */
  method StaleChunk(u: Unpacker, ghost was: Bytes, offset: nat, ghost got: Bytes, size: nat, chunk: Bytes)
      returns (completed: bool, ok: bool, msgs: seq<Bytes>)
    requires StaleReading(u, was, offset, got) && size == |got|
    requires chunk != [] && offset + size + |chunk| <= MSG_BUFFER_SIZE
    modifies u, u.rawBuff
    ensures StaleResult(was, offset, got + chunk, completed, ok, msgs)
    ensures !completed ==> StaleReading(u, was, offset, got + chunk)
  {
    StaleLand(u, was, offset, got, size, chunk);
    completed, ok, msgs := Judge(u, size + |chunk|, offset + size + |chunk| == MSG_BUFFER_SIZE);
  }

  method StaleLand(u: Unpacker, ghost was: Bytes, offset: nat, ghost got: Bytes, size: nat, chunk: Bytes)
    requires StaleReading(u, was, offset, got) && size == |got|
    requires offset + size + |chunk| <= MSG_BUFFER_SIZE
    modifies u.rawBuff
    ensures u.Buffered(size + |chunk|) == Stale(was, offset, got + chunk)
    ensures u.Cached(Stale(was, offset, got + chunk)) && (u.curMsgLen == -1 || HeadOk(u.curMsgLen))
    ensures u.rawBuff[..] == was[..offset] + (got + chunk) + was[offset + size + |chunk|..]
  {
    ScanIs(LengthHead, u.Buffered(size));
    ghost var before := u.Buffered(size);
    LandNext(u.rawBuff, was, offset, got, size, chunk);
    StaleIs(was, offset, got);
    StaleIs(was, offset, got + chunk);
    assert before == Stale(was, offset, got);
    assert Stale(was, offset, got + chunk)[..size] == before;
  }

  /** Without a good frame in front of the bad head, such a read fails again, and delivers nothing, whatever
      the chunk holds, unless it is a single byte. */
  lemma FailsAgain(buffer: Bytes, at: nat, chunk: Bytes)
    requires HEAD_LEN <= at && at + |chunk| <= |buffer| && !HeadOk(HeadValue(buffer))
    ensures var d := Decode(LengthHead, Stale(buffer, at, chunk)); d.msgs == [] && (d.bad <==> |chunk| >= HEAD_LEN)
  {
    ScanIs(LengthHead, Stale(buffer, at, chunk));
  }

  /** With one, its message is delivered a second time, whatever the chunk holds, as soon as both the bytes that
      were left and the chunk are as long as its frame. */
  lemma DeliveredAgain(buffer: Bytes, at: nat, chunk: Bytes)
    requires at + |chunk| <= |buffer| && Scan(LengthHead, buffer).Frame?
    requires Scan(LengthHead, buffer).size <= at && Scan(LengthHead, buffer).size <= |chunk|
    ensures var d := Decode(LengthHead, Stale(buffer, at, chunk));
            d.msgs != [] && d.msgs[0] == Scan(LengthHead, buffer).msg
  {
    var s, n := Stale(buffer, at, chunk), Scan(LengthHead, buffer).size;
    ScanIs(LengthHead, buffer);
    ScanIs(LengthHead, s);
    assert s[..n] == buffer[..n];
    assert HeadValue(s) == HeadValue(s[..n]) == HeadValue(buffer[..n]) == HeadValue(buffer);
    assert s[HEAD_LEN..n] == s[..n][HEAD_LEN..] == buffer[HEAD_LEN..n];
  }
}
