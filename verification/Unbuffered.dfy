/** The unpacker that never copies: it alternates a read of exactly one head with a read of exactly one
    body into a buffer of that size. */
module Unbuffered {
  import opened Framing

  class UnbufferedUnpacker {
    const head: array<byte>
    var rawBuff: array<byte>   // empty while the head is wanted
    var step: int              // -1: invalid format, 0: want the head, 1: want the body

    ghost predicate Valid()
      reads this
    {
      head.Length == HEAD_LEN && head != rawBuff && -1 <= step <= 1
    }

    /** A read is under way: some part of a head, or some part of the body that the head announced. */
    ghost predicate Reading(received: nat)
      reads this, head
    {
      && Valid()
      && (step == 0 ==> rawBuff.Length == 0 && received < HEAD_LEN)
      && (step == 1 ==>
            && HeadOk(HeadValue(head[..]))
            && rawBuff.Length == HeadValue(head[..]) - HEAD_LEN && received < rawBuff.Length)
      && step != -1
    }

    /** The bytes of the frame received so far. */
    ghost function Pending(received: nat): (s: Bytes)
      requires Reading(received)
      reads this, head, rawBuff
    {
      if step == 0 then head[..received] else head[..] + rawBuff[..received]
    }

    constructor ()
      ensures Reading(0) && step == 0 && fresh(head) && fresh(rawBuff)
    {
      head := new byte[HEAD_LEN];
      rawBuff := new byte[0];
      step := 0;
    }

    /** `asserted` says whether the source's assertions hold in this call. */
    method CompletionCondition(ec: bool, received: nat) returns (r: nat, asserted: bool)
      requires Valid()
      modifies this
      ensures Valid()
      ensures ec ==> r == 0 && asserted && step == old(step) && rawBuff == old(rawBuff)
      ensures !ec && old(step) == 0 && received < HEAD_LEN ==>
                r == MAX_TRANSFER && step == 0 && rawBuff == old(rawBuff) && (asserted <==> rawBuff.Length == 0)
      ensures !ec && old(step) == 0 && received >= HEAD_LEN ==>
                var n := HeadValue(head[..]);
                && r == 0 && (asserted <==> old(rawBuff.Length) == 0 && received == HEAD_LEN)
                && (if HeadOk(n) || n == HEAD_LEN then step == 0 && fresh(rawBuff) && rawBuff.Length == n - HEAD_LEN
                    else step == -1 && rawBuff == old(rawBuff))
      ensures old(step) != 0 ==> step == old(step) && rawBuff == old(rawBuff)
      ensures !ec && old(step) == 1 ==> r == MAX_TRANSFER && (asserted <==> rawBuff.Length != 0)
      ensures !ec && old(step) == -1 ==> r == 0 && !asserted
    {
      if ec {
        return 0, true;
      }
      r := 0;
      if step == 0 {
        asserted := rawBuff.Length == 0;
        if received < HEAD_LEN {
          return MAX_TRANSFER, asserted;
        }
        asserted := asserted && received == HEAD_LEN;
        // an unsigned subtraction: a head below HEAD_LEN becomes a huge length
        var curMsgLen := (HeadValue(head[..]) + SIZE_T - HEAD_LEN) % SIZE_T;
        if curMsgLen > MSG_BUFFER_SIZE - HEAD_LEN {
          step := -1;
        } else {
          rawBuff := new byte[curMsgLen];
        }
      } else if step == 1 {
        asserted := rawBuff.Length != 0;
        return MAX_TRANSFER, asserted;
      } else {
        asserted := false;
      }
    }

    method ParseMsg(received: nat) returns (ok: bool, msgs: seq<Bytes>, asserted: bool)
      requires Valid()
      modifies this
      ensures Valid() && ok == (step != -1 && !(old(step) == 1 && received != old(rawBuff.Length)))
      ensures old(step) == 0 ==>
                step == 1 && rawBuff == old(rawBuff) && msgs == [] && (asserted <==> rawBuff.Length != 0)
      ensures old(step) == 1 ==> (asserted <==> old(rawBuff.Length) != 0)
      ensures old(step) == 1 && received == old(rawBuff.Length) ==>
                step == 0 && rawBuff.Length == 0 && fresh(rawBuff) && msgs == [old(rawBuff[..])]
      ensures old(step) == 1 && received != old(rawBuff.Length) ==> step == 1 && rawBuff == old(rawBuff) && msgs == []
      ensures old(step) == -1 ==> step == -1 && rawBuff == old(rawBuff) && msgs == [] && asserted
    {
      msgs, asserted := [], true;
      if step == 0 {
        asserted := rawBuff.Length != 0;
        step := 1;
      } else if step == 1 {
        asserted := rawBuff.Length != 0;
        if received != rawBuff.Length {
          return false, [], asserted;
        }
        msgs := [rawBuff[..]];
        rawBuff := new byte[0];
        step := 0;
      }
      ok := step != -1;
    }

    /** The size of the next read. While a read is under way, it is what has been received and what is missing of
        the head, or of the body that the head announced. */
    method PrepareNextRecv() returns (room: nat)
      requires Valid()
      ensures forall received: nat :: Reading(received) ==>
                0 < room - received == (if step == 0 then HEAD_LEN else HeadValue(head[..])) - |Pending(received)|
    {
      return if rawBuff.Length == 0 then HEAD_LEN else rawBuff.Length;
    }
  }

  /** The verdict on part of a frame. */
  lemma PendingVerdict(s: Bytes)
    ensures |s| < HEAD_LEN ==> Decode(LengthHead, s) == Decoded([], s, false)
    ensures |s| >= HEAD_LEN && !HeadOk(HeadValue(s)) ==> Decode(LengthHead, s) == Decoded([], s, true)
    ensures |s| >= HEAD_LEN && HeadOk(HeadValue(s)) ==>
              (|s| < HeadValue(s) ==> Decode(LengthHead, s) == Decoded([], s, false)) &&
              (|s| == HeadValue(s) ==> Decode(LengthHead, s) == Decoded([s[HEAD_LEN..]], [], false))
  {
    ScanIs(LengthHead, s);
    if |s| >= HEAD_LEN && HeadOk(HeadValue(s)) && |s| == HeadValue(s) {
      ScanIs(LengthHead, []);
      assert s[|s|..] == [];
      assert s[HEAD_LEN..|s|] == s[HEAD_LEN..];
    }
  }

  /** A chunk of a head. The source asserts that the announced body is not empty, which fails exactly for
      the head HEAD_LEN: there the default unpacker reports an invalid frame, this one only trips over
      its assertion. */
  method ReadHead(u: UnbufferedUnpacker, before: nat, chunk: Bytes)
      returns (msgs: seq<Bytes>, received: nat, failed: bool, asserted: bool)
    requires u.Reading(before) && u.step == 0 && chunk != [] && before + |chunk| <= HEAD_LEN
    modifies u, u.head
    ensures var s := old(u.Pending(before)) + chunk; var e := Decode(LengthHead, s);
            && (asserted <==> !(|s| == HEAD_LEN && HeadValue(s) == HEAD_LEN))
            && msgs == e.msgs
            && (asserted ==> failed == e.bad && (!failed ==> u.Reading(received) && u.Pending(received) == e.rest))
    ensures asserted && failed ==> u.Valid() && u.step == -1
    ensures fresh(u.rawBuff) || u.rawBuff == old(u.rawBuff)
  {
    ghost var s := u.Pending(before) + chunk;
    PendingVerdict(s);
    forall i | 0 <= i < |chunk| {
      u.head[before + i] := chunk[i];
    }
    assert u.head[..before + |chunk|] == s;
    received := before + |chunk|;
    var r;
    r, asserted := u.CompletionCondition(false, received);
    if received == HEAD_LEN {
      assert u.head[..] == s;
      var ok, held: bool;
      ok, msgs, held := u.ParseMsg(received);
      received, failed, asserted := 0, !ok, asserted && held;
      assert asserted && ok ==> u.head[..] + u.rawBuff[..0] == s;
    } else {
      msgs, failed := [], false;
    }
  }

  /** A chunk of a body. */
  method ReadBody(u: UnbufferedUnpacker, before: nat, chunk: Bytes)
      returns (msgs: seq<Bytes>, received: nat, failed: bool, asserted: bool)
    requires u.Reading(before) && u.step == 1 && chunk != [] && before + |chunk| <= u.rawBuff.Length
    modifies u, u.rawBuff
    ensures var e := Decode(LengthHead, old(u.Pending(before)) + chunk);
            && msgs == e.msgs && failed == e.bad && asserted
            && (!failed ==> u.Reading(received) && u.Pending(received) == e.rest)
    ensures fresh(u.rawBuff) || u.rawBuff == old(u.rawBuff)
  {
    ghost var s := u.Pending(before) + chunk;
    PendingVerdict(s);
    forall i | 0 <= i < |chunk| {
      u.rawBuff[before + i] := chunk[i];
    }
    received := before + |chunk|;
    assert u.head[..] + u.rawBuff[..received] == s;
    assert HeadValue(s) == HeadValue(u.head[..]);
    var r;
    r, asserted := u.CompletionCondition(false, received);
    if received == u.rawBuff.Length {
      assert u.rawBuff[..] == s[HEAD_LEN..];
      var ok, held: bool;
      ok, msgs, held := u.ParseMsg(received);
      received, failed, asserted := 0, !ok, asserted && held;
    } else {
      msgs, failed := [], false;
    }
  }

  /** One chunk, of a head or of a body. */
  method ReadSome(u: UnbufferedUnpacker, before: nat, chunk: Bytes)
      returns (msgs: seq<Bytes>, received: nat, failed: bool, asserted: bool)
    requires u.Reading(before) && chunk != []
    requires before + |chunk| <= if u.step == 0 then HEAD_LEN else u.rawBuff.Length
    modifies u, u.head, u.rawBuff
    ensures var e := Decode(LengthHead, old(u.Pending(before)) + chunk);
            && msgs == e.msgs && (asserted <==> !Trips(e))
            && (asserted ==> failed == e.bad && (!failed ==> u.Reading(received) && u.Pending(received) == e.rest))
    ensures asserted && failed ==> u.Valid() && u.step == -1
    ensures fresh(u.rawBuff) || u.rawBuff == old(u.rawBuff)
  {
    ghost var s := u.Pending(before) + chunk;
    PendingVerdict(s);
    if u.step == 0 {
      msgs, received, failed, asserted := ReadHead(u, before, chunk);
    } else {
      msgs, received, failed, asserted := ReadBody(u, before, chunk);
    }
  }

  /** Before a chunk: there is room for exactly the rest of the head, or of the body that the head announced; a
      read that has nothing yet asks for more, and the source's assertions hold. */
  method Room(u: UnbufferedUnpacker, received: nat) returns (room: nat)
    requires u.Reading(received)
    modifies u
    ensures u.Reading(received) && u.Pending(received) == old(u.Pending(received))
    ensures u.step == old(u.step) && u.rawBuff == old(u.rawBuff)
    ensures 0 < room == (if u.step == 0 then HEAD_LEN else HeadValue(u.head[..])) - |u.Pending(received)|
  {
    if received == 0 {
      var more, asserted := u.CompletionCondition(false, 0);
      assert more != 0 && asserted;
    }
    var free := u.PrepareNextRecv();
    assert u.Reading(received);
    room := free - received;
  }

  /** What follows the messages announces an empty body. */
  predicate Trips(d: Decoded) {
    d.bad && |d.rest| >= HEAD_LEN && HeadValue(d.rest) == HEAD_LEN
  }

  /** Two bytes are enough. */
  lemma EmptyBody()
    ensures Trips(Decode(LengthHead, [0, 2]))
  {
    ScanIs(LengthHead, [0, 2]);
  }

  /** A bad head stays what it is. */
  lemma TripsFinal(a: Bytes, s: Bytes)
    requires a <= s && Decode(LengthHead, a).bad
    ensures Trips(Decode(LengthHead, s)) <==> Trips(Decode(LengthHead, a))
  {
    var d, b := Decode(LengthHead, a), s[|a|..];
    assert s == a + b;
    DecodeSplit(LengthHead, a, b);
    ScanIs(LengthHead, d.rest);
    ScanFinal(LengthHead, d.rest, b);
  }

  /** A whole stream, with chunks that the transport picks: although it reads heads and bodies one by one, this
      unpacker delivers exactly what the default one delivers and fails on exactly the same streams, except
      that on a head that announces an empty body it violates its own assertion instead. That is before the
      socket goes on; see `ReceiveAndReadOn`. */
  method Receive(u: UnbufferedUnpacker, stream: Bytes, pick: nat -> nat)
      returns (msgs: seq<Bytes>, failed: bool, received: nat, asserted: bool)
    requires u.Reading(0) && u.step == 0
    modifies u, u.head, u.rawBuff
    ensures var d := Decode(LengthHead, stream);
            && msgs == d.msgs && (asserted <==> !Trips(d))
            && (asserted ==> failed == d.bad && (!failed ==> u.Reading(received) && u.Pending(received) == d.rest))
    ensures asserted && failed ==> u.Valid() && u.step == -1
  {
    var used := 0;
    msgs, failed, received, asserted := [], false, 0, true;
    ghost var d := Decode(LengthHead, []);
    PendingVerdict([]);
    assert stream[..0] == [];
    var calls := 0;
    while used < |stream| && asserted && !failed
      invariant used <= |stream| && d == Decode(LengthHead, stream[..used])
      invariant msgs == d.msgs && (asserted <==> !Trips(d)) && (asserted ==> failed == d.bad)
      invariant asserted && !failed ==> u.Reading(received) && u.Pending(received) == d.rest
      invariant asserted && failed ==> u.Valid() && u.step == -1
      invariant fresh(u.rawBuff) || u.rawBuff == old(u.rawBuff)
      decreases |stream| - used
    {
      var room := Room(u, received);
      var size := Clamp(pick(calls), Min(room, |stream| - used));
      calls := calls + 1;
      ghost var e := Decode(LengthHead, d.rest + stream[used..used + size]);
      DecodeNext(LengthHead, stream, used, size, d, e);
      var ms: seq<Bytes>;
      ms, received, failed, asserted := ReadSome(u, received, stream[used..used + size]);
      msgs, used, d := msgs + ms, used + size, Decoded(d.msgs + e.msgs, e.rest, e.bad);
    }
    DecodeEnd(LengthHead, stream, used, d);
    if d.bad {
      TripsFinal(stream[..used], stream);
    }
  }

  /** The socket starts the next read before it reports a failure. The first question of that read comes to an
      unpacker that has given up, which asserts that nobody asks it. */
  method ReadAfterFailure(u: UnbufferedUnpacker) returns (more: nat, asserted: bool)
    requires u.Valid() && u.step == -1
    modifies u
    ensures more == 0 && !asserted
  {
    var _ := u.PrepareNextRecv();
    more, asserted := u.CompletionCondition(false, 0);
  }

  /** So with the read that follows a failure included, some assertion is violated exactly on the malformed
      streams. */
  method ReceiveAndReadOn(u: UnbufferedUnpacker, stream: Bytes, pick: nat -> nat)
      returns (msgs: seq<Bytes>, asserted: bool)
    requires u.Reading(0) && u.step == 0
    modifies u, u.head, u.rawBuff
    ensures msgs == Decode(LengthHead, stream).msgs
    ensures asserted <==> !BadHeads(stream)
  {
    var failed, received;
    MalformedLength(stream);
    msgs, failed, received, asserted := Receive(u, stream, pick);
    if asserted {
      if failed {
        var _, held := ReadAfterFailure(u);
        asserted := held;
      } else {
        var _ := Room(u, received);
      }
    }
  }
}
