/** Messages of one fixed length. */
module FixedLengthUnpacking {
  import opened Framing

  class FixedLengthUnpacker {
    const rawBuff: array<byte>
    const fixedLength: Length
    var remainLen: nat

    ghost predicate Valid()
      reads this
    {
      rawBuff.Length == MSG_BUFFER_SIZE && remainLen <= MSG_BUFFER_SIZE
    }

    ghost function Buffered(received: nat): (s: Bytes)
      requires Valid() && remainLen + received <= MSG_BUFFER_SIZE
      reads this, rawBuff
      ensures |s| == remainLen + received
    {
      rawBuff[..remainLen + received]
    }

    /** A composed read is under way: no whole message yet. */
    ghost predicate Reading(received: nat)
      reads this, rawBuff
    {
      && Valid() && remainLen + received <= MSG_BUFFER_SIZE
      && Hungry(FixedSize(fixedLength), Buffered(received))
    }

    constructor (fixedLength: Length)
      ensures Reading(0) && remainLen == 0 && this.fixedLength == fixedLength && fresh(rawBuff)
    {
      rawBuff := new byte[MSG_BUFFER_SIZE];
      this.fixedLength := fixedLength;
      remainLen := 0;
      new;
      ScanSize(FixedSize(fixedLength), []);
    }

    method CompletionCondition(ec: bool, received: nat) returns (r: nat)
      requires Valid() && remainLen + received <= MSG_BUFFER_SIZE
      ensures r == if !ec && Scan(FixedSize(fixedLength), Buffered(received)) == NeedMore then MAX_TRANSFER else 0
    {
      if ec {
        return 0;
      }
      ScanIs(FixedSize(fixedLength), Buffered(received));
      var dataLen := remainLen + received;
      return if dataLen >= fixedLength then 0 else MAX_TRANSFER;
    }

    /** Delivers what the buffer decodes to, and moves the remainder to the front; this format never fails,
        so a read that was completed always yields a message. */
    method ParseMsg(received: nat) returns (ok: bool, msgs: seq<Bytes>)
      requires Valid() && remainLen + received <= MSG_BUFFER_SIZE
      modifies this, rawBuff
      ensures var d := Decode(FixedSize(fixedLength), old(Buffered(received)));
              && msgs == d.msgs && !d.bad && ok == (msgs != [])
              && Reading(0) && Buffered(0) == d.rest
    {
      ghost var s := Buffered(received);
      var pnext: nat;
      remainLen := remainLen + received;
      pnext, msgs := Extract(s);
      DecodeChunk(FixedSize(fixedLength), s);
      if pnext > 0 && remainLen > 0 {
        Compact(rawBuff, s, pnext, remainLen);
      }
      assert rawBuff[..remainLen] == s[pnext..];
      return pnext > 0, msgs;
    }

    /** The loop of the parser. */
    method Extract(ghost s: Bytes) returns (pnext: nat, msgs: seq<Bytes>)
      requires Valid() && |s| == remainLen && s == rawBuff[..|s|]
      modifies this
      ensures Valid() && pnext + remainLen == |s| && (pnext == 0 <==> msgs == [])
      ensures Decode(FixedSize(fixedLength), s) == Decoded(msgs, s[pnext..], false)
    {
      ghost var f := FixedSize(fixedLength);
      pnext, msgs := 0, [];
      ProgressStart(f, s);
      while remainLen >= fixedLength
        invariant Valid() && pnext + remainLen == |s|
        invariant Progress(f, s, pnext, msgs) && (pnext == 0 <==> msgs == [])
        decreases remainLen
      {
        TakeFixed(fixedLength, s, pnext, msgs);
        var m := rawBuff[pnext..pnext + fixedLength];
        SliceOfTake(rawBuff[..], |s|, pnext, pnext + fixedLength);
        assert rawBuff[..][..|s|] == s;
        msgs := msgs + [m];
        pnext, remainLen := pnext + fixedLength, remainLen - fixedLength;
      }
      ScanIs(f, s[pnext..]);
      ProgressDone(f, s, pnext, msgs);
    }

    /** Where the next chunk goes and how much of it fits. `asserted` is the source's own assertion. */
    method PrepareNextRecv() returns (offset: nat, room: nat, asserted: bool)
      requires Valid()
      ensures offset == remainLen && offset + room == MSG_BUFFER_SIZE
      ensures asserted <==> room > 0
    {
      return remainLen, MSG_BUFFER_SIZE - remainLen, remainLen < MSG_BUFFER_SIZE;
    }
  }

  lemma TakeFixed(n: Length, s: Bytes, pnext: nat, found: seq<Bytes>)
    requires Progress(FixedSize(n), s, pnext, found) && pnext + n <= |s|
    ensures Progress(FixedSize(n), s, pnext + n, found + [s[pnext..pnext + n]])
  {
    ScanIs(FixedSize(n), s[pnext..]);
    SliceOfDrop(s, pnext, 0, n);
    ProgressStep(FixedSize(n), s, pnext, found, n, s[pnext..pnext + n]);
  }

  /** Round trip: messages of the right length, simply concatenated, decode to themselves. */
  lemma FixedRoundTrip(n: Length, msgs: seq<Bytes>)
    requires forall i :: 0 <= i < |msgs| ==> |msgs[i]| == n
    ensures Decode(FixedSize(n), Concat(msgs)) == Decoded(msgs, [], false)
  {
    forall i | 0 <= i < |msgs| ensures Scan(FixedSize(n), msgs[i]) == Frame(|msgs[i]|, msgs[i]) {
      ScanIs(FixedSize(n), msgs[i]);
      assert msgs[i][..n] == msgs[i];
    }
    DecodeFrames(FixedSize(n), msgs, msgs);
  }

  // ---------------------------------------------------------------- composed reads

  /** One chunk of a composed read, and the parse if that completes the read. */
  method ReadSome(u: FixedLengthUnpacker, before: nat, chunk: Bytes)
      returns (msgs: seq<Bytes>, received: nat)
    requires u.Reading(before) && chunk != [] && u.remainLen + before + |chunk| <= MSG_BUFFER_SIZE
    modifies u, u.rawBuff
    ensures u.Reading(received)
    ensures var e := Decode(FixedSize(u.fixedLength), old(u.Buffered(before)) + chunk);
            msgs == e.msgs && !e.bad && u.Buffered(received) == e.rest
  {
    ghost var s := u.Buffered(before) + chunk;
    DecodeChunk(FixedSize(u.fixedLength), s);
    ScanSize(FixedSize(u.fixedLength), s);
    Land(u.rawBuff, u.remainLen + before, chunk);
    received := before + |chunk|;
    assert u.Buffered(received) == s;
    var r := u.CompletionCondition(false, received);
    if r == 0 || u.remainLen + received == MSG_BUFFER_SIZE {
      var _, parsed := u.ParseMsg(received);
      msgs, received := parsed, 0;
    } else {
      msgs := [];
    }
  }

  /** Before a chunk: there is room for it, as the source asserts, and a read that has nothing yet asks for
      more. */
  method Room(u: FixedLengthUnpacker, received: nat) returns (room: nat)
    requires u.Reading(received)
    ensures 0 < room == MSG_BUFFER_SIZE - |u.Buffered(received)|
  {
    var offset, free, asserted := u.PrepareNextRecv();
    assert asserted;
    if received == 0 {
      var more := u.CompletionCondition(false, 0);
      assert more != 0;
    }
    room := free - received;
  }

  /** A whole stream through composed reads, whose chunks the transport picks: exactly what the stream decodes
      to is delivered, nothing ever fails, and there is room for every chunk. */
  method Receive(u: FixedLengthUnpacker, stream: Bytes, pick: nat -> nat) returns (msgs: seq<Bytes>, received: nat)
    requires u.Reading(0) && u.remainLen == 0
    modifies u, u.rawBuff
    ensures u.Reading(received)
    ensures Decode(FixedSize(u.fixedLength), stream) == Decoded(msgs, u.Buffered(received), false)
  {
    ghost var f := FixedSize(u.fixedLength);
    var used := 0;
    msgs, received := [], 0;
    assert stream[..0] == [];
    ScanSize(f, []);
    var calls := 0;
    while used < |stream|
      invariant used <= |stream| && u.Reading(received)
      invariant Decode(f, stream[..used]) == Decoded(msgs, u.Buffered(received), false)
    {
      var room := Room(u, received);
      var size := Clamp(pick(calls), Min(room, |stream| - used));
      calls := calls + 1;
      ghost var d := Decode(f, stream[..used]);
      ghost var e := Decode(f, d.rest + stream[used..used + size]);
      DecodeNext(f, stream, used, size, d, e);
      var ms: seq<Bytes>;
      ms, received := ReadSome(u, received, stream[used..used + size]);
      msgs, used := msgs + ms, used + size;
    }
    assert stream[..used] == stream;
  }
}
