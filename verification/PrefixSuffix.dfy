/** Messages between a fixed prefix and a fixed suffix. */
module PrefixSuffix {
  import opened Framing

  class PrefixSuffixUnpacker {
    const rawBuff: array<byte>
    const affixes: Affixes
    var firstMsgLen: int   // -1: prefix not checked, 0: prefix checked, otherwise the size of the first frame
    var remainLen: nat

    ghost predicate Valid()
      reads this
    {
      rawBuff.Length == MSG_BUFFER_SIZE && remainLen <= MSG_BUFFER_SIZE && -1 <= firstMsgLen
    }

    ghost function Buffered(received: nat): (s: Bytes)
      requires Valid() && remainLen + received <= MSG_BUFFER_SIZE
      reads this, rawBuff
      ensures |s| == remainLen + received
    {
      rawBuff[..remainLen + received]
    }

    /** No verdict on `s` so far: at most its prefix has been checked. */
    ghost predicate Unjudged(s: Bytes)
      reads this
    {
      firstMsgLen == -1 || (firstMsgLen == 0 && affixes.prefix <= s)
    }

    /** The unpacker has been asked about `s` and remembers the verdict. */
    ghost predicate Peeked(s: Bytes)
      reads this
    {
      match Scan(Affixed(affixes), s)
      case Frame(n, _) => firstMsgLen == n
      case Bad => firstMsgLen == if affixes.prefix <= s then 0 else -1
      case NeedMore => Unjudged(s)
    }

    ghost predicate Reading(received: nat)
      reads this, rawBuff
    {
      && Valid() && remainLen + received <= MSG_BUFFER_SIZE
      && Hungry(Affixed(affixes), Buffered(received)) && Unjudged(Buffered(received))
    }

    constructor (affixes: Affixes)
      ensures Valid() && remainLen == 0 && fresh(rawBuff) && this.affixes == affixes
      ensures Reading(0)
    {
      rawBuff := new byte[MSG_BUFFER_SIZE];
      this.affixes := affixes;
      firstMsgLen, remainLen := -1, 0;
      new;
      ScanSize(Affixed(affixes), []);
    }

    method ResetState()
      requires Valid()
      modifies this`firstMsgLen, this`remainLen
      ensures Valid() && remainLen == 0 && firstMsgLen == -1 && Reading(0)
    {
      firstMsgLen, remainLen := -1, 0;
      ScanSize(Affixed(affixes), []);
    }

    /** Like strstr, but for arbitrary bytes: the first occurrence, or -1. */
    static method Memmem(mem: Bytes, sub: Bytes) returns (r: int)
      ensures r == Find(mem, sub, 0)
      ensures r == -1 <==> forall k: nat :: !OccursAt(mem, sub, k)
      ensures r != -1 ==> 0 <= r && OccursAt(mem, sub, r) && forall k: nat :: k < r ==> !OccursAt(mem, sub, k)
    {
      FindFirst(mem, sub, 0);
      if |sub| <= |mem| {
        var validLen := |mem| - |sub|;
        var i := 0;
        while i <= validLen
          invariant 0 <= i <= validLen + 1 && Find(mem, sub, 0) == Find(mem, sub, i)
        {
          if mem[i..i + |sub|] == sub {
            return i;
          }
          i := i + 1;
        }
      }
      return -1;
    }

    /** The bytes of the buffer from `start` to `end`; `whole` is all that is at hand. */
    method Copy(ghost whole: Bytes, start: nat, end: nat) returns (m: Bytes)
      requires |whole| <= rawBuff.Length && whole == rawBuff[..|whole|] && start <= end <= |whole|
      ensures m == whole[start..end]
    {
      m := rawBuff[start..end];
    }

    /** Judges the bytes at `buff`: stops exactly on a verdict, and remembers it. */
    method PeekMsg(ghost whole: Bytes, dataLen: nat, buff: nat) returns (r: nat)
      requires Valid() && buff + dataLen == |whole| <= MSG_BUFFER_SIZE && whole == rawBuff[..|whole|]
      requires Unjudged(whole[buff..])
      modifies this`firstMsgLen
      ensures Valid() && Peeked(whole[buff..])
      ensures r == if Scan(Affixed(affixes), whole[buff..]) == NeedMore then MAX_TRANSFER else 0
      ensures BadAffixes(affixes, whole[buff..]) ==> r == 0
    {
      BadAffixesExactly(affixes, whole[buff..]);
      var s := Copy(whole, buff, buff + dataLen);
      assert s == whole[buff..];
      ScanIs(Affixed(affixes), s);
      if firstMsgLen == -1 && dataLen >= |affixes.prefix| {
        if s[..|affixes.prefix|] != affixes.prefix {
          return 0;
        }
        firstMsgLen := 0;
      }
      var minLen := |affixes.prefix| + |affixes.suffix|;
      if dataLen > minLen {
        assert Window(s) == s;
        var end := Memmem(s[|affixes.prefix|..], affixes.suffix);
        if end != -1 {
          firstMsgLen := |affixes.prefix| + end + |affixes.suffix|;
          return 0;
        } else if dataLen >= MSG_BUFFER_SIZE {
          return 0;
        }
      }
      return MAX_TRANSFER;
    }

    method CompletionCondition(ec: bool, received: nat) returns (r: nat)
      requires Valid() && remainLen + received <= MSG_BUFFER_SIZE && Unjudged(Buffered(received))
      modifies this`firstMsgLen
      ensures Valid()
      ensures ec ==> r == 0 && firstMsgLen == old(firstMsgLen)
      ensures !ec ==> Peeked(Buffered(received))
      ensures !ec ==> r == if Scan(Affixed(affixes), Buffered(received)) == NeedMore then MAX_TRANSFER else 0
      ensures BadAffixes(affixes, Buffered(received)) ==> r == 0
    {
      if ec {
        return 0;
      }
      assert Buffered(received)[0..] == Buffered(received);
      r := PeekMsg(Buffered(received), remainLen + received, 0);
    }

    /** Delivers what the buffer decodes to. `asserted` says whether `first_msg_len > min_len` held at every
        extraction: it does exactly when nowhere in the buffer a suffix follows its prefix at once. */
    method ParseMsg(received: nat) returns (ok: bool, msgs: seq<Bytes>, asserted: bool)
      requires Valid() && remainLen + received <= MSG_BUFFER_SIZE && Peeked(Buffered(received))
      modifies this, rawBuff
      ensures Valid()
      ensures var d := Decode(Affixed(affixes), old(Buffered(received)));
              && msgs == d.msgs && remainLen == |d.rest|
              && ok == (!d.bad && d.msgs != [])
              && (asserted <==> [] !in d.msgs)
              && (ok ==> Reading(0) && Buffered(0) == d.rest)
      ensures asserted <==> !SomeEmpty(affixes, old(Buffered(received)))
      ensures Peeked(Decode(Affixed(affixes), old(Buffered(received))).rest)
      ensures !ok ==> rawBuff[..] == old(rawBuff[..])
    {
      ghost var s := Buffered(received);
      remainLen := remainLen + received;
      var pnext: nat;
      pnext, ok, msgs, asserted := Extract(s);
      EmptyDelivered(affixes, s);
      DecodeChunk(Affixed(affixes), s);
      if pnext == 0 {
        ok := false;
      } else if ok && remainLen > 0 {
        Compact(rawBuff, s, pnext, remainLen);
      }
      assert ok ==> rawBuff[..remainLen] == s[pnext..];
    }

    /** The loop of the parser. */
    method Extract(ghost s: Bytes) returns (pnext: nat, ok: bool, msgs: seq<Bytes>, asserted: bool)
      requires Valid() && Peeked(s) && |s| == remainLen && s == rawBuff[..|s|]
      modifies this
      ensures Valid() && pnext + remainLen == |s| && Peeked(s[pnext..])
      ensures Decode(Affixed(affixes), s) == Decoded(msgs, s[pnext..], Scan(Affixed(affixes), s[pnext..]) == Bad)
      ensures asserted <==> [] !in msgs
      ensures pnext == 0 <==> msgs == []
      ensures pnext > 0 ==> ok == (Scan(Affixed(affixes), s[pnext..]) != Bad)
    {
      pnext, ok, msgs, asserted := 0, true, [], true;
      ProgressStart(Affixed(affixes), s);
      assert s[0..] == s;
      ghost var v := Scan(Affixed(affixes), s);
      while firstMsgLen != -1 && firstMsgLen != 0
        invariant Valid() && pnext + remainLen == |s| && Progress(Affixed(affixes), s, pnext, msgs)
        invariant v == Scan(Affixed(affixes), s[pnext..]) && Peeked(s[pnext..])
        invariant asserted <==> [] !in msgs
        invariant if pnext == 0 then ok && msgs == [] else msgs != [] && ok == (v != Bad)
        decreases remainLen
      {
        var m, next, held := TakeMsg(s, pnext, msgs);
        msgs, pnext, asserted := msgs + [m], next, asserted && held;
        v := Scan(Affixed(affixes), s[pnext..]);
        ScanIs(Affixed(affixes), s[pnext..]);
        var r := PeekMsg(s, remainLen, pnext);
        if r == MAX_TRANSFER {
          break;
        } else if firstMsgLen == -1 {
          ok := false;
        }
      }
      ScanSize(Affixed(affixes), s[pnext..]);
      ProgressDone(Affixed(affixes), s, pnext, msgs);
    }

    /** Takes the message that was found. */
    method TakeMsg(ghost s: Bytes, pnext: nat, ghost found: seq<Bytes>) returns (m: Bytes, next: nat, held: bool)
      requires Valid() && pnext + remainLen == |s| <= MSG_BUFFER_SIZE && s == rawBuff[..|s|]
      requires Progress(Affixed(affixes), s, pnext, found) && pnext <= |s|
      requires Scan(Affixed(affixes), s[pnext..]).Frame? && firstMsgLen == Scan(Affixed(affixes), s[pnext..]).size
      modifies this
      ensures Valid() && firstMsgLen == -1 && pnext < next && next + remainLen == |s|
      ensures Progress(Affixed(affixes), s, next, found + [m])
      ensures held == (m != [])
    {
      var n: nat := firstMsgLen;
      var minLen := |affixes.prefix| + |affixes.suffix|;
      TakeFrame(affixes, s, pnext, n, found);
      held := n > minLen;
      m := Copy(s, pnext + |affixes.prefix|, pnext + (n - |affixes.suffix|));
      next := pnext + n;
      assert Progress(Affixed(affixes), s, next, found + [m]);
      remainLen, firstMsgLen := remainLen - n, -1;
    }

    /** Where the next chunk goes and how much of it fits. `asserted` is the source's own assertion. */
    method PrepareNextRecv() returns (offset: nat, room: nat, asserted: bool)
      requires Valid()
      ensures offset == remainLen && offset + room == MSG_BUFFER_SIZE
      ensures asserted <==> room > 0
    {
      return remainLen, MSG_BUFFER_SIZE - remainLen, remainLen < MSG_BUFFER_SIZE;
    }
  }

  lemma FrameShape(a: Affixes, t: Bytes)
    requires AffixScan(a, t).Frame?
    ensures var n, p, q := AffixScan(a, t).size, |a.prefix|, |a.suffix|;
            p + q <= n <= |t| && AffixScan(a, t) == Frame(n, t[p..n - q])
  {
  }

  lemma TakeFrame(a: Affixes, s: Bytes, pnext: nat, n: nat, found: seq<Bytes>)
    requires Progress(Affixed(a), s, pnext, found)
    requires pnext <= |s| && Scan(Affixed(a), s[pnext..]).Frame? && Scan(Affixed(a), s[pnext..]).size == n
    ensures |a.prefix| + |a.suffix| <= n && 0 < n && pnext + n <= |s|
    ensures Progress(Affixed(a), s, pnext + n, found + [s[pnext + |a.prefix|..pnext + (n - |a.suffix|)]])
  {
    ScanIs(Affixed(a), s[pnext..]);
    FrameShape(a, s[pnext..]);
    SliceOfDrop(s, pnext, |a.prefix|, n - |a.suffix|);
    ProgressStep(Affixed(a), s, pnext, found, n, s[pnext + |a.prefix|..pnext + (n - |a.suffix|)]);
  }

  // ---------------------------------------------------------------- composed reads

  /** The question after a chunk, and the parse if the read is complete: on a verdict, or when the room it was
      given is full. */
  method Judge(u: PrefixSuffixUnpacker, received: nat, full: bool)
      returns (completed: bool, ok: bool, msgs: seq<Bytes>, asserted: bool)
    requires u.Valid() && u.remainLen + received <= MSG_BUFFER_SIZE && u.Unjudged(u.Buffered(received))
    requires full || u.remainLen + received < MSG_BUFFER_SIZE
    modifies u, u.rawBuff
    ensures var f, s := Affixed(u.affixes), old(u.Buffered(received)); var d := Decode(f, s);
            && (completed <==> Scan(f, s) != NeedMore || full) && msgs == d.msgs && (asserted <==> [] !in msgs)
            && (completed ==> ok == (!d.bad && msgs != []) && (ok ==> u.Reading(0) && u.Buffered(0) == d.rest))
            && (!completed ==> ok && d == Decoded([], s, false))
    ensures !completed ==>
              u.Reading(received) && u.remainLen == old(u.remainLen) && u.rawBuff[..] == old(u.rawBuff[..])
  {
    DecodeChunk(Affixed(u.affixes), u.Buffered(received));
    var r := u.CompletionCondition(false, received);
    completed, ok, msgs, asserted := false, true, [], true;
    if r == 0 || full {
      completed := true;
      ok, msgs, asserted := u.ParseMsg(received);
    }
  }

  /** One chunk of a composed read, and the parse if that completes the read: whatever the chunk, exactly
      what the buffered bytes now decode to is delivered, and the undecoded rest stays buffered. */
  method ReadSome(u: PrefixSuffixUnpacker, before: nat, chunk: Bytes)
      returns (msgs: seq<Bytes>, received: nat, failed: bool, asserted: bool)
    requires u.Reading(before)
    requires chunk != [] && u.remainLen + before + |chunk| <= MSG_BUFFER_SIZE
    modifies u, u.rawBuff
    ensures var e := Decode(Affixed(u.affixes), old(u.Buffered(before)) + chunk);
            && msgs == e.msgs && failed == e.bad && (asserted <==> [] !in e.msgs)
            && (!failed ==> u.Reading(received) && u.Buffered(received) == e.rest)
  {
    ghost var s := u.Buffered(before) + chunk;
    DecodeChunk(Affixed(u.affixes), s);
    ScanSize(Affixed(u.affixes), s);
    Land(u.rawBuff, u.remainLen + before, chunk);
    received := before + |chunk|;
    assert u.Buffered(received) == s;
    var completed, ok, parsed, held := Judge(u, received, u.remainLen + received == MSG_BUFFER_SIZE);
    msgs, failed, asserted := parsed, !ok, held;
    if completed {
      received := 0;
    }
  }

  /** Before a chunk: there is room for it, as the source asserts, and a read that has nothing yet asks for
      more; that first question may find the prefix in the bytes left over. */
  method Room(u: PrefixSuffixUnpacker, received: nat) returns (room: nat)
    requires u.Reading(received)
    modifies u`firstMsgLen
    ensures u.Reading(received) && u.Buffered(received) == old(u.Buffered(received))
    ensures 0 < room == MSG_BUFFER_SIZE - |u.Buffered(received)|
  {
    var offset, free, asserted := u.PrepareNextRecv();
    assert asserted;
    if received == 0 {
      var more := u.CompletionCondition(false, 0);
      assert more != 0;
    }
    room := free - received;
  }

  /** The next chunk of the stream, of about the wanted size. */
  method ReadNext(u: PrefixSuffixUnpacker, before: nat, stream: Bytes, used: nat, want: nat)
      returns (size: nat, msgs: seq<Bytes>, received: nat, failed: bool, asserted: bool)
    requires u.Reading(before) && used < |stream|
    modifies u, u.rawBuff
    ensures 0 < size <= |stream| - used
    ensures var e := Decode(Affixed(u.affixes), old(u.Buffered(before)) + stream[used..used + size]);
            && msgs == e.msgs && failed == e.bad && (asserted <==> [] !in e.msgs)
            && (!failed ==> u.Reading(received) && u.Buffered(received) == e.rest)
  {
    var room := Room(u, before);
    size := Clamp(want, Min(room, |stream| - used));
    msgs, received, failed, asserted := ReadSome(u, before, stream[used..used + size]);
  }

  /** A whole stream through composed reads, whose chunks the transport picks: exactly what the stream decodes
      to is delivered, a failure is reported exactly when the stream is malformed, there is room for every
      chunk, and the parser's assertion fails exactly when at some frame's start the suffix follows the
      prefix at once. */
  method Receive(u: PrefixSuffixUnpacker, stream: Bytes, pick: nat -> nat)
      returns (msgs: seq<Bytes>, failed: bool, received: nat, asserted: bool)
    requires u.Reading(0) && u.remainLen == 0
    modifies u, u.rawBuff
    ensures asserted <==> !SomeEmpty(u.affixes, stream)
    ensures failed <==> SomeBadAffixes(u.affixes, stream)
    ensures var d := Decode(Affixed(u.affixes), stream);
            && msgs == d.msgs && failed == d.bad
            && (!failed ==> u.Reading(received) && u.Buffered(received) == d.rest)
  {
    ghost var f := Affixed(u.affixes);
    var used := 0;
    msgs, failed, received, asserted := [], false, 0, true;
    ghost var d := Decode(f, []);
    assert stream[..0] == [];
    var calls := 0;
    while used < |stream| && !failed
      invariant used <= |stream| && d == Decode(f, stream[..used])
      invariant msgs == d.msgs && failed == d.bad && (asserted <==> [] !in msgs)
      invariant !failed ==> u.Reading(received) && u.Buffered(received) == d.rest
      decreases |stream| - used
    {
      var size, ms, received', failed', held := ReadNext(u, received, stream, used, pick(calls));
      ghost var e := Decode(f, d.rest + stream[used..used + size]);
      DecodeNext(f, stream, used, size, d, e);
      received, failed, asserted, calls := received', failed', asserted && held, calls + 1;
      msgs, used, d := msgs + ms, used + size, Decoded(d.msgs + e.msgs, e.rest, e.bad);
    }
    DecodeEnd(f, stream, used, d);
    EmptyDelivered(u.affixes, stream);
    MalformedAffixed(u.affixes, stream);
  }

  // ---------------------------------------------------------------- the source's assertions

  /** A suffix follows its prefix at once, and at least one more byte is there: that is when the code looks. */
  predicate EmptyAhead(a: Affixes, s: Bytes) {
    |s| > |a.prefix| + |a.suffix| && a.prefix + a.suffix <= s
  }

  ghost predicate SomeEmpty(a: Affixes, s: Bytes) {
    exists k: nat :: k <= |s| && Boundary(Affixed(a), s, k) && EmptyAhead(a, s[k..])
  }

  lemma EmptyFrame(a: Affixes, s: Bytes)
    ensures AffixScan(a, s).Frame? && AffixScan(a, s).msg == [] <==> EmptyAhead(a, s)
  {
    var p, q := |a.prefix|, |a.suffix|;
    if |s| > p + q && s[..p] == a.prefix {
      var w := Window(s)[p..];
      FindFirst(w, a.suffix, 0);
      assert w[..q] == s[p..p + q];
      assert s[..p + q] == s[..p] + s[p..p + q];
      assert OccursAt(w, a.suffix, 0) <==> w[..q] == a.suffix;
    }
  }

  /** An empty message is delivered exactly when, where some frame starts, the suffix follows the prefix. */
  lemma {:induction false} EmptyDelivered(a: Affixes, s: Bytes)
    ensures [] in Decode(Affixed(a), s).msgs <==> SomeEmpty(a, s)
    decreases |s|
  {
    var f := Affixed(a);
    ScanIs(f, s);
    ScanSize(f, s);
    EmptyFrame(a, s);
    assert s[0..] == s;
    if Scan(f, s).Frame? {
      var n, m := Scan(f, s).size, Scan(f, s).msg;
      EmptyDelivered(a, s[n..]);
      EmptyLater(a, s, n);
      if EmptyAhead(a, s) {
        assert Boundary(f, s, 0) && EmptyAhead(a, s[0..]);
      }
    }
  }

  lemma EmptyLater(a: Affixes, s: Bytes, n: nat)
    requires Scan(Affixed(a), s).Frame? && Scan(Affixed(a), s).size == n <= |s|
    ensures SomeEmpty(a, s) <==> EmptyAhead(a, s) || SomeEmpty(a, s[n..])
  {
    assert s[0..] == s && Boundary(Affixed(a), s, 0);
    if SomeEmpty(a, s[n..]) {
      var k: nat :| k <= |s[n..]| && Boundary(Affixed(a), s[n..], k) && EmptyAhead(a, s[n..][k..]);
      BoundaryNext(Affixed(a), s, n, k);
    }
    if SomeEmpty(a, s) && !EmptyAhead(a, s) {
      var k: nat :| k <= |s| && Boundary(Affixed(a), s, k) && EmptyAhead(a, s[k..]);
      BoundaryNext(Affixed(a), s, n, k - n);
    }
  }

  /** Every choice of affixes has such a stream. */
  lemma EmptyMessage(a: Affixes)
    ensures exists s: Bytes :: |s| <= MSG_BUFFER_SIZE && SomeEmpty(a, s) && Decode(Affixed(a), s).msgs == [[]]
  {
    var q := a.prefix + a.suffix;
    var s: Bytes := q + [0];
    ScanIs(Affixed(a), s);
    EmptyFrame(a, s);
    assert s[0..] == s && Boundary(Affixed(a), s, 0);
    assert SomeEmpty(a, s);
    FrameShape(a, s);
    var n := Scan(Affixed(a), s).size;
    ScanIs(Affixed(a), s[n..]);
    assert |s[n..]| <= 1;
    EmptyTail(a, s[n..]);
  }

  /** A single byte is never a frame. */
  lemma EmptyTail(a: Affixes, s: Bytes)
    requires |s| <= 1
    ensures Decode(Affixed(a), s).msgs == []
  {
    ScanIs(Affixed(a), s);
  }

  /** After a parse the next read has room, which `PrepareNextRecv` asserts, unless one single read filled the
      whole buffer and it does not start with the prefix or holds no suffix. The missing suffix is the ordinary
      failure of this unpacker, so its ordinary failure violates the assertion: the socket starts the next
      read before it reports the failure. */
  lemma RoomAfterParse(a: Affixes, s: Bytes)
    requires |s| <= MSG_BUFFER_SIZE
    ensures |Decode(Affixed(a), s).rest| < MSG_BUFFER_SIZE <==>
              |s| < MSG_BUFFER_SIZE || (a.prefix <= s && exists i: nat :: OccursAt(s[|a.prefix|..], a.suffix, i))
  {
    ScanIs(Affixed(a), s);
    ScanSize(Affixed(a), s);
    if |s| == MSG_BUFFER_SIZE {
      FindFirst(s[|a.prefix|..], a.suffix, 0);
      assert Window(s) == s;
      assert a.prefix <= s <==> s[..|a.prefix|] == a.prefix;
    }
  }

  /** Every choice of affixes has such a buffer, with the right prefix. */
  lemma FullBufferWithoutSuffix(a: Affixes)
    ensures exists s: Bytes ::
              |s| == MSG_BUFFER_SIZE && a.prefix <= s && |Decode(Affixed(a), s).rest| == MSG_BUFFER_SIZE
  {
    var other: byte := if a.suffix[0] == 0 then 1 else 0;
    var p := |a.prefix|;
    var s: Bytes := a.prefix + seq(MSG_BUFFER_SIZE - p, i => other);
    forall i: nat ensures !OccursAt(s[p..], a.suffix, i) {
      if i + |a.suffix| <= |s[p..]| {
        assert s[p..][i..i + |a.suffix|][0] == other;
      }
    }
    RoomAfterParse(a, s);
    assert |s| == MSG_BUFFER_SIZE && a.prefix <= s;
  }

  // ---------------------------------------------------------------- reading on after a failure

  /** A read is under way whose bytes land behind the first `at` bytes of what was in the buffer, and are looked
      for at its front. */
  ghost predicate StaleReading(u: PrefixSuffixUnpacker, was: Bytes, at: nat, got: Bytes)
    reads u, u.rawBuff
  {
    && at + |got| <= |was| == MSG_BUFFER_SIZE && u.Reading(|got|) && u.remainLen == 0
    && u.rawBuff[..] == was[..at] + got + was[at + |got|..]
  }

  /** When such a read completes, and what it delivers. */
  ghost predicate StaleResult(a: Affixes, was: Bytes, at: nat, got: Bytes, completed: bool, ok: bool, msgs: seq<Bytes>)
    requires at + |got| <= |was|
  {
    var s := Stale(was, at, got);
    var d := Decode(Affixed(a), s);
    && (completed <==> Scan(Affixed(a), s) != NeedMore || at + |got| == MSG_BUFFER_SIZE)
    && msgs == d.msgs && (completed ==> ok == (!d.bad && msgs != []))
  }

  /** The parse has failed, with room left in the buffer (so it was the prefix that did not match), and the next
      read has been started before the user is told and the unpacker is reset. Its first question already
      concerns the wrong bytes: as many as were left, but from the front of the buffer. If they are a verdict,
      the read ends at once with nothing received, which the socket takes for an error. Otherwise its chunks
      land where the failed parse ended, and are looked for at the front of the buffer. */
  method ReadAfterFailure(u: PrefixSuffixUnpacker, chunks: seq<Bytes>)
      returns (ended: bool, completed: bool, used: nat, ok: bool, msgs: seq<Bytes>)
    requires u.Valid() && u.firstMsgLen == -1 && u.remainLen < MSG_BUFFER_SIZE
    requires [] !in chunks && u.remainLen + |Concat(chunks)| <= MSG_BUFFER_SIZE
    modifies u, u.rawBuff
    ensures ended <==> Scan(Affixed(u.affixes), old(u.Buffered(0))) != NeedMore
    ensures used <= |chunks| && |Concat(chunks[..used])| <= |Concat(chunks)|
    ensures var was, at := old(u.rawBuff[..]), old(u.remainLen);
            !ended ==>
              && (completed || used == |chunks|)
              && StaleResult(u.affixes, was, at, Concat(chunks[..used]), completed, ok, msgs)
  {
    completed, used, ok, msgs := false, 0, true, [];
    ghost var was := u.rawBuff[..];
    var offset;
    ended, offset := StartAfterFailure(u);
    if ended {
      return;
    }
    var size := 0;
    ScanSize(Affixed(u.affixes), []);
    while used < |chunks| && !completed
      invariant used <= |chunks| && size == |Concat(chunks[..used])| <= |Concat(chunks)|
      invariant StaleResult(u.affixes, was, offset, Concat(chunks[..used]), completed, ok, msgs)
      invariant !completed ==> StaleReading(u, was, offset, Concat(chunks[..used]))
      decreases |chunks| - used
    {
      ConcatNext(chunks, used);
      ConcatPart(chunks, used + 1);
      assert chunks[used] in chunks;
      completed, ok, msgs := StaleChunk(u, was, offset, Concat(chunks[..used]), size, chunks[used]);
      size := size + |chunks[used]|;
      used := used + 1;
    }
  }

  /** The start of that read, its first question, and the reset. */
  method StartAfterFailure(u: PrefixSuffixUnpacker) returns (ended: bool, offset: nat)
    requires u.Valid() && u.firstMsgLen == -1 && u.remainLen < MSG_BUFFER_SIZE
    modifies u
    ensures ended <==> Scan(Affixed(u.affixes), old(u.Buffered(0))) != NeedMore
    ensures offset == old(u.remainLen) && (!ended ==> StaleReading(u, u.rawBuff[..], offset, []))
  {
    var room, asserted;
    offset, room, asserted := u.PrepareNextRecv();
    assert asserted;
    var more := u.CompletionCondition(false, 0);
    ended := more == 0;
    u.ResetState();
    assert u.rawBuff[..] == u.rawBuff[..offset] + [] + u.rawBuff[offset..];
  }

  /** One chunk of that read. */
  method StaleChunk(u: PrefixSuffixUnpacker, ghost was: Bytes, offset: nat, ghost got: Bytes, size: nat, chunk: Bytes)
      returns (completed: bool, ok: bool, msgs: seq<Bytes>)
    requires StaleReading(u, was, offset, got) && size == |got|
    requires chunk != [] && offset + size + |chunk| <= MSG_BUFFER_SIZE
    modifies u, u.rawBuff
    ensures StaleResult(u.affixes, was, offset, got + chunk, completed, ok, msgs)
    ensures !completed ==> StaleReading(u, was, offset, got + chunk)
  {
    StaleLand(u, was, offset, got, size, chunk);
    var held;
    completed, ok, msgs, held := Judge(u, size + |chunk|, offset + size + |chunk| == MSG_BUFFER_SIZE);
  }

  method StaleLand(u: PrefixSuffixUnpacker, ghost was: Bytes, offset: nat, ghost got: Bytes, size: nat, chunk: Bytes)
    requires StaleReading(u, was, offset, got) && size == |got|
    requires offset + size + |chunk| <= MSG_BUFFER_SIZE
    modifies u.rawBuff
    ensures u.Buffered(size + |chunk|) == Stale(was, offset, got + chunk)
    ensures u.Unjudged(Stale(was, offset, got + chunk))
    ensures u.rawBuff[..] == was[..offset] + (got + chunk) + was[offset + size + |chunk|..]
  {
    ghost var before := u.Buffered(size);
    LandNext(u.rawBuff, was, offset, got, size, chunk);
    StaleIs(was, offset, got);
    StaleIs(was, offset, got + chunk);
    assert before == Stale(was, offset, got);
    assert Stale(was, offset, got + chunk)[..size] == before;
  }

  /** Such a read ends at once unless a good frame came first and is at least as long as the bytes that were left.
      So no whole old frame is ever delivered again; only mixtures of old and new bytes can be. */
  lemma EndsAtOnce(a: Affixes, s: Bytes)
    requires var d := Decode(Affixed(a), s); d.bad && |d.rest| < MSG_BUFFER_SIZE
    ensures var d := Decode(Affixed(a), s);
            d.msgs == [] || Scan(Affixed(a), s).size < |d.rest| ==> Scan(Affixed(a), s[..|d.rest|]) != NeedMore
  {
    var d := Decode(Affixed(a), s);
    var r := |d.rest|;
    ScanSize(Affixed(a), s);
    if d.msgs == [] {
      assert d.rest == s && s[..r] == s;
    } else if Scan(Affixed(a), s).size < r {
      ScanIs(Affixed(a), s);
      ScanIs(Affixed(a), s[..r]);
      FrameWithin(a, s, r);
    }
  }

  /** A frame is found as soon as one byte behind it is there. */
  lemma FrameWithin(a: Affixes, s: Bytes, r: nat)
    requires AffixScan(a, s).Frame? && AffixScan(a, s).size < r <= |s| && r < MSG_BUFFER_SIZE
    ensures AffixScan(a, s[..r]) != NeedMore
  {
    var p, t := |a.prefix|, s[..r];
    var k := Find(Window(s)[p..], a.suffix, 0);
    assert s == t + s[r..] && t[..p] == s[..p] && Window(t) == t;
    WindowGrows(t, s[r..], p);
    FindEarlier(t[p..], Window(s)[r..], a.suffix);
  }

  lemma FindEarlier(hay: Bytes, more: Bytes, needle: Bytes)
    requires var k := Find(hay + more, needle, 0); k != -1 && k + |needle| <= |hay|
    ensures Find(hay, needle, 0) != -1
  {
    var k := Find(hay + more, needle, 0);
    FindFirst(hay + more, needle, 0);
    FindFirst(hay, needle, 0);
    OccursFurther(hay, more, needle, k);
  }
}
