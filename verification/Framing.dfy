/** What the framing formats mean, independently of buffers, chunks and callbacks.

    `Scan` gives the verdict of a format on the first frame of the bytes at hand. `Decode` repeats it over
    a whole byte string: it is the reference against which every unpacker is proved. */
module Framing {

  type byte = b: int | 0 <= b < 256

  type Bytes = seq<byte>

  datatype Option<T> = None | Some(value: T)

  /** The largest frame, and the size of every unpacker's buffer. */
  const MSG_BUFFER_SIZE: nat := 4000

  /** The size of a length head: the default 16-bit configuration. */
  const HEAD_LEN: nat := 2

  /** What a completion condition answers to keep a composed read going. */
  const MAX_TRANSFER: nat := 65536

  /** A 64-bit `size_t`. */
  const SIZE_T: nat := 0x1_0000_0000_0000_0000

  datatype AffixPair = AffixPair(prefix: Bytes, suffix: Bytes)

  /** An arbitrary prefix and a non-empty suffix around the body. */
  type Affixes = a: AffixPair | a.suffix != [] && |a.prefix| + |a.suffix| < MSG_BUFFER_SIZE
    witness AffixPair([], [0])

  type Length = n: nat | 0 < n <= MSG_BUFFER_SIZE witness 1

  datatype Format =
    | LengthHead               // 16-bit big-endian count of all bytes of the frame, then the body
    | Affixed(a: Affixes)      // prefix, body, suffix
    | FixedSize(n: Length)     // every n bytes are a message

  datatype Verdict =
    | NeedMore                        // not a whole frame yet, nothing wrong so far
    | Bad                             // can never become a frame
    | Frame(size: nat, msg: Bytes)    // the first `size` bytes are a frame that carries `msg`

  // ---------------------------------------------------------------- the formats

  function HeadValue(s: Bytes): (n: nat)
    requires |s| >= HEAD_LEN
  {
    (s[0] as int) * 256 + (s[1] as int)
  }

  predicate HeadOk(n: int) {
    HEAD_LEN < n <= MSG_BUFFER_SIZE
  }

  function LengthScan(s: Bytes): (v: Verdict) {
    if |s| < HEAD_LEN then NeedMore
    else
      var n := HeadValue(s);
      if !HeadOk(n) then Bad
      else if |s| < n then NeedMore
      else Frame(n, s[HEAD_LEN..n])
  }

  predicate OccursAt(hay: Bytes, needle: Bytes, i: nat) {
    i + |needle| <= |hay| && hay[i..i + |needle|] == needle
  }

  /** The first occurrence at or behind `i`, or -1. */
  function Find(hay: Bytes, needle: Bytes, i: nat): (r: int)
    ensures r == -1 || i <= r <= |hay| - |needle|
    decreases |hay| - i
  {
    if i + |needle| > |hay| then -1
    else if OccursAt(hay, needle, i) then i
    else Find(hay, needle, i + 1)
  }

  lemma FindFirst(hay: Bytes, needle: Bytes, i: nat)
    ensures var r := Find(hay, needle, i);
            && (r != -1 ==> OccursAt(hay, needle, r))
            && forall k: nat :: i <= k && (r == -1 || k < r) ==> !OccursAt(hay, needle, k)
    decreases |hay| - i
  {
  }

  /** What a full buffer can see of `s`. */
  function Window(s: Bytes): (w: Bytes) {
    if |s| <= MSG_BUFFER_SIZE then s else s[..MSG_BUFFER_SIZE]
  }

  /** The frame ends at the first suffix behind the prefix, which must lie in the first MSG_BUFFER_SIZE
      bytes. As in the source, the suffix is only looked for once there is more than prefix and suffix. */
  function AffixScan(a: Affixes, s: Bytes): (v: Verdict) {
    var p, q := |a.prefix|, |a.suffix|;
    if |s| < p then NeedMore
    else if s[..p] != a.prefix then Bad
    else if |s| <= p + q then NeedMore
    else
      var k := Find(Window(s)[p..], a.suffix, 0);
      if k != -1 then Frame(p + k + q, s[p..p + k])
      else if |s| >= MSG_BUFFER_SIZE then Bad
      else NeedMore
  }

  function Judge(f: Format, s: Bytes): (v: Verdict) {
    match f
    case LengthHead => LengthScan(s)
    case Affixed(a) => AffixScan(a, s)
    case FixedSize(n) => if |s| < n then NeedMore else Frame(n, s[..n])
  }

  ghost predicate Unfold(n: nat) {
    true
  }

  /** `v` is the verdict of the format on `s`. The trigger keeps the equation folded, so that reasoning
      about whole streams is not burdened with the details of a format: only `ScanIs` looks inside. */
  ghost predicate Judges(f: Format, s: Bytes, v: Verdict) {
    forall n: nat {:trigger Unfold(n)} :: Unfold(n) ==> v == Judge(f, s)
  }

  /** The verdict of a format on the bytes at hand. */
  ghost function Scan(f: Format, s: Bytes): (v: Verdict) {
    assert Judges(f, s, Judge(f, s));
    var v :| Judges(f, s, v);
    v
  }

  lemma ScanIs(f: Format, s: Bytes)
    ensures Scan(f, s) == Judge(f, s)
  {
    assert Unfold(0);
  }

  /** The verdict consumes something, is reached at the latest when the buffer is full, and not on nothing. */
  lemma ScanSize(f: Format, s: Bytes)
    ensures Scan(f, s).Frame? ==> 0 < Scan(f, s).size <= |s|
    ensures |s| >= MSG_BUFFER_SIZE ==> Scan(f, s) != NeedMore
    ensures s == [] ==> Scan(f, s) == NeedMore
  {
    ScanIs(f, s);
  }

  lemma OccursFurther(hay: Bytes, more: Bytes, needle: Bytes, i: nat)
    requires i + |needle| <= |hay|
    ensures OccursAt(hay + more, needle, i) <==> OccursAt(hay, needle, i)
  {
    assert (hay + more)[i..i + |needle|] == hay[i..i + |needle|];
  }

  /** Once found, the first occurrence stays the first, whatever follows. */
  lemma FindStays(hay: Bytes, more: Bytes, needle: Bytes)
    requires Find(hay, needle, 0) != -1
    ensures Find(hay + more, needle, 0) == Find(hay, needle, 0)
  {
    var r, r' := Find(hay, needle, 0), Find(hay + more, needle, 0);
    FindFirst(hay, needle, 0);
    FindFirst(hay + more, needle, 0);
    OccursFurther(hay, more, needle, r);
    if r' < r {
      OccursFurther(hay, more, needle, r');
    }
  }

  lemma WindowGrows(s: Bytes, t: Bytes, p: nat)
    requires p <= |Window(s)|
    ensures |Window(s)| <= |Window(s + t)|
    ensures Window(s + t)[p..] == Window(s)[p..] + Window(s + t)[|Window(s)|..]
    ensures |s| >= MSG_BUFFER_SIZE ==> Window(s + t) == Window(s)
  {
    assert Window(s + t) == Window(s) + Window(s + t)[|Window(s)|..];
  }

  lemma AffixFinal(a: Affixes, s: Bytes, t: Bytes)
    requires AffixScan(a, s) != NeedMore
    ensures AffixScan(a, s + t) == AffixScan(a, s)
  {
    var p := |a.prefix|;
    assert (s + t)[..p] == s[..p];
    if s[..p] == a.prefix {
      WindowGrows(s, t, p);
      var k := Find(Window(s)[p..], a.suffix, 0);
      if k != -1 {
        FindStays(Window(s)[p..], Window(s + t)[|Window(s)|..], a.suffix);
        assert Find(Window(s + t)[p..], a.suffix, 0) == k;
        assert (s + t)[p..p + k] == s[p..p + k];
      }
    }
  }

  /** A verdict is final, whatever bytes follow. */
  lemma ScanFinal(f: Format, s: Bytes, t: Bytes)
    requires Scan(f, s) != NeedMore
    ensures Scan(f, s + t) == Scan(f, s)
  {
    ScanIs(f, s);
    ScanIs(f, s + t);
    match f
    case LengthHead =>
      if LengthScan(s).Frame? {
        assert (s + t)[HEAD_LEN..HeadValue(s)] == s[HEAD_LEN..HeadValue(s)];
      }
    case Affixed(a) => AffixFinal(a, s, t);
    case FixedSize(n) => assert (s + t)[..n] == s[..n];
  }

  // ---------------------------------------------------------------- decoding

  datatype Decoded = Decoded(msgs: seq<Bytes>, rest: Bytes, bad: bool)

  /** All leading frames of `s`, the bytes behind them, and whether those bytes are hopeless. */
  ghost function Decode(f: Format, s: Bytes): (d: Decoded)
    ensures |d.rest| <= |s|
    ensures Scan(f, d.rest) == if d.bad then Bad else NeedMore
    decreases |s|
  {
    ScanSize(f, s);
    match Scan(f, s)
    case NeedMore => Decoded([], s, false)
    case Bad => Decoded([], s, true)
    case Frame(n, m) =>
      var d := Decode(f, s[n..]);
      Decoded([m] + d.msgs, d.rest, d.bad)
  }

  lemma Associative<T>(a: seq<T>, b: seq<T>, c: seq<T>)
    ensures a + (b + c) == (a + b) + c
  {
  }

  /** The verdict on the first frame stands when more bytes follow. */
  lemma DecodeFirst(f: Format, a: Bytes, b: Bytes)
    requires Scan(f, a).Frame?
    ensures 0 < Scan(f, a).size <= |a|
    ensures var n, m := Scan(f, a).size, Scan(f, a).msg; var d := Decode(f, a[n..] + b);
            Decode(f, a + b) == Decoded([m] + d.msgs, d.rest, d.bad)
  {
    ScanSize(f, a);
    ScanFinal(f, a, b);
    assert (a + b)[Scan(f, a).size..] == a[Scan(f, a).size..] + b;
  }

  /** Decoding does not depend on where the bytes are cut: what was decoded stays, and decoding resumes
      from the unconsumed bytes; after a bad frame nothing more is ever decoded. */
  lemma {:induction false} DecodeSplit(f: Format, a: Bytes, b: Bytes)
    ensures var d := Decode(f, a); var e := Decode(f, d.rest + b);
            Decode(f, a + b) == Decoded(d.msgs + e.msgs, e.rest, e.bad)
    ensures Decode(f, a).bad ==> Decode(f, a + b).bad && Decode(f, a + b).msgs == Decode(f, a).msgs
    decreases |a|
  {
    if Scan(f, a).Frame? {
      DecodeFirst(f, a, b);
      var n, m := Scan(f, a).size, Scan(f, a).msg;
      DecodeSplit(f, a[n..], b);
      var d := Decode(f, a[n..]);
      var e := Decode(f, d.rest + b);
      Associative([m], d.msgs, e.msgs);
    } else {
      if Scan(f, a).Bad? {
        ScanFinal(f, a, b);
      }
      var e := Decode(f, a + b);
      assert [] + e.msgs == e.msgs;
    }
  }

  /** What is left over is the unconsumed suffix. */
  lemma {:induction false} DecodeRest(f: Format, s: Bytes)
    ensures var d := Decode(f, s); s[|s| - |d.rest|..] == d.rest
    decreases |s|
  {
    ScanSize(f, s);
    if Scan(f, s).Frame? {
      var n := Scan(f, s).size;
      DecodeRest(f, s[n..]);
      var r := |Decode(f, s[n..]).rest|;
      assert s[n..][|s| - n - r..] == s[|s| - r..];
    }
  }

  /** A prefix of the stream decodes to a prefix of the messages. */
  lemma DecodePrefix(f: Format, a: Bytes, s: Bytes)
    requires a <= s
    ensures Decode(f, a).msgs <= Decode(f, s).msgs
    ensures Decode(f, a).bad ==> Decode(f, s).bad && Decode(f, a).msgs == Decode(f, s).msgs
  {
    assert s == a + s[|a|..];
    DecodeSplit(f, a, s[|a|..]);
  }

  lemma SliceOfTake(s: Bytes, n: nat, a: nat, b: nat)
    requires a <= b <= n <= |s|
    ensures s[..n][a..b] == s[a..b]
  {
  }

  lemma SliceOfDrop(s: Bytes, from: nat, a: nat, b: nat)
    requires a <= b && from + b <= |s|
    ensures s[from..][a..b] == s[from + a..from + b]
  {
  }

  function Concat(frames: seq<Bytes>): Bytes {
    if frames == [] then [] else frames[0] + Concat(frames[1..])
  }

  lemma {:induction false} ConcatAppend(a: seq<Bytes>, b: seq<Bytes>)
    ensures Concat(a + b) == Concat(a) + Concat(b)
  {
    if a == [] {
      assert a + b == b;
    } else {
      ConcatAppend(a[1..], b);
      assert (a + b)[1..] == a[1..] + b;
      Associative(a[0], Concat(a[1..]), Concat(b));
    }
  }

  /** `frames[i]` is one whole frame that carries `msgs[i]`. */
  ghost predicate Frames(f: Format, frames: seq<Bytes>, msgs: seq<Bytes>) {
    && |frames| == |msgs|
    && forall i :: 0 <= i < |frames| ==> Scan(f, frames[i]) == Frame(|frames[i]|, msgs[i])
  }

  /** Round trip: a stream made of whole frames decodes to exactly what they carry. */
  lemma {:induction false} DecodeFrames(f: Format, frames: seq<Bytes>, msgs: seq<Bytes>)
    requires Frames(f, frames, msgs)
    ensures Decode(f, Concat(frames)) == Decoded(msgs, [], false)
  {
    if frames == [] {
      ScanSize(f, []);
    } else {
      var head, tail := frames[0], Concat(frames[1..]);
      DecodeFrames(f, frames[1..], msgs[1..]);
      ScanFinal(f, head, tail);
      assert (head + tail)[|head|..] == tail;
      assert [msgs[0]] + msgs[1..] == msgs;
    }
  }

  // ---------------------------------------------------------------- streams

  /** The buffer of a composed read: it holds the undecoded bytes, wants more and has room for more. */
  ghost predicate Hungry(f: Format, buffer: Bytes) {
    Scan(f, buffer) == NeedMore && |buffer| < MSG_BUFFER_SIZE
  }

  /** Successive reads: each chunk meets the undecoded rest, until a bad frame ends the connection. */
  ghost function Feed(f: Format, buffer: Bytes, chunks: seq<Bytes>): (d: Decoded)
    decreases chunks
  {
    if chunks == [] then Decoded([], buffer, false)
    else
      var e := Decode(f, buffer + chunks[0]);
      if e.bad then e
      else
        var g := Feed(f, e.rest, chunks[1..]);
        Decoded(e.msgs + g.msgs, g.rest, g.bad)
  }

  /** Reading a stream chunk by chunk yields what the whole stream decodes to. */
  lemma {:induction false} FeedDecodes(f: Format, buffer: Bytes, chunks: seq<Bytes>)
    requires Scan(f, buffer) == NeedMore
    ensures var d := Decode(f, buffer + Concat(chunks)); var g := Feed(f, buffer, chunks);
            g.msgs == d.msgs && g.bad == d.bad && (!d.bad ==> g.rest == d.rest)
    decreases chunks
  {
    if chunks == [] {
      assert buffer + [] == buffer;
    } else {
      var s, tail := buffer + chunks[0], Concat(chunks[1..]);
      var e := Decode(f, s);
      assert buffer + Concat(chunks) == s + tail;
      DecodeSplit(f, s, tail);
      if !e.bad {
        FeedDecodes(f, e.rest, chunks[1..]);
      }
    }
  }

  /** How a stream was cut into chunks makes no difference to what is delivered, nor to whether it fails. */
  lemma ChunkingIrrelevant(f: Format, chunks: seq<Bytes>, others: seq<Bytes>)
    requires Concat(chunks) == Concat(others)
    ensures Feed(f, [], chunks).msgs == Feed(f, [], others).msgs
    ensures Feed(f, [], chunks).bad == Feed(f, [], others).bad
  {
    ScanSize(f, []);
    FeedDecodes(f, [], chunks);
    FeedDecodes(f, [], others);
  }

  function Min(a: nat, b: nat): (m: nat) {
    if a <= b then a else b
  }

  /** The transport puts any number of bytes, from 1 to `limit`, into a read. */
  function Clamp(n: nat, limit: nat): (m: nat)
    requires limit > 0
    ensures 1 <= m <= limit
  {
    if n == 0 then 1 else Min(n, limit)
  }

  /** Read progress: with hungry bytes in the buffer, each chunk either leaves the frame incomplete or
      yields at least one message or a bad frame, and afterwards the buffer is hungry again. */
  lemma DecodeChunk(f: Format, s: Bytes)
    ensures var d := Decode(f, s);
            && (Scan(f, s) == NeedMore ==> d == Decoded([], s, false))
            && (Scan(f, s) != NeedMore ==> d.msgs != [] || d.bad)
            && (!d.bad ==> Hungry(f, d.rest))
  {
    ScanSize(f, Decode(f, s).rest);
  }

  /** Reading at a position: the account of the first `used` bytes is kept by feeding the undecoded rest
      and the next chunk to the decoder. */
  lemma DecodeNext(f: Format, stream: Bytes, used: nat, size: nat, d: Decoded, e: Decoded)
    requires used + size <= |stream|
    requires d == Decode(f, stream[..used]) && e == Decode(f, d.rest + stream[used..used + size])
    ensures Decode(f, stream[..used + size]) == Decoded(d.msgs + e.msgs, e.rest, e.bad)
  {
    assert stream[..used] + stream[used..used + size] == stream[..used + size];
    DecodeSplit(f, stream[..used], stream[used..used + size]);
  }

  /** The frames of `s` divide it at `k`: behind them the next one would start. */
  ghost predicate Boundary(f: Format, s: Bytes, k: nat)
    decreases |s|
  {
    ScanSize(f, s);
    k == 0 || (Scan(f, s).Frame? && Scan(f, s).size <= k && Boundary(f, s[Scan(f, s).size..], k - Scan(f, s).size))
  }

  /** A stream is malformed exactly when, where some frame would start, the bytes can never become one. */
  lemma {:induction false} BadExactly(f: Format, s: Bytes)
    ensures Decode(f, s).bad <==> exists k: nat :: k <= |s| && Boundary(f, s, k) && Scan(f, s[k..]) == Bad
    decreases |s|
  {
    ScanSize(f, s);
    assert s[0..] == s && Boundary(f, s, 0);
    if Scan(f, s).Frame? {
      var n := Scan(f, s).size;
      BadExactly(f, s[n..]);
      if Decode(f, s[n..]).bad {
        var k: nat :| k <= |s[n..]| && Boundary(f, s[n..], k) && Scan(f, s[n..][k..]) == Bad;
        BoundaryNext(f, s, n, k);
      }
      if exists k: nat :: k <= |s| && Boundary(f, s, k) && Scan(f, s[k..]) == Bad {
        var k: nat :| k <= |s| && Boundary(f, s, k) && Scan(f, s[k..]) == Bad;
        assert k != 0;
        BoundaryNext(f, s, n, k - n);
      }
    } else if exists k: nat :: k <= |s| && Boundary(f, s, k) && Scan(f, s[k..]) == Bad {
      var k: nat :| k <= |s| && Boundary(f, s, k) && Scan(f, s[k..]) == Bad;
      assert k == 0;
    }
  }

  lemma BoundaryNext(f: Format, s: Bytes, n: nat, k: nat)
    requires Scan(f, s).Frame? && Scan(f, s).size == n && n + k <= |s|
    ensures Boundary(f, s, n + k) <==> Boundary(f, s[n..], k)
    ensures s[n..][k..] == s[n + k..]
  {
    ScanSize(f, s);
  }

  /** A head in network byte order that announces less than a head and one byte, or more than the buffer. */
  predicate BadHead(s: Bytes) {
    |s| >= 2 && !(2 < (s[0] as int) * 256 + (s[1] as int) <= 4000)
  }

  lemma BadHeadExactly(s: Bytes)
    ensures Scan(LengthHead, s) == Bad <==> BadHead(s)
  {
    ScanIs(LengthHead, s);
  }

  /** Some frame's head is bad. */
  ghost predicate BadHeads(s: Bytes) {
    exists k: nat :: k <= |s| && Boundary(LengthHead, s, k) && BadHead(s[k..])
  }

  /** A length-headed stream is malformed exactly when some frame's head is bad. */
  lemma MalformedLength(s: Bytes)
    ensures Decode(LengthHead, s).bad <==> BadHeads(s)
  {
    BadExactly(LengthHead, s);
    forall k: nat | k <= |s| ensures Scan(LengthHead, s[k..]) == Bad <==> BadHead(s[k..]) {
      BadHeadExactly(s[k..]);
    }
  }

  /** Bytes that do not start with the prefix, as far as it can be told, or fill the buffer without a suffix
      behind the prefix. */
  ghost predicate BadAffixes(a: Affixes, s: Bytes) {
    && |a.prefix| <= |s|
    && (!(a.prefix <= s)
        || (|s| >= MSG_BUFFER_SIZE && forall i: nat :: !OccursAt(s[|a.prefix|..MSG_BUFFER_SIZE], a.suffix, i)))
  }

  lemma BadAffixesExactly(a: Affixes, s: Bytes)
    ensures Scan(Affixed(a), s) == Bad <==> BadAffixes(a, s)
  {
    ScanIs(Affixed(a), s);
    var p := |a.prefix|;
    if p <= |s| {
      assert s[..p] == a.prefix <==> a.prefix <= s;
      if |s| >= MSG_BUFFER_SIZE {
        assert Window(s)[p..] == s[p..MSG_BUFFER_SIZE];
        FindFirst(s[p..MSG_BUFFER_SIZE], a.suffix, 0);
      }
    }
  }

  ghost predicate SomeBadAffixes(a: Affixes, s: Bytes) {
    exists k: nat :: k <= |s| && Boundary(Affixed(a), s, k) && BadAffixes(a, s[k..])
  }

  lemma MalformedAffixed(a: Affixes, s: Bytes)
    ensures Decode(Affixed(a), s).bad <==> SomeBadAffixes(a, s)
  {
    BadExactly(Affixed(a), s);
    forall k: nat | k <= |s| ensures Scan(Affixed(a), s[k..]) == Bad <==> BadAffixes(a, s[k..]) {
      BadAffixesExactly(a, s[k..]);
    }
  }

  /** A fixed size never goes wrong, and every so many bytes are a message. */
  lemma FixedExactly(n: Length, s: Bytes, size: nat, m: Bytes)
    ensures Scan(FixedSize(n), s) != Bad
    ensures Scan(FixedSize(n), s) == Frame(size, m) <==> size == n <= |s| && m == s[..n]
  {
    ScanIs(FixedSize(n), s);
  }

  /** Reading has come to an end: at the end of the stream, or at a bad frame. */
  lemma DecodeEnd(f: Format, stream: Bytes, used: nat, d: Decoded)
    requires used <= |stream| && d == Decode(f, stream[..used]) && (used == |stream| || d.bad)
    ensures var all := Decode(f, stream);
            d.msgs == all.msgs && d.bad == all.bad && (!d.bad ==> used == |stream| && d == all)
  {
    DecodePrefix(f, stream[..used], stream);
    assert used == |stream| ==> stream[..used] == stream;
  }

  // ---------------------------------------------------------------- buffers

  /** What an unpacker takes for the bytes received, if they land behind the first `at` bytes of a buffer but are
      looked for at its front. */
  function Stale(buffer: Bytes, at: nat, got: Bytes): (s: Bytes)
    requires at + |got| <= |buffer|
  {
    (buffer[..at] + got + buffer[at + |got|..])[..|got|]
  }

  /** Once as much has been received as lies in front of it, that is the old bytes, and then the new ones without
      the last `at`. */
  lemma StaleIs(buffer: Bytes, at: nat, got: Bytes)
    requires at + |got| <= |buffer|
    ensures Stale(buffer, at, got) == if |got| <= at then buffer[..|got|] else buffer[..at] + got[..|got| - at]
  {
  }

  /** The next chunk lands behind the others. */
  method LandNext(buffer: array<byte>, ghost was: Bytes, at: nat, ghost got: Bytes, size: nat, chunk: Bytes)
    requires size == |got| && at + size + |chunk| <= buffer.Length && |was| == buffer.Length
    requires buffer[..] == was[..at] + got + was[at + size..]
    modifies buffer
    ensures buffer[..] == was[..at] + (got + chunk) + was[at + size + |chunk|..]
    ensures buffer[..size + |chunk|] == Stale(was, at, got + chunk)
  {
    Land(buffer, at + size, chunk);
    assert buffer[..] == buffer[..at + size + |chunk|] + buffer[at + size + |chunk|..];
    assert was[at + size..][|chunk|..] == was[at + size + |chunk|..];
  }

  lemma ConcatNext(chunks: seq<Bytes>, k: nat)
    requires k < |chunks|
    ensures Concat(chunks[..k + 1]) == Concat(chunks[..k]) + chunks[k]
  {
    assert chunks[..k + 1] == chunks[..k] + [chunks[k]];
    ConcatAppend(chunks[..k], [chunks[k]]);
    var one: seq<Bytes> := [chunks[k]];
    assert one[1..] == [];
  }

  lemma {:induction false} ConcatPart(chunks: seq<Bytes>, k: nat)
    requires k <= |chunks|
    ensures |Concat(chunks[..k])| <= |Concat(chunks)|
  {
    assert chunks == chunks[..k] + chunks[k..];
    ConcatAppend(chunks[..k], chunks[k..]);
  }

  /** The transport puts a chunk into a buffer. */
  method Land(buffer: array<byte>, at: nat, chunk: Bytes)
    requires at + |chunk| <= buffer.Length
    modifies buffer
    ensures buffer[..at + |chunk|] == old(buffer[..at]) + chunk
    ensures buffer[at + |chunk|..] == old(buffer[at + |chunk|..])
  {
    forall i | 0 <= i < |chunk| {
      buffer[at + i] := chunk[i];
    }
    assert buffer[..at] == old(buffer[..at]);
  }

  /** The last `n` of the bytes `s` in a buffer move to its front; source and target may overlap. */
  method Compact(buffer: array<byte>, ghost s: Bytes, from: nat, n: nat)
    requires from + n == |s| <= buffer.Length && s == buffer[..|s|]
    modifies buffer
    ensures buffer[..n] == s[from..] && buffer[n..] == old(buffer[n..])
  {
    forall i | 0 <= i < n {
      buffer[i] := buffer[from + i];
    }
  }

  /** Decoding in place: the messages found so far, followed by what the bytes from `pnext` on decode to,
      are what the whole buffer decodes to. */
  ghost predicate Progress(f: Format, s: Bytes, pnext: nat, found: seq<Bytes>) {
    && pnext <= |s|
    && var e := Decode(f, s[pnext..]); Decode(f, s) == Decoded(found + e.msgs, e.rest, e.bad)
  }

  lemma ProgressStart(f: Format, s: Bytes)
    ensures Progress(f, s, 0, [])
  {
    assert s[0..] == s;
    assert [] + Decode(f, s).msgs == Decode(f, s).msgs;
  }

  lemma ProgressStep(f: Format, s: Bytes, pnext: nat, found: seq<Bytes>, n: nat, m: Bytes)
    requires Progress(f, s, pnext, found)
    requires Scan(f, s[pnext..]) == Frame(n, m)
    ensures 0 < n && Progress(f, s, pnext + n, found + [m])
  {
    ScanSize(f, s[pnext..]);
    assert s[pnext..][n..] == s[pnext + n..];
    Associative(found, [m], Decode(f, s[pnext + n..]).msgs);
  }

  lemma ProgressDone(f: Format, s: Bytes, pnext: nat, found: seq<Bytes>)
    requires Progress(f, s, pnext, found)
    requires !Scan(f, s[pnext..]).Frame?
    ensures Decode(f, s) == Decoded(found, s[pnext..], Scan(f, s[pnext..]).Bad?)
  {
    assert found + [] == found;
  }
}
