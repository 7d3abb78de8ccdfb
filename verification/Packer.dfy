/** The two wire formats and the packers that produce them. */
module Packer {
  import opened Framing

  /** The gathered pieces of a message; a piece may be a null pointer, and so may the whole array. */
  type Pieces = Option<seq<Option<Bytes>>>

  // ---------------------------------------------------------------- what the frames carry

  function Head(total: nat): (h: Bytes)
    requires total < 65536
  {
    [total / 256, total % 256]
  }

  /** Bodies that the length format can carry. */
  predicate Fits(body: Bytes) {
    body != [] && HEAD_LEN + |body| <= MSG_BUFFER_SIZE
  }

  function LengthFrame(body: Bytes): (f: Bytes)
    requires HEAD_LEN + |body| < 65536
  {
    Head(HEAD_LEN + |body|) + body
  }

  /** The scanner recognises exactly the frames of the bodies that fit. */
  lemma LengthFrameUnique(f: Bytes, body: Bytes)
    ensures LengthScan(f) == Frame(|f|, body) <==> Fits(body) && f == LengthFrame(body)
  {
    if LengthScan(f) == Frame(|f|, body) {
      assert f == f[..HEAD_LEN] + f[HEAD_LEN..];
      assert |body| == HeadValue(f) - HEAD_LEN;
      assert f[..HEAD_LEN] == Head(HeadValue(f));
    }
  }

  /** A frame is recognised as soon as all of it is there, and nothing else is. */
  lemma LengthFrameExactly(s: Bytes, n: nat, body: Bytes)
    ensures Scan(LengthHead, s) == Frame(n, body) <==> n <= |s| && Fits(body) && s[..n] == LengthFrame(body)
  {
    ScanIs(LengthHead, s);
    if n <= |s| {
      LengthFrameUnique(s[..n], body);
      if n >= HEAD_LEN {
        assert HeadValue(s[..n]) == HeadValue(s) && s[..n][HEAD_LEN..] == s[HEAD_LEN..n];
      }
    }
  }

  /** The bytes on the wire: the length of the whole frame in network byte order, and the body. */
  lemma NetworkOrder(body: Bytes)
    requires Fits(body)
    ensures var f := LengthFrame(body);
            |f| == 2 + |body| && (f[0] as int) * 256 + (f[1] as int) == |f| && f[2..] == body
  {
  }

  /** One parse cannot yield many messages: every frame takes at least three bytes. */
  lemma {:induction false} LengthMsgCount(s: Bytes)
    ensures (HEAD_LEN + 1) * |Decode(LengthHead, s).msgs| <= |s|
    ensures forall m :: m in Decode(LengthHead, s).msgs ==> Fits(m)
    decreases |s|
  {
    ScanIs(LengthHead, s);
    if LengthScan(s).Frame? {
      LengthMsgCount(s[LengthScan(s).size..]);
    }
  }

  function FramesOf(bodies: seq<Bytes>): (frames: seq<Bytes>)
    requires forall i :: 0 <= i < |bodies| ==> Fits(bodies[i])
  {
    if bodies == [] then []
    else
      assert Fits(bodies[0]);
      [LengthFrame(bodies[0])] + FramesOf(bodies[1..])
  }

  /** Nothing is skipped or made up: every stream is the frames of what it decodes to, and then the rest. */
  lemma {:induction false} LengthDecodes(s: Bytes)
    ensures var d := Decode(LengthHead, s);
            (forall i :: 0 <= i < |d.msgs| ==> Fits(d.msgs[i])) && s == Concat(FramesOf(d.msgs)) + d.rest
    decreases |s|
  {
    LengthMsgCount(s);
    ScanIs(LengthHead, s);
    var d := Decode(LengthHead, s);
    if LengthScan(s).Frame? {
      var n := LengthScan(s).size;
      LengthDecodes(s[n..]);
      FirstFrame(s);
      var frames := FramesOf(d.msgs);
      assert d.msgs[1..] == Decode(LengthHead, s[n..]).msgs;
      Associative(frames[0], Concat(frames[1..]), d.rest);
      assert s == s[..n] + s[n..];
    }
  }

  lemma FirstFrame(s: Bytes)
    requires LengthScan(s).Frame?
    ensures Fits(LengthScan(s).msg) && s[..LengthScan(s).size] == LengthFrame(LengthScan(s).msg)
  {
    var n := LengthScan(s).size;
    assert s[..n][..HEAD_LEN] == s[..HEAD_LEN] && s[..n][HEAD_LEN..] == s[HEAD_LEN..n];
    LengthFrameUnique(s[..n], LengthScan(s).msg);
  }

  /** The default packer and unpacker agree: bodies that fit, framed and concatenated, decode to
      themselves. */
  lemma LengthRoundTrip(frames: seq<Bytes>, bodies: seq<Bytes>)
    requires |frames| == |bodies|
    requires forall i :: 0 <= i < |frames| ==> Fits(bodies[i]) && frames[i] == LengthFrame(bodies[i])
    ensures Decode(LengthHead, Concat(frames)) == Decoded(bodies, [], false)
  {
    forall i | 0 <= i < |frames| ensures Scan(LengthHead, frames[i]) == Frame(|frames[i]|, bodies[i]) {
      ScanIs(LengthHead, frames[i]);
      LengthFrameUnique(frames[i], bodies[i]);
    }
    DecodeFrames(LengthHead, frames, bodies);
  }

  function AffixFrame(a: Affixes, body: Bytes): (f: Bytes) {
    a.prefix + body + a.suffix
  }

  /** Bodies the prefix/suffix format can carry: the first suffix in the framed body is the one that ends it. */
  ghost predicate Carries(a: Affixes, body: Bytes) {
    && body != []
    && |AffixFrame(a, body)| <= MSG_BUFFER_SIZE
    && Find(body + a.suffix, a.suffix, 0) == |body|
  }

  /** A frame is recognised if and only if it is prefix, body and suffix, with no earlier suffix and within the
      buffer, and, if the body is empty, once one more byte is there. */
  lemma AffixFrameExactly(a: Affixes, s: Bytes, n: nat, body: Bytes)
    ensures Scan(Affixed(a), s) == Frame(n, body) <==>
              && n <= |s| && n <= MSG_BUFFER_SIZE && |s| > |a.prefix| + |a.suffix|
              && s[..n] == a.prefix + body + a.suffix
              && forall i: nat :: i < |body| ==> !OccursAt(body + a.suffix, a.suffix, i)
  {
    ScanIs(Affixed(a), s);
    if n <= |s| && n <= MSG_BUFFER_SIZE && s[..n] == a.prefix + body + a.suffix {
      FramedBytes(a, s, n, body);
      FindWithin(Window(s)[|a.prefix|..], body, a.suffix);
    }
    if AffixScan(a, s) == Frame(n, body) {
      FoundShape(a, s, n, body);
    }
  }

  lemma FramedBytes(a: Affixes, s: Bytes, n: nat, body: Bytes)
    requires n <= |s| && n <= MSG_BUFFER_SIZE && s[..n] == a.prefix + body + a.suffix
    ensures var p := |a.prefix|;
            && n == p + |body| + |a.suffix| && s[..p] == a.prefix && s[p..p + |body|] == body
            && |Window(s)[p..]| >= |body| + |a.suffix| && Window(s)[p..][..|body| + |a.suffix|] == body + a.suffix
  {
    var p, f := |a.prefix|, a.prefix + body + a.suffix;
    assert n == |f|;
    assert s[..p] == s[..n][..p] == f[..p];
    assert s[p..p + |body|] == s[..n][p..p + |body|] == f[p..p + |body|];
    assert Window(s)[p..][..n - p] == s[..n][p..] == f[p..] == body + a.suffix;
  }

  /** The first occurrence behind a body, whatever follows. */
  lemma FindWithin(w: Bytes, body: Bytes, suffix: Bytes)
    requires |w| >= |body| + |suffix| && w[..|body| + |suffix|] == body + suffix
    ensures Find(w, suffix, 0) == |body| <==> forall i: nat :: i < |body| ==> !OccursAt(body + suffix, suffix, i)
  {
    var t := body + suffix;
    var more := w[|t|..];
    assert w == t + more;
    FindFirst(w, suffix, 0);
    assert t[|body|..|body| + |suffix|] == suffix;
    OccursFurther(t, more, suffix, |body|);
    forall i: nat | i < |body| ensures OccursAt(w, suffix, i) <==> OccursAt(t, suffix, i) {
      OccursFurther(t, more, suffix, i);
    }
  }

  lemma FoundShape(a: Affixes, s: Bytes, n: nat, body: Bytes)
    requires AffixScan(a, s) == Frame(n, body)
    ensures n <= |s| && n <= MSG_BUFFER_SIZE && |s| > |a.prefix| + |a.suffix|
    ensures s[..n] == a.prefix + body + a.suffix
  {
    var p, q := |a.prefix|, |a.suffix|;
    var k := Find(Window(s)[p..], a.suffix, 0);
    FindFirst(Window(s)[p..], a.suffix, 0);
    assert n == p + k + q && body == s[p..p + k];
    WindowSlice(s, p, k, k + q);
    ThreeParts(s, p, p + k, n);
  }

  lemma WindowSlice(s: Bytes, p: nat, i: nat, j: nat)
    requires p <= |Window(s)| && i <= j <= |Window(s)[p..]|
    ensures Window(s)[p..][i..j] == s[p + i..p + j]
  {
  }

  lemma ThreeParts(s: Bytes, i: nat, j: nat, n: nat)
    requires i <= j <= n <= |s|
    ensures s[..n] == s[..i] + s[i..j] + s[j..n]
  {
  }

  /** Exactly those bodies survive framing: the frame of a non-empty body is scanned as one whole frame
      with that body if and only if it fits and contains no earlier suffix. */
  lemma AffixFrameScans(a: Affixes, body: Bytes)
    requires body != []
    ensures var f := AffixFrame(a, body); AffixScan(a, f) == Frame(|f|, body) <==> Carries(a, body)
  {
    var f, p := AffixFrame(a, body), |a.prefix|;
    assert f[..p] == a.prefix;
    assert f[p..] == body + a.suffix;
    assert f[p..p + |body|] == body;
  }

  /** Round trip: framed bodies, concatenated, decode to themselves. */
  lemma AffixRoundTrip(a: Affixes, frames: seq<Bytes>, bodies: seq<Bytes>)
    requires |frames| == |bodies|
    requires forall i :: 0 <= i < |frames| ==> Carries(a, bodies[i]) && frames[i] == AffixFrame(a, bodies[i])
    ensures Decode(Affixed(a), Concat(frames)) == Decoded(bodies, [], false)
  {
    forall i | 0 <= i < |frames| ensures Scan(Affixed(a), frames[i]) == Frame(|frames[i]|, bodies[i]) {
      ScanIs(Affixed(a), frames[i]);
      AffixFrameScans(a, bodies[i]);
    }
    DecodeFrames(Affixed(a), frames, bodies);
  }

  // ---------------------------------------------------------------- the packers

  function Joined(pieces: seq<Option<Bytes>>): (body: Bytes) {
    if pieces == [] then []
    else (if pieces[0].Some? then pieces[0].value else []) + Joined(pieces[1..])
  }

  function Body(pieces: Pieces): (body: Bytes) {
    if pieces.None? then [] else Joined(pieces.value)
  }

  lemma {:induction false} JoinedStep(pieces: seq<Option<Bytes>>, i: nat)
    requires i < |pieces|
    ensures Joined(pieces[..i + 1]) == Joined(pieces[..i]) + if pieces[i].Some? then pieces[i].value else []
  {
    if i == 0 {
      assert pieces[..1][1..] == [];
    } else {
      JoinedStep(pieces[1..], i - 1);
      assert pieces[..i + 1][1..] == pieces[1..][..i];
      assert pieces[..i][1..] == pieces[1..][..i - 1];
    }
  }

  /** Joining puts the pieces one behind the other; a null pointer counts for nothing. */
  lemma JoinedOne(piece: Option<Bytes>)
    ensures Joined([piece]) == if piece.Some? then piece.value else []
  {
    var one: seq<Option<Bytes>> := [piece];
    assert one[1..] == [];
  }

  lemma {:induction false} JoinedAppend(ps: seq<Option<Bytes>>, qs: seq<Option<Bytes>>)
    ensures Joined(ps + qs) == Joined(ps) + Joined(qs)
  {
    if ps == [] {
      assert ps + qs == qs;
    } else {
      JoinedAppend(ps[1..], qs);
      assert (ps + qs)[1..] == ps[1..] + qs;
      Associative(if ps[0].Some? then ps[0].value else [], Joined(ps[1..]), Joined(qs));
    }
  }

  lemma {:induction false} JoinedGrows(pieces: seq<Option<Bytes>>, i: nat)
    requires i <= |pieces|
    ensures |Joined(pieces[..i])| <= |Joined(pieces)|
  {
    if i != 0 {
      JoinedGrows(pieces[1..], i - 1);
      assert pieces[..i][1..] == pieces[1..][..i - 1];
    }
  }

  /** Every piece has a length that a 64-bit `size_t` can hold. */
  ghost predicate Addressable(pieces: Pieces) {
    pieces.Some? ==> forall p :: p in pieces.value && p.Some? ==> |p.value| < SIZE_T
  }

  /** The total length, or -1 when there is no array or the message exceeds the buffer. The sum wraps at
      64 bits in the source and is modelled so; the wrap-around never hides an oversized message. */
  method MsgSizeCheck(preLen: nat, pieces: Pieces) returns (r: int)
    requires preLen <= MSG_BUFFER_SIZE && Addressable(pieces)
    ensures r == if pieces.None? || preLen + |Body(pieces)| > MSG_BUFFER_SIZE then -1 else preLen + |Body(pieces)|
  {
    if pieces.None? {
      return -1;
    }
    var ps := pieces.value;
    var totalLen := preLen;
    var lastTotalLen := totalLen;
    for i := 0 to |ps|
      invariant totalLen == lastTotalLen == preLen + |Joined(ps[..i])| <= MSG_BUFFER_SIZE
    {
      JoinedStep(ps, i);
      JoinedGrows(ps, i + 1);
      if ps[i].Some? {
        assert ps[i] in ps;
        totalLen := (totalLen + |ps[i].value|) % SIZE_T;
        if lastTotalLen > totalLen || totalLen > MSG_BUFFER_SIZE {
          return -1;
        }
        lastTotalLen := totalLen;
      }
    }
    assert ps[..|ps|] == ps;
    return totalLen;
  }

  method AppendPieces(start: Bytes, ps: seq<Option<Bytes>>) returns (msg: Bytes)
    ensures msg == start + Joined(ps)
  {
    msg := start;
    for i := 0 to |ps|
      invariant msg == start + Joined(ps[..i])
    {
      JoinedStep(ps, i);
      if ps[i].Some? {
        msg := msg + ps[i].value;
      }
    }
    assert ps[..|ps|] == ps;
  }

  /** The default packer: one frame of the body, or nothing for a body that is empty or too long. */
  method PackMsg(pieces: Pieces, native: bool) returns (msg: Bytes)
    requires Addressable(pieces)
    ensures native ==> msg == if |Body(pieces)| <= MSG_BUFFER_SIZE then Body(pieces) else []
    ensures !native ==> if Fits(Body(pieces)) then LengthScan(msg) == Frame(|msg|, Body(pieces)) else msg == []
    ensures !native && msg != [] ==>
              |msg| > 2 && (msg[0] as int) * 256 + (msg[1] as int) == |msg| && msg[2..] == Body(pieces)
  {
    var preLen := if native then 0 else HEAD_LEN;
    var totalLen := MsgSizeCheck(preLen, pieces);
    msg := [];
    if totalLen != -1 && totalLen > preLen {
      if !native {
        var headLen := totalLen % 65536;
        if totalLen != headLen {
          return [];
        }
        msg := Head(headLen);
      }
      msg := AppendPieces(msg, pieces.value);
      LengthFrameUnique(msg, Body(pieces));
    }
  }

  /** The prefix/suffix packer. */
  method PackAffixMsg(a: Affixes, pieces: Pieces, native: bool) returns (msg: Bytes)
    requires Addressable(pieces)
    ensures native ==> msg == if |Body(pieces)| <= MSG_BUFFER_SIZE then Body(pieces) else []
    ensures !native ==>
              msg == if Body(pieces) != [] && |AffixFrame(a, Body(pieces))| <= MSG_BUFFER_SIZE
                     then AffixFrame(a, Body(pieces)) else []
  {
    var preLen := if native then 0 else |a.prefix| + |a.suffix|;
    var totalLen := MsgSizeCheck(preLen, pieces);
    msg := [];
    if totalLen != -1 && totalLen > preLen {
      if !native {
        msg := a.prefix;
      }
      msg := AppendPieces(msg, pieces.value);
      if !native {
        msg := msg + a.suffix;
      }
    }
  }
}
