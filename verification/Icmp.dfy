/** The ICMP header and its checksum (RFC 792), with the arithmetic of section 1 of RFC 1071. */
module Icmp {
  import opened Framing

  const WORD: nat := 0x1_0000

  const UINT32: nat := 0x1_0000_0000

  /** The longest body whose sum always fits 32 bits. */
  const MAX_BODY: nat := 131068

  const HEADER_SIZE: nat := 8

  /** The 16-bit words of a byte string, added up; an odd last byte is padded with a zero. */
  function SumWords(s: Bytes): (n: nat) {
    if s == [] then 0
    else if |s| == 1 then (s[0] as int) * 256
    else (s[0] as int) * 256 + (s[1] as int) + SumWords(s[2..])
  }

  /** Full one's-complement folding: carries are added back until none is left. */
  function Fold(n: nat): (r: nat)
    ensures r < WORD
  {
    if n < WORD then n else Fold(n / WORD + n % WORD)
  }

  /** A receiver accepts a packet whose words, checksum included, fold to all ones. */
  predicate Verifies(packet: Bytes) {
    Fold(SumWords(packet)) == 0xFFFF
  }

  /** The source's folding: two steps on a 32-bit sum, of which 16 bits are kept. */
  function TwoStepFold(sum: nat): (r: nat)
    requires sum < UINT32
  {
    var once := sum / WORD + sum % WORD;
    (once + once / WORD) % WORD
  }

  lemma TwoStepsSuffice(sum: nat)
    requires sum < UINT32
    ensures TwoStepFold(sum) == Fold(sum)
  {
    var once := sum / WORD + sum % WORD;
    if sum >= WORD && once >= WORD {
      assert once / WORD == 1 && once % WORD == once - WORD;
      assert Fold(once) == Fold(1 + (once - WORD));
    }
  }

  /** Folding keeps the value modulo 0xFFFF and, for anything but zero, avoids zero. */
  lemma {:induction false} FoldModulo(n: nat)
    ensures Fold(n) % 0xFFFF == n % 0xFFFF
    ensures Fold(n) == 0 <==> n == 0
  {
    if n >= WORD {
      var q, r := n / WORD, n % WORD;
      FoldModulo(q + r);
      assert n == (q + r) + 0xFFFF * q;
      Congruent(q + r, q);
    }
  }

  lemma Congruent(x: nat, q: nat)
    ensures (x + 0xFFFF * q) % 0xFFFF == x % 0xFFFF
  {
  }

  lemma AllOnes(n: nat)
    ensures Fold(n) == 0xFFFF <==> n > 0 && n % 0xFFFF == 0
  {
    FoldModulo(n);
  }

  lemma {:induction false} SumAppend(a: Bytes, b: Bytes)
    requires |a| % 2 == 0
    ensures SumWords(a + b) == SumWords(a) + SumWords(b)
    decreases |a|
  {
    if a == [] {
      assert a + b == b;
    } else {
      SumAppend(a[2..], b);
      assert (a + b)[2..] == a[2..] + b;
    }
  }

  lemma {:induction false} SumBound(s: Bytes)
    ensures |s| % 2 == 0 ==> SumWords(s) <= 0xFFFF * (|s| / 2)
    ensures |s| % 2 == 1 ==> SumWords(s) <= 0xFFFF * (|s| / 2) + 0xFF00
    decreases |s|
  {
    if |s| >= 2 {
      SumBound(s[2..]);
    }
  }

  /** What the source adds up: all of the header but the checksum, and the body. */
  function Total(rep: Bytes, body: Bytes): (n: nat)
    requires |rep| == HEADER_SIZE
  {
    SumWords(rep[..2]) + SumWords(rep[4..]) + SumWords(body)
  }

  lemma PacketSum(rep: Bytes, body: Bytes)
    requires |rep| == HEADER_SIZE
    ensures SumWords(rep + body) == Total(rep, body) + SumWords(rep[2..4])
  {
    SumAppend(rep[..2] + rep[2..4], rep[4..]);
    SumAppend(rep[..2], rep[2..4]);
    SumAppend(rep, body);
    assert rep == rep[..2] + rep[2..4] + rep[4..];
  }

  lemma AddModulo(exact: nat, x: nat)
    ensures (exact % UINT32 + x) % UINT32 == (exact + x) % UINT32
  {
  }

  class IcmpHeader {
    const rep: array<byte>

    ghost predicate Valid() {
      rep.Length == HEADER_SIZE
    }

    constructor ()
      ensures Valid() && fresh(rep) && forall i :: 0 <= i < HEADER_SIZE ==> rep[i] == 0
    {
      rep := new byte[HEADER_SIZE](_ => 0);
    }

    function Decode(a: nat, b: nat): (n: nat)
      requires Valid() && a < HEADER_SIZE && b < HEADER_SIZE
      reads rep
    {
      (rep[a] as int) * 256 + (rep[b] as int)
    }

    /** Writes a 16-bit number so that `Decode` reads it back, and nothing else. */
    method Encode(a: nat, b: nat, n: nat)
      requires Valid() && a < HEADER_SIZE && b < HEADER_SIZE && a != b && n < WORD
      modifies rep
      ensures Decode(a, b) == n
      ensures forall i :: 0 <= i < HEADER_SIZE && i != a && i != b ==> rep[i] == old(rep[i])
    {
      rep[a] := n / 256 % 256;
      rep[b] := n % 256;
    }

    /** Numbers are in network byte order. */
    lemma NetworkOrder(a: nat, b: nat)
      requires Valid() && a < HEADER_SIZE && b < HEADER_SIZE
      ensures Decode(a, b) / 256 == rep[a] as int && Decode(a, b) % 256 == rep[b] as int
    {
      var high, low := rep[a] as int, rep[b] as int;
      assert (high * 256 + low) / 256 == high;
    }

    lemma WordsOfHeader()
      requires Valid()
      ensures SumWords(rep[..2]) == Decode(0, 1) && SumWords(rep[2..4]) == Decode(2, 3)
      ensures SumWords(rep[4..]) == Decode(4, 5) + Decode(6, 7)
    {
      assert rep[..2][2..] == [] && rep[2..4][2..] == [];
      assert rep[4..][2..][2..] == [];
    }

    /** Adds up header and body in a 32-bit word. */
    method Sum(body: Bytes) returns (sum: nat)
      requires Valid()
      ensures sum == Total(rep[..], body) % UINT32
    {
      WordsOfHeader();
      assert rep[..][..2] == rep[..2] && rep[..][4..] == rep[4..];
      ghost var exact: nat, total := Decode(0, 1) + Decode(4, 5) + Decode(6, 7), Total(rep[..], body);
      sum := (Decode(0, 1) + Decode(4, 5) + Decode(6, 7)) % UINT32;
      var i := 0;
      assert body[0..] == body;
      while i < |body|
        invariant 0 <= i <= |body| && sum == exact % UINT32
        invariant exact + SumWords(body[i..]) == total
      {
        ghost var left := body[i..];
        var high: nat := (body[i] as int) * 256;
        sum := (sum + high) % UINT32;
        AddModulo(exact, high);
        exact := exact + high;
        i := i + 1;
        if i < |body| {
          var low: nat := body[i];
          sum := (sum + low) % UINT32;
          AddModulo(exact, low);
          exact := exact + low;
          i := i + 1;
          assert left[2..] == body[i..];
        } else {
          assert body[i..] == [];
        }
      }
    }

    /** Stores the checksum. A receiver accepts the packet exactly if the carries lost above 32 bits, if
        any, cancel out; and it always does if the body is not longer than MAX_BODY. */
    method ComputeChecksum(body: Bytes)
      requires Valid()
      modifies rep
      ensures Summed(rep[..], body) && Decode(2, 3) == 0xFFFF - Fold(Total(old(rep[..]), body) % UINT32)
      ensures Verifies(rep[..] + body) <==> Total(rep[..], body) / UINT32 % 0xFFFF == 0
      ensures |body| <= MAX_BODY ==> Verifies(rep[..] + body)
      ensures forall i :: 0 <= i < HEADER_SIZE && i != 2 && i != 3 ==> rep[i] == old(rep[i])
    {
      ghost var was := rep[..];
      var sum := Sum(body);
      var once := sum / WORD + sum % WORD;
      var twice := once + once / WORD;
      TwoStepsSuffice(sum);
      Encode(2, 3, 0xFFFF - twice % WORD);
      assert rep[..][..2] == was[..2] && rep[..][4..] == was[4..] && rep[..][2..4] == rep[2..4];
      WordsOfHeader();
      StoredChecksum(rep[..], body);
    }
  }

  /** The header holds the checksum that is computed for it and the body. */
  predicate Summed(rep: Bytes, body: Bytes) {
    |rep| == HEADER_SIZE && SumWords(rep[2..4]) == 0xFFFF - Fold(Total(rep, body) % UINT32)
  }

  lemma StoredChecksum(rep: Bytes, body: Bytes)
    requires Summed(rep, body)
    ensures Verifies(rep + body) <==> Total(rep, body) / UINT32 % 0xFFFF == 0
    ensures |body| <= MAX_BODY ==> Verifies(rep + body)
  {
    var total := Total(rep, body);
    var k, r := total / UINT32, total % UINT32;
    PacketSum(rep, body);
    FoldModulo(r);
    AllOnes(total + 0xFFFF - Fold(r));
    Residue(k, r, Fold(r));
    if |body| <= MAX_BODY {
      ShortTotal(rep, body);
    }
  }

  /** 2^32 leaves the residue 1, so the sum of a packet has the residue of the number of lost carries. */
  lemma Residue(k: nat, r: nat, f: nat)
    requires f < WORD && f % 0xFFFF == r % 0xFFFF
    ensures (k * UINT32 + r + 0xFFFF - f) % 0xFFFF == k % 0xFFFF
  {
    assert UINT32 == 0xFFFF * 0x1_0001 + 1;
    var q, p := r / 0xFFFF, f / 0xFFFF;
    assert r == 0xFFFF * q + r % 0xFFFF && f == 0xFFFF * p + f % 0xFFFF;
    assert k * UINT32 + r + 0xFFFF - f == k + 0xFFFF * (k * 0x1_0001 + q + 1 - p);
    assert p <= 1;
    Congruent(k, k * 0x1_0001 + q + 1 - p);
  }

  lemma ShortTotal(rep: Bytes, body: Bytes)
    requires |rep| == HEADER_SIZE && |body| <= MAX_BODY
    ensures Total(rep, body) < UINT32
  {
    SumBound(rep[..2]);
    SumBound(rep[4..]);
    SumBound(body);
  }

  /** `n` bytes: all ones as far as they add up to 65535 words, zero behind that. */
  function Heavy(n: nat): (s: Bytes)
    ensures |s| == n
  {
    seq(n, i => if i < MAX_BODY + 2 then 255 else 0)
  }

  lemma {:induction false} SumOnes(s: Bytes)
    requires forall i :: 0 <= i < |s| ==> s[i] == 255
    ensures SumWords(s) == if |s| % 2 == 0 then 0xFFFF * (|s| / 2) else 0xFFFF * (|s| / 2) + 0xFF00
    decreases |s|
  {
    if |s| >= 2 {
      SumOnes(s[2..]);
    }
  }

  lemma {:induction false} SumZeros(s: Bytes)
    requires forall i :: 0 <= i < |s| ==> s[i] == 0
    ensures SumWords(s) == 0
    decreases |s|
  {
    if |s| >= 2 {
      SumZeros(s[2..]);
    }
  }

  lemma HeavySum(n: nat)
    requires n > MAX_BODY
    ensures SumWords(Heavy(n)) == if n == MAX_BODY + 1 then 0xFFFF * 65534 + 0xFF00 else 0xFFFF * 65535
  {
    var m := if n == MAX_BODY + 1 then n else MAX_BODY + 2;
    var ones, zeros := Heavy(n)[..m], Heavy(n)[m..];
    assert Heavy(n) == ones + zeros;
    SumOnes(ones);
    if m < n {
      SumZeros(zeros);
      SumAppend(ones, zeros);
    } else {
      assert ones == Heavy(n);
    }
  }

  /** A header with any checksum field: the words that are added are all ones. */
  function FullHeader(checksum: nat): (rep: Bytes)
    requires checksum < WORD
  {
    [255, 255, checksum / 256, checksum % 256, 255, 255, 255, 255]
  }

  /** The bound is exact: a body of `n` bytes gets a checksum that verifies, whatever header and body, if and
      only if `n` is at most MAX_BODY. */
  lemma ExactlyShortBodies(n: nat)
    ensures n <= MAX_BODY <==>
            forall rep: Bytes, body: Bytes ::
              |body| == n && Summed(rep, body) ==> Verifies(rep + body)
  {
    if n <= MAX_BODY {
      forall rep: Bytes, body: Bytes | |body| == n && Summed(rep, body) ensures Verifies(rep + body)
      {
        StoredChecksum(rep, body);
      }
    } else {
      LongBodyFails(n);
    }
  }

  lemma LongBodyFails(n: nat)
    requires n > MAX_BODY
    ensures exists rep: Bytes, body: Bytes :: |body| == n && Summed(rep, body) && !Verifies(rep + body)
  {
    var body := Heavy(n);
    HeavySum(n);
    var total := 3 * 0xFFFF + SumWords(body);
    var c := 0xFFFF - Fold(total % UINT32);
    var rep := FullHeader(c);
    HeaderWords(c);
    assert Total(rep, body) == total;
    assert Summed(rep, body);
    StoredChecksum(rep, body);
  }

  lemma HeaderWords(c: nat)
    requires c < WORD
    ensures var rep := FullHeader(c);
            SumWords(rep[..2]) == 0xFFFF && SumWords(rep[2..4]) == c && SumWords(rep[4..]) == 2 * 0xFFFF
  {
    var rep := FullHeader(c);
    assert rep[..2] == [255, 255] && rep[..2][2..] == [];
    assert rep[2..4] == [c / 256, c % 256] && rep[2..4][2..] == [];
    assert rep[4..] == [255, 255, 255, 255] && rep[4..][2..] == [255, 255] && rep[4..][2..][2..] == [];
  }
}
