/** The message buffer of the echo server: a fixed inline buffer, replaced by an allocated one when a body
    does not fit. */
module ConnMsg {
  import opened Framing

  const MAX_BODY_LENGTH: nat := 256

  /** What the allocated size becomes when a body of `n` bytes is set; zero means the inline buffer. */
  function AllocAfter(held: nat, n: nat): (a: nat) {
    if held > 0 && n <= held then held
    else if n > MAX_BODY_LENGTH then n
    else 0
  }

  function Capacity(held: nat): (c: nat) {
    if held > 0 then held else MAX_BODY_LENGTH
  }

  /** After bodies of the lengths `ns`, in this order. */
  function AllocRun(ns: seq<nat>): (a: nat) {
    if ns == [] then 0 else AllocAfter(AllocRun(ns[..|ns| - 1]), ns[|ns| - 1])
  }

  /** In every history: the last body fits, an allocated buffer is larger than the inline one, and the inline
      buffer is still in use if and only if no body ever exceeded it. So the test that recycling makes,
      `capacity() == MAX_BODY_LENGTH`, picks exactly the messages that never allocated. */
  lemma {:induction false} AllocAlways(ns: seq<nat>)
    ensures AllocRun(ns) == 0 || AllocRun(ns) > MAX_BODY_LENGTH
    ensures ns != [] ==> ns[|ns| - 1] <= Capacity(AllocRun(ns))
    ensures Capacity(AllocRun(ns)) == MAX_BODY_LENGTH <==> forall i :: 0 <= i < |ns| ==> ns[i] <= MAX_BODY_LENGTH
  {
    if ns != [] {
      var before := ns[..|ns| - 1];
      AllocAlways(before);
      if forall i :: 0 <= i < |ns| ==> ns[i] <= MAX_BODY_LENGTH {
        assert forall i :: 0 <= i < |before| ==> before[i] <= MAX_BODY_LENGTH;
      } else {
        var i :| 0 <= i < |ns| && ns[i] > MAX_BODY_LENGTH;
        if i < |before| {
          assert before[i] > MAX_BODY_LENGTH;
        }
      }
    }
  }

  /** The allocated size is that of the longest body so far, if that did not fit the inline buffer. */
  lemma {:induction false} AllocExactly(ns: seq<nat>)
    ensures if forall i :: 0 <= i < |ns| ==> ns[i] <= 256 then AllocRun(ns) == 0
            else AllocRun(ns) in ns && forall i :: 0 <= i < |ns| ==> ns[i] <= AllocRun(ns)
  {
    if ns != [] {
      var before, n := ns[..|ns| - 1], ns[|ns| - 1];
      AllocExactly(before);
      AllocAlways(before);
      assert ns == before + [n];
      forall i | 0 <= i < |before| ensures ns[i] == before[i] {
      }
      if exists i :: 0 <= i < |before| && before[i] > 256 {
        var i :| 0 <= i < |before| && before[i] > 256;
        assert ns[i] > 256;
      }
    }
  }

  class Message {
    const buffFix: array<byte>
    var buff: array?<byte>
    var sizeAllocated: nat
    var headerLen: nat

    ghost predicate Valid()
      reads this
    {
      && buffFix.Length == MAX_BODY_LENGTH
      && (if sizeAllocated > 0
          then buff != null && buff != buffFix && buff.Length == sizeAllocated && sizeAllocated > MAX_BODY_LENGTH
          else buff == null || buff == buffFix)
    }

    constructor (len: nat)
      ensures Valid() && sizeAllocated == 0 && buff == null && headerLen == len && fresh(buffFix)
    {
      buffFix := new byte[MAX_BODY_LENGTH];
      buff, sizeAllocated, headerLen := null, 0, len;
    }

    /** Makes room for `n` bytes; a buffer that is not reused as it is comes zeroed. */
    method BodyLength(n: nat)
      requires Valid()
      modifies this, buffFix
      ensures Valid() && headerLen == n && sizeAllocated == AllocAfter(old(sizeAllocated), n)
      ensures buff != null && n <= buff.Length && (buff == old(buff) || buff == buffFix || fresh(buff))
      ensures old(sizeAllocated) == 0 || n > old(sizeAllocated) ==> forall i :: 0 <= i < n ==> buff[i] == 0
    {
      if sizeAllocated > 0 && n > sizeAllocated {
        buff, sizeAllocated := null, 0;
      }
      headerLen := n;
      if sizeAllocated > 0 {
        return;
      }
      if headerLen > MAX_BODY_LENGTH {
        buff := new byte[headerLen];
        sizeAllocated := headerLen;
      } else {
        buff := buffFix;
      }
      forall i | 0 <= i < headerLen {
        buff[i] := 0;
      }
    }

    method SetBody(data: Bytes)
      requires Valid()
      modifies this, buffFix, buff
      ensures Valid() && sizeAllocated == AllocAfter(old(sizeAllocated), |data|)
      ensures headerLen == |data| && buff != null && |data| <= buff.Length && buff[..headerLen] == data
    {
      BodyLength(|data|);
      forall i | 0 <= i < |data| {
        buff[i] := data[i];
      }
    }
  }
}
