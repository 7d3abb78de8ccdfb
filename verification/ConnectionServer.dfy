/** The echo server's objects, updated in place: the pool of message buffers and one session. Each method is one
    lock region. It is proved to take the step of the echo machine that it stands for, and so to keep what the
    machine keeps, on the fields themselves. */
module ConnectionServer {
  import opened Framing
  import opened ConnMsg
  import opened EchoSession

  class ConnectionMgr {
    var buffers: seq<Handle>
    var bodies: map<Handle, Bytes>
    var sizes: map<Handle, nat>

    constructor ()
      ensures buffers == [] && bodies == map[] && sizes == map[]
    {
      buffers, bodies, sizes := [], map[], map[];
    }

    function SizeHeld(h: Handle): (n: nat)
      reads this
    {
      if h in sizes then sizes[h] else 0
    }

    /** `h` is the handle of a new message, should one be needed; `seenEmpty` is what the check under the
        shared lock saw, and the pool may have changed since. */
    method AllocateMsgBuffer(len: nat, h: Handle, seenEmpty: bool) returns (m: Handle)
      modifies this`buffers, this`sizes
      ensures !seenEmpty && len <= MAX_BODY_LENGTH && old(buffers) != []
              ==> m == old(buffers)[0] && buffers == old(buffers)[1..] && sizes == old(sizes)
      ensures seenEmpty || len > MAX_BODY_LENGTH || old(buffers) == []
              ==> m == h && buffers == old(buffers) && sizes == old(sizes)[h := 0]
    {
      if len <= MAX_BODY_LENGTH && !seenEmpty && buffers != [] {
        m := buffers[0];
        buffers := buffers[1..];
      } else {
        m := h;
        sizes := sizes[h := 0];
      }
    }

    method SetBody(m: Handle, data: Bytes)
      modifies this`bodies, this`sizes
      ensures bodies == old(bodies)[m := data]
      ensures sizes == old(sizes)[m := AllocAfter(old(SizeHeld(m)), |data|)]
    {
      sizes := sizes[m := AllocAfter(SizeHeld(m), |data|)];
      bodies := bodies[m := data];
    }

    /** The check of a release under the shared lock; without room the message is destroyed. With room, and as
        long as nobody else uses it up, the second check is going to keep the buffer. */
    method DellocateCheck(m: Handle) returns (room: bool)
      ensures room <==> Capacity(SizeHeld(m)) == MAX_BODY_LENGTH && |buffers| < POOL_CAPACITY
      ensures room ==> Released(buffers, m) == buffers + [m]
    {
      room := Capacity(SizeHeld(m)) == MAX_BODY_LENGTH && |buffers| < POOL_CAPACITY;
    }

    /** The check under the exclusive lock: the pool may be full by now. */
    method DellocateCommit(m: Handle)
      modifies this`buffers
      ensures buffers == if old(|buffers|) < POOL_CAPACITY then old(buffers) + [m] else old(buffers)
    {
      if |buffers| < POOL_CAPACITY {
        buffers := PushBack(buffers, m);
      }
    }
  }

  /** What a step of the machine keeps, in one place. */
  lemma StepHolds(s: Server, step: Step)
    requires Kept(s) && Enabled(s, step)
    ensures Kept(Apply(s, step)) && (InOrder(s) && !Crosses(s, step) ==> InOrder(Apply(s, step)))
  {
    StepKeeps(s, step);
    if InOrder(s) && !Crosses(s, step) {
      StepInOrder(s, step);
    }
  }

  class SessionTcp {
    const mgr: ConnectionMgr
    var msgQueue: seq<Handle>
    ghost var hand: Option<Handle>
    ghost var outstanding: seq<Write>
    ghost var starters: nat
    ghost var releasing: bool
    ghost var theirs: set<Handle>
    ghost var theirsReleasing: set<Handle>
    ghost var received: seq<Bytes>
    ghost var entered: seq<Entry>
    ghost var log: seq<Part>

    ghost function View(): (s: Server)
      reads this, mgr
    {
      Server(mgr.buffers, theirs, theirsReleasing, mgr.bodies, mgr.sizes, hand, msgQueue, outstanding, starters,
             releasing, received, entered, log)
    }

    /** Every buffer has one owner and holds its body; every message received enters the queue, in order. */
    ghost predicate Valid()
      reads this, mgr
    {
      Kept(View())
    }

    /** At most one write is outstanding, and what was written is the echo of what entered. */
    ghost predicate Orderly()
      reads this, mgr
    {
      InOrder(View())
    }

    constructor (m: ConnectionMgr)
      requires m.buffers == [] && m.bodies == map[] && m.sizes == map[]
      ensures mgr == m && View() == Init && Valid() && Orderly()
    {
      mgr := m;
      msgQueue, outstanding, starters, hand, releasing := [], [], 0, None, false;
      theirs, theirsReleasing, received, entered, log := {}, {}, [], [], [];
    }

    /** A message was read in full: it is copied to a buffer. */
    method HandlerReadBody(data: Bytes, h: Handle, seenEmpty: bool) returns (m: Handle)
      requires Valid() && Enabled(View(), Receive(data, h, !seenEmpty))
      modifies this`hand, this`received, mgr
      ensures View() == Apply(old(View()), Receive(data, h, !seenEmpty)) && hand == Some(m)
      ensures m in mgr.bodies && mgr.bodies[m] == data && received == old(received) + [data]
      ensures Valid() && (old(Orderly()) ==> Orderly())
    {
      StepHolds(View(), Receive(data, h, !seenEmpty));
      m := ReadMsg(data, h, seenEmpty);
    }

    /** Allocates a buffer and copies the body to it. */

    method ReadMsg(data: Bytes, h: Handle, seenEmpty: bool) returns (m: Handle)
      modifies this`hand, this`received, mgr
      ensures View() == Received(old(View()), data, h, !seenEmpty) && hand == Some(m)
      ensures m in mgr.bodies && mgr.bodies[m] == data && received == old(received) + [data]
    {
      m := mgr.AllocateMsgBuffer(|data|, h, seenEmpty);
      mgr.SetBody(m, data);
      hand, received := Some(m), received + [data];
    }

    /** The lock region of write(): whoever finds the queue empty has to start writing. */
    method Write(m: Handle, ghost echo: bool) returns (start: bool)
      requires Valid() && !releasing && (if echo then hand == Some(m) else m in theirs)
      modifies this`msgQueue, this`hand, this`theirs, this`entered, this`starters
      ensures View() == Apply(old(View()), if echo then PushEcho else PushOther(m))
      ensures start <==> old(msgQueue) == []
      ensures Valid() && (old(Orderly()) && !(start && old(starters) > 0) ==> Orderly())
    {
      StepHolds(View(), if echo then PushEcho else PushOther(m));
      LetGo(m, echo);
      start := Append(m, echo);
    }

    ghost method LetGo(m: Handle, echo: bool)
      modifies this`hand, this`theirs
      ensures View() == if echo then old(View()).(hand := None) else old(View()).(theirs := old(theirs) - {m})
    {
      if echo {
        hand := None;
      } else {
        theirs := theirs - {m};
      }
    }

    method Append(m: Handle, ghost echo: bool) returns (start: bool)
      modifies this`msgQueue, this`entered, this`starters
      ensures View() == Pushed(old(View()), m, echo) && (start <==> old(msgQueue) == [])
    {
      start := msgQueue == [];
      msgQueue := msgQueue + [m];
      entered, starters := entered + [Entry(Content(View(), m), echo)], starters + if start then 1 else 0;
    }

    /** Under the shared lock: the head of the front message, if there is one. */
    method DoWrite()
      requires Valid() && starters > 0 && !releasing
      modifies this`outstanding, this`starters
      ensures View() == Apply(old(View()), StartWrite)
      ensures Valid() && (old(Orderly()) ==> Orderly())
    {
      StepHolds(View(), StartWrite);
      starters := starters - 1;
      if msgQueue != [] {
        outstanding := outstanding + [HeadOf(msgQueue[0])];
      }
    }

    method HandlerWriteHeader(ghost i: nat)
      requires Valid() && Enabled(View(), HeadWritten(i))
      modifies this`outstanding, this`log
      ensures View() == Apply(old(View()), HeadWritten(i))
      ensures log == old(log) + [Head(|old(Content(View(), outstanding[i].msg))|)]
      ensures Valid() && (old(Orderly()) ==> Orderly())
    {
      StepHolds(View(), HeadWritten(i));
      log := log + [Head(|Content(View(), outstanding[i].msg)|)];
      outstanding := Without(outstanding, i);
      if msgQueue != [] {
        outstanding := outstanding + [BodyOf(msgQueue[0])];
      }
    }

    /** Up to the first check of the release, which keeps the lock if there is room; otherwise to the end of the
        lock region. */
    method HandlerWriteBody(ghost i: nat) returns (room: bool)
      requires Valid() && Enabled(View(), BodyWritten(i))
      modifies this`msgQueue, this`outstanding, this`starters, this`releasing, this`log
      ensures View() == Apply(old(View()), BodyWritten(i)) && room == releasing
      ensures log == old(log) + [Body(old(Content(View(), outstanding[i].msg)))]
      ensures Valid() && (old(Orderly()) ==> Orderly())
    {
      StepHolds(View(), BodyWritten(i));
      room := CheckFront(i);
    }

    method CheckFront(ghost i: nat) returns (room: bool)
      requires i < |outstanding| && !releasing
      modifies this`msgQueue, this`outstanding, this`starters, this`releasing, this`log
      ensures View() == BodyDone(old(View()), i) && room == releasing
    {
      room := false;
      log := log + [Body(Content(View(), outstanding[i].msg))];
      outstanding := Without(outstanding, i);
      if msgQueue != [] {
        room := mgr.DellocateCheck(msgQueue[0]);
        if !room {
          msgQueue := msgQueue[1..];
        }
      }
      releasing, starters := room, if room then starters else starters + 1;
    }

    /** The second check and the end of the lock region. */
    method FinishRelease()
      requires Valid() && Enabled(View(), Commit)
      modifies this`msgQueue, this`starters, this`releasing, mgr`buffers
      ensures View() == Apply(old(View()), Commit)
      ensures Valid() && (old(Orderly()) ==> Orderly())
    {
      StepHolds(View(), Commit);
      PopFront();
    }

    method PopFront()
      requires msgQueue != []
      modifies this`msgQueue, this`starters, this`releasing, mgr`buffers
      ensures View() == Committed(old(View()))
    {
      mgr.DellocateCommit(msgQueue[0]);
      msgQueue := msgQueue[1..];
      starters, releasing := starters + 1, false;
    }
  }
}
