/** An echo session of the server and the pool of message buffers it shares with other sessions.

    Messages are handles, as the source passes pointers: a buffer that is recycled too early would change under
    the session's hands. Every step is one lock region. The session's reader, its write handlers, broadcasts and
    the other sessions may take their steps in any order: the server runs several threads and no strand. */
module EchoSession {
  import opened Framing
  import opened ConnMsg

  const POOL_CAPACITY: nat := 50

  type Handle = nat

  /** An asynchronous write that has not completed: the head or the body of a message. */
  datatype Write = HeadOf(msg: Handle) | BodyOf(msg: Handle)

  /** What has been written to the client. */
  datatype Part = Head(len: nat) | Body(bytes: Bytes)

  /** A message that entered the write queue: an echo, or broadcast by somebody else. */
  datatype Entry = Entry(bytes: Bytes, echo: bool)

  datatype Server = Server(
    pool: seq<Handle>,
    theirs: set<Handle>,           // in use by other sessions, or about to be broadcast
    theirsReleasing: set<Handle>,  // being released by other sessions, first check passed
    body: map<Handle, Bytes>,
    size: map<Handle, nat>,        // allocated sizes
    hand: Option<Handle>,          // read by the session, not yet in the queue
    queue: seq<Handle>,            // the session's write queue
    outstanding: seq<Write>,
    starters: nat,                 // calls that have released the lock and are about to enter do_write
    releasing: bool,               // the first check of the release of the front message has passed
    // history
    received: seq<Bytes>,
    entered: seq<Entry>,
    log: seq<Part>)                // writes that completed

  datatype Step =
    | Receive(data: Bytes, h: Handle, reuse: bool)   // a body was read; `h` is new; both checks saw a pooled buffer
    | PushEcho                             // the reader's write()
    | PushOther(h: Handle)                 // write() by a broadcast
    | StartWrite                           // do_write
    | HeadWritten(i: nat)
    | BodyWritten(i: nat)                  // to the end of the handler's lock region, or to the check in its middle
    | Commit                               // the second check of the release, under the exclusive lock
    | OtherNew(h: Handle, data: Bytes)
    | OtherTake(data: Bytes)
    | OtherSet(h: Handle, data: Bytes)
    | OtherCheck(h: Handle)
    | OtherCommit(h: Handle)

  predicate InUse(s: Server, h: Handle) {
    h in s.pool || h in s.theirs || h in s.theirsReleasing || h in s.queue || s.hand == Some(h)
  }

  /** A release holds the session's lock from its first check on, so nobody else gets at the queue. */
  predicate Enabled(s: Server, step: Step) {
    match step
    case Receive(_, h, _) => s.hand == None && !InUse(s, h)
    case PushEcho => s.hand.Some? && !s.releasing
    case PushOther(h) => h in s.theirs && !s.releasing
    case StartWrite => s.starters > 0 && !s.releasing
    case HeadWritten(i) => i < |s.outstanding| && s.outstanding[i].HeadOf? && !s.releasing
    case BodyWritten(i) => i < |s.outstanding| && s.outstanding[i].BodyOf? && !s.releasing
    case Commit => s.releasing && s.queue != []
    case OtherNew(h, _) => !InUse(s, h)
    case OtherTake(_) => s.pool != []
    case OtherSet(h, _) => h in s.theirs
    case OtherCheck(h) => h in s.theirs
    case OtherCommit(h) => h in s.theirsReleasing
  }

  function Content(s: Server, h: Handle): (b: Bytes) {
    if h in s.body then s.body[h] else []
  }

  function SizeOf(s: Server, h: Handle): (n: nat) {
    if h in s.size then s.size[h] else 0
  }

  // ---------------------------------------------------------------- the pool

  /** A circular buffer overwrites its oldest entry when it is full. */
  function PushBack(pool: seq<Handle>, h: Handle): (p: seq<Handle>) {
    if |pool| >= POOL_CAPACITY then pool[1..] + [h] else pool + [h]
  }

  /** The second check. */
  function Released(pool: seq<Handle>, h: Handle): (p: seq<Handle>) {
    if |pool| >= POOL_CAPACITY then pool else PushBack(pool, h)
  }

  function SetBody(s: Server, h: Handle, held: nat, data: Bytes): (s': Server) {
    s.(body := s.body[h := data], size := s.size[h := AllocAfter(held, |data|)])
  }

  /** A small message reuses a pooled buffer, if none of the two checks found the pool empty. */
  predicate Recycles(s: Server, data: Bytes, reuse: bool) {
    reuse && |data| <= MAX_BODY_LENGTH && s.pool != []
  }

  /** The first check of a release; a buffer that does not pass it is destroyed. */
  predicate Recyclable(s: Server, h: Handle) {
    Capacity(SizeOf(s, h)) == MAX_BODY_LENGTH && |s.pool| < POOL_CAPACITY
  }

  function Taken(s: Server, data: Bytes): (s': Server)
    requires s.pool != []
  {
    SetBody(s.(pool := s.pool[1..]), s.pool[0], SizeOf(s, s.pool[0]), data)
  }

  // ---------------------------------------------------------------- the session

  function Received(s: Server, data: Bytes, h: Handle, reuse: bool): (s': Server) {
    if Recycles(s, data, reuse) then Taken(s, data).(hand := Some(s.pool[0]), received := s.received + [data])
    else SetBody(s, h, 0, data).(hand := Some(h), received := s.received + [data])
  }

  /** Whoever finds the queue empty is going to start writing. */
  function Pushed(s: Server, m: Handle, echo: bool): (s': Server) {
    s.(queue := s.queue + [m], entered := s.entered + [Entry(Content(s, m), echo)],
       starters := s.starters + if s.queue == [] then 1 else 0)
  }

  function Started(s: Server): (s': Server)
    requires s.starters > 0
  {
    s.(starters := s.starters - 1,
       outstanding := if s.queue == [] then s.outstanding else s.outstanding + [HeadOf(s.queue[0])])
  }

  function Without(ws: seq<Write>, i: nat): (rest: seq<Write>)
    requires i < |ws|
  {
    ws[..i] + ws[i + 1..]
  }

  function HeadDone(s: Server, i: nat): (s': Server)
    requires i < |s.outstanding|
  {
    var rest := Without(s.outstanding, i);
    s.(log := s.log + [Head(|Content(s, s.outstanding[i].msg)|)],
       outstanding := if s.queue == [] then rest else rest + [BodyOf(s.queue[0])])
  }

  function Logged(s: Server, i: nat): (s': Server)
    requires i < |s.outstanding|
  {
    s.(log := s.log + [Body(Content(s, s.outstanding[i].msg))], outstanding := Without(s.outstanding, i))
  }

  /** The message is done: it leaves the queue, and the handler goes on to do_write. */
  function Popped(s: Server): (s': Server)
    requires s.queue != []
  {
    s.(queue := s.queue[1..], starters := s.starters + 1, releasing := false)
  }

  function BodyDone(s: Server, i: nat): (s': Server)
    requires i < |s.outstanding|
  {
    var logged := Logged(s, i);
    if s.queue == [] then logged.(starters := s.starters + 1)
    else if Recyclable(s, s.queue[0]) then logged.(releasing := true)
    else Popped(logged)
  }

  function Committed(s: Server): (s': Server)
    requires s.queue != []
  {
    Popped(s.(pool := Released(s.pool, s.queue[0])))
  }

  function Apply(s: Server, step: Step): (s': Server)
    requires Enabled(s, step)
  {
    match step
    case Receive(data, h, reuse) => Received(s, data, h, reuse)
    case PushEcho => Pushed(s, s.hand.value, true).(hand := None)
    case PushOther(h) => Pushed(s, h, false).(theirs := s.theirs - {h})
    case StartWrite => Started(s)
    case HeadWritten(i) => HeadDone(s, i)
    case BodyWritten(i) => BodyDone(s, i)
    case Commit => Committed(s)
    case OtherNew(h, data) => SetBody(s, h, 0, data).(theirs := s.theirs + {h})
    case OtherTake(data) => Taken(s, data).(theirs := s.theirs + {s.pool[0]})
    case OtherSet(h, data) => SetBody(s, h, SizeOf(s, h), data)
    case OtherCheck(h) =>
      if Recyclable(s, h) then s.(theirs := s.theirs - {h}, theirsReleasing := s.theirsReleasing + {h})
      else s.(theirs := s.theirs - {h})
    case OtherCommit(h) => s.(theirsReleasing := s.theirsReleasing - {h}, pool := Released(s.pool, h))
  }

  const Init := Server([], {}, {}, map[], map[], None, [], [], 0, false, [], [], [])

  // ---------------------------------------------------------------- in every state

  ghost predicate Distinct(hs: seq<Handle>) {
    forall i, j :: 0 <= i < j < |hs| ==> hs[i] != hs[j]
  }

  /** No buffer is pooled twice, queued twice, both pooled and in use, or in use by two sessions; the pool
      never exceeds its capacity. */
  ghost predicate Apart(s: Server) {
    && Distinct(s.pool) && Distinct(s.queue) && |s.pool| <= POOL_CAPACITY
    && (forall h :: h in s.pool ==> h !in s.queue && h !in s.theirs && h !in s.theirsReleasing && s.hand != Some(h))
    && (forall h :: h in s.queue ==> h !in s.theirs && h !in s.theirsReleasing && s.hand != Some(h))
    && (forall h :: h in s.theirs ==> h !in s.theirsReleasing && s.hand != Some(h))
    && (forall h :: h in s.theirsReleasing ==> s.hand != Some(h))
  }

  /** Every buffer has a body that fits it; only inline buffers are pooled or about to be. */
  ghost predicate Sized(s: Server) {
    && (forall h :: h in s.size ==> s.size[h] == 0 || s.size[h] > MAX_BODY_LENGTH)
    && (forall h :: InUse(s, h) ==> h in s.size && h in s.body && |s.body[h]| <= Capacity(s.size[h]))
    && (forall h :: h in s.pool || h in s.theirsReleasing ==> SizeOf(s, h) == 0)
    && (s.releasing ==> s.queue != [] && SizeOf(s, s.queue[0]) == 0)
  }

  /** The queue holds the messages that entered last, unchanged. */
  ghost predicate Queued(s: Server) {
    && |s.queue| <= |s.entered|
    && (forall i :: 0 <= i < |s.queue| ==> Content(s, s.queue[i]) == s.entered[|s.entered| - |s.queue| + i].bytes)
  }

  function Echoed(es: seq<Entry>): (bs: seq<Bytes>) {
    if es == [] then []
    else Echoed(es[..|es| - 1]) + if es[|es| - 1].echo then [es[|es| - 1].bytes] else []
  }

  function InHand(s: Server): (bs: seq<Bytes>) {
    if s.hand.Some? then [Content(s, s.hand.value)] else []
  }

  /** Every message received enters the queue once, unchanged and in order, whatever is broadcast in between. */
  ghost predicate AllEnter(s: Server) {
    s.received == Echoed(s.entered) + InHand(s)
  }

  ghost predicate Kept(s: Server) {
    Apart(s) && Sized(s) && Queued(s) && AllEnter(s)
  }

  // ---------------------------------------------------------------- one write at a time

  function Bodies(es: seq<Entry>): (bs: seq<Bytes>)
    ensures |bs| == |es| && forall i :: 0 <= i < |bs| ==> bs[i] == es[i].bytes
  {
    seq(|es|, i requires 0 <= i < |es| => es[i].bytes)
  }

  /** The messages that have left the queue. */
  function Gone(s: Server): (w: seq<Bytes>) {
    if |s.queue| <= |s.entered| then Bodies(s.entered[..|s.entered| - |s.queue|]) else []
  }

  function Parts(bodies: seq<Bytes>): (ps: seq<Part>) {
    if bodies == [] then []
    else var b := bodies[|bodies| - 1]; Parts(bodies[..|bodies| - 1]) + [Head(|b|), Body(b)]
  }

  /** What has been written of the message at the front. */
  function Current(s: Server): (ps: seq<Part>) {
    if s.queue == [] then []
    else
      var b := Content(s, s.queue[0]);
      if s.releasing then [Head(|b|), Body(b)]
      else if s.outstanding == [BodyOf(s.queue[0])] then [Head(|b|)]
      else []
  }

  /** How many activities there are that can lead to a write. */
  function Tokens(s: Server): (n: nat) {
    |s.outstanding| + s.starters + if s.releasing then 1 else 0
  }

  /** One activity at most, and one exactly while messages wait; the outstanding write belongs to the message at
      the front, so its buffer is not recycled under it. */
  ghost predicate OneAtATime(s: Server) {
    && Tokens(s) <= 1
    && (s.queue != [] ==> Tokens(s) == 1)
    && (s.outstanding != [] ==> s.queue != [] && s.outstanding[0].msg == s.queue[0])
    && (s.releasing ==> s.queue != [])
  }

  /** The echo: every message that left the queue has been written, a head and a body each, in order, and of the
      front message the part that belongs to what is under way. */
  ghost predicate Echoes(s: Server) {
    s.log == Parts(Gone(s)) + Current(s)
  }

  ghost predicate InOrder(s: Server) {
    OneAtATime(s) && Echoes(s)
  }

  predicate Pushes(step: Step) {
    step.PushEcho? || step.PushOther?
  }

  /** A message enters the empty queue while a call is about to enter do_write: after the pop of the last message
      and before the same handler looks whether there is more, or between another push and its do_write. */
  predicate Crosses(s: Server, step: Step) {
    Pushes(step) && s.queue == [] && s.starters > 0
  }

  // ---------------------------------------------------------------- the pool and its checks

  /** A release never overwrites: what was pooled stays pooled. */
  lemma ReleaseKeepsPool(pool: seq<Handle>, h: Handle)
    ensures Released(pool, h) == if |pool| < POOL_CAPACITY then pool + [h] else pool
    ensures pool <= Released(pool, h)
  {
  }

  /** And without the second check it would: this is what the check is for. */
  lemma OneCheckIsNotEnough(pool: seq<Handle>, h: Handle)
    requires |pool| == POOL_CAPACITY && Distinct(pool + [h])
    ensures pool[0] !in PushBack(pool, h)
  {
    var all := pool + [h];
    assert all[1..] == pool[1..] + [h];
    forall i | 1 <= i < |all| ensures all[i] != all[0] {
    }
  }

  // ---------------------------------------------------------------- every step: who has what

  predicate Others(step: Step) {
    step.OtherNew? || step.OtherTake? || step.OtherSet? || step.OtherCheck? || step.OtherCommit?
  }

  /** Nothing of what the session looks at changes. */
  ghost predicate Untouched(s: Server, s': Server) {
    && s'.hand == s.hand && s'.received == s.received && SameQueue(s, s')
    && (forall h :: s.hand == Some(h) ==> Content(s', h) == Content(s, h))
  }

  ghost predicate SameQueue(s: Server, s': Server) {
    && s'.queue == s.queue && s'.entered == s.entered && s'.log == s.log
    && s'.outstanding == s.outstanding && s'.starters == s.starters && s'.releasing == s.releasing
    && (forall h :: h in s.queue ==> Content(s', h) == Content(s, h))
  }

  lemma SameQueueKeeps(s: Server, s': Server)
    requires SameQueue(s, s')
    ensures Queued(s) ==> Queued(s')
    ensures InOrder(s) ==> InOrder(s')
  {
  }

  lemma UntouchedKeeps(s: Server, s': Server)
    requires AllEnter(s) && Untouched(s, s')
    ensures AllEnter(s')
  {
  }

  lemma OthersApart(s: Server, step: Step)
    requires Apart(s) && Enabled(s, step) && Others(step)
    ensures Apart(Apply(s, step))
  {
    match step
    case OtherTake(data) => TakenApart(s, data);
    case OtherCommit(h) => ReleaseKeepsPool(s.pool, h);
    case _ =>
  }

  lemma TakenApart(s: Server, data: Bytes)
    requires Apart(s) && s.pool != []
    ensures Apart(Taken(s, data)) && !InUse(Taken(s, data), s.pool[0])
  {
    assert s.pool[0] in s.pool;
    forall h | h in s.pool[1..] ensures h in s.pool {
    }
  }

  lemma OthersUntouched(s: Server, step: Step)
    requires Apart(s) && Enabled(s, step) && Others(step)
    ensures Untouched(s, Apply(s, step))
  {
  }

  /** A buffer that its user sets a body to, wherever it comes from. */
  lemma SetSized(s: Server, s': Server, m: Handle, held: nat, data: Bytes)
    requires Sized(s) && (held == 0 || held > MAX_BODY_LENGTH)
    requires s'.size == s.size[m := AllocAfter(held, |data|)] && s'.body == s.body[m := data]
    requires forall h :: InUse(s', h) ==> h == m || InUse(s, h)
    requires forall h :: h in s'.pool || h in s'.theirsReleasing ==>
               h != m && (h in s.pool || h in s.theirsReleasing)
    requires s'.releasing ==> s.releasing && s'.queue == s.queue && m !in s.queue
    ensures Sized(s')
  {
  }

  /** A buffer that moves, or goes. */
  lemma MoveSized(s: Server, s': Server)
    requires Sized(s) && s'.size == s.size && s'.body == s.body
    requires forall h :: InUse(s', h) ==> InUse(s, h)
    requires forall h :: h in s'.pool || h in s'.theirsReleasing ==> SizeOf(s, h) == 0
    requires s'.releasing ==> s'.queue != [] && SizeOf(s, s'.queue[0]) == 0
    ensures Sized(s')
  {
  }

  lemma OthersSized(s: Server, step: Step)
    requires Apart(s) && Sized(s) && Enabled(s, step) && Others(step)
    ensures Sized(Apply(s, step))
  {
    var s' := Apply(s, step);
    match step
    case OtherNew(h, data) => SetSized(s, s', h, 0, data);
    case OtherTake(data) => OtherTakeSized(s, data);
    case OtherSet(h, data) => SetSized(s, s', h, SizeOf(s, h), data);
    case OtherCheck(h) => OtherCheckSized(s, h);
    case OtherCommit(h) => OtherCommitSized(s, h);
  }

  lemma OtherTakeSized(s: Server, data: Bytes)
    requires Apart(s) && Sized(s) && s.pool != []
    ensures Sized(Apply(s, OtherTake(data)))
  {
    var m := s.pool[0];
    assert m in s.pool;
    SetSized(s, Apply(s, OtherTake(data)), m, SizeOf(s, m), data);
  }

  lemma OtherCheckSized(s: Server, h: Handle)
    requires Apart(s) && Sized(s) && h in s.theirs
    ensures Sized(Apply(s, OtherCheck(h)))
  {
    MoveSized(s, Apply(s, OtherCheck(h)));
  }

  lemma OtherCommitSized(s: Server, h: Handle)
    requires Apart(s) && Sized(s) && h in s.theirsReleasing
    ensures Sized(Apply(s, OtherCommit(h)))
  {
    MoveSized(s, Apply(s, OtherCommit(h)));
  }

  lemma OthersKeep(s: Server, step: Step)
    requires Kept(s) && Enabled(s, step) && Others(step)
    ensures Kept(Apply(s, step)) && (InOrder(s) ==> InOrder(Apply(s, step)))
  {
    var s' := Apply(s, step);
    OthersApart(s, step);
    OthersSized(s, step);
    OthersUntouched(s, step);
    SameQueueKeeps(s, s');
    UntouchedKeeps(s, s');
  }

  // ---------------------------------------------------------------- reading

  lemma ReceiveApart(s: Server, data: Bytes, h: Handle, reuse: bool)
    requires Apart(s) && s.hand == None && !InUse(s, h)
    ensures Apart(Received(s, data, h, reuse)) && SameQueue(s, Received(s, data, h, reuse))
  {
    if Recycles(s, data, reuse) {
      TakenApart(s, data);
      assert s.pool[0] in s.pool;
    }
  }

  lemma ReceiveSized(s: Server, data: Bytes, h: Handle, reuse: bool)
    requires Apart(s) && Sized(s) && s.hand == None && !InUse(s, h)
    ensures Sized(Received(s, data, h, reuse))
  {
    if Recycles(s, data, reuse) {
      var m := s.pool[0];
      assert m in s.pool;
      SetSized(s, Received(s, data, h, reuse), m, SizeOf(s, m), data);
    } else {
      SetSized(s, Received(s, data, h, reuse), h, 0, data);
    }
  }

  lemma ReceiveKeeps(s: Server, data: Bytes, h: Handle, reuse: bool)
    requires Kept(s) && s.hand == None && !InUse(s, h)
    ensures var s' := Received(s, data, h, reuse); Kept(s') && (InOrder(s) ==> InOrder(s'))
  {
    var s' := Received(s, data, h, reuse);
    ReceiveApart(s, data, h, reuse);
    ReceiveSized(s, data, h, reuse);
    SameQueueKeeps(s, s');
    assert InHand(s) == [] && InHand(s') == [data];
    assert Echoed(s.entered) + [] == Echoed(s.entered);
  }

  // ---------------------------------------------------------------- queueing

  function Message(s: Server, step: Step): (m: Handle)
    requires Enabled(s, step) && Pushes(step)
  {
    if step.PushEcho? then s.hand.value else step.h
  }

  lemma PushApart(s: Server, step: Step)
    requires Apart(s) && Enabled(s, step) && Pushes(step)
    ensures Apart(Apply(s, step)) && Message(s, step) !in s.queue
  {
    var m := Message(s, step);
    assert m !in s.queue;
    assert Apply(s, step).queue == s.queue + [m];
  }

  lemma PushSized(s: Server, step: Step)
    requires Sized(s) && Enabled(s, step) && Pushes(step)
    ensures Sized(Apply(s, step))
  {
    MoveSized(s, Apply(s, step));
  }

  lemma PushQueued(s: Server, m: Handle, echo: bool)
    requires Queued(s)
    ensures Queued(Pushed(s, m, echo))
  {
  }

  lemma EchoedAppend(es: seq<Entry>, e: Entry)
    ensures Echoed(es + [e]) == Echoed(es) + if e.echo then [e.bytes] else []
  {
    assert (es + [e])[..|es|] == es;
  }

  lemma PushEnters(s: Server, step: Step)
    requires AllEnter(s) && Enabled(s, step) && Pushes(step)
    ensures AllEnter(Apply(s, step))
  {
    EchoedAppend(s.entered, Entry(Content(s, Message(s, step)), step.PushEcho?));
    if step.PushEcho? {
      assert Echoed(s.entered) + InHand(s) + [] == Echoed(s.entered) + InHand(s);
    } else {
      assert Echoed(s.entered) + [] == Echoed(s.entered);
    }
  }

  /** What has left the queue is the same, and the front message too, unless there was none. */
  lemma PushInOrder(s: Server, m: Handle, echo: bool)
    requires Queued(s) && InOrder(s) && !s.releasing && !(s.queue == [] && s.starters > 0)
    ensures InOrder(Pushed(s, m, echo))
  {
    var s' := Pushed(s, m, echo);
    var n := |s.entered| - |s.queue|;
    assert s'.entered[..n] == s.entered[..n];
    if s.queue == [] {
      assert Current(s) == [] && Current(s') == [];
    } else {
      assert s'.queue[0] == s.queue[0];
      assert Current(s') == Current(s);
    }
  }

  lemma PushKeeps(s: Server, step: Step)
    requires Kept(s) && Enabled(s, step) && Pushes(step)
    ensures Kept(Apply(s, step)) && (InOrder(s) && !Crosses(s, step) ==> InOrder(Apply(s, step)))
  {
    PushApart(s, step);
    PushSized(s, step);
    PushEnters(s, step);
    var m, echo := Message(s, step), step.PushEcho?;
    PushQueued(s, m, echo);
    PushAside(s, step);
    if InOrder(s) && !Crosses(s, step) {
      PushInOrder(s, m, echo);
    }
  }

  /** Who held the message does not matter to the queue. */
  lemma PushAside(s: Server, step: Step)
    requires Enabled(s, step) && Pushes(step)
    ensures var s', pushed := Apply(s, step), Pushed(s, Message(s, step), step.PushEcho?);
            (Queued(pushed) ==> Queued(s')) && (InOrder(pushed) ==> InOrder(s'))
  {
    SameQueueKeeps(Pushed(s, Message(s, step), step.PushEcho?), Apply(s, step));
  }

  // ---------------------------------------------------------------- writing

  lemma {:induction false} PartsAppend(bodies: seq<Bytes>, b: Bytes)
    ensures Parts(bodies + [b]) == Parts(bodies) + [Head(|b|), Body(b)]
  {
    assert (bodies + [b])[..|bodies|] == bodies;
  }

  /** Steps that change only who is going to write. */
  lemma WriterKeeps(s: Server, s': Server)
    requires Kept(s) && s' == s.(outstanding := s'.outstanding, starters := s'.starters, log := s'.log)
    ensures Kept(s')
  {
    MoveSized(s, s');
  }

  lemma StartInOrder(s: Server)
    requires InOrder(s) && s.starters > 0
    ensures InOrder(Started(s))
  {
    assert s.outstanding == [] && Current(s) == [];
    if s.queue != [] {
      assert Started(s).outstanding[0] == HeadOf(s.queue[0]);
    }
    assert Current(Started(s)) == [];
  }

  lemma HeadInOrder(s: Server, i: nat)
    requires InOrder(s) && i < |s.outstanding| && s.outstanding[i].HeadOf?
    ensures InOrder(HeadDone(s, i))
  {
    assert Without(s.outstanding, i) == [];
    assert HeadDone(s, i).outstanding == [BodyOf(s.queue[0])];
    assert Current(s) == [];
    assert Parts(Gone(s)) + [] == Parts(Gone(s));
  }

  /** The message at the front has been written in full. */
  ghost predicate FrontWritten(s: Server) {
    && s.queue != [] && s.outstanding == [] && s.starters == 0
    && s.log == Parts(Gone(s)) + [Head(|Content(s, s.queue[0])|), Body(Content(s, s.queue[0]))]
  }

  /** The log after the body of the front message. */
  lemma BodyLogged(s: Server, i: nat)
    requires InOrder(s) && !s.releasing && i < |s.outstanding| && s.outstanding[i].BodyOf?
    ensures FrontWritten(Logged(s, i))
  {
    BodyAlone(s, i);
    var b := Content(s, s.queue[0]);
    LogGrows(s.log, Parts(Gone(s)), Head(|b|), Body(b));
  }

  lemma BodyAlone(s: Server, i: nat)
    requires OneAtATime(s) && !s.releasing && i < |s.outstanding| && s.outstanding[i].BodyOf?
    ensures s.queue != [] && s.starters == 0 && i == 0 && s.outstanding == [BodyOf(s.queue[0])]
    ensures Without(s.outstanding, i) == [] && Current(s) == [Head(|Content(s, s.queue[0])|)]
  {
  }

  lemma LogGrows(log: seq<Part>, gone: seq<Part>, h: Part, b: Part)
    requires log == gone + [h]
    ensures log + [b] == gone + [h, b]
  {
  }

  lemma PopQueued(s: Server)
    requires Queued(s) && s.queue != []
    ensures Queued(Popped(s)) && Gone(Popped(s)) == Gone(s) + [Content(s, s.queue[0])]
  {
    var n := |s.entered| - |s.queue|;
    assert s.entered[..n + 1] == s.entered[..n] + [s.entered[n]];
  }

  lemma PopInOrder(s: Server)
    requires Queued(s) && FrontWritten(s)
    ensures InOrder(Popped(s))
  {
    PopQueued(s);
    PartsAppend(Gone(s), Content(s, s.queue[0]));
    assert Current(Popped(s)) == [];
  }

  lemma PopApart(s: Server)
    requires Apart(s) && s.queue != []
    ensures Apart(Popped(s)) && !InUse(Popped(s), s.queue[0])
  {
    assert s.queue[0] in s.queue;
    forall h | h in s.queue[1..] ensures h in s.queue {
    }
  }

  lemma PopKeeps(s: Server)
    requires Kept(s) && s.queue != []
    ensures Kept(Popped(s))
  {
    PopApart(s);
    MoveSized(s, Popped(s));
    PopQueued(s);
  }

  lemma BodyKeeps(s: Server, i: nat)
    requires Kept(s) && !s.releasing && i < |s.outstanding|
    ensures Kept(BodyDone(s, i))
  {
    var logged := Logged(s, i);
    WriterKeeps(s, logged);
    if s.queue == [] {
      WriterKeeps(logged, BodyDone(s, i));
    } else if Recyclable(s, s.queue[0]) {
      ReleaseKeeps(logged);
    } else {
      PopKeeps(logged);
    }
  }

  lemma ReleaseKeeps(s: Server)
    requires Kept(s) && s.queue != [] && Recyclable(s, s.queue[0])
    ensures Kept(s.(releasing := true))
  {
    assert InUse(s, s.queue[0]);
    MoveSized(s, s.(releasing := true));
  }

  lemma BodyInOrder(s: Server, i: nat)
    requires Queued(s) && InOrder(s) && !s.releasing && i < |s.outstanding| && s.outstanding[i].BodyOf?
    ensures InOrder(BodyDone(s, i))
  {
    BodyShape(s, i);
    BodyLogged(s, i);
    FrontInOrder(Logged(s, i));
  }

  lemma BodyShape(s: Server, i: nat)
    requires i < |s.outstanding| && OneAtATime(s) && Queued(s)
    ensures s.queue != [] && Queued(Logged(s, i)) && Logged(s, i).queue == s.queue
    ensures BodyDone(s, i) == Logged(s, i).(releasing := true) || BodyDone(s, i) == Popped(Logged(s, i))
  {
  }

  lemma FrontInOrder(s: Server)
    requires Queued(s) && FrontWritten(s)
    ensures InOrder(s.(releasing := true)) && InOrder(Popped(s))
  {
    PopInOrder(s);
    assert Current(s.(releasing := true)) == [Head(|Content(s, s.queue[0])|), Body(Content(s, s.queue[0]))];
  }

  lemma CommitApart(s: Server)
    requires Apart(s) && s.releasing && s.queue != []
    ensures Apart(Committed(s))
  {
    PopApart(s);
    ReleaseKeepsPool(s.pool, s.queue[0]);
  }

  lemma CommitKeeps(s: Server)
    requires Kept(s) && s.releasing && s.queue != []
    ensures Kept(Committed(s))
  {
    CommitApart(s);
    CommitSized(s);
    CommitQueued(s);
  }

  lemma CommitSized(s: Server)
    requires Sized(s) && s.releasing && s.queue != []
    ensures Sized(Committed(s))
  {
    MoveSized(s, Committed(s));
  }

  lemma CommitQueued(s: Server)
    requires Queued(s) && AllEnter(s) && s.queue != []
    ensures Queued(Committed(s)) && AllEnter(Committed(s))
  {
    PopQueued(s.(pool := Released(s.pool, s.queue[0])));
  }

  lemma CommitInOrder(s: Server)
    requires Queued(s) && InOrder(s) && s.releasing
    ensures InOrder(Committed(s))
  {
    var pooled := s.(pool := Released(s.pool, s.queue[0]));
    assert FrontWritten(pooled);
    PopInOrder(pooled);
  }

  // ---------------------------------------------------------------- every step

  /** Whoever does it, in whatever order. */
  lemma StepKeeps(s: Server, step: Step)
    requires Kept(s) && Enabled(s, step)
    ensures Kept(Apply(s, step))
  {
    match step
    case Receive(data, h, reuse) => ReceiveKeeps(s, data, h, reuse);
    case StartWrite => WriterKeeps(s, Started(s));
    case HeadWritten(i) => WriterKeeps(s, HeadDone(s, i));
    case BodyWritten(i) => BodyKeeps(s, i);
    case Commit => CommitKeeps(s);
    case _ =>
      if Pushes(step) {
        PushKeeps(s, step);
      } else {
        OthersKeep(s, step);
      }
  }

  lemma StepInOrder(s: Server, step: Step)
    requires Kept(s) && InOrder(s) && Enabled(s, step) && !Crosses(s, step)
    ensures InOrder(Apply(s, step))
  {
    match step
    case Receive(data, h, reuse) => ReceiveKeeps(s, data, h, reuse);
    case StartWrite => StartInOrder(s);
    case HeadWritten(i) => HeadInOrder(s, i);
    case BodyWritten(i) => BodyInOrder(s, i);
    case Commit => CommitInOrder(s);
    case _ =>
      if Pushes(step) {
        PushKeeps(s, step);
      } else {
        OthersKeep(s, step);
      }
  }

  // ---------------------------------------------------------------- runs

  function Next(s: Server, step: Step): (s': Server) {
    if Enabled(s, step) then Apply(s, step) else s
  }

  /** A run; a step that is not enabled changes nothing, so that every list of steps is a run. */
  function Run(steps: seq<Step>): (s: Server)
    decreases |steps|
  {
    if steps == [] then Init else Next(Run(steps[..|steps| - 1]), steps[|steps| - 1])
  }

  /** The state before the k-th step. */
  function At(steps: seq<Step>, k: nat): (s: Server)
    requires k <= |steps|
  {
    Run(steps[..k])
  }

  lemma AtNext(steps: seq<Step>, k: nat)
    requires k < |steps|
    ensures At(steps, k + 1) == Next(At(steps, k), steps[k])
  {
    assert steps[..k + 1][..k] == steps[..k];
  }

  /** In every interleaving. */
  lemma {:induction false} EchoAlways(steps: seq<Step>)
    ensures Kept(Run(steps))
    decreases |steps|
  {
    if steps != [] {
      var prefix, step := steps[..|steps| - 1], steps[|steps| - 1];
      EchoAlways(prefix);
      if Enabled(Run(prefix), step) {
        StepKeeps(Run(prefix), step);
      }
    }
  }

  /** None of the first `n` steps pushes a message across a call that is about to enter do_write. */
  ghost predicate NeverCrosses(steps: seq<Step>, n: nat) {
    forall k :: 0 <= k < n <= |steps| && Enabled(At(steps, k), steps[k]) ==> !Crosses(At(steps, k), steps[k])
  }

  lemma {:induction false} InOrderAlways(steps: seq<Step>, n: nat)
    requires n <= |steps| && NeverCrosses(steps, n)
    ensures InOrder(At(steps, n))
    decreases n
  {
    if n > 0 {
      InOrderAlways(steps, n - 1);
      AtNext(steps, n - 1);
      EchoAlways(steps[..n - 1]);
      if Enabled(At(steps, n - 1), steps[n - 1]) {
        StepInOrder(At(steps, n - 1), steps[n - 1]);
      }
    }
  }

  /** What becomes of a state if the calls that are about to enter do_write do so now. */
  function Rushed(s: Server): (s': Server) {
    Next(Next(s, StartWrite), StartWrite)
  }

  lemma RushInOrder(s: Server)
    requires Kept(s) && InOrder(s)
    ensures InOrder(Rushed(s))
  {
    if Enabled(s, StartWrite) {
      StepInOrder(s, StartWrite);
      StepKeeps(s, StartWrite);
    }
    var t := Next(s, StartWrite);
    if Enabled(t, StartWrite) {
      StepInOrder(t, StartWrite);
    }
  }

  /** Crossing leads to two writes of the same head, side by side, if both calls go ahead. */
  lemma CrossingDoubles(s: Server, step: Step)
    requires Enabled(s, step) && Crosses(s, step)
    ensures var m := Message(s, step);
            Rushed(Apply(s, step)).outstanding == s.outstanding + [HeadOf(m), HeadOf(m)]
  {
    var m := Message(s, step);
    var a := Apply(s, step);
    assert a.queue == [m] && a.starters >= 2;
    assert s.outstanding + [HeadOf(m)] + [HeadOf(m)] == s.outstanding + [HeadOf(m), HeadOf(m)];
  }

  /** Exactly when one write at a time is safe, however soon or late the calls on their way to do_write get
      there: if and only if no message is pushed across one of them. So it is safe when one thread runs all
      handlers and nobody broadcasts, and it is not otherwise. */
  lemma OneWriteExactly(steps: seq<Step>)
    ensures NeverCrosses(steps, |steps|) <==>
            forall k :: 0 <= k <= |steps| ==> |Rushed(At(steps, k)).outstanding| <= 1
  {
    if NeverCrosses(steps, |steps|) {
      forall k | 0 <= k <= |steps| ensures |Rushed(At(steps, k)).outstanding| <= 1 {
        InOrderAlways(steps, k);
        EchoAlways(steps[..k]);
        RushInOrder(At(steps, k));
      }
    } else {
      var k :| 0 <= k < |steps| && Enabled(At(steps, k), steps[k]) && Crosses(At(steps, k), steps[k]);
      CrossingDoubles(At(steps, k), steps[k]);
      AtNext(steps, k);
      assert |Rushed(At(steps, k + 1)).outstanding| > 1;
    }
  }

  /** Then, when nothing is under way, everything that entered has been written, and if nobody broadcasts, that
      is everything received. */
  lemma QuietMeansEchoed(steps: seq<Step>)
    requires NeverCrosses(steps, |steps|) && Tokens(Run(steps)) == 0
    ensures Run(steps).log == Parts(Bodies(Run(steps).entered))
    ensures Run(steps).hand == None && (forall e :: e in Run(steps).entered ==> e.echo)
            ==> WrittenIn(steps) == Parts(ReadIn(steps))
  {
    HistoriesAre(steps);
    EchoAlways(steps);
    assert steps[..|steps|] == steps;
    InOrderAlways(steps, |steps|);
    QuietState(Run(steps));
  }

  lemma QuietState(s: Server)
    requires AllEnter(s) && InOrder(s) && Tokens(s) == 0
    ensures s.log == Parts(Bodies(s.entered))
    ensures s.hand == None && (forall e :: e in s.entered ==> e.echo) ==> s.received == Bodies(s.entered)
  {
    assert s.entered[..|s.entered|] == s.entered;
    assert Parts(Bodies(s.entered)) + [] == Parts(Bodies(s.entered));
    if s.hand == None && forall e :: e in s.entered ==> e.echo {
      AllEchoed(s.entered);
      assert Echoed(s.entered) + [] == Echoed(s.entered);
    }
  }

  lemma {:induction false} AllEchoed(es: seq<Entry>)
    requires forall e :: e in es ==> e.echo
    ensures Echoed(es) == Bodies(es)
  {
    if es != [] {
      var front, last := es[..|es| - 1], es[|es| - 1];
      assert es == front + [last];
      AllEchoed(front);
      assert last in es;
    }
  }

  // ---------------------------------------------------------------- what a run amounts to

  function ReadBy(step: Step): (bs: seq<Bytes>) {
    if step.Receive? then [step.data] else []
  }

  /** What a completed write has put on the wire: the length, or the bytes, of the message whose write it was. */
  function WrittenBy(s: Server, step: Step): (ps: seq<Part>) {
    match step
    case HeadWritten(i) => if i < |s.outstanding| then [Head(|Content(s, s.outstanding[i].msg)|)] else []
    case BodyWritten(i) => if i < |s.outstanding| then [Body(Content(s, s.outstanding[i].msg))] else []
    case _ => []
  }

  /** The histories are what the steps say: a body counts as received when it is read, all of it; and the log
      grows by what a completed write has written. A message enters the queue with the bytes that it holds. */
  lemma HistoryStep(s: Server, step: Step)
    requires Enabled(s, step)
    ensures var s' := Apply(s, step);
            && s'.received == s.received + ReadBy(step) && s'.log == s.log + WrittenBy(s, step)
            && s'.entered == s.entered +
                 (if Pushes(step) then [Entry(Content(s, Message(s, step)), step.PushEcho?)] else [])
  {
  }

  /** What was read is copied in full, to the buffer that the session then holds. */
  lemma ReadInFull(s: Server, data: Bytes, h: Handle, reuse: bool)
    ensures var s' := Received(s, data, h, reuse); s'.hand.Some? && Content(s', s'.hand.value) == data
  {
  }

  /** The bodies that are read in a run. */
  function ReadIn(steps: seq<Step>): (bs: seq<Bytes>) {
    if steps == [] then []
    else
      var front, step := steps[..|steps| - 1], steps[|steps| - 1];
      ReadIn(front) + if Enabled(Run(front), step) then ReadBy(step) else []
  }

  function WrittenIn(steps: seq<Step>): (ps: seq<Part>) {
    if steps == [] then []
    else
      var front, step := steps[..|steps| - 1], steps[|steps| - 1];
      WrittenIn(front) + if Enabled(Run(front), step) then WrittenBy(Run(front), step) else []
  }

  lemma {:induction false} HistoriesAre(steps: seq<Step>)
    ensures Run(steps).received == ReadIn(steps) && Run(steps).log == WrittenIn(steps)
    decreases |steps|
  {
    if steps != [] {
      var front, step := steps[..|steps| - 1], steps[|steps| - 1];
      HistoriesAre(front);
      if Enabled(Run(front), step) {
        HistoryStep(Run(front), step);
      }
    }
  }

  // ---------------------------------------------------------------- handlers one at a time

  function RunFrom(s: Server, steps: seq<Step>): (s': Server)
    decreases |steps|
  {
    if steps == [] then s else RunFrom(Next(s, steps[0]), steps[1..])
  }

  /** From `s`, none of the steps pushes a message across a call that is about to enter do_write. */
  predicate Clear(s: Server, steps: seq<Step>)
    decreases |steps|
  {
    steps == [] || ((Enabled(s, steps[0]) ==> !Crosses(s, steps[0])) && Clear(Next(s, steps[0]), steps[1..]))
  }

  /** One thread runs the handlers of the session, each to its end, and nobody broadcasts. In between, and in the
      middle of a handler, other sessions use the pool. */
  datatype Handler =
    | BodyRead(data: Bytes, h: Handle, reuse: bool, before: seq<Step>, after: seq<Step>)
    | HeadHandler
    | BodyHandler(before: seq<Step>, after: seq<Step>)
    | Elsewhere(step: Step)

  predicate OthersOnly(steps: seq<Step>) {
    forall i :: 0 <= i < |steps| ==> Others(steps[i])
  }

  predicate Proper(h: Handler) {
    match h
    case BodyRead(_, _, _, before, after) => OthersOnly(before) && OthersOnly(after)
    case HeadHandler => true
    case BodyHandler(before, after) => OthersOnly(before) && OthersOnly(after)
    case Elsewhere(step) => Others(step)
  }

  function StepsOf(h: Handler): (steps: seq<Step>) {
    match h
    case BodyRead(data, m, reuse, before, after) =>
      [Receive(data, m, reuse)] + (before + ([PushEcho] + (after + [StartWrite])))
    case HeadHandler => [HeadWritten(0)]
    case BodyHandler(before, after) => [BodyWritten(0)] + (before + ([Commit] + (after + [StartWrite])))
    case Elsewhere(step) => [step]
  }

  function Flat(hs: seq<Handler>): (steps: seq<Step>) {
    if hs == [] then [] else Flat(hs[..|hs| - 1]) + StepsOf(hs[|hs| - 1])
  }

  ghost predicate Calm(s: Server) {
    Kept(s) && InOrder(s)
  }

  predicate AllEcho(s: Server) {
    forall e :: e in s.entered ==> e.echo
  }

  /** Not in the middle of a release, and at most `n` calls on their way to do_write. */
  predicate Free(s: Server, n: nat) {
    AllEcho(s) && s.starters <= n && !s.releasing
  }

  /** No handler is running. */
  ghost predicate Resting(s: Server) {
    Calm(s) && Free(s, 0) && s.hand == None
  }

  lemma NextKeeps(s: Server, step: Step)
    requires Calm(s) && (Enabled(s, step) ==> !Crosses(s, step))
    ensures Calm(Next(s, step))
  {
    if Enabled(s, step) {
      StepKeeps(s, step);
      StepInOrder(s, step);
    }
  }

  /** What other sessions leave alone. */
  predicate SameSession(s: Server, s': Server) {
    && s'.hand == s.hand && s'.starters == s.starters && s'.releasing == s.releasing
    && s'.queue == s.queue && s'.entered == s.entered && s'.outstanding == s.outstanding
  }

  lemma {:induction false} OthersRun(s: Server, steps: seq<Step>)
    requires Calm(s) && OthersOnly(steps)
    ensures Clear(s, steps) && Calm(RunFrom(s, steps)) && SameSession(s, RunFrom(s, steps))
    decreases |steps|
  {
    if steps != [] {
      NextKeeps(s, steps[0]);
      OthersStep(s, steps[0]);
      OthersRun(Next(s, steps[0]), steps[1..]);
    }
  }

  lemma OthersStep(s: Server, step: Step)
    requires Others(step)
    ensures SameSession(s, Next(s, step))
  {
  }

  lemma {:induction false} Chained(s: Server, a: seq<Step>, b: seq<Step>)
    ensures RunFrom(s, a + b) == RunFrom(RunFrom(s, a), b)
    ensures Clear(s, a + b) <==> Clear(s, a) && Clear(RunFrom(s, a), b)
    decreases |a|
  {
    if a == [] {
      assert a + b == b;
    } else {
      assert (a + b)[1..] == a[1..] + b;
      Chained(Next(s, a[0]), a[1..], b);
    }
  }

  lemma OneStep(s: Server, step: Step)
    ensures RunFrom(s, [step]) == Next(s, step)
    ensures Clear(s, [step]) <==> (Enabled(s, step) ==> !Crosses(s, step))
  {
    assert [step][1..] == [];
  }

  /** The shape of the two longer handlers. */
  lemma FiveParts(s: Server, x: Step, before: seq<Step>, y: Step, after: seq<Step>, z: Step)
    ensures var s1 := Next(s, x); var s2 := RunFrom(s1, before); var s3 := Next(s2, y); var s4 := RunFrom(s3, after);
            var steps := [x] + (before + ([y] + (after + [z])));
            && RunFrom(s, steps) == Next(s4, z)
            && (Clear(s, steps) <==>
                  && (Enabled(s, x) ==> !Crosses(s, x)) && Clear(s1, before)
                  && (Enabled(s2, y) ==> !Crosses(s2, y)) && Clear(s3, after)
                  && (Enabled(s4, z) ==> !Crosses(s4, z)))
  {
    var s1 := Next(s, x);
    var s2 := RunFrom(s1, before);
    var s3 := Next(s2, y);
    Chained(s, [x], before + ([y] + (after + [z])));
    OneStep(s, x);
    Chained(s1, before, [y] + (after + [z]));
    Chained(s2, [y], after + [z]);
    OneStep(s2, y);
    Chained(s3, after, [z]);
    OneStep(RunFrom(s3, after), z);
  }

  lemma ReceiveFree(s: Server, step: Step)
    requires step.Receive? && Free(s, 0)
    ensures Free(Next(s, step), 0)
  {
  }

  lemma PushFree(s: Server)
    requires Free(s, 0)
    ensures !(Enabled(s, PushEcho) && Crosses(s, PushEcho))
    ensures Free(Next(s, PushEcho), 1) && Next(s, PushEcho).hand == None
  {
  }

  lemma StartFree(s: Server)
    requires Free(s, 1)
    ensures Free(Next(s, StartWrite), 0) && Next(s, StartWrite).hand == s.hand
  {
  }

  /** The first check of a release has passed, or do_write follows, or nothing has happened. */
  predicate HalfWay(s: Server) {
    AllEcho(s) && s.hand == None && s.starters + (if s.releasing then 1 else 0) <= 1
  }

  lemma BodyHalfWay(s: Server)
    requires Free(s, 0) && s.hand == None
    ensures HalfWay(Next(s, BodyWritten(0)))
  {
  }

  lemma CommitFree(s: Server)
    requires HalfWay(s) && OneAtATime(s)
    ensures Free(Next(s, Commit), 1) && Next(s, Commit).hand == None
  {
  }

  lemma BodyReadKeeps(s: Server, h: Handler)
    requires Resting(s) && h.BodyRead? && Proper(h)
    ensures Clear(s, StepsOf(h)) && Resting(RunFrom(s, StepsOf(h)))
  {
    var x := Receive(h.data, h.h, h.reuse);
    FiveParts(s, x, h.before, PushEcho, h.after, StartWrite);
    var t := ReceivePart(s, x, h.before);
    PushPart(t, h.after);
  }

  lemma ReceivePart(s: Server, x: Step, before: seq<Step>) returns (t: Server)
    requires Resting(s) && x.Receive? && OthersOnly(before)
    ensures !Crosses(s, x) && Clear(Next(s, x), before)
    ensures t == RunFrom(Next(s, x), before) && Calm(t) && Free(t, 0)
  {
    ReceiveFree(s, x);
    NextKeeps(s, x);
    OthersRun(Next(s, x), before);
    t := RunFrom(Next(s, x), before);
  }

  lemma PushPart(t: Server, after: seq<Step>)
    requires Calm(t) && Free(t, 0) && OthersOnly(after)
    ensures (Enabled(t, PushEcho) ==> !Crosses(t, PushEcho)) && Clear(Next(t, PushEcho), after)
    ensures Resting(Next(RunFrom(Next(t, PushEcho), after), StartWrite))
  {
    PushFree(t);
    NextKeeps(t, PushEcho);
    LastPart(Next(t, PushEcho), after);
  }

  /** A handler ends with do_write. */
  lemma LastPart(s: Server, after: seq<Step>)
    requires Calm(s) && Free(s, 1) && s.hand == None && OthersOnly(after)
    ensures Clear(s, after) && Resting(Next(RunFrom(s, after), StartWrite))
  {
    OthersRun(s, after);
    StartFree(RunFrom(s, after));
    NextKeeps(RunFrom(s, after), StartWrite);
  }

  lemma BodyHandlerKeeps(s: Server, h: Handler)
    requires Resting(s) && h.BodyHandler? && Proper(h)
    ensures Clear(s, StepsOf(h)) && Resting(RunFrom(s, StepsOf(h)))
  {
    FiveParts(s, BodyWritten(0), h.before, Commit, h.after, StartWrite);
    var t := CheckPart(s, h.before);
    CommitPart(t, h.after);
  }

  lemma CheckPart(s: Server, before: seq<Step>) returns (t: Server)
    requires Resting(s) && OthersOnly(before)
    ensures Clear(Next(s, BodyWritten(0)), before)
    ensures t == RunFrom(Next(s, BodyWritten(0)), before) && Calm(t) && HalfWay(t)
  {
    BodyHalfWay(s);
    NextKeeps(s, BodyWritten(0));
    OthersRun(Next(s, BodyWritten(0)), before);
    t := RunFrom(Next(s, BodyWritten(0)), before);
  }

  lemma CommitPart(t: Server, after: seq<Step>)
    requires Calm(t) && HalfWay(t) && OthersOnly(after)
    ensures Clear(Next(t, Commit), after) && Resting(Next(RunFrom(Next(t, Commit), after), StartWrite))
  {
    CommitFree(t);
    NextKeeps(t, Commit);
    LastPart(Next(t, Commit), after);
  }

  lemma HandlerKeeps(s: Server, h: Handler)
    requires Resting(s) && Proper(h)
    ensures Clear(s, StepsOf(h)) && Resting(RunFrom(s, StepsOf(h)))
  {
    match h
    case BodyRead(_, _, _, _, _) => BodyReadKeeps(s, h);
    case HeadHandler => HeadHandlerKeeps(s);
    case BodyHandler(_, _) => BodyHandlerKeeps(s, h);
    case Elsewhere(step) =>
      OneStep(s, step);
      NextKeeps(s, step);
      OthersStep(s, step);
  }

  lemma HeadHandlerKeeps(s: Server)
    requires Resting(s)
    ensures Clear(s, [HeadWritten(0)]) && Resting(RunFrom(s, [HeadWritten(0)]))
  {
    OneStep(s, HeadWritten(0));
    NextKeeps(s, HeadWritten(0));
    assert Free(Next(s, HeadWritten(0)), 0) && Next(s, HeadWritten(0)).hand == None;
  }

  lemma {:induction false} SerialRests(hs: seq<Handler>)
    requires forall i :: 0 <= i < |hs| ==> Proper(hs[i])
    ensures Clear(Init, Flat(hs)) && Resting(RunFrom(Init, Flat(hs)))
    decreases |hs|
  {
    if hs != [] {
      var past, h := hs[..|hs| - 1], hs[|hs| - 1];
      SerialRests(past);
      HandlerKeeps(RunFrom(Init, Flat(past)), h);
      Chained(Init, Flat(past), StepsOf(h));
    } else {
      InitRests();
    }
  }

  lemma InitRests()
    ensures Resting(Init)
  {
    assert Parts([]) + [] == [];
  }

  lemma ClearNeverCrosses(steps: seq<Step>)
    requires Clear(Init, steps)
    ensures NeverCrosses(steps, |steps|)
  {
    forall k | 0 <= k < |steps| && Enabled(At(steps, k), steps[k]) ensures !Crosses(At(steps, k), steps[k]) {
      ClearAt(steps, k);
    }
  }

  lemma ClearAt(steps: seq<Step>, k: nat)
    requires Clear(Init, steps) && k < |steps| && Enabled(At(steps, k), steps[k])
    ensures !Crosses(At(steps, k), steps[k])
  {
    assert steps[..k] + steps[k..] == steps;
    Chained(Init, steps[..k], steps[k..]);
    FromStart(steps[..k]);
  }

  /** The messages in the queue. */
  function Waiting(s: Server): (bs: seq<Bytes>)
    ensures |bs| == |s.queue|
  {
    seq(|s.queue|, i requires 0 <= i < |s.queue| => Content(s, s.queue[i]))
  }

  /** The bodies that the client sends. */
  function SentBy(hs: seq<Handler>): (bs: seq<Bytes>) {
    if hs == [] then []
    else SentBy(hs[..|hs| - 1]) + if hs[|hs| - 1].BodyRead? then [hs[|hs| - 1].data] else []
  }

  /** Every new message gets a handle that is not in use, as memory that is allocated is. */
  predicate FreshHandles(hs: seq<Handler>) {
    forall k :: 0 <= k < |hs| && hs[k].BodyRead? ==> !InUse(RunFrom(Init, Flat(hs[..k])), hs[k].h)
  }

  /** One thread and no broadcasts are enough. Whenever no handler is running, exactly one write is outstanding if
      messages wait, and none otherwise; what has been written in full, followed by what waits, are the bodies
      that the client has sent, unchanged, each once and in order; and what has been put on the wire is a head
      and a body for each of the former, and of the front message the head if its body is being written. */
  lemma SerialEcho(hs: seq<Handler>)
    requires forall i :: 0 <= i < |hs| ==> Proper(hs[i])
    requires FreshHandles(hs)
    ensures NeverCrosses(Flat(hs), |Flat(hs)|)
    ensures var s := Run(Flat(hs));
            && |s.outstanding| == (if s.queue == [] then 0 else 1)
            && SentBy(hs) == Gone(s) + Waiting(s)
            && WrittenIn(Flat(hs)) == Parts(Gone(s)) + Current(s)
  {
    SerialRests(hs);
    FromStart(Flat(hs));
    ClearNeverCrosses(Flat(hs));
    RestingEcho(Run(Flat(hs)));
    HistoriesAre(Flat(hs));
    SentIsReceived(hs);
  }

  /** When nothing is outstanding, everything that the client has sent has been sent back. */
  lemma SerialEchoEnds(hs: seq<Handler>)
    requires forall i :: 0 <= i < |hs| ==> Proper(hs[i])
    requires FreshHandles(hs) && Run(Flat(hs)).outstanding == []
    ensures WrittenIn(Flat(hs)) == Parts(SentBy(hs))
  {
    SerialEcho(hs);
    var s := Run(Flat(hs));
    assert Waiting(s) == [] && Current(s) == [];
    assert Gone(s) + [] == Gone(s) && Parts(Gone(s)) + [] == Parts(Gone(s));
  }

  lemma {:induction false} SentIsReceived(hs: seq<Handler>)
    requires forall i :: 0 <= i < |hs| ==> Proper(hs[i])
    requires FreshHandles(hs)
    ensures RunFrom(Init, Flat(hs)).received == SentBy(hs)
    decreases |hs|
  {
    if hs != [] {
      var past, h := hs[..|hs| - 1], hs[|hs| - 1];
      forall k | 0 <= k < |past| ensures hs[..k] == past[..k] && hs[k] == past[k] {
      }
      SentIsReceived(past);
      SerialRests(past);
      Chained(Init, Flat(past), StepsOf(h));
      HandlerReads(RunFrom(Init, Flat(past)), h);
    }
  }

  lemma HandlerReads(s: Server, h: Handler)
    requires Resting(s) && Proper(h) && (h.BodyRead? ==> !InUse(s, h.h))
    ensures RunFrom(s, StepsOf(h)).received == s.received + if h.BodyRead? then [h.data] else []
  {
    match h
    case BodyRead(data, m, reuse, before, after) =>
      var x := Receive(data, m, reuse);
      FiveParts(s, x, before, PushEcho, after, StartWrite);
      OnlyReads(Next(s, x), before);
      var t := RunFrom(Next(s, x), before);
      OnlyReads(Next(t, PushEcho), after);
      NextReads(s, x);
      NextReads(t, PushEcho);
      NextReads(RunFrom(Next(t, PushEcho), after), StartWrite);
    case HeadHandler =>
      OneStep(s, HeadWritten(0));
      NextReads(s, HeadWritten(0));
    case BodyHandler(before, after) =>
      FiveParts(s, BodyWritten(0), before, Commit, after, StartWrite);
      OnlyReads(Next(s, BodyWritten(0)), before);
      var t := RunFrom(Next(s, BodyWritten(0)), before);
      OnlyReads(Next(t, Commit), after);
      NextReads(s, BodyWritten(0));
      NextReads(t, Commit);
      NextReads(RunFrom(Next(t, Commit), after), StartWrite);
    case Elsewhere(step) =>
      OneStep(s, step);
      NextReads(s, step);
  }

  lemma NextReads(s: Server, step: Step)
    ensures Next(s, step).received == s.received + if Enabled(s, step) then ReadBy(step) else []
  {
    if Enabled(s, step) {
      HistoryStep(s, step);
    }
  }

  lemma {:induction false} OnlyReads(s: Server, steps: seq<Step>)
    requires OthersOnly(steps)
    ensures RunFrom(s, steps).received == s.received
    decreases |steps|
  {
    if steps != [] {
      NextReads(s, steps[0]);
      OnlyReads(Next(s, steps[0]), steps[1..]);
    }
  }

  lemma RestingEcho(s: Server)
    requires Resting(s)
    ensures |s.outstanding| == if s.queue == [] then 0 else 1
    ensures s.received == Gone(s) + Waiting(s)
  {
    QueueIsRest(s);
  }

  lemma QueueIsRest(s: Server)
    requires Queued(s) && AllEnter(s) && s.hand == None && forall e :: e in s.entered ==> e.echo
    ensures s.received == Gone(s) + Waiting(s)
  {
    AllEchoed(s.entered);
    assert Echoed(s.entered) + [] == Echoed(s.entered);
    var n := |s.entered| - |s.queue|;
    forall i | 0 <= i < |s.queue| ensures Waiting(s)[i] == Bodies(s.entered)[n + i] {
    }
  }

  // ---------------------------------------------------------------- and otherwise

  /** Two messages are broadcast; the second push comes after the first message has left the queue. */
  lemma CrossingHappens() returns (steps: seq<Step>, step: Step)
    ensures Enabled(Run(steps), step) && Crosses(Run(steps), step)
    ensures |Rushed(Next(Run(steps), step)).outstanding| > 1
  {
    var early := [OtherNew(0, []), OtherNew(1, []), PushOther(0), StartWrite];
    var late := [HeadWritten(0), BodyWritten(0), Commit];
    var s := FirstBroadcast(early);
    LastPop(s, late);
    steps, step := early + late, PushOther(1);
    FromStart(steps);
    Chained(Init, early, late);
    CrossingDoubles(Run(steps), step);
  }

  lemma {:induction false} FromStart(steps: seq<Step>)
    ensures Run(steps) == RunFrom(Init, steps)
    decreases |steps|
  {
    if steps != [] {
      var front := steps[..|steps| - 1];
      FromStart(front);
      Chained(Init, front, [steps[|steps| - 1]]);
      OneStep(RunFrom(Init, front), steps[|steps| - 1]);
      assert front + [steps[|steps| - 1]] == steps;
    }
  }

  lemma FirstBroadcast(early: seq<Step>) returns (s: Server)
    requires early == [OtherNew(0, []), OtherNew(1, []), PushOther(0), StartWrite]
    ensures s == RunFrom(Init, early)
    ensures s.queue == [0] && 1 in s.theirs && s.outstanding == [HeadOf(0)] && s.starters == 0 && !s.releasing
    ensures s.pool == [] && SizeOf(s, 0) == 0
  {
    Chained(Init, early[..2], early[2..]);
    assert early[..2] + early[2..] == early;
    var two := TwoMessages(early[..2]);
    s := PushFirst(two, early[2..]);
  }

  lemma TwoMessages(steps: seq<Step>) returns (s: Server)
    requires steps == [OtherNew(0, []), OtherNew(1, [])]
    ensures s == RunFrom(Init, steps) && s == Init.(theirs := s.theirs, body := s.body, size := s.size)
    ensures s.theirs == {0, 1} && SizeOf(s, 0) == 0
  {
    var one := Next(Init, steps[0]);
    s := Next(one, steps[1]);
    assert one.theirs == {0};
    assert steps[1..][1..] == [] && RunFrom(one, steps[1..]) == s;
  }

  lemma PushFirst(s: Server, steps: seq<Step>) returns (t: Server)
    requires steps == [PushOther(0), StartWrite] && s == Init.(theirs := s.theirs, body := s.body, size := s.size)
    requires s.theirs == {0, 1} && SizeOf(s, 0) == 0
    ensures t == RunFrom(s, steps)
    ensures t.queue == [0] && 1 in t.theirs && t.outstanding == [HeadOf(0)] && t.starters == 0 && !t.releasing
    ensures t.pool == [] && SizeOf(t, 0) == 0
  {
    var pushed := Next(s, steps[0]);
    t := Next(pushed, steps[1]);
    assert pushed.queue == [0] && pushed.starters == 1;
    assert steps[1..][1..] == [] && RunFrom(pushed, steps[1..]) == t;
  }

  lemma LastPop(s: Server, late: seq<Step>)
    requires late == [HeadWritten(0), BodyWritten(0), Commit]
    requires s.queue == [0] && 1 in s.theirs && s.outstanding == [HeadOf(0)] && !s.releasing
    requires s.pool == [] && SizeOf(s, 0) == 0
    ensures var t := RunFrom(s, late); t.queue == [] && 1 in t.theirs && t.starters > 0 && !t.releasing
  {
    var s1 := Next(s, late[0]);
    assert Without(s.outstanding, 0) == [] && s1.outstanding == [BodyOf(0)];
    var s2 := Next(s1, late[1]);
    assert s2.releasing;
    var s3 := Next(s2, late[2]);
    assert RunFrom(s2, late[2..]) == s3;
    assert late[1..][1..] == late[2..];
  }
}
