/** The pool that owns the sockets: the live set, the list of closed objects ordered by time, reuse and
    freeing. */
module ObjectPool {

  const MAX_OBJECT_NUM: nat := 4096

  /** Seconds after which a closed object may be freed or reused. */
  const CLOSED_SOCKET_MAX_DURATION: int := 5

  /** The identity of an object, as opposed to the id it carries. */
  type Obj = nat

  datatype Closed = Closed(at: int, obj: Obj)

  predicate IsTimeout(e: Closed, now: int) {
    e.at <= now - CLOSED_SOCKET_MAX_DURATION
  }

  /** `idle` are the objects that nobody else holds and that are obsoleted. */
  predicate Eligible(e: Closed, now: int, idle: set<Obj>) {
    IsTimeout(e, now) && e.obj in idle
  }

  ghost predicate Sorted(s: seq<Closed>) {
    forall i, j :: 0 <= i < j < |s| ==> s[i].at <= s[j].at
  }

  // ---------------------------------------------------------------- full scans

  /** The reference for freeing: goes through the whole list and drops the first `num` eligible entries. */
  function Freed(s: seq<Closed>, num: nat, now: int, idle: set<Obj>): (t: seq<Closed>) {
    if s == [] || num == 0 then s
    else if Eligible(s[0], now, idle) then Freed(s[1..], num - 1, now, idle)
    else [s[0]] + Freed(s[1..], num, now, idle)
  }

  function Count(s: seq<Closed>, now: int, idle: set<Obj>): (n: nat)
    ensures n <= |s|
  {
    if s == [] then 0 else (if Eligible(s[0], now, idle) then 1 else 0) + Count(s[1..], now, idle)
  }

  /** What freeing leaves: a list that was cut in two, all eligible entries gone from the first part, nothing
      from the second; and the first part held `num` of them, or the second holds none. */
  function Keep(s: seq<Closed>, now: int, idle: set<Obj>): (t: seq<Closed>)
    ensures forall e :: e in t <==> e in s && !Eligible(e, now, idle)
  {
    if s == [] then []
    else if Eligible(s[0], now, idle) then Keep(s[1..], now, idle)
    else [s[0]] + Keep(s[1..], now, idle)
  }

  lemma {:induction false} FreedCut(s: seq<Closed>, num: nat, now: int, idle: set<Obj>) returns (cut: nat)
    ensures cut <= |s|
    ensures Freed(s, num, now, idle) == Keep(s[..cut], now, idle) + s[cut..]
    ensures Count(s[..cut], now, idle) == if num <= Count(s, now, idle) then num else Count(s, now, idle)
    ensures Count(s, now, idle) < num ==> cut == |s|
  {
    if s == [] || num == 0 {
      cut := 0;
    } else {
      var e := Eligible(s[0], now, idle);
      var c := FreedCut(s[1..], if e then num - 1 else num, now, idle);
      cut := c + 1;
      assert s[..cut][1..] == s[1..][..c];
      assert s[1..][c..] == s[cut..];
    }
  }

  /** With a number no smaller than the list, exactly the eligible entries go. */
  lemma {:induction false} FreedAll(s: seq<Closed>, num: nat, now: int, idle: set<Obj>)
    requires num >= |s|
    ensures Freed(s, num, now, idle) == Keep(s, now, idle)
  {
    if s != [] {
      FreedAll(s[1..], if Eligible(s[0], now, idle) then num - 1 else num, now, idle);
    }
  }

  /** An entry that may go: closed five seconds ago or more, and nobody needs the object any more. */
  predicate MayGo(e: Closed, now: int, idle: set<Obj>) {
    now - e.at >= 5 && e.obj in idle
  }

  lemma EligibleIs(e: Closed, now: int, idle: set<Obj>)
    ensures Eligible(e, now, idle) <==> MayGo(e, now, idle)
  {
  }

  /** `Keep` and `Count` go through the list entry by entry. */
  lemma {:induction false} KeepAppend(a: seq<Closed>, b: seq<Closed>, now: int, idle: set<Obj>)
    ensures Keep(a + b, now, idle) == Keep(a, now, idle) + Keep(b, now, idle)
  {
    if a == [] {
      assert a + b == b;
    } else {
      KeepAppend(a[1..], b, now, idle);
      assert a + b == [a[0]] + (a[1..] + b);
      Regroup([a[0]], Keep(a[1..], now, idle), Keep(b, now, idle));
    }
  }

  lemma Regroup(x: seq<Closed>, y: seq<Closed>, z: seq<Closed>)
    ensures x + (y + z) == (x + y) + z
  {
  }

  lemma {:induction false} CountAppend(a: seq<Closed>, b: seq<Closed>, now: int, idle: set<Obj>)
    ensures Count(a + b, now, idle) == Count(a, now, idle) + Count(b, now, idle)
  {
    if a == [] {
      assert a + b == b;
    } else {
      CountAppend(a[1..], b, now, idle);
      assert (a + b)[1..] == a[1..] + b;
    }
  }

  lemma {:induction false} KeepCounts(s: seq<Closed>, now: int, idle: set<Obj>)
    ensures |Keep(s, now, idle)| + Count(s, now, idle) == |s|
  {
    if s != [] {
      KeepCounts(s[1..], now, idle);
    }
  }

  lemma KeepOne(e: Closed, now: int, idle: set<Obj>)
    ensures Keep([e], now, idle) == (if MayGo(e, now, idle) then [] else [e])
    ensures Count([e], now, idle) == if MayGo(e, now, idle) then 1 else 0
  {
    assert [e][1..] == [];
  }

  /** Nothing goes that may not, and no more than the number; and if fewer go, all go that may. */
  lemma FreedOnly(s: seq<Closed>, num: nat, now: int, idle: set<Obj>)
    ensures var t := Freed(s, num, now, idle);
            && (forall e :: e in s && !MayGo(e, now, idle) ==> e in t)
            && |t| <= |s| <= |t| + num
            && (|s| < |t| + num ==> forall e :: e in t ==> !MayGo(e, now, idle))
  {
    var cut := FreedCut(s, num, now, idle);
    assert s == s[..cut] + s[cut..];
    KeepCounts(s[..cut], now, idle);
    if |s| < |Freed(s, num, now, idle)| + num {
      assert cut == |s|;
      assert s[cut..] == [];
    }
  }

  lemma {:induction false} FreedPrefix(s: seq<Closed>, i: nat, num: nat, now: int, idle: set<Obj>)
    requires i <= |s| && forall k :: 0 <= k < i ==> !Eligible(s[k], now, idle)
    ensures Freed(s, num, now, idle) == s[..i] + Freed(s[i..], num, now, idle)
  {
    if i == 0 {
      assert s[0..] == s;
    } else {
      FreedPrefix(s[1..], i - 1, num, now, idle);
      assert s[1..][i - 1..] == s[i..];
      assert s[..i] == [s[0]] + s[1..][..i - 1];
    }
  }

  lemma {:induction false} FreedNothing(s: seq<Closed>, num: nat, now: int, idle: set<Obj>)
    requires forall k :: 0 <= k < |s| ==> !Eligible(s[k], now, idle)
    ensures Freed(s, num, now, idle) == s
  {
    FreedPrefix(s, |s|, num, now, idle);
    assert s[|s|..] == [] && s[..|s|] + [] == s;
  }

  /** The reference for reuse: the first eligible entry of the whole list, or the length of the list. */
  function FirstEligible(s: seq<Closed>, now: int, idle: set<Obj>): (i: nat)
    ensures i <= |s|
    ensures i < |s| ==> Eligible(s[i], now, idle)
    ensures forall k :: 0 <= k < i ==> !Eligible(s[k], now, idle)
  {
    if s == [] || Eligible(s[0], now, idle) then 0 else 1 + FirstEligible(s[1..], now, idle)
  }

  function Without(s: seq<Closed>, i: nat): (t: seq<Closed>)
    requires i < |s|
  {
    s[..i] + s[i + 1..]
  }

  // ---------------------------------------------------------------- the pool

  datatype Pool = Pool(
    live: map<nat, Obj>,     // object_can, by id
    closed: seq<Closed>,     // temp_object_can
    moving: set<Obj>,        // taken out of the one and not yet put into the other
    loose: set<Obj>,         // created, in the hands of a caller
    unnamed: set<Obj>,       // made or taken for reuse, id not assigned yet
    ids: map<Obj, nat>,      // the id each object carries
    nextId: nat,
    now: int)

  datatype PoolStep =
    | Tick(now: int)
    | Make(o: Obj)
    | Reuse(idle: set<Obj>)
    | Name(o: Obj)
    | AddObject(o: Obj)
    | Drop(o: Obj)
    | EraseLive(o: Obj)               // the first half of del_object; several in a row: of clear_all_closed_object
    | PushClosed(o: Obj)              // the second half of both
    | FreeObjects(num: nat, idle: set<Obj>)
    | PopClosed(i: nat)

  const PoolInit := Pool(map[], [], {}, {}, {}, map[], 0, 0)

  predicate PoolEnabled(p: Pool, step: PoolStep) {
    match step
    case Tick(now) => p.now <= now
    case Make(o) => o !in p.ids && o !in p.unnamed
    case Reuse(idle) => true
    case Name(o) => o in p.unnamed
    case AddObject(o) => o in p.loose && o in p.ids
    case Drop(o) => o in p.loose
    case EraseLive(o) => o in p.ids
    case PushClosed(o) => o in p.moving
    case FreeObjects(_, _) => true
    case PopClosed(i) => i < |p.closed|
  }

  /** Adds the object if there is room and no object with its id. */
  function Added(p: Pool, o: Obj): (p': Pool)
    requires o in p.ids
  {
    if |p.live| < MAX_OBJECT_NUM && p.ids[o] !in p.live
    then p.(live := p.live[p.ids[o] := o], loose := p.loose - {o})
    else p
  }

  function Reused(p: Pool, idle: set<Obj>): (p': Pool) {
    var i := FirstEligible(p.closed, p.now, idle);
    if i < |p.closed| then p.(closed := Without(p.closed, i), unnamed := p.unnamed + {p.closed[i].obj}) else p
  }

  /** The erased element is found by id; what moves is the object that was asked for. */
  function Erased(p: Pool, o: Obj): (p': Pool)
    requires o in p.ids
  {
    if p.ids[o] in p.live then p.(live := p.live - {p.ids[o]}, moving := p.moving + {o}) else p
  }

  function PoolApply(p: Pool, step: PoolStep): (p': Pool)
    requires PoolEnabled(p, step)
  {
    match step
    case Tick(now) => p.(now := now)
    case Make(o) => p.(unnamed := p.unnamed + {o})
    case Reuse(idle) => Reused(p, idle)
    case Name(o) =>
      p.(ids := p.ids[o := p.nextId], nextId := p.nextId + 1, unnamed := p.unnamed - {o}, loose := p.loose + {o})
    case AddObject(o) => Added(p, o)
    case Drop(o) => p.(loose := p.loose - {o})
    case EraseLive(o) => Erased(p, o)
    case PushClosed(o) => p.(closed := p.closed + [Closed(p.now, o)], moving := p.moving - {o})
    case FreeObjects(num, idle) => p.(closed := Freed(p.closed, num, p.now, idle))
    case PopClosed(i) => p.(closed := Without(p.closed, i), loose := p.loose + {p.closed[i].obj})
  }

  // ---------------------------------------------------------------- the invariant

  ghost predicate Distinct(s: seq<Closed>) {
    forall i, j :: 0 <= i < j < |s| ==> s[i].obj != s[j].obj
  }

  ghost predicate Listed(s: seq<Closed>, o: Obj) {
    exists i :: 0 <= i < |s| && s[i].obj == o
  }

  /** Ids: every object that carries one carries its own, below the next id; the live set is keyed by them. */
  ghost predicate Named(p: Pool) {
    && (forall o, q :: o in p.ids && q in p.ids && o != q ==> p.ids[o] != p.ids[q])
    && (forall o :: o in p.ids ==> p.ids[o] < p.nextId)
    && (forall k :: k in p.live ==> p.live[k] in p.ids && p.ids[p.live[k]] == k)
    && (forall o :: o in p.moving || o in p.loose ==> o in p.ids)
    && (forall i :: 0 <= i < |p.closed| ==> p.closed[i].obj in p.ids)
  }

  ghost predicate IsLive(live: map<nat, Obj>, ids: map<Obj, nat>, o: Obj) {
    o in ids && ids[o] in live
  }

  /** Partition: an object is in one place only, and in the closed list once. */
  ghost predicate Apart(p: Pool) {
    && Distinct(p.closed)
    && (forall o :: o in p.moving ==>
          !Listed(p.closed, o) && o !in p.loose && o !in p.unnamed && !IsLive(p.live, p.ids, o))
    && (forall o :: o in p.loose ==> !Listed(p.closed, o) && o !in p.unnamed && !IsLive(p.live, p.ids, o))
    && (forall o :: o in p.unnamed ==> !Listed(p.closed, o) && !IsLive(p.live, p.ids, o))
    && (forall i :: 0 <= i < |p.closed| ==> !IsLive(p.live, p.ids, p.closed[i].obj))
  }

  ghost predicate Timely(p: Pool) {
    && Sorted(p.closed)
    && (forall i :: 0 <= i < |p.closed| ==> p.closed[i].at <= p.now)
    && |p.live| <= MAX_OBJECT_NUM
  }

  ghost predicate PoolInv(p: Pool) {
    Named(p) && Apart(p) && Timely(p)
  }

  /** A list that keeps the order of another and repeats nothing. */
  ghost predicate Sublist(t: seq<Closed>, s: seq<Closed>) {
    && (Sorted(s) ==> Sorted(t))
    && (Distinct(s) ==> Distinct(t))
    && (forall i :: 0 <= i < |t| ==> t[i] in s)
  }

  lemma TailSublist(t: seq<Closed>, s: seq<Closed>)
    requires s != [] && Sublist(t, s[1..])
    ensures Sublist(t, s)
  {
  }

  lemma HeadSublist(t: seq<Closed>, s: seq<Closed>)
    requires s != [] && Sublist(t, s[1..])
    ensures Sublist([s[0]] + t, s)
  {
    var u := [s[0]] + t;
    forall i | 1 <= i < |u| ensures exists k :: 1 <= k < |s| && s[k] == u[i] {
      assert t[i - 1] in s[1..];
      var k :| 0 <= k < |s[1..]| && s[1..][k] == t[i - 1];
      assert s[k + 1] == u[i];
    }
  }

  lemma {:induction false} FreedSublist(s: seq<Closed>, num: nat, now: int, idle: set<Obj>)
    ensures Sublist(Freed(s, num, now, idle), s)
  {
    if s != [] && num != 0 {
      var left := if Eligible(s[0], now, idle) then num - 1 else num;
      FreedSublist(s[1..], left, now, idle);
      TailSublist(Freed(s[1..], left, now, idle), s);
      HeadSublist(Freed(s[1..], left, now, idle), s);
    }
  }

  lemma WithoutSublist(s: seq<Closed>, i: nat)
    requires i < |s|
    ensures Sublist(Without(s, i), s)
    ensures Distinct(s) ==> !Listed(Without(s, i), s[i].obj)
  {
  }

  lemma WithoutSorted(s: seq<Closed>, i: nat)
    requires i < |s| && Sorted(s)
    ensures Sorted(Without(s, i)) && |Without(s, i)| == |s| - 1
  {
  }

  lemma SublistKeeps(p: Pool, t: seq<Closed>)
    requires PoolInv(p) && Sublist(t, p.closed)
    ensures PoolInv(p.(closed := t))
    ensures forall o :: Listed(t, o) ==> Listed(p.closed, o)
  {
    var p' := p.(closed := t);
    forall o | Listed(t, o) ensures Listed(p.closed, o) {
      var i :| 0 <= i < |t| && t[i].obj == o;
      assert t[i] in p.closed;
      var k :| 0 <= k < |p.closed| && p.closed[k] == t[i];
    }
    forall i | 0 <= i < |t| ensures t[i].obj in p.ids && !IsLive(p'.live, p'.ids, t[i].obj) && t[i].at <= p.now {
      assert t[i] in p.closed;
      var k :| 0 <= k < |p.closed| && p.closed[k] == t[i];
    }
  }

  /** Nothing in the live set has moved: what was live is live, and nothing else. */
  ghost predicate SameLive(p: Pool, p': Pool) {
    forall o :: IsLive(p'.live, p'.ids, o) <==> IsLive(p.live, p.ids, o)
  }

  lemma NameLive(p: Pool, o: Obj)
    requires Named(p) && Apart(p) && o in p.unnamed
    ensures SameLive(p, PoolApply(p, Name(o)))
    ensures Named(PoolApply(p, Name(o)))
  {
    assert p.nextId !in p.live;
    assert !IsLive(p.live, p.ids, o);
  }

  lemma NameKeeps(p: Pool, o: Obj)
    requires PoolInv(p) && o in p.unnamed
    ensures PoolInv(PoolApply(p, Name(o)))
  {
    NameLive(p, o);
    assert !Listed(p.closed, o) && o !in p.moving && o !in p.loose;
  }

  lemma AddKeeps(p: Pool, o: Obj)
    requires PoolInv(p) && o in p.loose
    ensures PoolInv(Added(p, o))
  {
    var p' := Added(p, o);
    forall q | q != o ensures IsLive(p'.live, p'.ids, q) <==> IsLive(p.live, p.ids, q) {
    }
  }

  lemma EraseLiveSame(p: Pool, o: Obj)
    requires Named(p) && o in p.ids && p.ids[o] in p.live
    ensures p.live[p.ids[o]] == o
    ensures forall q :: IsLive(Erased(p, o).live, p.ids, q) <==> IsLive(p.live, p.ids, q) && q != o
    ensures Named(Erased(p, o))
  {
  }

  lemma EraseKeeps(p: Pool, o: Obj)
    requires PoolInv(p) && o in p.ids
    ensures PoolInv(Erased(p, o))
  {
    if p.ids[o] in p.live {
      EraseLiveSame(p, o);
      assert IsLive(p.live, p.ids, o);
      assert !Listed(p.closed, o) && o !in p.moving && o !in p.loose && o !in p.unnamed;
      var p' := Erased(p, o);
      assert Apart(p');
      Smaller(p'.live.Keys, p.live.Keys);
    }
  }

  lemma {:induction false} Smaller(a: set<nat>, b: set<nat>)
    requires a <= b
    ensures |a| <= |b|
  {
    if a != {} {
      var x :| x in a;
      Smaller(a - {x}, b - {x});
    }
  }

  lemma PushListed(s: seq<Closed>, e: Closed)
    ensures forall q :: Listed(s + [e], q) <==> Listed(s, q) || q == e.obj
    ensures Distinct(s) && !Listed(s, e.obj) ==> Distinct(s + [e])
  {
    var t := s + [e];
    forall q | Listed(s, q) || q == e.obj ensures Listed(t, q) {
      if q == e.obj {
        assert t[|s|].obj == q;
      } else {
        var i :| 0 <= i < |s| && s[i].obj == q;
        assert t[i].obj == q;
      }
    }
  }

  lemma PushKeeps(p: Pool, o: Obj)
    requires PoolInv(p) && o in p.moving
    ensures PoolInv(PoolApply(p, PushClosed(o)))
  {
    PushListed(p.closed, Closed(p.now, o));
  }

  lemma TakeKeeps(p: Pool, i: nat)
    requires PoolInv(p) && i < |p.closed|
    ensures var o := p.closed[i].obj; var t := Without(p.closed, i);
            PoolInv(p.(closed := t, unnamed := p.unnamed + {o})) && PoolInv(p.(closed := t, loose := p.loose + {o}))
  {
    var o, t := p.closed[i].obj, Without(p.closed, i);
    WithoutSublist(p.closed, i);
    SublistKeeps(p, t);
    assert Listed(p.closed, o) && !Listed(t, o) && !IsLive(p.live, p.ids, o);
    TakenKeeps(p.(closed := t), o);
  }

  lemma TakenKeeps(p: Pool, o: Obj)
    requires PoolInv(p) && o in p.ids && !Listed(p.closed, o) && !IsLive(p.live, p.ids, o)
    requires o !in p.moving && o !in p.loose && o !in p.unnamed
    ensures PoolInv(p.(unnamed := p.unnamed + {o})) && PoolInv(p.(loose := p.loose + {o}))
  {
  }

  lemma TickKeeps(p: Pool, now: int)
    requires PoolInv(p) && p.now <= now
    ensures PoolInv(p.(now := now))
  {
  }

  lemma DropKeeps(p: Pool, o: Obj)
    requires PoolInv(p)
    ensures PoolInv(p.(loose := p.loose - {o}))
  {
  }

  lemma MakeKeeps(p: Pool, o: Obj)
    requires PoolInv(p) && o !in p.ids && o !in p.unnamed
    ensures PoolInv(p.(unnamed := p.unnamed + {o}))
  {
    assert !Listed(p.closed, o);
  }

  lemma PoolStepKeeps(p: Pool, step: PoolStep)
    requires PoolInv(p) && PoolEnabled(p, step)
    ensures PoolInv(PoolApply(p, step))
  {
    match step
    case Tick(now) => TickKeeps(p, now);
    case Make(o) => MakeKeeps(p, o);
    case Reuse(idle) =>
      var i := FirstEligible(p.closed, p.now, idle);
      if i < |p.closed| {
        TakeKeeps(p, i);
      } else {
        assert PoolApply(p, step) == p;
      }
    case Name(o) => NameKeeps(p, o);
    case AddObject(o) => AddKeeps(p, o);
    case Drop(o) => DropKeeps(p, o);
    case EraseLive(o) => EraseKeeps(p, o);
    case PushClosed(o) => PushKeeps(p, o);
    case FreeObjects(num, idle) =>
      FreedSublist(p.closed, num, p.now, idle);
      SublistKeeps(p, Freed(p.closed, num, p.now, idle));
    case PopClosed(i) => TakeKeeps(p, i);
  }

  /** The object is somewhere: live, closed, on its way there, in the hands of a caller, or about to be. */
  ghost predicate Present(p: Pool, o: Obj) {
    IsLive(p.live, p.ids, o) || Listed(p.closed, o) || o in p.moving || o in p.loose || o in p.unnamed
  }

  /** The step ends the object's life: its last holder lets go of it, or it is freed in time. */
  ghost predicate Ends(p: Pool, step: PoolStep, o: Obj) {
    || step == Drop(o)
    || (step.FreeObjects? &&
          exists i :: 0 <= i < |p.closed| && p.closed[i].obj == o && MayGo(p.closed[i], p.now, step.idle))
  }

  /** No object gets lost on its way: one that is somewhere stays somewhere, unless its life ends. */
  lemma NothingVanishes(p: Pool, step: PoolStep, o: Obj)
    requires PoolInv(p) && PoolEnabled(p, step) && Present(p, o) && !Ends(p, step, o)
    ensures Present(PoolApply(p, step), o)
  {
    match step
    case FreeObjects(num, idle) =>
      FreedOnly(p.closed, num, p.now, idle);
      if Listed(p.closed, o) {
        var i :| 0 <= i < |p.closed| && p.closed[i].obj == o;
        assert p.closed[i] in Freed(p.closed, num, p.now, idle);
      }
    case PushClosed(q) => PushListed(p.closed, Closed(p.now, q));
    case Reuse(idle) =>
      if FirstEligible(p.closed, p.now, idle) < |p.closed| {
        WithoutListed(p.closed, FirstEligible(p.closed, p.now, idle), o);
      }
    case PopClosed(i) => WithoutListed(p.closed, i, o);
    case EraseLive(q) => ErasedStays(p, q, o);
    case Name(q) => NamedStays(p, q, o);
    case _ =>
  }

  lemma WithoutListed(s: seq<Closed>, i: nat, o: Obj)
    requires i < |s|
    ensures Listed(s, o) ==> Listed(Without(s, i), o) || s[i].obj == o
  {
    if Listed(s, o) && s[i].obj != o {
      var k :| 0 <= k < |s| && s[k].obj == o;
      assert Without(s, i)[if k < i then k else k - 1].obj == o;
    }
  }

  lemma ErasedStays(p: Pool, q: Obj, o: Obj)
    requires PoolInv(p) && q in p.ids && Present(p, o)
    ensures Present(Erased(p, q), o)
  {
    if p.ids[q] in p.live {
      EraseLiveSame(p, q);
    }
  }

  lemma NamedStays(p: Pool, q: Obj, o: Obj)
    requires PoolInv(p) && q in p.unnamed && Present(p, o)
    ensures Present(PoolApply(p, Name(q)), o)
  {
    NameLive(p, q);
  }

  /** Where it goes: to the live set if there is room, out of it, to the end of the closed list with the time of
      day, or back to a caller; and a name is a number that was never used. */
  lemma Moves(p: Pool, step: PoolStep)
    requires PoolInv(p) && PoolEnabled(p, step)
    ensures var p' := PoolApply(p, step);
            match step
            case AddObject(o) => IsLive(p'.live, p'.ids, o) <==> |p.live| < 4096
            case EraseLive(o) => !IsLive(p'.live, p'.ids, o) && (IsLive(p.live, p.ids, o) ==> o in p'.moving)
            case PushClosed(o) => p'.closed == p.closed + [Closed(p.now, o)]
            case Name(o) => o in p'.loose && o in p'.ids && forall q :: q in p.ids ==> p.ids[q] < p'.ids[o]
            case PopClosed(i) => p.closed[i].obj in p'.loose
            case _ => true
  {
    match step
    case EraseLive(o) =>
      if p.ids[o] in p.live {
        EraseLiveSame(p, o);
      }
    case _ =>
  }

  function PoolRun(steps: seq<PoolStep>): (p: Pool)
    decreases |steps|
  {
    if steps == [] then PoolInit
    else
      var before, step := PoolRun(steps[..|steps| - 1]), steps[|steps| - 1];
      if PoolEnabled(before, step) then PoolApply(before, step) else before
  }

  /** In every interleaving of the lock regions. */
  lemma {:induction false} PoolAlways(steps: seq<PoolStep>)
    ensures PoolInv(PoolRun(steps))
    decreases |steps|
  {
    if steps != [] {
      var prefix, step := steps[..|steps| - 1], steps[|steps| - 1];
      PoolAlways(prefix);
      if PoolEnabled(PoolRun(prefix), step) {
        PoolStepKeeps(PoolRun(prefix), step);
      }
    }
  }

  // ---------------------------------------------------------------- the lists in place

  /** Where the loop stops, the full scan would find nothing more. */
  lemma NothingLeft(s: seq<Closed>, i: nat, left: nat, now: int, idle: set<Obj>)
    requires Sorted(s) && i <= |s|
    requires left == 0 || i == |s| || !IsTimeout(s[i], now)
    ensures Outcome(s, i, left, now, idle) == s
  {
    if left > 0 {
      NoneLater(s, i, now, idle);
      FreedNothing(s[i..], left, now, idle);
    }
  }

  /** What a full scan that has come to position `i` would make of the list. */
  function Outcome(s: seq<Closed>, i: nat, left: nat, now: int, idle: set<Obj>): (t: seq<Closed>)
    requires i <= |s|
  {
    s[..i] + Freed(s[i..], left, now, idle)
  }

  /** One turn of the freeing loop, seen from the full scan. */
  lemma FreeTurn(s: seq<Closed>, i: nat, left: nat, now: int, idle: set<Obj>)
    requires i < |s| && left > 0
    ensures Outcome(s, i, left, now, idle) ==
              if Eligible(s[i], now, idle) then Outcome(Without(s, i), i, left - 1, now, idle)
              else Outcome(s, i + 1, left, now, idle)
  {
    assert s[i..][1..] == s[i + 1..];
    if Eligible(s[i], now, idle) {
      assert Without(s, i)[..i] == s[..i] && Without(s, i)[i..] == s[i + 1..];
    } else {
      assert s[..i + 1] == s[..i] + [s[i]];
    }
  }

  lemma FreeStart(s: seq<Closed>, num: nat, now: int, idle: set<Obj>)
    ensures Outcome(s, 0, num, now, idle) == Freed(s, num, now, idle)
  {
    assert s[0..] == s;
  }

  class StObjectPool {
    var objectCan: map<nat, Obj>
    var tempObjectCan: seq<Closed>

    /** Inserts the object under its id if there is room and the id is new. */
    method AddObject(o: Obj, id: nat) returns (added: bool)
      modifies this`objectCan
      ensures added <==> |old(objectCan)| < MAX_OBJECT_NUM && id !in old(objectCan)
      ensures objectCan == if added then old(objectCan)[id := o] else old(objectCan)
    {
      if |objectCan| >= MAX_OBJECT_NUM || id in objectCan {
        return false;
      }
      objectCan := objectCan[id := o];
      return true;
    }

    /** Without interference: an object that was live becomes the last closed one, any other stays as it is. */
    method DelObject(o: Obj, id: nat, now: int) returns (exist: bool)
      requires Sorted(tempObjectCan) && forall i :: 0 <= i < |tempObjectCan| ==> tempObjectCan[i].at <= now
      modifies this
      ensures exist <==> id in old(objectCan)
      ensures objectCan == old(objectCan) - {id}
      ensures tempObjectCan == if exist then old(tempObjectCan) + [Closed(now, o)] else old(tempObjectCan)
      ensures Sorted(tempObjectCan)
    {
      exist := id in objectCan;
      objectCan := objectCan - {id};
      if exist {
        PushBack(o, now);
      }
    }

    /** The loop: it stops when enough entries are gone, or at the first entry that has not timed out. */
    method Sweep(num: nat, now: int, idle: set<Obj>) returns (left: nat, iter: nat)
      requires Sorted(tempObjectCan)
      modifies this
      ensures Sorted(tempObjectCan) && iter <= |tempObjectCan|
      ensures left == 0 || iter == |tempObjectCan| || !IsTimeout(tempObjectCan[iter], now)
      ensures Outcome(tempObjectCan, iter, left, now, idle) == Freed(old(tempObjectCan), num, now, idle)
    {
      ghost var goal := Freed(tempObjectCan, num, now, idle);
      left, iter := num, 0;
      FreeStart(tempObjectCan, num, now, idle);
      while left > 0 && iter < |tempObjectCan| && IsTimeout(tempObjectCan[iter], now)
        invariant iter <= |tempObjectCan| && Sorted(tempObjectCan)
        invariant Outcome(tempObjectCan, iter, left, now, idle) == goal
        decreases |tempObjectCan| - iter
      {
        FreeTurn(tempObjectCan, iter, left, now, idle);
        if tempObjectCan[iter].obj in idle {
          WithoutSorted(tempObjectCan, iter);
          tempObjectCan := Without(tempObjectCan, iter);
          left := left - 1;
        } else {
          iter := iter + 1;
        }
      }
    }

    /** Thanks to the order by time, stopping early is the same as going through the whole list. */
    method FreeObject(num: nat, now: int, idle: set<Obj>)
      requires Sorted(tempObjectCan)
      modifies this
      ensures tempObjectCan == Freed(old(tempObjectCan), num, now, idle)
      ensures num >= |old(tempObjectCan)| ==> tempObjectCan == Keep(old(tempObjectCan), now, idle)
      ensures forall e :: e in old(tempObjectCan) && !(now - e.at >= 5 && e.obj in idle) ==> e in tempObjectCan
      ensures |tempObjectCan| <= |old(tempObjectCan)| <= |tempObjectCan| + num
      ensures |old(tempObjectCan)| < |tempObjectCan| + num ==>
                forall e :: e in tempObjectCan ==> !(now - e.at >= 5 && e.obj in idle)
    {
      FreedOnly(tempObjectCan, num, now, idle);
      if num == 0 {
        return;
      }
      ghost var was := tempObjectCan;
      var left, iter := Sweep(num, now, idle);
      NothingLeft(tempObjectCan, iter, left, now, idle);
      if num >= |was| {
        FreedAll(was, num, now, idle);
      }
    }

    /** Takes out the closed object that has waited longest among those that may be reused; none is found only
        if the whole list holds none. */
    method ReuseObject(now: int, idle: set<Obj>) returns (found: bool, o: Obj)
      requires Sorted(tempObjectCan)
      modifies this
      ensures found <==> exists e :: e in old(tempObjectCan) && MayGo(e, now, idle)
      ensures found ==> exists e :: e in old(tempObjectCan) && e.obj == o && now - e.at >= 5 && o in idle
      ensures var i := FirstEligible(old(tempObjectCan), now, idle);
              if found then
                && i < |old(tempObjectCan)| && o == old(tempObjectCan)[i].obj
                && tempObjectCan == Without(old(tempObjectCan), i)
              else i == |old(tempObjectCan)| && tempObjectCan == old(tempObjectCan)
      ensures found ==> forall e :: e in old(tempObjectCan) && Eligible(e, now, idle) ==>
                          old(tempObjectCan)[FirstEligible(old(tempObjectCan), now, idle)].at <= e.at
    {
      o := 0;
      var iter := 0;
      ghost var first := FirstEligible(tempObjectCan, now, idle);
      while iter < |tempObjectCan| && IsTimeout(tempObjectCan[iter], now)
        invariant 0 <= iter <= first && tempObjectCan == old(tempObjectCan)
        decreases |tempObjectCan| - iter
      {
        if tempObjectCan[iter].obj in idle {
          o := tempObjectCan[iter].obj;
          assert tempObjectCan[iter] in old(tempObjectCan) && MayGo(tempObjectCan[iter], now, idle);
          tempObjectCan := tempObjectCan[..iter] + tempObjectCan[iter + 1..];
          return true, o;
        }
        iter := iter + 1;
      }
      NoneLater(tempObjectCan, iter, now, idle);
      return false, o;
    }

    /** The new entry carries the time at which it is made, under the lock. */
    method PushBack(o: Obj, now: int)
      requires Sorted(tempObjectCan) && forall i :: 0 <= i < |tempObjectCan| ==> tempObjectCan[i].at <= now
      modifies this`tempObjectCan
      ensures tempObjectCan == old(tempObjectCan) + [Closed(now, o)] && Sorted(tempObjectCan)
    {
      tempObjectCan := tempObjectCan + [Closed(now, o)];
    }
  }

  /** In a sorted list nothing behind an entry that has not timed out is eligible. */
  lemma NoneLater(s: seq<Closed>, i: nat, now: int, idle: set<Obj>)
    requires Sorted(s) && i <= |s| && (i < |s| ==> !IsTimeout(s[i], now))
    ensures forall k :: i <= k < |s| ==> !Eligible(s[k], now, idle)
  {
  }
}
