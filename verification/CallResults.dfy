/**
 When calls succeed: an acquire or a reservation that comes back with nothing has met
 its reason during that very call, whatever all other actors did meanwhile.
 */
module CallResults {
  import opened Machine
  import opened BlockWords
  import opened BlockProtocol
  import opened BlockInvariants
  import opened BlockHistory
  import opened BlockSolo
  import opened BlockWitness
  import opened PoolProtocol

  // ----- acquire -----

  /** Actor `a` is inside a call of `acquire` for `uid`. */
  predicate InAcquire(s: Block, a: nat, uid: nat) {
    a < |s.actors| && Acquiring(s.actors[a]) && s.actors[a].uid == uid
  }

  /** Event `k` begins a call of `acquire` for `uid` that is still going on before event `m`. */
  predicate AcquireSince(init: Block, events: seq<Event>, a: nat, uid: nat, k: nat, m: nat)
    requires m <= |events|
  {
    && k < m && events[k] == Act(a, Acquire(uid))
    && a < |At(init, events, k).actors| && At(init, events, k).actors[a] == Idle
    && forall n :: k < n <= m ==> InAcquire(At(init, events, n), a, uid)
  }

  /** Event `n` is a step of actor `a` that finds another generation, or a full reference count. */
  predicate FindsObstacle(init: Block, events: seq<Event>, n: nat, a: nat, uid: nat) {
    && n < |events| && events[n].Act? && events[n].actor == a
    && (At(init, events, n).uid != uid || At(init, events, n).refcount == U32_MAX)
  }

  /** Actor `a` has seen an obstacle and is going to give up. */
  predicate GivingUp(pc: Pc) {
    pc.AcquireRollback? || (pc.AcquireCas? && pc.observed == U32_MAX)
  }

  lemma OwnAcquireStep(s: Block, a: nat, choice: Choice, uid: nat)
    requires InAcquire(s, a, uid)
    ensures
      var pc, pc' := s.actors[a], AcquireStep(s, a, choice).actors[a];
      && (pc' == Idle || GivingUp(pc') ==> GivingUp(pc) || s.uid != uid || s.refcount == U32_MAX)
      && (pc' == Idle || InAcquire(AcquireStep(s, a, choice), a, uid) || (pc'.Held? && pc'.uid == uid))
  {
  }

  /** One event of a call in progress. */
  lemma AcquireEvent(s: Block, e: Event, a: nat, uid: nat)
    requires InAcquire(s, a, uid)
    ensures
      var pc, pc' := s.actors[a], Apply(s, e).actors[a];
      if e.Act? && e.actor == a then
        && (pc' == Idle || GivingUp(pc') ==> GivingUp(pc) || s.uid != uid || s.refcount == U32_MAX)
        && (pc' == Idle || InAcquire(Apply(s, e), a, uid) || (pc'.Held? && pc'.uid == uid))
      else pc' == pc
  {
    if e.Act? && e.actor == a {
      assert Apply(s, e) == AcquireStep(s, a, e.choice);
      OwnAcquireStep(s, a, e.choice, uid);
    } else if e.Act? && e.actor < |s.actors| {
      StepFrame(s, e.actor, e.choice);
    }
  }

  lemma {:induction false} GivesUpForAReason(init: Block, events: seq<Event>, a: nat, uid: nat, k: nat, m: nat)
    requires m <= |events| && AcquireSince(init, events, a, uid, k, m)
    requires GivingUp(At(init, events, m).actors[a])
    ensures exists n: nat :: k < n < m && FindsObstacle(init, events, n, a, uid)
    decreases m
  {
    var s, e := At(init, events, m - 1), events[m - 1];
    AtNext(init, events, m - 1);
    if m - 1 > k {
      AcquireEvent(s, e, a, uid);
      if GivingUp(s.actors[a]) {
        GivesUpForAReason(init, events, a, uid, k, m - 1);
      } else {
        assert FindsObstacle(init, events, m - 1, a, uid);
      }
    }
  }

  /**
   In every run, an acquire that comes back without a reference has found, at one of its own
   steps, another generation or a full reference count.  Losing a CAS is not a reason.
   */
  lemma AcquireFailsForAReason(init: Block, events: seq<Event>, a: nat, uid: nat, k: nat, m: nat)
    requires m < |events| && AcquireSince(init, events, a, uid, k, m) && At(init, events, m + 1).actors[a] == Idle
    ensures exists n: nat :: k < n <= m && FindsObstacle(init, events, n, a, uid)
  {
    var s := At(init, events, m);
    AtNext(init, events, m);
    AcquireEvent(s, events[m], a, uid);
    if GivingUp(s.actors[a]) {
      GivesUpForAReason(init, events, a, uid, k, m);
    } else {
      assert FindsObstacle(init, events, m, a, uid);
    }
  }

  /** While the generation stays and the count is not full, an acquire can only end with a reference. */
  lemma AcquireSucceeds(init: Block, events: seq<Event>, a: nat, uid: nat, k: nat, m: nat)
    requires m < |events| && AcquireSince(init, events, a, uid, k, m) && !InAcquire(At(init, events, m + 1), a, uid)
    requires forall n :: k < n <= m ==> At(init, events, n).uid == uid && At(init, events, n).refcount < U32_MAX
    ensures Holds(At(init, events, m + 1), a) && At(init, events, m + 1).actors[a].uid == uid
  {
    AtNext(init, events, m);
    AcquireEvent(At(init, events, m), events[m], a, uid);
    if At(init, events, m + 1).actors[a] == Idle {
      AcquireFailsForAReason(init, events, a, uid, k, m);
    }
  }

  /** An acquire in progress ends with a reference as soon as it is left alone for five steps. */
  lemma AcquireFinishes(s: Block, a: nat, n: nat)
    requires InAcquire(s, a, s.uid) && !GivingUp(s.actors[a]) && s.refcount < U32_MAX && 5 <= n
    ensures Holds(Alone(s, a, n), a) && Alone(s, a, n).actors[a].uid == s.uid
  {
    var pc, rest := s.actors[a], Goto(s, a, Idle);
    match pc
    case AcquireCheck(_) =>
      assert s.actors == rest.actors[a := pc];
      LoadAlone(rest, a, n);
    case AcquireLoad(_) =>
      assert Next(s, a) == Goto(rest, a, AcquireCas(s.uid, s.refcount)) by {
        assert s.actors[a := AcquireCas(s.uid, s.refcount)] == rest.actors[a := AcquireCas(s.uid, s.refcount)];
      }
      CasAlone(rest, a, n - 1);
    case AcquireCas(_, observed) => CasFinishes(s, a, n);
    case AcquireRecheck(_) =>
      var s' := Next(s, a);
      assert s' == AcquireStep(s, a, Proceed);
      AloneAtRest(s', a, n - 1);
  }

  /** A lost CAS is tried again with the count it found. */
  lemma CasFinishes(s: Block, a: nat, n: nat)
    requires InAcquire(s, a, s.uid) && s.actors[a].AcquireCas? && !GivingUp(s.actors[a])
    requires s.refcount < U32_MAX && 3 <= n
    ensures Holds(Alone(s, a, n), a) && Alone(s, a, n).actors[a].uid == s.uid
  {
    var pc, rest := s.actors[a], Goto(s, a, Idle);
    var again := AcquireCas(s.uid, s.refcount);
    assert s.actors[a := again] == rest.actors[a := again];
    if pc.observed == s.refcount {
      assert s == Goto(rest, a, again);
      CasAlone(rest, a, n);
    } else {
      assert Next(s, a) == Goto(rest, a, again);
      CasAlone(rest, a, n - 1);
    }
  }

  // ----- reserve_for_publish -----

  /** A timestamp other than 0 is that of a commit. */
  predicate StampLogged(s: Block) {
    s.stamp != 0 ==> exists k :: 0 <= k < |s.log| && s.log[k].at == s.stamp
  }

  lemma StampLoggedStep(s: Block, e: Event)
    requires StampLogged(s)
    ensures StampLogged(Apply(s, e))
  {
    if e.Act? && e.actor < |s.actors| {
      var s' := Apply(s, e);
      HistoryStepHolds(s, e.actor, e.choice);
      if s.actors[e.actor].ReleaseStamp? {
        assert s'.log[|s.log|].at == s'.stamp;
      } else if s'.stamp != 0 {
        var k :| 0 <= k < |s.log| && s.log[k].at == s.stamp;
        assert s'.log[k].at == s'.stamp;
      }
    }
  }

  lemma {:induction false} StampLoggedRun(init: Block, events: seq<Event>, m: nat)
    requires Init(init) && m <= |events|
    ensures StampLogged(At(init, events, m))
    decreases m
  {
    if m > 0 {
      StampLoggedRun(init, events, m - 1);
      AtNext(init, events, m - 1);
      StampLoggedStep(At(init, events, m - 1), events[m - 1]);
    }
  }

  /** Nobody holds the block, it has generations left, and every commit is at least 100 ms old. */
  predicate Free(s: Block) {
    s.refcount == 0 && s.uid < U64_MAX && forall k :: 0 <= k < |s.log| ==> s.log[k].at + 100_000 <= s.clock
  }

  lemma FreeIsReusable(s: Block)
    requires StampLogged(s) && Free(s)
    ensures Reusable(WordsOf(s), s.clock)
  {
  }

  /** In every reachable state a free block can be reserved at once, also without the mutex. */
  lemma FreeBlockIsReserved(init: Block, events: seq<Event>, a: nat, n: nat)
    requires Init(init) && 6 <= n
    requires var s := Run(init, events); a < |s.actors| && s.actors[a] == Idle && Free(s)
    ensures var s := Run(init, events); Run(s, Call(a, Reserve, n)).actors[a] == Reserved(s.uid + 1)
  {
    var s := Run(init, events);
    StampLoggedRun(init, events, |events|);
    AtEnd(init, events);
    FreeIsReusable(s);
    SoloReserve(s, a, n);
  }

  /** Under the mutex a timestamp that passes the test means that every commit is old enough. */
  lemma ReusableIsFree(p: Pooled)
    requires GraceInv(p) && StampLogged(p.block) && p.block.uid <= U64_MAX
    ensures Reusable(WordsOf(p.block), p.block.clock) <==> Free(p.block)
  {
    var s := p.block;
    if Free(s) {
      FreeIsReusable(s);
    }
  }

  /** Under the mutex, in every reachable state, a reservation succeeds if and only if the block is free. */
  lemma PoolReservesExactly(init: Pooled, events: seq<PoolEvent>, a: nat, n: nat)
    requires PoolInit(init) && 6 <= n && !PoolRun(init, events).block.overflowed
    requires
      var p := PoolRun(init, events);
      p.mutex.None? && a < |p.block.actors| && p.block.actors[a] == Idle
    ensures
      var s, s' := PoolRun(init, events).block, PoolRun(init, events + Locked(a, Call(a, Reserve, n))).block;
      a < |s'.actors| && s'.actors[a] == if Free(s) then Reserved(s.uid + 1) else Idle
  {
    var p, call := PoolRun(init, events), Call(a, Reserve, n);
    PoolReachable(init, events);
    assert events[..|events|] == events;
    PoolProjects(init, events, |events|);
    StampLoggedRun(init.block, Project(init, events), |events|);
    ReusableIsFree(p);
    SoloReserve(p.block, a, n);
    ProceedsAllowed(a, Some(a), n);
    LockedIsRun(p, a, call);
    PoolConcat(init, events, Locked(a, call));
  }

  /** Actor `a` is inside a call of `reserve_for_publish` that read `now` from the clock. */
  predicate InReserve(s: Block, a: nat, now: nat) {
    && a < |s.actors| && Reserving(s.actors[a])
    && (s.actors[a].ReserveCheck? || s.actors[a].ReserveStamp? ==> s.actors[a].now == now)
  }

  /** Event `k` begins a reservation that is still being made before event `m`. */
  predicate ReserveSince(init: Block, events: seq<Event>, a: nat, k: nat, m: nat)
    requires m <= |events|
  {
    && k < m && events[k] == Act(a, Reserve)
    && a < |At(init, events, k).actors| && At(init, events, k).actors[a] == Idle
    && forall n :: k < n <= m ==> a < |At(init, events, n).actors| && Reserving(At(init, events, n).actors[a])
  }

  /** The state has a reference, no generation left, or a commit less than 100 ms before `now`. */
  predicate NotFree(s: Block, now: nat) {
    s.refcount != 0 || s.uid == U64_MAX || exists k :: 0 <= k < |s.log| && s.log[k].at + 100_000 > now
  }

  predicate FindsReason(init: Block, events: seq<Event>, n: nat, a: nat, now: nat) {
    n < |events| && events[n].Act? && events[n].actor == a && NotFree(At(init, events, n), now)
  }

  lemma OwnReserveStep(s: Block, a: nat, now: nat)
    requires InReserve(s, a, now) && StampLogged(s)
    ensures
      var pc, s' := s.actors[a], ReserveStep(s, a);
      && (s'.actors[a] == Idle || s'.actors[a].ReserveOverflow? ==> pc.ReserveOverflow? || NotFree(s, now))
      && (s'.actors[a] == Idle || InReserve(s', a, now) || s'.actors[a].Reserved?)
  {
  }

  lemma ReserveEvent(s: Block, e: Event, a: nat, now: nat)
    requires InReserve(s, a, now) && StampLogged(s)
    ensures
      var pc, s' := s.actors[a], Apply(s, e);
      if e.Act? && e.actor == a then
        && (s'.actors[a] == Idle || s'.actors[a].ReserveOverflow? ==> pc.ReserveOverflow? || NotFree(s, now))
        && (s'.actors[a] == Idle || InReserve(s', a, now) || s'.actors[a].Reserved?)
      else s'.actors[a] == pc
  {
    if e.Act? && e.actor == a {
      assert Apply(s, e) == ReserveStep(s, a);
      OwnReserveStep(s, a, now);
    } else if e.Act? && e.actor < |s.actors| {
      StepFrame(s, e.actor, e.choice);
    }
  }

  lemma {:induction false} ReserveGoesOn(init: Block, events: seq<Event>, a: nat, k: nat, m: nat)
    requires Init(init) && m <= |events| && ReserveSince(init, events, a, k, m)
    ensures InReserve(At(init, events, m), a, At(init, events, k).clock)
    ensures At(init, events, m).actors[a].ReserveOverflow? ==>
      exists n: nat :: k < n < m && FindsReason(init, events, n, a, At(init, events, k).clock)
    decreases m
  {
    var s, e := At(init, events, m - 1), events[m - 1];
    var now := At(init, events, k).clock;
    AtNext(init, events, m - 1);
    if m - 1 == k {
      assert Apply(s, e).actors[a] == ReserveCheck(now);
    } else {
      ReserveGoesOn(init, events, a, k, m - 1);
      StampLoggedRun(init, events, m - 1);
      ReserveEvent(s, e, a, now);
      if At(init, events, m).actors[a].ReserveOverflow? && !s.actors[a].ReserveOverflow? {
        assert FindsReason(init, events, m - 1, a, now);
      }
    }
  }

  /**
   In every run, a reservation that comes back with nothing has found, at one of its own
   steps, a reference on the block, the last generation, or a commit less than 100 ms before
   the clock value it started with.
   */
  lemma ReserveFailsForAReason(init: Block, events: seq<Event>, a: nat, k: nat, m: nat)
    requires Init(init) && m < |events| && ReserveSince(init, events, a, k, m)
    requires At(init, events, m + 1).actors[a] == Idle
    ensures exists n: nat :: k < n <= m && FindsReason(init, events, n, a, At(init, events, k).clock)
  {
    var s, now := At(init, events, m), At(init, events, k).clock;
    AtNext(init, events, m);
    ReserveGoesOn(init, events, a, k, m);
    StampLoggedRun(init, events, m);
    ReserveEvent(s, events[m], a, now);
    if !s.actors[a].ReserveOverflow? {
      assert FindsReason(init, events, m, a, now);
    }
  }
}
