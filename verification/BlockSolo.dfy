/**
 Calls that run without interference: the atomic steps of one actor, taken in a
 row, have exactly the effect that `BlockWords` gives the whole call.
 */
module BlockSolo {
  import opened Machine
  import opened BlockWords
  import opened BlockProtocol
  import opened BlockInvariants
  import opened BlockHistory

  function WordsOf(s: Block): Words {
    Words(s.uid, s.refcount, s.stamp)
  }

  function Proceeds(a: nat, n: nat): seq<Event> {
    if n == 0 then [] else [Act(a, Proceed)] + Proceeds(a, n - 1)
  }

  /** One call of actor `a`: the choice that starts it and `n` steps alone. */
  function Call(a: nat, start: Choice, n: nat): seq<Event> {
    [Act(a, start)] + Proceeds(a, n)
  }

  function Alone(s: Block, a: nat, n: nat): (s': Block)
    ensures |s'.actors| == |s.actors|
    decreases n
  {
    if n == 0 then s else Alone(Apply(s, Act(a, Proceed)), a, n - 1)
  }

  lemma {:induction false} AloneIsRun(s: Block, a: nat, n: nat)
    ensures Run(s, Proceeds(a, n)) == Alone(s, a, n)
    decreases n
  {
    if n > 0 {
      AloneIsRun(Apply(s, Act(a, Proceed)), a, n - 1);
      assert Proceeds(a, n)[1..] == Proceeds(a, n - 1);
    }
  }

  lemma CallIsAlone(s: Block, a: nat, start: Choice, n: nat)
    ensures Run(s, Call(a, start, n)) == Alone(Apply(s, Act(a, start)), a, n)
  {
    assert Call(a, start, n)[1..] == Proceeds(a, n);
    AloneIsRun(Apply(s, Act(a, start)), a, n);
  }

  predicate AtRest(pc: Pc) {
    pc.Idle? || pc.Reserved? || pc.Quarantined? || (pc.Held? && pc.stage == Publication)
  }

  /** An actor between calls stays where it is. */
  lemma {:induction false} AloneAtRest(s: Block, a: nat, n: nat)
    requires a < |s.actors| && AtRest(s.actors[a])
    ensures Alone(s, a, n) == s
    decreases n
  {
    if n > 0 {
      assert Apply(s, Act(a, Proceed)) == s;
      AloneAtRest(s, a, n - 1);
    }
  }

  /** One step of an actor that is inside a call. */
  function Next(s: Block, a: nat): Block {
    Apply(s, Act(a, Proceed))
  }

  // ----- reserve_for_publish -----

  lemma StoreAlone(s: Block, a: nat, n: nat)
    requires 2 <= n && a < |s.actors| && s.actors[a] == ReserveStoreUid(s.uid + 1)
    ensures Alone(s, a, n) ==
            Goto(s.(uid := s.uid + 1, stamp := 0, generations := s.generations + [s.uid + 1]), a, Reserved(s.uid + 1))
  {
    var s1 := Goto(s.(uid := s.uid + 1, generations := s.generations + [s.uid + 1]), a, ReserveClearStamp(s.uid + 1));
    assert Next(s, a) == s1;
    var next := s.uid + 1;
    var s2 := Goto(s.(uid := next, stamp := 0, generations := s.generations + [next]), a, Reserved(next));
    assert Next(s1, a) == s2;
    AloneAtRest(s2, a, n - 2);
  }

  /** The second half of a reservation: load uid, store uid, clear the timestamp. */
  lemma ClaimAlone(s: Block, a: nat, n: nat)
    requires 3 <= n && a < |s.actors| && s.actors[a] == ReserveReadUid && s.uid != U64_MAX
    ensures Alone(s, a, n) ==
            Goto(s.(uid := s.uid + 1, stamp := 0, generations := s.generations + [s.uid + 1]), a, Reserved(s.uid + 1))
  {
    var s1 := Goto(s, a, ReserveStoreUid(s.uid + 1));
    assert Next(s, a) == s1;
    StoreAlone(s1, a, n - 1);
    assert s1.actors[a := Reserved(s.uid + 1)] == s.actors[a := Reserved(s.uid + 1)];
  }

  lemma OverflowAlone(s: Block, a: nat, n: nat)
    requires 2 <= n && a < |s.actors| && s.actors[a] == ReserveReadUid && s.uid == U64_MAX
    ensures Alone(s, a, n) == Goto(s.(refcount := 0, overflowed := true), a, Idle)
  {
    var s1 := Goto(s, a, ReserveOverflow);
    assert Next(s, a) == s1;
    var s2 := Goto(s.(refcount := 0, overflowed := true), a, Idle);
    assert Next(s1, a) == s2;
    AloneAtRest(s2, a, n - 2);
  }

  /** The block just after a successful claim CAS. */
  function Claimed(s: Block, a: nat): Block
    requires a < |s.actors|
  {
    Goto(s.(refcount := 1), a, ReserveReadUid)
  }

  lemma StampAlone(s: Block, a: nat, now: nat, n: nat)
    requires 2 <= n && a < |s.actors| && s.actors[a] == ReserveStamp(now) && s.refcount == 0
    requires GracePassed(s.stamp, now)
    ensures Alone(s, a, n) == Alone(Claimed(s, a), a, n - 2)
  {
    var s1 := Goto(s, a, ReserveClaim);
    assert Next(s, a) == s1;
    assert s1.actors[a := ReserveReadUid] == s.actors[a := ReserveReadUid];
    assert Next(s1, a) == Claimed(s, a);
  }

  /** The first half of a reservation: refcount, timestamp, CAS. */
  lemma CheckAlone(s: Block, a: nat, n: nat)
    requires 3 <= n && a < |s.actors| && s.actors[a] == Idle && s.refcount == 0 && GracePassed(s.stamp, s.clock)
    ensures Alone(Goto(s, a, ReserveCheck(s.clock)), a, n) == Alone(Claimed(s, a), a, n - 3)
  {
    var s0, s1 := Goto(s, a, ReserveCheck(s.clock)), Goto(s, a, ReserveStamp(s.clock));
    assert s0.actors[a := ReserveStamp(s.clock)] == s.actors[a := ReserveStamp(s.clock)];
    assert Next(s0, a) == s1;
    StampAlone(s1, a, s.clock, n - 1);
    assert s1.actors[a := ReserveReadUid] == s.actors[a := ReserveReadUid];
  }

  lemma ReserveCall(s: Block, a: nat, n: nat)
    requires a < |s.actors| && s.actors[a] == Idle
    ensures Run(s, Call(a, Reserve, n)) == Alone(Goto(s, a, ReserveCheck(s.clock)), a, n)
  {
    CallIsAlone(s, a, Reserve, n);
    assert Apply(s, Act(a, Reserve)) == Goto(s, a, ReserveCheck(s.clock));
  }

  /** A reservation up to and including its claim CAS. */
  lemma ClaimHalf(s: Block, a: nat, n: nat)
    requires 3 <= n && a < |s.actors| && s.actors[a] == Idle && s.refcount == 0 && GracePassed(s.stamp, s.clock)
    ensures Run(s, Call(a, Reserve, n)) == Alone(Claimed(s, a), a, n - 3)
  {
    ReserveCall(s, a, n);
    CheckAlone(s, a, n);
  }

  /** An actor that goes back to idle leaves its own slot as it was. */
  lemma BackToIdle(s: Block, a: nat, pc: Pc)
    requires a < |s.actors| && s.actors[a] == Idle
    ensures Goto(Goto(s, a, pc), a, Idle) == s
  {
    assert s.actors[a := pc][a := Idle] == s.actors;
  }

  lemma CheckRefused(s: Block, a: nat, n: nat)
    requires 1 <= n && a < |s.actors| && s.actors[a] == Idle && s.refcount != 0
    ensures Alone(Goto(s, a, ReserveCheck(s.clock)), a, n) == s
  {
    var s0 := Goto(s, a, ReserveCheck(s.clock));
    BackToIdle(s, a, ReserveCheck(s.clock));
    assert Next(s0, a) == Goto(s0, a, Idle);
    AloneAtRest(s, a, n - 1);
  }

  lemma StampRefused(s: Block, a: nat, n: nat)
    requires 1 <= n && a < |s.actors| && s.actors[a] == Idle && !GracePassed(s.stamp, s.clock)
    ensures Alone(Goto(s, a, ReserveStamp(s.clock)), a, n) == s
  {
    var s1 := Goto(s, a, ReserveStamp(s.clock));
    BackToIdle(s, a, ReserveStamp(s.clock));
    assert Next(s1, a) == Goto(s1, a, Idle);
    AloneAtRest(s, a, n - 1);
  }

  lemma Refused(s: Block, a: nat, n: nat)
    requires 2 <= n && a < |s.actors| && s.actors[a] == Idle
    requires s.refcount != 0 || !GracePassed(s.stamp, s.clock)
    ensures Alone(Goto(s, a, ReserveCheck(s.clock)), a, n) == s
  {
    if s.refcount != 0 {
      CheckRefused(s, a, n);
    } else {
      var s0, s1 := Goto(s, a, ReserveCheck(s.clock)), Goto(s, a, ReserveStamp(s.clock));
      assert s0.actors[a := ReserveStamp(s.clock)] == s.actors[a := ReserveStamp(s.clock)];
      assert Next(s0, a) == s1;
      StampRefused(s, a, n - 1);
    }
  }

  /** The whole block after `reserve_for_publish` by actor `a` alone. */
  function AfterReserve(s: Block, a: nat): Block
    requires a < |s.actors|
  {
    if s.refcount != 0 || !GracePassed(s.stamp, s.clock) then s
    else if s.uid == U64_MAX then s.(overflowed := true)
    else
      var next := s.uid + 1;
      Goto(s.(uid := next, refcount := 1, stamp := 0, generations := s.generations + [next]), a, Reserved(next))
  }

  lemma ReserveSteps(s: Block, a: nat, n: nat)
    requires 6 <= n && a < |s.actors| && s.actors[a] == Idle
    ensures Alone(Goto(s, a, ReserveCheck(s.clock)), a, n) == AfterReserve(s, a)
  {
    if s.refcount != 0 || !GracePassed(s.stamp, s.clock) {
      Refused(s, a, n);
    } else {
      CheckAlone(s, a, n);
      ClaimSteps(s, a, n - 3);
    }
  }

  lemma ClaimSteps(s: Block, a: nat, n: nat)
    requires 3 <= n && a < |s.actors| && s.actors[a] == Idle && s.refcount == 0 && GracePassed(s.stamp, s.clock)
    ensures Alone(Claimed(s, a), a, n) == AfterReserve(s, a)
  {
    var s1 := Claimed(s, a);
    if s.uid == U64_MAX {
      OverflowAlone(s1, a, n);
      assert s1.actors[a := Idle] == s.actors;
    } else {
      ClaimAlone(s1, a, n);
      assert s1.actors[a := Reserved(s.uid + 1)] == s.actors[a := Reserved(s.uid + 1)];
    }
  }

  /**
   `reserve_for_publish` alone: its atomic steps reserve the block exactly when
   it is reusable, and leave the words `ReserveWords` gives.
   */
  lemma SoloReserve(s: Block, a: nat, n: nat)
    requires 6 <= n && a < |s.actors| && s.actors[a] == Idle
    ensures
      var s' := Run(s, Call(a, Reserve, n));
      var (words, reserved) := ReserveWords(WordsOf(s), s.clock);
      && s' == AfterReserve(s, a) && WordsOf(s') == words
      && s'.actors[a] == (if reserved.Some? then Reserved(reserved.value) else Idle)
  {
    ReserveCall(s, a, n);
    ReserveSteps(s, a, n);
  }

  // ----- commit_publish and cancel_publish -----

  lemma DropAlone(s: Block, a: nat, n: nat)
    requires a < |s.actors| && s.actors[a].ReleaseDrop? && 2 <= n
    ensures Alone(s, a, n) == Goto(s.(refcount := if s.refcount == 0 then 0 else s.refcount - 1), a, Idle)
  {
    if s.refcount == 0 {
      var s1 := Goto(s.(refcount := U32_MAX), a, Underflow);
      assert Next(s, a) == s1;
      var s2 := Goto(s.(refcount := 0), a, Idle);
      assert s1.actors[a := Idle] == s.actors[a := Idle];
      assert Next(s1, a) == s2;
      AloneAtRest(s2, a, n - 2);
    } else {
      var s1 := Goto(s.(refcount := s.refcount - 1), a, Idle);
      assert Next(s, a) == s1;
      AloneAtRest(s1, a, n - 1);
    }
  }

  lemma CommitAlone(s: Block, a: nat, uid: nat, n: nat)
    requires 4 <= n && a < |s.actors| && s.actors[a] == ReleaseClock(uid)
    ensures
      Alone(s, a, n) == Goto(s.(refcount := if s.refcount == 0 then 0 else s.refcount - 1,
                                stamp := s.clock, log := s.log + [Publish(uid, s.clock)]), a, Idle)
  {
    var s1 := Goto(s, a, ReleaseStamp(uid, s.clock));
    assert Next(s, a) == s1;
    var s2 := Goto(s.(stamp := s.clock, log := s.log + [Publish(uid, s.clock)]), a, ReleaseDrop(uid, true));
    assert s1.actors[a := ReleaseDrop(uid, true)] == s.actors[a := ReleaseDrop(uid, true)];
    assert Next(s1, a) == s2;
    DropAlone(s2, a, n - 2);
    assert s2.actors[a := Idle] == s.actors[a := Idle];
  }

  /** The whole block after `release_publisher_reservation` by actor `a` alone. */
  function AfterRelease(s: Block, a: nat, uid: nat, published: bool): Block
    requires a < |s.actors|
  {
    if s.uid != uid then Goto(s, a, Quarantined(uid))
    else
      var s' := s.(refcount := if s.refcount == 0 then 0 else s.refcount - 1);
      Goto(if published then s'.(stamp := s.clock, log := s.log + [Publish(uid, s.clock)]) else s', a, Idle)
  }

  /** A commit begins by recording the ready event. */
  function Recorded(s: Block, start: Choice): Block {
    if start.Commit? then s.(gpu := RecordReady(s.gpu, start.stream)) else s
  }

  /** `prepare_publish` up to its commit, and `cancel_publish`, alone. */
  lemma SoloRelease(s: Block, a: nat, start: Choice, n: nat)
    requires 5 <= n && a < |s.actors| && s.actors[a].Reserved? && (start.Commit? || start.Cancel?)
    ensures
      var uid := s.actors[a].uid;
      var s' := Run(s, Call(a, start, n));
      && s' == AfterRelease(Recorded(s, start), a, uid, start.Commit?)
      && WordsOf(s') == ReleaseWords(WordsOf(s), uid, start.Commit?, s.clock).0
  {
    var uid := s.actors[a].uid;
    CallIsAlone(s, a, start, n);
    ReleaseStarts(s, a, start);
    ReleaseAlone(Recorded(s, start), a, uid, start.Commit?, n);
    ReleaseEffect(Recorded(s, start), a, uid, start.Commit?);
  }

  lemma ReleaseStarts(s: Block, a: nat, start: Choice)
    requires a < |s.actors| && s.actors[a].Reserved? && (start.Commit? || start.Cancel?)
    ensures Apply(s, Act(a, start)) == Goto(Recorded(s, start), a, ReleaseCheck(s.actors[a].uid, start.Commit?))
  {
    assert Apply(s, Act(a, start)) == ReservedStep(s, a, s.actors[a].uid, start);
  }

  lemma ReleaseEffect(s: Block, a: nat, uid: nat, published: bool)
    requires a < |s.actors|
    ensures WordsOf(AfterRelease(s, a, uid, published)) == ReleaseWords(WordsOf(s), uid, published, s.clock).0
  {
  }

  lemma ReleaseAlone(s: Block, a: nat, uid: nat, published: bool, n: nat)
    requires 5 <= n && a < |s.actors|
    ensures Alone(Goto(s, a, ReleaseCheck(uid, published)), a, n) == AfterRelease(s, a, uid, published)
  {
    var s0 := Goto(s, a, ReleaseCheck(uid, published));
    var pc1 := if s.uid != uid then Quarantined(uid)
               else if published then ReleaseClock(uid) else ReleaseDrop(uid, false);
    var s1 := Goto(s, a, pc1);
    assert s0.actors[a := pc1] == s.actors[a := pc1];
    assert Next(s0, a) == s1;
    assert s1.actors[a := Idle] == s.actors[a := Idle];
    if s.uid != uid {
      AloneAtRest(s1, a, n - 1);
    } else if published {
      CommitAlone(s1, a, uid, n - 1);
    } else {
      DropAlone(s1, a, n - 1);
    }
  }

  // ----- acquire -----

  /** The block at the final uid check of an acquire. */
  function Rechecking(s: Block, a: nat): Block
    requires a < |s.actors|
  {
    Goto(s.(refcount := s.refcount + 1), a, AcquireRecheck(s.uid))
  }

  /** The whole block after `acquire` by actor `a` alone. */
  function AfterAcquire(s: Block, a: nat, uid: nat): Block
    requires a < |s.actors|
  {
    if s.uid != uid || s.refcount == U32_MAX then s
    else
      var s1 := Rechecking(s, a);
      Goto(s.(refcount := s.refcount + 1), a, Held(uid, SomeClaiming(s1), Timely(s1, uid), Publication))
  }

  lemma RecheckAlone(s: Block, a: nat, n: nat)
    requires 1 <= n && a < |s.actors|
    ensures Alone(Rechecking(s, a), a, n) ==
      Goto(s.(refcount := s.refcount + 1), a,
           Held(s.uid, SomeClaiming(Rechecking(s, a)), Timely(Rechecking(s, a), s.uid), Publication))
  {
    var s1 := Rechecking(s, a);
    var pc := Held(s.uid, SomeClaiming(s1), Timely(s1, s.uid), Publication);
    var s2 := Goto(s.(refcount := s.refcount + 1), a, pc);
    assert s1.actors[a := pc] == s.actors[a := pc];
    assert Next(s1, a) == s2;
    AloneAtRest(s2, a, n - 1);
  }

  lemma CasAlone(s: Block, a: nat, n: nat)
    requires 2 <= n && a < |s.actors| && s.actors[a] == Idle
    ensures Alone(Goto(s, a, AcquireCas(s.uid, s.refcount)), a, n) == AfterAcquire(s, a, s.uid)
  {
    var s1 := Goto(s, a, AcquireCas(s.uid, s.refcount));
    if s.refcount == U32_MAX {
      BackToIdle(s, a, s1.actors[a]);
      assert Next(s1, a) == Goto(s1, a, Idle);
      AloneAtRest(s, a, n - 1);
    } else {
      assert s1.actors[a := AcquireRecheck(s.uid)] == s.actors[a := AcquireRecheck(s.uid)];
      assert Next(s1, a) == Rechecking(s, a);
      RecheckAlone(s, a, n - 1);
    }
  }

  lemma LoadAlone(s: Block, a: nat, n: nat)
    requires 4 <= n && a < |s.actors| && s.actors[a] == Idle
    ensures Alone(Goto(s, a, AcquireCheck(s.uid)), a, n) == AfterAcquire(s, a, s.uid)
  {
    var s0, s1 := Goto(s, a, AcquireCheck(s.uid)), Goto(s, a, AcquireLoad(s.uid));
    assert s0.actors[a := AcquireLoad(s.uid)] == s.actors[a := AcquireLoad(s.uid)];
    assert Next(s0, a) == s1;
    var s2 := Goto(s, a, AcquireCas(s.uid, s.refcount));
    assert s1.actors[a := AcquireCas(s.uid, s.refcount)] == s.actors[a := AcquireCas(s.uid, s.refcount)];
    assert Next(s1, a) == s2;
    CasAlone(s, a, n - 2);
  }

  lemma AcquireCall(s: Block, a: nat, uid: nat, n: nat)
    requires a < |s.actors| && s.actors[a] == Idle
    ensures Run(s, Call(a, Acquire(uid), n)) == Alone(Goto(s, a, AcquireCheck(uid)), a, n)
  {
    CallIsAlone(s, a, Acquire(uid), n);
    assert Apply(s, Act(a, Acquire(uid))) == Goto(s, a, AcquireCheck(uid));
  }

  lemma AcquireRefused(s: Block, a: nat, uid: nat, n: nat)
    requires 1 <= n && a < |s.actors| && s.actors[a] == Idle && s.uid != uid
    ensures Alone(Goto(s, a, AcquireCheck(uid)), a, n) == s
  {
    var s0 := Goto(s, a, AcquireCheck(uid));
    BackToIdle(s, a, AcquireCheck(uid));
    assert Next(s0, a) == Goto(s0, a, Idle);
    AloneAtRest(s, a, n - 1);
  }

  lemma AcquireSteps(s: Block, a: nat, uid: nat, n: nat)
    requires 4 <= n && a < |s.actors| && s.actors[a] == Idle
    ensures Run(s, Call(a, Acquire(uid), n)) == AfterAcquire(s, a, uid)
  {
    AcquireCall(s, a, uid, n);
    if s.uid != uid {
      AcquireRefused(s, a, uid, n);
    } else {
      LoadAlone(s, a, n);
    }
  }

  /** `acquire` alone. */
  lemma SoloAcquire(s: Block, a: nat, uid: nat, n: nat)
    requires 4 <= n && a < |s.actors| && s.actors[a] == Idle
    ensures
      var s' := Run(s, Call(a, Acquire(uid), n));
      var (words, acquired) := AcquireWords(WordsOf(s), uid);
      && s' == AfterAcquire(s, a, uid) && WordsOf(s') == words
      && (if acquired then s'.actors[a].Held? && s'.actors[a].uid == uid else s'.actors[a] == Idle)
  {
    AcquireSteps(s, a, uid, n);
  }

  lemma {:induction false} RunConcat(s: Block, first: seq<Event>, second: seq<Event>)
    ensures Run(s, first + second) == Run(Run(s, first), second)
    decreases |first|
  {
    if first == [] {
      assert first + second == second;
    } else {
      assert (first + second)[1..] == first[1..] + second;
      RunConcat(Apply(s, first[0]), first[1..], second);
    }
  }

  /**
   A cancelled reservation adds no delay: in every reachable state where actor
   `a` holds the only unit, cancelling and reserving again at once succeeds.
   */
  lemma CancelAddsNoDelay(init: Block, events: seq<Event>, a: nat, n: nat)
    requires Init(init) && 6 <= n
    requires
      var s := Run(init, events);
      !s.overflowed && a < |s.actors| && s.actors[a].Reserved? && s.refcount == 1 && s.uid < U64_MAX
    ensures
      var s := Run(init, events);
      var s' := Run(s, Call(a, Cancel, n) + Call(a, Reserve, n));
      s'.actors[a] == Reserved(s.uid + 1) && s'.clock == s.clock && s'.refcount == 1
  {
    FullInit(init);
    FullRun(init, events);
    var s := Run(init, events);
    assert PublisherHistoryOk(s, s.actors[a]) && ActorOk(s, s.actors[a]);
    SoloRelease(s, a, Cancel, n);
    var s1 := Run(s, Call(a, Cancel, n));
    SoloReserve(s1, a, n);
    RunConcat(s, Call(a, Cancel, n), Call(a, Reserve, n));
  }
}
