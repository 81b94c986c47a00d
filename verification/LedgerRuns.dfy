/**
 What the ledgers of one process record about a reference or a reservation is a run
 of the block protocol, whatever all other actors do in between.
 */
module LedgerRuns {
  import opened BlockProtocol
  import opened BlockInvariants
  import opened BlockHistory
  import R = ReadLedger
  import P = PublishLedger

  // ----- references -----

  /** The owner's steps that a call stands for; a context that could be pushed is not a step. */
  function Moves(c: R.Call): seq<Choice> {
    match c
    case Push(_, ok) => if ok then [] else [Fail]
    case Record(_, ok) => [if ok then Drop else Fail]
    case Synchronise(_, ok) => [if ok then Proceed else Fail]
    case Return(_) => [Drop]
  }

  function AllMoves(calls: seq<R.Call>): seq<Choice> {
    if calls == [] then [] else Moves(calls[0]) + AllMoves(calls[1..])
  }

  /** The steps of a reference's owner since the acquisition. */
  function Path(f: R.Fate, calls: seq<R.Call>): seq<Choice> {
    (if f.bound then [Bind(f.ref.context)] else []) + AllMoves(calls)
  }

  /** Where the owner of a reference can be, as far as the ledger tells. */
  datatype Spot = Unbound | Bound(completion: bool) | Waiting | Kept | Done | Gone

  function SpotOf(pc: Pc): Spot {
    if !pc.Held? then Gone
    else
      match pc.stage
      case Publication => Unbound
      case Handle(completion, _) => Bound(completion)
      case Queued => Waiting
      case Retained => Kept
      case Synchronised => Done
  }

  /** The spot that the ledger's record of a reference stands for. */
  function SpotFor(f: R.Fate): Spot {
    match f.place
    case InPublication(_) => Unbound
    case InHandle(_) => Bound(f.ref.context)
    case Queued(_) => Waiting
    case InHand => Waiting
    case Retained(_) => Kept
    case Released(_) => Gone
  }

  function SpotAfter(spot: Spot, choice: Choice): Spot {
    match spot
    case Unbound => if choice.Bind? then Bound(choice.completion) else if choice.Drop? then Gone else Unbound
    case Bound(completion) =>
      if choice.Drop? then (if completion then Waiting else Gone)
      else if choice.Fail? && completion then Kept
      else spot
    case Waiting => if choice.Fail? then Kept else Done
    case Kept => Kept
    case Done => Gone
    case Gone => Gone
  }

  function SpotAfterAll(spot: Spot, path: seq<Choice>): Spot
    decreases |path|
  {
    if path == [] then spot else SpotAfterAll(SpotAfter(spot, path[0]), path[1..])
  }

  lemma OneMove(spot: Spot, choice: Choice)
    ensures SpotAfterAll(spot, [choice]) == SpotAfter(spot, choice)
  {
    assert [choice][1..] == [];
  }

  lemma {:induction false} SpotConcat(spot: Spot, first: seq<Choice>, second: seq<Choice>)
    ensures SpotAfterAll(spot, first + second) == SpotAfterAll(SpotAfterAll(spot, first), second)
    decreases |first|
  {
    if first == [] {
      assert first + second == second;
    } else {
      assert (first + second)[1..] == first[1..] + second;
      SpotConcat(SpotAfter(spot, first[0]), first[1..], second);
    }
  }

  /** The spot after the calls made for a reference. */
  function SpotAfterCalls(spot: Spot, calls: seq<R.Call>): Spot
    decreases |calls|
  {
    if calls == [] then spot else SpotAfterCalls(SpotAfterAll(spot, Moves(calls[0])), calls[1..])
  }

  lemma {:induction false} CallsAreMoves(spot: Spot, calls: seq<R.Call>)
    ensures SpotAfterAll(spot, AllMoves(calls)) == SpotAfterCalls(spot, calls)
    decreases |calls|
  {
    if calls != [] {
      SpotConcat(spot, Moves(calls[0]), AllMoves(calls[1..]));
      CallsAreMoves(SpotAfterAll(spot, Moves(calls[0])), calls[1..]);
    }
  }

  /** The calls recorded for a reference lead from its acquisition to the place recorded for it. */
  lemma PathEnds(p: R.Places, f: R.Fate, calls: seq<R.Call>)
    requires R.TurnOk(p, f) && R.Legal(f, calls)
    ensures SpotAfterAll(Unbound, Path(f, calls)) == SpotFor(f)
  {
    var start := if f.bound then Bound(f.ref.context) else Unbound;
    SpotConcat(Unbound, if f.bound then [Bind(f.ref.context)] else [], AllMoves(calls));
    OneMove(Unbound, Bind(f.ref.context));
    CallsAreMoves(start, calls);
    LegalEnds(p, f, calls, start);
  }

  lemma {:induction false} CallsConcat(spot: Spot, first: seq<R.Call>, second: seq<R.Call>)
    ensures SpotAfterCalls(spot, first + second) == SpotAfterCalls(SpotAfterCalls(spot, first), second)
    decreases |first|
  {
    if first == [] {
      assert first + second == second;
    } else {
      assert (first + second)[1..] == first[1..] + second;
      CallsConcat(SpotAfterAll(spot, Moves(first[0])), first[1..], second);
    }
  }

  lemma OneCall(spot: Spot, c: R.Call)
    ensures SpotAfterCalls(spot, [c]) == SpotAfterAll(spot, Moves(c))
    ensures Moves(c) != [] ==> SpotAfterCalls(spot, [c]) == SpotAfter(spot, Moves(c)[0])
    ensures Moves(c) == [] ==> SpotAfterCalls(spot, [c]) == spot
  {
    assert [c][1..] == [];
    if Moves(c) != [] {
      OneMove(spot, Moves(c)[0]);
    }
  }

  lemma RecordEnds(id: nat, c: R.ReleaseCalls)
    ensures SpotAfterCalls(Bound(true), R.RecordCalls(id, c)) == if R.RecordedOk(c) then Waiting else Kept
  {
    OneCall(Bound(true), R.Push(id, c.pushed));
    if c.pushed {
      CallsConcat(Bound(true), [R.Push(id, true)], [R.Record(id, c.recorded)]);
      OneCall(Bound(true), R.Record(id, c.recorded));
    } else {
      assert R.RecordCalls(id, c) == [R.Push(id, false)];
    }
  }

  lemma SynchroniseEnds(id: nat, c: R.WaitCalls)
    ensures SpotAfterCalls(Waiting, R.SynchroniseCalls(id, c)) == if R.Completed(c) then Done else Kept
  {
    OneCall(Waiting, R.Push(id, c.pushed));
    if c.pushed {
      CallsConcat(Waiting, [R.Push(id, true)], [R.Synchronise(id, c.synchronised)]);
      OneCall(Waiting, R.Synchronise(id, c.synchronised));
    } else {
      assert R.SynchroniseCalls(id, c) == [R.Push(id, false)];
    }
  }

  lemma LegalEnds(p: R.Places, f: R.Fate, calls: seq<R.Call>, start: Spot)
    requires R.TurnOk(p, f) && R.Legal(f, calls) && start == if f.bound then Bound(f.ref.context) else Unbound
    ensures SpotAfterCalls(start, calls) == SpotFor(f)
  {
    var id := f.ref.id;
    var recorded := R.RecordCalls(id, R.ReleaseCalls(true, true));
    var waited := R.SynchroniseCalls(id, R.WaitCalls(true, true));
    RecordEnds(id, R.ReleaseCalls(true, true));
    match f.place
    case Retained(_) =>
      if f.turn.None? {
        var c :| !R.RecordedOk(c) && calls == R.RecordCalls(id, c);
        RecordEnds(id, c);
      } else {
        var c :| !R.Completed(c) && calls == recorded + R.SynchroniseCalls(id, c);
        CallsConcat(start, recorded, R.SynchroniseCalls(id, c));
        SynchroniseEnds(id, c);
      }
    case Released(_) =>
      if f.turn.None? {
        assert calls == [R.Return(id)];
        OneCall(start, R.Return(id));
      } else {
        CallsConcat(start, recorded + waited, [R.Return(id)]);
        CallsConcat(start, recorded, waited);
        SynchroniseEnds(id, R.WaitCalls(true, true));
        OneCall(Done, R.Return(id));
      }
    case _ =>
  }

  // ----- runs -----

  /** Actor `a` enqueues a read through its handle. */
  predicate Reads(s: Block, a: nat, choice: Choice) {
    a < |s.actors| && s.actors[a].Held? && s.actors[a].stage.Handle? && choice.StartRead?
  }

  predicate ReadsDone(s: Block, a: nat) {
    forall r :: r in s.gpuReads && r.guarded ==> r.actor != a
  }

  /**
   In these events actor `a` makes exactly the moves of `path`, enqueues any reads while
   it has a handle, and synchronises with success only once its guarded reads are done.
   */
  predicate Follows(s: Block, events: seq<Event>, a: nat, path: seq<Choice>)
    decreases |events|
  {
    if events == [] then path == []
    else
      var e, rest := events[0], events[1..];
      if !(e.Act? && e.actor == a) || Reads(s, a, e.choice) then Follows(Apply(s, e), rest, a, path)
      else
        && path != [] && e.choice == path[0]
        && (a < |s.actors| && SpotOf(s.actors[a]) == Waiting && !e.choice.Fail? ==> ReadsDone(s, a))
        && Follows(Apply(s, e), rest, a, path[1..])
  }

  /** None of the choices by which a new call begins. */
  predicate OwnerChoice(choice: Choice) {
    choice.Bind? || choice.Drop? || choice.Fail? || choice.Proceed?
  }

  predicate OwnerChoices(path: seq<Choice>) {
    forall i :: 0 <= i < |path| ==> OwnerChoice(path[i])
  }

  lemma {:induction false} MovesAreOwners(calls: seq<R.Call>)
    ensures OwnerChoices(AllMoves(calls))
    decreases |calls|
  {
    if calls != [] {
      MovesAreOwners(calls[1..]);
    }
  }

  /** Actor `a` holds a reference on `uid`, or is done with it. */
  predicate AtSpot(s: Block, a: nat, uid: nat, spot: Spot) {
    && a < |s.actors| && SpotOf(s.actors[a]) == spot
    && if spot == Gone then s.actors[a] == Idle else s.actors[a].Held? && s.actors[a].uid == uid
  }

  lemma OwnerSpot(s: Block, a: nat, uid: nat, spot: Spot, choice: Choice)
    requires AtSpot(s, a, uid, spot) && OwnerChoice(choice) && (spot != Gone ==> s.refcount > 0)
    requires spot == Waiting && !choice.Fail? ==> ReadsDone(s, a)
    ensures AtSpot(Apply(s, Act(a, choice)), a, uid, SpotAfter(spot, choice))
  {
    if spot != Gone {
      HeldSpot(s, a, uid, spot, choice);
    }
  }

  lemma HeldSpot(s: Block, a: nat, uid: nat, spot: Spot, choice: Choice)
    requires AtSpot(s, a, uid, spot) && OwnerChoice(choice) && s.refcount > 0 && spot != Gone
    requires spot == Waiting && !choice.Fail? ==> ReadsDone(s, a)
    ensures AtSpot(OwnerStep(s, a, choice), a, uid, SpotAfter(spot, choice))
  {
  }

  lemma OtherSpot(s: Block, e: Event, a: nat, uid: nat, spot: Spot)
    requires AtSpot(s, a, uid, spot) && (!(e.Act? && e.actor == a) || Reads(s, a, e.choice))
    ensures AtSpot(Apply(s, e), a, uid, spot)
  {
    if e.Act? && e.actor == a {
      assert Apply(s, e) == OwnerStep(s, a, e.choice);
    } else if e.Act? && e.actor < |s.actors| {
      StepFrame(s, e.actor, e.choice);
    }
  }

  lemma {:induction false} FollowsSpot(s: Block, events: seq<Event>, a: nat, path: seq<Choice>, uid: nat, spot: Spot)
    requires Inv(s) && !Run(s, events).overflowed && AtSpot(s, a, uid, spot)
    requires OwnerChoices(path) && Follows(s, events, a, path)
    ensures AtSpot(Run(s, events), a, uid, SpotAfterAll(spot, path))
    decreases |events|
  {
    if events != [] {
      var e, s' := events[0], Apply(s, events[0]);
      InvStep(s, e);
      NeverOverflowed(s, events);
      if !(e.Act? && e.actor == a) || Reads(s, a, e.choice) {
        OtherSpot(s, e, a, uid, spot);
        FollowsSpot(s', events[1..], a, path, uid, spot);
      } else {
        UnitsBound(s.actors, a);
        OwnerSpot(s, a, uid, spot, e.choice);
        FollowsSpot(s', events[1..], a, path[1..], uid, SpotAfter(spot, e.choice));
      }
    }
  }

  lemma {:induction false} NeverOverflowed(s: Block, events: seq<Event>)
    requires Inv(s) && !Run(s, events).overflowed
    ensures !s.overflowed
    decreases |events|
  {
    if events != [] {
      InvStep(s, events[0]);
      OverflowStep(s, events[0]);
      NeverOverflowed(Apply(s, events[0]), events[1..]);
    }
  }

  lemma SpotUnit(s: Block, a: nat, f: R.Fate)
    requires AtSpot(s, a, f.ref.uid, SpotFor(f))
    ensures Unit(s.actors[a]) == R.One(f, f.ref.object_)
  {
  }

  /**
   The ledger of references is what the protocol does.  Let a reference be just acquired
   by actor `a`, in any reachable state, and let `a` make the moves that stand for the
   calls recorded for it, with everybody else's steps in between.  Then `a` ends where the
   ledger says the reference is, with its one unit unless the ledger says it is released.
   */
  lemma ReferenceIsRun(b: R.Books, id: nat, s: Block, events: seq<Event>, a: nat)
    requires R.Right(b) && id < |b.fates|
    requires Inv(s) && !Run(s, events).overflowed && AtSpot(s, a, b.fates[id].ref.uid, Unbound)
    requires Follows(s, events, a, Path(b.fates[id], R.CallsFor(b.log, id)))
    ensures
      var f, s' := b.fates[id], Run(s, events);
      && AtSpot(s', a, f.ref.uid, SpotFor(f))
      && Unit(s'.actors[a]) == R.One(f, f.ref.object_)
  {
    R.RightMeans(b);
    var f, calls := b.fates[id], R.CallsFor(b.log, id);
    MovesAreOwners(calls);
    PathEnds(b.places, f, calls);
    FollowsSpot(s, events, a, Path(f, calls), f.ref.uid, Unbound);
    SpotUnit(Run(s, events), a, f);
  }

  function OwnEvents(a: nat, path: seq<Choice>): seq<Event> {
    seq(|path|, i requires 0 <= i < |path| => Act(a, path[i]))
  }

  lemma NoNewReads(s: Block, a: nat, choice: Choice)
    requires OwnerChoice(choice) && ReadsDone(s, a)
    ensures ReadsDone(Apply(s, Act(a, choice)), a)
  {
    if a < |s.actors| {
      HistoryStepHolds(s, a, choice);
      if s.actors[a].Held? {
        assert Apply(s, Act(a, choice)) == OwnerStep(s, a, choice);
      }
    }
  }

  lemma {:induction false} OwnEventsFollow(s: Block, a: nat, path: seq<Choice>)
    requires OwnerChoices(path) && ReadsDone(s, a)
    ensures Follows(s, OwnEvents(a, path), a, path)
    decreases |path|
  {
    if path != [] {
      NoNewReads(s, a, path[0]);
      assert OwnEvents(a, path)[1..] == OwnEvents(a, path[1..]);
      OwnEventsFollow(Apply(s, Act(a, path[0])), a, path[1..]);
    }
  }

  /** Such a run exists for every record of the ledger. */
  lemma RecordedRunExists(b: R.Books, id: nat, s: Block, a: nat) returns (events: seq<Event>)
    requires R.Right(b) && id < |b.fates|
    requires ReadsOk(s) && AtSpot(s, a, b.fates[id].ref.uid, Unbound)
    ensures Follows(s, events, a, Path(b.fates[id], R.CallsFor(b.log, id)))
  {
    var path := Path(b.fates[id], R.CallsFor(b.log, id));
    MovesAreOwners(R.CallsFor(b.log, id));
    forall r | r in s.gpuReads && r.guarded ensures r.actor != a {
      assert ReadOk(s, r);
    }
    OwnEventsFollow(s, a, path);
    events := OwnEvents(a, path);
  }

  // ----- reservations -----

  /** The choice by which the owner brings a reservation to this end. */
  predicate EndsAs(choice: Choice, fate: P.Fate) {
    match fate
    case Outstanding => false
    case Committed => choice.Commit?
    case Cancelled => choice.Cancel?
    case Quarantined => choice.Quarantine?
  }

  /** Where the owner can be once it has made that choice. */
  predicate OnTheWay(fate: P.Fate, uid: nat, pc: Pc) {
    match fate
    case Outstanding => false
    case Committed =>
      || pc == ReleaseCheck(uid, true) || pc == ReleaseClock(uid) || (pc.ReleaseStamp? && pc.uid == uid)
      || pc == ReleaseDrop(uid, true) || pc == Idle
    case Cancelled => pc == ReleaseCheck(uid, false) || pc == ReleaseDrop(uid, false) || pc == Idle
    case Quarantined => pc == Quarantined(uid)
  }

  predicate Stamped(fate: P.Fate, pc: Pc) {
    fate == P.Committed && (pc.ReleaseDrop? || pc.Idle?)
  }

  predicate Ending(s: Block, a: nat, fate: P.Fate, uid: nat) {
    && a < |s.actors| && uid <= s.uid
    && OnTheWay(fate, uid, s.actors[a]) && (Committed(s, uid) <==> Stamped(fate, s.actors[a]))
    && (s.uid == uid ==> forall i :: 0 <= i < |s.actors| && i != a ==> !HoldsReservation(s.actors[i]))
  }

  lemma EndBegins(s: Block, a: nat, choice: Choice, fate: P.Fate)
    requires FullInv(s) && !s.overflowed && a < |s.actors| && s.actors[a].Reserved? && EndsAs(choice, fate)
    ensures Ending(Apply(s, Act(a, choice)), a, fate, s.actors[a].uid)
  {
    var s', uid := Apply(s, Act(a, choice)), s.actors[a].uid;
    StepOf(s, a, choice);
    HistoryStepHolds(s, a, choice);
    assert s' == ReservedStep(s, a, uid, choice);
    assert PublisherHistoryOk(s, s.actors[a]) && s'.log == s.log;
    forall i | 0 <= i < |s'.actors| && i != a ensures !HoldsReservation(s'.actors[i]) {
      assert Publisher(s.actors[a]);
    }
  }

  lemma OwnEnding(s: Block, a: nat, fate: P.Fate, uid: nat)
    requires Inv(s) && !s.overflowed && Ending(s, a, fate, uid) && Releasing(s.actors[a])
    ensures
      var pc' := ReleaseStep(s, a).actors[a];
      && OnTheWay(fate, uid, pc')
      && (Stamped(fate, pc') <==> Stamped(fate, s.actors[a]) || s.actors[a].ReleaseStamp?)
  {
    UnitsBound(s.actors, a);
    assert ActorOk(s, s.actors[a]);
  }

  lemma OwnMove(s: Block, a: nat, choice: Choice, fate: P.Fate, uid: nat)
    requires Inv(s) && !s.overflowed && Ending(s, a, fate, uid) && s.actors[a] != Idle
    ensures
      var pc' := Apply(s, Act(a, choice)).actors[a];
      && OnTheWay(fate, uid, pc')
      && (Stamped(fate, pc') <==> Stamped(fate, s.actors[a]) || s.actors[a].ReleaseStamp?)
  {
    if Releasing(s.actors[a]) {
      assert Apply(s, Act(a, choice)) == ReleaseStep(s, a);
      OwnEnding(s, a, fate, uid);
    } else {
      assert Apply(s, Act(a, choice)) == s;
    }
  }

  /** A step of any actor, as long as the owner starts no other call. */
  lemma EndingStep(s: Block, i: nat, choice: Choice, a: nat, fate: P.Fate, uid: nat)
    requires FullInv(s) && !s.overflowed && Ending(s, a, fate, uid) && i < |s.actors|
    requires i == a ==> s.actors[a] != Idle
    ensures Ending(Apply(s, Act(i, choice)), a, fate, uid)
  {
    var s', pc := Apply(s, Act(i, choice)), s.actors[i];
    StepOf(s, i, choice);
    HistoryStepHolds(s, i, choice);
    if i == a {
      OwnMove(s, a, choice, fate, uid);
    }
    CommittedStays(s, s');
    if Committed(s', uid) && !Committed(s, uid) {
      var k :| 0 <= k < |s'.log| && s'.log[k].uid == uid;
      assert pc.ReleaseStamp? && pc.uid == uid;
    }
    if pc.ReleaseStamp? {
      assert s'.log[|s.log|].uid == pc.uid;
    }
  }

  lemma EndingEvent(s: Block, e: Event, a: nat, fate: P.Fate, uid: nat)
    requires FullInv(s) && !s.overflowed && Ending(s, a, fate, uid)
    requires e.Act? && e.actor == a ==> s.actors[a] != Idle
    ensures Ending(Apply(s, e), a, fate, uid)
  {
    if e.Act? && e.actor < |s.actors| {
      EndingStep(s, e.actor, e.choice, a, fate, uid);
    }
  }

  /** Event `c` is the choice of actor `a`, which owns `uid`, to bring its reservation to this end. */
  predicate Chooses(init: Block, events: seq<Event>, c: nat, a: nat, uid: nat, fate: P.Fate) {
    && c < |events| && events[c].Act? && events[c].actor == a && EndsAs(events[c].choice, fate)
    && var s := At(init, events, c);
       a < |s.actors| && s.actors[a] == Reserved(uid)
  }

  /** Between events `c` and `m` actor `a` begins no call. */
  predicate NoCall(init: Block, events: seq<Event>, a: nat, c: nat, m: nat)
    requires m <= |events|
  {
    forall n :: c < n < m && events[n].Act? && events[n].actor == a ==>
      var s := At(init, events, n);
      a < |s.actors| && s.actors[a] != Idle
  }

  lemma ReachedBefore(init: Block, events: seq<Event>, m: nat)
    requires Init(init) && 0 < m <= |events| && !At(init, events, m).overflowed
    ensures FullInv(At(init, events, m - 1)) && !At(init, events, m - 1).overflowed
    ensures At(init, events, m) == Apply(At(init, events, m - 1), events[m - 1])
  {
    AtNext(init, events, m - 1);
    FullInit(init);
    FullRun(init, events[..m - 1]);
    OverflowStep(At(init, events, m - 1), events[m - 1]);
  }

  lemma EndingStarts(init: Block, events: seq<Event>, a: nat, c: nat, uid: nat, fate: P.Fate)
    requires Init(init) && c < |events| && !At(init, events, c + 1).overflowed
    requires Chooses(init, events, c, a, uid, fate)
    ensures Ending(At(init, events, c + 1), a, fate, uid)
  {
    ReachedBefore(init, events, c + 1);
    EndBegins(At(init, events, c), a, events[c].choice, fate);
  }

  lemma NoCallEarlier(init: Block, events: seq<Event>, a: nat, c: nat, m: nat)
    requires 0 < m <= |events| && NoCall(init, events, a, c, m)
    ensures NoCall(init, events, a, c, m - 1)
  {
  }

  lemma EndingGoesOn(init: Block, events: seq<Event>, a: nat, c: nat, m: nat, uid: nat, fate: P.Fate)
    requires Init(init) && c + 1 < m <= |events| && !At(init, events, m).overflowed
    requires NoCall(init, events, a, c, m) && Ending(At(init, events, m - 1), a, fate, uid)
    ensures Ending(At(init, events, m), a, fate, uid)
  {
    ReachedBefore(init, events, m);
    EndingEvent(At(init, events, m - 1), events[m - 1], a, fate, uid);
  }

  lemma {:induction false} EndingRun(init: Block, events: seq<Event>, a: nat, c: nat, m: nat, uid: nat, fate: P.Fate)
    requires Init(init) && c < m <= |events| && !At(init, events, m).overflowed
    requires Chooses(init, events, c, a, uid, fate) && NoCall(init, events, a, c, m)
    ensures Ending(At(init, events, m), a, fate, uid)
    decreases m
  {
    if m == c + 1 {
      EndingStarts(init, events, a, c, uid, fate);
    } else {
      ReachedBefore(init, events, m);
      NoCallEarlier(init, events, a, c, m);
      EndingRun(init, events, a, c, m - 1, uid, fate);
      EndingGoesOn(init, events, a, c, m, uid, fate);
    }
  }

  /**
   The ledger of reservations is what the protocol does.  Once the owner has made its
   choice at event `c`, whatever everybody else does, it goes the way of that choice and
   of no other; when it is done its generation has been committed if and only if the
   ledger says so, and its unit is back unless the ledger says it is unreturned.
   */
  lemma ReservationIsRun(init: Block, events: seq<Event>, a: nat, c: nat, m: nat, uid: nat, fate: P.Fate)
    requires Init(init) && c < m <= |events| && !At(init, events, m).overflowed
    requires Chooses(init, events, c, a, uid, fate) && NoCall(init, events, a, c, m)
    ensures
      var s := At(init, events, m);
      && a < |s.actors| && OnTheWay(fate, uid, s.actors[a])
      && (s.actors[a].Idle? || s.actors[a].Quarantined? ==>
            && (Committed(s, uid) <==> fate == P.Committed)
            && Unit(s.actors[a]) == if P.Unreturned(fate) then 1 else 0)
  {
    EndingRun(init, events, a, c, m, uid, fate);
  }
}
