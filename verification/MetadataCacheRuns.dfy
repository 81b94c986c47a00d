/**
 Any number of threads inside `get_or_attach` at once, each in its own critical
 section, attach or check, while publishers restart and uids move on.
 */
module MetadataCacheRuns {
  import opened Machine
  import opened MetadataCache

  /** Where a thread's call is. */
  datatype Phase =
    | Idle
    | Attaching(key: Key, uid: nat)
    | Checking(key: Key, uid: nat, candidate: nat)
    | Inserting(key: Key, uid: nat, candidate: nat)
    | Done(key: Key, uid: nat, result: Option<nat>)

  /** `history` lists every world so far; the last one is current. */
  datatype System = System(mappings: map<Key, nat>, threads: seq<Phase>, history: seq<World>)

  datatype Event =
    | Change(world: World)
    | Begin(thread: nat, key: Key, uid: nat)
    | Step(thread: nat, attachable: bool)
    | Clear

  function Now(s: System): World
    requires s.history != []
  {
    s.history[|s.history| - 1]
  }

  /** The first critical section. */
  function BeginCall(s: System, t: nat, key: Key, uid: nat): System
    requires t < |s.threads| && s.history != []
  {
    var (kept, hit) := Lookup(s.mappings, Now(s), key, uid);
    s.(mappings := kept, threads := s.threads[t := if hit.Some? then Done(key, uid, hit) else Attaching(key, uid)])
  }

  /** The second critical section. */
  function Insert(s: System, t: nat, key: Key, uid: nat, candidate: nat): System
    requires t < |s.threads| && s.history != []
  {
    var (kept, hit) := Lookup(s.mappings, Now(s), key, uid);
    if hit.Some? then s.(mappings := kept, threads := s.threads[t := Done(key, uid, hit)])
    else s.(mappings := kept[key := candidate], threads := s.threads[t := Done(key, uid, Some(candidate))])
  }

  function Apply(s: System, e: Event): (s': System)
    requires s.history != []
    ensures s'.history != [] && s.history <= s'.history
  {
    match e
    case Change(world) => s.(history := s.history + [world])
    case Clear => s.(mappings := map[])
    case Begin(t, key, uid) =>
      if t < |s.threads| && (s.threads[t].Idle? || s.threads[t].Done?) then BeginCall(s, t, key, uid) else s
    case Step(t, attachable) =>
      if t >= |s.threads| then s else
      match s.threads[t]
      case Attaching(key, uid) =>
        s.(threads := s.threads[t :=
          if attachable && key in Now(s).names then Checking(key, uid, Now(s).names[key]) else Done(key, uid, None)])
      case Checking(key, uid, candidate) =>
        s.(threads := s.threads[t :=
          if HasUid(Now(s), candidate, uid) then Inserting(key, uid, candidate) else Done(key, uid, None)])
      case Inserting(key, uid, candidate) => Insert(s, t, key, uid, candidate)
      case _ => s
  }

  function Run(s: System, events: seq<Event>): (s': System)
    requires s.history != []
    ensures s'.history != []
    decreases |events|
  {
    if events == [] then s else Run(Apply(s, events[0]), events[1..])
  }

  /** The object has stood for the name at some moment. */
  ghost predicate Carried(history: seq<World>, key: Key, object_: nat) {
    exists k :: 0 <= k < |history| && key in history[k].names && history[k].names[key] == object_
  }

  /** The object has shown the uid at some moment. */
  ghost predicate Showed(history: seq<World>, object_: nat, uid: nat) {
    exists k :: 0 <= k < |history| && HasUid(history[k], object_, uid)
  }

  ghost predicate PhaseOk(history: seq<World>, p: Phase) {
    match p
    case Checking(key, _, candidate) => Carried(history, key, candidate)
    case Inserting(key, uid, candidate) => Carried(history, key, candidate) && Showed(history, candidate, uid)
    case Done(key, uid, Some(m)) => Carried(history, key, m) && Showed(history, m, uid)
    case _ => true
  }

  ghost predicate Inv(s: System) {
    && s.history != []
    && (forall key :: key in s.mappings ==> Carried(s.history, key, s.mappings[key]))
    && (forall t :: 0 <= t < |s.threads| ==> PhaseOk(s.history, s.threads[t]))
  }

  /** What has been carried and shown stays on record. */
  lemma HistoryGrows(history: seq<World>, world: World)
    ensures forall key, o :: Carried(history, key, o) ==> Carried(history + [world], key, o)
    ensures forall o, uid :: Showed(history, o, uid) ==> Showed(history + [world], o, uid)
  {
    var longer := history + [world];
    forall key, o | Carried(history, key, o) ensures Carried(longer, key, o) {
      var k :| 0 <= k < |history| && key in history[k].names && history[k].names[key] == o;
      assert longer[k] == history[k];
    }
    forall o, uid | Showed(history, o, uid) ensures Showed(longer, o, uid) {
      var k :| 0 <= k < |history| && HasUid(history[k], o, uid);
      assert longer[k] == history[k];
    }
  }

  lemma SeenNow(s: System, key: Key, object_: nat, uid: nat)
    requires s.history != []
    ensures key in Now(s).names && Now(s).names[key] == object_ ==> Carried(s.history, key, object_)
    ensures HasUid(Now(s), object_, uid) ==> Showed(s.history, object_, uid)
  {
    assert s.history[|s.history| - 1] == Now(s);
  }

  lemma InvStep(s: System, e: Event)
    requires Inv(s)
    ensures Inv(Apply(s, e))
  {
    match e
    case Change(world) => HistoryGrows(s.history, world);
    case Clear =>
    case Begin(t, key, uid) =>
      if key in s.mappings {
        SeenNow(s, key, s.mappings[key], uid);
      }
    case Step(t, attachable) =>
      if t < |s.threads| && !s.threads[t].Idle? {
        var key := s.threads[t].key;
        if key in Now(s).names {
          SeenNow(s, key, Now(s).names[key], 0);
        }
        if s.threads[t].Checking? || s.threads[t].Inserting? {
          SeenNow(s, key, s.threads[t].candidate, s.threads[t].uid);
        }
        if key in s.mappings {
          SeenNow(s, key, s.mappings[key], s.threads[t].uid);
        }
      }
  }

  /** A cache as constructed, with threads that have not called it. */
  predicate Init(s: System) {
    |s.history| == 1 && s.mappings == map[] && forall t :: 0 <= t < |s.threads| ==> s.threads[t] == Idle
  }

  lemma {:induction false} RunInv(s: System, events: seq<Event>)
    requires Inv(s)
    ensures Inv(Run(s, events))
    decreases |events|
  {
    if events != [] {
      InvStep(s, events[0]);
      RunInv(Apply(s, events[0]), events[1..]);
    }
  }

  /** The object has carried the name and has shown the uid, at some moment each. */
  ghost predicate Offered(history: seq<World>, key: Key, uid: nat, m: nat) {
    Carried(history, key, m) && Showed(history, m, uid)
  }

  /** No two objects that carried the name at any moment ever showed the same uid. */
  ghost predicate Distinguished(history: seq<World>, key: Key) {
    forall m, n, uid :: Offered(history, key, uid, m) && Offered(history, key, uid, n) ==> m == n
  }

  /**
   In every run, what any call has returned carried the name and showed the
   expected uid; and if uids distinguish the objects of that name, it is the only
   object that ever did, hence the one any direct lookup in the run finds.
   */
  lemma ReturnsTheOnlyObject(init: System, events: seq<Event>, t: nat, k: nat, l: nat)
    requires Init(init)
    requires
      var s := Run(init, events);
      && t < |s.threads| && s.threads[t].Done? && s.threads[t].result.Some?
      && k < |s.history| && l < |s.history|
    ensures
      var s := Run(init, events);
      var Done(key, uid, Some(m)) := s.threads[t];
      && Carried(s.history, key, m) && Showed(s.history, m, uid)
      && (Distinguished(s.history, key) && Direct(s.history[k], s.history[l], true, key, uid).Some? ==>
            Direct(s.history[k], s.history[l], true, key, uid) == Some(m))
  {
    RunInv(init, events);
    var s := Run(init, events);
    assert PhaseOk(s.history, s.threads[t]);
    var key, uid := s.threads[t].key, s.threads[t].uid;
    var direct := Direct(s.history[k], s.history[l], true, key, uid);
    if direct.Some? {
      assert Offered(s.history, key, uid, direct.value);
    }
    assert Offered(s.history, key, uid, s.threads[t].result.value);
  }

  /**
   A thread's call, whatever the other threads do in between, ends as `Outcome` says
   for the worlds it read and the table it found at its second critical section.
   */
  lemma CallIsOutcome(before: System, key: Key, uid: nat, t: nat, attach: System, check: System, second: System,
                      attachable: bool)
    requires before.history != [] && attach.history != [] && check.history != [] && second.history != []
    requires t < |before.threads| && (before.threads[t].Idle? || before.threads[t].Done?)
    requires t < |attach.threads| && attach.threads[t] == Apply(before, Begin(t, key, uid)).threads[t]
    requires t < |check.threads| && check.threads[t] == Apply(attach, Step(t, attachable)).threads[t]
    requires t < |second.threads| && second.threads[t] == Apply(check, Step(t, attachable)).threads[t]
    ensures
      var run := MetadataCache.Run(Now(before), Now(attach), Now(check), Now(second), attachable, second.mappings);
      Apply(second, Step(t, attachable)).threads[t] == Done(key, uid, Outcome(before.mappings, run, key, uid).1)
  {
  }
}
