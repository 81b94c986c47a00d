/**
 `IpcHandleCache`: imported resources shared by the cache and any number of outside
 owners, under any interleaving of its critical sections and of owners' drops.
 */
module ImportCache {
  import opened Machine

  datatype Key = Key(publisherPid: nat, blockId: nat, deviceId: nat, socketPath: string, event: seq<nat>)

  /**
   `owners` counts the shared pointers outside the cache; `sweeping` are the tables
   that calls of `clear` have swapped out and not yet emptied; `released` is what
   the release function was called with, in order.  Resources below `imported`
   exist or have existed.
   */
  datatype State = State(
    cache: map<Key, nat>,
    owners: multiset<nat>,
    sweeping: seq<map<Key, nat>>,
    imported: nat,
    released: seq<nat>)

  datatype Event =
    | Import
    | Insert(key: Key, candidate: nat)
    | Find(key: Key)
    | Copy(resource: nat)
    | Drop(resource: nat)
    | Swap
    | Sweep(table: nat, key: Key)

  ghost predicate Stored(table: map<Key, nat>, r: nat) {
    exists key :: key in table && table[key] == r
  }

  ghost predicate Swept(tables: seq<map<Key, nat>>, r: nat) {
    exists i :: 0 <= i < |tables| && Stored(tables[i], r)
  }

  ghost predicate Held(s: State, r: nat) {
    r in s.owners || Stored(s.cache, r) || Swept(s.sweeping, r)
  }

  /** The last shared pointer to go calls the release function. */
  ghost function Settle(s: State, r: nat): State {
    if Held(s, r) then s else s.(released := s.released + [r])
  }

  /** The resource that an event hands to its caller. */
  function Result(s: State, e: Event): Option<nat> {
    match e
    case Insert(key, candidate) => Some(if key in s.cache then s.cache[key] else candidate)
    case Find(key) => if key in s.cache then Some(s.cache[key]) else None
    case Import => Some(s.imported)
    case _ => None
  }

  predicate Enabled(s: State, e: Event) {
    match e
    case Insert(_, candidate) => candidate in s.owners
    case Copy(r) => r in s.owners
    case Drop(r) => r in s.owners
    case Sweep(i, key) => i < |s.sweeping| && key in s.sweeping[i]
    case _ => true
  }

  ghost function Apply(s: State, e: Event): State
    requires Enabled(s, e)
  {
    match e
    case Import => s.(owners := s.owners + multiset{s.imported}, imported := s.imported + 1)
    case Insert(key, candidate) =>
      if key in s.cache then s.(owners := s.owners + multiset{s.cache[key]})
      else s.(cache := s.cache[key := candidate], owners := s.owners + multiset{candidate})
    case Find(key) =>
      if key in s.cache then s.(owners := s.owners + multiset{s.cache[key]}) else s
    case Copy(r) => s.(owners := s.owners + multiset{r})
    case Drop(r) => Settle(s.(owners := s.owners - multiset{r}), r)
    case Swap => s.(cache := map[], sweeping := s.sweeping + [s.cache])
    case Sweep(i, key) =>
      Settle(s.(sweeping := s.sweeping[i := s.sweeping[i] - {key}]), s.sweeping[i][key])
  }

  /** Every resource ever imported has been released once if nothing holds it, and not at all otherwise. */
  ghost predicate Sound(s: State) {
    forall r: nat :: multiset(s.released)[r] == if r < s.imported && !Held(s, r) then 1 else 0
  }

  ghost predicate Bounded(s: State) {
    forall r: nat :: Held(s, r) ==> r < s.imported
  }

  lemma Unreleased(s: State, t: State)
    requires Sound(s) && Bounded(s) && t.released == s.released && t.imported == s.imported
    requires forall r: nat :: Held(t, r) <==> Held(s, r)
    ensures Sound(t) && Bounded(t)
  {
  }

  /** Letting go of one shared pointer to `r`. */
  lemma SettleKeeps(s: State, t: State, r: nat)
    requires Sound(s) && Bounded(s) && Held(s, r) && t.released == s.released && t.imported == s.imported
    requires forall q: nat :: q != r ==> (Held(t, q) <==> Held(s, q))
    ensures Sound(Settle(t, r)) && Bounded(Settle(t, r))
  {
    var u := Settle(t, r);
    forall q: nat ensures Held(u, q) <==> Held(t, q) {
    }
    assert multiset(s.released)[r] == 0;
  }

  lemma SwapHolds(s: State, r: nat)
    ensures Held(Apply(s, Swap), r) <==> Held(s, r)
  {
    var t := Apply(s, Swap);
    assert t.sweeping[|s.sweeping|] == s.cache;
    if Swept(s.sweeping, r) {
      var i :| 0 <= i < |s.sweeping| && Stored(s.sweeping[i], r);
      assert t.sweeping[i] == s.sweeping[i];
    }
    if Stored(s.cache, r) {
      assert Stored(t.sweeping[|s.sweeping|], r);
    }
  }

  lemma SweepHolds(s: State, i: nat, key: Key, r: nat)
    requires i < |s.sweeping| && key in s.sweeping[i] && r != s.sweeping[i][key]
    ensures Held(s.(sweeping := s.sweeping[i := s.sweeping[i] - {key}]), r) <==> Held(s, r)
  {
    var after := s.sweeping[i := s.sweeping[i] - {key}];
    if Swept(s.sweeping, r) {
      var j :| 0 <= j < |s.sweeping| && Stored(s.sweeping[j], r);
      var k :| k in s.sweeping[j] && s.sweeping[j][k] == r;
      assert k in after[j] && after[j][k] == r;
      assert Stored(after[j], r);
    }
    if Swept(after, r) {
      var j :| 0 <= j < |after| && Stored(after[j], r);
      var k :| k in after[j] && after[j][k] == r;
      assert k in s.sweeping[j] && s.sweeping[j][k] == r;
      assert Stored(s.sweeping[j], r);
    }
  }

  lemma InsertHolds(s: State, key: Key, candidate: nat, r: nat)
    requires candidate in s.owners
    ensures Held(Apply(s, Insert(key, candidate)), r) <==> Held(s, r)
  {
    var t := Apply(s, Insert(key, candidate));
    if key !in s.cache {
      if Stored(s.cache, r) {
        var k :| k in s.cache && s.cache[k] == r;
        assert k in t.cache && t.cache[k] == r;
      }
      if Stored(t.cache, r) && r != candidate {
        var k :| k in t.cache && t.cache[k] == r;
        assert k in s.cache && s.cache[k] == r;
      }
    } else {
      assert Stored(s.cache, s.cache[key]);
    }
  }

  /** Each resource is released exactly when its last holder goes: whatever the event, the account stays right. */
  lemma ApplyKeeps(s: State, e: Event)
    requires Sound(s) && Bounded(s) && Enabled(s, e)
    ensures Sound(Apply(s, e)) && Bounded(Apply(s, e))
  {
    var t := Apply(s, e);
    match e
    case Import =>
      forall r: nat ensures Held(t, r) <==> Held(s, r) || r == s.imported {
      }
      assert Sound(t);
    case Insert(key, candidate) =>
      forall r: nat ensures Held(t, r) <==> Held(s, r) {
        InsertHolds(s, key, candidate, r);
      }
      Unreleased(s, t);
    case Find(key) =>
      if key in s.cache {
        assert Stored(s.cache, s.cache[key]);
        forall r: nat ensures Held(t, r) <==> Held(s, r) {
        }
        Unreleased(s, t);
      }
    case Copy(_) =>
      forall r: nat ensures Held(t, r) <==> Held(s, r) {
      }
      Unreleased(s, t);
    case Drop(r) =>
      var u := s.(owners := s.owners - multiset{r});
      forall q: nat | q != r ensures Held(u, q) <==> Held(s, q) {
      }
      SettleKeeps(s, u, r);
    case Swap =>
      forall r: nat ensures Held(t, r) <==> Held(s, r) {
        SwapHolds(s, r);
      }
      Unreleased(s, t);
    case Sweep(i, key) =>
      var r := s.sweeping[i][key];
      var u := s.(sweeping := s.sweeping[i := s.sweeping[i] - {key}]);
      assert Stored(s.sweeping[i], r);
      forall q: nat | q != r ensures Held(u, q) <==> Held(s, q) {
        SweepHolds(s, i, key, q);
      }
      SettleKeeps(s, u, r);
  }

  // ----- runs -----

  const EMPTY: State := State(map[], multiset{}, [], 0, [])

  /** Events that are not enabled do not happen. */
  ghost function Step(s: State, e: Event): State {
    if Enabled(s, e) then Apply(s, e) else s
  }

  ghost function Run(s: State, events: seq<Event>): State
    decreases |events|
  {
    if events == [] then s else Run(Step(s, events[0]), events[1..])
  }

  /**
   At every moment of every run each imported resource has been released exactly
   once if neither the cache nor any owner holds it, and never otherwise.
   */
  lemma {:induction false} ReleasedExactlyOnce(s: State, events: seq<Event>)
    requires Sound(s) && Bounded(s)
    ensures Sound(Run(s, events)) && Bounded(Run(s, events))
    decreases |events|
  {
    if events != [] {
      if Enabled(s, events[0]) {
        ApplyKeeps(s, events[0]);
      }
      ReleasedExactlyOnce(Step(s, events[0]), events[1..]);
    }
  }

  lemma StartsSound()
    ensures Sound(EMPTY) && Bounded(EMPTY)
  {
  }

  /** What is cached for a key stays until the cache is cleared. */
  lemma {:induction false} EntryStays(s: State, events: seq<Event>, key: Key)
    requires key in s.cache && forall i :: 0 <= i < |events| ==> !events[i].Swap?
    ensures key in Run(s, events).cache && Run(s, events).cache[key] == s.cache[key]
    decreases |events|
  {
    if events != [] {
      EntryStays(Step(s, events[0]), events[1..], key);
    }
  }

  /**
   The first writer wins: every insertion and every lookup of the key up to the next
   clear returns the resource that the first insertion returned.
   */
  lemma FirstWriterWins(s: State, first: Event, events: seq<Event>, later: Event)
    requires first.Insert? && Enabled(s, first)
    requires forall i :: 0 <= i < |events| ==> !events[i].Swap?
    requires (later.Insert? || later.Find?) && later.key == first.key
    ensures Result(Run(Apply(s, first), events), later) == Result(s, first)
  {
    EntryStays(Apply(s, first), events, first.key);
  }

  /** A resource is handed out by an import, by an insertion, and by a lookup of a cached key, and never otherwise. */
  lemma HandsOut(s: State, e: Event)
    ensures Result(s, e).Some? <==> e.Import? || e.Insert? || (e.Find? && e.key in s.cache)
  {
  }

  /**
   Whatever an event hands to its caller, in any run, is a resource that has been imported,
   that the caller now holds, and that has not been released.
   */
  lemma HandedOutIsHeld(events: seq<Event>, e: Event)
    requires Enabled(Run(EMPTY, events), e) && Result(Run(EMPTY, events), e).Some?
    ensures
      var s := Run(EMPTY, events);
      var t, r := Apply(s, e), Result(s, e).value;
      && t.owners[r] == s.owners[r] + 1 && r < t.imported && r !in t.released
      && (e.Find? || e.Insert? ==> e.key in t.cache && t.cache[e.key] == r)
  {
    var s := Run(EMPTY, events);
    StartsSound();
    ReleasedExactlyOnce(EMPTY, events);
    ApplyKeeps(s, e);
    var t, r := Apply(s, e), Result(s, e).value;
    assert Held(t, r);
    assert multiset(t.released)[r] == 0;
  }

  /** Holders outside the cache come only with what is handed out or copied, and go only one by one. */
  lemma OwnersExactly(s: State, e: Event, r: nat)
    requires Enabled(s, e)
    ensures
      Apply(s, e).owners[r] + (if e == Drop(r) then 1 else 0) ==
      s.owners[r] + if Result(s, e) == Some(r) || e == Copy(r) then 1 else 0
  {
  }

  // ----- the class -----

  class IpcHandleCache {
    var cache: map<Key, nat>
    ghost var owners: multiset<nat>
    ghost var sweeping: seq<map<Key, nat>>
    ghost var imported: nat
    ghost var released: seq<nat>

    ghost function All(): State
      reads this
    {
      State(cache, owners, sweeping, imported, released)
    }

    ghost predicate Valid()
      reads this
    {
      Sound(All()) && Bounded(All())
    }

    constructor ()
      ensures Valid() && All() == EMPTY
    {
      cache, owners, sweeping, imported, released := map[], multiset{}, [], 0, [];
      new;
    }

    ghost method Record(s: State)
      requires s.cache == cache
      modifies this`owners, this`sweeping, this`imported, this`released
      ensures All() == s
    {
      owners, sweeping, imported, released := s.owners, s.sweeping, s.imported, s.released;
    }

    /** `find`. */
    method Find(key: Key) returns (r: Option<nat>)
      requires Valid()
      modifies this
      ensures Valid() && All() == Apply(old(All()), Event.Find(key)) && r == Result(old(All()), Event.Find(key))
      ensures r.Some? <==> key in old(cache)
      ensures r.Some? ==> r.value == old(cache)[key] && r.value in owners && r.value !in released
      ensures cache == old(cache) && released == old(released)
    {
      ghost var after := Apply(All(), Event.Find(key));
      ApplyKeeps(All(), Event.Find(key));
      assert key in cache ==> Held(after, cache[key]) && multiset(after.released)[cache[key]] == 0;
      r := if key in cache then Some(cache[key]) else None;
      Record(after);
    }

    /** A shared pointer outside the cache goes. */
    ghost method DropOwner(r: nat)
      requires Valid() && r in owners
      modifies this`owners, this`sweeping, this`imported, this`released
      ensures Valid() && All() == Apply(old(All()), Drop(r))
    {
      ApplyKeeps(All(), Drop(r));
      Record(Apply(All(), Drop(r)));
    }

    /**
     `insert_or_discard_duplicate` of a newly imported resource: the caller gets the
     resource first cached for the key, and a duplicate is released before the call
     returns.
     */
    method InsertOrDiscardDuplicate(key: Key, resource: nat) returns (r: nat)
      requires Valid() && resource == imported
      modifies this
      ensures Valid() && key in cache && r == cache[key] && r in owners && imported == old(imported) + 1
      ensures if key in old(cache)
              then r == old(cache)[key] && cache == old(cache) && released == old(released) + [resource]
              else r == resource && cache == old(cache)[key := resource] && released == old(released)
    {
      assert !Held(All(), resource);
      ApplyKeeps(All(), Import);
      Record(Apply(All(), Import));
      ApplyKeeps(All(), Insert(key, resource));
      ghost var after := Apply(All(), Insert(key, resource));
      if key !in cache {
        cache := cache[key := resource];
      }
      r := cache[key];
      Record(after);
      assert Stored(cache, r);
      DropOwner(resource);
    }

    /**
     `clear`: the table is swapped out under the lock and emptied afterwards; each
     resource in it that has no other holder has then been released.
     */
    method Clear()
      requires Valid()
      modifies this
      ensures Valid() && cache == map[] && owners == old(owners) && imported == old(imported)
      ensures forall r: nat ::
        Stored(old(cache), r) && r !in owners && !Swept(old(sweeping), r) ==> multiset(released)[r] == 1
    {
      ApplyKeeps(All(), Swap);
      ghost var swapped := Apply(All(), Swap);
      var entries := cache;
      cache := map[];
      Record(swapped);
      ghost var table := |sweeping| - 1;
      while entries != map[]
        invariant Valid() && cache == map[] && owners == old(owners) && imported == old(imported)
        invariant table == |old(sweeping)| && sweeping == old(sweeping) + [entries]
        decreases |entries|
      {
        var key :| key in entries;
        ghost var e := Sweep(table, key);
        ApplyKeeps(All(), e);
        Record(Apply(All(), e));
        entries := entries - {key};
        assert sweeping == old(sweeping) + [entries];
      }
      forall r: nat | Stored(old(cache), r) && r !in owners && !Swept(old(sweeping), r)
        ensures !Held(All(), r) && r < imported
      {
        assert old(Held(All(), r));
      }
    }
  }
}
