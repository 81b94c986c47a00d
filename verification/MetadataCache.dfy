/**
 `BufferMetadataCache::get_or_attach`, which attaches outside the lock between two
 critical sections, compared with attaching and checking directly.
 */
module MetadataCache {
  import opened Machine

  datatype Key = Key(publisherPid: nat, blockId: nat)

  /** At one moment: the uid in every metadata object, and the object behind every name. */
  datatype World = World(uids: map<nat, nat>, names: map<Key, nat>)

  predicate HasUid(w: World, object_: nat, uid: nat) {
    object_ in w.uids && w.uids[object_] == uid
  }

  /** Every object that a name has ever stood for. */
  type Holders = Key -> set<nat>

  ghost predicate Known(names: map<Key, nat>, ever: Holders) {
    forall k :: k in names ==> names[k] in ever(k)
  }

  /** Attaching at `attach` and checking the uid at `check`, without a cache. */
  function Direct(attach: World, check: World, attachable: bool, key: Key, uid: nat): Option<nat> {
    if attachable && key in attach.names && HasUid(check, attach.names[key], uid) then Some(attach.names[key]) else None
  }

  /** No two objects that ever had the same name show the same uid, at whatever two moments. */
  ghost predicate UidsDistinguish(key: Key, ever: Holders, a: World, b: World) {
    forall m, n, uid :: m in ever(key) && n in ever(key) && HasUid(a, m, uid) && HasUid(b, n, uid) ==> m == n
  }

  /** One critical section's lookup: the cached object if its uid is right; otherwise it is forgotten. */
  function Lookup(mappings: map<Key, nat>, w: World, key: Key, uid: nat): (map<Key, nat>, Option<nat>) {
    if key !in mappings then (mappings, None)
    else if HasUid(w, mappings[key], uid) then (mappings, Some(mappings[key]))
    else (mappings - {key}, None)
  }

  lemma LookupKeepsKnown(mappings: map<Key, nat>, w: World, key: Key, uid: nat, ever: Holders)
    requires Known(mappings, ever)
    ensures Known(Lookup(mappings, w, key, uid).0, ever)
  {
  }

  /**
   What one call sees: the worlds of the uid check in the first critical section, of
   the attach, of the candidate's check and of the check in the second critical
   section; whether attaching works; and what other threads make of the table
   between the two critical sections.
   */
  datatype Run = Run(first: World, attach: World, check: World, second: World, attachable: bool, between: map<Key, nat>)

  ghost predicate RunKnown(run: Run, ever: Holders) {
    Known(run.between, ever) && Known(run.attach.names, ever)
  }

  function DirectIn(run: Run, key: Key, uid: nat): Option<nat> {
    Direct(run.attach, run.check, run.attachable, key, uid)
  }

  /** The table and the result of `get_or_attach`. */
  function Outcome(mappings: map<Key, nat>, run: Run, key: Key, uid: nat): (map<Key, nat>, Option<nat>) {
    var (kept, hit) := Lookup(mappings, run.first, key, uid);
    var direct := DirectIn(run, key, uid);
    if hit.Some? || direct.None? then (kept, hit)
    else
      var (kept', hit') := Lookup(run.between, run.second, key, uid);
      if hit'.Some? then (kept', hit') else (kept'[key := direct.value], direct)
  }

  /** What is returned stood for the name, and had the expected uid when it was checked. */
  lemma ReturnedHadUid(mappings: map<Key, nat>, run: Run, key: Key, uid: nat, ever: Holders)
    requires Known(mappings, ever) && RunKnown(run, ever)
    ensures Known(Outcome(mappings, run, key, uid).0, ever)
    ensures match Outcome(mappings, run, key, uid).1
            case None => true
            case Some(m) =>
              && m in ever(key)
              && (HasUid(run.first, m, uid) || HasUid(run.check, m, uid) || HasUid(run.second, m, uid))
  {
    LookupKeepsKnown(mappings, run.first, key, uid, ever);
    LookupKeepsKnown(run.between, run.second, key, uid, ever);
  }

  /** The tables agree on every other name. */
  predicate SameElsewhere(a: map<Key, nat>, b: map<Key, nat>, key: Key) {
    forall k :: k in a.Keys + b.Keys && k != key ==> k in a && k in b && a[k] == b[k]
  }

  /**
   Afterwards the name's entry is what was returned: a stale one is gone, and a call
   that returns nothing leaves none.  Entries of other names stay as the call found them.
   */
  lemma EntryIsResult(mappings: map<Key, nat>, run: Run, key: Key, uid: nat)
    ensures
      var (after, m) := Outcome(mappings, run, key, uid);
      && (if m.Some? then key in after && after[key] == m.value else key !in after)
      && (SameElsewhere(after, mappings, key) || SameElsewhere(after, run.between, key))
  {
  }

  /** Nothing is returned exactly when neither the table nor looking directly helps, and then nothing is added. */
  lemma NoneMeansDirectFails(mappings: map<Key, nat>, run: Run, key: Key, uid: nat)
    ensures Outcome(mappings, run, key, uid).1.None? <==>
            DirectIn(run, key, uid).None? && !(key in mappings && HasUid(run.first, mappings[key], uid))
    ensures Outcome(mappings, run, key, uid).1.None? ==>
      && Outcome(mappings, run, key, uid).0.Keys <= mappings.Keys
      && forall k :: k in Outcome(mappings, run, key, uid).0 ==> Outcome(mappings, run, key, uid).0[k] == mappings[k]
  {
  }

  /**
   Whenever looking directly succeeds, the cache returns that very object: also when
   the publisher has restarted meanwhile and the name stands for another object.
   */
  lemma AgreesWithDirect(mappings: map<Key, nat>, run: Run, key: Key, uid: nat, ever: Holders)
    requires Known(mappings, ever) && RunKnown(run, ever) && DirectIn(run, key, uid).Some?
    requires UidsDistinguish(key, ever, run.first, run.check) && UidsDistinguish(key, ever, run.second, run.check)
    ensures Outcome(mappings, run, key, uid).1 == DirectIn(run, key, uid)
  {
  }

  /** The table offers an object other than `object_` that shows the same uid. */
  predicate Misleads(mappings: map<Key, nat>, w: World, key: Key, uid: nat, object_: nat) {
    key in mappings && HasUid(w, mappings[key], uid) && mappings[key] != object_
  }

  /** The cache and looking directly disagree exactly when a table consulted on the way is misleading. */
  lemma AgreesExactly(mappings: map<Key, nat>, run: Run, key: Key, uid: nat)
    requires DirectIn(run, key, uid).Some?
    ensures
      var direct := DirectIn(run, key, uid);
      Outcome(mappings, run, key, uid).1 == direct <==>
        && !Misleads(mappings, run.first, key, uid, direct.value)
        && (Lookup(mappings, run.first, key, uid).1.None? ==>
              !Misleads(run.between, run.second, key, uid, direct.value))
  {
  }

  /** If an earlier object of the same name shows the same uid, the cache can return that one instead. */
  lemma CoincidingUidMisleads()
    ensures
      var key := Key(1, 0);
      var w := World(map[10 := 5, 11 := 5], map[key := 11]);
      var run := Run(w, w, w, w, true, map[]);
      DirectIn(run, key, 5) == Some(11) && Outcome(map[key := 10], run, key, 5).1 == Some(10)
  {
  }

  class BufferMetadataCache {
    var mappings: map<Key, nat>

    constructor ()
      ensures mappings == map[]
    {
      mappings := map[];
    }

    /** `get_or_attach`. */
    method GetOrAttach(run: Run, key: Key, uid: nat) returns (m: Option<nat>)
      modifies this
      ensures (mappings, m) == Outcome(old(mappings), run, key, uid)
      ensures m.Some? ==> key in mappings && mappings[key] == m.value
      ensures m.None? ==> key !in mappings
    {
      if key in mappings {
        if HasUid(run.first, mappings[key], uid) {
          return Some(mappings[key]);
        }
        mappings := mappings - {key};
      }
      if !run.attachable || key !in run.attach.names {
        return None;
      }
      var candidate := run.attach.names[key];
      if !HasUid(run.check, candidate, uid) {
        return None;
      }
      mappings := run.between;
      if key in mappings {
        if HasUid(run.second, mappings[key], uid) {
          return Some(mappings[key]);
        }
        mappings := mappings - {key};
      }
      mappings := mappings[key := candidate];
      return Some(candidate);
    }

    method Clear()
      modifies this
      ensures mappings == map[]
    {
      mappings := map[];
    }
  }
}
