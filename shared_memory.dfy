/**
 * The System V primitives the storage calls (`sem_get`, `sem_remove`, `shm_attach`,
 * `shm_put_var`, `shm_get_var`, `shm_has_var`, `shm_remove`), as one host-wide state.
 * Segments are kept by creation serial; an identifier names at most one live segment.
 * `shm_remove` only takes the name away: handles already attached stay bound to their
 * segment, and a later `shm_attach` on the identifier creates a new one. Semaphores are
 * kept by creation serial in the same way, but `sem_remove` destroys one at once, so a
 * handle on a removed semaphore refers to nothing. Whether the host
 * grants a call is not modelled: each call that can fail may fail.
 */
module SharedMemory {
  import opened Wrappers
  import opened Packing

  /** A segment: the size it was created with and the blob stored in variable slot 0, if any. */
  datatype Segment = Segment(size: int, slot: Option<seq<Byte>>)

  /** The segments after slot 0 of segment `h` is overwritten with `blob`. */
  function Stored(segments: map<nat, Segment>, h: nat, blob: seq<Byte>): (r: map<nat, Segment>)
    requires h in segments
    ensures r.Keys == segments.Keys
    ensures r[h] == Segment(segments[h].size, Some(blob))
    ensures forall other | other in segments && other != h :: r[other] == segments[other]
  {
    segments[h := segments[h].(slot := Some(blob))]
  }

  /** The segments after slot 0 of segment `h`, if it exists, has been removed. */
  function Emptied(segments: map<nat, Segment>, h: nat): (r: map<nat, Segment>)
    ensures r.Keys == segments.Keys
    ensures h in segments ==> r[h] == Segment(segments[h].size, None)
    ensures forall other | other in segments && other != h :: r[other] == segments[other]
  {
    if h in segments then segments[h := segments[h].(slot := None)] else segments
  }

  /** The names left after the segment (or semaphore) `h` has lost its name. */
  function Unnamed(names: map<int, nat>, h: nat): (r: map<int, nat>)
    ensures forall id | id in r :: id in names && r[id] == names[id] && r[id] != h
    ensures forall id | id in names && names[id] != h :: id in r
  {
    map id | id in names && names[id] != h :: names[id]
  }

  /** `after` keeps every name of `before` with its serial, and adds at most the name `id`. */
  predicate Extends(before: map<int, nat>, after: map<int, nat>, id: int) {
    && (forall n | n in before :: n in after && after[n] == before[n])
    && after.Keys <= before.Keys + {id}
  }

  /** Every segment of `before` is still there, with the size it was created with. */
  predicate SizesKept(before: map<nat, Segment>, after: map<nat, Segment>) {
    forall h | h in before :: h in after && after[h].size == before[h].size
  }

  lemma {:induction false} SizesKeptTransitive(a: map<nat, Segment>, b: map<nat, Segment>, c: map<nat, Segment>)
    requires SizesKept(a, b) && SizesKept(b, c)
    ensures SizesKept(a, c)
  {
    forall h | h in a
      ensures h in c && c[h].size == a[h].size
    {
      assert h in b;
    }
  }

  class Os {
    /** The live segment each identifier names. */
    var names: map<int, nat>
    /** Every segment created so far, by creation serial, named or not. */
    var segments: map<nat, Segment>
    /** The serial the next new segment gets. */
    var next: nat
    /** The live semaphore each identifier names. */
    var semaphores: map<int, nat>
    /** Every semaphore created so far, by creation serial, live or removed. */
    var semaphoreSerials: set<nat>
    /** The serial the next new semaphore gets. */
    var nextSemaphore: nat

    /**
     * Serials are below their counters, names refer to existing segments and semaphores,
     * and no two identifiers name the same segment.
     */
    ghost predicate Valid()
      reads this
    {
      && (forall h | h in segments :: h < next)
      && (forall id | id in names :: names[id] in segments)
      && (forall id1, id2 | id1 in names && id2 in names && id1 != id2 :: names[id1] != names[id2])
      && (forall s | s in semaphoreSerials :: s < nextSemaphore)
      && (forall id | id in semaphores :: semaphores[id] in semaphoreSerials)
    }

    /** A host on which no segment and no semaphore exists yet. */
    constructor ()
      ensures Valid()
      ensures names == map[] && segments == map[] && semaphores == map[] && semaphoreSerials == {}
    {
      names := map[];
      segments := map[];
      next := 0;
      semaphores := map[];
      semaphoreSerials := {};
      nextSemaphore := 0;
    }

    /** `shm_has_var(handle, 0)` */
    predicate HasVar(h: nat)
      reads this
    {
      h in segments && segments[h].slot.Some?
    }

    /** `shm_get_var(handle, 0)`: the blob, or nothing (`false`). */
    function GetVar(h: nat): Option<seq<Byte>>
      reads this
    {
      if h in segments then segments[h].slot else None
    }

    /** The live segment named `id` holds a value in slot 0. */
    predicate HoldsValue(id: int)
      reads this
    {
      id in names && HasVar(names[id])
    }

    /**
     * `sem_get(id)`: a handle on the semaphore named `id`, or on a new semaphore that takes
     * the name when there is none.
     */
    method SemGet(id: int) returns (s: Option<nat>)
      requires Valid()
      modifies this`semaphores, this`semaphoreSerials, this`nextSemaphore
      ensures Valid()
      ensures s.None? ==>
                semaphores == old(semaphores) && semaphoreSerials == old(semaphoreSerials)
                && nextSemaphore == old(nextSemaphore)
      ensures s.Some? && id in old(semaphores) ==>
                s.value == old(semaphores)[id]
                && semaphores == old(semaphores) && semaphoreSerials == old(semaphoreSerials)
                && nextSemaphore == old(nextSemaphore)
      ensures s.Some? && id !in old(semaphores) ==>
                s.value !in old(semaphoreSerials)
                && semaphores == old(semaphores)[id := s.value]
                && semaphoreSerials == old(semaphoreSerials) + {s.value}
      ensures Extends(old(semaphores), semaphores, id)
    {
      var ok: bool := *;
      if !ok {
        return None;
      }
      if id in semaphores {
        return Some(semaphores[id]);
      }
      s := Some(nextSemaphore);
      semaphores := semaphores[id := nextSemaphore];
      semaphoreSerials := semaphoreSerials + {nextSemaphore};
      nextSemaphore := nextSemaphore + 1;
    }

    /**
     * `shm_attach(id, size)`: a handle on the segment named `id`, or on a new empty segment
     * of `size` bytes that takes the name when there is none.
     */
    method ShmAttach(id: int, size: int) returns (h: Option<nat>)
      requires Valid()
      modifies this`names, this`segments, this`next
      ensures Valid()
      ensures h.None? ==> names == old(names) && segments == old(segments) && next == old(next)
      ensures h.Some? && id in old(names) ==>
                h.value == old(names)[id] && names == old(names) && segments == old(segments)
                && next == old(next)
      ensures h.Some? && id !in old(names) ==>
                h.value !in old(segments)
                && names == old(names)[id := h.value]
                && segments == old(segments)[h.value := Segment(size, None)]
      ensures Extends(old(names), names, id) && SizesKept(old(segments), segments)
    {
      var ok: bool := *;
      if !ok {
        return None;
      }
      if id in names {
        return Some(names[id]);
      }
      h := Some(next);
      segments := segments[next := Segment(size, None)];
      names := names[id := next];
      next := next + 1;
    }

    /**
     * `shm_put_var(handle, 0, blob)`: the old value of slot 0 is removed first, so a store
     * that fails (the segment has no room left) leaves the slot empty.
     */
    method PutVar(h: nat, blob: seq<Byte>) returns (ok: bool)
      requires Valid()
      modifies this`segments
      ensures Valid()
      ensures ok ==> h in old(segments) && segments == Stored(old(segments), h, blob)
      ensures !ok ==> segments == Emptied(old(segments), h)
    {
      ok := *;
      if h !in segments {
        ok := false;
      }
      if ok {
        segments := Stored(segments, h, blob);
      } else {
        segments := Emptied(segments, h);
      }
    }

    /** `shm_remove(handle)`: the segment loses its name; attached handles keep it. */
    method ShmRemove(h: nat) returns (ok: bool)
      requires Valid()
      modifies this`names
      ensures Valid()
      ensures names == if ok then Unnamed(old(names), h) else old(names)
    {
      ok := *;
      if ok {
        names := Unnamed(names, h);
      }
    }

    /**
     * `sem_remove(handle)`: destroys the semaphore `s` for every process. A semaphore that
     * is already gone cannot be removed again, even when its identifier names a new one.
     */
    method SemRemove(s: nat) returns (ok: bool)
      requires Valid()
      modifies this`semaphores
      ensures Valid()
      ensures ok ==> s in old(semaphores).Values
      ensures semaphores == if ok then Unnamed(old(semaphores), s) else old(semaphores)
    {
      ok := *;
      if s !in semaphores.Values {
        ok := false;
      }
      if ok {
        semaphores := Unnamed(semaphores, s);
      }
    }
  }
}
