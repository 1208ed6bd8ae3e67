/**
 * `MemoryStorage\ArrayMemoryStorage`: one fixed-length array of integers per string key,
 * kept in variable slot 0 of a System V shared-memory segment whose identifier is derived
 * from the key. The cross-process lock around the bootstrap is not modelled: the
 * check-then-act step runs here as one sequential conditional.
 */
module ArrayMemoryStorage {
  import opened Wrappers
  import opened Packing
  import PhpInt
  import opened Sizing
  import KeyHash
  import opened SharedMemory

  /** The exceptions the class throws, one per message. */
  datatype Failure =
    | NoSemaphore
    | AttachFailed
    | ReadFailed
    | LengthMismatch(expected: int)
    | StoreFailed
    | ReleaseFailed
    | SemaphoreNotRemoved
  {
    function Code(): int {
      if LengthMismatch? then 400 else 0
    }

    function Message(): string {
      match this
      case NoSemaphore => "Could not get semaphore id."
      case AttachFailed => "Failed to attach to shared memory."
      case ReadFailed => "Could not read from shared memory."
      case LengthMismatch(n) => "Data lenght is not " + Decimal.IntString(n)
      case StoreFailed => "Could not store in shared memory."
      case ReleaseFailed => "Could not release shared memory."
      case SemaphoreNotRemoved => "Could not remove semaphore."
    }
  }

  class Storage {
    /** The host whose segments and semaphores every storage shares. */
    const os: Os
    /** The identifier of the segment and of the semaphore. */
    const key: int
    /** The number of elements every `Set` must supply. */
    const length: int
    /** The segment handle: the serial of the attached segment, or None (PHP `null`). */
    var memory: Option<nat>
    /** The semaphore handle: the serial of the semaphore obtained, or None. */
    var semaphore: Option<nat>

    /** The field assignments of the constructor, before it attaches. */
    constructor (os: Os, digest: seq<Byte>, length: int)
      requires |digest| == 16
      ensures this.os == os && this.length == length
      ensures key == KeyHash.IntHash(digest)
      ensures memory == None && semaphore == None
    {
      this.os := os;
      this.key := KeyHash.IntHash(digest);
      this.length := length;
      memory := None;
      semaphore := None;
    }

    /** `isBootstrapped`: the handle is held and slot 0 of its segment holds a value. */
    predicate IsBootstrapped()
      reads this, os
      ensures IsBootstrapped() <==> memory.Some? && os.GetVar(memory.value).Some?
    {
      memory.Some? && os.HasVar(memory.value)
    }

    /** `getEmptyVar`: `length` copies of PHP_INT_MAX, none for a negative length. */
    method GetEmptyVar() returns (initArray: seq<int>)
      ensures |initArray| == Count(length)
      ensures forall i | 0 <= i < |initArray| :: initArray[i] == PhpInt.Max
    {
      initArray := [];
      var i := 0;
      while i < length
        invariant 0 <= i <= Count(length)
        invariant |initArray| == i
        invariant forall j | 0 <= j < i :: initArray[j] == PhpInt.Max
      {
        initArray := initArray + [PhpInt.Max];
        i := i + 1;
      }
    }

    /** `getMemSize`: the size requested when the segment is created. */
    function GetMemSize(): (size: nat)
      ensures size >= 46 + 26 * Count(length)
      ensures (size - 40) % 4 == 0
    {
      MemSizeBound(length);
      MemSize(|SerializeIntList(Sentinels(Count(length)))|)
    }

    /**
     * `attach`: obtains the semaphore, then a handle on the segment named by the key,
     * creating it empty with `GetMemSize()` bytes if there is none. Each step that fails
     * throws and leaves its handle unset.
     */
    method Attach() returns (r: Outcome<Failure>)
      requires os.Valid()
      modifies this`memory, this`semaphore, os
      ensures os.Valid()
      ensures r.Pass? <==> memory.Some? && semaphore.Some?
      ensures r.Fail? ==> r.error == NoSemaphore || r.error == AttachFailed
      ensures r == Fail(NoSemaphore) ==>
                semaphore == None && memory == old(memory)
                && os.semaphores == old(os.semaphores) && os.semaphoreSerials == old(os.semaphoreSerials)
                && os.names == old(os.names) && os.segments == old(os.segments)
      ensures r != Fail(NoSemaphore) ==>
                semaphore.Some? && key in os.semaphores && os.semaphores[key] == semaphore.value
      ensures r != Fail(NoSemaphore) && key in old(os.semaphores) ==>
                os.semaphores == old(os.semaphores) && os.semaphoreSerials == old(os.semaphoreSerials)
      ensures r != Fail(NoSemaphore) && key !in old(os.semaphores) ==>
                semaphore.value !in old(os.semaphoreSerials)
                && os.semaphores == old(os.semaphores)[key := semaphore.value]
                && os.semaphoreSerials == old(os.semaphoreSerials) + {semaphore.value}
      ensures r == Fail(AttachFailed) ==> memory == None && os.names == old(os.names) && os.segments == old(os.segments)
      ensures r.Pass? ==> key in os.names && os.names[key] == memory.value
      ensures r.Pass? && key in old(os.names) ==>
                memory.value == old(os.names)[key] && os.names == old(os.names) && os.segments == old(os.segments)
      ensures r.Pass? && key !in old(os.names) ==>
                memory.value !in old(os.segments)
                && os.names == old(os.names)[key := memory.value]
                && os.segments == old(os.segments)[memory.value := Segment(GetMemSize(), None)]
      ensures SizesKept(old(os.segments), os.segments)
      ensures Extends(old(os.semaphores), os.semaphores, key) && Extends(old(os.names), os.names, key)
      // a serial counter moves only when a new semaphore or segment is created
      ensures os.nextSemaphore == old(os.nextSemaphore) || (r != Fail(NoSemaphore) && key !in old(os.semaphores))
      ensures os.next == old(os.next) || (r.Pass? && key !in old(os.names))
    {
      var sem := os.SemGet(key);
      if sem.None? {
        semaphore := None;
        return Fail(NoSemaphore);
      }
      semaphore := sem;
      var h := os.ShmAttach(key, GetMemSize());
      if h.None? {
        memory := None;
        return Fail(AttachFailed);
      }
      memory := h;
      r := Pass;
    }

    /** `get`: slot 0 unpacked as 32-bit signed integers, indexed from 0. */
    method Get() returns (r: Result<seq<int>, Failure>)
      ensures r.Success? <==> IsBootstrapped()
      ensures r.Success? ==> r.value == Unpack(os.segments[memory.value].slot.value)
      ensures r.Failure? ==> r.error == ReadFailed
    {
      if memory == None {
        return Failure(ReadFailed);
      }
      var bytes := os.GetVar(memory.value);
      if bytes == None {
        return Failure(ReadFailed);
      }
      r := Success(Unpack(bytes.value));
    }

    /**
     * `set`: refuses an array of the wrong length before touching the host, otherwise
     * overwrites slot 0 with the packed array. A later `Get` returns the array, each
     * element wrapped to 32 bits. A store the host refuses leaves slot 0 empty.
     */
    method Set(data: seq<int>) returns (r: Outcome<Failure>)
      requires os.Valid()
      modifies os`segments
      ensures os.Valid()
      ensures |data| != length ==> r == Fail(LengthMismatch(length)) && os.segments == old(os.segments)
      ensures |data| != length ==>
                r.error.Code() == 400 && r.error.Message() == "Data lenght is not " + Decimal.IntString(length)
      ensures r.Fail? && |data| == length ==> r.error == StoreFailed
      ensures r == Fail(StoreFailed) ==>
                os.segments == if memory.Some? then Emptied(old(os.segments), memory.value) else old(os.segments)
      ensures r.Pass? ==>
                |data| == length && memory.Some? && memory.value in old(os.segments)
                && os.segments == Stored(old(os.segments), memory.value, Pack(data))
      ensures r.Pass? ==> IsBootstrapped() && Unpack(os.segments[memory.value].slot.value) == Wrap32All(data)
      ensures SizesKept(old(os.segments), os.segments)
    {
      if |data| != length {
        return Fail(LengthMismatch(length));
      }
      var bytes := Pack(data);
      if memory == None {
        return Fail(StoreFailed);
      }
      var ok := os.PutVar(memory.value, bytes);
      if !ok {
        return Fail(StoreFailed);
      }
      UnpackPack(data);
      r := Pass;
    }

    /**
     * `remove`: takes the segment's name away, then destroys the semaphore. Each handle is
     * cleared only once its own removal succeeded; a failure stops there.
     */
    method Remove() returns (r: Outcome<Failure>)
      requires os.Valid()
      modifies this`memory, this`semaphore, os`names, os`semaphores
      ensures os.Valid()
      ensures os.segments == old(os.segments)
      ensures r.Fail? ==> r.error == ReleaseFailed || r.error == SemaphoreNotRemoved
      ensures old(memory) == None ==> r == Fail(ReleaseFailed)
      ensures r == Fail(ReleaseFailed) ==>
                memory == old(memory) && semaphore == old(semaphore)
                && os.names == old(os.names) && os.semaphores == old(os.semaphores)
      ensures r != Fail(ReleaseFailed) ==>
                old(memory).Some? && memory == None && os.names == Unnamed(old(os.names), old(memory).value)
      ensures r == Fail(SemaphoreNotRemoved) ==> semaphore == old(semaphore) && os.semaphores == old(os.semaphores)
      ensures r.Pass? ==>
                old(semaphore).Some? && old(semaphore).value in old(os.semaphores).Values
                && semaphore == None && os.semaphores == Unnamed(old(os.semaphores), old(semaphore).value)
      // a handle on a semaphore that is already gone removes nothing, not even a semaphore
      // created later under the same identifier
      ensures old(semaphore).Some? && old(semaphore).value !in old(os.semaphores).Values ==> r.Fail?
    {
      if memory == None {
        return Fail(ReleaseFailed);
      }
      var shmOk := os.ShmRemove(memory.value);
      if !shmOk {
        return Fail(ReleaseFailed);
      }
      memory := None;
      if semaphore == None {
        return Fail(SemaphoreNotRemoved);
      }
      var semOk := os.SemRemove(semaphore.value);
      if !semOk {
        return Fail(SemaphoreNotRemoved);
      }
      semaphore := None;
      r := Pass;
    }

    /** `bootstrap`: re-attaches if the segment handle is gone, then `Set`s `data`. */
    method Bootstrap(data: seq<int>) returns (r: Outcome<Failure>)
      requires os.Valid()
      modifies this`memory, this`semaphore, os
      ensures os.Valid()
      ensures |data| != length && old(memory).Some? ==> r == Fail(LengthMismatch(length))
      ensures r.Fail? ==> r.error in {NoSemaphore, AttachFailed, LengthMismatch(length), StoreFailed}
      // with a handle, only `Set` runs
      ensures old(memory).Some? ==>
                memory == old(memory) && semaphore == old(semaphore)
                && os.semaphores == old(os.semaphores) && os.semaphoreSerials == old(os.semaphoreSerials)
                && os.names == old(os.names) && os.next == old(os.next)
                && os.nextSemaphore == old(os.nextSemaphore)
      // without one, `Attach` runs first
      ensures old(memory).None? ==>
                Extends(old(os.semaphores), os.semaphores, key)
                && old(os.semaphoreSerials) <= os.semaphoreSerials
                && (r == Fail(NoSemaphore) <==> semaphore == None)
                && (r != Fail(NoSemaphore) ==>
                      semaphore.Some? && key in os.semaphores && os.semaphores[key] == semaphore.value)
                && (r == Fail(NoSemaphore) || r == Fail(AttachFailed) <==> memory == None)
      ensures old(memory).None? && semaphore.Some? && key !in old(os.semaphores) ==>
                semaphore.value !in old(os.semaphoreSerials)
      ensures old(memory).None? && memory.Some? ==> key in os.names && os.names[key] == memory.value
      ensures old(memory).None? && memory.Some? && memory.value !in old(os.segments) ==>
                os.segments[memory.value].size == GetMemSize() && key !in old(os.names)
      ensures Extends(old(os.names), os.names, key)
      // every segment keeps its size; only the one of the handle changes
      ensures SizesKept(old(os.segments), os.segments)
      ensures forall h | h in old(os.segments) && Some(h) != memory :: os.segments[h] == old(os.segments)[h]
      ensures r == Fail(StoreFailed) && memory.value in os.segments ==> os.segments[memory.value].slot == None
      ensures r.Fail? && r != Fail(StoreFailed) && old(memory).Some? ==> os.segments == old(os.segments)
      ensures r.Fail? && r != Fail(StoreFailed) ==>
                forall h | h in old(os.segments) :: os.segments[h] == old(os.segments)[h]
      ensures r == Fail(StoreFailed) && old(memory).Some? ==> os.segments == Emptied(old(os.segments), memory.value)
      ensures r.Fail? && old(memory).Some? ==> r.error == LengthMismatch(length) || r.error == StoreFailed
      ensures r.Pass? && old(memory).Some? ==>
                memory.value in old(os.segments) && os.segments == Stored(old(os.segments), memory.value, Pack(data))
      ensures r.Pass? ==>
                |data| == length && memory.Some? && IsBootstrapped()
                && os.segments[memory.value].slot == Some(Pack(data))
    {
      if memory.Some? {
        r := Set(data);
        return;
      }
      r := Attach();
      if r.Fail? {
        return;
      }
      ghost var attached := os.segments;
      r := Set(data);
      SizesKeptTransitive(old(os.segments), attached, os.segments);
    }

    /**
     * The check-then-act step of the constructor: the sentinel array is written only when
     * slot 0 holds nothing yet. A refused write leaves the empty slot as it was.
     */
    method InitializeIfEmpty() returns (r: Outcome<Failure>)
      requires os.Valid()
      requires memory.Some? && memory.value in os.segments
      modifies this`memory, this`semaphore, os
      ensures os.Valid()
      ensures memory == old(memory) && semaphore == old(semaphore)
      ensures os.semaphores == old(os.semaphores) && os.semaphoreSerials == old(os.semaphoreSerials)
      ensures os.names == old(os.names) && os.next == old(os.next) && os.nextSemaphore == old(os.nextSemaphore)
      ensures r.Fail? ==> r.error == LengthMismatch(length) || r.error == StoreFailed
      ensures r.Fail? ==> os.segments == old(os.segments)
      ensures old(IsBootstrapped()) ==> r.Pass? && os.segments == old(os.segments)
      ensures !old(IsBootstrapped()) && r.Pass? ==>
                length >= 0 && os.segments == Stored(old(os.segments), memory.value, Pack(Sentinels(length)))
      ensures r.Pass? ==> IsBootstrapped()
      ensures SizesKept(old(os.segments), os.segments)
    {
      if !IsBootstrapped() {
        var initArray := GetEmptyVar();
        r := Bootstrap(initArray);
        if r.Fail? {
          assert Emptied(old(os.segments), memory.value) == old(os.segments);
        } else {
          assert initArray == Sentinels(length);
        }
      } else {
        r := Pass;
      }
    }

    /**
     * `__construct`: derives the identifier, attaches, and writes the sentinel array only
     * when slot 0 of the named segment holds nothing yet. A slot that already holds a value
     * is left as it is.
     */
    static method Open(os: Os, digest: seq<Byte>, length: int) returns (r: Result<Storage, Failure>)
      requires |digest| == 16
      requires os.Valid()
      modifies os
      ensures os.Valid()
      ensures r.Success? ==>
                fresh(r.value) && r.value.os == os
                && r.value.key == KeyHash.IntHash(digest) && r.value.length == length
                && r.value.key in os.semaphores && r.value.semaphore == Some(os.semaphores[r.value.key])
                && r.value.key in os.names && r.value.memory == Some(os.names[r.value.key])
                && r.value.IsBootstrapped()
      ensures r.Failure? ==>
                r.error in {NoSemaphore, AttachFailed, LengthMismatch(length), StoreFailed}
      // only the key's semaphore and the key's name can be added; a semaphore created here is new
      ensures Extends(old(os.semaphores), os.semaphores, KeyHash.IntHash(digest))
      ensures old(os.semaphoreSerials) <= os.semaphoreSerials
      ensures r.Success? && KeyHash.IntHash(digest) !in old(os.semaphores) ==>
                r.value.semaphore.value !in old(os.semaphoreSerials)
      ensures Extends(old(os.names), os.names, KeyHash.IntHash(digest))
      // check-then-act: nothing is written when the slot already holds a value
      ensures old(os.HoldsValue(KeyHash.IntHash(digest))) ==> os.segments == old(os.segments)
      ensures r.Success? && !old(os.HoldsValue(KeyHash.IntHash(digest))) ==>
                length >= 0 && os.segments[r.value.memory.value].slot == Some(Pack(Sentinels(length)))
      // a segment created here has the size `getMemSize` computes
      ensures r.Success? && KeyHash.IntHash(digest) !in old(os.names) ==>
                r.value.memory.value !in old(os.segments)
                && os.segments[r.value.memory.value].size == r.value.GetMemSize()
      ensures SizesKept(old(os.segments), os.segments)
      ensures forall h | h in old(os.segments) && KeyHash.IntHash(digest) in os.names && h != os.names[KeyHash.IntHash(digest)] ::
                os.segments[h] == old(os.segments)[h]
      ensures KeyHash.IntHash(digest) !in os.names ==> os.segments == old(os.segments)
      // a failed construction writes nothing: an empty slot stays empty
      ensures r.Failure? ==> forall h | h in old(os.segments) :: os.segments[h] == old(os.segments)[h]
      ensures r.Failure? && !old(os.HoldsValue(KeyHash.IntHash(digest))) ==>
                !os.HoldsValue(KeyHash.IntHash(digest))
    {
      var s := new Storage(os, digest, length);
      var a := s.Attach();
      if a.Fail? {
        return Failure(a.error);
      }
      ghost var attached := os.segments;
      assert s.key in os.names && s.memory == Some(os.names[s.key]);
      assert forall h | h in old(os.segments) && h != s.memory.value :: attached[h] == old(os.segments)[h];
      var b := s.InitializeIfEmpty();
      SizesKeptTransitive(old(os.segments), attached, os.segments);
      if b.Fail? {
        return Failure(b.error);
      }
      r := Success(s);
    }
  }

  /**
   * The basic scenario: open a three-element storage, overwrite it twice, remove it. On a
   * freshly bootstrapped segment the first read gives three -1s, every read after a
   * successful write gives what was written, and after the segment is released reads and
   * writes on the instance fail.
   */
  method BasicFunctionality(os: Os, digest: seq<Byte>)
    requires |digest| == 16 && os.Valid()
    modifies os
  {
    ghost var wasEmpty := !os.HoldsValue(KeyHash.IntHash(digest));
    var result := Storage.Open(os, digest, 3);
    if result.Failure? {
      return;
    }
    var storage := result.value;
    ReadWriteRemove(storage, wasEmpty);
  }

  /** The reads and writes of the basic scenario, on a storage that `Open` returned, then its release. */
  method ReadWriteRemove(storage: Storage, ghost wasEmpty: bool)
    requires storage.os.Valid() && storage.length == 3
    requires storage.memory.Some? && storage.IsBootstrapped()
    requires wasEmpty ==> storage.os.segments[storage.memory.value].slot == Some(Pack(Sentinels(3)))
    modifies storage, storage.os
  {
    var initial := storage.Get();
    assert initial.Success?;
    if wasEmpty {
      SentinelsReadBack(3);
      assert initial.value == [-1, -1, -1];
    }
    var w := storage.Set([100, 200, 300]);
    if w.Pass? {
      var read := storage.Get();
      assert Wrap32All([100, 200, 300]) == [100, 200, 300];
      assert read == Success([100, 200, 300]);
    }
    w := storage.Set([400, 500, 600]);
    if w.Pass? {
      var read := storage.Get();
      assert Wrap32All([400, 500, 600]) == [400, 500, 600];
      assert read == Success([400, 500, 600]);
    }
    RemoveThenAccess(storage);
  }

  /** After a successful release, reads and writes through the storage fail. */
  method RemoveThenAccess(storage: Storage)
    requires storage.os.Valid() && storage.length == 3
    modifies storage, storage.os
  {
    var removed := storage.Remove();
    if removed != Fail(ReleaseFailed) {
      var read := storage.Get();
      assert read == Failure(ReadFailed);
      var w := storage.Set([1, 2, 3]);
      assert w == Fail(StoreFailed);
    }
  }

  /**
   * Two storages whose keys hash apart never see each other's writes. The host here keys
   * segments by the whole identifier; a real one narrows it to a 32-bit `key_t`.
   */
  method MultipleStorageInstances(os: Os, digest1: seq<Byte>, digest2: seq<Byte>)
    requires |digest1| == 16 && |digest2| == 16
    requires KeyHash.IntHash(digest1) != KeyHash.IntHash(digest2)
    requires os.Valid()
    modifies os
  {
    var opened1 := Storage.Open(os, digest1, 2);
    var opened2 := Storage.Open(os, digest2, 2);
    if opened1.Failure? || opened2.Failure? {
      return;
    }
    var storage1, storage2 := opened1.value, opened2.value;
    assert storage1.memory != storage2.memory;
    WriteApart(storage1, storage2);
  }

  /** The writes and reads of the two-instance scenario, on two storages holding different segments. */
  method WriteApart(storage1: Storage, storage2: Storage)
    requires storage1.os == storage2.os && storage1.os.Valid()
    requires storage1.length == 2 && storage2.length == 2
    requires storage1.memory.Some? && storage2.memory.Some? && storage1.memory != storage2.memory
    modifies storage1.os
  {
    var w1 := storage1.Set([10, 20]);
    var w2 := storage2.Set([30, 40]);
    if w1.Pass? && w2.Pass? {
      var read1 := storage1.Get();
      var read2 := storage2.Get();
      assert Wrap32All([10, 20]) == [10, 20];
      assert Wrap32All([30, 40]) == [30, 40];
      assert read1 == Success([10, 20]);
      assert read2 == Success([30, 40]);
    }
  }

  /**
   * A segment whose name was taken away stays with the handles attached to it: a storage
   * opened on the same key afterwards gets a new segment, and its writes do not reach the
   * older instance.
   */
  method RemovedSegmentStaysWithItsHandles(os: Os, digest: seq<Byte>)
    requires |digest| == 16 && os.Valid()
    modifies os
  {
    var result1 := Storage.Open(os, digest, 1);
    var result2 := Storage.Open(os, digest, 1);
    if result1.Failure? || result2.Failure? {
      return;
    }
    var storage1, storage2 := result1.value, result2.value;
    assert storage1.memory == storage2.memory;
    var removed := storage1.Remove();
    if removed == Fail(ReleaseFailed) {
      return;
    }
    ghost var kept := os.segments[storage2.memory.value];
    var result3 := Storage.Open(os, digest, 1);
    if result3.Failure? {
      return;
    }
    var storage3 := result3.value;
    assert storage3.memory != storage2.memory;
    var w := storage3.Set([7]);
    assert os.segments[storage2.memory.value] == kept;
  }

  /**
   * A semaphore removed through one storage is gone for every handle on it: once the key is
   * opened again, the older instance's `remove` fails and the new semaphore stays.
   */
  method RemovedSemaphoreStaysRemoved(os: Os, digest: seq<Byte>)
    requires |digest| == 16 && os.Valid()
    modifies os
  {
    var result1 := Storage.Open(os, digest, 1);
    var result2 := Storage.Open(os, digest, 1);
    if result1.Failure? || result2.Failure? {
      return;
    }
    var storage1, storage2 := result1.value, result2.value;
    assert storage1.semaphore == storage2.semaphore;
    ghost var stale := storage2.semaphore.value;
    assert stale in os.semaphoreSerials;
    var removed := storage1.Remove();
    if removed.Fail? {
      return;
    }
    assert stale !in os.semaphores.Values && storage2.key !in os.semaphores;
    ReopenAfterRemoval(storage2, digest);
  }

  /** The key of `older` is opened again after its semaphore was removed. */
  method ReopenAfterRemoval(older: Storage, digest: seq<Byte>)
    requires |digest| == 16 && older.os.Valid() && older.key == KeyHash.IntHash(digest)
    requires older.semaphore.Some? && older.semaphore.value in older.os.semaphoreSerials
    requires older.semaphore.value !in older.os.semaphores.Values && older.key !in older.os.semaphores
    modifies older, older.os
  {
    var os := older.os;
    ghost var stale, live := older.semaphore.value, os.semaphores;
    var result := Storage.Open(os, digest, 1);
    if result.Failure? {
      return;
    }
    var current := result.value;
    assert current.semaphore != older.semaphore;
    forall id | id in os.semaphores
      ensures os.semaphores[id] != stale
    {
      if id != current.key {
        assert id in live;
      }
    }
    RemoveThroughStaleHandle(older, current);
  }

  /** `remove` through a handle on a semaphore that is already gone leaves the live one alone. */
  method RemoveThroughStaleHandle(stale: Storage, current: Storage)
    requires stale.os == current.os && stale.os.Valid() && stale != current
    requires stale.semaphore.Some? && stale.semaphore.value !in stale.os.semaphores.Values
    requires current.semaphore.Some? && current.key in current.os.semaphores
    requires current.os.semaphores[current.key] == current.semaphore.value
    modifies stale, stale.os
  {
    var removed := stale.Remove();
    assert removed.Fail?;
    assert current.os.semaphores[current.key] == current.semaphore.value;
  }
}
