# ArrayMemoryStorage, modelled in Dafny

`MemoryStorage\ArrayMemoryStorage` keeps one fixed-length array of integers per string key in
a System V shared-memory segment, so that unrelated PHP processes on one host can read and
overwrite it. The key is hashed to an integer identifier (`intHash`). That identifier names both
the segment and a semaphore. The constructor attaches to the segment, creating it with a size
computed by `getMemSize`. Then, inside a check-then-act step guarded by the semaphore, it writes
an array of `PHP_INT_MAX` sentinels (`getEmptyVar`), but only when slot 0 of the segment is
still empty. `set` checks the length, packs the array as 32-bit C `int`s (`pack("i*")`) and
overwrites slot 0. `get` unpacks slot 0. `remove` marks the segment for removal (takes its name
away) and then destroys the semaphore.

The model:

- `wrappers.dfy` (`Wrappers`): `Option`, `Result` and `Outcome` for null handles and exceptions.
- `php_int.dfy` (`PhpInt`): `PHP_INT_MAX` of a 64-bit build, and the capping
  `(int)` cast of an overflowing numeric string.
- `decimal.dfy` (`Decimal`): PHP's decimal rendering of integers and the value of a digit string.
- `packing.dfy` (`Packing`): `pack("i*")` and `array_values(unpack("i*"))` on a little-endian
  host with a 32-bit C `int`, and their round trip.
- `key_hash.dfy` (`KeyHash`): `intHash`, with the MD5 digest as its input.
- `sizing.dfy` (`Sizing`): the sentinel array, the length of its `serialize()` output, and
  `getMemSize`.
- `shared_memory.dfy` (`SharedMemory`): the host as a class `Os`. It keeps every segment
  created so far as a `Segment(size, slot)` under its creation serial. A second map gives the
  live segment each identifier names. Semaphores are kept the same way: every semaphore
  created so far by serial, and a map from identifier to the live one. Both handles are
  serials. `shm_remove` only takes the name away, so handles already attached keep their
  segment, and a later `shm_attach` on the identifier creates a new one. `sem_remove`
  destroys the semaphore at once, so a second `sem_remove` through another handle on it
  fails, even after the identifier names a new semaphore. Each call that can fail is a
  method that may fail; `shm_get_var` and `shm_has_var` are functions of the host state.
  A refused call changes nothing, except `shm_put_var`: it removes the old value of slot 0
  before it looks for room, so a refused store leaves the slot empty.
- `array_memory_storage.dfy` (`ArrayMemoryStorage`): the class `Storage`. Its constants are
  `os`, `key` and `length`. Its fields are the handles `memory` and `semaphore` (`None` is PHP
  `null`). The PHP constructor can throw, so it is `Storage.Open`, which returns a `Result`.
  `Open` runs the plain Dafny constructor, then `Attach`, then `InitializeIfEmpty`: the
  check-then-act bootstrap as a sequential `if !IsBootstrapped()`. The client methods
  `BasicFunctionality` (with `ReadWriteRemove` and `RemoveThenAccess`) and
  `MultipleStorageInstances` (with `WriteApart`) replay the scenarios of `tests/Test.php`
  against the contracts. They verify, and so show three things. A read after a successful
  write returns the written array. Two distinct identifiers never see each other's writes on
  the modelled host, which keys segments by the whole identifier (see "## Left out" for the
  32-bit keys of a real host).
  Reads and writes fail after the segment is released. `RemovedSegmentStaysWithItsHandles`
  shows that a storage still attached to a removed segment keeps it: a storage opened on the
  same key afterwards gets a new segment, and its writes do not reach the older one.
  `RemovedSemaphoreStaysRemoved` shows that once a semaphore is removed through one storage,
  another storage that held it cannot remove the new semaphore of a re-opened key.

Behaviour of the code worth knowing:

- `PHP_INT_MAX` keeps only its low 32 bits when packed, so each element of the sentinel
  array becomes `0xFFFFFFFF`. A freshly bootstrapped storage reads back as `length` copies
  of `-1` (`Sizing.SentinelsReadBack`). The tests check only the count.
- `remove` does not clear a handle whose removal failed. When `shm_remove` fails, neither
  handle changes. When `sem_remove` fails, the semaphore handle is kept.
- The identifier is always in `[0, PHP_INT_MAX]`. But when both 32-bit words of the digest have
  ten digits, the 20-digit string is above `PHP_INT_MAX` and is capped. All such keys share the
  identifier `PHP_INT_MAX` (`KeyHash.IntHashSaturates`). Shorter words can also collide
  (`KeyHash.IntHashCollides`).

## Model

| member | source | states |
|---|---|---|
| `Packing.Wrap32` | classes/ArrayMemoryStorage.php:55-69 | an element written by `pack("i")` and read by `unpack("i")` becomes the signed 32-bit value congruent to it modulo 2^32, and is unchanged when it is in the 32-bit range |
| `Packing.Pack` | classes/ArrayMemoryStorage.php:69 | `pack("i*")` gives exactly four bytes per element |
| `Packing.Unpack` | classes/ArrayMemoryStorage.php:55 | `unpack("i*")` gives one 32-bit signed element per whole group of four bytes, and ignores a shorter tail |
| `KeyHash.BigEndianWord` | classes/ArrayMemoryStorage.php:160 | `unpack('N')` reads four bytes most significant first: the word is below 2^32 and its base-256 digits are the four bytes in order |
| `KeyHash.Prefix` | classes/ArrayMemoryStorage.php:162 | `substr(s, 0, n)` is a prefix of `s`, the whole of `s` when it has at most `n` characters and exactly `n` characters otherwise |
| `Packing.DecodeEncodeWord` | classes/ArrayMemoryStorage.php:55-69 | decoding the four bytes of one packed element gives the element wrapped to 32 bits |
| `Packing.UnpackPack` | classes/ArrayMemoryStorage.php:55-69 | unpacking a packed array gives back every element, wrapped to 32 bits, in order, indexed from 0 |
| `Packing.PackRoundTrip` | tests/Test.php:27-34 | for every array whose elements are in [-2^31, 2^31), unpack after pack gives exactly the array |
| `Packing.PackLosesWideValues` | classes/ArrayMemoryStorage.php:69 | an element outside the 32-bit range comes back as a different value, its 32-bit wrap |
| `Decimal.ValueOfDigits` | classes/ArrayMemoryStorage.php:161-164 | parsing the decimal string PHP prints for a number gives that number |
| `Decimal.ValueOfConcat` | classes/ArrayMemoryStorage.php:161-164 | the value of two concatenated digit strings is the left value shifted by the right length plus the right value |
| `Decimal.DigitsLengthBounds` | classes/ArrayMemoryStorage.php:161-162 | a number below 10^k prints with at most k digits, and one of at least 10^(k-1) prints with at least k digits |
| `KeyHash.IntHash` | classes/ArrayMemoryStorage.php:157-165 | the identifier depends only on the digest and lies in [0, PHP_INT_MAX] |
| `KeyHash.WordDigits` | classes/ArrayMemoryStorage.php:160-161 | each unsigned 32-bit word prints with at most ten digits |
| `KeyHash.IntHashValue` | classes/ArrayMemoryStorage.php:159-164 | the concatenation has at most 20 characters, so `substr(..., 0, 20)` never cuts it, and the identifier is high·10^(digits of low) + low, capped at PHP_INT_MAX |
| `KeyHash.IntHashSaturates` | classes/ArrayMemoryStorage.php:161-164 | when both words are at least 10^9, the identifier is PHP_INT_MAX whatever the key |
| `KeyHash.SmallWordsHash` | classes/ArrayMemoryStorage.php:159-164 | a digest whose two words are the one-byte values `hi` and a `k`-digit `lo` (all other bytes zero) gets the identifier hi·10^k + lo when that does not exceed PHP_INT_MAX |
| `KeyHash.IntHashCollides` | classes/ArrayMemoryStorage.php:159-164 | two digests that differ in their first eight bytes (words 1, 23 and 12, 3) get the same identifier 123 |
| `Sizing.CeilDiv` | classes/ArrayMemoryStorage.php:138 | the integer ceiling of a / b is the least multiple count covering a |
| `Sizing.MemSize` | classes/ArrayMemoryStorage.php:135-140 | the size is at least 40, and its data part (size − 40) is the least multiple of 4 not below the serialized length |
| `Sizing.SerializeIntList` | classes/ArrayMemoryStorage.php:138 | `serialize()` of a list of ints starts with `a:`, ends with `}`, and has at least 6 characters plus 8 per element |
| `Sizing.SentinelItemsLength` | classes/ArrayMemoryStorage.php:138 | each serialized sentinel item takes at least 26 characters, because PHP_INT_MAX prints with 19 digits |
| `Sizing.MemSizeBound` | classes/ArrayMemoryStorage.php:135-140 | the requested size is at least 46 + 26 bytes per element, more than the 4 bytes per element of the packed array; the envelope `shm_put_var` adds around a stored value is not sized |
| `Sizing.SentinelsPackToOnes` | classes/ArrayMemoryStorage.php:145-152 | the sentinel array of n elements packs to 4n bytes of 0xFF |
| `Sizing.SentinelsReadBack` | classes/ArrayMemoryStorage.php:145-152 | the sentinel array reads back as n copies of -1, not as PHP_INT_MAX |
| `ArrayMemoryStorage.Storage.constructor` | classes/ArrayMemoryStorage.php:28-29 | the key is the hash of the digest, the length is kept, and no handle is held yet |
| `ArrayMemoryStorage.Storage.IsBootstrapped` | classes/ArrayMemoryStorage.php:130-133 | the storage is bootstrapped exactly when the segment handle is held and slot 0 of its segment holds a value |
| `ArrayMemoryStorage.Storage.GetEmptyVar` | classes/ArrayMemoryStorage.php:145-152 | the loop builds exactly `length` elements (none for a negative length), all PHP_INT_MAX |
| `ArrayMemoryStorage.Storage.GetMemSize` | classes/ArrayMemoryStorage.php:135-140 | the requested size has a data part that is a multiple of 4 and is at least 46 + 26·length bytes |
| `ArrayMemoryStorage.Storage.Attach` | classes/ArrayMemoryStorage.php:103-116 | the semaphore is obtained first: the one the key names, or a new one under a fresh serial that takes the key's name; then the segment named by the key is opened with no change, or a new empty segment of `GetMemSize()` bytes is created under a fresh serial and takes the key's name; each failure throws its own error and leaves its handle unset, and a failed `shm_attach` changes no segment and no name; success holds both handles, on the semaphore and the segment the key names; a serial counter moves only when a new semaphore or segment is created |
| `ArrayMemoryStorage.Storage.Get` | classes/ArrayMemoryStorage.php:46-56 | `get` succeeds exactly when the handle is held and slot 0 holds a value, then returns the unpacked slot; otherwise it fails with "Could not read from shared memory." |
| `ArrayMemoryStorage.Storage.Set` | classes/ArrayMemoryStorage.php:63-74 | a wrong length throws the code-400 error "Data lenght is not <length>" before any write, leaving every segment unchanged; a store the host refuses leaves slot 0 of this segment empty and changes nothing else; success overwrites slot 0 of this segment only, with the packed array, and a later `Get` returns the array wrapped to 32 bits |
| `ArrayMemoryStorage.Storage.Remove` | classes/ArrayMemoryStorage.php:79-90 | `shm_remove` takes the key's name away from the segment and leaves every segment's contents as they were; the segment handle is cleared only after that succeeds, and the semaphore handle only after `sem_remove` succeeds, which destroys that semaphore and frees its identifier; a handle on a semaphore that is already gone cannot remove anything, so `remove` then fails; if `shm_remove` fails (or no handle is held) nothing changes; segments, the serial counters and every other part of the host are left as they were |
| `ArrayMemoryStorage.Storage.Bootstrap` | classes/ArrayMemoryStorage.php:122-128 | with a segment handle only `set` runs, and the new state is stated in full: slot 0 overwritten with the packed data, emptied on a refused store, untouched on a wrong length; on either path a failure other than a refused store leaves every existing segment as it was; without one, `attach` runs first, so only the key's semaphore and the key's name can be added and a segment it creates has `GetMemSize()` bytes; every segment keeps its size and no other segment changes |
| `ArrayMemoryStorage.Storage.InitializeIfEmpty` | classes/ArrayMemoryStorage.php:33-39 | the packed sentinel array is written only when slot 0 is empty, and a slot that holds a value is left as it was; a failure leaves the host as it was; handles, names, semaphores and the serial counters never change; on success the storage is bootstrapped |
| `ArrayMemoryStorage.Storage.Open` | classes/ArrayMemoryStorage.php:26-40 | the constructor writes the packed sentinels only when slot 0 was empty, and a slot that already held a value is left unchanged; a new storage is bootstrapped and holds both handles on the segment the key names; only the key's semaphore and the key's name can be added, existing names keep their segments and semaphores, and a semaphore created here is a new one; a segment created here has `GetMemSize()` bytes; every segment keeps its size, and no segment other than the one the key names changes; a failed construction leaves every existing segment as it was, so a key whose slot was empty still holds no value |

## Left out

- System V calls (`sem_get`, `shm_attach`, `shm_put_var`, `shm_get_var`, `shm_has_var`, `shm_remove`, `sem_remove`): replaced by the `Os` map and a success flag that the model leaves open. Why the host refuses a call is not modelled.
- The undersized-segment failure of `shm_put_var`: when the host lacks room depends on that call's internal envelope, which is not modelled. Any store may be refused, and a refused store leaves slot 0 empty, as the host's removal of the old value before its room test does.
- `SemaphoreMutex`, `getMutex` and the lock in the constructor: a foreign cross-process lock. `check(...)->then(...)` is modelled as one sequential conditional. Exactly-once bootstrap across concurrent processes is not verified.
- `md5`: a foreign function. `Storage.Open` takes the 16-byte digest of the key instead of the key.
- `serialize()`: modelled only for the one array it is applied to (a 0-indexed list of ints), by its `a:N:{i:k;i:v;...}` format.
- `KeyHash.IntHash`: the `(int)` cast of a digit string above PHP_INT_MAX is modelled as capping at PHP_INT_MAX, which is what the PHP engine does for overflowing numeric strings.
- Sizing.CeilDiv: `ceil` of a float division is modelled as integer ceiling division. The quotient of a string length by 4 is exact in a double, so no float behaviour is lost.
- Array elements that are not PHP integers (floats, strings) are not modelled. Elements are unbounded integers, and `pack` keeps their low 32 bits.
- A removed segment stays with the handles attached to it, without a name. The host destroys it when the last process detaches. Detaching and that destruction are not modelled, so such a segment is kept for ever.
- ArrayMemoryStorage.Storage.Attach: when `shm_attach` fails, PHP leaves `false` in `$memory`, but the model leaves `None`. When `sem_get` fails, PHP leaves `false` in `$semaphore`, but the model leaves `None`. Either way the constructor throws and the object is never returned.
- ArrayMemoryStorage.Storage.Remove, ArrayMemoryStorage.Storage.Set: a call on a null handle fails without changing anything. PHP 8 throws a `TypeError` there, and PHP 7 returns null and throws the class's own message. The model uses the class's message.
- The narrowing of identifiers to System V keys is not modelled. `shm_attach` and `sem_get` hand the 64-bit identifier to `shmget`/`semget`, whose `key_t` has 32 bits, with no range check. On a real host, two identifiers that agree modulo 2^32 name the same segment and semaphore. An identifier that is 0 modulo 2^32 becomes `IPC_PRIVATE` and gets a new segment on every attach. The model keys names and semaphores by the whole identifier. The isolation that `MultipleStorageInstances` shows for distinct identifiers therefore holds on a real host only when the identifiers also differ modulo 2^32 and neither is 0 modulo 2^32.
- The byte order and the 32-bit size of `i` are host properties. The model fixes them to little-endian and 4 bytes.
