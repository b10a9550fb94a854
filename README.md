# Composite-key membership filter, modelled in Dafny

`MemTableByteStringFilter` (wikiviews, `byte_lib.hashed`) records which
multi-part byte-string keys have been seen. The pipeline uses it to drop
duplicate records. It keeps only the 64-bit digest of each key, in an
open-addressing table:
- The table is a `long[]` of 2^bits slots, with `bits >= 3`.
- The value 0 marks an empty slot.
- Digest `h` tries slots `(h + n*n) mod 2^bits` for `n = 0, 1, …`, at most
  one step per slot.
- Before each `add`, if `bucketsFilled * 4` exceeds the table length, the
  filter reallocates the table for the current count and replays the old
  digests (`rehash`).
- `clear` reallocates for the default capacity of 10.

The project has three modules:

- `FilterSpec` (`filter_spec.dfy`) states the table on values (`seq<Long>`):
  - `Walk` is the probe loop that `contains` and `add0` share. It ends as
    `Found`, `Vacant` or `Exhausted`.
  - `Inserted` is what `add0` does to the table. `Replay` and `Rehashed` are
    what `rehash` builds.
  - `Consistent` is the table invariant: digests are distinct, each is found
    by its own probe walk, and the counter equals the number of occupied
    slots.
  - The lemmas relate these definitions.
- `JavaArith` (`java_arith.dfy`) writes out Java's 32- and 64-bit
  wrap-around in `openAddressItem`. It proves that the wrap-around gives the
  same slot as `Probe`.
- `MemTable` (`mem_table.dfy`) is the class. It has the fields `table:
  array<Long>`, `bucketsFilled` and `bits`. Its methods loop over the array
  as the Java code does, and each one is proved against the `FilterSpec`
  function that specifies it.

Two behaviours of the code are modelled as written, not smoothed over:

- **Digest 0.** `add0(0)` stops at the first empty slot and "stores" 0
  there, so the table does not change. It still returns true and increments
  `bucketsFilled`. `contains` can never find 0 (`ZeroDigestInvisible`, and
  `Walk`'s contract). The invariant (`Invariant`, `Consistent`) is therefore
  promised only while every added digest is nonzero. A rehash builds its
  table from nonzero digests only, so it restores the invariant whatever
  came before.
- **Growth.** `rehash` sizes the new table from `size()`, not from the old
  table. With the sizing assumption below, 3 filled slots out of 8 give
  `AllocBits(3) == 3`: the new table again has 8 slots. Quadratic probing
  over a power of two does not visit every slot, so a replayed `add0` can
  find no free slot. The model therefore promises neither a load bound nor
  unconditional preservation:
  - a rehash invents no digest;
  - an old digest survives exactly when its replayed `add0` succeeded;
  - a consistent table loses no digest exactly when the counter comes out
    unchanged (`RehashPreservesWhenCountKept`).

  `RehashMayNotMakeRoom` works one case through. A filter of capacity 4
  has 8 slots, and 9, 10 and 13 go to slots 1, 2 and 5. The next
  `add(17)` rehashes, and the rehash lays out the same 8 slots again. 17
  probes only slots 1, 2 and 5, so `add(17)` returns false and stores
  nothing, although 17 was never added. The table stays at 3 of 8 slots
  filled.

## Model

| member | source | states |
|---|---|---|
| `MemTable.MemTableByteStringFilter.New` | src/main/java/byte_lib/hashed/MemTableByteStringFilter.java:20-24 | construction fails with `IllegalArgument("capacity")` exactly when `capacity <= 0`; otherwise it gives a fresh, empty, consistent filter with `bits == AllocBits(capacity)` and the given hasher |
| `MemTable.MemTableByteStringFilter.NewDefault` | src/main/java/byte_lib/hashed/MemTableByteStringFilter.java:16-18 | the no-argument constructor is construction with capacity 10: an empty filter with `bits == AllocBits(10)` |
| `MemTable.MemTableByteStringFilter.constructor` | src/main/java/byte_lib/hashed/MemTableByteStringFilter.java:21-23 | the allocation path of construction, for the positive capacities that pass the check: the table is all zeros, its length is `2^AllocBits(capacity)`, the counter is 0, the invariant holds and no digest is held |
| `MemTable.MemTableByteStringFilter.AllocateCapacity` | src/main/java/byte_lib/hashed/MemTableByteStringFilter.java:26-33 | after any allocation, `table.Length == 2^bits`, `bits == AllocBits(capacity) >= 3`, every slot is 0, `bucketsFilled == 0`, and the table is consistent and empty |
| `FilterSpec.AllocBits` | src/main/java/byte_lib/hashed/MemTableByteStringFilter.java:27-29 | the exponent is at least 3 and 2^bits holds twice the capacity; unless it is the floor 3, it is the smallest such exponent |
| `FilterSpec.NBits` | src/main/java/byte_lib/hashed/MemTableByteStringFilter.java:28 | the assumed sizing helper: the smallest `e` with `c <= 2^e` |
| `MemTable.MemTableByteStringFilter.OpenAddressItem` | src/main/java/byte_lib/hashed/MemTableByteStringFilter.java:95-97 | the probe slot always lies in `[0, table.Length)` and is the model's `Probe` of the same digest and step |
| `FilterSpec.Probe` | src/main/java/byte_lib/hashed/MemTableByteStringFilter.java:96 | the `n`-th quadratic probe of `h` is a slot index below the table size |
| `JavaArith.JavaProbeIsProbe` | src/main/java/byte_lib/hashed/MemTableByteStringFilter.java:95-97 | Java's computation (`int` square, `long` sum, `int` cast, mask) equals `(h + n*n) mod 2^bits` for every `bits <= 30` |
| `FilterSpec.Walk` | src/main/java/byte_lib/hashed/MemTableByteStringFilter.java:39-51 | a found walk stops on a slot holding `h`, and `h` is nonzero; a vacant walk stops on an empty slot; every earlier step saw a different nonzero digest; an exhausted walk saw only such slots |
| `FilterSpec.WalkSkipsAhead` | src/main/java/byte_lib/hashed/MemTableByteStringFilter.java:39-50 | steps that skip an occupied, non-matching slot do not change where the walk ends |
| `MemTable.MemTableByteStringFilter.Contains` | src/main/java/byte_lib/hashed/MemTableByteStringFilter.java:36-52 | `contains` reports exactly that the digest's walk is `Found` and changes nothing; a true answer means the digest is nonzero and held; under the invariant it is true exactly for the held digests |
| `FilterSpec.FoundIsStored` | src/main/java/byte_lib/hashed/MemTableByteStringFilter.java:44-49 | in any table, a digest that its walk finds is stored in the table |
| `FilterSpec.FoundIffStored` | src/main/java/byte_lib/hashed/MemTableByteStringFilter.java:36-52 | when every stored digest is reachable, a walk finds `h` exactly when `h` is stored |
| `MemTable.MemTableByteStringFilter.Add0` | src/main/java/byte_lib/hashed/MemTableByteStringFilter.java:63-80 | it returns true exactly when the walk reaches an empty slot; the new table is `Inserted(old, h)`; the counter goes up by 1 exactly then; for a nonzero digest the invariant is kept, the held set grows by `h` exactly on success, and a digest already held returns false |
| `FilterSpec.Inserted` | src/main/java/byte_lib/hashed/MemTableByteStringFilter.java:63-80 | `add0` never disturbs a stored digest: every nonzero slot of the old table keeps its value |
| `FilterSpec.InsertWritesOneSlot` | src/main/java/byte_lib/hashed/MemTableByteStringFilter.java:69-73 | the only slot `add0` can change is the empty slot where h's walk stopped, and that slot then holds `h` |
| `FilterSpec.InsertedIsFound` | src/main/java/byte_lib/hashed/MemTableByteStringFilter.java:63-80 | after a successful `add0` of a nonzero digest, the walk for it is `Found`, at the step where it was written |
| `FilterSpec.InsertIdempotent` | src/main/java/byte_lib/hashed/MemTableByteStringFilter.java:69-77 | adding the same digest twice changes the table at most once; once added, a nonzero digest is found, so a second add returns false |
| `FilterSpec.ZeroDigestInvisible` | src/main/java/byte_lib/hashed/MemTableByteStringFilter.java:69-72 | `add0(0)` leaves the table unchanged, and digest 0 is never found |
| `FilterSpec.FoundStable` | src/main/java/byte_lib/hashed/MemTableByteStringFilter.java:39-50 | a walk that finds `h` gives the same answer in any table that only fills empty slots |
| `FilterSpec.FoundSurvivesInserts` | src/main/java/byte_lib/hashed/MemTableByteStringFilter.java:63-80 | a found digest stays found, at the same step, across any later `add0`s before the next reallocation |
| `FilterSpec.InsertKeepsConsistent` | src/main/java/byte_lib/hashed/MemTableByteStringFilter.java:63-80 | for a nonzero digest, `add0` keeps the table invariant (distinct digests, reachable, counter equals occupied slots); a stored digest is found, so it is never stored twice; success adds exactly `{h}` to the held set |
| `FilterSpec.CountFill` | src/main/java/byte_lib/hashed/MemTableByteStringFilter.java:70-71 | writing a nonzero digest into an empty slot adds one occupied slot, matching `bucketsFilled++` |
| `FilterSpec.CountIsCardinality` | src/main/java/byte_lib/hashed/MemTableByteStringFilter.java:99-101 | in a table without duplicates, the number of occupied slots is the number of distinct digests held |
| `FilterSpec.ZerosConsistent` | src/main/java/byte_lib/hashed/MemTableByteStringFilter.java:30-31 | a freshly allocated table satisfies the invariant with counter 0, holds no digest, and finds no digest |
| `MemTable.MemTableByteStringFilter.Add` | src/main/java/byte_lib/hashed/MemTableByteStringFilter.java:54-61 | it rehashes exactly when `bucketsFilled * 4 > table.length`, then does `add0`. A successful add of a nonzero digest is then found. Without a rehash, old digests stay in place, the held set grows by exactly the new digest on success, and a digest already held returns false |
| `MemTable.TableForInsert` | src/main/java/byte_lib/hashed/MemTableByteStringFilter.java:55-58 | `add` inserts into the current table when the load limit holds; otherwise into the rehashed table, which has `2^AllocBits(size)` slots and no new digests |
| `MemTable.MemTableByteStringFilter.Rehash` | src/main/java/byte_lib/hashed/MemTableByteStringFilter.java:83-93 | the new table is fresh, `bits == AllocBits(old size)`, contents and counter are the replay of the old table's nonzero digests, the invariant holds, no digest is invented, and under the old invariant nothing is lost exactly when the counter is unchanged |
| `FilterSpec.Replay` | src/main/java/byte_lib/hashed/MemTableByteStringFilter.java:88-92 | replaying digests into a table keeps its size |
| `FilterSpec.ReplayStepKeepsInvariant` | src/main/java/byte_lib/hashed/MemTableByteStringFilter.java:88-92 | one more replayed digest keeps the replay invariant (consistency, held = before + placed, placed digests new and from the old table) |
| `FilterSpec.ReplayKeepsConsistent` | src/main/java/byte_lib/hashed/MemTableByteStringFilter.java:88-92 | replaying into a consistent table keeps it consistent. The counter grows by the number of successful `add0`s. What is held afterwards is what was held before plus exactly the placed digests. Each placed digest is a nonzero old digest that was not held before |
| `FilterSpec.Rehashed` | src/main/java/byte_lib/hashed/MemTableByteStringFilter.java:84-86 | the rebuilt table has the newly allocated size |
| `FilterSpec.RehashInventsNothing` | src/main/java/byte_lib/hashed/MemTableByteStringFilter.java:83-93 | after a rehash the table is consistent, every digest in it was in the old table, an old digest is present exactly when its replayed `add0` succeeded, and the counter equals the number of digests held |
| `FilterSpec.RehashPreservesWhenCountKept` | src/main/java/byte_lib/hashed/MemTableByteStringFilter.java:83-93 | a rehash of a consistent table keeps exactly the old digests if and only if the counter is unchanged by it |
| `MemTable.MemTableByteStringFilter.Size` | src/main/java/byte_lib/hashed/MemTableByteStringFilter.java:99-101 | `size()` is the counter; under the invariant it is the number of occupied slots and the number of distinct digests held |
| `MemTable.MemTableByteStringFilter.IsEmpty` | src/main/java/byte_lib/hashed/MemTableByteStringFilter.java:103-106 | `isEmpty()` is `size() == 0`, which under the invariant means no digest is held |
| `MemTable.MemTableByteStringFilter.Clear` | src/main/java/byte_lib/hashed/MemTableByteStringFilter.java:108-111 | after `clear()` the table is fresh with `bits == AllocBits(10)` and all zeros, `size() == 0`, `isEmpty()` holds, and `contains` is false for every digest |
| `FilterSpec.SmallAllocations` | src/main/java/byte_lib/hashed/MemTableByteStringFilter.java:26-30 | capacities 3 and 4 both get 2^3 slots, and capacity 5 gets 2^4 |
| `FilterSpec.RehashMayNotMakeRoom` | src/main/java/byte_lib/hashed/MemTableByteStringFilter.java:55-93 | after 9, 10 and 13 are added to a capacity-4 filter, 3 filled slots out of 8 (more than a quarter) trigger a rehash into 8 slots again, with the same layout; 17 (never added) has no free slot on its probe path, so `add0(17)` changes nothing and returns false |
| `FilterSpec.EightSlotExample` | src/main/java/byte_lib/hashed/MemTableByteStringFilter.java:63-80 | with capacity 4 the table has 8 slots; 5 lands in slot 5; 13 collides there and lands in slot 6, where its walk then finds it at step 1 |

## Left out

- The hash combiner `ByteStringHash.simple()` is not part of this model. The
  class receives it as the constant `hasher`, a total function from a key
  (first byte string, further byte strings) to a `long`. Nothing is assumed
  about it, so a digest of 0 is possible. Contracts that need a nonzero
  digest say so.
- `Util.nBits` is not part of this model. `NBits` assumes it returns the
  smallest exponent `e` with `c <= 2^e`. Nothing proved about `Add`, `Rehash`
  or `Clear` depends on this choice beyond `bits >= 3` and
  `table.Length == 2^bits`.
- AllocateCapacity: Java `int` overflow is not modelled. `capacity *= 2`
  overflows for capacities above 2^30, and `1 << bits` is not a valid table
  length once `bits >= 31`. The model uses unbounded integers and allocates
  any size.
- Add: `bucketsFilled << 2` is modelled as `bucketsFilled * 4`. The two
  differ only when `bucketsFilled >= 2^29`, a count larger than a quarter of
  any allocatable table.
- OpenAddressItem: the mask `& ((1 << bits) - 1)` on a Java `int` is modelled
  as the Euclidean remainder modulo 2^bits. That is what the mask does to a
  two's-complement value.
- The `LOG.info` call in `allocateCapacity` is left out, because it is
  logging only.
- Thread-safety is not modelled: the class is single-threaded by design.
- `dbpedia/DbpediaFile.java`, `wikipageviews/PageViewsTopExtractor.java` and
  `wikipageviews/ByteStringPageViewRecord.java` are not modelled. They are
  file I/O, gzip and snappy streams, a priority queue from the Java library,
  and a floating-point score. They also depend on classes that are not part
  of this model.
