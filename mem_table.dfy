/**
  `MemTableByteStringFilter`: a membership filter for composite byte-string
  keys.  Only the 64-bit digest of a key is kept, in an open-addressing table
  of 2^bits slots with quadratic probing; 0 marks an empty slot.  The digest
  function (`ByteStringHash.simple()`) is foreign code and is supplied to the
  constructor as `hasher`.
 */
module MemTable {
  import opened FilterSpec

  type Bytes = seq<bv8>

  /** The hash combiner: a key is a first byte string and any number of further ones. */
  type Hasher = (Bytes, seq<Bytes>) -> Long

  /** The one checked failure: `IllegalArgumentException` from the constructor. */
  datatype Error = IllegalArgument(message: string)

  datatype Result<T> = Success(value: T) | Failure(error: Error)

  /**
    The table `add` inserts into, and its counter: the current ones, or, when
    more than a quarter of the slots are counted as filled, the ones `rehash`
    rebuilds in a table sized for the current count.
   */
  function TableForInsert(t: seq<Long>, filled: int): (r: (seq<Long>, int))
    requires |t| > 0
    ensures |r.0| > 0
    ensures filled * 4 <= |t| ==> r == (t, filled)
    ensures filled * 4 > |t| ==> |r.0| == Pow2(AllocBits(filled)) && Stored(r.0) <= Stored(t)
  {
    if filled * 4 > |t| then
      var r := Rehashed(t, Pow2(AllocBits(filled)));
      RehashInventsNothing(t, Pow2(AllocBits(filled)));
      (r.table, |r.placed|)
    else (t, filled)
  }

  class MemTableByteStringFilter {
    const hasher: Hasher
    var table: array<Long>
    var bucketsFilled: int
    var bits: nat

    /** The shape every operation keeps, whatever digests were added. */
    ghost predicate Valid()
      reads this
    {
      bits >= MIN_BITS && table.Length == Pow2(bits) && bucketsFilled >= 0
    }

    /**
      The invariant kept while every digest added is nonzero: digests are
      distinct, each is found by its own probe walk, and `bucketsFilled`
      counts the occupied slots.
     */
    ghost predicate Invariant()
      reads this, table
    {
      Valid() && Consistent(table[..], bucketsFilled)
    }

    /** The digests the filter holds. */
    ghost function Digests(): set<Long>
      reads this, table
    {
      Stored(table[..])
    }

    /** The allocation path of the constructor (after the capacity check). */
    constructor (capacity: int, hasher: Hasher)
      requires capacity > 0
      ensures Valid() && fresh(table) && this.hasher == hasher
      ensures bits == AllocBits(capacity) && bucketsFilled == 0
      ensures table[..] == Zeros(table.Length)
      ensures Invariant() && Digests() == {}
    {
      this.hasher := hasher;
      bits := AllocBits(capacity);
      table := new Long[Pow2(AllocBits(capacity))](_ => EMPTY);
      bucketsFilled := 0;
      new;
      assert table[..] == Zeros(table.Length);
      ZerosConsistent(table.Length);
    }

    /** `new MemTableByteStringFilter(capacity)`: a non-positive capacity is refused. */
    static method New(capacity: int, hasher: Hasher) returns (r: Result<MemTableByteStringFilter>)
      ensures r.Failure? <==> capacity <= 0
      ensures r.Failure? ==> r.error == IllegalArgument("capacity")
      ensures r.Success? ==> fresh(r.value) && fresh(r.value.table) && r.value.hasher == hasher
      ensures r.Success? ==> r.value.Valid() && r.value.bits == AllocBits(capacity)
      ensures r.Success? ==> r.value.Invariant() && r.value.Size() == 0 && r.value.Digests() == {}
    {
      if capacity <= 0 {
        return Failure(IllegalArgument("capacity"));
      }
      var f := new MemTableByteStringFilter(capacity, hasher);
      r := Success(f);
    }

    /** `new MemTableByteStringFilter()`: the default capacity of 10 elements. */
    static method NewDefault(hasher: Hasher) returns (f: MemTableByteStringFilter)
      ensures fresh(f) && fresh(f.table) && f.hasher == hasher
      ensures f.Valid() && f.bits == AllocBits(DEFAULT_CAPACITY)
      ensures f.Invariant() && f.Size() == 0 && f.Digests() == {}
    {
      var r := New(DEFAULT_CAPACITY, hasher);
      f := r.value;
    }

    /** Replace the table by an empty one sized for twice `capacity`, and reset the counter. */
    method AllocateCapacity(capacity: int)
      modifies this
      ensures Valid() && fresh(table)
      ensures bits == AllocBits(capacity) && bucketsFilled == 0
      ensures table[..] == Zeros(table.Length)
      ensures Invariant() && Digests() == {}
    {
      bits := AllocBits(capacity);
      table := new Long[Pow2(bits)](_ => EMPTY);
      bucketsFilled := 0;
      assert table[..] == Zeros(table.Length);
      ZerosConsistent(table.Length);
    }

    /** The slot of the `nHash`-th probe of `hash`: always inside the table. */
    function OpenAddressItem(hash: Long, nHash: nat): (item: nat)
      reads this
      requires Valid()
      ensures item < table.Length
      ensures item == Probe(hash, nHash, table.Length)
    {
      (hash + nHash * nHash) % Pow2(bits)
    }

    /** The number of occupied slots, which under the invariant is the number of digests held. */
    function Size(): (r: int)
      reads this, table
      ensures r == bucketsFilled
      ensures Invariant() ==> r == Count(table[..]) && r == |Digests()|
    {
      CountIsCardinalityWhenDistinct(table[..]);
      bucketsFilled
    }

    function IsEmpty(): (r: bool)
      reads this, table
      ensures r <==> Size() == 0
      ensures Invariant() ==> (r <==> Digests() == {})
    {
      Size() == 0
    }

    /** Whether the key's digest is found along its probe path. */
    method Contains(str: Bytes, other: seq<Bytes>) returns (found: bool)
      requires Valid()
      ensures found == Walk(table[..], hasher(str, other), 0).Found?
      ensures found ==> hasher(str, other) != EMPTY && hasher(str, other) in Digests()
      ensures Invariant() ==> (found <==> hasher(str, other) in Digests())
    {
      var hash := hasher(str, other);
      FoundIsStored(table[..], hash);
      if Invariant() {
        FoundIffStored(table[..], hash);
      }
      for n := 0 to table.Length
        invariant Walk(table[..], hash, 0) == Walk(table[..], hash, n)
      {
        var item := OpenAddressItem(hash, n);
        var entry := table[item];
        if entry == EMPTY {
          return false;
        }
        if entry == hash {
          return true;
        }
      }
      return false;
    }

    /** Add the key's digest, after a rehash when more than a quarter of the slots are filled. */
    method Add(str: Bytes, other: seq<Bytes>) returns (added: bool)
      requires Valid()
      modifies this, table
      ensures Valid()
      ensures old(bucketsFilled) * 4 > old(table.Length) ==>
        fresh(table) && bits == AllocBits(old(bucketsFilled))
      ensures old(bucketsFilled) * 4 <= old(table.Length) ==>
        table == old(table) && bits == old(bits) && Extends(old(table[..]), table[..])
      ensures var (t, filled) := TableForInsert(old(table[..]), old(bucketsFilled));
        added == Walk(t, hasher(str, other), 0).Vacant? &&
        table[..] == Inserted(t, hasher(str, other)) &&
        bucketsFilled == filled + (if added then 1 else 0)
      ensures added && hasher(str, other) != EMPTY ==> Walk(table[..], hasher(str, other), 0).Found?
      ensures hasher(str, other) != EMPTY && (old(Invariant()) || old(bucketsFilled) * 4 > old(table.Length)) ==>
        Invariant() && Digests() <= old(Digests()) + {hasher(str, other)}
      ensures hasher(str, other) != EMPTY && old(Invariant()) && old(bucketsFilled) * 4 <= old(table.Length) ==>
        Digests() == old(Digests()) + (if added then {hasher(str, other)} else {}) &&
        (hasher(str, other) in old(Digests()) ==> !added)
    {
      if bucketsFilled * 4 > table.Length {
        Rehash();
      }
      var hash := hasher(str, other);
      ghost var t := table[..];
      if hash != EMPTY && Walk(t, hash, 0).Vacant? {
        InsertedIsFound(t, hash);
      }
      added := Add0(hash);
    }

    /** Store `hash` in the first empty slot of its probe path, unless the path reaches it first. */
    method Add0(hash: Long) returns (added: bool)
      requires Valid()
      modifies this`bucketsFilled, table
      ensures Valid() && table == old(table)
      ensures added == Walk(old(table[..]), hash, 0).Vacant?
      ensures table[..] == Inserted(old(table[..]), hash)
      ensures bucketsFilled == old(bucketsFilled) + (if added then 1 else 0)
      ensures hash != EMPTY && old(Invariant()) ==>
        Invariant() && Digests() == old(Digests()) + (if added then {hash} else {})
      ensures hash != EMPTY && old(Invariant()) && hash in old(Digests()) ==> !added
    {
      ghost var inv := Invariant();
      ghost var t := table[..];
      added := false;
      for n := 0 to table.Length
        invariant table[..] == t && bucketsFilled == old(bucketsFilled) && !added
        invariant Walk(t, hash, 0) == Walk(t, hash, n)
      {
        var item := OpenAddressItem(hash, n);
        var entry := table[item];
        if entry == EMPTY {
          table[item] := hash;
          bucketsFilled := bucketsFilled + 1;
          added := true;
          break;
        }
        if entry == hash {
          break;
        }
      }
      assert table[..] == Inserted(t, hash);
      if hash != EMPTY && inv {
        InsertKeepsConsistent(t, old(bucketsFilled), hash);
      }
    }

    /**
      Reallocate for the current count and replay every nonzero digest of the
      old table.  The new table holds no digest the old one did not, and under
      the invariant it lost none exactly when the counter came out unchanged.
     */
    method Rehash()
      requires Valid()
      modifies this
      ensures Valid() && fresh(table) && bits == AllocBits(old(bucketsFilled))
      ensures table[..] == Rehashed(old(table[..]), table.Length).table
      ensures bucketsFilled == |Rehashed(old(table[..]), table.Length).placed|
      ensures Invariant() && Digests() <= old(Digests())
      ensures old(Invariant()) ==> (Digests() == old(Digests()) <==> bucketsFilled == old(bucketsFilled))
    {
      var oldTable := table;
      AllocateCapacity(Size());
      for i := 0 to oldTable.Length
        invariant Valid() && fresh(table) && bits == AllocBits(old(bucketsFilled))
        invariant oldTable[..] == old(table[..])
        invariant table[..] == Replay(Zeros(table.Length), oldTable[..i]).table
        invariant bucketsFilled == |Replay(Zeros(table.Length), oldTable[..i]).placed|
      {
        assert oldTable[..i + 1][..i] == oldTable[..i];
        if oldTable[i] != EMPTY {
          var _ := Add0(oldTable[i]);
        }
      }
      assert oldTable[..oldTable.Length] == oldTable[..];
      RehashInventsNothing(old(table[..]), table.Length);
      if old(Invariant()) {
        RehashPreservesWhenCountKept(old(table[..]), old(bucketsFilled), table.Length);
      }
    }

    /** Go back to an empty table of the default size. */
    method Clear()
      modifies this
      ensures Valid() && fresh(table) && bits == AllocBits(DEFAULT_CAPACITY)
      ensures table[..] == Zeros(table.Length)
      ensures Size() == 0 && IsEmpty() && Invariant() && Digests() == {}
      ensures forall h :: !Walk(table[..], h, 0).Found?
    {
      AllocateCapacity(DEFAULT_CAPACITY);
      ZerosConsistent(table.Length);
    }
  }
}
