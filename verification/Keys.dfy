// The key interning table: open addressing with linear probing, hash first.
module Keys {
  import opened Base

  type U32 = n: int | 0 <= n < 0x1_0000_0000

  const FNV_OFFSET_BASIS: U32 := 0x811C_9DC5
  const FNV_PRIME: bv32 := 0x0100_0193
  const MAX_ENTRIES := 10_000
  const DEFAULT_CAPACITY := 64
  const MAX_KEY_BYTES := 64

  /** One round of FNV-1a, wrapping at 32 bits. */
  function HashByte(hash: U32, b: Byte): U32 {
    ((hash as bv32 ^ b as bv32) * FNV_PRIME) as U32
  }

  function Hash(bytes: Bytes): U32 {
    if bytes == [] then FNV_OFFSET_BASIS
    else HashByte(Hash(bytes[..|bytes| - 1]), bytes[|bytes| - 1])
  }

  // The table is right for any hash function: it only has to be one.
  type HashFunction = Bytes -> U32

  predicate PowerOfTwo(n: nat) {
    n == 1 || (n > 1 && n % 2 == 0 && PowerOfTwo(n / 2))
  }

  // ---------- Slots ----------

  type Slots = seq<Option<Bytes>>

  /** The bits that both numbers have. */
  function BitAnd(a: nat, b: nat): nat {
    if a == 0 || b == 0 then 0 else 2 * BitAnd(a / 2, b / 2) + if a % 2 == 1 && b % 2 == 1 then 1 else 0
  }

  lemma {:induction false} RemainderByHalves(a: nat, m: nat)
    requires m > 0
    ensures Remainder(a, 2 * m) == 2 * Remainder(a / 2, m) + a % 2
  {
    if a >= 2 * m {
      assert (a - 2 * m) / 2 == a / 2 - m && (a - 2 * m) % 2 == a % 2;
      RemainderByHalves(a - 2 * m, m);
    }
  }

  lemma {:induction false} RemainderByOne(a: nat)
    ensures Remainder(a, 1) == 0
  {
    if a > 0 {
      RemainderByOne(a - 1);
    }
  }

  /** For a power of two, masking is taking the remainder. */
  lemma {:induction false} MaskIsRemainder(a: nat, capacity: nat)
    requires PowerOfTwo(capacity)
    ensures BitAnd(a, capacity - 1) == Remainder(a, capacity)
  {
    if capacity == 1 {
      RemainderByOne(a);
    } else {
      var half := capacity / 2;
      assert capacity == 2 * half && (capacity - 1) / 2 == half - 1 && (capacity - 1) % 2 == 1;
      MaskIsRemainder(a / 2, half);
      RemainderByHalves(a, half);
    }
  }

  /** The slot that a key with this hash goes to, if it is free. */
  function Home(hash: U32, capacity: nat): (home: nat)
    requires capacity > 0
    ensures home < capacity
  {
    Remainder(hash, capacity)
  }

  function Remainder(n: nat, capacity: nat): (r: nat)
    requires capacity > 0
    ensures r < capacity
  {
    if n < capacity then n else Remainder(n - capacity, capacity)
  }

  function NextSlot(i: nat, capacity: nat): (next: nat)
    requires i < capacity
    ensures next == Remainder(i + 1, capacity)
  {
    if i + 1 == capacity then 0 else i + 1
  }

  lemma HomeByMask(hash: U32, capacity: nat)
    requires PowerOfTwo(capacity)
    ensures capacity > 0 && BitAnd(hash, capacity - 1) == Home(hash, capacity)
  {
    MaskIsRemainder(hash, capacity);
  }

  lemma NextByMask(i: nat, capacity: nat)
    requires PowerOfTwo(capacity) && i < capacity
    ensures BitAnd(i + 1, capacity - 1) == NextSlot(i, capacity)
  {
    MaskIsRemainder(i + 1, capacity);
  }

  /** Probes from slot `home` to slot `i`. */
  function Distance(home: nat, i: nat, capacity: nat): nat
    requires home < capacity && i < capacity
  {
    if i >= home then i - home else i + capacity - home
  }

  /** No gap between the home of `key` and slot `i`. */
  ghost predicate NoGap(hashOf: HashFunction, keys: Slots, key: Bytes, i: nat)
    requires i < |keys|
  {
    var home := Home(hashOf(key), |keys|);
    forall j :: 0 <= j < |keys| && Distance(home, j, |keys|) < Distance(home, i, |keys|) ==> keys[j].Some?
  }

  /** Every key can be reached from its home slot without crossing a gap. */
  ghost predicate Reachable(hashOf: HashFunction, keys: Slots) {
    forall i :: 0 <= i < |keys| && keys[i].Some? ==> NoGap(hashOf, keys, keys[i].value, i)
  }

  ghost predicate Distinct(keys: Slots) {
    forall i, j :: 0 <= i < j < |keys| && keys[i].Some? ==> keys[i] != keys[j]
  }

  function Count(keys: Slots): nat {
    if keys == [] then 0
    else Count(keys[..|keys| - 1]) + if keys[|keys| - 1].Some? then 1 else 0
  }

  /** What the slots hold, as a map. */
  function Contents(keys: Slots, values: Slots): map<Bytes, Bytes>
    requires |keys| == |values|
    requires forall i :: 0 <= i < |keys| ==> (keys[i].Some? <==> values[i].Some?)
  {
    if keys == [] then map[]
    else
      var last := |keys| - 1;
      var rest := Contents(keys[..last], values[..last]);
      if keys[last].Some? then rest[keys[last].value := values[last].value] else rest
  }

  ghost predicate Paired(keys: Slots, values: Slots) {
    |keys| == |values| && forall i :: 0 <= i < |keys| ==> (keys[i].Some? <==> values[i].Some?)
  }

  lemma {:induction false} ContentsHas(keys: Slots, values: Slots, key: Bytes)
    requires Paired(keys, values) && Distinct(keys)
    ensures key in Contents(keys, values) <==> Some(key) in keys
    ensures forall i :: 0 <= i < |keys| && keys[i] == Some(key) ==> Contents(keys, values)[key] == values[i].value
  {
    if keys != [] {
      var last := |keys| - 1;
      ContentsHas(keys[..last], values[..last], key);
      assert keys == keys[..last] + [keys[last]];
    }
  }

  lemma {:induction false} ContentsPut(keys: Slots, values: Slots, i: nat, key: Bytes, value: Bytes)
    requires Paired(keys, values) && i < |keys| && keys[i].None? && Some(key) !in keys
    ensures Paired(keys[i := Some(key)], values[i := Some(value)])
    ensures Contents(keys[i := Some(key)], values[i := Some(value)]) == Contents(keys, values)[key := value]
    ensures Count(keys[i := Some(key)]) == Count(keys) + 1
  {
    var last := |keys| - 1;
    var keys', values' := keys[i := Some(key)], values[i := Some(value)];
    if i < last {
      ContentsPut(keys[..last], values[..last], i, key, value);
      assert keys'[..last] == keys[..last][i := Some(key)];
      assert values'[..last] == values[..last][i := Some(value)];
    } else {
      assert keys'[..last] == keys[..last];
      assert values'[..last] == values[..last];
    }
  }

  lemma {:induction false} FreeSlot(keys: Slots) returns (f: nat)
    requires Count(keys) < |keys|
    ensures f < |keys| && keys[f].None?
  {
    var last := |keys| - 1;
    if keys[last].None? {
      f := last;
    } else {
      f := FreeSlot(keys[..last]);
    }
  }

  lemma {:induction false} EmptySlots(keys: Slots, values: Slots)
    requires |keys| == |values| && forall i :: 0 <= i < |keys| ==> keys[i].None? && values[i].None?
    ensures Count(keys) == 0 && Contents(keys, values) == map[]
  {
    if keys != [] {
      EmptySlots(keys[..|keys| - 1], values[..|keys| - 1]);
    }
  }

  /** A new key goes into the first free slot from its home. */
  lemma PutKeepsReachable(hashOf: HashFunction, keys: Slots, i: nat, key: Bytes)
    requires Reachable(hashOf, keys) && i < |keys| && keys[i].None?
    requires NoGap(hashOf, keys, key, i)
    ensures Reachable(hashOf, keys[i := Some(key)])
  {
    var after := keys[i := Some(key)];
    forall k | 0 <= k < |keys| && after[k].Some?
      ensures NoGap(hashOf, after, after[k].value, k)
    {
      assert k == i || NoGap(hashOf, keys, keys[k].value, k);
    }
  }

  lemma EntryIsNew(keys: Slots, values: Slots, i: nat)
    requires Paired(keys, values) && Distinct(keys) && i < |keys|
    ensures var before := Contents(keys[..i], values[..i]);
            if keys[i].None? then
              Contents(keys[..i + 1], values[..i + 1]) == before && Count(keys[..i + 1]) == Count(keys[..i])
            else
              && keys[i].value !in before
              && Contents(keys[..i + 1], values[..i + 1]) == before[keys[i].value := values[i].value]
              && Count(keys[..i + 1]) == Count(keys[..i]) + 1
    ensures Count(keys[..i]) <= i
  {
    assert keys[..i + 1][..i] == keys[..i] && values[..i + 1][..i] == values[..i];
    CountAtMost(keys[..i]);
    if keys[i].Some? {
      ContentsHas(keys[..i], values[..i], keys[i].value);
    }
  }

  /** The first `probes` slots from `home` do not hold the key; then comes a gap, or there are no more. */
  ghost predicate NotMet(keys: Slots, key: Bytes, home: nat, idx: nat, probes: nat)
    requires home < |keys| && idx < |keys|
  {
    && (forall j :: 0 <= j < |keys| && Distance(home, j, |keys|) < probes ==> keys[j] != Some(key))
    && (probes == |keys| || (probes == Distance(home, idx, |keys|) && keys[idx].None?))
  }

  /** A key not met on the way from its home to a gap is not there. */
  lemma AbsentPast(hashOf: HashFunction, keys: Slots, values: Slots, key: Bytes, idx: nat, probes: nat)
    requires Reachable(hashOf, keys) && idx < |keys| && Paired(keys, values) && Distinct(keys)
    requires NotMet(keys, key, Home(hashOf(key), |keys|), idx, probes)
    ensures key !in Contents(keys, values)
  {
    ContentsHas(keys, values, key);
    forall i | 0 <= i < |keys|
      ensures keys[i] != Some(key)
    {
    }
  }

  /** What a table's vectors must satisfy. */
  ghost predicate Consistent(hashOf: HashFunction, hashes: seq<U32>, keys: Slots, values: Slots) {
    && |hashes| == |keys|
    && Paired(keys, values)
    && (forall i :: 0 <= i < |keys| && keys[i].Some? ==> hashes[i] == hashOf(keys[i].value))
    && Distinct(keys)
    && Reachable(hashOf, keys)
  }

  lemma StoreKeepsConsistent(hashOf: HashFunction, hashes: seq<U32>, keys: Slots, values: Slots, i: nat, key: Bytes, value: Bytes)
    requires Consistent(hashOf, hashes, keys, values) && i < |keys| && keys[i].None? && NoGap(hashOf, keys, key, i)
    requires key !in Contents(keys, values)
    ensures var keys', values' := keys[i := Some(key)], values[i := Some(value)];
            && Consistent(hashOf, hashes[i := hashOf(key)], keys', values')
            && Contents(keys', values') == Contents(keys, values)[key := value]
            && Count(keys') == Count(keys) + 1
  {
    ContentsHas(keys, values, key);
    ContentsPut(keys, values, i, key, value);
    PutKeepsReachable(hashOf, keys, i, key);
  }

  class KeySymbolTable {
    ghost const hashOf: HashFunction
    var hashes: seq<U32>
    var keys: Slots
    var values: Slots
    var size: nat
    var mask: nat

    ghost predicate WellFormed()
      reads this
    {
      Consistent(hashOf, hashes, keys, values) && |keys| == mask + 1 && PowerOfTwo(mask + 1)
    }

    /** There is always a free slot, so probing ends. */
    ghost predicate Valid()
      reads this
    {
      WellFormed() && size == Count(keys) && DEFAULT_CAPACITY <= mask + 1 && size <= (mask + 1) - (mask + 1) / 4
    }

    ghost function Table(): map<Bytes, Bytes>
      requires WellFormed()
      reads this
    {
      Contents(keys, values)
    }

    constructor (ghost hashOf: HashFunction)
      ensures Valid() && Table() == map[] && this.hashOf == hashOf && mask + 1 == 64
    {
      this.hashOf := hashOf;
      hashes, keys, values, size, mask := [], [], [], 0, 0;
      new;
      assert PowerOfTwo(64) by { assert PowerOfTwo(8); }
      Allocate(DEFAULT_CAPACITY);
    }

    /** Empties the slots, giving them this capacity. */
    method Allocate(capacity: nat)
      requires PowerOfTwo(capacity)
      modifies `hashes, `keys, `values, `mask
      ensures WellFormed() && mask == capacity - 1 && Count(keys) == 0 && Table() == map[]
    {
      hashes := seq(capacity, _ => 0);
      keys := seq(capacity, _ => None);
      values := seq(capacity, _ => None);
      mask := capacity - 1;
      EmptySlots(keys, values);
    }

    /** Probes for the slot of a key, up to a gap or all the way round. */
    method Seek(bytes: Bytes, hash: U32) returns (found: bool, idx: nat, ghost probes: nat)
      requires Paired(keys, values) && |hashes| == |keys| == mask + 1 && PowerOfTwo(mask + 1)
      requires forall i :: 0 <= i <= mask && keys[i] == Some(bytes) ==> hashes[i] == hash
      ensures idx <= mask
      ensures found ==> keys[idx] == Some(bytes)
      ensures !found ==> NotMet(keys, bytes, Home(hash, mask + 1), idx, probes)
    {
      hide BitAnd, Home, PowerOfTwo, Remainder;
      ghost var home, capacity := Home(hash, mask + 1), mask + 1;
      idx := BitAnd(hash, mask);
      HomeByMask(hash, mask + 1);
      var steps := 0;
      while values[idx].Some?
        invariant idx <= mask && steps == Distance(home, idx, capacity)
        invariant forall j :: 0 <= j <= mask && Distance(home, j, capacity) < steps ==> keys[j] != Some(bytes)
        decreases capacity - steps
      {
        if hashes[idx] == hash && keys[idx] == Some(bytes) {
          return true, idx, steps;
        }
        NextByMask(idx, mask + 1);
        idx := BitAnd(idx + 1, mask);
        steps := steps + 1;
        if steps > mask {
          return false, idx, steps;
        }
      }
      return false, idx, steps;
    }

    /** The value stored for exactly these bytes, or none. */
    method Lookup(bytes: Bytes, hash: U32) returns (r: Option<Bytes>)
      requires Valid() && hash == hashOf(bytes)
      ensures r == if bytes in Table() then Some(Table()[bytes]) else None
    {
      var found, idx, probes := Seek(bytes, hash);
      if found {
        ContentsHas(keys, values, bytes);
        return values[idx];
      }
      AbsentPast(hashOf, keys, values, bytes, idx, probes);
      return None;
    }

    /** The first free slot from the home of a key with this hash. */
    method Probe(ghost key: Bytes, hash: U32) returns (idx: nat)
      requires Paired(keys, values) && |keys| == mask + 1 && PowerOfTwo(mask + 1) && Count(keys) <= mask && hash == hashOf(key)
      ensures idx <= mask && keys[idx].None? && NoGap(hashOf, keys, key, idx)
    {
      hide BitAnd, Home, PowerOfTwo, Remainder;
      ghost var home, capacity, probes := Home(hash, mask + 1), mask + 1, 0;
      ghost var free := FreeSlot(keys);
      idx := BitAnd(hash, mask);
      HomeByMask(hash, mask + 1);
      while values[idx].Some?
        invariant idx <= mask && probes == Distance(home, idx, capacity)
        invariant forall j :: 0 <= j <= mask && Distance(home, j, capacity) < probes ==> keys[j].Some?
        decreases mask - probes
      {
        assert Distance(home, free, capacity) > probes;
        NextByMask(idx, mask + 1);
        idx := BitAnd(idx + 1, mask);
        probes := probes + 1;
      }
    }

    /** Puts a new key in its slot. */
    method Store(bytes: Bytes, hash: U32, value: Bytes)
      requires WellFormed() && Count(keys) < mask + 1 && hash == hashOf(bytes)
      requires bytes !in Table()
      modifies `hashes, `keys, `values
      ensures WellFormed() && Count(keys) == old(Count(keys)) + 1
      ensures Table() == old(Table())[bytes := value]
    {
      hide PowerOfTwo, Reachable, Distinct, NoGap, Home, Contents, Count;
      var idx := Probe(bytes, hash);
      StoreKeepsConsistent(hashOf, hashes, keys, values, idx, bytes, value);
      hashes := hashes[idx := hash];
      keys := keys[idx := Some(bytes)];
      values := values[idx := Some(value)];
    }

    /** Remembers a key not in the table, unless the table is full. */
    method Put(bytes: Bytes, hash: U32, value: Bytes)
      requires Valid() && hash == hashOf(bytes) && bytes !in Table()
      modifies this
      ensures Valid()
      ensures Table() == if old(size) >= 10_000 then old(Table()) else old(Table())[bytes := value]
      ensures size == if old(size) >= 10_000 then old(size) else old(size) + 1
    {
      if size >= MAX_ENTRIES {
        return;
      }
      var capacity := mask + 1;
      if size >= capacity - capacity / 4 {
        Grow();
      }
      Store(bytes, hash, value);
      size := size + 1;
    }

    /** Doubles the capacity, keeping every entry. */
    method Grow()
      requires Valid()
      modifies `hashes, `keys, `values, `mask
      ensures Valid() && mask + 1 == 2 * (old(mask) + 1)
      ensures Table() == old(Table())
    {
      var oldHashes, oldKeys, oldValues := hashes, keys, values;
      var capacity := (mask + 1) * 2;
      assert PowerOfTwo(capacity);
      EmptySlots(oldKeys[..0], oldValues[..0]);
      hide PowerOfTwo, Reachable, Distinct, NoGap, Home, Contents, Count, Consistent;
      Allocate(capacity);
      var i := 0;
      while i < |oldValues|
        invariant i <= |oldValues| && mask == capacity - 1
        invariant WellFormed() && Count(keys) == Count(oldKeys[..i])
        invariant Table() == Contents(oldKeys[..i], oldValues[..i])
      {
        Move(oldHashes, oldKeys, oldValues, i);
        i := i + 1;
      }
      assert oldKeys[..i] == oldKeys && oldValues[..i] == oldValues;
    }

    /** Stores what slot `i` of the old table holds, if anything. */
    method Move(oldHashes: seq<U32>, oldKeys: Slots, oldValues: Slots, i: nat)
      requires Consistent(hashOf, oldHashes, oldKeys, oldValues) && i < |oldKeys| <= mask
      requires WellFormed() && Count(keys) == Count(oldKeys[..i]) && Table() == Contents(oldKeys[..i], oldValues[..i])
      modifies `hashes, `keys, `values
      ensures WellFormed() && Count(keys) == Count(oldKeys[..i + 1]) && Table() == Contents(oldKeys[..i + 1], oldValues[..i + 1])
    {
      hide PowerOfTwo, Reachable, Distinct, NoGap, Home, Contents, Count;
      EntryIsNew(oldKeys, oldValues, i);
      if oldValues[i].Some? {
        Store(oldKeys[i].value, oldHashes[i], oldValues[i].value);
      }
    }
  }

  lemma {:induction false} CountAtMost(keys: Slots)
    ensures Count(keys) <= |keys|
  {
    if keys != [] {
      CountAtMost(keys[..|keys| - 1]);
    }
  }
}
