/** The per-interpreter pointer-hash table: an open-addressing Robin Hood table with saturated
    probe-length tags, updated in place (pycore_retrace_identity_hash.h). */
module IdentityHash {
  import opened Bits
  import opened TaggedSlot
  import opened RobinHood
  import opened Sets

  const MIN_CAPACITY: nat := 16
  const SIZE_MAX: nat := 0xffff_ffff_ffff_ffff

  /** `(capacity * 5) / 8` in `size_t` arithmetic. */
  function ResizeAt(capacity: Word): (limit: nat)
    ensures capacity <= SIZE_MAX / 8 ==> limit == capacity * 5 / 8
    ensures MIN_CAPACITY <= capacity <= SIZE_MAX / 8 ==> 10 <= limit < capacity
  {
    ((capacity * 5) % WORD_LIMIT) / 8
  }

  function Double(capacity: Word): (r: nat)
    ensures capacity <= SIZE_MAX / 8 ==> r == capacity * 2
  {
    (capacity * 2) % WORD_LIMIT
  }

  class IdentityHashTable {
    const mix: Mixer
    const mask: Word
    const resizeAt: nat
    const keys: array<Word>
    const values: array<int>
    var used: nat
    ghost var contents: map<Word, int>

    ghost predicate Valid()
      reads this, keys, values
    {
      && Shaped()
      && used == |contents| <= resizeAt
      && WellFormed(mix, keys[..])
      && Holds(keys[..], values[..], contents)
    }

    /** Only built through NewIdentityHashTable, which checks the capacity. */
    constructor (mix: Mixer, capacity: nat)
      requires MIN_CAPACITY <= capacity <= SIZE_MAX / 8 && PowerOfTwoCapacity(capacity - 1)
      ensures Valid() && fresh(keys) && fresh(values)
      ensures contents == map[] && this.mix == mix && mask == capacity - 1
    {
      this.mix := mix;
      keys := new Word[capacity](_ => 0);
      values := new int[capacity];
      mask := capacity - 1;
      used := 0;
      resizeAt := ResizeAt(capacity);
      contents := map[];
    }

    /** The part of the invariant that no operation changes. */
    ghost predicate Shaped() {
      && keys as object != values as object
      && keys.Length == values.Length == mask + 1
      && PowerOfTwoCapacity(mask)
      && MIN_CAPACITY <= mask + 1 <= SIZE_MAX / 8
      && resizeAt == (mask + 1) * 5 / 8
    }

    /** Stores a tagged key and its value in one slot. */
    method Write(index: nat, key: Word, psl: nat, value: int)
      requires Shaped() && Aligned(key) && index <= mask
      modifies keys, values
      ensures keys[..] == old(keys[..])[index := Packed(key, psl)]
      ensures values[..] == old(values[..])[index := value]
    {
      keys[index] := Entry(key, psl);
      values[index] := value;
    }

    /** Does an occupied slot hold the key? */
    method Matches(index: nat, key: Word) returns (same: bool)
      requires Shaped() && Aligned(key) && index <= mask && keys[index] != 0
      ensures same <==> At(keys[..], index, key)
    {
      same := EntryMatches(keys[index], key);
    }

    /** The slot after `index`, wrapping at the capacity. */
    method Advance(index: nat) returns (next: nat)
      requires Shaped() && index <= mask
      ensures next == Next(index, mask + 1)
    {
      next := NextIndex(index, mask);
    }

    /** Exact distance of the entry in a slot, recomputed when its tag is saturated. */
    method EntryDistance(index: nat) returns (psl: nat)
      requires Shaped()
      requires index <= mask && keys[index] != 0 && TagOk(mix, keys[..], index)
      ensures psl == Dist(mix, keys[..], index)
    {
      var entry := keys[index];
      psl := EntryPsl(entry);
      if psl == PSL_SATURATED {
        psl := ExactPsl(mix, EntryKey(entry), index, mask);
      }
    }

    /** Stores the carried pair in an empty slot. */
    method StoreNew(key: Word, value: int, psl: nat, index: nat,
                    ghost m: map<Word, int>, ghost target: map<Word, int>, ghost e: nat)
      requires Shaped() && used == |m|
      requires Inserting(mix, keys[..], values[..], m, key, value, psl, index, e, target) && keys[index] == 0
      modifies this`used, keys, values
      ensures WellFormed(mix, keys[..]) && Holds(keys[..], values[..], target) && used == |target|
    {
      InsertAtEmpty(mix, keys[..], values[..], m, key, value, psl, index, e, target);
      Write(index, key, psl, value);
      used := used + 1;
    }

    /** Replaces the value of a key already in the slot. */
    method Overwrite(key: Word, value: int, index: nat, ghost m: map<Word, int>, ghost target: map<Word, int>)
      requires Shaped() && WellFormed(mix, keys[..]) && Holds(keys[..], values[..], m) && At(keys[..], index, key)
      requires m[key := value] == target
      modifies values
      ensures Holds(keys[..], values[..], target) && |target| == |m|
    {
      ghost var vs := values[..];
      UpdateHolds(keys[..], vs, m, index, key, value);
      values[index] := value;
      assert values[..] == vs[index := value];
      assert target.Keys == m.Keys;
    }

    /** Puts the carried pair in the slot of an entry nearer to its home, which is carried on. */
    method Displace(key0: Word, value0: int, psl0: nat, index: nat, entryPsl: nat,
                    ghost m: map<Word, int>, ghost target: map<Word, int>, ghost e: nat)
      returns (key: Word, value: int, ghost m': map<Word, int>)
      requires Shaped()
      requires Inserting(mix, keys[..], values[..], m, key0, value0, psl0, index, e, target)
      requires keys[index] != 0 && !At(keys[..], index, key0) && entryPsl == Dist(mix, keys[..], index) < psl0
      modifies keys, values
      ensures |m'| == |m| && index != e
      ensures Inserting(mix, keys[..], values[..], m', key, value, entryPsl + 1, Next(index, mask + 1), e, target)
    {
      InsertDisplace(mix, keys[..], values[..], m, key0, value0, psl0, index, e, target);
      m' := (m - {KeyOf(keys[index])})[key0 := value0];
      key, value := EntryKey(keys[index]), values[index];
      Write(index, key0, psl0, value0);
    }

    /** Past an occupied slot: whichever of the carried key and the entry is nearer to its home goes on. */
    method CarryOn(key0: Word, value0: int, psl0: nat, index: nat,
                   ghost m: map<Word, int>, ghost target: map<Word, int>, ghost e: nat)
      returns (key: Word, value: int, psl: nat, ghost m': map<Word, int>)
      requires Shaped()
      requires Inserting(mix, keys[..], values[..], m, key0, value0, psl0, index, e, target)
      requires keys[index] != 0 && !At(keys[..], index, key0)
      modifies keys, values
      ensures |m'| == |m| && index != e
      ensures Inserting(mix, keys[..], values[..], m', key, value, psl, Next(index, mask + 1), e, target)
    {
      assert TagOk(mix, keys[..], index);
      var entryPsl := EntryDistance(index);
      if entryPsl < psl0 {
        key, value, m' := Displace(key0, value0, psl0, index, entryPsl, m, target, e);
        psl := entryPsl + 1;
      } else {
        InsertPass(mix, keys[..], values[..], m, key0, value0, psl0, index, e, target);
        key, value, psl, m' := key0, value0, psl0 + 1, m;
      }
    }

    /** One probe of an insertion: the carried pair is stored, or it (or the pair it displaces) is
        carried on to the next slot. */
    method InsertOne(key0: Word, value0: int, psl0: nat, index: nat,
                     ghost m: map<Word, int>, ghost target: map<Word, int>, ghost e: nat)
      returns (done: bool, key: Word, value: int, psl: nat, ghost m': map<Word, int>)
      requires Shaped() && used == |m|
      requires Inserting(mix, keys[..], values[..], m, key0, value0, psl0, index, e, target)
      modifies this`used, keys, values
      ensures done ==> WellFormed(mix, keys[..]) && Holds(keys[..], values[..], target) && used == |target|
      ensures !done ==> used == |m'|
      ensures !done ==> index != e && Inserting(mix, keys[..], values[..], m', key, value, psl, Next(index, mask + 1), e, target)
    {
      if keys[index] == 0 {
        StoreNew(key0, value0, psl0, index, m, target, e);
        return true, key0, value0, psl0, target;
      }
      var same := Matches(index, key0);
      if same {
        Overwrite(key0, value0, index, m, target);
        return true, key0, value0, psl0, target;
      }
      done := false;
      key, value, psl, m' := CarryOn(key0, value0, psl0, index, m, target, e);
    }

    /** Stores a pair in a table known to have room, displacing entries nearer to their homes. */
    method InsertKnownRoom(key0: Word, value0: int)
      requires Valid() && Aligned(key0) && used + 1 <= resizeAt
      modifies this`used, this`contents, keys, values
      ensures Valid() && contents == old(contents)[key0 := value0]
    {
      ghost var e := FindEmpty(keys[..], values[..], contents);
      ghost var m, target := contents, contents[key0 := value0];
      var done, key, value := false, key0, value0;
      var index: nat, psl: nat := Index(mix, key, mask), 0;
      assert target.Keys == m.Keys + {key0};
      while !done
        invariant done ==> WellFormed(mix, keys[..]) && Holds(keys[..], values[..], target) && used == |target|
        invariant !done ==> Inserting(mix, keys[..], values[..], m, key, value, psl, index, e, target)
        invariant !done ==> used == |m|
        invariant index <= mask
        decreases !done, Cyclic(index, e, mask + 1)
      {
        done, key, value, psl, m := InsertOne(key, value, psl, index, m, target, e);
        index := Advance(index);
      }
      contents := target;
    }

    /** True when the probe for a key must stop at slot `index`: the entry there is nearer to its
        home than the key would be. A saturated tag is rechecked against the exact distance. */
    method StopsProbe(index: nat, psl: nat) returns (stop: bool)
      requires Shaped()
      requires index <= mask && keys[index] != 0 && TagOk(mix, keys[..], index)
      ensures stop <==> Dist(mix, keys[..], index) < psl
    {
      var entry := keys[index];
      var entryPsl := EntryPsl(entry);
      if entryPsl < psl {
        if entryPsl != PSL_SATURATED {
          return true;
        }
        entryPsl := ExactPsl(mix, EntryKey(entry), index, mask);
        if entryPsl < psl {
          return true;
        }
      }
      return false;
    }

    /** One probe of a search; `e` is an empty slot still within reach. */
    method ProbeOne(key: Word, psl: nat, index: nat, ghost e: nat) returns (stop: bool, found: bool)
      requires Valid() && Carried(mix, keys[..], key, psl, index)
      requires e <= mask && keys[e] == 0 && psl + Cyclic(index, e, mask + 1) <= mask
      ensures found ==> stop && At(keys[..], index, key) && key in contents && contents[key] == values[index]
      ensures stop && !found ==> key !in contents
      ensures !stop ==> Carried(mix, keys[..], key, psl + 1, Next(index, mask + 1))
      ensures !stop ==> Cyclic(Next(index, mask + 1), e, mask + 1) == Cyclic(index, e, mask + 1) - 1
    {
      ghost var ks, vs := keys[..], values[..];
      var entry := keys[index];
      if entry == 0 {
        ProbeMiss(mix, ks, vs, contents, key, psl, index);
        return true, false;
      }
      var same := Matches(index, key);
      if same {
        ProbeHit(ks, vs, contents, key, index);
        return true, true;
      }
      assert TagOk(mix, ks, index);
      stop := StopsProbe(index, psl);
      found := false;
      if stop {
        ProbeMiss(mix, ks, vs, contents, key, psl, index);
      } else {
        ProbePass(mix, ks, key, psl, index, e);
      }
    }

    /** Walks the probe sequence of a key; on return either `index` holds the key or it is absent. */
    method Probe(key: Word) returns (found: bool, index: nat)
      requires Valid() && Aligned(key)
      ensures index <= mask
      ensures found <==> key in contents
      ensures found ==> At(keys[..], index, key) && contents[key] == values[index]
    {
      index := Index(mix, key, mask);
      var psl: nat := 0;
      ghost var e := FindEmpty(keys[..], values[..], contents);
      while true
        invariant Carried(mix, keys[..], key, psl, index)
        invariant psl + Cyclic(index, e, mask + 1) <= mask
        decreases Cyclic(index, e, mask + 1)
      {
        var stop, hit := ProbeOne(key, psl, index, e);
        if stop {
          return hit, index;
        }
        index := Advance(index);
        psl := psl + 1;
      }
    }

    /** Removes a stored key. */
    method Delete(key: Word) returns (deleted: bool)
      requires Valid() && Aligned(key)
      modifies this`used, this`contents, keys, values
      ensures Valid() && contents == old(contents) - {key}
      ensures deleted <==> key in old(contents)
    {
      var index;
      deleted, index := Probe(key);
      if deleted {
        BackShift(index, key);
      }
    }

    /** Empties the hole where a back-shift stops. */
    method CloseHole(hole: nat, ghost m: map<Word, int>, ghost e: nat)
      requires Shaped() && ShiftState(mix, keys[..], values[..], m, hole, e)
      requires var scan := Next(hole, mask + 1); keys[scan] == 0 || Dist(mix, keys[..], scan) == 0
      modifies keys
      ensures WellFormed(mix, keys[..]) && Holds(keys[..], values[..], m)
    {
      ghost var ks := keys[..];
      ShiftDone(mix, ks, hole);
      keys[hole] := 0;
      assert keys[..] == ks[hole := 0];
    }

    /** Moves the entry after the hole back into it. */
    method MoveBack(hole: nat, scan: nat, entryPsl: nat, ghost m: map<Word, int>, ghost e: nat)
      requires Shaped() && ShiftState(mix, keys[..], values[..], m, hole, e) && scan == Next(hole, mask + 1)
      requires keys[scan] != 0 && entryPsl == Dist(mix, keys[..], scan) > 0
      modifies keys, values
      ensures ShiftState(mix, keys[..], values[..], m, scan, e)
      ensures Cyclic(Next(scan, mask + 1), e, mask + 1) < Cyclic(scan, e, mask + 1)
    {
      ghost var ks := keys[..];
      ShiftAdvance(mix, ks, values[..], m, hole, e);
      Write(hole, EntryKey(keys[scan]), entryPsl - 1, values[scan]);
      assert keys[..] == Moved(mix, ks, hole);
    }

    /** One slot of a back-shift: either closes the hole or moves the following entry into it. */
    method ShiftInto(hole: nat, scan: nat, ghost m: map<Word, int>, ghost e: nat) returns (done: bool)
      requires Shaped()
      requires ShiftState(mix, keys[..], values[..], m, hole, e) && scan == Next(hole, mask + 1)
      modifies keys, values
      ensures done ==> WellFormed(mix, keys[..]) && Holds(keys[..], values[..], m)
      ensures !done ==> ShiftState(mix, keys[..], values[..], m, scan, e)
      ensures !done ==> Cyclic(Next(scan, mask + 1), e, mask + 1) < Cyclic(scan, e, mask + 1)
    {
      if keys[scan] == 0 {
        CloseHole(hole, m, e);
        return true;
      }
      ShiftTag(mix, keys[..], hole);
      var entryPsl := EntryDistance(scan);
      if entryPsl == 0 {
        CloseHole(hole, m, e);
        return true;
      }
      MoveBack(hole, scan, entryPsl, m, e);
      return false;
    }

    /** Vacates the slot of a key, shifting the entries that follow back by one slot. */
    method BackShift(index: nat, ghost key: Word)
      requires Valid() && At(keys[..], index, key)
      modifies this`used, this`contents, keys, values
      ensures Valid() && contents == old(contents) - {key}
    {
      ghost var e := FindEmpty(keys[..], values[..], contents);
      ShiftBegin(mix, keys[..], values[..], contents, index, key, e);
      contents := contents - {key};
      used := used - 1;
      var hole: nat := index;
      var scan: nat := Advance(hole);
      var done := false;
      while !done
        invariant done ==> WellFormed(mix, keys[..]) && Holds(keys[..], values[..], contents)
        invariant !done ==> ShiftState(mix, keys[..], values[..], contents, hole, e)
        invariant scan <= mask && (!done ==> scan == Next(hole, mask + 1))
        invariant contents == old(contents) - {key} && used == |contents| <= resizeAt
        decreases !done, Cyclic(scan, e, mask + 1)
      {
        done := ShiftInto(hole, scan, contents, e);
        hole := scan;
        scan := Advance(scan);
      }
    }
  }

  /** A table with the smallest power-of-two capacity that is at least `minCapacity` and 16, or
      null when that capacity cannot be allocated or memory is short. */
  method NewIdentityHashTable(mix: Mixer, minCapacity: nat, memory: bool) returns (table: IdentityHashTable?)
    ensures table == null ==> !memory || minCapacity > 0x1000_0000_0000_0000
    ensures table != null ==>
              && fresh(table) && fresh(table.keys) && fresh(table.values)
              && table.Valid() && table.mix == mix && table.contents == map[]
              && (table.mask + 1 == MIN_CAPACITY || table.mask + 1 < 2 * minCapacity)
              && minCapacity <= table.mask + 1
  {
    var capacity: nat := MIN_CAPACITY;
    ghost var bits: nat := 4;
    assert Pow2(4) == 16;
    while capacity < minCapacity
      invariant capacity == Pow2(bits) && 4 <= bits <= 64
      invariant MIN_CAPACITY <= capacity && (capacity == MIN_CAPACITY || capacity < 2 * minCapacity)
      decreases minCapacity - capacity
    {
      if capacity > SIZE_MAX / 2 {
        return null;
      }
      Doubling(bits);
      capacity := capacity * 2;
      bits := bits + 1;
    }
    if capacity > SIZE_MAX / 8 {
      Pow2Values();
      ClassifyCapacity(bits);
      return null;
    }
    if !memory {
      return null;
    }
    table := new IdentityHashTable(mix, capacity);
  }

  lemma {:induction false} Doubling(bits: nat)
    requires Pow2(bits) <= SIZE_MAX / 2
    ensures bits < 64 && Pow2(bits + 1) == 2 * Pow2(bits)
  {
    Pow2Values();
    Pow2Less(bits, 64);
  }

  /** The least capacity refused is 2^61, more than twice 2^60 - 1. */
  lemma {:induction false} ClassifyCapacity(bits: nat)
    requires Pow2(bits) > SIZE_MAX / 8
    ensures Pow2(bits) >= 0x2000_0000_0000_0000
  {
    Pow2Values();
    if bits < 61 {
      Pow2Sum(61 - bits, bits);
      MulMono(Pow2(61 - bits), Pow2(bits));
      Pow2Sum(60 - bits, bits);
      MulMono(Pow2(60 - bits), Pow2(bits));
    }
  }

  /** Re-inserts every entry of the old table, slot by slot, into an empty larger one. */
  method CopyEntries(oldTable: IdentityHashTable, newTable: IdentityHashTable)
    requires oldTable.Valid() && newTable.Valid() && oldTable != newTable
    requires {oldTable.keys as object, oldTable.values} !! {newTable.keys as object, newTable.values}
    requires newTable.contents == map[] && newTable.mask + 1 >= 2 * (oldTable.mask + 1)
    modifies newTable`used, newTable`contents, newTable.keys, newTable.values
    ensures newTable.Valid() && newTable.contents == oldTable.contents
    ensures newTable.used + 1 <= newTable.resizeAt
  {
    ghost var ks, m := oldTable.keys[..], oldTable.contents;
    for i := 0 to oldTable.mask + 1
      invariant newTable.Valid() && Copied(ks, m, newTable.contents, i)
      invariant oldTable.Valid() && oldTable.keys[..] == ks && oldTable.contents == m
    {
      CopyEntry(oldTable, newTable, i);
    }
    CopiedAll(ks, oldTable.values[..], m, newTable.contents);
  }

  /** The pairs of the first n slots have been copied, and nothing else. */
  ghost predicate Copied(keys: seq<Word>, m: map<Word, int>, m': map<Word, int>, n: nat) {
    && n <= |keys| && m'.Keys <= m.Keys
    && (forall key :: key in m' ==> m'[key] == m[key])
    && (forall j :: 0 <= j < n && keys[j] != 0 ==> KeyOf(keys[j]) in m')
  }

  lemma {:induction false} CopiedAll(keys: seq<Word>, values: seq<int>, m: map<Word, int>, m': map<Word, int>)
    requires Holds(keys, values, m) && Copied(keys, m, m', |keys|)
    ensures m' == m
  {
    forall key | key in m
      ensures key in m'
    {
      assert Present(keys, key);
      var j :| 0 <= j < |keys| && At(keys, j, key);
    }
  }

  lemma {:induction false} CopiedMore(keys: seq<Word>, values: seq<int>, m: map<Word, int>, m': map<Word, int>, n: nat)
    requires Holds(keys, values, m) && Copied(keys, m, m', n) && n < |keys|
    ensures |m'| <= |m|
    ensures keys[n] == 0 ==> Copied(keys, m, m', n + 1)
    ensures keys[n] != 0 ==> Copied(keys, m, m'[KeyOf(keys[n]) := values[n]], n + 1)
  {
    SubsetSize(m'.Keys, m.Keys);
    assert PairIn(keys, values, m, n);
  }

  method CopyEntry(oldTable: IdentityHashTable, newTable: IdentityHashTable, i: nat)
    requires oldTable.Valid() && newTable.Valid() && oldTable != newTable
    requires {oldTable.keys as object, oldTable.values} !! {newTable.keys as object, newTable.values}
    requires newTable.mask + 1 >= 2 * (oldTable.mask + 1)
    requires i <= oldTable.mask && Copied(oldTable.keys[..], oldTable.contents, newTable.contents, i)
    modifies newTable`used, newTable`contents, newTable.keys, newTable.values
    ensures newTable.Valid()
    ensures Copied(oldTable.keys[..], oldTable.contents, newTable.contents, i + 1)
  {
    ghost var ks, vs, m := oldTable.keys[..], oldTable.values[..], oldTable.contents;
    CopiedMore(ks, vs, m, newTable.contents, i);
    var entry := oldTable.keys[i];
    if entry != 0 {
      assert TagOk(oldTable.mix, ks, i);
      newTable.InsertKnownRoom(EntryKey(entry), oldTable.values[i]);
      assert oldTable.keys[..] == ks;
    }
  }

  /** The slice of the interpreter state that owns the table. */
  class Interpreter {
    const mix: Mixer
    var identityHashes: IdentityHashTable?

    ghost function Repr(): set<object>
      reads this, identityHashes
    {
      if identityHashes == null then {this}
      else {this, identityHashes, identityHashes.keys, identityHashes.values}
    }

    ghost predicate Valid()
      reads this, identityHashes, Repr()
    {
      identityHashes != null ==> identityHashes.Valid() && identityHashes.mix == mix
    }

    /** The finite map the interpreter's table stands for. */
    ghost function Hashes(): map<Word, int>
      reads this, identityHashes
    {
      if identityHashes == null then map[] else identityHashes.contents
    }

    constructor (mix: Mixer)
      ensures Valid() && Hashes() == map[] && this.mix == mix && Repr() == {this}
    {
      this.mix := mix;
      identityHashes := null;
    }

    /** Replaces the table by one of twice the capacity holding the same pairs; when the allocation
        fails nothing at all has changed. */
    method Grow(memory: bool) returns (ok: bool)
      requires Valid()
      modifies this`identityHashes
      ensures Valid() && Hashes() == old(Hashes())
      ensures !ok ==> identityHashes == old(identityHashes)
      ensures !ok && memory ==> identityHashes != null && identityHashes.mask >= 0x800_0000_0000_0000
      ensures ok ==> identityHashes != null && identityHashes.used + 1 <= identityHashes.resizeAt
      ensures ok ==> fresh(identityHashes) && fresh(identityHashes.keys) && fresh(identityHashes.values)
    {
      var oldTable := identityHashes;
      var newCapacity: nat := if oldTable == null then MIN_CAPACITY else Double(oldTable.mask + 1);
      if oldTable != null && newCapacity <= oldTable.mask + 1 {
        return false;
      }
      var newTable := NewIdentityHashTable(mix, newCapacity, memory);
      if newTable == null {
        return false;
      }
      if oldTable != null {
        CopyEntries(oldTable, newTable);
      }
      identityHashes := newTable;
      ok := true;
    }
  }

  /** Fewer stored pairs than this never meet the capacity limit. */
  const CROWDED: nat := 0x500_0000_0000_0000

  method LookupIdentityHash(interp: Interpreter?, obj: Word) returns (found: bool, value: int)
    requires interp != null ==> interp.Valid()
    requires Aligned(obj)
    ensures found <==> interp != null && obj in interp.Hashes()
    ensures found ==> value == interp.Hashes()[obj]
  {
    value := 0;
    if interp == null || interp.identityHashes == null || interp.identityHashes.used == 0 {
      return false, 0;
    }
    var index;
    found, index := interp.identityHashes.Probe(obj);
    if found {
      value := interp.identityHashes.values[index];
    }
  }

  method SetIdentityHash(interp: Interpreter?, obj: Word, value: int, memory: bool) returns (ok: bool)
    requires interp != null ==> interp.Valid()
    requires Aligned(obj)
    modifies if interp == null then {} else interp.Repr()
    ensures interp == null ==> !ok
    ensures interp != null ==> interp.Valid() && fresh(interp.Repr() - old(interp.Repr()))
    ensures interp != null ==>
              interp.Hashes() == if ok then old(interp.Hashes())[obj := value] else old(interp.Hashes())
    ensures interp != null && memory && |old(interp.Hashes())| < CROWDED ==> ok
  {
    if interp == null {
      return false;
    }
    if interp.identityHashes == null || interp.identityHashes.used + 1 > interp.identityHashes.resizeAt {
      var grown := interp.Grow(memory);
      if !grown {
        return false;
      }
    }
    interp.identityHashes.InsertKnownRoom(obj, value);
    ok := true;
  }

  method DeleteIdentityHash(interp: Interpreter?, obj: Word) returns (deleted: bool)
    requires interp != null ==> interp.Valid()
    requires Aligned(obj)
    modifies if interp == null then {} else interp.Repr()
    ensures deleted <==> interp != null && obj in old(interp.Hashes())
    ensures interp != null ==> interp.Valid() && interp.Repr() == old(interp.Repr())
    ensures interp != null ==> interp.Hashes() == old(interp.Hashes()) - {obj}
  {
    if interp == null || interp.identityHashes == null || interp.identityHashes.used == 0 {
      if interp != null && interp.identityHashes != null {
        assert interp.Hashes() == interp.Hashes() - {obj};
      }
      return false;
    }
    deleted := interp.identityHashes.Delete(obj);
  }

  datatype TableOp = SetOp(key: Word, value: int, memory: bool) | LookupOp(key: Word) | DeleteOp(key: Word)
  datatype TableAnswer = Stored | Refused | Found(value: int) | Missing | Deleted | NothingToDelete

  /** What an answered operation does to the map. */
  ghost function MapStep(op: TableOp, answer: TableAnswer, m: map<Word, int>): map<Word, int> {
    match op
    case SetOp(key, value, _) => if answer == Stored then m[key := value] else m
    case LookupOp(_) => m
    case DeleteOp(key) => m - {key}
  }

  /** The answers a finite map gives; only a Set short of memory or space may be refused. */
  ghost predicate MapAnswers(op: TableOp, answer: TableAnswer, m: map<Word, int>) {
    match op
    case SetOp(_, _, memory) => answer == Stored || (answer == Refused && (!memory || |m| >= CROWDED))
    case LookupOp(key) => answer == if key in m then Found(m[key]) else Missing
    case DeleteOp(key) => answer == if key in m then Deleted else NothingToDelete
  }

  method Perform(interp: Interpreter, op: TableOp) returns (answer: TableAnswer)
    requires interp.Valid() && Aligned(op.key)
    modifies interp.Repr()
    ensures interp.Valid() && fresh(interp.Repr() - old(interp.Repr()))
    ensures MapAnswers(op, answer, old(interp.Hashes()))
    ensures interp.Hashes() == MapStep(op, answer, old(interp.Hashes()))
  {
    match op
    case SetOp(key, value, memory) =>
      var ok := SetIdentityHash(interp, key, value, memory);
      answer := if ok then Stored else Refused;
    case LookupOp(key) =>
      var found, value := LookupIdentityHash(interp, key);
      answer := if found then Found(value) else Missing;
    case DeleteOp(key) =>
      var deleted := DeleteIdentityHash(interp, key);
      answer := if deleted then Deleted else NothingToDelete;
  }

  /** Each answer is the one the finite map reached so far gives. */
  ghost predicate AnsweredAsMap(ops: seq<TableOp>, answers: seq<TableAnswer>, m: map<Word, int>)
    requires |ops| == |answers|
  {
    ops != [] ==>
      && MapAnswers(ops[0], answers[0], m)
      && AnsweredAsMap(ops[1..], answers[1..], MapStep(ops[0], answers[0], m))
  }

  method RunOn(interp: Interpreter, ops: seq<TableOp>) returns (answers: seq<TableAnswer>)
    requires interp.Valid() && forall i :: 0 <= i < |ops| ==> Aligned(ops[i].key)
    modifies interp.Repr()
    ensures |answers| == |ops| && AnsweredAsMap(ops, answers, old(interp.Hashes()))
    decreases |ops|
  {
    if ops == [] {
      return [];
    }
    var first := Perform(interp, ops[0]);
    var rest := RunOn(interp, ops[1..]);
    answers := [first] + rest;
    assert answers[1..] == rest;
  }

  /** Whatever sequence of operations runs on a fresh table, however often it grows, every answer is
      the one a finite map would give. */
  method RunTable(mix: Mixer, ops: seq<TableOp>) returns (answers: seq<TableAnswer>)
    requires forall i :: 0 <= i < |ops| ==> Aligned(ops[i].key)
    ensures |answers| == |ops| && AnsweredAsMap(ops, answers, map[])
  {
    var interp := new Interpreter(mix);
    answers := RunOn(interp, ops);
  }
}
