/** Tagged slots of the identity-hash table (pycore_retrace_identity_hash.h:21-99). */
module TaggedSlot {
  import opened Bits

  const PSL_MASK: Word := 7
  const POINTER_MASK: Word := 0xffff_ffff_ffff_fff8
  const PSL_SATURATED: nat := 7

  /** An object pointer: non-null and 8-aligned, so its three low bits are free for a tag. */
  predicate Aligned(key: nat) {
    key != 0 && key % 8 == 0
  }

  /** The pointer and the tag an entry word packs. */
  ghost function KeyOf(entry: Word): Word {
    entry - entry % 8
  }

  ghost function TagOf(entry: Word): nat {
    entry % 8
  }

  ghost function Saturate(psl: nat): nat {
    if psl > PSL_SATURATED then PSL_SATURATED else psl
  }

  ghost function Packed(key: Word, psl: nat): (entry: Word)
    requires Aligned(key)
    ensures KeyOf(entry) == key && TagOf(entry) == Saturate(psl) && entry != 0
  {
    key + Saturate(psl)
  }

  function EntryKey(entry: Word): (key: Word)
    ensures key == KeyOf(entry)
  {
    AndClearsLowThree(entry);
    BitAnd(entry, POINTER_MASK)
  }

  function EntryPsl(entry: Word): (psl: nat)
    ensures psl == TagOf(entry)
  {
    AndKeepsLowThree(entry);
    BitAnd(entry, PSL_MASK)
  }

  /** Packs a key with its saturated probe length. */
  function Entry(key: Word, psl: nat): (entry: Word)
    requires Aligned(key)
    ensures entry == Packed(key, psl)
  {
    var tag := if psl > PSL_SATURATED then PSL_SATURATED else psl;
    OrTag(key, tag);
    BitOr(key, tag)
  }

  /** Matching compares pointers and ignores the tags. */
  predicate EntryMatches(entry: Word, key: Word)
    requires Aligned(key)
    ensures EntryMatches(entry, key) <==> KeyOf(entry) == key
  {
    XorSmall(entry, key);
    BitXor(entry, key) <= PSL_MASK
  }

  /** The pointer mixer; nothing proved here depends on its values. */
  type Mixer = Word -> Word

  ghost function Home(mix: Mixer, key: Word, cap: nat): (home: nat)
    requires cap > 0
    ensures home < cap
  {
    BitAnd(mix(key), cap - 1)
  }

  /** For a power-of-two capacity the home slot is the mixed key modulo the capacity. */
  lemma {:induction false} HomeIsModulo(mix: Mixer, key: Word, k: nat)
    ensures Home(mix, key, Pow2(k)) == mix(key) % Pow2(k)
  {
    AndLowBits(mix(key), k);
  }

  ghost function Next(i: nat, cap: nat): (r: nat)
    requires i < cap
    ensures r < cap
  {
    if i + 1 == cap then 0 else i + 1
  }

  ghost function Prev(i: nat, cap: nat): (r: nat)
    requires i < cap
    ensures r < cap && Next(r, cap) == i
  {
    if i == 0 then cap - 1 else i - 1
  }

  predicate PowerOfTwoCapacity(mask: nat) {
    exists k: nat | k <= 64 :: mask + 1 == Pow2(k)
  }

  /** `home` slot of a key. */
  function Index(mix: Mixer, key: Word, mask: Word): (home: nat)
    ensures home == Home(mix, key, mask + 1)
  {
    BitAnd(mix(key), mask)
  }

  /** Number of steps from slot `from` to slot `to`, going up and wrapping at the capacity. */
  ghost function Cyclic(from: nat, to: nat, cap: nat): (d: nat)
    requires from < cap && to < cap
    ensures d < cap
  {
    if to >= from then to - from else to - from + cap
  }

  function ExactPsl(mix: Mixer, key: Word, index: nat, mask: Word): (psl: nat)
    requires PowerOfTwoCapacity(mask) && index <= mask
    ensures psl == Cyclic(Home(mix, key, mask + 1), index, mask + 1)
  {
    var k: nat :| k <= 64 && mask + 1 == Pow2(k);
    var home := Index(mix, key, mask);
    MaskedDifference(index, home, k);
    BitAnd(Sub64(index, home), mask)
  }

  function NextIndex(index: nat, mask: Word): (next: nat)
    requires PowerOfTwoCapacity(mask) && index <= mask
    ensures next == Next(index, mask + 1)
  {
    var k: nat :| k <= 64 && mask + 1 == Pow2(k);
    AndLowBits(index + 1, k);
    DivModUnique(index + 1, mask + 1, if index == mask then 1 else 0, if index == mask then 0 else index + 1);
    BitAnd(index + 1, mask)
  }
}

/** The Robin Hood order and what one probe, displacement or back-shift step does to it. */
module RobinHood {
  import opened Bits
  import opened Sets
  import opened TaggedSlot

  /** Exact probe distance of the entry in slot i. */
  ghost function Dist(mix: Mixer, keys: seq<Word>, i: nat): (d: nat)
    requires i < |keys|
    ensures d < |keys|
  {
    Cyclic(Home(mix, KeyOf(keys[i]), |keys|), i, |keys|)
  }

  ghost predicate At(keys: seq<Word>, i: nat, key: Word) {
    i < |keys| && keys[i] != 0 && KeyOf(keys[i]) == key
  }

  /** An occupied slot holds an aligned key tagged with its saturated exact distance. */
  ghost predicate TagOk(mix: Mixer, keys: seq<Word>, i: nat)
    requires i < |keys|
  {
    keys[i] != 0 ==>
      Aligned(KeyOf(keys[i])) && TagOf(keys[i]) == Saturate(Dist(mix, keys, i))
  }

  /** An entry d > 0 steps from home follows an entry at least d - 1 steps from its own home. */
  ghost predicate OrderOk(mix: Mixer, keys: seq<Word>, i: nat)
    requires i < |keys|
  {
    keys[i] != 0 && Dist(mix, keys, i) > 0 ==>
      var p := Prev(i, |keys|);
      keys[p] != 0 && Dist(mix, keys, p) >= Dist(mix, keys, i) - 1
  }

  ghost predicate Apart(keys: seq<Word>, i: nat, j: nat)
    requires i < |keys| && j < |keys|
  {
    keys[i] != 0 && keys[j] != 0 && i != j ==> KeyOf(keys[i]) != KeyOf(keys[j])
  }

  ghost predicate KeysDistinct(keys: seq<Word>) {
    forall i, j :: 0 <= i < |keys| && 0 <= j < |keys| ==> Apart(keys, i, j)
  }

  ghost predicate WellFormed(mix: Mixer, keys: seq<Word>) {
    && (forall i :: 0 <= i < |keys| ==> TagOk(mix, keys, i))
    && (forall i :: 0 <= i < |keys| ==> OrderOk(mix, keys, i))
    && KeysDistinct(keys)
  }

  ghost predicate PairIn(keys: seq<Word>, values: seq<int>, m: map<Word, int>, i: nat)
    requires i < |keys| == |values|
  {
    keys[i] != 0 ==> KeyOf(keys[i]) in m && m[KeyOf(keys[i])] == values[i]
  }

  ghost predicate Present(keys: seq<Word>, key: Word) {
    exists i :: At(keys, i, key)
  }

  /** The finite map a table stands for. */
  ghost predicate Holds(keys: seq<Word>, values: seq<int>, m: map<Word, int>) {
    && |values| == |keys|
    && (forall i :: 0 <= i < |keys| ==> PairIn(keys, values, m, i))
    && (forall key :: key in m ==> Present(keys, key))
  }

  /** Every slot from a stored key's home up to the key holds an entry at least as far from its own
      home: no probe for that key may stop early. */
  lemma {:induction false} ProbeChain(mix: Mixer, keys: seq<Word>, key: Word, j: nat, q: nat, i: nat)
    requires WellFormed(mix, keys) && At(keys, j, key) && i < |keys|
    requires q == Cyclic(Home(mix, key, |keys|), i, |keys|) <= Dist(mix, keys, j)
    ensures keys[i] != 0 && Dist(mix, keys, i) >= q
    decreases Dist(mix, keys, j) - q
  {
    if i != j {
      var next := Next(i, |keys|);
      ProbeChain(mix, keys, key, j, q + 1, next);
      assert OrderOk(mix, keys, next);
      assert Prev(next, |keys|) == i;
    }
  }

  /** What is known of a key that has been carried `psl` steps from home to slot i: every place it
      could occupy lies ahead, and the slot behind it is rich enough to precede it. */
  ghost predicate Carried(mix: Mixer, keys: seq<Word>, key: Word, psl: nat, i: nat) {
    && Aligned(key) && i < |keys|
    && psl == Cyclic(Home(mix, key, |keys|), i, |keys|)
    && (forall j :: 0 <= j < |keys| && At(keys, j, key) ==> Dist(mix, keys, j) >= psl)
    && (psl > 0 ==> var p := Prev(i, |keys|); keys[p] != 0 && Dist(mix, keys, p) >= psl - 1)
  }

  /** A probe for a key may stop at an empty slot or at an entry nearer to its home. */
  lemma {:induction false} AbsentWhenRicher(mix: Mixer, keys: seq<Word>, key: Word, psl: nat, i: nat)
    requires WellFormed(mix, keys) && Carried(mix, keys, key, psl, i)
    requires keys[i] == 0 || Dist(mix, keys, i) < psl
    ensures forall j :: 0 <= j < |keys| ==> !At(keys, j, key)
  {
    forall j | 0 <= j < |keys| && At(keys, j, key)
      ensures false
    {
      ProbeChain(mix, keys, key, j, psl, i);
    }
  }

  /** Passing an entry that is neither the key nor nearer to its home. */
  lemma {:induction false} PassStep(mix: Mixer, keys: seq<Word>, key: Word, psl: nat, i: nat)
    requires WellFormed(mix, keys) && Carried(mix, keys, key, psl, i)
    requires keys[i] != 0 && !At(keys, i, key) && Dist(mix, keys, i) >= psl
    requires psl + 1 < |keys|
    ensures Carried(mix, keys, key, psl + 1, Next(i, |keys|))
  {
    assert Prev(Next(i, |keys|), |keys|) == i;
    forall j | 0 <= j < |keys| && At(keys, j, key)
      ensures Dist(mix, keys, j) >= psl + 1
    {
      assert j != i;
    }
  }

  /** Writing the carried key over an empty or nearer slot keeps the table well formed. */
  lemma {:induction false} WriteStep(mix: Mixer, keys: seq<Word>, key: Word, psl: nat, i: nat)
    requires WellFormed(mix, keys) && Carried(mix, keys, key, psl, i)
    requires keys[i] == 0 || Dist(mix, keys, i) < psl
    ensures WellFormed(mix, keys[i := Packed(key, psl)])
    ensures forall j :: 0 <= j < |keys| ==> !At(keys, j, key)
  {
    AbsentWhenRicher(mix, keys, key, psl, i);
    var after := keys[i := Packed(key, psl)];
    assert Dist(mix, after, i) == psl;
    forall j | 0 <= j < |after| && j != i
      ensures Dist(mix, after, j) == Dist(mix, keys, j)
    {
    }
    forall j | 0 <= j < |after|
      ensures TagOk(mix, after, j)
    {
      assert TagOk(mix, keys, j);
    }
    forall j | 0 <= j < |after|
      ensures OrderOk(mix, after, j)
    {
      assert OrderOk(mix, keys, j);
    }
    forall a, b | 0 <= a < |after| && 0 <= b < |after|
      ensures Apart(after, a, b)
    {
      assert Apart(keys, a, b);
      assert a != i ==> !At(keys, a, key);
      assert b != i ==> !At(keys, b, key);
    }
  }

  /** After a displacement the old entry is carried on from the next slot. */
  lemma {:induction false} DisplaceStep(mix: Mixer, keys: seq<Word>, key: Word, psl: nat, i: nat)
    requires WellFormed(mix, keys) && Carried(mix, keys, key, psl, i)
    requires keys[i] != 0 && Dist(mix, keys, i) < psl
    requires Dist(mix, keys, i) + 1 < |keys|
    ensures Carried(mix, keys[i := Packed(key, psl)], KeyOf(keys[i]), Dist(mix, keys, i) + 1, Next(i, |keys|))
  {
    WriteStep(mix, keys, key, psl, i);
    var after := keys[i := Packed(key, psl)];
    assert TagOk(mix, keys, i);
    assert Prev(Next(i, |keys|), |keys|) == i;
    assert Dist(mix, after, i) == psl;
    assert !At(keys, i, key);
    forall j | 0 <= j < |after|
      ensures !At(after, j, KeyOf(keys[i]))
    {
      assert Apart(keys, i, j);
    }
  }

  /** The pairs of the table and the carried pair together are unchanged by a write. */
  lemma {:induction false} WriteHolds(keys: seq<Word>, values: seq<int>, m: map<Word, int>, i: nat, key: Word, psl: nat, value: int)
    requires Holds(keys, values, m) && KeysDistinct(keys) && i < |keys| && Aligned(key)
    requires forall j :: 0 <= j < |keys| ==> !At(keys, j, key)
    ensures key !in m
    ensures var rest := if keys[i] == 0 then m else m - {KeyOf(keys[i])};
            Holds(keys[i := Packed(key, psl)], values[i := value], rest[key := value])
  {
    var keys', values' := keys[i := Packed(key, psl)], values[i := value];
    var m' := (if keys[i] == 0 then m else m - {KeyOf(keys[i])})[key := value];
    assert key !in m by {
      assert Present(keys, key) ==> exists j :: At(keys, j, key);
    }
    forall k | k in m'
      ensures Present(keys', k)
    {
      if k == key {
        assert At(keys', i, key);
      } else {
        assert Present(keys, k);
        var j :| At(keys, j, k);
        assert At(keys', j, k);
      }
    }
    forall j | 0 <= j < |keys'|
      ensures PairIn(keys', values', m', j)
    {
      assert PairIn(keys, values, m, j) && Apart(keys, i, j) && !At(keys, j, key);
    }
  }

  /** Overwriting the value of a stored key. */
  lemma {:induction false} UpdateHolds(keys: seq<Word>, values: seq<int>, m: map<Word, int>, i: nat, key: Word, value: int)
    requires Holds(keys, values, m) && KeysDistinct(keys) && At(keys, i, key)
    ensures key in m && Holds(keys, values[i := value], m[key := value])
  {
    assert PairIn(keys, values, m, i);
    var values', m' := values[i := value], m[key := value];
    forall j | 0 <= j < |keys|
      ensures PairIn(keys, values', m', j)
    {
      assert PairIn(keys, values, m, j) && Apart(keys, i, j);
    }
  }

  /** A table with fewer stored keys than slots has an empty slot. */
  lemma {:induction false} FindEmpty(keys: seq<Word>, values: seq<int>, m: map<Word, int>) returns (e: nat)
    requires Holds(keys, values, m) && KeysDistinct(keys) && |m| < |keys|
    ensures e < |keys| && keys[e] == 0
  {
    if forall i :: 0 <= i < |keys| ==> keys[i] != 0 {
      var stored := StoredKeys(keys, |keys|);
      forall key | key in stored
        ensures key in m
      {
        var i :| 0 <= i < |keys| && At(keys, i, key);
        assert PairIn(keys, values, m, i);
      }
      SubsetSize(stored, m.Keys);
      assert false;
    }
    e :| 0 <= e < |keys| && keys[e] == 0;
  }

  lemma {:induction false} StoredKeys(keys: seq<Word>, n: nat) returns (stored: set<Word>)
    requires n <= |keys| && KeysDistinct(keys) && forall i :: 0 <= i < n ==> keys[i] != 0
    ensures |stored| == n
    ensures forall key :: key in stored ==> exists i :: 0 <= i < n && At(keys, i, key)
  {
    stored := {};
    if n > 0 {
      var rest := StoredKeys(keys, n - 1);
      var last := KeyOf(keys[n - 1]);
      assert At(keys, n - 1, last);
      assert last !in rest by {
        forall i | 0 <= i < n - 1
          ensures !At(keys, i, last)
        {
          assert Apart(keys, i, n - 1);
        }
      }
      stored := rest + {KeyOf(keys[n - 1])};
    }
  }

  /** Mid-deletion: slot `hole` is about to be vacated; emptying it leaves every slot but the one
      after it in order, and that one could move into the hole. */
  ghost predicate Shifting(mix: Mixer, keys: seq<Word>, hole: nat) {
    && 3 <= |keys| && hole < |keys|
    && var rest := keys[hole := 0];
    && var scan := Next(hole, |keys|);
    && (forall i :: 0 <= i < |keys| ==> TagOk(mix, rest, i))
    && (forall i :: 0 <= i < |keys| && i != scan ==> OrderOk(mix, rest, i))
    && KeysDistinct(rest)
    && (rest[scan] != 0 && Dist(mix, rest, scan) >= 2 ==>
          var p := Prev(hole, |keys|);
          rest[p] != 0 && Dist(mix, rest, p) >= Dist(mix, rest, scan) - 2)
  }

  lemma {:induction false} ShiftStart(mix: Mixer, keys: seq<Word>, j: nat)
    requires WellFormed(mix, keys) && j < |keys| && keys[j] != 0 && 3 <= |keys|
    ensures Shifting(mix, keys, j)
  {
    var rest, scan := keys[j := 0], Next(j, |keys|);
    assert Prev(scan, |keys|) == j;
    assert OrderOk(mix, keys, scan) && OrderOk(mix, keys, j);
    forall i | 0 <= i < |keys|
      ensures TagOk(mix, rest, i)
      ensures i != scan ==> OrderOk(mix, rest, i)
    {
      assert TagOk(mix, keys, i) && OrderOk(mix, keys, i);
      assert i != j ==> Dist(mix, rest, i) == Dist(mix, keys, i);
      assert i != scan ==> Prev(i, |keys|) != j;
    }
    forall a, b | 0 <= a < |keys| && 0 <= b < |keys|
      ensures Apart(rest, a, b)
    {
      assert Apart(keys, a, b);
    }
  }

  /** Emptying the slot of a key removes exactly that key's pair. */
  lemma {:induction false} VacateHolds(keys: seq<Word>, values: seq<int>, m: map<Word, int>, j: nat, key: Word)
    requires KeysDistinct(keys) && Holds(keys, values, m) && At(keys, j, key)
    ensures key in m && |m - {key}| == |m| - 1 && Holds(keys[j := 0], values, m - {key})
  {
    var rest := keys[j := 0];
    assert PairIn(keys, values, m, j);
    assert (m - {key}).Keys == m.Keys - {key};
    forall k | k in m - {key}
      ensures Present(rest, k)
    {
      assert Present(keys, k);
      var i :| At(keys, i, k);
      assert At(rest, i, k);
    }
    forall i | 0 <= i < |keys|
      ensures PairIn(rest, values, m - {key}, i)
    {
      assert PairIn(keys, values, m, i) && Apart(keys, i, j);
    }
  }

  /** The shift ends at an empty slot or an entry that is already home. */
  lemma {:induction false} ShiftDone(mix: Mixer, keys: seq<Word>, hole: nat)
    requires Shifting(mix, keys, hole)
    requires var scan := Next(hole, |keys|); keys[scan] == 0 || Dist(mix, keys, scan) == 0
    ensures WellFormed(mix, keys[hole := 0])
  {
    var rest, scan := keys[hole := 0], Next(hole, |keys|);
    assert rest[scan] != 0 ==> Dist(mix, rest, scan) == Dist(mix, keys, scan);
    assert OrderOk(mix, rest, scan);
  }

  /** The table after the entry following the hole has moved into it, one step nearer to home. */
  ghost function Moved(mix: Mixer, keys: seq<Word>, hole: nat): (after: seq<Word>)
    requires hole < |keys| && Aligned(KeyOf(keys[Next(hole, |keys|)]))
    requires Dist(mix, keys, Next(hole, |keys|)) > 0
    ensures |after| == |keys|
  {
    var scan := Next(hole, |keys|);
    keys[hole := Packed(KeyOf(keys[scan]), Dist(mix, keys, scan) - 1)]
  }

  lemma {:induction false} MovedSlots(mix: Mixer, keys: seq<Word>, hole: nat)
    requires 3 <= |keys| && hole < |keys| && Aligned(KeyOf(keys[Next(hole, |keys|)]))
    requires Dist(mix, keys, Next(hole, |keys|)) > 0
    ensures var cap, scan := |keys|, Next(hole, |keys|);
            var rest, rest' := keys[hole := 0], Moved(mix, keys, hole)[scan := 0];
            && scan != hole
            && rest'[hole] != 0 && KeyOf(rest'[hole]) == KeyOf(rest[scan])
            && TagOf(rest'[hole]) == Saturate(Dist(mix, rest, scan) - 1)
            && Dist(mix, rest', hole) == Dist(mix, rest, scan) - 1
            && (forall i :: 0 <= i < cap && i != hole && i != scan ==> rest'[i] == rest[i])
            && (forall i :: 0 <= i < cap && i != hole && i != scan ==> Dist(mix, rest', i) == Dist(mix, rest, i))
  {
  }

  /** Moving the next entry into the hole moves the hole one slot on. */
  lemma {:induction false} ShiftStep(mix: Mixer, keys: seq<Word>, hole: nat)
    requires Shifting(mix, keys, hole)
    requires keys[Next(hole, |keys|)] != 0 && Dist(mix, keys, Next(hole, |keys|)) > 0
    ensures Aligned(KeyOf(keys[Next(hole, |keys|)]))
    ensures Shifting(mix, Moved(mix, keys, hole), Next(hole, |keys|))
  {
    var cap, scan := |keys|, Next(hole, |keys|);
    var rest := keys[hole := 0];
    assert TagOk(mix, rest, scan);
    var rest', scan' := Moved(mix, keys, hole)[scan := 0], Next(scan, cap);
    MovedSlots(mix, keys, hole);
    assert Prev(scan', cap) == scan && Prev(scan, cap) == hole && scan' != hole;
    assert OrderOk(mix, rest, scan');
    forall i | 0 <= i < cap
      ensures TagOk(mix, rest', i)
      ensures i != scan' ==> OrderOk(mix, rest', i)
    {
      ShiftedSlot(mix, keys, hole, i);
    }
    MovedDistinct(mix, keys, hole);
  }

  lemma {:induction false} ShiftedSlot(mix: Mixer, keys: seq<Word>, hole: nat, i: nat)
    requires Shifting(mix, keys, hole) && i < |keys|
    requires keys[Next(hole, |keys|)] != 0 && Dist(mix, keys, Next(hole, |keys|)) > 0
    requires Aligned(KeyOf(keys[Next(hole, |keys|)]))
    ensures var scan := Next(hole, |keys|);
            var rest' := Moved(mix, keys, hole)[scan := 0];
            TagOk(mix, rest', i) && (i != Next(scan, |keys|) ==> OrderOk(mix, rest', i))
  {
    var cap, scan, rest := |keys|, Next(hole, |keys|), keys[hole := 0];
    MovedSlots(mix, keys, hole);
    assert TagOk(mix, rest, i) && TagOk(mix, rest, scan);
    if i != scan && i != Next(scan, cap) {
      assert OrderOk(mix, rest, i);
      assert Prev(i, cap) != scan;
    }
  }

  lemma {:induction false} MovedDistinct(mix: Mixer, keys: seq<Word>, hole: nat)
    requires 3 <= |keys| && hole < |keys| && Aligned(KeyOf(keys[Next(hole, |keys|)]))
    requires Dist(mix, keys, Next(hole, |keys|)) > 0
    requires KeysDistinct(keys[hole := 0])
    ensures KeysDistinct(Moved(mix, keys, hole)[Next(hole, |keys|) := 0])
  {
    MovedSlots(mix, keys, hole);
    var cap, scan := |keys|, Next(hole, |keys|);
    var rest, rest' := keys[hole := 0], Moved(mix, keys, hole)[scan := 0];
    forall a, b | 0 <= a < cap && 0 <= b < cap
      ensures Apart(rest', a, b)
    {
      var a' := if a == hole then scan else a;
      var b' := if b == hole then scan else b;
      assert Apart(rest, a', b');
    }
  }

  /** A move keeps every pair of the table. */
  lemma {:induction false} ShiftHolds(mix: Mixer, keys: seq<Word>, values: seq<int>, m: map<Word, int>, hole: nat)
    requires 3 <= |keys| && hole < |keys| && Aligned(KeyOf(keys[Next(hole, |keys|)]))
    requires Dist(mix, keys, Next(hole, |keys|)) > 0
    requires Holds(keys[hole := 0], values, m)
    ensures var scan := Next(hole, |keys|);
            Holds(Moved(mix, keys, hole)[scan := 0], values[hole := values[scan]], m)
  {
    MovedSlots(mix, keys, hole);
    var scan := Next(hole, |keys|);
    var rest, rest' := keys[hole := 0], Moved(mix, keys, hole)[scan := 0];
    forall k | k in m
      ensures Present(rest', k)
    {
      assert Present(rest, k);
      var i :| At(rest, i, k);
      assert At(rest', if i == scan then hole else i, k);
    }
    var values' := values[hole := values[scan]];
    forall i | 0 <= i < |keys|
      ensures PairIn(rest', values', m, i)
    {
      assert PairIn(rest, values, m, if i == hole then scan else i);
    }
  }

  /** Loop state of an insertion: the table together with the carried pair stands for `target`, and
      the empty slot e lies within reach. */
  ghost predicate Inserting(mix: Mixer, keys: seq<Word>, values: seq<int>, m: map<Word, int>,
                            key: Word, value: int, psl: nat, i: nat, e: nat, target: map<Word, int>) {
    && WellFormed(mix, keys) && Holds(keys, values, m) && Carried(mix, keys, key, psl, i)
    && e < |keys| && keys[e] == 0 && psl + Cyclic(i, e, |keys|) < |keys|
    && m[key := value] == target
  }

  lemma {:induction false} InsertAtEmpty(mix: Mixer, keys: seq<Word>, values: seq<int>, m: map<Word, int>,
                      key: Word, value: int, psl: nat, i: nat, e: nat, target: map<Word, int>)
    requires Inserting(mix, keys, values, m, key, value, psl, i, e, target) && keys[i] == 0
    ensures key !in m && |target| == |m| + 1
    ensures WellFormed(mix, keys[i := Packed(key, psl)])
    ensures Holds(keys[i := Packed(key, psl)], values[i := value], target)
  {
    WriteStep(mix, keys, key, psl, i);
    WriteHolds(keys, values, m, i, key, psl, value);
    assert target.Keys == m.Keys + {key};
  }

  lemma {:induction false} InsertDisplace(mix: Mixer, keys: seq<Word>, values: seq<int>, m: map<Word, int>,
                       key: Word, value: int, psl: nat, i: nat, e: nat, target: map<Word, int>)
    requires Inserting(mix, keys, values, m, key, value, psl, i, e, target)
    requires keys[i] != 0 && Dist(mix, keys, i) < psl
    ensures var m' := (m - {KeyOf(keys[i])})[key := value];
            && |m'| == |m|
            && Inserting(mix, keys[i := Packed(key, psl)], values[i := value], m',
                         KeyOf(keys[i]), values[i], Dist(mix, keys, i) + 1, Next(i, |keys|), e, target)
  {
    WriteStep(mix, keys, key, psl, i);
    WriteHolds(keys, values, m, i, key, psl, value);
    DisplaceStep(mix, keys, key, psl, i);
    assert PairIn(keys, values, m, i);
    SwapPairs(m, KeyOf(keys[i]), values[i], key, value);
  }

  /** Exchanging the carried pair with a stored one conserves the pairs of table and carrier. */
  lemma {:induction false} SwapPairs(m: map<Word, int>, stored: Word, storedValue: int, key: Word, value: int)
    requires key !in m && stored in m && m[stored] == storedValue
    ensures var m' := (m - {stored})[key := value];
            |m'| == |m| && m'[stored := storedValue] == m[key := value]
  {
    assert (m - {stored}).Keys == m.Keys - {stored};
    assert (m - {stored})[key := value].Keys == m.Keys - {stored} + {key};
  }

  lemma {:induction false} InsertPass(mix: Mixer, keys: seq<Word>, values: seq<int>, m: map<Word, int>,
                   key: Word, value: int, psl: nat, i: nat, e: nat, target: map<Word, int>)
    requires Inserting(mix, keys, values, m, key, value, psl, i, e, target)
    requires keys[i] != 0 && KeyOf(keys[i]) != key && Dist(mix, keys, i) >= psl
    ensures Inserting(mix, keys, values, m, key, value, psl + 1, Next(i, |keys|), e, target)
  {
    PassStep(mix, keys, key, psl, i);
  }

  /** A probe that stops short proves the key absent from the map. */
  lemma {:induction false} ProbeMiss(mix: Mixer, keys: seq<Word>, values: seq<int>, m: map<Word, int>, key: Word, psl: nat, i: nat)
    requires WellFormed(mix, keys) && Holds(keys, values, m) && Carried(mix, keys, key, psl, i)
    requires keys[i] == 0 || Dist(mix, keys, i) < psl
    ensures key !in m
  {
    AbsentWhenRicher(mix, keys, key, psl, i);
    assert key in m ==> Present(keys, key);
  }

  /** A slot with the key holds its value. */
  lemma {:induction false} ProbeHit(keys: seq<Word>, values: seq<int>, m: map<Word, int>, key: Word, i: nat)
    requires Holds(keys, values, m) && At(keys, i, key)
    ensures key in m && m[key] == values[i]
  {
    assert PairIn(keys, values, m, i);
  }

  /** A probe that goes on comes one slot nearer to the empty slot. */
  lemma {:induction false} ProbePass(mix: Mixer, keys: seq<Word>, key: Word, psl: nat, i: nat, e: nat)
    requires WellFormed(mix, keys) && Carried(mix, keys, key, psl, i) && e < |keys| && keys[e] == 0
    requires keys[i] != 0 && KeyOf(keys[i]) != key && Dist(mix, keys, i) >= psl && psl + Cyclic(i, e, |keys|) < |keys|
    ensures Carried(mix, keys, key, psl + 1, Next(i, |keys|))
    ensures Cyclic(Next(i, |keys|), e, |keys|) == Cyclic(i, e, |keys|) - 1
  {
    PassStep(mix, keys, key, psl, i);
  }

  /** Loop state of a deletion: emptying the hole leaves exactly the map m. */
  ghost predicate ShiftState(mix: Mixer, keys: seq<Word>, values: seq<int>, m: map<Word, int>, hole: nat, e: nat) {
    && Shifting(mix, keys, hole) && Holds(keys[hole := 0], values, m)
    && e < |keys| && keys[e] == 0 && e != hole
  }

  lemma {:induction false} ShiftTag(mix: Mixer, keys: seq<Word>, hole: nat)
    requires Shifting(mix, keys, hole)
    ensures TagOk(mix, keys, Next(hole, |keys|))
  {
    assert TagOk(mix, keys[hole := 0], Next(hole, |keys|));
  }

  lemma {:induction false} ShiftAdvance(mix: Mixer, keys: seq<Word>, values: seq<int>, m: map<Word, int>, hole: nat, e: nat)
    requires ShiftState(mix, keys, values, m, hole, e)
    requires keys[Next(hole, |keys|)] != 0 && Dist(mix, keys, Next(hole, |keys|)) > 0
    ensures var scan := Next(hole, |keys|);
            && Aligned(KeyOf(keys[scan]))
            && Cyclic(Next(scan, |keys|), e, |keys|) < Cyclic(scan, e, |keys|)
            && ShiftState(mix, Moved(mix, keys, hole), values[hole := values[scan]], m, scan, e)
  {
    ShiftStep(mix, keys, hole);
    ShiftHolds(mix, keys, values, m, hole);
  }

  lemma {:induction false} ShiftBegin(mix: Mixer, keys: seq<Word>, values: seq<int>, m: map<Word, int>, j: nat, key: Word, e: nat)
    requires WellFormed(mix, keys) && Holds(keys, values, m) && At(keys, j, key) && 3 <= |keys|
    requires e < |keys| && keys[e] == 0
    ensures key in m && |m - {key}| == |m| - 1
    ensures ShiftState(mix, keys, values, m - {key}, j, e)
  {
    ShiftStart(mix, keys, j);
    VacateHolds(keys, values, m, j, key);
  }
}
