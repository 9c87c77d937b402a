/** Deterministic pointer hashes (pycore_retrace.h:769-845): the first hash given to an object is
    cached in the identity-hash table and returned until the object's entry is deleted. */
module PointerHash {
  import opened Bits
  import opened TaggedSlot
  import opened IdentityHash
  import Sets

  /** A Python hash is never -1. */
  function NormalizePyHash(hash: int): (r: int)
    ensures r != -1 && (hash != -1 ==> r == hash)
  {
    if hash == -1 then -2 else hash
  }

  /** Null and unaligned pointers are hashed but never cached. */
  predicate CanCache(ptr: Word)
    ensures CanCache(ptr) <==> Aligned(ptr)
  {
    AndKeepsLowThree(ptr);
    ptr != 0 && BitAnd(ptr, PSL_MASK) == 0
  }

  ghost predicate CacheOk(cache: map<Word, int>) {
    forall ptr :: ptr in cache ==> cache[ptr] != -1
  }

  datatype Coordinate = NoFrame | Visible(hash: int)

  /** The events of one interpreter that touch the cache: hashing a pointer, and the death of an
      object. `coordinate` is the current coordinate hash when a visible frame runs, `raw` the
      address hash used otherwise, `memory` whether an allocation would succeed. */
  datatype HashOp =
    | Hash(ptr: Word, coordinate: Coordinate, raw: int, memory: bool)
    | Forget(ptr: Word)

  /** One event: the hash it answers (0 for a death) and the cache it leaves. */
  ghost predicate CacheStep(op: HashOp, hash: int, before: map<Word, int>, after: map<Word, int>) {
    match op
    case Forget(ptr) => after == before - {ptr} || (!Aligned(ptr) && after == before)
    case Hash(ptr, coordinate, raw, memory) =>
      && hash != -1
      && if !Aligned(ptr) then hash == NormalizePyHash(raw) && after == before
         else if ptr in before then hash == before[ptr] && after == before
         else
           && hash == NormalizePyHash(if coordinate.Visible? then coordinate.hash else raw)
           && (after == before || after == before[ptr := hash])
           && (memory && |before| < CROWDED ==> ptr in after)
  }

  method HashPointer(interp: Interpreter?, ptr: Word, coordinate: Coordinate, raw: int, memory: bool)
    returns (hash: int)
    requires interp != null ==> interp.Valid() && CacheOk(interp.Hashes())
    modifies if interp == null then {} else interp.Repr()
    ensures hash != -1
    ensures interp == null || !Aligned(ptr) ==>
              hash == NormalizePyHash(if Aligned(ptr) && coordinate.Visible? then coordinate.hash else raw)
    ensures interp != null ==>
              interp.Valid() && fresh(interp.Repr() - old(interp.Repr())) && CacheOk(interp.Hashes())
    ensures interp != null ==>
              CacheStep(Hash(ptr, coordinate, raw, memory), hash, old(interp.Hashes()), interp.Hashes())
  {
    if !CanCache(ptr) {
      hash := NormalizePyHash(raw);
      return;
    }
    if interp == null {
      hash := NormalizePyHash(if coordinate.Visible? then coordinate.hash else raw);
      return;
    }
    hash := HashCached(interp, ptr, coordinate, raw, memory);
  }

  /** Looks the pointer up, and on a miss computes its hash and caches it. */
  method HashCached(interp: Interpreter, ptr: Word, coordinate: Coordinate, raw: int, memory: bool)
    returns (hash: int)
    requires interp.Valid() && CacheOk(interp.Hashes()) && Aligned(ptr)
    modifies interp.Repr()
    ensures interp.Valid() && fresh(interp.Repr() - old(interp.Repr())) && CacheOk(interp.Hashes())
    ensures CacheStep(Hash(ptr, coordinate, raw, memory), hash, old(interp.Hashes()), interp.Hashes())
  {
    var found, cached := LookupIdentityHash(interp, ptr);
    if found {
      return cached;
    }
    hash := NormalizePyHash(if coordinate.Visible? then coordinate.hash else raw);
    Remember(interp, ptr, hash, memory);
  }

  /** Caches a fresh hash if an allocation it may need succeeds. */
  method Remember(interp: Interpreter, ptr: Word, hash: int, memory: bool)
    requires interp.Valid() && CacheOk(interp.Hashes()) && Aligned(ptr) && hash != -1
    modifies interp.Repr()
    ensures interp.Valid() && fresh(interp.Repr() - old(interp.Repr())) && CacheOk(interp.Hashes())
    ensures interp.Hashes() == old(interp.Hashes()) || interp.Hashes() == old(interp.Hashes())[ptr := hash]
    ensures memory && |old(interp.Hashes())| < CROWDED ==> ptr in interp.Hashes()
  {
    var _ := SetIdentityHash(interp, ptr, hash, memory);
  }

  method DeleteObjectIdentityHash(interp: Interpreter?, ptr: Word)
    requires interp != null ==> interp.Valid() && CacheOk(interp.Hashes())
    modifies if interp == null then {} else interp.Repr()
    ensures interp != null ==>
              && interp.Valid() && interp.Repr() == old(interp.Repr()) && CacheOk(interp.Hashes())
              && CacheStep(Forget(ptr), 0, old(interp.Hashes()), interp.Hashes())
  {
    if interp == null || !CanCache(ptr) {
      return;
    }
    var _ := DeleteIdentityHash(interp, ptr);
  }

  method HashEvent(interp: Interpreter, op: HashOp) returns (hash: int)
    requires interp.Valid() && CacheOk(interp.Hashes())
    modifies interp.Repr()
    ensures interp.Valid() && fresh(interp.Repr() - old(interp.Repr())) && CacheOk(interp.Hashes())
    ensures CacheStep(op, hash, old(interp.Hashes()), interp.Hashes())
  {
    match op
    case Hash(ptr, coordinate, raw, memory) =>
      hash := HashPointer(interp, ptr, coordinate, raw, memory);
    case Forget(ptr) =>
      DeleteObjectIdentityHash(interp, ptr);
      hash := 0;
  }

  /** The caches a run passes through. */
  ghost predicate CacheRun(ops: seq<HashOp>, hashes: seq<int>, caches: seq<map<Word, int>>) {
    && |hashes| == |ops| && |caches| == |ops| + 1
    && forall i :: 0 <= i < |ops| ==> CacheStep(ops[i], hashes[i], caches[i], caches[i + 1])
  }

  /** Once cached, a pointer keeps its hash until its object dies. */
  lemma {:induction false} CachedHashStays(ops: seq<HashOp>, hashes: seq<int>, caches: seq<map<Word, int>>, i: nat, j: nat, ptr: Word)
    requires CacheRun(ops, hashes, caches) && i <= j <= |ops|
    requires ptr in caches[i] && Aligned(ptr)
    requires forall k :: i <= k < j ==> ops[k] != Forget(ptr)
    ensures ptr in caches[j] && caches[j][ptr] == caches[i][ptr]
    decreases j - i
  {
    if i < j {
      assert CacheStep(ops[i], hashes[i], caches[i], caches[i + 1]);
      CachedHashStays(ops, hashes, caches, i + 1, j, ptr);
    }
  }

  lemma {:induction false} CacheGrowsSlowly(ops: seq<HashOp>, hashes: seq<int>, caches: seq<map<Word, int>>, i: nat)
    requires CacheRun(ops, hashes, caches) && i <= |ops|
    requires caches[0] == map[]
    ensures |caches[i]| <= i
  {
    if i > 0 {
      CacheGrowsSlowly(ops, hashes, caches, i - 1);
      var before, after := caches[i - 1], caches[i];
      var op := ops[i - 1];
      assert CacheStep(op, hashes[i - 1], before, after);
      assert after.Keys <= before.Keys + {op.ptr};
      Sets.SubsetSize(after.Keys, before.Keys + {op.ptr});
    }
  }

  /** In any run on one interpreter, two hashings of the same object give the same value, never -1,
      whatever frames are current, as long as the object lives between them and the first hashing
      could be cached. */
  lemma {:induction false} SameObjectSameHash(ops: seq<HashOp>, hashes: seq<int>, caches: seq<map<Word, int>>, i: nat, j: nat)
    requires CacheRun(ops, hashes, caches) && caches[0] == map[] && i < j < |ops|
    requires ops[i].Hash? && ops[j].Hash? && ops[i].ptr == ops[j].ptr && Aligned(ops[i].ptr)
    requires ops[i].memory && i < CROWDED
    requires forall k :: i <= k < j ==> ops[k] != Forget(ops[i].ptr)
    ensures hashes[i] == hashes[j] != -1
  {
    CacheGrowsSlowly(ops, hashes, caches, i);
    assert CacheStep(ops[i], hashes[i], caches[i], caches[i + 1]);
    CachedHashStays(ops, hashes, caches, i + 1, j, ops[i].ptr);
    assert CacheStep(ops[j], hashes[j], caches[j], caches[j + 1]);
  }

  /** A step before a run makes a longer run. */
  lemma {:induction false} CacheRunCons(ops: seq<HashOp>, hash: int, cache: map<Word, int>, hashes: seq<int>, caches: seq<map<Word, int>>)
    requires ops != [] && CacheRun(ops[1..], hashes, caches) && CacheStep(ops[0], hash, cache, caches[0])
    ensures CacheRun(ops, [hash] + hashes, [cache] + caches)
  {
    var hashes', caches' := [hash] + hashes, [cache] + caches;
    forall i | 0 <= i < |ops|
      ensures CacheStep(ops[i], hashes'[i], caches'[i], caches'[i + 1])
    {
      if i > 0 {
        assert CacheStep(ops[1..][i - 1], hashes[i - 1], caches[i - 1], caches[i]);
      }
    }
  }

  method RunHashes(interp: Interpreter, ops: seq<HashOp>)
    returns (hashes: seq<int>, ghost caches: seq<map<Word, int>>)
    requires interp.Valid() && CacheOk(interp.Hashes())
    modifies interp.Repr()
    ensures CacheRun(ops, hashes, caches) && caches[0] == old(interp.Hashes())
    decreases |ops|
  {
    ghost var cache := interp.Hashes();
    if ops == [] {
      return [], [cache];
    }
    var hash := HashEvent(interp, ops[0]);
    hashes, caches := RunHashes(interp, ops[1..]);
    CacheRunCons(ops, hash, cache, hashes, caches);
    hashes, caches := [hash] + hashes, [cache] + caches;
  }
}
