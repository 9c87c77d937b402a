/** The coordinate hash (pycore_retrace.h:37-59, 320-336, 422-456): computed by recursion down the
    frame chain, it is the left fold of the pair mixer over the very vector coordinates() returns. */
module CoordinateHash {
  import opened Bits
  import opened CoordinateMachine
  import opened SlotDiscipline

  const UNSET: Word := 0xffff_ffff_ffff_ffff
  const CALL_ORDINAL_TAG: Word := 0x8000_0000_0000_0000
  const COORDINATE_MASK: Word := 0x7fff_ffff_ffff_ffff

  /** The platform mixer; nothing proved here depends on its values. */
  type Mixer = (Word, Word) -> Word

  /** The unset sentinel is never a hash. */
  function Normalize(hash: Word): (r: Word)
    ensures r != UNSET && (hash != UNSET ==> r == hash)
  {
    if hash == UNSET then UNSET - 1 else hash
  }

  /** Counters are stored in 64 bits. */
  function Stored(x: nat): Word {
    x % WORD_LIMIT
  }

  lemma {:induction false} TagBelowLimit(ordinal: Word)
    ensures BitOr(CALL_ORDINAL_TAG, ordinal) < WORD_LIMIT
  {
    Pow2Values();
    OrBelow(CALL_ORDINAL_TAG, ordinal, 64);
  }

  lemma {:induction false} OrBelow(x: nat, y: nat, k: nat)
    requires x < Pow2(k) && y < Pow2(k)
    ensures BitOr(x, y) < Pow2(k)
    decreases k
  {
    if x != 0 && y != 0 {
      OrBelow(x / 2, y / 2, k - 1);
    }
  }

  function MixPair(mix: Mixer, hash: Word, instruction: nat, ordinal: nat): (r: Word)
    ensures r != UNSET
  {
    var h := Normalize(mix(hash, BitAnd(Stored(instruction), COORDINATE_MASK)));
    if Stored(ordinal) == 0 then h
    else
      TagBelowLimit(Stored(ordinal));
      Normalize(mix(h, BitOr(CALL_ORDINAL_TAG, Stored(ordinal))))
  }

  /** The seed: the space's root hash, mixed with its root ordinal when that is not zero. */
  function RootHash(mix: Mixer, rootHash: Word, rootOrdinal: nat): Word {
    var h := Normalize(rootHash);
    if Stored(rootOrdinal) != 0 then MixPair(mix, h, 0, rootOrdinal) else h
  }

  /** The recursion over the frame chain: frames of other spaces are skipped. */
  function ChainHash(mix: Mixer, frames: map<FrameId, FrameRec>, stack: seq<Item>, space: SpaceId, seed: Word): Word {
    if stack == [] then seed
    else
      match Top(stack)
      case Fr(f, sp, _) =>
        var below := ChainHash(mix, frames, Below(stack), space, seed);
        if sp == space && f in frames then MixPair(mix, below, Coordinate(frames[f]), frames[f].ordinal) else below
      case Sc(_) => ChainHash(mix, frames, Below(stack), space, seed)
  }

  /** Left fold of the pair mixer over a coordinate vector. */
  function FoldPairs(mix: Mixer, hash: Word, vector: seq<nat>): Word
    decreases |vector|
  {
    if |vector| < 2 then hash
    else FoldPairs(mix, MixPair(mix, hash, vector[0], vector[1]), vector[2..])
  }

  lemma {:induction false} FoldSnoc(mix: Mixer, hash: Word, vector: seq<nat>, instruction: nat, ordinal: nat)
    requires |vector| % 2 == 0
    ensures FoldPairs(mix, hash, vector + [instruction, ordinal])
         == MixPair(mix, FoldPairs(mix, hash, vector), instruction, ordinal)
    decreases |vector|
  {
    var longer := vector + [instruction, ordinal];
    if vector == [] {
      assert longer[2..] == [];
    } else {
      assert longer[2..] == vector[2..] + [instruction, ordinal];
      FoldSnoc(mix, MixPair(mix, hash, vector[0], vector[1]), vector[2..], instruction, ordinal);
    }
  }

  lemma {:induction false} VectorEven(frames: map<FrameId, FrameRec>, stack: seq<Item>, space: SpaceId)
    ensures |Vector(frames, stack, space)| % 2 == 0
  {
    if stack != [] {
      VectorEven(frames, Below(stack), space);
    }
  }

  /** For any mixer the recursive hash is the fold over coordinates() and is never the sentinel. */
  lemma {:induction false} HashIsFold(mix: Mixer, frames: map<FrameId, FrameRec>, stack: seq<Item>, space: SpaceId, rootHash: Word, rootOrdinal: nat)
    ensures var seed := RootHash(mix, rootHash, rootOrdinal);
            && ChainHash(mix, frames, stack, space, seed) == FoldPairs(mix, seed, Vector(frames, stack, space))
            && ChainHash(mix, frames, stack, space, seed) != UNSET
  {
    if stack != [] {
      HashIsFold(mix, frames, Below(stack), space, rootHash, rootOrdinal);
      match Top(stack)
      case Fr(f, sp, _) =>
        if sp == space && f in frames {
          VectorEven(frames, Below(stack), space);
          FoldSnoc(mix, RootHash(mix, rootHash, rootOrdinal), Vector(frames, Below(stack), space),
                   Coordinate(frames[f]), frames[f].ordinal);
        }
      case Sc(_) =>
    }
  }

  // ------------------------------------------------------------------ the words that are mixed

  const HALF: nat := 0x8000_0000_0000_0000

  /** A nonzero ordinal as it is mixed: in the upper half of the words, which no instruction is in. */
  function Tagged(ordinal: Word): Word {
    if ordinal < HALF then HALF + ordinal else ordinal
  }

  /** The words a pair feeds the mixer. */
  function PairWords(instruction: nat, ordinal: nat): seq<Word> {
    [instruction % HALF] + if ordinal % WORD_LIMIT == 0 then [] else [Tagged(ordinal % WORD_LIMIT)]
  }

  function WordsOf(vector: seq<nat>): seq<Word>
    decreases |vector|
  {
    if |vector| < 2 then [] else PairWords(vector[0], vector[1]) + WordsOf(vector[2..])
  }

  /** A root count is fed like a frame at instruction zero, unless it is zero. */
  function WithRoot(root: nat, vector: seq<nat>): seq<nat> {
    (if root % WORD_LIMIT == 0 then [] else [0, root]) + vector
  }

  /** Left fold of the normalised mixer. */
  function FoldWords(mix: Mixer, hash: Word, words: seq<Word>): Word
    decreases |words|
  {
    if words == [] then hash else FoldWords(mix, Normalize(mix(hash, words[0])), words[1..])
  }

  lemma {:induction false} HalfIs()
    ensures Pow2(63) == HALF
  {
    Pow2Values();
    assert 2 * 2 * Pow2(61) == Pow2(63);
  }

  /** Or-ing the tag in sets the top bit. */
  lemma {:induction false} TagWord(ordinal: Word)
    ensures BitOr(CALL_ORDINAL_TAG, ordinal) == Tagged(ordinal)
  {
    HalfIs();
    TagBits(ordinal, 63);
  }

  lemma {:induction false} TagBits(x: nat, k: nat)
    requires x < 2 * Pow2(k)
    ensures BitOr(Pow2(k), x) == if x < Pow2(k) then Pow2(k) + x else x
    decreases k
  {
    if x == 0 {
    } else if k > 0 {
      TagBits(x / 2, k - 1);
    }
  }

  lemma {:induction false} MaskWord(instruction: nat)
    ensures BitAnd(Stored(instruction), COORDINATE_MASK) == instruction % HALF
  {
    HalfIs();
    AndLowBits(Stored(instruction), 63);
    ModTwice(instruction);
  }

  lemma {:induction false} ModTwice(n: nat)
    ensures (n % WORD_LIMIT) % HALF == n % HALF
  {
    var q, r := n / WORD_LIMIT, n % WORD_LIMIT;
    assert n == (2 * q + r / HALF) * HALF + r % HALF;
    DivModUnique(n, HALF, 2 * q + r / HALF, r % HALF);
  }

  /** A pair is mixed by its words. */
  lemma {:induction false} PairFold(mix: Mixer, hash: Word, instruction: nat, ordinal: nat)
    ensures MixPair(mix, hash, instruction, ordinal) == FoldWords(mix, hash, PairWords(instruction, ordinal))
  {
    MaskWord(instruction);
    var h := Normalize(mix(hash, instruction % HALF));
    var words := PairWords(instruction, ordinal);
    if Stored(ordinal) == 0 {
      assert words[1..] == [];
    } else {
      TagWord(Stored(ordinal));
      var tagged := Tagged(Stored(ordinal));
      assert words[0] == instruction % HALF && words[1..] == [tagged] && [tagged][1..] == [];
      assert FoldWords(mix, h, [tagged]) == Normalize(mix(h, tagged));
    }
  }

  lemma {:induction false} FoldAppend(mix: Mixer, hash: Word, a: seq<Word>, b: seq<Word>)
    ensures FoldWords(mix, hash, a + b) == FoldWords(mix, FoldWords(mix, hash, a), b)
    decreases |a|
  {
    if a == [] {
      assert a + b == b;
    } else {
      assert (a + b)[0] == a[0] && (a + b)[1..] == a[1..] + b;
      FoldAppend(mix, Normalize(mix(hash, a[0])), a[1..], b);
    }
  }

  lemma {:induction false} PairsFold(mix: Mixer, hash: Word, vector: seq<nat>)
    ensures FoldPairs(mix, hash, vector) == FoldWords(mix, hash, WordsOf(vector))
    decreases |vector|
  {
    if |vector| >= 2 {
      var h := MixPair(mix, hash, vector[0], vector[1]);
      PairFold(mix, hash, vector[0], vector[1]);
      PairsFold(mix, h, vector[2..]);
      FoldAppend(mix, hash, PairWords(vector[0], vector[1]), WordsOf(vector[2..]));
    }
  }

  /** For any mixer the recursive hash is the plain fold of the mixer, from the space's root hash, over
      the words of the root count and of the vector coordinates() returns. */
  lemma {:induction false} HashIsWords(mix: Mixer, frames: map<FrameId, FrameRec>, stack: seq<Item>, space: SpaceId, rootHash: Word, rootOrdinal: nat)
    ensures ChainHash(mix, frames, stack, space, RootHash(mix, rootHash, rootOrdinal))
         == FoldWords(mix, Normalize(rootHash), WordsOf(WithRoot(rootOrdinal, Vector(frames, stack, space))))
  {
    var v, h := Vector(frames, stack, space), Normalize(rootHash);
    HashIsFold(mix, frames, stack, space, rootHash, rootOrdinal);
    PairsFold(mix, RootHash(mix, rootHash, rootOrdinal), v);
    if Stored(rootOrdinal) == 0 {
      assert [] + v == v;
    } else {
      var rooted := WithRoot(rootOrdinal, v);
      assert rooted[0] == 0 && rooted[1] == rootOrdinal && rooted[2..] == v;
      PairFold(mix, h, 0, rootOrdinal);
      FoldAppend(mix, h, PairWords(0, rootOrdinal), WordsOf(v));
    }
  }

  // ------------------------------------------------------------------ what the words tell apart

  ghost predicate Small(vector: seq<nat>) {
    |vector| % 2 == 0 && forall i :: 0 <= i < |vector| ==> vector[i] < HALF
  }

  lemma {:induction false} SmallPair(instruction: nat, ordinal: nat)
    requires instruction < HALF && ordinal < HALF
    ensures PairWords(instruction, ordinal) == if ordinal == 0 then [instruction] else [instruction, HALF + ordinal]
  {
    DivModUnique(instruction, HALF, 0, instruction);
    DivModUnique(ordinal, WORD_LIMIT, 0, ordinal);
  }

  lemma {:induction false} SmallTail(vector: seq<nat>)
    requires Small(vector) && vector != []
    ensures Small(vector[2..])
    ensures var words := WordsOf(vector);
            && words != [] && words[0] == vector[0] < HALF
            && words == (if vector[1] == 0 then [vector[0]] else [vector[0], HALF + vector[1]]) + WordsOf(vector[2..])
  {
    SmallPair(vector[0], vector[1]);
    forall i | 0 <= i < |vector[2..]|
      ensures vector[2..][i] < HALF
    {
      assert vector[2..][i] == vector[i + 2];
    }
  }

  /** The words that follow a pair begin below the tags, so they tell whether its ordinal was mixed. */
  lemma {:induction false} WordsTellApart(a: seq<nat>, b: seq<nat>)
    requires Small(a) && Small(b) && WordsOf(a) == WordsOf(b)
    ensures a == b
    decreases |a|
  {
    if a == [] {
      if b != [] {
        SmallTail(b);
      }
    } else {
      SmallTail(a);
      assert b != [];
      SmallTail(b);
      NextWord(a[2..]);
      NextWord(b[2..]);
      var rest, rest' := WordsOf(a[2..]), WordsOf(b[2..]);
      var head := if a[1] == 0 then [a[0]] else [a[0], HALF + a[1]];
      var head' := if b[1] == 0 then [b[0]] else [b[0], HALF + b[1]];
      assert |head + rest| == |head' + rest'|;
      if |head| > 1 {
        assert (head + rest)[1] == HALF + a[1];
      }
      if |head'| > 1 {
        assert (head' + rest')[1] == HALF + b[1];
      }
      assert a[1] == b[1];
      assert rest == (head + rest)[|head|..] && rest' == (head' + rest')[|head'|..];
      WordsTellApart(a[2..], b[2..]);
      assert a == [a[0], a[1]] + a[2..] && b == [b[0], b[1]] + b[2..];
    }
  }

  lemma {:induction false} NextWord(vector: seq<nat>)
    requires Small(vector)
    ensures WordsOf(vector) != [] ==> WordsOf(vector)[0] < HALF
  {
    if vector != [] {
      SmallTail(vector);
    }
  }

  /** Exactly when two states of a space feed the mixer the same words: they read the same, or one has
      no root count and its oldest frame, at instruction zero, has the ordinal that is the root count
      of the other. */
  lemma {:induction false} SameWords(root: nat, a: seq<nat>, root': nat, b: seq<nat>)
    requires Small(a) && Small(b) && root < HALF && root' < HALF
    ensures WordsOf(WithRoot(root, a)) == WordsOf(WithRoot(root', b))
            <==> || (root == root' && a == b)
                 || (root == 0 && root' != 0 && a == [0, root'] + b)
                 || (root != 0 && root' == 0 && b == [0, root] + a)
  {
    RootSmall(root, a);
    RootSmall(root', b);
    if WordsOf(WithRoot(root, a)) == WordsOf(WithRoot(root', b)) {
      WordsTellApart(WithRoot(root, a), WithRoot(root', b));
    }
    if root != 0 && root' != 0 && WithRoot(root, a) == WithRoot(root', b) {
      assert WithRoot(root, a)[1] == root && WithRoot(root', b)[1] == root';
      assert WithRoot(root, a)[2..] == a && WithRoot(root', b)[2..] == b;
    }
  }

  lemma {:induction false} RootSmall(root: nat, a: seq<nat>)
    requires Small(a) && root < HALF
    ensures Small(WithRoot(root, a)) && WithRoot(root, a) == if root == 0 then a else [0, root] + a
  {
    DivModUnique(root, WORD_LIMIT, 0, root);
    assert [] + a == a;
  }

  /** A root count of three with nothing active, and a frame at instruction zero with ordinal three. */
  lemma {:induction false} RootTwin()
    ensures WordsOf(WithRoot(3, [])) == WordsOf(WithRoot(0, [0, 3])) == [0, HALF + 3]
  {
    SameWords(3, [], 0, [0, 3]);
    SmallPair(0, 3);
    assert [0, 3] + [] == [0, 3];
    SmallTail([0, 3]);
  }
}
