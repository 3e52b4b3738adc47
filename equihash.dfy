/** The solver object of `internal/pkg/pow/equihash/equihash.go`: the bucket table is a
    fixed `tableLength x listLength` array of slots with a fill count per bucket, the fork
    rows and the solutions are fields the methods reassign. Every method is proved to
    compute the corresponding function of module `Collisions`. */
module Equihash {
  import opened Uint32
  import opened Convert
  import opened Pow
  import opened Collisions
  import opened Sorting
  import opened Wrappers
  import opened Model

  /** A slot table with its fill counts: one count per bucket, none above `listLength`,
      and every slot (filled or not) holding `len` blocks. */
  predicate Shaped(tl: array2<Tuple>, fl: array<u32>, len: nat)
    reads tl, fl
  {
    fl.Length == tl.Length0 && tl.Length1 == ListLength &&
    (forall b :: 0 <= b < fl.Length ==> fl[b] <= ListLength) &&
    forall b, c :: 0 <= b < tl.Length0 && 0 <= c < tl.Length1 ==> |tl[b, c].blocks| == len
  }

  /** Bucket i of the arrays holds the well-formed entries `bkt`. */
  ghost predicate BucketIs(lv: Level, tl: array2<Tuple>, fl: array<u32>, i: nat, bkt: seq<Tuple>)
    reads tl, fl
  {
    Supported(lv.pz) && i < fl.Length && i < tl.Length0 && fl[i] as int == |bkt| <= tl.Length1 &&
    forall c :: 0 <= c < |bkt| ==> tl[i, c] == bkt[c] && TupleOK(lv, bkt[c])
  }

  /** The buckets the arrays represent: bucket b is its first `fl[b]` slots. */
  ghost function Contents(tl: array2<Tuple>, fl: array<u32>): (tbl: Table)
    reads tl, fl
    requires fl.Length == tl.Length0 && forall b :: 0 <= b < fl.Length ==> fl[b] <= tl.Length1
    ensures |tbl| == fl.Length
    ensures forall b :: 0 <= b < fl.Length ==> |tbl[b]| == fl[b]
  {
    seq(fl.Length, b requires 0 <= b < fl.Length && fl[b] <= tl.Length1 reads tl, fl => Slots(tl, b, fl[b]))
  }

  /** The first `count` slots of row b. */
  ghost function Slots(tl: array2<Tuple>, b: nat, count: nat): (s: seq<Tuple>)
    reads tl
    requires b < tl.Length0 && count <= tl.Length1
    ensures |s| == count && forall c :: 0 <= c < count ==> s[c] == tl[b, c]
  {
    seq(count, c requires 0 <= c < count <= tl.Length1 && b < tl.Length0 reads tl => tl[b, c])
  }

  /** The arrays hold the buckets of `tbl`, slot by slot. */
  ghost predicate Represents(tl: array2<Tuple>, fl: array<u32>, tbl: Table)
    reads tl, fl
  {
    fl.Length == tl.Length0 == |tbl| &&
    forall b :: 0 <= b < |tbl| ==>
      fl[b] as int == |tbl[b]| <= tl.Length1 && forall c :: 0 <= c < |tbl[b]| ==> tl[b, c] == tbl[b][c]
  }

  /** The arrays hold the first `count` indices placed into `start`. */
  ghost predicate FilledUpTo(h: Hash, pz: Puzzle, tl: array2<Tuple>, fl: array<u32>, start: Table, count: nat)
    reads tl, fl
  {
    Supported(pz) && |start| == TableLength(pz) && count <= Modulus && Shaped(tl, fl, pz.k) &&
    Contents(tl, fl) == Filled(h, pz, start, count)
  }

  lemma ContentsRepresented(tl: array2<Tuple>, fl: array<u32>)
    requires fl.Length == tl.Length0 && forall b :: 0 <= b < fl.Length ==> fl[b] <= tl.Length1
    ensures Represents(tl, fl, Contents(tl, fl))
  {
  }

  /** Fresh arrays for a round: empty buckets of `listLength` slots of `newBlocks` blocks,
      and a row of `fork{0, 0}`. */
  method NewRound(tableLength: nat, newBlocks: nat, maxNewCollisions: nat)
    returns (cl: array2<Tuple>, nfl: array<u32>, nf: array<Fork>)
    ensures fresh(cl) && fresh(nfl) && fresh(nf)
    ensures cl.Length0 == tableLength && Shaped(cl, nfl, newBlocks) && nf.Length == maxNewCollisions
    ensures Contents(cl, nfl) == seq(tableLength, _ => []) && forall x :: 0 <= x < nf.Length ==> nf[x] == Fork(0, 0)
  {
    nf := new Fork[maxNewCollisions](_ => Fork(0, 0));
    cl, nfl := NewTable(tableLength, newBlocks);
  }

  /** Empty buckets of `listLength` slots of `blocks` zero blocks, with zero counts. */
  method NewTable(tableLength: nat, blocks: nat) returns (tl: array2<Tuple>, fl: array<u32>)
    ensures fresh(tl) && fresh(fl)
    ensures tl.Length0 == tableLength && Shaped(tl, fl, blocks) && Contents(tl, fl) == seq(tableLength, _ => [])
  {
    var blank := Tuple(seq(blocks, _ => 0), 0);
    tl := new Tuple[tableLength, ListLength]((_, _) => blank);
    fl := new u32[tableLength](_ => 0);
  }

  /** Fill the next slot of bucket b and count it. */
  method Push(tl: array2<Tuple>, fl: array<u32>, b: u32, t: Tuple)
    requires Shaped(tl, fl, |t.blocks|) && b < fl.Length && fl[b] < ListLength
    modifies tl, fl
    ensures Shaped(tl, fl, |t.blocks|)
    ensures Contents(tl, fl) == old(Contents(tl, fl))[b := old(Contents(tl, fl))[b] + [t]]
  {
    ghost var before := Contents(tl, fl);
    tl[b, fl[b]] := t;
    fl[b] := fl[b] + 1;
    ghost var after := Contents(tl, fl);
    forall b' | 0 <= b' < |after|
      ensures after[b'] == before[b := before[b] + [t]][b']
    {
      if b' == b {
        assert after[b'] == before[b] + [t];
      } else {
        assert after[b'] == before[b'];
      }
    }
  }

  /** File a new entry in bucket b, its fork in the next free place of the fork row. */
  method FileFork(cl: array2<Tuple>, nfl: array<u32>, nf: array<Fork>, b: u32, t: Tuple, f: Fork)
    requires Shaped(cl, nfl, |t.blocks|) && b < nfl.Length && nfl[b] < ListLength && t.reference < nf.Length
    modifies cl, nfl, nf
    ensures Shaped(cl, nfl, |t.blocks|)
    ensures Contents(cl, nfl) == old(Contents(cl, nfl))[b := old(Contents(cl, nfl))[b] + [t]]
    ensures nf[..t.reference + 1] == old(nf[..t.reference]) + [f]
    ensures forall x :: t.reference < x < nf.Length ==> nf[x] == old(nf[x])
  {
    nf[t.reference] := f;
    Push(cl, nfl, b, t);
  }

  /** The inner loop of `fillMemory`: blocks 1 .. K of a digest, each shifted down to its
      top N/(K+1) bits. */
  method LeafBlocks(buf: seq<u32>, k: u32, shift: u32) returns (blocks: seq<u32>)
    requires k < |buf|
    ensures |blocks| == k && forall l :: 0 <= l < k ==> blocks[l] == Shr(buf[l + 1], shift)
  {
    var a := new u32[k];
    for j := 1 to k + 1
      invariant forall l :: 0 <= l < j - 1 ==> a[l] == Shr(buf[l + 1], shift)
    {
      a[j - 1] := Shr(buf[j], shift);
    }
    blocks := a[..];
  }

  /** The inner loop of `resolveCollisions`: blocks 1 .. of two entries XORed pairwise. */
  method XorTailOf(a: seq<u32>, b: seq<u32>, newBlocks: nat) returns (r: seq<u32>)
    requires 1 <= |a| == |b| && newBlocks == |a| - 1
    ensures r == XorTail(a, b)
  {
    var out := new u32[newBlocks];
    for l := 0 to newBlocks
      invariant forall x :: 0 <= x < l ==> out[x] == XorU32(a[x + 1], b[x + 1])
    {
      out[l] := XorU32(a[l + 1], b[l + 1]);
    }
    r := out[..];
  }

  /** The duplicate scan of `FindProof`: whether two neighbours of `vec` are equal. */
  method DuplicateNeighbours(vec: seq<u32>) returns (dup: bool)
    requires |vec| >= 1
    ensures dup == HasAdjacentDuplicate(vec)
  {
    dup := false;
    for i := 0 to |vec| - 1
      invariant dup == exists x :: 0 <= x < i && vec[x] == vec[x + 1]
    {
      if vec[i] == vec[i + 1] {
        dup := true;
      }
    }
  }

  /** The solver object. */
  class Equihash {
    var n: u32
    var k: u32
    var seed: Seed
    var nonce: u32
    var tupleList: array2<Tuple>
    var filledList: array<u32>
    var solutions: seq<Proof>
    var forks: seq<seq<Fork>>

    function Puz(): Puzzle
      reads this
    {
      Puzzle(n, k, seed, nonce)
    }

    /** Supported parameters, a table of `tableLength x listLength` slots of K - r blocks
        after r rounds, and a well-shaped abstract state. */
    ghost predicate Valid()
      reads this, tupleList, filledList
    {
      Supported(Puz()) && |forks| <= k &&
      tupleList.Length0 == TableLength(Puz()) && Shaped(tupleList, filledList, k - |forks|) &&
      StateOK(Puz(), State(Contents(tupleList, filledList), forks, solutions))
    }

    /** The abstract state: the buckets, the fork rows, the stored solutions. */
    ghost function St(): State
      reads this, tupleList, filledList
      requires Valid()
    {
      State(Contents(tupleList, filledList), forks, solutions)
    }

    /** `NewEquihash`: N and K converted to uint32, the seed from the first four
        little-endian words of the input, nonce 1; the tables come with `initializeMemory`. */
    constructor NewEquihash(difficulty: Difficulty, input: seq<byte>)
      ensures n == Wrap(difficulty.numOfBits) && k == Wrap(difficulty.length)
      ensures seed == SeedOf(input) && nonce == 1 && solutions == [] && forks == []
    {
      var s := SeedFromBytes(input);
      n := Wrap(difficulty.numOfBits);
      k := Wrap(difficulty.length);
      seed := s;
      nonce := 1;
      tupleList := new Tuple[0, 0];
      filledList := new u32[0];
      solutions := [];
      forks := [];
    }

    /** `initializeMemory`: 2^(N/(K+1)) empty buckets of `listLength` slots of K blocks,
        no solutions and no fork rows. */
    method InitializeMemory()
      requires Supported(Puz())
      modifies this
      ensures n == old(n) && k == old(k) && seed == old(seed) && nonce == old(nonce)
      ensures fresh(tupleList) && fresh(filledList)
      ensures Valid() && St() == State(EmptyTable(Puz()), [], [])
    {
      var tupleN := Pow2(Width(Puz()));
      tupleList, filledList := NewTable(tupleN, k);
      solutions := [];
      forks := [];
      assert Contents(tupleList, filledList) == EmptyTable(Puz());
    }

    /** `fillMemory(length)`: indices 0 .. length-1 hashed with the seed and the nonce and
        placed in the bucket of their first block. */
    method FillMemory(h: Hash, length: u32)
      requires Valid() && forks == []
      modifies tupleList, filledList
      ensures Valid()
      ensures Contents(tupleList, filledList) == Filled(h, Puz(), old(Contents(tupleList, filledList)), length)
    {
      ghost var start := Contents(tupleList, filledList);
      assert TableOK(Level(Puz(), []), start);
      FillIndices(h, length);
      FilledShape(h, Puz(), start, length);
    }

    /** The loop of `fillMemory`. */
    method FillIndices(h: Hash, length: u32)
      requires Supported(Puz())
      requires tupleList.Length0 == TableLength(Puz()) && Shaped(tupleList, filledList, k)
      modifies tupleList, filledList
      ensures Shaped(tupleList, filledList, k)
      ensures Contents(tupleList, filledList) == Filled(h, Puz(), old(Contents(tupleList, filledList)), length)
    {
      ghost var pz := Puz();
      ghost var start := Contents(tupleList, filledList);
      var shift := Wrap(32 - Width(Puz()));
      var tl, fl := tupleList, filledList;
      for i: u32 := 0 to length
        invariant FilledUpTo(h, pz, tl, fl, start, i)
      {
        PlaceIndex(h, pz, tl, fl, shift, i);
      }
    }

    /** The first lines of the `fillMemory` loop body: the digest of (seed, nonce, i) as words. */
    method HashIndex(h: Hash, i: u32) returns (buf: seq<u32>)
      ensures buf == HashWords(h, Puz(), i)
    {
      var input := seed + [nonce, i];
      assert input == HashInput(Puz(), i);
      var bytes := Uint32ArrayToBytes(input);
      buf := BytesToUint32Array(h(bytes));
    }

    /** One iteration of `fillMemory`: hash (seed, nonce, i), take the bucket from word 0
        and, unless the bucket is full, fill its next slot with words 1 .. K. */
    method PlaceIndex(h: Hash, ghost pz: Puzzle, tl: array2<Tuple>, fl: array<u32>, shift: u32, i: u32)
      requires pz == Puz() && Supported(pz) && shift == BlockShift(pz)
      requires tl.Length0 == TableLength(pz) && Shaped(tl, fl, k)
      modifies tl, fl
      ensures Shaped(tl, fl, k)
      ensures Contents(tl, fl) == Place(h, pz, old(Contents(tl, fl)), i)
    {
      var buf := HashIndex(h, i);
      var index := Shr(buf[0], shift);
      assert index == BucketOf(h, Puz(), i);
      var count := fl[index];
      if count < ListLength {
        var blocks := LeafBlocks(buf, k, shift);
        assert Tuple(blocks, i) == LeafTuple(h, Puz(), i);
        Push(tl, fl, index, Tuple(blocks, i));
      }
    }

    /** `resolveTreeByLevel`: the indices under a fork, left subtree first. */
    method ResolveTreeByLevel(f: Fork, level: u32) returns (r: seq<u32>)
      requires WellFormed(forks) && ForkAt(forks, f, level)
      ensures r == Collisions.ResolveTreeByLevel(forks, f, level)
      decreases level
    {
      if level == 0 {
        return [f.ref1, f.ref2];
      }
      var v1 := ResolveTreeByLevel(forks[level - 1][f.ref1], level - 1);
      var v2 := ResolveTreeByLevel(forks[level - 1][f.ref2], level - 1);
      var both := v1 + v2;
      var result := new u32[|both|];
      for i := 0 to |both|
        invariant result[..i] == both[..i]
      {
        result[i] := both[i];
      }
      r := result[..];
    }

    /** `resolveTree`: from the level of the latest row. */
    method ResolveTree(f: Fork) returns (r: seq<u32>)
      requires WellFormed(forks) && ForkAt(forks, f, |forks|) && |forks| < Modulus
      ensures r == Collisions.ResolveTree(forks, f)
    {
      r := ResolveTreeByLevel(f, |forks| as u32);
    }

    /** The abstract round being built from the new arrays. */
    ghost function Building(cl: array2<Tuple>, nfl: array<u32>, nf: array<Fork>, newColls: nat, sols: seq<Proof>): Round
      reads cl, nfl, nf
      requires nfl.Length == cl.Length0 && cl.Length1 == ListLength
      requires (forall b :: 0 <= b < nfl.Length ==> nfl[b] <= ListLength) && newColls <= nf.Length
    {
      Round(Contents(cl, nfl), nf[..newColls], sols)
    }

    /** The body of the pair loop of `resolveCollisions` for entries t1 (earlier) and t2 of
        one bucket. */
    method CollidePair(store: bool, cap: u32, cl: array2<Tuple>, nfl: array<u32>, nf: array<Fork>,
                       newColls: u32, sols: seq<Proof>, t1: Tuple, t2: Tuple)
      returns (newColls': u32, sols': seq<Proof>)
      requires LevelOK(Level(Puz(), forks)) && |forks| < k && |forks| < Modulus
      requires cap == Cap(Puz()) && nf.Length == ForkMultiplier * TableLength(Puz())
      requires cl.Length0 == TableLength(Puz()) && Shaped(cl, nfl, k - |forks| - 1) && newColls <= cap
      requires TupleOK(Level(Puz(), forks), t1) && TupleOK(Level(Puz(), forks), t2)
      requires forall x :: newColls <= x < nf.Length ==> nf[x] == Fork(0, 0)
      modifies cl, nfl, nf
      ensures Shaped(cl, nfl, k - |forks| - 1) && newColls' <= cap
      ensures forall x :: newColls' <= x < nf.Length ==> nf[x] == Fork(0, 0)
      ensures Building(cl, nfl, nf, newColls', sols') ==
        Collide(Level(Puz(), forks), store, cap, old(Building(cl, nfl, nf, newColls, sols)), t1, t2)
    {
      ghost var lv := Level(Puz(), forks);
      ghost var before := Building(cl, nfl, nf, newColls, sols);
      XorBelow(t1.blocks[0], t2.blocks[0], Width(Puz()));
      var newIndex := XorU32(t1.blocks[0], t2.blocks[0]);
      var newFork := Fork(t1.reference, t2.reference);
      newColls', sols' := newColls, sols;
      if store {
        if newIndex == 0 {
          var solutionInputs := ResolveTree(newFork);
          sols' := sols + [Proof(n, k, seed, nonce, solutionInputs)];
          assert Collide(lv, store, cap, before, t1, t2) == before.(solutions := sols');
        } else {
          assert Collide(lv, store, cap, before, t1, t2) == before;
        }
      } else if nfl[newIndex] < ListLength && newColls < cap {
        var blocks := XorTailOf(t1.blocks, t2.blocks, k - |forks| - 1);
        var t := Tuple(blocks, newColls);
        FileFork(cl, nfl, nf, newIndex, t, newFork);
        newColls' := newColls + 1;
        assert Collide(lv, store, cap, before, t1, t2) ==
          before.(table := before.table[newIndex := before.table[newIndex] + [t]], row := before.row + [newFork]);
      } else {
        assert Collide(lv, store, cap, before, t1, t2) == before;
      }
    }

    /** `resolveCollisions(store)`: every pair of filled slots of every bucket collides
        into fresh arrays, which then replace the table; the new fork row is appended. */
    method ResolveCollisions(store: bool)
      requires Valid() && |forks| < k
      modifies this
      ensures n == old(n) && k == old(k) && seed == old(seed) && nonce == old(nonce)
      ensures fresh(tupleList) && fresh(filledList)
      ensures Valid() && St() == NextState(Puz(), old(St()), store)
    {
      ghost var lv := Level(Puz(), forks);
      ghost var tbl := Contents(tupleList, filledList);
      ghost var rd := Resolve(lv, store, tbl, solutions);
      ContentsRepresented(tupleList, filledList);
      ghost var next := NextState(lv.pz, State(tbl, forks, solutions), store);
      assert next == State(rd.table, forks + [PaddedRow(lv.pz, rd.row)], rd.solutions);
      var collisionList, newFilledList, newForks, newColls, sols := CollideAll(store, tbl);
      assert newForks[..] == PaddedRow(lv.pz, rd.row);
      forks := forks + [newForks[..]];
      tupleList, filledList := collisionList, newFilledList;
      solutions := sols;
      assert State(Contents(tupleList, filledList), forks, solutions) == next;
    }

    /** The three loops of `resolveCollisions`, into fresh arrays. */
    method CollideAll(store: bool, ghost tbl: Table)
      returns (collisionList: array2<Tuple>, newFilledList: array<u32>, newForks: array<Fork>,
               newColls: u32, sols: seq<Proof>)
      requires LevelOK(Level(Puz(), forks)) && |forks| < k && TableOK(Level(Puz(), forks), tbl)
      requires tupleList.Length0 == TableLength(Puz()) && Shaped(tupleList, filledList, k - |forks|)
      requires Represents(tupleList, filledList, tbl)
      ensures fresh(collisionList) && fresh(newFilledList) && fresh(newForks)
      ensures collisionList.Length0 == TableLength(Puz()) && Shaped(collisionList, newFilledList, k - |forks| - 1)
      ensures newForks.Length == ForkMultiplier * TableLength(Puz()) && newColls <= newForks.Length
      ensures forall x :: newColls <= x < newForks.Length ==> newForks[x] == Fork(0, 0)
      ensures Building(collisionList, newFilledList, newForks, newColls, sols) ==
        Resolve(Level(Puz(), forks), store, tbl, solutions)
    {
      var tableLength := tupleList.Length0;
      var maxNewCollisions := tableLength * ForkMultiplier;
      var cap := Wrap(maxNewCollisions);
      var newBlocks := |tupleList[0, 0].blocks| - 1;
      collisionList, newFilledList, newForks := NewRound(tableLength, newBlocks, maxNewCollisions);
      newColls, sols := CollideBuckets(store, cap, collisionList, newFilledList, newForks, tbl);
    }

    /** The bucket loop of `resolveCollisions`, from empty new arrays. */
    method CollideBuckets(store: bool, cap: u32, cl: array2<Tuple>, nfl: array<u32>, nf: array<Fork>, ghost tbl: Table)
      returns (newColls: u32, sols: seq<Proof>)
      requires LevelOK(Level(Puz(), forks)) && |forks| < k && |forks| < Modulus && TableOK(Level(Puz(), forks), tbl)
      requires Represents(tupleList, filledList, tbl) && tupleList.Length1 == ListLength
      requires cap == Cap(Puz()) && nf.Length == ForkMultiplier * TableLength(Puz())
      requires cl.Length0 == TableLength(Puz()) && Shaped(cl, nfl, k - |forks| - 1)
      requires Contents(cl, nfl) == EmptyTable(Puz()) && forall x :: 0 <= x < nf.Length ==> nf[x] == Fork(0, 0)
      requires cl != tupleList && nfl != filledList
      modifies cl, nfl, nf
      ensures Shaped(cl, nfl, k - |forks| - 1) && newColls <= cap
      ensures forall x :: newColls <= x < nf.Length ==> nf[x] == Fork(0, 0)
      ensures Building(cl, nfl, nf, newColls, sols) == Resolve(Level(Puz(), forks), store, tbl, solutions)
    {
      ghost var lv := Level(Puz(), forks);
      ghost var target := Resolve(lv, store, tbl, solutions);
      newColls, sols := 0, solutions;
      assert Building(cl, nfl, nf, newColls, sols) == Round(EmptyTable(lv.pz), [], sols);
      var i: u32 := 0;
      while i < tupleList.Length0 as u32
        invariant i <= tupleList.Length0
        invariant Shaped(cl, nfl, k - |forks| - 1) && newColls <= cap
        invariant forall x :: newColls <= x < nf.Length ==> nf[x] == Fork(0, 0)
        invariant BucketsFrom(lv, store, cap, Building(cl, nfl, nf, newColls, sols), tbl, i) == target
      {
        newColls, sols := CollideBucket(store, cap, cl, nfl, nf, newColls, sols, i, tbl[i]);
        i := i + 1;
      }
    }

    /** The pair loops of `resolveCollisions` over bucket i: (0, 1), (0, 2) …, (1, 2) …. */
    method CollideBucket(store: bool, cap: u32, cl: array2<Tuple>, nfl: array<u32>, nf: array<Fork>,
                         newColls: u32, sols: seq<Proof>, i: u32, ghost bkt: seq<Tuple>)
      returns (newColls': u32, sols': seq<Proof>)
      requires LevelOK(Level(Puz(), forks)) && |forks| < k && |forks| < Modulus
      requires cap == Cap(Puz()) && nf.Length == ForkMultiplier * TableLength(Puz())
      requires cl.Length0 == TableLength(Puz()) && Shaped(cl, nfl, k - |forks| - 1) && newColls <= cap
      requires forall x :: newColls <= x < nf.Length ==> nf[x] == Fork(0, 0)
      requires BucketIs(Level(Puz(), forks), tupleList, filledList, i, bkt)
      requires cl != tupleList && nfl != filledList
      modifies cl, nfl, nf
      ensures Shaped(cl, nfl, k - |forks| - 1) && newColls' <= cap
      ensures forall x :: newColls' <= x < nf.Length ==> nf[x] == Fork(0, 0)
      ensures Building(cl, nfl, nf, newColls', sols') ==
        PairsFrom(Level(Puz(), forks), store, cap, old(Building(cl, nfl, nf, newColls, sols)), bkt, 0, 1)
    {
      ghost var lv := Level(Puz(), forks);
      ghost var target := PairsFrom(lv, store, cap, Building(cl, nfl, nf, newColls, sols), bkt, 0, 1);
      newColls', sols' := newColls, sols;
      var count := filledList[i];
      var j: u32 := 0;
      while j < count
        invariant j <= count
        invariant Shaped(cl, nfl, k - |forks| - 1) && newColls' <= cap
        invariant forall x :: newColls' <= x < nf.Length ==> nf[x] == Fork(0, 0)
        invariant PairsFrom(lv, store, cap, Building(cl, nfl, nf, newColls', sols'), bkt, j, j + 1) == target
      {
        newColls', sols' := CollideLater(store, cap, cl, nfl, nf, newColls', sols', i, j, bkt);
        j := j + 1;
      }
    }

    /** The innermost loop of `resolveCollisions`: slot j of bucket i against the slots after it. */
    method CollideLater(store: bool, cap: u32, cl: array2<Tuple>, nfl: array<u32>, nf: array<Fork>,
                        newColls: u32, sols: seq<Proof>, i: u32, j: u32, ghost bkt: seq<Tuple>)
      returns (newColls': u32, sols': seq<Proof>)
      requires LevelOK(Level(Puz(), forks)) && |forks| < k && |forks| < Modulus
      requires cap == Cap(Puz()) && nf.Length == ForkMultiplier * TableLength(Puz())
      requires cl.Length0 == TableLength(Puz()) && Shaped(cl, nfl, k - |forks| - 1) && newColls <= cap
      requires forall x :: newColls <= x < nf.Length ==> nf[x] == Fork(0, 0)
      requires BucketIs(Level(Puz(), forks), tupleList, filledList, i, bkt)
      requires cl != tupleList && nfl != filledList && j < |bkt|
      modifies cl, nfl, nf
      ensures Shaped(cl, nfl, k - |forks| - 1) && newColls' <= cap
      ensures forall x :: newColls' <= x < nf.Length ==> nf[x] == Fork(0, 0)
      ensures PairsFrom(Level(Puz(), forks), store, cap, Building(cl, nfl, nf, newColls', sols'), bkt, j + 1, j + 2) ==
        PairsFrom(Level(Puz(), forks), store, cap, old(Building(cl, nfl, nf, newColls, sols)), bkt, j, j + 1)
    {
      ghost var lv := Level(Puz(), forks);
      ghost var target := PairsFrom(lv, store, cap, Building(cl, nfl, nf, newColls, sols), bkt, j, j + 1);
      newColls', sols' := newColls, sols;
      var count := filledList[i];
      var first := tupleList[i, j];
      var m := j + 1;
      while m < count
        invariant j < m <= count
        invariant Shaped(cl, nfl, k - |forks| - 1) && newColls' <= cap
        invariant forall x :: newColls' <= x < nf.Length ==> nf[x] == Fork(0, 0)
        invariant PairsFrom(lv, store, cap, Building(cl, nfl, nf, newColls', sols'), bkt, j, m) == target
      {
        ghost var rd := Building(cl, nfl, nf, newColls', sols');
        PairsUnfold(lv, store, cap, rd, bkt, j, m);
        var second := tupleList[i, m];
        assert first == bkt[j] && second == bkt[m];
        newColls', sols' := CollidePair(store, cap, cl, nfl, nf, newColls', sols', first, second);
        m := m + 1;
      }
      PairsRowDone(lv, store, cap, Building(cl, nfl, nf, newColls', sols'), bkt, j, m);
    }

    /** The selection loop of `FindProof`: each stored solution's inputs are sorted in
        place, and the first without equal neighbours is returned. */
    method SelectSolution() returns (r: Option<Proof>)
      requires forall x :: 0 <= x < |solutions| ==> |solutions[x].inputs| >= 1
      modifies this`solutions
      ensures r == Pick(old(solutions), 0)
      ensures solutions == Selected(old(solutions), 0)
    {
      ghost var sols0 := solutions;
      var i := 0;
      while i < |solutions|
        invariant i <= |solutions| == |sols0|
        invariant forall x :: i <= x < |solutions| ==> solutions[x] == sols0[x]
        invariant Pick(sols0, i) == Pick(sols0, 0)
        invariant Selected(solutions, i) == Selected(sols0, 0)
      {
        var vec := SortSeq(solutions[i].inputs);
        solutions := solutions[i := solutions[i].(inputs := vec)];
        var dup := DuplicateNeighbours(vec);
        if !dup {
          return Some(solutions[i]);
        }
        i := i + 1;
      }
      return None;
    }

    /** `FindProof`: for nonce 2, 3, … up to `maxNonce`, rebuild the table, run the K
        rounds and take the first stored solution without a repeated index; failing
        that, a proof with the last nonce and no inputs. */
    method FindProof(h: Hash) returns (r: Proof)
      requires Supported(Puz())
      modifies this
      ensures n == old(n) && k == old(k) && seed == old(seed)
      ensures r == FindProofResult(h, n, k, seed) && nonce == r.nonce
    {
      AttemptsAgree(h, n, k, seed);
      r := Search(h, Attempts(h, n, k, seed));
    }

    /** `attempt` is the outcome of the solver for every nonce, with this N, K and seed. */
    ghost predicate Agrees(h: Hash, attempt: u32 -> Option<Proof>)
      reads this
    {
      forall x: u32 {:trigger Attempt(h, Puzzle(n, k, seed, x))} ::
        Supported(Puzzle(n, k, seed, x)) ==> attempt(x) == Attempt(h, Puzzle(n, k, seed, x))
    }

    /** The nonce loop of `FindProof`, against the outcome `attempt` of each nonce. */
    method Search(h: Hash, ghost attempt: u32 -> Option<Proof>) returns (r: Proof)
      requires Supported(Puz())
      requires Agrees(h, attempt)
      modifies this
      ensures n == old(n) && k == old(k) && seed == old(seed)
      ensures r == SearchFrom(attempt, n, k, seed, 1) && nonce == r.nonce
    {
      nonce := 1;
      while nonce < MaxNonce
        invariant nonce <= MaxNonce && n == old(n) && k == old(k) && seed == old(seed)
        invariant SearchFrom(attempt, n, k, seed, 1) == SearchFrom(attempt, n, k, seed, nonce)
        decreases MaxNonce - nonce
      {
        nonce := nonce + 1;
        var res := TryNonce(h, attempt);
        if res.Some? {
          AttemptFound(h, Puz());
          return res.value;
        }
      }
      return Proof(n, k, seed, nonce, []);
    }

    /** One iteration of the nonce loop of `FindProof`, for the current nonce. */
    method TryNonce(h: Hash, ghost attempt: u32 -> Option<Proof>) returns (r: Option<Proof>)
      requires Supported(Puz()) && Agrees(h, attempt)
      modifies this
      ensures n == old(n) && k == old(k) && seed == old(seed) && nonce == old(nonce)
      ensures r == attempt(nonce)
    {
      ghost var pz := Puz();
      var length := Shl(4, Wrap(n / (k + 1) - 1));
      assert length == FillLength(pz);
      InitializeMemory();
      FillMemory(h, length);
      assert St() == InitialState(h, pz);
      RunRounds();
      assert solutions == Solutions(h, pz);
      SolutionsHaveInputs(h, pz);
      r := SelectSolution();
      assert r == Attempt(h, pz);
    }

    /** The round loop of `FindProof`: rounds 1 .. K, the last one storing solutions. */
    method RunRounds()
      requires Valid() && forks == []
      modifies this
      ensures n == old(n) && k == old(k) && seed == old(seed) && nonce == old(nonce)
      ensures Valid() && St() == RoundsFrom(Puz(), old(St()), 1)
    {
      ghost var pz := Puz();
      ghost var target := RoundsFrom(pz, St(), 1);
      var i: u32 := 1;
      while i <= k
        invariant 1 <= i <= k + 1 && Puz() == pz
        invariant Valid() && |forks| == i - 1
        invariant RoundsFrom(pz, St(), i) == target
      {
        var toStore := i == k;
        RoundsStep(pz, St(), i);
        ResolveCollisions(toStore);
        i := i + 1;
      }
    }
  }
}
