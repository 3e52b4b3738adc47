/** The Equihash-style solver of `internal/pkg/pow/equihash/equihash.go`, as pure
    functions over the abstract state: the bucket table (each bucket the list of its
    filled slots), the fork rows of the rounds so far, and the stored solutions.
    The class `Equihash.Equihash` is proved to compute exactly these functions. */
module Collisions {
  import opened Uint32
  import opened Pow
  import opened Sorting
  import opened Wrappers

  /** Slots per bucket. */
  const ListLength: nat := 5
  /** The nonce search stops here. */
  const MaxNonce: nat := 0xFFFFF
  /** A collision round keeps at most this many entries per bucket of the table. */
  const ForkMultiplier: nat := 3

  /** The two parent references of an entry created by a collision round. */
  datatype Fork = Fork(ref1: u32, ref2: u32)
  /** A filled slot: the blocks still to collide on, and a reference (an index at
      round 0, the position of the entry's fork in the latest row afterwards). */
  datatype Tuple = Tuple(blocks: seq<u32>, reference: u32)
  /** Bucket b holds the filled slots of bucket b in order. */
  type Table = seq<seq<Tuple>>

  /** The parameters the solver supports: K + 1 blocks fit the 8-word digest and the
      table of 2^(N/(K+1)) buckets is addressed by uint32 counters. */
  predicate Supported(pz: Puzzle)
  {
    SupportedSizes(pz.n, pz.k)
  }

  /** Support depends on N and K alone. */
  predicate SupportedSizes(n: u32, k: u32)
  {
    k < HashWordCount && n / (k + 1) < MaxN
  }

  /** The number of buckets, `1 << (n/(k+1))`. */
  function TableLength(pz: Puzzle): (t: nat)
    requires Supported(pz)
    ensures t >= 1 && 2 * t <= Modulus
  {
    Pow2Half(Width(pz));
    Pow2(Width(pz))
  }

  /** The number of indices hashed per nonce, `4 << (n/(k+1) - 1)` in uint32. */
  function FillLength(pz: Puzzle): (r: u32)
    requires Supported(pz)
    ensures Width(pz) == 0 ==> r == 0
    ensures Width(pz) >= 1 ==> r == (2 * TableLength(pz)) % Modulus
  {
    assert Width(pz) >= 1 ==> Pow2(Width(pz)) == 2 * Pow2(Width(pz) - 1);
    Shl(4, Wrap(Width(pz) - 1))
  }

  /** The cap `uint32(3 * tableLength)` on the entries one round creates. */
  function Cap(pz: Puzzle): (c: nat)
    requires Supported(pz)
    ensures c <= ForkMultiplier * TableLength(pz) && c < Modulus
  {
    Wrap(ForkMultiplier * TableLength(pz))
  }

  function EmptyTable(pz: Puzzle): (tbl: Table)
    requires Supported(pz)
    ensures |tbl| == TableLength(pz)
  {
    seq(TableLength(pz), _ => [])
  }

  // ----- fork rows and the tree they encode -----

  predicate RowRefsBelow(row: seq<Fork>, bound: nat)
  {
    forall c :: 0 <= c < |row| ==> row[c].ref1 < bound && row[c].ref2 < bound
  }

  /** Every fork of row L >= 1 refers to entries of row L - 1. */
  predicate WellFormed(forks: seq<seq<Fork>>)
  {
    forall l :: 1 <= l < |forks| ==> RowRefsBelow(forks[l], |forks[l - 1]|)
  }

  /** A fork whose references can be followed from `level`. */
  predicate ForkAt(forks: seq<seq<Fork>>, f: Fork, level: nat)
  {
    level <= |forks| && (level > 0 ==> f.ref1 < |forks[level - 1]| && f.ref2 < |forks[level - 1]|)
  }

  /** `resolveTreeByLevel`: the indices under a fork, left subtree first. */
  function ResolveTreeByLevel(forks: seq<seq<Fork>>, f: Fork, level: nat): (r: seq<u32>)
    requires WellFormed(forks) && ForkAt(forks, f, level)
    ensures |r| == Pow2(level + 1)
    decreases level
  {
    if level == 0 then [f.ref1, f.ref2]
    else
      ResolveTreeByLevel(forks, forks[level - 1][f.ref1], level - 1) +
      ResolveTreeByLevel(forks, forks[level - 1][f.ref2], level - 1)
  }

  /** `resolveTree`: expansion from the level of the latest row. */
  function ResolveTree(forks: seq<seq<Fork>>, f: Fork): (r: seq<u32>)
    requires WellFormed(forks) && ForkAt(forks, f, |forks|)
    ensures |r| == Pow2(|forks| + 1)
  {
    ResolveTreeByLevel(forks, f, |forks|)
  }

  /** The indices under an entry of round r with the given reference. */
  function LeavesAt(forks: seq<seq<Fork>>, r: nat, ref: u32): (l: seq<u32>)
    requires WellFormed(forks) && r <= |forks| && (r > 0 ==> ref < |forks[r - 1]|)
    ensures |l| == Pow2(r)
  {
    if r == 0 then [ref] else ResolveTreeByLevel(forks, forks[r - 1][ref], r - 1)
  }

  // ----- well-shaped states -----

  /** The puzzle and the fork rows of the rounds done so far. */
  datatype Level = Level(pz: Puzzle, forks: seq<seq<Fork>>)

  predicate LevelOK(lv: Level)
  {
    Supported(lv.pz) && WellFormed(lv.forks) && |lv.forks| <= lv.pz.k &&
    forall l :: 0 <= l < |lv.forks| ==> |lv.forks[l]| == ForkMultiplier * TableLength(lv.pz)
  }

  /** An entry after `|forks|` rounds: one block fewer per round, every block a bucket
      number, and a reference into the latest row. */
  predicate TupleOK(lv: Level, t: Tuple)
    requires Supported(lv.pz)
  {
    |lv.forks| + |t.blocks| == lv.pz.k &&
    (forall l :: 0 <= l < |t.blocks| ==> t.blocks[l] < TableLength(lv.pz)) &&
    (|lv.forks| > 0 ==> t.reference < |lv.forks[|lv.forks| - 1]|)
  }

  predicate TableOK(lv: Level, tbl: Table)
    requires Supported(lv.pz)
  {
    |tbl| == TableLength(lv.pz) &&
    forall b :: 0 <= b < |tbl| ==>
      |tbl[b]| <= ListLength && forall c :: 0 <= c < |tbl[b]| ==> TupleOK(lv, tbl[b][c])
  }

  // ----- fillMemory -----

  /** The entry `fillMemory` writes for an index: blocks 1..K, and the index itself. */
  function LeafTuple(h: Hash, pz: Puzzle, index: u32): Tuple
    requires Supported(pz)
  {
    Tuple(seq(pz.k, l requires 0 <= l < pz.k => Block(h, pz, index, l + 1)), index)
  }

  /** The bucket of an index: block 0, the top N/(K+1) bits of hash word 0. */
  function BucketOf(h: Hash, pz: Puzzle, index: u32): (b: nat)
    requires Supported(pz)
    ensures b < TableLength(pz)
  {
    ShrBelow(HashWords(h, pz, index)[0], Width(pz));
    Block(h, pz, index, 0)
  }

  /** One iteration of `fillMemory`: append to the bucket unless it is full. */
  function Place(h: Hash, pz: Puzzle, tbl: Table, index: u32): (r: Table)
    requires Supported(pz) && |tbl| == TableLength(pz)
    ensures |r| == |tbl|
  {
    var b := BucketOf(h, pz, index);
    if |tbl[b]| < ListLength then tbl[b := tbl[b] + [LeafTuple(h, pz, index)]] else tbl
  }

  /** `fillMemory(count)`: indices 0 .. count-1 placed in order. */
  function Filled(h: Hash, pz: Puzzle, tbl: Table, count: nat): (r: Table)
    requires Supported(pz) && |tbl| == TableLength(pz) && count <= Modulus
    ensures |r| == |tbl|
  {
    if count == 0 then tbl else Place(h, pz, Filled(h, pz, tbl, count - 1), count - 1)
  }

  // ----- resolveCollisions -----

  /** The state of one round: the new table, the forks written so far, the solutions. */
  datatype Round = Round(table: Table, row: seq<Fork>, solutions: seq<Proof>)

  predicate RoundShape(lv: Level, cap: nat, rd: Round)
    requires Supported(lv.pz)
  {
    |rd.table| == TableLength(lv.pz) && |rd.row| <= cap < Modulus
  }

  /** Blocks 1.. of two entries XORed pairwise. */
  function XorTail(a: seq<u32>, b: seq<u32>): (r: seq<u32>)
    requires 1 <= |a| == |b|
    ensures |r| == |a| - 1
  {
    seq(|a| - 1, l requires 0 <= l < |a| - 1 => XorU32(a[l + 1], b[l + 1]))
  }

  /** The body of the pair loop of `resolveCollisions` for entries t1 before t2 of one
      bucket: the last round stores a solution when block 0 collides completely; the
      others file a new entry under the XOR of block 0 if the target bucket has room
      and the round's cap is not reached. */
  function Collide(lv: Level, store: bool, cap: nat, rd: Round, t1: Tuple, t2: Tuple): (r: Round)
    requires LevelOK(lv) && |lv.forks| < lv.pz.k && RoundShape(lv, cap, rd)
    requires TupleOK(lv, t1) && TupleOK(lv, t2)
    ensures RoundShape(lv, cap, r)
  {
    XorBelow(t1.blocks[0], t2.blocks[0], Width(lv.pz));
    var newIndex := XorU32(t1.blocks[0], t2.blocks[0]);
    var f := Fork(t1.reference, t2.reference);
    if store then
      if newIndex == 0 then
        rd.(solutions := rd.solutions + [Proof(lv.pz.n, lv.pz.k, lv.pz.seed, lv.pz.nonce, ResolveTree(lv.forks, f))])
      else rd
    else if |rd.table[newIndex]| < ListLength && |rd.row| < cap then
      rd.(table := rd.table[newIndex := rd.table[newIndex] + [Tuple(XorTail(t1.blocks, t2.blocks), |rd.row|)]],
          row := rd.row + [f])
    else rd
  }

  /** The pairs (j, m), then (j, m+1) …, then (j+1, j+2) … of one bucket, in loop order. */
  function PairsFrom(lv: Level, store: bool, cap: nat, rd: Round, bkt: seq<Tuple>, j: nat, m: nat): (r: Round)
    requires LevelOK(lv) && |lv.forks| < lv.pz.k && RoundShape(lv, cap, rd)
    requires forall c :: 0 <= c < |bkt| ==> TupleOK(lv, bkt[c])
    ensures RoundShape(lv, cap, r)
    decreases |bkt| - j, |bkt| - m
  {
    if j >= |bkt| then rd
    else if m >= |bkt| then PairsFrom(lv, store, cap, rd, bkt, j + 1, j + 2)
    else PairsFrom(lv, store, cap, Collide(lv, store, cap, rd, bkt[j], bkt[m]), bkt, j, m + 1)
  }

  /** One step of the pair order inside a row: pair (j, m), then (j, m+1) onwards. */
  lemma PairsUnfold(lv: Level, store: bool, cap: nat, rd: Round, bkt: seq<Tuple>, j: nat, m: nat)
    requires LevelOK(lv) && |lv.forks| < lv.pz.k && RoundShape(lv, cap, rd)
    requires forall c :: 0 <= c < |bkt| ==> TupleOK(lv, bkt[c])
    requires j < |bkt| && m < |bkt|
    ensures PairsFrom(lv, store, cap, rd, bkt, j, m) ==
      PairsFrom(lv, store, cap, Collide(lv, store, cap, rd, bkt[j], bkt[m]), bkt, j, m + 1)
  {
  }

  /** The end of a row of the pair order: (j, |bkt|) continues with (j+1, j+2). */
  lemma PairsRowDone(lv: Level, store: bool, cap: nat, rd: Round, bkt: seq<Tuple>, j: nat, m: nat)
    requires LevelOK(lv) && |lv.forks| < lv.pz.k && RoundShape(lv, cap, rd)
    requires forall c :: 0 <= c < |bkt| ==> TupleOK(lv, bkt[c])
    requires j < |bkt| <= m
    ensures PairsFrom(lv, store, cap, rd, bkt, j, m) == PairsFrom(lv, store, cap, rd, bkt, j + 1, j + 2)
  {
  }

  /** Buckets i, i+1, … of the table, in loop order. */
  function BucketsFrom(lv: Level, store: bool, cap: nat, rd: Round, tbl: Table, i: nat): (r: Round)
    requires LevelOK(lv) && |lv.forks| < lv.pz.k && RoundShape(lv, cap, rd) && TableOK(lv, tbl)
    ensures RoundShape(lv, cap, r)
    decreases |tbl| - i
  {
    if i >= |tbl| then rd
    else BucketsFrom(lv, store, cap, PairsFrom(lv, store, cap, rd, tbl[i], 0, 1), tbl, i + 1)
  }

  /** `resolveCollisions(store)` on a table with the given solutions. */
  function Resolve(lv: Level, store: bool, tbl: Table, sols: seq<Proof>): (r: Round)
    requires LevelOK(lv) && |lv.forks| < lv.pz.k && TableOK(lv, tbl)
    ensures RoundShape(lv, Cap(lv.pz), r)
  {
    BucketsFrom(lv, store, Cap(lv.pz), Round(EmptyTable(lv.pz), [], sols), tbl, 0)
  }

  /** The row appended by a round: the forks written, then `fork{0, 0}` up to 3 * tableLength. */
  function PaddedRow(pz: Puzzle, row: seq<Fork>): (r: seq<Fork>)
    requires Supported(pz) && |row| <= ForkMultiplier * TableLength(pz)
    ensures |r| == ForkMultiplier * TableLength(pz)
  {
    row + seq(ForkMultiplier * TableLength(pz) - |row|, _ => Fork(0, 0))
  }

  // ----- shape of the table through fillMemory and resolveCollisions -----

  /** Every fill count stays at most `listLength`, and every entry holds K blocks below
      the table length. */
  lemma {:induction false} FilledShape(h: Hash, pz: Puzzle, tbl: Table, count: nat)
    requires Supported(pz) && TableOK(Level(pz, []), tbl) && count <= Modulus
    ensures TableOK(Level(pz, []), Filled(h, pz, tbl, count))
    decreases count
  {
    if count > 0 {
      var lv := Level(pz, []);
      FilledShape(h, pz, tbl, count - 1);
      var prev := Filled(h, pz, tbl, count - 1);
      var t := LeafTuple(h, pz, count - 1);
      forall l | 0 <= l < |t.blocks|
        ensures t.blocks[l] < TableLength(pz)
      {
        ShrBelow(HashWords(h, pz, count - 1)[l + 1], Width(pz));
      }
      assert TupleOK(lv, t);
    }
  }

  /** An entry of the round being built: one block fewer and a reference into the new row. */
  predicate NextTupleOK(lv: Level, row: seq<Fork>, t: Tuple)
    requires Supported(lv.pz)
  {
    |lv.forks| + 1 + |t.blocks| == lv.pz.k &&
    (forall l :: 0 <= l < |t.blocks| ==> t.blocks[l] < TableLength(lv.pz)) &&
    t.reference < |row|
  }

  predicate RoundOK(lv: Level, cap: nat, rd: Round)
    requires Supported(lv.pz)
  {
    RoundShape(lv, cap, rd) &&
    (|lv.forks| > 0 ==> RowRefsBelow(rd.row, |lv.forks[|lv.forks| - 1]|)) &&
    forall b :: 0 <= b < |rd.table| ==>
      |rd.table[b]| <= ListLength && forall c :: 0 <= c < |rd.table[b]| ==> NextTupleOK(lv, rd.row, rd.table[b][c])
  }

  lemma CollideOK(lv: Level, store: bool, cap: nat, rd: Round, t1: Tuple, t2: Tuple)
    requires LevelOK(lv) && |lv.forks| < lv.pz.k && RoundOK(lv, cap, rd)
    requires TupleOK(lv, t1) && TupleOK(lv, t2)
    ensures RoundOK(lv, cap, Collide(lv, store, cap, rd, t1, t2))
  {
    var r := Collide(lv, store, cap, rd, t1, t2);
    if !store && r != rd {
      var nt := Tuple(XorTail(t1.blocks, t2.blocks), |rd.row|);
      forall l | 0 <= l < |nt.blocks|
        ensures nt.blocks[l] < TableLength(lv.pz)
      {
        XorBelow(t1.blocks[l + 1], t2.blocks[l + 1], Width(lv.pz));
      }
      assert NextTupleOK(lv, r.row, nt);
      forall b, c | 0 <= b < |r.table| && 0 <= c < |r.table[b]|
        ensures NextTupleOK(lv, r.row, r.table[b][c])
      {
        if r.table[b][c] != nt {
          assert NextTupleOK(lv, rd.row, r.table[b][c]);
        }
      }
    }
  }

  lemma {:induction false} PairsOK(lv: Level, store: bool, cap: nat, rd: Round, bkt: seq<Tuple>, j: nat, m: nat)
    requires LevelOK(lv) && |lv.forks| < lv.pz.k && RoundOK(lv, cap, rd)
    requires forall c :: 0 <= c < |bkt| ==> TupleOK(lv, bkt[c])
    ensures RoundOK(lv, cap, PairsFrom(lv, store, cap, rd, bkt, j, m))
    decreases |bkt| - j, |bkt| - m
  {
    if j >= |bkt| {
    } else if m >= |bkt| {
      PairsOK(lv, store, cap, rd, bkt, j + 1, j + 2);
    } else {
      CollideOK(lv, store, cap, rd, bkt[j], bkt[m]);
      PairsOK(lv, store, cap, Collide(lv, store, cap, rd, bkt[j], bkt[m]), bkt, j, m + 1);
    }
  }

  lemma {:induction false} BucketsOK(lv: Level, store: bool, cap: nat, rd: Round, tbl: Table, i: nat)
    requires LevelOK(lv) && |lv.forks| < lv.pz.k && RoundOK(lv, cap, rd) && TableOK(lv, tbl)
    ensures RoundOK(lv, cap, BucketsFrom(lv, store, cap, rd, tbl, i))
    decreases |tbl| - i
  {
    if i < |tbl| {
      PairsOK(lv, store, cap, rd, tbl[i], 0, 1);
      BucketsOK(lv, store, cap, PairsFrom(lv, store, cap, rd, tbl[i], 0, 1), tbl, i + 1);
    }
  }

  /** A round keeps at most 5 entries per bucket and writes at most `uint32(3 * tableLength)`
      forks, and every new entry has one block fewer and a reference into the new row. */
  lemma ResolveOK(lv: Level, store: bool, tbl: Table, sols: seq<Proof>)
    requires LevelOK(lv) && |lv.forks| < lv.pz.k && TableOK(lv, tbl)
    ensures RoundOK(lv, Cap(lv.pz), Resolve(lv, store, tbl, sols))
  {
    BucketsOK(lv, store, Cap(lv.pz), Round(EmptyTable(lv.pz), [], sols), tbl, 0);
  }

  /** Appending the padded row yields a well-formed next level whose table is well shaped. */
  lemma NextLevelOK(lv: Level, rd: Round)
    requires LevelOK(lv) && |lv.forks| < lv.pz.k && RoundOK(lv, Cap(lv.pz), rd)
    ensures var lv' := Level(lv.pz, lv.forks + [PaddedRow(lv.pz, rd.row)]);
            LevelOK(lv') && TableOK(lv', rd.table)
  {
    var row := PaddedRow(lv.pz, rd.row);
    var lv' := Level(lv.pz, lv.forks + [row]);
    if |lv.forks| > 0 {
      assert RowRefsBelow(row, |lv.forks[|lv.forks| - 1]|) by {
        forall c | 0 <= c < |row|
          ensures row[c].ref1 < |lv.forks[|lv.forks| - 1]| && row[c].ref2 < |lv.forks[|lv.forks| - 1]|
        {
          if c >= |rd.row| {
            assert row[c] == Fork(0, 0);
          }
        }
      }
    }
    assert WellFormed(lv'.forks) by {
      forall l | 1 <= l < |lv'.forks|
        ensures RowRefsBelow(lv'.forks[l], |lv'.forks[l - 1]|)
      {
        if l < |lv.forks| {
          assert lv'.forks[l] == lv.forks[l] && lv'.forks[l - 1] == lv.forks[l - 1];
        }
      }
    }
    assert TableOK(lv', rd.table) by {
      forall b, c | 0 <= b < |rd.table| && 0 <= c < |rd.table[b]|
        ensures TupleOK(lv', rd.table[b][c])
      {
        assert NextTupleOK(lv, rd.row, rd.table[b][c]);
      }
    }
  }

  // ----- the rounds of one nonce, and the nonce search of FindProof -----

  datatype State = State(table: Table, forks: seq<seq<Fork>>, solutions: seq<Proof>)

  predicate StateOK(pz: Puzzle, st: State)
  {
    LevelOK(Level(pz, st.forks)) && TableOK(Level(pz, st.forks), st.table)
  }

  /** One `resolveCollisions(store)` call on the solver state: the tables swap and the
      padded row is appended. */
  function NextState(pz: Puzzle, st: State, store: bool): (r: State)
    requires StateOK(pz, st) && |st.forks| < pz.k
    ensures StateOK(pz, r) && |r.forks| == |st.forks| + 1
  {
    var lv := Level(pz, st.forks);
    var rd := Resolve(lv, store, st.table, st.solutions);
    ResolveOK(lv, store, st.table, st.solutions);
    NextLevelOK(lv, rd);
    State(rd.table, st.forks + [PaddedRow(pz, rd.row)], rd.solutions)
  }

  /** Rounds i .. K; round K stores solutions. */
  function RoundsFrom(pz: Puzzle, st: State, i: nat): (r: State)
    requires StateOK(pz, st) && 1 <= i <= pz.k + 1 && |st.forks| == i - 1
    ensures StateOK(pz, r)
    decreases pz.k + 1 - i
  {
    if i > pz.k then st else RoundsFrom(pz, NextState(pz, st, i == pz.k), i + 1)
  }

  lemma RoundsStep(pz: Puzzle, st: State, i: nat)
    requires StateOK(pz, st) && 1 <= i <= pz.k && |st.forks| == i - 1
    ensures RoundsFrom(pz, st, i) == RoundsFrom(pz, NextState(pz, st, i == pz.k), i + 1)
  {
  }

  /** The state after `initializeMemory` and `fillMemory(4 << (n/(k+1) - 1))`. */
  function InitialState(h: Hash, pz: Puzzle): (st: State)
    requires Supported(pz)
    ensures StateOK(pz, st) && st.forks == [] && st.solutions == []
  {
    var tbl := EmptyTable(pz);
    assert TableOK(Level(pz, []), tbl);
    FilledShape(h, pz, tbl, FillLength(pz));
    State(Filled(h, pz, tbl, FillLength(pz)), [], [])
  }

  /** The solutions stored for one nonce. */
  function Solutions(h: Hash, pz: Puzzle): seq<Proof>
    requires Supported(pz)
  {
    RoundsFrom(pz, InitialState(h, pz), 1).solutions
  }

  /** The first solution, from position i, whose sorted inputs have no equal neighbours;
      it is returned with its inputs sorted. */
  function Pick(sols: seq<Proof>, i: nat): Option<Proof>
    decreases |sols| - i
  {
    if i >= |sols| then None
    else
      var v := SortSeq(sols[i].inputs);
      if !HasAdjacentDuplicate(v) then Some(sols[i].(inputs := v)) else Pick(sols, i + 1)
  }

  /** The stored solutions once the selection has looked at positions i, i+1, …: each
      one looked at has its inputs sorted, up to and including the one picked. */
  function Selected(sols: seq<Proof>, i: nat): seq<Proof>
    decreases |sols| - i
  {
    if i >= |sols| then sols
    else
      var v := SortSeq(sols[i].inputs);
      var sorted := sols[i := sols[i].(inputs := v)];
      if !HasAdjacentDuplicate(v) then sorted else Selected(sorted, i + 1)
  }

  /** Selection only sorts inputs in place: it keeps the number of solutions, leaves the
      positions before i alone, and replaces each later one, x, by itself or by itself
      with sorted inputs. */
  lemma {:induction false} SelectedEntries(sols: seq<Proof>, i: nat, x: nat)
    requires x < |sols|
    ensures |Selected(sols, i)| == |sols|
    ensures Selected(sols, i)[x] == sols[x] ||
      (i <= x && Selected(sols, i)[x] == sols[x].(inputs := SortSeq(sols[x].inputs)))
    decreases |sols| - i
  {
    if i < |sols| {
      var v := SortSeq(sols[i].inputs);
      var sorted := sols[i := sols[i].(inputs := v)];
      if HasAdjacentDuplicate(v) {
        SelectedEntries(sorted, i + 1, x);
        assert Selected(sols, i) == Selected(sorted, i + 1);
        if x != i {
          assert sorted[x] == sols[x];
        }
      }
    }
  }

  /** The result of one nonce. */
  function Attempt(h: Hash, pz: Puzzle): Option<Proof>
    requires Supported(pz)
  {
    Pick(Solutions(h, pz), 0)
  }

  /** The outcome of every nonce for fixed N, K and seed. */
  function Attempts(h: Hash, n: u32, k: u32, seed: Seed): u32 -> Option<Proof>
  {
    (x: u32) => if Supported(Puzzle(n, k, seed, x)) then Attempt(h, Puzzle(n, k, seed, x)) else None
  }

  lemma AttemptsAgree(h: Hash, n: u32, k: u32, seed: Seed)
    ensures forall x: u32 :: Supported(Puzzle(n, k, seed, x)) ==> Attempts(h, n, k, seed)(x) == Attempt(h, Puzzle(n, k, seed, x))
  {
  }

  /** The nonce loop of `FindProof` from a given nonce, over the outcome of each nonce:
      try nonce + 1, and so on up to `maxNonce`; without a success the proof has the
      last nonce and no inputs. */
  function SearchFrom(attempt: u32 -> Option<Proof>, n: u32, k: u32, seed: Seed, nonce: u32): Proof
    requires nonce <= MaxNonce
    decreases MaxNonce - nonce
  {
    if nonce < MaxNonce then
      match attempt(nonce + 1)
      case Some(p) => p
      case None => SearchFrom(attempt, n, k, seed, nonce + 1)
    else Proof(n, k, seed, nonce, [])
  }

  /** What `FindProof` returns: the search from nonce 1. */
  function FindProofResult(h: Hash, n: u32, k: u32, seed: Seed): Proof
  {
    SearchFrom(Attempts(h, n, k, seed), n, k, seed, 1)
  }

  // ----- soundness: what the entries mean in terms of the verifier's XOR fold -----

  /** An entry of round r in bucket b, with the indices below it: blocks 0 .. r-1 XOR to 0
      over those indices, block r XORs to the bucket number, and block r+1+l to the
      entry's block l. */
  ghost predicate SoundEntry(h: Hash, pz: Puzzle, leaves: seq<u32>, r: nat, b: nat, t: Tuple)
    requires Supported(pz) && r + |t.blocks| <= pz.k
  {
    (forall j :: 0 <= j < r ==> XorBlocks(h, pz, leaves, j) == 0) &&
    XorBlocks(h, pz, leaves, r) == b &&
    forall l :: 0 <= l < |t.blocks| ==> XorBlocks(h, pz, leaves, r + 1 + l) == t.blocks[l]
  }

  ghost predicate TableSound(h: Hash, lv: Level, tbl: Table)
    requires LevelOK(lv) && TableOK(lv, tbl)
  {
    forall b, c :: 0 <= b < |tbl| && 0 <= c < |tbl[b]| ==>
      SoundEntry(h, lv.pz, LeavesAt(lv.forks, |lv.forks|, tbl[b][c].reference), |lv.forks|, b, tbl[b][c])
  }

  /** A stored solution: the solver's parameters, 2^K inputs, accepted by `ValidateSolution`. */
  ghost predicate SolutionOK(h: Hash, pz: Puzzle, s: Proof)
  {
    s.ToPuzzle() == pz && |s.inputs| == Pow2(pz.k) && Safe(s) && ValidSolution(h, s)
  }

  lemma XorBlocksSingle(h: Hash, pz: Puzzle, x: u32, j: nat)
    requires BlockCount(pz.k) != 0 && j < HashWordCount
    ensures XorBlocks(h, pz, [x], j) == Block(h, pz, x, j)
  {
    assert [x][..0] == [];
    XorZero(Block(h, pz, x, j));
  }

  /** Round 0: an index's entry is sound in its own bucket. */
  lemma LeafSound(h: Hash, pz: Puzzle, index: u32)
    requires Supported(pz)
    ensures SoundEntry(h, pz, [index], 0, BucketOf(h, pz, index), LeafTuple(h, pz, index))
  {
    var t := LeafTuple(h, pz, index);
    XorBlocksSingle(h, pz, index, 0);
    forall l | 0 <= l < |t.blocks|
      ensures XorBlocks(h, pz, [index], 1 + l) == t.blocks[l]
    {
      XorBlocksSingle(h, pz, index, 1 + l);
    }
  }

  lemma {:induction false} FilledSound(h: Hash, pz: Puzzle, tbl: Table, count: nat)
    requires Supported(pz) && TableOK(Level(pz, []), tbl) && count <= Modulus
    requires TableSound(h, Level(pz, []), tbl)
    ensures TableOK(Level(pz, []), Filled(h, pz, tbl, count))
    ensures TableSound(h, Level(pz, []), Filled(h, pz, tbl, count))
    decreases count
  {
    FilledShape(h, pz, tbl, count);
    if count > 0 {
      var lv := Level(pz, []);
      FilledSound(h, pz, tbl, count - 1);
      FilledShape(h, pz, tbl, count - 1);
      var prev: Table := Filled(h, pz, tbl, count - 1);
      var next: Table := Filled(h, pz, tbl, count);
      var t := LeafTuple(h, pz, count - 1);
      var bk := BucketOf(h, pz, count - 1);
      LeafSound(h, pz, count - 1);
      forall b, c | 0 <= b < |next| && 0 <= c < |next[b]|
        ensures SoundEntry(h, pz, LeavesAt([], 0, next[b][c].reference), 0, b, next[b][c])
      {
        if b == bk && c == |prev[b]| {
          assert next[b][c] == t;
        } else {
          assert next[b][c] == prev[b][c];
        }
      }
    }
  }

  /** The expansion of a fork is the leaves of its left entry, then of its right entry. */
  lemma ResolveTreeSplit(forks: seq<seq<Fork>>, f: Fork, r: nat)
    requires WellFormed(forks) && ForkAt(forks, f, r)
    ensures ResolveTreeByLevel(forks, f, r) == LeavesAt(forks, r, f.ref1) + LeavesAt(forks, r, f.ref2)
  {
  }

  /** Rows from `level` onwards are never read by the expansion. */
  lemma {:induction false} ResolveTreeFrame(a: seq<seq<Fork>>, b: seq<seq<Fork>>, f: Fork, level: nat)
    requires WellFormed(a) && WellFormed(b) && ForkAt(a, f, level)
    requires level <= |b| && a[..level] == b[..level]
    ensures ForkAt(b, f, level)
    ensures ResolveTreeByLevel(a, f, level) == ResolveTreeByLevel(b, f, level)
    decreases level
  {
    if level > 0 {
      assert a[level - 1] == a[..level][level - 1] == b[level - 1];
      assert a[..level - 1] == a[..level][..level - 1];
      assert b[..level - 1] == b[..level][..level - 1];
      ResolveTreeFrame(a, b, a[level - 1][f.ref1], level - 1);
      ResolveTreeFrame(a, b, a[level - 1][f.ref2], level - 1);
    }
  }

  /** Two sound entries of one bucket combine into a sound entry of the next round,
      filed under the XOR of their block 0. */
  lemma CombineSound(h: Hash, pz: Puzzle, l1: seq<u32>, l2: seq<u32>, r: nat, b: nat, t1: Tuple, t2: Tuple)
    requires Supported(pz) && 1 <= |t1.blocks| == |t2.blocks| && r + |t1.blocks| <= pz.k
    requires SoundEntry(h, pz, l1, r, b, t1) && SoundEntry(h, pz, l2, r, b, t2)
    ensures SoundEntry(h, pz, l1 + l2, r + 1, Xor(t1.blocks[0], t2.blocks[0]), Tuple(XorTail(t1.blocks, t2.blocks), 0))
  {
    forall j | 0 <= j < r + 1
      ensures XorBlocks(h, pz, l1 + l2, j) == 0
    {
      XorBlocksConcat(h, pz, l1, l2, j);
      if j == r {
        XorSelf(b);
      }
    }
    XorBlocksConcat(h, pz, l1, l2, r + 1);
    var tail := XorTail(t1.blocks, t2.blocks);
    forall l | 0 <= l < |tail|
      ensures XorBlocks(h, pz, l1 + l2, r + 2 + l) == tail[l]
    {
      XorBlocksConcat(h, pz, l1, l2, r + 2 + l);
    }
  }

  /** A sound entry of the last round whose block 0 collides completely gives an accepted
      proof with the solver's parameters. */
  lemma StoredSound(h: Hash, pz: Puzzle, inputs: seq<u32>, r: nat, t: Tuple)
    requires Supported(pz) && r + 1 == pz.k && |t.blocks| == 0 && |inputs| == Pow2(pz.k)
    requires SoundEntry(h, pz, inputs, r + 1, 0, t)
    ensures SolutionOK(h, pz, Proof(pz.n, pz.k, pz.seed, pz.nonce, inputs))
  {
    var p := Proof(pz.n, pz.k, pz.seed, pz.nonce, inputs);
    assert p.ToPuzzle() == pz;
    assert BlockCount(pz.k) == pz.k + 1 <= HashWordCount;
    assert inputs != [];
    forall j | 0 <= j < BlockCount(p.k)
      ensures XorBlocks(h, pz, inputs, j) == 0
    {
      if j < r + 1 {
        assert XorBlocks(h, pz, inputs, j) == 0;
      } else {
        assert j == r + 1 && XorBlocks(h, pz, inputs, r + 1) == 0;
      }
    }
  }

  /** An entry of the round being built is sound over the expansion of its fork. */
  ghost predicate NewEntrySound(h: Hash, lv: Level, row: seq<Fork>, b: nat, t: Tuple)
    requires LevelOK(lv) && |lv.forks| < lv.pz.k && NextTupleOK(lv, row, t)
    requires |lv.forks| > 0 ==> RowRefsBelow(row, |lv.forks[|lv.forks| - 1]|)
  {
    SoundEntry(h, lv.pz, ResolveTreeByLevel(lv.forks, row[t.reference], |lv.forks|), |lv.forks| + 1, b, t)
  }

  /** The round being built is well shaped and sound: each new entry is sound over the
      expansion of its fork, and every stored solution is accepted. */
  ghost predicate RoundSound(h: Hash, lv: Level, cap: nat, rd: Round)
    requires LevelOK(lv) && |lv.forks| < lv.pz.k
  {
    RoundOK(lv, cap, rd) &&
    (forall b, c :: 0 <= b < |rd.table| && 0 <= c < |rd.table[b]| ==> NewEntrySound(h, lv, rd.row, b, rd.table[b][c])) &&
    forall s :: s in rd.solutions ==> SolutionOK(h, lv.pz, s)
  }

  /** The entries of bucket b of the table being collided, sound at their round. */
  ghost predicate BucketSound(h: Hash, lv: Level, b: nat, bkt: seq<Tuple>)
    requires LevelOK(lv) && forall c :: 0 <= c < |bkt| ==> TupleOK(lv, bkt[c])
  {
    forall c :: 0 <= c < |bkt| ==>
      (TupleOK(lv, bkt[c]) &&
       SoundEntry(h, lv.pz, LeavesAt(lv.forks, |lv.forks|, bkt[c].reference), |lv.forks|, b, bkt[c]))
  }

  lemma CollideSound(h: Hash, lv: Level, store: bool, cap: nat, rd: Round, b: nat, t1: Tuple, t2: Tuple)
    requires LevelOK(lv) && |lv.forks| < lv.pz.k && RoundOK(lv, cap, rd)
    requires TupleOK(lv, t1) && TupleOK(lv, t2)
    requires store ==> |lv.forks| + 1 == lv.pz.k
    requires RoundSound(h, lv, cap, rd)
    requires SoundEntry(h, lv.pz, LeavesAt(lv.forks, |lv.forks|, t1.reference), |lv.forks|, b, t1)
    requires SoundEntry(h, lv.pz, LeavesAt(lv.forks, |lv.forks|, t2.reference), |lv.forks|, b, t2)
    ensures RoundSound(h, lv, cap, Collide(lv, store, cap, rd, t1, t2))
  {
    if store {
      StoreSound(h, lv, cap, rd, b, t1, t2);
    } else {
      FileSound(h, lv, cap, rd, b, t1, t2);
    }
  }

  /** The two entries' fork expands to their leaves side by side, over which the collided
      entry is sound one round further. */
  lemma ForkSound(h: Hash, lv: Level, b: nat, t1: Tuple, t2: Tuple)
    requires LevelOK(lv) && |lv.forks| < lv.pz.k
    requires TupleOK(lv, t1) && TupleOK(lv, t2)
    requires SoundEntry(h, lv.pz, LeavesAt(lv.forks, |lv.forks|, t1.reference), |lv.forks|, b, t1)
    requires SoundEntry(h, lv.pz, LeavesAt(lv.forks, |lv.forks|, t2.reference), |lv.forks|, b, t2)
    ensures SoundEntry(h, lv.pz, ResolveTreeByLevel(lv.forks, Fork(t1.reference, t2.reference), |lv.forks|),
                       |lv.forks| + 1, Xor(t1.blocks[0], t2.blocks[0]), Tuple(XorTail(t1.blocks, t2.blocks), 0))
  {
    var forks, level := lv.forks, |lv.forks|;
    var f := Fork(t1.reference, t2.reference);
    var l1, l2 := LeavesAt(forks, level, t1.reference), LeavesAt(forks, level, t2.reference);
    ResolveTreeSplit(forks, f, level);
    assert ResolveTreeByLevel(forks, f, level) == l1 + l2;
    CombineSound(h, lv.pz, l1, l2, level, b, t1, t2);
  }

  /** In the last round, two entries whose blocks XOR to zero give an accepted solution. */
  lemma ForkSolution(h: Hash, lv: Level, b: nat, t1: Tuple, t2: Tuple)
    requires LevelOK(lv) && |lv.forks| + 1 == lv.pz.k
    requires TupleOK(lv, t1) && TupleOK(lv, t2) && Xor(t1.blocks[0], t2.blocks[0]) == 0
    requires SoundEntry(h, lv.pz, LeavesAt(lv.forks, |lv.forks|, t1.reference), |lv.forks|, b, t1)
    requires SoundEntry(h, lv.pz, LeavesAt(lv.forks, |lv.forks|, t2.reference), |lv.forks|, b, t2)
    ensures SolutionOK(h, lv.pz, Proof(lv.pz.n, lv.pz.k, lv.pz.seed, lv.pz.nonce,
                                       ResolveTree(lv.forks, Fork(t1.reference, t2.reference))))
  {
    var leaves := ResolveTree(lv.forks, Fork(t1.reference, t2.reference));
    ForkSound(h, lv, b, t1, t2);
    var t := Tuple(XorTail(t1.blocks, t2.blocks), 0);
    assert |t.blocks| == 0;
    StoredSound(h, lv.pz, leaves, |lv.forks|, t);
  }

  lemma StoreSound(h: Hash, lv: Level, cap: nat, rd: Round, b: nat, t1: Tuple, t2: Tuple)
    requires LevelOK(lv) && |lv.forks| < lv.pz.k && RoundOK(lv, cap, rd)
    requires TupleOK(lv, t1) && TupleOK(lv, t2)
    requires |lv.forks| + 1 == lv.pz.k
    requires RoundSound(h, lv, cap, rd)
    requires SoundEntry(h, lv.pz, LeavesAt(lv.forks, |lv.forks|, t1.reference), |lv.forks|, b, t1)
    requires SoundEntry(h, lv.pz, LeavesAt(lv.forks, |lv.forks|, t2.reference), |lv.forks|, b, t2)
    ensures RoundSound(h, lv, cap, Collide(lv, true, cap, rd, t1, t2))
  {
    CollideOK(lv, true, cap, rd, t1, t2);
    XorBelow(t1.blocks[0], t2.blocks[0], Width(lv.pz));
    if XorU32(t1.blocks[0], t2.blocks[0]) == 0 {
      var pz := lv.pz;
      var s := Proof(pz.n, pz.k, pz.seed, pz.nonce, ResolveTree(lv.forks, Fork(t1.reference, t2.reference)));
      ForkSolution(h, lv, b, t1, t2);
      assert Collide(lv, true, cap, rd, t1, t2) == rd.(solutions := rd.solutions + [s]);
    } else {
      assert Collide(lv, true, cap, rd, t1, t2) == rd;
    }
  }

  lemma FileSound(h: Hash, lv: Level, cap: nat, rd: Round, b: nat, t1: Tuple, t2: Tuple)
    requires LevelOK(lv) && |lv.forks| < lv.pz.k && RoundOK(lv, cap, rd)
    requires TupleOK(lv, t1) && TupleOK(lv, t2)
    requires RoundSound(h, lv, cap, rd)
    requires SoundEntry(h, lv.pz, LeavesAt(lv.forks, |lv.forks|, t1.reference), |lv.forks|, b, t1)
    requires SoundEntry(h, lv.pz, LeavesAt(lv.forks, |lv.forks|, t2.reference), |lv.forks|, b, t2)
    ensures RoundSound(h, lv, cap, Collide(lv, false, cap, rd, t1, t2))
  {
    CollideOK(lv, false, cap, rd, t1, t2);
    var r := Collide(lv, false, cap, rd, t1, t2);
    if r != rd {
      var f := Fork(t1.reference, t2.reference);
      var newIndex := XorU32(t1.blocks[0], t2.blocks[0]);
      var nt := Tuple(XorTail(t1.blocks, t2.blocks), |rd.row|);
      ForkSound(h, lv, b, t1, t2);
      assert r.row[|rd.row|] == f;
      forall b', c | 0 <= b' < |r.table| && 0 <= c < |r.table[b']|
        ensures NewEntrySound(h, lv, r.row, b', r.table[b'][c])
      {
        if b' == newIndex && c == |rd.table[b']| {
          assert r.table[b'][c] == nt;
        } else {
          assert r.table[b'][c] == rd.table[b'][c];
          assert NewEntrySound(h, lv, rd.row, b', rd.table[b'][c]);
          assert r.row[r.table[b'][c].reference] == rd.row[rd.table[b'][c].reference];
        }
      }
    }
  }

  lemma PairStep(h: Hash, lv: Level, store: bool, cap: nat, rd: Round, b: nat, bkt: seq<Tuple>, j: nat, m: nat)
    requires LevelOK(lv) && |lv.forks| < lv.pz.k
    requires forall c :: 0 <= c < |bkt| ==> TupleOK(lv, bkt[c])
    requires store ==> |lv.forks| + 1 == lv.pz.k
    requires RoundSound(h, lv, cap, rd) && BucketSound(h, lv, b, bkt)
    requires j < |bkt| && m < |bkt|
    ensures RoundSound(h, lv, cap, Collide(lv, store, cap, rd, bkt[j], bkt[m]))
  {
    CollideSound(h, lv, store, cap, rd, b, bkt[j], bkt[m]);
  }

  lemma {:induction false} PairsSound(h: Hash, lv: Level, store: bool, cap: nat, rd: Round, b: nat,
                                      bkt: seq<Tuple>, j: nat, m: nat)
    requires LevelOK(lv) && |lv.forks| < lv.pz.k
    requires forall c :: 0 <= c < |bkt| ==> TupleOK(lv, bkt[c])
    requires store ==> |lv.forks| + 1 == lv.pz.k
    requires RoundSound(h, lv, cap, rd) && BucketSound(h, lv, b, bkt)
    ensures RoundSound(h, lv, cap, PairsFrom(lv, store, cap, rd, bkt, j, m))
    decreases |bkt| - j, |bkt| - m, 1
  {
    if j >= |bkt| {
    } else if m >= |bkt| {
      PairsRowDone(lv, store, cap, rd, bkt, j, m);
      PairsSound(h, lv, store, cap, rd, b, bkt, j + 1, j + 2);
    } else {
      PairsSoundNextPair(h, lv, store, cap, rd, b, bkt, j, m);
    }
  }

  lemma {:induction false} PairsSoundNextPair(h: Hash, lv: Level, store: bool, cap: nat, rd: Round, b: nat,
                                              bkt: seq<Tuple>, j: nat, m: nat)
    requires LevelOK(lv) && |lv.forks| < lv.pz.k
    requires forall c :: 0 <= c < |bkt| ==> TupleOK(lv, bkt[c])
    requires store ==> |lv.forks| + 1 == lv.pz.k
    requires RoundSound(h, lv, cap, rd) && BucketSound(h, lv, b, bkt)
    requires j < |bkt| && m < |bkt|
    ensures RoundSound(h, lv, cap, PairsFrom(lv, store, cap, rd, bkt, j, m))
    decreases |bkt| - j, |bkt| - m, 0
  {
    PairStep(h, lv, store, cap, rd, b, bkt, j, m);
    PairsUnfold(lv, store, cap, rd, bkt, j, m);
    var rd' := Collide(lv, store, cap, rd, bkt[j], bkt[m]);
    PairsSound(h, lv, store, cap, rd', b, bkt, j, m + 1);
  }

  lemma {:induction false} BucketsSound(h: Hash, lv: Level, store: bool, cap: nat, rd: Round, tbl: Table, i: nat)
    requires LevelOK(lv) && |lv.forks| < lv.pz.k && TableOK(lv, tbl)
    requires store ==> |lv.forks| + 1 == lv.pz.k
    requires RoundSound(h, lv, cap, rd) && TableSound(h, lv, tbl)
    ensures RoundSound(h, lv, cap, BucketsFrom(lv, store, cap, rd, tbl, i))
    decreases |tbl| - i
  {
    if i < |tbl| {
      assert BucketSound(h, lv, i, tbl[i]);
      PairsSound(h, lv, store, cap, rd, i, tbl[i], 0, 1);
      BucketsSound(h, lv, store, cap, PairsFrom(lv, store, cap, rd, tbl[i], 0, 1), tbl, i + 1);
    }
  }

  /** Solver state: the table is sound at its round and every stored solution is accepted. */
  ghost predicate StateSound(h: Hash, pz: Puzzle, st: State)
    requires StateOK(pz, st)
  {
    TableSound(h, Level(pz, st.forks), st.table) && forall s :: s in st.solutions ==> SolutionOK(h, pz, s)
  }

  /** A `resolveCollisions` call keeps the solver state sound; the last round's solutions
      are accepted by the verifier. */
  lemma NextStateSound(h: Hash, pz: Puzzle, st: State, store: bool)
    requires StateOK(pz, st) && |st.forks| < pz.k && (store ==> |st.forks| + 1 == pz.k)
    requires StateSound(h, pz, st)
    ensures StateSound(h, pz, NextState(pz, st, store))
  {
    var lv := Level(pz, st.forks);
    var cap := Cap(pz);
    var rd0 := Round(EmptyTable(pz), [], st.solutions);
    BucketsSound(h, lv, store, cap, rd0, st.table, 0);
    var rd := Resolve(lv, store, st.table, st.solutions);
    assert RoundSound(h, lv, cap, rd);
    NextLevelOK(lv, rd);
    var forks' := st.forks + [PaddedRow(pz, rd.row)];
    var level := |st.forks|;
    forall b, c | 0 <= b < |rd.table| && 0 <= c < |rd.table[b]|
      ensures SoundEntry(h, pz, LeavesAt(forks', level + 1, rd.table[b][c].reference), level + 1, b, rd.table[b][c])
    {
      EntryLifted(h, lv, rd, b, c);
    }
    assert NextState(pz, st, store) == State(rd.table, forks', rd.solutions);
  }

  /** An entry of a finished round is sound over the fork row appended for it. */
  lemma EntryLifted(h: Hash, lv: Level, rd: Round, b: nat, c: nat)
    requires LevelOK(lv) && |lv.forks| < lv.pz.k && RoundSound(h, lv, Cap(lv.pz), rd)
    requires b < |rd.table| && c < |rd.table[b]|
    ensures var forks' := lv.forks + [PaddedRow(lv.pz, rd.row)];
      LevelOK(Level(lv.pz, forks')) && TableOK(Level(lv.pz, forks'), rd.table) &&
      SoundEntry(h, lv.pz, LeavesAt(forks', |lv.forks| + 1, rd.table[b][c].reference), |lv.forks| + 1, b, rd.table[b][c])
  {
    NextLevelOK(lv, rd);
    var forks' := lv.forks + [PaddedRow(lv.pz, rd.row)];
    var level := |lv.forks|;
    var ref := rd.table[b][c].reference;
    assert NewEntrySound(h, lv, rd.row, b, rd.table[b][c]);
    assert forks'[level][ref] == rd.row[ref];
    assert forks'[..level] == lv.forks[..level];
    ResolveTreeFrame(lv.forks, forks', rd.row[ref], level);
  }

  lemma {:induction false} RoundsSound(h: Hash, pz: Puzzle, st: State, i: nat)
    requires StateOK(pz, st) && 1 <= i <= pz.k + 1 && |st.forks| == i - 1
    requires StateSound(h, pz, st)
    ensures StateSound(h, pz, RoundsFrom(pz, st, i))
    decreases pz.k + 1 - i
  {
    if i <= pz.k {
      NextStateSound(h, pz, st, i == pz.k);
      RoundsSound(h, pz, NextState(pz, st, i == pz.k), i + 1);
    }
  }

  /** Every solution stored for a nonce has the solver's parameters and 2^K inputs, and is
      accepted by `ValidateSolution` under the same hash function. */
  lemma SolutionsSound(h: Hash, pz: Puzzle)
    requires Supported(pz)
    ensures forall s :: s in Solutions(h, pz) ==> SolutionOK(h, pz, s)
  {
    var tbl := EmptyTable(pz);
    assert TableOK(Level(pz, []), tbl);
    FilledSound(h, pz, tbl, FillLength(pz));
    RoundsSound(h, pz, InitialState(h, pz), 1);
  }

  /** Every stored solution has 2^K inputs, so the duplicate scan of `FindProof` never
      meets an empty list. */
  lemma SolutionsHaveInputs(h: Hash, pz: Puzzle)
    requires Supported(pz)
    ensures forall x :: 0 <= x < |Solutions(h, pz)| ==> |Solutions(h, pz)[x].inputs| == Pow2(pz.k)
  {
    SolutionsSound(h, pz);
    var sols := Solutions(h, pz);
    forall x | 0 <= x < |sols|
      ensures |sols[x].inputs| == Pow2(pz.k)
    {
      assert sols[x] in sols;
    }
  }

  /** What `FindProof` returns for a nonce that succeeds. */
  ghost predicate Found(h: Hash, pz: Puzzle, p: Proof)
  {
    SolutionOK(h, pz, p) && StrictlyAscending(p.inputs)
  }

  lemma {:induction false} PickFound(h: Hash, pz: Puzzle, sols: seq<Proof>, i: nat)
    requires forall s :: s in sols ==> SolutionOK(h, pz, s)
    ensures Pick(sols, i).Some? ==> Found(h, pz, Pick(sols, i).value)
    decreases |sols| - i
  {
    if i < |sols| {
      var v := SortSeq(sols[i].inputs);
      if !HasAdjacentDuplicate(v) {
        assert sols[i] in sols;
        var q := sols[i].(inputs := v);
        ValidSolutionIgnoresOrder(h, sols[i], q);
        SortedDistinct(v);
      } else {
        PickFound(h, pz, sols, i + 1);
      }
    }
  }

  /** Solver/verifier agreement for one nonce: a returned proof carries the solver's
      parameters, has 2^K strictly ascending inputs and is accepted by `ValidateSolution`. */
  lemma AttemptFound(h: Hash, pz: Puzzle)
    requires Supported(pz)
    ensures Attempt(h, pz).Some? ==> Found(h, pz, Attempt(h, pz).value)
  {
    SolutionsSound(h, pz);
    PickFound(h, pz, Solutions(h, pz), 0);
  }

  /** The nonce search: a non-empty result is the outcome of the first nonce after
      `nonce` that succeeds; an empty one carries `maxNonce` and every nonce up to it
      failed. */
  lemma {:induction false} SearchFromSpec(attempt: u32 -> Option<Proof>, n: u32, k: u32, seed: Seed, nonce: u32)
    requires nonce <= MaxNonce
    requires forall x: u32 :: attempt(x).Some? ==> attempt(x).value.inputs != [] && attempt(x).value.nonce == x
    ensures var p := SearchFrom(attempt, n, k, seed, nonce);
      nonce <= p.nonce <= MaxNonce &&
      (forall x: u32 :: nonce < x < p.nonce ==> attempt(x).None?) &&
      (p.inputs != [] ==> nonce < p.nonce && attempt(p.nonce) == Some(p)) &&
      (p.inputs == [] ==> p.n == n && p.k == k && p.seed == seed && p.nonce == MaxNonce &&
                          (nonce < MaxNonce ==> attempt(MaxNonce).None?))
    decreases MaxNonce - nonce
  {
    var p := SearchFrom(attempt, n, k, seed, nonce);
    if nonce < MaxNonce {
      if attempt(nonce + 1).None? {
        SearchFromSpec(attempt, n, k, seed, nonce + 1);
        forall x: u32 | nonce < x < p.nonce
          ensures attempt(x).None?
        {
        }
      }
    }
  }

  /** Every outcome of a nonce is a proof for that nonce with 2^K inputs, strictly
      ascending and accepted by `ValidateSolution`. */
  lemma AttemptsFound(h: Hash, n: u32, k: u32, seed: Seed)
    requires Supported(Puzzle(n, k, seed, 1))
    ensures forall x: u32 :: Attempts(h, n, k, seed)(x).Some? ==>
      Attempts(h, n, k, seed)(x).value.inputs != [] && Attempts(h, n, k, seed)(x).value.nonce == x &&
      Found(h, Puzzle(n, k, seed, x), Attempts(h, n, k, seed)(x).value)
  {
    forall x: u32 | Attempts(h, n, k, seed)(x).Some?
      ensures Attempts(h, n, k, seed)(x).value.inputs != [] && Attempts(h, n, k, seed)(x).value.nonce == x
      ensures Found(h, Puzzle(n, k, seed, x), Attempts(h, n, k, seed)(x).value)
    {
      AttemptFound(h, Puzzle(n, k, seed, x));
      assert Pow2(k) >= 1;
    }
  }

  /** Solver/verifier agreement: a non-empty `FindProof` result has the solver's N, K and
      seed, a nonce in 2 .. maxNonce whose attempt it is, 2^K strictly ascending inputs,
      and is accepted by `ValidateSolution`. */
  lemma FindProofSound(h: Hash, n: u32, k: u32, seed: Seed)
    requires Supported(Puzzle(n, k, seed, 1))
    ensures var p := FindProofResult(h, n, k, seed);
      p.inputs != [] ==>
        p.n == n && p.k == k && p.seed == seed && 2 <= p.nonce <= MaxNonce &&
        |p.inputs| == Pow2(k) && StrictlyAscending(p.inputs) && ValidSolution(h, p)
  {
    var attempt := Attempts(h, n, k, seed);
    AttemptsFound(h, n, k, seed);
    SearchFromSpec(attempt, n, k, seed, 1);
    var p := FindProofResult(h, n, k, seed);
    if p.inputs != [] {
      assert attempt(p.nonce) == Some(p);
      assert Found(h, Puzzle(n, k, seed, p.nonce), p);
    }
  }

  /** The search is the first success: every nonce from 2 below the result's failed, and
      an empty result carries the solver's N, K and seed and `maxNonce`, every nonce up
      to `maxNonce` having failed. */
  lemma FindProofFirst(h: Hash, n: u32, k: u32, seed: Seed)
    requires Supported(Puzzle(n, k, seed, 1))
    ensures var p := FindProofResult(h, n, k, seed);
      (forall x: u32 :: 1 < x < p.nonce ==> Attempt(h, Puzzle(n, k, seed, x)).None?) &&
      (p.inputs != [] ==> Attempt(h, Puzzle(n, k, seed, p.nonce)) == Some(p)) &&
      (p.inputs == [] ==> p == Proof(n, k, seed, MaxNonce, []) && Attempt(h, Puzzle(n, k, seed, MaxNonce)).None?)
  {
    var attempt := Attempts(h, n, k, seed);
    AttemptsFound(h, n, k, seed);
    SearchFromSpec(attempt, n, k, seed, 1);
    var p := FindProofResult(h, n, k, seed);
    forall x: u32 | 1 < x < p.nonce
      ensures Attempt(h, Puzzle(n, k, seed, x)).None?
    {
      assert attempt(x).None?;
    }
    if p.inputs != [] {
      assert attempt(p.nonce) == Some(p);
    } else {
      assert attempt(MaxNonce).None?;
    }
  }

  // ----- what fillMemory and resolveCollisions write -----

  /** After `fillMemory` on an empty table, entry c of bucket b is the entry of an index
      below the count whose hash word 0 selects bucket b. */
  lemma {:induction false} FilledEntry(h: Hash, pz: Puzzle, count: nat, b: nat, c: nat)
    requires Supported(pz) && count <= Modulus
    requires b < TableLength(pz) && c < |Filled(h, pz, EmptyTable(pz), count)[b]|
    ensures var t := Filled(h, pz, EmptyTable(pz), count)[b][c];
      t == LeafTuple(h, pz, t.reference) && t.reference < count && BucketOf(h, pz, t.reference) == b
    decreases count
  {
    if count > 0 {
      var prev: Table := Filled(h, pz, EmptyTable(pz), count - 1);
      var bk := BucketOf(h, pz, count - 1);
      if b == bk && c == |prev[b]| {
        assert Filled(h, pz, EmptyTable(pz), count)[b][c] == LeafTuple(h, pz, count - 1);
      } else {
        assert Filled(h, pz, EmptyTable(pz), count)[b][c] == prev[b][c];
        FilledEntry(h, pz, count - 1, b, c);
      }
    }
  }

  lemma FilledEntries(h: Hash, pz: Puzzle, count: nat)
    requires Supported(pz) && count <= Modulus
    ensures var tbl := Filled(h, pz, EmptyTable(pz), count);
      forall b, c :: 0 <= b < |tbl| && 0 <= c < |tbl[b]| ==>
        tbl[b][c] == LeafTuple(h, pz, tbl[b][c].reference) &&
        tbl[b][c].reference < count && BucketOf(h, pz, tbl[b][c].reference) == b
  {
    var tbl: Table := Filled(h, pz, EmptyTable(pz), count);
    forall b, c | 0 <= b < |tbl| && 0 <= c < |tbl[b]|
      ensures tbl[b][c] == LeafTuple(h, pz, tbl[b][c].reference)
      ensures tbl[b][c].reference < count && BucketOf(h, pz, tbl[b][c].reference) == b
    {
      FilledEntry(h, pz, count, b, c);
    }
  }

  /** Earlier indices are never overwritten: each bucket only grows at its end. */
  lemma {:induction false} FilledGrows(h: Hash, pz: Puzzle, tbl: Table, c1: nat, c2: nat, b: nat)
    requires Supported(pz) && |tbl| == TableLength(pz) && c1 <= c2 <= Modulus && b < |tbl|
    ensures Filled(h, pz, tbl, c1)[b] <= Filled(h, pz, tbl, c2)[b]
    decreases c2 - c1
  {
    if c1 < c2 {
      FilledGrows(h, pz, tbl, c1, c2 - 1, b);
    }
  }

  /** Indices arriving at a full bucket are dropped: a bucket holding `listLength` entries
      never changes again. */
  lemma {:induction false} FullBucketFrozen(h: Hash, pz: Puzzle, tbl: Table, c1: nat, c2: nat, b: nat)
    requires Supported(pz) && |tbl| == TableLength(pz) && c1 <= c2 <= Modulus && b < |tbl|
    requires |Filled(h, pz, tbl, c1)[b]| >= ListLength
    ensures Filled(h, pz, tbl, c2)[b] == Filled(h, pz, tbl, c1)[b]
    decreases c2 - c1
  {
    if c1 < c2 {
      FullBucketFrozen(h, pz, tbl, c1, c2 - 1, b);
    }
  }

  /** An index lands in its bucket exactly when the bucket is not yet full. */
  lemma FilledLands(h: Hash, pz: Puzzle, tbl: Table, i: u32)
    requires Supported(pz) && |tbl| == TableLength(pz) && i < Modulus - 1
    ensures var before := Filled(h, pz, tbl, i)[BucketOf(h, pz, i)];
            var after := Filled(h, pz, tbl, i + 1)[BucketOf(h, pz, i)];
            (|before| < ListLength ==> after == before + [LeafTuple(h, pz, i)]) &&
            (|before| >= ListLength ==> after == before)
  {
  }

  /** The number of entries in a table. */
  function Count(tbl: Table): nat
  {
    if tbl == [] then 0 else Count(tbl[..|tbl| - 1]) + |tbl[|tbl| - 1]|
  }

  lemma {:induction false} CountAppend(tbl: Table, b: nat, t: Tuple)
    requires b < |tbl|
    ensures Count(tbl[b := tbl[b] + [t]]) == Count(tbl) + 1
    decreases |tbl|
  {
    var tbl' := tbl[b := tbl[b] + [t]];
    if b < |tbl| - 1 {
      assert tbl'[..|tbl'| - 1] == tbl[..|tbl| - 1][b := tbl[b] + [t]];
      CountAppend(tbl[..|tbl| - 1], b, t);
    } else {
      assert tbl'[..|tbl'| - 1] == tbl[..|tbl| - 1];
    }
  }

  lemma {:induction false} CountEmpty(tbl: Table)
    requires forall b :: 0 <= b < |tbl| ==> tbl[b] == []
    ensures Count(tbl) == 0
    decreases |tbl|
  {
    if tbl != [] {
      CountEmpty(tbl[..|tbl| - 1]);
    }
  }

  /** t was filed for the pair t1 (earlier) and t2 of one bucket: f is their fork, b the XOR
      of their block 0, and t's block l the XOR of their block l + 1. */
  predicate Parents(t1: Tuple, t2: Tuple, f: Fork, b: nat, t: Tuple)
  {
    1 <= |t1.blocks| == |t2.blocks| && f == Fork(t1.reference, t2.reference) &&
    b == Xor(t1.blocks[0], t2.blocks[0]) && t.blocks == XorTail(t1.blocks, t2.blocks)
  }

  ghost predicate HasParents(tbl: Table, f: Fork, b: nat, t: Tuple)
  {
    exists i, j, m :: 0 <= i < |tbl| && 0 <= j < m < |tbl[i]| && Parents(tbl[i][j], tbl[i][m], f, b, t)
  }

  /** The round being built from `tbl`: one fork per new entry, each entry's fork is at the
      position its reference names and comes from a pair of one bucket of `tbl`; the last
      round files nothing. */
  ghost predicate RoundTrace(tbl: Table, store: bool, rd: Round)
  {
    Count(rd.table) == |rd.row| &&
    (forall b, c :: 0 <= b < |rd.table| && 0 <= c < |rd.table[b]| ==>
      rd.table[b][c].reference < |rd.row| && HasParents(tbl, rd.row[rd.table[b][c].reference], b, rd.table[b][c])) &&
    (store ==> rd.row == [] && Count(rd.table) == 0)
  }

  lemma CollideTrace(lv: Level, store: bool, cap: nat, rd: Round, tbl: Table, i: nat, j: nat, m: nat)
    requires LevelOK(lv) && |lv.forks| < lv.pz.k && RoundShape(lv, cap, rd) && TableOK(lv, tbl)
    requires i < |tbl| && j < m < |tbl[i]|
    requires RoundTrace(tbl, store, rd)
    ensures RoundTrace(tbl, store, Collide(lv, store, cap, rd, tbl[i][j], tbl[i][m]))
  {
    var t1, t2 := tbl[i][j], tbl[i][m];
    var r := Collide(lv, store, cap, rd, t1, t2);
    if !store && r != rd {
      var newIndex := XorU32(t1.blocks[0], t2.blocks[0]);
      var nt := Tuple(XorTail(t1.blocks, t2.blocks), |rd.row|);
      var f := Fork(t1.reference, t2.reference);
      XorBelow(t1.blocks[0], t2.blocks[0], Width(lv.pz));
      CountAppend(rd.table, newIndex, nt);
      assert Parents(tbl[i][j], tbl[i][m], f, newIndex, nt);
      forall b, c | 0 <= b < |r.table| && 0 <= c < |r.table[b]|
        ensures r.table[b][c].reference < |r.row| && HasParents(tbl, r.row[r.table[b][c].reference], b, r.table[b][c])
      {
        if b == newIndex && c == |rd.table[b]| {
          assert r.table[b][c] == nt && r.row[nt.reference] == f;
        } else {
          assert r.table[b][c] == rd.table[b][c];
          assert r.row[r.table[b][c].reference] == rd.row[rd.table[b][c].reference];
        }
      }
    }
  }

  lemma {:induction false} PairsTrace(lv: Level, store: bool, cap: nat, rd: Round, tbl: Table, i: nat, j: nat, m: nat)
    requires LevelOK(lv) && |lv.forks| < lv.pz.k && RoundShape(lv, cap, rd) && TableOK(lv, tbl)
    requires i < |tbl| && j < m
    requires RoundTrace(tbl, store, rd)
    ensures RoundTrace(tbl, store, PairsFrom(lv, store, cap, rd, tbl[i], j, m))
    decreases |tbl[i]| - j, |tbl[i]| - m
  {
    if j >= |tbl[i]| {
    } else if m >= |tbl[i]| {
      PairsTrace(lv, store, cap, rd, tbl, i, j + 1, j + 2);
    } else {
      CollideTrace(lv, store, cap, rd, tbl, i, j, m);
      PairsTrace(lv, store, cap, Collide(lv, store, cap, rd, tbl[i][j], tbl[i][m]), tbl, i, j, m + 1);
    }
  }

  lemma {:induction false} BucketsTrace(lv: Level, store: bool, cap: nat, rd: Round, tbl: Table, i: nat)
    requires LevelOK(lv) && |lv.forks| < lv.pz.k && RoundShape(lv, cap, rd) && TableOK(lv, tbl)
    requires RoundTrace(tbl, store, rd)
    ensures RoundTrace(tbl, store, BucketsFrom(lv, store, cap, rd, tbl, i))
    decreases |tbl| - i
  {
    if i < |tbl| {
      PairsTrace(lv, store, cap, rd, tbl, i, 0, 1);
      BucketsTrace(lv, store, cap, PairsFrom(lv, store, cap, rd, tbl[i], 0, 1), tbl, i + 1);
    }
  }

  /** A round creates one fork per new entry, at most `uint32(3 * tableLength)` in all and
      at most 5 per bucket; each new entry is filed under the XOR of block 0 of two entries
      of one bucket, its blocks are the XOR of theirs from block 1 on (one fewer), and its
      reference is the position of their fork in the new row. The last round files nothing. */
  lemma ResolveTrace(lv: Level, store: bool, tbl: Table, sols: seq<Proof>)
    requires LevelOK(lv) && |lv.forks| < lv.pz.k && TableOK(lv, tbl)
    ensures var rd := Resolve(lv, store, tbl, sols);
      RoundTrace(tbl, store, rd) && RoundOK(lv, Cap(lv.pz), rd) &&
      Count(rd.table) <= ForkMultiplier * TableLength(lv.pz)
  {
    CountEmpty(EmptyTable(lv.pz));
    BucketsTrace(lv, store, Cap(lv.pz), Round(EmptyTable(lv.pz), [], sols), tbl, 0);
    ResolveOK(lv, store, tbl, sols);
  }
}
