/** The Equihash proof and its verifier (`internal/pkg/pow/equihash/pow.go`).
    BLAKE2b-256 is not modelled: every member takes it as a parameter `h`, so every
    property here holds for whatever 32-byte digest function is plugged in. */
module Pow {
  import opened Uint32
  import opened Convert
  import opened Model

  const SeedLength: nat := 4
  /** Width in bits of one hash word; also the largest meaningful block width. */
  const MaxN: nat := 32
  /** Number of 32-bit words in a BLAKE2b-256 digest. */
  const HashWordCount: nat := 8

  type Seed = s: seq<u32> | |s| == SeedLength witness [0, 0, 0, 0]
  type Digest = s: seq<byte> | |s| == 32 witness seq(32, _ => 0)
  /** BLAKE2b-256 over a byte string. */
  type Hash = seq<byte> -> Digest

  /** The parameters one solving attempt and one verification share. */
  datatype Puzzle = Puzzle(n: u32, k: u32, seed: Seed, nonce: u32)

  /** `equihash.Proof`. */
  datatype Proof = Proof(n: u32, k: u32, seed: Seed, nonce: u32, inputs: seq<u32>)
  {
    function ToPuzzle(): Puzzle
    {
      Puzzle(n, k, seed, nonce)
    }
  }

  /** `K + 1` computed in uint32 (it wraps to 0 for K = 2^32 - 1). */
  function BlockCount(k: u32): u32
  {
    Wrap(k + 1)
  }

  /** The block width N / (K + 1). */
  function Width(pz: Puzzle): nat
    requires BlockCount(pz.k) != 0
  {
    pz.n / BlockCount(pz.k)
  }

  /** The shift count `32 - N/(K+1)` computed in uint32. */
  function BlockShift(pz: Puzzle): u32
    requires BlockCount(pz.k) != 0
  {
    Wrap(32 - Width(pz))
  }

  /** The six words hashed for an index: Seed[0..3], Nonce, index. */
  function HashInput(pz: Puzzle, index: u32): seq<u32>
  {
    pz.seed + [pz.nonce, index]
  }

  /** The eight little-endian words of the digest of the hash input. */
  function HashWords(h: Hash, pz: Puzzle, index: u32): (w: seq<u32>)
    ensures |w| == HashWordCount
  {
    DecodeLE(h(EncodeLE(HashInput(pz, index))))
  }

  /** Block j of an index: the top N/(K+1) bits of hash word j. */
  function Block(h: Hash, pz: Puzzle, index: u32, j: nat): u32
    requires BlockCount(pz.k) != 0 && j < HashWordCount
  {
    Shr(HashWords(h, pz, index)[j], BlockShift(pz))
  }

  /** Block j XORed over a list of indices, in list order. */
  function XorBlocks(h: Hash, pz: Puzzle, indices: seq<u32>, j: nat): u32
    requires BlockCount(pz.k) != 0 && j < HashWordCount
  {
    if indices == [] then 0
    else XorU32(XorBlocks(h, pz, indices[..|indices| - 1], j), Block(h, pz, indices[|indices| - 1], j))
  }

  /** The inputs on which `ValidateSolution` runs without indexing past the 8-word digest. */
  predicate Safe(p: Proof)
  {
    p.inputs == [] || BlockCount(p.k) <= HashWordCount
  }

  /** What `ValidateSolution` accepts: a non-empty index list whose K+1 blocks all XOR to 0. */
  predicate ValidSolution(h: Hash, p: Proof)
    requires Safe(p)
  {
    p.inputs != [] &&
    forall j :: 0 <= j < BlockCount(p.k) ==> XorBlocks(h, p.ToPuzzle(), p.inputs, j) == 0
  }

  /** One pass of the inner loop of `ValidateSolution`: `blocks[j] ^= buf[j] >> shift`. */
  method XorInto(blocks: array<u32>, buf: seq<u32>, shift: u32)
    requires blocks.Length <= |buf|
    modifies blocks
    ensures forall j :: 0 <= j < blocks.Length ==> blocks[j] == Xor(old(blocks[j]), Shr(buf[j], shift))
  {
    for j := 0 to blocks.Length
      invariant forall j' :: 0 <= j' < j ==> blocks[j'] == Xor(old(blocks[j']), Shr(buf[j'], shift))
      invariant forall j' :: j <= j' < blocks.Length ==> blocks[j'] == old(blocks[j'])
    {
      blocks[j] := XorU32(blocks[j], Shr(buf[j], shift));
    }
  }

  /** Whether every block is 0 (the final loop of `ValidateSolution`). */
  method AllZero(blocks: array<u32>) returns (ok: bool)
    ensures ok == forall j :: 0 <= j < blocks.Length ==> blocks[j] == 0
  {
    for j := 0 to blocks.Length
      invariant forall j' :: 0 <= j' < j ==> blocks[j'] == 0
    {
      if blocks[j] != 0 {
        return false;
      }
    }
    return true;
  }

  /** The body of the outer loop of `ValidateSolution`: hash one more index and fold
      its blocks into the accumulator. */
  method AccumulateIndex(blocks: array<u32>, h: Hash, pz: Puzzle, done: seq<u32>, index: u32)
    requires blocks.Length == BlockCount(pz.k) <= HashWordCount
    requires forall j :: 0 <= j < blocks.Length ==> blocks[j] == XorBlocks(h, pz, done, j)
    modifies blocks
    ensures forall j :: 0 <= j < blocks.Length ==> blocks[j] == XorBlocks(h, pz, done + [index], j)
  {
    var input := HashInput(pz, index);
    var bytes := Uint32ArrayToBytes(input);
    var buf := BytesToUint32Array(h(bytes));
    assert buf == HashWords(h, pz, index);
    assert (done + [index])[..|done|] == done;
    if blocks.Length > 0 {
      XorInto(blocks, buf, Wrap(32 - pz.n / BlockCount(pz.k)));
    }
  }

  /** `Proof.ValidateSolution`: XOR-accumulate each index's blocks, then check every block is 0. */
  method ValidateSolution(p: Proof, h: Hash) returns (ok: bool)
    requires Safe(p)
    ensures p.inputs == [] ==> !ok
    ensures ok == ValidSolution(h, p)
  {
    var pz := p.ToPuzzle();
    var blocks := new u32[BlockCount(p.k)](_ => 0);
    if |p.inputs| == 0 {
      return false;
    }
    for i := 0 to |p.inputs|
      invariant forall j :: 0 <= j < blocks.Length ==> blocks[j] == XorBlocks(h, pz, p.inputs[..i], j)
    {
      assert p.inputs[..i + 1] == p.inputs[..i] + [p.inputs[i]];
      AccumulateIndex(blocks, h, pz, p.inputs[..i], p.inputs[i]);
    }
    assert p.inputs[..|p.inputs|] == p.inputs;
    ok := AllZero(blocks);
    if ok {
      forall j | 0 <= j < BlockCount(p.k)
        ensures XorBlocks(h, pz, p.inputs, j) == 0
      {
        assert blocks[j] == 0;
      }
    } else {
      var j :| 0 <= j < blocks.Length && blocks[j] != 0;
      assert XorBlocks(h, pz, p.inputs, j) != 0;
    }
  }

  // ----- properties of the XOR fold -----

  lemma {:induction false} XorBlocksConcat(h: Hash, pz: Puzzle, a: seq<u32>, b: seq<u32>, j: nat)
    requires BlockCount(pz.k) != 0 && j < HashWordCount
    ensures XorBlocks(h, pz, a + b, j) == Xor(XorBlocks(h, pz, a, j), XorBlocks(h, pz, b, j))
    decreases |b|
  {
    if b == [] {
      assert a + b == a;
      XorZero(XorBlocks(h, pz, a, j));
    } else {
      var b' := b[..|b| - 1];
      assert (a + b)[..|a + b| - 1] == a + b';
      XorBlocksConcat(h, pz, a, b', j);
      XorAssoc(XorBlocks(h, pz, a, j), XorBlocks(h, pz, b', j), Block(h, pz, b[|b| - 1], j));
    }
  }

  /** The fold depends only on the multiset of indices, not on their order. */
  lemma {:induction false} XorBlocksPermutation(h: Hash, pz: Puzzle, s: seq<u32>, t: seq<u32>, j: nat)
    requires BlockCount(pz.k) != 0 && j < HashWordCount
    requires multiset(s) == multiset(t)
    ensures XorBlocks(h, pz, s, j) == XorBlocks(h, pz, t, j)
    decreases |s|
  {
    if s == [] {
      assert t == [] by { assert |t| == |multiset(t)|; }
    } else {
      var x := s[|s| - 1];
      var s' := s[..|s| - 1];
      assert s == s' + [x];
      assert x in multiset(t);
      var i :| 0 <= i < |t| && t[i] == x;
      var t1, t2 := t[..i], t[i + 1..];
      assert t == t1 + [x] + t2;
      assert multiset(s') == multiset(t1 + t2) by {
        assert multiset(s) == multiset(s') + multiset{x};
        assert multiset(t) == multiset(t1) + multiset{x} + multiset(t2);
        assert multiset(t1 + t2) == multiset(t1) + multiset(t2);
        assert multiset(s') == multiset(s) - multiset{x};
        assert multiset(t1 + t2) == multiset(t) - multiset{x};
      }
      XorBlocksPermutation(h, pz, s', t1 + t2, j);
      var a, bx, c := XorBlocks(h, pz, t1, j), Block(h, pz, x, j), XorBlocks(h, pz, t2, j);
      XorBlocksConcat(h, pz, t1 + [x], t2, j);
      XorBlocksConcat(h, pz, t1, [x], j);
      XorBlocksConcat(h, pz, t1, t2, j);
      assert XorBlocks(h, pz, [x], j) == bx by {
        assert [x][..0] == [];
        XorZero(bx);
      }
      XorAssoc(a, bx, c);
      XorComm(bx, c);
      XorAssoc(a, c, bx);
    }
  }

  /** The verdict is independent of the order of the inputs. */
  lemma ValidSolutionIgnoresOrder(h: Hash, p: Proof, q: Proof)
    requires Safe(p)
    requires q == p.(inputs := q.inputs) && multiset(q.inputs) == multiset(p.inputs)
    ensures Safe(q) && ValidSolution(h, q) == ValidSolution(h, p)
  {
    assert |q.inputs| == |multiset(q.inputs)| == |p.inputs|;
    if p.inputs != [] {
      forall j | 0 <= j < BlockCount(p.k)
        ensures XorBlocks(h, q.ToPuzzle(), q.inputs, j) == XorBlocks(h, p.ToPuzzle(), p.inputs, j)
      {
        XorBlocksPermutation(h, p.ToPuzzle(), q.inputs, p.inputs, j);
      }
    }
  }

  lemma XorBlocksPair(h: Hash, pz: Puzzle, s: seq<u32>, x: u32, j: nat)
    requires BlockCount(pz.k) != 0 && j < HashWordCount
    ensures XorBlocks(h, pz, s + [x, x], j) == XorBlocks(h, pz, s, j)
  {
    var b := Block(h, pz, x, j);
    assert (s + [x, x])[..|s| + 1] == s + [x];
    assert (s + [x])[..|s|] == s;
    XorAssoc(XorBlocks(h, pz, s, j), b, b);
    XorSelf(b);
    XorZero(XorBlocks(h, pz, s, j));
  }

  /** No distinctness check: an index appended twice cancels out of every block. */
  lemma DuplicatePairCancels(h: Hash, p: Proof, x: u32)
    requires Safe(p) && p.inputs != []
    ensures var q := p.(inputs := p.inputs + [x, x]);
            Safe(q) && ValidSolution(h, q) == ValidSolution(h, p)
  {
    var q := p.(inputs := p.inputs + [x, x]);
    assert q.ToPuzzle() == p.ToPuzzle();
    forall j | 0 <= j < BlockCount(p.k)
      ensures XorBlocks(h, q.ToPuzzle(), q.inputs, j) == XorBlocks(h, p.ToPuzzle(), p.inputs, j)
    {
      XorBlocksPair(h, p.ToPuzzle(), p.inputs, x, j);
    }
  }

  /** Hence a proof made of one index written twice is accepted, whatever the hash. */
  lemma RepeatedIndexAccepted(h: Hash, p: Proof, x: u32)
    requires p.inputs == [x, x] && BlockCount(p.k) <= HashWordCount
    ensures ValidSolution(h, p)
  {
    forall j | 0 <= j < BlockCount(p.k)
      ensures XorBlocks(h, p.ToPuzzle(), p.inputs, j) == 0
    {
      assert [] + [x, x] == p.inputs;
      XorBlocksPair(h, p.ToPuzzle(), [], x, j);
    }
  }

  lemma {:induction false} XorBlocksOfZeros(h: Hash, pz: Puzzle, s: seq<u32>, j: nat)
    requires BlockCount(pz.k) != 0 && j < HashWordCount
    requires BlockShift(pz) >= 32
    ensures XorBlocks(h, pz, s, j) == 0
    decreases |s|
  {
    if s != [] {
      XorBlocksOfZeros(h, pz, s[..|s| - 1], j);
    }
  }

  /** Degenerate parameters: when K + 1 wraps to 0 no block is checked, and when
      N/(K+1) is 0 or above 32 the shift count is at least 32 and every block is 0.
      Either way every non-empty proof that does not overrun the digest is accepted. */
  lemma DegenerateWidthAcceptsAll(h: Hash, p: Proof)
    requires p.inputs != [] && BlockCount(p.k) <= HashWordCount
    requires BlockCount(p.k) == 0 || Width(p.ToPuzzle()) == 0 || Width(p.ToPuzzle()) > MaxN
    ensures ValidSolution(h, p)
  {
    if BlockCount(p.k) != 0 {
      forall j | 0 <= j < BlockCount(p.k)
        ensures XorBlocks(h, p.ToPuzzle(), p.inputs, j) == 0
      {
        XorBlocksOfZeros(h, p.ToPuzzle(), p.inputs, j);
      }
    }
  }

  // ----- NewProof, ValidateChallenge, GetInputsBytes -----

  /** The seed `NewEquihash` and `NewProof` take from a byte string: its first four
      little-endian words, zero where the bytes run out. */
  function SeedOf(input: seq<byte>): (s: Seed)
  {
    var w := DecodeLE(input);
    [if 0 < |w| then w[0] else 0, if 1 < |w| then w[1] else 0,
     if 2 < |w| then w[2] else 0, if 3 < |w| then w[3] else 0]
  }

  /** The copying loop of `NewEquihash` and `NewProof`: at most four words are copied. */
  method SeedFromBytes(input: seq<byte>) returns (s: Seed)
    ensures forall i :: 0 <= i < SeedLength ==>
      s[i] == if i < |input| / 4 then DecodeLE(input)[i] else 0
    ensures s == SeedOf(input)
  {
    s := [0, 0, 0, 0];
    var words := BytesToUint32Array(input);
    var i := 0;
    while i < |words|
      invariant 0 <= i <= |words| && i <= SeedLength
      invariant forall j :: 0 <= j < SeedLength ==> s[j] == if j < i then words[j] else 0
    {
      if i >= SeedLength {
        break;
      }
      s := s[i := words[i]];
      i := i + 1;
    }
  }

  /** `NewProof`: the seed from the seed bytes, the inputs decoded from the input bytes,
      and the `int` parameters truncated to uint32. */
  method NewProof(n: int, k: int, seed: seq<byte>, nonce: int, inputs: seq<byte>) returns (p: Proof)
    ensures p.n == Wrap(n) && p.k == Wrap(k) && p.nonce == Wrap(nonce)
    ensures p.seed == SeedOf(seed)
    ensures p.inputs == DecodeLE(inputs) && |p.inputs| == |inputs| / 4
  {
    var s := SeedFromBytes(seed);
    var inp: seq<u32> := [];
    var words := BytesToUint32Array(inputs);
    for i := 0 to |words|
      invariant inp == words[..i]
    {
      inp := inp + [words[i]];
    }
    assert words[..|words|] == words;
    p := Proof(Wrap(n), Wrap(k), s, Wrap(nonce), inp);
  }

  /** `GetInputsBytes`: the inputs little-endian encoded; `NewProof` decodes them back,
      so `NewProof(.., p.GetInputsBytes()).Inputs == p.Inputs`. */
  function GetInputsBytes(p: Proof): (b: seq<byte>)
    ensures |b| == 4 * |p.inputs|
    ensures DecodeLE(b) == p.inputs
  {
    DecodeEncode(p.inputs);
    EncodeLE(p.inputs)
  }

  /** Whether a proof's N, K and seed are the ones `NewEquihash` derives from a challenge. */
  predicate MatchesChallenge(p: Proof, ch: Challenge)
  {
    SeedOf(ch.input) == p.seed &&
    Wrap(ch.difficulty.numOfBits) == p.n &&
    Wrap(ch.difficulty.length) == p.k
  }

  /** `Proof.ValidateChallenge`: the tag must be "equihash" and N, K and seed must be the
      challenge's (as `NewEquihash` derives them); then the verdict is `ValidateSolution`'s. */
  method ValidateChallenge(p: Proof, ch: Challenge, h: Hash) returns (ok: bool)
    requires ch.algorithm == EquihashAlgorithm && MatchesChallenge(p, ch) ==> Safe(p)
    ensures ch.algorithm != EquihashAlgorithm ==> !ok
    ensures !MatchesChallenge(p, ch) ==> !ok
    ensures ch.algorithm == EquihashAlgorithm && MatchesChallenge(p, ch) ==> ok == ValidSolution(h, p)
  {
    if ch.algorithm != EquihashAlgorithm {
      return false;
    }
    var seed := SeedFromBytes(ch.input);
    var n, k := Wrap(ch.difficulty.numOfBits), Wrap(ch.difficulty.length);
    if seed == p.seed && n == p.n && k == p.k {
      ok := ValidateSolution(p, h);
    } else {
      ok := false;
    }
  }
}
