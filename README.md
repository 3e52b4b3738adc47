# word-of-wisdom in Dafny

word-of-wisdom is a TCP quote server that makes each client pay with proof of work
before it hands out a quote. This project models its core and proves properties of the
model.

There are two servers in the repository, and both are modelled.

- The `internal/server` server speaks a `type|id|payload` line protocol.
  - It hands out an Equihash-style challenge.
  - It accepts a solution once per request ID.
  - It moves along a difficulty ladder according to the number of parallel connections.
- The `cmd/server` binary runs the older hashcash scheme. The client `cmd/client` searches
  for a nonce whose SHA-256 hex digest starts with `difficulty` zeros.

The modules, one per part of the core:

- `Uint32` covers what Go's `uint32` does: wrap-around, shifts (a shift by 32 or more
  gives 0) and XOR over unbounded integers.
- `Convert` covers the little-endian `uint32`/byte conversions.
- `GoStrings` covers `strings.TrimSpace`, `strings.Split`, `strings.HasPrefix` and
  `strings.Repeat`, plus `strconv.Itoa` and `strconv.Atoi` on a 64-bit platform.
- `Model` holds the records `Difficulty`, `Challenge` and `Message`, the message-type
  constants, and `Stringify`.
- `Parse` is `ParseMessage`.
- `Pow` holds `Proof`, `NewProof`, `ValidateSolution`, `ValidateChallenge` and
  `GetInputsBytes`.
  - `ValidateSolution` is a method that XOR-accumulates into a block array.
  - It is proved equal to the predicate `ValidSolution`.
- `Collisions` describes the Equihash solver as functions over its abstract state: the
  bucket table, the fork rows and the stored solutions.
- `Equihash` is the solver itself, a class over a two-dimensional slot array and a
  fill-count array. Each of its methods is proved to compute the matching `Collisions`
  function.
- `Sorting` specifies the `sort.Slice` result by sortedness plus permutation.
- `Ladder` is the `setting` class, the difficulty ladder.
- `Random` holds the alphanumeric alphabet and `GetRandomString`, driven by given draws.
- `Server` holds `ProcessRequest` and its specification `Dispatch` over a ledger that maps
  IDs to challenges. It also holds the tick rule of `controlDifficulty`.
- `HashcashServer` and `HashcashClient` are the `cmd` pair. SHA-256 is a parameter there.

BLAKE2b-256, SHA-256, JSON and the random sources never appear as code. Each one is a
function-typed or value parameter, so every property holds whatever the hash returns.

## Model

| member | source | states |
|---|---|---|
| Uint32.Wrap | internal/pkg/pow/equihash/pow.go:45-48 | `uint32(x)` conversion: identity on [0, 2^32), and one wrap for values just outside it |
| Uint32.Shr | internal/pkg/pow/equihash/pow.go:89 | Go's `>>` on uint32: a shift by 32 or more gives 0, a shift by 0 is the identity |
| Uint32.ShrBelow | internal/pkg/pow/equihash/equihash.go:89-94 | `x >> (32 - w)` keeps only the top w bits: the result is below 2^w |
| Uint32.XorU32 | internal/pkg/pow/equihash/pow.go:89 | `^` on uint32 agrees with the bitwise XOR on naturals |
| Uint32.XorSelf | internal/pkg/pow/equihash/pow.go:81-91 | x XOR x is 0 (why a repeated index cancels) |
| Uint32.XorComm | internal/pkg/pow/equihash/pow.go:81-91 | XOR is commutative, so the fold does not depend on order |
| Uint32.XorAssoc | internal/pkg/pow/equihash/pow.go:81-91 | XOR is associative |
| Uint32.XorBelow | internal/pkg/pow/equihash/equihash.go:130-131 | the XOR of two w-bit values is a w-bit value, so a collision bucket is in range |
| Uint32.Shl | internal/pkg/pow/equihash/equihash.go:170 | reference definition of Go's `<<` on uint32: 0 for counts of 32 or more, otherwise multiplication by 2^s wrapped to 32 bits |
| Uint32.Xor | internal/pkg/pow/equihash/pow.go:89 | reference definition of bitwise XOR on naturals, bit by bit |
| Convert.WordOfBytes | internal/pkg/utils/convert.go:7-9 | assembling the four little-endian bytes of a word gives the word back |
| Convert.ByteOf | internal/pkg/utils/convert.go:8 | reference definition of byte b that `PutUint32` writes: `byte(v >> (8·b))` |
| Convert.WordOf | internal/pkg/utils/convert.go:18 | reference definition of `binary.LittleEndian.Uint32` of four bytes |
| Convert.EncodeWord | internal/pkg/utils/convert.go:8 | reference definition of the four bytes `PutUint32` writes, low byte first |
| Convert.BytesOfWord | internal/pkg/utils/convert.go:18 | splitting an assembled word gives back its four bytes |
| Convert.Uint32ArrayToBytes | internal/pkg/utils/convert.go:5-12 | output length 4·len(arr); byte 4i+b is `(arr[i] >> 8b) & 0xFF`; the result is `EncodeLE(arr)` |
| Convert.BytesToUint32Array | internal/pkg/utils/convert.go:14-22 | output length len(buf)/4; element i is the little-endian word of bytes 4i..4i+3; the result is `DecodeLE(buf)` |
| Convert.EncodeLEAt | internal/pkg/utils/convert.go:7-9 | byte 4i+b of the encoding is byte b of word i |
| Convert.DecodeLEAt | internal/pkg/utils/convert.go:18 | word i of the decoding depends only on bytes 4i..4i+3 |
| Convert.DecodeEncode | internal/pkg/utils/convert.go:5-22 | decoding an encoding gives the words back |
| Convert.EncodeDecode | internal/pkg/utils/convert.go:5-22 | encoding a decoding gives back the bytes up to the last whole word |
| Convert.DecodeIgnoresTail | internal/pkg/utils/convert.go:15-20 | the trailing len(buf) mod 4 bytes do not affect the decoding |
| Convert.EncodeLE | internal/pkg/utils/convert.go:5-12 | reference definition of `Uint32ArrayToBytes` with `binary.LittleEndian`: four bytes per word, low byte first |
| Convert.DecodeLE | internal/pkg/utils/convert.go:14-22 | reference definition of `BytesToUint32Array` with `binary.LittleEndian`: one word per whole group of four bytes |
| GoStrings.TrimSpaceIgnoresPadding | internal/pkg/utils/message.go:13 | `TrimSpace` removes any white-space padding on both sides |
| GoStrings.TrimSpaceKeeps | internal/pkg/utils/message.go:13 | a string with a non-space first and last character is unchanged by `TrimSpace` |
| GoStrings.SplitShape | internal/pkg/utils/message.go:15 | `Split` yields one more piece than there are separators, no piece holds the separator, and joining the pieces gives the string back |
| GoStrings.SplitThree | internal/pkg/utils/message.go:15-16 | three separator-free fields joined by the separator split back into exactly those three |
| GoStrings.SplitJoinedWords | cmd/client/main.go:41 | splitting separator-free words joined by spaces, followed by a space and a rest, gives the words then the rest's pieces |
| GoStrings.Repeat | cmd/server/main.go:89 | `strings.Repeat(c, n)` is n copies of c |
| GoStrings.AtoiItoa | internal/pkg/utils/message.go:20 | `Atoi` reads back every 64-bit value that `Itoa` printed |
| GoStrings.ItoaShape | internal/model/message.go:26 | a decimal is non-empty, starts with a non-space, and holds only digits and `-` |
| GoStrings.NatDigitsValue | internal/model/message.go:26 | the digits printed for n have value n |
| GoStrings.TrimSpace | internal/pkg/utils/message.go:13 | reference definition of `strings.TrimSpace` on `unicode.IsSpace` white space |
| GoStrings.IsSpace | internal/pkg/utils/message.go:13 | reference definition of `unicode.IsSpace`: the Latin-1 spaces and the other White_Space code points |
| GoStrings.Split | internal/pkg/utils/message.go:15 | reference definition of `strings.Split` with a one-character separator; at least one piece |
| GoStrings.Join | internal/pkg/utils/message.go:15 | reference definition of joining pieces with a separator, the inverse `Split` is proved against |
| GoStrings.SplitJoin | internal/pkg/utils/message.go:15 | separator-free fields joined by the separator split back into exactly those fields |
| GoStrings.HasPrefix | cmd/server/main.go:89 | reference definition of `strings.HasPrefix` |
| GoStrings.Itoa | internal/model/message.go:26 | reference definition of `strconv.Itoa` (`%d`): a minus sign for negatives, then the decimal digits |
| GoStrings.NatDigits | internal/model/message.go:26 | the decimal digits of a natural number, at least one and without a leading zero |
| GoStrings.Atoi | internal/pkg/utils/message.go:20 | reference definition of `strconv.Atoi` on a 64-bit platform: optional sign, digits, a syntax error otherwise and a range error beyond 64 bits |
| GoStrings.ScanDigits | internal/pkg/utils/message.go:20 | reference definition of the digit loop of `strconv.ParseUint` in base 10: it stops at the first non-digit or at the first digit that passes 2^64 − 1 |
| GoStrings.AtoiValue | cmd/client/main.go:43 | reference definition of the value `strconv.Atoi` returns beside the ignored error: the parsed value, 0 on a syntax error, the clamped value on a range error |
| Model.NewChallenge | internal/model/challenge.go:24-32 | the challenge carries the given algorithm tag and difficulty and a 32-byte seed |
| Model.StringifySplitsInThree | internal/model/message.go:25-27 | without `|` in the ID and the payload, `Stringify(m)` splits on `|` into the decimal type, the ID and the payload |
| Model.Stringify | internal/model/message.go:25-27 | reference definition of `Stringify`: the decimal type, `|`, the ID, `|`, the payload |
| Parse.ParseIgnoresPadding | internal/pkg/utils/message.go:13 | leading and trailing white space of the line do not change the outcome |
| Parse.ParseBareType | internal/pkg/utils/message.go:20-28 | a bare decimal line is accepted with any 64-bit type, named or not, and an empty ID and payload |
| Parse.ParseRejectsBadHeader | internal/pkg/utils/message.go:15-23 | a line of one or three fields whose header is not a decimal is refused with "cannot parse header" |
| Parse.ParseRejectsFieldCount | internal/pkg/utils/message.go:15-18 | a line of two, four or more fields is refused with "doesn't match protocol", whatever its header |
| Parse.ParseAcceptsFields | internal/pkg/utils/message.go:15-32 | a decimal header with one field gives that type and an empty ID and payload; with three fields, the type, the ID and the payload |
| Parse.ParseMessage | internal/pkg/utils/message.go:12-33 | reference definition of `ParseMessage`: trim, split on `|`, require one or three parts, read the header with `Atoi` |
| Parse.ParseStringify | internal/pkg/utils/message.go:12-33 | round trip: `ParseMessage(Stringify(m) + "\n") == m` when the ID and the payload hold no `|` and the payload does not end in white space |
| Pow.HashWords | internal/pkg/pow/equihash/pow.go:84-86 | the digest of an index decodes to the eight words the blocks are read from |
| Pow.ValidateSolution | internal/pkg/pow/equihash/pow.go:68-99 | false for empty inputs; otherwise true iff for every j < K+1 computed in uint32 (none at K = 0xFFFFFFFF) the XOR over the inputs of (word j >> (32 − N/(K+1))) is 0 |
| Pow.XorInto | internal/pkg/pow/equihash/pow.go:88-90 | the inner loop XORs each block with the shifted hash word |
| Pow.AllZero | internal/pkg/pow/equihash/pow.go:93-99 | the final loop answers whether every block is 0 |
| Pow.AccumulateIndex | internal/pkg/pow/equihash/pow.go:81-91 | one pass of the outer loop folds one more index into every block |
| Pow.XorBlocksConcat | internal/pkg/pow/equihash/pow.go:81-91 | the fold over a concatenation is the XOR of the two folds |
| Pow.XorBlocksPermutation | internal/pkg/pow/equihash/pow.go:81-91 | the fold over a permutation of the inputs gives the same blocks |
| Pow.ValidSolutionIgnoresOrder | internal/pkg/pow/equihash/pow.go:81-91 | reordering the inputs does not change the verdict |
| Pow.XorBlocksPair | internal/pkg/pow/equihash/pow.go:81-91 | appending an index twice leaves every block unchanged |
| Pow.DuplicatePairCancels | internal/pkg/pow/equihash/pow.go:81-91 | appending a repeated pair to a non-empty proof does not change the verdict, since distinctness is never checked |
| Pow.RepeatedIndexAccepted | internal/pkg/pow/equihash/pow.go:77-99 | with K+1 ≤ 8 (in uint32), the proof `[x, x]` is accepted for every x |
| Pow.XorBlocksOfZeros | internal/pkg/pow/equihash/pow.go:89 | with a shift count of 32 or more, every block stays 0 |
| Pow.DegenerateWidthAcceptsAll | internal/pkg/pow/equihash/pow.go:89 | when N/(K+1) is 0 or above 32 (or K+1 wraps to 0), every non-empty proof with K+1 ≤ 8 (in uint32) is accepted |
| Pow.SeedFromBytes | internal/pkg/pow/equihash/pow.go:30-37 | seed word i is little-endian word i of the bytes, or 0 where the bytes run out |
| Pow.NewProof | internal/pkg/pow/equihash/pow.go:23-51 | N, K and Nonce are the parameters truncated to uint32; the seed comes from `SeedOf`; the inputs are the little-endian decoding |
| Pow.GetInputsBytes | internal/pkg/pow/equihash/pow.go:64-66 | the byte form has four bytes per input, and decoding it (as `NewProof` does) gives the inputs back |
| Pow.ValidateChallenge | internal/pkg/pow/equihash/pow.go:53-62 | false for a tag other than "equihash" and for a seed, N or K that differ from the challenge's; otherwise exactly the solution check |
| Pow.Block | internal/pkg/pow/equihash/pow.go:89 | reference definition of block j of an index: hash word j shifted right by 32 − N/(K+1) |
| Pow.BlockCount | internal/pkg/pow/equihash/pow.go:88 | reference definition of `p.K+1` in uint32, which is 0 at K = 0xFFFFFFFF |
| Pow.Width | internal/pkg/pow/equihash/pow.go:89 | reference definition of the block width `p.N/(p.K+1)` on uint32 operands |
| Pow.BlockShift | internal/pkg/pow/equihash/pow.go:89 | reference definition of the shift count 32 − N/(K+1) computed in uint32 |
| Pow.HashInput | internal/pkg/pow/equihash/pow.go:69-71 | reference definition of the six hashed words: Seed[0..3], the nonce and the index |
| Pow.XorBlocks | internal/pkg/pow/equihash/pow.go:81-91 | reference definition of the XOR fold of block j over the inputs, in input order |
| Pow.Safe | internal/pkg/pow/equihash/pow.go:88-89 | reference definition of the no-panic domain: no inputs, or K+1 (in uint32) at most the 8 digest words |
| Pow.ValidSolution | internal/pkg/pow/equihash/pow.go:68-99 | reference definition of what `ValidateSolution` accepts: non-empty inputs whose K+1 blocks all XOR to 0 |
| Pow.SeedOf | internal/pkg/pow/equihash/pow.go:30-37 | reference definition of the seed: little-endian word i of the input, or 0 where the input runs out |
| Pow.MatchesChallenge | internal/pkg/pow/equihash/pow.go:53-61 | reference definition of the challenge comparison: tag "equihash", equal seed, N and K |
| Sorting.Insert | internal/pkg/pow/equihash/equihash.go:178 | inserting into a sorted sequence keeps it sorted and adds exactly one element |
| Sorting.SortSeq | internal/pkg/pow/equihash/equihash.go:178 | the sort result is sorted and a permutation of its input |
| Sorting.SortedDistinct | internal/pkg/pow/equihash/equihash.go:176-187 | a sorted sequence with no two equal neighbours is strictly ascending |
| Sorting.AscendingHasNoDuplicate | internal/pkg/pow/equihash/equihash.go:179-184 | a strictly ascending sequence has no two equal neighbours |
| Sorting.HasAdjacentDuplicate | internal/pkg/pow/equihash/equihash.go:179-184 | reference definition of the duplicate test: two equal neighbours |
| Collisions.TableLength | internal/pkg/pow/equihash/equihash.go:61-71 | the table has 2^(N/(K+1)) buckets, at least 1 and no more than uint32 counters can address |
| Collisions.Supported | internal/pkg/pow/equihash/equihash.go:61-93 | reference definition of the solver's domain: K < 8, so the K+1 blocks fit the 8-word digest, and N/(K+1) < 32, so uint32 counters address the 2^(N/(K+1)) buckets |
| Collisions.SupportedSizes | internal/pkg/pow/equihash/equihash.go:61-93 | the domain depends on N and K alone |
| Collisions.EmptyTable | internal/pkg/pow/equihash/equihash.go:61-71 | the table allocated by `initializeMemory` and `resolveCollisions` has 2^(N/(K+1)) buckets, all empty |
| Collisions.FillLength | internal/pkg/pow/equihash/equihash.go:171 | `4 << (N/(K+1) − 1)` in uint32 is twice the table size wrapped to 32 bits, and 0 at width 0 where the shift count wraps |
| Collisions.Cap | internal/pkg/pow/equihash/equihash.go:130 | the budget `uint32(maxNewCollisions)` is at most 3 · tableLength and below 2^32 |
| Collisions.BucketOf | internal/pkg/pow/equihash/equihash.go:89 | the bucket of an index (the top w bits of hash word 0) is in range |
| Collisions.LeafTuple | internal/pkg/pow/equihash/equihash.go:92-95 | reference definition of the slot filled for an index: hash words 1..K shifted by 32 − N/(K+1), with the index as reference |
| Collisions.Place | internal/pkg/pow/equihash/equihash.go:88-97 | placing one index keeps the number of buckets |
| Collisions.Filled | internal/pkg/pow/equihash/equihash.go:76-98 | reference definition of `fillMemory(count)`: indices 0 .. count−1 placed in order |
| Collisions.FilledShape | internal/pkg/pow/equihash/equihash.go:76-98 | after filling, no bucket holds more than 5 slots and every slot holds K blocks of w bits |
| Collisions.FilledLands | internal/pkg/pow/equihash/equihash.go:89-97 | index i is appended to its bucket, with the top w bits of words 1..K as blocks and i as reference, unless the bucket is full; then it is dropped |
| Collisions.FilledEntries | internal/pkg/pow/equihash/equihash.go:89-95 | every filled slot is the leaf tuple of an index below the count that hashes into that bucket |
| Collisions.FilledGrows | internal/pkg/pow/equihash/equihash.go:91-96 | filling never overwrites earlier slots: each bucket only grows |
| Collisions.FullBucketFrozen | internal/pkg/pow/equihash/equihash.go:91 | a full bucket never changes again |
| Collisions.XorTail | internal/pkg/pow/equihash/equihash.go:132-134 | a new entry has one block fewer than its parents |
| Collisions.Collide | internal/pkg/pow/equihash/equihash.go:121-138 | one collision keeps the round within its shape: bucket capacity 5 and the collision budget |
| Collisions.PairsFrom | internal/pkg/pow/equihash/equihash.go:116-141 | reference definition of the pair order of one bucket, (j, m) then (j, m+1), a row ending with (j+1, j+2) |
| Collisions.BucketsFrom | internal/pkg/pow/equihash/equihash.go:116-141 | reference definition of the bucket loop: buckets i, i+1, … in order, each through `PairsFrom` |
| Collisions.Resolve | internal/pkg/pow/equihash/equihash.go:101-141 | reference definition of one `resolveCollisions` round from empty new tables |
| Collisions.PairsOK | internal/pkg/pow/equihash/equihash.go:116-141 | the pairs of a bucket keep the round well-formed |
| Collisions.BucketsOK | internal/pkg/pow/equihash/equihash.go:116-141 | the bucket loop keeps the round well-formed |
| Collisions.ResolveTreeByLevel | internal/pkg/pow/equihash/equihash.go:148-160 | the recursive expansion yields exactly 2^(level+1) indices |
| Collisions.ResolveTree | internal/pkg/pow/equihash/equihash.go:162-164 | a fork of the last row expands to 2^(rows+1) indices |
| Collisions.ResolveTreeSplit | internal/pkg/pow/equihash/equihash.go:154-159 | the expansion is the left subtree's leaves followed by the right subtree's |
| Collisions.ResolveTreeFrame | internal/pkg/pow/equihash/equihash.go:148-160 | adding later fork rows does not change the expansion of an earlier fork |
| Collisions.PaddedRow | internal/pkg/pow/equihash/equihash.go:103-105 | the fork row appended per round has 3·tableLength entries |
| Collisions.CollideOK | internal/pkg/pow/equihash/equihash.go:121-138 | a collision keeps every new entry well-formed: K−r−1 blocks of w bits, a reference into the new row |
| Collisions.ResolveOK | internal/pkg/pow/equihash/equihash.go:101-146 | a whole round yields a well-formed new table and fork row |
| Collisions.NextLevelOK | internal/pkg/pow/equihash/equihash.go:143-145 | after the swap, the new table is well-formed for the next level |
| Collisions.NextState | internal/pkg/pow/equihash/equihash.go:101-146 | `resolveCollisions` appends exactly one fork row and keeps the state well-formed |
| Collisions.InitialState | internal/pkg/pow/equihash/equihash.go:60-74 | the solver starts from an empty table with no forks and no solutions |
| Collisions.RoundsFrom | internal/pkg/pow/equihash/equihash.go:172-175 | reference definition of the round loop: rounds i .. K, the last one storing solutions |
| Collisions.Solutions | internal/pkg/pow/equihash/equihash.go:169-175 | reference definition of the solutions stored for one nonce |
| Collisions.Pick | internal/pkg/pow/equihash/equihash.go:176-187 | reference definition of the selection: the first solution whose sorted inputs have no two equal neighbours, returned sorted |
| Collisions.Selected | internal/pkg/pow/equihash/equihash.go:176-187 | reference definition of the stored solutions after the selection: each one looked at, up to the picked one, has its inputs sorted |
| Collisions.SelectedEntries | internal/pkg/pow/equihash/equihash.go:176-187 | selection keeps the number of solutions, leaves positions before the start alone, and replaces each later solution by itself or by itself with sorted inputs |
| Collisions.Attempt | internal/pkg/pow/equihash/equihash.go:169-188 | reference definition of one nonce: the pick among that nonce's stored solutions |
| Collisions.Attempts | internal/pkg/pow/equihash/equihash.go:169-188 | reference definition of the outcome of every nonce, `None` outside the supported parameters |
| Collisions.SearchFrom | internal/pkg/pow/equihash/equihash.go:167-190 | reference definition of the nonce loop: the first nonce after the given one with a pick, else the empty proof at `maxNonce` |
| Collisions.FindProofResult | internal/pkg/pow/equihash/equihash.go:166-191 | reference definition of `FindProof`: the search from nonce 1 |
| Collisions.LeafSound | internal/pkg/pow/equihash/equihash.go:89-95 | a leaf's bucket and blocks are the shifted hash words of its index |
| Collisions.FilledSound | internal/pkg/pow/equihash/equihash.go:76-98 | every filled slot is sound: its blocks and bucket are the leaf's hash words |
| Collisions.CombineSound | internal/pkg/pow/equihash/equihash.go:130-136 | the XOR of two entries that collide on block 0 is an entry for the concatenated leaves |
| Collisions.CollideSound | internal/pkg/pow/equihash/equihash.go:121-138 | every entry and every solution a collision creates is sound |
| Collisions.PairsSound | internal/pkg/pow/equihash/equihash.go:116-141 | the pairs of a bucket keep the round sound |
| Collisions.BucketsSound | internal/pkg/pow/equihash/equihash.go:116-141 | the bucket loop keeps the round sound |
| Collisions.RoundsSound | internal/pkg/pow/equihash/equihash.go:172-175 | the round loop keeps the state sound |
| Collisions.StoredSound | internal/pkg/pow/equihash/equihash.go:121-128 | a solution stored in the last round passes `ValidateSolution` |
| Collisions.NextStateSound | internal/pkg/pow/equihash/equihash.go:101-146 | a round keeps the whole state sound |
| Collisions.SolutionsSound | internal/pkg/pow/equihash/equihash.go:172-175 | every stored solution of one nonce passes `ValidateSolution` |
| Collisions.SolutionsHaveInputs | internal/pkg/pow/equihash/equihash.go:162-175 | every stored solution has exactly 2^K inputs |
| Collisions.AttemptFound | internal/pkg/pow/equihash/equihash.go:176-187 | a solution picked for a nonce is strictly ascending, has 2^K inputs and is valid |
| Collisions.SearchFromSpec | internal/pkg/pow/equihash/equihash.go:167-190 | the nonce search returns the first nonce with a solution, or the empty proof at `maxNonce` |
| Collisions.FindProofSound | internal/pkg/pow/equihash/equihash.go:166-191 | a non-empty result has the solver's N, K and seed, a nonce in [2, 0xFFFFF], 2^K strictly ascending inputs, and passes `ValidateSolution` |
| Collisions.FindProofFirst | internal/pkg/pow/equihash/equihash.go:166-191 | no nonce before the returned one has a solution; the empty result is `Proof(N, K, seed, 0xFFFFF, [])` |
| Collisions.CollideTrace | internal/pkg/pow/equihash/equihash.go:130-138 | each new entry's fork points at its two parents in the old table |
| Collisions.ResolveTrace | internal/pkg/pow/equihash/equihash.go:101-146 | a round creates at most 3·tableLength entries in total, each traced to two parents of one bucket |
| Collisions.CountAppend | internal/pkg/pow/equihash/equihash.go:130-137 | storing one entry adds one to the entry count |
| Equihash.Push | internal/pkg/pow/equihash/equihash.go:91-96 | writing a slot and bumping the fill count appends to that bucket only |
| Equihash.NewTable | internal/pkg/pow/equihash/equihash.go:106-114 | fresh arrays holding the given number of empty buckets of 5 slots, each slot of the given block count, with all fill counts 0 |
| Equihash.FileFork | internal/pkg/pow/equihash/equihash.go:130-137 | filing one new entry appends it to bucket b only, writes its fork at its reference position and leaves every later fork slot alone |
| Equihash.NewRound | internal/pkg/pow/equihash/equihash.go:103-114 | fresh empty tables and a zeroed fork row of the budget size |
| Equihash.LeafBlocks | internal/pkg/pow/equihash/equihash.go:92-94 | block l is word l+1 shifted by 32−w |
| Equihash.XorTailOf | internal/pkg/pow/equihash/equihash.go:132-134 | block l of the new entry is the XOR of the parents' blocks l+1 |
| Equihash.DuplicateNeighbours | internal/pkg/pow/equihash/equihash.go:179-184 | the loop finds two equal neighbours iff there are some |
| Equihash.Equihash.NewEquihash | internal/pkg/pow/equihash/equihash.go:42-58 | n and k from the difficulty (truncated to uint32), seed from the first four little-endian words, nonce 1, no solutions or forks |
| Equihash.Equihash.InitializeMemory | internal/pkg/pow/equihash/equihash.go:60-74 | fresh tables of 2^w buckets of 5 slots, all fill counts 0, no solutions and no forks |
| Equihash.Equihash.FillMemory | internal/pkg/pow/equihash/equihash.go:76-98 | the tables end up representing `Filled` of the old table |
| Equihash.Equihash.FillIndices | internal/pkg/pow/equihash/equihash.go:87-97 | the index loop computes `Filled` |
| Equihash.Equihash.HashIndex | internal/pkg/pow/equihash/equihash.go:83-87 | the words read back from the digest of (seed, nonce, i) are `HashWords` of that index |
| Equihash.Equihash.PlaceIndex | internal/pkg/pow/equihash/equihash.go:88-97 | one index is placed as `Place` says |
| Equihash.Equihash.ResolveTreeByLevel | internal/pkg/pow/equihash/equihash.go:148-160 | the method computes the recursive expansion |
| Equihash.Equihash.ResolveTree | internal/pkg/pow/equihash/equihash.go:162-164 | the method computes the expansion from the last row |
| Equihash.Equihash.CollidePair | internal/pkg/pow/equihash/equihash.go:121-138 | one collision on the arrays computes `Collide` |
| Equihash.Equihash.CollideBucket | internal/pkg/pow/equihash/equihash.go:116-141 | all pairs of one bucket computes `PairsFrom` |
| Equihash.Equihash.CollideLater | internal/pkg/pow/equihash/equihash.go:117-140 | pairing one entry with every later one steps `PairsFrom` by one row |
| Equihash.Equihash.CollideBuckets | internal/pkg/pow/equihash/equihash.go:116-141 | the bucket loop computes `Resolve` |
| Equihash.Equihash.CollideAll | internal/pkg/pow/equihash/equihash.go:101-141 | fresh tables, then a round that computes `Resolve` |
| Equihash.Equihash.ResolveCollisions | internal/pkg/pow/equihash/equihash.go:101-146 | the state after the tables are swapped and the fork row appended is `NextState` of the old one |
| Equihash.Equihash.RunRounds | internal/pkg/pow/equihash/equihash.go:172-175 | the round loop computes `RoundsFrom` |
| Equihash.Equihash.SelectSolution | internal/pkg/pow/equihash/equihash.go:176-187 | the result is `Pick` of the stored solutions, and the new solutions are `Selected` of the old: inputs sorted in place up to the picked one |
| Equihash.Equihash.TryNonce | internal/pkg/pow/equihash/equihash.go:169-188 | one nonce: initialize, fill, run the rounds, pick; the result is the attempt for that nonce |
| Equihash.Equihash.Search | internal/pkg/pow/equihash/equihash.go:167-190 | the nonce loop computes `SearchFrom` from nonce 1 and leaves the returned proof's nonce in the field |
| Equihash.Equihash.FindProof | internal/pkg/pow/equihash/equihash.go:166-191 | the result is `FindProofResult` and the nonce field ends at the result's nonce; the two lemmas above give soundness and first-nonce minimality |
| Ladder.UpTimesSaturates | internal/pkg/pow/equihash/setting.go:35-42 | t increases from a level reach min(level + t, len − 1) |
| Ladder.DownTimesSaturates | internal/pkg/pow/equihash/setting.go:45-52 | t decreases from a level reach max(level − t, 0) |
| Ladder.ClimbAndDescend | internal/pkg/pow/equihash/setting.go:35-52 | len−1 increases from level 0 reach the top and further ones change nothing; likewise for decreases |
| Ladder.Setting.constructor | internal/pkg/pow/equihash/setting.go:24-31 | level 0 with the difficulty of the first configured level |
| Ladder.Setting.GetDifficulty | internal/pkg/pow/equihash/setting.go:65-67 | the difficulty is the one of the current level |
| Ladder.ToModel | internal/pkg/pow/equihash/setting.go:38-39 | reference definition of copying a configured level's N and K into the difficulty |
| Ladder.Setting.IncreaseDifficulty | internal/pkg/pow/equihash/setting.go:35-42 | a no-op at the top, otherwise exactly one level up; the level invariant is kept |
| Ladder.Setting.DecreaseDifficulty | internal/pkg/pow/equihash/setting.go:45-52 | a no-op at level 0, otherwise exactly one level down; the level invariant is kept |
| Ladder.NewSetting | internal/pkg/pow/equihash/setting.go:18-32 | fails, with the source's message, iff no level is configured; otherwise level 0 and the first level's difficulty |
| Ladder.OneLevelIsMinAndMax | internal/pkg/pow/equihash/setting.go:55-62 | on a one-level ladder both `IsMaxDifficulty` and `IsMinDifficulty` hold |
| Ladder.Up | internal/pkg/pow/equihash/setting.go:35-42 | reference definition of one increase: one level up unless at the top |
| Ladder.Down | internal/pkg/pow/equihash/setting.go:45-52 | reference definition of one decrease: one level down unless at 0 |
| Ladder.Setting.IsMaxDifficulty | internal/pkg/pow/equihash/setting.go:55-57 | reference definition: the level is the last one |
| Ladder.Setting.IsMinDifficulty | internal/pkg/pow/equihash/setting.go:60-62 | reference definition: the level is 0 |
| Random.Run | internal/pkg/utils/random.go:9-17 | the run of `count` consecutive characters from `first`, used to build the 62-character alphabet a..z, A..Z, 0..9 |
| Random.Spell | internal/pkg/utils/random.go:9-17 | one character per draw |
| Random.SpellSeparatorFree | cmd/server/main.go:77-81 | every generated character is alphanumeric, so no space, `|` or newline occurs |
| Random.SpellOnto | internal/pkg/utils/random.go:9-17 | every alphanumeric string is generated by some draws |
| Random.RandomString | internal/pkg/utils/random.go:9-17 | the rune-buffer loop yields the string the draws spell |
| Server.Server.NewServer | internal/server/server.go:37-50 | the threshold and the ladder are kept, and the ledger starts empty |
| Server.Server.ProcessRequest | internal/server/server.go:155-212 | the reply and the new ledger are those of `Dispatch` for the ladder's current difficulty |
| Server.Dispatch | internal/server/server.go:155-212 | reference definition of `ProcessRequest` as a reply and a new ledger, in the source's check order |
| Server.NotParsedRejected | internal/server/server.go:156-159 | an unparseable line gives its parse error and leaves the ledger alone |
| Server.ChallengeIssued | internal/server/server.go:162-184 | ResponseChallenge with a newly drawn 20-character alphanumeric ID, possibly already live; the ledger maps the ID to a challenge tagged "equihash" with the current difficulty, whose serialization is the payload; no other ID changes |
| Server.LedgerTransitions | internal/server/server.go:155-212 | an error leaves the ledger unchanged; a challenge adds one ID; a resource reply removes an ID that was present |
| Server.QuoteNeedsValidProof | internal/server/server.go:185-208 | a quote is sent only for a decodable, valid proof and a live ID, and it is the quote with that ID |
| Server.InvalidProofFirst | internal/server/server.go:192-194 | an invalid proof is refused before the ledger is consulted, whatever the ID |
| Server.UnknownIdRejected | internal/server/server.go:196-199 | an ID absent from the ledger gives "challenge expired or not sent" and no change |
| Server.RedeemedOnce | internal/server/server.go:200 | after a redemption the ID is gone, and sending the same line again fails and changes nothing |
| Server.ChallengeNotCompared | internal/server/server.go:192-199 | the reply depends only on which IDs are live, not on the stored challenge: any valid proof redeems any live ID |
| Server.OtherTypesRejected | internal/server/server.go:209-211 | every other type, including Unknown, ResponseChallenge and ResponseResource, gives "unknown type" |
| Server.IssueThenRedeem | internal/server/server.go:162-208 | an issued ID redeemed with a valid proof in the wire format gets the quote; the ledger loses that ID and is unchanged when the ID was new |
| Server.FreeRedeem | internal/server/server.go:185-208 | as written, a proof listing one index twice, for any N, K with K+1 ≤ 8, seed and nonce, earns the quote under any live ID |
| Server.OneRequestPanics | internal/pkg/pow/equihash/pow.go:88-89 | as written, a proof with K = 8 and one index reaches the digest-overrun panic |
| Server.SolvesChallenge | internal/pkg/pow/equihash/pow.go:53-62 | reference definition of an acceptable proof: it matches the stored challenge, fits the digest, has 2^K strictly ascending indices and passes the XOR check |
| Server.DispatchChecked | internal/server/server.go:185-208 | reference definition of the corrected redeem path: unsafe proofs are invalid, and a proof must solve the challenge stored under its ID |
| Server.CheckedNeverPanics | internal/pkg/pow/equihash/pow.go:88-89 | the corrected dispatch never panics |
| Server.CheckedQuoteSolves | internal/server/server.go:185-208 | under the correction a quote needs a live ID whose stored challenge the proof solves, with pairwise distinct indices |
| Server.CheckedRefusesRepeat | internal/server/server.go:185-208 | under the correction the repeated-index proof of `FreeRedeem` is refused as invalid |
| Server.CheckedRefinesDispatch | internal/server/server.go:155-212 | the correction only refuses more: its quotes are the ones given as written, the other refusals are unchanged, and the panic becomes "invalid proof" |
| Server.CheckedHonestServed | internal/server/server.go:185-208 | under the correction a solution of the stored challenge still earns the quote and retires the ID |
| Server.Server.ControlDifficulty | internal/server/server.go:89-115 | over a series of connection counts, the ladder level is that of the tick rule folded from a mark equal to the threshold |
| Server.Tick | internal/server/server.go:97-112 | reference definition of one sample of `controlDifficulty`: below the threshold step down; otherwise step up if above the mark, and take the sample as the mark |
| Server.Ticks | internal/server/server.go:91-114 | reference definition of the loop: the tick folded over the samples |
| Server.TickStepsOnce | internal/server/server.go:97-112 | a tick moves the level by at most one and keeps it on the ladder |
| Server.LowLoadDescends | internal/server/server.go:98-104 | counts below the threshold lower the level one step per tick down to 0 and leave the mark alone |
| Server.SteadyLoadRaisesOnce | internal/server/server.go:105-111 | a constant count at or above the threshold raises the level at most once, and only if it beats the mark |
| Server.RisingLoadClimbs | internal/server/server.go:105-111 | strictly rising counts at or above the threshold raise the level once per tick up to the top |
| HashcashServer.EncodeRune | cmd/server/main.go:87 | `[]byte(s)` encodes a rune in 1 to 4 bytes, and an ASCII rune as itself |
| HashcashServer.Utf8 | cmd/server/main.go:87 | reference definition of `[]byte(data)`: the UTF-8 encoding, rune by rune |
| HashcashServer.Utf8Ascii | cmd/server/main.go:86-87 | an ASCII string's bytes are its characters |
| HashcashServer.HexDigit | cmd/server/main.go:88 | the hex digit is '0' iff the nibble is 0 |
| HashcashServer.Hex | cmd/server/main.go:88 | `%x` of a digest has two digits per byte |
| HashcashServer.Nibbles | cmd/server/main.go:88 | a digest has two nibbles per byte, each below 16 |
| HashcashServer.HexIsNibbles | cmd/server/main.go:88 | character i of `%x` is the hex digit of nibble i |
| HashcashServer.LeadingZeroNibbles | cmd/server/main.go:85-90 | the check passes iff difficulty ≤ 64 and the first `difficulty` nibbles of SHA-256(challenge ++ decimal(nonce)) are 0 |
| HashcashServer.HarderImpliesEasier | cmd/server/main.go:85-90 | a nonce that passes at one difficulty passes at every lower one |
| HashcashServer.VerifyProofOfWork | cmd/server/main.go:85-90 | reference definition of `verifyProofOfWork`: the `%x` digest of challenge ++ decimal(nonce) starts with `difficulty` zeros |
| HashcashServer.GenerateChallenge | cmd/server/main.go:75-83 | 20 characters, each from the 62-character alphanumeric alphabet |
| HashcashServer.AdjustStep | cmd/server/main.go:123-132 | one tick stays in [4, 8]: up exactly one step above 3 requests unless at 8, down exactly one at or below 3 unless at 4 |
| HashcashServer.AdjustAllInRange | cmd/server/main.go:119-134 | the difficulty never leaves [4, 8] |
| HashcashServer.FloodClimbs | cmd/server/main.go:124-126 | t busy intervals raise the difficulty by t, capped at 8 |
| HashcashServer.QuietDescends | cmd/server/main.go:127-129 | t quiet intervals lower it by t, down to 4 |
| HashcashServer.Adjust | cmd/server/main.go:123-130 | reference definition of one tick of `adjustDifficulty` |
| HashcashServer.AdjustAll | cmd/server/main.go:119-134 | reference definition of the loop: the tick folded over the intervals' arrivals, the count reset each time |
| HashcashServer.Hashcash.constructor | cmd/server/main.go:26-27 | difficulty 4 and no requests counted |
| HashcashServer.Hashcash.AdjustTick | cmd/server/main.go:123-132 | one tick applies the step rule and resets the request count |
| HashcashServer.Hashcash.AdjustDifficulty | cmd/server/main.go:119-134 | the loop folds the step rule over the intervals; the count is reset after each tick |
| HashcashServer.Hashcash.HandleConnection | cmd/server/main.go:92-117 | the request count rises by one, and the exchange is the conversation at the difficulty snapshot |
| HashcashServer.VerdictMatchesPrompt | cmd/server/main.go:96-116 | the prompt names the snapshot difficulty; the quote is sent iff the nonce passes the check at that same difficulty, the failure line iff not |
| HashcashServer.PromptSplit | cmd/server/main.go:102 | splitting the prompt on spaces gives the fixed words, with the challenge at word 7 and the decimal difficulty at word 11 |
| HashcashServer.Prompt | cmd/server/main.go:102 | reference definition of the prompt line |
| HashcashServer.PromptWords | cmd/server/main.go:102 | reference definition of the prompt's fourteen words, with the challenge at word 7 and the difficulty at word 11 |
| HashcashServer.Conversation | cmd/server/main.go:92-117 | reference definition of one exchange: the prompt, then the verdict for the scanned nonce |
| HashcashClient.ParsePromptRoundTrip | cmd/client/main.go:41-43 | the client reads back the server's challenge and difficulty from the prompt |
| HashcashClient.ParsePrompt | cmd/client/main.go:41-43 | reference definition of the client's parse: word 7 and `Atoi` of word 11, `None` on fewer than twelve words |
| HashcashClient.FindNonce | cmd/client/main.go:15-24 | the returned nonce passes the test, and every smaller one fails, so it is the least |
| HashcashClient.HonestClientServed | cmd/client/main.go:41-49 | the client parses the puzzle of a connection, and a nonce that passes its test earns the quote |

## Left out

- Sockets, the listener, `Run`/`Stop`, the read/write loop of `internal/server`'s
  `handleConnection`, goroutines, `sync.RWMutex`, the atomic counters, `time.Sleep`, the
  shutdown channel, logging and `main` are not modelled. Error replies close the
  connection (`server.go:137-141`); the model returns the error value instead.
- `controlDifficulty` runs forever. `Server.Server.ControlDifficulty` takes the sequence of
  connection counts it would sample and covers any finite prefix of them.
- `adjustDifficulty` runs forever as well. `HashcashServer.Hashcash.AdjustDifficulty` takes
  the number of arrivals in each interval.
- BLAKE2b-256 and SHA-256 are parameters, so the concrete test vectors of `pow_test.go`,
  which depend on real digests, are not stated.
- JSON: `json.Marshal` of a challenge and `json.Unmarshal` of a proof are parameters. The
  decoder may fail. A marshal error cannot occur for a `Challenge`, so that branch is not
  modelled.
- The ledger is a map without expiry, because the TTL cache library is not part of this
  model. `Set(key, challenge)` stores the new challenge and `Get` tests membership, as the
  `requestCache` interface declares.
  - `server.go:170` calls `Set(reqID)` with one argument, and `server.go:196` takes one
    result from `Get`. Neither matches that interface.
  - The `err` check at `server.go:171` tests a stale variable and cannot fire.
- Randomness comes in as parameters: the 20 draws of `GetRandomString`, the 32 seed bytes
  of `NewChallenge`, the quote of `GetRandomQuote`, the 20 draws of `generateChallenge`
  and the quote index in `cmd/server`.
- Lines read from the socket are Go byte strings; the model takes them as Dafny strings of
  characters. Input that is not valid UTF-8 cannot be written as such a string, so what
  `TrimSpace`, `Split` and `Atoi` do with it is not modelled.
- `Fscanf(conn, "%d\n")` is modelled by its outcome: a nonce, or `None` on a scan error.
- Pow.ValidateSolution: requires `Safe(p)`, meaning no input or K+1 ≤ 8. Beyond that, Go
  reads past the 8-word digest and panics. `Server.Server.ProcessRequest` maps that case
  to the explicit `Panic` error. Nothing recovers that panic, so in Go it ends the whole
  server process, with every connection, the request cache and `controlDifficulty`; the
  ledger the model carries after `Panic` is not a state the server goes on in. See
  "## Findings".
  - The Go nonce and inputs are still modelled exactly: `uint32` wrap-around, including
    K+1 wrapping to 0 for K = 0xFFFFFFFF.
- Pow.ValidateChallenge: requires `Safe(p)` as well, for the same reason: it ends in the
  `ValidateSolution` loop, which panics when K+1 exceeds the 8 digest words.
- Equihash.Equihash.FindProof: requires `Supported(pz)`, meaning K < 8 and N/(K+1) < 32.
  Outside that range Go panics on the digest index, or needs 2^32 or more buckets, which
  uint32 counters cannot address.
- Equihash.Equihash.InitializeMemory: like Go, it allocates every slot of every bucket,
  each with its block slice. The model's abstract `Contents` shows only the slots below
  each bucket's fill count, which is what `fillMemory` writes. A slot's block slice is
  written as one value rather than element by element.
- `sort.Slice` is specified by its result, sorted and a permutation, not by Go's
  algorithm. Which of several equal elements comes first cannot be observed on `uint32`.
- HashcashClient.FindNonce: requires a ghost nonce that passes the test, where the Go loop
  has no bound and need not terminate. Without that nonce, the model does not capture a
  search that runs forever.
- HashcashClient.FindNonce: the Go nonce is an `int`; the model does not wrap it at 2^63,
  and it does not wrap `requestCount` either.
- HashcashClient.FindNonce: its difficulty is a `nat`. The client reads the difficulty
  with `strconv.Atoi` from the server's prompt (`cmd/client/main.go:43`), so it can be
  negative. `strings.Repeat` then panics (`cmd/client/main.go:20`), and the model does not
  capture that panic.
- HashcashClient.ParsePrompt: `None` stands for the index-out-of-range panic that
  `parts[7]` or `parts[11]` raises on a prompt of fewer than twelve words. The model does
  not capture the client ending there.
- An empty quote list makes `rand.Intn(0)` panic, both at `cmd/server/main.go:112` and in
  `GetRandomQuote` (`internal/pkg/quotes/service.go:23`, reached from
  `internal/server/server.go:205`). `HashcashServer.Conversation` and the env of
  `Server.Dispatch` take the quote as a given string, so that crash is not modelled.
- `strconv.Atoi` and `Itoa` assume a 64-bit `int`. `HashcashServer.Prompt` prints any
  integer.
- Random.Run: the alphabet is built from three character runs. That equals the literal
  "abc…XYZ0123456789" of the source, but the model does not state the equality with the
  literal.
- `config.go` loading, `quotes.Service` and the unused `chalenge.go` interface are not
  modelled.

## Findings

`Server.Dispatch` stays the specification of `ProcessRequest` because it models the code
as written. `Server.DispatchChecked` is the corrected redeem path, and
`Server.CheckedRefinesDispatch` relates the two: the correction only refuses more.

| source | as written | input that shows it | evidently intended | confidence | as-written member | corrected member |
|---|---|---|---|---|---|---|
| internal/server/server.go:185-208 | the redeem path checks the proof with `ValidateSolution` alone and then only whether the ID is live; the stored challenge and the distinctness of the indices are never checked | a live ID and a payload that decodes to `Proof(n, 1, seed, nonce, [x, x])`: the two equal indices cancel in every block, so the quote is earned with no work | check the proof against the challenge stored under the ID (`ValidateChallenge`) and require 2^K distinct indices | high, not executed | Server.FreeRedeem | Server.CheckedRefusesRepeat |
| internal/pkg/pow/equihash/pow.go:88-89 | `buf[j]` is read for every j < K+1, but the digest has 8 words; no `recover` in `handleConnection` (internal/server/server.go:117-153) | a payload that decodes to `Proof(n, 8, seed, nonce, [0])`: the read of `buf[8]` panics and ends the whole server process | refuse a proof whose K+1 exceeds the digest as invalid | high, not executed | Server.OneRequestPanics | Server.CheckedNeverPanics |
