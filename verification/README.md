# A model of the light client's verification kernel

This project models the part of the light client that decides what to believe: which headers form
the chain, which Merkle proofs place a transaction in a block, which transactions are kept. Each
module follows one component of `src/light`.

| module | component |
|---|---|
| `Radix`, `Words`, `Wrappers` | positional numbers, bit-or, fixed-width integers, little-endian fields, optional values |
| `Limbs`, `Arith256`, `Compact` | the 256-bit integer of eight limbs, overwritten in place, and the compact form of targets |
| `Asert`, `AsertDomain`, `AsertAnchor` | the ASERT difficulty rule (aserti3-2d), exactly how far its monotonicity reaches, and what it demands at the anchor |
| `Difficulty` | targets as bytes, comparison of hashes and of chain work, the work of a block |
| `MerkleTree`, `MerkleProof`, `MerkleComplete` | Merkle roots and BIP-37 partial Merkle trees: the walk, its soundness, its completeness |
| `Header`, `Wire` | wire forms of headers, counts, partial trees and Merkle blocks |
| `Sha256`, `Sha256Constants` | streaming SHA-256 against FIPS 180-4, and where its constants come from |
| `Median`, `Chain`, `ChainStore`, `Sync`, `SyncAccepts` | median time past, the chain as a value and its invariants, the header store, validation and the processing of `headers` messages: what is safe and what is accepted |
| `PendingTx` | transactions and proofs waiting for their other half |
| `WatchStore` | the watched transactions in memory and in the database |
| `Message` | P2P frames over a byte stream that arrives in chunks |
| `Bloom` | the filter sent to peers |
| `Client` | the chain and the proofs together, with the client's own hash functions |

Objects whose methods change fields or buffers are classes (`ArithUint256`, `Traversal`, `CSHA256`,
`ChainStore`, `PartialMerkleTree`, `PendingTxMap`, `LightWatchStore`, `LightSocket`, `BloomFilter`).
Their methods are proved against functions on values (`Target`, `Walk`, `Digest`, `Process`,
`Expire`, `Commit`, `ParseFrame`, ...), and the theorems are about those functions and about runs of
them.

## Reading the theorems

- **Hashing.** Merkle and chain theorems hold for every hash function; `Client` states the main one
  for SHA256D. No function into 32 bytes is injective, so collision-freeness is asked only of the
  finite set of pairs, or of headers, that were in fact hashed (`CollisionFree`, `NoCollision`,
  `NoTwin`). Likewise `NoTxidIsPair` speaks only of those pairs.
- **Where the code has no defined result** the model has an outcome of its own instead of a value:
  `OutOfBounds` and `Undefined` for nBits with exponent 33 or 34, which store in front of a 32-byte
  buffer; `OutOfBounds` for a stored record whose lengths pass a check that adds in 32 bits;
  `Defined` and `RunDefined` for evictions that read an empty queue.
- **Width of integers.** Casts and wrap-around are written out (`Lo32`, `Lo64`, `Cast32`, `TreeWidth`,
  `MulWords`). The `int64_t` arithmetic of the difficulty rule is covered wherever it does not
  overflow (`Defined`), which includes all heights up to 2^37 (`HeightsFit`). The width of a Merkle
  level is exact up to 2^31 transactions and wraps beyond.

## Where the code departs from its comments or evident intent

The model follows the code.

- `src/light/light_merkle.cpp:180` compares the bytes used with the size of `vBits` divided by eight,
  although `vBits` already counts bytes. Soundness is unaffected; a well-formed proof is accepted
  exactly if it has at most eight bits.
- `src/light/light_merkle.cpp:121-183` takes the number of transactions from the peer, and nothing
  checks it. A count that claims a lower tree passes inner nodes off as txids: with the count 1 the
  Merkle root itself is accepted as one (`RootAcceptedAsTxid`). As long as no
  txid is the hash of a hashed pair, the matches are txids of the block exactly if there are none or
  the claimed height is the block's (`MatchesAreTxidsIff`).
- `src/light/light_merkle.h:8` lists the bits before the hashes; the code reads and writes the hashes
  first.
- `src/light/light_arith_uint256.cpp:53-76` does not encode what `SetCompact` decodes: the round trip
  holds for zero only, so the nBits demanded by the difficulty rule never denote its target.
- `src/light/light_asert.cpp:23` multiplies modulo 2^256, so an on-schedule chain keeps its reference
  target only below 2^240.
- `src/light/light_pendingtx.cpp:17-18` takes two places off the queue for each entry it evicts.
- `src/light/light_pendingtx.h:46` speaks of dropping an entry after more than three retries; the code
  drops it at its third timeout, after two.
- `src/light/light_chainstore.cpp:8-16` overwrites a header without taking back its work or its hash.
- `src/light/light_watchstore.cpp:110-113` clears the memory but not the database, after which a
  commit overwrites a stored record.


## Model

| member | source | states |
|---|---|---|
| `Arith256.ArithUint256.constructor` | src/light/light_arith_uint256.h:18-22 | the number held is the 64-bit argument |
| `Arith256.ArithUint256.FromUint256` | src/light/light_arith_uint256.cpp:14-20 | the limbs denote the number the 32 little-endian bytes denote |
| `Arith256.ArithUint256.ToUint256` | src/light/light_arith_uint256.cpp:22-28 | the 32 bytes denote the number the limbs denote |
| `Arith256.ArithUint256.ShiftLeft` | src/light/light_arith_uint256.cpp:78-101 | in place, value times 2^shift modulo 2^256 for every shift; nothing for shift <= 0. The downward loop reads no limb it has already written |
| `Arith256.ArithUint256.MoveLimbsUp` | src/light/light_arith_uint256.cpp:86-90 | the whole-limb case: value times 2^(32*ws) modulo 2^256 |
| `Limbs.ShlValue` | src/light/light_arith_uint256.cpp:91-99 | limbs that each join two neighbours of the old number denote its value times 2^(32*ws+bs) modulo 2^256 |
| `Arith256.ArithUint256.ShiftRight` | src/light/light_arith_uint256.cpp:103-126 | in place, floor division by 2^shift; nothing for shift <= 0. The upward loop reads no limb it has already written |
| `Arith256.ArithUint256.MoveLimbsDown` | src/light/light_arith_uint256.cpp:111-115 | the whole-limb case: floor division by 2^(32*ws) |
| `Limbs.ShrValue` | src/light/light_arith_uint256.cpp:116-124 | limbs that each join two neighbours of the old number denote its floor quotient by 2^(32*ws+bs) |
| `Arith256.ArithUint256.MulAssign` | src/light/light_arith_uint256.cpp:128-136 | multiplication modulo 2^256 for factors up to 2^32; for larger ones the exact words the wrapping loop leaves |
| `Compact.MulExactIff` | src/light/light_arith_uint256.cpp:128-136 | multiplication is exact modulo 2^256 for every number if and only if the factor is at most 2^32 |
| `Arith256.ArithUint256.AddAssign` | src/light/light_arith_uint256.cpp:138-146 | sum modulo 2^256, also when both operands are one object |
| `Arith256.ArithUint256.SubAssign` | src/light/light_arith_uint256.cpp:148-156 | difference modulo 2^256, also when both operands are one object |
| `Arith256.ArithUint256.Not` | src/light/light_arith_uint256.cpp:158-162 | a new number, 2^256 - 1 minus the value |
| `Arith256.ArithUint256.ShiftInBit` | src/light/light_arith_uint256.cpp:169-172 | shifting the remainder and or-ing in a bit is doubling and adding it, given that doubling loses nothing |
| `Limbs.DoubleFits` | src/light/light_arith_uint256.cpp:168-169 | before every step of the division the doubled remainder plus the next bit is below 2^256, even for divisors above 2^255 |
| `Arith256.ArithUint256.SetBit` | src/light/light_arith_uint256.cpp:175 | or-ing in a quotient bit that lies below all set bits adds its power of two |
| `Arith256.ArithUint256.DivideBit` | src/light/light_arith_uint256.cpp:168-177 | one step keeps the division invariant: the part of the dividend consumed is quotient*divisor + remainder with remainder below the divisor |
| `Arith256.ArithUint256.DivAssign` | src/light/light_arith_uint256.cpp:164-180 | exact floor division for every nonzero divisor; unchanged for zero; also when the divisor is the number itself |
| `Arith256.ArithUint256.IsZero` | src/light/light_arith_uint256.cpp:182-185 | true exactly for the number 0 |
| `Arith256.ArithUint256.Equals` | src/light/light_arith_uint256.cpp:187-190 | true exactly for equal numbers |
| `Arith256.ArithUint256.Less` | src/light/light_arith_uint256.cpp:192-198 | numeric order |
| `Arith256.ArithUint256.Times` | src/light/light_arith_uint256.h:46-50 | the by-value product, in a fresh object; exact modulo 2^256 for factors up to 2^32 |
| `Arith256.ArithUint256.Plus` | src/light/light_arith_uint256.h:61-65 | the by-value sum modulo 2^256, in a fresh object |
| `Arith256.ArithUint256.Over` | src/light/light_arith_uint256.h:71-75 | the by-value quotient, in a fresh object |
| `Arith256.ArithUint256.SetCompact` | src/light/light_arith_uint256.cpp:30-51 | the number stored is mantissa * 256^(size-3), rounded down for sizes below 3 and taken modulo 2^256 |
| `Arith256.ArithUint256.GetCompact` | src/light/light_arith_uint256.cpp:53-76 | the two scanning loops find the top limb and its highest bit; the result is the word and size built from them |
| `Compact.CompactRoundTripOnlyZero` | src/light/light_arith_uint256.cpp:30-76 | SetCompact of GetCompact gives a number back if and only if that number is zero |
| `Asert.CalculateASERT` | src/light/light_asert.cpp:8-43 | the limb computation equals the integer function Target wherever no int64_t expression overflows; the inputs are not changed |
| `Asert.QuotTruncates` | src/light/light_asert.cpp:12-13 | the remainder of the int64_t division is smaller than the divisor and never has the sign opposite to the dividend |
| `Asert.CubicFits` | src/light/light_asert.cpp:18-21 | the cubic stays below 2^64 for every 16-bit frac, and comes within 2^48 of it at 65535 |
| `Asert.FactorBounds` | src/light/light_asert.cpp:18-21 | the factor is 65536 plus the cubic shifted down by 48, and lies between 65536 and 131071 |
| `Asert.FactorMono` | src/light/light_asert.cpp:18-21 | the factor never falls as frac grows |
| `Asert.ShiftBack` | src/light/light_asert.cpp:29-34 | shifting back gives the number again if and only if the shift lost no bit |
| `Asert.TargetIsScaledProduct` | src/light/light_asert.cpp:8-43 | for every reference target: the product modulo 2^256, scaled by 2^(shifts-16) with rounding down, clamped to 1..powLimit |
| `Asert.TargetIsFormula` | src/light/light_asert.cpp:8-43 | max(1, min(powLimit, floor(ref*factor*2^(shifts-16)))) whenever ref*factor fits 256 bits |
| `Asert.MonotoneInTime` | src/light/light_asert.cpp:12-42 | a larger time difference never lowers the target, across the wrap of frac at every half-life |
| `Asert.AntitoneInHeight` | src/light/light_asert.cpp:12-42 | a larger height difference never raises the target |
| `AsertDomain.MonotoneIff` | src/light/light_asert.cpp:12-42 | for 1 <= ref <= powLimit < 2^256 the target is monotone in time for all other arguments if and only if ref times the largest factor fits 256 bits |
| `AsertDomain.AntitoneIff` | src/light/light_asert.cpp:12-42 | and antitone in height under the same condition, exactly |
| `AsertDomain.FactorStep` | src/light/light_asert.cpp:18-21 | from one frac to the next the factor grows by 0, 1 or 2 |
| `Asert.OnSchedule` | src/light/light_asert.cpp:12-42 | a chain exactly on schedule gets its reference target back if and only if that target is below 2^240 |
| `Asert.WholeHalfLives` | src/light/light_asert.cpp:12-42 | exactly k half-lives off schedule the target is the low 240 bits of the reference, doubled or halved k times, within 1..powLimit |
| `Asert.GetNextASERTBits` | src/light/light_asert.cpp:45-61 | below the anchor the previous nBits, from the anchor on the compact form of the rule's target, wherever the int64_t arithmetic is defined |
| `Asert.HeightsFit` | src/light/light_asert.cpp:45-61 | which it is for every block time up to height 2^37 |
| `Asert.DemandedBitsMissTarget` | src/light/light_asert.cpp:45-61 | from the anchor on the nBits demanded never denote the target the rule computed |
| `AsertAnchor.TargetAtHalfLives` | src/light/light_asert.cpp:45-61 | for every height from 21256 and every whole number k of half-lives off schedule the target is 0x36845b * 2^168 times 2^k, at least 1 and at most 0xffff * 2^208 |
| `AsertAnchor.BitsOnSchedule` | src/light/light_asert.cpp:45-61 | exactly on schedule, at any height, the nBits demanded are 0x1936845b |
| `AsertAnchor.BitsOneHalfLifeLate` | src/light/light_asert.cpp:45-61 | exactly one half-life late they are 0x1808b600 |
| `MerkleTree.ComputeMerkleRoot` | src/light/light_merkle.cpp:71-84 | the loop over levels computes RootOf, with the zero hash for an empty list |
| `MerkleTree.NextLevel` | src/light/light_merkle.cpp:75-80 | one level: pairs hashed left to right, an odd last entry with itself |
| `MerkleTree.NextAt` | src/light/light_merkle.cpp:75-80 | entry i of the next level is the hash of entries 2i and 2i+1, the latter replaced by the former if missing |
| `MerkleTree.WidthFormula` | src/light/light_merkle.cpp:128-130 | halving upward h times is (n + 2^h - 1) / 2^h |
| `MerkleTree.TreeWidthIs` | src/light/light_merkle.cpp:128-130 | up to 2^31 transactions the unsigned width expression does not wrap and is the number of nodes |
| `MerkleTree.TreeHeight` | src/light/light_merkle.cpp:131-132 | terminates for every 32-bit count, at the least height whose width is at most one |
| `MerkleTree.HeightIsTop` | src/light/light_merkle.cpp:127-132 | up to 2^31 transactions that is the least height of width one |
| `MerkleTree.NodeOfNext` | src/light/light_merkle.cpp:71-84 | hashing one level up front moves every node of the tree one level down and changes no hash |
| `MerkleTree.RootIsTopNode` | src/light/light_merkle.cpp:71-84 | the level-by-level root is the hash of the top node of the (height, pos) tree, for every list length |
| `MerkleTree.RootIsTraversalTop` | src/light/light_merkle.cpp:71-84 | and that node is where the traversal starts, for every list of 1 to 2^31 transactions |
| `MerkleProof.GetBitIs` | src/light/light_merkle.cpp:139-142 | within the bits there are, GetBit reads the least-significant-first unpacking of the bytes |
| `MerkleProof.UnpackPack` | src/light/light_merkle.cpp:139-142 | bits packed into bytes are read back in front of the padding |
| `MerkleProof.Traversal.Traverse` | src/light/light_merkle.cpp:145-174 | the closure with its two cursors, bad flag and match list computes Walk, and the position never wraps |
| `MerkleProof.Traversal.TraverseChildren` | src/light/light_merkle.cpp:163-173 | an inner node: both children or the left one twice, with equal siblings marked bad |
| `MerkleProof.Traversal.NextHash` | src/light/light_merkle.cpp:152-162 | a given node: one hash taken, matched if it is a flagged leaf, bad if none is left |
| `MerkleProof.ExtractMatches` | src/light/light_merkle.cpp:121-183 | accepts exactly if all entry and exit checks hold, the byte counts compared as the code compares them; then returns the walk's root and matches |
| `MerkleProof.WalkGrows` | src/light/light_merkle.cpp:145-174 | a bad walk stays bad, and matches are only appended |
| `MerkleProof.OpenedAgree` | src/light/light_merkle.cpp:163-173 | where a clean walk opens a node and returns its true hash, the walks below it are clean and return true children, unless hashed pairs collide: a second child the block does not have is marked bad, one the walk does not have is passed over |
| `MerkleProof.MatchesUnder` | src/light/light_merkle.cpp:145-174 | every match of any walk lies as many levels of hashed pairs below the hash returned as the walk is high |
| `MerkleProof.WalkFinds` | src/light/light_merkle.cpp:145-174 | a clean walk that returns a node's true hash matches nodes below it at increasing positions, whatever the row widths it uses |
| `MerkleProof.Soundness` | src/light/light_merkle.cpp:121-183 | for any transaction count, bits and hashes: what an accepted proof under a block's root yields are nodes of the block's tree at increasing positions, in the row as far above the txids as the block's tree is higher than the one claimed, or as far below txids as it is lower; txids if the heights are equal; unless two pairs that were hashed collide |
| `MerkleProof.MatchesAreTxidsIff` | src/light/light_merkle.cpp:121-183 | if no txid is the hash of a hashed pair, the matches are txids of the block if and only if there are none or the claimed count gives the block's height; a higher claim yields none |
| `MerkleProof.SoundnessProves` | src/light/light_merkle.cpp:121-183 | both of these about one proof |
| `MerkleProof.RootPassesAlone` | src/light/light_merkle.cpp:121-183 | with the count 1 any hash is accepted as root and only match, without hashing a pair |
| `MerkleProof.RootIsNoTxid` | src/light/light_merkle.cpp:71-84 | the root of several txids is none of them, unless a txid is the hash of a hashed pair |
| `MerkleProof.MoreHashesRefused` | src/light/light_merkle.cpp:181 | an accepted proof with one more hash appended is refused |
| `MerkleProof.RootBinds` | src/light/light_merkle.cpp:71-84 | two blocks of one size have the same root if and only if they list the same txids, unless two pairs that were hashed collide |
| `MerkleComplete.WalkEncoded` | src/light/light_merkle.cpp:145-174 | the walk over any subtree's encoding returns its hash, consumes exactly the encoding and matches exactly what is flagged |
| `MerkleComplete.Completeness` | src/light/light_merkle.cpp:145-176 | for every block of distinct txids and every choice: not bad, every bit and hash used, exactly the chosen txids in order, and the block's root |
| `MerkleComplete.AcceptedIffEightBits` | src/light/light_merkle.cpp:180 | ExtractMatches accepts that well-formed proof if and only if it has at most eight bits |
| `MerkleComplete.FiveMatchesRejected` | src/light/light_merkle.cpp:180 | a block of five with all wanted needs eleven bits and is turned down |
| `Wire.CompactSizeRoundTrip` | src/light/light_merkle.cpp:20-58 | a count is read back wherever it was written, and the position moves past it |
| `Wire.CompactSizeForm` | src/light/light_merkle.cpp:44-58 | a count is one byte, or a marker and the fewest of 2, 4 or 8 little-endian bytes that hold it |
| `Wire.TreeLayout` | src/light/light_merkle.cpp:109-119 | the order on the wire: the number of transactions, the hashes under their count, the bits under theirs |
| `Wire.PartialMerkleTree.Deserialize` | src/light/light_merkle.cpp:86-107 | the cursor code computes ParseTree: which fields a failure leaves assigned, and where success or failure leaves the cursor |
| `Wire.PartialMerkleTree.Serialize` | src/light/light_merkle.cpp:109-119 | the bytes written are SerializeTree of the fields |
| `Wire.TreeRoundTrip` | src/light/light_merkle.cpp:86-119 | a tree embedded anywhere in a byte string parses back, leaving any suffix, if and only if both counts are at most 2^20 |
| `Wire.CutTreeRefused` | src/light/light_merkle.cpp:86-119 | no proper prefix of a serialized tree within the count limits parses |
| `Wire.BlockRoundTrip` | src/light/light_merkle.cpp:185-191 | a Merkle block within the count limits comes back from its bytes, whatever follows |
| `Wire.PartialMerkleTree.ExtractMatches` | src/light/light_merkle.cpp:121-183 | the same acceptance and results for the fields of the object |
| `Wire.ExtractBlockMatches` | src/light/light_merkle.cpp:193-196 | accepts exactly if the tree does and its root is the header's |
| `Wire.BlockSoundness` | src/light/light_merkle.cpp:193-196 | an accepted Merkle block, whatever count it names, yields what Soundness and MatchesAreTxidsIff say of the block whose root its header carries |
| `Wire.RootAcceptedAsTxid` | src/light/light_merkle.cpp:193-196 | under the header of any block of several txids a Merkle block is accepted that yields the root as a txid, with no collision; the root is none of the block's txids, unless one is the hash of a hashed pair |
| `Header.FieldsStand` | src/light/light_header.cpp:21-31 | where each field stands in the 80 bytes, words little-endian, the version in two's complement |
| `Header.ParseSerialize` | src/light/light_header.cpp:21-42 | a header comes back from its 80 bytes, whatever follows them |
| `Header.SerializeParse` | src/light/light_header.cpp:21-42 | every 80 bytes are the serialization of the header they parse to |
| `Sha256.CSHA256.constructor` | src/light/light_sha256.cpp:27-36 | the initial hash value of FIPS 180-4 section 5.3.3, nothing buffered |
| `Sha256.CSHA256.Transform` | src/light/light_sha256.cpp:38-78 | the compression of FIPS 180-4 section 6.2.2 on the buffered block, for every state |
| `Sha256.CSHA256.Schedule` | src/light/light_sha256.cpp:39-48 | the 64 words are the message schedule of section 6.2.2 |
| `Sha256.CSHA256.Write` | src/light/light_sha256.cpp:80-95 | after any sequence of calls the state is the fold over the complete blocks written and the buffer holds the rest |
| `Sha256.CSHA256.Fill` | src/light/light_sha256.cpp:83-92 | one turn of the loop: at most a buffer's worth of bytes, transformed when full |
| `Sha256.CSHA256.Finalize` | src/light/light_sha256.cpp:97-117 | terminates and yields the digest of everything written, over the padded message |
| `Sha256.OutputIsState` | src/light/light_sha256.cpp:111-116 | the bytes put out, read as big-endian words, are the final state |
| `Sha256.LengthReadBack` | src/light/light_sha256.cpp:105-109 | the length field read most significant byte first is the length |
| `Sha256.ChChooses` | src/light/light_sha256.cpp:55 | Ch takes y's bits where x has a bit and z's elsewhere |
| `Sha256.MajAgrees` | src/light/light_sha256.cpp:59 | where two of the three words agree, Maj has their bit |
| `Sha256.RotrRotates` | src/light/light_sha256.cpp:23 | rotr turns a word right, by every amount used |
| `Sha256Constants.RoundConstants` | src/light/light_sha256.cpp:9-21 | each K[t] is the first 32 bits of the fractional part of the cube root of prime number t |
| `Sha256Constants.InitialValue` | src/light/light_sha256.cpp:28-35 | each initial word is the first 32 bits of the fractional part of the square root of its prime |
| `Sha256Constants.ListedArePrimes` | src/light/light_sha256.cpp:9-21 | the numbers these are the roots of are exactly the primes below 312 |
| `Sha256Constants.ListedInOrder` | src/light/light_sha256.cpp:9-21 | in increasing order |
| `Sha256.PaddingIsLeast` | src/light/light_sha256.cpp:98-109 | in bits: the fewest zeros after the bit 1 that make the length 448 modulo 512, as section 5.1.1 asks, and whole blocks in all |
| `Sha256.FoldAppend` | src/light/light_sha256.cpp:80-95 | folding over two pieces in turn is folding over their concatenation, if the first is whole blocks |
| `Sha256.HashChunks` | src/light/light_sha256.cpp:80-117 | however a message is cut into Write calls, the hash is that of the whole message |
| `Sha256.Hash` | src/light/light_sha256.cpp:131-135 | the digest of the message |
| `Sha256.HashTwice` | src/light/light_sha256.cpp:137-141 | SHA256D |
| `Difficulty.TargetFromBits` | src/light/light_validation.cpp:10-36 | for every nBits: a buffer that denotes, big-endian, the number SetCompact stores; refused exactly if that number is zero; out of bounds exactly for a nonzero mantissa with exponent 33 or 34 |
| `Difficulty.ShortTarget` | src/light/light_validation.cpp:16-22 | exponents up to 3: the mantissa shifted down, refused if nothing is left |
| `Difficulty.LongTarget` | src/light/light_validation.cpp:23-34 | larger exponents: the mantissa at its place, refused beyond 256 bits |
| `Difficulty.HashLeTarget` | src/light/light_validation.cpp:38-52 | numeric order of hash and target |
| `Difficulty.ChainWorkGe` | src/light/light_checkpoints.cpp:5-13 | numeric order of two chain works |
| `Difficulty.WorkExpression` | src/light/light_chainstore.cpp:56 | the limb expression (~t / (t + 1)) + 1, with every step taken modulo m, is floor(m / (t + 1)) modulo m for every t < m, including the wrap of t + 1; the limbs use m = 2^256 |
| `Difficulty.WorkOfTarget` | src/light/light_chainstore.cpp:52-59 | for t >= 1 that is floor(m / (t + 1)) exactly, and at least 1 |
| `Difficulty.WorkAntitone` | src/light/light_chainstore.cpp:52-59 | a smaller target never means less work |
| `Median.MedianAtLeast` | src/light/light_chainstore.cpp:48-49 | the element sorted to index size/2 is at least m if and only if at most half the elements are below m |
| `Median.SortSorts` | src/light/light_chainstore.cpp:48 | the model of std::sort sorts; its ensures make it a permutation |
| `Median.SlideKeepsMedian` | src/light/light_chainstore.cpp:40-50 | a time not below the median cannot lower the median of the sliding window, filling or full |
| `ChainStore.ChainStore.constructor` | src/light/light_chainstore.cpp:61-67 | an empty store: tip -1, no work |
| `ChainStore.ChainStore.AddHeader` | src/light/light_chainstore.cpp:8-16 | both indexes updated in place, the tip raised if the height is above it |
| `ChainStore.ChainStore.GetHeaderAtHeight` | src/light/light_chainstore.cpp:18-23 | found exactly if stored |
| `ChainStore.ChainStore.GetHeightByHash` | src/light/light_chainstore.cpp:25-30 | found exactly if indexed |
| `ChainStore.ChainStore.GetMedianTimePast` | src/light/light_chainstore.cpp:40-50 | the upper median of the up to eleven times at and below a height, 0 if there are none |
| `ChainStore.ChainStore.AddWork` | src/light/light_chainstore.cpp:52-59 | both copies of the chain work grow by the block's work modulo 2^256 |
| `ChainStore.ChainStore.WorkOf` | src/light/light_chainstore.cpp:54-56 | the limb expression yields the block's work |
| `ChainStore.ChainStore.Reset` | src/light/light_chainstore.cpp:61-67 | back to the empty store |
| `Chain.GrownInv` | src/light/light_chainstore.cpp:8-16 | a linked and checked header put on top keeps the whole invariant: contiguous, linked, indexed both ways, work-summed, checked above the checkpoint |
| `Chain.WorkGrows` | src/light/light_chainstore.cpp:52-59 | chain work is the exact sum of the headers' work and grows strictly, while the sum stays below 2^256 |
| `Chain.RewriteKeepsWorkIff` | src/light/light_chainstore.cpp:8-16 | storing a header at an occupied height keeps chain work the sum of the stored headers' work if and only if the replaced header had none |
| `Chain.RewriteKeepsIndexIff` | src/light/light_chainstore.cpp:8-16 | and keeps the hash index sound if and only if the hash is the same or the index pointed elsewhere |
| `Chain.RewriteKeepsLinksIff` | src/light/light_chainstore.cpp:8-16 | and keeps the links if and only if the new header names the one below and the one above names it, where there are such |
| `Chain.WindowSlides` | src/light/light_chainstore.cpp:42-46 | one block up, the times collected are those before with the new time in front, the oldest dropped from a full window |
| `Chain.MedianTimePastIff` | src/light/light_chainstore.cpp:40-50 | median time past at a height is at least m if and only if at most half of the min(11, height + 1) headers at and below it have a time before m |
| `Chain.MedianNeverFalls` | src/light/light_chainstore.cpp:40-50 | median time past never goes back along a chain that keeps the invariant, from the checkpoint up |
| `Chain.HashFixesHistory` | src/light/light_validation.cpp:64-68 | two linked chains with one hash at a height agree on every header below it, unless headers of theirs collide |
| `ChainStore.CheckCheckpoint` | src/light/light_validation.cpp:114-130 | passes exactly if the store has at least the stated work and the stated hash at the checkpoint height, each only if stated |
| `ChainStore.TooLittleWorkFails` | src/light/light_validation.cpp:115-119 | a store with less work than stated fails |
| `ChainStore.PassesWhenGrown` | src/light/light_validation.cpp:114-130 | a store that passes still passes with one more header on top, while the sum of the work stays below 2^256 |
| `ChainStore.CheckpointFixesHistory` | src/light/light_validation.cpp:120-128 | two stores that pass the check of one checkpoint hash have the same history up to it, unless headers of theirs collide |
| `Sync.ValidateHeader` | src/light/light_validation.cpp:56-112 | the checks in the source's order, with the reason of the first that fails; historical headers are checked for their link alone |
| `Sync.HandleHeader` | src/light/light_sync.cpp:133-154 | one header is stored and its work added exactly if validation and the difficulty rule pass; otherwise the store is unchanged |
| `Sync.HandleMessage` | src/light/light_sync.cpp:104-156 | one headers message: format checks, then header by header up to the first failure, keeping what came before |
| `Sync.ProcessHeaders` | src/light/light_sync.cpp:93-161 | messages dropped up to the first headers message, then that; the count accepted or -1 and the reason |
| `Sync.AcceptedIsChecked` | src/light/light_sync.cpp:135-153 | a header accepted on top of a sound chain is linked to it and, above the checkpoint, meets proof of work, median time, future time, version and the difficulty rule |
| `Sync.AcceptedIffChecked` | src/light/light_sync.cpp:135-153 | on top of a sound chain a header is accepted if and only if it is linked and, above the checkpoint, meets every one of those rules, with a time at most 7200 seconds after the client's, as 32 bits tell it; the first header of all must not bear time 0 |
| `Sync.HeadersKeepInv` | src/light/light_sync.cpp:114-154 | over the headers of one message the invariant holds throughout, nothing stored changes, and the tip rises by the number accepted |
| `Sync.ProcessKeepsInv` | src/light/light_sync.cpp:93-161 | one call started at tip + 1, whatever the peer sends and however it ends, keeps the invariant and only extends the chain |
| `Sync.RunKeepsInv` | src/light/light_sync.cpp:93-161 | so does any sequence of such calls, each with its own peer and clock |
| `Sync.RunIsSound` | src/light/light_sync.cpp:93-161 | after any such sequence from an empty store: the whole invariant, and median time past never goes back from the checkpoint up |
| `Sync.GapAcceptsNothing` | src/light/light_sync.cpp:127-130 | a call started beyond tip + 1 accepts nothing and changes nothing, whatever the peer sends |
| `Sync.OverlapBreaksWork` | src/light/light_sync.cpp:152-153 | a call started at an occupied height whose header had a target leaves a chain work that is no longer the sum, once one header is accepted |
| `SyncAccepts.HeadersAccepted` | src/light/light_sync.cpp:93-161 | from the bytes: after any messages with other commands, of the items of a headers message of at most 2000 exactly those before the first that carries transactions or is not acceptable on the chain grown by those before it are accepted, and the chain grows by them in order; the call succeeds if and only if all are fine |
| `SyncAccepts.TooManyRefused` | src/light/light_sync.cpp:108-112 | more than 2000 items: refused, nothing accepted |
| `SyncAccepts.CutRefused` | src/light/light_sync.cpp:108-112 | a payload cut off anywhere is refused, and not even its whole headers are accepted |
| `SyncAccepts.ItemStands` | src/light/light_sync.cpp:114-131 | item i of the wire form is the header and transaction count read at its place |
| `SyncAccepts.CommandIsHeaders` | src/light/light_sync.cpp:103 | the command compared with is the word headers |
| `PendingTx.PendingTxMap.EraseTx` | src/light/light_pendingtx.cpp:5-13 | the entry and the first queue place of that txid are gone, nothing else |
| `PendingTx.PendingTxMap.EnforceFifo` | src/light/light_pendingtx.cpp:15-20 | one eviction if the map is over its limit: the front entry with its place, and the next queue place without its entry |
| `PendingTx.PendingTxMap.AddTxid` | src/light/light_pendingtx.cpp:22-36 | an entry is marked or inserted at the back, with the eviction that may follow; true exactly if it is new |
| `PendingTx.PendingTxMap.AddProof` | src/light/light_pendingtx.cpp:38-57 | the same for a proof, which also sets height and block hash |
| `PendingTx.PendingTxMap.TakePair` | src/light/light_pendingtx.cpp:59-66 | the entry is returned and removed exactly if both halves are there |
| `PendingTx.PendingTxMap.ExpireAll` | src/light/light_pendingtx.cpp:79-98 | every due entry is one retry older and erased with its third; the others due are reported, in the order the map is walked |
| `PendingTx.RunInv` | src/light/light_pendingtx.cpp:5-98 | every defined run keeps the queue duplicate-free and within the map keys, at most 4096 entries, and retry counts 0 to 2 |
| `PendingTx.PairedIffBothArrived` | src/light/light_pendingtx.cpp:22-66 | a pair is ready exactly if both halves arrived, in either order, since the entry was last added |
| `PendingTx.PairTakenOnce` | src/light/light_pendingtx.cpp:59-66 | a pair that is taken is gone from map and queue, and no other entry is touched |
| `PendingTx.EntryCarriesLastProof` | src/light/light_pendingtx.cpp:22-57 | over every defined run an entry has the height and block hash of the last proof since it was inserted, or -1 and the null hash before the first |
| `PendingTx.PairCarriesLastProof` | src/light/light_pendingtx.cpp:38-66 | a pair that is ready is the txid's own, with the height and block hash of the last proof received for it, which is not older than its insertion |
| `PendingTx.QueuedAtMostTwice` | src/light/light_pendingtx.cpp:79-98 | the retry count of an entry is the number of times it was queued for retry, at most two |
| `PendingTx.TimeoutOutcome` | src/light/light_pendingtx.cpp:79-98 | an entry that has both halves or is younger than 30000 ms is untouched; any other is queued again twice, and dropped without a retry the third time |
| `PendingTx.QueueIsWhole` | src/light/light_pendingtx.cpp:22-57 | until the first eviction the queue holds exactly the map's keys |
| `PendingTx.QueueIsInInsertionOrder` | src/light/light_pendingtx.cpp:22-57 | over every defined run, evictions included and whatever the clock says: of two entries in the queue the one in front was inserted by the earlier operation |
| `PendingTx.SeenWhenInserted` | src/light/light_pendingtx.cpp:22-57 | an entry's first-seen time is that of the operation that inserted it last |
| `PendingTx.QueueIsOldestFirst` | src/light/light_pendingtx.cpp:22-57 | so with a clock that does not go back the queue is ordered by first-seen time |
| `PendingTx.FreshAddsDefinedIff` | src/light/light_pendingtx.cpp:15-20 | additions of distinct txids stay defined if and only if there are at most 8192 of them: each eviction takes two queue places |
| `WatchStore.RecordRoundTripIff` | src/light/light_watchstore.cpp:50-81 | a record comes back from its value if and only if both blobs are shorter than 2^32 bytes |
| `WatchStore.EncodedParts` | src/light/light_watchstore.cpp:50-60 | where the fields of a record stand in its value |
| `WatchStore.KeyForms` | src/light/light_watchstore.cpp:34-48 | record keys are 0x01 and the txid; index keys are 0x02, the address, a zero byte and the txid |
| `WatchStore.AddrKeyRoundTripIff` | src/light/light_watchstore.cpp:41-48 | an index key is read back as its address and txid if and only if the address has no zero byte |
| `WatchStore.LightWatchStore.Open` | src/light/light_watchstore.cpp:89-99 | the memory becomes the image of whatever database is found; empty and closed if none can be opened |
| `WatchStore.LightWatchStore.Close` | src/light/light_watchstore.cpp:101-108 | no database, empty memory |
| `WatchStore.LightWatchStore.ClearMemory` | src/light/light_watchstore.cpp:110-113 | empty memory, the database untouched |
| `WatchStore.LightWatchStore.LoadFromDB` | src/light/light_watchstore.cpp:115-141 | the loop over the iterator's keys, where the first record for a txid wins |
| `WatchStore.LoadIsImage` | src/light/light_watchstore.cpp:115-141 | loading any readable database in key order gives its image: for every txid its first readable record, for every well-formed index key its pair, and nothing else |
| `WatchStore.ImageIsUnique` | src/light/light_watchstore.cpp:115-141 | a database has only one image |
| `WatchStore.LightWatchStore.CommitTx` | src/light/light_watchstore.cpp:147-174 | database and memory updated together, or neither; fails exactly if the disk is full or an open database refuses the batch |
| `WatchStore.CommitKeepsImageIff` | src/light/light_watchstore.cpp:147-174 | after a commit the memory is still the database's image if and only if the address has no zero byte and a record that had to be written has blobs below 2^32 bytes |
| `WatchStore.RunStaysFaithful` | src/light/light_watchstore.cpp:147-174 | over any run of commits with such arguments, some failing, the memory stays the image of the database |
| `WatchStore.ReopenRestores` | src/light/light_watchstore.cpp:101-141 | so loading after the run gives exactly the memory the run left |
| `WatchStore.FirstRecordWins` | src/light/light_watchstore.cpp:147-174 | over any run, with a database or without, a record present at the start is kept, and every other is that of the first successful call for its txid; without a database a call succeeds unless the disk is full |
| `WatchStore.IndexIsBacked` | src/light/light_watchstore.cpp:147-174 | over any run, with a database or without, the index is the old one plus the pairs of the successful calls, and each entry has its record |
| `WatchStore.ClearedIsImageIff` | src/light/light_watchstore.cpp:110-113 | the cleared memory is the database's image only if the database holds nothing readable |
| `WatchStore.ClearedThenOverwritten` | src/light/light_watchstore.cpp:110-113 | after clearing, the next commit for a txid overwrites its stored record, whatever it was |
| `WatchStore.LightWatchStore.GetTx` | src/light/light_watchstore.cpp:180-185 | while the memory is the database's image, what is found is the database's first readable record of that txid, and nothing is found only if the database has none |
| `Message.EncodeMessage` | src/light/light_message.cpp:36-55 | fails exactly for a command above 12 or a payload above 32 MiB; otherwise the buffer written is the frame |
| `Message.VerifyChecksum` | src/light/light_message.cpp:57-61 | true exactly for the first four bytes of SHA256D of the payload |
| `Message.ChecksumBytes` | src/light/light_message.cpp:47-49 | on the wire the checksum is the first four bytes of the double hash |
| `Message.FrameParts` | src/light/light_message.cpp:41-53 | where the parts of a frame stand |
| `Message.ReadExact` | src/light/light_message.cpp:11-21 | fills the buffer with the next bytes of the stream, however it is cut into chunks, and fails exactly if the stream is too short |
| `Message.LightSocket.RecvSome` | src/light/light_socket.cpp:200-226 | between one byte and the number asked for, in stream order, or none after a timeout or the end |
| `Message.ReadMessage` | src/light/light_message.cpp:63-99 | depends on the stream alone: returns what ParseFrame reads and leaves the rest, or closes the connection |
| `Message.FrameRoundTrip` | src/light/light_message.cpp:36-99 | a frame at the head of a stream is read back with the rest untouched if and only if its command has no zero byte |
| `Message.ReadIsFrameIff` | src/light/light_message.cpp:63-99 | what has been read is the encoding of the message returned if and only if the bytes behind the command are zero |
| `Message.StreamRoundTrip` | src/light/light_message.cpp:36-99 | a sequence of frames comes back message by message |
| `Message.SplitRoundTrip` | src/light/light_message.cpp:11-99 | and does so under every split of the bytes into nonempty chunks |
| `Bloom.BloomFilter.Insert` | src/light/light_filter.cpp:101-111 | sets exactly the element's bits in place and counts it; refused, unchanged, exactly if the filter is full or cannot hash |
| `Bloom.BloomFilter.Contains` | src/light/light_filter.cpp:113-123 | true exactly if all the element's bits are set |
| `Bloom.BitsOfRun` | src/light/light_filter.cpp:101-111 | after any insertions a bit is set exactly if one of the first 20000 elements has it |
| `Bloom.ReportedIffCovered` | src/light/light_filter.cpp:101-123 | no accepted element is missed, and an element is reported if and only if each of its bits belongs to an accepted element |
| `Client.AcceptedProofIsOnChain` | demo/demo_win32.cpp:466-480 | after any sequence of header syncs, an accepted Merkle block whose header hash is indexed carries a header of a sound chain, and what it yields lies in that block as Soundness says, whatever count it names; unless hashes that were computed collide |

## Left out

- Asert.GetNextASERTBits: asked only where the `int64_t` expressions of the rule are defined, because beyond that C++ gives them no value.
- Sync.HandleHeader: asked only for heights up to 2^37, for the same reason: no block time overflows there.
- Sync.HandleMessage: asked only for start heights up to 2^37 - 2000, likewise.
- Sync.ProcessHeaders: asked only for start heights up to 2^37 - 2000, likewise; a `headers` message whose nBits send the byte code outside its buffer ends with the outcome `Unmodelled`.
- Asert.MonotoneInTime: for reference targets whose product with the largest factor fits 256 bits, which is exactly where it holds (`AsertDomain.MonotoneIff`), and exponents whose shifts fit `int`.
- Asert.AntitoneInHeight: the same domain, exactly (`AsertDomain.AntitoneIff`), and a target spacing that is not negative, without which more blocks are no sign of being early.
- Arith256.ArithUint256.MulAssign: for factors above 2^32 the contract gives the words the loop leaves, not a product, because there is none (`Compact.MulExactIff`).
- Arith256.ArithUint256.GetCompact: the contract is the word and size the scan finds, because the result has no better meaning; what it fails to mean is `Compact.CompactRoundTripOnlyZero`.
- MerkleProof.Soundness: asks for a block of 1 to 2^31 transactions, because the height of a longer one cannot be expressed in the unsigned widths; the count claimed is any 32-bit number.
- PendingTx.RunInv: speaks of runs in which every eviction finds a second queue place, because popping an empty queue has no defined result.
- WatchStore.LightWatchStore.LoadFromDB: asks that no stored value sends the copy out of bounds; values written by commits with bounded blobs never do.
- `std::sort` is modelled as the function to a sorted permutation; `std::map` and `std::unordered_map` as finite maps, with the order in which a hash map is walked as a parameter.
- LevelDB is a finite map from byte strings to byte strings with an iterator in bytewise order and an atomic batch that is taken or refused.
- Sockets, timeouts, clocks and peers appear as parameters: chunks of bytes, messages, times. Threads, sleeping, rate limiting, the locator of `getheaders` and reconnection are not modelled.
- MurmurHash3 is a parameter of the Bloom filter, and so are the filter's size and number of hash functions, which the source computes in floating point.
- The cryptographic strength of SHA-256 is not a subject here.
- `FinalizeHex`, `GetTxidsByAddr` and the `FILTERLOAD` serialization: formatting and lookups that would only add easy members.
- `light_state`, `light_txpool`, `light_peer_policy`, `light_sendmonitor`, `light_tx`, `light_connman`, the C interface and the demo program apart from its use of proofs: small or input and output.
