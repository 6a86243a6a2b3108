# Merkle proof inputs for one deposit, in Dafny

`circuit/computeProofInputs.js` is a script that precomputes the inputs a
proving circuit expects for a single hardcoded deposit. The secret is 7, the
nullifier is 11, and the leaf index is 0. It computes:

- the commitment `keccakHash(secret, nullifier)`;
- the nullifier hash `keccakHash(nullifier)`;
- the chain of empty-subtree values `zeros` of a depth-3 tree;
- the hash path of the commitment and the root it leads to.

Every value it holds is a `"0x"` hex string. A value is turned back into a
number with `BigInt` whenever it is hashed again.

This project models that script in four modules, one per layer:

- `Hex` (`hex.dfy`) covers text. It models `BigInt.prototype.toString(16)`,
  `padStart`, `fieldToBytes32`, and `BigInt` reading a `"0x"` literal.
- `Packing` (`packing.dfy`) covers `keccakHash`. Each argument is decoded by
  `Buffer.from(hex, 'hex')` into 32 bytes and the pieces are concatenated.
  The digest is returned as `"0x"` and its lower-case hex. Despite the name,
  the digest is SHA-256 (section 6.2 of FIPS 180-4). Here it is the parameter
  `sha`, and the model assumes only that it returns 32 bytes.
- `MerklePath` (`merkle.dfy`) holds the tree arithmetic, generic in the digest
  type and the node hash. It defines the empty-subtree chain and the
  level-by-level walk `Climb`. It gives two independent descriptions of the
  root the walk reaches:
  - a top-down fold directed by the bits of the index;
  - the root of the complete tree whose only non-empty leaf is the walked leaf.
- `ProofInputs` (`proof_inputs.dfy`) is the script itself. Its two loops are
  methods over the same strings the script holds, with ghost numbers tying
  each string to the functions above. The tree is stated over a ghost node
  hash `h`. The precondition `IsNodeHash(sha, h)` says that `h(a, b)` is the
  number `keccakHash(a, b)` reads back as, for every `a` and `b`.
  `RunScript` is the script's own instance: secret 7, nullifier 11, index 0,
  depth 3.

`wrappers.dfy` holds the `Option` type that `BigInt`'s parse returns.

## Model

| member | source | states |
|---|---|---|
| Hex.ToHex | circuit/computeProofInputs.js:9 | `toString(16)` gives at least one lower-case hex digit, with no leading zero unless the value is 0 |
| Hex.ParseHex | circuit/computeProofInputs.js:40 | the value `BigInt` reads from n hex digits is below 16^n |
| Hex.ToHexLength | circuit/computeProofInputs.js:9 | `toString(16)` needs at most k digits exactly when the value is below 16^k (both directions) |
| Hex.PadStart | circuit/computeProofInputs.js:9 | `padStart(width, fill)`: the string unchanged when it is already `width` long or longer, otherwise fill characters in front; `ParseLeadingZeros` and `PaddedWord` state what it preserves |
| Hex.FieldToBytes32 | circuit/computeProofInputs.js:8-11 | `fieldToBytes32(value)`, `"0x"` and the padded `toString(16)`; its shape is stated by `FieldToBytes32Shape` and its inverse by `FieldRoundTrip` |
| Hex.BigIntFromHexLiteral | circuit/computeProofInputs.js:40 | `BigInt(s)` on a `"0x"` hex literal, `None` for any other string; `FieldRoundTrip` and `LowerWordIsField` state what it reads back |
| Hex.ParseToHex | circuit/computeProofInputs.js:9 | reading back what `toString(16)` wrote gives the value |
| Hex.ParseLeadingZeros | circuit/computeProofInputs.js:9 | left padding with `'0'` keeps the string hex and does not change its value |
| Hex.FieldToBytes32Shape | circuit/computeProofInputs.js:8-11 | `fieldToBytes32(v)` is 66 characters long exactly when v < 2^256; it is then `"0x"` followed by 64 lower-case hex digits |
| Hex.FieldRoundTrip | circuit/computeProofInputs.js:9-10 | `BigInt(fieldToBytes32(v)) == v` for every v, the round trip that line 40 relies on |
| Hex.PaddedWord | circuit/computeProofInputs.js:9 | a value below 2^256, rendered by `toString(16)` and padded to 64 places, is 64 hex digits that read back as the value |
| Hex.CanonicalHex | circuit/computeProofInputs.js:19-20 | n lower-case hex digits are the n-digit padding of the `toString(16)` rendering of their own value |
| Hex.LowerWordIsField | circuit/computeProofInputs.js:19-20 | `"0x"` plus 64 lower-case hex digits equals `fieldToBytes32` of their value |
| Packing.HexToBytes | circuit/computeProofInputs.js:17 | `Buffer.from(s, 'hex')` yields at most half as many bytes as there are characters |
| Packing.BytesToHex | circuit/computeProofInputs.js:19 | `digest('hex')` writes exactly two lower-case hex digits per byte |
| Packing.PackWord | circuit/computeProofInputs.js:16-17 | one argument as `Buffer.from(padded hex, 'hex')`; `PackWordSpec` states its length and value |
| Packing.Pack | circuit/computeProofInputs.js:15-19 | `Buffer.concat` of the packed arguments, in order; `PackLength` and `PackRoundTrip` state its length and its inverse |
| Packing.KeccakHash | circuit/computeProofInputs.js:13-21 | `keccakHash(...values)`: `"0x"` and the hex of the digest of the packed arguments; `KeccakHashIsField` ties it to `Hash` |
| Packing.Hash | circuit/computeProofInputs.js:19-20 | the number `BigInt` reads back from `keccakHash`: the big-endian value of the digest; `KeccakHashIsField` and `HashFitsWord` state it |
| Packing.HexToBytesLength | circuit/computeProofInputs.js:17 | a string of hex digits decodes to half its length in bytes, rounded down |
| Packing.HexToBytesValue | circuit/computeProofInputs.js:17 | an even-length hex string decodes to bytes whose big-endian value is the string's value |
| Packing.BytesToHexValue | circuit/computeProofInputs.js:19 | the digest's hex text reads back as the digest's big-endian value |
| Packing.HexRoundTrip | circuit/computeProofInputs.js:17-19 | `Buffer.from(digest('hex'), 'hex')` gives back the digest bytes |
| Packing.PackWordSpec | circuit/computeProofInputs.js:16-17 | an argument below 2^256 packs into exactly 32 bytes, left-zero-padded and big-endian: their value is the argument |
| Packing.PackLength | circuit/computeProofInputs.js:15-19 | the hashed input is 32 bytes per argument |
| Packing.PackRoundTrip | circuit/computeProofInputs.js:15-19 | splitting the packed input into 32-byte words gives back the arguments, so two different argument lists never give the same hash input |
| Packing.KeccakHashIsField | circuit/computeProofInputs.js:19-20 | with a 32-byte digest, `keccakHash` returns `fieldToBytes32` of the number it hashes to, and `BigInt` reads that number back |
| Packing.HashFitsWord | circuit/computeProofInputs.js:19 | with a 32-byte digest, the hashed number is below 2^256 |
| MerklePath.ZeroAt | circuit/computeProofInputs.js:37-41 | the empty-subtree value of a level: 0 at the leaves, then each level hashes the one below with itself; `EmptySubtree` ties it to the complete tree |
| MerklePath.Zeros | circuit/computeProofInputs.js:37-41 | the first n empty-subtree values; `BuildZeros` and `ZerosChain` tie the script's strings to it |
| MerklePath.Step | circuit/computeProofInputs.js:52-59 | one level of the path loop: (current, sibling) at an even index, (sibling, current) at an odd one; `PathLevel` ties the script's strings to it |
| MerklePath.Climb | circuit/computeProofInputs.js:51-62 | the path loop: one `Step` per sibling, halving the index each level; `ClimbIsRootByBits` and `OneLeafTreeRoot` give two independent descriptions of its result |
| MerklePath.ClimbSnoc | circuit/computeProofInputs.js:51-62 | one more level of the walk hashes the result with the next sibling, in the order set by bit l of the index |
| MerklePath.ClimbIsRootByBits | circuit/computeProofInputs.js:51-62 | the bottom-up loop and the top-down fold give the same root; at level l the node is the right child exactly when bit l of the index is set |
| MerklePath.ShiftIsDiv | circuit/computeProofInputs.js:61 | halving the index l times is dividing it by 2^l, so the direction bit is bit l of the index in binary |
| MerklePath.ShiftBelow | circuit/computeProofInputs.js:61 | an index below 2^k reaches position 0 after k halvings |
| MerklePath.ClimbAddMultiple | circuit/computeProofInputs.js:52-61 | adding a multiple of 2^depth to the index leaves the root unchanged: every direction the walk takes is the same |
| MerklePath.ClimbLowBits | circuit/computeProofInputs.js:52-61 | only the low `depth` bits of the index affect the root: an index of 2^depth or more climbs like its remainder modulo 2^depth |
| MerklePath.ClimbIndexZero | circuit/computeProofInputs.js:47-64 | for index 0 and three levels the root is `H(H(H(leaf, p0), p1), p2)` |
| MerklePath.EmptySubtree | circuit/computeProofInputs.js:37-41 | a subtree with no occupied leaf hashes to the empty-subtree value of its height |
| MerklePath.OneLeafTreeNode | circuit/computeProofInputs.js:51-62 | after k levels of walking over the empty-subtree values, the result is the node above the leaf at height k in the complete tree whose only non-empty leaf is that leaf; every other node at that height is empty |
| MerklePath.OneLeafTreeRoot | circuit/computeProofInputs.js:54-59 | for an index below 2^depth, the walk that uses `zeros[level]` as the sibling on both sides reaches the root of the depth-`depth` tree holding the leaf at that index and empty leaves elsewhere |
| ProofInputs.NextZero | circuit/computeProofInputs.js:39-40 | when the previous entry is `fieldToBytes32` of the empty-subtree value of level k, `keccakHash(BigInt(prev), BigInt(prev))` is `fieldToBytes32` of the value of level k+1 |
| ProofInputs.BuildZeros | circuit/computeProofInputs.js:37-41 | `zeros` has max(1, depth) entries; `zeros[0]` is `fieldToBytes32(0)`; every entry is `fieldToBytes32` of the empty-subtree value of its level |
| ProofInputs.ZerosChain | circuit/computeProofInputs.js:39-40 | every entry of such a chain but the last reads back with `BigInt` as its level's empty-subtree value z, and the next entry is `keccakHash(z, z)` |
| ProofInputs.PathLevel | circuit/computeProofInputs.js:52-59 | the new `currentHash` is `fieldToBytes32` of one step of the walk: the node hash of (current, sibling) at an even index, and of (sibling, current) at an odd one |
| ProofInputs.BuildPath | circuit/computeProofInputs.js:47-64 | starting from the commitment string the script holds, `hashPath` holds exactly `zeros[0..depth-1]`, one entry per level, whatever the parity; `root` is `fieldToBytes32` of the walk of the commitment over the empty-subtree values, directed by `index` |
| ProofInputs.ComputeProofInputs | circuit/computeProofInputs.js:28-64 | gives the commitment `keccakHash(secret, nullifier)` and the nullifier hash `keccakHash(nullifier)`, then the zeros chain, path and root described for `BuildZeros` and `BuildPath` |
| ProofInputs.RunScript | circuit/computeProofInputs.js:24-64 | for secret 7, nullifier 11, index 0 and depth 3: three zeros, with `zeros[0] == fieldToBytes32(0)` and each entry `fieldToBytes32` of its level's empty-subtree value z0, z1, z2; a path whose entry at each level equals `zeros[level]`; and a root equal both to `fieldToBytes32(h(h(h(commitment, z0), z1), z2))` and to the root of the depth-3 tree whose only non-empty leaf is the commitment at position 0 |

## Left out

- The SHA-256 computation (`crypto.createHash('sha256')`, line 19) is a library call. It is the parameter `sha`, assumed only to return 32 bytes (`DigestsAre32Bytes`). Nothing is assumed or proved about collisions.
- All `console.log` output and the Prover.toml text (lines 30-81) are I/O and are not modelled.
- `BigInt` is modelled only where the script uses it: on the `"0x"` hex strings it produced itself (`BigIntFromHexLiteral`), and as the identity on the non-negative integer constants 7, 11 and 0 (`nat` parameters). Decimal strings, surrounding whitespace, other prefixes, negative and non-integer inputs are not modelled. The script never produces them.
- Packing.PackWordSpec: states nothing for arguments of 2^256 or more. For those, `padStart` leaves the hex unchanged and `Buffer.from` drops a trailing odd digit. `HexToBytes` models that behaviour, but the script never produces such values.
- The script's constants (depth 3, index 0) are parameters of `ComputeProofInputs`; `RunScript` is the instance the script runs.
- The script is one top-level sequence of statements. The model splits it into two methods, one per loop, run in the same order. The body of each loop is a method of its own (`NextZero`, `PathLevel`).
- The zeros chain has max(1, depth) entries, one per level the path uses, as the code builds it. A chain of depth+1 entries, with depth 0 rejected as a configuration error, is not what the code does.
- At an odd index the code takes `zeros[level]` as the left sibling (line 58), not a stored filled subtree. The model keeps that behaviour. `OneLeafTreeRoot` states what the resulting root is: the root of the tree whose only occupied leaf is the commitment.
- `index` and `currentIndex` are JavaScript Numbers (lines 26, 49, 61), exact only below 2^53. The model's index is an unbounded `nat`, so statements such as `ClimbLowBits` also cover indices the script could not hold exactly.
- An incremental tree (insert, filled subtrees, leaf count, capacity error), a proof verifier and a nullifier set do not exist in the code and are not modelled. The script does not reject an index of 2^depth or more either; `ClimbLowBits` states what then happens.
