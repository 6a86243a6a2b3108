/**
 * The fixture script: the commitment and nullifier hash of one deposit,
 * the chain of empty-subtree values, and the hash path and root for the
 * deposit's leaf, every value held as the "0x" hex string the script holds.
 */
module ProofInputs {
  import opened Wrappers
  import opened Hex
  import opened Packing
  import opened MerklePath

  const SECRET: nat := 7
  const NULLIFIER: nat := 11
  const INDEX: nat := 0
  const DEPTH: nat := 3

  /** The values the script computes, as it holds them. */
  datatype ProverInputs = ProverInputs(
    commitment: string,
    nullifierHash: string,
    zeros: seq<string>,
    hashPath: seq<string>,
    root: string)

  /** keccakHash(a, b) read back as a number: the hash of a tree node over children a and b. */
  function NodeHashOf(sha: Sha256, a: nat, b: nat): nat {
    Hash(sha, [a, b])
  }

  /**
   * h is the node hash of sha. The methods below reason about the tree
   * through h and look through it at the packing only one level at a time.
   */
  ghost predicate IsNodeHash(sha: Sha256, h: (nat, nat) -> nat) {
    forall a, b {:trigger NodeHashOf(sha, a, b)} :: h(a, b) == NodeHashOf(sha, a, b)
  }

  /** Every digest function has its node hash. */
  lemma NodeHashExists(sha: Sha256)
    ensures IsNodeHash(sha, (a: nat, b: nat) => NodeHashOf(sha, a, b))
  {
  }

  /** The number behind the commitment string. */
  function CommitmentValue(sha: Sha256, secret: nat, nullifier: nat): nat {
    Hash(sha, [secret, nullifier])
  }

  /** Every entry of zeros is fieldToBytes32 of the empty-subtree value of its level. */
  ghost predicate ZerosEncoded(h: (nat, nat) -> nat, zeros: seq<string>) {
    forall k :: 0 <= k < |zeros| ==> zeros[k] == FieldToBytes32(ZeroAt(h, 0, k))
  }

  /** Appending the encoding of the next level keeps the chain encoded. */
  lemma {:induction false} EncodedSnoc(h: (nat, nat) -> nat, zeros: seq<string>, next: string)
    requires ZerosEncoded(h, zeros)
    requires next == FieldToBytes32(ZeroAt(h, 0, |zeros|))
    ensures ZerosEncoded(h, zeros + [next])
  {
    var zs := zeros + [next];
    forall k | 0 <= k < |zs|
      ensures zs[k] == FieldToBytes32(ZeroAt(h, 0, k))
    {
      if k < |zeros| {
        assert zs[k] == zeros[k];
      }
    }
  }

  /**
   * One iteration of the zeros loop: the previous entry is read back with
   * BigInt and hashed with itself.
   */
  method NextZero(sha: Sha256, ghost h: (nat, nat) -> nat, prev: string, ghost k: nat) returns (next: string)
    requires DigestsAre32Bytes(sha) && IsNodeHash(sha, h)
    requires prev == FieldToBytes32(ZeroAt(h, 0, k))
    ensures next == FieldToBytes32(ZeroAt(h, 0, k + 1))
  {
    ghost var z := ZeroAt(h, 0, k);
    FieldRoundTrip(z);
    KeccakHashIsField(sha, [z, z]);
    assert h(z, z) == NodeHashOf(sha, z, z);
    var p := BigIntFromHexLiteral(prev).value;
    next := KeccakHash(sha, [p, p]);
  }

  /**
   * The zeros loop: zeros starts as [fieldToBytes32(0)] and, for i from 1
   * below depth, gets the hash of its last entry with itself.
   */
  method BuildZeros(sha: Sha256, ghost h: (nat, nat) -> nat, depth: nat) returns (zeros: seq<string>)
    requires DigestsAre32Bytes(sha) && IsNodeHash(sha, h)
    ensures |zeros| == if depth == 0 then 1 else depth
    ensures zeros[0] == FieldToBytes32(0)
    ensures ZerosEncoded(h, zeros)
  {
    zeros := [FieldToBytes32(0)];
    var i := 1;
    while i < depth
      invariant 1 <= i && (i <= depth || i == 1)
      invariant |zeros| == i
      invariant ZerosEncoded(h, zeros)
    {
      var next := NextZero(sha, h, zeros[i - 1], i - 1);
      EncodedSnoc(h, zeros, next);
      zeros := zeros + [next];
      i := i + 1;
    }
  }

  /**
   * The chain as line 40 computes it: every entry but the last reads back
   * with BigInt as the empty-subtree value z of its level, and the next
   * entry is keccakHash(z, z).
   */
  lemma ZerosChain(sha: Sha256, h: (nat, nat) -> nat, zeros: seq<string>, k: nat)
    requires DigestsAre32Bytes(sha) && IsNodeHash(sha, h)
    requires ZerosEncoded(h, zeros) && k + 1 < |zeros|
    ensures BigIntFromHexLiteral(zeros[k]) == Some(ZeroAt(h, 0, k))
    ensures zeros[k + 1] == KeccakHash(sha, [ZeroAt(h, 0, k), ZeroAt(h, 0, k)])
  {
    var z := ZeroAt(h, 0, k);
    FieldRoundTrip(z);
    KeccakHashIsField(sha, [z, z]);
    assert h(z, z) == NodeHashOf(sha, z, z);
  }

  /**
   * One iteration of the path loop, without the push onto hashPath: both
   * strings are read back with BigInt and hashed, the current node first
   * when currentIndex is even and the sibling first when it is odd.
   */
  method PathLevel(sha: Sha256, ghost h: (nat, nat) -> nat, currentHash: string, sibling: string,
                   currentIndex: nat, ghost cur: nat, ghost z: nat)
    returns (next: string)
    requires DigestsAre32Bytes(sha) && IsNodeHash(sha, h)
    requires currentHash == FieldToBytes32(cur) && sibling == FieldToBytes32(z)
    ensures next == FieldToBytes32(Step(h, cur, z, currentIndex))
  {
    FieldRoundTrip(cur);
    FieldRoundTrip(z);
    if currentIndex % 2 == 0 {
      // left child: the sibling is the empty subtree on the right
      KeccakHashIsField(sha, [cur, z]);
      assert h(cur, z) == NodeHashOf(sha, cur, z);
      next := KeccakHash(sha, [BigIntFromHexLiteral(currentHash).value, BigIntFromHexLiteral(sibling).value]);
    } else {
      // right child: the script still takes zeros[level] as the left sibling
      KeccakHashIsField(sha, [z, cur]);
      assert h(z, cur) == NodeHashOf(sha, z, cur);
      next := KeccakHash(sha, [BigIntFromHexLiteral(sibling).value, BigIntFromHexLiteral(currentHash).value]);
    }
  }

  /**
   * The path loop: for each level below depth, zeros[level] is pushed onto
   * hashPath (in both branches of the script), currentHash is replaced by
   * PathLevel's hash, and currentIndex is halved. The root is the walk of
   * the commitment over the empty-subtree values.
   */
  method BuildPath(sha: Sha256, ghost h: (nat, nat) -> nat, zeros: seq<string>,
                   commitment: string, ghost commitmentValue: nat, index: nat, depth: nat)
    returns (hashPath: seq<string>, root: string)
    requires DigestsAre32Bytes(sha) && IsNodeHash(sha, h)
    requires depth <= |zeros| && ZerosEncoded(h, zeros)
    requires commitment == FieldToBytes32(commitmentValue)
    ensures hashPath == zeros[..depth]
    ensures root == FieldToBytes32(Climb(h, commitmentValue, index, Zeros(h, 0, depth)))
  {
    ghost var zs := Zeros(h, 0, depth);
    hashPath := [];
    var currentHash := commitment;
    var currentIndex := index;
    ghost var cur := commitmentValue;
    var level := 0;
    while level < depth
      invariant level <= depth
      invariant hashPath == zeros[..level]
      invariant currentHash == FieldToBytes32(cur)
      invariant Climb(h, cur, currentIndex, zs[level..]) == Climb(h, commitmentValue, index, zs)
    {
      ghost var z := zs[level];
      assert zs[level..][1..] == zs[level + 1..];
      assert zeros[..level + 1] == zeros[..level] + [zeros[level]];
      hashPath := hashPath + [zeros[level]];
      currentHash := PathLevel(sha, h, currentHash, zeros[level], currentIndex, cur, z);
      cur := Step(h, cur, z, currentIndex);
      currentIndex := currentIndex / 2;
      level := level + 1;
    }
    root := currentHash;
  }

  /**
   * The script with its inputs as parameters: the commitment and the
   * nullifier hash, the zeros chain, then the path and root for index.
   */
  method ComputeProofInputs(sha: Sha256, ghost h: (nat, nat) -> nat, secret: nat, nullifier: nat, index: nat, depth: nat)
    returns (out: ProverInputs)
    requires DigestsAre32Bytes(sha) && IsNodeHash(sha, h)
    ensures out.commitment == KeccakHash(sha, [secret, nullifier])
    ensures out.commitment == FieldToBytes32(CommitmentValue(sha, secret, nullifier))
    ensures out.nullifierHash == KeccakHash(sha, [nullifier])
    ensures |out.zeros| == if depth == 0 then 1 else depth
    ensures out.zeros[0] == FieldToBytes32(0) && ZerosEncoded(h, out.zeros)
    ensures |out.hashPath| == depth && out.hashPath == out.zeros[..depth]
    ensures out.root == FieldToBytes32(
      Climb(h, CommitmentValue(sha, secret, nullifier), index, Zeros(h, 0, depth)))
  {
    var commitment := KeccakHash(sha, [secret, nullifier]);
    KeccakHashIsField(sha, [secret, nullifier]);
    var nullifierHash := KeccakHash(sha, [nullifier]);
    var zeros := BuildZeros(sha, h, depth);
    var hashPath, root := BuildPath(sha, h, zeros, commitment, CommitmentValue(sha, secret, nullifier), index, depth);
    out := ProverInputs(commitment, nullifierHash, zeros, hashPath, root);
  }

  /**
   * The script as written: secret 7, nullifier 11, index 0, depth 3. The
   * path is zeros[0..2], and the root is the commitment hashed on the left
   * at every level, which is the root of the depth-3 tree whose only
   * non-empty leaf is the commitment, at position 0.
   */
  method RunScript(sha: Sha256, ghost h: (nat, nat) -> nat) returns (out: ProverInputs)
    requires DigestsAre32Bytes(sha) && IsNodeHash(sha, h)
    ensures out.commitment == KeccakHash(sha, [SECRET, NULLIFIER])
    ensures out.nullifierHash == KeccakHash(sha, [NULLIFIER])
    ensures |out.zeros| == DEPTH && |out.hashPath| == DEPTH
    ensures out.zeros[0] == FieldToBytes32(0) && ZerosEncoded(h, out.zeros)
    ensures forall l :: 0 <= l < DEPTH ==> out.hashPath[l] == out.zeros[l]
    ensures
      var z, c := Zeros(h, 0, DEPTH), CommitmentValue(sha, SECRET, NULLIFIER);
      (forall l :: 0 <= l < DEPTH ==> out.zeros[l] == FieldToBytes32(z[l])) &&
      out.root == FieldToBytes32(h(h(h(c, z[0]), z[1]), z[2])) &&
      out.root == FieldToBytes32(TreeNode(h, OneLeaf(0, c, INDEX), DEPTH, 0))
  {
    out := ComputeProofInputs(sha, h, SECRET, NULLIFIER, INDEX, DEPTH);
    var z, c := Zeros(h, 0, DEPTH), CommitmentValue(sha, SECRET, NULLIFIER);
    ClimbIndexZero(h, c, z);
    OneLeafTreeRoot(h, 0, c, INDEX, DEPTH);
  }
}
