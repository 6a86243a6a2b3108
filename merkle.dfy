/**
 * The Merkle arithmetic of the script, over any digest type D and any
 * two-argument node hash h: the chain of empty-subtree values, the level by
 * level walk from a leaf to the root, and two independent descriptions of
 * the root the walk reaches.
 */
module MerklePath {

  /** The empty-subtree value at a level: empty at level 0, h(z, z) above a level whose value is z. */
  function ZeroAt<D>(h: (D, D) -> D, empty: D, level: nat): D
    decreases level
  {
    if level == 0 then empty else var z := ZeroAt(h, empty, level - 1); h(z, z)
  }

  /** The first n empty-subtree values, level 0 first. */
  function Zeros<D>(h: (D, D) -> D, empty: D, n: nat): seq<D> {
    seq(n, i requires 0 <= i => ZeroAt(h, empty, i))
  }

  /** One level of the walk: the parity of the index says on which side the node sits. */
  function Step<D>(h: (D, D) -> D, current: D, sibling: D, index: nat): D {
    if index % 2 == 0 then h(current, sibling) else h(sibling, current)
  }

  /** The walk: one Step per sibling on the path, halving the index each level. */
  function Climb<D>(h: (D, D) -> D, current: D, index: nat, path: seq<D>): D
    decreases |path|
  {
    if path == [] then current
    else Climb(h, Step(h, current, path[0], index), index / 2, path[1..])
  }

  /** The index shifted right k times: a node's position k levels above its leaf. */
  function Shift(index: nat, k: nat): nat
    decreases k
  {
    if k == 0 then index else Shift(index / 2, k - 1)
  }

  /** Bit l of the index: at level l the node is a right child exactly when it is set. */
  predicate IndexBit(index: nat, l: nat) {
    Shift(index, l) % 2 == 1
  }

  /** The root computed top-down: at the topmost level l, bit l of the index picks the order. */
  function RootByBits<D>(h: (D, D) -> D, leaf: D, index: nat, path: seq<D>): D
    decreases |path|
  {
    if path == [] then leaf
    else
      var l := |path| - 1;
      var below := RootByBits(h, leaf, index, path[..l]);
      if IndexBit(index, l) then h(path[l], below) else h(below, path[l])
  }

  function Pow2(e: nat): (r: nat)
    ensures r >= 1
  {
    if e == 0 then 1 else 2 * Pow2(e - 1)
  }

  /** The node at height k and position pos of the complete tree over the leaf function. */
  function TreeNode<D>(h: (D, D) -> D, leaves: nat -> D, k: nat, pos: nat): D
    decreases k
  {
    if k == 0 then leaves(pos)
    else h(TreeNode(h, leaves, k - 1, 2 * pos), TreeNode(h, leaves, k - 1, 2 * pos + 1))
  }

  /** Leaves that are all empty except leaf at position index. */
  function OneLeaf<D>(empty: D, leaf: D, index: nat): nat -> D {
    j => if j == index then leaf else empty
  }

  /** Shifting once more halves the position. */
  lemma {:induction false} ShiftSucc(index: nat, k: nat)
    ensures Shift(index, k + 1) == Shift(index, k) / 2
    decreases k
  {
    if k > 0 {
      ShiftSucc(index / 2, k - 1);
    }
  }

  lemma {:induction false} MulAtLeast(d: nat, x: nat)
    requires d >= 1 && x >= 1
    ensures d * x >= d
    decreases x
  {
    if x > 1 {
      MulAtLeast(d, x - 1);
      assert d * x == d * (x - 1) + d;
    }
  }

  /** Division has one quotient: a == d * q + r with r < d fixes q. */
  lemma DivUnique(a: nat, d: nat, q: nat, r: nat)
    requires d >= 1 && a == d * q + r && r < d
    ensures a / d == q
  {
    var q', r' := a / d, a % d;
    assert a == d * q' + r';
    if q > q' {
      MulAtLeast(d, q - q');
    } else if q' > q {
      MulAtLeast(d, q' - q);
    }
  }

  /** Halving, then dividing by m, is dividing by 2m. */
  lemma DivHalf(a: nat, m: nat)
    requires m >= 1
    ensures (a / 2) / m == a / (2 * m)
  {
    var q, r := (a / 2) / m, (a / 2) % m;
    assert a / 2 == m * q + r;
    assert a == (2 * m) * q + (2 * r + a % 2);
    DivUnique(a, 2 * m, q, 2 * r + a % 2);
  }

  /** Shifting k times is dividing by 2^k, so IndexBit(index, l) is bit l of index in binary. */
  lemma {:induction false} ShiftIsDiv(index: nat, k: nat)
    ensures Shift(index, k) == index / Pow2(k)
    decreases k
  {
    if k > 0 {
      ShiftIsDiv(index / 2, k - 1);
      DivHalf(index, Pow2(k - 1));
    }
  }

  /** An index below 2^k is at position 0 after k levels: it lies in the leftmost subtree of height k. */
  lemma {:induction false} ShiftBelow(index: nat, k: nat)
    requires index < Pow2(k)
    ensures Shift(index, k) == 0
    decreases k
  {
    if k > 0 {
      ShiftBelow(index / 2, k - 1);
    }
  }

  /** Extending the path by one sibling adds one Step on top, directed by bit |path| of the index. */
  lemma {:induction false} ClimbSnoc<D>(h: (D, D) -> D, current: D, index: nat, path: seq<D>, sibling: D)
    ensures Climb(h, current, index, path + [sibling])
         == Step(h, Climb(h, current, index, path), sibling, Shift(index, |path|))
    decreases |path|
  {
    if path != [] {
      var next := Step(h, current, path[0], index);
      ClimbSnoc(h, next, index / 2, path[1..], sibling);
      assert (path + [sibling])[1..] == path[1..] + [sibling];
    }
  }

  /**
   * The level-by-level walk and the top-down fold agree: the direction at
   * level l is bit l of the index.
   */
  lemma {:induction false} ClimbIsRootByBits<D>(h: (D, D) -> D, leaf: D, index: nat, path: seq<D>)
    ensures Climb(h, leaf, index, path) == RootByBits(h, leaf, index, path)
    decreases |path|
  {
    if path != [] {
      var l := |path| - 1;
      ClimbIsRootByBits(h, leaf, index, path[..l]);
      ClimbSnoc(h, leaf, index, path[..l], path[l]);
      assert path[..l] + [path[l]] == path;
    }
  }

  /** A value is its remainder plus its quotient times the divisor. */
  lemma DivMod(a: nat, d: nat)
    requires d >= 1
    ensures 0 <= a / d && 0 <= a % d < d
    ensures a == a % d + d * (a / d)
  {
  }

  /** Adding a multiple of 2^|path| to the index leaves every direction bit of the walk unchanged. */
  lemma {:induction false} ClimbAddMultiple<D>(h: (D, D) -> D, current: D, index: nat, base: nat, t: nat, path: seq<D>)
    requires index == base + Pow2(|path|) * t
    ensures Climb(h, current, index, path) == Climb(h, current, base, path)
    decreases |path|
  {
    if path != [] {
      var m := Pow2(|path| - 1);
      var x := m * t;
      assert Pow2(|path|) * t == 2 * x;
      assert index % 2 == base % 2 && index / 2 == base / 2 + x;
      var next := Step(h, current, path[0], base);
      ClimbAddMultiple(h, next, index / 2, base / 2, t, path[1..]);
    }
  }

  /**
   * Only the low |path| bits of the index matter: an index of 2^|path| or
   * more climbs exactly as its remainder modulo 2^|path| does.
   */
  lemma ClimbLowBits<D>(h: (D, D) -> D, current: D, index: nat, path: seq<D>)
    ensures Climb(h, current, index, path) == Climb(h, current, index % Pow2(|path|), path)
  {
    var p := Pow2(|path|);
    DivMod(index, p);
    ClimbAddMultiple(h, current, index, index % p, index / p, path);
  }

  /** Index 0 takes the left branch at every level. */
  lemma {:induction false} ClimbIndexZero<D>(h: (D, D) -> D, leaf: D, path: seq<D>)
    requires |path| == 3
    ensures Climb(h, leaf, 0, path) == h(h(h(leaf, path[0]), path[1]), path[2])
  {
    var p1 := path[1..];
    var p2 := p1[1..];
    var a := h(leaf, path[0]);
    var b := h(a, path[1]);
    var c := h(b, path[2]);
    assert p2[1..] == [];
    assert Climb(h, c, 0, p2[1..]) == c;
    assert Climb(h, b, 0, p2) == Climb(h, c, 0, p2[1..]);
    assert Climb(h, a, 0, p1) == Climb(h, b, 0, p2);
    assert Climb(h, leaf, 0, path) == Climb(h, a, 0, p1);
  }

  /** A subtree with no occupied leaf hashes to the empty-subtree value of its height. */
  lemma {:induction false} EmptySubtree<D>(h: (D, D) -> D, empty: D, leaf: D, index: nat, k: nat, pos: nat)
    requires pos != Shift(index, k)
    ensures TreeNode(h, OneLeaf(empty, leaf, index), k, pos) == ZeroAt(h, empty, k)
    decreases k
  {
    if k > 0 {
      ShiftSucc(index, k - 1);
      EmptySubtree(h, empty, leaf, index, k - 1, 2 * pos);
      EmptySubtree(h, empty, leaf, index, k - 1, 2 * pos + 1);
    }
  }

  /**
   * Walking up from a leaf with the empty-subtree values as siblings gives
   * the node above it in the complete tree whose only non-empty leaf is
   * that leaf; every other node at that height is empty.
   */
  lemma {:induction false} OneLeafTreeNode<D>(h: (D, D) -> D, empty: D, leaf: D, index: nat, k: nat, pos: nat)
    ensures TreeNode(h, OneLeaf(empty, leaf, index), k, pos)
         == if pos == Shift(index, k) then Climb(h, leaf, index, Zeros(h, empty, k)) else ZeroAt(h, empty, k)
    decreases k
  {
    if pos != Shift(index, k) {
      EmptySubtree(h, empty, leaf, index, k, pos);
    } else if k > 0 {
      var s := Shift(index, k - 1);
      ShiftSucc(index, k - 1);
      OneLeafTreeNode(h, empty, leaf, index, k - 1, 2 * pos);
      OneLeafTreeNode(h, empty, leaf, index, k - 1, 2 * pos + 1);
      var zs := Zeros(h, empty, k - 1);
      assert Zeros(h, empty, k) == zs + [ZeroAt(h, empty, k - 1)];
      ClimbSnoc(h, leaf, index, zs, ZeroAt(h, empty, k - 1));
    }
  }

  /**
   * For an index below 2^k, the walk over the first k empty-subtree values
   * reaches the root of the height-k tree holding leaf at index and empty
   * leaves everywhere else.
   */
  lemma OneLeafTreeRoot<D>(h: (D, D) -> D, empty: D, leaf: D, index: nat, k: nat)
    requires index < Pow2(k)
    ensures Climb(h, leaf, index, Zeros(h, empty, k)) == TreeNode(h, OneLeaf(empty, leaf, index), k, 0)
  {
    ShiftBelow(index, k);
    OneLeafTreeNode(h, empty, leaf, index, k, 0);
  }
}
