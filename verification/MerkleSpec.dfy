/** What a RAILGUN Merkle tree is, independently of how it is stored.

    A tree is the sequence of its leaves.  `Node` gives the hash at any level and
    index by recursion; everything the stateful classes keep in their database
    and cache is compared with it.  The two-input hash is a parameter. */
module MerkleSpec {
  const TREE_DEPTH: nat := 16
  const TREE_MAX_ITEMS: nat := 65536

  /** A node hash, read as the number its hex string denotes. */
  type Hash = nat

  /** The two-input hash and the value of an absent leaf. */
  datatype Scheme = Scheme(hash: (Hash, Hash) -> Hash, zero: Hash)

  /** One stored leaf.  A UTXO commitment uses `hash` and `blockNumber`; a railgun
      transaction uses all the fields. */
  datatype Leaf = Leaf(hash: Hash, blockNumber: nat, railgunTxid: nat, firstNullifier: nat, verificationHash: nat)

  datatype MerkleProof = MerkleProof(leaf: Hash, elements: seq<Hash>, indices: nat, root: Hash)

  ghost predicate HashSeparates(s: Scheme, a: Hash, b: Hash, c: Hash, d: Hash) {
    s.hash(a, b) == s.hash(c, d) ==> a == c && b == d
  }

  /** Collision freedom of the hash, assumed only where a property says so. */
  ghost predicate Injective(s: Scheme) {
    forall a, b, c, d :: HashSeparates(s, a, b, c, d)
  }

  /** JavaScript's `>>` and `^` work on the low 32 bits, read as signed. */
  function ToInt32(x: int): int {
    var low := x % 0x1_0000_0000;
    if low >= 0x8000_0000 then low - 0x1_0000_0000 else low
  }

  /** `x >> level`. */
  function Shr(x: int, level: nat): int {
    if level == 0 then x else Shr(x, level - 1) / 2
  }

  /** `x ^ 1`. */
  function Flip(x: int): int {
    if x % 2 == 0 then x + 1 else x - 1
  }

  /** The hash of an empty subtree. */
  function Zero(s: Scheme, level: nat): Hash {
    if level == 0 then s.zero else s.hash(Zero(s, level - 1), Zero(s, level - 1))
  }

  function LeafAt(s: Scheme, leaves: seq<Leaf>, index: int): Hash {
    if 0 <= index < |leaves| then leaves[index].hash else s.zero
  }

  /** The hash at (level, index) of the tree over `leaves`, every other leaf being zero. */
  function Node(s: Scheme, leaves: seq<Leaf>, level: nat, index: int): Hash {
    if level == 0 then LeafAt(s, leaves, index)
    else s.hash(Node(s, leaves, level - 1, 2 * index), Node(s, leaves, level - 1, 2 * index + 1))
  }

  function Root(s: Scheme, leaves: seq<Leaf>): Hash {
    Node(s, leaves, TREE_DEPTH, 0)
  }

  lemma {:induction false} ShrMonotone(x: int, y: int, level: nat)
    requires x <= y
    ensures Shr(x, level) <= Shr(y, level)
  {
    if level != 0 {
      ShrMonotone(x, y, level - 1);
    }
  }

  lemma {:induction false} ShrInTree(x: int)
    requires 0 <= x < TREE_MAX_ITEMS
    ensures Shr(x, TREE_DEPTH) == 0
  {
    assert 0 <= Shr(x, 1) < 32768;
    assert 0 <= Shr(x, 2) < 16384;
    assert 0 <= Shr(x, 3) < 8192;
    assert 0 <= Shr(x, 4) < 4096;
    assert 0 <= Shr(x, 5) < 2048;
    assert 0 <= Shr(x, 6) < 1024;
    assert 0 <= Shr(x, 7) < 512;
    assert 0 <= Shr(x, 8) < 256;
    assert 0 <= Shr(x, 9) < 128;
    assert 0 <= Shr(x, 10) < 64;
    assert 0 <= Shr(x, 11) < 32;
    assert 0 <= Shr(x, 12) < 16;
    assert 0 <= Shr(x, 13) < 8;
    assert 0 <= Shr(x, 14) < 4;
    assert 0 <= Shr(x, 15) < 2;
  }

  /** A node only depends on the leaves below it: if two trees agree outside first..last,
      they agree on every node outside the shifted range. */
  lemma {:induction false} NodeUnchangedOutside(s: Scheme, old': seq<Leaf>, new': seq<Leaf>, first: int, last: int,
      level: nat, index: int)
    requires forall i :: i < first || i > last ==> LeafAt(s, old', i) == LeafAt(s, new', i)
    requires index < Shr(first, level) || index > Shr(last, level)
    ensures Node(s, old', level, index) == Node(s, new', level, index)
  {
    if level != 0 {
      NodeUnchangedOutside(s, old', new', first, last, level - 1, 2 * index);
      NodeUnchangedOutside(s, old', new', first, last, level - 1, 2 * index + 1);
    }
  }

  lemma {:induction false} NodeOfEmpty(s: Scheme, level: nat, index: int)
    ensures Node(s, [], level, index) == Zero(s, level)
  {
    if level != 0 {
      NodeOfEmpty(s, level - 1, 2 * index);
      NodeOfEmpty(s, level - 1, 2 * index + 1);
    }
  }

  /** Right of the rightmost leaf's edge every node is the zero of its level. */
  lemma {:induction false} NodeBeyond(s: Scheme, leaves: seq<Leaf>, level: nat, index: int)
    requires index > Shr(|leaves| - 1, level) || index < 0
    ensures Node(s, leaves, level, index) == Zero(s, level)
  {
    ShrMonotone(0, 0, level);
    ShrOfZero(level);
    NodeUnchangedOutside(s, leaves, [], 0, |leaves| - 1, level, index);
    NodeOfEmpty(s, level, index);
  }

  lemma {:induction false} ShrOfZero(level: nat)
    ensures Shr(0, level) == 0
  {
    if level != 0 {
      ShrOfZero(level - 1);
    }
  }

  // ---------- proofs ----------

  /** The sibling at each level of the path up from `index`. */
  function Siblings(s: Scheme, leaves: seq<Leaf>, index: int): (r: seq<Hash>)
    ensures |r| == TREE_DEPTH
  {
    seq(TREE_DEPTH, level requires 0 <= level < TREE_DEPTH => Node(s, leaves, level, Flip(Shr(index, level))))
  }

  ghost predicate SiblingAt(s: Scheme, leaves: seq<Leaf>, index: int, elements: seq<Hash>, level: nat) {
    level < |elements| ==> elements[level] == Node(s, leaves, level, Flip(Shr(index, level)))
  }

  /** The siblings collected so far, from level 0 up. */
  ghost predicate AreSiblings(s: Scheme, leaves: seq<Leaf>, index: int, elements: seq<Hash>) {
    forall level: nat :: SiblingAt(s, leaves, index, elements, level)
  }

  lemma {:induction false} SiblingAdded(s: Scheme, leaves: seq<Leaf>, index: int, elements: seq<Hash>, element: Hash)
    requires AreSiblings(s, leaves, index, elements)
      && element == Node(s, leaves, |elements|, Flip(Shr(index, |elements|)))
    ensures AreSiblings(s, leaves, index, elements + [element])
  {
    forall level: nat
      ensures SiblingAt(s, leaves, index, elements + [element], level)
    {
      assert SiblingAt(s, leaves, index, elements, level);
    }
  }

  lemma {:induction false} SiblingsComplete(s: Scheme, leaves: seq<Leaf>, index: int, elements: seq<Hash>)
    requires AreSiblings(s, leaves, index, elements) && |elements| == TREE_DEPTH
    ensures elements == Siblings(s, leaves, index)
  {
    forall level | 0 <= level < TREE_DEPTH
      ensures elements[level] == Siblings(s, leaves, index)[level]
    {
      assert SiblingAt(s, leaves, index, elements, level);
    }
  }

  /** What `getMerkleProof` must return for the tree over `leaves`: the leaf of `index`, but the
      siblings of its low 32 bits. */
  function ProofOf(s: Scheme, leaves: seq<Leaf>, index: nat): MerkleProof {
    MerkleProof(LeafAt(s, leaves, index), Siblings(s, leaves, ToInt32(index)), index, Root(s, leaves))
  }

  lemma {:induction false} SmallProof(s: Scheme, leaves: seq<Leaf>, index: nat)
    requires index < 0x8000_0000
    ensures ToInt32(index) == index
    ensures ProofOf(s, leaves, index) == MerkleProof(LeafAt(s, leaves, index), Siblings(s, leaves, index), index,
      Root(s, leaves))
  {
  }

  /** The tree in which the leaf and the siblings of such a proof belong together: from 2^31 on the
      leaf is absent although its low bits may name one that is not. */
  function AsSeen(s: Scheme, leaves: seq<Leaf>, index: nat): (r: seq<Leaf>)
    ensures index < 0x8000_0000 ==> r == leaves
  {
    var low := ToInt32(index);
    if low != index && 0 <= low < |leaves| then leaves[low := leaves[low].(hash := s.zero)] else leaves
  }

  /** The reduce of `verifyMerkleProof` after its first `count` elements: bit k of `indices`
      says whether the running hash is the right operand. */
  function CalculatedRoot(s: Scheme, proof: MerkleProof, count: nat): Hash
    requires count <= |proof.elements|
  {
    if count == 0 then proof.leaf
    else
      var current := CalculatedRoot(s, proof, count - 1);
      if Shr(proof.indices, count - 1) % 2 == 1 then s.hash(proof.elements[count - 1], current)
      else s.hash(current, proof.elements[count - 1])
  }

  predicate VerifyMerkleProof(s: Scheme, proof: MerkleProof) {
    CalculatedRoot(s, proof, |proof.elements|) == proof.root
  }

  /** A node's parent hashes the node with its sibling, on the side the node's parity says. */
  lemma {:induction false} NodeParent(s: Scheme, leaves: seq<Leaf>, level: nat, index: int)
    ensures Node(s, leaves, level + 1, index / 2)
         == if index % 2 == 1 then s.hash(Node(s, leaves, level, Flip(index)), Node(s, leaves, level, index))
            else s.hash(Node(s, leaves, level, index), Node(s, leaves, level, Flip(index)))
  {
    if index % 2 == 1 {
      assert index == 2 * (index / 2) + 1;
    } else {
      assert index == 2 * (index / 2);
    }
  }

  function Pow2(n: nat): nat {
    if n == 0 then 1 else 2 * Pow2(n - 1)
  }

  /** Numbers that differ by a multiple of 2^n have the same low bits. */
  lemma {:induction false} ShrOfMultiple(x: int, y: int, n: nat, m: int, level: nat)
    requires x == y + Pow2(n) * m && level <= n
    ensures Shr(x, level) == Shr(y, level) + Pow2(n - level) * m
  {
    if level != 0 {
      ShrOfMultiple(x, y, n, m, level - 1);
      var rest := Pow2(n - level) * m;
      assert Pow2(n - level + 1) * m == 2 * rest;
      assert (Shr(y, level - 1) + 2 * rest) / 2 == Shr(y, level - 1) / 2 + rest;
    }
  }

  lemma {:induction false} ParityOfMultiple(x: int, y: int, n: nat, m: int, level: nat)
    requires x == y + Pow2(n) * m && level < n
    ensures Shr(x, level) % 2 == Shr(y, level) % 2
  {
    ShrOfMultiple(x, y, n, m, level);
    var rest := Pow2(n - level - 1) * m;
    assert Pow2(n - level) * m == 2 * rest;
    assert (Shr(y, level) + 2 * rest) % 2 == Shr(y, level) % 2;
  }

  lemma {:induction false} LowBits(x: nat, level: nat)
    requires level < TREE_DEPTH
    ensures Shr(x, level) % 2 == Shr(ToInt32(x), level) % 2
  {
    var m := if x % 0x1_0000_0000 >= 0x8000_0000 then x / 0x1_0000_0000 + 1 else x / 0x1_0000_0000;
    assert Pow2(TREE_DEPTH) == 0x1_0000 by {
      assert Pow2(8) == 256;
    }
    ParityOfMultiple(x, ToInt32(x), TREE_DEPTH, 0x1_0000 * m, level);
  }

  /** Folding any proof that carries the true leaf and siblings climbs the tree. */
  lemma {:induction false} FoldClimbs(s: Scheme, leaves: seq<Leaf>, proof: MerkleProof, index: int, count: nat)
    requires proof.leaf == LeafAt(s, leaves, index) && proof.elements == Siblings(s, leaves, index)
      && ToInt32(proof.indices) == index
    requires count <= TREE_DEPTH
    ensures CalculatedRoot(s, proof, count) == Node(s, leaves, count, Shr(index, count))
  {
    if count != 0 {
      FoldClimbs(s, leaves, proof, index, count - 1);
      NodeParent(s, leaves, count - 1, Shr(index, count - 1));
      LowBits(proof.indices, count - 1);
    }
  }

  lemma {:induction false} SeenSiblings(s: Scheme, leaves: seq<Leaf>, index: nat)
    ensures Siblings(s, AsSeen(s, leaves, index), ToInt32(index)) == Siblings(s, leaves, ToInt32(index))
  {
    var low, seen := ToInt32(index), AsSeen(s, leaves, index);
    forall level | 0 <= level < TREE_DEPTH
      ensures Node(s, seen, level, Flip(Shr(low, level))) == Node(s, leaves, level, Flip(Shr(low, level)))
    {
      NodeUnchangedOutside(s, leaves, seen, low, low, level, Flip(Shr(low, level)));
    }
  }

  /** Round trip: the proof of a position verifies exactly when the position's ancestor at root
      level is the root, as it is for every position inside a tree. */
  lemma {:induction false} ProofVerifies(s: Scheme, leaves: seq<Leaf>, index: nat)
    requires index < 0x8000_0000
    ensures VerifyMerkleProof(s, ProofOf(s, leaves, index))
       <==> Node(s, leaves, TREE_DEPTH, Shr(index, TREE_DEPTH)) == Root(s, leaves)
    ensures index < TREE_MAX_ITEMS ==> VerifyMerkleProof(s, ProofOf(s, leaves, index))
  {
    SmallProof(s, leaves, index);
    FoldClimbs(s, leaves, ProofOf(s, leaves, index), index, TREE_DEPTH);
    if index < TREE_MAX_ITEMS {
      ShrInTree(index);
    }
  }

  /** For every index, 2^31 and beyond included: a proof verifies exactly when the ancestor of its
      low bits at root level, in the tree without the leaf it does not carry, is the root. */
  lemma {:induction false} AnyProofVerifies(s: Scheme, leaves: seq<Leaf>, index: nat)
    requires |leaves| <= TREE_MAX_ITEMS
    ensures VerifyMerkleProof(s, ProofOf(s, leaves, index))
       <==> Node(s, AsSeen(s, leaves, index), TREE_DEPTH, Shr(ToInt32(index), TREE_DEPTH)) == Root(s, leaves)
  {
    SeenSiblings(s, leaves, index);
    FoldClimbs(s, AsSeen(s, leaves, index), ProofOf(s, leaves, index), ToInt32(index), TREE_DEPTH);
  }

  /** Binding: under an injective hash the only full-depth proof of position `index` that
      verifies against the root of `leaves` is the one the tree produces. */
  lemma {:induction false} ProofBinds(s: Scheme, leaves: seq<Leaf>, proof: MerkleProof)
    requires Injective(s)
    requires |proof.elements| == TREE_DEPTH && proof.indices < TREE_MAX_ITEMS
    requires proof.root == Root(s, leaves)
    ensures VerifyMerkleProof(s, proof) <==> proof == ProofOf(s, leaves, proof.indices)
  {
    SmallProof(s, leaves, proof.indices);
    ProofVerifies(s, leaves, proof.indices);
    if VerifyMerkleProof(s, proof) {
      ShrInTree(proof.indices);
      FoldBinds(s, leaves, proof, TREE_DEPTH);
      assert proof.elements == Siblings(s, leaves, proof.indices);
    }
  }

  /** One level down: a running hash equal to a tree node was made from that node's children. */
  lemma {:induction false} StepBinds(s: Scheme, leaves: seq<Leaf>, proof: MerkleProof, level: nat)
    requires Injective(s)
    requires level < |proof.elements|
    requires CalculatedRoot(s, proof, level + 1) == Node(s, leaves, level + 1, Shr(proof.indices, level) / 2)
    ensures CalculatedRoot(s, proof, level) == Node(s, leaves, level, Shr(proof.indices, level))
    ensures proof.elements[level] == Node(s, leaves, level, Flip(Shr(proof.indices, level)))
  {
    var index := Shr(proof.indices, level);
    var current, sibling := CalculatedRoot(s, proof, level), proof.elements[level];
    var node, flipped := Node(s, leaves, level, index), Node(s, leaves, level, Flip(index));
    NodeParent(s, leaves, level, index);
    if index % 2 == 1 {
      assert HashSeparates(s, sibling, current, flipped, node);
    } else {
      assert HashSeparates(s, current, sibling, node, flipped);
    }
  }

  lemma {:induction false} FoldBinds(s: Scheme, leaves: seq<Leaf>, proof: MerkleProof, count: nat)
    requires Injective(s)
    requires count <= |proof.elements|
    requires CalculatedRoot(s, proof, count) == Node(s, leaves, count, Shr(proof.indices, count))
    ensures proof.leaf == LeafAt(s, leaves, proof.indices)
    ensures forall k :: 0 <= k < count ==> proof.elements[k] == Node(s, leaves, k, Flip(Shr(proof.indices, k)))
  {
    if count != 0 {
      StepBinds(s, leaves, proof, count - 1);
      FoldBinds(s, leaves, proof, count - 1);
    }
  }

  /** `createDummyMerkleProof`: position 0 with zero siblings, under the root that makes it verify. */
  method CreateDummyMerkleProof(s: Scheme, leaf: Hash) returns (proof: MerkleProof)
    ensures proof.leaf == leaf && proof.indices == 0 && proof.elements == seq(TREE_DEPTH, _ => 0)
    ensures VerifyMerkleProof(s, proof)
  {
    var elements: seq<Hash> := seq(TREE_DEPTH, _ => 0);
    var latestHash := leaf;
    for level := 0 to TREE_DEPTH
      invariant forall root :: latestHash == CalculatedRoot(s, MerkleProof(leaf, elements, 0, root), level)
    {
      ShrOfZero(level);
      latestHash := s.hash(latestHash, elements[level]);
    }
    proof := MerkleProof(leaf, elements, 0, latestHash);
  }

  // ---------- the launch snapshot ----------

  datatype SnapshotNode = SnapshotNode(hash: Hash, index: int)

  /** The right edge of the tree over `leaves`, seen from leaf `rightmost`: one node per level,
      root included. */
  function RightEdge(s: Scheme, leaves: seq<Leaf>, rightmost: int): (r: seq<SnapshotNode>)
    ensures |r| == TREE_DEPTH + 1
  {
    seq(TREE_DEPTH + 1, level requires 0 <= level <= TREE_DEPTH =>
      SnapshotNode(Node(s, leaves, level, Shr(rightmost, level)), Shr(rightmost, level)))
  }

  /** The top of the right edge is the root. */
  lemma {:induction false} RightEdgeTop(s: Scheme, leaves: seq<Leaf>)
    requires |leaves| <= TREE_MAX_ITEMS
    ensures RightEdge(s, leaves, |leaves| - 1)[TREE_DEPTH].hash == Root(s, leaves)
  {
    if leaves == [] {
      NodeOfEmpty(s, TREE_DEPTH, Shr(-1, TREE_DEPTH));
      NodeOfEmpty(s, TREE_DEPTH, 0);
    } else {
      ShrInTree(|leaves| - 1);
    }
  }

  /** A sibling at snapshot time, recovered from the saved edge and the tree as it is now. */
  function SnapshotSibling(s: Scheme, edge: seq<SnapshotNode>, now: seq<Leaf>, level: nat, index: int): Hash
    requires level < |edge|
  {
    if index > edge[level].index then Zero(s, level)
    else if index == edge[level].index then edge[level].hash
    else Node(s, now, level, index)
  }

  /** The edge of `before` plus any tree `now` that extends `before` determine every sibling of
      `before`: right of the edge it is zero, on the edge it was saved, left of the edge the
      tree has not changed since. */
  lemma {:induction false} SnapshotSiblingIsOld(s: Scheme, before: seq<Leaf>, now: seq<Leaf>, level: nat, index: int)
    requires before <= now && level <= TREE_DEPTH
    ensures SnapshotSibling(s, RightEdge(s, before, |before| - 1), now, level, index) == Node(s, before, level, index)
  {
    var edge := Shr(|before| - 1, level);
    if index > edge {
      NodeBeyond(s, before, level, index);
    } else if index < edge {
      ShrMonotone(|before| - 1, |before|, level);
      NodeGrown(s, before, now, level, index);
    }
  }

  /** Appending leaves changes no node left of the shifted old length. */
  lemma {:induction false} NodeGrown(s: Scheme, before: seq<Leaf>, now: seq<Leaf>, level: nat, index: int)
    requires before <= now && index < Shr(|before|, level)
    ensures Node(s, before, level, index) == Node(s, now, level, index)
  {
    NodeUnchangedOutside(s, before, now, |before|, |now|, level, index);
  }
}
