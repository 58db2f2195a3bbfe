/** The flat-array Merkle tree with its proofs (merkle.rs). */
module Merkle {
  import opened Types
  import opened Remainders

  type Data = seq<nat>

  /** The hash of a leaf's bytes, and of two concatenated hashes. */
  datatype Hasher = Hasher(leaf: Data -> Hash, pair: (Hash, Hash) -> Hash)

  datatype MerkleTree = MerkleTree(nodes: seq<Hash>, leafCount: nat)

  datatype Proof = Proof(leafIndex: nat, leafHash: Hash, hashes: seq<Hash>)

  /** `Panicked` is an index outside the node array. */
  datatype MerkleError = EmptyTree | IndexOutOfBounds | Panicked

  function Pow2(m: nat): (p: nat)
    ensures p >= 1
  {
    if m == 0 then 1 else 2 * Pow2(m - 1)
  }

  ghost predicate IsPow2(n: nat) {
    exists m :: n == Pow2(m)
  }

  /** The least power of two that is at least `n`, searching up from `Pow2(m)`. */
  function NextPow2(n: nat, m: nat := 0): (p: nat)
    requires m > 0 ==> Pow2(m - 1) < n
    ensures IsPow2(p) && n <= p && (p == 1 || p < 2 * n)
    decreases n - Pow2(m)
  {
    if n <= Pow2(m) then Pow2(m) else NextPow2(n, m + 1)
  }

  lemma {:induction false} Pow2Increases(i: nat, j: nat)
    requires i < j
    ensures 2 * Pow2(i) <= Pow2(j)
  {
    if i < j - 1 {
      Pow2Increases(i, j - 1);
    }
  }

  lemma NextPow2OfPow2(n: nat)
    requires n >= 1
    ensures NextPow2(n) == n <==> IsPow2(n)
  {
    if IsPow2(n) {
      var i: nat :| n == Pow2(i);
      var j: nat :| NextPow2(n) == Pow2(j);
      if i < j {
        Pow2Increases(i, j);
      } else if j < i {
        Pow2Increases(j, i);
      }
    }
  }

  function ParentIndex(i: nat): nat
    requires i > 0
  {
    (i - 1) / 2
  }

  function SiblingIndex(i: nat): nat
    requires i > 0
  {
    if i % 2 == 0 then i - 1 else i + 1
  }

  // ----- building

  /** Node `k` hashes its two children. */
  ghost predicate HashesChildren(h: Hasher, nodes: seq<Hash>, k: nat) {
    2 * k + 2 < |nodes| && nodes[k] == h.pair(nodes[2 * k + 1], nodes[2 * k + 2])
  }

  /** A complete heap of `inner` inner nodes and one more leaf than that. */
  ghost predicate IsHeap(h: Hasher, nodes: seq<Hash>, inner: nat) {
    |nodes| == 2 * inner + 1 && forall k: nat :: k < inner ==> HashesChildren(h, nodes, k)
  }

  /** The tree holds exactly the hashes of `leaves`, under a complete heap. */
  ghost predicate IsTreeOf(h: Hasher, t: MerkleTree, leaves: seq<Data>) {
    && IsPow2(|leaves|)
    && t.leafCount == |leaves|
    && IsHeap(h, t.nodes, |leaves| - 1)
    && forall i {:trigger leaves[i]} :: 0 <= i < |leaves| ==> t.nodes[|leaves| - 1 + i] == h.leaf(leaves[i])
  }

  /** Fills one level of parents; false when the source's indexing would leave the array. */
  method BuildLevel(h: Hasher, nodes: array<Hash>, levelStart: nat, parentStart: nat) returns (ok: bool)
    requires 0 < levelStart < nodes.Length && parentStart == ParentIndex(levelStart)
    modifies nodes
    ensures ok <==> levelStart + 2 * (levelStart - parentStart - 1) < nodes.Length
    ensures forall k :: levelStart <= k < nodes.Length ==> nodes[k] == old(nodes[k])
    ensures ok && levelStart % 2 == 1 && 2 * levelStart + 1 <= nodes.Length ==>
            forall k: nat :: parentStart <= k < levelStart ==> HashesChildren(h, nodes[..], k)
  {
    var levelSize := levelStart - parentStart;
    for i := 0 to levelSize
      invariant i > 0 ==> levelStart + 2 * (i - 1) < nodes.Length
      invariant forall k :: levelStart <= k < nodes.Length ==> nodes[k] == old(nodes[k])
      invariant levelStart % 2 == 1 && 2 * levelStart + 1 <= nodes.Length ==>
                forall k: nat :: parentStart <= k < parentStart + i ==> HashesChildren(h, nodes[..], k)
    {
      var left := levelStart + i * 2;
      var right := left + 1;
      if left >= nodes.Length {
        return false;
      }
      ghost var before := nodes[..];
      nodes[parentStart + i] :=
        if right < nodes.Length then h.pair(nodes[left], nodes[right]) else nodes[left];
      if levelStart % 2 == 1 && 2 * levelStart + 1 <= nodes.Length {
        forall k: nat | parentStart <= k <= parentStart + i ensures HashesChildren(h, nodes[..], k) {
          assert k < parentStart + i ==> HashesChildren(h, before, k);
        }
      }
    }
    return true;
  }

  /** Builds bottom-up; over a perfect layout it completes a heap, over a shifted one it panics. */
  method BuildTree(h: Hasher, nodes: array<Hash>, leafStart: nat) returns (ok: bool)
    requires leafStart < nodes.Length
    modifies nodes
    ensures leafStart > 0 && nodes.Length < 2 * leafStart ==> !ok
    ensures IsPow2(leafStart + 1) && nodes.Length == 2 * leafStart + 1 ==> ok && IsHeap(h, nodes[..], leafStart)
    ensures ok ==> forall k :: leafStart <= k < nodes.Length ==> nodes[k] == old(nodes[k])
  {
    var levelStart := leafStart;
    ghost var perfect := IsPow2(leafStart + 1) && nodes.Length == 2 * leafStart + 1;
    while levelStart > 0
      invariant 0 <= levelStart <= leafStart
      invariant leafStart > 0 && nodes.Length < 2 * leafStart ==> levelStart == leafStart
      invariant forall k :: leafStart <= k < nodes.Length ==> nodes[k] == old(nodes[k])
      invariant perfect ==> IsPow2(levelStart + 1)
      invariant perfect ==>
        forall k: nat :: levelStart <= k < leafStart ==> HashesChildren(h, nodes[..], k)
      decreases levelStart
    {
      var parentStart := ParentIndex(levelStart);
      if perfect {
        HalfOfPow2(levelStart + 1);
      }
      ghost var before := nodes[..];
      ok := BuildLevel(h, nodes, levelStart, parentStart);
      if !ok {
        return;
      }
      if perfect {
        ChildrenKept(h, before, nodes[..], levelStart, leafStart);
      }
      levelStart := parentStart;
    }
    return true;
  }

  lemma ChildrenKept(h: Hasher, before: seq<Hash>, after: seq<Hash>, start: nat, end: nat)
    requires |before| == |after| && forall k :: start <= k < |after| ==> after[k] == before[k]
    requires forall k: nat :: start <= k < end ==> HashesChildren(h, before, k)
    ensures forall k: nat :: start <= k < end ==> HashesChildren(h, after, k)
  {
    forall k: nat | start <= k < end ensures HashesChildren(h, after, k) {
      assert HashesChildren(h, before, k);
    }
  }

  lemma HalfOfPow2(n: nat)
    requires IsPow2(n) && n > 1
    ensures n % 2 == 0 && IsPow2(n / 2)
  {
    var m: nat :| n == Pow2(m);
    assert n / 2 == Pow2(m - 1);
  }

  /** Building succeeds exactly on a power-of-two number of leaves; on any other number it panics. */
  method New(h: Hasher, leaves: seq<Data>) returns (r: Result<MerkleTree, MerkleError>)
    ensures leaves == [] ==> r == Failure(EmptyTree)
    ensures IsPow2(|leaves|) ==> r.Success? && IsTreeOf(h, r.value, leaves)
    ensures leaves != [] && !IsPow2(|leaves|) ==> r == Failure(Panicked)
  {
    if leaves == [] {
      return Failure(EmptyTree);
    }
    NextPow2OfPow2(|leaves|);
    var totalNodes := 2 * NextPow2(|leaves|) - 1;
    var nodes := new Hash[totalNodes](_ => ZERO_HASH);
    var leafStart := totalNodes - |leaves|;
    for i := 0 to |leaves|
      invariant forall j :: 0 <= j < i ==> nodes[leafStart + j] == h.leaf(leaves[j])
    {
      nodes[leafStart + i] := h.leaf(leaves[i]);
    }
    var ok := BuildTree(h, nodes, leafStart);
    if !ok {
      return Failure(Panicked);
    }
    return Success(MerkleTree(nodes[..], |leaves|));
  }

  /** The leaves determine every node, and so the root. */
  lemma {:induction false} NodeIsUnique(h: Hasher, s: MerkleTree, t: MerkleTree, leaves: seq<Data>, k: nat)
    requires IsTreeOf(h, s, leaves) && IsTreeOf(h, t, leaves) && k < |s.nodes|
    ensures s.nodes[k] == t.nodes[k]
    decreases |s.nodes| - k
  {
    if k < |leaves| - 1 {
      NodeIsUnique(h, s, t, leaves, 2 * k + 1);
      NodeIsUnique(h, s, t, leaves, 2 * k + 2);
      assert HashesChildren(h, s.nodes, k) && HashesChildren(h, t.nodes, k);
    } else {
      assert leaves[k - (|leaves| - 1)] == leaves[k - (|leaves| - 1)];
    }
  }

  // ----- proofs

  /** Position `index` of level `d`: the level starts after the `Pow2(d) - 1` nodes above it. */
  function Node(d: nat, index: nat): nat {
    Pow2(d) - 1 + index
  }

  /** The position next to `index` under the same parent. */
  function Beside(index: nat): (b: nat)
    ensures b / 2 == index / 2 && b != index
  {
    if index % 2 == 0 then index + 1 else index - 1
  }

  lemma BesideFits(d: nat, index: nat)
    requires d > 0 && index < Pow2(d)
    ensures Beside(index) < Pow2(d) && index / 2 < Pow2(d - 1)
  {
    var half, k := Pow2(d - 1), index / 2;
    assert Pow2(d) == 2 * half;
    assert 2 * k <= index <= 2 * k + 1;
  }

  /** The source's walk over array indexes is the walk over levels and positions. */
  lemma HeapWalk(d: nat, index: nat)
    requires d > 0
    ensures ParentIndex(Node(d, index)) == Node(d - 1, index / 2)
    ensures SiblingIndex(Node(d, index)) == Node(d, Beside(index))
  {
    assert Pow2(d) == 2 * Pow2(d - 1);
  }

  /** The sibling hashes from a position up to the root. */
  ghost function Siblings(nodes: seq<Hash>, d: nat, index: nat): (hashes: seq<Hash>)
    requires index < Pow2(d) && 2 * Pow2(d) - 1 <= |nodes|
    ensures |hashes| == d
  {
    if d == 0 then []
    else
      BesideFits(d, index);
      [nodes[Node(d, Beside(index))]] + Siblings(nodes, d - 1, index / 2)
  }

  /** Even positions are left children, odd ones right. */
  function Combine(h: Hasher, hash: Hash, index: nat, sibling: Hash): Hash {
    if index % 2 == 0 then h.pair(hash, sibling) else h.pair(sibling, hash)
  }

  /** The hash reached from `hash` at position `index` by combining with each of `hashes`. */
  ghost function Climb(h: Hasher, hash: Hash, index: nat, hashes: seq<Hash>): Hash
    decreases |hashes|
  {
    if hashes == [] then hash else Climb(h, Combine(h, hash, index, hashes[0]), index / 2, hashes[1..])
  }

  method GenerateProof(t: MerkleTree, index: nat, ghost h: Hasher, ghost leaves: seq<Data>, ghost m: nat)
    returns (r: Result<Proof, MerkleError>)
    requires IsTreeOf(h, t, leaves) && |leaves| == Pow2(m)
    ensures index >= |leaves| ==> r == Failure(IndexOutOfBounds)
    ensures index < |leaves| ==> r == Success(Proof(index, h.leaf(leaves[index]), Siblings(t.nodes, m, index)))
  {
    if index >= t.leafCount {
      return Failure(IndexOutOfBounds);
    }
    NextPow2OfPow2(|leaves|);
    var leafStart := |t.nodes| - NextPow2(t.leafCount);
    assert leaves[index] == leaves[index];
    var hashes := WalkUp(t.nodes, leafStart + index, m, index);
    return Success(Proof(index, t.nodes[leafStart + index], hashes));
  }

  /** The proof loop: collects siblings over array indexes until the root. */
  method WalkUp(nodes: seq<Hash>, start: nat, ghost m: nat, ghost index: nat) returns (hashes: seq<Hash>)
    requires index < Pow2(m) && 2 * Pow2(m) - 1 <= |nodes| && start == Node(m, index)
    ensures hashes == Siblings(nodes, m, index)
  {
    hashes := [];
    var current: nat := start;
    ghost var d: nat, i: nat := m, index;
    while current > 0
      invariant i < Pow2(d) && 2 * Pow2(d) - 1 <= |nodes| && current == Node(d, i)
      invariant hashes + Siblings(nodes, d, i) == Siblings(nodes, m, index)
      decreases d
    {
      HeapWalk(d, i);
      BesideFits(d, i);
      ghost var up := Siblings(nodes, d - 1, i / 2);
      var sibling := nodes[SiblingIndex(current)];
      assert hashes + ([sibling] + up) == hashes + [sibling] + up;
      hashes := hashes + [sibling];
      current := ParentIndex(current);
      d, i := d - 1, i / 2;
    }
  }

  method VerifyProof(h: Hasher, root: Hash, proof: Proof, data: Data) returns (ok: bool)
    ensures ok <==> h.leaf(data) == proof.leafHash && Climb(h, h.leaf(data), proof.leafIndex, proof.hashes) == root
  {
    var hash: Hash := h.leaf(data);
    if hash != proof.leafHash {
      return false;
    }
    var index: nat := proof.leafIndex;
    for i := 0 to |proof.hashes|
      invariant Climb(h, hash, index, proof.hashes[i..]) == Climb(h, h.leaf(data), proof.leafIndex, proof.hashes)
    {
      assert proof.hashes[i..][1..] == proof.hashes[i + 1..];
      hash := if index % 2 == 0 then h.pair(hash, proof.hashes[i]) else h.pair(proof.hashes[i], hash);
      index := index / 2;
    }
    return hash == root;
  }

  /** In a heap, combining a node with the one beside it gives their parent. */
  lemma CombineGivesParent(h: Hasher, nodes: seq<Hash>, inner: nat, d: nat, index: nat)
    requires IsHeap(h, nodes, inner) && d > 0 && index < Pow2(d) <= inner + 1
    ensures Node(d, index) < |nodes| && Beside(index) < Pow2(d) && Node(d - 1, index / 2) < inner
    ensures nodes[Node(d - 1, index / 2)] == Combine(h, nodes[Node(d, index)], index, nodes[Node(d, Beside(index))])
  {
    BesideFits(d, index);
    var p := Node(d - 1, index / 2);
    assert HashesChildren(h, nodes, p);
    assert 2 * p + 1 == Node(d, 2 * (index / 2));
  }

  lemma ClimbStep(h: Hasher, hash: Hash, index: nat, sibling: Hash, rest: seq<Hash>)
    ensures Climb(h, hash, index, [sibling] + rest) == Climb(h, Combine(h, hash, index, sibling), index / 2, rest)
  {
    assert ([sibling] + rest)[1..] == rest;
  }

  lemma {:induction false} ClimbReachesRoot(h: Hasher, nodes: seq<Hash>, inner: nat, d: nat, index: nat)
    requires IsHeap(h, nodes, inner) && index < Pow2(d) <= inner + 1
    ensures Climb(h, nodes[Node(d, index)], index, Siblings(nodes, d, index)) == nodes[0]
  {
    if d > 0 {
      BesideFits(d, index);
      CombineGivesParent(h, nodes, inner, d, index);
      ClimbReachesRoot(h, nodes, inner, d - 1, index / 2);
      var sibling, rest := nodes[Node(d, Beside(index))], Siblings(nodes, d - 1, index / 2);
      assert Siblings(nodes, d, index) == [sibling] + rest;
      ClimbStep(h, nodes[Node(d, index)], index, sibling, rest);
    }
  }

  /** The proof generated for a leaf passes verification against the root with that leaf's data. */
  lemma GeneratedProofVerifies(h: Hasher, t: MerkleTree, leaves: seq<Data>, m: nat, index: nat)
    requires IsTreeOf(h, t, leaves) && |leaves| == Pow2(m) && index < |leaves|
    ensures Climb(h, h.leaf(leaves[index]), index, Siblings(t.nodes, m, index)) == t.nodes[0]
  {
    ClimbReachesRoot(h, t.nodes, |leaves| - 1, m, index);
    assert t.nodes[Node(m, index)] == h.leaf(leaves[index]);
  }

  // ----- binding

  ghost predicate Injective(h: Hasher) {
    && (forall x, y {:trigger h.leaf(x), h.leaf(y)} :: h.leaf(x) == h.leaf(y) ==> x == y)
    && (forall a, b, c, d {:trigger h.pair(a, b), h.pair(c, d)} :: h.pair(a, b) == h.pair(c, d) ==> a == c && b == d)
  }

  /** The position on level `d` that an index of any size comes to. */
  function LowBits(index: nat, d: nat): (low: nat)
    ensures low < Pow2(d)
  {
    if d == 0 then 0 else 2 * LowBits(index / 2, d - 1) + index % 2
  }

  lemma {:induction false} LowBitsIsRemainder(index: nat, d: nat)
    ensures LowBits(index, d) == index % Pow2(d)
  {
    if d > 0 {
      LowBitsIsRemainder(index / 2, d - 1);
      DoubleRemainder(index, Pow2(d - 1));
    }
  }

  lemma DoubleRemainder(n: nat, p: nat)
    requires p > 0
    ensures 2 * (n / 2 % p) + n % 2 == n % (2 * p)
  {
    var half, low := n / 2, n / 2 % p;
    var q := half / p;
    assert half == p * q + low;
    assert n == 2 * half + n % 2;
    assert 2 * (p * q) == (2 * p) * q;
    ModUnique(n, 2 * p, q, 2 * low + n % 2);
  }

  lemma CombineIsInjective(h: Hasher, index: nat, x: Hash, y: Hash, x': Hash, y': Hash)
    requires Injective(h) && Combine(h, x, index, y) == Combine(h, x', index, y')
    ensures x == x' && y == y'
  {
  }

  /** Whatever climbs to the root in `d` steps is the level-`d` node at that position, with its own siblings. */
  lemma {:induction false} ClimbIsPinned(h: Hasher, nodes: seq<Hash>, inner: nat, d: nat, hash: Hash, index: nat,
                                         hashes: seq<Hash>)
    requires Injective(h) && IsHeap(h, nodes, inner) && Pow2(d) <= inner + 1
    requires |hashes| == d && Climb(h, hash, index, hashes) == nodes[0]
    ensures hash == nodes[Node(d, LowBits(index, d))] && hashes == Siblings(nodes, d, LowBits(index, d))
    decreases d
  {
    if d > 0 {
      var low := LowBits(index, d);
      ClimbIsPinned(h, nodes, inner, d - 1, Combine(h, hash, index, hashes[0]), index / 2, hashes[1..]);
      assert low / 2 == LowBits(index / 2, d - 1) && low % 2 == index % 2;
      CombineGivesParent(h, nodes, inner, d, low);
      CombineIsInjective(h, index, hash, hashes[0], nodes[Node(d, low)], nodes[Node(d, Beside(low))]);
      assert hashes == [hashes[0]] + hashes[1..];
    }
  }

  /** An accepted proof with one hash per level carries the data of the leaf at its index; it is the generated one. */
  lemma AcceptedProofIsGenerated(h: Hasher, t: MerkleTree, leaves: seq<Data>, m: nat, proof: Proof, data: Data)
    requires Injective(h) && IsTreeOf(h, t, leaves) && |leaves| == Pow2(m) && |proof.hashes| == m
    requires h.leaf(data) == proof.leafHash && Climb(h, h.leaf(data), proof.leafIndex, proof.hashes) == t.nodes[0]
    ensures var i := proof.leafIndex % |leaves|;
      data == leaves[i] && proof.hashes == Siblings(t.nodes, m, i)
  {
    ClimbIsPinned(h, t.nodes, |leaves| - 1, m, h.leaf(data), proof.leafIndex, proof.hashes);
    LowBitsIsRemainder(proof.leafIndex, m);
    var i := LowBits(proof.leafIndex, m);
    assert t.nodes[Node(m, i)] == h.leaf(leaves[i]);
  }

  lemma {:induction false} NodesAgree(h: Hasher, a: seq<Hash>, b: seq<Hash>, inner: nat, k: nat)
    requires Injective(h) && IsHeap(h, a, inner) && IsHeap(h, b, inner) && k < |a| && a[0] == b[0]
    ensures a[k] == b[k]
  {
    if k > 0 {
      var p := ParentIndex(k);
      NodesAgree(h, a, b, inner, p);
      assert HashesChildren(h, a, p) && HashesChildren(h, b, p);
    }
  }

  /** Equal roots over equally many leaves mean equal leaves. */
  lemma RootBindsLeaves(h: Hasher, s: MerkleTree, t: MerkleTree, xs: seq<Data>, ys: seq<Data>)
    requires Injective(h) && IsTreeOf(h, s, xs) && IsTreeOf(h, t, ys) && |xs| == |ys|
    requires s.nodes[0] == t.nodes[0]
    ensures xs == ys
  {
    forall i | 0 <= i < |xs| ensures xs[i] == ys[i] {
      NodesAgree(h, s.nodes, t.nodes, |xs| - 1, |xs| - 1 + i);
    }
  }
}
