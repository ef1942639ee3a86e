/** Folding the coinbase hash up the merkle branch, and the tree whose root that is. */
module MerkleFold {
  import opened ByteStrings

  type Digest = b: Bytes | |b| == 32 witness Repeat(0, 32)

  /** SHA-256d; nothing but its output size is used. */
  type Hash = Bytes -> Digest

  /** The parent of two nodes. */
  function Join(hash: Hash, left: Digest, right: Digest): Digest {
    var both: Bytes := left;
    hash(both + right)
  }

  function Fold(hash: Hash, leaf: Digest, branch: seq<Digest>): Digest
    decreases |branch|
  {
    if |branch| == 0 then leaf else Fold(hash, Join(hash, leaf, branch[0]), branch[1..])
  }

  /** No branch leaves the leaf; one more sibling is hashed behind what its predecessors led to. */
  lemma {:induction false} FoldSnoc(hash: Hash, leaf: Digest, branch: seq<Digest>, last: Digest)
    ensures Fold(hash, leaf, []) == leaf
    ensures var left: Bytes := Fold(hash, leaf, branch);
            Fold(hash, leaf, branch + [last]) == hash(left + last)
    decreases |branch|
  {
    var all := branch + [last];
    if |branch| == 0 {
      assert all[0] == last && all[1..] == [];
    } else {
      assert all[0] == branch[0] && all[1..] == branch[1..] + [last];
      FoldSnoc(hash, Join(hash, leaf, branch[0]), branch[1..], last);
    }
  }

  /** `calculateMerkleRootHash`, on a reused 64-byte buffer. */
  method CalculateMerkleRootHash(hash: Hash, newRoot: Digest, branches: seq<Digest>) returns (r: Digest)
    ensures r == Fold(hash, newRoot, branches)
  {
    var bothMerkles := new Byte[64](k => 0);
    CopyInto(bothMerkles, 0, newRoot);
    assert bothMerkles[..32] == newRoot;
    var n := 0;
    while n < |branches|
      invariant n <= |branches|
      invariant Fold(hash, newRoot, branches) == Fold(hash, bothMerkles[..32], branches[n..])
    {
      ghost var left: Digest := bothMerkles[..32];
      CopyInto(bothMerkles, 32, branches[n]);
      assert bothMerkles[..] == left + branches[n];
      FoldStep(hash, left, branches[n..]);
      var parent := hash(bothMerkles[..]);
      CopyInto(bothMerkles, 0, parent);
      assert bothMerkles[..32] == parent;
      assert branches[n..][1..] == branches[n + 1..];
      n := n + 1;
    }
    r := bothMerkles[..32];
  }

  lemma FoldStep(hash: Hash, leaf: Digest, branch: seq<Digest>)
    requires |branch| > 0
    ensures Fold(hash, leaf, branch) == Fold(hash, Join(hash, leaf, branch[0]), branch[1..])
  {
  }

  /** `buffer.set(bytes, offset)` */
  method CopyInto(buffer: array<Byte>, offset: nat, bytes: Bytes)
    requires offset + |bytes| <= buffer.Length
    modifies buffer
    ensures buffer[..offset + |bytes|] == old(buffer[..offset]) + bytes
    ensures buffer[offset + |bytes|..] == old(buffer[offset + |bytes|..])
  {
    var k := 0;
    while k < |bytes|
      invariant k <= |bytes|
      invariant buffer[..offset + k] == old(buffer[..offset]) + bytes[..k]
      invariant buffer[offset + |bytes|..] == old(buffer[offset + |bytes|..])
    {
      buffer[offset + k] := bytes[k];
      k := k + 1;
    }
  }

  // ----- The tree -----

  /** The next level up: neighbours hashed together, an odd last node with itself. */
  function Parents(hash: Hash, nodes: seq<Digest>): (r: seq<Digest>)
    ensures |r| == (|nodes| + 1) / 2
  {
    if |nodes| == 0 then []
    else if |nodes| == 1 then [Join(hash, nodes[0], nodes[0])]
    else [Join(hash, nodes[0], nodes[1])] + Parents(hash, nodes[2..])
  }

  function TreeRoot(hash: Hash, nodes: seq<Digest>): Digest
    requires |nodes| > 0
    decreases |nodes|
  {
    if |nodes| == 1 then nodes[0] else TreeRoot(hash, Parents(hash, nodes))
  }

  /** The siblings of the first leaf, bottom up. */
  function FirstBranch(hash: Hash, nodes: seq<Digest>): seq<Digest>
    decreases |nodes|
  {
    if |nodes| <= 1 then [] else [nodes[1]] + FirstBranch(hash, Parents(hash, nodes))
  }

  /** The branch of the first leaf does not depend on that leaf: any coinbase may take its place. */
  lemma {:induction false} BranchIgnoresFirstLeaf(hash: Hash, a: Digest, b: Digest, rest: seq<Digest>)
    ensures FirstBranch(hash, [a] + rest) == FirstBranch(hash, [b] + rest)
    decreases |rest|
  {
    if |rest| > 0 {
      var others := Parents(hash, rest[1..]);
      assert ([a] + rest)[2..] == rest[1..] && ([b] + rest)[2..] == rest[1..];
      assert ([a] + rest)[1] == rest[0] && ([b] + rest)[1] == rest[0];
      assert Parents(hash, [a] + rest) == [Join(hash, a, rest[0])] + others;
      assert Parents(hash, [b] + rest) == [Join(hash, b, rest[0])] + others;
      BranchIgnoresFirstLeaf(hash, Join(hash, a, rest[0]), Join(hash, b, rest[0]), others);
    }
  }

  lemma {:induction false} FoldReachesRoot(hash: Hash, nodes: seq<Digest>)
    requires |nodes| > 0
    ensures Fold(hash, nodes[0], FirstBranch(hash, nodes)) == TreeRoot(hash, nodes)
    decreases |nodes|
  {
    if |nodes| > 1 {
      var up := Parents(hash, nodes);
      assert up[0] == Join(hash, nodes[0], nodes[1]);
      FoldReachesRoot(hash, up);
      var branch := FirstBranch(hash, nodes);
      assert branch[0] == nodes[1] && branch[1..] == FirstBranch(hash, up);
      FoldStep(hash, nodes[0], branch);
    }
  }

  /** The m-th node of the next level: the hash of nodes 2 m and 2 m + 1, or of the last one twice. */
  lemma {:induction false} ParentAt(hash: Hash, nodes: seq<Digest>, m: nat)
    requires 2 * m < |nodes|
    ensures var left: Bytes := nodes[2 * m];
            Parents(hash, nodes)[m] == hash(left + nodes[if 2 * m + 1 < |nodes| then 2 * m + 1 else 2 * m])
  {
    if m > 0 {
      ParentAt(hash, nodes[2..], m - 1);
    }
  }

  /**
   * A branch computed once, beside a placeholder coinbase, leads every later coinbase hash to the
   * merkle root of the block that has it as first transaction.
   */
  lemma {:induction false} FoldIsMerkleRoot(hash: Hash, placeholder: Digest, coinbase: Digest, rest: seq<Digest>)
    ensures Fold(hash, coinbase, FirstBranch(hash, [placeholder] + rest)) == TreeRoot(hash, [coinbase] + rest)
  {
    BranchIgnoresFirstLeaf(hash, placeholder, coinbase, rest);
    FoldReachesRoot(hash, [coinbase] + rest);
  }
}
