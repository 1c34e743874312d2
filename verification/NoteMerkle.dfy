/** The Merkle tree of note commitments: roots, membership proofs, and what a verifying proof shows
    (src/privacy/mod.rs). */
module NoteMerkle {
  import opened Bytes
  import opened Wrappers
  import opened MerkleLevels
  import opened MerkleCompletion

  // ASCII of "prims-note-merkle-" and of what follows it.
  const TAG_STEM: Bytes := [112, 114, 105, 109, 115, 45, 110, 111, 116, 101, 45, 109, 101, 114, 107, 108, 101, 45]
  const LEAF_TAG: Bytes := TAG_STEM + [108, 101, 97, 102]
  const NODE_TAG: Bytes := TAG_STEM + [110, 111, 100, 101]
  const EMPTY_TAG: Bytes := TAG_STEM + [101, 109, 112, 116, 121]

  lemma TagsSpelled()
    ensures Spells(LEAF_TAG, "prims-note-merkle-" + "leaf") && Spells(NODE_TAG, "prims-note-merkle-" + "node")
    ensures Spells(EMPTY_TAG, "prims-note-merkle-" + "empty")
  {
    StemSpelled();
    EndingsSpelled();
    hide Spells;
    SpellsBoth(TAG_STEM, "prims-note-merkle-", [108, 101, 97, 102], "leaf");
    SpellsBoth(TAG_STEM, "prims-note-merkle-", [110, 111, 100, 101], "node");
    SpellsBoth(TAG_STEM, "prims-note-merkle-", [101, 109, 112, 116, 121], "empty");
  }

  lemma StemSpelled()
    ensures Spells(TAG_STEM, "prims-note-merkle-")
  {
    hide Spells;
    var a, b := TAG_STEM[..9], TAG_STEM[9..];
    StemStart();
    StemEnd();
    SpellsBoth(a, "prims-not", b, "e-merkle-");
    assert a + b == TAG_STEM && "prims-not" + "e-merkle-" == "prims-note-merkle-";
  }

  lemma StemStart()
    ensures Spells(TAG_STEM[..9], "prims-not")
  {
  }

  lemma StemEnd()
    ensures Spells(TAG_STEM[9..], "e-merkle-")
  {
  }

  lemma EndingsSpelled()
    ensures Spells([108, 101, 97, 102], "leaf") && Spells([110, 111, 100, 101], "node")
    ensures Spells([101, 109, 112, 116, 121], "empty")
  {
  }

  type NoteCommitment = Digest

  datatype NoteMerkleProof = NoteMerkleProof(leafIndex: nat, leaf: NoteCommitment, siblings: seq<Digest>)

  datatype NoteMerkleTreeError = LeafIndexOutOfBounds(leafIndex: nat, leafCount: nat)

  function HashLeaf(sha: Hash, leaf: NoteCommitment): Digest {
    sha(LEAF_TAG + leaf)
  }

  function HashedLeaves(sha: Hash, leaves: seq<NoteCommitment>): (r: seq<Digest>)
    ensures |r| == |leaves|
    ensures forall i :: 0 <= i < |r| ==> r[i] == HashLeaf(sha, leaves[i])
  {
    seq<Digest>(|leaves|, i requires 0 <= i < |leaves| => HashLeaf(sha, leaves[i]))
  }

  function NoteRoot(sha: Hash, leaves: seq<NoteCommitment>): Digest {
    if leaves == [] then sha(EMPTY_TAG) else RootOf(sha, NODE_TAG, HashedLeaves(sha, leaves))
  }

  /** The root a proof leads to. */
  function ProofRoot(sha: Hash, proof: NoteMerkleProof): Digest {
    PathHash(sha, NODE_TAG, HashLeaf(sha, proof.leaf), proof.leafIndex, proof.siblings)
  }

  /** The proof that the tree has for a position of the completed tree. */
  function ProofAt(sha: Hash, leaves: seq<NoteCommitment>, index: nat): NoteMerkleProof
    requires leaves != []
  {
    NoteMerkleProof(index, leaves[Shown(|leaves|, index)],
                    Path(sha, NODE_TAG, HashedLeaves(sha, leaves), index, Height(|leaves|)))
  }

  class NoteMerkleTree {
    var leaves: seq<NoteCommitment>

    constructor FromCommitments(leaves: seq<NoteCommitment>)
      ensures this.leaves == leaves
    {
      this.leaves := leaves;
    }

    method Append(commitment: NoteCommitment)
      modifies this
      ensures leaves == old(leaves) + [commitment]
    {
      leaves := leaves + [commitment];
    }

    method Root(sha: Hash) returns (root: Digest)
      ensures root == NoteRoot(sha, leaves)
    {
      if leaves == [] {
        return sha(EMPTY_TAG);
      }
      var level := HashedLeaves(sha, leaves);
      while |level| > 1
        invariant |level| > 0 && RootOf(sha, NODE_TAG, level) == NoteRoot(sha, leaves)
        decreases |level|
      {
        level := BuildNextLevel(sha, level);
      }
      return level[0];
    }

    /** `chunks(2)`: a last chunk of one node is paired with itself. */
    static method BuildNextLevel(sha: Hash, level: seq<Digest>) returns (next: seq<Digest>)
      ensures next == NextLevel(sha, NODE_TAG, level)
    {
      next := [];
      var i := 0;
      while i < |level|
        invariant 0 <= i <= |level| + 1 && i % 2 == 0
        invariant next == NextLevel(sha, NODE_TAG, level)[..i / 2]
      {
        var left := level[i];
        var right := if i + 1 < |level| then level[i + 1] else level[i];
        var m := i / 2;
        assert NodePayload(NODE_TAG, left, right) == PairPayload(NODE_TAG, level, m);
        next := next + [sha(NODE_TAG + left + right)];
        i := i + 2;
      }
    }

    /** For a leaf that exists, the proof is that of its position in the completed tree. */
    method GenerateProof(sha: Hash, leafIndex: nat) returns (r: Result<NoteMerkleProof, NoteMerkleTreeError>)
      ensures leafIndex >= |leaves| ==> r == Failure(LeafIndexOutOfBounds(leafIndex, |leaves|))
      ensures leafIndex < |leaves| ==> r == Success(ProofAt(sha, leaves, leafIndex))
    {
      hide NextLevel, Path, Height, LevelAbove, Shift, At;
      if leafIndex >= |leaves| {
        return Failure(LeafIndexOutOfBounds(leafIndex, |leaves|));
      }
      ghost var bottom: Level := HashedLeaves(sha, leaves);
      ghost var k := 0;
      var siblings: seq<Digest> := [];
      var index := leafIndex;
      var level: seq<Digest> := HashedLeaves(sha, leaves);
      NoPath(sha, bottom, leafIndex);
      while |level| > 1
        invariant |level| > 0 && level == LevelAbove(sha, NODE_TAG, bottom, k) && k <= Height(|bottom|)
        invariant index == Shift(leafIndex, k) && index < |level|
        invariant siblings == Path(sha, NODE_TAG, bottom, leafIndex, k)
        decreases |level|
      {
        var siblingIndex := if index % 2 == 0 then index + 1 else index - 1;
        var sibling := if siblingIndex < |level| then level[siblingIndex] else level[index];
        SiblingShown(level, index);
        TallLevel(sha, bottom, k);
        NextSibling(sha, bottom, leafIndex, k);
        siblings := siblings + [sibling];
        level := BuildNextLevel(sha, level);
        index := index / 2;
        k := k + 1;
      }
      TallLevel(sha, bottom, k);
      return Success(NoteMerkleProof(leafIndex, leaves[leafIndex], siblings));
    }

    static method VerifyProof(sha: Hash, root: Digest, proof: NoteMerkleProof) returns (ok: bool)
      ensures ok <==> ProofRoot(sha, proof) == root
    {
      var hash := ComputeRootFromProof(sha, proof);
      return hash == root;
    }

    /** The loop shared by `verify_proof` and `compute_note_merkle_root_from_proof`. */
    static method ComputeRootFromProof(sha: Hash, proof: NoteMerkleProof) returns (hash: Digest)
      ensures hash == ProofRoot(sha, proof)
    {
      hash := HashLeaf(sha, proof.leaf);
      var index := proof.leafIndex;
      for i := 0 to |proof.siblings|
        invariant index == Shift(proof.leafIndex, i)
        invariant hash == PathHash(sha, NODE_TAG, HashLeaf(sha, proof.leaf), proof.leafIndex, proof.siblings[..i])
      {
        var sibling := proof.siblings[i];
        assert proof.siblings[..i + 1][..i] == proof.siblings[..i];
        hash := if index % 2 == 0 then sha(NODE_TAG + hash + sibling) else sha(NODE_TAG + sibling + hash);
        index := index / 2;
      }
      assert proof.siblings[..|proof.siblings|] == proof.siblings;
    }
  }

  lemma NoPath(sha: Hash, level: Level, index: nat)
    ensures Path(sha, NODE_TAG, level, index, 0) == []
    ensures LevelAbove(sha, NODE_TAG, level, 0) == level && Shift(index, 0) == index
  {
  }

  lemma NextSibling(sha: Hash, level: Level, index: nat, k: nat)
    ensures Path(sha, NODE_TAG, level, index, k + 1)
            == Path(sha, NODE_TAG, level, index, k)
               + [At(LevelAbove(sha, NODE_TAG, level, k), Sibling(Shift(index, k)))]
    ensures LevelAbove(sha, NODE_TAG, level, k + 1) == NextLevel(sha, NODE_TAG, LevelAbove(sha, NODE_TAG, level, k))
    ensures Shift(index, k + 1) == Shift(index, k) / 2
  {
  }

  lemma SiblingShown(level: Level, index: nat)
    requires index < |level| && |level| > 1
    ensures At(level, Sibling(index))
            == if Sibling(index) < |level| then level[Sibling(index)] else level[index]
    ensures index / 2 < (|level| + 1) / 2
  {
    ShownChildren(|level|, index / 2);
    HalfAndBit(index);
  }

  /** A level has more than one node exactly below the root. */
  lemma TallLevel(sha: Hash, level: Level, k: nat)
    requires k <= Height(|level|)
    ensures |LevelAbove(sha, NODE_TAG, level, k)| > 1 <==> k < Height(|level|)
  {
    LevelHeights(sha, NODE_TAG, level, k);
  }

  // ----- Membership -----

  /** Completeness, for any `sha`: the proof of every position of the completed tree verifies; for positions
      below the leaf count this is the generated proof. */
  lemma ProofsVerify(sha: Hash, leaves: seq<NoteCommitment>, index: nat)
    requires leaves != []
    ensures ProofRoot(sha, ProofAt(sha, leaves, index)) == NoteRoot(sha, leaves)
  {
    hide Path, NextLevel, PathHash, RootOf;
    var bottom: Level := HashedLeaves(sha, leaves);
    PathClimbs(sha, NODE_TAG, bottom, index, Height(|leaves|));
    LevelHeights(sha, NODE_TAG, bottom, Height(|leaves|));
  }

  /** The payloads hashed for the root of `leaves`. */
  ghost function NotePayloads(sha: Hash, leaves: seq<NoteCommitment>): set<Bytes> {
    (set c | c in leaves :: LEAF_TAG + c)
    + if leaves == [] then {EMPTY_TAG} else TreePayloads(sha, NODE_TAG, HashedLeaves(sha, leaves))
  }

  /** The payloads hashed when a proof is verified. */
  ghost function ProofPayloads(sha: Hash, proof: NoteMerkleProof): set<Bytes> {
    {LEAF_TAG + proof.leaf}
    + PathPayloads(sha, NODE_TAG, HashLeaf(sha, proof.leaf), proof.leafIndex, proof.siblings)
  }

  /** Exactness, for proofs of any length and any index: while the payloads hashed on both sides do not
      collide, a proof verifies if and only if it is the tree's own proof for its index. Its leaf is then in
      the list, at its index when that is below the leaf count; and nothing verifies against the empty tree. */
  lemma VerifiesIffInTree(sha: Hash, leaves: seq<NoteCommitment>, proof: NoteMerkleProof)
    requires CollisionFree(sha, NotePayloads(sha, leaves) + ProofPayloads(sha, proof))
    ensures ProofRoot(sha, proof) == NoteRoot(sha, leaves)
            <==> leaves != [] && proof == ProofAt(sha, leaves, proof.leafIndex)
    ensures ProofRoot(sha, proof) == NoteRoot(sha, leaves) ==>
              proof.leaf in leaves && (proof.leafIndex < |leaves| ==> proof.leaf == leaves[proof.leafIndex])
  {
    hide CollisionFree, NotePayloads, ProofPayloads, Shown;
    if leaves == [] {
      NothingInEmptyTree(sha, proof);
    } else {
      ProofsVerify(sha, leaves, proof.leafIndex);
      if ProofRoot(sha, proof) == NoteRoot(sha, leaves) {
        VerifyingProofIsTheTrees(sha, leaves, proof);
      }
    }
  }

  lemma NothingInEmptyTree(sha: Hash, proof: NoteMerkleProof)
    requires CollisionFree(sha, NotePayloads(sha, []) + ProofPayloads(sha, proof))
    ensures ProofRoot(sha, proof) != NoteRoot(sha, [])
  {
    var payload := LEAF_TAG + proof.leaf;
    if proof.siblings != [] {
      payload := PathTop(sha, NODE_TAG, HashLeaf(sha, proof.leaf), proof.leafIndex, proof.siblings);
    }
    assert payload in ProofPayloads(sha, proof) && EMPTY_TAG in NotePayloads(sha, []);
    assert |payload| != |EMPTY_TAG|;
  }

  // Leaf and node payloads differ in length.
  lemma LeafIsNoNode(sha: Hash, payloads: set<Bytes>, leaf: NoteCommitment, payload: Bytes)
    requires CollisionFree(sha, payloads) && LEAF_TAG + leaf in payloads && payload in payloads
    requires |payload| == 86
    ensures HashLeaf(sha, leaf) != sha(payload)
  {
    assert |LEAF_TAG + leaf| == 54;
  }

  lemma VerifyingProofIsTheTrees(sha: Hash, leaves: seq<NoteCommitment>, proof: NoteMerkleProof)
    requires leaves != [] && ProofRoot(sha, proof) == NoteRoot(sha, leaves)
    requires CollisionFree(sha, NotePayloads(sha, leaves) + ProofPayloads(sha, proof))
    ensures proof == ProofAt(sha, leaves, proof.leafIndex)
  {
    hide NextLevel, PathHash, RootOf, Path, Height, PathPayloads, TreePayloads, Shown, LevelAbove, CollisionFree;
    var bottom: Level := HashedLeaves(sha, leaves);
    var height, n := Height(|bottom|), |proof.siblings|;
    var hash := HashLeaf(sha, proof.leaf);
    var payloads := NotePayloads(sha, leaves) + ProofPayloads(sha, proof);
    TopOfTree(sha, NODE_TAG, bottom, Shift(proof.leafIndex, n));
    FewerPayloads(sha, TreePayloads(sha, NODE_TAG, bottom)
                       + PathPayloads(sha, NODE_TAG, hash, proof.leafIndex, proof.siblings), payloads);
    PathRunsInTree(sha, NODE_TAG, bottom, height, hash, proof.leafIndex, proof.siblings);
    assert LEAF_TAG + proof.leaf in payloads;
    if n < height {
      var payload := TreeNode(sha, NODE_TAG, bottom, height - n, proof.leafIndex);
      LeafIsNoNode(sha, payloads, proof.leaf, payload);
    } else if n > height {
      var j := Shown(|bottom|, Shift(proof.leafIndex, n - height));
      assert LEAF_TAG + leaves[j] in payloads;
      var prefix := proof.siblings[..n - height];
      ShorterPathPayloads(sha, NODE_TAG, hash, proof.leafIndex, proof.siblings, n - height);
      var payload := PathTop(sha, NODE_TAG, hash, proof.leafIndex, prefix);
      LeafIsNoNode(sha, payloads, leaves[j], payload);
    } else {
      var j := Shown(|bottom|, proof.leafIndex);
      assert LEAF_TAG + leaves[j] in payloads;
      LeafHashBinds(sha, payloads, proof.leaf, leaves[j]);
    }
  }

  // ----- Binding -----

  /** Two note lists of one length have one root exactly when they are equal. */
  lemma NoteRootBinds(sha: Hash, a: seq<NoteCommitment>, b: seq<NoteCommitment>)
    requires |a| == |b| && CollisionFree(sha, NotePayloads(sha, a) + NotePayloads(sha, b))
    ensures NoteRoot(sha, a) == NoteRoot(sha, b) <==> a == b
  {
    hide RootOf, TreePayloads;
    if a != [] {
      var ha: Level, hb: Level := HashedLeaves(sha, a), HashedLeaves(sha, b);
      FewerPayloads(sha, TreePayloads(sha, NODE_TAG, ha) + TreePayloads(sha, NODE_TAG, hb),
                    NotePayloads(sha, a) + NotePayloads(sha, b));
      RootBinds(sha, NODE_TAG, ha, hb);
      if ha == hb {
        HashedLeavesBind(sha, a, b);
      }
    }
  }

  lemma HashedLeavesBind(sha: Hash, a: seq<NoteCommitment>, b: seq<NoteCommitment>)
    requires |a| == |b| && CollisionFree(sha, NotePayloads(sha, a) + NotePayloads(sha, b))
    requires HashedLeaves(sha, a) == HashedLeaves(sha, b)
    ensures a == b
  {
    hide TreePayloads, CollisionFree;
    forall i | 0 <= i < |a| ensures a[i] == b[i] {
      assert HashedLeaves(sha, a)[i] == HashedLeaves(sha, b)[i] && a[i] in a && b[i] in b;
      LeafHashBinds(sha, NotePayloads(sha, a) + NotePayloads(sha, b), a[i], b[i]);
    }
  }

  /** Lists of different lengths can share a root: repeating the last leaf of an odd list does not change it.
      The exact condition, for any two lists: equal roots if and only if the completed lists are equal. */
  lemma NoteRootsEqualIffSameCompletion(sha: Hash, a: seq<NoteCommitment>, b: seq<NoteCommitment>)
    requires CollisionFree(sha, NotePayloads(sha, a) + NotePayloads(sha, b))
    ensures NoteRoot(sha, a) == NoteRoot(sha, b) <==> Completion(a) == Completion(b)
  {
    hide Shown, Height, Completion, TreePayloads, RootOf;
    Power2Positive(Height(|a|));
    Power2Positive(Height(|b|));
    if a == [] && b != [] {
      EmptyRootIsAlone(sha, b);
    } else if a != [] && b == [] {
      EmptyRootIsAlone(sha, a);
    } else if a != [] && b != [] {
      var ha: Level, hb: Level := HashedLeaves(sha, a), HashedLeaves(sha, b);
      var payloads := NotePayloads(sha, a) + NotePayloads(sha, b);
      FewerPayloads(sha, TreePayloads(sha, NODE_TAG, ha) + TreePayloads(sha, NODE_TAG, hb), payloads);
      HashedLeavesApart(sha, a, b, payloads);
      HashedLeavesApart(sha, b, a, payloads);
      RootsEqualIffSameCompletion(sha, NODE_TAG, ha, hb);
      forall i, j | 0 <= i < |a| && 0 <= j < |b| ensures ha[i] == hb[j] <==> a[i] == b[j] {
        LeafHashBinds(sha, payloads, a[i], b[j]);
      }
      CompletionThroughMap(a, b, ha, hb);
    }
  }

  lemma LeafHashBinds(sha: Hash, payloads: set<Bytes>, c: NoteCommitment, d: NoteCommitment)
    requires CollisionFree(sha, payloads) && LEAF_TAG + c in payloads && LEAF_TAG + d in payloads
    ensures HashLeaf(sha, c) == HashLeaf(sha, d) <==> c == d
  {
    assert c == (LEAF_TAG + c)[|LEAF_TAG|..] && d == (LEAF_TAG + d)[|LEAF_TAG|..];
  }

  lemma HashedLeavesApart(sha: Hash, a: seq<NoteCommitment>, b: seq<NoteCommitment>, payloads: set<Bytes>)
    requires a != [] && b != [] && CollisionFree(sha, payloads)
    requires NotePayloads(sha, a) <= payloads && NotePayloads(sha, b) <= payloads
    ensures LeavesApart(sha, HashedLeaves(sha, a), TreePayloads(sha, NODE_TAG, HashedLeaves(sha, b)))
  {
    hide TreePayloads, CollisionFree;
    var ha := HashedLeaves(sha, a);
    forall d, x | d in ha && x in TreePayloads(sha, NODE_TAG, HashedLeaves(sha, b)) ensures sha(x) != d {
      var i :| 0 <= i < |ha| && ha[i] == d;
      assert a[i] in a && LEAF_TAG + a[i] in payloads;
      PayloadLength(sha, NODE_TAG, HashedLeaves(sha, b), x);
      LeafIsNoNode(sha, payloads, a[i], x);
    }
  }

  lemma EmptyRootIsAlone(sha: Hash, b: seq<NoteCommitment>)
    requires b != [] && CollisionFree(sha, NotePayloads(sha, []) + NotePayloads(sha, b))
    ensures NoteRoot(sha, b) != NoteRoot(sha, [])
  {
    var bottom: Level := HashedLeaves(sha, b);
    TopOfTree(sha, NODE_TAG, bottom, 0);
    var payload := LEAF_TAG + b[0];
    if Height(|b|) > 0 {
      payload := TreeNode(sha, NODE_TAG, bottom, Height(|b|), 0);
    }
    assert payload in NotePayloads(sha, b) && EMPTY_TAG in NotePayloads(sha, []);
    assert |payload| != |EMPTY_TAG|;
  }

  /** The family of lists that share a root because the last leaf of an odd list is repeated. */
  lemma RepeatedLastLeafKeepsRoot(sha: Hash, leaves: seq<NoteCommitment>)
    requires |leaves| > 1 && |leaves| % 2 == 1
    ensures NoteRoot(sha, leaves + [leaves[|leaves| - 1]]) == NoteRoot(sha, leaves)
  {
    hide RootOf;
    var more := leaves + [leaves[|leaves| - 1]];
    var a: Level, b: Level := HashedLeaves(sha, leaves), HashedLeaves(sha, more);
    assert b == a + [a[|a| - 1]];
    RepeatedLastKeepsRoot(sha, NODE_TAG, a, b);
  }

  /** One leaf can have several indices: in an odd list, the index past the end verifies the last leaf too. */
  lemma LastLeafVerifiesTwice(sha: Hash, leaves: seq<NoteCommitment>)
    requires |leaves| > 1 && |leaves| % 2 == 1
    ensures var n := |leaves|;
            && ProofAt(sha, leaves, n).leaf == ProofAt(sha, leaves, n - 1).leaf == leaves[n - 1]
            && ProofRoot(sha, ProofAt(sha, leaves, n)) == ProofRoot(sha, ProofAt(sha, leaves, n - 1))
               == NoteRoot(sha, leaves)
  {
    hide Path, ProofRoot, NoteRoot, Height;
    var n := |leaves|;
    ProofsVerify(sha, leaves, n);
    ProofsVerify(sha, leaves, n - 1);
    ShownChildren(n, (n - 1) / 2);
    assert n - 1 == 2 * ((n - 1) / 2) && n == 2 * ((n - 1) / 2) + 1;
  }
}
