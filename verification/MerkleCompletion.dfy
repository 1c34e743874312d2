/** What a root commits to: the leaves filled up to a full tree. */
module MerkleCompletion {
  import opened Bytes
  import opened MerkleLevels

  // A path of at least one step ends in the hash of a node payload.
  lemma PathTop(sha: Hash, tag: Bytes, hash: Digest, index: nat, siblings: seq<Digest>) returns (payload: Bytes)
    requires siblings != []
    ensures payload in PathPayloads(sha, tag, hash, index, siblings) && |payload| == |tag| + 64
    ensures PathHash(sha, tag, hash, index, siblings) == sha(payload)
  {
    var n := |siblings| - 1;
    var below := PathHash(sha, tag, hash, index, siblings[..n]);
    payload := if Shift(index, n) % 2 == 0 then NodePayload(tag, below, siblings[n])
               else NodePayload(tag, siblings[n], below);
  }

  lemma {:induction false} ShorterPathPayloads(
    sha: Hash, tag: Bytes, hash: Digest, index: nat, siblings: seq<Digest>, n: nat)
    requires n <= |siblings|
    ensures PathPayloads(sha, tag, hash, index, siblings[..n])
            <= PathPayloads(sha, tag, hash, index, siblings)
  {
    if n < |siblings| {
      var init := siblings[..|siblings| - 1];
      ShorterPathPayloads(sha, tag, hash, index, init, n);
      assert init[..n] == siblings[..n];
    } else {
      assert siblings[..n] == siblings;
    }
  }

  lemma TopOfTree(sha: Hash, tag: Bytes, bottom: Level, position: nat)
    ensures At(LevelAbove(sha, tag, bottom, Height(|bottom|)), position) == RootOf(sha, tag, bottom)
  {
    LevelHeights(sha, tag, bottom, Height(|bottom|));
  }

  // A node above the leaves is the hash of one of the tree's node payloads.
  lemma TreeNode(sha: Hash, tag: Bytes, bottom: Level, k: nat, i: nat) returns (payload: Bytes)
    requires 0 < k <= Height(|bottom|)
    ensures payload in TreePayloads(sha, tag, bottom) && |payload| == |tag| + 64
    ensures At(LevelAbove(sha, tag, bottom, k), i) == sha(payload)
  {
    hide NextLevel, TreePayloads, Height, At;
    var below := LevelAbove(sha, tag, bottom, k - 1);
    LevelHeights(sha, tag, bottom, k - 1);
    ParentAt(sha, tag, below, i);
    TreePayloadAt(sha, tag, bottom, k - 1, i);
    payload := NodePayload(tag, At(below, 2 * i), At(below, 2 * i + 1));
  }

  lemma {:induction false} OwnPathPayloads(sha: Hash, tag: Bytes, level: Level, i: nat, k: nat)
    requires k <= Height(|level|)
    ensures PathPayloads(sha, tag, At(level, i), i, Path(sha, tag, level, i, k))
            <= TreePayloads(sha, tag, level)
  {
    hide NextLevel, At, TreePayloads, Height, Sibling, PathHash, NodePayload, LevelAbove, Shift;
    if k > 0 {
      var path := Path(sha, tag, level, i, k);
      assert path[..k - 1] == Path(sha, tag, level, i, k - 1);
      OwnPathPayloads(sha, tag, level, i, k - 1);
      OwnStepPayload(sha, tag, level, i, k);
    }
  }

  lemma OwnStepPayload(sha: Hash, tag: Bytes, level: Level, i: nat, k: nat)
    requires 0 < k <= Height(|level|)
    ensures var below := PathHash(sha, tag, At(level, i), i, Path(sha, tag, level, i, k - 1));
            var sibling := At(LevelAbove(sha, tag, level, k - 1), Sibling(Shift(i, k - 1)));
            (if Shift(i, k - 1) % 2 == 0 then NodePayload(tag, below, sibling)
             else NodePayload(tag, sibling, below))
            in TreePayloads(sha, tag, level)
  {
    hide NextLevel, At, TreePayloads, Height, PathHash, NodePayload, LevelAbove, Shift, Path, Sibling;
    PathClimbs(sha, tag, level, i, k - 1);
    TreePayloadAt(sha, tag, level, k - 1, Shift(i, k - 1) / 2);
    HalfAndBit(Shift(i, k - 1));
  }

  function Power2(k: nat): nat {
    if k == 0 then 1 else 2 * Power2(k - 1)
  }

  lemma {:induction false} Power2Injective(j: nat, k: nat)
    requires Power2(j) == Power2(k)
    ensures j == k
  {
    if j > 0 && k > 0 {
      Power2Injective(j - 1, k - 1);
    }
  }

  /** A list filled up to a full tree as duplication does: what a root commits to. */
  function Completion<T>(leaves: seq<T>): (r: seq<T>)
    ensures |r| == if leaves == [] then 0 else Power2(Height(|leaves|))
    ensures forall i :: 0 <= i < |r| ==> r[i] == leaves[Shown(|leaves|, i)]
  {
    if leaves == [] then []
    else seq<T>(Power2(Height(|leaves|)), i requires i >= 0 => leaves[Shown(|leaves|, i)])
  }

  lemma {:induction false} Power2Positive(k: nat)
    ensures Power2(k) > 0
  {
    if k > 0 {
      Power2Positive(k - 1);
    }
  }

  lemma {:induction false} SameCompletionSameLevels(sha: Hash, tag: Bytes, a: Level, b: Level, k: nat, i: nat)
    requires Height(|a|) == Height(|b|) && k <= Height(|a|) && i < Power2(Height(|a|) - k)
    requires forall j: nat :: j < Power2(Height(|a|)) ==> At(a, j) == At(b, j)
    ensures At(LevelAbove(sha, tag, a, k), i) == At(LevelAbove(sha, tag, b, k), i)
  {
    hide NextLevel, At, Height;
    if k > 0 {
      LevelHeights(sha, tag, a, k - 1);
      LevelHeights(sha, tag, b, k - 1);
      ParentAt(sha, tag, LevelAbove(sha, tag, a, k - 1), i);
      ParentAt(sha, tag, LevelAbove(sha, tag, b, k - 1), i);
      SameCompletionSameLevels(sha, tag, a, b, k - 1, 2 * i);
      SameCompletionSameLevels(sha, tag, a, b, k - 1, 2 * i + 1);
    }
  }

  lemma {:induction false} PayloadLength(sha: Hash, tag: Bytes, level: Level, x: Bytes)
    requires x in TreePayloads(sha, tag, level)
    ensures |x| == |tag| + 64
    decreases |level|
  {
    hide NextLevel;
    if x !in PairPayloads(tag, level) {
      PayloadLength(sha, tag, NextLevel(sha, tag, level), x);
    }
  }

  /** No leaf of `level` is the hash of one of these payloads. */
  ghost predicate LeavesApart(sha: Hash, level: Level, payloads: set<Bytes>) {
    forall d, x {:trigger d in level, sha(x)} :: d in level && x in payloads ==> sha(x) != d
  }

  /** Under one root, the path that `a` has for a position leads to the root of `b`. */
  lemma OwnPathLeadsTo(sha: Hash, tag: Bytes, a: Level, b: Level, i: nat)
    requires RootOf(sha, tag, a) == RootOf(sha, tag, b)
    ensures PathHash(sha, tag, At(a, i), i, Path(sha, tag, a, i, Height(|a|)))
            == At(LevelAbove(sha, tag, b, Height(|b|)), Shift(i, Height(|a|)))
  {
    hide RootOf, Height, Path, PathHash, Shown, LevelAbove, Shift;
    PathClimbs(sha, tag, a, i, Height(|a|));
    TopOfTree(sha, tag, a, Shift(i, Height(|a|)));
    TopOfTree(sha, tag, b, Shift(i, Height(|a|)));
  }

  lemma Apart(sha: Hash, level: Level, payloads: set<Bytes>, i: nat, x: Bytes)
    requires LeavesApart(sha, level, payloads) && x in payloads
    ensures At(level, i) != sha(x)
  {
    assert At(level, i) in level;
  }

  /** Under one root, a position of `a` shows what the same position of `b` shows, and the trees are equally
      high: the path that `a` has for the position is also a path into `b`. */
  lemma SameRootSameLeaf(sha: Hash, tag: Bytes, a: Level, b: Level, i: nat)
    requires RootOf(sha, tag, a) == RootOf(sha, tag, b)
    requires CollisionFree(sha, TreePayloads(sha, tag, a) + TreePayloads(sha, tag, b))
    requires LeavesApart(sha, a, TreePayloads(sha, tag, b)) && LeavesApart(sha, b, TreePayloads(sha, tag, a))
    ensures Height(|a|) == Height(|b|) && At(a, i) == At(b, i)
  {
    hide RootOf, TreePayloads, PathPayloads, Height, Path, PathHash, CollisionFree, At, LevelAbove, Shift;
    hide LeavesApart;
    var n, k := Height(|a|), Height(|b|);
    var path := Path(sha, tag, a, i, n);
    OwnPathLeadsTo(sha, tag, a, b, i);
    OwnPathPayloads(sha, tag, a, i, n);
    FewerPayloads(sha, TreePayloads(sha, tag, b) + PathPayloads(sha, tag, At(a, i), i, path),
                  TreePayloads(sha, tag, a) + TreePayloads(sha, tag, b));
    PathRunsInTree(sha, tag, b, k, At(a, i), i, path);
    if n < k {
      var x := TreeNode(sha, tag, b, k - n, i);
      Apart(sha, a, TreePayloads(sha, tag, b), i, x);
    } else if n > k {
      ShorterPathPayloads(sha, tag, At(a, i), i, path, n - k);
      var x := PathTop(sha, tag, At(a, i), i, path[..n - k]);
      Apart(sha, b, TreePayloads(sha, tag, a), Shift(i, n - k), x);
    }
  }

  lemma SameCompletionSameRoot(sha: Hash, tag: Bytes, a: Level, b: Level)
    requires Completion(a) == Completion(b)
    ensures RootOf(sha, tag, a) == RootOf(sha, tag, b)
  {
    hide Shown, Height, RootOf, LevelAbove, Completion;
    Power2Injective(Height(|a|), Height(|b|));
    forall j: nat | j < Power2(Height(|a|)) ensures At(a, j) == At(b, j) {
      assert Completion(a)[j] == Completion(b)[j];
    }
    SameCompletionSameLevels(sha, tag, a, b, Height(|a|), 0);
    TopOfTree(sha, tag, a, 0);
    TopOfTree(sha, tag, b, 0);
  }

  /** For any two levels, whatever their lengths: equal roots if and only if the completed levels are equal. */
  lemma RootsEqualIffSameCompletion(sha: Hash, tag: Bytes, a: Level, b: Level)
    requires CollisionFree(sha, TreePayloads(sha, tag, a) + TreePayloads(sha, tag, b))
    requires LeavesApart(sha, a, TreePayloads(sha, tag, b)) && LeavesApart(sha, b, TreePayloads(sha, tag, a))
    ensures RootOf(sha, tag, a) == RootOf(sha, tag, b) <==> Completion(a) == Completion(b)
  {
    hide Shown, Height, RootOf, TreePayloads, Completion, CollisionFree, LeavesApart;
    if Completion(a) == Completion(b) {
      SameCompletionSameRoot(sha, tag, a, b);
    }
    if RootOf(sha, tag, a) == RootOf(sha, tag, b) {
      SameRootSameLeaf(sha, tag, a, b, 0);
      forall i | 0 <= i < |Completion(a)| ensures Completion(a)[i] == Completion(b)[i] {
        SameRootSameLeaf(sha, tag, a, b, i);
      }
    }
  }

  /** Lists are completed alike exactly when their images under an injective function are. */
  lemma CompletionThroughMap<T, U>(a: seq<T>, b: seq<T>, fa: seq<U>, fb: seq<U>)
    requires |fa| == |a| && |fb| == |b|
    requires forall i, j :: 0 <= i < |a| && 0 <= j < |b| ==> (fa[i] == fb[j] <==> a[i] == b[j])
    ensures Completion(fa) == Completion(fb) <==> Completion(a) == Completion(b)
  {
    hide Shown, Height, Completion;
    if Completion(fa) == Completion(fb) {
      forall k | 0 <= k < |Completion(a)| ensures Completion(a)[k] == Completion(b)[k] {
        assert Completion(fa)[k] == Completion(fb)[k];
      }
    }
    if Completion(a) == Completion(b) {
      forall k | 0 <= k < |Completion(fa)| ensures Completion(fa)[k] == Completion(fb)[k] {
        assert Completion(a)[k] == Completion(b)[k];
      }
    }
  }

  /** The family of levels that share a root because the last node of an odd level is repeated. */
  lemma RepeatedLastKeepsRoot(sha: Hash, tag: Bytes, a: Level, b: Level)
    requires |a| > 1 && |a| % 2 == 1 && b == a + [a[|a| - 1]]
    ensures RootOf(sha, tag, b) == RootOf(sha, tag, a)
  {
    var na, nb := NextLevel(sha, tag, a), NextLevel(sha, tag, b);
    forall m | 0 <= m < |na| ensures na[m] == nb[m] {
      assert PairPayload(tag, a, m) == PairPayload(tag, b, m);
    }
    assert na == nb;
  }
}
