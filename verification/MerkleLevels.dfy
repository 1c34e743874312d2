/** Binary hash trees built level by level, the last node of an odd level standing in for its missing
    sibling: the shape shared by the block tree (src/blockchain/hash.rs) and the note tree
    (src/privacy/mod.rs). The two differ in the tag hashed in front of a pair. */
module MerkleLevels {
  import opened Bytes

  function NodePayload(tag: Bytes, left: Digest, right: Digest): Bytes {
    tag + left + right
  }

  lemma NodePayloadInjective(tag: Bytes, l: Digest, r: Digest, l': Digest, r': Digest)
    requires NodePayload(tag, l, r) == NodePayload(tag, l', r')
    ensures l == l' && r == r'
  {
    var p, q := NodePayload(tag, l, r), NodePayload(tag, l', r');
    assert l == p[|tag|..|tag| + 32] && l' == q[|tag|..|tag| + 32];
    assert r == p[|tag| + 32..] && r' == q[|tag| + 32..];
  }

  function Node(sha: Hash, tag: Bytes, left: Digest, right: Digest): Digest {
    sha(NodePayload(tag, left, right))
  }

  type Level = s: seq<Digest> | |s| > 0 witness [ZEROS_32]

  /** The right half of pair `m`: the last node again when it has no neighbour. */
  function RightOf(level: seq<Digest>, m: nat): Digest
    requires 2 * m < |level|
  {
    if 2 * m + 1 < |level| then level[2 * m + 1] else level[2 * m]
  }

  function PairPayload(tag: Bytes, level: seq<Digest>, m: nat): Bytes
    requires 2 * m < |level|
  {
    NodePayload(tag, level[2 * m], RightOf(level, m))
  }

  function NextLevel(sha: Hash, tag: Bytes, level: seq<Digest>): (r: seq<Digest>)
    ensures |r| == (|level| + 1) / 2
  {
    seq<Digest>((|level| + 1) / 2, m requires 0 <= m < (|level| + 1) / 2 => sha(PairPayload(tag, level, m)))
  }

  function RootOf(sha: Hash, tag: Bytes, level: Level): Digest
    decreases |level|
  {
    if |level| == 1 then level[0] else RootOf(sha, tag, NextLevel(sha, tag, level))
  }

  /** The number of levels above `n` leaves. */
  function Height(n: nat): nat {
    if n <= 1 then 0 else 1 + Height((n + 1) / 2)
  }

  /** The leaf that position `i` of the completed tree shows: duplication repeats the last node of every odd
      level, and with it everything below. */
  function Shown(n: nat, i: nat): (r: nat)
    requires n > 0
    ensures r < n
    ensures i < n ==> r == i
    decreases n
  {
    if n == 1 then 0
    else
      var j := 2 * Shown((n + 1) / 2, i / 2) + i % 2;
      if j < n then j else n - 1
  }

  /** The digest at position `i` of the completed level. */
  function At(level: Level, i: nat): Digest {
    level[Shown(|level|, i)]
  }

  function Sibling(i: nat): nat {
    if i % 2 == 0 then i + 1 else i - 1
  }

  lemma ShownChildren(n: nat, i: nat)
    requires n > 1
    ensures var m := Shown((n + 1) / 2, i);
            && 2 * m < n
            && Shown(n, 2 * i) == 2 * m
            && Shown(n, 2 * i + 1) == if 2 * m + 1 < n then 2 * m + 1 else 2 * m
  {
    assert (2 * i) / 2 == i && (2 * i) % 2 == 0;
    assert (2 * i + 1) / 2 == i && (2 * i + 1) % 2 == 1;
  }

  /** A parent hashes the two positions below it, also where one or both are duplicates. */
  lemma ParentAt(sha: Hash, tag: Bytes, level: Level, i: nat)
    requires |level| > 1
    ensures At(NextLevel(sha, tag, level), i) == Node(sha, tag, At(level, 2 * i), At(level, 2 * i + 1))
    ensures NodePayload(tag, At(level, 2 * i), At(level, 2 * i + 1)) in PairPayloads(tag, level)
  {
    hide Shown, NodePayload;
    ShownChildren(|level|, i);
    var m := Shown((|level| + 1) / 2, i);
    assert PairPayload(tag, level, m) == NodePayload(tag, At(level, 2 * i), At(level, 2 * i + 1));
  }

  /** The payloads hashed to build the level above. */
  ghost function PairPayloads(tag: Bytes, level: Level): set<Bytes> {
    set m | 0 <= m < (|level| + 1) / 2 :: PairPayload(tag, level, m)
  }

  function Combine(sha: Hash, tag: Bytes, index: nat, hash: Digest, sibling: Digest): Digest {
    if index % 2 == 0 then Node(sha, tag, hash, sibling) else Node(sha, tag, sibling, hash)
  }

  /** `index >> k`. */
  function Shift(index: nat, k: nat): nat {
    if k == 0 then index else Shift(index, k - 1) / 2
  }

  /** The hash reached from `hash` along the siblings. */
  function PathHash(sha: Hash, tag: Bytes, hash: Digest, index: nat, siblings: seq<Digest>): Digest {
    if siblings == [] then hash
    else
      var n := |siblings| - 1;
      Combine(sha, tag, Shift(index, n), PathHash(sha, tag, hash, index, siblings[..n]), siblings[n])
  }

  /** The level `k` steps above `level`. */
  function LevelAbove(sha: Hash, tag: Bytes, level: Level, k: nat): (r: Level) {
    if k == 0 then level else NextLevel(sha, tag, LevelAbove(sha, tag, level, k - 1))
  }

  lemma {:induction false} LevelAboveNext(sha: Hash, tag: Bytes, level: Level, k: nat)
    ensures LevelAbove(sha, tag, NextLevel(sha, tag, level), k) == LevelAbove(sha, tag, level, k + 1)
  {
    if k > 0 {
      LevelAboveNext(sha, tag, level, k - 1);
    }
  }

  /** The levels shrink to the root in `Height` steps and not before. */
  lemma {:induction false} LevelHeights(sha: Hash, tag: Bytes, level: Level, k: nat)
    requires k <= Height(|level|)
    ensures Height(|LevelAbove(sha, tag, level, k)|) == Height(|level|) - k
    ensures k < Height(|level|) ==> |LevelAbove(sha, tag, level, k)| > 1
    ensures k == Height(|level|) ==> LevelAbove(sha, tag, level, k) == [RootOf(sha, tag, level)]
    decreases |level|
  {
    hide NextLevel;
    if k > 0 {
      var next := NextLevel(sha, tag, level);
      LevelHeights(sha, tag, next, k - 1);
      LevelAboveNext(sha, tag, level, k - 1);
    }
  }

  /** The siblings on the way from position `i` of the completed tree to the root. */
  function Path(sha: Hash, tag: Bytes, level: Level, i: nat, k: nat): (r: seq<Digest>)
    ensures |r| == k
  {
    if k == 0 then []
    else Path(sha, tag, level, i, k - 1)
         + [At(LevelAbove(sha, tag, level, k - 1), Sibling(Shift(i, k - 1)))]
  }

  /** Two neighbours combine to their parent, from either side. */
  lemma CombineAt(sha: Hash, tag: Bytes, level: Level, x: nat)
    requires |level| > 1
    ensures Combine(sha, tag, x, At(level, x), At(level, Sibling(x))) == At(NextLevel(sha, tag, level), x / 2)
  {
    hide NextLevel, Node, At;
    ParentAt(sha, tag, level, x / 2);
    HalfAndBit(x);
  }

  lemma PathSnoc(sha: Hash, tag: Bytes, level: Level, i: nat, k: nat)
    ensures Path(sha, tag, level, i, k + 1)[..k] == Path(sha, tag, level, i, k)
    ensures Path(sha, tag, level, i, k + 1)[k] == At(LevelAbove(sha, tag, level, k), Sibling(Shift(i, k)))
  {
  }

  /** Walking any position's own path shows the nodes of the tree, whatever `sha` is. */
  lemma {:induction false} PathClimbs(sha: Hash, tag: Bytes, level: Level, i: nat, k: nat)
    requires k <= Height(|level|)
    ensures PathHash(sha, tag, At(level, i), i, Path(sha, tag, level, i, k))
            == At(LevelAbove(sha, tag, level, k), Shift(i, k))
  {
    hide NextLevel, Combine, At, Height, Path, Sibling;
    if k > 0 {
      PathClimbs(sha, tag, level, i, k - 1);
      PathSnoc(sha, tag, level, i, k - 1);
      LevelHeights(sha, tag, level, k - 1);
      CombineAt(sha, tag, LevelAbove(sha, tag, level, k - 1), Shift(i, k - 1));
    } else {
      assert Path(sha, tag, level, i, 0) == [];
    }
  }

  lemma HalfAndBit(x: nat)
    ensures x % 2 == 0 ==> x == 2 * (x / 2) && Sibling(x) == 2 * (x / 2) + 1
    ensures x % 2 == 1 ==> x == 2 * (x / 2) + 1 && Sibling(x) == 2 * (x / 2)
  {
  }

  // ----- The payloads hashed on the way -----

  /** The payloads hashed when the root of `level` is computed. */
  ghost function TreePayloads(sha: Hash, tag: Bytes, level: Level): set<Bytes>
    decreases |level|
  {
    if |level| == 1 then {}
    else PairPayloads(tag, level) + TreePayloads(sha, tag, NextLevel(sha, tag, level))
  }

  /** The payloads hashed when a path is walked. */
  ghost function PathPayloads(sha: Hash, tag: Bytes, hash: Digest, index: nat, siblings: seq<Digest>): set<Bytes> {
    if siblings == [] then {}
    else
      var n := |siblings| - 1;
      var below := PathHash(sha, tag, hash, index, siblings[..n]);
      PathPayloads(sha, tag, hash, index, siblings[..n])
      + {if Shift(index, n) % 2 == 0 then NodePayload(tag, below, siblings[n])
         else NodePayload(tag, siblings[n], below)}
  }

  lemma {:induction false} TreePayloadAt(sha: Hash, tag: Bytes, level: Level, k: nat, i: nat)
    requires k < Height(|level|)
    ensures var below := LevelAbove(sha, tag, level, k);
            NodePayload(tag, At(below, 2 * i), At(below, 2 * i + 1)) in TreePayloads(sha, tag, level)
    decreases |level|
  {
    hide NextLevel, At, NodePayload, PairPayloads;
    if k == 0 {
      ParentAt(sha, tag, level, i);
    } else {
      var next := NextLevel(sha, tag, level);
      TreePayloadAt(sha, tag, next, k - 1, i);
      LevelAboveNext(sha, tag, level, k - 1);
    }
  }

  /** The last step of a path that ends in a node of the tree is a step of the tree. */
  lemma PeelOne(
    sha: Hash, tag: Bytes, level: Level, k: nat, hash: Digest, index: nat, siblings: seq<Digest>)
    requires 0 < k <= Height(|level|) && siblings != []
    requires CollisionFree(sha, TreePayloads(sha, tag, level) + PathPayloads(sha, tag, hash, index, siblings))
    requires PathHash(sha, tag, hash, index, siblings)
             == At(LevelAbove(sha, tag, level, k), Shift(index, |siblings|))
    ensures var n := |siblings| - 1;
            var below := LevelAbove(sha, tag, level, k - 1);
            && PathHash(sha, tag, hash, index, siblings[..n]) == At(below, Shift(index, n))
            && siblings[n] == At(below, Sibling(Shift(index, n)))
  {
    hide NextLevel, At, NodePayload, TreePayloads, Height, Sibling;
    var n := |siblings| - 1;
    var below := LevelAbove(sha, tag, level, k - 1);
    var x := Shift(index, n);
    var reached := PathHash(sha, tag, hash, index, siblings[..n]);
    LevelHeights(sha, tag, level, k - 1);
    ParentAt(sha, tag, below, x / 2);
    TreePayloadAt(sha, tag, level, k - 1, x / 2);
    HalfAndBit(x);
    var l, r := At(below, 2 * (x / 2)), At(below, 2 * (x / 2) + 1);
    if x % 2 == 0 {
      assert NodePayload(tag, reached, siblings[n]) == NodePayload(tag, l, r);
      NodePayloadInjective(tag, reached, siblings[n], l, r);
    } else {
      assert NodePayload(tag, siblings[n], reached) == NodePayload(tag, l, r);
      NodePayloadInjective(tag, siblings[n], reached, l, r);
    }
  }

  lemma ShorterPath(sha: Hash, tag: Bytes, hash: Digest, index: nat, siblings: seq<Digest>, others: set<Bytes>)
    requires siblings != []
    requires CollisionFree(sha, others + PathPayloads(sha, tag, hash, index, siblings))
    ensures CollisionFree(sha, others + PathPayloads(sha, tag, hash, index, siblings[..|siblings| - 1]))
  {
  }

  /** A path that ends in a node of the tree runs inside the tree: walked down from the top, siblings and
      hashes are those of the tree for as long as both go on. */
  lemma {:induction false} PathRunsInTree(
    sha: Hash, tag: Bytes, level: Level, k: nat, hash: Digest, index: nat, siblings: seq<Digest>)
    requires k <= Height(|level|)
    requires CollisionFree(sha, TreePayloads(sha, tag, level) + PathPayloads(sha, tag, hash, index, siblings))
    requires PathHash(sha, tag, hash, index, siblings)
             == At(LevelAbove(sha, tag, level, k), Shift(index, |siblings|))
    ensures |siblings| == k ==> hash == At(level, index) && siblings == Path(sha, tag, level, index, k)
    ensures |siblings| < k ==> hash == At(LevelAbove(sha, tag, level, k - |siblings|), index)
    ensures |siblings| > k ==>
              PathHash(sha, tag, hash, index, siblings[..|siblings| - k])
              == At(level, Shift(index, |siblings| - k))
    decreases k
  {
    hide NextLevel, At, NodePayload, TreePayloads, PathPayloads, CollisionFree, Height, Sibling, Combine;
    assert siblings[..|siblings|] == siblings;
    if siblings != [] && k > 0 {
      var n := |siblings| - 1;
      PeelOne(sha, tag, level, k, hash, index, siblings);
      ShorterPath(sha, tag, hash, index, siblings, TreePayloads(sha, tag, level));
      PathRunsInTree(sha, tag, level, k - 1, hash, index, siblings[..n]);
      assert siblings == siblings[..n] + [siblings[n]];
      if n + 1 > k {
        assert siblings[..n + 1 - k] == siblings[..n][..n - (k - 1)];
      }
    }
  }

  /** Equal roots over equally many leaves have equal leaves, position by position. */
  lemma {:induction false} RootBinds(sha: Hash, tag: Bytes, a: Level, b: Level)
    requires |a| == |b|
    requires CollisionFree(sha, TreePayloads(sha, tag, a) + TreePayloads(sha, tag, b))
    ensures RootOf(sha, tag, a) == RootOf(sha, tag, b) <==> a == b
    decreases |a|
  {
    if |a| > 1 && RootOf(sha, tag, a) == RootOf(sha, tag, b) {
      RootBinds(sha, tag, NextLevel(sha, tag, a), NextLevel(sha, tag, b));
      LevelsAgree(sha, tag, a, b);
    }
  }

  lemma LevelsAgree(sha: Hash, tag: Bytes, a: Level, b: Level)
    requires |a| == |b| > 1 && NextLevel(sha, tag, a) == NextLevel(sha, tag, b)
    requires CollisionFree(sha, PairPayloads(tag, a) + PairPayloads(tag, b))
    ensures a == b
  {
    forall i | 0 <= i < |a| ensures a[i] == b[i] {
      PairAgrees(sha, tag, a, b, i / 2);
    }
  }

  lemma PairAgrees(sha: Hash, tag: Bytes, a: Level, b: Level, m: nat)
    requires |a| == |b| > 1 && NextLevel(sha, tag, a) == NextLevel(sha, tag, b) && 2 * m < |a|
    requires CollisionFree(sha, PairPayloads(tag, a) + PairPayloads(tag, b))
    ensures a[2 * m] == b[2 * m] && (2 * m + 1 < |a| ==> a[2 * m + 1] == b[2 * m + 1])
  {
    hide NodePayload;
    assert NextLevel(sha, tag, a)[m] == NextLevel(sha, tag, b)[m];
    assert PairPayload(tag, a, m) in PairPayloads(tag, a);
    assert PairPayload(tag, b, m) in PairPayloads(tag, b);
    NodePayloadInjective(tag, a[2 * m], RightOf(a, m), b[2 * m], RightOf(b, m));
  }
}
