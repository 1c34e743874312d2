/** The Merkle root of a block's transactions (src/blockchain/hash.rs). */
module BlockMerkle {
  import opened Bytes
  import opened Types
  import opened MerkleLevels
  import opened MerkleCompletion

  type Encoding = Transaction -> Bytes

  // Pairs are hashed without a tag.
  const NO_TAG: Bytes := []

  function TransactionHashes(sha: Hash, encode: Encoding, transactions: seq<Transaction>): (r: seq<Digest>)
    ensures |r| == |transactions|
    ensures forall i :: 0 <= i < |r| ==> r[i] == sha(encode(transactions[i]))
  {
    seq<Digest>(|transactions|, i requires 0 <= i < |transactions| => sha(encode(transactions[i])))
  }

  function BlockRoot(sha: Hash, encode: Encoding, transactions: seq<Transaction>): Digest {
    if transactions == [] then sha([]) else RootOf(sha, NO_TAG, TransactionHashes(sha, encode, transactions))
  }

  /** The level loop: pads an odd level with its last node, then hashes pair by pair. */
  method CalculateMerkleRoot(sha: Hash, encode: Encoding, transactions: seq<Transaction>) returns (root: Digest)
    ensures root == BlockRoot(sha, encode, transactions)
  {
    if transactions == [] {
      return sha([]);
    }
    var level: seq<Digest> := TransactionHashes(sha, encode, transactions);
    while |level| > 1
      invariant |level| > 0 && RootOf(sha, NO_TAG, level) == BlockRoot(sha, encode, transactions)
      decreases |level|
    {
      level := HashPairs(sha, level);
    }
    return level[0];
  }

  /** One round of the level loop. */
  method HashPairs(sha: Hash, level: seq<Digest>) returns (next: seq<Digest>)
    requires |level| > 1
    ensures next == NextLevel(sha, NO_TAG, level)
  {
    var padded := if |level| % 2 == 1 then level + [level[|level| - 1]] else level;
    next := [];
    var i := 0;
    while i < |padded|
      invariant 0 <= i <= |padded| && i % 2 == 0
      invariant next == NextLevel(sha, NO_TAG, level)[..i / 2]
    {
      var combined: Bytes := [];
      combined := combined + padded[i];
      combined := combined + padded[i + 1];
      var m := i / 2;
      assert combined == PairPayload(NO_TAG, level, m);
      next := next + [sha(combined)];
      i := i + 2;
    }
  }

  /** The payloads hashed when the block root is computed from the transaction hashes. */
  ghost function BlockPayloads(sha: Hash, encode: Encoding, transactions: seq<Transaction>): set<Bytes> {
    if transactions == [] then {[]}
    else TreePayloads(sha, NO_TAG, TransactionHashes(sha, encode, transactions))
  }

  /** Two blocks of equally many transactions have one root exactly when their transaction hashes agree
      position by position: no reordering or replacement that changes a hash keeps the root. */
  lemma BlockRootBinds(sha: Hash, encode: Encoding, a: seq<Transaction>, b: seq<Transaction>)
    requires |a| == |b|
    requires CollisionFree(sha, BlockPayloads(sha, encode, a) + BlockPayloads(sha, encode, b))
    ensures BlockRoot(sha, encode, a) == BlockRoot(sha, encode, b)
            <==> forall i :: 0 <= i < |a| ==> sha(encode(a[i])) == sha(encode(b[i]))
  {
    var ha, hb := TransactionHashes(sha, encode, a), TransactionHashes(sha, encode, b);
    if a != [] {
      RootBinds(sha, NO_TAG, ha, hb);
      assert ha == hb <==> forall i :: 0 <= i < |a| ==> ha[i] == hb[i];
    }
  }

  /** With distinct encodings for distinct transactions, the root determines the block's transactions among
      all lists of that length. */
  lemma BlockRootDetermines(sha: Hash, encode: Encoding, a: seq<Transaction>, b: seq<Transaction>)
    requires |a| == |b|
    requires forall t, u :: t in a && u in b && encode(t) == encode(u) ==> t == u
    requires CollisionFree(sha, BlockPayloads(sha, encode, a) + BlockPayloads(sha, encode, b)
                                + (set t | t in a :: encode(t)) + set t | t in b :: encode(t))
    ensures BlockRoot(sha, encode, a) == BlockRoot(sha, encode, b) <==> a == b
  {
    BlockRootBinds(sha, encode, a, b);
    if BlockRoot(sha, encode, a) == BlockRoot(sha, encode, b) {
      forall i | 0 <= i < |a| ensures a[i] == b[i] {
        assert sha(encode(a[i])) == sha(encode(b[i]));
        assert a[i] in a && b[i] in b;
      }
    }
  }

  /** Blocks of different lengths can share a root: repeating the last transaction of an odd list does not
      change it. */
  lemma RepeatedLastTransactionKeepsRoot(sha: Hash, encode: Encoding, transactions: seq<Transaction>)
    requires |transactions| > 1 && |transactions| % 2 == 1
    ensures BlockRoot(sha, encode, transactions + [transactions[|transactions| - 1]])
            == BlockRoot(sha, encode, transactions)
  {
    hide RootOf;
    var more := transactions + [transactions[|transactions| - 1]];
    var a: Level, b: Level := TransactionHashes(sha, encode, transactions), TransactionHashes(sha, encode, more);
    assert b == a + [a[|a| - 1]];
    RepeatedLastKeepsRoot(sha, NO_TAG, a, b);
  }

  ghost function Encodings(encode: Encoding, transactions: seq<Transaction>): set<Bytes> {
    set t | t in transactions :: encode(t)
  }

  /** The payloads hashed for a block: its transactions, and the pairs above them. */
  ghost function AllPayloads(sha: Hash, encode: Encoding, transactions: seq<Transaction>): set<Bytes> {
    BlockPayloads(sha, encode, transactions) + Encodings(encode, transactions)
  }

  /** Neither empty nor as long as a pair of digests, so that no transaction hashes like an empty block or,
      pairs carrying no tag, like a pair. */
  ghost predicate PlainEncodings(encode: Encoding, transactions: seq<Transaction>) {
    forall t :: t in transactions ==> |encode(t)| != 0 && |encode(t)| != 64
  }

  /** The exact condition, for any two blocks of such transactions with distinct encodings: equal roots if and
      only if the lists are completed alike. */
  lemma BlockRootsEqualIffSameCompletion(sha: Hash, encode: Encoding, a: seq<Transaction>, b: seq<Transaction>)
    requires forall t, u :: t in a && u in b && encode(t) == encode(u) ==> t == u
    requires PlainEncodings(encode, a) && PlainEncodings(encode, b)
    requires CollisionFree(sha, AllPayloads(sha, encode, a) + AllPayloads(sha, encode, b))
    ensures BlockRoot(sha, encode, a) == BlockRoot(sha, encode, b) <==> Completion(a) == Completion(b)
  {
    hide Shown, Height, Completion, TreePayloads, RootOf, CollisionFree, PlainEncodings;
    var payloads := AllPayloads(sha, encode, a) + AllPayloads(sha, encode, b);
    Power2Positive(Height(|a|));
    Power2Positive(Height(|b|));
    if a == [] && b != [] {
      EmptyBlockIsAlone(sha, encode, b, payloads);
    } else if a != [] && b == [] {
      EmptyBlockIsAlone(sha, encode, a, payloads);
    } else if a != [] && b != [] {
      var ha: Level, hb: Level := TransactionHashes(sha, encode, a), TransactionHashes(sha, encode, b);
      FewerPayloads(sha, TreePayloads(sha, NO_TAG, ha) + TreePayloads(sha, NO_TAG, hb), payloads);
      TransactionsApart(sha, encode, a, b, payloads);
      TransactionsApart(sha, encode, b, a, payloads);
      RootsEqualIffSameCompletion(sha, NO_TAG, ha, hb);
      forall i, j | 0 <= i < |a| && 0 <= j < |b| ensures ha[i] == hb[j] <==> a[i] == b[j] {
        assert a[i] in a && b[j] in b;
        SameHash(sha, payloads, encode(a[i]), encode(b[j]));
      }
      CompletionThroughMap(a, b, ha, hb);
    }
  }

  lemma SameHash(sha: Hash, payloads: set<Bytes>, x: Bytes, y: Bytes)
    requires CollisionFree(sha, payloads) && x in payloads && y in payloads
    ensures sha(x) == sha(y) <==> x == y
  {
  }

  lemma TransactionsApart(sha: Hash, encode: Encoding, a: seq<Transaction>, b: seq<Transaction>, payloads: set<Bytes>)
    requires a != [] && b != [] && CollisionFree(sha, payloads) && PlainEncodings(encode, a)
    requires AllPayloads(sha, encode, a) <= payloads && AllPayloads(sha, encode, b) <= payloads
    ensures LeavesApart(sha, TransactionHashes(sha, encode, a),
                        TreePayloads(sha, NO_TAG, TransactionHashes(sha, encode, b)))
  {
    hide TreePayloads, CollisionFree;
    var ha, hb := TransactionHashes(sha, encode, a), TransactionHashes(sha, encode, b);
    forall d, x | d in ha && x in TreePayloads(sha, NO_TAG, hb) ensures sha(x) != d {
      var i :| 0 <= i < |ha| && ha[i] == d;
      assert a[i] in a;
      PayloadLength(sha, NO_TAG, hb, x);
      SameHash(sha, payloads, encode(a[i]), x);
    }
  }

  lemma EmptyBlockIsAlone(sha: Hash, encode: Encoding, b: seq<Transaction>, payloads: set<Bytes>)
    requires b != [] && CollisionFree(sha, payloads) && PlainEncodings(encode, b)
    requires AllPayloads(sha, encode, []) <= payloads && AllPayloads(sha, encode, b) <= payloads
    ensures BlockRoot(sha, encode, b) != BlockRoot(sha, encode, [])
  {
    hide TreePayloads, CollisionFree, RootOf;
    var hb: Level := TransactionHashes(sha, encode, b);
    TopOfTree(sha, NO_TAG, hb, 0);
    assert b[0] in b && [] in payloads;
    var x := encode(b[0]);
    if Height(|b|) > 0 {
      x := TreeNode(sha, NO_TAG, hb, Height(|b|), 0);
    }
    SameHash(sha, payloads, x, []);
  }
}
