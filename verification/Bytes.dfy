/** Bytes, 32-byte digests, the hash function as a parameter, and Rust's ordering of byte vectors. */
module Bytes {

  type Byte = bv8

  type Bytes = seq<Byte>

  const TWO_64: int := 0x1_0000_0000_0000_0000
  const TWO_128: int := 0x1_0000_0000_0000_0000_0000_0000_0000_0000

  type U64 = x: int | 0 <= x < TWO_64

  const ZEROS_32: Bytes := [
    0, 0, 0, 0, 0, 0, 0, 0, 0, 0, 0, 0, 0, 0, 0, 0,
    0, 0, 0, 0, 0, 0, 0, 0, 0, 0, 0, 0, 0, 0, 0, 0]

  type Digest = d: Bytes | |d| == 32 witness ZEROS_32

  /** The bytes are the ASCII codes of `text`. */
  ghost predicate Spells(bytes: Bytes, text: string) {
    |bytes| == |text| && forall i :: 0 <= i < |text| ==> bytes[i] as int == text[i] as int
  }

  lemma SpellsBoth(a: Bytes, s: string, b: Bytes, t: string)
    requires Spells(a, s) && Spells(b, t)
    ensures Spells(a + b, s + t)
  {
  }

  /** SHA-256 is a parameter of every function that hashes. Nothing is assumed of it but the length of
      its results; a theorem that needs collision resistance names the payloads that must not collide. */
  type Hash = Bytes -> Digest

  /** The payloads in `payloads` are hashed to pairwise different digests. */
  ghost predicate CollisionFree(sha: Hash, payloads: set<Bytes>) {
    forall x, y {:trigger sha(x), sha(y)} :: x in payloads && y in payloads && sha(x) == sha(y) ==> x == y
  }

  lemma FewerPayloads(sha: Hash, fewer: set<Bytes>, payloads: set<Bytes>)
    requires CollisionFree(sha, payloads) && fewer <= payloads
    ensures CollisionFree(sha, fewer)
  {
  }

  /** `Ord` on byte vectors: lexicographic. */
  predicate LexLe(a: Bytes, b: Bytes) {
    a == [] || (b != [] && (a[0] < b[0] || (a[0] == b[0] && LexLe(a[1..], b[1..]))))
  }

  /** The order spelled out: a prefix comes first, and otherwise the first different byte decides. */
  lemma {:induction false} LexExact(a: Bytes, b: Bytes)
    ensures LexLe(a, b) <==> a <= b || exists i: nat :: FirstDifference(a, b, i) && a[i] < b[i]
  {
    if a != [] && b != [] && a[0] == b[0] {
      LexExact(a[1..], b[1..]);
      assert a == [a[0]] + a[1..] && b == [b[0]] + b[1..];
      assert a <= b <==> a[1..] <= b[1..];
      if i: nat :| FirstDifference(a[1..], b[1..], i) && a[1..][i] < b[1..][i] {
        DifferenceCons(a, b, i);
      }
      if i: nat :| FirstDifference(a, b, i) && a[i] < b[i] {
        DifferenceCons(a, b, i - 1);
      }
    } else if a != [] && b != [] {
      assert a[..0] == b[..0] == [];
      assert FirstDifference(a, b, 0);
      if i: nat :| FirstDifference(a, b, i) && a[i] < b[i] {
        DifferenceAtHead(a, b, i);
      }
    }
  }

  lemma DifferenceCons(a: Bytes, b: Bytes, i: nat)
    requires a != [] && b != [] && a[0] == b[0] && i < |a| - 1 && i < |b| - 1
    ensures FirstDifference(a[1..], b[1..], i) <==> FirstDifference(a, b, i + 1)
  {
    assert a[..i + 1] == [a[0]] + a[1..][..i] && b[..i + 1] == [b[0]] + b[1..][..i];
    assert a[..i + 1][1..] == a[1..][..i] && b[..i + 1][1..] == b[1..][..i];
  }

  lemma DifferenceAtHead(a: Bytes, b: Bytes, i: nat)
    requires FirstDifference(a, b, i)
    ensures a[0] == b[0] || i == 0
  {
    if i > 0 {
      assert a[..i][0] == b[..i][0];
    }
  }

  ghost predicate FirstDifference(a: Bytes, b: Bytes, i: nat) {
    i < |a| && i < |b| && a[..i] == b[..i] && a[i] != b[i]
  }

  lemma {:induction false} LexTotal(a: Bytes, b: Bytes)
    ensures LexLe(a, b) || LexLe(b, a)
  {
    if a != [] && b != [] && a[0] == b[0] {
      LexTotal(a[1..], b[1..]);
    }
  }

  lemma {:induction false} LexTransitive(a: Bytes, b: Bytes, c: Bytes)
    requires LexLe(a, b) && LexLe(b, c)
    ensures LexLe(a, c)
  {
    if a != [] && a[0] == b[0] && b[0] == c[0] {
      LexTransitive(a[1..], b[1..], c[1..]);
    }
  }

  lemma {:induction false} LexAntisymmetric(a: Bytes, b: Bytes)
    requires LexLe(a, b) && LexLe(b, a)
    ensures a == b
  {
    if a != [] {
      LexAntisymmetric(a[1..], b[1..]);
      assert a == [a[0]] + a[1..] && b == [b[0]] + b[1..];
    }
  }

  lemma {:induction false} LexPrefix(p: Bytes, a: Bytes, b: Bytes)
    ensures LexLe(p + a, p + b) == LexLe(a, b)
  {
    if p == [] {
      assert p + a == a && p + b == b;
    } else {
      assert (p + a)[1..] == p[1..] + a && (p + b)[1..] == p[1..] + b;
      LexPrefix(p[1..], a, b);
    }
  }

  /** The laws of the byte order, for every choice of arguments. */
  lemma LexLaws()
    ensures forall a, b :: LexLe(a, b) || LexLe(b, a)
    ensures forall a, b, c :: LexLe(a, b) && LexLe(b, c) ==> LexLe(a, c)
    ensures forall a, b :: LexLe(a, b) && LexLe(b, a) ==> a == b
  {
    forall a, b ensures LexLe(a, b) || LexLe(b, a) { LexTotal(a, b); }
    forall a, b, c | LexLe(a, b) && LexLe(b, c) ensures LexLe(a, c) { LexTransitive(a, b, c); }
    forall a, b | LexLe(a, b) && LexLe(b, a) ensures a == b { LexAntisymmetric(a, b); }
  }
}
