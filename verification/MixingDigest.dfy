/** The 64-bit mixing digest of src/sharding/mod.rs: splitmix64, the absorb loop, the four output lanes
    and the committee score. Words are `bv64`, whose `+` and `*` are Rust's wrapping operations. */
module MixingDigest {
  import opened Bytes
  import opened ByteOrder
  import opened Types

  const GOLDEN: bv64 := 0x9E37_79B9_7F4A_7C15

  /** The word with these eight bytes, the lowest first. */
  function WordFrom(b0: Byte, b1: Byte, b2: Byte, b3: Byte, b4: Byte, b5: Byte, b6: Byte, b7: Byte): bv64 {
    (b0 as bv64) | ((b1 as bv64) << 8) | ((b2 as bv64) << 16) | ((b3 as bv64) << 24)
    | ((b4 as bv64) << 32) | ((b5 as bv64) << 40) | ((b6 as bv64) << 48) | ((b7 as bv64) << 56)
  }

  lemma WordFromInjective(a0: Byte, a1: Byte, a2: Byte, a3: Byte, a4: Byte, a5: Byte, a6: Byte, a7: Byte,
                          b0: Byte, b1: Byte, b2: Byte, b3: Byte, b4: Byte, b5: Byte, b6: Byte, b7: Byte)
    requires WordFrom(a0, a1, a2, a3, a4, a5, a6, a7) == WordFrom(b0, b1, b2, b3, b4, b5, b6, b7)
    ensures a0 == b0 && a1 == b1 && a2 == b2 && a3 == b3 && a4 == b4 && a5 == b5 && a6 == b6 && a7 == b7
  {
  }

  function WordOf(b: Bytes): bv64
    requires |b| == 8
  {
    WordFrom(b[0], b[1], b[2], b[3], b[4], b[5], b[6], b[7])
  }

  /** `n as u64`: the eight low bytes of `n`. */
  function Word(n: nat): bv64 {
    WordOf(LittleEndian(n, 8))
  }

  /** Below 2^64 the cast loses nothing. */
  lemma WordInjective(m: U64, n: U64)
    requires Word(m) == Word(n)
    ensures m == n
  {
    hide WordFrom, LittleEndian;
    var x, y := LittleEndian(m, 8), LittleEndian(n, 8);
    WordFromInjective(x[0], x[1], x[2], x[3], x[4], x[5], x[6], x[7],
                      y[0], y[1], y[2], y[3], y[4], y[5], y[6], y[7]);
    assert x == y;
    LittleEndianInjective(m, n);
  }

  function Mix1(x: bv64): bv64 { x * 0xBF58_476D_1CE4_E5B9 }

  function Mix2(x: bv64): bv64 { x * 0x94D0_49BB_1331_11EB }

  // The multipliers' inverses modulo 2^64.
  function Unmix1(x: bv64): bv64 { x * 0x96DE_1B17_3F11_9089 }

  function Unmix2(x: bv64): bv64 { x * 0x3196_42B2_D24D_8EC3 }

  // The xor-shifts and their inverses.
  function Fold30(x: bv64): bv64 { x ^ (x >> 30) }

  function Unfold30(y: bv64): bv64 { y ^ (y >> 30) ^ (y >> 60) }

  function Fold27(x: bv64): bv64 { x ^ (x >> 27) }

  function Unfold27(y: bv64): bv64 { y ^ (y >> 27) ^ (y >> 54) }

  function Fold31(x: bv64): bv64 { x ^ (x >> 31) }

  function Unfold31(y: bv64): bv64 { y ^ (y >> 31) ^ (y >> 62) }

  function AddGolden(x: bv64): bv64 { x + GOLDEN }

  function SubGolden(x: bv64): bv64 { x - GOLDEN }

  function Xor(a: bv64, b: bv64): bv64 { a ^ b }

  function SplitMix64(v: bv64): bv64 {
    Fold31(Mix2(Fold27(Mix1(Fold30(AddGolden(v))))))
  }

  /** The rounds of `SplitMix64` undone in reverse order. */
  function Unmix64(w: bv64): bv64 {
    SubGolden(Unfold30(Unmix1(Unfold27(Unmix2(Unfold31(w))))))
  }

  lemma FoldBodies(x: bv64)
    ensures Fold30(x) == x ^ (x >> 30) && Unfold30(x) == x ^ (x >> 30) ^ (x >> 60)
    ensures Fold27(x) == x ^ (x >> 27) && Unfold27(x) == x ^ (x >> 27) ^ (x >> 54)
    ensures Fold31(x) == x ^ (x >> 31) && Unfold31(x) == x ^ (x >> 31) ^ (x >> 62)
  {
  }

  lemma ShiftXor30(x: bv64)
    ensures Unfold30(x ^ (x >> 30)) == x
    ensures Fold30(x ^ (x >> 30) ^ (x >> 60)) == x
  {
  }

  lemma Folds30(x: bv64)
    ensures Unfold30(Fold30(x)) == x && Fold30(Unfold30(x)) == x
  {
    hide Fold30, Unfold30;
    ShiftXor30(x);
    FoldBodies(x);
  }

  lemma ShiftXor27(x: bv64)
    ensures Unfold27(x ^ (x >> 27)) == x
    ensures Fold27(x ^ (x >> 27) ^ (x >> 54)) == x
  {
  }

  lemma Folds27(x: bv64)
    ensures Unfold27(Fold27(x)) == x && Fold27(Unfold27(x)) == x
  {
    hide Fold27, Unfold27;
    ShiftXor27(x);
    FoldBodies(x);
  }

  lemma ShiftXor31(x: bv64)
    ensures Unfold31(x ^ (x >> 31)) == x
    ensures Fold31(x ^ (x >> 31) ^ (x >> 62)) == x
  {
  }

  lemma Folds31(x: bv64)
    ensures Unfold31(Fold31(x)) == x && Fold31(Unfold31(x)) == x
  {
    hide Fold31, Unfold31;
    ShiftXor31(x);
    FoldBodies(x);
  }

  lemma Goldens(x: bv64)
    ensures SubGolden(AddGolden(x)) == x && AddGolden(SubGolden(x)) == x
  {
  }

  // The two lemmas below multiply literals, which the solver folds; the ones after them only rewrite.
  lemma MultiplyOut(x: bv64)
    ensures Mix1(x * 0x96DE_1B17_3F11_9089) == x
    ensures Unmix1(x * 0xBF58_476D_1CE4_E5B9) == x
    ensures Mix2(x * 0x3196_42B2_D24D_8EC3) == x
    ensures Unmix2(x * 0x94D0_49BB_1331_11EB) == x
  {
  }

  lemma MultiplierBodies(x: bv64)
    ensures Unmix1(x) == x * 0x96DE_1B17_3F11_9089
    ensures Mix1(x) == x * 0xBF58_476D_1CE4_E5B9
    ensures Unmix2(x) == x * 0x3196_42B2_D24D_8EC3
    ensures Mix2(x) == x * 0x94D0_49BB_1331_11EB
  {
  }

  lemma Multipliers(x: bv64)
    ensures Unmix1(Mix1(x)) == x && Mix1(Unmix1(x)) == x
    ensures Unmix2(Mix2(x)) == x && Mix2(Unmix2(x)) == x
  {
    hide Mix1, Mix2, Unmix1, Unmix2;
    MultiplyOut(x);
    MultiplierBodies(x);
  }

  /** `SplitMix64` is a bijection on 64-bit words: `Unmix64` is its two-sided inverse. */
  lemma SplitMix64Bijective(x: bv64)
    ensures Unmix64(SplitMix64(x)) == x
    ensures SplitMix64(Unmix64(x)) == x
  {
    hide Mix1, Mix2, Unmix1, Unmix2, AddGolden, SubGolden;
    hide Fold30, Fold27, Fold31, Unfold30, Unfold27, Unfold31;
    var a := AddGolden(x);
    var b := Mix1(Fold30(a));
    Folds31(Mix2(Fold27(b)));
    Multipliers(Fold27(b));
    Folds27(b);
    Multipliers(Fold30(a));
    Folds30(a);
    Goldens(x);
    var c := Unfold31(x);
    var d := Unfold27(Unmix2(c));
    Goldens(Unfold30(Unmix1(d)));
    Folds30(Unmix1(d));
    Multipliers(d);
    Folds27(Unmix2(c));
    Multipliers(c);
    Folds31(x);
  }

  lemma SplitMix64Injective(x: bv64, y: bv64)
    requires SplitMix64(x) == SplitMix64(y)
    ensures x == y
  {
    hide SplitMix64, Unmix64;
    SplitMix64Bijective(x);
    SplitMix64Bijective(y);
  }

  /** `(n as u64).wrapping_mul(0x9E37_79B9_7F4A_7C15)`. */
  function Stride(n: nat): bv64 {
    Word(n) * GOLDEN
  }

  function Plus(byte: Byte, w: bv64): bv64 { (byte as bv64) + w }

  /** What the absorb loop xors into the state for `byte` at `index`. */
  function Block(index: nat, byte: Byte): bv64 {
    Plus(byte, Stride(index + 1))
  }

  /** One round of the absorb loop. */
  function Step(state: bv64, index: nat, byte: Byte): bv64 {
    SplitMix64(Xor(state, Block(index, byte)))
  }

  /** The state after absorbing `payload` byte by byte. */
  function Absorbed(state: bv64, payload: Bytes): bv64 {
    if payload == [] then state
    else
      var n := |payload| - 1;
      Step(Absorbed(state, payload[..n]), n, payload[n])
  }

  lemma XorInjective(a: bv64, b: bv64, k: bv64)
    requires Xor(a, k) == Xor(b, k)
    ensures a == b
  {
  }

  lemma StepInjectiveInState(s: bv64, t: bv64, index: nat, byte: Byte)
    requires Step(s, index, byte) == Step(t, index, byte)
    ensures s == t
  {
    hide SplitMix64, Block, Xor;
    SplitMix64Injective(Xor(s, Block(index, byte)), Xor(t, Block(index, byte)));
    XorInjective(s, t, Block(index, byte));
  }

  lemma AddByteInjective(s: bv64, x: Byte, y: Byte, k: bv64)
    requires Xor(s, Plus(x, k)) == Xor(s, Plus(y, k))
    ensures x == y
  {
  }

  lemma StepInjectiveInByte(s: bv64, x: Byte, y: Byte, index: nat)
    requires Step(s, index, x) == Step(s, index, y)
    ensures x == y
  {
    hide SplitMix64, Stride, Xor, Plus;
    SplitMix64Injective(Xor(s, Block(index, x)), Xor(s, Block(index, y)));
    AddByteInjective(s, x, y, Stride(index + 1));
  }

  /** Absorbing one payload keeps different states different. */
  lemma {:induction false} AbsorbedInjectiveInState(s: bv64, t: bv64, payload: Bytes)
    requires Absorbed(s, payload) == Absorbed(t, payload)
    ensures s == t
  {
    hide Step;
    if payload != [] {
      var n := |payload| - 1;
      StepInjectiveInState(Absorbed(s, payload[..n]), Absorbed(t, payload[..n]), n, payload[n]);
      AbsorbedInjectiveInState(s, t, payload[..n]);
    }
  }

  /** `p` and `q` have the same length and differ at index `i` and nowhere else. */
  ghost predicate OneByteApart(p: Bytes, q: Bytes, i: nat) {
    i < |p| == |q| && p[i] != q[i] && forall j :: 0 <= j < |p| && j != i ==> p[j] == q[j]
  }

  lemma {:induction false} AbsorbedSeparates(s: bv64, p: Bytes, q: Bytes, i: nat)
    requires OneByteApart(p, q, i)
    ensures Absorbed(s, p) != Absorbed(s, q)
  {
    hide Step;
    if Absorbed(s, p) == Absorbed(s, q) {
      var n := |p| - 1;
      var u, v := Absorbed(s, p[..n]), Absorbed(s, q[..n]);
      if i == n {
        assert p[..n] == q[..n];
        StepInjectiveInByte(u, p[n], q[n], n);
      } else {
        StepInjectiveInState(u, v, n, p[n]);
        AbsorbedSeparates(s, p[..n], q[..n], i);
      }
    }
  }

  /** `to_be_bytes` of a 64-bit word. */
  function BigEndian64(w: bv64): (r: Bytes)
    ensures |r| == 8
  {
    [ ((w >> 56) & 0xFF) as bv8, ((w >> 48) & 0xFF) as bv8, ((w >> 40) & 0xFF) as bv8,
      ((w >> 32) & 0xFF) as bv8, ((w >> 24) & 0xFF) as bv8, ((w >> 16) & 0xFF) as bv8,
      ((w >> 8) & 0xFF) as bv8, (w & 0xFF) as bv8 ]
  }

  lemma BigEndian64Injective(a: bv64, b: bv64)
    requires BigEndian64(a) == BigEndian64(b)
    ensures a == b
  {
    var x, y := BigEndian64(a), BigEndian64(b);
    assert x[0] == y[0] && x[1] == y[1] && x[2] == y[2] && x[3] == y[3];
    assert x[4] == y[4] && x[5] == y[5] && x[6] == y[6] && x[7] == y[7];
    WordFromBytes(a, b);
  }

  /** The unsigned value of a word, by its bytes. */
  function ValueOf(w: bv64): nat {
    BigEndianNat(BigEndian64(w))
  }

  lemma ValueInjective(a: bv64, b: bv64)
    requires ValueOf(a) == ValueOf(b)
    ensures a == b
  {
    hide BigEndian64, BigEndianNat;
    BigEndianNatInjective(BigEndian64(a), BigEndian64(b));
    BigEndian64Injective(a, b);
  }

  lemma WordFromBytes(a: bv64, b: bv64)
    requires ((a >> 56) & 0xFF) as bv8 == ((b >> 56) & 0xFF) as bv8
    requires ((a >> 48) & 0xFF) as bv8 == ((b >> 48) & 0xFF) as bv8
    requires ((a >> 40) & 0xFF) as bv8 == ((b >> 40) & 0xFF) as bv8
    requires ((a >> 32) & 0xFF) as bv8 == ((b >> 32) & 0xFF) as bv8
    requires ((a >> 24) & 0xFF) as bv8 == ((b >> 24) & 0xFF) as bv8
    requires ((a >> 16) & 0xFF) as bv8 == ((b >> 16) & 0xFF) as bv8
    requires ((a >> 8) & 0xFF) as bv8 == ((b >> 8) & 0xFF) as bv8
    requires (a & 0xFF) as bv8 == (b & 0xFF) as bv8
    ensures a == b
  {
  }

  /** One 8-byte output lane. */
  function Lane(state: bv64, lane: nat): (r: Bytes)
    ensures |r| == 8
  {
    BigEndian64(SplitMix64(Xor(state, Word(lane))))
  }

  lemma LaneInjective(s: bv64, t: bv64, lane: nat)
    requires Lane(s, lane) == Lane(t, lane)
    ensures s == t
  {
    hide SplitMix64, BigEndian64, Word, Xor;
    BigEndian64Injective(SplitMix64(Xor(s, Word(lane))), SplitMix64(Xor(t, Word(lane))));
    SplitMix64Injective(Xor(s, Word(lane)), Xor(t, Word(lane)));
    XorInjective(s, t, Word(lane));
  }

  /** The first `count` output lanes. */
  function Lanes(state: bv64, count: nat): (r: Bytes)
    ensures |r| == 8 * count
  {
    if count == 0 then [] else Lanes(state, count - 1) + Lane(state, count - 1)
  }

  lemma {:induction false} LanesDiffer(s: bv64, t: bv64, count: nat, lane: nat)
    requires s != t && lane < count
    ensures Lanes(s, count)[8 * lane..8 * lane + 8] != Lanes(t, count)[8 * lane..8 * lane + 8]
  {
    hide Lane;
    var x, y := Lanes(s, count), Lanes(t, count);
    if lane == count - 1 {
      assert x[8 * lane..8 * lane + 8] == Lane(s, lane);
      assert y[8 * lane..8 * lane + 8] == Lane(t, lane);
      if Lane(s, lane) == Lane(t, lane) {
        LaneInjective(s, t, lane);
      }
    } else {
      LanesDiffer(s, t, count - 1, lane);
      assert x[8 * lane..8 * lane + 8] == Lanes(s, count - 1)[8 * lane..8 * lane + 8];
      assert y[8 * lane..8 * lane + 8] == Lanes(t, count - 1)[8 * lane..8 * lane + 8];
    }
  }

  function InitialState(seed: bv64, length: nat): bv64 {
    Xor(seed, Stride(length))
  }

  /** The digest as a function; `DeterministicDigest` computes it with the program's loops. */
  function DigestOf(payload: Bytes, seed: bv64): (r: Bytes)
    ensures |r| == RECEIPT_PROOF_LENGTH
  {
    Lanes(Absorbed(InitialState(seed, |payload|), payload), RECEIPT_PROOF_LENGTH / 8)
  }

  method DeterministicDigest(payload: Bytes, seed: bv64) returns (digest: Bytes)
    ensures digest == DigestOf(payload, seed)
  {
    hide SplitMix64, BigEndian64, Stride, Word, Xor, Plus;
    var state := Xor(seed, Stride(|payload|));
    for index := 0 to |payload|
      invariant state == Absorbed(InitialState(seed, |payload|), payload[..index])
    {
      assert payload[..index + 1][..index] == payload[..index];
      state := Xor(state, Plus(payload[index], Stride(index + 1)));
      state := SplitMix64(state);
    }
    assert payload[..|payload|] == payload;
    digest := [];
    for lane := 0 to RECEIPT_PROOF_LENGTH / 8
      invariant digest == Lanes(state, lane)
    {
      digest := digest + BigEndian64(SplitMix64(Xor(state, Word(lane))));
    }
  }

  /** No hash assumption: payloads that differ in exactly one byte have digests that differ in every one
      of the four 8-byte lanes, whatever the seed. */
  lemma DigestSeparatesOneByte(p: Bytes, q: Bytes, i: nat, seed: bv64, lane: nat)
    requires OneByteApart(p, q, i) && lane < RECEIPT_PROOF_LENGTH / 8
    ensures DigestOf(p, seed)[8 * lane..8 * lane + 8] != DigestOf(q, seed)[8 * lane..8 * lane + 8]
    ensures DigestOf(p, seed) != DigestOf(q, seed)
  {
    hide Xor, SplitMix64, InitialState;
    var s := InitialState(seed, |p|);
    AbsorbedSeparates(s, p, q, i);
    LanesDiffer(Absorbed(s, p), Absorbed(s, q), RECEIPT_PROOF_LENGTH / 8, lane);
  }

  /** One payload under two different seeds never gives one digest. */
  lemma DigestSeparatesSeeds(p: Bytes, seed: bv64, seed': bv64)
    requires seed != seed'
    ensures DigestOf(p, seed) != DigestOf(p, seed')
  {
    hide SplitMix64, Stride, Xor, Plus;
    var k := Stride(|p|);
    if Xor(seed, k) == Xor(seed', k) {
      XorInjective(seed, seed', k);
    }
    if Absorbed(Xor(seed, k), p) == Absorbed(Xor(seed', k), p) {
      AbsorbedInjectiveInState(Xor(seed, k), Xor(seed', k), p);
    }
    LanesDiffer(Absorbed(Xor(seed, k), p), Absorbed(Xor(seed', k), p), RECEIPT_PROOF_LENGTH / 8, 0);
  }

  /** The score that orders validators when committees are formed. */
  function ScoreOf(epoch: bv64, address: Bytes): bv64 {
    SplitMix64(Absorbed(Xor(epoch, GOLDEN), address))
  }

  method AssignmentScore(epoch: bv64, address: Bytes) returns (score: bv64)
    ensures score == ScoreOf(epoch, address)
  {
    hide SplitMix64, Stride, Xor, Plus;
    var state := Xor(epoch, GOLDEN);
    for index := 0 to |address|
      invariant state == Absorbed(Xor(epoch, GOLDEN), address[..index])
    {
      assert address[..index + 1][..index] == address[..index];
      state := Xor(state, Plus(address[index], Stride(index + 1)));
      state := SplitMix64(state);
    }
    assert address[..|address|] == address;
    score := SplitMix64(state);
  }

  /** One address scores differently in any two different epochs. */
  lemma ScoreSeparatesEpochs(e: bv64, f: bv64, address: Bytes)
    requires e != f
    ensures ScoreOf(e, address) != ScoreOf(f, address)
  {
    hide Xor, SplitMix64;
    if ScoreOf(e, address) == ScoreOf(f, address) {
      SplitMix64Injective(Absorbed(Xor(e, GOLDEN), address), Absorbed(Xor(f, GOLDEN), address));
      AbsorbedInjectiveInState(Xor(e, GOLDEN), Xor(f, GOLDEN), address);
      XorInjective(e, f, GOLDEN);
    }
  }

  /** In one epoch, addresses that differ in exactly one byte never tie. */
  lemma ScoreSeparatesAddresses(epoch: bv64, a: Bytes, b: Bytes, i: nat)
    requires OneByteApart(a, b, i)
    ensures ScoreOf(epoch, a) != ScoreOf(epoch, b)
  {
    hide Xor, SplitMix64;
    AbsorbedSeparates(Xor(epoch, GOLDEN), a, b, i);
    if ScoreOf(epoch, a) == ScoreOf(epoch, b) {
      SplitMix64Injective(Absorbed(Xor(epoch, GOLDEN), a), Absorbed(Xor(epoch, GOLDEN), b));
    }
  }

  // ----- Known values -----

  lemma SmallWords()
    ensures Word(0) == 0 && Word(1) == 1 && Word(2) == 2 && Word(3) == 3
  {
    hide Word;
    SmallWord(0);
    SmallWord(1);
    SmallWord(2);
    SmallWord(3);
  }

  lemma SmallWord(n: nat)
    requires n < 256
    ensures Word(n) == ByteOf(n) as bv64
  {
    hide WordFrom, LittleEndian, ByteOf;
    SmallBytes(n);
    LowByte(ByteOf(n));
  }

  lemma LowByte(b: Byte)
    ensures WordFrom(b, 0, 0, 0, 0, 0, 0, 0) == b as bv64
  {
  }

  lemma SmallBytes(n: nat)
    requires n < 256
    ensures LittleEndian(n, 8) == [ByteOf(n), 0, 0, 0, 0, 0, 0, 0]
  {
    hide ByteOf, LittleEndian;
    NoHighBytes(7);
    LowestFirst(n, 8);
    var zeros := LittleEndian(0, 7);
    assert zeros == [0, 0, 0, 0, 0, 0, 0];
  }

  lemma {:induction false} NoHighBytes(width: nat)
    ensures |LittleEndian(0, width)| == width
    ensures forall i :: 0 <= i < width ==> LittleEndian(0, width)[i] == 0
  {
    if width > 0 {
      NoHighBytes(width - 1);
    }
  }

  /** The published first outputs of splitmix64 for the seeds 0 and 1. */
  lemma SplitMix64Values()
    ensures SplitMix64(0) == 0xE220_A839_7B1D_CDAF && SplitMix64(1) == 0x910A_2DEC_8902_5CC1
  {
  }

  lemma SmallStrides()
    ensures Stride(1) == GOLDEN && Stride(2) == 2 * GOLDEN
  {
    hide Word;
    SmallWords();
  }

  lemma AbsorbOneTwo(s: bv64)
    ensures Absorbed(s, [1, 2]) == SplitMix64(Xor(SplitMix64(Xor(s, Plus(1, GOLDEN))), Plus(2, 2 * GOLDEN)))
  {
    hide SplitMix64, Stride, Xor, Plus;
    SmallStrides();
    assert [1 as Byte, 2][..1] == [1] && [1 as Byte][..0] == [];
    assert Absorbed(s, []) == s;
    assert Absorbed(s, [1]) == Step(s, 0, 1);
    assert Absorbed(s, [1, 2]) == Step(Absorbed(s, [1]), 1, 2);
  }

  /** The digest and the score of the bytes 1, 2. */
  lemma DigestValue()
    ensures DigestOf([1, 2], 0xB4B4_B4B4_B4B4_B4B4)
            == [ 0x42, 0x8B, 0xDE, 0x8B, 0xBC, 0xAA, 0x1A, 0x8B, 0x58, 0x72, 0xC2, 0xF4, 0x45, 0xA2, 0xA7, 0xA8,
                 0x8E, 0x9C, 0xC7, 0x74, 0x7C, 0x26, 0x49, 0x50, 0xEC, 0x75, 0x72, 0xC9, 0x08, 0x12, 0xF3, 0x2F ]
  {
    hide Word, Stride, Absorbed, SplitMix64, Xor, Plus, BigEndian64;
    SmallWords();
    SmallStrides();
    var start := Xor(0xB4B4_B4B4_B4B4_B4B4, 2 * GOLDEN);
    AbsorbOneTwo(start);
    var state := Absorbed(start, [1, 2]);
    FourLanes(state);
    DigestSteps();
    BigEndianValues();
  }

  lemma FourLanes(state: bv64)
    ensures Lanes(state, 4) == Lane(state, 0) + Lane(state, 1) + Lane(state, 2) + Lane(state, 3)
  {
    hide Lane;
    assert Lanes(state, 0) == [];
    assert Lanes(state, 1) == Lane(state, 0);
    assert Lanes(state, 2) == Lane(state, 0) + Lane(state, 1);
    assert Lanes(state, 3) == Lane(state, 0) + Lane(state, 1) + Lane(state, 2);
  }

  lemma DigestSteps()
    ensures var start := Xor(0xB4B4_B4B4_B4B4_B4B4, 2 * GOLDEN);
            var state := SplitMix64(Xor(SplitMix64(Xor(start, Plus(1, GOLDEN))), Plus(2, 2 * GOLDEN)));
            && SplitMix64(Xor(state, 0)) == 0x428B_DE8B_BCAA_1A8B && SplitMix64(Xor(state, 1)) == 0x5872_C2F4_45A2_A7A8
            && SplitMix64(Xor(state, 2)) == 0x8E9C_C774_7C26_4950 && SplitMix64(Xor(state, 3)) == 0xEC75_72C9_0812_F32F
  {
  }

  lemma BigEndianValues()
    ensures BigEndian64(0x428B_DE8B_BCAA_1A8B) == [0x42, 0x8B, 0xDE, 0x8B, 0xBC, 0xAA, 0x1A, 0x8B]
    ensures BigEndian64(0x5872_C2F4_45A2_A7A8) == [0x58, 0x72, 0xC2, 0xF4, 0x45, 0xA2, 0xA7, 0xA8]
    ensures BigEndian64(0x8E9C_C774_7C26_4950) == [0x8E, 0x9C, 0xC7, 0x74, 0x7C, 0x26, 0x49, 0x50]
    ensures BigEndian64(0xEC75_72C9_0812_F32F) == [0xEC, 0x75, 0x72, 0xC9, 0x08, 0x12, 0xF3, 0x2F]
  {
  }

  lemma ScoreValue()
    ensures ScoreOf(1, [1, 2]) == 0x605C_B7EB_6904_52E8
  {
    hide Word, Absorbed;
    AbsorbOneTwo(Xor(1, GOLDEN));
  }
}
