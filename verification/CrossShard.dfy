/** The cross-shard protocol: prepare, validate, commit, their receipts and the checker
    (src/sharding/mod.rs). */
module CrossShard {
  import opened Bytes
  import opened Wrappers
  import opened Types
  import opened StateRoots
  import opened MixingDigest

  const TX_HASH_SEED: bv64 := 0xA5A5_A5A5_A5A5_A5A5
  const RECEIPT_SEED: bv64 := 0xB4B4_B4B4_B4B4_B4B4

  datatype Phase = Prepare | Validate | Commit

  datatype Receipt = Receipt(txHash: Bytes, sourceShard: bv16, destinationShard: bv16, phase: Phase, proof: Bytes)

  /** `CrossShardExecution` as a value. */
  datatype Execution = Execution(
    transaction: Transaction,
    txHash: Bytes,
    sourcePrepared: bool,
    destinationValidated: bool,
    committed: bool,
    receipts: seq<Receipt>)

  datatype CrossShardError =
    | BadShard(error: BeaconChainError)
    | NotCrossShard
    | SourceShardNotPrepared
    | DestinationShardNotValidated
    | DestinationAlreadyValidated
    | AlreadyCommitted
    | InvalidReceiptCount(expected: nat, provided: nat)
    | MissingReceiptPhase(phase: Phase)
    | ReceiptTxHashMismatch
    | ReceiptRouteMismatch(expectedRoute: (bv16, bv16), actualRoute: (bv16, bv16))
    | InvalidReceiptProof(phase: Phase)

  function ValidateRoute(t: Transaction, shardCount: nat): Result<(), CrossShardError> {
    var source := ValidateShardId(t.sourceShard as nat, shardCount);
    var destination := ValidateShardId(t.destinationShard as nat, shardCount);
    if source.Failure? then Failure(BadShard(source.error))
    else if destination.Failure? then Failure(BadShard(destination.error))
    else if t.sourceShard == t.destinationShard then Failure(NotCrossShard)
    else Success(())
  }

  /** A route is valid exactly when both shards exist and differ; the source is checked first. */
  lemma ValidateRouteExact(t: Transaction, shardCount: nat)
    ensures var r, s, d := ValidateRoute(t, shardCount), t.sourceShard as nat, t.destinationShard as nat;
            && (r.Success? <==> s < shardCount && d < shardCount && t.sourceShard != t.destinationShard)
            && (s >= shardCount ==> r == Failure(BadShard(InvalidShardId(s, shardCount))))
            && (s < shardCount <= d ==> r == Failure(BadShard(InvalidShardId(d, shardCount))))
            && (t.sourceShard == t.destinationShard && s < shardCount ==> r == Failure(NotCrossShard))
  {
  }

  /** Serialisation is a parameter. */
  type Encoding = Transaction -> Bytes

  function TransactionHash(encode: Encoding, t: Transaction): Bytes {
    DigestOf(encode(t), TX_HASH_SEED)
  }

  /** No hash assumption: transactions whose encodings differ in one byte have different hashes. */
  lemma TransactionHashSeparates(encode: Encoding, t: Transaction, u: Transaction, i: nat)
    requires OneByteApart(encode(t), encode(u), i)
    ensures TransactionHash(encode, t) != TransactionHash(encode, u)
  {
    DigestSeparatesOneByte(encode(t), encode(u), i, TX_HASH_SEED, 0);
  }

  /** The two uses of the digest are kept apart by their seeds. */
  lemma HashIsNoProof(encode: Encoding, t: Transaction, txHash: Bytes, phase: Phase, source: bv16, destination: bv16)
    requires encode(t) == ReceiptPayload(txHash, phase, source, destination)
    ensures TransactionHash(encode, t) != ReceiptProof(txHash, phase, source, destination)
  {
    hide DigestOf;
    DigestSeparatesSeeds(encode(t), TX_HASH_SEED, RECEIPT_SEED);
  }

  function BigEndian16(w: bv16): (r: Bytes)
    ensures |r| == 2
  {
    [((w >> 8) & 0xFF) as bv8, (w & 0xFF) as bv8]
  }

  function PhaseCode(phase: Phase): Byte {
    match phase
    case Prepare => 1
    case Validate => 2
    case Commit => 3
  }

  function ReceiptPayload(txHash: Bytes, phase: Phase, source: bv16, destination: bv16): Bytes {
    txHash + BigEndian16(source) + BigEndian16(destination) + [PhaseCode(phase)]
  }

  function ReceiptProof(txHash: Bytes, phase: Phase, source: bv16, destination: bv16): Bytes {
    DigestOf(ReceiptPayload(txHash, phase, source, destination), RECEIPT_SEED)
  }

  function BuiltReceipt(t: Transaction, txHash: Bytes, phase: Phase): Receipt {
    Receipt(txHash, t.sourceShard, t.destinationShard, phase,
            ReceiptProof(txHash, phase, t.sourceShard, t.destinationShard))
  }

  /** What is hashed for a receipt, byte by byte. */
  lemma ReceiptPayloadBytes()
    ensures ReceiptPayload([9, 8], Commit, 0x0102, 0x0304) == [9, 8, 1, 2, 3, 4, 3]
    ensures ReceiptPayload([], Prepare, 0, 1) == [0, 0, 0, 1, 1]
    ensures ReceiptPayload([], Validate, 0, 1) == [0, 0, 0, 1, 2]
  {
  }

  lemma BigEndian16Injective(a: bv16, b: bv16)
    requires BigEndian16(a) == BigEndian16(b)
    ensures a == b
  {
    assert BigEndian16(a)[0] == BigEndian16(b)[0] && BigEndian16(a)[1] == BigEndian16(b)[1];
  }

  /** The hashed bytes determine hash, route and phase. */
  lemma ReceiptPayloadInjective(txHash: Bytes, p: Phase, s: bv16, d: bv16, txHash': Bytes, p': Phase, s': bv16, d': bv16)
    requires ReceiptPayload(txHash, p, s, d) == ReceiptPayload(txHash', p', s', d')
    ensures txHash == txHash' && p == p' && s == s' && d == d'
  {
    hide BigEndian16;
    var x, y := ReceiptPayload(txHash, p, s, d), ReceiptPayload(txHash', p', s', d');
    var n := |txHash|;
    assert txHash == x[..n] && txHash' == y[..n];
    assert BigEndian16(s) == x[n..n + 2] && BigEndian16(s') == y[n..n + 2];
    assert BigEndian16(d) == x[n + 2..n + 4] && BigEndian16(d') == y[n + 2..n + 4];
    assert PhaseCode(p) == x[n + 4] && PhaseCode(p') == y[n + 4];
    BigEndian16Injective(s, s');
    BigEndian16Injective(d, d');
  }

  /** No hash assumption: the phases of one transaction and route never share a proof. */
  lemma PhasesNeverShareProof(txHash: Bytes, p: Phase, q: Phase, source: bv16, destination: bv16)
    requires p != q
    ensures ReceiptProof(txHash, p, source, destination) != ReceiptProof(txHash, q, source, destination)
  {
    hide DigestOf, BigEndian16;
    var a, b := ReceiptPayload(txHash, p, source, destination), ReceiptPayload(txHash, q, source, destination);
    var last := |txHash| + 4;
    assert a[last] == PhaseCode(p) && b[last] == PhaseCode(q);
    assert OneByteApart(a, b, last);
    DigestSeparatesOneByte(a, b, last, RECEIPT_SEED, 0);
  }

  function PrepareTransaction(encode: Encoding, t: Transaction, shardCount: nat)
    : Result<Execution, CrossShardError>
  {
    var route := ValidateRoute(t, shardCount);
    if route.Failure? then Failure(route.error)
    else
      var txHash := TransactionHash(encode, t);
      Success(Execution(t, txHash, true, false, false, [BuiltReceipt(t, txHash, Prepare)]))
  }

  function ValidationError(e: Execution, shardCount: nat): Result<(), CrossShardError> {
    var route := ValidateRoute(e.transaction, shardCount);
    if route.Failure? then route
    else if !e.sourcePrepared then Failure(SourceShardNotPrepared)
    else if e.destinationValidated then Failure(DestinationAlreadyValidated)
    else if e.committed then Failure(AlreadyCommitted)
    else Success(())
  }

  function CommitError(e: Execution, shardCount: nat): Result<(), CrossShardError> {
    var route := ValidateRoute(e.transaction, shardCount);
    if route.Failure? then route
    else if e.committed then Failure(AlreadyCommitted)
    else if !e.sourcePrepared then Failure(SourceShardNotPrepared)
    else if !e.destinationValidated then Failure(DestinationShardNotValidated)
    else Success(())
  }

  /** The record after an attempted step: a refused step leaves it as it was. */
  function Validated(e: Execution, shardCount: nat): Execution {
    if ValidationError(e, shardCount).Failure? then e
    else e.(receipts := e.receipts + [BuiltReceipt(e.transaction, e.txHash, Validate)], destinationValidated := true)
  }

  function Committed(e: Execution, shardCount: nat): Execution {
    if CommitError(e, shardCount).Failure? then e
    else e.(receipts := e.receipts + [BuiltReceipt(e.transaction, e.txHash, Commit)], committed := true)
  }

  function CheckReceipt(t: Transaction, txHash: Bytes, receipt: Receipt, shardCount: nat)
    : Result<(), CrossShardError>
  {
    var route := ValidateRoute(t, shardCount);
    if route.Failure? then route
    else if receipt.txHash != txHash then Failure(ReceiptTxHashMismatch)
    else if receipt.sourceShard != t.sourceShard || receipt.destinationShard != t.destinationShard
    then Failure(ReceiptRouteMismatch((t.sourceShard, t.destinationShard),
                                      (receipt.sourceShard, receipt.destinationShard)))
    else if receipt.proof != ReceiptProof(txHash, receipt.phase, receipt.sourceShard, receipt.destinationShard)
    then Failure(InvalidReceiptProof(receipt.phase))
    else Success(())
  }

  /** A single receipt is accepted exactly when it is the one that its phase builds. */
  lemma CheckReceiptExact(t: Transaction, txHash: Bytes, receipt: Receipt, shardCount: nat)
    ensures CheckReceipt(t, txHash, receipt, shardCount).Success?
            <==> ValidateRoute(t, shardCount).Success? && receipt == BuiltReceipt(t, txHash, receipt.phase)
  {
    hide ReceiptProof;
  }

  /** The error of a refused receipt: route, then hash, then route of the receipt, then proof. */
  lemma CheckReceiptErrors(t: Transaction, txHash: Bytes, receipt: Receipt, shardCount: nat)
    requires ValidateRoute(t, shardCount).Success?
    ensures var r := CheckReceipt(t, txHash, receipt, shardCount);
            var sameRoute := receipt.sourceShard == t.sourceShard && receipt.destinationShard == t.destinationShard;
            && (receipt.txHash != txHash <==> r == Failure(ReceiptTxHashMismatch))
            && (receipt.txHash == txHash && !sameRoute ==>
                  r == Failure(ReceiptRouteMismatch((t.sourceShard, t.destinationShard),
                                                    (receipt.sourceShard, receipt.destinationShard))))
            && (receipt.txHash == txHash && sameRoute && r.Failure? ==>
                  r == Failure(InvalidReceiptProof(receipt.phase)))
  {
    hide ReceiptProof;
  }

  /** The proof of one phase is refused under the name of another. */
  lemma RelabelledReceiptRefused(t: Transaction, txHash: Bytes, phase: Phase, other: Phase, shardCount: nat)
    requires phase != other && ValidateRoute(t, shardCount).Success?
    ensures CheckReceipt(t, txHash, BuiltReceipt(t, txHash, phase).(phase := other), shardCount)
            == Failure(InvalidReceiptProof(other))
  {
    hide ReceiptProof;
    PhasesNeverShareProof(txHash, phase, other, t.sourceShard, t.destinationShard);
  }

  function ExpectedPhases(e: Execution): seq<Phase> {
    (if e.sourcePrepared || e.destinationValidated || e.committed then [Prepare] else [])
    + (if e.destinationValidated || e.committed then [Validate] else [])
    + (if e.committed then [Commit] else [])
  }

  function BuiltReceipts(t: Transaction, txHash: Bytes, phases: seq<Phase>): (r: seq<Receipt>)
    ensures |r| == |phases| && forall i :: 0 <= i < |phases| ==> r[i] == BuiltReceipt(t, txHash, phases[i])
  {
    seq(|phases|, i requires 0 <= i < |phases| => BuiltReceipt(t, txHash, phases[i]))
  }

  /** What the checker stands for: a valid route, flags closed downwards, and precisely the receipts that
      the protocol builds for those flags, in order. */
  predicate Genuine(e: Execution, shardCount: nat) {
    && ValidateRoute(e.transaction, shardCount).Success?
    && (e.committed ==> e.destinationValidated)
    && (e.destinationValidated ==> e.sourcePrepared)
    && e.receipts == BuiltReceipts(e.transaction, e.txHash, ExpectedPhases(e))
  }

  /** Receipt `i` is the first that is not the built one, and `error` says what is wrong with it. */
  predicate Blames(e: Execution, i: nat, shardCount: nat, error: CrossShardError) {
    var phases := ExpectedPhases(e);
    && i < |e.receipts| == |phases|
    && e.receipts[..i] == BuiltReceipts(e.transaction, e.txHash, phases)[..i]
    && if e.receipts[i].phase != phases[i] then error == MissingReceiptPhase(phases[i])
       else CheckReceipt(e.transaction, e.txHash, e.receipts[i], shardCount) == Failure(error)
  }

  /** The checker accepts exactly the genuine records, and its error names the first thing wrong. */
  method ValidateExecutionProofs(e: Execution, shardCount: nat) returns (r: Result<(), CrossShardError>)
    ensures r.Success? <==> Genuine(e, shardCount)
    ensures r.Failure? ==>
              var route := ValidateRoute(e.transaction, shardCount);
              if route.Failure? then r == route
              else if e.committed && !e.destinationValidated then r.error == DestinationShardNotValidated
              else if e.destinationValidated && !e.sourcePrepared then r.error == SourceShardNotPrepared
              else if |e.receipts| != |ExpectedPhases(e)|
              then r.error == InvalidReceiptCount(|ExpectedPhases(e)|, |e.receipts|)
              else exists i :: Blames(e, i, shardCount, r.error)
  {
    hide ReceiptProof;
    var route := ValidateRoute(e.transaction, shardCount);
    if route.Failure? {
      return route;
    }
    if e.committed && !e.destinationValidated {
      return Failure(DestinationShardNotValidated);
    }
    if (e.destinationValidated || e.committed) && !e.sourcePrepared {
      return Failure(SourceShardNotPrepared);
    }
    var phases := ExpectedPhases(e);
    if |e.receipts| != |phases| {
      return Failure(InvalidReceiptCount(|phases|, |e.receipts|));
    }
    var built := BuiltReceipts(e.transaction, e.txHash, phases);
    for i := 0 to |phases|
      invariant e.receipts[..i] == built[..i]
    {
      if e.receipts[i].phase != phases[i] {
        assert e.receipts[i] != built[i];
        assert Blames(e, i, shardCount, MissingReceiptPhase(phases[i]));
        return Failure(MissingReceiptPhase(phases[i]));
      }
      var checked := CheckReceipt(e.transaction, e.txHash, e.receipts[i], shardCount);
      CheckReceiptExact(e.transaction, e.txHash, e.receipts[i], shardCount);
      if checked.Failure? {
        assert e.receipts[i] != built[i];
        assert Blames(e, i, shardCount, checked.error);
        return checked;
      }
      assert e.receipts[..i + 1] == e.receipts[..i] + [e.receipts[i]];
      assert built[..i + 1] == built[..i] + [built[i]];
    }
    assert e.receipts[..|phases|] == e.receipts && built[..|phases|] == built;
    return Success(());
  }

  method IsGloballyFinalized(e: Execution, shardCount: nat) returns (r: Result<bool, CrossShardError>)
    ensures r.Success? <==> Genuine(e, shardCount)
    ensures r.Success? ==> r.value == e.committed
  {
    hide ReceiptProof;
    var checked := ValidateExecutionProofs(e, shardCount);
    if checked.Failure? {
      return Failure(checked.error);
    }
    return Success(e.sourcePrepared && e.destinationValidated && e.committed && |e.receipts| == 3);
  }

  // ----- The order of the steps -----

  /** On a genuine prepared record, validation succeeds once and first, commit succeeds once and after it. */
  lemma StepsInOrder(e: Execution, shardCount: nat)
    requires Genuine(e, shardCount) && e.sourcePrepared
    ensures var v, c := ValidationError(e, shardCount), CommitError(e, shardCount);
            && (!e.destinationValidated ==>
                  v == Success(()) && c == Failure(DestinationShardNotValidated))
            && (e.destinationValidated && !e.committed ==>
                  v == Failure(DestinationAlreadyValidated) && c == Success(()))
            && (e.committed ==> v == Failure(DestinationAlreadyValidated) && c == Failure(AlreadyCommitted))
  {
    hide ReceiptProof;
  }

  // ----- Reachability -----

  datatype Attempt = TryValidate | TryCommit

  function After(e: Execution, attempts: seq<Attempt>, shardCount: nat): Execution {
    if attempts == [] then e
    else
      var before := After(e, attempts[..|attempts| - 1], shardCount);
      match attempts[|attempts| - 1]
      case TryValidate => Validated(before, shardCount)
      case TryCommit => Committed(before, shardCount)
  }

  /** Some sequence of attempts leads from a successful prepare to `e`. */
  ghost predicate Reachable(encode: Encoding, e: Execution, shardCount: nat) {
    var start := PrepareTransaction(encode, e.transaction, shardCount);
    start.Success? && exists attempts :: After(start.value, attempts, shardCount) == e
  }

  lemma {:induction false} StepsStayGenuine(e: Execution, attempts: seq<Attempt>, shardCount: nat)
    requires Genuine(e, shardCount) && e.sourcePrepared
    ensures var after := After(e, attempts, shardCount);
            && Genuine(after, shardCount) && after.sourcePrepared
            && after.transaction == e.transaction && after.txHash == e.txHash
  {
    hide ReceiptProof;
    if attempts != [] {
      var n := |attempts| - 1;
      var before := After(e, attempts[..n], shardCount);
      StepsStayGenuine(e, attempts[..n], shardCount);
      var after := After(e, attempts, shardCount);
      assert after.receipts == BuiltReceipts(e.transaction, e.txHash, ExpectedPhases(after));
    }
  }

  /** A record that is prepared and carries its transaction's own hash is accepted exactly when the protocol
      can reach it; and it is final exactly when it is committed. */
  lemma AcceptedIffReachable(encode: Encoding, e: Execution, shardCount: nat)
    requires e.sourcePrepared && e.txHash == TransactionHash(encode, e.transaction)
    ensures Genuine(e, shardCount) <==> Reachable(encode, e, shardCount)
  {
    hide ReceiptProof, TransactionHash;
    var start := PrepareTransaction(encode, e.transaction, shardCount);
    if start.Success? {
      assert start.value.receipts
          == BuiltReceipts(e.transaction, e.txHash, ExpectedPhases(start.value));
      if attempts :| After(start.value, attempts, shardCount) == e {
        StepsStayGenuine(start.value, attempts, shardCount);
      }
      if Genuine(e, shardCount) {
        GenuineIsReached(start.value, e, shardCount);
      }
    }
  }

  lemma GenuineIsReached(start: Execution, e: Execution, shardCount: nat)
    requires Genuine(e, shardCount) && e.sourcePrepared
    requires start == Execution(e.transaction, e.txHash, true, false, false,
                                [BuiltReceipt(e.transaction, e.txHash, Prepare)])
    ensures exists attempts :: After(start, attempts, shardCount) == e
  {
    hide ReceiptProof;
    var validated := Validated(start, shardCount);
    var committed := Committed(validated, shardCount);
    assert After(start, [], shardCount) == start;
    assert [TryValidate][..0] == [] && [TryValidate, TryCommit][..1] == [TryValidate];
    assert After(start, [TryValidate], shardCount) == validated;
    assert After(start, [TryValidate, TryCommit], shardCount) == committed;
    if !e.destinationValidated {
      assert e.receipts == start.receipts;
      assert e == start;
    } else if !e.committed {
      assert e.receipts == validated.receipts;
      assert e == validated;
    } else {
      assert e.receipts == committed.receipts;
      assert e == committed;
    }
  }

  // ----- The object -----

  class CrossShardExecution {
    var transaction: Transaction
    var txHash: Bytes
    var sourcePrepared: bool
    var destinationValidated: bool
    var committed: bool
    var receipts: seq<Receipt>

    function View(): Execution
      reads this
    {
      Execution(transaction, txHash, sourcePrepared, destinationValidated, committed, receipts)
    }

    constructor (e: Execution)
      ensures View() == e
    {
      transaction, txHash := e.transaction, e.txHash;
      sourcePrepared, destinationValidated, committed := e.sourcePrepared, e.destinationValidated, e.committed;
      receipts := e.receipts;
    }

    method ValidateTransaction(shardCount: nat) returns (r: Result<(), CrossShardError>)
      modifies this
      ensures r == ValidationError(old(View()), shardCount)
      ensures View() == Validated(old(View()), shardCount)
    {
      hide ReceiptProof;
      var route := ValidateRoute(transaction, shardCount);
      if route.Failure? {
        return route;
      }
      if !sourcePrepared {
        return Failure(SourceShardNotPrepared);
      }
      if destinationValidated {
        return Failure(DestinationAlreadyValidated);
      }
      if committed {
        return Failure(AlreadyCommitted);
      }
      receipts := receipts + [BuiltReceipt(transaction, txHash, Validate)];
      destinationValidated := true;
      return Success(());
    }

    method CommitTransaction(shardCount: nat) returns (r: Result<(), CrossShardError>)
      modifies this
      ensures r == CommitError(old(View()), shardCount)
      ensures View() == Committed(old(View()), shardCount)
    {
      hide ReceiptProof;
      var route := ValidateRoute(transaction, shardCount);
      if route.Failure? {
        return route;
      }
      if committed {
        return Failure(AlreadyCommitted);
      }
      if !sourcePrepared {
        return Failure(SourceShardNotPrepared);
      }
      if !destinationValidated {
        return Failure(DestinationShardNotValidated);
      }
      receipts := receipts + [BuiltReceipt(transaction, txHash, Commit)];
      committed := true;
      return Success(());
    }
  }
}
