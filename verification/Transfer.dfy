/** The native check of an anonymous transfer beside the equalities of its circuit (src/privacy/mod.rs). */
module Transfer {
  import opened Bytes
  import opened Wrappers
  import opened NoteMerkle
  import opened Notes

  datatype InputWitness = InputWitness(value: U64, spendingKey: Key, blinding: Digest, proof: NoteMerkleProof)

  datatype OutputWitness = OutputWitness(opening: Opening)

  datatype PublicInputs = PublicInputs(merkleRoot: Digest, fee: U64, outputCommitments: seq<NoteCommitment>)

  datatype Witness = Witness(inputs: seq<InputWitness>, outputs: seq<OutputWitness>)

  datatype TransferError =
    | MissingInputs
    | MissingOutputs
    | OutputCommitmentCountMismatch(expected: nat, actual: nat)
    | InvalidSpendingPrivateKey(index: nat)
    | InvalidInputNote(index: nat)
    | InvalidInputCommitment(index: nat)
    | InvalidMerkleProof(index: nat)
    | InvalidOutputNote(index: nat)
    | InvalidOutputCommitment(index: nat)
    | AmountOverflow
    | AmountImbalance(inputsTotal: nat, outputsTotal: nat, fee: nat)

  /** The note an input claims to spend. */
  function Spent(sha: Hash, i: InputWitness): Opening {
    Opening(i.value, DerivePublicKey(sha, i.spendingKey), i.blinding)
  }

  function InputSum(inputs: seq<InputWitness>): nat {
    if inputs == [] then 0 else InputSum(inputs[..|inputs| - 1]) + inputs[|inputs| - 1].value
  }

  function OutputSum(outputs: seq<OutputWitness>): nat {
    if outputs == [] then 0 else OutputSum(outputs[..|outputs| - 1]) + outputs[|outputs| - 1].opening.value
  }

  predicate InputHolds(sha: Hash, root: Digest, i: InputWitness) {
    && i.spendingKey != ZERO_KEY
    && WellFormed(Spent(sha, i))
    && i.proof.leaf == Commit(sha, Spent(sha, i))
    && ProofRoot(sha, i.proof) == root
  }

  predicate OutputHolds(sha: Hash, o: OutputWitness, commitment: NoteCommitment) {
    WellFormed(o.opening) && commitment == Commit(sha, o.opening)
  }

  ghost predicate InputsHold(sha: Hash, root: Digest, inputs: seq<InputWitness>) {
    (forall k :: 0 <= k < |inputs| ==> InputHolds(sha, root, inputs[k])) && InputSum(inputs) < TWO_64
  }

  ghost predicate OutputsHold(sha: Hash, outputs: seq<OutputWitness>, commitments: seq<NoteCommitment>)
    requires |outputs| == |commitments|
  {
    (forall k :: 0 <= k < |outputs| ==> OutputHolds(sha, outputs[k], commitments[k])) && OutputSum(outputs) < TWO_64
  }

  /** `error` names the first check that input `k` fails. */
  ghost predicate FaultyInput(sha: Hash, root: Digest, i: InputWitness, k: nat, error: TransferError) {
    match error
    case InvalidSpendingPrivateKey(j) => j == k && i.spendingKey == ZERO_KEY
    case InvalidInputNote(j) => j == k && i.spendingKey != ZERO_KEY && !WellFormed(Spent(sha, i))
    case InvalidInputCommitment(j) =>
      j == k && i.spendingKey != ZERO_KEY && WellFormed(Spent(sha, i)) && i.proof.leaf != Commit(sha, Spent(sha, i))
    case InvalidMerkleProof(j) =>
      && j == k && i.spendingKey != ZERO_KEY && WellFormed(Spent(sha, i))
      && i.proof.leaf == Commit(sha, Spent(sha, i)) && ProofRoot(sha, i.proof) != root
    case _ => false
  }

  /** Input `k` is the first that fails, or the first at which the sum no longer fits. */
  ghost predicate BlamesInput(sha: Hash, root: Digest, inputs: seq<InputWitness>, k: nat, error: TransferError) {
    && k < |inputs| && InputsHold(sha, root, inputs[..k])
    && (FaultyInput(sha, root, inputs[k], k, error)
        || (error == AmountOverflow && InputHolds(sha, root, inputs[k]) && InputSum(inputs[..k + 1]) >= TWO_64))
  }

  ghost predicate BlamesOutput(sha: Hash, outputs: seq<OutputWitness>, commitments: seq<NoteCommitment>, k: nat,
                               error: TransferError)
    requires |outputs| == |commitments|
  {
    && k < |outputs| && OutputsHold(sha, outputs[..k], commitments[..k])
    && var o := outputs[k].opening;
       match error
       case InvalidOutputNote(j) => j == k && !WellFormed(o)
       case InvalidOutputCommitment(j) => j == k && WellFormed(o) && commitments[k] != Commit(sha, o)
       case AmountOverflow => OutputHolds(sha, outputs[k], commitments[k]) && OutputSum(outputs[..k + 1]) >= TWO_64
       case _ => false
  }

  /** The error of a refused transfer: the first thing wrong, in the order of the checks. */
  ghost predicate Explains(sha: Hash, p: PublicInputs, w: Witness, error: TransferError) {
    if w.inputs == [] then error == MissingInputs
    else if w.outputs == [] then error == MissingOutputs
    else if |w.outputs| != |p.outputCommitments|
    then error == OutputCommitmentCountMismatch(|w.outputs|, |p.outputCommitments|)
    else if !InputsHold(sha, p.merkleRoot, w.inputs)
    then exists k :: BlamesInput(sha, p.merkleRoot, w.inputs, k, error)
    else if !OutputsHold(sha, w.outputs, p.outputCommitments)
    then exists k :: BlamesOutput(sha, w.outputs, p.outputCommitments, k, error)
    else if OutputSum(w.outputs) + p.fee >= TWO_64 then error == AmountOverflow
    else error == AmountImbalance(InputSum(w.inputs), OutputSum(w.outputs), p.fee)
  }

  /** What the native check stands for: every note is well formed and committed to, every input's proof leads
      to the root, and the amounts balance as integers, within 64 bits throughout. */
  ghost predicate Sound(sha: Hash, p: PublicInputs, w: Witness) {
    && w.inputs != [] && w.outputs != [] && |w.outputs| == |p.outputCommitments|
    && (forall k :: 0 <= k < |w.inputs| ==> InputHolds(sha, p.merkleRoot, w.inputs[k]))
    && (forall k :: 0 <= k < |w.outputs| ==> OutputHolds(sha, w.outputs[k], p.outputCommitments[k]))
    && InputSum(w.inputs) == OutputSum(w.outputs) + p.fee < TWO_64
  }

  lemma {:induction false} InputSumGrows(inputs: seq<InputWitness>, n: nat)
    requires n <= |inputs|
    ensures InputSum(inputs[..n]) <= InputSum(inputs)
    decreases |inputs| - n
  {
    if n < |inputs| {
      assert inputs[..n + 1][..n] == inputs[..n];
      InputSumGrows(inputs, n + 1);
    } else {
      assert inputs[..n] == inputs;
    }
  }

  lemma {:induction false} OutputSumGrows(outputs: seq<OutputWitness>, n: nat)
    requires n <= |outputs|
    ensures OutputSum(outputs[..n]) <= OutputSum(outputs)
    decreases |outputs| - n
  {
    if n < |outputs| {
      assert outputs[..n + 1][..n] == outputs[..n];
      OutputSumGrows(outputs, n + 1);
    } else {
      assert outputs[..n] == outputs;
    }
  }

  lemma InputSumStep(inputs: seq<InputWitness>, i: nat)
    requires i < |inputs|
    ensures InputSum(inputs[..i + 1]) == InputSum(inputs[..i]) + inputs[i].value
  {
    assert inputs[..i + 1][..i] == inputs[..i];
  }

  /** The checks on one input. */
  method CheckInput(sha: Hash, root: Digest, input: InputWitness, index: nat) returns (fault: Option<TransferError>)
    ensures fault.None? <==> InputHolds(sha, root, input)
    ensures fault.Some? ==> FaultyInput(sha, root, input, index, fault.value)
  {
    hide Commit, DerivePublicKey, ProofRoot, WellFormed, NewNote;
    if input.spendingKey == ZERO_KEY {
      return Some(InvalidSpendingPrivateKey(index));
    }
    var note := NewNote(sha, Opening(input.value, DerivePublicKey(sha, input.spendingKey), input.blinding));
    if note.Failure? {
      return Some(InvalidInputNote(index));
    }
    if input.proof.leaf != note.value {
      return Some(InvalidInputCommitment(index));
    }
    var derivedRoot := NoteMerkleTree.ComputeRootFromProof(sha, input.proof);
    if derivedRoot != root {
      return Some(InvalidMerkleProof(index));
    }
    return None;
  }

  /** The first loop of the check. */
  method CheckInputs(sha: Hash, root: Digest, inputs: seq<InputWitness>) returns (r: Result<U64, TransferError>)
    ensures r.Success? <==> InputsHold(sha, root, inputs)
    ensures r.Success? ==> r.value == InputSum(inputs)
    ensures r.Failure? ==> exists k :: BlamesInput(sha, root, inputs, k, r.error)
  {
    hide InputHolds, FaultyInput;
    var total: U64 := 0;
    for index := 0 to |inputs|
      invariant forall k :: 0 <= k < index ==> InputHolds(sha, root, inputs[k])
      invariant total == InputSum(inputs[..index])
    {
      InputSumStep(inputs, index);
      InputSumGrows(inputs, index + 1);
      var fault := CheckInput(sha, root, inputs[index], index);
      if fault.Some? {
        assert BlamesInput(sha, root, inputs, index, fault.value);
        return Failure(fault.value);
      }
      if total + inputs[index].value >= TWO_64 {
        assert BlamesInput(sha, root, inputs, index, AmountOverflow);
        return Failure(AmountOverflow);
      }
      total := total + inputs[index].value;
    }
    assert inputs[..|inputs|] == inputs;
    return Success(total);
  }

  /** The second loop of the check. */
  method CheckOutputs(sha: Hash, outputs: seq<OutputWitness>, commitments: seq<NoteCommitment>)
    returns (r: Result<U64, TransferError>)
    requires |outputs| == |commitments|
    ensures r.Success? <==> OutputsHold(sha, outputs, commitments)
    ensures r.Success? ==> r.value == OutputSum(outputs)
    ensures r.Failure? ==> exists k :: BlamesOutput(sha, outputs, commitments, k, r.error)
  {
    hide Commit, WellFormed, NewNote;
    var total: U64 := 0;
    for index := 0 to |outputs|
      invariant forall k :: 0 <= k < index ==> OutputHolds(sha, outputs[k], commitments[k])
      invariant total == OutputSum(outputs[..index])
    {
      assert outputs[..index + 1][..index] == outputs[..index];
      OutputSumGrows(outputs, index + 1);
      var note := NewNote(sha, outputs[index].opening);
      if note.Failure? {
        assert BlamesOutput(sha, outputs, commitments, index, InvalidOutputNote(index));
        return Failure(InvalidOutputNote(index));
      }
      if commitments[index] != note.value {
        assert BlamesOutput(sha, outputs, commitments, index, InvalidOutputCommitment(index));
        return Failure(InvalidOutputCommitment(index));
      }
      if total + outputs[index].opening.value >= TWO_64 {
        assert BlamesOutput(sha, outputs, commitments, index, AmountOverflow);
        return Failure(AmountOverflow);
      }
      total := total + outputs[index].opening.value;
    }
    assert outputs[..|outputs|] == outputs;
    return Success(total);
  }

  method VerifyTransfer(sha: Hash, p: PublicInputs, w: Witness) returns (r: Result<(), TransferError>)
    ensures r.Success? <==> Sound(sha, p, w)
    ensures r.Failure? ==> Explains(sha, p, w, r.error)
  {
    hide InputHolds, OutputHolds, BlamesInput, BlamesOutput;
    if w.inputs == [] {
      return Failure(MissingInputs);
    }
    if w.outputs == [] {
      return Failure(MissingOutputs);
    }
    if |w.outputs| != |p.outputCommitments| {
      return Failure(OutputCommitmentCountMismatch(|w.outputs|, |p.outputCommitments|));
    }
    var inputsTotal := CheckInputs(sha, p.merkleRoot, w.inputs);
    if inputsTotal.Failure? {
      return Failure(inputsTotal.error);
    }
    var outputsTotal := CheckOutputs(sha, w.outputs, p.outputCommitments);
    if outputsTotal.Failure? {
      return Failure(outputsTotal.error);
    }
    if outputsTotal.value + p.fee >= TWO_64 {
      return Failure(AmountOverflow);
    }
    if inputsTotal.value != outputsTotal.value + p.fee {
      return Failure(AmountImbalance(inputsTotal.value, outputsTotal.value, p.fee));
    }
    return Success(());
  }

  // ----- The circuit -----

  /** `wrapping_add_many`. */
  function WrapSum(values: seq<U64>): U64 {
    if values == [] then 0 else (WrapSum(values[..|values| - 1]) + values[|values| - 1]) % TWO_64
  }

  function InputValues(inputs: seq<InputWitness>): (r: seq<U64>)
    ensures |r| == |inputs| && forall k :: 0 <= k < |r| ==> r[k] == inputs[k].value
  {
    seq<U64>(|inputs|, k requires 0 <= k < |inputs| => inputs[k].value)
  }

  function OutputValues(outputs: seq<OutputWitness>): (r: seq<U64>)
    ensures |r| == |outputs| && forall k :: 0 <= k < |r| ==> r[k] == outputs[k].opening.value
  {
    seq<U64>(|outputs|, k requires 0 <= k < |outputs| => outputs[k].opening.value)
  }

  /** The equalities that `generate_constraints` enforces on the witness, with its shape checks. The circuit
      walks a proof as the native code does. */
  ghost predicate SatisfiesCircuit(sha: Hash, p: PublicInputs, w: Witness) {
    && w.inputs != [] && w.outputs != [] && |w.outputs| == |p.outputCommitments|
    && (forall k :: 0 <= k < |w.inputs| ==>
          && Commit(sha, Spent(sha, w.inputs[k])) == w.inputs[k].proof.leaf
          && ProofRoot(sha, w.inputs[k].proof) == p.merkleRoot)
    && (forall k :: 0 <= k < |w.outputs| ==> Commit(sha, w.outputs[k].opening) == p.outputCommitments[k])
    && WrapSum(InputValues(w.inputs)) == WrapSum([WrapSum(OutputValues(w.outputs)), p.fee])
  }

  lemma {:induction false} WrapInputs(inputs: seq<InputWitness>)
    ensures WrapSum(InputValues(inputs)) == InputSum(inputs) % TWO_64
  {
    if inputs != [] {
      var n := |inputs| - 1;
      WrapInputs(inputs[..n]);
      assert InputValues(inputs)[..n] == InputValues(inputs[..n]);
      WrapStep(InputSum(inputs[..n]), inputs[n].value);
    }
  }

  lemma {:induction false} WrapOutputs(outputs: seq<OutputWitness>)
    ensures WrapSum(OutputValues(outputs)) == OutputSum(outputs) % TWO_64
  {
    if outputs != [] {
      var n := |outputs| - 1;
      WrapOutputs(outputs[..n]);
      assert OutputValues(outputs)[..n] == OutputValues(outputs[..n]);
      WrapStep(OutputSum(outputs[..n]), outputs[n].opening.value);
    }
  }

  lemma WrapStep(a: nat, b: nat)
    ensures (a % TWO_64 + b) % TWO_64 == (a + b) % TWO_64
  {
  }

  lemma WrapPair(a: U64, b: U64)
    ensures WrapSum([a, b]) == (a + b) % TWO_64
  {
    assert [a, b][..1] == [a] && [a][..0] == [];
    assert WrapSum([a]) == a;
  }

  /** The circuit balances modulo 2^64 and no more. */
  lemma CircuitBalance(p: PublicInputs, w: Witness)
    ensures WrapSum(InputValues(w.inputs)) == WrapSum([WrapSum(OutputValues(w.outputs)), p.fee])
            <==> InputSum(w.inputs) % TWO_64 == (OutputSum(w.outputs) + p.fee) % TWO_64
  {
    WrapInputs(w.inputs);
    WrapOutputs(w.outputs);
    WrapPair(WrapSum(OutputValues(w.outputs)), p.fee);
    WrapStep(OutputSum(w.outputs), p.fee);
  }

  /** What the native check asks beyond the circuit: nothing zero that must not be, and totals of 64 bits. */
  ghost predicate NativeOnly(sha: Hash, p: PublicInputs, w: Witness) {
    && (forall k :: 0 <= k < |w.inputs| ==>
          w.inputs[k].spendingKey != ZERO_KEY && WellFormed(Spent(sha, w.inputs[k])))
    && (forall k :: 0 <= k < |w.outputs| ==> WellFormed(w.outputs[k].opening))
    && InputSum(w.inputs) < TWO_64 && OutputSum(w.outputs) + p.fee < TWO_64
  }

  /** The native check accepts exactly the witnesses that satisfy the circuit and the native side
      conditions. */
  lemma NativeIffCircuit(sha: Hash, p: PublicInputs, w: Witness)
    ensures Sound(sha, p, w) <==> SatisfiesCircuit(sha, p, w) && NativeOnly(sha, p, w)
  {
    hide Commit, ProofRoot, WellFormed, WrapSum;
    CircuitBalance(p, w);
  }

  /** The equalities alone let value be minted, whatever `sha` is: an input of 5 beside outputs of 2^64 + 5. */
  lemma CircuitMints(sha: Hash, key: Key, blinding: Digest, o: Opening, o': Opening)
    returns (p: PublicInputs, w: Witness)
    requires o.value == TWO_64 - 1 && o'.value == 6
    ensures SatisfiesCircuit(sha, p, w) && |w.inputs| == 1 && p.fee == 0
    ensures InputSum(w.inputs) == 5 && OutputSum(w.outputs) == TWO_64 + 5
  {
    hide Commit, DerivePublicKey, ProofRoot;
    var leaf := Commit(sha, Opening(5, DerivePublicKey(sha, key), blinding));
    var proof := NoteMerkleProof(0, leaf, []);
    var i := InputWitness(5, key, blinding, proof);
    w := Witness([i], [OutputWitness(o), OutputWitness(o')]);
    p := PublicInputs(ProofRoot(sha, proof), 0, [Commit(sha, o), Commit(sha, o')]);
    OneInput(i);
    TwoOutputs(w.outputs[0], w.outputs[1]);
    CircuitBalance(p, w);
  }

  lemma OneInput(i: InputWitness)
    ensures InputSum([i]) == i.value
  {
    assert [i][..0] == [];
  }

  lemma TwoOutputs(o: OutputWitness, o': OutputWitness)
    ensures OutputSum([o, o']) == o.opening.value + o'.opening.value
  {
    assert [o, o'][..1] == [o] && [o][..0] == [];
    assert OutputSum([o]) == o.opening.value;
  }

  /** With the overflow guards of the native check as the condition: while the inputs fit 64 bits, as a single
      input always does, a witness of the circuit balances as integers if and only if outputs and fee fit too. */
  lemma CircuitBalancesIffGuarded(sha: Hash, p: PublicInputs, w: Witness)
    requires SatisfiesCircuit(sha, p, w) && (InputSum(w.inputs) < TWO_64 || |w.inputs| == 1)
    ensures InputSum(w.inputs) == OutputSum(w.outputs) + p.fee <==> OutputSum(w.outputs) + p.fee < TWO_64
  {
    hide Commit, ProofRoot, WrapSum;
    CircuitBalance(p, w);
    if |w.inputs| == 1 {
      OneInput(w.inputs[0]);
      assert w.inputs == [w.inputs[0]];
    }
  }

  /** Without a bound on the inputs, amounts balance exactly when both sides wrap equally often. */
  lemma CircuitBalancesIff(sha: Hash, p: PublicInputs, w: Witness)
    requires SatisfiesCircuit(sha, p, w)
    ensures InputSum(w.inputs) == OutputSum(w.outputs) + p.fee
            <==> InputSum(w.inputs) / TWO_64 == (OutputSum(w.outputs) + p.fee) / TWO_64
  {
    hide Commit, ProofRoot, WrapSum;
    CircuitBalance(p, w);
  }

  // ----- What is spent and what is created -----

  /** The distinct notes that the inputs open. */
  function NotesSpent(sha: Hash, inputs: seq<InputWitness>): set<Opening> {
    set i | i in inputs :: Spent(sha, i)
  }

  ghost function ValueOfNotes(notes: set<Opening>): nat {
    if notes == {} then 0
    else
      var o :| o in notes;
      o.value + ValueOfNotes(notes - {o})
  }

  lemma {:induction false} ValueOfOneMore(notes: set<Opening>, o: Opening)
    requires o !in notes
    ensures ValueOfNotes(notes + {o}) == ValueOfNotes(notes) + o.value
  {
    var more := notes + {o};
    var p :| p in more && ValueOfNotes(more) == p.value + ValueOfNotes(more - {p});
    if p == o {
      assert more - {p} == notes;
    } else {
      assert more - {p} == (notes - {p}) + {o};
      ValueOfOneMore(notes - {p}, o);
      assert (notes - {p}) + {p} == notes;
      ValueOfOneMore(notes - {p}, p);
    }
  }

  ghost predicate NoRepeatedNote(sha: Hash, inputs: seq<InputWitness>) {
    forall i, j :: 0 <= i < j < |inputs| ==> Spent(sha, inputs[i]) != Spent(sha, inputs[j])
  }

  /** Repetition only inflates: the inputs sum to at least the value of the notes they open, and to exactly
      that if and only if they open pairwise different notes. */
  lemma {:induction false} RepeatsInflate(sha: Hash, inputs: seq<InputWitness>)
    requires forall k :: 0 <= k < |inputs| ==> inputs[k].value > 0
    ensures ValueOfNotes(NotesSpent(sha, inputs)) <= InputSum(inputs)
    ensures ValueOfNotes(NotesSpent(sha, inputs)) == InputSum(inputs) <==> NoRepeatedNote(sha, inputs)
  {
    hide DerivePublicKey;
    if inputs == [] {
      assert NotesSpent(sha, inputs) == {};
    } else {
      var n := |inputs| - 1;
      var init, last := inputs[..n], Spent(sha, inputs[n]);
      RepeatsInflate(sha, init);
      SpentSnoc(sha, inputs);
      if last in NotesSpent(sha, init) {
        assert NotesSpent(sha, init) + {last} == NotesSpent(sha, init);
      } else {
        ValueOfOneMore(NotesSpent(sha, init), last);
      }
    }
  }

  lemma SpentSnoc(sha: Hash, inputs: seq<InputWitness>)
    requires inputs != []
    ensures var n := |inputs| - 1;
            && NotesSpent(sha, inputs) == NotesSpent(sha, inputs[..n]) + {Spent(sha, inputs[n])}
            && (NoRepeatedNote(sha, inputs)
                <==> NoRepeatedNote(sha, inputs[..n]) && Spent(sha, inputs[n]) !in NotesSpent(sha, inputs[..n]))
  {
    hide Spent;
    var n := |inputs| - 1;
    var init, last := inputs[..n], inputs[n];
    assert inputs == init + [last];
    if NoRepeatedNote(sha, inputs) {
      forall i, j | 0 <= i < j < n ensures Spent(sha, init[i]) != Spent(sha, init[j]) {
        assert init[i] == inputs[i] && init[j] == inputs[j];
      }
      forall i | i in init ensures Spent(sha, i) != Spent(sha, last) {
        var k :| 0 <= k < n && init[k] == i;
        assert inputs[k] == i;
      }
    }
    if NoRepeatedNote(sha, init) && Spent(sha, last) !in NotesSpent(sha, init) {
      forall i, j | 0 <= i < j < |inputs| ensures Spent(sha, inputs[i]) != Spent(sha, inputs[j]) {
        assert inputs[i] == init[i] && init[i] in init;
        if j < n {
          assert inputs[j] == init[j];
        }
      }
    }
  }

  /** What an accepted transfer creates against the notes it opens: never less, and exactly as much if and only
      if its inputs open pairwise different notes. The check does not look for repeats, so that condition is
      the caller's to establish. */
  lemma AcceptedTransferConservesIff(sha: Hash, p: PublicInputs, w: Witness)
    requires Sound(sha, p, w)
    ensures ValueOfNotes(NotesSpent(sha, w.inputs)) <= OutputSum(w.outputs) + p.fee
    ensures ValueOfNotes(NotesSpent(sha, w.inputs)) == OutputSum(w.outputs) + p.fee
            <==> NoRepeatedNote(sha, w.inputs)
  {
    forall k | 0 <= k < |w.inputs| ensures w.inputs[k].value > 0 {
      assert InputHolds(sha, p.merkleRoot, w.inputs[k]);
    }
    RepeatsInflate(sha, w.inputs);
  }

  /** The failing input: one note given twice is accepted, and twice its value is created. */
  lemma RepeatedInputAccepted(sha: Hash, root: Digest, i: InputWitness, o: Opening, o': Opening)
    requires InputHolds(sha, root, i) && 2 * i.value < TWO_64
    requires WellFormed(o) && WellFormed(o') && o.value == o'.value == i.value
    ensures var w := Witness([i, i], [OutputWitness(o), OutputWitness(o')]);
            && Sound(sha, PublicInputs(root, 0, [Commit(sha, o), Commit(sha, o')]), w)
            && ValueOfNotes(NotesSpent(sha, w.inputs)) == i.value
            && OutputSum(w.outputs) == 2 * i.value
  {
    hide Commit, ProofRoot, DerivePublicKey;
    var inputs := [i, i];
    assert inputs[..1] == [i];
    OneInput(i);
    TwoOutputs(OutputWitness(o), OutputWitness(o'));
    var notes := NotesSpent(sha, inputs);
    assert inputs[0] == i;
    assert notes == {Spent(sha, i)} == {} + {Spent(sha, i)};
    ValueOfOneMore({}, Spent(sha, i));
  }

  /** The input opens a note of the tree, at its index when that is below the leaf count. */
  ghost predicate SpendsLeaf(sha: Hash, i: InputWitness, leaves: seq<NoteCommitment>) {
    && Commit(sha, Spent(sha, i)) in leaves
    && (i.proof.leafIndex < |leaves| ==> leaves[i.proof.leafIndex] == Commit(sha, Spent(sha, i)))
  }

  /** The amounts of an accepted transfer balance, each input counted as often as it is given; and accepted
      against the root of a tree it opens notes of that tree, for each input whose proof has no payload
      colliding with the tree's. */
  lemma AcceptedTransferSpendsTreeNotes(sha: Hash, p: PublicInputs, w: Witness, leaves: seq<NoteCommitment>)
    requires Sound(sha, p, w)
    ensures InputSum(w.inputs) == OutputSum(w.outputs) + p.fee
    ensures p.merkleRoot == NoteRoot(sha, leaves) ==>
              forall k :: 0 <= k < |w.inputs|
                          && CollisionFree(sha, NotePayloads(sha, leaves) + ProofPayloads(sha, w.inputs[k].proof))
                ==> SpendsLeaf(sha, w.inputs[k], leaves)
  {
    hide Commit, CollisionFree, NotePayloads, ProofPayloads, ProofRoot, NoteRoot, ProofAt, WellFormed;
    if p.merkleRoot == NoteRoot(sha, leaves) {
      forall k | 0 <= k < |w.inputs|
                 && CollisionFree(sha, NotePayloads(sha, leaves) + ProofPayloads(sha, w.inputs[k].proof))
        ensures SpendsLeaf(sha, w.inputs[k], leaves)
      {
        assert InputHolds(sha, p.merkleRoot, w.inputs[k]);
        VerifiesIffInTree(sha, leaves, w.inputs[k].proof);
      }
    }
  }
}
