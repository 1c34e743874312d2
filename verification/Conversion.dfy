/** Moving value between a public balance and anonymous notes (src/privacy/conversion.rs). */
module Conversion {
  import opened Bytes
  import opened Wrappers
  import opened Types
  import opened MerkleLevels
  import opened NoteMerkle
  import opened Notes

  datatype PublicToAnonRequest = PublicToAnonRequest(opening: Opening, viewingKey: Key, shardId: nat)

  datatype AnonToPublicRequest = AnonToPublicRequest(
    amount: U64,
    spendingKey: Key,
    blinding: Digest,
    proof: NoteMerkleProof)

  datatype PublicToAnonConversion = PublicToAnonConversion(
    account: Account, viewableNote: ViewableNote, merkleRoot: Digest)

  datatype AnonToPublicConversion = AnonToPublicConversion(
    account: Account, consumedCommitment: NoteCommitment, merkleRoot: Digest)

  datatype ConversionError =
    | ZeroAmount
    | InsufficientPublicBalance(balance: U64, required: U64)
    | ViewingHintMismatch
    | InvalidCreatedNote(reason: NoteError)
    | InvalidConsumedNote(reason: NoteError)
    | InvalidOwnershipProof
    | InvalidMerkleProof
    | MissingTrackedCommitment
    | MissingTreeCommitment
    | BalanceOverflow

  /** The opening of the note that a request consumes. */
  function Consumed(sha: Hash, request: AnonToPublicRequest): Opening {
    Opening(request.amount, DerivePublicKey(sha, request.spendingKey), request.blinding)
  }

  /** `position` then `remove`: drops the first occurrence. */
  function RemoveFirst<T(==)>(s: seq<T>, x: T): (r: seq<T>)
    ensures x in s ==> multiset(s) == multiset(r) + multiset{x}
    ensures x !in s ==> r == s
  {
    if s == [] then []
    else
      assert s == [s[0]] + s[1..];
      if s[0] == x then s[1..] else [s[0]] + RemoveFirst(s[1..], x)
  }

  /** Everything else stays in place and in order. */
  lemma {:induction false} RemoveFirstSplits<T>(s: seq<T>, x: T) returns (before: seq<T>, after: seq<T>)
    requires x in s
    ensures s == before + [x] + after && x !in before && RemoveFirst(s, x) == before + after
  {
    if s[0] == x {
      before, after := [], s[1..];
    } else {
      before, after := RemoveFirstSplits(s[1..], x);
      before := [s[0]] + before;
    }
  }

  lemma {:induction false} RemoveAppended<T>(s: seq<T>, x: T)
    requires x !in s
    ensures RemoveFirst(s + [x], x) == s
  {
    if s != [] {
      assert (s + [x])[1..] == s[1..] + [x];
      RemoveAppended(s[1..], x);
      assert s == [s[0]] + s[1..];
    }
  }

  function Credited(account: Account, viewingHint: Bytes, commitment: Bytes, amount: U64): Account
    requires amount <= account.balance
  {
    account.(balance := account.balance - amount,
             anonymousState := AnonymousAccountState(
               Some(viewingHint), account.anonymousState.noteCommitments + [commitment]))
  }

  function PublicToAnon(sha: Hash, account: Account, request: PublicToAnonRequest, existing: seq<NoteCommitment>)
    : Result<PublicToAnonConversion, ConversionError>
  {
    var amount := request.opening.value;
    if amount == 0 then Failure(ZeroAmount)
    else if account.balance < amount then Failure(InsufficientPublicBalance(account.balance, amount))
    else
      match NewViewableNote(sha, request.opening, request.viewingKey, request.shardId)
      case Failure(e) => Failure(InvalidCreatedNote(e))
      case Success(note) =>
        var hint := account.anonymousState.viewingHint;
        if hint.Some? && hint.value != note.viewingHint then Failure(ViewingHintMismatch)
        else Success(PublicToAnonConversion(
          Credited(account, note.viewingHint, note.commitment, amount), note,
          NoteRoot(sha, existing + [note.commitment])))
  }

  function Debited(account: Account, commitment: Bytes, amount: U64): Account
    requires account.balance + amount < TWO_64
  {
    var notes := RemoveFirst(account.anonymousState.noteCommitments, commitment);
    account.(balance := account.balance + amount,
             anonymousState := AnonymousAccountState(
               if notes == [] then None else account.anonymousState.viewingHint, notes))
  }

  function AnonToPublic(sha: Hash, account: Account, request: AnonToPublicRequest, current: seq<NoteCommitment>)
    : Result<AnonToPublicConversion, ConversionError>
  {
    if request.amount == 0 then Failure(ZeroAmount)
    else
      match NewNote(sha, Consumed(sha, request))
      case Failure(e) => Failure(InvalidConsumedNote(e))
      case Success(commitment) =>
        if request.proof.leaf != commitment then Failure(InvalidOwnershipProof)
        else if ProofRoot(sha, request.proof) != NoteRoot(sha, current) then Failure(InvalidMerkleProof)
        else if commitment !in account.anonymousState.noteCommitments then Failure(MissingTrackedCommitment)
        else if commitment !in current then Failure(MissingTreeCommitment)
        else if account.balance + request.amount >= TWO_64 then Failure(BalanceOverflow)
        else Success(AnonToPublicConversion(
          Debited(account, commitment, request.amount), commitment, NoteRoot(sha, RemoveFirst(current, commitment))))
  }

  method ConvertPublicToAnon(sha: Hash, account: Account, request: PublicToAnonRequest, existing: seq<NoteCommitment>)
    returns (r: Result<PublicToAnonConversion, ConversionError>)
    ensures r == PublicToAnon(sha, account, request, existing)
  {
    hide NoteRoot, Commit;
    if request.opening.value == 0 {
      return Failure(ZeroAmount);
    }
    if account.balance < request.opening.value {
      return Failure(InsufficientPublicBalance(account.balance, request.opening.value));
    }
    var created := NewViewableNote(sha, request.opening, request.viewingKey, request.shardId);
    if created.Failure? {
      return Failure(InvalidCreatedNote(created.error));
    }
    var note := created.value;
    var expectedHint := note.viewingHint;
    var currentHint := account.anonymousState.viewingHint;
    if currentHint.Some? && currentHint.value != expectedHint {
      return Failure(ViewingHintMismatch);
    }
    var updated := account;
    updated := updated.(balance := updated.balance - request.opening.value);
    var state := updated.anonymousState.(viewingHint := Some(expectedHint));
    state := state.(noteCommitments := state.noteCommitments + [note.commitment]);
    updated := updated.(anonymousState := state);
    var tree := new NoteMerkleTree.FromCommitments(existing + [note.commitment]);
    var root := tree.Root(sha);
    return Success(PublicToAnonConversion(updated, note, root));
  }

  method ConvertAnonToPublic(sha: Hash, account: Account, request: AnonToPublicRequest, current: seq<NoteCommitment>)
    returns (r: Result<AnonToPublicConversion, ConversionError>)
    ensures r == AnonToPublic(sha, account, request, current)
  {
    hide NoteRoot, Commit, ProofRoot;
    if request.amount == 0 {
      return Failure(ZeroAmount);
    }
    var note := NewNote(sha, Consumed(sha, request));
    if note.Failure? {
      return Failure(InvalidConsumedNote(note.error));
    }
    var commitment := note.value;
    if request.proof.leaf != commitment {
      return Failure(InvalidOwnershipProof);
    }
    var tree := new NoteMerkleTree.FromCommitments(current);
    var currentRoot := tree.Root(sha);
    var verified := NoteMerkleTree.VerifyProof(sha, currentRoot, request.proof);
    if !verified {
      return Failure(InvalidMerkleProof);
    }
    if commitment !in account.anonymousState.noteCommitments {
      return Failure(MissingTrackedCommitment);
    }
    if commitment !in current {
      return Failure(MissingTreeCommitment);
    }
    if account.balance + request.amount >= TWO_64 {
      return Failure(BalanceOverflow);
    }
    var updated := account.(balance := account.balance + request.amount);
    var state := updated.anonymousState;
    state := state.(noteCommitments := RemoveFirst(state.noteCommitments, commitment));
    if state.noteCommitments == [] {
      state := state.(viewingHint := None);
    }
    updated := updated.(anonymousState := state);
    var remaining := new NoteMerkleTree.FromCommitments(RemoveFirst(current, commitment));
    var root := remaining.Root(sha);
    return Success(AnonToPublicConversion(updated, commitment, root));
  }

  // ----- When a conversion succeeds -----

  /** Value can be hidden exactly when it is positive and covered by the balance, to the last unit, when
      recipient, blinding and viewing key are given, and when the account has no hint or the key's own. */
  lemma PublicToAnonSucceedsIff(sha: Hash, account: Account, request: PublicToAnonRequest, existing: seq<NoteCommitment>)
    ensures PublicToAnon(sha, account, request, existing).Success?
            <==> && 0 < request.opening.value <= account.balance
                 && request.opening.recipient != ZERO_KEY && request.opening.blinding != ZERO_KEY
                 && request.viewingKey != ZERO_KEY
                 && account.anonymousState.viewingHint in {None, Some(sha(VIEWING_TAG + request.viewingKey))}
  {
    hide NoteRoot, Commit;
  }

  /** What it leaves, field by field. */
  lemma PublicToAnonResult(sha: Hash, account: Account, request: PublicToAnonRequest, existing: seq<NoteCommitment>)
    requires PublicToAnon(sha, account, request, existing).Success?
    ensures var r, c := PublicToAnon(sha, account, request, existing).value, Commit(sha, request.opening);
            && r.account.balance == account.balance - request.opening.value
            && r.account.nonce == account.nonce && r.account.codeHash == account.codeHash
            && r.account.anonymousState.viewingHint == Some(sha(VIEWING_TAG + request.viewingKey))
            && r.account.anonymousState.noteCommitments == account.anonymousState.noteCommitments + [c]
            && r.viewableNote == ViewableNote(c, sha(VIEWING_TAG + request.viewingKey), request.shardId)
            && r.merkleRoot == NoteRoot(sha, existing + [c])
  {
    hide NoteRoot, Commit;
  }

  /** The error of a refused conversion: the first thing wrong, in the order of the checks. */
  lemma PublicToAnonErrors(sha: Hash, account: Account, request: PublicToAnonRequest, existing: seq<NoteCommitment>)
    ensures var r, o := PublicToAnon(sha, account, request, existing), request.opening;
            && (o.value == 0 ==> r == Failure(ZeroAmount))
            && (o.value > account.balance ==> r == Failure(InsufficientPublicBalance(account.balance, o.value)))
            && (0 < o.value <= account.balance ==>
                  && (o.recipient == ZERO_KEY ==> r == Failure(InvalidCreatedNote(InvalidRecipientPublicKey)))
                  && (o.recipient != ZERO_KEY && o.blinding == ZERO_KEY ==>
                        r == Failure(InvalidCreatedNote(InvalidBlinding)))
                  && (WellFormed(o) && request.viewingKey == ZERO_KEY ==>
                        r == Failure(InvalidCreatedNote(InvalidViewingKey)))
                  && (WellFormed(o) && request.viewingKey != ZERO_KEY && r.Failure? ==>
                        r == Failure(ViewingHintMismatch)))
  {
    hide NoteRoot, Commit;
  }

  /** A note can be spent to the public balance exactly when the key opens the proof's leaf, the proof leads to
      the tree's root, account and tree both list the note and the balance has room for its value. */
  lemma AnonToPublicSucceedsIff(sha: Hash, account: Account, request: AnonToPublicRequest, current: seq<NoteCommitment>)
    ensures var c := Commit(sha, Consumed(sha, request));
            AnonToPublic(sha, account, request, current).Success?
            <==> && request.amount > 0
                 && DerivePublicKey(sha, request.spendingKey) != ZERO_KEY && request.blinding != ZERO_KEY
                 && request.proof.leaf == c && ProofRoot(sha, request.proof) == NoteRoot(sha, current)
                 && c in account.anonymousState.noteCommitments && c in current
                 && account.balance + request.amount < TWO_64
  {
    hide NoteRoot, Commit, ProofRoot, DerivePublicKey, RemoveFirst;
  }

  /** What it leaves, field by field; `RemoveFirstSplits` says what removing leaves of a list. */
  lemma AnonToPublicResult(sha: Hash, account: Account, request: AnonToPublicRequest, current: seq<NoteCommitment>)
    requires AnonToPublic(sha, account, request, current).Success?
    ensures var r, c := AnonToPublic(sha, account, request, current).value, Commit(sha, Consumed(sha, request));
            && r.account.balance == account.balance + request.amount
            && r.account.nonce == account.nonce && r.account.codeHash == account.codeHash
            && r.account.anonymousState.noteCommitments == RemoveFirst(account.anonymousState.noteCommitments, c)
            && r.account.anonymousState.viewingHint
               == (if account.anonymousState.noteCommitments == [c] then None else account.anonymousState.viewingHint)
            && r.consumedCommitment == c
            && r.merkleRoot == NoteRoot(sha, RemoveFirst(current, c))
  {
    hide NoteRoot, Commit, ProofRoot, DerivePublicKey;
    var notes := account.anonymousState.noteCommitments;
    var before, after := RemoveFirstSplits(notes, Commit(sha, Consumed(sha, request)));
  }

  /** Only the owner spends a note: a successful spend of the note that `o` opened to the owner of `key` names
      that note's value and blinding and that very key. */
  lemma OnlyTheOwnerSpends(sha: Hash, account: Account, request: AnonToPublicRequest, current: seq<NoteCommitment>,
                           o: Opening, key: Key)
    requires AnonToPublic(sha, account, request, current).Success?
    requires request.proof.leaf == Commit(sha, o) && o.recipient == DerivePublicKey(sha, key)
    requires CollisionFree(sha, OpeningPayloads({o, Consumed(sha, request)}))
    requires CollisionFree(sha, {OWNER_TAG + key, OWNER_TAG + request.spendingKey})
    ensures request.amount == o.value && request.blinding == o.blinding && request.spendingKey == key
  {
    hide Commit, DerivePublicKey, CollisionFree, OpeningPayloads;
    AnonToPublicSucceedsIff(sha, account, request, current);
    CommitmentsBind(sha, {o, Consumed(sha, request)}, o, Consumed(sha, request));
    KeysBind(sha, key, request.spendingKey);
  }

  // ----- Round trip -----

  /** Value moved into a note that the account can spend always comes back, with the proof generated for the
      new leaf; when the commitment was new, account and tree root are as before. No property of `sha` is
      needed. */
  lemma RoundTrip(sha: Hash, account: Account, request: PublicToAnonRequest, existing: seq<NoteCommitment>,
                  spendingKey: Key)
    requires PublicToAnon(sha, account, request, existing).Success?
    requires request.opening.recipient == DerivePublicKey(sha, spendingKey)
    requires account.anonymousState.viewingHint.Some? <==> account.anonymousState.noteCommitments != []
    ensures var there := PublicToAnon(sha, account, request, existing).value;
            var commitment := there.viewableNote.commitment;
            var leaves := existing + [commitment];
            var back := AnonToPublic(sha, there.account,
              AnonToPublicRequest(request.opening.value, spendingKey, request.opening.blinding,
                                  ProofAt(sha, leaves, |existing|)), leaves);
            && back.Success?
            && (commitment !in existing && commitment !in account.anonymousState.noteCommitments ==>
                  back.value == AnonToPublicConversion(account, commitment, NoteRoot(sha, existing)))
  {
    hide NoteRoot, Commit, ProofRoot, ProofAt, ViewingHint, DerivePublicKey, RemoveFirst;
    var there := PublicToAnon(sha, account, request, existing).value;
    var commitment := there.viewableNote.commitment;
    var notes := account.anonymousState.noteCommitments;
    NewLeafProof(sha, existing, commitment);
    assert Opening(request.opening.value, DerivePublicKey(sha, spendingKey), request.opening.blinding)
        == request.opening;
    assert commitment in there.account.anonymousState.noteCommitments;
    if commitment !in existing && commitment !in notes {
      RemoveAppended(existing, commitment);
      RemoveAppended<Bytes>(notes, commitment);
      assert Debited(there.account, commitment, request.opening.value) == account;
    }
  }

  lemma NewLeafProof(sha: Hash, existing: seq<NoteCommitment>, commitment: NoteCommitment)
    ensures var leaves := existing + [commitment];
            var proof := ProofAt(sha, leaves, |existing|);
            proof.leaf == commitment && commitment in leaves && ProofRoot(sha, proof) == NoteRoot(sha, leaves)
  {
    hide NoteRoot, ProofRoot, Path, Height;
    var leaves := existing + [commitment];
    ProofsVerify(sha, leaves, |existing|);
    assert leaves[Shown(|leaves|, |existing|)] == commitment;
  }

  // ----- Runs -----

  datatype Step = ToAnon(create: PublicToAnonRequest) | ToPublic(spend: AnonToPublicRequest)

  /** One account and the tree it converts against. */
  datatype Ledger = Ledger(account: Account, commitments: seq<NoteCommitment>)

  function StepOpening(sha: Hash, step: Step): Opening {
    match step
    case ToAnon(create) => create.opening
    case ToPublic(spend) => Consumed(sha, spend)
  }

  predicate Succeeds(sha: Hash, l: Ledger, step: Step) {
    match step
    case ToAnon(create) => PublicToAnon(sha, l.account, create, l.commitments).Success?
    case ToPublic(spend) => AnonToPublic(sha, l.account, spend, l.commitments).Success?
  }

  /** A refused conversion changes nothing. */
  function Next(sha: Hash, l: Ledger, step: Step): Ledger {
    if !Succeeds(sha, l, step) then l
    else
      match step
      case ToAnon(create) =>
        var done := PublicToAnon(sha, l.account, create, l.commitments).value;
        Ledger(done.account, l.commitments + [done.viewableNote.commitment])
      case ToPublic(spend) =>
        var done := AnonToPublic(sha, l.account, spend, l.commitments).value;
        Ledger(done.account, RemoveFirst(l.commitments, done.consumedCommitment))
  }

  function Run(sha: Hash, l: Ledger, steps: seq<Step>): Ledger {
    if steps == [] then l else Next(sha, Run(sha, l, steps[..|steps| - 1]), steps[|steps| - 1])
  }

  /** The value behind a commitment, as far as `openings` tell. */
  ghost function ValueOf(sha: Hash, openings: set<Opening>, c: Bytes): nat {
    if exists o :: o in openings && Commit(sha, o) == c
    then (var o :| o in openings && Commit(sha, o) == c; o.value)
    else 0
  }

  ghost function TrackedValue(sha: Hash, openings: set<Opening>, notes: seq<Bytes>): nat {
    if notes == [] then 0 else ValueOf(sha, openings, notes[0]) + TrackedValue(sha, openings, notes[1..])
  }

  lemma KnownValue(sha: Hash, openings: set<Opening>, o: Opening)
    requires CollisionFree(sha, OpeningPayloads(openings)) && o in openings
    ensures ValueOf(sha, openings, Commit(sha, o)) == o.value
  {
    hide Commit, CollisionFree, OpeningPayloads;
    var p :| p in openings && Commit(sha, p) == Commit(sha, o)
             && ValueOf(sha, openings, Commit(sha, o)) == p.value;
    CommitmentsBind(sha, openings, o, p);
  }

  lemma {:induction false} TrackedAppend(sha: Hash, openings: set<Opening>, notes: seq<Bytes>, c: Bytes)
    ensures TrackedValue(sha, openings, notes + [c])
            == TrackedValue(sha, openings, notes) + ValueOf(sha, openings, c)
  {
    if notes != [] {
      assert (notes + [c])[1..] == notes[1..] + [c];
      TrackedAppend(sha, openings, notes[1..], c);
    }
  }

  lemma {:induction false} TrackedRemove(sha: Hash, openings: set<Opening>, notes: seq<Bytes>, c: Bytes)
    requires c in notes
    ensures TrackedValue(sha, openings, notes)
            == TrackedValue(sha, openings, RemoveFirst(notes, c)) + ValueOf(sha, openings, c)
  {
    if notes[0] != c {
      TrackedRemove(sha, openings, notes[1..], c);
    }
  }

  /** Public balance plus the value of the tracked notes. */
  ghost function Wealth(sha: Hash, openings: set<Opening>, l: Ledger): nat {
    l.account.balance + TrackedValue(sha, openings, l.account.anonymousState.noteCommitments)
  }

  lemma StepConservesWealth(sha: Hash, openings: set<Opening>, l: Ledger, step: Step)
    requires CollisionFree(sha, OpeningPayloads(openings)) && StepOpening(sha, step) in openings
    ensures Wealth(sha, openings, Next(sha, l, step)) == Wealth(sha, openings, l)
  {
    hide NoteRoot, Commit, ProofRoot, ViewingHint, DerivePublicKey, CollisionFree, OpeningPayloads, ValueOf;
    hide TrackedValue, RemoveFirst;
    if Succeeds(sha, l, step) {
      var notes := l.account.anonymousState.noteCommitments;
      var c := Commit(sha, StepOpening(sha, step));
      KnownValue(sha, openings, StepOpening(sha, step));
      if step.ToAnon? {
        TrackedAppend(sha, openings, notes, c);
      } else {
        TrackedRemove(sha, openings, notes, c);
      }
    }
  }

  ghost predicate OpenedBy(sha: Hash, steps: seq<Step>, openings: set<Opening>) {
    forall i :: 0 <= i < |steps| ==> StepOpening(sha, steps[i]) in openings
  }

  /** Any sequence of conversions, with commitments that bind, keeps public balance plus tracked value. */
  lemma {:induction false} RunsConserveWealth(sha: Hash, openings: set<Opening>, l: Ledger, steps: seq<Step>)
    requires CollisionFree(sha, OpeningPayloads(openings)) && OpenedBy(sha, steps, openings)
    ensures Wealth(sha, openings, Run(sha, l, steps)) == Wealth(sha, openings, l)
  {
    hide CollisionFree, OpeningPayloads, StepOpening, Wealth, Next;
    if steps != [] {
      var n := |steps| - 1;
      RunsConserveWealth(sha, openings, l, steps[..n]);
      StepConservesWealth(sha, openings, Run(sha, l, steps[..n]), steps[n]);
    }
  }

  /** Hence, when balance and notes together start within 64 bits, no conversion ever overflows. */
  lemma OverflowUnreachable(sha: Hash, openings: set<Opening>, l: Ledger, steps: seq<Step>,
                            spend: AnonToPublicRequest)
    requires CollisionFree(sha, OpeningPayloads(openings)) && OpenedBy(sha, steps, openings)
    requires Consumed(sha, spend) in openings && Wealth(sha, openings, l) < TWO_64
    ensures var now := Run(sha, l, steps);
            AnonToPublic(sha, now.account, spend, now.commitments) != Failure(BalanceOverflow)
  {
    hide NoteRoot, Commit, ProofRoot, DerivePublicKey, CollisionFree, OpeningPayloads, ValueOf, Run, OpenedBy;
    hide TrackedValue, RemoveFirst;
    var now := Run(sha, l, steps);
    RunsConserveWealth(sha, openings, l, steps);
    KnownValue(sha, openings, Consumed(sha, spend));
    if Commit(sha, Consumed(sha, spend)) in now.account.anonymousState.noteCommitments {
      TrackedRemove(sha, openings, now.account.anonymousState.noteCommitments, Commit(sha, Consumed(sha, spend)));
    }
  }

  /** While tree and proof payloads do not collide, a verified proof's note is in the tree, so the error for a
      commitment missing from it is unreachable. */
  lemma MissingTreeCommitmentUnreachable(sha: Hash, account: Account, spend: AnonToPublicRequest,
                                         current: seq<NoteCommitment>)
    requires CollisionFree(sha, NotePayloads(sha, current) + ProofPayloads(sha, spend.proof))
    ensures AnonToPublic(sha, account, spend, current) != Failure(MissingTreeCommitment)
  {
    hide NoteRoot, Commit, ProofRoot, DerivePublicKey, CollisionFree, NotePayloads, ProofPayloads, ProofAt;
    VerifiesIffInTree(sha, current, spend.proof);
  }

  /** How many successful steps of one kind a run has for commitment `c`. */
  function Count(sha: Hash, l: Ledger, steps: seq<Step>, c: NoteCommitment, creations: bool): nat {
    if steps == [] then 0
    else
      var n := |steps| - 1;
      Count(sha, l, steps[..n], c, creations)
      + if && steps[n].ToAnon? == creations
           && Succeeds(sha, Run(sha, l, steps[..n]), steps[n])
           && Commit(sha, StepOpening(sha, steps[n])) == c
        then 1 else 0
  }

  lemma StepCounts(sha: Hash, l: Ledger, step: Step, c: NoteCommitment)
    ensures var after := Next(sha, l, step);
            var hit := Succeeds(sha, l, step) && Commit(sha, StepOpening(sha, step)) == c;
            var made, used := if hit && step.ToAnon? then 1 else 0, if hit && step.ToPublic? then 1 else 0;
            && multiset(after.commitments)[c] + used == multiset(l.commitments)[c] + made
            && multiset(after.account.anonymousState.noteCommitments)[c] + used
               == multiset(l.account.anonymousState.noteCommitments)[c] + made
  {
    hide NoteRoot, Commit, ProofRoot, ViewingHint, DerivePublicKey, RemoveFirst;
  }

  /** For every commitment, over any run: spends plus what is tracked equals creations plus what was tracked,
      and likewise for the tree. */
  lemma {:induction false} RunsCount(sha: Hash, l: Ledger, steps: seq<Step>, c: NoteCommitment)
    ensures var now := Run(sha, l, steps);
            var made, used := Count(sha, l, steps, c, true), Count(sha, l, steps, c, false);
            && multiset(now.account.anonymousState.noteCommitments)[c] + used
               == multiset(l.account.anonymousState.noteCommitments)[c] + made
            && multiset(now.commitments)[c] + used == multiset(l.commitments)[c] + made
  {
    hide Next, Succeeds, Commit, StepOpening;
    if steps != [] {
      var n := |steps| - 1;
      RunsCount(sha, l, steps[..n], c);
      StepCounts(sha, Run(sha, l, steps[..n]), steps[n], c);
    }
  }
}
