/** What a deployment leaves, and what every later operation keeps of it (src/storage/mod.rs, src/vm/mod.rs). */
module Deployments {
  import opened Bytes
  import opened Wrappers
  import opened Types
  import opened Keys
  import opened Storage
  import opened StorageRuns
  import opened ContractCalls

  /** A deployment succeeds exactly for a sender and a code that are not empty and a derived address under
      which neither an account nor a contract is stored; the arguments are checked first. */
  lemma DeployExact(sha: Hash, codec: Codec, db: Db, sender: Bytes, code: Bytes)
    ensures var r := Deploy(sha, codec, db, sender, code);
            var address := DerivedAddress(sha, sender, code);
            && (r.Success?
                <==> sender != [] && code != [] && AccountKey(address) !in db && ContractKey(address) !in db)
            && (r == Failure(EmptySender) <==> sender == [])
            && (r == Failure(EmptyCode) <==> sender != [] && code == [])
  {
    hide DerivedAddress, AccountKey, ContractKey;
  }

  /** After a deployment the contract has its code, no slots and an empty root, and its account is a contract
      account with nothing on it; all other contracts and accounts are as before. */
  lemma DeployedState(sha: Hash, codec: Codec, db: Db, sender: Bytes, code: Bytes)
    requires codec.RoundTrips() && Deploy(sha, codec, db, sender, code).Success?
    ensures var after := Deploy(sha, codec, db, sender, code).value;
            var address := DerivedAddress(sha, sender, code);
            && GetContract(codec, after, address) == Success(Some(Contract(code, sha([]))))
            && GetAccount(codec, after, address)
               == Success(Some(Account(0, 0, Some(sha(code)), AnonymousAccountState(None, []))))
            && RequireContractAccount(codec, after, address) == Success(())
            && forall other :: other != address ==>
                 && GetContract(codec, after, other) == GetContract(codec, db, other)
                 && GetAccount(codec, after, other) == GetAccount(codec, db, other)
  {
    hide DerivedAddress, ContractKey, AccountKey;
    var after := Deploy(sha, codec, db, sender, code).value;
    var address := DerivedAddress(sha, sender, code);
    KindsSeparate(address, address, []);
    forall other | other != address
      ensures GetContract(codec, after, other) == GetContract(codec, db, other)
      ensures GetAccount(codec, after, other) == GetAccount(codec, db, other)
    {
      KindsSeparate(address, other, []);
      KindsSeparate(other, address, []);
      AccountKeysSeparate(address, other);
    }
  }

  lemma AccountKeysSeparate(a: Bytes, b: Bytes)
    ensures AccountKey(a) == AccountKey(b) <==> a == b
  {
    assert AccountKey(a)[2..] == a && AccountKey(b)[2..] == b;
  }

  ghost function DeployPayload(sha: Hash, sender: Bytes, code: Bytes): Bytes {
    DEPLOY_TAG + sender + sha(code)
  }

  /** While the payloads hashed do not collide, different senders or different codes get different addresses. */
  lemma AddressesBind(sha: Hash, sender: Bytes, code: Bytes, sender': Bytes, code': Bytes)
    requires CollisionFree(sha, {code, code', DeployPayload(sha, sender, code), DeployPayload(sha, sender', code')})
    ensures DerivedAddress(sha, sender, code) == DerivedAddress(sha, sender', code')
            <==> sender == sender' && code == code'
  {
    var p, q := DeployPayload(sha, sender, code), DeployPayload(sha, sender', code');
    if p == q {
      var n := |DEPLOY_TAG| + |sender|;
      assert sender == p[|DEPLOY_TAG|..n] && sha(code) == p[n..];
      assert sender' == q[|DEPLOY_TAG|..n] && sha(code') == q[n..];
    }
  }

  // ----- What later operations keep -----

  /** The contract is still there with this code. */
  ghost predicate HasCode(codec: Codec, db: Db, address: Bytes, code: Bytes) {
    var contract := GetContract(codec, db, address);
    contract.Success? && contract.value.Some? && contract.value.value.codeWasm == code
  }

  /** A batch changes no contract's code and no account. */
  lemma BatchKeepsCode(sha: Hash, codec: Codec, db: Db, address: Bytes, writes: map<Bytes, Bytes>, a: Bytes, code: Bytes)
    requires codec.RoundTrips() && CommitBatch(sha, codec, db, address, writes).Success?
    ensures var after := CommitBatch(sha, codec, db, address, writes).value;
            && (HasCode(codec, db, a, code) ==> HasCode(codec, after, a, code))
            && GetAccount(codec, after, a) == GetAccount(codec, db, a)
  {
    hide PutAll, ContractKey, AccountKey, SlotsRoot, SlotsOf;
    PutKeepsRecords(db, address, writes, a);
    KindsSeparate(address, a, []);
    KindsSeparate(a, address, []);
  }

  /** So does a single write. */
  lemma SetKeepsCode(sha: Hash, codec: Codec, db: Db, address: Bytes, key: Bytes, value: Bytes, a: Bytes, code: Bytes)
    requires codec.RoundTrips() && SetSlot(sha, codec, db, address, key, value).Success?
    ensures var after := SetSlot(sha, codec, db, address, key, value).value;
            && (HasCode(codec, db, a, code) ==> HasCode(codec, after, a, code))
            && GetAccount(codec, after, a) == GetAccount(codec, db, a)
  {
    hide SetSlot, CommitBatch, HasCode, GetAccount;
    SetIsBatch(sha, codec, db, address, key, value);
    BatchKeepsCode(sha, codec, db, address, map[key := value], a, code);
  }

  /** And so does a finished call, whatever the contract does. */
  lemma CallKeepsCode(
    sha: Hash, codec: Codec, db: Db, address: Bytes, behaviour: ContractCalls.Code, fuel: nat, a: Bytes, code: Bytes)
    requires codec.RoundTrips()
    ensures match Execute(sha, codec, db, address, false, behaviour, fuel)
            case Failure(_) => true
            case Success(after) =>
              && (HasCode(codec, db, a, code) ==> HasCode(codec, after, a, code))
              && GetAccount(codec, after, a) == GetAccount(codec, db, a)
  {
    hide CommitBatch, HasCode, GetAccount, RunStaged, ExistingContract, RequireContractAccount;
    var ended := RunStaged(codec, db, address, behaviour, map[], [], fuel);
    if CommitBatch(sha, codec, db, address, ended.state).Success? {
      BatchKeepsCode(sha, codec, db, address, ended.state, a, code);
    }
  }

  lemma OperationKeepsCode(sha: Hash, codec: Codec, db: Db, op: Op, a: Bytes, code: Bytes)
    requires codec.RoundTrips() && HasCode(codec, db, a, code) && Attempt(sha, codec, db, op).Success?
    ensures HasCode(codec, Attempt(sha, codec, db, op).value, a, code)
  {
    hide CommitBatch, SetSlot, Deploy, DerivedAddress;
    match op
    case DeployContract(sender, wasm) =>
      DeployExact(sha, codec, db, sender, wasm);
      DeployedState(sha, codec, db, sender, wasm);
    case SetOne(address, key, value) =>
      SetKeepsCode(sha, codec, db, address, key, value, a, code);
    case SetMany(address, writes) =>
      BatchKeepsCode(sha, codec, db, address, writes, a, code);
    case PutOther(key, value) =>
      if OtherKind(key) {
        OtherKindsApart(key, a, []);
      }
  }

  /** Over every run, deployed code stays: no later deployment, write or record replaces it. */
  lemma {:induction false} RunsKeepCode(
    sha: Hash, codec: Codec, ops: seq<Op>, more: seq<Op>, a: Bytes, code: Bytes)
    requires codec.RoundTrips() && HasCode(codec, Run(sha, codec, ops), a, code)
    ensures HasCode(codec, Run(sha, codec, ops + more), a, code)
  {
    hide HasCode, Attempt;
    if more == [] {
      assert ops + more == ops;
    } else {
      var n := |more| - 1;
      var all := ops + more;
      assert all[..|all| - 1] == ops + more[..n] && all[|all| - 1] == more[n];
      RunsKeepCode(sha, codec, ops, more[..n], a, code);
      var before := Run(sha, codec, ops + more[..n]);
      if Attempt(sha, codec, before, more[n]).Success? {
        OperationKeepsCode(sha, codec, before, more[n], a, code);
      }
    }
  }

  // ----- Calling what was deployed -----

  /** A read after a write sees it, and reads of other slots see what they saw before. */
  lemma SetThenGet(sha: Hash, codec: Codec, db: Db, address: Bytes, key: Bytes, value: Bytes, other: Bytes)
    requires codec.RoundTrips() && SetSlot(sha, codec, db, address, key, value).Success?
    ensures var after := SetSlot(sha, codec, db, address, key, value).value;
            GetSlot(codec, after, address, other)
            == if other == key then Success(Some(value)) else GetSlot(codec, db, address, other)
  {
    hide StoragePrefix, ContractKey, SlotsRoot, SlotsOf;
    KindsSeparate(address, address, key);
    KindsSeparate(address, address, other);
    StorageKeyParts(address, key);
    StorageKeyParts(address, other);
  }

  /** Whatever is deployed can be called at once: the call is never refused, and ends as the direct execution of
      the contract on the deployed state does. */
  lemma DeployedIsCallable(
    sha: Hash, codec: Codec, db: Db, sender: Bytes, code: Bytes, behaviour: ContractCalls.Code, fuel: nat)
    requires codec.RoundTrips() && Deploy(sha, codec, db, sender, code).Success? && fuel > 0
    ensures var after := Deploy(sha, codec, db, sender, code).value;
            var address := DerivedAddress(sha, sender, code);
            var direct := RunDirect(sha, codec, after, address, behaviour, [], fuel);
            Execute(sha, codec, after, address, false, behaviour, fuel)
            == if direct.finished then Success(direct.state) else Failure(Trapped)
  {
    hide Deploy, DerivedAddress, Execute, RunDirect, RequireContractAccount;
    DeployedState(sha, codec, db, sender, code);
    BufferedRefinesDirect(sha, codec, Deploy(sha, codec, db, sender, code).value,
                          DerivedAddress(sha, sender, code), behaviour, fuel);
  }

  /** Writes one slot and finishes. */
  function WriteOnce(key: Bytes, value: Bytes): ContractCalls.Code {
    (answers: seq<Option<Bytes>>) => if answers == [] then Set(key, value) else Done
  }

  /** A contract that writes one slot and finishes leaves what a direct write leaves, and fuel for both host
      steps and the end is enough. */
  lemma WriteOnceCommits(sha: Hash, codec: Codec, db: Db, address: Bytes, key: Bytes, value: Bytes, fuel: nat)
    requires codec.RoundTrips() && fuel >= 2
    requires ExistingContract(codec, db, address).Success? && RequireContractAccount(codec, db, address).Success?
    ensures Execute(sha, codec, db, address, false, WriteOnce(key, value), fuel)
            == Success(SetSlot(sha, codec, db, address, key, value).value)
  {
    hide SetSlot, CommitBatch, ExistingContract, RequireContractAccount;
    var ended := RunStaged(codec, db, address, WriteOnce(key, value), map[], [], fuel);
    var rest := RunStaged(codec, db, address, WriteOnce(key, value), map[][key := value], [None], fuel - 1);
    assert rest == Ended(true, map[][key := value], [None]);
    var noAnswers: seq<Option<Bytes>> := [];
    assert noAnswers + [None] == [None];
    assert ended == rest;
    SetIsBatch(sha, codec, db, address, key, value);
    assert map[][key := value] == map[key := value];
    BatchSucceeds(sha, codec, db, address, map[key := value]);
  }

  /** A call with a method name and fuel is refused before it runs exactly when there is no readable contract
      or no readable contract account at the address. */
  lemma CallRefusedIff(sha: Hash, codec: Codec, db: Db, address: Bytes, blankMethod: bool, behaviour: ContractCalls.Code,
                       fuel: nat)
    ensures var r := Execute(sha, codec, db, address, blankMethod, behaviour, fuel);
            && (blankMethod <==> r == Failure(BlankMethod))
            && (r == Failure(ZeroFuel) <==> !blankMethod && ExistingContract(codec, db, address).Success? && fuel == 0)
            && (r == Failure(MissingAddress) || r == Failure(NotAContractAccount)
                || (r.Failure? && r.error.NoContract?)
                <==> && !blankMethod
                     && (ExistingContract(codec, db, address).Failure?
                         || (fuel > 0 && RequireContractAccount(codec, db, address).Failure?)))
  {
    hide RunStaged, CommitBatch, ExistingContract, GetAccount;
  }

  /** An account is a contract account exactly when it is stored, readable and has a code hash. */
  lemma ContractAccountExact(codec: Codec, db: Db, address: Bytes)
    ensures RequireContractAccount(codec, db, address).Success?
            <==> && address != []
                 && GetAccount(codec, db, address).Success? && GetAccount(codec, db, address).value.Some?
                 && GetAccount(codec, db, address).value.value.codeHash.Some?
  {
    hide GetAccount;
  }
}
