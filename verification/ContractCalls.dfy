/** Contract execution with buffered storage writes (src/vm/mod.rs), against the same program writing
    straight through (src/storage/mod.rs). */
module ContractCalls {
  import opened Bytes
  import opened Wrappers
  import opened Keys
  import opened Storage
  import opened StorageRuns
  import opened Database

  /** What a contract does next at the host interface. */
  datatype Action = Done | Trap | Set(key: Bytes, value: Bytes) | Get(key: Bytes)

  /** A Wasm instance as the host sees it: its next action follows from the answers it got so far. A write is
      answered by `None`. Every call costs fuel, and running out traps. */
  type Code = seq<Option<Bytes>> -> Action

  datatype CallError =
    | BlankMethod
    | NoContract(error: StorageError)
    | ZeroFuel
    | MissingAddress
    | NotAContractAccount
    | Trapped
    | CommitFailed(error: StorageError)

  /** `require_contract_account`. */
  function RequireContractAccount(codec: Codec, db: Db, address: Bytes): Result<(), CallError> {
    if address == [] then Failure(MissingAddress)
    else
      match GetAccount(codec, db, address)
      case Failure(e) => Failure(NoContract(e))
      case Success(None) => Failure(NotAContractAccount)
      case Success(Some(account)) =>
        if account.codeHash.None? then Failure(NotAContractAccount) else Success(())
  }

  /** A read sees the buffer first and then the database. */
  function StagedGet(codec: Codec, db: Db, address: Bytes, staged: map<Bytes, Bytes>, key: Bytes)
    : Result<Option<Bytes>, CallError>
  {
    match RequireContractAccount(codec, db, address)
    case Failure(e) => Failure(e)
    case Success(_) =>
      if key in staged then Success(Some(staged[key]))
      else
        match GetSlot(codec, db, address, key)
        case Failure(e) => Failure(NoContract(e))
        case Success(v) => Success(v)
  }

  /** How a run ended, with what it left and the answers it saw. */
  datatype Ended<S> = Ended(finished: bool, state: S, answers: seq<Option<Bytes>>)

  /** A buffered run: the database is only read. */
  function RunStaged(codec: Codec, db: Db, address: Bytes, code: Code, staged: map<Bytes, Bytes>,
                     answers: seq<Option<Bytes>>, fuel: nat): Ended<map<Bytes, Bytes>>
    decreases fuel
  {
    if fuel == 0 then Ended(false, staged, answers)
    else
      match code(answers)
      case Done => Ended(true, staged, answers)
      case Trap => Ended(false, staged, answers)
      case Set(key, value) =>
        if RequireContractAccount(codec, db, address).Failure? then Ended(false, staged, answers)
        else RunStaged(codec, db, address, code, staged[key := value], answers + [None], fuel - 1)
      case Get(key) =>
        match StagedGet(codec, db, address, staged, key)
        case Failure(_) => Ended(false, staged, answers)
        case Success(v) => RunStaged(codec, db, address, code, staged, answers + [v], fuel - 1)
  }

  /** The reference: every write goes to the database at once. */
  ghost function RunDirect(sha: Hash, codec: Codec, db: Db, address: Bytes, code: Code,
                           answers: seq<Option<Bytes>>, fuel: nat): Ended<Db>
    decreases fuel
  {
    if fuel == 0 then Ended(false, db, answers)
    else
      match code(answers)
      case Done => Ended(true, db, answers)
      case Trap => Ended(false, db, answers)
      case Set(key, value) =>
        var after := SetSlot(sha, codec, db, address, key, value);
        if RequireContractAccount(codec, db, address).Failure? || after.Failure? then Ended(false, db, answers)
        else RunDirect(sha, codec, after.value, address, code, answers + [None], fuel - 1)
      case Get(key) =>
        var v := GetSlot(codec, db, address, key);
        if RequireContractAccount(codec, db, address).Failure? || v.Failure? then Ended(false, db, answers)
        else RunDirect(sha, codec, db, address, code, answers + [v.value], fuel - 1)
  }

  /** `execute_contract_call` on the database: run buffered, then commit or discard. */
  ghost function Execute(sha: Hash, codec: Codec, db: Db, address: Bytes, blankMethod: bool, code: Code, fuel: nat)
    : Result<Db, CallError>
  {
    if blankMethod then Failure(BlankMethod)
    else
      var contract := ExistingContract(codec, db, address);
      var account := RequireContractAccount(codec, db, address);
      if contract.Failure? then Failure(NoContract(contract.error))
      else if fuel == 0 then Failure(ZeroFuel)
      else if account.Failure? then Failure(account.error)
      else
        var ended := RunStaged(codec, db, address, code, map[], [], fuel);
        if !ended.finished then Failure(Trapped)
        else
          match CommitBatch(sha, codec, db, address, ended.state)
          case Failure(e) => Failure(CommitFailed(e))
          case Success(after) => Success(after)
  }

  /** While `staged` is the buffer over `db`, this is what the direct run has in its database. */
  ghost function Committed(sha: Hash, codec: Codec, db: Db, address: Bytes, staged: map<Bytes, Bytes>): Db
    requires ExistingContract(codec, db, address).Success?
  {
    BatchSucceeds(sha, codec, db, address, staged);
    CommitBatch(sha, codec, db, address, staged).value
  }

  /** The committed database answers every host call as buffer and database together do. */
  lemma CommittedAnswers(sha: Hash, codec: Codec, db: Db, address: Bytes, staged: map<Bytes, Bytes>, key: Bytes)
    requires codec.RoundTrips() && ExistingContract(codec, db, address).Success?
    requires RequireContractAccount(codec, db, address).Success?
    ensures var after := Committed(sha, codec, db, address, staged);
            && RequireContractAccount(codec, after, address).Success?
            && ExistingContract(codec, after, address).Success?
            && GetSlot(codec, after, address, key).Success?
            && StagedGet(codec, db, address, staged, key) == Success(GetSlot(codec, after, address, key).value)
  {
    hide PutAll, StorageKey, ContractKey, AccountKey, SlotsRoot, SlotsOf;
    KindsSeparate(address, address, key);
    PutKeepsRecords(db, address, staged, address);
    PutAllSlot(db, address, staged, key);
  }

  /** From any point of a run on, buffered and direct execution stay in step. */
  lemma {:induction false} RunsStayInStep(sha: Hash, codec: Codec, db: Db, address: Bytes, code: Code,
                                          staged: map<Bytes, Bytes>, answers: seq<Option<Bytes>>, fuel: nat)
    requires codec.RoundTrips() && ExistingContract(codec, db, address).Success?
    requires RequireContractAccount(codec, db, address).Success?
    ensures var buffered := RunStaged(codec, db, address, code, staged, answers, fuel);
            var direct := RunDirect(sha, codec, Committed(sha, codec, db, address, staged), address, code,
                                    answers, fuel);
            && buffered.finished == direct.finished && buffered.answers == direct.answers
            && direct.state == Committed(sha, codec, db, address, buffered.state)
    decreases fuel
  {
    hide Committed, RequireContractAccount, ExistingContract, GetSlot, SetSlot, StagedGet;
    if fuel > 0 {
      match code(answers)
      case Done =>
      case Trap =>
      case Set(key, value) =>
        CommittedAnswers(sha, codec, db, address, staged, key);
        SetCommitted(sha, codec, db, address, staged, key, value);
        RunsStayInStep(sha, codec, db, address, code, staged[key := value], answers + [None], fuel - 1);
      case Get(key) =>
        CommittedAnswers(sha, codec, db, address, staged, key);
        var v := GetSlot(codec, Committed(sha, codec, db, address, staged), address, key).value;
        RunsStayInStep(sha, codec, db, address, code, staged, answers + [v], fuel - 1);
    }
  }

  lemma SetCommitted(sha: Hash, codec: Codec, db: Db, address: Bytes, staged: map<Bytes, Bytes>,
                     key: Bytes, value: Bytes)
    requires codec.RoundTrips() && ExistingContract(codec, db, address).Success?
    ensures SetSlot(sha, codec, Committed(sha, codec, db, address, staged), address, key, value)
            == Success(Committed(sha, codec, db, address, staged[key := value]))
  {
    hide SetSlot, ExistingContract, CommitBatch;
    BatchSucceeds(sha, codec, db, address, staged);
    BatchSucceeds(sha, codec, db, address, staged[key := value]);
    SetAfterBatch(sha, codec, db, address, staged, key, value);
  }

  /** Buffered execution refines write-through, for every contract and every fuel: the same answers to every
      read, the same end, and after a finished run the same database, slots and storage root included. A run
      that traps at any point fails, whatever it wrote before. */
  lemma BufferedRefinesDirect(sha: Hash, codec: Codec, db: Db, address: Bytes, code: Code, fuel: nat)
    requires codec.RoundTrips() && ExistingContract(codec, db, address).Success? && fuel > 0
    requires RequireContractAccount(codec, db, address).Success?
    ensures var buffered := RunStaged(codec, db, address, code, map[], [], fuel);
            var direct := RunDirect(sha, codec, db, address, code, [], fuel);
            && buffered.finished == direct.finished && buffered.answers == direct.answers
            && Execute(sha, codec, db, address, false, code, fuel)
               == if direct.finished then Success(direct.state) else Failure(Trapped)
  {
    hide RunStaged, RunDirect, CommitBatch, ExistingContract, RequireContractAccount;
    RunsStayInStep(sha, codec, db, address, code, map[], [], fuel);
    EmptyBatch(sha, codec, db, address);
    BatchSucceeds(sha, codec, db, address, RunStaged(codec, db, address, code, map[], [], fuel).state);
  }

  /** A call to one contract leaves every other contract with an address of that length as it was. */
  lemma CallTouchesOneContract(sha: Hash, codec: Codec, db: Db, address: Bytes, code: Code, fuel: nat, other: Bytes)
    requires |address| == |other| && address != other
    ensures match Execute(sha, codec, db, address, false, code, fuel)
            case Failure(_) => true
            case Success(after) =>
              && SlotsOf(after, other) == SlotsOf(db, other)
              && GetContract(codec, after, other) == GetContract(codec, db, other)
              && GetAccount(codec, after, other) == GetAccount(codec, db, other)
  {
    hide RunStaged, CommitBatch, ExistingContract, RequireContractAccount, SlotsOf, GetContract, GetAccount;
    if Execute(sha, codec, db, address, false, code, fuel).Success? {
      var ended := RunStaged(codec, db, address, code, map[], [], fuel);
      BatchTouchesOneContract(sha, codec, db, address, ended.state, other);
    }
  }

  class WasmVM {
    const contractAddress: Bytes
    var stagedStorageWrites: map<Bytes, Bytes>

    constructor WithContext(contractAddress: Bytes)
      ensures this.contractAddress == contractAddress && stagedStorageWrites == map[]
    {
      this.contractAddress := contractAddress;
      stagedStorageWrites := map[];
    }

    method SetStorage(storage: RocksDbStorage, key: Bytes, value: Bytes) returns (r: Result<(), CallError>)
      modifies this
      ensures r == RequireContractAccount(storage.codec, storage.db, contractAddress)
      ensures stagedStorageWrites
              == if r.Success? then old(stagedStorageWrites)[key := value] else old(stagedStorageWrites)
    {
      r := RequireContractAccount(storage.codec, storage.db, contractAddress);
      if r.Failure? {
        return;
      }
      stagedStorageWrites := stagedStorageWrites[key := value];
    }

    method GetStorage(storage: RocksDbStorage, key: Bytes) returns (r: Result<Option<Bytes>, CallError>)
      ensures r == StagedGet(storage.codec, storage.db, contractAddress, stagedStorageWrites, key)
    {
      var ready := RequireContractAccount(storage.codec, storage.db, contractAddress);
      if ready.Failure? {
        return Failure(ready.error);
      }
      if key in stagedStorageWrites {
        return Success(Some(stagedStorageWrites[key]));
      }
      var stored := storage.GetContractStorage(contractAddress, key);
      if stored.Failure? {
        return Failure(NoContract(stored.error));
      }
      return Success(stored.value);
    }

    /** Serves the host calls of one run. */
    method Call(storage: RocksDbStorage, code: Code, fuel: nat) returns (finished: bool)
      modifies this
      ensures var ended := RunStaged(storage.codec, storage.db, contractAddress, code,
                                     old(stagedStorageWrites), [], fuel);
              finished == ended.finished && stagedStorageWrites == ended.state
    {
      hide RequireContractAccount, StagedGet;
      var answers: seq<Option<Bytes>> := [];
      var left := fuel;
      ghost var ended := RunStaged(storage.codec, storage.db, contractAddress, code, stagedStorageWrites, [], fuel);
      while left > 0
        invariant RunStaged(storage.codec, storage.db, contractAddress, code, stagedStorageWrites, answers, left)
                  == ended
        decreases left
      {
        left := left - 1;
        match code(answers) {
          case Done =>
            return true;
          case Trap =>
            return false;
          case Set(key, value) =>
            var done := SetStorage(storage, key, value);
            if done.Failure? {
              return false;
            }
            answers := answers + [None];
          case Get(key) =>
            var v := GetStorage(storage, key);
            if v.Failure? {
              return false;
            }
            answers := answers + [v.value];
        }
      }
      return false;
    }

    method TakeStagedStorageWrites() returns (writes: map<Bytes, Bytes>)
      modifies this
      ensures writes == old(stagedStorageWrites) && stagedStorageWrites == map[]
    {
      writes := stagedStorageWrites;
      stagedStorageWrites := map[];
    }
  }

  /** Runs on a fresh machine; only a finished run reaches the database, in one batch. */
  method ExecuteContractCall(storage: RocksDbStorage, address: Bytes, blankMethod: bool, code: Code, fuel: nat)
    returns (r: Result<(), CallError>)
    modifies storage`db
    ensures match Execute(storage.sha, storage.codec, old(storage.db), address, blankMethod, code, fuel)
            case Failure(e) => r == Failure(e) && storage.db == old(storage.db)
            case Success(after) => r == Success(()) && storage.db == after
  {
    hide RunStaged, CommitBatch, ExistingContract, RequireContractAccount;
    if blankMethod {
      return Failure(BlankMethod);
    }
    var contract := ExistingContract(storage.codec, storage.db, address);
    if contract.Failure? {
      return Failure(NoContract(contract.error));
    }
    if fuel == 0 {
      return Failure(ZeroFuel);
    }
    var account := RequireContractAccount(storage.codec, storage.db, address);
    if account.Failure? {
      return Failure(account.error);
    }
    var vm := new WasmVM.WithContext(address);
    var finished := vm.Call(storage, code, fuel);
    if !finished {
      return Failure(Trapped);
    }
    var writes := vm.TakeStagedStorageWrites();
    var committed := storage.CommitContractStorageBatch(address, writes);
    if committed.Failure? {
      return Failure(CommitFailed(committed.error));
    }
    return Success(());
  }
}
