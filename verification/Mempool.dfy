/** The partitioned mempool: block building over the partitions, and whole runs of senders, takers and
    partition tasks (src/consensus/mod.rs). */
module Mempool {
  import opened Bytes
  import opened Types
  import opened PartitionTask

  /** The `fold` over the address, with its wrapping arithmetic. */
  function AddressHash(address: Bytes): U64 {
    if address == [] then 0
    else
      var n := |address| - 1;
      (AddressHash(address[..n]) * 31 + (address[n] as int)) % TWO_64
  }

  function PartitionFor(address: Bytes, count: nat): (r: nat)
    requires count > 0
    ensures r < count
  {
    if address == [] then 0 else AddressHash(address) % count
  }

  function Power31(n: nat): nat {
    if n == 0 then 1 else 31 * Power31(n - 1)
  }

  /** The address as a number in base 31, first byte highest. */
  function Base31(address: Bytes): nat {
    if address == [] then 0 else (address[0] as int) * Power31(|address| - 1) + Base31(address[1..])
  }

  lemma {:induction false} Base31Snoc(address: Bytes, last: Byte)
    ensures Base31(address + [last]) == 31 * Base31(address) + (last as int)
  {
    if address == [] {
      assert [] + [last] == [last] && [last][1..] == [];
      assert Power31(0) == 1 && Base31([]) == 0;
    } else {
      var b, n := address[0] as int, |address| - 1;
      assert (address + [last])[1..] == address[1..] + [last];
      Base31Snoc(address[1..], last);
      TimesThirtyOne(b, Power31(n));
    }
  }

  lemma TimesThirtyOne(b: int, p: int)
    ensures b * (31 * p) == 31 * (b * p)
  {
  }

  lemma WrapFold(a: nat, b: nat)
    ensures (a % TWO_64 * 31 + b) % TWO_64 == (31 * a + b) % TWO_64
  {
  }

  /** The wrapping fold is that number modulo 2^64, so every byte of the address counts. */
  lemma {:induction false} AddressHashIsBase31(address: Bytes)
    ensures AddressHash(address) == Base31(address) % TWO_64
  {
    if address != [] {
      var n := |address| - 1;
      AddressHashIsBase31(address[..n]);
      assert address == address[..n] + [address[n]];
      Base31Snoc(address[..n], address[n]);
      WrapFold(Base31(address[..n]), address[n] as int);
    }
  }

  /** One-byte addresses are spread over all partitions. */
  lemma OneByteAddresses(b: Byte, count: nat)
    requires count > 0
    ensures PartitionFor([b], count) == (b as int) % count
    ensures PartitionFor([], count) == 0
  {
    hide AddressHash;
    OneByteHash(b);
  }

  lemma OneByteHash(b: Byte)
    ensures AddressHash([b]) == b as int
  {
    assert [b][..0] == [];
    assert AddressHash([]) == 0;
  }

  type Pools = seq<seq<Transaction>>

  /** Every transaction waits in the partition of its sender. */
  ghost predicate Routed(pools: Pools) {
    |pools| > 0
    && forall i, t :: 0 <= i < |pools| && t in pools[i] ==> PartitionFor(t.from, |pools|) == i
  }

  lemma RoutedUpdate(pools: Pools, i: nat, pool: seq<Transaction>)
    requires Routed(pools) && i < |pools|
    requires forall t :: t in pool ==> PartitionFor(t.from, |pools|) == i
    ensures Routed(pools[i := pool])
  {
  }

  lemma RoutedShrink(pools: Pools, i: nat, pool: seq<Transaction>)
    requires Routed(pools) && i < |pools|
    requires forall t :: t in pool ==> t in pools[i]
    ensures Routed(pools[i := pool])
  {
    RoutedUpdate(pools, i, pool);
  }

  /** The block that `take_for_block` builds: partitions in order, each asked for the room still left. */
  function Block(pools: Pools, max: nat): (r: seq<Transaction>)
    ensures |r| <= max
  {
    if pools == [] then []
    else
      var n := |pools| - 1;
      var before := Block(pools[..n], max);
      SelectionBounds(pools[n], max - |before|, []);
      before + Selected(pools[n], max - |before|)
  }

  /** What each partition keeps. */
  function Rest(pools: Pools, max: nat): (r: Pools)
    ensures |r| == |pools|
  {
    if pools == [] then []
    else
      var n := |pools| - 1;
      Rest(pools[..n], max) + [Left(pools[n], max - |Block(pools[..n], max)|)]
  }

  function Total(pools: Pools): nat {
    if pools == [] then 0 else Total(pools[..|pools| - 1]) + |pools[|pools| - 1]|
  }

  lemma {:induction false} SelectedWithout(pending: seq<Transaction>, max: nat, sender: Bytes)
    requires forall t :: t in pending ==> t.from != sender
    ensures Of(Selected(pending, max), sender) == []
  {
    if pending != [] {
      var n := |pending| - 1;
      SelectedWithout(pending[..n], max, sender);
      OfLast(Selected(pending[..n], max), pending[n], sender);
    }
  }

  /** The room left when partition `i` is asked. */
  function Room(pools: Pools, max: nat, i: nat): nat
    requires i <= |pools|
  {
    max - |Block(pools[..i], max)|
  }

  lemma BlockStep(pools: Pools, max: nat, i: nat)
    requires i < |pools|
    ensures Block(pools[..i + 1], max) == Block(pools[..i], max) + Selected(pools[i], Room(pools, max, i))
    ensures Rest(pools[..i + 1], max) == Rest(pools[..i], max) + [Left(pools[i], Room(pools, max, i))]
  {
    assert pools[..i + 1][..i] == pools[..i];
  }

  lemma {:induction false} RestAt(pools: Pools, max: nat, i: nat, n: nat)
    requires i < n <= |pools|
    ensures Rest(pools[..n], max)[i] == Left(pools[i], Room(pools, max, i))
  {
    BlockStep(pools, max, n - 1);
    if i < n - 1 {
      RestAt(pools, max, i, n - 1);
    }
  }

  lemma WholePools(pools: Pools, max: nat, i: nat)
    requires i < |pools|
    ensures pools[..|pools|] == pools
    ensures Rest(pools, max)[i] == Left(pools[i], Room(pools, max, i))
  {
    RestAt(pools, max, i, |pools|);
    assert pools[..|pools|] == pools;
  }

  /** All of one sender's share of the first `n` partitions comes from partition `p`. */
  lemma {:induction false} ShareOf(pools: Pools, max: nat, p: nat, n: nat, sender: Bytes)
    requires p < |pools| && n <= |pools|
    requires forall i, t :: 0 <= i < |pools| && t in pools[i] && t.from == sender ==> i == p
    ensures Of(Block(pools[..n], max), sender)
            == if n <= p then [] else Of(Selected(pools[p], Room(pools, max, p)), sender)
  {
    if n > 0 {
      ShareOf(pools, max, p, n - 1, sender);
      BlockStep(pools, max, n - 1);
      var taken := Selected(pools[n - 1], Room(pools, max, n - 1));
      OfAppend(Block(pools[..n - 1], max), taken, sender);
      if n - 1 != p {
        SelectedWithout(pools[n - 1], Room(pools, max, n - 1), sender);
      }
    }
  }

  /** All of one sender's share of the block comes from one partition. */
  lemma BlockFromOnePartition(pools: Pools, max: nat, sender: Bytes)
    requires Routed(pools)
    ensures var p := PartitionFor(sender, |pools|);
            Of(Block(pools, max), sender) == Of(Selected(pools[p], Room(pools, max, p)), sender)
  {
    ShareOf(pools, max, PartitionFor(sender, |pools|), |pools|, sender);
    assert pools[..|pools|] == pools;
  }

  lemma {:induction false} BlockGrows(pools: Pools, max: nat, i: nat, n: nat)
    requires i <= n <= |pools|
    ensures |Block(pools[..i], max)| <= |Block(pools[..n], max)|
    decreases n
  {
    if i < n {
      BlockStep(pools, max, n - 1);
      BlockGrows(pools, max, i, n - 1);
    }
  }

  /** The block holds at most `max` transactions and at most 100 of any sender, over all partitions, and a
      transaction stays behind only if the block is full or its sender has 100 in it. */
  lemma BlockContents(pools: Pools, max: nat)
    requires Routed(pools)
    ensures |Block(pools, max)| <= max
    ensures forall sender :: |Of(Block(pools, max), sender)| <= 100
    ensures forall i, t :: 0 <= i < |pools| && t in Rest(pools, max)[i] ==>
              |Block(pools, max)| == max
              || |Of(Block(pools, max), t.from)| == 100
  {
    forall sender ensures |Of(Block(pools, max), sender)| <= MAX_TRANSACTIONS_PER_ADDRESS_PER_BLOCK {
      var p := PartitionFor(sender, |pools|);
      BlockFromOnePartition(pools, max, sender);
      SelectionBounds(pools[p], Room(pools, max, p), sender);
    }
    forall i, t | 0 <= i < |pools| && t in Rest(pools, max)[i]
      ensures |Block(pools, max)| == max
              || |Of(Block(pools, max), t.from)| == MAX_TRANSACTIONS_PER_ADDRESS_PER_BLOCK
    {
      StaysBehindInPool(pools, max, i, t);
    }
  }

  lemma StaysBehindInPool(pools: Pools, max: nat, i: nat, t: Transaction)
    requires Routed(pools) && i < |pools| && t in Rest(pools, max)[i]
    ensures |Block(pools, max)| == max
            || |Of(Block(pools, max), t.from)| == MAX_TRANSACTIONS_PER_ADDRESS_PER_BLOCK
  {
    var room := Room(pools, max, i);
    WholePools(pools, max, i);
    SelectionSplits(pools[i], room);
    assert t in pools[i];
    BlockFromOnePartition(pools, max, t.from);
    StaysBehind(pools[i], room, t);
    BlockStep(pools, max, i);
    BlockGrows(pools, max, i + 1, |pools|);
  }

  lemma {:induction false} BlockSource(pools: Pools, max: nat, n: nat, u: Transaction)
    requires n <= |pools| && u in Block(pools[..n], max)
    ensures exists j :: 0 <= j < n && u in Selected(pools[j], Room(pools, max, j))
  {
    BlockStep(pools, max, n - 1);
    if u !in Selected(pools[n - 1], Room(pools, max, n - 1)) {
      BlockSource(pools, max, n - 1, u);
    }
  }

  /** Partitions are served in order: when a later partition gave anything, an earlier one holds back only
      transactions of senders who already have 100 in the block. */
  lemma EarlierPartitionsFirst(pools: Pools, max: nat, i: nat, t: Transaction, u: Transaction)
    requires Routed(pools) && i < |pools| && t in Rest(pools, max)[i]
    requires u in Block(pools, max) && PartitionFor(u.from, |pools|) > i
    ensures |Of(Block(pools, max), t.from)| == 100
  {
    hide Block, Rest, Selected, Left, Of;
    assert pools[..|pools|] == pools;
    BlockSource(pools, max, |pools|, u);
    var j :| 0 <= j < |pools| && u in Selected(pools[j], Room(pools, max, j));
    SelectionSplits(pools[j], Room(pools, max, j));
    assert u in pools[j];
    SelectionBounds(pools[j], Room(pools, max, j), []);
    BlockGrows(pools, max, i + 1, j);
    BlockStep(pools, max, i);
    WholePools(pools, max, i);
    var room := Room(pools, max, i);
    SelectionSplits(pools[i], room);
    StaysBehind(pools[i], room, t);
    assert t in pools[i];
    BlockFromOnePartition(pools, max, t.from);
  }

  lemma {:induction false} BlockProgress(pools: Pools, max: nat)
    ensures |Block(pools, max)| + Total(Rest(pools, max)) == Total(pools)
    ensures max > 0 && Total(pools) > 0 ==> |Block(pools, max)| > 0
    ensures max == 0 || Total(pools) == 0 ==> Block(pools, max) == [] && Rest(pools, max) == pools
  {
    hide Selected, Left, Block, Rest, Total;
    if pools == [] {
      NoPools(max);
    } else {
      var n := |pools| - 1;
      var init := pools[..n];
      BlockProgress(init, max);
      BlockStep(pools, max, n);
      assert pools[..n + 1] == pools == init + [pools[n]];
      SelectionSplits(pools[n], Room(pools, max, n));
      TotalSnoc(init, pools[n]);
      TotalSnoc(Rest(init, max), Left(pools[n], Room(pools, max, n)));
    }
  }

  lemma NoPools(max: nat)
    ensures Block([], max) == [] && Rest([], max) == [] && Total([]) == 0
  {
  }

  lemma TotalSnoc(pools: Pools, pool: seq<Transaction>)
    ensures Total(pools + [pool]) == Total(pools) + |pool|
  {
    assert (pools + [pool])[..|pools|] == pools;
  }

  lemma RestRouted(pools: Pools, max: nat)
    requires Routed(pools)
    ensures Routed(Rest(pools, max))
  {
    forall i, t | 0 <= i < |pools| && t in Rest(pools, max)[i]
      ensures PartitionFor(t.from, |pools|) == i
    {
      WholePools(pools, max, i);
      SelectionSplits(pools[i], Room(pools, max, i));
    }
  }

  /** The blocks of repeated takes, until nothing is left. */
  function Drained(pools: Pools, max: nat): seq<Transaction>
    requires max > 0
    decreases Total(pools)
  {
    BlockProgress(pools, max);
    if Total(pools) == 0 then [] else Block(pools, max) + Drained(Rest(pools, max), max)
  }

  /** Repeated takes empty the pool, and each sender's transactions come out complete and in order. */
  lemma {:induction false} DrainedKeepsOrder(pools: Pools, max: nat, sender: Bytes)
    requires max > 0 && Routed(pools)
    ensures Of(Drained(pools, max), sender) == Of(pools[PartitionFor(sender, |pools|)], sender)
    decreases Total(pools)
  {
    BlockProgress(pools, max);
    var p := PartitionFor(sender, |pools|);
    if Total(pools) == 0 {
      EmptyPools(pools, p);
    } else {
      RestRouted(pools, max);
      DrainedKeepsOrder(Rest(pools, max), max, sender);
      BlockFromOnePartition(pools, max, sender);
      WholePools(pools, max, p);
      SelectionIsFifo(pools[p], Room(pools, max, p), sender);
      OfAppend(Block(pools, max), Drained(Rest(pools, max), max), sender);
    }
  }

  lemma {:induction false} EmptyPools(pools: Pools, i: nat)
    requires Total(pools) == 0 && i < |pools|
    ensures pools[i] == []
  {
    var n := |pools| - 1;
    if i < n {
      EmptyPools(pools[..n], i);
    }
  }

  // ----- Whole runs -----

  /** One partition: its queue and its list. */
  datatype Partition = Partition(queue: seq<Command>, pending: seq<Transaction>)

  /** The mempool with two logs: transactions in the order in which queues accepted them, and in the order
      in which tasks gave them out. */
  datatype State = State(partitions: seq<Partition>, accepted: seq<Transaction>, taken: seq<Transaction>)

  /** Clients send, tasks receive, in any interleaving. A send into a full queue waits, so nothing happens. */
  datatype Event =
    | Submit(transaction: Transaction)
    | Request(partition: nat, command: Command)
    | Receive(partition: nat)

  function Enqueue(s: State, i: nat, command: Command): State
    requires i < |s.partitions|
  {
    var p := s.partitions[i];
    s.(partitions := s.partitions[i := p.(queue := p.queue + [command])])
  }

  function Step(s: State, event: Event): State
    requires |s.partitions| > 0
  {
    match event
    case Submit(t) =>
      var i := PartitionFor(t.from, |s.partitions|);
      if |s.partitions[i].queue| >= QUEUE_CAPACITY then s
      else Enqueue(s, i, AddTransaction(t)).(accepted := s.accepted + [t])
    case Request(i, command) =>
      if i >= |s.partitions| || command.AddTransaction? || |s.partitions[i].queue| >= QUEUE_CAPACITY then s
      else Enqueue(s, i, command)
    case Receive(i) =>
      if i >= |s.partitions| || s.partitions[i].queue == [] then s
      else
        var p := s.partitions[i];
        var (pending, response) := Handled(p.pending, p.queue[0]);
        s.(partitions := s.partitions[i := Partition(p.queue[1..], pending)],
           taken := s.taken + if response.Selection? then response.selected else [])
  }

  function Run(s: State, events: seq<Event>): (r: State)
    requires |s.partitions| > 0
    ensures |r.partitions| == |s.partitions|
  {
    if events == [] then s else Step(Run(s, events[..|events| - 1]), events[|events| - 1])
  }

  function Initial(count: nat): State {
    State(seq(count, _ => Partition([], [])), [], [])
  }

  /** All that waits in a partition was sent there by its sender's address. */
  ghost predicate Placed(p: Partition, i: nat, count: nat)
    requires count > 0
  {
    forall t :: t in p.pending || t in Queued(p.queue) ==> PartitionFor(t.from, count) == i
  }

  ghost predicate InPlace(s: State) {
    |s.partitions| > 0
    && forall i :: 0 <= i < |s.partitions| ==> Placed(s.partitions[i], i, |s.partitions|)
  }

  /** What was taken of `sender`, then what is pending, then what is queued: all that was accepted, in the
      order in which it was accepted. */
  ghost predicate InOrder(s: State, sender: Bytes)
    requires |s.partitions| > 0
  {
    var p := s.partitions[PartitionFor(sender, |s.partitions|)];
    Of(s.taken, sender) + Waiting(p, sender) == Of(s.accepted, sender)
  }

  lemma SendPlaced(p: Partition, command: Command, i: nat, count: nat)
    requires count > 0 && Placed(p, i, count)
    requires command.AddTransaction? ==> PartitionFor(command.transaction.from, count) == i
    ensures Placed(p.(queue := p.queue + [command]), i, count)
  {
    QueuedAppend(p.queue, command);
  }

  lemma HandlingPlaced(p: Partition, i: nat, count: nat)
    requires count > 0 && Placed(p, i, count) && p.queue != []
    ensures Placed(Partition(p.queue[1..], Handled(p.pending, p.queue[0]).0), i, count)
  {
    if p.queue[0].TakeForBlock? {
      SelectionSplits(p.pending, p.queue[0].maxTransactions);
    }
  }

  lemma StepInPlace(s: State, event: Event)
    requires InPlace(s)
    ensures InPlace(Step(s, event))
  {
    hide Placed, Handled;
    var n := |s.partitions|;
    match event
    case Submit(t) =>
      var i := PartitionFor(t.from, n);
      SendPlaced(s.partitions[i], AddTransaction(t), i, n);
    case Request(i, command) =>
      if i < n && !command.AddTransaction? {
        SendPlaced(s.partitions[i], command, i, n);
      }
    case Receive(i) =>
      if i < n && s.partitions[i].queue != [] {
        HandlingPlaced(s.partitions[i], i, n);
      }
  }

  /** One partition's share of a sender, in the order it will come out. */
  ghost function Waiting(p: Partition, sender: Bytes): seq<Transaction> {
    Of(p.pending, sender) + Of(Queued(p.queue), sender)
  }

  lemma SendWaits(p: Partition, command: Command, sender: Bytes)
    ensures var p' := p.(queue := p.queue + [command]);
            Waiting(p', sender) == Waiting(p, sender)
              + if command.AddTransaction? && command.transaction.from == sender then [command.transaction] else []
  {
    QueuedAppend(p.queue, command);
    assert Queued(p.queue) + [] == Queued(p.queue) && Waiting(p, sender) + [] == Waiting(p, sender);
    if command.AddTransaction? {
      OfLast(Queued(p.queue), command.transaction, sender);
      var mine := if command.transaction.from == sender then [command.transaction] else [];
      assert Of(p.pending, sender) + (Of(Queued(p.queue), sender) + mine) == Waiting(p, sender) + mine;
    }
  }

  lemma AddKeepsOrder(pending: seq<Transaction>, t: Transaction, later: seq<Transaction>, sender: Bytes)
    ensures Of(pending + [t], sender) + Of(later, sender) == Of(pending, sender) + Of([t] + later, sender)
  {
    hide Of;
    OfLast(pending, t, sender);
    OfAppend([t], later, sender);
    OfNothing(sender);
    OfLast([], t, sender);
    assert [] + [t] == [t];
  }

  lemma HandlingKeepsOrder(p: Partition, sender: Bytes)
    requires p.queue != []
    ensures var (pending, response) := Handled(p.pending, p.queue[0]);
            var given := if response.Selection? then response.selected else [];
            Of(given, sender) + Waiting(Partition(p.queue[1..], pending), sender) == Waiting(p, sender)
  {
    hide Left, Selected, Of;
    OfNothing(sender);
    var later := Queued(p.queue[1..]);
    assert [] + later == later;
    match p.queue[0]
    case AddTransaction(t) =>
      AddKeepsOrder(p.pending, t, later, sender);
    case TakeForBlock(max) =>
      SelectionIsFifo(p.pending, max, sender);
    case Len =>
    case PendingTransactions =>
  }

  lemma OfNothing(sender: Bytes)
    ensures Of([], sender) == []
  {
  }

  lemma ReceiveInOrder(s: State, i: nat, sender: Bytes)
    requires InPlace(s) && InOrder(s, sender)
    requires i < |s.partitions| && s.partitions[i].queue != []
    ensures InOrder(Step(s, Receive(i)), sender)
  {
    hide Left, Selected, Of, Queued, Waiting;
    var p := s.partitions[i];
    var (pending, response) := Handled(p.pending, p.queue[0]);
    var given := if response.Selection? then response.selected else [];
    OfAppend(s.taken, given, sender);
    OfNothing(sender);
    if PartitionFor(sender, |s.partitions|) == i {
      HandlingKeepsOrder(p, sender);
    } else if response.Selection? {
      SelectedWithout(p.pending, p.queue[0].maxTransactions, sender);
    }
  }

  lemma StepInOrder(s: State, event: Event, sender: Bytes)
    requires InPlace(s) && InOrder(s, sender)
    ensures InOrder(Step(s, event), sender)
  {
    hide Left, Selected, Of, Queued, Waiting;
    match event
    case Submit(t) =>
      SendWaits(s.partitions[PartitionFor(t.from, |s.partitions|)], AddTransaction(t), sender);
      OfLast(s.accepted, t, sender);
    case Request(i, command) =>
      if i < |s.partitions| {
        SendWaits(s.partitions[i], command, sender);
      }
    case Receive(i) =>
      if i < |s.partitions| && s.partitions[i].queue != [] {
        ReceiveInOrder(s, i, sender);
      }
  }

  /** Under every interleaving of submissions, requests and receptions, for every sender: nothing is lost,
      nothing is duplicated and nothing is reordered. */
  lemma {:induction false} RunsAreFifo(count: nat, events: seq<Event>, sender: Bytes)
    requires count > 0
    ensures var s := Run(Initial(count), events);
            InPlace(s) && InOrder(s, sender)
  {
    if events != [] {
      var n := |events| - 1;
      RunsAreFifo(count, events[..n], sender);
      StepInPlace(Run(Initial(count), events[..n]), events[n]);
      StepInOrder(Run(Initial(count), events[..n]), events[n], sender);
    }
  }

  /** The transactions submitted by a run. */
  function Submitted(events: seq<Event>): seq<Transaction> {
    if events == [] then []
    else
      var last := events[|events| - 1];
      Submitted(events[..|events| - 1]) + if last.Submit? then [last.transaction] else []
  }

  lemma StepQueues(s: State, event: Event, i: nat)
    requires |s.partitions| > 0 && i < |s.partitions|
    ensures |Step(s, event).partitions| == |s.partitions|
    ensures |Step(s, event).partitions[i].queue| <= |s.partitions[i].queue| + 1
    ensures event.Submit? && (forall j :: 0 <= j < |s.partitions| ==> |s.partitions[j].queue| < QUEUE_CAPACITY)
            ==> Step(s, event).accepted == s.accepted + [event.transaction]
    ensures !event.Submit? ==> Step(s, event).accepted == s.accepted
  {
    hide Handled;
  }

  lemma {:induction false} QueuesGrowSlowly(count: nat, events: seq<Event>, i: nat)
    requires i < count
    ensures |Run(Initial(count), events).partitions| == count
    ensures |Run(Initial(count), events).partitions[i].queue| <= |events|
  {
    hide Step;
    if events != [] {
      var n := |events| - 1;
      QueuesGrowSlowly(count, events[..n], i);
      StepQueues(Run(Initial(count), events[..n]), events[n], i);
    }
  }

  /** While no queue can have filled up, every submission is accepted, in order. */
  lemma {:induction false} SubmissionsAreAccepted(count: nat, events: seq<Event>)
    requires count > 0 && |events| <= 1024
    ensures Run(Initial(count), events).accepted == Submitted(events)
  {
    hide Step;
    if events != [] {
      var n := |events| - 1;
      var s := Run(Initial(count), events[..n]);
      SubmissionsAreAccepted(count, events[..n]);
      forall i | 0 <= i < count ensures |s.partitions| == count && |s.partitions[i].queue| < QUEUE_CAPACITY {
        QueuesGrowSlowly(count, events[..n], i);
      }
      StepQueues(s, events[n], 0);
    }
  }

  /** What was accepted is pending once its partition has received its whole queue. */
  lemma ReceivingEmptiesTheQueue(s: State, i: nat, receives: seq<Event>)
    requires i < |s.partitions| && |receives| == |s.partitions[i].queue|
    requires forall e :: e in receives ==> e == Receive(i)
    ensures Run(s, receives).partitions[i].queue == []
    ensures Run(s, receives).accepted == s.accepted
  {
    ReceivedSoFar(s, i, receives, |receives|);
    assert receives[..|receives|] == receives;
  }

  lemma {:induction false} ReceivedSoFar(s: State, i: nat, receives: seq<Event>, n: nat)
    requires i < |s.partitions| && n <= |receives| == |s.partitions[i].queue|
    requires forall e :: e in receives ==> e == Receive(i)
    ensures var after := Run(s, receives[..n]);
            && |after.partitions| == |s.partitions|
            && after.partitions[i].queue == s.partitions[i].queue[n..]
            && after.accepted == s.accepted
  {
    hide Handled;
    if n == 0 {
      assert receives[..0] == [];
    } else {
      ReceivedSoFar(s, i, receives, n - 1);
      assert receives[..n][..n - 1] == receives[..n - 1] && receives[n - 1] in receives;
      var before := Run(s, receives[..n - 1]);
      assert before.partitions[i].queue[0] == s.partitions[i].queue[n - 1];
      assert s.partitions[i].queue[n - 1..][1..] == s.partitions[i].queue[n..];
    }
  }

  lemma NothingYet(pools: Pools)
    ensures Queued([]) == [] && Total(pools[..0]) == 0
  {
  }

  // ----- The client side, with no other client at work -----

  class Mempool {
    const partitions: seq<MempoolPartition>
    // Per partition, everything accepted and not yet given out.
    ghost var pools: Pools

    ghost predicate Valid()
      reads this, partitions
    {
      && |partitions| == |pools| && Routed(pools)
      && (forall i, j :: 0 <= i < j < |partitions| ==> partitions[i] != partitions[j])
      && (forall i :: 0 <= i < |partitions| ==>
            && OnlyAdds(partitions[i].queue)
            && partitions[i].Outstanding() == pools[i])
    }

    constructor WithPartitionCount(partitionCount: nat)
      ensures Valid() && fresh(partitions)
      ensures |partitions| == if partitionCount == 0 then 1 else partitionCount
      ensures forall i :: 0 <= i < |pools| ==> pools[i] == []
    {
      var count := if partitionCount == 0 then 1 else partitionCount;
      var ps: seq<MempoolPartition> := [];
      for i := 0 to count
        invariant |ps| == i && fresh(ps)
        invariant forall k, l :: 0 <= k < l < i ==> ps[k] != ps[l]
        invariant forall k :: 0 <= k < i ==> ps[k].queue == [] && ps[k].transactions == []
      {
        var p := new MempoolPartition();
        ps := ps + [p];
      }
      partitions := ps;
      pools := seq(count, _ => []);
    }

    method PartitionForAddress(address: Bytes) returns (r: nat)
      requires |partitions| > 0
      ensures r == PartitionFor(address, |partitions|)
    {
      if address == [] {
        return 0;
      }
      var hash: U64 := 0;
      for i := 0 to |address|
        invariant hash == AddressHash(address[..i])
      {
        assert address[..i + 1][..i] == address[..i];
        hash := (hash * 31 + (address[i] as int)) % TWO_64;
      }
      assert address[..|address|] == address;
      return hash % |partitions|;
    }

    method Add(t: Transaction)
      requires Valid()
      modifies this, partitions
      ensures Valid()
      ensures var i := PartitionFor(t.from, |partitions|);
              pools == old(pools)[i := old(pools)[i] + [t]]
    {
      var i := PartitionForAddress(t.from);
      partitions[i].Add(t);
      RoutedUpdate(pools, i, pools[i] + [t]);
      pools := pools[i := pools[i] + [t]];
    }

    /** `len`: asks every partition, which empties every queue. */
    method CountPending() returns (total: nat)
      requires Valid()
      modifies partitions
      ensures Valid() && total == Total(pools)
      ensures forall i :: 0 <= i < |partitions| ==> partitions[i].queue == []
    {
      hide Queued, Total, Routed;
      NothingYet(pools);
      total := 0;
      for i := 0 to |partitions|
        invariant Valid()
        invariant total == Total(pools[..i])
        invariant forall k :: 0 <= k < i ==> partitions[k].queue == []
      {
        var response := partitions[i].Ask(Len);
        assert pools[..i + 1] == pools[..i] + [pools[i]];
        TotalSnoc(pools[..i], pools[i]);
        total := total + response.len;
      }
      assert pools[..|partitions|] == pools;
    }

    /** One request of the block loop. */
    method TakeFrom(i: nat, remaining: nat) returns (given: seq<Transaction>)
      requires Valid() && i < |partitions|
      modifies this, partitions
      ensures Valid()
      ensures given == Selected(old(pools)[i], remaining)
      ensures pools == old(pools)[i := Left(old(pools)[i], remaining)]
    {
      hide Queued, Selected, Left, Routed;
      SelectionSplits(pools[i], remaining);
      var response := partitions[i].Ask(PartitionTask.TakeForBlock(remaining));
      RoutedShrink(pools, i, partitions[i].transactions);
      pools := pools[i := partitions[i].transactions];
      given := response.selected;
    }

    method TakeForBlock(maxTransactions: nat) returns (selected: seq<Transaction>)
      requires Valid()
      modifies this, partitions
      ensures Valid()
      ensures selected == Block(old(pools), maxTransactions)
      ensures pools == Rest(old(pools), maxTransactions)
    {
      hide Block, Rest, Total, Selected, Left, Partial, Routed, Queued, OnlyAdds;
      ghost var was := pools;
      selected := [];
      var pendingCount := CountPending();
      BlockProgress(was, maxTransactions);
      if maxTransactions == 0 || pendingCount == 0 {
        return;
      }
      PartialStart(was, maxTransactions);
      var i := 0;
      while i < |partitions| && |selected| != maxTransactions
        invariant 0 <= i <= |partitions| == |was| && Valid()
        invariant selected == Block(was[..i], maxTransactions)
        invariant pools == Partial(was, maxTransactions, i)
      {
        PartialStep(was, maxTransactions, i);
        BlockStep(was, maxTransactions, i);
        var given := TakeFrom(i, maxTransactions - |selected|);
        selected := selected + given;
        i := i + 1;
      }
      PartialEnd(was, maxTransactions, i);
    }
  }

  /** The pools once the first `i` partitions were asked. */
  ghost function Partial(pools: Pools, max: nat, i: nat): (r: Pools)
    requires i <= |pools|
    ensures |r| == |pools|
  {
    Rest(pools[..i], max) + pools[i..]
  }

  lemma PartialStart(pools: Pools, max: nat)
    ensures Partial(pools, max, 0) == pools && Block(pools[..0], max) == []
  {
    NoPools(max);
    assert pools[..0] == [] && pools[0..] == pools;
  }

  lemma PartialStep(pools: Pools, max: nat, i: nat)
    requires i < |pools|
    ensures Partial(pools, max, i)[i] == pools[i]
    ensures Partial(pools, max, i + 1)
            == Partial(pools, max, i)[i := Left(pools[i], max - |Block(pools[..i], max)|)]
  {
    hide Rest, Block, Left;
    BlockStep(pools, max, i);
  }

  lemma PartialEnd(pools: Pools, max: nat, i: nat)
    requires i <= |pools| && (|Block(pools[..i], max)| == max || i == |pools|)
    ensures Partial(pools, max, i) == Rest(pools, max) && Block(pools[..i], max) == Block(pools, max)
  {
    hide Rest, Block;
    FullBlock(pools, max, i, |pools|);
    assert pools[..|pools|] == pools;
    forall k | 0 <= k < i ensures Rest(pools[..i], max)[k] == Rest(pools, max)[k] {
      RestAt(pools, max, k, i);
      WholePools(pools, max, k);
    }
    assert Partial(pools, max, i) == Rest(pools, max);
  }

  /** Once the block is full, or all partitions were asked, the others neither give nor change anything. */
  lemma {:induction false} FullBlock(pools: Pools, max: nat, i: nat, n: nat)
    requires i <= n <= |pools| && (|Block(pools[..i], max)| == max || i == n)
    ensures Block(pools[..n], max) == Block(pools[..i], max)
    ensures forall k :: i <= k < n ==> Rest(pools, max)[k] == pools[k]
    decreases n
  {
    hide Block, Rest, Selected, Left, Of;
    if i < n {
      FullBlock(pools, max, i, n - 1);
      BlockStep(pools, max, n - 1);
      WholePools(pools, max, n - 1);
      SelectionSplits(pools[n - 1], 0);
      SelectionBounds(pools[n - 1], 0, []);
      assert Room(pools, max, n - 1) == 0;
    }
  }
}
