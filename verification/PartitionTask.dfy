/** One mempool partition: a task that owns a list of transactions and is fed by a bounded queue
    (src/consensus/mod.rs). */
module PartitionTask {
  import opened Bytes
  import opened Types

  const MAX_TRANSACTIONS_PER_ADDRESS_PER_BLOCK := 100
  const QUEUE_CAPACITY := 1024

  datatype Command =
    | AddTransaction(transaction: Transaction)
    | TakeForBlock(maxTransactions: nat)
    | Len
    | PendingTransactions

  datatype Response = NoResponse | Selection(selected: seq<Transaction>) | Length(len: nat) | Pending(all: seq<Transaction>)

  /** The transactions of one sender, in order. */
  function Of(s: seq<Transaction>, sender: Bytes): seq<Transaction> {
    if s == [] then []
    else
      var n := |s| - 1;
      Of(s[..n], sender) + if s[n].from == sender then [s[n]] else []
  }

  /** The block rule: room left, and fewer than 100 of this sender so far. */
  predicate Fits(selected: seq<Transaction>, t: Transaction, max: nat) {
    |selected| < max && |Of(selected, t.from)| < MAX_TRANSACTIONS_PER_ADDRESS_PER_BLOCK
  }

  /** What a take answers with, and what it keeps: each transaction is judged once, in order. */
  function Selected(pending: seq<Transaction>, max: nat): seq<Transaction> {
    if pending == [] then []
    else
      var n := |pending| - 1;
      var before := Selected(pending[..n], max);
      if Fits(before, pending[n], max) then before + [pending[n]] else before
  }

  function Left(pending: seq<Transaction>, max: nat): seq<Transaction> {
    if pending == [] then []
    else
      var n := |pending| - 1;
      var before := Left(pending[..n], max);
      if Fits(Selected(pending[..n], max), pending[n], max) then before else before + [pending[n]]
  }

  lemma {:induction false} OfAppend(a: seq<Transaction>, b: seq<Transaction>, sender: Bytes)
    ensures Of(a + b, sender) == Of(a, sender) + Of(b, sender)
  {
    if b == [] {
      assert a + b == a;
    } else {
      var n := |b| - 1;
      assert (a + b)[..|a + b| - 1] == a + b[..n];
      OfAppend(a, b[..n], sender);
    }
  }

  lemma {:induction false} OfMembers(s: seq<Transaction>, sender: Bytes)
    ensures forall t :: t in Of(s, sender) <==> t in s && t.from == sender
  {
    if s != [] {
      var n := |s| - 1;
      OfMembers(s[..n], sender);
      assert s == s[..n] + [s[n]];
    }
  }

  lemma OfLast(s: seq<Transaction>, t: Transaction, sender: Bytes)
    ensures Of(s + [t], sender) == Of(s, sender) + if t.from == sender then [t] else []
  {
    assert (s + [t])[..|s|] == s;
  }

  lemma {:induction false} SelectionBounds(pending: seq<Transaction>, max: nat, sender: Bytes)
    ensures |Selected(pending, max)| <= max
    ensures |Of(Selected(pending, max), sender)| <= MAX_TRANSACTIONS_PER_ADDRESS_PER_BLOCK
  {
    if pending != [] {
      var n := |pending| - 1;
      SelectionBounds(pending[..n], max, sender);
      OfLast(Selected(pending[..n], max), pending[n], sender);
    }
  }

  /** A transaction stays behind only in front of a full block or behind 100 of its own sender. */
  lemma {:induction false} StaysBehind(pending: seq<Transaction>, max: nat, t: Transaction)
    requires t in Left(pending, max)
    ensures |Selected(pending, max)| == max
            || |Of(Selected(pending, max), t.from)| == MAX_TRANSACTIONS_PER_ADDRESS_PER_BLOCK
  {
    var n := |pending| - 1;
    var before := Selected(pending[..n], max);
    SelectionBounds(pending[..n], max, t.from);
    OfLast(before, pending[n], t.from);
    if t in Left(pending[..n], max) {
      StaysBehind(pending[..n], max, t);
    }
  }

  /** While a sender still fits, none of its transactions has been left behind. */
  lemma NoOvertaking(pending: seq<Transaction>, max: nat, t: Transaction)
    requires Fits(Selected(pending, max), t, max)
    ensures Of(Left(pending, max), t.from) == []
  {
    var behind := Of(Left(pending, max), t.from);
    OfMembers(Left(pending, max), t.from);
    if behind != [] {
      StaysBehind(pending, max, behind[0]);
    }
  }

  /** One turn of the selection loop. */
  lemma SelectionStep(pending: seq<Transaction>, i: nat, max: nat)
    requires i < |pending|
    ensures var before, behind := Selected(pending[..i], max), Left(pending[..i], max);
            if Fits(before, pending[i], max)
            then Selected(pending[..i + 1], max) == before + [pending[i]] && Left(pending[..i + 1], max) == behind
            else Selected(pending[..i + 1], max) == before && Left(pending[..i + 1], max) == behind + [pending[i]]
  {
    assert pending[..i + 1][..i] == pending[..i];
  }

  /** Within a sender, what is taken comes before what stays, and both keep their order. */
  lemma {:induction false} SelectionIsFifo(pending: seq<Transaction>, max: nat, sender: Bytes)
    ensures Of(Selected(pending, max), sender) + Of(Left(pending, max), sender) == Of(pending, sender)
  {
    hide Selected, Left, Of, Fits;
    if pending == [] {
      NothingSelected(max);
    } else {
      var n := |pending| - 1;
      var init, t := pending[..n], pending[n];
      var before, behind := Selected(init, max), Left(init, max);
      SelectionIsFifo(init, max, sender);
      SelectionStep(pending, n, max);
      assert pending[..n + 1] == pending == init + [t];
      OfLast(init, t, sender);
      if Fits(before, t, max) {
        OfLast(before, t, sender);
        NoOvertaking(init, max, t);
      } else {
        OfLast(behind, t, sender);
      }
    }
  }

  lemma {:induction false} SelectionSplits(pending: seq<Transaction>, max: nat)
    ensures |Selected(pending, max)| + |Left(pending, max)| == |pending|
    ensures forall t :: t in pending <==> t in Selected(pending, max) || t in Left(pending, max)
    ensures max > 0 && pending != [] ==> Selected(pending, max) != []
    ensures max == 0 ==> Left(pending, max) == pending
  {
    if pending != [] {
      var n := |pending| - 1;
      SelectionSplits(pending[..n], max);
      assert pending == pending[..n] + [pending[n]];
    }
  }

  function CountOf(counts: map<Bytes, nat>, sender: Bytes): nat {
    if sender in counts then counts[sender] else 0
  }

  /** The loop's map holds the number selected of each sender. */
  ghost predicate CountsSenders(counts: map<Bytes, nat>, selected: seq<Transaction>) {
    forall s :: CountOf(counts, s) == |Of(selected, s)|
  }

  lemma CountSelected(counts: map<Bytes, nat>, selected: seq<Transaction>, t: Transaction)
    requires CountsSenders(counts, selected)
    ensures CountsSenders(counts[t.from := CountOf(counts, t.from) + 1], selected + [t])
    ensures CountsSenders(counts[t.from := CountOf(counts, t.from)], selected)
  {
    hide Of;
    forall s ensures Of(selected + [t], s) == Of(selected, s) + if t.from == s then [t] else [] {
      OfLast(selected, t, s);
    }
  }

  lemma CountedSelected(counts: map<Bytes, nat>, selected: seq<Transaction>, sender: Bytes)
    requires CountsSenders(counts, selected)
    ensures CountOf(counts, sender) == |Of(selected, sender)|
  {
  }

  lemma NothingSelected(max: nat)
    ensures Selected([], max) == [] && Left([], max) == []
    ensures forall sender :: Of([], sender) == []
    ensures CountsSenders(map[], [])
  {
  }

  /** The task's handling of one command, as a function: the list afterwards and the answer. */
  function Handled(pending: seq<Transaction>, command: Command): (seq<Transaction>, Response) {
    match command
    case AddTransaction(t) => (pending + [t], NoResponse)
    case TakeForBlock(max) => (Left(pending, max), Selection(Selected(pending, max)))
    case Len => (pending, Length(|pending|))
    case PendingTransactions => (pending, Pending(pending))
  }

  /** The transactions still in the queue, in order. */
  function Queued(queue: seq<Command>): seq<Transaction> {
    if queue == [] then []
    else (if queue[0].AddTransaction? then [queue[0].transaction] else []) + Queued(queue[1..])
  }

  lemma {:induction false} QueuedAppend(queue: seq<Command>, command: Command)
    ensures Queued(queue + [command])
            == Queued(queue) + if command.AddTransaction? then [command.transaction] else []
  {
    if queue != [] {
      assert (queue + [command])[1..] == queue[1..] + [command];
      QueuedAppend(queue[1..], command);
    }
  }

  ghost predicate OnlyAdds(queue: seq<Command>) {
    forall c :: c in queue ==> c.AddTransaction?
  }

  class MempoolPartition {
    var queue: seq<Command>
    var transactions: seq<Transaction>

    /** Everything sent to the task and not yet given out. */
    ghost function Outstanding(): seq<Transaction>
      reads this
    {
      transactions + Queued(queue)
    }

    constructor ()
      ensures queue == [] && transactions == []
    {
      queue, transactions := [], [];
    }

    /** The task's loop body for the command at the head of the queue. */
    method Receive() returns (response: Response)
      requires queue != []
      modifies this
      ensures queue == old(queue)[1..]
      ensures (transactions, response) == Handled(old(transactions), old(queue)[0])
    {
      var command := queue[0];
      queue := queue[1..];
      response := NoResponse;
      match command
      case AddTransaction(t) =>
        transactions := transactions + [t];
      case TakeForBlock(max) =>
        var selected, remaining := SelectForBlock(transactions, max);
        transactions := remaining;
        response := Selection(selected);
      case Len =>
        response := Length(|transactions|);
      case PendingTransactions =>
        response := Pending(transactions);
    }

    /** The selection loop, with its per-sender counters in a map. */
    static method SelectForBlock(pending: seq<Transaction>, max: nat)
      returns (selected: seq<Transaction>, remaining: seq<Transaction>)
      ensures selected == Selected(pending, max) && remaining == Left(pending, max)
    {
      hide Selected, Left, CountsSenders;
      selected, remaining := [], [];
      var selectedPerSender: map<Bytes, nat> := map[];
      NothingSelected(max);
      assert pending[..0] == [];
      for i := 0 to |pending|
        invariant selected == Selected(pending[..i], max) && remaining == Left(pending[..i], max)
        invariant |selected| <= max
        invariant CountsSenders(selectedPerSender, selected)
      {
        var t := pending[i];
        SelectionStep(pending, i, max);
        CountSelected(selectedPerSender, selected, t);
        CountedSelected(selectedPerSender, selected, t.from);
        if |selected| == max {
          remaining := remaining + [t];
        } else {
          var count := CountOf(selectedPerSender, t.from);
          if count < MAX_TRANSACTIONS_PER_ADDRESS_PER_BLOCK {
            selectedPerSender := selectedPerSender[t.from := count + 1];
            selected := selected + [t];
          } else {
            selectedPerSender := selectedPerSender[t.from := count];
            remaining := remaining + [t];
          }
        }
      }
      assert pending[..|pending|] == pending;
    }

    /** The task catches up until one place is free, then the transaction is queued. */
    method Add(t: Transaction)
      requires OnlyAdds(queue)
      modifies this
      ensures OnlyAdds(queue)
      ensures Outstanding() == old(Outstanding()) + [t]
    {
      CatchUp(QUEUE_CAPACITY - 1);
      QueuedAppend(queue, AddTransaction(t));
      queue := queue + [AddTransaction(t)];
    }

    /** Receives queued adds until at most `limit` commands are left. */
    method CatchUp(limit: nat)
      requires OnlyAdds(queue)
      modifies this
      ensures OnlyAdds(queue) && |queue| <= limit
      ensures Outstanding() == old(Outstanding())
    {
      while |queue| > limit
        invariant OnlyAdds(queue)
        invariant Outstanding() == old(Outstanding())
      {
        assert queue[0] in queue;
        var _ := Receive();
      }
    }

    /** Sends one request and waits for its answer. The queue is first in, first out, so everything
        queued before has been received by then. */
    method Ask(request: Command) returns (response: Response)
      requires OnlyAdds(queue) && !request.AddTransaction?
      modifies this
      ensures queue == []
      ensures (transactions, response) == Handled(old(Outstanding()), request)
      ensures Outstanding() == transactions
    {
      CatchUp(QUEUE_CAPACITY - 1);
      ghost var waiting := queue;
      queue := queue + [request];
      while |queue| > 1
        invariant queue == waiting + [request] && OnlyAdds(waiting)
        invariant transactions + Queued(waiting) == old(Outstanding())
        decreases |queue|
      {
        assert queue[0] == waiting[0] && waiting[0] in waiting;
        waiting := waiting[1..];
        var _ := Receive();
      }
      assert waiting == [] && transactions + Queued(waiting) == transactions;
      response := Receive();
    }
  }
}
