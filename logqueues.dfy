/**
 * The two-queue slot protocol of easelog_llqueue.h (header comment) and
 * InitLoggingQueue in easelog.cpp: a free queue and a message queue share one
 * array of entries. A user allocates an index from the free queue, fills in its
 * data and publishes it on the message queue; the consumer drains the message
 * queue in publication order and gives every index back to the free queue.
 *
 * The invariant: every index is in exactly one queue or held by exactly one user.
 */
module LogQueues {
  import opened Common
  import opened LLQueue

  /** ASYNC_QUEUE_SIZE: the number of slots. */
  const ASYNC_QUEUE_SIZE: u32 := 4096

  /** Every index below `n` has exactly one owner: the free queue, the message queue, or a user. */
  ghost predicate Partitioned(n: nat, free: seq<nat>, wait: seq<nat>, held: set<nat>)
  {
    && (forall i: nat :: i < n ==> i in free || i in wait || i in held)
    && (forall i :: i in free ==> i !in wait && i !in held)
    && (forall i :: i in wait ==> i !in held)
    && (forall i :: i in held ==> i < n)
  }

  /** [n - 1, ..., 1, 0]: the free chain after pushing 0, 1, ..., n - 1. */
  function Countdown(n: nat): seq<nat>
  {
    if n == 0 then [] else [n - 1] + Countdown(n - 1)
  }

  /** The data pointers of the entries at `idxs`, in that order. */
  function DataOf(links: seq<Entry>, idxs: seq<nat>): seq<nat>
    requires Within(links, idxs)
  {
    seq(|idxs|, k requires 0 <= k < |idxs| => links[idxs[k]].data)
  }

  lemma {:induction false} CountdownMembers(n: nat)
    ensures forall x: nat :: x in Countdown(n) <==> x < n
  {
    if n > 0 {
      CountdownMembers(n - 1);
    }
  }

  /** Ownership depends only on which indices each queue holds, not on their order. */
  lemma PartitionedSameMembers(n: nat, free: seq<nat>, wait: seq<nat>, wait': seq<nat>, held: set<nat>)
    requires Partitioned(n, free, wait, held)
    requires forall x :: x in wait <==> x in wait'
    ensures Partitioned(n, free, wait', held)
  {
  }

  class LogQueues {
    /** g_log_queue_entries */
    const entries: array<Entry>
    /** g_log_free_queue */
    const free: IndexQueue
    /** g_log_wait_queue */
    const wait: IndexQueue
    /** The indices currently allocated, each with the user holding it. */
    ghost var Holders: map<nat, nat>

    ghost predicate Valid()
      reads this, free, wait, entries
    {
      && free != wait
      && free.entries == entries && wait.entries == entries
      && entries.Length == ASYNC_QUEUE_SIZE
      && free.Valid() && wait.Valid()
      && Partitioned(entries.Length, free.Chain, wait.Chain, Holders.Keys)
    }

    /** InitLoggingQueue: both queues over one array; every index pushed on the free queue in turn. */
    constructor InitLoggingQueue()
      ensures Valid() && fresh(entries) && fresh(free) && fresh(wait)
      ensures free.Chain == Countdown(ASYNC_QUEUE_SIZE) && free.entriesNum == ASYNC_QUEUE_SIZE
      ensures wait.Chain == [] && wait.entriesNum == 0 && Holders == map[]
      ensures forall i: nat :: i in free.Chain <==> i < ASYNC_QUEUE_SIZE
    {
      var a := new Entry[ASYNC_QUEUE_SIZE](_ => Entry(0, 0));
      entries := a;
      free := new IndexQueue.Init(a, ASYNC_QUEUE_SIZE);
      wait := new IndexQueue.Init(a, ASYNC_QUEUE_SIZE);
      Holders := map[];
      new;
      assert Holders.Keys == {};
      FillFree(free, wait);
      CountdownMembers(ASYNC_QUEUE_SIZE);
    }

    /** Allocate: take a free index for `user`, or NULL_IDX when none is left. */
    method Allocate(ghost user: nat) returns (idx: u32)
      requires Valid()
      modifies this, free, entries
      ensures Valid()
      ensures wait.Chain == old(wait.Chain)
      ensures forall j :: 0 <= j < entries.Length ==> entries[j].data == old(entries[j].data)
      ensures old(free.Chain) == [] ==> idx == NULL_IDX && Holders == old(Holders) && free.Chain == []
      ensures old(free.Chain) != [] ==>
        && idx == old(free.Chain)[0] && idx !in old(Holders)
        && Holders == old(Holders)[idx := user] && free.Chain == old(free.Chain)[1..]
    {
      ghost var links := entries[..];
      idx := free.Dequeue();
      if idx != NULL_IDX {
        assert idx == old(free.Chain)[0];
        Holders := Holders[idx := user];
      }
      IsChainFrameExcept(links, entries[..], wait.head, wait.Chain, idx);
    }

    /** Publish: the holder stores its data pointer in the slot and pushes the index on the message queue. */
    method Publish(idx: u32, data: nat, ghost user: nat)
      requires Valid()
      requires idx in Holders && Holders[idx] == user
      modifies this, wait, entries
      ensures Valid()
      ensures Holders == old(Holders) - {idx}
      ensures wait.Chain == [idx] + old(wait.Chain) && free.Chain == old(free.Chain)
      ensures entries[idx].data == data
      ensures forall j :: 0 <= j < entries.Length && j != idx ==> entries[j].data == old(entries[j].data)
    {
      ghost var links := entries[..];
      entries[idx] := entries[idx].(data := data);
      IsChainFrame(links, entries[..], free.head, free.Chain);
      IsChainFrame(links, entries[..], wait.head, wait.Chain);
      ghost var filled := entries[..];
      var _ := wait.Enqueue(idx);
      IsChainFrame(filled, entries[..], free.head, free.Chain);
      Holders := Holders - {idx};
    }

    /**
     * Consume: drain the message queue, hand each data pointer to the consumer
     * in publication order, and push each index back on the free queue.
     */
    method Consume() returns (batch: seq<nat>)
      requires Valid()
      modifies free, wait, entries
      ensures Valid() && Holders == old(Holders)
      ensures wait.Chain == [] && free.Chain == old(wait.Chain) + old(free.Chain)
      ensures Within(old(entries[..]), Reverse(old(wait.Chain)))
      ensures batch == DataOf(old(entries[..]), Reverse(old(wait.Chain)))
    {
      PartitionedDrain(entries.Length, free.Chain, wait.Chain, Holders.Keys);
      batch := DrainQueues(free, wait);
    }
  }

  /** The loop of InitLoggingQueue: push 0, 1, ..., ASYNC_QUEUE_SIZE - 1 on the empty free queue. */
  method FillFree(free: IndexQueue, wait: IndexQueue)
    requires free != wait && free.entries == wait.entries && free.entries.Length == ASYNC_QUEUE_SIZE
    requires free.Valid() && wait.Valid() && free.Chain == [] && free.entriesNum == 0 && wait.Chain == []
    modifies free, free.entries
    ensures free.Valid() && wait.Valid() && free.entries == old(free.entries)
    ensures free.Chain == Countdown(ASYNC_QUEUE_SIZE) && free.entriesNum == ASYNC_QUEUE_SIZE
  {
    var i: u32 := 0;
    while i < ASYNC_QUEUE_SIZE
      invariant 0 <= i <= ASYNC_QUEUE_SIZE
      invariant free.entries == old(free.entries) && free.Valid() && wait.Valid()
      invariant free.Chain == Countdown(i) && free.entriesNum == i
    {
      CountdownMembers(i);
      var _ := free.Enqueue(i);
      i := i + 1;
    }
  }

  /**
   * The body of Consume over the two queues: take the whole message chain,
   * put it in publication order, then hand every index back to `free`.
   */
  method DrainQueues(free: IndexQueue, wait: IndexQueue) returns (batch: seq<nat>)
    requires free != wait && free.entries == wait.entries && free.Valid() && wait.Valid()
    requires forall i :: i in wait.Chain ==> i !in free.Chain
    modifies free, wait, free.entries
    ensures free.Valid() && wait.Valid() && free.entries == old(free.entries) && wait.entries == old(wait.entries)
    ensures wait.Chain == [] && free.Chain == old(wait.Chain) + old(free.Chain)
    ensures Within(old(free.entries[..]), Reverse(old(wait.Chain)))
    ensures batch == DataOf(old(free.entries[..]), Reverse(old(wait.Chain)))
  {
    ghost var W := wait.Chain;
    ghost var links := free.entries[..];
    var first := wait.DequeueAll();
    ghost var R: seq<nat> := Reverse(W);
    IsChainFrame(links, free.entries[..], free.head, free.Chain);
    ReversedOutsideFree(W, R, free.Chain);
    ghost var drained := free.entries[..];
    batch := ReturnToFree(free, first, R);
    DataOfSameData(drained, links, R);
    ReverseReverse(W);
  }

  /** The reversed message chain shares no index with a free chain the message chain is disjoint from. */
  lemma ReversedOutsideFree(W: seq<nat>, R: seq<nat>, F: seq<nat>)
    requires R == Reverse(W)
    requires forall i :: i in W ==> i !in F
    ensures forall k :: 0 <= k < |R| ==> R[k] !in F
  {
    forall k | 0 <= k < |R| ensures R[k] !in F {
      ReverseMembers(W, R[k]);
    }
  }

  /** Two arrays with the same data pointers give the same data for any indices. */
  lemma DataOfSameData(a: seq<Entry>, b: seq<Entry>, idxs: seq<nat>)
    requires |a| == |b| && Datas(a) == Datas(b) && Within(a, idxs)
    ensures Within(b, idxs) && DataOf(a, idxs) == DataOf(b, idxs)
  {
    forall k | 0 <= k < |idxs| ensures a[idxs[k]].data == b[idxs[k]].data {
      assert Datas(a)[idxs[k]] == Datas(b)[idxs[k]];
    }
  }

  /**
   * The consumer loop: follow the drained chain from `first`, collect each
   * entry's data pointer and push the index back on `free`.
   */
  method ReturnToFree(free: IndexQueue, first: u32, ghost pending: seq<nat>) returns (batch: seq<nat>)
    requires free.Valid() && IsChain(free.entries[..], first, pending)
    requires forall k :: 0 <= k < |pending| ==> pending[k] !in free.Chain
    modifies free, free.entries
    ensures free.Valid() && free.entries == old(free.entries)
    ensures free.Chain == Reverse(pending) + old(free.Chain)
    ensures Within(old(free.entries[..]), pending)
    ensures batch == DataOf(old(free.entries[..]), pending)
    ensures Datas(free.entries[..]) == Datas(old(free.entries[..]))
  {
    ghost var links := free.entries[..];
    ghost var F := free.Chain;
    ghost var done: seq<nat> := [];
    ghost var rest: seq<nat> := pending;
    var idx := first;
    batch := [];
    while idx != NULL_IDX
      invariant free.entries == old(free.entries)
      invariant Recycling(free, links, F, pending, done, rest, idx, batch)
      decreases |rest|
    {
      var data, next := RecycleOne(free, idx, links, F, pending, done, rest, batch);
      batch := batch + [data];
      done, rest := done + [rest[0]], rest[1..];
      idx := next;
    }
    NullChainEmpty(free.entries[..], rest);
    assert done == pending;
    assert free.Chain == Reverse(pending) + F;
  }

  /**
   * The state of the consumer loop: `done` has been handed back (most recent
   * first on `free`, data in `batch`), `rest` still hangs from `idx`.
   */
  ghost predicate Recycling(free: IndexQueue, links: seq<Entry>, F: seq<nat>, pending: seq<nat>,
                            done: seq<nat>, rest: seq<nat>, idx: int, batch: seq<nat>)
    reads free, free.entries
  {
    && free.Valid()
    && Draining(free.entries[..], free.head, free.Chain, links, F, pending, done, rest, idx, batch)
  }

  /** The consumer loop's state over a snapshot `cur` of the array, whose free chain starts at `head`. */
  ghost predicate Draining(cur: seq<Entry>, head: int, chain: seq<nat>, links: seq<Entry>, F: seq<nat>,
                           pending: seq<nat>, done: seq<nat>, rest: seq<nat>, idx: int, batch: seq<nat>)
  {
    && DrainLinks(cur, head, chain, rest, idx)
    && DrainBooks(cur, chain, links, F, pending, done, rest, batch)
  }

  /** The links: the free chain and the rest of the drained chain are disjoint chains of `cur`. */
  ghost predicate DrainLinks(cur: seq<Entry>, head: int, chain: seq<nat>, rest: seq<nat>, idx: int)
  {
    && IsChain(cur, head, chain)
    && IsChain(cur, idx, rest)
    && (forall k :: 0 <= k < |rest| ==> rest[k] !in chain)
  }

  /** The bookkeeping: what has been handed back, in which order, and the data collected so far. */
  ghost predicate DrainBooks(cur: seq<Entry>, chain: seq<nat>, links: seq<Entry>, F: seq<nat>,
                             pending: seq<nat>, done: seq<nat>, rest: seq<nat>, batch: seq<nat>)
  {
    && |links| == |cur| && pending == done + rest
    && Within(links, done)
    && chain == Reverse(done) + F
    && batch == DataOf(links, done)
    && Datas(cur) == Datas(links)
  }

  /** One turn on the links: `idx` leaves the drained chain and is linked in front of the free chain. */
  lemma LinkStep(cur: seq<Entry>, head: int, chain: seq<nat>, rest: seq<nat>, idx: int)
    requires DrainLinks(cur, head, chain, rest, idx) && idx != NULL_IDX
    ensures rest != [] && idx == rest[0] && 0 <= idx < |cur|
    ensures DrainLinks(cur[idx := cur[idx].(next := head)], idx, [idx] + chain, rest[1..], cur[idx].next)
  {
    var after := cur[idx := cur[idx].(next := head)];
    IsChainTail(cur, idx, rest);
    forall k | 0 <= k < |rest| - 1 ensures rest[1..][k] != rest[0] {
      assert rest[1..][k] == rest[k + 1];
    }
    PushLink(cur, head, chain, idx);
    IsChainFrameExcept(cur, after, cur[idx].next, rest[1..], idx);
  }

  /** One turn on the books: `idx` joins the processed list and its data joins the batch. */
  lemma BookStep(cur: seq<Entry>, head: u32, chain: seq<nat>, links: seq<Entry>, F: seq<nat>,
                 pending: seq<nat>, done: seq<nat>, rest: seq<nat>, batch: seq<nat>)
    requires DrainBooks(cur, chain, links, F, pending, done, rest, batch)
    requires rest != [] && rest[0] < |cur|
    ensures cur[rest[0]].data == links[rest[0]].data
    ensures DrainBooks(cur[rest[0] := cur[rest[0]].(next := head)], [rest[0]] + chain, links, F, pending,
                       done + [rest[0]], rest[1..], batch + [cur[rest[0]].data])
  {
    var idx := rest[0];
    assert Datas(cur)[idx] == Datas(links)[idx];
    DatasFrame(cur, cur[idx := cur[idx].(next := head)], idx);
    ConsumeStep(links, done, rest);
  }

  /** One turn of the consumer loop on values. */
  lemma DrainStep(cur: seq<Entry>, head: int, chain: seq<nat>, links: seq<Entry>, F: seq<nat>,
                  pending: seq<nat>, done: seq<nat>, rest: seq<nat>, idx: int, batch: seq<nat>)
    requires Draining(cur, head, chain, links, F, pending, done, rest, idx, batch) && idx != NULL_IDX
    ensures rest != [] && idx == rest[0] && 0 <= idx < |cur|
    ensures Draining(cur[idx := cur[idx].(next := head)], idx, [idx] + chain, links, F, pending,
                     done + [rest[0]], rest[1..], cur[idx].next, batch + [cur[idx].data])
  {
    LinkStep(cur, head, chain, rest, idx);
    BookStep(cur, head, chain, links, F, pending, done, rest, batch);
  }

  /** One turn of the consumer loop: read the data and link of `idx`, then push `idx` on `free`. */
  method RecycleOne(free: IndexQueue, idx: u32, ghost links: seq<Entry>, ghost F: seq<nat>, ghost pending: seq<nat>,
                    ghost done: seq<nat>, ghost rest: seq<nat>, ghost batch: seq<nat>) returns (data: nat, next: u32)
    requires Recycling(free, links, F, pending, done, rest, idx, batch) && idx != NULL_IDX
    modifies free, free.entries
    ensures free.entries == old(free.entries) && rest != []
    ensures Recycling(free, links, F, pending, done + [rest[0]], rest[1..], next, batch + [data])
  {
    ghost var before := free.entries[..];
    ghost var head := free.head;
    DrainStep(before, head, free.Chain, links, F, pending, done, rest, idx, batch);
    data := free.entries[idx].data;
    next := free.entries[idx].next;
    var _ := free.Enqueue(idx);
    assert free.entries[..] == before[idx := before[idx].(next := head)];
  }

  /** The data pointers of all entries, slot by slot. */
  function Datas(links: seq<Entry>): (r: seq<nat>)
    ensures |r| == |links| && forall i :: 0 <= i < |links| ==> r[i] == links[i].data
  {
    seq(|links|, i requires 0 <= i < |links| => links[i].data)
  }

  /** Relinking one slot leaves every data pointer in place. */
  lemma DatasFrame(a: seq<Entry>, b: seq<Entry>, x: int)
    requires |b| == |a| && (0 <= x < |a| ==> b[x].data == a[x].data)
    requires forall j :: 0 <= j < |a| && j != x ==> b[j] == a[j]
    ensures Datas(b) == Datas(a)
  {
  }

  /** Every index in `idxs` is a position of `links`. */
  ghost predicate Within(links: seq<Entry>, idxs: seq<nat>)
  {
    forall k :: 0 <= k < |idxs| ==> idxs[k] < |links|
  }

  /** After draining: the message chain has moved in front of the free chain and ownership is unchanged. */
  lemma PartitionedDrain(n: nat, free: seq<nat>, wait: seq<nat>, held: set<nat>)
    requires Partitioned(n, free, wait, held)
    ensures Partitioned(n, wait + free, [], held)
  {
  }

  /** The bookkeeping of one consumer turn: the first pending index joins the processed list. */
  lemma ConsumeStep(links: seq<Entry>, done: seq<nat>, pending: seq<nat>)
    requires pending != [] && pending[0] < |links| && Within(links, done)
    ensures Within(links, done + [pending[0]])
    ensures Reverse(done + [pending[0]]) == [pending[0]] + Reverse(done)
    ensures DataOf(links, done + [pending[0]]) == DataOf(links, done) + [links[pending[0]].data]
    ensures done + pending == (done + [pending[0]]) + pending[1..]
  {
    assert (done + [pending[0]])[..|done|] == done;
  }
}
