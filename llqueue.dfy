/**
 * The lock-free index queue (easelog_llqueue.h / easelog_llqueue.cpp): a LIFO of
 * small integer indices threaded through a caller-supplied array of entries by
 * their `next` links, with the head index packed beside a 32-bit ABA cookie.
 *
 * Each compare-and-swap retry loop is modelled as the one iteration whose CAS
 * succeeds, so every operation is a single sequential step.
 */
module LLQueue {
  import opened Common

  /** LLQUEUE_NULL_IDX: the end-of-chain marker. */
  const NULL_IDX: u32 := 0xffff_ffff

  /** The cookie is a 32-bit field of the packed head and wraps around. */
  const COOKIE_MOD: int := 0x1_0000_0000

  /** struct llqueue_entry: one link and one opaque data pointer (0 is null). */
  datatype Entry = Entry(next: u32, data: nat)

  /** union llqueue_head: the head index and the cookie share one 64-bit word. */
  datatype PackedHead = PackedHead(head: u32, cookie: u32)

  /**
   * The 64-bit word of a packed head: head in the low half, cookie in the
   * high half, which is the layout of the union on a little-endian machine.
   */
  function Pack(h: PackedHead): (w: u64)
  {
    h.cookie * 0x1_0000_0000 + h.head
  }

  function Unpack(w: u64): PackedHead
  {
    PackedHead(w % 0x1_0000_0000, w / 0x1_0000_0000)
  }

  /** The cookie written by a successful head update: `cookie + 1` in 32-bit arithmetic. */
  function NextCookie(c: u32): u32
  {
    (c + 1) % COOKIE_MOD
  }

  /** The cookie after `k` successful head updates. */
  function CookieAfter(c: u32, k: nat): u32
  {
    if k == 0 then c else NextCookie(CookieAfter(c, k - 1))
  }

  // ---------------------------------------------------------------------------
  // Chains of links

  /** The head index that denotes a chain: its first index, or NULL_IDX when empty. */
  function HeadOf(chain: seq<nat>): int
  {
    if chain == [] then NULL_IDX else chain[0]
  }

  /**
   * `chain` is exactly what is reached by following `next` from `head` in
   * `links`: its indices are distinct array positions, each links to the next
   * one, and the last links to NULL_IDX.
   */
  ghost predicate IsChain(links: seq<Entry>, head: int, chain: seq<nat>)
  {
    && |links| <= NULL_IDX
    && (forall k :: 0 <= k < |chain| ==> chain[k] < |links|)
    && (forall i, j :: 0 <= i < j < |chain| ==> chain[i] != chain[j])
    && head == HeadOf(chain)
    && (forall k :: 0 <= k < |chain| ==> links[chain[k]].next == Succ(chain, k))
  }

  /** The index after position `k` of a chain, or NULL_IDX after the last one. */
  function Succ(chain: seq<nat>, k: nat): int
    requires k < |chain|
  {
    if k + 1 < |chain| then chain[k + 1] else NULL_IDX
  }

  /** The indices visited by following `next` from `from`, at most `steps` of them. */
  function Walk(links: seq<Entry>, from: int, steps: nat): seq<int>
    decreases steps
  {
    if steps == 0 || !(0 <= from < |links|) then []
    else [from] + Walk(links, links[from].next, steps - 1)
  }

  function Reverse<T>(s: seq<T>): (r: seq<T>)
    ensures |r| == |s|
  {
    if s == [] then [] else [s[|s| - 1]] + Reverse(s[..|s| - 1])
  }

  ghost predicate Distinct(s: seq<nat>)
  {
    forall i, j :: 0 <= i < j < |s| ==> s[i] != s[j]
  }

  // ---------------------------------------------------------------------------
  // Lemmas

  /** The packed word holds both fields: unpacking recovers them. */
  lemma PackRoundTrip(h: PackedHead)
    ensures Unpack(Pack(h)) == h
  {
  }

  /** After `k` head updates the cookie has advanced by `k`, modulo 2^32. */
  lemma {:induction false} CookieAfterIsSum(c: u32, k: nat)
    ensures CookieAfter(c, k) == (c + k) % COOKIE_MOD
  {
    if k > 0 {
      CookieAfterIsSum(c, k - 1);
      ModSucc(c as nat + k - 1);
    }
  }

  /** Adding one after reducing modulo 2^32 is adding one before. */
  lemma ModSucc(x: nat)
    ensures (x % COOKIE_MOD + 1) % COOKIE_MOD == (x + 1) % COOKIE_MOD
  {
    var q, r := x / COOKIE_MOD, x % COOKIE_MOD;
    assert x == q * COOKIE_MOD + r;
    if r + 1 < COOKIE_MOD {
      assert x + 1 == q * COOKIE_MOD + (r + 1);
    } else {
      assert x + 1 == (q + 1) * COOKIE_MOD;
    }
  }

  /**
   * ABA protection: a head word re-observed after between 1 and 2^32 - 1
   * successful updates carries a different cookie.
   */
  lemma CookieFresh(c: u32, k: nat)
    requires 0 < k < COOKIE_MOD
    ensures CookieAfter(c, k) != c
  {
    CookieAfterIsSum(c, k);
  }

  lemma {:induction false} ReverseAt<T>(s: seq<T>, k: nat)
    requires k < |s|
    ensures Reverse(s)[k] == s[|s| - 1 - k]
    decreases |s|
  {
    if k > 0 {
      var init := s[..|s| - 1];
      assert Reverse(s) == [s[|s| - 1]] + Reverse(init);
      ReverseAt(init, k - 1);
      assert init[|init| - 1 - (k - 1)] == s[|s| - 1 - k];
    }
  }

  /** Reversing twice gives back the sequence. */
  lemma ReverseReverse<T>(s: seq<T>)
    ensures Reverse(Reverse(s)) == s
  {
    forall k | 0 <= k < |s|
      ensures Reverse(Reverse(s))[k] == s[k]
    {
      ReverseAt(Reverse(s), k);
      ReverseAt(s, |s| - 1 - k);
    }
  }

  lemma ReverseMembers<T>(s: seq<T>, x: T)
    ensures x in Reverse(s) <==> x in s
  {
    if x in s {
      var k :| 0 <= k < |s| && s[k] == x;
      ReverseAt(s, |s| - 1 - k);
    }
    if x in Reverse(s) {
      var k :| 0 <= k < |s| && Reverse(s)[k] == x;
      ReverseAt(s, k);
    }
  }

  lemma ReverseDistinct(s: seq<nat>)
    requires Distinct(s)
    ensures Distinct(Reverse(s))
  {
    forall i, j | 0 <= i < j < |s|
      ensures Reverse(s)[i] != Reverse(s)[j]
    {
      ReverseAt(s, i);
      ReverseAt(s, j);
    }
  }

  /** Dropping the first index of a chain leaves the chain that starts at its link. */
  lemma IsChainTail(links: seq<Entry>, head: int, chain: seq<nat>)
    requires IsChain(links, head, chain) && chain != []
    ensures IsChain(links, links[chain[0]].next, chain[1..])
  {
    var t := chain[1..];
    forall k | 0 <= k < |t|
      ensures links[t[k]].next == Succ(t, k)
    {
      assert t[k] == chain[k + 1];
      assert Succ(chain, k + 1) == Succ(t, k);
    }
    assert links[chain[0]].next == HeadOf(chain[1..]);
  }

  /** Linking a fresh index in front of a chain makes it the new head. */
  lemma IsChainCons(links: seq<Entry>, head: int, chain: seq<nat>, x: nat)
    requires IsChain(links, head, chain)
    requires x < |links| && x !in chain && links[x].next == head
    ensures IsChain(links, x, [x] + chain)
  {
    var c := [x] + chain;
    assert forall k :: 0 < k < |c| ==> c[k] == chain[k - 1];
    forall i, j | 0 <= i < j < |c| ensures c[i] != c[j] {
      if i == 0 {
        assert c[j] in chain;
      }
    }
    forall k | 0 <= k < |c|
      ensures links[c[k]].next == Succ(c, k)
    {
      if k > 0 {
        assert Succ(c, k) == Succ(chain, k - 1);
      }
    }
  }

  /** Only the empty chain starts at NULL_IDX. */
  lemma NullChainEmpty(links: seq<Entry>, chain: seq<nat>)
    requires IsChain(links, NULL_IDX, chain)
    ensures chain == []
  {
  }

  /** A chain survives any change to the array that leaves its own links alone. */
  lemma IsChainFrame(a: seq<Entry>, b: seq<Entry>, head: int, chain: seq<nat>)
    requires IsChain(a, head, chain) && |b| == |a|
    requires forall k :: 0 <= k < |chain| ==> b[chain[k]].next == a[chain[k]].next
    ensures IsChain(b, head, chain)
  {
  }

  /** A chain that does not pass through `x` survives any change confined to entry `x`. */
  lemma IsChainFrameExcept(a: seq<Entry>, b: seq<Entry>, head: int, chain: seq<nat>, x: int)
    requires IsChain(a, head, chain) && |b| == |a| && x !in chain
    requires forall j :: 0 <= j < |a| && j != x ==> b[j] == a[j]
    ensures IsChain(b, head, chain)
  {
    forall k | 0 <= k < |chain| ensures b[chain[k]].next == a[chain[k]].next {
      assert chain[k] != x;
    }
  }

  /** Pushing `x` rewrites only `x`'s link and keeps the chain well formed and within capacity. */
  lemma PushLink(a: seq<Entry>, head: int, chain: seq<nat>, x: nat)
    requires IsChain(a, head, chain)
    requires x < |a| && x !in chain
    ensures IsChain(a[x := a[x].(next := head)], x, [x] + chain)
    ensures |chain| + 1 <= |a|
  {
    assert Distinct([x] + chain) by {
      forall k | 0 < k < |chain| + 1 ensures ([x] + chain)[k] == chain[k - 1] { }
    }
    DistinctBelow([x] + chain, |a|);
    var b := a[x := a[x].(next := head)];
    IsChainFrame(a, b, head, chain);
    IsChainCons(b, head, chain, x);
  }

  /** Popping the head rewrites only its link and leaves the rest of the chain well formed. */
  lemma PopLink(a: seq<Entry>, head: int, chain: seq<nat>)
    requires IsChain(a, head, chain) && chain != []
    ensures IsChain(a[chain[0] := a[chain[0]].(next := NULL_IDX)], a[chain[0]].next, chain[1..])
  {
    IsChainTail(a, head, chain);
    var b := a[chain[0] := a[chain[0]].(next := NULL_IDX)];
    forall k | 0 <= k < |chain[1..]| ensures chain[1..][k] != chain[0] {
      assert chain[1..][k] == chain[k + 1];
    }
    IsChainFrame(a, b, a[chain[0]].next, chain[1..]);
  }

  /** One step of the reversal loop: the next index of the old chain joins the reversed prefix. */
  lemma ReverseStep(links: seq<Entry>, cur: seq<Entry>, last: int, c: seq<nat>, count: nat)
    requires IsChain(links, HeadOf(c), c) && |cur| == |links|
    requires count < |c|
    requires IsChain(cur, last, Reverse(c[..count]))
    ensures IsChain(cur[c[count] := cur[c[count]].(next := last)], c[count], Reverse(c[..count + 1]))
  {
    var x := c[count];
    assert x !in Reverse(c[..count]) by {
      ReverseMembers(c[..count], x);
    }
    var b := cur[x := cur[x].(next := last)];
    IsChainFrame(cur, b, last, Reverse(c[..count]));
    IsChainCons(b, last, Reverse(c[..count]), x);
    assert c[..count + 1][..count] == c[..count];
  }

  /** Following `next` from the head visits exactly the chain, then reaches NULL_IDX and stops. */
  lemma {:induction false} WalkFollowsChain(links: seq<Entry>, head: int, chain: seq<nat>, steps: nat)
    requires IsChain(links, head, chain) && steps >= |chain|
    ensures Walk(links, head, steps) == chain
    decreases steps
  {
    if chain == [] {
      assert head == NULL_IDX;
    } else {
      IsChainTail(links, head, chain);
      WalkFollowsChain(links, links[chain[0]].next, chain[1..], steps - 1);
      assert chain == [chain[0]] + chain[1..];
    }
  }

  /** Two chains from the same head in the same array are the same chain. */
  lemma ChainUnique(links: seq<Entry>, head: int, c1: seq<nat>, c2: seq<nat>)
    requires IsChain(links, head, c1) && IsChain(links, head, c2)
    ensures c1 == c2
  {
    var n := if |c1| < |c2| then |c2| else |c1|;
    WalkFollowsChain(links, head, c1, n);
    WalkFollowsChain(links, head, c2, n);
  }

  /** The indices below `n`. */
  ghost function Below(n: nat): set<nat>
  {
    if n == 0 then {} else Below(n - 1) + {n - 1}
  }

  lemma {:induction false} BelowSize(n: nat)
    ensures |Below(n)| == n && forall x: nat :: x in Below(n) <==> x < n
  {
    if n > 0 {
      BelowSize(n - 1);
      var prev := Below(n - 1);
      assert Below(n) == prev + {n - 1};
      assert n - 1 !in prev;
      assert |prev + {n - 1}| == |prev| + 1;
    }
  }

  /** Distinct values drawn from a set number at most its size. */
  lemma {:induction false} DistinctWithin(s: seq<nat>, pool: set<nat>)
    requires Distinct(s)
    requires forall k :: 0 <= k < |s| ==> s[k] in pool
    ensures |s| <= |pool|
  {
    if s != [] {
      assert forall k :: 0 <= k < |s| - 1 ==> s[1..][k] == s[k + 1];
      DistinctWithin(s[1..], pool - {s[0]});
    }
  }

  /** Pigeonhole: distinct indices below `n` number at most `n`. */
  lemma DistinctBelow(s: seq<nat>, n: nat)
    requires Distinct(s)
    requires forall k :: 0 <= k < |s| ==> s[k] < n
    ensures |s| <= n
  {
    BelowSize(n);
    DistinctWithin(s, Below(n));
  }

  /** The live count of a well-formed chain never exceeds the capacity of the array. */
  lemma CountWithinCapacity(links: seq<Entry>, head: int, chain: seq<nat>)
    requires IsChain(links, head, chain)
    ensures |chain| <= |links|
  {
    DistinctBelow(chain, |links|);
  }

  /** The index the reversal loop has just visited after `n` steps (its `last`). */
  function PrevOf(c: seq<nat>, n: nat): int
    requires n <= |c|
  {
    if n == 0 then NULL_IDX else c[n - 1]
  }

  /** The array after the first `n` steps of the reversal loop over chain `c`. */
  ghost function Relinked(links: seq<Entry>, c: seq<nat>, n: nat): (r: seq<Entry>)
    requires n <= |c| && |links| <= NULL_IDX && forall k :: 0 <= k < |c| ==> c[k] < |links|
    ensures |r| == |links|
  {
    if n == 0 then links
    else
      var prev := Relinked(links, c, n - 1);
      prev[c[n - 1] := prev[c[n - 1]].(next := PrevOf(c, n - 1))]
  }

  /** The reversal loop leaves data alone, and touches only the entries it has visited. */
  lemma {:induction false} RelinkedFrame(links: seq<Entry>, c: seq<nat>, n: nat)
    requires IsChain(links, HeadOf(c), c) && n <= |c|
    ensures forall j :: 0 <= j < |links| ==> Relinked(links, c, n)[j].data == links[j].data
    ensures forall j :: 0 <= j < |links| && j !in c[..n] ==> Relinked(links, c, n)[j] == links[j]
  {
    if n > 0 {
      RelinkedFrame(links, c, n - 1);
      assert forall j :: j in c[..n - 1] ==> j in c[..n];
    }
  }

  /** After `n` steps the visited prefix forms a chain in reverse order, headed by the last one visited. */
  lemma {:induction false} RelinkedChain(links: seq<Entry>, c: seq<nat>, n: nat)
    requires IsChain(links, HeadOf(c), c) && n <= |c|
    ensures IsChain(Relinked(links, c, n), PrevOf(c, n), Reverse(c[..n]))
  {
    if n == 0 {
      assert c[..0] == [];
    } else {
      RelinkedChain(links, c, n - 1);
      ReverseStep(links, Relinked(links, c, n - 1), PrevOf(c, n - 1), c, n - 1);
    }
  }

  /**
   * The reversal loop of llqueue_dequeue_all: walks a detached chain and points
   * every entry back at its predecessor; returns the new head and the length.
   */
  method ReverseLinks(entries: array<Entry>, first: u32, ghost c: seq<nat>) returns (last: u32, count: nat)
    requires IsChain(entries[..], first, c)
    modifies entries
    ensures count == |c|
    ensures IsChain(entries[..], last, Reverse(c))
    ensures forall j :: 0 <= j < entries.Length ==> entries[j].data == old(entries[j].data)
    ensures forall j :: 0 <= j < entries.Length && j !in c ==> entries[j] == old(entries[j])
  {
    ghost var links := entries[..];
    var next: u32 := first;
    last := NULL_IDX;
    count := 0;
    while next != NULL_IDX
      invariant count <= |c|
      invariant next == HeadOf(c[count..])
      invariant last == PrevOf(c, count)
      invariant entries[..] == Relinked(links, c, count)
      decreases |c| - count
    {
      var idx := next;
      assert idx == c[count];
      RelinkedFrame(links, c, count);
      assert c[count] !in c[..count];
      next := entries[idx].next;
      assert next == HeadOf(c[count + 1..]);
      entries[idx] := entries[idx].(next := last);
      last := idx;
      count := count + 1;
    }
    assert c[..count] == c;
    RelinkedChain(links, c, count);
    RelinkedFrame(links, c, count);
  }

  // ---------------------------------------------------------------------------
  // The queue

  /** struct llqueue: a packed head over a caller-supplied array, with its capacity and live count. */
  class IndexQueue {
    var head: u32
    var cookie: u32
    var entriesSz: u32
    var entriesNum: u32
    var entries: array<Entry>
    /** The indices reachable from `head`, most recently enqueued first. */
    ghost var Chain: seq<nat>

    ghost predicate Valid()
      reads this, entries
    {
      && entriesSz == entries.Length
      && IsChain(entries[..], head, Chain)
      && entriesNum == |Chain|
    }

    /** llqueue_init: an empty queue over `entries`. */
    constructor Init(entries: array<Entry>, entriesSz: u32)
      requires entries.Length == entriesSz
      ensures Valid() && Chain == []
      ensures head == NULL_IDX && cookie == 0 && entriesNum == 0
      ensures this.entries == entries && this.entriesSz == entriesSz
    {
      head := NULL_IDX;
      cookie := 0;
      this.entries := entries;
      this.entriesSz := entriesSz;
      entriesNum := 0;
      Chain := [];
    }

    /** llqueue_enqueue: push `idx`; returns the previous head. */
    method Enqueue(idx: u32) returns (prev: u32)
      requires Valid()
      requires idx < entries.Length && idx !in Chain
      modifies this, entries
      ensures Valid() && entries == old(entries) && entriesSz == old(entriesSz)
      ensures Chain == [idx] + old(Chain)
      ensures head == idx && prev == old(head)
      ensures cookie == NextCookie(old(cookie)) && entriesNum == old(entriesNum) + 1
      ensures entries[idx] == old(entries[idx]).(next := old(head))
      ensures forall j :: 0 <= j < entries.Length && j != idx ==> entries[j] == old(entries[j])
    {
      PushLink(entries[..], head, Chain, idx);
      var cur := head;
      entries[idx] := entries[idx].(next := cur);
      head := idx;
      cookie := NextCookie(cookie);
      entriesNum := entriesNum + 1;
      Chain := [idx] + Chain;
      prev := cur;
    }

    /** llqueue_dequeue: pop the most recently enqueued index, or NULL_IDX when empty. */
    method Dequeue() returns (idx: u32)
      requires Valid()
      modifies this, entries
      ensures Valid() && entries == old(entries) && entriesSz == old(entriesSz)
      ensures old(Chain) == [] ==>
        && idx == NULL_IDX && Chain == [] && entries[..] == old(entries[..])
        && head == old(head) && cookie == old(cookie) && entriesNum == old(entriesNum)
      ensures old(Chain) != [] ==>
        && idx == old(Chain)[0] && Chain == old(Chain)[1..]
        && head == old(entries[idx].next)
        && cookie == NextCookie(old(cookie)) && entriesNum == old(entriesNum) - 1
        && entries[idx] == old(entries[idx]).(next := NULL_IDX)
      ensures forall j :: 0 <= j < entries.Length && j != idx ==> entries[j] == old(entries[j])
    {
      if head == NULL_IDX {
        return NULL_IDX;
      }
      idx := head;
      PopLink(entries[..], head, Chain);
      head := entries[idx].next;
      cookie := NextCookie(cookie);
      entriesNum := entriesNum - 1;
      Chain := Chain[1..];
      entries[idx] := entries[idx].(next := NULL_IDX);
    }

    /**
     * llqueue_dequeue_all: detach the whole chain and reverse it in place, so
     * that the returned chain lists the indices oldest first.
     */
    method DequeueAll() returns (first: u32)
      requires Valid()
      modifies this, entries
      ensures Valid() && Chain == [] && entries == old(entries) && entriesSz == old(entriesSz)
      ensures old(Chain) == [] ==>
        && first == NULL_IDX && entries[..] == old(entries[..])
        && head == old(head) && cookie == old(cookie) && entriesNum == old(entriesNum)
      ensures old(Chain) != [] ==>
        head == NULL_IDX && cookie == NextCookie(old(cookie)) && entriesNum == 0
      ensures IsChain(entries[..], first, Reverse(old(Chain)))
      ensures forall j :: 0 <= j < entries.Length ==> entries[j].data == old(entries[j].data)
      ensures forall j :: 0 <= j < entries.Length && j !in old(Chain) ==> entries[j] == old(entries[j])
    {
      if head == NULL_IDX {
        return NULL_IDX;
      }
      ghost var c := Chain;
      var cur := head;
      head := NULL_IDX;
      cookie := NextCookie(cookie);
      Chain := [];
      var last, count := ReverseLinks(entries, cur, c);
      CountWithinCapacity(old(entries[..]), cur, c);
      entriesNum := entriesNum - count;
      first := last;
    }
  }

  /**
   * Drain order: indices pushed one at a time onto an empty queue and then
   * drained come back, by following `next` from the drained head, in the
   * order they were pushed, followed by NULL_IDX.
   */
  method PushThenDrain(q: IndexQueue, items: seq<nat>) returns (first: u32)
    requires q.Valid() && q.Chain == []
    requires Distinct(items) && forall k :: 0 <= k < |items| ==> items[k] < q.entries.Length
    modifies q, q.entries
    ensures q.Valid() && q.Chain == [] && q.entries == old(q.entries)
    ensures IsChain(q.entries[..], first, items)
    ensures Walk(q.entries[..], first, |items| + 1) == items
  {
    var i := 0;
    while i < |items|
      invariant 0 <= i <= |items|
      invariant q.Valid() && q.entries == old(q.entries)
      invariant q.Chain == Reverse(items[..i])
      modifies q, q.entries
    {
      assert items[i] !in q.Chain by {
        ReverseMembers(items[..i], items[i]);
      }
      var _ := q.Enqueue(items[i]);
      assert items[..i + 1][..i] == items[..i];
      i := i + 1;
    }
    assert items[..i] == items;
    first := q.DequeueAll();
    ReverseReverse(items);
    WalkFollowsChain(q.entries[..], first, items, |items| + 1);
  }
}
