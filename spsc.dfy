// The single-producer single-consumer queue of src/std/queue/spsc.rs: a FIFO
// stored in a chain of fixed-size blocks.  The producer writes at `push_index`
// in the tail block and links a fresh block whenever the index crosses a block
// boundary; the consumer reads at `pop_index` in the head block and frees that
// block when it crosses the same boundary.
//
// The values held by the chain are the field `items`, oldest first; the head
// and tail links are the numbers `headBlock` and `tailBlock` of the blocks they
// name, counted from the first block ever allocated.  Both indices are `usize`
// and wrap around modulo 2^64 as `wrapping_add`/`wrapping_sub` do.

module Spsc {
  import opened Wrappers

  /** 2^64: the indices are `usize`. */
  const USIZE: nat := 0x1_0000_0000_0000_0000

  /** Slots per block node.  It is a power of two, so `i & BLOCK_MASK == 0`
      is `i % BLOCK_SIZE == 0`, and it divides 2^64. */
  const BLOCK_SIZE: nat := 32

  /** Wrap-around preserves the position inside a block. */
  lemma WrapKeepsSlot(x: nat)
    ensures (x % USIZE) % BLOCK_SIZE == x % BLOCK_SIZE
  {
    var q := x / USIZE;
    assert x == q * USIZE + x % USIZE;
    assert q * USIZE == (q * (USIZE / BLOCK_SIZE)) * BLOCK_SIZE;
  }

  function Min(a: nat, b: nat): nat
  {
    if a <= b then a else b
  }

  /** How many items `bulk_pop_expect` takes: everything up to `push_index`,
      but never past the end of the head block, and at most `wanted` when
      `wanted` is positive. */
  function BulkCount(index: nat, size: nat, wanted: nat): (n: nat)
    ensures n <= size && n <= BLOCK_SIZE - index % BLOCK_SIZE
    ensures wanted > 0 ==> n <= wanted
    ensures size > 0 ==> n > 0
    ensures n == size || n == BLOCK_SIZE - index % BLOCK_SIZE || (wanted > 0 && n == wanted)
  {
    var n := Min(size, BLOCK_SIZE - index % BLOCK_SIZE);
    if wanted > 0 then Min(n, wanted) else n
  }

  class Queue<T> {
    /** The queued values, oldest first. */
    var items: seq<T>
    var pushIndex: nat
    var popIndex: nat
    var headBlock: nat
    var tailBlock: nat

    /** The indices are `usize` values that count the pushes and pops modulo
        2^64, and the head block is as many blocks behind the tail block as
        the items ahead of the tail slot span. */
    ghost predicate Valid()
      reads this
    {
      && |items| < USIZE - 1
      && Counters(popIndex, |items|, pushIndex, headBlock, tailBlock)
    }

    /** Queue::new: one block, both indices at 0. */
    constructor ()
      ensures Valid() && items == [] && headBlock == tailBlock
      ensures pushIndex == 0 && popIndex == 0
    {
      items := [];
      pushIndex, popIndex := 0, 0;
      headBlock, tailBlock := 0, 0;
    }

    /** Queue::size: `push_index.wrapping_sub(pop_index)`, the number of items. */
    function Size(): (n: nat)
      reads this
      requires Valid()
      ensures n == |items|
    {
      WrapDifference(popIndex, |items|, pushIndex);
      (pushIndex - popIndex) % USIZE
    }

    /** Queue::peek: the oldest item, or None when the indices meet. */
    function Peek(): (r: Option<T>)
      reads this
      requires Valid()
      ensures r.None? <==> items == []
      ensures r.Some? ==> r.value == items[0]
    {
      WrapDifference(popIndex, |items|, pushIndex);
      if popIndex == pushIndex then None else Some(items[0])
    }

    /** Queue::push: store at the tail, link a new tail block when the new
        index starts a block, commit the index. */
    method Push(v: T)
      requires Valid() && |items| < USIZE - 2
      modifies this
      ensures Valid()
      ensures items == old(items) + [v]
      ensures pushIndex == (old(pushIndex) + 1) % USIZE && popIndex == old(popIndex)
      ensures headBlock == old(headBlock)
      ensures tailBlock == old(tailBlock) + (if pushIndex % BLOCK_SIZE == 0 then 1 else 0)
    {
      var newIndex := (pushIndex + 1) % USIZE;
      PushKeeps(popIndex, |items|, pushIndex, headBlock, tailBlock);
      if newIndex % BLOCK_SIZE == 0 {
        tailBlock := tailBlock + 1;
      }
      items := items + [v];
      pushIndex := newIndex;
    }

    /** Queue::pop: None on an empty queue, otherwise the oldest item; the head
        block is freed when the new index starts a block. */
    method Pop() returns (r: Option<T>)
      requires Valid()
      modifies this
      ensures Valid()
      ensures old(items) == [] ==> r.None? && items == old(items) && popIndex == old(popIndex)
      ensures old(items) != [] ==> r == Some(old(items)[0]) && items == old(items)[1..]
      ensures old(items) != [] ==> popIndex == (old(popIndex) + 1) % USIZE
      ensures pushIndex == old(pushIndex) && tailBlock == old(tailBlock)
      ensures headBlock == old(headBlock) + (if old(items) != [] && popIndex % BLOCK_SIZE == 0 then 1 else 0)
    {
      WrapDifference(popIndex, |items|, pushIndex);
      if popIndex == pushIndex {
        return None;
      }
      var v := items[0];
      var newIndex := (popIndex + 1) % USIZE;
      PopKeeps(popIndex, |items|, pushIndex, headBlock, tailBlock, 1);
      if newIndex % BLOCK_SIZE == 0 {
        headBlock := headBlock + 1;
      }
      items := items[1..];
      popIndex := newIndex;
      r := Some(v);
    }

    /** Queue::bulk_pop_expect: append to `vec` the items up to the end of the
        head block (at most `wanted` of them when `wanted` is positive) and
        return how many were taken. */
    method BulkPopExpect(wanted: nat, vec: seq<T>) returns (count: nat, out: seq<T>)
      requires Valid()
      modifies this
      ensures Valid()
      ensures count == BulkCount(old(popIndex), |old(items)|, wanted)
      ensures out == vec + old(items)[..count] && items == old(items)[count..]
      ensures popIndex == (old(popIndex) + count) % USIZE
      ensures pushIndex == old(pushIndex) && tailBlock == old(tailBlock)
      ensures headBlock == old(headBlock) + (if count > 0 && popIndex % BLOCK_SIZE == 0 then 1 else 0)
    {
      WrapDifference(popIndex, |items|, pushIndex);
      if popIndex == pushIndex {
        return 0, vec;
      }
      var size := (pushIndex - popIndex) % USIZE;
      count := BulkCount(popIndex, size, wanted);
      var end := (popIndex + count) % USIZE;
      out := vec + items[..count];
      PopKeeps(popIndex, |items|, pushIndex, headBlock, tailBlock, count);
      if end % BLOCK_SIZE == 0 {
        headBlock := headBlock + 1;
      }
      items := items[count..];
      popIndex := end;
    }

    /** Queue::bulk_pop: bulk_pop_expect with no limit. */
    method BulkPop(vec: seq<T>) returns (count: nat, out: seq<T>)
      requires Valid()
      modifies this
      ensures Valid()
      ensures count == BulkCount(old(popIndex), |old(items)|, 0)
      ensures out == vec + old(items)[..count] && items == old(items)[count..]
      ensures popIndex == (old(popIndex) + count) % USIZE
      ensures pushIndex == old(pushIndex) && tailBlock == old(tailBlock)
      ensures headBlock == old(headBlock) + (if count > 0 && popIndex % BLOCK_SIZE == 0 then 1 else 0)
    {
      count, out := BulkPopExpect(0, vec);
    }

    /** The loop of Drop: pop until empty; the head and tail links then
        name the same block, the only one left to free. */
    method Drain() returns (drained: seq<T>)
      requires Valid()
      modifies this
      ensures Valid() && items == [] && drained == old(items)
      ensures headBlock == tailBlock
    {
      drained := [];
      while true
        invariant Valid() && old(items) == drained + items
        decreases |items|
      {
        var r := Pop();
        if r.None? {
          break;
        }
        drained := drained + [r.value];
      }
      EmptySpansNoBlock(popIndex);
    }
  }

  /** `push_index.wrapping_sub(pop_index)` recovers the item count, so the
      indices meet exactly when the queue is empty. */
  lemma WrapDifference(popIndex: nat, n: nat, pushIndex: nat)
    requires popIndex < USIZE && n < USIZE && pushIndex == (popIndex + n) % USIZE
    ensures (pushIndex - popIndex) % USIZE == n
    ensures popIndex == pushIndex <==> n == 0
  {
    if popIndex + n < USIZE {
      assert pushIndex == popIndex + n;
    } else {
      assert pushIndex == popIndex + n - USIZE;
    }
  }

  /** The index and block arithmetic of a queue of `n` items. */
  predicate Counters(popIndex: nat, n: nat, pushIndex: nat, headBlock: nat, tailBlock: nat)
  {
    && pushIndex < USIZE && popIndex < USIZE
    && (popIndex + n) % USIZE == pushIndex
    && headBlock <= tailBlock
    && tailBlock - headBlock == (popIndex % BLOCK_SIZE + n) / BLOCK_SIZE
  }

  /** A push keeps the counters consistent. */
  lemma PushKeeps(popIndex: nat, n: nat, pushIndex: nat, headBlock: nat, tailBlock: nat)
    requires Counters(popIndex, n, pushIndex, headBlock, tailBlock)
    ensures var e := (pushIndex + 1) % USIZE;
            Counters(popIndex, n + 1, e, headBlock, tailBlock + (if e % BLOCK_SIZE == 0 then 1 else 0))
  {
    PushSlot(popIndex, n, pushIndex);
  }

  /** Popping `k` items that lie in the head block keeps the counters
      consistent; the head block is freed exactly when the new index starts a
      block. */
  lemma PopKeeps(popIndex: nat, n: nat, pushIndex: nat, headBlock: nat, tailBlock: nat, k: nat)
    requires Counters(popIndex, n, pushIndex, headBlock, tailBlock)
    requires 1 <= k <= n && k <= BLOCK_SIZE - popIndex % BLOCK_SIZE
    ensures var e := (popIndex + k) % USIZE;
            && (e % BLOCK_SIZE == 0 ==> headBlock < tailBlock)
            && Counters(e, n - k, pushIndex, headBlock + (if e % BLOCK_SIZE == 0 then 1 else 0), tailBlock)
  {
    PopSlots(popIndex, n, k);
    var e := (popIndex + k) % USIZE;
    assert (e + (n - k)) % USIZE == (popIndex + n) % USIZE by {
      WrapSum(popIndex + k, n - k);
    }
  }

  /** Adding after wrapping is wrapping after adding. */
  lemma WrapSum(a: nat, b: nat)
    ensures (a % USIZE + b) % USIZE == (a + b) % USIZE
  {
  }

  /** The block count after one push. */
  lemma PushSlot(popIndex: nat, n: nat, pushIndex: nat)
    requires popIndex < USIZE && pushIndex == (popIndex + n) % USIZE
    ensures (popIndex + n + 1) % USIZE == (pushIndex + 1) % USIZE
    ensures ((pushIndex + 1) % USIZE) % BLOCK_SIZE == (popIndex % BLOCK_SIZE + n + 1) % BLOCK_SIZE
    ensures (popIndex % BLOCK_SIZE + n + 1) / BLOCK_SIZE
            == (popIndex % BLOCK_SIZE + n) / BLOCK_SIZE + (if (popIndex % BLOCK_SIZE + n + 1) % BLOCK_SIZE == 0 then 1 else 0)
  {
    WrapSucc(popIndex + n);
    WrapKeepsSlot(popIndex + n + 1);
    SlotSucc(popIndex, n);
    CarrySucc(popIndex % BLOCK_SIZE + n);
  }

  lemma WrapSucc(x: nat)
    ensures (x + 1) % USIZE == (x % USIZE + 1) % USIZE
  {
  }

  lemma SlotSucc(p: nat, n: nat)
    ensures (p + n + 1) % BLOCK_SIZE == (p % BLOCK_SIZE + n + 1) % BLOCK_SIZE
  {
  }

  lemma CarrySucc(x: nat)
    ensures (x + 1) / BLOCK_SIZE == x / BLOCK_SIZE + (if (x + 1) % BLOCK_SIZE == 0 then 1 else 0)
  {
  }

  /** The block count after `k` pops that stay inside the head block. */
  lemma PopSlots(popIndex: nat, n: nat, k: nat)
    requires popIndex < USIZE && 1 <= k <= n && k <= BLOCK_SIZE - popIndex % BLOCK_SIZE
    ensures var e := (popIndex + k) % USIZE;
            && e % BLOCK_SIZE == (popIndex % BLOCK_SIZE + k) % BLOCK_SIZE
            && (popIndex % BLOCK_SIZE + n) / BLOCK_SIZE
               == (e % BLOCK_SIZE + (n - k)) / BLOCK_SIZE + (if e % BLOCK_SIZE == 0 then 1 else 0)
  {
    WrapKeepsSlot(popIndex + k);
    var s := popIndex % BLOCK_SIZE;
    if s + k == BLOCK_SIZE {
      assert (s + n) / BLOCK_SIZE == (n - k) / BLOCK_SIZE + 1;
    } else {
      assert (s + k) % BLOCK_SIZE == s + k;
    }
  }

  /** With nothing queued the head block is the tail block. */
  lemma EmptySpansNoBlock(popIndex: nat)
    ensures (popIndex % BLOCK_SIZE + 0) / BLOCK_SIZE == 0
  {
  }

  /** queue_sanity: pushing 0..n and popping n times gives 0..n back in order,
      after which the queue is empty. */
  method PushThenPopAll(n: nat) returns (popped: seq<nat>, last: Option<nat>, size: nat)
    requires n < USIZE - 2
    ensures |popped| == n && forall i :: 0 <= i < n ==> popped[i] == i
    ensures last.None? && size == 0
  {
    var q := FilledQueue(n);
    popped := [];
    while |popped| < n
      invariant q.Valid() && |popped| <= n && |q.items| == n - |popped|
      invariant forall j :: 0 <= j < |popped| ==> popped[j] == j
      invariant forall j :: 0 <= j < |q.items| ==> q.items[j] == |popped| + j
    {
      var r := q.Pop();
      popped := popped + [r.value];
    }
    last := q.Pop();
    size := q.Size();
  }

  /** A fresh queue after pushing 0, 1, ..., n - 1. */
  method FilledQueue(n: nat) returns (q: Queue<nat>)
    requires n < USIZE - 2
    ensures fresh(q) && q.Valid() && q.popIndex == 0
    ensures |q.items| == n && forall j :: 0 <= j < n ==> q.items[j] == j
  {
    q := new Queue<nat>();
    var i := 0;
    while i < n
      invariant 0 <= i <= n && q.Valid() && |q.items| == i && q.popIndex == 0
      invariant forall j :: 0 <= j < i ==> q.items[j] == j
    {
      q.Push(i);
      i := i + 1;
    }
  }

  /** The counts and pop positions of bulk_pop_test. */
  lemma ExampleCounts()
    ensures BulkCount(0, BLOCK_SIZE + 17, 0) == BLOCK_SIZE && (0 + BLOCK_SIZE) % USIZE == BLOCK_SIZE
    ensures BulkCount(BLOCK_SIZE, 17, 8) == 8 && (BLOCK_SIZE + 8) % USIZE == BLOCK_SIZE + 8
    ensures BulkCount(BLOCK_SIZE + 8, 9, 0) == 9
  {
  }

  lemma SliceJoin<E>(s: seq<E>, i: nat, j: nat)
    requires i <= j <= |s|
    ensures s[..i] + s[i..][..j - i] == s[..j] && s[i..][j - i..] == s[j..]
  {
    assert s[..i] + s[i..][..j - i] == s[..j];
  }

  /** bulk_pop_test: after BLOCK_SIZE + 17 pushes, an unlimited bulk pop takes
      the first whole block, a bulk pop of 8 takes 8, and the next unlimited
      one takes the 9 left; together they are the pushed values in order. */
  method BulkPopExample() returns (c1: nat, c2: nat, c3: nat, vec: seq<nat>, size: nat)
    ensures c1 == BLOCK_SIZE && c2 == 8 && c3 == 9 && size == 0
    ensures |vec| == BLOCK_SIZE + 17 && forall i :: 0 <= i < |vec| ==> vec[i] == i
  {
    var q := FilledQueue(BLOCK_SIZE + 17);
    ghost var all := q.items;
    ExampleCounts();
    c1, vec := q.BulkPopExpect(0, []);
    assert c1 == BLOCK_SIZE && q.popIndex == BLOCK_SIZE;
    assert vec == all[..BLOCK_SIZE] && q.items == all[BLOCK_SIZE..];
    c2, vec := q.BulkPopExpect(8, vec);
    assert c2 == 8 && q.popIndex == BLOCK_SIZE + 8;
    SliceJoin(all, BLOCK_SIZE, BLOCK_SIZE + 8);
    assert vec == all[..BLOCK_SIZE + 8] && q.items == all[BLOCK_SIZE + 8..];
    c3, vec := q.BulkPop(vec);
    assert c3 == 9;
    SliceJoin(all, BLOCK_SIZE + 8, BLOCK_SIZE + 17);
    assert vec == all[..BLOCK_SIZE + 17];
    size := q.Size();
  }
}
