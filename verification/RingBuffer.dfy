/** The ring buffer of lockfree_ringbuffer.h as one thread sees it. */
module RingBuffer {
  import opened Arithmetic
  import opened Options

  // ---------- the mask ----------

  /** `x & y`. */
  function And(x: nat, y: nat): nat {
    if x == 0 || y == 0 then 0 else 2 * And(x / 2, y / 2) + (x % 2) * (y % 2)
  }

  function Pow2(k: nat): (p: nat)
    ensures p > 0
  {
    if k == 0 then 1 else 2 * Pow2(k - 1)
  }

  /** The slot of position `i`. */
  function Slot(i: nat, m: nat): (s: nat)
    requires m > 0
    ensures s < m
  {
    i % m
  }

  /** Positions less than a whole turn apart have different slots. */
  lemma SlotsDiffer(a: nat, b: nat, m: nat)
    requires a < b < a + m
    ensures Slot(a, m) != Slot(b, m)
  {
    RemaindersDiffer(a, b, m);
  }

  /** Masking with one less than a power of two takes the remainder. */
  lemma {:induction false} MaskIsRemainder(x: nat, k: nat)
    ensures And(x, Pow2(k) - 1) == Slot(x, Pow2(k))
    decreases k
  {
    if k > 0 {
      var m := Pow2(k - 1);
      MaskIsRemainder(x / 2, k - 1);
      ModHalves(x, m);
      Odd(m);
      hide Slot;
      if x > 0 {
        assert And(x, 2 * m - 1) == 2 * And(x / 2, m - 1) + x % 2;
      } else {
        assert And(0, m - 1) == 0;
      }
    }
  }

  lemma Odd(m: nat)
    requires m > 0
    ensures (2 * m - 1) / 2 == m - 1 && (2 * m - 1) % 2 == 1
  {
  }

  // ---------- the live part ----------

  /** The values between `tail` and `head`, oldest first, `m` slots to a turn. */
  function Live<D>(slots: seq<D>, head: nat, tail: nat): (live: seq<D>)
    requires tail <= head && |slots| > 0
    ensures |live| == head - tail
    ensures forall i | 0 <= i < head - tail :: live[i] == slots[Slot(tail + i, |slots|)]
  {
    seq(head - tail, i requires 0 <= i < head - tail => slots[Slot(tail + i, |slots|)])
  }

  /** Writing the slot at `head` leaves the live part alone, and moving `head` past it appends. */
  lemma WriteAppends<D>(slots: seq<D>, head: nat, tail: nat, d: D)
    requires tail <= head && head - tail + 1 <= |slots|
    ensures var written := slots[Slot(head, |slots|) := d];
      Live(written, head, tail) == Live(slots, head, tail)
      && Live(written, head + 1, tail) == Live(slots, head, tail) + [d]
  {
    var m := |slots|;
    hide Slot;
    var written := slots[Slot(head, m) := d];
    var live := Live(slots, head, tail);
    forall i | 0 <= i < |live| ensures Live(written, head, tail)[i] == live[i] {
      SlotsDiffer(tail + i, head, m);
    }
    assert Live(written, head, tail) == live;
    assert Live(written, head + 1, tail) == Live(written, head, tail) + [d];
  }

  lemma TakeDrops<D>(slots: seq<D>, head: nat, tail: nat)
    requires tail < head && |slots| > 0
    ensures Live(slots, head, tail) == [slots[Slot(tail, |slots|)]] + Live(slots, head, tail + 1)
  {
    hide Slot;
  }

  // ---------- the array is one slot short ----------

  /** Is `n` the least power of two that is at least `size`? */
  predicate LeastPower(n: nat, k: nat, size: int) {
    n == Pow2(k) && size <= n && forall j | 0 <= j < k :: Pow2(j) < size
  }

  /** real_queue_size_ and the two counters. `mask` slots are allocated. */
  datatype Counters = Counters(mask: nat, head: nat, tail: nat)

  datatype Op = PushOp | PopOp

  predicate Refused(c: Counters, op: Op) {
    match op case PushOp => c.head - c.tail >= c.mask case PopOp => c.tail == c.head
  }

  function Advance(c: Counters, op: Op): Counters {
    if Refused(c, op) then c else match op case PushOp => c.(head := c.head + 1) case PopOp => c.(tail := c.tail + 1)
  }

  /** The call reads or writes the element after the last one allocated. */
  predicate Outside(c: Counters, op: Op) {
    !Refused(c, op) && And(match op case PushOp => c.head case PopOp => c.tail, c.mask) >= c.mask
  }

  /** A call that is not refused leaves the array exactly when its counter is one short of a whole turn. */
  lemma OutsideIff(c: Counters, op: Op, bits: nat)
    requires c.mask + 1 == Pow2(bits)
    ensures Outside(c, op)
      <==> !Refused(c, op) && Slot(match op case PushOp => c.head case PopOp => c.tail, c.mask + 1) == c.mask
  {
    MaskIsRemainder(match op case PushOp => c.head case PopOp => c.tail, bits);
  }

  function Calls(c: Counters, ops: seq<Op>): Counters
    decreases |ops|
  {
    if ops == [] then c else Calls(Advance(c, ops[0]), ops[1..])
  }

  /** Some call of the run leaves the array. */
  predicate Leaves(c: Counters, ops: seq<Op>)
    decreases |ops|
  {
    ops != [] && (Outside(c, ops[0]) || Leaves(Advance(c, ops[0]), ops[1..]))
  }

  predicate Sane(c: Counters) { c.tail <= c.head <= c.tail + c.mask }

  lemma {:induction false} CallsGrow(c: Counters, ops: seq<Op>)
    requires Sane(c)
    ensures Sane(Calls(c, ops)) && Calls(c, ops).head >= c.head && Calls(c, ops).mask == c.mask
    decreases |ops|
  {
    if ops != [] {
      CallsGrow(Advance(c, ops[0]), ops[1..]);
    }
  }

  lemma InTurn(i: nat, mask: nat)
    requires i <= mask
    ensures Slot(i, mask + 1) == i
  {
  }

  lemma {:induction false} LeavesFrom(c: Counters, ops: seq<Op>, bits: nat)
    requires Sane(c) && c.head <= c.mask && c.mask + 1 == Pow2(bits)
    ensures Leaves(c, ops) <==> Calls(c, ops).head > c.mask
    decreases |ops|
  {
    if ops != [] {
      var op, d := ops[0], Advance(c, ops[0]);
      OutsideIff(c, op, bits);
      InTurn(c.head, c.mask);
      InTurn(c.tail, c.mask);
      CallsGrow(d, ops[1..]);
      hide Slot, Outside;
      if d.head <= c.mask {
        LeavesFrom(d, ops[1..], bits);
      }
    }
  }

  /** A run from the initialized buffer leaves the array exactly if more pushes than there are slots
      succeed in it. */
  lemma RunLeavesIff(mask: nat, bits: nat, ops: seq<Op>)
    requires mask + 1 == Pow2(bits)
    ensures Leaves(Counters(mask, 0, 0), ops) <==> Calls(Counters(mask, 0, 0), ops).head > mask
  {
    LeavesFrom(Counters(mask, 0, 0), ops, bits);
  }

  /** `n` times a push and a pop. */
  function Pairs(n: nat): seq<Op> { if n == 0 then [] else [PushOp, PopOp] + Pairs(n - 1) }

  lemma {:induction false} PairsRun(c: Counters, n: nat, rest: seq<Op>)
    requires c.mask > 0 && c.head == c.tail
    ensures Calls(c, Pairs(n) + rest) == Calls(Counters(c.mask, c.head + n, c.tail + n), rest)
    decreases n
  {
    if n == 0 {
      assert Pairs(n) + rest == rest;
    } else {
      var ops := Pairs(n) + rest;
      assert ops[1..][1..] == Pairs(n - 1) + rest && ops[0] == PushOp && ops[1..][0] == PopOp;
      PairsRun(Counters(c.mask, c.head + 1, c.tail + 1), n - 1, rest);
    }
  }

  /** However large the buffer: after as many pushes and pops as there are slots, with never more than
      one element in the buffer, the next push leaves the array. */
  lemma NextPushLeaves(mask: nat, bits: nat)
    requires mask + 1 == Pow2(bits) && mask > 0
    ensures Leaves(Counters(mask, 0, 0), Pairs(mask) + [PushOp])
  {
    PairsRun(Counters(mask, 0, 0), mask, [PushOp]);
    assert [PushOp][1..] == [];
    RunLeavesIff(mask, bits, Pairs(mask) + [PushOp]);
  }

  // ---------- one thread ----------

  /** `queueVec` has `realQueueSize` elements, as allocated. The mask also yields the index after the
      last one; `beyond` stands for whatever lies there. */
  class MPMCLockfreeRingbuffer<D(0)> {
    var firstInit: bool
    var head: nat
    var tail: nat
    var lock: nat
    var realQueueSize: nat
    var queueVec: array?<D>
    var beyond: D
    ghost var bits: nat

    /** `bits` is the logarithm of the number of values of the mask. */
    ghost predicate Valid()
      reads this
    {
      tail <= head <= tail + realQueueSize && realQueueSize + 1 == Pow2(bits)
      && if firstInit then queueVec == null && realQueueSize == 0
         else queueVec != null && queueVec.Length == realQueueSize
    }

    ghost function Memory(): seq<D>
      reads this, queueVec
    {
      (if queueVec == null then [] else queueVec[..]) + [beyond]
    }

    /** What the buffer holds, if what is written beyond the array stays there. */
    ghost function Contents(): seq<D>
      requires Valid()
      reads this, queueVec
    {
      Live(Memory(), head, tail)
    }

    ghost function View(): Counters
      reads this
    {
      Counters(realQueueSize, head, tail)
    }

    constructor (d: D)
      ensures Valid() && firstInit && Contents() == [] && lock == 0 && View() == Counters(0, 0, 0)
    {
      firstInit, head, tail, lock, realQueueSize, queueVec, beyond, bits := true, 0, 0, 0, 0, null, d, 0;
    }

    /** The first call makes room for one less than the least power of two that is at least `size`, and
        allocates as many slots. */
    method Init(size: int) returns (ok: bool)
      requires Valid() && size <= 0x4000_0000
      modifies this
      ensures Valid() && ok && !firstInit && lock == old(lock) && head == old(head) && tail == old(tail)
      ensures old(firstInit) ==> Contents() == [] && LeastPower(realQueueSize + 1, bits, size) && fresh(queueVec)
      ensures !old(firstInit) ==>
        realQueueSize == old(realQueueSize) && queueVec == old(queueVec)
        && Contents() == old(Contents())
    {
      if !firstInit {
        return true;
      }
      firstInit := false;
      var tmpSize := 1;
      bits := 0;
      while tmpSize < size
        invariant tmpSize == Pow2(bits) && forall j | 0 <= j < bits :: Pow2(j) < size
        invariant queueVec == null && realQueueSize == 0 && head == tail == old(tail) && lock == old(lock) && !firstInit
        decreases size - tmpSize
      {
        tmpSize := tmpSize * 2;
        bits := bits + 1;
      }
      realQueueSize := tmpSize - 1;
      queueVec := new D[realQueueSize];
      return true;
    }

    /** push by a thread that finds the lock free. */
    method Push(data: D) returns (ok: bool)
      requires Valid() && lock == 0
      modifies this, queueVec
      ensures Valid() && firstInit == old(firstInit) && lock == 0 && queueVec == old(queueVec)
      ensures ok <==> |old(Contents())| < realQueueSize
      ensures Contents() == if ok then old(Contents()) + [data] else old(Contents())
      ensures View() == Advance(old(View()), PushOp)
      ensures old(Outside(View(), PushOp)) ==> beyond == data && queueVec != null && queueVec[..] == old(queueVec[..])
      ensures !old(Outside(View(), PushOp)) ==> beyond == old(beyond)
    {
      lock := 1;
      if head - tail >= realQueueSize {
        lock := 0;
        return false;
      }
      MaskIsRemainder(head, bits);
      ghost var before := Memory();
      WriteAppends(before, head, tail, data);
      var i := And(head, realQueueSize);
      hide And, Slot;
      if i < queueVec.Length {
        queueVec[i] := data;
      } else {
        beyond := data;
      }
      assert Memory() == before[i := data];
      head := head + 1;
      lock := 0;
      return true;
    }

    /** pop by a thread that finds the lock free. */
    method Pop() returns (out: Option<D>)
      requires Valid() && lock == 0
      modifies this
      ensures Valid() && firstInit == old(firstInit) && lock == 0 && queueVec == old(queueVec) && beyond == old(beyond)
      ensures out.None? <==> old(Contents()) == []
      ensures out.None? ==> Contents() == []
      ensures out.Some? ==> old(Contents()) == [out.value] + Contents()
      ensures View() == Advance(old(View()), PopOp) && (old(Outside(View(), PopOp)) ==> out == Some(beyond))
    {
      lock := 1;
      if tail == head || (tail > head && Wrapped(head - tail) >= realQueueSize) {
        lock := 0;
        return None;
      }
      MaskIsRemainder(tail, bits);
      TakeDrops(Memory(), head, tail);
      var i := And(tail, realQueueSize);
      hide And, Slot;
      out := Some(if i < queueVec.Length then queueVec[i] else beyond);
      tail := tail + 1;
      lock := 0;
    }
  }

  /** A difference of unsigned 64-bit numbers. */
  function Wrapped(d: int): nat {
    d % 0x1_0000_0000_0000_0000
  }
}
