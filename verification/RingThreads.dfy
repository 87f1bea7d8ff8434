/** The ring buffer under any interleaving of threads that push and pop. Every shared read or write
    is a step of its own; memory is sequentially consistent and the 64-bit counters do not wrap. */
module RingThreads {
  import opened Options
  import opened RingBuffer

  datatype Op<D> = PushOp(d: D) | PopOp

  datatype Result<D> = Pushed(ok: bool) | Popped(out: Option<D>)

  /** The program counter of a thread, with the local variables that are live there. */
  datatype Pc<D> =
    | Idle
    | TestAndSet                      // lock_test_and_set(&lock, 1)
    | Spin                            // val_cas(&lock, 0, 1)
    | LoadHead
    | LoadTail(head: nat)
    | Check(head: nat, tail: nat)
    | WriteSlot(head: nat)            // push
    | WriteHead(head: nat)
    | ReadSlot(tail: nat)             // pop
    | WriteTail(tail: nat, out: D)
    | Unlock(res: Result<D>)
    | Answer(res: Result<D>)

  datatype Thread<D> = Thread(op: Op<D>, pc: Pc<D>)

  /** What an observer sees of a run: invocations, returns, and the moment an operation takes effect. */
  datatype Event<D> =
    | Invoke(t: nat, op: Op<D>)
    | Effect(t: nat, op: Op<D>, res: Result<D>)
    | Return(t: nat, res: Result<D>)

  datatype State<D> = State(
    lock: nat,
    head: nat,
    tail: nat,
    bits: nat,
    slots: seq<D>,
    threads: seq<Thread<D>>,
    trace: seq<Event<D>>)
  {
    /** real_queue_size_: the mask, and the number of values the buffer holds at most. */
    function Mask(): nat { Pow2(bits) - 1 }
  }

  // ---------- steps ----------

  function Goto<D>(s: State<D>, t: nat, pc: Pc<D>): State<D>
    requires t < |s.threads|
  {
    s.(threads := s.threads[t := s.threads[t].(pc := pc)])
  }

  function Effects<D>(s: State<D>, t: nat, res: Result<D>): State<D>
    requires t < |s.threads|
  {
    s.(trace := s.trace + [Effect(t, s.threads[t].op, res)])
  }

  /** Does push find the buffer full, pop find it empty? */
  predicate Refused<D>(op: Op<D>, head: nat, tail: nat, mask: nat) {
    match op
    case PushOp(_) => Wrapped(head - tail) >= mask
    case PopOp => tail == head || (tail > head && Wrapped(head - tail) >= mask)
  }

  function Refusal<D>(op: Op<D>): Result<D> {
    match op
    case PushOp(_) => Pushed(false)
    case PopOp => Popped(None)
  }

  /** One step of thread `t`, which begins `next` if it is idle. */
  function Step<D>(s: State<D>, t: nat, next: Op<D>): State<D>
    requires t < |s.threads| && |s.slots| == Pow2(s.bits)
  {
    var th := s.threads[t];
    match th.pc
    case Idle => s.(threads := s.threads[t := Thread(next, TestAndSet)], trace := s.trace + [Invoke(t, next)])
    case TestAndSet => if s.lock != 0 then Goto(s.(lock := 1), t, Spin) else Goto(s.(lock := 1), t, LoadHead)
    case Spin => if s.lock != 0 then s else Goto(s.(lock := 1), t, LoadHead)
    case LoadHead => Goto(s, t, LoadTail(s.head))
    case LoadTail(head) => Goto(s, t, Check(head, s.tail))
    case Check(head, tail) =>
      if Refused(th.op, head, tail, s.Mask()) then
        Goto(Effects(s, t, Refusal(th.op)), t, Unlock(Refusal(th.op)))
      else Goto(s, t, if th.op.PushOp? then WriteSlot(head) else ReadSlot(tail))
    case WriteSlot(head) =>
      MaskFits(head, s.bits);
      if th.op.PopOp? then s
      else Goto(s.(slots := s.slots[And(head, s.Mask()) := th.op.d]), t, WriteHead(head))
    case WriteHead(head) => Goto(Effects(s.(head := head + 1), t, Pushed(true)), t, Unlock(Pushed(true)))
    case ReadSlot(tail) =>
      MaskFits(tail, s.bits);
      Goto(s, t, WriteTail(tail, s.slots[And(tail, s.Mask())]))
    case WriteTail(tail, out) => Goto(Effects(s.(tail := tail + 1), t, Popped(Some(out))), t, Unlock(Popped(Some(out))))
    case Unlock(res) => Goto(s.(lock := 0), t, Answer(res))
    case Answer(res) => Goto(s.(trace := s.trace + [Return(t, res)]), t, Idle)
  }

  lemma MaskFits(x: nat, k: nat)
    ensures And(x, Pow2(k) - 1) < Pow2(k)
  {
    MaskIsRemainder(x, k);
  }

  /** A schedule: who moves, and what it begins if it is idle. */
  type Schedule<D> = seq<(nat, Op<D>)>

  function Run<D>(s: State<D>, m: Schedule<D>): (s': State<D>)
    requires |s.slots| == Pow2(s.bits) && forall i | 0 <= i < |m| :: m[i].0 < |s.threads|
    ensures |s'.threads| == |s.threads| && |s'.slots| == Pow2(s'.bits)
    decreases |m|
  {
    if m == [] then s
    else
      StepShape(s, m[0].0, m[0].1);
      Run(Step(s, m[0].0, m[0].1), m[1..])
  }

  lemma StepShape<D>(s: State<D>, t: nat, next: Op<D>)
    requires t < |s.threads| && |s.slots| == Pow2(s.bits)
    ensures var s' := Step(s, t, next);
      |s'.slots| == |s.slots| && s'.bits == s.bits && |s'.threads| == |s.threads|
  {
    hide And;
    MaskFits(match s.threads[t].pc case WriteSlot(h) => h case ReadSlot(l) => l case _ => 0, s.bits);
  }

  /** The largest number of slots Init makes. */
  const LARGEST: nat := 0x4000_0000

  function Initial<D>(bits: nat, slots: seq<D>, n: nat, op: Op<D>): State<D>
    requires |slots| == Pow2(bits) <= LARGEST
  {
    State(0, 0, 0, bits, slots, seq(n, i => Thread(op, Idle)), [])
  }

  // ---------- what a correct history is ----------

  /** A bounded queue of capacity `cap`: does `res` answer `op` when it holds `q`? */
  predicate Answers<D(==)>(q: seq<D>, cap: nat, op: Op<D>, res: Result<D>) {
    match op
    case PushOp(d) => res == Pushed(|q| < cap)
    case PopOp => res == Popped(if q == [] then None else Some(q[0]))
  }

  function Apply<D>(q: seq<D>, cap: nat, op: Op<D>): seq<D> {
    match op
    case PushOp(d) => if |q| < cap then q + [d] else q
    case PopOp => if q == [] then q else q[1..]
  }

  /** The queue after the effects in `trace`, if each of them is answered as a queue would. */
  function Replay<D(==)>(trace: seq<Event<D>>, cap: nat): Option<seq<D>> {
    if trace == [] then Some([])
    else
      var before, e := Replay(trace[..|trace| - 1], cap), trace[|trace| - 1];
      if before.None? || !e.Effect? then before
      else if Answers(before.value, cap, e.op, e.res) then Some(Apply(before.value, cap, e.op)) else None
  }

  /** Where thread `t` stands according to the trace: an operation takes effect once, between its
      invocation and its return, and returns the result it had then. */
  datatype Phase<D> = Quiet | Begun(op: Op<D>) | Done(op: Op<D>, res: Result<D>) | Wrong

  function Follow<D(==)>(trace: seq<Event<D>>, t: nat): Phase<D> {
    if trace == [] then Quiet
    else
      var before, e := Follow(trace[..|trace| - 1], t), trace[|trace| - 1];
      if e.t != t then before
      else
        match e
        case Invoke(_, op) => if before.Quiet? then Begun(op) else Wrong
        case Effect(_, op, res) => if before == Begun(op) then Done(op, res) else Wrong
        case Return(_, res) => if before.Done? && before.res == res then Quiet else Wrong
  }

  // ---------- what every run keeps ----------

  predicate Critical<D>(pc: Pc<D>) {
    !(pc.Idle? || pc.TestAndSet? || pc.Spin? || pc.Answer?)
  }

  /** What a thread inside the critical section knows. */
  predicate Knows<D(==)>(s: State<D>, op: Op<D>, pc: Pc<D>)
    requires |s.slots| == Pow2(s.bits)
  {
    match pc
    case LoadTail(head) => head == s.head
    case Check(head, tail) => head == s.head && tail == s.tail
    case WriteSlot(head) => op.PushOp? && head == s.head && s.head - s.tail < s.Mask()
    case WriteHead(head) =>
      op.PushOp? && head == s.head && s.head - s.tail < s.Mask() && s.slots[Slot(head, |s.slots|)] == op.d
    case ReadSlot(tail) => op.PopOp? && tail == s.tail && s.tail < s.head
    case WriteTail(tail, out) =>
      op.PopOp? && tail == s.tail && s.tail < s.head && out == s.slots[Slot(tail, |s.slots|)]
    case _ => true
  }

  function PhaseOf<D>(th: Thread<D>): Phase<D> {
    match th.pc
    case Idle => Quiet
    case Unlock(res) => Done(th.op, res)
    case Answer(res) => Done(th.op, res)
    case _ => Begun(th.op)
  }

  predicate Shape<D>(s: State<D>) {
    |s.slots| == Pow2(s.bits) <= LARGEST && s.tail <= s.head <= s.tail + s.Mask()
  }

  predicate Exclusive<D>(s: State<D>) {
    (forall i, j | 0 <= i < j < |s.threads| :: !(Critical(s.threads[i].pc) && Critical(s.threads[j].pc)))
    && (s.lock == 0 <==> forall i | 0 <= i < |s.threads| :: !Critical(s.threads[i].pc))
  }

  ghost predicate Inv<D>(s: State<D>) {
    Shape(s) && Exclusive(s)
    && (forall i | 0 <= i < |s.threads| :: Knows(s, s.threads[i].op, s.threads[i].pc))
    && Replay(s.trace, s.Mask()) == Some(Live(s.slots, s.head, s.tail))
    && (forall i | 0 <= i < |s.threads| :: Follow(s.trace, i) == PhaseOf(s.threads[i]))
  }

  lemma Added<D>(trace: seq<Event<D>>, e: Event<D>, t: nat, cap: nat)
    ensures Follow(trace + [e], t) ==
      var before := Follow(trace, t);
      if e.t != t then before
      else
        match e
        case Invoke(_, op) => if before.Quiet? then Begun(op) else Wrong
        case Effect(_, op, res) => if before == Begun(op) then Done(op, res) else Wrong
        case Return(_, res) => if before.Done? && before.res == res then Quiet else Wrong
    ensures Replay(trace + [e], cap) ==
      var before := Replay(trace, cap);
      if before.None? || !e.Effect? then before
      else if Answers(before.value, cap, e.op, e.res) then Some(Apply(before.value, cap, e.op)) else None
  {
    assert (trace + [e])[..|trace|] == trace;
  }

  lemma Alone<D>(s: State<D>, t: nat)
    requires Exclusive(s) && t < |s.threads| && Critical(s.threads[t].pc)
    ensures forall i | 0 <= i < |s.threads| && i != t :: !Critical(s.threads[i].pc)
    ensures s.lock != 0
  {
  }

  /** When moving thread `t` to `th` and setting the lock keep the critical section exclusive. */
  predicate Orderly<D>(s: State<D>, t: nat, th: Thread<D>, lock: nat)
    requires t < |s.threads|
  {
    if Critical(th.pc) then lock != 0 && (Critical(s.threads[t].pc) || s.lock == 0)
    else if Critical(s.threads[t].pc) then lock == 0
    else lock == 0 <==> s.lock == 0
  }

  lemma OrderlyKeeps<D>(s: State<D>, t: nat, th: Thread<D>, lock: nat)
    requires Exclusive(s) && t < |s.threads| && Orderly(s, t, th, lock)
    ensures Exclusive(s.(lock := lock, threads := s.threads[t := th]))
  {
    var s' := s.(lock := lock, threads := s.threads[t := th]);
    assert s'.threads[t] == th;
    if !Critical(th.pc) && !Critical(s.threads[t].pc) && s.lock != 0 {
      var i :| 0 <= i < |s.threads| && Critical(s.threads[i].pc);
      assert Critical(s'.threads[i].pc);
    }
  }

  /** A step that changes only the program counter of `t` and the lock. */
  lemma MoveKeeps<D>(s: State<D>, t: nat, pc: Pc<D>, lock: nat)
    requires Inv(s) && t < |s.threads|
    requires var s' := Goto(s.(lock := lock), t, pc);
      Orderly(s, t, s'.threads[t], lock) && Knows(s, s.threads[t].op, pc) && PhaseOf(s'.threads[t]) == PhaseOf(s.threads[t])
    ensures Inv(Goto(s.(lock := lock), t, pc))
  {
    hide And, Follow, Replay, Exclusive;
    OrderlyKeeps(s, t, s.threads[t].(pc := pc), lock);
  }

  /** A step that only adds to the trace. */
  lemma SaysKeeps<D>(s: State<D>, t: nat, e: Event<D>, th: Thread<D>)
    requires Inv(s) && t < |s.threads| && e.t == t && !e.Effect?
    requires var s' := s.(threads := s.threads[t := th], trace := s.trace + [e]);
      !Critical(th.pc) && !Critical(s.threads[t].pc) && Follow(s'.trace, t) == PhaseOf(th)
    ensures Inv(s.(threads := s.threads[t := th], trace := s.trace + [e]))
  {
    var s' := s.(threads := s.threads[t := th], trace := s.trace + [e]);
    forall i | 0 <= i < |s.threads| ensures Follow(s'.trace, i) == PhaseOf(s'.threads[i]) {
      Added(s.trace, e, i, s.Mask());
    }
    Added(s.trace, e, t, s.Mask());
    OrderlyKeeps(s, t, th, s.lock);
    hide Follow, Replay, Exclusive;
  }

  /** An operation takes effect: the buffer changes as the queue does. */
  lemma EffectKeeps<D>(s: State<D>, t: nat, res: Result<D>, head: nat, tail: nat)
    requires Inv(s) && t < |s.threads| && Critical(s.threads[t].pc) && PhaseOf(s.threads[t]) == Begun(s.threads[t].op)
    requires Shape(s.(head := head, tail := tail))
    requires Answers(Live(s.slots, s.head, s.tail), s.Mask(), s.threads[t].op, res)
    requires Live(s.slots, head, tail) == Apply(Live(s.slots, s.head, s.tail), s.Mask(), s.threads[t].op)
    ensures Inv(Goto(Effects(s.(head := head, tail := tail), t, res), t, Unlock(res)))
  {
    var s' := Goto(Effects(s.(head := head, tail := tail), t, res), t, Unlock(res));
    var e := Effect(t, s.threads[t].op, res);
    Alone(s, t);
    forall i | 0 <= i < |s.threads| ensures Follow(s'.trace, i) == PhaseOf(s'.threads[i]) {
      Added(s.trace, e, i, s.Mask());
    }
    Added(s.trace, e, t, s.Mask());
    OrderlyKeeps(s, t, s'.threads[t], s.lock);
    hide Follow, Replay, Live, Exclusive;
  }

  lemma WriteKeeps<D>(s: State<D>, t: nat, next: Op<D>)
    requires Inv(s) && t < |s.threads| && s.threads[t].pc.WriteSlot?
    ensures Inv(Step(s, t, next))
  {
    var th := s.threads[t];
    MaskIsRemainder(s.head, s.bits);
    WriteAppends(s.slots, s.head, s.tail, th.op.d);
    Alone(s, t);
    OrderlyKeeps(s, t, th.(pc := WriteHead(s.head)), s.lock);
    hide And, Follow, Replay, Live, Exclusive;
  }

  lemma CheckKeeps<D>(s: State<D>, t: nat, next: Op<D>)
    requires Inv(s) && t < |s.threads| && s.threads[t].pc.Check?
    ensures Inv(Step(s, t, next))
  {
    var th := s.threads[t];
    Alone(s, t);
    hide And, Follow, Replay;
    if Refused(th.op, s.head, s.tail, s.Mask()) {
      EffectKeeps(s, t, Refusal(th.op), s.head, s.tail);
    } else {
      MoveKeeps(s, t, if th.op.PushOp? then WriteSlot(s.head) else ReadSlot(s.tail), s.lock);
    }
  }

  lemma WriteHeadKeeps<D>(s: State<D>, t: nat, next: Op<D>)
    requires Inv(s) && t < |s.threads| && s.threads[t].pc.WriteHead?
    ensures Inv(Step(s, t, next))
  {
    var d := s.threads[t].op.d;
    assert s.slots[Slot(s.head, |s.slots|) := d] == s.slots;
    WriteAppends(s.slots, s.head, s.tail, d);
    hide And, Follow, Replay;
    EffectKeeps(s, t, Pushed(true), s.head + 1, s.tail);
  }

  lemma WriteTailKeeps<D>(s: State<D>, t: nat, next: Op<D>)
    requires Inv(s) && t < |s.threads| && s.threads[t].pc.WriteTail?
    ensures Inv(Step(s, t, next))
  {
    hide And, Follow, Replay, Live, Exclusive, Slot;
    TakeDrops(s.slots, s.head, s.tail);
    var q, rest := Live(s.slots, s.head, s.tail), Live(s.slots, s.head, s.tail + 1);
    assert q[0] == s.threads[t].pc.out && q[1..] == rest;
    EffectKeeps(s, t, Popped(Some(s.threads[t].pc.out)), s.head, s.tail + 1);
  }

  lemma LockKeeps<D>(s: State<D>, t: nat, next: Op<D>)
    requires Inv(s) && t < |s.threads| && (s.threads[t].pc.TestAndSet? || s.threads[t].pc.Spin? || s.threads[t].pc.Unlock?)
    ensures Inv(Step(s, t, next))
  {
    hide And, Follow, Replay;
    match s.threads[t].pc
    case TestAndSet => MoveKeeps(s, t, if s.lock != 0 then Spin else LoadHead, 1);
    case Spin =>
      if s.lock == 0 {
        MoveKeeps(s, t, LoadHead, 1);
      }
    case Unlock(res) =>
      Alone(s, t);
      MoveKeeps(s, t, Answer(res), 0);
  }

  /** Every step of every thread keeps the invariant. */
  lemma StepKeeps<D>(s: State<D>, t: nat, next: Op<D>)
    requires Inv(s) && t < |s.threads|
    ensures Inv(Step(s, t, next))
  {
    hide And, Follow, Replay, Live, Slot;
    var th := s.threads[t];
    match th.pc {
      case Idle =>
        Added(s.trace, Invoke(t, next), t, s.Mask());
        SaysKeeps(s, t, Invoke(t, next), Thread(next, TestAndSet));
      case Answer(res) =>
        Added(s.trace, Return(t, res), t, s.Mask());
        SaysKeeps(s, t, Return(t, res), th.(pc := Idle));
      case LoadHead => Alone(s, t); MoveKeeps(s, t, LoadTail(s.head), s.lock);
      case LoadTail(head) => Alone(s, t); MoveKeeps(s, t, Check(head, s.tail), s.lock);
      case Check(_, _) => CheckKeeps(s, t, next);
      case WriteSlot(_) => WriteKeeps(s, t, next);
      case WriteHead(_) => WriteHeadKeeps(s, t, next);
      case ReadSlot(tail) =>
        Alone(s, t);
        MaskIsRemainder(tail, s.bits);
        MoveKeeps(s, t, WriteTail(tail, s.slots[And(tail, s.Mask())]), s.lock);
      case WriteTail(_, _) => WriteTailKeeps(s, t, next);
      case _ => LockKeeps(s, t, next);
    }
  }

  lemma InitialInv<D>(bits: nat, slots: seq<D>, n: nat, op: Op<D>)
    requires |slots| == Pow2(bits) <= LARGEST
    ensures Inv(Initial(bits, slots, n, op))
  {
  }

  lemma {:induction false} RunKeeps<D>(s: State<D>, m: Schedule<D>)
    requires Inv(s) && forall i | 0 <= i < |m| :: m[i].0 < |s.threads|
    ensures Inv(Run(s, m)) && Run(s, m).bits == s.bits
    decreases |m|
  {
    hide Step, And;
    if m != [] {
      StepKeeps(s, m[0].0, m[0].1);
      StepShape(s, m[0].0, m[0].1);
      hide Inv;
      RunKeeps(Step(s, m[0].0, m[0].1), m[1..]);
    }
  }

  // ---------- the results ----------

  /** The values of the successful pushes, in the order they took effect, and of the pops. */
  function PushedValues<D>(trace: seq<Event<D>>): seq<D> {
    if trace == [] then []
    else
      var e := trace[|trace| - 1];
      PushedValues(trace[..|trace| - 1])
      + if e.Effect? && e.op.PushOp? && e.res == Pushed(true) then [e.op.d] else []
  }

  function PoppedValues<D>(trace: seq<Event<D>>): seq<D> {
    if trace == [] then []
    else
      var e := trace[|trace| - 1];
      PoppedValues(trace[..|trace| - 1])
      + if e.Effect? && e.res.Popped? && e.res.out.Some? then [e.res.out.value] else []
  }

  /** In a history that answers as a queue does, what was pushed is what was popped and what is left. */
  lemma {:induction false} QueueConserves<D>(trace: seq<Event<D>>, cap: nat)
    requires Replay(trace, cap).Some?
    ensures PushedValues(trace) == PoppedValues(trace) + Replay(trace, cap).value
    ensures |Replay(trace, cap).value| <= cap
  {
    if trace != [] {
      QueueConserves(trace[..|trace| - 1], cap);
    }
  }

  /** The buffer is a linearizable bounded queue, whatever the interleaving: at most one thread is in
      the critical section; every operation takes effect once between invocation and return, with
      the result it returns; in that order the results are those of a bounded queue. So the pops
      take the pushed values in order, none lost or duplicated, and at most `Mask` are held. */
  lemma Linearizable<D>(bits: nat, slots: seq<D>, n: nat, op: Op<D>, m: Schedule<D>)
    requires |slots| == Pow2(bits) <= LARGEST && forall i | 0 <= i < |m| :: m[i].0 < n
    ensures var s := Run(Initial(bits, slots, n, op), m);
      var cap := Pow2(bits) - 1;
      Shape(s)
      && (forall i, j | 0 <= i < j < |s.threads| :: !(Critical(s.threads[i].pc) && Critical(s.threads[j].pc)))
      && (s.lock != 0 ==> exists i :: 0 <= i < |s.threads| && Critical(s.threads[i].pc))
      && (forall i | 0 <= i < |s.threads| :: Follow(s.trace, i) == PhaseOf(s.threads[i]))
      && Replay(s.trace, cap).Some?
      && PushedValues(s.trace) == PoppedValues(s.trace) + Live(s.slots, s.head, s.tail)
      && s.head - s.tail <= cap
  {
    InitialInv(bits, slots, n, op);
    var s0 := Initial(bits, slots, n, op);
    RunKeeps(s0, m);
    var s := Run(s0, m);
    QueueConserves(s.trace, s.Mask());
    hide Follow, Replay, PushedValues, PoppedValues;
  }

  // ---------- progress ----------

  /** How many steps of its own an operation takes at most from here, once it can have the lock. */
  function StepsLeft<D>(pc: Pc<D>): (n: nat)
    ensures n <= 9
  {
    match pc
    case TestAndSet => 9
    case Spin => 8
    case LoadHead => 7
    case LoadTail(_) => 6
    case Check(_, _) => 5
    case WriteSlot(_) => 4
    case ReadSlot(_) => 4
    case WriteHead(_) => 3
    case WriteTail(_, _) => 3
    case Unlock(_) => 2
    case Answer(_) => 1
    case Idle => 0
  }

  /** Thread `t` wants the lock while another one has it. */
  predicate KeptOut<D>(s: State<D>, t: nat)
    requires t < |s.threads|
  {
    s.lock != 0 && (s.threads[t].pc.TestAndSet? || s.threads[t].pc.Spin?)
  }

  lemma Advances<D>(s: State<D>, t: nat, next: Op<D>)
    requires Inv(s) && t < |s.threads| && !s.threads[t].pc.Idle? && !KeptOut(s, t)
    ensures var s' := Step(s, t, next);
      StepsLeft(s'.threads[t].pc) < StepsLeft(s.threads[t].pc) && !KeptOut(s', t)
  {
    hide And, Follow, Replay, Live, Slot;
  }

  /** `k` steps of thread `t` and of no other. */
  function Turns<D>(t: nat, next: Op<D>, k: nat): (m: Schedule<D>)
    ensures |m| == k && forall i | 0 <= i < k :: m[i] == (t, next)
  {
    seq(k, i => (t, next))
  }

  /** An operation that is not kept out ends, at any point of any run, if its thread alone moves. */
  lemma {:induction false} Finishes<D>(s: State<D>, t: nat, next: Op<D>) returns (k: nat)
    requires Inv(s) && t < |s.threads| && !KeptOut(s, t)
    ensures k <= StepsLeft(s.threads[t].pc) && Run(s, Turns(t, next, k)).threads[t].pc.Idle?
    decreases StepsLeft(s.threads[t].pc)
  {
    k := 0;
    if !s.threads[t].pc.Idle? {
      Advances(s, t, next);
      StepKeeps(s, t, next);
      hide Inv, Step, StepsLeft;
      StepShape(s, t, next);
      var rest := Finishes(Step(s, t, next), t, next);
      k := rest + 1;
      assert Turns(t, next, k)[1..] == Turns(t, next, rest);
    }
  }

  /** A thread that is kept out is so by one that is not. When that one has moved on to its end, the
      lock is free, and the thread that waits takes it with its next step. */
  lemma WaiterGetsIn<D>(s: State<D>, w: nat, next: Op<D>) returns (t: nat, k: nat)
    requires Inv(s) && w < |s.threads| && KeptOut(s, w)
    ensures t < |s.threads| && t != w && !KeptOut(s, t) && k <= 9
    ensures var s' := Run(s, Turns(t, next, k));
      w < |s'.threads| && s'.threads[w] == s.threads[w] && s'.lock == 0 && |s'.slots| == Pow2(s'.bits)
      && Step(s', w, next).threads[w].pc == LoadHead && Step(s', w, next).lock != 0
  {
    hide And, Follow, Replay, Live, Slot;
    t :| 0 <= t < |s.threads| && Critical(s.threads[t].pc);
    k := Finishes(s, t, next);
    OthersStay(s, t, next, k, w);
    RunKeeps(s, Turns(t, next, k));
    NobodyElse(s, t, next, k);
  }

  lemma {:induction false} OthersStay<D>(s: State<D>, t: nat, next: Op<D>, k: nat, w: nat)
    requires Inv(s) && t < |s.threads| && w < |s.threads| && w != t
    ensures var s' := Run(s, Turns(t, next, k));
      |s'.threads| == |s.threads| && s'.threads[w] == s.threads[w]
    decreases k
  {
    if k > 0 {
      StepKeeps(s, t, next);
      StepShape(s, t, next);
      hide Inv, And;
      assert Turns(t, next, k)[1..] == Turns(t, next, k - 1);
      StepOthers(s, t, next, w);
      hide Step;
      OthersStay(Step(s, t, next), t, next, k - 1, w);
    }
  }

  lemma StepOthers<D>(s: State<D>, t: nat, next: Op<D>, w: nat)
    requires t < |s.threads| && w < |s.threads| && w != t && |s.slots| == Pow2(s.bits)
    ensures |Step(s, t, next).threads| == |s.threads| && Step(s, t, next).threads[w] == s.threads[w]
  {
    hide And;
  }

  /** When the thread in the critical section has ended its operation, nobody is in it. */
  lemma NobodyElse<D>(s: State<D>, t: nat, next: Op<D>, k: nat)
    requires Inv(s) && t < |s.threads| && Critical(s.threads[t].pc) && Run(s, Turns(t, next, k)).threads[t].pc.Idle?
    ensures Inv(Run(s, Turns(t, next, k))) && Run(s, Turns(t, next, k)).lock == 0
  {
    hide And, Follow, Replay, Live, Slot, Run;
    RunKeeps(s, Turns(t, next, k));
    var s' := Run(s, Turns(t, next, k));
    forall i | 0 <= i < |s'.threads| ensures !Critical(s'.threads[i].pc) {
      if i != t {
        OthersStay(s, t, next, k, i);
        Alone(s, t);
      }
    }
  }
}
