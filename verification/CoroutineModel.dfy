/** Cooperative coroutines of one service thread as a step system: the status table, the available
    set, the active queue, the actors and their timers. A step runs from one switch of the program
    counter to the next. */
module CoroutineModel {
  import opened Options

  datatype Status = Ready | Running | Suspend

  /** A slot of the table: null, or a context with its status. */
  datatype Slot = Null | Ctx(status: Status)

  /** `ok`: status is kStatusOK. */
  datatype Message = Message(sequenceId: nat, coroutineId: int)

  /** The fields of CoroutineActor. */
  datatype Actor = Actor(isWaiting: bool, waitingId: nat, msgList: seq<Message>)

  /** waiting_id_ is unsigned: -1 is the largest 64-bit number. */
  const NO_ID: nat := 0xFFFF_FFFF_FFFF_FFFF

  const IDLE_ACTOR := Actor(false, NO_ID, [])

  /** Where a coroutine's stack stands when it does not run: inside RecieveMessage, with the sequence
      id it sent and its timer, or anywhere else. */
  datatype Place = Elsewhere | InReceive(sent: nat, timer: nat)

  /** A call of RecieveMessage that has returned. */
  datatype Return = Return(coroutine: int, sent: nat, reply: Option<Message>)

  datatype State = State(
    slots: seq<Slot>,
    running: int,
    cur: int,                 // CoroutineContext::GetCurCoroutineId
    available: set<int>,
    active: seq<int>,
    actors: seq<Actor>,
    places: seq<Place>,
    timers: map<nat, int>,    // pending timers, with the coroutine each belongs to
    nextTimer: nat,
    calls: nat,               // calls of RecieveMessage so far
    log: seq<Return>)         // and those that returned
  {
    function Size(): nat { |slots| }
    predicate Has(id: int) { 0 <= id < |slots| && |actors| == |places| == |slots| }
  }

  // ---------- coroutine_impl.cpp ----------

  /** CoroutineImpl::CoroutineYield. */
  function ImplYield(s: State): State {
    if s.running < 0 || s.running >= s.Size() || s.slots[s.running].Null? then s
    else s.(slots := s.slots[s.running := Ctx(Suspend)], running := -1)
  }

  /** CoroutineImpl::CoroutineResume, up to the switch. */
  function ImplResume(s: State, id: int): State {
    if s.running != -1 || id < 0 || id >= s.Size() || s.slots[id].Null? || s.slots[id].status.Running? then s
    else s.(slots := s.slots[id := Ctx(Running)], running := id)
  }

  // ---------- coroutine_schedule.cpp ----------

  /** CoroutineSchedule::CoroutineYield(): also what an idle coroutine does, and one that drops a
      message of bad status. */
  function Yield(s: State): State { ImplYield(s.(cur := -1)) }

  /** CoroutineYieldToActive, and whether it switched. */
  function YieldToActive(s: State, id: int): State {
    if id < 0 || id >= s.Size() || s.running == id then s
    else
      var queued := s.(active := s.active + [id]);
      if s.running >= 0 then Yield(queued) else queued
  }

  // ---------- coroutine_actor.cpp ----------

  /** RecieveMessage from the point where its coroutine continues after the yield. */
  function ReceiveEnd(s: State, id: int, sent: nat, timer: Option<nat>): State
    requires s.Has(id)
  {
    var a := s.actors[id].(isWaiting := false, waitingId := NO_ID);
    var timers := if timer.Some? then s.timers - {timer.value} else s.timers;
    var taken := if a.msgList == [] then a else a.(msgList := a.msgList[1..]);
    var reply := if a.msgList == [] || a.msgList[0].sequenceId != sent then None else Some(a.msgList[0]);
    s.(actors := s.actors[id := taken], timers := timers, places := s.places[id := Elsewhere],
       log := s.log + [Return(id, sent, reply)])
  }

  /** SetWaitingId and RecieveMessage up to the yield, by coroutine `cur`, for a request `sent` that
      carries coroutine id `owner`. */
  function Receive(s: State, sent: nat, owner: int): State
    requires s.Has(s.cur)
  {
    var id := s.cur;
    var a := s.actors[id].(isWaiting := true, waitingId := sent);
    var s := s.(actors := s.actors[id := a], calls := s.calls + 1);
    if id != owner then s.(log := s.log + [Return(id, sent, None)])
    else if a.msgList != [] then ReceiveEnd(s, id, sent, None)
    else
      var t := s.nextTimer;
      var s := s.(timers := s.timers[t := id], nextTimer := t + 1, available := s.available - {id});
      if id == s.running then Yield(s.(places := s.places[id := InReceive(sent, t)]))
      else ReceiveEnd(s.(available := s.available + {id}), id, sent, Some(t))
  }

  /** Does SendMessage accept the message? */
  predicate Accepts(a: Actor, m: Message) { a.isWaiting && m.sequenceId == a.waitingId }

  /** CoroutineServiceHandler::ProcessClientItem. */
  function Deliver(s: State, m: Message): State
    requires m.coroutineId < 0 || s.Has(m.coroutineId)
  {
    var id := m.coroutineId;
    if id < 0 then Yield(s)
    else if !Accepts(s.actors[id], m) then s
    else
      var a := s.actors[id].(msgList := s.actors[id].msgList + [m], waitingId := NO_ID);
      YieldToActive(s.(actors := s.actors[id := a]), id)
  }

  /** TimerMgr takes timer `t` out and calls CoroutineServiceHandler::OnTimerCoro. */
  function Fire(s: State, t: nat): State
    requires t in s.timers
  {
    var s' := s.(timers := s.timers - {t});
    if s.timers[t] < 0 then s' else YieldToActive(s', s.timers[t])
  }

  /** CoroutineSchedule::CoroutineResume: the coroutine goes on where it stood. */
  function Resume(s: State, id: int): State
    requires |s.actors| == |s.places| == |s.slots|
  {
    if id < 0 || id >= s.Size() then s
    else
      var r := ImplResume(s.(cur := id), id);
      if r.running != id || s.running == id then r
      else
        match r.places[id]
        case Elsewhere => r
        case InReceive(sent, t) => ReceiveEnd(r.(available := r.available + {id}), id, sent, Some(t))
  }

  /** CoroutineResumeActive. */
  function ResumeActive(s: State): State
    requires |s.actors| == |s.places| == |s.slots|
  {
    if s.running >= 0 || s.active == [] then s
    else Resume(s.(active := s.active[1..]), s.active[0])
  }

  /** AddNewCoroutine when every slot is taken: the table grows by one. */
  function Grow(s: State): State {
    s.(slots := s.slots + [Ctx(Ready)], actors := s.actors + [IDLE_ACTOR], places := s.places + [Elsewhere],
       available := s.available + {s.Size()})
  }

  // ---------- the step system ----------

  /** What a coroutine does while it runs, and what the main loop does when none runs. */
  datatype Label =
    | Call(sent: nat)           // a service function sends a request and waits for its reply
    | Take(m: Message)          // a reply is taken from the message queue
    | Timeout(t: nat)           // RunTimer finds timer t due
    | Idle                      // nothing to do, or a message of bad status
    | Active                    // the main loop resumes the coroutine at the head of the active queue
    | Available(id: int)        // or else an available one, created when there is none

  predicate Enabled(s: State, l: Label) {
    |s.actors| == |s.places| == |s.slots|
    && match l
       case Call(_) => s.running >= 0 && s.Has(s.cur)
       case Take(m) => s.running >= 0 && m.coroutineId < s.Size()
       case Timeout(t) => s.running >= 0 && t in s.timers
       case Idle => s.running >= 0
       case Active => s.running < 0 && s.active != []
       case Available(id) =>
         s.running < 0 && s.active == [] && s.cur < 0
         && (id in s.available || (s.available == {} && id == s.Size()))
  }

  function Step(s: State, l: Label): State
    requires Enabled(s, l)
  {
    match l
    case Call(sent) => Receive(s, sent, s.cur)      // DoSend has put this id into the message
    case Take(m) => Deliver(s, m)
    case Timeout(t) => Fire(s, t)
    case Idle => Yield(s)
    case Active => ResumeActive(s)
    case Available(id) => if id in s.available then Resume(s, id) else Resume(Grow(s), id)
  }

  predicate Possible(s: State, ls: seq<Label>)
    decreases |ls|
  {
    ls == [] || (Enabled(s, ls[0]) && Possible(Step(s, ls[0]), ls[1..]))
  }

  function Run(s: State, ls: seq<Label>): State
    requires Possible(s, ls)
    decreases |ls|
  {
    if ls == [] then s else Run(Step(s, ls[0]), ls[1..])
  }

  function Ids(n: nat): (ids: set<int>)
    ensures forall i :: i in ids <==> 0 <= i < n
    ensures |ids| == n
  {
    if n == 0 then {} else Ids(n - 1) + {n - 1}
  }

  /** After InitCoroSchedule with `n` coroutines. */
  function Initial(n: nat): State {
    State(seq(n, i => Ctx(Ready)), -1, -1, Ids(n), [],
          seq(n, i => IDLE_ACTOR), seq(n, i => Elsewhere), map[], 1, 0, [])
  }

  // ---------- what every run keeps ----------

  predicate Tables(s: State) {
    |s.actors| == |s.places| == |s.slots| && -1 <= s.running < s.Size() && s.cur == s.running
    && forall i | 0 <= i < s.Size() :: s.slots[i].Ctx? && (s.slots[i].status.Running? <==> i == s.running)
  }

  /** A coroutine waits exactly when it is not available; then it is suspended, and until its turn
      comes its actor waits for the id it sent and its timer is pending. */
  predicate Waits(s: State, i: int)
    requires Tables(s) && 0 <= i < s.Size()
  {
    match s.places[i]
    case Elsewhere => i in s.available && s.actors[i] == IDLE_ACTOR && i !in s.active
    case InReceive(sent, t) =>
      i !in s.available && i != s.running && s.slots[i].status.Suspend?
      && s.actors[i].isWaiting && t < s.nextTimer && t > 0
      && if i in s.active then AtTurn(s, i, sent, t)
         else s.actors[i] == Actor(true, sent, []) && t in s.timers && s.timers[t] == i
  }

  /** In the active queue: the timer fired and there is no reply, or the reply has come and the
      timer is still pending. */
  predicate AtTurn(s: State, i: int, sent: nat, t: nat)
    requires Tables(s) && 0 <= i < s.Size()
  {
    if s.actors[i].msgList == [] then t !in s.timers
    else |s.actors[i].msgList| == 1 && s.actors[i].msgList[0].sequenceId == sent && s.actors[i].msgList[0].coroutineId == i
         && t in s.timers && s.timers[t] == i
  }

  /** A pending timer belongs to a waiting coroutine. */
  predicate Owned(s: State, t: nat)
    requires Tables(s) && t in s.timers
  {
    var i := s.timers[t];
    0 <= i < s.Size() && s.places[i].InReceive? && s.places[i].timer == t
  }

  /** A reply that was returned answers the request that was sent. */
  predicate Answers(r: Return) {
    r.reply.Some? ==> r.reply.value.sequenceId == r.sent && r.reply.value.coroutineId == r.coroutine
  }

  ghost predicate Inv(s: State) {
    Tables(s)
    && |s.active| <= 1 && (s.running >= 0 ==> s.active == [])
    && (forall i | i in s.available :: 0 <= i < s.Size())
    && (forall i | i in s.active :: 0 <= i < s.Size())
    && (forall i | 0 <= i < s.Size() :: Waits(s, i))
    && s.nextTimer > 0 && (forall t | t in s.timers :: t < s.nextTimer && Owned(s, t))
    && (forall k | 0 <= k < |s.log| :: Answers(s.log[k]))
    && s.calls + |s.available| == |s.log| + s.Size()
  }

  lemma InitialInv(n: nat)
    ensures Inv(Initial(n))
  {
  }

  lemma YieldKeeps(s: State)
    requires Inv(s) && s.running >= 0
    ensures Inv(Yield(s)) && Yield(s).running == -1 && Yield(s).active == []
  {
    var s' := Yield(s);
    forall i | 0 <= i < s'.Size() ensures Waits(s', i) {
      assert Waits(s, i);
    }
    forall t | t in s'.timers ensures Owned(s', t) {
      assert Owned(s, t);
    }
  }

  lemma CallKeeps(s: State, sent: nat)
    requires Inv(s) && Enabled(s, Call(sent))
    ensures Inv(Step(s, Call(sent)))
    ensures var s' := Step(s, Call(sent));
      s'.running == -1 && s'.places[s.running] == InReceive(sent, s.nextTimer) && s'.log == s.log
  {
    var c, s' := s.running, Step(s, Call(sent));
    assert Waits(s, c);
    forall i | 0 <= i < s'.Size() ensures Waits(s', i) {
      assert Waits(s, i);
    }
    forall t | t in s'.timers ensures t < s'.nextTimer && Owned(s', t) {
      if t != s.nextTimer {
        assert Owned(s, t);
      }
    }
  }

  /** RecieveMessage returns at once for a message that carries another coroutine's id; its actor then
      still counts as waiting. So the protocol is kept exactly if the message carries the id of the
      coroutine that asks, as client.cpp sees to. */
  lemma CallKeepsIff(s: State, sent: nat, owner: int)
    requires Inv(s) && s.running >= 0
    ensures Inv(Receive(s, sent, owner)) <==> owner == s.cur
  {
    assert Enabled(s, Call(sent));
    if owner == s.cur {
      CallKeeps(s, sent);
    } else {
      assert !Waits(Receive(s, sent, owner), s.cur);
    }
  }

  /** Queueing a waiting coroutine and leaving the running one. */
  lemma TurnKeeps(s: State, s': State, w: int)
    requires Inv(s) && s.running >= 0 && 0 <= w < s.Size() && s.places[w].InReceive?
    requires s' == Yield(s.(active := [w], actors := s'.actors, timers := s'.timers))
    requires |s'.actors| == |s.actors| && s'.actors[w].isWaiting
    requires forall i | 0 <= i < s.Size() && i != w :: s'.actors[i] == s.actors[i]
    requires forall t | t in s'.timers :: t in s.timers && s'.timers[t] == s.timers[t]
    requires forall t | t in s.timers && s.timers[t] != w :: t in s'.timers
    requires Tables(s') ==> AtTurn(s', w, s.places[w].sent, s.places[w].timer)
    ensures Inv(s')
  {
    forall i | 0 <= i < s'.Size() ensures Waits(s', i) {
      assert Waits(s, i);
    }
    forall t | t in s'.timers ensures Owned(s', t) {
      assert Owned(s, t);
    }
  }

  lemma TakeKeeps(s: State, m: Message)
    requires Inv(s) && Enabled(s, Take(m))
    ensures Inv(Step(s, Take(m)))
    ensures m.coroutineId >= 0 && Accepts(s.actors[m.coroutineId], m) ==>
      var s' := Step(s, Take(m));
      s'.running == -1 && s'.active == [m.coroutineId] && s'.actors[m.coroutineId].msgList == [m]
      && s'.log == s.log && s'.places == s.places
  {
    if m.coroutineId < 0 {
      YieldKeeps(s);
    } else {
      assert Waits(s, m.coroutineId);
      if Accepts(s.actors[m.coroutineId], m) {
        TurnKeeps(s, Step(s, Take(m)), m.coroutineId);
      }
    }
  }

  lemma TimeoutKeeps(s: State, t: nat)
    requires Inv(s) && Enabled(s, Timeout(t))
    ensures Inv(Step(s, Timeout(t)))
    ensures var s' := Step(s, Timeout(t));
      s'.running == -1 && s'.active == [s.timers[t]] && s'.actors == s.actors && s'.places == s.places && s'.log == s.log
  {
    assert Owned(s, t);
    assert Waits(s, s.timers[t]);
    forall u | u in s.timers && s.timers[u] == s.timers[t] ensures u == t {
      assert Owned(s, u);
    }
    TurnKeeps(s, Step(s, Timeout(t)), s.timers[t]);
  }

  /** The coroutine at the head of the active queue is resumed and its RecieveMessage returns. */
  lemma ActiveKeeps(s: State)
    requires Inv(s) && Enabled(s, Active)
    ensures var w, s' := s.active[0], Step(s, Active);
      Inv(s') && s'.running == w && s.Has(w) && s.places[w].InReceive?
      && s'.log == s.log + [Return(w, s.places[w].sent, if s.actors[w].msgList == [] then None else Some(s.actors[w].msgList[0]))]
  {
    var w, s' := s.active[0], Step(s, Active);
    assert w in s.active && Waits(s, w);
    forall i | 0 <= i < s'.Size() ensures Waits(s', i) {
      assert Waits(s, i);
    }
    forall t | t in s'.timers ensures Owned(s', t) {
      assert Owned(s, t);
    }
  }

  lemma ResumeAvailableKeeps(s: State, id: int)
    requires Inv(s) && s.running < 0 && s.active == [] && id in s.available
    ensures Inv(Resume(s, id)) && Resume(s, id) == s.(running := id, cur := id, slots := s.slots[id := Ctx(Running)])
  {
    var s' := Resume(s, id);
    assert Waits(s, id);
    forall i | 0 <= i < s'.Size() ensures Waits(s', i) {
      assert Waits(s, i);
    }
    forall t | t in s'.timers ensures Owned(s', t) {
      assert Owned(s, t);
    }
  }

  lemma GrowKeeps(s: State)
    requires Inv(s)
    ensures Inv(Grow(s))
  {
    var s' := Grow(s);
    forall i | 0 <= i < s'.Size() ensures Waits(s', i) {
      if i < s.Size() {
        assert Waits(s, i);
      }
    }
    forall t | t in s'.timers ensures Owned(s', t) {
      assert Owned(s, t);
    }
  }

  lemma AvailableKeeps(s: State, id: int)
    requires Inv(s) && Enabled(s, Available(id))
    ensures Inv(Step(s, Available(id)))
    ensures var s' := Step(s, Available(id));
      s'.running == id && s'.log == s.log && s'.actors[id] == IDLE_ACTOR && s'.timers == s.timers
  {
    if id in s.available {
      ResumeAvailableKeeps(s, id);
      assert Waits(s, id);
    } else {
      GrowKeeps(s);
      ResumeAvailableKeeps(Grow(s), id);
    }
  }

  /** Every step keeps the protocol invariant. */
  lemma StepKeeps(s: State, l: Label)
    requires Inv(s) && Enabled(s, l)
    ensures Inv(Step(s, l))
  {
    hide Step, Inv;
    match l
    case Call(sent) => CallKeeps(s, sent);
    case Take(m) => TakeKeeps(s, m);
    case Timeout(t) => TimeoutKeeps(s, t);
    case Idle => YieldIsIdle(s); YieldKeeps(s);
    case Active => ActiveKeeps(s);
    case Available(id) => AvailableKeeps(s, id);
  }

  lemma YieldIsIdle(s: State)
    requires Enabled(s, Idle)
    ensures Step(s, Idle) == Yield(s)
  {
  }

  lemma {:induction false} RunKeeps(s: State, ls: seq<Label>)
    requires Inv(s) && Possible(s, ls)
    ensures Inv(Run(s, ls))
    decreases |ls|
  {
    hide Inv, Step;
    if ls != [] {
      StepKeeps(s, ls[0]);
      RunKeeps(Step(s, ls[0]), ls[1..]);
    }
  }

  // ---------- the protocol, over every run ----------

  predicate Waiting(s: State, i: int) { s.Has(i) && s.places[i].InReceive? }

  /** The active queue is empty while a coroutine runs and never longer than 1; only the running
      coroutine has status running; a coroutine that waits is suspended, not available, and either
      in the active queue or has its timer pending; replies answer the requests they are returned
      for; and every call of RecieveMessage has returned once or still waits. */
  lemma Protocol(n: nat, ls: seq<Label>)
    requires Possible(Initial(n), ls)
    ensures var s := Run(Initial(n), ls);
      |s.active| <= 1 && (s.running >= 0 ==> s.active == [])
      && (forall i | s.Has(i) :: s.slots[i] == Ctx(Running) <==> i == s.running)
      && (forall i | Waiting(s, i) ::
            i !in s.available && s.slots[i] == Ctx(Suspend)
            && (i in s.active || (s.places[i].timer in s.timers && s.timers[s.places[i].timer] == i)))
      && (forall i | s.Has(i) && !Waiting(s, i) :: i in s.available)
      && (forall k | 0 <= k < |s.log| :: Answers(s.log[k]))
      && s.calls == |s.log| + (s.Size() - |s.available|)
  {
    InitialInv(n);
    RunKeeps(Initial(n), ls);
    var s := Run(Initial(n), ls);
    forall i | s.Has(i)
      ensures if Waiting(s, i) then
                i !in s.available && s.slots[i] == Ctx(Suspend)
                && (i in s.active || (s.places[i].timer in s.timers && s.timers[s.places[i].timer] == i))
              else i in s.available
    {
      assert Waits(s, i);
    }
  }

  /** A reply is accepted exactly by a coroutine that waits for its sequence id. Then nothing can
      happen before that coroutine's RecieveMessage returns this very reply; and a reply not accepted
      changes nothing. */
  lemma ReplyReachesItsWaiter(s: State, m: Message)
    requires Inv(s) && Enabled(s, Take(m)) && m.coroutineId >= 0
    ensures Accepts(s.actors[m.coroutineId], m)
        <==> Waiting(s, m.coroutineId) && s.places[m.coroutineId].sent == m.sequenceId
    ensures var s' := Step(s, Take(m));
      if Accepts(s.actors[m.coroutineId], m) then
        (forall l :: Enabled(s', l) <==> l == Active)
        && Step(s', Active).running == m.coroutineId
        && Step(s', Active).log == s.log + [Return(m.coroutineId, m.sequenceId, Some(m))]
      else s' == s
  {
    var id := m.coroutineId;
    assert Waits(s, id);
    if Accepts(s.actors[id], m) {
      TakeKeeps(s, m);
      ActiveKeeps(Step(s, Take(m)));
    }
  }

  /** A timer that fires makes its coroutine's RecieveMessage return nothing, next. */
  lemma TimeoutReachesItsWaiter(s: State, t: nat)
    requires Inv(s) && Enabled(s, Timeout(t))
    ensures var s' := Step(s, Timeout(t));
      var w := s.timers[t];
      Waiting(s, w) && (forall l :: Enabled(s', l) <==> l == Active)
      && Step(s', Active).running == w
      && Step(s', Active).log == s.log + [Return(w, s.places[w].sent, None)]
  {
    assert Owned(s, t);
    assert Waits(s, s.timers[t]);
    TimeoutKeeps(s, t);
    ActiveKeeps(Step(s, Timeout(t)));
  }

  /** When the running coroutine gives way: always, but for a reply that nobody accepts. The turn goes to
      the coroutine that the reply or the timer is for, and else to one that is available. */
  lemma GivesWay(s: State, l: Label)
    requires Inv(s) && Enabled(s, l) && s.running >= 0
    ensures var s' := Step(s, l);
      if l.Take? && l.m.coroutineId >= 0 && !(Waiting(s, l.m.coroutineId) && s.places[l.m.coroutineId].sent == l.m.sequenceId)
      then s'.running == s.running && s'.active == []
      else
        s'.running == -1 && s'.cur == -1 && s'.slots == s.slots[s.running := Ctx(Suspend)]
        && s'.active == (if l.Take? && l.m.coroutineId >= 0 then [l.m.coroutineId]
           else if l.Timeout? then [s.timers[l.t]] else [])
  {
    match l
    case Take(m) =>
      if m.coroutineId >= 0 {
        assert Waits(s, m.coroutineId);
      }
      TakeKeeps(s, m);
    case Timeout(t) =>
      assert Owned(s, t);
      TimeoutKeeps(s, t);
    case Call(sent) =>
      assert Waits(s, s.running);
      CallKeeps(s, sent);
    case _ =>
  }

  /** The branches that the code comments call impossible are: a message list that is not empty when
      RecieveMessage starts or holds the wrong reply when it returns, a timeout or an accepted reply
      for the running coroutine itself, a main loop that thinks a coroutine runs. */
  lemma NeverTaken(s: State)
    requires Inv(s)
    ensures s.running >= 0 ==> s.cur == s.running && s.actors[s.cur].msgList == []
    ensures forall i | s.Has(i) && s.places[i].InReceive? && s.actors[i].msgList != [] ::
              s.actors[i].msgList[0].sequenceId == s.places[i].sent
    ensures s.running >= 0 ==> forall t | t in s.timers :: s.Has(s.timers[t]) && s.timers[t] != s.running
    ensures s.running >= 0 ==> forall m: Message :: !Accepts(s.actors[s.running], m)
    ensures s.running < 0 ==> s.cur < 0
    ensures s.active != [] ==> s.Has(s.active[0]) && s.slots[s.active[0]] == Ctx(Suspend)
  {
    if s.running >= 0 {
      assert Waits(s, s.running);
      forall t | t in s.timers ensures s.Has(s.timers[t]) && s.timers[t] != s.running {
        assert Owned(s, t);
      }
    }
    if s.active != [] {
      assert s.active[0] in s.active;
      assert Waits(s, s.active[0]);
    }
    forall i | s.Has(i) && s.places[i].InReceive? && s.actors[i].msgList != []
      ensures s.actors[i].msgList[0].sequenceId == s.places[i].sent
    {
      assert Waits(s, i);
    }
  }

  lemma AnyOf(ids: set<int>) returns (id: int)
    requires ids != {}
    ensures id in ids
  {
    if forall i: int :: i !in ids {
      assert false;
    }
    id :| id in ids;
  }

  /** The main loop always finds a coroutine to run. */
  lemma NeverStuck(s: State)
    requires Inv(s) && s.running < 0
    ensures if s.active != [] then Enabled(s, Active) && Step(s, Active).running == s.active[0]
      else exists id :: Enabled(s, Available(id)) && Step(s, Available(id)).running == id
  {
    if s.active != [] {
      ActiveKeeps(s);
    } else {
      if s.available == {} {
        assert Enabled(s, Available(s.Size()));
        AvailableKeeps(s, s.Size());
      } else {
        var id := AnyOf(s.available);
        assert Enabled(s, Available(id));
        AvailableKeeps(s, id);
      }
    }
  }
}
