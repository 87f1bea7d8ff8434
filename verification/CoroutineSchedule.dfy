/** The scheduler, the actors and the service loop of one thread as they are written, each method
    proved to take the step of CoroutineModel that bears its name. */
module CoroutineScheduler {
  import opened CoroutineModel
  import opened Options
  import opened CoroutineSlots

  /** InitCoroSchedule after `k` of `n` coroutines. */
  function Partial(k: nat, n: nat): State
    requires k <= n
  {
    Initial(k).(slots := seq(n, i => if i < k then Ctx(Ready) else Null))
  }

  lemma PartialStep(k: nat, n: nat)
    requires k < n
    ensures var s := Partial(k, n);
      Partial(k + 1, n)
        == s.(slots := s.slots[k := Ctx(Ready)], available := s.available + {k}, actors := s.actors + [IDLE_ACTOR],
              places := s.places + [Elsewhere])
  {
  }

  lemma PartialEnds(n: nat)
    ensures Partial(n, n) == Initial(n)
    ensures Partial(0, n) == State(seq(n, i => Null), -1, -1, {}, [], [], [], map[], 1, 0, [])
  {
    assert Partial(0, n).slots == seq(n, i => Null);
    assert Partial(n, n).slots == Initial(n).slots;
  }

  class CoroutineSchedule {
    const table: CoroSchedule
    var all: seq<int>
    var available: set<int>
    var active: seq<int>
    var cur: int
    var actors: seq<Actor>              // the actors of the contexts in the table
    var places: seq<Place>              // where their stacks stand
    var timers: map<nat, int>
    var nextTimer: nat
    ghost var calls: nat
    ghost var log: seq<Return>

    /** The first `k` slots of the table are taken, the others are free. */
    ghost predicate Filled(k: nat)
      reads this, table
    {
      table.Valid() && table.nco == k <= table.cap && |actors| == |places| == k
      && (forall i | 0 <= i < k :: table.coctxs[i].Ctx?)
      && (forall i | k <= i < table.cap :: table.coctxs[i] == Null)
    }

    /** No service function returns while the thread runs: every slot stays taken. */
    ghost predicate Valid()
      reads this, table
    {
      Filled(table.cap)
    }

    ghost function View(): State
      reads this, table
    {
      State(table.coctxs, table.running, cur, available, active, actors, places, timers, nextTimer, calls, log)
    }

    /** InitCoroSchedule: the ids handed out are exactly 0 to size - 1, in order. */
    constructor InitCoroSchedule(coroutineSize: nat)
      ensures Valid() && fresh(table)
      ensures View() == Initial(coroutineSize) && all == seq(coroutineSize, i => i)
    {
      hide Occupied, Partial, Initial;
      table := new CoroSchedule(coroutineSize);
      all, available, active, cur, actors, places, timers, nextTimer := [], {}, [], -1, [], [], map[], 1;
      calls, log := 0, [];
      new;
      PartialEnds(coroutineSize);
      assert all == seq(0, i => i);
      var idx := 0;
      while idx < table.cap
        invariant idx <= table.cap == coroutineSize && Filled(idx) && fresh(table)
        invariant View() == Partial(idx, coroutineSize)
        invariant all == seq(idx, i => i)
      {
        PartialStep(idx, coroutineSize);
        var id := AddNewCoroutine(idx);
        assert all == seq(idx + 1, i => i);
        idx := idx + 1;
      }
    }

    /** AddNewCoroutine, for a table whose first `k` slots are taken. */
    method AddNewCoroutine(ghost k: nat) returns (id: int)
      requires Filled(k)
      modifies this, table
      ensures id == k && Filled(k + 1) && all == old(all) + [k]
      ensures View() == old(View()).(
                slots := if k < old(table.cap) then old(table.coctxs)[k := Ctx(Ready)] else old(table.coctxs) + [Ctx(Ready)],
                available := old(available) + {k}, actors := old(actors) + [IDLE_ACTOR], places := old(places) + [Elsewhere])
    {
      hide Scanned, Occupied;
      if k < table.cap {
        ScannedIs(0, k, table.cap);
      }
      id := table.CoroutineNew();
      assert id == k;
      actors, places := actors + [IDLE_ACTOR], places + [Elsewhere];
      all := all + [id];
      available := available + {id};
    }

    /** GetAvailableCoroId; a coroutine is created when none is available. */
    method GetAvailableCoroId() returns (id: int)
      requires Valid()
      modifies this, table
      ensures Valid() && id in available
      ensures if old(available) != {} then View() == old(View()) else View() == Grow(old(View())) && id == old(table.cap)
    {
      hide Occupied;
      if available != {} {
        if forall i: int :: i !in available {
          assert false;
        }
        id :| id in available;
        return;
      }
      id := AddNewCoroutine(table.cap);
    }

    /** CoroutineYield(): the running coroutine is suspended. */
    method CoroutineYield()
      requires Valid()
      modifies this, table
      ensures Valid() && View() == Yield(old(View()))
    {
      hide Occupied;
      cur := -1;
      table.CoroutineYield();
    }

    method CoroutineYieldToActive(id: int) returns (switched: bool)
      requires Valid()
      modifies this, table
      ensures Valid() && View() == YieldToActive(old(View()), id)
      ensures switched ==> table.running == -1
    {
      hide Occupied;
      if id < 0 || id >= table.cap || table.running == id {
        return false;
      }
      active := active + [id];
      if table.running >= 0 {
        CoroutineYield();
        return true;
      }
      return false;
    }

    /** CoroutineResume; the coroutine goes on inside RecieveMessage if it waited there. */
    method CoroutineResume(id: int)
      requires Valid()
      modifies this, table
      ensures Valid() && View() == Resume(old(View()), id)
    {
      hide Occupied;
      if id < 0 || id >= table.cap {
        return;
      }
      cur := id;
      var before := table.running;
      table.CoroutineResume(id);
      if table.running == id && before != id {
        match places[id]
        case Elsewhere =>
        case InReceive(sent, t) =>
          available := available + {id};
          var _ := AfterYield(id, sent, t, true);
      }
    }

    /** RecieveMessage after the yield: `timed` when a timer was set up. */
    method AfterYield(id: int, sent: nat, t: nat, timed: bool) returns (reply: Option<Message>)
      requires Valid() && 0 <= id < table.cap
      modifies this
      ensures Valid() && View() == ReceiveEnd(old(View()), id, sent, if timed then Some(t) else None)
      ensures log == old(log) + [Return(id, sent, reply)]
    {
      hide Occupied;
      var a := actors[id].(isWaiting := false, waitingId := NO_ID);
      if timed {
        timers := timers - {t};
      }
      reply := None;
      if a.msgList != [] {
        var m := a.msgList[0];
        a := a.(msgList := a.msgList[1..]);
        reply := if m.sequenceId != sent then None else Some(m);
      }
      actors := actors[id := a];
      places := places[id := Elsewhere];
      log := log + [Return(id, sent, reply)];
    }

    /** SetWaitingId and RecieveMessage up to its yield, by the coroutine GetCurCoroutineId names, for a
        message that carries coroutine id `owner`. */
    method RecieveMessage(sent: nat, owner: int)
      requires Valid() && 0 <= cur < table.cap
      modifies this, table
      ensures Valid() && View() == Receive(old(View()), sent, owner)
    {
      hide Occupied, Yield, ReceiveEnd;
      var id := cur;
      actors := actors[id := actors[id].(isWaiting := true, waitingId := sent)];
      calls := calls + 1;
      if id != owner {
        log := log + [Return(id, sent, None)];
        return;
      }
      if actors[id].msgList != [] {
        var _ := AfterYield(id, sent, 0, false);
        return;
      }
      var t := nextTimer;
      timers := timers[t := id];
      nextTimer := t + 1;
      available := available - {id};
      if id == table.running {
        places := places[id := InReceive(sent, t)];
        CoroutineYield();
      } else {
        available := available + {id};
        var _ := AfterYield(id, sent, t, true);
      }
    }

    /** CoroutineActor::SendMessage on the actor of coroutine `id`. */
    method SendMessage(id: int, m: Message) returns (ok: bool)
      requires Valid() && 0 <= id < table.cap
      modifies this
      ensures Valid() && ok == Accepts(old(actors[id]), m)
      ensures View() == if !ok then old(View())
        else old(View()).(actors := old(actors)[id := old(actors[id]).(msgList := old(actors[id]).msgList + [m],
            waitingId := NO_ID)])
    {
      hide Occupied;
      var a := actors[id];
      if !a.isWaiting || (a.isWaiting && m.sequenceId != a.waitingId) {
        return false;
      }
      actors := actors[id := a.(msgList := a.msgList + [m], waitingId := NO_ID)];
      return true;
    }

    method ProcessClientItem(m: Message)
      requires Valid() && m.coroutineId < table.cap
      modifies this, table
      ensures Valid() && View() == Deliver(old(View()), m)
    {
      hide Occupied;
      if m.coroutineId < 0 {
        CoroutineYield();
        return;
      }
      var ok := SendMessage(m.coroutineId, m);
      if ok {
        var _ := CoroutineYieldToActive(m.coroutineId);
      }
    }

    /** RunTimer takes timer `t` out; CoroTimer::OnTimer and OnTimerCoro. */
    method OnTimer(t: nat)
      requires Valid() && t in timers
      modifies this, table
      ensures Valid() && View() == Fire(old(View()), t)
    {
      hide Occupied;
      var id := timers[t];
      timers := timers - {t};
      if id < 0 {
        return;
      }
      var _ := CoroutineYieldToActive(id);
    }

    method CoroutineResumeActive() returns (resumed: bool)
      requires Valid()
      modifies this, table
      ensures Valid() && View() == ResumeActive(old(View()))
      ensures !resumed ==>
        View() == old(View())
        || (old(table.running) < 0 && old(active) != [] && !(0 <= old(active)[0] < table.cap))
      ensures resumed ==> old(table.running) < 0 && old(active) != []
    {
      hide Occupied;
      if table.running >= 0 {
        return false;
      }
      if |active| > 0 {
        var id := active[0];
        active := active[1..];
        if id < 0 || id >= table.cap {
          return false;
        }
        CoroutineResume(id);
        return true;
      }
      return false;
    }

    /** One pass of the loop in Run, when no coroutine runs: the step it takes is Active or, with an
        empty active queue, Available. */
    method RunOnce(ghost s: State) returns (ghost l: Label)
      requires Valid() && s == View() && Inv(s) && table.running < 0
      modifies this, table
      ensures Valid() && Enabled(s, l) && (l == Active || l.Available?) && View() == Step(s, l)
      ensures table.running >= 0
    {
      hide Occupied, Inv;
      NeverTaken(s);
      var resumed := CoroutineResumeActive();
      if resumed {
        l := Active;
        ActiveKeeps(s);
        return;
      }
      assert active == [];
      if cur < 0 {
        var id := GetAvailableCoroId();
        l := Available(id);
        AvailableKeeps(s, id);
        CoroutineResume(id);
      }
    }
  }
}
