/** Timer: one-shot timers on the heap, and what callbacks may do while they fire. */
module Timer {
  import opened Options
  import opened Heap

  /** `hasProc`: time_proc is not null. */
  datatype TimerData = TimerData(timeOut: nat, data: int, hasProc: bool)

  type Pending = map<nat, TimerData>

  function Due(m: Pending, now: nat): set<nat> {
    set n | n in m && m[n].timeOut <= now
  }

  /** Timers of `m0` in `kept` are still there as they were; all others were set up since, for later. */
  predicate Kept(m0: Pending, kept: set<nat>, m: Pending, now: nat) {
    kept <= m0.Keys
    && (forall n | n in kept :: n in m && m[n] == m0[n])
    && (forall n | n in m && n !in kept :: m[n].timeOut > now)
  }

  /** The timers set up after a callback that have not fired. */
  function Unfired(after: Pending, erased: bool, firing: nat): Pending { if erased then after else after - {firing} }

  /** One timer with the least deadline is missing. */
  predicate LeastLost(after: Pending, left: Pending) {
    exists lost | lost in after :: left == after - {lost} && forall n | n in after :: after[lost].timeOut <= after[n].timeOut
  }

  /** The deadlines of `fired` come in order, each was due, and none exceeds what is still pending. */
  predicate InOrder(m0: Pending, fired: seq<nat>, kept: set<nat>, now: nat) {
    (forall i | 0 <= i < |fired| :: fired[i] in m0 && m0[fired[i]].timeOut <= now && fired[i] !in kept)
    && (forall i, j | 0 <= i < j < |fired| :: fired[i] != fired[j])
    && (forall i, j | 0 <= i < j < |fired| && fired[i] in m0 && fired[j] in m0 ::
          m0[fired[i]].timeOut <= m0[fired[j]].timeOut)
    && (forall i, n | 0 <= i < |fired| && n in kept && fired[i] in m0 && n in m0 ::
          m0[fired[i]].timeOut <= m0[n].timeOut)
  }

  /** What did not fire and was not deleted is still there. */
  predicate Accounted(m0: Pending, fired: seq<nat>, erased: set<nat>, kept: set<nat>) {
    forall n | n in m0 && n !in fired && n !in erased :: n in kept
  }

  lemma FiresNext(m0: Pending, fired: seq<nat>, kept: set<nat>, now: nat, h: nat, kept': set<nat>)
    requires InOrder(m0, fired, kept, now) && kept <= m0.Keys
    requires h in kept && m0[h].timeOut <= now && kept' <= kept - {h}
    requires forall n | n in kept :: m0[h].timeOut <= m0[n].timeOut
    ensures InOrder(m0, fired + [h], kept', now)
  {
  }

  class Timer {
    const heap: HeapBase<TimerData>

    ghost predicate Valid()
      reads this, heap, heap.heapItems, heap.nodes
    {
      heap.Valid() && heap.sizeContainer > 1 && heap.key == Deadline
    }

    static function Deadline(d: TimerData): int { d.timeOut }

    ghost function Pending(): Pending
      requires Valid()
      reads this, heap, heap.heapItems, heap.nodes
    {
      heap.Contents()
    }

    constructor ()
      ensures Valid() && Pending() == map[] && fresh(heap) && fresh(heap.heapItems) && fresh(heap.nodes)
    {
      heap := new HeapBase<TimerData>(4096, Deadline);
    }

    /** AddTimer at clock time `clock`; the handle identifies the timer until it fires or is deleted. */
    method AddTimer(clock: nat, after: nat, data: TimerData) returns (id: nat)
      requires Valid()
      modifies heap, heap.heapItems, heap.nodes
      ensures Valid() && (heap.heapItems == old(heap.heapItems) || fresh(heap.heapItems))
      ensures heap.nodes == old(heap.nodes) || fresh(heap.nodes)
      ensures id !in old(Pending()) && Pending() == old(Pending())[id := data.(timeOut := clock + after)]
    {
      id := heap.Insert(data.(timeOut := clock + after));
    }

    method DelTimer(id: nat)
      requires Valid() && (heap.numItems > 0 ==> id in Pending())
      modifies heap, heap.heapItems, heap.nodes
      ensures heap.heapItems == old(heap.heapItems) && heap.nodes == old(heap.nodes)
      ensures Valid() && Pending() == old(Pending()) - {id}
    {
      heap.Erase(id);
    }

    /** The timer that fires is at the root and may fire. */
    ghost predicate Firing(firing: nat, now: nat)
      requires Valid()
      reads this, heap, heap.heapItems, heap.nodes
    {
      heap.numItems > 0 && firing == heap.TopHandle() && firing in Pending() && Pending()[firing].timeOut <= now
    }

    /** A callback sets up a timer for later than `now`. */
    method AddLater(data: TimerData, ghost firing: nat, now: nat, ghost m0: Pending, ghost kept: set<nat>)
      requires Valid() && Firing(firing, now) && data.timeOut > now && Kept(m0, kept, Pending(), now)
      modifies heap, heap.heapItems, heap.nodes
      ensures (heap.heapItems == old(heap.heapItems) || fresh(heap.heapItems))
        && (heap.nodes == old(heap.nodes) || fresh(heap.nodes))
      ensures Valid() && Firing(firing, now) && Kept(m0, kept, Pending(), now)
    {
      hide HeapBase.Valid, HeapBase.Contents, HeapBase.TopHandle;
      var _ := heap.Insert(data);
    }

    /** A callback deletes a timer other than the one that fires. */
    method DeleteOther(id: nat, ghost firing: nat, now: nat, ghost m0: Pending, ghost kept: set<nat>)
      requires Valid() && Firing(firing, now) && id in Pending() && id != firing && firing in kept
        && Kept(m0, kept, Pending(), now)
      modifies heap, heap.heapItems, heap.nodes
      ensures heap.heapItems == old(heap.heapItems) && heap.nodes == old(heap.nodes)
      ensures Valid() && Firing(firing, now) && Kept(m0, kept - {id}, Pending(), now)
    {
      hide HeapBase.Valid, HeapBase.Contents;
      heap.Erase(id);
      NotEmpty(heap, firing);
    }

    /** Any callback that sets up timers for later than `now` and, if it `deletes`, deletes any timers
        but the one that fires, as often as it likes. */
    method OnTimer(firing: nat, now: nat, deletes: bool) returns (ghost erased: set<nat>, ghost kept: set<nat>)
      requires Valid() && Firing(firing, now)
      modifies heap, heap.heapItems, heap.nodes
      ensures (heap.heapItems == old(heap.heapItems) || fresh(heap.heapItems))
        && (heap.nodes == old(heap.nodes) || fresh(heap.nodes))
      ensures Valid() && Firing(firing, now)
      ensures firing in kept && kept == old(Pending()).Keys - erased && (!deletes ==> erased == {})
      ensures Kept(old(Pending()), kept, Pending(), now)
    {
      hide HeapBase.Valid, HeapBase.Contents, HeapBase.TopHandle, Kept;
      erased, kept := {}, Pending().Keys;
      ghost var m0 := Pending();
      AllKept(m0, now);
      var rounds: nat := *;
      while rounds > 0
        invariant (heap.heapItems == old(heap.heapItems) || fresh(heap.heapItems))
          && (heap.nodes == old(heap.nodes) || fresh(heap.nodes))
        invariant Valid() && Firing(firing, now)
        invariant firing in kept && kept == m0.Keys - erased && (!deletes ==> erased == {})
        invariant Kept(m0, kept, Pending(), now)
      {
        var data: TimerData := *;
        var slot: nat := *;
        if data.timeOut > now {
          AddLater(data, firing, now, m0, kept);
        } else if deletes && 1 <= slot <= heap.numItems {
          Live(heap, slot);
          var id := heap.heapItems[slot];
          if id != firing {
            DeleteOther(id, firing, now, m0, kept);
            erased, kept := erased + {id}, kept - {id};
          }
        }
        rounds := rounds - 1;
      }
    }

    /** ProcessTimer at clock time `now`, with callbacks that set up timers for later and do not
        delete the timer that fires. Only timers due at entry fire, each once and in order of their
        deadlines; the others stay unless a callback deletes them; no due timer is left; so exactly
        the due timers fire if callbacks delete none. And it ends. */
    method ProcessTimer(now: nat, deletes: bool) returns (ghost fired: seq<nat>, ghost erased: set<nat>)
      requires Valid()
      modifies heap, heap.heapItems, heap.nodes
      ensures Valid()
      ensures forall i | 0 <= i < |fired| :: fired[i] in old(Pending()) && old(Pending())[fired[i]].timeOut <= now
      ensures forall i, j | 0 <= i < j < |fired| :: fired[i] != fired[j]
      ensures forall i, j | 0 <= i < j < |fired| && fired[i] in old(Pending()) && fired[j] in old(Pending()) ::
                old(Pending())[fired[i]].timeOut <= old(Pending())[fired[j]].timeOut
      ensures forall n | n in old(Pending()) && n !in fired && n !in erased ::
                n in Pending() && Pending()[n] == old(Pending())[n]
      ensures !deletes ==> erased == {}
      ensures (forall n | n in Pending() :: Pending()[n].hasProc) ==> forall n | n in Pending() :: Pending()[n].timeOut > now
      ensures !deletes && (forall n | n in Pending() :: Pending()[n].hasProc) ==>
                forall n :: n in fired <==> n in old(Pending()) && old(Pending())[n].timeOut <= now
    {
      hide HeapBase.Valid, HeapBase.Contents, HeapBase.TopHandle, Kept, InOrder, Due, Accounted;
      ghost var m0 := Pending();
      ghost var kept := m0.Keys;
      fired, erased := [], {};
      Starts(m0, now);
      var top := Peek();
      while top.Some? && now >= top.value.timeOut && top.value.hasProc
        invariant (heap.heapItems == old(heap.heapItems) || fresh(heap.heapItems))
          && (heap.nodes == old(heap.nodes) || fresh(heap.nodes))
        invariant Valid() && Kept(m0, kept, Pending(), now) && InOrder(m0, fired, kept, now)
        invariant IsTop(top)
        invariant Accounted(m0, fired, erased, kept) && (!deletes ==> erased == {})
        decreases Due(Pending(), now)
      {
        ghost var before := Pending();
        ghost var firing, gone, left, after := FireTop(top.value, now, deletes);
        OnePass(m0, fired, erased, kept, before, gone, left, after, firing, now);
        erased, kept := erased + gone, (kept * left) - {firing};
        fired := fired + [firing];
        top := Peek();
      }
      Ends(m0, fired, erased, kept, Pending(), now);
    }

    /** One pass of the loop: the timer at the root fires, and Pop removes that timer. */
    method FireTop(top: TimerData, now: nat, deletes: bool)
      returns (ghost firing: nat, ghost gone: set<nat>, ghost left: set<nat>, ghost after: Pending)
      requires Valid() && IsTop(Some(top)) && top.timeOut <= now
      modifies heap, heap.heapItems, heap.nodes
      ensures (heap.heapItems == old(heap.heapItems) || fresh(heap.heapItems))
        && (heap.nodes == old(heap.nodes) || fresh(heap.nodes))
      ensures Valid() && firing in old(Pending()) && old(Pending())[firing] == top
      ensures !deletes ==> gone == {}
      ensures firing in left && left == old(Pending()).Keys - gone && Kept(old(Pending()), left, after, now)
      ensures Pending() == after - {firing}
    {
      Root(heap);
      hide HeapBase.Valid, HeapBase.Contents, HeapBase.TopHandle, Kept;
      firing := heap.TopHandle();
      gone, left := OnTimer(heap.heapItems[1], now, deletes);
      after := Pending();
      var popped := heap.Pop();
      assert popped == firing;
    }

    /** Any callback whatever: it sets up timers, never for earlier than `now`, and deletes any timers,
        perhaps the one that fires (`erased`), as often as it likes. As long as that one has not been
        deleted it stays at the root. */
    method AnyCallback(firing: nat, now: nat) returns (ghost erased: bool)
      requires Valid() && Firing(firing, now)
      modifies heap, heap.heapItems, heap.nodes
      ensures (heap.heapItems == old(heap.heapItems) || fresh(heap.heapItems))
        && (heap.nodes == old(heap.nodes) || fresh(heap.nodes))
      ensures Valid() && (!erased ==> Firing(firing, now))
    {
      hide HeapBase.Valid, HeapBase.Contents, HeapBase.TopHandle;
      erased := false;
      var rounds: nat := *;
      while rounds > 0
        invariant (heap.heapItems == old(heap.heapItems) || fresh(heap.heapItems))
          && (heap.nodes == old(heap.nodes) || fresh(heap.nodes))
        invariant Valid() && (!erased ==> Firing(firing, now))
      {
        var data: TimerData := *;
        var slot: nat := *;
        var deletes: bool := *;
        if deletes && 1 <= slot <= heap.numItems {
          Live(heap, slot);
          var id := heap.heapItems[slot];
          heap.Erase(id);
          if !erased && id != firing {
            NotEmpty(heap, firing);
          }
          erased := erased || id == firing;
        } else if !deletes && data.timeOut >= now {
          var _ := heap.Insert(data);
        }
        rounds := rounds - 1;
      }
    }

    /** One pass of the loop with any callback, after which the timers `after` are set up: Pop takes
        exactly the timer that fired, and no other, if and only if the callback did not delete that
        timer itself or left no timer at all. Otherwise a timer is lost that has not fired, one with
        the least deadline of those left. */
    method FireAny(top: TimerData, now: nat) returns (ghost erased: bool, ghost after: Pending, ghost firing: nat)
      requires Valid() && IsTop(Some(top)) && top.timeOut <= now
      modifies heap, heap.heapItems, heap.nodes
      ensures Valid() && firing in old(Pending()) && old(Pending())[firing] == top
      ensures !erased ==> firing in after && after[firing].timeOut <= now
      ensures Pending() == Unfired(after, erased, firing) <==> !erased || after == map[]
      ensures erased && after != map[] ==> LeastLost(after, Pending())
    {
      Root(heap);
      hide HeapBase.Valid, HeapBase.Contents, HeapBase.TopHandle;
      firing := heap.TopHandle();
      erased := AnyCallback(heap.heapItems[1], now);
      after := Pending();
      Emptied(heap);
      ghost var least := heap.TopHandle();
      var popped := heap.Pop();
      if erased && after != map[] {
        assert popped == least && least in after && Pending() == after - {least};
      }
    }

    /** Top, or nothing when the heap is empty. */
    method Peek() returns (top: Option<TimerData>)
      requires Valid()
      ensures IsTop(top)
    {
      top := heap.Top();
      if top.Some? {
        NotEmpty(heap, heap.TopHandle());
      }
    }

    ghost predicate IsTop(top: Option<TimerData>)
      requires Valid()
      reads this, heap, heap.heapItems, heap.nodes
    {
      (top.None? <==> Pending() == map[])
      && (top.Some? ==>
            heap.numItems > 0 && heap.TopHandle() in Pending() && Pending()[heap.TopHandle()] == top.value
            && forall n | n in Pending() :: top.value.timeOut <= Pending()[n].timeOut)
    }
  }

  /** Two timers, one due at once and one much later. */
  method TwoTimers(data: TimerData) returns (t: Timer, first: nat, ghost second: nat)
    ensures fresh(t) && fresh(t.heap) && fresh(t.heap.heapItems) && fresh(t.heap.nodes) && t.Valid() && first != second
    ensures t.Pending() == map[first := data.(timeOut := 0), second := data.(timeOut := 1000)]
  {
    hide HeapBase.Valid, HeapBase.Contents, HeapBase.TopHandle;
    t := new Timer();
    first := t.AddTimer(0, 0, data);
    second := t.AddTimer(0, 1000, data);
  }

  /** The callback of the first deletes it, as AsyncSequence::OnTimer and SyncSequence::OnTimer do, and
      ProcessTimer pops. Then the second, due much later, is gone as well. */
  method SelfDeleteLoses(data: TimerData) returns (t: Timer)
    ensures t.Valid() && t.Pending() == map[]
  {
    hide HeapBase.Valid, HeapBase.Contents, HeapBase.TopHandle;
    var first: nat;
    ghost var second: nat;
    t, first, second := TwoTimers(data);
    t.DelTimer(first);
    assert t.Pending() == map[second := data.(timeOut := 1000)];
    NotEmpty(t.heap, second);
    var popped := t.heap.Pop();
    assert popped == second;
  }

  lemma Starts(m: Pending, now: nat)
    ensures Accounted(m, [], {}, m.Keys)
    ensures Kept(m, m.Keys, m, now) && InOrder(m, [], m.Keys, now)
  {
  }

  /** One timer fires and is popped: `left` of the timers before the callback are still there after it. */
  lemma OnePass(m0: Pending, fired: seq<nat>, erased: set<nat>, kept: set<nat>, before: Pending,
                gone: set<nat>, left: set<nat>, after: Pending, firing: nat, now: nat)
    requires Kept(m0, kept, before, now) && InOrder(m0, fired, kept, now)
    requires firing in before && before[firing].timeOut <= now
    requires forall n | n in before :: before[firing].timeOut <= before[n].timeOut
    requires Kept(before, left, after, now) && firing in left && left == before.Keys - gone
    requires Accounted(m0, fired, erased, kept)
    ensures var kept' := (kept * left) - {firing};
      Kept(m0, kept', after - {firing}, now) && InOrder(m0, fired + [firing], kept', now)
    ensures Accounted(m0, fired + [firing], erased + gone, (kept * left) - {firing})
    ensures Due(after - {firing}, now) < Due(before, now)
  {
    FiresNext(m0, fired, kept, now, firing, (kept * left) - {firing});
    assert firing in Due(before, now);
  }

  lemma Ends(m0: Pending, fired: seq<nat>, erased: set<nat>, kept: set<nat>, m: Pending, now: nat)
    requires Kept(m0, kept, m, now) && InOrder(m0, fired, kept, now) && Accounted(m0, fired, erased, kept)
    ensures forall i | 0 <= i < |fired| :: fired[i] in m0 && m0[fired[i]].timeOut <= now
    ensures forall i, j | 0 <= i < j < |fired| :: fired[i] != fired[j]
    ensures forall i, j | 0 <= i < j < |fired| && fired[i] in m0 && fired[j] in m0 ::
              m0[fired[i]].timeOut <= m0[fired[j]].timeOut
    ensures forall n | n in m0 && n !in fired && n !in erased :: n in m && m[n] == m0[n]
    ensures erased == {} && (forall n | n in m :: m[n].timeOut > now) ==>
              forall n :: n in fired <==> n in m0 && m0[n].timeOut <= now
  {
  }

  lemma AllKept(m: Pending, now: nat)
    ensures Kept(m, m.Keys, m, now)
  {
  }

  lemma Root<V(0)>(heap: HeapBase<V>)
    requires heap.Valid() && heap.numItems > 0
    ensures 1 < heap.heapItems.Length && heap.heapItems[1] == heap.TopHandle()
  {
  }

  lemma Emptied<V(0)>(heap: HeapBase<V>)
    requires heap.Valid()
    ensures heap.numItems == 0 <==> heap.Contents() == map[]
  {
    if heap.numItems > 0 {
      RootHeld(heap.heapItems[..], heap.nodes[..], heap.numItems);
    }
  }

  lemma NotEmpty<V(0)>(heap: HeapBase<V>, n: nat)
    requires heap.Valid() && n in heap.Contents()
    ensures heap.numItems > 0
  {
  }

  /** A slot of the heap holds a live handle. */
  lemma Live<V(0)>(heap: HeapBase<V>, slot: nat)
    requires heap.Valid() && 1 <= slot <= heap.numItems
    ensures slot < heap.heapItems.Length && heap.heapItems[slot] in heap.Contents()
  {
    assert heap.heapItems[..][slot] == heap.heapItems[slot];
  }
}
