/** The table of coroutine slots (CoroSchedule and CoroutineImpl). */
module CoroutineSlots {
  import opened Arithmetic
  import opened CoroutineModel

  function Occupied(slots: seq<Slot>): nat {
    if slots == [] then 0
    else Occupied(slots[..|slots| - 1]) + if slots[|slots| - 1].Null? then 0 else 1
  }

  lemma {:induction false} OccupiedFull(slots: seq<Slot>)
    ensures Occupied(slots) <= |slots|
    ensures Occupied(slots) == |slots| <==> forall i | 0 <= i < |slots| :: slots[i].Ctx?
  {
    if slots != [] {
      var init := slots[..|slots| - 1];
      OccupiedFull(init);
      assert forall i | 0 <= i < |init| :: init[i] == slots[i];
    }
  }

  lemma {:induction false} OccupiedUpdate(slots: seq<Slot>, id: nat, to: Slot)
    requires id < |slots|
    ensures Occupied(slots[id := to])
         == Occupied(slots) - (if slots[id].Null? then 0 else 1) + (if to.Null? then 0 else 1)
  {
    var n := |slots| - 1;
    if id == n {
      assert slots[id := to][..n] == slots[..n];
    } else {
      assert slots[id := to][..n] == slots[..n][id := to];
      OccupiedUpdate(slots[..n], id, to);
    }
  }

  /** The slot CoroutineNew looks at in the `j`-th pass of its scan. */
  function Scanned(j: nat, from: nat, cap: nat): (id: nat)
    requires 0 < cap
    ensures id < cap
  {
    (j + from) % cap
  }

  lemma ScannedIs(j: nat, from: nat, cap: nat)
    requires j < cap && from < cap
    ensures Scanned(j, from, cap) == if j + from < cap then j + from else j + from - cap
  {
    var a := j + from;
    if a >= cap {
      ModShift(a - cap, cap);
      ModUnique(a - cap, cap, 0, a - cap);
    } else {
      ModUnique(a, cap, 0, a);
    }
  }

  /** The rotated scan of CoroutineNew visits every slot. */
  lemma RotationVisits(z: nat, from: nat, cap: nat) returns (k: nat)
    requires z < cap && from < cap
    ensures k < cap && Scanned(k, from, cap) == z
  {
    k := if z >= from then z - from else z + cap - from;
    ScannedIs(k, from, cap);
  }

  class CoroSchedule {
    var coctxs: seq<Slot>
    var nco: nat
    var cap: nat
    var running: int

    /** The counters say what the table holds; at most one coroutine runs, the one recorded. */
    ghost predicate Valid()
      reads this
    {
      |coctxs| == cap && nco == Occupied(coctxs) && -1 <= running < cap
      && (forall i | 0 <= i < cap :: coctxs[i] == Ctx(Running) <==> i == running)
    }

    /** CoroutineInit. */
    constructor (coroutineSize: nat)
      ensures Valid() && nco == 0 && running == -1
      ensures coctxs == seq(coroutineSize, i => Null)
    {
      coctxs, nco, cap, running := seq(coroutineSize, i => Null), 0, coroutineSize, -1;
      new;
      EmptyTable(coroutineSize);
    }

    /** CoroutineNew: a table that is full grows, otherwise the scan that starts at slot `nco` and
        wraps around takes the first free slot; it never fails. */
    method CoroutineNew() returns (id: int)
      requires Valid()
      modifies this
      ensures Valid() && id >= 0 && nco == old(nco) + 1 && running == old(running)
      ensures old(nco) == old(cap) ==> id == old(cap) && coctxs == old(coctxs) + [Ctx(Ready)]
      ensures old(nco) < old(cap) ==>
        id < old(cap) && old(coctxs)[id] == Null && coctxs == old(coctxs)[id := Ctx(Ready)]
        && exists k: nat :: k < old(cap) && id == Scanned(k, old(nco), old(cap))
             && forall j: nat | j < k :: old(coctxs)[Scanned(j, old(nco), old(cap))] != Null
    {
      hide Scanned;
      OccupiedFull(coctxs);
      if nco >= cap {
        id := cap;
        assert (coctxs + [Ctx(Ready)])[..cap] == coctxs;
        coctxs := coctxs + [Ctx(Ready)];
        cap := cap + 1;
        nco := nco + 1;
        return;
      }
      var idx := 0;
      while idx < cap
        invariant idx <= cap && nco == old(nco) && cap == old(cap) && coctxs == old(coctxs) && running == old(running)
        invariant forall j: nat | j < idx :: coctxs[Scanned(j, nco, cap)] != Null
      {
        id := Scanned(idx, nco, cap);
        if coctxs[id] == Null {
          OccupiedUpdate(coctxs, id, Ctx(Ready));
          coctxs := coctxs[id := Ctx(Ready)];
          nco := nco + 1;
          return;
        }
        idx := idx + 1;
      }
      forall z | 0 <= z < cap ensures coctxs[z].Ctx? {
        var k := RotationVisits(z, nco, cap);
        assert coctxs[Scanned(k, nco, cap)] != Null;
      }
      assert false;
    }

    /** CoroutineResume, up to the switch. */
    method CoroutineResume(id: int)
      requires Valid()
      modifies this
      ensures Valid() && nco == old(nco) && cap == old(cap)
      ensures if old(running) == -1 && 0 <= id < cap && old(coctxs)[id].Ctx? && old(coctxs)[id] != Ctx(Running)
        then running == id && coctxs == old(coctxs)[id := Ctx(Running)]
        else running == old(running) && coctxs == old(coctxs)
    {
      if running != -1 || id < 0 || id >= cap || coctxs[id] == Null {
        return;
      }
      match coctxs[id].status
      case Running =>
      case _ =>
        OccupiedUpdate(coctxs, id, Ctx(Running));
        running := id;
        coctxs := coctxs[id := Ctx(Running)];
    }

    /** CoroutineYield, up to the switch. */
    method CoroutineYield()
      requires Valid()
      modifies this
      ensures Valid() && nco == old(nco) && cap == old(cap) && running == -1
      ensures coctxs == if old(running) < 0 then old(coctxs) else old(coctxs)[old(running) := Ctx(Suspend)]
    {
      if running < 0 {
        return;
      }
      OccupiedUpdate(coctxs, running, Ctx(Suspend));
      coctxs := coctxs[running := Ctx(Suspend)];
      running := -1;
    }

    /** The end of MainFunc: the running coroutine's function has returned. */
    method Finish()
      requires Valid() && running >= 0
      modifies this
      ensures Valid() && cap == old(cap) && running == -1 && nco == old(nco) - 1
      ensures coctxs == old(coctxs)[old(running) := Null]
    {
      OccupiedUpdate(coctxs, running, Null);
      coctxs := coctxs[running := Null];
      nco := nco - 1;
      running := -1;
    }
  }

  lemma {:induction false} EmptyTable(n: nat)
    ensures Occupied(seq(n, i => Null)) == 0
  {
    if n > 0 {
      assert seq(n, i => Null)[..n - 1] == seq(n - 1, i => Null);
      EmptyTable(n - 1);
    }
  }
}
