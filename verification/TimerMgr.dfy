/** TimerMgr: timers in a multimap by time and a map by id, with callbacks that may set up and
    delete timers and, since a coroutine may give way inside its callback, run timers themselves. */
module TimerMgr {

  /** An element of timer_map_. */
  datatype Entry = Entry(when: nat, id: nat, data: int)

  /** `Fired`: the callback was called with `data` by a RunTimer that read the clock as `at`. */
  datatype Log = Added(id: nat, when: nat, data: int) | Deleted(id: nat) | Fired(id: nat, when: nat, data: int, at: nat)

  function SetUp(e: Entry): Log { Added(e.id, e.when, e.data) }

  /** `ids`: id_map_, an id's iterator standing for the element it points to. `clock`: the latest
      time read; the clock does not go back. */
  datatype Mgr = Mgr(timers: seq<Entry>, ids: map<nat, Entry>, nextId: nat, clock: nat, log: seq<Log>)

  // ---------- the two indexes ----------

  predicate Sorted(ts: seq<Entry>) { forall i, j | 0 <= i < j < |ts| :: ts[i].when <= ts[j].when }

  predicate Holds(ts: seq<Entry>, e: Entry) { exists i :: 0 <= i < |ts| && ts[i] == e }

  /** Every element is found by its id. */
  predicate Listed(ts: seq<Entry>, ids: map<nat, Entry>) {
    forall i | 0 <= i < |ts| :: ts[i].id in ids && ids[ts[i].id] == ts[i]
  }

  /** Every id leads to its element. */
  predicate Found(ts: seq<Entry>, ids: map<nat, Entry>) {
    forall id | id in ids :: ids[id].id == id && Holds(ts, ids[id])
  }

  predicate Unique(ts: seq<Entry>) { forall i, j | 0 <= i < j < |ts| :: ts[i].id != ts[j].id }

  /** The two indexes are in bijection. */
  predicate Agree(ts: seq<Entry>, ids: map<nat, Entry>) {
    Listed(ts, ids) && Found(ts, ids) && Unique(ts)
  }

  /** Of one id, the first entry of the log sets it up, a second one ends it, and there is no third. */
  predicate OnceEach(log: seq<Log>) {
    forall i, j | 0 <= i < j < |log| && log[i].id == log[j].id :: log[i].Added? && !log[j].Added?
  }

  /** Timers have fired in order of their deadlines, each when its deadline was past. */
  predicate InOrder(log: seq<Log>, clock: nat) {
    (forall i, j | 0 <= i < j < |log| && log[i].Fired? && log[j].Fired? :: log[i].when <= log[j].when)
    && (forall i | 0 <= i < |log| && log[i].Fired? :: log[i].when < log[i].at <= clock)
  }

  /** What is pending, and what has fired, is as it was set up. */
  predicate AsSetUp(ts: seq<Entry>, log: seq<Log>) {
    (forall k | 0 <= k < |ts| :: SetUp(ts[k]) in log)
    && forall i | 0 <= i < |log| && log[i].Fired? :: Added(log[i].id, log[i].when, log[i].data) in log
  }

  /** No pending timer should have fired before one that has. */
  predicate NoneLate(ts: seq<Entry>, log: seq<Log>) {
    forall i, k | 0 <= i < |log| && log[i].Fired? && 0 <= k < |ts| :: log[i].when <= ts[k].when
  }

  /** The ids pending are those set up and neither fired nor deleted since. */
  ghost predicate Accounted(ids: map<nat, Entry>, nextId: nat, log: seq<Log>) {
    (forall i | 0 <= i < |log| :: log[i].id < nextId)
    && (forall id :: id in ids <==>
          WasSetUp(id, log) && forall i | 0 <= i < |log| && log[i].id == id :: log[i].Added?)
  }

  predicate WasSetUp(id: nat, log: seq<Log>) { exists i :: 0 <= i < |log| && log[i].id == id && log[i].Added? }

  ghost predicate Inv(m: Mgr) {
    Sorted(m.timers) && Agree(m.timers, m.ids) && AsSetUp(m.timers, m.log)
    && OnceEach(m.log) && InOrder(m.log, m.clock) && NoneLate(m.timers, m.log) && Accounted(m.ids, m.nextId, m.log)
  }

  // ---------- what the operations do ----------

  /** Where multimap::insert puts an element of time `when`: after those of the same time. */
  function UpperBound(ts: seq<Entry>, when: nat): (i: nat)
    ensures i <= |ts|
    ensures i < |ts| ==> ts[i].when > when
    ensures forall k | 0 <= k < i :: ts[k].when <= when
  {
    if ts == [] || ts[0].when > when then 0 else 1 + UpperBound(ts[1..], when)
  }

  function Insert(ts: seq<Entry>, e: Entry): seq<Entry> {
    var i := UpperBound(ts, e.when);
    ts[..i] + [e] + ts[i..]
  }

  function Add(m: Mgr, when: nat, data: int): Mgr {
    var e := Entry(when, m.nextId, data);
    m.(timers := Insert(m.timers, e), ids := m.ids[e.id := e], nextId := m.nextId + 1, log := m.log + [SetUp(e)])
  }

  function Without(ts: seq<Entry>, i: nat): seq<Entry>
    requires i < |ts|
  {
    ts[..i] + ts[i + 1..]
  }

  /** Element `i` leaves both indexes, by `l`. */
  function Drop(m: Mgr, i: nat, l: Log): Mgr
    requires i < |m.timers|
  {
    m.(timers := Without(m.timers, i), ids := m.ids - {m.timers[i].id}, log := m.log + [l])
  }

  function Tick(m: Mgr, now: nat): Mgr { m.(clock := if now > m.clock then now else m.clock) }

  lemma InsertSorts(ts: seq<Entry>, e: Entry)
    requires Sorted(ts)
    ensures Sorted(Insert(ts, e))
  {
  }

  lemma InsertLate(ts: seq<Entry>, e: Entry, log: seq<Log>, clock: nat)
    requires NoneLate(ts, log) && InOrder(log, clock) && e.when >= clock
    ensures NoneLate(Insert(ts, e), log + [SetUp(e)])
  {
    var ts', log' := Insert(ts, e), log + [SetUp(e)];
    var p := UpperBound(ts, e.when);
    hide UpperBound;
    forall i, k | 0 <= i < |log'| && log'[i].Fired? && 0 <= k < |ts'| ensures log'[i].when <= ts'[k].when {
      assert log'[i] == log[i];
      assert ts'[k] == if k < p then ts[k] else if k == p then e else ts[k - 1];
    }
  }

  lemma LogsAdd(log: seq<Log>, l: Log, clock: nat)
    requires OnceEach(log) && InOrder(log, clock) && forall i | 0 <= i < |log| && log[i].id == l.id :: log[i].Added? && !l.Added?
    requires l.Fired? ==> l.when < l.at <= clock && forall i | 0 <= i < |log| && log[i].Fired? :: log[i].when <= l.when
    ensures OnceEach(log + [l]) && InOrder(log + [l], clock)
  {
  }

  lemma AddKeeps(m: Mgr, when: nat, data: int)
    requires Inv(m) && when >= m.clock
    ensures Inv(Add(m, when, data))
  {
    var e := Entry(when, m.nextId, data);
    assert forall i | 0 <= i < |m.log| :: m.log[i].id != e.id;
    AddAgrees(m.timers, m.ids, e, m.nextId, m.log);
    AddAccounts(m.ids, m.nextId, m.log, e);
    InsertSorts(m.timers, e);
    InsertLate(m.timers, e, m.log, m.clock);
    AddAsSetUp(m.timers, m.log, e);
    hide AsSetUp, Agree, Accounted, Insert, Sorted, NoneLate, OnceEach, InOrder;
    LogsAdd(m.log, SetUp(e), m.clock);
  }

  lemma NewIdIsNew(ids: map<nat, Entry>, nextId: nat, log: seq<Log>)
    requires Accounted(ids, nextId, log)
    ensures nextId !in ids
  {
    assert !WasSetUp(nextId, log);
  }

  /** `out` is `ts` with `e` at place `p`. */
  predicate InsertedAt(ts: seq<Entry>, e: Entry, p: nat, out: seq<Entry>) {
    p <= |ts| && |out| == |ts| + 1 && out[p] == e
    && (forall k | 0 <= k < p :: out[k] == ts[k]) && (forall k | p < k < |out| :: out[k] == ts[k - 1])
  }

  lemma InsertPlace(ts: seq<Entry>, e: Entry)
    ensures InsertedAt(ts, e, UpperBound(ts, e.when), Insert(ts, e))
  {
    hide UpperBound;
  }

  lemma AddHolds(ts: seq<Entry>, e: Entry, p: nat, out: seq<Entry>, x: Entry)
    requires InsertedAt(ts, e, p, out) && (Holds(ts, x) || x == e)
    ensures Holds(out, x)
  {
    if x != e {
      var k :| 0 <= k < |ts| && ts[k] == x;
      if k < p {
        assert out[k] == x;
      } else {
        assert out[k + 1] == x;
      }
    }
  }

  lemma AddLists(ts: seq<Entry>, ids: map<nat, Entry>, e: Entry, p: nat, out: seq<Entry>)
    requires Listed(ts, ids) && Unique(ts) && InsertedAt(ts, e, p, out) && e.id !in ids
    ensures Listed(out, ids[e.id := e]) && Unique(out)
  {
  }

  lemma AddAgrees(ts: seq<Entry>, ids: map<nat, Entry>, e: Entry, nextId: nat, log: seq<Log>)
    requires Agree(ts, ids) && Accounted(ids, nextId, log) && e.id == nextId
    ensures Agree(Insert(ts, e), ids[e.id := e])
    ensures e.id !in ids
  {
    NewIdIsNew(ids, nextId, log);
    InsertPlace(ts, e);
    hide Insert, Accounted, UpperBound, InsertedAt, Listed, Unique, Holds;
    var p, out, ids' := UpperBound(ts, e.when), Insert(ts, e), ids[e.id := e];
    AddLists(ts, ids, e, p, out);
    forall id | id in ids' ensures ids'[id].id == id && Holds(out, ids'[id]) {
      AddHolds(ts, e, p, out, ids'[id]);
    }
  }

  lemma AddAccounts(ids: map<nat, Entry>, nextId: nat, log: seq<Log>, e: Entry)
    requires Accounted(ids, nextId, log) && e.id == nextId
    ensures Accounted(ids[e.id := e], nextId + 1, log + [SetUp(e)])
  {
    var log' := log + [SetUp(e)];
    assert log'[|log|] == SetUp(e);
    assert forall i | 0 <= i < |log| :: log'[i] == log[i] && log'[i].id < e.id;
    assert WasSetUp(e.id, log');
    forall id | id != e.id
      ensures WasSetUp(id, log') <==> WasSetUp(id, log)
    {
      if i :| 0 <= i < |log'| && log'[i].id == id && log'[i].Added? {
        assert log[i].id == id && log[i].Added?;
      }
      if i :| 0 <= i < |log| && log[i].id == id && log[i].Added? {
        assert log'[i].id == id && log'[i].Added?;
      }
    }
  }

  lemma AddAsSetUp(ts: seq<Entry>, log: seq<Log>, e: Entry)
    requires AsSetUp(ts, log)
    ensures AsSetUp(Insert(ts, e), log + [SetUp(e)])
  {
    InsertPlace(ts, e);
    hide Insert, UpperBound;
    var log' := log + [SetUp(e)];
    assert log'[|log|] == SetUp(e);
  }

  lemma DropAsSetUp(ts: seq<Entry>, log: seq<Log>, i: nat, l: Log)
    requires AsSetUp(ts, log) && i < |ts| && l.id == ts[i].id && !l.Added?
    requires l.Fired? ==> l.when == ts[i].when && l.data == ts[i].data
    ensures AsSetUp(Without(ts, i), log + [l])
  {
    assert SetUp(ts[i]) in log;
    var out := Without(ts, i);
    assert forall k | 0 <= k < |out| :: out[k] == if k < i then ts[k] else ts[k + 1];
    hide Without;
  }

  lemma DropAccounts(ids: map<nat, Entry>, nextId: nat, log: seq<Log>, l: Log)
    requires Accounted(ids, nextId, log) && l.id in ids && !l.Added?
    ensures Accounted(ids - {l.id}, nextId, log + [l])
  {
    var log' := log + [l];
    assert log'[|log|] == l;
    forall id | id != l.id
      ensures WasSetUp(id, log') <==> WasSetUp(id, log)
    {
      if i :| 0 <= i < |log'| && log'[i].id == id && log'[i].Added? {
        assert log[i].id == id && log[i].Added?;
      }
      if i :| 0 <= i < |log| && log[i].id == id && log[i].Added? {
        assert log'[i].id == id && log'[i].Added?;
      }
    }
    assert forall i | 0 <= i < |log| :: log'[i] == log[i];
  }

  lemma DropHolds(ts: seq<Entry>, i: nat, x: Entry)
    requires i < |ts| && Holds(ts, x) && x != ts[i]
    ensures Holds(Without(ts, i), x)
  {
    var k :| 0 <= k < |ts| && ts[k] == x;
    assert Without(ts, i)[if k < i then k else k - 1] == x;
  }

  lemma DropLists(ts: seq<Entry>, ids: map<nat, Entry>, i: nat)
    requires Listed(ts, ids) && Unique(ts) && i < |ts|
    ensures Listed(Without(ts, i), ids - {ts[i].id}) && Unique(Without(ts, i))
  {
    var out := Without(ts, i);
    assert forall k | 0 <= k < |out| :: out[k] == if k < i then ts[k] else ts[k + 1];
    hide Without;
  }

  lemma DropAgrees(ts: seq<Entry>, ids: map<nat, Entry>, i: nat)
    requires Agree(ts, ids) && i < |ts|
    ensures Agree(Without(ts, i), ids - {ts[i].id})
  {
    DropLists(ts, ids, i);
    hide Without, Listed, Unique, Holds;
    forall id | id in ids && id != ts[i].id ensures Holds(Without(ts, i), ids[id]) {
      DropHolds(ts, i, ids[id]);
    }
  }

  lemma WithoutStays(ts: seq<Entry>, i: nat, log: seq<Log>, l: Log)
    requires i < |ts| && Sorted(ts) && NoneLate(ts, log) && !l.Added?
    requires l.Fired? ==> i == 0 && l.when == ts[0].when
    ensures Sorted(Without(ts, i)) && NoneLate(Without(ts, i), log + [l])
  {
    var ts', log' := Without(ts, i), log + [l];
    forall a, k | 0 <= a < |log'| && log'[a].Fired? && 0 <= k < |ts'| ensures log'[a].when <= ts'[k].when {
      assert ts'[k] == if k < i then ts[k] else ts[k + 1];
    }
  }

  /** Deleting any timer, or firing the earliest once it is past, keeps everything. */
  lemma DropKeeps(m: Mgr, i: nat, l: Log)
    requires Inv(m) && i < |m.timers| && l.id == m.timers[i].id
    requires l.Deleted? || (i == 0 && l.Fired? && l.when == m.timers[0].when && l.data == m.timers[0].data
      && l.when < l.at <= m.clock)
    ensures Inv(Drop(m, i, l))
  {
    DropAgrees(m.timers, m.ids, i);
    assert m.timers[i].id in m.ids;
    DropAccounts(m.ids, m.nextId, m.log, l);
    NoThird(m, l.id);
    WithoutStays(m.timers, i, m.log, l);
    DropAsSetUp(m.timers, m.log, i, l);
    hide AsSetUp, Agree, Accounted, Without, Sorted, OnceEach, InOrder;
    LogsAdd(m.log, l, m.clock);
  }

  /** A pending id is in the log once. */
  lemma NoThird(m: Mgr, id: nat)
    requires OnceEach(m.log) && Accounted(m.ids, m.nextId, m.log) && id in m.ids
    ensures forall i | 0 <= i < |m.log| && m.log[i].id == id :: m.log[i].Added?
  {
  }

  // ---------- from one moment to a later one ----------

  /** `m` comes after `m0`: the log only grows, and what is pending was pending then or was set up
      since, under a new id and for a time not before then. */
  ghost predicate Follows(m0: Mgr, m: Mgr) {
    m0.log <= m.log && m0.nextId <= m.nextId && m0.clock <= m.clock
    && forall k | 0 <= k < |m.timers| ::
         m.timers[k] in m0.timers || (m.timers[k].id >= m0.nextId && m.timers[k].when >= m0.clock)
  }

  lemma FollowsTrans(a: Mgr, b: Mgr, c: Mgr)
    requires Follows(a, b) && Follows(b, c)
    ensures Follows(a, c)
  {
    forall k | 0 <= k < |c.timers|
      ensures c.timers[k] in a.timers || (c.timers[k].id >= a.nextId && c.timers[k].when >= a.clock)
    {
      if c.timers[k] in b.timers {
        var j :| 0 <= j < |b.timers| && b.timers[j] == c.timers[k];
      }
    }
  }

  lemma AddFollows(m0: Mgr, m: Mgr, when: nat, data: int)
    requires Follows(m0, m) && when >= m.clock
    ensures Follows(m0, Add(m, when, data))
  {
    var e, m' := Entry(when, m.nextId, data), Add(m, when, data);
    var i := UpperBound(m.timers, when);
    forall k | 0 <= k < |m'.timers|
      ensures m'.timers[k] in m0.timers || (m'.timers[k].id >= m0.nextId && m'.timers[k].when >= m0.clock)
    {
      assert m'.timers[k] == if k < i then m.timers[k] else if k == i then e else m.timers[k - 1];
    }
  }

  lemma DropFollows(m0: Mgr, m: Mgr, i: nat, l: Log)
    requires Follows(m0, m) && i < |m.timers|
    ensures Follows(m0, Drop(m, i, l))
  {
    var m' := Drop(m, i, l);
    forall k | 0 <= k < |m'.timers|
      ensures m'.timers[k] in m0.timers || (m'.timers[k].id >= m0.nextId && m'.timers[k].when >= m0.clock)
    {
      assert m'.timers[k] == if k < i then m.timers[k] else m.timers[k + 1];
    }
  }

  /** The ids of the timers that are past at `now`. */
  ghost function DueIds(ts: seq<Entry>, now: nat): set<nat> {
    set k | 0 <= k < |ts| && ts[k].when < now :: ts[k].id
  }

  lemma FollowsDue(m0: Mgr, m: Mgr, now: nat)
    requires Follows(m0, m) && now <= m0.clock
    ensures DueIds(m.timers, now) <= DueIds(m0.timers, now)
  {
    forall k | 0 <= k < |m.timers| && m.timers[k].when < now ensures m.timers[k].id in DueIds(m0.timers, now) {
      var j :| 0 <= j < |m0.timers| && m0.timers[j] == m.timers[k];
    }
  }

  lemma FirstLeaves(m: Mgr, now: nat)
    requires Inv(m) && m.timers != [] && m.timers[0].when < now
    ensures DueIds(Without(m.timers, 0), now) < DueIds(m.timers, now)
  {
    var ts := Without(m.timers, 0);
    assert forall k | 0 <= k < |ts| :: ts[k] == m.timers[k + 1];
    assert m.timers[0].id in DueIds(m.timers, now);
    assert m.timers[0].id !in DueIds(ts, now);
  }

  /** `l` ends the timer `e`: it is deleted, or its callback called with its data by a RunTimer that
      read the clock as later than its deadline. */
  predicate Ends(e: Entry, l: Log) {
    l == Deleted(e.id) || (l.Fired? && l.id == e.id && l.when == e.when && l.data == e.data && e.when < l.at)
  }

  /** Of any timer ever set up, in any state of any run: whatever ended it came after, and if it fired
      then with its own data and past its deadline. Once nothing is pending before `now`, a timer set
      up for before `now` has been ended. */
  lemma EndsOnTime(m: Mgr, i: nat, now: nat)
    requires Inv(m) && i < |m.log| && m.log[i].Added?
    ensures var e := Entry(m.log[i].when, m.log[i].id, m.log[i].data);
      (forall j | 0 <= j < |m.log| && j != i && m.log[j].id == e.id :: i < j && Ends(e, m.log[j]))
      && (e.when < now && (forall k | 0 <= k < |m.timers| :: m.timers[k].when >= now) ==>
            exists j :: i < j < |m.log| && Ends(e, m.log[j]))
  {
    hide Sorted, NoneLate, Unique, Listed;
    var e := Entry(m.log[i].when, m.log[i].id, m.log[i].data);
    forall j | 0 <= j < |m.log| && j != i && m.log[j].id == e.id ensures i < j && Ends(e, m.log[j]) {
      if m.log[j].Fired? {
        var s :| 0 <= s < |m.log| && m.log[s] == Added(m.log[j].id, m.log[j].when, m.log[j].data);
        assert s == i;
      }
    }
    if e.when < now && forall k | 0 <= k < |m.timers| :: m.timers[k].when >= now {
      assert e.id !in m.ids by {
        if e.id in m.ids {
          PendingAsSetUp(m, i);
        }
      }
      assert WasSetUp(e.id, m.log);
      var j :| 0 <= j < |m.log| && m.log[j].id == e.id && !m.log[j].Added?;
      assert i < j && Ends(e, m.log[j]);
    }
  }

  lemma PendingAsSetUp(m: Mgr, i: nat)
    requires Inv(m) && i < |m.log| && m.log[i].Added? && m.log[i].id in m.ids
    ensures Holds(m.timers, Entry(m.log[i].when, m.log[i].id, m.log[i].data))
  {
    hide Sorted, NoneLate, Unique, Listed, InOrder, Accounted;
    var x := m.ids[m.log[i].id];
    assert Holds(m.timers, x);
    assert SetUp(x) in m.log;
    var s :| 0 <= s < |m.log| && m.log[s] == SetUp(x);
    assert s == i;
  }

  /** A timer pending then that is past at `now`, when nothing past is left, has been ended since. */
  lemma Ended(m0: Mgr, m: Mgr, now: nat, k: nat)
    requires Inv(m0) && Inv(m) && Follows(m0, m) && k < |m0.timers| && m0.timers[k].when < now
    requires forall j | 0 <= j < |m.timers| :: m.timers[j].when >= now
    ensures exists i :: |m0.log| <= i < |m.log| && Ends(m0.timers[k], m.log[i])
  {
    var e := m0.timers[k];
    assert SetUp(e) in m0.log;
    var i :| 0 <= i < |m0.log| && m0.log[i] == SetUp(e);
    assert m.log[i] == SetUp(e);
    EndsOnTime(m, i, now);
    assert e.id in m0.ids;
    NoThird(m0, e.id);
    hide Inv, Ends;
    var j :| i < j < |m.log| && Ends(e, m.log[j]);
    if j < |m0.log| {
      assert m0.log[j] == m.log[j];
      EndsNames(e, m.log[j]);
    }
  }

  lemma EndsNames(e: Entry, l: Log)
    requires Ends(e, l)
    ensures l.id == e.id && !l.Added?
  {
  }

  // ---------- the class ----------

  class TimerMgr {
    var timers: seq<Entry>
    var ids: map<nat, Entry>
    var nextId: nat
    var clock: nat
    ghost var log: seq<Log>

    ghost function View(): Mgr
      reads this
    {
      Mgr(timers, ids, nextId, clock, log)
    }

    constructor ()
      ensures Inv(View()) && timers == [] && log == []
    {
      timers, ids, nextId, clock, log := [], map[], 1, 0, [];
    }

    /** AddTimer for `after` from the time `now`. */
    method AddTimer(now: nat, after: nat, data: int) returns (id: nat)
      requires Inv(View()) && now >= clock
      modifies this
      ensures Inv(View()) && id == old(nextId) && View() == Add(Tick(old(View()), now), now + after, data)
      ensures id !in old(ids) && ids == old(ids)[id := Entry(now + after, id, data)]
      ensures multiset(timers) == multiset(old(timers)) + multiset{Entry(now + after, id, data)}
      ensures log == old(log) + [Added(id, now + after, data)]
    {
      hide Inv;
      TickKeeps(View(), now);
      NewId(View());
      InsertAddsOne(timers, Entry(now + after, nextId, data));
      AddKeeps(Tick(View(), now), now + after, data);
      id := nextId;
      nextId := nextId + 1;
      clock := now;
      AddTimerInThread(id, data, now + after);
      log := log + [Added(id, now + after, data)];
    }

    method AddTimerInThread(id: nat, data: int, when: nat)
      modifies this`timers, this`ids
      ensures timers == Insert(old(timers), Entry(when, id, data)) && ids == old(ids)[id := Entry(when, id, data)]
    {
      var i := 0;
      while i < |timers| && timers[i].when <= when
        invariant i <= UpperBound(timers, when)
        invariant timers == old(timers) && ids == old(ids)
      {
        i := i + 1;
      }
      timers := timers[..i] + [Entry(when, id, data)] + timers[i..];
      ids := ids[id := Entry(when, id, data)];
    }

    /** DelTimer; an id that is not pending is ignored. */
    method DelTimer(id: nat)
      requires Inv(View())
      modifies this
      ensures Inv(View())
      ensures id !in old(ids) ==> View() == old(View())
      ensures id in old(ids) ==>
        exists i :: 0 <= i < |old(timers)| && old(timers)[i].id == id && View() == Drop(old(View()), i, Deleted(id))
      ensures id in old(ids) ==>
        ids == old(ids) - {id} && multiset(timers) == multiset(old(timers)) - multiset{old(ids)[id]}
            && log == old(log) + [Deleted(id)]
    {
      hide Inv;
      if id in ids {
        Reached(View(), id);
        var e := ids[id];
        var i := 0;
        while timers[i] != e
          invariant 0 <= i < |timers| && forall k | 0 <= k < i :: timers[k] != e
          decreases |timers| - i
        {
          i := i + 1;
        }
        WithoutTakesOne(timers, i);
        DropKeeps(View(), i, Deleted(id));
        ids := ids - {id};
        timers := timers[..i] + timers[i + 1..];
        log := log + [Deleted(id)];
      }
    }

    /** Any callback, called as the log says: it reads the clock, sets up and deletes timers, and runs timers itself, up to
        `depth` deep. */
    method OnTimer(data: int, id: nat, depth: nat)
      requires Inv(View()) && log != [] && log[|log| - 1].Fired? && log[|log| - 1].data == data && log[|log| - 1].id == id
      modifies this
      ensures Inv(View()) && Follows(old(View()), View()) && clock >= old(clock)
      decreases depth, 0
    {
      hide Inv, Follows, Add, Drop;
      FollowsSelf(View());
      ghost var m0 := View();
      var rounds: nat := *;
      while rounds > 0
        invariant Inv(View()) && Follows(m0, View()) && clock >= m0.clock
      {
        ghost var m := View();
        var now, after, other: nat, value: int := Arbitrary();
        if now < clock {
          DelTimer(other);
          if other in m.ids {
            var i :| 0 <= i < |m.timers| && m.timers[i].id == other && View() == Drop(m, i, Deleted(other));
            DropFollows(m0, m, i, Deleted(other));
          }
        } else if depth > 0 && after == 0 {
          RunTimer(now, depth - 1);
          FollowsTrans(m0, m, View());
        } else {
          TickFollows(m0, m, now);
          AddFollows(m0, Tick(m, now), now + after, value);
          var _ := AddTimer(now, after, value);
        }
        rounds := rounds - 1;
      }
    }

    /** RunTimer at the time `now`: it ends, whatever the callbacks do; then nothing past is left, and
        every timer that was past has been deleted or fired, with its data. */
    method RunTimer(now: nat, depth: nat)
      requires Inv(View()) && now >= clock
      modifies this
      ensures Inv(View()) && Follows(old(View()), View()) && clock >= old(clock)
      ensures forall k | 0 <= k < |timers| :: timers[k].when >= now
      ensures forall k | 0 <= k < |old(timers)| && old(timers)[k].when < now ::
                exists i :: |old(log)| <= i < |log| && Ends(old(timers)[k], log[i])
      decreases depth, 1
    {
      hide Follows, Inv, DueIds;
      FollowsSelf(View());
      ghost var start := View();
      if timers == [] {
        return;
      }
      TickKeeps(View(), now);
      TickFollows(start, View(), now);
      clock := now;
      while timers != []
        invariant Inv(View()) && Follows(start, View()) && clock >= now
        decreases DueIds(timers, now)
      {
        ghost var m := View();
        var e := timers[0];
        if e.when >= now {
          break;
        }
        DropKeeps(m, 0, Fired(e.id, e.when, e.data, now));
        DropFollows(start, m, 0, Fired(e.id, e.when, e.data, now));
        FirstLeaves(m, now);
        timers := timers[1..];
        ids := ids - {e.id};
        log := log + [Fired(e.id, e.when, e.data, now)];
        assert View() == Drop(m, 0, Fired(e.id, e.when, e.data, now));
        ghost var fired := View();
        OnTimer(e.data, e.id, depth);
        FollowsDue(fired, View(), now);
        FollowsTrans(start, fired, View());
      }
      NonePast(View(), now);
      forall k | 0 <= k < |start.timers| && start.timers[k].when < now
        ensures exists i :: |start.log| <= i < |log| && Ends(start.timers[k], log[i])
      {
        Ended(start, View(), now, k);
      }
    }
  }

  /** The choices of a callback. */
  method Arbitrary() returns (now: nat, after: nat, id: nat, data: int) {
    now, after, id, data :| true;
  }

  lemma NewId(m: Mgr)
    requires Inv(m)
    ensures m.nextId !in m.ids
  {
    NewIdIsNew(m.ids, m.nextId, m.log);
  }

  lemma WithoutTakesOne(ts: seq<Entry>, i: nat)
    requires i < |ts|
    ensures multiset(Without(ts, i)) == multiset(ts) - multiset{ts[i]}
  {
    assert ts == ts[..i] + [ts[i]] + ts[i + 1..];
  }

  /** An id that is pending leads to an element of its own. */
  lemma Reached(m: Mgr, id: nat)
    requires Inv(m) && id in m.ids
    ensures m.ids[id].id == id && exists i :: 0 <= i < |m.timers| && m.timers[i] == m.ids[id]
  {
    assert Holds(m.timers, m.ids[id]);
  }

  lemma InsertAddsOne(ts: seq<Entry>, e: Entry)
    ensures multiset(Insert(ts, e)) == multiset(ts) + multiset{e}
  {
    var i := UpperBound(ts, e.when);
    assert ts == ts[..i] + ts[i..];
  }

  lemma NonePast(m: Mgr, now: nat)
    requires Inv(m) && (m.timers == [] || m.timers[0].when >= now)
    ensures forall k | 0 <= k < |m.timers| :: m.timers[k].when >= now
  {
  }

  lemma FollowsSelf(m: Mgr)
    ensures Follows(m, m)
  {
  }

  lemma TickKeeps(m: Mgr, now: nat)
    requires Inv(m)
    ensures Inv(Tick(m, now))
  {
    hide Agree, Accounted, NoneLate, Sorted;
  }

  lemma TickFollows(m0: Mgr, m: Mgr, now: nat)
    requires Follows(m0, m)
    ensures Follows(m0, Tick(m, now))
  {
  }
}
