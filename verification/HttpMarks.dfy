/** The data marks of http_parser_execute: where data of a kind began in the current slice. */
module HttpMarks {
  import opened HttpTypes
  import opened HttpStep
  import opened HttpEvents
  import opened HttpScan
  import opened HttpLoops

  /** The five mark pointers; a kind that is absent is a null pointer. */
  type Marks = map<DataKind, nat>

  datatype Delivery = Delivery(marks: Marks, events: seq<Event>)

  /** MARK and the CALLBACK macros, for one command of byte `p`. */
  function Now(c: Command, marks: Marks, data: seq<byte>, p: nat): (d: Delivery)
    requires p < |data| && forall k | k in marks :: marks[k] <= p
    ensures forall k | k in d.marks :: d.marks[k] <= p
  {
    match c
    case Touch(k) => Delivery(if k in marks then marks else marks[k := p], [])
    case Close(k) => Delivery(marks - {k}, if k in marks then [Data(k, data[marks[k]..p])] else [])
    case Empty(k) => Delivery(marks - {k}, [Data(k, data[if k in marks then marks[k] else p..p])])
    case Call(n) => Delivery(marks, [Notify(n)])
  }

  function Deliver(cs: seq<Command>, marks: Marks, data: seq<byte>, p: nat): Delivery
    requires p < |data| && forall k | k in marks :: marks[k] <= p
    decreases |cs|
  {
    if cs == [] then Delivery(marks, [])
    else
      var now := Now(cs[0], marks, data, p);
      var rest := Deliver(cs[1..], now.marks, data, p);
      rest.(events := now.events + rest.events)
  }

  /** At most one mark is set, and which one is told by the state. Only a body need not be marked. */
  predicate MarksFit(marks: Marks, cur: Pending, p: nat) {
    match cur
    case NoData => marks == map[]
    case Some(k) =>
      (k.Body? && marks == map[])
      || (k in marks && (marks[k] < p || (marks[k] == p == 0 && !k.Body?)) && marks == map[k := marks[k]])
  }

  /** Data marked but not yet delivered. */
  function Pend(marks: Marks, cur: Pending, data: seq<byte>, p: nat): seq<Event>
    requires MarksFit(marks, cur, p) && p <= |data|
  {
    match cur
    case NoData => []
    case Some(k) => if k in marks && marks[k] < p then [Data(k, data[marks[k]..p])] else []
  }

  /** The callbacks made so far and those still owed are the ones the bytes so far amount to. */
  predicate Settled(events: seq<Event>, marks: Marks, cur: Pending, data: seq<byte>, p: nat, out: seq<Event>) {
    MarksFit(marks, cur, p) && p <= |data|
    && Join(events + Pend(marks, cur, data, p)) == Join(out)
  }

  /** The order in which the commands of one byte may come: data is closed before anything else
      is reported, and a byte that belongs to data reports nothing after that. */
  predicate Flow(cur: Pending, cs: seq<Command>, after: Pending)
    decreases |cs|
  {
    if cs == [] then cur == NoData && (after == NoData || after == Some(Body))
    else
      match cs[0]
      case Touch(k) => |cs| == 1 && after == Some(k) && (cur == NoData || cur == Some(k))
      case Close(k) => cur == Some(k) && Flow(NoData, cs[1..], after)
      case Empty(k) => cur == NoData && Flow(NoData, cs[1..], after)
      case Call(_) => cur == NoData && Flow(NoData, cs[1..], after)
  }

  lemma JoinPush(es: seq<Event>, e: Event)
    ensures Join(es + [e]) == Push(Join(es), e)
  {
    PushAllAppend([], es, [e]);
    assert PushAll(Join(es), [e]) == PushAll(Push(Join(es), e), [e][1..]);
  }

  /** Closing: the data is delivered, possibly none of it from this slice. */
  lemma CloseSettles(events: seq<Event>, marks: Marks, k: DataKind, data: seq<byte>, p: nat, out: seq<Event>)
    requires Settled(events, marks, Some(k), data, p, out) && k in marks
    ensures Join(events + [Data(k, data[marks[k]..p])]) == Join(out + [Data(k, [])])
  {
    var e := Data(k, data[marks[k]..p]);
    JoinPush(events, e);
    JoinPush(out, Data(k, []));
    if marks[k] < p {
      PushTwice(Join(events), k, e.bytes, []);
      assert e.bytes + [] == e.bytes;
    } else {
      assert e.bytes == [];
      assert events + [] == events;
    }
  }

  /** Bytes `p..q` of the slice begin data of kind k. */
  lemma FirstTouchSettles(events: seq<Event>, k: DataKind, data: seq<byte>, p: nat, q: nat, out: seq<Event>)
    requires p < q <= |data| && Join(events) == Join(out)
    ensures Join(events + [Data(k, data[p..q])]) == Join(out + Touches(k, data[p..q]))
  {
    hide PushAll;
    PushAllAppend([], out, Touches(k, data[p..q]));
    PushTouches(Join(out), k, data[p..q]);
    JoinPush(events, Data(k, data[p..q]));
  }

  /** Bytes `p..q` of the slice continue data of kind k that began at `at`. */
  lemma MoreTouchSettles(events: seq<Event>, k: DataKind, data: seq<byte>, at: nat, p: nat, q: nat, out: seq<Event>)
    requires at < p < q <= |data| && Join(events + [Data(k, data[at..p])]) == Join(out)
    ensures Join(events + [Data(k, data[at..q])]) == Join(out + Touches(k, data[p..q]))
  {
    hide PushAll, Push, Join, Touches;
    FirstTouchSettles(events + [Data(k, data[at..p])], k, data, p, q, out);
    JoinPush(events + [Data(k, data[at..p])], Data(k, data[p..q]));
    JoinPush(events, Data(k, data[at..q]));
    JoinPush(events, Data(k, data[at..p]));
    PushTwice(Join(events), k, data[at..p], data[p..q]);
    assert data[at..p] + data[p..q] == data[at..q];
  }

  lemma TouchSettles(events: seq<Event>, marks: Marks, cur: Pending, k: DataKind, data: seq<byte>, p: nat, q: nat,
      out: seq<Event>)
    requires Settled(events, marks, cur, data, p, out) && (cur == NoData || cur == Some(k)) && p < q <= |data|
    ensures var marks' := if k in marks then marks else marks[k := p];
      Settled(events, marks', Some(k), data, q, out + Touches(k, data[p..q]))
  {
    hide Join;
    if k in marks && marks[k] < p {
      MoreTouchSettles(events, k, data, marks[k], p, q, out);
    } else {
      assert events + [] == events;
      FirstTouchSettles(events, k, data, p, q, out);
    }
  }

  lemma OneSettles(events: seq<Event>, c: Command, marks: Marks, cur: Pending, data: seq<byte>, p: nat, out: seq<Event>)
    requires p < |data| && Settled(events, marks, cur, data, p, out)
    requires !c.Touch? && if c.Close? then cur == Some(c.k) else cur == NoData
    ensures var d := Now(c, marks, data, p);
      Settled(events + d.events, d.marks, NoData, data, p, out + Meaning(c, data[p]))
  {
    hide Join;
    assert forall es: seq<Event> :: es + [] == es;
    match c {
      case Close(k) =>
        if k in marks {
          if k.Body? {
            assert Meaning(c, data[p]) == [];
          } else {
            CloseSettles(events, marks, k, data, p, out);
          }
        }
      case Empty(k) =>
        assert data[p..p] == [];
        JoinPush(events, Data(k, []));
        JoinPush(out, Data(k, []));
      case Call(n) =>
        JoinPush(events, Notify(n));
        JoinPush(out, Notify(n));
    }
  }

  /** A byte that belongs to data, which no other command follows. */
  lemma LastTouchSettles(events: seq<Event>, marks: Marks, cur: Pending, k: DataKind, data: seq<byte>, p: nat, out: seq<Event>)
    requires p < |data| && Settled(events, marks, cur, data, p, out) && (cur == NoData || cur == Some(k))
    ensures var cs := [Touch(k)];
      var d := Deliver(cs, marks, data, p);
      Settled(events + d.events, d.marks, Some(k), data, p + 1, out + Meanings(cs, data[p]))
  {
    hide Join, Settled;
    var c, cs, ch := Touch(k), [Touch(k)], data[p];
    TouchSettles(events, marks, cur, k, data, p, p + 1, out);
    assert data[p..p + 1] == [ch] && events + ([] + []) == events && cs == [c] + cs[1..] && |cs[1..]| == 0;
    assert Touches(k, [ch]) == [Data(k, [ch])] + Touches(k, [ch][1..]);
    assert Meanings(cs, ch) == Touches(k, [ch]);
  }

  lemma {:induction false} DeliverSettles(
      events: seq<Event>, cs: seq<Command>, marks: Marks, cur: Pending, after: Pending,
      data: seq<byte>, p: nat, out: seq<Event>)
    requires p < |data| && Settled(events, marks, cur, data, p, out) && Flow(cur, cs, after)
    ensures var d := Deliver(cs, marks, data, p);
      Settled(events + d.events, d.marks, after, data, p + 1, out + Meanings(cs, data[p]))
    decreases |cs|
  {
    hide Join;
    if cs == [] {
      assert events + [] == events && out + [] == out;
    } else {
      var c, ch := cs[0], data[p];
      var now := Now(c, marks, data, p);
      if c.Touch? {
        assert cs == [c];
        LastTouchSettles(events, marks, cur, c.k, data, p, out);
      } else {
        OneSettles(events, c, marks, cur, data, p, out);
        hide Now, Settled, Meaning;
        DeliverSettles(events + now.events, cs[1..], now.marks, NoData, after, data, p, out + Meaning(c, ch));
        var rest := Deliver(cs[1..], now.marks, data, p);
        assert events + now.events + rest.events == events + (now.events + rest.events);
        assert out + Meaning(c, ch) + Meanings(cs[1..], ch) == out + (Meaning(c, ch) + Meanings(cs[1..], ch));
      }
    }
  }
}
