/** Callback sequences up to joining: adjacent pieces of data of one kind count as one piece. */
module HttpEvents {
  import opened HttpTypes
  import opened HttpStep

  /** Add one callback to a joined sequence. */
  function Push(js: seq<Event>, e: Event): seq<Event> {
    if |js| > 0 && js[|js| - 1].Data? && e.Data? && js[|js| - 1].k == e.k
    then js[..|js| - 1] + [Data(e.k, js[|js| - 1].bytes + e.bytes)]
    else js + [e]
  }

  function PushAll(js: seq<Event>, es: seq<Event>): seq<Event>
    decreases |es|
  {
    if es == [] then js else PushAll(Push(js, es[0]), es[1..])
  }

  /** The callback sequence with adjacent data of one kind joined. */
  function Join(es: seq<Event>): seq<Event> { PushAll([], es) }

  lemma {:induction false} PushAllAppend(js: seq<Event>, a: seq<Event>, b: seq<Event>)
    ensures PushAll(js, a + b) == PushAll(PushAll(js, a), b)
    decreases |a|
  {
    if a == [] {
      assert a + b == b;
    } else {
      assert (a + b)[1..] == a[1..] + b;
      PushAllAppend(Push(js, a[0]), a[1..], b);
    }
  }

  lemma PushTwice(js: seq<Event>, k: DataKind, x: seq<byte>, y: seq<byte>)
    ensures Push(Push(js, Data(k, x)), Data(k, y)) == Push(js, Data(k, x + y))
  {
    var one := Push(js, Data(k, x));
    var i := |one| - 1;
    var head := if i < |js| then js[i].bytes else [];
    assert one[i] == Data(k, head + x);
    assert (head + x) + y == head + (x + y);
    assert one[..i] == js[..i];
  }

  // ---------- what commands mean, byte by byte ----------

  /** The callbacks one command amounts to at byte `ch`, had the stream been cut after every byte.
      A closing command still shows as zero bytes: it joins with the data before it. */
  function Meaning(c: Command, ch: byte): seq<Event> {
    match c
    case Touch(k) => [Data(k, [ch])]
    case Close(k) => if k.Body? then [] else [Data(k, [])]
    case Empty(k) => [Data(k, [])]
    case Call(n) => [Notify(n)]
  }

  function Meanings(cs: seq<Command>, ch: byte): seq<Event> {
    if cs == [] then [] else Meaning(cs[0], ch) + Meanings(cs[1..], ch)
  }

  lemma {:induction false} MeaningsAppend(a: seq<Command>, b: seq<Command>, ch: byte)
    ensures Meanings(a + b, ch) == Meanings(a, ch) + Meanings(b, ch)
  {
    if a == [] {
      assert a + b == b;
    } else {
      assert (a + b)[1..] == a[1..] + b;
      MeaningsAppend(a[1..], b, ch);
    }
  }
}
