/** AsyncSequence and AsyncClientConnect: responses are matched to requests by sequence id. */
module AsyncClient {
  import opened Options
  import opened Requests

  /** The list without message `m`. */
  function Remove(list: seq<Message>, m: Message): seq<Message> {
    if list == [] then [] else (if list[0] == m then [] else [list[0]]) + Remove(list[1..], m)
  }

  predicate Distinct(list: seq<Message>) {
    forall i, j | 0 <= i < j < |list| :: list[i].sequenceId != list[j].sequenceId
  }

  /** The map and the list hold the same messages. */
  predicate Same(registery: map<nat, Message>, list: seq<Message>) {
    Distinct(list)
    && (forall i | 0 <= i < |list| :: list[i].sequenceId in registery && registery[list[i].sequenceId] == list[i])
    && (forall s | s in registery :: registery[s].sequenceId == s && registery[s] in list)
  }

  lemma RemoveStep(list: seq<Message>, m: Message)
    requires list != [] && Distinct(list)
    ensures Distinct(list[1..]) && forall x :: x in list[1..] ==> x.sequenceId != list[0].sequenceId
    ensures list == [list[0]] + list[1..]
  {
    assert forall i | 0 <= i < |list[1..]| :: list[1..][i] == list[i + 1];
  }

  lemma {:induction false} RemoveHas(list: seq<Message>, m: Message)
    ensures forall x :: x in Remove(list, m) <==> x in list && x != m
  {
    if list != [] {
      RemoveHas(list[1..], m);
      assert list == [list[0]] + list[1..];
      var out := Remove(list[1..], m);
      assert forall x :: x in Remove(list, m) <==> x in out || (x == list[0] && x != m);
    }
  }

  lemma {:induction false} RemoveDistinct(list: seq<Message>, m: Message)
    requires Distinct(list)
    ensures Distinct(Remove(list, m))
  {
    if list != [] {
      RemoveStep(list, m);
      RemoveDistinct(list[1..], m);
      RemoveHas(list[1..], m);
      var out := Remove(list[1..], m);
      assert forall i | 0 <= i < |out| :: out[i] in list[1..];
      assert Remove(list, m) == if list[0] == m then out else [list[0]] + out;
      hide Remove;
    }
  }

  lemma {:induction false} RemoveTakesOne(list: seq<Message>, m: Message)
    requires Distinct(list)
    ensures multiset(Remove(list, m)) == multiset(list) - multiset{m}
  {
    if list != [] {
      RemoveStep(list, m);
      RemoveTakesOne(list[1..], m);
      var out, rest := Remove(list[1..], m), list[1..];
      assert Remove(list, m) == if list[0] == m then out else [list[0]] + out;
      hide Remove, Distinct;
      assert multiset(list) == multiset{list[0]} + multiset(rest);
      assert multiset([list[0]] + out) == multiset{list[0]} + multiset(out);
      assert list[0] == m ==> m !in rest;
    }
  }

  /** Only this message goes, and the others keep their order. */
  lemma {:induction false} RemoveAt(list: seq<Message>, i: nat)
    requires Distinct(list) && i < |list|
    ensures Remove(list, list[i]) == list[..i] + list[i + 1..]
  {
    RemoveStep(list, list[i]);
    if i == 0 {
      RemoveNone(list[1..], list[0]);
    } else {
      RemoveAt(list[1..], i - 1);
      assert list[..i] == [list[0]] + list[1..][..i - 1];
    }
  }

  lemma {:induction false} RemoveNone(list: seq<Message>, m: Message)
    requires m !in list
    ensures Remove(list, m) == list
  {
    if list != [] {
      assert list == [list[0]] + list[1..];
      RemoveNone(list[1..], m);
    }
  }

  lemma RemoveMembers(list: seq<Message>, m: Message)
    requires Distinct(list)
    ensures forall x :: x in Remove(list, m) <==> x in list && x != m
    ensures Distinct(Remove(list, m))
    ensures multiset(Remove(list, m)) == multiset(list) - multiset{m}
  {
    RemoveHas(list, m);
    RemoveDistinct(list, m);
    RemoveTakesOne(list, m);
  }

  lemma RemoveKeepsSame(registery: map<nat, Message>, list: seq<Message>, s: nat)
    requires Same(registery, list) && s in registery
    ensures Same(registery - {s}, Remove(list, registery[s]))
  {
    var m := registery[s];
    var out := Remove(list, m);
    RemoveMembers(list, m);
    forall i | 0 <= i < |out|
      ensures out[i].sequenceId in registery - {s} && (registery - {s})[out[i].sequenceId] == out[i]
    {
      assert out[i] in list;
    }
  }

  lemma AddKeepsSame(registery: map<nat, Message>, list: seq<Message>, m: Message)
    requires Same(registery, list) && m.sequenceId !in registery
    ensures Same(registery[m.sequenceId := m], list + [m])
  {
  }

  class AsyncSequence {
    var registery: map<nat, Message>
    var list: seq<Message>

    ghost predicate Valid()
      reads this
    {
      Same(registery, list)
    }

    constructor ()
      ensures Valid() && list == []
    {
      registery, list := map[], [];
    }

    /** Put; a sequence id already outstanding is refused. */
    method Put(m: Message) returns (ok: bool)
      requires Valid()
      modifies this
      ensures Valid()
      ensures ok <==> m.sequenceId !in old(registery)
      ensures list == if ok then old(list) + [m] else old(list)
    {
      if m.sequenceId in registery {
        return false;
      }
      AddKeepsSame(registery, list, m);
      registery := registery[m.sequenceId := m];
      list := list + [m];
      return true;
    }

    /** Get takes the outstanding message with this sequence id. */
    method Get(sequenceId: nat) returns (m: Option<Message>)
      requires Valid()
      modifies this
      ensures Valid()
      ensures m.Some? <==> exists i :: 0 <= i < |old(list)| && old(list)[i].sequenceId == sequenceId
      ensures m.Some? ==> m.value in old(list) && m.value.sequenceId == sequenceId && list == Remove(old(list), m.value)
      ensures m.Some? ==>
                exists i :: 0 <= i < |old(list)| && old(list)[i] == m.value && list == old(list)[..i] + old(list)[i + 1..]
      ensures m.None? ==> list == old(list)
    {
      if sequenceId !in registery {
        return None;
      }
      m := Some(registery[sequenceId]);
      RemoveKeepsSame(registery, list, sequenceId);
      RemoveMembers(list, m.value);
      var i :| 0 <= i < |list| && list[i] == m.value;
      RemoveAt(list, i);
      hide Remove;
      registery := registery - {sequenceId};
      list := RemoveFrom(list, m.value);
    }

    /** Clear hands out everything outstanding. */
    method Clear() returns (all: seq<Message>)
      requires Valid()
      modifies this
      ensures Valid() && all == old(list) && list == []
    {
      all, list := list, [];
      registery := map[];
    }
  }

  lemma RemoveNext(list: seq<Message>, m: Message)
    ensures Remove(list, m) == if list == [] then [] else (if list[0] == m then [] else [list[0]]) + Remove(list[1..], m)
  {
  }

  /** std::list::remove. */
  method RemoveFrom(list: seq<Message>, m: Message) returns (out: seq<Message>)
    ensures out == Remove(list, m)
  {
    hide Remove;
    out := [];
    var i := 0;
    assert list[0..] == list;
    while i < |list|
      invariant i <= |list| && out + Remove(list[i..], m) == Remove(list, m)
    {
      RemoveNext(list[i..], m);
      assert list[i..][0] == list[i] && list[i..][1..] == list[i + 1..];
      if list[i] != m {
        assert out + [list[i]] + Remove(list[i + 1..], m) == out + ([list[i]] + Remove(list[i + 1..], m));
        out := out + [list[i]];
      }
      i := i + 1;
    }
    RemoveNext(list[i..], m);
  }

  class AsyncClientConnect {
    const sequence: AsyncSequence
    var connected: bool

    ghost predicate Valid()
      reads this, sequence
    {
      sequence.Valid()
    }

    constructor ()
      ensures Valid() && fresh(sequence) && sequence.list == [] && !connected
    {
      sequence := new AsyncSequence();
      connected := false;
    }

    /** EncodeMsg; `encodes`: whether the protocol can encode the message. */
    method EncodeMsg(m: Message, encodes: bool) returns (r: EncodeResult)
      requires Valid()
      modifies sequence
      ensures Valid()
      ensures sequence.list == if r.Encoded? && !m.direction.OnlySend? then old(sequence.list) + [m] else old(sequence.list)
      ensures r.Encoded? <==> (connected && encodes
                && (m.direction.OnlySend?
                    || forall i | 0 <= i < |old(sequence.list)| :: old(sequence.list)[i].sequenceId != m.sequenceId))
    {
      if !connected {
        return Broken;
      }
      if !encodes {
        return EncodeFailed;
      }
      if !m.direction.OnlySend? {
        var ok := sequence.Put(m);
        if !ok {
          return PutFailed;
        }
      }
      return Encoded;
    }

    /** OnDecodeMessage: a response with this sequence id has come. The response goes to the request it
        answers; one that answers nothing is dropped. */
    method OnDecodeMessage(sequenceId: nat) returns (o: Outcome)
      requires Valid()
      modifies sequence
      ensures Valid()
      ensures forall m | m in old(sequence.list) && m.sequenceId == sequenceId ::
                sequence.list == Remove(old(sequence.list), m)
                && o == if m.heartBeat then Outcome([], [m]) else Outcome([Sent(m, OK)], [m])
      ensures (forall m | m in old(sequence.list) :: m.sequenceId != sequenceId) ==>
                sequence.list == old(sequence.list) && o == NOTHING
    {
      var keeper := sequence.Get(sequenceId);
      if keeper.None? {
        return NOTHING;
      }
      var m := keeper.value;
      if m.heartBeat {
        return Outcome([], [m]);
      }
      return Outcome([Sent(m, OK)], [m]);
    }

    /** CleanSequenceQueue: every outstanding message is sent back as failed, in list order. */
    method CleanSequenceQueue() returns (o: Outcome)
      requires Valid()
      modifies sequence
      ensures Valid() && sequence.list == [] && o == SendAllBack(old(sequence.list))
      ensures AllFailed(old(sequence.list), o)
    {
      var all := sequence.Clear();
      SentBackInOrder(all);
      o := SendEachBack(all);
    }

    /** OnClose, as far as messages go. */
    method OnClose() returns (o: Outcome)
      requires Valid()
      modifies this, sequence
      ensures Valid() && sequence.list == [] && !connected && o == SendAllBack(old(sequence.list))
      ensures AllFailed(old(sequence.list), o)
    {
      o := CleanSequenceQueue();
      connected := false;
    }

    /** AsyncSequence::OnTimer and OnTimeout for a timer set up for this sequence id. A heartbeat that
        times out closes the connection. */
    method OnTimer(sequenceId: nat) returns (o: Outcome)
      requires Valid()
      modifies this, sequence
      ensures Valid()
      ensures forall m | m in old(sequence.list) && m.sequenceId == sequenceId ::
                var rest := Remove(old(sequence.list), m);
                if m.heartBeat then
                  sequence.list == [] && !connected && o == Both(SendAllBack(rest), SendBack(m, Timeout))
                  && FailedInOrder(Only(Told, rest), o.sent) && o.destroyed == Only(Untold, rest) + [m]
                else
                  sequence.list == rest && o == SendBack(m, Timeout)
                  && o == if m.direction.OnlySend? then Outcome([], [m]) else Outcome([Sent(m, Timeout)], [])
      ensures (forall m | m in old(sequence.list) :: m.sequenceId != sequenceId) ==>
                sequence.list == old(sequence.list) && o == NOTHING
    {
      var found := sequence.Get(sequenceId);
      if found.None? {
        return NOTHING;
      }
      o := NOTHING;
      if found.value.heartBeat {
        o := OnClose();
      }
      BothNothing(SendBack(found.value, Timeout));
      o := Both(o, SendBack(found.value, Timeout));
    }
  }
}
