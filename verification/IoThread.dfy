/** The I/O thread: what it does with messages from the service side, and what comes back. Every
    request is answered to the service side exactly once. */
module IoThread {
  import opened Requests
  import opened AsyncClient
  import opened SyncClient

  /** What has happened: messages handled, messages sent to the service side, messages destroyed. */
  datatype Ledger = Ledger(handled: seq<Message>, done: Outcome)

  /** Every message handled is outstanding, or has gone, once; and the service side has heard once of
      every request that has gone. */
  ghost predicate Balanced(l: Ledger, outstanding: seq<Message>) {
    multiset(l.handled) == multiset(outstanding) + Gone(l.done) && forall m :: Fair(l.done, m)
  }

  function Take(l: Ledger, m: Message): Ledger { l.(handled := l.handled + [m]) }

  function Record(l: Ledger, o: Outcome): Ledger { l.(done := Both(l.done, o)) }

  /** Messages no longer outstanding are disposed of. */
  lemma DisposedIsBalanced(l: Ledger, outstanding: seq<Message>, o: Outcome, taken: seq<Message>, left: seq<Message>)
    requires Balanced(l, outstanding) && Disposes(o, taken)
    requires multiset(outstanding) == multiset(taken) + multiset(left)
    ensures Balanced(Record(l, o), left)
  {
    forall m ensures Fair(Record(l, o).done, m) {
      BothAdds(l.done, o, m);
      assert Fair(l.done, m) && Fair(o, m);
    }
    BothAdds(l.done, o, Message(0, Unknown, false, 0, 0, 0));
    hide Gone, Both;
  }

  lemma RemoveOne(list: seq<Message>, m: Message)
    requires m in list && AsyncClient.Distinct(list)
    ensures multiset(list) == multiset([m]) + multiset(Remove(list, m))
  {
    RemoveTakesOne(list, m);
    assert multiset(list)[m] >= 1;
  }

  lemma Splits(list: seq<Message>, k: nat)
    requires k <= |list|
    ensures multiset(list) == multiset(list[..k]) + multiset(list[k..])
  {
    assert list == list[..k] + list[k..];
  }

  lemma FailedDisposes(m: Message)
    ensures Disposes(if m.direction.OutgoingRequest? then Outcome([Sent(m, InternalFailure)], []) else Outcome([], [m]), [m])
  {
    OneMessage(m, InternalFailure);
    hide Returned, Answered;
  }

  datatype Channel = Async(a: AsyncClientConnect) | Sync(s: SyncClientConnect)

  class IoThread {
    const con: Channel
    var sent: seq<Sent>                  // the queue of the service side
    ghost var handled: seq<Message>
    ghost var destroyed: seq<Message>

    ghost function Parts(): set<object> {
      match con
      case Async(a) => {a, a.sequence}
      case Sync(s) => {s, s.sequence}
    }

    ghost function Outstanding(): seq<Message>
      reads this, Parts()
    {
      match con
      case Async(a) => a.sequence.list
      case Sync(s) => s.sequence.list
    }

    ghost function Book(): Ledger
      reads this
    {
      Ledger(handled, Outcome(sent, destroyed))
    }

    ghost predicate Valid()
      reads this, Parts()
    {
      this !in Parts() && (con.Async? ==> con.a.Valid()) && Balanced(Book(), Outstanding())
    }

    constructor (channel: Channel)
      requires channel.Async? ==> channel.a.Valid() && channel.a.sequence.list == []
      requires channel.Sync? ==> channel.s.sequence.list == []
      ensures Valid() && con == channel && sent == []
    {
      con := channel;
      sent, handled, destroyed := [], [], [];
    }

    method Note(o: Outcome)
      modifies this`sent, this`destroyed
      ensures Book() == Record(old(Book()), o)
    {
      sent := sent + o.sent;
      destroyed := destroyed + o.destroyed;
    }

    /** HandleIoMessageFailed. */
    method HandleIoMessageFailed(m: Message)
      requires Balanced(Book(), Outstanding() + [m]) && this !in Parts() && (con.Async? ==> con.a.Valid())
      modifies this`sent, this`destroyed
      ensures Valid() && Outstanding() == old(Outstanding())
      ensures sent == if m.direction.OutgoingRequest? then old(sent) + [Sent(m, InternalFailure)] else old(sent)
    {
      var o := if m.direction.OutgoingRequest? then Outcome([Sent(m, InternalFailure)], []) else Outcome([], [m]);
      FailedDisposes(m);
      hide Balanced, Disposes;
      DisposedIsBalanced(Book(), Outstanding() + [m], o, [m], Outstanding());
      Note(o);
    }

    /** Exactly the messages EncodeMsg encodes: the connection is up, the protocol can encode the
        message, and an asynchronous connection has no message outstanding under its sequence id. */
    ghost predicate Accepts(m: Message, encodes: bool)
      reads this, Parts()
    {
      encodes
      && match con
         case Async(a) =>
           a.connected && (m.direction.OnlySend? || forall x | x in a.sequence.list :: x.sequenceId != m.sequenceId)
         case Sync(s) => s.connected
    }

    /** con->EncodeMsg. */
    method EncodeMsg(m: Message, encodes: bool) returns (encoded: bool)
      requires this !in Parts() && (con.Async? ==> con.a.Valid())
      modifies Parts()
      ensures con.Async? ==> con.a.Valid()
      ensures encoded <==> old(Accepts(m, encodes))
      ensures Outstanding() == if encoded && (con.Sync? || !m.direction.OnlySend?) then old(Outstanding()) + [m]
        else old(Outstanding())
    {
      var r: EncodeResult;
      match con {
        case Async(a) => r := a.EncodeMsg(m, encodes);
        case Sync(s) => r := s.EncodeMsg(m, encodes);
      }
      encoded := r.Encoded?;
    }

    /** HandleIoMessageEvent. `late`: more than 100 ms have passed since the message was sent;
        `encodes`: the protocol can encode it. The ledger stays balanced exactly if the message is not
        a one-way message that a synchronous connection accepts in time: that one is destroyed
        although it waits for a response. */
    method HandleIoMessageEvent(m: Message, late: bool, encodes: bool) returns (kept: bool)
      requires Valid()
      modifies this, Parts()
      ensures this !in Parts() && (con.Async? ==> con.a.Valid()) && handled == old(handled) + [m]
      ensures kept <==> old(Accepts(m, encodes)) && !(late && (m.direction.OnlySend? || m.direction.OutgoingRequest?))
                        && (con.Sync? || !m.direction.OnlySend?)
      ensures Outstanding() == if kept then old(Outstanding()) + [m] else old(Outstanding())
      ensures m.direction.OutgoingRequest? && !kept ==> sent == old(sent) + [Sent(m, InternalFailure)]
      ensures kept ==> sent == old(sent)
      ensures Balanced(Book(), Outstanding()) <==>
                !(con.Sync? && m.direction.OnlySend? && !late && old(Accepts(m, encodes)))
      ensures !Balanced(Book(), Outstanding()) ==> m in Outstanding() && m in destroyed
    {
      hide Balanced;
      ghost var before, list := Book(), Outstanding();
      handled := handled + [m];
      Handled(before, list, m);
      assert Book() == Take(before, m);
      if (m.direction.OnlySend? || m.direction.OutgoingRequest?) && late {
        HandleIoMessageFailed(m);
        return false;
      }
      var encoded := EncodeMsg(m, encodes);
      if !encoded {
        HandleIoMessageFailed(m);
        return false;
      }
      kept := con.Sync? || !m.direction.OnlySend?;
      if m.direction.OnlySend? {
        ResponseDisposes(m);
        var o := Outcome([], [m]);
        DisposedIsBalanced(Take(before, m), list + [m], o, [m], list);
        Overcharged(Take(before, m), list, m);
        Note(o);
        assert destroyed[|destroyed| - 1] == m;
      }
    }

    /** OnHeartBeat: the heartbeat message waits for a response like a request, or is destroyed. */
    method OnHeartBeat(m: Message, encodes: bool)
      requires Valid() && m.heartBeat && !m.direction.OnlySend?
      modifies this, Parts()
      ensures Valid() && sent == old(sent)
    {
      hide Balanced, Disposes, Distinct;
      ghost var before, list := Book(), Outstanding();
      handled := handled + [m];
      Handled(before, list, m);
      var encoded := EncodeMsg(m, encodes);
      if !encoded {
        ResponseDisposes(m);
        DisposedIsBalanced(Take(before, m), list + [m], Outcome([], [m]), [m], list);
        Note(Outcome([], [m]));
      }
    }

    /** An asynchronous connection decodes a response with this sequence id. */
    method OnResponse(sequenceId: nat)
      requires Valid() && con.Async?
      modifies this, Parts()
      ensures Valid()
      ensures forall m | m in old(Outstanding()) && m.sequenceId == sequenceId ::
                Outstanding() == Remove(old(Outstanding()), m)
                && sent == if m.heartBeat then old(sent) else old(sent) + [Sent(m, OK)]
      ensures (forall m | m in old(Outstanding()) :: m.sequenceId != sequenceId) ==>
                Outstanding() == old(Outstanding()) && sent == old(sent)
    {
      hide Balanced;
      ghost var before, list := Book(), Outstanding();
      var o := con.a.OnDecodeMessage(sequenceId);
      if m :| m in list && m.sequenceId == sequenceId {
        ResponseDisposes(m);
        RemoveOne(list, m);
        DisposedIsBalanced(before, list, o, [m], Outstanding());
      } else {
        NothingHappens(before);
      }
      Note(o);
    }

    /** A synchronous connection reads responses: they answer the first outstanding requests in turn. */
    method OnRead(input: seq<Decoded>) returns (failed: bool, ghost k: nat)
      requires Valid() && con.Sync?
      modifies this, Parts()
      ensures Valid() && k == Min(|old(Outstanding())|, Ready(input))
      ensures Outstanding() == old(Outstanding())[k..] && sent == old(sent) + Answers(old(Outstanding())[..k]).sent
    {
      hide Balanced;
      ghost var before, list := Book(), Outstanding();
      var o: Outcome;
      failed, o, k := con.s.DecodeMsg(input);
      AnswersDispose(list[..k]);
      Splits(list, k);
      DisposedIsBalanced(before, list, o, list[..k], list[k..]);
      Note(o);
    }

    /** A request timer of this sequence id fires. */
    method OnTimer(sequenceId: nat)
      requires Valid()
      modifies this, Parts()
      ensures Valid()
      ensures old(sent) <= sent
      ensures con.Sync? ==> Outstanding() == [] && FailedInOrder(Only(Told, old(Outstanding())), sent[|old(sent)|..])
      ensures con.Async? ==> forall m | m in old(Outstanding()) && m.sequenceId == sequenceId ::
                var rest := Remove(old(Outstanding()), m);
                if m.heartBeat then Outstanding() == [] && FailedInOrder(Only(Told, rest), sent[|old(sent)|..])
                else Outstanding() == rest && sent == old(sent) + if m.direction.OnlySend? then [] else [Sent(m, Timeout)]
      ensures con.Async? && (forall m | m in old(Outstanding()) :: m.sequenceId != sequenceId) ==>
                Outstanding() == old(Outstanding()) && sent == old(sent)
    {
      hide Balanced, Disposes, SendAllBack, SendBack, Remove, Distinct;
      ghost var before, list := Book(), Outstanding();
      match con {
        case Sync(s) =>
          var o := s.OnTimer();
          SendAllBackDisposes(list);
          DisposedIsBalanced(before, list, o, list, []);
          Note(o);
        case Async(a) =>
          var o := AsyncTimer(a, sequenceId);
          Note(o);
      }
    }

    /** The same on an asynchronous connection, before it is noted. */
    method AsyncTimer(a: AsyncClientConnect, sequenceId: nat) returns (o: Outcome)
      requires Valid() && con == Async(a)
      modifies Parts()
      ensures this !in Parts() && a.Valid() && Balanced(Record(Book(), o), Outstanding())
      ensures forall m | m in old(Outstanding()) && m.sequenceId == sequenceId ::
                var rest := Remove(old(Outstanding()), m);
                if m.heartBeat then Outstanding() == [] && FailedInOrder(Only(Told, rest), o.sent)
                else Outstanding() == rest && o.sent == if m.direction.OnlySend? then [] else [Sent(m, Timeout)]
      ensures (forall m | m in old(Outstanding()) :: m.sequenceId != sequenceId) ==>
                Outstanding() == old(Outstanding()) && o == NOTHING
    {
      hide Balanced, Disposes, SendAllBack, SendBack, Remove, Distinct;
      ghost var before, list := Book(), Outstanding();
      o := a.OnTimer(sequenceId);
      if m :| m in list && m.sequenceId == sequenceId {
        SendBackDisposes(m, Timeout);
        RemoveOne(list, m);
        if m.heartBeat {
          HeartBeatSilent(m);
          var rest := Remove(list, m);
          SendAllBackDisposes(rest);
          DisposesBoth(SendAllBack(rest), rest, SendBack(m, Timeout), [m]);
          DisposedIsBalanced(before, list, o, rest + [m], []);
        } else {
          DisposedIsBalanced(before, list, o, [m], Outstanding());
        }
      } else {
        NothingHappens(before);
      }
    }

    /** The connection closes: everything outstanding is sent back as failed. */
    method OnClose()
      requires Valid()
      modifies this, Parts()
      ensures Valid() && Outstanding() == [] && old(sent) <= sent
      ensures FailedInOrder(Only(Told, old(Outstanding())), sent[|old(sent)|..])
    {
      hide Balanced, Disposes;
      ghost var before, list := Book(), Outstanding();
      var o: Outcome;
      match con {
        case Async(a) => o := a.OnClose();
        case Sync(s) => o := s.OnClose();
      }
      SendAllBackDisposes(list);
      DisposedIsBalanced(before, list, o, list, []);
      Note(o);
    }
  }

  lemma HeartBeatSilent(m: Message)
    requires m.heartBeat
    ensures SendBack(m, Timeout).sent == [] && forall o: Outcome :: Both(o, SendBack(m, Timeout)).sent == o.sent
  {
  }

  /** A one-way message on a synchronous connection that is up is destroyed while it waits. */
  method OneWayOnSync() returns (t: IoThread, m: Message)
    ensures fresh(t) && t.con.Sync? && m.direction.OnlySend?
    ensures !Balanced(t.Book(), t.Outstanding()) && m in t.Outstanding() && m in t.destroyed
  {
    var s := new SyncClientConnect(false);
    s.connected := true;
    t := new IoThread(Sync(s));
    m := Message(1, OnlySend, false, 7, 0, 0);
    var _ := t.HandleIoMessageEvent(m, false, true);
  }

  lemma Handled(l: Ledger, list: seq<Message>, m: Message)
    requires Balanced(l, list)
    ensures Balanced(Take(l, m), list + [m])
  {
  }

  lemma NothingHappens(l: Ledger)
    ensures Record(l, NOTHING) == l
  {
  }

  /** A message that is destroyed while it still waits is accounted for twice. */
  lemma Overcharged(l: Ledger, list: seq<Message>, m: Message)
    requires Balanced(l, list + [m])
    ensures !Balanced(Record(l, Outcome([], [m])), list + [m])
  {
    var o := Outcome([], [m]);
    BothAdds(l.done, o, m);
    OneMessage(m, OK);
    assert Gone(o)[m] == 1;
    hide Both;
    assert (multiset(list + [m]) + Gone(l.done) + Gone(o))[m] == multiset(l.handled)[m] + 1;
  }

  /** Of a request that was handled once: it waits and the service side has not heard of it, or it
      does not wait and the service side has heard of it exactly once. */
  lemma ExactlyOneCompletion(l: Ledger, outstanding: seq<Message>, m: Message)
    requires Balanced(l, outstanding) && IsRequest(m) && multiset(l.handled)[m] == 1
    ensures if m in outstanding then multiset(outstanding)[m] == 1 && Heard(l.done, m) == 0
      else Heard(l.done, m) == 1
  {
    assert Fair(l.done, m);
    assert (multiset(outstanding) + Gone(l.done))[m] == 1;
  }

  lemma {:induction false} HeardNever(sent: seq<Sent>, m: Message)
    ensures m !in Answered(sent) <==> forall i | 0 <= i < |sent| :: sent[i].req != m
  {
    if sent != [] {
      var rest := sent[1..];
      HeardNever(rest, m);
      assert forall i | 0 < i < |sent| :: sent[i] == rest[i - 1];
      assert m in Answered(sent) <==> m == sent[0].req || m in Answered(rest);
      hide Answered;
      if sent[0].req != m && exists i :: 0 <= i < |rest| && rest[i].req == m {
        var i :| 0 <= i < |rest| && rest[i].req == m;
        assert sent[i + 1].req == m;
      }
    }
  }

  /** Only the message at place `i` of the queue is for request `m`. */
  predicate OnlyAt(sent: seq<Sent>, m: Message, i: nat) {
    i < |sent| && sent[i].req == m && forall j | 0 <= j < |sent| && j != i :: sent[j].req != m
  }

  /** Hearing once is one message in the queue of the service side. */
  lemma {:induction false} HeardOnce(sent: seq<Sent>, m: Message)
    requires multiset(Answered(sent))[m] == 1
    ensures exists i: nat :: OnlyAt(sent, m, i)
  {
    var rest := sent[1..];
    assert multiset(Answered(sent)) == multiset([sent[0].req]) + multiset(Answered(rest));
    HeardNever(rest, m);
    if sent[0].req == m {
      assert OnlyAt(sent, m, 0);
    } else {
      HeardOnce(rest, m);
      var i: nat :| OnlyAt(rest, m, i);
      assert forall j | 0 < j < |sent| :: sent[j] == rest[j - 1];
      assert OnlyAt(sent, m, i + 1);
    }
  }
}
