/** Messages on their way through the I/O thread, and the ledger that says what became of them. */
module Requests {

  datatype Direction = Unknown | OutgoingRequest | OnlySend | SendNoCareResponse

  /** A message of the service side; `id` tells message objects apart. The last three fields say who
      waits for the answer. */
  datatype Message = Message(id: nat, direction: Direction, heartBeat: bool,
                             sequenceId: nat, coroutineId: int, handleId: int)

  /** What EncodeMsg returns: 0, -1, -2, -3. */
  datatype EncodeResult = Encoded | Broken | EncodeFailed | PutFailed

  datatype Status = OK | Timeout | InternalFailure

  /** A message handed to the service side for request `req`: `req` itself with a new status, or,
      with status OK, a response that carries its sequence, coroutine and handle ids. */
  datatype Sent = Sent(req: Message, status: Status)

  /** What an operation hands to the service side, and which messages it destroys. */
  datatype Outcome = Outcome(sent: seq<Sent>, destroyed: seq<Message>)

  const NOTHING := Outcome([], [])

  function Both(a: Outcome, b: Outcome): Outcome { Outcome(a.sent + b.sent, a.destroyed + b.destroyed) }

  lemma BothAssociates(a: Outcome, b: Outcome, c: Outcome)
    ensures Both(Both(a, b), c) == Both(a, Both(b, c))
  {
    assert (a.sent + b.sent) + c.sent == a.sent + (b.sent + c.sent);
    assert (a.destroyed + b.destroyed) + c.destroyed == a.destroyed + (b.destroyed + c.destroyed);
  }

  lemma BothNothing(a: Outcome)
    ensures Both(NOTHING, a) == a == Both(a, NOTHING)
  {
  }

  /** A request somebody waits for. */
  predicate IsRequest(m: Message) { m.direction.OutgoingRequest? && !m.heartBeat }

  /** ClientConnect::DoSendBack. */
  function SendBack(m: Message, status: Status): Outcome {
    if m.heartBeat || m.direction.OnlySend? then Outcome([], [m]) else Outcome([Sent(m, status)], [])
  }

  function SendAllBack(ms: seq<Message>): Outcome {
    if ms == [] then NOTHING else Both(SendBack(ms[0], InternalFailure), SendAllBack(ms[1..]))
  }

  /** The service side is told of what becomes of this message. */
  predicate Told(m: Message) { !m.heartBeat && !m.direction.OnlySend? }

  predicate Untold(m: Message) { !Told(m) }

  /** Those of `ms` for which `p` holds, in order. */
  function Only(p: Message -> bool, ms: seq<Message>): (kept: seq<Message>)
    ensures forall m :: m in kept <==> m in ms && p(m)
  {
    if ms == [] then [] else
      assert ms == [ms[0]] + ms[1..];
      (if p(ms[0]) then [ms[0]] else []) + Only(p, ms[1..])
  }

  /** Everything in `ms` is failed. */
  predicate FailedInOrder(ms: seq<Message>, sent: seq<Sent>) {
    |sent| == |ms| && forall i | 0 <= i < |ms| :: sent[i] == Sent(ms[i], InternalFailure)
  }

  /** `ms` are sent back as failed: `sent` and `destroyed` are what comes of it. */
  predicate AllFailed(ms: seq<Message>, o: Outcome) {
    FailedInOrder(Only(Told, ms), o.sent) && o.destroyed == Only(Untold, ms)
  }

  /** Of what is sent back as failed the service side is told of those and only those that are neither
      heartbeats nor one-way, in order, each as an internal failure; the others are destroyed, in order. */
  lemma {:induction false} SentBackInOrder(ms: seq<Message>)
    ensures AllFailed(ms, SendAllBack(ms))
  {
    if ms != [] {
      SentBackInOrder(ms[1..]);
    }
  }

  /** The loop of CleanSequenceQueue. */
  method SendEachBack(all: seq<Message>) returns (o: Outcome)
    ensures o == SendAllBack(all)
  {
    o := NOTHING;
    var i := 0;
    while i < |all|
      invariant i <= |all| && Both(o, SendAllBack(all[i..])) == SendAllBack(all)
    {
      assert all[i..][1..] == all[i + 1..];
      BothAssociates(o, SendBack(all[i], InternalFailure), SendAllBack(all[i + 1..]));
      o := Both(o, SendBack(all[i], InternalFailure));
      i := i + 1;
    }
    assert all[i..] == [];
    BothNothing(o);
  }

  /** The messages that have left: destroyed, or sent back themselves. A response is another message,
      the request it answers is destroyed. */
  function Returned(sent: seq<Sent>): seq<Message> {
    if sent == [] then []
    else (if sent[0].status.OK? then [] else [sent[0].req]) + Returned(sent[1..])
  }

  function Gone(o: Outcome): multiset<Message> { multiset(Returned(o.sent)) + multiset(o.destroyed) }

  /** The messages that something was sent to the service side for. */
  function Answered(sent: seq<Sent>): seq<Message> {
    if sent == [] then [] else [sent[0].req] + Answered(sent[1..])
  }

  /** How often the service side heard of request `m`. */
  function Heard(o: Outcome, m: Message): nat { multiset(Answered(o.sent))[m] }

  /** The service side hears of a request as often as the request goes. */
  predicate Fair(o: Outcome, m: Message) { IsRequest(m) ==> Heard(o, m) == Gone(o)[m] }

  /** `o` disposes of exactly the messages `ms`, answering each request among them once. */
  ghost predicate Disposes(o: Outcome, ms: seq<Message>) {
    Gone(o) == multiset(ms) && forall m :: Fair(o, m)
  }

  lemma {:induction false} ReturnedAppend(a: seq<Sent>, b: seq<Sent>)
    ensures Returned(a + b) == Returned(a) + Returned(b)
    ensures Answered(a + b) == Answered(a) + Answered(b)
  {
    if a == [] {
      assert a + b == b;
    } else {
      assert (a + b)[1..] == a[1..] + b;
      ReturnedAppend(a[1..], b);
    }
  }

  lemma BothAdds(a: Outcome, b: Outcome, m: Message)
    ensures Gone(Both(a, b)) == Gone(a) + Gone(b) && Heard(Both(a, b), m) == Heard(a, m) + Heard(b, m)
  {
    ReturnedAppend(a.sent, b.sent);
  }

  lemma OneMessage(m: Message, status: Status)
    ensures Returned([Sent(m, status)]) == if status.OK? then [] else [m]
    ensures Answered([Sent(m, status)]) == [m]
    ensures Returned([]) == [] && Answered([]) == []
  {
    assert [Sent(m, status)][1..] == [];
  }

  lemma SendBackDisposes(m: Message, status: Status)
    requires !status.OK?
    ensures Disposes(SendBack(m, status), [m])
  {
    OneMessage(m, status);
    hide Returned, Answered;
  }

  lemma DisposesBoth(a: Outcome, ms: seq<Message>, b: Outcome, ns: seq<Message>)
    requires Disposes(a, ms) && Disposes(b, ns)
    ensures Disposes(Both(a, b), ms + ns)
  {
    forall m ensures Fair(Both(a, b), m) {
      BothAdds(a, b, m);
      assert Fair(a, m) && Fair(b, m);
    }
    BothAdds(a, b, Message(0, Unknown, false, 0, 0, 0));
    hide Gone, Both;
  }

  lemma NothingDisposes()
    ensures Disposes(NOTHING, [])
  {
  }

  lemma {:induction false} SendAllBackDisposes(ms: seq<Message>)
    ensures Disposes(SendAllBack(ms), ms)
  {
    NothingDisposes();
    hide Disposes, SendBack;
    if ms != [] {
      SendBackDisposes(ms[0], InternalFailure);
      SendAllBackDisposes(ms[1..]);
      DisposesBoth(SendBack(ms[0], InternalFailure), [ms[0]], SendAllBack(ms[1..]), ms[1..]);
      assert ms == [ms[0]] + ms[1..];
    }
  }

  /** A response to `m` reaches the service side and `m` is destroyed; `m` may be destroyed without
      that only if nobody waits. */
  lemma ResponseDisposes(m: Message)
    ensures Disposes(Outcome([Sent(m, OK)], [m]), [m])
    ensures Disposes(Outcome([], [m]), [m]) <==> !IsRequest(m)
  {
    OneMessage(m, OK);
    hide Returned, Answered;
    if IsRequest(m) {
      assert !Fair(Outcome([], [m]), m);
    }
  }
}
