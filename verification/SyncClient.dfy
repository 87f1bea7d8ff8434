/** SyncSequence and SyncClientConnect: the k-th response answers the k-th outstanding request. */
module SyncClient {
  import opened Options
  import opened Requests

  class SyncSequence {
    var list: seq<Message>

    constructor ()
      ensures list == []
    {
      list := [];
    }

    method Put(m: Message)
      modifies this
      ensures list == old(list) + [m]
    {
      list := list + [m];
    }

    method Get() returns (m: Option<Message>)
      modifies this
      ensures if old(list) == [] then m.None? && list == [] else m == Some(old(list)[0]) && list == old(list)[1..]
    {
      if |list| == 0 {
        return None;
      }
      m := Some(list[0]);
      list := list[1..];
    }

    method Clear() returns (all: seq<Message>)
      modifies this
      ensures all == old(list) && list == []
    {
      all, list := list, [];
    }
  }

  /** The service side wants the response: neither a heartbeat, nor sent one way or without care. */
  predicate Wanted(m: Message) { !m.heartBeat && !m.direction.SendNoCareResponse? && !m.direction.OnlySend? }

  /** Responses for `ms`, one each. */
  function Responses(ms: seq<Message>): seq<Sent> { seq(|ms|, i requires 0 <= i < |ms| => Sent(ms[i], OK)) }

  /** What becomes of the request a response answers. */
  function Answer(m: Message): Outcome {
    if m.heartBeat || m.direction.SendNoCareResponse? || m.direction.OnlySend? then Outcome([], [m])
    else Outcome([Sent(m, OK)], [m])
  }

  /** The outcomes of responses to `ms`, in this order. */
  function Answers(ms: seq<Message>): Outcome {
    if ms == [] then NOTHING else Both(Answer(ms[0]), Answers(ms[1..]))
  }

  lemma AnswerDisposes(m: Message)
    ensures Disposes(Answer(m), [m])
  {
    ResponseDisposes(m);
  }

  lemma {:induction false} AnswersDispose(ms: seq<Message>)
    ensures Disposes(Answers(ms), ms)
  {
    NothingDisposes();
    hide Disposes, Answer;
    if ms != [] {
      AnswerDisposes(ms[0]);
      AnswersDispose(ms[1..]);
      DisposesBoth(Answer(ms[0]), [ms[0]], Answers(ms[1..]), ms[1..]);
      assert ms == [ms[0]] + ms[1..];
    }
  }

  /** Whatever is outstanding: the k-th response sent on is for the k-th message whose response is
      wanted, and every message answered, wanted or not, is destroyed once, in order. */
  lemma {:induction false} AnswersInOrder(ms: seq<Message>)
    ensures Answers(ms) == Outcome(Responses(Only(Wanted, ms)), ms)
  {
    if ms != [] {
      AnswersInOrder(ms[1..]);
      var rest := Only(Wanted, ms[1..]);
      assert Answer(ms[0]) == Outcome(if Wanted(ms[0]) then [Sent(ms[0], OK)] else [], [ms[0]]);
      assert Responses([ms[0]] + rest) == [Sent(ms[0], OK)] + Responses(rest);
      assert ms == [ms[0]] + ms[1..];
    }
  }

  lemma {:induction false} AnswersOneMore(ms: seq<Message>, m: Message)
    ensures Answers(ms + [m]) == Both(Answers(ms), Answer(m))
  {
    if ms == [] {
      assert ([] + [m])[1..] == [];
      BothNothing(Answer(m));
    } else {
      assert (ms + [m])[1..] == ms[1..] + [m];
      AnswersOneMore(ms[1..], m);
      BothAssociates(Answer(ms[0]), Answers(ms[1..]), Answer(m));
    }
  }

  /** What the protocol makes of the input buffer: a response, nothing yet, or an error. */
  datatype Decoded = Response | More | Failed

  /** How many responses come first. */
  function Ready(input: seq<Decoded>): (n: nat)
    ensures n <= |input|
  {
    if input == [] || !input[0].Response? then 0 else 1 + Ready(input[1..])
  }

  function Min(a: nat, b: nat): nat { if a < b then a else b }

  class SyncClientConnect {
    const sequence: SyncSequence
    const single: bool                  // sigle_send_sigle_recv_
    var connected: bool
    var busy: bool

    constructor (single: bool)
      ensures fresh(sequence) && sequence.list == [] && !connected && !busy
    {
      sequence := new SyncSequence();
      this.single := single;
      connected, busy := false, false;
    }

    method SetBusy(b: bool)
      modifies this`busy
      ensures busy == if single then b else old(busy)
    {
      if single {
        busy := b;
      }
    }

    /** EncodeMsg; every message encoded waits for a response, whatever its direction. */
    method EncodeMsg(m: Message, encodes: bool) returns (r: EncodeResult)
      modifies this`busy, sequence
      ensures r == if !connected then Broken else if !encodes then EncodeFailed else Encoded
      ensures sequence.list == if r.Encoded? then old(sequence.list) + [m] else old(sequence.list)
      ensures !r.Encoded? && single ==> !busy
    {
      if !connected {
        SetBusy(false);
        return Broken;
      }
      if !encodes {
        SetBusy(false);
        return EncodeFailed;
      }
      sequence.Put(m);
      return Encoded;
    }

    method OnDecodeMessage() returns (o: Outcome)
      modifies sequence
      ensures if old(sequence.list) == [] then sequence.list == [] && o == NOTHING
        else sequence.list == old(sequence.list)[1..] && o == Answer(old(sequence.list)[0])
    {
      var keeper := sequence.Get();
      if keeper.None? {
        return NOTHING;
      }
      var m := keeper.value;
      if m.heartBeat || m.direction.SendNoCareResponse? || m.direction.OnlySend? {
        return Outcome([], [m]);
      }
      return Outcome([Sent(m, OK)], [m]);
    }

    /** DecodeMsg: while messages are outstanding, the responses in the input answer them one by one;
        what follows the answer to the last of them stays in the input. */
    method DecodeMsg(input: seq<Decoded>) returns (failed: bool, o: Outcome, ghost k: nat)
      modifies this`busy, sequence
      ensures k == Min(|old(sequence.list)|, Ready(input))
      ensures sequence.list == old(sequence.list)[k..] && o == Answers(old(sequence.list)[..k])
      ensures failed <==> k < |old(sequence.list)| && k < |input| && input[k].Failed?
      ensures single ==> !busy
    {
      failed, o, k := false, NOTHING, 0;
      var n := 0;
      ghost var start := sequence.list;
      while |sequence.list| > 0
        invariant k == n <= Min(|start|, Ready(input)) && Ready(input) == n + Ready(input[n..])
        invariant sequence.list == start[n..] && o == Answers(start[..n]) && !failed
        decreases |sequence.list|
      {
        var d := if n < |input| then input[n] else More;
        if d.Failed? {
          failed := true;
          break;
        }
        if d.More? {
          break;
        }
        AnswersOneMore(start[..n], start[n]);
        assert start[..n + 1] == start[..n] + [start[n]];
        assert input[n..][1..] == input[n + 1..];
        var one := OnDecodeMessage();
        o := Both(o, one);
        n, k := n + 1, k + 1;
      }
      SetBusy(false);
    }

    method CleanSequenceQueue() returns (o: Outcome)
      modifies sequence
      ensures sequence.list == [] && o == SendAllBack(old(sequence.list)) && AllFailed(old(sequence.list), o)
    {
      var all := sequence.Clear();
      SentBackInOrder(all);
      o := SendEachBack(all);
    }

    /** SyncSequence::OnTimer: any timeout closes the connection and fails everything outstanding. */
    method OnTimer() returns (o: Outcome)
      modifies this, sequence
      ensures sequence.list == [] && !connected && o == SendAllBack(old(sequence.list)) && (single ==> !busy)
      ensures AllFailed(old(sequence.list), o)
    {
      o := CleanSequenceQueue();
      if connected {
        connected := false;
      }
      SetBusy(false);
    }

    /** ClientConnect::OnClose, as far as messages go. */
    method OnClose() returns (o: Outcome)
      modifies this`connected, sequence
      ensures sequence.list == [] && !connected && o == SendAllBack(old(sequence.list)) && AllFailed(old(sequence.list), o)
    {
      o := CleanSequenceQueue();
      connected := false;
    }
  }
}
