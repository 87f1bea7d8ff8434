/** RapidProtocol: length-prefixed frames on a Buffer, and the loop that drains it. */
module Rapid {
  import opened Options
  import opened Bytes
  import opened Buffer

  datatype Message = Message(command: int, sequenceId: nat, body: seq<byte>)

  const MAGIC: nat := 11111
  const MAX_VERSION: nat := 10
  const HEAD: nat := 16                       // sizeof(RapidHead)
  const DRAIN_ABOVE: nat := 30 * 1024 * 1024
  const TWO32: nat := 0x1_0000_0000

  /** Int64To32 and Int32To64. */
  function High(v: nat): nat { v / TWO32 }
  function Low(v: nat): nat { v % TWO32 }
  function Whole(high: nat, low: nat): nat { high * TWO32 + low }

  lemma HalvesJoin(v: nat)
    ensures Whole(High(v), Low(v)) == v
  {
  }

  /** What Encode writes. */
  function Head(m: Message): (h: seq<byte>)
    ensures |h| == HEAD
  {
    Net16(MAGIC) + [0, m.command % 256] + Net32(High(m.sequenceId)) + Net32(Low(m.sequenceId)) + Net32(HEAD + |m.body|)
  }

  function Frame(m: Message): seq<byte> { Head(m) + m.body }

  /** The frame of `m` byte by byte, the numbers most significant byte first. */
  ghost predicate OnWire(m: Message, f: seq<byte>) {
    |f| == 16 + |m.body| && f[..4] == [0x2B, 0x67, 0, m.command % 256] && f[16..] == m.body
    && (m.sequenceId < 0x1_0000_0000_0000_0000 ==> Number(f[4..12]) == m.sequenceId)
    && (|f| < 0x1_0000_0000 ==> Number(f[12..16]) == |f|)
  }

  lemma OnWireFrame(m: Message)
    ensures OnWire(m, Frame(m))
  {
    var f, h := Frame(m), Head(m);
    assert f[..4] == h[..4] && f[4..12] == h[4..12] && f[12..16] == h[12..16];
    assert h[..4] == [0x2B, 0x67, 0, m.command % 256];
    var id := f[4..12];
    assert id[..4] == Net32(High(m.sequenceId)) && id[4..] == Net32(Low(m.sequenceId));
    assert f[12..16] == Net32(HEAD + |m.body|);
    hide Net32, Net16, Host32, Number, Head;
    NumberOfEight(id);
    NumberOfFour(f[12..16]);
    if m.sequenceId < 0x1_0000_0000_0000_0000 {
      HostOfNet(High(m.sequenceId));
      HostOfNet(Low(m.sequenceId));
    }
    if HEAD + |m.body| < TWO32 {
      HostOfNet(HEAD + |m.body|);
    }
  }

  /** Encode refuses a message with neither body nor command. */
  predicate Encodable(m: Message) { !(m.body == [] && m.command == 0) }

  /** The message fits into the fields of a frame. */
  predicate Fits(m: Message) {
    Encodable(m) && 0 <= m.command < 256 && m.sequenceId < TWO32 * TWO32 && HEAD + |m.body| < TWO32
  }

  /** Decode: a message, or nothing; `left` is what stays unread. */
  datatype Decoded = Decoded(msg: Option<Message>, left: seq<byte>, failed: bool)

  function Decode(input: seq<byte>): Decoded {
    var total := |input|;
    if total < HEAD then Decoded(None, input, false)
    else if Host16(input[0..2]) != MAGIC || input[2] > MAX_VERSION then Decoded(None, [], true)
    else
      var size := Host32(input[12..16]);
      if total < size || size < HEAD then Decoded(None, if total > DRAIN_ABOVE then [] else input, true)
      else
        var id := Whole(Host32(input[4..8]), Host32(input[8..12]));
        Decoded(Some(Message(input[3], id, input[HEAD..size])), input[size..], false)
  }

  // ---------- the methods ----------

  /** Encode appends one frame. */
  method EncodeTo(m: Message, output: Buffer) returns (ok: bool)
    requires output.Valid()
    modifies output, output.store
    ensures output.Valid() && (output.store == old(output.store) || fresh(output.store))
    ensures ok <==> Encodable(m)
    ensures output.Unread() == if ok then old(output.Unread()) + Frame(m) else old(output.Unread())
    ensures ok ==> OnWire(m, output.Unread()[|old(output.Unread())|..])
  {
    OnWireFrame(m);
    assert (output.Unread() + Frame(m))[|output.Unread()|..] == Frame(m);
    if |m.body| == 0 && m.command == 0 {
      return false;
    }
    var size := HEAD + |m.body|;
    var _ := output.EnsureSize(size);
    output.Fill(Head(m) + m.body);
    ok := output.PourWriting(size);
  }

  method DecodeFrom(input: Buffer) returns (msg: Option<Message>, failed: bool)
    requires input.Valid()
    modifies input
    ensures input.Valid() && input.store == old(input.store)
    ensures Decoded(msg, input.Unread(), failed) == Decode(old(input.Unread()))
    ensures var u := old(input.Unread());
      if |u| < 16 then !failed && msg.None? && input.Unread() == u
      else
        failed == !(u[0] == 0x2B && u[1] == 0x67 && u[2] <= 10 && 16 <= Number(u[12..16]) <= |u|)
        && msg == (if failed then None else Some(Message(u[3], Number(u[4..12]), u[16..Number(u[12..16])])))
        && input.Unread() ==
             if !failed then u[Number(u[12..16])..]
             else if u[0] == 0x2B && u[1] == 0x67 && u[2] <= 10 && |u| <= 31457280 then u
             else []
  {
    msg, failed := None, false;
    var total := input.writing - input.reading;
    if total < HEAD {
      return;
    }
    var data: seq<byte> := input.store[input.reading..input.writing];
    NumberOfFour(data[12..16]);
    NumberOfEight(data[4..12]);
    assert data[4..12][..4] == data[4..8] && data[4..12][4..] == data[8..12];
    hide Number;
    if Host16(data[0..2]) != MAGIC || data[2] > MAX_VERSION {
      input.ResetAll();
      failed := true;
      return;
    }
    var size := Host32(data[12..16]);
    if total < size || size < HEAD {
      failed := true;
      if total > DRAIN_ABOVE {
        input.DrainReading(total);
      }
      return;
    }
    msg := Some(Message(data[3], Whole(Host32(data[4..8]), Host32(data[8..12])), data[HEAD..size]));
    input.DrainReading(size);
  }

  /** What Connecting::DecodeMsg delivers, leaves unread, and returns. */
  datatype Drained = Drained(msgs: seq<Message>, left: seq<byte>, failed: bool)

  function DecodeAll(input: seq<byte>): Drained
    decreases |input|
  {
    var d := Decode(input);
    if d.failed || d.msg.None? then Drained([], d.left, d.failed)
    else
      var rest := DecodeAll(d.left);
      rest.(msgs := [d.msg.value] + rest.msgs)
  }

  /** One pass of the loop, when `msgs` have been delivered. */
  lemma DecodeAllStep(input: seq<byte>, msgs: seq<Message>)
    ensures var d := Decode(input);
      var all := DecodeAll(input).(msgs := msgs + DecodeAll(input).msgs);
      if d.failed || d.msg.None? then all == Drained(msgs, d.left, d.failed)
      else
        |d.left| < |input|
        && all == DecodeAll(d.left).(msgs := (msgs + [d.msg.value]) + DecodeAll(d.left).msgs)
  {
    DecodeShrinks(input);
    hide Decode;
    var d := Decode(input);
    if d.failed || d.msg.None? {
      assert msgs + [] == msgs;
    } else {
      assert msgs + ([d.msg.value] + DecodeAll(d.left).msgs) == (msgs + [d.msg.value]) + DecodeAll(d.left).msgs;
    }
  }

  /** Connecting::DecodeMsg: the loop that drains the input buffer. */
  method DecodeMsg(input: Buffer) returns (msgs: seq<Message>, failed: bool)
    requires input.Valid()
    modifies input
    ensures input.Valid() && Drained(msgs, input.Unread(), failed) == DecodeAll(old(input.Unread()))
  {
    hide Decode, DecodeAll;
    msgs := [];
    ghost var start := input.Unread();
    assert [] + DecodeAll(start).msgs == DecodeAll(start).msgs;
    while true
      invariant input.Valid() && input.store == old(input.store)
      invariant DecodeAll(start) == DecodeAll(input.Unread()).(msgs := msgs + DecodeAll(input.Unread()).msgs)
      decreases |input.Unread()|
    {
      DecodeAllStep(input.Unread(), msgs);
      var msg: Option<Message>;
      msg, failed := DecodeFrom(input);
      if failed || msg.None? {
        return;
      }
      msgs := msgs + [msg.value];
    }
  }

  lemma DecodeShrinks(input: seq<byte>)
    ensures var d := Decode(input); d.msg.Some? ==> |d.left| < |input| && !d.failed
  {
  }

  // ---------- streams ----------

  function Frames(ms: seq<Message>): seq<byte> {
    if ms == [] then [] else Frame(ms[0]) + Frames(ms[1..])
  }

  /** The fields of a frame that heads the input. */
  lemma FieldsOfFrame(m: Message, input: seq<byte>)
    requires Fits(m) && |input| >= HEAD && input[..HEAD] == Head(m)
    ensures Host16(input[0..2]) == MAGIC && input[2] == 0 && input[3] == m.command
    ensures Host32(input[4..8]) == High(m.sequenceId) && Host32(input[8..12]) == Low(m.sequenceId)
    ensures Host32(input[12..16]) == HEAD + |m.body|
  {
    hide Net16, Net32, Host16, Host32;
    var h := Head(m);
    assert input[0..2] == h[0..2] == Net16(MAGIC);
    assert input[2] == h[2] && input[3] == h[3];
    assert input[4..8] == h[4..8] == Net32(High(m.sequenceId));
    assert input[8..12] == h[8..12] == Net32(Low(m.sequenceId));
    assert input[12..16] == h[12..16] == Net32(HEAD + |m.body|);
    HostOfNet16(MAGIC);
    HostOfNet(High(m.sequenceId));
    HostOfNet(Low(m.sequenceId));
    HostOfNet(HEAD + |m.body|);
  }

  /** A frame is taken off the front as the message it was made of, sequence id included. */
  lemma FrameReadBack(m: Message, rest: seq<byte>)
    requires Fits(m)
    ensures Decode(Frame(m) + rest) == Decoded(Some(m), rest, false)
  {
    var input := Frame(m) + rest;
    assert input[..HEAD] == Head(m);
    FieldsOfFrame(m, input);
    HalvesJoin(m.sequenceId);
    hide Net16, Net32, Host16, Host32, Head, Whole, High, Low;
    assert input[HEAD..HEAD + |m.body|] == m.body && input[HEAD + |m.body|..] == rest;
  }

  /** A frame cut short waits quietly only until its header is complete; then Decode fails, although
      more may come, and keeps what it has up to 30 megabytes. */
  lemma FrameCut(m: Message, t: seq<byte>)
    requires Fits(m) && t <= Frame(m) && t != Frame(m)
    ensures Decode(t) == Decoded(None, if |t| > DRAIN_ABOVE then [] else t, |t| >= HEAD)
  {
    if |t| >= HEAD {
      assert t[..HEAD] == Frame(m)[..HEAD] == Head(m);
      FieldsOfFrame(m, t);
      assert |t| < |Frame(m)|;
    }
  }

  /** Stream framing: whole frames followed by a part of another are delivered as exactly those
      messages, in order; the part stays unread, and the loop fails exactly when the part holds a
      whole header. */
  lemma {:induction false} StreamReadBack(ms: seq<Message>, next: Message, t: seq<byte>)
    requires (forall i | 0 <= i < |ms| :: Fits(ms[i])) && Fits(next) && t <= Frame(next) && t != Frame(next)
    ensures DecodeAll(Frames(ms) + t) == Drained(ms, if |t| > DRAIN_ABOVE then [] else t, |t| >= HEAD)
    decreases |ms|
  {
    hide Decode, Frame;
    if ms == [] {
      assert Frames(ms) + t == t;
      FrameCut(next, t);
    } else {
      var rest := Frames(ms[1..]) + t;
      assert Frames(ms) + t == Frame(ms[0]) + rest;
      FrameReadBack(ms[0], rest);
      StreamReadBack(ms[1..], next, t);
    }
  }
}
