/** The parser object and its one entry point, http_parser_execute. */
module HttpParser {
  import opened HttpTypes
  import opened HttpStep
  import opened HttpEvents
  import opened HttpScan
  import opened HttpInvariant
  import opened HttpLoops
  import opened HttpMarks
  import opened HttpFlow
  import opened HttpExecute

  class HttpParser {
    var rec: Parser
    var nread: nat

    /** http_parser_init. */
    constructor (t: ParserType)
      ensures rec == Init(t) && nread == 0 && Ready(rec, nread)
    {
      rec, nread := Init(t), 0;
      InitValid(t);
    }

    /** http_parser_execute on one slice; an empty slice signals the end of the stream. The callbacks
        are returned, those of on_headers_complete answered by `hc`. */
    method Execute(hc: HeadersCallback, data: seq<byte>) returns (n: nat, events: seq<Event>)
      requires Ready(rec, nread)
      modifies this
      ensures Ready(rec, nread)
      ensures var o := Exec(hc, old(rec), old(nread), data);
        rec.errno == o.x.p.errno
        && (rec.errno.Ok? ==>
              rec == o.x.p && nread == o.x.nread && n == o.used && Join(events) == Join(o.out))
    {
      hide Rest, Settled, Valid, Join, ScanRun, ScanEnd;
      n, events := 0, [];
      if !rec.errno.Ok? {
        return;
      }
      if data == [] {
        match rec.state {
          case OnBody(BodyIdentityEof) => events := [Notify(MessageComplete)];
          case Dead =>
          case StartReqOrRes =>
          case StartReq =>
          case OnResponse(StartRes) =>
          case _ =>
            rec := rec.(errno := InvalidEofState);
            n := 1;
        }
        return;
      }
      ExecIsRest(hc, rec, nread, data);
      var left: bool;
      ghost var out: seq<Event>;
      var marks: Marks;
      rec, nread, n, marks, events, left, out := Walk(hc, rec, nread, data);
      if rec.errno.Ok? && !left {
        var last := Flush(marks, data, KindOf(rec.state), events, out);
        events := events + last;
      }
    }
  }

  lemma ExecIsRest(hc: HeadersCallback, p: Parser, nread: nat, data: seq<byte>)
    requires p.errno.Ok? && data != []
    ensures Exec(hc, p, nread, data) == Rest(hc, Start(p, nread), data)
  {
    hide ScanRun, ScanEnd;
  }

  /** Between two passes of the for loop: `all` is what the whole slice amounts to. */
  ghost predicate Going(hc: HeadersCallback, all: Outcome, data: seq<byte>, rec: Parser, nread: nat, p: nat, marks: Marks,
                        events: seq<Event>, left: bool, out: seq<Event>) {
    p <= |data| && rec.errno.Ok? && Ready(rec, nread)
    && if left then Agree(all, Outcome(Start(rec, nread), out, p, true)) && Join(events) == Join(out)
       else Agree(all, Later(out, p, Rest(hc, Start(rec, nread), data[p..])))
            && Settled(events, marks, KindOf(rec.state), data, p, out)
  }

  /** A pass through the switch for one byte. */
  method BytePass(hc: HeadersCallback, ghost all: Outcome, rec0: Parser, nread0: nat, data: seq<byte>, p: nat, marks0: Marks,
                  events0: seq<Event>, ghost out0: seq<Event>)
    returns (rec: Parser, nread: nat, marks: Marks, events: seq<Event>, left: bool, ghost out: seq<Event>)
    requires p < |data| && Going(hc, all, data, rec0, nread0, p, marks0, events0, false, out0) && !Bulk(rec0.state)
    requires ParsingHeader(rec0.state) ==> nread0 + 1 <= MAX_HEADER
    ensures if rec.errno.Ok? then Going(hc, all, data, rec, nread, p + 1, marks, events, left, out)
      else all.x.p.errno == rec.errno
  {
    hide Rest, ByteStep, Deliver, Meanings, Valid, Join;
    nread := if ParsingHeader(rec0.state) then nread0 + 1 else nread0;
    assert rec0.state == OnChunkSize(ChunkSizeStart) ==> nread == 1;
    ByteReaches(hc, all, out0, rec0, nread0, data, p);
    ByteKeepsValid(hc, rec0, data[p]);
    ByteFlows(hc, rec0, data[p]);
    var s := ByteStep(hc, rec0, data[p]);
    rec, marks, events, left, out := s.p, marks0, events0, s.leave, out0;
    if rec.errno.Ok? {
      DeliverSettles(events, s.cmds, marks, KindOf(rec0.state), KindOf(s.p.state), data, p, out);
      var d := Deliver(s.cmds, marks, data, p);
      events, marks := events + d.events, d.marks;
      nread := if s.reset then 0 else nread;
      out := out + Meanings(s.cmds, data[p]);
      assert s.leave ==> events + [] == events;
    }
  }

  /** A header loop. */
  method LoopPass(hc: HeadersCallback, ghost all: Outcome, rec0: Parser, nread0: nat, data: seq<byte>, p0: nat, marks0: Marks,
                  events0: seq<Event>, ghost out0: seq<Event>)
    returns (rec: Parser, nread: nat, p: nat, marks: Marks, events: seq<Event>, ghost out: seq<Event>)
    requires p0 < |data| && Going(hc, all, data, rec0, nread0, p0, marks0, events0, false, out0)
    requires (rec0.state == FIELD || rec0.state == VALUE) && nread0 + 1 <= MAX_HEADER
    ensures p0 <= p <= |data|
    ensures if rec.errno.Ok? then p0 < p && Going(hc, all, data, rec, nread, p, marks, events, false, out)
      else all.x.p.errno == rec.errno
  {
    hide Rest, Settled, Valid, Join;
    var more: seq<Event>;
    ghost var outs: seq<Event>;
    if rec0.state == FIELD {
      rec, nread, p, marks, more, outs := FieldLoop(hc, rec0, nread0 + 1, data, p0, marks0, events0, out0);
    } else {
      rec, nread, p, marks, more, outs := ValueLoop(hc, rec0, nread0 + 1, data, p0, marks0, events0, out0);
    }
    LoopReaches(hc, all, out0, rec0, nread0, data, p0, outs, rec, nread, p);
    events, out := events0 + more, out0 + outs;
  }

  /** The bytes of a body. */
  method BodyPass(hc: HeadersCallback, ghost all: Outcome, rec0: Parser, ghost nread: nat, data: seq<byte>, p0: nat,
      marks0: Marks,
                  events0: seq<Event>, ghost out0: seq<Event>)
    returns (rec: Parser, p: nat, marks: Marks, events: seq<Event>, left: bool, ghost out: seq<Event>)
    requires p0 < |data| && Going(hc, all, data, rec0, nread, p0, marks0, events0, false, out0)
    requires rec0.state == OnBody(BodyIdentity) || rec0.state == OnBody(ChunkData) || rec0.state == OnBody(BodyIdentityEof)
    ensures p0 < p <= |data| && Going(hc, all, data, rec, nread, p, marks, events, left, out)
  {
    hide Rest, Settled, Valid, Join;
    var more: seq<Event>;
    ghost var outs: seq<Event>;
    rec, p, marks, more, left, outs := BodyBulk(hc, rec0, nread, data, p0, marks0, events0, out0);
    BodyReaches(hc, all, out0, rec0, nread, data, p0, outs, rec, p, left);
    events, out := events0 + more, out0 + outs;
  }

  /** The for loop: `p` bytes are consumed when it ends, by an error, by a message after which the
      stream is another protocol's, or by the end of the slice. */
  method Walk(hc: HeadersCallback, rec0: Parser, nread0: nat, data: seq<byte>)
    returns (rec: Parser, nread: nat, p: nat, marks: Marks, events: seq<Event>, left: bool, ghost out: seq<Event>)
    requires rec0.errno.Ok? && Ready(rec0, nread0) && data != []
    ensures Ready(rec, nread) && p <= |data|
    ensures var o := Rest(hc, Start(rec0, nread0), data);
      rec.errno == o.x.p.errno
      && (rec.errno.Ok? ==>
            o == Outcome(Start(rec, nread), out, p, left)
            && (if left then Join(events) == Join(out)
                else p == |data| && Settled(events, marks, KindOf(rec.state), data, p, out)))
  {
    hide Rest, Settled, Valid, ByteStep, Deliver, KindOf, Meanings, FirstMarks;
    ghost var all := Rest(hc, Start(rec0, nread0), data);
    rec, nread, p, marks, events, left, out := rec0, nread0, 0, FirstMarks(rec0.state), [], false, [];
    FirstSettled(rec.state, data);
    assert data[0..] == data && [] + all.out == all.out;
    while p < |data| && !left
      invariant Going(hc, all, data, rec, nread, p, marks, events, left, out)
      decreases |data| - p, !left
    {
      if ParsingHeader(rec.state) && nread + 1 > MAX_HEADER {
        if rec.state == FIELD || rec.state == VALUE {
          LoopOverflows(hc, all, out, rec, nread, data, p);
        } else {
          ByteReaches(hc, all, out, rec, nread, data, p);
        }
        rec := rec.(errno := HeaderOverflow);
        return;
      }
      if rec.state == FIELD || rec.state == VALUE {
        rec, nread, p, marks, events, out := LoopPass(hc, all, rec, nread, data, p, marks, events, out);
      } else if Bulk(rec.state) {
        rec, p, marks, events, left, out := BodyPass(hc, all, rec, nread, data, p, marks, events, out);
      } else {
        rec, nread, marks, events, left, out := BytePass(hc, all, rec, nread, data, p, marks, events, out);
        p := if rec.errno.Ok? then p + 1 else p;
      }
      if !rec.errno.Ok? {
        return;
      }
    }
    if !left {
      assert data[p..] == [];
      SliceOver(hc, rec, nread);
      assert out + [] == out;
    }
  }
}
