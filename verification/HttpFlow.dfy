/** The switch issues its commands in the order the marks rely on. */
module HttpFlow {
  import opened HttpTypes
  import opened HttpStep
  import opened HttpMarks

  /** What a step from a state with data `cur` pending tells the marks; the byte counter restarts
      with every chunk; and when execute returns early no data is pending. */
  predicate Flows(cur: Pending, s: Step) {
    s.p.errno.Ok? ==>
      Flow(cur, s.cmds, KindOf(s.p.state))
      && (s.p.state == OnChunkSize(ChunkSizeStart) ==> s.reset)
      && (s.leave ==> KindOf(s.p.state) == NoData)
  }

  lemma NewMessageQuiet(p: Parser)
    ensures KindOf(NewMessage(p)) == NoData && !NewMessage(p).OnChunkSize?
  {
  }

  lemma BodyStartFlows(p: Parser)
    ensures Flows(NoData, BodyStart(p))
  {
    NewMessageQuiet(p);
    hide NewMessage, NeedsEof;
  }

  lemma MessageEndFlows(p: Parser)
    ensures Flows(NoData, MessageEnd(p))
  {
    NewMessageQuiet(p);
    hide NewMessage;
  }

  lemma AfterFlows(c: Command, s: Step)
    requires Flows(NoData, s) && (c.Call? || c.Empty?)
    ensures Flows(NoData, After([c], s))
  {
    assert ([c] + s.cmds)[1..] == s.cmds;
  }

  lemma HeadersEndFlows(hc: HeadersCallback, p: Parser, ch: byte)
    ensures Flows(NoData, HeadersEnd(hc, p, ch)) || !p.errno.Ok?
  {
    var q := p.(state := OnHeader(HeadersDone),
                upgrade := (p.flags.upgrade && p.flags.connectionUpgrade) || p.verb == CONNECT);
    var q1 := q.(flags := q.flags.(skipBody := true));
    var q2 := q.(upgrade := true, flags := q.flags.(skipBody := true));
    MessageEndFlows(p.(state := MessageDone));
    BodyStartFlows(q);
    BodyStartFlows(q1);
    BodyStartFlows(q2);
    AfterFlows(Call(ChunkComplete), MessageEnd(p.(state := MessageDone)));
    AfterFlows(Call(HeadersComplete), BodyStart(q));
    AfterFlows(Call(HeadersComplete), BodyStart(q1));
    AfterFlows(Call(HeadersComplete), BodyStart(q2));
    hide BodyStart, MessageEnd, Flows, After;
    FailFlows(p, Strict);
    FailFlows(p, UnexpectedContentLength);
    FailFlows(q, CbHeadersComplete);
  }

  lemma FailFlows(p: Parser, e: Errno)
    requires !e.Ok?
    ensures Flows(NoData, Fail(p, e))
  {
  }

  lemma FieldStartFlows(hc: HeadersCallback, p: Parser, ch: byte)
    requires p.errno.Ok?
    ensures Flows(NoData, FieldStart(hc, p, ch))
  {
    HeadersEndFlows(hc, p.(state := OnHeader(HeadersAlmostDone)), ch);
    hide HeadersEnd;
  }

  lemma ValueStartFlows(p: Parser, ch: byte)
    requires p.errno.Ok?
    ensures Flows(NoData, ValueStart(p, ch))
  {
  }

  lemma HeaderFlows(hc: HeadersCallback, p: Parser, h: HeaderPlace, ch: byte)
    requires p.errno.Ok? && p.state == OnHeader(h) && p.state != FIELD && p.state != VALUE
    ensures Flows(NoData, HeaderByte(hc, p, h, ch))
  {
    var q := p.(flags := ValueFlags(p), state := OnHeader(HeaderFieldStart));
    FieldStartFlows(hc, p, ch);
    FieldStartFlows(hc, q, ch);
    AfterFlows(Empty(Value), FieldStart(hc, q, ch));
    HeadersEndFlows(hc, p, ch);
    ValueStartFlows(p, ch);
    MoveFlows(p, OnHeader(HeaderValueDiscardWs));
    MoveFlows(p, OnHeader(HeaderValueDiscardWsAlmostDone));
    MoveFlows(p, OnHeader(HeaderValueDiscardLws));
    MoveFlows(p, OnHeader(HeaderValueLws));
    FailFlows(p, LfExpected);
    FailFlows(p, Assertion);
    hide Flows, FieldStart, HeadersEnd, ValueFlags, After, ValueStart, FieldByte, ValueByte, Go, Fail, Expect;
    assert h.HeaderValueDiscardWs? ==> Stay(p) == Go(p, p.state) by { GoStays(p); }
  }

  lemma GoStays(p: Parser)
    ensures Stay(p) == Go(p, p.state)
  {
  }

  lemma MoveFlows(p: Parser, s: State)
    requires p.errno.Ok? && KindOf(s) == NoData && s != OnChunkSize(ChunkSizeStart)
    ensures Flows(NoData, Go(p, s)) && Flows(NoData, Expect(p, true, s)) && Flows(NoData, Expect(p, false, s))
  {
  }

  lemma UrlFlows(p: Parser, ch: byte)
    requires p.errno.Ok? && p.state.OnUrl?
    ensures Flows(Some(Url), UrlByte(p, p.state.u, ch))
  {
    hide UrlChar;
  }

  lemma RequestFlows(p: Parser, ch: byte)
    requires p.errno.Ok? && p.state.OnRequest?
    ensures Flows(NoData, RequestByte(p, p.state.q, ch))
  {
    hide UrlChar, UrlFirst, MethodString, OtherMethod;
  }

  lemma ResponseFlows(p: Parser, ch: byte)
    requires p.errno.Ok? && p.state.OnResponse?
    ensures Flows(KindOf(p.state), ResponseByte(p, p.state.r, ch))
  {
    var r := p.state.r;
    hide ResponseByte, Flows;
    if r.ResStatus? || r.ResStatusStart? {
      ReasonFlows(p, ch);
    } else if r.StartRes? || r.ResH? || r.ResHT? || r.ResHTT? || r.ResHTTP? || r.ResLineAlmostDone? {
      LetterFlows(p, ch);
    } else {
      NumberFlows(p, ch);
    }
  }

  lemma LetterFlows(p: Parser, ch: byte)
    requires p.errno.Ok? && p.state.OnResponse?
    requires var r := p.state.r; r.StartRes? || r.ResH? || r.ResHT? || r.ResHTT? || r.ResHTTP? || r.ResLineAlmostDone?
    ensures Flows(KindOf(p.state), ResponseByte(p, p.state.r, ch))
  {
    hide AddMajor, AddMinor, StatusCodeByte;
  }

  lemma ReasonFlows(p: Parser, ch: byte)
    requires p.errno.Ok? && (p.state == OnResponse(ResStatus) || p.state == OnResponse(ResStatusStart))
    ensures Flows(KindOf(p.state), ResponseByte(p, p.state.r, ch))
  {
  }

  lemma NumberFlows(p: Parser, ch: byte)
    requires p.errno.Ok? && p.state.OnResponse?
    requires var r := p.state.r;
      r.ResFirstHttpMajor? || r.ResHttpMajor? || r.ResFirstHttpMinor? || r.ResHttpMinor?
      || r.ResFirstStatusCode? || r.ResStatusCode?
    ensures Flows(KindOf(p.state), ResponseByte(p, p.state.r, ch))
  {
  }

  lemma ChunkSizeFlows(p: Parser, ch: byte)
    requires p.errno.Ok? && p.state.OnChunkSize?
    ensures Flows(NoData, ChunkSizeByte(p, p.state.c, ch))
  {
  }

  lemma ChunkTailFlows(p: Parser, ch: byte)
    requires p.errno.Ok? && (p.state == OnBody(ChunkDataAlmostDone) || p.state == OnBody(ChunkDataDone))
    ensures Flows(KindOf(p.state), BodyByte(p, p.state.b, ch))
  {
  }

  lemma StartFlows(p: Parser, ch: byte)
    requires p.errno.Ok? && p.state.StartReq?
    ensures Flows(NoData, StartRequest(p, ch))
  {
  }

  /** The states whose bytes the C code takes in bulk. */
  predicate Bulk(s: State) {
    s == FIELD || s == VALUE
    || s == OnBody(BodyIdentity) || s == OnBody(BodyIdentityEof) || s == OnBody(ChunkData)
  }

  lemma ByteFlows(hc: HeadersCallback, p: Parser, ch: byte)
    requires p.errno.Ok? && !Bulk(p.state)
    ensures Flows(KindOf(p.state), ByteStep(hc, p, ch))
  {
    hide UrlByte, RequestByte, ResponseByte, HeaderByte, ChunkSizeByte, BodyByte, StartRequest;
    match p.state
    case OnUrl(_) => UrlFlows(p, ch);
    case OnRequest(_) => RequestFlows(p, ch);
    case OnResponse(_) => ResponseFlows(p, ch);
    case OnHeader(h) => HeaderFlows(hc, p, h, ch);
    case OnChunkSize(_) => ChunkSizeFlows(p, ch);
    case OnBody(b) =>
      assert p.state != OnBody(BodyIdentity) && p.state != OnBody(BodyIdentityEof) && p.state != OnBody(ChunkData);
      assert b == ChunkDataAlmostDone || b == ChunkDataDone;
      ChunkTailFlows(p, ch);
    case StartReq => StartFlows(p, ch);
    case StartReqOrRes =>
      StartFlows(p.(flags := NO_FLAGS, contentLength := ULLONG_MAX, ptype := Request, state := StartReq), ch);
    case _ =>
  }
}
