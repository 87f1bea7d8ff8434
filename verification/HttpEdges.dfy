/** Where messages and lines begin and end: line ends, the bytes between messages, the end of the stream,
    and what an error number says about where the parser stopped. */
module HttpEdges {
  import opened HttpTypes
  import opened HttpStep
  import opened HttpEvents
  import opened HttpScan
  import opened HttpSlicing
  import opened HttpLoops
  import opened HttpInvariant
  import HttpMethods
  import opened HttpNumbers
  import R = HttpResponse
  import opened HttpChunked

  // ---------- line ends ----------

  /** Where a line of the head may end. */
  predicate MayEndLine(s: State) {
    match s
    case OnUrl(u) => !(u.ReqSchema? || u.ReqSchemaSlash? || u.ReqSchemaSlashSlash? || u.ReqServerStart?)
    case OnRequest(q) => q.ReqHttpMinor?
    case OnResponse(r) => r.ResStatusCode? || r.ResStatusStart? || r.ResStatus?
    case OnHeader(h) =>
      h.HeaderValueDiscardWs? || h.HeaderValue? || h.HeaderFieldStart? || h.HeaderValueLws? || h.HeaderValueDiscardLws?
    case _ => false
  }

  /** A line feed alone ends a line of the head as a carriage return and a line feed do: the same fields,
      the same callbacks. */
  lemma BareLineFeed(hc: HeadersCallback, p: Parser)
    requires p.errno.Ok? && MayEndLine(p.state)
    ensures var cr := ByteStep(hc, p, CR);
      var crlf, lf := ByteStep(hc, cr.p, LF), ByteStep(hc, p, LF);
      cr.p.errno.Ok? && !cr.leave && lf == crlf.(cmds := lf.cmds) && lf.cmds == cr.cmds + crlf.cmds
  {
    hide NewMessage, ValueFlags;
    match p.state
    case OnHeader(h) => HeaderLineEnd(hc, p, h);
    case _ => hide HeadersEnd;
  }

  lemma HeaderLineEnd(hc: HeadersCallback, p: Parser, h: HeaderPlace)
    requires p.errno.Ok? && p.state == OnHeader(h) && MayEndLine(p.state)
    ensures var cr := HeaderByte(hc, p, h, CR);
      cr.p.state.OnHeader? && cr.p.errno.Ok? && !cr.leave
      && var crlf, lf := HeaderByte(hc, cr.p, cr.p.state.h, LF), HeaderByte(hc, p, h, LF);
        lf == crlf.(cmds := lf.cmds) && lf.cmds == cr.cmds + crlf.cmds
  {
    hide HeadersEnd, ValueFlags;
  }

  /** Inside the method, before the URL and before the version of a request, a line end is an error. */
  lemma NoLineEndElsewhere(hc: HeadersCallback, p: Parser)
    requires p.errno.Ok? && p.state.OnRequest? && !p.state.q.ReqHttpMinor? && !p.state.q.ReqLineAlmostDone?
    ensures !ByteStep(hc, p, CR).p.errno.Ok? && !ByteStep(hc, p, LF).p.errno.Ok?
  {
    NoLineEndInMethod(p, CR);
    NoLineEndInMethod(p, LF);
    hide MethodByte;
  }

  lemma NoLineEndInMethod(p: Parser, ch: byte)
    requires ch == CR || ch == LF
    ensures !MethodByte(p, ch).p.errno.Ok?
  {
    HttpMethods.LettersPrintable(p.verb);
    hide MethodString;
  }

  // ---------- between the parts of a first line ----------

  /** Before a URL, a version or a status code any number of spaces is passed over. */
  lemma {:induction false} SpacesPassed(hc: HeadersCallback, p: Parser, n: nat, max: int, d: seq<byte>)
    requires p.errno.Ok? && n + |d| <= max && forall i | 0 <= i < |d| :: d[i] == SP
    requires p.state in {OnRequest(ReqSpacesBeforeUrl), OnRequest(ReqHttpStart), OnResponse(ResFirstStatusCode)}
    ensures ExactRun(hc, p, n, max, d) == Exact(p, n + |d|, [], false)
    decreases |d|
  {
    if d == [] {
      ExactNone(hc, p, n, max);
    } else {
      assert Meanings([], SP) == [] && ByteStep(hc, p, SP) == Stay(p);
      hide ExactRun, ByteStep;
      ExactStep(hc, p, n, max, d);
      SpacesPassed(hc, p, n + 1, max, d[1..]);
    }
  }

  /** A status code at the end of its line is read like one with a space and nothing after it. */
  lemma ReasonMissing(hc: HeadersCallback, p: Parser, n: nat, max: int)
    requires p.errno.Ok? && p.state == OnResponse(ResStatusCode) && n + 3 <= max
    ensures var e, f := ExactRun(hc, p, n, max, CRLF), ExactRun(hc, p, n, max, [SP] + CRLF);
      e == Exact(p.(state := OnHeader(HeaderFieldStart)), n + 2, [], false) && f == e.(n := n + 3)
  {
    var q, s := p.(state := OnResponse(ResLineAlmostDone)), p.(state := OnResponse(ResStatusStart));
    LineEndMoves(hc, p);
    hide ExactRun, Moves;
    MoveRun(hc, p, n, max, SP, s.state);
    MoveRun(hc, p, n, max, CR, q.state);
    MoveRun(hc, s, n + 1, max, CR, q.state);
    MoveRun(hc, q, n + 1, max, LF, OnHeader(HeaderFieldStart));
    MoveRun(hc, q, n + 2, max, LF, OnHeader(HeaderFieldStart));
    assert CRLF == [CR] + [LF];
    ExactRunAppend(hc, p, n, max, [CR], [LF]);
    ExactRunAppend(hc, s, n + 1, max, [CR], [LF]);
    ExactRunAppend(hc, p, n, max, [SP], CRLF);
  }

  lemma LineEndMoves(hc: HeadersCallback, p: Parser)
    requires p.errno.Ok?
    ensures p.state == OnResponse(ResStatusCode) ==> Moves(hc, p, SP, OnResponse(ResStatusStart))
    ensures p.state == OnResponse(ResStatusCode) ==> Moves(hc, p, CR, OnResponse(ResLineAlmostDone))
    ensures Moves(hc, p.(state := OnResponse(ResStatusStart)), CR, OnResponse(ResLineAlmostDone))
    ensures Moves(hc, p.(state := OnResponse(ResLineAlmostDone)), LF, OnHeader(HeaderFieldStart))
  {
    hide UrlByte, HeaderByte, BodyByte, ChunkSizeByte, StartRequest, RequestByte;
  }

  // ---------- what is refused between the parts of a message ----------

  /** A carriage return has been read. */
  predicate AfterCr(s: State) {
    s in {OnRequest(ReqLineAlmostDone), OnResponse(ResLineAlmostDone), OnHeader(HeaderAlmostDone),
          OnHeader(HeaderValueDiscardWsAlmostDone), OnHeader(HeadersAlmostDone), OnChunkSize(ChunkSizeAlmostDone),
          OnBody(ChunkDataDone)}
  }

  /** After a carriage return nothing but a line feed is accepted, and after the data of a chunk nothing
      but a carriage return. */
  lemma LineFeedOnly(hc: HeadersCallback, p: Parser, ch: byte)
    requires p.errno.Ok?
    ensures AfterCr(p.state) && ch != LF ==> !ByteStep(hc, p, ch).p.errno.Ok?
    ensures p.state == OnBody(ChunkDataAlmostDone) && ch != CR ==> !ByteStep(hc, p, ch).p.errno.Ok?
  {
    hide UrlByte, StartRequest, MethodByte, FieldStart, FieldByte, ValueStart, ValueByte, StatusCodeByte, AddMajor, AddMinor;
  }

  /** Before the first letter of the protocol name, after the `k`-th one, in a request and in a response. */
  predicate AtLetter(s: State, k: nat) {
    s == OnRequest(HttpNumbers.NameState(k)) || (k > 0 && s == OnResponse(R.NameState(k)))
  }

  /** Of the protocol name only the next letter is accepted; spaces may stand before it. */
  lemma LetterOnly(hc: HeadersCallback, p: Parser, k: nat, ch: byte)
    requires p.errno.Ok? && k < 5 && AtLetter(p.state, k) && ch != NAME[k] && (k == 0 ==> ch != SP)
    ensures !ByteStep(hc, p, ch).p.errno.Ok?
  {
    hide UrlByte, StartRequest, MethodByte, HeaderByte, BodyByte, ChunkSizeByte, StatusCodeByte, AddMajor, AddMinor;
  }

  /** The byte that may end a number. */
  predicate EndsNumber(k: Kind, ch: byte) {
    match k
    case RequestMajor => ch == '.' as int
    case ResponseMajor => ch == '.' as int
    case RequestMinor => LineEnd(ch)
    case ResponseMinor => ch == SP
    case StatusCode => ch == SP || LineEnd(ch)
  }

  /** In a version or a status code only digits are accepted, and what ends it; a request's major version
      does not begin with a zero. */
  lemma DigitOnly(hc: HeadersCallback, p: Parser, k: Kind, ch: byte)
    requires p.errno.Ok? && !IsNum(ch)
    ensures p.state == BeforeDigits(k) && !(k.StatusCode? && ch == SP) ==> !ByteStep(hc, p, ch).p.errno.Ok?
    ensures p.state == InDigits(k) && !EndsNumber(k, ch) ==> !ByteStep(hc, p, ch).p.errno.Ok?
    ensures p.state == BeforeDigits(RequestMajor) ==> !ByteStep(hc, p, '0' as int).p.errno.Ok?
  {
    hide UrlByte, StartRequest, MethodByte, HeaderByte, BodyByte, ChunkSizeByte;
  }

  // ---------- between messages ----------

  predicate OnlyLineEnds(d: seq<byte>) { forall i | 0 <= i < |d| :: d[i] == CR || d[i] == LF }

  /** A connection that serves requests, or has not decided, skips line ends before a message. */
  lemma {:induction false} LineEndsSkipped(hc: HeadersCallback, p: Parser, n: nat, max: int, d: seq<byte>)
    requires p.errno.Ok? && (p.state == StartReq || p.state == StartReqOrRes) && OnlyLineEnds(d) && n + |d| <= max
    ensures ExactRun(hc, p, n, max, d) == Exact(p, n + |d|, [], false)
    decreases |d|
  {
    hide ExactRun, UrlByte, HeaderByte, RequestByte, ResponseByte, BodyByte, ChunkSizeByte;
    if d == [] {
      ExactNone(hc, p, n, max);
    } else {
      assert Meanings([], d[0]) == [];
      ExactStep(hc, p, n, max, d);
      LineEndsSkipped(hc, p, n + 1, max, d[1..]);
    }
  }

  /** After a message that does not keep the connection, line ends are skipped and anything else is an
      error of its own. */
  lemma {:induction false} NothingAfterLast(hc: HeadersCallback, p: Parser, n: nat, max: int, d: seq<byte>)
    requires p.errno.Ok? && p.state == Dead && n + |d| <= max
    ensures var e := ExactRun(hc, p, n, max, d);
      if OnlyLineEnds(d) then e == Exact(p, n + |d|, [], false) else e.p.errno == ClosedConnection
    decreases |d|
  {
    hide ExactRun, UrlByte, HeaderByte, RequestByte, ResponseByte, BodyByte, ChunkSizeByte, StartRequest;
    if d == [] {
      ExactNone(hc, p, n, max);
    } else {
      assert Meanings([], d[0]) == [];
      assert forall i | 0 < i < |d| :: d[i] == d[1..][i - 1];
      ExactStep(hc, p, n, max, d);
      if d[0] == CR || d[0] == LF {
        NothingAfterLast(hc, p, n + 1, max, d[1..]);
      }
    }
  }

  /** A client announces a message for every line end before a response. */
  lemma {:induction false} LineEndsAnnounced(hc: HeadersCallback, p: Parser, n: nat, max: int, d: seq<byte>)
    requires p.errno.Ok? && p.state == OnResponse(StartRes) && OnlyLineEnds(d) && n + |d| <= max
    ensures var e := ExactRun(hc, p, n, max, d);
      e.Good() && e.p == (if d == [] then p else p.(flags := NO_FLAGS, contentLength := ULLONG_MAX))
      && e.out == seq(|d|, i => Notify(MessageBegin))
    decreases |d|
  {
    hide ExactRun, UrlByte, HeaderByte, RequestByte, BodyByte, ChunkSizeByte, StartRequest;
    if d == [] {
      ExactNone(hc, p, n, max);
    } else {
      var q := p.(flags := NO_FLAGS, contentLength := ULLONG_MAX);
      assert Meanings([Call(MessageBegin)], d[0]) == [Notify(MessageBegin)];
      ExactStep(hc, p, n, max, d);
      LineEndsAnnounced(hc, q, n + 1, max, d[1..]);
      assert seq(|d|, i => Notify(MessageBegin)) == [Notify(MessageBegin)] + seq(|d| - 1, i => Notify(MessageBegin));
    }
  }

  // ---------- the end of the stream ----------

  /** The end of the stream is accepted exactly between messages and in a body that lasts until then,
      which it completes; elsewhere it is an error. */
  lemma EndAccepted(hc: HeadersCallback, p: Parser, nread: nat)
    requires p.errno.Ok?
    ensures var o := Exec(hc, p, nread, []);
      var between := p.state in {Dead, StartReq, StartReqOrRes, OnResponse(StartRes)};
      var lasting := p.state == OnBody(BodyIdentityEof);
      (o.Good() <==> between || lasting) && o.out == (if lasting then [Notify(MessageComplete)] else [])
      && o.x.p == (if between || lasting then p else p.(errno := InvalidEofState)) && o.x.nread == nread
  {
  }

  // ---------- errors ----------

  /** The errors that a byte can cause in each part of a message. */
  predicate ErrorFits(p: Parser, e: Errno) {
    match p.state
    case Dead => e.ClosedConnection?
    case StartReqOrRes => e.InvalidMethod?
    case ResOrRespH => e.InvalidConstant?
    case StartReq => e.InvalidMethod?
    case OnUrl(_) => e.InvalidUrl?
    case OnRequest(q) =>
      (match q
       case ReqMethod => e.InvalidMethod?
       case ReqSpacesBeforeUrl => e.InvalidUrl?
       case ReqHttpStart => e.InvalidConstant?
       case ReqLineAlmostDone => e.LfExpected?
       case ReqFirstHttpMajor => e.InvalidVersion?
       case ReqHttpMajor => e.InvalidVersion?
       case ReqFirstHttpMinor => e.InvalidVersion?
       case ReqHttpMinor => e.InvalidVersion?
       case _ => e.Strict?)
    case OnResponse(r) =>
      (match r
       case StartRes => e.InvalidConstant?
       case ResFirstHttpMajor => e.InvalidVersion?
       case ResHttpMajor => e.InvalidVersion?
       case ResFirstHttpMinor => e.InvalidVersion?
       case ResHttpMinor => e.InvalidVersion?
       case ResFirstStatusCode => e.InvalidStatus?
       case ResStatusCode => e.InvalidStatus?
       case _ => e.Strict?)
    case OnHeader(h) =>
      (match h
       case HeaderAlmostDone => e.LfExpected?
       case HeaderValueDiscardWsAlmostDone => e.Strict?
       case HeaderValue => if p.hs.HContentLength? then e.InvalidContentLength? || e.InvalidHeaderToken?
           else e.InvalidHeaderToken?
       case HeaderValueDiscardWs => p.hs.HContentLength? && (e.InvalidContentLength? || e.UnexpectedContentLength?)
       case HeaderField => e.InvalidHeaderToken?
       case HeadersAlmostDone => e.Strict? || e.UnexpectedContentLength? || e.CbHeadersComplete?
       case _ => e.InvalidHeaderToken? || e.UnexpectedContentLength? || e.CbHeadersComplete? || e.InvalidContentLength?)
    case OnChunkSize(c) =>
      (match c
       case ChunkSizeAlmostDone => e.Strict?
       case _ => e.InvalidChunkSize? || e.InvalidContentLength?)
    case OnBody(_) => e.Strict?
    case MessageDone => false
  }

  /** The error `s` reports, if any, fits the place, and no callback is made but that of an empty value. */
  predicate Explained(p: Parser, s: Step) {
    !s.p.errno.Ok? ==> ErrorFits(p, s.p.errno) && (s.cmds == [] || s.cmds == [Empty(Value)])
  }

  /** In any state a run can reach, the error that a byte causes is one that fits the place. */
  lemma ErrorNamesPlace(hc: HeadersCallback, p: Parser, ch: byte)
    requires Valid(p) && p.errno.Ok?
    ensures Explained(p, ByteStep(hc, p, ch))
  {
    ByteKeepsValid(hc, p, ch);
    NoAssertion(ByteStep(hc, p, ch));
    hide UrlByte, HeaderByte, RequestByte, ResponseByte, BodyByte, ChunkSizeByte, StartRequest, Explained, Valid, Keeps;
    match p.state
    case OnUrl(u) => UrlError(p, u, ch);
    case OnRequest(q) => RequestError(p, q, ch);
    case OnResponse(r) => ResponseError(p, r, ch);
    case OnHeader(h) => HeaderError(hc, p, h, ch);
    case OnChunkSize(c) => ChunkError(p, c, ch);
    case OnBody(b) => BodyError(p, b, ch);
    case _ => EdgeError(hc, p, ch);
  }

  lemma NoAssertion(s: Step)
    requires Keeps(s)
    ensures !s.p.errno.Assertion?
  {
    hide Valid;
  }

  lemma EdgeError(hc: HeadersCallback, p: Parser, ch: byte)
    requires p.errno.Ok? && p.state in {Dead, StartReqOrRes, ResOrRespH, StartReq, MessageDone}
    ensures ByteStep(hc, p, ch).p.errno.Assertion? || Explained(p, ByteStep(hc, p, ch))
  {
    hide UrlByte, HeaderByte, RequestByte, ResponseByte, BodyByte, ChunkSizeByte;
  }

  lemma UrlError(p: Parser, u: UrlState, ch: byte)
    requires p.errno.Ok? && p.state == OnUrl(u)
    ensures Explained(p, UrlByte(p, u, ch))
  {
  }

  lemma RequestError(p: Parser, q: RequestState, ch: byte)
    requires p.errno.Ok? && p.state == OnRequest(q)
    ensures RequestByte(p, q, ch).p.errno.Assertion? || Explained(p, RequestByte(p, q, ch))
  {
    MethodError(p, ch);
    hide MethodByte;
  }

  lemma MethodError(p: Parser, ch: byte)
    requires p.errno.Ok?
    ensures var s := MethodByte(p, ch); !s.p.errno.Ok? && !s.p.errno.Assertion? ==> s.p.errno.InvalidMethod? && s.cmds == []
  {
    hide MethodString, OtherMethod;
  }

  lemma ResponseError(p: Parser, r: ResponseState, ch: byte)
    requires p.errno.Ok? && p.state == OnResponse(r)
    ensures Explained(p, ResponseByte(p, r, ch))
  {
  }

  lemma HeadersEndError(hc: HeadersCallback, p: Parser, ch: byte)
    requires p.errno.Ok?
    ensures var s := HeadersEnd(hc, p, ch);
      !s.p.errno.Ok? ==>
        (s.p.errno.UnexpectedContentLength? || s.p.errno.CbHeadersComplete? || (ch != LF && s.p.errno.Strict?))
        && s.cmds == []
  {
    hide NewMessage;
  }

  lemma FieldStartError(hc: HeadersCallback, p: Parser, ch: byte)
    requires p.errno.Ok?
    ensures var s := FieldStart(hc, p, ch);
      !s.p.errno.Ok? ==>
        (s.p.errno.InvalidHeaderToken? || s.p.errno.UnexpectedContentLength? || s.p.errno.CbHeadersComplete?) && s.cmds == []
  {
    HeadersEndError(hc, p.(state := OnHeader(HeadersAlmostDone)), ch);
    hide HeadersEnd;
  }

  lemma ValueStartError(p: Parser, ch: byte)
    requires p.errno.Ok?
    ensures var s := ValueStart(p, ch);
      !s.p.errno.Ok? ==>
        p.hs.HContentLength? && (s.p.errno.InvalidContentLength? || s.p.errno.UnexpectedContentLength?) && s.cmds == []
  {
  }

  lemma ValueError(p: Parser, ch: byte)
    requires p.errno.Ok? && p.state == VALUE
    ensures ValueByte(p, ch).p.errno.Assertion? || Explained(p, ValueByte(p, ch))
  {
  }

  lemma FieldError(p: Parser, ch: byte)
    requires p.errno.Ok? && p.state == FIELD
    ensures FieldByte(p, ch).p.errno.Assertion? || Explained(p, FieldByte(p, ch))
  {
    hide Token;
  }

  lemma HeaderError(hc: HeadersCallback, p: Parser, h: HeaderPlace, ch: byte)
    requires p.errno.Ok? && p.state == OnHeader(h)
    ensures HeaderByte(hc, p, h, ch).p.errno.Assertion? || Explained(p, HeaderByte(hc, p, h, ch))
  {
    var settled := p.(flags := ValueFlags(p), state := OnHeader(HeaderFieldStart));
    FieldStartError(hc, p, ch);
    FieldStartError(hc, settled, ch);
    HeadersEndError(hc, p, ch);
    ValueStartError(p, ch);
    if h.HeaderValue? {
      ValueError(p, ch);
    } else if h.HeaderField? {
      FieldError(p, ch);
    }
    hide FieldStart, HeadersEnd, ValueFlags, ValueStart, ValueByte, FieldByte;
  }

  lemma ChunkError(p: Parser, c: ChunkSizeState, ch: byte)
    requires p.errno.Ok? && p.state == OnChunkSize(c)
    ensures ChunkSizeByte(p, c, ch).p.errno.Assertion? || Explained(p, ChunkSizeByte(p, c, ch))
  {
  }

  lemma BodyError(p: Parser, b: BodyState, ch: byte)
    requires p.errno.Ok? && p.state == OnBody(b)
    ensures BodyByte(p, b, ch).p.errno.Assertion? || Explained(p, BodyByte(p, b, ch))
  {
    hide NewMessage;
  }
}
