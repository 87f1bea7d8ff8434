/** The invariant behind the asserts of http_parser_execute: no byte can make one of them fail. */
module HttpInvariant {
  import opened HttpTypes
  import opened HttpStep

  /** header_state values possible inside a header name. */
  predicate NameState(hs: HeaderState) {
    hs.General? || hs.HC? || hs.HCO? || hs.HCON? || hs.MatchingConnection? || hs.MatchingProxyConnection?
    || hs.MatchingContentLength? || hs.MatchingTransferEncoding? || hs.MatchingUpgrade?
    || hs.HConnection? || hs.HContentLength? || hs.HTransferEncoding? || hs.HUpgrade?
  }

  /** header_state values possible inside a header value. */
  predicate ValueState(hs: HeaderState) {
    !(hs.HConnection? || hs.HTransferEncoding? || hs.HUpgrade? || hs.HC? || hs.HCO? || hs.HCON?
      || hs.MatchingConnection? || hs.MatchingProxyConnection? || hs.MatchingContentLength?
      || hs.MatchingTransferEncoding? || hs.MatchingUpgrade?)
  }

  /** How far a comparison may have got in a header name, in a value, in a method. */
  predicate NameFits(p: Parser) {
    NameState(p.hs) && p.index <= 17
    && (p.hs.HC? ==> p.index == 0) && (p.hs.HCO? ==> p.index == 1) && (p.hs.HCON? ==> p.index == 2)
    && (|Matcher(p.hs)| > 0 ==> p.index < |Matcher(p.hs)| - 1)
  }

  predicate ValueFits(p: Parser) {
    ValueState(p.hs) && p.index <= 17
    && (p.hs.MatchingConnectionTokenStart? ==> p.index == 0)
    && (|Matcher(p.hs)| > 0 ==> p.index < |Matcher(p.hs)| - 1)
    && (p.hs.HContentLength? ==> p.contentLength < ULLONG_MAX)
  }

  predicate MethodFits(p: Parser) { p.index <= |MethodString(p.verb)| }

  predicate BodyFits(p: Parser, b: BodyState) {
    match b
    case BodyIdentity => 0 < p.contentLength < ULLONG_MAX
    case BodyIdentityEof => true
    case ChunkData => p.flags.chunked && 0 < p.contentLength < ULLONG_MAX
    case ChunkDataAlmostDone => p.flags.chunked && p.contentLength == 0
    case ChunkDataDone => p.flags.chunked
  }

  predicate PlaceFits(p: Parser) {
    match p.state
    case OnRequest(q) => q.ReqMethod? ==> MethodFits(p)
    case OnHeader(h) =>
      !h.HeadersDone? && (h.HeaderField? ==> NameFits(p)) && (h.HeaderValue? ==> ValueFits(p))
    case OnChunkSize(c) => p.flags.chunked && (c.ChunkSizeStart? || p.contentLength < ULLONG_MAX)
    case OnBody(b) => BodyFits(p, b)
    case MessageDone => false
    case _ => true
  }

  predicate Bounded(p: Parser) {
    p.errno != Assertion && p.index < 128 && p.contentLength <= ULLONG_MAX
    && p.major <= 999 && p.minor <= 999 && p.status <= 999
  }

  /** What holds of the record between bytes, as long as no error was reported. */
  predicate Valid(p: Parser) {
    Bounded(p) && PlaceFits(p)
  }

  /** A step that reports no failed assert and, unless it reports an error, leaves a valid record. */
  predicate Keeps(s: Step) {
    s.p.errno != Assertion && (s.p.errno == Ok ==> Valid(s.p))
  }

  lemma InitValid(t: ParserType)
    ensures Valid(Init(t))
  {
  }

  lemma OtherMethodFits(m: Method, i: nat, c: char)
    ensures var r := OtherMethod(m, i, c); r.Picked? ==> i + 1 <= |MethodString(r.m)|
  {
    var r := OtherMethod(m, i, c);
    if r.Picked? {
      assert r.m == PROPPATCH || r.m == MKCALENDAR || r.m == UNLINK || i <= 2;
    }
  }

  lemma MethodKeeps(p: Parser, ch: byte)
    requires Valid(p) && p.state == OnRequest(ReqMethod) && p.errno == Ok
    ensures Keeps(MethodByte(p, ch))
  {
    if IsAlpha(ch) {
      OtherMethodFits(p.verb, p.index, ch as char);
    }
  }

  lemma MessageEndKeeps(p: Parser)
    requires Bounded(p)
    ensures Keeps(MessageEnd(p))
  {
  }

  lemma BodyStartKeeps(p: Parser)
    requires Bounded(p)
    ensures Keeps(BodyStart(p))
  {
  }

  lemma HeadersEndKeeps(hc: HeadersCallback, p: Parser, ch: byte)
    requires Bounded(p) && p.errno == Ok
    ensures Keeps(HeadersEnd(hc, p, ch))
  {
    hide BodyStart, MessageEnd, PlaceFits;
    MessageEndKeeps(p.(state := MessageDone));
    var q := p.(state := OnHeader(HeadersDone),
                upgrade := (p.flags.upgrade && p.flags.connectionUpgrade) || p.verb == CONNECT);
    BodyStartKeeps(q);
    BodyStartKeeps(q.(flags := q.flags.(skipBody := true)));
    BodyStartKeeps(q.(upgrade := true, flags := q.flags.(skipBody := true)));
  }

  lemma FieldStartKeeps(hc: HeadersCallback, p: Parser, ch: byte)
    requires Bounded(p) && p.errno == Ok
    ensures Keeps(FieldStart(hc, p, ch))
  {
    if ch == LF {
      HeadersEndKeeps(hc, p.(state := OnHeader(HeadersAlmostDone)), ch);
    }
  }

  lemma MatchersLong()
    ensures forall hs :: |Matcher(hs)| == 0 || 5 <= |Matcher(hs)| <= 17
  {
  }

  lemma MatchingKeeps(p: Parser, c: byte, done: HeaderState, fail: HeaderState)
    requires |Matcher(p.hs)| > 0 && p.index < |Matcher(p.hs)| - 1 && |Matcher(done)| == |Matcher(fail)| == 0
    ensures var q := Matching(p, c, done, fail);
      q == p.(index := q.index, hs := q.hs) && q.index <= 17
      && (q.hs == done || q.hs == fail || (q.hs == p.hs && q.index < |Matcher(p.hs)| - 1))
  {
    MatchersLong();
    hide Matcher;
  }

  /** The four comparisons inside a value. */
  lemma ValueMatchingKeeps(p: Parser, ch: byte)
    requires Bounded(p) && ValueFits(p) && |Matcher(p.hs)| > 0
    ensures var q := ValueChar(p, ch);
      ValueFits(q) && q == p.(index := q.index, hs := q.hs)
  {
    var c := Lower(ch);
    match p.hs
    case MatchingTransferEncodingChunked => MatchingKeeps(p, c, TransferEncodingChunked, General);
    case MatchingConnectionKeepAlive => MatchingKeeps(p, c, ConnectionKeepAlive, MatchingConnectionToken);
    case MatchingConnectionClose => MatchingKeeps(p, c, ConnectionClose, MatchingConnectionToken);
    case MatchingConnectionUpgrade => MatchingKeeps(p, c, ConnectionUpgrade, MatchingConnectionToken);
  }

  lemma LengthKeeps(p: Parser, ch: byte)
    requires Bounded(p) && ValueFits(p) && p.hs.HContentLength?
    ensures var q := ValueChar(p, ch);
      q.errno != Assertion && (q.errno == Ok ==> Bounded(q) && ValueFits(q)) && q.state == p.state
  {
    hide Matching, TokenEnd, ConnectionToken;
  }

  lemma TokenKeeps(p: Parser, ch: byte)
    requires Bounded(p) && ValueFits(p) && |Matcher(p.hs)| == 0 && !p.hs.HContentLength?
    ensures var q := ValueChar(p, ch);
      q.errno == p.errno && ValueFits(q) && q == p.(index := q.index, hs := q.hs, flags := q.flags)
  {
    hide Matching, TokenFlags;
  }

  lemma ValueOtherKeeps(p: Parser, ch: byte)
    requires Bounded(p) && ValueFits(p) && |Matcher(p.hs)| == 0
    ensures var q := ValueChar(p, ch);
      q.errno != Assertion && (q.errno == Ok ==> Bounded(q) && ValueFits(q)) && q.state == p.state
  {
    if p.hs.HContentLength? {
      LengthKeeps(p, ch);
    } else {
      TokenKeeps(p, ch);
    }
    hide ValueChar;
  }

  lemma ValueKeeps(p: Parser, ch: byte)
    requires Valid(p) && p.errno == Ok && p.state == VALUE
    ensures Keeps(ValueByte(p, ch))
  {
    if |Matcher(p.hs)| > 0 {
      ValueMatchingKeeps(p, ch);
    } else {
      ValueOtherKeeps(p, ch);
    }
  }

  lemma ValueStartKeeps(p: Parser, ch: byte)
    requires Bounded(p) && p.errno == Ok
    ensures Keeps(ValueStart(p, ch))
  {
    MatchersLong();
    hide NameFits, MethodFits, BodyFits, Matcher;
  }

  lemma FieldMatchingKeeps(p: Parser, ch: byte, c: byte)
    requires NameFits(p) && |Matcher(p.hs)| > 0
    ensures var q := FieldChar(p, ch, c);
      NameFits(q) && q == p.(index := q.index, hs := q.hs)
  {
    match p.hs
    case MatchingConnection => MatchingKeeps(p, c, HConnection, General);
    case MatchingProxyConnection => MatchingKeeps(p, c, HConnection, General);
    case MatchingContentLength => MatchingKeeps(p, c, HContentLength, General);
    case MatchingTransferEncoding => MatchingKeeps(p, c, HTransferEncoding, General);
    case MatchingUpgrade => MatchingKeeps(p, c, HUpgrade, General);
  }

  lemma FieldOtherKeeps(p: Parser, ch: byte, c: byte)
    requires NameFits(p) && |Matcher(p.hs)| == 0
    ensures var q := FieldChar(p, ch, c);
      NameFits(q) && q == p.(index := q.index, hs := q.hs)
  {
  }

  /** A byte of a header name changes only the comparison, and never trips "Unknown header_state". */
  lemma FieldCharKeeps(p: Parser, ch: byte, c: byte)
    requires NameFits(p)
    ensures var q := FieldChar(p, ch, c);
      NameFits(q) && q == p.(index := q.index, hs := q.hs)
    ensures FieldChar(p, ch, c).index <= 17
  {
    if |Matcher(p.hs)| > 0 {
      FieldMatchingKeeps(p, ch, c);
    } else {
      FieldOtherKeeps(p, ch, c);
    }
  }

  lemma FieldKeeps(p: Parser, ch: byte)
    requires Valid(p) && p.errno == Ok && p.state == FIELD
    ensures Keeps(FieldByte(p, ch))
  {
    FieldCharKeeps(p, ch, Token(ch));
  }

  lemma HeaderKeeps(hc: HeadersCallback, p: Parser, ch: byte)
    requires Valid(p) && p.errno == Ok && p.state.OnHeader?
    ensures Keeps(HeaderByte(hc, p, p.state.h, ch))
  {
    hide FieldStart, HeadersEnd, ValueStart, ValueByte, FieldByte;
    match p.state.h
    case HeaderFieldStart => FieldStartKeeps(hc, p, ch);
    case HeaderField => FieldKeeps(p, ch);
    case HeaderValueDiscardWs => ValueStartKeeps(p, ch);
    case HeaderValueStart => ValueStartKeeps(p, ch);
    case HeaderValue => ValueKeeps(p, ch);
    case HeaderValueLws =>
      ValueStartKeeps(p, ch);
      FieldStartKeeps(hc, p.(flags := ValueFlags(p), state := OnHeader(HeaderFieldStart)), ch);
    case HeaderValueDiscardLws =>
      FieldStartKeeps(hc, p.(flags := ValueFlags(p), state := OnHeader(HeaderFieldStart)), ch);
    case HeadersAlmostDone => HeadersEndKeeps(hc, p, ch);
    case _ =>
  }

  lemma UrlKeeps(p: Parser, ch: byte)
    requires Valid(p) && p.errno == Ok && p.state.OnUrl?
    ensures Keeps(UrlByte(p, p.state.u, ch))
  {
  }

  lemma BeginKeeps(p: Parser, m: Method)
    requires Bounded(p) && p.index <= 3
    ensures Keeps(Begin(p, m))
  {
    hide MethodString;
  }

  lemma StartRequestKeeps(p: Parser, ch: byte)
    requires Bounded(p) && p.errno == Ok && p.state.StartReq?
    ensures Keeps(StartRequest(p, ch))
  {
    var q := p.(flags := NO_FLAGS, contentLength := ULLONG_MAX, index := 1);
    forall m: Method ensures Keeps(Begin(q, m)) {
      BeginKeeps(q, m);
    }
    hide Begin, MethodFits, NameFits, ValueFits, BodyFits;
  }

  lemma RequestLineKeeps(p: Parser, q: RequestState, ch: byte)
    requires Bounded(p) && p.errno == Ok && p.state == OnRequest(q) && !q.ReqMethod?
    ensures var s := RequestByte(p, q, ch).p;
      s.errno != Assertion && (s.errno == Ok ==> Bounded(s))
    ensures var s := RequestByte(p, q, ch).p.state;
      (s.OnRequest? && !s.q.ReqMethod?) || s.OnUrl? || s.Dead? || s == OnHeader(HeaderFieldStart)
  {
  }

  lemma RequestKeeps(p: Parser, ch: byte)
    requires Valid(p) && p.errno == Ok && p.state.OnRequest?
    ensures Keeps(RequestByte(p, p.state.q, ch))
  {
    if p.state.q.ReqMethod? {
      MethodKeeps(p, ch);
    } else {
      RequestLineKeeps(p, p.state.q, ch);
    }
  }

  lemma ResponseBounded(p: Parser, r: ResponseState, ch: byte)
    requires Bounded(p) && p.errno == Ok
    ensures var s := ResponseByte(p, r, ch).p;
      s.errno != Assertion && (s.errno == Ok ==> Bounded(s))
  {
  }

  lemma ResponseStays(p: Parser, r: ResponseState, ch: byte)
    requires p.state == OnResponse(r)
    ensures var s := ResponseByte(p, r, ch).p.state;
      s.OnResponse? || s == OnHeader(HeaderFieldStart)
  {
  }

  lemma ResponseKeeps(p: Parser, ch: byte)
    requires Valid(p) && p.errno == Ok && p.state.OnResponse?
    ensures Keeps(ResponseByte(p, p.state.r, ch))
  {
    ResponseBounded(p, p.state.r, ch);
    ResponseStays(p, p.state.r, ch);
  }

  lemma ChunkSizeKeeps(p: Parser, ch: byte)
    requires Valid(p) && p.errno == Ok && p.state.OnChunkSize?
    ensures Keeps(ChunkSizeByte(p, p.state.c, ch))
  {
    hide NameFits, ValueFits, MethodFits;
  }

  lemma BodyKeeps(p: Parser, ch: byte)
    requires Valid(p) && p.errno == Ok && p.state.OnBody?
    ensures Keeps(BodyByte(p, p.state.b, ch))
  {
    if p.state.b.BodyIdentity? {
      MessageEndKeeps(p.(contentLength := p.contentLength - 1, state := MessageDone));
    }
  }

  /** Every byte keeps the invariant, and no byte trips an assert of the C code. */
  lemma ByteKeepsValid(hc: HeadersCallback, p: Parser, ch: byte)
    requires Valid(p) && p.errno == Ok
    ensures Keeps(ByteStep(hc, p, ch))
  {
    match p.state
    case OnUrl(_) => UrlKeeps(p, ch);
    case OnRequest(_) => RequestKeeps(p, ch);
    case OnResponse(_) => ResponseKeeps(p, ch);
    case OnHeader(_) => HeaderKeeps(hc, p, ch);
    case OnChunkSize(_) => ChunkSizeKeeps(p, ch);
    case OnBody(_) => BodyKeeps(p, ch);
    case StartReq => StartRequestKeeps(p, ch);
    case StartReqOrRes =>
      StartRequestKeeps(p.(flags := NO_FLAGS, contentLength := ULLONG_MAX, ptype := Request, state := StartReq), ch);
    case _ =>
  }
}
