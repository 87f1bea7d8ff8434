/** The switch of http_parser_execute for one byte, without the byte counting, the slicing and
    the data marks: what the parser does with byte `ch` when it has seen the stream so far.
    `hc` is the embedder's on_headers_complete callback; every other callback returns 0. */
module HttpStep {
  import opened HttpTypes

  type HeadersCallback = Parser -> int

  /** What the switch asks of the callback machinery at the current byte. */
  datatype Command =
    | Touch(k: DataKind)        // the byte belongs to data of kind k (MARK if not marked yet)
    | Close(k: DataKind)        // data of kind k ended before this byte (or with it, for a body)
    | Empty(k: DataKind)        // MARK directly followed by its callback: zero bytes of kind k
    | Call(n: NotifyKind)

  /** `leave`: execute returns here although bytes remain. `reset`: nread becomes 0. */
  datatype Step = Step(p: Parser, cmds: seq<Command>, leave: bool, reset: bool)

  function Go(p: Parser, s: State): Step { Step(p.(state := s), [], false, false) }

  function Stay(p: Parser): Step { Step(p, [], false, false) }

  function With(p: Parser, cmds: seq<Command>): Step { Step(p, cmds, false, false) }

  function Fail(p: Parser, e: Errno): Step { Step(p.(errno := e), [], false, false) }

  function Expect(p: Parser, ok: bool, s: State): Step {
    if ok then Go(p, s) else Fail(p, Strict)
  }

  /** Commands issued earlier for the same byte, before a REEXECUTE. */
  function After(cmds: seq<Command>, s: Step): Step {
    s.(cmds := cmds + s.cmds)
  }

  function Digit(ch: byte): int { ch - '0' as int }

  // ---------- start line of a request ----------

  function StartRequest(p: Parser, ch: byte): Step {
    if ch == CR || ch == LF then Stay(p)
    else
      var p := p.(flags := NO_FLAGS, contentLength := ULLONG_MAX);
      if !IsAlpha(ch) then Fail(p, InvalidMethod)
      else
        var p := p.(index := 1);
        var c := ch as char;
        if c == 'A' then Begin(p, ACL) else if c == 'B' then Begin(p, BIND)
        else if c == 'C' then Begin(p, CONNECT) else if c == 'D' then Begin(p, DELETE)
        else if c == 'G' then Begin(p, GET) else if c == 'H' then Begin(p, HEAD)
        else if c == 'L' then Begin(p, LOCK) else if c == 'M' then Begin(p, MKCOL)
        else if c == 'N' then Begin(p, NOTIFY) else if c == 'O' then Begin(p, OPTIONS)
        else if c == 'P' then Begin(p, POST) else if c == 'R' then Begin(p, REPORT)
        else if c == 'S' then Begin(p, SUBSCRIBE) else if c == 'T' then Begin(p, TRACE)
        else if c == 'U' then Begin(p, UNLOCK)
        else Fail(p.(verb := DELETE), InvalidMethod)
  }

  function Begin(p: Parser, m: Method): Step {
    With(p.(verb := m, state := OnRequest(ReqMethod)), [Call(MessageBegin)])
  }

  /** The method a mismatching letter at position `i` of `m` switches to. */
  function OtherMethod(m: Method, i: nat, c: char): (r: Pick) {
    if m == POST && i == 1 && c == 'U' then Picked(PUT)
    else if m == POST && i == 1 && c == 'A' then Picked(PATCH)
    else if m == CONNECT && i == 1 && c == 'H' then Picked(CHECKOUT)
    else if m == CONNECT && i == 2 && c == 'P' then Picked(COPY)
    else if m == MKCOL && i == 1 && c == 'O' then Picked(MOVE)
    else if m == MKCOL && i == 1 && c == 'E' then Picked(MERGE)
    else if m == MKCOL && i == 2 && c == 'A' then Picked(MKACTIVITY)
    else if m == MKCOL && i == 3 && c == 'A' then Picked(MKCALENDAR)
    else if m == SUBSCRIBE && i == 1 && c == 'E' then Picked(SEARCH)
    else if m == REPORT && i == 2 && c == 'B' then Picked(REBIND)
    else if m == POST && i == 1 && c == 'R' then Picked(PROPFIND)
    else if m == PROPFIND && i == 4 && c == 'P' then Picked(PROPPATCH)
    else if m == PUT && i == 2 && c == 'R' then Picked(PURGE)
    else if m == LOCK && i == 1 && c == 'I' then Picked(LINK)
    else if m == UNLOCK && i == 2 && c == 'S' then Picked(UNSUBSCRIBE)
    else if m == UNLOCK && i == 2 && c == 'B' then Picked(UNBIND)
    else if m == UNLOCK && i == 3 && c == 'I' then Picked(UNLINK)
    else NoMethod
  }

  datatype Pick = NoMethod | Picked(m: Method)

  function MethodByte(p: Parser, ch: byte): Step {
    var name := MethodString(p.verb);
    if ch == 0 then Fail(p, InvalidMethod)
    else if p.index > |name| then Fail(p, Assertion)   // would read past the method's name
    else if ch == SP && p.index == |name| then Stay(p.(state := OnRequest(ReqSpacesBeforeUrl), index := p.index + 1))
    else if p.index < |name| && ch == name[p.index] as int then Stay(p.(index := p.index + 1))
    else if IsAlpha(ch) then
      match OtherMethod(p.verb, p.index, ch as char)
      case Picked(m) => Stay(p.(verb := m, index := p.index + 1))
      case NoMethod => Fail(p, InvalidMethod)
    else if ch == '-' as int && p.index == 1 && p.verb == MKCOL then
      Stay(p.(verb := MSEARCH, index := p.index + 1))
    else Fail(p, InvalidMethod)
  }

  /** parse_url_char: the URL automaton; NoState is its error state. */
  function UrlChar(s: UrlState, ch: byte): UrlNext {
    if NotUrl(ch) then UrlDead
    else
      var c := ch as char;
      match s
      case ReqSchema =>
        if IsAlpha(ch) then UrlTo(s) else if c == ':' then UrlTo(ReqSchemaSlash) else UrlDead
      case ReqSchemaSlash => if c == '/' then UrlTo(ReqSchemaSlashSlash) else UrlDead
      case ReqSchemaSlashSlash => if c == '/' then UrlTo(ReqServerStart) else UrlDead
      case ReqServerWithAt => if c == '@' then UrlDead else ServerChar(ch)
      case ReqServerStart => ServerChar(ch)
      case ReqServer => ServerChar(ch)
      case ReqPath =>
        if IsUrlChar(ch) then UrlTo(s)
        else if c == '?' then UrlTo(ReqQueryStringStart)
        else if c == '#' then UrlTo(ReqFragmentStart) else UrlDead
      case ReqQueryStringStart => QueryChar(ch)
      case ReqQueryString => QueryChar(ch)
      case ReqFragmentStart =>
        if IsUrlChar(ch) || c == '?' then UrlTo(ReqFragment) else if c == '#' then UrlTo(s) else UrlDead
      case ReqFragment =>
        if IsUrlChar(ch) || c == '?' || c == '#' then UrlTo(s) else UrlDead
  }

  datatype UrlNext = UrlDead | UrlTo(u: UrlState)

  predicate NotUrl(ch: byte) { ch == SP || ch == CR || ch == LF || ch == HTAB || ch == FF }

  /** parse_url_char from s_req_spaces_before_url: the first byte of a URL. */
  function UrlFirst(ch: byte): UrlNext {
    if NotUrl(ch) then UrlDead
    else if ch == '/' as int || ch == '*' as int then UrlTo(ReqPath)
    else if IsAlpha(ch) then UrlTo(ReqSchema) else UrlDead
  }

  function ServerChar(ch: byte): UrlNext {
    if ch == '/' as int then UrlTo(ReqPath)
    else if ch == '?' as int then UrlTo(ReqQueryStringStart)
    else if ch == '@' as int then UrlTo(ReqServerWithAt)
    else if IsUserinfoChar(ch) || ch == '[' as int || ch == ']' as int then UrlTo(ReqServer)
    else UrlDead
  }

  function QueryChar(ch: byte): UrlNext {
    if IsUrlChar(ch) || ch == '?' as int then UrlTo(ReqQueryString)
    else if ch == '#' as int then UrlTo(ReqFragmentStart) else UrlDead
  }

  /** A URL byte, given what the automaton said. */
  function UrlStep(p: Parser, t: UrlNext): Step {
    match t
    case UrlDead => Fail(p.(state := Dead), InvalidUrl)
    case UrlTo(u) => With(p.(state := OnUrl(u)), [Touch(Url)])
  }

  function UrlByte(p: Parser, u: UrlState, ch: byte): Step {
    if u.ReqSchema? || u.ReqSchemaSlash? || u.ReqSchemaSlashSlash? || u.ReqServerStart? then
      if ch == SP || ch == CR || ch == LF then Fail(p, InvalidUrl) else UrlStep(p, UrlChar(u, ch))
    else if ch == SP then With(p.(state := OnRequest(ReqHttpStart)), [Close(Url)])
    else if ch == CR then
      With(p.(major := 0, minor := 9, state := OnRequest(ReqLineAlmostDone)), [Close(Url)])
    else if ch == LF then
      With(p.(major := 0, minor := 9, state := OnHeader(HeaderFieldStart)), [Close(Url)])
    else UrlStep(p, UrlChar(u, ch))
  }

  // ---------- versions and status ----------

  function AddMajor(p: Parser, ch: byte): Step {
    var p' := p.(major := p.major * 10 + if IsNum(ch) then Digit(ch) else 0);
    if !IsNum(ch) then Fail(p, InvalidVersion)
    else if p'.major > 999 then Fail(p', InvalidVersion) else Stay(p')
  }

  function AddMinor(p: Parser, ch: byte): Step {
    var p' := p.(minor := p.minor * 10 + if IsNum(ch) then Digit(ch) else 0);
    if !IsNum(ch) then Fail(p, InvalidVersion)
    else if p'.minor > 999 then Fail(p', InvalidVersion) else Stay(p')
  }

  function StatusCodeByte(p: Parser, ch: byte): Step {
    if !IsNum(ch) then
      if ch == SP then Go(p, OnResponse(ResStatusStart))
      else if ch == CR then Go(p, OnResponse(ResLineAlmostDone))
      else if ch == LF then Go(p, OnHeader(HeaderFieldStart))
      else Fail(p, InvalidStatus)
    else
      var p' := p.(status := p.status * 10 + Digit(ch));
      if p'.status > 999 then Fail(p', InvalidStatus) else Stay(p')
  }

  /** The states of a response's start line. */
  function ResponseByte(p: Parser, r: ResponseState, ch: byte): Step {
    match r
    case StartRes =>
      var p := p.(flags := NO_FLAGS, contentLength := ULLONG_MAX);
      if ch == 'H' as int then With(p.(state := OnResponse(ResH)), [Call(MessageBegin)])
      else if ch == CR || ch == LF then With(p, [Call(MessageBegin)])
      else Fail(p, InvalidConstant)
    case ResH => Expect(p, ch == 'T' as int, OnResponse(ResHT))
    case ResHT => Expect(p, ch == 'T' as int, OnResponse(ResHTT))
    case ResHTT => Expect(p, ch == 'P' as int, OnResponse(ResHTTP))
    case ResHTTP => Expect(p, ch == '/' as int, OnResponse(ResFirstHttpMajor))
    case ResFirstHttpMajor =>
      if !IsNum(ch) then Fail(p, InvalidVersion) else Go(p.(major := Digit(ch)), OnResponse(ResHttpMajor))
    case ResHttpMajor => if ch == '.' as int then Go(p, OnResponse(ResFirstHttpMinor)) else AddMajor(p, ch)
    case ResFirstHttpMinor =>
      if !IsNum(ch) then Fail(p, InvalidVersion) else Go(p.(minor := Digit(ch)), OnResponse(ResHttpMinor))
    case ResHttpMinor => if ch == SP then Go(p, OnResponse(ResFirstStatusCode)) else AddMinor(p, ch)
    case ResFirstStatusCode =>
      if IsNum(ch) then Go(p.(status := Digit(ch)), OnResponse(ResStatusCode))
      else if ch == SP then Stay(p) else Fail(p, InvalidStatus)
    case ResStatusCode => StatusCodeByte(p, ch)
    case ResStatusStart =>
      if ch == CR then Go(p, OnResponse(ResLineAlmostDone))
      else if ch == LF then Go(p, OnHeader(HeaderFieldStart))
      else With(p.(state := OnResponse(ResStatus), index := 0), [Touch(Status)])
    case ResStatus =>
      if ch == CR then With(p.(state := OnResponse(ResLineAlmostDone)), [Close(Status)])
      else if ch == LF then With(p.(state := OnHeader(HeaderFieldStart)), [Close(Status)])
      else With(p, [Touch(Status)])
    case ResLineAlmostDone => Expect(p, ch == LF, OnHeader(HeaderFieldStart))
  }

  /** The states of a request's start line after the method, URL states excepted. */
  function RequestByte(p: Parser, q: RequestState, ch: byte): Step {
    match q
    case ReqMethod => MethodByte(p, ch)
    case ReqSpacesBeforeUrl =>
      if ch == SP then Stay(p)
      else UrlStep(p, if p.verb == CONNECT then UrlChar(ReqServerStart, ch) else UrlFirst(ch))
    case ReqHttpStart =>
      if ch == 'H' as int then Go(p, OnRequest(ReqHttpH)) else if ch == SP then Stay(p) else Fail(p, InvalidConstant)
    case ReqHttpH => Expect(p, ch == 'T' as int, OnRequest(ReqHttpHT))
    case ReqHttpHT => Expect(p, ch == 'T' as int, OnRequest(ReqHttpHTT))
    case ReqHttpHTT => Expect(p, ch == 'P' as int, OnRequest(ReqHttpHTTP))
    case ReqHttpHTTP => Expect(p, ch == '/' as int, OnRequest(ReqFirstHttpMajor))
    case ReqFirstHttpMajor =>
      if !IsNum(ch) || ch == '0' as int then Fail(p, InvalidVersion)
      else Go(p.(major := Digit(ch)), OnRequest(ReqHttpMajor))
    case ReqHttpMajor => if ch == '.' as int then Go(p, OnRequest(ReqFirstHttpMinor)) else AddMajor(p, ch)
    case ReqFirstHttpMinor =>
      if !IsNum(ch) then Fail(p, InvalidVersion) else Go(p.(minor := Digit(ch)), OnRequest(ReqHttpMinor))
    case ReqHttpMinor =>
      if ch == CR then Go(p, OnRequest(ReqLineAlmostDone))
      else if ch == LF then Go(p, OnHeader(HeaderFieldStart)) else AddMinor(p, ch)
    case ReqLineAlmostDone => if ch == LF then Go(p, OnHeader(HeaderFieldStart)) else Fail(p, LfExpected)
  }

  // ---------- header names ----------

  /** The header name a matching state compares against. */
  function Matcher(hs: HeaderState): string {
    match hs
    case MatchingConnection => "connection"
    case MatchingProxyConnection => "proxy-connection"
    case MatchingContentLength => "content-length"
    case MatchingTransferEncoding => "transfer-encoding"
    case MatchingUpgrade => "upgrade"
    case MatchingTransferEncodingChunked => "chunked"
    case MatchingConnectionKeepAlive => "keep-alive"
    case MatchingConnectionClose => "close"
    case MatchingConnectionUpgrade => "upgrade"
    case _ => ""
  }

  /** One more byte `c` of a name under comparison: `done` once it is complete, `fail` on a mismatch. */
  function Matching(p: Parser, c: byte, done: HeaderState, fail: HeaderState): Parser {
    var name := Matcher(p.hs);
    var i := p.index + 1;
    var p := p.(index := i);
    if i >= |name| || c != name[i] as int then p.(hs := fail)
    else if i == |name| - 1 then p.(hs := done)
    else p
  }

  /** The header_state update of the s_header_field loop for token `c` (lower case of `ch`). */
  function FieldChar(p: Parser, ch: byte, c: byte): Parser {
    match p.hs
    case General => p
    case HC => p.(index := p.index + 1, hs := if c == 'o' as int then HCO else General)
    case HCO => p.(index := p.index + 1, hs := if c == 'n' as int then HCON else General)
    case HCON =>
      p.(index := p.index + 1,
         hs := if c == 'n' as int then MatchingConnection
               else if c == 't' as int then MatchingContentLength else General)
    case MatchingConnection => Matching(p, c, HConnection, General)
    case MatchingProxyConnection => Matching(p, c, HConnection, General)
    case MatchingContentLength => Matching(p, c, HContentLength, General)
    case MatchingTransferEncoding => Matching(p, c, HTransferEncoding, General)
    case MatchingUpgrade => Matching(p, c, HUpgrade, General)
    case HConnection => if ch != SP then p.(hs := General) else p
    case HContentLength => if ch != SP then p.(hs := General) else p
    case HTransferEncoding => if ch != SP then p.(hs := General) else p
    case HUpgrade => if ch != SP then p.(hs := General) else p
    case _ => p.(errno := Assertion)
  }

  function FieldByte(p: Parser, ch: byte): Step {
    if Token(ch) != 0 then With(FieldChar(p, ch, Token(ch)), [Touch(Field)])
    else if ch == ':' as int then With(p.(state := OnHeader(HeaderValueDiscardWs)), [Close(Field)])
    else Fail(p, InvalidHeaderToken)
  }

  // ---------- header values ----------

  function ConnectionToken(c: byte, other: HeaderState): HeaderState {
    if c == 'k' as int then MatchingConnectionKeepAlive
    else if c == 'c' as int then MatchingConnectionClose
    else if c == 'u' as int then MatchingConnectionUpgrade
    else other
  }

  /** s_header_value_start: the first byte of a value. */
  function ValueStart(p: Parser, ch: byte): Step {
    var p := p.(state := OnHeader(HeaderValue), index := 0);
    var c := Lower(ch);
    match p.hs
    case HUpgrade => With(p.(flags := p.flags.(upgrade := true), hs := General), [Touch(Value)])
    case HTransferEncoding =>
      With(p.(hs := if c == 'c' as int then MatchingTransferEncodingChunked else General), [Touch(Value)])
    case HContentLength =>
      if !IsNum(ch) then Fail(p, InvalidContentLength)
      else if p.flags.contentLength then Fail(p, UnexpectedContentLength)
      else With(p.(flags := p.flags.(contentLength := true), contentLength := Digit(ch)), [Touch(Value)])
    case HConnection => With(p.(hs := ConnectionToken(c, MatchingConnectionToken)), [Touch(Value)])
    case MatchingConnectionTokenStart => With(p, [Touch(Value)])
    case _ => With(p.(hs := General), [Touch(Value)])
  }

  /** Flags recorded when a value, or one token of a Connection header, ends in `p.hs`. */
  function TokenFlags(p: Parser): Flags {
    match p.hs
    case ConnectionKeepAlive => p.flags.(keepAlive := true)
    case ConnectionClose => p.flags.(close := true)
    case ConnectionUpgrade => p.flags.(connectionUpgrade := true)
    case _ => p.flags
  }

  function ValueFlags(p: Parser): Flags {
    if p.hs.TransferEncodingChunked? then p.flags.(chunked := true) else TokenFlags(p)
  }

  /** The h_state update of the s_header_value loop for a byte that is neither CR nor LF. */
  function ValueChar(p: Parser, ch: byte): Parser {
    var c := Lower(ch);
    match p.hs
    case General => p
    case HConnection => p.(errno := Assertion)
    case HTransferEncoding => p.(errno := Assertion)
    case HContentLength =>
      if ch == SP then p
      else if !IsNum(ch) then p.(errno := InvalidContentLength)
      else if (ULLONG_MAX - 10) / 10 < p.contentLength then p.(errno := InvalidContentLength)
      else p.(contentLength := p.contentLength * 10 + Digit(ch))
    case MatchingTransferEncodingChunked => Matching(p, c, TransferEncodingChunked, General)
    case MatchingConnectionTokenStart =>
      p.(hs := ConnectionToken(c, if Token(c) != 0 then MatchingConnectionToken
                                  else if c == SP || c == HTAB then MatchingConnectionTokenStart
                                  else General))
    case MatchingConnectionKeepAlive => Matching(p, c, ConnectionKeepAlive, MatchingConnectionToken)
    case MatchingConnectionClose => Matching(p, c, ConnectionClose, MatchingConnectionToken)
    case MatchingConnectionUpgrade => Matching(p, c, ConnectionUpgrade, MatchingConnectionToken)
    case MatchingConnectionToken =>
      if ch == ',' as int then p.(hs := MatchingConnectionTokenStart, index := 0) else p
    case TransferEncodingChunked => if ch != SP then p.(hs := General) else p
    case ConnectionKeepAlive => TokenEnd(p, ch)
    case ConnectionClose => TokenEnd(p, ch)
    case ConnectionUpgrade => TokenEnd(p, ch)
    case _ => p.(hs := General)
  }

  function TokenEnd(p: Parser, ch: byte): Parser {
    if ch == ',' as int then p.(flags := TokenFlags(p), hs := MatchingConnectionTokenStart, index := 0)
    else if ch != SP then p.(hs := MatchingConnectionToken)
    else p
  }

  /** A byte inside a value. In state General the C code checks a byte's class only when its
      loop stops there, which depends on the slicing: that check is not made here. */
  function ValueByte(p: Parser, ch: byte): Step {
    if ch == CR then With(p.(state := OnHeader(HeaderAlmostDone)), [Close(Value)])
    else if ch == LF then With(p.(state := OnHeader(HeaderValueLws)), [Close(Value)])
    else if !p.lenient && !IsHeaderChar(ch) && !p.hs.General? then Fail(p, InvalidHeaderToken)
    else if ValueChar(p, ch).errno != Ok then Fail(p, ValueChar(p, ch).errno)
    else With(ValueChar(p, ch), [Touch(Value)])
  }

  // ---------- header block ----------

  function FieldStart(hc: HeadersCallback, p: Parser, ch: byte): Step {
    if ch == CR then Go(p, OnHeader(HeadersAlmostDone))
    else if ch == LF then HeadersEnd(hc, p.(state := OnHeader(HeadersAlmostDone)), ch)
    else
      var c := Token(ch);
      if c == 0 then Fail(p, InvalidHeaderToken)
      else
        With(p.(index := 0, state := OnHeader(HeaderField),
                hs := if c == 'c' as int then HC
                      else if c == 'p' as int then MatchingProxyConnection
                      else if c == 't' as int then MatchingTransferEncoding
                      else if c == 'u' as int then MatchingUpgrade
                      else General),
             [Touch(Field)])
  }

  /** s_headers_almost_done and the states it re-executes. */
  function HeadersEnd(hc: HeadersCallback, p: Parser, ch: byte): Step {
    if ch != LF then Fail(p, Strict)
    else if p.flags.trailing then
      After([Call(ChunkComplete)], MessageEnd(p.(state := MessageDone)))
    else if p.flags.chunked && p.flags.contentLength then Fail(p, UnexpectedContentLength)
    else
      var p := p.(state := OnHeader(HeadersDone),
                  upgrade := (p.flags.upgrade && p.flags.connectionUpgrade) || p.verb == CONNECT);
      var r := hc(p);
      if r == 0 then After([Call(HeadersComplete)], BodyStart(p))
      else if r == 1 then After([Call(HeadersComplete)], BodyStart(p.(flags := p.flags.(skipBody := true))))
      else if r == 2 then
        After([Call(HeadersComplete)], BodyStart(p.(upgrade := true, flags := p.flags.(skipBody := true))))
      else Fail(p, CbHeadersComplete)
  }

  /** s_headers_done: the framing of the body. */
  function BodyStart(p: Parser): Step {
    var hasBody := p.flags.chunked || (p.contentLength > 0 && p.contentLength != ULLONG_MAX);
    if p.upgrade && (p.verb == CONNECT || p.flags.skipBody || !hasBody) then
      Step(p.(state := NewMessage(p)), [Call(MessageComplete)], true, true)
    else if p.flags.skipBody then
      Step(p.(state := NewMessage(p)), [Call(MessageComplete)], false, true)
    else if p.flags.chunked then Step(p.(state := OnChunkSize(ChunkSizeStart)), [], false, true)
    else if p.contentLength == 0 then
      Step(p.(state := NewMessage(p)), [Call(MessageComplete)], false, true)
    else if p.contentLength != ULLONG_MAX then Step(p.(state := OnBody(BodyIdentity)), [], false, true)
    else if !NeedsEof(p) then
      Step(p.(state := NewMessage(p)), [Call(MessageComplete)], false, true)
    else Step(p.(state := OnBody(BodyIdentityEof)), [], false, true)
  }

  /** s_message_done. */
  function MessageEnd(p: Parser): Step {
    Step(p.(state := NewMessage(p)), [Call(MessageComplete)], p.upgrade, false)
  }

  function HeaderByte(hc: HeadersCallback, p: Parser, h: HeaderPlace, ch: byte): Step {
    match h
    case HeaderFieldStart => FieldStart(hc, p, ch)
    case HeaderField => FieldByte(p, ch)
    case HeaderValueDiscardWs =>
      if ch == SP || ch == HTAB then Stay(p)
      else if ch == CR then Go(p, OnHeader(HeaderValueDiscardWsAlmostDone))
      else if ch == LF then Go(p, OnHeader(HeaderValueDiscardLws))
      else ValueStart(p, ch)
    case HeaderValueStart => ValueStart(p, ch)
    case HeaderValue => ValueByte(p, ch)
    case HeaderAlmostDone => if ch == LF then Go(p, OnHeader(HeaderValueLws)) else Fail(p, LfExpected)
    case HeaderValueLws =>
      if ch == SP || ch == HTAB then ValueStart(p, ch)
      else FieldStart(hc, p.(flags := ValueFlags(p), state := OnHeader(HeaderFieldStart)), ch)
    case HeaderValueDiscardWsAlmostDone => Expect(p, ch == LF, OnHeader(HeaderValueDiscardLws))
    case HeaderValueDiscardLws =>
      if ch == SP || ch == HTAB then Go(p, OnHeader(HeaderValueDiscardWs))
      else After([Empty(Value)],
                 FieldStart(hc, p.(flags := ValueFlags(p), state := OnHeader(HeaderFieldStart)), ch))
    case HeadersAlmostDone => HeadersEnd(hc, p, ch)
    case _ => Fail(p, Assertion)
  }

  // ---------- bodies ----------

  function ChunkSizeByte(p: Parser, c: ChunkSizeState, ch: byte): Step {
    match c
    case ChunkSizeStart =>
      if !p.flags.chunked then Fail(p, Assertion)
      else if Unhex(ch) == -1 then Fail(p, InvalidChunkSize)
      else Go(p.(contentLength := Unhex(ch)), OnChunkSize(ChunkSize))
    case ChunkSize =>
      if !p.flags.chunked then Fail(p, Assertion)
      else if ch == CR then Go(p, OnChunkSize(ChunkSizeAlmostDone))
      else if Unhex(ch) == -1 then
        if ch == ';' as int || ch == SP then Go(p, OnChunkSize(ChunkParameters)) else Fail(p, InvalidChunkSize)
      else if (ULLONG_MAX - 16) / 16 < p.contentLength then Fail(p, InvalidContentLength)
      else Stay(p.(contentLength := p.contentLength * 16 + Unhex(ch)))
    case ChunkParameters =>
      if !p.flags.chunked then Fail(p, Assertion)
      else if ch == CR then Go(p, OnChunkSize(ChunkSizeAlmostDone)) else Stay(p)
    case ChunkSizeAlmostDone =>
      if !p.flags.chunked then Fail(p, Assertion)
      else if ch != LF then Fail(p, Strict)
      else if p.contentLength == 0 then
        Step(p.(flags := p.flags.(trailing := true), state := OnHeader(HeaderFieldStart)), [Call(ChunkHeader)], false, true)
      else Step(p.(state := OnBody(ChunkData)), [Call(ChunkHeader)], false, true)
  }

  function BodyByte(p: Parser, b: BodyState, ch: byte): Step {
    match b
    case BodyIdentity =>
      if p.contentLength == 0 || p.contentLength == ULLONG_MAX then Fail(p, Assertion)
      else
        var p := p.(contentLength := p.contentLength - 1);
        if p.contentLength == 0 then After([Touch(Body), Close(Body)], MessageEnd(p.(state := MessageDone)))
        else With(p, [Touch(Body)])
    case BodyIdentityEof => With(p, [Touch(Body)])
    case ChunkData =>
      if !p.flags.chunked || p.contentLength == 0 || p.contentLength == ULLONG_MAX then Fail(p, Assertion)
      else
        var p := p.(contentLength := p.contentLength - 1);
        With(if p.contentLength == 0 then p.(state := OnBody(ChunkDataAlmostDone)) else p, [Touch(Body)])
    case ChunkDataAlmostDone =>
      if !p.flags.chunked || p.contentLength != 0 then Fail(p, Assertion)
      else if ch != CR then Fail(p, Strict)
      else With(p.(state := OnBody(ChunkDataDone)), [Close(Body)])
    case ChunkDataDone =>
      if !p.flags.chunked then Fail(p, Assertion)
      else if ch != LF then Fail(p, Strict)
      else Step(p.(state := OnChunkSize(ChunkSizeStart)), [Call(ChunkComplete)], false, true)
  }

  // ---------- the switch ----------

  function ByteStep(hc: HeadersCallback, p: Parser, ch: byte): Step {
    match p.state
    case Dead => if ch == CR || ch == LF then Stay(p) else Fail(p, ClosedConnection)
    case StartReqOrRes =>
      if ch == CR || ch == LF then Stay(p)
      else
        var p := p.(flags := NO_FLAGS, contentLength := ULLONG_MAX);
        if ch == 'H' as int then With(p.(state := ResOrRespH), [Call(MessageBegin)])
        else StartRequest(p.(ptype := Request, state := StartReq), ch)
    case ResOrRespH =>
      if ch == 'T' as int then Go(p.(ptype := Response), OnResponse(ResHT))
      else if ch != 'E' as int then Fail(p, InvalidConstant)
      else Stay(p.(ptype := Request, verb := HEAD, index := 2, state := OnRequest(ReqMethod)))
    case StartReq => StartRequest(p, ch)
    case OnUrl(u) => UrlByte(p, u, ch)
    case OnRequest(q) => RequestByte(p, q, ch)
    case OnResponse(r) => ResponseByte(p, r, ch)
    case OnHeader(h) => HeaderByte(hc, p, h, ch)
    case OnChunkSize(c) => ChunkSizeByte(p, c, ch)
    case OnBody(b) => BodyByte(p, b, ch)
    case MessageDone => Fail(p, Assertion)
  }
}
