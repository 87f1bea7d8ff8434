/** The parser record, its enumerations and its character classes
    (http_parser.h and the first part of http_parser.c, built with HTTP_PARSER_STRICT = 1). */
module HttpTypes {
  import Bytes

  type byte = Bytes.byte

  const HTAB: byte := 9
  const LF: byte := 10
  const FF: byte := 12
  const CR: byte := 13
  const SP: byte := 32

  /** Largest 64-bit value; `content_length` holds it while no length is known. */
  const ULLONG_MAX: nat := 0xFFFF_FFFF_FFFF_FFFF

  /** HTTP_MAX_HEADER_SIZE. */
  const MAX_HEADER: nat := 80 * 1024

  /** The states of the C enumeration, grouped by the part of the message they read. */
  datatype State =
    | Dead | StartReqOrRes | ResOrRespH | StartReq
    | OnResponse(r: ResponseState)
    | OnRequest(q: RequestState)
    | OnUrl(u: UrlState)
    | OnHeader(h: HeaderPlace)
    | OnChunkSize(c: ChunkSizeState)
    | OnBody(b: BodyState)
    | MessageDone

  datatype ResponseState =
    | StartRes | ResH | ResHT | ResHTT | ResHTTP
    | ResFirstHttpMajor | ResHttpMajor | ResFirstHttpMinor | ResHttpMinor
    | ResFirstStatusCode | ResStatusCode | ResStatusStart | ResStatus | ResLineAlmostDone

  datatype RequestState =
    | ReqMethod | ReqSpacesBeforeUrl
    | ReqHttpStart | ReqHttpH | ReqHttpHT | ReqHttpHTT | ReqHttpHTTP
    | ReqFirstHttpMajor | ReqHttpMajor | ReqFirstHttpMinor | ReqHttpMinor | ReqLineAlmostDone

  /** The states in which a URL is under way. */
  datatype UrlState =
    | ReqSchema | ReqSchemaSlash | ReqSchemaSlashSlash
    | ReqServerStart | ReqServer | ReqServerWithAt
    | ReqPath | ReqQueryStringStart | ReqQueryString | ReqFragmentStart | ReqFragment

  datatype HeaderPlace =
    | HeaderFieldStart | HeaderField
    | HeaderValueDiscardWs | HeaderValueDiscardWsAlmostDone | HeaderValueDiscardLws
    | HeaderValueStart | HeaderValue | HeaderValueLws | HeaderAlmostDone
    | HeadersAlmostDone | HeadersDone

  datatype ChunkSizeState = ChunkSizeStart | ChunkSize | ChunkParameters | ChunkSizeAlmostDone

  datatype BodyState = ChunkData | ChunkDataAlmostDone | ChunkDataDone | BodyIdentity | BodyIdentityEof

  /** PARSING_HEADER: the states whose bytes count against MAX_HEADER. */
  predicate ParsingHeader(s: State) { !s.OnBody? && !s.MessageDone? }

  const FIELD := OnHeader(HeaderField)
  const VALUE := OnHeader(HeaderValue)

  datatype HeaderState =
    | General
    | HC | HCO | HCON
    | MatchingConnection | MatchingProxyConnection | MatchingContentLength
    | MatchingTransferEncoding | MatchingUpgrade
    | HConnection | HContentLength | HTransferEncoding | HUpgrade
    | MatchingTransferEncodingChunked
    | MatchingConnectionTokenStart | MatchingConnectionKeepAlive | MatchingConnectionClose
    | MatchingConnectionUpgrade | MatchingConnectionToken
    | TransferEncodingChunked | ConnectionKeepAlive | ConnectionClose | ConnectionUpgrade

  /** The bits of `flags`, one field each. */
  datatype Flags = Flags(
    chunked: bool,
    keepAlive: bool,
    close: bool,
    connectionUpgrade: bool,
    trailing: bool,
    upgrade: bool,
    skipBody: bool,
    contentLength: bool)

  const NO_FLAGS := Flags(false, false, false, false, false, false, false, false)

  /** Error numbers the parser can report, and `Assertion` for a C assert that fails. */
  datatype Errno =
    | Ok
    | CbHeadersComplete
    | InvalidEofState | HeaderOverflow | ClosedConnection | InvalidVersion | InvalidStatus
    | InvalidMethod | InvalidUrl | LfExpected | InvalidHeaderToken | InvalidContentLength
    | UnexpectedContentLength | InvalidChunkSize | InvalidConstant | Strict
    | Assertion

  datatype ParserType = Request | Response | Both

  datatype Method =
    | DELETE | GET | HEAD | POST | PUT | CONNECT | OPTIONS | TRACE | COPY | LOCK | MKCOL | MOVE
    | PROPFIND | PROPPATCH | SEARCH | UNLOCK | BIND | REBIND | UNBIND | ACL | REPORT | MKACTIVITY
    | CHECKOUT | MERGE | MSEARCH | NOTIFY | SUBSCRIBE | UNSUBSCRIBE | PATCH | PURGE | MKCALENDAR
    | LINK | UNLINK

  function MethodString(m: Method): (name: string)
    ensures 3 <= |name| <= 11
  {
    match m
    case DELETE => "DELETE" case GET => "GET" case HEAD => "HEAD" case POST => "POST"
    case PUT => "PUT" case CONNECT => "CONNECT" case OPTIONS => "OPTIONS" case TRACE => "TRACE"
    case COPY => "COPY" case LOCK => "LOCK" case MKCOL => "MKCOL" case MOVE => "MOVE"
    case PROPFIND => "PROPFIND" case PROPPATCH => "PROPPATCH" case SEARCH => "SEARCH"
    case UNLOCK => "UNLOCK" case BIND => "BIND" case REBIND => "REBIND" case UNBIND => "UNBIND"
    case ACL => "ACL" case REPORT => "REPORT" case MKACTIVITY => "MKACTIVITY"
    case CHECKOUT => "CHECKOUT" case MERGE => "MERGE" case MSEARCH => "M-SEARCH"
    case NOTIFY => "NOTIFY" case SUBSCRIBE => "SUBSCRIBE" case UNSUBSCRIBE => "UNSUBSCRIBE"
    case PATCH => "PATCH" case PURGE => "PURGE" case MKCALENDAR => "MKCALENDAR"
    case LINK => "LINK" case UNLINK => "UNLINK"
  }

  /** The fields of `http_parser` except `nread`, which only the byte counting uses. */
  datatype Parser = Parser(
    ptype: ParserType,
    flags: Flags,
    state: State,
    hs: HeaderState,
    index: nat,
    lenient: bool,
    contentLength: nat,
    major: nat,
    minor: nat,
    status: nat,
    verb: Method,
    errno: Errno,
    upgrade: bool)

  /** http_parser_init. */
  function Init(t: ParserType): Parser {
    Parser(t, NO_FLAGS,
           match t case Request => StartReq case Response => OnResponse(StartRes) case Both => StartReqOrRes,
           General, 0, false, 0, 0, 0, 0, DELETE, Ok, false)
  }

  datatype DataKind = Url | Status | Field | Value | Body
  datatype NotifyKind = MessageBegin | HeadersComplete | MessageComplete | ChunkHeader | ChunkComplete

  /** One callback: a notification, or a piece of data. */
  datatype Event = Notify(n: NotifyKind) | Data(k: DataKind, bytes: seq<byte>)

  // ---------- character classes ----------

  function Lower(ch: byte): byte {
    if (ch / 32) % 2 == 0 then ch + 32 else ch   // ch | 0x20
  }

  predicate IsNum(ch: byte) { '0' as int <= ch <= '9' as int }

  predicate IsAlpha(ch: byte) { 'a' as int <= Lower(ch) <= 'z' as int }

  predicate IsMark(ch: byte) {
    ch == '-' as int || ch == '_' as int || ch == '.' as int || ch == '!' as int || ch == '~' as int
    || ch == '*' as int || ch == '\'' as int || ch == '(' as int || ch == ')' as int
  }

  predicate IsUserinfoChar(ch: byte) {
    IsAlpha(ch) || IsNum(ch) || IsMark(ch) || ch == '%' as int || ch == ';' as int
    || ch == ':' as int || ch == '&' as int || ch == '=' as int || ch == '+' as int
    || ch == '$' as int || ch == ',' as int
  }

  /** normal_url_char: the visible ASCII characters except '#' and '?'. */
  predicate IsUrlChar(ch: byte) { 33 <= ch <= 126 && ch != '#' as int && ch != '?' as int }

  predicate IsHeaderChar(ch: byte) {
    ch == CR || ch == LF || ch == HTAB || (ch > 31 && ch != 127)
  }

  /** The `tokens` table: 0 for a separator or control byte, else the byte in lower case. */
  function Token(ch: byte): byte {
    if 'A' as int <= ch <= 'Z' as int then ch + 32
    else if ('a' as int <= ch <= 'z' as int) || IsNum(ch)
      || ch == '!' as int || (35 <= ch <= 39) || ch == '*' as int || ch == '+' as int
      || ch == '-' as int || ch == '.' as int || (94 <= ch <= 96) || ch == '|' as int
      || ch == '~' as int then ch
    else 0
  }

  /** The `unhex` table, -1 for a byte that is no hexadecimal digit. */
  function Unhex(ch: byte): (v: int)
    ensures -1 <= v < 16
  {
    if IsNum(ch) then ch - '0' as int
    else if 'A' as int <= ch <= 'F' as int then ch - 'A' as int + 10
    else if 'a' as int <= ch <= 'f' as int then ch - 'a' as int + 10
    else -1
  }

  // ---------- queries on a parser ----------

  /** http_message_needs_eof. */
  predicate NeedsEof(p: Parser) {
    !p.ptype.Request?
    && !(p.status / 100 == 1 || p.status == 204 || p.status == 304 || p.flags.skipBody)
    && !(p.flags.chunked || p.contentLength != ULLONG_MAX)
  }

  /** http_should_keep_alive. */
  predicate ShouldKeepAlive(p: Parser) {
    (if p.major > 0 && p.minor > 0 then !p.flags.close else p.flags.keepAlive)
    && !NeedsEof(p)
  }

  /** NEW_MESSAGE: the state that follows a complete message. */
  function NewMessage(p: Parser): State {
    if ShouldKeepAlive(p) then (if p.ptype.Request? then StartReq else OnResponse(StartRes)) else Dead
  }

  /** Which data callback is pending while the parser rests in state `s`. */
  datatype Pending = NoData | Some(k: DataKind)

  function KindOf(s: State): Pending {
    match s
    case OnUrl(_) => Some(Url)
    case OnResponse(r) => if r.ResStatus? then Some(Status) else NoData
    case OnHeader(h) => if h.HeaderField? then Some(Field) else if h.HeaderValue? then Some(Value) else NoData
    case OnBody(b) => if b.ChunkDataDone? then NoData else Some(Body)
    case _ => NoData
  }
}
