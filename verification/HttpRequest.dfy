/** Whole requests: what is written as requests is read back as those requests, however it is cut. */
module HttpRequest {
  import opened HttpTypes
  import opened HttpStep
  import opened HttpEvents
  import opened HttpSlicing
  import opened HttpLoops
  import opened HttpChunked
  import opened HttpMethods
  import opened HttpHead
  import opened HttpNumbers
  import opened HttpUrls
  import opened HttpContent

  datatype Request = Request(m: Method, url: seq<byte>, major: nat, minor: nat, headers: seq<Header>, content: Content)

  function MethodText(m: Method): (w: seq<byte>)
    ensures Names(w, MethodString(m))
  {
    LettersPrintable(m);
    seq(|MethodString(m)|, i requires 0 <= i < |MethodString(m)| => MethodString(m)[i] as int)
  }

  function RequestLine(r: Request): seq<byte> {
    MethodText(r.m) + [SP] + (r.url + [SP]) + VersionText(r.major, r.minor)
  }

  function Text(r: Request): seq<byte> {
    RequestLine(r) + (Lines(r.headers) + (CRLF + ContentText(r.content)))
  }

  function Events(r: Request): seq<Event> {
    [Notify(MessageBegin)] + UrlEvents(r.url) + RestOut(r.headers, r.content)
  }

  /** The request's turn when on_headers_complete gives this answer. */
  function TurnFor(r: Request, answer: int): Turn { Turn(true, r.m == CONNECT, answer) }

  /** A request with a URL that fits its method, whose head, written out, fits into `max` bytes, and whose
      body is the one announced. */
  predicate Fits(r: Request, answer: int, n: nat, max: int) {
    Version(r.major, r.minor) && UrlFits(r.m, r.url) && 0 <= answer <= 2
    && HeadersFit(r.headers) && ContentFits(Announced(r.headers), TurnFor(r, answer), r.content, max)
    && n + |RequestLine(r)| + |Lines(r.headers)| + 2 <= max
  }

  /** Between messages on a connection of a server. */
  predicate Awaiting(p: Parser) { p.errno.Ok? && p.state == StartReq && p.ptype == ParserType.Request && !p.lenient }

  /** The parser after the request line. */
  function Lined(p: Parser, r: Request): Parser {
    p.(verb := r.m, index := |MethodString(r.m)| + 1, flags := NO_FLAGS, contentLength := ULLONG_MAX,
       major := r.major, minor := r.minor, state := OnHeader(HeaderFieldStart))
  }

  lemma LineOfRequestRun(hc: HeadersCallback, p: Parser, n: nat, max: int, r: Request)
    requires Awaiting(p) && Version(r.major, r.minor) && UrlFits(r.m, r.url) && n + |RequestLine(r)| <= max
    ensures ExactRun(hc, p, n, max, RequestLine(r))
         == Exact(Lined(p, r), n + |RequestLine(r)|, [Notify(MessageBegin)] + UrlEvents(r.url), false)
  {
    hide ExactRun, MethodString, VersionText, UrlEvents, UrlFits, NoUrlSpace;
    var w := MethodText(r.m);
    FitsNoSpace(r.m, r.url);
    MethodRun(hc, p, n, max, w, r.m);
    var q := Named(p, r.m);
    var n1 := n + |w| + 1;
    UrlIff(hc, q, n1, max, r.url);
    ExactRunAppend(hc, p, n, max, w + [SP], r.url + [SP]);
    var u := q.(state := OnRequest(ReqHttpStart));
    var n2 := n1 + |r.url| + 1;
    VersionedRun(hc, u, n2, max, r.major, r.minor);
    ExactRunAppend(hc, p, n, max, w + [SP] + (r.url + [SP]), VersionText(r.major, r.minor));
    var out := [Notify(MessageBegin)] + UrlEvents(r.url);
    assert out + [] == out;
  }

  /** The connection is kept after the request. */
  predicate KeepsAlive(r: Request) { Keeps(r.major, r.minor, FinalFlags(Announced(r.headers), r.content)) }

  /** The request is the last one in HTTP: CONNECT, an upgrade, or the callback says so. */
  predicate Switches(r: Request, answer: int) { Leaves(Announced(r.headers), TurnFor(r, answer)) }

  /** The body of a request does not last until the end of the stream. */
  lemma NotOpenEnded(r: Request, answer: int, n: nat, max: int)
    requires Fits(r, answer, n, max)
    ensures !r.content.UntilEnd? && !Lasts(Announced(r.headers), TurnFor(r, answer))
  {
    hide HeadersFit, UrlFits, RequestLine;
  }

  /** A request is read back as the method, the URL, the headers and the body it was written from,
      and completed once. Nothing after it is read if it is the last one in HTTP; else a second request
      may follow exactly if it asks to keep the connection. */
  lemma RequestReadBack(hc: HeadersCallback, p: Parser, n: nat, max: int, r: Request, answer: int)
    requires Awaiting(p) && Fits(r, answer, n, max) && Answers(hc, answer)
    ensures var e := ExactRun(hc, p, n, max, Text(r));
      e.p.errno.Ok? && e.left == Switches(r, answer) && e.out == Events(r) && e.n == Carry(r.content)
      && e.p.ptype == ParserType.Request && e.p.verb == r.m && e.p.major == r.major && e.p.minor == r.minor
      && e.p.state == (if KeepsAlive(r) then StartReq else Dead) && (KeepsAlive(r) ==> Awaiting(e.p))
    ensures Switches(r, answer) ==> forall rest :: ExactRun(hc, p, n, max, Text(r) + rest) == ExactRun(hc, p, n, max, Text(r))
  {
    hide ExactRun, RequestLine, UrlFits, MethodString, ContentText, ContentEvents, HeadersFit, ContentFits, Announced,
         RestOut, FinalFlags, Carry,
         Leaves, Lasts, Answers;
    NotOpenEnded(r, answer, n, max);
    LineOfRequestRun(hc, p, n, max, r);
    RestOfMessage(hc, Lined(p, r), n + |RequestLine(r)|, max, r.headers, TurnFor(r, answer), r.content);
    ExactRunAppend(hc, p, n, max, RequestLine(r), Lines(r.headers) + (CRLF + ContentText(r.content)));
    hide Text;
    if Switches(r, answer) {
      forall rest ensures ExactRun(hc, p, n, max, Text(r) + rest) == ExactRun(hc, p, n, max, Text(r)) {
        RestUnread(hc, p, n, max, Text(r), rest);
      }
    }
  }

  // ---------- requests one after the other ----------

  /** Header bytes counted before message `i`. */
  function Before(rs: seq<Request>, i: nat, n: nat): nat
    requires i <= |rs|
  {
    if i == 0 then n else Carry(rs[i - 1].content)
  }

  /** When `n` header bytes are counted before the first: each fits behind what the one before it leaves
      in the count, none is the last one in HTTP, and each but the last keeps the connection. */
  predicate Stream(rs: seq<Request>, answer: int, n: nat, max: int) {
    forall i | 0 <= i < |rs| ::
      Fits(rs[i], answer, Before(rs, i, n), max) && !Switches(rs[i], answer) && (i < |rs| - 1 ==> KeepsAlive(rs[i]))
  }

  function Texts(rs: seq<Request>): seq<byte> {
    if rs == [] then [] else Text(rs[0]) + Texts(rs[1..])
  }

  function AllOut(rs: seq<Request>): seq<Event> {
    if rs == [] then [] else Events(rs[0]) + AllOut(rs[1..])
  }

  lemma StreamTail(rs: seq<Request>, answer: int, n: nat, max: int)
    requires rs != [] && Stream(rs, answer, n, max)
    ensures Fits(rs[0], answer, n, max) && !Switches(rs[0], answer) && (|rs| > 1 ==> KeepsAlive(rs[0]))
    ensures Stream(rs[1..], answer, Carry(rs[0].content), max)
  {
    hide Fits, KeepsAlive, Carry, Switches;
    var rest, c := rs[1..], Carry(rs[0].content);
    assert Before(rs, 0, n) == n && Fits(rs[0], answer, Before(rs, 0, n), max);
    forall i | 0 <= i < |rest|
      ensures Fits(rest[i], answer, Before(rest, i, c), max) && !Switches(rest[i], answer)
      ensures i < |rest| - 1 ==> KeepsAlive(rest[i])
    {
      assert rest[i] == rs[i + 1] && Before(rest, i, c) == Before(rs, i + 1, n);
    }
  }

  lemma {:induction false} StreamRun(hc: HeadersCallback, p: Parser, n: nat, max: int, rs: seq<Request>, answer: int)
    requires Awaiting(p) && Stream(rs, answer, n, max) && Answers(hc, answer)
    ensures var e := ExactRun(hc, p, n, max, Texts(rs));
      e.Good() && e.out == AllOut(rs) && (rs != [] ==> e.p.ptype == ParserType.Request)
    decreases |rs|
  {
    if rs == [] {
      ExactNone(hc, p, n, max);
    } else {
      StreamTail(rs, answer, n, max);
      hide ExactRun, Fits, Stream, Events, Awaiting, KeepsAlive, Carry, Switches, Answers;
      RequestReadBack(hc, p, n, max, rs[0], answer);
      var e := ExactRun(hc, p, n, max, Text(rs[0]));
      if |rs| > 1 {
        StreamRun(hc, e.p, e.n, max, rs[1..], answer);
      } else {
        ExactNone(hc, e.p, e.n, max);
      }
      RunAppend(hc, p, n, max, Text(rs[0]), Texts(rs[1..]));
    }
  }

  /** `ss` cuts what these requests are written as, with a byte per slice left to the header limit. */
  predicate CutOf(rs: seq<Request>, answer: int, ss: Slices) {
    NoneEmpty(ss) && |ss| <= MAX_HEADER
    && Stream(rs, answer, 0, MAX_HEADER - |ss|) && Concat(ss) == Texts(rs)
  }

  /** Requests sent one after the other on a connection are reported one after the other, each with
      its own URL, headers and body, however the bytes are cut into slices. */
  lemma StreamReadBack(hc: HeadersCallback, p: Parser, rs: seq<Request>, answer: int, ss: Slices)
    requires Awaiting(p) && Answers(hc, answer) && CutOf(rs, answer, ss)
    ensures Feed(hc, p, 0, ss).ok && Feed(hc, p, 0, ss).out == AllOut(rs)
  {
    hide ExactRun, Stream, Texts, AllOut, Feed, Concat, Answers;
    StreamRun(hc, p, 0, MAX_HEADER - |ss|, rs, answer);
    CutsWithinLimitAccepted(hc, p, 0, ss);
  }
}
