/** Whole responses: what is written as responses is read back as those responses, however it is cut. */
module HttpResponse {
  import opened HttpTypes
  import opened HttpStep
  import opened HttpEvents
  import opened HttpScan
  import opened HttpSlicing
  import opened HttpLoops
  import opened HttpChunked
  import opened HttpHead
  import opened HttpNumbers
  import opened HttpContent

  datatype Response = Response(
    major: nat, minor: nat, status: nat, reason: seq<byte>, headers: seq<Header>, content: Content)

  /** The response as far as the status line goes. */
  predicate StatusFits(r: Response) { r.major <= 999 && r.minor <= 999 && r.status <= 999 && NoLineEnd(r.reason) }

  /** "HTTP/", the version, the status code, each with the byte that ends it. */
  function StatusText(r: Response): seq<byte> {
    NAME + (Number(r.major) + [46] + Number(r.minor)) + [SP] + Number(r.status) + [SP]
  }

  // ---------- the status line ----------

  lemma StatusFirst(hc: HeadersCallback, p: Parser, n: nat, max: int)
    requires p.errno.Ok? && p.state == OnResponse(StartRes) && n + 1 <= max
    ensures ExactByte(hc, p, n, max, 72)
         == Exact(p.(state := OnResponse(ResH), flags := NO_FLAGS, contentLength := ULLONG_MAX), n + 1,
            [Notify(MessageBegin)], false)
  {
    assert Meanings([Call(MessageBegin)], 72) == [Notify(MessageBegin)];
    hide UrlByte, HeaderByte, RequestByte, BodyByte, ChunkSizeByte, StartRequest;
  }

  function NameState(k: nat): ResponseState {
    if k == 1 then ResH else if k == 2 then ResHT else if k == 3 then ResHTT else if k == 4 then ResHTTP else ResFirstHttpMajor
  }

  lemma NameMoves(hc: HeadersCallback, p: Parser, k: nat)
    requires p.errno.Ok? && 1 <= k < 5 && p.state == OnResponse(NameState(k))
    ensures Moves(hc, p, NAME[k], OnResponse(NameState(k + 1)))
  {
  }

  lemma {:induction false} NameRun(hc: HeadersCallback, p: Parser, n: nat, max: int, k: nat)
    requires p.errno.Ok? && 1 <= k <= 5 && p.state == OnResponse(NameState(k)) && n + 5 - k <= max
    ensures ExactRun(hc, p, n, max, NAME[k..]) == Exact(p.(state := OnResponse(ResFirstHttpMajor)), n + 5 - k, [], false)
    decreases 5 - k
  {
    hide ExactRun, Moves;
    if k == 5 {
      assert NAME[k..] == [];
      ExactNone(hc, p, n, max);
    } else {
      var q := p.(state := OnResponse(NameState(k + 1)));
      NameMoves(hc, p, k);
      MoveRun(hc, p, n, max, NAME[k], OnResponse(NameState(k + 1)));
      NameRun(hc, q, n + 1, max, k + 1);
      ExactRunAppend(hc, p, n, max, [NAME[k]], NAME[k + 1..]);
      assert [NAME[k]] + NAME[k + 1..] == NAME[k..];
    }
  }

  /** The parser after the status code. */
  function Begun(p: Parser, r: Response): Parser {
    p.(state := OnResponse(ResStatusStart), flags := NO_FLAGS, contentLength := ULLONG_MAX,
       major := r.major, minor := r.minor, status := r.status)
  }

  lemma StatusRun(hc: HeadersCallback, p: Parser, n: nat, max: int, r: Response)
    requires p.errno.Ok? && p.state == OnResponse(StartRes) && StatusFits(r) && n + |StatusText(r)| <= max
    ensures ExactRun(hc, p, n, max, StatusText(r)) == Exact(Begun(p, r), n + |StatusText(r)|, [Notify(MessageBegin)], false)
  {
    hide ExactRun, ExactByte, Number, Moves;
    var clean := p.(flags := NO_FLAGS, contentLength := ULLONG_MAX);
    var a, d := clean.(state := OnResponse(ResH)), Number(r.major) + [46] + Number(r.minor);
    StatusFirst(hc, p, n, max);
    RunOne(hc, p, n, max, 72);
    NameRun(hc, a, n + 1, max, 1);
    ExactRunAppend(hc, p, n, max, [72], NAME[1..]);
    assert [72] + NAME[1..] == NAME;
    var b := clean.(state := OnResponse(ResFirstHttpMajor));
    PairRun(hc, b, n + 5, max, false, r.major, r.minor);
    ExactRunAppend(hc, p, n, max, NAME, d);
    CodeRun(hc, b.(major := r.major, minor := r.minor, state := OnResponse(ResHttpMinor)), n + 5 + |d|, max, r);
    ExactRunAppend(hc, p, n, max, NAME + d, [SP] + Number(r.status) + [SP]);
    assert NAME + d + ([SP] + Number(r.status) + [SP]) == StatusText(r);
  }

  /** A space, the status code, a space. */
  lemma CodeRun(hc: HeadersCallback, p: Parser, n: nat, max: int, r: Response)
    requires p.errno.Ok? && p.state == OnResponse(ResHttpMinor) && r.status <= 999 && n + 2 + |Number(r.status)| <= max
    ensures ExactRun(hc, p, n, max, [SP] + Number(r.status) + [SP])
         == Exact(p.(state := OnResponse(ResStatusStart), status := r.status), n + 2 + |Number(r.status)|, [], false)
  {
    hide ExactRun, Number, Moves;
    PointMoves(hc, p);
    MoveRun(hc, p, n, max, SP, OnResponse(ResFirstStatusCode));
    var q := p.(state := OnResponse(ResFirstStatusCode));
    NumberRun(hc, q, n + 1, max, StatusCode, r.status);
    ExactRunAppend(hc, p, n, max, [SP], Number(r.status));
    var s := q.(status := r.status, state := OnResponse(ResStatusCode));
    PointMoves(hc, s);
    MoveRun(hc, s, n + 1 + |Number(r.status)|, max, SP, OnResponse(ResStatusStart));
    ExactRunAppend(hc, p, n, max, [SP] + Number(r.status), [SP]);
  }

  // ---------- the reason ----------

  function ReasonEvents(u: seq<byte>): seq<Event> {
    if u == [] then [] else Touches(Status, u) + [Data(Status, [])]
  }

  lemma ReasonByte(hc: HeadersCallback, p: Parser, n: nat, max: int, ch: byte)
    requires p.errno.Ok? && (p.state == OnResponse(ResStatusStart) || p.state == OnResponse(ResStatus)) && n + 1 <= max
      && !LineEnd(ch)
    ensures var e := ExactByte(hc, p, n, max, ch);
      e == Exact(p.(state := OnResponse(ResStatus), index := e.p.index), n + 1, [Data(Status, [ch])], false)
  {
    assert Meanings([Touch(Status)], ch) == [Data(Status, [ch])];
    hide UrlByte, HeaderByte, RequestByte, BodyByte, ChunkSizeByte, StartRequest;
  }

  lemma ReasonEnd(hc: HeadersCallback, p: Parser, n: nat, max: int)
    requires p.errno.Ok? && (p.state == OnResponse(ResStatusStart) || p.state == OnResponse(ResStatus)) && n + 2 <= max
    ensures ExactRun(hc, p, n, max, CRLF)
         == Exact(p.(state := OnHeader(HeaderFieldStart)), n + 2,
                  if p.state == OnResponse(ResStatus) then [Data(Status, [])] else [], false)
  {
    hide UrlByte, HeaderByte, RequestByte, BodyByte, ChunkSizeByte, StartRequest;
    var q := p.(state := OnResponse(ResLineAlmostDone));
    var out := if p.state == OnResponse(ResStatus) then [Data(Status, [])] else [];
    assert Meanings([Close(Status)], CR) == [Data(Status, [])] && Meanings([], CR) == [] && Meanings([], LF) == [];
    assert ExactByte(hc, p, n, max, CR) == Exact(q, n + 1, out, false);
    assert ExactByte(hc, q, n + 1, max, LF) == Exact(q.(state := OnHeader(HeaderFieldStart)), n + 2, [], false);
    hide ExactByte, ExactRun;
    assert CRLF[1..] == [LF] && out + [] == out;
    ExactStep(hc, p, n, max, CRLF);
    RunOne(hc, q, n + 1, max, LF);
  }

  lemma {:induction false} ReasonRun(hc: HeadersCallback, p: Parser, n: nat, max: int, u: seq<byte>)
    requires p.errno.Ok? && (p.state == OnResponse(ResStatusStart) || p.state == OnResponse(ResStatus))
    requires NoLineEnd(u) && n + |u| + 2 <= max
    ensures var e := ExactRun(hc, p, n, max, u + CRLF);
      e == Exact(p.(state := OnHeader(HeaderFieldStart), index := e.p.index), n + |u| + 2,
                 Touches(Status, u) + if u != [] || p.state == OnResponse(ResStatus) then [Data(Status, [])] else [], false)
    decreases |u|
  {
    hide ExactByte, ExactRun;
    if u == [] {
      assert u + CRLF == CRLF;
      ReasonEnd(hc, p, n, max);
    } else {
      var d := u + CRLF;
      assert d[0] == u[0] && d[1..] == u[1..] + CRLF;
      ReasonByte(hc, p, n, max, u[0]);
      ExactStep(hc, p, n, max, d);
      ReasonRun(hc, ExactByte(hc, p, n, max, u[0]).p, n + 1, max, u[1..]);
    }
  }

  // ---------- a response ----------

  function StatusLine(r: Response): seq<byte> {
    StatusText(r) + (r.reason + CRLF)
  }

  function Text(r: Response): seq<byte> {
    StatusLine(r) + (Lines(r.headers) + (CRLF + ContentText(r.content)))
  }

  function Events(r: Response): seq<Event> {
    [Notify(MessageBegin)] + ReasonEvents(r.reason) + RestOut(r.headers, r.content)
  }

  /** The response's turn when on_headers_complete gives this answer: 1 for a response to HEAD. */
  function TurnFor(r: Response, answer: int): Turn { Turn(Bodiless(ParserType.Response, r.status), false, answer) }

  /** A response whose head, written out, fits into `max` bytes, and whose body is the one announced:
      none, of the given length, in chunks, or up to the end of the stream. */
  predicate Fits(r: Response, answer: int, n: nat, max: int) {
    StatusFits(r) && 0 <= answer <= 2 && HeadersFit(r.headers)
    && ContentFits(Announced(r.headers), TurnFor(r, answer), r.content, max)
    && n + |StatusLine(r)| + |Lines(r.headers)| + 2 <= max
  }

  /** Between messages on a connection of a client. */
  predicate Awaiting(p: Parser) {
    p.errno.Ok? && p.state == OnResponse(StartRes) && p.ptype == ParserType.Response && !p.lenient && p.verb != CONNECT
  }

  /** The connection is kept after the response. */
  predicate KeepsAlive(r: Response, answer: int) {
    !r.content.UntilEnd? && !Lasts(Announced(r.headers), TurnFor(r, answer))
    && Keeps(r.major, r.minor, FinalFlags(Announced(r.headers), r.content))
  }

  /** The response is the last one in HTTP: an upgrade, or the callback says so. */
  predicate Switches(r: Response, answer: int) { Leaves(Announced(r.headers), TurnFor(r, answer)) }

  lemma StatusLineRun(hc: HeadersCallback, p: Parser, n: nat, max: int, r: Response)
    requires Awaiting(p) && StatusFits(r) && n + |StatusLine(r)| <= max
    ensures var e := ExactRun(hc, p, n, max, StatusLine(r));
      e == Exact(Begun(p, r).(state := OnHeader(HeaderFieldStart), index := e.p.index), n + |StatusLine(r)|,
                 [Notify(MessageBegin)] + ReasonEvents(r.reason), false)
  {
    var d := StatusText(r);
    hide ExactByte, ExactRun, StatusText, NoLineEnd;
    StatusRun(hc, p, n, max, r);
    ReasonRun(hc, Begun(p, r), n + |d|, max, r.reason);
    ExactRunAppend(hc, p, n, max, d, r.reason + CRLF);
    assert r.reason == [] ==> Touches(Status, r.reason) + [] == [];
  }

  /** A response is read back as the version, the status, the reason, the headers and the body it was
      written from. It is completed once, at the end of the stream if the body lasts until then. Nothing
      after it is read if it is the last one in HTTP; else another may follow exactly if the connection
      is kept. */
  lemma ResponseReadBack(hc: HeadersCallback, p: Parser, n: nat, max: int, r: Response, answer: int)
    requires Awaiting(p) && Fits(r, answer, n, max) && Answers(hc, answer)
    ensures var e := ExactRun(hc, p, n, max, Text(r));
      e.p.errno.Ok? && e.left == Switches(r, answer) && e.out == Events(r) && e.n == Carry(r.content)
      && e.p.ptype == ParserType.Response && e.p.status == r.status && e.p.major == r.major && e.p.minor == r.minor
      && e.p.state == (if r.content.UntilEnd? then OnBody(BodyIdentityEof)
                       else if KeepsAlive(r, answer) then OnResponse(StartRes) else Dead)
      && (KeepsAlive(r, answer) ==> Awaiting(e.p))
    ensures Switches(r, answer) ==> forall rest :: ExactRun(hc, p, n, max, Text(r) + rest) == ExactRun(hc, p, n, max, Text(r))
  {
    hide ExactRun, StatusText, ContentText, ContentEvents, HeadersFit, ContentFits, Announced, RestOut, FinalFlags, Carry,
         ReasonEvents, Bodiless,
         Leaves, Lasts, Answers;
    StatusLineRun(hc, p, n, max, r);
    hide StatusLine;
    var e := ExactRun(hc, p, n, max, StatusLine(r));
    RestOfMessage(hc, e.p, e.n, max, r.headers, TurnFor(r, answer), r.content);
    ExactRunAppend(hc, p, n, max, StatusLine(r), Lines(r.headers) + (CRLF + ContentText(r.content)));
    hide Text;
    if Switches(r, answer) {
      forall rest ensures ExactRun(hc, p, n, max, Text(r) + rest) == ExactRun(hc, p, n, max, Text(r)) {
        RestUnread(hc, p, n, max, Text(r), rest);
      }
    }
  }

  // ---------- responses one after the other ----------

  /** Header bytes counted before message `i`. */
  function Before(rs: seq<Response>, i: nat, n: nat): nat
    requires i <= |rs|
  {
    if i == 0 then n else Carry(rs[i - 1].content)
  }

  /** When `n` header bytes are counted before the first: each fits behind what the one before it leaves
      in the count, none is the last one in HTTP, and each but the last keeps the connection. */
  predicate Stream(rs: seq<Response>, answer: int, n: nat, max: int) {
    forall i | 0 <= i < |rs| ::
      Fits(rs[i], answer, Before(rs, i, n), max) && !Switches(rs[i], answer) && (i < |rs| - 1 ==> KeepsAlive(rs[i], answer))
  }

  function Texts(rs: seq<Response>): seq<byte> {
    if rs == [] then [] else Text(rs[0]) + Texts(rs[1..])
  }

  function AllOut(rs: seq<Response>): seq<Event> {
    if rs == [] then [] else Events(rs[0]) + AllOut(rs[1..])
  }

  /** The last response has the rest of the stream for a body. */
  predicate OpenEnded(rs: seq<Response>) { rs != [] && rs[|rs| - 1].content.UntilEnd? }

  lemma StreamTail(rs: seq<Response>, answer: int, n: nat, max: int)
    requires rs != [] && Stream(rs, answer, n, max)
    ensures Fits(rs[0], answer, n, max) && !Switches(rs[0], answer) && (|rs| > 1 ==> KeepsAlive(rs[0], answer))
    ensures Stream(rs[1..], answer, Carry(rs[0].content), max)
  {
    hide Fits, KeepsAlive, Carry, Switches;
    var rest, c := rs[1..], Carry(rs[0].content);
    assert Before(rs, 0, n) == n && Fits(rs[0], answer, Before(rs, 0, n), max);
    forall i | 0 <= i < |rest|
      ensures Fits(rest[i], answer, Before(rest, i, c), max) && !Switches(rest[i], answer)
      ensures i < |rest| - 1 ==> KeepsAlive(rest[i], answer)
    {
      assert rest[i] == rs[i + 1] && Before(rest, i, c) == Before(rs, i + 1, n);
    }
  }

  lemma {:induction false} StreamRun(hc: HeadersCallback, p: Parser, n: nat, max: int, rs: seq<Response>, answer: int)
    requires Awaiting(p) && Stream(rs, answer, n, max) && Answers(hc, answer)
    ensures var e := ExactRun(hc, p, n, max, Texts(rs));
      e.Good() && e.out == AllOut(rs) && (rs != [] ==> e.p.ptype == ParserType.Response)
      && (OpenEnded(rs) ==> e.p.state == OnBody(BodyIdentityEof))
    decreases |rs|
  {
    if rs == [] {
      ExactNone(hc, p, n, max);
    } else {
      StreamTail(rs, answer, n, max);
      hide ExactRun, Fits, Stream, Events, Awaiting, KeepsAlive, Carry, Switches, Answers, Text;
      ResponseReadBack(hc, p, n, max, rs[0], answer);
      var e := ExactRun(hc, p, n, max, Text(rs[0]));
      if |rs| > 1 {
        StreamRun(hc, e.p, e.n, max, rs[1..], answer);
      } else {
        ExactNone(hc, e.p, e.n, max);
      }
      RunAppend(hc, p, n, max, Text(rs[0]), Texts(rs[1..]));
    }
  }

  /** `ss` cuts what these responses are written as, with a byte per slice left to the header limit. */
  predicate CutOf(rs: seq<Response>, answer: int, ss: Slices) {
    NoneEmpty(ss) && |ss| <= MAX_HEADER && Stream(rs, answer, 0, MAX_HEADER - |ss|) && Concat(ss) == Texts(rs)
  }

  /** Responses sent one after the other are reported one after the other, however the bytes are cut
      into slices; a body without an announced end is completed by the end of the stream. */
  lemma StreamReadBack(hc: HeadersCallback, p: Parser, rs: seq<Response>, answer: int, ss: Slices)
    requires Awaiting(p) && Answers(hc, answer) && CutOf(rs, answer, ss)
    ensures var f := Feed(hc, p, 0, ss);
      f.ok && f.out == AllOut(rs)
      && (OpenEnded(rs) ==> Exec(hc, f.p, f.nread, []).Good() && Exec(hc, f.p, f.nread, []).out == [Notify(MessageComplete)])
  {
    hide ExactRun, Stream, Texts, AllOut, Feed, Concat, Exec, Answers;
    StreamRun(hc, p, 0, MAX_HEADER - |ss|, rs, answer);
    CutsWithinLimitAccepted(hc, p, 0, ss);
    var f := Feed(hc, p, 0, ss);
    if OpenEnded(rs) {
      EndOfStream(hc, f.p, f.nread);
    }
  }
}
