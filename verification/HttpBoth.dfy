/** A parser made for requests and responses alike, as HttpParser::InitParser makes it: its first bytes
    tell which of the two comes, and from then on it is a parser of that kind. */
module HttpBoth {
  import opened HttpTypes
  import opened HttpStep
  import opened HttpEvents
  import opened HttpScan
  import opened HttpSlicing
  import opened HttpLoops
  import opened HttpChunked
  import opened HttpMethods
  import opened HttpHead
  import opened HttpContent
  import opened HttpLenient
  import opened HttpAccepted
  import HttpNumbers
  import HttpUrls
  import Q = HttpRequest
  import R = HttpResponse

  /** Before the first byte of a connection. */
  predicate Open(p: Parser) {
    p.errno.Ok? && p.state == StartReqOrRes && !p.lenient && p.verb != CONNECT
  }

  lemma InitIsOpen()
    ensures Open(Init(ParserType.Both)) && Init(ParserType.Both).ptype == ParserType.Both
  {
  }

  /** The parser if it had been made for requests, or for responses. */
  function ForRequests(p: Parser): Parser { p.(ptype := ParserType.Request, state := StartReq) }
  function ForResponses(p: Parser): Parser { p.(ptype := ParserType.Response, state := OnResponse(StartRes)) }

  const H: byte := 72
  const E: byte := 69
  const T: byte := 84

  /** Begins as a request does: not with an 'H', or with "HE". */
  predicate LikeRequest(d: seq<byte>) {
    d != [] && d[0] != CR && d[0] != LF && (d[0] == H ==> |d| > 1 && d[1] == E)
  }

  predicate LikeResponse(d: seq<byte>) { |d| > 1 && d[0] == H && d[1] == T }

  // ---------- the first bytes ----------

  lemma FirstOfRequest(hc: HeadersCallback, p: Parser, n: nat, max: int, ch: byte)
    requires p.errno.Ok? && p.state == StartReqOrRes && ch != H && ch != CR && ch != LF
    requires var s := ByteStep(hc, ForRequests(p), ch); s.p.errno.Ok?
    ensures ExactByte(hc, p, n, max, ch) == ExactByte(hc, ForRequests(p), n, max, ch) || n + 1 > max
  {
    hide UrlByte, HeaderByte, RequestByte, ResponseByte, BodyByte, ChunkSizeByte;
  }

  /** Refused either way. */
  lemma FirstRefused(hc: HeadersCallback, p: Parser, n: nat, max: int, ch: byte)
    requires p.errno.Ok? && p.state == StartReqOrRes && ch != H && ch != CR && ch != LF
    requires !ByteStep(hc, ForRequests(p), ch).p.errno.Ok?
    ensures !ExactByte(hc, p, n, max, ch).Good() && !ExactByte(hc, ForRequests(p), n, max, ch).Good()
    ensures !ExactByte(hc, p, n, max, ch).p.errno.Ok? && !ExactByte(hc, ForRequests(p), n, max, ch).p.errno.Ok?
  {
    hide UrlByte, HeaderByte, RequestByte, ResponseByte, BodyByte, ChunkSizeByte;
  }

  /** Where an 'H' leaves the parser: open to both, or inside HEAD, or inside "HTTP". */
  function Undecided(p: Parser): Parser { p.(flags := NO_FLAGS, contentLength := ULLONG_MAX, state := ResOrRespH) }
  function InHead(p: Parser): Parser {
    Undecided(p).(ptype := ParserType.Request, verb := HEAD, index := 1, state := OnRequest(ReqMethod))
  }
  function InName(p: Parser): Parser { Undecided(p).(ptype := ParserType.Response, state := OnResponse(ResH)) }

  lemma LetterH(hc: HeadersCallback, p: Parser, n: nat, max: int)
    requires p.errno.Ok? && p.state == StartReqOrRes && n + 1 <= max
    ensures ExactByte(hc, p, n, max, H) == Exact(Undecided(p), n + 1, [Notify(MessageBegin)], false)
    ensures ExactByte(hc, ForRequests(p), n, max, H) == Exact(InHead(p), n + 1, [Notify(MessageBegin)], false)
    ensures ExactByte(hc, ForResponses(p), n, max, H) == Exact(InName(p), n + 1, [Notify(MessageBegin)], false)
  {
    assert Meanings([Call(MessageBegin)], H) == [Notify(MessageBegin)];
    hide UrlByte, HeaderByte, BodyByte, ChunkSizeByte, RequestByte;
  }

  lemma LetterE(hc: HeadersCallback, p: Parser, n: nat, max: int)
    requires p.errno.Ok? && n + 1 <= max
    ensures ExactByte(hc, Undecided(p), n, max, E) == Exact(InHead(p).(index := 2), n + 1, [], false)
    ensures ExactByte(hc, InHead(p), n, max, E) == Exact(InHead(p).(index := 2), n + 1, [], false)
  {
    assert Meanings([], E) == [] && MethodString(HEAD)[1] == 'E';
    hide UrlByte, HeaderByte, BodyByte, ChunkSizeByte, ResponseByte, StartRequest, MethodString;
  }

  lemma LetterT(hc: HeadersCallback, p: Parser, n: nat, max: int)
    requires p.errno.Ok? && n + 1 <= max
    ensures var r := InName(p).(state := OnResponse(ResHT));
      ExactByte(hc, Undecided(p), n, max, T) == Exact(r, n + 1, [], false)
      && ExactByte(hc, InName(p), n, max, T) == Exact(r, n + 1, [], false)
  {
    assert Meanings([], T) == [];
    hide UrlByte, HeaderByte, BodyByte, ChunkSizeByte, RequestByte, StartRequest;
  }

  /** 'H' and the letter after it, which decides. */
  lemma FirstTwo(hc: HeadersCallback, p: Parser, n: nat, max: int, rest: seq<byte>)
    requires p.errno.Ok? && p.state == StartReqOrRes && n + 2 <= max
    ensures ExactRun(hc, p, n, max, [H, E] + rest) == ExactRun(hc, ForRequests(p), n, max, [H, E] + rest)
    ensures ExactRun(hc, p, n, max, [H, T] + rest) == ExactRun(hc, ForResponses(p), n, max, [H, T] + rest)
  {
    hide ExactByte, ExactRun, Undecided, InHead, InName;
    OkBoth(p);
    LetterH(hc, p, n, max);
    LetterE(hc, p, n + 1, max);
    LetterT(hc, p, n + 1, max);
    assert [H, E] + rest == [H] + ([E] + rest) && [H, T] + rest == [H] + ([T] + rest);
    FirstAnd(hc, p, n, max, H, [E] + rest);
    FirstAnd(hc, ForRequests(p), n, max, H, [E] + rest);
    FirstAnd(hc, Undecided(p), n + 1, max, E, rest);
    FirstAnd(hc, InHead(p), n + 1, max, E, rest);
    FirstAnd(hc, p, n, max, H, [T] + rest);
    FirstAnd(hc, ForResponses(p), n, max, H, [T] + rest);
    FirstAnd(hc, Undecided(p), n + 1, max, T, rest);
    FirstAnd(hc, InName(p), n + 1, max, T, rest);
  }

  lemma OkBoth(p: Parser)
    ensures Undecided(p).errno == InHead(p).errno == InName(p).errno == p.errno
  {
  }

  lemma FirstAnd(hc: HeadersCallback, p: Parser, n: nat, max: int, ch: byte, rest: seq<byte>)
    requires p.errno.Ok?
    ensures var one := ExactByte(hc, p, n, max, ch);
      if one.Good() then
        var more := ExactRun(hc, one.p, one.n, max, rest);
        ExactRun(hc, p, n, max, [ch] + rest) == more.(out := one.out + more.out)
      else ExactRun(hc, p, n, max, [ch] + rest) == one
  {
    hide ExactByte, ExactRun;
    assert ([ch] + rest)[1..] == rest;
    ExactStep(hc, p, n, max, [ch] + rest);
  }

  /** What begins as a request is read as by a parser made for requests. */
  lemma ReadAsRequest(hc: HeadersCallback, p: Parser, n: nat, max: int, d: seq<byte>)
    requires p.errno.Ok? && p.state == StartReqOrRes && LikeRequest(d) && n + 2 <= max
    ensures var e, f := ExactRun(hc, p, n, max, d), ExactRun(hc, ForRequests(p), n, max, d);
      e == f || (!e.p.errno.Ok? && !f.p.errno.Ok?)
  {
    hide ExactByte, ExactRun, ByteStep;
    if d[0] == H {
      assert d == [H, E] + d[2..];
      FirstTwo(hc, p, n, max, d[2..]);
    } else {
      ExactStep(hc, p, n, max, d);
      ExactStep(hc, ForRequests(p), n, max, d);
      if ByteStep(hc, ForRequests(p), d[0]).p.errno.Ok? {
        FirstOfRequest(hc, p, n, max, d[0]);
      } else {
        FirstRefused(hc, p, n, max, d[0]);
      }
    }
  }

  lemma ReadAsResponse(hc: HeadersCallback, p: Parser, n: nat, max: int, d: seq<byte>)
    requires p.errno.Ok? && p.state == StartReqOrRes && LikeResponse(d) && n + 2 <= max
    ensures ExactRun(hc, p, n, max, d) == ExactRun(hc, ForResponses(p), n, max, d)
  {
    hide ExactRun;
    assert d == [H, T] + d[2..];
    FirstTwo(hc, p, n, max, d[2..]);
  }

  /** 'H' and neither 'E' nor 'T'. */
  lemma NeitherRefused(hc: HeadersCallback, p: Parser, n: nat, max: int, d: seq<byte>)
    requires p.errno.Ok? && p.state == StartReqOrRes && n + 2 <= max && |d| > 1 && d[0] == H && d[1] != E && d[1] != T
    ensures !ExactRun(hc, p, n, max, d).Good()
  {
    assert d == [H] + ([d[1]] + d[2..]);
    LetterH(hc, p, n, max);
    assert !ExactByte(hc, Undecided(p), n + 1, max, d[1]).Good();
    hide ExactByte, ExactRun, ByteStep;
    FirstAnd(hc, p, n, max, H, [d[1]] + d[2..]);
    FirstAnd(hc, Undecided(p), n + 1, max, d[1], d[2..]);
  }

  lemma MethodLike(m: Method)
    ensures |MethodString(m)| >= 3 && (MethodString(m)[0] == 'H' ==> MethodString(m)[1] == 'E')
  {
  }

  lemma MethodDecided(hc: HeadersCallback, p: Parser, n: nat, max: int, w: seq<byte>)
    requires p.errno.Ok? && p.state == StartReqOrRes && n + |w| + 1 <= max
    requires w != [] && SP !in w && w[0] != CR && w[0] != LF && !LikeResponse(w)
    ensures ExactRun(hc, p, n, max, w + [SP]).Good() <==> exists m :: Names(w, MethodString(m))
    ensures forall m | Names(w, MethodString(m)) ::
      ExactRun(hc, p, n, max, w + [SP]) == Exact(Named(ForRequests(p), m), n + |w| + 1, [Notify(MessageBegin)], false)
  {
    var d := w + [SP];
    assert d[0] == w[0] && (|w| > 1 ==> d[1] == w[1]) && (|w| == 1 ==> d[1] == SP);
    forall m | Names(w, MethodString(m)) ensures LikeRequest(d) {
      MethodLike(m);
    }
    hide ExactRun, MethodString;
    MethodAcceptedIff(hc, ForRequests(p), n, max, w);
    if LikeRequest(d) {
      ReadAsRequest(hc, p, n, max, d);
    } else {
      NeitherRefused(hc, p, n, max, d);
    }
  }

  /** On a new connection, in any cut, a method that does not begin with "HT" is accepted exactly if it is
      one of the names of the table. */
  lemma MethodAccepted(hc: HeadersCallback, p: Parser, nread: nat, w: seq<byte>, ss: Slices)
    requires p.errno.Ok? && p.state == StartReqOrRes && Cuts(ss, nread, w + [SP])
    requires w != [] && SP !in w && w[0] != CR && w[0] != LF && !LikeResponse(w)
    ensures Feed(hc, p, nread, ss).ok <==> exists m :: Names(w, MethodString(m))
    ensures forall m | Names(w, MethodString(m)) ::
      Feed(hc, p, nread, ss).p == Named(ForRequests(p), m) && Feed(hc, p, nread, ss).out == [Notify(MessageBegin)]
  {
    hide ExactRun, Feed, Concat, MethodString, Blind, LikeResponse;
    CutDecided(hc, p, nread, ss);
    MethodDecided(hc, p, nread, MAX_HEADER - |ss|, w);
    MethodDecided(Blind(hc, p.lenient), Lenient(p), nread, MAX_HEADER, w);
  }

  // ---------- requests and responses ----------

  /** Every request begins like one, HEAD with "HE". */
  lemma RequestLike(r: Q.Request, rest: seq<byte>)
    ensures LikeRequest(Q.Text(r) + rest) && |Q.RequestLine(r)| >= 2
  {
    var w, line, d := Q.MethodText(r.m), Q.RequestLine(r), Q.Text(r) + rest;
    MethodLike(r.m);
    LettersPrintable(r.m);
    assert Names(w, MethodString(r.m));
    hide MethodString, HttpNumbers.VersionText, ContentText;
    assert line[0] == w[0] && line[1] == w[1];
    assert d[0] == line[0] && d[1] == line[1];
  }

  lemma ResponseLike(r: R.Response, rest: seq<byte>)
    ensures LikeResponse(R.Text(r) + rest) && |R.StatusLine(r)| >= 2
  {
    var line, d := R.StatusLine(r), R.Text(r) + rest;
    hide ContentText, HttpNumbers.Number;
    assert line[0] == H && line[1] == T;
    assert d[0] == line[0] && d[1] == line[1];
  }

  /** A request that is the first message of the connection, whatever its method, is read back as it is
      by a parser made for requests, and the parser is one from then on. */
  lemma RequestReadBack(hc: HeadersCallback, p: Parser, n: nat, max: int, r: Q.Request, answer: int)
    requires Open(p) && Q.Fits(r, answer, n, max) && Answers(hc, answer)
    ensures var e := ExactRun(hc, p, n, max, Q.Text(r));
      e.p.errno.Ok? && e.left == Q.Switches(r, answer) && e.out == Q.Events(r) && e.n == Carry(r.content)
      && e.p.ptype == ParserType.Request && e.p.verb == r.m && e.p.major == r.major && e.p.minor == r.minor
      && e.p.state == (if Q.KeepsAlive(r) then StartReq else Dead) && (Q.KeepsAlive(r) ==> Q.Awaiting(e.p))
  {
    hide ExactRun, Q.Text, Q.Events, Q.KeepsAlive, Q.Switches, Carry, LikeRequest, Answers;
    RequestLike(r, []);
    assert Q.Text(r) + [] == Q.Text(r);
    RequestRoom(r, answer, n, max);
    Q.RequestReadBack(hc, ForRequests(p), n, max, r, answer);
    ReadAsRequest(hc, p, n, max, Q.Text(r));
  }

  lemma RequestRoom(r: Q.Request, answer: int, n: nat, max: int)
    requires Q.Fits(r, answer, n, max)
    ensures n + 2 <= max
  {
    hide Q.RequestLine, HeadersFit, ContentFits, HttpUrls.UrlFits;
  }

  lemma ResponseRoom(r: R.Response, answer: int, n: nat, max: int)
    requires R.Fits(r, answer, n, max)
    ensures n + 2 <= max
  {
    hide R.StatusLine, HeadersFit, ContentFits;
  }

  lemma ResponseReadBack(hc: HeadersCallback, p: Parser, n: nat, max: int, r: R.Response, answer: int)
    requires Open(p) && R.Fits(r, answer, n, max) && Answers(hc, answer)
    ensures var e := ExactRun(hc, p, n, max, R.Text(r));
      e.p.errno.Ok? && e.left == R.Switches(r, answer) && e.out == R.Events(r) && e.n == Carry(r.content)
      && e.p.ptype == ParserType.Response && e.p.status == r.status && e.p.major == r.major && e.p.minor == r.minor
      && e.p.state == (if r.content.UntilEnd? then OnBody(BodyIdentityEof)
                       else if R.KeepsAlive(r, answer) then OnResponse(StartRes) else Dead)
      && (R.KeepsAlive(r, answer) ==> R.Awaiting(e.p))
  {
    hide ExactRun, R.Text, R.Events, R.KeepsAlive, R.Switches, Carry, LikeResponse, Answers;
    ResponseLike(r, []);
    assert R.Text(r) + [] == R.Text(r);
    ResponseRoom(r, answer, n, max);
    R.ResponseReadBack(hc, ForResponses(p), n, max, r, answer);
    ReadAsResponse(hc, p, n, max, R.Text(r));
  }

  // ---------- streams ----------

  lemma NoMessages()
    ensures Q.AllOut([]) == [] && R.AllOut([]) == [] && Q.Texts([]) == [] && R.Texts([]) == []
  {
  }

  /** Requests on a new connection are reported one after the other, however the bytes are cut. */
  lemma RequestsReadBack(hc: HeadersCallback, p: Parser, rs: seq<Q.Request>, answer: int, ss: Slices)
    requires Open(p) && Answers(hc, answer) && Q.CutOf(rs, answer, ss)
    ensures Feed(hc, p, 0, ss).ok && Feed(hc, p, 0, ss).out == Q.AllOut(rs)
    ensures rs != [] ==> Feed(hc, p, 0, ss).p.ptype == ParserType.Request
  {
    var max := MAX_HEADER - |ss|;
    hide ExactRun, Q.Stream, Q.Fits, Q.AllOut, Q.Texts, Feed, Concat, LikeRequest, Q.Text, Answers;
    Q.StreamRun(hc, ForRequests(p), 0, max, rs, answer);
    NoMessages();
    if rs == [] {
      ExactNone(hc, p, 0, max);
    } else {
      RequestsHead(rs, answer, max);
      ReadAsRequest(hc, p, 0, max, Q.Texts(rs));
    }
    CutsWithinLimitAccepted(hc, p, 0, ss);
  }

  lemma RequestsHead(rs: seq<Q.Request>, answer: int, max: int)
    requires rs != [] && Q.Stream(rs, answer, 0, max)
    ensures LikeRequest(Q.Texts(rs)) && 2 <= max
  {
    Q.StreamTail(rs, answer, 0, max);
    hide Q.Text, Q.Stream, Q.Fits, LikeRequest;
    RequestRoom(rs[0], answer, 0, max);
    RequestLike(rs[0], Q.Texts(rs[1..]));
  }

  /** Responses on a new connection likewise; the end of the stream completes a body without an
      announced end. */
  lemma ResponsesReadBack(hc: HeadersCallback, p: Parser, rs: seq<R.Response>, answer: int, ss: Slices)
    requires Open(p) && Answers(hc, answer) && R.CutOf(rs, answer, ss)
    ensures var f := Feed(hc, p, 0, ss);
      f.ok && f.out == R.AllOut(rs) && (rs != [] ==> f.p.ptype == ParserType.Response)
      && (R.OpenEnded(rs) ==> Exec(hc, f.p, f.nread, []).Good() && Exec(hc, f.p, f.nread, []).out == [Notify(MessageComplete)])
  {
    var max := MAX_HEADER - |ss|;
    hide ExactRun, R.Stream, R.Fits, R.AllOut, R.Texts, Feed, Concat, LikeResponse, R.Text, Exec, Answers;
    R.StreamRun(hc, ForResponses(p), 0, max, rs, answer);
    NoMessages();
    if rs == [] {
      ExactNone(hc, p, 0, max);
    } else {
      ResponsesHead(rs, answer, max);
      ReadAsResponse(hc, p, 0, max, R.Texts(rs));
    }
    CutsWithinLimitAccepted(hc, p, 0, ss);
    var f := Feed(hc, p, 0, ss);
    if R.OpenEnded(rs) {
      EndOfStream(hc, f.p, f.nread);
    }
  }

  lemma ResponsesHead(rs: seq<R.Response>, answer: int, max: int)
    requires rs != [] && R.Stream(rs, answer, 0, max)
    ensures LikeResponse(R.Texts(rs)) && 2 <= max
  {
    R.StreamTail(rs, answer, 0, max);
    hide R.Text, R.Stream, R.Fits, LikeResponse;
    ResponseRoom(rs[0], answer, 0, max);
    ResponseLike(rs[0], R.Texts(rs[1..]));
  }
}
