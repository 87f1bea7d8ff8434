/** What any accepted cut says about the stream itself: a parser that checks no header characters,
    with lenient_http_headers set, reads the whole of it to the same end. */
module HttpLenient {
  import opened HttpTypes
  import opened HttpStep
  import opened HttpEvents
  import opened HttpScan
  import opened HttpSlicing

  /** The parser with lenient_http_headers set. */
  function Lenient(p: Parser): Parser { p.(lenient := true) }

  /** The callback as it is, whatever the parser it is shown says about leniency. */
  function Blind(hc: HeadersCallback, lenient: bool): HeadersCallback {
    (q: Parser) => hc(q.(lenient := lenient))
  }

  /** The same step from `p` by a lenient parser; no step changes the setting. */
  predicate SameStep(p: Parser, s: Step, t: Step) {
    s.p.errno.Ok? ==> t == s.(p := Lenient(s.p)) && s.p.lenient == p.lenient
  }

  // ---------- the switch takes no other notice of leniency ----------

  lemma StartSame(p: Parser, ch: byte)
    ensures SameStep(p, StartRequest(p, ch), StartRequest(Lenient(p), ch))
  {
    hide IsAlpha;
  }

  lemma RequestSame(p: Parser, q: RequestState, ch: byte)
    ensures SameStep(p, RequestByte(p, q, ch), RequestByte(Lenient(p), q, ch))
  {
    hide MethodString, OtherMethod, UrlChar, UrlFirst, IsAlpha;
  }

  lemma ResponseSame(p: Parser, r: ResponseState, ch: byte)
    ensures SameStep(p, ResponseByte(p, r, ch), ResponseByte(Lenient(p), r, ch))
  {
  }

  lemma UrlSame(p: Parser, u: UrlState, ch: byte)
    ensures SameStep(p, UrlByte(p, u, ch), UrlByte(Lenient(p), u, ch))
  {
    hide UrlChar;
  }

  lemma NewMessageSame(p: Parser)
    ensures NewMessage(Lenient(p)) == NewMessage(p) && (NeedsEof(Lenient(p)) <==> NeedsEof(p))
  {
  }

  lemma BodyStartSame(p: Parser)
    ensures BodyStart(Lenient(p)) == BodyStart(p).(p := Lenient(BodyStart(p).p)) && BodyStart(p).p.lenient == p.lenient
  {
    NewMessageSame(p);
    hide NewMessage, NeedsEof;
  }

  lemma MessageEndSame(p: Parser)
    ensures MessageEnd(Lenient(p)) == MessageEnd(p).(p := Lenient(MessageEnd(p).p)) && MessageEnd(p).p.lenient == p.lenient
  {
    NewMessageSame(p);
    hide NewMessage;
  }

  lemma BlindAnswers(hc: HeadersCallback, q: Parser)
    ensures Blind(hc, q.lenient)(Lenient(q)) == hc(q)
  {
    assert Lenient(q).(lenient := q.lenient) == q;
  }

  /** The parser shown to on_headers_complete. */
  function Shown(p: Parser): Parser {
    p.(state := OnHeader(HeadersDone), upgrade := (p.flags.upgrade && p.flags.connectionUpgrade) || p.verb == CONNECT)
  }

  /** What follows its answer. */
  function Answered(q: Parser, answer: int): Step {
    if answer == 0 then After([Call(HeadersComplete)], BodyStart(q))
    else if answer == 1 then After([Call(HeadersComplete)], BodyStart(q.(flags := q.flags.(skipBody := true))))
    else if answer == 2 then
      After([Call(HeadersComplete)], BodyStart(q.(upgrade := true, flags := q.flags.(skipBody := true))))
    else Fail(q, CbHeadersComplete)
  }

  lemma AnsweredSame(q: Parser, answer: int)
    ensures SameStep(q, Answered(q, answer), Answered(Lenient(q), answer))
  {
    BodyStartSame(q);
    BodyStartSame(q.(flags := q.flags.(skipBody := true)));
    BodyStartSame(q.(upgrade := true, flags := q.flags.(skipBody := true)));
    hide BodyStart;
  }

  lemma HeadersEndIs(hc: HeadersCallback, p: Parser)
    requires !p.flags.trailing && !(p.flags.chunked && p.flags.contentLength)
    ensures HeadersEnd(hc, p, LF) == Answered(Shown(p), hc(Shown(p)))
  {
    hide BodyStart;
  }

  lemma HeadersEndSame(hc: HeadersCallback, p: Parser, ch: byte)
    ensures SameStep(p, HeadersEnd(hc, p, ch), HeadersEnd(Blind(hc, p.lenient), Lenient(p), ch))
  {
    if ch == LF && !p.flags.trailing && !(p.flags.chunked && p.flags.contentLength) {
      HeadersEndIs(hc, p);
      HeadersEndIs(Blind(hc, p.lenient), Lenient(p));
      BlindAnswers(hc, Shown(p));
      AnsweredSame(Shown(p), hc(Shown(p)));
      assert Lenient(Shown(p)) == Shown(Lenient(p));
      hide HeadersEnd, Answered, Blind, Shown;
    } else {
      MessageEndSame(p.(state := MessageDone));
      hide BodyStart, MessageEnd;
    }
  }

  lemma FieldStartSame(hc: HeadersCallback, p: Parser, ch: byte)
    ensures SameStep(p, FieldStart(hc, p, ch), FieldStart(Blind(hc, p.lenient), Lenient(p), ch))
  {
    HeadersEndSame(hc, p.(state := OnHeader(HeadersAlmostDone)), ch);
    hide HeadersEnd, Token;
  }

  lemma MatchingSame(p: Parser, c: byte)
    ensures forall done, fail :: Matching(Lenient(p), c, done, fail) == Lenient(Matching(p, c, done, fail))
    ensures forall done, fail :: Matching(p, c, done, fail).lenient == p.lenient
  {
    hide Matcher;
  }

  lemma TokenEndSame(p: Parser, ch: byte)
    ensures TokenEnd(Lenient(p), ch) == Lenient(TokenEnd(p, ch)) && TokenEnd(p, ch).lenient == p.lenient
  {
  }

  lemma FieldCharSame(p: Parser, ch: byte, c: byte)
    ensures FieldChar(Lenient(p), ch, c) == Lenient(FieldChar(p, ch, c)) && FieldChar(p, ch, c).lenient == p.lenient
  {
    MatchingSame(p, c);
    hide Matching;
  }

  lemma ValueCharSame(p: Parser, ch: byte)
    ensures ValueChar(Lenient(p), ch) == Lenient(ValueChar(p, ch)) && ValueChar(p, ch).lenient == p.lenient
  {
    MatchingSame(p, Lower(ch));
    TokenEndSame(p, ch);
    hide Lower, Token, Matching, TokenEnd;
  }

  lemma FieldByteSame(p: Parser, ch: byte)
    ensures SameStep(p, FieldByte(p, ch), FieldByte(Lenient(p), ch))
  {
    FieldCharSame(p, ch, Token(ch));
    hide FieldChar, Token;
  }

  lemma ValueByteSame(p: Parser, ch: byte)
    ensures SameStep(p, ValueByte(p, ch), ValueByte(Lenient(p), ch))
  {
    ValueCharSame(p, ch);
    hide ValueChar;
  }

  lemma ValueStartSame(p: Parser, ch: byte)
    ensures SameStep(p, ValueStart(p, ch), ValueStart(Lenient(p), ch))
  {
    hide Lower;
  }

  lemma HeaderSame(hc: HeadersCallback, p: Parser, h: HeaderPlace, ch: byte)
    ensures SameStep(p, HeaderByte(hc, p, h, ch), HeaderByte(Blind(hc, p.lenient), Lenient(p), h, ch))
  {
    var q := p.(flags := ValueFlags(p), state := OnHeader(HeaderFieldStart));
    assert ValueFlags(Lenient(p)) == ValueFlags(p);
    FieldStartSame(hc, p, ch);
    FieldStartSame(hc, q, ch);
    FieldByteSame(p, ch);
    ValueByteSame(p, ch);
    ValueStartSame(p, ch);
    HeadersEndSame(hc, p, ch);
    hide FieldStart, FieldByte, ValueByte, ValueStart, HeadersEnd, ValueFlags;
  }

  lemma ChunkSizeSame(p: Parser, c: ChunkSizeState, ch: byte)
    ensures SameStep(p, ChunkSizeByte(p, c, ch), ChunkSizeByte(Lenient(p), c, ch))
  {
  }

  lemma BodySame(p: Parser, b: BodyState, ch: byte)
    ensures SameStep(p, BodyByte(p, b, ch), BodyByte(Lenient(p), b, ch))
  {
    if p.contentLength > 0 {
      MessageEndSame(p.(contentLength := p.contentLength - 1, state := MessageDone));
    }
    hide MessageEnd;
  }

  lemma StepSame(hc: HeadersCallback, p: Parser, ch: byte)
    ensures SameStep(p, ByteStep(hc, p, ch), ByteStep(Blind(hc, p.lenient), Lenient(p), ch))
  {
    hide StartRequest, RequestByte, ResponseByte, UrlByte, HeaderByte, ChunkSizeByte, BodyByte;
    match p.state
    case Dead =>
    case StartReqOrRes => StartSame(p.(flags := NO_FLAGS, contentLength := ULLONG_MAX, ptype := Request, state := StartReq), ch);
    case ResOrRespH =>
    case StartReq => StartSame(p, ch);
    case OnUrl(u) => UrlSame(p, u, ch);
    case OnRequest(q) => RequestSame(p, q, ch);
    case OnResponse(r) => ResponseSame(p, r, ch);
    case OnHeader(h) => HeaderSame(hc, p, h, ch);
    case OnChunkSize(c) => ChunkSizeSame(p, c, ch);
    case OnBody(b) => BodySame(p, b, ch);
    case MessageDone =>
  }

  // ---------- from slices to the stream ----------

  /** Inside a loop of a slice that is read to its end, the count is within the limit. */
  lemma {:induction false} LoopWithin(hc: HeadersCallback, x: Scan, data: seq<byte>)
    requires x.p.errno.Ok? && x.scanning && (x.p.state == FIELD || x.p.state == VALUE)
    requires ScanEnd(ScanRun(hc, x, data)).Good()
    ensures x.nread + x.lag <= MAX_HEADER
    decreases |data|
  {
    if data != [] {
      var one := ScanByte(hc, x, data[0]);
      var s := ByteStep(hc, x.p, data[0]);
      assert one.Good() && s.p.errno.Ok?;
      LoopBytes(hc, x.p, data[0]);
      hide ByteStep;
      if InLoop(x.p.state, data[0]) {
        assert one.x.scanning && one.x.lag == x.lag + 1 && one.x.nread == x.nread;
        hide ScanByte;
        LoopWithin(hc, one.x, data[1..]);
      }
    }
  }

  /** `e` is the lenient reading of what `x` has read, and has counted no more. */
  predicate Reads(x: Scan, e: Exact) {
    var ahead := if x.scanning then 1 else 0;
    Sound(x) && e.Good() && e.p == Lenient(x.p) && e.n <= MAX_HEADER && e.n + ahead <= x.nread + x.lag
  }

  lemma StepReads(hc: HeadersCallback, x: Scan, e: Exact, ch: byte)
    requires Reads(x, e) && ScanByte(hc, x, ch).Good()
    requires var y := ScanByte(hc, x, ch).x; y.scanning ==> y.nread + y.lag <= MAX_HEADER
    ensures var o, e' := ScanByte(hc, x, ch), ExactByte(Blind(hc, x.p.lenient), e.p, e.n, MAX_HEADER, ch);
      e'.out == o.out && e'.Good() && Reads(o.x, e') && o.x.p.lenient == x.p.lenient
  {
    StepSame(hc, x.p, ch);
    if x.p.state == FIELD || x.p.state == VALUE {
      LoopBytes(hc, x.p, ch);
    }
    hide ByteStep, Blind;
  }

  lemma {:induction false} RunReads(hc: HeadersCallback, x: Scan, e: Exact, data: seq<byte>)
    requires Reads(x, e) && ScanEnd(ScanRun(hc, x, data)).Good()
    ensures var o, e' := ScanRun(hc, x, data), ExactRun(Blind(hc, x.p.lenient), e.p, e.n, MAX_HEADER, data);
      e'.out == o.out && Reads(o.x, e') && o.x.p.lenient == x.p.lenient
    decreases |data|
  {
    hide ScanByte, ExactByte, Blind, Lenient;
    if data != [] {
      var one := ScanByte(hc, x, data[0]);
      assert one.Good();
      ScanKeepsPlace(hc, x, data[0]);
      if one.x.scanning {
        LoopWithin(hc, one.x, data[1..]);
      }
      StepReads(hc, x, e, data[0]);
      RunReads(hc, one.x, ExactByte(Blind(hc, x.p.lenient), e.p, e.n, MAX_HEADER, data[0]), data[1..]);
    }
  }

  lemma ScanKeepsPlace(hc: HeadersCallback, x: Scan, ch: byte)
    requires ScanByte(hc, x, ch).Good()
    ensures var y := ScanByte(hc, x, ch).x; y.p.errno.Ok? && (y.scanning ==> y.p.state == FIELD || y.p.state == VALUE)
  {
    hide ByteStep;
  }

  lemma {:induction false} FeedReads(hc: HeadersCallback, p: Parser, nread: nat, n: nat, ss: Slices)
    requires p.errno.Ok? && n <= nread && n <= MAX_HEADER && Feed(hc, p, nread, ss).ok
    ensures var f, e := Feed(hc, p, nread, ss), ExactRun(Blind(hc, p.lenient), Lenient(p), n, MAX_HEADER, Concat(ss));
      e.Good() && e.p == Lenient(f.p) && e.out == f.out && e.n <= f.nread
    decreases |ss|
  {
    hide ScanByte, ExactByte, Blind;
    if ss != [] {
      var d, b := ss[0], Blind(hc, p.lenient);
      var o := Exec(hc, p, nread, d);
      assert d != [] && o.Good();
      RunReads(hc, Start(p, nread), Exact(Lenient(p), n, [], false), d);
      var e := ExactRun(b, Lenient(p), n, MAX_HEADER, d);
      FeedReads(hc, o.x.p, o.x.nread, e.n, ss[1..]);
      ExactRunAppend(b, Lenient(p), n, MAX_HEADER, d, Concat(ss[1..]));
    }
  }

  /** Whatever cut of a stream is accepted, a lenient parser reads the whole stream, to the same fields
      and with the same callbacks. What it refuses, every cut refuses. */
  lemma AcceptedReads(hc: HeadersCallback, p: Parser, nread: nat, ss: Slices)
    requires p.errno.Ok? && nread <= MAX_HEADER && Feed(hc, p, nread, ss).ok
    ensures var f, e := Feed(hc, p, nread, ss), ExactRun(Blind(hc, p.lenient), Lenient(p), nread, MAX_HEADER, Concat(ss));
      e.Good() && e.p == Lenient(f.p) && e.out == f.out && e.n <= f.nread
  {
    FeedReads(hc, p, nread, nread, ss);
  }

  /** Between the two: a cut is accepted if the exact reading accepts with a byte to spare per slice,
      and refused if the lenient reading refuses. */
  lemma CutDecided(hc: HeadersCallback, p: Parser, nread: nat, ss: Slices)
    requires p.errno.Ok? && NoneEmpty(ss) && nread + |ss| <= MAX_HEADER
    ensures var d := Concat(ss);
      var e := ExactRun(hc, p, nread, MAX_HEADER - |ss|, d);
      var f := Feed(hc, p, nread, ss);
      (e.Good() ==> f.ok && f.p == e.p && f.out == e.out)
      && (f.ok ==> ExactRun(Blind(hc, p.lenient), Lenient(p), nread, MAX_HEADER, d).Good())
  {
    hide ExactRun, Feed, Concat;
    if ExactRun(hc, p, nread, MAX_HEADER - |ss|, Concat(ss)).Good() {
      CutsWithinLimitAccepted(hc, p, nread, ss);
    }
    if Feed(hc, p, nread, ss).ok {
      AcceptedReads(hc, p, nread, ss);
    }
  }
}
