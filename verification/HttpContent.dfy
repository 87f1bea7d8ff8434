/** The body of a message, framed as its head announces, and where it leaves the parser. */
module HttpContent {
  import opened HttpTypes
  import opened HttpStep
  import opened HttpEvents
  import opened HttpScan
  import opened HttpSlicing
  import opened HttpLoops
  import opened HttpChunked
  import opened HttpNames
  import opened HttpValues
  import opened HttpConnection
  import opened HttpFolds
  import opened HttpHead

  /** `UntilEnd`: everything up to the end of the stream. */
  datatype Content =
    | NoContent
    | Raw(data: seq<byte>)
    | Chunks(cs: seq<Chunk>, last: Chunk, trailers: seq<Header>)
    | UntilEnd(data: seq<byte>)

  const LAST_CHUNK: seq<Event> := [Notify(ChunkComplete), Notify(MessageComplete)]

  /** Section 4.1 of RFC 7230: chunks, the last chunk, trailer fields, an empty line. */
  function ChunkedText(cs: seq<Chunk>, last: Chunk, trailers: seq<Header>): seq<byte> {
    EncodeAll(cs) + SizeLine(last) + (Lines(trailers) + CRLF)
  }

  /** The framing while trailer fields are read. */
  function Trailing(f: Framing): Framing { Framing(f.flags.(trailing := true), 0) }

  /** The flags at the end of a message: trailer fields can still set some. */
  function FinalFlags(f: Framing, c: Content): Flags {
    if c.Chunks? then EffectAll(Trailing(f), c.trailers).flags else f.flags
  }

  /** Bytes that stay in the header count after a message, and so are missing to the next one. */
  function Carry(c: Content): nat { if c.Chunks? then |Lines(c.trailers)| + 2 else 0 }

  function ContentText(c: Content): seq<byte> {
    match c case NoContent => [] case Raw(d) => d case Chunks(cs, last, ts) => ChunkedText(cs, last, ts) case UntilEnd(d) => d
  }

  function ContentEvents(c: Content): seq<Event> {
    match c
    case NoContent => [Notify(MessageComplete)]
    case Raw(d) => Touches(Body, d) + [Notify(MessageComplete)]
    case Chunks(cs, _, ts) => AllEvents(cs) + [Notify(ChunkHeader)] + LinesEvents(ts) + LAST_CHUNK
    case UntilEnd(d) => Touches(Body, d)
  }

  /** The framing that `headers` announce. */
  function Announced(headers: seq<Header>): Framing { EffectAll(Framing(NO_FLAGS, ULLONG_MAX), headers) }

  /** A message of this kind has no body unless its head announces one. */
  predicate Bodiless(t: ParserType, status: nat) {
    t.Request? || status / 100 == 1 || status == 204 || status == 304
  }

  /** What else decides about the body: the kind of message, whether the method is CONNECT, and what
      on_headers_complete answers. */
  datatype Turn = Turn(bodiless: bool, connect: bool, answer: int)

  predicate HasBody(f: Framing) { f.flags.chunked || (f.length > 0 && f.length != ULLONG_MAX) }

  /** The message ends with its head, whatever body it announces. */
  predicate EndsAtHead(f: Framing, t: Turn) {
    t.answer == 1 || t.answer == 2 || (Switching(f, t.connect) && (t.connect || !HasBody(f)))
  }

  /** After the message the parser stops: what follows is another protocol. */
  predicate Leaves(f: Framing, t: Turn) { t.answer == 2 || Switching(f, t.connect) }

  /** The body would last until the end of the stream. */
  predicate Lasts(f: Framing, t: Turn) { !t.bodiless && t.answer == 0 && !f.flags.chunked && f.length == ULLONG_MAX }

  /** The body is the one announced, unless the message ends with its head. */
  predicate ContentFits(f: Framing, t: Turn, c: Content, max: int) {
    if EndsAtHead(f, t) then c.NoContent?
    else
    match c
    case NoContent => !f.flags.chunked && (f.length == 0 || (f.length == ULLONG_MAX && t.bodiless))
    case Raw(d) => !f.flags.chunked && 0 < f.length == |d| < ULLONG_MAX
    case Chunks(cs, last, ts) =>
      f.flags.chunked && !f.flags.contentLength && AllData(cs, max) && LastChunk(last, max)
      && AcceptAll(Trailing(f), ts) && |Lines(ts)| + 2 <= max
    case UntilEnd(d) => Lasts(f, t)
  }

  // ---------- bodies ----------

  /** The parser after a message, which leaves it at `q` but for its state. */
  function Completed(q: Parser): Parser { q.(state := NewMessage(q)) }

  lemma LastByteMeans(ch: byte)
    ensures Meanings([Touch(Body), Close(Body)] + [Call(MessageComplete)], ch) == [Data(Body, [ch]), Notify(MessageComplete)]
    ensures Meanings([Touch(Body)], ch) == [Data(Body, [ch])]
  {
    MeaningsAppend([Touch(Body), Close(Body)], [Call(MessageComplete)], ch);
    MeaningsAppend([Touch(Body)], [Close(Body)], ch);
    assert [Touch(Body), Close(Body)] == [Touch(Body)] + [Close(Body)];
    assert Meanings([Touch(Body)], ch) == [Data(Body, [ch])] && Meanings([Close(Body)], ch) == [];
    assert Meanings([Call(MessageComplete)], ch) == [Notify(MessageComplete)];
  }

  lemma RawByte(hc: HeadersCallback, p: Parser, n: nat, max: int, ch: byte)
    requires p.errno.Ok? && p.state == OnBody(BodyIdentity) && 0 < p.contentLength < ULLONG_MAX && n <= max
    ensures var q := p.(contentLength := p.contentLength - 1);
      ExactByte(hc, p, n, max, ch)
      == if q.contentLength > 0 then Exact(q, n, [Data(Body, [ch])], false)
         else Exact(Completed(q), n, [Data(Body, [ch]), Notify(MessageComplete)], p.upgrade)
  {
    var q := p.(contentLength := p.contentLength - 1);
    assert NewMessage(q.(state := MessageDone)) == NewMessage(q);
    LastByteMeans(ch);
    hide RequestByte, ResponseByte, UrlByte, HeaderByte, ChunkSizeByte, StartRequest, NewMessage, Meanings;
  }

  lemma {:induction false} RawRun(hc: HeadersCallback, p: Parser, n: nat, max: int, d: seq<byte>)
    requires p.errno.Ok? && p.state == OnBody(BodyIdentity) && 0 < p.contentLength == |d| < ULLONG_MAX && n <= max
    ensures ExactRun(hc, p, n, max, d)
         == Exact(Completed(p.(contentLength := 0)), n, Touches(Body, d) + [Notify(MessageComplete)], p.upgrade)
    decreases |d|
  {
    hide ExactByte, ExactRun;
    var q := p.(contentLength := p.contentLength - 1);
    RawByte(hc, p, n, max, d[0]);
    ExactStep(hc, p, n, max, d);
    if |d| == 1 {
      assert d == [d[0]];
      RunOne(hc, p, n, max, d[0]);
      assert Touches(Body, d) + [Notify(MessageComplete)] == [Data(Body, [d[0]]), Notify(MessageComplete)];
    } else {
      RawRun(hc, q, n, max, d[1..]);
      assert q.(contentLength := 0) == p.(contentLength := 0);
    }
  }

  /** The connection is kept: by default from HTTP/1.1 on, unless an element of a Connection header
      that is heard says close; before, only if one says keep-alive. */
  predicate Keeps(major: nat, minor: nat, f: Flags) { if major > 0 && minor > 0 then !f.close else f.keepAlive }

  /** The state between messages. */
  function Awaited(t: ParserType): State { if t.Request? then StartReq else OnResponse(StartRes) }

  /** Where a message with content `c`, of which `p` has read the head, leaves the parser. */
  predicate Over(e: Exact, p: Parser, t: Turn, c: Content, out: seq<Event>) {
    var f := Framing(p.flags, p.contentLength);
    e.p.errno.Ok? && e.left == Leaves(f, t) && e.out == out && e.n == Carry(c)
    && e.p.state == (if c.UntilEnd? then OnBody(BodyIdentityEof)
                     else if Keeps(p.major, p.minor, FinalFlags(f, c)) && !Lasts(f, t) then Awaited(p.ptype)
                     else Dead)
    && e.p.ptype == p.ptype && e.p.lenient == p.lenient && e.p.status == p.status
    && e.p.verb == p.verb && e.p.major == p.major && e.p.minor == p.minor
  }

  lemma CompletedIsOver(p: Parser, q: Parser, t: Turn, c: Content, n: nat, out: seq<Event>)
    requires q.errno.Ok? && n == Carry(c) && p.ptype == q.ptype && p.lenient == q.lenient && p.status == q.status
    requires p.verb == q.verb && p.major == q.major && p.minor == q.minor && !c.UntilEnd?
    requires var f := Framing(p.flags, p.contentLength);
      (NeedsEof(q) <==> Lasts(f, t)) && q.flags == FinalFlags(f, c).(skipBody := q.flags.skipBody)
    ensures Over(Exact(Completed(q), n, out, Leaves(Framing(p.flags, p.contentLength), t)), p, t, c, out)
  {
    hide NeedsEof, FinalFlags, Carry, Lasts, Leaves;
  }

  /** The blank line and the content after it, at the end of the head of a message. */
  predicate AtContent(hc: HeadersCallback, p: Parser, n: nat, max: int, t: Turn, c: Content) {
    AtLine(p) && Due(p) == [] && PlainHead(p) && !p.lenient && hc(Headed(p)) == t.answer && 0 <= t.answer <= 2 && n + 2 <= max
    && (t.connect <==> p.verb == CONNECT) && (t.bodiless <==> Bodiless(p.ptype, p.status))
    && ContentFits(FramingOf(p), t, c, max)
  }

  function ContentOut(c: Content): seq<Event> { [Notify(HeadersComplete)] + ContentEvents(c) }

  /** What is settled at the end of the head. */
  lemma HeadedIs(p: Parser, t: Turn)
    requires PlainHead(p) && (t.connect <==> p.verb == CONNECT)
    ensures var q := Headed(p);
      Framing(q.flags, q.contentLength) == FramingOf(p) && !q.flags.skipBody && q.errno == p.errno
          && q.state == OnHeader(HeadersDone)
      && (q.upgrade <==> Switching(FramingOf(p), t.connect)) && q.verb == p.verb && q.ptype == p.ptype && q.status == p.status
  {
    hide ValueFlags;
  }

  /** The head is all there is. */
  lemma BareStart(q: Parser, t: Turn)
    requires q.errno.Ok? && q.state == OnHeader(HeadersDone) && !q.flags.skipBody && 0 <= t.answer <= 2
    requires var f := Framing(q.flags, q.contentLength);
      EndsAtHead(f, t) && (q.upgrade <==> Switching(f, t.connect)) && (t.connect <==> q.verb == CONNECT)
      && (t.bodiless <==> Bodiless(q.ptype, q.status))
    ensures var a := Answering(q, t.answer);
      BodyStart(a) == Step(Completed(a), [Call(MessageComplete)], Leaves(Framing(q.flags, q.contentLength), t), true)
      && (NeedsEof(a) <==> Lasts(Framing(q.flags, q.contentLength), t))
  {
    hide NewMessage;
  }

  /** No body is announced. */
  lemma EmptyStart(q: Parser, t: Turn)
    requires q.errno.Ok? && q.state == OnHeader(HeadersDone) && !q.flags.skipBody && t.answer == 0
    requires var f := Framing(q.flags, q.contentLength);
      !EndsAtHead(f, t) && ContentFits(f, t, NoContent, 0) && (q.upgrade <==> Switching(f, t.connect))
      && (t.bodiless <==> Bodiless(q.ptype, q.status))
    ensures BodyStart(q) == Step(Completed(q), [Call(MessageComplete)], false, true) && !NeedsEof(q)
    ensures !Leaves(Framing(q.flags, q.contentLength), t) && !Lasts(Framing(q.flags, q.contentLength), t)
  {
    hide NewMessage;
  }

  lemma NoContentStart(q: Parser, t: Turn, max: int)
    requires q.errno.Ok? && q.state == OnHeader(HeadersDone) && !q.flags.skipBody && 0 <= t.answer <= 2
    requires var f := Framing(q.flags, q.contentLength);
      ContentFits(f, t, NoContent, max) && (q.upgrade <==> Switching(f, t.connect)) && (t.connect <==> q.verb == CONNECT)
      && (t.bodiless <==> Bodiless(q.ptype, q.status))
    ensures var a, f := Answering(q, t.answer), Framing(q.flags, q.contentLength);
      BodyStart(a) == Step(Completed(a), [Call(MessageComplete)], Leaves(f, t), true) && (NeedsEof(a) <==> Lasts(f, t))
  {
    hide BodyStart, Completed, NeedsEof, Lasts, Leaves;
    if EndsAtHead(Framing(q.flags, q.contentLength), t) {
      BareStart(q, t);
    } else {
      EmptyStart(q, t);
    }
  }

  lemma NoContentRun(hc: HeadersCallback, p: Parser, n: nat, max: int, t: Turn)
    requires AtContent(hc, p, n, max, t, NoContent)
    ensures Over(ExactRun(hc, p, n, max, CRLF + []), Headed(p), t, NoContent, ContentOut(NoContent))
  {
    hide ExactRun, BodyStart, Headed, FramingOf, Completed, NeedsEof, Lasts, Leaves, Bodiless, ContentFits, Meanings, Over;
    var q := Headed(p);
    HeadedIs(p, t);
    HeadEnd(hc, p, n, max);
    var a := Answering(q, t.answer);
    NoContentStart(q, t, max);
    CompleteMeans();
    assert CRLF + [] == CRLF;
    CompletedIsOver(q, a, t, NoContent, 0, ContentOut(NoContent));
  }

  lemma CompleteMeans()
    ensures Meanings([Call(MessageComplete)], LF) == [Notify(MessageComplete)] && Meanings([], LF) == []
  {
  }

  /** A body of a given length. */
  lemma RawStart(q: Parser, t: Turn, d: seq<byte>)
    requires q.errno.Ok? && q.state == OnHeader(HeadersDone) && !q.flags.skipBody && t.answer == 0
    requires var f := Framing(q.flags, q.contentLength);
      !EndsAtHead(f, t) && ContentFits(f, t, Raw(d), 0) && (q.upgrade <==> Switching(f, t.connect))
      && (t.connect <==> q.verb == CONNECT)
    ensures BodyStart(q) == Step(q.(state := OnBody(BodyIdentity)), [], false, true)
    ensures !Lasts(Framing(q.flags, q.contentLength), t) && q.upgrade == Leaves(Framing(q.flags, q.contentLength), t)
    ensures 0 < q.contentLength == |d| < ULLONG_MAX && !NeedsEof(q.(contentLength := 0))
  {
    hide NewMessage;
  }

  lemma RawContentRun(hc: HeadersCallback, p: Parser, n: nat, max: int, t: Turn, d: seq<byte>)
    requires AtContent(hc, p, n, max, t, Raw(d))
    ensures Over(ExactRun(hc, p, n, max, CRLF + d), Headed(p), t, Raw(d), ContentOut(Raw(d)))
  {
    var q := Headed(p);
    HeadedIs(p, t);
    HeadEnd(hc, p, n, max);
    hide ExactRun, BodyStart, Headed, FramingOf;
    var b := q.(state := OnBody(BodyIdentity));
    RawStart(q, t, d);
    hide Completed, NeedsEof, Lasts, Leaves, Bodiless, ContentFits, EndsAtHead;
    assert Meanings([], LF) == [];
    assert [Notify(HeadersComplete)] + [] == [Notify(HeadersComplete)];
    RawRun(hc, b, 0, max, d);
    ExactRunAppend(hc, p, n, max, CRLF, d);
    NeedsEofState(b.(contentLength := 0), OnHeader(HeadersDone));
    CompletedIsOver(q, b.(contentLength := 0), t, Raw(d), 0, ContentOut(Raw(d)));
  }

  lemma NeedsEofState(p: Parser, s: State)
    ensures NeedsEof(p) <==> NeedsEof(p.(state := s))
  {
  }

  lemma EffectFew(f: Framing, h: Header)
    ensures var g := Effect(f, h).flags;
      g.trailing == f.flags.trailing && g.skipBody == f.flags.skipBody
      && (f.flags.chunked ==> g.chunked)
  {
    EffectIs(f, h);
    hide Effect, Told;
    ToldFew(f.flags, h.value, h.folds, true);
  }

  /** The flags a header line can set. */
  lemma EffectIs(f: Framing, h: Header)
    ensures var g := Effect(f, h).flags;
      g == f.flags || g == f.flags.(contentLength := true) || g == f.flags.(chunked := true) || g == f.flags.(upgrade := true)
      || g == Told(f.flags, h.value, h.folds, true)
  {
    hide Is, IsConnection, LengthText, SaysChunked, Decimal, Told;
  }

  lemma {:induction false} ToldFew(f: Flags, v: seq<byte>, fs: seq<seq<byte>>, first: bool)
    ensures var g := Told(f, v, fs, first);
      g.trailing == f.trailing && g.upgrade == f.upgrade && g.skipBody == f.skipBody && g.chunked == f.chunked
    decreases |fs|
  {
    hide AddAll, Heard, Split, Open;
    ConnectionFew(f, Heard(Split(v), first));
    ConnectionFew(f, Heard(Split(v + [HTAB]), first));
    if fs != [] {
      ToldFew(AddAll(f, Heard(Split(v), first)), Tail(fs[0]), fs[1..], false);
    }
  }

  lemma ConnectionFew(f: Flags, ts: seq<seq<byte>>)
    ensures var g := AddAll(f, ts);
      g.trailing == f.trailing && g.upgrade == f.upgrade && g.skipBody == f.skipBody && g.chunked == f.chunked
  {
    hide AddAll, Mentions;
    FlagsMean(f, ts);
  }

  /** Header lines set no other flag. */
  lemma {:induction false} EffectsFew(f: Framing, hs: seq<Header>)
    ensures var g := EffectAll(f, hs).flags;
      g.trailing == f.flags.trailing && g.skipBody == f.flags.skipBody
      && (f.flags.chunked ==> g.chunked)
    decreases |hs|
  {
    hide Effect;
    if hs != [] {
      EffectFew(f, hs[0]);
      EffectsFew(Effect(f, hs[0]), hs[1..]);
    }
  }

  /** The empty line after trailer fields. */
  lemma TrailerEnd(hc: HeadersCallback, p: Parser, n: nat, max: int)
    requires AtLine(p) && FramingOf(p).flags.trailing && n + 2 <= max
    ensures ExactRun(hc, p, n, max, CRLF) == Exact(Completed(Settle(p)), n + 2, Due(p) + LAST_CHUNK, p.upgrade)
  {
    var q := Settle(p).(state := OnHeader(HeadersAlmostDone));
    BlankLineBegins(hc, p, n, max);
    TrailerLf(hc, Settle(p), n + 1, max);
    hide ExactByte, ExactRun, Settle, Completed;
    assert CRLF[1..] == [LF];
    ExactStep(hc, p, n, max, CRLF);
    RunOne(hc, q, n + 1, max, LF);
  }

  lemma TrailerLf(hc: HeadersCallback, s: Parser, n: nat, max: int)
    requires s.errno.Ok? && s.flags.trailing && n + 1 <= max
    ensures ExactByte(hc, s.(state := OnHeader(HeadersAlmostDone)), n, max, LF)
      == Exact(Completed(s), n + 1, LAST_CHUNK, s.upgrade)
  {
    assert NewMessage(s.(state := MessageDone)) == NewMessage(s);
    MeaningsTwo(LF);
    hide RequestByte, ResponseByte, UrlByte, BodyByte, ChunkSizeByte, StartRequest, NewMessage, Meanings;
  }

  /** Trailer fields are reported like header fields, and then the message is complete. */
  lemma TrailersRun(hc: HeadersCallback, p: Parser, max: int, trailers: seq<Header>)
    requires p.errno.Ok? && p.state == OnHeader(HeaderFieldStart) && p.flags.trailing && p.flags.chunked && !p.lenient
    requires AcceptAll(Framing(p.flags, p.contentLength), trailers) && |Lines(trailers)| + 2 <= max
    ensures var e := ExactRun(hc, p, 0, max, Lines(trailers) + CRLF);
      e == Exact(Completed(e.p), |Lines(trailers)| + 2, LinesEvents(trailers) + LAST_CHUNK, p.upgrade)
      && e.p.errno.Ok? && !NeedsEof(e.p) && e.p.flags == EffectAll(Framing(p.flags, p.contentLength), trailers).flags
      && e.p == p.(state := e.p.state, hs := e.p.hs, index := e.p.index, flags := e.p.flags, contentLength := e.p.contentLength)
  {
    hide ExactRun, AcceptAll, EffectAll, LinesEvents, Lines;
    EffectsFew(Framing(p.flags, p.contentLength), trailers);
    LinesRun(hc, p, 0, max, trailers);
    var e := ExactRun(hc, p, 0, max, Lines(trailers));
    TrailerEnd(hc, e.p, e.n, max);
    ExactRunAppend(hc, p, 0, max, Lines(trailers), CRLF);
    assert e.out + (Due(e.p) + LAST_CHUNK) == (e.out + Due(e.p)) + LAST_CHUNK;
    assert Due(p) + LinesEvents(trailers) == LinesEvents(trailers);
    hide FramingOf, Due;
    CompletedTwice(Settle(e.p));
  }

  lemma CompletedTwice(q: Parser)
    ensures Completed(Completed(q)) == Completed(q) && (NeedsEof(Completed(q)) <==> NeedsEof(q))
  {
  }

  /** Chunked decoding inverts chunked encoding, trailer fields included: every byte of every chunk is
      reported, every chunk announced and completed once, every trailer field reported, and the message
      completed once, by the last byte. */
  lemma ChunkedTextRun(hc: HeadersCallback, p: Parser, max: int, cs: seq<Chunk>, last: Chunk, trailers: seq<Header>)
    requires AtChunk(p) && !p.lenient && AllData(cs, max) && LastChunk(last, max)
    requires AcceptAll(Trailing(Framing(p.flags, p.contentLength)), trailers) && |Lines(trailers)| + 2 <= max
    ensures var e := ExactRun(hc, p, 0, max, ChunkedText(cs, last, trailers));
      e == Exact(Completed(e.p), |Lines(trailers)| + 2, ContentEvents(Chunks(cs, last, trailers)), p.upgrade)
      && e.p.errno.Ok? && !NeedsEof(e.p) && e.p.flags == FinalFlags(Framing(p.flags, p.contentLength), Chunks(cs, last, trailers))
      && e.p == p.(state := e.p.state, hs := e.p.hs, index := e.p.index, flags := e.p.flags, contentLength := e.p.contentLength)
  {
    hide ExactRun, AllEvents, EncodeAll, SizeLine, AllData, AcceptAll, EffectAll, LinesEvents, Lines, Completed, NeedsEof;
    ChunksRun(hc, p, max, cs);
    var q := if cs == [] then p else p.(contentLength := 0);
    SizeLineRun(hc, q, max, last);
    ExactRunAppend(hc, p, 0, max, EncodeAll(cs), SizeLine(last));
    var r := Sized(p, 0);
    assert Sized(q, 0) == r;
    TrailersRun(hc, r, max, trailers);
    ExactRunAppend(hc, p, 0, max, EncodeAll(cs) + SizeLine(last), Lines(trailers) + CRLF);
    assert AllEvents(cs) + [Notify(ChunkHeader)] + (LinesEvents(trailers) + LAST_CHUNK)
        == AllEvents(cs) + [Notify(ChunkHeader)] + LinesEvents(trailers) + LAST_CHUNK;
  }

  /** The same however the bytes arrive, as long as neither a size line nor the trailer comes within
      |ss| bytes of the header limit. */
  lemma ChunkedTextAnyCut(
      hc: HeadersCallback, p: Parser, cs: seq<Chunk>, last: Chunk, trailers: seq<Header>, ss: Slices)
    requires AtChunk(p) && !p.upgrade && !p.lenient && NoneEmpty(ss) && Concat(ss) == ChunkedText(cs, last, trailers)
    requires AllData(cs, MAX_HEADER - |ss|) && LastChunk(last, MAX_HEADER - |ss|)
    requires AcceptAll(Trailing(Framing(p.flags, p.contentLength)), trailers) && |Lines(trailers)| + 2 <= MAX_HEADER - |ss|
    ensures var f, c := Feed(hc, p, 0, ss), Chunks(cs, last, trailers);
      f.ok && f.out == ContentEvents(c)
      && Collect(Body, f.out) == Payload(cs) && Count(MessageComplete, f.out) == 1
  {
    hide ExactRun, ChunkedText, ContentEvents, AllData, AcceptAll, Lines, Feed, Concat, Completed, NeedsEof, FinalFlags;
    ChunkedTextRun(hc, p, MAX_HEADER - |ss|, cs, last, trailers);
    CutsWithinLimitAccepted(hc, p, 0, ss);
    ChunkedEventsSay(cs, last, trailers);
  }

  // ---------- what those callbacks say ----------

  /** Events of names and values alone. */
  predicate HeadersOnly(es: seq<Event>) { forall i | 0 <= i < |es| :: es[i].Data? && !es[i].k.Body? }

  lemma {:induction false} HeadersSay(es: seq<Event>, m: NotifyKind)
    requires HeadersOnly(es)
    ensures Collect(Body, es) == [] && Count(m, es) == 0
  {
    if es != [] {
      assert forall i | 0 <= i < |es| - 1 :: es[1..][i] == es[i + 1];
      HeadersSay(es[1..], m);
    }
  }

  lemma {:induction false} TouchesOnly(k: DataKind, d: seq<byte>)
    requires !k.Body?
    ensures HeadersOnly(Touches(k, d) + [Data(k, [])])
  {
    if d != [] {
      TouchesOnly(k, d[1..]);
      OnlyBoth([Data(k, [d[0]])], Touches(k, d[1..]) + [Data(k, [])]);
      assert Touches(k, d) + [Data(k, [])] == [Data(k, [d[0]])] + (Touches(k, d[1..]) + [Data(k, [])]);
    }
  }

  lemma OnlyBoth(a: seq<Event>, b: seq<Event>)
    requires HeadersOnly(a) && HeadersOnly(b)
    ensures HeadersOnly(a + b)
  {
  }

  lemma {:induction false} FoldsOnly(fs: seq<seq<byte>>)
    ensures HeadersOnly(FoldsEvents(fs))
  {
    if fs != [] {
      TouchesOnly(Value, fs[0]);
      FoldsOnly(fs[1..]);
      hide HeadersOnly;
      OnlyBoth(ValueEvents(fs[0]), FoldsEvents(fs[1..]));
    }
  }

  lemma LineSays(h: Header, m: NotifyKind)
    ensures Collect(Body, LineEvents(h)) == [] && Count(m, LineEvents(h)) == 0
  {
    FoldsOnly(h.folds);
    TouchesOnly(Field, h.name);
    TouchesOnly(Value, h.value);
    hide HeadersOnly, FoldsEvents, Touches;
    OnlyBoth(ValueEvents(h.value), FoldsEvents(h.folds));
    OnlyBoth(NameEvents(h.name), ValueEvents(h.value) + FoldsEvents(h.folds));
    HeadersSay(LineEvents(h), m);
  }

  lemma {:induction false} LinesSay(hs: seq<Header>, m: NotifyKind)
    ensures Collect(Body, LinesEvents(hs)) == [] && Count(m, LinesEvents(hs)) == 0
  {
    hide LineEvents;
    if hs != [] {
      LineSays(hs[0], m);
      LinesSay(hs[1..], m);
      CollectAppend(Body, LineEvents(hs[0]), LinesEvents(hs[1..]));
      CountAppend(m, LineEvents(hs[0]), LinesEvents(hs[1..]));
    }
  }

  lemma LastSays(m: NotifyKind)
    ensures Collect(Body, LAST_CHUNK) == [] && Count(m, LAST_CHUNK) == if m.ChunkComplete? || m.MessageComplete? then 1 else 0
  {
    assert LAST_CHUNK == [Notify(ChunkComplete)] + [Notify(MessageComplete)];
    OneSays(ChunkComplete, Body, m);
    OneSays(MessageComplete, Body, m);
    CollectAppend(Body, [Notify(ChunkComplete)], [Notify(MessageComplete)]);
    CountAppend(m, [Notify(ChunkComplete)], [Notify(MessageComplete)]);
  }

  lemma ChunkedCounts(cs: seq<Chunk>, last: Chunk, trailers: seq<Header>, m: NotifyKind)
    ensures var es := ContentEvents(Chunks(cs, last, trailers));
      Collect(Body, es) == Payload(cs)
      && Count(m, es) == if m.ChunkHeader? || m.ChunkComplete? then |cs| + 1 else if m.MessageComplete? then 1 else 0
  {
    var a, b, c := AllEvents(cs), [Notify(ChunkHeader)], LinesEvents(trailers);
    ChunksSay(cs, m);
    OneSays(ChunkHeader, Body, m);
    LinesSay(trailers, m);
    LastSays(m);
    hide Collect, Count, AllEvents, LinesEvents;
    CollectAppend(Body, a, b);
    CollectAppend(Body, a + b, c);
    CollectAppend(Body, a + b + c, LAST_CHUNK);
    CountAppend(m, a, b);
    CountAppend(m, a + b, c);
    CountAppend(m, a + b + c, LAST_CHUNK);
  }

  /** The body reported is the data of the chunks; every chunk is announced and completed once; the
      message is completed once, and last, after the trailer fields. */
  lemma ChunkedEventsSay(cs: seq<Chunk>, last: Chunk, trailers: seq<Header>)
    ensures var es := ContentEvents(Chunks(cs, last, trailers));
      Collect(Body, es) == Payload(cs)
      && Count(ChunkHeader, es) == Count(ChunkComplete, es) == |cs| + 1 && Count(MessageComplete, es) == 1
      && es != [] && es[|es| - 1] == Notify(MessageComplete)
  {
    ChunkedCounts(cs, last, trailers, ChunkHeader);
    ChunkedCounts(cs, last, trailers, ChunkComplete);
    ChunkedCounts(cs, last, trailers, MessageComplete);
    hide Collect, Count, AllEvents, LinesEvents;
  }

  lemma ChunksStart(q: Parser, t: Turn, c: Content, max: int)
    requires q.errno.Ok? && q.state == OnHeader(HeadersDone) && !q.flags.skipBody && t.answer == 0
    requires var f := Framing(q.flags, q.contentLength);
      !EndsAtHead(f, t) && ContentFits(f, t, c, max) && c.Chunks? && (q.upgrade <==> Switching(f, t.connect))
      && (t.connect <==> q.verb == CONNECT)
    ensures BodyStart(q) == Step(q.(state := OnChunkSize(ChunkSizeStart)), [], false, true) && q.flags.chunked
    ensures !Lasts(Framing(q.flags, q.contentLength), t) && q.upgrade == Leaves(Framing(q.flags, q.contentLength), t)
  {
    hide NewMessage, NeedsEof, AllData, LastChunk, AcceptAll, Lines;
  }

  lemma ChunksBegin(hc: HeadersCallback, p: Parser, n: nat, max: int, t: Turn, c: Content)
    requires AtContent(hc, p, n, max, t, c) && c.Chunks?
    ensures var b := Headed(p).(state := OnChunkSize(ChunkSizeStart));
      ExactRun(hc, p, n, max, CRLF) == Exact(b, 0, [Notify(HeadersComplete)], false)
      && AtChunk(b) && !b.lenient && Framing(b.flags, b.contentLength) == FramingOf(p)
      && !Lasts(FramingOf(p), t) && b.upgrade == Leaves(FramingOf(p), t)
  {
    HeadedIs(p, t);
    HeadEnd(hc, p, n, max);
    hide ExactRun, BodyStart, AllData, LastChunk, AcceptAll, Lines, FramingOf;
    ChunksStart(Headed(p), t, c, max);
    hide Lasts, Leaves, Bodiless, EndsAtHead;
    assert Meanings([], LF) == [];
    assert [Notify(HeadersComplete)] + [] == [Notify(HeadersComplete)];
  }

  lemma ChunksRead(hc: HeadersCallback, p: Parser, n: nat, max: int, t: Turn, cs: seq<Chunk>, last: Chunk, trailers: seq<Header>)
    requires AtContent(hc, p, n, max, t, Chunks(cs, last, trailers))
    ensures var c := Chunks(cs, last, trailers);
      Over(ExactRun(hc, p, n, max, CRLF + ContentText(c)), Headed(p), t, c, ContentOut(c))
  {
    var c := Chunks(cs, last, trailers);
    hide ExactRun, AllEvents, AllData, AcceptAll, EffectAll, LinesEvents, Lines, Completed, NeedsEof, ChunkedText,
         FramingOf, FinalFlags, Settle,
         ContentEvents, Over, Lasts, Leaves, Bodiless;
    ChunksFit(FramingOf(p), t, cs, last, trailers, max);
    hide ContentFits, EndsAtHead;
    HeadedIs(p, t);
    ChunksBegin(hc, p, n, max, t, c);
    var q := Headed(p);
    var b := q.(state := OnChunkSize(ChunkSizeStart));
    ChunkedTextRun(hc, b, max, cs, last, trailers);
    var e := ExactRun(hc, b, 0, max, ChunkedText(cs, last, trailers));
    ExactRunAppend(hc, p, n, max, CRLF, ChunkedText(cs, last, trailers));
    SkipsNothing(FramingOf(p), c);
    CompletedIsOver(q, e.p, t, c, |Lines(trailers)| + 2, ContentOut(c));
  }

  lemma ChunksFit(f: Framing, t: Turn, cs: seq<Chunk>, last: Chunk, trailers: seq<Header>, max: int)
    requires ContentFits(f, t, Chunks(cs, last, trailers), max)
    ensures AllData(cs, max) && LastChunk(last, max) && AcceptAll(Trailing(f), trailers) && |Lines(trailers)| + 2 <= max
  {
    hide AllData, LastChunk, AcceptAll, Lines;
  }

  lemma SkipsNothing(f: Framing, c: Content)
    ensures FinalFlags(f, c).skipBody == f.flags.skipBody
  {
    if c.Chunks? {
      EffectsFew(Trailing(f), c.trailers);
    }
    hide EffectAll;
  }

  lemma RestByteRead(hc: HeadersCallback, p: Parser, n: nat, max: int, ch: byte)
    requires p.errno.Ok? && p.state == OnBody(BodyIdentityEof) && n <= max
    ensures ExactByte(hc, p, n, max, ch) == Exact(p, n, [Data(Body, [ch])], false)
  {
    assert Meanings([Touch(Body)], ch) == [Data(Body, [ch])];
  }

  lemma {:induction false} RestRun(hc: HeadersCallback, p: Parser, n: nat, max: int, d: seq<byte>)
    requires p.errno.Ok? && p.state == OnBody(BodyIdentityEof) && n <= max
    ensures ExactRun(hc, p, n, max, d) == Exact(p, n, Touches(Body, d), false)
    decreases |d|
  {
    hide ExactByte, ExactRun;
    if d == [] {
      ExactNone(hc, p, n, max);
    } else {
      RestByteRead(hc, p, n, max, d[0]);
      ExactStep(hc, p, n, max, d);
      RestRun(hc, p, n, max, d[1..]);
    }
  }

  lemma LastingStart(q: Parser, t: Turn, d: seq<byte>)
    requires q.errno.Ok? && q.state == OnHeader(HeadersDone) && !q.flags.skipBody && t.answer == 0
    requires var f := Framing(q.flags, q.contentLength);
      !EndsAtHead(f, t) && ContentFits(f, t, UntilEnd(d), 0) && (q.upgrade <==> Switching(f, t.connect))
      && (t.connect <==> q.verb == CONNECT) && (t.bodiless <==> Bodiless(q.ptype, q.status))
    ensures BodyStart(q) == Step(q.(state := OnBody(BodyIdentityEof)), [], false, true)
    ensures !Leaves(Framing(q.flags, q.contentLength), t)
  {
    hide NewMessage;
  }

  lemma RestRead(hc: HeadersCallback, p: Parser, n: nat, max: int, t: Turn, d: seq<byte>)
    requires AtContent(hc, p, n, max, t, UntilEnd(d))
    ensures Over(ExactRun(hc, p, n, max, CRLF + d), Headed(p), t, UntilEnd(d), ContentOut(UntilEnd(d)))
  {
    HeadedIs(p, t);
    HeadEnd(hc, p, n, max);
    hide ExactRun, BodyStart, FramingOf, Headed;
    var b := Headed(p).(state := OnBody(BodyIdentityEof));
    LastingStart(Headed(p), t, d);
    hide Lasts, Leaves, Bodiless, EndsAtHead, ContentFits;
    assert Meanings([], LF) == [];
    assert [Notify(HeadersComplete)] + [] == [Notify(HeadersComplete)];
    RestRun(hc, b, 0, max, d);
    ExactRunAppend(hc, p, n, max, CRLF, d);
  }

  lemma ContentRun(hc: HeadersCallback, p: Parser, n: nat, max: int, t: Turn, c: Content)
    requires AtContent(hc, p, n, max, t, c)
    ensures Over(ExactRun(hc, p, n, max, CRLF + ContentText(c)), Headed(p), t, c, ContentOut(c))
  {
    hide ExactRun, Over, AtContent, ContentOut, ChunkedText;
    match c
    case NoContent => NoContentRun(hc, p, n, max, t);
    case Raw(d) => RawContentRun(hc, p, n, max, t, d);
    case Chunks(cs, last, ts) => ChunksRead(hc, p, n, max, t, cs, last, ts);
    case UntilEnd(d) => RestRead(hc, p, n, max, t, d);
  }

  /** The end of the stream completes a message whose body lasts until then. */
  lemma EndOfStream(hc: HeadersCallback, p: Parser, nread: nat)
    requires p.errno.Ok? && p.state == OnBody(BodyIdentityEof)
    ensures Exec(hc, p, nread, []).Good() && Exec(hc, p, nread, []).out == [Notify(MessageComplete)]
  {
  }

  // ---------- header lines and content ----------

  /** Header lines that announce the body one way only. */
  predicate HeadersFit(headers: seq<Header>) {
    AcceptAll(Framing(NO_FLAGS, ULLONG_MAX), headers)
    && !(Announced(headers).flags.chunked && Announced(headers).flags.contentLength)
  }

  /** on_headers_complete always gives this answer. */
  ghost predicate Answers(hc: HeadersCallback, answer: int) { forall q :: hc(q) == answer }

  function TurnOf(s: Parser, answer: int): Turn { Turn(Bodiless(s.ptype, s.status), s.verb == CONNECT, answer) }

  /** At the first header line of a message. */
  predicate AtHeaders(s: Parser) {
    s.errno.Ok? && s.state == OnHeader(HeaderFieldStart) && s.flags == NO_FLAGS && s.contentLength == ULLONG_MAX
    && !s.lenient
  }

  function RestOut(headers: seq<Header>, c: Content): seq<Event> { LinesEvents(headers) + ContentOut(c) }

  /** Where a message is left depends on these fields of the parser after its head. */
  lemma Same(p: Parser, q: Parser, e: Exact, before: seq<Event>, out: seq<Event>, t: Turn, c: Content)
    requires Over(e, p, t, c, out)
    requires p.flags == q.flags && p.contentLength == q.contentLength && p.major == q.major && p.minor == q.minor
    requires p.ptype == q.ptype && p.lenient == q.lenient && p.status == q.status && p.verb == q.verb
    ensures e.p.errno.Ok? && Over(e.(out := before + e.out), q, t, c, before + out)
  {
    hide FinalFlags, Carry, Lasts, Leaves;
  }

  /** All of a message after its first line. */
  lemma RestOfMessage(hc: HeadersCallback, s: Parser, n: nat, max: int, headers: seq<Header>, t: Turn, c: Content)
    requires AtHeaders(s) && HeadersFit(headers) && ContentFits(Announced(headers), t, c, max)
    requires t == TurnOf(s, t.answer) && 0 <= t.answer <= 2
    requires n + |Lines(headers)| + 2 <= max && Answers(hc, t.answer)
    ensures Over(ExactRun(hc, s, n, max, Lines(headers) + (CRLF + ContentText(c))),
                 s.(flags := Announced(headers).flags, contentLength := Announced(headers).length), t, c, RestOut(headers, c))
  {
    hide ExactRun, AcceptAll, EffectAll, ContentFits, ContentText, ContentEvents, Bodiless, LinesEvents, Lines, ValueFlags, Over;
    var out := LinesEvents(headers);
    EffectsFew(Framing(NO_FLAGS, ULLONG_MAX), headers);
    LinesRun(hc, s, n, max, headers);
    var e := ExactRun(hc, s, n, max, Lines(headers));
    assert Due(s) + out == out;
    var q, d := Settle(e.p), CRLF + ContentText(c);
    SettledIs(e.p);
    LineFirst(hc, e.p, e.n, max, d);
    ContentRun(hc, q, e.n, max, t, c);
    hide FramingOf, Settle, Due, AtContent, ContentOut, AtLine, Kept;
    ExactRunAppend(hc, s, n, max, Lines(headers), d);
    var f := ExactRun(hc, q, e.n, max, d);
    assert e.out + (Due(e.p) + f.out) == (e.out + Due(e.p)) + f.out;
    Same(Headed(q), s.(flags := Announced(headers).flags, contentLength := Announced(headers).length), f, out,
        ContentOut(c), t, c);
  }
}
