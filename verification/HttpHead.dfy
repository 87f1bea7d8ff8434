/** The head of a message: the path of a request, the header lines, the blank line. */
module HttpHead {
  import opened HttpTypes
  import opened HttpStep
  import opened HttpEvents
  import opened HttpSlicing
  import opened HttpLoops
  import opened HttpChunked
  import opened HttpMethods
  import opened HttpNames
  import opened HttpValues
  import opened HttpFolds
  import HttpConnection

  // ---------- the request line ----------

  predicate Visible(ch: byte) { 33 <= ch <= 126 }

  predicate AllVisible(u: seq<byte>) { forall i | 0 <= i < |u| :: Visible(u[i]) }

  lemma AllVisibleTail(u: seq<byte>)
    requires u != []
    ensures AllVisible(u) <==> Visible(u[0]) && AllVisible(u[1..])
  {
    assert forall i | 0 < i < |u| :: u[i] == u[1..][i - 1];
  }

  predicate UrlSpace(ch: byte) { ch == SP || ch == CR || ch == LF }

  predicate NoUrlSpace(u: seq<byte>) { forall i | 0 <= i < |u| :: !UrlSpace(u[i]) }

  predicate PastAuthority(u: UrlState) {
    u.ReqPath? || u.ReqQueryStringStart? || u.ReqQueryString? || u.ReqFragmentStart? || u.ReqFragment?
  }

  /** Inside the path of a URL, or after it. */
  predicate InPath(p: Parser) { p.errno.Ok? && p.state.OnUrl? && PastAuthority(p.state.u) }

  lemma PathChar(u: UrlState, ch: byte)
    requires PastAuthority(u) && !UrlSpace(ch)
    ensures if Visible(ch) then UrlChar(u, ch).UrlTo? && PastAuthority(UrlChar(u, ch).u) else UrlChar(u, ch).UrlDead?
  {
  }

  lemma PathByte(hc: HeadersCallback, p: Parser, n: nat, max: int, ch: byte)
    requires InPath(p) && !UrlSpace(ch) && n + 1 <= max
    ensures var e := ExactByte(hc, p, n, max, ch);
      if Visible(ch) then e == Exact(p.(state := e.p.state), n + 1, [Data(Url, [ch])], false) && InPath(e.p)
      else !e.Good()
  {
    PathChar(p.state.u, ch);
    hide UrlChar, Visible;
    assert Meanings([Touch(Url)], ch) == [Data(Url, [ch])];
  }

  lemma PathEnd(hc: HeadersCallback, p: Parser, n: nat, max: int)
    requires InPath(p) && n + 1 <= max
    ensures ExactByte(hc, p, n, max, SP) == Exact(p.(state := OnRequest(ReqHttpStart)), n + 1, [Data(Url, [])], false)
  {
    assert Meanings([Close(Url)], SP) == [Data(Url, [])];
  }

  function UrlEvents(u: seq<byte>): seq<Event> { Touches(Url, u) + [Data(Url, [])] }

  lemma UrlEventsTail(u: seq<byte>)
    requires u != []
    ensures UrlEvents(u) == [Data(Url, [u[0]])] + UrlEvents(u[1..])
  {
  }

  lemma {:induction false} PathRun(hc: HeadersCallback, p: Parser, n: nat, max: int, u: seq<byte>)
    requires InPath(p) && NoUrlSpace(u) && n + |u| + 1 <= max
    ensures var e := ExactRun(hc, p, n, max, u + [SP]);
      if AllVisible(u) then e == Exact(p.(state := OnRequest(ReqHttpStart)), n + |u| + 1, UrlEvents(u), false)
      else !e.Good()
    decreases |u|
  {
    hide ExactByte, ExactRun, PastAuthority, Visible;
    if u == [] {
      assert u + [SP] == [SP];
      RunOne(hc, p, n, max, SP);
      PathEnd(hc, p, n, max);
      assert UrlEvents(u) == [Data(Url, [])];
    } else {
      var t := u + [SP];
      assert t[0] == u[0] && t[1..] == u[1..] + [SP];
      AllVisibleTail(u);
      UrlEventsTail(u);
      hide AllVisible, UrlEvents;
      PathByte(hc, p, n, max, u[0]);
      ExactStep(hc, p, n, max, t);
      if Visible(u[0]) {
        PathRun(hc, ExactByte(hc, p, n, max, u[0]).p, n + 1, max, u[1..]);
      }
    }
  }

  lemma PathStart(hc: HeadersCallback, p: Parser, n: nat, max: int, ch: byte)
    requires p.errno.Ok? && p.state == OnRequest(ReqSpacesBeforeUrl) && p.verb != CONNECT && n + 1 <= max
    requires ch == '/' as int || ch == '*' as int
    ensures ExactByte(hc, p, n, max, ch) == Exact(p.(state := OnUrl(ReqPath)), n + 1, [Data(Url, [ch])], false)
  {
    assert Meanings([Touch(Url)], ch) == [Data(Url, [ch])];
  }

  /** A URL that starts with '/' or '*' is accepted exactly if all of it is visible ASCII. */
  lemma UrlAcceptedIff(hc: HeadersCallback, p: Parser, n: nat, max: int, u: seq<byte>)
    requires p.errno.Ok? && p.state == OnRequest(ReqSpacesBeforeUrl) && p.verb != CONNECT && n + |u| + 1 <= max
    requires u != [] && (u[0] == '/' as int || u[0] == '*' as int) && NoUrlSpace(u)
    ensures var e := ExactRun(hc, p, n, max, u + [SP]);
      if AllVisible(u) then e == Exact(p.(state := OnRequest(ReqHttpStart)), n + |u| + 1, UrlEvents(u), false)
      else !e.Good()
  {
    var t := u + [SP];
    assert t[0] == u[0] && t[1..] == u[1..] + [SP];
    AllVisibleTail(u);
    UrlEventsTail(u);
    hide ExactByte, ExactRun, AllVisible, UrlEvents;
    PathStart(hc, p, n, max, u[0]);
    ExactStep(hc, p, n, max, t);
    PathRun(hc, p.(state := OnUrl(ReqPath)), n + 1, max, u[1..]);
  }

  // ---------- header lines ----------

  /** `folds`: the lines, each with its leading blank, over which the value goes on. */
  datatype Header = Header(name: seq<byte>, ows: seq<byte>, value: seq<byte>, folds: seq<seq<byte>>)

  function ValueLines(h: Header): seq<byte> { h.value + CRLF + FoldsText(h.folds) }

  function Line(h: Header): seq<byte> { h.name + [COLON] + h.ows + ValueLines(h) }

  /** The name and its end, then the value and its end for every line of the value, an empty one too. */
  function LineEvents(h: Header): seq<Event> { NameEvents(h.name) + (ValueEvents(h.value) + FoldsEvents(h.folds)) }

  /** What the header lines read so far say about the body. */
  datatype Framing = Framing(flags: Flags, length: nat)

  /** At the beginning of a header line; the flags of the value before it may still be due, and the
      callback for an empty one. */
  predicate AtLine(p: Parser) {
    p.errno.Ok?
    && (p.state == OnHeader(HeaderFieldStart) || p.state == OnHeader(HeaderValueLws)
       || p.state == OnHeader(HeaderValueDiscardLws))
  }

  function FramingOf(p: Parser): Framing {
    Framing(if p.state == OnHeader(HeaderFieldStart) then p.flags else ValueFlags(p), p.contentLength)
  }

  function Due(p: Parser): seq<Event> { if p.state == OnHeader(HeaderValueDiscardLws) then [Data(Value, [])] else [] }

  function Settle(p: Parser): Parser { p.(flags := FramingOf(p).flags, state := OnHeader(HeaderFieldStart)) }

  /** Reading header lines changes no other field. */
  predicate Kept(q: Parser, p: Parser) {
    q == p.(state := q.state, hs := q.hs, index := q.index, flags := q.flags, contentLength := q.contentLength)
  }

  predicate IsConnection(name: seq<byte>) { Is(name, CONNECTION) || Is(name, PROXY_CONNECTION) }

  /** What line `h` adds to the framing. */
  function Effect(f: Framing, h: Header): Framing {
    if h.value == [] then f
    else if Is(h.name, CONTENT_LENGTH) && LengthText(h.value) then Framing(f.flags.(contentLength := true), Decimal(h.value))
    else if Is(h.name, TRANSFER_ENCODING) && SaysChunked(h.value) && h.folds == [] then f.(flags := f.flags.(chunked := true))
    else if IsConnection(h.name) then f.(flags := Told(f.flags, h.value, h.folds, true))
    else if Is(h.name, UPGRADE) then f.(flags := f.flags.(upgrade := true))
    else f
  }

  function EffectAll(f: Framing, hs: seq<Header>): Framing
    decreases |hs|
  {
    if hs == [] then f else EffectAll(Effect(f, hs[0]), hs[1..])
  }

  predicate ValueFits(f: Framing, h: Header)
    requires h.value != []
  {
    !Blank(h.value[0]) && NoLineEnd(h.value) && Folds(h.folds)
    && if Is(h.name, CONTENT_LENGTH) then
         !f.flags.contentLength && LengthText(h.value) && Decimal(h.value) <= LENGTH_LIMIT && h.folds == []
       else HeaderText(h.value)
  }

  /** A header with a token for a name; its value is empty, or begins with something else than a blank. */
  predicate Acceptable(f: Framing, h: Header) {
    h.name != [] && COLON !in h.name && TokenText(h.name) && Leading(h.ows)
    && if h.value == [] then h.folds == [] else ValueFits(f, h)
  }

  predicate AcceptAll(f: Framing, hs: seq<Header>)
    decreases |hs|
  {
    hs == [] || (Acceptable(f, hs[0]) && AcceptAll(Effect(f, hs[0]), hs[1..]))
  }

  /** A line begins by settling what the line before it said. */
  lemma LineFirst(hc: HeadersCallback, p: Parser, n: nat, max: int, d: seq<byte>)
    requires AtLine(p) && d != [] && !Blank(d[0]) && n + 1 <= max
    ensures var e, f := ExactRun(hc, Settle(p), n, max, d), ExactRun(hc, p, n, max, d);
      f.p.errno == e.p.errno && (e.p.errno.Ok? ==> f == e.(out := Due(p) + e.out))
  {
    hide ExactByte, ExactRun, Due, Settle, FramingOf;
    SettledIs(p);
    LineFirstByte(hc, p, n, max, d[0]);
    ExactStep(hc, p, n, max, d);
    ExactStep(hc, Settle(p), n, max, d);
    var one := ExactByte(hc, Settle(p), n, max, d[0]);
    if one.Good() {
      var more := ExactRun(hc, one.p, one.n, max, d[1..]);
      assert Due(p) + one.out + more.out == Due(p) + (one.out + more.out);
    }
  }

  lemma LineFirstByte(hc: HeadersCallback, p: Parser, n: nat, max: int, ch: byte)
    requires AtLine(p) && !Blank(ch) && n + 1 <= max
    ensures var e, f := ExactByte(hc, Settle(p), n, max, ch), ExactByte(hc, p, n, max, ch);
      f.p.errno == e.p.errno && (e.p.errno.Ok? ==> f == e.(out := Due(p) + e.out))
  {
    LineFirstStep(hc, p, ch);
    var s := ByteStep(hc, Settle(p), ch);
    MeaningsAppend([Empty(Value)], s.cmds, ch);
    assert Meanings([Empty(Value)], ch) == [Data(Value, [])];
    hide ValueFlags, ByteStep, Meanings;
  }

  lemma LineFirstStep(hc: HeadersCallback, p: Parser, ch: byte)
    requires AtLine(p) && !Blank(ch)
    ensures var s := ByteStep(hc, Settle(p), ch);
      ByteStep(hc, p, ch) == if Due(p) == [] then s else After([Empty(Value)], s)
  {
    hide ValueFlags, FieldStart;
  }

  // ---------- one header line ----------

  /** `e`: from `q`, before it, the first line of the value of `h` was read but for its end. */
  predicate ValueDone(e: Exact, q: Parser, n: nat, h: Header) {
    e == Exact(e.p, n + |h.value|, Touches(Value, h.value), false)
    && e.p.errno.Ok? && e.p.state == VALUE && Kept(e.p, q) && (h.folds != [] ==> Ordinary(e.p.hs))
    && Framing(if h.folds == [] then ValueFlags(e.p) else e.p.flags, e.p.contentLength)
       == Effect(Framing(q.flags, q.contentLength), h)
  }

  /** Ends a value without a flag. */
  predicate SaysNothing(hs: HeaderState) {
    !hs.TransferEncodingChunked? && !hs.ConnectionKeepAlive? && !hs.ConnectionClose? && !hs.ConnectionUpgrade?
  }

  /** The name of `h` has been taken for what it is. */
  predicate Taken(hs: HeaderState, h: Header) {
    (hs.HContentLength? <==> Is(h.name, CONTENT_LENGTH))
    && (hs.HTransferEncoding? <==> Is(h.name, TRANSFER_ENCODING))
    && (hs.HConnection? <==> IsConnection(h.name))
    && (hs.HUpgrade? <==> Is(h.name, UPGRADE))
    && !hs.MatchingConnectionTokenStart? && SaysNothing(hs)
  }

  predicate BeforeValue(q: Parser, h: Header) {
    q.errno.Ok? && q.state == OnHeader(HeaderValueDiscardWs) && Taken(q.hs, h) && !q.lenient
  }

  lemma LengthValue(hc: HeadersCallback, q: Parser, n: nat, max: int, h: Header)
    requires BeforeValue(q, h) && q.hs.HContentLength? && h.value != []
      && Acceptable(Framing(q.flags, q.contentLength), h) && n + |h.value| <= max
    ensures ValueDone(ExactRun(hc, q, n, max, h.value), q, n, h)
  {
    hide ExactRun, Is, LengthText, Decimal, TokenText, NoLineEnd;
    LengthAcceptedIff(hc, q, n, max, h.value);
  }

  lemma CodingValue(hc: HeadersCallback, q: Parser, n: nat, max: int, h: Header)
    requires BeforeValue(q, h) && q.hs.HTransferEncoding? && h.value != []
      && Acceptable(Framing(q.flags, q.contentLength), h) && n + |h.value| <= max
    ensures ValueDone(ExactRun(hc, q, n, max, h.value), q, n, h)
  {
    HeaderTextTail(h.value);
    hide ExactRun, Is, LengthText, TokenText, NoLineEnd, SaysChunked, HeaderText;
    ChunkedValueIff(hc, q, n, max, h.value);
  }

  lemma PlainValue(hc: HeadersCallback, q: Parser, n: nat, max: int, h: Header)
    requires BeforeValue(q, h) && Ordinary(q.hs) && h.value != [] && Acceptable(Framing(q.flags, q.contentLength), h)
      && n + |h.value| <= max
    ensures ValueDone(ExactRun(hc, q, n, max, h.value), q, n, h)
  {
    HeaderTextTail(h.value);
    hide ExactRun, Is, LengthText, TokenText, NoLineEnd, SaysChunked, HeaderText;
    PlainValueRead(hc, q, n, max, h.value);
  }

  lemma UpgradeValue(hc: HeadersCallback, q: Parser, n: nat, max: int, h: Header)
    requires BeforeValue(q, h) && q.hs.HUpgrade? && h.value != [] && Acceptable(Framing(q.flags, q.contentLength), h)
      && n + |h.value| <= max
    ensures ValueDone(ExactRun(hc, q, n, max, h.value), q, n, h)
  {
    HeaderTextTail(h.value);
    hide ExactRun, Is, LengthText, TokenText, NoLineEnd, SaysChunked, HeaderText;
    UpgradeValueRead(hc, q, n, max, h.value);
  }

  lemma NameTaken(hc: HeadersCallback, p: Parser, n: nat, max: int, h: Header)
    requires p.errno.Ok? && p.state == OnHeader(HeaderFieldStart) && !p.lenient
    requires Acceptable(Framing(p.flags, p.contentLength), h) && n + |h.name| + 1 <= max
    ensures var e := ExactRun(hc, p, n, max, h.name + [COLON]);
      e == Exact(AtValue(p, e.p.hs, e.p.index), n + |h.name| + 1, NameEvents(h.name), false) && BeforeValue(e.p, h)
  {
    assert Token(CR) == 0 && Token(LF) == 0;
    hide Token, NameRead, ExactRun, Is, ValueFits, NoLineEnd, Leading, NameEvents;
    NameRun(hc, p, n, max, h.name);
    hide TokenText;
    var e := ExactRun(hc, p, n, max, h.name + [COLON]);
    NameSettles(e.p.hs, e.p.index, h.name);
    NotStarted(e.p.hs, e.p.index, h.name);
  }

  /** The name, the colon, the blanks. */
  lemma NameLine(hc: HeadersCallback, p: Parser, n: nat, max: int, h: Header)
    requires p.errno.Ok? && p.state == OnHeader(HeaderFieldStart) && !p.lenient
    requires Acceptable(Framing(p.flags, p.contentLength), h) && n + |h.name| + 1 + |h.ows| <= max
    ensures var e := ExactRun(hc, p, n, max, h.name + [COLON] + h.ows);
      e == Exact(AtValue(p, e.p.hs, e.p.index), n + |h.name| + 1 + |h.ows|, NameEvents(h.name), false)
      && BeforeValue(e.p, h)
  {
    hide ExactRun, Is, ValueFits, NoLineEnd, NameEvents, TokenText, Taken;
    NameTaken(hc, p, n, max, h);
    var e := ExactRun(hc, p, n, max, h.name + [COLON]);
    LeadingRun(hc, e.p, e.n, max, h.ows);
    ExactRunAppend(hc, p, n, max, h.name + [COLON], h.ows);
    assert NameEvents(h.name) + [] == NameEvents(h.name);
  }

  lemma NotStarted(hs: HeaderState, index: nat, w: seq<byte>)
    requires NameRead(hs, index, w)
    ensures !hs.MatchingConnectionTokenStart? && SaysNothing(hs)
  {
  }

  lemma ValueRun(hc: HeadersCallback, q: Parser, n: nat, max: int, h: Header)
    requires BeforeValue(q, h) && !q.hs.HConnection?
    requires h.value != [] && Acceptable(Framing(q.flags, q.contentLength), h) && n + |h.value| <= max
    ensures ValueDone(ExactRun(hc, q, n, max, h.value), q, n, h)
  {
    hide ExactRun, Is, Acceptable, ValueDone;
    if q.hs.HContentLength? {
      LengthValue(hc, q, n, max, h);
    } else if q.hs.HTransferEncoding? {
      CodingValue(hc, q, n, max, h);
    } else if q.hs.HUpgrade? {
      UpgradeValue(hc, q, n, max, h);
    } else {
      PlainValue(hc, q, n, max, h);
    }
  }

  /** `e`: what `h` says was read from `q`, before its value, on, in `k` bytes. */
  predicate HeaderDone(e: Exact, q: Parser, n: nat, out: seq<Event>, f: Framing) {
    e == Exact(e.p, n, e.out, false) && e.out + Due(e.p) == out && AtLine(e.p) && Kept(e.p, q) && FramingOf(e.p) == f
  }

  lemma EmptyValueRun(hc: HeadersCallback, q: Parser, n: nat, max: int, h: Header)
    requires BeforeValue(q, h) && h.value == [] && Acceptable(Framing(q.flags, q.contentLength), h) && n + |ValueLines(h)| <= max
    ensures HeaderDone(ExactRun(hc, q, n, max, ValueLines(h)), q, n + |ValueLines(h)|,
      ValueEvents(h.value) + FoldsEvents(h.folds),
                       Effect(Framing(q.flags, q.contentLength), h))
  {
    hide ExactRun, Is, TokenText, Leading;
    assert ValueLines(h) == CRLF;
    assert ValueEvents(h.value) + FoldsEvents(h.folds) == [Data(Value, [])];
    BareEnd(hc, q, n, max);
  }

  lemma ListedValueRun(hc: HeadersCallback, q: Parser, n: nat, max: int, h: Header)
    requires BeforeValue(q, h) && q.hs.HConnection?
    requires h.value != [] && Acceptable(Framing(q.flags, q.contentLength), h) && n + |ValueLines(h)| <= max
    ensures HeaderDone(ExactRun(hc, q, n, max, ValueLines(h)), q, n + |ValueLines(h)|,
      ValueEvents(h.value) + FoldsEvents(h.folds),
                       Effect(Framing(q.flags, q.contentLength), h))
  {
    hide ExactRun, Is, TokenText, Leading, ValueEvents, Folds, FoldsEvents, FoldsText, Told, NoLineEnd, HeaderText, ValueFlags;
    ConnectionTold(hc, q, n, max, h.value, h.folds);
    var e := ExactRun(hc, q, n, max, ValueLines(h));
    assert e.out + [] == e.out;
  }

  lemma OtherValueRun(hc: HeadersCallback, q: Parser, n: nat, max: int, h: Header)
    requires BeforeValue(q, h) && !q.hs.HConnection?
    requires h.value != [] && Acceptable(Framing(q.flags, q.contentLength), h) && n + |ValueLines(h)| <= max
    ensures HeaderDone(ExactRun(hc, q, n, max, ValueLines(h)), q, n + |ValueLines(h)|,
      ValueEvents(h.value) + FoldsEvents(h.folds),
                       Effect(Framing(q.flags, q.contentLength), h))
  {
    hide ExactRun, Is, TokenText, Leading, ValueEvents, Folds, FoldsEvents, FoldsText, NoLineEnd, HeaderText, ValueFlags,
         Effect, Ordinary;
    ValueRun(hc, q, n, max, h);
    var v := ExactRun(hc, q, n, max, h.value).p;
    LineEnds(hc, q, n, max, h.value, v);
    var w := v.(state := OnHeader(HeaderValueLws));
    FoldsRun(hc, w, n + |h.value| + 2, max, h.folds);
    ExactRunAppend(hc, q, n, max, h.value + CRLF, FoldsText(h.folds));
    PlainFlags(w);
    FlagsAtEnd(v);
    var r := ExactRun(hc, q, n, max, ValueLines(h));
    assert r.out + [] == r.out;
  }

  lemma FlagsAtEnd(p: Parser)
    ensures ValueFlags(p.(state := OnHeader(HeaderValueLws))) == ValueFlags(p)
  {
  }

  lemma ValueLinesRun(hc: HeadersCallback, q: Parser, n: nat, max: int, h: Header)
    requires BeforeValue(q, h) && Acceptable(Framing(q.flags, q.contentLength), h) && n + |ValueLines(h)| <= max
    ensures HeaderDone(ExactRun(hc, q, n, max, ValueLines(h)), q, n + |ValueLines(h)|,
      ValueEvents(h.value) + FoldsEvents(h.folds),
                       Effect(Framing(q.flags, q.contentLength), h))
  {
    hide ExactRun, Acceptable, ValueEvents, FoldsEvents, ValueLines, Effect, HeaderDone, BeforeValue;
    if h.value == [] {
      EmptyValueRun(hc, q, n, max, h);
    } else if q.hs.HConnection? {
      ListedValueRun(hc, q, n, max, h);
    } else {
      OtherValueRun(hc, q, n, max, h);
    }
  }

  /** `e`: the lines with these events and this framing were read from `p`, which has counted `n` bytes. */
  predicate LinesDone(e: Exact, p: Parser, n: nat, out: seq<Event>, f: Framing) {
    e == Exact(e.p, n, e.out, false) && e.out + Due(e.p) == Due(p) + out && AtLine(e.p) && Kept(e.p, p) && FramingOf(e.p) == f
  }

  lemma NotBlank(f: Framing, h: Header)
    requires Acceptable(f, h)
    ensures h.name != [] && !Blank(h.name[0])
  {
    assert Token(SP) == 0 && Token(HTAB) == 0;
    hide Token, ValueFits, Is, NoLineEnd;
  }

  /** A header on a parser that has settled what the one before it said. */
  lemma SettledLineRun(hc: HeadersCallback, p: Parser, n: nat, max: int, h: Header)
    requires p.errno.Ok? && p.state == OnHeader(HeaderFieldStart) && !p.lenient
    requires Acceptable(Framing(p.flags, p.contentLength), h) && n + |Line(h)| <= max
    ensures HeaderDone(ExactRun(hc, p, n, max, Line(h)), p, n + |Line(h)|, LineEvents(h),
      Effect(Framing(p.flags, p.contentLength), h))
  {
    hide ExactRun, Acceptable, NameEvents, ValueEvents, FoldsEvents, ValueLines, Taken, Effect, ValueFlags, Due;
    NameLine(hc, p, n, max, h);
    var a := h.name + [COLON] + h.ows;
    var q := ExactRun(hc, p, n, max, a);
    ValueLinesRun(hc, q.p, q.n, max, h);
    var e := ExactRun(hc, q.p, q.n, max, ValueLines(h));
    ExactRunAppend(hc, p, n, max, a, ValueLines(h));
    assert NameEvents(h.name) + e.out + Due(e.p) == NameEvents(h.name) + (e.out + Due(e.p));
  }

  lemma LineRun(hc: HeadersCallback, p: Parser, n: nat, max: int, h: Header)
    requires AtLine(p) && !p.lenient && Acceptable(FramingOf(p), h) && n + |Line(h)| <= max
    ensures LinesDone(ExactRun(hc, p, n, max, Line(h)), p, n + |Line(h)|, LineEvents(h), Effect(FramingOf(p), h))
  {
    hide ExactRun, Acceptable, LineEvents, ValueLines, Effect, ValueFlags, Due;
    NotBlank(FramingOf(p), h);
    assert Line(h)[0] == h.name[0];
    LineFirst(hc, p, n, max, Line(h));
    hide FramingOf, Line;
    SettledIs(p);
    SettledLineRun(hc, Settle(p), n, max, h);
    var e := ExactRun(hc, Settle(p), n, max, Line(h));
    assert Due(p) + e.out + Due(e.p) == Due(p) + (e.out + Due(e.p));
  }

  lemma SettledIs(p: Parser)
    ensures var s := Settle(p);
      s.errno == p.errno && s.state == OnHeader(HeaderFieldStart) && s.lenient == p.lenient && Kept(s, p)
      && Framing(s.flags, s.contentLength) == FramingOf(p) == FramingOf(s) && Due(s) == []
      && (AtLine(p) ==> Settle(s) == s)
  {
    hide ValueFlags;
  }

  function Lines(hs: seq<Header>): seq<byte> {
    if hs == [] then [] else Line(hs[0]) + Lines(hs[1..])
  }

  function LinesEvents(hs: seq<Header>): seq<Event> {
    if hs == [] then [] else LineEvents(hs[0]) + LinesEvents(hs[1..])
  }

  lemma {:induction false} LinesRun(hc: HeadersCallback, p: Parser, n: nat, max: int, hs: seq<Header>)
    requires AtLine(p) && !p.lenient && AcceptAll(FramingOf(p), hs) && n + |Lines(hs)| <= max
    ensures LinesDone(ExactRun(hc, p, n, max, Lines(hs)), p, n + |Lines(hs)|, LinesEvents(hs), EffectAll(FramingOf(p), hs))
    decreases |hs|
  {
    hide ExactRun, Acceptable, Effect, Line, LineEvents, FramingOf;
    if hs == [] {
      ExactNone(hc, p, n, max);
      assert [] + Due(p) == Due(p) + [];
    } else {
      hide Due;
      var rest, out := Lines(hs[1..]), LinesEvents(hs[1..]);
      LineRun(hc, p, n, max, hs[0]);
      var e := ExactRun(hc, p, n, max, Line(hs[0]));
      LinesRun(hc, e.p, e.n, max, hs[1..]);
      ExactRunAppend(hc, p, n, max, Line(hs[0]), rest);
      var f := ExactRun(hc, e.p, e.n, max, rest);
      assert e.out + f.out + Due(f.p) == e.out + (f.out + Due(f.p));
      assert e.out + (Due(e.p) + out) == (e.out + Due(e.p)) + out;
      assert (Due(p) + LineEvents(hs[0])) + out == Due(p) + (LineEvents(hs[0]) + out);
    }
  }

  // ---------- the end of the head, the body ----------

  /** The message is the last one of its protocol: CONNECT, or an upgrade asked for by both headers. */
  predicate Switching(f: Framing, connect: bool) { connect || (f.flags.upgrade && f.flags.connectionUpgrade) }

  /** The parser when the blank line has been read and the body has not begun. */
  function Headed(p: Parser): Parser {
    Settle(p).(state := OnHeader(HeadersDone), upgrade := Switching(FramingOf(p), p.verb == CONNECT))
  }

  /** The head announces a body in one way only. */
  predicate PlainHead(p: Parser) {
    var f := FramingOf(p).flags; !f.trailing && !f.skipBody && !(f.chunked && f.contentLength)
  }

  /** The parser after the answer of on_headers_complete: 1 means that no body follows, 2 that another
      protocol does. */
  function Answering(q: Parser, answer: int): Parser {
    if answer == 0 then q
    else if answer == 1 then q.(flags := q.flags.(skipBody := true))
    else q.(upgrade := true, flags := q.flags.(skipBody := true))
  }

  lemma HeadEnd(hc: HeadersCallback, p: Parser, n: nat, max: int)
    requires AtLine(p) && Due(p) == [] && PlainHead(p) && 0 <= hc(Headed(p)) <= 2 && n + 2 <= max
    ensures ExactRun(hc, p, n, max, CRLF)
         == var s := BodyStart(Answering(Headed(p), hc(Headed(p))));
            Exact(s.p, 0, [Notify(HeadersComplete)] + Meanings(s.cmds, LF), s.leave)
  {
    var q := Settle(p).(state := OnHeader(HeadersAlmostDone));
    var s := BodyStart(Answering(Headed(p), hc(Headed(p))));
    MeaningsAppend([Call(HeadersComplete)], s.cmds, LF);
    assert Meanings([Call(HeadersComplete)], LF) == [Notify(HeadersComplete)] && Meanings([], CR) == [];
    BlankLineBegins(hc, p, n, max);
    BlankLineEnds(hc, p, n + 1, max);
    BodyStartOk(Answering(Headed(p), hc(Headed(p))));
    hide ExactByte, ExactRun, BodyStart, Settle, Headed;
    assert CRLF[1..] == [LF];
    ExactStep(hc, p, n, max, CRLF);
    RunOne(hc, q, n + 1, max, LF);
  }

  lemma BodyStartOk(q: Parser)
    ensures BodyStart(q).p.errno == q.errno
  {
    hide NewMessage, NeedsEof;
  }

  lemma BlankLineBegins(hc: HeadersCallback, p: Parser, n: nat, max: int)
    requires AtLine(p) && n + 1 <= max
    ensures ExactByte(hc, p, n, max, CR) == Exact(Settle(p).(state := OnHeader(HeadersAlmostDone)), n + 1, Due(p), false)
  {
    assert Meanings([], CR) == [] && Meanings([Empty(Value)], CR) == [Data(Value, [])];
    assert [Empty(Value)] + [] == [Empty(Value)];
    hide RequestByte, ResponseByte, UrlByte, BodyByte, ChunkSizeByte, StartRequest, HeadersEnd, ValueFlags;
  }

  lemma BlankLineEnds(hc: HeadersCallback, p: Parser, n: nat, max: int)
    requires AtLine(p) && PlainHead(p) && 0 <= hc(Headed(p)) <= 2 && n + 1 <= max
    ensures var s := BodyStart(Answering(Headed(p), hc(Headed(p))));
      ExactByte(hc, Settle(p).(state := OnHeader(HeadersAlmostDone)), n, max, LF)
      == Exact(s.p, 0, Meanings([Call(HeadersComplete)] + s.cmds, LF), s.leave)
  {
    BodyStartResets(Answering(Headed(p), hc(Headed(p))));
    hide RequestByte, ResponseByte, UrlByte, BodyByte, ChunkSizeByte, StartRequest, ValueFlags, Meanings, BodyStart;
  }

  lemma BodyStartResets(q: Parser)
    ensures BodyStart(q).reset && BodyStart(q).p.errno == q.errno
  {
    hide NewMessage, NeedsEof;
  }

  /** A head that announces its body both by length and in chunks is refused, and so is one that the
      callback refuses by any other answer. */
  lemma HeadRefused(hc: HeadersCallback, p: Parser, n: nat, max: int)
    requires AtLine(p) && !FramingOf(p).flags.trailing && n + 2 <= max
    requires (FramingOf(p).flags.chunked && FramingOf(p).flags.contentLength) || !(0 <= hc(Headed(p)) <= 2)
    ensures ExactRun(hc, p, n, max, CRLF).p.errno
         == if FramingOf(p).flags.chunked && FramingOf(p).flags.contentLength then UnexpectedContentLength else CbHeadersComplete
  {
    var q := Settle(p).(state := OnHeader(HeadersAlmostDone));
    BlankLineBegins(hc, p, n, max);
    LineFeedRefused(hc, p, n + 1, max);
    hide ExactByte, ExactRun, Settle, Headed;
    assert CRLF[1..] == [LF];
    ExactStep(hc, p, n, max, CRLF);
    RunOne(hc, q, n + 1, max, LF);
  }

  lemma LineFeedRefused(hc: HeadersCallback, p: Parser, n: nat, max: int)
    requires AtLine(p) && !FramingOf(p).flags.trailing && n + 1 <= max
    requires (FramingOf(p).flags.chunked && FramingOf(p).flags.contentLength) || !(0 <= hc(Headed(p)) <= 2)
    ensures ExactByte(hc, Settle(p).(state := OnHeader(HeadersAlmostDone)), n, max, LF).p.errno
         == if FramingOf(p).flags.chunked && FramingOf(p).flags.contentLength then UnexpectedContentLength else CbHeadersComplete
  {
    hide RequestByte, ResponseByte, UrlByte, BodyByte, ChunkSizeByte, StartRequest, ValueFlags, Meanings, BodyStart;
  }

  /** A Content-Length begins with a digit, is the only one of its message, and stands on one line. */
  lemma LengthBegins(hc: HeadersCallback, p: Parser, n: nat, max: int, ch: byte)
    requires p.errno.Ok? && p.hs.HContentLength? && n + 1 <= max
    requires (p.state == OnHeader(HeaderValueDiscardWs) && !Blank(ch) && !LineEnd(ch))
      || (p.state == OnHeader(HeaderValueLws) && Blank(ch))
    ensures ExactByte(hc, p, n, max, ch).p.errno
         == if !IsNum(ch) then InvalidContentLength else if p.flags.contentLength then UnexpectedContentLength else Ok
  {
    hide RequestByte, ResponseByte, UrlByte, BodyByte, ChunkSizeByte, StartRequest, FieldStart, FieldByte, ValueByte,
         HeadersEnd, Meanings;
  }
}
