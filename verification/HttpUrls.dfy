/** The URLs of a request line (section 5.3 of RFC 7230): paths, absolute URLs, and the authority of a
    CONNECT request. */
module HttpUrls {
  import opened HttpTypes
  import opened HttpStep
  import opened HttpEvents
  import opened HttpSlicing
  import opened HttpLoops
  import opened HttpChunked
  import opened HttpHead

  const AT: byte := 64
  const SLASH: byte := 47
  const QUESTION: byte := 63

  /** A character of a host, a port, a user name or a password. */
  predicate HostChar(ch: byte) {
    IsAlpha(ch) || IsNum(ch)
    || ch in [33, 36, 37, 38, 39, 40, 41, 42, 43, 44, 45, 46, 58, 59, 61, 91, 93, 95, 126]
  }

  predicate EndsHost(ch: byte) { ch == SLASH || ch == QUESTION }

  /** Where the path or the query begins. */
  function HostEnd(u: seq<byte>): (k: nat)
    ensures k <= |u|
    ensures k < |u| ==> EndsHost(u[k])
    ensures forall i | 0 <= i < k :: !EndsHost(u[i])
  {
    if u == [] || EndsHost(u[0]) then 0 else 1 + HostEnd(u[1..])
  }

  /** Up to the path: characters of hosts and at-signs, but no two at-signs in a row. After that anything
      visible. */
  predicate Authority(u: seq<byte>) {
    (forall i | 0 <= i < HostEnd(u) :: HostChar(u[i]) || u[i] == AT)
    && (forall i | 0 <= i && i + 1 < HostEnd(u) :: !(u[i] == AT && u[i + 1] == AT))
    && AllVisible(u[HostEnd(u)..])
  }

  /** How many letters come first. */
  function SchemeEnd(u: seq<byte>): (k: nat)
    ensures k <= |u|
    ensures k < |u| ==> !IsAlpha(u[k])
    ensures forall i | 0 <= i < k :: IsAlpha(u[i])
  {
    if u == [] || !IsAlpha(u[0]) then 0 else 1 + SchemeEnd(u[1..])
  }

  /** A scheme of letters, "://", and an authority. */
  predicate Absolute(u: seq<byte>) {
    var k := SchemeEnd(u);
    k > 0 && |u| > k + 3 && u[k] == ':' as int && u[k + 1] == SLASH && u[k + 2] == SLASH && Authority(u[k + 3..])
  }

  /** The URLs a request with method `m` may have. */
  predicate UrlFits(m: Method, u: seq<byte>) {
    u != []
    && if m == CONNECT then Authority(u)
       else if u[0] == SLASH || u[0] == '*' as int then AllVisible(u)
       else Absolute(u)
  }

  // ---------- the authority ----------

  /** What may follow inside the authority, after an at-sign if `at`. */
  predicate HostRest(u: seq<byte>, at: bool) {
    u == []
    || if EndsHost(u[0]) then AllVisible(u)
       else if u[0] == AT then !at && HostRest(u[1..], true)
       else HostChar(u[0]) && HostRest(u[1..], false)
  }

  lemma NothingIsVisible()
    ensures AllVisible([])
  {
  }

  lemma {:induction false} HostRestIs(u: seq<byte>, at: bool)
    ensures HostRest(u, at) <==> Authority(u) && !(at && u != [] && u[0] == AT)
  {
    NothingIsVisible();
    hide HostChar, AllVisible;
    if u != [] && !EndsHost(u[0]) {
      var t := u[1..];
      HostRestIs(t, u[0] == AT);
      assert HostEnd(u) == 1 + HostEnd(t) && u[HostEnd(u)..] == t[HostEnd(t)..];
      assert forall i | 0 < i < HostEnd(u) :: u[i] == t[i - 1];
      assert !HostChar(AT) by { AtIsNone(); }
      Apart(u);
    } else if u != [] {
      assert HostEnd(u) == 0 && u[HostEnd(u)..] == u;
      AtIsNone();
    }
  }

  lemma AtIsNone()
    ensures !HostChar(AT) && !EndsHost(AT)
  {
  }

  /** The condition on neighbours, first pair and others. */
  lemma Apart(u: seq<byte>)
    requires u != [] && !EndsHost(u[0])
    ensures (forall i | 0 <= i && i + 1 < HostEnd(u) :: !(u[i] == AT && u[i + 1] == AT))
      <==> !(u[0] == AT && |u| > 1 && u[1] == AT)
           && forall i | 0 <= i && i + 1 < HostEnd(u[1..]) :: !(u[1..][i] == AT && u[1..][i + 1] == AT)
  {
    var t := u[1..];
    AtIsNone();
    assert HostEnd(u) == 1 + HostEnd(t);
    assert forall i | 0 <= i < |t| :: t[i] == u[i + 1];
    if |u| > 1 && u[1] == AT {
      assert t[0] == AT && HostEnd(t) >= 1;
    }
    if !(u[0] == AT && |u| > 1 && u[1] == AT)
      && forall i | 0 <= i && i + 1 < HostEnd(t) :: !(t[i] == AT && t[i + 1] == AT)
    {
      forall i | 0 <= i && i + 1 < HostEnd(u) ensures !(u[i] == AT && u[i + 1] == AT) {
        if i > 0 {
          assert t[i - 1] == u[i] && t[i - 1 + 1] == u[i + 1];
        }
      }
    }
    if forall i | 0 <= i && i + 1 < HostEnd(u) :: !(u[i] == AT && u[i + 1] == AT) {
      forall i | 0 <= i && i + 1 < HostEnd(t) ensures !(t[i] == AT && t[i + 1] == AT) {
        assert t[i] == u[i + 1] && t[i + 1] == u[i + 1 + 1];
      }
    }
  }

  /** Inside the authority. */
  predicate InHost(p: Parser) { p.errno.Ok? && p.state.OnUrl? && (p.state.u.ReqServer? || p.state.u.ReqServerWithAt?) }

  predicate AfterAt(p: Parser) { p.state == OnUrl(ReqServerWithAt) }

  lemma HostByte(hc: HeadersCallback, p: Parser, n: nat, max: int, ch: byte)
    requires InHost(p) && !UrlSpace(ch) && n + 1 <= max
    ensures var e := ExactByte(hc, p, n, max, ch);
      if EndsHost(ch) then e == Exact(p.(state := e.p.state), n + 1, [Data(Url, [ch])], false) && InPath(e.p)
      else if (ch == AT && !AfterAt(p)) || HostChar(ch) then
        e == Exact(p.(state := OnUrl(if ch == AT then ReqServerWithAt else ReqServer)), n + 1, [Data(Url, [ch])], false)
      else !e.Good()
  {
    assert Meanings([Touch(Url)], ch) == [Data(Url, [ch])];
    HostChars(ch);
    hide HostChar, IsUserinfoChar, HeaderByte, ResponseByte, BodyByte, ChunkSizeByte, StartRequest, MethodByte;
  }

  /** The macro IS_USERINFO_CHAR, and the brackets. */
  lemma HostChars(ch: byte)
    ensures HostChar(ch) <==> IsUserinfoChar(ch) || ch == '[' as int || ch == ']' as int
    ensures HostChar(ch) ==> !EndsHost(ch) && ch != AT && !NotUrl(ch)
  {
    HostCharIs(ch);
    hide IsUserinfoChar;
  }

  lemma HostCharIs(ch: byte)
    ensures HostChar(ch) <==> IsUserinfoChar(ch) || ch == '[' as int || ch == ']' as int
  {
  }

  lemma HostStops(hc: HeadersCallback, p: Parser, n: nat, max: int)
    requires InHost(p) && n + 1 <= max
    ensures ExactByte(hc, p, n, max, SP) == Exact(p.(state := OnRequest(ReqHttpStart)), n + 1, [Data(Url, [])], false)
  {
    assert Meanings([Close(Url)], SP) == [Data(Url, [])];
  }

  /** The rest of a URL has been read, and the space after it. */
  predicate UrlRead(e: Exact, p: Parser, n: nat, u: seq<byte>) {
    e == Exact(p.(state := OnRequest(ReqHttpStart)), n + |u| + 1, UrlEvents(u), false)
  }

  lemma UrlReadMore(e: Exact, one: Exact, p: Parser, n: nat, u: seq<byte>)
    requires u != [] && one == Exact(p.(state := one.p.state), n + 1, [Data(Url, [u[0]])], false)
    requires UrlRead(e, one.p, n + 1, u[1..])
    ensures UrlRead(e.(out := one.out + e.out), p, n, u)
  {
    UrlEventsTail(u);
  }

  lemma {:induction false} HostRun(hc: HeadersCallback, p: Parser, n: nat, max: int, u: seq<byte>)
    requires InHost(p) && NoUrlSpace(u) && n + |u| + 1 <= max
    ensures var e := ExactRun(hc, p, n, max, u + [SP]);
      if HostRest(u, AfterAt(p)) then UrlRead(e, p, n, u) else !e.Good()
    decreases |u|
  {
    hide ExactByte, ExactRun, HostChar;
    if u == [] {
      assert u + [SP] == [SP];
      RunOne(hc, p, n, max, SP);
      HostStops(hc, p, n, max);
      assert UrlEvents(u) == [Data(Url, [])];
    } else {
      var t := u + [SP];
      assert t[0] == u[0] && t[1..] == u[1..] + [SP];
      HostByte(hc, p, n, max, u[0]);
      ExactStep(hc, p, n, max, t);
      var one := ExactByte(hc, p, n, max, u[0]);
      AllVisibleTail(u);
      EndsVisible(u[0]);
      AtIsNone();
      hide AllVisible, UrlRead, UrlEvents, Visible;
      if one.Good() {
        if EndsHost(u[0]) {
          PathRun(hc, one.p, n + 1, max, u[1..]);
          PathIsRead(ExactRun(hc, one.p, n + 1, max, u[1..] + [SP]), one.p, n + 1, u[1..]);
        } else {
          HostRun(hc, one.p, n + 1, max, u[1..]);
        }
        var more := ExactRun(hc, one.p, n + 1, max, u[1..] + [SP]);
        if more.Good() {
          UrlReadMore(more, one, p, n, u);
        }
      }
    }
  }

  lemma EndsVisible(ch: byte)
    ensures EndsHost(ch) ==> Visible(ch)
  {
  }

  lemma PathIsRead(e: Exact, p: Parser, n: nat, u: seq<byte>)
    ensures e == Exact(p.(state := OnRequest(ReqHttpStart)), n + |u| + 1, UrlEvents(u), false) <==> UrlRead(e, p, n, u)
  {
  }

  // ---------- the scheme ----------

  function SchemeState(k: nat): UrlState {
    if k == 0 then ReqSchema else if k == 1 then ReqSchemaSlash else if k == 2 then ReqSchemaSlashSlash else ReqServerStart
  }

  /** The slashes that are left of "//" when `k` characters of "://" have been read. */
  lemma SlashByte(hc: HeadersCallback, p: Parser, n: nat, max: int, ch: byte, k: nat)
    requires p.errno.Ok? && 1 <= k <= 2 && p.state == OnUrl(SchemeState(k)) && n + 1 <= max
    ensures var e := ExactByte(hc, p, n, max, ch);
      if ch == SLASH then e == Exact(p.(state := OnUrl(SchemeState(k + 1))), n + 1, [Data(Url, [ch])], false) else !e.Good()
  {
    assert Meanings([Touch(Url)], ch) == [Data(Url, [ch])];
  }

  lemma SchemeByte(hc: HeadersCallback, p: Parser, n: nat, max: int, ch: byte)
    requires p.errno.Ok? && p.state == OnUrl(ReqSchema) && n + 1 <= max
    ensures var e := ExactByte(hc, p, n, max, ch);
      if IsAlpha(ch) then e == Exact(p, n + 1, [Data(Url, [ch])], false)
      else if ch == ':' as int then e == Exact(p.(state := OnUrl(ReqSchemaSlash)), n + 1, [Data(Url, [ch])], false)
      else !e.Good()
  {
    assert Meanings([Touch(Url)], ch) == [Data(Url, [ch])];
  }

  lemma ServerFirst(ch: byte)
    ensures var t := UrlChar(ReqServerStart, ch);
      if EndsHost(ch) then t.UrlTo? && PastAuthority(t.u)
      else if ch == AT || HostChar(ch) then t == UrlTo(if ch == AT then ReqServerWithAt else ReqServer)
      else t == UrlDead
  {
    HostChars(ch);
    hide HostChar, IsUserinfoChar;
  }

  /** The first byte after "//", or of the authority of CONNECT. */
  lemma HostFirst(hc: HeadersCallback, p: Parser, n: nat, max: int, ch: byte)
    requires p.errno.Ok? && n + 1 <= max
    requires p.state == OnUrl(ReqServerStart) || (p.state == OnRequest(ReqSpacesBeforeUrl) && p.verb == CONNECT && ch != SP)
    ensures var e := ExactByte(hc, p, n, max, ch);
      if EndsHost(ch) then e == Exact(p.(state := e.p.state), n + 1, [Data(Url, [ch])], false) && InPath(e.p)
      else if ch == AT || HostChar(ch) then
        e == Exact(p.(state := OnUrl(if ch == AT then ReqServerWithAt else ReqServer)), n + 1, [Data(Url, [ch])], false)
      else !e.Good()
  {
    assert Meanings([Touch(Url)], ch) == [Data(Url, [ch])];
    ServerFirst(ch);
    HostChars(ch);
    var t := UrlChar(ReqServerStart, ch);
    assert ByteStep(hc, p, ch) == if LineSpace(ch) && p.state.OnUrl? then Fail(p, InvalidUrl) else UrlStep(p, t) by {
      hide UrlChar, HeaderByte, ResponseByte, BodyByte, ChunkSizeByte, StartRequest, MethodByte, HostChar;
    }
    hide ByteStep, UrlChar, HostChar, IsUserinfoChar;
  }

  predicate LineSpace(ch: byte) { ch == SP || ch == CR || ch == LF }

  /** One byte of a URL and then the rest. */
  lemma OneMore(hc: HeadersCallback, p: Parser, n: nat, max: int, u: seq<byte>)
    requires p.errno.Ok? && u != []
    ensures var t, one := u + [SP], ExactByte(hc, p, n, max, u[0]);
      if one.Good() then
        var more := ExactRun(hc, one.p, one.n, max, u[1..] + [SP]);
        ExactRun(hc, p, n, max, t) == more.(out := one.out + more.out)
      else ExactRun(hc, p, n, max, t) == one
  {
    hide ExactByte, ExactRun;
    var t := u + [SP];
    assert t[0] == u[0] && t[1..] == u[1..] + [SP];
    ExactStep(hc, p, n, max, t);
  }

  lemma HostStartRun(hc: HeadersCallback, p: Parser, n: nat, max: int, u: seq<byte>)
    requires p.errno.Ok? && NoUrlSpace(u) && n + |u| + 1 <= max
    requires p.state == OnUrl(ReqServerStart) || (p.state == OnRequest(ReqSpacesBeforeUrl) && p.verb == CONNECT && u != [])
    ensures var e := ExactRun(hc, p, n, max, u + [SP]);
      if u != [] && Authority(u) then UrlRead(e, p, n, u) else !e.Good()
  {
    hide ExactByte, ExactRun, HostChar, Authority, InPath;
    if u == [] {
      assert u + [SP] == [SP];
      RunOne(hc, p, n, max, SP);
      HostFirst(hc, p, n, max, SP);
      SpaceIsNone();
    } else {
      HostFirst(hc, p, n, max, u[0]);
      OneMore(hc, p, n, max, u);
      HostRestIs(u, false);
      AllVisibleTail(u);
      EndsVisible(u[0]);
      AtIsNone();
      hide AllVisible, UrlEvents, Visible;
      var one := ExactByte(hc, p, n, max, u[0]);
      if one.Good() {
        if EndsHost(u[0]) {
          PathRun(hc, one.p, n + 1, max, u[1..]);
          PathIsRead(ExactRun(hc, one.p, n + 1, max, u[1..] + [SP]), one.p, n + 1, u[1..]);
        } else {
          HostRun(hc, one.p, n + 1, max, u[1..]);
        }
        var more := ExactRun(hc, one.p, n + 1, max, u[1..] + [SP]);
        if more.Good() {
          UrlReadMore(more, one, p, n, u);
        }
      }
    }
  }

  lemma SpaceIsNone()
    ensures !HostChar(SP) && !EndsHost(SP) && SP != AT && !IsAlpha(SP)
  {
  }

  /** After the colon: `k` characters of "://" have been read. */
  lemma {:induction false} SlashesRun(hc: HeadersCallback, p: Parser, n: nat, max: int, u: seq<byte>, k: nat)
    requires p.errno.Ok? && 1 <= k <= 3 && p.state == OnUrl(SchemeState(k)) && NoUrlSpace(u) && n + |u| + 1 <= max
    ensures var e := ExactRun(hc, p, n, max, u + [SP]);
      if |u| > 3 - k && (forall i | 0 <= i < 3 - k :: u[i] == SLASH) && Authority(u[3 - k..]) then UrlRead(e, p, n, u)
          else !e.Good()
    decreases 3 - k
  {
    hide ExactByte, ExactRun, Authority, UrlEvents;
    if k == 3 {
      assert u[0..] == u;
      HostStartRun(hc, p, n, max, u);
    } else if u == [] {
      assert u + [SP] == [SP];
      RunOne(hc, p, n, max, SP);
      SlashByte(hc, p, n, max, SP, k);
    } else {
      SlashByte(hc, p, n, max, u[0], k);
      OneMore(hc, p, n, max, u);
      var one := ExactByte(hc, p, n, max, u[0]);
      if one.Good() {
        SlashesRun(hc, one.p, n + 1, max, u[1..], k + 1);
        assert |u| > 3 - k ==> u[1..][3 - (k + 1)..] == u[3 - k..];
        assert forall i | 0 < i < |u| :: u[i] == u[1..][i - 1];
        var more := ExactRun(hc, one.p, n + 1, max, u[1..] + [SP]);
        if more.Good() {
          UrlReadMore(more, one, p, n, u);
        }
      }
    }
  }

  /** After the first letter. */
  predicate SchemeRest(u: seq<byte>) {
    var k := SchemeEnd(u);
    |u| > k + 3 && u[k] == ':' as int && u[k + 1] == SLASH && u[k + 2] == SLASH && Authority(u[k + 3..])
  }

  lemma SchemeRestTail(u: seq<byte>)
    requires u != [] && IsAlpha(u[0])
    ensures (SchemeRest(u) <==> SchemeRest(u[1..])) && (Absolute(u) <==> SchemeRest(u[1..]))
  {
    hide IsAlpha, Authority;
    var k, t := SchemeEnd(u), u[1..];
    assert SchemeEnd(t) == k - 1;
    if |u| > k + 3 {
      assert t[k - 1 + 3..] == u[k + 3..];
    }
  }

  lemma SchemeRestColon(u: seq<byte>)
    requires u != [] && !IsAlpha(u[0])
    ensures SchemeRest(u) <==>
      u[0] == ':' as int
      && var t := u[1..]; |t| > 2 && (forall i | 0 <= i < 2 :: t[i] == SLASH) && Authority(t[2..])
  {
    hide Authority;
    var t := u[1..];
    assert SchemeEnd(u) == 0;
    if |u| > 3 {
      assert t[2..] == u[3..] && t[0] == u[1] && t[1] == u[2];
    }
  }

  lemma {:induction false} SchemeRun(hc: HeadersCallback, p: Parser, n: nat, max: int, u: seq<byte>)
    requires p.errno.Ok? && p.state == OnUrl(ReqSchema) && NoUrlSpace(u) && n + |u| + 1 <= max
    ensures var e := ExactRun(hc, p, n, max, u + [SP]);
      if SchemeRest(u) then UrlRead(e, p, n, u) else !e.Good()
    decreases |u|
  {
    hide ExactByte, ExactRun, SchemeRest, IsAlpha, UrlEvents, Authority;
    if u == [] {
      assert u + [SP] == [SP];
      RunOne(hc, p, n, max, SP);
      SchemeByte(hc, p, n, max, SP);
      SpaceIsNone();
      NoScheme();
    } else {
      SchemeByte(hc, p, n, max, u[0]);
      OneMore(hc, p, n, max, u);
      var one := ExactByte(hc, p, n, max, u[0]);
      if IsAlpha(u[0]) {
        SchemeRestTail(u);
        SchemeRun(hc, p, n + 1, max, u[1..]);
      } else {
        SchemeRestColon(u);
        if u[0] == ':' as int {
          SlashesRun(hc, one.p, n + 1, max, u[1..], 1);
        }
      }
      if one.Good() {
        var more := ExactRun(hc, one.p, n + 1, max, u[1..] + [SP]);
        if more.Good() {
          UrlReadMore(more, one, p, n, u);
        }
      }
    }
  }

  lemma NoScheme()
    ensures !SchemeRest([])
  {
  }

  lemma SchemeFirst(hc: HeadersCallback, p: Parser, n: nat, max: int, ch: byte)
    requires p.errno.Ok? && p.state == OnRequest(ReqSpacesBeforeUrl) && p.verb != CONNECT && n + 1 <= max
    requires ch != SLASH && ch != '*' as int && ch != SP
    ensures var e := ExactByte(hc, p, n, max, ch);
      if IsAlpha(ch) then e == Exact(p.(state := OnUrl(ReqSchema)), n + 1, [Data(Url, [ch])], false) else !e.Good()
  {
    assert Meanings([Touch(Url)], ch) == [Data(Url, [ch])];
  }

  /** A request line may end after the URL: version 0.9. */
  lemma OldRequest(hc: HeadersCallback, p: Parser, n: nat, max: int)
    requires (InHost(p) || InPath(p)) && n + 2 <= max
    ensures ExactRun(hc, p, n, max, CRLF)
         == Exact(p.(major := 0, minor := 9, state := OnHeader(HeaderFieldStart)), n + 2, [Data(Url, [])], false)
  {
    var q := p.(major := 0, minor := 9, state := OnRequest(ReqLineAlmostDone));
    assert Meanings([Close(Url)], CR) == [Data(Url, [])];
    OldRequestLf(hc, q, n + 1, max);
    assert ExactByte(hc, p, n, max, CR) == Exact(q, n + 1, [Data(Url, [])], false) by { hide HeaderByte, RequestByte; }
    hide ExactByte, ExactRun, InHost, InPath;
    assert CRLF[1..] == [LF];
    ExactStep(hc, p, n, max, CRLF);
    RunOne(hc, q, n + 1, max, LF);
  }

  lemma OldRequestLf(hc: HeadersCallback, q: Parser, n: nat, max: int)
    requires q.errno.Ok? && q.state == OnRequest(ReqLineAlmostDone) && n + 1 <= max
    ensures ExactByte(hc, q, n, max, LF) == Exact(q.(state := OnHeader(HeaderFieldStart)), n + 1, [], false)
  {
    hide UrlByte, HeaderByte, ResponseByte, BodyByte, ChunkSizeByte, StartRequest, MethodByte;
    assert Meanings([], LF) == [];
  }

  // ---------- any URL ----------

  /** A URL is accepted exactly if its form fits the method. */
  lemma UrlIff(hc: HeadersCallback, p: Parser, n: nat, max: int, u: seq<byte>)
    requires p.errno.Ok? && p.state == OnRequest(ReqSpacesBeforeUrl) && u != [] && NoUrlSpace(u) && n + |u| + 1 <= max
    ensures var e := ExactRun(hc, p, n, max, u + [SP]);
      if UrlFits(p.verb, u) then UrlRead(e, p, n, u) else !e.Good()
  {
    assert u[0] != SP by { assert !UrlSpace(u[0]); }
    hide ExactByte, ExactRun, Authority, AllVisible, UrlEvents, IsAlpha, Absolute;
    if p.verb == CONNECT {
      HostStartRun(hc, p, n, max, u);
    } else if u[0] == SLASH || u[0] == '*' as int {
      UrlAcceptedIff(hc, p, n, max, u);
    } else {
      SchemeFirst(hc, p, n, max, u[0]);
      OneMore(hc, p, n, max, u);
      if IsAlpha(u[0]) {
        SchemeRestTail(u);
        var one := ExactByte(hc, p, n, max, u[0]);
        SchemeRun(hc, one.p, n + 1, max, u[1..]);
        var more := ExactRun(hc, one.p, n + 1, max, u[1..] + [SP]);
        if more.Good() {
          UrlReadMore(more, one, p, n, u);
        }
      } else {
        NotAbsolute(u);
      }
    }
  }

  lemma NotAbsolute(u: seq<byte>)
    requires u != [] && !IsAlpha(u[0])
    ensures !Absolute(u)
  {
  }

  lemma FitsNoSpace(m: Method, u: seq<byte>)
    requires UrlFits(m, u)
    ensures u != [] && NoUrlSpace(u)
  {
    hide HostChar, Visible;
    SpaceNotVisible();
    if m == CONNECT {
      AuthorityNoSpace(u);
    } else if u[0] == SLASH || u[0] == '*' as int {
      assert forall i | 0 <= i < |u| :: Visible(u[i]);
    } else {
      AbsoluteNoSpace(u);
    }
  }

  lemma AbsoluteNoSpace(u: seq<byte>)
    requires Absolute(u)
    ensures u != [] && NoUrlSpace(u)
  {
    hide HostChar, Visible, Authority;
    SpaceNotVisible();
    var k := SchemeEnd(u);
    AuthorityNoSpace(u[k + 3..]);
    forall i | 0 <= i < |u| ensures !UrlSpace(u[i]) {
      if i >= k + 3 {
        assert u[i] == u[k + 3..][i - k - 3];
      }
    }
  }

  lemma SpaceNotVisible()
    ensures forall ch | UrlSpace(ch) :: !Visible(ch) && !HostChar(ch) && !IsAlpha(ch) && ch != AT
  {
  }

  lemma AuthorityNoSpace(u: seq<byte>)
    requires Authority(u)
    ensures NoUrlSpace(u)
  {
    SpaceNotVisible();
    hide HostChar, Visible;
    var k := HostEnd(u);
    forall i | 0 <= i < |u| ensures !UrlSpace(u[i]) {
      if i >= k {
        assert u[i] == u[k..][i - k];
      }
    }
  }
}
