/** The numbers in the first line of a message: versions and status codes. */
module HttpNumbers {
  import opened HttpTypes
  import opened HttpStep
  import opened HttpEvents
  import opened HttpSlicing
  import opened HttpLoops
  import opened HttpChunked

  datatype Kind = RequestMajor | RequestMinor | ResponseMajor | ResponseMinor | StatusCode

  /** The state before the first digit, and after one. */
  function BeforeDigits(k: Kind): State {
    match k
    case RequestMajor => OnRequest(ReqFirstHttpMajor)
    case RequestMinor => OnRequest(ReqFirstHttpMinor)
    case ResponseMajor => OnResponse(ResFirstHttpMajor)
    case ResponseMinor => OnResponse(ResFirstHttpMinor)
    case StatusCode => OnResponse(ResFirstStatusCode)
  }

  function InDigits(k: Kind): State {
    match k
    case RequestMajor => OnRequest(ReqHttpMajor)
    case RequestMinor => OnRequest(ReqHttpMinor)
    case ResponseMajor => OnResponse(ResHttpMajor)
    case ResponseMinor => OnResponse(ResHttpMinor)
    case StatusCode => OnResponse(ResStatusCode)
  }

  /** The parser when the digits read so far spell `v`. */
  function Holding(p: Parser, k: Kind, v: nat): Parser {
    match k
    case RequestMajor => p.(major := v, state := InDigits(k))
    case RequestMinor => p.(minor := v, state := InDigits(k))
    case ResponseMajor => p.(major := v, state := InDigits(k))
    case ResponseMinor => p.(minor := v, state := InDigits(k))
    case StatusCode => p.(status := v, state := InDigits(k))
  }

  predicate AllDigits(d: seq<byte>) { forall i | 0 <= i < |d| :: IsNum(d[i]) }

  /** The number that digits spell. */
  function Spelled(d: seq<byte>): nat
    requires AllDigits(d)
  {
    if d == [] then 0
    else
      assert IsNum(d[|d| - 1]);
      Spelled(d[..|d| - 1]) * 10 + Digit(d[|d| - 1])
  }

  lemma FirstDigit(hc: HeadersCallback, p: Parser, n: nat, max: int, k: Kind, ch: byte)
    requires p.errno.Ok? && p.state == BeforeDigits(k) && IsNum(ch) && (k.RequestMajor? ==> ch != '0' as int) && n + 1 <= max
    ensures ExactByte(hc, p, n, max, ch) == Exact(Holding(p, k, Digit(ch)), n + 1, [], false)
  {
    assert Meanings([], ch) == [];
    hide UrlByte, HeaderByte, BodyByte, ChunkSizeByte, StartRequest, MethodByte;
  }

  lemma NextDigit(hc: HeadersCallback, p: Parser, n: nat, max: int, k: Kind, v: nat, ch: byte)
    requires p.errno.Ok? && IsNum(ch) && v <= 999 && n + 1 <= max
    ensures var e, w := ExactByte(hc, Holding(p, k, v), n, max, ch), v * 10 + Digit(ch);
      if w <= 999 then e == Exact(Holding(p, k, w), n + 1, [], false) else !e.Good()
  {
    assert Meanings([], ch) == [];
    hide UrlByte, HeaderByte, BodyByte, ChunkSizeByte, StartRequest, MethodByte;
  }

  /** A number is accepted exactly up to 999, and recorded. */
  lemma {:induction false} NumberIff(hc: HeadersCallback, p: Parser, n: nat, max: int, k: Kind, d: seq<byte>)
    requires p.errno.Ok? && p.state == BeforeDigits(k) && n + |d| <= max
    requires d != [] && AllDigits(d) && (k.RequestMajor? ==> d[0] != '0' as int)
    ensures var e := ExactRun(hc, p, n, max, d);
      if Spelled(d) <= 999 then e == Exact(Holding(p, k, Spelled(d)), n + |d|, [], false) else !e.Good()
    decreases |d|
  {
    hide ExactByte, ExactRun, IsNum, Digit;
    if |d| == 1 {
      assert d == [d[0]] && d[..0] == [];
      RunOne(hc, p, n, max, d[0]);
      FirstDigit(hc, p, n, max, k, d[0]);
      assert Spelled(d) == Spelled(d[..0]) * 10 + Digit(d[0]);
      OneDigit(d[0]);
    } else {
      var init, ch := d[..|d| - 1], d[|d| - 1];
      assert d == init + [ch] && AllDigits(init);
      NumberIff(hc, p, n, max, k, init);
      OneDigit(ch);
      ExactRunAppend(hc, p, n, max, init, [ch]);
      if Spelled(init) <= 999 {
        NextDigit(hc, p, n + |init|, max, k, Spelled(init), ch);
        RunOne(hc, Holding(p, k, Spelled(init)), n + |init|, max, ch);
      }
    }
  }

  lemma OneDigit(ch: byte)
    requires IsNum(ch)
    ensures 0 <= Digit(ch) <= 9
  {
  }

  /** A number as it is printed. */
  function Number(v: nat): (d: seq<byte>)
    ensures d != [] && (v > 0 ==> d[0] != '0' as int)
  {
    if v < 10 then [48 + v] else Number(v / 10) + [48 + v % 10]
  }

  lemma {:induction false} NumberSpells(v: nat)
    ensures AllDigits(Number(v)) && Spelled(Number(v)) == v
  {
    if v < 10 {
      assert Number(v)[..0] == [];
      assert Spelled(Number(v)[..0]) == 0;
    } else {
      NumberSpells(v / 10);
      var init, d := Number(v / 10), Number(v);
      assert d[..|d| - 1] == init && d[|d| - 1] == 48 + v % 10;
      assert v == v / 10 * 10 + v % 10;
    }
  }

  lemma NumberRun(hc: HeadersCallback, p: Parser, n: nat, max: int, k: Kind, v: nat)
    requires p.errno.Ok? && p.state == BeforeDigits(k) && v <= 999 && (k.RequestMajor? ==> v > 0) && n + |Number(v)| <= max
    ensures ExactRun(hc, p, n, max, Number(v)) == Exact(Holding(p, k, v), n + |Number(v)|, [], false)
  {
    NumberSpells(v);
    hide ExactRun, Number, Spelled;
    NumberIff(hc, p, n, max, k, Number(v));
  }

  // ---------- a single byte ----------

  /** A byte that only moves the parser on. */
  predicate Moves(hc: HeadersCallback, p: Parser, ch: byte, to: State) { ByteStep(hc, p, ch) == Go(p, to) }

  lemma MoveRun(hc: HeadersCallback, p: Parser, n: nat, max: int, ch: byte, to: State)
    requires p.errno.Ok? && Moves(hc, p, ch, to) && ParsingHeader(p.state) && p.state != VALUE && n + 1 <= max
    ensures ExactRun(hc, p, n, max, [ch]) == Exact(p.(state := to), n + 1, [], false)
  {
    assert Meanings([], ch) == [];
    assert ExactByte(hc, p, n, max, ch) == Exact(p.(state := to), n + 1, [], false) by { hide ByteStep; }
    hide ExactByte, ExactRun;
    RunOne(hc, p, n, max, ch);
  }

  // ---------- HTTP and a version ----------

  predicate Version(major: nat, minor: nat) { 1 <= major <= 999 && minor <= 999 }

  /** "HTTP/". */
  const NAME: seq<byte> := [72, 84, 84, 80, 47]

  /** "HTTP/", the version, and the end of the line. */
  function VersionText(major: nat, minor: nat): seq<byte> { NAME + Number(major) + [46] + Number(minor) + CRLF }

  function NameState(k: nat): RequestState {
    if k == 0 then ReqHttpStart else if k == 1 then ReqHttpH else if k == 2 then ReqHttpHT
    else if k == 3 then ReqHttpHTT else if k == 4 then ReqHttpHTTP else ReqFirstHttpMajor
  }

  lemma NameMoves(hc: HeadersCallback, p: Parser, k: nat)
    requires p.errno.Ok? && k < 5 && p.state == OnRequest(NameState(k))
    ensures Moves(hc, p, NAME[k], OnRequest(NameState(k + 1)))
  {
  }

  lemma {:induction false} NameRun(hc: HeadersCallback, p: Parser, n: nat, max: int, k: nat)
    requires p.errno.Ok? && k <= 5 && p.state == OnRequest(NameState(k)) && n + 5 - k <= max
    ensures ExactRun(hc, p, n, max, NAME[k..]) == Exact(p.(state := OnRequest(ReqFirstHttpMajor)), n + 5 - k, [], false)
    decreases 5 - k
  {
    hide ExactRun, Moves;
    if k == 5 {
      assert NAME[k..] == [];
      ExactNone(hc, p, n, max);
    } else {
      var q := p.(state := OnRequest(NameState(k + 1)));
      NameMoves(hc, p, k);
      MoveRun(hc, p, n, max, NAME[k], OnRequest(NameState(k + 1)));
      NameRun(hc, q, n + 1, max, k + 1);
      ExactRunAppend(hc, p, n, max, [NAME[k]], NAME[k + 1..]);
      assert [NAME[k]] + NAME[k + 1..] == NAME[k..];
    }
  }

  lemma PointMoves(hc: HeadersCallback, p: Parser)
    requires p.errno.Ok?
    ensures p.state == OnRequest(ReqHttpMajor) ==> Moves(hc, p, 46, OnRequest(ReqFirstHttpMinor))
    ensures p.state == OnResponse(ResHttpMajor) ==> Moves(hc, p, 46, OnResponse(ResFirstHttpMinor))
    ensures p.state == OnRequest(ReqHttpMinor) ==> Moves(hc, p, CR, OnRequest(ReqLineAlmostDone))
    ensures p.state == OnRequest(ReqLineAlmostDone) ==> Moves(hc, p, LF, OnHeader(HeaderFieldStart))
    ensures p.state == OnResponse(ResHttpMinor) ==> Moves(hc, p, SP, OnResponse(ResFirstStatusCode))
    ensures p.state == OnResponse(ResStatusCode) ==> Moves(hc, p, SP, OnResponse(ResStatusStart))
  {
    hide UrlByte, HeaderByte, BodyByte, ChunkSizeByte, StartRequest, MethodByte;
  }

  /** Two numbers with a point between them. */
  lemma PairRun(hc: HeadersCallback, p: Parser, n: nat, max: int, request: bool, major: nat, minor: nat)
    requires p.errno.Ok? && p.state == BeforeDigits(if request then RequestMajor else ResponseMajor)
    requires major <= 999 && minor <= 999 && (request ==> major > 0) && n + |Number(major)| + 1 + |Number(minor)| <= max
    ensures var d := Number(major) + [46] + Number(minor);
      ExactRun(hc, p, n, max, d)
      == Exact(p.(major := major, minor := minor, state := InDigits(if request then RequestMinor else ResponseMinor)),
               n + |d|, [], false)
  {
    hide ExactRun, Number, Moves;
    var k, l := if request then RequestMajor else ResponseMajor, if request then RequestMinor else ResponseMinor;
    NumberRun(hc, p, n, max, k, major);
    var q := Holding(p, k, major);
    PointMoves(hc, q);
    MoveRun(hc, q, n + |Number(major)|, max, 46, BeforeDigits(l));
    ExactRunAppend(hc, p, n, max, Number(major), [46]);
    var r := q.(state := BeforeDigits(l));
    NumberRun(hc, r, n + |Number(major)| + 1, max, l, minor);
    ExactRunAppend(hc, p, n, max, Number(major) + [46], Number(minor));
  }

  lemma LineEndRun(hc: HeadersCallback, p: Parser, n: nat, max: int)
    requires p.errno.Ok? && p.state == OnRequest(ReqHttpMinor) && n + 2 <= max
    ensures ExactRun(hc, p, n, max, CRLF) == Exact(p.(state := OnHeader(HeaderFieldStart)), n + 2, [], false)
  {
    hide ExactRun, Moves;
    var q := p.(state := OnRequest(ReqLineAlmostDone));
    PointMoves(hc, p);
    MoveRun(hc, p, n, max, CR, OnRequest(ReqLineAlmostDone));
    PointMoves(hc, q);
    MoveRun(hc, q, n + 1, max, LF, OnHeader(HeaderFieldStart));
    ExactRunAppend(hc, p, n, max, [CR], [LF]);
    assert [CR] + [LF] == CRLF;
  }

  /** The version of a request and the end of its line. */
  lemma VersionedRun(hc: HeadersCallback, u: Parser, n: nat, max: int, major: nat, minor: nat)
    requires u.errno.Ok? && u.state == OnRequest(ReqHttpStart) && Version(major, minor) && n + |VersionText(major, minor)| <= max
    ensures ExactRun(hc, u, n, max, VersionText(major, minor))
         == Exact(u.(state := OnHeader(HeaderFieldStart), major := major, minor := minor),
                  n + |VersionText(major, minor)|, [], false)
  {
    hide ExactRun, Number, Moves;
    var d := Number(major) + [46] + Number(minor);
    assert NAME[0..] == NAME;
    NameRun(hc, u, n, max, 0);
    var a := u.(state := OnRequest(ReqFirstHttpMajor));
    PairRun(hc, a, n + 5, max, true, major, minor);
    ExactRunAppend(hc, u, n, max, NAME, d);
    var b := a.(major := major, minor := minor, state := OnRequest(ReqHttpMinor));
    LineEndRun(hc, b, n + 5 + |d|, max);
    ExactRunAppend(hc, u, n, max, NAME + d, CRLF);
    assert NAME + d + CRLF == VersionText(major, minor);
  }
}
