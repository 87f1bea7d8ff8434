/** Whole streams on which the cut does matter: why there are conditions on the slices. */
module HttpLimits {
  import opened HttpTypes
  import opened HttpStep
  import opened HttpEvents
  import opened HttpScan
  import opened HttpSlicing
  import opened HttpLoops
  import opened HttpChunked
  import opened HttpNames
  import opened HttpValues
  import opened HttpFolds
  import opened HttpHead
  import opened HttpNumbers
  import opened HttpUrls
  import opened HttpContent
  import opened HttpRequest
  import opened HttpAccepted

  // ---------- a prefix that is not cut ----------

  /** A stream read exactly that does not end inside a header name or value is read so within a slice. */
  lemma PrefixScanned(hc: HeadersCallback, p: Parser, n: nat, d: seq<byte>)
    requires p.errno.Ok? && n <= MAX_HEADER && ExactRun(hc, p, n, MAX_HEADER, d).Good()
    requires var e := ExactRun(hc, p, n, MAX_HEADER, d); e.p.state != FIELD && e.p.state != VALUE
    ensures var e := ExactRun(hc, p, n, MAX_HEADER, d);
      ScanRun(hc, Start(p, n), d) == Outcome(Start(e.p, e.n), e.out, |d|, false)
  {
    hide ScanRun, ExactRun;
    RunTracks(hc, Start(p, n), Exact(p, n, [], false), 0, MAX_HEADER, d);
    ScanRunUsed(hc, Start(p, n), d);
  }

  /** After it the slice goes on as if it began there. */
  lemma AfterPrefix(hc: HeadersCallback, p: Parser, n: nat, pre: seq<byte>, d: seq<byte>)
    requires p.errno.Ok? && n <= MAX_HEADER && ExactRun(hc, p, n, MAX_HEADER, pre).Good() && d != []
    requires var e := ExactRun(hc, p, n, MAX_HEADER, pre); e.p.state != FIELD && e.p.state != VALUE
    ensures var e := ExactRun(hc, p, n, MAX_HEADER, pre);
      var o, r := Exec(hc, p, n, pre + d), Exec(hc, e.p, e.n, d);
      (o.Good() <==> r.Good()) && (o.Good() ==> o.x == r.x)
  {
    hide ScanByte, ExactRun;
    PrefixScanned(hc, p, n, pre);
    ScanRunAppend(hc, Start(p, n), pre, d);
    hide ScanRun;
  }

  lemma OneSlice(hc: HeadersCallback, p: Parser, n: nat, a: seq<byte>)
    requires a != []
    ensures Feed(hc, p, n, [a]).ok <==> Exec(hc, p, n, a).Good()
  {
    hide Exec;
    assert [a][1..] == [];
    var o := Exec(hc, p, n, a);
    assert Feed(hc, o.x.p, o.x.nread, []).ok;
  }

  lemma TwoSlices(hc: HeadersCallback, p: Parser, n: nat, a: seq<byte>, b: seq<byte>)
    requires a != [] && b != []
    ensures Feed(hc, p, n, [a]).ok <==> Exec(hc, p, n, a).Good()
    ensures Feed(hc, p, n, [a, b]).ok
      <==> Exec(hc, p, n, a).Good() && Exec(hc, Exec(hc, p, n, a).x.p, Exec(hc, p, n, a).x.nread, b).Good()
  {
    hide Exec;
    var o := Exec(hc, p, n, a);
    OneSlice(hc, p, n, a);
    OneSlice(hc, o.x.p, o.x.nread, b);
    assert [a, b][0] == a && [a, b][1..] == [b];
  }

  // ---------- GET / HTTP/1.1 ----------

  const GET_ROOT := Request.Request(GET, [47], 1, 1, [], NoContent)

  /** "GET / HTTP/1.1" and the end of the line. */
  function GetLine(): (d: seq<byte>)
    ensures d == [71, 69, 84, 32, 47, 32, 72, 84, 84, 80, 47, 49, 46, 49, 13, 10]
  {
    RequestLine(GET_ROOT)
  }

  lemma GetFits()
    ensures Version(1, 1) && UrlFits(GET, [47]) && Awaiting(Init(ParserType.Request))
  {
  }

  /** The parser after it, from the first byte of the connection on. */
  lemma GetRun(hc: HeadersCallback)
    ensures var e := ExactRun(hc, Init(ParserType.Request), 0, MAX_HEADER, GetLine());
      e.Good() && e.p == Lined(Init(ParserType.Request), GET_ROOT) && e.n == 16
  {
    GetFits();
    LineOfRequestRun(hc, Init(ParserType.Request), 0, MAX_HEADER, GET_ROOT);
    hide ExactRun;
  }

  // ---------- a control byte in a header value ----------

  const A_HEADER := Header([65], [SP], [97], [])

  /** "A: ". */
  const A_NAME: seq<byte> := [65, COLON, SP]

  lemma AcceptableA()
    ensures Acceptable(Framing(NO_FLAGS, ULLONG_MAX), A_HEADER)
  {
    assert Token(65) == 97;
  }

  lemma PlainA()
    ensures !Is([65], CONTENT_LENGTH) && !Is([65], TRANSFER_ENCODING) && !Is([65], CONNECTION)
    ensures !Is([65], PROXY_CONNECTION) && !Is([65], UPGRADE)
  {
  }

  /** The parser before the value of "A". */
  lemma NameRunA(hc: HeadersCallback)
    ensures var e := ExactRun(hc, Init(ParserType.Request), 0, MAX_HEADER, GetLine() + A_NAME);
      e.Good() && e.n == 19 && e.p.state == OnHeader(HeaderValueDiscardWs) && Ordinary(e.p.hs) && !e.p.lenient
  {
    var s := Lined(Init(ParserType.Request), GET_ROOT);
    GetRun(hc);
    AcceptableA();
    PlainA();
    LinedIs();
    hide ExactRun, Acceptable, Is, GetLine, Lined;
    NameLine(hc, s, 16, MAX_HEADER, A_HEADER);
    assert [65] + [COLON] + [SP] == A_NAME;
    ExactRunAppend(hc, Init(ParserType.Request), 0, MAX_HEADER, GetLine(), A_NAME);
  }

  /** The stream "GET / HTTP/1.1", "A: ab" and a control byte, on a new connection: accepted in one
      slice, because memchr passes over the control byte, and refused if a slice begins with it. */
  lemma ControlByteDependsOnCut(hc: HeadersCallback)
    ensures var pre := GetLine() + A_NAME;
      Feed(hc, Init(ParserType.Request), 0, [pre + [97, 98, 1]]).ok
      && !Feed(hc, Init(ParserType.Request), 0, [pre + [97, 98], [1]]).ok
  {
    var p, pre := Init(ParserType.Request), GetLine() + A_NAME;
    NameRunA(hc);
    var e := ExactRun(hc, p, 0, MAX_HEADER, pre);
    hide ExactRun, Exec, GetLine, Ordinary;
    AfterPrefix(hc, p, 0, pre, [97, 98, 1]);
    AfterPrefix(hc, p, 0, pre, [97, 98]);
    TwoSlices(hc, p, 0, pre + [97, 98, 1], [1]);
    TwoSlices(hc, p, 0, pre + [97, 98], [1]);
    TwoSlices(hc, e.p, e.n, [97, 98, 1], [1]);
    TwoSlices(hc, e.p, e.n, [97, 98], [1]);
    hide Feed;
    CutsOfValue();
    ValueAccepted(hc, e.p, e.n, [[97, 98, 1]]);
    ValueAccepted(hc, e.p, e.n, [[97, 98], [1]]);
  }

  lemma CutsOfValue()
    ensures var a, b: Slices := [[97, 98, 1]], [[97, 98], [1]];
      NoneEmpty(a) && NoneEmpty(b) && Concat(a) == Concat(b) == [97, 98, 1] && NoLineEnd([97, 98, 1])
      && EntriesClean(a) && Entries(a) == 1 && !EntriesClean(b)
  {
    var a, b: Slices := [[97, 98, 1]], [[97, 98], [1]];
    assert a[1..] == [] && b[1..] == [[1]] && [[1]][1..] == [];
    assert Concat([]) == [] && Concat([[1]]) == [1] && Concat(b) == [97, 98] + [1];
    assert b[1] != [] && !IsHeaderChar(b[1][0]);
  }

  // ---------- a name up to the limit ----------

  /** Inside a header name the parser does not know. */
  predicate InName(p: Parser) { p.errno.Ok? && p.state == FIELD && p.hs.General? }

  lemma NameByte(hc: HeadersCallback, x: Scan)
    requires InName(x.p) && !x.skip && x.nread + (if x.scanning then 0 else 1) <= MAX_HEADER
    ensures var n := x.nread + (if x.scanning then 0 else 1);
      ScanByte(hc, x, 97) == Outcome(Scan(x.p, n, true, x.lag + 1, false), [Data(Field, [97])], 1, false)
  {
    assert Meanings([Touch(Field)], 97) == [Data(Field, [97])];
    assert ByteStep(hc, x.p, 97) == With(x.p, [Touch(Field)]);
  }

  lemma NameEnd(hc: HeadersCallback, x: Scan)
    requires InName(x.p) && x.scanning && x.nread <= MAX_HEADER
    ensures ScanByte(hc, x, COLON).Good() <==> x.nread + x.lag <= MAX_HEADER
  {
  }

  /** `n` times the letter a. */
  function Letters(n: nat): (w: seq<byte>)
    ensures |w| == n && forall i | 0 <= i < n :: w[i] == 97
  {
    seq(n, i => 97)
  }

  lemma {:induction false} NameBytes(hc: HeadersCallback, x: Scan, k: nat)
    requires InName(x.p) && x.scanning && !x.skip && x.nread <= MAX_HEADER
    ensures var o := ScanRun(hc, x, Letters(k));
      o.Good() && o.x == Scan(x.p, x.nread, true, x.lag + k, if k == 0 then x.skip else false)
    decreases k
  {
    hide ScanByte;
    if k > 0 {
      NameByte(hc, x);
      assert Letters(k)[1..] == Letters(k - 1);
      NameBytes(hc, Scan(x.p, x.nread, true, x.lag + 1, false), k - 1);
    }
  }

  /** A slice that begins inside the name and ends there. */
  lemma NameSlice(hc: HeadersCallback, p: Parser, nread: nat, k: nat)
    requires InName(p) && k > 0 && nread + k + 1 <= MAX_HEADER
    ensures ScanRun(hc, Start(p, nread), Letters(k)).Good()
    ensures ScanRun(hc, Start(p, nread), Letters(k)).x == Scan(p, nread + 1, true, k, false)
  {
    hide ScanByte, ScanRun;
    NameByte(hc, Start(p, nread));
    ScanStep(hc, Start(p, nread), Letters(k));
    assert Letters(k)[1..] == Letters(k - 1);
    NameBytes(hc, Scan(p, nread + 1, true, 1, false), k - 1);
  }

  /** The first byte of a name, after which the loop is entered. */
  lemma NameFirst(hc: HeadersCallback, p: Parser, nread: nat)
    requires p.errno.Ok? && p.state == OnHeader(HeaderFieldStart) && nread + 1 <= MAX_HEADER
    ensures var o := ScanByte(hc, Start(p, nread), 97);
      o.Good() && o.x == Start(p.(index := 0, state := FIELD, hs := General), nread + 1)
  {
    assert Token(97) == 97;
    hide HeadersEnd, RequestByte, ResponseByte, UrlByte, BodyByte, ChunkSizeByte, StartRequest;
  }

  /** All of the name but its last letter is one slice. */
  lemma NameButLast(hc: HeadersCallback, p: Parser, nread: nat, k: nat)
    requires p.errno.Ok? && p.state == OnHeader(HeaderFieldStart) && k > 1 && nread + k + 1 <= MAX_HEADER
    ensures var o := Exec(hc, p, nread, Letters(k));
      o.Good() && o.x == Start(p.(index := 0, state := FIELD, hs := General), nread + k + 1)
  {
    var d := Letters(k);
    assert d[1..] == Letters(k - 1);
    hide ScanByte, ScanRun;
    NameFirst(hc, p, nread);
    ScanStep(hc, Start(p, nread), d);
    var one := ScanByte(hc, Start(p, nread), 97);
    NameSlice(hc, one.x.p, nread + 1, k - 1);
  }

  /** The last letter and the colon, where the count has no room for a byte counted twice. */
  lemma EndRefused(hc: HeadersCallback, p: Parser)
    requires InName(p)
    ensures !Exec(hc, p, MAX_HEADER - 1, [97, COLON]).Good()
  {
    var x := Start(p, MAX_HEADER - 1);
    NameByte(hc, x);
    var y := ScanByte(hc, x, 97).x;
    NameEnd(hc, y);
    hide ScanByte;
    assert [97, COLON][1..] == [COLON];
    var one := ScanByte(hc, x, 97);
    assert !ScanRun(hc, y, [COLON]).Good();
    assert !ScanRun(hc, x, [97, COLON]).Good();
  }

  /** A header name as long as the limit allows after the request line. */
  const LONGEST: nat := MAX_HEADER - 17

  /** The stream "GET / HTTP/1.1", a header name and a colon, exactly as long as the limit, on a new
      connection: accepted in one slice, and refused when a slice ends inside the name. */
  lemma LimitDependsOnCut(hc: HeadersCallback)
    ensures |GetLine() + Letters(LONGEST) + [COLON]| == MAX_HEADER == 81920
    ensures Feed(hc, Init(ParserType.Request), 0, [GetLine() + (Letters(LONGEST) + [COLON])]).ok
    ensures !Feed(hc, Init(ParserType.Request), 0, [GetLine() + Letters(LONGEST - 1), [97, COLON]]).ok
  {
    WholeNameFits(hc);
    CutNameDoesNotFit(hc);
  }

  lemma WholeNameFits(hc: HeadersCallback)
    ensures Feed(hc, Init(ParserType.Request), 0, [GetLine() + (Letters(LONGEST) + [COLON])]).ok
  {
    var p, s := Init(ParserType.Request), Lined(Init(ParserType.Request), GET_ROOT);
    var name := Letters(LONGEST);
    GetRun(hc);
    TokenLetters(LONGEST);
    hide ExactRun, GetLine, TokenText, Lined;
    LinedIs();
    FieldNameRecognized(hc, s, 16, MAX_HEADER, name);
    var e := ExactRun(hc, s, 16, MAX_HEADER, name + [COLON]);
    ExactRunAppend(hc, p, 0, MAX_HEADER, GetLine(), name + [COLON]);
    PrefixScanned(hc, p, 0, GetLine() + (name + [COLON]));
    OneSlice(hc, p, 0, GetLine() + (name + [COLON]));
    ScannedGood(hc, p, 0, GetLine() + (name + [COLON]));
  }

  lemma LinedIs()
    ensures var s := Lined(Init(ParserType.Request), GET_ROOT);
      s.errno.Ok? && s.state == OnHeader(HeaderFieldStart) && !s.lenient && s.flags == NO_FLAGS && s.contentLength == ULLONG_MAX
  {
  }

  lemma TokenLetters(k: nat)
    ensures TokenText(Letters(k)) && COLON !in Letters(k)
  {
    assert Token(97) == 97;
  }

  lemma ScannedGood(hc: HeadersCallback, p: Parser, n: nat, d: seq<byte>)
    requires p.errno.Ok? && d != [] && ScanRun(hc, Start(p, n), d).Good() && !ScanRun(hc, Start(p, n), d).x.scanning
    ensures Exec(hc, p, n, d).Good()
  {
    hide ScanRun;
  }

  lemma CutNameDoesNotFit(hc: HeadersCallback)
    ensures !Feed(hc, Init(ParserType.Request), 0, [GetLine() + Letters(LONGEST - 1), [97, COLON]]).ok
  {
    var p, s := Init(ParserType.Request), Lined(Init(ParserType.Request), GET_ROOT);
    GetRun(hc);
    hide ExactRun, Exec, GetLine, Lined;
    LinedIs();
    NameButLast(hc, s, 16, LONGEST - 1);
    AfterPrefix(hc, p, 0, GetLine(), Letters(LONGEST - 1));
    TwoSlices(hc, p, 0, GetLine() + Letters(LONGEST - 1), [97, COLON]);
    EndRefused(hc, s.(index := 0, state := FIELD, hs := General));
  }
}
