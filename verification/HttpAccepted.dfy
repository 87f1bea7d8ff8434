/** What http_parser_execute accepts, fed in any cut: methods, header names, URLs, lengths, chunk sizes,
    and header values it does not interpret. */
module HttpAccepted {
  import opened HttpTypes
  import opened HttpStep
  import opened HttpEvents
  import opened HttpScan
  import opened HttpSlicing
  import opened HttpLoops
  import opened HttpChunked
  import opened HttpMethods
  import opened HttpNames
  import opened HttpValues
  import opened HttpHead
  import opened HttpUrls
  import opened HttpLenient

  /** `ss` cuts `d` into non-empty slices, and one byte per slice is left to the header limit. */
  predicate Cuts(ss: Slices, nread: nat, d: seq<byte>) {
    NoneEmpty(ss) && Concat(ss) == d && nread + |d| + |ss| <= MAX_HEADER
  }

  /** A method is accepted, in any cut, exactly if it is one of the names of the table, letter for
      letter, and it is then the one recorded. */
  lemma MethodAccepted(hc: HeadersCallback, p: Parser, nread: nat, w: seq<byte>, ss: Slices)
    requires p.errno.Ok? && p.state == StartReq && Cuts(ss, nread, w + [SP])
    requires w != [] && SP !in w && w[0] != CR && w[0] != LF
    ensures Feed(hc, p, nread, ss).ok <==> exists m :: Names(w, MethodString(m))
    ensures forall m | Names(w, MethodString(m)) ::
      Feed(hc, p, nread, ss).p == Named(p, m) && Feed(hc, p, nread, ss).out == [Notify(MessageBegin)]
  {
    hide ExactRun, Feed, Concat, MethodString, Blind;
    CutDecided(hc, p, nread, ss);
    MethodAcceptedIff(hc, p, nread, MAX_HEADER - |ss|, w);
    MethodAcceptedIff(Blind(hc, p.lenient), Lenient(p), nread, MAX_HEADER, w);
  }

  /** A URL is accepted, in any cut, exactly if its form fits the method: the authority for CONNECT, a path
      or an absolute URL for the others. */
  lemma UrlAccepted(hc: HeadersCallback, p: Parser, nread: nat, u: seq<byte>, ss: Slices)
    requires p.errno.Ok? && p.state == OnRequest(ReqSpacesBeforeUrl) && Cuts(ss, nread, u + [SP])
    requires u != [] && NoUrlSpace(u)
    ensures Feed(hc, p, nread, ss).ok <==> UrlFits(p.verb, u)
    ensures UrlFits(p.verb, u) ==>
      Feed(hc, p, nread, ss).p == p.(state := OnRequest(ReqHttpStart)) && Feed(hc, p, nread, ss).out == UrlEvents(u)
  {
    hide ExactRun, Feed, Concat, Blind, UrlFits;
    CutDecided(hc, p, nread, ss);
    UrlIff(hc, p, nread, MAX_HEADER - |ss|, u);
    UrlIff(Blind(hc, p.lenient), Lenient(p), nread, MAX_HEADER, u);
  }

  /** A header name is accepted, in any cut, exactly if it consists of token characters, and taken for
      one of the five known names exactly if it spells it, in any mixture of cases. */
  lemma NameAccepted(hc: HeadersCallback, p: Parser, nread: nat, w: seq<byte>, ss: Slices)
    requires p.errno.Ok? && p.state == OnHeader(HeaderFieldStart) && Cuts(ss, nread, w + [COLON])
    requires w != [] && COLON !in w && w[0] != CR && w[0] != LF
    ensures var f := Feed(hc, p, nread, ss);
      (f.ok <==> TokenText(w))
      && (f.ok ==>
            f.p == AtValue(p, f.p.hs, f.p.index) && f.out == NameEvents(w)
            && (f.p.hs.HConnection? <==> Is(w, CONNECTION) || Is(w, PROXY_CONNECTION))
            && (f.p.hs.HContentLength? <==> Is(w, CONTENT_LENGTH))
            && (f.p.hs.HTransferEncoding? <==> Is(w, TRANSFER_ENCODING))
            && (f.p.hs.HUpgrade? <==> Is(w, UPGRADE)))
  {
    hide ExactRun, Feed, Concat, Blind, TokenText, Is, NameEvents;
    CutDecided(hc, p, nread, ss);
    FieldNameRecognized(hc, p, nread, MAX_HEADER - |ss|, w);
    FieldNameRecognized(Blind(hc, p.lenient), Lenient(p), nread, MAX_HEADER, w);
  }

  /** A Content-Length is accepted, in any cut, exactly if it is digits and spaces up to the limit; the
      length is its decimal value and never the value that means "no length". */
  lemma LengthAccepted(hc: HeadersCallback, p: Parser, nread: nat, d: seq<byte>, ss: Slices)
    requires p.errno.Ok? && p.state == OnHeader(HeaderValueDiscardWs) && p.hs.HContentLength? && !p.flags.contentLength
    requires Cuts(ss, nread, d) && d != [] && NoLineEnd(d) && d[0] != SP && d[0] != HTAB
    ensures Feed(hc, p, nread, ss).ok <==> LengthText(d) && Decimal(d) <= LENGTH_LIMIT
    ensures Feed(hc, p, nread, ss).ok ==>
      Decimal(d) < ULLONG_MAX
      && Feed(hc, p, nread, ss).p == Lengthy(p, d[0]).(contentLength := Decimal(d))
      && Feed(hc, p, nread, ss).out == Touches(Value, d)
  {
    hide ExactRun, Feed, Concat, Blind, LengthText, Decimal;
    CutDecided(hc, p, nread, ss);
    LengthAcceptedIff(hc, p, nread, MAX_HEADER - |ss|, d);
    LengthAcceptedIff(Blind(hc, p.lenient), Lenient(p), nread, MAX_HEADER, d);
  }

  /** The digits of a chunk size are accepted, in any cut, exactly up to the limit, and the length is
      their hexadecimal value. */
  lemma SizeAccepted(hc: HeadersCallback, p: Parser, d: seq<byte>, ss: Slices)
    requires AtChunk(p) && Cuts(ss, 0, d) && d != [] && HexDigits(d)
    ensures Feed(hc, p, 0, ss).ok <==> Hex(d) <= CHUNK_LIMIT
    ensures Feed(hc, p, 0, ss).ok ==>
      Feed(hc, p, 0, ss).p == p.(contentLength := Hex(d), state := OnChunkSize(ChunkSize)) && Feed(hc, p, 0, ss).out == []
  {
    hide ExactRun, Feed, Concat, Blind, Hex, HexDigits;
    CutDecided(hc, p, 0, ss);
    SizeAcceptedIff(hc, p, MAX_HEADER - |ss|, d);
    SizeAcceptedIff(Blind(hc, p.lenient), Lenient(p), MAX_HEADER, d);
  }

  // ---------- values the parser does not interpret ----------

  /** The bytes at which the slices enter the value loop are header characters. The first byte of the
      value is read before the loop, and what follows an entry is skipped by memchr. */
  predicate EntriesClean(ss: Slices)
    requires ss != []
  {
    (|ss[0]| > 1 ==> IsHeaderChar(ss[0][1]))
    && forall i | 0 < i < |ss| :: ss[i] != [] ==> IsHeaderChar(ss[i][0])
  }

  /** How often the loop is entered: so many bytes count twice. */
  function Entries(ss: Slices): nat
    requires ss != []
  {
    (if |ss[0]| > 1 then 1 else 0) + |ss| - 1
  }

  /** Inside a value that is not interpreted. */
  predicate InPlain(p: Parser) { p.errno.Ok? && p.state == VALUE && p.hs.General? && !p.lenient }

  /** After the entry the rest of the slice is skipped. */
  lemma PlainSkip(hc: HeadersCallback, p: Parser, nread: nat, d: seq<byte>)
    requires InPlain(p) && NoLineEnd(d)
    ensures var r := Rest(hc, Scan(p, nread, true, 1, true), d);
      (r.Good() <==> nread + |d| + 1 <= MAX_HEADER)
      && (r.Good() ==> r == Outcome(Start(p, nread + |d| + 1), Touches(Value, d), |d|, false))
  {
    var x := Scan(p, nread, true, 1, true);
    if d == [] {
      SliceEnd(hc, x);
    } else {
      GeneralRun(hc, x, d);
      hide ScanRun;
    }
  }

  /** A slice, or what is left of it, that begins inside such a value and ends there. */
  lemma PlainSlice(hc: HeadersCallback, p: Parser, nread: nat, d: seq<byte>)
    requires InPlain(p) && d != [] && NoLineEnd(d)
    ensures var o := Rest(hc, Start(p, nread), d);
      (o.Good() <==> IsHeaderChar(d[0]) && nread + |d| + 1 <= MAX_HEADER)
      && (o.Good() ==> o == Outcome(Start(p, nread + |d| + 1), Touches(Value, d), |d|, false))
  {
    hide ScanByte, Rest;
    PlainEntry(hc, p, nread, d[0]);
    RestByte(hc, Start(p, nread), d);
    PlainSkip(hc, p, nread + 1, d[1..]);
  }

  lemma PlainEntry(hc: HeadersCallback, p: Parser, nread: nat, ch: byte)
    requires InPlain(p) && !LineEnd(ch)
    ensures var o := ScanByte(hc, Start(p, nread), ch);
      (o.Good() <==> IsHeaderChar(ch) && nread + 1 <= MAX_HEADER)
      && (o.Good() ==> o == Outcome(Scan(p, nread + 1, true, 1, true), [Data(Value, [ch])], 1, false))
  {
    assert Meanings([Touch(Value)], ch) == [Data(Value, [ch])];
    hide RequestByte, ResponseByte, UrlByte, BodyByte, ChunkSizeByte, StartRequest;
  }

  predicate FirstsClean(ss: Slices) { forall i | 0 <= i < |ss| :: ss[i] != [] ==> IsHeaderChar(ss[i][0]) }

  lemma FirstsTail(ss: Slices)
    requires ss != [] && ss[0] != []
    ensures FirstsClean(ss) <==> IsHeaderChar(ss[0][0]) && FirstsClean(ss[1..])
  {
    hide IsHeaderChar;
    assert forall i | 0 < i < |ss| :: ss[i] == ss[1..][i - 1];
  }

  lemma CutTail(ss: Slices)
    requires ss != [] && NoneEmpty(ss) && NoLineEnd(Concat(ss))
    ensures ss[0] != [] && NoneEmpty(ss[1..]) && NoLineEnd(ss[0]) && NoLineEnd(Concat(ss[1..]))
    ensures |Concat(ss)| == |ss[0]| + |Concat(ss[1..])|
  {
    hide LineEnd;
    var a, b := ss[0], Concat(ss[1..]);
    assert Concat(ss) == a + b;
    assert forall i | 0 <= i < |a| :: a[i] == (a + b)[i];
    assert forall i | 0 <= i < |b| :: b[i] == (a + b)[|a| + i];
  }

  lemma ExecRest(hc: HeadersCallback, p: Parser, nread: nat, d: seq<byte>)
    requires p.errno.Ok? && d != []
    ensures Exec(hc, p, nread, d) == Rest(hc, Start(p, nread), d)
  {
    hide ScanRun, ScanEnd;
  }

  /** Slices that all begin inside a value that is not interpreted. */
  lemma {:induction false} PlainSlices(hc: HeadersCallback, p: Parser, nread: nat, ss: Slices)
    requires InPlain(p) && NoneEmpty(ss) && NoLineEnd(Concat(ss))
    ensures var f := Feed(hc, p, nread, ss);
      (f.ok <==> FirstsClean(ss) && (ss == [] || nread + |Concat(ss)| + |ss| <= MAX_HEADER))
      && (f.ok ==> f == Fed(p, nread + |Concat(ss)| + |ss|, Touches(Value, Concat(ss)), true))
    decreases |ss|
  {
    hide Exec, Rest, IsHeaderChar;
    if ss != [] {
      var d := ss[0];
      CutTail(ss);
      FirstsTail(ss);
      ExecRest(hc, p, nread, d);
      PlainSlice(hc, p, nread, d);
      hide FirstsClean, NoLineEnd, NoneEmpty;
      if Exec(hc, p, nread, d).Good() {
        PlainSlices(hc, p, nread + |d| + 1, ss[1..]);
        TouchesAppend(Value, d, Concat(ss[1..]));
      }
    }
  }

  /** The slice in which the value begins. */
  lemma FirstSlice(hc: HeadersCallback, p: Parser, nread: nat, d: seq<byte>)
    requires p.errno.Ok? && p.state == OnHeader(HeaderValueDiscardWs) && Ordinary(p.hs) && !p.lenient
    requires d != [] && NoLineEnd(d) && d[0] != SP && d[0] != HTAB
    ensures var o := Exec(hc, p, nread, d);
      var entry := if |d| > 1 then 1 else 0;
      (o.Good() <==> (|d| > 1 ==> IsHeaderChar(d[1])) && nread + |d| + entry <= MAX_HEADER)
      && (o.Good() ==> o == Outcome(Start(Opened(p), nread + |d| + entry), Touches(Value, d), |d|, false))
  {
    assert !LineEnd(d[0]);
    hide ScanByte, Exec, Rest, IsHeaderChar, Ordinary, NoLineEnd, Touches;
    ExecRest(hc, p, nread, d);
    if |d| == 1 {
      FirstAlone(hc, p, nread, d[0]);
      assert d == [d[0]];
    } else {
      FirstMore(hc, p, nread, d);
    }
  }

  lemma FirstAlone(hc: HeadersCallback, p: Parser, nread: nat, ch: byte)
    requires p.errno.Ok? && p.state == OnHeader(HeaderValueDiscardWs) && Ordinary(p.hs)
    requires !LineEnd(ch) && ch != SP && ch != HTAB
    ensures var o := Rest(hc, Start(p, nread), [ch]);
      (o.Good() <==> nread + 1 <= MAX_HEADER)
      && (o.Good() ==> o == Outcome(Start(Opened(p), nread + 1), Touches(Value, [ch]), 1, false))
  {
    hide ScanByte, Rest, Ordinary;
    FirstByteOfValue(hc, p, nread, ch);
    RestByte(hc, Start(p, nread), [ch]);
    assert [ch][1..] == [];
    NothingLeft(hc, Opened(p), nread + 1);
    assert Touches(Value, [ch]) == [Data(Value, [ch])] + Touches(Value, []);
    TouchesNone();
  }

  lemma FirstMore(hc: HeadersCallback, p: Parser, nread: nat, d: seq<byte>)
    requires p.errno.Ok? && p.state == OnHeader(HeaderValueDiscardWs) && Ordinary(p.hs) && !p.lenient
    requires |d| > 1 && NoLineEnd(d) && d[0] != SP && d[0] != HTAB
    ensures var o := Rest(hc, Start(p, nread), d);
      (o.Good() <==> IsHeaderChar(d[1]) && nread + |d| + 1 <= MAX_HEADER)
      && (o.Good() ==> o == Outcome(Start(Opened(p), nread + |d| + 1), Touches(Value, d), |d|, false))
  {
    hide ScanByte, Rest, IsHeaderChar, Ordinary, Touches, NoLineEnd, LineEnd;
    ValueTail(d);
    FirstByteOfValue(hc, p, nread, d[0]);
    RestByte(hc, Start(p, nread), d);
    PlainSlice(hc, Opened(p), nread + 1, d[1..]);
  }

  lemma ValueTail(d: seq<byte>)
    requires d != [] && NoLineEnd(d)
    ensures !LineEnd(d[0]) && NoLineEnd(d[1..]) && Touches(Value, d) == [Data(Value, [d[0]])] + Touches(Value, d[1..])
  {
    hide LineEnd;
  }

  lemma TouchesNone()
    ensures Touches(Value, []) == []
  {
  }

  /** The parser inside the value. */
  function Opened(p: Parser): Parser { p.(state := VALUE, index := 0, hs := General) }

  lemma NothingLeft(hc: HeadersCallback, p: Parser, nread: nat)
    ensures Rest(hc, Start(p, nread), []) == Outcome(Start(p, nread), [], 0, false)
  {
  }

  lemma FirstByteOfValue(hc: HeadersCallback, p: Parser, nread: nat, ch: byte)
    requires p.errno.Ok? && p.state == OnHeader(HeaderValueDiscardWs) && Ordinary(p.hs)
    requires !LineEnd(ch) && ch != SP && ch != HTAB
    ensures var o := ScanByte(hc, Start(p, nread), ch);
      (o.Good() <==> nread + 1 <= MAX_HEADER)
      && (o.Good() ==> o == Outcome(Start(Opened(p), nread + 1), [Data(Value, [ch])], 1, false))
  {
    assert Meanings([Touch(Value)], ch) == [Data(Value, [ch])];
    hide RequestByte, ResponseByte, UrlByte, BodyByte, ChunkSizeByte, StartRequest;
  }

  lemma EntriesSplit(ss: Slices)
    requires ss != []
    ensures EntriesClean(ss) <==> (|ss[0]| > 1 ==> IsHeaderChar(ss[0][1])) && FirstsClean(ss[1..])
  {
    hide IsHeaderChar;
    var rest := ss[1..];
    assert forall i | 0 <= i < |rest| :: rest[i] == ss[i + 1];
    assert forall i | 0 < i < |ss| :: ss[i] == rest[i - 1];
  }

  /** A value that is not interpreted is accepted in a cut exactly if the bytes at which the slices
      enter the value loop are header characters, whatever the others are, and the bytes, those
      counted twice, stay within the header limit. It is then reported unchanged. */
  lemma ValueAccepted(hc: HeadersCallback, p: Parser, nread: nat, ss: Slices)
    requires p.errno.Ok? && p.state == OnHeader(HeaderValueDiscardWs) && Ordinary(p.hs) && !p.lenient
    requires ss != [] && NoneEmpty(ss) && NoLineEnd(Concat(ss)) && Concat(ss)[0] != SP && Concat(ss)[0] != HTAB
    ensures var v, f := Concat(ss), Feed(hc, p, nread, ss);
      (f.ok <==> EntriesClean(ss) && nread + |v| + Entries(ss) <= MAX_HEADER)
      && (f.ok ==> f == Fed(Opened(p), nread + |v| + Entries(ss), Touches(Value, v), true))
  {
    hide Exec, IsHeaderChar, FirstsClean, EntriesClean, NoLineEnd, NoneEmpty, Ordinary, Touches;
    var d, rest := ss[0], ss[1..];
    CutTail(ss);
    EntriesSplit(ss);
    assert Concat(ss)[0] == d[0];
    FirstSlice(hc, p, nread, d);
    if Exec(hc, p, nread, d).Good() {
      PlainSlices(hc, Opened(p), nread + |d| + if |d| > 1 then 1 else 0, rest);
      TouchesAppend(Value, d, Concat(rest));
    }
  }

  /** Byte by byte, every byte of the value but the first is checked, and counted twice. */
  lemma ValueByteByByte(hc: HeadersCallback, p: Parser, nread: nat, v: seq<byte>)
    requires p.errno.Ok? && p.state == OnHeader(HeaderValueDiscardWs) && Ordinary(p.hs) && !p.lenient
    requires v != [] && NoLineEnd(v) && v[0] != SP && v[0] != HTAB
    ensures Feed(hc, p, nread, Singles(v)).ok <==> HeaderText(v[1..]) && nread + 2 * |v| - 1 <= MAX_HEADER
  {
    ConcatSingles(v);
    SinglesNonEmpty(v);
    SinglesAre(v);
    hide Feed, Concat, Singles, IsHeaderChar;
    ValueAccepted(hc, p, nread, Singles(v));
    assert forall i | 0 < i < |v| :: v[i] == v[1..][i - 1];
  }

  lemma {:induction false} SinglesAre(d: seq<byte>)
    ensures |Singles(d)| == |d| && forall i | 0 <= i < |d| :: Singles(d)[i] == [d[i]]
  {
    if d != [] {
      SinglesAre(d[1..]);
    }
  }
}
