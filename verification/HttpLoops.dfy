/** What the loops that consume many bytes at once amount to, byte by byte. */
module HttpLoops {
  import opened HttpTypes
  import opened HttpStep
  import opened HttpEvents
  import opened HttpScan

  /** One callback per byte of `d`. */
  function Touches(k: DataKind, d: seq<byte>): seq<Event> {
    if d == [] then [] else [Data(k, [d[0]])] + Touches(k, d[1..])
  }

  lemma {:induction false} TouchesAppend(k: DataKind, a: seq<byte>, b: seq<byte>)
    ensures Touches(k, a + b) == Touches(k, a) + Touches(k, b)
  {
    if a == [] {
      assert a + b == b;
    } else {
      assert (a + b)[1..] == a[1..] + b;
      TouchesAppend(k, a[1..], b);
    }
  }

  /** Joined, bytes reported one by one are one piece of data. */
  lemma {:induction false} PushTouches(js: seq<Event>, k: DataKind, d: seq<byte>)
    requires d != []
    ensures PushAll(js, Touches(k, d)) == Push(js, Data(k, d))
    decreases |d|
  {
    var one := Push(js, Data(k, [d[0]]));
    if |d| == 1 {
      assert d[1..] == [] && d == [d[0]];
      assert Touches(k, d) == [Data(k, [d[0]])];
    } else {
      PushTouches(one, k, d[1..]);
      PushTwice(js, k, [d[0]], d[1..]);
      assert [d[0]] + d[1..] == d;
      assert Touches(k, d)[1..] == Touches(k, d[1..]);
    }
  }

  /** `o` seen from `out` and `used` earlier. */
  function Later(out: seq<Event>, used: nat, o: Outcome): Outcome {
    o.(out := out + o.out, used := used + o.used)
  }

  /** The rest of the slice from `x` on. */
  function Rest(hc: HeadersCallback, x: Scan, d: seq<byte>): Outcome {
    ScanEnd(ScanRun(hc, x, d))
  }

  lemma LaterLater(a: seq<Event>, i: nat, b: seq<Event>, j: nat, o: Outcome)
    ensures Later(a, i, Later(b, j, o)) == Later(a + b, i + j, o)
  {
    assert a + (b + o.out) == (a + b) + o.out;
  }

  /** One byte peeled off the slice. */
  lemma RestByte(hc: HeadersCallback, x: Scan, d: seq<byte>)
    requires x.p.errno.Ok? && d != []
    ensures var one := ScanByte(hc, x, d[0]);
      (one.Good() ==> Rest(hc, x, d) == Later(one.out, 1, Rest(hc, one.x, d[1..])))
      && (!one.Good() ==> Rest(hc, x, d) == one)
  {
    hide ScanByte;
  }

  lemma RestRun(hc: HeadersCallback, x: Scan, a: seq<byte>, b: seq<byte>)
    requires x.p.errno.Ok? && ScanRun(hc, x, a).Good()
    ensures var o := ScanRun(hc, x, a);
      Rest(hc, x, a + b) == Later(o.out, |a|, Rest(hc, o.x, b))
  {
    hide ScanByte;
    ScanRunAppend(hc, x, a, b);
    ScanRunUsed(hc, x, a);
  }

  /** The same outcome, or errors of the same number: after an error only its number is stated. */
  predicate Agree(a: Outcome, b: Outcome) {
    a.x.p.errno == b.x.p.errno && (a.x.p.errno.Ok? ==> a == b)
  }

  // ---------- entering a loop ----------

  /** Counting the byte at the top of the for loop, then scanning, is what ScanByte does at once. */
  lemma LoopEntry(hc: HeadersCallback, p: Parser, nread: nat, d: seq<byte>)
    requires p.errno.Ok? && (p.state == FIELD || p.state == VALUE) && d != [] && nread + 1 <= MAX_HEADER
    ensures Agree(Rest(hc, Start(p, nread), d), Rest(hc, Scan(p, nread + 1, true, 0, false), d))
  {
    var x, y := Start(p, nread), Scan(p, nread + 1, true, 0, false);
    EntryByte(hc, p, nread, d[0]);
    RestByte(hc, x, d);
    RestByte(hc, y, d);
    hide ScanByte, Rest;
  }

  lemma EntryByte(hc: HeadersCallback, p: Parser, nread: nat, ch: byte)
    requires p.errno.Ok? && (p.state == FIELD || p.state == VALUE) && nread + 1 <= MAX_HEADER
    ensures Agree(ScanByte(hc, Start(p, nread), ch), ScanByte(hc, Scan(p, nread + 1, true, 0, false), ch))
  {
    hide ByteStep;
  }

  // ---------- the loop over a header name ----------

  /** A token byte of a header name. */
  lemma FieldToken(hc: HeadersCallback, x: Scan, ch: byte)
    requires x.p.errno.Ok? && x.p.state == FIELD && x.scanning && Token(ch) != 0
    requires FieldChar(x.p, ch, Token(ch)).errno.Ok? && FieldChar(x.p, ch, Token(ch)).state == FIELD
    ensures ScanByte(hc, x, ch)
         == Outcome(x.(p := FieldChar(x.p, ch, Token(ch)), lag := x.lag + 1, skip := false), [Data(Field, [ch])], 1, false)
  {
    hide FieldChar;
    assert Meanings([Touch(Field)], ch) == [Data(Field, [ch])];
  }

  /** The byte that ends a header name: the loop's bytes are counted before it is looked at. */
  lemma FieldEnd(hc: HeadersCallback, x: Scan, d: seq<byte>)
    requires x.p.errno.Ok? && x.p.state == FIELD && x.scanning && d != [] && Token(d[0]) == 0
    ensures var r := Rest(hc, x, d);
      if x.nread + x.lag > MAX_HEADER then r.x.p.errno == HeaderOverflow
      else if d[0] == ':' as int then
        r == Later([Data(Field, [])], 1,
                   Rest(hc, Start(x.p.(state := OnHeader(HeaderValueDiscardWs)), x.nread + x.lag), d[1..]))
      else r.x.p.errno == InvalidHeaderToken
  {
    hide RequestByte, ResponseByte, UrlByte, BodyByte, ChunkSizeByte, StartRequest, FieldStart, HeadersEnd, ValueStart;
    RestByte(hc, x, d);
    assert Meanings([Close(Field)], d[0]) == [Data(Field, [])];
  }

  /** The end of the slice inside a loop. */
  lemma SliceEnd(hc: HeadersCallback, x: Scan)
    requires x.p.errno.Ok? && x.scanning
    ensures var r := Rest(hc, x, []);
      if x.nread + x.lag > MAX_HEADER then r.x.p.errno == HeaderOverflow
      else r == Outcome(Start(x.p, x.nread + x.lag), [], 0, false)
  {
  }

  // ---------- the loop over a header value ----------

  predicate LineEnd(ch: byte) { ch == CR || ch == LF }

  predicate NoLineEnd(d: seq<byte>) { forall i | 0 <= i < |d| :: !LineEnd(d[i]) }

  lemma ValueCharByte(hc: HeadersCallback, x: Scan, ch: byte)
    requires x.p.errno.Ok? && x.p.state == VALUE && x.scanning && !LineEnd(ch) && !Rejected(x, ch)
    ensures var q := ValueChar(x.p, ch);
      var o := ScanByte(hc, x, ch);
      if !x.p.lenient && !IsHeaderChar(ch) && !x.p.hs.General? then o.x.p.errno == InvalidHeaderToken
      else if !q.errno.Ok? then o.x.p.errno == q.errno
      else q.state == VALUE && o == Outcome(Scan(q, x.nread, true, x.lag + 1, x.p.hs.General?), [Data(Value, [ch])], 1, false)
  {
    ValueCharState(x.p, ch);
    hide ValueChar;
    assert Meanings([Touch(Value)], ch) == [Data(Value, [ch])];
  }

  lemma ValueCharState(p: Parser, ch: byte)
    ensures ValueChar(p, ch).state == p.state
  {
  }

  /** CR or LF after a value: LF re-executes s_header_almost_done at once. */
  lemma ValueEnd(hc: HeadersCallback, x: Scan, d: seq<byte>)
    requires x.p.errno.Ok? && x.p.state == VALUE && x.scanning && d != [] && LineEnd(d[0])
    ensures var r := Rest(hc, x, d);
      if x.nread + x.lag > MAX_HEADER then r.x.p.errno == HeaderOverflow
      else
        var s := if d[0] == CR then HeaderAlmostDone else HeaderValueLws;
        r == Later([Data(Value, [])], 1, Rest(hc, Start(x.p.(state := OnHeader(s)), x.nread + x.lag), d[1..]))
  {
    hide RequestByte, ResponseByte, UrlByte, BodyByte, ChunkSizeByte, StartRequest, FieldStart, HeadersEnd, ValueStart;
    RestByte(hc, x, d);
    assert Meanings([Close(Value)], d[0]) == [Data(Value, [])];
  }

  /** The memchr jump: once in state General, bytes up to the line end change nothing but the count. */
  lemma {:induction false} GeneralRun(hc: HeadersCallback, x: Scan, d: seq<byte>)
    requires x.p.errno.Ok? && x.p.state == VALUE && x.p.hs.General? && x.scanning
    requires d != [] && NoLineEnd(d) && !Rejected(x, d[0])
    ensures ScanRun(hc, x, d) == Outcome(x.(lag := x.lag + |d|, skip := true), Touches(Value, d), |d|, false)
    decreases |d|
  {
    ValueCharByte(hc, x, d[0]);
    hide ScanByte;
    var o := ScanByte(hc, x, d[0]);
    assert o.x.p == x.p;
    if |d| > 1 {
      GeneralRun(hc, o.x, d[1..]);
    }
  }

  /** When the window memchr searches holds no line end although the slice is longer, the C code
      skips to the end of the slice: the header is then over its limit whatever follows. */
  lemma WindowOverflows(hc: HeadersCallback, x: Scan, d: seq<byte>)
    requires x.p.errno.Ok? && x.p.state == VALUE && x.p.hs.General? && x.scanning && x.nread >= 1
    requires |d| > MAX_HEADER && NoLineEnd(d[..MAX_HEADER]) && !Rejected(x, d[0])
    ensures Rest(hc, x, d).x.p.errno == HeaderOverflow
  {
    hide Rest, ScanByte, Touches;
    var i := MAX_HEADER;
    while i < |d| && !LineEnd(d[i])
      invariant MAX_HEADER <= i <= |d| && NoLineEnd(d[..i])
    {
      i := i + 1;
    }
    GeneralRun(hc, x, d[..i]);
    RestRun(hc, x, d[..i], d[i..]);
    assert d == d[..i] + d[i..];
    var y := ScanRun(hc, x, d[..i]).x;
    if i < |d| {
      ValueEnd(hc, y, d[i..]);
    } else {
      SliceEnd(hc, y);
    }
  }

  // ---------- bodies ----------

  predicate Counted(p: Parser) {
    p.state == OnBody(BodyIdentity) || (p.state == OnBody(ChunkData) && p.flags.chunked)
  }

  /** Part of a body of known length, not up to its end. */
  lemma {:induction false} BodyRun(hc: HeadersCallback, p: Parser, nread: nat, d: seq<byte>)
    requires p.errno.Ok? && Counted(p) && |d| < p.contentLength < ULLONG_MAX
    ensures ScanRun(hc, Start(p, nread), d)
         == Outcome(Start(p.(contentLength := p.contentLength - |d|), nread), Touches(Body, d), |d|, false)
    decreases |d|
  {
    if d != [] {
      assert Meanings([Touch(Body)], d[0]) == [Data(Body, [d[0]])];
      var q := p.(contentLength := p.contentLength - 1);
      BodyRun(hc, q, nread, d[1..]);
      BodyOne(hc, p, nread, d[0]);
      hide ScanByte;
    }
  }

  lemma BodyOne(hc: HeadersCallback, p: Parser, nread: nat, ch: byte)
    requires p.errno.Ok? && Counted(p) && 1 < p.contentLength < ULLONG_MAX
    ensures ScanByte(hc, Start(p, nread), ch)
         == Outcome(Start(p.(contentLength := p.contentLength - 1), nread), [Data(Body, [ch])], 1, false)
  {
    assert Meanings([Touch(Body)], ch) == [Data(Body, [ch])];
  }

  /** The last byte of a chunk's data. */
  lemma ChunkLast(hc: HeadersCallback, p: Parser, nread: nat, ch: byte)
    requires p.errno.Ok? && p.state == OnBody(ChunkData) && p.flags.chunked && p.contentLength == 1
    ensures ScanByte(hc, Start(p, nread), ch)
         == Outcome(Start(p.(contentLength := 0, state := OnBody(ChunkDataAlmostDone)), nread), [Data(Body, [ch])], 1, false)
  {
    assert Meanings([Touch(Body)], ch) == [Data(Body, [ch])];
  }

  /** The last byte of a body of known length completes the message. */
  lemma BodyLast(hc: HeadersCallback, p: Parser, nread: nat, ch: byte)
    requires p.errno.Ok? && p.state == OnBody(BodyIdentity) && p.contentLength == 1
    ensures var q := p.(contentLength := 0);
      ScanByte(hc, Start(p, nread), ch)
         == Outcome(Start(q.(state := NewMessage(q)), nread), [Data(Body, [ch]), Notify(MessageComplete)], 1, p.upgrade)
  {
    hide RequestByte, ResponseByte, UrlByte, HeaderByte, ChunkSizeByte, StartRequest, NewMessage;
    MeaningsAppend([Touch(Body), Close(Body)], [Call(MessageComplete)], ch);
    assert Meanings([Close(Body)], ch) == [];
    assert [Touch(Body), Close(Body)][1..] == [Close(Body)];
    assert Meanings([Touch(Body), Close(Body)], ch) == [Data(Body, [ch])];
    assert Meanings([Call(MessageComplete)], ch) == [Notify(MessageComplete)];
    NewMessageSame(p.(contentLength := 0), MessageDone);
  }

  lemma NewMessageSame(p: Parser, s: State)
    ensures NewMessage(p.(state := s)) == NewMessage(p)
  {
  }

  /** A body read until the connection closes. */
  lemma {:induction false} EofRun(hc: HeadersCallback, p: Parser, nread: nat, d: seq<byte>)
    requires p.errno.Ok? && p.state == OnBody(BodyIdentityEof)
    ensures ScanRun(hc, Start(p, nread), d) == Outcome(Start(p, nread), Touches(Body, d), |d|, false)
    decreases |d|
  {
    if d != [] {
      assert Meanings([Touch(Body)], d[0]) == [Data(Body, [d[0]])];
      EofRun(hc, p, nread, d[1..]);
    }
  }
}
