/** Lengths and chunked bodies: the numbers the parser reads, and the chunked coding of
    section 4.1 of RFC 7230 decoded. */
module HttpChunked {
  import opened HttpTypes
  import opened HttpStep
  import opened HttpEvents
  import opened HttpScan
  import opened HttpSlicing
  import opened HttpLoops

  /** The largest lengths the conservative overflow tests let through. */
  const CHUNK_LIMIT: nat := 0xFFFF_FFFF_FFFF_FFEF
  const LENGTH_LIMIT: nat := 18446744073709551609

  // ---------- numbers ----------

  predicate HexDigits(d: seq<byte>) { forall i | 0 <= i < |d| :: Unhex(d[i]) != -1 }

  /** The number a string of hexadecimal digits writes, by position. */
  function Hex(d: seq<byte>): (v: nat)
    requires HexDigits(d)
  {
    if d == [] then 0 else Hex(d[..|d| - 1]) * 16 + Unhex(d[|d| - 1])
  }

  /** The digits of `d` read one by one after `v`. */
  function HexFrom(v: nat, d: seq<byte>): nat
    requires HexDigits(d)
    decreases |d|
  {
    if d == [] then v else HexFrom(v * 16 + Unhex(d[0]), d[1..])
  }

  lemma {:induction false} HexFromGrows(v: nat, d: seq<byte>)
    requires HexDigits(d)
    ensures HexFrom(v, d) >= v
    decreases |d|
  {
    if d != [] {
      HexFromGrows(v * 16 + Unhex(d[0]), d[1..]);
    }
  }

  lemma {:induction false} HexFromLast(v: nat, d: seq<byte>, ch: byte)
    requires HexDigits(d) && Unhex(ch) != -1
    ensures HexFrom(v, d + [ch]) == HexFrom(v, d) * 16 + Unhex(ch)
    decreases |d|
  {
    if d == [] {
      assert (d + [ch])[1..] == [];
    } else {
      assert (d + [ch])[1..] == d[1..] + [ch];
      HexFromLast(v * 16 + Unhex(d[0]), d[1..], ch);
    }
  }

  lemma {:induction false} HexFromIsHex(d: seq<byte>)
    requires HexDigits(d)
    ensures HexFrom(0, d) == Hex(d)
    decreases |d|
  {
    if d != [] {
      HexFromIsHex(d[..|d| - 1]);
      HexFromLast(0, d[..|d| - 1], d[|d| - 1]);
      assert d == d[..|d| - 1] + [d[|d| - 1]];
    }
  }

  /** The number a string of decimal digits writes, spaces apart. */
  function Decimal(d: seq<byte>): (v: nat)
    requires LengthText(d)
  {
    if d == [] then 0
    else if d[|d| - 1] == SP then Decimal(d[..|d| - 1])
    else
      assert IsNum(d[|d| - 1]);
      Decimal(d[..|d| - 1]) * 10 + Digit(d[|d| - 1])
  }

  predicate LengthText(d: seq<byte>) { forall i | 0 <= i < |d| :: IsNum(d[i]) || d[i] == SP }

  function DecimalFrom(v: nat, d: seq<byte>): nat
    requires LengthText(d)
    decreases |d|
  {
    if d == [] then v else DecimalFrom(if d[0] == SP then v else v * 10 + Digit(d[0]), d[1..])
  }

  lemma {:induction false} DecimalFromGrows(v: nat, d: seq<byte>)
    requires LengthText(d)
    ensures DecimalFrom(v, d) >= v
    decreases |d|
  {
    if d != [] {
      DecimalFromGrows(if d[0] == SP then v else v * 10 + Digit(d[0]), d[1..]);
    }
  }

  lemma {:induction false} DecimalFromLast(v: nat, d: seq<byte>, ch: byte)
    requires LengthText(d) && (IsNum(ch) || ch == SP)
    ensures DecimalFrom(v, d + [ch]) == if ch == SP then DecimalFrom(v, d) else DecimalFrom(v, d) * 10 + Digit(ch)
    decreases |d|
  {
    if d == [] {
      assert (d + [ch])[1..] == [];
    } else {
      assert (d + [ch])[1..] == d[1..] + [ch];
      DecimalFromLast(if d[0] == SP then v else v * 10 + Digit(d[0]), d[1..], ch);
    }
  }

  lemma {:induction false} DecimalFromIsDecimal(d: seq<byte>)
    requires LengthText(d)
    ensures DecimalFrom(0, d) == Decimal(d)
    decreases |d|
  {
    if d != [] {
      DecimalFromIsDecimal(d[..|d| - 1]);
      DecimalFromLast(0, d[..|d| - 1], d[|d| - 1]);
      assert d == d[..|d| - 1] + [d[|d| - 1]];
    }
  }

  // ---------- Content-Length ----------

  predicate InLength(p: Parser) {
    p.errno.Ok? && p.state == VALUE && p.hs.HContentLength? && p.contentLength <= LENGTH_LIMIT
  }

  /** One more byte of the value of Content-Length. */
  lemma LengthByte(hc: HeadersCallback, p: Parser, n: nat, max: int, ch: byte)
    requires InLength(p) && !LineEnd(ch) && n + 1 <= max
    ensures var e := ExactByte(hc, p, n, max, ch);
      if ch == SP then e == Exact(p, n + 1, [Data(Value, [ch])], false)
      else if IsNum(ch) && p.contentLength * 10 + Digit(ch) <= LENGTH_LIMIT then
        e == Exact(p.(contentLength := p.contentLength * 10 + Digit(ch)), n + 1, [Data(Value, [ch])], false)
      else !e.Good()
  {
    assert Meanings([Touch(Value)], ch) == [Data(Value, [ch])];
  }

  lemma {:induction false} LengthRun(hc: HeadersCallback, p: Parser, n: nat, max: int, d: seq<byte>)
    requires InLength(p) && NoLineEnd(d) && n + |d| <= max
    ensures var e := ExactRun(hc, p, n, max, d);
      e.Good() <==> LengthText(d) && DecimalFrom(p.contentLength, d) <= LENGTH_LIMIT
    ensures var e := ExactRun(hc, p, n, max, d);
      e.Good() ==> e == Exact(p.(contentLength := DecimalFrom(p.contentLength, d)), n + |d|, Touches(Value, d), false)
    decreases |d|
  {
    hide ExactByte;
    if d != [] {
      LengthByte(hc, p, n, max, d[0]);
      var v := p.contentLength;
      var w := if d[0] == SP then v else v * 10 + (if IsNum(d[0]) then Digit(d[0]) else 0);
      if d[0] == SP || (IsNum(d[0]) && w <= LENGTH_LIMIT) {
        LengthRun(hc, p.(contentLength := w), n + 1, max, d[1..]);
        assert LengthText(d[1..]) <==> LengthText(d) by {
          assert forall i | 0 <= i < |d[1..]| :: d[1..][i] == d[i + 1];
          assert forall i | 0 < i < |d| :: d[i] == d[1..][i - 1];
        }
      } else if LengthText(d) {
        DecimalFromGrows(w, d[1..]);
      }
    }
  }

  /** Exactly when the value of a Content-Length header is accepted, and what length it sets: its
      decimal value with spaces skipped, which never reaches the value that means "no length". */
  lemma LengthAcceptedIff(hc: HeadersCallback, p: Parser, n: nat, max: int, d: seq<byte>)
    requires p.errno.Ok? && p.state == OnHeader(HeaderValueDiscardWs) && p.hs.HContentLength? && !p.flags.contentLength
    requires d != [] && NoLineEnd(d) && d[0] != SP && d[0] != HTAB && n + |d| <= max
    ensures ExactRun(hc, p, n, max, d).Good() <==> LengthText(d) && Decimal(d) <= LENGTH_LIMIT
    ensures ExactRun(hc, p, n, max, d).Good() ==>
      IsNum(d[0]) && Decimal(d) < ULLONG_MAX
      && ExactRun(hc, p, n, max, d)
         == Exact(Lengthy(p, d[0]).(contentLength := Decimal(d)), n + |d|, Touches(Value, d), false)
  {
    hide ExactByte;
    LengthStart(hc, p, n, max, d[0]);
    if IsNum(d[0]) {
      LengthRun(hc, Lengthy(p, d[0]), n + 1, max, d[1..]);
      assert LengthText(d[1..]) <==> LengthText(d) by {
        assert forall i | 0 <= i < |d[1..]| :: d[1..][i] == d[i + 1];
        assert forall i | 0 < i < |d| :: d[i] == d[1..][i - 1];
      }
      if LengthText(d) {
        DecimalFromIsDecimal(d);
      }
    }
  }

  /** The parser after the first digit of a length. */
  function Lengthy(p: Parser, ch: byte): Parser {
    p.(state := VALUE, index := 0, flags := p.flags.(contentLength := true), contentLength := if IsNum(ch) then Digit(ch) else 0)
  }

  lemma LengthStart(hc: HeadersCallback, p: Parser, n: nat, max: int, ch: byte)
    requires p.errno.Ok? && p.state == OnHeader(HeaderValueDiscardWs) && p.hs.HContentLength? && !p.flags.contentLength
    requires !LineEnd(ch) && ch != SP && ch != HTAB && n + 1 <= max
    ensures var e := ExactByte(hc, p, n, max, ch);
      if IsNum(ch) then e == Exact(Lengthy(p, ch), n + 1, [Data(Value, [ch])], false) else !e.Good()
  {
    assert Meanings([Touch(Value)], ch) == [Data(Value, [ch])];
  }

  // ---------- the size of a chunk ----------

  predicate InSize(p: Parser) {
    p.errno.Ok? && p.flags.chunked && p.state == OnChunkSize(ChunkSize) && p.contentLength <= CHUNK_LIMIT
  }

  lemma SizeByte(hc: HeadersCallback, p: Parser, n: nat, max: int, ch: byte)
    requires InSize(p) && Unhex(ch) != -1 && n + 1 <= max
    ensures var e := ExactByte(hc, p, n, max, ch);
      var v := p.contentLength * 16 + Unhex(ch);
      if v <= CHUNK_LIMIT then e == Exact(p.(contentLength := v), n + 1, [], false)
      else e.p.errno == InvalidContentLength
  {
    assert Meanings([], ch) == [];
  }

  lemma {:induction false} SizeRun(hc: HeadersCallback, p: Parser, n: nat, max: int, d: seq<byte>)
    requires InSize(p) && HexDigits(d) && n + |d| <= max
    ensures var e := ExactRun(hc, p, n, max, d);
      var v := HexFrom(p.contentLength, d);
      if v <= CHUNK_LIMIT then e == Exact(p.(contentLength := v), n + |d|, [], false)
      else e.p.errno == InvalidContentLength
    decreases |d|
  {
    hide ExactByte;
    if d != [] {
      SizeByte(hc, p, n, max, d[0]);
      var v := p.contentLength * 16 + Unhex(d[0]);
      if v <= CHUNK_LIMIT {
        SizeRun(hc, p.(contentLength := v), n + 1, max, d[1..]);
      } else {
        HexFromGrows(v, d[1..]);
      }
    }
  }

  /** The parser before the first byte of a chunk. */
  predicate AtChunk(p: Parser) {
    p.errno.Ok? && p.flags.chunked && p.state == OnChunkSize(ChunkSizeStart)
  }

  /** A chunk size is accepted exactly up to the limit, and the length is its hexadecimal value. */
  lemma SizeAcceptedIff(hc: HeadersCallback, p: Parser, max: int, d: seq<byte>)
    requires AtChunk(p) && d != [] && HexDigits(d) && |d| <= max
    ensures var e := ExactRun(hc, p, 0, max, d);
      if Hex(d) <= CHUNK_LIMIT then
        e == Exact(p.(contentLength := Hex(d), state := OnChunkSize(ChunkSize)), |d|, [], false)
      else e.p.errno == InvalidContentLength
  {
    assert Meanings([], d[0]) == [];
    var q := p.(contentLength := Unhex(d[0]), state := OnChunkSize(ChunkSize));
    assert ExactByte(hc, p, 0, max, d[0]) == Exact(q, 1, [], false);
    hide ExactByte;
    SizeRun(hc, q, 1, max, d[1..]);
    HexFromIsHex(d);
  }

  // ---------- chunks ----------

  /** A chunk: its size as written, what follows the size on its line, its data. */
  datatype Chunk = Chunk(size: seq<byte>, ext: seq<byte>, data: seq<byte>)

  const CRLF: seq<byte> := [CR, LF]

  predicate ExtText(ext: seq<byte>) {
    ext == [] || ((ext[0] == ';' as int || ext[0] == SP) && forall i | 0 <= i < |ext| :: ext[i] != CR)
  }

  /** The size line says how long the data is. */
  predicate WellFormed(c: Chunk) {
    c.size != [] && HexDigits(c.size) && ExtText(c.ext) && Hex(c.size) == |c.data| <= CHUNK_LIMIT
  }

  function SizeLine(c: Chunk): seq<byte> { c.size + c.ext + CRLF }

  function Encode(c: Chunk): seq<byte> { SizeLine(c) + c.data + CRLF }

  function EncodeAll(cs: seq<Chunk>): seq<byte> {
    if cs == [] then [] else Encode(cs[0]) + EncodeAll(cs[1..])
  }

  predicate AllData(cs: seq<Chunk>, max: int) {
    forall i | 0 <= i < |cs| :: WellFormed(cs[i]) && cs[i].data != [] && |SizeLine(cs[i])| <= max
  }

  predicate LastChunk(c: Chunk, max: int) { WellFormed(c) && c.data == [] && |SizeLine(c)| <= max && 2 <= max }

  function ChunkEvents(c: Chunk): seq<Event> {
    [Notify(ChunkHeader)] + Touches(Body, c.data) + [Notify(ChunkComplete)]
  }

  function AllEvents(cs: seq<Chunk>): seq<Event> {
    if cs == [] then [] else ChunkEvents(cs[0]) + AllEvents(cs[1..])
  }

  lemma ExtByte(hc: HeadersCallback, p: Parser, n: nat, max: int, ch: byte)
    requires p.errno.Ok? && p.flags.chunked && n + 1 <= max && ch != CR
    requires p.state == OnChunkSize(ChunkParameters) || (p.state == OnChunkSize(ChunkSize) && (ch == ';' as int || ch == SP))
    ensures ExactByte(hc, p, n, max, ch) == Exact(p.(state := OnChunkSize(ChunkParameters)), n + 1, [], false)
  {
    assert Meanings([], ch) == [];
  }

  lemma {:induction false} ExtRun(hc: HeadersCallback, p: Parser, n: nat, max: int, ext: seq<byte>)
    requires p.errno.Ok? && p.flags.chunked && n + |ext| <= max && forall i | 0 <= i < |ext| :: ext[i] != CR
    requires p.state == OnChunkSize(ChunkParameters) || (p.state == OnChunkSize(ChunkSize) && ExtText(ext))
    ensures ExactRun(hc, p, n, max, ext)
         == Exact(if ext == [] then p else p.(state := OnChunkSize(ChunkParameters)), n + |ext|, [], false)
    decreases |ext|
  {
    hide ExactByte;
    if ext != [] {
      ExtByte(hc, p, n, max, ext[0]);
      ExtRun(hc, p.(state := OnChunkSize(ChunkParameters)), n + 1, max, ext[1..]);
    }
  }

  /** The parser after the size line of a chunk of length `v`. */
  function Sized(p: Parser, v: nat): Parser {
    if v == 0 then p.(contentLength := 0, flags := p.flags.(trailing := true), state := OnHeader(HeaderFieldStart))
    else p.(contentLength := v, state := OnBody(ChunkData))
  }

  lemma LineEndRun(hc: HeadersCallback, p: Parser, n: nat, max: int)
    requires p.errno.Ok? && p.flags.chunked && n + 2 <= max
    requires p.state == OnChunkSize(ChunkParameters) || p.state == OnChunkSize(ChunkSize)
    ensures ExactRun(hc, p, n, max, CRLF) == Exact(Sized(p, p.contentLength), 0, [Notify(ChunkHeader)], false)
  {
    var q := p.(state := OnChunkSize(ChunkSizeAlmostDone));
    assert Meanings([], CR) == [];
    assert ExactByte(hc, p, n, max, CR) == Exact(q, n + 1, [], false);
    assert Meanings([Call(ChunkHeader)], LF) == [Notify(ChunkHeader)];
    assert ExactByte(hc, q, n + 1, max, LF) == Exact(Sized(p, p.contentLength), 0, [Notify(ChunkHeader)], false);
    hide ExactByte;
    assert CRLF[1..] == [LF];
    RunOne(hc, q, n + 1, max, LF);
  }

  lemma RunOne(hc: HeadersCallback, p: Parser, n: nat, max: int, ch: byte)
    requires p.errno.Ok?
    ensures ExactRun(hc, p, n, max, [ch]) == ExactByte(hc, p, n, max, ch)
  {
    hide ExactByte;
    assert [ch][1..] == [];
    var one := ExactByte(hc, p, n, max, ch);
    assert one.out + [] == one.out;
  }

  lemma SizeLineRun(hc: HeadersCallback, p: Parser, max: int, c: Chunk)
    requires AtChunk(p) && WellFormed(c) && |SizeLine(c)| <= max
    ensures ExactRun(hc, p, 0, max, SizeLine(c)) == Exact(Sized(p, |c.data|), 0, [Notify(ChunkHeader)], false)
  {
    hide ExactByte, ExactRun;
    SizeAcceptedIff(hc, p, max, c.size);
    var q := p.(contentLength := |c.data|, state := OnChunkSize(ChunkSize));
    ExtRun(hc, q, |c.size|, max, c.ext);
    ExactRunAppend(hc, p, 0, max, c.size, c.ext);
    var r := if c.ext == [] then q else q.(state := OnChunkSize(ChunkParameters));
    LineEndRun(hc, r, |c.size| + |c.ext|, max);
    ExactRunAppend(hc, p, 0, max, c.size + c.ext, CRLF);
    assert Sized(r, |c.data|) == Sized(p, |c.data|);
  }

  lemma DataByte(hc: HeadersCallback, p: Parser, max: int, ch: byte)
    requires p.errno.Ok? && p.flags.chunked && p.state == OnBody(ChunkData) && 0 < p.contentLength <= CHUNK_LIMIT && 0 <= max
    ensures var q := p.(contentLength := p.contentLength - 1);
      ExactByte(hc, p, 0, max, ch)
         == Exact(if q.contentLength == 0 then q.(state := OnBody(ChunkDataAlmostDone)) else q, 0, [Data(Body, [ch])], false)
  {
    assert Meanings([Touch(Body)], ch) == [Data(Body, [ch])];
  }

  lemma {:induction false} DataRun(hc: HeadersCallback, p: Parser, max: int, d: seq<byte>)
    requires p.errno.Ok? && p.flags.chunked && p.state == OnBody(ChunkData) && 0 < p.contentLength == |d| <= CHUNK_LIMIT
      && 0 <= max
    ensures ExactRun(hc, p, 0, max, d)
         == Exact(p.(contentLength := 0, state := OnBody(ChunkDataAlmostDone)), 0, Touches(Body, d), false)
    decreases |d|
  {
    hide ExactByte;
    DataByte(hc, p, max, d[0]);
    var q := p.(contentLength := p.contentLength - 1);
    if |d| > 1 {
      DataRun(hc, q, max, d[1..]);
    } else {
      assert d[1..] == [];
    }
  }

  lemma DataEndRun(hc: HeadersCallback, p: Parser, max: int)
    requires p.errno.Ok? && p.flags.chunked && p.state == OnBody(ChunkDataAlmostDone) && p.contentLength == 0 && 0 <= max
    ensures ExactRun(hc, p, 0, max, CRLF) == Exact(p.(state := OnChunkSize(ChunkSizeStart)), 0, [Notify(ChunkComplete)], false)
  {
    var q := p.(state := OnBody(ChunkDataDone));
    assert Meanings([Close(Body)], CR) == [];
    assert ExactByte(hc, p, 0, max, CR) == Exact(q, 0, [], false);
    assert Meanings([Call(ChunkComplete)], LF) == [Notify(ChunkComplete)];
    assert ExactByte(hc, q, 0, max, LF) == Exact(p.(state := OnChunkSize(ChunkSizeStart)), 0, [Notify(ChunkComplete)], false);
    hide ExactByte;
    assert CRLF[1..] == [LF];
    RunOne(hc, q, 0, max, LF);
  }

  /** One chunk with data. */
  lemma ChunkRun(hc: HeadersCallback, p: Parser, max: int, c: Chunk)
    requires AtChunk(p) && WellFormed(c) && c.data != [] && |SizeLine(c)| <= max
    ensures ExactRun(hc, p, 0, max, Encode(c)) == Exact(p.(contentLength := 0), 0, ChunkEvents(c), false)
  {
    hide ExactByte, ExactRun;
    SizeLineRun(hc, p, max, c);
    var q := Sized(p, |c.data|);
    DataRun(hc, q, max, c.data);
    ExactRunAppend(hc, p, 0, max, SizeLine(c), c.data);
    var r := q.(contentLength := 0, state := OnBody(ChunkDataAlmostDone));
    DataEndRun(hc, r, max);
    ExactRunAppend(hc, p, 0, max, SizeLine(c) + c.data, CRLF);
    assert r.(state := OnChunkSize(ChunkSizeStart)) == p.(contentLength := 0);
  }

  lemma {:induction false} ChunksRun(hc: HeadersCallback, p: Parser, max: int, cs: seq<Chunk>)
    requires AtChunk(p) && AllData(cs, max)
    ensures ExactRun(hc, p, 0, max, EncodeAll(cs))
         == Exact(if cs == [] then p else p.(contentLength := 0), 0, AllEvents(cs), false)
    decreases |cs|
  {
    hide ExactByte, Encode, ChunkEvents;
    if cs != [] {
      ChunkRun(hc, p, max, cs[0]);
      var q := p.(contentLength := 0);
      assert forall i | 0 <= i < |cs[1..]| :: cs[1..][i] == cs[i + 1];
      ChunksRun(hc, q, max, cs[1..]);
      ExactRunAppend(hc, p, 0, max, Encode(cs[0]), EncodeAll(cs[1..]));
    }
  }

  /** A chunked body up to the CR of its last line. */
  function BeforeLastByte(cs: seq<Chunk>, last: Chunk): seq<byte> { EncodeAll(cs) + SizeLine(last) + [CR] }

  /** Up to there, every byte of every chunk has been reported, and the message is not complete. */
  lemma ChunkedBeforeEnd(hc: HeadersCallback, p: Parser, max: int, cs: seq<Chunk>, last: Chunk)
    requires AtChunk(p) && AllData(cs, max) && LastChunk(last, max)
    ensures ExactRun(hc, p, 0, max, BeforeLastByte(cs, last))
         == Exact(Sized(p, 0).(state := OnHeader(HeadersAlmostDone)), 1, AllEvents(cs) + [Notify(ChunkHeader)], false)
  {
    hide ExactRun, AllEvents, EncodeAll;
    ChunksRun(hc, p, max, cs);
    var q := if cs == [] then p else p.(contentLength := 0);
    SizeLineRun(hc, q, max, last);
    ExactRunAppend(hc, p, 0, max, EncodeAll(cs), SizeLine(last));
    var r := Sized(p, 0);
    assert Sized(q, 0) == r;
    assert Meanings([], CR) == [];
    assert ExactByte(hc, r, 0, max, CR) == Exact(r.(state := OnHeader(HeadersAlmostDone)), 1, [], false);
    hide ExactByte;
    RunOne(hc, r, 0, max, CR);
    ExactRunAppend(hc, p, 0, max, EncodeAll(cs) + SizeLine(last), [CR]);
    assert AllEvents(cs) + [Notify(ChunkHeader)] + [] == AllEvents(cs) + [Notify(ChunkHeader)];
  }

  lemma MeaningsTwo(ch: byte)
    ensures Meanings([Call(ChunkComplete)] + [Call(MessageComplete)], ch) == [Notify(ChunkComplete), Notify(MessageComplete)]
  {
    MeaningsAppend([Call(ChunkComplete)], [Call(MessageComplete)], ch);
    assert [Call(ChunkComplete)][1..] == [] && [Call(MessageComplete)][1..] == [];
    assert Meanings([Call(ChunkComplete)], ch) == [Notify(ChunkComplete)];
    assert Meanings([Call(MessageComplete)], ch) == [Notify(MessageComplete)];
  }

  lemma RunAppend(hc: HeadersCallback, p: Parser, n: nat, max: int, a: seq<byte>, b: seq<byte>)
    requires p.errno.Ok? && ExactRun(hc, p, n, max, a).Good()
    ensures var ea := ExactRun(hc, p, n, max, a);
      var eb := ExactRun(hc, ea.p, ea.n, max, b);
      ExactRun(hc, p, n, max, a + b) == eb.(out := ea.out + eb.out)
  {
    ExactRunAppend(hc, p, n, max, a, b);
  }

  // ---------- what those callbacks say ----------

  /** All data of one kind in a callback sequence. */
  function Collect(k: DataKind, es: seq<Event>): seq<byte> {
    if es == [] then []
    else (if es[0].Data? && es[0].k == k then es[0].bytes else []) + Collect(k, es[1..])
  }

  function Count(n: NotifyKind, es: seq<Event>): nat {
    if es == [] then 0 else (if es[0] == Notify(n) then 1 else 0) + Count(n, es[1..])
  }

  /** The data of the chunks, in order. */
  function Payload(cs: seq<Chunk>): seq<byte> {
    if cs == [] then [] else cs[0].data + Payload(cs[1..])
  }

  lemma {:induction false} CollectAppend(k: DataKind, a: seq<Event>, b: seq<Event>)
    ensures Collect(k, a + b) == Collect(k, a) + Collect(k, b)
  {
    if a == [] {
      assert a + b == b;
    } else {
      assert (a + b)[1..] == a[1..] + b;
      CollectAppend(k, a[1..], b);
    }
  }

  lemma {:induction false} CountAppend(n: NotifyKind, a: seq<Event>, b: seq<Event>)
    ensures Count(n, a + b) == Count(n, a) + Count(n, b)
  {
    if a == [] {
      assert a + b == b;
    } else {
      assert (a + b)[1..] == a[1..] + b;
      CountAppend(n, a[1..], b);
    }
  }

  lemma {:induction false} TouchesSay(k: DataKind, d: seq<byte>)
    ensures Collect(k, Touches(k, d)) == d
    ensures forall n :: Count(n, Touches(k, d)) == 0
  {
    if d != [] {
      TouchesSay(k, d[1..]);
      assert Touches(k, d)[1..] == Touches(k, d[1..]);
    }
  }

  lemma OneSays(n: NotifyKind, k: DataKind, m: NotifyKind)
    ensures Collect(k, [Notify(n)]) == [] && Count(m, [Notify(n)]) == if m == n then 1 else 0
  {
    assert [Notify(n)][1..] == [];
    assert Collect(k, []) == [] && Count(m, []) == 0;
  }

  lemma ChunkSays(c: Chunk, m: NotifyKind)
    ensures Collect(Body, ChunkEvents(c)) == c.data
    ensures Count(m, ChunkEvents(c)) == if m == ChunkHeader || m == ChunkComplete then 1 else 0
  {
    TouchesSay(Body, c.data);
    OneSays(ChunkHeader, Body, m);
    OneSays(ChunkComplete, Body, m);
    var a, b, d := [Notify(ChunkHeader)], Touches(Body, c.data), [Notify(ChunkComplete)];
    CollectAppend(Body, a, b);
    CollectAppend(Body, a + b, d);
    CountAppend(m, a, b);
    CountAppend(m, a + b, d);
  }

  lemma {:induction false} ChunksSay(cs: seq<Chunk>, m: NotifyKind)
    ensures Collect(Body, AllEvents(cs)) == Payload(cs)
    ensures Count(m, AllEvents(cs)) == if m == ChunkHeader || m == ChunkComplete then |cs| else 0
  {
    hide ChunkEvents;
    if cs != [] {
      ChunkSays(cs[0], m);
      ChunksSay(cs[1..], m);
      CollectAppend(Body, ChunkEvents(cs[0]), AllEvents(cs[1..]));
      CountAppend(m, ChunkEvents(cs[0]), AllEvents(cs[1..]));
    }
  }
}
