/** Header values: plain text, and the one transfer coding the parser knows. */
module HttpValues {
  import opened HttpTypes
  import opened HttpStep
  import opened HttpEvents
  import opened HttpSlicing
  import opened HttpLoops
  import opened HttpChunked

  // ---------- values the parser does not interpret ----------

  /** The header names after which a value is not interpreted. */
  predicate Ordinary(hs: HeaderState) {
    !hs.HConnection? && !hs.HContentLength? && !hs.HTransferEncoding? && !hs.HUpgrade?
    && !hs.MatchingConnectionTokenStart?
  }

  predicate HeaderText(d: seq<byte>) { forall i | 0 <= i < |d| :: IsHeaderChar(d[i]) }

  lemma HeaderTextTail(d: seq<byte>)
    requires d != []
    ensures HeaderText(d) <==> IsHeaderChar(d[0]) && HeaderText(d[1..])
  {
    assert forall i | 0 < i < |d| :: d[i] == d[1..][i - 1];
  }

  lemma PlainByte(hc: HeadersCallback, p: Parser, n: nat, max: int, ch: byte)
    requires p.errno.Ok? && p.state == VALUE && p.hs.General? && !LineEnd(ch) && n + 1 <= max
    ensures var e := ExactByte(hc, p, n, max, ch);
      if p.lenient || IsHeaderChar(ch) then e == Exact(p, n + 1, [Data(Value, [ch])], false) else !e.Good()
  {
    assert Meanings([Touch(Value)], ch) == [Data(Value, [ch])];
  }

  lemma {:induction false} PlainRun(hc: HeadersCallback, p: Parser, n: nat, max: int, d: seq<byte>)
    requires p.errno.Ok? && p.state == VALUE && p.hs.General? && NoLineEnd(d) && n + |d| <= max
    ensures var e := ExactRun(hc, p, n, max, d);
      if p.lenient || HeaderText(d) then e == Exact(p, n + |d|, Touches(Value, d), false) else !e.Good()
    decreases |d|
  {
    hide ExactByte, ExactRun, IsHeaderChar;
    if d == [] {
      ExactNone(hc, p, n, max);
    } else {
      HeaderTextTail(d);
      hide HeaderText;
      PlainByte(hc, p, n, max, d[0]);
      ExactStep(hc, p, n, max, d);
      if p.lenient || IsHeaderChar(d[0]) {
        PlainRun(hc, p, n + 1, max, d[1..]);
      }
    }
  }

  lemma PlainFirst(hc: HeadersCallback, p: Parser, n: nat, max: int, ch: byte)
    requires p.errno.Ok? && p.state == OnHeader(HeaderValueDiscardWs) && Ordinary(p.hs)
    requires !LineEnd(ch) && ch != SP && ch != HTAB && n + 1 <= max
    ensures ExactByte(hc, p, n, max, ch)
         == Exact(p.(state := VALUE, index := 0, hs := General), n + 1, [Data(Value, [ch])], false)
  {
    hide RequestByte, ResponseByte, UrlByte, BodyByte, ChunkSizeByte, StartRequest;
    assert Meanings([Touch(Value)], ch) == [Data(Value, [ch])];
  }

  /** The exact reading of a value the parser does not interpret demands header characters only,
      its first byte excepted, which is never checked. */
  lemma PlainValueRead(hc: HeadersCallback, p: Parser, n: nat, max: int, v: seq<byte>)
    requires p.errno.Ok? && p.state == OnHeader(HeaderValueDiscardWs) && Ordinary(p.hs) && !p.lenient
    requires v != [] && NoLineEnd(v) && v[0] != SP && v[0] != HTAB && n + |v| <= max
    ensures ExactRun(hc, p, n, max, v).Good() <==> HeaderText(v[1..])
    ensures HeaderText(v[1..]) ==>
      ExactRun(hc, p, n, max, v)
      == Exact(p.(state := VALUE, index := 0, hs := General), n + |v|, Touches(Value, v), false)
  {
    PlainFirst(hc, p, n, max, v[0]);
    ExactStep(hc, p, n, max, v);
    hide ExactByte, ExactRun, HeaderText;
    PlainRun(hc, p.(state := VALUE, index := 0, hs := General), n + 1, max, v[1..]);
  }

  // ---------- Upgrade ----------

  lemma UpgradeFirst(hc: HeadersCallback, p: Parser, n: nat, max: int, ch: byte)
    requires p.errno.Ok? && p.state == OnHeader(HeaderValueDiscardWs) && p.hs.HUpgrade?
    requires !LineEnd(ch) && ch != SP && ch != HTAB && n + 1 <= max
    ensures ExactByte(hc, p, n, max, ch)
         == Exact(p.(state := VALUE, index := 0, hs := General, flags := p.flags.(upgrade := true)), n + 1,
            [Data(Value, [ch])], false)
  {
    hide RequestByte, ResponseByte, UrlByte, BodyByte, ChunkSizeByte, StartRequest;
    assert Meanings([Touch(Value)], ch) == [Data(Value, [ch])];
  }

  /** An Upgrade header is noted whatever its value says, which is read like any other. */
  lemma UpgradeValueRead(hc: HeadersCallback, p: Parser, n: nat, max: int, v: seq<byte>)
    requires p.errno.Ok? && p.state == OnHeader(HeaderValueDiscardWs) && p.hs.HUpgrade? && !p.lenient
    requires v != [] && NoLineEnd(v) && v[0] != SP && v[0] != HTAB && n + |v| <= max && HeaderText(v[1..])
    ensures ExactRun(hc, p, n, max, v)
         == Exact(p.(state := VALUE, index := 0, hs := General, flags := p.flags.(upgrade := true)), n + |v|,
            Touches(Value, v), false)
  {
    UpgradeFirst(hc, p, n, max, v[0]);
    ExactStep(hc, p, n, max, v);
    hide ExactByte, ExactRun, HeaderText;
    PlainRun(hc, p.(state := VALUE, index := 0, hs := General, flags := p.flags.(upgrade := true)), n + 1, max, v[1..]);
  }

  // ---------- Transfer-Encoding ----------

  const CHUNKED := "chunked"

  /** `v`, in any mixture of cases, is the beginning of `word`, or all of it and then spaces. */
  predicate SpellsOut(v: seq<byte>, word: string) {
    forall i | 0 <= i < |v| :: if i < |word| then Lower(v[i]) as int == word[i] as int else v[i] == SP
  }

  predicate SaysChunked(v: seq<byte>) { |v| >= |CHUNKED| && SpellsOut(v, CHUNKED) }

  /** Inside the value of Transfer-Encoding, of which `v` has been read. */
  predicate InCoding(p: Parser, v: seq<byte>) {
    p.errno.Ok? && p.state == VALUE && v != []
    && match p.hs
       case MatchingTransferEncodingChunked => |v| == p.index + 1 < |CHUNKED| && SpellsOut(v, CHUNKED)
       case TransferEncodingChunked => SaysChunked(v)
       case General => !SpellsOut(v, CHUNKED)
       case _ => false
  }

  lemma SpellsOutMore(v: seq<byte>, ch: byte, word: string)
    ensures SpellsOut(v + [ch], word)
      <==> SpellsOut(v, word) && if |v| < |word| then Lower(ch) as int == word[|v|] as int else ch == SP
  {
    hide Lower;
    var u := v + [ch];
    assert u[|v|] == ch;
    assert forall i | 0 <= i < |v| :: u[i] == v[i];
  }

  lemma CodingChar(p: Parser, v: seq<byte>, ch: byte)
    requires InCoding(p, v)
    ensures var q := ValueChar(p, ch); q == p.(hs := q.hs, index := q.index) && InCoding(q, v + [ch])
  {
    SpellsOutMore(v, ch, CHUNKED);
    hide Lower, SpellsOut;
  }

  lemma CodingByte(hc: HeadersCallback, p: Parser, n: nat, max: int, v: seq<byte>, ch: byte)
    requires InCoding(p, v) && !LineEnd(ch) && n + 1 <= max
    ensures var e := ExactByte(hc, p, n, max, ch);
      if p.lenient || IsHeaderChar(ch) then
        e == Exact(p.(hs := e.p.hs, index := e.p.index), n + 1, [Data(Value, [ch])], false) && InCoding(e.p, v + [ch])
      else !e.Good()
  {
    CodingChar(p, v, ch);
    hide ValueChar, SpellsOut, SaysChunked;
    assert Meanings([Touch(Value)], ch) == [Data(Value, [ch])];
  }

  /** `e`: the bytes `d` of a value were read, leaving off at `v`. */
  predicate CodingRead(e: Exact, p: Parser, n: nat, d: seq<byte>, v: seq<byte>) {
    e == Exact(p.(hs := e.p.hs, index := e.p.index), n + |d|, Touches(Value, d), false) && InCoding(e.p, v)
  }

  lemma {:induction false} CodingRun(hc: HeadersCallback, p: Parser, n: nat, max: int, v: seq<byte>, d: seq<byte>)
    requires InCoding(p, v) && NoLineEnd(d) && n + |d| <= max
    ensures var e := ExactRun(hc, p, n, max, d);
      if p.lenient || HeaderText(d) then CodingRead(e, p, n, d, v + d) else !e.Good()
    decreases |d|
  {
    hide ExactByte, ExactRun, IsHeaderChar, SpellsOut, SaysChunked;
    if d == [] {
      assert v + d == v;
      ExactNone(hc, p, n, max);
    } else {
      HeaderTextTail(d);
      hide HeaderText;
      CodingByte(hc, p, n, max, v, d[0]);
      ExactStep(hc, p, n, max, d);
      if p.lenient || IsHeaderChar(d[0]) {
        CodingRun(hc, ExactByte(hc, p, n, max, d[0]).p, n + 1, max, v + [d[0]], d[1..]);
        assert v + [d[0]] + d[1..] == v + d;
      }
    }
  }

  lemma CodingStart(p: Parser, ch: byte)
    requires p.errno.Ok? && p.hs.HTransferEncoding?
    ensures var s := ValueStart(p, ch);
      s == With(p.(state := VALUE, index := 0, hs := s.p.hs), [Touch(Value)]) && InCoding(s.p, [ch])
  {
    SpellsOutMore([], ch, CHUNKED);
    assert [] + [ch] == [ch];
    hide Lower;
  }

  lemma CodingFirst(hc: HeadersCallback, p: Parser, n: nat, max: int, ch: byte)
    requires p.errno.Ok? && p.state == OnHeader(HeaderValueDiscardWs) && p.hs.HTransferEncoding?
    requires !LineEnd(ch) && ch != SP && ch != HTAB && n + 1 <= max
    ensures var e := ExactByte(hc, p, n, max, ch);
      e == Exact(p.(state := VALUE, index := 0, hs := e.p.hs), n + 1, [Data(Value, [ch])], false) && InCoding(e.p, [ch])
  {
    assert Meanings([Touch(Value)], ch) == [Data(Value, [ch])];
    CodingStart(p, ch);
    hide ValueStart, InCoding, RequestByte, ResponseByte, UrlByte, BodyByte, ChunkSizeByte, StartRequest;
  }

  /** The flags due when the value ends. */
  lemma CodingFlags(p: Parser, v: seq<byte>)
    requires InCoding(p, v)
    ensures ValueFlags(p) == (if SaysChunked(v) then p.flags.(chunked := true) else p.flags) && Ordinary(p.hs)
  {
    hide SpellsOut;
  }

  /** The value of Transfer-Encoding announces a chunked body exactly if it is "chunked", in any
      mixture of cases, followed by nothing but spaces. */
  lemma ChunkedValueIff(hc: HeadersCallback, p: Parser, n: nat, max: int, v: seq<byte>)
    requires p.errno.Ok? && p.state == OnHeader(HeaderValueDiscardWs) && p.hs.HTransferEncoding? && !p.lenient
    requires v != [] && NoLineEnd(v) && v[0] != SP && v[0] != HTAB && n + |v| <= max && HeaderText(v[1..])
    ensures var e := ExactRun(hc, p, n, max, v);
      e == Exact(p.(state := VALUE, index := e.p.index, hs := e.p.hs), n + |v|, Touches(Value, v), false)
      && ValueFlags(e.p) == (if SaysChunked(v) then p.flags.(chunked := true) else p.flags) && Ordinary(e.p.hs)
  {
    hide ExactByte, ExactRun, HeaderText, SpellsOut, SaysChunked, InCoding, ValueFlags;
    CodingFirst(hc, p, n, max, v[0]);
    ExactStep(hc, p, n, max, v);
    var q := ExactByte(hc, p, n, max, v[0]).p;
    CodingRun(hc, q, n + 1, max, [v[0]], v[1..]);
    assert [v[0]] + v[1..] == v;
    CodingFlags(ExactRun(hc, q, n + 1, max, v[1..]).p, v);
  }
}
