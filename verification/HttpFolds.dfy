/** Values that go on over several lines: every line is reported by itself, and what a value that is
    interpreted says can be lost where it is broken. */
module HttpFolds {
  import opened HttpTypes
  import opened HttpStep
  import opened HttpEvents
  import opened HttpSlicing
  import opened HttpLoops
  import opened HttpChunked
  import opened HttpValues
  import opened HttpConnection

  predicate Blank(ch: byte) { ch == SP || ch == HTAB }

  /** The callbacks of a value, or of one line of it. */
  function ValueEvents(v: seq<byte>): seq<Event> { Touches(Value, v) + [Data(Value, [])] }

  // ---------- before a value ----------

  /** Blanks, and line ends with blanks after them. */
  predicate Leading(d: seq<byte>)
    decreases |d|
  {
    d == [] || (Blank(d[0]) && Leading(d[1..])) || (|d| > 2 && d[..2] == CRLF && Blank(d[2]) && Leading(d[3..]))
  }

  lemma BlankByte(hc: HeadersCallback, p: Parser, n: nat, max: int, ch: byte)
    requires p.errno.Ok? && Blank(ch) && n + 1 <= max
    requires p.state == OnHeader(HeaderValueDiscardWs) || p.state == OnHeader(HeaderValueDiscardLws)
    ensures ExactByte(hc, p, n, max, ch) == Exact(p.(state := OnHeader(HeaderValueDiscardWs)), n + 1, [], false)
  {
    assert Meanings([], ch) == [];
  }

  /** The end of a line on which no value has begun. */
  lemma BareEnd(hc: HeadersCallback, p: Parser, n: nat, max: int)
    requires p.errno.Ok? && p.state == OnHeader(HeaderValueDiscardWs) && n + 2 <= max
    ensures ExactRun(hc, p, n, max, CRLF) == Exact(p.(state := OnHeader(HeaderValueDiscardLws)), n + 2, [], false)
  {
    var q := p.(state := OnHeader(HeaderValueDiscardWsAlmostDone));
    assert Meanings([], CR) == [] && Meanings([], LF) == [];
    assert ExactByte(hc, p, n, max, CR) == Exact(q, n + 1, [], false);
    assert ExactByte(hc, q, n + 1, max, LF) == Exact(q.(state := OnHeader(HeaderValueDiscardLws)), n + 2, [], false);
    hide ExactByte, ExactRun;
    assert CRLF[1..] == [LF];
    ExactStep(hc, p, n, max, CRLF);
    RunOne(hc, q, n + 1, max, LF);
  }

  lemma {:induction false} LeadingRun(hc: HeadersCallback, p: Parser, n: nat, max: int, d: seq<byte>)
    requires p.errno.Ok? && p.state == OnHeader(HeaderValueDiscardWs) && Leading(d) && n + |d| <= max
    ensures ExactRun(hc, p, n, max, d) == Exact(p, n + |d|, [], false)
    decreases |d|
  {
    hide ExactByte, ExactRun;
    if d == [] {
      ExactNone(hc, p, n, max);
    } else if Blank(d[0]) && Leading(d[1..]) {
      BlankByte(hc, p, n, max, d[0]);
      ExactStep(hc, p, n, max, d);
      LeadingRun(hc, p, n + 1, max, d[1..]);
    } else {
      var q, rest := p.(state := OnHeader(HeaderValueDiscardLws)), d[2..];
      assert d == CRLF + rest && rest[0] == d[2] && rest[1..] == d[3..];
      BareEnd(hc, p, n, max);
      BlankByte(hc, q, n + 2, max, rest[0]);
      ExactStep(hc, q, n + 2, max, rest);
      LeadingRun(hc, p, n + 3, max, d[3..]);
      ExactRunAppend(hc, p, n, max, CRLF, rest);
    }
  }

  // ---------- the lines of a value ----------

  /** A further line of a value: it begins with a blank. */
  predicate Fold(d: seq<byte>) { d != [] && Blank(d[0]) && NoLineEnd(d) && HeaderText(d) }

  predicate Folds(fs: seq<seq<byte>>) { forall i | 0 <= i < |fs| :: Fold(fs[i]) }

  function FoldsText(fs: seq<seq<byte>>): seq<byte> {
    if fs == [] then [] else fs[0] + CRLF + FoldsText(fs[1..])
  }

  function FoldsEvents(fs: seq<seq<byte>>): seq<Event> {
    if fs == [] then [] else ValueEvents(fs[0]) + FoldsEvents(fs[1..])
  }

  lemma FoldsTail(fs: seq<seq<byte>>)
    requires fs != [] && Folds(fs)
    ensures Fold(fs[0]) && Folds(fs[1..])
  {
    hide Fold;
    assert forall i | 0 <= i < |fs| - 1 :: fs[1..][i] == fs[i + 1];
  }

  lemma ValueStops(hc: HeadersCallback, p: Parser, n: nat, max: int)
    requires p.errno.Ok? && p.state == VALUE && n + 2 <= max
    ensures ExactRun(hc, p, n, max, CRLF) == Exact(p.(state := OnHeader(HeaderValueLws)), n + 2, [Data(Value, [])], false)
  {
    var q := p.(state := OnHeader(HeaderAlmostDone));
    assert Meanings([Close(Value)], CR) == [Data(Value, [])] && Meanings([], LF) == [];
    assert ExactByte(hc, p, n, max, CR) == Exact(q, n + 1, [Data(Value, [])], false);
    assert ExactByte(hc, q, n + 1, max, LF) == Exact(q.(state := OnHeader(HeaderValueLws)), n + 2, [], false);
    hide ExactByte, ExactRun;
    assert CRLF[1..] == [LF];
    ExactStep(hc, p, n, max, CRLF);
    RunOne(hc, q, n + 1, max, LF);
  }

  /** `e`: from `p` on, one line of a value was read and ended. */
  predicate LineRead(e: Exact, p: Parser, n: nat, v: seq<byte>) {
    e == Exact(e.p, n + |v| + 2, ValueEvents(v), false) && e.p.errno.Ok? && e.p.state == OnHeader(HeaderValueLws)
    && e.p == p.(state := e.p.state, hs := e.p.hs, index := e.p.index, flags := e.p.flags, contentLength := e.p.contentLength)
  }

  /** A line whose bytes leave the parser at `q`. */
  lemma LineEnds(hc: HeadersCallback, p: Parser, n: nat, max: int, v: seq<byte>, q: Parser)
    requires p.errno.Ok? && q.errno.Ok? && q.state == VALUE && n + |v| + 2 <= max
    requires ExactRun(hc, p, n, max, v) == Exact(q, n + |v|, Touches(Value, v), false)
    requires q == p.(state := q.state, hs := q.hs, index := q.index, flags := q.flags, contentLength := q.contentLength)
    ensures ExactRun(hc, p, n, max, v + CRLF) == Exact(q.(state := OnHeader(HeaderValueLws)), n + |v| + 2, ValueEvents(v), false)
    ensures LineRead(ExactRun(hc, p, n, max, v + CRLF), p, n, v)
  {
    hide ExactRun, Touches;
    ValueStops(hc, q, n + |v|, max);
    ExactRunAppend(hc, p, n, max, v, CRLF);
  }

  /** The first byte of a further line. */
  lemma FoldFirst(hc: HeadersCallback, p: Parser, n: nat, max: int, ch: byte)
    requires p.errno.Ok? && p.state == OnHeader(HeaderValueLws) && (Ordinary(p.hs) || p.hs.MatchingConnectionTokenStart?)
    requires Blank(ch) && n + 1 <= max
    ensures ExactByte(hc, p, n, max, ch)
         == Exact(p.(state := VALUE, index := 0, hs := if Ordinary(p.hs) then General else p.hs), n + 1,
                  [Data(Value, [ch])], false)
  {
    assert Meanings([Touch(Value)], ch) == [Data(Value, [ch])];
    hide RequestByte, ResponseByte, UrlByte, BodyByte, ChunkSizeByte, StartRequest;
  }

  lemma FoldParts(d: seq<byte>)
    requires Fold(d)
    ensures NoLineEnd(d[1..]) && HeaderText(d[1..]) && Clean(d[1..])
    ensures Touches(Value, d) == [Data(Value, [d[0]])] + Touches(Value, d[1..])
  {
  }

  lemma FoldRun(hc: HeadersCallback, p: Parser, n: nat, max: int, d: seq<byte>)
    requires p.errno.Ok? && p.state == OnHeader(HeaderValueLws) && Ordinary(p.hs) && Fold(d) && n + |d| + 2 <= max
    ensures ExactRun(hc, p, n, max, d + CRLF) == Exact(p.(index := 0, hs := General), n + |d| + 2, ValueEvents(d), false)
  {
    hide ExactByte, ExactRun, NoLineEnd, HeaderText, ValueEvents;
    var q := p.(state := VALUE, index := 0, hs := General);
    FoldFirst(hc, p, n, max, d[0]);
    FoldParts(d);
    ExactStep(hc, p, n, max, d);
    PlainRun(hc, q, n + 1, max, d[1..]);
    LineEnds(hc, p, n, max, d, q);
  }

  /** Where no element of a Connection header can begin, further lines say nothing. */
  lemma {:induction false} FoldsRun(hc: HeadersCallback, p: Parser, n: nat, max: int, fs: seq<seq<byte>>)
    requires p.errno.Ok? && p.state == OnHeader(HeaderValueLws) && (fs != [] ==> Ordinary(p.hs)) && Folds(fs)
    requires n + |FoldsText(fs)| <= max
    ensures ExactRun(hc, p, n, max, FoldsText(fs))
         == Exact(if fs == [] then p else p.(index := 0, hs := General), n + |FoldsText(fs)|, FoldsEvents(fs), false)
    decreases |fs|
  {
    hide ExactRun, Fold, ValueEvents;
    if fs == [] {
      ExactNone(hc, p, n, max);
    } else {
      FoldsTail(fs);
      hide Folds;
      FoldRun(hc, p, n, max, fs[0]);
      FoldsRun(hc, p.(index := 0, hs := General), n + |fs[0]| + 2, max, fs[1..]);
      ExactRunAppend(hc, p, n, max, fs[0] + CRLF, FoldsText(fs[1..]));
    }
  }

  // ---------- Connection ----------

  function Tail(d: seq<byte>): seq<byte> { if d == [] then [] else d[1..] }

  /** The flags of a Connection header whose value is `v` and goes on over the lines `fs`. Where an element
      may begin, the next line is heard like the rest of a list; elsewhere the line end spoils the element
      before it, as a tab does, and no further line is heard. */
  function Told(f: Flags, v: seq<byte>, fs: seq<seq<byte>>, first: bool): Flags
    decreases |fs|
  {
    if fs == [] then AddAll(f, Heard(Split(v), first))
    else if Open(Split(v), first) then Told(AddAll(f, Heard(Split(v), first)), Tail(fs[0]), fs[1..], false)
    else AddAll(f, Heard(Split(v + [HTAB]), first))
  }

  lemma TabMatches(p: Parser, k: Word)
    ensures p.hs == MatchState(k) ==> Matching(p, Lower(HTAB), DoneState(k), MatchingConnectionToken).hs.MatchingConnectionToken?
  {
    assert Lower(HTAB) == 41;
  }

  /** A tab leaves of what has been heard only what a comma has ended. */
  lemma TabSpoils(p: Parser)
    requires p.errno.Ok? && Hearing(p.hs)
    ensures var q := ValueChar(p, HTAB); q == p.(hs := q.hs, index := q.index) && ValueFlags(q) == p.flags
  {
    assert Lower(HTAB) == 41 && Token(41) == 0;
    TabMatches(p, KeepAliveWord);
    TabMatches(p, CloseWord);
    TabMatches(p, UpgradeWord);
    hide Lower, Token, Matcher;
  }

  lemma TabByte()
    ensures IsHeaderChar(HTAB) && !LineEnd(HTAB)
  {
  }

  lemma TabClean(v: seq<byte>)
    requires Clean(v)
    ensures Clean(v + [HTAB])
  {
    TabByte();
    hide LineEnd, IsHeaderChar;
    assert forall i | 0 <= i < |v| :: (v + [HTAB])[i] == v[i];
  }

  /** What a parser has taken up of a value that is broken off. */
  lemma Broken(hc: HeadersCallback, p: Parser, n: nat, max: int, v: seq<byte>)
    requires p.errno.Ok? && n + |v| + 1 <= max
    requires var e := ExactRun(hc, p, n, max, v); e == Exact(e.p, n + |v|, e.out, false) && InValue(e.p) && Hearing(e.p.hs)
    ensures ExactRun(hc, p, n, max, v).p.flags == ValueFlags(ExactRun(hc, p, n, max, v + [HTAB]).p)
  {
    hide ExactRun, ExactByte, ValueFlags, ValueChar, Hearing;
    var e := ExactRun(hc, p, n, max, v);
    TabSpoils(e.p);
    TabByte();
    CharByte(hc, e.p, n + |v|, max, HTAB);
    RunOne(hc, e.p, n + |v|, max, HTAB);
    ExactRunAppend(hc, p, n, max, v, [HTAB]);
  }

  /** A line of a Connection header has been read up to its end, from flags `f` on: it was `v`. */
  predicate LineTold(p: Parser, f: Flags, v: seq<byte>, first: bool) {
    p.errno.Ok? && !p.lenient && Hearing(p.hs) && (p.hs.MatchingConnectionTokenStart? <==> Open(Split(v), first))
    && ValueFlags(p) == AddAll(f, Heard(Split(v), first))
    && (!Open(Split(v), first) ==> p.flags == AddAll(f, Heard(Split(v + [HTAB]), first)))
  }

  lemma HearingIs(p: Parser)
    requires Hearing(p.hs)
    ensures if p.hs.MatchingConnectionTokenStart? then ValueFlags(p) == p.flags else Ordinary(p.hs)
  {
  }

  lemma ElementsClean(v: seq<byte>)
    requires Clean(v)
    ensures Commas(Split(v)) == v && Clean(Commas(Split(v))) && Elements(Split(v)) && Split(v) != []
  {
    hide Clean, Commas, Elements, Split;
  }

  /** A line of a list that goes on. */
  lemma ListLine(hc: HeadersCallback, q: Parser, n: nat, max: int, v: seq<byte>)
    requires AtElement(q) && Clean(v) && n + |v| + 1 <= max
    ensures var e := ExactRun(hc, q, n, max, v); WasRead(e, q, n, v) && LineTold(e.p, q.flags, v, false)
  {
    hide ExactRun, Clean, Commas, Elements, Split, Heard, AddAll, Open, ValueFlags, Hearing;
    TabClean(v);
    ElementsClean(v);
    ElementsClean(v + [HTAB]);
    NextElement(hc, q, n, max, Split(v));
    NextElement(hc, q, n, max, Split(v + [HTAB]));
    Broken(hc, q, n, max, v);
  }

  lemma FoldListed(hc: HeadersCallback, p: Parser, n: nat, max: int, d: seq<byte>)
    requires p.errno.Ok? && !p.lenient && p.state == OnHeader(HeaderValueLws) && p.hs.MatchingConnectionTokenStart? && Fold(d)
    requires n + |d| + 2 <= max
    ensures var e := ExactRun(hc, p, n, max, d + CRLF); LineRead(e, p, n, d) && LineTold(e.p, p.flags, d[1..], false)
    ensures ExactRun(hc, p, n, max, d + CRLF).p.contentLength == p.contentLength
  {
    hide ExactByte, ExactRun, NoLineEnd, HeaderText, ValueEvents, Clean, LineTold;
    var q := p.(state := VALUE, index := 0);
    FoldFirst(hc, p, n, max, d[0]);
    FoldParts(d);
    ExactStep(hc, p, n, max, d);
    ListLine(hc, q, n + 1, max, d[1..]);
    var e := ExactRun(hc, q, n + 1, max, d[1..]);
    LineToldIs(e.p, p.flags, d[1..], false, OnHeader(HeaderValueLws));
    LineEnds(hc, p, n, max, d, e.p);
  }

  lemma LineToldIs(p: Parser, f: Flags, v: seq<byte>, first: bool, s: State)
    requires LineTold(p, f, v, first)
    ensures p.errno.Ok? && LineTold(p.(state := s), f, v, first)
  {
    hide Hearing, Open, AddAll, Heard, Split;
  }

  /** The lines of a Connection header after one that said `v`. */
  lemma {:induction false} ListFolds(
      hc: HeadersCallback, p: Parser, n: nat, max: int, f: Flags, v: seq<byte>, fs: seq<seq<byte>>, first: bool)
    requires p.state == OnHeader(HeaderValueLws) && LineTold(p, f, v, first) && Folds(fs) && n + |FoldsText(fs)| <= max
    ensures var e := ExactRun(hc, p, n, max, FoldsText(fs));
      e == Exact(p.(hs := e.p.hs, index := e.p.index, flags := e.p.flags), n + |FoldsText(fs)|, FoldsEvents(fs), false)
      && ValueFlags(e.p) == Told(f, v, fs, first)
    decreases |fs|
  {
    hide ExactRun, Fold, ValueEvents, Open, AddAll, Heard, Split, ValueFlags, Hearing;
    HearingIs(p);
    if fs == [] {
      ExactNone(hc, p, n, max);
    } else if Open(Split(v), first) {
      FoldsTail(fs);
      var d := fs[0];
      assert d != [] by { FoldIs(d); }
      FoldListed(hc, p, n, max, d);
      var e := ExactRun(hc, p, n, max, d + CRLF);
      LineToldIs(e.p, p.flags, d[1..], false, e.p.state);
      hide Folds, LineTold;
      ListFolds(hc, e.p, e.n, max, p.flags, d[1..], fs[1..], false);
      ExactRunAppend(hc, p, n, max, d + CRLF, FoldsText(fs[1..]));
    } else {
      FoldsRun(hc, p, n, max, fs);
      PlainFlags(p);
    }
  }

  lemma FoldIs(d: seq<byte>)
    requires Fold(d)
    ensures d != [] && Blank(d[0])
  {
  }

  lemma PlainFlags(p: Parser)
    ensures ValueFlags(p.(index := 0, hs := General)) == p.flags
  {
  }

  /** A Connection header over several lines: the flags are those of the elements heard. */
  lemma ConnectionTold(hc: HeadersCallback, p: Parser, n: nat, max: int, v: seq<byte>, fs: seq<seq<byte>>)
    requires p.errno.Ok? && p.state == OnHeader(HeaderValueDiscardWs) && p.hs.HConnection? && !p.lenient
    requires v != [] && Clean(v) && !Blank(v[0]) && Folds(fs) && n + |v + CRLF + FoldsText(fs)| <= max
    ensures var e := ExactRun(hc, p, n, max, v + CRLF + FoldsText(fs));
      e == Exact(p.(state := OnHeader(HeaderValueLws), hs := e.p.hs, index := e.p.index, flags := e.p.flags),
                 n + |v + CRLF + FoldsText(fs)|, ValueEvents(v) + FoldsEvents(fs), false)
      && ValueFlags(e.p) == Told(p.flags, v, fs, true)
  {
    hide ExactRun, Clean, Commas, Elements, Split, Heard, AddAll, Open, ValueFlags, Hearing, ValueEvents, FoldsText,
         FoldsEvents, Folds, Told;
    TabClean(v);
    ElementsClean(v);
    ElementsClean(v + [HTAB]);
    ConnectionHeard(hc, p, n, max, Split(v));
    ConnectionHeard(hc, p, n, max, Split(v + [HTAB]));
    Broken(hc, p, n, max, v);
    var q := ExactRun(hc, p, n, max, v).p;
    assert LineTold(q, p.flags, v, true);
    hide LineTold;
    LineToldIs(q, p.flags, v, true, OnHeader(HeaderValueLws));
    LineEnds(hc, p, n, max, v, q);
    var e := ExactRun(hc, p, n, max, v + CRLF);
    ListFolds(hc, e.p, e.n, max, p.flags, v, fs, true);
    ExactRunAppend(hc, p, n, max, v + CRLF, FoldsText(fs));
  }

  lemma {:induction false} SplitPlain(v: seq<byte>)
    requires NoComma(v)
    ensures Split(v) == [v]
  {
    if v != [] {
      SplitPlain(v[1..]);
      assert [v[0]] + v[1..] == v;
    }
  }

  /** A value that names one thing names nothing when it goes on over another line: "close" and a
      further line, even a blank one, do not close the connection. */
  lemma FoldLoses(f: Flags, v: seq<byte>, fs: seq<seq<byte>>)
    requires NoComma(v) && fs != []
    ensures Told(f, v, fs, true) == f
  {
    var w := v + [HTAB];
    SplitPlain(v);
    SplitPlain(w);
    TabLast(v);
    HeardOne(f, v);
    HeardOne(f, w);
    hide Says, Unfinished, AddAll, Heard, Open;
  }

  lemma HeardOne(f: Flags, v: seq<byte>)
    ensures var es := [v]; AddAll(f, Heard(es, true)) == Add(f, v) && !Open(es, true)
  {
    var es := [v];
    var none := es[1..];
    assert none == [] && Heard(none, false) == [] && Heard(es, true) == es;
    hide Unfinished, Says;
  }

  lemma TabLast(v: seq<byte>)
    ensures forall k :: !Says(v + [HTAB], k)
  {
    var w := v + [HTAB];
    assert w[|v|] == HTAB && Lower(HTAB) == 41;
  }
}
