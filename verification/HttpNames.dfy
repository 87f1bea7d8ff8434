/** The header names the letter-by-letter comparisons of the parser recognize. */
module HttpNames {
  import opened HttpTypes
  import opened HttpStep
  import opened HttpEvents
  import opened HttpSlicing
  import opened HttpLoops
  import opened HttpChunked

  // ---------- header names ----------

  /** `w`, in lower case, is the beginning of `name`. */
  predicate Spells(w: seq<byte>, name: string) {
    |w| <= |name| && forall i | 0 <= i < |w| :: Token(w[i]) as int == name[i] as int
  }

  /** `w`, in lower case, is `name`. */
  predicate Is(w: seq<byte>, name: string) { |w| == |name| && Spells(w, name) }

  const CONNECTION := "connection"
  const PROXY_CONNECTION := "proxy-connection"
  const CONTENT_LENGTH := "content-length"
  const TRANSFER_ENCODING := "transfer-encoding"
  const UPGRADE := "upgrade"

  /** `w` begins none of the names the parser knows. */
  predicate Foreign(w: seq<byte>) {
    !Spells(w, CONNECTION) && !Spells(w, PROXY_CONNECTION) && !Spells(w, CONTENT_LENGTH)
    && !Spells(w, TRANSFER_ENCODING) && !Spells(w, UPGRADE)
  }

  /** What header_state and index say about the letters `w` of a header name read so far. */
  predicate NameRead(hs: HeaderState, index: nat, w: seq<byte>) {
    match hs
    case General => Foreign(w)
    case HC => |w| == 1 && index == 0 && Spells(w, CONNECTION)
    case HCO => |w| == 2 && index == 1 && Spells(w, CONNECTION)
    case HCON => |w| == 3 && index == 2 && Spells(w, CONNECTION)
    case MatchingConnection => 3 < |w| == index + 1 < |CONNECTION| && Spells(w, CONNECTION)
    case MatchingProxyConnection => 0 < |w| == index + 1 < |PROXY_CONNECTION| && Spells(w, PROXY_CONNECTION)
    case MatchingContentLength => 3 < |w| == index + 1 < |CONTENT_LENGTH| && Spells(w, CONTENT_LENGTH)
    case MatchingTransferEncoding => 0 < |w| == index + 1 < |TRANSFER_ENCODING| && Spells(w, TRANSFER_ENCODING)
    case MatchingUpgrade => 0 < |w| == index + 1 < |UPGRADE| && Spells(w, UPGRADE)
    case HConnection => Is(w, CONNECTION) || Is(w, PROXY_CONNECTION)
    case HContentLength => Is(w, CONTENT_LENGTH)
    case HTransferEncoding => Is(w, TRANSFER_ENCODING)
    case HUpgrade => Is(w, UPGRADE)
    case _ => false
  }

  lemma SpellsMore(w: seq<byte>, ch: byte, name: string)
    ensures Spells(w + [ch], name) <==> Spells(w, name) && |w| < |name| && Token(ch) as int == name[|w|] as int
  {
    hide Token;
    var v := w + [ch];
    assert v[|w|] == ch;
    assert forall i | 0 <= i < |w| :: v[i] == w[i];
  }

  /** What `w` can begin, told by its first letter, and by its fourth. */
  lemma NamesDiffer(w: seq<byte>)
    requires |w| > 0
    ensures Spells(w, CONNECTION) || Spells(w, CONTENT_LENGTH) ==> Token(w[0]) == 'c' as int
    ensures Spells(w, PROXY_CONNECTION) ==> Token(w[0]) == 'p' as int
    ensures Spells(w, TRANSFER_ENCODING) ==> Token(w[0]) == 't' as int
    ensures Spells(w, UPGRADE) ==> Token(w[0]) == 'u' as int
    ensures |w| > 3 && Spells(w, CONNECTION) ==> Token(w[3]) == 'n' as int
    ensures |w| > 3 && Spells(w, CONTENT_LENGTH) ==> Token(w[3]) == 't' as int
  {
    hide Token;
  }

  lemma ConAlike(w: seq<byte>)
    requires |w| <= 3
    ensures Spells(w, CONNECTION) <==> Spells(w, CONTENT_LENGTH)
  {
    hide Token;
    assert forall i | 0 <= i < |w| :: CONNECTION[i] == CONTENT_LENGTH[i];
  }

  /** Which names `w` and one more letter begin. */
  lemma AllSpellMore(w: seq<byte>, ch: byte)
    ensures forall name :: Spells(w + [ch], name) <==> Spells(w, name) && |w| < |name| && Token(ch) as int == name[|w|] as int
  {
    hide Token, Spells;
    forall name: string
      ensures Spells(w + [ch], name) <==> Spells(w, name) && |w| < |name| && Token(ch) as int == name[|w|] as int
    {
      SpellsMore(w, ch, name);
    }
  }

  /** One more letter where the name is still open. */
  lemma OpenMore(p: Parser, w: seq<byte>, ch: byte)
    requires p.errno.Ok? && w != [] && NameRead(p.hs, p.index, w) && (p.hs.General? || p.hs.HC? || p.hs.HCO? || p.hs.HCON?)
    ensures var q := FieldChar(p, ch, Token(ch)); q.errno.Ok? && NameRead(q.hs, q.index, w + [ch])
  {
    hide Token, Spells;
    AllSpellMore(w, ch);
    NamesDiffer(w);
    if !p.hs.General? {
      ConAlike(w);
    }
  }

  predicate Known(name: string) {
    name == CONNECTION || name == PROXY_CONNECTION || name == CONTENT_LENGTH || name == TRANSFER_ENCODING || name == UPGRADE
  }

  /** Where only one name is still possible, a letter that does not continue it leaves none. */
  lemma OnlyOne(w: seq<byte>, ch: byte, name: string)
    requires w != [] && Known(name) && Spells(w, name) && !Spells(w + [ch], name)
    requires (name == CONNECTION || name == CONTENT_LENGTH) ==> |w| > 3
    ensures Foreign(w + [ch])
  {
    hide Token, Spells;
    AllSpellMore(w, ch);
    NamesDiffer(w);
  }

  /** One more letter after a complete name. */
  lemma CompleteMore(p: Parser, w: seq<byte>, ch: byte)
    requires p.errno.Ok? && w != [] && NameRead(p.hs, p.index, w) && Token(ch) != 0
    requires p.hs.HConnection? || p.hs.HContentLength? || p.hs.HTransferEncoding? || p.hs.HUpgrade?
    ensures var q := FieldChar(p, ch, Token(ch)); q.errno.Ok? && NameRead(q.hs, q.index, w + [ch])
  {
    assert ch != SP;
    var name := match p.hs
      case HConnection => if Is(w, CONNECTION) then CONNECTION else PROXY_CONNECTION
      case HContentLength => CONTENT_LENGTH
      case HTransferEncoding => TRANSFER_ENCODING
      case _ => UPGRADE;
    assert Known(name);
    hide Token, Spells, Foreign, Known;
    SpellsMore(w, ch, name);
    OnlyOne(w, ch, name);
  }

  /** One more letter where `name` is the one name still possible. */
  lemma MatchingMore(p: Parser, w: seq<byte>, ch: byte, name: string, done: HeaderState)
    requires p.errno.Ok? && w != [] && Known(name) && Spells(w, name) && |w| == p.index + 1 < |name|
    requires (name == CONNECTION || name == CONTENT_LENGTH) ==> |w| > 3
    requires Matcher(p.hs) == name
    ensures var q := Matching(p, Token(ch), done, General);
      q == p.(index := |w|, hs := q.hs)
      && q.hs == if !Spells(w + [ch], name) then General else if |w| + 1 == |name| then done else p.hs
    ensures !Spells(w + [ch], name) ==> Foreign(w + [ch])
  {
    hide Token, Spells, Foreign, Known, Matcher;
    SpellsMore(w, ch, name);
    if !Spells(w + [ch], name) {
      OnlyOne(w, ch, name);
    }
  }

  lemma NameMore(p: Parser, w: seq<byte>, ch: byte)
    requires p.errno.Ok? && w != [] && NameRead(p.hs, p.index, w) && Token(ch) != 0
    ensures var q := FieldChar(p, ch, Token(ch)); q.errno.Ok? && NameRead(q.hs, q.index, w + [ch])
  {
    hide Token, Spells, Foreign, Matching;
    match p.hs
    case MatchingConnection => MatchingMore(p, w, ch, CONNECTION, HConnection);
    case MatchingProxyConnection => MatchingMore(p, w, ch, PROXY_CONNECTION, HConnection);
    case MatchingContentLength => MatchingMore(p, w, ch, CONTENT_LENGTH, HContentLength);
    case MatchingTransferEncoding => MatchingMore(p, w, ch, TRANSFER_ENCODING, HTransferEncoding);
    case MatchingUpgrade => MatchingMore(p, w, ch, UPGRADE, HUpgrade);
    case General => OpenMore(p, w, ch);
    case HC => OpenMore(p, w, ch);
    case HCO => OpenMore(p, w, ch);
    case HCON => OpenMore(p, w, ch);
    case _ => CompleteMore(p, w, ch);
  }

  function FirstState(c: byte): HeaderState {
    if c == 'c' as int then HC
    else if c == 'p' as int then MatchingProxyConnection
    else if c == 't' as int then MatchingTransferEncoding
    else if c == 'u' as int then MatchingUpgrade
    else General
  }

  lemma FirstStateReads(ch: byte)
    ensures NameRead(FirstState(Token(ch)), 0, [ch])
  {
    hide Token;
    assert forall name :: Spells([], name);
    hide Spells;
    assert [ch] == [] + [ch];
    AllSpellMore([], ch);
  }

  /** The first letter. */
  lemma NameFirst(hc: HeadersCallback, p: Parser, ch: byte)
    requires p.errno.Ok? && Token(ch) != 0
    ensures FieldStart(hc, p, ch)
         == With(p.(index := 0, state := FIELD, hs := FirstState(Token(ch))), [Touch(Field)])
  {
    assert ch != CR && ch != LF;
    hide Token, HeadersEnd;
  }

  // ---------- a name up to its colon ----------

  const COLON: byte := 58

  predicate TokenText(w: seq<byte>) { forall i | 0 <= i < |w| :: Token(w[i]) != 0 }

  /** Inside a name of which `w` has been read. */
  predicate InField(p: Parser, w: seq<byte>) {
    p.errno.Ok? && p.state == FIELD && w != [] && NameRead(p.hs, p.index, w)
  }

  lemma FieldLetter(hc: HeadersCallback, p: Parser, n: nat, max: int, w: seq<byte>, ch: byte)
    requires InField(p, w) && Token(ch) != 0 && n + 1 <= max
    ensures var e := ExactByte(hc, p, n, max, ch);
      e == Exact(p.(hs := e.p.hs, index := e.p.index), n + 1, [Data(Field, [ch])], false) && InField(e.p, w + [ch])
  {
    NameMore(p, w, ch);
    FieldCharFrame(p, ch, Token(ch));
    hide Token, NameRead, FieldChar;
    assert Meanings([Touch(Field)], ch) == [Data(Field, [ch])];
  }

  lemma FieldCharFrame(p: Parser, ch: byte, c: byte)
    ensures var q := FieldChar(p, ch, c); q == p.(hs := q.hs, index := q.index, errno := q.errno)
  {
    hide Matcher;
  }

  lemma FieldStop(hc: HeadersCallback, p: Parser, n: nat, max: int, ch: byte)
    requires p.errno.Ok? && p.state == FIELD && Token(ch) == 0 && n + 1 <= max
    ensures var e := ExactByte(hc, p, n, max, ch);
      if ch == COLON then e == Exact(p.(state := OnHeader(HeaderValueDiscardWs)), n + 1, [Data(Field, [])], false)
      else !e.Good()
  {
    assert Meanings([Close(Field)], ch) == [Data(Field, [])];
  }

  /** Before the value of a header whose name left the parser at `hs` and `index`. */
  function AtValue(p: Parser, hs: HeaderState, index: nat): Parser {
    p.(hs := hs, index := index, state := OnHeader(HeaderValueDiscardWs))
  }

  function NameEvents(w: seq<byte>): seq<Event> { Touches(Field, w) + [Data(Field, [])] }

  /** `e`: the name `w`, of which `d` came last, was read from `p` on to its colon. */
  predicate NameDone(e: Exact, p: Parser, n: nat, d: seq<byte>, w: seq<byte>) {
    e == Exact(AtValue(p, e.p.hs, e.p.index), n + |d| + 1, NameEvents(d), false) && NameRead(e.p.hs, e.p.index, w)
  }

  lemma NameDoneMore(e: Exact, rest: Exact, p: Parser, q: Parser, n: nat, d: seq<byte>, w: seq<byte>)
    requires d != [] && NameDone(rest, q, n + 1, d[1..], w) && e == rest.(out := [Data(Field, [d[0]])] + rest.out)
    requires forall hs, index :: AtValue(p, hs, index) == AtValue(q, hs, index)
    ensures NameDone(e, p, n, d, w)
  {
    hide NameRead, AtValue;
    assert Touches(Field, d) == [Data(Field, [d[0]])] + Touches(Field, d[1..]);
    assert NameEvents(d) == [Data(Field, [d[0]])] + NameEvents(d[1..]);
  }

  lemma TokenTextTail(d: seq<byte>)
    requires d != []
    ensures TokenText(d) <==> Token(d[0]) != 0 && TokenText(d[1..])
  {
    hide Token;
    assert forall i | 0 < i < |d| :: d[i] == d[1..][i - 1];
  }

  lemma FieldEnds(hc: HeadersCallback, p: Parser, n: nat, max: int, w: seq<byte>)
    requires InField(p, w) && n + 1 <= max
    ensures NameDone(ExactRun(hc, p, n, max, [COLON]), p, n, [], w)
  {
    hide NameRead, ExactByte;
    RunOne(hc, p, n, max, COLON);
    hide ExactRun;
    FieldStop(hc, p, n, max, COLON);
  }

  lemma {:induction false} FieldRun(hc: HeadersCallback, p: Parser, n: nat, max: int, w: seq<byte>, d: seq<byte>)
    requires InField(p, w) && COLON !in d && n + |d| + 1 <= max
    ensures var e := ExactRun(hc, p, n, max, d + [COLON]);
      if TokenText(d) then NameDone(e, p, n, d, w + d) else !e.Good()
    decreases |d|
  {
    hide Token, NameRead, ExactByte, ExactRun, NameDone;
    if d == [] {
      assert d + [COLON] == [COLON] && w + d == w;
      FieldEnds(hc, p, n, max, w);
    } else {
      hide TokenText;
      var t := d + [COLON];
      assert t[0] == d[0] && t[1..] == d[1..] + [COLON];
      TokenTextTail(d);
      ExactStep(hc, p, n, max, t);
      if Token(d[0]) == 0 {
        FieldStop(hc, p, n, max, d[0]);
      } else {
        FieldLetter(hc, p, n, max, w, d[0]);
        var one := ExactByte(hc, p, n, max, d[0]);
        FieldRun(hc, one.p, n + 1, max, w + [d[0]], d[1..]);
        assert w + [d[0]] + d[1..] == w + d;
        if TokenText(d) {
          NameDoneMore(ExactRun(hc, p, n, max, t), ExactRun(hc, one.p, n + 1, max, t[1..]), p, one.p, n, d, w + d);
        }
      }
    }
  }

  lemma FirstByte(hc: HeadersCallback, p: Parser, n: nat, max: int, ch: byte)
    requires p.errno.Ok? && p.state == OnHeader(HeaderFieldStart) && n + 1 <= max && ch != CR && ch != LF
    ensures var e := ExactByte(hc, p, n, max, ch);
      if Token(ch) == 0 then !e.Good()
      else
        e == Exact(p.(index := 0, state := FIELD, hs := FirstState(Token(ch))), n + 1, [Data(Field, [ch])], false)
        && InField(e.p, [ch])
  {
    assert Meanings([Touch(Field)], ch) == [Data(Field, [ch])];
    if Token(ch) != 0 {
      NameFirst(hc, p, ch);
      FirstStateReads(ch);
    }
    hide Token, NameRead, FirstState;
  }

  /** What a complete name is taken for. */
  lemma NameSettles(hs: HeaderState, index: nat, w: seq<byte>)
    requires w != [] && NameRead(hs, index, w)
    ensures hs.HConnection? <==> Is(w, CONNECTION) || Is(w, PROXY_CONNECTION)
    ensures hs.HContentLength? <==> Is(w, CONTENT_LENGTH)
    ensures hs.HTransferEncoding? <==> Is(w, TRANSFER_ENCODING)
    ensures hs.HUpgrade? <==> Is(w, UPGRADE)
  {
    hide Token, Spells;
    NamesDiffer(w);
  }

  lemma {:induction false} NameRun(hc: HeadersCallback, p: Parser, n: nat, max: int, w: seq<byte>)
    requires p.errno.Ok? && p.state == OnHeader(HeaderFieldStart) && n + |w| + 1 <= max
    requires w != [] && COLON !in w && w[0] != CR && w[0] != LF
    ensures var e := ExactRun(hc, p, n, max, w + [COLON]);
      if TokenText(w) then NameDone(e, p, n, w, w) else !e.Good()
  {
    hide Token, NameRead, ExactByte, TokenText, NameDone, FirstState;
    var d := w + [COLON];
    assert d[0] == w[0] && d[1..] == w[1..] + [COLON] && [w[0]] + w[1..] == w;
    FirstByte(hc, p, n, max, w[0]);
    TokenTextTail(w);
    if Token(w[0]) != 0 {
      var one := ExactByte(hc, p, n, max, w[0]);
      FieldRun(hc, one.p, n + 1, max, [w[0]], w[1..]);
      if TokenText(w) {
        NameDoneMore(ExactRun(hc, p, n, max, d), ExactRun(hc, one.p, n + 1, max, d[1..]), p, one.p, n, w, w);
      }
    }
  }

  /** A header name is accepted exactly if it consists of token characters, and taken for one of the
      five known names exactly if it spells it, in any mixture of cases. */
  lemma FieldNameRecognized(hc: HeadersCallback, p: Parser, n: nat, max: int, w: seq<byte>)
    requires p.errno.Ok? && p.state == OnHeader(HeaderFieldStart) && n + |w| + 1 <= max
    requires w != [] && COLON !in w && w[0] != CR && w[0] != LF
    ensures ExactRun(hc, p, n, max, w + [COLON]).Good() <==> TokenText(w)
    ensures var e := ExactRun(hc, p, n, max, w + [COLON]);
      TokenText(w) ==>
        e == Exact(AtValue(p, e.p.hs, e.p.index), n + |w| + 1, NameEvents(w), false)
        && (e.p.hs.HConnection? <==> Is(w, CONNECTION) || Is(w, PROXY_CONNECTION))
        && (e.p.hs.HContentLength? <==> Is(w, CONTENT_LENGTH))
        && (e.p.hs.HTransferEncoding? <==> Is(w, TRANSFER_ENCODING))
        && (e.p.hs.HUpgrade? <==> Is(w, UPGRADE))
  {
    hide ExactRun, TokenText, Is, NameRead, NameEvents;
    NameRun(hc, p, n, max, w);
    if TokenText(w) {
      var e := ExactRun(hc, p, n, max, w + [COLON]);
      NameSettles(e.p.hs, e.p.index, w);
    }
  }
}
