/** The elements of a Connection header: which of them the parser hears, and which it passes over. */
module HttpConnection {
  import opened HttpTypes
  import opened HttpStep
  import opened HttpEvents
  import opened HttpSlicing
  import opened HttpLoops
  import opened HttpValues

  const COMMA: byte := 44

  datatype Word = KeepAliveWord | CloseWord | UpgradeWord

  function Spelling(k: Word): string {
    match k case KeepAliveWord => "keep-alive" case CloseWord => "close" case UpgradeWord => "upgrade"
  }

  /** `t`, without the blanks before it, is the word in any mixture of cases, and spaces. */
  predicate Says(t: seq<byte>, k: Word) { |t| >= |Spelling(k)| && SpellsOut(t, Spelling(k)) }

  /** `t` is the beginning of a word, perhaps empty. */
  predicate Unfinished(t: seq<byte>) { exists k :: Partly(t, k) }

  predicate Partly(t: seq<byte>, k: Word) { |t| < |Spelling(k)| && SpellsOut(t, Spelling(k)) }

  function LeftTrim(s: seq<byte>): seq<byte> {
    if s != [] && s[0] == SP then LeftTrim(s[1..]) else s
  }

  /** An element can begin with this byte. */
  predicate Begins(ch: byte) { Token(Lower(ch)) != 0 }

  /** The elements that are heard. After the first, an element that is empty or does not begin with
      a token character ends the hearing; one that breaks off inside a word swallows the next. */
  function Heard(es: seq<seq<byte>>, first: bool): seq<seq<byte>>
    decreases |es|
  {
    if es == [] then []
    else
      var t := if first then es[0] else LeftTrim(es[0]);
      if !first && (t == [] || !Begins(t[0])) then []
      else [t] + (if !Unfinished(t) then Heard(es[1..], false) else if |es| > 1 then Heard(es[2..], false) else [])
  }

  /** After these elements the parser waits for the first byte of another one. */
  predicate Open(es: seq<seq<byte>>, first: bool)
    decreases |es|
  {
    es != []
    && var t := if first then es[0] else LeftTrim(es[0]);
       if !first && (t == [] || !Begins(t[0])) then t == [] && |es| == 1
       else if !Unfinished(t) then Open(es[1..], false)
       else |es| > 1 && Open(es[2..], false)
  }

  function Add(f: Flags, t: seq<byte>): Flags {
    if Says(t, KeepAliveWord) then f.(keepAlive := true)
    else if Says(t, CloseWord) then f.(close := true)
    else if Says(t, UpgradeWord) then f.(connectionUpgrade := true)
    else f
  }

  function AddAll(f: Flags, ts: seq<seq<byte>>): Flags
    decreases |ts|
  {
    if ts == [] then f else AddAll(Add(f, ts[0]), ts[1..])
  }

  /** The elements, with commas between them. */
  function Commas(es: seq<seq<byte>>): seq<byte> {
    if es == [] then [] else if |es| == 1 then es[0] else es[0] + [COMMA] + Commas(es[1..])
  }

  // ---------- one element ----------

  predicate Clean(d: seq<byte>) { NoLineEnd(d) && HeaderText(d) }

  /** Inside an element of which `t` has been read. */
  predicate InElement(p: Parser, t: seq<byte>) {
    p.errno.Ok? && p.state == VALUE && !p.lenient && t != []
    && match p.hs
       case MatchingConnectionKeepAlive => p.index + 1 == |t| && Partly(t, KeepAliveWord)
       case MatchingConnectionClose => p.index + 1 == |t| && Partly(t, CloseWord)
       case MatchingConnectionUpgrade => p.index + 1 == |t| && Partly(t, UpgradeWord)
       case ConnectionKeepAlive => Says(t, KeepAliveWord)
       case ConnectionClose => Says(t, CloseWord)
       case ConnectionUpgrade => Says(t, UpgradeWord)
       case MatchingConnectionToken => forall k :: !SpellsOut(t, Spelling(k))
       case _ => false
  }

  /** The words begin differently. */
  lemma OneWord(t: seq<byte>, j: Word, k: Word)
    requires t != [] && SpellsOut(t, Spelling(j)) && SpellsOut(t, Spelling(k))
    ensures j == k
  {
    hide Lower;
    assert Lower(t[0]) == Spelling(j)[0] as int == Spelling(k)[0] as int;
  }

  /** A byte that does not continue the one word possible leaves none. */
  lemma NoWord(t: seq<byte>, k: Word, ch: byte)
    requires t != [] && SpellsOut(t, Spelling(k)) && !SpellsOut(t + [ch], Spelling(k))
    ensures forall j :: !SpellsOut(t + [ch], Spelling(j))
  {
    hide SpellsOut, Spelling;
    forall j: Word
      ensures !SpellsOut(t + [ch], Spelling(j))
    {
      SpellsOutMore(t, ch, Spelling(j));
      if SpellsOut(t + [ch], Spelling(j)) {
        OneWord(t, j, k);
      }
    }
  }

  lemma StillNoWord(t: seq<byte>, ch: byte)
    requires forall k :: !SpellsOut(t, Spelling(k))
    ensures forall k :: !SpellsOut(t + [ch], Spelling(k))
  {
    hide SpellsOut, Spelling;
    forall k: Word
      ensures !SpellsOut(t + [ch], Spelling(k))
    {
      SpellsOutMore(t, ch, Spelling(k));
    }
  }

  function MatchState(k: Word): HeaderState {
    match k
    case KeepAliveWord => MatchingConnectionKeepAlive
    case CloseWord => MatchingConnectionClose
    case UpgradeWord => MatchingConnectionUpgrade
  }

  function DoneState(k: Word): HeaderState {
    match k case KeepAliveWord => ConnectionKeepAlive case CloseWord => ConnectionClose case UpgradeWord => ConnectionUpgrade
  }

  lemma MatchingChar(p: Parser, t: seq<byte>, k: Word, ch: byte)
    requires InElement(p, t) && p.hs == MatchState(k)
    ensures var q := Matching(p, Lower(ch), DoneState(k), MatchingConnectionToken);
      q == p.(hs := q.hs, index := q.index) && InElement(q, t + [ch])
  {
    var name := Spelling(k);
    assert Matcher(p.hs) == name && p.index + 1 == |t| && Partly(t, k);
    SpellsOutMore(t, ch, name);
    if !SpellsOut(t + [ch], name) {
      NoWord(t, k, ch);
    }
    hide Lower, SpellsOut, Spelling, Matcher;
  }

  lemma DoneChar(p: Parser, t: seq<byte>, k: Word, ch: byte)
    requires InElement(p, t) && p.hs == DoneState(k) && ch != COMMA
    ensures var q := TokenEnd(p, ch); q == p.(hs := q.hs) && InElement(q, t + [ch])
  {
    assert Says(t, k);
    SpellsOutMore(t, ch, Spelling(k));
    if ch != SP {
      NoWord(t, k, ch);
    }
    hide SpellsOut, Spelling;
  }

  lemma ElementChar(p: Parser, t: seq<byte>, ch: byte)
    requires InElement(p, t) && ch != COMMA
    ensures var q := ValueChar(p, ch); q == p.(hs := q.hs, index := q.index) && InElement(q, t + [ch])
  {
    match p.hs
    case MatchingConnectionKeepAlive =>
      MatchingChar(p, t, KeepAliveWord, ch);
      hide InElement, Matching;
    case MatchingConnectionClose =>
      MatchingChar(p, t, CloseWord, ch);
      hide InElement, Matching;
    case MatchingConnectionUpgrade =>
      MatchingChar(p, t, UpgradeWord, ch);
      hide InElement, Matching;
    case ConnectionKeepAlive =>
      DoneChar(p, t, KeepAliveWord, ch);
      hide InElement, TokenEnd;
    case ConnectionClose =>
      DoneChar(p, t, CloseWord, ch);
      hide InElement, TokenEnd;
    case ConnectionUpgrade =>
      DoneChar(p, t, UpgradeWord, ch);
      hide InElement, TokenEnd;
    case MatchingConnectionToken =>
      StillNoWord(t, ch);
      hide SpellsOut;
    case _ =>
  }

  /** Which word an element is, by the state it leaves. */
  lemma ElementWord(p: Parser, t: seq<byte>)
    requires InElement(p, t)
    ensures Unfinished(t) <==>
      p.hs.MatchingConnectionKeepAlive? || p.hs.MatchingConnectionClose? || p.hs.MatchingConnectionUpgrade?
    ensures forall k :: Says(t, k) <==> p.hs == DoneState(k)
  {
    hide SpellsOut, Spelling;
    forall j: Word, k: Word | SpellsOut(t, Spelling(j)) && SpellsOut(t, Spelling(k))
      ensures j == k
    {
      OneWord(t, j, k);
    }
  }

  lemma ElementEnds(p: Parser, t: seq<byte>)
    requires InElement(p, t)
    ensures ValueFlags(p) == Add(p.flags, t)
  {
    ElementWord(p, t);
    hide Says;
  }

  /** A comma after an element: the next one begins, or is swallowed. */
  lemma CommaAfter(p: Parser, t: seq<byte>)
    requires InElement(p, t)
    ensures var q := ValueChar(p, COMMA);
      q == if Unfinished(t) then p.(hs := MatchingConnectionToken, index := p.index + 1)
           else p.(hs := MatchingConnectionTokenStart, index := 0, flags := Add(p.flags, t))
  {
    ElementWord(p, t);
    if Unfinished(t) {
      assert COMMA as char !in Matcher(p.hs) && Lower(COMMA) == COMMA;
    }
    hide Says, Unfinished;
  }

  // ---------- bytes and runs ----------

  lemma CharByte(hc: HeadersCallback, p: Parser, n: nat, max: int, ch: byte)
    requires p.errno.Ok? && p.state == VALUE && !LineEnd(ch) && IsHeaderChar(ch) && n + 1 <= max
    requires ValueChar(p, ch).errno.Ok?
    ensures ExactByte(hc, p, n, max, ch) == Exact(ValueChar(p, ch), n + 1, [Data(Value, [ch])], false)
  {
    assert Meanings([Touch(Value)], ch) == [Data(Value, [ch])];
    hide ValueChar, RequestByte, ResponseByte, UrlByte, BodyByte, ChunkSizeByte, StartRequest, ValueStart;
  }

  lemma CleanTail(d: seq<byte>)
    requires d != [] && Clean(d)
    ensures !LineEnd(d[0]) && IsHeaderChar(d[0]) && Clean(d[1..])
  {
  }

  /** The bytes `d` were read from `p` on, which then has other `hs`, `index` and `flags` at most. */
  predicate WasRead(e: Exact, p: Parser, n: nat, d: seq<byte>) {
    e == Exact(p.(hs := e.p.hs, index := e.p.index, flags := e.p.flags), n + |d|, Touches(Value, d), false)
  }

  lemma ReadOne(hc: HeadersCallback, p: Parser, n: nat, max: int, ch: byte)
    requires p.errno.Ok? && p.state == VALUE && !LineEnd(ch) && IsHeaderChar(ch) && n + 1 <= max
    requires var q := ValueChar(p, ch); q == p.(hs := q.hs, index := q.index, flags := q.flags)
    ensures WasRead(ExactRun(hc, p, n, max, [ch]), p, n, [ch]) && ExactRun(hc, p, n, max, [ch]).p == ValueChar(p, ch)
  {
    CharByte(hc, p, n, max, ch);
    assert Touches(Value, [ch]) == [Data(Value, [ch])];
    hide ExactByte, ExactRun, ValueChar;
    ExactStep(hc, p, n, max, [ch]);
    assert [ch][1..] == [];
    ExactNone(hc, ValueChar(p, ch), n + 1, max);
  }

  lemma ReadBoth(hc: HeadersCallback, p: Parser, n: nat, max: int, a: seq<byte>, b: seq<byte>)
    requires p.errno.Ok? && WasRead(ExactRun(hc, p, n, max, a), p, n, a)
    requires var ea := ExactRun(hc, p, n, max, a); WasRead(ExactRun(hc, ea.p, ea.n, max, b), ea.p, ea.n, b)
    ensures var ea := ExactRun(hc, p, n, max, a);
      WasRead(ExactRun(hc, p, n, max, a + b), p, n, a + b)
      && ExactRun(hc, p, n, max, a + b).p == ExactRun(hc, ea.p, ea.n, max, b).p
  {
    hide ExactRun;
    ExactRunAppend(hc, p, n, max, a, b);
    TouchesAppend(Value, a, b);
  }

  lemma ReadNone(hc: HeadersCallback, p: Parser, n: nat, max: int)
    ensures WasRead(ExactRun(hc, p, n, max, []), p, n, []) && ExactRun(hc, p, n, max, []).p == p
  {
    ExactNone(hc, p, n, max);
  }

  predicate NoComma(d: seq<byte>) { COMMA !in d }

  lemma {:induction false} ElementRun(hc: HeadersCallback, p: Parser, n: nat, max: int, t: seq<byte>, d: seq<byte>)
    requires InElement(p, t) && Clean(d) && NoComma(d) && n + |d| <= max
    ensures var e := ExactRun(hc, p, n, max, d);
      WasRead(e, p, n, d) && e.p.flags == p.flags && InElement(e.p, t + d)
    decreases |d|
  {
    hide ExactRun, InElement, ValueChar;
    if d == [] {
      ReadNone(hc, p, n, max);
      assert t + d == t;
    } else {
      CleanTail(d);
      ElementChar(p, t, d[0]);
      InElementIs(p, t);
      ReadOne(hc, p, n, max, d[0]);
      var q := ValueChar(p, d[0]);
      ElementRun(hc, q, n + 1, max, t + [d[0]], d[1..]);
      ReadBoth(hc, p, n, max, [d[0]], d[1..]);
      assert [d[0]] + d[1..] == d && t + [d[0]] + d[1..] == t + d;
    }
  }

  lemma InElementIs(p: Parser, t: seq<byte>)
    requires InElement(p, t)
    ensures p.errno.Ok? && p.state == VALUE && !p.lenient
  {
  }

  /** States that pass over bytes: an element nobody waits for, up to its comma; the rest of a value
      that is not interpreted any more; the blanks before an element. */
  predicate PassesOver(hs: HeaderState, ch: byte) {
    hs.General? || (hs.MatchingConnectionToken? && ch != COMMA) || (hs.MatchingConnectionTokenStart? && ch == SP)
  }

  lemma {:induction false} PassRun(hc: HeadersCallback, p: Parser, n: nat, max: int, d: seq<byte>)
    requires p.errno.Ok? && p.state == VALUE && Clean(d) && n + |d| <= max
    requires forall i | 0 <= i < |d| :: PassesOver(p.hs, d[i])
    ensures WasRead(ExactRun(hc, p, n, max, d), p, n, d) && ExactRun(hc, p, n, max, d).p == p
    decreases |d|
  {
    if d == [] {
      ReadNone(hc, p, n, max);
    } else {
      CleanTail(d);
      assert PassesOver(p.hs, d[0]);
      assert ValueChar(p, d[0]) == p;
      hide ExactRun, ValueChar;
      ReadOne(hc, p, n, max, d[0]);
      PassRun(hc, p, n + 1, max, d[1..]);
      ReadBoth(hc, p, n, max, [d[0]], d[1..]);
      assert [d[0]] + d[1..] == d;
    }
  }

  // ---------- the list ----------

  predicate Elements(es: seq<seq<byte>>) { forall i | 0 <= i < |es| :: NoComma(es[i]) }

  /** What follows an element, given the elements after it. */
  function After(es: seq<seq<byte>>): seq<byte> { if es == [] then [] else [COMMA] + Commas(es) }

  lemma CommasSplit(es: seq<seq<byte>>)
    requires es != []
    ensures Commas(es) == es[0] + After(es[1..])
  {
  }

  lemma CleanParts(a: seq<byte>, b: seq<byte>)
    requires Clean(a + b)
    ensures Clean(a) && Clean(b)
  {
    hide LineEnd, IsHeaderChar;
    assert forall i | 0 <= i < |a| :: a[i] == (a + b)[i];
    assert forall i | 0 <= i < |b| :: b[i] == (a + b)[|a| + i];
  }

  lemma ElementsTail(es: seq<seq<byte>>)
    requires es != [] && Elements(es)
    ensures NoComma(es[0]) && Elements(es[1..])
  {
    hide NoComma;
    assert forall i | 0 <= i < |es| - 1 :: es[1..][i] == es[i + 1];
  }

  /** The states inside the value of a Connection header. */
  predicate Hearing(hs: HeaderState) {
    hs.General? || hs.MatchingConnectionTokenStart? || hs.MatchingConnectionToken?
    || exists k: Word :: hs == MatchState(k) || hs == DoneState(k)
  }

  /** The bytes `d` were read; once the value ends the flags are `f`; an element may begin next if `open`. */
  predicate Said(e: Exact, p: Parser, n: nat, d: seq<byte>, f: Flags, open: bool) {
    WasRead(e, p, n, d) && ValueFlags(e.p) == f && Hearing(e.p.hs) && (e.p.hs.MatchingConnectionTokenStart? <==> open)
    && (open ==> e.p.index == 0)
  }

  predicate InValue(p: Parser) { p.errno.Ok? && p.state == VALUE && !p.lenient }

  /** Between a comma and the element after it. */
  predicate AtElement(p: Parser) { InValue(p) && p.hs.MatchingConnectionTokenStart? && p.index == 0 }

  lemma {:induction false} TrimmedIs(s: seq<byte>)
    ensures |LeftTrim(s)| <= |s| && s[|s| - |LeftTrim(s)|..] == LeftTrim(s)
    ensures forall i | 0 <= i < |s| - |LeftTrim(s)| :: s[i] == SP
    ensures LeftTrim(s) != [] ==> LeftTrim(s)[0] != SP
    decreases |s|
  {
    if s != [] && s[0] == SP {
      TrimmedIs(s[1..]);
    }
  }

  /** The first byte of an element after the first. */
  lemma ElementBegins(p: Parser, ch: byte)
    requires AtElement(p) && ch != SP && IsHeaderChar(ch)
    ensures var q := ValueChar(p, ch);
      q == p.(hs := q.hs) && if Begins(ch) then InElement(q, [ch]) else q.hs.General?
  {
    assert Lower(ch) != SP && Lower(ch) != HTAB;
    assert Lower(ch) == 'k' as int || Lower(ch) == 'c' as int || Lower(ch) == 'u' as int ==> Token(Lower(ch)) != 0;
    OneLetter(ch);
    hide Lower, Token, SpellsOut, Spelling;
  }

  /** Which words a single byte begins. */
  lemma OneLetter(ch: byte)
    ensures forall k :: |Spelling(k)| > 1 && (SpellsOut([ch], Spelling(k)) <==> Lower(ch) as int == Spelling(k)[0] as int)
    ensures Spelling(KeepAliveWord)[0] == 'k' && Spelling(CloseWord)[0] == 'c' && Spelling(UpgradeWord)[0] == 'u'
  {
    hide Lower;
  }

  /** The rest of a value after what was read of it. */
  lemma SaidBoth(hc: HeadersCallback, p: Parser, n: nat, max: int, a: seq<byte>, b: seq<byte>, f: Flags, open: bool)
    requires InValue(p) && WasRead(ExactRun(hc, p, n, max, a), p, n, a)
    requires var ea := ExactRun(hc, p, n, max, a); Said(ExactRun(hc, ea.p, n + |a|, max, b), ea.p, n + |a|, b, f, open)
    ensures Said(ExactRun(hc, p, n, max, a + b), p, n, a + b, f, open)
  {
    hide ExactRun, ValueFlags, Hearing;
    ReadBoth(hc, p, n, max, a, b);
  }

  /** What element `t`, of which all is read, and the elements after it say. */
  function Rest(f: Flags, t: seq<byte>, es: seq<seq<byte>>): Flags {
    if !Unfinished(t) then AddAll(Add(f, t), Heard(es, false))
    else AddAll(f, if es == [] then [] else Heard(es[1..], false))
  }

  predicate RestOpen(t: seq<byte>, es: seq<seq<byte>>) {
    if !Unfinished(t) then Open(es, false) else es != [] && Open(es[1..], false)
  }

  lemma CommaByte()
    ensures IsHeaderChar(COMMA) && !LineEnd(COMMA) && !Begins(COMMA)
  {
  }

  lemma ElementHears(p: Parser, t: seq<byte>)
    requires InElement(p, t)
    ensures Hearing(p.hs) && !p.hs.MatchingConnectionTokenStart?
  {
    hide Partly, Says, SpellsOut, Spelling;
    assert p.hs.MatchingConnectionToken? || exists k: Word :: p.hs == MatchState(k) || p.hs == DoneState(k) by {
      assert MatchState(KeepAliveWord).MatchingConnectionKeepAlive? && DoneState(KeepAliveWord).ConnectionKeepAlive?;
      assert MatchState(CloseWord).MatchingConnectionClose? && DoneState(CloseWord).ConnectionClose?;
      assert MatchState(UpgradeWord).MatchingConnectionUpgrade? && DoneState(UpgradeWord).ConnectionUpgrade?;
    }
  }

  lemma LastElement(p: Parser, t: seq<byte>)
    requires InElement(p, t)
    ensures ValueFlags(p) == Rest(p.flags, t, []) && InValue(p)
    ensures Hearing(p.hs) && !p.hs.MatchingConnectionTokenStart? && !RestOpen(t, [])
  {
    ElementHears(p, t);
    InElementIs(p, t);
    UnfinishedAdds(p, t);
    ElementEnds(p, t);
    AddNone(p.flags);
    AddNone(Add(p.flags, t));
    hide InElement, ValueFlags, Add, AddAll, Unfinished;
  }

  lemma {:induction false} AfterElement(hc: HeadersCallback, p: Parser, n: nat, max: int, t: seq<byte>, es: seq<seq<byte>>)
    requires InElement(p, t) && Elements(es) && Clean(After(es)) && n + |After(es)| <= max
    ensures Said(ExactRun(hc, p, n, max, After(es)), p, n, After(es), Rest(p.flags, t, es), RestOpen(t, es))
    decreases |es|, 3
  {
    hide Open, RestOpen, OpenFrom, Hearing, ExactRun, InElement, ValueFlags, ValueChar, Add, AddAll, Heard, Unfinished,
         Clean, Elements, Commas, Rest;
    if es == [] {
      LastElement(p, t);
      ReadNone(hc, p, n, max);
    } else {
      assert After(es) == [COMMA] + Commas(es);
      hide After;
      InElementIs(p, t);
      CleanParts([COMMA], Commas(es));
      CommaByte();
      CommaRest(p, t, es);
      ReadOne(hc, p, n, max, COMMA);
      if Unfinished(t) {
        Swallowed(hc, ValueChar(p, COMMA), n + 1, max, es);
      } else {
        NextElement(hc, ValueChar(p, COMMA), n + 1, max, es);
      }
      SaidBoth(hc, p, n, max, [COMMA], Commas(es), Rest(p.flags, t, es), RestOpen(t, es));
    }
  }

  lemma CommaRest(p: Parser, t: seq<byte>, es: seq<seq<byte>>)
    requires InElement(p, t) && es != []
    ensures var q := ValueChar(p, COMMA);
      q == p.(hs := q.hs, index := q.index, flags := q.flags)
      && if Unfinished(t) then q.hs.MatchingConnectionToken? && Rest(p.flags, t, es) == AddAll(q.flags, Heard(es[1..], false))
         else AtElement(q) && Rest(p.flags, t, es) == AddAll(q.flags, Heard(es, false))
    ensures RestOpen(t, es) <==> Open(if Unfinished(t) then es[1..] else es, false)
  {
    InElementIs(p, t);
    CommaAfter(p, t);
    hide InElement, ValueChar, Add, AddAll, Heard, Unfinished;
  }

  /** An element that breaks off inside a word says nothing. */
  lemma UnfinishedAdds(p: Parser, t: seq<byte>)
    requires InElement(p, t)
    ensures Unfinished(t) ==> Add(p.flags, t) == p.flags
  {
    ElementWord(p, t);
    hide Says, Unfinished;
  }

  lemma AddNone(f: Flags)
    ensures AddAll(f, []) == f
  {
  }

  lemma CommaPassed(p: Parser)
    requires p.hs.MatchingConnectionToken?
    ensures ValueChar(p, COMMA) == p.(hs := MatchingConnectionTokenStart, index := 0)
  {
  }

  /** A comma after an element that was passed over. */
  lemma {:induction false} AfterSwallowed(hc: HeadersCallback, p: Parser, n: nat, max: int, es: seq<seq<byte>>)
    requires InValue(p) && p.hs.MatchingConnectionToken? && Elements(es) && Clean(After(es)) && n + |After(es)| <= max
    ensures Said(ExactRun(hc, p, n, max, After(es)), p, n, After(es), AddAll(p.flags, Heard(es, false)), Open(es, false))
    decreases |es|, 3
  {
    if es == [] {
      AddNone(p.flags);
      assert Heard(es, false) == [];
      ReadNone(hc, p, n, max);
      hide Open, RestOpen, OpenFrom, Hearing, ExactRun, AddAll;
    } else {
      CommaPassed(p);
      CleanParts([COMMA], Commas(es));
      CommaByte();
      hide ExactRun, ValueFlags, ValueChar, AddAll, Heard, Clean, Elements, Commas;
      ReadOne(hc, p, n, max, COMMA);
      NextElement(hc, ValueChar(p, COMMA), n + 1, max, es);
      SaidBoth(hc, p, n, max, [COMMA], Commas(es), AddAll(p.flags, Heard(es, false)), Open(es, false));
    }
  }

  lemma PassesAll(hs: HeaderState, d: seq<byte>)
    requires hs.MatchingConnectionToken? && NoComma(d)
    ensures forall i | 0 <= i < |d| :: PassesOver(hs, d[i])
  {
  }

  /** The element after one that breaks off inside a word is passed over. */
  lemma {:induction false} Swallowed(hc: HeadersCallback, p: Parser, n: nat, max: int, es: seq<seq<byte>>)
    requires InValue(p) && p.hs.MatchingConnectionToken? && es != [] && Elements(es)
    requires Clean(Commas(es)) && n + |Commas(es)| <= max
    ensures Said(ExactRun(hc, p, n, max, Commas(es)), p, n, Commas(es), AddAll(p.flags, Heard(es[1..], false)),
      Open(es[1..], false))
    decreases |es|, 2
  {
    hide Open, RestOpen, OpenFrom, Hearing, ExactRun, AddAll, Clean, Elements, After, Commas, Heard, ValueFlags,
         PassesOver, NoComma;
    var d, rest := es[0], es[1..];
    CommasSplit(es);
    CleanParts(d, After(rest));
    ElementsTail(es);
    PassesAll(p.hs, d);
    PassRun(hc, p, n, max, d);
    AfterSwallowed(hc, p, n + |d|, max, rest);
    SaidBoth(hc, p, n, max, d, After(rest), AddAll(p.flags, Heard(rest, false)), Open(rest, false));
  }

  /** What is heard from an element on, in terms of the element without its blanks. */
  function HeardFrom(t: seq<byte>, rest: seq<seq<byte>>): seq<seq<byte>> {
    if t == [] || !Begins(t[0]) then []
    else [t] + (if !Unfinished(t) then Heard(rest, false) else if rest == [] then [] else Heard(rest[1..], false))
  }

  predicate OpenFrom(t: seq<byte>, rest: seq<seq<byte>>) {
    if t == [] || !Begins(t[0]) then t == [] && rest == [] else RestOpen(t, rest)
  }

  lemma HeardNext(es: seq<seq<byte>>)
    requires es != []
    ensures Heard(es, false) == HeardFrom(LeftTrim(es[0]), es[1..])
    ensures Open(es, false) <==> OpenFrom(LeftTrim(es[0]), es[1..])
  {
    hide Begins, Unfinished;
    if |es| > 1 {
      assert es[1..][1..] == es[2..];
    }
  }

  lemma TrimmedParts(hs: HeaderState, s: seq<byte>)
    requires hs.MatchingConnectionTokenStart? && NoComma(s) && |LeftTrim(s)| <= |s|
    ensures var i := |s| - |LeftTrim(s)|;
      s == s[..i] + LeftTrim(s) && NoComma(LeftTrim(s)) && forall k | 0 <= k < i :: PassesOver(hs, s[..i][k])
  {
    TrimmedIs(s);
    hide LeftTrim;
    var i := |s| - |LeftTrim(s)|;
    assert s == s[..i] + s[i..] && s[i..] == LeftTrim(s);
    forall k | 0 <= k < i ensures PassesOver(hs, s[..i][k]) {
      assert s[..i][k] == s[k] == SP;
    }
    assert forall k | 0 <= k < |s| - i :: LeftTrim(s)[k] == s[i + k] && s[i + k] in s;
  }

  /** An element after a comma, and all that follow it. */
  lemma {:induction false} NextElement(hc: HeadersCallback, p: Parser, n: nat, max: int, es: seq<seq<byte>>)
    requires AtElement(p) && es != [] && Elements(es) && Clean(Commas(es)) && n + |Commas(es)| <= max
    ensures Said(ExactRun(hc, p, n, max, Commas(es)), p, n, Commas(es), AddAll(p.flags, Heard(es, false)), Open(es, false))
    decreases |es|, 2
  {
    hide Open, RestOpen, OpenFrom, Hearing, ExactRun, AddAll, Clean, Elements, Commas, After, Heard, HeardFrom, LeftTrim,
         NoComma, ValueFlags, PassesOver;
    var s, rest := es[0], es[1..];
    var t := LeftTrim(s);
    ElementsTail(es);
    TrimmedIs(s);
    TrimmedParts(p.hs, s);
    var blanks := s[..|s| - |t|];
    CommasSplit(es);
    assert blanks + t + After(rest) == blanks + (t + After(rest));
    CleanParts(blanks, t + After(rest));
    HeardNext(es);
    PassRun(hc, p, n, max, blanks);
    TrimmedElement(hc, p, n + |blanks|, max, t, rest);
    SaidBoth(hc, p, n, max, blanks, t + After(rest), AddAll(p.flags, Heard(es, false)), Open(es, false));
  }

  lemma {:induction false} TrimmedElement(
      hc: HeadersCallback, p: Parser, n: nat, max: int, t: seq<byte>, rest: seq<seq<byte>>)
    requires AtElement(p) && NoComma(t) && Elements(rest) && (t != [] ==> t[0] != SP)
    requires Clean(t + After(rest)) && n + |t + After(rest)| <= max
    ensures Said(ExactRun(hc, p, n, max, t + After(rest)), p, n, t + After(rest), AddAll(p.flags, HeardFrom(t, rest)),
      OpenFrom(t, rest))
    decreases |rest|, 5
  {
    hide Open, RestOpen, OpenFrom, Hearing, ExactRun, Clean, ValueChar, Begins, After, Commas, Elements, HeardFrom,
         AddAll, InElement, ValueFlags, NoComma;
    if t == [] || !Begins(t[0]) {
      Unheard(hc, p, n, max, t, rest);
    } else {
      var d := t + After(rest);
      var ch := t[0];
      assert d[0] == ch && d[1..] == t[1..] + After(rest) && d == [ch] + d[1..];
      CleanTail(d);
      CleanParts(t[1..], After(rest));
      ElementBegins(p, ch);
      NoCommaTail(t);
      ReadOne(hc, p, n, max, ch);
      BegunElement(hc, ValueChar(p, ch), n + 1, max, t, rest);
      SaidBoth(hc, p, n, max, [ch], d[1..], AddAll(p.flags, HeardFrom(t, rest)), OpenFrom(t, rest));
    }
  }

  lemma NoCommaTail(t: seq<byte>)
    requires t != [] && NoComma(t)
    ensures NoComma(t[1..])
  {
  }

  /** An element that is empty or does not begin like one, and all that follow it, are ignored. */
  lemma Unheard(hc: HeadersCallback, p: Parser, n: nat, max: int, t: seq<byte>, rest: seq<seq<byte>>)
    requires AtElement(p) && (t == [] || (t[0] != SP && !Begins(t[0])))
    requires Clean(t + After(rest)) && n + |t + After(rest)| <= max
    ensures Said(ExactRun(hc, p, n, max, t + After(rest)), p, n, t + After(rest), AddAll(p.flags, HeardFrom(t, rest)),
      OpenFrom(t, rest))
  {
    hide ExactRun, Clean, ValueChar, Begins, Commas, HeardFrom, AddAll, InElement, ValueFlags;
    var d := t + After(rest);
    AddNone(p.flags);
    HeardNothing(t, rest);
    assert d != [] ==> d[0] == COMMA || d[0] == t[0];
    hide After;
    if d == [] {
      FlagsOf(p);
      ReadNone(hc, p, n, max);
    } else {
      var ch := d[0];
      CommaByte();
      assert d == [ch] + d[1..];
      CleanTail(d);
      ElementBegins(p, ch);
      ReadOne(hc, p, n, max, ch);
      var q := ValueChar(p, ch);
      FlagsOf(q);
      assert forall i | 0 <= i < |d[1..]| :: PassesOver(q.hs, d[1..][i]);
      PassRun(hc, q, n + 1, max, d[1..]);
      SaidBoth(hc, p, n, max, [ch], d[1..], p.flags, false);
    }
  }

  lemma HeardNothing(t: seq<byte>, rest: seq<seq<byte>>)
    requires t == [] || !Begins(t[0])
    ensures HeardFrom(t, rest) == []
  {
  }

  lemma FlagsOf(p: Parser)
    requires p.hs.General? || p.hs.MatchingConnectionTokenStart?
    ensures ValueFlags(p) == p.flags
  {
  }

  lemma {:induction false} BegunElement(
      hc: HeadersCallback, q: Parser, n: nat, max: int, t: seq<byte>, rest: seq<seq<byte>>)
    requires t != [] && Begins(t[0]) && InElement(q, [t[0]]) && NoComma(t[1..]) && Elements(rest)
    requires Clean(t[1..]) && Clean(After(rest)) && n + |t[1..] + After(rest)| <= max
    ensures Said(ExactRun(hc, q, n, max, t[1..] + After(rest)), q, n, t[1..] + After(rest), AddAll(q.flags, HeardFrom(t, rest)),
                 OpenFrom(t, rest))
    decreases |rest|, 4
  {
    hide Open, RestOpen, OpenFrom, Hearing, ExactRun, Clean, InElement, Begins, After, Elements, HeardFrom, AddAll,
         NoComma, ValueFlags, Rest;
    InElementIs(q, [t[0]]);
    assert [t[0]] + t[1..] == t;
    ElementRun(hc, q, n, max, [t[0]], t[1..]);
    var e := ExactRun(hc, q, n, max, t[1..]);
    AfterElement(hc, e.p, n + |t[1..]|, max, t, rest);
    RestIsHeard(e.p, t, rest);
    SaidBoth(hc, q, n, max, t[1..], After(rest), Rest(q.flags, t, rest), RestOpen(t, rest));
  }

  lemma RestIsHeard(p: Parser, t: seq<byte>, rest: seq<seq<byte>>)
    requires InElement(p, t) && Begins(t[0])
    ensures Rest(p.flags, t, rest) == AddAll(p.flags, HeardFrom(t, rest)) && (RestOpen(t, rest) <==> OpenFrom(t, rest))
  {
    UnfinishedAdds(p, t);
    InElementIs(p, t);
    assert t != [];
    hide InElement, Unfinished, Begins, Heard, Add;
    var ts := HeardFrom(t, rest);
    assert ts[0] == t;
    assert AddAll(p.flags, ts) == AddAll(Add(p.flags, t), ts[1..]);
  }

  // ---------- the value ----------

  lemma FirstElementByte(hc: HeadersCallback, p: Parser, n: nat, max: int, ch: byte)
    requires p.errno.Ok? && p.state == OnHeader(HeaderValueDiscardWs) && p.hs.HConnection? && !p.lenient
    requires !LineEnd(ch) && ch != SP && ch != HTAB && n + 1 <= max
    ensures var e := ExactByte(hc, p, n, max, ch);
      e == Exact(p.(state := VALUE, index := 0, hs := e.p.hs), n + 1, [Data(Value, [ch])], false)
      && if ch == COMMA then e.p.hs.MatchingConnectionToken? else InElement(e.p, [ch])
  {
    assert Meanings([Touch(Value)], ch) == [Data(Value, [ch])];
    OneLetter(ch);
    assert Lower(COMMA) == COMMA;
    hide Lower, Token, SpellsOut, Spelling, RequestByte, ResponseByte, UrlByte, BodyByte, ChunkSizeByte, StartRequest;
  }

  lemma FirstElement(hc: HeadersCallback, q: Parser, n: nat, max: int, es: seq<seq<byte>>)
    requires InValue(q) && es != [] && Elements(es) && Commas(es) != [] && Clean(Commas(es)) && n + |Commas(es)| <= max + 1
    requires if es[0] == [] then q.hs.MatchingConnectionToken? else InElement(q, es[0][..1])
    ensures var d := Commas(es)[1..]; Said(ExactRun(hc, q, n, max, d), q, n, d, AddAll(q.flags, Heard(es, true)), Open(es, true))
  {
    hide Open, RestOpen, OpenFrom, Hearing, ExactRun, Clean, InElement, Heard, AddAll, ValueFlags, Elements, NoComma,
         Commas, After, Rest;
    var t, rest, v := es[0], es[1..], Commas(es);
    CommasSplit(es);
    CleanTail(v);
    ElementsTail(es);
    if t == [] {
      AfterComma(rest);
      assert rest != [] && v[1..] == Commas(rest);
      EmptyFirst(q.flags, es);
      Swallowed(hc, q, n, max, rest);
    } else {
      assert t == t[..1] + t[1..] && v[1..] == t[1..] + After(rest);
      CleanParts(t[1..], After(rest));
      NoCommaTail(t);
      InElementIs(q, t[..1]);
      ElementRun(hc, q, n, max, t[..1], t[1..]);
      var e := ExactRun(hc, q, n, max, t[1..]);
      AfterElement(hc, e.p, n + |t[1..]|, max, t, rest);
      HeardFirst(q.flags, es);
      SaidBoth(hc, q, n, max, t[1..], After(rest), Rest(q.flags, t, rest), RestOpen(t, rest));
    }
  }

  lemma AfterComma(es: seq<seq<byte>>)
    ensures After(es) == if es == [] then [] else [COMMA] + Commas(es)
  {
  }

  lemma UnfinishedSays(f: Flags, t: seq<byte>)
    requires Unfinished(t)
    ensures Add(f, t) == f
  {
    var j :| Partly(t, j);
    hide SpellsOut;
    forall k: Word
      ensures !Says(t, k)
    {
      if Says(t, k) && t != [] {
        OneWord(t, j, k);
      }
    }
    hide Says;
  }

  lemma NothingUnfinished()
    ensures Unfinished([])
  {
    assert Partly([], CloseWord);
  }

  lemma HeardFirst(f: Flags, es: seq<seq<byte>>)
    requires es != []
    ensures AddAll(f, Heard(es, true)) == Rest(f, es[0], es[1..])
    ensures Open(es, true) <==> RestOpen(es[0], es[1..])
  {
    var t := es[0];
    if Unfinished(t) {
      UnfinishedSays(f, t);
    }
    hide Unfinished, Add;
    var ts := Heard(es, true);
    assert ts[0] == t;
    assert AddAll(f, ts) == AddAll(Add(f, t), ts[1..]);
    if |es| > 1 {
      assert es[1..][1..] == es[2..];
    }
  }

  lemma EmptyFirst(f: Flags, es: seq<seq<byte>>)
    requires |es| > 1 && es[0] == []
    ensures AddAll(f, Heard(es, true)) == AddAll(f, Heard(es[1..][1..], false))
    ensures Open(es, true) <==> Open(es[1..][1..], false)
  {
    HeardFirst(f, es);
    NothingUnfinished();
    hide Unfinished, Heard, AddAll;
  }

  lemma FirstOfList(es: seq<seq<byte>>)
    requires es != [] && Elements(es) && Commas(es) != []
    ensures if es[0] == [] then Commas(es)[0] == COMMA else es[0][..1] == [Commas(es)[0]] && Commas(es)[0] != COMMA
  {
    CommasSplit(es);
    ElementsTail(es);
    hide Commas, Elements;
  }

  /** The flags set by the value of a Connection header are those of the elements heard. */
  lemma ConnectionHeard(hc: HeadersCallback, p: Parser, n: nat, max: int, es: seq<seq<byte>>)
    requires p.errno.Ok? && p.state == OnHeader(HeaderValueDiscardWs) && p.hs.HConnection? && !p.lenient
    requires es != [] && Elements(es)
    requires var v := Commas(es); v != [] && Clean(v) && v[0] != SP && v[0] != HTAB && n + |v| <= max
    ensures var v, e := Commas(es), ExactRun(hc, p, n, max, Commas(es));
      e == Exact(p.(state := VALUE, hs := e.p.hs, index := e.p.index, flags := e.p.flags), n + |v|, Touches(Value, v), false)
      && ValueFlags(e.p) == AddAll(p.flags, Heard(es, true))
      && Hearing(e.p.hs) && (e.p.hs.MatchingConnectionTokenStart? <==> Open(es, true)) && (Open(es, true) ==> e.p.index == 0)
  {
    var v := Commas(es);
    hide ExactRun, ExactByte, Clean, Elements, Commas, Heard, AddAll, ValueFlags, InElement, Open, Hearing;
    CleanTail(v);
    FirstOfList(es);
    FirstElementByte(hc, p, n, max, v[0]);
    ExactStep(hc, p, n, max, v);
    FirstElement(hc, ExactByte(hc, p, n, max, v[0]).p, n + 1, max, es);
  }

  // ---------- what is heard ----------

  /** The element of `es` at `i`, without the blanks before it. */
  function Trimmed(es: seq<seq<byte>>, first: bool): seq<seq<byte>>
    ensures |Trimmed(es, first)| == |es|
  {
    if es == [] then [] else [if first then es[0] else LeftTrim(es[0])] + Trimmed(es[1..], false)
  }

  /** No element but the last breaks off inside a word, and every element after the first begins like one. */
  predicate Regular(es: seq<seq<byte>>, first: bool) {
    es == []
    || (var t := if first then es[0] else LeftTrim(es[0]);
        (first || (t != [] && Begins(t[0]))) && (|es| > 1 ==> !Unfinished(t)) && Regular(es[1..], false))
  }

  /** All elements are heard exactly if the list is regular. */
  lemma {:induction false} AllHeardIff(es: seq<seq<byte>>, first: bool)
    ensures |Heard(es, first)| <= |es|
    ensures Heard(es, first) == Trimmed(es, first) <==> Regular(es, first)
    decreases |es|
  {
    hide Unfinished, Begins, LeftTrim;
    if es != [] {
      AllHeardIff(es[1..], false);
      var t := if first then es[0] else LeftTrim(es[0]);
      var ts := Heard(es, first);
      if |es| > 1 {
        AllHeardIff(es[2..], false);
      }
      if ts != [] {
        assert ts[1..] == if !Unfinished(t) then Heard(es[1..], false) else if |es| > 1 then Heard(es[2..], false) else [];
        assert Trimmed(es, first)[1..] == Trimmed(es[1..], false);
        assert ts[0] == Trimmed(es, first)[0] == t;
        assert ts == [t] + ts[1..] && Trimmed(es, first) == [t] + Trimmed(es, first)[1..];
      }
    }
  }

  predicate Mentions(ts: seq<seq<byte>>, k: Word) { exists i :: 0 <= i < |ts| && Says(ts[i], k) }

  lemma OneSaid(t: seq<byte>, j: Word, k: Word)
    requires Says(t, j) && Says(t, k)
    ensures j == k
  {
    assert t != [];
    OneWord(t, j, k);
  }

  lemma AddMeans(f: Flags, t: seq<byte>)
    ensures Add(f, t) == f.(keepAlive := f.keepAlive || Says(t, KeepAliveWord), close := f.close || Says(t, CloseWord),
                            connectionUpgrade := f.connectionUpgrade || Says(t, UpgradeWord))
  {
    hide Says;
    forall j: Word, k: Word | Says(t, j) && Says(t, k)
      ensures j == k
    {
      OneSaid(t, j, k);
    }
  }

  lemma MentionsStep(ts: seq<seq<byte>>, k: Word)
    requires ts != []
    ensures Mentions(ts, k) <==> Says(ts[0], k) || Mentions(ts[1..], k)
  {
    hide Says;
    if Mentions(ts, k) {
      var i :| 0 <= i < |ts| && Says(ts[i], k);
      assert i > 0 ==> ts[1..][i - 1] == ts[i];
    }
    if Mentions(ts[1..], k) {
      var i :| 0 <= i < |ts[1..]| && Says(ts[1..][i], k);
      assert ts[i + 1] == ts[1..][i];
    }
  }

  /** A flag is set exactly if an element heard says its word. */
  lemma {:induction false} FlagsMean(f: Flags, ts: seq<seq<byte>>)
    ensures AddAll(f, ts)
         == f.(keepAlive := f.keepAlive || Mentions(ts, KeepAliveWord), close := f.close || Mentions(ts, CloseWord),
               connectionUpgrade := f.connectionUpgrade || Mentions(ts, UpgradeWord))
    decreases |ts|
  {
    hide Add, Says;
    if ts != [] {
      FlagsMean(Add(f, ts[0]), ts[1..]);
      AddMeans(f, ts[0]);
      MentionsStep(ts, KeepAliveWord);
      MentionsStep(ts, CloseWord);
      MentionsStep(ts, UpgradeWord);
      hide Mentions;
    }
  }

  const C: byte := 99
  const CLOSE: seq<byte> := [99, 108, 111, 115, 101]

  /** "close" is not heard in "c,close", in "a,,close" or in "a,<tab>close". */
  lemma CloseUnheard()
    ensures Says(CLOSE, CloseWord)
    ensures !Mentions(Heard([[C], CLOSE], true), CloseWord)
    ensures !Mentions(Heard([[97], [], CLOSE], true), CloseWord)
    ensures !Mentions(Heard([[97], [HTAB] + CLOSE], true), CloseWord)
  {
    assert Partly([C], CloseWord);
    OneLetter(97);
    assert Lower(97) == 97;
    assert !Partly([97], KeepAliveWord) && !Partly([97], CloseWord) && !Partly([97], UpgradeWord);
    assert !Unfinished([97]);
    assert [[C], CLOSE][1..] == [CLOSE] && [[C], CLOSE][2..] == [];
    assert Heard([[C], CLOSE], true) == [[C]];
    assert [[97], [], CLOSE][1..] == [[], CLOSE];
    assert LeftTrim([]) == [];
    assert Heard([[97], [], CLOSE], true) == [[97]];
    var tabbed := [HTAB] + CLOSE;
    assert [[97], tabbed][1..] == [tabbed];
    assert LeftTrim(tabbed) == tabbed && Lower(HTAB) == 41;
    assert Heard([[97], tabbed], true) == [[97]];
  }

  // ---------- splitting ----------

  /** The elements of a value. */
  function Split(v: seq<byte>): (es: seq<seq<byte>>)
    ensures es != [] && Elements(es) && Commas(es) == v
  {
    if v == [] then [[]]
    else
      var es := Split(v[1..]);
      if v[0] == COMMA then [[]] + es else [[v[0]] + es[0]] + es[1..]
  }
}
