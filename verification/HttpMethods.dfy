/** The methods a request line can name: the letter-by-letter guessing of the parser accepts
    exactly the names in its table. */
module HttpMethods {
  import opened HttpTypes
  import opened HttpStep
  import opened HttpEvents
  import opened HttpSlicing
  import opened HttpChunked

  /** `w` is the beginning of `name`. */
  predicate Begins(w: seq<byte>, name: string) {
    |w| <= |name| && forall i | 0 <= i < |w| :: w[i] == name[i] as int
  }

  predicate Names(w: seq<byte>, name: string) { |w| == |name| && Begins(w, name) }

  /** The names of `m` and `r` agree before position `i`, where that of `r` has `c`. */
  predicate Branches(m: Method, i: nat, c: char, r: Method) {
    i < |MethodString(m)| && i < |MethodString(r)| && MethodString(r)[i] == c
    && forall k | 0 <= k < i :: MethodString(r)[k] == MethodString(m)[k]
  }

  lemma PostBranches()
    ensures Branches(POST, 1, 'U', PUT)
    ensures Branches(POST, 1, 'A', PATCH)
    ensures Branches(POST, 1, 'R', PROPFIND)
  {
  }

  lemma OthersBranchAt1()
    ensures Branches(CONNECT, 1, 'H', CHECKOUT)
    ensures Branches(SUBSCRIBE, 1, 'E', SEARCH)
    ensures Branches(LOCK, 1, 'I', LINK)
  {
  }

  lemma MkcolBranches()
    ensures Branches(MKCOL, 1, 'O', MOVE)
    ensures Branches(MKCOL, 1, 'E', MERGE)
    ensures Branches(MKCOL, 1, '-', MSEARCH)
  {
  }

  lemma SomeBranchAt2()
    ensures Branches(CONNECT, 2, 'P', COPY)
    ensures Branches(MKCOL, 2, 'A', MKACTIVITY)
    ensures Branches(REPORT, 2, 'B', REBIND)
  {
  }

  lemma OthersBranchAt2()
    ensures Branches(PUT, 2, 'R', PURGE)
    ensures Branches(UNLOCK, 2, 'S', UNSUBSCRIBE)
    ensures Branches(UNLOCK, 2, 'B', UNBIND)
  {
  }

  lemma BranchesLater()
    ensures Branches(MKCOL, 3, 'A', MKCALENDAR) && Branches(UNLOCK, 3, 'I', UNLINK) && Branches(PROPFIND, 4, 'P', PROPPATCH)
  {
  }

  /** A switch to another method keeps the letters read. */
  lemma OtherMethodBranches(m: Method, i: nat, c: char)
    ensures var r := OtherMethod(m, i, c); r.Picked? ==> Branches(m, i, c, r.m)
  {
    hide Branches;
    PostBranches();
    OthersBranchAt1();
    MkcolBranches();
    SomeBranchAt2();
    OthersBranchAt2();
    BranchesLater();
  }

  /** Between letters, what has been read begins the name of the method recorded. */
  predicate MethodBegun(p: Parser, w: seq<byte>) {
    p.state == OnRequest(ReqMethod) && p.index == |w| && Begins(w, MethodString(p.verb))
  }

  /** One letter more, of the same name or of one that branches off there. */
  lemma BegunMore(w: seq<byte>, m: Method, r: Method, ch: byte)
    requires Begins(w, MethodString(m)) && (Branches(m, |w|, ch as char, r)
      || (r == m && |w| < |MethodString(m)| && MethodString(m)[|w|] as int == ch))
    ensures Begins(w + [ch], MethodString(r))
  {
    hide MethodString;
  }

  lemma NoSpaceInName(m: Method)
    ensures ' ' !in MethodString(m)
  {
  }

  lemma MethodLetter(p: Parser, w: seq<byte>, ch: byte)
    requires p.errno.Ok? && MethodBegun(p, w)
    ensures var s := MethodByte(p, ch);
      s.p.errno.Ok? ==>
        if ch == SP then s.p.state == OnRequest(ReqSpacesBeforeUrl) && s.p.verb == p.verb && Names(w, MethodString(p.verb))
        else MethodBegun(s.p, w + [ch])
  {
    hide OtherMethod, MethodString;
    NoSpaceInName(p.verb);
    OtherMethodBranches(p.verb, p.index, ch as char);
    MkcolBranches();
    var s := MethodByte(p, ch);
    if s.p.errno.Ok? && ch != SP {
      BegunMore(w, p.verb, s.p.verb, ch);
    }
  }

  // ---------- every name is recognized ----------

  /** A method is guessed from its first letter, or from letter `at` of another method's name. */
  datatype Origin = FirstLetter | From(m: Method, at: nat)

  function OriginOf(m: Method): Origin {
    match m
    case PUT => From(POST, 1) case PATCH => From(POST, 1) case PROPFIND => From(POST, 1)
    case PROPPATCH => From(PROPFIND, 4) case PURGE => From(PUT, 2)
    case CHECKOUT => From(CONNECT, 1) case COPY => From(CONNECT, 2)
    case MOVE => From(MKCOL, 1) case MERGE => From(MKCOL, 1) case MSEARCH => From(MKCOL, 1)
    case MKACTIVITY => From(MKCOL, 2) case MKCALENDAR => From(MKCOL, 3)
    case SEARCH => From(SUBSCRIBE, 1) case REBIND => From(REPORT, 2) case LINK => From(LOCK, 1)
    case UNSUBSCRIBE => From(UNLOCK, 2) case UNBIND => From(UNLOCK, 2) case UNLINK => From(UNLOCK, 3)
    case _ => FirstLetter
  }

  function Depth(m: Method): nat {
    var o := OriginOf(m);
    if o.From? then o.at else 0
  }

  lemma OriginEarlier(m: Method)
    requires OriginOf(m).From?
    ensures Depth(OriginOf(m).m) < Depth(m)
  {
  }

  /** The method the parser has recorded after `i` letters of the name of `m`. */
  function Guess(m: Method, i: nat): Method
    decreases Depth(m)
  {
    var o := OriginOf(m);
    if o.FirstLetter? || i > o.at then m else OriginEarlier(m); Guess(o.m, i)
  }

  /** Letter `c` at position `i` moves the guess from `g` to `r`. */
  predicate Moves(g: Method, i: nat, c: char, r: Method) {
    i < |MethodString(g)|
    && if MethodString(g)[i] == c then r == g
       else OtherMethod(g, i, c) == Picked(r) || (c == '-' && g == MKCOL && i == 1 && r == MSEARCH)
  }

  lemma OriginBranches(m: Method)
    requires OriginOf(m).From?
    ensures var o := OriginOf(m); o.at < |MethodString(m)| && Branches(o.m, o.at, MethodString(m)[o.at], m)
  {
    PostBranches();
    OthersBranchAt1();
    MkcolBranches();
    SomeBranchAt2();
    OthersBranchAt2();
    BranchesLater();
    hide MethodString;
  }

  lemma OriginMoves(m: Method)
    requires OriginOf(m).From?
    ensures var o := OriginOf(m);
      o.at < |MethodString(m)| && Moves(o.m, o.at, MethodString(m)[o.at], m) && Guess(o.m, o.at) == o.m
  {
    OriginBranches(m);
  }

  /** Each letter of the name of `m` moves the guess on. */
  lemma {:induction false} GuessMoves(m: Method, i: nat)
    requires i < |MethodString(m)|
    ensures Moves(Guess(m, i), i, MethodString(m)[i], Guess(m, i + 1))
    decreases Depth(m)
  {
    hide MethodString, OtherMethod;
    var o := OriginOf(m);
    if o.From? && i <= o.at {
      OriginBranches(m);
      OriginEarlier(m);
      if i == o.at {
        OriginMoves(m);
      } else {
        GuessMoves(o.m, i);
      }
    }
  }

  lemma GuessDone(m: Method)
    ensures Guess(m, |MethodString(m)|) == m && (OriginOf(m).From? ==> OriginOf(m).at >= 1)
  {
  }

  lemma LettersPrintable(m: Method)
    ensures forall k | 0 <= k < |MethodString(m)| :: 32 < MethodString(m)[k] as int < 128
  {
  }

  // ---------- a request line up to the space after the method ----------

  /** The parser after method `m` and the space that ends it. */
  function Named(p: Parser, m: Method): Parser {
    p.(verb := m, index := |MethodString(m)| + 1, state := OnRequest(ReqSpacesBeforeUrl),
       flags := NO_FLAGS, contentLength := ULLONG_MAX)
  }

  lemma PicksAreLetters(m: Method, i: nat, c: char)
    ensures OtherMethod(m, i, c).Picked? ==> 'A' <= c <= 'Z'
  {
  }

  lemma MoveStep(p: Parser, c: char, r: Method)
    requires Moves(p.verb, p.index, c, r) && 32 < c as int < 128
    ensures MethodByte(p, c as int) == Stay(p.(verb := r, index := p.index + 1))
  {
    PicksAreLetters(p.verb, p.index, c);
    hide MethodString, OtherMethod;
    assert c as int as char == c;
  }

  lemma LetterStep(p: Parser, w: seq<byte>, m: Method, i: nat)
    requires p.state == OnRequest(ReqMethod) && Names(w, MethodString(m)) && i < |w| && p.index == i && p.verb == Guess(m, i)
    ensures MethodByte(p, w[i]) == Stay(p.(verb := Guess(m, i + 1), index := i + 1))
  {
    hide MethodString, Guess, OtherMethod, MethodByte, Moves;
    GuessMoves(m, i);
    LettersPrintable(m);
    MoveStep(p, MethodString(m)[i], Guess(m, i + 1));
  }

  lemma NameEnds(p: Parser, m: Method)
    requires p.state == OnRequest(ReqMethod) && p.verb == m && p.index == |MethodString(m)|
    ensures MethodByte(p, SP) == Stay(p.(state := OnRequest(ReqSpacesBeforeUrl), index := p.index + 1))
  {
  }

  lemma {:induction false} LettersRun(hc: HeadersCallback, p: Parser, n: nat, max: int, w: seq<byte>, m: Method, i: nat)
    requires p.errno.Ok? && p.state == OnRequest(ReqMethod) && Names(w, MethodString(m))
    requires i <= |w| && p.index == i && p.verb == Guess(m, i) && n + |w| - i + 1 <= max
    ensures ExactRun(hc, p, n, max, w[i..] + [SP])
         == Exact(p.(verb := m, index := |w| + 1, state := OnRequest(ReqSpacesBeforeUrl)), n + |w| - i + 1, [], false)
    decreases |w| - i
  {
    hide MethodString, MethodByte, Guess, ExactRun, ExactByte;
    if i == |w| {
      GuessDone(m);
      NameEnds(p, m);
      MethodStep(hc, p, n, max, SP);
      assert w[i..] + [SP] == [SP];
      RunOne(hc, p, n, max, SP);
    } else {
      var d := w[i..] + [SP];
      assert d[0] == w[i] && d[1..] == w[i + 1..] + [SP];
      LetterStep(p, w, m, i);
      MethodStep(hc, p, n, max, w[i]);
      ExactStep(hc, p, n, max, d);
      LettersRun(hc, p.(verb := Guess(m, i + 1), index := i + 1), n + 1, max, w, m, i + 1);
    }
  }

  /** A letter the method comparison takes. */
  lemma MethodStep(hc: HeadersCallback, p: Parser, n: nat, max: int, ch: byte)
    requires p.errno.Ok? && p.state == OnRequest(ReqMethod) && n + 1 <= max
    requires var q := MethodByte(p, ch).p; q.errno.Ok? && MethodByte(p, ch) == Stay(q)
    ensures ExactByte(hc, p, n, max, ch) == Exact(MethodByte(p, ch).p, n + 1, [], false)
  {
    hide MethodByte;
    assert Meanings([], ch) == [];
  }

  /** The letters `d` after `w`, up to a space, are accepted only if they complete a name. */
  lemma {:induction false} LettersRead(hc: HeadersCallback, p: Parser, n: nat, max: int, w: seq<byte>, d: seq<byte>)
    requires p.errno.Ok? && MethodBegun(p, w) && SP !in d
    ensures var e := ExactRun(hc, p, n, max, d + [SP]);
      e.Good() ==> exists m :: Names(w + d, MethodString(m))
    decreases |d|
  {
    hide MethodString, MethodByte, Begins;
    if d == [] {
      MethodLetter(p, w, SP);
      assert d + [SP] == [SP] && w + d == w;
    } else {
      var t := d + [SP];
      assert t[0] == d[0] && t[1..] == d[1..] + [SP];
      MethodLetter(p, w, d[0]);
      var one := ExactByte(hc, p, n, max, d[0]);
      if one.Good() {
        LettersRead(hc, one.p, one.n, max, w + [d[0]], d[1..]);
        assert w + [d[0]] + d[1..] == w + d;
      }
    }
  }

  lemma FirstLetterKept(m: Method)
    ensures MethodString(Guess(m, 1))[0] == MethodString(m)[0] && OriginOf(Guess(m, 1)).FirstLetter?
    decreases Depth(m)
  {
    if OriginOf(m).From? {
      OriginBranches(m);
      OriginEarlier(m);
      FirstLetterKept(OriginOf(m).m);
      GuessDone(m);
    }
  }

  lemma FirstLetterGuess(p: Parser, m: Method)
    requires OriginOf(m).FirstLetter?
    ensures StartRequest(p, MethodString(m)[0] as int)
         == Begin(p.(flags := NO_FLAGS, contentLength := ULLONG_MAX, index := 1), m)
  {
  }

  /** The method guessed from a first letter starts with it. */
  lemma FirstLetters(p: Parser, ch: byte)
    ensures var s := StartRequest(p, ch);
      s.p.state == OnRequest(ReqMethod) && p.state != s.p.state ==> MethodString(s.p.verb)[0] as int == ch
  {
    hide IsAlpha;
  }

  lemma FirstLetterBegins(p: Parser, ch: byte)
    requires p.errno.Ok? && p.state != OnRequest(ReqMethod) && ch != CR && ch != LF
    ensures var s := StartRequest(p, ch); s.p.errno.Ok? ==> MethodBegun(s.p, [ch]) && !s.leave
  {
    FirstLetters(p, ch);
    hide MethodString, IsAlpha;
  }

  /** A method is accepted exactly if it is one of the names of the table, letter for letter, and
      it is then the one recorded. */
  lemma MethodAcceptedIff(hc: HeadersCallback, p: Parser, n: nat, max: int, w: seq<byte>)
    requires p.errno.Ok? && p.state == StartReq && n + |w| + 1 <= max
    requires w != [] && SP !in w && w[0] != CR && w[0] != LF
    ensures ExactRun(hc, p, n, max, w + [SP]).Good() <==> exists m :: Names(w, MethodString(m))
    ensures forall m | Names(w, MethodString(m)) ::
      ExactRun(hc, p, n, max, w + [SP]) == Exact(Named(p, m), n + |w| + 1, [Notify(MessageBegin)], false)
  {
    var d := w + [SP];
    assert d[0] == w[0] && d[1..] == w[1..] + [SP] && [w[0]] + w[1..] == w;
    forall m | Names(w, MethodString(m))
      ensures ExactRun(hc, p, n, max, d) == Exact(Named(p, m), n + |w| + 1, [Notify(MessageBegin)], false)
    {
      MethodRun(hc, p, n, max, w, m);
    }
    hide MethodString, StartRequest, Begins;
    FirstLetterBegins(p, w[0]);
    var one := ExactByte(hc, p, n, max, w[0]);
    if one.Good() {
      LettersRead(hc, one.p, one.n, max, [w[0]], w[1..]);
    }
  }

  lemma FirstByte(hc: HeadersCallback, p: Parser, n: nat, max: int, ch: byte, q: Parser, m: Method)
    requires p.errno.Ok? && p.state == StartReq && n + 1 <= max && q.errno.Ok? && StartRequest(p, ch) == Begin(q, m)
    ensures ExactByte(hc, p, n, max, ch)
         == Exact(q.(verb := m, state := OnRequest(ReqMethod)), n + 1, [Notify(MessageBegin)], false)
  {
    hide StartRequest, RequestByte, ResponseByte, UrlByte, HeaderByte, BodyByte, ChunkSizeByte;
    assert Meanings([Call(MessageBegin)], ch) == [Notify(MessageBegin)];
  }

  lemma MethodRun(hc: HeadersCallback, p: Parser, n: nat, max: int, w: seq<byte>, m: Method)
    requires p.errno.Ok? && p.state == StartReq && n + |w| + 1 <= max && Names(w, MethodString(m))
    ensures ExactRun(hc, p, n, max, w + [SP]) == Exact(Named(p, m), n + |w| + 1, [Notify(MessageBegin)], false)
  {
    FirstLetterKept(m);
    var g := Guess(m, 1);
    FirstLetterGuess(p, g);
    hide MethodString, Guess, ExactRun, ExactByte, StartRequest;
    FirstByte(hc, p, n, max, w[0], p.(flags := NO_FLAGS, contentLength := ULLONG_MAX, index := 1), g);
    var d := w + [SP];
    assert d[0] == w[0] == MethodString(Guess(m, 1))[0] as int && d[1..] == w[1..] + [SP];
    ExactStep(hc, p, n, max, d);
    LettersRun(hc, ExactByte(hc, p, n, max, w[0]).p, n + 1, max, w, m, 1);
  }
}
