/** How the cutting of a stream into slices matters to the parser, and how it does not. */
module HttpSlicing {
  import opened HttpTypes
  import opened HttpStep
  import opened HttpEvents
  import opened HttpScan

  type Slices = seq<seq<byte>>

  function Concat(ss: Slices): seq<byte> {
    if ss == [] then [] else ss[0] + Concat(ss[1..])
  }

  predicate NoneEmpty<T>(ss: seq<seq<T>>) { forall i | 0 <= i < |ss| :: ss[i] != [] }

  /** The parser after a sequence of calls; `ok` when every slice was non-empty, read to its end,
      and read without an error. */
  datatype Fed = Fed(p: Parser, nread: nat, out: seq<Event>, ok: bool)

  function Feed(hc: HeadersCallback, p: Parser, nread: nat, ss: Slices): Fed
    decreases |ss|
  {
    if ss == [] then Fed(p, nread, [], true)
    else
      var o := Exec(hc, p, nread, ss[0]);
      if ss[0] == [] || !o.Good() then Fed(o.x.p, o.x.nread, o.out, false)
      else
        var rest := Feed(hc, o.x.p, o.x.nread, ss[1..]);
        rest.(out := o.out + rest.out)
  }

  function Flatten(gs: seq<Slices>): Slices {
    if gs == [] then [] else gs[0] + Flatten(gs[1..])
  }

  function Merge(gs: seq<Slices>): Slices {
    if gs == [] then [] else [Concat(gs[0])] + Merge(gs[1..])
  }

  /** One slice per byte. */
  function Singles(d: seq<byte>): Slices {
    if d == [] then [] else [[d[0]]] + Singles(d[1..])
  }

  // ---------- a coarser cut never refuses what a finer one accepts ----------

  predicate Sound(x: Scan) {
    x.p.errno.Ok?
    && (if x.scanning then x.nread <= MAX_HEADER && (x.p.state == FIELD || x.p.state == VALUE) else x.lag == 0 && !x.skip)
  }

  /** `w` has read the same bytes as `s` in fewer slices: it counted no more and checks no more. */
  predicate Behind(w: Scan, s: Scan) {
    Sound(w) && Sound(s) && w.p == s.p && w.nread + w.lag <= s.nread + s.lag
    && (s.scanning ==> w.scanning) && (s.skip ==> w.skip)
  }

  lemma StepBehind(hc: HeadersCallback, w: Scan, s: Scan, ch: byte)
    requires Behind(w, s) && ScanByte(hc, s, ch).Good()
    ensures var ow, os := ScanByte(hc, w, ch), ScanByte(hc, s, ch);
      ow.Good() && ow.out == os.out && Behind(ow.x, os.x) && ow.x.scanning == os.x.scanning
  {
    hide ByteStep;
  }

  lemma {:induction false} RunBehind(hc: HeadersCallback, w: Scan, s: Scan, data: seq<byte>)
    requires Behind(w, s) && ScanRun(hc, s, data).Good()
    ensures var ow, os := ScanRun(hc, w, data), ScanRun(hc, s, data);
      ow.Good() && ow.out == os.out && Behind(ow.x, os.x) && (data != [] ==> ow.x.scanning == os.x.scanning)
    decreases |data|
  {
    hide ScanByte;
    if data != [] {
      StepBehind(hc, w, s, data[0]);
      RunBehind(hc, ScanByte(hc, w, data[0]).x, ScanByte(hc, s, data[0]).x, data[1..]);
    }
  }

  /** A group of slices read one by one, against the same bytes inside one slice. */
  lemma {:induction false} GroupBehind(hc: HeadersCallback, w: Scan, p: Parser, nread: nat, g: Slices)
    requires Behind(w, Start(p, nread)) && Feed(hc, p, nread, g).ok
    ensures var ow, f := ScanRun(hc, w, Concat(g)), Feed(hc, p, nread, g);
      ow.Good() && ow.out == f.out && Behind(ow.x, Start(f.p, f.nread))
      && (g != [] && ow.x.scanning ==> f.nread <= MAX_HEADER)
    decreases |g|
  {
    hide ScanByte;
    if g != [] {
      var os := ScanRun(hc, Start(p, nread), g[0]);
      var o := ScanEnd(os);
      RunBehind(hc, w, Start(p, nread), g[0]);
      ScanRunAppend(hc, w, g[0], Concat(g[1..]));
      var ow := ScanRun(hc, w, g[0]);
      GroupBehind(hc, ow.x, o.x.p, o.x.nread, g[1..]);
    }
  }

  /** A cut into larger slices accepts whatever a finer cut accepts, with the same parser and the
      same callbacks, and counts no more header bytes. */
  lemma {:induction false} CoarserAccepts(hc: HeadersCallback, p: Parser, nw: nat, ns: nat, gs: seq<Slices>)
    requires p.errno.Ok? && nw <= ns && NoneEmpty(gs)
    requires Feed(hc, p, ns, Flatten(gs)).ok
    ensures var w, s := Feed(hc, p, nw, Merge(gs)), Feed(hc, p, ns, Flatten(gs));
      w.ok && w.p == s.p && w.out == s.out && w.nread <= s.nread
    decreases |gs|
  {
    hide ScanByte, ScanRun;
    if gs != [] {
      var g := gs[0];
      FeedAppend(hc, p, ns, g, Flatten(gs[1..]));
      GroupBehind(hc, Start(p, nw), p, ns, g);
      FeedFirst(hc, p, ns, g);
      var f := Feed(hc, p, ns, g);
      var o := Exec(hc, p, nw, Concat(g));
      CoarserAccepts(hc, f.p, o.x.nread, f.nread, gs[1..]);
    }
  }

  lemma {:induction false} FeedAppend(hc: HeadersCallback, p: Parser, nread: nat, a: Slices, b: Slices)
    ensures var fa := Feed(hc, p, nread, a);
      fa.ok ==>
        var fb := Feed(hc, fa.p, fa.nread, b);
        Feed(hc, p, nread, a + b) == fb.(out := fa.out + fb.out)
    ensures Feed(hc, p, nread, a + b).ok ==> Feed(hc, p, nread, a).ok
    decreases |a|
  {
    hide Exec;
    if a == [] {
      assert a + b == b;
    } else {
      assert (a + b)[0] == a[0] && (a + b)[1..] == a[1..] + b;
      var o := Exec(hc, p, nread, a[0]);
      FeedAppend(hc, o.x.p, o.x.nread, a[1..], b);
    }
  }

  lemma FeedFirst(hc: HeadersCallback, p: Parser, nread: nat, g: Slices)
    requires g != [] && Feed(hc, p, nread, g).ok
    ensures g[0] != [] && Concat(g) != []
  {
  }

  lemma OneGroup(g: Slices)
    requires g != []
    ensures Flatten([g]) == g && Merge([g]) == [Concat(g)] && NoneEmpty([g])
  {
    assert [g][1..] == [];
  }

  /** The same stream, cut in any two ways that are both accepted, leaves the same parser and has
      made the same callbacks. */
  lemma SlicingInvariance(hc: HeadersCallback, p: Parser, nread: nat, a: Slices, b: Slices)
    requires p.errno.Ok? && Concat(a) == Concat(b)
    requires Feed(hc, p, nread, a).ok && Feed(hc, p, nread, b).ok
    ensures Feed(hc, p, nread, a).p == Feed(hc, p, nread, b).p
    ensures Feed(hc, p, nread, a).out == Feed(hc, p, nread, b).out
  {
    if a != [] {
      FeedFirst(hc, p, nread, a);
    }
    if b != [] {
      FeedFirst(hc, p, nread, b);
    }
    hide Feed, Exec;
    if a != [] && b != [] {
      OneGroup(a);
      OneGroup(b);
      CoarserAccepts(hc, p, nread, nread, [a]);
      CoarserAccepts(hc, p, nread, nread, [b]);
    }
  }

  // ---------- which streams every cut accepts ----------

  function SingleGroups(ss: Slices): seq<Slices> {
    if ss == [] then [] else [Singles(ss[0])] + SingleGroups(ss[1..])
  }

  lemma {:induction false} ConcatSingles(d: seq<byte>)
    ensures Concat(Singles(d)) == d
  {
    if d != [] {
      ConcatSingles(d[1..]);
    }
  }

  lemma {:induction false} SinglesAppend(a: seq<byte>, b: seq<byte>)
    ensures Singles(a + b) == Singles(a) + Singles(b)
  {
    if a == [] {
      assert a + b == b;
    } else {
      assert (a + b)[1..] == a[1..] + b;
      SinglesAppend(a[1..], b);
    }
  }

  lemma {:induction false} SingleGroupsFit(ss: Slices)
    requires NoneEmpty(ss)
    ensures Flatten(SingleGroups(ss)) == Singles(Concat(ss)) && Merge(SingleGroups(ss)) == ss
    ensures NoneEmpty(SingleGroups(ss))
  {
    if ss != [] {
      SingleGroupsFit(ss[1..]);
      SinglesAppend(ss[0], Concat(ss[1..]));
      ConcatSingles(ss[0]);
      assert ss[0] != [];
    }
  }

  /** Reading byte by byte is the strictest cut: every cut of a stream into non-empty slices is
      accepted exactly when that one is, and then all of them agree with it. */
  lemma SinglesAreFinest(hc: HeadersCallback, p: Parser, nread: nat, data: seq<byte>)
    requires p.errno.Ok?
    ensures Feed(hc, p, nread, Singles(data)).ok
      <==> forall ss: Slices | Concat(ss) == data && NoneEmpty(ss) ::
             Feed(hc, p, nread, ss).ok
    ensures Feed(hc, p, nread, Singles(data)).ok ==>
      forall ss: Slices | Concat(ss) == data && NoneEmpty(ss) ::
        var f := Feed(hc, p, nread, ss);
        f.p == Feed(hc, p, nread, Singles(data)).p && f.out == Feed(hc, p, nread, Singles(data)).out
  {
    if Feed(hc, p, nread, Singles(data)).ok {
      forall ss: Slices | Concat(ss) == data && NoneEmpty(ss)
        ensures var f := Feed(hc, p, nread, ss);
          f.ok && f.p == Feed(hc, p, nread, Singles(data)).p && f.out == Feed(hc, p, nread, Singles(data)).out
      {
        SingleGroupsFit(ss);
        CoarserAccepts(hc, p, nread, nread, SingleGroups(ss));
      }
    } else {
      ConcatSingles(data);
      SinglesNonEmpty(data);
      assert exists ss: Slices :: Concat(ss) == data && NoneEmpty(ss) && !Feed(hc, p, nread, ss).ok;
    }
  }

  lemma {:induction false} SinglesNonEmpty(d: seq<byte>)
    ensures NoneEmpty(Singles(d))
  {
    if d != [] {
      SinglesNonEmpty(d[1..]);
    }
  }

  // ---------- the condition, on the stream itself ----------

  /** A byte inside a header name or value: where a slice starts with it, the loop is entered again. */
  predicate InLoop(s: State, ch: byte) {
    (s == FIELD && Token(ch) != 0) || (s == VALUE && ch != CR && ch != LF)
  }

  /** Header bytes, each byte inside a header name or value counted twice. */
  function Cost(s: State, ch: byte): nat {
    if !ParsingHeader(s) then 0 else if InLoop(s, ch) then 2 else 1
  }

  /** The unsliced reading that counts this way and demands a header character of every byte of a
      header value but the first. */
  function StrictByte(hc: HeadersCallback, p: Parser, n: nat, ch: byte): Exact {
    if Cost(p.state, ch) > 0 && n + Cost(p.state, ch) > MAX_HEADER then Exact(p.(errno := HeaderOverflow), n, [], false)
    else if p.state == VALUE && !p.lenient && !IsHeaderChar(ch) then Exact(p.(errno := InvalidHeaderToken), n, [], false)
    else
      var s := ByteStep(hc, p, ch);
      if !s.p.errno.Ok? then Exact(s.p, n, [], false)
      else Exact(s.p, if s.reset then 0 else n + Cost(p.state, ch), Meanings(s.cmds, ch), s.leave)
  }

  function StrictRun(hc: HeadersCallback, p: Parser, n: nat, data: seq<byte>): Exact
    decreases |data|
  {
    if data == [] || !p.errno.Ok? then Exact(p, n, [], false)
    else
      var one := StrictByte(hc, p, n, data[0]);
      if !one.Good() then one
      else
        var rest := StrictRun(hc, one.p, one.n, data[1..]);
        rest.(out := one.out + rest.out)
  }

  /** Which bytes keep the parser inside a header name or value, and that those never reset the count. */
  lemma LoopBytes(hc: HeadersCallback, p: Parser, ch: byte)
    requires p.errno.Ok? && (p.state == FIELD || p.state == VALUE) && ByteStep(hc, p, ch).p.errno.Ok?
    ensures var s := ByteStep(hc, p, ch); !s.reset && (s.p.state == p.state <==> InLoop(p.state, ch))
  {
    LoopChars(p, ch);
    hide FieldChar, ValueChar;
  }

  lemma LoopChars(p: Parser, ch: byte)
    ensures ValueChar(p, ch).state == p.state && FieldChar(p, ch, Token(ch)).state == p.state
  {
    hide Token;
  }

  lemma ExecOne(hc: HeadersCallback, p: Parser, nread: nat, ch: byte)
    requires p.errno.Ok?
    ensures Exec(hc, p, nread, [ch]) == ScanEnd(ScanByte(hc, Start(p, nread), ch))
  {
    OneByteRun(hc, Start(p, nread), ch);
    hide ScanByte, ScanRun, ScanEnd;
  }

  /** A slice of one byte. */
  lemma SingleIsStrict(hc: HeadersCallback, p: Parser, nread: nat, ch: byte)
    requires p.errno.Ok?
    ensures var o, e := Exec(hc, p, nread, [ch]), StrictByte(hc, p, nread, ch);
      (o.Good() <==> e.Good()) && (o.Good() ==> o.out == e.out && o.x == Start(e.p, e.n))
  {
    ExecOne(hc, p, nread, ch);
    hide Exec;
    if (p.state == FIELD || p.state == VALUE) && ByteStep(hc, p, ch).p.errno.Ok? {
      LoopBytes(hc, p, ch);
    }
    hide ByteStep;
  }

  lemma OneByteRun(hc: HeadersCallback, x: Scan, ch: byte)
    requires x.p.errno.Ok?
    ensures ScanRun(hc, x, [ch]) == ScanByte(hc, x, ch)
  {
    hide ScanByte;
    assert [ch][1..] == [];
    var one := ScanByte(hc, x, ch);
    assert one.out + [] == one.out;
  }

  lemma {:induction false} SinglesAreStrict(hc: HeadersCallback, p: Parser, nread: nat, data: seq<byte>)
    requires p.errno.Ok?
    ensures var f, e := Feed(hc, p, nread, Singles(data)), StrictRun(hc, p, nread, data);
      (f.ok <==> e.Good()) && (f.ok ==> f.p == e.p && f.out == e.out && f.nread == e.n)
    decreases |data|
  {
    hide Exec, StrictByte;
    if data != [] {
      SingleIsStrict(hc, p, nread, data[0]);
      var e := StrictByte(hc, p, nread, data[0]);
      if e.Good() {
        SinglesAreStrict(hc, e.p, e.n, data[1..]);
      }
    }
  }

  /** Every cut of a stream into non-empty slices is accepted exactly if its unsliced reading, each byte
      inside a header name or value counted twice, stays within the header limit and every byte of a
      header value but the first is a header character; and then all cuts have its outcome. */
  lemma EveryCutAcceptedIff(hc: HeadersCallback, p: Parser, nread: nat, data: seq<byte>)
    requires p.errno.Ok?
    ensures StrictRun(hc, p, nread, data).Good()
      <==> forall ss: Slices | Concat(ss) == data && NoneEmpty(ss) :: Feed(hc, p, nread, ss).ok
    ensures StrictRun(hc, p, nread, data).Good() ==>
      forall ss: Slices | Concat(ss) == data && NoneEmpty(ss) ::
        var f, e := Feed(hc, p, nread, ss), StrictRun(hc, p, nread, data);
        f.p == e.p && f.out == e.out
  {
    hide Feed, StrictRun, Singles;
    SinglesAreStrict(hc, p, nread, data);
    SinglesAreFinest(hc, p, nread, data);
  }

  // ---------- streams within the header limit ----------

  /** `n` header bytes counted exactly, every byte of a header value checked, limit `max`. */
  datatype Exact = Exact(p: Parser, n: nat, out: seq<Event>, left: bool)
  {
    predicate Good() { p.errno.Ok? && !left }
  }

  function ExactByte(hc: HeadersCallback, p: Parser, n: nat, max: int, ch: byte): Exact {
    var n' := if ParsingHeader(p.state) then n + 1 else n;
    if n' > max then Exact(p.(errno := HeaderOverflow), n, [], false)
    else if p.state == VALUE && !p.lenient && !IsHeaderChar(ch) then
      Exact(p.(errno := InvalidHeaderToken), n, [], false)
    else
      var s := ByteStep(hc, p, ch);
      if !s.p.errno.Ok? then Exact(s.p, n, [], false)
      else Exact(s.p, if s.reset then 0 else n', Meanings(s.cmds, ch), s.leave)
  }

  function ExactRun(hc: HeadersCallback, p: Parser, n: nat, max: int, data: seq<byte>): Exact
    decreases |data|
  {
    if data == [] || !p.errno.Ok? then Exact(p, n, [], false)
    else
      var one := ExactByte(hc, p, n, max, data[0]);
      if !one.Good() then one
      else
        var rest := ExactRun(hc, one.p, one.n, max, data[1..]);
        rest.(out := one.out + rest.out)
  }

  lemma ExactNone(hc: HeadersCallback, p: Parser, n: nat, max: int)
    ensures ExactRun(hc, p, n, max, []) == Exact(p, n, [], false)
  {
  }

  /** One byte peeled off. */
  lemma ExactStep(hc: HeadersCallback, p: Parser, n: nat, max: int, data: seq<byte>)
    requires p.errno.Ok? && data != []
    ensures var one := ExactByte(hc, p, n, max, data[0]);
      if one.Good() then
        var rest := ExactRun(hc, one.p, one.n, max, data[1..]);
        ExactRun(hc, p, n, max, data) == rest.(out := one.out + rest.out)
      else ExactRun(hc, p, n, max, data) == one
  {
    hide ExactByte;
  }

  /** `e` counts exactly what `x` counted, except for up to `cuts` bytes that cuts made `x` count twice. */
  predicate Tracks(x: Scan, e: Exact, cuts: nat, max: int) {
    var ahead := if x.scanning then 1 else 0;   // the first byte of a loop is counted before it is consumed
    Sound(x) && e.Good() && x.p == e.p && e.n <= max
    && e.n + ahead <= x.nread + x.lag <= e.n + cuts + ahead
  }

  lemma LoopsDoNotReset(hc: HeadersCallback, p: Parser, ch: byte)
    requires p.state == FIELD || p.state == VALUE
    ensures !ByteStep(hc, p, ch).reset
  {
  }

  lemma StepTracks(hc: HeadersCallback, x: Scan, e: Exact, cuts: nat, max: int, ch: byte)
    requires Tracks(x, e, cuts, max) && max + cuts <= MAX_HEADER
    requires ExactByte(hc, e.p, e.n, max, ch).Good()
    ensures var o, e' := ScanByte(hc, x, ch), ExactByte(hc, e.p, e.n, max, ch);
      o.Good() && o.out == e'.out && Tracks(o.x, e', cuts, max)
  {
    hide ByteStep;
    if x.p.state == FIELD || x.p.state == VALUE {
      LoopsDoNotReset(hc, x.p, ch);
    }
  }

  lemma {:induction false} RunTracks(hc: HeadersCallback, x: Scan, e: Exact, cuts: nat, max: int, data: seq<byte>)
    requires Tracks(x, e, cuts, max) && max + cuts <= MAX_HEADER
    requires ExactRun(hc, e.p, e.n, max, data).Good()
    ensures var o, e' := ScanRun(hc, x, data), ExactRun(hc, e.p, e.n, max, data);
      o.Good() && o.out == e'.out && Tracks(o.x, e', cuts, max)
    decreases |data|
  {
    hide ScanByte, ExactByte;
    if data != [] {
      StepTracks(hc, x, e, cuts, max, data[0]);
      RunTracks(hc, ScanByte(hc, x, data[0]).x, ExactByte(hc, e.p, e.n, max, data[0]), cuts, max, data[1..]);
    }
  }

  /** Nothing is read after an error, or after the parser has stopped. */
  lemma {:induction false} RestUnread(hc: HeadersCallback, p: Parser, n: nat, max: int, a: seq<byte>, b: seq<byte>)
    requires p.errno.Ok? && !ExactRun(hc, p, n, max, a).Good()
    ensures ExactRun(hc, p, n, max, a + b) == ExactRun(hc, p, n, max, a)
    decreases |a|
  {
    hide ExactByte;
    if a != [] {
      assert (a + b)[0] == a[0] && (a + b)[1..] == a[1..] + b;
      var one := ExactByte(hc, p, n, max, a[0]);
      if one.Good() {
        RestUnread(hc, one.p, one.n, max, a[1..], b);
      }
    }
  }

  lemma {:induction false} ExactRunAppend(hc: HeadersCallback, p: Parser, n: nat, max: int, a: seq<byte>, b: seq<byte>)
    requires p.errno.Ok?
    ensures var ea := ExactRun(hc, p, n, max, a);
      ea.Good() ==>
        var eb := ExactRun(hc, ea.p, ea.n, max, b);
        ExactRun(hc, p, n, max, a + b) == eb.(out := ea.out + eb.out)
    ensures ExactRun(hc, p, n, max, a + b).Good() ==> ExactRun(hc, p, n, max, a).Good()
    decreases |a|
  {
    hide ExactByte;
    if a == [] {
      assert a + b == b;
    } else {
      assert (a + b)[0] == a[0] && (a + b)[1..] == a[1..] + b;
      var one := ExactByte(hc, p, n, max, a[0]);
      if one.Good() {
        ExactRunAppend(hc, one.p, one.n, max, a[1..], b);
      }
    }
  }

  lemma {:induction false} FeedTracks(
      hc: HeadersCallback, p: Parser, nread: nat, n: nat, cuts: nat, max: int, ss: Slices)
    requires p.errno.Ok? && n <= nread <= n + cuts && n <= max && max + cuts + |ss| <= MAX_HEADER
    requires NoneEmpty(ss) && ExactRun(hc, p, n, max, Concat(ss)).Good()
    ensures var f, e := Feed(hc, p, nread, ss), ExactRun(hc, p, n, max, Concat(ss));
      f.ok && f.p == e.p && f.out == e.out && e.n <= f.nread <= e.n + cuts + |ss|
    decreases |ss|
  {
    hide ScanByte, ExactByte;
    if ss != [] {
      var d := ss[0];
      ExactRunAppend(hc, p, n, max, d, Concat(ss[1..]));
      RunTracks(hc, Start(p, nread), Exact(p, n, [], false), cuts, max, d);
      var o := Exec(hc, p, nread, d);
      var e := ExactRun(hc, p, n, max, d);
      assert o.x.nread <= e.n + cuts + 1;
      FeedTracks(hc, o.x.p, o.x.nread, e.n, cuts + 1, max, ss[1..]);
    }
  }

  /** A stream that the exact counter accepts with one byte to spare per slice, and whose header
      values hold only header characters, is accepted in that cut, with the same result; the byte
      counter is over by at most one per slice. */
  lemma CutsWithinLimitAccepted(hc: HeadersCallback, p: Parser, nread: nat, ss: Slices)
    requires p.errno.Ok? && NoneEmpty(ss) && nread + |ss| <= MAX_HEADER
    requires ExactRun(hc, p, nread, MAX_HEADER - |ss|, Concat(ss)).Good()
    ensures var f, e := Feed(hc, p, nread, ss), ExactRun(hc, p, nread, MAX_HEADER - |ss|, Concat(ss));
      f.ok && f.p == e.p && f.out == e.out && e.n <= f.nread <= e.n + |ss|
  {
    hide ExactRun, Feed, Concat;
    FeedTracks(hc, p, nread, nread, 0, MAX_HEADER - |ss|, ss);
  }
}
