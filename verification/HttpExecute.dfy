/** http_parser_execute as it is written: one call walks a slice with its inner loops and bulk
    jumps, keeps the data marks and makes the callbacks. It is proved against HttpScan. */
module HttpExecute {
  import opened HttpTypes
  import opened HttpStep
  import opened HttpEvents
  import opened HttpScan
  import opened HttpInvariant
  import opened HttpLoops
  import opened HttpMarks
  import opened HttpFlow

  /** The first `what` among the `limit` bytes from `at`, or -1. */
  method Memchr(d: seq<byte>, at: nat, limit: nat, what: byte) returns (i: int)
    requires at + limit <= |d|
    ensures i == -1 ==> forall j | at <= j < at + limit :: d[j] != what
    ensures i != -1 ==> at <= i < at + limit && d[i] == what && forall j | at <= j < i :: d[j] != what
  {
    i := at;
    while i < at + limit
      invariant at <= i <= at + limit
      invariant forall j | at <= j < i :: d[j] != what
    {
      if d[i] == what {
        return;
      }
      i := i + 1;
    }
    i := -1;
  }

  /** The jump of state h_general: to the first line end, or to the end of the slice when the window
      of HTTP_MAX_HEADER_SIZE bytes holds none. */
  method SkipToLineEnd(d: seq<byte>, at: nat) returns (p: nat)
    requires at < |d|
    ensures at <= p <= |d|
    ensures p < |d| ==> LineEnd(d[p]) && NoLineEnd(d[at..p])
    ensures p == |d| ==> NoLineEnd(d[at..]) || (|d| - at > MAX_HEADER && NoLineEnd(d[at..][..MAX_HEADER]))
  {
    var limit := if |d| - at < MAX_HEADER then |d| - at else MAX_HEADER;
    var cr := Memchr(d, at, limit, CR);
    var lf := Memchr(d, at, limit, LF);
    if cr != -1 {
      p := if lf != -1 && cr >= lf then lf else cr;
    } else if lf != -1 {
      p := lf;
    } else {
      p := |d|;
    }
  }

  /** `r` is what remained to be read of the slice; `out` and `used` bytes of it are done. */
  ghost predicate Reached(hc: HeadersCallback, r: Outcome, out: seq<Event>, used: nat, rec: Parser, nread: nat, rest: seq<byte>) {
    if rec.errno.Ok? then Agree(r, Later(out, used, Rest(hc, Start(rec, nread), rest)))
    else r.x.p.errno == rec.errno
  }

  /** s_header_field: the loop over a header name. The byte at `from` is counted already. */
  method FieldLoop(ghost hc: HeadersCallback, rec0: Parser, nread0: nat, data: seq<byte>, from: nat, marks0: Marks,
                   ghost before: seq<Event>, ghost owed: seq<Event>)
    returns (rec: Parser, nread: nat, p: nat, marks: Marks, events: seq<Event>, ghost out: seq<Event>)
    requires Valid(rec0) && rec0.errno.Ok? && rec0.state == FIELD && from < |data|
    requires Settled(before, marks0, Some(Field), data, from, owed)
    ensures from <= p <= |data|
    ensures Reached(hc, Rest(hc, Scan(rec0, nread0, true, 0, false), data[from..]), out, p - from, rec, nread, data[p..])
    ensures rec.errno.Ok? ==>
      Valid(rec) && from < p && rec.state != OnChunkSize(ChunkSizeStart)
      && Settled(before + events, marks, KindOf(rec.state), data, p, owed + out)
  {
    hide FieldChar, Rest, Settled, Touches, Valid, MarksFit;
    rec, nread, p, marks, events := rec0, nread0, from, marks0, [];
    ghost var all := Rest(hc, Scan(rec0, nread0, true, 0, false), data[from..]);
    NothingYet(Field, data, from, all);
    while p < |data| && Token(data[p]) != 0
      invariant from <= p <= |data|
      invariant Valid(rec) && rec == rec0.(index := rec.index, hs := rec.hs)
      invariant all == Later(Touches(Field, data[from..p]), p - from,
                             Rest(hc, Scan(rec, nread0, true, p - from, false), data[p..]))
    {
      FieldAdvance(hc, all, rec, nread, data, from, p);
      NameStaysValid(rec, data[p], Token(data[p]));
      rec := FieldChar(rec, data[p], Token(data[p]));
      p := p + 1;
    }
    FieldCloses(hc, all, rec, nread, data, from, p);
    LoopSettles(Field, data, from, p, marks, before, owed);
    out := Touches(Field, data[from..p]);
    nread := nread + (p - from);
    if nread > MAX_HEADER {
      rec := rec.(errno := HeaderOverflow);
    } else if p == |data| {
      assert before + events == before;
    } else if data[p] == ':' as int {
      PlaceValid(rec, HeaderValueDiscardWs);
      LoopCloses(Field, data, p, marks, before, owed, out);
      rec := rec.(state := OnHeader(HeaderValueDiscardWs));
      events := [Data(Field, data[marks[Field]..p])];
      marks := marks - {Field};
      out := out + [Data(Field, [])];
      p := p + 1;
    } else {
      rec := rec.(errno := InvalidHeaderToken);
    }
  }

  lemma NameStaysValid(rec: Parser, ch: byte, c: byte)
    requires Valid(rec) && rec.state == FIELD
    ensures var q := FieldChar(rec, ch, c); Valid(q) && q == rec.(index := q.index, hs := q.hs)
  {
    FieldCharKeeps(rec, ch, c);
    hide FieldChar;
  }

  lemma ValueStaysValid(rec: Parser, ch: byte)
    requires Valid(rec) && rec.errno.Ok? && rec.state == VALUE
    requires !LineEnd(ch) && (rec.lenient || IsHeaderChar(ch))
    ensures var q := ValueChar(rec, ch); q.errno.Ok? ==> Valid(q)
  {
    ValueKeeps(rec, ch);
    hide ValueChar;
  }

  lemma PlaceValid(rec: Parser, h: HeaderPlace)
    requires Valid(rec) && rec.state.OnHeader? && !h.HeadersDone? && !h.HeaderField? && !h.HeaderValue?
    ensures Valid(rec.(state := OnHeader(h)))
  {
  }

  lemma TouchOne(k: DataKind, ch: byte)
    ensures Touches(k, [ch]) == [Data(k, [ch])]
  {
    assert [ch][1..] == [];
    assert Touches(k, [ch]) == [Data(k, [ch])] + Touches(k, []);
  }

  lemma NothingYet(k: DataKind, data: seq<byte>, from: nat, o: Outcome)
    requires from <= |data|
    ensures Touches(k, data[from..from]) == [] && Later([], 0, o) == o
  {
    assert data[from..from] == [];
    assert [] + o.out == o.out;
  }

  /** The bytes of a loop belong to its data. */
  lemma LoopSettles(k: DataKind, data: seq<byte>, from: nat, p: nat, marks: Marks, before: seq<Event>, owed: seq<Event>)
    requires from <= p <= |data| && Settled(before, marks, Some(k), data, from, owed) && !k.Body?
    ensures Settled(before, marks, Some(k), data, p, owed + Touches(k, data[from..p]))
    ensures k in marks && marks[k] <= from
  {
    if p > from {
      TouchSettles(before, marks, Some(k), k, data, from, p, owed);
    } else {
      assert data[from..p] == [];
      assert owed + Touches(k, data[from..p]) == owed;
    }
  }

  /** The callback at the end of a loop. */
  lemma LoopCloses(k: DataKind, data: seq<byte>, p: nat, marks: Marks, before: seq<Event>, owed: seq<Event>, out: seq<Event>)
    requires p < |data| && Settled(before, marks, Some(k), data, p, owed + out) && k in marks
    ensures marks[k] <= p
    ensures Settled(before + [Data(k, data[marks[k]..p])], marks - {k}, NoData, data, p + 1, owed + (out + [Data(k, [])]))
  {
    CloseSettles(before, marks, k, data, p, owed + out);
    assert owed + out + [Data(k, [])] == owed + (out + [Data(k, [])]);
    var done := before + [Data(k, data[marks[k]..p])];
    assert done + [] == done;
  }

  /** What the scan says when the loop over a header name ends. */
  lemma FieldCloses(hc: HeadersCallback, all: Outcome, rec: Parser, nread: nat, data: seq<byte>, from: nat, p: nat)
    requires from < |data| && from <= p <= |data| && (p < |data| ==> Token(data[p]) == 0)
    requires rec.errno.Ok? && rec.state == FIELD
    requires all == Later(Touches(Field, data[from..p]), p - from,
                          Rest(hc, Scan(rec, nread, true, p - from, false), data[p..]))
    ensures var out := Touches(Field, data[from..p]);
      var n := nread + (p - from);
      if n > MAX_HEADER then all.x.p.errno == HeaderOverflow
      else if p == |data| then all == Later(out, p - from, Rest(hc, Start(rec, n), data[p..]))
      else if data[p] == ':' as int then
        all == Later(out + [Data(Field, [])], p + 1 - from,
                     Rest(hc, Start(rec.(state := OnHeader(HeaderValueDiscardWs)), n), data[p + 1..]))
      else all.x.p.errno == InvalidHeaderToken
  {
    hide Rest, Touches;
    var out, x := Touches(Field, data[from..p]), Scan(rec, nread, true, p - from, false);
    if p < |data| {
      FieldEnd(hc, x, data[p..]);
      assert data[p..][1..] == data[p + 1..];
      var rec' := rec.(state := OnHeader(HeaderValueDiscardWs));
      LaterLater(out, p - from, [Data(Field, [])], 1, Rest(hc, Start(rec', nread + (p - from)), data[p + 1..]));
    } else {
      assert data[p..] == [];
      SliceEnd(hc, x);
      SliceOver(hc, rec, nread + (p - from));
    }
  }

  /** At the end of a slice nothing remains outside the loops. */
  lemma SliceOver(hc: HeadersCallback, p: Parser, nread: nat)
    ensures Rest(hc, Start(p, nread), []) == Outcome(Start(p, nread), [], 0, false)
  {
  }

  lemma FieldAdvance(hc: HeadersCallback, all: Outcome, rec: Parser, nread: nat, data: seq<byte>, from: nat, p: nat)
    requires from <= p < |data| && Token(data[p]) != 0
    requires rec.errno.Ok? && rec.state == FIELD && Valid(rec)
    requires all == Later(Touches(Field, data[from..p]), p - from,
                          Rest(hc, Scan(rec, nread, true, p - from, false), data[p..]))
    ensures var rec' := FieldChar(rec, data[p], Token(data[p]));
      all == Later(Touches(Field, data[from..p + 1]), p + 1 - from,
                   Rest(hc, Scan(rec', nread, true, p + 1 - from, false), data[p + 1..]))
  {
    hide FieldChar, NameFits, Rest, Touches, ScanByte;
    var x := Scan(rec, nread, true, p - from, false);
    FieldCharKeeps(rec, data[p], Token(data[p]));
    FieldToken(hc, x, data[p]);
    RestByte(hc, x, data[p..]);
    assert data[p..][1..] == data[p + 1..];
    assert data[from..p + 1] == data[from..p] + [data[p]];
    TouchesAppend(Field, data[from..p], [data[p]]);
    TouchOne(Field, data[p]);
    LaterLater(Touches(Field, data[from..p]), p - from, [Data(Field, [data[p]])], 1,
               Rest(hc, ScanByte(hc, x, data[p]).x, data[p + 1..]));
  }

  /** s_header_value: the loop over a header value. The byte at `from` is counted already. */
  method ValueLoop(ghost hc: HeadersCallback, rec0: Parser, nread0: nat, data: seq<byte>, from: nat, marks0: Marks,
                   ghost before: seq<Event>, ghost owed: seq<Event>)
    returns (rec: Parser, nread: nat, p: nat, marks: Marks, events: seq<Event>, ghost out: seq<Event>)
    requires Valid(rec0) && rec0.errno.Ok? && rec0.state == VALUE && from < |data| && nread0 >= 1
    requires Settled(before, marks0, Some(Value), data, from, owed)
    ensures from <= p <= |data|
    ensures Reached(hc, Rest(hc, Scan(rec0, nread0, true, 0, false), data[from..]), out, p - from, rec, nread, data[p..])
    ensures rec.errno.Ok? ==>
      Valid(rec) && from < p && rec.state != OnChunkSize(ChunkSizeStart)
      && Settled(before + events, marks, KindOf(rec.state), data, p, owed + out)
  {
    hide ValueChar, Rest, Settled, Touches, MarksFit, Valid;
    rec, nread, p, marks, events, out := rec0, nread0, from, marks0, [], [];
    ghost var skip, lost := false, false;
    ghost var all := Rest(hc, Scan(rec0, nread0, true, 0, false), data[from..]);
    NothingYet(Value, data, from, all);
    while p < |data| && !LineEnd(data[p])
      invariant from <= p <= |data|
      invariant Valid(rec) && rec.errno.Ok? && rec.state == VALUE
      invariant skip ==> p == |data| || LineEnd(data[p])
      invariant lost ==> p == |data| && all.x.p.errno == HeaderOverflow && nread + (p - from) > MAX_HEADER
      invariant !lost ==>
        all == Later(Touches(Value, data[from..p]), p - from,
                     Rest(hc, Scan(rec, nread, true, p - from, skip), data[p..]))
    {
      if !rec.lenient && !IsHeaderChar(data[p]) {
        ValueRefuses(hc, all, rec, nread, data, from, p);
        rec := rec.(errno := InvalidHeaderToken);
        return;
      }
      if rec.hs.General? {
        var q := SkipToLineEnd(data, p);
        ValueSkips(hc, all, rec, nread, data, from, p, q);
        lost := q == |data| && !NoLineEnd(data[p..]);
        p, skip := q, true;
      } else {
        ValueAdvances(hc, all, rec, nread, data, from, p);
        ValueStaysValid(rec, data[p]);
        var next := ValueChar(rec, data[p]);
        if !next.errno.Ok? {
          rec := rec.(errno := next.errno);
          return;
        }
        rec := next;
        p := p + 1;
      }
    }
    if !lost {
      ValueCloses(hc, all, rec, nread, data, from, p, skip);
    }
    LoopSettles(Value, data, from, p, marks, before, owed);
    out := Touches(Value, data[from..p]);
    nread := nread + (p - from);
    if nread > MAX_HEADER {
      rec := rec.(errno := HeaderOverflow);
    } else if p == |data| {
      assert before + events == before;
    } else {
      PlaceValid(rec, if data[p] == CR then HeaderAlmostDone else HeaderValueLws);
      LoopCloses(Value, data, p, marks, before, owed, out);
      rec := rec.(state := OnHeader(if data[p] == CR then HeaderAlmostDone else HeaderValueLws));
      events := [Data(Value, data[marks[Value]..p])];
      marks := marks - {Value};
      out := out + [Data(Value, [])];
      p := p + 1;
    }
  }

  /** A byte that is no header character is refused in every state of the loop. */
  lemma ValueRefuses(hc: HeadersCallback, all: Outcome, rec: Parser, nread: nat, data: seq<byte>, from: nat, p: nat)
    requires from <= p < |data| && !LineEnd(data[p]) && !rec.lenient && !IsHeaderChar(data[p])
    requires rec.errno.Ok? && rec.state == VALUE
    requires all == Later(Touches(Value, data[from..p]), p - from,
                          Rest(hc, Scan(rec, nread, true, p - from, false), data[p..]))
    ensures all.x.p.errno == InvalidHeaderToken
  {
    hide ScanByte, Rest, Touches;
    var x := Scan(rec, nread, true, p - from, false);
    RestByte(hc, x, data[p..]);
    if rec.hs.General? {
      RejectedByte(hc, x, data[p]);
    } else {
      ValueCharByte(hc, x, data[p]);
    }
  }

  lemma RejectedByte(hc: HeadersCallback, x: Scan, ch: byte)
    requires x.p.errno.Ok? && x.scanning && Rejected(x, ch)
    ensures ScanByte(hc, x, ch).x.p.errno == InvalidHeaderToken
  {
    hide ByteStep;
  }

  /** The memchr jump in state h_general. */
  lemma ValueSkips(hc: HeadersCallback, all: Outcome, rec: Parser, nread: nat, data: seq<byte>, from: nat, p: nat, q: nat)
    requires from <= p < |data| && p <= q <= |data| && !LineEnd(data[p]) && (rec.lenient || IsHeaderChar(data[p]))
    requires rec.errno.Ok? && rec.state == VALUE && rec.hs.General? && nread >= 1
    requires q < |data| ==> LineEnd(data[q]) && NoLineEnd(data[p..q])
    requires q == |data| ==> NoLineEnd(data[p..]) || (|data| - p > MAX_HEADER && NoLineEnd(data[p..][..MAX_HEADER]))
    requires all == Later(Touches(Value, data[from..p]), p - from,
                          Rest(hc, Scan(rec, nread, true, p - from, false), data[p..]))
    ensures if q == |data| && !NoLineEnd(data[p..])
      then all.x.p.errno == HeaderOverflow && nread + (q - from) > MAX_HEADER
      else all == Later(Touches(Value, data[from..q]), q - from,
                        Rest(hc, Scan(rec, nread, true, q - from, true), data[q..]))
  {
    hide ScanByte, Rest, Touches, ScanRun;
    var x := Scan(rec, nread, true, p - from, false);
    if q == |data| && !NoLineEnd(data[p..]) {
      WindowOverflows(hc, x, data[p..]);
    } else {
      var d := data[p..q];
      assert data[p..] == d + data[q..];
      assert q == |data| ==> d == data[p..];
      assert d[0] == data[p];
      GeneralRun(hc, x, d);
      RestRun(hc, x, d, data[q..]);
      LaterLater(Touches(Value, data[from..p]), p - from, Touches(Value, d), |d|,
                 Rest(hc, Scan(rec, nread, true, q - from, true), data[q..]));
      TouchesAppend(Value, data[from..p], d);
      assert data[from..p] + d == data[from..q];
    }
  }

  /** One byte of a value the parser looks at. */
  lemma ValueAdvances(hc: HeadersCallback, all: Outcome, rec: Parser, nread: nat, data: seq<byte>, from: nat, p: nat)
    requires from <= p < |data| && !LineEnd(data[p]) && (rec.lenient || IsHeaderChar(data[p]))
    requires rec.errno.Ok? && rec.state == VALUE && !rec.hs.General?
    requires all == Later(Touches(Value, data[from..p]), p - from,
                          Rest(hc, Scan(rec, nread, true, p - from, false), data[p..]))
    ensures var q := ValueChar(rec, data[p]);
      q.state == VALUE
      && if !q.errno.Ok? then all.x.p.errno == q.errno
         else all == Later(Touches(Value, data[from..p + 1]), p + 1 - from,
                           Rest(hc, Scan(q, nread, true, p + 1 - from, false), data[p + 1..]))
  {
    hide ScanByte, Rest, Touches, ValueChar;
    ValueCharState(rec, data[p]);
    var x := Scan(rec, nread, true, p - from, false);
    RestByte(hc, x, data[p..]);
    ValueCharByte(hc, x, data[p]);
    assert data[p..][1..] == data[p + 1..];
    assert data[from..p + 1] == data[from..p] + [data[p]];
    TouchesAppend(Value, data[from..p], [data[p]]);
    TouchOne(Value, data[p]);
    LaterLater(Touches(Value, data[from..p]), p - from, [Data(Value, [data[p]])], 1,
               Rest(hc, ScanByte(hc, x, data[p]).x, data[p + 1..]));
  }

  /** What the scan says when the loop over a header value ends. */
  lemma ValueCloses(hc: HeadersCallback, all: Outcome, rec: Parser, nread: nat, data: seq<byte>, from: nat, p: nat, skip: bool)
    requires from < |data| && from <= p <= |data| && (p < |data| ==> LineEnd(data[p]))
    requires rec.errno.Ok? && rec.state == VALUE
    requires all == Later(Touches(Value, data[from..p]), p - from,
                          Rest(hc, Scan(rec, nread, true, p - from, skip), data[p..]))
    ensures var out := Touches(Value, data[from..p]);
      var n := nread + (p - from);
      if n > MAX_HEADER then all.x.p.errno == HeaderOverflow
      else if p == |data| then all == Later(out, p - from, Rest(hc, Start(rec, n), data[p..]))
      else
        var s := OnHeader(if data[p] == CR then HeaderAlmostDone else HeaderValueLws);
        all == Later(out + [Data(Value, [])], p + 1 - from, Rest(hc, Start(rec.(state := s), n), data[p + 1..]))
  {
    hide Rest, Touches;
    var out, x := Touches(Value, data[from..p]), Scan(rec, nread, true, p - from, skip);
    if p < |data| {
      ValueEnd(hc, x, data[p..]);
      assert data[p..][1..] == data[p + 1..];
      var s := OnHeader(if data[p] == CR then HeaderAlmostDone else HeaderValueLws);
      LaterLater(out, p - from, [Data(Value, [])], 1, Rest(hc, Start(rec.(state := s), nread + (p - from)), data[p + 1..]));
    } else {
      assert data[p..] == [];
      SliceEnd(hc, x);
      SliceOver(hc, rec, nread + (p - from));
    }
  }

  // ---------- bodies ----------

  /** Bytes of a body of known length, short of its end. */
  lemma BodyPart(hc: HeadersCallback, rec: Parser, nread: nat, data: seq<byte>, from: nat, q: nat)
    requires rec.errno.Ok? && Counted(rec) && from <= q <= |data| && q - from < rec.contentLength < ULLONG_MAX
    ensures Rest(hc, Start(rec, nread), data[from..])
         == Later(Touches(Body, data[from..q]), q - from,
                  Rest(hc, Start(rec.(contentLength := rec.contentLength - (q - from)), nread), data[q..]))
  {
    hide Rest, ScanRun, Touches;
    BodyRun(hc, rec, nread, data[from..q]);
    RestRun(hc, Start(rec, nread), data[from..q], data[q..]);
    assert data[from..] == data[from..q] + data[q..];
  }

  /** What the last byte of a body of known length adds. */
  lemma BodyFills(hc: HeadersCallback, rec: Parser, nread: nat, data: seq<byte>, from: nat, q: nat)
    requires rec.errno.Ok? && Counted(rec) && from < q <= |data| && q - from == rec.contentLength < ULLONG_MAX
    ensures var r := Rest(hc, Start(rec, nread), data[from..]);
      var done := rec.(contentLength := 0);
      var out := Touches(Body, data[from..q]);
      if rec.state == OnBody(ChunkData) then
        r == Later(out, q - from, Rest(hc, Start(done.(state := OnBody(ChunkDataAlmostDone)), nread), data[q..]))
      else
        var end := Start(done.(state := NewMessage(done)), nread);
        var outs := out + [Notify(MessageComplete)];
        r == if rec.upgrade then Outcome(end, outs, q - from, true)
             else Later(outs, q - from, Rest(hc, end, data[q..]))
  {
    hide Rest, ScanByte, NewMessage;
    var last, before := q - 1, Touches(Body, data[from..q - 1]);
    BodyPart(hc, rec, nread, data, from, last);
    var one := rec.(contentLength := 1);
    RestByte(hc, Start(one, nread), data[last..]);
    assert data[last..][1..] == data[q..];
    assert data[from..q] == data[from..last] + [data[last]];
    TouchesAppend(Body, data[from..last], [data[last]]);
    TouchOne(Body, data[last]);
    var done := rec.(contentLength := 0);
    if rec.state == OnBody(ChunkData) {
      ChunkLast(hc, one, nread, data[last]);
      LaterLater(before, last - from, [Data(Body, [data[last]])], 1,
                 Rest(hc, Start(done.(state := OnBody(ChunkDataAlmostDone)), nread), data[q..]));
    } else {
      BodyLast(hc, one, nread, data[last]);
      var out := [Data(Body, [data[last]]), Notify(MessageComplete)];
      assert before + out == (before + [Data(Body, [data[last]])]) + [Notify(MessageComplete)];
      LaterLater(before, last - from, out, 1, Rest(hc, Start(done.(state := NewMessage(done)), nread), data[q..]));
    }
  }

  lemma EofFills(hc: HeadersCallback, rec: Parser, nread: nat, data: seq<byte>, from: nat)
    requires rec.errno.Ok? && rec.state == OnBody(BodyIdentityEof) && from <= |data|
    ensures Rest(hc, Start(rec, nread), data[from..])
         == Later(Touches(Body, data[from..]), |data| - from, Rest(hc, Start(rec, nread), data[|data|..]))
  {
    hide ScanRun, Touches, Rest;
    EofRun(hc, rec, nread, data[from..]);
    RestRun(hc, Start(rec, nread), data[from..], data[|data|..]);
    assert data[from..] == data[from..] + data[|data|..];
  }

  /** The body has been reported up to its last byte, and the message is complete. */
  lemma BodyCloses(events: seq<Event>, marks: Marks, data: seq<byte>, p: nat, out: seq<Event>)
    requires Settled(events, marks, Some(Body), data, p, out) && Body in marks
    ensures marks[Body] < p
    ensures Settled(events + [Data(Body, data[marks[Body]..p]), Notify(MessageComplete)], map[], NoData, data, p,
                    out + [Notify(MessageComplete)])
    ensures Join(events + [Data(Body, data[marks[Body]..p]), Notify(MessageComplete)]) == Join(out + [Notify(MessageComplete)])
  {
    hide Join;
    var done := events + [Data(Body, data[marks[Body]..p])];
    assert events + [Data(Body, data[marks[Body]..p]), Notify(MessageComplete)] == done + [Notify(MessageComplete)];
    JoinPush(done, Notify(MessageComplete));
    JoinPush(out, Notify(MessageComplete));
    assert done + [Notify(MessageComplete)] + [] == done + [Notify(MessageComplete)];
  }

  /** `r` is what remained to be read; `out` and `used` bytes of it are done, and with `left` the
      call ends there. */
  ghost predicate Left(hc: HeadersCallback, r: Outcome, out: seq<Event>, used: nat, rec: Parser, nread: nat,
                       rest: seq<byte>, left: bool) {
    r == if left then Outcome(Start(rec, nread), out, used, true)
         else Later(out, used, Rest(hc, Start(rec, nread), rest))
  }

  /** s_body_identity, s_chunk_data and s_body_identity_eof: as much of the body as the slice holds. */
  method BodyBulk(ghost hc: HeadersCallback, rec0: Parser, ghost nread: nat, data: seq<byte>, from: nat, marks0: Marks,
                  ghost before: seq<Event>, ghost owed: seq<Event>)
    returns (rec: Parser, p: nat, marks: Marks, events: seq<Event>, left: bool, ghost out: seq<Event>)
    requires Valid(rec0) && rec0.errno.Ok? && from < |data|
    requires rec0.state == OnBody(BodyIdentity) || rec0.state == OnBody(ChunkData) || rec0.state == OnBody(BodyIdentityEof)
    requires Settled(before, marks0, Some(Body), data, from, owed)
    ensures from < p <= |data| && rec.errno.Ok? && Valid(rec) && rec.state != OnChunkSize(ChunkSizeStart)
    ensures Left(hc, Rest(hc, Start(rec0, nread), data[from..]), out, p - from, rec, nread, data[p..], left)
    ensures Settled(before + events, marks, KindOf(rec.state), data, p, owed + out)
    ensures left ==> Join(before + events) == Join(owed + out)
  {
    hide Rest, Settled, Touches, NewMessage, MethodFits, NameFits, ValueFits;
    rec, left, events := rec0, false, [];
    marks := if Body in marks0 then marks0 else marks0[Body := from];
    assert before + [] == before;
    if rec.state == OnBody(BodyIdentityEof) {
      p := |data|;
      assert data[from..p] == data[from..];
      EofFills(hc, rec, nread, data, from);
      out := Touches(Body, data[from..p]);
      TouchSettles(before, marks0, Some(Body), Body, data, from, p, owed);
    } else {
      var toRead := if rec.contentLength < |data| - from then rec.contentLength else |data| - from;
      p := from + toRead;
      TouchSettles(before, marks0, Some(Body), Body, data, from, p, owed);
      out := Touches(Body, data[from..p]);
      if toRead < rec0.contentLength {
        BodyPart(hc, rec0, nread, data, from, p);
      } else {
        BodyFills(hc, rec0, nread, data, from, p);
      }
      rec := rec.(contentLength := rec.contentLength - toRead);
      if rec.contentLength == 0 {
        if rec.state == OnBody(ChunkData) {
          rec := rec.(state := OnBody(ChunkDataAlmostDone));
        } else {
          BodyCloses(before, marks, data, p, owed + out);
          NewMessageQuiet(rec);
          NewMessageValid(rec);
          rec := rec.(state := NewMessage(rec));
          events := [Data(Body, data[marks[Body]..p]), Notify(MessageComplete)];
          assert owed + out + [Notify(MessageComplete)] == owed + (out + [Notify(MessageComplete)]);
          out := out + [Notify(MessageComplete)];
          marks := map[];
          left := rec.upgrade;
        }
      }
    }
  }

  lemma NewMessageValid(p: Parser)
    requires Bounded(p)
    ensures Valid(p.(state := NewMessage(p)))
  {
  }

  // ---------- the main loop ----------

  /** What holds of the record and its counter between bytes while no error was reported. */
  predicate Ready(rec: Parser, nread: nat) {
    rec.errno.Ok? ==> Valid(rec) && (rec.state == OnChunkSize(ChunkSizeStart) ==> nread == 0)
  }

  /** A byte outside the two header loops, counted and switched on. */
  lemma ByteOutside(hc: HeadersCallback, rec: Parser, nread: nat, ch: byte)
    requires rec.errno.Ok? && rec.state != FIELD && rec.state != VALUE
    ensures var o, s := ScanByte(hc, Start(rec, nread), ch), ByteStep(hc, rec, ch);
      var n := if ParsingHeader(rec.state) then nread + 1 else nread;
      if ParsingHeader(rec.state) && n > MAX_HEADER then o.x.p.errno == HeaderOverflow
      else if !s.p.errno.Ok? then o.x.p.errno == s.p.errno
      else o == Outcome(Start(s.p, if s.reset then 0 else n), Meanings(s.cmds, ch), 1, s.leave)
  {
    hide ByteStep, Meanings;
  }

  /** One pass of the for loop over a byte that is taken alone. */
  lemma ByteReaches(hc: HeadersCallback, all: Outcome, out: seq<Event>, rec: Parser, nread: nat, data: seq<byte>, p: nat)
    requires p < |data| && rec.errno.Ok? && rec.state != FIELD && rec.state != VALUE
    requires Agree(all, Later(out, p, Rest(hc, Start(rec, nread), data[p..])))
    ensures var s := ByteStep(hc, rec, data[p]);
      var n := if ParsingHeader(rec.state) then nread + 1 else nread;
      var x := Start(s.p, if s.reset then 0 else n);
      var outs := out + Meanings(s.cmds, data[p]);
      if ParsingHeader(rec.state) && n > MAX_HEADER then all.x.p.errno == HeaderOverflow
      else if !s.p.errno.Ok? then all.x.p.errno == s.p.errno
      else if s.leave then Agree(all, Outcome(x, outs, p + 1, true))
      else Agree(all, Later(outs, p + 1, Rest(hc, x, data[p + 1..])))
  {
    hide ScanByte, ByteStep, Rest, Meanings;
    ByteOutside(hc, rec, nread, data[p]);
    RestByte(hc, Start(rec, nread), data[p..]);
    assert data[p..][1..] == data[p + 1..];
    var s := ByteStep(hc, rec, data[p]);
    var n := if ParsingHeader(rec.state) then nread + 1 else nread;
    LaterLater(out, p, Meanings(s.cmds, data[p]), 1, Rest(hc, Start(s.p, if s.reset then 0 else n), data[p + 1..]));
  }

  /** A header too long at the byte that would enter one of the two header loops. */
  lemma LoopOverflows(hc: HeadersCallback, all: Outcome, out: seq<Event>, rec: Parser, nread: nat, data: seq<byte>, p: nat)
    requires p < |data| && rec.errno.Ok? && (rec.state == FIELD || rec.state == VALUE) && nread + 1 > MAX_HEADER
    requires Agree(all, Later(out, p, Rest(hc, Start(rec, nread), data[p..])))
    ensures all.x.p.errno == HeaderOverflow
  {
    hide ByteStep;
    RestByte(hc, Start(rec, nread), data[p..]);
  }

  /** What a header loop reached, seen from the start of the slice. */
  lemma LoopReaches(hc: HeadersCallback, all: Outcome, out: seq<Event>, rec: Parser, nread: nat, data: seq<byte>, p: nat,
                    more: seq<Event>, rec': Parser, nread': nat, q: nat)
    requires p < |data| && p <= q <= |data| && rec.errno.Ok? && (rec.state == FIELD || rec.state == VALUE)
    requires nread + 1 <= MAX_HEADER
    requires Agree(all, Later(out, p, Rest(hc, Start(rec, nread), data[p..])))
    requires Reached(hc, Rest(hc, Scan(rec, nread + 1, true, 0, false), data[p..]), more, q - p, rec', nread', data[q..])
    ensures Reached(hc, all, out + more, q, rec', nread', data[q..])
  {
    hide Rest;
    LoopEntry(hc, rec, nread, data[p..]);
    if rec'.errno.Ok? {
      LaterLater(out, p, more, q - p, Rest(hc, Start(rec', nread'), data[q..]));
    }
  }

  /** What a body reached, seen from the start of the slice. */
  lemma BodyReaches(hc: HeadersCallback, all: Outcome, out: seq<Event>, rec: Parser, nread: nat, data: seq<byte>, p: nat,
                    more: seq<Event>, rec': Parser, q: nat, left: bool)
    requires p < |data| && p <= q <= |data|
    requires Agree(all, Later(out, p, Rest(hc, Start(rec, nread), data[p..])))
    requires Left(hc, Rest(hc, Start(rec, nread), data[p..]), more, q - p, rec', nread, data[q..], left)
    ensures if left then Agree(all, Outcome(Start(rec', nread), out + more, q, true))
      else Agree(all, Later(out + more, q, Rest(hc, Start(rec', nread), data[q..])))
  {
    hide Rest;
    LaterLater(out, p, more, q - p, Rest(hc, Start(rec', nread), data[q..]));
  }

  /** The marks at the start of a slice: data under way continues there. Body data is marked later. */
  function FirstMarks(s: State): Marks {
    match KindOf(s)
    case NoData => map[]
    case Some(k) => if k.Body? then map[] else map[k := 0]
  }

  lemma FirstSettled(s: State, data: seq<byte>)
    ensures Settled([], FirstMarks(s), KindOf(s), data, 0, [])
  {
  }

  /** CALLBACK_DATA_NOADVANCE for one kind, after the last byte. */
  function Leftover(k: DataKind, marks: Marks, data: seq<byte>): seq<Event>
    requires k in marks ==> marks[k] <= |data|
  {
    if k in marks then [Data(k, data[marks[k]..])] else []
  }

  /** The callbacks for marks left over; at most one is set. */
  method Flush(marks: Marks, data: seq<byte>, ghost cur: Pending, ghost events: seq<Event>, ghost out: seq<Event>)
    returns (last: seq<Event>)
    requires data != [] && Settled(events, marks, cur, data, |data|, out)
    ensures Join(events + last) == Join(out)
  {
    hide Join;
    assert forall k | k in marks :: marks[k] <= |data| && data[marks[k]..|data|] == data[marks[k]..];
    assert |marks| <= 1;
    last := Leftover(Field, marks, data) + Leftover(Value, marks, data) + Leftover(Url, marks, data)
            + Leftover(Body, marks, data) + Leftover(Status, marks, data);
    match cur {
      case NoData =>
      case Some(k) =>
        if k in marks {
          match k
          case Field => case Value => case Url => case Body => case Status =>
        }
    }
    assert last == Pend(marks, cur, data, |data|);
  }
}
