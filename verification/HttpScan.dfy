/** One call of http_parser_execute, byte by byte: the switch of HttpStep together with the byte
    counter and the two loops that run inside a header name or value until the slice ends. */
module HttpScan {
  import opened HttpTypes
  import opened HttpStep
  import opened HttpEvents

  /** `scanning`: inside the loop of s_header_field or s_header_value, `lag` bytes of which are
      not in `nread` yet. `skip`: memchr has run, the bytes up to CR or LF are not inspected. */
  datatype Scan = Scan(p: Parser, nread: nat, scanning: bool, lag: nat, skip: bool)

  function Start(p: Parser, nread: nat): Scan { Scan(p, nread, false, 0, false) }

  /** `out`: the callbacks, as Meaning puts them. `used`: bytes consumed. */
  datatype Outcome = Outcome(x: Scan, out: seq<Event>, used: nat, left: bool)
  {
    predicate Good() { x.p.errno.Ok? && !left }
  }

  function Refuse(x: Scan, e: Errno): Outcome { Outcome(x.(p := x.p.(errno := e)), [], 0, false) }

  /** The check of the byte at which the value loop is about to call memchr. */
  predicate Rejected(x: Scan, ch: byte) {
    x.p.state == VALUE && x.p.hs.General? && !x.skip && !x.p.lenient && !IsHeaderChar(ch)
  }

  /** Bytes at which a scanning loop adds its lag to nread. */
  predicate LoopEnds(s: State, ch: byte) {
    (s == FIELD && Token(ch) == 0) || (s == VALUE && (ch == CR || ch == LF))
  }

  function ScanByte(hc: HeadersCallback, x: Scan, ch: byte): (o: Outcome)
    ensures o.used <= 1 && (o.x.p.errno.Ok? <==> o.used == 1)
  {
    var counted := if !x.scanning && ParsingHeader(x.p.state) then x.nread + 1 else x.nread;
    if counted > x.nread && counted > MAX_HEADER then Refuse(x, HeaderOverflow)
    else if Rejected(x, ch) then Refuse(x, InvalidHeaderToken)
    else if LoopEnds(x.p.state, ch) && counted + x.lag > MAX_HEADER then Refuse(x, HeaderOverflow)
    else
      var s := ByteStep(hc, x.p, ch);
      if !s.p.errno.Ok? then Outcome(x.(p := s.p), [], 0, false)
      else Outcome(Advance(x, counted, s), Meanings(s.cmds, ch), 1, s.leave)
  }

  function Advance(x: Scan, counted: nat, s: Step): Scan {
    if (x.p.state == FIELD || x.p.state == VALUE) && s.p.state == x.p.state then
      Scan(s.p, counted, true, x.lag + 1, x.p.state == VALUE && x.p.hs.General?)
    else Scan(s.p, if s.reset then 0 else counted + x.lag, false, 0, false)
  }

  /** Whatever `first` produced, then whatever `rest` produced. */
  function Then(first: Outcome, rest: Outcome): Outcome {
    Outcome(rest.x, first.out + rest.out, first.used + rest.used, rest.left)
  }

  function ScanRun(hc: HeadersCallback, x: Scan, data: seq<byte>): Outcome
    decreases |data|
  {
    if data == [] || !x.p.errno.Ok? then Outcome(x, [], 0, false)
    else
      var one := ScanByte(hc, x, data[0]);
      if !one.Good() then one else Then(one, ScanRun(hc, one.x, data[1..]))
  }

  /** The end of the slice: a loop cut off adds its lag, which counts one byte twice. */
  function ScanEnd(o: Outcome): Outcome {
    if o.Good() && o.x.scanning then
      if o.x.nread + o.x.lag > MAX_HEADER then o.(x := o.x.(p := o.x.p.(errno := HeaderOverflow)))
      else o.(x := Start(o.x.p, o.x.nread + o.x.lag))
    else o
  }

  /** http_parser_execute on one slice; an empty slice signals the end of the stream. */
  function Exec(hc: HeadersCallback, p: Parser, nread: nat, data: seq<byte>): Outcome {
    if !p.errno.Ok? then Outcome(Start(p, nread), [], 0, false)
    else if data == [] then
      match p.state
      case OnBody(BodyIdentityEof) => Outcome(Start(p, nread), [Notify(MessageComplete)], 0, false)
      case Dead => Outcome(Start(p, nread), [], 0, false)
      case StartReqOrRes => Outcome(Start(p, nread), [], 0, false)
      case StartReq => Outcome(Start(p, nread), [], 0, false)
      case OnResponse(StartRes) => Outcome(Start(p, nread), [], 0, false)
      case _ => Outcome(Start(p.(errno := InvalidEofState), nread), [], 1, false)
    else ScanEnd(ScanRun(hc, Start(p, nread), data))
  }

  /** One byte peeled off. */
  lemma ScanStep(hc: HeadersCallback, x: Scan, data: seq<byte>)
    requires x.p.errno.Ok? && data != []
    ensures var one := ScanByte(hc, x, data[0]);
      ScanRun(hc, x, data) == if one.Good() then Then(one, ScanRun(hc, one.x, data[1..])) else one
  {
    hide ScanByte;
  }

  lemma {:induction false} ScanRunAppend(hc: HeadersCallback, x: Scan, a: seq<byte>, b: seq<byte>)
    requires x.p.errno.Ok?
    ensures var ra := ScanRun(hc, x, a);
      ScanRun(hc, x, a + b) == if ra.Good() then Then(ra, ScanRun(hc, ra.x, b)) else ra
    decreases |a|
  {
    hide ScanByte;
    if a == [] {
      assert a + b == b;
    } else {
      var one := ScanByte(hc, x, a[0]);
      assert (a + b)[0] == a[0] && (a + b)[1..] == a[1..] + b;
      if one.Good() {
        ScanRunAppend(hc, one.x, a[1..], b);
      }
    }
  }

  lemma {:induction false} ScanRunUsed(hc: HeadersCallback, x: Scan, data: seq<byte>)
    requires x.p.errno.Ok?
    ensures var r := ScanRun(hc, x, data); r.used <= |data| && (r.Good() ==> r.used == |data|)
    decreases |data|
  {
    hide ScanByte;
    if data != [] {
      var one := ScanByte(hc, x, data[0]);
      if one.Good() {
        ScanRunUsed(hc, one.x, data[1..]);
      }
    }
  }
}
