/** Every kind of reply of the Redis serialization protocol: what ParseReply makes of it. */
module RespKinds {
  import opened Resp
  import opened RespReply

  datatype Value =
    | Error(text: string)
    | Status(text: string)
    | Integer(n: int)
    | Bulk(s: string)
    | NullBulk
    | Array(es: seq<Value>)
    | NullArray

  function Signed(n: int): string { if n < 0 then "-" + Decimal(-n) else Decimal(n) }

  /** The reply as a server sends it. */
  function PrintReply(v: Value): (t: string)
    ensures t != []
  {
    match v
    case Error(text) => "-" + text + CRLF
    case Status(text) => "+" + text + CRLF
    case Integer(n) => ":" + Signed(n) + CRLF
    case Bulk(s) => "$" + Decimal(|s|) + CRLF + s + CRLF
    case NullBulk => "$-1" + CRLF
    case Array(es) => "*" + Decimal(|es|) + CRLF + PrintEach(es)
    case NullArray => "*-1" + CRLF
  }

  function PrintEach(es: seq<Value>): (t: string)
    ensures |t| >= |es|
  {
    if es == [] then [] else PrintReply(es[0]) + PrintEach(es[1..])
  }

  /** The text of a line holds no line end. */
  predicate OneLine(text: string) { forall k | 0 <= k < |text| - 1 :: !(text[k] == '\r' && text[k + 1] == '\n') }

  predicate WellFormed(v: Value) { (v.Error? || v.Status?) ==> OneLine(v.text) }

  /** An element of an array that ParseReply can read: a string that is not empty, or the null string. */
  predicate Text(e: Value) { (e.Bulk? && e.s != []) || e.NullBulk? }

  predicate AllText(es: seq<Value>) { es == [] || (Text(es[0]) && AllText(es[1..])) }

  /** The replies ParseReply can read: all but the empty string, the empty array, and arrays that hold
      anything else than strings that are not empty and null strings. */
  predicate Readable(v: Value) {
    match v
    case Bulk(s) => s != []
    case Array(es) => es != [] && AllText(es)
    case _ => true
  }

  function ShowOne(e: Value): string { if e.Bulk? then e.s else "-1" }

  function ShowEach(es: seq<Value>): string {
    if es == [] then [] else [SEP] + ShowOne(es[0]) + ShowEach(es[1..])
  }

  /** What ParseReply yields: 0 for success and for nothing, -1 for an error, 1 and a value, or the
      number of elements and the elements. */
  function Show(v: Value): string {
    match v
    case Error(_) => "-1"
    case Status(_) => "0"
    case Integer(n) => "1" + [SEP] + Signed(n)
    case Bulk(s) => "1" + [SEP] + s
    case NullBulk => "0"
    case Array(es) => Decimal(|es|) + ShowEach(es)
    case NullArray => "0"
  }

  // ---------- single lines ----------

  lemma {:induction false} FindsEnd(t: string, from: nat, i: nat)
    requires from <= i && i + 2 <= |t| && t[i] == '\r' && t[i + 1] == '\n'
    requires forall k | from <= k < i :: !(t[k] == '\r' && t[k + 1] == '\n')
    ensures FindCrlf(t, from) == i
    decreases i - from
  {
    if from < i {
      FindsEnd(t, from + 1, i);
    }
  }

  /** The first line of what begins with it. */
  lemma FirstLine(kind: char, text: string, rest: string)
    requires kind != '\r' && OneLine(text)
    ensures var t := [kind] + text + CRLF + rest;
      FindCrlf(t, 0) == 1 + |text| && t[1..1 + |text|] == text && t[0] == kind
  {
    var t := [kind] + text + CRLF + rest;
    forall k | 0 <= k < 1 + |text| ensures !(t[k] == '\r' && t[k + 1] == '\n') {
      if 1 <= k < |text| {
        assert t[k] == text[k - 1] && t[k + 1] == text[k];
      }
    }
    FindsEnd(t, 0, 1 + |text|);
  }

  lemma DigitsOneLine(n: int)
    ensures OneLine(Signed(n))
  {
    hide Decimal;
    var t := Signed(n);
    assert forall k | 0 <= k < |t| :: t[k] != '\r';
  }

  /** strtoll of "-1" and a line end. */
  lemma MinusOne(t: string)
    requires |t| >= 5 && t[1] == '-' && t[2] == '1' && t[3] == '\r' && t[4] == '\n'
    ensures Strtoll(t, 1).value == -1 && LengthLine(t) == 5
  {
    assert Digits(t, 2, 0) == Digits(t, 3, 1);
    assert Digits(t, 3, 1) == Number(1, 3);
    FindsFirst(t, 1, 3);
  }

  // ---------- strings ----------

  /** A string at the front of the input, `before` of which is counted as read. */
  lemma BulkRead(s: string, rest: string)
    requires |PrintReply(Bulk(s)) + rest| <= 0x7FFF_FFFF
    ensures SingleStr(PrintReply(Bulk(s)) + rest, 0)
         == if s != [] then Single(0, |PrintReply(Bulk(s))|, s) else Single(-1, 4, [])
  {
    assert PrintReply(Bulk(s)) == PrintOne(s);
    if s != [] {
      SegmentReadBack(s, rest);
    } else {
      var line := PrintOne(s) + rest;
      assert Decimal(0) == ['0'];
      assert line[1..2] == Decimal(0);
      LengthLineOfDecimal(line, 0);
    }
  }

  lemma NullRead(rest: string)
    ensures SingleStr(PrintReply(NullBulk) + rest, 0) == Single(1, 5, [])
  {
    MinusOne(PrintReply(NullBulk) + rest);
    hide LengthLine, Strtoll;
  }

  lemma ElementRead(e: Value, rest: string)
    requires |PrintReply(e) + rest| <= 0x7FFF_FFFF
    ensures var r := SingleStr(PrintReply(e) + rest, 0);
      if Text(e) then r == Single(if e.Bulk? then 0 else 1, |PrintReply(e)|, if e.Bulk? then e.s else [])
      else r.ret == -1
  {
    if e.Bulk? {
      BulkRead(e.s, rest);
    } else if e.NullBulk? {
      NullRead(rest);
    } else {
      hide LengthLine, Strtoll, Decimal;
      assert (PrintReply(e) + rest)[0] == PrintReply(e)[0] != '$';
    }
  }

  // ---------- arrays ----------

  lemma {:induction false} ElementsRead(reply: string, size: nat, out: string, es: seq<Value>, rest: string)
    requires size <= |reply| <= 0x7FFF_FFFF && reply[size..] == PrintEach(es) + rest
    ensures var r := Elements(reply, size, out, |es|);
      if AllText(es) then r == Reply(0, false, size + |PrintEach(es)|, out + ShowEach(es))
      else r.ret == -1
    decreases |es|
  {
    hide SingleStr, PrintReply, PrintEach, ShowEach, Elements, Text, AllText;
    NoElements();
    if es == [] {
      ElementsNone(reply, size, out);
      assert out + [] == out;
    } else {
      var e, tail := es[0], PrintEach(es[1..]) + rest;
      FirstElement(es, out);
      Associates(PrintReply(e), PrintEach(es[1..]), rest);
      Dropped(reply, size, PrintReply(e), tail);
      ElementRead(e, tail);
      ElementsStep(reply, size, out, |es|);
      if Text(e) {
        TextRead(e);
        ElementsRead(reply, size + |PrintReply(e)|, out + [SEP] + ShowOne(e), es[1..], rest);
      }
    }
  }

  lemma NoElements()
    ensures PrintEach([]) == [] && ShowEach([]) == [] && AllText([])
  {
  }

  lemma FirstElement(es: seq<Value>, out: string)
    requires es != []
    ensures PrintEach(es) == PrintReply(es[0]) + PrintEach(es[1..])
    ensures AllText(es) <==> Text(es[0]) && AllText(es[1..])
    ensures out + ShowEach(es) == (out + [SEP] + ShowOne(es[0])) + ShowEach(es[1..])
  {
    hide PrintReply, Text, ShowOne, PrintEach, AllText;
    FirstPrinted(es);
    var one, rest := ShowOne(es[0]), ShowEach(es[1..]);
    assert out + ([SEP] + one + rest) == (out + [SEP] + one) + rest;
  }

  lemma FirstPrinted(es: seq<Value>)
    requires es != []
    ensures PrintEach(es) == PrintReply(es[0]) + PrintEach(es[1..])
    ensures AllText(es) <==> Text(es[0]) && AllText(es[1..])
  {
    hide PrintReply, Text;
  }

  lemma Associates(a: string, b: string, c: string)
    ensures (a + b) + c == a + (b + c)
  {
  }

  lemma Dropped(reply: string, size: nat, a: string, tail: string)
    requires size <= |reply| && reply[size..] == a + tail
    ensures size + |a| <= |reply| && reply[size + |a|..] == tail
  {
    assert reply[size + |a|..] == reply[size..][|a|..];
  }

  lemma ElementsNone(reply: string, size: nat, out: string)
    requires size <= |reply|
    ensures Elements(reply, size, out, 0) == Reply(0, false, size, out)
  {
  }

  /** One element taken off. */
  lemma ElementsStep(reply: string, size: nat, out: string, k: nat)
    requires size <= |reply| && k > 0
    ensures var one := SingleStr(reply[size..], 0);
      if one.ret == 0 || one.ret == 1 then
        size + one.read <= |reply| ==>
          Elements(reply, size, out, k)
          == Elements(reply, size + one.read, out + [SEP] + (if one.ret == 0 then one.out else "-1"), k - 1)
      else Elements(reply, size, out, k).ret == if one.ret == 2 then 1 else -1
  {
    hide SingleStr;
  }

  lemma TextRead(e: Value)
    requires Text(e)
    ensures e.Bulk? || e.NullBulk?
  {
  }

  lemma ArrayRead(es: seq<Value>, rest: string)
    requires |PrintReply(Array(es)) + rest| <= 0x7FFF_FFFF
    ensures var v, r := Array(es), Parsed(PrintReply(Array(es)) + rest, 0, []);
      if Readable(v) then r == Reply(0, false, |PrintReply(v)|, Show(v)) else r.ret == -1
  {
    hide Decimal, Strtoll, Elements, FindCrlf, PrintEach, ShowEach, Text, Parsed, PrintReply;
    var n, tail := |es|, PrintEach(es) + rest;
    var reply := PrintReply(Array(es)) + rest;
    ArrayText(es, rest);
    if n > 0 {
      HeadOfPrint(reply, n, tail);
      ArrayReply(reply, 1 + |Decimal(n)|, n, 0, []);
      ElementsRead(reply, 3 + |Decimal(n)|, Decimal(n), es, rest);
    } else {
      EmptyArray(reply, tail);
    }
  }

  lemma ArrayText(es: seq<Value>, rest: string)
    ensures |PrintReply(Array(es))| == 3 + |Decimal(|es|)| + |PrintEach(es)| && |PrintEach(es)| >= |es|
    ensures PrintReply(Array(es)) + rest == "*" + Decimal(|es|) + CRLF + (PrintEach(es) + rest)
  {
    hide Decimal, PrintEach;
  }

  lemma EmptyArray(reply: string, tail: string)
    requires reply == "*" + Decimal(0) + CRLF + tail
    ensures Parsed(reply, 0, []).ret == -1
  {
    assert Decimal(0) == ['0'];
    assert reply[1..2] == Decimal(0);
    StrtollOfDecimal(reply, 1, 0);
    FindsFirst(reply, 0, 2);
    hide Strtoll, Elements, SingleStr;
  }

  // ---------- any reply ----------

  lemma LineRead(v: Value, rest: string)
    requires (v.Error? || v.Status? || v.Integer?) && WellFormed(v)
    ensures Parsed(PrintReply(v) + rest, 0, []) == Reply(0, v == Status("PONG"), |PrintReply(v)|, Show(v))
  {
    var kind := match v case Error(_) => '-' case Status(_) => '+' case _ => ':';
    var text := match v case Error(x) => x case Status(x) => x case Integer(n) => Signed(n);
    var reply := PrintReply(v) + rest;
    if v.Integer? {
      DigitsOneLine(v.n);
    }
    hide Signed, Strtoll, Elements, SingleStr, FindCrlf;
    FirstLine(kind, text, rest);
    assert reply == [kind] + text + CRLF + rest;
    if v.Status? {
      assert text == "PONG" <==> |text| == 4 && reply[1..5] == "PONG";
    }
  }

  lemma NullsRead(rest: string)
    ensures Parsed(PrintReply(NullBulk) + rest, 0, []) == Reply(0, false, 5, "0")
    ensures Parsed(PrintReply(NullArray) + rest, 0, []) == Reply(0, false, 5, "0")
  {
    NullRead(rest);
    var a, b := PrintReply(NullArray) + rest, PrintReply(NullBulk) + rest;
    FindsFirst(a, 0, 3);
    FindsFirst(b, 0, 3);
    MinusOne(a);
    hide Strtoll, Elements, SingleStr;
  }

  /** The first line of a string. */
  lemma HeadOfString(t: string, s: string, tail: string)
    requires t == "$" + Decimal(|s|) + CRLF + tail
    ensures FindCrlf(t, 0) == 1 + |Decimal(|s|)| && t[0] == '$'
  {
    var d := |Decimal(|s|)|;
    assert t[1..1 + d] == Decimal(|s|);
    NoCr(t, 1, 1 + d, |s|);
    hide Decimal;
    FindsFirst(t, 0, 1 + d);
  }

  lemma StringReply(t: string)
    requires t != [] && t[0] == '$' && FindCrlf(t, 0) != -1
    ensures var one := SingleStr(t, 0);
      Parsed(t, 0, [])
      == if one.ret == 0 then Reply(0, false, one.read, "1" + [SEP] + one.out)
         else if one.ret == 1 then Reply(0, false, one.read, "0")
         else Reply(if one.ret == 2 then 1 else -1, false, one.read, [])
  {
    hide SingleStr, Strtoll, Elements, FindCrlf;
    assert [] + "1" + [SEP] == "1" + [SEP];
  }

  lemma StringRead(s: string, rest: string)
    requires |PrintReply(Bulk(s)) + rest| <= 0x7FFF_FFFF
    ensures var r := Parsed(PrintReply(Bulk(s)) + rest, 0, []);
      if s != [] then r == Reply(0, false, |PrintReply(Bulk(s))|, "1" + [SEP] + s) else r.ret == -1
  {
    hide Parsed, SingleStr, Decimal, FindCrlf;
    BulkRead(s, rest);
    var reply := PrintReply(Bulk(s)) + rest;
    assert reply == "$" + Decimal(|s|) + CRLF + (s + CRLF + rest);
    HeadOfString(reply, s, s + CRLF + rest);
    StringReply(reply);
  }

  /** A reply, whatever follows it, is read exactly if it is `Readable`: its bytes and no more are
      taken, and what it shows is yielded; only the status PONG is a pong. */
  lemma ReplyReadBack(v: Value, rest: string)
    requires WellFormed(v) && |PrintReply(v) + rest| <= 0x7FFF_FFFF
    ensures var r := Parsed(PrintReply(v) + rest, 0, []);
      if Readable(v) then r == Reply(0, v == Status("PONG"), |PrintReply(v)|, Show(v)) else r.ret == -1
  {
    hide Parsed;
    match v
    case Bulk(s) => StringRead(s, rest);
    case Array(es) => ArrayRead(es, rest);
    case NullBulk => NullsRead(rest);
    case NullArray => NullsRead(rest);
    case _ => LineRead(v, rest);
  }

  /** Input that begins with anything else is refused, and nothing of it taken. */
  lemma OtherRefused(reply: string, size: nat, out: string)
    requires reply == [] || reply[0] !in "-+:$*"
    ensures Parsed(reply, size, out) == Reply(-1, false, size, out)
  {
    hide Elements, SingleStr, Strtoll;
  }

  // ---------- a reply cut short ----------

  /** The bytes up to the text of a string. */
  function HeadLength(s: string): nat { |Decimal(|s|)| + 3 }

  /** The first `n` bytes of these elements end inside the text of a string, or right before it. */
  predicate InString(es: seq<Value>, n: nat) {
    es != []
    && var len := |PrintReply(es[0])|;
      if n < len then es[0].Bulk? && n >= HeadLength(es[0].s) else InString(es[1..], n - len)
  }

  /** Where ParseReply asks for more; elsewhere a reply cut short is an error. */
  predicate AsksForMore(v: Value, n: nat) {
    match v
    case Bulk(s) => n >= HeadLength(s)
    case Array(es) => n >= |Decimal(|es|)| + 3 && InString(es, n - |Decimal(|es|)| - 3)
    case _ => false
  }

  lemma ElementCut(e: Value, t: string)
    requires Text(e) && t <= PrintReply(e) && t != PrintReply(e) && |PrintReply(e)| <= 0x7FFF_FFFF
    ensures SingleStr(t, 0).ret == if e.Bulk? && |t| >= HeadLength(e.s) then 2 else -1
  {
    hide Decimal, SingleStr;
    if e.Bulk? {
      assert PrintReply(e) == PrintOne(e.s);
      SegmentCut(e.s, t);
    } else {
      NoLength(t);
    }
  }

  /** A prefix of `a + b` that is not all of it. */
  lemma CutOfBoth(a: string, b: string, t: string)
    requires t <= a + b && t != a + b
    ensures if |t| < |a| then t <= a && t != a else t == a + t[|a|..] && t[|a|..] <= b && t[|a|..] != b
  {
    PrefixOfBoth(a, b, t);
    assert t == (a + b)[..|t|];
    if |t| < |a| {
      assert t == a[..|t|];
    }
  }

  lemma {:induction false} EachCut(reply: string, size: nat, out: string, es: seq<Value>)
    requires AllText(es) && size <= |reply| && size + |PrintEach(es)| <= 0x7FFF_FFFF
    requires reply[size..] <= PrintEach(es) && reply[size..] != PrintEach(es)
    ensures Elements(reply, size, out, |es|).ret == if InString(es, |reply| - size) then 1 else -1
    decreases |es|
  {
    hide SingleStr, PrintReply, PrintEach, HeadLength, Text, AllText, Elements;
    NoElements();
    if es != [] {
      var e, t := es[0], reply[size..];
      var one := PrintReply(e);
      FirstElement(es, out);
      CutOfBoth(one, PrintEach(es[1..]), t);
      ElementsStep(reply, size, out, |es|);
      TextRead(e);
      if |t| < |one| {
        ElementCut(e, t);
      } else {
        var tail := t[|one|..];
        ElementRead(e, tail);
        Dropped(reply, size, one, tail);
        EachCut(reply, size + |one|, out + [SEP] + ShowOne(e), es[1..]);
      }
    }
  }

  lemma ArrayCut(es: seq<Value>, t: string)
    requires Readable(Array(es)) && |PrintReply(Array(es))| <= 0x7FFF_FFFF
    requires t <= PrintReply(Array(es)) && t != PrintReply(Array(es))
    ensures Parsed(t, 0, []).ret == if AsksForMore(Array(es), |t|) then 1 else -1
  {
    var n := |es|;
    var head := "*" + Decimal(n) + CRLF;
    hide Decimal, Strtoll, Elements, Parsed, FindCrlf, InString, PrintEach;
    assert PrintReply(Array(es)) == head + PrintEach(es);
    CutOfBoth(head, PrintEach(es), t);
    if |t| < |head| {
      NoReply(t, n, 0, []);
    } else {
      var tail := t[|head|..];
      HeadOfPrint(t, n, tail);
      ArrayReply(t, 1 + |Decimal(n)|, n, 0, []);
      EachCut(t, |head|, Decimal(n), es);
    }
  }

  /** A line cut short has no end. */
  lemma LineCut(kind: char, text: string, t: string)
    requires kind != '\r' && OneLine(text) && t <= [kind] + text + CRLF && t != [kind] + text + CRLF
    ensures FindCrlf(t, 0) == -1
  {
    var line := [kind] + text + CRLF;
    assert forall k | 0 <= k < |t| :: t[k] == line[k];
    forall k | 0 <= k < |t| - 1 ensures !(t[k] == '\r' && t[k + 1] == '\n') {
      if 1 <= k < |text| {
        assert t[k] == text[k - 1] && t[k + 1] == text[k];
      }
    }
    NoEnd(t, 0);
  }

  lemma {:induction false} NoEnd(t: string, from: nat)
    requires forall k | from <= k < |t| - 1 :: !(t[k] == '\r' && t[k + 1] == '\n')
    ensures FindCrlf(t, from) == -1
    decreases |t| - from
  {
    if from + 2 <= |t| {
      NoEnd(t, from + 1);
    }
  }

  lemma StringCut(s: string, t: string)
    requires s != [] && |PrintReply(Bulk(s))| <= 0x7FFF_FFFF && t <= PrintReply(Bulk(s)) && t != PrintReply(Bulk(s))
    ensures Parsed(t, 0, []).ret == if |t| >= HeadLength(s) then 1 else -1
  {
    var n := |s|;
    var head := "$" + Decimal(n) + CRLF;
    hide Decimal, SingleStr, FindCrlf, Parsed, OneLine, Signed;
    assert PrintReply(Bulk(s)) == head + (s + CRLF);
    CutOfBoth(head, s + CRLF, t);
    if |t| < |head| {
      DigitsOneLine(n);
      SignedOfNat(n);
      assert head == ['$'] + Signed(n) + CRLF;
      LineCut('$', Signed(n), t);
      NoLine(t);
    } else {
      ElementCut(Bulk(s), t);
      HeadOfString(t, s, t[|head|..]);
      StringReply(t);
    }
  }

  lemma SignedOfNat(n: nat)
    ensures Signed(n) == Decimal(n)
  {
  }

  /** No readable reply that is cut short is taken for a reply: ParseReply asks for more if the cut is
      in the text of a string, and reports an error elsewhere. */
  lemma ReplyCut(v: Value, t: string)
    requires WellFormed(v) && Readable(v) && |PrintReply(v)| <= 0x7FFF_FFFF && t <= PrintReply(v) && t != PrintReply(v)
    ensures Parsed(t, 0, []).ret == if AsksForMore(v, |t|) then 1 else -1
  {
    hide Parsed, Elements, SingleStr, FindCrlf, Strtoll, OneLine;
    if v.Bulk? {
      StringCut(v.s, t);
    } else if v.Array? {
      ArrayCut(v.es, t);
    } else {
      var kind := PrintReply(v)[0];
      var text := match v case Error(x) => x case Status(x) => x case Integer(n) => Signed(n) case _ => "-1";
      if v.Integer? {
        DigitsOneLine(v.n);
      }
      OneLineMinusOne();
      assert PrintReply(v) == [kind] + text + CRLF;
      LineCut(kind, text, t);
      NoLine(t);
    }
  }

  lemma OneLineMinusOne()
    ensures OneLine("-1")
  {
  }

  lemma NoLine(t: string)
    requires FindCrlf(t, 0) == -1
    ensures Parsed(t, 0, []).ret == -1
  {
    hide FindCrlf;
  }
}
