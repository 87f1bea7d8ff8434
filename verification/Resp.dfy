/** RedisParser: commands printed in the Redis serialization protocol, replies parsed. */
module Resp {
  import opened Options

  const SEP: char := 1 as char
  const CRLF: string := ['\r', '\n']

  /** The character at `i` of a string's c_str(): reading past the end is modelled as reading NUL. */
  function At(s: string, i: int): char {
    if 0 <= i < |s| then s[i] else 0 as char
  }

  /** string::find of CR LF from position `from`. */
  function FindCrlf(s: string, from: nat): (i: int)
    ensures i == -1 || (from <= i && i + 2 <= |s| && s[i] == '\r' && s[i + 1] == '\n')
    decreases |s| - from
  {
    if from + 2 > |s| then -1
    else if s[from] == '\r' && s[from + 1] == '\n' then from
    else FindCrlf(s, from + 1)
  }

  lemma {:induction false} FindsFirst(s: string, from: nat, i: nat)
    requires from <= i && i + 2 <= |s| && s[i] == '\r' && s[i + 1] == '\n'
    requires forall k | from <= k < i :: s[k] != '\r'
    ensures FindCrlf(s, from) == i
    decreases i - from
  {
    if from < i {
      FindsFirst(s, from + 1, i);
    }
  }

  lemma {:induction false} FindsNone(s: string, from: nat)
    requires forall k | from <= k < |s| - 1 :: s[k] != '\r'
    ensures FindCrlf(s, from) == -1
    decreases |s| - from
  {
    if from + 2 <= |s| {
      FindsNone(s, from + 1);
    }
  }

  // ---------- numbers ----------

  function DigitChar(d: nat): char
    requires d < 10
  {
    (d + '0' as int) as char
  }

  predicate IsDigit(c: char) { '0' <= c <= '9' }

  /** sprintf with %u. */
  function Decimal(n: nat): (s: string)
    ensures |s| > 0 && forall i | 0 <= i < |s| :: IsDigit(s[i])
  {
    if n < 10 then [DigitChar(n)] else Decimal(n / 10) + [DigitChar(n % 10)]
  }

  datatype Number = Number(value: int, end: nat)

  const LLONG_MAX: int := 0x7FFF_FFFF_FFFF_FFFF

  /** strtoll in base 10: space, a sign, digits; no digits at all make it 0 at the start. */
  function Strtoll(s: string, at: nat): (r: Number)
    ensures r.end >= at
  {
    var i := SkipSpace(s, at);
    var sign := if At(s, i) == '-' then -1 else 1;
    var j := if At(s, i) == '-' || At(s, i) == '+' then i + 1 else i;
    if !IsDigit(At(s, j)) then Number(0, at)
    else
      var d := Digits(s, j, 0);
      Number(Clamp(sign * d.value), d.end)
  }

  function Clamp(v: int): int {
    if v > LLONG_MAX then LLONG_MAX else if v < -LLONG_MAX - 1 then -LLONG_MAX - 1 else v
  }

  function SkipSpace(s: string, at: nat): (i: nat)
    ensures i >= at
    decreases |s| - at
  {
    if at < |s| && (s[at] == ' ' || 9 <= s[at] as int <= 13) then SkipSpace(s, at + 1) else at
  }

  function Digits(s: string, at: nat, acc: nat): (r: Number)
    ensures r.end >= at && r.value >= 0
    decreases |s| - at
  {
    if at < |s| && IsDigit(s[at]) then Digits(s, at + 1, acc * 10 + (s[at] as int - '0' as int)) else Number(acc, at)
  }

  lemma {:induction false} DigitsOfDecimal(s: string, at: nat, n: nat)
    requires at + |Decimal(n)| <= |s| && s[at..at + |Decimal(n)|] == Decimal(n)
    ensures Digits(s, at, 0) == Digits(s, at + |Decimal(n)|, n)
  {
    var d := Decimal(n);
    var last := at + |d| - 1;
    assert s[last] == d[|d| - 1];
    if n >= 10 {
      var init := Decimal(n / 10);
      assert s[at..at + |init|] == s[at..at + |d|][..|init|] == init;
      DigitsOfDecimal(s, at, n / 10);
      assert n == (n / 10) * 10 + n % 10;
    }
  }

  /** strtoll reads back what sprintf wrote, up to the first other character. */
  lemma StrtollOfDecimal(s: string, at: nat, n: nat)
    requires n <= LLONG_MAX && at + |Decimal(n)| <= |s| && s[at..at + |Decimal(n)|] == Decimal(n)
    requires !IsDigit(At(s, at + |Decimal(n)|))
    ensures Strtoll(s, at) == Number(n, at + |Decimal(n)|)
  {
    assert s[at] == Decimal(n)[0];
    DigitsOfDecimal(s, at, n);
  }

  // ---------- printing commands ----------

  /** The segments with the separator between them. */
  function Join(segs: seq<string>): string {
    if segs == [] then [] else if |segs| == 1 then segs[0] else segs[0] + [SEP] + Join(segs[1..])
  }

  predicate SegmentsFit(segs: seq<string>) {
    forall i | 0 <= i < |segs| :: segs[i] != [] && SEP !in segs[i]
  }

  function PrintOne(seg: string): string { "$" + Decimal(|seg|) + CRLF + seg + CRLF }

  function PrintAll(segs: seq<string>): string {
    if segs == [] then [] else PrintAll(segs[..|segs| - 1]) + PrintOne(segs[|segs| - 1])
  }

  function Print(segs: seq<string>): string { "*" + Decimal(|segs|) + CRLF + PrintAll(segs) }

  /** The digits are decimal, and the most significant one comes first. */
  lemma Numerals()
    ensures Decimal(1) == "1" && Decimal(10) == "10" && Decimal(12) == "12"
  {
    assert Decimal(1) == "1";
  }

  /** How a segment is printed. */
  lemma PrintsOne(seg: string)
    ensures PrintAll([seg]) == PrintOne(seg) == "$" + Decimal(|seg|) + "\r\n" + seg + "\r\n"
  {
    hide Decimal;
    assert [seg][..0] == [];
    assert PrintAll([seg]) == [] + PrintOne(seg);
  }

  /** No segment is empty, but for one missing after a last separator. */
  predicate Accepted(text: string) {
    text != [] && text[0] != SEP && forall i | 0 <= i < |text| - 1 :: !(text[i] == SEP && text[i + 1] == SEP)
  }

  /** The text made of these segments, perhaps with one more separator at the end. */
  predicate MadeOf(text: string, segs: seq<string>) {
    segs != [] && SegmentsFit(segs) && (text == Join(segs) || text == Join(segs) + [SEP])
  }

  lemma {:induction false} JoinOneMore(segs: seq<string>, seg: string)
    ensures Join(segs + [seg]) == if segs == [] then seg else Join(segs) + [SEP] + seg
    decreases |segs|
  {
    if |segs| >= 1 {
      assert (segs + [seg])[1..] == segs[1..] + [seg];
      JoinOneMore(segs[1..], seg);
    }
  }

  /** string::find of the separator. */
  method FindSep(text: string, from: nat) returns (leader: int)
    requires from <= |text|
    ensures leader == -1 ==> SEP !in text[from..]
    ensures leader != -1 ==> from <= leader < |text| && text[leader] == SEP && SEP !in text[from..leader]
  {
    leader := from;
    while leader < |text|
      invariant from <= leader <= |text| && SEP !in text[from..leader]
    {
      if text[leader] == SEP {
        return;
      }
      leader := leader + 1;
    }
    leader := -1;
  }

  /** No empty segment so far. */
  predicate Clean(text: string, upto: nat) {
    upto <= |text| && (upto > 0 ==> text[0] != SEP)
    && forall i | 0 <= i && i + 1 < upto :: !(text[i] == SEP && text[i + 1] == SEP)
  }

  lemma CleanMore(text: string, from: nat, e: nat)
    requires Clean(text, from) && from < e <= |text| && SEP !in text[from..e]
    ensures Clean(text, e)
    ensures e < |text| ==> Clean(text, e + 1)
  {
    assert forall k | from <= k < e :: text[k] == text[from..e][k - from] && text[k] != SEP;
  }

  lemma PrintMore(segs: seq<string>, seg: string)
    ensures CRLF + PrintAll(segs) + "$" + Decimal(|seg|) + CRLF + seg + CRLF == CRLF + PrintAll(segs + [seg])
  {
    assert (segs + [seg])[..|segs|] == segs;
    hide Decimal;
  }

  /** The loop of ParseCmd: between passes, `more` segments may follow from `follower` on. */
  predicate Going(text: string, segs: seq<string>, follower: nat, more: bool) {
    SegmentsFit(segs) && Clean(text, follower)
    && if more then Begun(text, segs, follower) else follower == |text| && segs != [] && text == Join(segs)
  }

  lemma Passes(text: string, segs: seq<string>, follower: nat, leader: int, seg: string)
    requires Going(text, segs, follower, true) && leader != follower && -1 <= leader < |text|
    requires leader == -1 ==> SEP !in text[follower..] && follower < |text| && seg == text[follower..]
    requires leader != -1 ==>
      follower < leader && text[leader] == SEP && SEP !in text[follower..leader]
      && seg == text[follower..leader]
    ensures Going(text, segs + [seg], if leader != -1 then leader + 1 else |text|, leader != -1)
  {
    var e := if leader != -1 then leader else |text|;
    assert text[follower..e] == seg;
    NextSegment(text, segs, follower, seg);
    CleanMore(text, follower, e);
    hide Clean, Begun, Join;
  }

  /** An empty segment, first or after a separator. */
  lemma Gap(text: string, segs: seq<string>, follower: nat)
    requires Going(text, segs, follower, true) && follower < |text| && text[follower] == SEP
    ensures !Accepted(text)
  {
    if follower > 0 {
      assert text[follower - 1] == text[..follower][follower - 1] == SEP;
    }
  }

  lemma Whole(text: string, segs: seq<string>, follower: nat, more: bool)
    requires Going(text, segs, follower, more) && text != [] && (more ==> follower == |text|)
    ensures Accepted(text) && MadeOf(text, segs)
  {
    assert text[..|text|] == text;
  }

  /** ParseCmd: exactly the texts without an empty segment are accepted, and printed segment by
      segment. */
  method ParseCmd(text: string) returns (ok: bool, out: string, ghost segs: seq<string>)
    ensures ok <==> Accepted(text)
    ensures ok ==> MadeOf(text, segs) && out == Print(segs)
  {
    hide Going, Accepted, MadeOf, PrintAll, Decimal;
    segs, out := [], [];
    if |text| == 0 {
      NothingAccepted();
      return false, out, segs;
    }
    var result, follower, numSegs, more := CRLF, 0, 0, true;
    Starts(text);
    while more
      invariant 0 <= follower <= |text| && numSegs == |segs|
      invariant result == CRLF + PrintAll(segs)
      invariant Going(text, segs, follower, more)
      decreases |text| - follower, more
    {
      var leader := FindSep(text, follower);
      if leader == follower {
        Gap(text, segs, follower);
        return false, out, segs;
      }
      var len := if leader != -1 then leader - follower else |text| - follower;
      if len == 0 {
        break;
      }
      var seg := text[follower..follower + len];
      Passes(text, segs, follower, leader, seg);
      PrintMore(segs, seg);
      segs := segs + [seg];
      numSegs := numSegs + 1;
      result := result + "$" + Decimal(len) + CRLF + seg + CRLF;
      more := leader != -1;
      follower := if more then leader + 1 else |text|;
    }
    Whole(text, segs, follower, more);
    out := "*" + Decimal(numSegs) + result;
    return true, out, segs;
  }

  lemma NothingAccepted()
    ensures !Accepted([])
  {
  }

  lemma Starts(text: string)
    ensures Going(text, [], 0, true) && CRLF == CRLF + PrintAll([])
  {
  }

  /** What has been split off when the next segment starts at `follower`. */
  predicate Begun(text: string, segs: seq<string>, follower: nat)
  {
    follower <= |text| && if segs == [] then follower == 0 else text[..follower] == Join(segs) + [SEP]
  }

  lemma NextSegment(text: string, segs: seq<string>, follower: nat, seg: string)
    requires Begun(text, segs, follower) && follower + |seg| <= |text| && text[follower..follower + |seg|] == seg
    ensures text[..follower + |seg|] == Join(segs + [seg])
    ensures follower + |seg| < |text| && text[follower + |seg|] == SEP ==> Begun(text, segs + [seg], follower + |seg| + 1)
    ensures follower + |seg| == |text| ==> text == Join(segs + [seg])
  {
    JoinOneMore(segs, seg);
    var e := follower + |seg|;
    assert text[..e] == text[..follower] + seg;
    if e < |text| && text[e] == SEP {
      assert text[..e + 1] == text[..e] + [SEP];
    } else if e == |text| {
      assert text[..e] == text;
    }
  }
}
