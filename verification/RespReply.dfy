/** RedisParser::ParseReply, and why it reads back what ParseCmd printed. */
module RespReply {
  import opened Options
  import opened Resp

  /** A cast of a size_t to a signed 32-bit integer. */
  function Signed32(x: int): int { (x + 0x8000_0000) % 0x1_0000_0000 - 0x8000_0000 }

  // ---------- one bulk string ----------

  /** `ret`: 0 a string, 1 the null string, 2 more input is needed, -1 an error. */
  datatype Single = Single(ret: int, read: nat, out: string)

  /** GetLengthLinelength: the length of the line that starts with '$', -1 if it does not end. */
  function LengthLine(line: string): int
    requires line != []
  {
    if FindCrlf(line, 1) == -1 then -1 else FindCrlf(line, 1) + 2
  }

  /** ParseSingleStr on the rest `line` of the input; `read` is what has_read_len held before. */
  function SingleStr(line: string, read: nat): (r: Single)
    ensures r.ret == 0 || r.ret == 1 || r.ret == 2 || r.ret == -1
  {
    if At(line, 0) != '$' then Single(-1, read, [])
    else if LengthLine(line) == -1 then Single(-1, read, [])
    else
      var read := read + LengthLine(line);
      var n := Strtoll(line, 1);
      if n.value > 0 then
        var pos := n.end + 2;
        if n.value <= Signed32(|line| - read - 2) then
          if At(line, pos + n.value) == '\r' && At(line, pos + n.value + 1) == '\n' then
            Single(0, read + n.value + 2, line[pos..pos + n.value])
          else Single(-1, read, [])
        else Single(2, read, [])
      else if n.value == -1 then Single(1, read, [])
      else Single(-1, read, [])
  }

  // ---------- replies ----------

  /** `ret`: 0 a reply of `size` bytes, 1 more input is needed, -1 an error. */
  datatype Reply = Reply(ret: int, pong: bool, size: nat, out: string)

  /** The loop over the `k` elements of an array that are left. (An element cannot reach past the end
      of an input shorter than 2^31 bytes.) */
  function Elements(reply: string, size: nat, out: string, k: nat): Reply
    requires size <= |reply|
    decreases k
  {
    if k == 0 then Reply(0, false, size, out)
    else
      var one := SingleStr(reply[size..], 0);
      if one.ret == 2 then Reply(1, false, size, out)
      else if one.ret == -1 then Reply(-1, false, size, out)
      else
        var size' := size + one.read;
        var out' := out + [SEP] + if one.ret == 0 then one.out else "-1";
        if size' > |reply| then Reply(-1, false, size', out') else Elements(reply, size', out', k - 1)
  }

  /** ParseReply; `size` and `out` are what the out-parameters hold before. */
  function Parsed(reply: string, size: nat, out: string): Reply {
    var first := FindCrlf(reply, 0);
    if first == -1 then Reply(-1, false, size, out)
    else
      var line := first + 2;
      match reply[0]
      case '-' => Reply(0, false, line, out + "-1")
      case '+' => Reply(0, first == 5 && reply[1..5] == "PONG", line, out + "0")
      case ':' => Reply(0, false, line, out + "1" + [SEP] + (if first > 0 then reply[1..first] else []))
      case '$' =>
        var one := SingleStr(reply, size);
        if one.ret == 0 then Reply(0, false, one.read, out + "1" + [SEP] + one.out)
        else if one.ret == 1 then Reply(0, false, one.read, out + "0")
        else if one.ret == 2 then Reply(1, false, one.read, out)
        else Reply(-1, false, one.read, out)
      case '*' =>
        var n := Strtoll(reply, 1).value;
        if n > 0 then Elements(reply, line, reply[1..first], n)
        else if n == -1 then Reply(0, false, line, out + "0")
        else Reply(-1, false, line, out)
      case _ => Reply(-1, false, size, out)
  }

  // ---------- the methods ----------

  /** The two nested loops of GetLengthLinelength. */
  method GetLengthLinelength(line: string) returns (len: int)
    requires line != []
    ensures len == LengthLine(line)
  {
    var pos, safe := 1, |line| - 1;
    while pos < safe
      invariant 1 <= pos && (pos <= safe || pos == 1)
      invariant FindCrlf(line, pos) == FindCrlf(line, 1)
      decreases safe - pos
    {
      while pos < safe && line[pos] != '\r'
        invariant 1 <= pos <= safe
        invariant FindCrlf(line, pos) == FindCrlf(line, 1)
      {
        pos := pos + 1;
      }
      if pos == safe {
        return -1;
      }
      if line[pos + 1] == '\n' {
        return pos + 2;
      }
      pos := pos + 1;
    }
    return -1;
  }

  method ParseSingleStr(line: string, read0: nat) returns (ret: int, read: nat, out: string)
    ensures Single(ret, read, out) == SingleStr(line, read0)
  {
    ret, read, out := -1, read0, [];
    if At(line, 0) == '$' {
      var len := GetLengthLinelength(line);
      if len == -1 {
        return;
      }
      read := read + len;
      var n := Strtoll(line, 1);
      if n.value > 0 {
        var pos := n.end + 2;
        if n.value <= Signed32(|line| - read - 2) {
          if At(line, pos + n.value) == '\r' && At(line, pos + n.value + 1) == '\n' {
            out := line[pos..pos + n.value];
            read := read + n.value + 2;
            ret := 0;
          }
        } else {
          ret := 2;
        }
      } else if n.value == -1 {
        ret := 1;
      }
    }
  }

  method ParseReply(reply: string, size0: nat, out0: string) returns (ret: int, pong: bool, size: nat, out: string)
    ensures Reply(ret, pong, size, out) == Parsed(reply, size0, out0)
  {
    hide SingleStr;
    ret, pong, size, out := -1, false, size0, out0;
    var first := FindCrlf(reply, 0);
    if first == -1 {
      return;
    }
    match reply[0] {
      case '-' => ret, size, out := 0, first + 2, out + "-1";
      case '+' =>
        ret, size, out := 0, first + 2, out + "0";
        pong := first == 5 && reply[1..5] == "PONG";
      case ':' => ret, size, out := 0, first + 2, out + "1" + [SEP] + (if first > 0 then reply[1..first] else []);
      case '$' =>
        var one, read, text := ParseSingleStr(reply, size);
        size := read;
        if one == 0 {
          ret, out := 0, out + "1" + [SEP] + text;
        } else if one == 1 {
          ret, out := 0, out + "0";
        } else if one == 2 {
          ret := 1;
        }
      case '*' =>
        size := first + 2;
        var n := Strtoll(reply, 1).value;
        if n > 0 {
          ret, size, out := ParseElements(reply, size, reply[1..first], n);
        } else if n == -1 {
          ret, out := 0, out + "0";
        }
      case _ =>
    }
  }

  /** The loop over the elements of an array. */
  method ParseElements(reply: string, size0: nat, out0: string, n: nat) returns (ret: int, size: nat, out: string)
    requires size0 <= |reply|
    ensures Reply(ret, false, size, out) == Elements(reply, size0, out0, n)
  {
    hide SingleStr;
    ret, size, out := 0, size0, out0;
    var i := 0;
    while i < n
      invariant i <= n && size <= |reply|
      invariant Elements(reply, size, out, n - i) == Elements(reply, size0, out0, n)
    {
      var one, read, text := ParseSingleStr(reply[size..], 0);
      if one == 2 {
        return 1, size, out;
      }
      if one == -1 {
        return -1, size, out;
      }
      out := out + [SEP] + if one == 0 then text else "-1";
      size := size + read;
      if size > |reply| {
        return -1, size, out;
      }
      i := i + 1;
    }
  }

  // ---------- a command read back as a reply ----------

  lemma NoCr(s: string, from: nat, to: nat, n: nat)
    requires from <= to <= |s| && s[from..to] <= Decimal(n)
    ensures forall k | from <= k < to :: s[k] != '\r' && IsDigit(s[k])
  {
    forall k | from <= k < to ensures IsDigit(s[k]) {
      assert s[k] == s[from..to][k - from] == Decimal(n)[k - from];
    }
  }

  /** The line that starts with the length `n` of a segment. */
  lemma LengthLineOfDecimal(line: string, n: nat)
    requires var d := |Decimal(n)|;
      d + 3 <= |line| && line[0] == '$' && line[1..1 + d] == Decimal(n) && line[1 + d] == '\r' && line[2 + d] == '\n'
    requires n <= LLONG_MAX
    ensures LengthLine(line) == |Decimal(n)| + 3 && Strtoll(line, 1) == Number(n, 1 + |Decimal(n)|)
  {
    var d := |Decimal(n)|;
    NoCr(line, 1, 1 + d, n);
    FindsFirst(line, 1, 1 + d);
    StrtollOfDecimal(line, 1, n);
  }

  /** ParseSingleStr once the length `n` at the front has been read. */
  lemma SingleStrOf(line: string, n: nat, end: nat)
    requires At(line, 0) == '$' && n > 0 && end >= 1 && LengthLine(line) == end + 2 && Strtoll(line, 1) == Number(n, end)
    ensures SingleStr(line, 0)
         == if n > Signed32(|line| - (end + 2) - 2) then Single(2, end + 2, [])
            else if At(line, end + 2 + n) == '\r' && At(line, end + 3 + n) == '\n' then
              Single(0, end + n + 4, line[end + 2..end + 2 + n])
            else Single(-1, end + 2, [])
  {
    hide LengthLine, Strtoll;
  }

  /** A printed segment, whatever follows it. */
  lemma SegmentReadBack(seg: string, rest: string)
    requires seg != [] && |PrintOne(seg) + rest| <= 0x7FFF_FFFF
    ensures SingleStr(PrintOne(seg) + rest, 0) == Single(0, |PrintOne(seg)|, seg)
  {
    var line, d := PrintOne(seg) + rest, |Decimal(|seg|)|;
    assert line[1..1 + d] == Decimal(|seg|);
    LengthLineOfDecimal(line, |seg|);
    hide Decimal, Strtoll, LengthLine, SingleStr;
    SingleStrOf(line, |seg|, 1 + d);
    assert line[d + 3..d + 3 + |seg|] == seg;
  }

  lemma {:induction false} PrintAllSplit(segs: seq<string>)
    requires segs != []
    ensures PrintAll(segs) == PrintOne(segs[0]) + PrintAll(segs[1..])
    decreases |segs|
  {
    hide PrintOne;
    var n := |segs| - 1;
    if n == 0 {
      assert segs[..0] == [] && segs[1..] == [];
    } else {
      var first, last, middle := PrintOne(segs[0]), PrintOne(segs[n]), PrintAll(segs[1..n]);
      PrintAllSplit(segs[..n]);
      assert segs[..n][1..] == segs[1..n] && segs[1..][..n - 1] == segs[1..n];
      assert PrintAll(segs) == (first + middle) + last && PrintAll(segs[1..]) == middle + last;
    }
  }

  /** The segments with a separator before each. */
  function Listed(segs: seq<string>): string {
    if segs == [] then [] else [SEP] + segs[0] + Listed(segs[1..])
  }

  lemma {:induction false} ListedIsJoin(segs: seq<string>)
    requires segs != []
    ensures Listed(segs) == [SEP] + Join(segs)
  {
    if |segs| > 1 {
      ListedIsJoin(segs[1..]);
    } else {
      assert Listed(segs[1..]) == [];
    }
  }

  lemma {:induction false} ElementsReadBack(reply: string, size: nat, out: string, segs: seq<string>, rest: string)
    requires SegmentsFit(segs) && size <= |reply| <= 0x7FFF_FFFF && reply[size..] == PrintAll(segs) + rest
    ensures Elements(reply, size, out, |segs|) == Reply(0, false, size + |PrintAll(segs)|, out + Listed(segs))
    decreases |segs|
  {
    hide SingleStr, PrintOne;
    if segs != [] {
      var seg, tail := segs[0], PrintAll(segs[1..]) + rest;
      PrintAllSplit(segs);
      assert reply[size..] == PrintOne(seg) + tail;
      SegmentReadBack(seg, tail);
      var size' := size + |PrintOne(seg)|;
      assert reply[size'..] == reply[size..][|PrintOne(seg)|..] == tail;
      ElementsReadBack(reply, size', out + [SEP] + seg, segs[1..], rest);
      assert (out + [SEP] + seg) + Listed(segs[1..]) == out + Listed(segs);
    }
  }

  /** The first line of a printed command. */
  lemma HeadOfPrint(reply: string, n: nat, tail: string)
    requires 0 < n <= LLONG_MAX && reply == "*" + Decimal(n) + CRLF + tail
    ensures var d := |Decimal(n)|;
      FindCrlf(reply, 0) == 1 + d && Strtoll(reply, 1).value == n && reply[1..1 + d] == Decimal(n) && reply[d + 3..] == tail
  {
    var d := |Decimal(n)|;
    assert reply[1..1 + d] == Decimal(n);
    NoCr(reply, 1, 1 + d, n);
    FindsFirst(reply, 0, 1 + d);
    StrtollOfDecimal(reply, 1, n);
  }

  lemma ArrayReply(reply: string, first: nat, n: nat, size: nat, out: string)
    requires reply != [] && reply[0] == '*' && FindCrlf(reply, 0) == first && 0 < first && Strtoll(reply, 1).value == n > 0
    ensures Parsed(reply, size, out) == Elements(reply, first + 2, reply[1..first], n)
  {
    hide Elements, SingleStr, Strtoll;
  }

  /** Whatever command ParseCmd prints, ParseReply takes back exactly those bytes and yields the
      number of segments followed by the segments. */
  lemma RoundTrip(segs: seq<string>, rest: string, size: nat, out: string)
    requires segs != [] && SegmentsFit(segs) && |Print(segs) + rest| <= 0x7FFF_FFFF
    ensures Parsed(Print(segs) + rest, size, out)
         == Reply(0, false, |Print(segs)|, Decimal(|segs|) + [SEP] + Join(segs))
  {
    hide Decimal, Strtoll, PrintAll, Elements, Parsed, FindCrlf;
    var reply, n := Print(segs) + rest, |segs|;
    SegmentsCost(segs);
    assert reply == "*" + Decimal(n) + CRLF + (PrintAll(segs) + rest);
    HeadOfPrint(reply, n, PrintAll(segs) + rest);
    ArrayReply(reply, 1 + |Decimal(n)|, n, size, out);
    ElementsReadBack(reply, 3 + |Decimal(n)|, Decimal(n), segs, rest);
    ListedIsJoin(segs);
    assert Decimal(n) + Listed(segs) == Decimal(n) + [SEP] + Join(segs);
  }

  lemma {:induction false} SegmentsCost(segs: seq<string>)
    ensures |PrintAll(segs)| >= |segs|
  {
    if segs != [] {
      SegmentsCost(segs[..|segs| - 1]);
    }
  }

  // ---------- a command cut short ----------

  /** How a printed segment begins, and so every string that begins like it. */
  lemma SegmentHead(seg: string, line: string)
    requires seg != [] && line <= PrintOne(seg)
    ensures var d := |Decimal(|seg|)|;
      |PrintOne(seg)| == d + 5 + |seg|
      && (line != [] ==> line[0] == '$')
      && (forall i | 1 <= i < |line| && i < 1 + d :: line[i] == Decimal(|seg|)[i - 1])
      && (|line| >= d + 3 ==> line[1 + d] == '\r' && line[2 + d] == '\n')
  {
    var one := PrintOne(seg);
    hide Decimal;
    assert forall i | 0 <= i < |line| :: line[i] == one[i];
  }

  /** A segment cut short is never taken for a string. */
  lemma SegmentCut(seg: string, line: string)
    requires seg != [] && |PrintOne(seg)| <= 0x7FFF_FFFF && line <= PrintOne(seg) && line != PrintOne(seg)
    ensures SingleStr(line, 0).ret == if |line| >= |Decimal(|seg|)| + 3 then 2 else -1
  {
    var d := |Decimal(|seg|)|;
    SegmentHead(seg, line);
    assert |line| < |PrintOne(seg)|;
    hide PrintOne, Strtoll, SingleStr, LengthLine, Decimal;
    if |line| >= d + 3 {
      assert line[1..1 + d] == Decimal(|seg|);
      LengthLineOfDecimal(line, |seg|);
      SingleStrOf(line, |seg|, 1 + d);
    } else {
      assert forall k | 1 <= k < |line| - 1 :: IsDigit(line[k]);
      NoLength(line);
    }
  }

  /** The length is cut short. */
  lemma NoLength(line: string)
    requires forall k | 1 <= k < |line| - 1 :: line[k] != '\r'
    ensures SingleStr(line, 0).ret == -1
  {
    hide Strtoll;
    if line != [] {
      FindsNone(line, 1);
    }
  }

  lemma {:induction false} ElementsCut(reply: string, size: nat, out: string, segs: seq<string>)
    requires SegmentsFit(segs) && size <= |reply| && size + |PrintAll(segs)| <= 0x7FFF_FFFF
    requires reply[size..] <= PrintAll(segs) && reply[size..] != PrintAll(segs)
    ensures Elements(reply, size, out, |segs|).ret != 0
    decreases |segs|
  {
    hide SingleStr, PrintOne;
    if segs != [] {
      var seg, line := segs[0], reply[size..];
      var one := PrintOne(seg);
      PrintAllSplit(segs);
      if |line| < |one| {
        assert line == PrintAll(segs)[..|line|] == one[..|line|];
        SegmentCut(seg, line);
      } else {
        assert line[..|one|] == PrintAll(segs)[..|one|] == one;
        var tail := line[|one|..];
        assert line == one + tail;
        SegmentReadBack(seg, tail);
        assert reply[size + |one|..] == tail;
        assert tail == PrintAll(segs)[..|line|][|one|..] == PrintAll(segs[1..])[..|tail|];
        ElementsCut(reply, size + |one|, out + [SEP] + seg, segs[1..]);
      }
    }
  }

  /** No proper prefix of a printed command is taken for a reply. */
  lemma NoProperPrefix(segs: seq<string>, reply: string, size: nat, out: string)
    requires segs != [] && SegmentsFit(segs) && |Print(segs)| <= 0x7FFF_FFFF
    requires reply <= Print(segs) && reply != Print(segs)
    ensures Parsed(reply, size, out).ret != 0
  {
    var n := |segs|;
    var d := |Decimal(n)|;
    PrintFrom(segs, reply);
    hide Decimal, Strtoll, PrintAll, Elements, Parsed, FindCrlf, Print, SegmentsFit;
    if |reply| >= d + 3 {
      var tail := reply[d + 3..];
      HeadOfPrint(reply, n, tail);
      ArrayReply(reply, 1 + d, n, size, out);
      ElementsCut(reply, d + 3, Decimal(n), segs);
    } else {
      NoReply(reply, n, size, out);
    }
  }

  /** How a prefix of a printed command looks. */
  lemma PrintFrom(segs: seq<string>, reply: string)
    requires segs != [] && SegmentsFit(segs) && |Print(segs)| <= 0x7FFF_FFFF
    requires reply <= Print(segs) && reply != Print(segs)
    ensures var d := |Decimal(|segs|)|;
      |segs| <= 0x7FFF_FFFF && d + 3 + |PrintAll(segs)| <= 0x7FFF_FFFF
      && if |reply| >= d + 3 then
           reply == "*" + Decimal(|segs|) + CRLF + reply[d + 3..]
           && reply[d + 3..] <= PrintAll(segs) && reply[d + 3..] != PrintAll(segs)
         else reply <= "*" + Decimal(|segs|) + CRLF
  {
    SegmentsCost(segs);
    hide Decimal, PrintAll;
    PrefixOfBoth("*" + Decimal(|segs|) + CRLF, PrintAll(segs), reply);
  }

  lemma PrefixOfBoth(head: string, body: string, s: string)
    requires s <= head + body && s != head + body
    ensures if |s| >= |head| then s == head + s[|head|..] && s[|head|..] <= body && s[|head|..] != body else s <= head
  {
    assert s == (head + body)[..|s|];
    if |s| >= |head| {
      assert s[|head|..] == body[..|s| - |head|];
    } else {
      assert s == head[..|s|];
    }
  }

  /** The first line cut short. */
  lemma NoReply(reply: string, n: nat, size: nat, out: string)
    requires reply <= "*" + Decimal(n) + CRLF && |reply| < |Decimal(n)| + 3
    ensures Parsed(reply, size, out).ret == -1
  {
    var head, d := "*" + Decimal(n) + CRLF, |Decimal(n)|;
    assert reply == head[..|reply|];
    if reply != [] {
      var e := if |reply| < 1 + d then |reply| else 1 + d;
      assert reply[1..e] == Decimal(n)[..e - 1];
      NoCr(reply, 1, e, n);
      assert reply[0] == '*';
    }
    FindsNone(reply, 0);
    hide Strtoll, SingleStr, Elements;
  }
}
