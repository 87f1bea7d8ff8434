/** The base64 codecs of string_util.cpp (RFC 4648, sections 4 and 5). */
module Base64 {
  import Arithmetic

  type octet = bv8

  /** kEncodeTable. */
  function Enc(v: octet): octet
    requires v < 64
  {
    if v < 26 then v + 65 else if v < 52 then v + 71 else if v < 62 then v - 4 else if v == 62 then 43 else 47
  }

  /** kDecodeTable: 0xff for every byte outside the alphabet. */
  function Dec(c: octet): octet {
    if 65 <= c <= 90 then c - 65 else if 97 <= c <= 122 then c - 71 else if 48 <= c <= 57 then c + 4
    else if c == 43 then 62 else if c == 47 then 63 else 0xff
  }

  lemma DecOfEnc(v: octet)
    requires v < 64
    ensures Dec(Enc(v)) == v && !Blank(Enc(v)) && Enc(v) != 61
  {
  }

  /** The alphabet of RFC 4648, section 4, in its order. */
  lemma Alphabet()
    ensures [Enc(0), Enc(1), Enc(2), Enc(3), Enc(4), Enc(5), Enc(6), Enc(7), Enc(8), Enc(9), Enc(10), Enc(11), Enc(12)]
         == [65, 66, 67, 68, 69, 70, 71, 72, 73, 74, 75, 76, 77]
    ensures [Enc(13), Enc(14), Enc(15), Enc(16), Enc(17), Enc(18), Enc(19), Enc(20), Enc(21), Enc(22), Enc(23), Enc(24), Enc(25)]
         == [78, 79, 80, 81, 82, 83, 84, 85, 86, 87, 88, 89, 90]
    ensures [Enc(26), Enc(27), Enc(28), Enc(29), Enc(30), Enc(31), Enc(32), Enc(33), Enc(34), Enc(35), Enc(36), Enc(37), Enc(38)]
         == [97, 98, 99, 100, 101, 102, 103, 104, 105, 106, 107, 108, 109]
    ensures [Enc(39), Enc(40), Enc(41), Enc(42), Enc(43), Enc(44), Enc(45), Enc(46), Enc(47), Enc(48), Enc(49), Enc(50), Enc(51)]
         == [110, 111, 112, 113, 114, 115, 116, 117, 118, 119, 120, 121, 122]
    ensures [Enc(52), Enc(53), Enc(54), Enc(55), Enc(56), Enc(57), Enc(58), Enc(59), Enc(60), Enc(61), Enc(62), Enc(63)]
         == [48, 49, 50, 51, 52, 53, 54, 55, 56, 57, 43, 47]
  {
  }

  /** The two tables are each other's inverse, and a byte outside the alphabet decodes to 0xff. */
  lemma TablesInvert(c: octet)
    ensures Dec(c) < 64 || Dec(c) == 0xff
    ensures Dec(c) < 64 <==> exists v: octet :: v < 64 && Enc(v) == c
    ensures Dec(c) < 64 ==> Enc(Dec(c)) == c
  {
    if Dec(c) < 64 {
      var w := Dec(c);
      assert Enc(w) == c;
    }
    if v: octet :| v < 64 && Enc(v) == c {
      DecOfEnc(v);
    }
  }

  /** Base64Decode refuses nothing: a byte outside the alphabet counts as six set bits. */
  lemma ForeignByteDecodes()
    ensures Bytes([224, 65, 65, 65], []) == [0xfc, 0, 0]
    ensures Bytes([65, 65, 65, 224], []) == [0, 0, 0xff]
  {
    var a, b: seq<octet> := [224, 65, 65, 65], [65, 65, 65, 224];
    assert a[1..] == [65, 65, 65] && a[1..][1..] == [65, 65] && a[1..][1..][1..] == [65];
    assert b[1..] == [65, 65, 224] && b[1..][1..] == [65, 224] && b[1..][1..][1..] == [224];
    BytesOfGroup(a, []);
    BytesOfGroup(b, []);
    assert a + [] == a && b + [] == b;
  }

  /** White space that decoding skips: newline, return, tab, space, form feed, backspace, delete. */
  predicate Blank(c: octet) { c == 10 || c == 13 || c == 9 || c == 32 || c == 12 || c == 8 || c == 127 }

  // ---------- groups ----------

  /** _base64_encode on one, two or three bytes, with the padding that follows. */
  function Group(g: seq<octet>): (t: seq<octet>)
    requires 1 <= |g| <= 3
    ensures |t| == 4
  {
    if |g| == 3 then
      [Enc((g[0] >> 2) & 0x3f), Enc(((g[0] << 4) + (g[1] >> 4)) & 0x3f),
       Enc(((g[1] << 2) + (g[2] >> 6)) & 0x3f), Enc(g[2] & 0x3f)]
    else if |g| == 2 then
      [Enc((g[0] >> 2) & 0x3f), Enc(((g[0] << 4) + (g[1] >> 4)) & 0x3f), Enc((g[1] << 2) & 0x3f), 61]
    else [Enc((g[0] >> 2) & 0x3f), Enc((g[0] << 4) & 0x3f), 61, 61]
  }

  /** _base64_decode on two, three or four characters. */
  function Ungroup(b: seq<octet>): (g: seq<octet>)
    requires 2 <= |b| <= 4
    ensures |g| == |b| - 1
  {
    [(Dec(b[0]) << 2) | (Dec(b[1]) >> 4)]
    + (if |b| > 2 then [((Dec(b[1]) << 4) & 0xf0) | (Dec(b[2]) >> 2)] else [])
    + (if |b| > 3 then [((Dec(b[2]) << 6) & 0xc0) | Dec(b[3])] else [])
  }

  /** Section 4 of RFC 4648: the bits of the bytes in turn, the most significant first, six to a character. */
  lemma SixBitsEach(g: seq<octet>)
    requires 1 <= |g| <= 3
    ensures var b: octet, c: octet := if |g| > 1 then g[1] else 0, if |g| > 2 then g[2] else 0;
      var t := Group(g);
      t[0] == Enc(g[0] / 4) && t[1] == Enc(g[0] % 4 * 16 + b / 16)
      && t[2] == (if |g| > 1 then Enc(b % 16 * 4 + c / 64) else 61) && t[3] == (if |g| > 2 then Enc(c % 64) else 61)
  {
    var b: octet, c: octet := if |g| > 1 then g[1] else 0, if |g| > 2 then g[2] else 0;
    Sixes(g[0], b, c);
    hide Enc;
  }

  lemma Sixes(a: octet, b: octet, c: octet)
    ensures a / 4 == (a >> 2) & 0x3f && c % 64 == c & 0x3f && a / 4 < 64 && c % 64 < 64
    ensures a % 4 * 16 + b / 16 == ((a << 4) + (b >> 4)) & 0x3f && b % 16 * 4 + c / 64 == ((b << 2) + (c >> 6)) & 0x3f
    ensures a % 4 * 16 + b / 16 < 64 && b % 16 * 4 + c / 64 < 64
  {
  }

  lemma UngroupOfGroup(g: seq<octet>)
    requires 1 <= |g| <= 3
    ensures Ungroup(Group(g)[..|g| + 1]) == g
    ensures forall i | 0 <= i <= |g| :: !Blank(Group(g)[i]) && Group(g)[i] != 61
  {
    DecOfEnc((g[0] >> 2) & 0x3f);
    var t := Group(g)[..|g| + 1];
    if |g| == 3 {
      DecOfEnc(((g[0] << 4) + (g[1] >> 4)) & 0x3f);
      DecOfEnc(((g[1] << 2) + (g[2] >> 6)) & 0x3f);
      DecOfEnc(g[2] & 0x3f);
      Bits3(g[0], g[1], g[2]);
    } else if |g| == 2 {
      DecOfEnc(((g[0] << 4) + (g[1] >> 4)) & 0x3f);
      DecOfEnc((g[1] << 2) & 0x3f);
      Bits2(g[0], g[1]);
    } else {
      DecOfEnc((g[0] << 4) & 0x3f);
      Bits1(g[0]);
    }
    hide Enc, Dec, Blank;
    assert Ungroup(t) == g;
  }

  lemma Bits1(a: octet)
    ensures (((a >> 2) & 0x3f) << 2) | (((a << 4) & 0x3f) >> 4) == a
  {
  }

  lemma Bits2(a: octet, b: octet)
    ensures (((a >> 2) & 0x3f) << 2) | ((((a << 4) + (b >> 4)) & 0x3f) >> 4) == a
    ensures (((((a << 4) + (b >> 4)) & 0x3f) << 4) & 0xf0) | (((b << 2) & 0x3f) >> 2) == b
  {
  }

  lemma Bits3(a: octet, b: octet, c: octet)
    ensures (((a >> 2) & 0x3f) << 2) | ((((a << 4) + (b >> 4)) & 0x3f) >> 4) == a
    ensures (((((a << 4) + (b >> 4)) & 0x3f) << 4) & 0xf0) | ((((b << 2) + (c >> 6)) & 0x3f) >> 2) == b
    ensures (((((b << 2) + (c >> 6)) & 0x3f) << 6) & 0xc0) | (c & 0x3f) == c
  {
  }

  // ---------- encoding ----------

  /** How many characters go on a line: `wraps`, cut to what the line buffer holds; none is no limit. */
  function LineLimit(wraps: int): int { if wraps > 508 then 508 else wraps }

  /** The text for `src` when the current line has `cnt` characters; `wraps` is cut already. */
  function Text(src: seq<octet>, wraps: int, cnt: nat): seq<octet>
    decreases |src|
  {
    if |src| >= 3 then
      if cnt + 4 >= wraps then
        Group(src[..3]) + (if wraps > 0 then [10] else []) + Text(src[3..], wraps, 0)
      else Group(src[..3]) + Text(src[3..], wraps, cnt + 4)
    else if src == [] then [] else Group(src)
  }

  datatype Result = Failed(code: int) | Done(bytes: seq<octet>)

  /** The text is what has been written, the line buffer, and the text for the rest. */
  predicate Adds(all: seq<octet>, dst: seq<octet>, buf: seq<octet>, rest: seq<octet>) { all == dst + buf + rest }

  /** One group more in the line buffer. */
  lemma TextStep(all: seq<octet>, src: seq<octet>, at: nat, wraps: int, dst: seq<octet>, buf: seq<octet>)
    requires at + 3 <= |src| && Adds(all, dst, buf, Text(src[at..], wraps, |buf|))
    ensures var line := buf + Group(src[at..at + 3]);
      if |line| < wraps then Adds(all, dst, line, Text(src[at + 3..], wraps, |line|))
      else Adds(all, dst, if wraps > 0 then line + [10] else line, Text(src[at + 3..], wraps, 0))
  {
    hide Group;
    assert src[at..][..3] == src[at..at + 3] && src[at..][3..] == src[at + 3..];
  }

  lemma Flushed(all: seq<octet>, dst: seq<octet>, buf: seq<octet>, rest: seq<octet>)
    requires Adds(all, dst, buf, rest)
    ensures Adds(all, dst + buf, [], rest) && |all| >= |dst| + |buf|
  {
  }

  lemma TextEnd(all: seq<octet>, dst: seq<octet>, buf: seq<octet>, src: seq<octet>, wraps: int)
    requires |src| < 3 && Adds(all, dst, buf, Text(src, wraps, |buf|))
    ensures all == dst + if src == [] then buf else buf + Group(src)
  {
    hide Group;
  }

  /** go_base64_encode into a buffer of `dstLen0` bytes: -1 exactly when the text does not fit. */
  method GoEncode(src: seq<octet>, dstLen0: int, wraps0: int) returns (r: Result)
    requires dstLen0 >= 0
    ensures var t := Text(src, LineLimit(wraps0), 0);
      r == if |t| <= dstLen0 then Done(t) else Failed(-1)
  {
    hide Group, Text, Adds;
    var wraps := LineLimit(wraps0);
    var buf: seq<octet>, dst: seq<octet> := [], [];
    var at, dstLen := 0, dstLen0;
    ghost var all := Text(src, wraps, 0);
    AddsNothing(all, src);
    while |src| - at >= 3
      invariant at <= |src| && dstLen == dstLen0 - |dst| >= 0
      invariant |buf| == 0 || |buf| < wraps <= 508
      invariant Adds(all, dst, buf, Text(src[at..], wraps, |buf|))
    {
      TextStep(all, src, at, wraps, dst, buf);
      buf := buf + Group(src[at..at + 3]);
      at := at + 3;
      if |buf| >= wraps {
        if wraps > 0 {
          buf := buf + [10];
        }
        assert |buf| <= 512;
        Flushed(all, dst, buf, Text(src[at..], wraps, 0));
        if dstLen < |buf| {
          return Failed(-1);
        }
        dst := dst + buf;
        dstLen := dstLen - |buf|;
        buf := [];
      }
    }
    TextEnd(all, dst, buf, src[at..], wraps);
    if |src| - at > 0 {
      buf := buf + Group(src[at..]);
      assert |buf| <= 512;
    }
    if |buf| > 0 {
      if dstLen < |buf| {
        return Failed(-1);
      }
      dst := dst + buf;
    }
    return Done(dst);
  }

  lemma AddsNothing(all: seq<octet>, src: seq<octet>)
    ensures Adds(all, [], [], all) && src[0..] == src
  {
  }

  /** How long the text is: four characters for every three bytes begun, and the line ends. */
  function TextLength(n: nat, wraps: int): nat {
    4 * ((n + 2) / 3) + Lines(n / 3, wraps)
  }

  /** Groups on a line. */
  function PerLine(wraps: int): (p: nat)
    requires wraps > 0
    ensures p > 0
  {
    (wraps + 3) / 4
  }

  /** The buffer Base64Encode allows for. */
  function Estimate(n: nat, wraps: int): nat {
    (4 * n + 2) / 3 + 3 + if wraps > 0 then n / (if wraps > 64 then 64 else wraps) else 0
  }

  /** How many line ends `x` groups take. */
  function Lines(x: nat, wraps: int): nat { if wraps > 0 then x / PerLine(wraps) else 0 }

  lemma LinesStep(x: nat, wraps: int, k: nat)
    requires wraps > 0 ==> k < PerLine(wraps)
    ensures wraps > 0 && 4 * k + 4 >= wraps ==> Lines(x + 1 + k, wraps) == Lines(x, wraps) + 1
    ensures Lines(k, wraps) == 0
  {
    if wraps > 0 {
      Less(k, PerLine(wraps));
      if 4 * k + 4 >= wraps {
        assert k + 1 == PerLine(wraps);
        NextLine(x, PerLine(wraps));
      }
    }
  }

  lemma {:induction false} TextIsLong(src: seq<octet>, wraps: int, k: nat)
    requires if wraps > 0 then k < PerLine(wraps) else k == 0
    ensures |Text(src, wraps, 4 * k)| == 4 * ((|src| + 2) / 3) + Lines(|src| / 3 + k, wraps)
    decreases |src|
  {
    hide Group, Lines;
    if |src| >= 3 {
      var x := (|src| - 3) / 3;
      assert |src| / 3 == x + 1 && (|src| + 2) / 3 == (|src| - 3 + 2) / 3 + 1;
      LinesStep(x, wraps, k);
      if 4 * k + 4 >= wraps {
        TextIsLong(src[3..], wraps, 0);
        NoWrap(x, wraps, k);
      } else {
        TextIsLong(src[3..], wraps, k + 1);
      }
    } else {
      LinesStep(0, wraps, k);
    }
  }

  /** The bytes of the group that begins at byte `3 * i`. */
  function Third(src: seq<octet>, i: nat): (g: seq<octet>)
    requires 3 * i < |src|
    ensures 1 <= |g| <= 3
  {
    src[3 * i..if 3 * i + 3 <= |src| then 3 * i + 3 else |src|]
  }

  /** `g` is at this place of `t`, and a newline after it if `ends`. */
  predicate Placed(t: seq<octet>, at: nat, g: seq<octet>, ends: bool) {
    at + |g| <= |t| && t[at..at + |g|] == g && (ends ==> at + |g| < |t| && t[at + |g|] == 10)
  }

  lemma PlacedLater(head: seq<octet>, t: seq<octet>, at: nat, g: seq<octet>, ends: bool)
    requires Placed(t, at, g, ends)
    ensures Placed(head + t, |head| + at, g, ends)
  {
    var s := head + t;
    assert forall i | 0 <= i < |t| :: s[|head| + i] == t[i];
    assert s[|head| + at..|head| + at + |g|] == t[at..at + |g|];
  }

  /** Where each group is, and where the line ends are: one after every `PerLine` groups. */
  lemma {:induction false} GroupInPlace(src: seq<octet>, wraps: int, k: nat, i: nat)
    requires (if wraps > 0 then k < PerLine(wraps) else k == 0) && 3 * i < |src|
    ensures Placed(Text(src, wraps, 4 * k), 4 * i + Lines(i + k, wraps), Group(Third(src, i)),
                   3 * i + 3 <= |src| && Lines(i + 1 + k, wraps) > Lines(i + k, wraps))
    decreases i
  {
    hide Group, Lines, Text, Third, Placed;
    if i == 0 {
      FirstInPlace(src, wraps, k);
    } else {
      var k' := NextCount(wraps, k);
      var head, rest := Group(src[..3]) + LineEnd(wraps, k), Text(src[3..], wraps, 4 * k');
      FirstApart(src, wraps, k);
      ThirdLater(src, i);
      LinesLater(wraps, k, i - 1);
      LinesLater(wraps, k, i);
      GroupInPlace(src[3..], wraps, k', i - 1);
      PlacedLater(head, rest, 4 * (i - 1) + Lines(i - 1 + k', wraps), Group(Third(src, i)),
                  3 * i + 3 <= |src| && Lines(i + 1 + k, wraps) > Lines(i + k, wraps));
    }
  }

  /** Groups on the line after one more, and the line end it brings. */
  function NextCount(wraps: int, k: nat): nat { if 4 * k + 4 >= wraps then 0 else k + 1 }

  function LineEnd(wraps: int, k: nat): seq<octet> { if wraps > 0 && 4 * k + 4 >= wraps then [10] else [] }

  lemma FirstApart(src: seq<octet>, wraps: int, k: nat)
    requires |src| >= 3
    ensures Text(src, wraps, 4 * k) == Group(src[..3]) + LineEnd(wraps, k) + Text(src[3..], wraps, 4 * NextCount(wraps, k))
    ensures |Group(src[..3]) + LineEnd(wraps, k)| == 4 + |LineEnd(wraps, k)|
  {
    hide Group;
    var g := Group(src[..3]);
    assert g + [] == g;
  }

  /** The line ends before a later group are one more if the first brings one. */
  lemma LinesLater(wraps: int, k: nat, x: nat)
    requires if wraps > 0 then k < PerLine(wraps) else k == 0
    ensures Lines(x + 1 + k, wraps) == |LineEnd(wraps, k)| + Lines(x + NextCount(wraps, k), wraps)
    ensures if wraps > 0 then NextCount(wraps, k) < PerLine(wraps) else NextCount(wraps, k) == 0
  {
    LinesStep(x, wraps, k);
    NoWrap(x, wraps, k);
    hide Lines;
  }

  lemma FirstInPlace(src: seq<octet>, wraps: int, k: nat)
    requires (if wraps > 0 then k < PerLine(wraps) else k == 0) && src != []
    ensures Placed(Text(src, wraps, 4 * k), 4 * 0 + Lines(0 + k, wraps), Group(Third(src, 0)),
                   3 * 0 + 3 <= |src| && Lines(0 + 1 + k, wraps) > Lines(0 + k, wraps))
  {
    hide Group, Lines;
    LinesStep(0, wraps, k);
    NoLineEnd(wraps, k);
    var t, g := Text(src, wraps, 4 * k), Third(src, 0);
    assert g == if |src| >= 3 then src[..3] else src;
    if |src| >= 3 {
      FirstApart(src, wraps, k);
    }
    assert t[..4] == Group(g);
  }

  lemma ThirdLater(src: seq<octet>, i: nat)
    requires i > 0 && 3 * i < |src|
    ensures Third(src, i) == Third(src[3..], i - 1)
  {
    var a, b := Third(src, i), Third(src[3..], i - 1);
    assert |a| == |b| && 3 * (i - 1) == 3 * i - 3;
    forall k | 0 <= k < |a| ensures a[k] == b[k] {
      assert a[k] == src[3 * i + k] && b[k] == src[3..][3 * i - 3 + k];
    }
  }

  lemma NoLineEnd(wraps: int, k: nat)
    requires if wraps > 0 then k < PerLine(wraps) else k == 0
    ensures Lines(1 + k, wraps) > Lines(k, wraps) ==> wraps > 0 && 4 * k + 4 >= wraps
  {
    if wraps > 0 && k + 1 < PerLine(wraps) {
      Less(k + 1, PerLine(wraps));
    }
  }

  lemma NoWrap(x: nat, wraps: int, k: nat)
    ensures wraps <= 0 ==> Lines(x + 1 + k, wraps) == Lines(x, wraps)
  {
  }

  lemma NextLine(a: nat, p: nat)
    requires p > 0
    ensures (a + p) / p == a / p + 1
  {
    var q, r := a / p, a % p;
    assert a + p == (q + 1) * p + r;
    Arithmetic.ModUnique(a + p, p, q + 1, r);
  }

  lemma Less(a: nat, p: nat)
    requires a < p
    ensures a / p == 0
  {
  }

  /** Base64Encode: with no wrapping the estimate always suffices; otherwise the call fails exactly
      when the text is longer than the estimate. */
  method Base64Encode(src: seq<octet>, wraps: int) returns (r: Result)
    ensures r.Done? <==> TextLength(|src|, LineLimit(wraps)) <= Estimate(|src|, wraps)
    ensures r.Done? ==> r.bytes == Text(src, LineLimit(wraps), 0)
    ensures wraps <= 0 ==> r.Done?
  {
    TextIsLong(src, LineLimit(wraps), 0);
    r := GoEncode(src, Estimate(|src|, wraps), wraps);
  }

  /** The estimate is too small for 2280 bytes wrapped at 76 characters, as mail wraps them, and for
      60 bytes wrapped at 4. */
  lemma WrappedTextTooLong()
    ensures TextLength(2280, 76) > Estimate(2280, 76)
    ensures TextLength(60, 4) > Estimate(60, 4)
  {
  }

  // ---------- decoding ----------

  /** What decoding yields from `src` when `buf` holds the characters of a group begun. */
  function Bytes(src: seq<octet>, buf: seq<octet>): seq<octet>
    requires |buf| < 4
    decreases |src|
  {
    if src == [] then []
    else if Blank(src[0]) then Bytes(src[1..], buf)
    else if src[0] == 61 then if |buf| > 1 then Ungroup(buf) else []
    else if |buf| == 3 then Ungroup(buf + [src[0]]) + Bytes(src[1..], [])
    else Bytes(src[1..], buf + [src[0]])
  }

  /** go_base64_decode. */
  method GoDecode(src: seq<octet>, dstLen0: int) returns (r: Result)
    requires dstLen0 >= 0
    ensures r == if |Bytes(src, [])| <= dstLen0 then Done(Bytes(src, [])) else Failed(-1)
  {
    hide Ungroup, Blank;
    var buf: seq<octet>, dst: seq<octet> := [], [];
    var at, stop, dstLen := 0, false, dstLen0;
    ghost var all := Bytes(src, []);
    while !stop && at < |src|
      invariant at <= |src| && |buf| < 4 && dstLen == dstLen0 - |dst| >= 0
      invariant all == dst + if stop then [] else Bytes(src[at..], buf)
      decreases |src| - at, !stop
    {
      var c := src[at];
      assert src[at..][1..] == src[at + 1..];
      if Blank(c) {
      } else if c == 61 {
        stop := true;
      } else {
        buf := buf + [c];
      }
      if |buf| == 4 || (stop && |buf| > 1) {
        var out := Ungroup(buf);
        assert all == dst + out + if stop then [] else Bytes(src[at + 1..], []);
        if dstLen < |out| {
          return Failed(-1);
        }
        dst := dst + out;
        dstLen := dstLen - |out|;
        buf := [];
      }
      at := at + 1;
    }
    return Done(dst);
  }

  lemma {:induction false} BytesFit(src: seq<octet>, buf: seq<octet>)
    requires |buf| < 4
    ensures |Bytes(src, buf)| <= |src| + |buf|
    decreases |src|
  {
    hide Ungroup, Blank;
    if src != [] {
      if Blank(src[0]) {
        BytesFit(src[1..], buf);
      } else if src[0] == 61 {
      } else if |buf| == 3 {
        BytesFit(src[1..], []);
      } else {
        BytesFit(src[1..], buf + [src[0]]);
      }
    }
  }

  /** Base64Decode never fails: there is room for more than can come. */
  method Base64Decode(str: seq<octet>) returns (out: seq<octet>)
    ensures out == Bytes(str, [])
  {
    BytesFit(str, []);
    var r := GoDecode(str, |str| + 1);
    out := r.bytes;
  }

  /** `src` without newlines, returns, tabs, spaces, form feeds, backspaces and deletes. */
  function Unspaced(src: seq<octet>): seq<octet> {
    if src == [] then [] else (if src[0] in [10, 13, 9, 32, 12, 8, 127] then [] else [src[0]]) + Unspaced(src[1..])
  }

  /** White space means nothing to the decoder, wherever it is, and so does all that follows a padding. */
  lemma {:induction false} SpaceIgnored(src: seq<octet>, buf: seq<octet>)
    requires |buf| < 4
    ensures Bytes(src, buf) == Bytes(Unspaced(src), buf)
    decreases |src|
  {
    hide Ungroup;
    if src != [] {
      var rest := Unspaced(src[1..]);
      assert [] + rest == rest;
      assert ([src[0]] + rest)[1..] == rest;
      assert Blank(src[0]) <==> src[0] in [10, 13, 9, 32, 12, 8, 127];
      hide Blank;
      if Blank(src[0]) {
        assert Unspaced(src) == rest;
        SpaceIgnored(src[1..], buf);
      } else {
        assert Unspaced(src) == [src[0]] + rest;
      }
      if !Blank(src[0]) && src[0] != 61 {
        SpaceIgnored(src[1..], if |buf| == 3 then [] else buf + [src[0]]);
      }
    }
  }

  lemma SixtyOne()
    ensures !Blank(61)
  {
  }

  lemma {:induction false} RestIgnored(src: seq<octet>, rest: seq<octet>, buf: seq<octet>)
    requires |buf| < 4 && 61 in src
    ensures Bytes(src + rest, buf) == Bytes(src, buf)
    decreases |src|
  {
    hide Ungroup, Blank;
    assert (src + rest)[0] == src[0] && (src + rest)[1..] == src[1..] + rest;
    if src[0] != 61 || Blank(src[0]) {
      SixtyOne();
      assert 61 in src[1..];
      RestIgnored(src[1..], rest, if Blank(src[0]) then buf else if |buf| == 3 then [] else buf + [src[0]]);
    }
  }

  // ---------- round trips ----------

  lemma BytesStep(c: octet, rest: seq<octet>, buf: seq<octet>)
    requires |buf| < 3 && !Blank(c) && c != 61
    ensures Bytes([c] + rest, buf) == Bytes(rest, buf + [c])
  {
    assert ([c] + rest)[1..] == rest;
  }

  lemma BytesLast(c: octet, rest: seq<octet>, buf: seq<octet>)
    requires |buf| == 3 && !Blank(c) && c != 61
    ensures Bytes([c] + rest, buf) == Ungroup(buf + [c]) + Bytes(rest, [])
  {
    assert ([c] + rest)[1..] == rest;
  }

  /** Four characters that are neither blank nor padding are one group. */
  lemma BytesOfGroup(t: seq<octet>, rest: seq<octet>)
    requires |t| == 4 && forall i | 0 <= i < 4 :: !Blank(t[i]) && t[i] != 61
    ensures Bytes(t + rest, []) == Ungroup(t) + Bytes(rest, [])
  {
    hide Ungroup, Blank, Bytes;
    BytesStep(t[0], t[1..] + rest, []);
    BytesStep(t[1], t[2..] + rest, t[..1]);
    BytesStep(t[2], t[3..] + rest, t[..2]);
    BytesLast(t[3], rest, t[..3]);
    assert t + rest == [t[0]] + (t[1..] + rest) && t[1..] + rest == [t[1]] + (t[2..] + rest);
    assert t[2..] + rest == [t[2]] + (t[3..] + rest) && t[3..] + rest == [t[3]] + rest;
    assert [] + [t[0]] == t[..1] && t[..1] + [t[1]] == t[..2] && t[..2] + [t[2]] == t[..3] && t[..3] + [t[3]] == t;
  }

  lemma BytesEnd(rest: seq<octet>, buf: seq<octet>)
    requires 2 <= |buf| < 4 && rest != [] && rest[0] == 61
    ensures Bytes(rest, buf) == Ungroup(buf)
  {
  }

  lemma BytesOfPadded(t: seq<octet>, n: nat)
    requires |t| == 4 && 1 <= n <= 2 && (forall i | 0 <= i <= n :: !Blank(t[i]) && t[i] != 61) && t[n + 1] == 61
    ensures Bytes(t, []) == Ungroup(t[..n + 1])
  {
    hide Ungroup, Blank, Bytes;
    BytesStep(t[0], t[1..], []);
    BytesStep(t[1], t[2..], t[..1]);
    assert t == [t[0]] + t[1..] && t[1..] == [t[1]] + t[2..] && t[2..] == [t[2]] + t[3..];
    assert [] + [t[0]] == t[..1] && t[..1] + [t[1]] == t[..2] && t[..2] + [t[2]] == t[..3];
    if n == 2 {
      BytesStep(t[2], t[3..], t[..2]);
      BytesEnd(t[3..], t[..3]);
    } else {
      BytesEnd(t[2..], t[..2]);
    }
  }

  /** Decoding inverts encoding, however the text is wrapped. */
  lemma {:induction false} DecodeOfEncode(src: seq<octet>, wraps: int, cnt: nat)
    ensures Bytes(Text(src, wraps, cnt), []) == src
    decreases |src|
  {
    hide Group, Ungroup;
    if |src| >= 3 {
      var g, rest := src[..3], src[3..];
      UngroupOfGroup(g);
      assert Group(g)[..4] == Group(g);
      if cnt + 4 >= wraps {
        DecodeOfEncode(rest, wraps, 0);
        var end: seq<octet> := if wraps > 0 then [10] else [];
        BytesOfGroup(Group(g), end + Text(rest, wraps, 0));
        assert Group(g) + end + Text(rest, wraps, 0) == Group(g) + (end + Text(rest, wraps, 0));
        assert wraps > 0 ==> (end + Text(rest, wraps, 0))[1..] == Text(rest, wraps, 0);
        assert wraps <= 0 ==> end + Text(rest, wraps, 0) == Text(rest, wraps, 0);
      } else {
        DecodeOfEncode(rest, wraps, cnt + 4);
        BytesOfGroup(Group(g), Text(rest, wraps, cnt + 4));
      }
      assert g + rest == src;
    } else if src != [] {
      UngroupOfGroup(src);
      Padding(src);
      BytesOfPadded(Group(src), |src|);
    }
  }

  lemma Padding(g: seq<octet>)
    requires 1 <= |g| <= 2
    ensures Group(g)[|g| + 1] == 61
  {
  }
}
