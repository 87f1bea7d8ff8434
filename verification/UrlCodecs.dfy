/** The URL-safe base64 codec and the percent codec of string_util.cpp (RFC 4648, section 5, and
    RFC 3986, section 2.1). */
module UrlCodecs {
  import opened Base64

  // ---------- URL-safe base64 ----------

  /** _t64. */
  function SafeEnc(v: octet): octet
    requires v < 64
  {
    if v == 62 then 45 else if v == 63 then 95 else Enc(v)
  }

  /** _t256, with 0xff for -1: the table ends at 224 and the rest of it is 0. */
  function SafeDec(c: octet): octet {
    if c == 45 then 62 else if c == 95 then 63 else if c == 43 || c == 47 then 0xff else if c >= 224 then 0 else Dec(c)
  }

  lemma SafeTables(v: octet, c: octet)
    ensures v < 64 ==> SafeDec(SafeEnc(v)) == v && SafeEnc(v) < 224
    ensures SafeDec(c) < 64 || SafeDec(c) == 0xff
    ensures c < 224 && SafeDec(c) < 64 ==> SafeEnc(SafeDec(c)) == c
  {
  }

  predicate Sextets(v: seq<octet>) { forall i | 0 <= i < |v| :: v[i] < 64 }

  function Part0(a: octet): octet { a >> 2 }
  function Part1(a: octet, b: octet): octet { ((a & 0x03) << 4) | (b >> 4) }
  function Part2(b: octet, c: octet): octet { ((b & 0x0f) << 2) | (c >> 6) }
  function Part3(c: octet): octet { c & 0x3f }

  function Join0(p: octet, q: octet): octet { (p << 2) | (q >> 4) }
  function Join1(q: octet, r: octet): octet { ((q << 4) & 0xf0) | (r >> 2) }
  function Join2(r: octet, s: octet): octet { ((r << 6) & 0xc0) | s }

  /** Bits that a text of two or three characters leaves over. */
  predicate Left4(q: octet) { q & 0x0f != 0 }
  predicate Left2(r: octet) { r & 0x03 != 0 }

  /** The bits of one, two or three bytes, six at a time. */
  function Parts(g: seq<octet>): (v: seq<octet>)
    requires 1 <= |g| <= 3
    ensures |v| == |g| + 1 && Sextets(v)
  {
    SafeBits(g[0], if |g| > 1 then g[1] else 0, if |g| > 2 then g[2] else 0);
    if |g| == 3 then [Part0(g[0]), Part1(g[0], g[1]), Part2(g[1], g[2]), Part3(g[2])]
    else if |g| == 2 then [Part0(g[0]), Part1(g[0], g[1]), Part2(g[1], 0)]
    else [Part0(g[0]), Part1(g[0], 0)]
  }

  /** The bytes of two, three or four sextets; bits left over must be zero. */
  function Joined(v: seq<octet>): Result
    requires 2 <= |v| <= 4
  {
    if |v| == 2 then if Left4(v[1]) then Failed(-1) else Done([Join0(v[0], v[1])])
    else if |v| == 3 then if Left2(v[2]) then Failed(-1) else Done([Join0(v[0], v[1]), Join1(v[1], v[2])])
    else Done([Join0(v[0], v[1]), Join1(v[1], v[2]), Join2(v[2], v[3])])
  }

  function Letters(v: seq<octet>): (t: seq<octet>)
    requires Sextets(v)
    ensures |t| == |v| && forall i | 0 <= i < |v| :: t[i] == SafeEnc(v[i])
  {
    seq(|v|, i requires 0 <= i < |v| => SafeEnc(v[i]))
  }

  function Values(t: seq<octet>): (v: seq<octet>)
    ensures |v| == |t| && forall i | 0 <= i < |t| :: v[i] == SafeDec(t[i])
  {
    seq(|t|, i requires 0 <= i < |t| => SafeDec(t[i]))
  }

  function SafeGroup(g: seq<octet>): (t: seq<octet>)
    requires 1 <= |g| <= 3
    ensures |t| == |g| + 1
  {
    Letters(Parts(g))
  }

  function SafeText(src: seq<octet>): seq<octet> {
    if |src| >= 3 then SafeGroup(src[..3]) + SafeText(src[3..])
    else if src == [] then [] else SafeGroup(src)
  }

  /** Decoding two, three or four characters. */
  function SafeUngroup(t: seq<octet>): Result
    requires 2 <= |t| <= 4
  {
    if 0xff in Values(t) then Failed(-1) else Joined(Values(t))
  }

  function SafeBytes(s: seq<octet>): Result
    decreases |s|
  {
    if |s| >= 4 then
      match SafeUngroup(s[..4])
      case Failed(c) => Failed(c)
      case Done(g) =>
        (match SafeBytes(s[4..]) case Failed(c) => Failed(c) case Done(rest) => Done(g + rest))
    else if |s| == 0 then Done([])
    else if |s| == 1 then Failed(-2)
    else SafeUngroup(s)
  }

  method UrlSafeBase64Encode(src: seq<octet>) returns (dst: seq<octet>)
    ensures dst == SafeText(src) && |dst| == (4 * |src| + 2) / 3
  {
    hide SafeGroup;
    var i, at := 0, 0;
    dst := [];
    assert src[0..] == src;
    while i < |src| / 3
      invariant i <= |src| / 3 && at == 3 * i && SafeText(src) == dst + SafeText(src[at..]) && |dst| == 4 * i
    {
      assert src[at..][..3] == src[at..at + 3] && src[at..][3..] == src[at + 3..];
      dst := dst + SafeGroup(src[at..at + 3]);
      i, at := i + 1, at + 3;
    }
    if |src| % 3 != 0 {
      dst := dst + SafeGroup(src[at..]);
    }
  }

  method UrlSafeBase64Decode(src: seq<octet>) returns (r: Result)
    ensures r == SafeBytes(src)
  {
    hide SafeUngroup;
    var i, at := 0, 0;
    var dst: seq<octet> := [];
    assert src[0..] == src;
    while i < |src| / 4
      invariant i <= |src| / 4 && at == 4 * i
      invariant SafeBytes(src) == match SafeBytes(src[at..]) case Failed(c) => Failed(c) case Done(rest) => Done(dst + rest)
    {
      assert src[at..][..4] == src[at..at + 4] && src[at..][4..] == src[at + 4..];
      var g := SafeUngroup(src[at..at + 4]);
      if g.Failed? {
        return g;
      }
      ghost var rest := SafeBytes(src[at + 4..]);
      assert rest.Done? ==> dst + (g.bytes + rest.bytes) == (dst + g.bytes) + rest.bytes;
      dst := dst + g.bytes;
      i, at := i + 1, at + 4;
    }
    if |src| % 4 == 1 {
      return Failed(-2);
    }
    if |src| % 4 != 0 {
      var g := SafeUngroup(src[at..]);
      return if g.Failed? then g else Done(dst + g.bytes);
    }
    assert src[at..] == [] && dst + [] == dst;
    return Done(dst);
  }

  lemma SafeBits(a: octet, b: octet, c: octet)
    ensures Part0(a) < 64 && Part1(a, b) < 64 && Part1(a, 0) < 64 && Part2(b, c) < 64 && Part2(b, 0) < 64 && Part3(c) < 64
    ensures Join0(Part0(a), Part1(a, b)) == Join0(Part0(a), Part1(a, 0)) == a && !Left4(Part1(a, 0))
    ensures Join1(Part1(a, b), Part2(b, c)) == Join1(Part1(a, b), Part2(b, 0)) == b && !Left2(Part2(b, 0))
    ensures Join2(Part2(b, c), Part3(c)) == c
  {
  }

  lemma ValuesOfLetters(v: seq<octet>)
    requires Sextets(v)
    ensures Values(Letters(v)) == v && 0xff !in v
  {
    forall i | 0 <= i < |v| ensures SafeDec(SafeEnc(v[i])) == v[i] {
      SafeTables(v[i], 0);
    }
  }

  lemma JoinedOfParts(g: seq<octet>)
    requires 1 <= |g| <= 3
    ensures Joined(Parts(g)) == Done(g)
  {
    var a, b, c := g[0], if |g| > 1 then g[1] else 0, if |g| > 2 then g[2] else 0;
    SafeBits(a, b, c);
    hide Part0, Part1, Part2, Part3, Join0, Join1, Join2, Left2, Left4;
    assert |g| == 3 ==> g == [a, b, c];
    assert |g| == 2 ==> g == [a, b];
    assert |g| == 1 ==> g == [a];
  }

  lemma UngroupOfSafeGroup(g: seq<octet>)
    requires 1 <= |g| <= 3
    ensures SafeUngroup(SafeGroup(g)) == Done(g)
  {
    hide Parts, Joined;
    ValuesOfLetters(Parts(g));
    JoinedOfParts(g);
  }

  /** Decoding inverts encoding. */
  lemma {:induction false} SafeDecodeOfEncode(src: seq<octet>)
    ensures SafeBytes(SafeText(src)) == Done(src)
    decreases |src|
  {
    hide SafeGroup, SafeUngroup;
    if |src| >= 3 {
      var g, rest := src[..3], src[3..];
      UngroupOfSafeGroup(g);
      SafeDecodeOfEncode(rest);
      var t := SafeGroup(g) + SafeText(rest);
      assert t[..4] == SafeGroup(g) && t[4..] == SafeText(rest) && g + rest == src;
    } else if src != [] {
      UngroupOfSafeGroup(src);
    }
  }

  lemma Bits4(p: octet, q: octet, r: octet, s: octet)
    requires p < 64 && q < 64 && r < 64 && s < 64
    ensures Part0(Join0(p, q)) == p && Part1(Join0(p, q), Join1(q, r)) == q
    ensures Part2(Join1(q, r), Join2(r, s)) == r && Part3(Join2(r, s)) == s
    ensures !Left4(q) ==> Part1(Join0(p, q), 0) == q
    ensures !Left2(r) ==> Part2(Join1(q, r), 0) == r
  {
  }

  lemma LettersOfValues(t: seq<octet>)
    requires 0xff !in Values(t) && forall i | 0 <= i < |t| :: t[i] < 224
    ensures Sextets(Values(t)) && Letters(Values(t)) == t
  {
    forall i | 0 <= i < |t| ensures SafeDec(t[i]) < 64 && SafeEnc(SafeDec(t[i])) == t[i] {
      assert Values(t)[i] != 0xff;
      SafeTables(0, t[i]);
    }
  }

  lemma PartsOfJoined(v: seq<octet>)
    requires 2 <= |v| <= 4 && Sextets(v) && Joined(v).Done?
    ensures |Joined(v).bytes| == |v| - 1 && Parts(Joined(v).bytes) == v
  {
    Bits4(v[0], v[1], if |v| > 2 then v[2] else 0, if |v| > 3 then v[3] else 0);
    hide Part0, Part1, Part2, Part3, Join0, Join1, Join2, Left2, Left4;
  }

  lemma SafeGroupOfUngroup(t: seq<octet>)
    requires 2 <= |t| <= 4 && SafeUngroup(t).Done? && forall i | 0 <= i < |t| :: t[i] < 224
    ensures |SafeUngroup(t).bytes| == |t| - 1 && SafeGroup(SafeUngroup(t).bytes) == t
  {
    hide Parts, Joined;
    LettersOfValues(t);
    PartsOfJoined(Values(t));
  }

  /** Encoding inverts decoding on every text that is accepted and stays within the table. */
  lemma {:induction false} SafeEncodeOfDecode(s: seq<octet>)
    requires SafeBytes(s).Done? && forall i | 0 <= i < |s| :: s[i] < 224
    ensures SafeText(SafeBytes(s).bytes) == s
    decreases |s|
  {
    hide SafeGroup, SafeUngroup;
    if |s| >= 4 {
      SafeGroupOfUngroup(s[..4]);
      SafeEncodeOfDecode(s[4..]);
      var g, rest := SafeUngroup(s[..4]).bytes, SafeBytes(s[4..]).bytes;
      assert (g + rest)[..3] == g && (g + rest)[3..] == rest && s[..4] + s[4..] == s;
    } else if s != [] {
      SafeGroupOfUngroup(s);
    }
  }

  lemma SafeGroupInTable(g: seq<octet>)
    requires 1 <= |g| <= 3
    ensures forall c | c in SafeGroup(g) :: c < 224
  {
    var v := Parts(g);
    forall i | 0 <= i < |v| ensures SafeEnc(v[i]) < 224 {
      SafeTables(v[i], 0);
    }
    hide Parts;
  }

  lemma {:induction false} SafeTextInTable(src: seq<octet>)
    ensures forall c | c in SafeText(src) :: c < 224
    decreases |src|
  {
    hide SafeGroup;
    if |src| >= 3 {
      SafeGroupInTable(src[..3]);
      SafeTextInTable(src[3..]);
    } else if src != [] {
      SafeGroupInTable(src);
    }
  }

  /** Of the texts that are accepted, encoding gives back exactly those that stay within the table. */
  lemma SafeEncodeOfDecodeIff(s: seq<octet>)
    requires SafeBytes(s).Done?
    ensures SafeText(SafeBytes(s).bytes) == s <==> forall i | 0 <= i < |s| :: s[i] < 224
  {
    hide SafeText, SafeBytes;
    var t := SafeText(SafeBytes(s).bytes);
    SafeTextInTable(SafeBytes(s).bytes);
    assert forall i | 0 <= i < |t| :: t[i] in t;
    if forall i | 0 <= i < |s| :: s[i] < 224 {
      SafeEncodeOfDecode(s);
    }
  }

  /** Within the table, the texts accepted are exactly those that encoding writes. */
  lemma SafeAcceptedIff(s: seq<octet>)
    requires forall i | 0 <= i < |s| :: s[i] < 224
    ensures SafeBytes(s).Done? <==> exists src :: SafeText(src) == s
  {
    hide SafeText, SafeBytes;
    if SafeBytes(s).Done? {
      SafeEncodeOfDecode(s);
    }
    if src :| SafeText(src) == s {
      SafeDecodeOfEncode(src);
    }
  }

  /** Bytes past the end of the table are taken for the letter A. */
  lemma PastTheTable()
    ensures SafeBytes([224, 65]) == Done([0]) && SafeText([0]) == [65, 65]
  {
  }

  // ---------- from the URL-safe to the standard alphabet ----------

  function Standard(c: octet): octet { if c == 45 then 43 else if c == 95 then 47 else c }

  function Replace(s: seq<octet>): (t: seq<octet>)
    ensures |t| == |s| && forall i | 0 <= i < |s| :: t[i] == Standard(s[i])
  {
    seq(|s|, i requires 0 <= i < |s| => Standard(s[i]))
  }

  function Padding4(n: nat): seq<octet> { seq((4 - n % 4) % 4, i => 61) }

  /** SafeBase64ToBase64. */
  method SafeBase64ToBase64(url: seq<octet>) returns (text: seq<octet>)
    ensures text == Replace(url) + Padding4(|url|)
  {
    text := Replace(url);
    var fill := (4 - |text| % 4) % 4;
    var i := 0;
    while i < fill
      invariant i <= fill && text == Replace(url) + seq(i, k => 61)
    {
      text := text + [61];
      i := i + 1;
    }
  }

  lemma GroupsAgree(g: seq<octet>)
    requires 1 <= |g| <= 3
    ensures Replace(SafeGroup(g)) == Group(g)[..|g| + 1]
    ensures forall i | |g| < i < 4 :: Group(g)[i] == 61
  {
    var a, b, c := g[0], if |g| > 1 then g[1] else 0, if |g| > 2 then g[2] else 0;
    SafeBits(a, b, c);
    SameIndex(a, b, c);
    SameLetters();
    hide Part0, Part1, Part2, Part3, Standard, SafeEnc, Enc;
  }

  lemma SameLetters()
    ensures forall v: octet | v < 64 :: Standard(SafeEnc(v)) == Enc(v)
  {
  }

  lemma SameIndex(a: octet, b: octet, c: octet)
    ensures (a >> 2) & 0x3f == Part0(a) && (a << 4) & 0x3f == Part1(a, 0) && c & 0x3f == Part3(c)
    ensures ((a << 4) + (b >> 4)) & 0x3f == Part1(a, b)
    ensures ((b << 2) + (c >> 6)) & 0x3f == Part2(b, c) && (b << 2) & 0x3f == Part2(b, 0)
  {
  }

  /** What SafeBase64ToBase64 makes of URL-safe text is the standard text, unwrapped. */
  lemma {:induction false} SafeIsStandard(src: seq<octet>)
    ensures Replace(SafeText(src)) + Padding4(|SafeText(src)|) == Text(src, 0, 0)
    decreases |src|
  {
    hide SafeGroup, Group, Standard;
    if |src| >= 3 {
      var g, rest := src[..3], src[3..];
      SafeIsStandard(rest);
      GroupsAgree(g);
      assert Replace(SafeGroup(g) + SafeText(rest)) == Replace(SafeGroup(g)) + Replace(SafeText(rest));
      assert |SafeText(src)| % 4 == |SafeText(rest)| % 4;
      assert Group(g)[..4] == Group(g);
      assert Group(g) + [] + Text(rest, 0, 0) == Group(g) + Text(rest, 0, 0);
    } else if src != [] {
      GroupsAgree(src);
      assert Replace(SafeText(src)) + Padding4(|SafeText(src)|) == Group(src);
    } else {
      assert Replace([]) + Padding4(0) == [];
    }
  }

  /** So the standard decoder reads it back. */
  lemma SafeTextDecodes(src: seq<octet>)
    ensures Bytes(Replace(SafeText(src)) + Padding4(|SafeText(src)|), []) == src
  {
    SafeIsStandard(src);
    DecodeOfEncode(src, 0, 0);
  }

  // ---------- percent encoding ----------

  function ToHex(x: octet): octet { if x > 9 then x + 55 else x + 48 }

  function FromHex(x: octet): octet {
    if 65 <= x <= 90 then x - 65 + 10 else if 97 <= x <= 122 then x - 97 + 10 else if 48 <= x <= 57 then x - 48 else 0
  }

  /** The characters written as they are. */
  predicate Plain(c: octet) {
    48 <= c <= 57 || 65 <= c <= 90 || 97 <= c <= 122 || c == 45 || c == 95 || c == 46 || c == 126
  }

  function EscapeOne(c: octet): (t: seq<octet>)
    ensures |t| == 1 || |t| == 3
  {
    if Plain(c) then [c] else if c == 32 then [43] else [37, ToHex(c >> 4), ToHex(c & 0x0f)]
  }

  function Escape(s: seq<octet>): seq<octet> {
    if s == [] then [] else EscapeOne(s[0]) + Escape(s[1..])
  }

  /** A string's character, NUL past its end. */
  function CharAt(s: seq<octet>, i: nat): octet { if i < |s| then s[i] else 0 }

  function Unescape(s: seq<octet>): seq<octet>
    decreases |s|
  {
    if s == [] then []
    else if s[0] == 43 then [32] + Unescape(s[1..])
    else if s[0] == 37 then
      [FromHex(CharAt(s, 1)) * 16 + FromHex(CharAt(s, 2))] + Unescape(if |s| >= 3 then s[3..] else [])
    else [s[0]] + Unescape(s[1..])
  }

  method UrlEncode(str: seq<octet>) returns (out: seq<octet>)
    ensures out == Escape(str)
  {
    hide EscapeOne;
    out := [];
    var i := 0;
    assert str[0..] == str;
    while i < |str|
      invariant i <= |str| && Escape(str) == out + Escape(str[i..])
    {
      assert str[i..][1..] == str[i + 1..];
      out := out + EscapeOne(str[i]);
      i := i + 1;
    }
  }

  /** What is left to decode from position `i`, which can lie past the end. */
  function Remaining(s: seq<octet>, i: nat): seq<octet> { if i < |s| then s[i..] else [] }

  /** One step of decoding from position `i`, and where the next one starts. */
  lemma UnescapeFrom(s: seq<octet>, i: nat)
    requires i < |s|
    ensures Unescape(Remaining(s, i)) ==
      if s[i] == 43 then [32] + Unescape(Remaining(s, i + 1))
      else if s[i] == 37 then
        [FromHex(CharAt(s, i + 1)) * 16 + FromHex(CharAt(s, i + 2))] + Unescape(Remaining(s, i + 3))
      else [s[i]] + Unescape(Remaining(s, i + 1))
  {
    hide FromHex;
    var t := s[i..];
    assert t[1..] == Remaining(s, i + 1) && Remaining(s, i + 3) == if i + 3 <= |s| then t[3..] else [];
    assert CharAt(t, 1) == CharAt(s, i + 1) && CharAt(t, 2) == CharAt(s, i + 2);
  }

  method UrlDecode(str: seq<octet>) returns (out: seq<octet>)
    ensures out == Unescape(str)
  {
    hide FromHex, Unescape, CharAt, Remaining;
    out := [];
    var i := 0;
    NothingLeft(str);
    while i < |str|
      invariant 0 <= i && Unescape(str) == out + Unescape(Remaining(str, i))
      decreases |str| - i
    {
      UnescapeFrom(str, i);
      var c := str[i];
      if c == 43 {
        out := out + [32];
      } else if c == 37 {
        i := i + 2;
        out := out + [FromHex(CharAt(str, i - 1)) * 16 + FromHex(CharAt(str, i))];
      } else {
        out := out + [c];
      }
      i := i + 1;
    }
  }

  lemma NothingLeft(s: seq<octet>)
    ensures Remaining(s, 0) == s && forall i: nat | i >= |s| :: Unescape(Remaining(s, i)) == []
  {
  }

  /** Section 2.1 of RFC 3986: the high digit first, in upper case; a space becomes a plus sign. The
      unreserved characters of section 2.3, and only those, stay as they are. */
  lemma Percent(c: octet)
    ensures EscapeOne(c) == [c] <==> 'A' as octet <= c <= 'Z' as octet || 'a' as octet <= c <= 'z' as octet
                                     || '0' as octet <= c <= '9' as octet || c == 45 || c == 46 || c == 95 || c == 126
    ensures EscapeOne(c) != [c] && c != 32 ==> EscapeOne(c) == [37, ToHex(c / 16), ToHex(c % 16)]
    ensures EscapeOne(32) == [43]
  {
    assert c >> 4 == c / 16 && c & 0x0f == c % 16;
    hide ToHex;
  }

  /** The digits written, and that they are read in lower case as well. */
  lemma HexDigits(d: octet)
    ensures [ToHex(0), ToHex(1), ToHex(2), ToHex(3), ToHex(4), ToHex(5), ToHex(6), ToHex(7)] == [48, 49, 50, 51, 52, 53, 54, 55]
    ensures [ToHex(8), ToHex(9), ToHex(10), ToHex(11), ToHex(12), ToHex(13), ToHex(14), ToHex(15)]
         == [56, 57, 65, 66, 67, 68, 69, 70]
    ensures d < 16 ==> FromHex(ToHex(d)) == d
    ensures 10 <= d < 16 ==> FromHex(ToHex(d) + 32) == d
  {
  }

  lemma HexBack(c: octet)
    ensures FromHex(ToHex(c >> 4)) * 16 + FromHex(ToHex(c & 0x0f)) == c
  {
  }

  lemma OneBack(c: octet, rest: seq<octet>)
    ensures Unescape(EscapeOne(c) + rest) == [c] + Unescape(rest)
  {
    HexBack(c);
    var s := EscapeOne(c) + rest;
    assert |EscapeOne(c)| == 1 ==> s[1..] == rest;
    assert |EscapeOne(c)| == 3 ==> s[3..] == rest;
    hide FromHex, ToHex;
  }

  /** Decoding inverts percent encoding on every string of bytes. */
  lemma {:induction false} UnescapeOfEscape(s: seq<octet>)
    ensures Unescape(Escape(s)) == s
  {
    hide EscapeOne;
    if s != [] {
      OneBack(s[0], Escape(s[1..]));
      UnescapeOfEscape(s[1..]);
      assert [s[0]] + s[1..] == s;
    }
  }
}
