/** Bytes, and numbers in network byte order. */
module Bytes {

  type byte = b: int | 0 <= b < 256

  /** htons and htonl: most significant byte first. */
  function Net16(n: nat): (s: seq<byte>)
    ensures |s| == 2
  {
    [n / 256 % 256, n % 256]
  }

  function Net32(n: nat): (s: seq<byte>)
    ensures |s| == 4
  {
    [n / 0x100_0000 % 256, n / 0x1_0000 % 256, n / 256 % 256, n % 256]
  }

  /** ntohs and ntohl. */
  function Host16(s: seq<byte>): (n: nat)
    requires |s| == 2
  {
    var a: nat, b: nat := s[0], s[1];
    a * 256 + b
  }

  function Host32(s: seq<byte>): (n: nat)
    requires |s| == 4
    ensures n < 0x1_0000_0000
  {
    var a: nat, b: nat, c: nat, d: nat := s[0], s[1], s[2], s[3];
    a * 0x100_0000 + b * 0x1_0000 + c * 256 + d
  }

  /** The number that bytes spell, most significant byte first. */
  function Number(s: seq<byte>): nat {
    if s == [] then 0 else Number(s[..|s| - 1]) * 256 + s[|s| - 1]
  }

  lemma NumberOfFour(s: seq<byte>)
    requires |s| == 4
    ensures Number(s) == Host32(s)
  {
    var c, b, a := s[..3], s[..2], s[..1];
    assert c[..2] == b && b[..1] == a && a[..0] == [];
    assert Number(a) == s[0];
    assert Number(b) == Number(a) * 256 + s[1];
    assert Number(c) == Number(b) * 256 + s[2];
  }

  /** Eight bytes spell the number of the first four, and that of the others after it. */
  lemma NumberOfEight(s: seq<byte>)
    requires |s| == 8
    ensures Number(s) == Host32(s[..4]) * 0x1_0000_0000 + Host32(s[4..])
  {
    var g, f, e, d := s[..7], s[..6], s[..5], s[..4];
    assert g[..6] == f && f[..5] == e && e[..4] == d;
    NumberOfFour(d);
    assert Number(e) == Number(d) * 256 + s[4];
    assert Number(f) == Number(e) * 256 + s[5];
    assert Number(g) == Number(f) * 256 + s[6];
  }

  lemma HostOfNet16(n: nat)
    requires n < 0x1_0000
    ensures Host16(Net16(n)) == n
  {
  }

  lemma HostOfNet(n: nat)
    requires n < 0x1_0000_0000
    ensures Host32(Net32(n)) == n
  {
    var high, low := n / 0x1_0000, n % 0x1_0000;
    HostOfNet16(high);
    HostOfNet16(low);
    Halves(n, high, low);
    assert Net32(n) == Net16(high) + Net16(low);
  }

  // ---------- the order of the bytes ----------

  /** Lexicographic order: the first byte decides, and the rest only if it does not. */
  predicate Precedes(a: seq<byte>, b: seq<byte>)
    requires |a| == |b|
  {
    a != [] && (a[0] < b[0] || (a[0] == b[0] && Precedes(a[1..], b[1..])))
  }

  lemma PrecedesOnFour(a: seq<byte>, b: seq<byte>)
    requires |a| == |b| == 4
    ensures Precedes(a, b) <==> Host32(a) < Host32(b)
  {
    var a1, b1 := a[1..], b[1..];
    var a2, b2 := a1[1..], b1[1..];
    var a3, b3 := a2[1..], b2[1..];
    assert a3[1..] == [] == b3[1..];
    assert Precedes(a3, b3) <==> a[3] < b[3];
    assert Precedes(a2, b2) <==> a[2] < b[2] || (a[2] == b[2] && Precedes(a3, b3));
    assert Precedes(a1, b1) <==> a[1] < b[1] || (a[1] == b[1] && Precedes(a2, b2));
  }

  /** The most significant byte comes first: numbers compare as their bytes do, one after the other. */
  lemma NetOrders(m: nat, n: nat)
    requires m < 0x1_0000_0000 && n < 0x1_0000_0000
    ensures m < n <==> Precedes(Net32(m), Net32(n))
  {
    HostOfNet(m);
    HostOfNet(n);
    PrecedesOnFour(Net32(m), Net32(n));
  }

  lemma NetOrders16(m: nat, n: nat)
    requires m < 0x1_0000 && n < 0x1_0000
    ensures m < n <==> Precedes(Net16(m), Net16(n))
  {
    var a, b := Net16(m), Net16(n);
    assert a[1..][1..] == [] == b[1..][1..];
    assert Precedes(a[1..], b[1..]) <==> a[1] < b[1];
    HostOfNet16(m);
    HostOfNet16(n);
  }

  lemma Halves(n: nat, high: nat, low: nat)
    requires n < 0x1_0000_0000 && high == n / 0x1_0000 && low == n % 0x1_0000
    ensures n / 0x100_0000 % 256 == high / 256 % 256 && n / 256 % 256 == low / 256 % 256 && n % 256 == low % 256
  {
    HighByte(n);
    var a, b := low / 256, low % 256;
    assert n == (high * 256 + a) * 256 + b;
    Quotient(n, high * 256 + a, b);
    assert (high * 256 + a) % 256 == a;
  }

  lemma HighByte(n: nat)
    ensures n / 0x100_0000 == n / 0x1_0000 / 256
  {
    var q, r := n / 0x100_0000, n % 0x100_0000;
    assert n / 0x1_0000 == q * 256 + r / 0x1_0000;
  }

  lemma Quotient(n: nat, q: nat, r: nat)
    requires n == q * 256 + r && r < 256
    ensures n / 256 == q && n % 256 == r
  {
  }
}
