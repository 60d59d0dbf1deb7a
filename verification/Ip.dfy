/** Addresses as Go's `net` package holds them: 16 bytes, IPv4 mapped into the low four. */
module Ip {
  import opened Wrappers
  import opened Text

  type byte = x: int | 0 <= x < 256

  const IPV4_COUNT: nat := 0x1_0000_0000

  // ---------------------------------------------------------------- big-endian values

  function Pow256(n: nat): (p: nat)
    ensures p >= 1
  {
    if n == 0 then 1 else 256 * Pow256(n - 1)
  }

  /** Big-endian value of a byte string. */
  function Value(b: seq<byte>): nat {
    if b == [] then 0 else 256 * Value(b[..|b| - 1]) + b[|b| - 1]
  }

  /** The byte string `inc` leaves behind. */
  function Succ(b: seq<byte>): (r: seq<byte>)
    ensures |r| == |b|
  {
    if b == [] then []
    else
      var n := |b| - 1;
      if b[n] < 255 then b[..n] + [b[n] + 1] else Succ(b[..n]) + [0]
  }

  lemma {:induction false} ValueBound(b: seq<byte>)
    ensures Value(b) < Pow256(|b|)
  {
    if b != [] {
      ValueBound(b[..|b| - 1]);
    }
  }

  lemma {:induction false} ValueConcat(a: seq<byte>, b: seq<byte>)
    ensures Value(a + b) == Value(a) * Pow256(|b|) + Value(b)
  {
    if b == [] {
      assert a + b == a;
    } else {
      var n := |b| - 1;
      ValueConcat(a, b[..n]);
      assert (a + b)[..|a + b| - 1] == a + b[..n];
      assert Value(a) * Pow256(|b|) == 256 * (Value(a) * Pow256(n));
    }
  }

  lemma {:induction false} ValueInjective(a: seq<byte>, b: seq<byte>)
    requires |a| == |b| && Value(a) == Value(b)
    ensures a == b
  {
    if a != [] {
      var n := |a| - 1;
      assert a[n] == b[n] && Value(a[..n]) == Value(b[..n]);
      ValueInjective(a[..n], b[..n]);
      assert a == a[..n] + [a[n]] && b == b[..n] + [b[n]];
    }
  }

  /** `inc` adds one modulo 256^n. */
  lemma {:induction false} SuccAddsOne(b: seq<byte>)
    ensures Value(Succ(b)) == if Value(b) + 1 == Pow256(|b|) then 0 else Value(b) + 1
  {
    if b != [] {
      var n := |b| - 1;
      ValueBound(b[..n]);
      SuccAddsOne(b[..n]);
      assert Succ(b)[..n] == if b[n] < 255 then b[..n] else Succ(b[..n]);
    }
  }

  /** Index of the byte that absorbs the carry, or -1 when every byte is 255. */
  function CarryAt(b: seq<byte>): (k: int)
    ensures -1 <= k < |b|
    ensures k >= 0 ==> b[k] < 255
    ensures forall i :: k < i < |b| ==> b[i] == 255
  {
    if b == [] then -1
    else if b[|b| - 1] < 255 then |b| - 1
    else
      assert forall i :: 0 <= i < |b| - 1 ==> b[..|b| - 1][i] == b[i];
      CarryAt(b[..|b| - 1])
  }

  /** `inc` clears the bytes below the carry and leaves those above it alone. */
  lemma {:induction false} SuccCarry(b: seq<byte>)
    ensures var k := CarryAt(b);
      forall i :: 0 <= i < |b| ==>
        Succ(b)[i] == if i < k then b[i] else if i == k then b[i] + 1 else 0
  {
    if b != [] && b[|b| - 1] == 255 {
      SuccCarry(b[..|b| - 1]);
    }
  }

  /** The in-place increment. */
  method Inc(ip: array<byte>)
    modifies ip
    ensures ip[..] == Succ(old(ip[..]))
  {
    ghost var was := ip[..];
    SuccCarry(was);
    var j := ip.Length - 1;
    while j >= 0
      invariant -1 <= j < ip.Length
      invariant forall i :: 0 <= i <= j ==> ip[i] == was[i]
      invariant forall i :: j < i < ip.Length ==> ip[i] == 0 && was[i] == 255
    {
      ip[j] := if ip[j] == 255 then 0 else ip[j] + 1;
      if ip[j] > 0 {
        break;
      }
      j := j - 1;
    }
    assert CarryAt(was) == j;
  }

  // ---------------------------------------------------------------- IPv4-mapped addresses

  function Octets(n: nat): (o: seq<byte>)
    requires n < IPV4_COUNT
    ensures |o| == 4
  {
    var (n1, n2) := (n / 256, n / 256 / 256);
    [n2 / 256, n2 % 256, n1 % 256, n % 256]
  }

  function Quad(o: seq<byte>): (n: nat)
    requires |o| == 4
    ensures n < IPV4_COUNT
  {
    var a: int, b: int, c: int := o[0], o[1], o[2];
    ((a * 256 + b) * 256 + c) * 256 + o[3]
  }

  const V4_PREFIX: seq<byte> := [0, 0, 0, 0, 0, 0, 0, 0, 0, 0, 255, 255]

  /** The 16-byte form `net.ParseCIDR` returns for an IPv4 address. */
  function V4(n: nat): (b: seq<byte>)
    requires n < IPV4_COUNT
    ensures |b| == 16
  {
    V4_PREFIX + Octets(n)
  }

  /** `IP.To4`. */
  function To4(b: seq<byte>): (r: Option<nat>)
    ensures r.Some? ==> r.value < IPV4_COUNT
  {
    if |b| == 4 then Some(Quad(b))
    else if |b| == 16 && b[..12] == V4_PREFIX then Some(Quad(b[12..]))
    else None
  }

  lemma QuadOctets(n: nat)
    requires n < IPV4_COUNT
    ensures Quad(Octets(n)) == n
  {
  }

  lemma OctetsQuad(o: seq<byte>)
    requires |o| == 4
    ensures Octets(Quad(o)) == o
  {
    var a: int, b: int, c: int := o[0], o[1], o[2];
    LowByte((a * 256 + b) * 256 + c, o[3]);
    LowByte(a * 256 + b, o[2]);
    LowByte(a, o[1]);
  }

  lemma LowByte(high: nat, low: byte)
    ensures (high * 256 + low) / 256 == high && (high * 256 + low) % 256 == low
  {
  }

  lemma ValueQuad(o: seq<byte>)
    requires |o| == 4
    ensures Value(o) == Quad(o)
  {
    var a: int, b: int, c: int := o[0], o[1], o[2];
    assert o[..3][..2] == o[..2] && o[..2][..1] == o[..1] && o[..1][..0] == [];
    assert Value(o[..1]) == a;
    assert Value(o[..2]) == a * 256 + b;
    assert Value(o[..3]) == (a * 256 + b) * 256 + c;
  }

  /** `To4` recognises exactly the mapped form. */
  lemma To4V4(b: seq<byte>, n: nat)
    requires |b| == 16 && n < IPV4_COUNT
    ensures To4(b) == Some(n) <==> b == V4(n)
  {
    QuadOctets(n);
    OctetsQuad(b[12..]);
    assert b == b[..12] + b[12..];
    assert b == V4(n) ==> b[..12] == V4_PREFIX && b[12..] == Octets(n);
  }

  lemma ValueV4(n: nat)
    requires n < IPV4_COUNT
    ensures Value(V4(n)) == 0xFFFF_0000_0000 + n
  {
    QuadOctets(n);
    ValueQuad(Octets(n));
    ValueConcat(V4_PREFIX, Octets(n));
    assert Pow256(4) == IPV4_COUNT by {
      assert Pow256(1) == 256 && Pow256(2) == 0x1_0000 && Pow256(3) == 0x100_0000;
    }
    assert Value(V4_PREFIX) == 0xFFFF by {
      var zeros := V4_PREFIX[..10];
      assert V4_PREFIX[..11][..10] == zeros && V4_PREFIX[..12] == V4_PREFIX;
      assert V4_PREFIX[..11][10] == 255;
      ValueZeros(zeros);
      assert Value(V4_PREFIX[..11]) == 255;
    }
  }

  lemma {:induction false} ValueZeros(b: seq<byte>)
    requires forall i :: 0 <= i < |b| ==> b[i] == 0
    ensures Value(b) == 0
  {
    if b != [] {
      ValueZeros(b[..|b| - 1]);
    }
  }

  /** The increment wraps to zero only when the leading byte is full too. */
  lemma {:induction false} NoWrap(b: seq<byte>)
    requires b != [] && b[0] < 255
    ensures Value(b) + 1 < Pow256(|b|)
  {
    if |b| == 1 {
      assert b[..0] == [];
    } else {
      NoWrap(b[..|b| - 1]);
    }
  }

  lemma ValueSuccV4(n: nat)
    requires n < IPV4_COUNT
    ensures Value(Succ(V4(n))) == 0xFFFF_0000_0000 + n + 1
  {
    SuccAddsOne(V4(n));
    NoWrap(V4(n));
    ValueV4(n);
  }

  /** Incrementing an IPv4 address gives the next one. */
  lemma SuccV4(n: nat)
    requires n + 1 < IPV4_COUNT
    ensures Succ(V4(n)) == V4(n + 1)
  {
    ValueSuccV4(n);
    ValueV4(n + 1);
    ValueInjective(Succ(V4(n)), V4(n + 1));
  }

  /** Past 255.255.255.255 the bytes leave the mapped block and no longer read as IPv4. */
  lemma SuccTopV4(b: seq<byte>)
    requires |b| == 16 && Value(b) >= 0x1_0000_0000_0000
    ensures To4(b) == None
  {
    if To4(b).Some? {
      To4V4(b, To4(b).value);
      ValueV4(To4(b).value);
    }
  }

  // ---------------------------------------------------------------- prefixes

  function Pow2(k: nat): (p: nat)
    ensures p >= 1
  {
    if k == 0 then 1 else 2 * Pow2(k - 1)
  }

  /** Number of addresses behind a prefix of the given length. */
  function Size(bits: nat): (s: nat)
    requires bits <= 32
    ensures s >= 1
  {
    Pow2(32 - bits)
  }

  /** The number with its low k bits cleared. */
  function ClearLow(n: nat, k: nat): (r: nat)
    ensures r <= n < r + Pow2(k)
  {
    if k == 0 then n else 2 * ClearLow(n / 2, k - 1)
  }

  /** The address with its host bits cleared. */
  function Prefix(n: nat, bits: nat): (p: nat)
    requires bits <= 32
    ensures p <= n < p + Size(bits)
  {
    ClearLow(n, 32 - bits)
  }

  /** A prefix in the notation of section 3.1 of RFC 4632. */
  datatype Net = Net(base: nat, bits: nat) {
    predicate Valid() {
      bits <= 32 && base < IPV4_COUNT && Prefix(base, bits) == base
    }
  }

  /** `IPNet.Contains` for an IPv4 prefix. */
  predicate Contains(net: Net, ip: seq<byte>)
    requires net.Valid()
  {
    match To4(ip)
    case None => false
    case Some(n) => Prefix(n, net.bits) == net.base
  }

  lemma {:induction false} ClearTwice(n: nat, k: nat)
    ensures ClearLow(ClearLow(n, k), k) == ClearLow(n, k)
  {
    if k > 0 {
      ClearTwice(n / 2, k - 1);
    }
  }

  /** The numbers that clear to `base` are an interval. */
  lemma {:induction false} ClearInterval(base: nat, n: nat, k: nat)
    requires ClearLow(base, k) == base
    ensures ClearLow(n, k) == base <==> base <= n < base + Pow2(k)
  {
    if k > 0 {
      ClearInterval(base / 2, n / 2, k - 1);
    }
  }

  lemma {:induction false} ClearEnd(base: nat, k: nat, m: nat)
    requires k <= m && ClearLow(base, k) == base && base < Pow2(m)
    ensures base + Pow2(k) <= Pow2(m)
  {
    if k > 0 {
      ClearEnd(base / 2, k - 1, m - 1);
    }
  }

  lemma Pow2Of32()
    ensures Pow2(32) == IPV4_COUNT
  {
    assert Pow2(8) == 256 && Pow2(16) == 0x1_0000 && Pow2(24) == 0x100_0000;
  }

  lemma {:induction false} Pow2Sum(j: nat, k: nat)
    ensures Pow2(j) * Pow2(k) == Pow2(j + k)
  {
    if j > 0 {
      Pow2Sum(j - 1, k);
      assert Pow2(j) * Pow2(k) == 2 * (Pow2(j - 1) * Pow2(k));
    }
  }

  /** A prefix of b bits splits the address space into 2^b equal parts. */
  lemma SizeShare(bits: nat)
    requires bits <= 32
    ensures Size(bits) * Pow2(bits) == IPV4_COUNT
  {
    Pow2Sum(32 - bits, bits);
    Pow2Of32();
  }

  lemma {:induction false} ClearMultiple(n: nat, k: nat) returns (q: nat)
    ensures ClearLow(n, k) == q * Pow2(k)
  {
    if k == 0 {
      q := n;
    } else {
      q := ClearMultiple(n / 2, k - 1);
      assert 2 * (q * Pow2(k - 1)) == q * (2 * Pow2(k - 1));
    }
  }

  lemma MulLe(a: nat, b: nat, m: nat)
    requires a <= b
    ensures a * m <= b * m
  {
  }

  lemma DivUnique(n: nat, m: nat, q: nat)
    requires m > 0 && q * m <= n < q * m + m
    ensures n / m == q
  {
    var p := n / m;
    assert p * m <= n < p * m + m;
    assert (p + 1) * m == p * m + m && (q + 1) * m == q * m + m;
    if p < q { MulLe(p + 1, q, m); }
    if q < p { MulLe(q + 1, p, m); }
  }

  /** The prefix of an address is the address rounded down to a multiple of the prefix's size,
      and the size is the 2^bits-th part of the address space. */
  lemma PrefixRounds(n: nat, bits: nat)
    requires bits <= 32
    ensures Prefix(n, bits) == n / Size(bits) * Size(bits)
    ensures Size(bits) * Pow2(bits) == IPV4_COUNT
  {
    var q := ClearMultiple(n, 32 - bits);
    DivUnique(n, Size(bits), q);
    SizeShare(bits);
  }

  /** The k low bits are zero. */
  predicate LowZero(h: nat, k: nat) { k == 0 || (h % 2 == 0 && LowZero(h / 2, k - 1)) }

  /** Clearing low bits leaves alone what has none of them. */
  lemma {:induction false} ClearBeside(h: nat, d: nat, k: nat)
    requires LowZero(h, k)
    ensures ClearLow(h + d, k) == h + ClearLow(d, k)
  {
    if k > 0 {
      assert (h + d) / 2 == h / 2 + d / 2;
      ClearBeside(h / 2, d / 2, k - 1);
    }
  }

  lemma {:induction false} LowZeroLess(h: nat, j: nat, k: nat)
    requires LowZero(h, k) && j <= k
    ensures LowZero(h, j)
  {
    if j > 0 {
      LowZeroLess(h / 2, j - 1, k - 1);
    }
  }

  lemma LowZeroByte(x: nat)
    ensures LowZero(x * 256, 8)
  {
    assert LowZero(x * 2, 1) && LowZero(x * 4, 2) && LowZero(x * 8, 3) && LowZero(x * 16, 4);
    assert LowZero(x * 32, 5) && LowZero(x * 64, 6) && LowZero(x * 128, 7);
  }

  lemma ClearNibble(n: nat, j: nat)
    ensures ClearLow(n, j + 4) == 16 * ClearLow(n / 16, j)
  {
    assert ClearLow(n, j + 4) == 2 * ClearLow(n / 2, j + 3);
    assert ClearLow(n / 2, j + 3) == 2 * ClearLow(n / 2 / 2, j + 2);
    assert ClearLow(n / 2 / 2, j + 2) == 2 * ClearLow(n / 2 / 2 / 2, j + 1);
    assert ClearLow(n / 2 / 2 / 2, j + 1) == 2 * ClearLow(n / 2 / 2 / 2 / 2, j);
    assert n / 2 / 2 / 2 / 2 == n / 16;
  }

  /** Clearing low bits of a number whose lowest octet is d. */
  lemma ClearByte(x: nat, d: byte, k: nat)
    ensures k <= 8 ==> ClearLow(x * 256 + d, k) == x * 256 + ClearLow(d, k)
    ensures k >= 8 ==> ClearLow(x * 256 + d, k) == ClearLow(x, k - 8) * 256
  {
    if k <= 8 {
      LowZeroByte(x);
      LowZeroLess(x * 256, k, 8);
      ClearBeside(x * 256, d, k);
    }
    if k >= 8 {
      var n := x * 256 + d;
      ClearNibble(n, k - 4);
      ClearNibble(n / 16, k - 8);
      assert n / 16 / 16 == x;
    }
  }

  /** How many low bits of octet i a prefix length masks out. */
  function Masked(bits: nat, i: nat): (k: nat)
    requires bits <= 32 && i < 4
    ensures k <= 8
  {
    if bits >= 8 * (i + 1) then 0 else if bits <= 8 * i then 8 else 8 * (i + 1) - bits
  }

  lemma ClearOctet(d: byte)
    ensures ClearLow(d, 0) == d && ClearLow(d, 8) == 0
  {
    ClearByte(0, d, 8);
    assert ClearLow(0, 0) == 0;
  }

  lemma MaskedAt(bits: nat)
    requires bits <= 32
    ensures var k := 32 - bits;
      && Masked(bits, 3) == (if k <= 8 then k else 8)
      && Masked(bits, 2) == (if k <= 8 then 0 else if k <= 16 then k - 8 else 8)
      && Masked(bits, 1) == (if k <= 16 then 0 else if k <= 24 then k - 16 else 8)
      && Masked(bits, 0) == (if k <= 24 then 0 else k - 24)
  {
  }

  lemma ClearPair(x: nat, d: byte, k: nat)
    ensures ClearLow(x * 256 + d, k)
         == ClearLow(x, if k <= 8 then 0 else k - 8) * 256 + ClearLow(d, if k <= 8 then k else 8)
  {
    assert ClearLow(x, 0) == x;
    ClearByte(x, d, k);
    ClearOctet(d);
  }

  /** Clearing k low bits, seen on the lowest octet and on the number above it. */
  lemma ClearDown(n: nat, k: nat)
    ensures ClearLow(n, k) / 256 == ClearLow(n / 256, if k <= 8 then 0 else k - 8)
    ensures ClearLow(n, k) % 256 == ClearLow(n % 256, if k <= 8 then k else 8)
  {
    hide ClearLow;
    ClearPair(n / 256, n % 256, k);
    LowByte(ClearLow(n / 256, if k <= 8 then 0 else k - 8), ClearLow(n % 256, if k <= 8 then k else 8));
  }

  /** Masking works octet by octet, as the bytewise AND with a mask of leading ones does. */
  lemma PrefixOctets(n: nat, bits: nat)
    requires n < IPV4_COUNT && bits <= 32
    ensures Prefix(n, bits) < IPV4_COUNT
    ensures forall i :: 0 <= i < 4 ==> Octets(Prefix(n, bits))[i] == ClearLow(Octets(n)[i], Masked(bits, i))
  {
    hide ClearLow, Masked, Pow2;
    var k := 32 - bits;
    var k1 := if k <= 8 then 0 else k - 8;
    var k2 := if k1 <= 8 then 0 else k1 - 8;
    MaskedAt(bits);
    ClearDown(n, k);
    ClearDown(n / 256, k1);
    ClearDown(n / 256 / 256, k2);
  }

  lemma PrefixOf(n: nat, bits: nat)
    requires bits <= 32 && n < IPV4_COUNT
    ensures Net(Prefix(n, bits), bits).Valid()
  {
    ClearTwice(n, 32 - bits);
  }

  /** Prefix membership is membership in an interval. */
  lemma PrefixInterval(net: Net, n: nat)
    requires net.Valid()
    ensures Prefix(n, net.bits) == net.base <==> net.base <= n < net.base + Size(net.bits)
  {
    ClearInterval(net.base, n, 32 - net.bits);
  }

  /** A prefix never reaches past the last IPv4 address. */
  lemma PrefixEnd(net: Net)
    requires net.Valid()
    ensures net.base + Size(net.bits) <= IPV4_COUNT
  {
    Pow2Of32();
    ClearEnd(net.base, 32 - net.bits, 32);
  }

  // ---------------------------------------------------------------- walking upwards

  /** Sixteen bytes that `inc` has carried to the number `n`. */
  ghost predicate Holds(b: seq<byte>, n: nat)
    requires n <= IPV4_COUNT
  {
    |b| == 16 && if n < IPV4_COUNT then b == V4(n) else To4(b) == None
  }

  lemma HoldsNext(b: seq<byte>, n: nat)
    requires n < IPV4_COUNT && Holds(b, n)
    ensures Holds(Succ(b), n + 1)
  {
    if n + 1 < IPV4_COUNT {
      SuccV4(n);
    } else {
      ValueSuccV4(n);
      SuccTopV4(Succ(b));
    }
  }

  /** The membership test on the bytes is an interval test on the number. */
  lemma HoldsContains(net: Net, b: seq<byte>, n: nat)
    requires net.Valid() && n <= IPV4_COUNT && Holds(b, n)
    ensures Contains(net, b) <==> net.base <= n < net.base + Size(net.bits)
    ensures Contains(net, b) ==> n < IPV4_COUNT && To4(b) == Some(n)
  {
    PrefixEnd(net);
    if n < IPV4_COUNT {
      To4V4(b, n);
      PrefixInterval(net, n);
    }
  }

  // ---------------------------------------------------------------- text

  /** Octets as they appear after the first one. */
  function Dotted(o: seq<byte>): (s: string)
    ensures s == "" || s[0] == '.'
  {
    if o == [] then "" else "." + Itoa(o[0]) + Dotted(o[1..])
  }

  /** `IP.String` of an IPv4 address. */
  function Render(n: nat): string
    requires n < IPV4_COUNT
  {
    Itoa(Octets(n)[0]) + Dotted(Octets(n)[1..])
  }

  /** One number of at most 255, and the text after it. */
  function ReadOctet(s: string): Option<(byte, string)> {
    match Dtoi(s)
    case None => None
    case Some((n, k)) => if n > 255 then None else Some((n as byte, s[k..]))
  }

  /** `count` more octets, each behind a dot, and then nothing. */
  function ParseDots(s: string, count: nat): (r: Option<seq<byte>>)
    ensures r.Some? ==> |r.value| == count
    decreases count
  {
    if count == 0 then (if s == "" then Some([]) else None)
    else if s == "" || s[0] != '.' then None
    else
      match ReadOctet(s[1..])
      case None => None
      case Some((n, t)) =>
        match ParseDots(t, count - 1)
        case None => None
        case Some(rest) => Some([n] + rest)
  }

  /** Go's `parseIPv4`. */
  function ParseIPv4(s: string): (r: Option<nat>)
    ensures r.Some? ==> r.value < IPV4_COUNT
  {
    match ReadOctet(s)
    case None => None
    case Some((n, t)) =>
      match ParseDots(t, 3)
      case None => None
      case Some(rest) => Some(Quad([n] + rest))
  }

  datatype Family = V4Text | V6Text | NoAddress

  /** `ipv4or6`: the first '.' or ':' decides, as it does inside `net.ParseIP`. */
  function Ipv4or6(s: string): Family {
    if s == "" then NoAddress
    else if s[0] == '.' then V4Text
    else if s[0] == ':' then V6Text
    else Ipv4or6(s[1..])
  }

  /** `net.ParseIP` on everything but IPv6 text. */
  function ParseIP(s: string): (r: Option<nat>)
    ensures r.Some? ==> r.value < IPV4_COUNT
  {
    if Ipv4or6(s) == V4Text then ParseIPv4(s) else None
  }

  /** `net.ParseCIDR`: the address as written and the prefix it lies in. */
  function ParseCIDR(s: string): (r: Option<(nat, Net)>)
    ensures r.Some? ==> r.value.0 < IPV4_COUNT && r.value.1.Valid()
                        && Prefix(r.value.0, r.value.1.bits) == r.value.1.base
  {
    match IndexOf(s, '/')
    case None => None
    case Some(i) =>
      match (ParseIPv4(s[..i]), Dtoi(s[i + 1..]))
      case (Some(n), Some((bits, k))) =>
        if k != |s[i + 1..]| || bits > 32 then None
        else
          PrefixOf(n, bits);
          Some((n, Net(Prefix(n, bits), bits)))
      case _ => None
  }

  /** The canonical name under which a prefix is stored. */
  function Label(net: Net): string
    requires net.Valid()
  {
    Render(net.base) + "/" + Itoa(net.bits)
  }

  lemma ReadOctetText(n: byte, tail: string)
    requires tail == "" || tail[0] == '.'
    ensures ReadOctet(Itoa(n) + tail) == Some((n, tail))
  {
    hide Dtoi, Itoa;
    DtoiItoa(n, tail);
  }

  lemma ParseDotsOne(n: byte, rest: seq<byte>, octet: string, tail: string)
    requires ReadOctet(octet) == Some((n, tail)) && ParseDots(tail, |rest|) == Some(rest)
    ensures ParseDots(['.'] + octet, |rest| + 1) == Some([n] + rest)
  {
    hide ReadOctet;
    assert (['.'] + octet)[1..] == octet;
  }

  lemma {:induction false} ParseDotted(o: seq<byte>)
    ensures ParseDots(Dotted(o), |o|) == Some(o)
  {
    hide ReadOctet, Itoa;
    if o != [] {
      ParseDotted(o[1..]);
      ReadOctetText(o[0], Dotted(o[1..]));
      hide ParseDots;
      ParseDotsOne(o[0], o[1..], Itoa(o[0]) + Dotted(o[1..]), Dotted(o[1..]));
      assert Dotted(o) == ['.'] + (Itoa(o[0]) + Dotted(o[1..]));
      assert [o[0]] + o[1..] == o;
    }
  }

  /** Reading a rendered address gives the address back. */
  lemma ParseRender(n: nat)
    requires n < IPV4_COUNT
    ensures ParseIPv4(Render(n)) == Some(n)
  {
    hide ReadOctet, Itoa, ParseDots;
    var o := Octets(n);
    ParseDotted(o[1..]);
    ReadOctetText(o[0], Dotted(o[1..]));
    assert [o[0]] + o[1..] == o;
    QuadOctets(n);
  }

  /** Dotted-decimal rendering is injective, so comparing texts compares addresses. */
  lemma RenderInjective(m: nat, n: nat)
    requires m < IPV4_COUNT && n < IPV4_COUNT
    ensures Render(m) == Render(n) <==> m == n
  {
    ParseRender(m);
    ParseRender(n);
  }

  lemma {:induction false} DigitsThenDot(s: string, k: nat)
    requires k < |s| && AllDigits(s[..k]) && s[k] == '.'
    ensures Ipv4or6(s) == V4Text
    decreases k
  {
    if k > 0 {
      assert s[0] == s[..k][0];
      assert s[1..][..k - 1] == s[..k][1..];
      DigitsThenDot(s[1..], k - 1);
    }
  }

  lemma {:induction false} DottedChars(o: seq<byte>)
    ensures forall i :: 0 <= i < |Dotted(o)| ==> IsDigit(Dotted(o)[i]) || Dotted(o)[i] == '.'
  {
    if o != [] {
      DottedChars(o[1..]);
    }
  }

  lemma RenderChars(n: nat)
    requires n < IPV4_COUNT
    ensures Render(n) != ""
    ensures forall i :: 0 <= i < |Render(n)| ==> IsDigit(Render(n)[i]) || Render(n)[i] == '.'
    ensures Ipv4or6(Render(n)) == V4Text
  {
    var o := Octets(n);
    DottedChars(o[1..]);
    assert Dotted(o[1..]) != "";
    assert Render(n)[..|Itoa(o[0])|] == Itoa(o[0]);
    DigitsThenDot(Render(n), |Itoa(o[0])|);
  }

  /** A rendered address parses through every entry point. */
  lemma ParseRendered(n: nat)
    requires n < IPV4_COUNT
    ensures ParseIP(Render(n)) == Some(n) && ':' !in Render(n)
  {
    RenderChars(n);
    ParseRender(n);
  }

  lemma FirstSlash(s: string, k: nat)
    requires k < |s| && s[k] == '/' && '/' !in s[..k]
    ensures IndexOf(s, '/') == Some(k)
  {
  }

  /** Reading "address/length" gives the address and its prefix. */
  lemma ParseRenderedCIDR(n: nat, bits: nat)
    requires n < IPV4_COUNT && bits <= 32
    ensures ParseCIDR(Render(n) + "/" + Itoa(bits)) == Some((n, Net(Prefix(n, bits), bits)))
  {
    hide Render, ParseIPv4, Itoa, Dtoi;
    var s := Render(n) + "/" + Itoa(bits);
    RenderChars(n);
    ParseRender(n);
    var k := |Render(n)|;
    assert s[k] == '/' && s[..k] == Render(n) && s[k + 1..] == Itoa(bits);
    FirstSlash(s, k);
    assert Itoa(bits) + "" == Itoa(bits);
    DtoiItoa(bits, "");
  }

  /** A stored label reads back as the prefix it names. */
  lemma ParseLabel(net: Net)
    requires net.Valid()
    ensures ParseCIDR(Label(net)) == Some((net.base, net))
  {
    ParseRenderedCIDR(net.base, net.bits);
  }

  // ---------------------------------------------------------------- which texts are read

  /** Decimal digits for a number of at most 255; leading zeros do not matter. */
  predicate OctetText(t: string) { t != "" && AllDigits(t) && Number(t) <= 255 }

  /** Four such numbers between three dots. */
  predicate QuadText(s: string, n: nat) {
    var p := Split(s, '.');
    && |p| == 4 && OctetText(p[0]) && OctetText(p[1]) && OctetText(p[2]) && OctetText(p[3])
    && n == ((Number(p[0]) * 256 + Number(p[1])) * 256 + Number(p[2])) * 256 + Number(p[3])
  }

  predicate OctetTexts(ps: seq<string>) { forall i :: 0 <= i < |ps| ==> OctetText(ps[i]) }

  function Dots(ps: seq<string>): (s: string)
    ensures s == "" || s[0] == '.'
  {
    if ps == [] then "" else ['.'] + ps[0] + Dots(ps[1..])
  }

  function Octet(t: string): byte
    requires OctetText(t)
  {
    Number(t)
  }

  function OctetsOf(ps: seq<string>): (o: seq<byte>)
    requires OctetTexts(ps)
    ensures |o| == |ps| && forall i :: 0 <= i < |o| ==> o[i] == Octet(ps[i])
  {
    seq(|ps|, i requires 0 <= i < |ps| => Octet(ps[i]))
  }

  lemma ReadOctetOf(t: string, tail: string)
    requires OctetText(t) && (tail == "" || tail[0] == '.')
    ensures ReadOctet(t + tail) == Some((Octet(t), tail))
  {
    hide Dtoi;
    DtoiText(t, tail);
    assert (t + tail)[|t|..] == tail;
  }

  lemma ReadOctetInto(s: string) returns (t: string)
    requires ReadOctet(s).Some?
    ensures OctetText(t) && s == t + ReadOctet(s).value.1 && ReadOctet(s).value.0 == Octet(t)
  {
    var k := DigitRun(s);
    t := s[..k];
    assert s == s[..k] + s[k..];
  }

  lemma {:induction false} ParseDotsOf(ps: seq<string>)
    requires OctetTexts(ps)
    ensures ParseDots(Dots(ps), |ps|) == Some(OctetsOf(ps))
    decreases |ps|
  {
    hide ReadOctet;
    if ps != [] {
      var tail := Dots(ps[1..]);
      ParseDotsOf(ps[1..]);
      ReadOctetOf(ps[0], tail);
      hide ParseDots;
      ParseDotsOne(Octet(ps[0]), OctetsOf(ps[1..]), ps[0] + tail, tail);
      assert Dots(ps) == ['.'] + (ps[0] + tail);
      assert [Octet(ps[0])] + OctetsOf(ps[1..]) == OctetsOf(ps);
    }
  }

  lemma {:induction false} ParseDotsInto(s: string, count: nat) returns (ps: seq<string>)
    requires ParseDots(s, count).Some?
    ensures |ps| == count && OctetTexts(ps) && s == Dots(ps) && ParseDots(s, count).value == OctetsOf(ps)
    decreases count
  {
    hide ReadOctet;
    if count == 0 {
      ps := [];
    } else {
      var t := ReadOctetInto(s[1..]);
      var rest := ParseDotsInto(ReadOctet(s[1..]).value.1, count - 1);
      ps := [t] + rest;
      assert ps[1..] == rest;
      assert s == ['.'] + s[1..] && s == ['.'] + t + Dots(rest);
      assert [Octet(t)] + OctetsOf(rest) == OctetsOf(ps);
    }
  }

  lemma NoDot(t: string)
    requires AllDigits(t)
    ensures '.' !in t
  {
  }

  /** A first number and three more behind dots are what splitting at the dots finds. */
  lemma DotsSplit(first: string, ps: seq<string>)
    requires OctetText(first) && OctetTexts(ps) && |ps| == 3
    ensures Split(first + Dots(ps), '.') == [first] + ps
  {
    hide Split, OctetText;
    var parts := [first] + ps;
    DotsOfThree(ps[0], ps[1], ps[2]);
    assert ps == [ps[0], ps[1], ps[2]];
    assert first + Dots(ps) == first + ['.'] + ps[0] + ['.'] + ps[1] + ['.'] + ps[2];
    JoinFour(first, ps[0], ps[1], ps[2]);
    assert parts == [first, ps[0], ps[1], ps[2]];
    forall p | p in parts ensures '.' !in p {
      var i :| 0 <= i < 4 && parts[i] == p;
      assert OctetText(p);
      OctetDigits(p);
      NoDot(p);
    }
    SplitJoin(parts, '.');
  }

  lemma OctetDigits(t: string)
    requires OctetText(t)
    ensures AllDigits(t)
  {
  }

  lemma JoinFour(a: string, b: string, c: string, d: string)
    ensures Join([a, b, c, d], '.') == a + ['.'] + b + ['.'] + c + ['.'] + d
  {
    assert [a, b, c, d][1..] == [b, c, d] && [b, c, d][1..] == [c, d] && [c, d][1..] == [d];
    assert Join([c, d], '.') == c + ['.'] + d;
    assert Join([b, c, d], '.') == b + ['.'] + (c + ['.'] + d);
  }

  lemma ParseFour(first: string, ps: seq<string>)
    requires OctetText(first) && OctetTexts(ps) && |ps| == 3
    ensures var o := OctetsOf(ps);
      ParseIPv4(first + Dots(ps))
      == Some(((Number(first) * 256 + o[0]) * 256 + o[1]) * 256 + o[2])
  {
    hide ReadOctet, ParseDots, OctetText;
    ReadOctetOf(first, Dots(ps));
    ParseDotsOf(ps);
  }

  /** Exactly the texts that read as the IPv4 address n: four decimal numbers of at most 255
      between three dots, and nothing else. */
  lemma ParseIPv4Iff(s: string, n: nat)
    ensures ParseIPv4(s) == Some(n) <==> QuadText(s, n)
  {
    hide ReadOctet, ParseDots, Split, Dots, OctetText;
    if QuadText(s, n) {
      var p := Split(s, '.');
      JoinSplit(s, '.');
      assert p == [p[0], p[1], p[2], p[3]];
      JoinFour(p[0], p[1], p[2], p[3]);
      DotsOfThree(p[1], p[2], p[3]);
      assert s == p[0] + Dots(p[1..]) by { assert p[1..] == [p[1], p[2], p[3]]; }
      ParseFour(p[0], p[1..]);
    }
    if ParseIPv4(s) == Some(n) {
      var first := ReadOctetInto(s);
      var ps := ParseDotsInto(ReadOctet(s).value.1, 3);
      DotsSplit(first, ps);
      assert Split(s, '.') == [first] + ps;
    }
  }

  lemma DotsOfThree(a: string, b: string, c: string)
    ensures Dots([a, b, c]) == ['.'] + a + ['.'] + b + ['.'] + c
  {
    assert [a, b, c][1..] == [b, c] && [b, c][1..] == [c] && [c][1..] == [];
    assert Dots([]) == "" && Dots([c]) == ['.'] + c;
  }

  /** The family test in front never turns an IPv4 text away. */
  lemma ParseIPIs(s: string)
    ensures ParseIP(s) == ParseIPv4(s)
  {
    hide Dtoi, ParseDots;
    if ParseIPv4(s).Some? {
      var first := ReadOctetInto(s);
      var rest := ReadOctet(s).value.1;
      var ps := ParseDotsInto(rest, 3);
      assert rest[0] == '.';
      assert s[..|first|] == first && s[|first|] == '.';
      DigitsThenDot(s, |first|);
    }
  }

  /** An IPv4 text has no colon. */
  lemma QuadNoColon(s: string, n: nat)
    requires QuadText(s, n)
    ensures ':' !in s
  {
    QuadLacks(s, n, ':');
  }

  lemma {:induction false} JoinChars(parts: seq<string>, sep: char, c: char)
    requires |parts| >= 1 && c != sep && forall p :: p in parts ==> c !in p
    ensures c !in Join(parts, sep)
  {
    assert parts[0] in parts;
    if |parts| > 1 {
      assert forall p :: p in parts[1..] ==> p in parts;
      JoinChars(parts[1..], sep, c);
    }
  }

  lemma DigitsLack(t: string, c: char)
    requires AllDigits(t) && !IsDigit(c)
    ensures c !in t
  {
  }

  /** An IPv4 text holds nothing but digits and dots. */
  lemma QuadLacks(s: string, n: nat, c: char)
    requires QuadText(s, n) && !IsDigit(c) && c != '.'
    ensures c !in s
  {
    hide Split;
    var p := Split(s, '.');
    JoinSplit(s, '.');
    forall x | x in p ensures c !in x {
      var i :| 0 <= i < 4 && p[i] == x;
      assert OctetText(p[i]);
      DigitsLack(x, c);
    }
    JoinChars(p, '.', c);
  }

  /** Decimal digits for a length of at most 32. */
  predicate MaskText(m: string) { m != "" && AllDigits(m) && Number(m) <= 32 }

  /** What "address/length" reads as, and that nothing else reads as anything. */
  lemma ParseCIDRIs(a: string, m: string)
    requires '/' !in a
    ensures ParseCIDR(a + "/" + m)
         == if ParseIPv4(a).Some? && MaskText(m)
            then Some((ParseIPv4(a).value, Net(Prefix(ParseIPv4(a).value, Number(m)), Number(m))))
            else None
  {
    hide ParseIPv4, Prefix;
    var s := a + "/" + m;
    assert s[..|a|] == a && s[|a| + 1..] == m;
    FirstSlash(s, |a|);
    var k := DigitRun(m);
    if k == |m| { assert m[..k] == m; } else { assert !IsDigit(m[k]); }
  }

  lemma ParseCIDRNone(s: string)
    requires '/' !in s
    ensures ParseCIDR(s) == None
  {
  }

  // ---------------------------------------------------------------- which texts are written

  /** A rendered address is its four octets in decimal notation between dots. */
  lemma RenderSplit(n: nat)
    requires n < IPV4_COUNT
    ensures var o := Octets(n);
      Split(Render(n), '.') == [Itoa(o[0]), Itoa(o[1]), Itoa(o[2]), Itoa(o[3])]
  {
    hide Itoa, Split;
    var o := Octets(n);
    var parts := [Itoa(o[0]), Itoa(o[1]), Itoa(o[2]), Itoa(o[3])];
    JoinFour(parts[0], parts[1], parts[2], parts[3]);
    DottedThree(o[1], o[2], o[3]);
    assert o[1..] == [o[1], o[2], o[3]];
    forall p | p in parts ensures '.' !in p {
      assert AllDigits(p);
      NoDot(p);
    }
    assert Render(n) == parts[0] + ['.'] + parts[1] + ['.'] + parts[2] + ['.'] + parts[3];
    SplitJoin(parts, '.');
  }

  lemma DottedThree(a: byte, b: byte, c: byte)
    ensures Dotted([a, b, c]) == ['.'] + Itoa(a) + ['.'] + Itoa(b) + ['.'] + Itoa(c)
  {
    hide Itoa;
    assert [a, b, c][1..] == [b, c] && [b, c][1..] == [c] && [c][1..] == [];
    assert Dotted([]) == "" && Dotted([c]) == "." + Itoa(c);
    assert Dotted([b, c]) == "." + Itoa(b) + ("." + Itoa(c));
  }

  /** The digits of some octets. */
  lemma OctetExamples()
    ensures Itoa(0) == "0" && Itoa(1) == "1" && Itoa(10) == "10" && Itoa(16) == "16"
    ensures Itoa(172) == "172" && Itoa(255) == "255"
  {
    assert Itoa(2) == "2" && Itoa(17) == "17" && Itoa(25) == "25";
  }

  /** A whole address, for instance. */
  lemma RenderExample()
    ensures Render(0xAC100101) == "172.16.1.1"
  {
    hide Itoa;
    OctetExamples();
    assert Octets(0xAC100101) == [172, 16, 1, 1];
    assert [172, 16, 1, 1][1..] == [16, 1, 1];
    DottedThree(16, 1, 1);
  }

  /** A label is the rendered base and the length in decimal notation around one slash. */
  lemma LabelSplit(net: Net)
    requires net.Valid()
    ensures Split(Label(net), '/') == [Render(net.base), Itoa(net.bits)]
  {
    hide Render, Itoa, Split;
    RenderChars(net.base);
    assert AllDigits(Itoa(net.bits));
    SplitTwo(Render(net.base), Itoa(net.bits), '/');
    assert Render(net.base) + ['/'] + Itoa(net.bits) == Label(net);
  }

  /** Labels name prefixes one to one. */
  lemma LabelInjective(a: Net, b: Net)
    requires a.Valid() && b.Valid()
    ensures Label(a) == Label(b) <==> a == b
  {
    hide Label, ParseCIDR;
    ParseLabel(a);
    ParseLabel(b);
  }
}
