/** IP addresses as octets, CIDR masks, and membership in a network. */
module IpNetworks {
  import opened Wrappers
  import opened Text
  import opened Decimals

  /** An address: 4 octets, or 16. */
  type IP = seq<int>

  predicate IsOctets(ip: IP) { forall i :: 0 <= i < |ip| ==> 0 <= ip[i] < 256 }

  function Pow2(n: nat): (p: nat)
    ensures p > 0
  {
    if n == 0 then 1 else 2 * Pow2(n - 1)
  }

  /** The bitwise AND of the lowest `n` bits. */
  function And(x: nat, y: nat, n: nat): (r: nat)
    ensures r < Pow2(n)
  {
    if n == 0 then 0 else (if x % 2 == 1 && y % 2 == 1 then 1 else 0) + 2 * And(x / 2, y / 2, n - 1)
  }

  /** How many of the leading `bits` fall into octet `i`. */
  function BitsInOctet(bits: nat, i: nat): (k: nat)
    ensures k <= 8
  {
    if bits >= 8 * i + 8 then 8 else if bits <= 8 * i then 0 else bits - 8 * i
  }

  /** Octet `i` of net.CIDRMask: the complement of 255 shifted right. */
  function MaskOctet(bits: nat, i: nat): (m: nat) { 255 - 255 / Pow2(BitsInOctet(bits, i)) }

  function MaskAt(ip: IP, bits: nat, i: nat): nat
    requires i < |ip| && IsOctets(ip)
  {
    And(ip[i], MaskOctet(bits, i), 8)
  }

  /** The two addresses agree under the mask of `bits` leading ones, octet by octet. */
  predicate AgreeUnderMask(x: IP, y: IP, bits: nat)
    requires |x| == |y| && IsOctets(x) && IsOctets(y)
  {
    forall i :: 0 <= i < |x| ==> MaskAt(x, bits, i) == MaskAt(y, bits, i)
  }

  /** The number an address stands for. */
  function Value(ip: IP): nat
    requires IsOctets(ip)
  {
    if ip == [] then 0 else 256 * Value(ip[..|ip| - 1]) + ip[|ip| - 1]
  }

  // ---------- Masking is division ----------

  lemma {:induction false} Pow2Sum(m: nat, n: nat)
    ensures Pow2(m + n) == Pow2(m) * Pow2(n)
  {
    if m > 0 {
      Pow2Sum(m - 1, n);
    }
  }

  lemma Pow2Small()
    ensures Pow2(1) == 2 && Pow2(2) == 4 && Pow2(3) == 8 && Pow2(4) == 16
    ensures Pow2(5) == 32 && Pow2(6) == 64 && Pow2(7) == 128 && Pow2(8) == 256
  {
    assert Pow2(2) == 2 * Pow2(1) && Pow2(3) == 2 * Pow2(2) && Pow2(4) == 2 * Pow2(3);
    assert Pow2(5) == 2 * Pow2(4) && Pow2(6) == 2 * Pow2(5) && Pow2(7) == 2 * Pow2(6);
  }

  lemma MaskOctetValue(k: nat)
    requires k <= 8
    ensures 255 - 255 / Pow2(k) == 256 - Pow2(8 - k)
  {
    Pow2Small();
  }

  lemma Times(a: nat, b: nat, p: nat)
    ensures a <= b ==> a * p <= b * p
    ensures (a + 1) * p == a * p + p && a * (b * p) == a * b * p && a * (2 * p) == 2 * (a * p)
  {
  }

  /** The quotient is the only number with the quotient's property. */
  lemma QuotientIs(x: nat, p: nat, q: nat)
    requires p > 0 && q * p <= x < q * p + p
    ensures x / p == q
  {
    var d := x / p;
    assert x == d * p + x % p;
    Times(d + 1, q, p);
    Times(q + 1, d, p);
    Times(d, q, p);
    Times(q, d, p);
  }

  lemma Halves(x: nat, p: nat)
    requires p > 0
    ensures x / (2 * p) == x / 2 / p
  {
    var q := x / 2 / p;
    assert x / 2 == q * p + x / 2 % p;
    Times(q, 0, p);
    QuotientIs(x, 2 * p, q);
  }

  lemma {:induction false} AndWithOnes(x: nat, n: nat)
    requires x < Pow2(n)
    ensures And(x, Pow2(n) - 1, n) == x
  {
    if n > 0 {
      AndWithOnes(x / 2, n - 1);
      assert (Pow2(n) - 1) / 2 == Pow2(n - 1) - 1 && (Pow2(n) - 1) % 2 == 1;
    }
  }

  lemma {:induction false} Pow2Grows(j: nat, n: nat)
    requires j <= n
    ensures Pow2(j) <= Pow2(n)
  {
    if j < n {
      Pow2Grows(j, n - 1);
    }
  }

  lemma HalvesTimes(x: nat, p: nat)
    requires p > 0
    ensures x / (2 * p) * (2 * p) == 2 * (x / 2 / p * p)
  {
    Halves(x, p);
    Times(x / 2 / p, 0, p);
  }

  lemma AndEven(x: nat, m: nat, n: nat)
    requires n > 0
    ensures And(x, 2 * m, n) == 2 * And(x / 2, m, n - 1)
  {
  }

  /** `x` with its low `j` bits cleared. */
  function ClearLow(x: nat, j: nat): nat { if j == 0 then x else 2 * ClearLow(x / 2, j - 1) }

  lemma {:induction false} ClearLowIsQuotient(x: nat, j: nat)
    ensures ClearLow(x, j) == x / Pow2(j) * Pow2(j)
  {
    if j > 0 {
      ClearLowIsQuotient(x / 2, j - 1);
      HalvesTimes(x, Pow2(j - 1));
    }
  }

  /** AND with all ones but `j` low zeros clears the low `j` bits. */
  lemma {:induction false} AndWithMask(x: nat, j: nat, n: nat)
    requires j <= n && x < Pow2(n) && Pow2(j) <= Pow2(n)
    ensures And(x, Pow2(n) - Pow2(j), n) == ClearLow(x, j)
  {
    if j == 0 {
      AndWithOnes(x, n);
    } else {
      Pow2Grows(j - 1, n - 1);
      AndWithMask(x / 2, j - 1, n - 1);
      AndEven(x, Pow2(n - 1) - Pow2(j - 1), n);
    }
  }

  lemma SameMultiple(a: nat, b: nat, p: nat)
    requires p > 0
    ensures a * p == b * p <==> a == b
  {
    Times(a + 1, b, p);
    Times(b + 1, a, p);
    Times(a, b, p);
    Times(b, a, p);
  }

  /** Under the mask, an octet keeps its leading bits. */
  lemma OctetsAgree(x: nat, y: nat, k: nat)
    requires x < 256 && y < 256 && k <= 8
    ensures And(x, 255 - 255 / Pow2(k), 8) == And(y, 255 - 255 / Pow2(k), 8) <==> x / Pow2(8 - k) == y / Pow2(8 - k)
  {
    MaskOctetValue(k);
    Pow2Small();
    Pow2Grows(8 - k, 8);
    AndWithMask(x, 8 - k, 8);
    AndWithMask(y, 8 - k, 8);
    ClearLowIsQuotient(x, 8 - k);
    ClearLowIsQuotient(y, 8 - k);
    SameMultiple(x / Pow2(8 - k), y / Pow2(8 - k), Pow2(8 - k));
  }

  lemma DropLastOctet(v: nat, last: nat, p: nat)
    requires last < 256 && p > 0
    ensures (256 * v + last) / (256 * p) == v / p
  {
    var q := v / p;
    assert v == q * p + v % p;
    Times(q, 256, p);
    assert q * (256 * p) == 256 * (q * p);
    QuotientIs(256 * v + last, 256 * p, q);
  }

  lemma Regroup(e: nat, r: nat, q: nat, p: nat)
    ensures (e * q + r) * p == e * (q * p) + r * p
  {
    assert e * q * p == e * (q * p);
  }

  lemma Smaller(d: nat, m: nat, p: nat)
    requires d * p < m * p
    ensures d < m
  {
    Times(m, d, p);
  }

  /** An octet's division by `p` splits a longer number's, when `p` and `m` cut the octet in two. */
  lemma SplitLast(v: nat, last: nat, p: nat, m: nat)
    requires m * p == 256 && last < 256 && p > 0
    ensures (256 * v + last) / p == v * m + last / p && last / p < m
  {
    var d := last / p;
    SplitBounds(v, last, p, m, d, last % p);
    QuotientIs(256 * v + last, p, v * m + d);
  }

  lemma SplitBounds(v: nat, last: nat, p: nat, m: nat, d: nat, s: nat)
    requires m * p == 256 && last < 256 && s < p && last == d * p + s
    ensures d < m && (v * m + d) * p <= 256 * v + last < (v * m + d) * p + p
  {
    Smaller(d, m, p);
    Regroup(v, d, m, p);
  }

  lemma SameDigits(a: nat, b: nat, c: nat, d: nat, m: nat)
    requires b < m && d < m
    ensures a * m + b == c * m + d <==> a == c && b == d
  {
    Times(a + 1, c, m);
    Times(c + 1, a, m);
    Times(a, c, m);
    Times(c, a, m);
  }

  lemma {:induction false} AndWithZero(x: nat, n: nat)
    ensures And(x, 0, n) == 0
  {
    if n > 0 {
      AndWithZero(x / 2, n - 1);
    }
  }

  lemma DropOctet(v: nat, last: nat, rest: nat)
    requires last < 256
    ensures (256 * v + last) / Pow2(rest + 8) == v / Pow2(rest)
  {
    Pow2Small();
    Pow2Sum(8, rest);
    DropLastOctet(v, last, Pow2(rest));
  }

  /** The last octet is not under the mask at all. */
  lemma LastOctetOutside(x: IP, bits: nat)
    requires |x| > 0 && IsOctets(x) && bits <= 8 * (|x| - 1)
    ensures MaskAt(x, bits, |x| - 1) == 0
    ensures Value(x) / Pow2(8 * |x| - bits) == Value(x[..|x| - 1]) / Pow2(8 * (|x| - 1) - bits)
  {
    var n := |x| - 1;
    assert Pow2(0) == 1;
    AndWithZero(x[n], 8);
    DropOctet(Value(x[..n]), x[n], 8 * n - bits);
  }

  lemma SplitsAgree(v: nat, a: nat, w: nat, b: nat, p: nat, m: nat)
    requires m * p == 256 && p > 0 && a < 256 && b < 256
    ensures (256 * v + a) / p == (256 * w + b) / p <==> v == w && a / p == b / p
  {
    SplitLast(v, a, p, m);
    SplitLast(w, b, p, m);
    SameDigits(v, a / p, w, b / p, m);
  }

  /** The mask covers all octets before the last and leading bits of the last. */
  lemma LastOctetInside(x: IP, y: IP, bits: nat)
    requires |x| == |y| > 0 && IsOctets(x) && IsOctets(y) && 8 * (|x| - 1) < bits <= 8 * |x|
    ensures var n := |x| - 1;
            Value(x) / Pow2(8 * |x| - bits) == Value(y) / Pow2(8 * |x| - bits) <==>
            (Value(x[..n]) == Value(y[..n]) && MaskAt(x, bits, n) == MaskAt(y, bits, n))
  {
    var n := |x| - 1;
    var k := bits - 8 * n;
    OctetsAgree(x[n], y[n], k);
    Pow2Small();
    Pow2Sum(k, 8 - k);
    SplitsAgree(Value(x[..n]), x[n], Value(y[..n]), y[n], Pow2(8 - k), Pow2(k));
  }

  lemma LastOctet(x: IP, y: IP, bits: nat)
    requires |x| == |y| > 0 && IsOctets(x) && IsOctets(y)
    ensures var n := |x| - 1;
            AgreeUnderMask(x, y, bits) <==> AgreeUnderMask(x[..n], y[..n], bits) && MaskAt(x, bits, n) == MaskAt(y, bits, n)
  {
    var n := |x| - 1;
    forall i | 0 <= i < n ensures MaskAt(x[..n], bits, i) == MaskAt(x, bits, i) && MaskAt(y[..n], bits, i) == MaskAt(y, bits, i) {
    }
  }

  /** Agreeing under a mask of `bits` leading ones is having the same number once the other bits are divided
      away. */
  lemma {:induction false} MaskIsDivision(x: IP, y: IP, bits: nat)
    requires |x| == |y| && IsOctets(x) && IsOctets(y) && bits <= 8 * |x|
    ensures AgreeUnderMask(x, y, bits) <==>
            Value(x) / Pow2(8 * |x| - bits) == Value(y) / Pow2(8 * |x| - bits)
  {
    if x != [] {
      var n := |x| - 1;
      LastOctet(x, y, bits);
      if bits <= 8 * n {
        MaskIsDivision(x[..n], y[..n], bits);
        LastOctetOutside(x, bits);
        LastOctetOutside(y, bits);
      } else {
        FullMaskIsEquality(x[..n], y[..n], bits);
        LastOctetInside(x, y, bits);
      }
    }
  }

  /** A mask over all octets tells any two addresses apart. */
  lemma {:induction false} FullMaskIsEquality(x: IP, y: IP, bits: nat)
    requires |x| == |y| && IsOctets(x) && IsOctets(y) && bits >= 8 * |x|
    ensures AgreeUnderMask(x, y, bits) <==> Value(x) == Value(y)
  {
    if x != [] {
      var n := |x| - 1;
      LastOctet(x, y, bits);
      FullMaskIsEquality(x[..n], y[..n], bits);
      OctetsAgree(x[n], y[n], 8);
    }
  }

  /** A shorter prefix of the same network contains everything a longer one does. */
  lemma ShorterPrefixIsWider(x: IP, y: IP, bits: nat, fewer: nat)
    requires |x| == |y| && IsOctets(x) && IsOctets(y) && fewer <= bits <= 8 * |x|
    requires AgreeUnderMask(x, y, bits)
    ensures AgreeUnderMask(x, y, fewer)
  {
    var p, q := Pow2(8 * |x| - bits), Pow2(bits - fewer);
    MaskIsDivision(x, y, bits);
    MaskIsDivision(x, y, fewer);
    Pow2Sum(bits - fewer, 8 * |x| - bits);
    ProductIsPositive(q, p);
    DivideTwice(Value(x), p, q);
    DivideTwice(Value(y), p, q);
  }

  lemma ProductIsPositive(q: nat, p: nat)
    requires q > 0 && p > 0
    ensures q * p > 0
  {
  }

  lemma DivideTwice(x: nat, p: nat, q: nat)
    requires p > 0 && q > 0 && q * p > 0
    ensures x / (q * p) == x / p / q
  {
    var d := x / p;
    var e, r := d / q, d % q;
    assert d == e * q + r;
    RemainderBound(x, p, q, d, e, r, x % p);
    QuotientIs(x, q * p, e);
  }

  lemma RemainderBound(x: nat, p: nat, q: nat, d: nat, e: nat, r: nat, s: nat)
    requires r < q && s < p && d == e * q + r && x == d * p + s
    ensures e * (q * p) <= x < e * (q * p) + q * p
  {
    Regroup(e, r, q, p);
    Times(r + 1, q, p);
    Times(r, q, p);
    assert 0 <= r * p;
  }

  // ---------- Addresses and networks as text ----------

  /** One field of a dotted address: no sign, no leading zero, at most 255. */
  function ParseOctet(s: string): (r: Option<nat>)
    ensures r.Some? ==> r.value < 256
  {
    if s == "" || !AllDigits(s) || (|s| > 1 && s[0] == '0') || Number(s) > 255 then None else Some(Number(s))
  }

  function ParseIPv4(s: string): (r: Option<IP>)
    ensures r.Some? ==> |r.value| == 4 && IsOctets(r.value)
  {
    var fields := Split(s, '.');
    if |fields| != 4 then None else
      match (ParseOctet(fields[0]), ParseOctet(fields[1]), ParseOctet(fields[2]), ParseOctet(fields[3]))
      case (Some(a), Some(b), Some(c), Some(d)) => Some([a, b, c, d])
      case _ => None
  }

  /** Which of the characters that tell the address families apart comes first. */
  function FirstMark(s: string): char {
    if s == "" then ' ' else if s[0] == '.' || s[0] == ':' || s[0] == '%' then s[0] else FirstMark(s[1..])
  }

  /** net.ParseIP, as 4 octets or 16; `parseV6` reads the text form with colons. */
  function ParseIP(parseV6: string -> Option<IP>, s: string): (r: Option<IP>)
    ensures r.Some? ==> (|r.value| == 4 || |r.value| == 16) && IsOctets(r.value)
  {
    if FirstMark(s) == '.' then ParseIPv4(s)
    else if FirstMark(s) == ':' && parseV6(s).Some? && |parseV6(s).value| == 16 && IsOctets(parseV6(s).value) then
      parseV6(s)
    else None
  }

  datatype Network = Network(address: IP, bits: nat)

  /** net.ParseCIDR. */
  function ParseCIDR(parseV6: string -> Option<IP>, s: string): (r: Option<Network>)
    ensures r.Some? ==> IsOctets(r.value.address) && r.value.bits <= 8 * |r.value.address|
  {
    match Index(s, "/")
    case None => None
    case Some(i) =>
      if i >= |s| then None else
      var mask := s[i + 1..];
      match ParseIP(parseV6, s[..i])
      case None => None
      case Some(address) =>
        if mask == "" || !AllDigits(mask) || Number(mask) > 8 * |address| then None
        else Some(Network(address, Number(mask)))
  }

  /** IP.To4, with any other address left as it is: an IPv4 address mapped into IPv6 becomes 4 octets. */
  function To4(ip: IP): (r: IP)
    ensures IsOctets(ip) ==> IsOctets(r)
  {
    if |ip| == 16 && (forall i :: 0 <= i < 10 ==> ip[i] == 0) && ip[10] == 255 && ip[11] == 255 then ip[12..] else ip
  }

  /** IP.Mask. */
  function Masked(ip: IP, bits: nat): (r: IP)
    requires IsOctets(ip)
    ensures |r| == |ip| && IsOctets(r)
  {
    Pow2Small();
    seq(|ip|, i requires 0 <= i < |ip| => MaskAt(ip, bits, i))
  }

  /** Both agree octet by octet under the mask without its first `skipped` octets. */
  predicate SameUnder(x: IP, y: IP, bits: nat, skipped: nat)
    requires |x| == |y| && IsOctets(x) && IsOctets(y)
  {
    forall i :: 0 <= i < |x| ==>
      And(x[i], MaskOctet(bits, i + skipped), 8) == And(y[i], MaskOctet(bits, i + skipped), 8)
  }

  /** IPNet.Contains: the network address is stored masked, both sides are reduced to 4 octets if possible, and the
      mask loses its leading octets along with the network address. */
  predicate ContainsIP(net: Network, ip: IP)
    requires IsOctets(net.address) && IsOctets(ip)
  {
    var stored := Masked(net.address, net.bits);
    var nn, x := To4(stored), To4(ip);
    var skipped := |stored| - |nn|;
    |x| == |nn| && SameUnder(nn, x, net.bits, skipped)
  }

  /** IP.Equal. */
  predicate SameIP(x: IP, y: IP) { To4(x) == To4(y) }

  /** Masking twice is masking once. */
  lemma {:induction false} AndTwice(x: nat, y: nat, n: nat)
    ensures And(And(x, y, n), y, n) == And(x, y, n)
  {
    if n > 0 {
      AndTwice(x / 2, y / 2, n - 1);
      assert And(x, y, n) / 2 == And(x / 2, y / 2, n - 1);
    }
  }

  /** The network is not one of IPv4 addresses mapped into IPv6. */
  predicate IsPlain(net: Network)
    requires IsOctets(net.address)
  {
    To4(Masked(net.address, net.bits)) == Masked(net.address, net.bits)
  }

  lemma StoredAgrees(a: IP, x: IP, bits: nat)
    requires |a| == |x| && IsOctets(a) && IsOctets(x)
    ensures SameUnder(Masked(a, bits), x, bits, 0) <==> AgreeUnderMask(a, x, bits)
  {
    forall i | 0 <= i < |a| ensures And(Masked(a, bits)[i], MaskOctet(bits, i), 8) == MaskAt(a, bits, i) {
      AndTwice(a[i], MaskOctet(bits, i), 8);
    }
  }

  lemma ContainsIsAgreement(net: Network, ip: IP)
    requires IsOctets(net.address) && IsOctets(ip) && IsPlain(net)
    ensures ContainsIP(net, ip) <==>
            |To4(ip)| == |net.address| && AgreeUnderMask(net.address, To4(ip), net.bits)
  {
    if |To4(ip)| == |net.address| {
      StoredAgrees(net.address, To4(ip), net.bits);
    }
  }

  /** A network contains exactly the addresses of its length (IPv4 addresses mapped into IPv6 counting as IPv4) with its
      number, once the host bits are divided away; unless it is itself mapped. */
  lemma NetworkIsQuotient(net: Network, ip: IP)
    requires IsOctets(net.address) && IsOctets(ip) && IsPlain(net) && net.bits <= 8 * |net.address|
    ensures var host := Pow2(8 * |net.address| - net.bits);
            ContainsIP(net, ip) <==> |To4(ip)| == |net.address| && Value(net.address) / host == Value(To4(ip)) / host
  {
    ContainsIsAgreement(net, ip);
    if |To4(ip)| == |net.address| {
      MaskIsDivision(net.address, To4(ip), net.bits);
    }
  }

  /** Networks of four octets are never mapped. */
  lemma FourOctetsArePlain(net: Network)
    requires IsOctets(net.address) && |net.address| == 4
    ensures IsPlain(net)
  {
  }

  /** Among them IPv4 membership: the quotient of the two addresses, read as numbers. */
  lemma FourOctetQuotient(address: IP, bits: nat, ip: IP)
    requires |address| == 4 && IsOctets(address) && IsOctets(ip) && bits <= 32
    ensures ContainsIP(Network(address, bits), ip) <==>
            |To4(ip)| == 4 && Value(address) / Pow2(32 - bits) == Value(To4(ip)) / Pow2(32 - bits)
  {
    FourOctetsArePlain(Network(address, bits));
    NetworkIsQuotient(Network(address, bits), ip);
  }

  lemma {:induction false} AndAtMost(x: nat, y: nat, n: nat)
    ensures And(x, y, n) <= y
  {
    if n > 0 {
      AndAtMost(x / 2, y / 2, n - 1);
    }
  }

  lemma MaskOfOnes(bits: nat, i: nat)
    requires MaskOctet(bits, i) >= 255
    ensures bits >= 8 * i + 8
  {
    Pow2Small();
    Pow2Grows(BitsInOctet(bits, i), 8);
  }

  /** The exception: a mapped network is the IPv4 network in its last four octets. */
  lemma MappedNetwork(net: Network, ip: IP)
    requires IsOctets(net.address) && IsOctets(ip) && !IsPlain(net)
    ensures |net.address| == 16 && net.bits >= 96
    ensures ContainsIP(net, ip) <==> ContainsIP(Network(net.address[12..], net.bits - 96), ip)
  {
    var a := net.address;
    AndAtMost(a[11], MaskOctet(net.bits, 11), 8);
    MaskOfOnes(net.bits, 11);
    var four := Network(a[12..], net.bits - 96);
    forall i | 0 <= i < 4
      ensures MaskOctet(net.bits, i + 12) == MaskOctet(four.bits, i)
      ensures Masked(a, net.bits)[12..][i] == Masked(four.address, four.bits)[i]
    {
      assert BitsInOctet(net.bits, i + 12) == BitsInOctet(four.bits, i);
    }
    assert Masked(a, net.bits)[12..] == Masked(four.address, four.bits);
  }

  /** So a shorter prefix of the same network contains every address a longer one does. */
  lemma ShorterPrefixContainsMore(address: IP, bits: nat, fewer: nat, ip: IP)
    requires IsOctets(address) && IsOctets(ip) && |address| == 4 && fewer <= bits <= 32
    requires ContainsIP(Network(address, bits), ip)
    ensures ContainsIP(Network(address, fewer), ip)
  {
    FourOctetsArePlain(Network(address, bits));
    FourOctetsArePlain(Network(address, fewer));
    ContainsIsAgreement(Network(address, bits), ip);
    ContainsIsAgreement(Network(address, fewer), ip);
    ShorterPrefixIsWider(address, To4(ip), bits, fewer);
  }
}
