/** The part of Python's `ipaddress` module that the subnet registry uses:
    IPv4 addresses, networks parsed from text (`ip_network`), their text form
    (`str`) and the `overlaps` test. An address is a natural below 2^32; the
    bitwise AND with a netmask is stated bit by bit ("clear the low host
    bits"), which keeps every proof in linear arithmetic. */
module IPv4 {
  import opened Wrappers
  import opened Text

  type Address = x: nat | x < 0x1_0000_0000
  type Prefix = p: nat | p <= 32

  function Pow2(n: nat): (r: nat)
    ensures r >= 1
  {
    if n == 0 then 1 else 2 * Pow2(n - 1)
  }

  // ---------------------------------------------------------------------
  // Host bits
  // ---------------------------------------------------------------------

  /** `x` with its `k` lowest bits cleared. */
  function ClearLow(x: nat, k: nat): nat
  {
    if k == 0 then x else 2 * ClearLow(x / 2, k - 1)
  }

  /** The `k` lowest bits of `v` are zero. */
  predicate Aligned(v: nat, k: nat)
  {
    k == 0 || (v % 2 == 0 && Aligned(v / 2, k - 1))
  }

  lemma {:induction false} ClearLowBounds(x: nat, k: nat)
    ensures ClearLow(x, k) <= x < ClearLow(x, k) + Pow2(k)
    ensures Aligned(ClearLow(x, k), k)
  {
    if k > 0 {
      ClearLowBounds(x / 2, k - 1);
      assert (2 * ClearLow(x / 2, k - 1)) / 2 == ClearLow(x / 2, k - 1);
    }
  }

  /** For an aligned block start `a`, clearing the host bits of `x` gives `a`
      exactly when `x` lies in the block `[a, a + 2^k)`. */
  lemma {:induction false} ClearLowInBlock(x: nat, a: nat, k: nat)
    requires Aligned(a, k)
    ensures ClearLow(x, k) == a <==> a <= x < a + Pow2(k)
  {
    if k > 0 {
      ClearLowInBlock(x / 2, a / 2, k - 1);
    }
  }

  /** An aligned block that starts below `2^n` ends at or below `2^n`. */
  lemma {:induction false} AlignedBlockFits(a: nat, k: nat, n: nat)
    requires k <= n && a < Pow2(n) && Aligned(a, k)
    ensures a + Pow2(k) <= Pow2(n)
  {
    if k > 0 {
      AlignedBlockFits(a / 2, k - 1, n - 1);
    }
  }

  function HostBits(p: Prefix): nat
  {
    32 - p
  }

  /** `IPv4Address(int(x) & int(netmask))` for the netmask of prefix `p`. */
  function MaskHostBits(x: Address, p: Prefix): (m: Address)
    ensures m <= x < m + Pow2(HostBits(p))
    ensures Aligned(m, HostBits(p))
  {
    ClearLowBounds(x, HostBits(p));
    ClearLow(x, HostBits(p))
  }

  /** `int(netmask)` of a prefix: `p` one bits followed by `32 - p` zeros. */
  function NetmaskOf(p: Prefix): nat
  {
    Pow2Of32();
    Pow2Monotone(HostBits(p), 32);
    0x1_0000_0000 - Pow2(HostBits(p))
  }

  lemma {:induction false} Pow2Monotone(a: nat, b: nat)
    requires a <= b
    ensures Pow2(a) <= Pow2(b)
  {
    if a < b {
      Pow2Monotone(a, b - 1);
    }
  }

  // ---------------------------------------------------------------------
  // Networks
  // ---------------------------------------------------------------------

  datatype Network = Network(address: Address, prefix: Prefix)

  /** An `IPv4Network`: its network address has no host bits set. */
  type Subnet = n: Network | Aligned(n.address, HostBits(n.prefix)) witness Network(0, 32)

  /** The number of addresses of a network, `num_addresses`. */
  function Size(n: Subnet): nat
  {
    Pow2(HostBits(n.prefix))
  }

  /** `broadcast_address`: the last address of the network. */
  function Broadcast(n: Subnet): (b: Address)
    ensures n.address <= b
  {
    assert Pow2(32) == 0x1_0000_0000 by { Pow2Of32(); }
    AlignedBlockFits(n.address, HostBits(n.prefix), 32);
    n.address + Size(n) - 1
  }

  lemma Pow2Of32()
    ensures Pow2(32) == 0x1_0000_0000
  {
    assert Pow2(4) == 16;
    Pow2Add(4, 4);
    Pow2Add(8, 8);
    Pow2Add(16, 16);
  }

  /** `x in n` as Python computes it: `x & netmask == network_address`. */
  predicate InNetwork(x: Address, n: Subnet)
  {
    MaskHostBits(x, n.prefix) == n.address
  }

  /** Membership is the address range `[address, broadcast]`. */
  lemma InNetworkRange(x: Address, n: Subnet)
    ensures InNetwork(x, n) <==> n.address <= x <= Broadcast(n)
  {
    ClearLowInBlock(x, n.address, HostBits(n.prefix));
  }

  /** `a.overlaps(b)`, exactly as Python's `_BaseNetwork.overlaps`. */
  predicate Overlaps(a: Subnet, b: Subnet)
  {
    || InNetwork(a.address, b)
    || InNetwork(Broadcast(a), b)
    || InNetwork(b.address, a)
    || InNetwork(Broadcast(b), a)
  }

  /** Two networks overlap exactly when they share an address, exactly when
      one of them holds the other's network address; so `overlaps` is
      symmetric. */
  lemma OverlapsMeaning(a: Subnet, b: Subnet)
    ensures Overlaps(a, b) <==> exists x: Address :: InNetwork(x, a) && InNetwork(x, b)
    ensures Overlaps(a, b) <==> InNetwork(a.address, b) || InNetwork(b.address, a)
    ensures Overlaps(a, b) == Overlaps(b, a)
  {
    InNetworkRange(a.address, a);
    InNetworkRange(a.address, b);
    InNetworkRange(b.address, a);
    InNetworkRange(b.address, b);
    InNetworkRange(Broadcast(a), b);
    InNetworkRange(Broadcast(b), a);
    forall x: Address | InNetwork(x, a) && InNetwork(x, b)
      ensures InNetwork(a.address, b) || InNetwork(b.address, a)
    {
      InNetworkRange(x, a);
      InNetworkRange(x, b);
    }
    if InNetwork(a.address, b) {
      InNetworkRange(a.address, a);
    } else if InNetwork(b.address, a) {
      InNetworkRange(b.address, b);
    }
  }

  /** Every network overlaps itself, so allocating the same block twice is
      always refused. */
  lemma OverlapsItself(n: Subnet)
    ensures Overlaps(n, n)
  {
    InNetworkRange(n.address, n);
  }

  // ---------------------------------------------------------------------
  // Dotted-quad addresses
  // ---------------------------------------------------------------------

  /** `_parse_octet`: one to three ASCII digits, no leading zero, at most 255. */
  function ParseOctet(s: string): (r: Option<nat>)
    ensures r.Some? ==> r.value <= 255
    ensures r.Some? <==> s != [] && |s| <= 3 && IsDecimal(s) && (s[0] == '0' ==> s == "0")
                         && DecimalValue(s) <= 255
  {
    if s == [] || !IsDecimal(s) || |s| > 3 || (s != "0" && s[0] == '0') then None
    else if DecimalValue(s) > 255 then None
    else Some(DecimalValue(s))
  }

  function FromOctets(a: nat, b: nat, c: nat, d: nat): (x: Address)
    requires a <= 255 && b <= 255 && c <= 255 && d <= 255
  {
    ((a * 256 + b) * 256 + c) * 256 + d
  }

  /** `IPv4Address(s)`: exactly four dot-separated octets. */
  function ParseAddress(s: string): (r: Option<Address>)
    ensures r.Some? ==> |Split(s, '.')| == 4
  {
    var parts := Split(s, '.');
    if |parts| != 4 then None
    else
      match (ParseOctet(parts[0]), ParseOctet(parts[1]), ParseOctet(parts[2]), ParseOctet(parts[3]))
      case (Some(a), Some(b), Some(c), Some(d)) => Some(FromOctets(a, b, c, d))
      case _ => None
  }

  /** `str(IPv4Address(x))`: the four bytes, most significant first, in decimal. */
  function AddressText(x: Address): string
  {
    var y1 := x / 256;
    var y2 := y1 / 256;
    Join([Decimal(y2 / 256), Decimal(y2 % 256), Decimal(y1 % 256), Decimal(x % 256)], '.')
  }

  lemma OctetRoundTrip(v: nat)
    requires v <= 255
    ensures ParseOctet(Decimal(v)) == Some(v)
  {
  }

  /** A character outside every part and other than the separator is not in
      the join. */
  lemma {:induction false} JoinAvoids(parts: seq<string>, sep: char, c: char)
    requires c != sep
    requires forall i :: 0 <= i < |parts| ==> c !in parts[i]
    ensures c !in Join(parts, sep)
  {
    if |parts| > 1 {
      JoinAvoids(parts[1..], sep, c);
    }
  }

  lemma DecimalAvoids(n: nat, c: char)
    requires !IsDigit(c)
    ensures c !in Decimal(n)
  {
    var s := Decimal(n);
    forall i | 0 <= i < |s|
      ensures s[i] != c
    {
      assert IsDigit(s[i]);
    }
  }

  /** The text of an address holds only digits and dots. */
  lemma AddressAvoids(x: Address, c: char)
    requires c != '.' && !IsDigit(c)
    ensures c !in AddressText(x)
  {
    var y1 := x / 256;
    var y2 := y1 / 256;
    var parts := [Decimal(y2 / 256), Decimal(y2 % 256), Decimal(y1 % 256), Decimal(x % 256)];
    DecimalAvoids(y2 / 256, c);
    DecimalAvoids(y2 % 256, c);
    DecimalAvoids(y1 % 256, c);
    DecimalAvoids(x % 256, c);
    JoinAvoids(parts, '.', c);
  }

  lemma OctetsOfAddress(x: Address)
    ensures x / 256 / 256 / 256 <= 255
    ensures FromOctets(x / 256 / 256 / 256, x / 256 / 256 % 256, x / 256 % 256, x % 256) == x
  {
    var y1 := x / 256;
    var y2 := y1 / 256;
    assert x == y1 * 256 + x % 256;
    assert y1 == y2 * 256 + y1 % 256;
    assert y2 == (y2 / 256) * 256 + y2 % 256;
  }

  lemma ParseOctets(a: nat, b: nat, c: nat, d: nat)
    requires a <= 255 && b <= 255 && c <= 255 && d <= 255
    ensures ParseAddress(Join([Decimal(a), Decimal(b), Decimal(c), Decimal(d)], '.')) == Some(FromOctets(a, b, c, d))
  {
    var parts := [Decimal(a), Decimal(b), Decimal(c), Decimal(d)];
    DecimalAvoids(a, '.');
    DecimalAvoids(b, '.');
    DecimalAvoids(c, '.');
    DecimalAvoids(d, '.');
    SplitJoin(parts, '.');
    OctetRoundTrip(a);
    OctetRoundTrip(b);
    OctetRoundTrip(c);
    OctetRoundTrip(d);
    ParseFourParts(Join(parts, '.'), parts, a, b, c, d);
  }

  /** An address text whose four dot-separated parts are octets parses to
      the address of those octets. */
  lemma ParseFourParts(s: string, parts: seq<string>, a: nat, b: nat, c: nat, d: nat)
    requires Split(s, '.') == parts && |parts| == 4
    requires ParseOctet(parts[0]) == Some(a) && ParseOctet(parts[1]) == Some(b)
    requires ParseOctet(parts[2]) == Some(c) && ParseOctet(parts[3]) == Some(d)
    ensures ParseAddress(s) == Some(FromOctets(a, b, c, d))
  {
  }

  /** Parsing the text of an address gives the address back. */
  lemma AddressRoundTrip(x: Address)
    ensures ParseAddress(AddressText(x)) == Some(x)
    ensures '/' !in AddressText(x)
  {
    OctetsOfAddress(x);
    ParseOctets(x / 256 / 256 / 256, x / 256 / 256 % 256, x / 256 % 256, x % 256);
    AddressAvoids(x, '/');
  }

  // ---------------------------------------------------------------------
  // Prefix lengths and netmasks
  // ---------------------------------------------------------------------

  function FindNetmaskPrefix(x: nat, p: Prefix): (r: Option<Prefix>)
    ensures r.Some? ==> NetmaskOf(r.value) == x
    ensures r.None? ==> forall q: Prefix :: p <= q ==> NetmaskOf(q) != x
    decreases 32 - p
  {
    if NetmaskOf(p) == x then Some(p)
    else if p == 32 then None
    else FindNetmaskPrefix(x, p + 1)
  }

  /** `_prefix_from_ip_int`: the prefix whose netmask is `x`, if `x` is a
      contiguous netmask. */
  function PrefixOfNetmask(x: nat): (r: Option<Prefix>)
    ensures r.Some? ==> NetmaskOf(r.value) == x
    ensures r.None? ==> forall q: Prefix :: NetmaskOf(q) != x
  {
    FindNetmaskPrefix(x, 0)
  }

  /** The text after the slash is a prefix length: ASCII digits worth at most 32. */
  predicate DecimalPrefix(s: string)
  {
    s != [] && IsDecimal(s) && DecimalValue(s) <= 32
  }

  /** `_make_netmask` on the text after the slash: a decimal prefix length
      0..32, otherwise a dotted netmask, otherwise a dotted host mask. */
  function PrefixFromText(s: string): (r: Option<Prefix>)
    ensures DecimalPrefix(s) ==> r == Some(DecimalValue(s))
    ensures r.Some? && !DecimalPrefix(s) ==> ParseAddress(s).Some?
  {
    if DecimalPrefix(s) then Some(DecimalValue(s))
    else
      match ParseAddress(s)
      case None => None
      case Some(x) =>
        match PrefixOfNetmask(x)
        case Some(p) => Some(p)
        case None => PrefixOfNetmask(0xFFFF_FFFF - x)
  }

  /** What `PrefixFromText` accepts besides a prefix length: a dotted
      netmask gives its prefix; failing that, a dotted host mask gives the
      prefix of its complement; anything else is refused. */
  lemma PrefixFromTextMeaning(s: string)
    ensures PrefixFromText(s).Some? && !DecimalPrefix(s) ==>
      ParseAddress(s).Some?
      && (NetmaskOf(PrefixFromText(s).value) == ParseAddress(s).value
          || ((forall q: Prefix :: NetmaskOf(q) != ParseAddress(s).value)
              && NetmaskOf(PrefixFromText(s).value) == 0xFFFF_FFFF - ParseAddress(s).value))
    ensures PrefixFromText(s).None? <==>
      !DecimalPrefix(s)
      && (ParseAddress(s).None?
          || forall q: Prefix :: NetmaskOf(q) != ParseAddress(s).value && NetmaskOf(q) != 0xFFFF_FFFF - ParseAddress(s).value)
  {
    if !DecimalPrefix(s) && ParseAddress(s).Some? {
      var x := ParseAddress(s).value;
      var m := PrefixOfNetmask(x);
      var h := PrefixOfNetmask(0xFFFF_FFFF - x);
    }
  }

  // ---------------------------------------------------------------------
  // Networks from text and back
  // ---------------------------------------------------------------------

  datatype NetworkError =
    | NotANetwork(text: string)   // "does not appear to be an IPv4 or IPv6 network"
    | HostBitsSet(text: string)   // "has host bits set" (strict parsing only)

  /** `ip_network(text, strict)` for IPv4: an address, optionally `/` and a
      prefix (32 when absent); non-strict parsing clears host bits, strict
      parsing refuses them. */
  function ParseNetwork(text: string, strict: bool): (r: Result<Subnet, NetworkError>)
    ensures r.Err? ==> r.error == NotANetwork(text) || (strict && r.error == HostBitsSet(text))
    ensures |Split(text, '/')| > 2 ==> r == Err(NotANetwork(text))
    ensures ParseAddress(Split(text, '/')[0]).None? ==> r == Err(NotANetwork(text))
    ensures |Split(text, '/')| == 2 && PrefixFromText(Split(text, '/')[1]).None? ==> r == Err(NotANetwork(text))
    ensures |Split(text, '/')| == 2 && ParseAddress(Split(text, '/')[0]).Some? && PrefixFromText(Split(text, '/')[1]).Some? ==>
      var x := ParseAddress(Split(text, '/')[0]).value;
      var p := PrefixFromText(Split(text, '/')[1]).value;
      (r.Ok? <==> !strict || MaskHostBits(x, p) == x) && (r.Ok? ==> r.value.prefix == p)
    ensures |Split(text, '/')| == 1 && ParseAddress(text).Some? ==> r == Ok(Network(ParseAddress(text).value, 32))
    ensures r.Ok? ==> r.value.address == MaskHostBits(ParseAddress(Split(text, '/')[0]).value, r.value.prefix)
    ensures r.Ok? && strict ==> r.value.address == ParseAddress(Split(text, '/')[0]).value
  {
    var parts := Split(text, '/');
    if |parts| > 2 then Err(NotANetwork(text))
    else
      match ParseAddress(parts[0])
      case None => Err(NotANetwork(text))
      case Some(x) =>
        match (if |parts| == 2 then PrefixFromText(parts[1]) else Some(32))
        case None => Err(NotANetwork(text))
        case Some(p) =>
          if strict && MaskHostBits(x, p) != x then Err(HostBitsSet(text))
          else Ok(Network(MaskHostBits(x, p), p))
  }

  /** `str(network)`: `address/prefix`. */
  function NetworkText(n: Network): string
  {
    AddressText(n.address) + "/" + Decimal(n.prefix)
  }

  lemma SplitCidr(x: Address, p: nat)
    ensures Split(AddressText(x) + "/" + Decimal(p), '/') == [AddressText(x), Decimal(p)]
  {
    var a := AddressText(x);
    var d := Decimal(p);
    AddressAvoids(x, '/');
    DecimalAvoids(p, '/');
    assert "/" == ['/'];
    SplitTwo(a, d, '/');
  }

  /** `ip_network("a.b.c.d/p", strict=False)` is the block of `p` leading
      bits of the address: host bits are cleared, not refused. With
      `strict=True` it is refused exactly when host bits are set. */
  lemma ParseCidr(x: Address, p: Prefix)
    ensures ParseNetwork(AddressText(x) + "/" + Decimal(p), false) == Ok(Network(MaskHostBits(x, p), p))
    ensures ParseNetwork(AddressText(x) + "/" + Decimal(p), true) ==
      if MaskHostBits(x, p) == x then Ok(Network(x, p))
      else Err(HostBitsSet(AddressText(x) + "/" + Decimal(p)))
  {
    var t := AddressText(x) + "/" + Decimal(p);
    SplitCidr(x, p);
    AddressRoundTrip(x);
    assert Split(t, '/')[0] == AddressText(x);
    assert Split(t, '/')[1] == Decimal(p);
    assert PrefixFromText(Decimal(p)) == Some(p);
  }

  /** A prefix length above 32 is refused: it is neither a prefix length
      nor a dotted netmask, so `ip_network` finds no network in the text. */
  lemma OversizedPrefixRefused(x: Address, p: nat, strict: bool)
    requires p > 32
    ensures ParseNetwork(AddressText(x) + "/" + Decimal(p), strict) == Err(NotANetwork(AddressText(x) + "/" + Decimal(p)))
  {
    var d := Decimal(p);
    SplitCidr(x, p);
    AddressRoundTrip(x);
    assert !DecimalPrefix(d);
    DecimalAvoids(p, '.');
    assert Join([d], '.') == d;
    SplitJoin([d], '.');
    assert ParseAddress(d).None?;
    assert PrefixFromText(d).None?;
  }

  /** The text of a network parses back to the same network, strictly or not. */
  lemma NetworkRoundTrip(n: Subnet, strict: bool)
    ensures ParseNetwork(NetworkText(n), strict) == Ok(n)
  {
    ParseCidr(n.address, n.prefix);
    ClearLowInBlock(n.address, n.address, HostBits(n.prefix));
  }

  /** A bare address is the one-address network `/32`. */
  lemma ParseBareAddress(x: Address, strict: bool)
    ensures ParseNetwork(AddressText(x), strict) == Ok(Network(x, 32))
  {
    AddressRoundTrip(x);
  }

  // ---------------------------------------------------------------------
  // Counting the one bits of a netmask
  // ---------------------------------------------------------------------

  /** `bin(x).count("1")`. */
  function PopCount(x: nat): nat
  {
    if x == 0 then 0 else x % 2 + PopCount(x / 2)
  }

  lemma {:induction false} PopCountBound(x: nat, k: nat)
    requires x < Pow2(k)
    ensures PopCount(x) <= k
  {
    if x > 0 {
      PopCountBound(x / 2, k - 1);
    }
  }

  /** The number of one bits of a 32-bit value is a prefix length. */
  function MaskBits(x: Address): (p: Prefix)
    ensures p == PopCount(x)
  {
    Pow2Of32();
    PopCountBound(x, 32);
    PopCount(x)
  }

  lemma {:induction false} PopCountShift(y: nat, k: nat)
    ensures PopCount(y * Pow2(k)) == PopCount(y)
  {
    if k > 0 {
      var z := y * Pow2(k - 1);
      assert y * Pow2(k) == 2 * z;
      PopCountShift(y, k - 1);
      if z > 0 {
        assert (2 * z) % 2 == 0 && (2 * z) / 2 == z;
      }
    }
  }

  lemma {:induction false} PopCountOnes(p: nat)
    ensures PopCount(Pow2(p) - 1) == p
  {
    if p > 0 {
      PopCountOnes(p - 1);
      assert Pow2(p) - 1 == 2 * (Pow2(p - 1) - 1) + 1;
    }
  }

  lemma {:induction false} Pow2Add(a: nat, b: nat)
    ensures Pow2(a + b) == Pow2(a) * Pow2(b)
  {
    if a > 0 {
      Pow2Add(a - 1, b);
    }
  }

  lemma MulSubOne(a: nat, b: nat)
    requires a >= 1
    ensures (a - 1) * b == a * b - b
  {
  }

  /** Counting the one bits of a contiguous netmask gives back its prefix. */
  lemma PopCountOfNetmask(p: Prefix)
    ensures PopCount(NetmaskOf(p)) == p
  {
    var a, b := Pow2(p), Pow2(HostBits(p));
    Pow2Add(p, HostBits(p));
    Pow2Of32();
    assert a * b == 0x1_0000_0000;
    assert NetmaskOf(p) == a * b - b;
    MulSubOne(a, b);
    PopCountShift(a - 1, HostBits(p));
    PopCountOnes(p);
  }
}
