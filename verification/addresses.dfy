/** Address expansion, shared by `parseInput` in main.go and `ParseInput` in
    pkg/utils/ip.go: one IPv4 literal gives one address, a `/24` CIDR gives the
    256 addresses of its network, anything else is rejected.

    Go's own parsers (`net.ParseIP`, `net.ParseCIDR`, `Mask.Size`) are not
    re-derived: their verdicts arrive as the oracles `parseIP` and `parseCIDR`. */
module Addresses {
  import opened Results
  import opened Models
  import opened Strings

  /** What `net.ParseCIDR` reports, reduced to what the expander reads:
      an error, an IPv4 prefix (the address as given and the mask's one-bits)
      or a prefix of the 128-bit family. */
  datatype CidrParse =
    | CidrRejected
    | Cidr4(ip: IPv4, ones: nat)
    | Cidr6(ones: nat)

  /** `ipNet.Mask.Size()`: the count of leading one-bits and the mask width. */
  function MaskSize(c: CidrParse): (int, int)
    requires !c.CidrRejected?
  {
    match c
    case Cidr4(_, ones) => (ones, 32)
    case Cidr6(ones) => (ones, 128)
  }

  /** The three ways an input is refused before any probing starts. */
  datatype InputError =
    | InvalidAddress(arg: string)
    | InvalidSubnet(arg: string)
    | UnsupportedPrefix

  /** The addresses to probe and the `subnetOrIP` text that names the run's output file. */
  datatype Expansion = Expansion(addresses: seq<string>, subnetOrIP: string)

  function OctetTexts(ip: IPv4): seq<string>
  {
    [Decimal(ip.o0), Decimal(ip.o1), Decimal(ip.o2), Decimal(ip.o3)]
  }

  /** The dotted-decimal text of an address: `ip.String()` for an IPv4 value,
      and `fmt.Sprintf("%d.%d.%d.%d", ...)` of its octets. */
  function Dotted(ip: IPv4): string
  {
    Join(OctetTexts(ip), '.')
  }

  /** `ipNet.String()` of an IPv4 network: its network address and prefix length. */
  function CidrLabel(network: IPv4, ones: nat): string
  {
    Dotted(network) + "/" + Decimal(ones)
  }

  /** The `i`-th address of the /24 network that contains `base`. */
  function SubnetHost(base: IPv4, i: Octet): IPv4
  {
    IPv4(base.o0, base.o1, base.o2, i)
  }

  /** The 256 addresses of the /24 network of `base`, last octet ascending. */
  function SubnetAddresses(base: IPv4): (ips: seq<string>)
    ensures |ips| == 256
    ensures forall i: Octet :: ips[i] == Dotted(SubnetHost(base, i))
  {
    seq(256, (i: int) requires 0 <= i < 256 => Dotted(SubnetHost(base, i)))
  }

  /** The expander: `parseInput(arg)` with Go's parsers supplied as oracles. */
  function Expand(arg: string, parseIP: string -> Option<IPv4>, parseCIDR: string -> CidrParse)
    : (r: Result<Expansion, InputError>)
    ensures '/' !in arg ==>
              (r.Success? <==> parseIP(arg).Some?) &&
              (parseIP(arg).None? ==> r == Failure(InvalidAddress(arg))) &&
              (r.Success? ==> r.value.addresses == [r.value.subnetOrIP] &&
                              r.value.subnetOrIP == Dotted(parseIP(arg).value))
    ensures '/' in arg && parseCIDR(arg).CidrRejected? ==> r == Failure(InvalidSubnet(arg))
    ensures '/' in arg && !parseCIDR(arg).CidrRejected? ==>
              (r.Success? <==> MaskSize(parseCIDR(arg)) == (24, 32)) &&
              (r.Failure? ==> r.error == UnsupportedPrefix)
    ensures r.Success? && '/' in arg ==>
              var base := parseCIDR(arg).ip;
              && |r.value.addresses| == 256
              && (forall i: Octet :: r.value.addresses[i] == Dotted(SubnetHost(base, i)))
              && r.value.subnetOrIP == CidrLabel(SubnetHost(base, 0), 24)
  {
    if '/' !in arg then
      match parseIP(arg)
      case None => Failure(InvalidAddress(arg))
      case Some(ip) => Success(Expansion([Dotted(ip)], Dotted(ip)))
    else
      var parsed := parseCIDR(arg);
      if parsed.CidrRejected? then Failure(InvalidSubnet(arg))
      else
        var (ones, bits) := MaskSize(parsed);
        if bits != 32 || ones != 24 then Failure(UnsupportedPrefix)
        else
          var base := parsed.ip;
          Success(Expansion(SubnetAddresses(base), CidrLabel(SubnetHost(base, 0), ones)))
  }

  /** A dot-free run of canonical decimal digits whose value is an octet. */
  predicate IsOctetText(part: string)
  {
    && 1 <= |part|
    && IsDigits(part)
    && DecimalValue(part) < 256
    && (|part| > 1 ==> part[0] != '0')
  }

  /** The text of an address splits on `.` into exactly its four octets. */
  lemma DottedParts(ip: IPv4)
    ensures Split(Dotted(ip), '.') == OctetTexts(ip)
    ensures forall k :: 0 <= k < 4 ==> IsOctetText(Split(Dotted(ip), '.')[k])
    ensures DecimalValue(Split(Dotted(ip), '.')[3]) == ip.o3
  {
    var parts := OctetTexts(ip);
    forall k | 0 <= k < 4
      ensures '.' !in parts[k]
    {
      assert IsDigits(parts[k]) && !IsDigit('.');
    }
    SplitJoin(parts, '.');
  }

  /** Every address the expander produces is well formed: four dot-separated
      canonical decimal octets. A /24 expansion lists 256 different addresses
      whose last part reads back as its own index, so they ascend in the last
      octet, and all share the network's first three parts. */
  lemma ExpandedAddressesWellFormed(arg: string, parseIP: string -> Option<IPv4>, parseCIDR: string -> CidrParse)
    requires Expand(arg, parseIP, parseCIDR).Success?
    ensures var ips := Expand(arg, parseIP, parseCIDR).value.addresses;
            forall n :: 0 <= n < |ips| ==>
              |Split(ips[n], '.')| == 4 &&
              forall k :: 0 <= k < 4 ==> IsOctetText(Split(ips[n], '.')[k])
    ensures var ips := Expand(arg, parseIP, parseCIDR).value.addresses;
            forall m, n :: 0 <= m < n < |ips| ==> ips[m] != ips[n]
    ensures var ips := Expand(arg, parseIP, parseCIDR).value.addresses;
            '/' in arg ==>
              forall n :: 0 <= n < |ips| ==>
                DecimalValue(Split(ips[n], '.')[3]) == n &&
                Split(ips[n], '.')[..3] == Split(ips[0], '.')[..3]
  {
    var ips := Expand(arg, parseIP, parseCIDR).value.addresses;
    if '/' !in arg {
      DottedParts(parseIP(arg).value);
    } else {
      var base := parseCIDR(arg).ip;
      forall n | 0 <= n < |ips|
        ensures |Split(ips[n], '.')| == 4
        ensures forall k :: 0 <= k < 4 ==> IsOctetText(Split(ips[n], '.')[k])
        ensures DecimalValue(Split(ips[n], '.')[3]) == n
        ensures |Split(ips[0], '.')| == 4 && Split(ips[n], '.')[..3] == Split(ips[0], '.')[..3]
      {
        DottedParts(SubnetHost(base, n));
        DottedParts(SubnetHost(base, 0));
      }
    }
  }
}
