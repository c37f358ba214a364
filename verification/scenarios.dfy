/** Concrete constructions: the usual `/24` host, its subnet and broadcast
    IDs, the same host under `/31`, an out-of-range prefix length and an
    out-of-range octet. */
module Scenarios {
  import opened Wrappers
  import opened Decimal
  import opened Bits
  import opened Dotted
  import opened Mask
  import opened IPv4

  lemma SpellHost(last: nat, s: string)
    requires last < 256
    requires s == "192.168.10." + NatToString(last)
    ensures Format([192, 168, 10, last]) == s
  {
    NetworkNumerals();
    JoinFour("192", "168", "10", NatToString(last));
  }

  lemma NetworkNumerals()
    ensures NatToString(192) == "192" && NatToString(168) == "168" && NatToString(10) == "10"
  {
    ThreeDigits(192);
    ThreeDigits(168);
  }

  /** Parses `192.168.10.<last>` back to its octets. */
  lemma ParseHost(last: nat, s: string)
    requires last < 256
    requires s == "192.168.10." + NatToString(last)
    ensures ParseDotted(s) == Success([192, 168, 10, last])
  {
    SpellHost(last, s);
    FormatRoundTrip([192, 168, 10, last]);
  }

  lemma Slash24HostBits(cidr: int)
    requires cidr == 24
    ensures HostBits(cidr, 0) == 0 && HostBits(cidr, 1) == 0 && HostBits(cidr, 2) == 0 && HostBits(cidr, 3) == 8
  {
  }

  /** When only the last octet is host bits, as under `/24`, they are all
      zero when it is 0 and all one when it is 255. */
  lemma LastOctetHostPart(a: Quad, cidr: int)
    requires IsPrefixLength(cidr)
    requires HostBits(cidr, 0) == 0 && HostBits(cidr, 1) == 0 && HostBits(cidr, 2) == 0 && HostBits(cidr, 3) == 8
    ensures HostPartZero(a, cidr) <==> a[3] == 0
    ensures HostPartOnes(a, cidr) <==> a[3] == 255
  {
    Pow2Eight();
    LowBitsOfSmall(a[3], 8);
    forall i | 0 <= i < 3
      ensures LowBits(a[i], HostBits(cidr, i)) == 0 == Pow2(HostBits(cidr, i)) - 1
    {
    }
    assert LowBits(a[3], HostBits(cidr, 3)) == a[3];
  }

  /** When only the last octet is host bits, as under `/24`, the subnet ID
      keeps the first three octets and zeroes the last. */
  lemma LastOctetSubnet(a: Quad, cidr: int)
    requires IsPrefixLength(cidr)
    requires HostBits(cidr, 0) == 0 && HostBits(cidr, 1) == 0 && HostBits(cidr, 2) == 0 && HostBits(cidr, 3) == 8
    ensures SubnetId(a, PrefixQuad(cidr)) == [a[0], a[1], a[2], 0]
  {
    SubnetIdClearsHostBits(a, cidr, 0);
    SubnetIdClearsHostBits(a, cidr, 1);
    SubnetIdClearsHostBits(a, cidr, 2);
    SubnetIdClearsHostBits(a, cidr, 3);
    Pow2Eight();
    LowBitsOfSmall(a[3], 8);
  }

  /** Under `/24` the verdict on `192.168.10.<last>` depends on the last
      octet alone: 0 is the subnet ID, 255 the broadcast ID, and anything
      between is accepted with subnet ID `192.168.10.0`. */
  lemma Slash24Verdict(s: string, last: int, cidr: int)
    requires 0 <= last < 256 && cidr == 24
    requires ParseDotted(s) == Success([192, 168, 10, last])
    ensures last == 0 ==> New(s, cidr) == Failure(AddressIsSubnetId)
    ensures last == 255 ==> New(s, cidr) == Failure(AddressIsBroadcastId)
    ensures 0 < last < 255 ==> New(s, cidr) == Success(IPv4Address(s, cidr, Format([192, 168, 10, 0])))
  {
    Slash24HostBits(cidr);
    LastOctetHostPart([192, 168, 10, last], cidr);
    LastOctetSubnet([192, 168, 10, last], cidr);
    AddressVerdict(s, cidr);
  }

  /** `192.168.10.1/24` is accepted and caches the subnet ID
      `192.168.10.0`. */
  lemma HostAccepted(s: string, subnet: string)
    requires s == "192.168.10.1" && subnet == "192.168.10.0"
    ensures New(s, 24) == Success(IPv4Address(s, 24, subnet))
  {
    assert NatToString(1) == "1";
    ParseHost(1, s);
    Slash24Verdict(s, 1, 24);
    SubnetSpelt(subnet);
  }

  lemma SubnetSpelt(subnet: string)
    requires subnet == "192.168.10.0"
    ensures Format([192, 168, 10, 0]) == subnet
  {
    assert NatToString(0) == "0";
    SpellHost(0, subnet);
  }

  /** `192.168.10.0/24` is the subnet ID. */
  lemma SubnetIdRejected(s: string)
    requires s == "192.168.10.0"
    ensures New(s, 24) == Failure(AddressIsSubnetId)
  {
    assert NatToString(0) == "0";
    ParseHost(0, s);
    Slash24Verdict(s, 0, 24);
  }

  /** `192.168.10.255/24` is the broadcast ID. */
  lemma BroadcastIdRejected(s: string)
    requires s == "192.168.10.255"
    ensures New(s, 24) == Failure(AddressIsBroadcastId)
  {
    ThreeDigits(255);
    ParseHost(255, s);
    Slash24Verdict(s, 255, 24);
  }

  /** `192.168.10.1/31` is rejected: under `/31` its odd last octet makes it
      the broadcast ID, since the check runs at every prefix length. */
  lemma PointToPointHostRejected(s: string)
    requires s == "192.168.10.1"
    ensures New(s, 31) == Failure(AddressIsBroadcastId)
  {
    assert NatToString(1) == "1";
    ParseHost(1, s);
    PointToPointRejectsAll(s);
  }

  /** `/33` is out of range, whatever the address. */
  lemma PrefixTooLong(s: string)
    requires s == "192.168.10.1"
    ensures New(s, 33) == Failure(CidrOutOfRange)
  {
  }

  /** `10.0.0.256/8` has an octet out of range. */
  lemma OctetTooLarge(s: string)
    requires s == "10.0.0.256"
    ensures New(s, 8) == Failure(AddressOctetRange)
  {
    ThreeDigits(256);
    assert NatToString(10) == "10" && NatToString(0) == "0";
    var parts := [NatToString(10), NatToString(0), NatToString(0), NatToString(256)];
    assert parts == ["10", "0", "0", "256"];
    JoinFour("10", "0", "0", "256");
    assert Join(parts) == s;
    SegmentsOfJoin([10, 0, 0, 256]);
    OctetOutOfRangeAt(s);
  }

  lemma OctetOutOfRangeAt(s: string)
    requires Segments(s) == Some([10, 0, 0, 256])
    ensures New(s, 8) == Failure(AddressOctetRange)
  {
    assert !IsOctet(Segments(s).value[3]);
  }
}
