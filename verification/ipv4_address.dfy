/** The `IPv4Address` value: a prefix length checked first, then an address
    string checked against it, keeping the original string and the dotted
    subnet ID. */
module IPv4 {
  import opened Wrappers
  import opened Bits
  import opened Dotted
  import opened Mask

  /** The errors the class raises: one per message constant it uses, and
      the error `int` itself raises on a segment that is not a literal. */
  datatype Error =
    | CidrOutOfRange
    | AddressNotInteger
    | AddressInvalidFormat
    | AddressOctetRange
    | AddressIsSubnetId
    | AddressIsBroadcastId

  /** `_validate_cidr` for an integer argument. */
  function ValidateCidr(cidr: int): (r: Result<int, Error>)
    ensures r.Success? <==> IsPrefixLength(cidr)
    ensures r.Success? ==> r.value == cidr
    ensures r.Failure? ==> r.error == CidrOutOfRange
  {
    if cidr < 0 || cidr > 32 then Failure(CidrOutOfRange) else Success(cidr)
  }

  /** `id_result`: the octet-wise `&` of the address and the mask. */
  function SubnetId(address: Quad, mask: Quad): (id: Quad)
    ensures forall i :: 0 <= i < 4 ==> id[i] <= address[i] && id[i] <= mask[i]
  {
    seq(4, i requires 0 <= i < 4 => And(address[i], mask[i]))
  }

  /** `wildcard_octets`: `255 - m` for every mask octet. */
  function Wildcard(mask: Quad): Quad {
    seq(4, i requires 0 <= i < 4 => 255 - mask[i])
  }

  function OrOctet(a: int, b: int): (r: int)
    requires IsOctet(a) && IsOctet(b)
    ensures IsOctet(r) && a <= r && b <= r
  {
    Pow2Eight();
    OrBelow(a, b, 8);
    Or(a, b)
  }

  /** `broadcast_result`: the octet-wise `|` of the address and the
      wildcard. */
  function BroadcastId(address: Quad, mask: Quad): (b: Quad)
    ensures forall i :: 0 <= i < 4 ==> address[i] <= b[i] && Wildcard(mask)[i] <= b[i]
  {
    var w := Wildcard(mask);
    seq(4, i requires 0 <= i < 4 => OrOctet(address[i], w[i]))
  }

  /** What a successful address check hands back: the address string as
      given, and the dotted subnet ID cached beside it. */
  datatype Accepted = Accepted(address: string, subnetAddress: string)

  function ParseFailure(e: ParseError): Error {
    match e
    case NotAnInteger => AddressNotInteger
    case WrongSegmentCount => AddressInvalidFormat
    case OctetOutOfRange => AddressOctetRange
  }

  /** `_validate_address` for a string argument, once the prefix length is
      known: parse and range-check, derive the subnet and broadcast IDs from
      the looked-up mask, reject the address if it is either (the subnet ID
      first), else return it unchanged with the dotted subnet ID. */
  function ValidateAddress(address: string, cidr: int): (r: Result<Accepted, Error>)
    requires IsPrefixLength(cidr)
    ensures ParseDotted(address).Failure? ==> r == Failure(ParseFailure(ParseDotted(address).error))
    ensures r.Success? ==> r.value.address == address
    ensures r.Success? ==> ParseDotted(address).Success?
    ensures r.Success? ==>
              ParseDotted(r.value.subnetAddress) == Success(SubnetId(ParseDotted(address).value, MaskOctets(cidr)))
    ensures r.Success? ==> r.value.subnetAddress == Format(SubnetId(ParseDotted(address).value, MaskOctets(cidr)))
    ensures r.Failure? ==> r.error != CidrOutOfRange
  {
    match ParseDotted(address)
    case Failure(e) => Failure(ParseFailure(e))
    case Success(octets) =>
      var mask := MaskOctets(cidr);
      var id := SubnetId(octets, mask);
      var broadcast := BroadcastId(octets, mask);
      if octets == id then Failure(AddressIsSubnetId)
      else if octets == broadcast then Failure(AddressIsBroadcastId)
      else
        FormatRoundTrip(id);
        Success(Accepted(address, Format(id)))
  }

  /** How many of the eight bits of octet `i` are host bits under `/cidr`. */
  function HostBits(cidr: int, i: nat): (h: nat)
    requires IsPrefixLength(cidr) && i < 4
    ensures h <= 8
  {
    8 - NetworkBits(cidr, i)
  }

  /** Every host bit of the address is zero. */
  predicate HostPartZero(a: Quad, cidr: int)
    requires IsPrefixLength(cidr)
  {
    forall i :: 0 <= i < 4 ==> LowBits(a[i], HostBits(cidr, i)) == 0
  }

  /** Every host bit of the address is one. */
  predicate HostPartOnes(a: Quad, cidr: int)
    requires IsPrefixLength(cidr)
  {
    forall i :: 0 <= i < 4 ==> LowBits(a[i], HostBits(cidr, i)) == Pow2(HostBits(cidr, i)) - 1
  }

  /** Under the mask of `/cidr`, the subnet ID is the address with its host
      bits cleared. */
  lemma SubnetIdClearsHostBits(a: Quad, cidr: int, i: nat)
    requires IsPrefixLength(cidr) && i < 4
    ensures SubnetId(a, PrefixQuad(cidr))[i] == a[i] - LowBits(a[i], HostBits(cidr, i))
  {
    var n, j := NetworkBits(cidr, i), HostBits(cidr, i);
    var m := PrefixQuad(cidr)[i];
    PrefixOctetBits(n);
    assert m == OnesThenZeros(n, j);
    AndOctetHighOnes(a[i], m, n, j);
  }

  /** Under the mask of `/cidr`, the broadcast ID is the address with its
      host bits set. */
  lemma BroadcastIdSetsHostBits(a: Quad, cidr: int, i: nat)
    requires IsPrefixLength(cidr) && i < 4
    ensures BroadcastId(a, PrefixQuad(cidr))[i] == a[i] - LowBits(a[i], HostBits(cidr, i)) + Pow2(HostBits(cidr, i)) - 1
  {
    var n, j := NetworkBits(cidr, i), HostBits(cidr, i);
    var w := Wildcard(PrefixQuad(cidr))[i];
    PrefixWildcard(n);
    assert w == Pow2(j) - 1;
    OrOctetLowOnes(a[i], w, j);
  }

  /** An address is its own subnet ID exactly when its host bits are all
      zero. */
  lemma IsSubnetIdIff(a: Quad, cidr: int)
    requires IsPrefixLength(cidr)
    ensures a == SubnetId(a, PrefixQuad(cidr)) <==> HostPartZero(a, cidr)
  {
    var id := SubnetId(a, PrefixQuad(cidr));
    forall i | 0 <= i < 4
      ensures id[i] == a[i] - LowBits(a[i], HostBits(cidr, i))
    {
      SubnetIdClearsHostBits(a, cidr, i);
    }
    if HostPartZero(a, cidr) {
      assert a == id;
    }
  }

  /** An address is its own broadcast ID exactly when its host bits are all
      one. */
  lemma IsBroadcastIdIff(a: Quad, cidr: int)
    requires IsPrefixLength(cidr)
    ensures a == BroadcastId(a, PrefixQuad(cidr)) <==> HostPartOnes(a, cidr)
  {
    var b := BroadcastId(a, PrefixQuad(cidr));
    forall i | 0 <= i < 4
      ensures b[i] == a[i] - LowBits(a[i], HostBits(cidr, i)) + Pow2(HostBits(cidr, i)) - 1
    {
      BroadcastIdSetsHostBits(a, cidr, i);
    }
    if HostPartOnes(a, cidr) {
      assert a == b;
    }
  }

  /** The verdict on a well-formed address, in terms of its host bits: all
      zero is the subnet-ID error, checked first; otherwise all one is the
      broadcast-ID error; anything else is accepted. */
  lemma AddressVerdict(address: string, cidr: int)
    requires IsPrefixLength(cidr)
    requires ParseDotted(address).Success?
    ensures var a := ParseDotted(address).value;
            && (ValidateAddress(address, cidr) == Failure(AddressIsSubnetId) <==> HostPartZero(a, cidr))
            && (ValidateAddress(address, cidr) == Failure(AddressIsBroadcastId) <==>
                  !HostPartZero(a, cidr) && HostPartOnes(a, cidr))
            && (ValidateAddress(address, cidr).Success? <==> !HostPartZero(a, cidr) && !HostPartOnes(a, cidr))
  {
    var a := ParseDotted(address).value;
    assert MaskOctets(cidr) == PrefixQuad(cidr);
    IsSubnetIdIff(a, cidr);
    IsBroadcastIdIff(a, cidr);
  }

  /** With `/32` there are no host bits, so every well-formed address is
      rejected as a subnet ID: the class applies the check at every prefix
      length. */
  lemma HostRouteRejectsAll(address: string)
    requires ParseDotted(address).Success?
    ensures ValidateAddress(address, 32) == Failure(AddressIsSubnetId)
  {
    var a := ParseDotted(address).value;
    assert HostPartZero(a, 32) by {
      forall i | 0 <= i < 4
        ensures HostBits(32, i) == 0
      {
      }
    }
    AddressVerdict(address, 32);
  }

  /** With `/31` the only host bit is the last one: an even last octet makes
      the address its subnet ID and an odd one its broadcast ID, so every
      well-formed address is rejected. */
  lemma PointToPointRejectsAll(address: string)
    requires ParseDotted(address).Success?
    ensures ParseDotted(address).value[3] % 2 == 0 ==> ValidateAddress(address, 31) == Failure(AddressIsSubnetId)
    ensures ParseDotted(address).value[3] % 2 == 1 ==> ValidateAddress(address, 31) == Failure(AddressIsBroadcastId)
  {
    var a := ParseDotted(address).value;
    forall i | 0 <= i < 3
      ensures HostBits(31, i) == 0 && LowBits(a[i], HostBits(31, i)) == 0
    {
    }
    assert HostBits(31, 3) == 1;
    assert LowBits(a[3], 1) == a[3] % 2;
    assert Pow2(1) == 2;
    if a[3] % 2 == 0 {
      assert HostPartZero(a, 31);
    } else {
      assert !HostPartZero(a, 31) && HostPartOnes(a, 31);
    }
    AddressVerdict(address, 31);
  }

  /** Up to `/30` the check does leave hosts: the address with only its
      lowest bit set is accepted. */
  lemma ShortPrefixAcceptsHost(cidr: int)
    requires 0 <= cidr <= 30
    ensures ValidateAddress(Format([0, 0, 0, 1]), cidr).Success?
  {
    var address := Format([0, 0, 0, 1]);
    FormatRoundTrip([0, 0, 0, 1]);
    var h := HostBits(cidr, 3);
    assert h >= 2;
    Pow2Monotone(2, h);
    assert Pow2(2) == 4;
    LowBitsOfSmall(1, h);
    AddressVerdict(address, cidr);
  }

  /** A constructed object: the prefix length, the address string as given
      and the subnet ID string cached by the address check. */
  datatype IPv4Address = IPv4Address(address: string, cidr: int, subnetAddress: string)
  {
    /** What the constructor establishes for every object it returns. */
    predicate Valid() {
      && IsPrefixLength(cidr)
      && ValidateAddress(address, cidr) == Success(Accepted(address, subnetAddress))
    }
  }

  /** `IPv4Address(address, cidr)`: the prefix length is checked first, so an
      out-of-range one is reported whatever the address; then the address
      is checked against it and its error, if any, is the constructor's. */
  function New(address: string, cidr: int): (r: Result<IPv4Address, Error>)
    ensures !IsPrefixLength(cidr) ==> r == Failure(CidrOutOfRange)
    ensures IsPrefixLength(cidr) ==> (r.Success? <==> ValidateAddress(address, cidr).Success?)
    ensures IsPrefixLength(cidr) && r.Failure? ==> r.error == ValidateAddress(address, cidr).error
    ensures r.Success? ==> r.value.Valid() && r.value.address == address && r.value.cidr == cidr
  {
    var c :- ValidateCidr(cidr);
    var accepted :- ValidateAddress(address, c);
    Success(IPv4Address(accepted.address, c, accepted.subnetAddress))
  }

  /** The subnet ID of a subnet ID is itself. */
  lemma SubnetIdIdempotent(a: Quad, mask: Quad)
    ensures SubnetId(SubnetId(a, mask), mask) == SubnetId(a, mask)
  {
    forall i | 0 <= i < 4
      ensures And(And(a[i], mask[i]), mask[i]) == And(a[i], mask[i])
    {
      AndIdempotent(a[i], mask[i]);
    }
  }

  /** The cached subnet address of an object is itself rejected, under the
      same prefix length, as a subnet ID. */
  lemma SubnetAddressIsSubnetId(x: IPv4Address)
    ensures x.Valid() ==> ValidateAddress(x.subnetAddress, x.cidr) == Failure(AddressIsSubnetId)
  {
    if x.Valid() {
      var a := ParseDotted(x.address).value;
      var mask := MaskOctets(x.cidr);
      SubnetIdIdempotent(a, mask);
      FormatRoundTrip(SubnetId(a, mask));
    }
  }
}
