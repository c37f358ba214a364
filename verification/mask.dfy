/** The prefix-length to subnet-mask table and what it encodes: a mask
    of `cidr` one-bits followed by `32 - cidr` zero-bits. */
module Mask {
  import opened Wrappers
  import opened Dotted
  import opened Bits
  import opened Decimal

  predicate IsPrefixLength(cidr: int) {
    0 <= cidr <= 32
  }

  /** The dotted mask of every prefix length, indexed by the prefix length
      (`subnet_mask` keys a dictionary by 0..32). */
  const Table: seq<string> := [
    "0.0.0.0",
    "128.0.0.0",
    "192.0.0.0",
    "224.0.0.0",
    "240.0.0.0",
    "248.0.0.0",
    "252.0.0.0",
    "254.0.0.0",
    "255.0.0.0",
    "255.128.0.0",
    "255.192.0.0",
    "255.224.0.0",
    "255.240.0.0",
    "255.248.0.0",
    "255.252.0.0",
    "255.254.0.0",
    "255.255.0.0",
    "255.255.128.0",
    "255.255.192.0",
    "255.255.224.0",
    "255.255.240.0",
    "255.255.248.0",
    "255.255.252.0",
    "255.255.254.0",
    "255.255.255.0",
    "255.255.255.128",
    "255.255.255.192",
    "255.255.255.224",
    "255.255.255.240",
    "255.255.255.248",
    "255.255.255.252",
    "255.255.255.254",
    "255.255.255.255"
  ]

  /** How many of the eight bits of octet `i` belong to the network part of
      a `/cidr` prefix. */
  function NetworkBits(cidr: int, i: nat): (n: nat)
    requires IsPrefixLength(cidr) && i < 4
    ensures n <= 8
  {
    if cidr - 8 * i <= 0 then 0 else if cidr - 8 * i >= 8 then 8 else cidr - 8 * i
  }

  /** An octet of `n` one-bits followed by `8 - n` zero-bits. */
  function PrefixOctet(n: nat): (o: int)
    requires n <= 8
    ensures IsOctet(o)
  {
    Pow2Monotone(8 - n, 8);
    256 - Pow2(8 - n)
  }

  /** The octet really is `n` ones followed by `8 - n` zeros. */
  lemma PrefixOctetBits(n: nat)
    requires n <= 8
    ensures PrefixOctet(n) == OnesThenZeros(n, 8 - n)
  {
    var j := 8 - n;
    OnesThenZerosValue(n, j);
  }

  lemma Pow2Eight()
    ensures Pow2(8) == 256
  {
    assert Pow2(4) == 16;
  }

  /** `&` with an octet of `k` high ones clears the low `j` bits. */
  lemma AndOctetHighOnes(x: nat, m: nat, k: nat, j: nat)
    requires x < 256 && k + j == 8 && m == OnesThenZeros(k, j)
    ensures And(x, m) == x - LowBits(x, j)
  {
    Pow2Eight();
    AndClearsLow(x, k, j);
  }

  /** The wildcard `255 - o` of a prefix octet `o` is `8 - n` low ones. */
  lemma PrefixWildcard(n: nat)
    requires n <= 8
    ensures 255 - PrefixOctet(n) == Pow2(8 - n) - 1
  {
  }

  /** `|` with `j` low ones sets the low `j` bits. */
  lemma OrOctetLowOnes(x: nat, w: nat, j: nat)
    requires w == Pow2(j) - 1
    ensures Or(x, w) == x - LowBits(x, j) + w
  {
    OrSetsLow(x, j, w);
  }

  /** The mask of a `/cidr` prefix computed from its definition rather than
      looked up. */
  function PrefixQuad(cidr: int): Quad
    requires IsPrefixLength(cidr)
  {
    [PrefixOctet(NetworkBits(cidr, 0)), PrefixOctet(NetworkBits(cidr, 1)),
     PrefixOctet(NetworkBits(cidr, 2)), PrefixOctet(NetworkBits(cidr, 3))]
  }

  /** The decimal name of the mask octet with `n` network bits, spelt out. */
  function PrefixName(n: nat): string
    requires n <= 8
  {
    if n == 0 then "0" else if n == 1 then "128" else if n == 2 then "192"
    else if n == 3 then "224" else if n == 4 then "240" else if n == 5 then "248"
    else if n == 6 then "252" else if n == 7 then "254" else "255"
  }

  lemma PrefixNameIsFormatted(n: nat)
    requires n <= 8
    ensures OctetString(PrefixOctet(n)) == PrefixName(n)
  {
    var v := PrefixOctet(n);
    assert Pow2(0) == 1 && Pow2(1) == 2 && Pow2(2) == 4 && Pow2(3) == 8 && Pow2(4) == 16;
    assert Pow2(5) == 32 && Pow2(6) == 64 && Pow2(7) == 128 && Pow2(8) == 256;
    if n == 0 {
      assert v == 0;
      assert NatToString(0) == "0";
    } else {
      ThreeDigits(v);
      if n == 1 {
        assert v == 128;
      } else if n == 2 {
        assert v == 192;
      } else if n == 3 {
        assert v == 224;
      } else if n == 4 {
        assert v == 240;
      } else if n == 5 {
        assert v == 248;
      } else if n == 6 {
        assert v == 252;
      } else if n == 7 {
        assert v == 254;
      } else {
        assert v == 255;
      }
    }
  }

  /** The dotted form of a computed mask, with its octet names spelt out. */
  function SpeltMask(c: int): string
    requires IsPrefixLength(c)
  {
    PrefixName(NetworkBits(c, 0)) + "." + PrefixName(NetworkBits(c, 1)) + "."
    + PrefixName(NetworkBits(c, 2)) + "." + PrefixName(NetworkBits(c, 3))
  }

  lemma FormatMask(c: int)
    requires IsPrefixLength(c)
    ensures Format(PrefixQuad(c)) == SpeltMask(c)
  {
    var q := PrefixQuad(c);
    PrefixNameIsFormatted(NetworkBits(c, 0));
    PrefixNameIsFormatted(NetworkBits(c, 1));
    PrefixNameIsFormatted(NetworkBits(c, 2));
    PrefixNameIsFormatted(NetworkBits(c, 3));
    JoinFour(OctetString(q[0]), OctetString(q[1]), OctetString(q[2]), OctetString(q[3]));
  }

  /** Every entry of the table is the dotted form of the computed mask. */
  lemma TableEntry(c: int)
    requires IsPrefixLength(c)
    ensures Table[c] == Format(PrefixQuad(c))
  {
    FormatMask(c);
    if c <= 4 {
      TableRows0To4(c);
    } else if c <= 8 {
      TableRows5To8(c);
    } else if c <= 12 {
      TableRows9To12(c - 8);
    } else if c <= 16 {
      TableRows13To16(c - 8);
    } else if c <= 20 {
      TableRows17To20(c - 16);
    } else if c <= 24 {
      TableRows21To24(c - 16);
    } else if c <= 28 {
      TableRows25To28(c - 24);
    } else {
      TableRows29To32(c - 24);
    }
  }

  /** Rows 0 to 4 of the table: prefixes that end inside the first octet. */
  lemma TableRows0To4(n: nat)
    requires 0 <= n <= 4
    ensures Table[n] == PrefixName(n) + "." + PrefixName(0) + "." + PrefixName(0) + "." + PrefixName(0)
  {
  }

  /** Rows 5 to 8 of the table: prefixes that end inside the first octet. */
  lemma TableRows5To8(n: nat)
    requires 5 <= n <= 8
    ensures Table[n] == PrefixName(n) + "." + PrefixName(0) + "." + PrefixName(0) + "." + PrefixName(0)
  {
  }

  /** Rows 9 to 12 of the table: prefixes that end inside the second octet. */
  lemma TableRows9To12(n: nat)
    requires 1 <= n <= 4
    ensures Table[8 + n] == PrefixName(8) + "." + PrefixName(n) + "." + PrefixName(0) + "." + PrefixName(0)
  {
  }

  /** Rows 13 to 16 of the table: prefixes that end inside the second octet. */
  lemma TableRows13To16(n: nat)
    requires 5 <= n <= 8
    ensures Table[8 + n] == PrefixName(8) + "." + PrefixName(n) + "." + PrefixName(0) + "." + PrefixName(0)
  {
  }

  /** Rows 17 to 20 of the table: prefixes that end inside the third octet. */
  lemma TableRows17To20(n: nat)
    requires 1 <= n <= 4
    ensures Table[16 + n] == PrefixName(8) + "." + PrefixName(8) + "." + PrefixName(n) + "." + PrefixName(0)
  {
  }

  /** Rows 21 to 24 of the table: prefixes that end inside the third octet. */
  lemma TableRows21To24(n: nat)
    requires 5 <= n <= 8
    ensures Table[16 + n] == PrefixName(8) + "." + PrefixName(8) + "." + PrefixName(n) + "." + PrefixName(0)
  {
  }

  /** Rows 25 to 28 of the table: prefixes that end inside the fourth octet. */
  lemma TableRows25To28(n: nat)
    requires 1 <= n <= 4
    ensures Table[24 + n] == PrefixName(8) + "." + PrefixName(8) + "." + PrefixName(8) + "." + PrefixName(n)
  {
  }

  /** Rows 29 to 32 of the table: prefixes that end inside the fourth octet. */
  lemma TableRows29To32(n: nat)
    requires 5 <= n <= 8
    ensures Table[24 + n] == PrefixName(8) + "." + PrefixName(8) + "." + PrefixName(8) + "." + PrefixName(n)
  {
  }

  /** `subnet_mask()`: the table lookup, which always yields a well-formed
      dotted quad holding the computed mask. */
  function SubnetMask(cidr: int): (s: string)
    requires IsPrefixLength(cidr)
    ensures s == Format(PrefixQuad(cidr))
    ensures ParseDotted(s) == Success(PrefixQuad(cidr))
  {
    TableEntry(cidr);
    FormatRoundTrip(PrefixQuad(cidr));
    Table[cidr]
  }

  /** The mask octets as the address check reads them: the table entry split
      on '.' and each segment converted with `int`. The table is well formed,
      so the conversion never raises, and it yields the computed mask. */
  function MaskOctets(cidr: int): (m: Quad)
    requires IsPrefixLength(cidr)
    ensures m == PrefixQuad(cidr)
  {
    var values := ParseSegments(Split(SubnetMask(cidr)));
    assert Segments(SubnetMask(cidr)) == Some(PrefixQuad(cidr));
    values.value
  }

  lemma FullOctet(n: nat)
    requires n <= 8
    ensures PrefixOctet(n) == 255 <==> n == 8
    ensures PrefixOctet(0) == 0
  {
    if n < 8 {
      Pow2Monotone(1, 8 - n);
    }
    Pow2Eight();
  }

  /** Once a mask octet is below 255, every later octet is 0. */
  lemma MaskContiguous(cidr: int, i: nat, j: nat)
    requires IsPrefixLength(cidr)
    requires i < j < 4
    ensures MaskOctets(cidr)[i] != 255 ==> MaskOctets(cidr)[j] == 0
  {
    FullOctet(NetworkBits(cidr, i));
  }

  /** Read as 32 bits, the mask of `/cidr` is `cidr` one-bits followed by
      `32 - cidr` zero-bits. */
  lemma MaskLeadingOnes(cidr: int, k: nat)
    requires IsPrefixLength(cidr)
    requires k < 32
    ensures QuadBit(MaskOctets(cidr), k) <==> k < cidr
  {
    PrefixLeadingOnes(cidr, k);
  }

  lemma PrefixLeadingOnes(cidr: int, k: nat)
    requires IsPrefixLength(cidr)
    requires k < 32
    ensures QuadBit(PrefixQuad(cidr), k) <==> k < cidr
  {
    var n := NetworkBits(cidr, k / 8);
    assert PrefixQuad(cidr)[k / 8] == PrefixOctet(n);
    PrefixOctetBits(n);
    OnesThenZerosBits(n, 8 - n, 7 - k % 8);
  }

  /** Different prefix lengths have different masks. */
  lemma MaskDeterminesPrefix(c1: int, c2: int)
    requires IsPrefixLength(c1) && IsPrefixLength(c2)
    ensures MaskOctets(c1) == MaskOctets(c2) ==> c1 == c2
  {
    if c1 < c2 {
      MaskLeadingOnes(c1, c1);
      MaskLeadingOnes(c2, c1);
    } else if c2 < c1 {
      MaskLeadingOnes(c1, c2);
      MaskLeadingOnes(c2, c2);
    }
  }
}
