# IPv4Address in Dafny

A model of the `IPv4Address` class of `ip_address.py`. An object is built from an
address string and a CIDR prefix length:

1. the prefix length is checked to lie in 0..32;
2. the address is split on `.` and every segment converted with `int`;
3. exactly four values in 0..255 are required;
4. the mask for the prefix length is looked up in a 33-entry table of dotted
   strings, split and converted in turn;
5. the subnet ID (`address & mask`, per octet) and the broadcast ID
   (`address | (255 - mask)`, per octet) are computed;
6. the address is refused if it equals the subnet ID and then if it equals the
   broadcast ID;
7. otherwise the address string is kept as given, and the subnet ID is cached
   as a dotted string.

The model is pure: an object is the immutable value `IPv4.IPv4Address`, every
raised exception is a `Failure` of a `Result`, and `IPv4.New` is the constructor.

Modules:

- `Wrappers`: `Option` and `Result`.
- `Decimal`: Python's `int(s)` on the literals it accepts, and `str(n)`.
- `Bits`: Python's `&` and `|` on non-negative integers, defined bit by bit, and
  the facts subnet arithmetic needs.
- `Dotted`: `str.split('.')`, the segment conversion, the octet range check and
  the `f'{a}.{b}.{c}.{d}'` form, with the parse/format round trip.
- `Mask`: the mask table of `subnet_mask`, kept as its 33 strings, and its closed form. The
  mask of `/c` is `c` one-bits followed by `32 - c` zero-bits.
- `IPv4`: the prefix-length check, the address check, the constructor, and their
  properties.
- `Scenarios`: concrete constructions.

What the code does, as modelled (where a reader might expect otherwise):

- The subnet-ID and broadcast-ID checks run at every prefix length. There is no
  exemption for `/31` or `/32`. Under `/32` every well-formed address is its own
  subnet ID and is refused (`IPv4.HostRouteRejectsAll`). Under `/31` every address
  is refused: an even last octet as the subnet ID, an odd one as the broadcast ID
  (`IPv4.PointToPointRejectsAll`). So `192.168.10.1/31` fails with the broadcast-ID
  error (`Scenarios.PointToPointHostRejected`). The class emits no advisory for `/31`.
- A segment that `int` refuses raises `int`'s own `ValueError`. That happens before
  the segment count is looked at. So `"a.b"` gives `AddressNotInteger`, not the
  class's `ADDRESS_INVALID_FORMAT`, which is only raised for a wrong count of
  integer segments.
- `int` accepts a sign and leading zeros. So `"010.0.0.1"` is accepted as 10.0.0.1,
  and `"-1"` is an integer that then fails the range check.
- The class computes no 32-bit integer value and defines no ordering.

## Model

| member | source | states |
|---|---|---|
| IPv4.ValidateCidr | ip_address.py:16-23 | Accepts exactly the prefix lengths 0..32 and returns them unchanged; any other integer gives the out-of-range error. |
| Mask.SubnetMask | ip_address.py:25-63 | The string returned for `/cidr` is exactly the dotted form of the computed mask of `cidr` leading one-bits, and it parses back to that mask. |
| Mask.TableEntry | ip_address.py:27-61 | Each of the 33 literal table strings is exactly the dotted form of the computed mask of its key. |
| Mask.MaskOctets | ip_address.py:83-85 | Splitting the table entry and converting every segment with `int` never fails and yields the computed mask. |
| Mask.MaskLeadingOnes | ip_address.py:27-61 | Read as 32 bits, the mask of `/cidr` has bit `k` set exactly when `k < cidr`. |
| Mask.MaskContiguous | ip_address.py:27-61 | Once a mask octet is below 255, every later octet is 0. |
| Mask.MaskDeterminesPrefix | ip_address.py:27-61 | Distinct prefix lengths have distinct masks, so the table is injective. |
| Decimal.ParseInt | ip_address.py:75 | `int` succeeds exactly on an optional sign followed by digits, of any length. The value is the digits' value, negated after a `-`, so the sign decides the sign of the value. |
| Decimal.ParseFormatted | ip_address.py:101 | Converting a formatted number back with `int` gives the number. |
| Decimal.FormatParsed | ip_address.py:75 | A canonical numeral is the formatted form of the value it denotes. |
| Dotted.Split | ip_address.py:72 | `split('.')` gives at least one segment, none contains a '.', and joining them with '.' gives the string back. |
| Dotted.SplitJoin | ip_address.py:72 | Splitting a '.'-join of dot-free segments gives those segments back. |
| Dotted.ParseSegments | ip_address.py:75 | The list conversion succeeds exactly when every segment is an integer literal; it keeps the length, and each value is that segment's `int`. |
| Dotted.ParseDotted | ip_address.py:72-81 | The address format checks in the order the class makes them. `int` fails when some segment is not a literal. Otherwise the format error comes exactly when the count is not 4. Otherwise the range error comes exactly when some value is outside 0..255. On success each octet is its segment's `int`. |
| Dotted.FormatRoundTrip | ip_address.py:101 | Every dotted string the class writes parses back to the octets it was written from. |
| Dotted.ParsedCanonical | ip_address.py:101 | A parsed address whose segments are all canonical numerals is exactly the formatted form of its octets. |
| Bits.And | ip_address.py:92 | `a & b` is at most each operand. |
| Bits.Or | ip_address.py:93 | The bitwise or of `a` and `b` is at least each operand and at most their sum. |
| Bits.OrBelow | ip_address.py:93 | The bitwise or of two numbers below `2^n` stays below `2^n`, so octets stay octets. |
| Bits.AndClearsLow | ip_address.py:92 | `&` with `k` ones over `j` zeros clears exactly the low `j` bits of a number below `2^(k+j)`. |
| Bits.OrSetsLow | ip_address.py:93 | Or-ing with `j` low ones sets exactly the low `j` bits. |
| Bits.AndBit | ip_address.py:92 | Bit `i` of `a & b` is set exactly when bit `i` is set in both `a` and `b`. |
| Bits.OrBit | ip_address.py:93 | Bit `i` of the bitwise or of `a` and `b` is set exactly when bit `i` is set in `a` or in `b`. |
| Bits.AndIdempotent | ip_address.py:92 | Applying `& b` twice is the same as applying it once. |
| IPv4.SubnetId | ip_address.py:88-92 | Each octet of the subnet ID is at most the address octet and at most the mask octet. |
| IPv4.BroadcastId | ip_address.py:86-93 | Each octet of the broadcast ID is at least the address octet and at least the wildcard octet. |
| IPv4.SubnetIdClearsHostBits | ip_address.py:92 | Under the mask of `/cidr`, each subnet-ID octet is the address octet with its host bits cleared. |
| IPv4.BroadcastIdSetsHostBits | ip_address.py:86-93 | Under the mask of `/cidr`, each broadcast-ID octet is the address octet with its host bits set. |
| IPv4.IsSubnetIdIff | ip_address.py:95-96 | An address equals its subnet ID exactly when all its host bits are zero. |
| IPv4.IsBroadcastIdIff | ip_address.py:98-99 | An address equals its broadcast ID exactly when all its host bits are one. |
| IPv4.ValidateAddress | ip_address.py:67-103 | Parse errors are reported as they arise. On success the address string is returned unchanged. The cached subnet address is the dotted form of the octet-wise `&` with the table mask, and it parses back to that. No address error is the prefix-length error. |
| IPv4.AddressVerdict | ip_address.py:95-103 | For a well-formed address, the three outcomes in terms of host bits. All zero gives the subnet-ID error, checked first. Otherwise all one gives the broadcast-ID error. Anything else is accepted. |
| IPv4.HostRouteRejectsAll | ip_address.py:95-96 | Under `/32` every well-formed address is refused as a subnet ID. |
| IPv4.PointToPointRejectsAll | ip_address.py:95-99 | Under `/31` an even last octet is refused as the subnet ID and an odd one as the broadcast ID. |
| IPv4.ShortPrefixAcceptsHost | ip_address.py:95-103 | Up to `/30` the address `0.0.0.1` is accepted, so these prefix lengths do admit hosts. |
| IPv4.New | ip_address.py:12-14 | The prefix length is checked before the address. An out-of-range one is reported whatever the address. Otherwise construction succeeds exactly when the address check does, with its error. A built object keeps the address and prefix length and satisfies the address check. |
| IPv4.SubnetIdIdempotent | ip_address.py:92 | The subnet ID of a subnet ID is itself. |
| IPv4.SubnetAddressIsSubnetId | ip_address.py:101-107 | The cached subnet address of a built object is itself refused, under the same prefix length, as a subnet ID. |
| Scenarios.Slash24Verdict | ip_address.py:67-103 | Under `/24`, `192.168.10.x` is refused as the subnet ID for x = 0 and as the broadcast ID for x = 255. Every x in between is accepted with subnet address `192.168.10.0`. |
| Scenarios.HostAccepted | ip_address.py:12-14 | `192.168.10.1/24` builds an object whose subnet address is `192.168.10.0`. |
| Scenarios.SubnetIdRejected | ip_address.py:95-96 | `192.168.10.0/24` is refused as the subnet ID. |
| Scenarios.BroadcastIdRejected | ip_address.py:98-99 | `192.168.10.255/24` is refused as the broadcast ID. |
| Scenarios.PointToPointHostRejected | ip_address.py:98-99 | `192.168.10.1/31` is refused as the broadcast ID. |
| Scenarios.PrefixTooLong | ip_address.py:20-21 | `/33` is refused with the out-of-range error. |
| Scenarios.OctetTooLarge | ip_address.py:79-81 | `10.0.0.256/8` is refused with the octet-range error. |

## Left out

- The `isinstance` checks on the prefix length and the address (`ip_address.py:17-18`, `69-70`) are not modelled. The model's parameters are typed `int` and `string`, so `CIDR_NOT_INT` and `ADDRESS_NOT_STR` cannot arise. A Python `bool`, which passes as an `int`, is not modelled either.
- The `cidr is None` branch of `subnet_mask` (`ip_address.py:26`, `64-65`) is left out. The constructor always sets the prefix length first, so that branch is unreachable, and it builds a `ValueError` without raising it.
- Decimal.ParseInt: Python's `int` also accepts surrounding whitespace, `_` between digits and non-ASCII decimal digits. The model accepts only an optional `+` or `-` followed by ASCII digits. It refuses the rest, which in those corner cases makes it stricter than `int`. In the other direction, the model places no limit on the number of digits. Recent CPython versions raise `ValueError` for a decimal literal longer than `sys.get_int_max_str_digits()` digits, 4300 by default. That limit depends on the interpreter version and can be changed at run time. So an address segment of more than 4300 digits gives the count error or the octet-range error in the model, where such an interpreter raises `int`'s error.
- Error messages are not modelled. Each raised error is a constructor of `IPv4.Error`. `SUBNET_INVALID_FORMAT` is never used by the class.
- The object's mutable attributes are not modelled. `IPv4.IPv4Address` is an immutable value, and `subnet_address()` is its `subnetAddress` field.
- The module-level demo (`ip_address.py:112-115`) is not part of this model. Its first line builds `IPv4Address('192.168.10.255', 24)`, which raises the broadcast-ID error (`Scenarios.BroadcastIdRejected`). So importing the module raises, and its three prints never run.
- The commented-out older class (`ip_address.py:118-265`) is not part of this model. It is not executable code.
