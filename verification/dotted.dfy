/** Dotted-quad text: Python's `str.split('.')`, the `[int(o) for o in ...]`
    conversion, the octet range check and the `f'{a}.{b}.{c}.{d}'` form. */
module Dotted {
  import opened Wrappers
  import opened Decimal
  import opened Bits

  predicate IsOctet(v: int) {
    0 <= v <= 255
  }

  /** Four octets, most significant first. */
  type Quad = q: seq<int> | |q| == 4 && forall i :: 0 <= i < 4 ==> IsOctet(q[i]) witness [0, 0, 0, 0]

  /** Why a dotted string is not an address, in the order the checks run:
      a segment `int` refuses, a segment count other than four, an integer
      outside 0..255. */
  datatype ParseError = NotAnInteger | WrongSegmentCount | OctetOutOfRange

  /** Joins non-empty lists of segments with '.' separators. */
  function Join(parts: seq<string>): string
    requires |parts| >= 1
    decreases |parts|
  {
    if |parts| == 1 then parts[0] else parts[0] + "." + Join(parts[1..])
  }

  /** `s.split('.')`: every '.' separates two segments, so the empty string
      gives one empty segment and "a..b" gives an empty middle segment. */
  function Split(s: string): (parts: seq<string>)
    ensures |parts| >= 1
    ensures forall i :: 0 <= i < |parts| ==> '.' !in parts[i]
    ensures Join(parts) == s
    decreases |s|
  {
    if |s| == 0 then [""]
    else
      var rest := Split(s[1..]);
      if s[0] == '.' then
        assert s == "" + "." + s[1..];
        [""] + rest
      else
        var parts := [[s[0]] + rest[0]] + rest[1..];
        assert parts[1..] == rest[1..];
        assert |rest| > 1 ==> Join(rest) == rest[0] + "." + Join(rest[1..]);
        parts
  }

  lemma {:induction false} SplitDotless(x: string)
    requires '.' !in x
    ensures Split(x) == [x]
    decreases |x|
  {
    if |x| > 0 {
      assert '.' !in x[1..] by {
        assert forall i :: 0 <= i < |x[1..]| ==> x[1..][i] == x[i + 1];
      }
      SplitDotless(x[1..]);
      assert [x[0]] + x[1..] == x;
    }
  }

  lemma {:induction false} SplitCons(x: string, y: string)
    requires '.' !in x
    ensures Split(x + "." + y) == [x] + Split(y)
    decreases |x|
  {
    var s := x + "." + y;
    if |x| == 0 {
      assert s[0] == '.' && s[1..] == y;
    } else {
      assert '.' !in x[1..] by {
        assert forall i :: 0 <= i < |x[1..]| ==> x[1..][i] == x[i + 1];
      }
      assert s[0] == x[0] && s[1..] == x[1..] + "." + y;
      SplitCons(x[1..], y);
      assert [x[0]] + x[1..] == x;
    }
  }

  /** Splitting undoes joining, for segments without a '.'. */
  lemma {:induction false} SplitJoin(parts: seq<string>)
    requires |parts| >= 1
    requires forall i :: 0 <= i < |parts| ==> '.' !in parts[i]
    ensures Split(Join(parts)) == parts
    decreases |parts|
  {
    if |parts| == 1 {
      SplitDotless(parts[0]);
    } else {
      SplitJoin(parts[1..]);
      SplitCons(parts[0], Join(parts[1..]));
      assert parts == [parts[0]] + parts[1..];
    }
  }

  /** `[int(o) for o in parts]`: `None` as soon as one segment is not an
      integer literal. */
  function ParseSegments(parts: seq<string>): (r: Option<seq<int>>)
    ensures r.Some? <==> forall i :: 0 <= i < |parts| ==> IsIntLiteral(parts[i])
    ensures r.Some? ==> |r.value| == |parts|
    ensures r.Some? ==> forall i :: 0 <= i < |parts| ==> Some(r.value[i]) == ParseInt(parts[i])
    decreases |parts|
  {
    if |parts| == 0 then Some([])
    else
      var head :- ParseInt(parts[0]);
      var tail :- ParseSegments(parts[1..]);
      assert forall i :: 1 <= i < |parts| ==> parts[1..][i - 1] == parts[i];
      Some([head] + tail)
  }

  /** The integers of a dotted string, one per '.'-separated segment, when
      every segment is an integer literal. */
  function Segments(s: string): Option<seq<int>> {
    ParseSegments(Split(s))
  }

  /** Steps of the address check up to the range check, in their order:
      split on '.', convert every segment with `int` (which raises its own
      error on a non-literal), demand exactly four values, then demand each
      in 0..255. */
  function ParseDotted(s: string): (r: Result<Quad, ParseError>)
    ensures r.Failure? && r.error == NotAnInteger ==> exists i :: 0 <= i < |Split(s)| && !IsIntLiteral(Split(s)[i])
    ensures (exists i :: 0 <= i < |Split(s)| && !IsIntLiteral(Split(s)[i])) ==> r.Failure? && r.error == NotAnInteger
    ensures r.Failure? && r.error == WrongSegmentCount <==> Segments(s).Some? && |Split(s)| != 4
    ensures r.Failure? && r.error == OctetOutOfRange <==>
              Segments(s).Some? && |Split(s)| == 4 && exists i :: 0 <= i < 4 && !IsOctet(Segments(s).value[i])
    ensures r.Success? ==> |Split(s)| == 4 && forall i :: 0 <= i < 4 ==> Some(r.value[i]) == ParseInt(Split(s)[i])
    ensures r.Success? ==> r.value == Segments(s).value
  {
    var parts := Split(s);
    var values := ParseSegments(parts);
    assert Segments(s) == values;
    if values.None? then
      assert exists i :: 0 <= i < |parts| && !IsIntLiteral(parts[i]);
      Failure(NotAnInteger)
    else if |values.value| != 4 then Failure(WrongSegmentCount)
    else
      var v := values.value;
      if !(IsOctet(v[0]) && IsOctet(v[1]) && IsOctet(v[2]) && IsOctet(v[3])) then Failure(OctetOutOfRange)
      else Success(v)
  }

  function OctetString(o: int): string
    requires IsOctet(o)
  {
    NatToString(o)
  }

  /** `f'{q[0]}.{q[1]}.{q[2]}.{q[3]}'`. */
  function Format(q: Quad): string {
    Join([OctetString(q[0]), OctetString(q[1]), OctetString(q[2]), OctetString(q[3])])
  }

  lemma JoinFour(a: string, b: string, c: string, d: string)
    ensures Join([a, b, c, d]) == a + "." + b + "." + c + "." + d
  {
    var parts := [a, b, c, d];
    assert parts[1..] == [b, c, d];
    assert parts[1..][1..] == [c, d];
    assert parts[1..][1..][1..] == [d];
    assert Join([c, d]) == c + "." + d;
    assert Join([b, c, d]) == b + "." + (c + "." + d);
    assert Join(parts) == a + "." + (b + "." + (c + "." + d));
  }

  /** Four numbers written in decimal and joined with '.' give those four
      numbers back as segments, whether or not they are octets. */
  lemma SegmentsOfJoin(v: seq<nat>)
    requires |v| == 4
    ensures Segments(Join([NatToString(v[0]), NatToString(v[1]), NatToString(v[2]), NatToString(v[3])])) == Some(v)
  {
    var parts := [NatToString(v[0]), NatToString(v[1]), NatToString(v[2]), NatToString(v[3])];
    forall i | 0 <= i < 4
      ensures '.' !in parts[i]
    {
      NatToStringDenotes(v[i]);
      assert AllDigits(parts[i]);
    }
    SplitJoin(parts);
    forall i | 0 <= i < 4
      ensures ParseInt(parts[i]) == Some(v[i])
    {
      ParseFormatted(v[i]);
    }
    var values := ParseSegments(parts);
    assert values.Some?;
    assert values.value == v;
  }

  /** Every formatted quad parses back to itself. */
  lemma FormatRoundTrip(q: Quad)
    ensures ParseDotted(Format(q)) == Success(q)
  {
    SegmentsOfJoin(q);
  }

  /** A parsed string whose segments are all canonical numerals is the
      formatted form of what it parses to. */
  lemma ParsedCanonical(s: string)
    requires ParseDotted(s).Success?
    requires forall i :: 0 <= i < |Split(s)| ==> IsCanonical(Split(s)[i])
    ensures Format(ParseDotted(s).value) == s
  {
    var q := ParseDotted(s).value;
    var parts := Split(s);
    forall i | 0 <= i < 4
      ensures OctetString(q[i]) == parts[i]
    {
      FormatParsed(parts[i]);
    }
    assert [OctetString(q[0]), OctetString(q[1]), OctetString(q[2]), OctetString(q[3])] == parts;
  }

  /** Bit `k` of a quad read as 32 bits, counting from the most significant
      bit of the first octet. */
  predicate QuadBit(q: Quad, k: nat)
    requires k < 32
  {
    Bit(q[k / 8], 7 - k % 8)
  }
}
