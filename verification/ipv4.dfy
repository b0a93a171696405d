/** IPv4 addresses as the system handles them: four octets, rendered as
    dotted decimal (what inet_ntoa and the `<<` of each octet produce) and
    validated by the dotted-quad grammar that inet_pton(AF_INET, ...)
    accepts: exactly four fields, each a decimal number of at most 255
    written without leading zeros. */
module Ipv4 {
  import opened Options
  import Bytes

  /** An address as its octets in wire order: `o0` is the first dotted field. */
  datatype Addr = Addr(o0: bv8, o1: bv8, o2: bv8, o3: bv8)

  function Octets(a: Addr): (os: seq<bv8>)
    ensures |os| == 4
  {
    [a.o0, a.o1, a.o2, a.o3]
  }

  predicate IsDigit(c: char) {
    '0' <= c <= '9'
  }

  function DigitChar(d: nat): (c: char)
    requires d < 10
    ensures IsDigit(c)
  {
    ('0' as int + d) as char
  }

  function DigitValue(c: char): (d: nat)
    requires IsDigit(c)
    ensures d < 10 && DigitChar(d) == c
  {
    c as int - '0' as int
  }

  predicate AllDigits(s: string) {
    forall i :: 0 <= i < |s| ==> IsDigit(s[i])
  }

  /** A decimal numeral in canonical form: non-empty, digits only, and no
      leading zero unless it is the single digit "0". */
  predicate Canonical(s: string) {
    |s| > 0 && AllDigits(s) && (|s| == 1 || s[0] != '0')
  }

  /** Shortest decimal rendering of `n`. */
  function Decimal(n: nat): string
  {
    if n < 10 then [DigitChar(n)] else Decimal(n / 10) + [DigitChar(n % 10)]
  }

  lemma {:induction false} DecimalIsCanonical(n: nat)
    ensures Canonical(Decimal(n))
    ensures '.' !in Decimal(n)
    ensures Value(Decimal(n)) == n
  {
    if n >= 10 {
      DecimalIsCanonical(n / 10);
      var p := Decimal(n / 10);
      var s := p + [DigitChar(n % 10)];
      assert s[0] == p[0];
      assert s[..|s| - 1] == p;
    }
  }

  /** The number a string of digits denotes. */
  function Value(s: string): nat
    requires AllDigits(s)
  {
    if |s| == 0 then 0 else Value(s[..|s| - 1]) * 10 + DigitValue(s[|s| - 1])
  }

  lemma {:induction false} CanonicalValueLowerBound(s: string)
    requires Canonical(s) && |s| >= 2
    ensures Value(s) >= 10
  {
    var p := s[..|s| - 1];
    assert p[0] == s[0];
    if |p| >= 2 {
      CanonicalValueLowerBound(p);
    } else {
      assert Value(p) == DigitValue(p[0]) >= 1;
    }
  }

  lemma {:induction false} DecimalOfValue(s: string)
    requires Canonical(s)
    ensures Decimal(Value(s)) == s
  {
    if |s| >= 2 {
      var p := s[..|s| - 1];
      assert p[0] == s[0];
      CanonicalValueLowerBound(s);
      DecimalOfValue(p);
      assert s == p + [s[|s| - 1]];
    }
  }

  /** One dotted field as inet_pton reads it. */
  function ParseOctet(f: string): (r: Option<bv8>)
  {
    if Canonical(f) && Value(f) <= 255 then Some(Bytes.ToByte(Value(f))) else None
  }

  lemma ParseDecimalOctet(o: bv8)
    ensures ParseOctet(Decimal(o as int)) == Some(o)
  {
    DecimalIsCanonical(o as int);
    Bytes.ByteOfValue(o);
  }

  lemma ParsedOctetIsDecimal(f: string, o: bv8)
    requires ParseOctet(f) == Some(o)
    ensures Decimal(o as int) == f
  {
    DecimalOfValue(f);
  }

  /** Index of the first '.' of `s`, or |s| when there is none. */
  function FieldEnd(s: string): (i: nat)
    ensures i <= |s|
  {
    if |s| == 0 || s[0] == '.' then 0 else FieldEnd(s[1..]) + 1
  }

  lemma {:induction false} FieldEndIsDot(s: string)
    ensures FieldEnd(s) < |s| ==> s[FieldEnd(s)] == '.'
  {
    if |s| > 0 && s[0] != '.' {
      FieldEndIsDot(s[1..]);
    }
  }

  lemma {:induction false} FieldEndOfPrefix(x: string, y: string)
    requires '.' !in x
    ensures FieldEnd(x + "." + y) == |x|
    ensures FieldEnd(x) == |x|
  {
    if |x| > 0 {
      assert (x + "." + y)[1..] == x[1..] + "." + y;
      assert x[1..] + [] == x[1..];
      FieldEndOfPrefix(x[1..], y);
    }
  }

  /** The dot-separated fields of `s`; there is always at least one. */
  function Split(s: string): (fields: seq<string>)
    ensures |fields| >= 1
    decreases |s|
  {
    var i := FieldEnd(s);
    if i == |s| then [s] else [s[..i]] + Split(s[i + 1..])
  }

  /** Fields joined by '.'. */
  function Join(fields: seq<string>): string
    requires |fields| >= 1
  {
    if |fields| == 1 then fields[0] else fields[0] + "." + Join(fields[1..])
  }

  lemma {:induction false} JoinSplit(s: string)
    ensures Join(Split(s)) == s
    decreases |s|
  {
    var i := FieldEnd(s);
    if i < |s| {
      FieldEndIsDot(s);
      JoinSplit(s[i + 1..]);
      var fields := Split(s);
      assert fields[1..] == Split(s[i + 1..]);
      assert s == s[..i] + "." + s[i + 1..];
    }
  }

  lemma {:induction false} SplitJoin(fields: seq<string>)
    requires |fields| >= 1
    requires forall k :: 0 <= k < |fields| ==> '.' !in fields[k]
    ensures Split(Join(fields)) == fields
  {
    var x := fields[0];
    if |fields| == 1 {
      FieldEndOfPrefix(x, "");
    } else {
      var rest := Join(fields[1..]);
      var s := x + "." + rest;
      FieldEndOfPrefix(x, rest);
      assert s[..|x|] == x;
      assert s[|x| + 1..] == rest;
      SplitJoin(fields[1..]);
      assert [x] + fields[1..] == fields;
    }
  }

  /** Renderings of the octets, in order. */
  function Decimals(a: Addr): (ds: seq<string>)
    ensures |ds| == 4
  {
    [Decimal(a.o0 as int), Decimal(a.o1 as int), Decimal(a.o2 as int), Decimal(a.o3 as int)]
  }

  /** A decimal rendering of an octet has one to three digits. */
  lemma {:induction false} DecimalLength(n: nat)
    requires n < 1000
    ensures 1 <= |Decimal(n)|
    ensures n < 10 ==> |Decimal(n)| == 1
    ensures n < 100 ==> |Decimal(n)| <= 2
    ensures |Decimal(n)| <= 3
  {
    if n >= 10 {
      DecimalLength(n / 10);
    }
  }

  /** Dotted-decimal text of an address, as inet_ntoa renders it. */
  function Format(a: Addr): string
  {
    Join(Decimals(a))
  }

  /** The dot-separated fields of a rendering are the decimal renderings of
      the octets, and it fits inet_ntoa's 16-byte buffer with the
      terminating NUL. */
  lemma FormatFields(a: Addr)
    ensures Split(Format(a)) == Decimals(a)
    ensures 7 <= |Format(a)| <= 15
  {
    var ds := Decimals(a);
    forall k | 0 <= k < 4
      ensures '.' !in ds[k] && 1 <= |ds[k]| <= 3
    {
      DecimalIsCanonical(Octets(a)[k] as int);
      DecimalLength(Octets(a)[k] as int);
    }
    SplitJoin(ds);
    assert Join(ds[3..]) == ds[3];
    assert Join(ds[2..]) == ds[2] + "." + ds[3] by {
      assert ds[2..][1..] == ds[3..];
    }
    assert Join(ds[1..]) == ds[1] + "." + Join(ds[2..]) by {
      assert ds[1..][1..] == ds[2..];
    }
  }

  /** inet_pton(AF_INET, s, ...): the address `s` denotes, or None where it
      returns 0 -- fewer or more than four fields, an empty field, a
      non-digit, a leading zero, or a field above 255. */
  function Parse(s: string): Option<Addr>
  {
    var fields := Split(s);
    if |fields| != 4 then None
    else
      match (ParseOctet(fields[0]), ParseOctet(fields[1]), ParseOctet(fields[2]), ParseOctet(fields[3]))
      case (Some(o0), Some(o1), Some(o2), Some(o3)) => Some(Addr(o0, o1, o2, o3))
      case _ => None
  }

  /** An accepted string has four fields, each the canonical decimal
      rendering of its octet (no leading zero, no sign, at most 255), and so
      is at most 15 characters long. */
  lemma ParseFields(s: string)
    ensures Parse(s).Some? ==> Split(s) == Decimals(Parse(s).value)
    ensures Parse(s).Some? ==> 7 <= |s| <= 15
  {
    if Parse(s).Some? {
      var fields, a := Split(s), Parse(s).value;
      ParsedOctetIsDecimal(fields[0], a.o0);
      ParsedOctetIsDecimal(fields[1], a.o1);
      ParsedOctetIsDecimal(fields[2], a.o2);
      ParsedOctetIsDecimal(fields[3], a.o3);
      assert Decimals(a) == fields;
      JoinSplit(s);
      FormatFields(a);
    }
  }

  /** The check `inet_pton(AF_INET, ...) == 1`. */
  predicate IsValid(s: string) {
    Parse(s).Some?
  }

  /** Every rendered address is accepted and denotes the address rendered. */
  lemma ParseFormat(a: Addr)
    ensures Parse(Format(a)) == Some(a)
  {
    FormatFields(a);
    ParseDecimalOctet(a.o0);
    ParseDecimalOctet(a.o1);
    ParseDecimalOctet(a.o2);
    ParseDecimalOctet(a.o3);
  }

  /** Only canonical renderings are accepted: a string is valid exactly when
      it is the rendering of the address it denotes. */
  lemma FormatParse(s: string)
    requires IsValid(s)
    ensures Format(Parse(s).value) == s
  {
    ParseFields(s);
    JoinSplit(s);
  }

  /** Rendering is injective, so dotted strings identify addresses. */
  lemma FormatInjective(a: Addr, b: Addr)
    requires Format(a) == Format(b)
    ensures a == b
  {
    ParseFormat(a);
    ParseFormat(b);
  }

  /** The address read from four consecutive bytes of a frame, first byte first. */
  function AddrAt(bytes: seq<bv8>, at: nat): (a: Addr)
    requires at + 4 <= |bytes|
    ensures Octets(a) == bytes[at..at + 4]
  {
    Addr(bytes[at], bytes[at + 1], bytes[at + 2], bytes[at + 3])
  }

  /** A string passes the validity check exactly when it is the
      dotted-decimal rendering of some address. */
  lemma ValidIffRendering(s: string)
    ensures IsValid(s) <==> exists a :: Format(a) == s
  {
    if IsValid(s) {
      FormatParse(s);
    } else if a :| Format(a) == s {
      ParseFormat(a);
    }
  }

}
