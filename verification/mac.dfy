/** Hardware addresses as the capture side renders them: each octet as two
    upper-case hexadecimal digits, zero-padded, joined by ':'. */
module Mac {

  /** Link-layer broadcast, the destination used when a device's MAC is unknown. */
  const Broadcast: string := "FF:FF:FF:FF:FF:FF"

  predicate IsHexDigit(c: char) {
    '0' <= c <= '9' || 'A' <= c <= 'F'
  }

  /** The textual shape of a rendered six-octet address. */
  predicate IsMacText(s: string) {
    |s| == 17 &&
    forall i :: 0 <= i < 17 ==> if i % 3 == 2 then s[i] == ':' else IsHexDigit(s[i])
  }

  /** A nibble as an upper-case hexadecimal digit. */
  function HexDigit(n: nat): (c: char)
    requires n < 16
    ensures IsHexDigit(c)
  {
    if n < 10 then ('0' as int + n) as char else ('A' as int + n - 10) as char
  }

  function High(b: bv8): nat { b as int / 16 }

  function Low(b: bv8): nat { b as int % 16 }

  /** Octets as `setw(2) << setfill('0') << uppercase << hex` prints each, joined by ':'. */
  function Join(m: seq<bv8>): (s: string)
    requires |m| >= 1
    ensures |s| == 3 * |m| - 1
    ensures forall i :: 0 <= i < |m| ==> s[3 * i] == HexDigit(High(m[i])) && s[3 * i + 1] == HexDigit(Low(m[i]))
    ensures forall i :: 0 <= i < |m| - 1 ==> s[3 * i + 2] == ':'
  {
    var head := [HexDigit(High(m[0])), HexDigit(Low(m[0]))];
    if |m| == 1 then head
    else
      var rest := Join(m[1..]);
      var s := head + ":" + rest;
      forall i | 1 <= i < |m|
        ensures s[3 * i] == HexDigit(High(m[i])) && s[3 * i + 1] == HexDigit(Low(m[i]))
      {
        assert m[i] == m[1..][i - 1];
        assert s[3 * i] == rest[3 * (i - 1)];
        assert s[3 * i + 1] == rest[3 * (i - 1) + 1];
      }
      forall i | 1 <= i < |m| - 1
        ensures s[3 * i + 2] == ':'
      {
        assert s[3 * i + 2] == rest[3 * (i - 1) + 2];
      }
      s
  }

  /** The key under which an ARP sender is deduplicated: always 17 characters. */
  function Format(m: seq<bv8>): (s: string)
    requires |m| == 6
    ensures IsMacText(s)
  {
    var s := Join(m);
    assert IsMacText(s) by {
      forall i | 0 <= i < 17
        ensures if i % 3 == 2 then s[i] == ':' else IsHexDigit(s[i])
      {
        var k := i / 3;
        assert i == 3 * k + i % 3;
        if i % 3 == 0 {
          assert s[i] == HexDigit(High(m[k]));
        } else if i % 3 == 1 {
          assert s[i] == HexDigit(Low(m[k]));
        }
      }
    }
    s
  }

  /** Distinct addresses render differently, so deduplicating by the text is
      deduplicating by the address. */
  lemma NibblesDetermineOctet(a: bv8, b: bv8)
    requires High(a) == High(b) && Low(a) == Low(b)
    ensures a == b
  {
    var x, y := a as int, b as int;
    assert x == 16 * (x / 16) + x % 16;
    assert y == 16 * (y / 16) + y % 16;
    assert x == y;
  }

  lemma HexDigitInjective(a: nat, b: nat)
    requires a < 16 && b < 16 && HexDigit(a) == HexDigit(b)
    ensures a == b
  {
  }

  lemma JoinInjective(m: seq<bv8>, n: seq<bv8>)
    requires |m| == |n| >= 1 && Join(m) == Join(n)
    ensures m == n
  {
    forall i | 0 <= i < |m|
      ensures m[i] == n[i]
    {
      var s := Join(m);
      assert s[3 * i] == HexDigit(High(m[i])) == HexDigit(High(n[i]));
      assert s[3 * i + 1] == HexDigit(Low(m[i])) == HexDigit(Low(n[i]));
      HexDigitInjective(High(m[i]), High(n[i]));
      HexDigitInjective(Low(m[i]), Low(n[i]));
      NibblesDetermineOctet(m[i], n[i]);
    }
  }

  lemma FormatInjective(m: seq<bv8>, n: seq<bv8>)
    requires |m| == 6 && |n| == 6 && Format(m) == Format(n)
    ensures m == n
  {
    JoinInjective(m, n);
  }

  lemma AllOnesFormat(m: seq<bv8>)
    requires |m| == 6 && forall k :: 0 <= k < 6 ==> m[k] == 0xFF
    ensures Format(m) == Broadcast
  {
    var s := Format(m);
    assert High(0xFF) == 15 && Low(0xFF) == 15;
    assert HexDigit(15) == 'F';
    forall i | 0 <= i < 17
      ensures s[i] == Broadcast[i]
    {
      var k := i / 3;
      if i % 3 == 0 {
        assert s[3 * k] == HexDigit(High(m[k]));
      } else if i % 3 == 1 {
        assert s[3 * k + 1] == HexDigit(Low(m[k]));
      } else {
        assert s[3 * k + 2] == ':';
      }
    }
  }

  /** The broadcast text is the rendering of the all-ones address. */
  lemma BroadcastIsAllOnes()
    ensures Format([0xFF, 0xFF, 0xFF, 0xFF, 0xFF, 0xFF]) == Broadcast
  {
    AllOnesFormat([0xFF, 0xFF, 0xFF, 0xFF, 0xFF, 0xFF]);
  }

}
