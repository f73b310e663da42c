/** Dotted-quad text: `net.isIP(address) === 4`, `ipv4Number` and `ipv4Address`. */
module Ipv4Text {
  import opened Text
  import opened Ipv4

  predicate IsOctet(part: string) {
    && 1 <= |part| <= 3 && IsNumeral(part, 10) && ValueOf(part, 10) <= 255
    && (|part| > 1 ==> part[0] != '0')
  }

  predicate IsIpv4(address: string) {
    var parts := Split(address, '.');
    |parts| == 4 && forall i :: 0 <= i < 4 ==> IsOctet(parts[i])
  }

  function Ipv4Number(address: string): (value: nat)
    requires IsIpv4(address)
    ensures value < TWO_TO_32
  {
    var parts := Split(address, '.');
    FromOctets(seq(4, i requires 0 <= i < 4 => ValueOf(parts[i], 10)))
  }

  function Decimals(octets: seq<nat>): (parts: seq<string>)
    ensures |parts| == |octets|
    ensures forall i :: 0 <= i < |octets| ==> parts[i] == ToText(octets[i], 10)
  {
    seq(|octets|, i requires 0 <= i < |octets| => ToText(octets[i], 10))
  }

  function Ipv4Address(value: nat): string
    requires value < TWO_TO_32
  {
    Join(Decimals(Octets(value)), '.')
  }

  lemma OctetText(o: nat)
    requires o < 256
    ensures IsOctet(ToText(o, 10)) && ValueOf(ToText(o, 10), 10) == o
    ensures '.' !in ToText(o, 10) && '/' !in ToText(o, 10)
  {
    assert Power(10, 2) == 100;
    assert Power(10, 3) == 1000;
    TextLength(o, 10, 3);
    ValueOfText(o, 10);
    assert DigitOf('.') == 16 && DigitOf('/') == 16;
    if o < 10 {
      assert |ToText(o, 10)| == 1;
    }
  }

  lemma {:induction false} CharsOfJoin(parts: seq<string>, sep: char, c: char)
    requires c != sep && forall i :: 0 <= i < |parts| ==> c !in parts[i]
    ensures c !in Join(parts, sep)
  {
    if |parts| > 1 {
      CharsOfJoin(parts[1..], sep, c);
    }
  }

  /** Printing an address and reading it back gives the same value. */
  lemma Ipv4RoundTrip(value: nat)
    requires value < TWO_TO_32
    ensures IsIpv4(Ipv4Address(value)) && Ipv4Number(Ipv4Address(value)) == value
    ensures '/' !in Ipv4Address(value)
  {
    var octets := Octets(value);
    var parts := Decimals(octets);
    forall i | 0 <= i < 4
      ensures IsOctet(parts[i]) && ValueOf(parts[i], 10) == octets[i] && '.' !in parts[i] && '/' !in parts[i]
    {
      OctetText(octets[i]);
    }
    SplitJoin(parts, '.');
    CharsOfJoin(parts, '.', '/');
    assert seq(4, i requires 0 <= i < 4 => ValueOf(parts[i], 10)) == octets;
  }

  lemma {:induction false} CharsOfSplit(s: string, sep: char, c: char)
    requires c != sep && forall i :: 0 <= i < |Split(s, sep)| ==> c !in Split(s, sep)[i]
    ensures c !in s
  {
    if s != "" {
      var parts, rest := Split(s, sep), Split(s[1..], sep);
      assert s[0] == sep ==> parts[1..] == rest;
      assert s[0] != sep ==> parts[0] == [s[0]] + rest[0] && parts[1..] == rest[1..];
      forall i | 0 <= i < |rest|
        ensures c !in rest[i]
      {
        if s[0] == sep {
          assert rest[i] == parts[i + 1];
        } else if i > 0 {
          assert rest[i] == parts[i];
        }
      }
      CharsOfSplit(s[1..], sep, c);
    }
  }

  lemma Ipv4HasNoColon(address: string)
    requires IsIpv4(address)
    ensures ':' !in address
  {
    assert DigitOf(':') == 16;
    CharsOfSplit(address, '.', ':');
  }
}
