/** The MAC canonical form of src/leases.rs. */
module Mac {
  import opened Wrappers
  import opened Text
  import opened Numbers

  /** Every colon-separated part denotes a byte, and there are six of them. */
  predicate IsMac(mac: string) {
    var parts := Split(mac, ':');
    |parts| == 6 && forall i :: 0 <= i < 6 ==> ParseHexByte(parts[i]).Some?
  }

  /** The byte values of a MAC, or none when it is malformed. */
  function Octets(mac: string): (o: Option<seq<Byte>>)
    ensures o.Some? <==> IsMac(mac)
    ensures o.Some? ==> |o.value| == 6
  {
    var parts := Split(mac, ':');
    if IsMac(mac) then Some(seq(6, i requires 0 <= i < 6 => ParseHexByte(parts[i]).value)) else None
  }

  function ShowParts(octets: seq<Byte>): (parts: seq<string>)
    ensures |parts| == |octets|
    ensures forall i :: 0 <= i < |octets| ==> parts[i] == ShowHexByte(octets[i])
  {
    seq(|octets|, i requires 0 <= i < |octets| => ShowHexByte(octets[i]))
  }

  function ShowMac(octets: seq<Byte>): string {
    Join(ShowParts(octets), ":")
  }

  /**
   `normalize_mac`: six parts, each a byte, or nothing; a success is the
   two-digit lowercase spelling of the byte values.
   */
  method NormalizeMac(mac: string) returns (r: Option<string>)
    ensures r.Some? <==> IsMac(mac)
    ensures r.Some? ==> r.value == ShowMac(Octets(mac).value)
  {
    var octets := [];
    var parts := Split(mac, ':');
    for i := 0 to |parts|
      invariant |octets| == i
      invariant forall k :: 0 <= k < i ==>
        ParseHexByte(parts[k]).Some? && octets[k] == ShowHexByte(ParseHexByte(parts[k]).value)
    {
      var byte := ParseHexByte(parts[i]);
      if byte.None? {
        return None;
      }
      octets := octets + [ShowHexByte(byte.value)];
    }
    if |octets| != 6 {
      return None;
    }
    assert octets == ShowParts(Octets(mac).value);
    return Some(Join(octets, ":"));
  }

  /** What `NormalizeMac` returns, as a function for use in statements. */
  function Normal(mac: string): Option<string> {
    match Octets(mac)
    case None => None
    case Some(o) => Some(ShowMac(o))
  }

  /** The printed form reads back as the same bytes. */
  lemma OctetsOfShow(octets: seq<Byte>)
    requires |octets| == 6
    ensures Octets(ShowMac(octets)) == Some(octets)
  {
    var parts := ShowParts(octets);
    SplitUndoesJoin(parts, ':');
    forall i | 0 <= i < 6 ensures ParseHexByte(parts[i]) == Some(octets[i]) {
      ParseUndoesShow(octets[i]);
    }
    assert Octets(ShowMac(octets)).value == octets;
  }

  lemma ByteHasNoColon(part: string)
    requires ParseHexByte(part).Some?
    ensures Free(part, ':')
  {
    var digits := StripPlus(part);
    ParseHexByteMeaning(part, ParseHexByte(part).value);
    assert part == digits || part == ['+'] + digits;
  }

  ghost predicate SpellsBytes(parts: seq<string>, octets: seq<Byte>) {
    |parts| == |octets| == 6 && forall i :: 0 <= i < 6 ==> ParseHexByte(parts[i]) == Some(octets[i])
  }

  /** The well-formed MACs are exactly six spelt bytes with colons between them. */
  lemma OctetsIs(mac: string, octets: seq<Byte>)
    ensures Octets(mac) == Some(octets) <==> exists parts :: SpellsBytes(parts, octets) && mac == Join(parts, ":")
  {
    if Octets(mac) == Some(octets) {
      JoinUndoesSplit(mac, ':');
      assert SpellsBytes(Split(mac, ':'), octets);
    }
    if parts :| SpellsBytes(parts, octets) && mac == Join(parts, ":") {
      forall i | 0 <= i < 6 ensures Free(parts[i], ':') {
        ByteHasNoColon(parts[i]);
      }
      SplitUndoesJoin(parts, ':');
      assert Octets(mac).value == octets;
    }
  }

  lemma JoinOfSix(a: string, b: string, c: string, d: string, e: string, f: string)
    ensures Join([a, b, c, d, e, f], ":") == a + ":" + b + ":" + c + ":" + d + ":" + e + ":" + f
  {
    assert [a, b, c, d, e, f][1..] == [b, c, d, e, f];
    assert [b, c, d, e, f][1..] == [c, d, e, f];
    assert [c, d, e, f][1..] == [d, e, f];
    assert [d, e, f][1..] == [e, f];
    assert [e, f][1..] == [f];
    assert Join([e, f], ":") == e + ":" + f;
    assert Join([d, e, f], ":") == d + ":" + Join([e, f], ":");
    assert Join([c, d, e, f], ":") == c + ":" + Join([d, e, f], ":");
    assert Join([b, c, d, e, f], ":") == b + ":" + Join([c, d, e, f], ":");
    Nested(a, b, c, d, e, f);
  }

  lemma Nested(a: string, b: string, c: string, d: string, e: string, f: string)
    ensures a + ":" + (b + ":" + (c + ":" + (d + ":" + (e + ":" + f)))) ==
            a + ":" + b + ":" + c + ":" + d + ":" + e + ":" + f
  {
  }

  /** A byte as macOS prints it, without a leading zero. */
  function ShortByte(b: Byte): string {
    if b < 16 then [HexChar(b)] else ShowHexByte(b)
  }

  lemma ShortByteIs(b: Byte)
    ensures ParseHexByte(ShortByte(b)) == Some(b)
  {
    ParseUndoesShow(b);
    assert [HexChar(b % 16)][1..] == [];
  }

  /** The zero-stripped spelling of the lease file denotes the same bytes as the padded one. */
  lemma StrippedSpellingAgrees(octets: seq<Byte>)
    requires |octets| == 6
    ensures var o := octets;
            var stripped := ShortByte(o[0]) + ":" + ShortByte(o[1]) + ":" + ShortByte(o[2]) + ":"
                            + ShortByte(o[3]) + ":" + ShortByte(o[4]) + ":" + ShortByte(o[5]);
            Octets(stripped) == Some(octets) && Normal(stripped) == Some(ShowMac(octets))
  {
    var o := octets;
    forall i | 0 <= i < 6 ensures ParseHexByte(ShortByte(octets[i])) == Some(octets[i]) {
      ShortByteIs(octets[i]);
    }
    hide *;
    JoinOfSix(ShortByte(o[0]), ShortByte(o[1]), ShortByte(o[2]), ShortByte(o[3]), ShortByte(o[4]), ShortByte(o[5]));
    SixBytes(octets, ShortByte(o[0]), ShortByte(o[1]), ShortByte(o[2]), ShortByte(o[3]), ShortByte(o[4]),
             ShortByte(o[5]));
  }

  lemma SixBytes(octets: seq<Byte>, a: string, b: string, c: string, d: string, e: string, f: string)
    requires |octets| == 6
    requires ParseHexByte(a) == Some(octets[0]) && ParseHexByte(b) == Some(octets[1])
    requires ParseHexByte(c) == Some(octets[2]) && ParseHexByte(d) == Some(octets[3])
    requires ParseHexByte(e) == Some(octets[4]) && ParseHexByte(f) == Some(octets[5])
    ensures var mac := Join([a, b, c, d, e, f], ":");
            Octets(mac) == Some(octets) && Normal(mac) == Some(ShowMac(octets))
  {
    hide Octets, Join, ParseHexByte, ShowMac;
    assert SpellsBytes([a, b, c, d, e, f], octets);
    OctetsIs(Join([a, b, c, d, e, f], ":"), octets);
  }

  /** Two MACs normalise equally exactly when both are malformed or their bytes agree. */
  lemma NormalFormsAgree(m: string, n: string)
    ensures Normal(m) == Normal(n) <==> Octets(m) == Octets(n)
  {
    if Octets(m).Some? { OctetsOfShow(Octets(m).value); }
    if Octets(n).Some? { OctetsOfShow(Octets(n).value); }
  }

  /** Normalising a normal form changes nothing. */
  lemma NormalIsIdempotent(mac: string)
    requires IsMac(mac)
    ensures Normal(Normal(mac).value) == Normal(mac)
  {
    OctetsOfShow(Octets(mac).value);
  }

  /** A normal form has 17 characters, none of them an upper-case letter. */
  lemma NormalShape(mac: string)
    requires IsMac(mac)
    ensures |Normal(mac).value| == 17
    ensures forall i :: 0 <= i < 17 ==> !('A' <= Normal(mac).value[i] <= 'Z')
    ensures forall i :: 0 <= i < 17 ==> (Normal(mac).value[i] == ':' <==> i % 3 == 2)
  {
    ShowMacShape(Octets(mac).value);
  }

  lemma {:induction false} ShowMacShape(octets: seq<Byte>)
    requires octets != []
    ensures |ShowMac(octets)| == 3 * |octets| - 1
    ensures forall i :: 0 <= i < |ShowMac(octets)| ==>
      !('A' <= ShowMac(octets)[i] <= 'Z') && (ShowMac(octets)[i] == ':' <==> i % 3 == 2)
  {
    if |octets| > 1 {
      assert ShowParts(octets)[1..] == ShowParts(octets[1..]);
      ShowMacShape(octets[1..]);
      var rest := ShowMac(octets[1..]);
      assert ShowMac(octets) == ShowHexByte(octets[0]) + ":" + rest;
      forall i | 0 <= i < |ShowMac(octets)|
        ensures !('A' <= ShowMac(octets)[i] <= 'Z') && (ShowMac(octets)[i] == ':' <==> i % 3 == 2)
      {
        if i >= 3 {
          assert ShowMac(octets)[i] == rest[i - 3];
        }
      }
    }
  }
}
