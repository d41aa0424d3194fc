/** `std::net::Ipv4Addr` and its strict dotted-decimal text form. */
module Ipv4 {
  import opened Wrappers
  import opened Text
  import opened Numbers

  datatype Ipv4Addr = Ipv4Addr(a: Byte, b: Byte, c: Byte, d: Byte)

  /** One to three digits, no superfluous zero, at most 255. */
  function ParseOctet(s: string): Option<Byte> {
    if 1 <= |s| <= 3 && IsPlainNumeral(s) && DecimalValue(s) <= 255 then Some(DecimalValue(s)) else None
  }

  /** `str::parse::<Ipv4Addr>().ok()`. */
  function ParseIpv4(s: string): Option<Ipv4Addr> {
    var parts := Split(s, '.');
    if |parts| != 4 then
      None
    else
      match (ParseOctet(parts[0]), ParseOctet(parts[1]), ParseOctet(parts[2]), ParseOctet(parts[3]))
      case (Some(a), Some(b), Some(c), Some(d)) => Some(Ipv4Addr(a, b, c, d))
      case _ => None
  }

  function ShowParts(ip: Ipv4Addr): (parts: seq<string>)
    ensures |parts| == 4
  {
    [Decimal(ip.a), Decimal(ip.b), Decimal(ip.c), Decimal(ip.d)]
  }

  /** `Display` of an address. */
  function ShowIpv4(ip: Ipv4Addr): string {
    Join(ShowParts(ip), ".")
  }

  /** Four decimal numerals, the first octet in front, with dots between them. */
  lemma ShowIpv4Is(a: Byte, b: Byte, c: Byte, d: Byte)
    ensures ShowIpv4(Ipv4Addr(a, b, c, d)) == Decimal(a) + "." + Decimal(b) + "." + Decimal(c) + "." + Decimal(d)
  {
    hide Decimal;
    JoinOfFour(Decimal(a), Decimal(b), Decimal(c), Decimal(d));
  }

  lemma JoinOfFour(a: string, b: string, c: string, d: string)
    ensures Join([a, b, c, d], ".") == a + "." + b + "." + c + "." + d
  {
    assert [a, b, c, d][1..] == [b, c, d] && [b, c, d][1..] == [c, d] && [c, d][1..] == [d];
    assert Join([c, d], ".") == c + "." + d;
    assert Join([b, c, d], ".") == b + "." + Join([c, d], ".");
    assert a + "." + (b + "." + (c + "." + d)) == a + "." + b + "." + c + "." + d;
  }

  /** An octet has exactly one accepted spelling. */
  lemma ParseOctetMeaning(s: string, b: Byte)
    ensures ParseOctet(s) == Some(b) <==> s == Decimal(b)
  {
    DecimalLength(b);
    DecimalIsPlain(b);
    ValueOfDecimal(b);
    if IsPlainNumeral(s) {
      DecimalOfValue(s);
    }
  }

  /** The parser accepts exactly the printed form of each address. */
  lemma ParseIpv4Meaning(s: string, ip: Ipv4Addr)
    ensures ParseIpv4(s) == Some(ip) <==> s == ShowIpv4(ip)
  {
    var shown := ShowParts(ip);
    SplitUndoesJoin(shown, '.');
    JoinUndoesSplit(s, '.');
    var parts := Split(s, '.');
    if |parts| == 4 {
      ParseOctetMeaning(parts[0], ip.a);
      ParseOctetMeaning(parts[1], ip.b);
      ParseOctetMeaning(parts[2], ip.c);
      ParseOctetMeaning(parts[3], ip.d);
      assert parts == [parts[0], parts[1], parts[2], parts[3]];
    }
  }

  lemma {:induction false} JoinOfDigits(parts: seq<string>)
    requires forall i :: 0 <= i < |parts| ==> AllDigits(parts[i])
    ensures forall i :: 0 <= i < |Join(parts, ".")| ==> IsDigit(Join(parts, ".")[i]) || Join(parts, ".")[i] == '.'
  {
    if |parts| > 1 {
      JoinOfDigits(parts[1..]);
    }
  }

  /** An address prints as digits and dots. */
  lemma DigitsAndDots(ip: Ipv4Addr)
    ensures var s := ShowIpv4(ip); s != [] && forall i :: 0 <= i < |s| ==> IsDigit(s[i]) || s[i] == '.'
  {
    JoinOfDigits(ShowParts(ip));
    assert ShowParts(ip)[0] != [];
    assert ShowIpv4(ip)[..|ShowParts(ip)[0]|] == ShowParts(ip)[0];
  }
}
