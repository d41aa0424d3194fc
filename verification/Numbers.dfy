/** Decimal and hexadecimal numerals, as Rust prints and parses them. */
module Numbers {
  import opened Wrappers

  type Byte = n: int | 0 <= n < 256

  // ---------- decimal ----------

  predicate IsDigit(c: char) {
    '0' <= c <= '9'
  }

  predicate AllDigits(s: string) {
    forall i :: 0 <= i < |s| ==> IsDigit(s[i])
  }

  function DigitOf(c: char): (d: nat)
    requires IsDigit(c)
    ensures d < 10
  {
    c as int - '0' as int
  }

  function DigitChar(d: nat): (c: char)
    requires d < 10
    ensures IsDigit(c) && DigitOf(c) == d
  {
    ('0' as int + d) as char
  }

  /** `ToString` of an unsigned integer. */
  function Decimal(n: nat): (s: string)
    ensures s != [] && AllDigits(s)
  {
    if n < 10 then [DigitChar(n)] else Decimal(n / 10) + [DigitChar(n % 10)]
  }

  /** The number a decimal numeral denotes. */
  function DecimalValue(s: string): nat
    requires AllDigits(s)
  {
    if s == [] then 0 else 10 * DecimalValue(s[..|s| - 1]) + DigitOf(s[|s| - 1])
  }

  /** A numeral without superfluous leading zeros. */
  predicate IsPlainNumeral(s: string) {
    s != [] && AllDigits(s) && (|s| > 1 ==> s[0] != '0')
  }

  lemma {:induction false} DecimalIsPlain(n: nat)
    ensures IsPlainNumeral(Decimal(n))
    ensures n > 0 ==> Decimal(n)[0] != '0'
  {
    if n >= 10 {
      DecimalIsPlain(n / 10);
    }
  }

  lemma {:induction false} ValueOfDecimal(n: nat)
    ensures DecimalValue(Decimal(n)) == n
  {
    if n < 10 {
      assert Decimal(n)[..0] == [];
    } else {
      ValueOfDecimal(n / 10);
      var s := Decimal(n);
      assert s[..|s| - 1] == Decimal(n / 10);
    }
  }

  lemma {:induction false} DecimalOfValue(s: string)
    requires IsPlainNumeral(s)
    ensures Decimal(DecimalValue(s)) == s
    ensures s[0] != '0' ==> DecimalValue(s) > 0
  {
    var front, last := s[..|s| - 1], s[|s| - 1];
    if front == [] {
      assert s == [last];
    } else {
      var value := DecimalValue(front);
      DecimalOfValue(front);
      assert s == front + [last];
      assert DecimalValue(s) == 10 * value + DigitOf(last) && front[0] == s[0] && value > 0;
      assert (10 * value + DigitOf(last)) / 10 == value && (10 * value + DigitOf(last)) % 10 == DigitOf(last);
      assert DigitChar(DigitOf(last)) == last;
    }
  }

  /** The numerals are those of positional notation to the base ten. */
  lemma DecimalIsPositional(n: nat, d: nat)
    requires d < 10
    ensures Decimal(d) == ["0123456789"[d]]
    ensures n > 0 ==> Decimal(10 * n + d) == Decimal(n) + ["0123456789"[d]]
  {
    assert (10 * n + d) / 10 == n && (10 * n + d) % 10 == d;
    assert forall k :: 0 <= k < 10 ==> "0123456789"[k] == ('0' as int + k) as char;
  }

  /** Printing numbers is injective. */
  lemma DecimalInjective(m: nat, n: nat)
    requires Decimal(m) == Decimal(n)
    ensures m == n
  {
    ValueOfDecimal(m);
    ValueOfDecimal(n);
  }

  lemma DecimalLength(n: nat)
    ensures n < 10 ==> |Decimal(n)| == 1
    ensures 10 <= n < 100 ==> |Decimal(n)| == 2
    ensures 100 <= n < 1000 ==> |Decimal(n)| == 3
    ensures n >= 1000 ==> |Decimal(n)| > 3
  {
    if n >= 1000 {
      assert |Decimal(n / 10)| >= 3 by { DecimalLength(n / 10); }
    }
  }

  // ---------- hexadecimal ----------

  /** `char::to_digit(16)`. */
  function HexDigit(c: char): (d: Option<nat>)
    ensures d.Some? ==> d.value < 16
  {
    if '0' <= c <= '9' then Some(c as int - '0' as int)
    else if 'a' <= c <= 'f' then Some(c as int - 'a' as int + 10)
    else if 'A' <= c <= 'F' then Some(c as int - 'A' as int + 10)
    else None
  }

  function HexChar(d: nat): (c: char)
    requires d < 16
    ensures HexDigit(c) == Some(d)
    ensures c != ':' && c != '+' && !('A' <= c <= 'Z')
  {
    if d < 10 then ('0' as int + d) as char else ('a' as int + (d - 10)) as char
  }

  /** The sixteen digits, in lower and in upper case, and no other character. */
  lemma HexDigitIs(c: char, d: nat)
    ensures HexDigit(c) == Some(d) <==> d < 16 && (c == "0123456789abcdef"[d] || c == "0123456789ABCDEF"[d])
  {
    assert forall k :: 0 <= k < 10 ==> "0123456789abcdef"[k] == "0123456789ABCDEF"[k] == ('0' as int + k) as char;
    assert forall k :: 10 <= k < 16 ==> "0123456789abcdef"[k] == ('a' as int + (k - 10)) as char;
    assert forall k :: 10 <= k < 16 ==> "0123456789ABCDEF"[k] == ('A' as int + (k - 10)) as char;
  }

  predicate AllHex(s: string) {
    forall i :: 0 <= i < |s| ==> HexDigit(s[i]).Some?
  }

  /** The number a hexadecimal numeral denotes, however long it is. */
  function HexValue(s: string): nat
    requires AllHex(s)
  {
    if s == [] then 0 else 16 * HexValue(s[..|s| - 1]) + HexDigit(s[|s| - 1]).value
  }

  /** The digit loop of `u8::from_str_radix`, which stops at the first overflow. */
  function AccumulateHex(s: string, acc: Byte): Option<Byte>
  {
    if s == [] then
      Some(acc)
    else
      match HexDigit(s[0])
      case None => None
      case Some(d) =>
        if acc * 16 + d > 255 then None else AccumulateHex(s[1..], acc * 16 + d)
  }

  function StripPlus(s: string): string {
    if s != [] && s[0] == '+' then s[1..] else s
  }

  /** `u8::from_str_radix(s, 16).ok()`: an optional plus sign, then digits. */
  function ParseHexByte(s: string): Option<Byte> {
    var digits := StripPlus(s);
    if digits == [] then None else AccumulateHex(digits, 0)
  }

  /** The positional value of `a` followed by `s`, for `a` already read. */
  function HexValueFrom(s: string, acc: nat): nat
    requires AllHex(s)
    decreases |s|
  {
    if s == [] then acc else HexValueFrom(s[1..], 16 * acc + HexDigit(s[0]).value)
  }

  lemma {:induction false} HexValueFromGrows(s: string, acc: nat)
    requires AllHex(s)
    ensures HexValueFrom(s, acc) >= acc
    decreases |s|
  {
    if s != [] {
      HexValueFromGrows(s[1..], 16 * acc + HexDigit(s[0]).value);
    }
  }

  lemma {:induction false} HexValueFromSnoc(s: string, acc: nat)
    requires AllHex(s) && s != []
    ensures HexValueFrom(s, acc) == 16 * HexValueFrom(s[..|s| - 1], acc) + HexDigit(s[|s| - 1]).value
    decreases |s|
  {
    if |s| > 1 {
      HexValueFromSnoc(s[1..], 16 * acc + HexDigit(s[0]).value);
      assert s[1..][..|s| - 2] == s[..|s| - 1][1..];
    } else {
      assert s[1..] == [] && s[..0] == [];
    }
  }

  lemma {:induction false} HexValueFromZero(s: string)
    requires AllHex(s)
    ensures HexValueFrom(s, 0) == HexValue(s)
  {
    if s != [] {
      HexValueFromSnoc(s, 0);
      HexValueFromZero(s[..|s| - 1]);
    }
  }

  lemma {:induction false} AccumulateHexMeaning(s: string, acc: Byte)
    ensures AccumulateHex(s, acc) ==
            if AllHex(s) && HexValueFrom(s, acc) < 256 then Some(HexValueFrom(s, acc)) else None
    decreases |s|
  {
    if s != [] && HexDigit(s[0]).Some? {
      var next := acc * 16 + HexDigit(s[0]).value;
      assert AllHex(s) <==> AllHex(s[1..]) by {
        assert AllHex(s[1..]) ==> forall i :: 1 <= i < |s| ==> s[i] == s[1..][i - 1];
      }
      if next <= 255 {
        AccumulateHexMeaning(s[1..], next);
      } else if AllHex(s) {
        HexValueFromGrows(s[1..], next);
      }
    }
  }

  /**
   The checked digit loop accepts exactly the numerals whose positional value
   fits in a byte, whatever their length, and returns that value.
   */
  lemma ParseHexByteMeaning(s: string, b: Byte)
    ensures ParseHexByte(s) == Some(b) <==>
            var digits := StripPlus(s);
            digits != [] && AllHex(digits) && HexValue(digits) == b
  {
    var digits := StripPlus(s);
    AccumulateHexMeaning(digits, 0);
    if AllHex(digits) {
      HexValueFromZero(digits);
    }
  }

  /** `format!("{byte:02x}")`. */
  function ShowHexByte(b: Byte): (s: string)
    ensures |s| == 2
  {
    [HexChar(b / 16), HexChar(b % 16)]
  }

  lemma ParseUndoesShow(b: Byte)
    ensures ParseHexByte(ShowHexByte(b)) == Some(b)
  {
    var s := ShowHexByte(b);
    assert s[1..] == [s[1]];
    assert AccumulateHex(s[1..], b / 16) == Some(b) by { assert s[1..][1..] == []; }
  }

  /** Two digits are a byte, the first one counting sixteen times. */
  lemma TwoDigitByte(high: nat, low: nat)
    requires high < 16 && low < 16
    ensures ParseHexByte(["0123456789abcdef"[high], "0123456789abcdef"[low]]) == Some(16 * high + low)
  {
    HexDigitIs("0123456789abcdef"[high], high);
    HexDigitIs("0123456789abcdef"[low], low);
    HexChars(high, low, "0123456789abcdef"[high], "0123456789abcdef"[low]);
  }

  lemma HexChars(high: nat, low: nat, h: char, l: char)
    requires HexDigit(h) == Some(high) && HexDigit(l) == Some(low)
    ensures ParseHexByte([h, l]) == Some(16 * high + low)
  {
    assert [h, l][1..] == [l] && [l][1..] == [];
    assert AccumulateHex([l], high) == Some(16 * high + low);
    assert AccumulateHex([h, l], 0) == AccumulateHex([l], high);
  }

  /** One plus sign in front changes no value, and a second one is refused. */
  lemma PlusIsIgnored(s: string)
    ensures ParseHexByte("+" + s) == if s != [] && s[0] == '+' then None else ParseHexByte(s)
  {
    var t := "+" + s;
    assert t[0] == '+' && t[1..] == s;
    assert StripPlus(t) == s;
    assert ParseHexByte(t) == if s == [] then None else AccumulateHex(s, 0);
    if s != [] && s[0] == '+' {
      assert HexDigit(s[0]).None?;
      assert AccumulateHex(s, 0) == None;
    } else {
      assert StripPlus(s) == s;
    }
  }

  /** Padding with a zero, as the configured MAC has it, changes no value. */
  lemma LeadingZeroIsIgnored(s: string)
    requires s != [] && s[0] != '+'
    ensures ParseHexByte("0" + s) == ParseHexByte(s)
  {
    assert ("0" + s)[1..] == s;
  }

  function Upper(c: char): char {
    if 'a' <= c <= 'z' then (c as int - 32) as char else c
  }

  function UpperAll(s: string): string {
    seq(|s|, i requires 0 <= i < |s| => Upper(s[i]))
  }

  lemma {:induction false} AccumulateHexUpper(s: string, acc: Byte)
    ensures AccumulateHex(UpperAll(s), acc) == AccumulateHex(s, acc)
    decreases |s|
  {
    if s != [] {
      assert UpperAll(s)[1..] == UpperAll(s[1..]);
      assert HexDigit(Upper(s[0])) == HexDigit(s[0]);
      if HexDigit(s[0]).Some? {
        var next := acc * 16 + HexDigit(s[0]).value;
        if next <= 255 {
          AccumulateHexUpper(s[1..], next);
        }
      }
    }
  }

  /** The case of the hexadecimal digits changes no value. */
  lemma CaseIsIgnored(s: string)
    ensures ParseHexByte(UpperAll(s)) == ParseHexByte(s)
  {
    AccumulateHexUpper(StripPlus(s), 0);
    assert s != [] ==> UpperAll(s)[1..] == UpperAll(s[1..]);
    assert UpperAll(StripPlus(s)) == StripPlus(UpperAll(s));
  }
}
