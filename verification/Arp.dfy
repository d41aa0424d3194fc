/** The scan of `arp -an` output in src/leases.rs. */
module Arp {
  import opened Wrappers
  import opened Text
  import opened Numbers
  import opened Mac
  import opened Ipv4

  /** The address one row assigns to the given MAC bytes: `? (192.168.64.5) at 52:54:0:12:34:56 ...` */
  function RowAddress(line: string, octets: seq<Byte>): Option<Ipv4Addr> {
    var parts := Words(line);
    if |parts| >= 4 && parts[2] == "at" && Octets(parts[3]) == Some(octets)
    then ParseIpv4(TrimBoth(parts[1], {'(', ')'}))
    else None
  }

  function RowReader(octets: seq<Byte>): string -> Option<Ipv4Addr> {
    line => RowAddress(line, octets)
  }

  function ArpLookup(output: string, mac: string): Option<Ipv4Addr> {
    if IsMac(mac) then FirstOf(Lines(output), RowReader(Octets(mac).value)) else None
  }

  /** The body of the row loop: rows are compared by normal form. */
  method ReadRow(line: string, wanted: string, ghost octets: seq<Byte>) returns (r: Option<Ipv4Addr>)
    requires |octets| == 6 && wanted == ShowMac(octets)
    ensures r == RowAddress(line, octets)
  {
    hide Words, ParseIpv4, TrimBoth, IsMac, Octets, ShowMac;
    var parts := Words(line);
    if |parts| >= 4 && parts[2] == "at" {
      var ipPart := TrimBoth(parts[1], {'(', ')'});
      var norm := NormalizeMac(parts[3]);
      OctetsOfShow(octets);
      if norm.Some? {
        OctetsOfShow(Octets(parts[3]).value);
        if norm.value == wanted {
          return ParseIpv4(ipPart);
        }
      }
    }
    return None;
  }

  /** `find_in_arp`: a row whose address does not parse is passed over. */
  method FindInArp(output: string, mac: string) returns (r: Option<Ipv4Addr>)
    ensures r == ArpLookup(output, mac)
  {
    hide RowAddress, Lines, IsMac, Octets, ShowMac;
    var wanted := NormalizeMac(mac);
    if wanted.None? {
      return None;
    }
    ghost var octets := Octets(mac).value;
    var lines := Lines(output);
    ghost var f := RowReader(octets);
    for i := 0 to |lines|
      invariant forall k :: 0 <= k < i ==> f(lines[k]).None?
    {
      var ip := ReadRow(lines[i], wanted.value, octets);
      if ip.Some? {
        FirstOfAt(lines, f, i);
        return ip;
      }
    }
    FirstOfNone(lines, f);
    return None;
  }

  /** The answer is the first row, in output order, whose bytes match and whose address parses. */
  lemma ArpLookupIsFirstRow(output: string, mac: string)
    requires IsMac(mac)
    ensures IsFirstAnswer(Lines(output), RowReader(Octets(mac).value), ArpLookup(output, mac))
  {
    FirstOfIsFirst(Lines(output), RowReader(Octets(mac).value));
  }

  /** The configured spelling of the MAC is immaterial. */
  lemma ArpSpellingIsIgnored(output: string, mac: string, respelled: string)
    requires Normal(respelled) == Normal(mac)
    ensures ArpLookup(output, respelled) == ArpLookup(output, mac)
  {
    NormalFormsAgree(mac, respelled);
  }

  /** Whole lines compose: the earlier output wins, and rows that do not match are inert. */
  lemma ArpComposes(a: string, b: string, mac: string)
    requires a == [] || a[|a| - 1] == '\n'
    ensures ArpLookup(a + b, mac) == OrElse(ArpLookup(a, mac), ArpLookup(b, mac))
  {
    LinesConcat(a, b);
    if IsMac(mac) {
      FirstOfConcat(Lines(a), Lines(b), RowReader(Octets(mac).value));
    }
  }

  // ---------- a row and its answer ----------

  predicate IsSpace(gap: string) {
    gap != [] && forall i :: 0 <= i < |gap| ==> gap[i] in {' ', '\t'}
  }

  lemma GapIs(gap: string)
    requires IsSpace(gap)
    ensures IsGap(gap)
  {
  }

  lemma WordThenRest(word: string, gap: string, rest: string)
    requires IsWord(word) && IsSpace(gap)
    ensures Words(word + gap + rest) == [word] + Words(rest)
  {
    GapIs(gap);
    assert EndsInSpace(word + gap) && StartsWithSpace(gap);
    WordsConcat(word + gap, rest);
    WordsConcat(word, gap);
    WordsOfWord(word);
    WordsOfGap(gap);
  }

  /** The first four words of a row, whatever follows them. */
  lemma RowWords(host: string, ip: string, m: string, gap: string, rest: string)
    requires IsWord(host) && IsWord(ip) && IsWord(m) && IsSpace(gap) && StartsWithSpace(rest)
    ensures Words(host + gap + (ip + gap + ("at" + gap + (m + rest)))) == [host, ip, "at", m] + Words(rest)
  {
    assert IsWord("at");
    hide Words, IsWord, IsSpace, StartsWithSpace;
    WordsConcat(m, rest);
    WordsOfWord(m);
    WordThenRest("at", gap, m + rest);
    WordThenRest(ip, gap, "at" + gap + (m + rest));
    WordThenRest(host, gap, ip + gap + ("at" + gap + (m + rest)));
    FourInFront(host, ip, "at", m, Words(rest));
  }

  lemma FourInFront(a: string, b: string, c: string, d: string, rest: seq<string>)
    ensures [a] + ([b] + ([c] + ([d] + rest))) == [a, b, c, d] + rest
  {
  }

  lemma TrimmedParentheses(s: string)
    requires s != [] && s[0] !in {'(', ')'} && s[|s| - 1] !in {'(', ')'}
    ensures TrimBoth("(" + s + ")", {'(', ')'}) == s
  {
    hide TrimStart, TrimEnd;
    assert "(" + s + ")" == "(" + (s + ")");
    TrimStartOf("(", s + ")", {'(', ')'});
    TrimEndOf(s, ")", {'(', ')'});
  }

  lemma AddressWord(ip: Ipv4Addr)
    ensures IsWord("(" + ShowIpv4(ip) + ")")
    ensures ParseIpv4(TrimBoth("(" + ShowIpv4(ip) + ")", {'(', ')'})) == Some(ip)
  {
    hide ShowIpv4, ParseIpv4, TrimBoth;
    var s := ShowIpv4(ip);
    DigitsAndDots(ip);
    ParseIpv4Meaning(s, ip);
    InParentheses(s);
  }

  lemma InParentheses(s: string)
    requires s != [] && forall i :: 0 <= i < |s| ==> IsDigit(s[i]) || s[i] == '.'
    ensures IsWord("(" + s + ")") && TrimBoth("(" + s + ")", {'(', ')'}) == s
  {
    hide TrimBoth;
    TrimmedParentheses(s);
    forall i | 0 <= i < |s| ensures !IsAsciiSpace(s[i]) {
    }
  }

  /**
   A row as `arp -an` prints it gives its address exactly if the bytes of its MAC are the
   wanted ones, whatever host name stands in front and whatever follows the MAC.
   */
  lemma RowGives(host: string, ip: Ipv4Addr, m: string, gap: string, rest: string, mac: string)
    requires IsWord(host) && IsWord(m) && IsSpace(gap) && StartsWithSpace(rest) && IsMac(mac)
    ensures var row := host + gap + ("(" + ShowIpv4(ip) + ")" + gap + ("at" + gap + (m + rest)));
            RowAddress(row, Octets(mac).value) == if Octets(m) == Octets(mac) then Some(ip) else None
  {
    hide ShowIpv4, ParseIpv4, TrimBoth, Words, IsMac, Octets, IsWord, IsSpace, StartsWithSpace;
    AddressWord(ip);
    RowWords(host, "(" + ShowIpv4(ip) + ")", m, gap, rest);
  }

  /** The lookup over whole output: rows in front that give nothing, such a row, and anything after it. */
  lemma ArpFindsRow(before: string, host: string, ip: Ipv4Addr, m: string, gap: string, rest: string, after: string,
                    mac: string)
    requires before == [] || before[|before| - 1] == '\n'
    requires IsWord(host) && IsWord(m) && IsSpace(gap) && StartsWithSpace(rest) && IsMac(mac)
    requires Free(rest, '\n') && Free(rest, '\r')
    ensures var row := host + gap + ("(" + ShowIpv4(ip) + ")" + gap + ("at" + gap + (m + rest)));
            ArpLookup(before + (row + "\n" + after), mac) ==
            OrElse(ArpLookup(before, mac),
                   OrElse(if Octets(m) == Octets(mac) then Some(ip) else None, ArpLookup(after, mac)))
  {
    var address := "(" + ShowIpv4(ip) + ")";
    AddressWord(ip);
    RowIsOneLine(host, address, m, gap, rest);
    RowGives(host, ip, m, gap, rest, mac);
    var row := host + gap + (address + gap + ("at" + gap + (m + rest)));
    hide ShowIpv4, RowAddress, Lines, IsMac, Octets, IsWord, IsSpace, StartsWithSpace, Free, ChompReturn;
    ArpComposes(before, row + "\n" + after, mac);
    assert row + "\n" + after == row + ['\n'] + after;
    LinesCons(row, after);
    FirstOfConcat([row], Lines(after), RowReader(Octets(mac).value));
    FirstOfOne(row, RowReader(Octets(mac).value));
  }

  lemma WordIsOneLine(word: string)
    requires IsWord(word)
    ensures Free(word, '\n') && Free(word, '\r')
  {
  }

  lemma RowIsOneLine(host: string, address: string, m: string, gap: string, rest: string)
    requires IsWord(host) && IsWord(address) && IsWord(m) && IsSpace(gap)
    requires Free(rest, '\n') && Free(rest, '\r')
    ensures var row := host + gap + (address + gap + ("at" + gap + (m + rest)));
            Free(row, '\n') && ChompReturn(row) == row
  {
    assert IsWord("at") && Free(gap, '\n') && Free(gap, '\r');
    WordIsOneLine(host);
    WordIsOneLine(address);
    WordIsOneLine(m);
    WordIsOneLine("at");
    hide IsWord, IsSpace, Free;
    FreeRow(host, address, m, gap, rest, '\n');
    FreeRow(host, address, m, gap, rest, '\r');
    NothingToChomp(host + gap + (address + gap + ("at" + gap + (m + rest))));
  }

  lemma NothingToChomp(line: string)
    requires Free(line, '\r')
    ensures ChompReturn(line) == line
  {
  }

  lemma FreeRow(host: string, address: string, m: string, gap: string, rest: string, c: char)
    requires Free(host, c) && Free(address, c) && Free(m, c) && Free(gap, c) && Free(rest, c) && Free("at", c)
    ensures Free(host + gap + (address + gap + ("at" + gap + (m + rest))), c)
  {
    hide Free;
    FreeConcat(m, rest, c);
    FreeConcat("at", gap, c);
    FreeConcat("at" + gap, m + rest, c);
    FreeConcat(address, gap, c);
    FreeConcat(address + gap, "at" + gap + (m + rest), c);
    FreeConcat(host, gap, c);
    FreeConcat(host + gap, address + gap + ("at" + gap + (m + rest)), c);
  }

  /** A row with fewer than four words, or another third word, gives nothing. */
  lemma OtherRowsGiveNothing(line: string, octets: seq<Byte>)
    requires |Words(line)| < 4 || Words(line)[2] != "at"
    ensures RowAddress(line, octets) == None
  {
  }
}
