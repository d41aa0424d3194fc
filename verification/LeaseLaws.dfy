/** What callers of the lease scanner may rely on: laws of `Leases.LeaseOf`. */
module LeaseLaws {
  import opened Wrappers
  import opened Text
  import opened Numbers
  import opened Mac
  import opened Ipv4
  import opened Leases

  // ---------- first matching record ----------

  /** The answer is the lease of the first piece, in text order, that grants one. */
  lemma LeaseIsFirstGrant(contents: string, mac: string, name: Option<string>)
    ensures IsFirstAnswer(Pieces(contents), Reader(Wanted(Octets(mac), name)), LeaseOf(contents, mac, name))
  {
    FirstOfIsFirst(Pieces(contents), Reader(Wanted(Octets(mac), name)));
  }

  // ---------- composition ----------

  predicate AtRecordEdge(a: string) {
    a == [] || IsBrace(a[|a| - 1])
  }

  lemma {:induction false} FirstBraceIs(body: string, c: char, rest: string)
    requires BraceFree(body) && IsBrace(c)
    ensures FirstBrace(body + [c] + rest) == |body|
  {
    var s := body + [c] + rest;
    if body != [] {
      assert s[1..] == body[1..] + [c] + rest;
      assert BraceFree(body[1..]);
      FirstBraceIs(body[1..], c, rest);
    }
  }

  lemma PiecesAtBrace(body: string, c: char, rest: string)
    requires BraceFree(body) && IsBrace(c)
    ensures Pieces(body + [c] + rest) == [Piece(body, c == '}')] + Pieces(rest)
  {
    FirstBraceIs(body, c, rest);
    var s := body + [c] + rest;
    assert s[..|body|] == body && s[|body| + 1..] == rest;
  }

  lemma ConsKeepsFront<T>(p: T, qs: seq<T>, rs: seq<T>)
    requires qs != []
    ensures ([p] + qs)[..|qs|] + rs == [p] + (qs[..|qs| - 1] + rs)
  {
  }

  lemma CutAtBrace(a: string) returns (body: string, c: char, rest: string)
    requires a != [] && AtRecordEdge(a)
    ensures a == body + [c] + rest
    ensures BraceFree(body) && IsBrace(c) && AtRecordEdge(rest)
  {
    var n := FirstBrace(a);
    assert a[..|a|] == a;
    body, c, rest := a[..n], a[n], a[n + 1..];
    assert rest != [] ==> rest[|rest| - 1] == a[|a| - 1];
  }

  lemma {:induction false} PiecesConcat(a: string, b: string)
    requires AtRecordEdge(a)
    ensures Pieces(a + b) == Pieces(a)[..|Pieces(a)| - 1] + Pieces(b)
    decreases |a|
  {
    if a == [] {
      assert a + b == b;
    } else {
      var body, c, rest := CutAtBrace(a);
      PiecesAtBrace(body, c, rest);
      assert a + b == body + [c] + (rest + b);
      PiecesAtBrace(body, c, rest + b);
      PiecesConcat(rest, b);
      ConsKeepsFront(Piece(body, c == '}'), Pieces(rest), Pieces(b));
    }
  }

  /** After a brace nothing of the earlier text is remembered: the scan composes. */
  lemma LeaseComposes(a: string, b: string, mac: string, name: Option<string>)
    requires AtRecordEdge(a)
    ensures LeaseOf(a + b, mac, name) == OrElse(LeaseOf(a, mac, name), LeaseOf(b, mac, name))
  {
    hide RecordLease, Octets, Pieces;
    var w := Wanted(Octets(mac), name);
    var ps := Pieces(a);
    var front, last := ps[..|ps| - 1], ps[|ps| - 1];
    PiecesConcat(a, b);
    FirstOfConcat(front, Pieces(b), Reader(w));
    assert ps == front + [last];
    FirstOfConcat(front, [last], Reader(w));
    FirstOfOne(last, Reader(w));
  }

  /** Records that grant us nothing can be inserted or deleted at any record edge. */
  lemma ForeignRecordsAreInert(a: string, foreign: string, b: string, mac: string, name: Option<string>)
    requires AtRecordEdge(a) && AtRecordEdge(foreign)
    requires LeaseOf(foreign, mac, name) == None
    ensures LeaseOf(a + foreign + b, mac, name) == LeaseOf(a + b, mac, name)
  {
    hide LeaseOf;
    LeaseComposes(a, foreign + b, mac, name);
    LeaseComposes(foreign, b, mac, name);
    LeaseComposes(a, b, mac, name);
    assert a + foreign + b == a + (foreign + b);
  }

  lemma UnclosedPiecesGrantNothing(ps: seq<Piece>, w: Wanted)
    requires forall k :: 0 <= k < |ps| ==> !ps[k].closed
    ensures FirstLease(ps, w) == None
  {
    FirstOfNone(ps, Reader(w));
  }

  lemma OpenTextGrantsNothing(cut: string, mac: string, name: Option<string>)
    requires BraceFree(cut)
    ensures LeaseOf(cut, mac, name) == None
    ensures LeaseOf(cut + "{", mac, name) == None
  {
    UnclosedPiecesGrantNothing(Pieces(cut), Wanted(Octets(mac), name));
    PiecesAtBrace(cut, '{', []);
    assert cut + "{" == cut + ['{'] + [];
    UnclosedPiecesGrantNothing(Pieces(cut + "{"), Wanted(Octets(mac), name));
  }

  /** Text that no `}` closes, before a `{` or at the end of the file, never counts. */
  lemma UnclosedTextIsInert(a: string, cut: string, b: string, mac: string, name: Option<string>)
    requires AtRecordEdge(a) && BraceFree(cut)
    ensures LeaseOf(a + cut + "{" + b, mac, name) == LeaseOf(a + b, mac, name)
    ensures LeaseOf(a + cut, mac, name) == LeaseOf(a, mac, name)
  {
    OpenTextGrantsNothing(cut, mac, name);
    ForeignRecordsAreInert(a, cut + "{", b, mac, name);
    assert a + (cut + "{") + b == a + cut + "{" + b;
    LeaseComposes(a, cut, mac, name);
  }

  // ---------- layout ----------

  /** Any blank between two tokens, or none next to a brace, will do. */
  lemma LayoutIsIgnored(a: string, gap: string, other: string, b: string, mac: string, name: Option<string>)
    requires IsGap(gap) && IsGap(other)
    requires (gap != [] && other != []) || Seam(a, b)
    ensures LeaseOf(a + gap + b, mac, name) == LeaseOf(a + other + b, mac, name)
  {
    TokensAcrossGap(a, gap, b);
    TokensAcrossGap(a, other, b);
    TokensDecide(a + gap + b, a + other + b, mac, name);
  }

  lemma TokensAcrossGap(a: string, gap: string, b: string)
    requires IsGap(gap) && (gap != [] || Seam(a, b))
    ensures Tokens(a + gap + b) == Tokens(a) + Tokens(b)
  {
    if gap == [] {
      assert a + gap + b == a + b;
      TokensConcat(a, b);
    } else {
      TokensConcat(a + gap, b);
      TokensConcat(a, gap);
      SpaceBracesFree(gap);
      WordsOfGap(gap);
    }
  }

  // ---------- spelling of the MACs ----------

  /** The spelling of the wanted MAC is immaterial: only its bytes count. */
  lemma WantedSpellingIsIgnored(contents: string, mac: string, respelled: string, name: Option<string>)
    requires Normal(respelled) == Normal(mac)
    ensures LeaseOf(contents, respelled, name) == LeaseOf(contents, mac, name)
  {
    NormalFormsAgree(mac, respelled);
  }

  /** Two fields that say the same, up to the spelling of a MAC. */
  predicate SameField(f: Field, g: Field) {
    f == g || (f.Hardware? && g.Hardware? && Octets(f.mac) == Octets(g.mac))
  }

  predicate IsToken(s: string) {
    IsWord(s) && BraceFree(s)
  }

  lemma TokensOfToken(t: string)
    requires IsToken(t)
    ensures Tokens(t) == [t]
  {
    SpaceBracesFree(t);
    WordsOfWord(t);
  }

  lemma {:induction false} RunRespelled(front: seq<string>, t: string, u: string, rest: seq<string>,
                                        ip: Option<Ipv4Addr>, hit: bool, w: Wanted)
    requires IsToken(t) && IsToken(u) && SameField(FieldOf(t), FieldOf(u))
    ensures Run(front + [t] + rest, ip, hit, w) == Run(front + [u] + rest, ip, hit, w)
  {
    var p, q := front + [t] + rest, front + [u] + rest;
    if front == [] {
      assert t != "{" && t != "}" && u != "{" && u != "}" by {
        assert "{"[0] == '{' && "}"[0] == '}';
      }
      assert p[0] == t && q[0] == u && p[1..] == rest && q[1..] == rest;
      assert p[..1] == [t] && q[..1] == [u];
      LastAddressOne(t, ip);
      LastAddressOne(u, ip);
    } else {
      assert p[1..] == front[1..] + [t] + rest && q[1..] == front[1..] + [u] + rest;
      assert p[..1] == q[..1];
      RunRespelled(front[1..], t, u, rest, None, false, w);
      RunRespelled(front[1..], t, u, rest, LastAddress(p[..1], ip), hit || Identifies(p[0], w), w);
    }
  }

  /** A field of the file may be respelled in place. */
  lemma FieldSpellingIsIgnored(a: string, t: string, u: string, b: string, mac: string, name: Option<string>)
    requires IsToken(t) && IsToken(u) && SameField(FieldOf(t), FieldOf(u))
    requires Seam(a, t) && Seam(t, b) && Seam(a, u) && Seam(u, b)
    ensures LeaseOf(a + t + b, mac, name) == LeaseOf(a + u + b, mac, name)
  {
    TokensConcat(a + t, b);
    TokensConcat(a, t);
    TokensConcat(a + u, b);
    TokensConcat(a, u);
    TokensOfToken(t);
    TokensOfToken(u);
    var w := Wanted(Octets(mac), name);
    RunRespelled(Tokens(a), t, u, Tokens(b), None, false, w);
    MachineReadsRecords(a + t + b, w);
    MachineReadsRecords(a + u + b, w);
  }

  lemma {:induction false} JoinEnds(parts: seq<string>, sep: string)
    requires parts != [] && parts[|parts| - 1] != []
    ensures Join(parts, sep) != []
    ensures Join(parts, sep)[|Join(parts, sep)| - 1] == parts[|parts| - 1][|parts[|parts| - 1]| - 1]
  {
    if |parts| > 1 {
      JoinEnds(parts[1..], sep);
    }
  }

  /** A well-formed MAC ends in a hexadecimal digit. */
  lemma MacEndsInHex(mac: string)
    requires IsMac(mac)
    ensures mac != [] && HexDigit(mac[|mac| - 1]).Some?
  {
    var parts := Split(mac, ':');
    JoinUndoesSplit(mac, ':');
    var part := parts[5];
    var digits := StripPlus(part);
    ParseHexByteMeaning(part, ParseHexByte(part).value);
    assert digits[|digits| - 1] == part[|part| - 1];
    JoinEnds(parts, ":");
  }

  predicate IsMacText(s: string) {
    forall i :: 0 <= i < |s| ==> HexDigit(s[i]).Some? || s[i] in {'+', ':'}
  }

  lemma {:induction false} JoinIsMacText(parts: seq<string>)
    requires forall i :: 0 <= i < |parts| ==> IsMacText(parts[i])
    ensures IsMacText(Join(parts, ":"))
  {
    if |parts| > 1 {
      JoinIsMacText(parts[1..]);
    }
  }

  /** A well-formed MAC holds digits, colons and plus signs only. */
  lemma MacIsMacText(mac: string)
    requires IsMac(mac)
    ensures IsMacText(mac)
  {
    var parts := Split(mac, ':');
    forall i | 0 <= i < |parts| ensures IsMacText(parts[i]) {
      var digits := StripPlus(parts[i]);
      ParseHexByteMeaning(parts[i], ParseHexByte(parts[i]).value);
      assert parts[i] == digits || parts[i] == ['+'] + digits;
    }
    JoinUndoesSplit(mac, ':');
    JoinIsMacText(parts);
  }

  lemma FieldIs(key: string, raw: string)
    requires Free(key, '=')
    ensures FieldOf(key + "=" + raw) == FieldFor(key, TrimEnd(raw, {';', ','}))
  {
    hide FieldFor, Free, TrimEnd;
    assert key + "=" + raw == key + ['='] + raw;
    SplitOnceAt(key, '=', raw);
  }

  lemma HardwareKey(key: string, value: string)
    requires key == "hw_address" || key == "identifier"
    ensures Free(key, '=') && FieldFor(key, value) == Hardware(BareMac(value))
  {
    hide ParseIpv4, BareMac;
  }

  /** Nothing, or a hardware type and its comma, as in `1,`. */
  predicate IsTypePrefix(front: string) {
    front == [] || (front[|front| - 1] == ',' && Free(front[..|front| - 1], ','))
  }

  /** The separators a value may be followed by. */
  predicate IsFieldEnd(end: string) {
    forall i :: 0 <= i < |end| ==> end[i] in {';', ','}
  }

  lemma BareMacOf(front: string, mac: string)
    requires IsTypePrefix(front) && Free(mac, ',')
    ensures BareMac(front + mac) == mac
  {
    if front == [] {
      assert front + mac == mac;
    } else {
      var kind := front[..|front| - 1];
      assert front + mac == kind + [','] + mac;
      SplitOnceAt(kind, ',', mac);
    }
  }

  lemma EndIsTrimmed(s: string, end: string)
    requires (s == [] || s[|s| - 1] !in {';', ','}) && IsFieldEnd(end)
    ensures TrimEnd(s + end, {';', ','}) == s
  {
    TrimEndOf(s, end, {';', ','});
  }

  /** A hardware field, with or without type prefix and separators, says its MAC. */
  lemma HardwareFieldSays(key: string, front: string, mac: string, end: string)
    requires key == "hw_address" || key == "identifier"
    requires IsTypePrefix(front) && IsMac(mac) && IsFieldEnd(end)
    ensures FieldOf(key + "=" + (front + mac + end)) == Hardware(mac)
  {
    hide IsMac, HexDigit, FieldFor, BareMac, TrimEnd, IsMacText, FieldOf, IsTypePrefix, IsFieldEnd;
    MacEndsInHex(mac);
    MacIsMacText(mac);
    NoCommaInMac(mac);
    HexIsNoSeparator(mac[|mac| - 1]);
    assert (front + mac)[|front + mac| - 1] == mac[|mac| - 1];
    EndIsTrimmed(front + mac, end);
    HardwareKey(key, front + mac);
    FieldIs(key, front + mac + end);
    BareMacOf(front, mac);
  }

  lemma NoCommaInMac(mac: string)
    requires IsMacText(mac)
    ensures Free(mac, ',')
  {
  }

  lemma HexIsNoSeparator(c: char)
    requires HexDigit(c).Some?
    ensures c !in {';', ','}
  {
  }

  /** MAC and separators fit into one token. */
  lemma HardwareToken(front: string, mac: string, end: string)
    requires IsToken(front) && IsMac(mac) && IsFieldEnd(end)
    ensures IsToken(front + (mac + end))
  {
    MacIsMacText(mac);
    hide IsMac;
    forall i | 0 <= i < |mac + end| ensures !IsAsciiSpace((mac + end)[i]) && !IsBrace((mac + end)[i]) {
    }
    hide IsToken;
    TokenOf(front, mac + end);
  }

  /**
   Respelling the MAC of a hardware field anywhere in the file, as in
   `52:54:0:...` for `52:54:00:...`, never changes the answer, with or without a type
   prefix in front of it and separators behind it.
   */
  lemma LeaseMacSpellingIsIgnored(a: string, key: string, front: string, m: string, n: string, end: string, b: string,
                                  mac: string, name: Option<string>)
    requires key == "hw_address" || key == "identifier"
    requires IsMac(m) && Octets(m) == Octets(n)
    requires IsTypePrefix(front) && IsFieldEnd(end) && IsToken(key + "=" + front)
    requires AtRecordEdge(a) || IsAsciiSpace(a[|a| - 1])
    requires b == [] || IsBrace(b[0]) || IsAsciiSpace(b[0])
    ensures LeaseOf(a + (key + "=" + (front + m + end)) + b, mac, name) ==
            LeaseOf(a + (key + "=" + (front + n + end)) + b, mac, name)
  {
    assert IsMac(n);
    var t, u := key + "=" + (front + m + end), key + "=" + (front + n + end);
    assert t == key + "=" + front + (m + end) && u == key + "=" + front + (n + end);
    hide IsMac, IsTypePrefix, IsFieldEnd, IsToken, FieldOf, LeaseOf;
    HardwareToken(key + "=" + front, m, end);
    HardwareToken(key + "=" + front, n, end);
    HardwareFieldSays(key, front, m, end);
    HardwareFieldSays(key, front, n, end);
    FieldSpellingIsIgnored(a, t, u, b, mac, name);
  }

  // ---------- what a field says, in its own characters ----------

  /** The word is a hardware field of the MAC: key, type prefix if any, MAC, separators if any. */
  ghost predicate IsHardwareWord(word: string, m: string) {
    exists key, front, end :: IsHardwareShape(word, key, front, m, end)
  }

  predicate IsHardwareShape(word: string, key: string, front: string, m: string, end: string) {
    && (key == "hw_address" || key == "identifier") && IsTypePrefix(front) && IsFieldEnd(end)
    && word == key + "=" + (front + m + end)
  }

  /** The word is a name field of the host name. */
  ghost predicate IsNameWord(word: string, host: string) {
    && (host == [] || host[|host| - 1] !in {';', ','})
    && exists end :: IsFieldEnd(end) && word == "name=" + (host + end)
  }

  /** The word is an address field that prints the address. */
  ghost predicate IsAddressWord(word: string, ip: Ipv4Addr) {
    exists end :: IsFieldEnd(end) && word == "ip_address=" + (ShowIpv4(ip) + end)
  }

  /** Key, value and separators of a word with an equals sign. */
  lemma WordParts(word: string) returns (key: string, value: string, end: string)
    requires SplitOnce(word, '=').Some?
    ensures Free(key, '=') && IsFieldEnd(end) && word == key + "=" + (value + end)
    ensures value == [] || value[|value| - 1] !in {';', ','}
    ensures FieldOf(word) == FieldFor(key, value)
  {
    hide FieldFor;
    var raw := SplitOnce(word, '=').value.1;
    key := SplitOnce(word, '=').value.0;
    value := TrimEnd(raw, {';', ','});
    end := raw[|value|..];
    assert raw == value + end;
    assert forall i :: 0 <= i < |end| ==> end[i] == raw[|value| + i];
  }

  lemma PrefixOfValue(value: string) returns (front: string)
    ensures IsTypePrefix(front) && value == front + BareMac(value)
  {
    match SplitOnce(value, ',')
    case None =>
      front := [];
      assert value == [] + value;
    case Some((kind, mac)) =>
      front := kind + [','];
      assert front[..|front| - 1] == kind;
  }

  /** A word identifies the VM exactly if it is a hardware field of the wanted bytes or a field of the given name. */
  lemma IdentifiesIs(word: string, w: Wanted)
    ensures Identifies(word, w) <==>
            (exists m :: IsHardwareWord(word, m) && IsMac(m) && w.mac == Octets(m))
            || (w.name.Some? && IsNameWord(word, w.name.value))
  {
    if Identifies(word, w) {
      IdentifiedIsShaped(word, w);
    }
    if m :| IsHardwareWord(word, m) && IsMac(m) && w.mac == Octets(m) {
      HardwareWordIs(word, m);
    }
    if w.name.Some? && IsNameWord(word, w.name.value) {
      NameWordIs(word, w.name.value);
    }
  }

  lemma IdentifiedIsShaped(word: string, w: Wanted)
    requires Identifies(word, w)
    ensures (exists m :: IsHardwareWord(word, m) && IsMac(m) && w.mac == Octets(m))
            || (w.name.Some? && IsNameWord(word, w.name.value))
  {
    hide IsMac, ParseIpv4, BareMac, TrimEnd;
    var key, value, end := WordParts(word);
    if FieldOf(word).Hardware? {
      var front := PrefixOfValue(value);
      var m := BareMac(value);
      assert key + "=" + (value + end) == key + "=" + (front + m + end);
      assert IsHardwareShape(word, key, front, m, end);
      assert IsHardwareWord(word, m);
    } else {
      assert key + "=" == "name=";
      assert IsNameWord(word, value);
    }
  }

  lemma HardwareWordIs(word: string, m: string)
    requires IsHardwareWord(word, m) && IsMac(m)
    ensures FieldOf(word) == Hardware(m)
  {
    hide FieldOf, IsMac, IsTypePrefix, IsFieldEnd;
    var key, front, end :| IsHardwareShape(word, key, front, m, end);
    HardwareFieldSays(key, front, m, end);
  }

  lemma NameWordIs(word: string, host: string)
    requires IsNameWord(word, host)
    ensures FieldOf(word) == HostName(host)
  {
    hide ParseIpv4;
    var end :| IsFieldEnd(end) && word == "name=" + (host + end);
    assert Free("name", '=') && "name" + "=" == "name=";
    EndIsTrimmed(host, end);
    FieldIs("name", host + end);
  }

  /** A word is an address field exactly if it starts like one, and says an address exactly if it prints it. */
  lemma AddressWordIs(word: string, ip: Ipv4Addr)
    ensures FieldOf(word).Address? <==> "ip_address=" <= word
    ensures FieldOf(word) == Address(Some(ip)) <==> IsAddressWord(word, ip)
  {
    assert Free("ip_address", '=') && "ip_address" + "=" == "ip_address=";
    hide ParseIpv4, ShowIpv4;
    if "ip_address=" <= word {
      var raw := word[11..];
      assert word == "ip_address=" + raw;
      FieldIs("ip_address", raw);
      ParseIpv4Meaning(TrimEnd(raw, {';', ','}), ip);
      AddressEnd(word, raw, ip);
    } else if SplitOnce(word, '=').Some? {
      var key, value, end := WordParts(word);
      assert key == "ip_address" ==> word == "ip_address=" + (value + end);
    }
  }

  lemma AddressEnd(word: string, raw: string, ip: Ipv4Addr)
    requires word == "ip_address=" + raw
    ensures TrimEnd(raw, {';', ','}) == ShowIpv4(ip) <==> IsAddressWord(word, ip)
  {
    ShowIpv4Shape(ip);
    hide ShowIpv4;
    var value := TrimEnd(raw, {';', ','});
    if value == ShowIpv4(ip) {
      var end := raw[|value|..];
      assert raw == value + end && forall i :: 0 <= i < |end| ==> end[i] == raw[|value| + i];
      assert IsFieldEnd(end);
    }
    if IsAddressWord(word, ip) {
      var end :| IsFieldEnd(end) && word == "ip_address=" + (ShowIpv4(ip) + end);
      assert word[11..] == raw && word[11..] == ShowIpv4(ip) + end;
      EndIsTrimmed(ShowIpv4(ip), end);
    }
  }

  /** The `j`-th word prints the address, and no later one is an address field. */
  ghost predicate IsLastAddress(words: seq<string>, j: int, ip: Ipv4Addr) {
    && 0 <= j < |words| && IsAddressWord(words[j], ip)
    && forall k :: j < k < |words| ==> !("ip_address=" <= words[k])
  }

  lemma {:induction false} LastAddressIs(words: seq<string>, ip: Ipv4Addr)
    ensures LastAddress(words, None) == Some(ip) <==> exists j :: IsLastAddress(words, j, ip)
  {
    hide FieldOf, IsAddressWord;
    if words != [] {
      var n := |words| - 1;
      AddressWordIs(words[n], ip);
      LastAddressIs(words[..n], ip);
      if FieldOf(words[n]).Address? {
        assert IsLastAddress(words, n, ip) <==> FieldOf(words[n]) == Address(Some(ip));
      } else {
        assert forall j :: IsLastAddress(words, j, ip) ==> IsLastAddress(words[..n], j, ip);
        assert forall j :: IsLastAddress(words[..n], j, ip) ==> IsLastAddress(words, j, ip);
      }
    }
  }

  /**
   The whole reading of a record in its own characters: it grants the address exactly
   if some word is a hardware field of the wanted bytes or a field of the given name,
   and the last address field prints the address.
   */
  lemma RecordLeaseIs(body: string, mac: string, name: Option<string>, ip: Ipv4Addr)
    ensures var words := Words(body);
            RecordLease(body, Wanted(Octets(mac), name)) == Some(ip) <==>
            && (exists i :: 0 <= i < |words| &&
                  ((exists m :: IsHardwareWord(words[i], m) && IsMac(m) && Octets(m) == Octets(mac))
                   || (name.Some? && IsNameWord(words[i], name.value))))
            && exists j :: IsLastAddress(words, j, ip)
  {
    hide Words, Identifies, IsHardwareWord, IsNameWord, IsMac, Octets, LastAddress, IsLastAddress;
    var words, w := Words(body), Wanted(Octets(mac), name);
    LastAddressIs(words, ip);
    forall i | 0 <= i < |words|
      ensures Identifies(words[i], w) <==>
              (exists m :: IsHardwareWord(words[i], m) && IsMac(m) && Octets(m) == Octets(mac))
              || (name.Some? && IsNameWord(words[i], name.value))
    {
      IdentifiesIs(words[i], w);
    }
  }

  // ---------- a record and its answer ----------

  /** Blanks, tabs, line feeds, form feeds and carriage returns, at least one. */
  predicate IsSeparator(gap: string) {
    gap != [] && forall i :: 0 <= i < |gap| ==> gap[i] in {' ', '\t', '\n', '\U{0C}', '\r'}
  }

  lemma WordsOfTwo(t: string, gap: string, u: string)
    requires IsToken(t) && IsToken(u) && IsSeparator(gap)
    ensures Words(t + gap + u) == [t, u] && BraceFree(t + gap + u)
  {
    assert IsGap(gap) && BraceFree(gap);
    assert EndsInSpace(t + gap) && StartsWithSpace(gap);
    WordsConcat(t + gap, u);
    WordsConcat(t, gap);
    WordsOfWord(t);
    WordsOfWord(u);
    WordsOfGap(gap);
  }

  lemma WordsOfThree(t: string, g: string, u: string, h: string, v: string)
    requires IsToken(t) && IsToken(u) && IsToken(v) && IsSeparator(g) && IsSeparator(h)
    ensures Words(t + g + u + h + v) == [t, u, v] && BraceFree(t + g + u + h + v)
  {
    WordsOfTwo(t, g, u);
    assert IsGap(h) && BraceFree(h);
    assert EndsInSpace(t + g + u + h) && StartsWithSpace(h);
    WordsConcat(t + g + u + h, v);
    WordsConcat(t + g + u, h);
    WordsOfWord(v);
    WordsOfGap(h);
    assert [t, u] + [] + [v] == [t, u, v];
  }

  lemma LeaseOfTwoWords(t: string, u: string, ip: Ipv4Addr, w: Wanted)
    requires FieldOf(u) == Address(Some(ip)) && !FieldOf(t).Address?
    ensures LastAddress([t, u], None) == Some(ip)
    ensures AnyIdentifies([t, u], w) <==> Identifies(t, w)
  {
    assert Identifies([t, u][0], w) == Identifies(t, w) && !Identifies([t, u][1], w);
  }

  lemma LeaseOfThreeWords(t: string, u: string, v: string, ip: Ipv4Addr, w: Wanted)
    requires FieldOf(u) == Address(Some(ip)) && !FieldOf(t).Address? && !FieldOf(v).Address?
    ensures LastAddress([t, u, v], None) == Some(ip)
    ensures AnyIdentifies([t, u, v], w) <==> Identifies(t, w) || Identifies(v, w)
  {
    LeaseOfTwoWords(t, u, ip, w);
    assert [t, u, v][..2] == [t, u];
    assert [t, u, v][0] == t && [t, u, v][1] == u && [t, u, v][2] == v;
  }

  function HardwareText(key: string, front: string, m: string, end: string): string {
    key + "=" + (front + m + end)
  }

  predicate IsHardwareField(key: string, front: string, m: string, end: string) {
    && (key == "hw_address" || key == "identifier") && IsMac(m)
    && IsTypePrefix(front) && IsFieldEnd(end) && IsToken(key + "=" + front)
  }

  lemma HardwareFieldIs(key: string, front: string, m: string, end: string)
    requires IsHardwareField(key, front, m, end)
    ensures IsToken(HardwareText(key, front, m, end)) && FieldOf(HardwareText(key, front, m, end)) == Hardware(m)
  {
    hide IsMac, IsTypePrefix, IsFieldEnd, IsToken, FieldOf;
    assert key + "=" + (front + m + end) == key + "=" + front + (m + end);
    HardwareToken(key + "=" + front, m, end);
    HardwareFieldSays(key, front, m, end);
  }

  /**
   A record of a hardware field and an address, anywhere in a file, grants its address
   exactly if the bytes of the MAC are the wanted ones; the rest of the file decides
   as it does by itself.
   */
  lemma HardwareRecordGrants(a: string, key: string, front: string, m: string, end: string, gap: string, ip: Ipv4Addr,
                             b: string, mac: string, name: Option<string>)
    requires AtRecordEdge(a) && IsHardwareField(key, front, m, end) && IsSeparator(gap)
    ensures LeaseOf(a + (HardwareText(key, front, m, end) + gap + ("ip_address=" + ShowIpv4(ip))) + "}" + b,
                    mac, name) ==
            OrElse(LeaseOf(a, mac, name),
                   OrElse(if Octets(m) == Octets(mac) then Some(ip) else None, LeaseOf(b, mac, name)))
  {
    hide FieldOf, IsToken, ShowIpv4, LeaseOf, Octets, IsMac, IsSeparator, HardwareText, BraceFree, IsTypePrefix,
         IsFieldEnd, LastAddress, AnyIdentifies, Words;
    var t, u, w := HardwareText(key, front, m, end), "ip_address=" + ShowIpv4(ip), Wanted(Octets(mac), name);
    HardwareFieldIs(key, front, m, end);
    AddressField(ip);
    WordsOfTwo(t, gap, u);
    LeaseOfTwoWords(t, u, ip, w);
    LeaseAroundRecord(a, t + gap + u, b, mac, name);
  }

  /** With a name field beside it, exactly if the bytes are the wanted ones or the name is the given one. */
  lemma NamedRecordGrants(a: string, key: string, front: string, m: string, end: string, g: string, ip: Ipv4Addr,
                          h: string, host: string, b: string, mac: string, name: Option<string>)
    requires AtRecordEdge(a) && IsHardwareField(key, front, m, end) && IsSeparator(g) && IsSeparator(h)
    requires CanBeLeased(host)
    ensures LeaseOf(a + (HardwareText(key, front, m, end) + g + ("ip_address=" + ShowIpv4(ip)) + h + ("name=" + host))
                    + "}" + b, mac, name) ==
            OrElse(LeaseOf(a, mac, name),
                   OrElse(if Octets(m) == Octets(mac) || name == Some(host) then Some(ip) else None,
                          LeaseOf(b, mac, name)))
  {
    hide FieldOf, IsToken, ShowIpv4, LeaseOf, Octets, IsMac, IsSeparator, HardwareText, BraceFree, IsTypePrefix,
         IsFieldEnd, LastAddress, AnyIdentifies, Words, CanBeLeased;
    var t, u, v := HardwareText(key, front, m, end), "ip_address=" + ShowIpv4(ip), "name=" + host;
    HardwareFieldIs(key, front, m, end);
    AddressField(ip);
    NameField(host);
    WordsOfThree(t, g, u, h, v);
    LeaseOfThreeWords(t, u, v, ip, Wanted(Octets(mac), name));
    LeaseAroundRecord(a, t + g + u + h + v, b, mac, name);
  }

  // ---------- order of the fields ----------

  predicate AddressesAgree(words: seq<string>) {
    forall v, u :: v in words && u in words && FieldOf(v).Address? && FieldOf(u).Address?
      ==> FieldOf(v) == FieldOf(u)
  }

  lemma {:induction false} LastAddressOfAgreeing(words: seq<string>, word: string)
    requires AddressesAgree(words) && word in words && FieldOf(word).Address?
    ensures LastAddress(words, None) == FieldOf(word).ip
  {
    hide FieldOf;
    var n := |words| - 1;
    if !FieldOf(words[n]).Address? {
      assert words == words[..n] + [words[n]];
      LastAddressOfAgreeing(words[..n], word);
    }
  }

  lemma {:induction false} LastAddressOfNone(words: seq<string>)
    requires forall v :: v in words ==> !FieldOf(v).Address?
    ensures LastAddress(words, None) == None
  {
    hide FieldOf;
    if words != [] {
      LastAddressOfNone(words[..|words| - 1]);
    }
  }

  /** A record without conflicting addresses is read as a set of fields. */
  lemma RecordIsASetOfFields(x: string, y: string, w: Wanted)
    requires forall v :: v in Words(x) <==> v in Words(y)
    requires AddressesAgree(Words(x))
    ensures RecordLease(x, w) == RecordLease(y, w)
  {
    var p, q := Words(x), Words(y);
    assert AddressesAgree(q);
    if i :| 0 <= i < |p| && Identifies(p[i], w) {
      assert p[i] in q;
    }
    if i :| 0 <= i < |q| && Identifies(q[i], w) {
      assert q[i] in p;
    }
    if v :| v in p && FieldOf(v).Address? {
      LastAddressOfAgreeing(p, v);
      LastAddressOfAgreeing(q, v);
    } else {
      LastAddressOfNone(p);
      LastAddressOfNone(q);
    }
  }

  predicate AtMostOneAddress(words: seq<string>) {
    forall i, j :: 0 <= i < j < |words| ==> !(FieldOf(words[i]).Address? && FieldOf(words[j]).Address?)
  }

  lemma LeaseAroundRecord(a: string, z: string, b: string, mac: string, name: Option<string>)
    requires AtRecordEdge(a) && BraceFree(z)
    ensures LeaseOf(a + z + "}" + b, mac, name) ==
            OrElse(LeaseOf(a, mac, name), OrElse(RecordLease(z, Wanted(Octets(mac), name)), LeaseOf(b, mac, name)))
  {
    var t := z + ['}'] + b;
    assert a + z + "}" + b == a + t;
    LeaseComposes(a, t, mac, name);
    PiecesAtBrace(z, '}', b);
    FirstLeaseCons(Piece(z, true), Pieces(b), Wanted(Octets(mac), name));
  }

  /** Reordering the fields of a record with at most one address never changes the answer. */
  lemma FieldOrderIsIgnored(a: string, x: string, y: string, b: string, mac: string, name: Option<string>)
    requires AtRecordEdge(a) && BraceFree(x) && BraceFree(y)
    requires multiset(Words(x)) == multiset(Words(y)) && AtMostOneAddress(Words(x))
    ensures LeaseOf(a + x + "}" + b, mac, name) == LeaseOf(a + y + "}" + b, mac, name)
  {
    var w := Wanted(Octets(mac), name);
    assert forall v :: v in Words(x) <==> v in multiset(Words(x));
    assert forall v :: v in Words(y) <==> v in multiset(Words(y));
    RecordIsASetOfFields(x, y, w);
    LeaseAroundRecord(a, x, b, mac, name);
    LeaseAroundRecord(a, y, b, mac, name);
  }

  predicate SaysNoAddress(words: seq<string>) {
    forall i :: 0 <= i < |words| ==> !FieldOf(words[i]).Address?
  }

  /** Fields that are no addresses do not touch the last address. */
  lemma {:induction false} LastAddressSkips(words: seq<string>, tail: seq<string>, before: Option<Ipv4Addr>)
    requires SaysNoAddress(tail)
    ensures LastAddress(words + tail, before) == LastAddress(words, before)
  {
    hide FieldOf;
    if tail == [] {
      assert words + tail == words;
    } else {
      var n := |tail| - 1;
      assert (words + tail)[..|words + tail| - 1] == words + tail[..n];
      LastAddressSkips(words, tail[..n], before);
    }
  }

  lemma MalformedAddressField(bad: string)
    requires ParseIpv4(TrimEnd(bad, {';', ','})) == None
    ensures FieldOf("ip_address=" + bad) == Address(None)
  {
    hide ParseIpv4;
    assert "ip_address" + "=" == "ip_address=";
    FieldIs("ip_address", bad);
  }

  lemma LastAddressIsMalformed(body: string, word: string, tail: string)
    requires EndsInSpace(body) && StartsWithSpace(tail) && IsWord(word) && FieldOf(word) == Address(None)
    requires SaysNoAddress(Words(tail))
    ensures LastAddress(Words(body + word + tail), None) == None
  {
    hide FieldOf, Words;
    WordsConcat(body + word, tail);
    WordsConcat(body, word);
    WordsOfWord(word);
    LastAddressSkips(Words(body) + [word], Words(tail), None);
  }

  /**
   A malformed address that no other address follows cancels all earlier ones of its
   record: the file reads as if the record were not there.
   */
  lemma LaterMalformedAddressCancels(a: string, body: string, bad: string, tail: string, b: string,
                                     mac: string, name: Option<string>)
    requires AtRecordEdge(a) && EndsInSpace(body) && StartsWithSpace(tail)
    requires IsWord("ip_address=" + bad) && ParseIpv4(TrimEnd(bad, {';', ','})) == None
    requires SaysNoAddress(Words(tail)) && BraceFree(body + ("ip_address=" + bad) + tail)
    ensures RecordLease(body + ("ip_address=" + bad) + tail, Wanted(Octets(mac), name)) == None
    ensures LeaseOf(a + (body + ("ip_address=" + bad) + tail) + "}" + b, mac, name) == LeaseOf(a + b, mac, name)
  {
    hide ParseIpv4, Octets, Words, AnyIdentifies, FieldOf, LeaseOf, BraceFree, TrimEnd, IsWord;
    MalformedAddressField(bad);
    LastAddressIsMalformed(body, "ip_address=" + bad, tail);
    LeaseAroundRecord(a, body + ("ip_address=" + bad) + tail, b, mac, name);
    LeaseComposes(a, b, mac, name);
  }

  // ---------- a malformed MAC ----------

  /** A name some field of a lease file can spell. */
  predicate CanBeLeased(name: string) {
    && (forall i :: 0 <= i < |name| ==> !IsAsciiSpace(name[i]) && !IsBrace(name[i]))
    && TrimEnd(name, {';', ','}) == name
  }

  lemma IdentifiedNameCanBeLeased(words: seq<string>, i: nat, name: string)
    requires i < |words| && IsWord(words[i]) && BraceFree(words[i])
    requires FieldOf(words[i]) == HostName(name)
    ensures CanBeLeased(name)
  {
    var word := words[i];
    var (key, raw) := SplitOnce(word, '=').value;
    assert name == TrimEnd(raw, {';', ','});
    forall k | 0 <= k < |name| ensures !IsAsciiSpace(name[k]) && !IsBrace(name[k]) {
      assert name[k] == raw[k] == word[|key| + 1 + k];
    }
  }

  lemma NoLeaseWithoutIdentity(ps: seq<Piece>, w: Wanted)
    requires forall k :: 0 <= k < |ps| ==> !AnyIdentifies(Words(ps[k].body), w)
    ensures FirstLease(ps, w) == None
  {
    FirstOfNone(ps, Reader(w));
  }

  lemma {:induction false} PiecesAreBraceFree(s: string)
    ensures forall k :: 0 <= k < |Pieces(s)| ==> BraceFree(Pieces(s)[k].body)
    decreases |s|
  {
    var n := FirstBrace(s);
    if n < |s| {
      PiecesAreBraceFree(s[n + 1..]);
    } else {
      assert s[..n] == s;
    }
  }

  const NOWHERE := Ipv4Addr(0, 0, 0, 0)

  /** A file that leases an address to the given name. */
  function NamingFile(name: string): string {
    "ip_address=" + ShowIpv4(NOWHERE) + " " + ("name=" + name) + "}"
  }

  lemma TokenOf(prefix: string, value: string)
    requires IsToken(prefix) && forall i :: 0 <= i < |value| ==> !IsAsciiSpace(value[i]) && !IsBrace(value[i])
    ensures IsToken(prefix + value)
  {
  }

  /** An address field says its address. */
  lemma AddressField(ip: Ipv4Addr)
    ensures IsToken("ip_address=" + ShowIpv4(ip))
    ensures FieldOf("ip_address=" + ShowIpv4(ip)) == Address(Some(ip))
  {
    hide IsDigit;
    var value := ShowIpv4(ip);
    ShowIpv4Shape(ip);
    ParseIpv4Meaning(value, ip);
    hide ShowIpv4, ParseIpv4, Decimal;
    assert Free("ip_address", '=') && IsToken("ip_address=");
    assert TrimEnd(value, {';', ','}) == value;
    hide IsToken;
    TokenOf("ip_address=", value);
    assert "ip_address" + "=" == "ip_address=";
    FieldIs("ip_address", value);
  }

  lemma ShowIpv4Shape(ip: Ipv4Addr)
    ensures var s := ShowIpv4(ip);
            && s != [] && s[|s| - 1] !in {';', ','}
            && (forall i :: 0 <= i < |s| ==> !IsAsciiSpace(s[i]) && !IsBrace(s[i]))
  {
    DigitsAndDots(ip);
  }

  lemma NameField(name: string)
    requires CanBeLeased(name)
    ensures IsToken("name=" + name)
    ensures FieldOf("name=" + name) == HostName(name)
  {
    hide ParseIpv4;
    assert Free("name", '=') && IsToken("name=");
    hide IsToken;
    TokenOf("name=", name);
    assert "name" + "=" == "name=";
    FieldIs("name", name);
  }

  lemma RecordOfTwo(address: string, word: string, ip: Ipv4Addr, w: Wanted)
    requires IsToken(address) && IsToken(word)
    requires FieldOf(address) == Address(Some(ip)) && !FieldOf(word).Address? && Identifies(word, w)
    ensures RecordLease(address + " " + word, w) == Some(ip)
    ensures BraceFree(address + " " + word)
  {
    WordsOfTwo(address, " ", word);
    assert [address, word][..1] == [address];
    LastAddressOne(address, None);
    assert Identifies([address, word][1], w);
  }

  lemma NamingFileGrants(name: string, mac: string)
    requires CanBeLeased(name)
    ensures LeaseOf(NamingFile(name), mac, Some(name)) == Some(NOWHERE)
  {
    hide FieldOf, RecordLease, ShowIpv4, IsToken, Octets, BraceFree, CanBeLeased;
    var address, word := "ip_address=" + ShowIpv4(NOWHERE), "name=" + name;
    AddressField(NOWHERE);
    NameField(name);
    RecordOfTwo(address, word, NOWHERE, Wanted(Octets(mac), Some(name)));
    var body := address + " " + word;
    LeaseAroundRecord([], body, [], mac, Some(name));
    assert [] + body + "}" + [] == NamingFile(name);
    UnclosedPiecesGrantNothing(Pieces([]), Wanted(Octets(mac), Some(name)));
  }

  /**
   The documented promise "a malformed MAC yields no lease" holds on every file
   exactly when no name is given or the name is one no field can spell.
   */
  lemma MalformedMacYieldsNothing(mac: string, name: Option<string>)
    requires !IsMac(mac)
    ensures (forall contents :: LeaseOf(contents, mac, name) == None) <==>
            name.None? || !CanBeLeased(name.value)
  {
    var w := Wanted(Octets(mac), name);
    if name.None? || !CanBeLeased(name.value) {
      forall contents ensures LeaseOf(contents, mac, name) == None {
        var ps := Pieces(contents);
        PiecesAreBraceFree(contents);
        forall k | 0 <= k < |ps| ensures !AnyIdentifies(Words(ps[k].body), w) {
          var words := Words(ps[k].body);
          WordsAvoid(ps[k].body, '{');
          WordsAvoid(ps[k].body, '}');
          if i :| 0 <= i < |words| && Identifies(words[i], w) {
            IdentifiedNameCanBeLeased(words, i, name.value);
          }
        }
        NoLeaseWithoutIdentity(ps, w);
      }
    } else {
      NamingFileGrants(name.value, mac);
    }
  }
}
