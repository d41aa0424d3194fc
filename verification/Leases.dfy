/**
 The lease scanner of src/leases.rs: a single pass over the tokens with three
 registers, and the record-wise reading it implements.
 */
module Leases {
  import opened Wrappers
  import opened Text
  import opened Numbers
  import opened Mac
  import opened Ipv4

  // ---------- tokens and fields ----------

  predicate IsBrace(c: char) {
    c == '{' || c == '}'
  }

  predicate BraceFree(s: string) {
    Free(s, '{') && Free(s, '}')
  }

  /** Set every brace off with blanks, as the two `replace` calls do. */
  function SpaceBraces(s: string): string {
    Replace(Replace(s, '{', " { "), '}', " } ")
  }

  function Tokens(s: string): seq<string> {
    Words(SpaceBraces(s))
  }

  /** What one token of a record says. */
  datatype Field =
    | Address(ip: Option<Ipv4Addr>)
    | Hardware(mac: string)
    | HostName(host: string)
    | Other

  /** The value of a hardware field without its type prefix, as in `1,52:54:0:12:34:56`. */
  function BareMac(value: string): string {
    match SplitOnce(value, ',')
    case None => value
    case Some((_, mac)) => mac
  }

  function FieldFor(key: string, value: string): Field {
    if key == "ip_address" then Address(ParseIpv4(value))
    else if key == "hw_address" || key == "identifier" then Hardware(BareMac(value))
    else if key == "name" then HostName(value)
    else Other
  }

  function FieldOf(word: string): Field {
    match SplitOnce(word, '=')
    case None => Other
    case Some((key, raw)) => FieldFor(key, TrimEnd(raw, {';', ','}))
  }

  /** What is being looked for: the bytes of the MAC, if well-formed, and a name, if given. */
  datatype Wanted = Wanted(mac: Option<seq<Byte>>, name: Option<string>)

  predicate Identifies(word: string, w: Wanted) {
    match FieldOf(word)
    case Hardware(mac) => w.mac.Some? && Octets(mac) == w.mac
    case HostName(host) => w.name == Some(host)
    case _ => false
  }

  // ---------- the record-wise specification ----------

  /** A stretch of text between two braces; `closed` when the brace after it is `}`. */
  datatype Piece = Piece(body: string, closed: bool)

  function FirstBrace(s: string): (n: nat)
    ensures n <= |s| && BraceFree(s[..n])
    ensures n < |s| ==> IsBrace(s[n])
  {
    if s == [] || IsBrace(s[0]) then 0 else 1 + FirstBrace(s[1..])
  }

  /** Cut the text at every brace. */
  function Pieces(s: string): (ps: seq<Piece>)
    ensures ps != [] && !ps[|ps| - 1].closed
    decreases |s|
  {
    var n := FirstBrace(s);
    if n == |s| then [Piece(s, false)] else [Piece(s[..n], s[n] == '}')] + Pieces(s[n + 1..])
  }

  /** The value of the last address field, parsed; `before` when there is none. */
  function LastAddress(words: seq<string>, before: Option<Ipv4Addr>): Option<Ipv4Addr> {
    if words == [] then
      before
    else
      match FieldOf(words[|words| - 1])
      case Address(ip) => ip
      case _ => LastAddress(words[..|words| - 1], before)
  }

  predicate AnyIdentifies(words: seq<string>, w: Wanted) {
    exists i :: 0 <= i < |words| && Identifies(words[i], w)
  }

  /** The lease one record grants: some field identifies us and its last address parses. */
  function RecordLease(body: string, w: Wanted): Option<Ipv4Addr> {
    if AnyIdentifies(Words(body), w) then LastAddress(Words(body), None) else None
  }

  function PieceLease(p: Piece, w: Wanted): Option<Ipv4Addr> {
    if p.closed then RecordLease(p.body, w) else None
  }

  function Reader(w: Wanted): Piece -> Option<Ipv4Addr> {
    p => PieceLease(p, w)
  }

  function FirstLease(ps: seq<Piece>, w: Wanted): Option<Ipv4Addr> {
    FirstOf(ps, Reader(w))
  }

  lemma FirstLeaseCons(p: Piece, ps: seq<Piece>, w: Wanted)
    ensures FirstLease([p] + ps, w) == OrElse(PieceLease(p, w), FirstLease(ps, w))
  {
    FirstOfConcat([p], ps, Reader(w));
    FirstOfOne(p, Reader(w));
  }

  /** The lease of the first closed piece that grants one. */
  function LeaseOf(contents: string, mac: string, name: Option<string>): Option<Ipv4Addr> {
    FirstLease(Pieces(contents), Wanted(Octets(mac), name))
  }

  // ---------- the one-pass machine ----------

  /** `find_lease`: one pass over the tokens, three registers. */
  method FindLease(contents: string, mac: string, name: Option<string>) returns (r: Option<Ipv4Addr>)
    ensures r == LeaseOf(contents, mac, name)
  {
    hide LeaseOf, Tokens, ParseIpv4, IsMac, ShowMac, BareMac;
    var wanted := NormalizeMac(mac);
    var ip: Option<Ipv4Addr> := None;
    var hwMatched := false;
    var nameMatched := false;
    var words := Tokens(contents);
    ghost var w := Wanted(Octets(mac), name);
    MachineReadsRecords(contents, w);
    assert Run(words, ip, false, w) == LeaseOf(contents, mac, name) by { LeaseOfIs(contents, mac, name); }
    assert words[0..] == words;
    for i := 0 to |words|
      invariant Run(words[i..], ip, hwMatched || nameMatched, w) == LeaseOf(contents, mac, name)
    {
      var word := words[i];
      assert words[i..][1..] == words[i + 1..] && words[i..][..1] == [word];
      LastAddressOne(word, ip);
      if word == "{" {
        ip, hwMatched, nameMatched := None, false, false;
      } else if word == "}" {
        if (hwMatched || nameMatched) && ip.Some? {
          return ip;
        }
        ip, hwMatched, nameMatched := None, false, false;
      } else {
        var pair := SplitOnce(word, '=');
        if pair.Some? {
          var (key, raw) := pair.value;
          var value := TrimEnd(raw, {';', ','});
          if key == "ip_address" {
            ip := ParseIpv4(value);
          } else if key == "hw_address" || key == "identifier" {
            if wanted.Some? {
              var norm := NormalizeMac(BareMac(value));
              NormalFormsAgree(BareMac(value), mac);
              if norm.Some? && norm.value == wanted.value {
                hwMatched := true;
              }
            }
          } else if key == "name" {
            if name.Some? && value == name.value {
              nameMatched := true;
            }
          }
        }
      }
    }
    return None;
  }

  lemma LeaseOfIs(contents: string, mac: string, name: Option<string>)
    ensures LeaseOf(contents, mac, name) == FirstLease(Pieces(contents), Wanted(Octets(mac), name))
  {
  }

  /** The machine from any register contents; `hit` is the disjunction of the two flags. */
  function Run(words: seq<string>, ip: Option<Ipv4Addr>, hit: bool, w: Wanted): Option<Ipv4Addr> {
    if words == [] then None
    else if words[0] == "{" then Run(words[1..], None, false, w)
    else if words[0] == "}" then
      if hit && ip.Some? then ip else Run(words[1..], None, false, w)
    else
      Run(words[1..], LastAddress(words[..1], ip), hit || Identifies(words[0], w), w)
  }

  lemma LastAddressOne(word: string, before: Option<Ipv4Addr>)
    ensures LastAddress([word], before) == match FieldOf(word) { case Address(ip) => ip case _ => before }
  {
    assert [word][..0] == [];
  }

  lemma {:induction false} LastAddressCons(words: seq<string>, before: Option<Ipv4Addr>)
    requires words != []
    ensures LastAddress(words, before) == LastAddress(words[1..], LastAddress(words[..1], before))
  {
    var n := |words|;
    if n > 1 {
      assert words[1..][..n - 2] == words[..n - 1][1..];
      assert words[..n - 1][..1] == words[..1];
      LastAddressCons(words[..n - 1], before);
    } else {
      assert words[1..] == [] && words[..1] == words;
    }
  }

  /** Over tokens without braces the machine only gathers. */
  lemma {:induction false} RunGathers(words: seq<string>, rest: seq<string>, ip: Option<Ipv4Addr>, hit: bool, w: Wanted)
    requires forall i :: 0 <= i < |words| ==> BraceFree(words[i])
    ensures Run(words + rest, ip, hit, w) ==
            Run(rest, LastAddress(words, ip), hit || AnyIdentifies(words, w), w)
  {
    var all := words + rest;
    if words == [] {
      assert all == rest;
    } else {
      assert words[0] != "{" && words[0] != "}" by {
        assert BraceFree(words[0]);
        assert "{"[0] == '{' && "}"[0] == '}';
      }
      assert all[1..] == words[1..] + rest && all[..1] == words[..1];
      RunGathers(words[1..], rest, LastAddress(words[..1], ip), hit || Identifies(words[0], w), w);
      LastAddressCons(words, ip);
      assert AnyIdentifies(words, w) <==> Identifies(words[0], w) || AnyIdentifies(words[1..], w) by {
        assert forall i :: 1 <= i < |words| ==> words[i] == words[1..][i - 1];
      }
    }
  }

  // ---------- tokens of a concatenation ----------

  lemma SpaceBracesConcat(a: string, b: string)
    ensures SpaceBraces(a + b) == SpaceBraces(a) + SpaceBraces(b)
  {
    ReplaceConcat(a, b, '{', " { ");
    ReplaceConcat(Replace(a, '{', " { "), Replace(b, '{', " { "), '}', " } ");
  }

  lemma SpaceBracesFree(s: string)
    requires BraceFree(s)
    ensures SpaceBraces(s) == s
  {
    ReplaceFree(s, '{', " { ");
    ReplaceFree(s, '}', " } ");
  }

  lemma SpaceBrace(c: char)
    requires IsBrace(c)
    ensures SpaceBraces([c]) == [' ', c, ' ']
  {
    if c == '{' {
      assert Replace("{", '{', " { ") == " { " + Replace([], '{', " { ");
      assert Free(" { ", '}');
      ReplaceFree(" { ", '}', " } ");
    } else {
      ReplaceFree("}", '{', " { ");
      assert Replace("}", '}', " } ") == " } " + Replace([], '}', " } ");
    }
  }

  /** No token straddles the seam of `a + b`. */
  predicate Seam(a: string, b: string) {
    a == [] || b == [] || IsBrace(a[|a| - 1]) || IsBrace(b[0]) || IsAsciiSpace(a[|a| - 1]) || IsAsciiSpace(b[0])
  }

  lemma SpacedEnds(s: string)
    requires s != []
    ensures IsBrace(s[0]) || IsAsciiSpace(s[0]) ==> StartsWithSpace(SpaceBraces(s))
    ensures IsBrace(s[|s| - 1]) || IsAsciiSpace(s[|s| - 1]) ==> EndsInSpace(SpaceBraces(s))
  {
    var n := |s| - 1;
    assert s == [s[0]] + s[1..] == s[..n] + [s[n]];
    SpaceBracesConcat([s[0]], s[1..]);
    SpaceBracesConcat(s[..n], [s[n]]);
    if IsBrace(s[0]) { SpaceBrace(s[0]); } else { SpaceBracesFree([s[0]]); }
    if IsBrace(s[n]) { SpaceBrace(s[n]); } else { SpaceBracesFree([s[n]]); }
  }

  lemma TokensConcat(a: string, b: string)
    requires Seam(a, b)
    ensures Tokens(a + b) == Tokens(a) + Tokens(b)
  {
    SpaceBracesConcat(a, b);
    if a != [] { SpacedEnds(a); }
    if b != [] { SpacedEnds(b); }
    WordsConcat(SpaceBraces(a), SpaceBraces(b));
  }

  lemma TokensOfBrace(c: char)
    requires IsBrace(c)
    ensures Tokens([c]) == [[c]]
  {
    SpaceBrace(c);
    assert [' ', c, ' '] == " " + ([c] + " ");
    WordsConcat(" ", [c] + " ");
    WordsConcat([c], " ");
    WordsOfGap(" ");
    WordsOfWord([c]);
  }

  lemma TokensAtBrace(a: string, c: char, b: string)
    requires BraceFree(a) && IsBrace(c)
    ensures Tokens(a + [c] + b) == Words(a) + [[c]] + Tokens(b)
  {
    TokensConcat(a + [c], b);
    TokensConcat(a, [c]);
    TokensOfBrace(c);
    SpaceBracesFree(a);
  }

  // ---------- the machine reads records ----------

  /** From empty registers, the machine grants the first lease of the pieces. */
  lemma {:induction false} MachineReadsRecords(s: string, w: Wanted)
    ensures Run(Tokens(s), None, false, w) == FirstLease(Pieces(s), w)
    decreases |s|
  {
    var n := FirstBrace(s);
    var body := s[..n];
    WordsAvoid(body, '{');
    WordsAvoid(body, '}');
    if n == |s| {
      assert body == s;
      SpaceBracesFree(s);
      assert Words(s) + [] == Words(s);
      RunGathers(Words(s), [], None, false, w);
      FirstOfOne(Piece(s, false), Reader(w));
    } else {
      var c, rest := s[n], s[n + 1..];
      assert s == body + [c] + rest;
      TokensAtBrace(body, c, rest);
      var tail := [[c]] + Tokens(rest);
      assert Tokens(s) == Words(body) + tail;
      RunGathers(Words(body), tail, None, false, w);
      assert tail[1..] == Tokens(rest);
      assert [c] == "{" <==> c == '{';
      assert [c] == "}" <==> c == '}';
      MachineReadsRecords(rest, w);
      FirstLeaseCons(Piece(body, c == '}'), Pieces(rest), w);
    }
  }

  /** A text's lease depends on its tokens only. */
  lemma TokensDecide(s: string, t: string, mac: string, name: Option<string>)
    requires Tokens(s) == Tokens(t)
    ensures LeaseOf(s, mac, name) == LeaseOf(t, mac, name)
  {
    MachineReadsRecords(s, Wanted(Octets(mac), name));
    MachineReadsRecords(t, Wanted(Octets(mac), name));
  }
}
