/** The constant text of the preseed is printable. */
module CloudTextFacts {
  import opened CloudText
  import opened CloudReader

  predicate IsAscii(s: string) {
    forall i :: 0 <= i < |s| ==> ' ' <= s[i] <= '~'
  }

  lemma AsciiIsText(s: string)
    requires IsAscii(s)
    ensures AllText(s)
  {
  }

  lemma ConsText(line: string, lines: seq<string>)
    requires AllText(line) && AllTextLines(lines)
    ensures AllTextLines([line] + lines)
  {
  }

  lemma SixTextLines(a: string, b: string, c: string, d: string, e: string, f: string)
    requires IsAscii(a) && IsAscii(b) && IsAscii(c) && IsAscii(d) && IsAscii(e) && IsAscii(f)
    ensures AllTextLines([a, b, c, d, e, f])
  {
    hide IsAscii, AllText;
    AsciiIsText(a);
    AsciiIsText(b);
    AsciiIsText(c);
    AsciiIsText(d);
    AsciiIsText(e);
    AsciiIsText(f);
  }

  lemma PortLineIsAscii()
    ensures IsAscii("  core.https_address: \"[::]:8443\"")
  {
  }

  lemma TopLinesAreText()
    ensures AllTextLines(TopLines())
    ensures TopLines() != [] && TopLines()[0] == "config:"
  {
    var l0, l1, l2, l3, l4, l5 := "config:", "  core.https_address: \"[::]:8443\"", "networks:",
      "  - name: incusbr0", "    type: bridge", "    config:";
    assert IsAscii(l0) && IsAscii(l2) && IsAscii(l3) && IsAscii(l4) && IsAscii(l5);
    hide IsAscii, AllText, AllTextLines;
    PortLineIsAscii();
    SixTextLines(l0, l1, l2, l3, l4, l5);
  }

  lemma KeysAreText()
    ensures AllText(AddressKey()) && AllText(SourceKey() + PoolSource())
  {
  }

  lemma PoolLinesAreText()
    ensures AllTextLines(PoolLines()) && PoolLines() != []
  {
    var l0, l1, l2, l3, l4, l5 := "      ipv4.nat: \"true\"", "      ipv6.address: none", "storage_pools:",
      "  - name: default", "    driver: btrfs", "    config:";
    assert IsAscii(l0) && IsAscii(l1) && IsAscii(l2) && IsAscii(l3) && IsAscii(l4) && IsAscii(l5);
    hide IsAscii, AllText, AllTextLines;
    SixTextLines(l0, l1, l2, l3, l4, l5);
  }

  lemma ProfileLinesAreText()
    ensures AllTextLines(ProfileLines())
    ensures ProfileLines() != [] && ProfileLines()[|ProfileLines()| - 1] != []
  {
    var l0, l1, l2, l3, l4, l5, l6 := "profiles:", "  - name: default", "    devices:", "      eth0:",
      "        type: nic", "        network: incusbr0", "        name: eth0";
    assert IsAscii(l0) && IsAscii(l1) && IsAscii(l2) && IsAscii(l3) && IsAscii(l4) && IsAscii(l5) && IsAscii(l6);
    hide IsAscii, AllText, AllTextLines;
    SixTextLines(l1, l2, l3, l4, l5, l6);
    AsciiIsText(l0);
    ConsText(l0, [l1, l2, l3, l4, l5, l6]);
    assert [l0] + [l1, l2, l3, l4, l5, l6] == ProfileLines();
  }
}
