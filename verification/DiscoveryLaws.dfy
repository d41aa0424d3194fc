/** What the discovery loop promises about the address it returns. */
module DiscoveryLaws {
  import opened Wrappers
  import opened Text
  import opened Numbers
  import opened Ipv4
  import Mac
  import Leases
  import LeaseLaws
  import CloudText
  import Arp
  import opened Discovery

  /** A search has one end: the poll and the outcome are determined by the trace. */
  lemma OutcomeIsUnique(trace: nat -> Poll, timeout: nat, leasePath: string,
                        m: nat, r: Result<Ipv4Addr, MissingVmIp>, n: nat, s: Result<Ipv4Addr, MissingVmIp>)
    requires IsOutcome(trace, timeout, leasePath, m, r) && IsOutcome(trace, timeout, leasePath, n, s)
    ensures m == n && r == s
  {
    hide PollIp, ReasonsOf, Searched, HypervisorErrors;
    assert m < n ==> Continues(trace(m), timeout);
    assert n < m ==> Continues(trace(n), timeout);
  }

  /** `ip` is the answer of the highest-priority source that has one, the `k`-th. */
  ghost predicate IsBestAnswer(p: Poll, k: int, ip: Ipv4Addr) {
    && 0 <= k < |SOURCES| && Answer(p, SOURCES[k]) == Some(ip)
    && forall j :: 0 <= j < k ==> Answer(p, SOURCES[j]).None?
  }

  lemma PollIpIsBest(p: Poll, ip: Ipv4Addr)
    ensures PollIp(p) == Some(ip) <==> exists k :: IsBestAnswer(p, k, ip)
  {
    hide Answer;
    var f := Asking(p);
    if PollIp(p) == Some(ip) {
      var k := FirstOfExists(SOURCES, f);
      assert IsBestAnswer(p, k, ip);
    }
    if k :| IsBestAnswer(p, k, ip) {
      assert IsFirst(SOURCES, f, k);
      FirstOfAt(SOURCES, f, k);
    }
  }

  /** Poll `n` is the first with any answer, the VM ran all the time, and the timeout had not passed before. */
  ghost predicate IsFirstAnsweringPoll(trace: nat -> Poll, timeout: nat, n: nat) {
    && (forall j: nat :: j <= n ==> trace(j).running)
    && forall j: nat :: j < n ==> PollIp(trace(j)).None? && trace(j).elapsed < timeout
  }

  /**
   An address is returned exactly when some poll has a source with an answer,
   the VM ran up to that poll, and no earlier poll had an answer or hit the
   timeout; it is then that poll's highest-priority answer.
   */
  lemma AddressIsEarliestBest(trace: nat -> Poll, timeout: nat, leasePath: string, ip: Ipv4Addr)
    ensures (exists n: nat :: IsOutcome(trace, timeout, leasePath, n, Ok(ip))) <==>
            exists n: nat, k: int :: IsFirstAnsweringPoll(trace, timeout, n) && IsBestAnswer(trace(n), k, ip)
  {
    hide PollIp, Answer, ReasonsOf, Searched, HypervisorErrors, IsBestAnswer;
    if n: nat :| IsOutcome(trace, timeout, leasePath, n, Ok(ip)) {
      PollIpIsBest(trace(n), ip);
      var k :| IsBestAnswer(trace(n), k, ip);
      assert forall j: nat :: j < n ==> Continues(trace(j), timeout);
      assert IsFirstAnsweringPoll(trace, timeout, n);
    }
    if n: nat, k: int :| IsFirstAnsweringPoll(trace, timeout, n) && IsBestAnswer(trace(n), k, ip) {
      PollIpIsBest(trace(n), ip);
      assert IsOutcome(trace, timeout, leasePath, n, Ok(ip));
    }
  }

  predicate Distinct(xs: seq<string>) {
    forall i, j :: 0 <= i < j < |xs| ==> xs[i] != xs[j]
  }

  lemma InitialIsDistinct()
    ensures Distinct(INITIAL)
  {
    assert |"vfkit REST API"| == 14 && |"vsock readiness signal"| == 22;
    assert |"virtio-fs state share"| == 21 && |"guest serial log"| == 16;
  }

  lemma PushNewKeepsDistinct(xs: seq<string>, x: string)
    requires Distinct(xs)
    ensures Distinct(PushNew(xs, x))
  {
  }

  /** Whatever the lease path, even one of the other places, no place is listed twice. */
  lemma SearchedIsDistinct(leasePath: string)
    ensures Distinct(Searched(leasePath))
    ensures forall x :: x in Searched(leasePath) <==>
                        x in INITIAL || x == leasePath || x == SECOND_LEASE_PATH || x == ARP_TABLE
  {
    InitialIsDistinct();
    hide Distinct;
    PushNewKeepsDistinct(INITIAL, leasePath);
    PushNewKeepsDistinct(PushNew(INITIAL, leasePath), SECOND_LEASE_PATH);
    PushNewKeepsDistinct(PushNew(PushNew(INITIAL, leasePath), SECOND_LEASE_PATH), ARP_TABLE);
  }

  lemma {:induction false} ElapsedGrows(trace: nat -> Poll, k: nat)
    requires Ticks(trace)
    ensures trace(k).elapsed >= k * PAUSE
  {
    if k > 0 {
      ElapsedGrows(trace, k - 1);
      assert trace(k - 1 + 1).elapsed >= trace(k - 1).elapsed + PAUSE;
    }
  }

  /** Every search ends, after at most 31 polls in production. */
  lemma SearchEnds(trace: nat -> Poll, leasePath: string)
    requires Ticks(trace)
    ensures exists n: nat, r :: n <= 30 && IsOutcome(trace, TIMEOUT, leasePath, n, r)
  {
    hide PollIp, ReasonsOf, Searched, HypervisorErrors;
    ElapsedGrows(trace, 30);
    assert Ends(trace(30), TIMEOUT, leasePath).Some?;
    var n := FirstEnd(trace, leasePath, 0);
    assert IsOutcome(trace, TIMEOUT, leasePath, n, Ends(trace(n), TIMEOUT, leasePath).value);
  }

  lemma {:induction false} FirstEnd(trace: nat -> Poll, leasePath: string, from: nat) returns (n: nat)
    requires from <= 30 && Ends(trace(30), TIMEOUT, leasePath).Some?
    requires forall j: nat :: j < from ==> Continues(trace(j), TIMEOUT)
    ensures n <= 30 && Ends(trace(n), TIMEOUT, leasePath).Some?
    ensures forall j: nat :: j < n ==> Continues(trace(j), TIMEOUT)
    decreases 30 - from
  {
    hide PollIp, ReasonsOf, Searched, HypervisorErrors;
    if Ends(trace(from), TIMEOUT, leasePath).Some? {
      n := from;
    } else {
      n := FirstEnd(trace, leasePath, from + 1);
    }
  }

  // ---------- what each source answers ----------

  lemma AddressIsWord(ip: Ipv4Addr)
    ensures ShowIpv4(ip) != [] && NoSpace(ShowIpv4(ip))
    ensures Free(ShowIpv4(ip), '\n') && Free(ShowIpv4(ip), '\r')
  {
    DigitsAndDots(ip);
  }

  /** The line holds the mark at the end of `before` and not earlier. */
  predicate FirstMarkAfter(line: string, before: string) {
    && before + "Reported IP " <= line
    && forall i :: 0 <= i < |before| ==> !("Reported IP " <= line[i..])
  }

  lemma FindFirstMark(line: string, before: string)
    requires FirstMarkAfter(line, before)
    ensures Find(line, MARK) == Some(|before|)
  {
    assert MARK <= line[|before|..] by {
      assert line[|before|..][..12] == line[..|before| + 12][|before|..];
    }
  }

  /** A line that says `Reported IP`, whatever stands in front of it and behind the address, reports the address. */
  lemma LineReports(before: string, ip: Ipv4Addr, after: string)
    requires FirstMarkAfter(before + "Reported IP " + (ShowIpv4(ip) + after), before)
    requires after == [] || after[0] in {' ', '\t', '\n', '\r'}
    ensures ReportedIp(before + "Reported IP " + (ShowIpv4(ip) + after)) == Some(ip)
  {
    var line := before + "Reported IP " + (ShowIpv4(ip) + after);
    hide Find, FirstWord, ShowIpv4, ParseIpv4, NoSpace, FirstMarkAfter;
    FindFirstMark(line, before);
    assert |MARK| == 12 && line[|before| + 12..] == ShowIpv4(ip) + after;
    AddressIsWord(ip);
    FirstWordOf([], ShowIpv4(ip), after);
    assert [] + ShowIpv4(ip) + after == ShowIpv4(ip) + after;
    ParseIpv4Meaning(ShowIpv4(ip), ip);
  }

  lemma StartsWithMark(rest: string)
    ensures FirstMarkAfter([] + "Reported IP " + rest, []) && [] + "Reported IP " + rest == "Reported IP " + rest
  {
  }

  /** The line that a script of the guest prints for an address is one the host reads that address from. */
  lemma GuestReportIsRead(ip: Ipv4Addr, means: string)
    ensures ReportedIp(CloudText.ReportLine(ShowIpv4(ip), means)) == Some(ip)
  {
    var after := " via " + means;
    assert after[0] == ' ';
    hide ReportedIp, ShowIpv4, FirstMarkAfter;
    StartsWithMark(ShowIpv4(ip) + after);
    LineReports([], ip, after);
  }

  /** The two scripts of the rendered document print that line with the variable they hold the address in. */
  lemma ScriptsReport()
    ensures CloudText.StateBody() ==
            CloudText.StateLoop() + ("echo \\\"" + CloudText.ReportLine("$IP", "virtio-fs") + "\\\"")
            + CloudText.StateLoopEnd()
    ensures CloudText.VsockBody() ==
            CloudText.VsockLoop() + ("echo \\\"" + CloudText.ReportLine("$IP", "vsock") + "\\\"")
            + CloudText.VsockLoopEnd()
  {
    hide CloudText.StateLoop, CloudText.StateLoopEnd, CloudText.VsockLoop, CloudText.VsockLoopEnd, CloudText.ReportLine;
  }

  /** A line without the mark reports nothing. */
  lemma LineWithoutMark(line: string)
    requires forall i :: 0 <= i <= |line| ==> !("Reported IP " <= line[i..])
    ensures ReportedIp(line) == None
  {
    hide ParseIpv4, FirstWord;
  }

  lemma {:induction false} LatestReportConcat(xs: seq<string>, ys: seq<string>)
    ensures LatestReport(xs + ys) == OrElse(LatestReport(ys), LatestReport(xs))
  {
    hide ReportedIp;
    if ys == [] {
      assert xs + ys == xs;
    } else {
      var n := |ys| - 1;
      assert (xs + ys)[..|xs + ys| - 1] == xs + ys[..n];
      LatestReportConcat(xs, ys[..n]);
    }
  }

  lemma ReportOfOne(line: string)
    ensures LatestReport([line]) == ReportedIp(line)
  {
    hide ReportedIp;
    assert [line][..0] == [];
  }

  /**
   In a whole log the last such line decides: the answer is its address, unless a later
   line reports another one.
   */
  lemma LogReports(log: string, before: string, ip: Ipv4Addr, after: string, rest: string)
    requires log == [] || log[|log| - 1] == '\n'
    requires FirstMarkAfter(before + "Reported IP " + (ShowIpv4(ip) + after), before)
    requires after == [] || after[0] in {' ', '\t', '\n', '\r'}
    requires Free(before + after, '\n') && Free(before + after, '\r')
    ensures var line := before + "Reported IP " + (ShowIpv4(ip) + after);
            LatestReport(Lines(log + (line + "\n" + rest))) == OrElse(LatestReport(Lines(rest)), Some(ip))
  {
    LineReports(before, ip, after);
    AddressIsWord(ip);
    var line := before + "Reported IP " + (ShowIpv4(ip) + after);
    LineIsOneLine(before, ShowIpv4(ip), after);
    hide ReportedIp, Lines, Free, ShowIpv4, FirstMarkAfter, NoSpace, ChompReturn;
    LinesConcat(log, line + "\n" + rest);
    assert line + "\n" + rest == line + ['\n'] + rest;
    LinesCons(line, rest);
    LatestReportConcat(Lines(log), [line] + Lines(rest));
    LatestReportConcat([line], Lines(rest));
    ReportOfOne(line);
  }

  lemma FreeOfParts(a: string, b: string, c: char)
    requires Free(a + b, c)
    ensures Free(a, c) && Free(b, c)
  {
    assert forall i :: 0 <= i < |a| ==> a[i] == (a + b)[i];
    assert forall i :: 0 <= i < |b| ==> b[i] == (a + b)[|a| + i];
  }

  lemma LineIsOneLine(before: string, shown: string, after: string)
    requires Free(before + after, '\n') && Free(before + after, '\r') && Free(shown, '\n') && Free(shown, '\r')
    ensures var line := before + "Reported IP " + (shown + after); Free(line, '\n') && ChompReturn(line) == line
  {
    assert Free("Reported IP ", '\n') && Free("Reported IP ", '\r');
    hide Free;
    LineIsFree(before, "Reported IP ", shown, after, '\n');
    LineIsFree(before, "Reported IP ", shown, after, '\r');
    Arp.NothingToChomp(before + "Reported IP " + (shown + after));
  }

  lemma LineIsFree(before: string, mark: string, shown: string, after: string, c: char)
    requires Free(before + after, c) && Free(mark, c) && Free(shown, c)
    ensures Free(before + mark + (shown + after), c)
  {
    hide Free;
    FreeOfParts(before, after, c);
    FreeConcat(before, mark, c);
    FreeConcat(shown, after, c);
    FreeConcat(before + mark, shown + after, c);
  }

  /** The state share answers with the address it holds, white space around it ignored. */
  lemma ShareReports(before: string, ip: Ipv4Addr, after: string)
    requires forall i :: 0 <= i < |before| ==> before[i] in {' ', '\t', '\n', '\r'}
    requires forall i :: 0 <= i < |after| ==> after[i] in {' ', '\t', '\n', '\r'}
    ensures ParseIpv4(Trim(before + ShowIpv4(ip) + after)) == Some(ip)
  {
    assert AllSpace(before) && AllSpace(after);
    hide AllSpace, NoSpace, Trim, ShowIpv4, ParseIpv4;
    AddressIsWord(ip);
    TrimOf(before, ShowIpv4(ip), after);
    ParseIpv4Meaning(ShowIpv4(ip), ip);
  }

  /**
   A lease file with one record for a MAC and a host name answers its address exactly if
   the MAC is the VM's, however it is spelt, or the name is the VM's.
   */
  lemma LeaseReports(key: string, front: string, m: string, end: string, g: string, ip: Ipv4Addr, h: string,
                     host: string)
    requires LeaseLaws.IsHardwareField(key, front, m, end) && LeaseLaws.IsSeparator(g) && LeaseLaws.IsSeparator(h)
    requires LeaseLaws.CanBeLeased(host)
    ensures var record := LeaseLaws.HardwareText(key, front, m, end) + g + ("ip_address=" + ShowIpv4(ip)) + h
                          + ("name=" + host);
            LeaseAnswer(Some("{" + record + "}")) ==
            if Mac.Octets(m) == Mac.Octets("52:54:00:12:34:56") || host == "malleus" then Some(ip) else None
  {
    hide Leases.LeaseOf, LeaseLaws.HardwareText, ShowIpv4, Mac.Octets, LeaseLaws.IsHardwareField, LeaseLaws.IsSeparator,
         LeaseLaws.CanBeLeased;
    LeaseLaws.NamedRecordGrants("{", key, front, m, end, g, ip, h, host, [], "52:54:00:12:34:56", Some("malleus"));
    LeaseLaws.OpenTextGrantsNothing([], "52:54:00:12:34:56", Some("malleus"));
    assert [] + "{" == "{";
    Unfolded("{", LeaseLaws.HardwareText(key, front, m, end) + g + ("ip_address=" + ShowIpv4(ip)) + h
                  + ("name=" + host));
  }

  lemma Unfolded(a: string, record: string)
    ensures a + record + "}" + [] == a + record + "}"
  {
  }

  /** The ARP table answers with the row of the VM's MAC. */
  lemma ArpReports(host: string, ip: Ipv4Addr, m: string, gap: string, rest: string, after: string)
    requires IsWord(host) && IsWord(m) && Arp.IsSpace(gap) && StartsWithSpace(rest)
    requires Free(rest, '\n') && Free(rest, '\r')
    ensures var row := host + gap + ("(" + ShowIpv4(ip) + ")" + gap + ("at" + gap + (m + rest)));
            Arp.ArpLookup(row + "\n" + after, DEFAULT_VM_MAC) ==
            OrElse(if Mac.Octets(m) == Some([0x52, 0x54, 0x00, 0x12, 0x34, 0x56]) then Some(ip) else None,
                   Arp.ArpLookup(after, DEFAULT_VM_MAC))
  {
    VmMac();
    hide ShowIpv4, Arp.ArpLookup, Mac.Octets, Mac.IsMac, IsWord, Arp.IsSpace, StartsWithSpace, Free;
    Arp.ArpFindsRow([], host, ip, m, gap, rest, after, DEFAULT_VM_MAC);
    var row := host + gap + ("(" + ShowIpv4(ip) + ")" + gap + ("at" + gap + (m + rest)));
    assert [] + (row + "\n" + after) == row + "\n" + after;
    NothingInNothing();
  }

  lemma NothingInNothing()
    ensures Arp.ArpLookup([], DEFAULT_VM_MAC) == None
  {
    hide Mac.IsMac, Mac.Octets;
    LinesOfNothing();
  }

  lemma VmBytes()
    ensures ParseHexByte("52") == Some(0x52) && ParseHexByte("54") == Some(0x54) && ParseHexByte("00") == Some(0)
    ensures ParseHexByte("12") == Some(0x12) && ParseHexByte("34") == Some(0x34) && ParseHexByte("56") == Some(0x56)
    ensures ParseHexByte("0") == Some(0)
  {
    HexChars(5, 2, '5', '2');
    HexChars(5, 4, '5', '4');
    HexChars(0, 0, '0', '0');
    HexChars(1, 2, '1', '2');
    HexChars(3, 4, '3', '4');
    HexChars(5, 6, '5', '6');
    hide ParseHexByte;
    LeadingZeroIsIgnored("0");
    assert "0" + "0" == "00";
  }

  lemma PaddedText()
    ensures "52" + ":" + "54" + ":" + "00" + ":" + "12" + ":" + "34" + ":" + "56" == "52:54:00:12:34:56"
  {
  }

  lemma StrippedText()
    ensures "52" + ":" + "54" + ":" + "0" + ":" + "12" + ":" + "34" + ":" + "56" == "52:54:0:12:34:56"
  {
  }

  lemma BytesOf(octets: seq<Byte>, a: string, b: string, c: string, d: string, e: string, f: string, mac: string)
    requires |octets| == 6 && a + ":" + b + ":" + c + ":" + d + ":" + e + ":" + f == mac
    requires ParseHexByte(a) == Some(octets[0]) && ParseHexByte(b) == Some(octets[1])
    requires ParseHexByte(c) == Some(octets[2]) && ParseHexByte(d) == Some(octets[3])
    requires ParseHexByte(e) == Some(octets[4]) && ParseHexByte(f) == Some(octets[5])
    ensures Mac.Octets(mac) == Some(octets)
  {
    hide *;
    Mac.JoinOfSix(a, b, c, d, e, f);
    Mac.SixBytes(octets, a, b, c, d, e, f);
  }

  lemma BothSpellings()
    ensures Mac.Octets("52:54:00:12:34:56") == Some([0x52, 0x54, 0x00, 0x12, 0x34, 0x56])
    ensures Mac.Octets("52:54:0:12:34:56") == Some([0x52, 0x54, 0x00, 0x12, 0x34, 0x56])
  {
    hide *;
    var octets: seq<Byte> := [0x52, 0x54, 0x00, 0x12, 0x34, 0x56];
    VmBytes();
    PaddedText();
    StrippedText();
    BytesOf(octets, "52", "54", "00", "12", "34", "56", "52:54:00:12:34:56");
    BytesOf(octets, "52", "54", "0", "12", "34", "56", "52:54:0:12:34:56");
  }

  /** The bytes of the configured MAC, and of the spelling a lease file gives it. */
  lemma VmMac()
    ensures Mac.Octets(DEFAULT_VM_MAC) == Some([0x52, 0x54, 0x00, 0x12, 0x34, 0x56])
    ensures Mac.Octets("52:54:0:12:34:56") == Some([0x52, 0x54, 0x00, 0x12, 0x34, 0x56])
  {
    hide Mac.Octets;
    BothSpellings();
  }

  // ---------- priority and endings, field by field ----------

  /** The order of the sources, with what each of them is given. */
  lemma PriorityIs(p: Poll)
    ensures PollIp(p) ==
            OrElse(p.rest, OrElse(p.vsock,
              OrElse(if p.stateShare.Some? then ParseIpv4(Trim(p.stateShare.value)) else None,
                OrElse(if p.guestLog.Some? then LatestReport(Lines(p.guestLog.value)) else None,
                  OrElse(LeaseAnswer(p.firstLeases), OrElse(LeaseAnswer(p.secondLeases),
                    if p.arp.Some? then Arp.ArpLookup(p.arp.value, "52:54:00:12:34:56") else None))))))
  {
    hide ParseIpv4, Trim, LatestReport, Lines, LeaseAnswer, Arp.ArpLookup, PollIp;
    PollIpUnfolds(p);
  }

  /** The last `n` entries, latest first. */
  lemma {:induction false} LatestIs(lines: seq<string>, n: nat)
    ensures |Latest(lines, n)| == if n < |lines| then n else |lines|
    ensures forall i :: 0 <= i < |Latest(lines, n)| ==> Latest(lines, n)[i] == lines[|lines| - 1 - i]
    decreases n
  {
    if n > 0 && lines != [] {
      LatestIs(lines[..|lines| - 1], n - 1);
    }
  }

  /** All polls before the `n`-th found the VM running, no address, and time left. */
  ghost predicate SearchesUpTo(trace: nat -> Poll, timeout: nat, n: nat) {
    forall j: nat :: j < n ==> trace(j).running && PollIp(trace(j)).None? && trace(j).elapsed < timeout
  }

  /** A stopped VM fails the search exactly at the first poll that finds it so, with the last three errors. */
  lemma NotRunningIs(trace: nat -> Poll, timeout: nat, leasePath: string, n: nat,
                     socketMissing: bool, errors: seq<string>)
    ensures IsOutcome(trace, timeout, leasePath, n, Err(NotRunning(socketMissing, errors))) <==>
            && SearchesUpTo(trace, timeout, n) && !trace(n).running
            && socketMissing == !trace(n).socketExists
            && errors == match trace(n).hypervisorLog { case None => [] case Some(log) => Latest(Lines(log), 3) }
  {
    hide PollIp, ReasonsOf, Searched, Latest, Lines;
    SearchingIs(trace, timeout, n);
  }

  /** It times out exactly at the first poll that ends after the timeout, with the VM running and no answer up to it. */
  lemma TimedOutIs(trace: nat -> Poll, timeout: nat, leasePath: string, n: nat,
                   searched: seq<string>, reasons: seq<Reason>)
    ensures IsOutcome(trace, timeout, leasePath, n, Err(TimedOut(searched, reasons))) <==>
            && SearchesUpTo(trace, timeout, n)
            && trace(n).running && PollIp(trace(n)).None? && trace(n).elapsed >= timeout
            && searched == Searched(leasePath) && reasons == ReasonsOf(trace(n), leasePath)
  {
    hide PollIp, ReasonsOf, Searched, HypervisorErrors;
    SearchingIs(trace, timeout, n);
  }

  lemma SearchingIs(trace: nat -> Poll, timeout: nat, n: nat)
    ensures SearchesUpTo(trace, timeout, n) <==> forall j: nat :: j < n ==> Continues(trace(j), timeout)
  {
    hide PollIp;
    if forall j: nat :: j < n ==> Continues(trace(j), timeout) {
      forall j: nat | j < n ensures trace(j).running && PollIp(trace(j)).None? && trace(j).elapsed < timeout {
        assert Continues(trace(j), timeout);
      }
    }
  }

  /** An address that some source has within the first sixty seconds is found. */
  lemma FoundWithinAMinute(trace: nat -> Poll, leasePath: string, n: nat, ip: Ipv4Addr)
    requires forall j: nat :: j < n ==>
      trace(j).running && PollIp(trace(j)).None? && trace(j).elapsed < 60_000_000_000
    requires trace(n).running && PollIp(trace(n)) == Some(ip)
    ensures IsOutcome(trace, TIMEOUT, leasePath, n, Ok(ip))
  {
    hide PollIp, ReasonsOf, Searched, HypervisorErrors;
    SearchingIs(trace, TIMEOUT, n);
  }

  /** The places in the error message, in the order they are searched. */
  lemma SearchedInOrder(leasePath: string)
    requires leasePath !in INITIAL && leasePath != "/var/db/dhcp_leases" && leasePath != "host ARP table"
    ensures Searched(leasePath) ==
            ["vfkit REST API", "vsock readiness signal", "virtio-fs state share", "guest serial log",
             leasePath, "/var/db/dhcp_leases", "host ARP table"]
  {
    assert |SECOND_LEASE_PATH| == 19 && |ARP_TABLE| == 14 && ARP_TABLE[0] == 'h' && "vfkit REST API"[0] == 'v';
    InitialLengths();
  }

  lemma InitialLengths()
    ensures |INITIAL| == 4 && forall i :: 0 <= i < 4 ==> |INITIAL[i]| in {14, 22, 21, 16} && INITIAL[i] != ARP_TABLE
  {
  }

  /** Why the search failed, place by place. */
  lemma ReasonsSay(p: Poll, leasePath: string)
    ensures var reasons := ReasonsOf(p, leasePath);
            && reasons[0] == (if p.firstLeases.Some? then NoMatchingRecord(leasePath) else Inaccessible(leasePath))
            && reasons[1] == (if p.secondLeases.Some? then NoMatchingRecord("/var/db/dhcp_leases")
                              else Inaccessible("/var/db/dhcp_leases"))
            && (reasons[2] == ArpHasNoEntry <==> p.arp.Some?)
            && (reasons[3] == GuestLogMissing <==> p.finalGuestLog.None?)
            && (reasons[3] == GuestLogEmpty <==> p.finalGuestLog == Some([]))
            && (p.finalGuestLog.Some? && p.finalGuestLog.value != [] ==>
                  reasons[3] == LastGuestLines(Latest(Lines(p.finalGuestLog.value), 5)))
            && (reasons[4] == GuestIpInvalid <==> p.guestIpExists)
  {
    hide Latest;
  }
}
