/**
 IP discovery of src/main.rs: the polling loop of `resolve_vm_ip` over a trace
 of what each poll finds.
 */
module Discovery {
  import opened Wrappers
  import opened Text
  import opened Ipv4
  import Leases
  import Arp

  const DEFAULT_VM_MAC := "52:54:00:12:34:56"
  const VM_NAME := "malleus"
  const SECOND_LEASE_PATH := "/var/db/dhcp_leases"
  const ARP_TABLE := "host ARP table"

  /** Nanoseconds. */
  const SECOND: nat := 1_000_000_000
  const TIMEOUT: nat := 60 * SECOND
  const PAUSE: nat := 2 * SECOND

  /**
   What one round of queries finds, and the time since the start at its end. The
   guest log and the state share are looked at again when the search gives up.
   */
  datatype Poll = Poll(
    running: bool,
    socketExists: bool,
    hypervisorLog: Option<string>,
    rest: Option<Ipv4Addr>,
    vsock: Option<Ipv4Addr>,
    stateShare: Option<string>,
    guestLog: Option<string>,
    firstLeases: Option<string>,
    secondLeases: Option<string>,
    arp: Option<string>,
    finalGuestLog: Option<string>,
    guestIpExists: bool,
    elapsed: nat)

  // ---------- the serial log ----------

  const MARK := "Reported IP "

  /** The address a log line reports: the word after the first mark, if it parses. */
  function ReportedIp(line: string): Option<Ipv4Addr> {
    match Find(line, MARK)
    case None => None
    case Some(pos) => ParseIpv4(FirstWord(line[pos + |MARK|..]))
  }

  /** The address of the last line that reports one. */
  function LatestReport(lines: seq<string>): Option<Ipv4Addr> {
    if lines == [] then None
    else OrElse(ReportedIp(lines[|lines| - 1]), LatestReport(lines[..|lines| - 1]))
  }

  /** The scan of the serial log, from its end. */
  method ScanSerialLog(content: string) returns (r: Option<Ipv4Addr>)
    ensures r == LatestReport(Lines(content))
  {
    hide ParseIpv4, FirstWord, Find, Lines;
    var lines := Lines(content);
    var i := |lines|;
    assert lines[..i] == lines;
    while i > 0
      invariant 0 <= i <= |lines|
      invariant LatestReport(lines) == LatestReport(lines[..i])
    {
      i := i - 1;
      assert lines[..i + 1][..i] == lines[..i];
      var pos := Find(lines[i], MARK);
      if pos.Some? {
        var ip := ParseIpv4(FirstWord(lines[i][pos.value + |MARK|..]));
        if ip.Some? {
          return ip;
        }
      }
    }
    return None;
  }

  /** Later lines win: the answer comes from the last line that reports a parsable address. */
  lemma {:induction false} LatestReportIs(lines: seq<string>, ip: Ipv4Addr)
    ensures LatestReport(lines) == Some(ip) <==>
            exists k :: 0 <= k < |lines| && ReportedIp(lines[k]) == Some(ip)
                        && forall j :: k < j < |lines| ==> ReportedIp(lines[j]).None?
  {
    hide ReportedIp;
    if lines != [] {
      var n := |lines| - 1;
      LatestReportIs(lines[..n], ip);
      if ReportedIp(lines[n]).Some? {
        assert ReportedIp(lines[n]) == Some(ip) <==> LatestReport(lines) == Some(ip);
      } else {
        assert forall j :: 0 <= j < n ==> lines[j] == lines[..n][j];
      }
    }
  }

  // ---------- the sources ----------

  datatype Source = Rest | Vsock | StateShare | SerialLog | FirstLeases | SecondLeases | ArpTable

  /** In the order they are asked. */
  const SOURCES: seq<Source> := [Rest, Vsock, StateShare, SerialLog, FirstLeases, SecondLeases, ArpTable]

  function LeaseAnswer(contents: Option<string>): Option<Ipv4Addr> {
    if contents.Some? then Leases.LeaseOf(contents.value, DEFAULT_VM_MAC, Some(VM_NAME)) else None
  }

  function Answer(p: Poll, source: Source): Option<Ipv4Addr> {
    match source
    case Rest => p.rest
    case Vsock => p.vsock
    case StateShare => if p.stateShare.Some? then ParseIpv4(Trim(p.stateShare.value)) else None
    case SerialLog => if p.guestLog.Some? then LatestReport(Lines(p.guestLog.value)) else None
    case FirstLeases => LeaseAnswer(p.firstLeases)
    case SecondLeases => LeaseAnswer(p.secondLeases)
    case ArpTable => if p.arp.Some? then Arp.ArpLookup(p.arp.value, DEFAULT_VM_MAC) else None
  }

  function Asking(p: Poll): Source -> Option<Ipv4Addr> {
    source => Answer(p, source)
  }

  /** The answer of the highest-priority source that has one. */
  function PollIp(p: Poll): Option<Ipv4Addr> {
    FirstOf(SOURCES, Asking(p))
  }

  lemma PollIpUnfolds(p: Poll)
    ensures PollIp(p) ==
            OrElse(Answer(p, Rest), OrElse(Answer(p, Vsock), OrElse(Answer(p, StateShare), OrElse(Answer(p, SerialLog),
            OrElse(Answer(p, FirstLeases), OrElse(Answer(p, SecondLeases), Answer(p, ArpTable)))))))
  {
    hide Answer;
    var f := Asking(p);
    var s6 := [SecondLeases] + [ArpTable];
    var s5 := [FirstLeases] + s6;
    var s4 := [SerialLog] + s5;
    var s3 := [StateShare] + s4;
    var s2 := [Vsock] + s3;
    assert SOURCES == [Rest] + s2;
    FirstOfConcat([Rest], s2, f);
    FirstOfConcat([Vsock], s3, f);
    FirstOfConcat([StateShare], s4, f);
    FirstOfConcat([SerialLog], s5, f);
    FirstOfConcat([FirstLeases], s6, f);
    FirstOfConcat([SecondLeases], [ArpTable], f);
    forall s: Source { FirstOfOne(s, f); }
  }

  // ---------- failure ----------

  datatype Reason =
    | NoMatchingRecord(path: string)
    | Inaccessible(path: string)
    | ArpHasNoEntry
    | ArpUnavailable
    | LastGuestLines(lines: seq<string>)
    | GuestLogEmpty
    | GuestLogMissing
    | GuestIpInvalid
    | GuestIpMissing

  datatype MissingVmIp =
    | NotRunning(socketMissing: bool, lastErrors: seq<string>)
    | TimedOut(searched: seq<string>, reasons: seq<Reason>)

  /** `lines().rev().take(n)`. */
  function LastLines(log: string, n: nat): seq<string> {
    Latest(Lines(log), n)
  }

  function Latest(lines: seq<string>, n: nat): seq<string>
    decreases n
  {
    if n == 0 || lines == [] then [] else [lines[|lines| - 1]] + Latest(lines[..|lines| - 1], n - 1)
  }

  function PushNew(xs: seq<string>, x: string): seq<string> {
    if x in xs then xs else xs + [x]
  }

  const INITIAL: seq<string> :=
    ["vfkit REST API", "vsock readiness signal", "virtio-fs state share", "guest serial log"]

  /** The places listed in the error message. */
  function Searched(leasePath: string): seq<string> {
    PushNew(PushNew(PushNew(INITIAL, leasePath), SECOND_LEASE_PATH), ARP_TABLE)
  }

  lemma SearchedOnce(searched: seq<string>, leasePath: string)
    requires searched == INITIAL || searched == Searched(leasePath)
    ensures PushNew(PushNew(PushNew(searched, leasePath), SECOND_LEASE_PATH), ARP_TABLE) == Searched(leasePath)
  {
  }

  function LeaseReason(path: string, contents: Option<string>): Reason {
    if contents.Some? then NoMatchingRecord(path) else Inaccessible(path)
  }

  function GuestReason(p: Poll): Reason {
    match p.finalGuestLog
    case None => GuestLogMissing
    case Some(log) => if Lines(log) == [] then GuestLogEmpty else LastGuestLines(LastLines(log, 5))
  }

  function ShareReason(p: Poll): Reason {
    if p.guestIpExists then GuestIpInvalid else GuestIpMissing
  }

  function ReasonsOf(p: Poll, leasePath: string): (reasons: seq<Reason>)
    ensures |reasons| == 5
  {
    [LeaseReason(leasePath, p.firstLeases),
     LeaseReason(SECOND_LEASE_PATH, p.secondLeases),
     if p.arp.Some? then ArpHasNoEntry else ArpUnavailable,
     GuestReason(p),
     ShareReason(p)]
  }

  function HypervisorErrors(p: Poll): seq<string> {
    if p.hypervisorLog.Some? then LastLines(p.hypervisorLog.value, 3) else []
  }

  // ---------- the outcome ----------

  /** The poll neither answers nor ends the search. */
  predicate Continues(p: Poll, timeout: nat) {
    p.running && PollIp(p).None? && p.elapsed < timeout
  }

  /** What ends the search at this poll. */
  function Ends(p: Poll, timeout: nat, leasePath: string): Option<Result<Ipv4Addr, MissingVmIp>> {
    if !p.running then Some(Err(NotRunning(!p.socketExists, HypervisorErrors(p))))
    else if PollIp(p).Some? then Some(Ok(PollIp(p).value))
    else if p.elapsed >= timeout then Some(Err(TimedOut(Searched(leasePath), ReasonsOf(p, leasePath))))
    else None
  }

  /** The search ends at poll `n` with `r`. */
  ghost predicate IsOutcome(trace: nat -> Poll, timeout: nat, leasePath: string, n: nat,
                            r: Result<Ipv4Addr, MissingVmIp>)
  {
    && Ends(trace(n), timeout, leasePath) == Some(r)
    && forall j: nat :: j < n ==> Continues(trace(j), timeout)
  }

  /** The clock does not run backwards and every sleep lasts its two seconds. */
  ghost predicate Ticks(trace: nat -> Poll) {
    forall k: nat :: trace(k + 1).elapsed >= trace(k).elapsed + PAUSE
  }

  method AskLease(path: string, contents: Option<string>) returns (ip: Option<Ipv4Addr>, reason: Reason)
    ensures ip == LeaseAnswer(contents) && reason == LeaseReason(path, contents)
  {
    hide Leases.LeaseOf;
    ip := None;
    reason := Inaccessible(path);
    if contents.Some? {
      ip := Leases.FindLease(contents.value, DEFAULT_VM_MAC, Some(VM_NAME));
      reason := NoMatchingRecord(path);
    }
  }

  /** The queries of one poll, in order, up to the first answer. */
  method AskOnce(p: Poll, leasePath: string) returns (ip: Option<Ipv4Addr>, reasons: seq<Reason>)
    ensures ip == PollIp(p)
    ensures ip.None? ==> reasons == ReasonsOf(p, leasePath)[..3]
  {
    hide PollIp, GuestReason, ShareReason, LeaseAnswer, LatestReport, Leases.LeaseOf, Arp.ArpLookup,
         ParseIpv4, Trim, Lines, LastLines;
    PollIpUnfolds(p);
    reasons := [];
    if p.rest.Some? {
      return p.rest, reasons;
    }
    if p.vsock.Some? {
      return p.vsock, reasons;
    }
    if p.stateShare.Some? {
      ip := ParseIpv4(Trim(p.stateShare.value));
      if ip.Some? {
        return;
      }
    }
    if p.guestLog.Some? {
      ip := ScanSerialLog(p.guestLog.value);
      if ip.Some? {
        return;
      }
    }
    var reason;
    ip, reason := AskLease(leasePath, p.firstLeases);
    if ip.Some? {
      return;
    }
    reasons := reasons + [reason];
    ip, reason := AskLease(SECOND_LEASE_PATH, p.secondLeases);
    if ip.Some? {
      return;
    }
    reasons := reasons + [reason];
    if p.arp.Some? {
      ip := Arp.FindInArp(p.arp.value, DEFAULT_VM_MAC);
      if ip.Some? {
        return;
      }
      reasons := reasons + [ArpHasNoEntry];
    } else {
      ip := None;
      reasons := reasons + [ArpUnavailable];
    }
  }

  /**
   `resolve_vm_ip`: an explicit address is returned unchecked; otherwise the
   search ends at some poll in the way `IsOutcome` says, and all pauses but the
   last are over before the timeout.
   */
  method ResolveVmIp(vmIp: Option<Ipv4Addr>, leasePath: string, trace: nat -> Poll, timeout: nat)
    returns (r: Result<Ipv4Addr, MissingVmIp>)
    requires Ticks(trace)
    ensures vmIp.Some? ==> r == Ok(vmIp.value)
    ensures vmIp.None? ==>
      exists n: nat :: IsOutcome(trace, timeout, leasePath, n, r) && (n > 0 ==> (n - 1) * PAUSE < timeout)
  {
    hide PollIp, ReasonsOf, PushNew, Searched, HypervisorErrors, GuestReason, ShareReason, LastLines, Lines;
    if vmIp.Some? {
      return Ok(vmIp.value);
    }
    var searched := INITIAL;
    var n := 0;
    while true
      invariant searched == INITIAL || searched == Searched(leasePath)
      invariant forall j: nat :: j < n ==> Continues(trace(j), timeout)
      invariant n * PAUSE <= trace(n).elapsed
      invariant n > 0 ==> (n - 1) * PAUSE < timeout
      decreases timeout - trace(n).elapsed
    {
      var p := trace(n);
      if !p.running {
        r := Err(NotRunning(!p.socketExists, HypervisorErrors(p)));
        assert IsOutcome(trace, timeout, leasePath, n, r);
        return;
      }
      var ip, reasons := AskOnce(p, leasePath);
      if ip.Some? {
        r := Ok(ip.value);
        assert IsOutcome(trace, timeout, leasePath, n, r);
        return;
      }
      SearchedOnce(searched, leasePath);
      searched := PushNew(PushNew(PushNew(searched, leasePath), SECOND_LEASE_PATH), ARP_TABLE);
      if p.elapsed >= timeout {
        reasons := reasons + [GuestReason(p)];
        reasons := reasons + [ShareReason(p)];
        AllReasons(p, leasePath, reasons);
        r := Err(TimedOut(searched, reasons));
        assert IsOutcome(trace, timeout, leasePath, n, r);
        return;
      }
      assert Continues(trace(n), timeout);
      n := n + 1;
    }
  }

  lemma AllReasons(p: Poll, leasePath: string, reasons: seq<Reason>)
    requires |reasons| == 5 && reasons[..3] == ReasonsOf(p, leasePath)[..3]
    requires reasons[3] == GuestReason(p) && reasons[4] == ShareReason(p)
    ensures reasons == ReasonsOf(p, leasePath)
  {
    hide GuestReason, ShareReason, LeaseReason;
    var all := ReasonsOf(p, leasePath);
    assert reasons[0] == reasons[..3][0] == all[..3][0];
    assert reasons[1] == reasons[..3][1] == all[..3][1];
    assert reasons[2] == reasons[..3][2] == all[..3][2];
  }
}
