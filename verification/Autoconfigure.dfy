/** The Incus remote wiring of src/main.rs against a modelled remote table. */
module Autoconfigure {
  import opened Wrappers
  import opened Text
  import opened Ipv4

  /** `valid_mount_name`, which also guards remote names. */
  predicate ValidMountName(name: string) {
    !IsBlank(name) && AllNameChars(name)
  }

  lemma ValidMountNameIs(name: string)
    ensures ValidMountName(name) <==> IsName(name)
  {
    hide IsBlank;
    BlankIs(name);
    if IsName(name) {
      assert IsNameChar(name[0]) && name[0] !in WHITE_SPACE;
    }
  }

  // ---------- reading a listing ----------

  /** `str::trim_end_matches` for a string pattern. */
  function TrimSuffix(s: string, suffix: string): string
    requires suffix != []
  {
    if |suffix| <= |s| && s[|s| - |suffix|..] == suffix then TrimSuffix(s[..|s| - |suffix|], suffix) else s
  }

  function LowerChar(c: char): char {
    if 'A' <= c <= 'Z' then (c as int + 32) as char else c
  }

  /** `eq_ignore_ascii_case`. */
  predicate EqIgnoreCase(a: string, b: string) {
    |a| == |b| && forall i :: 0 <= i < |a| ==> LowerChar(a[i]) == LowerChar(b[i])
  }

  const CURRENT := " (current)"

  /** The remote a line of the listing names: its first field without the marker of the current remote. */
  function NameOf(line: string): string {
    TrimSuffix(Trim(Split(line, ',')[0]), CURRENT)
  }

  predicate Names(line: string, remote: string) {
    var name := NameOf(line);
    name != [] && !EqIgnoreCase(name, "name") && name == remote
  }

  /** `remote_exists`. */
  predicate RemoteExists(csv: string, remote: string) {
    exists i :: 0 <= i < |Lines(csv)| && Names(Lines(csv)[i], remote)
  }

  // ---------- the remote table ----------

  datatype Remote = Remote(name: string, url: string)

  /** What the client knows: its remotes in order, and the name of the current one. */
  datatype Table = Table(remotes: seq<Remote>, current: string)

  predicate Has(t: Table, name: string) {
    exists i :: 0 <= i < |t.remotes| && t.remotes[i].name == name
  }

  /** What the client's CSV printer puts in quotes. */
  predicate NeedsQuotes(field: string) {
    || field == "\\."
    || (field != [] && field[0] in WHITE_SPACE)
    || !Free(field, ',') || !Free(field, '"') || !Free(field, '\r') || !Free(field, '\n')
  }

  function CsvField(field: string): string {
    if NeedsQuotes(field) then "\"" + Replace(field, '"', "\"\"") + "\"" else field
  }

  function Row(r: Remote, current: string): string {
    CsvField(r.name + if r.name == current then CURRENT else []) + "," + CsvField(r.url)
  }

  function Rows(t: Table): (rows: seq<string>)
    ensures |rows| == |t.remotes|
    ensures forall i :: 0 <= i < |rows| ==> rows[i] == Row(t.remotes[i], t.current)
  {
    seq(|t.remotes|, i requires 0 <= i < |t.remotes| => Row(t.remotes[i], t.current))
  }

  /** `remote list --format csv`. */
  function Listing(t: Table): string {
    Unlines(Rows(t))
  }

  // ---------- the runner ----------

  datatype Call = List | Add(name: string, url: string) | Switch(name: string)

  /** A call and whether it succeeded. */
  datatype Entry = Entry(call: Call, ok: bool)

  /** The client's table, the calls made so far, and which of the next calls fail for reasons of their own. */
  datatype Client = Client(table: Table, log: seq<Entry>, faults: seq<bool>)

  function Faulty(c: Client): bool {
    c.faults != [] && c.faults[0]
  }

  function Record(c: Client, call: Call, ok: bool): Client {
    c.(log := c.log + [Entry(call, ok)], faults := if c.faults == [] then [] else c.faults[1..])
  }

  /** One run of the client: adding an existing remote and switching to an unknown one fail. */
  function RunCall(c: Client, call: Call): (Client, Option<string>) {
    if Faulty(c) then
      (Record(c, call, false), None)
    else
      match call
      case List => (Record(c, call, true), Some(Listing(c.table)))
      case Add(name, url) =>
        if Has(c.table, name) then (Record(c, call, false), None)
        else
          (Record(c.(table := c.table.(remotes := c.table.remotes + [Remote(name, url)])), call, true), Some([]))
      case Switch(name) =>
        if Has(c.table, name) then (Record(c.(table := c.table.(current := name)), call, true), Some([]))
        else (Record(c, call, false), None)
  }

  datatype CliError = InvalidRemoteName(name: string) | MissingPkiMaterial | NotPrepared | IncusFailed

  /** What the run finds before it calls the client; `address` is none if copying, starting or resolving fails. */
  datatype Setup = Setup(certExists: bool, keyExists: bool, address: Option<Ipv4Addr>)

  function RemoteUrl(ip: Ipv4Addr): string {
    "https://" + ShowIpv4(ip) + ":8443"
  }

  /** The client calls of a run whose address is known. */
  function Wire(c: Client, name: string, url: string): (Client, Option<CliError>) {
    var (c1, csv) := RunCall(c, List);
    if csv.None? then (c1, Some(IncusFailed))
    else
      var (c2, ok) := if RemoteExists(csv.value, name) then (c1, Some([])) else RunCall(c1, Add(name, url));
      if ok.None? then (c2, Some(IncusFailed))
      else
        var (c3, switched) := RunCall(c2, Switch(name));
        (c3, if switched.None? then Some(IncusFailed) else None)
  }

  function Configure(c: Client, setup: Setup, name: string): (Client, Option<CliError>) {
    if !ValidMountName(name) then (c, Some(InvalidRemoteName(name)))
    else if !setup.certExists || !setup.keyExists then (c, Some(MissingPkiMaterial))
    else if setup.address.None? then (c, Some(NotPrepared))
    else Wire(c, name, RemoteUrl(setup.address.value))
  }

  /** The runner the command drives. */
  class IncusRunner {
    var client: Client

    constructor (client: Client)
      ensures this.client == client
    {
      this.client := client;
    }

    method Run(call: Call) returns (r: Option<string>)
      modifies this
      ensures (client, r) == RunCall(old(client), call)
    {
      hide Listing, Has;
      var (next, output) := RunCall(client, call);
      client := next;
      r := output;
    }
  }

  /** `cmd_autoconfigure_with_runner`, from the checks to the last call. */
  method AutoconfigureWithRunner(runner: IncusRunner, setup: Setup, name: string) returns (e: Option<CliError>)
    modifies runner
    ensures (runner.client, e) == Configure(old(runner.client), setup, name)
  {
    hide RunCall, RemoteExists, ValidMountName, RemoteUrl;
    if !ValidMountName(name) {
      return Some(InvalidRemoteName(name));
    }
    if !setup.certExists || !setup.keyExists {
      return Some(MissingPkiMaterial);
    }
    if setup.address.None? {
      return Some(NotPrepared);
    }
    var remoteUrl := RemoteUrl(setup.address.value);
    var csv := runner.Run(List);
    if csv.None? {
      return Some(IncusFailed);
    }
    if !RemoteExists(csv.value, name) {
      var added := runner.Run(Add(name, remoteUrl));
      if added.None? {
        return Some(IncusFailed);
      }
    }
    var switched := runner.Run(Switch(name));
    if switched.None? {
      return Some(IncusFailed);
    }
    return None;
  }
}
