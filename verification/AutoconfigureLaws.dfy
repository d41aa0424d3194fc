/** Autoconfigure reads the remote table exactly, and is idempotent on it. */
module AutoconfigureLaws {
  import opened Wrappers
  import opened Text
  import opened Numbers
  import opened Ipv4
  import CloudText
  import opened Autoconfigure

  // ---------- the listing is read exactly ----------

  lemma TrimKeeps(s: string)
    requires s != [] && s[0] !in WHITE_SPACE && s[|s| - 1] !in WHITE_SPACE
    ensures Trim(s) == s
  {
  }

  lemma NameCharsAreNotSpace(c: char)
    requires IsNameChar(c)
    ensures c !in WHITE_SPACE && c != ',' && c != ')' && c != '\n'
  {
  }

  /**
   A name that a row of the listing shows as it is: not empty, printed without quotes,
   with no blank at its end, and not ending like the marker of the current remote.
   */
  predicate IsListable(name: string) {
    name != [] && !NeedsQuotes(name) && name[|name| - 1] !in WHITE_SPACE && TrimSuffix(name, CURRENT) == name
  }

  /** The names malleus accepts are of that kind. */
  lemma NameIsListable(name: string)
    requires IsName(name)
    ensures IsListable(name)
  {
    forall i | 0 <= i < |name| ensures IsNameChar(name[i]) && name[i] != ')' && name[i] !in WHITE_SPACE {
      NameCharsAreNotSpace(name[i]);
    }
    assert "\\."[0] == '\\';
    assert CURRENT[|CURRENT| - 1] == ')';
    assert |CURRENT| <= |name| ==> name[|name| - |CURRENT|..][|CURRENT| - 1] == name[|name| - 1];
  }

  /** The marker does not bring quotes about. */
  lemma MarkedNeedsNoQuotes(name: string)
    requires IsListable(name)
    ensures CsvField(name) == name && CsvField(name + CURRENT) == name + CURRENT
  {
    assert Free(CURRENT, ',') && Free(CURRENT, '"') && Free(CURRENT, '\r') && Free(CURRENT, '\n');
    var field := name + CURRENT;
    assert field[0] == name[0] && |field| > 2;
    hide Free;
    FreeConcat(name, CURRENT, ',');
    FreeConcat(name, CURRENT, '"');
    FreeConcat(name, CURRENT, '\r');
    FreeConcat(name, CURRENT, '\n');
  }

  /** The first field of a printed row is the remote's name, marked as current or not. */
  lemma NameOfRow(name: string, marked: bool, rest: string)
    requires IsListable(name)
    ensures NameOf(name + (if marked then CURRENT else []) + "," + rest) == name
  {
    var field := name + if marked then CURRENT else [];
    assert Free(CURRENT, ',') && CURRENT[9] == ')';
    assert Free(field, ',');
    assert name + (if marked then CURRENT else []) + "," + rest == field + [','] + rest;
    SplitAtFirst(field, ',', rest);
    assert ')' !in WHITE_SPACE;
    TrimKeeps(field);
    if marked {
      assert field[|field| - |CURRENT|..] == CURRENT && field[..|field| - |CURRENT|] == name;
    } else {
      assert field == name;
    }
  }

  /** Every remote has a listable name and a URL on one line. */
  predicate IsPrintable(t: Table) {
    forall i :: 0 <= i < |t.remotes| ==> IsListable(t.remotes[i].name) && Free(t.remotes[i].url, '\n')
  }

  lemma {:induction false} ReplaceKeepsLine(s: string, c: char, sub: string)
    requires Free(s, '\n') && Free(sub, '\n')
    ensures Free(Replace(s, c, sub), '\n')
  {
    if s != [] {
      ReplaceKeepsLine(s[1..], c, sub);
    }
  }

  lemma CsvFieldIsOneLine(field: string)
    requires Free(field, '\n')
    ensures Free(CsvField(field), '\n')
  {
    assert Free("\"\"", '\n');
    ReplaceKeepsLine(field, '"', "\"\"");
  }

  lemma RowIsOneLine(r: Remote, current: string)
    requires IsListable(r.name) && Free(r.url, '\n')
    ensures Free(Row(r, current), '\n')
  {
    MarkedNeedsNoQuotes(r.name);
    assert Free(CURRENT, '\n') && Free(",", '\n');
    CsvFieldIsOneLine(r.url);
    assert Free(r.name, '\n');
    hide Free, CsvField;
    FreeConcat(r.name, CURRENT, '\n');
    var field := r.name + if r.name == current then CURRENT else [];
    assert r.name + [] == r.name;
    FreeConcat(field, ",", '\n');
    FreeConcat(field + ",", CsvField(r.url), '\n');
  }

  lemma ChompedRow(field: string, url: string) returns (rest: string)
    ensures ChompReturn(field + "," + url) == field + "," + rest
  {
    if url != [] && url[|url| - 1] == '\r' {
      rest := url[..|url| - 1];
    } else {
      rest := url;
    }
  }

  lemma RowReadsBack(r: Remote, current: string)
    requires IsListable(r.name) && Free(r.url, '\n')
    ensures NameOf(ChompReturn(Row(r, current))) == r.name
  {
    hide NameOf, IsListable, ChompReturn, CsvField;
    MarkedNeedsNoQuotes(r.name);
    assert r.name + [] == r.name;
    var rest := ChompedRow(r.name + if r.name == current then CURRENT else [], CsvField(r.url));
    NameOfRow(r.name, r.name == current, rest);
  }

  lemma ListingLines(t: Table)
    requires IsPrintable(t)
    ensures |Lines(Listing(t))| == |t.remotes|
    ensures forall i :: 0 <= i < |t.remotes| ==> NameOf(Lines(Listing(t))[i]) == t.remotes[i].name
  {
    hide Row, NameOf, ChompReturn, Lines, IsListable;
    forall i | 0 <= i < |t.remotes|
      ensures Free(Rows(t)[i], '\n') && NameOf(ChompReturn(Rows(t)[i])) == t.remotes[i].name
    {
      RowIsOneLine(t.remotes[i], t.current);
      RowReadsBack(t.remotes[i], t.current);
    }
    LinesOfUnlines(Rows(t));
  }

  /** On a printed listing, `remote_exists` is membership, except for case variants of "name", which it never finds. */
  lemma RemoteExistsIs(t: Table, name: string)
    requires IsPrintable(t)
    ensures RemoteExists(Listing(t), name) <==> Has(t, name) && !EqIgnoreCase(name, "name")
  {
    hide NameOf, Lines, Listing, EqIgnoreCase, TrimSuffix;
    ListingLines(t);
    var lines := Lines(Listing(t));
    if Has(t, name) && !EqIgnoreCase(name, "name") {
      var i :| 0 <= i < |t.remotes| && t.remotes[i].name == name;
      assert Names(lines[i], name);
    }
  }

  /** It is membership on every listing exactly when the name is not a case variant of "name". */
  lemma RemoteExistsIsMembership(name: string)
    requires IsListable(name)
    ensures (forall t :: IsPrintable(t) ==> (RemoteExists(Listing(t), name) <==> Has(t, name))) <==>
            !EqIgnoreCase(name, "name")
  {
    hide RemoteExists, Listing, EqIgnoreCase, IsListable;
    forall t | IsPrintable(t) {
      RemoteExistsIs(t, name);
    }
    var t := Table([Remote(name, [])], []);
    assert IsPrintable(t) && Has(t, name) by { assert t.remotes[0].name == name; }
  }

  // ---------- the calls of a run ----------

  /** The calls a run adds to the log. */
  function NewCalls(before: Client, after: Client): seq<Entry>
    requires before.log <= after.log
  {
    after.log[|before.log|..]
  }

  /** List first, then perhaps one add, then perhaps switch; only the last call may have failed. */
  predicate IsProtocol(calls: seq<Entry>, name: string) {
    && |calls| <= 3
    && (forall i :: 0 <= i < |calls| - 1 ==> calls[i].ok)
    && (|calls| >= 1 ==> calls[0].call == List)
    && (|calls| == 2 ==> calls[1].call.Add? || calls[1].call == Switch(name))
    && (|calls| == 3 ==> calls[1].call.Add? && calls[2].call == Switch(name))
    && (forall i :: 0 <= i < |calls| && calls[i].call.Add? ==> calls[i].call.name == name)
  }

  predicate Adds(calls: seq<Entry>) {
    exists i :: 0 <= i < |calls| && calls[i].call.Add?
  }

  lemma RunCallExtends(c: Client, call: Call)
    ensures RunCall(c, call).0.log == c.log + [Entry(call, RunCall(c, call).1.Some?)]
  {
    hide Listing, Has;
  }

  /** What a wiring does, in one place. */
  lemma WireIs(c: Client, name: string, url: string)
    requires IsPrintable(c.table)
    ensures c.log <= Wire(c, name, url).0.log
    ensures var (d, e) := Wire(c, name, url); var calls := NewCalls(c, d);
            && calls != [] && IsProtocol(calls, name) && calls[0] == Entry(List, !Faulty(c))
            && (e.None? <==> calls[|calls| - 1] == Entry(Switch(name), true))
            && (Adds(calls) <==> !Faulty(c) && !(Has(c.table, name) && !EqIgnoreCase(name, "name")))
  {
    hide RunCall, RemoteExists, Listing, Has, EqIgnoreCase, IsName;
    RemoteExistsIs(c.table, name);
    ListIs(c);
    var (c1, csv) := RunCall(c, List);
    RunCallExtends(c, List);
    if csv.Some? {
      if RemoteExists(csv.value, name) {
        RunCallExtends(c1, Switch(name));
        var (c3, r) := RunCall(c1, Switch(name));
        assert c3.log[|c.log|..] == [Entry(List, true), Entry(Switch(name), r.Some?)];
      } else {
        RunCallExtends(c1, Add(name, url));
        var (c2, ok) := RunCall(c1, Add(name, url));
        if ok.Some? {
          RunCallExtends(c2, Switch(name));
          var (c3, r) := RunCall(c2, Switch(name));
          assert c3.log[|c.log|..] == [Entry(List, true), Entry(Add(name, url), true), Entry(Switch(name), r.Some?)];
          assert [Entry(List, true), Entry(Add(name, url), true), Entry(Switch(name), r.Some?)][1].call.Add?;
        } else {
          assert c2.log[|c.log|..] == [Entry(List, true), Entry(Add(name, url), false)];
          assert [Entry(List, true), Entry(Add(name, url), false)][1].call.Add?;
        }
      }
    } else {
      assert c1.log[|c.log|..] == [Entry(List, false)];
    }
  }

  lemma ListIs(c: Client)
    ensures RunCall(c, List).0.table == c.table
    ensures RunCall(c, List).1 == if Faulty(c) then None else Some(Listing(c.table))
  {
    hide Listing, Has;
  }

  lemma RunCallTable(c: Client, call: Call)
    ensures var (d, r) := RunCall(c, call);
            match call
            case List => d.table == c.table
            case Add(name, url) =>
              d.table == (if r.Some? then c.table.(remotes := c.table.remotes + [Remote(name, url)]) else c.table)
              && (r.Some? <==> !Faulty(c) && !Has(c.table, name))
            case Switch(name) =>
              d.table == (if r.Some? then c.table.(current := name) else c.table)
              && (r.Some? <==> !Faulty(c) && Has(c.table, name))
  {
    hide Listing, Has;
  }

  lemma CurrentDoesNotMatter(t: Table, name: string, current: string)
    ensures Has(t.(current := current), name) == Has(t, name)
  {
  }

  /** The table after a wiring: at most one remote is added, and only under a name that was absent. */
  lemma WireChangesTable(c: Client, name: string, url: string)
    ensures var (d, e) := Wire(c, name, url);
            && (d.table.remotes == c.table.remotes
                || (!Has(c.table, name) && d.table.remotes == c.table.remotes + [Remote(name, url)]))
            && (e.None? ==> Has(d.table, name) && d.table.current == name)
            && (e.Some? ==> d.table.current == c.table.current)
  {
    hide RunCall, RemoteExists, Listing, Has;
    var (c1, csv) := RunCall(c, List);
    RunCallTable(c, List);
    if csv.Some? {
      if RemoteExists(csv.value, name) {
        SwitchChangesCurrent(c1, name);
        assert Wire(c, name, url).0 == RunCall(c1, Switch(name)).0;
      } else {
        RunCallTable(c1, Add(name, url));
        var (c2, ok) := RunCall(c1, Add(name, url));
        if ok.Some? {
          SwitchChangesCurrent(c2, name);
          assert Wire(c, name, url).0 == RunCall(c2, Switch(name)).0;
        } else {
          assert Wire(c, name, url) == (c2, Some(IncusFailed));
        }
      }
    }
  }

  lemma SwitchChangesCurrent(c: Client, name: string)
    ensures var (d, r) := RunCall(c, Switch(name));
            d.table.remotes == c.table.remotes
            && (if r.Some? then Has(d.table, name) && d.table.current == name else d.table == c.table)
  {
    hide RunCall, Has;
    RunCallTable(c, Switch(name));
    CurrentDoesNotMatter(c.table, name, name);
  }

  /**
   A run makes no call, or lists, adds at most once, and switches last: nothing
   follows a call that failed. It succeeds exactly when the switch does.
   */
  lemma ConfigureFollowsProtocol(c: Client, setup: Setup, name: string)
    requires IsPrintable(c.table)
    ensures c.log <= Configure(c, setup, name).0.log
    ensures var (d, e) := Configure(c, setup, name); var calls := NewCalls(c, d);
            && IsProtocol(calls, name)
            && (e.None? <==> calls != [] && calls[|calls| - 1] == Entry(Switch(name), true))
            && (Adds(calls) ==> !Has(c.table, name) || EqIgnoreCase(name, "name"))
  {
    hide Wire, Has, EqIgnoreCase, IsName, ValidMountName, RemoteUrl;
    ValidMountNameIs(name);
    if IsName(name) && setup.certExists && setup.keyExists && setup.address.Some? {
      hide IsProtocol;
      WireIs(c, name, RemoteUrl(setup.address.value));
    } else {
      assert c.log[|c.log|..] == [];
    }
  }

  lemma ShowsNoNewline(ip: Ipv4Addr)
    ensures Free(RemoteUrl(ip), '\n')
  {
    JoinHasNoNewline(ShowParts(ip));
  }

  lemma {:induction false} JoinHasNoNewline(parts: seq<string>)
    requires forall i :: 0 <= i < |parts| ==> Free(parts[i], '\n')
    ensures Free(Join(parts, "."), '\n')
  {
    if |parts| > 1 {
      JoinHasNoNewline(parts[1..]);
    }
  }

  /** The table stays printable, so the next run reads it exactly too. */
  lemma ConfigureKeepsPrintable(c: Client, setup: Setup, name: string)
    requires IsPrintable(c.table)
    ensures IsPrintable(Configure(c, setup, name).0.table)
  {
    hide Wire, Has, IsName, IsListable, ValidMountName, RemoteUrl, Free;
    ValidMountNameIs(name);
    if IsName(name) && setup.certExists && setup.keyExists && setup.address.Some? {
      var url := RemoteUrl(setup.address.value);
      ShowsNoNewline(setup.address.value);
      NameIsListable(name);
      WireChangesTable(c, name, url);
    }
  }

  // ---------- histories ----------

  /** One later run: what it finds, the name it is given, and which of its calls fail. */
  datatype Attempt = Attempt(setup: Setup, name: string, faults: seq<bool>)

  function Try(c: Client, attempt: Attempt): (Client, Option<CliError>) {
    Configure(c.(faults := attempt.faults), attempt.setup, attempt.name)
  }

  function History(c: Client, attempts: seq<Attempt>): Client
    decreases |attempts|
  {
    if attempts == [] then c else History(Try(c, attempts[0]).0, attempts[1..])
  }

  predicate AddsRemote(calls: seq<Entry>, name: string) {
    exists i :: 0 <= i < |calls| && calls[i].call.Add? && calls[i].call.name == name
  }

  /** One run removes no remote and does not add a present one. */
  lemma TryKeepsRemote(c: Client, attempt: Attempt, name: string)
    requires IsPrintable(c.table) && Has(c.table, name)
    ensures var d := Try(c, attempt).0;
            && IsPrintable(d.table) && Has(d.table, name) && c.log <= d.log
            && (!EqIgnoreCase(name, "name") ==> !AddsRemote(NewCalls(c, d), name))
  {
    hide Wire, EqIgnoreCase, ValidMountName, RemoteUrl, IsListable;
    var b := c.(faults := attempt.faults);
    ConfigureKeepsPrintable(b, attempt.setup, attempt.name);
    ConfigureFollowsProtocol(b, attempt.setup, attempt.name);
    var d := Try(c, attempt).0;
    if d != b {
      WireChangesTable(b, attempt.name, RemoteUrl(attempt.setup.address.value));
    }
    var i :| 0 <= i < |c.table.remotes| && c.table.remotes[i].name == name;
    assert d.table.remotes[i].name == name;
    AddsOnlyOwn(NewCalls(c, d), attempt.name, name);
  }

  lemma AddsOnlyOwn(calls: seq<Entry>, own: string, name: string)
    requires IsProtocol(calls, own)
    ensures AddsRemote(calls, name) ==> Adds(calls) && own == name
  {
  }

  lemma SplitCalls(before: Client, middle: Client, after: Client)
    requires before.log <= middle.log <= after.log
    ensures NewCalls(before, after) == NewCalls(before, middle) + NewCalls(middle, after)
  {
  }

  lemma {:induction false} HistoryKeepsRemote(c: Client, attempts: seq<Attempt>, name: string)
    requires IsPrintable(c.table) && Has(c.table, name)
    ensures var d := History(c, attempts);
            && IsPrintable(d.table) && Has(d.table, name) && c.log <= d.log
            && (!EqIgnoreCase(name, "name") ==> !AddsRemote(NewCalls(c, d), name))
    decreases |attempts|
  {
    hide Try, Has, EqIgnoreCase, IsPrintable;
    if attempts == [] {
      assert NewCalls(c, c) == [];
    } else {
      var middle := Try(c, attempts[0]).0;
      TryKeepsRemote(c, attempts[0], name);
      HistoryKeepsRemote(middle, attempts[1..], name);
      SplitCalls(c, middle, History(middle, attempts[1..]));
    }
  }

  lemma SuccessLeavesRemote(c: Client, first: Attempt)
    requires IsPrintable(c.table) && Try(c, first).1.None?
    ensures IsPrintable(Try(c, first).0.table) && Has(Try(c, first).0.table, first.name) && IsName(first.name)
  {
    hide Wire, Has, IsName, IsPrintable, ValidMountName, RemoteUrl;
    var b := c.(faults := first.faults);
    ValidMountNameIs(first.name);
    ConfigureKeepsPrintable(b, first.setup, first.name);
    WireChangesTable(b, first.name, RemoteUrl(first.setup.address.value));
  }

  /**
   After a success the remote stays in the table, and no call of any history of later
   runs, with whatever names, setups and faults, adds it again: this holds for every
   name but the case variants of "name".
   */
  lemma NoHistoryAddsAgain(c: Client, first: Attempt, later: seq<Attempt>)
    requires IsPrintable(c.table) && Try(c, first).1.None?
    ensures var d := Try(c, first).0; var e := History(d, later);
            && IsPrintable(e.table) && Has(e.table, first.name) && d.log <= e.log
            && (!EqIgnoreCase(first.name, "name") ==> !AddsRemote(NewCalls(d, e), first.name))
  {
    hide Try, Has, EqIgnoreCase, IsName, IsPrintable, AddsRemote;
    SuccessLeavesRemote(c, first);
    HistoryKeepsRemote(Try(c, first).0, later, first.name);
  }

  predicate Ready(setup: Setup) {
    setup.certExists && setup.keyExists && setup.address.Some?
  }

  /**
   A later run under the same name tries to add the remote again exactly when the name
   is a case variant of "name", everything is in place and the listing succeeds.
   */
  lemma LaterRunAddsExactly(c: Client, first: Attempt, later: seq<Attempt>, again: Attempt)
    requires IsPrintable(c.table) && Try(c, first).1.None? && again.name == first.name
    ensures var e := History(Try(c, first).0, later); var f := Try(e, again).0;
            && e.log <= f.log
            && (Adds(NewCalls(e, f)) <==>
                EqIgnoreCase(first.name, "name") && Ready(again.setup) && (again.faults == [] || !again.faults[0]))
  {
    hide History, Wire, Has, EqIgnoreCase, IsName, IsPrintable, ValidMountName, RemoteUrl, IsProtocol;
    SuccessLeavesRemote(c, first);
    HistoryKeepsRemote(Try(c, first).0, later, first.name);
    var e := History(Try(c, first).0, later);
    var b := e.(faults := again.faults);
    ValidMountNameIs(first.name);
    if Ready(again.setup) {
      hide Adds;
      WireIs(b, first.name, RemoteUrl(again.setup.address.value));
    } else {
      assert Try(e, again).0 == b;
    }
  }

  /**
   With everything in place and a client that does not fail by itself, repeating a
   successful run after any history succeeds exactly when the name is no case variant
   of "name".
   */
  lemma RepeatingSucceeds(c: Client, first: Attempt, later: seq<Attempt>, again: Setup)
    requires IsPrintable(c.table) && Try(c, first).1.None? && Ready(again)
    ensures Try(History(Try(c, first).0, later), Attempt(again, first.name, [])).1.None? <==>
            !EqIgnoreCase(first.name, "name")
  {
    hide History, Has, EqIgnoreCase, IsName, IsPrintable, ValidMountName, RemoteUrl, RemoteExists, Listing, Wire;
    SuccessLeavesRemote(c, first);
    HistoryKeepsRemote(Try(c, first).0, later, first.name);
    ValidMountNameIs(first.name);
    WireOfPresent(History(Try(c, first).0, later).(faults := []), first.name, RemoteUrl(again.address.value));
  }

  lemma WireOfPresent(c: Client, name: string, url: string)
    requires IsPrintable(c.table) && Has(c.table, name) && c.faults == []
    ensures Wire(c, name, url).1.None? <==> !EqIgnoreCase(name, "name")
  {
    hide Has, EqIgnoreCase, IsListable, RemoteExists, Listing;
    RemoteExistsIs(c.table, name);
    RunCallTable(c, List);
    ListIs(c);
    var c1 := RunCall(c, List).0;
    RunCallTable(c1, Add(name, url));
    RunCallTable(c1, Switch(name));
  }

  // ---------- in the characters of names and addresses ----------

  /** The sixteen names that are never found. */
  lemma NameVariantsAre(a: string)
    ensures EqIgnoreCase(a, "name") <==>
            |a| == 4 && a[0] in {'n', 'N'} && a[1] in {'a', 'A'} && a[2] in {'m', 'M'} && a[3] in {'e', 'E'}
  {
    assert "name"[0] == 'n' && "name"[1] == 'a' && "name"[2] == 'm' && "name"[3] == 'e';
  }

  /** The URL of an added remote names the resolved address and the port the preseed makes Incus listen on. */
  lemma UrlNamesAddressAndPort(ip: Ipv4Addr)
    ensures RemoteUrl(ip) == "https://" + ShowIpv4(ip) + ":" + "8443"
    ensures CloudText.TopLines()[1] == "  core.https_address: \"[::]:" + "8443" + "\""
    ensures ParseIpv4(ShowIpv4(ip)) == Some(ip)
  {
    ParseIpv4Meaning(ShowIpv4(ip), ip);
    hide ShowIpv4, ParseIpv4;
    assert ":" + "8443" == ":8443";
  }

  /** What a run is refused for before it makes any call, in the order of the checks. */
  lemma RefusedBeforeCalls(c: Client, setup: Setup, name: string)
    ensures Configure(c, setup, name).1 == Some(InvalidRemoteName(name)) <==> !IsName(name)
    ensures Configure(c, setup, name).1 == Some(MissingPkiMaterial) <==>
            IsName(name) && !(setup.certExists && setup.keyExists)
    ensures Configure(c, setup, name).1 == Some(NotPrepared) <==>
            IsName(name) && setup.certExists && setup.keyExists && setup.address.None?
    ensures !IsName(name) || !Ready(setup) ==> Configure(c, setup, name).0 == c
  {
    hide RunCall, RemoteExists, IsName, ValidMountName, RemoteUrl;
    ValidMountNameIs(name);
  }

  /** A run that gets that far adds the remote under its name with the address's URL, if at all, and switches to it. */
  lemma ConfigureChangesTable(c: Client, setup: Setup, name: string)
    requires IsName(name) && Ready(setup)
    ensures var (d, e) := Configure(c, setup, name);
            && (d.table.remotes == c.table.remotes
                || (!Has(c.table, name)
                    && d.table.remotes ==
                       c.table.remotes + [Remote(name, "https://" + ShowIpv4(setup.address.value) + ":8443")]))
            && (e.None? ==> Has(d.table, name) && d.table.current == name)
            && (e.Some? ==> e == Some(IncusFailed) && d.table.current == c.table.current)
  {
    hide Has, IsName, ValidMountName, ShowIpv4, RunCall, RemoteExists;
    ValidMountNameIs(name);
    WireChangesTable(c, name, RemoteUrl(setup.address.value));
  }

  /** With a working client the calls of a run are exactly these, for a remote that is there and for one that is not. */
  lemma WorkingRunIs(c: Client, setup: Setup, name: string)
    requires IsPrintable(c.table) && IsName(name) && Ready(setup) && c.faults == [] && !EqIgnoreCase(name, "name")
    ensures var (d, e) := Configure(c, setup, name);
            var url := "https://" + ShowIpv4(setup.address.value) + ":8443";
            && e.None?
            && d.table == Table(if Has(c.table, name) then c.table.remotes else c.table.remotes + [Remote(name, url)],
                                name)
            && d.log == c.log + (if Has(c.table, name) then [Entry(List, true), Entry(Switch(name), true)]
                                 else [Entry(List, true), Entry(Add(name, url), true), Entry(Switch(name), true)])
  {
    hide EqIgnoreCase, IsListable, RemoteExists, Listing, ShowIpv4, IsName, ValidMountName, IsPrintable;
    ValidMountNameIs(name);
    var url := "https://" + ShowIpv4(setup.address.value) + ":8443";
    RemoteExistsIs(c.table, name);
    ListIs(c);
    var c1 := RunCall(c, List).0;
    if !Has(c.table, name) {
      var c2 := RunCall(c1, Add(name, url)).0;
      assert c2.table.remotes[|c.table.remotes|].name == name;
      assert Has(c2.table, name);
    }
  }
}
