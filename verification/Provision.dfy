/** The cloud-init renderer of src/provision.rs. */
module Provision {
  import opened Wrappers
  import opened Text
  import opened CloudText

  datatype MountSpec = MountSpec(tag: string)

  datatype ProvisionSpec = ProvisionSpec(
    hostname: string,
    bridgeCidr: string,
    clientCertPem: string,
    serverCertPem: string,
    serverKeyPem: string,
    mounts: seq<MountSpec>,
    stateTag: Option<string>)

  datatype ProvisionError =
    | EmptyHostname
    | EmptyBridgeCidr
    | EmptyMountTag
    | InvalidMountTag(tag: string)

  // ---------- validation ----------

  function ValidateMountTag(tag: string): Option<ProvisionError> {
    if IsBlank(tag) then Some(EmptyMountTag)
    else if AllNameChars(tag) then None
    else Some(InvalidMountTag(tag))
  }

  function MountObjection(): MountSpec -> Option<ProvisionError> {
    (m: MountSpec) => ValidateMountTag(m.tag)
  }

  /** The first objection in the order of the checks, or none. */
  function Validate(spec: ProvisionSpec): Option<ProvisionError> {
    if IsBlank(spec.hostname) then Some(EmptyHostname)
    else if IsBlank(spec.bridgeCidr) then Some(EmptyBridgeCidr)
    else
      OrElse(FirstOf(spec.mounts, MountObjection()),
             if spec.stateTag.Some? then ValidateMountTag(spec.stateTag.value) else None)
  }

  /** All tags the guest mounts: the shares in order, then the state share. */
  function MountTags(spec: ProvisionSpec): seq<string> {
    Tags(spec.mounts) + if spec.stateTag.Some? then [spec.stateTag.value] else []
  }

  function Tags(mounts: seq<MountSpec>): (tags: seq<string>)
    ensures |tags| == |mounts|
    ensures forall i :: 0 <= i < |mounts| ==> tags[i] == mounts[i].tag
  {
    seq(|mounts|, i requires 0 <= i < |mounts| => mounts[i].tag)
  }

  /** A tag passes exactly when it is a non-empty string of name characters. */
  lemma ValidTagIs(tag: string)
    ensures ValidateMountTag(tag).None? <==> IsName(tag)
  {
    hide IsBlank;
    BlankIs(tag);
    if tag != [] && AllNameChars(tag) {
      assert IsNameChar(tag[0]) && tag[0] !in WHITE_SPACE;
    }
  }

  lemma ValidSpecHasValidTags(spec: ProvisionSpec)
    requires Validate(spec).None?
    ensures forall i :: 0 <= i < |MountTags(spec)| ==> IsName(MountTags(spec)[i])
  {
    hide ValidateMountTag, IsBlank, IsName, AllNameChars;
    FirstOfNone(spec.mounts, MountObjection());
    forall i | 0 <= i < |MountTags(spec)| ensures IsName(MountTags(spec)[i]) {
      ValidTagIs(MountTags(spec)[i]);
      if i < |spec.mounts| {
        assert MountObjection()(spec.mounts[i]).None?;
      }
    }
  }

  // ---------- the document as a value ----------

  function Spaces(n: nat): (s: string)
    ensures |s| == n && forall i :: 0 <= i < n ==> s[i] == ' '
  {
    seq(n, _ => ' ')
  }

  function Indented(indent: nat, lines: seq<string>): string {
    if lines == [] then [] else Spaces(indent) + lines[0] + "\n" + Indented(indent, lines[1..])
  }

  /** The lines `push_block` writes: those of the content without its trailing line feeds. */
  function BlockLines(content: string): seq<string> {
    Lines(TrimEnd(content, {'\n'}))
  }

  function Block(indent: nat, content: string): string {
    Indented(indent, BlockLines(content))
  }

  /** The preseed up to the bridge address. */
  function PreseedHead(): string {
    Unlines(TopLines()) + AddressKey()
  }

  /** The lines after the one with the bridge address. */
  function PreseedRest(): string {
    Unlines(PoolLines()) + (SourceKey() + PoolSource() + "\n" + Unlines(ProfileLines()))
  }

  function Preseed(bridgeCidr: string): string {
    PreseedHead() + bridgeCidr + ("\n" + PreseedRest())
  }

  /** `render_network_config`. */
  function NetworkConfig(): string {
    Unlines(NetworkLines())
  }

  function Preamble(): string {
    Head() + "network:\n" + Block(2, NetworkConfig()) + Boot()
  }

  function FileHeader(path: string, mode: string): string {
    "  - path: " + path + "\n    permissions: \"" + mode + "\"\n    content: |\n"
  }

  function FileText(path: string, mode: string, payload: string): string {
    FileHeader(path, mode) + Block(6, payload)
  }

  const SERVER_CERT := "/var/lib/incus/server.crt"
  const SERVER_KEY := "/var/lib/incus/server.key"
  const CLIENT_CERT := "/var/lib/malleus/client.crt"
  const PRESEED := "/var/lib/malleus/preseed.yaml"

  function FilesText(spec: ProvisionSpec): string {
    FileText(SERVER_CERT, "0644", spec.serverCertPem) +
    FileText(SERVER_KEY, "0600", spec.serverKeyPem) +
    FileText(CLIENT_CERT, "0644", spec.clientCertPem) +
    FileText(PRESEED, "0644", Preseed(spec.bridgeCidr))
  }

  function MountLine(tag: string): string {
    "  - [ \"" + tag + "\", \"/mnt/mac/" + tag + "\", \"virtiofs\", \"defaults,_netdev\", \"0\", \"0\" ]\n"
  }

  function MountLines(tags: seq<string>): string {
    if tags == [] then [] else MountLine(tags[0]) + MountLines(tags[1..])
  }

  function MountsText(tags: seq<string>): string {
    if tags == [] then [] else "mounts:\n" + MountLines(tags)
  }

  function StateScriptText(stateTag: Option<string>): string {
    if stateTag.Some? then LoopHead() + StateScript() + stateTag.value + StateScriptEnd() else []
  }

  function MkdirLine(tag: string): string {
    "  - [mkdir, -p, /mnt/mac/" + tag + "]\n"
  }

  function MkdirLines(mounts: seq<MountSpec>): string {
    if mounts == [] then [] else MkdirLine(mounts[0].tag) + MkdirLines(mounts[1..])
  }

  /** The line that ends the run section when there are mounts. */
  function MountAll(mounts: seq<MountSpec>): string {
    if mounts != [] then "  - [mount, -a]\n" else []
  }

  function RunText(spec: ProvisionSpec): string {
    RunHead() + StateScriptText(spec.stateTag) + (LoopHead() + VsockScript() + Install()) +
    (MkdirLines(spec.mounts) + MountAll(spec.mounts))
  }

  function UserData(spec: ProvisionSpec): string {
    Preamble() + FilesText(spec) + MountsText(MountTags(spec)) + RunText(spec)
  }

  // ---------- rendering ----------

  /** `push_block`. */
  method PushBlock(out: string, indent: nat, content: string) returns (r: string)
    ensures r == out + Block(indent, content)
  {
    r := out;
    var prefix := Spaces(indent);
    var lines := Lines(TrimEnd(content, {'\n'}));
    for i := 0 to |lines|
      invariant r + Indented(indent, lines[i..]) == out + Block(indent, content)
    {
      ghost var rest := Indented(indent, lines[i + 1..]);
      assert lines[i..][1..] == lines[i + 1..];
      assert r + (prefix + lines[i] + "\n" + rest) == r + prefix + lines[i] + "\n" + rest;
      r := r + prefix;
      r := r + lines[i];
      r := r + "\n";
    }
    assert r + [] == r;
  }

  method PushFile(out: string, path: string, mode: string, payload: string) returns (r: string)
    ensures r == out + FileText(path, mode, payload)
  {
    var header := FileHeader(path, mode);
    r := PushBlock(out + header, 6, payload);
    assert out + header + Block(6, payload) == out + (header + Block(6, payload));
  }

  method PushPreamble() returns (r: string)
    ensures r == Preamble()
  {
    hide Head, NetworkConfig, Boot, Block;
    r := Head() + "network:\n";
    r := PushBlock(r, 2, NetworkConfig());
    r := r + Boot();
  }

  method PushFiles(out: string, spec: ProvisionSpec) returns (r: string)
    ensures r == out + FilesText(spec)
  {
    var preseed := Preseed(spec.bridgeCidr);
    r := PushFile(out, SERVER_CERT, "0644", spec.serverCertPem);
    r := PushFile(r, SERVER_KEY, "0600", spec.serverKeyPem);
    r := PushFile(r, CLIENT_CERT, "0644", spec.clientCertPem);
    r := PushFile(r, PRESEED, "0644", preseed);
    Regroup(out, FileText(SERVER_CERT, "0644", spec.serverCertPem), FileText(SERVER_KEY, "0600", spec.serverKeyPem),
            FileText(CLIENT_CERT, "0644", spec.clientCertPem), FileText(PRESEED, "0644", preseed));
  }

  method PushMounts(out: string, spec: ProvisionSpec) returns (r: string)
    ensures r == out + MountsText(MountTags(spec))
  {
    hide MountLine;
    r := out;
    ghost var tags := MountTags(spec);
    if spec.mounts != [] || spec.stateTag.Some? {
      r := r + "mounts:\n";
      ghost var start := r;
      for i := 0 to |spec.mounts|
        invariant r + MountLines(tags[i..]) == start + MountLines(tags)
      {
        assert tags[i..][1..] == tags[i + 1..];
        var line := MountLine(spec.mounts[i].tag);
        assert r + (line + MountLines(tags[i + 1..])) == r + line + MountLines(tags[i + 1..]);
        r := r + line;
      }
      if spec.stateTag.Some? {
        assert tags[|spec.mounts|..] == [spec.stateTag.value];
        assert MountLines([spec.stateTag.value]) == MountLine(spec.stateTag.value) by {
          assert [spec.stateTag.value][1..] == [];
          assert MountLine(spec.stateTag.value) + [] == MountLine(spec.stateTag.value);
        }
        r := r + MountLine(spec.stateTag.value);
      } else {
        assert tags[|spec.mounts|..] == [];
        assert r + [] == r;
      }
      assert out + "mounts:\n" + MountLines(tags) == out + ("mounts:\n" + MountLines(tags));
    } else {
      assert out + [] == out;
    }
  }

  /** Appending one piece at a time appends the concatenation. */
  lemma Regroup(p: string, a: string, b: string, c: string, d: string)
    ensures p + a + b + c + d == p + (a + b + c + d)
  {
  }

  lemma Regroup3(p: string, a: string, b: string, c: string)
    ensures p + a + b + c == p + (a + b + c)
  {
  }

  method PushMkdirs(out: string, mounts: seq<MountSpec>) returns (r: string)
    ensures r == out + (MkdirLines(mounts) + MountAll(mounts))
  {
    r := out;
    for i := 0 to |mounts|
      invariant r + MkdirLines(mounts[i..]) == out + MkdirLines(mounts)
    {
      assert mounts[i..][1..] == mounts[i + 1..];
      var line := MkdirLine(mounts[i].tag);
      assert r + (line + MkdirLines(mounts[i + 1..])) == r + line + MkdirLines(mounts[i + 1..]);
      r := r + line;
    }
    assert r + [] == r;
    if mounts != [] {
      r := r + "  - [mount, -a]\n";
      assert out + MkdirLines(mounts) + "  - [mount, -a]\n" == out + (MkdirLines(mounts) + "  - [mount, -a]\n");
    } else {
      assert MkdirLines(mounts) + [] == MkdirLines(mounts);
    }
  }

  method PushRun(out: string, spec: ProvisionSpec) returns (r: string)
    ensures r == out + RunText(spec)
  {
    hide LoopHead, VsockScript, Install, StateScript, StateScriptEnd, RunHead, MkdirLines, MountAll;
    r := out + RunHead();
    ghost var state := StateScriptText(spec.stateTag);
    if spec.stateTag.Some? {
      r := r + (LoopHead() + StateScript());
      r := r + spec.stateTag.value;
      r := r + StateScriptEnd();
      Regroup3(out + RunHead(), LoopHead() + StateScript(), spec.stateTag.value, StateScriptEnd());
    } else {
      assert r + [] == r;
    }
    var fixed := LoopHead() + VsockScript() + Install();
    r := r + fixed;
    r := PushMkdirs(r, spec.mounts);
    Regroup(out, RunHead(), state, fixed,
            MkdirLines(spec.mounts) + MountAll(spec.mounts));
  }

  /** `render_user_data`: the first validation error, or the whole document. */
  method RenderUserData(spec: ProvisionSpec) returns (r: Result<string, ProvisionError>)
    ensures r == if Validate(spec).Some? then Err(Validate(spec).value) else Ok(UserData(spec))
  {
    hide Preamble, FilesText, MountsText, MountTags, RunText, Validate;
    var objection := Validate(spec);
    if objection.Some? {
      return Err(objection.value);
    }
    var out := PushPreamble();
    out := PushFiles(out, spec);
    out := PushMounts(out, spec);
    out := PushRun(out, spec);
    return Ok(out);
  }

  /** `render_meta_data`. */
  function MetaData(spec: ProvisionSpec): Result<string, ProvisionError> {
    if Validate(spec).Some? then Err(Validate(spec).value)
    else Ok("instance-id: malleus-" + spec.hostname + "\nlocal-hostname: " + spec.hostname + "\n")
  }
}
