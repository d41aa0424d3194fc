/** Reading the vfkit argument vector back. */
module VmLaws {
  import opened Wrappers
  import opened Text
  import opened Numbers
  import CloudReader
  import CloudText
  import Provision
  import ProvisionLaws
  import opened Vm

  // ---------- the values of a flag ----------

  /** The entry after every occurrence of the flag, wherever it stands: sliding windows of two. */
  function ValuesOf(v: seq<string>, flag: string): seq<string> {
    if |v| < 2 then []
    else (if v[0] == flag then [v[1]] else []) + ValuesOf(v[1..], flag)
  }

  /** Values of every `--device` flag, in order. */
  function Devices(v: seq<string>): seq<string> {
    ValuesOf(v, DEVICE)
  }

  function PairValues(args: seq<Arg>, flag: string): seq<string> {
    if args == [] then []
    else (if args[0].flag == flag then [args[0].value] else []) + PairValues(args[1..], flag)
  }

  function DeviceValues(args: seq<Arg>): seq<string> {
    PairValues(args, DEVICE)
  }

  predicate IsFlag(s: string) {
    s != [] && s[0] == '-' && Free(s, ',')
  }

  predicate IsValue(s: string) {
    s != [] && (s[0] != '-' || !Free(s, ','))
  }

  /** No value is mistaken for a flag. */
  predicate Unambiguous(args: seq<Arg>) {
    forall i :: 0 <= i < |args| ==> IsValue(args[i].value)
  }

  lemma {:induction false} ValuesOfFlatten(args: seq<Arg>, flag: string)
    requires Unambiguous(args) && IsFlag(flag)
    ensures ValuesOf(Flatten(args), flag) == PairValues(args, flag)
  {
    if args != [] {
      var rest := Flatten(args[1..]);
      var v := Flatten(args);
      ValuesOfFlatten(args[1..], flag);
      assert v[1..] == [args[0].value] + rest;
      assert v[1..][1..] == rest;
      assert IsValue(args[0].value) && args[0].value != flag;
      assert ValuesOf(v[1..], flag) == ValuesOf(rest, flag);
    }
  }

  /** A flag that one pair carries has that pair's value. */
  lemma {:induction false} OnlyPair(args: seq<Arg>, flag: string, k: nat)
    requires k < |args| && args[k].flag == flag
    requires forall j :: 0 <= j < |args| && j != k ==> args[j].flag != flag
    ensures PairValues(args, flag) == [args[k].value]
  {
    if k == 0 {
      NoPair(args[1..], flag);
    } else {
      OnlyPair(args[1..], flag, k - 1);
    }
  }

  lemma {:induction false} NoPair(args: seq<Arg>, flag: string)
    requires forall j :: 0 <= j < |args| ==> args[j].flag != flag
    ensures PairValues(args, flag) == []
  {
    if args != [] {
      NoPair(args[1..], flag);
    }
  }

  lemma {:induction false} DeviceValuesConcat(xs: seq<Arg>, ys: seq<Arg>)
    ensures DeviceValues(xs + ys) == DeviceValues(xs) + DeviceValues(ys)
  {
    if xs == [] {
      assert xs + ys == ys;
    } else {
      assert (xs + ys)[1..] == xs[1..] + ys;
      DeviceValuesConcat(xs[1..], ys);
    }
  }

  function ShareDevices(shares: seq<Share>): seq<string> {
    seq(|shares|, i requires 0 <= i < |shares| => ShareDevice(shares[i]))
  }

  lemma {:induction false} DeviceValuesOfShares(shares: seq<Share>)
    ensures DeviceValues(ShareArgs(shares)) == ShareDevices(shares)
  {
    if shares != [] {
      hide ShareDevice;
      DeviceValuesOfShares(shares[1..]);
      assert ShareArgs(shares)[1..] == ShareArgs(shares[1..]);
      assert ShareDevices(shares) == [ShareDevice(shares[0])] + ShareDevices(shares[1..]);
    }
  }

  /** Root, pool, network, vsock, entropy, the shares in order, then the serial device if any. */
  function ExpectedDevices(spec: VmSpec): seq<string> {
    ["virtio-blk,path=" + spec.rootDisk,
     "virtio-blk,path=" + spec.poolDisk,
     "virtio-net,nat,mac=" + spec.mac,
     "virtio-vsock,port=" + Decimal(spec.readyPort) + ",socketURL=" + spec.readySocket + ",listen",
     "virtio-rng"]
    + ExpectedShares(spec.shares)
    + if spec.serialLog.Some? then ["virtio-serial,logFilePath=" + spec.serialLog.value] else []
  }

  function ExpectedShares(shares: seq<Share>): (r: seq<string>)
    ensures |r| == |shares|
    ensures forall i :: 0 <= i < |shares| ==>
              r[i] == "virtio-fs,sharedDir=" + shares[i].hostPath + ",mountTag=" + shares[i].tag
  {
    seq(|shares|, i requires 0 <= i < |shares| =>
          "virtio-fs,sharedDir=" + shares[i].hostPath + ",mountTag=" + shares[i].tag)
  }

  lemma ExpectedSharesAre(shares: seq<Share>)
    ensures ExpectedShares(shares) == ShareDevices(shares)
  {
  }

  /** The same through the names of the device texts. */
  lemma ExpectedDevicesAre(spec: VmSpec)
    ensures ExpectedDevices(spec) ==
            [BlockDevice(spec.rootDisk), BlockDevice(spec.poolDisk), NetDevice(spec.mac),
             VsockDevice(spec.readyPort, spec.readySocket), RNG_DEVICE]
            + ShareDevices(spec.shares)
            + if spec.serialLog.Some? then [SerialDevice(spec.serialLog.value)] else []
  {
    hide Decimal, ExpectedShares, ShareDevices;
    ExpectedSharesAre(spec.shares);
  }

  lemma StartsElsewhere(s: string, rest: string)
    requires s != [] && s[0] != '-'
    ensures IsValue(s + rest)
  {
    hide Free;
  }

  lemma HoldsComma(a: string, b: string)
    ensures IsValue(a + "," + b)
  {
    assert (a + "," + b)[|a|] == ',';
  }

  lemma NumeralIsValue(n: nat)
    ensures IsValue(Decimal(n))
  {
    assert IsDigit(Decimal(n)[0]);
  }

  lemma HeadIsUnambiguous(spec: VmSpec)
    ensures Unambiguous(Head(spec))
  {
    NumeralIsValue(spec.cpus);
    NumeralIsValue(spec.memoryMib);
    hide Decimal, Free;
    assert Bootloader(spec.efiStore)[0] == 'e';
    assert BlockDevice(spec.rootDisk)[0] == 'v' && BlockDevice(spec.poolDisk)[0] == 'v';
    assert NetDevice(spec.mac)[0] == 'v' && VsockDevice(spec.readyPort, spec.readySocket)[0] == 'v';
    assert RNG_DEVICE[0] == 'v';
  }

  lemma TailIsUnambiguous(spec: VmSpec)
    ensures Unambiguous(ShareArgs(spec.shares)) && Unambiguous(Boot(spec)) && Unambiguous(Serial(spec))
  {
    hide Decimal;
    forall i | 0 <= i < |spec.shares| ensures IsValue(ShareDevice(spec.shares[i])) {
      assert ShareDevice(spec.shares[i])[0] == 'v';
    }
    HoldsComma(spec.userData, spec.metaData);
    StartsElsewhere("tcp://localhost:", Decimal(spec.restfulPort));
    if spec.serialLog.Some? {
      StartsElsewhere("virtio-serial,logFilePath=", spec.serialLog.value);
    }
  }

  lemma UnambiguousConcat(xs: seq<Arg>, ys: seq<Arg>)
    requires Unambiguous(xs) && Unambiguous(ys)
    ensures Unambiguous(xs + ys)
  {
  }

  lemma HeadDeviceValues(spec: VmSpec)
    ensures DeviceValues(Head(spec)) ==
      [BlockDevice(spec.rootDisk), BlockDevice(spec.poolDisk), NetDevice(spec.mac),
       VsockDevice(spec.readyPort, spec.readySocket), RNG_DEVICE]
  {
    hide BlockDevice, NetDevice, VsockDevice, Bootloader, Decimal;
    var h := Head(spec);
    assert DeviceValues(h[7..]) == [RNG_DEVICE] + DeviceValues([]) by { assert h[7..][1..] == []; }
    assert DeviceValues(h[6..]) == [h[6].value] + DeviceValues(h[7..]) by { assert h[6..][1..] == h[7..]; }
    assert DeviceValues(h[5..]) == [h[5].value] + DeviceValues(h[6..]) by { assert h[5..][1..] == h[6..]; }
    assert DeviceValues(h[4..]) == [h[4].value] + DeviceValues(h[5..]) by { assert h[4..][1..] == h[5..]; }
    assert DeviceValues(h[3..]) == [h[3].value] + DeviceValues(h[4..]) by { assert h[3..][1..] == h[4..]; }
    assert DeviceValues(h[2..]) == DeviceValues(h[3..]) by { assert h[2..][1..] == h[3..]; }
    assert DeviceValues(h[1..]) == DeviceValues(h[2..]) by { assert h[1..][1..] == h[2..]; }
    assert DeviceValues(h) == DeviceValues(h[1..]);
  }

  /** For every spec, collecting what follows `--device` gives exactly the intended devices. */
  lemma DevicesReadBack(spec: VmSpec)
    ensures Devices(Flatten(ArgList(spec))) == ExpectedDevices(spec)
  {
    ExpectedDevicesAre(spec);
    hide ExpectedDevices;
    hide BlockDevice, NetDevice, VsockDevice, ShareDevice, ShareDevices, ShareArgs, SerialDevice, Bootloader, Decimal,
         Unambiguous, Head, Boot, Serial, ValuesOf, PairValues, Flatten;
    var head, shares, boot, serial := Head(spec), ShareArgs(spec.shares), Boot(spec), Serial(spec);
    ListIsUnambiguous(spec);
    ValuesOfFlatten(ArgList(spec), DEVICE);
    DeviceValuesConcat(head, shares);
    DeviceValuesConcat(head + shares, boot);
    DeviceValuesConcat(head + shares + boot, serial);
    HeadDeviceValues(spec);
    DeviceValuesOfShares(spec.shares);
    BootHasNoDevice(spec);
  }

  lemma ListIsUnambiguous(spec: VmSpec)
    ensures Unambiguous(ArgList(spec)) && IsFlag(DEVICE)
  {
    hide Head, ShareArgs, Boot, Serial, IsValue;
    HeadIsUnambiguous(spec);
    TailIsUnambiguous(spec);
    UnambiguousConcat(Head(spec), ShareArgs(spec.shares));
    UnambiguousConcat(Head(spec) + ShareArgs(spec.shares), Boot(spec));
    UnambiguousConcat(Head(spec) + ShareArgs(spec.shares) + Boot(spec), Serial(spec));
  }

  /** Which flag each pair of the list carries. */
  lemma FlagsOfList(spec: VmSpec)
    ensures var args, n := ArgList(spec), 8 + |spec.shares|;
            && |args| >= n + 2
            && args[0] == Arg("--cpus", Decimal(spec.cpus))
            && args[1] == Arg("--memory", Decimal(spec.memoryMib))
            && args[2] == Arg("--bootloader", Bootloader(spec.efiStore))
            && args[n] == Arg("--cloud-init", spec.userData + "," + spec.metaData)
            && args[n + 1] == Arg("--restful-uri", "tcp://localhost:" + Decimal(spec.restfulPort))
            && forall j :: 3 <= j < |args| && j != n && j != n + 1 ==> args[j].flag == DEVICE
  {
    hide Decimal, Bootloader, BlockDevice, NetDevice, VsockDevice, ShareDevice, SerialDevice;
  }

  lemma FlagsDiffer()
    ensures |"--cpus"| == 6 && |"--memory"| == |DEVICE| == 8 && |"--bootloader"| == |"--cloud-init"| == 12
    ensures "--memory" != DEVICE && "--bootloader" != "--cloud-init" && |"--restful-uri"| == 13
    ensures IsFlag("--cpus") && IsFlag("--memory") && IsFlag("--bootloader")
    ensures IsFlag("--cloud-init") && IsFlag("--restful-uri")
  {
    assert "--memory"[2] == 'm' && DEVICE[2] == 'd' && "--bootloader"[2] == 'b' && "--cloud-init"[2] == 'c';
  }

  /** Every other flag occurs once, with the intended value. */
  lemma FlagsReadBack(spec: VmSpec)
    ensures var v := Flatten(ArgList(spec));
            && ValuesOf(v, "--cpus") == [Decimal(spec.cpus)]
            && ValuesOf(v, "--memory") == [Decimal(spec.memoryMib)]
            && ValuesOf(v, "--bootloader") == ["efi,variable-store=" + spec.efiStore + ",create"]
            && ValuesOf(v, "--cloud-init") == [spec.userData + "," + spec.metaData]
            && ValuesOf(v, "--restful-uri") == ["tcp://localhost:" + Decimal(spec.restfulPort)]
  {
    FlagsDiffer();
    hide ArgList, Unambiguous, IsFlag, IsValue, Decimal, Flatten, ValuesOf, PairValues;
    var args, n := ArgList(spec), 8 + |spec.shares|;
    FlagsOfList(spec);
    ListIsUnambiguous(spec);
    OnlyPair(args, "--cpus", 0);
    OnlyPair(args, "--memory", 1);
    OnlyPair(args, "--bootloader", 2);
    OnlyPair(args, "--cloud-init", n);
    OnlyPair(args, "--restful-uri", n + 1);
    ValuesOfFlatten(args, "--cpus");
    ValuesOfFlatten(args, "--memory");
    ValuesOfFlatten(args, "--bootloader");
    ValuesOfFlatten(args, "--cloud-init");
    ValuesOfFlatten(args, "--restful-uri");
  }

  lemma BootHasNoDevice(spec: VmSpec)
    ensures DeviceValues(Boot(spec)) == []
    ensures DeviceValues(Serial(spec)) == if spec.serialLog.Some? then [SerialDevice(spec.serialLog.value)] else []
  {
    hide SerialDevice, Decimal;
    var b := Boot(spec);
    assert b[0].flag != DEVICE && b[1].flag != DEVICE by {
      assert |b[0].flag| != |DEVICE| && |b[1].flag| != |DEVICE|;
    }
    assert b[1..] == [b[1]] && b[1..][1..] == [];
    assert DeviceValues([]) == [];
    assert DeviceValues(b[1..]) == DeviceValues([]);
    if spec.serialLog.Some? {
      assert Serial(spec)[1..] == [];
    }
  }

  const FLAGS: set<string> := {"--cpus", "--memory", "--bootloader", "--device", "--cloud-init", "--restful-uri"}

  /** The vector has even length and alternates flag and value. */
  lemma FlagsAlternate(spec: VmSpec)
    ensures var v := Flatten(ArgList(spec));
            |v| % 2 == 0 && forall i :: 0 <= i < |v| && i % 2 == 0 ==> v[i] in FLAGS
  {
    hide BlockDevice, NetDevice, VsockDevice, ShareDevice, SerialDevice, Bootloader, Decimal;
    var args := ArgList(spec);
    assert forall k :: 0 <= k < |args| ==> args[k].flag in FLAGS;
    hide ArgList;
    forall i | 0 <= i < 2 * |args| && i % 2 == 0 ensures Flatten(args)[i] in FLAGS {
      FlattenAt(args, i / 2);
    }
  }

  // ---------- the pool is the second disk ----------

  predicate IsBlockDevice(device: string) {
    StartsWith(device, "virtio-blk,")
  }

  function BlockDevices(devices: seq<string>): seq<string> {
    if devices == [] then []
    else (if IsBlockDevice(devices[0]) then [devices[0]] else []) + BlockDevices(devices[1..])
  }

  lemma {:induction false} BlockDevicesConcat(xs: seq<string>, ys: seq<string>)
    ensures BlockDevices(xs + ys) == BlockDevices(xs) + BlockDevices(ys)
  {
    hide IsBlockDevice;
    if xs == [] {
      assert xs + ys == ys;
    } else {
      var all, first := xs + ys, if IsBlockDevice(xs[0]) then [xs[0]] else [];
      assert all[0] == xs[0] && all[1..] == xs[1..] + ys;
      BlockDevicesConcat(xs[1..], ys);
      assert BlockDevices(xs) == first + BlockDevices(xs[1..]);
      assert BlockDevices(all) == first + BlockDevices(all[1..]);
    }
  }

  lemma {:induction false} NoBlockDevices(devices: seq<string>)
    requires forall i :: 0 <= i < |devices| ==> |devices[i]| > 7 && devices[i][7] != 'b'
    ensures BlockDevices(devices) == []
  {
    if devices != [] {
      assert "virtio-blk,"[7] == 'b';
      assert !IsBlockDevice(devices[0]);
      NoBlockDevices(devices[1..]);
    }
  }

  /** The guest's name for the n-th virtio-blk device: a, b, ... in the order of emission. */
  function DeviceName(n: nat): string
    requires n < 26
  {
    "/dev/vd" + [('a' as int + n) as char]
  }

  lemma OtherDevicesAreNotBlocks(spec: VmSpec)
    ensures BlockDevices(ExpectedDevices(spec)[2..]) == []
  {
    hide Decimal;
    var rest := ExpectedDevices(spec)[2..];
    forall i | 0 <= i < |rest| ensures |rest[i]| > 7 && rest[i][7] != 'b' {
      var shares := |spec.shares|;
      if i < 3 {
        assert rest[i] in [NetDevice(spec.mac), VsockDevice(spec.readyPort, spec.readySocket), RNG_DEVICE];
        assert NetDevice(spec.mac)[7] == 'n' && VsockDevice(spec.readyPort, spec.readySocket)[7] == 'v';
        assert RNG_DEVICE[7] == 'r';
      } else if i < 3 + shares {
        assert rest[i] == ShareDevice(spec.shares[i - 3]);
        assert ShareDevice(spec.shares[i - 3])[7] == 'f';
      } else {
        assert rest[i] == SerialDevice(spec.serialLog.value);
        assert SerialDevice(spec.serialLog.value)[7] == 's';
      }
    }
    NoBlockDevices(rest);
  }

  /** The storage source in the preseed of a document. */
  function DocumentStorage(userData: string, mode: CloudReader.Mode): Option<string> {
    match ProvisionLaws.ReadPreseed(userData, mode)
    case None => None
    case Some(preseed) => ProvisionLaws.StorageSource(preseed)
  }

  function SecondDeviceName(): string {
    DeviceName(1)
  }

  lemma SecondDeviceIsPool()
    ensures SecondDeviceName() == CloudText.PoolSource()
  {
  }

  lemma DocumentNamesPool(spec: Provision.ProvisionSpec, mode: CloudReader.Mode)
    requires Provision.Validate(spec).None? && (mode.Yaml? ==> CloudReader.PayloadsReadable(spec))
    ensures DocumentStorage(Provision.UserData(spec), mode) == Some(CloudText.PoolSource())
  {
    hide Provision.UserData, Provision.Validate, Provision.Preseed, CloudReader.PayloadsReadable,
         CloudReader.Normalised, CloudText.PoolSource, ProvisionLaws.ReadPreseed, ProvisionLaws.StorageSource;
    ProvisionLaws.PreseedReadsBack(spec, mode);
    ProvisionLaws.PreseedNamesPool(spec.bridgeCidr);
  }

  /**
   Whatever is shared, the vector has exactly two block devices, root and pool, and
   the guest knows the second by the name that every rendered document which is read
   back gives as the source of the storage pool.
   */
  lemma PoolIsThePreseedSource(vm: VmSpec, spec: Provision.ProvisionSpec, mode: CloudReader.Mode)
    requires Provision.Validate(spec).None? && (mode.Yaml? ==> CloudReader.PayloadsReadable(spec))
    ensures BlockDevices(Devices(Flatten(ArgList(vm)))) == [BlockDevice(vm.rootDisk), BlockDevice(vm.poolDisk)]
    ensures DocumentStorage(Provision.UserData(spec), mode) == Some(SecondDeviceName())
  {
    hide *;
    SecondDeviceIsPool();
    TwoBlockDevices(vm);
    DocumentNamesPool(spec, mode);
  }

  lemma TwoBlockDevices(vm: VmSpec)
    ensures BlockDevices(Devices(Flatten(ArgList(vm)))) == [BlockDevice(vm.rootDisk), BlockDevice(vm.poolDisk)]
  {
    hide ExpectedDevices, Devices, ArgList, Flatten;
    DevicesReadBack(vm);
    FirstTwo(vm);
    OtherDevicesAreNotBlocks(vm);
  }

  lemma FirstTwo(spec: VmSpec)
    ensures BlockDevices(ExpectedDevices(spec)) ==
            [BlockDevice(spec.rootDisk), BlockDevice(spec.poolDisk)] + BlockDevices(ExpectedDevices(spec)[2..])
  {
    var root, pool := BlockDevice(spec.rootDisk), BlockDevice(spec.poolDisk);
    assert IsBlockDevice(root) && IsBlockDevice(pool);
    hide BlockDevice, NetDevice, VsockDevice, ShareDevices, SerialDevice, IsBlockDevice;
    var all := ExpectedDevices(spec);
    assert all == [root, pool] + all[2..];
    BlockDevicesConcat([root, pool], all[2..]);
    assert [root, pool][1..] == [pool];
  }

  // ---------- shares read back ----------

  /** Where the last occurrence of `needle` at or before `k` starts. */
  function LastAt(s: string, needle: string, k: nat): (r: Option<nat>)
    requires k <= |s|
    ensures r.Some? ==> r.value <= k && needle <= s[r.value..]
    ensures r.Some? ==> forall i :: r.value < i <= k ==> !(needle <= s[i..])
    ensures r.None? ==> forall i :: 0 <= i <= k ==> !(needle <= s[i..])
  {
    if needle <= s[k..] then Some(k) else if k == 0 then None else LastAt(s, needle, k - 1)
  }

  /** Cut at the last occurrence of `mark`. */
  function SplitLast(s: string, mark: string): Option<(string, string)> {
    match LastAt(s, mark, |s|)
    case None => None
    case Some(k) => Some((s[..k], s[k + |mark|..]))
  }

  /** Path and tag of a share device: everything before and after the last tag mark. */
  function SplitShare(device: string): Option<(string, string)> {
    if SHARE_HEAD <= device then SplitLast(device[|SHARE_HEAD|..], TAG_MARK) else None
  }

  predicate Holds(s: string, needle: string) {
    Find(s, needle).Some?
  }

  /** The first character of the mark does not occur in it again. */
  predicate Distinctive(mark: string) {
    mark != [] && forall i :: 0 < i < |mark| ==> mark[i] != mark[0]
  }

  /** Two occurrences of a distinctive mark never overlap. */
  lemma NoOverlap(s: string, mark: string, k: nat, i: nat)
    requires Distinctive(mark) && k < i <= |s| && mark <= s[k..] && mark <= s[i..]
    ensures i >= k + |mark|
  {
    assert s[i] == s[i..][0] == mark[0];
    assert forall j :: 0 <= j < |mark| ==> s[k + j] == s[k..][j] == mark[j];
  }

  lemma HoldsAt(s: string, needle: string, i: nat)
    requires i <= |s| && needle <= s[i..]
    ensures Holds(s, needle)
  {
  }

  /** The last mark is the one put there exactly when the tag does not hold one. */
  lemma LastMarkIs(path: string, mark: string, tag: string)
    requires Distinctive(mark)
    ensures var s := path + mark + tag; LastAt(s, mark, |s|) == Some(|path|) <==> !Holds(tag, mark)
  {
    hide Find, Distinctive;
    var s, k, m := path + mark + tag, |path|, |mark|;
    assert s[k..] == mark + tag && mark <= s[k..];
    var last := LastAt(s, mark, |s|);
    assert last.Some? && last.value >= k;
    if last.value > k {
      NoOverlap(s, mark, k, last.value);
      var j := last.value - k - m;
      assert s[last.value..] == tag[j..];
      HoldsAt(tag, mark, j);
    }
    if Holds(tag, mark) {
      var i := Find(tag, mark).value;
      assert s[k + m + i..] == tag[i..];
      assert mark <= s[k + m + i..];
      assert m > 0 by { assert Distinctive(mark); MarkIsNotEmpty(mark); }
    }
  }

  lemma MarkIsNotEmpty(mark: string)
    requires Distinctive(mark)
    ensures mark != []
  {
  }

  lemma SplitLastIs(path: string, mark: string, tag: string)
    requires Distinctive(mark)
    ensures SplitLast(path + mark + tag, mark) == Some((path, tag)) <==> !Holds(tag, mark)
  {
    hide Holds, Distinctive, LastAt;
    var s := path + mark + tag;
    LastMarkIs(path, mark, tag);
    assert s[..|path|] == path && s[|path| + |mark|..] == tag;
  }

  /**
   Splitting at the last tag mark gives a share's path and tag back, commas in
   the path or not, exactly when the tag does not hold a tag mark itself.
   */
  lemma ShareReadsBack(share: Share)
    ensures SplitShare(ShareDevice(share)) == Some((share.hostPath, share.tag)) <==> !Holds(share.tag, TAG_MARK)
  {
    assert Distinctive(TAG_MARK);
    hide Holds, Distinctive, SplitLast;
    PrefixSplits(SHARE_HEAD, share.hostPath, TAG_MARK, share.tag);
    SplitLastIs(share.hostPath, TAG_MARK, share.tag);
  }

  lemma PrefixSplits(head: string, path: string, mark: string, tag: string)
    ensures head <= head + path + mark + tag
    ensures (head + path + mark + tag)[|head|..] == path + mark + tag
  {
  }

  /** In particular for every tag that passes validation. */
  lemma ValidTagReadsBack(share: Share)
    requires IsName(share.tag)
    ensures SplitShare(ShareDevice(share)) == Some((share.hostPath, share.tag))
  {
    hide SplitShare, ShareDevice;
    ShareReadsBack(share);
    assert !Holds(share.tag, TAG_MARK) by { NameHoldsNoMark(share.tag); }
  }

  lemma NameHoldsNoMark(tag: string)
    requires IsName(tag)
    ensures !Holds(tag, TAG_MARK)
  {
    assert forall i :: 0 <= i < |tag| ==> tag[i] != ',';
    assert TAG_MARK[0] == ',';
    assert forall i :: 0 <= i < |tag| ==> !(TAG_MARK <= tag[i..]);
  }

  // ---------- the whole vector reads back ----------

  lemma {:induction false} FlattenInjective(xs: seq<Arg>, ys: seq<Arg>)
    requires Flatten(xs) == Flatten(ys)
    ensures xs == ys
  {
    assert |xs| == |ys|;
    forall i | 0 <= i < |xs| ensures xs[i] == ys[i] {
      FlattenAt(xs, i);
      FlattenAt(ys, i);
    }
  }

  lemma PrefixCancels(p: string, x: string, y: string)
    requires p + x == p + y
    ensures x == y
  {
    assert (p + x)[|p|..] == x && (p + y)[|p|..] == y;
  }

  lemma SuffixCancels(x: string, y: string, q: string)
    requires x + q == y + q
    ensures x == y
  {
    assert |x| == |y|;
    assert (x + q)[..|x|] == x && (y + q)[..|y|] == y;
  }

  lemma BootloaderShows(x: string, y: string)
    requires Bootloader(x) == Bootloader(y)
    ensures x == y
  {
    SuffixCancels("efi,variable-store=" + x, "efi,variable-store=" + y, ",create");
    PrefixCancels("efi,variable-store=", x, y);
  }

  lemma DecimalHasNoComma(n: nat)
    ensures Free(Decimal(n), ',')
  {
    forall i | 0 <= i < |Decimal(n)| ensures Decimal(n)[i] != ',' {
      assert IsDigit(Decimal(n)[i]);
    }
  }

  lemma FramedPair(head: string, a: string, mark: string, x: string, end: string, b: string, y: string)
    requires Free(a, ',') && Free(b, ',')
    requires head + (a + [','] + (mark + x + end)) == head + (b + [','] + (mark + y + end))
    ensures a == b && x == y
  {
    PrefixCancels(head, a + [','] + (mark + x + end), b + [','] + (mark + y + end));
    SplitOnceAt(a, ',', mark + x + end);
    SplitOnceAt(b, ',', mark + y + end);
    SuffixCancels(mark + x, mark + y, end);
    PrefixCancels(mark, x, y);
  }

  lemma VsockIs(p: U32, x: string)
    ensures VsockDevice(p, x) == "virtio-vsock,port=" + (Decimal(p) + [','] + ("socketURL=" + x + ",listen"))
  {
    hide Decimal;
    var d := Decimal(p);
    assert ",socketURL=" == [','] + "socketURL=";
    FiveParts("virtio-vsock,port=", d, [','], "socketURL=", x, ",listen");
  }

  lemma FiveParts(a: string, b: string, c: string, d: string, e: string, f: string)
    ensures a + b + (c + d) + e + f == a + (b + c + (d + e + f))
  {
  }

  lemma VsockShows(p: U32, x: string, q: U32, y: string)
    requires VsockDevice(p, x) == VsockDevice(q, y)
    ensures p == q && x == y
  {
    VsockIs(p, x);
    VsockIs(q, y);
    DecimalHasNoComma(p);
    DecimalHasNoComma(q);
    hide VsockDevice, Decimal, Free;
    FramedPair("virtio-vsock,port=", Decimal(p), "socketURL=", x, ",listen", Decimal(q), y);
    DecimalInjective(p, q);
  }

  lemma HeadShows(s: VmSpec, t: VmSpec)
    requires Head(s) == Head(t)
    ensures s.cpus == t.cpus && s.memoryMib == t.memoryMib && s.efiStore == t.efiStore
    ensures s.rootDisk == t.rootDisk && s.poolDisk == t.poolDisk && s.mac == t.mac
    ensures s.readyPort == t.readyPort && s.readySocket == t.readySocket
  {
    var x, y := Head(s), Head(t);
    assert forall i :: 0 <= i < 8 ==> x[i].value == y[i].value;
    assert Decimal(s.cpus) == Decimal(t.cpus) && Decimal(s.memoryMib) == Decimal(t.memoryMib) by {
      assert x[0].value == y[0].value && x[1].value == y[1].value;
    }
    assert Bootloader(s.efiStore) == Bootloader(t.efiStore) by { assert x[2].value == y[2].value; }
    assert BlockDevice(s.rootDisk) == BlockDevice(t.rootDisk) by { assert x[3].value == y[3].value; }
    assert BlockDevice(s.poolDisk) == BlockDevice(t.poolDisk) by { assert x[4].value == y[4].value; }
    assert NetDevice(s.mac) == NetDevice(t.mac) by { assert x[5].value == y[5].value; }
    assert VsockDevice(s.readyPort, s.readySocket) == VsockDevice(t.readyPort, t.readySocket) by {
      assert x[6].value == y[6].value;
    }
    DecimalInjective(s.cpus, t.cpus);
    DecimalInjective(s.memoryMib, t.memoryMib);
    BootloaderShows(s.efiStore, t.efiStore);
    PrefixCancels("virtio-blk,path=", s.rootDisk, t.rootDisk);
    PrefixCancels("virtio-blk,path=", s.poolDisk, t.poolDisk);
    PrefixCancels("virtio-net,nat,mac=", s.mac, t.mac);
    VsockShows(s.readyPort, s.readySocket, t.readyPort, t.readySocket);
  }

  lemma SharesShow(xs: seq<Share>, ys: seq<Share>)
    requires ShareArgs(xs) == ShareArgs(ys)
    requires forall s :: s in xs || s in ys ==> !Holds(s.tag, TAG_MARK)
    ensures xs == ys
  {
    hide Holds, ShareDevice, SplitShare;
    assert |xs| == |ShareArgs(xs)| == |ShareArgs(ys)| == |ys|;
    forall i | 0 <= i < |xs| ensures xs[i] == ys[i] {
      assert ShareArgs(xs)[i] == ShareArgs(ys)[i];
      ShareReadsBack(xs[i]);
      ShareReadsBack(ys[i]);
    }
  }

  lemma BootShows(s: VmSpec, t: VmSpec)
    requires Boot(s) == Boot(t)
    ensures s.restfulPort == t.restfulPort && s.userData + "," + s.metaData == t.userData + "," + t.metaData
  {
    var x, y := Boot(s), Boot(t);
    assert x[0].value == y[0].value && x[1].value == y[1].value;
    PrefixCancels("tcp://localhost:", Decimal(s.restfulPort), Decimal(t.restfulPort));
    DecimalInjective(s.restfulPort, t.restfulPort);
  }

  lemma SerialShows(s: VmSpec, t: VmSpec)
    requires Serial(s) == Serial(t)
    ensures s.serialLog == t.serialLog
  {
    assert |Serial(s)| == |Serial(t)|;
    if s.serialLog.Some? {
      assert Serial(s)[0].value == Serial(t)[0].value;
      PrefixCancels("virtio-serial,logFilePath=", s.serialLog.value, t.serialLog.value);
    }
  }

  /** Only a serial device can come last under the device flag. */
  lemma LastFlag(s: VmSpec)
    ensures var v := ArgList(s); v[|v| - 1].flag == DEVICE <==> s.serialLog.Some?
    ensures |ArgList(s)| == 10 + |s.shares| + |Serial(s)|
  {
    hide Decimal, Bootloader, BlockDevice, NetDevice, VsockDevice, ShareDevice, SerialDevice;
    var v := ArgList(s);
    if s.serialLog.None? {
      assert v[|v| - 1] == Boot(s)[1];
      assert |"--restful-uri"| != |DEVICE|;
    } else {
      assert v[|v| - 1] == Serial(s)[0];
    }
  }

  lemma PartsOf(a: seq<Arg>, b: seq<Arg>, c: seq<Arg>, d: seq<Arg>,
                a': seq<Arg>, b': seq<Arg>, c': seq<Arg>, d': seq<Arg>)
    requires |a| == |a'| && |b| == |b'| && |c| == |c'|
    requires a + b + c + d == a' + b' + c' + d'
    ensures a == a' && b == b' && c == c' && d == d'
  {
    var s, t := a + b + c + d, a' + b' + c' + d';
    assert s[..|a|] == a && t[..|a|] == a';
    assert s[|a|..|a| + |b|] == b && t[|a|..|a| + |b|] == b';
    assert s[|a| + |b|..|a| + |b| + |c|] == c && t[|a| + |b|..|a| + |b| + |c|] == c';
    assert s[|a| + |b| + |c|..] == d && t[|a| + |b| + |c|..] == d';
  }

  /** Equal in everything the invocation shows: all but the network config and the cut between the seed files. */
  ghost predicate SameInvocation(s: VmSpec, t: VmSpec) {
    && s.userData + "," + s.metaData == t.userData + "," + t.metaData
    && t == s.(networkConfig := t.networkConfig, userData := t.userData, metaData := t.metaData)
  }

  lemma SameListShows(s: VmSpec, t: VmSpec)
    requires ArgList(s) == ArgList(t)
    requires forall x :: x in s.shares || x in t.shares ==> !Holds(x.tag, TAG_MARK)
    ensures SameInvocation(s, t)
  {
    LastFlag(s);
    LastFlag(t);
    assert |Serial(s)| == |Serial(t)|;
    assert |s.shares| == |t.shares|;
    assert |Head(s)| == |Head(t)| && |Boot(s)| == |Boot(t)|;
    PartsOf(Head(s), ShareArgs(s.shares), Boot(s), Serial(s), Head(t), ShareArgs(t.shares), Boot(t), Serial(t));
    hide Head, ShareArgs, Boot, Serial, Holds, ArgList;
    HeadShows(s, t);
    SharesShow(s.shares, t.shares);
    BootShows(s, t);
    SerialShows(s, t);
  }

  lemma SameInvocationSameList(s: VmSpec, t: VmSpec)
    requires SameInvocation(s, t)
    ensures ArgList(s) == ArgList(t)
  {
    hide Decimal, Bootloader, BlockDevice, NetDevice, VsockDevice, ShareDevice, SerialDevice;
    assert Head(s) == Head(t) && ShareArgs(s.shares) == ShareArgs(t.shares);
    assert Boot(s) == Boot(t) && Serial(s) == Serial(t);
  }

  /**
   Two specs whose share tags hold no tag mark give the same vector exactly when
   they agree on everything the invocation shows.
   */
  lemma ArgsAreInjective(s: VmSpec, t: VmSpec)
    requires forall x :: x in s.shares || x in t.shares ==> !Holds(x.tag, TAG_MARK)
    ensures Flatten(ArgList(s)) == Flatten(ArgList(t)) <==> SameInvocation(s, t)
  {
    hide ArgList, SameInvocation, Flatten, Holds;
    if Flatten(ArgList(s)) == Flatten(ArgList(t)) {
      FlattenInjective(ArgList(s), ArgList(t));
      SameListShows(s, t);
    }
    if SameInvocation(s, t) {
      SameInvocationSameList(s, t);
    }
  }

  /** The cut between the seed files is shown too when the first path has no comma. */
  lemma SeedFilesShow(s: VmSpec, t: VmSpec)
    requires SameInvocation(s, t) && Free(s.userData, ',') && Free(t.userData, ',')
    ensures s == t.(networkConfig := s.networkConfig)
  {
    SplitOnceAt(s.userData, ',', s.metaData);
    SplitOnceAt(t.userData, ',', t.metaData);
    assert s.userData + "," + s.metaData == s.userData + [','] + s.metaData;
  }
}
