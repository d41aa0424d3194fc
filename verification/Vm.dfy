/** The vfkit argument vector of src/vm.rs. */
module Vm {
  import opened Wrappers
  import opened Text
  import opened Numbers

  type U16 = n: int | 0 <= n < 0x1_0000
  type U32 = n: int | 0 <= n < 0x1_0000_0000
  type U64 = n: int | 0 <= n < 0x1_0000_0000_0000_0000

  datatype Share = Share(hostPath: string, tag: string)

  /** Paths are modelled by their displayed form. */
  datatype VmSpec = VmSpec(
    cpus: U32,
    memoryMib: U64,
    efiStore: string,
    rootDisk: string,
    poolDisk: string,
    mac: string,
    userData: string,
    metaData: string,
    networkConfig: Option<string>,
    readySocket: string,
    readyPort: U32,
    restfulPort: U16,
    shares: seq<Share>,
    serialLog: Option<string>)

  /** A flag with its value, two consecutive entries of the vector. */
  datatype Arg = Arg(flag: string, value: string)

  const DEVICE := "--device"

  function BlockDevice(path: string): string {
    "virtio-blk,path=" + path
  }

  function NetDevice(mac: string): string {
    "virtio-net,nat,mac=" + mac
  }

  function VsockDevice(port: U32, socket: string): string {
    "virtio-vsock,port=" + Decimal(port) + ",socketURL=" + socket + ",listen"
  }

  const RNG_DEVICE := "virtio-rng"
  const SHARE_HEAD := "virtio-fs,sharedDir="
  const TAG_MARK := ",mountTag="

  function ShareDevice(share: Share): string {
    SHARE_HEAD + share.hostPath + TAG_MARK + share.tag
  }

  function SerialDevice(path: string): string {
    "virtio-serial,logFilePath=" + path
  }

  function Bootloader(efiStore: string): string {
    "efi,variable-store=" + efiStore + ",create"
  }

  function Head(spec: VmSpec): seq<Arg> {
    [Arg("--cpus", Decimal(spec.cpus)),
     Arg("--memory", Decimal(spec.memoryMib)),
     Arg("--bootloader", Bootloader(spec.efiStore)),
     Arg(DEVICE, BlockDevice(spec.rootDisk)),
     Arg(DEVICE, BlockDevice(spec.poolDisk)),
     Arg(DEVICE, NetDevice(spec.mac)),
     Arg(DEVICE, VsockDevice(spec.readyPort, spec.readySocket)),
     Arg(DEVICE, RNG_DEVICE)]
  }

  function ShareArgs(shares: seq<Share>): (args: seq<Arg>)
    ensures |args| == |shares|
    ensures forall i :: 0 <= i < |shares| ==> args[i] == Arg(DEVICE, ShareDevice(shares[i]))
  {
    seq(|shares|, i requires 0 <= i < |shares| => Arg(DEVICE, ShareDevice(shares[i])))
  }

  function Boot(spec: VmSpec): seq<Arg> {
    [Arg("--cloud-init", spec.userData + "," + spec.metaData),
     Arg("--restful-uri", "tcp://localhost:" + Decimal(spec.restfulPort))]
  }

  function Serial(spec: VmSpec): seq<Arg> {
    if spec.serialLog.Some? then [Arg(DEVICE, SerialDevice(spec.serialLog.value))] else []
  }

  function ArgList(spec: VmSpec): seq<Arg> {
    Head(spec) + ShareArgs(spec.shares) + Boot(spec) + Serial(spec)
  }

  /** The vector: every flag followed by its value. */
  function Flatten(args: seq<Arg>): (v: seq<string>)
    ensures |v| == 2 * |args|
  {
    if args == [] then [] else [args[0].flag, args[0].value] + Flatten(args[1..])
  }

  lemma {:induction false} FlattenConcat(xs: seq<Arg>, ys: seq<Arg>)
    ensures Flatten(xs + ys) == Flatten(xs) + Flatten(ys)
  {
    if xs == [] {
      assert xs + ys == ys;
    } else {
      assert (xs + ys)[1..] == xs[1..] + ys;
      FlattenConcat(xs[1..], ys);
    }
  }

  /** Even positions hold flags, odd positions their values. */
  lemma {:induction false} FlattenAt(args: seq<Arg>, i: nat)
    requires i < |args|
    ensures Flatten(args)[2 * i] == args[i].flag && Flatten(args)[2 * i + 1] == args[i].value
  {
    if i > 0 {
      FlattenAt(args[1..], i - 1);
    }
  }

  lemma FlattenOne(arg: Arg)
    ensures Flatten([arg]) == [arg.flag, arg.value]
  {
  }

  /** `build_args`. */
  method BuildArgs(spec: VmSpec) returns (args: seq<string>)
    ensures args == Flatten(ArgList(spec))
  {
    hide BlockDevice, NetDevice, VsockDevice, ShareDevice, SerialDevice, Bootloader, Decimal;
    ghost var done := Head(spec);
    args := [
      "--cpus", Decimal(spec.cpus),
      "--memory", Decimal(spec.memoryMib),
      "--bootloader", Bootloader(spec.efiStore),
      DEVICE, BlockDevice(spec.rootDisk),
      DEVICE, BlockDevice(spec.poolDisk),
      DEVICE, NetDevice(spec.mac),
      DEVICE, VsockDevice(spec.readyPort, spec.readySocket),
      DEVICE, RNG_DEVICE];
    FlattenHead(spec);
    for i := 0 to |spec.shares|
      invariant args == Flatten(Head(spec) + ShareArgs(spec.shares)[..i])
    {
      var device := ShareDevice(spec.shares[i]);
      PushArg(Head(spec) + ShareArgs(spec.shares)[..i], Arg(DEVICE, device));
      assert ShareArgs(spec.shares)[..i + 1] == ShareArgs(spec.shares)[..i] + [Arg(DEVICE, device)];
      assert Head(spec) + ShareArgs(spec.shares)[..i] + [Arg(DEVICE, device)]
          == Head(spec) + ShareArgs(spec.shares)[..i + 1];
      args := args + [DEVICE];
      args := args + [device];
    }
    assert ShareArgs(spec.shares)[..|spec.shares|] == ShareArgs(spec.shares);
    ghost var sofar := Head(spec) + ShareArgs(spec.shares);
    args := args + ["--cloud-init"];
    args := args + [spec.userData + "," + spec.metaData];
    PushArg(sofar, Boot(spec)[0]);
    args := args + ["--restful-uri"];
    args := args + ["tcp://localhost:" + Decimal(spec.restfulPort)];
    PushArg(sofar + [Boot(spec)[0]], Boot(spec)[1]);
    assert sofar + [Boot(spec)[0]] + [Boot(spec)[1]] == sofar + Boot(spec);
    if spec.serialLog.Some? {
      var device := SerialDevice(spec.serialLog.value);
      PushArg(sofar + Boot(spec), Arg(DEVICE, device));
      args := args + [DEVICE];
      args := args + [device];
    } else {
      assert sofar + Boot(spec) + [] == sofar + Boot(spec);
    }
  }

  lemma PushArg(sofar: seq<Arg>, arg: Arg)
    ensures Flatten(sofar + [arg]) == Flatten(sofar) + [arg.flag] + [arg.value]
  {
    FlattenConcat(sofar, [arg]);
    FlattenOne(arg);
  }

  lemma FlattenHead(spec: VmSpec)
    ensures Flatten(Head(spec) + ShareArgs(spec.shares)[..0]) == [
      "--cpus", Decimal(spec.cpus),
      "--memory", Decimal(spec.memoryMib),
      "--bootloader", Bootloader(spec.efiStore),
      DEVICE, BlockDevice(spec.rootDisk),
      DEVICE, BlockDevice(spec.poolDisk),
      DEVICE, NetDevice(spec.mac),
      DEVICE, VsockDevice(spec.readyPort, spec.readySocket),
      DEVICE, RNG_DEVICE]
  {
    hide BlockDevice, NetDevice, VsockDevice, ShareDevice, SerialDevice, Bootloader, Decimal;
    var h := Head(spec);
    assert h + ShareArgs(spec.shares)[..0] == h;
    forall i | 0 <= i < 8 ensures Flatten(h)[2 * i] == h[i].flag && Flatten(h)[2 * i + 1] == h[i].value {
      FlattenAt(h, i);
    }
    assert Flatten(h)[2 * 0] == "--cpus" && Flatten(h)[2 * 1] == "--memory" && Flatten(h)[2 * 2] == "--bootloader";
    assert Flatten(h)[2 * 3] == Flatten(h)[2 * 4] == Flatten(h)[2 * 5] == DEVICE;
    assert Flatten(h)[2 * 6] == Flatten(h)[2 * 7] == DEVICE;
  }
}
