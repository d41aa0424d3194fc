/**
 The image cache of src/image.rs: header check, short reads, and the steps of
 `ensure_images` over a state directory whose runs may be cut off anywhere.
 */
module Image {
  import opened Wrappers
  import opened Numbers

  type Bytes = seq<Byte>

  const HEADER_LEN: nat := 520

  /** "EFI PART". */
  const GPT_MAGIC: Bytes := [0x45, 0x46, 0x49, 0x20, 0x50, 0x41, 0x52, 0x54]

  /** `looks_like_disk_image`. */
  predicate LooksLikeDiskImage(header: Bytes) {
    || (|header| >= 512 && header[510] == 0x55 && header[511] == 0xAA)
    || (|header| >= HEADER_LEN && header[512..520] == GPT_MAGIC)
  }

  function Min(a: nat, b: nat): nat {
    if a < b then a else b
  }

  /** A file passes when its first 520 bytes look like a disk image. */
  predicate Passes(data: Bytes) {
    LooksLikeDiskImage(data[..Min(|data|, HEADER_LEN)])
  }

  // ---------- reading ----------

  /** What one `read` call does: deliver at most so many bytes, or fail. */
  datatype Delivery = AtMost(n: nat) | Fault

  /** An open file whose reads may fall short in any way. */
  class OpenFile {
    const data: Bytes
    var pos: nat
    var schedule: seq<Delivery>

    constructor (data: Bytes, schedule: seq<Delivery>)
      ensures this.data == data && this.schedule == schedule && pos == 0
    {
      this.data := data;
      this.schedule := schedule;
      pos := 0;
    }

    /**
     `Read::read` into `buf[from..]`: at least one byte unless the file or the
     buffer is at its end; unscheduled calls deliver all they can.
     */
    method Read(buf: array<Byte>, from: nat) returns (r: Option<nat>)
      requires pos <= |data| && from <= buf.Length
      modifies this, buf
      ensures pos <= |data| && schedule == if old(schedule) == [] then [] else old(schedule)[1..]
      ensures r.None? <==> old(schedule) != [] && old(schedule)[0].Fault?
      ensures r.None? ==> pos == old(pos) && buf[..] == old(buf[..])
      ensures r.Some? ==> var n := r.value;
        && pos == old(pos) + n && from + n <= buf.Length
        && (n == 0 <==> old(pos) == |data| || from == buf.Length)
        && buf[..from] == old(buf[..from])
        && buf[from..from + n] == data[old(pos)..old(pos) + n]
    {
      var room := Min(|data| - pos, buf.Length - from);
      var n := room;
      if schedule != [] {
        var next := schedule[0];
        schedule := schedule[1..];
        if next.Fault? {
          return None;
        }
        n := Min(room, if next.n == 0 then 1 else next.n);
      }
      var start := pos;
      forall i | 0 <= i < n {
        buf[from + i] := data[start + i];
      }
      pos := pos + n;
      return Some(n);
    }
  }

  /** `read_full`: whatever the schedule, the first `min(length, buffer)` bytes, or a fault that was scheduled. */
  method ReadFull(file: OpenFile, buf: array<Byte>) returns (r: Option<nat>)
    requires file.pos == 0
    modifies file, buf
    ensures r.Some? ==> r.value == Min(|file.data|, buf.Length) && buf[..r.value] == file.data[..r.value]
    ensures r.None? ==> Fault in old(file.schedule)
  {
    var filled := 0;
    while filled < buf.Length
      invariant filled == file.pos <= |file.data| && filled <= buf.Length
      invariant buf[..filled] == file.data[..filled]
      invariant forall d :: d in file.schedule ==> d in old(file.schedule)
      decreases buf.Length - filled
    {
      var n := file.Read(buf, filled);
      if n.None? {
        return None;
      }
      if n.value == 0 {
        break;
      }
      assert buf[..filled + n.value] == buf[..filled] + buf[filled..filled + n.value];
      assert file.data[..filled + n.value] == file.data[..filled] + file.data[filled..filled + n.value];
      filled := filled + n.value;
    }
    return Some(filled);
  }

  function Deliveries(lengths: seq<nat>): (s: seq<Delivery>)
    ensures Fault !in s
  {
    seq(|lengths|, i requires 0 <= i < |lengths| => AtMost(lengths[i]))
  }

  // ---------- the steps of a run, on values ----------

  datatype ImageError =
    | Io
    | DownloadFailed
    | UnsupportedArch(arch: string)
    | NotADiskImage(path: string)

  type Files = map<string, Bytes>

  /**
   The files, and how many more operations succeed before the run is cut off,
   by an I/O error or by a crash.
   */
  datatype World = World(files: Files, budget: nat)

  /** What curl leaves under the image's name and whether it reports success. */
  datatype Download = Download(left: Option<Bytes>, success: bool)

  /** Everything a run depends on besides the files. */
  datatype Env = Env(
    arch: string,
    rootGib: nat,
    poolGib: nat,
    download: Download,
    cleanupFails: bool,
    torn: Option<nat>)

  datatype Step = Go(w: World) | Halt(w: World, error: ImageError)

  const ROOT := "root.raw"
  const POOL := "pool.raw"

  function BaseName(arch: string): (r: Option<string>)
    ensures r.Some? ==> r.value != ROOT && r.value != POOL
  {
    if arch == "aarch64" then Some("images/debian-12-genericcloud-arm64.raw")
    else if arch == "x86_64" then Some("images/debian-12-genericcloud-amd64.raw")
    else None
  }

  const GIB: nat := 1024 * 1024 * 1024
  const U64_END: nat := 0x1_0000_0000_0000_0000

  /** `gib * 1024 * 1024 * 1024` in wrapping 64-bit arithmetic. */
  function SizeBytes(gib: nat): nat {
    gib * GIB % U64_END
  }

  /** Where the signed 64-bit file offsets end. */
  const I64_END: nat := 0x8000_0000_0000_0000

  /** `File::set_len` refuses a length that is no signed 64-bit offset, whatever the file. */
  predicate IsFileSize(n: nat) {
    n < I64_END
  }

  function Zeros(n: nat): (s: Bytes)
    ensures |s| == n && forall i :: 0 <= i < n ==> s[i] == 0
  {
    seq(n, _ => 0)
  }

  /** What `File::set_len` makes of the data when it accepts the length. */
  function SetLen(data: Bytes, n: nat): (r: Bytes)
    ensures |r| == n
    ensures forall i :: 0 <= i < n ==> r[i] == if i < |data| then data[i] else 0
  {
    if n <= |data| then data[..n] else data + Zeros(n - |data|)
  }

  function Put(w: World, name: string, data: Bytes): World {
    w.(files := w.files[name := data])
  }

  function Drop(w: World, name: string): World {
    w.(files := w.files - {name})
  }

  function Spend(w: World): World
    requires w.budget > 0
  {
    w.(budget := w.budget - 1)
  }

  /** The download, unless the base image is there already. */
  function FetchBase(w: World, base: string, env: Env): Step {
    if base in w.files then Go(w)
    else if w.budget == 0 then Halt(w, Io)
    else
      var w1 := if env.download.left.Some? then Put(Spend(w), base, env.download.left.value) else Spend(w);
      if env.download.success then Go(w1)
      else Halt(if env.cleanupFails then w1 else Drop(w1, base), DownloadFailed)
  }

  /** `verify_disk_image`: a file that fails the check is removed. */
  function Verify(w: World, name: string): Step {
    if w.budget == 0 || name !in w.files then Halt(w, Io)
    else if Passes(w.files[name]) then Go(Spend(w))
    else if w.budget == 1 then Halt(Spend(w), Io)
    else Halt(Drop(Spend(Spend(w)), name), NotADiskImage(name))
  }

  /**
   Copying and resizing the root disk, unless it is there already. A copy cut short
   may leave a prefix; a refused size leaves the copy as it is.
   */
  function MakeRoot(w: World, base: string, env: Env): Step {
    if ROOT in w.files then Go(w)
    else if base !in w.files then Halt(w, Io)
    else
      var image := w.files[base];
      if w.budget == 0 then
        Halt(if env.torn.Some? then Put(w, ROOT, image[..Min(|image|, env.torn.value)]) else w, Io)
      else if w.budget == 1 || !IsFileSize(SizeBytes(env.rootGib)) then Halt(Put(Spend(w), ROOT, image), Io)
      else Go(Put(Spend(Spend(w)), ROOT, SetLen(image, SizeBytes(env.rootGib))))
  }

  /** Creating and sizing the pool disk, unless it is there already; a refused size leaves an empty one. */
  function MakePool(w: World, env: Env): Step {
    if POOL in w.files then Go(w)
    else if w.budget == 0 then Halt(w, Io)
    else if w.budget == 1 || !IsFileSize(SizeBytes(env.poolGib)) then Halt(Put(Spend(w), POOL, []), Io)
    else Go(Put(Spend(Spend(w)), POOL, SetLen([], SizeBytes(env.poolGib))))
  }

  function Ensure(w: World, env: Env): Step {
    if w.budget == 0 then Halt(w, Io)
    else
      match BaseName(env.arch)
      case None => Halt(Spend(w), UnsupportedArch(env.arch))
      case Some(base) =>
        match FetchBase(Spend(w), base, env)
        case Halt(w1, e) => Halt(w1, e)
        case Go(w1) =>
          match Verify(w1, base)
          case Halt(w2, e) => Halt(w2, e)
          case Go(w2) =>
            match MakeRoot(w2, base, env)
            case Halt(w3, e) => Halt(w3, e)
            case Go(w3) =>
              match Verify(w3, ROOT)
              case Halt(w4, e) => Halt(w4, e)
              case Go(w4) => MakePool(w4, env)
  }

  // ---------- the same steps, in place ----------

  /** The state directory, changed step by step. */
  class StateDir {
    var files: Files
    var budget: nat
    /** How short the reads of the next header check fall. */
    var shortReads: seq<nat>

    constructor (files: Files, budget: nat, shortReads: seq<nat>)
      ensures this.files == files && this.budget == budget && this.shortReads == shortReads
    {
      this.files, this.budget, this.shortReads := files, budget, shortReads;
    }

    function Now(): World
      reads this
    {
      World(files, budget)
    }

    /** Whether the next operation still succeeds. */
    method Step() returns (ok: bool)
      modifies this
      ensures ok == (old(budget) > 0) && files == old(files)
      ensures budget == if ok then old(budget) - 1 else old(budget)
    {
      ok := budget > 0;
      if ok {
        budget := budget - 1;
      }
    }

    /** `verify_disk_image`, through `read_full` and its buffer. */
    method VerifyDiskImage(name: string) returns (e: Option<ImageError>)
      modifies this
      ensures Now() == Verify(old(Now()), name).w
      ensures e == match Verify(old(Now()), name) { case Go(_) => None case Halt(_, error) => Some(error) }
    {
      if budget == 0 || name !in files {
        return Some(Io);
      }
      budget := budget - 1;
      var header := new Byte[HEADER_LEN](_ => 0);
      var file := new OpenFile(files[name], Deliveries(shortReads));
      var read := ReadFull(file, header);
      if LooksLikeDiskImage(header[..read.value]) {
        return None;
      }
      var ok := Step();
      if !ok {
        return Some(Io);
      }
      files := files - {name};
      return Some(NotADiskImage(name));
    }

    method FetchBaseImage(base: string, env: Env) returns (e: Option<ImageError>)
      modifies this
      ensures Now() == FetchBase(old(Now()), base, env).w
      ensures e == match FetchBase(old(Now()), base, env) { case Go(_) => None case Halt(_, error) => Some(error) }
    {
      if base in files {
        return None;
      }
      var ok := Step();
      if !ok {
        return Some(Io);
      }
      if env.download.left.Some? {
        files := files[base := env.download.left.value];
      }
      if !env.download.success {
        if !env.cleanupFails {
          files := files - {base};
        }
        return Some(DownloadFailed);
      }
      return None;
    }

    method MakeRootDisk(base: string, env: Env) returns (e: Option<ImageError>)
      modifies this
      ensures Now() == MakeRoot(old(Now()), base, env).w
      ensures e == match MakeRoot(old(Now()), base, env) { case Go(_) => None case Halt(_, error) => Some(error) }
    {
      hide SetLen, SizeBytes;
      if ROOT in files {
        return None;
      }
      if base !in files {
        return Some(Io);
      }
      var image := files[base];
      var ok := Step();
      if !ok {
        if env.torn.Some? {
          files := files[ROOT := image[..Min(|image|, env.torn.value)]];
        }
        return Some(Io);
      }
      files := files[ROOT := image];
      if !IsFileSize(SizeBytes(env.rootGib)) {
        return Some(Io);
      }
      ok := Step();
      if !ok {
        return Some(Io);
      }
      var resized := SetLen(image, SizeBytes(env.rootGib));
      assert files[ROOT := resized] == old(files)[ROOT := resized];
      files := files[ROOT := resized];
      return None;
    }

    method MakePoolDisk(env: Env) returns (e: Option<ImageError>)
      modifies this
      ensures Now() == MakePool(old(Now()), env).w
      ensures e == match MakePool(old(Now()), env) { case Go(_) => None case Halt(_, error) => Some(error) }
    {
      hide SetLen, SizeBytes;
      if POOL in files {
        return None;
      }
      var ok := Step();
      if !ok {
        return Some(Io);
      }
      files := files[POOL := []];
      if !IsFileSize(SizeBytes(env.poolGib)) {
        return Some(Io);
      }
      ok := Step();
      if !ok {
        return Some(Io);
      }
      var sized := SetLen([], SizeBytes(env.poolGib));
      assert files[POOL := sized] == old(files)[POOL := sized];
      files := files[POOL := sized];
      return None;
    }

    /** `ensure_images`. */
    method EnsureImages(env: Env) returns (e: Option<ImageError>)
      modifies this
      ensures Now() == Ensure(old(Now()), env).w
      ensures e == match Ensure(old(Now()), env) { case Go(_) => None case Halt(_, error) => Some(error) }
    {
      hide FetchBase, Verify, MakeRoot, MakePool, BaseName;
      var ok := Step();
      if !ok {
        return Some(Io);
      }
      var base := BaseName(env.arch);
      if base.None? {
        return Some(UnsupportedArch(env.arch));
      }
      e := FetchBaseImage(base.value, env);
      if e.Some? {
        return;
      }
      e := VerifyDiskImage(base.value);
      if e.Some? {
        return;
      }
      e := MakeRootDisk(base.value, env);
      if e.Some? {
        return;
      }
      e := VerifyDiskImage(ROOT);
      if e.Some? {
        return;
      }
      e := MakePoolDisk(env);
    }
  }
}
