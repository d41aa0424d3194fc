/** What every history of `ensure_images` runs keeps, how a junk cache heals, and what a refused size leaves. */
module ImageLaws {
  import opened Wrappers
  import opened Numbers
  import opened Image

  // ---------- sizes ----------

  const RANGE: nat := 0x4_0000_0000

  /** The byte size is exact below 2^34 GiB and never otherwise. */
  lemma SizeIsExact(gib: nat)
    ensures SizeBytes(gib) == gib * GIB <==> gib < RANGE
  {
    assert RANGE * GIB == U64_END;
  }

  /**
   A wrapped size is zero exactly at the multiples of 2^34 GiB; otherwise it is a
   whole number of GiB, and a file size exactly in the lower half of that range.
   */
  lemma SizeIsZero(gib: nat)
    ensures SizeBytes(gib) == (gib % RANGE) * GIB
    ensures SizeBytes(gib) == 0 <==> gib % RANGE == 0
    ensures SizeBytes(gib) != 0 ==> SizeBytes(gib) >= GIB
    ensures IsFileSize(SizeBytes(gib)) <==> gib % RANGE < RANGE / 2
  {
    var q, r := gib / RANGE, gib % RANGE;
    assert gib * GIB == q * U64_END + r * GIB;
    assert 0 <= r * GIB < U64_END;
  }

  // ---------- the header survives resizing ----------

  lemma PassesByPrefix(a: Bytes, b: Bytes)
    requires Passes(a) && |b| >= HEADER_LEN
    requires forall i :: 0 <= i < |a| && i < HEADER_LEN ==> b[i] == a[i]
    ensures Passes(b)
  {
    var x, y := a[..Min(|a|, HEADER_LEN)], b[..HEADER_LEN];
    assert forall i :: 0 <= i < |x| ==> x[i] == y[i];
    if |x| == HEADER_LEN {
      assert x == y;
    }
  }

  /** A header that passes by its GPT magic alone. */
  function GptOnly(): Bytes {
    Zeros(512) + GPT_MAGIC
  }

  /** A resize to `n` bytes keeps every passing header passing exactly when it keeps the 520 header bytes. */
  lemma ResizeKeepsHeader(n: nat)
    ensures (forall data :: Passes(data) ==> Passes(SetLen(data, n))) <==> n >= HEADER_LEN
  {
    if n >= HEADER_LEN {
      forall data | Passes(data) ensures Passes(SetLen(data, n)) {
        PassesByPrefix(data, SetLen(data, n));
      }
    } else {
      var g := GptOnly();
      assert g[..Min(|g|, HEADER_LEN)] == g && g[512..520] == GPT_MAGIC;
      assert Passes(g);
      var cut := SetLen(g, n);
      assert cut[..Min(|cut|, HEADER_LEN)] == cut;
      assert !Passes(cut);
    }
  }

  /** A root disk cloned from a passing image passes, for every size that does not wrap to zero. */
  lemma ClonePasses(image: Bytes, gib: nat)
    requires Passes(image) && SizeBytes(gib) != 0
    ensures Passes(SetLen(image, SizeBytes(gib)))
  {
    SizeIsZero(gib);
    ResizeKeepsHeader(SizeBytes(gib));
  }

  // ---------- what one run keeps ----------

  /** A file no run may touch: any pool disk, and any other file that passes the check. */
  predicate Settled(files: Files, name: string) {
    name in files && (name == POOL || Passes(files[name]))
  }

  /** `g` is reachable from `f` without changing a settled file. */
  ghost predicate Keeps(f: Files, g: Files) {
    forall name :: Settled(f, name) ==> name in g && g[name] == f[name]
  }

  lemma KeepsIsTransitive(f: Files, g: Files, h: Files)
    requires Keeps(f, g) && Keeps(g, h)
    ensures Keeps(f, h)
  {
    hide Passes;
    forall name | Settled(f, name) ensures name in h && h[name] == f[name] {
      assert Settled(g, name);
    }
  }

  lemma FetchKeeps(w: World, base: string, env: Env)
    ensures Keeps(w.files, FetchBase(w, base, env).w.files)
  {
    hide Passes;
  }

  lemma VerifyKeeps(w: World, name: string)
    requires name != POOL
    ensures Keeps(w.files, Verify(w, name).w.files)
  {
    hide Passes;
  }

  lemma MakeRootKeeps(w: World, base: string, env: Env)
    ensures Keeps(w.files, MakeRoot(w, base, env).w.files)
  {
    hide Passes, SetLen, SizeBytes;
  }

  lemma MakePoolKeeps(w: World, env: Env)
    ensures Keeps(w.files, MakePool(w, env).w.files)
  {
    hide Passes, SetLen, SizeBytes;
  }

  /** One run, however it ends, changes no settled file. */
  lemma RunKeepsSettled(w: World, env: Env)
    ensures Keeps(w.files, Ensure(w, env).w.files)
  {
    hide Keeps, FetchBase, Verify, MakeRoot, MakePool;
    KeepsIsReflexive(w.files);
    if w.budget > 0 && BaseName(env.arch).Some? {
      var base := BaseName(env.arch).value;
      var s1 := FetchBase(Spend(w), base, env);
      FetchKeeps(Spend(w), base, env);
      if s1.Go? {
        var s2 := Verify(s1.w, base);
        VerifyKeeps(s1.w, base);
        KeepsIsTransitive(w.files, s1.w.files, s2.w.files);
        if s2.Go? {
          var s3 := MakeRoot(s2.w, base, env);
          MakeRootKeeps(s2.w, base, env);
          KeepsIsTransitive(w.files, s2.w.files, s3.w.files);
          if s3.Go? {
            var s4 := Verify(s3.w, ROOT);
            VerifyKeeps(s3.w, ROOT);
            KeepsIsTransitive(w.files, s3.w.files, s4.w.files);
            if s4.Go? {
              MakePoolKeeps(s4.w, env);
              KeepsIsTransitive(w.files, s4.w.files, MakePool(s4.w, env).w.files);
            }
          }
        }
      }
    }
  }

  lemma KeepsIsReflexive(f: Files)
    ensures Keeps(f, f)
  {
  }

  /** Success means base and root pass the check and the pool exists. */
  predicate Complete(files: Files, arch: string) {
    BaseName(arch).Some? && BaseName(arch).value in files && Passes(files[BaseName(arch).value])
    && ROOT in files && Passes(files[ROOT]) && POOL in files
  }

  lemma SuccessIsComplete(w: World, env: Env)
    requires Ensure(w, env).Go?
    ensures Complete(Ensure(w, env).w.files, env.arch)
  {
    hide Passes, SetLen, SizeBytes, BaseName, FetchBase;
  }

  /** A rejected file is gone, so no later run mistakes it for a cache hit. */
  lemma RejectedFileIsGone(w: World, env: Env)
    requires Ensure(w, env).Halt? && Ensure(w, env).error.NotADiskImage?
    ensures Ensure(w, env).error.path !in Ensure(w, env).w.files
  {
    hide Passes, SetLen, SizeBytes;
  }

  /** A failed download leaves nothing under the image's name, unless removing it fails too. */
  lemma FailedDownloadIsGone(w: World, env: Env)
    requires Ensure(w, env).Halt? && Ensure(w, env).error.DownloadFailed?
    ensures BaseName(env.arch).Some?
    ensures BaseName(env.arch).value in Ensure(w, env).w.files ==> env.cleanupFails
  {
    hide Passes, SetLen, SizeBytes, BaseName;
  }

  lemma BlankIsZeros(n: nat)
    ensures SetLen([], n) == Zeros(n)
  {
    assert [] + Zeros(n) == Zeros(n);
  }

  /**
   The disks a successful run creates are the base image cut or zero-extended to
   the configured size, and a blank pool of the configured size.
   */
  lemma NewDisksAreSized(w: World, env: Env)
    requires Ensure(w, env).Go?
    ensures var g := Ensure(w, env).w.files;
            && (ROOT !in w.files ==> g[ROOT] == SetLen(g[BaseName(env.arch).value], SizeBytes(env.rootGib)))
            && (POOL !in w.files ==> g[POOL] == Zeros(SizeBytes(env.poolGib)))
  {
    hide Passes, SetLen, SizeBytes, Zeros, BaseName;
    SuccessIsComplete(w, env);
    BlankIsZeros(SizeBytes(env.poolGib));
  }

  /** For configured sizes below 2^34 GiB those lengths are exact. */
  lemma NewDisksHaveConfiguredLength(w: World, env: Env)
    requires Ensure(w, env).Go? && env.rootGib < RANGE && env.poolGib < RANGE
    ensures ROOT !in w.files ==> ROOT in Ensure(w, env).w.files && |Ensure(w, env).w.files[ROOT]| == env.rootGib * GIB
    ensures POOL !in w.files ==> POOL in Ensure(w, env).w.files && |Ensure(w, env).w.files[POOL]| == env.poolGib * GIB
  {
    hide Ensure, Passes, SizeBytes;
    SuccessIsComplete(w, env);
    NewDisksAreSized(w, env);
    SizeIsExact(env.rootGib);
    SizeIsExact(env.poolGib);
  }

  // ---------- histories ----------

  datatype Run = Run(budget: nat, env: Env)

  function FilesAfter(files: Files, run: Run): Files {
    Ensure(World(files, run.budget), run.env).w.files
  }

  function Succeeds(files: Files, run: Run): bool {
    Ensure(World(files, run.budget), run.env).Go?
  }

  function History(files: Files, runs: seq<Run>): Files
    decreases |runs|
  {
    if runs == [] then files else History(FilesAfter(files, runs[0]), runs[1..])
  }

  /**
   Over all histories of runs, cut off anywhere and under any configuration, an
   existing pool disk and every disk that passes the check keep their bytes.
   */
  lemma {:induction false} HistoriesKeepSettled(files: Files, runs: seq<Run>)
    ensures Keeps(files, History(files, runs))
    decreases |runs|
  {
    hide Keeps, Ensure;
    if runs == [] {
      KeepsIsReflexive(files);
    } else {
      RunKeepsSettled(World(files, runs[0].budget), runs[0].env);
      HistoriesKeepSettled(FilesAfter(files, runs[0]), runs[1..]);
      KeepsIsTransitive(files, FilesAfter(files, runs[0]), History(files, runs));
    }
  }

  // ---------- healing ----------

  predicate IsJunk(files: Files, name: string) {
    name in files && !Passes(files[name])
  }

  /** The number of junk disks a run would trip over. */
  function Junk(files: Files, base: string): nat {
    (if IsJunk(files, base) then 1 else 0) + (if IsJunk(files, ROOT) then 1 else 0)
  }

  /** A run with working I/O on a supported machine, whose download would deliver a passing image. */
  predicate GoodRun(run: Run, base: string) {
    && run.budget >= 10
    && BaseName(run.env.arch) == Some(base)
    && run.env.download.success && run.env.download.left.Some? && Passes(run.env.download.left.value)
  }

  lemma GoodRunWithBaseJunk(files: Files, run: Run, base: string)
    requires GoodRun(run, base) && IsJunk(files, base)
    ensures Ensure(World(files, run.budget), run.env) ==
            Halt(World(files - {base}, run.budget - 3), NotADiskImage(base))
  {
    hide Passes;
  }

  /** With a good base in place, or none, a good run gets as far as the root disk. */
  lemma GoodRunToRoot(files: Files, run: Run, base: string) returns (w2: World)
    requires GoodRun(run, base) && !IsJunk(files, base)
    ensures w2.budget >= 7 && base in w2.files && Passes(w2.files[base])
    ensures w2.files == files[base := w2.files[base]]
    ensures Ensure(World(files, run.budget), run.env) == FromRoot(w2, base, run.env)
  {
    hide Passes;
    var w1 := FetchBase(Spend(World(files, run.budget)), base, run.env).w;
    w2 := Verify(w1, base).w;
    assert w2.files == files[base := w2.files[base]];
  }

  /** The part of a run after the base image has been verified. */
  function FromRoot(w2: World, base: string, env: Env): Step {
    match MakeRoot(w2, base, env)
    case Halt(w3, e) => Halt(w3, e)
    case Go(w3) =>
      match Verify(w3, ROOT)
      case Halt(w4, e) => Halt(w4, e)
      case Go(w4) => MakePool(w4, env)
  }

  /** A root disk of the configured size can be made and passes the check. */
  predicate RootFits(env: Env) {
    0 < SizeBytes(env.rootGib) && IsFileSize(SizeBytes(env.rootGib))
  }

  predicate PoolFits(env: Env) {
    IsFileSize(SizeBytes(env.poolGib))
  }

  lemma RootStage(w2: World, base: string, env: Env)
    requires w2.budget >= 7 && base in w2.files && Passes(w2.files[base]) && base != ROOT && base != POOL
    ensures IsJunk(w2.files, ROOT) ==>
              FromRoot(w2, base, env).Halt? && FromRoot(w2, base, env).error == NotADiskImage(ROOT)
              && FromRoot(w2, base, env).w.files == w2.files - {ROOT}
    ensures !IsJunk(w2.files, ROOT) ==>
              (FromRoot(w2, base, env).Go? <==>
               (ROOT in w2.files || RootFits(env)) && (POOL in w2.files || PoolFits(env)))
  {
    hide Passes, SetLen, SizeBytes, IsFileSize;
    if ROOT !in w2.files && IsFileSize(SizeBytes(env.rootGib)) {
      if SizeBytes(env.rootGib) == 0 {
        EmptyFails(w2.files[base]);
      } else {
        ClonePasses(w2.files[base], env.rootGib);
      }
    }
  }

  lemma EmptyFails(image: Bytes)
    ensures !Passes(SetLen(image, 0))
  {
  }

  /**
   A good run succeeds exactly when no junk is in its way and each disk it still has
   to make fits: the root disk's byte size neither wraps to zero nor exceeds the
   signed 64-bit range, and the pool disk's does not exceed it.
   */
  lemma GoodRunSucceeds(files: Files, run: Run, base: string)
    requires GoodRun(run, base)
    ensures Succeeds(files, run) <==>
            Junk(files, base) == 0 && (ROOT in files || RootFits(run.env)) && (POOL in files || PoolFits(run.env))
  {
    hide Passes, Ensure, FromRoot, RootFits, PoolFits;
    if IsJunk(files, base) {
      GoodRunWithBaseJunk(files, run, base);
    } else {
      var w2 := GoodRunToRoot(files, run, base);
      RootStage(w2, base, run.env);
    }
  }

  /** The disks that these files lack, or hold as junk, fit as the run has them configured. */
  predicate MissingDisksFit(files: Files, env: Env) {
    && ((ROOT in files && Passes(files[ROOT])) || RootFits(env))
    && (POOL in files || PoolFits(env))
  }

  /** A run, however it ends, does not change that for the worse. */
  lemma MissingDisksStillFit(files: Files, run: Run, env: Env)
    requires MissingDisksFit(files, env)
    ensures MissingDisksFit(FilesAfter(files, run), env)
  {
    hide Passes, Ensure, RootFits, PoolFits;
    RunKeepsSettled(World(files, run.budget), run.env);
    assert POOL in files ==> Settled(files, POOL);
    assert ROOT in files && Passes(files[ROOT]) ==> Settled(files, ROOT);
  }

  /**
   A good run fails with `NotADiskImage` when junk is in its way, and then removes one
   junk file; otherwise it succeeds, provided that the disks that are missing fit.
   */
  lemma GoodRunHeals(files: Files, run: Run, base: string)
    requires GoodRun(run, base) && MissingDisksFit(files, run.env)
    ensures Junk(files, base) > 0 ==>
              Ensure(World(files, run.budget), run.env).Halt?
              && Ensure(World(files, run.budget), run.env).error.NotADiskImage?
              && Junk(FilesAfter(files, run), base) == Junk(files, base) - 1
    ensures Junk(files, base) == 0 ==> Succeeds(files, run) && Junk(FilesAfter(files, run), base) == 0
  {
    hide Passes, Ensure, FromRoot, RootFits, PoolFits;
    var w := World(files, run.budget);
    if IsJunk(files, base) {
      GoodRunWithBaseJunk(files, run, base);
    } else {
      var w2 := GoodRunToRoot(files, run, base);
      RootStage(w2, base, run.env);
      if Junk(files, base) == 0 {
        SuccessIsComplete(w, run.env);
      }
    }
  }

  /**
   From any contents of base and root, in any sequence of good runs that can make the
   missing disks exactly the first `Junk` runs, at most two, fail with
   `NotADiskImage`; all others succeed.
   */
  lemma {:induction false} CacheHeals(files: Files, runs: seq<Run>, base: string, k: nat)
    requires forall i :: 0 <= i < |runs| ==> GoodRun(runs[i], base) && MissingDisksFit(files, runs[i].env)
    requires k < |runs|
    ensures Junk(files, base) <= 2
    ensures Succeeds(History(files, runs[..k]), runs[k]) <==> k >= Junk(files, base)
    ensures k < Junk(files, base) ==>
            Ensure(World(History(files, runs[..k]), runs[k].budget), runs[k].env).error.NotADiskImage?
    decreases |runs|
  {
    hide Ensure, GoodRun, IsJunk, MissingDisksFit;
    GoodRunHeals(files, runs[0], base);
    if k == 0 {
      assert runs[..0] == [];
    } else {
      assert runs[..k][0] == runs[0] && runs[..k][1..] == runs[1..][..k - 1];
      var g := FilesAfter(files, runs[0]);
      forall i | 1 <= i < |runs| ensures MissingDisksFit(g, runs[i].env) {
        MissingDisksStillFit(files, runs[0], runs[i].env);
      }
      CacheHeals(g, runs[1..], base, k - 1);
    }
  }

  /** On an empty directory a good run succeeds exactly when both sizes fit. */
  lemma FreshRunSucceeds(run: Run, base: string)
    requires GoodRun(run, base)
    ensures Succeeds(map[], run) <==>
            0 < SizeBytes(run.env.rootGib) < I64_END && SizeBytes(run.env.poolGib) < I64_END
  {
    hide Ensure, GoodRun, SizeBytes, Passes;
    GoodRunSucceeds(map[], run, base);
  }

  // ---------- refused sizes ----------

  /** A good run that meets a refused root size leaves the copy of the base image unresized. */
  lemma RefusedRootLeavesCopy(files: Files, run: Run, base: string)
    requires GoodRun(run, base) && !IsJunk(files, base) && ROOT !in files
    requires !IsFileSize(SizeBytes(run.env.rootGib))
    ensures Ensure(World(files, run.budget), run.env).Halt? && Ensure(World(files, run.budget), run.env).error == Io
    ensures var g := FilesAfter(files, run);
            base in g && Passes(g[base]) && ROOT in g && g[ROOT] == g[base] && (POOL in g <==> POOL in files)
  {
    hide Passes, Ensure, SetLen, SizeBytes, IsFileSize;
    var w2 := GoodRunToRoot(files, run, base);
  }

  /**
   So the refusal is reported once: in every later history the root disk keeps the
   length of the base image, and a good run then succeeds whatever root size is
   configured, as soon as the pool disk is there or fits.
   */
  lemma RefusedRootIsKept(files: Files, run: Run, base: string, later: seq<Run>, next: Run)
    requires GoodRun(run, base) && !IsJunk(files, base) && ROOT !in files
    requires !IsFileSize(SizeBytes(run.env.rootGib)) && GoodRun(next, base)
    ensures var g := FilesAfter(files, run); var h := History(g, later);
            && !Succeeds(files, run)
            && base in g && ROOT in h && h[ROOT] == g[base]
            && (Succeeds(h, next) <==> POOL in h || PoolFits(next.env))
  {
    hide Passes, Ensure, GoodRun, SizeBytes, IsFileSize, History, PoolFits;
    RefusedRootLeavesCopy(files, run, base);
    var g := FilesAfter(files, run);
    assert base != POOL && base != ROOT by { BaseIsNoDisk(run, base); }
    assert Settled(g, base) && Settled(g, ROOT);
    HistoriesKeepSettled(g, later);
    GoodRunSucceeds(History(g, later), next, base);
  }

  lemma BaseIsNoDisk(run: Run, base: string)
    requires GoodRun(run, base)
    ensures base != POOL && base != ROOT
  {
  }

  /** A good run that meets a refused pool size leaves an empty pool disk, which every later run keeps. */
  lemma RefusedPoolIsKept(files: Files, run: Run, base: string, later: seq<Run>)
    requires GoodRun(run, base) && Junk(files, base) == 0 && (ROOT in files || RootFits(run.env)) && POOL !in files
    requires !PoolFits(run.env)
    ensures Ensure(World(files, run.budget), run.env).Halt? && Ensure(World(files, run.budget), run.env).error == Io
    ensures var h := History(FilesAfter(files, run), later); POOL in h && h[POOL] == []
  {
    hide Passes, Ensure, SizeBytes, IsFileSize, History, RootFits, FromRoot;
    var w2 := GoodRunToRoot(files, run, base);
    PoolRefused(w2, base, run.env);
    var g := FilesAfter(files, run);
    assert Settled(g, POOL);
    HistoriesKeepSettled(g, later);
  }

  lemma PoolRefused(w2: World, base: string, env: Env)
    requires w2.budget >= 7 && base in w2.files && Passes(w2.files[base]) && base != ROOT && base != POOL
    requires (if ROOT in w2.files then Passes(w2.files[ROOT]) else RootFits(env)) && POOL !in w2.files && !PoolFits(env)
    ensures FromRoot(w2, base, env).Halt? && FromRoot(w2, base, env).error == Io
    ensures POOL in FromRoot(w2, base, env).w.files && FromRoot(w2, base, env).w.files[POOL] == []
  {
    hide Passes, SetLen, SizeBytes, IsFileSize;
    if ROOT !in w2.files {
      ClonePasses(w2.files[base], env.rootGib);
    }
  }

  // ---------- what counts as a disk image ----------

  /** The MBR signature at byte 510, or the letters of the GPT signature at byte 512, within the file. */
  lemma PassesIs(data: Bytes)
    ensures Passes(data) <==>
            || (|data| >= 512 && data[510..512] == [0x55, 0xAA])
            || (|data| >= 520 && forall i :: 0 <= i < 8 ==> data[512 + i] == "EFI PART"[i] as int)
  {
    var header := data[..Min(|data|, HEADER_LEN)];
    if |data| >= 512 {
      assert header[510] == data[510] && header[511] == data[511];
      assert data[510..512] == [data[510], data[511]];
    }
    if |data| >= 520 {
      assert header[512..520] == data[512..520];
      MagicIs(data[512..520]);
      assert forall i :: 0 <= i < 8 ==> data[512..520][i] == data[512 + i];
    }
  }

  lemma MagicIs(bytes: Bytes)
    requires |bytes| == 8
    ensures bytes == GPT_MAGIC <==> forall i :: 0 <= i < 8 ==> bytes[i] == "EFI PART"[i] as int
  {
    assert forall i :: 0 <= i < 8 ==> GPT_MAGIC[i] == "EFI PART"[i] as int;
  }

  /** A text, such as an error page, never passes unless it spells the GPT signature in its place. */
  lemma TextIsNoImage(data: Bytes)
    requires forall i :: 0 <= i < |data| ==> data[i] < 128
    ensures Passes(data) <==> |data| >= 520 && forall i :: 0 <= i < 8 ==> data[512 + i] == "EFI PART"[i] as int
  {
    hide Passes;
    PassesIs(data);
    assert |data| >= 512 ==> data[510..512][1] == data[511];
  }

  // ---------- the files of a run ----------

  /** The image for each supported machine; on any other nothing is done. */
  lemma ArchIs(w: World, env: Env)
    ensures env.arch == "aarch64" ==> BaseName(env.arch) == Some("images/debian-12-genericcloud-" + "arm64" + ".raw")
    ensures env.arch == "x86_64" ==> BaseName(env.arch) == Some("images/debian-12-genericcloud-" + "amd64" + ".raw")
    ensures env.arch !in {"aarch64", "x86_64"} && w.budget > 0 ==>
              Ensure(w, env).Halt? && Ensure(w, env).error == UnsupportedArch(env.arch)
              && Ensure(w, env).w.files == w.files
  {
    assert "images/debian-12-genericcloud-" + "arm64" + ".raw" == "images/debian-12-genericcloud-arm64.raw";
    assert "images/debian-12-genericcloud-" + "amd64" + ".raw" == "images/debian-12-genericcloud-amd64.raw";
    hide FetchBase, Verify, MakeRoot, MakePool;
  }

  /** A success on an empty directory leaves exactly the downloaded image, its resized copy and the blank pool. */
  lemma FreshRunFiles(run: Run, base: string)
    requires GoodRun(run, base) && Succeeds(map[], run)
    ensures var image := run.env.download.left.value;
            FilesAfter(map[], run) ==
            map[base := image, "root.raw" := SetLen(image, SizeBytes(run.env.rootGib)),
                "pool.raw" := Zeros(SizeBytes(run.env.poolGib))]
  {
    hide Passes, SetLen, SizeBytes, IsFileSize, Zeros;
    BlankIsZeros(SizeBytes(run.env.poolGib));
    BaseIsNoDisk(run, base);
  }

  /** A download that fails is reported, and leaves the directory as it was unless the removal fails too. */
  lemma FailedDownloadIsReported(files: Files, run: Run, base: string)
    requires BaseName(run.env.arch) == Some(base) && base !in files && !run.env.download.success && run.budget >= 2
    ensures Ensure(World(files, run.budget), run.env).Halt?
    ensures Ensure(World(files, run.budget), run.env).error == DownloadFailed
    ensures !run.env.cleanupFails ==> FilesAfter(files, run) == files
  {
    hide Verify, MakeRoot, MakePool;
  }

  /** With an image in place a run does not depend on any download. */
  lemma PresentImageIsUsed(w: World, env: Env, download: Download)
    requires BaseName(env.arch).Some? && BaseName(env.arch).value in w.files
    ensures Ensure(w, env.(download := download)) == Ensure(w, env)
  {
    hide Verify, SetLen, SizeBytes, IsFileSize;
    var base := BaseName(env.arch).value;
    SameRoot(env, download);
  }

  lemma SameRoot(env: Env, download: Download)
    ensures forall w, base :: MakeRoot(w, base, env.(download := download)) == MakeRoot(w, base, env)
    ensures forall w :: MakePool(w, env.(download := download)) == MakePool(w, env)
  {
    hide SetLen, SizeBytes, IsFileSize;
  }

  /** The image cut somewhere, or cut or extended to the configured size. */
  ghost predicate IsMadeFrom(disk: Bytes, image: Bytes, size: nat) {
    disk == SetLen(image, size) || exists n :: 0 <= n <= |image| && disk == image[..n]
  }

  lemma MadeFromImage(w: World, base: string, env: Env)
    requires ROOT !in w.files && ROOT in MakeRoot(w, base, env).w.files && base != ROOT
    ensures base in w.files && base in MakeRoot(w, base, env).w.files
    ensures MakeRoot(w, base, env).w.files[base] == w.files[base]
    ensures IsMadeFrom(MakeRoot(w, base, env).w.files[ROOT], w.files[base], SizeBytes(env.rootGib))
  {
    hide SetLen, SizeBytes, IsFileSize;
    var image := w.files[base];
    assert image[..|image|] == image;
  }

  /** Wherever a run is cut off, a disk it has made comes from the image, and a pool it has made is blank. */
  lemma NewDisksAreFromImage(w: World, env: Env)
    ensures var g := Ensure(w, env).w.files;
            && (ROOT in g && ROOT !in w.files ==>
                  && BaseName(env.arch).Some? && BaseName(env.arch).value in g
                  && IsMadeFrom(g[ROOT], g[BaseName(env.arch).value], SizeBytes(env.rootGib)))
            && (POOL in g && POOL !in w.files ==> g[POOL] == [] || g[POOL] == Zeros(SizeBytes(env.poolGib)))
  {
    hide Passes, SetLen, SizeBytes, IsFileSize, Zeros, BaseName, FetchBase, MakeRoot, IsMadeFrom;
    BlankIsZeros(SizeBytes(env.poolGib));
    if w.budget > 0 && BaseName(env.arch).Some? {
      var base := BaseName(env.arch).value;
      var s1 := FetchBase(Spend(w), base, env);
      FetchMakesNoDisk(Spend(w), base, env);
      if s1.Go? {
        var s2 := Verify(s1.w, base);
        if s2.Go? {
          RootMakesNoPool(s2.w, base, env);
          if ROOT !in w.files && ROOT in MakeRoot(s2.w, base, env).w.files {
            MadeFromImage(s2.w, base, env);
          }
        }
      }
    }
  }

  lemma FetchMakesNoDisk(w: World, base: string, env: Env)
    requires base != ROOT && base != POOL
    ensures var g := FetchBase(w, base, env).w.files;
            (ROOT in g <==> ROOT in w.files) && (POOL in g <==> POOL in w.files)
  {
  }

  lemma RootMakesNoPool(w: World, base: string, env: Env)
    ensures POOL in MakeRoot(w, base, env).w.files <==> POOL in w.files
  {
    hide SetLen, SizeBytes, IsFileSize;
  }
}
