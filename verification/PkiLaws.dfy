/** What every history of `load_or_create` runs keeps. */
module PkiLaws {
  import opened Wrappers
  import opened Pki

  datatype Run = Run(budget: nat, generated: Option<Material>)

  function FilesAfter(files: Files, run: Run): Files {
    LoadOrCreate(World(files, run.budget), run.generated).0.files
  }

  function Outcome(files: Files, run: Run): Result<Material, PkiError> {
    LoadOrCreate(World(files, run.budget), run.generated).1
  }

  function History(files: Files, runs: seq<Run>): Files
    decreases |runs|
  {
    if runs == [] then files else History(FilesAfter(files, runs[0]), runs[1..])
  }

  /** The names written first are exactly those present after `k` writes into an empty directory. */
  lemma {:induction false} WrittenNames(m: Material, k: nat)
    requires k <= 4
    ensures PresentCount(WriteFirst(map[], m, k)) == k
    ensures forall i :: 0 <= i < k ==>
      NAMES[i] in WriteFirst(map[], m, k) && WriteFirst(map[], m, k)[NAMES[i]] == Contents(m)[i]
    ensures WriteFirst(map[], m, k).Keys == set i | 0 <= i < k :: NAMES[i]
  {
    NamesDiffer();
    if k > 0 {
      WrittenNames(m, k - 1);
    }
  }

  lemma NamesDiffer()
    ensures forall i, j :: 0 <= i < j < 4 ==> NAMES[i] != NAMES[j]
  {
    assert CLIENT_CERT[0] == 'c' && CLIENT_KEY[0] == 'c' && SERVER_CERT[0] == 's' && SERVER_KEY[0] == 's';
    assert CLIENT_CERT[7] == 'c' && CLIENT_KEY[7] == 'k' && SERVER_CERT[7] == 'c' && SERVER_KEY[7] == 'k';
  }

  /** Some of the four files exist. */
  predicate HoldsSome(files: Files) {
    "client.crt" in files || "client.key" in files || "server.crt" in files || "server.key" in files
  }

  /** All of them do. */
  predicate HoldsAll(files: Files) {
    "client.crt" in files && "client.key" in files && "server.crt" in files && "server.key" in files
  }

  /** The material the four files hold. */
  function StoredIn(files: Files): Material
    requires HoldsAll(files)
  {
    Material(Identity(files["client.crt"], files["client.key"]), Identity(files["server.crt"], files["server.key"]))
  }

  lemma CountIs(files: Files)
    ensures PresentCount(files) > 0 <==> HoldsSome(files)
    ensures PresentCount(files) == 4 <==> HoldsAll(files)
    ensures HoldsAll(files) ==> Stored(files) == StoredIn(files)
  {
  }

  /** A directory that holds any of the four files is never written to again. */
  lemma {:induction false} PresentIsFrozen(files: Files, runs: seq<Run>)
    requires HoldsSome(files)
    ensures History(files, runs) == files
    decreases |runs|
  {
    CountIs(files);
    if runs != [] {
      PresentIsFrozen(files, runs[1..]);
    }
  }

  /** Any part of one generation: its first `k` files and nothing else. */
  ghost predicate IsPartOf(files: Files, m: Material, k: int) {
    0 <= k <= 4 && files == WriteFirst(map[], m, k)
  }

  /** One run on an empty directory writes a part of its own generation. */
  lemma RunFromEmpty(run: Run)
    ensures FilesAfter(map[], run) == map[] ||
            (run.generated.Some? && exists k :: 1 <= k <= 4 && IsPartOf(FilesAfter(map[], run), run.generated.value, k))
  {
    if run.generated.Some? && run.budget > 1 {
      var k := if run.budget < 5 then run.budget - 1 else 4;
      assert IsPartOf(FilesAfter(map[], run), run.generated.value, k);
    } else if run.generated.Some? && run.budget == 1 {
      assert WriteFirst(map[], run.generated.value, 0) == map[];
    }
  }

  /**
   Over all histories from an empty directory the files never mix two
   generations: they are a part of the generation of the one run that wrote.
   */
  lemma {:induction false} OneGeneration(runs: seq<Run>)
    ensures History(map[], runs) == map[] ||
            exists i, k :: 0 <= i < |runs| && runs[i].generated.Some? && 1 <= k <= 4
                           && IsPartOf(History(map[], runs), runs[i].generated.value, k)
                           && History(map[], runs[..i]) == map[]
    decreases |runs|
  {
    if runs != [] {
      var after := FilesAfter(map[], runs[0]);
      RunFromEmpty(runs[0]);
      if after == map[] {
        OneGeneration(runs[1..]);
        if History(map[], runs[1..]) != map[] {
          var i, k :| 0 <= i < |runs[1..]| && runs[1..][i].generated.Some? && 1 <= k <= 4
                      && IsPartOf(History(map[], runs[1..]), runs[1..][i].generated.value, k)
                      && History(map[], runs[1..][..i]) == map[];
          assert runs[1..][i] == runs[i + 1];
          assert runs[..i + 1][0] == runs[0] && runs[..i + 1][1..] == runs[1..][..i];
          assert IsPartOf(History(map[], runs), runs[i + 1].generated.value, k);
          assert History(map[], runs[..i + 1]) == map[];
        }
      } else {
        var k :| 1 <= k <= 4 && IsPartOf(after, runs[0].generated.value, k);
        WrittenNames(runs[0].generated.value, k);
        CountIs(after);
        PresentIsFrozen(after, runs[1..]);
        assert runs[..0] == [];
        assert IsPartOf(History(map[], runs), runs[0].generated.value, k);
      }
    }
  }

  /** A run that can do its four reads. */
  predicate CanRead(run: Run) {
    run.budget >= 4
  }

  /** Returned material is what the four files then hold. */
  lemma SuccessStores(files: Files, run: Run, m: Material)
    requires Outcome(files, run) == Ok(m)
    ensures HoldsAll(FilesAfter(files, run)) && StoredIn(FilesAfter(files, run)) == m
  {
    NamesDiffer();
    CountIs(files);
    CountIs(FilesAfter(files, run));
    if PresentCount(files) != 4 {
      FourWrites(files, m);
    }
  }

  /**
   Once a run returns material, whatever the directory held before, every later
   run writes nothing and returns the same material, if it can read at all.
   */
  lemma SuccessIsFinal(files: Files, first: Run, m: Material, between: seq<Run>, later: Run)
    requires Outcome(files, first) == Ok(m)
    ensures var now := History(FilesAfter(files, first), between);
            FilesAfter(now, later) == now && Outcome(now, later) == if CanRead(later) then Ok(m) else Err(Io)
  {
    SuccessStores(files, first, m);
    CountIs(FilesAfter(files, first));
    PresentIsFrozen(FilesAfter(files, first), between);
  }

  /**
   A run on an empty directory cut off after one to three of its writes makes
   every later run refuse: material is never silently regenerated.
   */
  lemma CutOffIsReported(first: Run, between: seq<Run>, later: Run)
    requires first.generated.Some? && 2 <= first.budget <= 4
    ensures var now := History(FilesAfter(map[], first), between);
            FilesAfter(now, later) == now && Outcome(now, later) == Err(IncompleteMaterial)
  {
    WrittenNames(first.generated.value, first.budget - 1);
    CountIs(FilesAfter(map[], first));
    PresentIsFrozen(FilesAfter(map[], first), between);
  }

  /**
   Incomplete material is reported exactly when some but not all of the four files
   exist, and only a directory without any of them is written to.
   */
  lemma OutcomeIsDecidedByPresence(files: Files, run: Run)
    ensures Outcome(files, run) == Err(IncompleteMaterial) <==> HoldsSome(files) && !HoldsAll(files)
    ensures FilesAfter(files, run) != files ==> !HoldsSome(files)
  {
    CountIs(files);
  }

  /** Four existing files are loaded, each into its place, and nothing is written. */
  lemma ExistingIsLoaded(files: Files, run: Run)
    requires HoldsAll(files)
    ensures Outcome(files, run) == if CanRead(run) then Ok(StoredIn(files)) else Err(Io)
    ensures FilesAfter(files, run) == files
  {
    CountIs(files);
  }

  /** Where none of the four exists, generated material is returned and stored, each part under its name. */
  lemma MissingIsCreated(files: Files, run: Run, m: Material)
    requires !HoldsSome(files) && run.generated == Some(m) && run.budget >= 5
    ensures Outcome(files, run) == Ok(m)
    ensures FilesAfter(files, run) == files["client.crt" := m.client.certPem]["client.key" := m.client.keyPem]
                                           ["server.crt" := m.server.certPem]["server.key" := m.server.keyPem]
  {
    CountIs(files);
    FourWrites(files, m);
  }

  /** A failing generation is reported and writes nothing. */
  lemma FailedGenerationIsReported(files: Files, run: Run)
    requires !HoldsSome(files) && run.generated.None? && run.budget > 0
    ensures Outcome(files, run) == Err(CertificateGeneration) && FilesAfter(files, run) == files
  {
    CountIs(files);
  }
}
