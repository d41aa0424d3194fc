/** The certificate store of src/pki.rs over a directory whose runs may be cut off between writes. */
module Pki {
  import opened Wrappers

  datatype Identity = Identity(certPem: string, keyPem: string)

  datatype Material = Material(client: Identity, server: Identity)

  datatype PkiError = Io | IncompleteMaterial | CertificateGeneration

  type Files = map<string, string>

  /** The files, and how many more operations succeed before the run is cut off by an error or a crash. */
  datatype World = World(files: Files, budget: nat)

  const CLIENT_CERT := "client.crt"
  const CLIENT_KEY := "client.key"
  const SERVER_CERT := "server.crt"
  const SERVER_KEY := "server.key"

  const NAMES: seq<string> := [CLIENT_CERT, CLIENT_KEY, SERVER_CERT, SERVER_KEY]

  function Count(b: bool): nat {
    if b then 1 else 0
  }

  /** How many of the four files exist. */
  function PresentCount(files: Files): nat {
    Count(CLIENT_CERT in files) + Count(CLIENT_KEY in files) + Count(SERVER_CERT in files) + Count(SERVER_KEY in files)
  }

  /** The four files as material. */
  function Stored(files: Files): Material
    requires PresentCount(files) == 4
  {
    Material(Identity(files[CLIENT_CERT], files[CLIENT_KEY]), Identity(files[SERVER_CERT], files[SERVER_KEY]))
  }

  /** The contents of the four files, in the order they are written. */
  function Contents(m: Material): seq<string> {
    [m.client.certPem, m.client.keyPem, m.server.certPem, m.server.keyPem]
  }

  /** The directory after the first `k` writes of a generation. */
  function WriteFirst(files: Files, m: Material, k: nat): Files
    requires k <= 4
  {
    if k == 0 then files else WriteFirst(files, m, k - 1)[NAMES[k - 1] := Contents(m)[k - 1]]
  }

  lemma FourWrites(files: Files, m: Material)
    ensures WriteFirst(files, m, 0) == files
    ensures WriteFirst(files, m, 1) == files[CLIENT_CERT := m.client.certPem]
    ensures WriteFirst(files, m, 2) == WriteFirst(files, m, 1)[CLIENT_KEY := m.client.keyPem]
    ensures WriteFirst(files, m, 3) == WriteFirst(files, m, 2)[SERVER_CERT := m.server.certPem]
    ensures WriteFirst(files, m, 4) == WriteFirst(files, m, 3)[SERVER_KEY := m.server.keyPem]
  {
  }

  /**
   `load_or_create`: load when all four files exist, refuse when only some do,
   otherwise generate and write. `generated` is what generation would deliver.
   */
  function LoadOrCreate(w: World, generated: Option<Material>): (World, Result<Material, PkiError>) {
    if PresentCount(w.files) == 4 then
      if w.budget < 4 then (World(w.files, 0), Err(Io)) else (World(w.files, w.budget - 4), Ok(Stored(w.files)))
    else if PresentCount(w.files) != 0 then
      (w, Err(IncompleteMaterial))
    else if w.budget == 0 then
      (w, Err(Io))
    else if generated.None? then
      (World(w.files, w.budget - 1), Err(CertificateGeneration))
    else if w.budget < 5 then
      (World(WriteFirst(w.files, generated.value, w.budget - 1), 0), Err(Io))
    else
      (World(WriteFirst(w.files, generated.value, 4), w.budget - 5), Ok(generated.value))
  }

  /** The directory, changed one whole-file write at a time. */
  class PkiDir {
    var files: Files
    var budget: nat

    constructor (files: Files, budget: nat)
      ensures this.files == files && this.budget == budget
    {
      this.files, this.budget := files, budget;
    }

    function Now(): World
      reads this
    {
      World(files, budget)
    }

    /** One operation that can fail. */
    method Step() returns (ok: bool)
      modifies this
      ensures ok == (old(budget) > 0) && files == old(files)
      ensures budget == if ok then old(budget) - 1 else old(budget)
    {
      ok := budget > 0;
      if ok {
        budget := budget - 1;
      }
    }

    /** `fs::write`. */
    method Write(name: string, content: string) returns (ok: bool)
      modifies this
      ensures ok == (old(budget) > 0)
      ensures files == if ok then old(files)[name := content] else old(files)
      ensures budget == if ok then old(budget) - 1 else old(budget)
    {
      ok := Step();
      if ok {
        files := files[name := content];
      }
    }

    /** `fs::read_to_string`. */
    method ReadFile(name: string) returns (content: Option<string>)
      modifies this
      ensures files == old(files)
      ensures content == if old(budget) > 0 && name in files then Some(files[name]) else None
      ensures name in files ==> budget == if old(budget) > 0 then old(budget) - 1 else 0
    {
      var ok := Step();
      if !ok || name !in files {
        return None;
      }
      return Some(files[name]);
    }

    /** `write_identity`: the certificate first, then the key. */
    method WriteIdentity(certName: string, keyName: string, identity: Identity) returns (ok: bool)
      modifies this
      ensures ok == (old(budget) >= 2)
      ensures budget == if ok then old(budget) - 2 else 0
      ensures files ==
        if old(budget) == 0 then old(files)
        else if old(budget) == 1 then old(files)[certName := identity.certPem]
        else old(files)[certName := identity.certPem][keyName := identity.keyPem]
    {
      ok := Write(certName, identity.certPem);
      if !ok {
        return;
      }
      ok := Write(keyName, identity.keyPem);
    }

    /** `read_identity`. */
    method ReadIdentity(certName: string, keyName: string) returns (r: Option<Identity>)
      requires certName in files && keyName in files
      modifies this
      ensures files == old(files)
      ensures r == if old(budget) >= 2 then Some(Identity(files[certName], files[keyName])) else None
      ensures budget == if old(budget) >= 2 then old(budget) - 2 else 0
    {
      var cert := ReadFile(certName);
      if cert.None? {
        return None;
      }
      var key := ReadFile(keyName);
      if key.None? {
        return None;
      }
      return Some(Identity(cert.value, key.value));
    }

    /** `load_or_create`. */
    method LoadOrCreateInPlace(generated: Option<Material>) returns (r: Result<Material, PkiError>)
      modifies this
      ensures (Now(), r) == LoadOrCreate(old(Now()), generated)
    {
      var present := PresentCount(files);
      if present != 0 {
        if present != 4 {
          return Err(IncompleteMaterial);
        }
        var client := ReadIdentity(CLIENT_CERT, CLIENT_KEY);
        if client.None? {
          return Err(Io);
        }
        var server := ReadIdentity(SERVER_CERT, SERVER_KEY);
        if server.None? {
          return Err(Io);
        }
        return Ok(Material(client.value, server.value));
      }
      var ok := Step();
      if !ok {
        return Err(Io);
      }
      if generated.None? {
        return Err(CertificateGeneration);
      }
      FourWrites(files, generated.value);
      ok := WriteIdentity(CLIENT_CERT, CLIENT_KEY, generated.value.client);
      if !ok {
        return Err(Io);
      }
      ok := WriteIdentity(SERVER_CERT, SERVER_KEY, generated.value.server);
      if !ok {
        return Err(Io);
      }
      return Ok(generated.value);
    }
  }
}
