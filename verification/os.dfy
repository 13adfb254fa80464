/** The operating-system calls the adapters make, over an abstract file
    system: regular files by path, plus a set of directories. Faults the
    environment may inject (permissions, full disks, broken pipes) are a
    parameter of each call rather than hidden state. */
module Os {
  import opened Outcomes
  import FilePath

  newtype byte = b: int | 0 <= b < 256

  type Path = string
  type Bytes = seq<byte>

  /** Files and directories, keyed by the literal path string. */
  datatype FileSystem = FileSystem(files: map<Path, Bytes>, dirs: set<Path>)

  /** No path is both a file and a directory, and the empty path is neither. */
  predicate Valid(fs: FileSystem)
  {
    && fs.files.Keys !! fs.dirs
    && "" !in fs.files
    && "" !in fs.dirs
  }

  predicate Exists(fs: FileSystem, p: Path)
  {
    p in fs.files || p in fs.dirs
  }

  /** Which steps of one adapter call the environment makes fail:
      `copyCut == Some(n)` means the copy breaks after at most `n` bytes. */
  datatype Faults = Faults(mkdir: bool, open: bool, stat: bool, create: bool, copyCut: Option<nat>)

  const NoFaults: Faults := Faults(false, false, false, false, None)

  /** What an external producer of bytes (a gzip stream, a dump utility, an
      object-store download) wrote and whether it reported success. */
  datatype Stream = Stream(completed: bool, written: Bytes)

  /** The result of a call together with the file system it leaves. */
  datatype Effect<T> = Effect(result: Result<T>, fs: FileSystem)

  /** `os.Stat`: only reports. */
  function Stat(fs: FileSystem, p: Path, f: Faults): (r: Result<()>)
    ensures r.Ok? <==> Exists(fs, p) && !f.stat
    ensures !Exists(fs, p) ==> r == Err(NotExist(p))
  {
    if !Exists(fs, p) then Err(NotExist(p))
    else if f.stat then Err(Fault(StatOp, p))
    else Ok(())
  }

  /** `os.Open` for reading: a directory opens too (reading it fails later). */
  function Open(fs: FileSystem, p: Path, f: Faults): (r: Result<()>)
    ensures r.Ok? <==> Exists(fs, p) && !f.open
    ensures !Exists(fs, p) ==> r == Err(NotExist(p))
  {
    if !Exists(fs, p) then Err(NotExist(p))
    else if f.open then Err(Fault(OpenOp, p))
    else Ok(())
  }

  /** `os.Create`: truncates or creates a regular file whose parent
      directory exists. */
  function Create(fs: FileSystem, p: Path, f: Faults): (e: Effect<()>)
    ensures e.result.Ok? <==> p != "" && p !in fs.dirs && FilePath.Dir(p) in fs.dirs && !f.create
    ensures e.result.Ok? ==> e.fs == FileSystem(fs.files[p := []], fs.dirs)
    ensures e.result.Err? ==> e.fs == fs
  {
    if p == "" then Effect(Err(NotExist(p)), fs)
    else if p in fs.dirs then Effect(Err(IsDirectory(p)), fs)
    else if FilePath.Dir(p) !in fs.dirs then Effect(Err(NotExist(p)), fs)
    else if f.create then Effect(Err(Fault(CreateOp, p)), fs)
    else Effect(Ok(()), FileSystem(fs.files[p := []], fs.dirs))
  }

  /** The proper ancestors of a (clean) directory path, excluding the root. */
  function Ancestors(d: Path): set<Path>
  {
    set i | 0 < i < |d| && d[i] == FilePath.Separator :: d[..i]
  }

  /** `os.MkdirAll`: nothing to do for an existing directory; fails when the
      path or one of its ancestors is a regular file. */
  function MkdirAll(fs: FileSystem, d: Path, f: Faults): (e: Effect<()>)
    ensures e.result.Ok? ==> d in e.fs.dirs
    ensures e.fs.files == fs.files
    ensures fs.dirs <= e.fs.dirs <= fs.dirs + Ancestors(d) + {d}
    ensures e.result.Err? ==> e.fs == fs
    ensures d in fs.dirs ==> e == Effect(Ok(()), fs)
    ensures Valid(fs) ==> Valid(e.fs)
  {
    if d in fs.dirs then Effect(Ok(()), fs)
    else if d == "" then Effect(Err(NotExist(d)), fs)
    else if d in fs.files || !(Ancestors(d) !! fs.files.Keys) then Effect(Err(NotDirectory(d)), fs)
    else if f.mkdir then Effect(Err(Fault(MkdirOp, d)), fs)
    else Effect(Ok(()), FileSystem(fs.files, fs.dirs + Ancestors(d) + {d}))
  }

  /** `io.Copy` from the opened `src` into `dst`, which `os.Create` has just
      truncated. The bytes are read after the truncation, so copying a file
      onto itself copies nothing; reading an opened directory fails at once;
      a fault leaves the bytes written so far. */
  function CopyInto(fs: FileSystem, src: Path, dst: Path, f: Faults): (e: Effect<()>)
    requires dst in fs.files
    ensures e.fs.dirs == fs.dirs
    ensures e.fs.files.Keys == fs.files.Keys
    ensures e.fs.files - {dst} == fs.files - {dst}
    ensures e.result.Ok? <==> src in fs.files && f.copyCut.None?
    ensures e.result.Ok? ==> e.fs.files[dst] == fs.files[src]
  {
    if src !in fs.files then Effect(Err(Fault(CopyOp, src)), fs)
    else
      match f.copyCut
      case None => Effect(Ok(()), FileSystem(fs.files[dst := fs.files[src]], fs.dirs))
      case Some(n) =>
        var data := fs.files[src];
        var kept := if n < |data| then n else |data|;
        Effect(Err(Fault(CopyOp, dst)), FileSystem(fs.files[dst := data[..kept]], fs.dirs))
  }

  /** `os.Remove` of a regular file, with its error ignored as every caller
      does: a missing path changes nothing. */
  function Remove(fs: FileSystem, p: Path): (r: FileSystem)
    ensures p !in r.files
    ensures forall q :: q != p && q in fs.files ==> q in r.files && r.files[q] == fs.files[q]
    ensures r.files.Keys <= fs.files.Keys && r.dirs == fs.dirs
  {
    FileSystem(fs.files - {p}, fs.dirs)
  }

  /** Removing `p` changes nothing outside `p`. */
  lemma RemoveOutside(fs: FileSystem, p: Path)
    ensures Remove(fs, p).files - {p} == fs.files - {p}
  {
    assert (fs.files - {p}) - {p} == fs.files - {p};
  }

  /** Two file maps that agree outside `p` agree outside any set holding `p`. */
  lemma AgreeOutside(a: map<Path, Bytes>, b: map<Path, Bytes>, p: Path, s: set<Path>)
    requires a - {p} == b - {p} && p in s
    ensures a - s == b - s
  {
    assert forall q :: q in a - s <==> q in b - s by {
      forall q ensures q in a - s <==> q in b - s {
        if q !in s {
          assert q in a - {p} <==> q in b - {p};
        }
      }
    }
    forall q | q in a - s ensures (a - s)[q] == (b - s)[q] {
      assert (a - {p})[q] == (b - {p})[q];
    }
  }
}
