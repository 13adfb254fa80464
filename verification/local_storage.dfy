/** `LocalStorage`: the storage backend whose "remote" is another path of
    the same file system. Two of its error paths are swallowed: a failed
    `MkdirAll` in `Upload` and a failed copy in `Download` both return
    `("", nil)`, which the model reproduces as `Ok("")`. */
module LocalStorage {
  import opened Outcomes
  import opened Os
  import FilePath

  /** When `Upload` copies: the destination's parent directories can be
      made, the local file exists and opens, the destination can be
      created, and the copy runs to the end. */
  predicate UploadCopies(fs: FileSystem, f: Faults, localPath: Path, remotePath: Path)
  {
    var made := MkdirAll(fs, FilePath.Dir(remotePath), f);
    && made.result.Ok?
    && localPath in fs.files && !f.open
    && remotePath != "" && remotePath !in made.fs.dirs && !f.create
    && f.copyCut.None?
  }

  /** When `Download` copies: the stored file exists and opens, the local
      path can be created, and the copy runs to the end. */
  predicate DownloadCopies(fs: FileSystem, f: Faults, remotePath: Path, localPath: Path)
  {
    && remotePath in fs.files && !f.open
    && localPath != "" && localPath !in fs.dirs && FilePath.Dir(localPath) in fs.dirs && !f.create
    && f.copyCut.None?
  }

  /** `Upload(localPath, remotePath)`: create the destination's parent
      directories, then copy the local file byte for byte to `remotePath`. */
  function Upload(fs: FileSystem, f: Faults, localPath: Path, remotePath: Path): (e: Effect<string>)
    ensures e.result.Ok? && e.result.value != "" <==> UploadCopies(fs, f, localPath, remotePath)
    ensures UploadCopies(fs, f, localPath, remotePath) ==>
              && e.result == Ok(remotePath)
              && remotePath in e.fs.files
              && e.fs.files[remotePath] == if localPath == remotePath then [] else fs.files[localPath]
    ensures var parent := FilePath.Dir(remotePath);
            MkdirAll(fs, parent, f).result.Err? ==> e == Effect(Ok(""), fs)
    ensures var parent := FilePath.Dir(remotePath);
            e.result == Ok("") ==> MkdirAll(fs, parent, f).result.Err?
    ensures var parent := FilePath.Dir(remotePath);
            MkdirAll(fs, parent, f).result.Ok? ==> parent in e.fs.dirs
    ensures e.result.Ok? ==> e.result.value == remotePath || e.result.value == ""
    ensures e.result.Ok? && e.result.value != "" ==> localPath in fs.files && remotePath in e.fs.files
    ensures e.result.Ok? && e.result.value != "" && localPath != remotePath ==>
              e.fs.files[remotePath] == fs.files[localPath]
    ensures var parent := FilePath.Dir(remotePath);
            !Exists(fs, localPath) && localPath !in Ancestors(parent) + {parent} ==>
              e.fs.files == fs.files && (e.result == Ok("") || e.result == Err(NotExist(localPath)))
    ensures e.fs.files - {remotePath} == fs.files - {remotePath}
    ensures fs.files.Keys <= e.fs.files.Keys
    ensures var parent := FilePath.Dir(remotePath);
            fs.dirs <= e.fs.dirs <= fs.dirs + Ancestors(parent) + {parent}
    ensures Valid(fs) ==> Valid(e.fs)
  {
    var made := MkdirAll(fs, FilePath.Dir(remotePath), f);
    if made.result.Err? then Effect(Ok(""), fs)
    else
      var fs1 := made.fs;
      match Open(fs1, localPath, f)
      case Err(err) => Effect(Err(err), fs1)
      case Ok(_) =>
        var created := Create(fs1, remotePath, f);
        if created.result.Err? then Effect(Err(created.result.error), fs1)
        else
          var copied := CopyInto(created.fs, localPath, remotePath, f);
          if copied.result.Err? then Effect(Err(copied.result.error), copied.fs)
          else Effect(Ok(remotePath), copied.fs)
  }

  /** `Download(remotePath, localPath)`: copy the stored file over
      `localPath`, overwriting whatever was there. */
  function Download(fs: FileSystem, f: Faults, remotePath: Path, localPath: Path): (e: Effect<Path>)
    ensures e.result.Ok? && e.result.value != "" <==> DownloadCopies(fs, f, remotePath, localPath)
    ensures DownloadCopies(fs, f, remotePath, localPath) ==>
              && e.result == Ok(localPath)
              && localPath in e.fs.files
              && e.fs.files[localPath] == if remotePath == localPath then [] else fs.files[remotePath]
    ensures !Exists(fs, remotePath) ==> e == Effect(Err(NotExist(remotePath)), fs)
    ensures e.result.Ok? ==> e.result.value == localPath || e.result.value == ""
    ensures e.result.Ok? ==> localPath in e.fs.files
    ensures e.result.Ok? && e.result.value != "" && remotePath != localPath ==>
              remotePath in fs.files && e.fs.files[localPath] == fs.files[remotePath]
    ensures e.result == Ok("") <==>
              && Open(fs, remotePath, f).Ok?
              && Create(fs, localPath, f).result.Ok?
              && (remotePath !in fs.files || f.copyCut.Some?)
    ensures e.fs.files - {localPath} == fs.files - {localPath}
    ensures fs.files.Keys <= e.fs.files.Keys
    ensures e.fs.dirs == fs.dirs
    ensures Valid(fs) ==> Valid(e.fs)
  {
    match Open(fs, remotePath, f)
    case Err(err) => Effect(Err(err), fs)
    case Ok(_) =>
      var created := Create(fs, localPath, f);
      if created.result.Err? then Effect(Err(created.result.error), fs)
      else
        var copied := CopyInto(created.fs, remotePath, localPath, f);
        if copied.result.Err? then Effect(Ok(""), copied.fs)
        else Effect(Ok(localPath), copied.fs)
  }

  /** `ListFiles`: directory listing is not implemented for this backend;
      every prefix yields an empty, non-nil list. */
  function ListFiles(prefix: string): (r: Result<seq<string>>)
    ensures r.Ok? && r.value == []
  {
    Ok([])
  }

  /** Uploading a file and downloading the same address elsewhere gives back
      the original bytes. */
  lemma UploadDownloadRoundTrip(fs: FileSystem, up: Faults, down: Faults,
                                source: Path, address: Path, target: Path)
    requires source != address && address != target
    requires Upload(fs, up, source, address).result == Ok(address) && address != ""
    requires var fs1 := Upload(fs, up, source, address).fs;
             Download(fs1, down, address, target).result == Ok(target) && target != ""
    ensures source in fs.files
    ensures var fs1 := Upload(fs, up, source, address).fs;
            Download(fs1, down, address, target).fs.files[target] == fs.files[source]
  {
  }

  /** A failed `MkdirAll` is reported as a successful upload to "" and
      nothing is written. */
  lemma UploadSwallowsMkdirFailure(fs: FileSystem, f: Faults, source: Path, address: Path)
    requires FilePath.Dir(address) !in fs.dirs && FilePath.Dir(address) != ""
    requires f.mkdir
    ensures Upload(fs, f, source, address) == Effect(Ok(""), fs)
  {
  }

  /** A copy that breaks is reported as a successful download to "", with
      the truncated bytes left at the local path. */
  lemma DownloadSwallowsCopyFailure(fs: FileSystem, f: Faults, address: Path, target: Path, n: nat)
    requires address in fs.files && address != target
    requires target != "" && target !in fs.dirs && FilePath.Dir(target) in fs.dirs
    requires !f.open && !f.create && f.copyCut == Some(n) && n < |fs.files[address]|
    ensures var e := Download(fs, f, address, target);
            e.result == Ok("") && e.fs.files[target] == fs.files[address][..n]
  {
  }
}
