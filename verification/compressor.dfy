/** The file-level behaviour of `CompressFile` and `DecompressFile`: which
    paths they read and write, in which order they can fail, and the naming
    rule `p` <-> `p + ".gz"`. The gzip bytes themselves come from an
    external `Stream` outcome. */
module Compressor {
  import opened Outcomes
  import opened Os
  import Text
  import FilePath

  const GzipExtension: string := ".gz"

  /** The output path of `CompressFile`. */
  function CompressedPath(p: Path): (q: Path)
    ensures FilePath.Ext(q) == GzipExtension && Text.HasSuffix(q, GzipExtension)
    ensures DecompressedPath(q) == p
  {
    FilePath.ExtOfGzName(p);
    assert (p + GzipExtension)[..|p|] == p;
    p + GzipExtension
  }

  /** The output path of `DecompressFile`: one trailing ".gz" removed. */
  function DecompressedPath(p: Path): (q: Path)
    ensures Text.HasSuffix(p, GzipExtension) ==> q + GzipExtension == p
    ensures !Text.HasSuffix(p, GzipExtension) ==> q == p
  {
    Text.TrimSuffix(p, GzipExtension)
  }

  /** `CompressFile`: open the input, create `input + ".gz"`, stream the
      gzip output into it. The input is never changed or removed. */
  function CompressFile(fs: FileSystem, f: Faults, inputPath: Path, gzip: Stream): (e: Effect<Path>)
    ensures !Exists(fs, inputPath) ==> e == Effect(Err(NotExist(inputPath)), fs)
    ensures e.result.Ok? <==>
              Open(fs, inputPath, f).Ok? && Create(fs, CompressedPath(inputPath), f).result.Ok? && gzip.completed
    ensures e.result.Ok? ==> e.result.value == inputPath + ".gz"
    ensures e.result.Ok? ==> inputPath + ".gz" in e.fs.files && e.fs.files[inputPath + ".gz"] == gzip.written
    ensures e.fs.files - {inputPath + ".gz"} == fs.files - {inputPath + ".gz"}
    ensures fs.files.Keys <= e.fs.files.Keys
    ensures e.fs.dirs == fs.dirs
    ensures Valid(fs) ==> Valid(e.fs)
  {
    var out := CompressedPath(inputPath);
    match Open(fs, inputPath, f)
    case Err(err) => Effect(Err(err), fs)
    case Ok(_) =>
      var created := Create(fs, out, f);
      if created.result.Err? then Effect(Err(created.result.error), fs)
      else
        var written := FileSystem(created.fs.files[out := gzip.written], fs.dirs);
        if gzip.completed then Effect(Ok(out), written)
        else Effect(Err(Fault(CopyOp, out)), written)
  }

  /** `DecompressFile`: refuse any path whose extension is not exactly
      ".gz" before touching the file system; then open it, check the gzip
      header, create the path without ".gz" and stream the inflated bytes
      into it. */
  function DecompressFile(fs: FileSystem, f: Faults, gzipPath: Path, headerValid: bool, gunzip: Stream): (e: Effect<Path>)
    ensures FilePath.Ext(gzipPath) != ".gz" ==> e == Effect(Err(NotGzip), fs)
    ensures !Exists(fs, gzipPath) ==> e.result.Err? && e.fs == fs
    ensures !headerValid ==> e.result.Err? && e.fs == fs
    ensures e.result.Ok? <==>
              && FilePath.Ext(gzipPath) == ".gz"
              && Open(fs, gzipPath, f).Ok?
              && headerValid
              && Create(fs, DecompressedPath(gzipPath), f).result.Ok?
              && gunzip.completed
    ensures e.result.Ok? ==> e.result.value + ".gz" == gzipPath
    ensures e.result.Ok? ==> e.result.value in e.fs.files && e.fs.files[e.result.value] == gunzip.written
    ensures e.fs.files - {DecompressedPath(gzipPath)} == fs.files - {DecompressedPath(gzipPath)}
    ensures fs.files.Keys <= e.fs.files.Keys
    ensures e.fs.dirs == fs.dirs
    ensures Valid(fs) ==> Valid(e.fs)
  {
    if FilePath.Ext(gzipPath) != GzipExtension then Effect(Err(NotGzip), fs)
    else
      match Open(fs, gzipPath, f)
      case Err(err) => Effect(Err(err), fs)
      case Ok(_) =>
        if !headerValid then Effect(Err(CorruptArchive(gzipPath)), fs)
        else
          var out := DecompressedPath(gzipPath);
          FilePath.ExtGzIffSuffix(gzipPath);
          var created := Create(fs, out, f);
          if created.result.Err? then Effect(Err(created.result.error), fs)
          else
            var written := FileSystem(created.fs.files[out := gunzip.written], fs.dirs);
            if gunzip.completed then Effect(Ok(out), written)
            else Effect(Err(Fault(CopyOp, out)), written)
  }

  /** The two naming rules are inverse: decompressing the name of a
      compressed file gives back the original name, and compressing the
      name of a decompressed file gives back the ".gz" name. */
  lemma NameRoundTrip(p: Path, q: Path)
    ensures DecompressedPath(CompressedPath(p)) == p
    ensures Text.HasSuffix(q, ".gz") ==> CompressedPath(DecompressedPath(q)) == q
  {
    assert (p + ".gz")[..|p|] == p;
  }

  /** Only one trailing ".gz" is removed. */
  lemma DecompressedPathExamples()
    ensures DecompressedPath("a.tar.gz") == "a.tar"
    ensures DecompressedPath("db_backup.sql.gz.gz") == "db_backup.sql.gz"
    ensures DecompressedPath("db_backup.sql") == "db_backup.sql"
  {
    NameRoundTrip("a.tar", "");
    assert "a.tar.gz" == "a.tar" + ".gz";
    NameRoundTrip("db_backup.sql.gz", "");
    assert "db_backup.sql.gz.gz" == "db_backup.sql.gz" + ".gz";
    assert "db_backup.sql"[|"db_backup.sql"| - 3..] == ".sql"[1..];
  }

  /** Whatever `CompressFile` produces passes `DecompressFile`'s extension
      check, and decompressing it targets the original input path. */
  lemma CompressedOutputPassesCheck(fs: FileSystem, f: Faults, p: Path, gzip: Stream,
                                    fs2: FileSystem, f2: Faults, header: bool, gunzip: Stream)
    requires CompressFile(fs, f, p, gzip).result.Ok?
    ensures var out := CompressFile(fs, f, p, gzip).result.value;
            && DecompressFile(fs2, f2, out, header, gunzip).result != Err(NotGzip)
            && DecompressedPath(out) == p
  {
    FilePath.ExtOfGzName(p);
    NameRoundTrip(p, "");
  }

  /** The extension check is case-sensitive and reads the last element only:
      both of these are refused without touching the file system. */
  lemma DecompressRefusals(fs: FileSystem, f: Faults, header: bool, gunzip: Stream)
    ensures DecompressFile(fs, f, "backup.sql.GZ", header, gunzip) == Effect(Err(NotGzip), fs)
    ensures DecompressFile(fs, f, "archive.gz/backup", header, gunzip) == Effect(Err(NotGzip), fs)
  {
    FilePath.ExtExamples();
  }
}
