/** `SQLiteDatabase`: the embedded-file engine, whose database is the file
    at `config["path"]`. Backup and restore are byte copies on the file
    system; the connection test is a `stat`. */
module SQLite {
  import opened Outcomes
  import opened Os
  import FilePath

  const PathKey: string := "path"

  /** When `Backup` copies: the database file exists and opens, the
      output's parent directories can be made, the output can be created,
      and the copy runs to the end. */
  predicate BackupCopies(fs: FileSystem, f: Faults, config: Config, outputPath: Path)
    requires HasText(config, PathKey)
  {
    var made := MkdirAll(fs, FilePath.Dir(outputPath), f);
    && config[PathKey].text in fs.files && !f.open
    && made.result.Ok?
    && outputPath != "" && outputPath !in made.fs.dirs && !f.create
    && f.copyCut.None?
  }

  /** When `Restore` copies: the backup exists and opens, the database file
      can be created, and the copy runs to the end. */
  predicate RestoreCopies(fs: FileSystem, f: Faults, config: Config, backupPath: Path)
    requires HasText(config, PathKey)
  {
    var db := config[PathKey].text;
    && backupPath in fs.files && !f.open
    && db != "" && db !in fs.dirs && FilePath.Dir(db) in fs.dirs && !f.create
    && f.copyCut.None?
  }

  /** `Backup(config, outputPath)`: open the database file, create the
      output's parent directories, then copy the database to the output. */
  function Backup(fs: FileSystem, f: Faults, config: Config, outputPath: Path): (e: Effect<Path>)
    requires HasText(config, PathKey)
    ensures e.result.Ok? <==> BackupCopies(fs, f, config, outputPath)
    ensures var db := config[PathKey].text;
            !Exists(fs, db) ==> e == Effect(Err(NotExist(db)), fs)
    ensures e.result.Ok? ==> e.result.value == outputPath && outputPath in e.fs.files
    ensures var db := config[PathKey].text;
            e.result.Ok? ==>
              && db in fs.files
              && e.fs.files[outputPath] == if outputPath == db then [] else fs.files[db]
    ensures var parent := FilePath.Dir(outputPath);
            e.fs.files != fs.files ==> parent in e.fs.dirs
    ensures e.fs.files - {outputPath} == fs.files - {outputPath}
    ensures fs.files.Keys <= e.fs.files.Keys
    ensures var parent := FilePath.Dir(outputPath);
            fs.dirs <= e.fs.dirs <= fs.dirs + Ancestors(parent) + {parent}
    ensures Valid(fs) ==> Valid(e.fs)
  {
    var db := config[PathKey].text;
    match Open(fs, db, f)
    case Err(err) => Effect(Err(err), fs)
    case Ok(_) =>
      var made := MkdirAll(fs, FilePath.Dir(outputPath), f);
      if made.result.Err? then Effect(Err(made.result.error), fs)
      else
        var created := Create(made.fs, outputPath, f);
        if created.result.Err? then Effect(Err(created.result.error), made.fs)
        else
          var copied := CopyInto(created.fs, db, outputPath, f);
          if copied.result.Err? then Effect(Err(copied.result.error), copied.fs)
          else Effect(Ok(outputPath), copied.fs)
  }

  /** `Restore(config, backupPath)`: open the backup, then truncate the
      database file and copy the backup over it. */
  function Restore(fs: FileSystem, f: Faults, config: Config, backupPath: Path): (e: Effect<()>)
    requires HasText(config, PathKey)
    ensures e.result.Ok? <==> RestoreCopies(fs, f, config, backupPath)
    ensures !Exists(fs, backupPath) ==> e == Effect(Err(NotExist(backupPath)), fs)
    ensures var db := config[PathKey].text;
            e.result.Ok? ==>
              && backupPath in fs.files
              && db in e.fs.files
              && e.fs.files[db] == if backupPath == db then [] else fs.files[backupPath]
    ensures var db := config[PathKey].text;
            e.fs.files - {db} == fs.files - {db}
    ensures fs.files.Keys <= e.fs.files.Keys
    ensures e.fs.dirs == fs.dirs
    ensures Valid(fs) ==> Valid(e.fs)
  {
    var db := config[PathKey].text;
    match Open(fs, backupPath, f)
    case Err(err) => Effect(Err(err), fs)
    case Ok(_) =>
      var created := Create(fs, db, f);
      if created.result.Err? then Effect(Err(created.result.error), fs)
      else
        var copied := CopyInto(created.fs, backupPath, db, f);
        if copied.result.Err? then Effect(Err(copied.result.error), copied.fs)
        else Effect(Ok(()), copied.fs)
  }

  /** `TestConnection(config)`: fails exactly when the database path does
      not exist or cannot be examined. */
  function TestConnection(fs: FileSystem, f: Faults, config: Config): (r: Result<()>)
    requires HasText(config, PathKey)
    ensures r.Err? <==> !Exists(fs, config[PathKey].text) || f.stat
    ensures !Exists(fs, config[PathKey].text) ==> r == Err(NotExist(config[PathKey].text))
  {
    Stat(fs, config[PathKey].text, f)
  }

  /** Backing up to any other path leaves the database file as it was. */
  lemma BackupLeavesDatabase(fs: FileSystem, f: Faults, config: Config, outputPath: Path)
    requires HasText(config, PathKey) && config[PathKey].text != outputPath
    ensures var db := config[PathKey].text;
            var after := Backup(fs, f, config, outputPath).fs;
            (db in after.files <==> db in fs.files) &&
            (db in fs.files ==> after.files[db] == fs.files[db])
  {
    var db := config[PathKey].text;
    var after := Backup(fs, f, config, outputPath).fs;
    assert db in fs.files - {outputPath} <==> db in after.files - {outputPath};
    if db in fs.files {
      assert (fs.files - {outputPath})[db] == (after.files - {outputPath})[db];
    }
  }

  /** Backing up onto the database's own path truncates it before reading:
      the "successful" backup leaves an empty database. */
  lemma BackupOntoItselfEmptiesDatabase(fs: FileSystem, f: Faults, config: Config)
    requires HasText(config, PathKey)
    requires Backup(fs, f, config, config[PathKey].text).result.Ok?
    ensures Backup(fs, f, config, config[PathKey].text).fs.files[config[PathKey].text] == []
  {
  }

  /** A backup restored into an unchanged database gives back its bytes. */
  lemma BackupRestoreRoundTrip(fs: FileSystem, backupFaults: Faults, restoreFaults: Faults,
                               config: Config, outputPath: Path)
    requires HasText(config, PathKey) && config[PathKey].text != outputPath
    requires Backup(fs, backupFaults, config, outputPath).result.Ok?
    requires var fs1 := Backup(fs, backupFaults, config, outputPath).fs;
             Restore(fs1, restoreFaults, config, outputPath).result.Ok?
    ensures var db := config[PathKey].text;
            var fs1 := Backup(fs, backupFaults, config, outputPath).fs;
            db in fs.files && Restore(fs1, restoreFaults, config, outputPath).fs.files[db] == fs.files[db]
  {
  }
}
