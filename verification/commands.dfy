/** The `backup` and `restore` commands as step machines over the file
    system. Each command runs its steps in a fixed order, stops at the first
    failure, and reports which steps ran, how it ended, and the file system
    it left behind. The configuration is an input; what the external
    programs, the gzip stream and the object store do is an input too. */
module Commands {
  import opened Outcomes
  import opened Os
  import Text
  import FilePath
  import Compressor
  import SQLite
  import opened Adapters

  /** The settings the commands read: the `databases` section, the
      `storage.type` and `storage.bucket` strings, and the `storage`
      section, which holds the upload directory under `path`. */
  datatype Settings = Settings(databases: map<string, Config>, storageType: string, bucket: string, storage: Config)

  datatype Step =
    | LookupDatabase
    | ResolveStorage
    | ResolveDatabase
    | Dump
    | Compress
    | RemoveRaw
    | Upload
    | RemoveCompressed
    | Download
    | Decompress
    | Restore
    | RemoveDownloaded
    | RemoveDecompressed

  /** `Aborted(at, cause)`: the step `at` failed; the lookup of an unknown
      database reports no underlying error. */
  datatype Outcome = Completed(detail: string) | Aborted(at: Step, cause: Option<Error>)

  /** How a command ended, the file system it left, and the steps it ran. */
  datatype Report = Report(outcome: Outcome, fs: FileSystem, trace: seq<Step>)

  const BackupPlan: seq<Step> :=
    [LookupDatabase, ResolveStorage, ResolveDatabase, Dump, Compress, RemoveRaw, Upload, RemoveCompressed]

  /** The restore steps up to and including the download. */
  const UpToDownload: seq<Step> := [LookupDatabase, ResolveDatabase, ResolveStorage, Download]

  /** The restore steps after the download; decompression, and removing the
      decompressed file, only take place for a downloaded ".gz" file. */
  function StepsAfterDownload(decompress: bool): seq<Step>
  {
    (if decompress then [Decompress] else []) + [Restore, RemoveDownloaded] + (if decompress then [RemoveDecompressed] else [])
  }

  function RestorePlan(decompress: bool): seq<Step>
  {
    UpToDownload + StepsAfterDownload(decompress)
  }

  /** What the environment does during one backup. */
  datatype BackupEnv = BackupEnv(
    sdkReady: bool,          // the object-store client configuration loads
    dumpFaults: Faults,
    dump: Stream,            // what the dump program wrote, and its exit status
    compressFaults: Faults,
    gzip: Stream,            // the gzip stream's output, and whether it finished
    uploadFaults: Faults,
    put: bool)               // the object store accepts the upload

  /** What the environment does during one restore. */
  datatype RestoreEnv = RestoreEnv(
    sdkReady: bool,
    downloadFaults: Faults,
    get: Option<Stream>,     // the object store's response body, if any
    decompressFaults: Faults,
    headerValid: bool,       // the downloaded file starts with a gzip header
    gunzip: Stream,
    restoreFaults: Faults,
    restoreTool: bool)       // the restore program exits successfully

  /** The dump file of database `name`, in the working directory. */
  function RawDumpPath(name: string): Path
  {
    name + "_backup.sql"
  }

  /** The dump file is the database name followed by "_backup.sql", so it
      is never taken for a ".gz" file. */
  lemma RawDumpNaming(name: string)
    ensures |name| < |RawDumpPath(name)| && RawDumpPath(name)[..|name|] == name
    ensures Text.HasSuffix(RawDumpPath(name), "_backup.sql")
    ensures !Text.HasSuffix(RawDumpPath(name), Compressor.GzipExtension)
  {
    var p := RawDumpPath(name);
    assert p[|p| - 1] == 'l';
  }

  function CompressedDumpPath(name: string): Path
  {
    Compressor.CompressedPath(RawDumpPath(name))
  }

  /** Where the backup is uploaded: the compressed file's base name under
      the storage path. */
  function UploadTarget(storagePath: string, name: string): Path
  {
    FilePath.Join(storagePath, FilePath.Base(CompressedDumpPath(name)))
  }

  /** Where restore downloads to: the backup's base name under the
      temporary directory. */
  function DownloadTarget(tempDir: string, backupFile: string): Path
  {
    FilePath.Join(tempDir, FilePath.Base(backupFile))
  }

  /** The file the restore adapter reads: the decompressed name for a ".gz"
      download, the download itself otherwise. */
  function RestoreInput(local: Path): Path
  {
    if Text.HasSuffix(local, Compressor.GzipExtension) then Compressor.DecompressedPath(local) else local
  }

  function DatabaseType(settings: Settings, name: string): string
    requires name in settings.databases && HasText(settings.databases[name], "type")
  {
    settings.databases[name]["type"].text
  }

  /** The type assertions `backup` makes on the configuration: the
      database's `type` before anything else, then, once both adapters
      resolve, the settings its adapter reads and the storage `path`. */
  predicate BackupConfigured(settings: Settings, name: string, sdkReady: bool)
  {
    name in settings.databases ==>
      && HasText(settings.databases[name], "type")
      && var kind := GetDatabaseAdapter(DatabaseType(settings, name));
         GetStorageAdapter(settings.storageType, settings.bucket, sdkReady).Ok? && kind.Ok? ==>
           WellTyped(kind.value, settings.databases[name]) && HasText(settings.storage, "path")
  }

  /** The type assertions `restore` makes: the database's `type` before
      anything else, then, once both adapters resolve, the settings its
      adapter reads. */
  predicate RestoreConfigured(settings: Settings, name: string, sdkReady: bool)
  {
    name in settings.databases ==>
      && HasText(settings.databases[name], "type")
      && var kind := GetDatabaseAdapter(DatabaseType(settings, name));
         kind.Ok? && GetStorageAdapter(settings.storageType, settings.bucket, sdkReady).Ok? ==>
           WellTyped(kind.value, settings.databases[name])
  }

  /** The base name of the compressed dump is a plain file name ending in
      "_backup.sql.gz". */
  lemma CompressedDumpBase(name: string)
    ensures FilePath.Base(CompressedDumpPath(name)) == FilePath.LastElement(name) + "_backup.sql.gz"
    ensures FilePath.IsPlainName(FilePath.Base(CompressedDumpPath(name)))
    ensures Text.HasSuffix(FilePath.Base(CompressedDumpPath(name)), "_backup.sql.gz")
  {
    var suffix := "_backup.sql.gz";
    assert CompressedDumpPath(name) == name + suffix;
    assert FilePath.Separator !in suffix;
    FilePath.BaseOfSuffix(name, suffix);
  }

  /** The stored object's name ends in the compressed dump's name, so it is
      never the raw dump; for a database name without separators the base
      name is exactly `<name>_backup.sql.gz`. */
  lemma UploadTargetNaming(storagePath: string, name: string)
    ensures FilePath.Base(UploadTarget(storagePath, name)) == FilePath.LastElement(name) + "_backup.sql.gz"
    ensures Text.HasSuffix(UploadTarget(storagePath, name), Compressor.GzipExtension)
    ensures UploadTarget(storagePath, name) != RawDumpPath(name) && UploadTarget(storagePath, name) != ""
    ensures FilePath.Separator !in name ==> FilePath.Base(UploadTarget(storagePath, name)) == CompressedDumpPath(name)
  {
    var base := FilePath.Base(CompressedDumpPath(name));
    CompressedDumpBase(name);
    JoinKeepsGzName(storagePath, base);
    var target := UploadTarget(storagePath, name);
    var raw := RawDumpPath(name);
    assert target[|target| - 1] == 'z';
    assert raw[|raw| - 1] == 'l';
    if FilePath.Separator !in name {
      PlainDatabaseName(name);
    }
  }

  lemma PlainDatabaseName(name: string)
    requires FilePath.Separator !in name
    ensures FilePath.LastElement(name) + "_backup.sql.gz" == CompressedDumpPath(name)
  {
    FilePath.LastElementOfSuffix("", name);
    assert "" + name == name;
    assert FilePath.LastElement("") == "";
  }

  lemma JoinKeepsGzName(dir: string, base: string)
    requires FilePath.IsPlainName(base) && Text.HasSuffix(base, "_backup.sql.gz")
    ensures FilePath.Base(FilePath.Join(dir, base)) == base
    ensures Text.HasSuffix(FilePath.Join(dir, base), Compressor.GzipExtension)
  {
    FilePath.BaseOfJoin(dir, base);
    Text.SuffixOfSuffix(base, "_backup.sql.gz", Compressor.GzipExtension);
    Text.SuffixOfSuffix(FilePath.Join(dir, base), base, Compressor.GzipExtension);
  }

  /** The last steps of a backup: remove the raw dump, upload the
      compressed file to `target`, remove the compressed file. */
  function ShipBackup(storage: Storage, fs: FileSystem, raw: Path, gz: Path, target: Path, env: BackupEnv): (r: Report)
    requires gz in fs.files && raw != gz && target != raw && target != ""
    ensures var uploaded := StorageUpload(storage, Remove(fs, raw), env.uploadFaults, gz, target, env.put);
            && (uploaded.result.Err? ==> r.outcome == Aborted(Upload, Some(uploaded.result.error)) && r.fs == uploaded.fs)
            && (uploaded.result.Ok? ==> r.outcome == Completed(uploaded.result.value) && r.fs == Remove(uploaded.fs, gz))
    ensures r.trace == BackupPlan[..7] || r.trace == BackupPlan
    ensures r.outcome.Completed? <==> r.trace == BackupPlan
    ensures r.outcome.Aborted? ==> r.outcome.at == Upload && r.outcome.cause.Some?
    ensures r.outcome.Aborted? ==> gz in r.fs.files
    ensures raw !in r.fs.files
    ensures r.outcome.Completed? ==> gz !in r.fs.files
    ensures r.outcome.Completed? ==>
              || (storage.Local? && r.outcome.detail == target)
              || (storage.S3? && r.outcome.detail == ObjectAddress(storage.bucket, target))
              || (storage.Local? && r.outcome.detail == "" && r.fs.files == fs.files - {raw, gz})
    ensures r.outcome == Completed(target) && storage.Local? && target != gz ==>
              target in r.fs.files && r.fs.files[target] == fs.files[gz]
    ensures Valid(fs) ==> Valid(r.fs)
  {
    var cleaned := Remove(fs, raw);
    assert gz in cleaned.files && raw !in cleaned.files;
    var uploaded := StorageUpload(storage, cleaned, env.uploadFaults, gz, target, env.put);
    assert raw !in uploaded.fs.files && gz in uploaded.fs.files;
    if uploaded.result.Err? then Report(Aborted(Upload, Some(uploaded.result.error)), uploaded.fs, BackupPlan[..7])
    else
      var final := Remove(uploaded.fs, gz);
      assert uploaded.result.value == "" ==> final.files == fs.files - {raw, gz} by {
        if uploaded.result.value == "" {
          assert uploaded.fs == cleaned;
          assert cleaned.files - {gz} == fs.files - {raw, gz};
        }
      }
      Report(Completed(uploaded.result.value), final, BackupPlan)
  }

  /** Compress the dump, then ship the compressed file. */
  function CompressAndShip(storage: Storage, fs: FileSystem, raw: Path, target: Path, env: BackupEnv): (r: Report)
    requires raw in fs.files && target != raw && target != ""
    ensures var compressed := Compressor.CompressFile(fs, env.compressFaults, raw, env.gzip);
            var uploaded := StorageUpload(storage, Remove(compressed.fs, raw), env.uploadFaults, raw + ".gz", target, env.put);
            && (compressed.result.Err? ==> r.outcome == Aborted(Compress, Some(compressed.result.error)) && r.fs == compressed.fs)
            && (compressed.result.Ok? && uploaded.result.Err? ==>
                  r.outcome == Aborted(Upload, Some(uploaded.result.error)) && r.fs == uploaded.fs)
            && (compressed.result.Ok? && uploaded.result.Ok? ==>
                  r.outcome == Completed(uploaded.result.value) && r.fs == Remove(uploaded.fs, raw + ".gz"))
    ensures r.trace == BackupPlan[..5] || r.trace == BackupPlan[..7] || r.trace == BackupPlan
    ensures r.outcome.Completed? <==> r.trace == BackupPlan
    ensures r.outcome.Aborted? ==> r.outcome.at == r.trace[|r.trace| - 1] && r.outcome.cause.Some?
    ensures r.outcome.Aborted? && r.outcome.at == Compress ==> raw in r.fs.files
    ensures r.outcome.Aborted? && r.outcome.at == Upload ==> raw + ".gz" in r.fs.files && raw !in r.fs.files
    ensures r.outcome.Completed? ==> raw !in r.fs.files && raw + ".gz" !in r.fs.files
    ensures r.outcome.Completed? ==>
              || (storage.Local? && r.outcome.detail == target)
              || (storage.S3? && r.outcome.detail == ObjectAddress(storage.bucket, target))
              || (storage.Local? && r.outcome.detail == "" && r.fs.files == fs.files - {raw, raw + ".gz"})
    ensures r.outcome == Completed(target) && storage.Local? && target != raw + ".gz" ==>
              target in r.fs.files && r.fs.files[target] == env.gzip.written
    ensures Valid(fs) ==> Valid(r.fs)
  {
    var compressed := Compressor.CompressFile(fs, env.compressFaults, raw, env.gzip);
    if compressed.result.Err? then Report(Aborted(Compress, Some(compressed.result.error)), compressed.fs, BackupPlan[..5])
    else
      assert compressed.fs.files - {raw + ".gz"} == fs.files - {raw + ".gz"};
      ShipBackup(storage, compressed.fs, raw, compressed.result.value, target, env)
  }

  /** The steps after both adapters are resolved: dump, compress, remove the
      raw dump, upload, remove the compressed file. */
  function RunBackup(database: Database, storage: Storage, config: Config, storagePath: string,
                     fs: FileSystem, name: string, env: BackupEnv): (r: Report)
    requires WellTyped(database, config)
    ensures 4 <= |r.trace| <= |BackupPlan| && r.trace == BackupPlan[..|r.trace|]
    ensures r.outcome.Completed? <==> r.trace == BackupPlan
    ensures r.outcome.Aborted? ==> r.outcome.at == r.trace[|r.trace| - 1] && r.outcome.cause.Some?
    ensures Valid(fs) ==> Valid(r.fs)
  {
    var raw := RawDumpPath(name);
    var dumped := DatabaseBackup(database, fs, env.dumpFaults, config, raw, env.dump);
    if dumped.result.Err? then Report(Aborted(Dump, Some(dumped.result.error)), dumped.fs, BackupPlan[..4])
    else
      var path := dumped.result.value;
      assert path == raw;
      var target := UploadTarget(storagePath, name);
      assert target != raw && target != "" by { UploadTargetNaming(storagePath, name); }
      var r := CompressAndShip(storage, dumped.fs, path, target, env);
      ShippedTrace(r.trace);
      r
  }

  /** The traces a backup can end with after the dump are prefixes of the
      plan that go past the dump. */
  lemma ShippedTrace(t: seq<Step>)
    requires t == BackupPlan[..5] || t == BackupPlan[..7] || t == BackupPlan
    ensures 5 <= |t| <= |BackupPlan| && t == BackupPlan[..|t|]
  {
  }

  /** The first of dump, compression and upload to fail aborts the backup
      at that step with its error; when all three succeed, the backup
      completes with the upload's answer. */
  lemma RunBackupOutcome(database: Database, storage: Storage, config: Config, storagePath: string,
                         fs: FileSystem, name: string, env: BackupEnv)
    requires WellTyped(database, config)
    ensures var r := RunBackup(database, storage, config, storagePath, fs, name, env);
            var raw := RawDumpPath(name);
            var dumped := DatabaseBackup(database, fs, env.dumpFaults, config, raw, env.dump);
            var compressed := Compressor.CompressFile(dumped.fs, env.compressFaults, raw, env.gzip);
            var uploaded := StorageUpload(storage, Remove(compressed.fs, raw), env.uploadFaults, CompressedDumpPath(name),
                                          UploadTarget(storagePath, name), env.put);
            && (dumped.result.Err? ==> r.outcome == Aborted(Dump, Some(dumped.result.error)) && r.fs == dumped.fs)
            && (dumped.result.Ok? && compressed.result.Err? ==>
                  r.outcome == Aborted(Compress, Some(compressed.result.error)) && r.fs == compressed.fs)
            && (dumped.result.Ok? && compressed.result.Ok? && uploaded.result.Err? ==>
                  r.outcome == Aborted(Upload, Some(uploaded.result.error)) && r.fs == uploaded.fs)
            && (dumped.result.Ok? && compressed.result.Ok? && uploaded.result.Ok? ==>
                  r.outcome == Completed(uploaded.result.value) && r.fs == Remove(uploaded.fs, CompressedDumpPath(name)))
  {
    var raw := RawDumpPath(name);
    var dumped := DatabaseBackup(database, fs, env.dumpFaults, config, raw, env.dump);
    if dumped.result.Ok? {
      var target := UploadTarget(storagePath, name);
      assert target != raw && target != "" by { UploadTargetNaming(storagePath, name); }
      assert RunBackup(database, storage, config, storagePath, fs, name, env) ==
             CompressAndShip(storage, dumped.fs, raw, target, env);
    }
  }

  /** What each way of ending leaves behind: a failed dump changes
      nothing but the dump file, a failed compression keeps the dump, a
      failed upload keeps only the compressed file, and a completed backup
      removes both; a completed backup reports the upload target, its
      object address, or nothing when the local copy was refused. */
  lemma RunBackupLeftovers(database: Database, storage: Storage, config: Config, storagePath: string,
                           fs: FileSystem, name: string, env: BackupEnv)
    requires WellTyped(database, config)
    ensures var r := RunBackup(database, storage, config, storagePath, fs, name, env);
            var raw := RawDumpPath(name);
            && (r.outcome.Aborted? && r.outcome.at == Dump ==> r.fs.files - {raw} == fs.files - {raw})
            && (r.outcome.Aborted? && r.outcome.at == Compress ==> raw in r.fs.files)
            && (r.outcome.Aborted? && r.outcome.at == Upload ==>
                  CompressedDumpPath(name) in r.fs.files && raw !in r.fs.files)
            && (r.outcome.Completed? ==> raw !in r.fs.files && CompressedDumpPath(name) !in r.fs.files)
    ensures var r := RunBackup(database, storage, config, storagePath, fs, name, env);
            var target := UploadTarget(storagePath, name);
            r.outcome.Completed? ==>
              || (storage.Local? && r.outcome.detail == target)
              || (storage.S3? && r.outcome.detail == ObjectAddress(storage.bucket, target))
              || (storage.Local? && r.outcome.detail == ""
                  && r.fs.files == fs.files - {RawDumpPath(name), CompressedDumpPath(name)})
    ensures var r := RunBackup(database, storage, config, storagePath, fs, name, env);
            var target := UploadTarget(storagePath, name);
            r.outcome == Completed(target) && storage.Local? && target != CompressedDumpPath(name) ==>
              target in r.fs.files && r.fs.files[target] == env.gzip.written
  {
    var raw := RawDumpPath(name);
    var dumped := DatabaseBackup(database, fs, env.dumpFaults, config, raw, env.dump);
    if dumped.result.Ok? {
      var target := UploadTarget(storagePath, name);
      assert target != raw && target != "" by { UploadTargetNaming(storagePath, name); }
      AgreeOutside(dumped.fs.files, fs.files, raw, {raw, raw + ".gz"});
      assert RunBackup(database, storage, config, storagePath, fs, name, env) ==
             CompressAndShip(storage, dumped.fs, raw, target, env);
    }
  }

  /** A backup changes no file but the two dump files and the upload
      target. */
  lemma RunBackupFrame(database: Database, storage: Storage, config: Config, storagePath: string,
                       fs: FileSystem, name: string, env: BackupEnv)
    requires WellTyped(database, config)
    ensures var r := RunBackup(database, storage, config, storagePath, fs, name, env);
            var touched := {RawDumpPath(name), CompressedDumpPath(name), UploadTarget(storagePath, name)};
            r.fs.files - touched == fs.files - touched
  {
    RunBackupOutcome(database, storage, config, storagePath, fs, name, env);
    var raw := RawDumpPath(name);
    var gz := CompressedDumpPath(name);
    var target := UploadTarget(storagePath, name);
    var touched := {raw, gz, target};
    var dumped := DatabaseBackup(database, fs, env.dumpFaults, config, raw, env.dump);
    AgreeOutside(dumped.fs.files, fs.files, raw, touched);
    if dumped.result.Ok? {
      var compressed := Compressor.CompressFile(dumped.fs, env.compressFaults, raw, env.gzip);
      AgreeOutside(compressed.fs.files, dumped.fs.files, gz, touched);
      if compressed.result.Ok? {
        var cleaned := Remove(compressed.fs, raw);
        RemoveOutside(compressed.fs, raw);
        AgreeOutside(cleaned.files, compressed.fs.files, raw, touched);
        var uploaded := StorageUpload(storage, cleaned, env.uploadFaults, gz, target, env.put);
        AgreeOutside(uploaded.fs.files, cleaned.files, target, touched);
        if uploaded.result.Ok? {
          RemoveOutside(uploaded.fs, gz);
          AgreeOutside(Remove(uploaded.fs, gz).files, uploaded.fs.files, gz, touched);
        }
      }
    }
  }

  /** `backupCmd`: look the database up, resolve the storage adapter, then
      the database adapter, then run the pipeline. */
  function BackupCommand(settings: Settings, fs: FileSystem, name: string, env: BackupEnv): (r: Report)
    requires BackupConfigured(settings, name, env.sdkReady)
    ensures 1 <= |r.trace| <= |BackupPlan| && r.trace == BackupPlan[..|r.trace|]
    ensures r.outcome.Completed? <==> r.trace == BackupPlan
    ensures r.outcome.Aborted? ==> r.outcome.at == r.trace[|r.trace| - 1]
    ensures name !in settings.databases ==> r == Report(Aborted(LookupDatabase, None), fs, [LookupDatabase])
    ensures Dump in r.trace <==>
              && name in settings.databases
              && GetStorageAdapter(settings.storageType, settings.bucket, env.sdkReady).Ok?
              && GetDatabaseAdapter(DatabaseType(settings, name)).Ok?
    ensures |r.trace| <= 3 ==> r.fs == fs
    ensures Valid(fs) ==> Valid(r.fs)
  {
    if name !in settings.databases then
      BackupLookupPrefixes();
      Report(Aborted(LookupDatabase, None), fs, BackupPlan[..1])
    else
      var config := settings.databases[name];
      var storage := GetStorageAdapter(settings.storageType, settings.bucket, env.sdkReady);
      if storage.Err? then
        BackupLookupPrefixes();
        Report(Aborted(ResolveStorage, Some(storage.error)), fs, BackupPlan[..2])
      else
        var database := GetDatabaseAdapter(DatabaseType(settings, name));
        if database.Err? then
          BackupLookupPrefixes();
          Report(Aborted(ResolveDatabase, Some(database.error)), fs, BackupPlan[..3])
        else
          var r := RunBackup(database.value, storage.value, config, settings.storage["path"].text, fs, name, env);
          BackupStepsReached(|r.trace|);
          r
  }

  /** The first lookup that fails aborts the backup with its error; once
      both adapters resolve, the command is the dump-compress-upload run
      on them. */
  lemma BackupCommandOutcome(settings: Settings, fs: FileSystem, name: string, env: BackupEnv)
    requires BackupConfigured(settings, name, env.sdkReady)
    ensures var r := BackupCommand(settings, fs, name, env);
            name in settings.databases ==>
              var storage := GetStorageAdapter(settings.storageType, settings.bucket, env.sdkReady);
              var database := GetDatabaseAdapter(DatabaseType(settings, name));
              && (storage.Err? ==> r.outcome == Aborted(ResolveStorage, Some(storage.error)))
              && (storage.Ok? && database.Err? ==> r.outcome == Aborted(ResolveDatabase, Some(database.error)))
              && (storage.Ok? && database.Ok? ==>
                    r == RunBackup(database.value, storage.value, settings.databases[name],
                                   settings.storage["path"].text, fs, name, env))
  {
  }

  /** A run reaches the dump exactly when its trace has more than the three
      lookup steps. */
  lemma BackupStepsReached(k: nat)
    requires k <= |BackupPlan|
    ensures Dump in BackupPlan[..k] <==> k >= 4
  {
    if k >= 4 {
      assert BackupPlan[..k][3] == Dump;
    }
  }

  /** The backup traces that stop before the dump. */
  lemma BackupLookupPrefixes()
    ensures BackupPlan[..1] == [LookupDatabase]
    ensures BackupPlan[..2] == [LookupDatabase, ResolveStorage]
    ensures BackupPlan[..3] == [LookupDatabase, ResolveStorage, ResolveDatabase]
  {
  }

  /** The restore traces that stop before the download, whichever way the
      download would be handled. */
  lemma RestoreLookupPrefixes()
    ensures forall d: bool :: RestorePlan(d)[..1] == [LookupDatabase]
    ensures forall d: bool :: RestorePlan(d)[..2] == [LookupDatabase, ResolveDatabase]
    ensures forall d: bool :: RestorePlan(d)[..3] == [LookupDatabase, ResolveDatabase, ResolveStorage]
  {
  }

  /** Restore from `restorePath`, then remove the download and, when it is
      a different file, the decompressed one. */
  function RestoreAndClean(database: Database, config: Config, fs: FileSystem, local: Path, restorePath: Path,
                           decompressed: bool, env: RestoreEnv): (r: Report)
    requires WellTyped(database, config)
    requires decompressed <==> restorePath != local
    ensures var restored := DatabaseRestore(database, fs, env.restoreFaults, config, restorePath, env.restoreTool);
            && (restored.result.Err? ==> r.outcome == Aborted(Restore, Some(restored.result.error)) && r.fs == restored.fs)
            && (restored.result.Ok? ==>
                  && r.outcome == Completed(restorePath)
                  && r.fs == Remove(Remove(restored.fs, local), restorePath))
    ensures r.outcome.Completed? ==> r.trace == StepsAfterDownload(decompressed)
    ensures r.outcome.Aborted? ==>
              && r.trace == (if decompressed then [Decompress] else []) + [Restore]
              && r.outcome.at == Restore && r.outcome.cause.Some?
    ensures r.outcome.Aborted? ==> fs.files.Keys <= r.fs.files.Keys
    ensures r.outcome.Completed? ==>
              r.outcome.detail == restorePath && local !in r.fs.files && restorePath !in r.fs.files
    ensures Valid(fs) ==> Valid(r.fs)
  {
    var before := if decompressed then [Decompress] else [];
    var restored := DatabaseRestore(database, fs, env.restoreFaults, config, restorePath, env.restoreTool);
    if restored.result.Err? then Report(Aborted(Restore, Some(restored.result.error)), restored.fs, before + [Restore])
    else
      var withoutDownload := Remove(restored.fs, local);
      if restorePath != local then
        Report(Completed(restorePath), Remove(withoutDownload, restorePath), before + [Restore, RemoveDownloaded, RemoveDecompressed])
      else Report(Completed(restorePath), withoutDownload, before + [Restore, RemoveDownloaded])
  }

  /** Decompress the download when its name ends in ".gz", restore from the
      result, then clean up. */
  function RestoreFromDownload(database: Database, config: Config, fs: FileSystem, local: Path, env: RestoreEnv): (r: Report)
    requires WellTyped(database, config)
    ensures var plan := StepsAfterDownload(Text.HasSuffix(local, Compressor.GzipExtension));
            && 1 <= |r.trace| <= |plan| && r.trace == plan[..|r.trace|]
            && (r.outcome.Completed? <==> r.trace == plan)
    ensures r.outcome.Aborted? ==> r.outcome.at == r.trace[|r.trace| - 1] && r.outcome.cause.Some?
    ensures Text.HasSuffix(local, Compressor.GzipExtension) <==> Decompress in r.trace
    ensures r.outcome != Aborted(Decompress, Some(NotGzip))
    ensures r.outcome.Aborted? ==> fs.files.Keys <= r.fs.files.Keys
    ensures r.outcome.Aborted? && r.outcome.at == Restore && Text.HasSuffix(local, Compressor.GzipExtension) ==>
              RestoreInput(local) in r.fs.files
    ensures r.outcome.Completed? ==>
              r.outcome.detail == RestoreInput(local) && local !in r.fs.files && RestoreInput(local) !in r.fs.files
    ensures Valid(fs) ==> Valid(r.fs)
  {
    if Text.HasSuffix(local, Compressor.GzipExtension) then DecompressAndRestore(database, config, fs, local, env)
    else RestorePlainDownload(database, config, fs, local, env)
  }

  /** The branch for any other name: restore from the download itself,
      then remove it. */
  function RestorePlainDownload(database: Database, config: Config, fs: FileSystem, local: Path, env: RestoreEnv): (r: Report)
    requires WellTyped(database, config) && !Text.HasSuffix(local, Compressor.GzipExtension)
    ensures var plan := StepsAfterDownload(false);
            && 1 <= |r.trace| <= |plan| && r.trace == plan[..|r.trace|]
            && (r.outcome.Completed? <==> r.trace == plan)
    ensures r.outcome.Aborted? ==> r.outcome.at == r.trace[|r.trace| - 1] && r.outcome.cause.Some?
    ensures Decompress !in r.trace
    ensures r.outcome.Aborted? ==> r.outcome.at == Restore && fs.files.Keys <= r.fs.files.Keys
    ensures r.outcome.Completed? ==>
              r.outcome.detail == RestoreInput(local) && local !in r.fs.files && RestoreInput(local) !in r.fs.files
    ensures Valid(fs) ==> Valid(r.fs)
  {
    var r := RestoreAndClean(database, config, fs, local, local, false, env);
    AfterDownloadPrefixes();
    r
  }

  /** After the download, the first of decompression (for a ".gz" name)
      and restore to fail aborts the command with its error; when both
      succeed, or only the restore runs and succeeds, the restore input is
      reported. */
  lemma RestoreFromDownloadOutcome(database: Database, config: Config, fs: FileSystem, local: Path, env: RestoreEnv)
    requires WellTyped(database, config)
    ensures var r := RestoreFromDownload(database, config, fs, local, env);
            var gz := Text.HasSuffix(local, Compressor.GzipExtension);
            var decompressed := Compressor.DecompressFile(fs, env.decompressFaults, local, env.headerValid, env.gunzip);
            var restored := DatabaseRestore(database, if gz then decompressed.fs else fs, env.restoreFaults, config,
                                            RestoreInput(local), env.restoreTool);
            && (gz && decompressed.result.Err? ==>
                  r.outcome == Aborted(Decompress, Some(decompressed.result.error)) && r.fs == decompressed.fs)
            && ((!gz || decompressed.result.Ok?) && restored.result.Err? ==>
                  r.outcome == Aborted(Restore, Some(restored.result.error)) && r.fs == restored.fs)
            && ((!gz || decompressed.result.Ok?) && restored.result.Ok? ==>
                  && r.outcome == Completed(RestoreInput(local))
                  && r.fs == Remove(Remove(restored.fs, local), RestoreInput(local)))
  {
    if Text.HasSuffix(local, Compressor.GzipExtension) {
      assert RestoreFromDownload(database, config, fs, local, env) == DecompressAndRestore(database, config, fs, local, env);
    } else {
      assert RestoreFromDownload(database, config, fs, local, env) == RestorePlainDownload(database, config, fs, local, env);
      assert RestorePlainDownload(database, config, fs, local, env) == RestoreAndClean(database, config, fs, local, local, false, env);
    }
  }

  /** The ".gz" branch: decompress the download, restore from the
      decompressed file, then remove both. */
  function DecompressAndRestore(database: Database, config: Config, fs: FileSystem, local: Path, env: RestoreEnv): (r: Report)
    requires WellTyped(database, config) && Text.HasSuffix(local, Compressor.GzipExtension)
    ensures var plan := StepsAfterDownload(true);
            && 1 <= |r.trace| <= |plan| && r.trace == plan[..|r.trace|]
            && (r.outcome.Completed? <==> r.trace == plan)
    ensures r.outcome.Aborted? ==> r.outcome.at == r.trace[|r.trace| - 1] && r.outcome.cause.Some?
    ensures r.trace[0] == Decompress
    ensures r.outcome != Aborted(Decompress, Some(NotGzip))
    ensures r.outcome.Aborted? ==> fs.files.Keys <= r.fs.files.Keys
    ensures r.outcome.Aborted? && r.outcome.at == Restore ==> RestoreInput(local) in r.fs.files
    ensures r.outcome.Completed? ==>
              r.outcome.detail == RestoreInput(local) && local !in r.fs.files && RestoreInput(local) !in r.fs.files
    ensures Valid(fs) ==> Valid(r.fs)
  {
    var decompressed := DecompressDownload(fs, local, env);
    if decompressed.result.Err? then
      AfterDownloadPrefixes();
      Report(Aborted(Decompress, Some(decompressed.result.error)), decompressed.fs, [Decompress])
    else
      var r := RestoreAndClean(database, config, decompressed.fs, local, decompressed.result.value, true, env);
      AfterDownloadPrefixes();
      r
  }

  /** `DecompressFile` on a downloaded ".gz" file: never refused for its
      extension, and on success the decompressed file is the restore input,
      a file other than the download. */
  function DecompressDownload(fs: FileSystem, local: Path, env: RestoreEnv): (e: Effect<Path>)
    requires Text.HasSuffix(local, Compressor.GzipExtension)
    ensures e.result != Err(NotGzip)
    ensures e.result.Ok? ==> e.result.value == RestoreInput(local) && e.result.value != local && e.result.value in e.fs.files
    ensures fs.files.Keys <= e.fs.files.Keys
    ensures Valid(fs) ==> Valid(e.fs)
  {
    FilePath.ExtGzIffSuffix(local);
    var decompressed := Compressor.DecompressFile(fs, env.decompressFaults, local, env.headerValid, env.gunzip);
    if decompressed.result.Ok? then
      Compressor.NameRoundTrip(decompressed.result.value, local);
      decompressed
    else decompressed
  }

  /** The short prefixes of the steps after the download. */
  lemma AfterDownloadPrefixes()
    ensures StepsAfterDownload(true) == [Decompress, Restore, RemoveDownloaded, RemoveDecompressed]
    ensures StepsAfterDownload(true)[..1] == [Decompress] && StepsAfterDownload(true)[..2] == [Decompress, Restore]
    ensures StepsAfterDownload(false) == [Restore, RemoveDownloaded] && StepsAfterDownload(false)[..1] == [Restore]
  {
  }

  /** Steps after the download, preceded by the steps up to it, follow the
      restore plan. */
  lemma PrependDownload(decompress: bool, rest: Report)
    requires var after := StepsAfterDownload(decompress);
             && 1 <= |rest.trace| <= |after| && rest.trace == after[..|rest.trace|]
             && (rest.outcome.Completed? <==> rest.trace == after)
    requires rest.outcome.Aborted? ==> rest.outcome.at == rest.trace[|rest.trace| - 1] && rest.outcome.cause.Some?
    ensures var r := Report(rest.outcome, rest.fs, UpToDownload + rest.trace);
            var plan := RestorePlan(decompress);
            && 4 <= |r.trace| <= |plan| && r.trace == plan[..|r.trace|]
            && (r.outcome.Completed? <==> r.trace == plan)
            && (Decompress in r.trace <==> Decompress in rest.trace)
            && (r.outcome.Aborted? ==> r.outcome.at == r.trace[|r.trace| - 1] && r.outcome.cause.Some?)
  {
    var full := UpToDownload + rest.trace;
    assert Decompress !in UpToDownload;
    assert full[|full| - 1] == rest.trace[|rest.trace| - 1];
    if full == RestorePlan(decompress) {
      assert rest.trace == full[4..];
    }
  }

  /** The steps after both adapters are resolved: download the backup to
      the temporary directory, then restore from it. */
  function RunRestore(database: Database, storage: Storage, config: Config, fs: FileSystem,
                      backupFile: string, tempDir: string, env: RestoreEnv): (r: Report)
    requires WellTyped(database, config)
    ensures var downloaded := StorageDownload(storage, fs, env.downloadFaults, backupFile,
                                              DownloadTarget(tempDir, backupFile), env.get);
            var decompress := downloaded.result.Ok? && Text.HasSuffix(downloaded.result.value, Compressor.GzipExtension);
            var plan := RestorePlan(decompress);
            && 4 <= |r.trace| <= |plan| && r.trace == plan[..|r.trace|]
            && (r.outcome.Completed? <==> r.trace == plan)
            && (Decompress in r.trace <==> decompress)
    ensures Download in r.trace
    ensures r.outcome.Aborted? ==> r.outcome.at == r.trace[|r.trace| - 1] && r.outcome.cause.Some?
    ensures r.outcome != Aborted(Decompress, Some(NotGzip))
  {
    var tempPath := DownloadTarget(tempDir, backupFile);
    var downloaded := StorageDownload(storage, fs, env.downloadFaults, backupFile, tempPath, env.get);
    if downloaded.result.Err? then
      assert UpToDownload[|UpToDownload| - 1] == Download;
      Report(Aborted(Download, Some(downloaded.result.error)), downloaded.fs, UpToDownload)
    else
      RestoreDownloaded(database, config, downloaded.fs, downloaded.result.value, env)
  }

  /** The report of a restore whose download succeeded: the steps up to
      the download, then those after it. */
  function RestoreDownloaded(database: Database, config: Config, fs: FileSystem, local: Path, env: RestoreEnv): (r: Report)
    requires WellTyped(database, config)
    ensures var decompress := Text.HasSuffix(local, Compressor.GzipExtension);
            var plan := RestorePlan(decompress);
            && 4 <= |r.trace| <= |plan| && r.trace == plan[..|r.trace|]
            && (r.outcome.Completed? <==> r.trace == plan)
            && (Decompress in r.trace <==> decompress)
    ensures r.outcome.Aborted? ==> r.outcome.at == r.trace[|r.trace| - 1] && r.outcome.cause.Some?
    ensures r.outcome != Aborted(Decompress, Some(NotGzip))
  {
    var rest := RestoreFromDownload(database, config, fs, local, env);
    PrependDownload(Text.HasSuffix(local, Compressor.GzipExtension), rest);
    Report(rest.outcome, rest.fs, UpToDownload + rest.trace)
  }

  /** A restore keeps the file system well formed. */
  lemma RunRestoreKeepsValid(database: Database, storage: Storage, config: Config, fs: FileSystem,
                             backupFile: string, tempDir: string, env: RestoreEnv)
    requires WellTyped(database, config)
    ensures Valid(fs) ==> Valid(RunRestore(database, storage, config, fs, backupFile, tempDir, env).fs)
  {
    var downloaded := StorageDownload(storage, fs, env.downloadFaults, backupFile, DownloadTarget(tempDir, backupFile), env.get);
    if downloaded.result.Ok? {
      var rest := RestoreFromDownload(database, config, downloaded.fs, downloaded.result.value, env);
      assert RunRestore(database, storage, config, fs, backupFile, tempDir, env).fs == rest.fs;
    }
  }

  /** A restore changes no file but the download, the decompressed file
      and what the database adapter writes. */
  lemma RunRestoreFrame(database: Database, storage: Storage, config: Config, fs: FileSystem,
                        backupFile: string, tempDir: string, env: RestoreEnv)
    requires WellTyped(database, config)
    ensures var r := RunRestore(database, storage, config, fs, backupFile, tempDir, env);
            var tempPath := DownloadTarget(tempDir, backupFile);
            var downloaded := StorageDownload(storage, fs, env.downloadFaults, backupFile, tempPath, env.get);
            var local := if downloaded.result.Ok? then downloaded.result.value else tempPath;
            var touched := {tempPath, local, RestoreInput(local)} + RestoreWrites(database, config);
            r.fs.files - touched == fs.files - touched
  {
    RunRestoreOutcome(database, storage, config, fs, backupFile, tempDir, env);
    var tempPath := DownloadTarget(tempDir, backupFile);
    var downloaded := StorageDownload(storage, fs, env.downloadFaults, backupFile, tempPath, env.get);
    var local := if downloaded.result.Ok? then downloaded.result.value else tempPath;
    var touched := {tempPath, local, RestoreInput(local)} + RestoreWrites(database, config);
    AgreeOutside(downloaded.fs.files, fs.files, tempPath, touched);
    if downloaded.result.Ok? {
      var gz := Text.HasSuffix(local, Compressor.GzipExtension);
      var decompressed := Compressor.DecompressFile(downloaded.fs, env.decompressFaults, local, env.headerValid, env.gunzip);
      var before := if gz then decompressed.fs else downloaded.fs;
      if gz {
        AgreeOutside(decompressed.fs.files, downloaded.fs.files, RestoreInput(local), touched);
      }
      if !gz || decompressed.result.Ok? {
        var restored := DatabaseRestore(database, before, env.restoreFaults, config, RestoreInput(local), env.restoreTool);
        RestoreTouches(database, before, env.restoreFaults, config, RestoreInput(local), env.restoreTool, touched);
        if restored.result.Ok? {
          var once := Remove(restored.fs, local);
          RemoveOutside(restored.fs, local);
          AgreeOutside(once.files, restored.fs.files, local, touched);
          RemoveOutside(once, RestoreInput(local));
          AgreeOutside(Remove(once, RestoreInput(local)).files, once.files, RestoreInput(local), touched);
        }
      }
    }
  }

  /** A restore changes no file outside what its adapter writes. */
  lemma RestoreTouches(database: Database, fs: FileSystem, f: Faults, config: Config, backupPath: Path,
                       toolSucceeded: bool, touched: set<Path>)
    requires WellTyped(database, config) && RestoreWrites(database, config) <= touched
    ensures DatabaseRestore(database, fs, f, config, backupPath, toolSucceeded).fs.files - touched == fs.files - touched
  {
    var restored := DatabaseRestore(database, fs, f, config, backupPath, toolSucceeded);
    if database == SQLiteFile {
      AgreeOutside(restored.fs.files, fs.files, config[SQLite.PathKey].text, touched);
    }
  }

  /** A completed SQLite restore leaves the database file holding the
      backup: the inflated bytes for a ".gz" download, the downloaded bytes
      otherwise, and for the object store the bytes it sent. The database
      file must be neither temporary file, which the clean-up removes. */
  lemma SQLiteRestoreWritesBackup(storage: Storage, config: Config, fs: FileSystem, backupFile: string,
                                  tempDir: string, env: RestoreEnv)
    requires WellTyped(SQLiteFile, config)
    ensures var r := RunRestore(SQLiteFile, storage, config, fs, backupFile, tempDir, env);
            var downloaded := StorageDownload(storage, fs, env.downloadFaults, backupFile,
                                              DownloadTarget(tempDir, backupFile), env.get);
            var db := config[SQLite.PathKey].text;
            r.outcome.Completed? ==>
              && downloaded.result.Ok?
              && var local := downloaded.result.value;
                 var gz := Text.HasSuffix(local, Compressor.GzipExtension);
                 db != local && db != RestoreInput(local) ==>
                   && db in r.fs.files
                   && (gz ==> r.fs.files[db] == env.gunzip.written)
                   && (!gz ==> r.fs.files[db] == downloaded.fs.files[local])
                   && (!gz && storage.S3? ==> r.fs.files[db] == env.get.value.written)
  {
    RunRestoreOutcome(SQLiteFile, storage, config, fs, backupFile, tempDir, env);
    var r := RunRestore(SQLiteFile, storage, config, fs, backupFile, tempDir, env);
    var downloaded := StorageDownload(storage, fs, env.downloadFaults, backupFile, DownloadTarget(tempDir, backupFile), env.get);
    if r.outcome.Completed? {
      var local := downloaded.result.value;
      var gz := Text.HasSuffix(local, Compressor.GzipExtension);
      var decompressed := Compressor.DecompressFile(downloaded.fs, env.decompressFaults, local, env.headerValid, env.gunzip);
      if gz {
        assert decompressed == DecompressDownload(downloaded.fs, local, env);
      }
      var before := if gz then decompressed.fs else downloaded.fs;
      assert DatabaseRestore(SQLiteFile, before, env.restoreFaults, config, RestoreInput(local), env.restoreTool) ==
             SQLite.Restore(before, env.restoreFaults, config, RestoreInput(local));
    }
  }

  /** What a restore leaves behind: a failed download leaves what the
      storage adapter left; any later abort keeps the downloaded file, and
      a failed restore also keeps the decompressed one; completion reports
      the restore input and removes both. */
  lemma RunRestoreLeftovers(database: Database, storage: Storage, config: Config, fs: FileSystem,
                            backupFile: string, tempDir: string, env: RestoreEnv)
    requires WellTyped(database, config)
    ensures var r := RunRestore(database, storage, config, fs, backupFile, tempDir, env);
            var downloaded := StorageDownload(storage, fs, env.downloadFaults, backupFile,
                                              DownloadTarget(tempDir, backupFile), env.get);
            && (downloaded.result.Err? ==>
                  r == Report(Aborted(Download, Some(downloaded.result.error)), downloaded.fs, UpToDownload))
            && (r.outcome.Aborted? && r.outcome.at != Download ==> DownloadTarget(tempDir, backupFile) in r.fs.files)
            && (downloaded.result.Ok? ==>
                  var local := downloaded.result.value;
                  && (r.outcome.Aborted? && r.outcome.at == Restore && Text.HasSuffix(local, Compressor.GzipExtension) ==>
                        RestoreInput(local) in r.fs.files)
                  && (r.outcome.Completed? ==>
                        r.outcome.detail == RestoreInput(local) && local !in r.fs.files && RestoreInput(local) !in r.fs.files))
  {
    var downloaded := StorageDownload(storage, fs, env.downloadFaults, backupFile, DownloadTarget(tempDir, backupFile), env.get);
    if downloaded.result.Ok? {
      var rest := RestoreFromDownload(database, config, downloaded.fs, downloaded.result.value, env);
      assert RunRestore(database, storage, config, fs, backupFile, tempDir, env).outcome == rest.outcome;
      assert RunRestore(database, storage, config, fs, backupFile, tempDir, env).fs == rest.fs;
    }
  }

  /** A failed download aborts the restore with its error; after a
      successful one, the first of decompression (for a ".gz" download)
      and restore to fail aborts there, and when none fails the restore
      input is reported. */
  lemma RunRestoreOutcome(database: Database, storage: Storage, config: Config, fs: FileSystem,
                          backupFile: string, tempDir: string, env: RestoreEnv)
    requires WellTyped(database, config)
    ensures var r := RunRestore(database, storage, config, fs, backupFile, tempDir, env);
            var downloaded := StorageDownload(storage, fs, env.downloadFaults, backupFile,
                                              DownloadTarget(tempDir, backupFile), env.get);
            && (downloaded.result.Err? ==>
                  r.outcome == Aborted(Download, Some(downloaded.result.error)) && r.fs == downloaded.fs)
            && (downloaded.result.Ok? ==>
                  var local := downloaded.result.value;
                  var gz := Text.HasSuffix(local, Compressor.GzipExtension);
                  var decompressed := Compressor.DecompressFile(downloaded.fs, env.decompressFaults, local,
                                                                env.headerValid, env.gunzip);
                  var restored := DatabaseRestore(database, if gz then decompressed.fs else downloaded.fs,
                                                  env.restoreFaults, config, RestoreInput(local), env.restoreTool);
                  && (gz && decompressed.result.Err? ==>
                        r.outcome == Aborted(Decompress, Some(decompressed.result.error)) && r.fs == decompressed.fs)
                  && ((!gz || decompressed.result.Ok?) && restored.result.Err? ==>
                        r.outcome == Aborted(Restore, Some(restored.result.error)) && r.fs == restored.fs)
                  && ((!gz || decompressed.result.Ok?) && restored.result.Ok? ==>
                        && r.outcome == Completed(RestoreInput(local))
                        && r.fs == Remove(Remove(restored.fs, local), RestoreInput(local))))
  {
    var downloaded := StorageDownload(storage, fs, env.downloadFaults, backupFile, DownloadTarget(tempDir, backupFile), env.get);
    if downloaded.result.Ok? {
      var rest := RestoreFromDownload(database, config, downloaded.fs, downloaded.result.value, env);
      RestoreFromDownloadOutcome(database, config, downloaded.fs, downloaded.result.value, env);
      assert RunRestore(database, storage, config, fs, backupFile, tempDir, env).outcome == rest.outcome;
      assert RunRestore(database, storage, config, fs, backupFile, tempDir, env).fs == rest.fs;
    }
  }

  /** `restoreCmd`: look the database up, resolve the database adapter,
      then the storage adapter, then download and restore. */
  function RestoreCommand(settings: Settings, fs: FileSystem, backupFile: string, name: string,
                          tempDir: string, env: RestoreEnv): (r: Report)
    requires RestoreConfigured(settings, name, env.sdkReady)
    ensures var plan := RestorePlan(Decompress in r.trace);
            && 1 <= |r.trace| <= |plan| && r.trace == plan[..|r.trace|]
            && (r.outcome.Completed? <==> r.trace == plan)
    ensures r.outcome != Aborted(Decompress, Some(NotGzip))
    ensures name !in settings.databases ==> r == Report(Aborted(LookupDatabase, None), fs, [LookupDatabase])
    ensures Download in r.trace <==>
              && name in settings.databases
              && GetDatabaseAdapter(DatabaseType(settings, name)).Ok?
              && GetStorageAdapter(settings.storageType, settings.bucket, env.sdkReady).Ok?
    ensures |r.trace| <= 3 ==> r.fs == fs
    ensures Valid(fs) ==> Valid(r.fs)
  {
    if name !in settings.databases then
      RestoreLookupPrefixes();
      Report(Aborted(LookupDatabase, None), fs, [LookupDatabase])
    else
      var config := settings.databases[name];
      var database := GetDatabaseAdapter(DatabaseType(settings, name));
      if database.Err? then
        RestoreLookupPrefixes();
        Report(Aborted(ResolveDatabase, Some(database.error)), fs, [LookupDatabase, ResolveDatabase])
      else
        var storage := GetStorageAdapter(settings.storageType, settings.bucket, env.sdkReady);
        RestoreWithStorage(database.value, config, storage, fs, backupFile, tempDir, env)
  }

  /** The restore steps once the database adapter is resolved: stop if the
      storage adapter could not be resolved, else download and restore. */
  function RestoreWithStorage(database: Database, config: Config, storage: Result<Storage>, fs: FileSystem,
                              backupFile: string, tempDir: string, env: RestoreEnv): (r: Report)
    requires storage.Ok? ==> WellTyped(database, config)
    ensures var plan := RestorePlan(Decompress in r.trace);
            && 3 <= |r.trace| <= |plan| && r.trace == plan[..|r.trace|]
            && (r.outcome.Completed? <==> r.trace == plan)
    ensures r.outcome != Aborted(Decompress, Some(NotGzip))
    ensures Download in r.trace <==> storage.Ok?
    ensures storage.Err? ==> r.outcome == Aborted(ResolveStorage, Some(storage.error))
    ensures |r.trace| <= 3 ==> r.fs == fs
    ensures Valid(fs) ==> Valid(r.fs)
  {
    if storage.Err? then
      RestoreLookupPrefixes();
      Report(Aborted(ResolveStorage, Some(storage.error)), fs, [LookupDatabase, ResolveDatabase, ResolveStorage])
    else
      var r := RunRestore(database, storage.value, config, fs, backupFile, tempDir, env);
      RunRestoreKeepsValid(database, storage.value, config, fs, backupFile, tempDir, env);
      r
  }

  /** The first adapter that cannot be resolved aborts the restore with
      its error; once both resolve, the command is the download-and-restore
      run on them. */
  lemma RestoreCommandOutcome(settings: Settings, fs: FileSystem, backupFile: string, name: string,
                              tempDir: string, env: RestoreEnv)
    requires RestoreConfigured(settings, name, env.sdkReady)
    ensures var r := RestoreCommand(settings, fs, backupFile, name, tempDir, env);
            name in settings.databases ==>
              var database := GetDatabaseAdapter(DatabaseType(settings, name));
              var storage := GetStorageAdapter(settings.storageType, settings.bucket, env.sdkReady);
              && (database.Err? ==> r.outcome == Aborted(ResolveDatabase, Some(database.error)))
              && (database.Ok? && storage.Err? ==> r.outcome == Aborted(ResolveStorage, Some(storage.error)))
              && (database.Ok? && storage.Ok? ==>
                    r == RunRestore(database.value, storage.value, settings.databases[name], fs, backupFile, tempDir, env))
  {
  }

  /** Decompression runs exactly when both adapters resolve, the download
      succeeds, and the downloaded name ends in ".gz". */
  lemma RestoreDecompressesGzDownloads(settings: Settings, fs: FileSystem, backupFile: string, name: string,
                                       tempDir: string, env: RestoreEnv)
    requires RestoreConfigured(settings, name, env.sdkReady)
    ensures var r := RestoreCommand(settings, fs, backupFile, name, tempDir, env);
            Decompress in r.trace <==>
              && name in settings.databases
              && GetDatabaseAdapter(DatabaseType(settings, name)).Ok?
              && var storage := GetStorageAdapter(settings.storageType, settings.bucket, env.sdkReady);
                 && storage.Ok?
                 && var downloaded := StorageDownload(storage.value, fs, env.downloadFaults, backupFile,
                                                      DownloadTarget(tempDir, backupFile), env.get);
                    downloaded.result.Ok? && Text.HasSuffix(downloaded.result.value, Compressor.GzipExtension)
  {
    var r := RestoreCommand(settings, fs, backupFile, name, tempDir, env);
    if name in settings.databases && GetDatabaseAdapter(DatabaseType(settings, name)).Ok? {
      var storage := GetStorageAdapter(settings.storageType, settings.bucket, env.sdkReady);
      if storage.Ok? {
        RestoreCommandOutcome(settings, fs, backupFile, name, tempDir, env);
      } else {
        RestoreCommandOutcome(settings, fs, backupFile, name, tempDir, env);
        assert Download !in r.trace;
      }
    } else {
      assert |r.trace| <= 2;
    }
  }

  /** A restore that aborts names the last step it ran. */
  lemma RestoreAbortsAtLastStep(settings: Settings, fs: FileSystem, backupFile: string, name: string,
                                tempDir: string, env: RestoreEnv)
    requires RestoreConfigured(settings, name, env.sdkReady)
    ensures var r := RestoreCommand(settings, fs, backupFile, name, tempDir, env);
            r.outcome.Aborted? ==> r.outcome.at == r.trace[|r.trace| - 1]
  {
    if name in settings.databases && GetDatabaseAdapter(DatabaseType(settings, name)).Ok? {
      var database := GetDatabaseAdapter(DatabaseType(settings, name));
      var storage := GetStorageAdapter(settings.storageType, settings.bucket, env.sdkReady);
      if storage.Ok? {
        assert RestoreCommand(settings, fs, backupFile, name, tempDir, env) ==
               RunRestore(database.value, storage.value, settings.databases[name], fs, backupFile, tempDir, env);
      }
    }
  }

  /** With local storage whose path is ".", the upload target is the
      compressed file itself: the copy onto itself empties it, and the
      final clean-up then deletes the only copy while the command reports
      success at that path. */
  lemma BackupIntoWorkingDirectoryKeepsNothing(database: Database, config: Config, fs: FileSystem,
                                               name: string, env: BackupEnv)
    requires WellTyped(database, config)
    requires FilePath.Separator !in name
    requires RunBackup(database, Local, config, ".", fs, name, env).outcome.Completed?
    ensures var r := RunBackup(database, Local, config, ".", fs, name, env);
            && (r.outcome.detail == CompressedDumpPath(name) || r.outcome.detail == "")
            && CompressedDumpPath(name) !in r.fs.files
            && RawDumpPath(name) !in r.fs.files
  {
    var gz := CompressedDumpPath(name);
    RunBackupLeftovers(database, Local, config, ".", fs, name, env);
    UploadTargetNaming(".", name);
    CompressedDumpBase(name);
    FilePath.JoinDot(gz);
  }

  /** The download target keeps the backup's base name. */
  lemma DownloadTargetNaming(tempDir: string, backupFile: string)
    requires FilePath.IsPlainName(FilePath.Base(backupFile))
    ensures FilePath.Base(DownloadTarget(tempDir, backupFile)) == FilePath.Base(backupFile)
    ensures Text.HasSuffix(FilePath.Base(backupFile), Compressor.GzipExtension) ==>
              Text.HasSuffix(DownloadTarget(tempDir, backupFile), Compressor.GzipExtension)
  {
    var base := FilePath.Base(backupFile);
    FilePath.BaseOfJoin(tempDir, base);
    if Text.HasSuffix(base, Compressor.GzipExtension) {
      Text.SuffixOfSuffix(DownloadTarget(tempDir, backupFile), base, Compressor.GzipExtension);
    }
  }

  /** When the local download's copy fails, the storage adapter reports
      success with the path "": nothing is decompressed, the SQLite restore
      fails to open "", and the partial download stays in the temporary
      directory. */
  lemma RestoreAfterSwallowedCopyFailure(config: Config, fs: FileSystem, backupFile: string, tempDir: string, env: RestoreEnv)
    requires WellTyped(SQLiteFile, config) && Valid(fs)
    requires StorageDownload(Local, fs, env.downloadFaults, backupFile, DownloadTarget(tempDir, backupFile), env.get).result == Ok("")
    ensures var r := RunRestore(SQLiteFile, Local, config, fs, backupFile, tempDir, env);
            && r.outcome == Aborted(Restore, Some(NotExist("")))
            && Decompress !in r.trace
            && DownloadTarget(tempDir, backupFile) in r.fs.files
  {
  }
}
