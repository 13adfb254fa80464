/** The two adapter interfaces, `core.Database` and `core.Storage`, as
    closed sums over their implementations, and the factories that choose
    an implementation from a configured type name. The file-system adapters
    (SQLite, local storage) delegate to their own modules; the adapters that
    drive external programs or the object store take the outcome of that
    external work as a parameter. */
module Adapters {
  import opened Outcomes
  import opened Os
  import SQLite
  import LocalStorage
  import FilePath

  datatype Database = MySQL | SQLiteFile | Mongo

  datatype Storage = Local | S3(bucket: string)

  /** The configured `type` that selects each database adapter. */
  function DatabaseTypeName(d: Database): string
  {
    match d
    case MySQL => "mysql"
    case SQLiteFile => "sqlite"
    case Mongo => "mongo"
  }

  /** The configured `storage.type` that selects each storage adapter. */
  function StorageTypeName(s: Storage): string
  {
    match s
    case Local => "local"
    case S3(_) => "s3"
  }

  /** `getDatabaseAdapter`: exactly the three known names select an adapter,
      each the one its name denotes. */
  function GetDatabaseAdapter(dbType: string): (r: Result<Database>)
    ensures r.Ok? <==> dbType == "mysql" || dbType == "sqlite" || dbType == "mongo"
    ensures r.Ok? ==> DatabaseTypeName(r.value) == dbType
    ensures r.Err? ==> r.error == UnsupportedDatabase(dbType)
  {
    match dbType
    case "mysql" => Ok(MySQL)
    case "sqlite" => Ok(SQLiteFile)
    case "mongo" => Ok(Mongo)
    case _ => Err(UnsupportedDatabase(dbType))
  }

  /** Every adapter is reachable from its own type name. */
  lemma DatabaseAdapterNames(d: Database)
    ensures GetDatabaseAdapter(DatabaseTypeName(d)) == Ok(d)
  {
  }

  /** `getStorageAdapter`: "local" and "s3" select an adapter; the object
      store additionally needs its client configuration to load
      (`sdkReady`), and keeps the configured bucket. */
  function GetStorageAdapter(storageType: string, bucket: string, sdkReady: bool): (r: Result<Storage>)
    ensures r.Ok? <==> storageType == "local" || (storageType == "s3" && sdkReady)
    ensures r.Ok? ==> StorageTypeName(r.value) == storageType
    ensures r.Ok? && r.value.S3? ==> r.value.bucket == bucket
    ensures storageType != "local" && storageType != "s3" ==> r == Err(UnsupportedStorage(storageType))
    ensures storageType == "s3" && !sdkReady ==> r == Err(SdkConfigFailed)
  {
    match storageType
    case "local" => Ok(Local)
    case "s3" => if sdkReady then Ok(S3(bucket)) else Err(SdkConfigFailed)
    case _ => Err(UnsupportedStorage(storageType))
  }

  lemma StorageAdapterNames(s: Storage)
    ensures GetStorageAdapter(StorageTypeName(s), if s.S3? then s.bucket else "", true) == Ok(s)
  {
  }

  /** The settings an adapter's type assertions demand: the SQLite adapter
      reads `path`; the MySQL and Mongo adapters read four strings and an
      integer port. */
  predicate WellTyped(d: Database, config: Config)
  {
    match d
    case SQLiteFile => HasText(config, SQLite.PathKey)
    case _ =>
      && HasText(config, "user")
      && HasText(config, "password")
      && HasText(config, "host")
      && HasNumber(config, "port")
      && HasText(config, "database")
  }

  /** The program each process-driving adapter runs. */
  function DumpTool(d: Database): string
  {
    match d
    case MySQL => "mysqldump"
    case SQLiteFile => ""
    case Mongo => "mongodump"
  }

  function RestoreTool(d: Database): string
  {
    match d
    case MySQL => "mysql"
    case SQLiteFile => ""
    case Mongo => "mongorestore"
  }

  /** `Database.Backup(config, outputPath)`. MySQL creates the output file
      and lets `mysqldump` write into it; Mongo's `mongodump` writes the
      output itself; SQLite copies its database file. `tool` is what the
      external program wrote and whether it exited successfully. */
  function DatabaseBackup(d: Database, fs: FileSystem, f: Faults, config: Config, outputPath: Path, tool: Stream): (e: Effect<Path>)
    requires WellTyped(d, config)
    ensures d == SQLiteFile ==> (e.result.Ok? <==> SQLite.BackupCopies(fs, f, config, outputPath))
    ensures d != SQLiteFile ==> (e.result.Ok? <==> Create(fs, outputPath, f).result.Ok? && tool.completed)
    ensures e.result.Ok? ==> e.result.value == outputPath && outputPath in e.fs.files
    ensures e.result.Ok? && d != SQLiteFile ==> e.fs.files[outputPath] == tool.written
    ensures e.result.Ok? && d != SQLiteFile ==> tool.completed
    ensures d != SQLiteFile && !tool.completed ==> e.result == Err(ToolFailed(DumpTool(d))) || Create(fs, outputPath, f).result.Err?
    ensures e.fs.files - {outputPath} == fs.files - {outputPath}
    ensures fs.files.Keys <= e.fs.files.Keys
    ensures d != SQLiteFile ==> e.fs.dirs == fs.dirs
    ensures Valid(fs) ==> Valid(e.fs)
  {
    match d
    case SQLiteFile =>
      SQLite.Backup(fs, f, config, outputPath)
    case MySQL =>
      var created := Create(fs, outputPath, f);
      if created.result.Err? then Effect(Err(created.result.error), fs)
      else
        var written := FileSystem(created.fs.files[outputPath := tool.written], fs.dirs);
        if tool.completed then Effect(Ok(outputPath), written)
        else Effect(Err(ToolFailed(DumpTool(d))), written)
    case Mongo =>
      var created := Create(fs, outputPath, f);
      if created.result.Err? then Effect(Err(ToolFailed(DumpTool(d))), fs)
      else
        var written := FileSystem(created.fs.files[outputPath := tool.written], fs.dirs);
        if tool.completed then Effect(Ok(outputPath), written)
        else Effect(Err(ToolFailed(DumpTool(d))), written)
  }

  /** The local files a restore may write: the SQLite database file, and
      none for the adapters that hand the backup to an external program. */
  function RestoreWrites(d: Database, config: Config): set<Path>
    requires WellTyped(d, config)
  {
    if d == SQLiteFile then {config[SQLite.PathKey].text} else {}
  }

  /** `Database.Restore(config, backupPath)`. MySQL opens the backup and
      feeds it to `mysql`; Mongo hands the path to `mongorestore`; neither
      touches the file system. `toolSucceeded` is the program's exit status. */
  function DatabaseRestore(d: Database, fs: FileSystem, f: Faults, config: Config, backupPath: Path, toolSucceeded: bool): (e: Effect<()>)
    requires WellTyped(d, config)
    ensures d != SQLiteFile ==> e.fs == fs
    ensures d == MySQL ==> (e.result.Ok? <==> Open(fs, backupPath, f).Ok? && toolSucceeded)
    ensures d == Mongo ==> (e.result.Ok? <==> toolSucceeded)
    ensures d == SQLiteFile ==> (e.result.Ok? <==> SQLite.RestoreCopies(fs, f, config, backupPath))
    ensures d == SQLiteFile && e.result.Ok? ==> backupPath in fs.files
    ensures d == SQLiteFile ==> e.fs.files - {config[SQLite.PathKey].text} == fs.files - {config[SQLite.PathKey].text}
    ensures fs.files.Keys <= e.fs.files.Keys
    ensures e.fs.dirs == fs.dirs
    ensures Valid(fs) ==> Valid(e.fs)
  {
    match d
    case SQLiteFile =>
      SQLite.Restore(fs, f, config, backupPath)
    case MySQL =>
      if Open(fs, backupPath, f).Err? then Effect(Err(Open(fs, backupPath, f).error), fs)
      else Effect(if toolSucceeded then Ok(()) else Err(ToolFailed(RestoreTool(d))), fs)
    case Mongo =>
      Effect(if toolSucceeded then Ok(()) else Err(ToolFailed(RestoreTool(d))), fs)
  }

  /** `Database.TestConnection(config)`: MySQL reports success without
      checking anything; Mongo pings with `mongosh`; SQLite stats its file. */
  function DatabaseTestConnection(d: Database, fs: FileSystem, f: Faults, config: Config, pingSucceeded: bool): (r: Result<()>)
    requires d != MySQL ==> WellTyped(d, config)
    ensures d == MySQL ==> r.Ok?
    ensures d == Mongo ==> (r.Ok? <==> pingSucceeded)
    ensures d == SQLiteFile ==> (r.Ok? <==> Exists(fs, config[SQLite.PathKey].text) && !f.stat)
  {
    match d
    case MySQL => Ok(())
    case Mongo => if pingSucceeded then Ok(()) else Err(ToolFailed("mongosh"))
    case SQLiteFile => SQLite.TestConnection(fs, f, config)
  }

  /** The address the object store reports for an uploaded key. */
  function ObjectAddress(bucket: string, key: string): string
  {
    "s3://" + bucket + "/" + key
  }

  /** `Storage.Upload(localPath, remotePath)`. The object store opens the
      local file and sends it (`put` is whether the request succeeded); it
      changes nothing locally. */
  function StorageUpload(s: Storage, fs: FileSystem, f: Faults, localPath: Path, remotePath: Path, put: bool): (e: Effect<string>)
    ensures s.S3? ==> e.fs == fs
    ensures s.S3? ==> (e.result.Ok? <==> Open(fs, localPath, f).Ok? && put)
    ensures s.Local? ==> (e.result.Ok? && e.result.value != "" <==> LocalStorage.UploadCopies(fs, f, localPath, remotePath))
    ensures s.Local? ==> (e.result == Ok("") <==> MkdirAll(fs, FilePath.Dir(remotePath), f).result.Err?)
    ensures s.S3? && e.result.Ok? ==> e.result.value == ObjectAddress(s.bucket, remotePath)
    ensures s.Local? && e.result.Ok? && e.result.value != "" ==>
              e.result.value == remotePath && localPath in fs.files && remotePath in e.fs.files
    ensures s.Local? && e.result.Ok? && e.result.value != "" && localPath != remotePath ==>
              e.fs.files[remotePath] == fs.files[localPath]
    ensures e.result.Ok? && e.result.value == "" ==> s.Local? && e.fs == fs
    ensures e.fs.files - {remotePath} == fs.files - {remotePath}
    ensures fs.files.Keys <= e.fs.files.Keys
    ensures Valid(fs) ==> Valid(e.fs)
  {
    match s
    case Local => LocalStorage.Upload(fs, f, localPath, remotePath)
    case S3(bucket) =>
      match Open(fs, localPath, f)
      case Err(err) => Effect(Err(err), fs)
      case Ok(_) =>
        if put then Effect(Ok(ObjectAddress(bucket, remotePath)), fs)
        else Effect(Err(RemoteFailed("PutObject")), fs)
  }

  /** `Storage.Download(remotePath, localPath)`. For the object store, `get`
      is the response body, or `None` when the request failed; the body is
      written over `localPath`. */
  function StorageDownload(s: Storage, fs: FileSystem, f: Faults, remotePath: Path, localPath: Path, get: Option<Stream>): (e: Effect<Path>)
    ensures e.result.Ok? ==> e.result.value == localPath || (s.Local? && e.result.value == "")
    ensures e.result.Ok? ==> localPath in e.fs.files
    ensures s.S3? ==> (e.result.Ok? <==> get.Some? && get.value.completed && Create(fs, localPath, f).result.Ok?)
    ensures s.S3? && e.result.Ok? ==> e.result.value == localPath && e.fs.files[localPath] == get.value.written
    ensures s.Local? ==> (e.result.Ok? && e.result.value != "" <==> LocalStorage.DownloadCopies(fs, f, remotePath, localPath))
    ensures s.S3? && get.None? ==> e == Effect(Err(RemoteFailed("GetObject")), fs)
    ensures e.fs.files - {localPath} == fs.files - {localPath}
    ensures fs.files.Keys <= e.fs.files.Keys
    ensures e.fs.dirs == fs.dirs
    ensures Valid(fs) ==> Valid(e.fs)
  {
    match s
    case Local => LocalStorage.Download(fs, f, remotePath, localPath)
    case S3(_) =>
      match get
      case None => Effect(Err(RemoteFailed("GetObject")), fs)
      case Some(body) =>
        var created := Create(fs, localPath, f);
        if created.result.Err? then Effect(Err(created.result.error), fs)
        else
          var written := FileSystem(created.fs.files[localPath := body.written], fs.dirs);
          if body.completed then Effect(Ok(localPath), written)
          else Effect(Err(Fault(CopyOp, localPath)), written)
  }
}
