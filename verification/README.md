# db-backup-cli, modelled in Dafny

`db-backup-cli` backs databases up and restores them. It does this by
running each engine's dump and restore tools, gzip-compressing the dump,
and moving the compressed file to and from a storage backend. The backend is
either a directory on the local file system or an S3 bucket. A crontab
helper schedules backups under a tagged comment line.

This project models the core of that program:

- the two `backup` and `restore` commands as step machines
  (`commands.dfy`);
- the factories that choose a database and a storage adapter from the
  configured type names, together with those adapters (`adapters.dfy`);
- the SQLite adapter (`sqlite.dfy`) and the local storage backend
  (`local_storage.dfy`), whose work is all on the file system;
- the file-naming and file-level behaviour of the gzip helpers
  (`compressor.dfy`);
- the crontab text editing of `AddCronJob` and `RemoveCronJob`
  (`cron.dfy`).

Supporting modules:

- `outcomes.dfy`: results, errors and configuration values.
- `text.dfy`: splitting and joining on a separator, prefixes, suffixes and
  substrings.
- `filepath.dfy`: Go's `path/filepath` on Unix, namely `Clean`, `Join`,
  `Base`, `Dir` and `Ext`.
- `os.dfy`: an abstract file system.

The file system is a map from path to bytes plus a set of directories.
`Open`, `Create`, `MkdirAll`, `Stat` and the byte copy each fail when the
per-call `Faults` record says so, or when the path does not allow them. A
copy happens after `os.Create` has already truncated the destination.
Copying a file onto itself therefore leaves it empty, and several quirks
below follow from this.

A command returns a `Report`, which holds three things:

- the steps it ran, which are always a prefix of the command's plan;
- how it ended: `Completed(detail)`, or `Aborted(step, cause)`;
- the file system it left behind.

Whatever lies outside the process is an input to the model: the bytes
and exit status of `mysqldump` and `mongodump`, the object store's
answers, and the temporary directory. The in-process gzip writer and
reader are inputs too: their output, whether they finish, and the
header check.

Several behaviours of the code are reproduced as written, and lemmas state
them:

- The local backend swallows two errors, `MkdirAll` in `Upload` and the
  copy in `Download`. Both report success with the path `""`.
- A restore after a swallowed download failure therefore goes on to
  restore from `""`.
- Backing up to local storage whose path is `.` uploads the compressed
  file onto itself. The clean-up then deletes it, yet the command reports
  success.
- A SQLite backup onto the database's own path empties the database.
- `RemoveCronJob` matches by substring, so removing `ord` also removes
  `orders`. It also drops the line after every tagged line.
- `AddCronJob` glues its tag onto a crontab line that has no trailing
  newline, and removing the entry later loses that line.

## Model

| member | source | states |
|---|---|---|
| Cron.AddCronJob | pkg/utils/cron.go:31-45 | the new crontab begins with the whole old crontab, is strictly longer and ends in a newline |
| Cron.AddedLines | pkg/utils/cron.go:37-44 | after adding, the crontab's lines are its old lines with the tag glued to the last piece, then the job line and an empty piece |
| Cron.AddToTerminated | pkg/utils/cron.go:37-44 | on an empty or newline-terminated crontab, adding appends exactly the tag line and the job line and keeps the crontab newline-terminated |
| Cron.AddTwiceKeepsBoth | pkg/utils/cron.go:31-45 | adding the same name twice leaves two tagged entries; an existing entry is never replaced |
| Cron.RemoveCronJob | pkg/utils/cron.go:53-72 | the skip-flag loop writes exactly the reference rewrite: the lines that neither contain the tag nor follow a line that does, plus an empty last line when the last line was dropped |
| Cron.RemoveUnmarkedIsIdentity | pkg/utils/cron.go:53-72 | when no line contains the tag, removal gives back the crontab unchanged |
| Cron.RemoveIdempotent | pkg/utils/cron.go:57-70 | no line of the result contains the tag, so removing twice equals removing once |
| Cron.AddThenRemoveGeneral | pkg/utils/cron.go:37-72 | removing with a tag that matches the added entry drops the entry, and with it the crontab's unterminated last piece, and keeps every earlier line |
| Cron.AddThenRemoveRestores | pkg/utils/cron.go:37-72 | add then remove gives back a newline-terminated crontab that had no matching line, for the same name or any prefix of it |
| Cron.RemoveMatchesBySubstring | pkg/utils/cron.go:58 | removing "ord" removes the entry added for "orders" |
| Cron.AddThenRemoveLosesUnterminatedLine | pkg/utils/cron.go:37-72 | when the crontab lacks a final newline, add then remove loses its non-empty last line, and only that line |
| Compressor.CompressFile | pkg/utils/compressor.go:13-35 | succeeds exactly when the input opens, `input.gz` can be created and the stream completes; the result is `input.gz` holding the stream; the input and every other file stay as they were |
| Compressor.DecompressFile | pkg/utils/compressor.go:37-66 | a name whose extension is not ".gz" is refused before any file access; otherwise it fails on open, header or create, and on success writes the inflated bytes to the name without ".gz" and changes nothing else |
| Compressor.CompressedPath | pkg/utils/compressor.go:20 | the compressed name ends in ".gz", passes the decompressor's extension check, and the decompressed-name rule turns it back into the input |
| Compressor.DecompressedPath | pkg/utils/compressor.go:54 | a name ending in ".gz" loses exactly that suffix, and any other name is left as it is |
| Compressor.NameRoundTrip | pkg/utils/compressor.go:20-54 | the compressed-name and decompressed-name rules are inverse in both directions |
| Compressor.DecompressedPathExamples | pkg/utils/compressor.go:54 | only one trailing ".gz" is removed, and a name without it is unchanged |
| Compressor.CompressedOutputPassesCheck | pkg/utils/compressor.go:20-40 | the output of a successful compression always passes the extension check, and its decompressed name is the original input |
| Compressor.DecompressRefusals | pkg/utils/compressor.go:38-40 | an upper-case ".GZ" and a ".gz" directory element are both refused without touching the file system |
| FilePath.ExtGzIffSuffix | cmd/main.go:196-204 | the restore command's `HasSuffix(".gz")` test and the decompressor's `Ext == ".gz"` check agree on every path |
| LocalStorage.Upload | pkg/storage/local.go:11-33 | returns the remote path exactly when the parent directories can be made, the local file exists and opens, the remote path can be created and the copy completes; the remote path then holds the local file's bytes, or nothing when both are the same file; a failed mkdir, and only that, yields `("", nil)` with nothing written; only the remote path and its parent directories change |
| LocalStorage.Download | pkg/storage/local.go:35-53 | returns the local path exactly when the stored file exists and opens, the local path can be created and the copy completes, the local path then holding the stored bytes, or nothing when both are the same file; a missing remote file is an error with nothing changed; a broken copy yields `("", nil)`, exactly when open and create succeed and the copy does not |
| LocalStorage.ListFiles | pkg/storage/local.go:55-57 | every prefix yields an empty, non-nil list and no error |
| LocalStorage.UploadDownloadRoundTrip | pkg/storage/local.go:11-53 | uploading a file and downloading its address elsewhere gives back the original bytes |
| LocalStorage.UploadSwallowsMkdirFailure | pkg/storage/local.go:12-14 | a failing mkdir of a missing directory is reported as success with the path "", and the file system is unchanged |
| LocalStorage.DownloadSwallowsCopyFailure | pkg/storage/local.go:48-50 | a copy cut after n bytes is reported as success with the path "", and the first n bytes are left at the local path |
| SQLite.Backup | pkg/databases/sqlite.go:13-36 | succeeds exactly when the database file exists and opens, the output's parent directories can be made, the output can be created and the copy completes; a missing database file is an error with nothing changed; success leaves the output holding the database's bytes, or nothing when it is the database itself; only the output and its parent directories change |
| SQLite.Restore | pkg/databases/sqlite.go:38-58 | succeeds exactly when the backup exists and opens, the database file can be created and the copy completes; a missing backup is an error with nothing changed; success leaves the database holding the backup's bytes; only the database file changes |
| SQLite.TestConnection | pkg/databases/sqlite.go:60-70 | fails exactly when the database path is missing or cannot be examined, with a not-exist error for a missing path |
| SQLite.BackupLeavesDatabase | pkg/databases/sqlite.go:13-36 | a backup to any other path leaves the database file as it was |
| SQLite.BackupOntoItselfEmptiesDatabase | pkg/databases/sqlite.go:25-33 | a successful backup onto the database's own path leaves an empty database |
| SQLite.BackupRestoreRoundTrip | pkg/databases/sqlite.go:13-58 | restoring a backup gives the database back its original bytes |
| Adapters.GetDatabaseAdapter | cmd/main.go:116-127 | exactly "mysql", "sqlite" and "mongo" select an adapter, each the one its name denotes; any other name is an unsupported-type error |
| Adapters.DatabaseAdapterNames | cmd/main.go:116-127 | every database adapter is selected by its own type name |
| Adapters.GetStorageAdapter | cmd/main.go:129-142 | "local" always selects local storage; "s3" selects the object store with the configured bucket exactly when its client configuration loads; anything else is an unsupported-type error |
| Adapters.StorageAdapterNames | cmd/main.go:129-142 | every storage adapter is selected by its own type name |
| Adapters.DatabaseBackup | pkg/databases/mysql.go:12-45 | MySQL and Mongo succeed exactly when the output can be created and the dump tool exits successfully, the output then holding what the tool wrote; SQLite succeeds exactly when its copy does; only the output path changes; a failing tool is reported as that tool's failure |
| Adapters.DatabaseRestore | pkg/databases/mysql.go:47-81 | MySQL succeeds exactly when the backup opens and `mysql` succeeds; Mongo exactly when `mongorestore` does; neither changes the file system; SQLite exactly when its copy does |
| Adapters.DatabaseTestConnection | pkg/databases/mongo.go:45-65 | MySQL always succeeds; Mongo succeeds exactly when the ping does; SQLite exactly when its file can be examined |
| Adapters.StorageUpload | pkg/storage/s3.go:37-58 | the object store succeeds exactly when the local file opens and the put succeeds, returns `s3://bucket/key` and changes nothing locally; local storage returns a path exactly when its copy succeeds, and "" exactly when its mkdir fails, with nothing changed |
| Adapters.StorageDownload | pkg/storage/s3.go:60-83 | the object store succeeds exactly when a complete response body arrives and the local path can be created, the body then written there; a failed request changes nothing; local storage returns the local path exactly when its copy succeeds; only the local path changes |
| Commands.ShipBackup | cmd/main.go:101-111 | the raw dump is removed; a failed upload aborts at the upload with its error, the file system as the upload left it, the compressed file still there; a successful one completes with the storage's answer, the file system as the upload left it minus the compressed file; the answer is the target, the object address, or "" with nothing else changed |
| Commands.CompressAndShip | cmd/main.go:95-111 | a failed compression aborts there with its error, the file system as the compressor left it, the raw dump kept; after it, a failed upload aborts at the upload with its error, the file system as the upload left it, only the compressed file kept; when both succeed the backup completes with the upload's answer, the compressed file removed from what the upload left; a completed local upload to another path holds the gzip output at the target |
| Commands.RunBackup | cmd/main.go:87-112 | once both adapters resolve the dump always runs, and the steps that follow are a prefix of compress, remove, upload, remove; the run completes exactly when all of them ran, and an abort names the last step it ran and carries its cause; a well-formed file system stays well formed |
| Commands.RunBackupOutcome | cmd/main.go:87-112 | the first of dump, compression and upload to fail aborts the run at that step with its error, leaving the file system as that step left it; when all three succeed the run completes with the upload's answer, leaving what the upload left minus the compressed file |
| Commands.RunBackupLeftovers | cmd/main.go:87-112 | a failed dump changes nothing but the dump file, a failed compression keeps the raw dump, a failed upload keeps only the compressed file, and on completion neither dump file remains; completion reports the upload target, its object address, or "" with nothing else changed; a completed local upload to another path holds the gzip output |
| Commands.RunBackupFrame | cmd/main.go:87-111 | a backup changes no file other than the raw dump, the compressed dump and the upload target |
| Commands.BackupCommand | cmd/main.go:58-113 | the steps run are a prefix of dump, compress, remove, upload, remove, after the three lookups; an unknown database stops at the lookup with nothing changed; the dump runs exactly when all three lookups succeed; adapter settings and the storage path are required only once both adapters resolve |
| Commands.BackupCommandOutcome | cmd/main.go:75-85 | a storage adapter that cannot be resolved aborts there with its error, then likewise the database adapter; once both resolve the command is the dump, compress and upload run on them |
| Commands.CompressedDumpBase | cmd/main.go:87-103 | the base name of the compressed dump is the last element of the database name followed by "_backup.sql.gz" |
| Commands.RawDumpNaming | cmd/main.go:87 | the dump file is the database name followed by "_backup.sql", so it never ends in ".gz" |
| Commands.UploadTargetNaming | cmd/main.go:87-103 | the upload target keeps that base name and ends in ".gz", so it is never the raw dump; for a plain database name its base is exactly the compressed dump's name |
| Commands.BackupIntoWorkingDirectoryKeepsNothing | cmd/main.go:103-111 | with local storage at "." a completed backup reports the compressed file, or "", yet neither dump file remains |
| Commands.RestoreAndClean | cmd/main.go:206-215 | a failed restore aborts at the restore with its error, the file system as the restore left it; a successful one completes with the restore input, the file system as the restore left it minus the download and, when it differs, the decompressed file |
| Commands.RestoreFromDownload | cmd/main.go:196-215 | decompression runs exactly when the downloaded name ends in ".gz" and never meets the extension refusal; restore reads the decompressed name; completion removes both files |
| Commands.RestorePlainDownload | cmd/main.go:196-215 | a download whose name does not end in ".gz" is restored as it is: nothing is decompressed, an abort can only be the restore's and keeps every file, and completion reports the download and removes it |
| Commands.RestoreDownloaded | cmd/main.go:187-215 | after a successful download the trace is the steps up to it followed by those after it, decompression among them exactly for a ".gz" name; an abort names its last step and carries its cause |
| Commands.RestoreFromDownloadOutcome | cmd/main.go:196-215 | the first of decompression (for a ".gz" name) and restore to fail aborts at that step with its error, leaving the file system as that step left it; when none fails the restore completes with the restore input, leaving what the restore left minus the download and the decompressed file |
| Commands.RunRestore | cmd/main.go:187-215 | the steps after both lookups follow the restore plan through the download, the decompression step present exactly when the download succeeded with a ".gz" name; an abort names its last step and carries its cause, never the extension refusal |
| Commands.RunRestoreLeftovers | cmd/main.go:187-215 | a failed download aborts there with the storage adapter's error and state; any later abort keeps the downloaded file, and a failed restore after decompression also keeps the decompressed one; completion reports the restore input and removes both |
| Commands.RunRestoreKeepsValid | cmd/main.go:187-215 | a restore keeps a well-formed file system well formed |
| Commands.RunRestoreOutcome | cmd/main.go:187-215 | a failed download aborts at the download with its error; after it, the first of decompression (for a ".gz" download) and restore to fail aborts at that step with its error; each abort leaves the file system as the failing step left it; when none fails the run completes with the restore input, leaving what the restore left minus the download and the decompressed file |
| Commands.RunRestoreFrame | cmd/main.go:187-215 | a restore changes no file other than the temporary download path, the downloaded file, the restore input and the files the database adapter writes |
| Commands.RestoreTouches | pkg/databases/sqlite.go:38-58 | a database restore changes no file other than the SQLite database file, and none at all for the adapters that hand the backup to an external program |
| Commands.SQLiteRestoreWritesBackup | cmd/main.go:187-215 | after a completed SQLite restore the database file holds the backup: the inflated bytes for a ".gz" download, the downloaded bytes otherwise, and for the object store the bytes it sent |
| Commands.DecompressDownload | cmd/main.go:196-204 | decompressing a ".gz" download is never refused for its extension; on success the restore input is the download's name without ".gz", a different file that now exists, and no file disappears |
| Commands.DecompressAndRestore | cmd/main.go:196-215 | decompression comes first and is never refused for its extension; an abort names its last step and keeps every file, a failed restore also the decompressed one; completion reports the decompressed name and removes both files |
| Commands.RestoreWithStorage | cmd/main.go:181-215 | a storage adapter that cannot be resolved aborts there with its error after three steps, with nothing changed; otherwise the download runs and the steps follow the restore plan |
| Commands.RestoreCommand | cmd/main.go:157-218 | the steps run are a prefix of the restore plan; an unknown database stops at the lookup; the download runs exactly when both adapters resolve; nothing changes before the download; the adapter settings are required only once both adapters resolve |
| Commands.RestoreCommandOutcome | cmd/main.go:175-185 | a database adapter that cannot be resolved aborts there with its error, then likewise the storage adapter; once both resolve the command is the download and restore run on them |
| Commands.RestoreDecompressesGzDownloads | cmd/main.go:181-204 | decompression runs exactly when both adapters resolve, the download succeeds and the downloaded name ends in ".gz" |
| Commands.RestoreAbortsAtLastStep | cmd/main.go:157-218 | a restore that aborts reports the last step of its trace as the step that failed |
| Commands.DownloadTargetNaming | cmd/main.go:187 | the temporary file keeps the backup's base name, and with it a ".gz" suffix |
| Commands.RestoreAfterSwallowedCopyFailure | cmd/main.go:190-210 | after a local download that reports "", nothing is decompressed, the SQLite restore fails to open "", and the partial download stays behind |

## Left out

- Reading and writing the crontab (`GetCronTab` and `WriteCrontab` in
  `pkg/utils/cron.go`) run the `crontab` program. The model works on the
  text that program prints. The race between reading and writing back is
  not modelled.
- The argument vectors, connection URLs and environment variables passed
  to `mysqldump`, `mysql`, `mongodump`, `mongorestore` and `mongosh` are
  not modelled. Each program's output and exit status are inputs.
- `mongodump --out` writes a directory, but the model treats its output
  as a single file, like the MySQL dump.
- The gzip encoding itself is not modelled. Its output bytes, whether the
  stream completed, and whether a header is valid are inputs.
  `CompressFile` closes the gzip writer before copying (compressor.go
  lines 27-28), so the real output would not round-trip. No
  compress-then-decompress content property is claimed.
- Compressor.CompressFile: whether the gzip stream completes is a free
  input, although in the code it is decided by the in-process writer:
  the copy at compressor.go line 30 writes into a writer already closed
  at line 28. The model therefore allows outcomes the code fixes.
- The S3 client is not modelled. Whether its configuration loads, whether
  `PutObject` succeeds, and the `GetObject` body are inputs. The bucket
  region and the S3 `ListFiles` are not modelled. `filepath.ToSlash` is
  taken as the identity, as it is on Unix.
- Command-line parsing, the `init` and `schedule` commands, and logging
  are not modelled.
- The configuration is given as maps of typed values, so the loading of
  it is not modelled. That includes environment-variable overrides, the
  password merge (main.go lines 67-71), and case-insensitive dotted keys.
  Database names are keyed literally.
- `os.TempDir()` is a parameter.
- Os.FileSystem: files are keyed by the literal path string, with no
  working directory. `x`, `./x` and the absolute path of `x` are the same
  file for Go but three files here. The self-copy of a backup uploaded
  into the working directory is therefore shown only for the storage
  path `.`; an absolute path naming the working directory, which empties
  and deletes the backup in the same way, is not recognised.
- Os.MkdirAll: a failure leaves the file system unchanged. Go's
  `os.MkdirAll` can leave behind the ancestors it created before the
  failing step, so the "nothing written" of
  `LocalStorage.UploadSwallowsMkdirFailure` is an idealisation for
  deep paths.
- Commands.BackupCommand: the storage `path` string is required as soon
  as both adapters resolve, before the dump. The code only asserts it at
  main.go line 103, after dumping and compressing, and the model does not
  show the panic that comes after those steps.
- Commands.RestoreCommand: the settings the database adapter reads are
  required as soon as both adapters resolve. The code asserts them inside
  the adapter's `Restore` (main.go line 207), after downloading at line
  190 and decompressing at line 199, so the download and decompression
  that come before such a panic are not shown. The same holds for
  Commands.RestoreWithStorage and Commands.RunRestore.
- Panics are not modelled as outcomes. A type assertion that would panic
  is a precondition instead: the database's `type` on any configured name,
  since both commands assert it before resolving anything (main.go lines
  73 and 173), and the adapter settings and storage `path` only once
  both adapters resolve.
- Commands.RunBackupFrame, Commands.RunRestoreFrame: the frame speaks of
  files only. The directories that `MkdirAll` creates are not in it, and
  well-formedness is stated separately.
- `os.Remove` errors are ignored, as in the code. Removing a missing path
  changes nothing. Permissions and symbolic links are not modelled; the
  `Faults` record stands for any failure they would cause.
- Concurrency is not modelled, since the program is single-threaded.
