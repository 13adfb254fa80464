/** Go's `(value, error)` returns as a result datatype, the errors the
    modelled code can report, and configuration values. */
module Outcomes {

  datatype Option<+T> = None | Some(value: T)

  /** The file-system operation an injected fault hit. */
  datatype Op = MkdirOp | OpenOp | StatOp | CreateOp | CopyOp

  datatype Error =
    | NotExist(path: string)             // ENOENT from open, stat, create or mkdir
    | IsDirectory(path: string)          // os.Create on a directory
    | NotDirectory(path: string)         // os.MkdirAll meets a regular file
    | Fault(op: Op, path: string)        // any other I/O failure
    | NotGzip                            // "not a gzip file"
    | CorruptArchive(path: string)       // gzip.NewReader rejects the header
    | UnsupportedDatabase(dbType: string)
    | UnsupportedStorage(storageType: string)
    | ToolFailed(tool: string)           // an external process exited non-zero
    | RemoteFailed(operation: string)    // an object-store request failed
    | SdkConfigFailed                    // the object-store client could not be configured

  /** A Go `(T, error)` pair: `Ok(v)` is `(v, nil)`, `Err(e)` is `(zero, e)`. */
  datatype Result<+T> = Ok(value: T) | Err(error: Error)

  /** A configuration value as the YAML loader hands it over: the adapters
      assert `string` for most settings and `int` for ports. */
  datatype Value = Text(text: string) | Number(number: int)

  /** `core.Config`: one database's settings. */
  type Config = map<string, Value>

  /** `config[key].(string)` succeeds. */
  predicate HasText(config: Config, key: string)
  {
    key in config && config[key].Text?
  }

  /** `config[key].(int)` succeeds. */
  predicate HasNumber(config: Config, key: string)
  {
    key in config && config[key].Number?
  }
}
