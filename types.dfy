/** Values exchanged between the batch entry point, the per-file handler and
    the in-memory entry point, and the external collaborators they call. */
module Types {

  /** File contents: an opaque sequence of bytes. */
  type Bytes = seq<bv8>

  datatype Option<+T> = None | Some(value: T)

  datatype Result<+T> = Ok(value: T) | Err(error: Error)

  /** Everything the core can throw. The two file-system failures and the
      rejection of a plugin or of the glob service carry the context they
      arise in. */
  datatype Error =
    | InputNotArray(typeName: string)   // `Expected an Array, got ...`
    | NotABuffer(typeName: string)      // `Expected a Buffer, got ...`
    | PluginsNotArray                   // `The plugins option should be an Array`
    | PluginsIsNull                     // reading `.length` of `null`
    | PluginsNotIterable                // spreading a non-iterable into the pipe
    | ExcludeFilesNotArray              // `excludeFiles.some` is not a function
    | ReadFailed(path: string)
    | MkdirFailed(path: string)
    | WriteFailed(path: string)
    | GlobFailed(reason: string)
    | PluginRejected(reason: string)
    | HandlingFile(cause: Error)        // any error leaving the per-file `try`, message rewritten

  /** A plugin is an asynchronous byte transformer; its rejection is an `Err`. */
  type Plugin = Bytes -> Result<Bytes>

  /** The `plugins` option, as JavaScript can pass it. The falsy values other
      than `undefined` are told apart because the code reads `.length` of them. */
  datatype PluginsOption =
    | Undefined                         // not given: defaults to `[]`
    | PluginArray(plugins: seq<Plugin>)
    | Null
    | EmptyString                       // `""`: falsy, `.length` is 0
    | OtherFalsy                        // `false`, `0`, `NaN`: `.length` is undefined
    | TruthyNonArray                    // any other value that is not an array

  /** The `excludeFiles` option: absent or falsy, an array of substrings, or
      some other truthy value (which has no `.some`). */
  datatype ExcludeOption = NoExclusions | ExcludeList(entries: seq<string>) | ExcludeNotArray

  /** Options of the batch entry point. `glob` defaults to true; `destination`
      is falsy when `None` or the empty string. */
  datatype Options = Options(
    glob: bool,
    excludeFiles: ExcludeOption,
    destination: Option<string>,
    plugins: PluginsOption)

  /** The `input` argument: an array of path patterns or anything else. */
  datatype InputValue = InputArray(patterns: seq<string>) | NotAnArray(typeName: string)

  /** The argument of the in-memory entry point: a Buffer or anything else. */
  datatype BufferValue = Buffer(bytes: Bytes) | NotBuffer(typeName: string)

  /** The record returned for each processed file. */
  datatype FileRecord = FileRecord(data: Bytes, sourcePath: string, destinationPath: Option<string>)

  /** The foreign libraries the batch entry point relies on, whose source is
      not part of this model: path separator conversion, glob expansion, the
      junk-basename test and the content sniffer. */
  datatype Services = Services(
    toUnixPath: string -> string,
    globby: seq<string> -> Result<seq<string>>,
    isJunk: string -> bool,
    sniffExt: Bytes -> Option<string>)

  /** JavaScript truthiness of the `destination` option. */
  predicate IsTruthy(destination: Option<string>)
  {
    destination.Some? && destination.value != ""
  }
}
