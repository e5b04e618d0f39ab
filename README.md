# imageminimize, modelled in Dafny

`imageminimize` is a batch file-transformation pipeline with two entry points.

The batch entry point, `imageminimize(input, options)`, does the following:

1. It checks that `input` is an array.
2. It resolves the input to file paths, through a glob service or as given.
3. It walks those paths in order and skips junk basenames and excluded paths.
4. For each remaining file, `handleFile` does the per-file work:
   - it reads the file;
   - it runs the file's bytes through the plugins, left to right;
   - it sniffs the output's format;
   - it decides a destination path, renamed to `.webp` when the output sniffs as webp;
   - it writes the output there when a destination is configured.
5. It returns one record per handled file. The first error ends the batch.

The in-memory entry point, `imageminimize.buffer`, runs only the plugin pipeline over a Buffer.

The model is split into six modules:

- `Types` (types.dfy) holds the values passed in and out: options, records, errors and the external services.
- `Paths` (paths.dfy) holds the path helpers the code calls: `basename`, `extname`, `dirname`, `join` and `replace-ext`.
- `Pipeline` (pipeline.dfy) holds the plugin fold and the dispatch on the `plugins` option. It also holds the in-memory entry point.
- `Storage` (storage.dfy) holds the file system. It is a pure `Disk` value and a `FileStore` class whose `files` map and `dirs` set are updated in place.
- `FileHandling` (file_handling.dfy) holds `handleFile`. It is written two ways: the pure specification `ProcessFile`, and the imperative method `HandleFile` on a `FileStore`, proved equal to it.
- `Batch` (batch.dfy) holds `imageminimize`. It is written two ways: the pure specification `RunFiles`/`Minimize`, a left fold over the files, and the imperative loop `MinimizeFiles`, proved equal to it.

The external libraries are fields of the `Services` value and are left uninterpreted:

- `slash` becomes `toUnixPath`;
- `globby` becomes `globby`;
- `junk` becomes `isJunk`;
- `file-type` becomes `sniffExt`.

Plugins are functions from bytes to a `Result`.

Three behaviours of index.mjs that the model keeps:

- With `glob` off, the loop runs over the raw `input`, not over the slash-converted paths (index.mjs:60-63).
- The `plugins` shape is checked inside `handleFile`, once per handled file, not once per batch. So a batch that handles no file never reports it (`Batch.AllSkippedSucceeds`).
- The `catch` block rewrites the error's message and rethrows it (index.mjs:78-80). Glob failures and the input check are outside that `try`, so they are not rewrapped.

## Model

| member | source | states |
|---|---|---|
| Pipeline.PipeAppend | index.mjs:22 | running plugins `first + second` equals running `first`, then feeding its output (or its error) to `second`: composition is sequential, left to right |
| Pipeline.LastPluginRunsLast | index.mjs:22 | the last plugin receives the output of all the plugins before it, and an earlier rejection skips it |
| Pipeline.Pipe | index.mjs:22 | a pipeline fails only with an error that one of its plugins returned (the order of the fold is stated by `PipeAppend` and `LastPluginRunsLast`) |
| Pipeline.PipeEmptyIsIdentity | index.mjs:22 | an empty pipeline returns its input |
| Pipeline.TransformFileData | index.mjs:17-22 | with an array of plugins the handler's bytes are exactly the pipeline's output (the length test is only a shortcut); `undefined`, `""` and other falsy values leave them unchanged; it fails only for `null`, a truthy non-array or a failing pipeline |
| Pipeline.MinimizeBuffer | index.mjs:87-97 | a non-Buffer is refused; on success the input was a Buffer and `plugins` absent, an array or `""`, and the result is the pipeline's output for an array and the input otherwise |
| Pipeline.NoPluginsIsIdentity | index.mjs:92-94 | with an empty `plugins` array or none given, both the buffer entry point and the per-file handler return the bytes unchanged |
| Pipeline.BufferMatchesFileTransform | index.mjs:87-97 | for an array of plugins or none, the buffer entry point and the per-file handler transform bytes identically, and both apply exactly the pipeline |
| Pipeline.NonBufferRefused | index.mjs:88-90 | a non-Buffer input is refused with a TypeError, whatever the plugins are |
| Storage.Ancestors | index.mjs:43-45 | a recursive mkdir creates the directory itself and every prefix of it that ends before a `/`, and nothing else |
| Storage.MakeDirectoryIdempotent | index.mjs:43-45 | creating a directory recursively a second time changes nothing |
| Storage.FileStore.ReadFile | index.mjs:21 | reading returns the stored bytes, or a read error when the path holds no file |
| Storage.FileStore.MkdirRecursive | index.mjs:43-45 | on success the store gains the directory and its ancestors; on failure it is unchanged |
| Storage.FileStore.WriteFile | index.mjs:46 | on success the path now holds exactly the bytes; on failure the store is unchanged |
| Paths.JoinBasename | index.mjs:28 | joining a destination with a segment gives a non-empty path whose last segment is that segment |
| Paths.BasenameOfReplaceExt | index.mjs:31 | the last segment after the extension is replaced is the old stem followed by the new extension |
| FileHandling.HandleFile | index.mjs:16-49 | the step-by-step handler returns the record and leaves the file system exactly as `ProcessFile` specifies |
| FileHandling.PluginsShapeCheckedFirst | index.mjs:17-19 | a truthy non-array `plugins` fails the call with a TypeError before the file is read, and nothing changes |
| FileHandling.RecordOfProcessedFile | index.mjs:21-37 | a successful call's record carries the source path and the stored bytes after the plugins. It has a destination path exactly when `destination` is truthy, and that path is the one computed from the sniffed or fallback extension |
| FileHandling.ResolveExt | index.mjs:24-26 | the sniffed extension when there is one; otherwise `Extname` of the source path, which is empty or starts with a dot and so never triggers the webp rename |
| FileHandling.ExtnameStartsWithDot | index.mjs:25 | an extension taken from a path is empty or starts with a dot |
| FileHandling.DestinationPath | index.mjs:27-31 | a destination path is defined exactly when `destination` is truthy, and is never empty. So the `!destinationPath` test means "no destination" |
| FileHandling.WebpRename | index.mjs:30-31 | with a destination, the path is the source's last segment under it. When the sniffed extension is exactly `webp`, it is renamed to the stem plus `.webp`; otherwise the name is kept |
| FileHandling.WriteIffDestination | index.mjs:39-48 | on success with no destination nothing changes. With one, exactly the record's bytes are stored at its destination path and the parent directory is created |
| FileHandling.ProcessFile | index.mjs:16-49 | one call of the handler never removes a directory or changes the refused paths; a failed call stores no file; a successful one returns a record for the source path, which held a file |
| Batch.Includes | index.mjs:103 | the search is true exactly when the entry occurs somewhere in the path (the empty entry always does) |
| Batch.SomeIncluded | index.mjs:103 | true exactly when some entry occurs in the path |
| Batch.IsFileToExclude | index.mjs:99-104 | a falsy option excludes nothing. An array excludes exactly the paths containing one of its entries as a substring. Any other value is a TypeError |
| Batch.FilePaths | index.mjs:60-63 | with `glob` on, the files are the glob service's output for the slash-converted patterns; with `glob` off, the input patterns themselves |
| Batch.Step | index.mjs:67-82 | one turn of the loop: after an error it changes nothing; on success it appends at most one record to the earlier ones; an error it raises is wrapped; it never removes a directory |
| Batch.RunFiles | index.mjs:65-84 | the loop over the files: on success at most one record per file; the refused paths are unchanged and no directory is removed |
| Batch.Minimize | index.mjs:51-85 | the whole batch succeeds only for an array input; the refused paths are unchanged and no directory is removed |
| Batch.KeptFilesSubsequence | index.mjs:67-76 | the files reaching the handler are a subsequence of the resolved files: exactly those neither junk nor excluded, in order, each as many times as it occurs in the resolved list |
| Batch.RecordsFollowKeptFiles | index.mjs:65-84 | on success there is one record per kept file, in order, and the i-th record's source path is the i-th kept file |
| Batch.ErrorIsFinal | index.mjs:72-81 | once a file has failed, later files change neither the outcome nor the file system: fail-fast, no partial result |
| Batch.LoopErrorsAreWrapped | index.mjs:67-81 | every error leaving the loop is wrapped, and its cause is the error of the first file that failed. The loop reached that file with no error and the file was not junk. Either the exclusion check raised the cause, or the file was not excluded and the handler failed with it |
| Batch.WritesMatchRecords | index.mjs:65-84 | on success the stored files are the original ones with each record that has a destination written there, in order |
| Batch.DestinationsFollowOption | index.mjs:27-29 | on success every record has a destination path exactly when `destination` is truthy |
| Batch.AllSkippedSucceeds | index.mjs:17-19 | when every file is junk or excluded the batch returns no records and changes nothing, even with a malformed `plugins` option |
| Batch.NonArrayInputRefused | index.mjs:56-58 | a non-array input is refused with a TypeError whatever the services are, so nothing is globbed or read |
| Batch.GlobOffUsesRawInput | index.mjs:60-63 | with `glob` off the loop runs over the raw input. On success the records' source paths are its kept entries, unconverted |
| Batch.GlobOnUsesServiceOutput | index.mjs:60-63 | with `glob` on the loop runs over the glob service's output for the slash-converted patterns, and a glob failure passes through unwrapped |
| Batch.HandleNext | index.mjs:67-81 | one turn of the loop on the file store returns the outcome and leaves the file system exactly as `Step` specifies |
| Batch.MinimizeFiles | index.mjs:51-85 | the loop returns the outcome and leaves the file system exactly as `Minimize` specifies |

## Left out

- The foreign libraries `globby`, `junk`, `file-type` and `slash` are uninterpreted functions in `Services`. Only the way the code uses their results is modelled.
- `replace-ext` is modelled as "drop the extension, append the new one". `replaceExt(undefined, …)` is taken to return `undefined`, so a missing destination stays missing. Its `./` prefix for paths starting with a single dot is not modelled.
- Node's `path` functions are simplified. Only `/` separates segments, and `join` does no normalisation (`..`, repeated separators). `extname` drops the extension only when there is no dot or when the dot is the first character of the last segment. Trailing separators are not stripped, so `Basename("a/")` is `""` where Node gives `"a"`. `Extname("..")` is `"."` where Node gives `""`. Windows separators are not modelled.
- Failed writes and directory creations are modelled as atomic: a failure changes nothing. Node's `writeFile` truncates the target before writing, so an error part-way through (a full disk) leaves an empty or partial file. A recursive `mkdir` can create some parents before it fails. `Storage.Write`, `Storage.MakeDirectory` and the `WriteFile`, `MkdirRecursive` and `ProcessFile` contracts do not cover these partial effects.
- The options argument is always an object here. In the source it defaults to `{}` only when it is `undefined` (index.mjs:53, index.mjs:87), so `imageminimize(input, null)` and `imageminimize.buffer(buf, null)` throw a destructuring TypeError before the input or Buffer check. `Options` and `MinimizeBuffer`'s `plugins` parameter cannot express a null or non-object options argument.
- A `destination` that is not a string is not modelled. `destination` is either absent or a string, and the empty string is falsy.
- File-system I/O is a map from path to bytes plus a set of directories. A read fails exactly when the path holds no file. Directory creation and writes fail exactly on the paths in `refused`, which stands for errors raised before anything changes, such as permission errors. Retry behaviour (graceful-fs) is not modelled.
- Promise and async mechanics are not modelled. Processing is sequential, so it is modelled as ordinary sequential code that returns a `Result`.
- The rewritten error message at index.mjs:79 is not modelled. It is built from `input` and the error's stack, and it is reduced to the `HandlingFile(cause)` wrapper.
- Pipeline.MinimizeBuffer: "returns the same Buffer object" is modelled as returning an equal value. Dafny sequences have no identity.
- Pipeline.MinimizeBuffer: a truthy non-array `plugins` is modelled as a TypeError. In the real code, a value with `length === 0` would return the input, and an iterable of functions (for example a `Set`) would be spread into the pipe.
- Plugin rejections are assumed to be Error objects. index.mjs is an ES module, so it runs in strict mode. If a plugin rejects with a string or a number, the message assignment at index.mjs:79 throws a new TypeError. If it rejects with `undefined` or `null`, reading `error.stack` throws. The model always wraps the plugin's own error in `HandlingFile`.
- Every `input` element is assumed to be a string, and `glob` is a boolean rather than any truthy value. `input.map(convertToUnixPath)` at index.mjs:60 runs even when `glob` is off, and on a non-string element it throws before the loop starts.
- Plugins are assumed to be functions. An array element that is not a function, or an array with holes, is not modelled.
- Batch.IsFileToExclude: the entries of `excludeFiles` are assumed to be strings. `includes` with a non-string argument (a RegExp) is not modelled.
- Junk classification cannot throw in the model. It is outside the `try` in the source, so an exception from it would not be rewrapped.
