/** The per-file handler `handleFile` of index.mjs: check the `plugins`
    option, read the file, run the pipeline, decide the format and the
    destination path, and write the result when there is a destination. */
module FileHandling {
  import opened Types
  import opened Paths
  import opened Pipeline
  import opened Storage

  /** The extension the output is taken to have: the one sniffed from its
      bytes, or else the source path's own extension, leading dot included. */
  function ResolveExt(sniffed: Option<string>, sourcePath: string): (r: string)
    ensures sniffed.Some? ==> r == sniffed.value
    ensures sniffed.None? ==> r == Extname(sourcePath)
    ensures sniffed.None? ==> r == "" || r[0] == '.'
    ensures sniffed.None? ==> r != "webp"
  {
    match sniffed
    case Some(ext) => ext
    case None =>
      ExtnameStartsWithDot(sourcePath);
      Extname(sourcePath)
  }

  /** Where the output goes: nowhere when `destination` is falsy, otherwise the
      source's last segment under `destination`, renamed to `.webp` when the
      sniffed extension is exactly `webp`. A path, when there is one, is never
      empty, so the handler's `!destinationPath` test means "no destination". */
  function DestinationPath(destination: Option<string>, sourcePath: string, ext: string): (r: Option<string>)
    ensures r.Some? <==> IsTruthy(destination)
    ensures r.Some? ==> r.value != ""
  {
    var joined :=
      if IsTruthy(destination) then
        (BasenameIsLastSegment(sourcePath);
         JoinBasename(destination.value, Basename(sourcePath));
         Some(Join(destination.value, Basename(sourcePath))))
      else None;
    if ext == "webp" then
      match joined
      case None => None
      case Some(p) => Some(ReplaceExt(p, ".webp"))
    else joined
  }

  /** One call of the handler: its outcome and the file system afterwards.
      The write is skipped when the destination path is absent or empty. */
  function ProcessFile(d: Disk, sourcePath: string, opts: Options, sniff: Bytes -> Option<string>)
    : (r: (Result<FileRecord>, Disk))
    ensures r.1.refused == d.refused && d.dirs <= r.1.dirs
    ensures r.0.Err? ==> r.1.files == d.files
    ensures r.0.Ok? ==> r.0.value.sourcePath == sourcePath && sourcePath in d.files
  {
    if ShapeError(opts.plugins).Some? then (Err(ShapeError(opts.plugins).value), d)
    else
      match Read(d, sourcePath)
      case Err(e) => (Err(e), d)
      case Ok(raw) =>
        match TransformFileData(opts.plugins, raw)
        case Err(e) => (Err(e), d)
        case Ok(data) =>
          var destinationPath := DestinationPath(opts.destination, sourcePath, ResolveExt(sniff(data), sourcePath));
          var record := FileRecord(data, sourcePath, destinationPath);
          if destinationPath.None? || destinationPath.value == "" then (Ok(record), d)
          else
            match MakeDirectory(d, Dirname(destinationPath.value))
            case Err(e) => (Err(e), d)
            case Ok(d1) =>
              match Write(d1, destinationPath.value, data)
              case Err(e) => (Err(e), d1)
              case Ok(d2) => (Ok(record), d2)
  }

  /** `handleFile`, step by step on the file store. */
  method HandleFile(store: FileStore, sourcePath: string, opts: Options, sniff: Bytes -> Option<string>)
    returns (r: Result<FileRecord>)
    modifies store
    ensures (r, store.State()) == ProcessFile(old(store.State()), sourcePath, opts, sniff)
  {
    if opts.plugins.TruthyNonArray? {
      return Err(PluginsNotArray);
    }
    var read := store.ReadFile(sourcePath);
    if read.Err? {
      return Err(read.error);
    }
    var data := read.value;
    var transformed := TransformFileData(opts.plugins, data);
    if transformed.Err? {
      return Err(transformed.error);
    }
    data := transformed.value;

    var ext := ResolveExt(sniff(data), sourcePath);
    var destinationPath: Option<string> := None;
    if IsTruthy(opts.destination) {
      destinationPath := Some(Join(opts.destination.value, Basename(sourcePath)));
    }
    if ext == "webp" && destinationPath.Some? {
      destinationPath := Some(ReplaceExt(destinationPath.value, ".webp"));
    }
    assert destinationPath == DestinationPath(opts.destination, sourcePath, ext);
    var record := FileRecord(data, sourcePath, destinationPath);
    ghost var d0 := store.State();
    assert ProcessFile(d0, sourcePath, opts, sniff)
        == if destinationPath.None? || destinationPath.value == "" then (Ok(record), d0)
           else match MakeDirectory(d0, Dirname(destinationPath.value))
             case Err(e) => (Err(e), d0)
             case Ok(d1) =>
               match Write(d1, destinationPath.value, data)
               case Err(e) => (Err(e), d1)
               case Ok(d2) => (Ok(record), d2);
    if destinationPath.None? || destinationPath.value == "" {
      return Ok(record);
    }

    var made := store.MkdirRecursive(Dirname(destinationPath.value));
    if made.Err? {
      return Err(made.error);
    }
    var written := store.WriteFile(destinationPath.value, data);
    if written.Err? {
      return Err(written.error);
    }
    return Ok(record);
  }

  /** An extension taken from a path is empty or starts with a dot. */
  lemma ExtnameStartsWithDot(p: string)
    ensures Extname(p) == "" || Extname(p)[0] == '.'
  {
    BasenameIsLastSegment(p);
    StemThenExtname(Basename(p));
    ExtnameOfBasename(p);
  }

  /** The webp rule: under a truthy destination the output keeps the source's
      last segment, except that a sniffed `webp` renames its extension to
      `.webp`; the original extension never matters. */
  lemma WebpRename(destination: string, sourcePath: string, sniffed: Option<string>)
    requires destination != ""
    ensures var p := DestinationPath(Some(destination), sourcePath, ResolveExt(sniffed, sourcePath));
      p.Some? &&
      (sniffed == Some("webp") ==>
         p.value == ReplaceExt(Join(destination, Basename(sourcePath)), ".webp") &&
         Basename(p.value) == Stem(Basename(sourcePath)) + ".webp") &&
      (sniffed != Some("webp") ==>
         p.value == Join(destination, Basename(sourcePath)) &&
         Basename(p.value) == Basename(sourcePath))
  {
    if sniffed == Some("webp") {
      WebpCase(destination, sourcePath);
    } else {
      KeepCase(destination, sourcePath, ResolveExt(sniffed, sourcePath));
    }
  }

  /** A sniffed `webp` renames the joined path to the stem plus `.webp`. */
  lemma WebpCase(destination: string, sourcePath: string)
    requires destination != ""
    ensures DestinationPath(Some(destination), sourcePath, "webp")
         == Some(ReplaceExt(Join(destination, Basename(sourcePath)), ".webp"))
    ensures Basename(ReplaceExt(Join(destination, Basename(sourcePath)), ".webp"))
         == Stem(Basename(sourcePath)) + ".webp"
  {
    var webp := ".webp";
    assert Lacks(webp, '/');
    RenameUnder(destination, sourcePath, webp);
  }

  /** Under a destination, replacing the extension of the joined path gives
      the source's stem followed by the new extension. */
  lemma RenameUnder(destination: string, sourcePath: string, ext: string)
    requires destination != "" && Lacks(ext, '/')
    ensures Basename(ReplaceExt(Join(destination, Basename(sourcePath)), ext)) == Stem(Basename(sourcePath)) + ext
  {
    var base := Basename(sourcePath);
    BasenameIsLastSegment(sourcePath);
    JoinBasename(destination, base);
    BasenameOfReplaceExt(Join(destination, base), ext);
  }

  /** Any other extension keeps the source's last segment under the destination. */
  lemma KeepCase(destination: string, sourcePath: string, ext: string)
    requires destination != "" && ext != "webp"
    ensures DestinationPath(Some(destination), sourcePath, ext)
         == Some(Join(destination, Basename(sourcePath)))
    ensures Basename(Join(destination, Basename(sourcePath))) == Basename(sourcePath)
  {
    BasenameIsLastSegment(sourcePath);
    JoinBasename(destination, Basename(sourcePath));
  }

  /** The record of a successful call: the source path, the bytes read and
      transformed by the plugins, and a destination exactly when the
      `destination` option is truthy. */
  lemma RecordOfProcessedFile(d: Disk, sourcePath: string, opts: Options, sniff: Bytes -> Option<string>)
    requires ProcessFile(d, sourcePath, opts, sniff).0.Ok?
    ensures var rec := ProcessFile(d, sourcePath, opts, sniff).0.value;
      rec.sourcePath == sourcePath &&
      sourcePath in d.files &&
      TransformFileData(opts.plugins, d.files[sourcePath]) == Ok(rec.data) &&
      (rec.destinationPath.Some? <==> IsTruthy(opts.destination)) &&
      rec.destinationPath == DestinationPath(opts.destination, sourcePath, ResolveExt(sniff(rec.data), sourcePath))
  {
  }

  /** The file system changes exactly when the record has a destination: the
      record's bytes are stored at its destination path and the directory
      holding it exists; with no destination nothing changes. */
  lemma WriteIffDestination(d: Disk, sourcePath: string, opts: Options, sniff: Bytes -> Option<string>)
    requires ProcessFile(d, sourcePath, opts, sniff).0.Ok?
    ensures var (r, d') := ProcessFile(d, sourcePath, opts, sniff);
      (r.value.destinationPath.None? ==> d' == d) &&
      (r.value.destinationPath.Some? ==>
         d'.files == d.files[r.value.destinationPath.value := r.value.data] &&
         d'.dirs == d.dirs + Ancestors(Dirname(r.value.destinationPath.value)) &&
         d'.refused == d.refused)
  {
    RecordOfProcessedFile(d, sourcePath, opts, sniff);
  }

  /** A truthy non-array `plugins` fails the call before the file is read,
      whether or not the file exists, and changes nothing. */
  lemma PluginsShapeCheckedFirst(d: Disk, sourcePath: string, opts: Options, sniff: Bytes -> Option<string>)
    requires opts.plugins.TruthyNonArray?
    ensures ProcessFile(d, sourcePath, opts, sniff) == (Err(PluginsNotArray), d)
  {
  }
}
