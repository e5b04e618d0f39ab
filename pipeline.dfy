/** The plugin pipeline: plugins composed left to right (`p-pipe`), the way
    the per-file handler dispatches on the `plugins` option, and the
    in-memory entry point `imageminimize.buffer`. */
module Pipeline {
  import opened Types

  /** The plugins applied in order, each to the output of the one before;
      the first rejection ends the pipeline, so a pipeline fails only with an
      error one of its plugins returned. */
  function Pipe(plugins: seq<Plugin>, data: Bytes): (r: Result<Bytes>)
    ensures r.Err? ==> exists i, input :: 0 <= i < |plugins| && plugins[i](input) == r
    decreases |plugins|
  {
    if plugins == [] then Ok(data)
    else match plugins[0](data)
      case Err(e) =>
        assert plugins[0](data) == Err(e);
        Err(e)
      case Ok(next) =>
        var rest := Pipe(plugins[1..], next);
        assert rest.Err? ==> exists i, input :: 0 <= i < |plugins| && plugins[i](input) == rest by {
          if rest.Err? {
            var i, input :| 0 <= i < |plugins[1..]| && plugins[1..][i](input) == rest;
            assert plugins[i + 1](input) == rest;
          }
        }
        rest
  }

  /** Feeds a result on to more plugins, passing an error through. */
  function Then(r: Result<Bytes>, plugins: seq<Plugin>): Result<Bytes>
  {
    match r
    case Err(e) => Err(e)
    case Ok(data) => Pipe(plugins, data)
  }

  /** An empty pipeline returns its input unchanged. */
  lemma PipeEmptyIsIdentity(data: Bytes)
    ensures Pipe([], data) == Ok(data)
  {
  }

  /** Running two pipelines one after the other is running their
      concatenation: the composition is sequential and associative. */
  lemma {:induction false} PipeAppend(first: seq<Plugin>, second: seq<Plugin>, data: Bytes)
    ensures Pipe(first + second, data) == Then(Pipe(first, data), second)
    decreases |first|
  {
    if first == [] {
      assert first + second == second;
    } else {
      assert (first + second)[1..] == first[1..] + second;
      match first[0](data)
      case Err(e) =>
      case Ok(next) => PipeAppend(first[1..], second, next);
    }
  }

  /** Left to right: the last plugin is applied to what all the others produced. */
  lemma LastPluginRunsLast(plugins: seq<Plugin>, last: Plugin, data: Bytes)
    ensures Pipe(plugins + [last], data)
         == match Pipe(plugins, data)
            case Err(e) => Err(e)
            case Ok(out) => last(out)
  {
    PipeAppend(plugins, [last], data);
    match Pipe(plugins, data)
    case Err(e) =>
    case Ok(out) =>
      assert Pipe([last], out) == match last(out) case Err(e) => Err(e) case Ok(o) => Pipe([], o);
  }

  /** The `plugins` option is rejected before the file is read when it is
      truthy and not an array. */
  function ShapeError(plugins: PluginsOption): Option<Error>
  {
    if plugins.TruthyNonArray? then Some(PluginsNotArray) else None
  }

  /** What the per-file handler makes of the bytes it read: the pipeline when
      `plugins.length > 0`, the bytes themselves otherwise, and an error when
      `plugins` is `null`. */
  function TransformFileData(plugins: PluginsOption, data: Bytes): (r: Result<Bytes>)
    ensures plugins.PluginArray? ==> r == Pipe(plugins.plugins, data)
    ensures plugins.Undefined? || plugins.EmptyString? || plugins.OtherFalsy? ==> r == Ok(data)
    ensures r.Err? ==> plugins.Null? || plugins.TruthyNonArray? || (plugins.PluginArray? && Pipe(plugins.plugins, data) == r)
  {
    match plugins
    case Undefined => Ok(data)
    case PluginArray(ps) => if |ps| > 0 then Pipe(ps, data) else Ok(data)
    case Null => Err(PluginsIsNull)
    case EmptyString => Ok(data)
    case OtherFalsy => Ok(data)
    case TruthyNonArray => Err(PluginsNotArray)
  }

  /** The in-memory entry point: a non-Buffer is refused, no plugins returns
      the input, otherwise the input runs through the pipeline. */
  function MinimizeBuffer(input: BufferValue, plugins: PluginsOption): (r: Result<Bytes>)
    ensures input.NotBuffer? ==> r == Err(NotABuffer(input.typeName))
    ensures r.Ok? ==> input.Buffer? && (plugins.Undefined? || plugins.PluginArray? || plugins.EmptyString?)
    ensures r.Ok? && plugins.PluginArray? ==> r == Pipe(plugins.plugins, input.bytes)
    ensures r.Ok? && !plugins.PluginArray? ==> r.value == input.bytes
  {
    match input
    case NotBuffer(t) => Err(NotABuffer(t))
    case Buffer(data) =>
      match plugins
      case Undefined => Ok(data)
      case PluginArray(ps) => if |ps| == 0 then Ok(data) else Pipe(ps, data)
      case Null => Err(PluginsIsNull)
      case EmptyString => Ok(data)
      case OtherFalsy => Err(PluginsNotIterable)
      case TruthyNonArray => Err(PluginsNotIterable)
  }

  /** With an array of plugins, or none given, the per-file handler and the
      in-memory entry point transform bytes identically, and both apply exactly
      the pipeline. */
  lemma BufferMatchesFileTransform(plugins: PluginsOption, data: Bytes)
    requires plugins.Undefined? || plugins.PluginArray?
    ensures MinimizeBuffer(Buffer(data), plugins) == TransformFileData(plugins, data)
    ensures TransformFileData(plugins, data)
         == Pipe(if plugins.PluginArray? then plugins.plugins else [], data)
  {
  }

  /** Zero plugins leave the bytes unchanged on both paths. */
  lemma NoPluginsIsIdentity(data: Bytes)
    ensures MinimizeBuffer(Buffer(data), PluginArray([])) == Ok(data)
    ensures MinimizeBuffer(Buffer(data), Undefined) == Ok(data)
    ensures TransformFileData(PluginArray([]), data) == Ok(data)
    ensures TransformFileData(Undefined, data) == Ok(data)
  {
  }

  /** The in-memory entry point refuses anything that is not a Buffer, before
      any plugin runs, whatever the plugins are. */
  lemma NonBufferRefused(t: string, plugins: PluginsOption)
    ensures MinimizeBuffer(NotBuffer(t), plugins) == Err(NotABuffer(t))
  {
  }
}
