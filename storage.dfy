/** The file system the per-file handler reads from and writes to: a map from
    path to bytes and a set of directories. `refused` stands for the paths
    where the environment makes a directory creation or a write fail before
    anything changes (permissions). */
module Storage {
  import opened Types

  datatype Disk = Disk(files: map<string, Bytes>, dirs: set<string>, refused: set<string>)

  /** `dir` and every directory above it, as created by a recursive `mkdir`:
      each prefix of `dir` that ends just before a `/`, and `dir` itself. */
  function Ancestors(dir: string): (r: set<string>)
    ensures dir != "" ==> dir in r
    ensures forall i :: 0 < i < |dir| && dir[i] == '/' ==> dir[..i] in r
    ensures forall a :: a in r ==> a != "" && a <= dir
    ensures forall a :: a in r ==> a == dir || (|a| < |dir| && dir[|a|] == '/')
  {
    var r := set i | 0 < i <= |dir| && (i == |dir| || dir[i] == '/') :: dir[..i];
    assert dir[..|dir|] == dir;
    assert dir != "" ==> dir[..|dir|] in r;
    r
  }

  /** `readFile`: the bytes stored at `path`, or an error when there are none. */
  function Read(d: Disk, path: string): Result<Bytes>
  {
    if path in d.files then Ok(d.files[path]) else Err(ReadFailed(path))
  }

  /** `mkdir(dir, { recursive: true })`: creates `dir` and its parents,
      tolerating those that exist already. */
  function MakeDirectory(d: Disk, dir: string): Result<Disk>
  {
    if dir in d.refused then Err(MkdirFailed(dir)) else Ok(d.(dirs := d.dirs + Ancestors(dir)))
  }

  /** `writeFile(path, data)`: stores `data` at `path`, replacing what was there. */
  function Write(d: Disk, path: string, data: Bytes): Result<Disk>
  {
    if path in d.refused then Err(WriteFailed(path)) else Ok(d.(files := d.files[path := data]))
  }

  /** Creating a directory twice is the same as creating it once. */
  lemma MakeDirectoryIdempotent(d: Disk, dir: string)
    requires MakeDirectory(d, dir).Ok?
    ensures MakeDirectory(MakeDirectory(d, dir).value, dir) == MakeDirectory(d, dir)
  {
    var d1 := MakeDirectory(d, dir).value;
    assert d1.dirs + Ancestors(dir) == d1.dirs;
  }

  /** The file system the handler works on, updated in place. */
  class FileStore {
    var files: map<string, Bytes>
    var dirs: set<string>
    var refused: set<string>

    /** The current state as a value. */
    function State(): Disk
      reads this
    {
      Disk(files, dirs, refused)
    }

    constructor (d: Disk)
      ensures State() == d
    {
      files, dirs, refused := d.files, d.dirs, d.refused;
    }

    method ReadFile(path: string) returns (r: Result<Bytes>)
      ensures r == Read(State(), path)
    {
      if path in files {
        r := Ok(files[path]);
      } else {
        r := Err(ReadFailed(path));
      }
    }

    method MkdirRecursive(dir: string) returns (r: Result<()>)
      modifies this
      ensures MakeDirectory(old(State()), dir).Ok? ==> r.Ok? && State() == MakeDirectory(old(State()), dir).value
      ensures MakeDirectory(old(State()), dir).Err? ==> r == Err(MakeDirectory(old(State()), dir).error) && State() == old(State())
    {
      if dir in refused {
        r := Err(MkdirFailed(dir));
      } else {
        dirs := dirs + Ancestors(dir);
        r := Ok(());
      }
    }

    method WriteFile(path: string, data: Bytes) returns (r: Result<()>)
      modifies this
      ensures Write(old(State()), path, data).Ok? ==> r.Ok? && State() == Write(old(State()), path, data).value
      ensures Write(old(State()), path, data).Err? ==> r == Err(Write(old(State()), path, data).error) && State() == old(State())
    {
      if path in refused {
        r := Err(WriteFailed(path));
      } else {
        files := files[path := data];
        r := Ok(());
      }
    }
  }
}
