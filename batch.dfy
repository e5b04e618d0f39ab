/** The batch entry point `imageminimize` of index.mjs: validate the input,
    resolve the file list, and handle the files one by one, skipping junk and
    excluded ones, stopping at the first error. */
module Batch {
  import opened Types
  import opened Paths
  import opened Storage
  import opened FileHandling

  /** `sub` occurs somewhere in `s`. */
  ghost predicate IsSubstring(sub: string, s: string)
  {
    exists i :: 0 <= i <= |s| && sub <= s[i..]
  }

  /** `String.prototype.includes`: a search from each start position in turn. */
  function Includes(s: string, sub: string): (r: bool)
    ensures r <==> IsSubstring(sub, s)
    decreases |s|
  {
    if sub <= s then (assert s[0..] == s; true)
    else if s == [] then false
    else
      var r := Includes(s[1..], sub);
      assert forall i :: 1 <= i <= |s| ==> s[i..] == s[1..][i - 1..];
      assert r ==> IsSubstring(sub, s) by {
        if r {
          var j :| 0 <= j <= |s[1..]| && sub <= s[1..][j..];
          assert s[j + 1..] == s[1..][j..];
        }
      }
      r
  }

  /** `entries.some(e => file.includes(e))`. */
  function SomeIncluded(file: string, entries: seq<string>): (r: bool)
    ensures r <==> exists k :: 0 <= k < |entries| && IsSubstring(entries[k], file)
  {
    if entries == [] then false
    else
      Includes(file, entries[0]) || (
        var rest := SomeIncluded(file, entries[1..]);
        assert forall k :: 1 <= k < |entries| ==> entries[k] == entries[1..][k - 1];
        rest)
  }

  /** `isFiletoExclude`: no exclusions when the option is falsy, a substring
      test against each entry when it is an array, a TypeError otherwise. */
  function IsFileToExclude(file: string, excludeFiles: ExcludeOption): (r: Result<bool>)
    ensures excludeFiles.NoExclusions? ==> r == Ok(false)
    ensures excludeFiles.ExcludeNotArray? ==> r == Err(ExcludeFilesNotArray)
    ensures excludeFiles.ExcludeList? ==>
      r.Ok? && (r.value <==> exists k :: 0 <= k < |excludeFiles.entries| && IsSubstring(excludeFiles.entries[k], file))
  {
    match excludeFiles
    case NoExclusions => Ok(false)
    case ExcludeList(entries) => Ok(SomeIncluded(file, entries))
    case ExcludeNotArray => Err(ExcludeFilesNotArray)
  }

  /** The files the loop visits: the glob service's matches for the
      slash-converted patterns, or the input itself, unconverted, when `glob`
      is off. */
  function FilePaths(patterns: seq<string>, glob: bool, services: Services): (r: Result<seq<string>>)
    ensures !glob ==> r == Ok(patterns)
    ensures glob ==> r == services.globby(seq(|patterns|, i requires 0 <= i < |patterns| => services.toUnixPath(patterns[i])))
  {
    var unixPaths := seq(|patterns|, i requires 0 <= i < |patterns| => services.toUnixPath(patterns[i]));
    if glob then services.globby(unixPaths) else Ok(patterns)
  }

  /** A file the loop skips without handling it: a junk last segment, or an
      exclusion entry it contains. */
  predicate Skipped(file: string, opts: Options, services: Services)
  {
    services.isJunk(Basename(file)) || IsFileToExclude(file, opts.excludeFiles) == Ok(true)
  }

  /** The files that reach the handler, in order, when nothing fails. */
  function KeptFiles(files: seq<string>, opts: Options, services: Services): (kept: seq<string>)
    ensures |kept| <= |files|
  {
    if files == [] then []
    else
      var init := KeptFiles(files[..|files| - 1], opts, services);
      if Skipped(files[|files| - 1], opts, services) then init else init + [files[|files| - 1]]
  }

  /** One turn of the loop over `file`, after the earlier files left the
      outcome `r` and the file system `d`. */
  function Step(r: Result<seq<FileRecord>>, d: Disk, file: string, opts: Options, services: Services)
    : (next: (Result<seq<FileRecord>>, Disk))
    ensures r.Err? ==> next == (r, d)
    ensures next.0.Ok? ==> r.Ok? && r.value <= next.0.value && |next.0.value| <= |r.value| + 1
    ensures next.0.Err? && r.Ok? ==> next.0.error.HandlingFile?
    ensures next.1.refused == d.refused && d.dirs <= next.1.dirs
  {
    if r.Err? || services.isJunk(Basename(file)) then (r, d)
    else
      match IsFileToExclude(file, opts.excludeFiles)
      case Err(e) => (Err(HandlingFile(e)), d)
      case Ok(excluded) =>
        if excluded then (r, d)
        else
          var (handled, d') := ProcessFile(d, file, opts, services.sniffExt);
          match handled
          case Err(e) => (Err(HandlingFile(e)), d')
          case Ok(record) => (Ok(r.value + [record]), d')
  }

  /** The loop over `files` from the file system `d`: the outcome and the file
      system afterwards. Each file either is skipped, or is handled and its
      record appended; the first error, wrapped, ends the batch. */
  function RunFiles(files: seq<string>, d: Disk, opts: Options, services: Services)
    : (r: (Result<seq<FileRecord>>, Disk))
    ensures r.0.Ok? ==> |r.0.value| <= |files|
    ensures r.1.refused == d.refused && d.dirs <= r.1.dirs
  {
    if files == [] then (Ok([]), d)
    else
      var (r, d1) := RunFiles(files[..|files| - 1], d, opts, services);
      Step(r, d1, files[|files| - 1], opts, services)
  }

  /** The loop after `i + 1` files is one more turn after `i` files. */
  lemma RunFilesPrefix(files: seq<string>, i: nat, d: Disk, opts: Options, services: Services)
    requires i < |files|
    ensures var (r, d1) := RunFiles(files[..i], d, opts, services);
      RunFiles(files[..i + 1], d, opts, services) == Step(r, d1, files[i], opts, services)
  {
    assert files[..i + 1][..i] == files[..i];
  }

  /** The whole batch: the input check comes before anything else, then the
      file list is resolved, then the loop runs. */
  function Minimize(input: InputValue, opts: Options, services: Services, d: Disk)
    : (r: (Result<seq<FileRecord>>, Disk))
    ensures r.0.Ok? ==> input.InputArray?
    ensures r.1.refused == d.refused && d.dirs <= r.1.dirs
  {
    match input
    case NotAnArray(t) => (Err(InputNotArray(t)), d)
    case InputArray(patterns) =>
      match FilePaths(patterns, opts.glob, services)
      case Err(e) => (Err(e), d)
      case Ok(files) => RunFiles(files, d, opts, services)
  }

  /** One turn of the loop over the file store: skip a junk or excluded
      file, otherwise handle it and append its record; an error is wrapped. */
  method HandleNext(store: FileStore, result: seq<FileRecord>, file: string, opts: Options, services: Services)
    returns (next: Result<seq<FileRecord>>)
    modifies store
    ensures (next, store.State()) == Step(Ok(result), old(store.State()), file, opts, services)
  {
    if services.isJunk(Basename(file)) {
      return Ok(result);
    }
    var excluded := IsFileToExclude(file, opts.excludeFiles);
    if excluded.Err? {
      return Err(HandlingFile(excluded.error));
    }
    if excluded.value {
      return Ok(result);
    }
    var handled := HandleFile(store, file, opts, services.sniffExt);
    if handled.Err? {
      return Err(HandlingFile(handled.error));
    }
    return Ok(result + [handled.value]);
  }

  /** `imageminimize`, a loop over the file store. */
  method MinimizeFiles(store: FileStore, input: InputValue, opts: Options, services: Services)
    returns (r: Result<seq<FileRecord>>)
    modifies store
    ensures (r, store.State()) == Minimize(input, opts, services, old(store.State()))
  {
    if input.NotAnArray? {
      return Err(InputNotArray(input.typeName));
    }
    var filePaths := FilePaths(input.patterns, opts.glob, services);
    if filePaths.Err? {
      return Err(filePaths.error);
    }
    var files := filePaths.value;
    ghost var d0 := store.State();
    var result: seq<FileRecord> := [];
    for i := 0 to |files|
      invariant RunFiles(files[..i], d0, opts, services) == (Ok(result), store.State())
    {
      RunFilesPrefix(files, i, d0, opts, services);
      var next := HandleNext(store, result, files[i], opts, services);
      if next.Err? {
        ErrorIsFinal(files, i + 1, d0, opts, services);
        return next;
      }
      result := next.value;
    }
    assert files[..|files|] == files;
    return Ok(result);
  }

  /** `sub` is `s` with some elements left out, the rest kept in order. */
  predicate IsSubsequence(sub: seq<string>, s: seq<string>)
    decreases |s|
  {
    if sub == [] then true
    else if s == [] then false
    else if sub[|sub| - 1] == s[|s| - 1] then IsSubsequence(sub[..|sub| - 1], s[..|s| - 1])
    else IsSubsequence(sub, s[..|s| - 1])
  }

  /** The kept files are a subsequence of the resolved files, all not skipped,
      and every file not skipped is kept, as often as it occurs. */
  lemma {:induction false} KeptFilesSubsequence(files: seq<string>, opts: Options, services: Services)
    ensures IsSubsequence(KeptFiles(files, opts, services), files)
    ensures forall f :: f in KeptFiles(files, opts, services) <==> f in files && !Skipped(f, opts, services)
    ensures forall f :: multiset(KeptFiles(files, opts, services))[f]
                       == if Skipped(f, opts, services) then 0 else multiset(files)[f]
    decreases |files|
  {
    if files != [] {
      var init := files[..|files| - 1];
      var last := files[|files| - 1];
      KeptFilesSubsequence(init, opts, services);
      assert files == init + [last];
      SubsequenceExtend(KeptFiles(init, opts, services), init, last);
      KeptFilesCountStep(init, last, opts, services);
    }
  }

  /** One more file adds one occurrence to the kept files exactly when it is
      not skipped. */
  lemma KeptFilesCountStep(init: seq<string>, last: string, opts: Options, services: Services)
    requires forall f :: multiset(KeptFiles(init, opts, services))[f]
                         == if Skipped(f, opts, services) then 0 else multiset(init)[f]
    ensures forall f :: multiset(KeptFiles(init + [last], opts, services))[f]
                        == if Skipped(f, opts, services) then 0 else multiset(init + [last])[f]
  {
    var files := init + [last];
    assert files[..|files| - 1] == init;
    var kept := KeptFiles(init, opts, services);
    assert multiset(files) == multiset(init) + multiset{last};
    if Skipped(last, opts, services) {
      assert KeptFiles(files, opts, services) == kept;
    } else {
      assert KeptFiles(files, opts, services) == kept + [last];
      assert multiset(kept + [last]) == multiset(kept) + multiset{last};
    }
  }

  /** A subsequence stays one when the same element is appended to both, or
      only to the longer one. */
  lemma SubsequenceExtend(sub: seq<string>, s: seq<string>, x: string)
    requires IsSubsequence(sub, s)
    ensures IsSubsequence(sub + [x], s + [x])
    ensures IsSubsequence(sub, s + [x])
  {
    assert (sub + [x])[..|sub|] == sub;
    assert (s + [x])[..|s|] == s;
    if sub != [] && sub[|sub| - 1] == x {
      SubsequenceDropLast(sub, s);
    }
  }

  /** Dropping the last element of a subsequence keeps it a subsequence. */
  lemma {:induction false} SubsequenceDropLast(sub: seq<string>, s: seq<string>)
    requires sub != [] && IsSubsequence(sub, s)
    ensures IsSubsequence(sub[..|sub| - 1], s)
    decreases |s|, 1
  {
    var init := sub[..|sub| - 1];
    if sub[|sub| - 1] == s[|s| - 1] {
      SubsequenceOfPrefix(init, s[..|s| - 1], s);
    } else {
      SubsequenceDropLast(sub, s[..|s| - 1]);
      SubsequenceOfPrefix(init, s[..|s| - 1], s);
    }
  }

  /** A subsequence of all but the last element is a subsequence of the whole. */
  lemma {:induction false} SubsequenceOfPrefix(sub: seq<string>, init: seq<string>, s: seq<string>)
    requires s != [] && init == s[..|s| - 1] && IsSubsequence(sub, init)
    ensures IsSubsequence(sub, s)
    decreases |s|, 0
  {
    if sub != [] && sub[|sub| - 1] == s[|s| - 1] {
      SubsequenceDropLast(sub, init);
    }
  }

  /** On success the records are one per kept file, in order, each carrying
      that file as its source path. */
  lemma {:induction false} RecordsFollowKeptFiles(files: seq<string>, d: Disk, opts: Options, services: Services)
    requires RunFiles(files, d, opts, services).0.Ok?
    ensures var records := RunFiles(files, d, opts, services).0.value;
      |records| == |KeptFiles(files, opts, services)| &&
      forall i :: 0 <= i < |records| ==> records[i].sourcePath == KeptFiles(files, opts, services)[i]
    decreases |files|
  {
    if files != [] {
      var init := files[..|files| - 1];
      var last := files[|files| - 1];
      var (r, d1) := RunFiles(init, d, opts, services);
      var kept := KeptFiles(init, opts, services);
      assert RunFiles(files, d, opts, services) == Step(r, d1, last, opts, services);
      RecordsFollowKeptFiles(init, d, opts, services);
      if Skipped(last, opts, services) {
        assert KeptFiles(files, opts, services) == kept;
      } else {
        assert KeptFiles(files, opts, services) == kept + [last];
        var rec := ProcessFile(d1, last, opts, services.sniffExt).0.value;
        assert RunFiles(files, d, opts, services).0.value == r.value + [rec];
      }
    }
  }

  /** Fail-fast: once the loop has failed, later files change neither the
      outcome nor the file system. */
  lemma {:induction false} ErrorIsFinal(files: seq<string>, n: nat, d: Disk, opts: Options, services: Services)
    requires n <= |files| && RunFiles(files[..n], d, opts, services).0.Err?
    ensures RunFiles(files, d, opts, services) == RunFiles(files[..n], d, opts, services)
    decreases |files|
  {
    if n < |files| {
      var init := files[..|files| - 1];
      assert init[..n] == files[..n];
      ErrorIsFinal(init, n, d, opts, services);
    } else {
      assert files[..n] == files;
    }
  }

  /** The loop reaches `files[n]` with no error, the file is not junk, and
      it fails with `e`: in the exclusion check, or in the handler. */
  predicate FailsAt(files: seq<string>, n: nat, d: Disk, opts: Options, services: Services, e: Error)
    requires n < |files|
  {
    var (r, d1) := RunFiles(files[..n], d, opts, services);
    r.Ok? && !services.isJunk(Basename(files[n])) &&
    (IsFileToExclude(files[n], opts.excludeFiles) == Err(e) ||
     (IsFileToExclude(files[n], opts.excludeFiles) == Ok(false) &&
      ProcessFile(d1, files[n], opts, services.sniffExt).0 == Err(e)))
  }

  /** Every error leaving the loop is the exclusion check's or the handler's
      error on the first file that failed, re-thrown with the batch's context. */
  lemma {:induction false} LoopErrorsAreWrapped(files: seq<string>, d: Disk, opts: Options, services: Services)
    requires RunFiles(files, d, opts, services).0.Err?
    ensures RunFiles(files, d, opts, services).0.error.HandlingFile?
    ensures exists n ::
              0 <= n < |files| && FailsAt(files, n, d, opts, services, RunFiles(files, d, opts, services).0.error.cause)
    decreases |files|
  {
    var init := files[..|files| - 1];
    var e := RunFiles(files, d, opts, services).0.error;
    if RunFiles(init, d, opts, services).0.Err? {
      LoopErrorsAreWrapped(init, d, opts, services);
      var n :| 0 <= n < |init| && FailsAt(init, n, d, opts, services, RunFiles(init, d, opts, services).0.error.cause);
      assert init[..n] == files[..n];
      assert FailsAt(files, n, d, opts, services, e.cause);
    } else {
      assert files[..|files| - 1] == init;
      assert FailsAt(files, |files| - 1, d, opts, services, e.cause);
    }
  }

  /** The files stored by a run of records: each record with a destination
      writes its bytes there, later writes replacing earlier ones. */
  function ApplyWrites(files: map<string, Bytes>, records: seq<FileRecord>): map<string, Bytes>
  {
    if records == [] then files
    else
      var before := ApplyWrites(files, records[..|records| - 1]);
      var last := records[|records| - 1];
      if last.destinationPath.Some? then before[last.destinationPath.value := last.data] else before
  }

  /** On success the stored files are exactly the original ones with every
      record that has a destination written to it, in order; the refused
      paths are untouched. */
  lemma {:induction false} WritesMatchRecords(files: seq<string>, d: Disk, opts: Options, services: Services)
    requires RunFiles(files, d, opts, services).0.Ok?
    ensures var (r, d') := RunFiles(files, d, opts, services);
      d'.files == ApplyWrites(d.files, r.value) && d'.refused == d.refused
    decreases |files|
  {
    if files != [] {
      var init := files[..|files| - 1];
      var last := files[|files| - 1];
      WritesMatchRecords(init, d, opts, services);
      var (r, d1) := RunFiles(init, d, opts, services);
      if !services.isJunk(Basename(last)) && IsFileToExclude(last, opts.excludeFiles) == Ok(false) {
        WriteIffDestination(d1, last, opts, services.sniffExt);
        var rec := ProcessFile(d1, last, opts, services.sniffExt).0.value;
        assert (r.value + [rec])[..|r.value|] == r.value;
      }
    }
  }

  /** On success every record has a destination path exactly when the
      `destination` option is truthy. */
  lemma {:induction false} DestinationsFollowOption(files: seq<string>, d: Disk, opts: Options, services: Services)
    requires RunFiles(files, d, opts, services).0.Ok?
    ensures var records := RunFiles(files, d, opts, services).0.value;
      forall i :: 0 <= i < |records| ==> (records[i].destinationPath.Some? <==> IsTruthy(opts.destination))
    decreases |files|
  {
    if files != [] {
      var init := files[..|files| - 1];
      var last := files[|files| - 1];
      DestinationsFollowOption(init, d, opts, services);
      var (r, d1) := RunFiles(init, d, opts, services);
      if !services.isJunk(Basename(last)) && IsFileToExclude(last, opts.excludeFiles) == Ok(false) {
        RecordOfProcessedFile(d1, last, opts, services.sniffExt);
      }
    }
  }

  /** When every file is skipped the batch succeeds with no records and
      changes nothing, even with a malformed `plugins` option: that option is
      only checked when a file is handled. */
  lemma {:induction false} AllSkippedSucceeds(files: seq<string>, d: Disk, opts: Options, services: Services)
    requires forall i :: 0 <= i < |files| ==> Skipped(files[i], opts, services)
    ensures RunFiles(files, d, opts, services) == (Ok([]), d)
    decreases |files|
  {
    if files != [] {
      AllSkippedSucceeds(files[..|files| - 1], d, opts, services);
    }
  }

  /** A non-array input is refused before the file list is resolved: the
      outcome does not depend on the services and the file system is untouched. */
  lemma NonArrayInputRefused(t: string, opts: Options, services: Services, d: Disk)
    ensures Minimize(NotAnArray(t), opts, services, d) == (Err(InputNotArray(t)), d)
  {
  }

  /** With `glob` off the loop runs over the raw input, unconverted: on success
      the records' source paths are the input's kept entries, in order. */
  lemma GlobOffUsesRawInput(patterns: seq<string>, opts: Options, services: Services, d: Disk)
    requires !opts.glob
    ensures Minimize(InputArray(patterns), opts, services, d) == RunFiles(patterns, d, opts, services)
    ensures Minimize(InputArray(patterns), opts, services, d).0.Ok? ==>
      var records := Minimize(InputArray(patterns), opts, services, d).0.value;
      |records| == |KeptFiles(patterns, opts, services)| &&
      forall i :: 0 <= i < |records| ==> records[i].sourcePath == KeptFiles(patterns, opts, services)[i]
  {
    if RunFiles(patterns, d, opts, services).0.Ok? {
      RecordsFollowKeptFiles(patterns, d, opts, services);
    }
  }

  /** With `glob` on the loop runs over what the glob service returns for the
      slash-converted patterns; a glob failure is passed on unwrapped. */
  lemma GlobOnUsesServiceOutput(patterns: seq<string>, opts: Options, services: Services, d: Disk)
    requires opts.glob
    ensures var globbed := services.globby(seq(|patterns|, i requires 0 <= i < |patterns| => services.toUnixPath(patterns[i])));
      Minimize(InputArray(patterns), opts, services, d)
        == if globbed.Err? then (Err(globbed.error), d) else RunFiles(globbed.value, d, opts, services)
  {
  }
}
