/**
 * File and folder orchestration of the fzp validator: `validateFile`,
 * `validateFolder` and the exit status `cliValidateAction` derives from them.
 *
 * Reading a file (`fzp.ReadFzp`) and listing a folder (`ioutil.ReadDir`) are
 * inputs: a `Files` function says what loading each path gives, and a
 * `Listing` is the folder's entry names or a listing failure.
 */
module Validator {
  import opened Checks
  import opened Ext
  import opened Decimal

  /** What `fzp.ReadFzp` gives for one path: a record, or a load error. */
  datatype Load = Loaded(rec: Fzp) | LoadFailed

  /** The file system as the validator sees it: what loading each path gives. */
  type Files = string -> Load

  /**
   * How validateFile ends: it returns nil (`Valid`) or an error (`Invalid`),
   * or a load failure stops the whole process with exit status 1 (`Halt`).
   */
  datatype FileResult = Valid | Invalid(err: string) | Halt

  /** What `ioutil.ReadDir` gives: the entry names in listing order, or an error. */
  datatype Listing = Entries(names: seq<string>) | ListFailed

  /**
   * How validateFolder ends: it returns its error list, or a file that cannot
   * be loaded stops the process after the errors gathered so far.
   */
  datatype FolderResult = Returned(errs: seq<string>) | Halted(errs: seq<string>, at: string)

  datatype Option<T> = None | Some(value: T)

  /** What an error returned by validateFile says: how many checks failed, and where. */
  datatype ErrorInfo = ErrorInfo(count: nat, path: string)

  const ErrorsAt: string := " Errors @ "

  /** The text of the error validateFile returns for `count` failed checks of `src`. */
  function ErrorText(count: nat, src: string): string {
    Itoa(count) + ErrorsAt + src
  }

  /**
   * Reads an error text back into its count and path; a count written with
   * a leading zero is not one `strconv.Itoa` writes, and is refused.
   */
  function ParseErrorText(msg: string): Option<ErrorInfo> {
    var k := DigitPrefix(msg);
    if k == 0 || (k > 1 && msg[0] == '0') then None
    else if |msg| < k + |ErrorsAt| || msg[k..k + |ErrorsAt|] != ErrorsAt then None
    else Some(ErrorInfo(Atoi(msg[..k]), msg[k + |ErrorsAt|..]))
  }

  /** The error text determines the count and the path it was made from. */
  lemma ErrorTextRoundTrip(count: nat, src: string)
    ensures ParseErrorText(ErrorText(count, src)) == Some(ErrorInfo(count, src))
  {
    var digits := Itoa(count);
    var msg := ErrorText(count, src);
    assert msg == digits + (ErrorsAt + src);
    DigitPrefixOfConcat(digits, ErrorsAt + src);
    assert msg[0] == digits[0];
    assert msg[..|digits|] == digits;
    assert msg[|digits|..|digits| + |ErrorsAt|] == ErrorsAt;
    assert msg[|digits| + |ErrorsAt|..] == src;
    AtoiItoa(count);
  }

  /** The number of failed checks checkData reports for `rec`. */
  function FailureCount(flags: Flags, rec: Fzp): nat {
    |Reported(flags, rec, Pipeline)|
  }

  /** Every check checkData runs under `flags` passes on `rec`. */
  predicate PassesChecks(flags: Flags, rec: Fzp) {
    forall c :: c in Pipeline && flags.Enabled(c) ==> c !in rec.failing
  }

  /**
   * What validateFile does with the file at `src` once `load` is known:
   * a load failure halts the run; otherwise the file is valid exactly when it
   * passes every enabled check, and an invalid file's error reads back as its
   * failure count (1 to 3) and its path.
   */
  function FileOutcome(flags: Flags, src: string, load: Load): (r: FileResult)
    ensures r == Halt <==> load.LoadFailed?
    ensures r == Valid <==> load.Loaded? && PassesChecks(flags, load.rec)
    ensures r.Invalid? ==>
      var n := FailureCount(flags, load.rec);
      1 <= n <= 3 && r.err == ErrorText(n, src) && ParseErrorText(r.err) == Some(ErrorInfo(n, src))
  {
    match load
    case LoadFailed => Halt
    case Loaded(rec) =>
      var n := FailureCount(flags, rec);
      NoFailuresIffEnabledChecksPass(flags, rec);
      if n == 0 then Valid
      else
        ErrorTextRoundTrip(n, src);
        Invalid(ErrorText(n, src))
  }

  /** validateFile: loads `src`, runs checkData and turns its count into a result. */
  method ValidateFile(flags: Flags, fs: Files, src: string) returns (r: FileResult)
    ensures r == FileOutcome(flags, src, fs(src))
  {
    var load := fs(src);
    if load.LoadFailed? {
      // a load failure ends the whole process with status 1
      return Halt;
    }
    var count, _ := CheckData(flags, load.rec);
    if count != 0 {
      return Invalid(Itoa(count) + ErrorsAt + src);
    }
    return Valid;
  }

  /** The path validateFolder builds for an entry of folder `src`. */
  function EntryPath(src: string, name: string): string {
    src + "/" + name
  }

  /** The paths validateFolder validates, in listing order: one per ".fzp" entry. */
  function MatchingPaths(src: string, names: seq<string>): (paths: seq<string>)
    ensures |paths| <= |names|
  {
    if names == [] then []
    else
      (if IsExtFzp(names[0]) then [EntryPath(src, names[0])] else [])
      + MatchingPaths(src, names[1..])
  }

  /** Listing more entries appends their paths after the earlier ones. */
  lemma {:induction false} MatchingPathsAppend(src: string, a: seq<string>, b: seq<string>)
    ensures MatchingPaths(src, a + b) == MatchingPaths(src, a) + MatchingPaths(src, b)
  {
    if a != [] {
      assert (a + b)[0] == a[0];
      assert (a + b)[1..] == a[1..] + b;
      MatchingPathsAppend(src, a[1..], b);
    } else {
      assert a + b == b;
    }
  }

  /**
   * Exactly the entries whose name ends in ".fzp" are validated, each under
   * the path `src + "/" + name`.
   */
  lemma {:induction false} MatchingPathsMembers(src: string, names: seq<string>)
    ensures forall n :: n in names && EndsWith(n, FzpExt) ==> EntryPath(src, n) in MatchingPaths(src, names)
    ensures forall p :: p in MatchingPaths(src, names) ==>
      exists n :: n in names && EndsWith(n, FzpExt) && p == EntryPath(src, n)
  {
    if names != [] {
      MatchingPathsMembers(src, names[1..]);
      assert forall n :: n in names[1..] ==> n in names;
    }
  }

  /** One validation per ".fzp" entry: other entries are not validated. */
  lemma {:induction false} MatchingPathsCount(src: string, names: seq<string>)
    ensures |MatchingPaths(src, names)| == |set k | 0 <= k < |names| && EndsWith(names[k], FzpExt)|
  {
    if names != [] {
      var m := |names| - 1;
      var init := names[..m];
      assert names == init + [names[m]];
      MatchingPathsAppend(src, init, [names[m]]);
      assert [names[m]][1..] == [];
      MatchingPathsCount(src, init);
      var before := set k | 0 <= k < |init| && EndsWith(init[k], FzpExt);
      var after := set k | 0 <= k < |names| && EndsWith(names[k], FzpExt);
      if EndsWith(names[m], FzpExt) {
        assert after == before + {m};
      } else {
        assert after == before;
      }
    }
  }

  /** Puts `e` in front of the errors of `r`. */
  function Prepend(e: string, r: FolderResult): FolderResult {
    match r
    case Returned(errs) => Returned([e] + errs)
    case Halted(errs, at) => Halted([e] + errs, at)
  }

  /** Runs `second` after `first` unless `first` halted the process. */
  function Then(first: FolderResult, second: FolderResult): FolderResult {
    match first
    case Halted(_, _) => first
    case Returned(errs) =>
      match second
      case Returned(more) => Returned(errs + more)
      case Halted(more, at) => Halted(errs + more, at)
  }

  /** One step of validateFolder's loop: the outcome for `path`, then the `rest` of the walk. */
  function Step(outcome: FileResult, path: string, rest: FolderResult): FolderResult {
    match outcome
    case Halt => Halted([], path)
    case Valid => rest
    case Invalid(e) => Prepend(e, rest)
  }

  /**
   * The loop of validateFolder over the matching paths: each file is
   * validated in turn, its error (if any) is appended, and the walk goes on
   * past failures; a load failure halts it.
   */
  function Walk(flags: Flags, fs: Files, paths: seq<string>): FolderResult {
    if paths == [] then Returned([])
    else Step(FileOutcome(flags, paths[0], fs(paths[0])), paths[0], Walk(flags, fs, paths[1..]))
  }

  /** A step can be taken before or after appending a further walk. */
  lemma StepThen(outcome: FileResult, path: string, rest: FolderResult, more: FolderResult)
    ensures Step(outcome, path, Then(rest, more)) == Then(Step(outcome, path, rest), more)
  {
  }

  /**
   * Walking two runs of paths one after the other gives the first run's
   * errors followed by the second's: order is kept and nothing stops the walk
   * but a halt.
   */
  lemma {:induction false} WalkAppend(flags: Flags, fs: Files, a: seq<string>, b: seq<string>)
    ensures Walk(flags, fs, a + b) == Then(Walk(flags, fs, a), Walk(flags, fs, b))
  {
    if a == [] {
      assert a + b == b;
    } else {
      assert (a + b)[0] == a[0];
      assert (a + b)[1..] == a[1..] + b;
      WalkAppend(flags, fs, a[1..], b);
      StepThen(FileOutcome(flags, a[0], fs(a[0])), a[0], Walk(flags, fs, a[1..]), Walk(flags, fs, b));
    }
  }

  /**
   * Every error of a walk reads back as one of the walked paths and a failure
   * count between 1 and 3, and there are no more errors than paths.
   */
  lemma {:induction false} WalkErrorsNameFailingFiles(flags: Flags, fs: Files, paths: seq<string>)
    ensures |Walk(flags, fs, paths).errs| <= |paths|
    ensures forall e :: e in Walk(flags, fs, paths).errs ==>
      ParseErrorText(e).Some? && ParseErrorText(e).value.path in paths
      && 1 <= ParseErrorText(e).value.count <= 3
  {
    if paths != [] {
      WalkErrorsNameFailingFiles(flags, fs, paths[1..]);
      assert forall p :: p in paths[1..] ==> p in paths;
    }
  }

  /** A walk returns no error exactly when every walked file loads and passes. */
  lemma {:induction false} WalkCleanIffAllValid(flags: Flags, fs: Files, paths: seq<string>)
    ensures Walk(flags, fs, paths) == Returned([])
            <==> forall p :: p in paths ==> FileOutcome(flags, p, fs(p)) == Valid
  {
    if paths != [] {
      WalkCleanIffAllValid(flags, fs, paths[1..]);
      assert paths == [paths[0]] + paths[1..];
    }
  }

  /**
   * The errors a folder walk is meant to collect, as a reference: one per path
   * that loads and fails some enabled check, carrying that file's own count,
   * in the order of `paths`.
   */
  function FailingErrors(flags: Flags, fs: Files, paths: seq<string>): (errs: seq<string>)
    ensures |errs| <= |paths|
  {
    if paths == [] then []
    else
      var p := paths[0];
      (if fs(p).Loaded? && FailureCount(flags, fs(p).rec) > 0
       then [ErrorText(FailureCount(flags, fs(p).rec), p)] else [])
      + FailingErrors(flags, fs, paths[1..])
  }

  /** The index of the first path that cannot be loaded, or `|paths|` when all load. */
  function FirstLoadFailure(fs: Files, paths: seq<string>): (k: nat)
    ensures k <= |paths|
    ensures forall j :: 0 <= j < k ==> fs(paths[j]).Loaded?
    ensures k < |paths| ==> fs(paths[k]).LoadFailed?
  {
    if paths == [] || fs(paths[0]).LoadFailed? then 0
    else 1 + FirstLoadFailure(fs, paths[1..])
  }

  /** The first unloadable path is the one at index `i` when all before it load. */
  lemma FirstLoadFailureAt(fs: Files, paths: seq<string>, i: nat)
    requires i < |paths| && fs(paths[i]).LoadFailed?
    requires forall j :: 0 <= j < i ==> fs(paths[j]).Loaded?
    ensures FirstLoadFailure(fs, paths) == i
  {
  }

  /**
   * What a folder walk does, in full: it stops at the first file that cannot
   * be loaded, after the errors of the files before it; when every file loads
   * it returns one error per failing file, with that file's count, in order.
   */
  lemma {:induction false} WalkIsFailingErrors(flags: Flags, fs: Files, paths: seq<string>)
    ensures
      var k := FirstLoadFailure(fs, paths);
      Walk(flags, fs, paths)
        == if k < |paths| then Halted(FailingErrors(flags, fs, paths[..k]), paths[k])
           else Returned(FailingErrors(flags, fs, paths))
  {
    if paths != [] && fs(paths[0]).Loaded? {
      var tail := paths[1..];
      WalkIsFailingErrors(flags, fs, tail);
      var k := FirstLoadFailure(fs, paths);
      assert k == 1 + FirstLoadFailure(fs, tail);
      if k < |paths| {
        assert paths[..k][0] == paths[0] && paths[..k][1..] == tail[..k - 1];
      } else {
        assert paths[..k] == paths;
      }
    }
  }

  /**
   * A walk halts exactly when some walked file fails to load, and it halts at
   * the first such file.
   */
  lemma {:induction false} WalkHaltsIffLoadFails(flags: Flags, fs: Files, paths: seq<string>)
    ensures Walk(flags, fs, paths).Halted? <==> exists p :: p in paths && fs(p).LoadFailed?
    ensures Walk(flags, fs, paths).Halted? ==>
      FirstLoadFailure(fs, paths) < |paths|
      && Walk(flags, fs, paths).at == paths[FirstLoadFailure(fs, paths)]
  {
    WalkIsFailingErrors(flags, fs, paths);
    if exists p :: p in paths && fs(p).LoadFailed? {
      var p :| p in paths && fs(p).LoadFailed?;
      var j :| 0 <= j < |paths| && paths[j] == p;
      assert FirstLoadFailure(fs, paths) <= j;
    }
  }

  /** The error validateFolder returns when the folder cannot be listed. */
  function ReadFolderError(src: string): string {
    "validator failed @ read folder '" + src + "'"
  }

  /** What validateFolder does with folder `src` once its listing is known. */
  function FolderOutcome(flags: Flags, fs: Files, src: string, listing: Listing): FolderResult {
    match listing
    case ListFailed => Returned([ReadFolderError(src)])
    case Entries(names) => Walk(flags, fs, MatchingPaths(src, names))
  }

  /** The matching paths of one more entry. */
  lemma MatchingPathsSnoc(src: string, names: seq<string>, i: nat)
    requires i < |names|
    ensures MatchingPaths(src, names[..i + 1])
            == MatchingPaths(src, names[..i])
               + (if IsExtFzp(names[i]) then [EntryPath(src, names[i])] else [])
  {
    assert names[..i + 1] == names[..i] + [names[i]];
    MatchingPathsAppend(src, names[..i], [names[i]]);
    assert [names[i]][1..] == [];
  }

  /** Walking one more path after a walk that returned `errs`. */
  lemma WalkSnoc(flags: Flags, fs: Files, paths: seq<string>, path: string, errs: seq<string>)
    requires Walk(flags, fs, paths) == Returned(errs)
    ensures Walk(flags, fs, paths + [path])
            == match FileOutcome(flags, path, fs(path))
               case Halt => Halted(errs, path)
               case Valid => Returned(errs)
               case Invalid(e) => Returned(errs + [e])
  {
    WalkAppend(flags, fs, paths, [path]);
    assert [path][1..] == [];
  }

  /** Once a walk halts, walking further paths changes nothing. */
  lemma WalkHaltedStays(flags: Flags, fs: Files, paths: seq<string>, more: seq<string>)
    requires Walk(flags, fs, paths).Halted?
    ensures Walk(flags, fs, paths + more) == Walk(flags, fs, paths)
  {
    WalkAppend(flags, fs, paths, more);
  }

  /** A walk that halts within the first `i` entries is the whole folder's walk. */
  lemma WalkHaltsEarly(flags: Flags, fs: Files, src: string, names: seq<string>, i: nat)
    requires i <= |names|
    requires Walk(flags, fs, MatchingPaths(src, names[..i])).Halted?
    ensures MatchingPaths(src, names[..i]) <= MatchingPaths(src, names)
    ensures Walk(flags, fs, MatchingPaths(src, names)) == Walk(flags, fs, MatchingPaths(src, names[..i]))
  {
    assert names == names[..i] + names[i..];
    MatchingPathsAppend(src, names[..i], names[i..]);
    WalkHaltedStays(flags, fs, MatchingPaths(src, names[..i]), MatchingPaths(src, names[i..]));
  }

  /**
   * When the paths validated so far all loaded and the next one does not, they
   * end at the first unloadable path of the whole walk.
   */
  lemma HaltedAtFirstLoadFailure(
    flags: Flags, fs: Files, before: seq<string>, path: string, paths: seq<string>, errs: seq<string>)
    requires Walk(flags, fs, before) == Returned(errs)
    requires fs(path).LoadFailed?
    requires before + [path] <= paths
    ensures FirstLoadFailure(fs, paths) < |paths|
    ensures before + [path] == paths[..FirstLoadFailure(fs, paths) + 1]
  {
    WalkHaltsIffLoadFails(flags, fs, before);
    var i := |before|;
    assert paths[i] == path;
    forall j | 0 <= j < i ensures fs(paths[j]).Loaded? {
      assert paths[j] == before[j] && before[j] in before;
    }
    FirstLoadFailureAt(fs, paths, i);
  }

  /**
   * validateFolder: lists `src` and validates each ".fzp" entry in listing
   * order, appending every returned error. `validated` records the paths
   * handed to validateFile.
   */
  method ValidateFolder(flags: Flags, fs: Files, src: string, listing: Listing)
    returns (r: FolderResult, ghost validated: seq<string>)
    ensures r == FolderOutcome(flags, fs, src, listing)
    ensures listing.ListFailed? ==> r == Returned([ReadFolderError(src)]) && validated == []
    ensures r.Returned? && listing.Entries? ==> validated == MatchingPaths(src, listing.names)
    ensures r.Halted? ==>
      validated != [] && validated[|validated| - 1] == r.at
      && validated <= MatchingPaths(src, listing.names)
    ensures r.Halted? ==>
      var paths := MatchingPaths(src, listing.names);
      FirstLoadFailure(fs, paths) < |paths| && validated == paths[..FirstLoadFailure(fs, paths) + 1]
  {
    validated := [];
    if listing.ListFailed? {
      return Returned([ReadFolderError(src)]), validated;
    }
    var names := listing.names;
    var errList: seq<string> := [];
    var i := 0;
    while i < |names|
      invariant 0 <= i <= |names|
      invariant validated == MatchingPaths(src, names[..i])
      invariant Walk(flags, fs, validated) == Returned(errList)
    {
      var name := names[i];
      MatchingPathsSnoc(src, names, i);
      if IsExtFzp(name) {
        var path := EntryPath(src, name);
        WalkSnoc(flags, fs, validated, path, errList);
        ghost var before := validated;
        validated := validated + [path];
        var res := ValidateFile(flags, fs, path);
        if res.Halt? {
          WalkHaltsEarly(flags, fs, src, names, i + 1);
          HaltedAtFirstLoadFailure(flags, fs, before, path, MatchingPaths(src, names), errList);
          return Halted(errList, path), validated;
        }
        if res.Invalid? {
          errList := errList + [res.err];
        }
      }
      i := i + 1;
    }
    assert names[..i] == names;
    r := Returned(errList);
  }

  /**
   * A folder run ends without error exactly when the folder can be listed and
   * every ".fzp" entry in it loads and passes every enabled check.
   */
  lemma FolderCleanIffAllFilesPass(flags: Flags, fs: Files, src: string, listing: Listing)
    ensures FolderOutcome(flags, fs, src, listing) == Returned([])
            <==> listing.Entries?
                 && forall p :: p in MatchingPaths(src, listing.names) ==>
                      fs(p).Loaded? && PassesChecks(flags, fs(p).rec)
  {
    if listing.Entries? {
      WalkCleanIffAllValid(flags, fs, MatchingPaths(src, listing.names));
    }
  }

  /** The exit status of a folder run: 0 for a nil error list, 1 otherwise. */
  function FolderExitCode(r: FolderResult): int {
    if r == Returned([]) then 0 else 1
  }

  /** The exit status of a single-file run: 0 for a nil error, 1 otherwise. */
  function FileExitCode(r: FileResult): int {
    if r == Valid then 0 else 1
  }

  /**
   * cliValidateAction: with a file path validates that file, else with a
   * folder path validates that folder, else shows help; the process exits
   * with 0 on success (or help) and 1 on any error or halt.
   */
  method ValidateAction(flags: Flags, fs: Files, file: string, dir: string, listing: Listing)
    returns (code: int)
    ensures code == 0 || code == 1
    ensures file != "" ==> (code == 0 <==> fs(file).Loaded? && PassesChecks(flags, fs(file).rec))
    ensures file == "" && dir != "" ==>
      (code == 0 <==> FolderOutcome(flags, fs, dir, listing) == Returned([]))
    ensures file == "" && dir == "" ==> code == 0
  {
    if file != "" {
      var res := ValidateFile(flags, fs, file);
      code := FileExitCode(res);
    } else if dir != "" {
      var res, _ := ValidateFolder(flags, fs, dir, listing);
      code := FolderExitCode(res);
    } else {
      code := 0;
    }
  }

  /** The paths of the example folder's entries `a.fzp`, `b.fzp` and `c.txt`. */
  lemma ExampleMatchingPaths()
    ensures MatchingPaths("d", ["a.fzp", "b.fzp", "c.txt"]) == ["d/a.fzp", "d/b.fzp"]
  {
    var names := ["a.fzp", "b.fzp", "c.txt"];
    assert IsExtFzp("a.fzp") && IsExtFzp("b.fzp") && !IsExtFzp("c.txt") by {
      assert "a.fzp"[1..] == FzpExt;
      assert "b.fzp"[1..] == FzpExt;
    }
    assert names[1..] == ["b.fzp", "c.txt"] && names[1..][1..] == ["c.txt"];
    assert ["c.txt"][1..] == [];
    assert MatchingPaths("d", ["c.txt"]) == [];
    assert EntryPath("d", "b.fzp") == "d/b.fzp";
    assert MatchingPaths("d", ["b.fzp", "c.txt"]) == ["d/b.fzp"];
    assert EntryPath("d", "a.fzp") == "d/a.fzp";
  }

  /** The example file system: `d/b.fzp` fails its title check, every other file passes. */
  function ExampleFiles(p: string): Load {
    if p == "d/b.fzp" then Loaded(Fzp({Title})) else Loaded(Fzp({}))
  }

  /** In the example folder `a.fzp` passes. */
  lemma ExampleValidFile()
    ensures FileOutcome(Defaults, "d/a.fzp", ExampleFiles("d/a.fzp")) == Valid
  {
  }

  /** In the example folder `b.fzp` fails one check. */
  lemma ExampleInvalidFile()
    ensures FileOutcome(Defaults, "d/b.fzp", ExampleFiles("d/b.fzp")) == Invalid(ErrorText(1, "d/b.fzp"))
  {
  }

  /** The walk over the example folder's two ".fzp" paths. */
  lemma ExampleWalk()
    ensures Walk(Defaults, ExampleFiles, ["d/a.fzp", "d/b.fzp"]) == Returned([ErrorText(1, "d/b.fzp")])
  {
    var paths := ["d/a.fzp", "d/b.fzp"];
    assert paths[0] == "d/a.fzp" && paths[1..] == ["d/b.fzp"];
    assert ["d/b.fzp"][1..] == [];
    ExampleValidFile();
    ExampleInvalidFile();
  }

  /** The example folder: `a.fzp` passes, `b.fzp` fails its title check, `c.txt` is skipped. */
  lemma FolderExample()
    ensures FolderOutcome(Defaults, ExampleFiles, "d", Entries(["a.fzp", "b.fzp", "c.txt"]))
            == Returned([ErrorText(1, "d/b.fzp")])
  {
    ExampleMatchingPaths();
    ExampleWalk();
  }

  /** The text of the example folder's one error. */
  lemma ExampleErrorText()
    ensures ErrorText(1, "d/b.fzp") == "1 Errors @ d/b.fzp"
  {
  }
}
