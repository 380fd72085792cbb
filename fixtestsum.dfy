/**
  `fixtestsum`: brings the `go.sum` file inside a txtar test archive up to
  date. The archive's files are extracted, `go list -mod=mod all` is run
  beside its `go.mod`, and the `go.sum` it leaves behind replaces the
  archive's copy or, when there is none, is inserted right after `go.mod`.

  Creating the temporary directory, reading the archive, extracting it,
  running `go list`, reading the new `go.sum` and writing the archive back
  are the parameters `tempDirError`, `parsed`, `extractError`,
  `goListError`, `readSum` and `writeError`.
 */
module FixTestSum {
  import opened Wrappers
  import opened GoStrings
  import opened Txtar

  /**
    The name of the sum file next to the module file: `go.sum` for a
    module file at the top, otherwise the module file's directory (up to
    and including its last `/`) followed by `go.sum`.
   */
  function SumName(modName: string): (r: string)
    ensures HasSuffix(r, "go.sum")
    ensures !Contains(modName, "/") ==> r == "go.sum"
  {
    if Contains(modName, "/") then modName[..LastIndex(modName, "/") + 1] + "go.sum" else "go.sum"
  }

  /** The directory part of a slash-separated name: everything up to and including its last `/`. */
  function DirPart(name: string): (r: string)
    ensures HasPrefix(name, r)
  {
    name[..LastIndex(name, "/") + 1]
  }

  /** No `/` starts at or after the end of `p` in `p + t` when `t` has none. */
  lemma NoSlashInTail(p: string, t: string)
    requires forall i :: 0 <= i < |t| ==> t[i] != '/'
    ensures forall j :: |p| <= j ==> !OccursAt(p + t, "/", j)
  {
    forall j | |p| <= j
      ensures !OccursAt(p + t, "/", j)
    {
      if j + 1 <= |p + t| {
        assert (p + t)[j..j + 1] == [t[j - |p|]];
      }
    }
  }

  /** The sum file lies in the module file's directory. */
  lemma SumNameSameDir(modName: string)
    ensures DirPart(SumName(modName)) == DirPart(modName)
  {
    var r := SumName(modName);
    var k := LastIndex(modName, "/");
    var p := modName[..k + 1];
    NoSlashInTail(p, "go.sum");
    if k >= 0 {
      assert r == p + "go.sum";
      assert r[k..k + 1] == modName[k..k + 1];
      assert OccursAt(r, "/", k);
      assert LastIndex(r, "/") == k;
    } else {
      assert p == [];
      assert r == p + "go.sum";
      assert LastIndex(r, "/") == -1;
    }
  }

  /** The index of the last file called `name`, or -1. */
  function LastNamed(files: seq<ArchiveFile>, name: string): (r: int)
    ensures -1 <= r < |files|
    ensures r >= 0 ==> files[r].name == name
    ensures forall i :: r < i < |files| ==> files[i].name != name
  {
    if |files| == 0 then -1
    else if files[|files| - 1].name == name then |files| - 1
    else LastNamed(files[..|files| - 1], name)
  }

  /** The index the scan records for the module file: a file called `modName` that is not the sum file. */
  function ModIndex(files: seq<ArchiveFile>, modName: string, sumName: string): (r: int)
    ensures -1 <= r < |files|
    ensures r >= 0 ==> files[r].name == modName && modName != sumName
    ensures r == -1 <==> modName == sumName || forall i :: 0 <= i < |files| ==> files[i].name != modName
  {
    if modName == sumName then -1 else LastNamed(files, modName)
  }

  /**
    The scan over the archive's files (without the extraction it also does):
    the last file called `sumName`, and the last other file called `modName`.
   */
  method FindIndices(files: seq<ArchiveFile>, modName: string, sumName: string) returns (sumIndex: int, modIndex: int)
    ensures sumIndex == LastNamed(files, sumName)
    ensures modIndex == ModIndex(files, modName, sumName)
  {
    sumIndex := -1;
    modIndex := -1;
    for i := 0 to |files|
      invariant sumIndex == LastNamed(files[..i], sumName)
      invariant modIndex == ModIndex(files[..i], modName, sumName)
    {
      assert files[..i + 1][..i] == files[..i];
      var f := files[i];
      if f.name == sumName {
        sumIndex := i;
      } else if f.name == modName {
        modIndex := i;
      }
    }
    assert files[..|files|] == files;
  }

  /** The file list after the fix: the sum file's data replaced, or a new sum file right after the module file. */
  function FixedFiles(files: seq<ArchiveFile>, sumName: string, sumIndex: int, modIndex: int, sumData: string): seq<ArchiveFile>
    requires -1 <= sumIndex < |files| && 0 <= modIndex < |files|
  {
    if sumIndex >= 0 then files[sumIndex := files[sumIndex].(data := sumData)]
    else files[..modIndex + 1] + [ArchiveFile(sumName, sumData)] + files[modIndex + 1..]
  }

  /** An existing sum file only gets new data: every name, and every other file, stays. */
  lemma FixedReplaces(files: seq<ArchiveFile>, sumName: string, modIndex: int, sumData: string)
    requires 0 <= modIndex < |files| && LastNamed(files, sumName) >= 0
    ensures var s := LastNamed(files, sumName);
            var r := FixedFiles(files, sumName, s, modIndex, sumData);
            && |r| == |files|
            && (forall i :: 0 <= i < |files| ==> r[i].name == files[i].name)
            && (forall i :: 0 <= i < |files| && i != s ==> r[i] == files[i])
            && r[s] == ArchiveFile(sumName, sumData)
  {
  }

  /** A new sum file is placed right after the module file, and the other files keep their order. */
  lemma FixedInserts(files: seq<ArchiveFile>, sumName: string, modIndex: int, sumData: string)
    requires 0 <= modIndex < |files| && LastNamed(files, sumName) == -1
    ensures var r := FixedFiles(files, sumName, -1, modIndex, sumData);
            && |r| == |files| + 1
            && r[modIndex] == files[modIndex]
            && r[modIndex + 1] == ArchiveFile(sumName, sumData)
            && r[..modIndex + 1] == files[..modIndex + 1]
            && r[modIndex + 2..] == files[modIndex + 1..]
            && r[..modIndex + 1] + r[modIndex + 2..] == files
  {
    var r := FixedFiles(files, sumName, -1, modIndex, sumData);
    assert r[..modIndex + 1] == files[..modIndex + 1];
    assert r[modIndex + 2..] == files[modIndex + 1..];
    assert files[..modIndex + 1] + files[modIndex + 1..] == files;
  }

  /** The error `fixTest` returns: the cause prefixed with the test's path. */
  function FixError(testPath: string, cause: string): (r: string)
    ensures HasPrefix(r, "fixing test " + testPath + ": ")
  {
    var p := "fixing test " + testPath + ": ";
    assert (p + cause)[..|p|] == p;
    p + cause
  }

  /**
    `fixTest` with its effects given by their outcomes: creating the
    temporary directory (`tempDirError`), reading the archive (`parsed`),
    extracting its files (`extractError`, the first failed directory
    creation or write), running `go list` (`goListError`), reading the new
    `go.sum` (`readSum`) and writing the archive back (`writeError`). The
    result is the archive written back, or the first error in that order,
    always prefixed with `fixing test <path>: `.
   */
  method FixTest(testPath: string, modName: string, tempDirError: Option<string>, parsed: Result<Archive, string>,
                 extractError: Option<string>, goListError: Option<string>, readSum: Result<string, string>,
                 writeError: Option<string>)
    returns (r: Result<Archive, string>)
    ensures tempDirError.Some? ==> r == Failure(FixError(testPath, tempDirError.value))
    ensures tempDirError.None? && parsed.Failure? ==> r == Failure(FixError(testPath, parsed.error))
    ensures tempDirError.None? && parsed.Success? && extractError.Some? ==>
              r == Failure(FixError(testPath, extractError.value))
    ensures tempDirError.None? && parsed.Success? && extractError.None? ==>
              var files := parsed.value.files;
              var sumName := SumName(modName);
              var s := LastNamed(files, sumName);
              var m := ModIndex(files, modName, sumName);
              && (m < 0 ==> r == Failure(FixError(testPath, "go.mod file not found")))
              && (m >= 0 && goListError.Some? ==>
                    r == Failure(FixError(testPath, "running 'go list -mod=mod all': " + goListError.value)))
              && (m >= 0 && goListError.None? && readSum.Failure? ==>
                    r == Failure(FixError(testPath, readSum.error)))
              && (m >= 0 && goListError.None? && readSum.Success? && writeError.Some? ==>
                    r == Failure(FixError(testPath, writeError.value)))
              && (m >= 0 && goListError.None? && readSum.Success? && writeError.None? ==>
                    r == Success(parsed.value.(files := FixedFiles(files, sumName, s, m, readSum.value))))
  {
    if tempDirError.Some? {
      return Failure(FixError(testPath, tempDirError.value));
    }
    if parsed.Failure? {
      return Failure(FixError(testPath, parsed.error));
    }
    var arc := parsed.value;
    var sumName := SumName(modName);
    var sumIndex, modIndex := FindIndices(arc.files, modName, sumName);
    if extractError.Some? {
      return Failure(FixError(testPath, extractError.value));
    }
    if modIndex < 0 {
      return Failure(FixError(testPath, "go.mod file not found"));
    }
    if goListError.Some? {
      return Failure(FixError(testPath, "running 'go list -mod=mod all': " + goListError.value));
    }
    if readSum.Failure? {
      return Failure(FixError(testPath, readSum.error));
    }
    var sumData := readSum.value;
    if sumIndex >= 0 {
      arc := arc.(files := arc.files[sumIndex := arc.files[sumIndex].(data := sumData)]);
    } else {
      var sumFile := ArchiveFile(sumName, sumData);
      arc := arc.(files := arc.files[..modIndex + 1] + ([sumFile] + arc.files[modIndex + 1..]));
    }
    assert arc.files == FixedFiles(parsed.value.files, sumName, sumIndex, modIndex, sumData);
    if writeError.Some? {
      return Failure(FixError(testPath, writeError.value));
    }
    r := Success(arc);
  }

  /**
    Fixing an archive that was just fixed, with the same `go.sum`, changes
    nothing: the sum file it finds is the one put there, and the module
    file is still found.
   */
  lemma FixIdempotent(files: seq<ArchiveFile>, modName: string, sumData: string)
    requires ModIndex(files, modName, SumName(modName)) >= 0
    ensures var sumName := SumName(modName);
            var r := FixedFiles(files, sumName, LastNamed(files, sumName), ModIndex(files, modName, sumName), sumData);
            && ModIndex(r, modName, sumName) >= 0
            && FixedFiles(r, sumName, LastNamed(r, sumName), ModIndex(r, modName, sumName), sumData) == r
  {
    var sumName := SumName(modName);
    var s := LastNamed(files, sumName);
    var m := ModIndex(files, modName, sumName);
    var r := FixedFiles(files, sumName, s, m, sumData);
    if s >= 0 {
      FixedReplaces(files, sumName, m, sumData);
      assert r[m].name == modName;
      assert r[s].name == sumName;
      var s' := LastNamed(r, sumName);
      assert s' == s by {
        assert s <= s';
        assert s' >= 0 && r[s'].name == sumName;
        assert files[s'].name == sumName;
      }
      assert r[s := r[s].(data := sumData)] == r;
    } else {
      FixedInserts(files, sumName, m, sumData);
      assert r[m].name == modName;
      assert LastNamed(r, sumName) == m + 1 by {
        var s' := LastNamed(r, sumName);
        assert r[m + 1].name == sumName;
        assert m + 1 <= s';
      }
      assert r[m + 1 := r[m + 1].(data := sumData)] == r;
    }
  }
}
