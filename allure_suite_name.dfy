/** update_allure_suite_name.py: names each Allure result's suite after the
    directory holding it and its parent suite after the directory above, turns
    a `broken` status into `failed`, and prints the `allure` commands over the
    per-service report directories. */
module AllureSuiteName {
  import opened AllureResult

  /** Lines 9-37 for one result file: the suite labels from the two directories
      above it, then the top-level status (steps are left as they are). */
  method UpdateResult(file: ResultFile)
    modifies file.result
    ensures file.result.labels == Relabeled(old(file.result.labels), DirName(file.path, 1), DirName(file.path, 2))
    ensures file.result.status == FixedStatus(old(file.result.status))
    ensures file.result.steps == old(file.result.steps)
  {
    var testSource := DirName(file.path, 2);
    var testClass := DirName(file.path, 1);
    file.result.RelabelSuites(testClass, testSource);
    file.result.FixStatus();
  }

  /** `update_allure_suite_name` over every result file the glob finds: each is
      rewritten once, and no other object changes. */
  method UpdateAllureSuiteName(files: seq<ResultFile>)
    requires DistinctResults(files)
    modifies Results(files)
    ensures forall i :: 0 <= i < |files| ==>
      && files[i].result.labels == Relabeled(old(files[i].result.labels), DirName(files[i].path, 1), DirName(files[i].path, 2))
      && files[i].result.status == FixedStatus(old(files[i].result.status))
      && files[i].result.steps == old(files[i].result.steps)
  {
    var i := 0;
    while i < |files|
      invariant 0 <= i <= |files|
      invariant forall k :: 0 <= k < i ==>
        && files[k].result.labels == Relabeled(old(files[k].result.labels), DirName(files[k].path, 1), DirName(files[k].path, 2))
        && files[k].result.status == FixedStatus(old(files[k].result.status))
        && files[k].result.steps == old(files[k].result.steps)
      invariant forall k :: i <= k < |files| ==> unchanged(files[k].result)
    {
      UpdateResult(files[i]);
      i := i + 1;
    }
  }

  /** One entry matched by the two-level directory glob: its path and whether it is a directory. */
  datatype Entry = Entry(path: string, isDir: bool)

  /** The directories among the entries, in discovery order. */
  function ReportDirs(entries: seq<Entry>): seq<string>
    decreases |entries|
  {
    if entries == [] then []
    else
      var n := |entries| - 1;
      ReportDirs(entries[..n]) + (if entries[n].isDir then [entries[n].path] else [])
  }

  /** Every directory entry, and nothing else, is listed. */
  lemma {:induction false} ReportDirsMembers(entries: seq<Entry>)
    ensures forall p :: p in ReportDirs(entries) <==> exists i :: 0 <= i < |entries| && entries[i].path == p && entries[i].isDir
    decreases |entries|
  {
    if entries != [] {
      var n := |entries| - 1;
      ReportDirsMembers(entries[..n]);
      assert forall i :: 0 <= i < n ==> entries[..n][i] == entries[i];
    }
  }

  /** Discovery order is kept: the directories of a longer listing extend
      those of its beginning. */
  lemma {:induction false} ReportDirsAppend(a: seq<Entry>, b: seq<Entry>)
    ensures ReportDirs(a + b) == ReportDirs(a) + ReportDirs(b)
    decreases |b|
  {
    if b == [] {
      assert a + b == a;
    } else {
      var n := |b| - 1;
      ReportDirsAppend(a, b[..n]);
      assert (a + b)[..|a + b| - 1] == a + b[..n];
    }
  }

  const GeneratePrefix := ["allure", "generate", "-o", "allure_report"]
  const ServePrefix := ["allure", "serve", "--host", "localhost"]

  /** `generate_allure_report`: the report directories, then the two commands it prints. */
  method GenerateAllureReport(entries: seq<Entry>) returns (generate: seq<string>, serve: seq<string>)
    ensures generate == GeneratePrefix + ReportDirs(entries)
    ensures serve == ServePrefix + ReportDirs(entries)
  {
    var reportDirs: seq<string> := [];
    var i := 0;
    while i < |entries|
      invariant 0 <= i <= |entries|
      invariant reportDirs == ReportDirs(entries[..i])
    {
      assert entries[..i + 1][..i] == entries[..i];
      if entries[i].isDir {
        reportDirs := reportDirs + [entries[i].path];
      }
      i := i + 1;
    }
    assert entries[..i] == entries;
    generate := GeneratePrefix + reportDirs;
    serve := ServePrefix + reportDirs;
  }
}
