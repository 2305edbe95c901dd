/** reporting/generate_report_site.py: the bookkeeping of the report site. It
    lists each branch's reports, finds the branch of each downloaded results
    artifact and the report whose history it continues, chooses the reports to
    prune beyond the per-branch limit, and assembles the data the index pages
    are rendered from. The file system is given as listings. */
module ReportSite {
  import opened Common
  import opened Ordering
  import Semver

  // ---------------------------------------------------------------------
  // find_report_directories (lines 57-66)
  // ---------------------------------------------------------------------

  /** One entry of a directory listing. */
  datatype Entry = Entry(name: string, isDir: bool)

  const LatestLink := "latest"

  /** The directories other than `latest`, in listing order. */
  function Kept(entries: seq<Entry>): seq<string>
    decreases |entries|
  {
    if entries == [] then []
    else
      var n := |entries| - 1;
      Kept(entries[..n]) + (if entries[n].isDir && entries[n].name != LatestLink then [entries[n].name] else [])
  }

  /** The reports of a branch, oldest first. */
  function FoundReports(entries: seq<Entry>): seq<string> {
    SortBy(Kept(entries), Identity)
  }

  lemma {:induction false} KeptMembers(entries: seq<Entry>)
    ensures forall x :: x in Kept(entries) <==> exists i :: 0 <= i < |entries| && entries[i].name == x && entries[i].isDir && x != LatestLink
    decreases |entries|
  {
    if entries != [] {
      var n := |entries| - 1;
      KeptMembers(entries[..n]);
      assert forall i :: 0 <= i < n ==> entries[..n][i] == entries[i];
    }
  }

  /** The reports are exactly the listed directories other than `latest`, in
      ascending order, none lost. */
  lemma FoundReportsMeaning(entries: seq<Entry>)
    ensures SortedBy(FoundReports(entries), Identity)
    ensures multiset(FoundReports(entries)) == multiset(Kept(entries))
    ensures forall x :: x in FoundReports(entries) <==>
      exists i :: 0 <= i < |entries| && entries[i].name == x && entries[i].isDir && x != LatestLink
  {
    SortBySorted(Kept(entries), Identity);
    KeptMembers(entries);
    forall x
      ensures x in FoundReports(entries) <==> x in Kept(entries)
    {
      assert x in FoundReports(entries) <==> x in multiset(FoundReports(entries));
      assert x in Kept(entries) <==> x in multiset(Kept(entries));
    }
  }

  method FindReportDirectories(entries: seq<Entry>) returns (found: seq<string>)
    ensures found == FoundReports(entries)
  {
    found := [];
    var i := 0;
    while i < |entries|
      invariant 0 <= i <= |entries|
      invariant found == Kept(entries[..i])
    {
      assert entries[..i + 1][..i] == entries[..i];
      if entries[i].isDir && entries[i].name != LatestLink {
        found := found + [entries[i].name];
      }
      i := i + 1;
    }
    assert entries[..i] == entries;
    found := SortBy(found, Identity);
  }

  // ---------------------------------------------------------------------
  // Existing reports (lines 70-87)
  // ---------------------------------------------------------------------

  /** One entry of the reports directory: a branch and its listing. */
  datatype BranchDir = BranchDir(name: string, isDir: bool, entries: seq<Entry>)

  function ExistingReports(branches: seq<BranchDir>): map<string, seq<string>>
    decreases |branches|
  {
    if branches == [] then map[]
    else
      var n := |branches| - 1;
      var m := ExistingReports(branches[..n]);
      if branches[n].isDir then m[branches[n].name := FoundReports(branches[n].entries)] else m
  }

  /** Every branch directory, and nothing else, has its reports recorded. */
  lemma {:induction false} ExistingReportsKeys(branches: seq<BranchDir>)
    ensures forall b :: b in ExistingReports(branches) <==> exists i :: 0 <= i < |branches| && branches[i].isDir && branches[i].name == b
    decreases |branches|
  {
    if branches != [] {
      var n := |branches| - 1;
      ExistingReportsKeys(branches[..n]);
      assert forall i :: 0 <= i < n ==> branches[..n][i] == branches[i];
    }
  }

  /** A branch directory's entry holds its reports, oldest first. */
  lemma {:induction false} ExistingReportsValue(branches: seq<BranchDir>, i: nat)
    requires i < |branches| && branches[i].isDir
    requires forall j :: i < j < |branches| ==> branches[j].name != branches[i].name
    ensures branches[i].name in ExistingReports(branches)
    ensures ExistingReports(branches)[branches[i].name] == FoundReports(branches[i].entries)
    decreases |branches|
  {
    var n := |branches| - 1;
    if i < n {
      assert branches[..n][i] == branches[i];
      assert forall j :: i < j < n ==> branches[..n][j] == branches[j];
      ExistingReportsValue(branches[..n], i);
    }
  }

  method DetectExistingReports(branches: seq<BranchDir>) returns (existing: map<string, seq<string>>)
    ensures existing == ExistingReports(branches)
  {
    existing := map[];
    var i := 0;
    while i < |branches|
      invariant 0 <= i <= |branches|
      invariant existing == ExistingReports(branches[..i])
    {
      assert branches[..i + 1][..i] == branches[..i];
      if branches[i].isDir {
        var found := FindReportDirectories(branches[i].entries);
        existing := existing[branches[i].name := found];
      }
      i := i + 1;
    }
    assert branches[..i] == branches;
  }

  // ---------------------------------------------------------------------
  // The branch of a results artifact (lines 104-111):
  // re.search("allure-results-([\d]+)_(.+)", name).group(2)
  // ---------------------------------------------------------------------

  const ArtifactPrefix := "allure-results-"

  /** Length of the run of ASCII digits `s` starts with. */
  function DigitRun(s: string): (r: nat)
    ensures r <= |s|
    ensures forall i :: 0 <= i < r ==> Semver.IsDigit(s[i])
    ensures r < |s| ==> !Semver.IsDigit(s[r])
    decreases |s|
  {
    if s != [] && Semver.IsDigit(s[0]) then 1 + DigitRun(s[1..]) else 0
  }

  /** What `.+` can take: the text up to the first newline. */
  function UpToNewline(s: string): (r: string)
    ensures IsPrefix(r, s) && '\n' !in r
    ensures r == s || s[|r|] == '\n'
    decreases |s|
  {
    if s == [] || s[0] == '\n' then [] else [s[0]] + UpToNewline(s[1..])
  }

  /** The match starting at position `p`, if there is one: the digits run as
      far as they go (backing off cannot produce the `_`), and the branch is
      the rest of the line, at least one character of it. */
  function MatchAt(name: string, p: nat): Option<string> {
    if p + |ArtifactPrefix| <= |name| && name[p..p + |ArtifactPrefix|] == ArtifactPrefix then
      var q := p + |ArtifactPrefix|;
      var d := DigitRun(name[q..]);
      if d >= 1 && q + d < |name| && name[q + d] == '_' then
        var branch := UpToNewline(name[q + d + 1..]);
        if |branch| >= 1 then Some(branch) else None
      else None
    else None
  }

  /** `re.search` tries every starting position from `p` on, leftmost first. */
  function SearchFrom(name: string, p: nat): Option<string>
    decreases |name| + 1 - p
  {
    if p > |name| then None
    else if MatchAt(name, p).Some? then MatchAt(name, p)
    else SearchFrom(name, p + 1)
  }

  function BranchOf(name: string): Option<string> {
    SearchFrom(name, 0)
  }

  lemma DigitRunOf(digits: string, rest: string)
    requires Semver.AllDigits(digits)
    requires rest == [] || !Semver.IsDigit(rest[0])
    ensures DigitRun(digits + rest) == |digits|
    decreases |digits|
  {
    if digits != [] {
      assert (digits + rest)[1..] == digits[1..] + rest;
      DigitRunOf(digits[1..], rest);
    } else {
      assert digits + rest == rest;
    }
  }

  lemma {:induction false} UpToNewlineOf(s: string)
    requires '\n' !in s
    ensures UpToNewline(s) == s
    decreases |s|
  {
    if s != [] {
      UpToNewlineOf(s[1..]);
    }
  }

  /** The name of an artifact uploaded as `allure-results-<run>_<branch>` gives
      its branch back. */
  lemma BranchOfArtifact(run: string, branch: string)
    requires |run| >= 1 && Semver.AllDigits(run)
    requires |branch| >= 1 && '\n' !in branch
    ensures BranchOf(ArtifactPrefix + run + "_" + branch) == Some(branch)
  {
    var name := ArtifactPrefix + run + "_" + branch;
    var q := |ArtifactPrefix|;
    assert name[0..q] == ArtifactPrefix;
    assert name[q..] == run + ("_" + branch);
    DigitRunOf(run, "_" + branch);
    assert name[q + |run|] == '_';
    assert name[q + |run| + 1..] == branch;
    UpToNewlineOf(branch);
  }

  /** A match at `p` is `allure-results-`, one or more digits, `_` and a
      non-empty single-line branch, read from position `p`. */
  lemma MatchAtSound(name: string, p: nat)
    requires MatchAt(name, p).Some?
    ensures var b := MatchAt(name, p).value;
      && |b| >= 1 && '\n' !in b
      && exists run :: |run| >= 1 && Semver.AllDigits(run) && IsPrefix(ArtifactPrefix + run + "_" + b, name[p..])
  {
    var q := p + |ArtifactPrefix|;
    var d := DigitRun(name[q..]);
    var b := MatchAt(name, p).value;
    var run := name[q..q + d];
    assert Semver.AllDigits(run);
    assert name[q + d + 1..][..|b|] == b;
    PrefixOfPieces(name, p, q, q + d, q + d + 1, q + d + 1 + |b|, ArtifactPrefix, run, b);
  }

  /** Text read from `p` that is cut into the prefix, the digits, the `_` and
      the branch starts with their concatenation. */
  lemma PrefixOfPieces(s: string, p: nat, q: nat, u: nat, v: nat, e: nat, prefix: string, run: string, b: string)
    requires p <= q <= u <= v <= e <= |s|
    requires s[p..q] == prefix && s[q..u] == run && u + 1 == v && s[u] == '_' && s[v..e] == b
    ensures IsPrefix(prefix + run + "_" + b, s[p..])
  {
    assert s[u..v] == "_";
    assert s[p..q] + s[q..u] == s[p..u];
    assert s[p..u] + s[u..v] == s[p..v];
    assert s[p..v] + s[v..e] == s[p..e];
    assert s[p..][..e - p] == s[p..e];
  }

  /** A branch is only found where the name holds `allure-results-`, one or
      more digits, `_` and the branch, which is a non-empty single line. */
  lemma {:induction false} SearchFromSound(name: string, p: nat)
    requires SearchFrom(name, p).Some?
    ensures var b := SearchFrom(name, p).value;
      && |b| >= 1 && '\n' !in b
      && exists k, run :: p <= k <= |name| && |run| >= 1 && Semver.AllDigits(run) && IsPrefix(ArtifactPrefix + run + "_" + b, name[k..])
    decreases |name| + 1 - p
  {
    if MatchAt(name, p).Some? {
      MatchAtSound(name, p);
      var b := MatchAt(name, p).value;
      var run :| |run| >= 1 && Semver.AllDigits(run) && IsPrefix(ArtifactPrefix + run + "_" + b, name[p..]);
      assert p <= |name|;
    } else {
      SearchFromSound(name, p + 1);
      var b := SearchFrom(name, p).value;
      var k, run :| p + 1 <= k <= |name| && |run| >= 1 && Semver.AllDigits(run) && IsPrefix(ArtifactPrefix + run + "_" + b, name[k..]);
    }
  }

  /** Leftmost rule: the search returns the match at the first position,
      from `p` on, where the pattern matches. */
  lemma {:induction false} SearchFromLeftmost(name: string, p: nat, k: nat)
    requires p <= k && MatchAt(name, k).Some?
    requires forall j :: p <= j < k ==> MatchAt(name, j).None?
    ensures SearchFrom(name, p) == MatchAt(name, k)
    decreases k - p
  {
    if p < k {
      SearchFromLeftmost(name, p + 1, k);
    }
  }

  /** The search finds nothing exactly when the pattern matches nowhere from `p` on. */
  lemma {:induction false} SearchFromNone(name: string, p: nat)
    ensures SearchFrom(name, p).None? <==> forall j :: p <= j ==> MatchAt(name, j).None?
    decreases |name| + 1 - p
  {
    if p <= |name| {
      SearchFromNone(name, p + 1);
      if SearchFrom(name, p).None? {
        forall j | p <= j
          ensures MatchAt(name, j).None?
        {
          if j > p {
            assert p + 1 <= j;
          }
        }
      }
    } else {
      forall j | p <= j
        ensures MatchAt(name, j).None?
      {
      }
    }
  }

  // ---------------------------------------------------------------------
  // The previous report of a branch (lines 116-117)
  // ---------------------------------------------------------------------

  /** As written: the guard tests that the whole table is non-empty, not the
      branch's list, so a branch directory holding no report raises. */
  function PreviousReportAsWritten(existing: map<string, seq<string>>, branch: string): Result<Option<string>> {
    if branch in existing && |existing| > 0 then
      if |existing[branch]| == 0 then Err(IndexError("list index out of range"))
      else Ok(Some(existing[branch][|existing[branch]| - 1]))
    else Ok(None)
  }

  /** A branch whose directory holds only the `latest` link stops the script. */
  lemma PreviousReportAsWrittenFails()
    ensures PreviousReportAsWritten(map["main" := []], "main") == Err(IndexError("list index out of range"))
  {
    var existing: map<string, seq<string>> := map["main" := []];
    assert existing.Keys == {"main"};
    assert |existing| == 1;
  }

  /** As intended: the newest report of the branch, when it has one. */
  function PreviousReport(existing: map<string, seq<string>>, branch: string): Option<string> {
    if branch in existing && |existing[branch]| > 0 then Some(existing[branch][|existing[branch]| - 1]) else None
  }

  /** Both agree whenever the written code does not raise, and it raises only
      for a known branch with no reports. */
  lemma PreviousReportAgrees(existing: map<string, seq<string>>, branch: string)
    ensures PreviousReportAsWritten(existing, branch).Err? <==> branch in existing && existing[branch] == []
    ensures PreviousReportAsWritten(existing, branch).Ok? ==> PreviousReportAsWritten(existing, branch).value == PreviousReport(existing, branch)
  {
    if branch in existing {
      assert branch in existing.Keys;
      assert |existing.Keys| > 0;
    }
  }

  /** With the branch's reports in ascending order, the previous report is the
      newest of them. */
  lemma PreviousReportNewest(existing: map<string, seq<string>>, branch: string)
    requires branch in existing && SortedBy(existing[branch], Identity)
    ensures PreviousReport(existing, branch).Some? <==> existing[branch] != []
    ensures PreviousReport(existing, branch).Some? ==>
      var r := PreviousReport(existing, branch).value;
      r in existing[branch] && forall x :: x in existing[branch] ==> LexLe(x, r)
  {
    var s := existing[branch];
    if s != [] {
      forall x | x in s
        ensures LexLe(x, s[|s| - 1])
      {
        var i :| 0 <= i < |s| && s[i] == x;
        if i == |s| - 1 {
          LexLeReflexive(x);
        }
      }
    }
  }

  // ---------------------------------------------------------------------
  // Reports to generate (lines 96-154)
  // ---------------------------------------------------------------------

  /** One entry matched by the artifacts glob: the artifact directory's name,
      the entry's own name, and whether it is a directory. */
  datatype ArtifactDir = ArtifactDir(parentName: string, name: string, isDir: bool)

  /** One report to generate: into `<branch>/<timestamp>`, continuing the history
      of `previous` when there is one. */
  datatype Generation = Generation(branch: string, timestamp: string, previous: Option<string>)

  function GenerationOf(a: ArtifactDir, existing: map<string, seq<string>>): seq<Generation> {
    if !a.isDir then []
    else
      match BranchOf(a.parentName)
      case None => []
      case Some(branch) => [Generation(branch, a.name, PreviousReport(existing, branch))]
  }

  function Generations(artifacts: seq<ArtifactDir>, existing: map<string, seq<string>>): seq<Generation>
    decreases |artifacts|
  {
    if artifacts == [] then []
    else
      var n := |artifacts| - 1;
      Generations(artifacts[..n], existing) + GenerationOf(artifacts[n], existing)
  }

  /** Every report generated comes from a directory whose artifact name carries
      its branch, is named after that directory, and continues the branch's
      newest report; there is at most one per artifact. */
  lemma {:induction false} GenerationsMeaning(artifacts: seq<ArtifactDir>, existing: map<string, seq<string>>)
    ensures |Generations(artifacts, existing)| <= |artifacts|
    ensures forall g :: g in Generations(artifacts, existing) ==>
      && g.previous == PreviousReport(existing, g.branch)
      && exists i :: 0 <= i < |artifacts| && artifacts[i].isDir && BranchOf(artifacts[i].parentName) == Some(g.branch)
                     && g.timestamp == artifacts[i].name
    decreases |artifacts|
  {
    if artifacts != [] {
      var n := |artifacts| - 1;
      GenerationsMeaning(artifacts[..n], existing);
      assert forall i :: 0 <= i < n ==> artifacts[..n][i] == artifacts[i];
    }
  }

  /** The artifacts loop, with the history source chosen by the corrected guard. */
  method PlanReports(artifacts: seq<ArtifactDir>, existing: map<string, seq<string>>) returns (gens: seq<Generation>)
    ensures gens == Generations(artifacts, existing)
  {
    gens := [];
    var i := 0;
    while i < |artifacts|
      invariant 0 <= i <= |artifacts|
      invariant gens == Generations(artifacts[..i], existing)
    {
      assert artifacts[..i + 1][..i] == artifacts[..i];
      var a := artifacts[i];
      if a.isDir {
        var m := BranchOf(a.parentName);
        if m.Some? {
          var branchName := m.value;
          var timestamp := a.name;
          var previous: Option<string> := None;
          if branchName in existing && |existing[branchName]| > 0 {
            previous := Some(existing[branchName][|existing[branchName]| - 1]);
          }
          gens := gens + [Generation(branchName, timestamp, previous)];
        }
      }
      i := i + 1;
    }
    assert artifacts[..i] == artifacts;
  }

  // ---------------------------------------------------------------------
  // Pruning (lines 163-182)
  // ---------------------------------------------------------------------

  /** `found_reports[0:len - max]` when there are more than `max`, else nothing. */
  function PruneSelection(found: seq<string>, maxReports: int): seq<string> {
    if |found| > maxReports then
      var pruneCount := |found| - maxReports;
      found[..if pruneCount <= |found| then pruneCount else |found|]
    else []
  }

  /** Oldest reports go first, and exactly `max` are left when there were more;
      a non-positive limit prunes every report. */
  lemma PruneSelectionMeaning(found: seq<string>, maxReports: int)
    ensures var r := PruneSelection(found, maxReports);
      && |r| <= |found| && r == found[..|r|]
      && (|found| <= maxReports ==> r == [])
      && (0 <= maxReports < |found| ==> |found| - |r| == maxReports)
      && (maxReports <= 0 ==> r == found)
  {
  }

  /** With the reports in ascending order, no kept report is older than a pruned one. */
  lemma PruneOldestFirst(found: seq<string>, maxReports: int)
    requires SortedBy(found, Identity)
    ensures var r := PruneSelection(found, maxReports);
      forall i, j :: 0 <= i < |r| <= j < |found| ==> LexLe(found[i], found[j])
  {
  }

  /** Lines 167-182 for one branch: the reports removed. */
  method PruneBranch(entries: seq<Entry>, maxReports: int) returns (selection: seq<string>)
    ensures selection == PruneSelection(FoundReports(entries), maxReports)
  {
    var found := FindReportDirectories(entries);
    selection := [];
    if |found| > maxReports {
      var pruneCount := |found| - maxReports;
      selection := found[0..if pruneCount <= |found| then pruneCount else |found|];
    }
  }

  /** The reports removed, branch by branch. */
  function Pruned(branches: seq<BranchDir>, maxReports: int): seq<seq<string>>
    decreases |branches|
  {
    if branches == [] then []
    else
      var n := |branches| - 1;
      Pruned(branches[..n], maxReports) + [PruneSelection(FoundReports(branches[n].entries), maxReports)]
  }

  /** One selection per entry of the reports directory, each by the limit. */
  lemma {:induction false} PrunedAt(branches: seq<BranchDir>, maxReports: int, i: nat)
    requires i < |branches|
    ensures |Pruned(branches, maxReports)| == |branches|
    ensures Pruned(branches, maxReports)[i] == PruneSelection(FoundReports(branches[i].entries), maxReports)
    decreases |branches|
  {
    var n := |branches| - 1;
    PrunedLength(branches, maxReports);
    if i < n {
      assert branches[..n][i] == branches[i];
      PrunedAt(branches[..n], maxReports, i);
    }
  }

  lemma {:induction false} PrunedLength(branches: seq<BranchDir>, maxReports: int)
    ensures |Pruned(branches, maxReports)| == |branches|
    decreases |branches|
  {
    if branches != [] {
      PrunedLength(branches[..|branches| - 1], maxReports);
    }
  }

  /** The pruning loop: for every entry of the reports directory (this loop does
      not skip files, whose listing is empty), the reports removed. */
  method PruneReports(branches: seq<BranchDir>, maxReports: int) returns (pruned: seq<seq<string>>)
    ensures pruned == Pruned(branches, maxReports)
  {
    pruned := [];
    var i := 0;
    while i < |branches|
      invariant 0 <= i <= |branches|
      invariant pruned == Pruned(branches[..i], maxReports)
    {
      assert branches[..i + 1][..i] == branches[..i];
      var selection := PruneBranch(branches[i].entries, maxReports);
      pruned := pruned + [selection];
      i := i + 1;
    }
    assert branches[..i] == branches;
  }

  // ---------------------------------------------------------------------
  // Template data (lines 192-237)
  // ---------------------------------------------------------------------

  /** `widgets/summary.json`'s statistic. */
  datatype Summary = Summary(total: int, passed: int)

  /** `test_metadata.json`. */
  datatype Metadata = Metadata(gitSha: Option<string>, gitTags: seq<string>, runUrl: Option<string>)

  datatype ReportData = ReportData(date: string, totalTests: int, passedTests: int, failedTests: int,
                                   gitSha: Option<string>, gitTags: seq<string>, runUrl: Option<string>)

  datatype ReleaseData = ReleaseData(release: string, reports: seq<ReportData>)

  /** `template_data` without its timestamp; `bleeding_edge` is None while it is `{}`. */
  datatype TemplateData = TemplateData(csmReleases: seq<ReleaseData>, bleedingEdge: Option<ReleaseData>)

  const BleedingEdgeRelease := "bleeding-edge"

  /** `str.removesuffix`. */
  function RemoveSuffix(s: string, suffix: string): string {
    if suffix != [] && IsSuffix(suffix, s) then s[..|s| - |suffix|] else s
  }

  function ReleaseName(r: ReleaseData): string {
    r.release
  }

  function ReportOf(date: string, s: Summary, m: Metadata): ReportData {
    ReportData(date, s.total, s.passed, s.total - s.passed, m.gitSha, m.gitTags, m.runUrl)
  }

  /** The report entries for the given report directories of a branch, in the same order. */
  function ReportsOf(branch: string, dates: seq<string>, summaryOf: (string, string) -> Summary, metadataOf: (string, string) -> Metadata): seq<ReportData>
    decreases |dates|
  {
    if dates == [] then []
    else
      var n := |dates| - 1;
      ReportsOf(branch, dates[..n], summaryOf, metadataOf) + [ReportOf(dates[n], summaryOf(branch, dates[n]), metadataOf(branch, dates[n]))]
  }

  /** One entry per report directory, in the same order, each with
      `failed = total - passed`. */
  lemma {:induction false} ReportsOfAt(branch: string, dates: seq<string>, summaryOf: (string, string) -> Summary, metadataOf: (string, string) -> Metadata)
    ensures var r := ReportsOf(branch, dates, summaryOf, metadataOf);
      && |r| == |dates|
      && (forall i :: 0 <= i < |dates| ==> r[i].date == dates[i])
      && (forall i :: 0 <= i < |dates| ==> r[i].failedTests == r[i].totalTests - r[i].passedTests)
    decreases |dates|
  {
    if dates != [] {
      var n := |dates| - 1;
      ReportsOfAt(branch, dates[..n], summaryOf, metadataOf);
      assert forall i :: 0 <= i < n ==> dates[..n][i] == dates[i];
    }
  }

  /** One branch's data, its reports newest first. */
  function ReleaseOf(b: BranchDir, summaryOf: (string, string) -> Summary, metadataOf: (string, string) -> Metadata): ReleaseData {
    ReleaseData(RemoveSuffix(b.name, "/"), ReportsOf(b.name, Reversed(FoundReports(b.entries)), summaryOf, metadataOf))
  }

  /** The template data before the release list is sorted. */
  function Collected(branches: seq<BranchDir>, summaryOf: (string, string) -> Summary, metadataOf: (string, string) -> Metadata): TemplateData
    decreases |branches|
  {
    if branches == [] then TemplateData([], None)
    else
      var n := |branches| - 1;
      var t := Collected(branches[..n], summaryOf, metadataOf);
      if !branches[n].isDir then t
      else
        var r := ReleaseOf(branches[n], summaryOf, metadataOf);
        if r.release == BleedingEdgeRelease then TemplateData(t.csmReleases, Some(r))
        else TemplateData(t.csmReleases + [r], t.bleedingEdge)
  }

  function Template(branches: seq<BranchDir>, summaryOf: (string, string) -> Summary, metadataOf: (string, string) -> Metadata): TemplateData {
    var t := Collected(branches, summaryOf, metadataOf);
    TemplateData(SortBy(t.csmReleases, ReleaseName), t.bleedingEdge)
  }

  /** Reversing an ascending list gives a descending one. */
  lemma ReversedDescending(found: seq<string>)
    requires SortedBy(found, Identity)
    ensures forall i, j :: 0 <= i < j < |found| ==> LexLe(Reversed(found)[j], Reversed(found)[i])
  {
    var rev := Reversed(found);
    forall i, j | 0 <= i < j < |found|
      ensures LexLe(rev[j], rev[i])
    {
      assert rev[j] == found[|found| - 1 - j] && rev[i] == found[|found| - 1 - i];
    }
  }

  /** Each branch's reports are listed newest first, each with
      `failed = total - passed`. */
  lemma ReleaseOfMeaning(b: BranchDir, summaryOf: (string, string) -> Summary, metadataOf: (string, string) -> Metadata)
    ensures var r := ReleaseOf(b, summaryOf, metadataOf);
      var found := FoundReports(b.entries);
      && |r.reports| == |found|
      && (forall i :: 0 <= i < |found| ==> r.reports[i].date == found[|found| - 1 - i])
      && (forall i :: 0 <= i < |found| ==> r.reports[i].failedTests == r.reports[i].totalTests - r.reports[i].passedTests)
      && (forall i, j :: 0 <= i < j < |found| ==> LexLe(r.reports[j].date, r.reports[i].date))
  {
    var found := FoundReports(b.entries);
    SortBySorted(Kept(b.entries), Identity);
    ReversedDescending(found);
    var rev := Reversed(found);
    ReportsOfAt(b.name, rev, summaryOf, metadataOf);
    var reports := ReportsOf(b.name, rev, summaryOf, metadataOf);
    assert ReleaseOf(b, summaryOf, metadataOf).reports == reports;
    forall i, j | 0 <= i < j < |found|
      ensures LexLe(reports[j].date, reports[i].date)
    {
      assert reports[j].date == rev[j] && reports[i].date == rev[i];
    }
  }

  /** Only the `bleeding-edge` branch lands in its slot, and every CSM release
      comes from a branch directory. */
  lemma {:induction false} CollectedSound(branches: seq<BranchDir>, summaryOf: (string, string) -> Summary, metadataOf: (string, string) -> Metadata)
    ensures var t := Collected(branches, summaryOf, metadataOf);
      && (forall r :: r in t.csmReleases ==> r.release != BleedingEdgeRelease)
      && (t.bleedingEdge.Some? ==> t.bleedingEdge.value.release == BleedingEdgeRelease)
      && (forall r :: r in t.csmReleases ==> exists i :: 0 <= i < |branches| && branches[i].isDir && r == ReleaseOf(branches[i], summaryOf, metadataOf))
    decreases |branches|
  {
    if branches != [] {
      var n := |branches| - 1;
      CollectedSound(branches[..n], summaryOf, metadataOf);
      var t := Collected(branches, summaryOf, metadataOf);
      var front := Collected(branches[..n], summaryOf, metadataOf);
      forall r | r in t.csmReleases
        ensures exists i :: 0 <= i < |branches| && branches[i].isDir && r == ReleaseOf(branches[i], summaryOf, metadataOf)
      {
        if r in front.csmReleases {
          var i :| 0 <= i < n && branches[..n][i].isDir && r == ReleaseOf(branches[..n][i], summaryOf, metadataOf);
          assert branches[..n][i] == branches[i];
        }
      }
    }
  }

  /** Every branch directory other than `bleeding-edge` is a CSM release. */
  lemma {:induction false} CollectedComplete(branches: seq<BranchDir>, summaryOf: (string, string) -> Summary, metadataOf: (string, string) -> Metadata, i: nat)
    requires i < |branches| && branches[i].isDir
    requires ReleaseOf(branches[i], summaryOf, metadataOf).release != BleedingEdgeRelease
    ensures ReleaseOf(branches[i], summaryOf, metadataOf) in Collected(branches, summaryOf, metadataOf).csmReleases
    decreases |branches|
  {
    var n := |branches| - 1;
    if i < n {
      assert branches[..n][i] == branches[i];
      CollectedComplete(branches[..n], summaryOf, metadataOf, i);
    }
  }

  /** The CSM releases end sorted by release name, and none is lost or added. */
  lemma TemplateMeaning(branches: seq<BranchDir>, summaryOf: (string, string) -> Summary, metadataOf: (string, string) -> Metadata)
    ensures var t := Template(branches, summaryOf, metadataOf);
      && SortedBy(t.csmReleases, ReleaseName)
      && multiset(t.csmReleases) == multiset(Collected(branches, summaryOf, metadataOf).csmReleases)
      && t.bleedingEdge == Collected(branches, summaryOf, metadataOf).bleedingEdge
  {
    SortBySorted(Collected(branches, summaryOf, metadataOf).csmReleases, ReleaseName);
  }

  /** The reports of one branch, newest first (lines 202-228). */
  method ReleaseBranchData(b: BranchDir, summaryOf: (string, string) -> Summary, metadataOf: (string, string) -> Metadata)
    returns (r: ReleaseData)
    ensures r == ReleaseOf(b, summaryOf, metadataOf)
  {
    var found := FindReportDirectories(b.entries);
    found := Reversed(found);
    var reports: seq<ReportData> := [];
    var i := 0;
    while i < |found|
      invariant 0 <= i <= |found|
      invariant reports == ReportsOf(b.name, found[..i], summaryOf, metadataOf)
    {
      assert found[..i + 1][..i] == found[..i];
      var summary := summaryOf(b.name, found[i]);
      var metadata := metadataOf(b.name, found[i]);
      var total := summary.total;
      var passed := summary.passed;
      reports := reports + [ReportData(found[i], total, passed, total - passed, metadata.gitSha, metadata.gitTags, metadata.runUrl)];
      i := i + 1;
    }
    assert found[..i] == found;
    r := ReleaseData(RemoveSuffix(b.name, "/"), reports);
  }

  /** Lines 192-237 without the timestamp. */
  method BuildTemplateData(branches: seq<BranchDir>, summaryOf: (string, string) -> Summary, metadataOf: (string, string) -> Metadata)
    returns (t: TemplateData)
    ensures t == Template(branches, summaryOf, metadataOf)
  {
    var csmReleases: seq<ReleaseData> := [];
    var bleedingEdge: Option<ReleaseData> := None;
    var i := 0;
    while i < |branches|
      invariant 0 <= i <= |branches|
      invariant Collected(branches[..i], summaryOf, metadataOf) == TemplateData(csmReleases, bleedingEdge)
    {
      assert branches[..i + 1][..i] == branches[..i];
      if branches[i].isDir {
        var data := ReleaseBranchData(branches[i], summaryOf, metadataOf);
        if data.release == BleedingEdgeRelease {
          bleedingEdge := Some(data);
        } else {
          csmReleases := csmReleases + [data];
        }
      }
      i := i + 1;
    }
    assert branches[..i] == branches;
    csmReleases := SortBy(csmReleases, ReleaseName);
    t := TemplateData(csmReleases, bleedingEdge);
  }
}
