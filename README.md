# HMS nightly integration: a verified model of its CI scripts

The HMS nightly integration runs a set of Python scripts. They take the images
each CSM release ships and turn them into test runs and a report site. This
project models the deterministic part of those scripts in Dafny:

- **CSM manifest extractor** (`ManifestExtractor`): image names from the
  docker-index diff; the git tags of a release branch; the
  `images_to_rebuild` table built from the diff and from helm templating;
  the chart override table; the per-release inversion written to
  `csm-manifest-extractor-output.json`.
- **Bleeding-edge probe** (`BleedingEdge`, with `Semver` for the version
  parsing and precedence the probe relies on): the latest release tag of
  each repository, and the single `bleeding-edge` release it writes.
- **Test runner** (`TestRunner`): test-class detection from an image's file
  listing; the tavern configuration and its base URLs; the repository
  lookups; the per-image test arguments; the Allure result rewrite; the
  ordered test plan.
- **Allure suite renaming** (`AllureResult`, `AllureSuiteName`): the label
  and status rewrite of one result file, shared with the test runner, and
  the `allure` commands.
- **Report site** (`ReportSite`): report discovery; the branch name of a
  results artifact; the choice of the previous report for history; pruning;
  the template data.
- **Compose override** (`ComposeOverride`): which docker-compose services get
  a new image, and what image they get.

`Common` holds the string helpers the scripts share (`str.split`, the
`repo:tag` unpacking, `os.path.basename`, `str.replace`, and `str.lower`
restricted to ASCII).
`Ordering` holds Python's string order and a stable `sorted`.

External systems are inputs to the model: GitHub, the container registry,
`git`, `helm`, `yq`, `allure` and the file system. A listing, a tag list, a
command's exit status or a file's parsed contents is a parameter, often a
function (`tagsOf`, `listing`, `yqSucceeds`, `summaryOf`). Objects that the
scripts change in place are classes with `modifies` clauses:
`AllureResult.TestResult`, `TestRunner.Variables`, `TestRunner.TavernSection`
and `ComposeOverride.ComposeFile`.

## Model

| member | source | states |
|---|---|---|
| ManifestExtractor.GetDockerImageFromDiff | csm_manifest_extractor.py:47-53 | succeeds exactly when the path has at least three `]`-separated segments; the result is the stable registry, the bracket- and quote-free third segment, `:` and the tag |
| ManifestExtractor.ImageNameFromDiff | csm_manifest_extractor.py:49-52 | the name exists iff the path has two `]`; it holds no `[`, `'` or `]` |
| ManifestExtractor.FindImagePartAgrees | csm_manifest_extractor.py:56-61 | for a path of the documented shape whose name has no quote or bracket, FindImagePart yields the name, and GetDockerImageFromDiff yields the stable image `name:tag`: the two agree |
| ManifestExtractor.GitTagsOf | csm_manifest_extractor.py:137 | no tag is empty; a string is a tag iff it is a non-empty line of the `git tag` output |
| ManifestExtractor.CollectImageTuples | csm_manifest_extractor.py:162-172 | fails iff some changed path is too short; otherwise one tuple per change, in order, with the full image, the short name and the tag |
| ManifestExtractor.DedupTuples | csm_manifest_extractor.py:175 | no duplicate triples, and exactly the same set of triples |
| ManifestExtractor.BuildRepoLookup | csm_manifest_extractor.py:186-190 | the names of interest are the configured images in order; the lookup's keys are exactly those names; the last mapping for an image wins |
| ManifestExtractor.EnsureRepo | csm_manifest_extractor.py:198-199 | adds the repository with an empty list if absent; every other entry is unchanged |
| ManifestExtractor.AddFoundEffect | csm_manifest_extractor.py:192-210 | a short name the lookup lacks changes nothing; otherwise the image lands under the looked-up repository: a new record with `[branch]`, or the branch appended to the record holding it; other repositories are untouched |
| ManifestExtractor.AddFoundKeepsUnique | csm_manifest_extractor.py:201-205 | full images stay unique within each repository's list |
| ManifestExtractor.MergeFoundKeepsUnique | csm_manifest_extractor.py:192-210 | a whole branch's merge keeps full images unique per repository |
| ManifestExtractor.MergeFoundRepos | csm_manifest_extractor.py:192-199 | only repositories the lookup maps some found short name to are added |
| ManifestExtractor.MergeFoundImages | csm_manifest_extractor.py:192-210 | the loop computes MergeFound, keeping the table's order and keys consistent |
| ManifestExtractor.GithubRepoOfChart | csm_manifest_extractor.py:359-360 | fails iff the chart lists no source; otherwise the last `/`-segment of the first source: slash-free, a suffix of it, and either the whole source or preceded by a `/` |
| ManifestExtractor.ReposOfInterest | csm_manifest_extractor.py:381-387 | fails iff a required key is missing; otherwise the application repository (the power-control path for `cray-power-control`), then the test repository exactly when `testVersion` is declared |
| ManifestExtractor.AppendBranchFirstShape | csm_manifest_extractor.py:441-445 | at most one record changes, only an eligible one (holds the image, lacks the branch), by appending the branch; if any record is eligible, one changes |
| ManifestExtractor.AppendBranchFirstPointwise | csm_manifest_extractor.py:441-445 | a record either stays as it was or is eligible and gains the branch |
| ManifestExtractor.AppendBranchFirstAtMostOne | csm_manifest_extractor.py:441-445 | of any two records, at least one is unchanged, as the `break` ensures |
| ManifestExtractor.AppendBranchFirstChanges | csm_manifest_extractor.py:441-445 | when some record is eligible, the list changes |
| ManifestExtractor.AppendBranchFirstAt | csm_manifest_extractor.py:441-445 | the first eligible record is the one updated |
| ManifestExtractor.AppendBranchFirstNone | csm_manifest_extractor.py:441-445 | with no eligible record the list is unchanged |
| ManifestExtractor.AddTemplatedEffect | csm_manifest_extractor.py:429-445 | a new image is appended with `[branch]` and its short name from the repository path; a known image gains the branch in at most one record; uniqueness of images and of release branches is kept |
| ManifestExtractor.MergeTemplatedInvariants | csm_manifest_extractor.py:422-445 | a whole templating run keeps full images unique and release lists free of repeats |
| ManifestExtractor.MergeTemplatedImages | csm_manifest_extractor.py:363-364 | the templating loop computes TemplateIntoTable: the chart's repository gets a list if it has none, then every extracted image is merged in order |
| ManifestExtractor.AddTemplatedImage | csm_manifest_extractor.py:430-445 | the record search for one image computes AddTemplated: a new record, or the branch added to the first record of the image that lacks it |
| ManifestExtractor.TemplateIntoTable | csm_manifest_extractor.py:422-445 | a successful run leaves the table's order and keys consistent |
| ManifestExtractor.Upstream | csm_manifest_extractor.py:245-247 | the keys are exactly the listed source names |
| ManifestExtractor.UpstreamLastWins | csm_manifest_extractor.py:245-247 | each name maps to the location of the last source entry naming it |
| ManifestExtractor.UrlOfCases | csm_manifest_extractor.py:254-259 | no address iff no helm-lookup entry names the chart; KeyError iff one does and the chart's source is unknown |
| ManifestExtractor.UrlOfLastEntry | csm_manifest_extractor.py:254-259 | when the chart's source is known, the address is the source location, the last matching entry's path and `name-version.tgz` |
| ManifestExtractor.RecordChartEffect | csm_manifest_extractor.py:265-274 | the download address is set on first sight only; the branch's entry is replaced by the chart's values or by none; every other branch, version and chart is unchanged |
| ManifestExtractor.AccumulateManifest | csm_manifest_extractor.py:245-274 | the loop over a manifest's charts computes ChartSteps over the upstream sources |
| ManifestExtractor.RecordPlacements | csm_manifest_extractor.py:465-467 | a full image that does not split gives one failing step; otherwise one step per release branch with the image's repository and tag |
| ManifestExtractor.InvertAsWrittenKeepsLastTag | csm_manifest_extractor.py:473-476 | as written, every repository list other than one named `images` holds a single tag: the last one placed |
| ManifestExtractor.InvertAsWrittenLosesTags | csm_manifest_extractor.py:473 | concrete input: tags `1` then `2` for one repository in `main` leave `["2"]` as written and `["1", "2"]` as intended |
| ManifestExtractor.InvertKeepsAllTags | csm_manifest_extractor.py:462-476 | the corrected inversion fails iff some image does not split; otherwise every release and repository lists all of its tags, in order |
| ManifestExtractor.InvertNothingElse | csm_manifest_extractor.py:462-476 | nothing else appears: every listed repository has a tag placed for it in that release, and no release has an empty image map |
| ManifestExtractor.InvertFromAppend | csm_manifest_extractor.py:463-476 | inverting a concatenation is inverting the two parts in turn |
| ManifestExtractor.InvertRecord | csm_manifest_extractor.py:465-476 | one record's loop computes the corrected inversion steps of that record |
| ManifestExtractor.InvertList | csm_manifest_extractor.py:467-476 | the record loop of one repository computes the corrected inversion steps of its records, in order |
| ManifestExtractor.InvertByRelease | csm_manifest_extractor.py:462-476 | the nested loops compute the corrected inversion of every step of the table, in table order |
| ManifestExtractor.AddGitInfo | csm_manifest_extractor.py:478-481 | fails with KeyError iff some release lacks a recorded SHA or tags; otherwise the same releases, each with its images, its SHA and its tags |
| BleedingEdge.Repos | gather_bleeding_edge_images.py:57-62 | one repository per service, in configuration order |
| BleedingEdge.ImageLookupKeys | gather_bleeding_edge_images.py:64-65 | each lookup's keys are exactly the configured repositories |
| BleedingEdge.ImageLookupLastWins | gather_bleeding_edge_images.py:64-65 | the image recorded for a repository is that of the last service naming it |
| BleedingEdge.ServiceLookups | gather_bleeding_edge_images.py:57-65 | the loop builds the repository list and both image lookups |
| BleedingEdge.StableOf | gather_bleeding_edge_images.py:76-93 | a kept tag starts with `v`, parses as a version after the `v`, and is not a pre-release |
| BleedingEdge.StableVersionsExact | gather_bleeding_edge_images.py:73-97 | every kept version is a release spelled by a tag as `v` plus its printed form; every `v` tag that parses as a release is kept |
| BleedingEdge.FirstMaximalIsHead | gather_bleeding_edge_images.py:100-101 | the first version of highest precedence is the head of the descending stable sort |
| BleedingEdge.HeadIsUnique | gather_bleeding_edge_images.py:100-101 | the head of the descending sort is a single position |
| BleedingEdge.FirstMaximalRanksAll | gather_bleeding_edge_images.py:100-101 | the selected version is one of the versions and none ranks above it |
| BleedingEdge.LatestVersion | gather_bleeding_edge_images.py:100-101 | IndexError iff no version survived; otherwise the head of the descending sort |
| BleedingEdge.KeepTag | gather_bleeding_edge_images.py:76-97 | the per-tag checks keep exactly the version StableOf names |
| BleedingEdge.LatestStable | gather_bleeding_edge_images.py:73-101 | fails with IndexError iff no tag yields a release; otherwise the release LatestRelease selects, which LatestStableMeaning characterises |
| BleedingEdge.LatestStableMeaning | gather_bleeding_edge_images.py:73-101 | the selected version is a release named by one of the tags, and no kept tag ranks above it |
| BleedingEdge.StableOfFormatted | gather_bleeding_edge_images.py:76-93 | every tag spelled `v` plus a printed release, build metadata allowed, is kept as that release |
| BleedingEdge.NumericNotTextual | gather_bleeding_edge_images.py:76-101 | concrete input `v1.9.0`, `v1.10.0`, `v1.11.0-rc1`: the kept versions are 1.9.0 and 1.10.0, the pre-release is dropped, and `1.10.0` is selected although it sorts below `1.9.0` as text |
| BleedingEdge.LatestImagesFails | gather_bleeding_edge_images.py:70-101 | the loop fails iff some repository has no release tag, and then with IndexError |
| BleedingEdge.LatestImagesSingleTag | gather_bleeding_edge_images.py:104-118 | every image maps to a single tag |
| BleedingEdge.LatestImagesHasApps | gather_bleeding_edge_images.py:104-110 | each repository's application image is present |
| BleedingEdge.LatestImagesAccounted | gather_bleeding_edge_images.py:104-118 | every image carries the tag selected for some repository whose application image it is, or whose test image it is and the registry knows at that tag |
| BleedingEdge.LatestImagesAppValue | gather_bleeding_edge_images.py:104-110 | with distinct images, each repository's application image maps to exactly `[its selected tag]` |
| BleedingEdge.LatestImagesTestValue | gather_bleeding_edge_images.py:111-118 | with distinct images, a repository's test image is present iff the registry knows it at the selected tag, and then maps to `[that tag]` |
| BleedingEdge.LatestImagesUnlisted | gather_bleeding_edge_images.py:104-118 | an image that is no repository's application or test image is absent |
| BleedingEdge.BleedingEdgeOutput | gather_bleeding_edge_images.py:121-127 | a single `bleeding-edge` release with the images, no git SHA and no git tags |
| BleedingEdge.LatestTagOf | gather_bleeding_edge_images.py:73-102 | the selected tag text, or IndexError when no release survived |
| BleedingEdge.SelectedTagsMeaning | gather_bleeding_edge_images.py:70-102 | the selected tags fail iff some repository has none; otherwise one per repository, in order, each the one selected for it |
| BleedingEdge.LatestTags | gather_bleeding_edge_images.py:70-102 | the loop yields SelectedTags, or IndexError where that has none |
| BleedingEdge.RecordImages | gather_bleeding_edge_images.py:104-118 | the loop builds the same map as the specification of the images |
| BleedingEdge.GatherBleedingEdge | gather_bleeding_edge_images.py:57-127 | the whole probe yields the specified output for the given tags and registry |
| BleedingEdge.GatheredFromMeaning | gather_bleeding_edge_images.py:57-127 | fails iff some repository has no tag; otherwise only `bleeding-edge`, with no SHA or tags, every image with exactly one tag, every repository's application image included, and every image carrying the selected tag of a repository whose application image, or registry-known test image, it is |
| BleedingEdge.GatheredImageValues | gather_bleeding_edge_images.py:57-118 | for services with distinct repositories and images: each application image maps to `[selected tag]`; each test image is present iff the registry knows it at that tag, with the same value |
| Semver.ParseVersion | gather_bleeding_edge_images.py:86 | parsed pre-release and build parts consist of valid identifiers |
| Semver.FormatParse | gather_bleeding_edge_images.py:86 | the printed form of any version with valid identifiers parses back to that version |
| Semver.ParseFormat | gather_bleeding_edge_images.py:86 | printing a parsed version returns the text it came from |
| Semver.ParsePlainRelease | gather_bleeding_edge_images.py:86 | concrete input: `1.2.3` is a release |
| Semver.ParseLeadingZero | gather_bleeding_edge_images.py:86 | concrete input: a leading zero is refused |
| Semver.Compare | gather_bleeding_edge_images.py:100 | the comparison is -1, 0 or 1 |
| Semver.CompareAntisymmetric | gather_bleeding_edge_images.py:100 | swapping the operands flips the sign |
| Semver.CompareTransitive | gather_bleeding_edge_images.py:100 | precedence is transitive, and strict if either step is |
| Semver.CompareIgnoresBuild | gather_bleeding_edge_images.py:100 | build metadata plays no part; a release ranks above its pre-releases |
| Semver.LessIrreflexive | gather_bleeding_edge_images.py:100 | no version ranks above itself |
| TestRunner.ClassTableAt | run_tests.py:57-66 | a class has an entry iff some image's listing holds one of its marker files; the entry lists the images, and the class is a configured one |
| TestRunner.ClassImagesCount | run_tests.py:57-66 | an image appears under a class once per matching file in its listing, per occurrence of the image |
| TestRunner.AddHitsAt | run_tests.py:57-66 | scanning one image appends it to each class once per matching file, and adds no other class |
| TestRunner.HitsPositive | run_tests.py:59-62 | a hit comes from a listed file that is a marker of that class |
| TestRunner.KindsFoundMembers | run_tests.py:69-71 | the config kinds found are exactly those of listed tavern config files |
| TestRunner.ScanImage | run_tests.py:57-71 | the loop over one image's files computes its class hits and its config kinds |
| TestRunner.DetectTestClasses | run_tests.py:50-73 | the test table is the class table and the config-kind table is the one built image by image |
| TestRunner.KindsTableMeaning | run_tests.py:55-71 | every image, and only an image, has a config-kind entry, possibly empty, listing the kinds found in its files in order |
| TestRunner.Variables.Set | run_tests.py:86 | the variables gain or replace one key |
| TestRunner.TavernSection.Copy | run_tests.py:82 | a new section that shares the same variables object |
| TestRunner.WithBaseUrlsKeys | run_tests.py:83-86 | the keys are the old ones plus one `<service lowercased>_base_url` per service |
| TestRunner.WithBaseUrlsValue | run_tests.py:83-86 | each service's base URL key holds its container URL, unless a later service lowercases to the same name |
| TestRunner.WithBaseUrlsKeeps | run_tests.py:83-86 | other variables are unchanged |
| TestRunner.BaseUrlKeyInjective | run_tests.py:86 | two services share a key only when their lowercased names are equal |
| TestRunner.GenerateTavernConfig | run_tests.py:82-86 | the copy shares the global variables, which now hold every base URL: the global config is changed too |
| TestRunner.SetAllAt | run_tests.py:96-98 | the keys gain the given repositories, each mapped to the value; others are kept |
| TestRunner.RepoTableKeys | run_tests.py:95-98 | the keys are exactly the configured test repositories |
| TestRunner.RepoTableLastWins | run_tests.py:246-249 | the last service listing a repository wins |
| TestRunner.BuildRepoTable | run_tests.py:95-98 | the nested loops build the repository table |
| TestRunner.TavernConfigPrecedence | run_tests.py:124-129 | emulated hardware first, then default, then the generated config, each as an iff; the production kind plays no part |
| TestRunner.TestArgsMeaning | run_tests.py:112-132 | exactly `smoke --file smoke.json` without a host override for the repository, followed by `--url` and the override when it has one; tavern arguments with the chosen config and `/src/app/api/<class>`, which fail exactly for an image without detection results |
| TestRunner.TestArgsBadImage | run_tests.py:112 | an image without exactly one colon fails |
| TestRunner.ProcessResult | run_tests.py:154-191 | suite labels renamed, top-level and step statuses fixed |
| TestRunner.ProcessAllureReports | run_tests.py:152-195 | every result file is rewritten once |
| TestRunner.MatchingFails | run_tests.py:304-310 | fails iff some image fails to split or has no service |
| TestRunner.MatchingMeaning | run_tests.py:304-310 | the matching images are exactly those the filter's service takes; with no service filter, all the images in order |
| TestRunner.MatchingOrder | run_tests.py:304-310 | the matching images are a subsequence of the images, in their order |
| TestRunner.MatchingCounts | run_tests.py:304-310 | each image the service takes occurs as often as in the images, any other not at all |
| TestRunner.PlanAppend | run_tests.py:297-317 | the plan of consecutive filter lists is the concatenation of their plans |
| TestRunner.PlanEntriesMeaning | run_tests.py:297-317 | at most one entry per filter; each has a non-empty image list, is named `<class>:<service>` with the class's matching images, never empty |
| TestRunner.MatchImages | run_tests.py:304-310 | the loop computes the matching images |
| TestRunner.BuildPlan | run_tests.py:297-317 | the loop computes the plan |
| AllureResult.DirName | update_allure_suite_name.py:10-11 | the parent or grandparent directory name, or empty past the root |
| AllureResult.RelabeledMeaning | update_allure_suite_name.py:20-32 | every `suite` label holds the parent name and every `parentSuite` the grandparent; other labels are unchanged; one `parentSuite` is appended exactly when none existed |
| AllureResult.RelabeledIdempotent | update_allure_suite_name.py:20-32 | rewriting twice equals rewriting once |
| AllureResult.FixedStatusMeaning | update_allure_suite_name.py:36-37 | only `broken` changes, to `failed`; fixing twice equals fixing once |
| AllureResult.FixedStepsIdempotent | run_tests.py:188-191 | step names are kept, no step is `broken`, and fixing twice equals fixing once |
| AllureResult.TestResult.RelabelSuites | update_allure_suite_name.py:20-32 | the labels loop computes the relabelled labels; status and steps are unchanged |
| AllureResult.TestResult.FixStatus | update_allure_suite_name.py:36-37 | the status is fixed; nothing else changes |
| AllureResult.TestResult.FixStepStatuses | run_tests.py:188-191 | the step loop fixes each step status when steps are present |
| AllureSuiteName.UpdateResult | update_allure_suite_name.py:9-37 | one file's labels and status are rewritten; its steps are not |
| AllureSuiteName.UpdateAllureSuiteName | update_allure_suite_name.py:8-41 | every result file is rewritten once |
| AllureSuiteName.ReportDirsMembers | update_allure_suite_name.py:44-47 | exactly the directory entries are listed |
| AllureSuiteName.ReportDirsAppend | update_allure_suite_name.py:44-47 | discovery order is kept |
| AllureSuiteName.GenerateAllureReport | update_allure_suite_name.py:43-53 | both commands are their fixed prefix followed by the report directories |
| ReportSite.KeptMembers | reporting/generate_report_site.py:59-62 | exactly the directories not named `latest` are kept |
| ReportSite.FoundReportsMeaning | reporting/generate_report_site.py:57-66 | the reports are sorted ascending, a permutation of the kept directories, and exactly the directories other than `latest` |
| ReportSite.FindReportDirectories | reporting/generate_report_site.py:57-66 | the loop and sort compute the found reports |
| ReportSite.ExistingReportsKeys | reporting/generate_report_site.py:75-87 | exactly the branch directories have an entry |
| ReportSite.ExistingReportsValue | reporting/generate_report_site.py:81-87 | each branch's entry holds its reports, oldest first |
| ReportSite.DetectExistingReports | reporting/generate_report_site.py:70-87 | the loop computes the existing-reports table |
| ReportSite.DigitRun | reporting/generate_report_site.py:104 | the run of leading digits is maximal |
| ReportSite.UpToNewline | reporting/generate_report_site.py:104 | `.+` takes a newline-free prefix that stops at the first newline |
| ReportSite.BranchOfArtifact | reporting/generate_report_site.py:104-108 | the artifact name `allure-results-<run>_<branch>` gives back the branch |
| ReportSite.MatchAtSound | reporting/generate_report_site.py:104-108 | a match at a position reads `allure-results-`, digits, `_` and a non-empty newline-free branch from there |
| ReportSite.SearchFromSound | reporting/generate_report_site.py:104-108 | a branch is found only after `allure-results-`, digits and `_`, and is newline-free |
| ReportSite.SearchFromLeftmost | reporting/generate_report_site.py:104 | `re.search` returns the match at the leftmost position where the pattern matches |
| ReportSite.SearchFromNone | reporting/generate_report_site.py:104-107 | no branch is found exactly when the pattern matches at no position |
| ReportSite.PreviousReportAsWrittenFails | reporting/generate_report_site.py:116-117 | concrete input: a branch with only `latest` stops the script with IndexError |
| ReportSite.PreviousReportAgrees | reporting/generate_report_site.py:116-117 | the written guard fails exactly for a known branch with no reports; otherwise it agrees with the corrected one |
| ReportSite.PreviousReportNewest | reporting/generate_report_site.py:116-117 | the corrected choice is the newest report, present exactly when the branch has one |
| ReportSite.GenerationsMeaning | reporting/generate_report_site.py:96-117 | at most one report per results directory; each comes from a directory whose parent name gives its branch, is named after the directory, and continues the branch's newest report |
| ReportSite.PlanReports | reporting/generate_report_site.py:96-117 | the artifact loop computes the generations |
| ReportSite.PruneSelectionMeaning | reporting/generate_report_site.py:173-182 | nothing is pruned at or below the limit; above it the oldest reports go, leaving exactly the limit |
| ReportSite.PruneOldestFirst | reporting/generate_report_site.py:173-182 | no kept report is older than a pruned one |
| ReportSite.PruneBranch | reporting/generate_report_site.py:167-182 | one branch's pruning computes its selection |
| ReportSite.PrunedAt | reporting/generate_report_site.py:163-182 | one selection per entry of the reports directory, each by the limit |
| ReportSite.PrunedLength | reporting/generate_report_site.py:163-182 | one selection per entry |
| ReportSite.PruneReports | reporting/generate_report_site.py:163-182 | the loop computes the selections |
| ReportSite.ReportsOfAt | reporting/generate_report_site.py:208-228 | one report entry per directory, in order, dated by its directory, with failed = total - passed |
| ReportSite.ReversedDescending | reporting/generate_report_site.py:203 | reversing an ascending list gives a descending one |
| ReportSite.ReleaseOfMeaning | reporting/generate_report_site.py:202-228 | a branch's reports are listed newest first, one per report directory, with failed = total - passed |
| ReportSite.CollectedSound | reporting/generate_report_site.py:196-234 | only `bleeding-edge` lands in its slot; every CSM release comes from another branch directory |
| ReportSite.CollectedComplete | reporting/generate_report_site.py:231-234 | every branch directory other than `bleeding-edge` is a CSM release |
| ReportSite.TemplateMeaning | reporting/generate_report_site.py:237 | CSM releases are sorted by release name, and none is lost or added |
| ReportSite.ReleaseBranchData | reporting/generate_report_site.py:202-228 | the loop computes one branch's data |
| ReportSite.BuildTemplateData | reporting/generate_report_site.py:192-237 | the loop and sort compute the template data |
| ComposeOverride.OverrideMeaning | update_docker_compose.py:66-71 | for `repo:tag`: no override when the repository has no overrides, IndexError for an empty list, otherwise `repo:<first tag>` |
| ComposeOverride.OverrideBadImage | update_docker_compose.py:66 | the unpacking fails iff the image does not hold exactly one colon |
| ComposeOverride.OverrideIdempotent | update_docker_compose.py:68-71 | the override keeps the repository and swaps the tag; overriding again changes nothing |
| ComposeOverride.RunSound | update_docker_compose.py:59-78 | every command names a service with an image, writes that image's override, and succeeded |
| ComposeOverride.RunNames | update_docker_compose.py:74 | every command names a service of the file |
| ComposeOverride.RunFault | update_docker_compose.py:59-78 | a failed run stopped at one service, with all commands of the services before it applied, on the split or index error or on a failing command (exit 1) |
| ComposeOverride.RunFaultSticky | update_docker_compose.py:59-78 | once the loop stops, later services change nothing |
| ComposeOverride.ApplyAllAt | update_docker_compose.py:74 | after the commands each service keeps its key and other fields, and holds the image of the last command naming it, or its own |
| ComposeOverride.LastImageOfRun | update_docker_compose.py:59-78 | with distinct keys, the last command naming a service writes that service's own override |
| ComposeOverride.UpdatedServices | update_docker_compose.py:59-78 | after a full run, a service whose repository has overrides runs `repo:<first tag>`; every other service, with or without an image, is unchanged |
| ComposeOverride.ComposeFile.SetServiceImage | update_docker_compose.py:74 | one command sets the image of the named service |
| ComposeOverride.UpdateDockerCompose | update_docker_compose.py:47-78 | exit 1 with the file unchanged when the release is missing; otherwise the file holds the commands' effect, and the run's fault, if any, is returned |
| Common.SplitRepoTag | update_docker_compose.py:66 | `split(":", 2)` unpacked into two succeeds iff the image holds exactly one colon; the parts rejoin to the image and hold no colon |
| Common.SplitRepoTagOfJoin | update_docker_compose.py:66 | a colon-free repository and tag are split back |
| Common.Basename | csm_manifest_extractor.py:360 | the last `/`-segment: a slash-free suffix of the path |
| Common.BasenameMaximal | csm_manifest_extractor.py:360 | the basename is the whole path or is preceded by a `/`, so it reaches back to the last slash |
| Common.LowerMeaning | run_tests.py:86 | `str.lower` on ASCII: no capital left, each capital moved to its small letter, all else kept, idempotent |
| Common.ReversedInvolution | reporting/generate_report_site.py:203 | reversing twice gives the list back |
| Common.ReversedMultiset | reporting/generate_report_site.py:203 | reversing keeps every element and its multiplicity |
| Ordering.SortBySorted | reporting/generate_report_site.py:64 | `sorted` gives an ascending permutation of its input |
| Ordering.InsertBySorted | reporting/generate_report_site.py:237 | inserting into an ascending list keeps it ascending |
| Ordering.InsertByPermutes | reporting/generate_report_site.py:237 | insertion adds the one element and loses none |

## Left out

- Network and process calls are inputs, not modelled: GitHub, the container registry, `git checkout`, `helm pull`, `helm template`, `docker run`, `allure`, `yq`. File reads and writes, logging and printing are also left out.
- DeepDiff is not modelled. Its `values_changed` entries are an input sequence.
- `re.search` on chart names against the configured pattern is a predicate input (`isTarget`). The helm template image regex is not modelled; the extracted images are an input.
- `urljoin` is kept as its three parts (`DownloadUrl`), not joined.
- `all_images` (csm_manifest_extractor.py:452-460) is never read by the script and is not modelled. The value-override summary (279-287) is only logged and is not modelled.
- Python dict and set iteration order is an input order: lists of entries stand for dicts, and the dedup keeps first sightings where `set` leaves the order unspecified.
- ManifestExtractor.InvertByRelease: it models line 473 as evidently intended. Line 473 as written is modelled by `InvertAsWritten`.
- ReportSite.PlanReports: it uses the corrected guard of line 116. The guard as written is `PreviousReportAsWritten`.
- The history copy, report generation, file copies, `latest` symlink and `rmtree` in generate_report_site.py are not modelled. The model states which reports are generated and which are pruned.
- The report site's timestamp (`datetime.utcnow`) and the Jinja page rendering are left out.
- The summary and metadata JSON files are inputs (`summaryOf`, `metadataOf`).
- Semver: only ASCII digits are accepted as numeric identifiers. Parsing follows Semantic Versioning 2.0.0, as the Python `semver` package does; the package itself is not part of this model.
- run_tests.py: the `docker run` command assembly, the subprocess calls and the exit status handling around them (134-150) are left out. The HMTH image selection (263-269) and image pulls are not modelled; the image list is an input.
- TestRunner.GenerateTavernConfig: the source reads the module-level `test_config_global` (line 82) rather than its parameter; the model takes the global section as the argument.
- TestRunner.BuildPlan: the scan of `detected_tests.items()` for a matching class is modelled as a map lookup. Dict keys are unique, so at most one class matches.
- AllureResult.TestResult: only `labels`, `status` and `steps` are fields; other JSON keys, and label keys other than `name` and `value`, are not modelled.
- update_allure_suite_name.py's glob is an input list of result files, and run_tests.py's `**/*result.json` glob likewise.
- AllureSuiteName.UpdateAllureSuiteName: the `**/*.json` glob at update_allure_suite_name.py:9 also matches JSON files without `labels` or `status` (Allure's `*-container.json`). Lines 21 and 36 then raise KeyError. The model's result files always hold both fields, so that error path is not modelled.
- Common.LowerChar: it folds only `A`-`Z`. Python's `str.lower` at run_tests.py:86 also folds non-ASCII capitals; service names are taken to be ASCII.
- ReportSite.DigitRun: it accepts only the ASCII digits `0`-`9`. `\d` in the `re.search` pattern at reporting/generate_report_site.py:104 also matches other Unicode decimal digits.
- BleedingEdge.GatheredImageValues: the exact image values are stated only for services whose repositories, application images and test images are all distinct. Where two services share an image, the later write wins, and only LatestImagesAccounted describes the result.
- ComposeOverride.UpdateDockerCompose: a failed `yq` command is assumed to leave the file as it was.
- ComposeOverride.UpdatedServices: it requires distinct service keys, which a YAML mapping guarantees.

## Findings

| source | as written | input that shows it | evidently intended | confidence | as-written member | corrected member |
|---|---|---|---|---|---|---|
| csm_manifest_extractor.py:473 | tests `image_repo not in images_by_csm_release[csm_release]`, the release record whose only key is `images`, so each repository list is reset before every append | one repository with tags `1` and `2` in release `main` ends with `["2"]` | test membership in `images_by_csm_release[csm_release]["images"]`, keeping every tag | not executed | ManifestExtractor.InvertAsWrittenLosesTags | ManifestExtractor.InvertKeepsAllTags |
| reporting/generate_report_site.py:116-117 | guards `existing_reports[branch_name][-1]` with `len(existing_reports) > 0`, the size of the whole table | branch `main` whose directory holds only `latest` (`{"main": []}`) raises IndexError | guard on the branch's own report list being non-empty | not executed | ReportSite.PreviousReportAsWrittenFails | ReportSite.PreviousReportAgrees |
