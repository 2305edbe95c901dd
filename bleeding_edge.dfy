/** gather_bleeding_edge_images.py: for every service's GitHub repository,
    the newest stable release tag, and the `bleeding-edge` pseudo-release
    whose images are the application and test images at that version. */
module BleedingEdge {
  import opened Common
  import opened Semver
  import opened Ordering

  /** What the probe reads of one service in the global test configuration. */
  datatype ServiceConfig = ServiceConfig(githubRepo: string, applicationImage: string, testImage: string)

  const BleedingEdgeRelease := "bleeding-edge"

  /** The repositories in configuration order. */
  function Repos(services: seq<ServiceConfig>): (r: seq<string>)
    ensures |r| == |services| && forall i :: 0 <= i < |services| ==> r[i] == services[i].githubRepo
  {
    seq(|services|, i requires 0 <= i < |services| => services[i].githubRepo)
  }

  /** `repo_application_image_lookup` (application) or `repo_test_image_lookup`. */
  function ImageLookup(services: seq<ServiceConfig>, application: bool): map<string, string>
    decreases |services|
  {
    if services == [] then map[]
    else
      var s := services[|services| - 1];
      ImageLookup(services[..|services| - 1], application)[s.githubRepo := if application then s.applicationImage else s.testImage]
  }

  /** Both lookups know exactly the configured repositories. */
  lemma {:induction false} ImageLookupKeys(services: seq<ServiceConfig>, application: bool)
    ensures ImageLookup(services, application).Keys == Elements(Repos(services))
    decreases |services|
  {
    if services != [] {
      var n := |services| - 1;
      ImageLookupKeys(services[..n], application);
      assert Repos(services) == Repos(services[..n]) + [services[n].githubRepo];
      assert Elements(Repos(services)) == Elements(Repos(services[..n])) + {services[n].githubRepo};
    }
  }

  /** No later service names the same repository as service `i`. */
  predicate LastOfRepo(services: seq<ServiceConfig>, i: nat)
    requires i < |services|
  {
    forall j :: i < j < |services| ==> services[j].githubRepo != services[i].githubRepo
  }

  /** The image recorded for a repository is that of its last service. */
  lemma {:induction false} ImageLookupLastWins(services: seq<ServiceConfig>, application: bool, i: nat)
    requires i < |services| && LastOfRepo(services, i)
    ensures services[i].githubRepo in ImageLookup(services, application)
    ensures ImageLookup(services, application)[services[i].githubRepo] ==
      (if application then services[i].applicationImage else services[i].testImage)
    decreases |services|
  {
    var n := |services| - 1;
    if i < n {
      assert services[..n][i] == services[i];
      assert services[n].githubRepo != services[i].githubRepo;
      assert LastOfRepo(services[..n], i) by {
        forall j | i < j < n
          ensures services[..n][j].githubRepo != services[..n][i].githubRepo
        {
          assert services[..n][j] == services[j];
        }
      }
      ImageLookupLastWins(services[..n], application, i);
    }
  }

  /** Lines 57-65: the repositories in configuration order, and the two image lookups. */
  method ServiceLookups(services: seq<ServiceConfig>)
    returns (repos: seq<string>, appImage: map<string, string>, testImage: map<string, string>)
    ensures repos == Repos(services)
    ensures appImage == ImageLookup(services, true)
    ensures testImage == ImageLookup(services, false)
  {
    repos, appImage, testImage := [], map[], map[];
    var i := 0;
    while i < |services|
      invariant 0 <= i <= |services|
      invariant repos == Repos(services[..i])
      invariant appImage == ImageLookup(services[..i], true)
      invariant testImage == ImageLookup(services[..i], false)
    {
      assert services[..i + 1][..i] == services[..i];
      var s := services[i];
      repos := repos + [s.githubRepo];
      appImage := appImage[s.githubRepo := s.applicationImage];
      testImage := testImage[s.githubRepo := s.testImage];
      i := i + 1;
    }
    assert services[..i] == services;
  }

  /** Lines 76-97 for one tag: only `v`-prefixed names are read, the `v` is
      dropped, a name that does not parse is skipped, and so is a pre-release. */
  function StableOf(tagName: string): (r: Option<Version>)
    ensures r.Some? ==> r.value.prerelease == [] && IsPrefix("v", tagName) && ParseVersion(tagName[1..]) == r
  {
    if !IsPrefix("v", tagName) then None
    else
      match ParseVersion(tagName[1..])
      case None => None
      case Some(v) => if v.prerelease != [] then None else Some(v)
  }

  /** The `versions` list the tag loop builds. */
  function StableVersions(tags: seq<string>): seq<Version>
    decreases |tags|
  {
    if tags == [] then []
    else
      var n := |tags| - 1;
      StableVersions(tags[..n]) + (match StableOf(tags[n]) case None => [] case Some(v) => [v])
  }

  /** One more tag extends the list by its version, if it is kept. */
  lemma StableVersionsStep(tags: seq<string>, i: nat)
    requires i < |tags|
    ensures StableVersions(tags[..i + 1]) ==
      StableVersions(tags[..i]) + (match StableOf(tags[i]) case None => [] case Some(v) => [v])
  {
    assert tags[..i + 1][..i] == tags[..i];
  }

  /** A kept tag is `v` followed by the printed form of its version. */
  lemma StableOfSpelled(tagName: string)
    requires StableOf(tagName).Some?
    ensures tagName == "v" + Format(StableOf(tagName).value)
  {
    ParseFormat(tagName[1..]);
    assert tagName == "v" + tagName[1..];
  }

  lemma {:induction false} StableVersionsSound(tags: seq<string>)
    ensures forall v :: v in StableVersions(tags) ==>
      v.prerelease == [] && exists i :: 0 <= i < |tags| && tags[i] == "v" + Format(v)
    decreases |tags|
  {
    if tags != [] {
      var n := |tags| - 1;
      StableVersionsSound(tags[..n]);
      forall v | v in StableVersions(tags)
        ensures v.prerelease == [] && exists i :: 0 <= i < |tags| && tags[i] == "v" + Format(v)
      {
        if v in StableVersions(tags[..n]) {
          var i :| 0 <= i < n && tags[..n][i] == "v" + Format(v);
          assert tags[i] == tags[..n][i];
        } else {
          assert StableOf(tags[n]) == Some(v);
          StableOfSpelled(tags[n]);
        }
      }
    }
  }

  lemma {:induction false} StableVersionsComplete(tags: seq<string>)
    ensures forall i :: 0 <= i < |tags| && StableOf(tags[i]).Some? ==> StableOf(tags[i]).value in StableVersions(tags)
    decreases |tags|
  {
    if tags != [] {
      var n := |tags| - 1;
      StableVersionsComplete(tags[..n]);
      forall i | 0 <= i < |tags| && StableOf(tags[i]).Some?
        ensures StableOf(tags[i]).value in StableVersions(tags)
      {
        if i < n {
          assert tags[..n][i] == tags[i];
        }
      }
    }
  }

  /** Every kept version is a release, named exactly by one of the tags as
      `v` + its printed form; every `v`-tag that parses as a release is kept. */
  lemma StableVersionsExact(tags: seq<string>)
    ensures forall v :: v in StableVersions(tags) ==>
      v.prerelease == [] && exists i :: 0 <= i < |tags| && tags[i] == "v" + Format(v)
    ensures forall i :: 0 <= i < |tags| && StableOf(tags[i]).Some? ==> StableOf(tags[i]).value in StableVersions(tags)
  {
    StableVersionsSound(tags);
    StableVersionsComplete(tags);
  }

  /** `versions[k]` is what `versions.sort(reverse=True)` puts first: nothing
      ranks above it, and everything before it ranks below it (the sort is
      stable, so the first of several equal maxima leads). */
  predicate IsHeadOfDescendingSort(vs: seq<Version>, k: int) {
    && 0 <= k < |vs|
    && (forall j :: 0 <= j < |vs| ==> !Less(vs[k], vs[j]))
    && (forall j :: 0 <= j < k ==> Less(vs[j], vs[k]))
  }

  /** The first version of highest precedence. */
  function FirstMaximal(vs: seq<Version>): Version
    requires |vs| > 0
    decreases |vs|
  {
    if |vs| == 1 then vs[0]
    else
      var best := FirstMaximal(vs[..|vs| - 1]);
      if Less(best, vs[|vs| - 1]) then vs[|vs| - 1] else best
  }

  /** A later version that ranks above the head of a prefix becomes the head. */
  lemma NewHead(vs: seq<Version>, k: int)
    requires |vs| > 1 && IsHeadOfDescendingSort(vs[..|vs| - 1], k) && Less(vs[k], vs[|vs| - 1])
    ensures IsHeadOfDescendingSort(vs, |vs| - 1)
  {
    var n := |vs| - 1;
    var prefix := vs[..n];
    assert vs[k] == prefix[k];
    forall j | 0 <= j < |vs| ensures !Less(vs[n], vs[j]) {
      if j < n {
        assert vs[j] == prefix[j];
        LessAfterAtMost(vs[k], vs[j], vs[n]);
      } else {
        LessIrreflexive(vs[n]);
      }
    }
    forall j | 0 <= j < n ensures Less(vs[j], vs[n]) {
      assert vs[j] == prefix[j];
      LessAfterAtMost(vs[k], vs[j], vs[n]);
    }
  }

  /** A later version that does not rank above the head of a prefix leaves it the head. */
  lemma SameHead(vs: seq<Version>, k: int)
    requires |vs| > 1 && IsHeadOfDescendingSort(vs[..|vs| - 1], k) && !Less(vs[k], vs[|vs| - 1])
    ensures IsHeadOfDescendingSort(vs, k)
  {
    var n := |vs| - 1;
    var prefix := vs[..n];
    forall j | 0 <= j < |vs| ensures !Less(vs[k], vs[j]) {
      if j < n { assert vs[j] == prefix[j]; }
    }
    forall j | 0 <= j < k ensures Less(vs[j], vs[k]) {
      assert vs[j] == prefix[j];
    }
  }

  /** FirstMaximal is the head of the descending sort. */
  lemma {:induction false} FirstMaximalIsHead(vs: seq<Version>)
    requires |vs| > 0
    ensures exists k :: IsHeadOfDescendingSort(vs, k) && vs[k] == FirstMaximal(vs)
    decreases |vs|
  {
    if |vs| == 1 {
      LessIrreflexive(vs[0]);
      assert IsHeadOfDescendingSort(vs, 0);
    } else {
      var n := |vs| - 1;
      FirstMaximalIsHead(vs[..n]);
      var k :| IsHeadOfDescendingSort(vs[..n], k) && vs[..n][k] == FirstMaximal(vs[..n]);
      assert vs[k] == vs[..n][k];
      if Less(vs[k], vs[n]) {
        NewHead(vs, k);
      } else {
        SameHead(vs, k);
      }
    }
  }

  /** The head of the descending sort is unique: a stable sort has one first element. */
  lemma HeadIsUnique(vs: seq<Version>, k1: int, k2: int)
    requires IsHeadOfDescendingSort(vs, k1)
    requires 0 <= k2 < |vs| && k2 != k1
    ensures !IsHeadOfDescendingSort(vs, k2)
  {
    if k2 < k1 {
      assert Less(vs[k2], vs[k1]);
    } else {
      assert !Less(vs[k1], vs[k2]);
    }
  }

  /** Lines 100-101: `versions.sort(reverse=True)` then `versions[0]`, which
      raises IndexError when no release version survived. */
  method LatestVersion(vs: seq<Version>) returns (r: Result<Version>)
    ensures r.Err? <==> |vs| == 0
    ensures r.Err? ==> r.fault.IndexError?
    ensures r.Ok? ==> r.value == FirstMaximal(vs)
  {
    if |vs| == 0 {
      return Err(IndexError("list index out of range"));
    }
    var best := vs[0];
    var i := 1;
    while i < |vs|
      invariant 1 <= i <= |vs|
      invariant best == FirstMaximal(vs[..i])
    {
      assert vs[..i + 1][..i] == vs[..i];
      if Less(best, vs[i]) {
        best := vs[i];
      }
      i := i + 1;
    }
    assert vs[..i] == vs;
    return Ok(best);
  }

  /** Lines 76-97 for one tag, step by step. */
  method KeepTag(name: string) returns (kept: Option<Version>)
    ensures kept == StableOf(name)
  {
    if !IsPrefix("v", name) {
      return None;
    }
    var parsed := ParseVersion(name[1..]);
    if parsed.None? || parsed.value.prerelease != [] {
      return None;
    }
    return parsed;
  }

  /** Lines 73-101 for one repository's tags. */
  method LatestStable(tags: seq<string>) returns (r: Result<Version>)
    ensures r.Ok? <==> LatestRelease(tags).Some?
    ensures r.Ok? ==> LatestRelease(tags) == Some(r.value)
    ensures r.Err? ==> r.fault.IndexError?
  {
    var versions: seq<Version> := [];
    var i := 0;
    while i < |tags|
      invariant 0 <= i <= |tags|
      invariant versions == StableVersions(tags[..i])
    {
      var kept := KeepTag(tags[i]);
      StableVersionsStep(tags, i);
      if kept.Some? {
        versions := versions + [kept.value];
      }
      i := i + 1;
    }
    assert tags[..i] == tags;
    r := LatestVersion(versions);
  }

  /** The first maximal version is one of the versions and nothing ranks above it. */
  lemma FirstMaximalRanksAll(vs: seq<Version>)
    requires |vs| > 0
    ensures FirstMaximal(vs) in vs
    ensures forall w :: w in vs ==> !Less(FirstMaximal(vs), w)
  {
    FirstMaximalIsHead(vs);
  }

  /** What the probe finds: tags with a leading `v` that parse as releases;
      the selected version is the first of highest precedence among them. */
  lemma LatestStableMeaning(tags: seq<string>)
    requires StableVersions(tags) != []
    ensures var v := FirstMaximal(StableVersions(tags));
      && v.prerelease == []
      && (exists i :: 0 <= i < |tags| && tags[i] == "v" + Format(v))
      && (forall i :: 0 <= i < |tags| && StableOf(tags[i]).Some? ==> !Less(v, StableOf(tags[i]).value))
  {
    FirstMaximalRanksAll(StableVersions(tags));
    StableVersionsExact(tags);
  }

  /** Every release, written as `v` and its printed form, is kept as itself. */
  lemma StableOfFormatted(v: Version)
    requires v.prerelease == [] && AllBuildIds(v.build)
    ensures StableOf("v" + Format(v)) == Some(v)
  {
    FormatParse(v);
    assert ("v" + Format(v))[1..] == Format(v);
  }

  lemma FormatSmall(a: nat, b: nat, c: nat)
    requires a < 10 && b < 10 && c < 10
    ensures Format(Version(a, b, c, [], [])) == [DigitChar(a), '.', DigitChar(b), '.', DigitChar(c)]
  {
  }

  /** `v1.9.0` is kept as release 1.9.0. */
  lemma SampleRelease()
    ensures StableOf("v1.9.0") == Some(Version(1, 9, 0, [], []))
  {
    FormatSmall(1, 9, 0);
    StableOfFormatted(Version(1, 9, 0, [], []));
  }

  lemma FormatTen()
    ensures Format(Version(1, 10, 0, [], [])) == "1.10.0"
  {
    assert NatToString(10) == NatToString(1) + [DigitChar(0)];
  }

  /** `v1.10.0` is kept as release 1.10.0. */
  lemma SampleTenRelease()
    ensures StableOf("v1.10.0") == Some(Version(1, 10, 0, [], []))
  {
    FormatTen();
    StableOfFormatted(Version(1, 10, 0, [], []));
  }

  lemma FormatEleven()
    ensures Format(Version(1, 11, 0, ["rc1"], [])) == "1.11.0-rc1"
  {
    assert NatToString(11) == NatToString(1) + [DigitChar(1)];
    assert Suffix('-', ["rc1"]) == "-rc1";
  }

  /** `v1.11.0-rc1` is a pre-release and is dropped. */
  lemma SamplePreRelease()
    ensures StableOf("v1.11.0-rc1") == None
  {
    var rc := Version(1, 11, 0, ["rc1"], []);
    assert PreId("rc1");
    FormatParse(rc);
    FormatEleven();
    assert "v1.11.0-rc1"[1..] == Format(rc);
  }

  /** A kept tag appends its version. */
  lemma {:induction false} StableVersionsKeep(tags: seq<string>, i: nat, v: Version)
    requires i < |tags| && StableOf(tags[i]) == Some(v)
    ensures StableVersions(tags[..i + 1]) == StableVersions(tags[..i]) + [v]
  {
    StableVersionsStep(tags, i);
  }

  /** A dropped tag leaves the list as it was. */
  lemma {:induction false} StableVersionsDrop(tags: seq<string>, i: nat)
    requires i < |tags| && StableOf(tags[i]) == None
    ensures StableVersions(tags[..i + 1]) == StableVersions(tags[..i])
  {
    StableVersionsStep(tags, i);
  }

  /** Two kept tags followed by a dropped one give the two releases. */
  lemma {:induction false} StableVersionsOfThree(tags: seq<string>, a: Version, b: Version)
    requires |tags| == 3 && StableOf(tags[0]) == Some(a) && StableOf(tags[1]) == Some(b) && StableOf(tags[2]) == None
    ensures StableVersions(tags) == [a, b]
  {
    assert tags[..0] == [];
    StableVersionsKeep(tags, 0, a);
    StableVersionsKeep(tags, 1, b);
    StableVersionsDrop(tags, 2);
    assert tags[..3] == tags;
  }

  /** The releases kept from the sample tags, in tag order. */
  lemma SampleStableVersions()
    ensures StableVersions(["v1.9.0", "v1.10.0", "v1.11.0-rc1"]) == [Version(1, 9, 0, [], []), Version(1, 10, 0, [], [])]
  {
    SampleRelease();
    SampleTenRelease();
    SamplePreRelease();
    StableVersionsOfThree(["v1.9.0", "v1.10.0", "v1.11.0-rc1"], Version(1, 9, 0, [], []), Version(1, 10, 0, [], []));
  }

  /** As text, `1.10.0` sorts below `1.9.0`. */
  lemma TextualOrder()
    ensures LexLt("1.10.0", "1.9.0")
  {
    assert "1.10.0"[1..] == ".10.0" && "1.9.0"[1..] == ".9.0";
    assert ".10.0"[1..] == "10.0" && ".9.0"[1..] == "9.0";
  }

  /** Concretely: of `v1.9.0`, `v1.10.0` and `v1.11.0-rc1`, the pre-release is
      dropped and `1.10.0` is selected, ranking above `1.9.0` numerically
      although it sorts below it as text. */
  lemma NumericNotTextual()
    ensures StableVersions(["v1.9.0", "v1.10.0", "v1.11.0-rc1"]) == [Version(1, 9, 0, [], []), Version(1, 10, 0, [], [])]
    ensures LatestRelease(["v1.9.0", "v1.10.0", "v1.11.0-rc1"]) == Some(Version(1, 10, 0, [], []))
    ensures LatestTag(["v1.9.0", "v1.10.0", "v1.11.0-rc1"]) == Some("1.10.0")
    ensures LexLt("1.10.0", "1.9.0")
  {
    SampleStableVersions();
    var vs := [Version(1, 9, 0, [], []), Version(1, 10, 0, [], [])];
    assert vs[..1] == [Version(1, 9, 0, [], [])];
    assert Less(Version(1, 9, 0, [], []), Version(1, 10, 0, [], []));
    FormatTen();
    TextualOrder();
  }

  /** Lines 105-118 for one repository: the application image always maps to
      `[latest]`; the test image only when the registry knows it at that tag. */
  function RecordLatest(images: map<string, seq<string>>, app: string, test: string, latest: string,
                        testImageExists: string -> bool): map<string, seq<string>>
  {
    var withApp := images[app := [latest]];
    if testImageExists(test + ":" + latest) then withApp[test := [latest]] else withApp
  }

  /** The version the probe selects from a repository's tags, if any survives. */
  function LatestRelease(tags: seq<string>): Option<Version> {
    if StableVersions(tags) == [] then None else Some(FirstMaximal(StableVersions(tags)))
  }

  /** `str(latest_version)`, if a version was selected. */
  function LatestTag(tags: seq<string>): Option<string> {
    match LatestRelease(tags)
    case None => None
    case Some(v) => Some(Format(v))
  }

  /** The `latest_images` map after the given repositories, or the IndexError
      of the first repository without a release tag. */
  function LatestImages(repos: seq<string>, appImage: map<string, string>, testImage: map<string, string>,
                        latestOf: string -> Option<string>, testImageExists: string -> bool): Result<map<string, seq<string>>>
    requires forall i :: 0 <= i < |repos| ==> repos[i] in appImage && repos[i] in testImage
    decreases |repos|
  {
    if repos == [] then Ok(map[])
    else
      var n := |repos| - 1;
      match LatestImages(repos[..n], appImage, testImage, latestOf, testImageExists)
      case Err(f) => Err(f)
      case Ok(images) =>
        match latestOf(repos[n])
        case None => Err(IndexError("list index out of range"))
        case Some(tag) => Ok(RecordLatest(images, appImage[repos[n]], testImage[repos[n]], tag, testImageExists))
  }

  lemma {:induction false} LatestImagesFails(repos: seq<string>, appImage: map<string, string>, testImage: map<string, string>,
                                             latestOf: string -> Option<string>, testImageExists: string -> bool)
    requires forall i :: 0 <= i < |repos| ==> repos[i] in appImage && repos[i] in testImage
    ensures LatestImages(repos, appImage, testImage, latestOf, testImageExists).Err? <==>
      exists i :: 0 <= i < |repos| && latestOf(repos[i]).None?
    ensures LatestImages(repos, appImage, testImage, latestOf, testImageExists).Err? ==>
      LatestImages(repos, appImage, testImage, latestOf, testImageExists) == Err(IndexError("list index out of range"))
    decreases |repos|
  {
    if repos != [] {
      var n := |repos| - 1;
      var prefix := repos[..n];
      LatestImagesFails(prefix, appImage, testImage, latestOf, testImageExists);
      if exists i :: 0 <= i < n && latestOf(prefix[i]).None? {
        var i :| 0 <= i < n && latestOf(prefix[i]).None?;
        assert prefix[i] == repos[i];
      }
      if exists i :: 0 <= i < |repos| && latestOf(repos[i]).None? {
        var i :| 0 <= i < |repos| && latestOf(repos[i]).None?;
        if i < n {
          assert prefix[i] == repos[i];
        }
      }
    }
  }

  /** An image is in the result because some repository with that selected
      tag has it as its application image, or as a test image the registry
      knew at the tag. */
  predicate Accounted(image: string, tag: string, repos: seq<string>, appImage: map<string, string>,
                      testImage: map<string, string>, latestOf: string -> Option<string>, testImageExists: string -> bool)
    requires forall i :: 0 <= i < |repos| ==> repos[i] in appImage && repos[i] in testImage
  {
    exists i :: 0 <= i < |repos| && latestOf(repos[i]) == Some(tag) &&
      (image == appImage[repos[i]] || (image == testImage[repos[i]] && testImageExists(image + ":" + tag)))
  }

  /** No image is shared: each repository's application and test images are
      its own, and no application image is also a test image. */
  predicate ImagesDistinct(repos: seq<string>, appImage: map<string, string>, testImage: map<string, string>)
    requires forall i :: 0 <= i < |repos| ==> repos[i] in appImage && repos[i] in testImage
  {
    forall i, j :: 0 <= i < |repos| && 0 <= j < |repos| ==>
      && appImage[repos[i]] != testImage[repos[j]]
      && (i != j ==> appImage[repos[i]] != appImage[repos[j]] && testImage[repos[i]] != testImage[repos[j]])
  }

  /** Every image in the map is paired with a single tag. */
  lemma {:induction false} LatestImagesSingleTag(repos: seq<string>, appImage: map<string, string>, testImage: map<string, string>,
                                                 latestOf: string -> Option<string>, testImageExists: string -> bool)
    requires forall i :: 0 <= i < |repos| ==> repos[i] in appImage && repos[i] in testImage
    ensures var r := LatestImages(repos, appImage, testImage, latestOf, testImageExists);
      r.Ok? ==> forall image :: image in r.value ==> |r.value[image]| == 1
    decreases |repos|
  {
    if repos != [] {
      var n := |repos| - 1;
      LatestImagesSingleTag(repos[..n], appImage, testImage, latestOf, testImageExists);
    }
  }

  /** Each repository's application image is in the map. */
  lemma {:induction false} LatestImagesHasApps(repos: seq<string>, appImage: map<string, string>, testImage: map<string, string>,
                                               latestOf: string -> Option<string>, testImageExists: string -> bool)
    requires forall i :: 0 <= i < |repos| ==> repos[i] in appImage && repos[i] in testImage
    ensures var r := LatestImages(repos, appImage, testImage, latestOf, testImageExists);
      r.Ok? ==> forall i :: 0 <= i < |repos| ==> appImage[repos[i]] in r.value
    decreases |repos|
  {
    if repos != [] {
      var n := |repos| - 1;
      var prefix := repos[..n];
      assert forall i :: 0 <= i < n ==> prefix[i] == repos[i];
      LatestImagesHasApps(prefix, appImage, testImage, latestOf, testImageExists);
    }
  }

  /** Every image in the map carries the selected tag of a repository whose
      application image it is, or whose test image the registry knew at it. */
  lemma {:induction false} LatestImagesAccounted(repos: seq<string>, appImage: map<string, string>, testImage: map<string, string>,
                                                 latestOf: string -> Option<string>, testImageExists: string -> bool)
    requires forall i :: 0 <= i < |repos| ==> repos[i] in appImage && repos[i] in testImage
    ensures var r := LatestImages(repos, appImage, testImage, latestOf, testImageExists);
      r.Ok? ==> forall image :: image in r.value ==>
        (|r.value[image]| >= 1 && Accounted(image, r.value[image][0], repos, appImage, testImage, latestOf, testImageExists))
    decreases |repos|
  {
    if repos != [] {
      var n := |repos| - 1;
      var prefix := repos[..n];
      assert forall i :: 0 <= i < n ==> prefix[i] == repos[i];
      LatestImagesAccounted(prefix, appImage, testImage, latestOf, testImageExists);
      var prev := LatestImages(prefix, appImage, testImage, latestOf, testImageExists);
      var r := LatestImages(repos, appImage, testImage, latestOf, testImageExists);
      if r.Ok? {
        var latest := latestOf(repos[n]).value;
        var app, test := appImage[repos[n]], testImage[repos[n]];
        assert r.value == RecordLatest(prev.value, app, test, latest, testImageExists);
        forall image | image in r.value
          ensures |r.value[image]| >= 1 && Accounted(image, r.value[image][0], repos, appImage, testImage, latestOf, testImageExists)
        {
          if image == app {
            assert image == appImage[repos[n]];
          } else if image == test && testImageExists(test + ":" + latest) {
            assert r.value[image][0] == latest;
            assert image == testImage[repos[n]] && testImageExists(image + ":" + r.value[image][0]);
          } else {
            assert image in prev.value && r.value[image] == prev.value[image];
            assert Accounted(image, prev.value[image][0], prefix, appImage, testImage, latestOf, testImageExists);
            var i :| 0 <= i < n && latestOf(prefix[i]) == Some(prev.value[image][0]) &&
              (image == appImage[prefix[i]] ||
               (image == testImage[prefix[i]] && testImageExists(image + ":" + prev.value[image][0])));
            assert prefix[i] == repos[i];
          }
        }
      }
    }
  }

  /** With no image shared, each repository's application image maps to
      `[latest]` of that repository. */
  lemma {:induction false} LatestImagesAppValue(repos: seq<string>, appImage: map<string, string>, testImage: map<string, string>,
                                                latestOf: string -> Option<string>, testImageExists: string -> bool, i: nat)
    requires forall k :: 0 <= k < |repos| ==> repos[k] in appImage && repos[k] in testImage
    requires ImagesDistinct(repos, appImage, testImage)
    requires LatestImages(repos, appImage, testImage, latestOf, testImageExists).Ok?
    requires i < |repos|
    ensures latestOf(repos[i]).Some?
    ensures appImage[repos[i]] in LatestImages(repos, appImage, testImage, latestOf, testImageExists).value
    ensures LatestImages(repos, appImage, testImage, latestOf, testImageExists).value[appImage[repos[i]]] == [latestOf(repos[i]).value]
    decreases |repos|
  {
    var n := |repos| - 1;
    if i < n {
      var prefix := repos[..n];
      assert forall k :: 0 <= k < n ==> prefix[k] == repos[k];
      assert appImage[repos[i]] != appImage[repos[n]] && appImage[repos[i]] != testImage[repos[n]];
      LatestImagesAppValue(prefix, appImage, testImage, latestOf, testImageExists, i);
    }
  }

  /** With no image shared, a repository's test image is in the map exactly
      when the registry knows it at that repository's `latest`, and then maps
      to `[latest]`. */
  lemma {:induction false} LatestImagesTestValue(repos: seq<string>, appImage: map<string, string>, testImage: map<string, string>,
                                                 latestOf: string -> Option<string>, testImageExists: string -> bool, i: nat)
    requires forall k :: 0 <= k < |repos| ==> repos[k] in appImage && repos[k] in testImage
    requires ImagesDistinct(repos, appImage, testImage)
    requires LatestImages(repos, appImage, testImage, latestOf, testImageExists).Ok?
    requires i < |repos|
    ensures latestOf(repos[i]).Some?
    ensures var images := LatestImages(repos, appImage, testImage, latestOf, testImageExists).value;
      && (testImage[repos[i]] in images <==> testImageExists(testImage[repos[i]] + ":" + latestOf(repos[i]).value))
      && (testImage[repos[i]] in images ==> images[testImage[repos[i]]] == [latestOf(repos[i]).value])
    decreases |repos|
  {
    var n := |repos| - 1;
    var prefix := repos[..n];
    assert forall k :: 0 <= k < n ==> prefix[k] == repos[k];
    if i < n {
      assert testImage[repos[i]] != appImage[repos[n]] && testImage[repos[i]] != testImage[repos[n]];
      LatestImagesTestValue(prefix, appImage, testImage, latestOf, testImageExists, i);
    } else {
      var test := testImage[repos[n]];
      assert forall k :: 0 <= k < n ==> test != appImage[prefix[k]] && test != testImage[prefix[k]];
      LatestImagesUnlisted(prefix, appImage, testImage, latestOf, testImageExists, test);
      assert test != appImage[repos[n]];
    }
  }

  /** An image that is no repository's application or test image is never recorded. */
  lemma {:induction false} LatestImagesUnlisted(repos: seq<string>, appImage: map<string, string>, testImage: map<string, string>,
                                                latestOf: string -> Option<string>, testImageExists: string -> bool, image: string)
    requires forall k :: 0 <= k < |repos| ==> repos[k] in appImage && repos[k] in testImage
    requires forall k :: 0 <= k < |repos| ==> image != appImage[repos[k]] && image != testImage[repos[k]]
    requires LatestImages(repos, appImage, testImage, latestOf, testImageExists).Ok?
    ensures image !in LatestImages(repos, appImage, testImage, latestOf, testImageExists).value
    decreases |repos|
  {
    if repos != [] {
      var n := |repos| - 1;
      var prefix := repos[..n];
      assert forall k :: 0 <= k < n ==> prefix[k] == repos[k];
      LatestImagesUnlisted(prefix, appImage, testImage, latestOf, testImageExists, image);
    }
  }

  /** Lines 121-127: the single `bleeding-edge` release, with no git SHA and no git tags. */
  function BleedingEdgeOutput(images: map<string, seq<string>>): (r: map<string, ReleaseEntry>)
    ensures r.Keys == {BleedingEdgeRelease}
    ensures r[BleedingEdgeRelease] == ReleaseEntry(images, None, [])
  {
    map[BleedingEdgeRelease := ReleaseEntry(images, None, [])]
  }

  /** Lines 73-102 for one repository: the selected tag text, or the IndexError. */
  method LatestTagOf(tags: seq<string>) returns (r: Result<string>)
    ensures r.Err? <==> LatestTag(tags).None?
    ensures r.Ok? ==> LatestTag(tags) == Some(r.value)
    ensures r.Err? ==> r == Err(IndexError("list index out of range"))
  {
    var latest := LatestStable(tags);
    if latest.Err? {
      return Err(IndexError("list index out of range"));
    }
    return Ok(Format(latest.value));
  }

  /** The output the probe writes for the given configuration, given the tag
      selected for each repository (None for a repository without one). */
  function GatheredFrom(services: seq<ServiceConfig>, latestOf: string -> Option<string>, testImageExists: string -> bool): Result<map<string, ReleaseEntry>> {
    ImageLookupKeys(services, true);
    ImageLookupKeys(services, false);
    match LatestImages(Repos(services), ImageLookup(services, true), ImageLookup(services, false), latestOf, testImageExists)
    case Err(f) => Err(f)
    case Ok(images) => Ok(BleedingEdgeOutput(images))
  }

  /** The tag the probe selects for each repository, from its GitHub tags. */
  function LatestOf(tagsOf: string -> seq<string>): string -> Option<string> {
    repo => LatestTag(tagsOf(repo))
  }

  /** The output the probe writes for the given configuration, tags and registry. */
  function Gathered(services: seq<ServiceConfig>, tagsOf: string -> seq<string>, testImageExists: string -> bool): Result<map<string, ReleaseEntry>> {
    GatheredFrom(services, LatestOf(tagsOf), testImageExists)
  }

  /** The tag selected for each repository, in order, or None when some
      repository has none. */
  function SelectedTags(repos: seq<string>, latestOf: string -> Option<string>): Option<seq<string>>
    decreases |repos|
  {
    if repos == [] then Some([])
    else
      var n := |repos| - 1;
      match SelectedTags(repos[..n], latestOf)
      case None => None
      case Some(ts) =>
        match latestOf(repos[n])
        case None => None
        case Some(t) => Some(ts + [t])
  }

  /** One tag per repository, each the one selected for it; and no list at
      all exactly when some repository has no tag. */
  lemma {:induction false} SelectedTagsMeaning(repos: seq<string>, latestOf: string -> Option<string>)
    ensures SelectedTags(repos, latestOf).None? <==> exists i :: 0 <= i < |repos| && latestOf(repos[i]).None?
    ensures SelectedTags(repos, latestOf).Some? ==>
      && |SelectedTags(repos, latestOf).value| == |repos|
      && forall i :: 0 <= i < |repos| ==> latestOf(repos[i]) == Some(SelectedTags(repos, latestOf).value[i])
    decreases |repos|
  {
    if repos != [] {
      var n := |repos| - 1;
      SelectedTagsMeaning(repos[..n], latestOf);
      assert forall i :: 0 <= i < n ==> repos[..n][i] == repos[i];
      if SelectedTags(repos[..n], latestOf).None? {
        var i :| 0 <= i < n && latestOf(repos[..n][i]).None?;
        assert latestOf(repos[i]).None?;
      }
    }
  }

  lemma {:induction false} SelectedTagsNoneSticky(repos: seq<string>, latestOf: string -> Option<string>, k: nat)
    requires k <= |repos|
    requires SelectedTags(repos[..k], latestOf).None?
    ensures SelectedTags(repos, latestOf).None?
    decreases |repos| - k
  {
    if k < |repos| {
      var n := |repos| - 1;
      assert repos[..n][..k] == repos[..k];
      SelectedTagsNoneSticky(repos[..n], latestOf, k);
    } else {
      assert repos[..k] == repos;
    }
  }

  /** Lines 73-102 over every repository: the tag selected for each, or the
      IndexError of a repository without a release tag. */
  method LatestTags(repos: seq<string>, tagsOf: string -> seq<string>) returns (r: Result<seq<string>>)
    ensures SelectedTags(repos, LatestOf(tagsOf)).None? ==> r == Err(IndexError("list index out of range"))
    ensures SelectedTags(repos, LatestOf(tagsOf)).Some? ==> r == Ok(SelectedTags(repos, LatestOf(tagsOf)).value)
  {
    ghost var latestOf := LatestOf(tagsOf);
    var tags: seq<string> := [];
    var i := 0;
    while i < |repos|
      invariant 0 <= i <= |repos|
      invariant SelectedTags(repos[..i], latestOf) == Some(tags)
    {
      assert repos[..i + 1][..i] == repos[..i];
      var latest := LatestTagOf(tagsOf(repos[i]));
      assert latestOf(repos[i]) == LatestTag(tagsOf(repos[i]));
      if latest.Err? {
        SelectedTagsNoneSticky(repos, latestOf, i + 1);
        return Err(latest.fault);
      }
      tags := tags + [latest.value];
      i := i + 1;
    }
    assert repos[..i] == repos;
    return Ok(tags);
  }

  /** Lines 104-118: the `latest_images` map built from the selected tags. */
  method RecordImages(repos: seq<string>, appImage: map<string, string>, testImage: map<string, string>,
                      latestOf: string -> Option<string>, tags: seq<string>, testImageExists: string -> bool)
    returns (images: map<string, seq<string>>)
    requires forall i :: 0 <= i < |repos| ==> repos[i] in appImage && repos[i] in testImage
    requires |tags| == |repos|
    requires forall i :: 0 <= i < |repos| ==> latestOf(repos[i]) == Some(tags[i])
    ensures LatestImages(repos, appImage, testImage, latestOf, testImageExists) == Ok(images)
  {
    images := map[];
    var i := 0;
    while i < |repos|
      invariant 0 <= i <= |repos|
      invariant LatestImages(repos[..i], appImage, testImage, latestOf, testImageExists) == Ok(images)
    {
      assert repos[..i + 1][..i] == repos[..i];
      var tag := tags[i];
      images := images[appImage[repos[i]] := [tag]];
      if testImageExists(testImage[repos[i]] + ":" + tag) {
        images := images[testImage[repos[i]] := [tag]];
      }
      i := i + 1;
    }
    assert repos[..i] == repos;
  }

  /** The whole probe, with the GitHub tags and the registry as inputs: it fails
      exactly when some repository has no release tag, and otherwise writes the
      single `bleeding-edge` release with no git SHA and no git tags. */
  method GatherBleedingEdge(services: seq<ServiceConfig>, tagsOf: string -> seq<string>, testImageExists: string -> bool)
    returns (r: Result<map<string, ReleaseEntry>>)
    ensures r == Gathered(services, tagsOf, testImageExists)
  {
    var repos, appImage, testImage := ServiceLookups(services);
    ImageLookupKeys(services, true);
    ImageLookupKeys(services, false);
    var latestOf := LatestOf(tagsOf);
    LatestImagesFails(repos, appImage, testImage, latestOf, testImageExists);
    var tags := LatestTags(repos, tagsOf);
    SelectedTagsMeaning(repos, latestOf);
    if tags.Err? {
      return Err(tags.fault);
    }
    var images := RecordImages(repos, appImage, testImage, latestOf, tags.value, testImageExists);
    return Ok(BleedingEdgeOutput(images));
  }

  /** The probe fails exactly when some configured repository has no selected
      tag, and otherwise writes the single `bleeding-edge` release, with no git
      SHA and no git tags, whose images all carry one tag and include every
      repository's application image. */
  lemma GatheredFromMeaning(services: seq<ServiceConfig>, latestOf: string -> Option<string>, testImageExists: string -> bool)
    ensures GatheredFrom(services, latestOf, testImageExists).Err? <==>
      exists i :: 0 <= i < |services| && latestOf(services[i].githubRepo).None?
    ensures var r := GatheredFrom(services, latestOf, testImageExists);
      r.Ok? ==>
        && r.value.Keys == {BleedingEdgeRelease}
        && r.value[BleedingEdgeRelease].gitSha.None?
        && r.value[BleedingEdgeRelease].gitTags == []
        && (forall image :: image in r.value[BleedingEdgeRelease].images ==> |r.value[BleedingEdgeRelease].images[image]| == 1)
        && (forall i :: 0 <= i < |services| ==>
              && services[i].githubRepo in ImageLookup(services, true)
              && services[i].githubRepo in ImageLookup(services, false)
              && ImageLookup(services, true)[services[i].githubRepo] in r.value[BleedingEdgeRelease].images)
        && (forall image :: image in r.value[BleedingEdgeRelease].images ==>
              Accounted(image, r.value[BleedingEdgeRelease].images[image][0], Repos(services),
                        ImageLookup(services, true), ImageLookup(services, false), latestOf, testImageExists))
  {
    var repos := Repos(services);
    ImageLookupKeys(services, true);
    ImageLookupKeys(services, false);
    LatestImagesFails(repos, ImageLookup(services, true), ImageLookup(services, false), latestOf, testImageExists);
    LatestImagesSingleTag(repos, ImageLookup(services, true), ImageLookup(services, false), latestOf, testImageExists);
    LatestImagesHasApps(repos, ImageLookup(services, true), ImageLookup(services, false), latestOf, testImageExists);
    LatestImagesAccounted(repos, ImageLookup(services, true), ImageLookup(services, false), latestOf, testImageExists);
  }

  /** Every service names its own repository, application image and test
      image, and no application image is also a test image. */
  predicate DistinctServices(services: seq<ServiceConfig>) {
    forall i, j :: 0 <= i < |services| && 0 <= j < |services| ==>
      && services[i].applicationImage != services[j].testImage
      && (i != j ==>
            && services[i].githubRepo != services[j].githubRepo
            && services[i].applicationImage != services[j].applicationImage
            && services[i].testImage != services[j].testImage)
  }

  /** For services that share nothing, the output records each service's
      application image at its repository's selected tag, and its test image
      at that tag exactly when the registry knows it there. */
  lemma GatheredImageValues(services: seq<ServiceConfig>, latestOf: string -> Option<string>, testImageExists: string -> bool, i: nat)
    requires DistinctServices(services)
    requires GatheredFrom(services, latestOf, testImageExists).Ok?
    requires i < |services|
    ensures latestOf(services[i].githubRepo).Some?
    ensures var images := GatheredFrom(services, latestOf, testImageExists).value[BleedingEdgeRelease].images;
      var latest := latestOf(services[i].githubRepo).value;
      && services[i].applicationImage in images
      && images[services[i].applicationImage] == [latest]
      && (services[i].testImage in images <==> testImageExists(services[i].testImage + ":" + latest))
      && (services[i].testImage in images ==> images[services[i].testImage] == [latest])
  {
    var repos := Repos(services);
    var app, test := ImageLookup(services, true), ImageLookup(services, false);
    ImageLookupKeys(services, true);
    ImageLookupKeys(services, false);
    forall k | 0 <= k < |services|
      ensures app[repos[k]] == services[k].applicationImage && test[repos[k]] == services[k].testImage
    {
      assert LastOfRepo(services, k);
      ImageLookupLastWins(services, true, k);
      ImageLookupLastWins(services, false, k);
    }
    assert ImagesDistinct(repos, app, test);
    LatestImagesAppValue(repos, app, test, latestOf, testImageExists, i);
    LatestImagesTestValue(repos, app, test, latestOf, testImageExists, i);
  }
}
