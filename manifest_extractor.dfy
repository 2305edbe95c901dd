/** The image inventory built by csm_manifest_extractor.py: image tags recovered
    from the manifest repository's docker index diff, merged per GitHub
    repository with the images that templating each Helm chart reveals, the
    per-chart value overrides, and the final release -> images inversion. */
module ManifestExtractor {
  import opened Common

  /** The stable docker registry path the manifest's docker index lists. */
  const StableRepository := "artifactory.algol60.net/csm-docker/stable"
  const StableRegistry := StableRepository + "/"

  /** The documented shape of a changed path in the docker index diff is
      DiffPathPrefix + NAME + DiffPathSuffix. */
  const DiffPathPrefix := "root['" + StableRepository + "']['images']['"
  const DiffPathSuffix := "'][0]"

  // ---------------------------------------------------------------------------
  // Image names from diff paths
  // ---------------------------------------------------------------------------

  /** The third `]`-separated segment of the path with every `[` and `'`
      removed; IndexError when the path has fewer than three segments. */
  function ImageNameFromDiff(path: string): (r: Result<string>)
    ensures r.Ok? <==> Count(path, ']') >= 2
    ensures r.Ok? ==> '[' !in r.value && '\'' !in r.value && ']' !in r.value
  {
    var segments := Split(path, ']');
    if |segments| < 3 then Err(IndexError("list index out of range"))
    else
      var noBracket := ReplaceAll(segments[2], "[", "");
      RemoveCharGone(segments[2], '[');
      RemoveCharGone(noBracket, '\'');
      Ok(ReplaceAll(noBracket, "'", ""))
  }

  /** `GetDockerImageFromDiff(value, tag)`. */
  function GetDockerImageFromDiff(path: string, tag: string): (r: Result<string>)
    ensures r.Ok? <==> Count(path, ']') >= 2
    ensures r.Ok? ==> r.value == StableRegistry + ImageNameFromDiff(path).value + ":" + tag
  {
    match ImageNameFromDiff(path)
    case Err(f) => Err(f)
    case Ok(name) => Ok(StableRegistry + name + ":" + tag)
  }

  /** `FindImagePart(value)`: strip the documented prefix and suffix wherever they occur. */
  function FindImagePart(path: string): string {
    ReplaceAll(ReplaceAll(path, DiffPathPrefix, ""), DiffPathSuffix, "")
  }

  lemma CharAbsentNoMatch(a: string, b: string, c: char)
    requires c !in a
    ensures forall i :: 0 <= i < |a| ==> !MatchesAt(a + b, [c], i)
  {
    forall i | 0 <= i < |a|
      ensures !MatchesAt(a + b, [c], i)
    {
      if i + 1 <= |a + b| {
        assert (a + b)[i..i + 1] == [a[i]];
      }
    }
  }

  lemma StripPrefixOfPath(name: string)
    requires '[' !in name
    ensures ReplaceAll(DiffPathPrefix + name + DiffPathSuffix, DiffPathPrefix, "") == name + DiffPathSuffix
  {
    var tail := name + DiffPathSuffix;
    assert DiffPathPrefix + name + DiffPathSuffix == DiffPathPrefix + tail;
    ReplaceAllAtStart(DiffPathPrefix, tail, "");
    assert tail + "" == tail;
    forall i | 0 <= i < |tail|
      ensures !MatchesAt(tail + "", DiffPathPrefix, i)
    {
      if i + |DiffPathPrefix| <= |tail| {
        assert tail[i..i + |DiffPathPrefix|][4] == tail[i + 4] == name[i + 4];
        assert DiffPathPrefix[4] == '[';
      }
    }
    ReplaceAllSkips(tail, "", DiffPathPrefix, "");
    ReplaceAllEmpty(DiffPathPrefix, "");
  }

  lemma StripSuffixOfPath(name: string)
    requires '\'' !in name
    ensures ReplaceAll(name + DiffPathSuffix, DiffPathSuffix, "") == name
  {
    var tail := name + DiffPathSuffix;
    forall i | 0 <= i < |name|
      ensures !MatchesAt(tail, DiffPathSuffix, i)
    {
      if i + |DiffPathSuffix| <= |tail| {
        assert tail[i..i + |DiffPathSuffix|][0] == name[i];
      }
    }
    ReplaceAllSkips(name, DiffPathSuffix, DiffPathSuffix, "");
    assert DiffPathSuffix == DiffPathSuffix + "";
    ReplaceAllAtStart(DiffPathSuffix, "", "");
    ReplaceAllEmpty(DiffPathSuffix, "");
    assert name + "" == name;
  }

  /** The documented path, cut at its `]`s. */
  lemma PathPieces(name: string)
    ensures DiffPathPrefix + name + DiffPathSuffix ==
      DiffRootKey + [']'] + ("['images'" + [']'] + (("['" + name + "'") + [']'] + ("[0" + [']'] + "")))
  {
    assert DiffPathPrefix == DiffRootKey + [']'] + "['images'" + [']'] + "['";
    assert DiffPathSuffix == "'" + [']'] + "[0" + [']'];
  }

  const DiffRootKey := "root['" + StableRepository + "'"

  /** The third `]`-separated piece of a text with three leading `]`-free pieces. */
  lemma ThirdPiece(x: string, y: string, z: string, rest: string)
    requires ']' !in x && ']' !in y && ']' !in z
    ensures |Split(x + [']'] + (y + [']'] + (z + [']'] + rest)), ']')| >= 3
    ensures Split(x + [']'] + (y + [']'] + (z + [']'] + rest)), ']')[2] == z
  {
    SplitAtFirst(x, ']', y + [']'] + (z + [']'] + rest));
    SplitAtFirst(y, ']', z + [']'] + rest);
    SplitAtFirst(z, ']', rest);
  }

  lemma ThirdSegmentOfPath(name: string)
    requires ']' !in name
    ensures |Split(DiffPathPrefix + name + DiffPathSuffix, ']')| >= 3
    ensures Split(DiffPathPrefix + name + DiffPathSuffix, ']')[2] == "['" + name + "'"
  {
    PathPieces(name);
    assert ']' !in DiffRootKey;
    ThirdPiece(DiffRootKey, "['images'", "['" + name + "'", "[0" + [']'] + "");
  }

  lemma StripQuotes(name: string)
    requires '[' !in name && '\'' !in name
    ensures ReplaceAll(ReplaceAll("['" + name + "'", "[", ""), "'", "") == name
  {
    var quoted := "'" + name + "'";
    assert "['" + name + "'" == "[" + quoted;
    ReplaceAllAtStart("[", quoted, "");
    CharAbsentNoMatch(quoted, "", '[');
    assert quoted + "" == quoted;
    ReplaceAllSkips(quoted, "", "[", "");
    ReplaceAllEmpty("[", "");
    assert ReplaceAll("['" + name + "'", "[", "") == quoted;
    assert quoted == "'" + (name + "'");
    ReplaceAllAtStart("'", name + "'", "");
    CharAbsentNoMatch(name, "'", '\'');
    ReplaceAllSkips(name, "'", "'", "");
    assert "'" == "'" + "";
    ReplaceAllAtStart("'", "", "");
    ReplaceAllEmpty("'", "");
    assert name + "" == name;
  }

  /** For a path of the documented shape whose NAME holds no quote or bracket,
      FindImagePart yields NAME, and GetDockerImageFromDiff yields the stable
      registry image NAME:tag: the two functions agree on the name. */
  lemma FindImagePartAgrees(name: string, tag: string)
    requires '[' !in name && ']' !in name && '\'' !in name
    ensures FindImagePart(DiffPathPrefix + name + DiffPathSuffix) == name
    ensures GetDockerImageFromDiff(DiffPathPrefix + name + DiffPathSuffix, tag) == Ok(StableRegistry + name + ":" + tag)
  {
    StripPrefixOfPath(name);
    StripSuffixOfPath(name);
    ThirdSegmentOfPath(name);
    StripQuotes(name);
  }

  // ---------------------------------------------------------------------------
  // Git tags of a release branch
  // ---------------------------------------------------------------------------

  /** The lines of `output` that are not empty, in order. */
  function NonEmptyLines(lines: seq<string>): (r: seq<string>)
    ensures "" !in r
    ensures forall l :: l in r <==> l in lines && l != ""
    decreases |lines|
  {
    if lines == [] then []
    else
      var rest := NonEmptyLines(lines[..|lines| - 1]);
      assert lines == lines[..|lines| - 1] + [lines[|lines| - 1]];
      if lines[|lines| - 1] == "" then rest else rest + [lines[|lines| - 1]]
  }

  /** `list(filter(lambda e: e != "", output.split("\n")))` for the output of
      `git tag --points-at HEAD`: no tag is the empty string, and every
      non-empty line is a tag. */
  function GitTagsOf(output: string): (tags: seq<string>)
    ensures "" !in tags
    ensures forall t :: t in tags <==> t in Split(output, '\n') && t != ""
  {
    NonEmptyLines(Split(output, '\n'))
  }

  // ---------------------------------------------------------------------------
  // Image tuples from the diff
  // ---------------------------------------------------------------------------

  /** One entry of DeepDiff's `values_changed`: the changed path and its new value. */
  datatype DiffChange = DiffChange(path: string, newValue: string)

  /** `(full_docker_image_name, docker_image_to_rebuild, image_tag)` */
  datatype ImageTuple = ImageTuple(fullImage: string, shortName: string, tag: string)

  function TupleOf(c: DiffChange): Result<ImageTuple> {
    match GetDockerImageFromDiff(c.path, c.newValue)
    case Err(f) => Err(f)
    case Ok(full) => Ok(ImageTuple(full, FindImagePart(c.path), c.newValue))
  }

  /** The loop at lines 165-172: one tuple per changed value, in diff order;
      the first path without three segments aborts the run. */
  method CollectImageTuples(changed: seq<DiffChange>) returns (r: Result<seq<ImageTuple>>)
    ensures r.Ok? <==> forall i :: 0 <= i < |changed| ==> Count(changed[i].path, ']') >= 2
    ensures r.Ok? ==> |r.value| == |changed|
    ensures r.Ok? ==> forall i :: 0 <= i < |changed| ==>
      r.value[i].tag == changed[i].newValue &&
      r.value[i].shortName == FindImagePart(changed[i].path) &&
      r.value[i].fullImage == StableRegistry + ImageNameFromDiff(changed[i].path).value + ":" + changed[i].newValue
  {
    var tuples: seq<ImageTuple> := [];
    var i := 0;
    while i < |changed|
      invariant 0 <= i <= |changed|
      invariant |tuples| == i
      invariant forall k :: 0 <= k < i ==> Count(changed[k].path, ']') >= 2 && TupleOf(changed[k]) == Ok(tuples[k])
    {
      var t := TupleOf(changed[i]);
      if t.Err? {
        return Err(t.fault);
      }
      tuples := tuples + [t.value];
      i := i + 1;
    }
    return Ok(tuples);
  }

  /** `list(set(docker_image_tuples))`: no triple twice and exactly the same
      triples. Python leaves the order unspecified; this keeps first sightings. */
  method DedupTuples(ts: seq<ImageTuple>) returns (r: seq<ImageTuple>)
    ensures NoDuplicates(r)
    ensures Elements(r) == Elements(ts)
  {
    r := [];
    var i := 0;
    while i < |ts|
      invariant 0 <= i <= |ts|
      invariant NoDuplicates(r)
      invariant Elements(r) == Elements(ts[..i])
    {
      assert ts[..i + 1] == ts[..i] + [ts[i]];
      if ts[i] !in r {
        r := r + [ts[i]];
      }
      assert Elements(ts[..i + 1]) == Elements(ts[..i]) + {ts[i]};
      i := i + 1;
    }
    assert ts[..i] == ts;
  }

  // ---------------------------------------------------------------------------
  // Image short name -> GitHub repository lookup
  // ---------------------------------------------------------------------------

  /** One entry of `github-repo-image-lookup`. */
  datatype RepoMapping = RepoMapping(image: string, githubRepo: string)

  /** The loop at lines 188-190: the lookup table (a later entry for the same
      image wins) and the list of short names of interest. */
  method BuildRepoLookup(mappings: seq<RepoMapping>) returns (lookup: map<string, string>, ofInterest: seq<string>)
    ensures |ofInterest| == |mappings|
    ensures forall i :: 0 <= i < |mappings| ==> ofInterest[i] == mappings[i].image
    ensures Elements(ofInterest) == lookup.Keys
    ensures forall i :: 0 <= i < |mappings| && (forall j :: i < j < |mappings| ==> mappings[j].image != mappings[i].image) ==>
      lookup[mappings[i].image] == mappings[i].githubRepo
  {
    lookup := map[];
    ofInterest := [];
    var i := 0;
    while i < |mappings|
      invariant 0 <= i <= |mappings|
      invariant |ofInterest| == i
      invariant forall k :: 0 <= k < i ==> ofInterest[k] == mappings[k].image
      invariant Elements(ofInterest) == lookup.Keys
      invariant forall k :: 0 <= k < i && (forall j :: k < j < i ==> mappings[j].image != mappings[k].image) ==>
        lookup[mappings[k].image] == mappings[k].githubRepo
    {
      lookup := lookup[mappings[i].image := mappings[i].githubRepo];
      ofInterest := ofInterest + [mappings[i].image];
      i := i + 1;
    }
  }

  // ---------------------------------------------------------------------------
  // The images-to-rebuild table
  // ---------------------------------------------------------------------------

  /** One record of `images_to_rebuild[github_repo]`. */
  datatype ImageRecord = ImageRecord(fullImage: string, shortName: string, imageTag: string, csmReleases: seq<string>)

  /** `images_to_rebuild`: GitHub repository -> records, with the dict's
      insertion order kept in `order`. */
  datatype RebuildTable = RebuildTable(order: seq<string>, repos: map<string, seq<ImageRecord>>) {
    predicate Valid() {
      NoDuplicates(order) && Elements(order) == repos.Keys
    }
  }

  predicate HasImage(list: seq<ImageRecord>, fullImage: string) {
    exists k :: 0 <= k < |list| && list[k].fullImage == fullImage
  }

  /** Within one repository's list no full image appears twice. */
  predicate UniqueImages(list: seq<ImageRecord>) {
    forall i, j :: 0 <= i < j < |list| ==> list[i].fullImage != list[j].fullImage
  }

  predicate TableUnique(t: RebuildTable) {
    forall repo :: repo in t.repos ==> UniqueImages(t.repos[repo])
  }

  /** `if github_repo not in images_to_rebuild: images_to_rebuild[github_repo] = []` */
  function EnsureRepo(t: RebuildTable, repo: string): (r: RebuildTable)
    requires t.Valid()
    ensures r.Valid() && repo in r.repos
    ensures forall k :: k in t.repos ==> k in r.repos && r.repos[k] == t.repos[k]
    ensures r.repos.Keys == t.repos.Keys + {repo}
    ensures repo !in t.repos ==> r.repos[repo] == []
  {
    if repo in t.repos then t
    else RebuildTable(t.order + [repo], t.repos[repo := []])
  }

  /** The branch appended to every record of the full image (lines 208-210). */
  function AppendBranchWhere(list: seq<ImageRecord>, fullImage: string, branch: string): (r: seq<ImageRecord>)
    ensures |r| == |list|
  {
    seq(|list|, k requires 0 <= k < |list| =>
      if list[k].fullImage == fullImage then list[k].(csmReleases := list[k].csmReleases + [branch]) else list[k])
  }

  /** Lines 192-210 for one found image of a release branch. */
  function AddFound(t: RebuildTable, lookup: map<string, string>, img: ImageTuple, branch: string): (r: RebuildTable)
    requires t.Valid()
    ensures r.Valid()
  {
    if img.shortName !in lookup then t
    else
      var repo := lookup[img.shortName];
      var t1 := EnsureRepo(t, repo);
      var list := t1.repos[repo];
      if !HasImage(list, img.fullImage) then
        t1.(repos := t1.repos[repo := list + [ImageRecord(img.fullImage, img.shortName, img.tag, [branch])]])
      else
        t1.(repos := t1.repos[repo := AppendBranchWhere(list, img.fullImage, branch)])
  }

  /** All found images of one release branch, in order. */
  function MergeFound(t: RebuildTable, lookup: map<string, string>, found: seq<ImageTuple>, branch: string): (r: RebuildTable)
    requires t.Valid()
    ensures r.Valid()
    decreases |found|
  {
    if found == [] then t
    else AddFound(MergeFound(t, lookup, found[..|found| - 1], branch), lookup, found[|found| - 1], branch)
  }

  /** What one found image does to the table: an image whose short name the
      lookup does not know is ignored; otherwise it lands under the GitHub
      repository the lookup names, as a new record with `csm-releases =
      [branch]` when its full image is new there, or by appending the branch
      to the record that holds it. Every other repository is untouched. */
  lemma AddFoundEffect(t: RebuildTable, lookup: map<string, string>, img: ImageTuple, branch: string)
    requires t.Valid() && TableUnique(t)
    ensures var r := AddFound(t, lookup, img, branch);
      && (img.shortName !in lookup ==> r == t)
      && (img.shortName in lookup ==>
            var repo := lookup[img.shortName];
            var before := if repo in t.repos then t.repos[repo] else [];
            && r.repos.Keys == t.repos.Keys + {repo}
            && (forall k :: k in t.repos && k != repo ==> r.repos[k] == t.repos[k])
            && HasImage(r.repos[repo], img.fullImage)
            && (!HasImage(before, img.fullImage) ==>
                  r.repos[repo] == before + [ImageRecord(img.fullImage, img.shortName, img.tag, [branch])])
            && (HasImage(before, img.fullImage) ==>
                  |r.repos[repo]| == |before| &&
                  forall k :: 0 <= k < |before| ==>
                    r.repos[repo][k] == (if before[k].fullImage == img.fullImage
                                         then before[k].(csmReleases := before[k].csmReleases + [branch])
                                         else before[k])))
  {
    if img.shortName in lookup {
      var repo := lookup[img.shortName];
      var r := AddFound(t, lookup, img, branch);
      var before := if repo in t.repos then t.repos[repo] else [];
      if HasImage(before, img.fullImage) {
        var k :| 0 <= k < |before| && before[k].fullImage == img.fullImage;
        assert r.repos[repo][k].fullImage == img.fullImage;
      } else {
        assert r.repos[repo][|before|].fullImage == img.fullImage;
      }
    }
  }

  lemma AddFoundKeepsUnique(t: RebuildTable, lookup: map<string, string>, img: ImageTuple, branch: string)
    requires t.Valid() && TableUnique(t)
    ensures TableUnique(AddFound(t, lookup, img, branch))
  {
  }

  /** Merging a whole branch's found images keeps every repository's full
      images unique. */
  lemma {:induction false} MergeFoundKeepsUnique(t: RebuildTable, lookup: map<string, string>, found: seq<ImageTuple>, branch: string)
    requires t.Valid() && TableUnique(t)
    ensures TableUnique(MergeFound(t, lookup, found, branch))
    decreases |found|
  {
    if found != [] {
      MergeFoundKeepsUnique(t, lookup, found[..|found| - 1], branch);
      AddFoundKeepsUnique(MergeFound(t, lookup, found[..|found| - 1], branch), lookup, found[|found| - 1], branch);
    }
  }

  /** Only repositories that the lookup maps some short name to are added. */
  lemma {:induction false} MergeFoundRepos(t: RebuildTable, lookup: map<string, string>, found: seq<ImageTuple>, branch: string)
    requires t.Valid()
    ensures forall repo :: repo in MergeFound(t, lookup, found, branch).repos ==>
      repo in t.repos || exists i :: 0 <= i < |found| && found[i].shortName in lookup && lookup[found[i].shortName] == repo
    decreases |found|
  {
    if found != [] {
      var n := |found| - 1;
      MergeFoundRepos(t, lookup, found[..n], branch);
      forall repo | repo in MergeFound(t, lookup, found, branch).repos
        ensures repo in t.repos || exists i :: 0 <= i < |found| && found[i].shortName in lookup && lookup[found[i].shortName] == repo
      {
        if repo !in MergeFound(t, lookup, found[..n], branch).repos {
          assert found[n].shortName in lookup && lookup[found[n].shortName] == repo;
        } else if repo !in t.repos {
          var i :| 0 <= i < n && found[..n][i].shortName in lookup && lookup[found[..n][i].shortName] == repo;
          assert found[i] == found[..n][i];
        }
      }
    }
  }

  /** The loop at lines 192-210 over the found images of one release branch,
      growing each repository's list and each record's release list in place. */
  method MergeFoundImages(t: RebuildTable, lookup: map<string, string>, found: seq<ImageTuple>, branch: string)
    returns (r: RebuildTable)
    requires t.Valid()
    ensures r.Valid()
    ensures r == MergeFound(t, lookup, found, branch)
  {
    r := t;
    var i := 0;
    while i < |found|
      invariant 0 <= i <= |found|
      invariant r.Valid()
      invariant r == MergeFound(t, lookup, found[..i], branch)
    {
      assert found[..i + 1][..i] == found[..i];
      var img := found[i];
      if img.shortName in lookup {
        var repo := lookup[img.shortName];
        if repo !in r.repos {
          r := RebuildTable(r.order + [repo], r.repos[repo := []]);
        }
        var list := r.repos[repo];
        if !HasImage(list, img.fullImage) {
          r := r.(repos := r.repos[repo := list + [ImageRecord(img.fullImage, img.shortName, img.tag, [branch])]]);
        } else {
          var k := 0;
          var updated := list;
          while k < |updated|
            invariant 0 <= k <= |updated| == |list|
            invariant forall m :: 0 <= m < k ==> updated[m] == AppendBranchWhere(list, img.fullImage, branch)[m]
            invariant forall m :: k <= m < |updated| ==> updated[m] == list[m]
          {
            if updated[k].fullImage == img.fullImage {
              updated := updated[k := updated[k].(csmReleases := updated[k].csmReleases + [branch])];
            }
            k := k + 1;
          }
          assert updated == AppendBranchWhere(list, img.fullImage, branch);
          r := r.(repos := r.repos[repo := updated]);
        }
      }
      i := i + 1;
    }
    assert found[..i] == found;
  }

  // ---------------------------------------------------------------------------
  // Images revealed by templating a Helm chart
  // ---------------------------------------------------------------------------

  /** What the pass over a downloaded chart reads from its values.yaml. */
  datatype ChartValues = ChartValues(
    imageRepository: Option<string>,             // image.repository
    powerControlImageRepository: Option<string>, // cray-service.containers.cray-power-control.image.repository
    globalKeys: Option<set<string>>,             // the keys of global
    testsImageRepository: Option<string>)        // tests.image.repository

  /** `chart["sources"][0].split('/')[-1]`: the GitHub repository of a chart. */
  function GithubRepoOfChart(sources: seq<string>): (r: Result<string>)
    ensures r.Ok? <==> |sources| > 0
    ensures r.Ok? ==> '/' !in r.value && IsSuffix(r.value, sources[0])
    ensures r.Ok? ==> r.value == sources[0] || sources[0][|sources[0]| - |r.value| - 1] == '/'
  {
    if |sources| == 0 then Err(IndexError("list index out of range"))
    else
      BasenameMaximal(sources[0]);
      Ok(Basename(sources[0]))
  }

  /** Lines 381-387: the application image repository (found elsewhere for
      cray-power-control), then the test image repository when the chart
      declares a test version. A missing key raises KeyError. */
  function ReposOfInterest(entry: string, values: ChartValues): (r: Result<seq<string>>)
    ensures r.Ok? <==>
      (if entry == "cray-power-control" then values.powerControlImageRepository.Some? else values.imageRepository.Some?) &&
      values.globalKeys.Some? &&
      ("testVersion" in values.globalKeys.value ==> values.testsImageRepository.Some?)
    ensures r.Ok? ==> 1 <= |r.value| <= 2
    ensures r.Ok? ==> r.value[0] == (if entry == "cray-power-control" then values.powerControlImageRepository.value else values.imageRepository.value)
    ensures r.Ok? ==> (|r.value| == 2 <==> "testVersion" in values.globalKeys.value)
    ensures r.Ok? && |r.value| == 2 ==> r.value[1] == values.testsImageRepository.value
  {
    var app := if entry == "cray-power-control" then values.powerControlImageRepository else values.imageRepository;
    if app.None? then Err(KeyError(if entry == "cray-power-control" then "cray-service" else "image"))
    else if values.globalKeys.None? then Err(KeyError("global"))
    else if "testVersion" !in values.globalKeys.value then Ok([app.value])
    else if values.testsImageRepository.None? then Err(KeyError("tests"))
    else Ok([app.value, values.testsImageRepository.value])
  }

  /** A record may take the branch: it holds the image and not yet the branch. */
  predicate Eligible(rec: ImageRecord, fullImage: string, branch: string) {
    rec.fullImage == fullImage && branch !in rec.csmReleases
  }

  function WithBranch(rec: ImageRecord, branch: string): ImageRecord {
    rec.(csmReleases := rec.csmReleases + [branch])
  }

  /** Lines 441-445: the branch is appended to the first eligible record only. */
  function AppendBranchFirst(list: seq<ImageRecord>, fullImage: string, branch: string): (r: seq<ImageRecord>)
    ensures |r| == |list|
    decreases |list|
  {
    if list == [] then []
    else if Eligible(list[0], fullImage, branch) then [WithBranch(list[0], branch)] + list[1..]
    else [list[0]] + AppendBranchFirst(list[1..], fullImage, branch)
  }

  lemma {:induction false} AppendBranchFirstAt(list: seq<ImageRecord>, fullImage: string, branch: string, k: nat)
    requires k < |list| && Eligible(list[k], fullImage, branch)
    requires forall m :: 0 <= m < k ==> !Eligible(list[m], fullImage, branch)
    ensures AppendBranchFirst(list, fullImage, branch) == list[k := WithBranch(list[k], branch)]
    decreases k
  {
    if k > 0 {
      AppendBranchFirstAt(list[1..], fullImage, branch, k - 1);
      assert list == [list[0]] + list[1..];
    }
  }

  lemma {:induction false} AppendBranchFirstNone(list: seq<ImageRecord>, fullImage: string, branch: string)
    requires forall m :: 0 <= m < |list| ==> !Eligible(list[m], fullImage, branch)
    ensures AppendBranchFirst(list, fullImage, branch) == list
    decreases |list|
  {
    if list != [] {
      AppendBranchFirstNone(list[1..], fullImage, branch);
      assert list == [list[0]] + list[1..];
    }
  }

  /** A record that changes held the image without the branch, and gains it. */
  lemma {:induction false} AppendBranchFirstPointwise(list: seq<ImageRecord>, fullImage: string, branch: string)
    ensures var r := AppendBranchFirst(list, fullImage, branch);
      forall m :: 0 <= m < |list| ==> r[m] == list[m] || (Eligible(list[m], fullImage, branch) && r[m] == WithBranch(list[m], branch))
    decreases |list|
  {
    if list != [] {
      AppendBranchFirstPointwise(list[1..], fullImage, branch);
      var r := AppendBranchFirst(list, fullImage, branch);
      var rest := AppendBranchFirst(list[1..], fullImage, branch);
      if Eligible(list[0], fullImage, branch) {
        forall m | 1 <= m < |list| ensures r[m] == list[m] {
          assert r[m] == list[1..][m - 1];
        }
      } else {
        assert r == [list[0]] + rest;
        forall m | 1 <= m < |list|
          ensures r[m] == list[m] || (Eligible(list[m], fullImage, branch) && r[m] == WithBranch(list[m], branch))
        {
          assert r[m] == rest[m - 1] && list[m] == list[1..][m - 1];
        }
      }
    }
  }

  /** Of any two records, at least one is unchanged. */
  lemma {:induction false} AppendBranchFirstAtMostOne(list: seq<ImageRecord>, fullImage: string, branch: string)
    ensures var r := AppendBranchFirst(list, fullImage, branch);
      forall m1, m2 :: 0 <= m1 < m2 < |list| ==> r[m1] == list[m1] || r[m2] == list[m2]
    decreases |list|
  {
    if list != [] {
      AppendBranchFirstAtMostOne(list[1..], fullImage, branch);
      var r := AppendBranchFirst(list, fullImage, branch);
      var rest := AppendBranchFirst(list[1..], fullImage, branch);
      if Eligible(list[0], fullImage, branch) {
        forall m | 1 <= m < |list| ensures r[m] == list[m] {
          assert r[m] == list[1..][m - 1];
        }
      } else {
        assert r == [list[0]] + rest;
        forall m1, m2 | 0 <= m1 < m2 < |list|
          ensures r[m1] == list[m1] || r[m2] == list[m2]
        {
          if m1 > 0 {
            assert r[m1] == rest[m1 - 1] && list[m1] == list[1..][m1 - 1];
            assert r[m2] == rest[m2 - 1] && list[m2] == list[1..][m2 - 1];
          }
        }
      }
    }
  }

  /** When any record is eligible, the list changes. */
  lemma {:induction false} AppendBranchFirstChanges(list: seq<ImageRecord>, fullImage: string, branch: string)
    ensures (exists m :: 0 <= m < |list| && Eligible(list[m], fullImage, branch)) ==> AppendBranchFirst(list, fullImage, branch) != list
    decreases |list|
  {
    if list != [] {
      AppendBranchFirstChanges(list[1..], fullImage, branch);
      var r := AppendBranchFirst(list, fullImage, branch);
      var rest := AppendBranchFirst(list[1..], fullImage, branch);
      if Eligible(list[0], fullImage, branch) {
        assert r[0] != list[0] by {
          assert r[0].csmReleases == list[0].csmReleases + [branch];
          assert |r[0].csmReleases| != |list[0].csmReleases|;
        }
      } else if exists m :: 0 <= m < |list| && Eligible(list[m], fullImage, branch) {
        var m :| 0 <= m < |list| && Eligible(list[m], fullImage, branch);
        assert m > 0;
        assert Eligible(list[1..][m - 1], fullImage, branch);
        assert rest != list[1..];
        assert r == [list[0]] + rest;
        assert r[1..] == rest;
      }
    }
  }

  /** At most one record changes; the one that does held the image without
      the branch and now has the branch appended; when any record is
      eligible, one does change. */
  lemma AppendBranchFirstShape(list: seq<ImageRecord>, fullImage: string, branch: string)
    ensures var r := AppendBranchFirst(list, fullImage, branch);
      && (forall m :: 0 <= m < |list| ==> r[m] == list[m] || (Eligible(list[m], fullImage, branch) && r[m] == WithBranch(list[m], branch)))
      && (forall m1, m2 :: 0 <= m1 < m2 < |list| ==> r[m1] == list[m1] || r[m2] == list[m2])
      && ((exists m :: 0 <= m < |list| && Eligible(list[m], fullImage, branch)) ==> r != list)
  {
    AppendBranchFirstPointwise(list, fullImage, branch);
    AppendBranchFirstAtMostOne(list, fullImage, branch);
    AppendBranchFirstChanges(list, fullImage, branch);
  }

  /** Lines 430-445 for one image of a repository of interest. */
  function AddTemplated(list: seq<ImageRecord>, fullImage: string, repo: string, tag: string, branch: string): seq<ImageRecord> {
    if !HasImage(list, fullImage) then list + [ImageRecord(fullImage, Basename(repo), tag, [branch])]
    else AppendBranchFirst(list, fullImage, branch)
  }

  /** Lines 429-445 for one extracted image: split it (ValueError unless it
      holds exactly one colon), skip repositories not of interest. */
  function TemplatedStep(list: seq<ImageRecord>, interest: seq<string>, image: string, branch: string): Result<seq<ImageRecord>> {
    match SplitRepoTag(image)
    case Err(f) => Err(f)
    case Ok(rt) => if rt.0 !in interest then Ok(list) else Ok(AddTemplated(list, image, rt.0, rt.1, branch))
  }

  /** All extracted images of one templating run, in order; the first error ends the run. */
  function MergeTemplated(list: seq<ImageRecord>, interest: seq<string>, images: seq<string>, branch: string): Result<seq<ImageRecord>>
    decreases |images|
  {
    if images == [] then Ok(list)
    else
      match MergeTemplated(list, interest, images[..|images| - 1], branch)
      case Err(f) => Err(f)
      case Ok(l) => TemplatedStep(l, interest, images[|images| - 1], branch)
  }

  /** Each record's release list holds no branch twice. */
  predicate DistinctReleases(list: seq<ImageRecord>) {
    forall k :: 0 <= k < |list| ==> NoDuplicates(list[k].csmReleases)
  }

  /** The helm pass at one image: a new image is recorded with `[branch]` and
      its short name taken from the repository path; a known image gains the
      branch in at most one record, and only where the branch was absent.
      Full images stay unique and release lists stay free of repeats. */
  lemma AddTemplatedEffect(list: seq<ImageRecord>, fullImage: string, repo: string, tag: string, branch: string)
    ensures var r := AddTemplated(list, fullImage, repo, tag, branch);
      && (!HasImage(list, fullImage) ==> r == list + [ImageRecord(fullImage, Basename(repo), tag, [branch])])
      && (HasImage(list, fullImage) ==>
            && |r| == |list|
            && (forall m :: 0 <= m < |list| ==> r[m] == list[m] || (Eligible(list[m], fullImage, branch) && r[m] == WithBranch(list[m], branch)))
            && (forall m1, m2 :: 0 <= m1 < m2 < |list| ==> r[m1] == list[m1] || r[m2] == list[m2]))
      && (UniqueImages(list) ==> UniqueImages(r))
      && (DistinctReleases(list) ==> DistinctReleases(r))
  {
    var r := AddTemplated(list, fullImage, repo, tag, branch);
    if HasImage(list, fullImage) {
      AppendBranchFirstShape(list, fullImage, branch);
      if DistinctReleases(list) {
        forall k | 0 <= k < |r| ensures NoDuplicates(r[k].csmReleases) {
          assert NoDuplicates(list[k].csmReleases);
        }
      }
      if UniqueImages(list) {
        forall i, j | 0 <= i < j < |r| ensures r[i].fullImage != r[j].fullImage {
          assert r[i].fullImage == list[i].fullImage && r[j].fullImage == list[j].fullImage;
        }
      }
    } else {
      if UniqueImages(list) {
        forall i, j | 0 <= i < j < |r| ensures r[i].fullImage != r[j].fullImage {
          if j == |list| {
            assert list[i].fullImage != fullImage;
          }
        }
      }
    }
  }

  /** A whole templating run keeps full images unique and release lists free of repeats. */
  lemma {:induction false} MergeTemplatedInvariants(list: seq<ImageRecord>, interest: seq<string>, images: seq<string>, branch: string)
    requires UniqueImages(list) && DistinctReleases(list)
    ensures MergeTemplated(list, interest, images, branch).Ok? ==>
      UniqueImages(MergeTemplated(list, interest, images, branch).value) &&
      DistinctReleases(MergeTemplated(list, interest, images, branch).value)
    decreases |images|
  {
    if images != [] {
      var n := |images| - 1;
      MergeTemplatedInvariants(list, interest, images[..n], branch);
      var prev := MergeTemplated(list, interest, images[..n], branch);
      if prev.Ok? {
        var rt := SplitRepoTag(images[n]);
        if rt.Ok? {
          AddTemplatedEffect(prev.value, images[n], rt.value.0, rt.value.1, branch);
        }
      }
    }
  }

  lemma {:induction false} MergeTemplatedErrSticky(list: seq<ImageRecord>, interest: seq<string>, images: seq<string>, branch: string, n: nat)
    requires n <= |images|
    requires MergeTemplated(list, interest, images[..n], branch).Err?
    ensures MergeTemplated(list, interest, images, branch) == MergeTemplated(list, interest, images[..n], branch)
    decreases |images| - n
  {
    if n < |images| {
      assert images[..n + 1][..n] == images[..n];
      MergeTemplatedErrSticky(list, interest, images, branch, n + 1);
    } else {
      assert images[..n] == images;
    }
  }

  /** One templating run merged into the table under the chart's GitHub repository. */
  function TemplateIntoTable(t: RebuildTable, githubRepo: string, interest: seq<string>, images: seq<string>, branch: string): (r: Result<RebuildTable>)
    requires t.Valid()
    ensures r.Ok? ==> r.value.Valid()
  {
    var t1 := EnsureRepo(t, githubRepo);
    match MergeTemplated(t1.repos[githubRepo], interest, images, branch)
    case Err(f) => Err(f)
    case Ok(l) => Ok(t1.(repos := t1.repos[githubRepo := l]))
  }

  /** Lines 359-364 and 427-445: the chart's repository gets a list if it has
      none, then every extracted image is split and merged in order. */
  method MergeTemplatedImages(t: RebuildTable, githubRepo: string, interest: seq<string>, images: seq<string>, branch: string)
    returns (r: Result<RebuildTable>)
    requires t.Valid()
    ensures r == TemplateIntoTable(t, githubRepo, interest, images, branch)
  {
    var t1 := t;
    if githubRepo !in t1.repos {
      t1 := RebuildTable(t1.order + [githubRepo], t1.repos[githubRepo := []]);
    }
    var list0 := t1.repos[githubRepo];
    var list := list0;
    var i := 0;
    while i < |images|
      invariant 0 <= i <= |images|
      invariant MergeTemplated(list0, interest, images[..i], branch) == Ok(list)
    {
      assert images[..i + 1][..i] == images[..i];
      var image := images[i];
      var parts := SplitRepoTag(image);
      if parts.Err? {
        MergeTemplatedErrSticky(list0, interest, images, branch, i + 1);
        return Err(parts.fault);
      }
      var repo, tag := parts.value.0, parts.value.1;
      if repo in interest {
        list := AddTemplatedImage(list, image, repo, tag, branch);
      }
      i := i + 1;
    }
    assert images[..i] == images;
    return Ok(t1.(repos := t1.repos[githubRepo := list]));
  }

  /** Lines 430-445 for one image of a repository of interest: a new record,
      or the branch added to the first record of the image still lacking it. */
  method AddTemplatedImage(list: seq<ImageRecord>, image: string, repo: string, tag: string, branch: string)
    returns (r: seq<ImageRecord>)
    ensures r == AddTemplated(list, image, repo, tag, branch)
  {
    if !HasImage(list, image) {
      return list + [ImageRecord(image, Basename(repo), tag, [branch])];
    }
    var k := 0;
    while k < |list|
      invariant 0 <= k <= |list|
      invariant forall m :: 0 <= m < k ==> !Eligible(list[m], image, branch)
    {
      if Eligible(list[k], image, branch) {
        AppendBranchFirstAt(list, image, branch, k);
        return list[k := WithBranch(list[k], branch)];
      }
      k := k + 1;
    }
    AppendBranchFirstNone(list, image, branch);
    return list;
  }

  // ---------------------------------------------------------------------------
  // The chart override table (all_charts)
  // ---------------------------------------------------------------------------

  /** One chart of a Loftsman manifest's `spec.charts`. */
  datatype ChartRef = ChartRef(name: string, version: string, source: string, values: Option<string>)

  /** One entry of `spec.sources.charts`. */
  datatype SourceRef = SourceRef(name: string, location: string)

  /** One entry of the configured `helm-lookup`. */
  datatype HelmLookupEntry = HelmLookupEntry(chart: string, path: string)

  /** The three parts `urljoin` combines into the chart's download address. */
  datatype DownloadUrl = DownloadUrl(location: string, path: string, fileName: string)

  /** `all_charts[name][version]`: release branch -> value overrides (None
      when the manifest gives no `values`), and the download address. */
  datatype ChartVersion = ChartVersion(releases: map<string, Option<string>>, downloadUrl: Option<DownloadUrl>)

  type ChartTable = map<string, map<string, ChartVersion>>

  /** `upstream_sources`: source name -> location, a later entry winning. */
  function Upstream(sources: seq<SourceRef>): (r: map<string, string>)
    ensures forall k :: k in r <==> exists i :: 0 <= i < |sources| && sources[i].name == k
    decreases |sources|
  {
    if sources == [] then map[]
    else
      var n := |sources| - 1;
      var prev := Upstream(sources[..n]);
      assert forall i :: 0 <= i < n ==> sources[..n][i] == sources[i];
      prev[sources[n].name := sources[n].location]
  }

  /** The last entry naming a source decides its location. */
  lemma {:induction false} UpstreamLastWins(sources: seq<SourceRef>, i: nat)
    requires i < |sources|
    requires forall j :: i < j < |sources| ==> sources[j].name != sources[i].name
    ensures Upstream(sources)[sources[i].name] == sources[i].location
    decreases |sources|
  {
    var n := |sources| - 1;
    if i < n {
      var prefix := sources[..n];
      assert forall j :: 0 <= j < n ==> prefix[j] == sources[j];
      UpstreamLastWins(prefix, i);
      assert sources[n].name != sources[i].name;
      assert Upstream(sources) == Upstream(prefix)[sources[n].name := sources[n].location];
    }
  }

  /** The loop at lines 252-259: the last helm-lookup entry for the chart
      decides its address; a matching entry whose source the manifest does not
      list raises KeyError. */
  function UrlOf(helmLookup: seq<HelmLookupEntry>, upstream: map<string, string>, chart: ChartRef): Result<Option<DownloadUrl>>
    decreases |helmLookup|
  {
    if helmLookup == [] then Ok(None)
    else
      var n := |helmLookup| - 1;
      match UrlOf(helmLookup[..n], upstream, chart)
      case Err(f) => Err(f)
      case Ok(found) =>
        var e := helmLookup[n];
        if e.chart != chart.name then Ok(found)
        else if chart.source !in upstream then Err(KeyError(chart.source))
        else Ok(Some(DownloadUrl(upstream[chart.source], e.path, chart.name + "-" + chart.version + ".tgz")))
  }

  /** No address exactly when no helm-lookup entry names the chart; a KeyError
      exactly when one does and the chart's source is not listed. */
  lemma {:induction false} UrlOfCases(helmLookup: seq<HelmLookupEntry>, upstream: map<string, string>, chart: ChartRef)
    ensures UrlOf(helmLookup, upstream, chart) == Ok(None) <==>
      forall k :: 0 <= k < |helmLookup| ==> helmLookup[k].chart != chart.name
    ensures UrlOf(helmLookup, upstream, chart).Err? <==>
      chart.source !in upstream && exists k :: 0 <= k < |helmLookup| && helmLookup[k].chart == chart.name
    decreases |helmLookup|
  {
    if helmLookup != [] {
      var n := |helmLookup| - 1;
      UrlOfCases(helmLookup[..n], upstream, chart);
      assert forall k :: 0 <= k < n ==> helmLookup[..n][k] == helmLookup[k];
    }
  }

  /** The last helm-lookup entry naming the chart decides the address: the
      chart's source, that entry's path and the file name `name-version.tgz`. */
  lemma {:induction false} UrlOfLastEntry(helmLookup: seq<HelmLookupEntry>, upstream: map<string, string>, chart: ChartRef, k: nat)
    requires k < |helmLookup| && helmLookup[k].chart == chart.name
    requires forall j :: k < j < |helmLookup| ==> helmLookup[j].chart != chart.name
    requires chart.source in upstream
    ensures UrlOf(helmLookup, upstream, chart) ==
      Ok(Some(DownloadUrl(upstream[chart.source], helmLookup[k].path, chart.name + "-" + chart.version + ".tgz")))
    decreases |helmLookup|
  {
    var n := |helmLookup| - 1;
    if k == n {
      UrlOfCases(helmLookup[..n], upstream, chart);
    } else {
      assert helmLookup[..n][k] == helmLookup[k];
      assert forall j :: k < j < n ==> helmLookup[..n][j] == helmLookup[j];
      UrlOfLastEntry(helmLookup[..n], upstream, chart, k);
    }
  }

  /** Lines 265-274: record the branch's sighting of the chart version. */
  function RecordChart(table: ChartTable, branch: string, chart: ChartRef, url: Option<DownloadUrl>): ChartTable {
    var versions := if chart.name in table then table[chart.name] else map[];
    var cv := if chart.version in versions then versions[chart.version] else ChartVersion(map[], url);
    table[chart.name := versions[chart.version := cv.(releases := cv.releases[branch := chart.values])]]
  }

  /** Lines 250-274 for one chart of a manifest: charts the target pattern
      rejects are passed over. */
  function ChartStep(table: ChartTable, branch: string, upstream: map<string, string>, helmLookup: seq<HelmLookupEntry>,
                     isTarget: string -> bool, chart: ChartRef): Result<ChartTable>
  {
    if !isTarget(chart.name) then Ok(table)
    else
      match UrlOf(helmLookup, upstream, chart)
      case Err(f) => Err(f)
      case Ok(url) => Ok(RecordChart(table, branch, chart, url))
  }

  function ChartSteps(table: ChartTable, branch: string, upstream: map<string, string>, helmLookup: seq<HelmLookupEntry>,
                      isTarget: string -> bool, charts: seq<ChartRef>): Result<ChartTable>
    decreases |charts|
  {
    if charts == [] then Ok(table)
    else
      match ChartSteps(table, branch, upstream, helmLookup, isTarget, charts[..|charts| - 1])
      case Err(f) => Err(f)
      case Ok(t) => ChartStep(t, branch, upstream, helmLookup, isTarget, charts[|charts| - 1])
  }

  /** One sighting of a chart version: its download address is set on the
      first sighting and kept afterwards; the branch's entry is replaced by
      the chart's values, or by no values when the chart has none; every other
      branch, version and chart is left as it was. */
  lemma RecordChartEffect(table: ChartTable, branch: string, chart: ChartRef, url: Option<DownloadUrl>)
    ensures var r := RecordChart(table, branch, chart, url);
      && r.Keys == table.Keys + {chart.name}
      && chart.version in r[chart.name]
      && var cv := r[chart.name][chart.version];
      && cv.releases[branch] == chart.values
      && cv.downloadUrl == (if chart.name in table && chart.version in table[chart.name]
                            then table[chart.name][chart.version].downloadUrl else url)
      && (chart.name in table && chart.version in table[chart.name] ==>
            cv.releases.Keys == table[chart.name][chart.version].releases.Keys + {branch} &&
            forall b :: b in cv.releases && b != branch ==> cv.releases[b] == table[chart.name][chart.version].releases[b])
      && (forall c :: c in table && c != chart.name ==> r[c] == table[c])
      && (chart.name in table ==>
            r[chart.name].Keys == table[chart.name].Keys + {chart.version} &&
            forall v :: v in table[chart.name] && v != chart.version ==> r[chart.name][v] == table[chart.name][v])
  {
  }

  /** Lines 245-274 for one manifest file of a release branch: build the
      upstream sources, then record every targeted chart in order. */
  method AccumulateManifest(table: ChartTable, branch: string, sources: seq<SourceRef>, charts: seq<ChartRef>,
                            helmLookup: seq<HelmLookupEntry>, isTarget: string -> bool)
    returns (r: Result<ChartTable>)
    ensures r == ChartSteps(table, branch, Upstream(sources), helmLookup, isTarget, charts)
  {
    var upstream: map<string, string> := map[];
    var i := 0;
    while i < |sources|
      invariant 0 <= i <= |sources|
      invariant upstream == Upstream(sources[..i])
    {
      assert sources[..i + 1][..i] == sources[..i];
      upstream := upstream[sources[i].name := sources[i].location];
      i := i + 1;
    }
    assert sources[..i] == sources;

    var current := table;
    var c := 0;
    while c < |charts|
      invariant 0 <= c <= |charts|
      invariant ChartSteps(table, branch, upstream, helmLookup, isTarget, charts[..c]) == Ok(current)
    {
      assert charts[..c + 1][..c] == charts[..c];
      var chart := charts[c];
      if isTarget(chart.name) {
        var url: Option<DownloadUrl> := None;
        var j := 0;
        while j < |helmLookup|
          invariant 0 <= j <= |helmLookup|
          invariant UrlOf(helmLookup[..j], upstream, chart) == Ok(url)
        {
          assert helmLookup[..j + 1][..j] == helmLookup[..j];
          if helmLookup[j].chart == chart.name {
            if chart.source !in upstream {
              UrlOfErrSticky(helmLookup, upstream, chart, j + 1);
              ChartStepsErrSticky(table, branch, upstream, helmLookup, isTarget, charts, c + 1);
              return Err(KeyError(chart.source));
            }
            url := Some(DownloadUrl(upstream[chart.source], helmLookup[j].path, chart.name + "-" + chart.version + ".tgz"));
          }
          j := j + 1;
        }
        assert helmLookup[..j] == helmLookup;
        current := RecordChart(current, branch, chart, url);
      }
      c := c + 1;
    }
    assert charts[..c] == charts;
    return Ok(current);
  }

  lemma {:induction false} UrlOfErrSticky(helmLookup: seq<HelmLookupEntry>, upstream: map<string, string>, chart: ChartRef, n: nat)
    requires n <= |helmLookup|
    requires UrlOf(helmLookup[..n], upstream, chart).Err?
    ensures UrlOf(helmLookup, upstream, chart) == UrlOf(helmLookup[..n], upstream, chart)
    decreases |helmLookup| - n
  {
    if n < |helmLookup| {
      assert helmLookup[..n + 1][..n] == helmLookup[..n];
      UrlOfErrSticky(helmLookup, upstream, chart, n + 1);
    } else {
      assert helmLookup[..n] == helmLookup;
    }
  }

  lemma {:induction false} ChartStepsErrSticky(table: ChartTable, branch: string, upstream: map<string, string>, helmLookup: seq<HelmLookupEntry>,
                                               isTarget: string -> bool, charts: seq<ChartRef>, n: nat)
    requires n <= |charts|
    requires ChartSteps(table, branch, upstream, helmLookup, isTarget, charts[..n]).Err?
    ensures ChartSteps(table, branch, upstream, helmLookup, isTarget, charts) == ChartSteps(table, branch, upstream, helmLookup, isTarget, charts[..n])
    decreases |charts| - n
  {
    if n < |charts| {
      assert charts[..n + 1][..n] == charts[..n];
      ChartStepsErrSticky(table, branch, upstream, helmLookup, isTarget, charts, n + 1);
    } else {
      assert charts[..n] == charts;
    }
  }

  // ---------------------------------------------------------------------------
  // The release -> images inversion
  // ---------------------------------------------------------------------------

  /** One step of the inversion loop: a release, an image repository and a
      tag; or a full image whose split fails. */
  datatype Placement = Place(release: string, repo: string, tag: string) | BadImage(fullImage: string)

  /** The steps one record contributes: one per release branch, or the split failure. */
  function RecordPlacements(rec: ImageRecord): (ps: seq<Placement>)
    ensures SplitRepoTag(rec.fullImage).Err? ==> ps == [BadImage(rec.fullImage)]
    ensures SplitRepoTag(rec.fullImage).Ok? ==>
      && |ps| == |rec.csmReleases|
      && forall k :: 0 <= k < |ps| ==>
           ps[k] == Place(rec.csmReleases[k], SplitRepoTag(rec.fullImage).value.0, SplitRepoTag(rec.fullImage).value.1)
  {
    match SplitRepoTag(rec.fullImage)
    case Err(_) => [BadImage(rec.fullImage)]
    case Ok(rt) => seq(|rec.csmReleases|, k requires 0 <= k < |rec.csmReleases| => Place(rec.csmReleases[k], rt.0, rt.1))
  }

  function ListPlacements(list: seq<ImageRecord>): seq<Placement>
    decreases |list|
  {
    if list == [] then [] else ListPlacements(list[..|list| - 1]) + RecordPlacements(list[|list| - 1])
  }

  /** Every step of the inversion, repository by repository in table order. */
  function TablePlacements(order: seq<string>, repos: map<string, seq<ImageRecord>>): seq<Placement>
    decreases |order|
  {
    if order == [] then []
    else
      var repo := order[|order| - 1];
      TablePlacements(order[..|order| - 1], repos) + (if repo in repos then ListPlacements(repos[repo]) else [])
  }

  /** `images_by_csm_release` before the git fields: release -> image repository -> tags. */
  type ReleaseImages = map<string, map<string, seq<string>>>

  /** Lines 468-476 as written. Line 473 asks whether the image repository is a
      key of the release record, whose only key is "images": for every other
      repository the list is reset before the append, and for a repository
      literally named "images" the list is never created. */
  function StepAsWritten(inv: ReleaseImages, p: Placement): Result<ReleaseImages> {
    match p
    case BadImage(full) => Err(ValueError("expected exactly one ':' in " + full))
    case Place(rel, repo, tag) =>
      var images := if rel in inv then inv[rel] else map[];
      if repo != "images" then Ok(inv[rel := images[repo := [tag]]])
      else if repo !in images then Err(KeyError(repo))
      else Ok(inv[rel := images[repo := images[repo] + [tag]]])
  }

  function InvertAsWritten(ps: seq<Placement>): Result<ReleaseImages>
    decreases |ps|
  {
    if ps == [] then Ok(map[])
    else
      match InvertAsWritten(ps[..|ps| - 1])
      case Err(f) => Err(f)
      case Ok(inv) => StepAsWritten(inv, ps[|ps| - 1])
  }

  /** Lines 468-476 as evidently intended: the membership test is on the
      release's image map, so every tag is kept. */
  function StepIntended(inv: ReleaseImages, p: Placement): Result<ReleaseImages> {
    match p
    case BadImage(full) => Err(ValueError("expected exactly one ':' in " + full))
    case Place(rel, repo, tag) =>
      var images := if rel in inv then inv[rel] else map[];
      var tags := if repo in images then images[repo] else [];
      Ok(inv[rel := images[repo := tags + [tag]]])
  }

  /** The intended loop state after more steps; an error is kept to the end. */
  function InvertFrom(state: Result<ReleaseImages>, ps: seq<Placement>): Result<ReleaseImages>
    decreases |ps|
  {
    if ps == [] then state
    else
      match InvertFrom(state, ps[..|ps| - 1])
      case Err(f) => Err(f)
      case Ok(inv) => StepIntended(inv, ps[|ps| - 1])
  }

  function Invert(ps: seq<Placement>): Result<ReleaseImages> {
    InvertFrom(Ok(map[]), ps)
  }

  lemma {:induction false} InvertFromAppend(state: Result<ReleaseImages>, a: seq<Placement>, b: seq<Placement>)
    ensures InvertFrom(state, a + b) == InvertFrom(InvertFrom(state, a), b)
    decreases |b|
  {
    if b == [] {
      assert a + b == a;
    } else {
      var n := |b| - 1;
      var ab := a + b;
      InvertFromAppend(state, a, b[..n]);
      assert ab[..|ab| - 1] == a + b[..n];
      assert ab[|ab| - 1] == b[n];
      assert InvertFrom(state, ab) ==
        match InvertFrom(state, a + b[..n])
        case Err(f) => Err(f)
        case Ok(inv) => StepIntended(inv, b[n]);
    }
  }

  /** The tags placed for a release and repository, in order. */
  function TagsFor(ps: seq<Placement>, rel: string, repo: string): seq<string>
    decreases |ps|
  {
    if ps == [] then []
    else
      var p := ps[|ps| - 1];
      TagsFor(ps[..|ps| - 1], rel, repo) + (if p.Place? && p.release == rel && p.repo == repo then [p.tag] else [])
  }

  predicate HasBadImage(ps: seq<Placement>) {
    exists k :: 0 <= k < |ps| && ps[k].BadImage?
  }

  /** The intended inversion fails exactly when some image does not split,
      and otherwise lists, for every release and repository, all of its tags
      in the order they were met. InvertNothingElse shows nothing else is present. */
  lemma {:induction false} InvertKeepsAllTags(ps: seq<Placement>)
    ensures Invert(ps).Err? <==> HasBadImage(ps)
    ensures Invert(ps).Ok? ==>
      (forall rel, repo :: rel in Invert(ps).value && repo in Invert(ps).value[rel] ==>
         Invert(ps).value[rel][repo] == TagsFor(ps, rel, repo)) &&
      (forall rel, repo :: TagsFor(ps, rel, repo) != [] ==> rel in Invert(ps).value && repo in Invert(ps).value[rel])
    decreases |ps|
  {
    if ps != [] {
      var n := |ps| - 1;
      InvertKeepsAllTags(ps[..n]);
      assert forall k :: 0 <= k < n ==> ps[..n][k] == ps[k];
      if HasBadImage(ps[..n]) {
        var k :| 0 <= k < n && ps[..n][k].BadImage?;
        assert ps[k].BadImage?;
      } else if ps[n].Place? {
        assert !HasBadImage(ps) by {
          forall k | 0 <= k < |ps| ensures !ps[k].BadImage? {
            if k < n { assert ps[..n][k] == ps[k]; }
          }
        }
      }
    }
  }

  /** Nothing else is present in the intended inversion: every listed
      repository has a tag placed for it in that release, and no release has an
      empty image map. */
  lemma {:induction false} InvertNothingElse(ps: seq<Placement>)
    ensures Invert(ps).Ok? ==>
      forall rel, repo :: rel in Invert(ps).value && repo in Invert(ps).value[rel] ==> TagsFor(ps, rel, repo) != []
    ensures Invert(ps).Ok? ==> forall rel :: rel in Invert(ps).value ==> Invert(ps).value[rel] != map[]
    decreases |ps|
  {
    if ps != [] && Invert(ps).Ok? {
      var n := |ps| - 1;
      InvertNothingElse(ps[..n]);
      var inv := Invert(ps[..n]).value;
      var p := ps[n];
      assert Invert(ps) == StepIntended(inv, p);
      forall rel, repo | rel in Invert(ps).value && repo in Invert(ps).value[rel]
        ensures TagsFor(ps, rel, repo) != []
      {
        if !(rel == p.release && repo == p.repo) {
          assert rel in inv && repo in inv[rel];
        }
      }
      forall rel | rel in Invert(ps).value
        ensures Invert(ps).value[rel] != map[]
      {
        if rel == p.release {
          assert p.repo in Invert(ps).value[rel];
        }
      }
    }
  }

  /** As written, every repository list other than one named "images" holds
      a single tag: the last one placed for that release and repository. */
  lemma {:induction false} InvertAsWrittenKeepsLastTag(ps: seq<Placement>)
    ensures InvertAsWritten(ps).Ok? ==>
      forall rel, repo :: rel in InvertAsWritten(ps).value && repo in InvertAsWritten(ps).value[rel] && repo != "images" ==>
        var all := TagsFor(ps, rel, repo);
        |all| > 0 && InvertAsWritten(ps).value[rel][repo] == [all[|all| - 1]]
    decreases |ps|
  {
    if ps != [] {
      var n := |ps| - 1;
      InvertAsWrittenKeepsLastTag(ps[..n]);
    }
  }

  /** The input that shows line 473's slip: one image repository placed in
      release "main" with tags "1" then "2" keeps only "2"; the intended
      inversion keeps both. */
  lemma InvertAsWrittenLosesTags()
    ensures InvertAsWritten([Place("main", "r", "1"), Place("main", "r", "2")]) == Ok(map["main" := map["r" := ["2"]]])
    ensures Invert([Place("main", "r", "1"), Place("main", "r", "2")]) == Ok(map["main" := map["r" := ["1", "2"]]])
  {
    var ps := [Place("main", "r", "1"), Place("main", "r", "2")];
    assert ps[..1] == [Place("main", "r", "1")];
    assert ps[..1][..0] == [];
    var one: ReleaseImages := map["main" := map["r" := ["1"]]];
    assert InvertAsWritten(ps[..1]) == Ok(one);
    var empty: ReleaseImages := map[];
    assert InvertFrom(Ok(empty), ps[..1][..0]) == Ok(empty);
    assert [] + ["1"] == ["1"];
    assert empty["main" := map["r" := ["1"]]] == one;
    assert InvertFrom(Ok(empty), ps[..1]) == Ok(one);
    assert one["main"]["r"] + ["2"] == ["1", "2"];
    assert one["main"]["r" := ["2"]] == map["r" := ["2"]];
    assert one["main"]["r" := ["1", "2"]] == map["r" := ["1", "2"]];
    assert one["main" := map["r" := ["2"]]] == map["main" := map["r" := ["2"]]];
    assert one["main" := map["r" := ["1", "2"]]] == map["main" := map["r" := ["1", "2"]]];
  }

  /** Lines 470-476 (with line 473 as intended) for one record: split its
      full image, then place its tag under each of its release branches. */
  method InvertRecord(state: Result<ReleaseImages>, rec: ImageRecord) returns (r: Result<ReleaseImages>)
    ensures r == InvertFrom(state, RecordPlacements(rec))
  {
    var parts := SplitRepoTag(rec.fullImage);
    if parts.Err? {
      assert RecordPlacements(rec) == [BadImage(rec.fullImage)];
      assert RecordPlacements(rec)[..0] == [];
      if state.Err? {
        return state;
      }
      return Err(ValueError("expected exactly one ':' in " + rec.fullImage));
    }
    var ps := RecordPlacements(rec);
    var repo, tag := parts.value.0, parts.value.1;
    r := state;
    var k := 0;
    while k < |rec.csmReleases|
      invariant 0 <= k <= |rec.csmReleases|
      invariant r == InvertFrom(state, ps[..k])
    {
      assert ps[..k + 1][..k] == ps[..k];
      if r.Ok? {
        var rel := rec.csmReleases[k];
        var images := if rel in r.value then r.value[rel] else map[];
        var tags := if repo in images then images[repo] else [];
        r := Ok(r.value[rel := images[repo := tags + [tag]]]);
      }
      k := k + 1;
    }
    assert ps[..k] == ps;
  }

  /** Lines 467-476 (with line 473 as intended): every record of one
      repository, in order. */
  method InvertList(state: Result<ReleaseImages>, list: seq<ImageRecord>) returns (r: Result<ReleaseImages>)
    ensures r == InvertFrom(state, ListPlacements(list))
  {
    r := state;
    var j := 0;
    while j < |list|
      invariant 0 <= j <= |list|
      invariant r == InvertFrom(state, ListPlacements(list[..j]))
    {
      assert list[..j + 1][..j] == list[..j];
      r := InvertRecord(r, list[j]);
      InvertFromAppend(state, ListPlacements(list[..j]), RecordPlacements(list[j]));
      j := j + 1;
    }
    assert list[..j] == list;
  }

  /** One more repository of the table adds the steps of its records, if it has any. */
  lemma TablePlacementsStep(order: seq<string>, repos: map<string, seq<ImageRecord>>, i: nat)
    requires i < |order|
    ensures TablePlacements(order[..i + 1], repos) ==
      TablePlacements(order[..i], repos) + (if order[i] in repos then ListPlacements(repos[order[i]]) else [])
  {
    assert order[..i + 1][..i] == order[..i];
  }

  /** Lines 463-476 (with line 473 as intended): walk every repository, every
      record and every release branch of the table, in order. */
  method InvertByRelease(t: RebuildTable) returns (r: Result<ReleaseImages>)
    ensures r == Invert(TablePlacements(t.order, t.repos))
  {
    r := Ok(map[]);
    var i := 0;
    while i < |t.order|
      invariant 0 <= i <= |t.order|
      invariant r == Invert(TablePlacements(t.order[..i], t.repos))
    {
      TablePlacementsStep(t.order, t.repos, i);
      var repo := t.order[i];
      if repo in t.repos {
        ghost var done := TablePlacements(t.order[..i], t.repos);
        r := InvertList(r, t.repos[repo]);
        InvertFromAppend(Ok(map[]), done, ListPlacements(t.repos[repo]));
      } else {
        assert TablePlacements(t.order[..i], t.repos) + [] == TablePlacements(t.order[..i], t.repos);
      }
      i := i + 1;
    }
    assert t.order[..i] == t.order;
  }

  /** Lines 478-481: every release gets its git SHA and tags; a release the
      branch loop recorded no SHA or tags for raises KeyError. */
  method AddGitInfo(inv: ReleaseImages, shas: map<string, string>, tags: map<string, seq<string>>)
    returns (r: Result<map<string, ReleaseEntry>>)
    ensures r.Ok? <==> forall rel :: rel in inv ==> rel in shas && rel in tags
    ensures r.Ok? ==> r.value.Keys == inv.Keys
    ensures r.Ok? ==> forall rel :: rel in inv ==> r.value[rel] == ReleaseEntry(inv[rel], Some(shas[rel]), tags[rel])
    ensures r.Err? ==> exists rel :: rel in inv && (rel !in shas || rel !in tags) && r.fault == KeyError(rel)
  {
    var out: map<string, ReleaseEntry> := map[];
    var remaining := inv.Keys;
    while remaining != {}
      invariant remaining <= inv.Keys
      invariant out.Keys == inv.Keys - remaining
      invariant forall rel :: rel in out ==> rel in shas && rel in tags && out[rel] == ReleaseEntry(inv[rel], Some(shas[rel]), tags[rel])
      decreases remaining
    {
      var rel :| rel in remaining;
      if rel !in shas || rel !in tags {
        return Err(KeyError(rel));
      }
      out := out[rel := ReleaseEntry(inv[rel], Some(shas[rel]), tags[rel])];
      remaining := remaining - {rel};
    }
    return Ok(out);
  }
}
