/** run_tests.py: which tests each HMTH test image carries (from the files in
    the image), how each test is invoked, the order the tests run in, and the
    rewrite of the Allure results afterwards. */
module TestRunner {
  import opened Common
  import opened AllureResult

  // ---------------------------------------------------------------------
  // detect_test_classes (lines 50-73), with the image listing as an input
  // ---------------------------------------------------------------------

  /** Number of files in the listing that are markers of test class `c`. */
  function Hits(files: seq<string>, wanted: map<string, string>, c: string): nat
    decreases |files|
  {
    if files == [] then 0
    else
      var n := |files| - 1;
      Hits(files[..n], wanted, c) + (if files[n] in wanted && wanted[files[n]] == c then 1 else 0)
  }

  /** `[x] * n`. */
  function Repeat(x: string, n: nat): (r: seq<string>)
    ensures |r| == n
    decreases n
  {
    if n == 0 then [] else Repeat(x, n - 1) + [x]
  }

  /** How many times `x` occurs in `s`. */
  function Occurrences(s: seq<string>, x: string): nat
    decreases |s|
  {
    if s == [] then 0
    else Occurrences(s[..|s| - 1], x) + (if s[|s| - 1] == x then 1 else 0)
  }

  /** The images of class `c`, image by image, each once per marker file of
      `c` in its listing: the reference for `test_results[c]`. */
  function ClassImages(images: seq<string>, listing: string -> seq<string>, wanted: map<string, string>, c: string): seq<string>
    decreases |images|
  {
    if images == [] then []
    else
      var n := |images| - 1;
      ClassImages(images[..n], listing, wanted, c) + Repeat(images[n], Hits(listing(images[n]), wanted, c))
  }

  function Get(table: map<string, seq<string>>, c: string): seq<string> {
    if c in table then table[c] else []
  }

  /** `test_results` after the files of one image have been scanned. */
  function AddHits(table: map<string, seq<string>>, image: string, files: seq<string>, wanted: map<string, string>): map<string, seq<string>>
    decreases |files|
  {
    if files == [] then table
    else
      var n := |files| - 1;
      var t := AddHits(table, image, files[..n], wanted);
      if files[n] in wanted then
        var c := wanted[files[n]];
        t[c := Get(t, c) + [image]]
      else t
  }

  /** `test_results` after all images. */
  function ClassTable(images: seq<string>, listing: string -> seq<string>, wanted: map<string, string>): map<string, seq<string>>
    decreases |images|
  {
    if images == [] then map[]
    else
      var n := |images| - 1;
      AddHits(ClassTable(images[..n], listing, wanted), images[n], listing(images[n]), wanted)
  }

  /** `tavern_config_results[image]`: the config kinds of the listing, in listing order. */
  function KindsFound(files: seq<string>, tavernConfigs: map<string, string>): seq<string>
    decreases |files|
  {
    if files == [] then []
    else
      var n := |files| - 1;
      KindsFound(files[..n], tavernConfigs) + (if files[n] in tavernConfigs then [tavernConfigs[files[n]]] else [])
  }

  lemma {:induction false} HitsPositive(files: seq<string>, wanted: map<string, string>, c: string)
    requires Hits(files, wanted, c) > 0
    ensures exists f :: f in files && f in wanted && wanted[f] == c
    decreases |files|
  {
    var n := |files| - 1;
    if Hits(files[..n], wanted, c) > 0 {
      HitsPositive(files[..n], wanted, c);
      var f :| f in files[..n] && f in wanted && wanted[f] == c;
      assert f in files;
    } else {
      assert files[n] in files;
    }
  }

  lemma RepeatCount(y: string, n: nat, x: string)
    ensures multiset(Repeat(y, n))[x] == if x == y then n else 0
    decreases n
  {
    if n > 0 {
      RepeatCount(y, n - 1, x);
    }
  }

  /** Scanning one image's files adds the image once per marker of each class,
      and creates a class entry exactly when there is a first marker. */
  lemma {:induction false} AddHitsAt(table: map<string, seq<string>>, image: string, files: seq<string>,
                                     wanted: map<string, string>, c: string)
    ensures c in AddHits(table, image, files, wanted) <==> c in table || Hits(files, wanted, c) > 0
    ensures Get(AddHits(table, image, files, wanted), c) == Get(table, c) + Repeat(image, Hits(files, wanted, c))
    decreases |files|
  {
    if files == [] {
      assert Get(table, c) + [] == Get(table, c);
    } else {
      var n := |files| - 1;
      AddHitsAt(table, image, files[..n], wanted, c);
      var h := Hits(files[..n], wanted, c);
      if files[n] in wanted && wanted[files[n]] == c {
        assert Repeat(image, h + 1) == Repeat(image, h) + [image];
        assert Get(table, c) + Repeat(image, h) + [image] == Get(table, c) + (Repeat(image, h) + [image]);
      }
    }
  }

  /** `test_results[c]` is the reference list of class `c`, present exactly when
      that list is not empty, and only marker classes appear. */
  lemma {:induction false} ClassTableAt(images: seq<string>, listing: string -> seq<string>, wanted: map<string, string>, c: string)
    ensures c in ClassTable(images, listing, wanted) <==> ClassImages(images, listing, wanted, c) != []
    ensures Get(ClassTable(images, listing, wanted), c) == ClassImages(images, listing, wanted, c)
    ensures c in ClassTable(images, listing, wanted) ==> c in wanted.Values
    decreases |images|
  {
    if images != [] {
      var n := |images| - 1;
      ClassTableAt(images[..n], listing, wanted, c);
      AddHitsAt(ClassTable(images[..n], listing, wanted), images[n], listing(images[n]), wanted, c);
      if Hits(listing(images[n]), wanted, c) > 0 {
        HitsPositive(listing(images[n]), wanted, c);
      }
    }
  }

  /** An image appears in `test_results[c]` once per occurrence of the image in
      the input times the number of marker files of `c` in its listing. */
  lemma {:induction false} ClassImagesCount(images: seq<string>, listing: string -> seq<string>, wanted: map<string, string>, c: string, x: string)
    ensures multiset(ClassImages(images, listing, wanted, c))[x] == Occurrences(images, x) * Hits(listing(x), wanted, c)
    decreases |images|
  {
    if images != [] {
      var n := |images| - 1;
      var prefix := images[..n];
      ClassImagesCount(prefix, listing, wanted, c, x);
      var a := ClassImages(prefix, listing, wanted, c);
      var rep := Repeat(images[n], Hits(listing(images[n]), wanted, c));
      RepeatCount(images[n], Hits(listing(images[n]), wanted, c), x);
      assert ClassImages(images, listing, wanted, c) == a + rep;
      assert multiset(a + rep)[x] == multiset(a)[x] + multiset(rep)[x];
      var k := Occurrences(prefix, x);
      var h := Hits(listing(x), wanted, c);
      assert multiset(a)[x] == k * h;
      if images[n] == x {
        assert Occurrences(images, x) == k + 1;
        MulSucc(k, h);
      } else {
        assert Occurrences(images, x) == k;
      }
    }
  }

  lemma MulSucc(k: nat, h: nat)
    ensures (k + 1) * h == k * h + h
  {
  }

  /** Every config kind found belongs to a listed file. */
  lemma {:induction false} KindsFoundMembers(files: seq<string>, tavernConfigs: map<string, string>)
    ensures forall kind :: kind in KindsFound(files, tavernConfigs) <==>
      exists f :: f in files && f in tavernConfigs && tavernConfigs[f] == kind
    decreases |files|
  {
    if files != [] {
      var n := |files| - 1;
      KindsFoundMembers(files[..n], tavernConfigs);
      assert files == files[..n] + [files[n]];
    }
  }

  /** The inner loop of lines 57-71 for one image. */
  method ScanImage(table: map<string, seq<string>>, image: string, files: seq<string>,
                   wanted: map<string, string>, tavernConfigs: map<string, string>)
    returns (t: map<string, seq<string>>, kinds: seq<string>)
    ensures t == AddHits(table, image, files, wanted)
    ensures kinds == KindsFound(files, tavernConfigs)
  {
    t, kinds := table, [];
    var j := 0;
    while j < |files|
      invariant 0 <= j <= |files|
      invariant t == AddHits(table, image, files[..j], wanted)
      invariant kinds == KindsFound(files[..j], tavernConfigs)
    {
      assert files[..j + 1][..j] == files[..j];
      var file := files[j];
      if file in wanted {
        var testClass := wanted[file];
        if testClass !in t {
          t := t[testClass := []];
        }
        t := t[testClass := t[testClass] + [image]];
      }
      if file in tavernConfigs {
        kinds := kinds + [tavernConfigs[file]];
      }
      j := j + 1;
    }
    assert files[..j] == files;
  }

  /** `tavern_config_results` after the given images: each image's config
      kinds, a repeated image keeping its last entry. */
  function KindsTable(images: seq<string>, listing: string -> seq<string>, tavernConfigs: map<string, string>): map<string, seq<string>>
    decreases |images|
  {
    if images == [] then map[]
    else
      var n := |images| - 1;
      KindsTable(images[..n], listing, tavernConfigs)[images[n] := KindsFound(listing(images[n]), tavernConfigs)]
  }

  /** Every image, and only an image, has an entry, possibly empty: the config
      kinds found in its listing. */
  lemma {:induction false} KindsTableMeaning(images: seq<string>, listing: string -> seq<string>, tavernConfigs: map<string, string>)
    ensures KindsTable(images, listing, tavernConfigs).Keys == Elements(images)
    ensures forall image :: image in KindsTable(images, listing, tavernConfigs) ==>
      KindsTable(images, listing, tavernConfigs)[image] == KindsFound(listing(image), tavernConfigs)
    decreases |images|
  {
    if images != [] {
      var n := |images| - 1;
      KindsTableMeaning(images[..n], listing, tavernConfigs);
      assert images == images[..n] + [images[n]];
      assert Elements(images) == Elements(images[..n]) + {images[n]};
    }
  }

  /** `detect_test_classes`: the class table, and the config kinds found for
      every image. */
  method DetectTestClasses(images: seq<string>, listing: string -> seq<string>,
                           wanted: map<string, string>, tavernConfigs: map<string, string>)
    returns (testResults: map<string, seq<string>>, tavernConfigResults: map<string, seq<string>>)
    ensures testResults == ClassTable(images, listing, wanted)
    ensures tavernConfigResults == KindsTable(images, listing, tavernConfigs)
  {
    testResults, tavernConfigResults := map[], map[];
    var i := 0;
    while i < |images|
      invariant 0 <= i <= |images|
      invariant testResults == ClassTable(images[..i], listing, wanted)
      invariant tavernConfigResults == KindsTable(images[..i], listing, tavernConfigs)
    {
      assert images[..i + 1][..i] == images[..i];
      var image := images[i];
      var kinds;
      testResults, kinds := ScanImage(testResults, image, listing(image), wanted, tavernConfigs);
      tavernConfigResults := tavernConfigResults[image := kinds];
      i := i + 1;
    }
    assert images[..i] == images;
  }

  // ---------------------------------------------------------------------
  // The tavern configuration (lines 82-86): a shallow copy whose
  // `variables` map is the global configuration's own
  // ---------------------------------------------------------------------

  /** A `variables` dict, shared between the global configuration and its copy. */
  class Variables {
    var entries: map<string, string>

    constructor(entries: map<string, string>)
      ensures this.entries == entries
    {
      this.entries := entries;
    }

    method Set(key: string, value: string)
      modifies this
      ensures entries == old(entries)[key := value]
    {
      entries := entries[key := value];
    }
  }

  /** The `tavern` section of the global test configuration. */
  class TavernSection {
    var variables: Variables
    var settings: map<string, string>

    constructor(variables: Variables, settings: map<string, string>)
      ensures this.variables == variables && this.settings == settings
    {
      this.variables := variables;
      this.settings := settings;
    }

    /** `dict.copy()`: a new section that holds the same `variables` object. */
    method Copy() returns (c: TavernSection)
      ensures fresh(c)
      ensures c.variables == variables && c.settings == settings
    {
      c := new TavernSection(variables, settings);
    }
  }

  /** One entry of the global configuration's `services`: its name and its
      container URL. */
  datatype ServiceUrl = ServiceUrl(name: string, containerUrl: string)

  function BaseUrlKey(service: string): string {
    Lower(service) + "_base_url"
  }

  /** The variables after every service's base URL has been stored, in order. */
  function WithBaseUrls(vars: map<string, string>, services: seq<ServiceUrl>): map<string, string>
    decreases |services|
  {
    if services == [] then vars
    else
      var n := |services| - 1;
      WithBaseUrls(vars, services[..n])[BaseUrlKey(services[n].name) := services[n].containerUrl]
  }

  /** The variables after storing the base URLs are the earlier variables and
      one `<name lowercased>_base_url` per service, nothing else. */
  lemma {:induction false} WithBaseUrlsKeys(vars: map<string, string>, services: seq<ServiceUrl>)
    ensures forall key :: key in WithBaseUrls(vars, services) <==>
      key in vars || exists i :: 0 <= i < |services| && key == BaseUrlKey(services[i].name)
    decreases |services|
  {
    if services != [] {
      var n := |services| - 1;
      var prefix := services[..n];
      WithBaseUrlsKeys(vars, prefix);
      assert forall i :: 0 <= i < n ==> prefix[i] == services[i];
    }
  }

  /** Distinct lower-cased names give distinct variables. */
  lemma BaseUrlKeyInjective(a: string, b: string)
    ensures BaseUrlKey(a) == BaseUrlKey(b) ==> Lower(a) == Lower(b)
  {
    if BaseUrlKey(a) == BaseUrlKey(b) {
      assert |Lower(a)| == |Lower(b)|;
      assert Lower(a) == BaseUrlKey(a)[..|Lower(a)|];
      assert Lower(b) == BaseUrlKey(b)[..|Lower(b)|];
    }
  }

  /** A service's base URL is its container URL, unless a later service
      lower-cases to the same name. */
  lemma {:induction false} WithBaseUrlsValue(vars: map<string, string>, services: seq<ServiceUrl>, i: nat)
    requires i < |services|
    requires forall j :: i < j < |services| ==> Lower(services[j].name) != Lower(services[i].name)
    ensures BaseUrlKey(services[i].name) in WithBaseUrls(vars, services)
    ensures WithBaseUrls(vars, services)[BaseUrlKey(services[i].name)] == services[i].containerUrl
    decreases |services|
  {
    var n := |services| - 1;
    if i < n {
      var prefix := services[..n];
      assert prefix[i] == services[i];
      assert forall j :: i < j < n ==> prefix[j] == services[j];
      WithBaseUrlsValue(vars, prefix, i);
      BaseUrlKeyInjective(services[n].name, services[i].name);
    }
  }

  /** A variable that is no service's base URL keeps its value. */
  lemma {:induction false} WithBaseUrlsKeeps(vars: map<string, string>, services: seq<ServiceUrl>, key: string)
    requires key in vars
    requires forall i :: 0 <= i < |services| ==> key != BaseUrlKey(services[i].name)
    ensures key in WithBaseUrls(vars, services) && WithBaseUrls(vars, services)[key] == vars[key]
    decreases |services|
  {
    if services != [] {
      var n := |services| - 1;
      assert forall i :: 0 <= i < n ==> services[..n][i] == services[i];
      WithBaseUrlsKeeps(vars, services[..n], key);
    }
  }

  /** Lines 82-86: the copy gets every base URL, and so does the global
      configuration, whose `variables` object the copy shares. */
  method GenerateTavernConfig(global: TavernSection, services: seq<ServiceUrl>) returns (config: TavernSection)
    modifies global.variables
    ensures fresh(config)
    ensures config.variables == global.variables && config.settings == global.settings
    ensures global.variables.entries == WithBaseUrls(old(global.variables.entries), services)
  {
    config := global.Copy();
    var i := 0;
    while i < |services|
      invariant 0 <= i <= |services|
      invariant config.variables == global.variables && config.settings == global.settings
      invariant global.variables.entries == WithBaseUrls(old(global.variables.entries), services[..i])
    {
      assert services[..i + 1][..i] == services[..i];
      config.variables.Set(BaseUrlKey(services[i].name), services[i].containerUrl);
      i := i + 1;
    }
    assert services[..i] == services;
  }

  // ---------------------------------------------------------------------
  // Repository lookups (lines 95-98 and 246-249)
  // ---------------------------------------------------------------------

  /** One service of the global configuration, with its test image repositories. */
  datatype ServiceRepos = ServiceRepos(name: string, containerUrl: string, testRepos: seq<string>)

  /** The service's value in the lookup: its container URL (the smoke host
      override) or its name (the repository-to-service lookup). */
  function LookupValue(s: ServiceRepos, byUrl: bool): string {
    if byUrl then s.containerUrl else s.name
  }

  function SetAll(table: map<string, string>, keys: seq<string>, value: string): map<string, string>
    decreases |keys|
  {
    if keys == [] then table
    else SetAll(table, keys[..|keys| - 1], value)[keys[|keys| - 1] := value]
  }

  function RepoTable(services: seq<ServiceRepos>, byUrl: bool): map<string, string>
    decreases |services|
  {
    if services == [] then map[]
    else
      var n := |services| - 1;
      SetAll(RepoTable(services[..n], byUrl), services[n].testRepos, LookupValue(services[n], byUrl))
  }

  lemma {:induction false} SetAllAt(table: map<string, string>, keys: seq<string>, value: string)
    ensures SetAll(table, keys, value).Keys == table.Keys + Elements(keys)
    ensures forall k :: k in keys ==> SetAll(table, keys, value)[k] == value
    ensures forall k :: k in table && k !in keys ==> SetAll(table, keys, value)[k] == table[k]
    decreases |keys|
  {
    if keys != [] {
      var n := |keys| - 1;
      SetAllAt(table, keys[..n], value);
      assert keys == keys[..n] + [keys[n]];
      assert Elements(keys) == Elements(keys[..n]) + {keys[n]};
    }
  }

  /** A repository is in the lookup exactly when some service lists it as a
      test repository. */
  lemma {:induction false} RepoTableKeys(services: seq<ServiceRepos>, byUrl: bool)
    ensures forall repo :: repo in RepoTable(services, byUrl) <==> exists i :: 0 <= i < |services| && repo in services[i].testRepos
    decreases |services|
  {
    if services != [] {
      var n := |services| - 1;
      var prefix := services[..n];
      RepoTableKeys(prefix, byUrl);
      SetAllAt(RepoTable(prefix, byUrl), services[n].testRepos, LookupValue(services[n], byUrl));
      assert forall i :: 0 <= i < n ==> prefix[i] == services[i];
    }
  }

  /** The last service that lists a repository decides its value. */
  lemma {:induction false} RepoTableLastWins(services: seq<ServiceRepos>, byUrl: bool, i: nat, repo: string)
    requires i < |services| && repo in services[i].testRepos
    requires forall j :: i < j < |services| ==> repo !in services[j].testRepos
    ensures repo in RepoTable(services, byUrl) && RepoTable(services, byUrl)[repo] == LookupValue(services[i], byUrl)
    decreases |services|
  {
    var n := |services| - 1;
    var prefix := services[..n];
    SetAllAt(RepoTable(prefix, byUrl), services[n].testRepos, LookupValue(services[n], byUrl));
    if i < n {
      assert prefix[i] == services[i];
      assert forall j :: i < j < n ==> prefix[j] == services[j];
      RepoTableLastWins(prefix, byUrl, i, repo);
    }
  }

  /** The two nested loops that build a repository lookup. */
  method BuildRepoTable(services: seq<ServiceRepos>, byUrl: bool) returns (table: map<string, string>)
    ensures table == RepoTable(services, byUrl)
  {
    table := map[];
    var i := 0;
    while i < |services|
      invariant 0 <= i <= |services|
      invariant table == RepoTable(services[..i], byUrl)
    {
      assert services[..i + 1][..i] == services[..i];
      var repos := services[i].testRepos;
      var value := LookupValue(services[i], byUrl);
      ghost var before := table;
      var k := 0;
      while k < |repos|
        invariant 0 <= k <= |repos|
        invariant table == SetAll(before, repos[..k], value)
      {
        assert repos[..k + 1][..k] == repos[..k];
        table := table[repos[k] := value];
        k := k + 1;
      }
      assert repos[..k] == repos;
      i := i + 1;
    }
    assert services[..i] == services;
  }

  // ---------------------------------------------------------------------
  // Test arguments (lines 112-132)
  // ---------------------------------------------------------------------

  const SmokeClass := "smoke"
  const EmulatedKind := "emulated_hardware"
  const DefaultKind := "default"
  const GeneratedConfig := "/tavern_global_config.yaml"
  const DefaultConfig := "/src/app/" + "tavern_global_config_ct_test.yaml"
  const EmulatedConfig := "/src/app/" + "tavern_global_config_ct_test" + "_emulated_hardware.yaml"
  const ApiDirectory := "/src/app/api/"

  /** The tavern configuration a test image uses, from the kinds it carries. */
  function TavernConfigPath(kinds: seq<string>): string {
    if EmulatedKind in kinds then EmulatedConfig
    else if DefaultKind in kinds then DefaultConfig
    else GeneratedConfig
  }

  /** Precedence: emulated hardware, then the image's default, then the file
      this tool generates; a `production` config is never chosen, and the
      order of the kinds does not matter. */
  lemma TavernConfigPrecedence(kinds: seq<string>, others: seq<string>)
    ensures TavernConfigPath(kinds) == EmulatedConfig <==> EmulatedKind in kinds
    ensures TavernConfigPath(kinds) == DefaultConfig <==> EmulatedKind !in kinds && DefaultKind in kinds
    ensures TavernConfigPath(kinds) == GeneratedConfig <==> EmulatedKind !in kinds && DefaultKind !in kinds
    ensures TavernConfigPath(kinds + ["production"]) == TavernConfigPath(kinds)
    ensures Elements(others) == Elements(kinds) ==> TavernConfigPath(others) == TavernConfigPath(kinds)
  {
    assert |EmulatedConfig| != |DefaultConfig| && |DefaultConfig| != |GeneratedConfig| && |EmulatedConfig| != |GeneratedConfig|;
    if Elements(others) == Elements(kinds) {
      assert EmulatedKind in kinds <==> EmulatedKind in Elements(kinds);
      assert DefaultKind in kinds <==> DefaultKind in Elements(kinds);
    }
  }

  /** The arguments that follow the image in `docker run`: the smoke test with
      its host override, or tavern with the chosen config and the class's API
      directory. The image must split into repository and tag, and a tavern
      image must have been detected. */
  function TestArgs(testClass: string, image: string, smokeHostOverride: map<string, string>,
                    detectedTavernConfigs: map<string, seq<string>>): Result<seq<string>>
  {
    match SplitRepoTag(image)
    case Err(f) => Err(f)
    case Ok((repo, _)) =>
      if testClass == SmokeClass then
        Ok(["smoke", "--file", "smoke.json"] + (if repo in smokeHostOverride then ["--url", smokeHostOverride[repo]] else []))
      else if image !in detectedTavernConfigs then Err(KeyError(image))
      else Ok(["tavern", "--config", TavernConfigPath(detectedTavernConfigs[image]), "--path", ApiDirectory + testClass])
  }

  /** What the arguments are: for the smoke class the three smoke arguments,
      followed by `--url` and the override exactly when the image's repository
      has one; otherwise the tavern arguments with the config by precedence and
      the path `/src/app/api/<class>`. */
  lemma TestArgsMeaning(testClass: string, repo: string, tag: string, smokeHostOverride: map<string, string>,
                        detectedTavernConfigs: map<string, seq<string>>)
    requires ':' !in repo && ':' !in tag
    ensures var image := repo + ":" + tag;
      var r := TestArgs(testClass, image, smokeHostOverride, detectedTavernConfigs);
      && (testClass == SmokeClass ==> r.Ok? && r.value[..3] == ["smoke", "--file", "smoke.json"])
      && (testClass == SmokeClass ==> (|r.value| == 5 <==> repo in smokeHostOverride))
      && (testClass == SmokeClass && repo in smokeHostOverride ==> r.value[3..] == ["--url", smokeHostOverride[repo]])
      && (testClass == SmokeClass && repo !in smokeHostOverride ==> r.value == ["smoke", "--file", "smoke.json"])
      && (testClass != SmokeClass ==> (r.Ok? <==> image in detectedTavernConfigs))
      && (testClass != SmokeClass && r.Ok? ==>
            r.value == ["tavern", "--config", TavernConfigPath(detectedTavernConfigs[image]), "--path", ApiDirectory + testClass])
  {
    SplitRepoTagOfJoin(repo, tag);
  }

  /** An image that does not split into exactly a repository and a tag stops the run. */
  lemma TestArgsBadImage(testClass: string, image: string, smokeHostOverride: map<string, string>,
                         detectedTavernConfigs: map<string, seq<string>>)
    requires Count(image, ':') != 1
    ensures TestArgs(testClass, image, smokeHostOverride, detectedTavernConfigs).Err?
  {
  }

  // ---------------------------------------------------------------------
  // process_allure_reports (lines 152-195)
  // ---------------------------------------------------------------------

  /** Lines 154-191 for one result file: labels, then top-level and step statuses. */
  method ProcessResult(file: ResultFile)
    modifies file.result
    ensures file.result.labels == Relabeled(old(file.result.labels), DirName(file.path, 1), DirName(file.path, 2))
    ensures file.result.status == FixedStatus(old(file.result.status))
    ensures file.result.steps == if old(file.result.steps).Some? then Some(FixedSteps(old(file.result.steps).value)) else None
  {
    var testSource := DirName(file.path, 2);
    var testClass := DirName(file.path, 1);
    file.result.RelabelSuites(testClass, testSource);
    file.result.FixStatus();
    file.result.FixStepStatuses();
  }

  /** Every result file found is rewritten once, and no other object changes. */
  method ProcessAllureReports(files: seq<ResultFile>)
    requires DistinctResults(files)
    modifies Results(files)
    ensures forall i :: 0 <= i < |files| ==>
      && files[i].result.labels == Relabeled(old(files[i].result.labels), DirName(files[i].path, 1), DirName(files[i].path, 2))
      && files[i].result.status == FixedStatus(old(files[i].result.status))
      && files[i].result.steps == if old(files[i].result.steps).Some? then Some(FixedSteps(old(files[i].result.steps).value)) else None
  {
    var i := 0;
    while i < |files|
      invariant 0 <= i <= |files|
      invariant forall k :: 0 <= k < i ==>
        && files[k].result.labels == Relabeled(old(files[k].result.labels), DirName(files[k].path, 1), DirName(files[k].path, 2))
        && files[k].result.status == FixedStatus(old(files[k].result.status))
        && files[k].result.steps == if old(files[k].result.steps).Some? then Some(FixedSteps(old(files[k].result.steps).value)) else None
      invariant forall k :: i <= k < |files| ==> unchanged(files[k].result)
    {
      ProcessResult(files[i]);
      i := i + 1;
    }
  }

  // ---------------------------------------------------------------------
  // The test plan (lines 297-317)
  // ---------------------------------------------------------------------

  /** One entry of `test_order`. */
  datatype TestFilter = TestFilter(testClass: string, service: string)

  /** One entry of `image_tests.json`. */
  datatype PlannedTest = PlannedTest(testName: string, testClass: string, images: seq<string>)

  const AllServices := "all"

  /** Whether the filter's service takes the image (line 308). The image is split
      first; the lookup is only consulted when the service is not `all`. */
  function Serves(image: string, service: string, repoService: map<string, string>): Result<bool> {
    match SplitRepoTag(image)
    case Err(f) => Err(f)
    case Ok((repo, _)) =>
      if service == AllServices then Ok(true)
      else if repo !in repoService then Err(KeyError(repo))
      else Ok(service == repoService[repo])
  }

  /** `matching_images`, or the error of the first image that raises. */
  function Matching(images: seq<string>, service: string, repoService: map<string, string>): Result<seq<string>>
    decreases |images|
  {
    if images == [] then Ok([])
    else
      var n := |images| - 1;
      match Matching(images[..n], service, repoService)
      case Err(f) => Err(f)
      case Ok(m) =>
        match Serves(images[n], service, repoService)
        case Err(f) => Err(f)
        case Ok(b) => Ok(if b then m + [images[n]] else m)
  }

  /** What one filter adds to the plan. */
  function PlanEntry(filter: TestFilter, detected: map<string, seq<string>>, repoService: map<string, string>): Result<seq<PlannedTest>> {
    if filter.testClass !in detected then Ok([])
    else
      match Matching(detected[filter.testClass], filter.service, repoService)
      case Err(f) => Err(f)
      case Ok(m) =>
        if m == [] then Ok([])
        else Ok([PlannedTest(filter.testClass + ":" + filter.service, filter.testClass, m)])
  }

  function Plan(order: seq<TestFilter>, detected: map<string, seq<string>>, repoService: map<string, string>): Result<seq<PlannedTest>>
    decreases |order|
  {
    if order == [] then Ok([])
    else
      var n := |order| - 1;
      match Plan(order[..n], detected, repoService)
      case Err(f) => Err(f)
      case Ok(tests) =>
        match PlanEntry(order[n], detected, repoService)
        case Err(f) => Err(f)
        case Ok(e) => Ok(tests + e)
  }

  /** The scan fails exactly when some image raises. */
  lemma {:induction false} MatchingFails(images: seq<string>, service: string, repoService: map<string, string>)
    ensures Matching(images, service, repoService).Err? <==> exists i :: 0 <= i < |images| && Serves(images[i], service, repoService).Err?
    decreases |images|
  {
    if images != [] {
      var n := |images| - 1;
      var prefix := images[..n];
      MatchingFails(prefix, service, repoService);
      assert forall i :: 0 <= i < n ==> prefix[i] == images[i];
    }
  }

  /** The matching images are the images whose service the filter takes, and
      with no service filter they are all the images, in order. */
  lemma {:induction false} MatchingMeaning(images: seq<string>, service: string, repoService: map<string, string>)
    ensures Matching(images, service, repoService).Ok? ==>
      forall x :: x in Matching(images, service, repoService).value <==> x in images && Serves(x, service, repoService) == Ok(true)
    ensures Matching(images, service, repoService).Ok? && service == AllServices ==> Matching(images, service, repoService).value == images
    decreases |images|
  {
    if images != [] {
      var n := |images| - 1;
      var prefix := images[..n];
      MatchingMeaning(prefix, service, repoService);
      assert images == prefix + [images[n]];
    }
  }

  /** The matching images keep the order of `images`. */
  lemma {:induction false} MatchingOrder(images: seq<string>, service: string, repoService: map<string, string>)
    ensures Matching(images, service, repoService).Ok? ==> IsSubsequence(Matching(images, service, repoService).value, images)
    decreases |images|
  {
    if images != [] && Matching(images, service, repoService).Ok? {
      var n := |images| - 1;
      var prefix := images[..n];
      MatchingOrder(prefix, service, repoService);
      var m := Matching(prefix, service, repoService).value;
      if Serves(images[n], service, repoService) == Ok(true) {
        assert (m + [images[n]])[..|m|] == m;
      }
    }
  }

  /** Each image the filter's service takes appears in the result as often as
      in `images`; any other image not at all. */
  lemma {:induction false} MatchingCounts(images: seq<string>, service: string, repoService: map<string, string>)
    ensures Matching(images, service, repoService).Ok? ==>
      forall x :: multiset(Matching(images, service, repoService).value)[x] ==
        if Serves(x, service, repoService) == Ok(true) then multiset(images)[x] else 0
    decreases |images|
  {
    if images != [] && Matching(images, service, repoService).Ok? {
      var n := |images| - 1;
      var prefix := images[..n];
      MatchingCounts(prefix, service, repoService);
      var m := Matching(prefix, service, repoService).value;
      assert images == prefix + [images[n]];
      assert multiset(images) == multiset(prefix) + multiset{images[n]};
      if Serves(images[n], service, repoService) == Ok(true) {
        assert multiset(m + [images[n]]) == multiset(m) + multiset{images[n]};
      }
    }
  }

  lemma {:induction false} MatchingErrSticky(images: seq<string>, service: string, repoService: map<string, string>, k: nat)
    requires k <= |images|
    requires Matching(images[..k], service, repoService).Err?
    ensures Matching(images, service, repoService) == Matching(images[..k], service, repoService)
    decreases |images| - k
  {
    if k < |images| {
      assert images[..k + 1][..k] == images[..k];
      MatchingErrSticky(images, service, repoService, k + 1);
    } else {
      assert images[..k] == images;
    }
  }

  lemma {:induction false} PlanErrSticky(order: seq<TestFilter>, detected: map<string, seq<string>>, repoService: map<string, string>, k: nat)
    requires k <= |order|
    requires Plan(order[..k], detected, repoService).Err?
    ensures Plan(order, detected, repoService) == Plan(order[..k], detected, repoService)
    decreases |order| - k
  {
    if k < |order| {
      assert order[..k + 1][..k] == order[..k];
      PlanErrSticky(order, detected, repoService, k + 1);
    } else {
      assert order[..k] == order;
    }
  }

  /** The plan follows `test_order`: the plan of a longer order extends the plan
      of its beginning with the entries of the rest. */
  lemma {:induction false} PlanAppend(a: seq<TestFilter>, b: seq<TestFilter>, detected: map<string, seq<string>>, repoService: map<string, string>)
    requires Plan(a + b, detected, repoService).Ok?
    ensures Plan(a, detected, repoService).Ok? && Plan(b, detected, repoService).Ok?
    ensures Plan(a + b, detected, repoService).value == Plan(a, detected, repoService).value + Plan(b, detected, repoService).value
    decreases |b|
  {
    if b == [] {
      assert a + b == a;
    } else {
      var n := |b| - 1;
      var ab := a + b;
      assert ab[..|ab| - 1] == a + b[..n];
      assert ab[|ab| - 1] == b[n];
      var whole := Plan(ab, detected, repoService);
      var front := Plan(a + b[..n], detected, repoService);
      var e := PlanEntry(b[n], detected, repoService);
      assert front.Ok? && e.Ok? && whole.value == front.value + e.value;
      PlanAppend(a, b[..n], detected, repoService);
      var bb := Plan(b[..n], detected, repoService);
      assert Plan(b, detected, repoService) == Ok(bb.value + e.value);
      assert whole.value == Plan(a, detected, repoService).value + (bb.value + e.value);
    }
  }

  /** Every planned test has images, all of its class's, is named
      `<class>:<service>` after a filter of that class, and there is at most one
      entry per filter. */
  lemma {:induction false} PlanEntriesMeaning(order: seq<TestFilter>, detected: map<string, seq<string>>, repoService: map<string, string>)
    ensures var r := Plan(order, detected, repoService);
      r.Ok? ==>
        && |r.value| <= |order|
        && forall t :: t in r.value ==>
             && |t.images| > 0
             && t.testClass in detected
             && (forall x :: x in t.images ==> x in detected[t.testClass])
             && exists i :: 0 <= i < |order| && order[i].testClass == t.testClass
                  && t.testName == order[i].testClass + ":" + order[i].service
                  && Matching(detected[t.testClass], order[i].service, repoService) == Ok(t.images)
    decreases |order|
  {
    if order != [] {
      var n := |order| - 1;
      var prefix := order[..n];
      PlanEntriesMeaning(prefix, detected, repoService);
      var r := Plan(order, detected, repoService);
      if r.Ok? {
        var f := order[n];
        if f.testClass in detected {
          MatchingMeaning(detected[f.testClass], f.service, repoService);
        }
        var e := PlanEntry(f, detected, repoService).value;
        forall t | t in r.value
          ensures && |t.images| > 0
                  && t.testClass in detected
                  && (forall x :: x in t.images ==> x in detected[t.testClass])
                  && exists i :: 0 <= i < |order| && order[i].testClass == t.testClass
                       && t.testName == order[i].testClass + ":" + order[i].service
                       && Matching(detected[t.testClass], order[i].service, repoService) == Ok(t.images)
        {
          if t in e {
            assert order[n].testClass == t.testClass;
          } else {
            assert t in Plan(prefix, detected, repoService).value;
            var i :| 0 <= i < n && prefix[i].testClass == t.testClass
                  && t.testName == prefix[i].testClass + ":" + prefix[i].service
                  && Matching(detected[t.testClass], prefix[i].service, repoService) == Ok(t.images);
            assert order[i] == prefix[i];
          }
        }
      }
    }
  }

  /** The images loop of lines 304-310 for one filter. */
  method MatchImages(images: seq<string>, service: string, repoService: map<string, string>) returns (r: Result<seq<string>>)
    ensures r == Matching(images, service, repoService)
  {
    var matching: seq<string> := [];
    var i := 0;
    while i < |images|
      invariant 0 <= i <= |images|
      invariant Matching(images[..i], service, repoService) == Ok(matching)
    {
      assert images[..i + 1][..i] == images[..i];
      var split := SplitRepoTag(images[i]);
      if split.Err? {
        MatchingErrSticky(images, service, repoService, i + 1);
        return Err(split.fault);
      }
      var imageRepo := split.value.0;
      if service == AllServices {
        matching := matching + [images[i]];
      } else {
        if imageRepo !in repoService {
          MatchingErrSticky(images, service, repoService, i + 1);
          return Err(KeyError(imageRepo));
        }
        if service == repoService[imageRepo] {
          matching := matching + [images[i]];
        }
      }
      i := i + 1;
    }
    assert images[..i] == images;
    return Ok(matching);
  }

  /** Lines 297-317. The scan of `detected_tests.items()` reaches at most the one
      class equal to the filter's, so it is a lookup here. */
  method BuildPlan(order: seq<TestFilter>, detected: map<string, seq<string>>, repoService: map<string, string>)
    returns (r: Result<seq<PlannedTest>>)
    ensures r == Plan(order, detected, repoService)
  {
    var tests: seq<PlannedTest> := [];
    var i := 0;
    while i < |order|
      invariant 0 <= i <= |order|
      invariant Plan(order[..i], detected, repoService) == Ok(tests)
    {
      assert order[..i + 1][..i] == order[..i];
      var filter := order[i];
      assert order[..i + 1][i] == filter;
      if filter.testClass in detected {
        var matching := MatchImages(detected[filter.testClass], filter.service, repoService);
        if matching.Err? {
          assert PlanEntry(filter, detected, repoService).Err?;
          PlanErrSticky(order, detected, repoService, i + 1);
          return Err(matching.fault);
        }
        if |matching.value| != 0 {
          assert PlanEntry(filter, detected, repoService) == Ok([PlannedTest(filter.testClass + ":" + filter.service, filter.testClass, matching.value)]);
          tests := tests + [PlannedTest(filter.testClass + ":" + filter.service, filter.testClass, matching.value)];
        } else {
          assert PlanEntry(filter, detected, repoService) == Ok([]);
          assert tests + [] == tests;
        }
      } else {
        assert tests + [] == tests;
      }
      i := i + 1;
    }
    assert order[..i] == order;
    return Ok(tests);
  }
}
