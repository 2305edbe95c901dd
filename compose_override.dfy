/** update_docker_compose.py: points the images of the HMS simulation
    environment's docker-compose services at the tags a CSM release ships.
    The services are read once from the parsed file; each override is written
    back by its own `yq -i` command, and a failing command ends the run with
    the earlier overrides already in place. */
module ComposeOverride {
  import opened Common

  /** One entry of the compose file's `services` mapping: its key, its
      `image` field when present, and its other fields. */
  datatype Service = Service(name: string, image: Option<string>, settings: map<string, string>)

  /** One `yq -i e '.services.<name>.image = "<image>"'` command. */
  datatype Edit = Edit(name: string, image: string)

  /** What the loop has done so far: the commands it ran, in order, and the
      fault that stopped it, if one did. */
  datatype Outcome = Outcome(edits: seq<Edit>, fault: Option<Fault>)

  function Names(services: seq<Service>): seq<string> {
    seq(|services|, i requires 0 <= i < |services| => services[i].name)
  }

  /** The decision for one service image (lines 66-71): the unpacking of
      `split(":", 2)`, then, when the repository has overrides, the repository
      with the first override tag; None leaves the service alone. */
  function Override(image: string, overrides: map<string, seq<string>>): Result<Option<string>> {
    match SplitRepoTag(image)
    case Err(f) => Err(f)
    case Ok((repo, _)) =>
      if repo !in overrides then Ok(None)
      else if overrides[repo] == [] then Err(IndexError("list index out of range"))
      else Ok(Some(repo + ":" + overrides[repo][0]))
  }

  /** The override, read through the image's own repository and tag: every
      shape of image the script meets, and what happens to it. */
  lemma OverrideMeaning(repo: string, tag: string, overrides: map<string, seq<string>>)
    requires ':' !in repo && ':' !in tag
    ensures Override(repo + ":" + tag, overrides) ==
      if repo !in overrides then Ok(None)
      else if overrides[repo] == [] then Err(IndexError("list index out of range"))
      else Ok(Some(repo + ":" + overrides[repo][0]))
  {
    SplitRepoTagOfJoin(repo, tag);
  }

  /** An image without exactly one colon fails the unpacking, whatever the overrides. */
  lemma OverrideBadImage(image: string, overrides: map<string, seq<string>>)
    ensures Override(image, overrides).Err? && Override(image, overrides).fault.ValueError?
      <==> Count(image, ':') != 1
  {
  }

  /** The override keeps the repository and swaps the tag, and overriding the
      overridden image again yields it unchanged. */
  lemma OverrideIdempotent(image: string, overrides: map<string, seq<string>>)
    requires Override(image, overrides).Ok? && Override(image, overrides).value.Some?
    requires ':' !in overrides[SplitRepoTag(image).value.0][0]
    ensures var n := Override(image, overrides).value.value;
      && SplitRepoTag(n) == Ok((SplitRepoTag(image).value.0, overrides[SplitRepoTag(image).value.0][0]))
      && Override(n, overrides) == Ok(Some(n))
  {
    var repo := SplitRepoTag(image).value.0;
    SplitRepoTagOfJoin(repo, overrides[repo][0]);
  }

  /** The loop of lines 59-78 over the parsed services, with `yqSucceeds`
      standing for the exit status of each command. */
  function Run(services: seq<Service>, overrides: map<string, seq<string>>, yqSucceeds: Edit -> bool): Outcome
    decreases |services|
  {
    if services == [] then Outcome([], None)
    else
      var n := |services| - 1;
      var prior := Run(services[..n], overrides, yqSucceeds);
      var s := services[n];
      if prior.fault.Some? || s.image.None? then prior
      else match Override(s.image.value, overrides)
        case Err(f) => Outcome(prior.edits, Some(f))
        case Ok(None) => prior
        case Ok(Some(img)) =>
          if yqSucceeds(Edit(s.name, img)) then Outcome(prior.edits + [Edit(s.name, img)], None)
          else Outcome(prior.edits, Some(Exit(1)))
  }

  /** Once the loop has stopped, the services after it change nothing. */
  lemma {:induction false} RunFaultSticky(services: seq<Service>, overrides: map<string, seq<string>>, yqSucceeds: Edit -> bool, k: nat)
    requires k <= |services|
    requires Run(services[..k], overrides, yqSucceeds).fault.Some?
    ensures Run(services, overrides, yqSucceeds) == Run(services[..k], overrides, yqSucceeds)
    decreases |services| - k
  {
    if k < |services| {
      var n := |services| - 1;
      assert services[..n][..k] == services[..k];
      RunFaultSticky(services[..n], overrides, yqSucceeds, k);
      assert services[..n] == services[..|services| - 1];
    } else {
      assert services[..k] == services;
    }
  }

  /** Every command names a service of the file. */
  lemma {:induction false} RunNames(services: seq<Service>, overrides: map<string, seq<string>>, yqSucceeds: Edit -> bool)
    ensures forall j :: 0 <= j < |Run(services, overrides, yqSucceeds).edits| ==>
      Run(services, overrides, yqSucceeds).edits[j].name in Names(services)
    decreases |services|
  {
    if services != [] {
      var n := |services| - 1;
      RunNames(services[..n], overrides, yqSucceeds);
      assert forall k :: 0 <= k < n ==> Names(services[..n])[k] == Names(services)[k];
      assert Names(services)[n] == services[n].name;
    }
  }

  /** Every command comes from a service with an image, names that service,
      writes its override and succeeded. */
  lemma {:induction false} RunSound(services: seq<Service>, overrides: map<string, seq<string>>, yqSucceeds: Edit -> bool, j: nat)
    requires j < |Run(services, overrides, yqSucceeds).edits|
    ensures exists k :: (0 <= k < |services| && services[k].image.Some?
      && Override(services[k].image.value, overrides) == Ok(Some(Run(services, overrides, yqSucceeds).edits[j].image))
      && services[k].name == Run(services, overrides, yqSucceeds).edits[j].name
      && yqSucceeds(Run(services, overrides, yqSucceeds).edits[j]))
    decreases |services|
  {
    var n := |services| - 1;
    var prior := Run(services[..n], overrides, yqSucceeds);
    if j < |prior.edits| {
      RunSound(services[..n], overrides, yqSucceeds, j);
      var k :| 0 <= k < n && services[..n][k].image.Some?
        && Override(services[..n][k].image.value, overrides) == Ok(Some(prior.edits[j].image))
        && services[..n][k].name == prior.edits[j].name
        && yqSucceeds(prior.edits[j]);
      assert services[k] == services[..n][k];
    } else {
      assert services[n].image.Some?;
    }
  }

  /** When the run ends with a fault, there is a service at which it stopped:
      everything before it went through, and the commands run are exactly
      those of the services before it. */
  lemma {:induction false} RunFault(services: seq<Service>, overrides: map<string, seq<string>>, yqSucceeds: Edit -> bool)
    requires Run(services, overrides, yqSucceeds).fault.Some?
    ensures exists k :: (0 <= k < |services|
      && Run(services[..k], overrides, yqSucceeds).fault.None?
      && Run(services, overrides, yqSucceeds).edits == Run(services[..k], overrides, yqSucceeds).edits
      && services[k].image.Some?
      && match Override(services[k].image.value, overrides)
         case Err(f) => Run(services, overrides, yqSucceeds).fault == Some(f)
         case Ok(None) => false
         case Ok(Some(img)) => !yqSucceeds(Edit(services[k].name, img)) && Run(services, overrides, yqSucceeds).fault == Some(Exit(1)))
    decreases |services|
  {
    var n := |services| - 1;
    var prior := Run(services[..n], overrides, yqSucceeds);
    if prior.fault.Some? {
      RunFault(services[..n], overrides, yqSucceeds);
      var k :| 0 <= k < n
        && Run(services[..n][..k], overrides, yqSucceeds).fault.None?
        && prior.edits == Run(services[..n][..k], overrides, yqSucceeds).edits
        && services[..n][k].image.Some?
        && match Override(services[..n][k].image.value, overrides)
           case Err(f) => prior.fault == Some(f)
           case Ok(None) => false
           case Ok(Some(img)) => !yqSucceeds(Edit(services[..n][k].name, img)) && prior.fault == Some(Exit(1));
      assert services[..n][..k] == services[..k];
      assert services[..n][k] == services[k];
    } else {
      assert services[..n] == services[..|services| - 1];
    }
  }

  /** `.services.<name>.image = "<image>"` on the file's services. */
  function SetImage(services: seq<Service>, e: Edit): (r: seq<Service>)
    ensures |r| == |services|
  {
    seq(|services|, i requires 0 <= i < |services| =>
      if services[i].name == e.name then services[i].(image := Some(e.image)) else services[i])
  }

  /** The commands run one after the other. */
  function ApplyAll(services: seq<Service>, edits: seq<Edit>): (r: seq<Service>)
    ensures |r| == |services|
    decreases |edits|
  {
    if edits == [] then services
    else SetImage(ApplyAll(services, edits[..|edits| - 1]), edits[|edits| - 1])
  }

  /** The image the last command naming `name` wrote, if any did. */
  function LastImageFor(edits: seq<Edit>, name: string): Option<string>
    decreases |edits|
  {
    if edits == [] then None
    else if edits[|edits| - 1].name == name then Some(edits[|edits| - 1].image)
    else LastImageFor(edits[..|edits| - 1], name)
  }

  /** After the commands a service keeps its key and its other fields; its
      image is the one the last command naming it wrote, or the old one. */
  lemma {:induction false} ApplyAllAt(services: seq<Service>, edits: seq<Edit>, i: nat)
    requires i < |services|
    ensures ApplyAll(services, edits)[i] ==
      match LastImageFor(edits, services[i].name)
      case None => services[i]
      case Some(img) => services[i].(image := Some(img))
    decreases |edits|
  {
    if edits != [] {
      ApplyAllAt(services, edits[..|edits| - 1], i);
    }
  }

  /** With distinct service keys, the last command naming a service is the
      one its own override produced. */
  lemma {:induction false} LastImageOfRun(services: seq<Service>, overrides: map<string, seq<string>>, yqSucceeds: Edit -> bool, i: nat)
    requires NoDuplicates(Names(services))
    requires Run(services, overrides, yqSucceeds).fault.None?
    requires i < |services|
    ensures services[i].image.Some? ==> Override(services[i].image.value, overrides).Ok?
    ensures LastImageFor(Run(services, overrides, yqSucceeds).edits, services[i].name) ==
      if services[i].image.None? then None
      else Override(services[i].image.value, overrides).value
    decreases |services|
  {
    var n := |services| - 1;
    var prior := Run(services[..n], overrides, yqSucceeds);
    var edits := Run(services, overrides, yqSucceeds).edits;
    assert forall k :: 0 <= k < n ==> Names(services[..n])[k] == Names(services)[k];
    assert NoDuplicates(Names(services[..n])) by {
      forall a, b | 0 <= a < b < n
        ensures Names(services[..n])[a] != Names(services[..n])[b]
      {
        assert Names(services)[a] != Names(services)[b];
      }
    }
    assert prior.fault.None?;
    assert edits == prior.edits || (|edits| == |prior.edits| + 1 && edits[..|prior.edits|] == prior.edits && edits[|prior.edits|].name == services[n].name);
    if i == n {
      // no earlier command names the last service
      RunNames(services[..n], overrides, yqSucceeds);
      assert services[n].name !in Names(services[..n]) by {
        forall k | 0 <= k < n
          ensures Names(services[..n])[k] != services[n].name
        {
          assert Names(services)[k] != Names(services)[n];
        }
      }
      LastImageAbsent(prior.edits, services[n].name);
    } else {
      LastImageOfRun(services[..n], overrides, yqSucceeds, i);
      assert services[..n][i] == services[i];
      assert services[i].name != services[n].name by {
        assert Names(services)[i] != Names(services)[n];
      }
    }
  }

  lemma {:induction false} LastImageAbsent(edits: seq<Edit>, name: string)
    requires forall j :: 0 <= j < |edits| ==> edits[j].name != name
    ensures LastImageFor(edits, name) == None
    decreases |edits|
  {
    if edits != [] {
      LastImageAbsent(edits[..|edits| - 1], name);
    }
  }

  /** The promise of the whole script when it finishes: each service with an
      image whose repository has overrides now runs `repo:<first tag>`, and
      every other service, with or without an image, is as it was. */
  lemma UpdatedServices(services: seq<Service>, overrides: map<string, seq<string>>, yqSucceeds: Edit -> bool, i: nat)
    requires NoDuplicates(Names(services))
    requires Run(services, overrides, yqSucceeds).fault.None?
    requires i < |services|
    ensures services[i].image.Some? ==> Override(services[i].image.value, overrides).Ok?
    ensures ApplyAll(services, Run(services, overrides, yqSucceeds).edits)[i] ==
      if services[i].image.None? || Override(services[i].image.value, overrides).value.None? then services[i]
      else services[i].(image := Override(services[i].image.value, overrides).value)
  {
    LastImageOfRun(services, overrides, yqSucceeds, i);
    ApplyAllAt(services, Run(services, overrides, yqSucceeds).edits, i);
  }

  /** The docker-compose file, changed in place by each `yq -i` command. */
  class ComposeFile {
    var services: seq<Service>

    constructor(services: seq<Service>)
      ensures this.services == services
    {
      this.services := services;
    }

    /** One successful `yq -i` command. */
    method SetServiceImage(e: Edit)
      modifies this
      ensures services == SetImage(old(services), e)
    {
      services := SetImage(services, e);
    }
  }

  /** The script: the release's image overrides from the extractor output
      (lines 47-51), then the loop over the services as loaded before any
      command ran (lines 59-78). */
  method UpdateDockerCompose(extractorOutput: map<string, ReleaseEntry>, release: string, compose: ComposeFile, yqSucceeds: Edit -> bool)
    returns (r: Result<()>)
    modifies compose
    ensures release !in extractorOutput ==> r == Err(Exit(1)) && compose.services == old(compose.services)
    ensures release in extractorOutput ==>
      var out := Run(old(compose.services), extractorOutput[release].images, yqSucceeds);
      && compose.services == ApplyAll(old(compose.services), out.edits)
      && r == (if out.fault.None? then Ok(()) else Err(out.fault.value))
  {
    if release !in extractorOutput {
      return Err(Exit(1));
    }
    var overrides := extractorOutput[release].images;
    var loaded := compose.services;
    ghost var edits: seq<Edit> := [];
    var i := 0;
    while i < |loaded|
      invariant 0 <= i <= |loaded|
      invariant Run(loaded[..i], overrides, yqSucceeds) == Outcome(edits, None)
      invariant compose.services == ApplyAll(loaded, edits)
    {
      assert loaded[..i + 1][..i] == loaded[..i];
      var s := loaded[i];
      if s.image.None? {
        i := i + 1;
        continue;
      }
      var decision := Override(s.image.value, overrides);
      if decision.Err? {
        RunFaultSticky(loaded, overrides, yqSucceeds, i + 1);
        return Err(decision.fault);
      }
      if decision.value.Some? {
        var e := Edit(s.name, decision.value.value);
        if !yqSucceeds(e) {
          RunFaultSticky(loaded, overrides, yqSucceeds, i + 1);
          return Err(Exit(1));
        }
        compose.SetServiceImage(e);
        edits := edits + [e];
      }
      i := i + 1;
    }
    assert loaded[..i] == loaded;
    return Ok(());
  }
}
