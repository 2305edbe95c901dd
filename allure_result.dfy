/** One Allure test-result JSON object, as both update_allure_suite_name.py and
    run_tests.py (process_allure_reports) rewrite it in place: the `suite` and
    `parentSuite` labels are renamed after the directories holding the file,
    and a `broken` status becomes `failed`. */
module AllureResult {
  import opened Common

  /** One entry of the result's `labels` list. */
  datatype Label = Label(name: string, value: string)

  /** One entry of the result's `steps` list. */
  datatype Step = Step(name: string, status: string)

  const SuiteLabel := "suite"
  const ParentSuiteLabel := "parentSuite"
  const Broken := "broken"
  const Failed := "failed"

  /** `path.parent.name` (up = 1) and `path.parent.parent.name` (up = 2) for a
      path given as its segments: the empty name once the path runs out. */
  function DirName(path: seq<string>, up: nat): (r: string)
    ensures |path| > up ==> r == path[|path| - 1 - up]
    ensures |path| <= up ==> r == ""
  {
    if |path| > up then path[|path| - 1 - up] else ""
  }

  predicate HasLabel(labels: seq<Label>, name: string) {
    exists i :: 0 <= i < |labels| && labels[i].name == name
  }

  /** How many labels carry the given name. */
  function CountNamed(labels: seq<Label>, name: string): nat
    decreases |labels|
  {
    if labels == [] then 0
    else CountNamed(labels[..|labels| - 1], name) + (if labels[|labels| - 1].name == name then 1 else 0)
  }

  /** One label after the loop body has seen it. */
  function RelabelOne(l: Label, testClass: string, testSource: string): Label {
    if l.name == SuiteLabel then Label(l.name, testClass)
    else if l.name == ParentSuiteLabel then Label(l.name, testSource)
    else l
  }

  /** The labels after the rewrite: each label relabelled where it stands, and
      one `parentSuite` label appended when the list had none. */
  function Relabeled(labels: seq<Label>, testClass: string, testSource: string): seq<Label> {
    seq(|labels|, i requires 0 <= i < |labels| => RelabelOne(labels[i], testClass, testSource))
    + (if HasLabel(labels, ParentSuiteLabel) then [] else [Label(ParentSuiteLabel, testSource)])
  }

  /** The status after the rewrite. */
  function FixedStatus(status: string): string {
    if status == Broken then Failed else status
  }

  function FixedSteps(steps: seq<Step>): seq<Step> {
    seq(|steps|, i requires 0 <= i < |steps| => Step(steps[i].name, FixedStatus(steps[i].status)))
  }

  lemma {:induction false} CountNamedZero(labels: seq<Label>, name: string)
    ensures CountNamed(labels, name) == 0 <==> !HasLabel(labels, name)
    decreases |labels|
  {
    if labels != [] {
      var n := |labels| - 1;
      CountNamedZero(labels[..n], name);
      assert forall i :: 0 <= i < n ==> labels[..n][i] == labels[i];
    }
  }

  lemma {:induction false} CountNamedAppend(a: seq<Label>, b: seq<Label>, name: string)
    ensures CountNamed(a + b, name) == CountNamed(a, name) + CountNamed(b, name)
    decreases |b|
  {
    if b == [] {
      assert a + b == a;
    } else {
      var n := |b| - 1;
      CountNamedAppend(a, b[..n], name);
      assert (a + b)[..|a + b| - 1] == a + b[..n];
    }
  }

  /** Renaming keeps each label's name, so the count of every name is kept. */
  lemma {:induction false} CountNamedRelabel(labels: seq<Label>, testClass: string, testSource: string, name: string)
    ensures CountNamed(seq(|labels|, i requires 0 <= i < |labels| => RelabelOne(labels[i], testClass, testSource)), name)
      == CountNamed(labels, name)
    decreases |labels|
  {
    if labels != [] {
      var n := |labels| - 1;
      var m := seq(|labels|, i requires 0 <= i < |labels| => RelabelOne(labels[i], testClass, testSource));
      var mn := seq(n, i requires 0 <= i < n => RelabelOne(labels[..n][i], testClass, testSource));
      assert m[..n] == mn;
      CountNamedRelabel(labels[..n], testClass, testSource, name);
    }
  }

  /** What the rewrite promises about the labels: every `suite` label names the
      test class, every `parentSuite` label the test source; the others keep
      their place and value; and there is exactly one more `parentSuite` label
      than before when there was none, the same number otherwise. */
  lemma RelabeledMeaning(labels: seq<Label>, testClass: string, testSource: string)
    ensures var r := Relabeled(labels, testClass, testSource);
      && (forall i :: 0 <= i < |r| && r[i].name == SuiteLabel ==> r[i].value == testClass)
      && (forall i :: 0 <= i < |r| && r[i].name == ParentSuiteLabel ==> r[i].value == testSource)
      && (forall i :: 0 <= i < |labels| ==> r[i].name == labels[i].name)
      && (forall i :: 0 <= i < |labels| && labels[i].name != SuiteLabel && labels[i].name != ParentSuiteLabel ==> r[i] == labels[i])
      && |r| == |labels| + (if HasLabel(labels, ParentSuiteLabel) then 0 else 1)
      && CountNamed(r, ParentSuiteLabel) == (if HasLabel(labels, ParentSuiteLabel) then CountNamed(labels, ParentSuiteLabel) else 1)
      && CountNamed(r, SuiteLabel) == CountNamed(labels, SuiteLabel)
  {
    var m := seq(|labels|, i requires 0 <= i < |labels| => RelabelOne(labels[i], testClass, testSource));
    var extra: seq<Label> := if HasLabel(labels, ParentSuiteLabel) then [] else [Label(ParentSuiteLabel, testSource)];
    CountNamedAppend(m, extra, ParentSuiteLabel);
    CountNamedAppend(m, extra, SuiteLabel);
    CountNamedRelabel(labels, testClass, testSource, ParentSuiteLabel);
    CountNamedRelabel(labels, testClass, testSource, SuiteLabel);
    CountNamedZero(labels, ParentSuiteLabel);
    if extra != [] {
      assert CountNamed(extra, ParentSuiteLabel) == 1 by {
        assert extra[..0] == [];
      }
      assert CountNamed(extra, SuiteLabel) == 0 by {
        assert extra[..0] == [];
      }
    }
  }

  /** Rewriting a second time, for the same directories, changes nothing. */
  lemma RelabeledIdempotent(labels: seq<Label>, testClass: string, testSource: string)
    ensures Relabeled(Relabeled(labels, testClass, testSource), testClass, testSource) == Relabeled(labels, testClass, testSource)
  {
    var r := Relabeled(labels, testClass, testSource);
    assert HasLabel(r, ParentSuiteLabel) by {
      if HasLabel(labels, ParentSuiteLabel) {
        var i :| 0 <= i < |labels| && labels[i].name == ParentSuiteLabel;
        assert r[i].name == ParentSuiteLabel;
      } else {
        assert r[|labels|].name == ParentSuiteLabel;
      }
    }
  }

  /** Only `broken` changes, it becomes `failed`, and a fixed status stays fixed. */
  lemma FixedStatusMeaning(status: string)
    ensures FixedStatus(status) == Failed <==> status == Broken || status == Failed
    ensures status != Broken ==> FixedStatus(status) == status
    ensures FixedStatus(FixedStatus(status)) == FixedStatus(status)
  {
  }

  lemma FixedStepsIdempotent(steps: seq<Step>)
    ensures |FixedSteps(steps)| == |steps|
    ensures forall i :: 0 <= i < |steps| ==> FixedSteps(steps)[i].name == steps[i].name
    ensures forall i :: 0 <= i < |steps| ==> FixedSteps(steps)[i].status != Broken
    ensures FixedSteps(FixedSteps(steps)) == FixedSteps(steps)
  {
  }

  /** A result file's parsed JSON; `steps` is None when the key is absent. */
  class TestResult {
    var labels: seq<Label>
    var status: string
    var steps: Option<seq<Step>>

    constructor(labels: seq<Label>, status: string, steps: Option<seq<Step>>)
      ensures this.labels == labels && this.status == status && this.steps == steps
    {
      this.labels := labels;
      this.status := status;
      this.steps := steps;
    }

    /** The `parent_suite_exists` loop and the append after it. */
    method RelabelSuites(testClass: string, testSource: string)
      modifies this
      ensures labels == Relabeled(old(labels), testClass, testSource)
      ensures status == old(status) && steps == old(steps)
    {
      ghost var orig := labels;
      var parentSuiteExists := false;
      var i := 0;
      while i < |labels|
        invariant 0 <= i <= |labels| == |orig|
        invariant forall k :: 0 <= k < i ==> labels[k] == RelabelOne(orig[k], testClass, testSource)
        invariant forall k :: i <= k < |labels| ==> labels[k] == orig[k]
        invariant parentSuiteExists <==> HasLabel(orig[..i], ParentSuiteLabel)
        invariant status == old(status) && steps == old(steps)
      {
        assert forall k :: 0 <= k < i ==> orig[..i + 1][k] == orig[..i][k];
        if labels[i].name == SuiteLabel {
          labels := labels[i := Label(labels[i].name, testClass)];
        } else if labels[i].name == ParentSuiteLabel {
          labels := labels[i := Label(labels[i].name, testSource)];
          parentSuiteExists := true;
        }
        assert orig[..i + 1][i] == orig[i];
        i := i + 1;
      }
      assert orig[..i] == orig;
      if !parentSuiteExists {
        labels := labels + [Label(ParentSuiteLabel, testSource)];
      }
    }

    /** `if status == "broken": status = "failed"` at the top level. */
    method FixStatus()
      modifies this
      ensures status == FixedStatus(old(status))
      ensures labels == old(labels) && steps == old(steps)
    {
      if status == Broken {
        status := Failed;
      }
    }

    /** The same for every step, when the result has steps. */
    method FixStepStatuses()
      modifies this
      ensures steps == (if old(steps).Some? then Some(FixedSteps(old(steps).value)) else None)
      ensures labels == old(labels) && status == old(status)
    {
      if steps.Some? {
        var s := steps.value;
        var i := 0;
        while i < |s|
          invariant 0 <= i <= |s| == |old(steps).value|
          invariant forall k :: 0 <= k < i ==> s[k] == FixedSteps(old(steps).value)[k]
          invariant forall k :: i <= k < |s| ==> s[k] == old(steps).value[k]
          invariant labels == old(labels) && status == old(status) && steps == old(steps)
        {
          if s[i].status == Broken {
            s := s[i := Step(s[i].name, Failed)];
          }
          i := i + 1;
        }
        assert s == FixedSteps(old(steps).value);
        steps := Some(s);
      }
    }
  }

  /** One result file found by the glob: its path segments and its contents. */
  datatype ResultFile = ResultFile(path: seq<string>, result: TestResult)

  /** Distinct files are distinct objects. */
  predicate DistinctResults(files: seq<ResultFile>) {
    forall i, j :: 0 <= i < j < |files| ==> files[i].result != files[j].result
  }

  function Results(files: seq<ResultFile>): set<TestResult> {
    set i | 0 <= i < |files| :: files[i].result
  }
}
