/** The per-file loop of undiff1c's `main`: keep the paths that name a form
    template, look at each one's parsed diff, and reset the path in the index
    as soon as one of its file-diffs is eligible. Fetching and parsing the
    diff are outside the model: their outcome for every path is given as a
    map, and the loop's result is the sequence of paths it resets. */
module Driver {
  import opened Wrappers
  import opened Text
  import opened Seqs
  import opened Classifier

  /** `file[-12:] == "Template.xml"`. */
  predicate IsCandidate(path: string)
  {
    LastN(path, 12) == "Template.xml"
  }

  /** The gate is exactly a suffix test. */
  lemma {:induction false} IsCandidateIsSuffixTest(path: string)
    ensures IsCandidate(path) <==> EndsWith(path, "Template.xml")
    ensures |path| <= 12 ==> (IsCandidate(path) <==> path == "Template.xml")
  {
  }

  lemma CandidateExamples()
    ensures IsCandidate("a/FooTemplate.xml")
    ensures IsCandidate("Template.xml")
    ensures !IsCandidate("a/Foo.xml")
    ensures !IsCandidate("a/FooTemplate.xml.bak")
  {
    assert "a/FooTemplate.xml"[5..] == "Template.xml";
    assert "a/FooTemplate.xml.bak"[9..][11] == 'k';
  }

  /** What became of each path's diff: `None` when it could not be fetched
      (a path absent from the map counts the same), otherwise the diff
      parser's modified files. */
  type Diffs = map<string, Option<seq<FileDiff>>>

  function DiffOf(diffs: Diffs, path: string): Option<seq<FileDiff>>
  {
    if path in diffs then diffs[path] else None
  }

  predicate AnyEligible(fds: seq<FileDiff>)
  {
    exists i :: 0 <= i < |fds| && Eligible(fds[i])
  }

  /** A path is reset when it passes the gate, its diff was obtained and one
      of its file-diffs is eligible. */
  predicate ShouldReset(path: string, diffs: Diffs)
  {
    IsCandidate(path) && DiffOf(diffs, path).Some? && AnyEligible(DiffOf(diffs, path).value)
  }

  /** `ShouldReset` with the diffs fixed, as a filter predicate. */
  function ResetTest(diffs: Diffs): string -> bool
  {
    p => ShouldReset(p, diffs)
  }

  /** The paths the loop resets, in input order. */
  function ResetPlan(files: seq<string>, diffs: Diffs): (r: seq<string>)
    ensures |r| <= |files|
  {
    Filter(ResetTest(diffs), files)
  }

  /** A path is reset if and only if it is in the list and should be
      reset. */
  lemma {:induction false} ResetPlanMembers(files: seq<string>, diffs: Diffs, p: string)
    ensures p in ResetPlan(files, diffs) <==> p in files && ShouldReset(p, diffs)
  {
    FilterElements(ResetTest(diffs), files);
    if p in files && ShouldReset(p, diffs) {
      FilterKeeps(ResetTest(diffs), files, p);
    }
  }

  /** The resets come in the order of the input list, and there are no more
      of them than there are paths. */
  lemma {:induction false} ResetPlanInOrder(files: seq<string>, diffs: Diffs)
    ensures IsSubsequence(ResetPlan(files, diffs), files)
    ensures |ResetPlan(files, diffs)| <= |files|
  {
    FilterIsSubsequence(ResetTest(diffs), files);
  }

  /** A list without repeated paths resets each path at most once. */
  lemma {:induction false} ResetPlanDistinct(files: seq<string>, diffs: Diffs)
    requires Distinct(files)
    ensures Distinct(ResetPlan(files, diffs))
  {
    FilterDistinct(ResetTest(diffs), files);
  }

  /** None of the first `n` file-diffs is eligible. */
  predicate NoneEligibleBefore(fds: seq<FileDiff>, n: nat)
    requires n <= |fds|
  {
    forall j :: 0 <= j < n ==> !Eligible(fds[j])
  }

  lemma {:induction false} NoneEligibleStep(fds: seq<FileDiff>, n: nat)
    requires n < |fds| && NoneEligibleBefore(fds, n) && !Eligible(fds[n])
    ensures NoneEligibleBefore(fds, n + 1)
  {
  }

  lemma {:induction false} NoneEligibleAtAll(fds: seq<FileDiff>)
    requires NoneEligibleBefore(fds, |fds|)
    ensures !AnyEligible(fds)
  {
  }

  lemma {:induction false} EligibleWitness(fds: seq<FileDiff>, i: nat)
    requires i < |fds| && Eligible(fds[i])
    ensures AnyEligible(fds)
  {
  }

  /** The loop as written: the error message for a missing diff calls
      `.forma`, which strings do not have, so the first candidate whose diff
      could not be fetched raises and ends the run; nothing after it is
      looked at. */
  function ResetPlanAsWritten(files: seq<string>, diffs: Diffs): (r: seq<string>)
    ensures |r| <= |files|
  {
    if files == [] then []
    else if IsCandidate(files[0]) && DiffOf(diffs, files[0]).None? then []
    else (if ShouldReset(files[0], diffs) then [files[0]] else []) + ResetPlanAsWritten(files[1..], diffs)
  }

  /** No candidate lacks a diff. */
  predicate AllDiffsFetched(files: seq<string>, diffs: Diffs)
  {
    forall i :: 0 <= i < |files| && IsCandidate(files[i]) ==> DiffOf(diffs, files[i]).Some?
  }

  /** When every candidate's diff was obtained, the loop as written and the
      intended loop reset the same paths. */
  lemma {:induction false} AsWrittenAgreesWhenAllFetched(files: seq<string>, diffs: Diffs)
    requires AllDiffsFetched(files, diffs)
    ensures ResetPlanAsWritten(files, diffs) == ResetPlan(files, diffs)
  {
    if files != [] {
      assert forall i :: 0 <= i < |files[1..]| ==> files[1..][i] == files[i + 1];
      AsWrittenAgreesWhenAllFetched(files[1..], diffs);
      assert files == [files[0]] + files[1..];
      ResetPlanStepFront(files[0], files[1..], diffs);
    }
  }

  lemma {:induction false} ResetPlanStepFront(file: string, rest: seq<string>, diffs: Diffs)
    ensures ResetPlan([file] + rest, diffs)
      == (if ShouldReset(file, diffs) then [file] else []) + ResetPlan(rest, diffs)
  {
    assert ([file] + rest)[1..] == rest;
  }

  /** A path that is not reset can be dropped from the plan. */
  lemma {:induction false} ResetPlanSkips(pre: seq<string>, a: string, post: seq<string>, diffs: Diffs)
    requires !ShouldReset(a, diffs)
    ensures ResetPlan(pre + [a] + post, diffs) == ResetPlan(pre, diffs) + ResetPlan(post, diffs)
  {
    ResetPlanStep(pre, a, diffs);
    assert ResetPlan(pre + [a], diffs) == ResetPlan(pre, diffs);
    FilterAppend(ResetTest(diffs), pre + [a], post);
  }

  /** The first candidate whose diff could not be fetched ends the loop as
      written: it makes the resets of the paths before it and no other, while
      the intended loop goes on with the paths after it. */
  lemma {:induction false} FetchFailureHidesLaterResets(pre: seq<string>, a: string, post: seq<string>, diffs: Diffs)
    requires AllDiffsFetched(pre, diffs) && IsCandidate(a) && DiffOf(diffs, a).None?
    ensures ResetPlanAsWritten(pre + [a] + post, diffs) == ResetPlan(pre, diffs)
    ensures ResetPlan(pre + [a] + post, diffs) == ResetPlan(pre, diffs) + ResetPlan(post, diffs)
  {
    ResetPlanSkips(pre, a, post, diffs);
    if pre == [] {
      assert pre + [a] + post == [a] + post;
    } else {
      var rest := pre[1..];
      assert forall i :: 0 <= i < |rest| ==> rest[i] == pre[i + 1];
      FetchFailureHidesLaterResets(rest, a, post, diffs);
      assert pre + [a] + post == [pre[0]] + (rest + [a] + post);
      assert pre == [pre[0]] + rest;
      ResetPlanStepFront(pre[0], rest, diffs);
    }
  }

  lemma {:induction false} FetchFailureOfFirst(a: string, b: string, diffs: Diffs)
    requires IsCandidate(a) && DiffOf(diffs, a).None? && ShouldReset(b, diffs)
    ensures ResetPlanAsWritten([a, b], diffs) == []
    ensures ResetPlan([a, b], diffs) == [b]
  {
    assert [a, b] == [a] + [b] && [b] == [b] + [];
    ResetPlanStepFront(a, [b], diffs);
    ResetPlanStepFront(b, [], diffs);
  }

  lemma TemplateNames()
    ensures IsCandidate("aTemplate.xml") && IsCandidate("bTemplate.xml")
  {
    assert "aTemplate.xml"[1..] == "Template.xml";
    assert "bTemplate.xml"[1..] == "Template.xml";
  }

  /** A template whose diff could not be fetched, followed by one whose only
      change is a regenerated identifier: the intended loop resets the second
      one, the loop as written stops before it. */
  lemma FetchFailureEndsRun()
    ensures ResetPlanAsWritten(["aTemplate.xml", "bTemplate.xml"],
      map["bTemplate.xml" := Some([[Hunk(["-  <d3p1:id>5</d3p1:id>\n"], ["+  <d3p1:id>7</d3p1:id>\n"])]])]) == []
    ensures ResetPlan(["aTemplate.xml", "bTemplate.xml"],
      map["bTemplate.xml" := Some([[Hunk(["-  <d3p1:id>5</d3p1:id>\n"], ["+  <d3p1:id>7</d3p1:id>\n"])]])]) == ["bTemplate.xml"]
  {
    var fd := [Hunk(["-  <d3p1:id>5</d3p1:id>\n"], ["+  <d3p1:id>7</d3p1:id>\n"])];
    var diffs: Diffs := map["bTemplate.xml" := Some([fd])];
    TemplateNames();
    assert "aTemplate.xml" != "bTemplate.xml" by {
      assert "aTemplate.xml"[0] != "bTemplate.xml"[0];
    }
    assert "aTemplate.xml" !in diffs;
    assert DiffOf(diffs, "bTemplate.xml") == Some([fd]);
    ScenarioIdentifierChanged();
    EligibleWitness([fd], 0);
    FetchFailureOfFirst("aTemplate.xml", "bTemplate.xml", diffs);
  }

  /** The inner loop over the parsed files: stop at the first eligible one. */
  method FirstEligible(fds: seq<FileDiff>) returns (found: bool, index: nat)
    ensures found <==> AnyEligible(fds)
    ensures found ==> index < |fds| && Eligible(fds[index]) && NoneEligibleBefore(fds, index)
  {
    index := 0;
    while index < |fds|
      invariant index <= |fds|
      invariant NoneEligibleBefore(fds, index)
    {
      var eligible := CheckFileDiff(fds[index]);
      if eligible {
        EligibleWitness(fds, index);
        return true, index;
      }
      NoneEligibleStep(fds, index);
      index := index + 1;
    }
    NoneEligibleAtAll(fds);
    return false, 0;
  }

  /** One more path extends the plan by that path exactly when it should be
      reset. */
  lemma {:induction false} ResetPlanStep(prefix: seq<string>, file: string, diffs: Diffs)
    ensures ResetPlan(prefix + [file], diffs)
      == ResetPlan(prefix, diffs) + (if ShouldReset(file, diffs) then [file] else [])
  {
    FilterAppend(ResetTest(diffs), prefix, [file]);
    assert [file][1..] == [];
  }

  /** The loop over the committed files. */
  method ProcessFiles(files: seq<string>, diffs: Diffs) returns (resets: seq<string>)
    ensures resets == ResetPlan(files, diffs)
  {
    resets := [];
    for i := 0 to |files|
      invariant resets == ResetPlan(files[..i], diffs)
    {
      var file := files[i];
      PrefixStep(files, i);
      ResetPlanStep(files[..i], file, diffs);
      if !IsCandidate(file) {
        continue;
      }
      var data := DiffOf(diffs, file);
      if data.None? {
        continue;
      }
      var found, _ := FirstEligible(data.value);
      if found {
        resets := resets + [file];
      }
    }
    assert files[..|files|] == files;
  }
}
