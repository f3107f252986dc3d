// verify_github_release: approve a release only if the latest exact push run
// of every required workflow is green.

module ReleaseGate {
  import opened Basics
  import opened Text
  import ReleaseContract

  datatype WorkflowRun = WorkflowRun(
    databaseId: int,
    name: string,
    event: string,
    status: string,
    conclusion: Option<string>,
    headSha: string,
    headBranch: string,
    runNumber: int,
    runAttempt: int)

  datatype Command = Command(revision: string, branch: string, required: seq<string>)

  // ReleaseGateCommand.__post_init__
  predicate IsCommand(c: Command) {
    && ReleaseContract.IsGitSha(c.revision)
    && c.required != []
    && (forall w :: w in c.required ==> !IsBlank(w))
    && NoDuplicates(c.required)
  }

  datatype Decision = Decision(workflow: string, approved: bool, evidence: string)

  predicate Matches(c: Command, workflow: string, r: WorkflowRun) {
    r.name == workflow && r.event == "push" && r.headSha == c.revision && r.headBranch == c.branch
  }

  // (run_number, run_attempt, database_id), compared as a tuple
  predicate Older(a: WorkflowRun, b: WorkflowRun) {
    if a.runNumber != b.runNumber then a.runNumber < b.runNumber
    else if a.runAttempt != b.runAttempt then a.runAttempt < b.runAttempt
    else a.databaseId < b.databaseId
  }

  predicate IsGreen(r: WorkflowRun) {
    r.status == "completed" && r.conclusion == Some("success")
  }

  function DecisionFor(workflow: string, latest: Option<WorkflowRun>): Decision {
    match latest
    case None => Decision(workflow, false, "missing exact-branch push run")
    case Some(r) =>
      if IsGreen(r) then Decision(workflow, true, "success")
      else
        Decision(workflow, false,
                 "status=" + r.status + ", conclusion="
                 + if r.conclusion.Some? && r.conclusion.value != "" then r.conclusion.value
                   else "none")
  }

  // The run a decision is about: matching, and older than no matching run.
  ghost predicate IsLatest(c: Command, workflow: string, runs: seq<WorkflowRun>,
                           latest: Option<WorkflowRun>) {
    match latest
    case None => forall r :: r in runs ==> !Matches(c, workflow, r)
    case Some(l) =>
      && l in runs && Matches(c, workflow, l)
      && forall r :: r in runs && Matches(c, workflow, r) ==> !Older(l, r)
  }

  method FindLatest(c: Command, workflow: string, runs: seq<WorkflowRun>)
    returns (latest: Option<WorkflowRun>)
    ensures IsLatest(c, workflow, runs, latest)
  {
    var candidates := [];
    for i := 0 to |runs|
      invariant forall r :: r in candidates <==> r in runs[..i] && Matches(c, workflow, r)
    {
      if Matches(c, workflow, runs[i]) { candidates := candidates + [runs[i]]; }
    }
    assert runs[..|runs|] == runs;
    if candidates == [] { return None; }
    var best := candidates[0];
    for i := 1 to |candidates|
      invariant best in candidates
      invariant forall k :: 0 <= k < i ==> !Older(best, candidates[k])
    {
      if Older(best, candidates[i]) { best := candidates[i]; }
    }
    return Some(best);
  }

  // The outcome answers every required workflow, in order, from its latest run.
  ghost predicate IsOutcome(c: Command, runs: seq<WorkflowRun>, decisions: seq<Decision>) {
    && |decisions| == |c.required|
    && forall i :: 0 <= i < |decisions| ==> Decides(c, runs, c.required[i], decisions[i])
  }

  ghost predicate Decides(c: Command, runs: seq<WorkflowRun>, workflow: string, d: Decision) {
    exists latest :: IsLatest(c, workflow, runs, latest) && d == DecisionFor(workflow, latest)
  }

  method EvaluateReleaseGate(c: Command, runs: seq<WorkflowRun>) returns (decisions: seq<Decision>)
    ensures IsOutcome(c, runs, decisions)
  {
    decisions := [];
    for i := 0 to |c.required|
      invariant |decisions| == i
      invariant forall k :: 0 <= k < i ==> Decides(c, runs, c.required[k], decisions[k])
    {
      var latest := FindLatest(c, c.required[i], runs);
      decisions := decisions + [DecisionFor(c.required[i], latest)];
    }
  }

  predicate Approved(decisions: seq<Decision>) {
    decisions != [] && forall i :: 0 <= i < |decisions| ==> decisions[i].approved
  }

  // GitHub never gives two runs the same database id.
  ghost predicate DistinctIds(runs: seq<WorkflowRun>) {
    forall a, b :: a in runs && b in runs && a.databaseId == b.databaseId ==> a == b
  }

  // The one matching run that every other matching run is older than.
  ghost predicate IsGreatest(c: Command, workflow: string, runs: seq<WorkflowRun>, l: WorkflowRun) {
    && l in runs && Matches(c, workflow, l)
    && forall r :: r in runs && Matches(c, workflow, r) && r != l ==> Older(r, l)
  }

  lemma LatestIsGreatest(c: Command, w: string, runs: seq<WorkflowRun>, latest: Option<WorkflowRun>)
    requires DistinctIds(runs) && IsLatest(c, w, runs, latest)
    ensures forall l :: IsGreatest(c, w, runs, l) <==> latest == Some(l)
  {
    forall l | IsGreatest(c, w, runs, l) ensures latest == Some(l) {
      assert latest.Some?;
      assert !Older(latest.value, l);
    }
  }

  // The gate approves exactly when the greatest matching run of every required
  // workflow is green.
  lemma ApprovedIffLatestGreen(c: Command, runs: seq<WorkflowRun>, decisions: seq<Decision>)
    requires IsCommand(c) && DistinctIds(runs) && IsOutcome(c, runs, decisions)
    ensures Approved(decisions) <==>
            forall i :: 0 <= i < |c.required| ==> HasGreenLatest(c, c.required[i], runs)
  {
    forall i | 0 <= i < |c.required|
      ensures decisions[i].approved <==> HasGreenLatest(c, c.required[i], runs)
    {
      var w := c.required[i];
      assert Decides(c, runs, w, decisions[i]);
      var latest :| IsLatest(c, w, runs, latest) && decisions[i] == DecisionFor(w, latest);
      LatestIsGreatest(c, w, runs, latest);
      if latest.Some? { assert IsGreatest(c, w, runs, latest.value); }
    }
  }

  ghost predicate HasGreenLatest(c: Command, workflow: string, runs: seq<WorkflowRun>) {
    exists l :: IsGreatest(c, workflow, runs, l) && IsGreen(l)
  }

  // ---------------------------------------------------------- on the runs' fields

  // A push run of the workflow for exactly this revision on exactly this branch.
  ghost predicate IsExactPush(c: Command, workflow: string, r: WorkflowRun) {
    r.name == workflow && r.event == "push" && r.headSha == c.revision && r.headBranch == c.branch
  }

  // Among those, none has a greater run number, attempt and id, in this order.
  ghost predicate IsNewest(c: Command, workflow: string, runs: seq<WorkflowRun>, l: WorkflowRun) {
    && l in runs && IsExactPush(c, workflow, l)
    && forall r :: r in runs && IsExactPush(c, workflow, r) ==>
         || r.runNumber < l.runNumber
         || (r.runNumber == l.runNumber && r.runAttempt < l.runAttempt)
         || (r.runNumber == l.runNumber && r.runAttempt == l.runAttempt
             && r.databaseId <= l.databaseId)
  }

  // What a decision says about a run.
  ghost predicate Reports(d: Decision, r: WorkflowRun) {
    if r.status == "completed" && r.conclusion == Some("success")
    then d.approved && d.evidence == "success"
    else
      && !d.approved
      && d.evidence ==
         if r.conclusion in {None, Some("")} then "status=" + r.status + ", conclusion=none"
         else "status=" + r.status + ", conclusion=" + r.conclusion.value
  }

  // Every required workflow is answered, in order, from its newest exact push
  // run; without one it is refused for that reason.
  lemma OutcomeExactly(c: Command, runs: seq<WorkflowRun>, decisions: seq<Decision>, i: nat)
    requires IsOutcome(c, runs, decisions) && i < |c.required|
    ensures |decisions| == |c.required| && decisions[i].workflow == c.required[i]
    ensures if exists r :: r in runs && IsExactPush(c, c.required[i], r)
            then exists l :: IsNewest(c, c.required[i], runs, l) && Reports(decisions[i], l)
            else !decisions[i].approved && decisions[i].evidence == "missing exact-branch push run"
  {
    var w := c.required[i];
    assert Decides(c, runs, w, decisions[i]);
    var latest :| IsLatest(c, w, runs, latest) && decisions[i] == DecisionFor(w, latest);
    assert forall r :: Matches(c, w, r) <==> IsExactPush(c, w, r);
    if latest.Some? {
      EvidenceExactly(w, latest.value);
      assert IsNewest(c, w, runs, latest.value);
    }
  }

  lemma EvidenceExactly(workflow: string, r: WorkflowRun)
    ensures Reports(DecisionFor(workflow, Some(r)), r)
  {
    var text := "status=" + r.status + ", conclusion=";
    assert text + "none" == "status=" + r.status + ", conclusion=none";
  }

  // Two runs with different ids are never both the newest.
  lemma NewestIsUnique(c: Command, workflow: string, runs: seq<WorkflowRun>, a: WorkflowRun,
                       b: WorkflowRun)
    requires DistinctIds(runs) && IsNewest(c, workflow, runs, a) && IsNewest(c, workflow, runs, b)
    ensures a == b
  {
  }

  // A run is noise beside others when, for every required workflow it matches,
  // one of them is a later matching run.
  ghost predicate IsNoise(c: Command, runs: seq<WorkflowRun>, x: WorkflowRun) {
    forall w :: w in c.required && Matches(c, w, x) ==>
      exists r :: r in runs && Matches(c, w, r) && Older(x, r)
  }

  // Adding noise in any amount, and reordering the whole in any way, leaves
  // the outcome as it was.
  lemma OutcomeIsStable(c: Command, runs: seq<WorkflowRun>, more: seq<WorkflowRun>,
                        a: seq<Decision>, b: seq<Decision>)
    requires DistinctIds(more)
    requires forall r :: r in runs ==> r in more
    requires forall x :: x in more && x !in runs ==> IsNoise(c, runs, x)
    requires IsOutcome(c, runs, a) && IsOutcome(c, more, b)
    ensures a == b
  {
    forall i | 0 <= i < |c.required| ensures a[i] == b[i] {
      var w := c.required[i];
      assert Decides(c, runs, w, a[i]) && Decides(c, more, w, b[i]);
      var x :| IsLatest(c, w, runs, x) && a[i] == DecisionFor(w, x);
      var y :| IsLatest(c, w, more, y) && b[i] == DecisionFor(w, y);
      if y.Some? { LatestIsNoNoise(c, w, runs, more, y.value); }
      LatestIsGreatest(c, w, more, y);
      if x.Some? && y.Some? {
        assert IsGreatest(c, w, more, y.value);
        assert !Older(x.value, y.value);
      }
    }
  }

  lemma LatestIsNoNoise(c: Command, w: string, runs: seq<WorkflowRun>, more: seq<WorkflowRun>,
                        e: WorkflowRun)
    requires w in c.required && Matches(c, w, e)
    requires forall r :: r in runs ==> r in more
    ensures IsNoise(c, runs, e) ==> !IsLatest(c, w, more, Some(e))
  {
    if IsNoise(c, runs, e) {
      var r :| r in runs && Matches(c, w, r) && Older(e, r);
    }
  }
}
