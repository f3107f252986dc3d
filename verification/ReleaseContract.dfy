// Typed release evidence and the pure decisions over it: the backup policy and
// production eligibility.

module ReleaseContract {
  import opened Basics
  import opened Text
  import opened LexOrder

  datatype ContractError =
    | InvalidGitCommitSha
    | InvalidGitTreeSha
    | InvalidImageDigest
    | InvalidProductManifestDigest
    | InvalidWorkflowRunId
    | InvalidDeploymentId
    | InvalidMigrationGraphDigest
    | InvalidAlembicHeads
    | HotfixChangeReferenceRequired
    | HotfixReasonRequired

  // ---------------------------------------------------------- identifiers

  const ZEROS40 := "0000000000000000000000000000000000000000"
  const ZERO_DIGEST := "sha256:" + seq(64, _ => '0')

  predicate IsGitSha(s: string) { |s| == 40 && AllHex(s) }

  predicate IsSha256Digest(s: string) {
    |s| == 71 && "sha256:" <= s && forall i :: 7 <= i < 71 ==> IsHex(s[i])
  }

  predicate IsRevision(s: string) {
    s != "" && forall i :: 0 <= i < |s| ==> IsAlphanumeric(s[i]) || s[i] in "_.-"
  }

  predicate IsChangeReference(s: string) {
    && 1 <= |s| <= 128
    && IsAlphanumeric(s[0])
    && forall i :: 0 <= i < |s| ==> IsAlphanumeric(s[i]) || s[i] in "._:/-"
  }

  // The four patterns, character by character.
  lemma PatternsExactly(s: string)
    ensures IsGitSha(s) <==>
            |s| == 40 && forall i :: 0 <= i < 40 ==> '0' <= s[i] <= '9' || 'a' <= s[i] <= 'f'
    ensures IsSha256Digest(s) <==>
            |s| == 71 && s[..7] == "sha256:"
            && forall i :: 7 <= i < 71 ==> '0' <= s[i] <= '9' || 'a' <= s[i] <= 'f'
    ensures IsRevision(s) <==>
            s != "" && forall i :: 0 <= i < |s| ==>
              || '0' <= s[i] <= '9' || 'A' <= s[i] <= 'Z' || 'a' <= s[i] <= 'z'
              || s[i] == '_' || s[i] == '.' || s[i] == '-'
  {
    assert forall c: char :: c in "_.-" <==> c == '_' || c == '.' || c == '-';
  }

  type GitSha = s: string | IsGitSha(s) witness ZEROS40

  type Sha256Digest = s: string | IsSha256Digest(s) witness ZERO_DIGEST

  type EvidenceId = n: int | n > 0 witness 1

  function MakeGitSha(s: string, code: ContractError): Result<GitSha, ContractError> {
    if IsGitSha(s) then Ok(s) else Err(code)
  }

  function MakeDigest(s: string, code: ContractError): Result<Sha256Digest, ContractError> {
    if IsSha256Digest(s) then Ok(s) else Err(code)
  }

  // ---------------------------------------------------------- Alembic heads

  ghost predicate AreCanonicalHeads(h: seq<string>) {
    && h != []
    && Increasing(Identity, h)
    && forall i :: 0 <= i < |h| ==> IsRevision(h[i])
  }

  type AlembicHeads = h: seq<string> | AreCanonicalHeads(h) witness ["0"]

  // AlembicHeads(revisions): sort, drop repetitions, then validate.
  function MakeHeads(revisions: seq<string>): (r: Result<AlembicHeads, ContractError>)
    ensures r.Ok? <==> revisions != [] && forall x :: x in revisions ==> IsRevision(x)
    ensures r.Ok? ==> Elements(r.value) == Elements(revisions)
    ensures r.Err? ==> r.error == InvalidAlembicHeads
  {
    SortedSetMeaning(revisions);
    var normalized := SortedSet(revisions);
    assert forall x :: x in normalized <==> x in Elements(normalized);
    assert forall x :: x in revisions <==> x in Elements(revisions);
    if revisions != [] && forall x :: x in normalized ==> IsRevision(x) then Ok(normalized)
    else Err(InvalidAlembicHeads)
  }

  // Two heads values are equal exactly when they name the same revisions,
  // whatever the order and the repetitions they were built from, and building
  // from an already canonical value gives it back.
  lemma HeadsCanonical(a: seq<string>, b: seq<string>)
    requires MakeHeads(a).Ok? && MakeHeads(b).Ok?
    ensures MakeHeads(a) == MakeHeads(b) <==> Elements(a) == Elements(b)
    ensures MakeHeads(MakeHeads(a).value) == MakeHeads(a)
  {
    SortedSetCanonical(a, b);
  }

  lemma MakeCanonicalHeads(h: AlembicHeads)
    ensures MakeHeads(h) == Ok(h)
  {
    assert MakeHeads(h).Ok?;
    IncreasingUnique(Identity, MakeHeads(h).value, h);
  }

  lemma HeadsEqualIffSameSet(a: AlembicHeads, b: AlembicHeads)
    ensures a == b <==> Elements(a) == Elements(b)
  {
    if Elements(a) == Elements(b) {
      IncreasingUnique(Identity, a, b);
    }
  }

  // ---------------------------------------------------------- backup policy

  datatype DeploymentTarget = Staging | Production

  datatype BackupMode = Required | SkipStaging | SkipProductionHotfix

  datatype BackupPolicyIssue =
    | HotfixExceptionNotAllowedOnStaging
    | MigrationGraphChanged
    | ImageHeadsChanged
    | DatabaseNotAtCandidateHeads

  datatype MigrationState = MigrationState(
    runningGraphDigest: Sha256Digest,
    candidateGraphDigest: Sha256Digest,
    runningImageHeads: AlembicHeads,
    candidateImageHeads: AlembicHeads,
    databaseHeads: AlembicHeads)

  datatype Hotfix = Hotfix(changeReference: string, reason: string, state: MigrationState)

  datatype BackupDecision = BackupDecision(
    target: DeploymentTarget, mode: BackupMode, issues: seq<BackupPolicyIssue>)

  function MakeHotfix(changeReference: string, reason: string, state: MigrationState)
    : Result<Hotfix, ContractError>
  {
    if !IsChangeReference(changeReference) then Err(HotfixChangeReferenceRequired)
    else if IsBlank(reason) then Err(HotfixReasonRequired)
    else Ok(Hotfix(changeReference, reason, state))
  }

  function When<T>(condition: bool, x: T): seq<T> {
    if condition then [x] else []
  }

  function ResolveBackupPolicy(target: DeploymentTarget, hotfix: Option<Hotfix>): BackupDecision {
    match (target, hotfix)
    case (Staging, _) =>
      BackupDecision(target, SkipStaging, When(hotfix.Some?, HotfixExceptionNotAllowedOnStaging))
    case (Production, None) => BackupDecision(target, Required, [])
    case (Production, Some(h)) =>
      var s := h.state;
      var issues :=
        When(s.runningGraphDigest != s.candidateGraphDigest, MigrationGraphChanged)
        + When(s.runningImageHeads != s.candidateImageHeads, ImageHeadsChanged)
        + When(s.databaseHeads != s.candidateImageHeads, DatabaseNotAtCandidateHeads);
      BackupDecision(target, if issues != [] then Required else SkipProductionHotfix, issues)
  }

  // A production backup is skipped exactly for a hotfix whose image carries the
  // running image's graph and heads, on a database stamped with those heads as
  // a set. Every other production deployment takes a backup, and each listed
  // issue is listed for its own reason. On staging the request is noted, and
  // no hotfix exception is ever granted.
  lemma SkipExactly(hotfix: Option<Hotfix>)
    ensures var d := ResolveBackupPolicy(Staging, hotfix);
            && d.mode == SkipStaging
            && d.issues == if hotfix.Some? then [HotfixExceptionNotAllowedOnStaging] else []
    ensures var d := ResolveBackupPolicy(Production, hotfix);
            && d.mode != SkipStaging
            && (d.mode == SkipProductionHotfix <==>
                && hotfix.Some?
                && var s := hotfix.value.state;
                && s.runningGraphDigest == s.candidateGraphDigest
                && Elements(s.runningImageHeads) == Elements(s.candidateImageHeads)
                && Elements(s.databaseHeads) == Elements(s.candidateImageHeads))
            && (hotfix.Some? ==>
                var s := hotfix.value.state;
                && (MigrationGraphChanged in d.issues <==>
                    s.runningGraphDigest != s.candidateGraphDigest)
                && (ImageHeadsChanged in d.issues <==>
                    Elements(s.runningImageHeads) != Elements(s.candidateImageHeads))
                && (DatabaseNotAtCandidateHeads in d.issues <==>
                    Elements(s.databaseHeads) != Elements(s.candidateImageHeads)))
  {
    if hotfix.Some? {
      var s := hotfix.value.state;
      HeadsEqualIffSameSet(s.runningImageHeads, s.candidateImageHeads);
      HeadsEqualIffSameSet(s.databaseHeads, s.candidateImageHeads);
    }
  }

  // ---------------------------------------------------------- eligibility

  datatype Conclusion = Pending | Success | Failure | Cancelled

  datatype ReleaseArtifact = ReleaseArtifact(
    sourceRevision: GitSha,
    sourceTree: GitSha,
    imageDigest: Sha256Digest,
    productManifestDigest: Sha256Digest,
    buildRunId: EvidenceId,
    sourceCi: Conclusion)

  datatype StagingAcceptance = StagingAcceptance(
    deploymentId: EvidenceId,
    sourceRevision: GitSha,
    sourceTree: GitSha,
    imageDigest: Sha256Digest,
    conclusion: Conclusion)

  datatype MainAuthorization = MainAuthorization(
    authorizationRunId: EvidenceId,
    releaseRevision: GitSha,
    releaseTree: GitSha,
    requiredCi: Conclusion,
    sourceRevisionIsAncestor: bool)

  datatype Candidate = Candidate(
    artifact: ReleaseArtifact,
    staging: Option<StagingAcceptance>,
    main: Option<MainAuthorization>)

  datatype Blocker =
    | SourceCiNotGreen
    | StagingEvidenceMissing
    | StagingNotAccepted
    | StagingSourceRevisionMismatch
    | StagingSourceTreeMismatch
    | StagingImageDigestMismatch
    | MainAuthorizationMissing
    | MainCiNotGreen
    | MainTreeMismatch
    | SourceRevisionNotInMain
    | SourceAndReleaseRevisionMatch

  function StagingBlockers(c: Candidate): seq<Blocker> {
    match c.staging
    case None => [StagingEvidenceMissing]
    case Some(s) =>
      When(!s.conclusion.Success?, StagingNotAccepted)
      + When(s.sourceRevision != c.artifact.sourceRevision, StagingSourceRevisionMismatch)
      + When(s.sourceTree != c.artifact.sourceTree, StagingSourceTreeMismatch)
      + When(s.imageDigest != c.artifact.imageDigest, StagingImageDigestMismatch)
  }

  function MainBlockers(c: Candidate): seq<Blocker> {
    match c.main
    case None => [MainAuthorizationMissing]
    case Some(m) =>
      When(!m.requiredCi.Success?, MainCiNotGreen)
      + When(m.releaseTree != c.artifact.sourceTree, MainTreeMismatch)
      + When(!m.sourceRevisionIsAncestor, SourceRevisionNotInMain)
      + When(m.releaseRevision == c.artifact.sourceRevision, SourceAndReleaseRevisionMatch)
  }

  function ProductionBlockers(c: Candidate): seq<Blocker> {
    When(!c.artifact.sourceCi.Success?, SourceCiNotGreen) + StagingBlockers(c) + MainBlockers(c)
  }

  // What each blocker says about a candidate.
  predicate Blocks(b: Blocker, c: Candidate) {
    match b
    case SourceCiNotGreen => c.artifact.sourceCi != Success
    case StagingEvidenceMissing => c.staging == None
    case StagingNotAccepted => c.staging.Some? && c.staging.value.conclusion != Success
    case StagingSourceRevisionMismatch =>
      c.staging.Some? && c.staging.value.sourceRevision != c.artifact.sourceRevision
    case StagingSourceTreeMismatch =>
      c.staging.Some? && c.staging.value.sourceTree != c.artifact.sourceTree
    case StagingImageDigestMismatch =>
      c.staging.Some? && c.staging.value.imageDigest != c.artifact.imageDigest
    case MainAuthorizationMissing => c.main == None
    case MainCiNotGreen => c.main.Some? && c.main.value.requiredCi != Success
    case MainTreeMismatch => c.main.Some? && c.main.value.releaseTree != c.artifact.sourceTree
    case SourceRevisionNotInMain => c.main.Some? && !c.main.value.sourceRevisionIsAncestor
    case SourceAndReleaseRevisionMatch =>
      c.main.Some? && c.main.value.releaseRevision == c.artifact.sourceRevision
  }

  predicate IsStagingBlocker(b: Blocker) {
    || b.StagingEvidenceMissing? || b.StagingNotAccepted? || b.StagingSourceRevisionMismatch?
    || b.StagingSourceTreeMismatch? || b.StagingImageDigestMismatch?
  }

  // The refusal lists exactly what blocks the candidate, each blocker once.
  lemma BlockersExactly(c: Candidate)
    ensures NoDuplicates(ProductionBlockers(c))
    ensures forall b :: b in ProductionBlockers(c) <==> Blocks(b, c)
  {
    StagingBlockersExactly(c);
    MainBlockersExactly(c);
    JoinedBlockers(c, StagingBlockers(c), MainBlockers(c));
  }

  lemma JoinedBlockers(c: Candidate, staging: seq<Blocker>, main: seq<Blocker>)
    requires NoDuplicates(staging) && NoDuplicates(main)
    requires forall b :: b in staging <==> IsStagingBlocker(b) && Blocks(b, c)
    requires forall b :: b in main <==>
               !IsStagingBlocker(b) && !b.SourceCiNotGreen? && Blocks(b, c)
    ensures var all := When(!c.artifact.sourceCi.Success?, SourceCiNotGreen) + staging + main;
            NoDuplicates(all) && forall b :: b in all <==> Blocks(b, c)
  {
    var ci := When(!c.artifact.sourceCi.Success?, SourceCiNotGreen);
    assert forall b :: b in ci <==> b.SourceCiNotGreen? && Blocks(b, c);
    ConcatDistinct(ci, staging);
    ConcatDistinct(ci + staging, main);
  }

  lemma StagingBlockersExactly(c: Candidate)
    ensures NoDuplicates(StagingBlockers(c))
    ensures forall b :: b in StagingBlockers(c) <==> IsStagingBlocker(b) && Blocks(b, c)
  {
  }

  lemma MainBlockersExactly(c: Candidate)
    ensures NoDuplicates(MainBlockers(c))
    ensures forall b :: b in MainBlockers(c) <==>
              !IsStagingBlocker(b) && !b.SourceCiNotGreen? && Blocks(b, c)
  {
  }

  predicate Approved(c: Candidate) { ProductionBlockers(c) == [] }

  // What an approval establishes: one artifact, accepted on staging under the
  // same three identities, and a green main with the same tree that contains
  // the source revision as a different commit.
  lemma ApprovedExactly(c: Candidate)
    ensures Approved(c) <==>
            && c.staging.Some? && c.main.Some?
            && c.artifact.sourceCi == c.staging.value.conclusion == c.main.value.requiredCi == Success
            && c.staging.value.sourceRevision == c.artifact.sourceRevision
            && c.staging.value.sourceTree == c.artifact.sourceTree == c.main.value.releaseTree
            && c.staging.value.imageDigest == c.artifact.imageDigest
            && c.main.value.sourceRevisionIsAncestor
            && c.main.value.releaseRevision != c.artifact.sourceRevision
  {
    assert |ProductionBlockers(c)| == 0 <==> ProductionBlockers(c) == [];
  }
}
