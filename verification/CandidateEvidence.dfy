// release_candidate_evidence: the production authorization document. It drops
// most of the candidate record, yet loses nothing on approved records.

module CandidateEvidence {
  import opened Basics
  import opened Json
  import opened ReleaseContract

  const SCHEMA_VERSION := 2
  const PRODUCTION_KIND := "dotmac.production_authorization"

  datatype Key =
    | SchemaVersion | Kind
    | SourceRevision | SourceTree | ImageDigest | ProductManifestDigest
    | BuildRunId | StagingDeploymentId
    | ReleaseRevision | ReleaseTree | AuthorizationRunId
    | OtherKey(name: string)

  const PRODUCTION_FIELDS: set<Key> := {
    SchemaVersion, Kind, SourceRevision, SourceTree, ImageDigest, ProductManifestDigest,
    BuildRunId, StagingDeploymentId, ReleaseRevision, ReleaseTree, AuthorizationRunId}

  datatype DocumentError =
    | NotAnObject
    | UnexpectedFields
    | UnsupportedVersion
    | UnexpectedKind
    | NotAString(field: Key)
    | NotAPositiveInteger(field: Key)
    | Refused(blockers: seq<Blocker>)
    | Invalid(code: ContractError)

  function Read(raw: Document<Key>, kind: string, fields: set<Key>)
    : Result<map<Key, Json>, DocumentError>
  {
    if raw.NotObject? then Err(NotAnObject)
    else if raw.fields.Keys != fields || !({SchemaVersion, Kind} <= fields) then Err(UnexpectedFields)
    else if raw.fields[SchemaVersion] != Int(SCHEMA_VERSION) then Err(UnsupportedVersion)
    else if raw.fields[Kind] != Str(kind) then Err(UnexpectedKind)
    else Ok(raw.fields)
  }

  function RequiredString(m: map<Key, Json>, field: Key): Result<string, DocumentError>
    requires field in m
  {
    if m[field].Str? then Ok(m[field].s) else Err(NotAString(field))
  }

  function Lift<T>(r: Result<T, ContractError>): Result<T, DocumentError> {
    match r
    case Ok(v) => Ok(v)
    case Err(e) => Err(Invalid(e))
  }

  function ShaField(m: map<Key, Json>, field: Key, code: ContractError): Result<GitSha, DocumentError>
    requires field in m
  {
    var s :- RequiredString(m, field);
    Lift(MakeGitSha(s, code))
  }

  function DigestField(m: map<Key, Json>, field: Key, code: ContractError)
    : Result<Sha256Digest, DocumentError>
    requires field in m
  {
    var s :- RequiredString(m, field);
    Lift(MakeDigest(s, code))
  }

  function IdField(m: map<Key, Json>, field: Key): Result<EvidenceId, DocumentError>
    requires field in m
  {
    if m[field].Int? && m[field].i > 0 then Ok(m[field].i) else Err(NotAPositiveInteger(field))
  }

  function ProductionDocument(a: ReleaseArtifact, s: StagingAcceptance, m: MainAuthorization)
    : Document<Key>
  {
    Document(map[
      SchemaVersion := Int(SCHEMA_VERSION),
      Kind := Str(PRODUCTION_KIND),
      SourceRevision := Str(a.sourceRevision),
      SourceTree := Str(a.sourceTree),
      ImageDigest := Str(a.imageDigest),
      ProductManifestDigest := Str(a.productManifestDigest),
      BuildRunId := Int(a.buildRunId),
      StagingDeploymentId := Int(s.deploymentId),
      ReleaseRevision := Str(m.releaseRevision),
      ReleaseTree := Str(m.releaseTree),
      AuthorizationRunId := Int(m.authorizationRunId)])
  }

  // write_production_authorization
  function WriteAuthorization(c: Candidate): Result<Document<Key>, DocumentError> {
    if ProductionBlockers(c) != [] then Err(Refused(ProductionBlockers(c)))
    else
      ApprovedExactly(c);
      Ok(ProductionDocument(c.artifact, c.staging.value, c.main.value))
  }

  // read_production_authorization: everything the document does not state is
  // filled in as an approval would have it, then re-evaluated.
  function ReadAuthorization(raw: Document<Key>): Result<Candidate, DocumentError> {
    var m :- Read(raw, PRODUCTION_KIND, PRODUCTION_FIELDS);
    var revision :- ShaField(m, SourceRevision, InvalidGitCommitSha);
    var tree :- ShaField(m, SourceTree, InvalidGitTreeSha);
    var image :- DigestField(m, ImageDigest, InvalidImageDigest);
    var manifest :- DigestField(m, ProductManifestDigest, InvalidProductManifestDigest);
    var build :- IdField(m, BuildRunId);
    var deployment :- IdField(m, StagingDeploymentId);
    var authorization :- IdField(m, AuthorizationRunId);
    var releaseRevision :- ShaField(m, ReleaseRevision, InvalidGitCommitSha);
    var releaseTree :- ShaField(m, ReleaseTree, InvalidGitTreeSha);
    var c := Candidate(
      ReleaseArtifact(revision, tree, image, manifest, build, Success),
      Some(StagingAcceptance(deployment, revision, tree, image, Success)),
      Some(MainAuthorization(authorization, releaseRevision, releaseTree, Success, true)));
    if ProductionBlockers(c) != [] then Err(Refused(ProductionBlockers(c))) else Ok(c)
  }

  // Reading what was written returns the identical candidate: exactly the
  // approved candidates can be written, and none of their fields is lost.
  lemma WriteThenRead(c: Candidate)
    ensures WriteAuthorization(c).Ok? <==> Approved(c)
    ensures Approved(c) ==> ReadAuthorization(WriteAuthorization(c).value) == Ok(c)
  {
    if Approved(c) {
      ApprovedExactly(c);
      var a, s, m := c.artifact, c.staging.value, c.main.value;
      var doc := ProductionDocument(a, s, m);
      assert doc.fields.Keys == PRODUCTION_FIELDS;
      assert Read(doc, PRODUCTION_KIND, PRODUCTION_FIELDS) == Ok(doc.fields);
    }
  }

  // The fields of a document that states a candidate.
  ghost predicate States(m: map<Key, Json>, a: ReleaseArtifact, s: StagingAcceptance,
                         r: MainAuthorization) {
    && m.Keys == PRODUCTION_FIELDS
    && m[SchemaVersion] == Int(SCHEMA_VERSION) && m[Kind] == Str(PRODUCTION_KIND)
    && m[SourceRevision] == Str(a.sourceRevision) && m[SourceTree] == Str(a.sourceTree)
    && m[ImageDigest] == Str(a.imageDigest)
    && m[ProductManifestDigest] == Str(a.productManifestDigest)
    && m[BuildRunId] == Int(a.buildRunId) && m[StagingDeploymentId] == Int(s.deploymentId)
    && m[ReleaseRevision] == Str(r.releaseRevision) && m[ReleaseTree] == Str(r.releaseTree)
    && m[AuthorizationRunId] == Int(r.authorizationRunId)
  }

  lemma ProductionStates(a: ReleaseArtifact, s: StagingAcceptance, r: MainAuthorization)
    ensures States(ProductionDocument(a, s, r).fields, a, s, r)
  {
    assert ProductionDocument(a, s, r).fields.Keys == PRODUCTION_FIELDS;
  }

  // A document is determined by what it states.
  lemma StatementsDetermine(m: map<Key, Json>, n: map<Key, Json>, a: ReleaseArtifact,
                            s: StagingAcceptance, r: MainAuthorization)
    requires States(m, a, s, r) && States(n, a, s, r)
    ensures m == n
  {
    forall k | k in m ensures m[k] == n[k] {
      match k
      case OtherKey(_) =>
      case _ =>
    }
  }

  lemma ReadCandidateIsStated(raw: Document<Key>)
    requires ReadAuthorization(raw).Ok?
    ensures var c := ReadAuthorization(raw).value;
            && Approved(c) && raw.Document? && c.staging.Some? && c.main.Some?
            && States(raw.fields, c.artifact, c.staging.value, c.main.value)
  {
  }

  // Writing what was read returns the identical document.
  lemma ReadThenWrite(raw: Document<Key>)
    ensures var c := ReadAuthorization(raw);
            c.Ok? ==> Approved(c.value) && WriteAuthorization(c.value) == Ok(raw)
  {
    if ReadAuthorization(raw).Ok? {
      var c := ReadAuthorization(raw).value;
      ReadCandidateIsStated(raw);
      ProductionStates(c.artifact, c.staging.value, c.main.value);
      StatementsDetermine(raw.fields, WriteAuthorization(c).value.fields,
                          c.artifact, c.staging.value, c.main.value);
    }
  }

  // So accepted documents and approved candidates are in bijection.
  lemma DocumentsAreFaithful(a: Candidate, b: Candidate, x: Document<Key>, y: Document<Key>)
    requires Approved(a) && Approved(b)
    requires ReadAuthorization(x).Ok? && ReadAuthorization(y).Ok?
    ensures WriteAuthorization(a) == WriteAuthorization(b) <==> a == b
    ensures ReadAuthorization(x) == ReadAuthorization(y) <==> x == y
  {
    WriteThenRead(a);
    WriteThenRead(b);
    ReadThenWrite(x);
    ReadThenWrite(y);
  }
}
