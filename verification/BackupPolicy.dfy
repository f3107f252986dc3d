// The production backup decision: the documents that carry it between hosts,
// and what skipping a backup guarantees about the migrations.

module BackupPolicy {
  import opened Basics
  import opened Json
  import opened ReleaseContract
  import opened MigrationTree
  import opened LexOrder
  import Text
  import Framing
  import MigrationGraph

  const SCHEMA_VERSION := 1
  const IMAGE_KIND := "dotmac.migration_image_state"
  const DECISION_KIND := "dotmac.production_backup_decision"

  // The field names of both documents, and any other name.
  datatype Key =
    | SchemaVersion | Kind | GraphDigest | Heads
    | ChangeReference | Reason | RunningGraphDigest | CandidateGraphDigest
    | RunningImageHeads | CandidateImageHeads | DatabaseHeads | Mode | Issues
    | OtherKey(name: string)

  datatype EvidenceError =
    | NotAnObject
    | UnsupportedDocument
    | InvalidImageState
    | UnexpectedFields
    | InvalidStrings
    | NotAStringList
    | DecisionMismatch
    | Contract(code: ContractError)

  function Lift<T>(r: Result<T, ContractError>): Result<T, EvidenceError> {
    match r
    case Ok(v) => Ok(v)
    case Err(e) => Err(Contract(e))
  }

  function Read(raw: Document<Key>, kind: string): Result<map<Key, Json>, EvidenceError> {
    if !raw.Document? then Err(NotAnObject)
    else if !EqualsInt(Field(raw.fields, SchemaVersion), SCHEMA_VERSION)
            || Field(raw.fields, Kind) != Str(kind)
    then Err(UnsupportedDocument)
    else Ok(raw.fields)
  }

  // ---------------------------------------------------------- image state

  // What `describe-tree` writes.
  function ImageDocument(d: Description): Document<Key> {
    Document(map[
      SchemaVersion := Int(SCHEMA_VERSION),
      Kind := Str(IMAGE_KIND),
      GraphDigest := Str(d.digest),
      Heads := StringList(d.heads)])
  }

  function ImageState(raw: Document<Key>): Result<Description, EvidenceError> {
    var m :- Read(raw, IMAGE_KIND);
    var digest, heads := Field(m, GraphDigest), Field(m, Heads);
    if !digest.Str? || !IsStringList(heads) then Err(InvalidImageState)
    else
      var d :- Lift(MakeDigest(digest.s, InvalidMigrationGraphDigest));
      var h :- Lift(MakeHeads(Strings(heads)));
      Ok(Description(d, h))
  }

  lemma ImageStateRoundTrip(d: Description)
    ensures ImageState(ImageDocument(d)) == Ok(d)
  {
    StringListRoundTrip(d.heads);
    MakeCanonicalHeads(d.heads);
  }

  // ---------------------------------------------------------- decision

  function ModeText(mode: BackupMode): string {
    match mode
    case Required => "required"
    case SkipStaging => "skip_staging"
    case SkipProductionHotfix => "skip_production_hotfix"
  }

  function IssueText(issue: BackupPolicyIssue): string {
    match issue
    case HotfixExceptionNotAllowedOnStaging => "hotfix_exception_not_allowed_on_staging"
    case MigrationGraphChanged => "migration_graph_changed"
    case ImageHeadsChanged => "image_heads_changed"
    case DatabaseNotAtCandidateHeads => "database_not_at_candidate_heads"
  }

  function IssueTexts(issues: seq<BackupPolicyIssue>): seq<string> {
    seq(|issues|, i requires 0 <= i < |issues| => IssueText(issues[i]))
  }

  function DecisionDocument(h: Hotfix, d: BackupDecision): Document<Key> {
    Document(map[
      SchemaVersion := Int(SCHEMA_VERSION),
      Kind := Str(DECISION_KIND),
      ChangeReference := Str(h.changeReference),
      Reason := Str(h.reason),
      RunningGraphDigest := Str(h.state.runningGraphDigest),
      CandidateGraphDigest := Str(h.state.candidateGraphDigest),
      RunningImageHeads := StringList(h.state.runningImageHeads),
      CandidateImageHeads := StringList(h.state.candidateImageHeads),
      DatabaseHeads := StringList(h.state.databaseHeads),
      Mode := Str(ModeText(d.mode)),
      Issues := StringList(IssueTexts(d.issues))])
  }

  function RequestedHotfix(running: Document<Key>, candidate: Document<Key>, databaseHeads: seq<string>,
                           changeReference: string, reason: string)
    : Result<Hotfix, EvidenceError>
  {
    var r :- ImageState(running);
    var c :- ImageState(candidate);
    var h :- Lift(MakeHeads(databaseHeads));
    Lift(MakeHotfix(changeReference, reason,
                    MigrationState(r.digest, c.digest, r.heads, c.heads, h)))
  }

  // The `write-production-decision` command.
  function WriteDecision(running: Document<Key>, candidate: Document<Key>, databaseHeads: seq<string>,
                         changeReference: string, reason: string)
    : Result<Document<Key>, EvidenceError>
  {
    var h :- RequestedHotfix(running, candidate, databaseHeads, changeReference, reason);
    Ok(DecisionDocument(h, ResolveBackupPolicy(Production, Some(h))))
  }

  const EVIDENCE_FIELDS: set<Key> := {
    ChangeReference, Reason, RunningGraphDigest, CandidateGraphDigest,
    RunningImageHeads, CandidateImageHeads, DatabaseHeads}
  const DECISION_FIELDS: set<Key> := {SchemaVersion, Kind, Mode, Issues} + EVIDENCE_FIELDS

  // The evidence part of a decision document, revalidated.
  function HotfixFrom(m: map<Key, Json>): Result<Hotfix, EvidenceError> {
    if m.Keys != DECISION_FIELDS then Err(UnexpectedFields)
    else if !(m[ChangeReference].Str? && m[Reason].Str? && m[RunningGraphDigest].Str?
              && m[CandidateGraphDigest].Str? && m[Mode].Str?)
    then Err(InvalidStrings)
    else if !(IsStringList(m[RunningImageHeads]) && IsStringList(m[CandidateImageHeads])
              && IsStringList(m[DatabaseHeads]) && IsStringList(m[Issues]))
    then Err(NotAStringList)
    else
      HotfixFromFields(m[ChangeReference], m[Reason], m[RunningGraphDigest],
                       m[CandidateGraphDigest], m[RunningImageHeads],
                       m[CandidateImageHeads], m[DatabaseHeads])
  }

  function HotfixFromFields(changeReference: Json, reason: Json, runningDigest: Json,
                            candidateDigest: Json, runningHeads: Json,
                            candidateHeads: Json, databaseHeads: Json)
    : Result<Hotfix, EvidenceError>
    requires changeReference.Str? && reason.Str? && runningDigest.Str? && candidateDigest.Str?
    requires IsStringList(runningHeads) && IsStringList(candidateHeads)
    requires IsStringList(databaseHeads)
  {
    var rd :- Lift(MakeDigest(runningDigest.s, InvalidMigrationGraphDigest));
    var cd :- Lift(MakeDigest(candidateDigest.s, InvalidMigrationGraphDigest));
    var rh :- Lift(MakeHeads(Strings(runningHeads)));
    var ch :- Lift(MakeHeads(Strings(candidateHeads)));
    var dh :- Lift(MakeHeads(Strings(databaseHeads)));
    Lift(MakeHotfix(changeReference.s, reason.s, MigrationState(rd, cd, rh, ch, dh)))
  }

  // _decision_from_document: recompute the decision from the evidence.
  function ReadDecision(raw: Document<Key>): Result<BackupDecision, EvidenceError> {
    var m :- Read(raw, DECISION_KIND);
    var h :- HotfixFrom(m);
    var d := ResolveBackupPolicy(Production, Some(h));
    if m[Mode] != Str(ModeText(d.mode)) || m[Issues] != StringList(IssueTexts(d.issues))
    then Err(DecisionMismatch)
    else Ok(d)
  }

  // ---------------------------------------------------------- round trip

  // A written decision is always accepted, as the decision it was written for.
  lemma WrittenDecisionIsAccepted(running: Document<Key>, candidate: Document<Key>, databaseHeads: seq<string>,
                                  changeReference: string, reason: string)
    ensures var h := RequestedHotfix(running, candidate, databaseHeads, changeReference, reason);
            var w := WriteDecision(running, candidate, databaseHeads, changeReference, reason);
            && w.Ok? == h.Ok?
            && (w.Ok? ==> ReadDecision(w.value) ==
                          Ok(ResolveBackupPolicy(Production, Some(h.value))))
  {
    var r := RequestedHotfix(running, candidate, databaseHeads, changeReference, reason);
    if r.Ok? {
      DocumentRoundTrip(r.value);
    }
  }

  lemma DocumentRoundTrip(h: Hotfix)
    requires MakeHotfix(h.changeReference, h.reason, h.state) == Ok(h)
    ensures var d := ResolveBackupPolicy(Production, Some(h));
            ReadDecision(DecisionDocument(h, d)) == Ok(d)
  {
    var d := ResolveBackupPolicy(Production, Some(h));
    var m := DecisionDocument(h, d).fields;
    DocumentStates(h, d);
    VerdictStated(h, d);
    EvidenceRoundTrip(m, h);
    VerdictRead(m, h, d);
  }

  lemma VerdictStated(h: Hotfix, d: BackupDecision)
    ensures var m := DecisionDocument(h, d).fields;
            && Read(Document(m), DECISION_KIND) == Ok(m)
            && Mode in m && m[Mode] == Str(ModeText(d.mode))
            && Issues in m && m[Issues] == StringList(IssueTexts(d.issues))
  {
  }

  lemma VerdictRead(m: map<Key, Json>, h: Hotfix, d: BackupDecision)
    requires Read(Document(m), DECISION_KIND) == Ok(m) && HotfixFrom(m) == Ok(h)
    requires d == ResolveBackupPolicy(Production, Some(h))
    requires m[Mode] == Str(ModeText(d.mode)) && m[Issues] == StringList(IssueTexts(d.issues))
    ensures ReadDecision(Document(m)) == Ok(d)
  {
  }

  // The fields a decision document states about its hotfix.
  ghost predicate States(m: map<Key, Json>, h: Hotfix) {
    && m.Keys == DECISION_FIELDS
    && m[ChangeReference] == Str(h.changeReference)
    && m[Reason] == Str(h.reason)
    && m[RunningGraphDigest] == Str(h.state.runningGraphDigest)
    && m[CandidateGraphDigest] == Str(h.state.candidateGraphDigest)
    && m[RunningImageHeads] == StringList(h.state.runningImageHeads)
    && m[CandidateImageHeads] == StringList(h.state.candidateImageHeads)
    && m[DatabaseHeads] == StringList(h.state.databaseHeads)
    && m[Mode].Str? && IsStringList(m[Issues])
  }

  lemma DocumentStates(h: Hotfix, d: BackupDecision)
    ensures States(DecisionDocument(h, d).fields, h)
  {
    StringListRoundTrip(IssueTexts(d.issues));
  }

  lemma EvidenceRoundTrip(m: map<Key, Json>, h: Hotfix)
    requires MakeHotfix(h.changeReference, h.reason, h.state) == Ok(h)
    requires States(m, h)
    ensures HotfixFrom(m) == Ok(h)
  {
    HeadsRoundTrip(h.state.runningImageHeads);
    HeadsRoundTrip(h.state.candidateImageHeads);
    HeadsRoundTrip(h.state.databaseHeads);
    FieldsRoundTrip(h);
  }

  lemma FieldsRoundTrip(h: Hotfix)
    requires MakeHotfix(h.changeReference, h.reason, h.state) == Ok(h)
    requires IsStringList(StringList(h.state.runningImageHeads))
    requires IsStringList(StringList(h.state.candidateImageHeads))
    requires IsStringList(StringList(h.state.databaseHeads))
    ensures HotfixFromFields(
              Str(h.changeReference), Str(h.reason), Str(h.state.runningGraphDigest),
              Str(h.state.candidateGraphDigest), StringList(h.state.runningImageHeads),
              StringList(h.state.candidateImageHeads), StringList(h.state.databaseHeads)) == Ok(h)
  {
    HeadsRoundTrip(h.state.runningImageHeads);
    HeadsRoundTrip(h.state.candidateImageHeads);
    HeadsRoundTrip(h.state.databaseHeads);
  }

  lemma HeadsRoundTrip(h: AlembicHeads)
    ensures IsStringList(StringList(h)) && MakeHeads(Strings(StringList(h))) == Ok(h)
  {
    StringListRoundTrip(h);
    MakeCanonicalHeads(h);
  }

  // ---------------------------------------------------------- what is written

  // The JSON list of the given texts, in order.
  ghost predicate ListsTexts(v: Json, texts: seq<string>) {
    v.List? && |v.items| == |texts| && forall i :: 0 <= i < |texts| ==> v.items[i] == Str(texts[i])
  }

  // The texts that a JSON list holds.
  ghost function TextsIn(v: Json): set<string> {
    if v.List? then set j | j in v.items && j.Str? :: j.s else {}
  }

  // The verdict on two digests and three sets of heads, in the words that the
  // deployment script reads.
  ghost predicate StatesVerdict(mode: Json, issues: Json, sameGraph: bool, sameImageHeads: bool,
                                atCandidateHeads: bool)
  {
    && mode == Str(if sameGraph && sameImageHeads && atCandidateHeads
                   then "skip_production_hotfix" else "required")
    && ListsTexts(issues, (if sameGraph then [] else ["migration_graph_changed"])
                          + (if sameImageHeads then [] else ["image_heads_changed"])
                          + if atCandidateHeads then [] else ["database_not_at_candidate_heads"])
  }

  // [A-Za-z0-9][A-Za-z0-9._:/-]{0,127}
  ghost predicate IsReference(s: string) {
    && 1 <= |s| <= 128
    && (forall i :: 0 <= i < |s| ==>
          '0' <= s[i] <= '9' || 'A' <= s[i] <= 'Z' || 'a' <= s[i] <= 'z' || (i > 0 && s[i] in "._:/-"))
  }

  lemma VerdictInWords(h: Hotfix)
    ensures var d, s := ResolveBackupPolicy(Production, Some(h)), h.state;
            StatesVerdict(Str(ModeText(d.mode)), StringList(IssueTexts(d.issues)),
                          s.runningGraphDigest == s.candidateGraphDigest,
                          Elements(s.runningImageHeads) == Elements(s.candidateImageHeads),
                          Elements(s.databaseHeads) == Elements(s.candidateImageHeads))
  {
    HeadsEqualIffSameSet(h.state.runningImageHeads, h.state.candidateImageHeads);
    HeadsEqualIffSameSet(h.state.databaseHeads, h.state.candidateImageHeads);
  }

  lemma RequestedExactly(r: Description, c: Description, databaseHeads: seq<string>,
                         changeReference: string, reason: string)
    ensures var h := RequestedHotfix(ImageDocument(r), ImageDocument(c), databaseHeads,
                                     changeReference, reason);
            && (h.Ok? <==>
                && databaseHeads != [] && (forall x :: x in databaseHeads ==> IsRevision(x))
                && IsReference(changeReference) && exists i :: 0 <= i < |reason| && !Text.IsSpace(reason[i]))
            && (h.Ok? ==>
                && h.value.changeReference == changeReference && h.value.reason == reason
                && h.value.state == MigrationState(r.digest, c.digest, r.heads, c.heads,
                                                   h.value.state.databaseHeads)
                && Elements(h.value.state.databaseHeads) == Elements(databaseHeads))
  {
    ImageStateRoundTrip(r);
    ImageStateRoundTrip(c);
    ReferenceExactly(changeReference);
    assert Text.IsBlank(reason) <==> !(exists i :: 0 <= i < |reason| && !Text.IsSpace(reason[i]));
  }

  lemma ReferenceExactly(s: string)
    ensures IsChangeReference(s) <==> IsReference(s)
  {
    assert forall c: char :: Text.IsAlphanumeric(c) ==> c !in "._:/-";
  }

  // The document of a decision, on what the command was given: it is written
  // exactly for a well-formed request, says skip exactly if both images carry
  // the same graph and heads and the database is stamped with these, lists the
  // reasons against it in a fixed order, and repeats its evidence.
  lemma WrittenDecisionStates(r: Description, c: Description, databaseHeads: seq<string>,
                              changeReference: string, reason: string)
    ensures var w := WriteDecision(ImageDocument(r), ImageDocument(c), databaseHeads,
                                   changeReference, reason);
            && (w.Ok? <==>
                && databaseHeads != [] && (forall x :: x in databaseHeads ==> IsRevision(x))
                && IsReference(changeReference) && exists i :: 0 <= i < |reason| && !Text.IsSpace(reason[i]))
            && (w.Ok? ==> w.value.Document? && w.value.fields.Keys == DECISION_FIELDS)
    ensures var w := WriteDecision(ImageDocument(r), ImageDocument(c), databaseHeads,
                                   changeReference, reason);
            w.Ok? ==>
              var m := w.value.fields;
              && m[ChangeReference] == Str(changeReference) && m[Reason] == Str(reason)
              && m[RunningGraphDigest] == Str(r.digest) && m[CandidateGraphDigest] == Str(c.digest)
              && ListsTexts(m[RunningImageHeads], r.heads)
              && ListsTexts(m[CandidateImageHeads], c.heads)
              && TextsIn(m[DatabaseHeads]) == Elements(databaseHeads)
              && StatesVerdict(m[Mode], m[Issues], r.digest == c.digest,
                               Elements(r.heads) == Elements(c.heads),
                               Elements(databaseHeads) == Elements(c.heads))
  {
    var h := RequestedHotfix(ImageDocument(r), ImageDocument(c), databaseHeads, changeReference, reason);
    RequestedExactly(r, c, databaseHeads, changeReference, reason);
    if h.Ok? {
      var d := ResolveBackupPolicy(Production, Some(h.value));
      DocumentStates(h.value, d);
      VerdictStated(h.value, d);
      VerdictInWords(h.value);
      TextsOfList(h.value.state.databaseHeads);
    }
  }

  lemma TextsOfList(items: seq<string>)
    ensures TextsIn(StringList(items)) == Elements(items)
    ensures ListsTexts(StringList(items), items)
  {
    var v := StringList(items);
    forall x | x in items ensures x in TextsIn(v) {
      var i :| 0 <= i < |items| && items[i] == x;
      assert v.items[i] == Str(x);
    }
  }

  // The verdict of an accepted document is fixed by its evidence: whoever
  // changes the mode, the issues or both gets the document rejected.
  lemma EvidenceFixesVerdict(a: map<Key, Json>, b: map<Key, Json>)
    requires ReadDecision(Document(a)).Ok? && ReadDecision(Document(b)).Ok?
    requires forall f :: f in EVIDENCE_FIELDS ==> Field(a, f) == Field(b, f)
    ensures a[Mode] == b[Mode] && a[Issues] == b[Issues]
    ensures ReadDecision(Document(a)) == ReadDecision(Document(b))
  {
    forall f | f in EVIDENCE_FIELDS ensures a[f] == b[f] {
      assert Field(a, f) == Field(b, f);
    }
  }

  lemma TamperedVerdictIsRejected(m: map<Key, Json>, mode: Json, issues: Json)
    requires ReadDecision(Document(m)).Ok?
    requires mode != m[Mode] || issues != m[Issues]
    ensures ReadDecision(Document(m[Mode := mode][Issues := issues])).Err?
  {
    var t := m[Mode := mode][Issues := issues];
    if ReadDecision(Document(t)).Ok? {
      EvidenceFixesVerdict(m, t);
    }
  }

  // The same on any document: it is accepted exactly if its fields are well
  // formed and its mode and issues are what its own evidence calls for.
  lemma AcceptedExactly(m: map<Key, Json>)
    ensures ReadDecision(Document(m)).Ok? <==>
            && IsWellFormed(m)
            && StatesVerdict(m[Mode], m[Issues], m[RunningGraphDigest] == m[CandidateGraphDigest],
                             TextsIn(m[RunningImageHeads]) == TextsIn(m[CandidateImageHeads]),
                             TextsIn(m[DatabaseHeads]) == TextsIn(m[CandidateImageHeads]))
  {
    WellFormedExactly(m);
    if IsWellFormed(m) && m[Mode].Str? && IsStringList(m[Issues]) {
      var h := HotfixFrom(m).value;
      EvidenceRead(m);
      VerdictInWords(h);
      VerdictUnique(m, ResolveBackupPolicy(Production, Some(h)),
                    h.state.runningGraphDigest == h.state.candidateGraphDigest,
                    Elements(h.state.runningImageHeads) == Elements(h.state.candidateImageHeads),
                    Elements(h.state.databaseHeads) == Elements(h.state.candidateImageHeads));
    }
  }

  // Given the three answers, mode and issues are fixed.
  lemma VerdictUnique(m: map<Key, Json>, d: BackupDecision, sameGraph: bool, sameImageHeads: bool,
                      atCandidateHeads: bool)
    requires Mode in m && Issues in m
    requires StatesVerdict(Str(ModeText(d.mode)), StringList(IssueTexts(d.issues)),
                           sameGraph, sameImageHeads, atCandidateHeads)
    ensures StatesVerdict(m[Mode], m[Issues], sameGraph, sameImageHeads, atCandidateHeads) <==>
            m[Mode] == Str(ModeText(d.mode)) && m[Issues] == StringList(IssueTexts(d.issues))
  {
    if StatesVerdict(m[Mode], m[Issues], sameGraph, sameImageHeads, atCandidateHeads) {
      assert m[Issues].items == StringList(IssueTexts(d.issues)).items;
    }
  }

  lemma EvidenceRead(m: map<Key, Json>)
    requires IsWellFormed(m) && HotfixFrom(m).Ok?
    ensures var s := HotfixFrom(m).value.state;
            && m[RunningGraphDigest] == Str(s.runningGraphDigest)
            && m[CandidateGraphDigest] == Str(s.candidateGraphDigest)
            && TextsIn(m[RunningImageHeads]) == Elements(s.runningImageHeads)
            && TextsIn(m[CandidateImageHeads]) == Elements(s.candidateImageHeads)
            && TextsIn(m[DatabaseHeads]) == Elements(s.databaseHeads)
  {
    HeadsListExactly(m[RunningImageHeads]);
    HeadsListExactly(m[CandidateImageHeads]);
    HeadsListExactly(m[DatabaseHeads]);
  }

  ghost predicate IsWellFormed(m: map<Key, Json>) {
    && m.Keys == DECISION_FIELDS
    && m[SchemaVersion] in {Int(1), Bool(true), Float(1.0)}
    && m[Kind] == Str("dotmac.production_backup_decision")
    && m[ChangeReference].Str? && IsReference(m[ChangeReference].s)
    && m[Reason].Str? && (exists i :: 0 <= i < |m[Reason].s| && !Text.IsSpace(m[Reason].s[i]))
    && IsDigestText(m[RunningGraphDigest]) && IsDigestText(m[CandidateGraphDigest])
    && IsHeadsList(m[RunningImageHeads]) && IsHeadsList(m[CandidateImageHeads])
    && IsHeadsList(m[DatabaseHeads])
  }

  ghost predicate IsDigestText(v: Json) { v.Str? && IsSha256Digest(v.s) }

  ghost predicate IsHeadsList(v: Json) {
    v.List? && v.items != [] && forall j :: j in v.items ==> j.Str? && IsRevision(j.s)
  }

  lemma WellFormedExactly(m: map<Key, Json>)
    ensures IsWellFormed(m) && m[Mode].Str? && IsStringList(m[Issues]) <==>
            Read(Document(m), DECISION_KIND) == Ok(m) && HotfixFrom(m).Ok?
  {
    if m.Keys == DECISION_FIELDS {
      assert Field(m, SchemaVersion) == m[SchemaVersion] && Field(m, Kind) == m[Kind];
      VersionExactly(m[SchemaVersion]);
      HeadsListExactly(m[RunningImageHeads]);
      HeadsListExactly(m[CandidateImageHeads]);
      HeadsListExactly(m[DatabaseHeads]);
      if m[ChangeReference].Str? { ReferenceExactly(m[ChangeReference].s); }
    }
  }

  lemma VersionExactly(v: Json)
    ensures EqualsInt(v, SCHEMA_VERSION) <==> v in {Int(1), Bool(true), Float(1.0)}
  {
  }

  lemma HeadsListExactly(v: Json)
    ensures IsHeadsList(v) <==> IsStringList(v) && MakeHeads(Strings(v)).Ok?
    ensures IsHeadsList(v) ==> TextsIn(v) == Elements(Strings(v))
  {
    if IsStringList(v) {
      var texts := Strings(v);
      forall i | 0 <= i < |texts| ensures v.items[i] == Str(texts[i]) && texts[i] in texts {
      }
    }
  }

  // The documents that the command reads: accepted exactly for a digest and a
  // list of revision ids, whatever other fields they carry.
  lemma ImageStateExactly(m: map<Key, Json>)
    ensures ImageState(Document(m)).Ok? <==>
            && SchemaVersion in m && m[SchemaVersion] in {Int(1), Bool(true), Float(1.0)}
            && Kind in m && m[Kind] == Str("dotmac.migration_image_state")
            && GraphDigest in m && IsDigestText(m[GraphDigest])
            && Heads in m && IsHeadsList(m[Heads])
    ensures ImageState(Document(m)).Ok? ==>
              var d := ImageState(Document(m)).value;
              m[GraphDigest] == Str(d.digest) && TextsIn(m[Heads]) == Elements(d.heads)
  {
    VersionExactly(Field(m, SchemaVersion));
    HeadsListExactly(Field(m, Heads));
  }

  // ---------------------------------------------------------- safety

  // The database heads an accepted document was judged by are those it lists.
  lemma JudgedDatabaseHeads(m: map<Key, Json>)
    requires HotfixFrom(m).Ok?
    ensures IsStringList(m[DatabaseHeads])
    ensures Elements(HotfixFrom(m).value.state.databaseHeads) == Elements(Strings(m[DatabaseHeads]))
  {
    assert MakeHeads(Strings(m[DatabaseHeads])) == Ok(HotfixFrom(m).value.state.databaseHeads);
  }

  // For a tree whose heads are the candidate's, skipping leaves no work exactly
  // if every cycle hangs below a head, and then the database issue tells
  // whether the database has work left.
  lemma ModeTellsPendingWork(h: Hotfix, g: MigrationGraph.Graph)
    requires Elements(h.state.candidateImageHeads) == MigrationGraph.Heads(g)
    ensures var d := ResolveBackupPolicy(Production, Some(h));
            DecisionTellsPendingWork(d, g, Elements(h.state.databaseHeads))
  {
    var stamped := Elements(h.state.databaseHeads);
    SkipExactly(Some(h));
    MigrationGraph.NoPendingWorkAtHeadsExactly(g);
    if MigrationGraph.CyclesBelowHeads(g) && MigrationGraph.IsStamp(g, stamped) {
      MigrationGraph.NoPendingWorkIffAtHeads(g, stamped);
    }
  }

  ghost predicate DecisionTellsPendingWork(d: BackupDecision, g: MigrationGraph.Graph,
                                           stamped: set<string>)
  {
    && (d.mode == SkipProductionHotfix ==>
        (MigrationGraph.NoPendingWork(g, stamped) <==> MigrationGraph.CyclesBelowHeads(g)))
    && (MigrationGraph.CyclesBelowHeads(g) && MigrationGraph.IsStamp(g, stamped) ==>
        (DatabaseNotAtCandidateHeads in d.issues <==> !MigrationGraph.NoPendingWork(g, stamped)))
  }

  // An accepted decision to skip the backup, about the image whose tree is
  // `dir`, leaves the database it was taken for nothing to migrate exactly if
  // every cycle of that tree hangs below a head.
  lemma SkipMeansNoPendingWork(parse: Parser, hash: seq<Framing.byte> -> string,
                               dir: seq<SourceFile>, raw: Document<Key>)
    requires Describe(parse, hash, dir).Ok?
    requires ReadDecision(raw).Ok? && ReadDecision(raw).value.mode == SkipProductionHotfix
    requires Elements(HotfixFrom(raw.fields).value.state.candidateImageHeads) ==
             Elements(Describe(parse, hash, dir).value.heads)
    ensures IsStringList(raw.fields[DatabaseHeads])
    ensures var g := TreeGraph(parse, dir);
            MigrationGraph.NoPendingWork(g, Elements(Strings(raw.fields[DatabaseHeads])))
            <==> MigrationGraph.CyclesBelowHeads(g)
  {
    JudgedDatabaseHeads(raw.fields);
    DescriptionMeaning(parse, hash, dir);
    ModeTellsPendingWork(HotfixFrom(raw.fields).value, TreeGraph(parse, dir));
  }

  lemma RequestedEvidence(r: Description, c: Description, databaseHeads: seq<string>,
                          changeReference: string, reason: string)
    ensures var h := RequestedHotfix(ImageDocument(r), ImageDocument(c), databaseHeads,
                                     changeReference, reason);
            h.Ok? ==>
              var s := h.value.state;
              && s.runningGraphDigest == r.digest && s.candidateGraphDigest == c.digest
              && s.candidateImageHeads == c.heads
              && Elements(s.databaseHeads) == Elements(databaseHeads)
  {
    ImageStateRoundTrip(r);
    ImageStateRoundTrip(c);
  }

  // From the two directories to the decision: describe both images, write the
  // decision, read it back. If it says skip, no revision of the candidate is
  // pending, unless one sits on a cycle that no head is above; and unless the
  // two byte streams collide under the hash, the candidate carries the very
  // files of the running image. For a database with an ordinary stamp, the
  // database issue is raised exactly when work is left.
  lemma SkippedBackupEndToEnd(parse: Parser, hash: seq<Framing.byte> -> string,
                              running: seq<SourceFile>, candidate: seq<SourceFile>,
                              databaseHeads: seq<string>, changeReference: string, reason: string)
    requires IsDirectory(running) && IsDirectory(candidate)
    requires Describe(parse, hash, running).Ok? && Describe(parse, hash, candidate).Ok?
    ensures
      var r := ImageDocument(Describe(parse, hash, running).value);
      var c := ImageDocument(Describe(parse, hash, candidate).value);
      var g, stamped := TreeGraph(parse, candidate), Elements(databaseHeads);
      var written := WriteDecision(r, c, databaseHeads, changeReference, reason);
      written.Ok? ==>
        var read := ReadDecision(written.value);
        && read.Ok?
        && DecisionTellsPendingWork(read.value, g, stamped)
        && (read.value.mode == SkipProductionHotfix && NoCollision(hash, running, candidate) ==>
            Elements(running) == Elements(candidate))
  {
    var dr, dc := Describe(parse, hash, running).value, Describe(parse, hash, candidate).value;
    var r, c := ImageDocument(dr), ImageDocument(dc);
    WrittenDecisionIsAccepted(r, c, databaseHeads, changeReference, reason);
    RequestedEvidence(dr, dc, databaseHeads, changeReference, reason);
    var h := RequestedHotfix(r, c, databaseHeads, changeReference, reason);
    if h.Ok? {
      DescriptionMeaning(parse, hash, candidate);
      ModeTellsPendingWork(h.value, TreeGraph(parse, candidate));
      SkipExactly(Some(h.value));
      if dr.digest == dc.digest && NoCollision(hash, running, candidate) {
        SameDigestSameFiles(parse, hash, running, candidate);
      }
    }
  }

  ghost predicate NoCollision(hash: seq<Framing.byte> -> string,
                              a: seq<SourceFile>, b: seq<SourceFile>) {
    var x, y := TreeStream(a), TreeStream(b);
    hash(x) == hash(y) ==> x == y
  }

  ghost function TreeStream(dir: seq<SourceFile>): seq<Framing.byte> {
    Framing.Stream(Entries(SortOn(NameOf, dir)))
  }

  lemma SameDigestSameFiles(parse: Parser, hash: seq<Framing.byte> -> string,
                            a: seq<SourceFile>, b: seq<SourceFile>)
    requires IsDirectory(a) && IsDirectory(b) && NoCollision(hash, a, b)
    requires Describe(parse, hash, a).Ok? && Describe(parse, hash, b).Ok?
    requires Describe(parse, hash, a).value.digest == Describe(parse, hash, b).value.digest
    ensures Elements(a) == Elements(b)
    ensures TreeGraph(parse, a) == TreeGraph(parse, b)
  {
    DescriptionMeaning(parse, hash, a);
    DescriptionMeaning(parse, hash, b);
    var x, y := hash(TreeStream(a)), hash(TreeStream(b));
    assert "sha256:" + x == "sha256:" + y;
    assert ("sha256:" + x)[7..] == x && ("sha256:" + y)[7..] == y;
    SameStreamSameFiles(parse, hash, a, b);
  }
}
