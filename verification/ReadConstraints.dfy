// audit_read_constraints: which create-side lower bounds leak into response
// models, given the inheritance walk of ClassOrder.

module ReadConstraints {
  import opened Basics
  import opened ClassOrder

  datatype Effective = Effective(meta: FieldMeta, definedIn: string)

  // The first class of the order that declares the field.
  function FirstDefiner(classes: Classes, order: seq<string>, field: string): Option<string> {
    if order == [] then None
    else if order[0] in classes && field in classes[order[0]].fields then Some(order[0])
    else FirstDefiner(classes, order[1..], field)
  }

  function EffectiveField(classes: Classes, order: seq<string>, field: string): (e: Option<Effective>)
    ensures e.Some? <==> FirstDefiner(classes, order, field).Some?
  {
    match FirstDefiner(classes, order, field)
    case None => None
    case Some(d) =>
      FirstDefinerDeclares(classes, order, field);
      Some(Effective(classes[d].fields[field], d))
  }

  lemma {:induction false} FirstDefinerDeclares(classes: Classes, order: seq<string>, field: string)
    ensures var d := FirstDefiner(classes, order, field);
            d.Some? ==> d.value in order && d.value in classes && field in classes[d.value].fields
    ensures FirstDefiner(classes, order, field).None? ==>
            forall c :: c in order && c in classes ==> field !in classes[c].fields
  {
    if order != [] {
      FirstDefinerDeclares(classes, order[1..], field);
      assert forall c :: c in order <==> c == order[0] || c in order[1..];
    }
  }

  lemma {:induction false} FirstDefinerAppend(classes: Classes, order: seq<string>, cls: string,
                                              field: string)
    ensures FirstDefiner(classes, order + [cls], field) ==
            if FirstDefiner(classes, order, field).Some? then FirstDefiner(classes, order, field)
            else if cls in classes && field in classes[cls].fields then Some(cls) else None
  {
    if order != [] {
      FirstDefinerAppend(classes, order[1..], cls, field);
      assert (order + [cls])[1..] == order[1..] + [cls];
    } else {
      assert order + [cls] == [cls];
    }
  }

  // The dict holds exactly the effective fields of an order.
  ghost predicate IsEffective(classes: Classes, order: seq<string>, eff: map<string, Effective>) {
    forall n :: Lookup(eff, n) == EffectiveField(classes, order, n)
  }

  function Lookup(eff: map<string, Effective>, n: string): Option<Effective> {
    if n in eff then Some(eff[n]) else None
  }

  method EffectiveFields(classes: Classes, cls: string) returns (eff: map<string, Effective>)
    ensures IsEffective(classes, Mro(classes, cls, {}).order, eff)
  {
    var seen := new SeenSet();
    var order := ComputeMro(classes, cls, seen);
    MroAdds(classes, cls, {});
    eff := map[];
    for i := 0 to |order|
      invariant IsEffective(classes, order[..i], eff)
    {
      assert order[i] in order;
      eff := AddFields(classes, order[..i], order[i], eff);
      assert order[..i + 1] == order[..i] + [order[i]];
    }
    assert order[..|order|] == order;
  }

  // The inner loop: the fields of one ancestor that are not taken yet.
  method AddFields(classes: Classes, ghost before: seq<string>, ancestor: string,
                   eff: map<string, Effective>) returns (more: map<string, Effective>)
    requires ancestor in classes
    requires IsEffective(classes, before, eff)
    ensures IsEffective(classes, before + [ancestor], more)
  {
    more := eff;
    var fields := classes[ancestor].fields;
    var todo := fields.Keys;
    while todo != {}
      invariant todo <= fields.Keys
      invariant forall n :: Lookup(more, n) ==
                  if n in fields && n !in todo && n !in eff
                  then Some(Effective(fields[n], ancestor)) else Lookup(eff, n)
    {
      var name :| name in todo;
      if name !in more { more := more[name := Effective(fields[name], ancestor)]; }
      todo := todo - {name};
    }
    forall n ensures Lookup(more, n) == EffectiveField(classes, before + [ancestor], n) {
      FirstDefinerAppend(classes, before, ancestor, n);
      assert Lookup(eff, n) == EffectiveField(classes, before, n);
    }
  }

  // The effective field of a class is declared by a class reachable from it,
  // exists exactly when some reachable class declares the field, and is the
  // class's own whenever it declares it itself.
  lemma EffectiveFieldMeaning(classes: Classes, cls: string, field: string)
    ensures var e := EffectiveField(classes, Mro(classes, cls, {}).order, field);
            && (e.Some? <==>
                exists c :: Reachable(classes, cls, c) && c in classes && field in classes[c].fields)
            && (e.Some? ==>
                && Reachable(classes, cls, e.value.definedIn)
                && e.value.definedIn in classes
                && field in classes[e.value.definedIn].fields
                && e.value.meta == classes[e.value.definedIn].fields[field])
            && (cls in classes && field in classes[cls].fields ==>
                e == Some(Effective(classes[cls].fields[field], cls)))
  {
    MroIsReachableClasses(classes, cls);
    FirstDefinerDeclares(classes, Mro(classes, cls, {}).order, field);
  }

  // ---------------------------------------------------------- the audit

  predicate Contains(text: string, part: string) {
    part <= text || (text != "" && Contains(text[1..], part))
  }

  predicate IsReadModel(cls: string) {
    |cls| >= 4 && cls[|cls| - 4..] == "Read"
  }

  predicate HasLowerBound(meta: FieldMeta) {
    "ge" in meta.bounds || "gt" in meta.bounds
  }

  datatype Row = Row(read: string, file: string, field: string, meta: FieldMeta, from: string,
                     served: bool)

  datatype Kind = Money | OtherDecimal | Config

  function KindOf(hint: string -> bool, field: string, annotation: string): Kind {
    if !Contains(annotation, "Decimal") then Config
    else if hint(field) then Money else OtherDecimal
  }

  datatype Report = Report(money: seq<Row>, other: seq<Row>, config: seq<Row>)

  // The rows the audit is about: a read model's effective field that carries a
  // lower bound and is declared by a class above it.
  ghost predicate IsFinding(classes: Classes, served: set<string>, r: Row) {
    && r.read in classes && IsReadModel(r.read)
    && r.file == classes[r.read].file
    && r.served == (r.read in served)
    && EffectiveField(classes, Mro(classes, r.read, {}).order, r.field)
       == Some(Effective(r.meta, r.from))
    && HasLowerBound(r.meta)
    && r.from != r.read
  }

  function ListFor(report: Report, kind: Kind): seq<Row> {
    match kind
    case Money => report.money
    case OtherDecimal => report.other
    case Config => report.config
  }

  // The report files each finding about the given classes once, in the list of
  // its kind, and nothing else.
  ghost predicate Files(classes: Classes, served: set<string>, hint: string -> bool,
                        done: set<string>, report: Report) {
    forall kind ::
      && NoDuplicates(ListFor(report, kind))
      && forall r :: r in ListFor(report, kind) <==>
           r.read in done && IsFinding(classes, served, r)
           && KindOf(hint, r.field, r.meta.annotation) == kind
  }

  function AddRow(report: Report, kind: Kind, row: Row): Report {
    match kind
    case Money => report.(money := report.money + [row])
    case OtherDecimal => report.(other := report.other + [row])
    case Config => report.(config := report.config + [row])
  }

  method Audit(classes: Classes, served: set<string>, hint: string -> bool)
    returns (report: Report, exitCode: int)
    ensures Files(classes, served, hint, classes.Keys, report)
    ensures exitCode == if report.money != [] || report.other != [] then 1 else 0
  {
    report := Report([], [], []);
    var todo := classes.Keys;
    while todo != {}
      invariant todo <= classes.Keys
      invariant Files(classes, served, hint, classes.Keys - todo, report)
    {
      var cls :| cls in todo;
      report := AuditClass(classes, served, hint, classes.Keys - todo, cls, report);
      todo := todo - {cls};
      assert classes.Keys - (todo + {cls}) + {cls} == classes.Keys - todo;
    }
    exitCode := if report.money != [] || report.other != [] then 1 else 0;
  }

  // One class's rows, from the fields that were looked at.
  ghost predicate FilesFields(classes: Classes, served: set<string>, hint: string -> bool,
                              done: set<string>, cls: string, fields: set<string>, report: Report) {
    forall kind ::
      ListsFields(classes, served, hint, done, cls, fields, kind, ListFor(report, kind))
  }

  ghost predicate ListsFields(classes: Classes, served: set<string>, hint: string -> bool,
                              done: set<string>, cls: string, fields: set<string>, kind: Kind,
                              rows: seq<Row>) {
    && NoDuplicates(rows)
    && forall r :: r in rows <==>
         (r.read in done || (r.read == cls && r.field in fields))
         && IsFinding(classes, served, r)
         && KindOf(hint, r.field, r.meta.annotation) == kind
  }

  method AuditClass(classes: Classes, served: set<string>, hint: string -> bool,
                    ghost done: set<string>, cls: string, before: Report) returns (report: Report)
    requires cls in classes && cls !in done
    requires Files(classes, served, hint, done, before)
    ensures Files(classes, served, hint, done + {cls}, report)
  {
    report := before;
    if !IsReadModel(cls) { return; }
    var eff := EffectiveFields(classes, cls);
    var todo := eff.Keys;
    while todo != {}
      invariant todo <= eff.Keys
      invariant FilesFields(classes, served, hint, done, cls, eff.Keys - todo, report)
    {
      var name :| name in todo;
      var e := eff[name];
      var row := Row(cls, classes[cls].file, name, e.meta, e.definedIn, cls in served);
      assert Lookup(eff, name) == Some(e);
      ghost var was, fields := report, eff.Keys - todo;
      if HasLowerBound(e.meta) && e.definedIn != cls {
        report := AddRow(report, KindOf(hint, name, e.meta.annotation), row);
      }
      todo := todo - {name};
      FieldStep(classes, served, hint, done, cls, fields, was, row, report);
      assert fields + {name} == eff.Keys - todo;
    }
    forall r | IsFinding(classes, served, r) && r.read == cls ensures r.field in eff {
      assert Lookup(eff, r.field) == Some(Effective(r.meta, r.from));
    }
  }

  lemma FieldStep(classes: Classes, served: set<string>, hint: string -> bool, done: set<string>,
                  cls: string, fields: set<string>, before: Report, row: Row, after: Report)
    requires cls !in done && row.read == cls && row.field !in fields
    requires FilesFields(classes, served, hint, done, cls, fields, before)
    requires forall r: Row :: r.read == cls && r.field == row.field && IsFinding(classes, served, r)
               ==> r == row
    requires after == if IsFinding(classes, served, row)
                      then AddRow(before, KindOf(hint, row.field, row.meta.annotation), row)
                      else before
    ensures FilesFields(classes, served, hint, done, cls, fields + {row.field}, after)
  {
    forall kind
      ensures ListsFields(classes, served, hint, done, cls, fields + {row.field}, kind,
                          ListFor(after, kind))
    {
      assert ListsFields(classes, served, hint, done, cls, fields, kind, ListFor(before, kind));
      var adds := IsFinding(classes, served, row)
                  && KindOf(hint, row.field, row.meta.annotation) == kind;
      ListStep(classes, served, hint, done, cls, fields, kind, ListFor(before, kind), row, adds);
      assert ListFor(after, kind) == ListFor(before, kind) + if adds then [row] else [];
    }
  }

  lemma ListStep(classes: Classes, served: set<string>, hint: string -> bool, done: set<string>,
                 cls: string, fields: set<string>, kind: Kind, rows: seq<Row>, row: Row, adds: bool)
    requires cls !in done && row.read == cls && row.field !in fields
    requires ListsFields(classes, served, hint, done, cls, fields, kind, rows)
    requires forall r: Row :: r.read == cls && r.field == row.field && IsFinding(classes, served, r)
               ==> r == row
    requires adds <==> IsFinding(classes, served, row)
                       && KindOf(hint, row.field, row.meta.annotation) == kind
    ensures ListsFields(classes, served, hint, done, cls, fields + {row.field}, kind,
                        rows + if adds then [row] else [])
  {
    assert row !in rows;
    if adds { AppendedRow(rows, row); } else { assert rows + [] == rows; }
  }

  lemma AppendedRow(rows: seq<Row>, row: Row)
    requires NoDuplicates(rows) && row !in rows
    ensures NoDuplicates(rows + [row])
    ensures forall r :: r in rows + [row] <==> r in rows || r == row
  {
  }

  // A field redeclared in the read model itself is never reported, and what is
  // reported is inherited from a proper ancestor that the model can reach.
  lemma RedeclaredIsNeverReported(classes: Classes, served: set<string>, hint: string -> bool,
                                  report: Report, kind: Kind, r: Row)
    requires Files(classes, served, hint, classes.Keys, report)
    requires r in ListFor(report, kind)
    ensures r.field !in classes[r.read].fields
    ensures r.from in classes && r.from != r.read && Reachable(classes, r.read, r.from)
    ensures r.field in classes[r.from].fields && HasLowerBound(classes[r.from].fields[r.field])
  {
    EffectiveFieldMeaning(classes, r.read, r.field);
  }

  // ---------------------------------------------------------- on the classes

  // The k-th class of the walk declares the field, and none before it does.
  ghost predicate DecidesField(classes: Classes, order: seq<string>, field: string, k: nat) {
    && k < |order| && order[k] in classes && field in classes[order[k]].fields
    && forall j :: 0 <= j < k && order[j] in classes ==> field !in classes[order[j]].fields
  }

  lemma {:induction false} FirstInOrder(classes: Classes, order: seq<string>, field: string)
    returns (k: nat)
    requires EffectiveField(classes, order, field).Some?
    ensures DecidesField(classes, order, field, k)
    ensures EffectiveField(classes, order, field) ==
            Some(Effective(classes[order[k]].fields[field], order[k]))
  {
    if order[0] in classes && field in classes[order[0]].fields {
      k := 0;
    } else {
      k := FirstInOrder(classes, order[1..], field);
      k := k + 1;
    }
  }

  // The effective field is the one of the first class of the walk that
  // declares it.
  lemma EffectiveIsFirst(classes: Classes, order: seq<string>, field: string, e: Effective)
    ensures EffectiveField(classes, order, field) == Some(e) <==>
            exists k: nat :: DecidesField(classes, order, field, k)
                        && e == Effective(classes[order[k]].fields[field], order[k])
  {
    FirstDefinerDeclares(classes, order, field);
    if EffectiveField(classes, order, field).Some? {
      var k := FirstInOrder(classes, order, field);
      forall j: nat | DecidesField(classes, order, field, j) ensures j == k {
        assert j < k || k < j || j == k;
      }
      assert DecidesField(classes, order, field, k);
    } else {
      forall k: nat ensures !DecidesField(classes, order, field, k) {
        if k < |order| { assert order[k] in order; }
      }
    }
  }

  // A row the audit owes: a class whose name ends in Read inherits, from the
  // first class of its walk that declares the field, a ge or gt bound.
  ghost predicate IsOwed(classes: Classes, served: set<string>, r: Row) {
    && r.read in classes && (exists stem: string :: r.read == stem + "Read")
    && r.file == classes[r.read].file
    && (r.served <==> r.read in served)
    && ("ge" in r.meta.bounds || "gt" in r.meta.bounds)
    && r.from != r.read
    && exists k: nat :: DecidesField(classes, Mro(classes, r.read, {}).order, r.field, k)
                   && r.from == Mro(classes, r.read, {}).order[k]
                   && r.meta == classes[r.from].fields[r.field]
  }

  ghost predicate SaysDecimal(annotation: string) {
    exists a, b: string :: annotation == a + "Decimal" + b
  }

  // The three lists hold exactly what is owed: money and other fields by the
  // name's hint if the annotation says Decimal, all others as configuration.
  lemma ReportedExactly(classes: Classes, served: set<string>, hint: string -> bool, report: Report,
                        r: Row)
    requires Files(classes, served, hint, classes.Keys, report)
    ensures r in report.money <==>
            IsOwed(classes, served, r) && SaysDecimal(r.meta.annotation) && hint(r.field)
    ensures r in report.other <==>
            IsOwed(classes, served, r) && SaysDecimal(r.meta.annotation) && !hint(r.field)
    ensures r in report.config <==>
            IsOwed(classes, served, r) && !SaysDecimal(r.meta.annotation)
  {
    FindingIsOwed(classes, served, r);
    ContainsExactly(r.meta.annotation, "Decimal");
    assert r in ListFor(report, Money) <==> r in report.money;
    assert r in ListFor(report, OtherDecimal) <==> r in report.other;
    assert r in ListFor(report, Config) <==> r in report.config;
  }

  lemma FindingIsOwed(classes: Classes, served: set<string>, r: Row)
    ensures IsFinding(classes, served, r) <==> IsOwed(classes, served, r)
  {
    EffectiveIsFirst(classes, Mro(classes, r.read, {}).order, r.field, Effective(r.meta, r.from));
    if IsReadModel(r.read) {
      assert r.read == r.read[..|r.read| - 4] + "Read";
    }
  }

  lemma {:induction false} ContainsExactly(text: string, part: string)
    ensures Contains(text, part) <==> exists a, b: string :: text == a + part + b
  {
    if part <= text {
      assert text == "" + part + text[|part|..];
    } else if text != "" {
      ContainsExactly(text[1..], part);
      if a, b: string :| text[1..] == a + part + b {
        assert text == ([text[0]] + a) + part + b;
      }
      if a, b: string :| text == a + part + b {
        assert a != "" by { assert a == "" ==> text == part + b; }
        assert text[1..] == a[1..] + part + b;
      }
    } else {
      assert forall a, b: string :: |a + part + b| == |a| + |part| + |b|;
    }
  }
}
