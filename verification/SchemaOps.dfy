// What the guards guarantee over whole migration chains.

module SchemaOps {
  import opened Basics
  import opened SchemaModel

  // ---------------------------------------------------------- one operation

  predicate IsDrop(op: Op) { op.DropColumn? || op.DropTable? || op.DropIndex? }

  // When the inspector fails, creates and adds delegate to the original, but
  // drops do nothing at all, except for an index dropped without its table.
  lemma InspectorFailure(db: Database, s: Step)
    requires !s.inspectable
    ensures Guarded(db, s) ==
            if IsDrop(s.op) && !(s.op.DropIndex? && !Given(s.op.onTable)) then Some(db)
            else Original(db, Schema(s), s.op)
  {
  }

  // ---------------------------------------------------------- what a guard sees

  predicate HasColumn(db: Database, schema: string, table: string, column: string) {
    HasTable(db, schema, table) && column in db[schema][table].columns
  }

  predicate HasIndex(db: Database, schema: string, table: string, index: string) {
    HasTable(db, schema, table) && index in db[schema][table].indexes
  }

  predicate HasConstraint(db: Database, schema: string, table: string, name: string) {
    HasTable(db, schema, table) && name in db[schema][table].constraints
  }

  // The inspector lists an index: one of the table's own, or the one behind a
  // unique constraint.
  predicate IsListed(db: Database, schema: string, table: string, index: string) {
    || HasIndex(db, schema, table, index)
    || (HasConstraint(db, schema, table, index) && db[schema][table].constraints[index].Unique?)
  }

  // What the operation would create or drop is there; an unnamed constraint
  // never is, and an index dropped without its table always counts as there.
  predicate IsThere(db: Database, schema: string, op: Op) {
    match op
    case AddColumn(t, c, _) => HasColumn(db, schema, t, c)
    case DropColumn(t, c) => HasColumn(db, schema, t, c)
    case CreateTable(t, _) => HasTable(db, schema, t)
    case DropTable(t) => HasTable(db, schema, t)
    case CreateIndex(i, t, _) => IsListed(db, schema, t, i)
    case DropIndex(i, None) => true
    case DropIndex(i, Some(t)) => t == "" || IsListed(db, schema, t, i)
    case AddConstraint(None, t, _) => false
    case AddConstraint(Some(n), t, _) => n != "" && HasConstraint(db, schema, t, n)
  }

  // With a working inspector a create or an add of what is there, and a drop of
  // what is not, changes nothing and never raises; everything else is done as
  // if there were no guard.
  lemma GuardedExactly(db: Database, s: Step)
    requires s.inspectable
    ensures Guarded(db, s) ==
            if IsThere(db, Schema(s), s.op) != IsDrop(s.op) then Some(db)
            else Original(db, Schema(s), s.op)
  {
  }

  // A completed create of a table, or add of a column, leaves the given layout
  // or definition, unless the table or column was there: then nothing happened.
  lemma CreatedTable(db: Database, s: Step)
    requires s.op.CreateTable? && Guarded(db, s).Some?
    ensures var after, t := Guarded(db, s).value, s.op.table;
            && HasTable(after, Schema(s), t)
            && if HasTable(db, Schema(s), t) then after == db
               else after[Schema(s)][t] == s.op.layout
  {
  }

  lemma AddedColumn(db: Database, s: Step)
    requires s.op.AddColumn? && Guarded(db, s).Some?
    ensures var after, t, c := Guarded(db, s).value, s.op.table, s.op.column;
            && HasColumn(after, Schema(s), t, c)
            && if HasColumn(db, Schema(s), t, c) then after == db
               else HasTable(db, Schema(s), t)
                    && after[Schema(s)][t] ==
                       db[Schema(s)][t].(columns := db[Schema(s)][t].columns[c := s.op.definition])
  {
  }

  // An operation on one table leaves every other table alone; only a drop of an
  // index may reach further.
  lemma OtherTablesUntouched(db: Database, s: Step, table: string)
    requires Guarded(db, s).Some? && !s.op.DropIndex? && table != s.op.table
    ensures HasTable(Guarded(db, s).value, Schema(s), table) <==> HasTable(db, Schema(s), table)
    ensures HasTable(db, Schema(s), table) ==>
              Guarded(db, s).value[Schema(s)][table] == db[Schema(s)][table]
  {
  }

  // A completed create leaves the table with a listed index of that name. If
  // it had none, it is the table's own, on the given columns; if it had one,
  // nothing happened at all.
  lemma CreatedIndex(db: Database, s: Step)
    requires s.op.CreateIndex? && Guarded(db, s).Some?
    ensures var after, t, i := Guarded(db, s).value, s.op.table, s.op.index;
            && IsListed(after, Schema(s), t, i)
            && (if IsListed(db, Schema(s), t, i) then after == db
                else HasIndex(after, Schema(s), t, i)
                     && after[Schema(s)][t].indexes[i] == s.op.columns)
  {
    if IsListed(db, Schema(s), s.op.table, s.op.index) {
      var ns, t, i := db[Schema(s)], s.op.table, s.op.index;
      assert i in ns[t].indexes || i in UniqueNames(ns[t]);
      assert i in RelationNames(ns);
    }
  }

  // The same for a named constraint of any kind.
  lemma AddedConstraint(db: Database, s: Step)
    requires s.op.AddConstraint? && Given(s.op.name) && Guarded(db, s).Some?
    ensures var after, t, n := Guarded(db, s).value, s.op.table, s.op.name.value;
            && HasConstraint(after, Schema(s), t, n)
            && (if HasConstraint(db, Schema(s), t, n) then after == db
                else after[Schema(s)][t].constraints[n] == s.op.constraint)
  {
  }

  // A completed drop that could inspect, or that names no table, leaves the
  // named table, or every table of the schema, without that index.
  lemma DroppedIndex(db: Database, s: Step, table: string)
    requires s.op.DropIndex? && Guarded(db, s).Some?
    requires if Given(s.op.onTable) then s.inspectable && table == s.op.onTable.value else true
    ensures !HasIndex(Guarded(db, s).value, Schema(s), table, s.op.index)
  {
  }

  // An operation leaves every other schema alone.
  lemma OtherSchemasUntouched(db: Database, s: Step, other: string)
    requires Guarded(db, s).Some? && other != Schema(s)
    ensures var after := Guarded(db, s).value;
            && (other in after <==> other in db)
            && (other in db ==> after[other] == db[other])
  {
  }

  // ---------------------------------------------------------- non-interference

  // The database reduced to one of its schemas.
  function Only(db: Database, schema: string): Database {
    map s | s in db && s == schema :: db[s]
  }

  function AimedAt(steps: seq<Step>, schema: string): seq<Step> {
    if steps == [] then []
    else
      var s := steps[|steps| - 1];
      AimedAt(steps[..|steps| - 1], schema) + if Schema(s) == schema then [s] else []
  }

  // Foreign keys created by the operation stay within its schema.
  ghost predicate StaysHome(s: Step) {
    match s.op
    case CreateTable(_, layout) =>
      forall c :: c in TableConstraints(layout) && c.ForeignKey? ==> c.refSchema == Schema(s)
    case AddConstraint(_, _, c) => c.ForeignKey? ==> c.refSchema == Schema(s)
    case _ => true
  }

  // The guard's answer depends on the schema the operation names and on no
  // other: a same-named object elsewhere never causes a skip.
  lemma GuardReadsOwnSchema(db: Database, s: Step)
    ensures Skips(db, s) <==> Skips(Only(db, Schema(s)), s)
  {
  }

  // An operation does the same on its schema alone, unless it reaches for
  // another schema: that one is missing then.
  lemma StepAlone(db: Database, s: Step)
    requires Guarded(db, s).Some?
    ensures Guarded(Only(db, Schema(s)), s) ==
            if Skips(db, s) || StaysHome(s) then Some(Only(Guarded(db, s).value, Schema(s))) else None
  {
    var schema, alone := Schema(s), Only(db, Schema(s));
    GuardReadsOwnSchema(db, s);
    if !Skips(db, s) {
      if StaysHome(s) {
        PermittedAlone(db, s);
        assert Only(db[schema := Local(db[schema], s.op).value], schema)
            == alone[schema := Local(db[schema], s.op).value];
      } else {
        assert !ReferencesPermit(alone, schema, s.op);
      }
    }
  }

  lemma PermittedAlone(db: Database, s: Step)
    requires StaysHome(s) && Schema(s) in db && ReferencesPermit(db, Schema(s), s.op)
    ensures ReferencesPermit(Only(db, Schema(s)), Schema(s), s.op)
  {
    var schema, alone := Schema(s), Only(db, Schema(s));
    assert alone[schema] == db[schema];
    match s.op
    case DropTable(t) => FewerReferences(db, schema, t, None);
    case DropColumn(t, c) => FewerReferences(db, schema, t, Some(c));
    case CreateTable(_, _) =>
    case AddConstraint(_, _, _) =>
    case _ =>
  }

  lemma FewerReferences(db: Database, schema: string, table: string, column: Option<string>)
    requires schema in db
    ensures Referenced(Only(db, schema), schema, table, column) ==>
            Referenced(db, schema, table, column)
  {
    var alone := Only(db, schema);
    if Referenced(alone, schema, table, column) {
      var s, t, c :| s in alone && t in alone[s] && (s, t) != (schema, table)
        && c in TableConstraints(alone[s][t]) && RefersTo(c, schema, table, column);
      assert s in db && db[s][t] == alone[s][t];
    }
  }

  // No operation that is aimed at the schema and not skipped creates a foreign
  // key out of it.
  ghost predicate HomeWhereExecuted(db: Database, steps: seq<Step>, schema: string)
    requires Run(db, steps).Some?
  {
    steps == [] ||
    (var front, s := steps[..|steps| - 1], steps[|steps| - 1];
     && HomeWhereExecuted(db, front, schema)
     && (Schema(s) == schema && !Skips(Run(db, front).value, s) ==> StaysHome(s)))
  }

  // Whatever completes on the whole database ends, in every schema, exactly as
  // the operations aimed at that schema end when run on it alone. Run alone,
  // they raise exactly if one of them created a foreign key out of the schema.
  lemma {:induction false} NonInterference(db: Database, steps: seq<Step>, schema: string)
    requires Run(db, steps).Some?
    ensures Run(Only(db, schema), AimedAt(steps, schema)) ==
            if HomeWhereExecuted(db, steps, schema)
            then Some(Only(Run(db, steps).value, schema)) else None
  {
    if steps != [] {
      var front, s := steps[..|steps| - 1], steps[|steps| - 1];
      NonInterference(db, front, schema);
      var before := Run(db, front).value;
      if Schema(s) == schema {
        StepAlone(before, s);
        var aimed := AimedAt(steps, schema);
        assert aimed[..|aimed| - 1] == AimedAt(front, schema);
      } else {
        OtherSchemasUntouched(before, s, schema);
        assert Only(Run(db, steps).value, schema) == Only(before, schema);
        assert AimedAt(steps, schema) == AimedAt(front, schema);
      }
    }
  }

  // ---------------------------------------------------------- convergence

  // A drop that cannot inspect the database does nothing.
  predicate IsLostDrop(s: Step) {
    (s.op.DropTable? || s.op.DropColumn?) && !s.inspectable
  }

  // What the chain alone says about a table: created, dropped, or nothing.
  function TableFate(steps: seq<Step>, schema: string, table: string): Option<bool> {
    if steps == [] then None
    else
      var s := steps[|steps| - 1];
      if Schema(s) != schema || IsLostDrop(s) then TableFate(steps[..|steps| - 1], schema, table)
      else if s.op.CreateTable? && s.op.table == table then Some(true)
      else if s.op.DropTable? && s.op.table == table then Some(false)
      else TableFate(steps[..|steps| - 1], schema, table)
  }

  // Knowledge about an object of a table after a create of the table whose
  // layout does or does not hold it.
  function AfterCreate(tableFate: Option<bool>, fate: Option<bool>, inLayout: bool): Option<bool> {
    match tableFate
    case Some(true) => fate
    case Some(false) => Some(inLayout)
    case None => if fate == Some(false) && inLayout then None else fate
  }

  // What the chain alone says about a column. A create of the table decides
  // when the chain knows the table to be absent; when it knows it present the
  // create is skipped; otherwise only matching knowledge survives.
  function ColumnFate(steps: seq<Step>, schema: string, table: string, column: string)
    : Option<bool>
  {
    if steps == [] then None
    else
      var before, s := steps[..|steps| - 1], steps[|steps| - 1];
      var fate := ColumnFate(before, schema, table, column);
      if Schema(s) != schema || IsLostDrop(s) then fate
      else
        match s.op
        case AddColumn(t, c, _) => if t == table && c == column then Some(true) else fate
        case DropColumn(t, c) => if t == table && c == column then Some(false) else fate
        case DropTable(t) => if t == table then Some(false) else fate
        case CreateTable(t, layout) =>
          if t != table then fate
          else AfterCreate(TableFate(before, schema, table), fate, column in layout.columns)
        case _ => fate
  }

  // How one completed operation changes the presence of a table and a column.
  lemma StepPresence(db: Database, s: Step, schema: string, table: string, column: string)
    requires Guarded(db, s).Some?
    ensures var after, mine := Guarded(db, s).value, Schema(s) == schema && !IsLostDrop(s);
            && HasTable(after, schema, table) ==
               (if mine && s.op.CreateTable? && s.op.table == table then true
                else if mine && s.op.DropTable? && s.op.table == table then false
                else HasTable(db, schema, table))
            && HasColumn(after, schema, table, column) ==
               (if mine && s.op.AddColumn? && s.op.table == table && s.op.column == column then true
                else if mine && s.op.DropColumn? && s.op.table == table && s.op.column == column
                then false
                else if mine && s.op.DropTable? && s.op.table == table then false
                else if mine && s.op.CreateTable? && s.op.table == table
                        && !HasTable(db, schema, table)
                then column in s.op.layout.columns
                else HasColumn(db, schema, table, column))
  {
    if IsLostDrop(s) {
      InspectorFailure(db, s);
    } else if Schema(s) != schema {
      OtherSchemasUntouched(db, s, schema);
    }
  }

  // After a completed chain every table is where the chain says or, if the
  // chain says nothing, where it was; and every column on which the chain has a
  // say is where the chain says, whatever database it started from.
  lemma {:induction false} ChainDecides(db: Database, steps: seq<Step>,
                                        schema: string, table: string, column: string)
    requires Run(db, steps).Some?
    ensures var final, t, c := Run(db, steps).value, TableFate(steps, schema, table),
                               ColumnFate(steps, schema, table, column);
            && HasTable(final, schema, table) ==
               (if t.Some? then t.value else HasTable(db, schema, table))
            && (c.Some? ==> HasColumn(final, schema, table, column) == c.value)
  {
    if steps != [] {
      var before := steps[..|steps| - 1];
      ChainDecides(db, before, schema, table, column);
      StepPresence(Run(db, before).value, steps[|steps| - 1], schema, table, column);
    }
  }

  // What survives of it when the object may have been dropped, or added.
  function MaybeDropped(fate: Option<bool>): Option<bool> {
    if fate == Some(false) then fate else None
  }

  function MaybeAdded(fate: Option<bool>): Option<bool> {
    if fate == Some(true) then fate else None
  }

  // What the chain alone says about a named constraint of a table.
  function ConstraintFate(steps: seq<Step>, schema: string, table: string, name: string)
    : Option<bool>
  {
    if steps == [] then None
    else
      var before, s := steps[..|steps| - 1], steps[|steps| - 1];
      var fate := ConstraintFate(before, schema, table, name);
      if Schema(s) != schema || IsLostDrop(s) then fate
      else
        match s.op
        case AddConstraint(n, t, _) =>
          if t == table && name != "" && n == Some(name) then Some(true) else fate
        case DropColumn(t, _) => if t == table then MaybeDropped(fate) else fate
        case DropTable(t) => if t == table then Some(false) else fate
        case CreateTable(t, layout) =>
          if t != table then fate
          else AfterCreate(TableFate(before, schema, table), fate, name in layout.constraints)
        case _ => fate
  }

  // A drop of an index that cannot inspect its table does nothing.
  predicate IsLostIndexDrop(s: Step) {
    s.op.DropIndex? && Given(s.op.onTable) && !s.inspectable
  }

  // What the chain alone says about a listed index of a table. A drop of a
  // listed index only removes it for certain if it is no unique constraint's.
  function IndexFate(steps: seq<Step>, schema: string, table: string, index: string)
    : Option<bool>
  {
    if steps == [] then None
    else
      var before, s := steps[..|steps| - 1], steps[|steps| - 1];
      var fate := IndexFate(before, schema, table, index);
      if Schema(s) != schema || IsLostDrop(s) || IsLostIndexDrop(s) then fate
      else
        match s.op
        case CreateIndex(i, t, _) => if t == table && i == index then Some(true) else fate
        case DropIndex(i, t) =>
          if i != index then fate
          else if (Given(t) ==> t.value == table)
                  && ConstraintFate(before, schema, table, index) == Some(false)
          then Some(false)
          else MaybeDropped(fate)
        case AddConstraint(n, t, c) =>
          if t == table && c.Unique? && n == Some(index) then MaybeAdded(fate) else fate
        case DropColumn(t, _) => if t == table then MaybeDropped(fate) else fate
        case DropTable(t) => if t == table then Some(false) else fate
        case CreateTable(t, layout) =>
          if t != table then fate
          else AfterCreate(TableFate(before, schema, table), fate, index in OwnRelations(layout))
        case _ => fate
  }

  // How one completed operation changes the presence of a named constraint.
  lemma ConstraintPresence(db: Database, s: Step, schema: string, table: string, name: string)
    requires Guarded(db, s).Some?
    ensures var after, mine := Guarded(db, s).value, Schema(s) == schema && !IsLostDrop(s);
            var now, was := HasConstraint(after, schema, table, name),
                            HasConstraint(db, schema, table, name);
            if mine && s.op.AddConstraint? && s.op.table == table && name != ""
               && s.op.name == Some(name) then now
            else if mine && s.op.DropColumn? && s.op.table == table then now ==> was
            else if mine && s.op.DropTable? && s.op.table == table then !now
            else if mine && s.op.CreateTable? && s.op.table == table
                    && !HasTable(db, schema, table) then now == (name in s.op.layout.constraints)
            else now == was
  {
    if IsLostDrop(s) {
      InspectorFailure(db, s);
    } else if Schema(s) != schema {
      OtherSchemasUntouched(db, s, schema);
    }
  }

  // After a completed chain every named constraint on which the chain has a
  // say is where the chain says.
  lemma {:induction false} ChainDecidesConstraints(db: Database, steps: seq<Step>,
                                                   schema: string, table: string, name: string)
    requires Run(db, steps).Some?
    ensures var c := ConstraintFate(steps, schema, table, name);
            c.Some? ==> HasConstraint(Run(db, steps).value, schema, table, name) == c.value
  {
    if steps != [] {
      var before := steps[..|steps| - 1];
      ChainDecidesConstraints(db, before, schema, table, name);
      ChainDecides(db, before, schema, table, "");
      ConstraintPresence(Run(db, before).value, steps[|steps| - 1], schema, table, name);
    }
  }

  // How one completed operation changes the presence of a listed index.
  lemma IndexPresence(db: Database, s: Step, schema: string, table: string, index: string)
    requires Guarded(db, s).Some?
    ensures var after := Guarded(db, s).value;
            var mine := Schema(s) == schema && !IsLostDrop(s) && !IsLostIndexDrop(s);
            var now, was := IsListed(after, schema, table, index), IsListed(db, schema, table, index);
            if mine && s.op.CreateIndex? && s.op.table == table && s.op.index == index then now
            else if mine && s.op.DropIndex? && s.op.index == index then
              && (now ==> was)
              && ((Given(s.op.onTable) && s.op.onTable.value != table)
                  || HasConstraint(db, schema, table, index) || !now)
            else if mine && s.op.AddConstraint? && s.op.table == table && s.op.constraint.Unique?
                    && s.op.name == Some(index) then was ==> now
            else if mine && s.op.DropColumn? && s.op.table == table then now ==> was
            else if mine && s.op.DropTable? && s.op.table == table then !now
            else if mine && s.op.CreateTable? && s.op.table == table
                    && !HasTable(db, schema, table) then now == (index in OwnRelations(s.op.layout))
            else now == was
  {
    if IsLostDrop(s) || IsLostIndexDrop(s) {
      InspectorFailure(db, s);
    } else if Schema(s) != schema {
      OtherSchemasUntouched(db, s, schema);
    }
  }

  // The same for every index that the inspector lists.
  lemma {:induction false} ChainDecidesIndexes(db: Database, steps: seq<Step>,
                                               schema: string, table: string, index: string)
    requires Run(db, steps).Some?
    ensures var i := IndexFate(steps, schema, table, index);
            i.Some? ==> IsListed(Run(db, steps).value, schema, table, index) == i.value
  {
    if steps != [] {
      var before := steps[..|steps| - 1];
      ChainDecidesIndexes(db, before, schema, table, index);
      ChainDecidesConstraints(db, before, schema, table, index);
      ChainDecides(db, before, schema, table, "");
      IndexPresence(Run(db, before).value, steps[|steps| - 1], schema, table, index);
    }
  }

  // Two databases in which the same chain completes end up agreeing on a table
  // exactly if the chain has a say on it or they agreed before, and on every
  // column on which the chain has a say.
  lemma Convergence(a: Database, b: Database, steps: seq<Step>,
                    schema: string, table: string, column: string)
    requires Run(a, steps).Some? && Run(b, steps).Some?
    ensures var x, y := Run(a, steps).value, Run(b, steps).value;
            && (HasTable(x, schema, table) == HasTable(y, schema, table) <==>
                || TableFate(steps, schema, table).Some?
                || HasTable(a, schema, table) == HasTable(b, schema, table))
            && (ColumnFate(steps, schema, table, column).Some? ==>
                HasColumn(x, schema, table, column) == HasColumn(y, schema, table, column))
  {
    ChainDecides(a, steps, schema, table, column);
    ChainDecides(b, steps, schema, table, column);
  }

  // Databases that agreed on a table and one of its columns go on agreeing.
  lemma {:induction false} AgreementPersists(a: Database, b: Database, steps: seq<Step>,
                                             schema: string, table: string, column: string)
    requires Run(a, steps).Some? && Run(b, steps).Some?
    requires HasTable(a, schema, table) == HasTable(b, schema, table)
    requires HasColumn(a, schema, table, column) == HasColumn(b, schema, table, column)
    ensures var x, y := Run(a, steps).value, Run(b, steps).value;
            && HasTable(x, schema, table) == HasTable(y, schema, table)
            && HasColumn(x, schema, table, column) == HasColumn(y, schema, table, column)
  {
    if steps != [] {
      var before, s := steps[..|steps| - 1], steps[|steps| - 1];
      AgreementPersists(a, b, before, schema, table, column);
      StepPresence(Run(a, before).value, s, schema, table, column);
      StepPresence(Run(b, before).value, s, schema, table, column);
    }
  }

  // A drop says nothing if it cannot inspect: it is skipped, and the chain
  // completes leaving the table in place.
  lemma UninspectableDropDiverges(db: Database, schema: string, table: string)
    requires HasTable(db, schema, table)
    ensures var steps := [Step(Some(schema), DropTable(table), false)];
            && Run(db, steps) == Some(db)
            && TableFate(steps, schema, table) == None
            && TableFate([Inspectable(steps[0])], schema, table) == Some(false)
  {
    var s := Step(Some(schema), DropTable(table), false);
    assert [s][..0] == [] && [Inspectable(s)][..0] == [];
    InspectorFailure(db, s);
  }

  // ---------------------------------------------------------- replay

  predicate IsNamedAddition(op: Op) {
    match op
    case AddColumn(_, _, _) => true
    case CreateTable(_, _) => true
    case CreateIndex(_, _, _) => true
    case AddConstraint(name, _, _) => Given(name)
    case _ => false
  }

  function Inspectable(s: Step): Step { s.(inspectable := true) }

  // What an addition created, its guard finds.
  lemma AdditionIsSeen(db: Database, s: Step)
    requires IsNamedAddition(s.op) && Guarded(db, s).Some?
    ensures Skips(Guarded(db, s).value, Inspectable(s))
  {
  }

  // Additions never hide what a guard has seen.
  lemma AdditionKeepsSeen(db: Database, s: Step, seen: Step)
    requires IsNamedAddition(s.op) && Guarded(db, s).Some?
    requires IsNamedAddition(seen.op) && Skips(db, Inspectable(seen))
    ensures Skips(Guarded(db, s).value, Inspectable(seen))
  {
    if Schema(s) != Schema(seen) {
      OtherSchemasUntouched(db, s, Schema(seen));
    } else if !Skips(db, s) {
      AdditionKeepsTables(db[Schema(s)], s.op, seen.op.table);
    }
  }

  // A table only gains from additions.
  lemma AdditionKeepsTables(ns: Namespace, op: Op, table: string)
    requires IsNamedAddition(op) && Local(ns, op).Some? && table in ns
    ensures var after := Local(ns, op).value;
            && table in after
            && ns[table].columns.Keys <= after[table].columns.Keys
            && OwnRelations(ns[table]) <= OwnRelations(after[table])
            && ns[table].constraints.Keys <= after[table].constraints.Keys
  {
  }

  lemma {:induction false} AllAdditionsSeen(db: Database, steps: seq<Step>, i: nat)
    requires Run(db, steps).Some? && i < |steps|
    requires forall j :: 0 <= j < |steps| ==> IsNamedAddition(steps[j].op)
    ensures Skips(Run(db, steps).value, Inspectable(steps[i]))
  {
    var front, s := steps[..|steps| - 1], steps[|steps| - 1];
    var before := Run(db, front).value;
    if i == |steps| - 1 {
      AdditionIsSeen(before, s);
    } else {
      AllAdditionsSeen(db, front, i);
      assert front[i] == steps[i];
      AdditionKeepsSeen(before, s, steps[i]);
    }
  }

  lemma {:induction false} SkippedRun(db: Database, steps: seq<Step>)
    requires forall i :: 0 <= i < |steps| ==> Skips(db, steps[i])
    ensures Run(db, steps) == Some(db)
  {
    if steps != [] {
      SkippedRun(db, steps[..|steps| - 1]);
    }
  }

  // Replaying a purely additive chain of named objects on its own result never
  // raises and changes nothing.
  lemma AdditiveReplay(db: Database, steps: seq<Step>, replay: seq<Step>)
    requires Run(db, steps).Some?
    requires forall i :: 0 <= i < |steps| ==> IsNamedAddition(steps[i].op)
    requires |replay| == |steps|
    requires forall i :: 0 <= i < |steps| ==> replay[i] == Inspectable(steps[i])
    ensures Run(Run(db, steps).value, replay) == Run(db, steps)
  {
    var final := Run(db, steps).value;
    forall i | 0 <= i < |replay| ensures Skips(final, replay[i]) {
      AllAdditionsSeen(db, steps, i);
    }
    SkippedRun(final, replay);
  }

  predicate DropFree(steps: seq<Step>) {
    forall i :: 0 <= i < |steps| ==> !IsDrop(steps[i].op)
  }

  // The unnamed constraints of a table.
  function UnnamedCount(db: Database, schema: string, table: string): nat {
    if HasTable(db, schema, table) then |db[schema][table].unnamed| else 0
  }

  lemma StepKeepsUnnamed(db: Database, s: Step, schema: string, table: string)
    requires Guarded(db, s).Some? && !IsDrop(s.op)
    ensures UnnamedCount(Guarded(db, s).value, schema, table) >=
            UnnamedCount(db, schema, table)
            + if !IsNamedAddition(s.op) && Schema(s) == schema && s.op.table == table then 1 else 0
  {
    if Schema(s) != schema {
      OtherSchemasUntouched(db, s, schema);
    }
  }

  // Without drops the unnamed constraints of a table only grow, and they do at
  // every unnamed addition.
  lemma {:induction false} UnnamedGrows(db: Database, steps: seq<Step>, schema: string,
                                        table: string)
    requires Run(db, steps).Some? && DropFree(steps)
    ensures var before, after := UnnamedCount(db, schema, table),
                                 UnnamedCount(Run(db, steps).value, schema, table);
            && before <= after
            && ((exists i :: 0 <= i < |steps| && !IsNamedAddition(steps[i].op)
                   && Schema(steps[i]) == schema && steps[i].op.table == table) ==>
                before < after)
  {
    if steps != [] {
      var front, s := steps[..|steps| - 1], steps[|steps| - 1];
      UnnamedGrows(db, front, schema, table);
      StepKeepsUnnamed(Run(db, front).value, s, schema, table);
      assert forall i :: 0 <= i < |front| ==> steps[i] == front[i];
    }
  }

  // The names are what makes it so: a completed chain without drops can be
  // replayed on its own result without any effect exactly if every addition is
  // named. An unnamed constraint is never guarded, so every replay that
  // completes adds another one.
  lemma ReplayableIffNamed(db: Database, steps: seq<Step>, replay: seq<Step>)
    requires Run(db, steps).Some? && DropFree(steps)
    requires |replay| == |steps|
    requires forall i :: 0 <= i < |steps| ==> replay[i] == Inspectable(steps[i])
    ensures Run(Run(db, steps).value, replay) == Run(db, steps) <==>
            forall i :: 0 <= i < |steps| ==> IsNamedAddition(steps[i].op)
  {
    if forall i :: 0 <= i < |steps| ==> IsNamedAddition(steps[i].op) {
      AdditiveReplay(db, steps, replay);
    } else {
      var i :| 0 <= i < |steps| && !IsNamedAddition(steps[i].op);
      var final := Run(db, steps).value;
      if Run(final, replay).Some? {
        assert replay[i].op == steps[i].op;
        UnnamedGrows(final, replay, Schema(replay[i]), replay[i].op.table);
      }
    }
  }
}
