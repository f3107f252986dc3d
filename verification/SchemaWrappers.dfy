// The nine functions that install_idempotent_schema_ops puts in place of
// alembic.op's, acting on a live database.

module SchemaWrappers {
  import opened Basics
  import opened SchemaModel

  class Operations {
    var db: Database
    // Whether sa.inspect answers.
    var inspectable: bool

    constructor (db: Database, inspectable: bool)
      ensures this.db == db && this.inspectable == inspectable
    {
      this.db, this.inspectable := db, inspectable;
    }

    // The state after one call: the guarded result, or an exception with the
    // database as it was.
    twostate predicate Performed(schema: Option<string>, op: Op, raised: bool)
      reads this
    {
      var result := Guarded(old(db), Step(schema, op, old(inspectable)));
      raised == result.None? && db == if raised then old(db) else result.value
    }

    method OriginalOp(schema: Option<string>, op: Op) returns (raised: bool)
      modifies `db
      ensures var result := Original(old(db), Resolve(schema), op);
              raised == result.None? && db == if raised then old(db) else result.value
    {
      var result := Original(db, Resolve(schema), op);
      raised := result.None?;
      if !raised { db := result.value; }
    }

    method Columns(schema: Option<string>, table: string) returns (names: set<string>)
      ensures names == ColumnsOf(db, Resolve(schema), table, inspectable)
    {
      names := {};
      var s := Resolve(schema);
      if inspectable && s in db && table in db[s] { names := db[s][table].columns.Keys; }
    }

    method SafeAddColumn(table: string, column: string, definition: string, schema: Option<string>)
      returns (raised: bool)
      modifies `db
      ensures Performed(schema, AddColumn(table, column, definition), raised)
    {
      var names := Columns(schema, table);
      if column in names { return false; }
      raised := OriginalOp(schema, AddColumn(table, column, definition));
    }

    method SafeDropColumn(table: string, column: string, schema: Option<string>)
      returns (raised: bool)
      modifies `db
      ensures Performed(schema, DropColumn(table, column), raised)
    {
      var names := Columns(schema, table);
      if column !in names { return false; }
      raised := OriginalOp(schema, DropColumn(table, column));
    }

    method Exists(schema: Option<string>, table: string) returns (found: bool)
      ensures found == TableExists(db, Resolve(schema), table, inspectable)
    {
      var s := Resolve(schema);
      found := inspectable && s in db && table in db[s];
    }

    method SafeCreateTable(table: string, layout: Table, schema: Option<string>)
      returns (raised: bool)
      modifies `db
      ensures Performed(schema, CreateTable(table, layout), raised)
    {
      var found := Exists(schema, table);
      if found { return false; }
      raised := OriginalOp(schema, CreateTable(table, layout));
    }

    method SafeDropTable(table: string, schema: Option<string>) returns (raised: bool)
      modifies `db
      ensures Performed(schema, DropTable(table), raised)
    {
      var found := Exists(schema, table);
      if !found { return false; }
      raised := OriginalOp(schema, DropTable(table));
    }

    // The names the inspector lists for a table's indexes and constraints.
    method IndexNames(schema: Option<string>, table: string) returns (names: set<string>)
      ensures forall i :: i in names <==>
                IndexExists(db, Resolve(schema), table, i, inspectable)
    {
      names := {};
      var s := Resolve(schema);
      if inspectable && s in db && table in db[s] { names := OwnRelations(db[s][table]); }
    }

    method ConstraintNames(schema: Option<string>, table: string) returns (names: set<string>)
      ensures forall n :: n in names <==>
                ConstraintExists(db, Resolve(schema), table, n, inspectable)
    {
      names := {};
      var s := Resolve(schema);
      if inspectable && s in db && table in db[s] {
        var t := db[s][table];
        var unique := set n | n in t.constraints && t.constraints[n].Unique?;
        var checks := set n | n in t.constraints && t.constraints[n].Check?;
        var keys := set n | n in t.constraints && t.constraints[n].ForeignKey?;
        names := unique + checks + keys;
      }
    }

    method SafeCreateIndex(index: string, table: string, columns: set<string>, schema: Option<string>)
      returns (raised: bool)
      modifies `db
      ensures Performed(schema, CreateIndex(index, table, columns), raised)
    {
      var names := IndexNames(schema, table);
      if index in names { return false; }
      raised := OriginalOp(schema, CreateIndex(index, table, columns));
    }

    method SafeDropIndex(index: string, table: Option<string>, schema: Option<string>)
      returns (raised: bool)
      modifies `db
      ensures Performed(schema, DropIndex(index, table), raised)
    {
      if Given(table) {
        var names := IndexNames(schema, table.value);
        if index !in names { return false; }
      }
      raised := OriginalOp(schema, DropIndex(index, table));
    }

    method SafeCreateUniqueConstraint(name: Option<string>, table: string, columns: set<string>,
                                      schema: Option<string>) returns (raised: bool)
      modifies `db
      ensures Performed(schema, AddConstraint(name, table, Unique(columns)), raised)
    {
      raised := SafeAddConstraint(name, table, Unique(columns), schema);
    }

    method SafeCreateCheckConstraint(name: Option<string>, table: string, columns: set<string>,
                                     schema: Option<string>) returns (raised: bool)
      modifies `db
      ensures Performed(schema, AddConstraint(name, table, Check(columns)), raised)
    {
      raised := SafeAddConstraint(name, table, Check(columns), schema);
    }

    // The source schema decides where to look, never the referent's.
    method SafeCreateForeignKey(name: Option<string>, source: string, columns: set<string>,
                                referent: string, refColumns: set<string>,
                                sourceSchema: Option<string>, referentSchema: string)
      returns (raised: bool)
      modifies `db
      ensures Performed(sourceSchema,
                        AddConstraint(name, source, ForeignKey(columns, referentSchema, referent, refColumns)),
                        raised)
    {
      raised := SafeAddConstraint(
        name, source, ForeignKey(columns, referentSchema, referent, refColumns), sourceSchema);
    }

    // The shared body of the three constraint wrappers: an unnamed constraint
    // is in no list, so it always goes to the original.
    method SafeAddConstraint(name: Option<string>, table: string, constraint: Constraint,
                             schema: Option<string>) returns (raised: bool)
      modifies `db
      ensures Performed(schema, AddConstraint(name, table, constraint), raised)
    {
      if Given(name) {
        var names := ConstraintNames(schema, table);
        if name.value in names { return false; }
      }
      raised := OriginalOp(schema, AddConstraint(name, table, constraint));
    }

    // One call of the wrapper installed for the operation.
    method Call(s: Step) returns (raised: bool)
      requires s.inspectable == inspectable
      modifies `db
      ensures Performed(s.schema, s.op, raised)
    {
      match s.op
      case AddColumn(t, c, d) => raised := SafeAddColumn(t, c, d, s.schema);
      case DropColumn(t, c) => raised := SafeDropColumn(t, c, s.schema);
      case CreateTable(t, layout) => raised := SafeCreateTable(t, layout, s.schema);
      case DropTable(t) => raised := SafeDropTable(t, s.schema);
      case CreateIndex(i, t, cs) => raised := SafeCreateIndex(i, t, cs, s.schema);
      case DropIndex(i, t) => raised := SafeDropIndex(i, t, s.schema);
      case AddConstraint(n, t, Unique(cs)) => raised := SafeCreateUniqueConstraint(n, t, cs, s.schema);
      case AddConstraint(n, t, Check(cs)) => raised := SafeCreateCheckConstraint(n, t, cs, s.schema);
      case AddConstraint(n, t, ForeignKey(cs, rs, rt, rcs)) =>
        raised := SafeCreateForeignKey(n, t, cs, rt, rcs, s.schema, rs);
    }

    // A migration chain: the calls in order, up to the first that raises. That
    // call leaves behind what the calls before it made of the database.
    method Migrate(steps: seq<Step>) returns (completed: bool)
      modifies this
      ensures completed <==> Run(old(db), steps).Some?
      ensures completed ==> db == Run(old(db), steps).value
      ensures !completed ==> exists n :: StopsAt(old(db), steps, n, db)
    {
      for i := 0 to |steps|
        invariant Run(old(db), steps[..i]) == Some(db)
      {
        inspectable := steps[i].inspectable;
        assert steps[..i + 1][..i] == steps[..i];
        var raised := Call(steps[i]);
        if raised {
          assert StopsAt(old(db), steps, i, db);
          RaisedPrefix(old(db), steps, i + 1);
          return false;
        }
      }
      assert steps[..|steps|] == steps;
      return true;
    }
  }

  // The first n calls complete in `stopped` and the next one raises.
  ghost predicate StopsAt(db: Database, steps: seq<Step>, n: nat, stopped: Database) {
    && n < |steps|
    && Run(db, steps[..n]) == Some(stopped)
    && Run(db, steps[..n + 1]).None?
  }

  lemma {:induction false} RaisedPrefix(db: Database, steps: seq<Step>, n: nat)
    requires n <= |steps| && Run(db, steps[..n]).None?
    ensures Run(db, steps).None?
  {
    if n < |steps| {
      var front := steps[..|steps| - 1];
      assert front[..n] == steps[..n];
      RaisedPrefix(db, front, n);
    } else {
      assert steps[..n] == steps;
    }
  }
}
