// A database as schemas of tables, the DDL that Alembic issues against it, and
// the guarded forms of that DDL installed by install_idempotent_schema_ops.

module SchemaModel {
  import opened Basics

  datatype Constraint =
    | Unique(columns: set<string>)
    | Check(columns: set<string>)
    | ForeignKey(columns: set<string>, refSchema: string, refTable: string, refColumns: set<string>)

  // Constraints created without a name are kept apart: no guard can see them.
  datatype Table = Table(
    columns: map<string, string>,
    indexes: map<string, set<string>>,
    constraints: map<string, Constraint>,
    unnamed: seq<Constraint>)

  type Namespace = map<string, Table>

  type Database = map<string, Namespace>

  datatype Op =
    | AddColumn(table: string, column: string, definition: string)
    | DropColumn(table: string, column: string)
    | CreateTable(table: string, layout: Table)
    | DropTable(table: string)
    | CreateIndex(index: string, table: string, columns: set<string>)
    | DropIndex(index: string, onTable: Option<string>)
    | AddConstraint(name: Option<string>, table: string, constraint: Constraint)

  // One call of a patched operation: the schema it names, and whether the
  // inspector answers while the guard asks.
  datatype Step = Step(schema: Option<string>, op: Op, inspectable: bool)

  // schema=None is the default search-path schema.
  const DEFAULT_SCHEMA := "public"

  function Resolve(schema: Option<string>): string {
    if schema.Some? then schema.value else DEFAULT_SCHEMA
  }

  function Schema(s: Step): string { Resolve(s.schema) }

  // Python truth of an optional name.
  predicate Given(name: Option<string>) { name.Some? && name.value != "" }

  // ---------------------------------------------------------- original DDL

  function UniqueNames(t: Table): set<string> {
    set n | n in t.constraints && t.constraints[n].Unique?
  }

  // Tables, indexes and unique constraints share one namespace per schema.
  function RelationNames(ns: Namespace): set<string> {
    ns.Keys
    + (set t, n | t in ns && n in ns[t].indexes :: n)
    + (set t, n | t in ns && n in UniqueNames(ns[t]) :: n)
  }

  function OwnRelations(t: Table): set<string> { t.indexes.Keys + UniqueNames(t) }

  function WithoutColumn(t: Table, column: string): Table {
    Table(t.columns - {column},
          map i | i in t.indexes && column !in t.indexes[i] :: t.indexes[i],
          map n | n in t.constraints && column !in t.constraints[n].columns :: t.constraints[n],
          Unaffected(t.unnamed, column))
  }

  function Unaffected(cs: seq<Constraint>, column: string): seq<Constraint> {
    if cs == [] then []
    else (if column in cs[0].columns then [] else [cs[0]]) + Unaffected(cs[1..], column)
  }

  function WithConstraint(t: Table, name: Option<string>, c: Constraint): Table {
    if Given(name) then t.(constraints := t.constraints[name.value := c])
    else t.(unnamed := t.unnamed + [c])
  }

  // What an operation does inside its own schema; None when it raises.
  function Local(ns: Namespace, op: Op): Option<Namespace> {
    match op
    case AddColumn(t, c, d) =>
      if t in ns && c !in ns[t].columns
      then Some(ns[t := ns[t].(columns := ns[t].columns[c := d])]) else None
    case DropColumn(t, c) =>
      if t in ns && c in ns[t].columns then Some(ns[t := WithoutColumn(ns[t], c)]) else None
    case CreateTable(t, layout) =>
      if t !in RelationNames(ns) && OwnRelations(layout) !! RelationNames(ns) + {t}
      then Some(ns[t := layout]) else None
    case DropTable(t) =>
      if t in ns then Some(ns - {t}) else None
    case CreateIndex(i, t, columns) =>
      if t in ns && columns <= ns[t].columns.Keys && i !in RelationNames(ns)
      then Some(ns[t := ns[t].(indexes := ns[t].indexes[i := columns])]) else None
    case DropIndex(i, _) =>
      if exists t :: t in ns && i in ns[t].indexes
      then Some(map t | t in ns :: ns[t].(indexes := ns[t].indexes - {i})) else None
    case AddConstraint(name, t, c) =>
      if && t in ns && c.columns <= ns[t].columns.Keys
         && (Given(name) ==>
             && name.value !in ns[t].constraints
             && (c.Unique? ==> name.value !in RelationNames(ns)))
      then Some(ns[t := WithConstraint(ns[t], name, c)]) else None
  }

  function TableConstraints(t: Table): set<Constraint> {
    (set n | n in t.constraints :: t.constraints[n]) + (set c | c in t.unnamed)
  }

  // A foreign key of another table refers to (schema, table) and, if columns
  // is given, to one of its columns.
  predicate Referenced(db: Database, schema: string, table: string, column: Option<string>) {
    exists s, t, c :: s in db && t in db[s] && (s, t) != (schema, table)
      && c in TableConstraints(db[s][t]) && RefersTo(c, schema, table, column)
  }

  predicate RefersTo(c: Constraint, schema: string, table: string, column: Option<string>) {
    && c.ForeignKey? && c.refSchema == schema && c.refTable == table
    && (column.Some? ==> column.value in c.refColumns)
  }

  predicate HasTable(db: Database, schema: string, table: string) {
    schema in db && table in db[schema]
  }

  predicate ReferentExists(db: Database, c: Constraint) {
    c.ForeignKey? ==>
      && HasTable(db, c.refSchema, c.refTable)
      && c.refColumns <= db[c.refSchema][c.refTable].columns.Keys
  }

  // Where foreign keys make an operation look beyond its own table.
  predicate ReferencesPermit(db: Database, schema: string, op: Op) {
    match op
    case DropTable(t) => !Referenced(db, schema, t, None)
    case DropColumn(t, c) => !Referenced(db, schema, t, Some(c))
    case CreateTable(t, layout) =>
      forall c :: c in TableConstraints(layout) ==>
        ReferentExists(db, c) || RefersTo(c, schema, t, None)
    case AddConstraint(_, _, c) => ReferentExists(db, c)
    case _ => true
  }

  // The unguarded alembic.op function.
  function Original(db: Database, schema: string, op: Op): Option<Database> {
    if schema !in db || !ReferencesPermit(db, schema, op) then None
    else
      match Local(db[schema], op)
      case None => None
      case Some(ns) => Some(db[schema := ns])
  }

  // ---------------------------------------------------------- predicates

  // Each predicate asks the inspector about one schema, and answers "absent"
  // when the inspector fails or there is no such table.
  function ColumnsOf(db: Database, schema: string, table: string, inspectable: bool): set<string> {
    if inspectable && HasTable(db, schema, table) then db[schema][table].columns.Keys else {}
  }

  predicate TableExists(db: Database, schema: string, table: string, inspectable: bool) {
    inspectable && HasTable(db, schema, table)
  }

  // The inspector also lists the index behind every unique constraint.
  predicate IndexExists(db: Database, schema: string, table: string, index: string,
                        inspectable: bool) {
    inspectable && HasTable(db, schema, table) && index in OwnRelations(db[schema][table])
  }

  predicate ConstraintExists(db: Database, schema: string, table: string, name: string,
                             inspectable: bool) {
    inspectable && HasTable(db, schema, table) && name in db[schema][table].constraints
  }

  // ---------------------------------------------------------- guarded DDL

  // The wrapper returns None without calling the original.
  predicate Skips(db: Database, s: Step) {
    var schema := Schema(s);
    match s.op
    case AddColumn(t, c, _) => c in ColumnsOf(db, schema, t, s.inspectable)
    case DropColumn(t, c) => c !in ColumnsOf(db, schema, t, s.inspectable)
    case CreateTable(t, _) => TableExists(db, schema, t, s.inspectable)
    case DropTable(t) => !TableExists(db, schema, t, s.inspectable)
    case CreateIndex(i, t, _) => IndexExists(db, schema, t, i, s.inspectable)
    case DropIndex(i, t) => Given(t) && !IndexExists(db, schema, t.value, i, s.inspectable)
    case AddConstraint(name, t, _) =>
      Given(name) && ConstraintExists(db, schema, t, name.value, s.inspectable)
  }

  function Guarded(db: Database, s: Step): Option<Database> {
    if Skips(db, s) then Some(db) else Original(db, Schema(s), s.op)
  }

  // A migration chain: None when one of its operations raises.
  function Run(db: Database, steps: seq<Step>): Option<Database> {
    if steps == [] then Some(db)
    else
      match Run(db, steps[..|steps| - 1])
      case None => None
      case Some(before) => Guarded(before, steps[|steps| - 1])
  }
}
