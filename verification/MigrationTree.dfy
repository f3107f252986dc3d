// describe_migration_tree: fingerprint every migration file and derive the
// heads of the revision graph that the files declare.

module MigrationTree {
  import opened Basics
  import opened LexOrder
  import opened Framing
  import Utf8
  import MigrationGraph
  import opened ReleaseContract

  // ---------------------------------------------------------- parsed files

  // What ast.literal_eval yields, as far as the declarations care.
  datatype Literal =
    | NoneValue
    | Text(text: string)
    | Items(items: seq<Literal>)  // a tuple or a list
    | OtherValue

  // The right-hand side of an assignment; an annotation may have none.
  datatype Value = Missing | NotLiteral | Literally(value: Literal)

  // Only plain names among the targets matter.
  datatype Statement = Assignment(targets: seq<string>, value: Value) | OtherStatement

  datatype Module = SyntaxError | Module(body: seq<Statement>)

  datatype SourceFile = SourceFile(name: string, content: seq<byte>)

  datatype TreeError =
    | NoMigrationFiles
    | LengthOverflow
    | UnparsableFile
    | NoDeclaration
    | NonLiteralDeclaration
    | InvalidRevision
    | DuplicateRevision
    | InvalidDownRevision
    | NoHeads
    | BadEvidence(code: ContractError)

  // The parser is any function of a file's bytes.
  type Parser = seq<byte> -> Module

  function LiteralAssignment(body: seq<Statement>, name: string): Result<Literal, TreeError> {
    if body == [] then Err(NoDeclaration)
    else if body[0].Assignment? && name in body[0].targets then
      match body[0].value
      case Missing => Err(NoDeclaration)
      case NotLiteral => Err(NonLiteralDeclaration)
      case Literally(v) => Ok(v)
    else LiteralAssignment(body[1..], name)
  }

  // The first statement that assigns the name decides; without one there is no
  // declaration.
  lemma {:induction false} FirstAssignmentDecides(body: seq<Statement>, name: string, i: nat)
    requires i <= |body|
    requires forall j :: 0 <= j < i ==> !Assigns(body[j], name)
    requires i < |body| ==> Assigns(body[i], name)
    ensures LiteralAssignment(body, name) ==
            if i == |body| || body[i].value.Missing? then Err(NoDeclaration)
            else if body[i].value.NotLiteral? then Err(NonLiteralDeclaration)
            else Ok(body[i].value.value)
  {
    if i > 0 {
      assert !Assigns(body[0], name);
      FirstAssignmentDecides(body[1..], name, i - 1);
    }
  }

  predicate Assigns(s: Statement, name: string) {
    s.Assignment? && name in s.targets
  }

  function ReadRevision(parse: Parser, f: SourceFile): Result<string, TreeError> {
    var m := parse(f.content);
    if m.SyntaxError? then Err(UnparsableFile)
    else
      var v :- LiteralAssignment(m.body, "revision");
      if v.Text? && v.text != "" then Ok(v.text) else Err(InvalidRevision)
  }

  function ReadParents(parse: Parser, f: SourceFile): Result<set<string>, TreeError> {
    var m := parse(f.content);
    if m.SyntaxError? then Err(UnparsableFile)
    else
      var v :- LiteralAssignment(m.body, "down_revision");
      var values := if v.Text? then Items([v]) else v;
      if v.NoneValue? then Ok({})
      else if values.Items? && forall x :: x in values.items ==> x.Text? && x.text != "" then
        Ok(set x | x in values.items && x.Text? :: x.text)
      else Err(InvalidDownRevision)
  }

  // ---------------------------------------------------------- declarations

  // Statement i is the first that assigns the name, and its value is a literal.
  ghost predicate Declaration(m: Module, name: string, i: nat, v: Literal) {
    && m.Module? && i < |m.body| && Assigns(m.body[i], name)
    && (forall j :: 0 <= j < i ==> !Assigns(m.body[j], name))
    && m.body[i].value == Literally(v)
  }

  ghost predicate NamesRevision(m: Module, r: string) {
    exists i :: Declaration(m, "revision", i, Text(r))
  }

  // A parent is named by a text, or as an item of a tuple or a list.
  ghost predicate NamesParent(m: Module, p: string) {
    exists i, v :: Declaration(m, "down_revision", i, v) && (v == Text(p) || (v.Items? && Text(p) in v.items))
  }

  // None, one non-empty text, or a tuple or a list of non-empty texts.
  ghost predicate IsParentLiteral(v: Literal) {
    || v.NoneValue?
    || (v.Text? && v.text != "")
    || (v.Items? && forall x :: x in v.items ==> x.Text? && x.text != "")
  }

  lemma DeclarationUnique(m: Module, name: string, i: nat, v: Literal)
    requires Declaration(m, name, i, v)
    ensures LiteralAssignment(m.body, name) == Ok(v)
    ensures forall j, w :: Declaration(m, name, j, w) ==> j == i && w == v
  {
    FirstAssignmentDecides(m.body, name, i);
  }

  lemma {:induction false} DeclarationExists(body: seq<Statement>, name: string) returns (i: nat)
    requires LiteralAssignment(body, name).Ok?
    ensures Declaration(Module(body), name, i, LiteralAssignment(body, name).value)
  {
    if Assigns(body[0], name) {
      i := 0;
    } else {
      i := DeclarationExists(body[1..], name);
      i := i + 1;
    }
  }

  // A file's revision is the one its text names.
  lemma RevisionExactly(parse: Parser, f: SourceFile, r: string)
    ensures ReadRevision(parse, f) == Ok(r) <==> r != "" && NamesRevision(parse(f.content), r)
  {
    var m := parse(f.content);
    if i :| Declaration(m, "revision", i, Text(r)) { DeclarationUnique(m, "revision", i, Text(r)); }
    if m.Module? && LiteralAssignment(m.body, "revision").Ok? {
      var i := DeclarationExists(m.body, "revision");
    }
  }

  // A file's parents are those its text names, all of them; any other value
  // than None, a text, or a tuple or list of texts is refused, and so is an
  // empty text.
  lemma ParentsExactly(parse: Parser, f: SourceFile)
    ensures var m, ps := parse(f.content), ReadParents(parse, f);
            && (ps.Ok? <==>
                exists i, v :: Declaration(m, "down_revision", i, v) && IsParentLiteral(v))
            && (ps.Ok? ==> forall p :: p in ps.value <==> NamesParent(m, p))
  {
    var m := parse(f.content);
    if i, v :| Declaration(m, "down_revision", i, v) {
      DeclarationUnique(m, "down_revision", i, v);
      if IsParentLiteral(v) { LiteralParents(parse, f, v); }
    }
    if m.Module? && LiteralAssignment(m.body, "down_revision").Ok? {
      var i := DeclarationExists(m.body, "down_revision");
    }
  }

  lemma LiteralParents(parse: Parser, f: SourceFile, v: Literal)
    requires parse(f.content).Module?
    requires LiteralAssignment(parse(f.content).body, "down_revision") == Ok(v) && IsParentLiteral(v)
    ensures ReadParents(parse, f).Ok?
    ensures forall p :: p in ReadParents(parse, f).value <==>
              v == Text(p) || (v.Items? && Text(p) in v.items)
  {
    if v.Text? { assert forall x :: x in [v] <==> x == v; }
  }

  function EntryOf(f: SourceFile): Entry {
    Entry(Utf8.Encode(f.name), f.content)
  }

  // What a file adds to the stream: its encoded name and its bytes, each behind
  // its length.
  lemma FileLayout(f: SourceFile)
    ensures var fed, name := EntryFrames(EntryOf(f)), Utf8.Encode(f.name);
            && |fed| == 16 + |name| + |f.content|
            && IsEightBytes(fed[..8], |name|) && fed[8..8 + |name|] == name
            && IsEightBytes(fed[8 + |name|..16 + |name|], |f.content|)
            && fed[16 + |name|..] == f.content
  {
    EntryLayout(EntryOf(f));
  }

  // ---------------------------------------------------------- one pass

  // The loop's variables: bytes fed to the hash, revisions, parents.
  datatype Scan = Scan(stream: seq<byte>, revisions: set<string>, parents: set<string>)

  function AddFile(parse: Parser, s: Scan, f: SourceFile): Result<Scan, TreeError> {
    if !Encodable(EntryOf(f)) then Err(LengthOverflow)
    else
      var revision :- ReadRevision(parse, f);
      if revision in s.revisions then Err(DuplicateRevision)
      else
        var parents :- ReadParents(parse, f);
        Ok(Scan(s.stream + EntryFrames(EntryOf(f)), s.revisions + {revision}, s.parents + parents))
  }

  function ScanFiles(parse: Parser, files: seq<SourceFile>): Result<Scan, TreeError> {
    if files == [] then Ok(Scan([], {}, {}))
    else
      var s :- ScanFiles(parse, files[..|files| - 1]);
      AddFile(parse, s, files[|files| - 1])
  }

  // One turn of the loop; a failing file decides the outcome.
  lemma ScanStep(parse: Parser, files: seq<SourceFile>, i: nat)
    requires i < |files| && ScanFiles(parse, files[..i]).Ok?
    ensures var r := AddFile(parse, ScanFiles(parse, files[..i]).value, files[i]);
            && ScanFiles(parse, files[..i + 1]) == r
            && (r.Err? ==> ScanFiles(parse, files) == r)
  {
    assert files[..i + 1][..i] == files[..i];
    if ScanFiles(parse, files[..i + 1]).Err? { ScanPrefixFails(parse, files, i + 1); }
  }

  lemma {:induction false} ScanPrefixFails(parse: Parser, files: seq<SourceFile>, n: nat)
    requires n <= |files| && ScanFiles(parse, files[..n]).Err?
    ensures ScanFiles(parse, files) == ScanFiles(parse, files[..n])
  {
    if n < |files| {
      var front := files[..|files| - 1];
      assert front[..n] == files[..n];
      ScanPrefixFails(parse, front, n);
    } else {
      assert files[..n] == files;
    }
  }

  // ---------------------------------------------------------- meaning

  // Both declarations of a file can be read.
  ghost predicate Declares(parse: Parser, f: SourceFile) {
    ReadRevision(parse, f).Ok? && ReadParents(parse, f).Ok?
  }

  ghost predicate AllDeclare(parse: Parser, files: seq<SourceFile>) {
    forall i :: 0 <= i < |files| ==> Declares(parse, files[i])
  }

  ghost predicate Readable(parse: Parser, f: SourceFile) {
    Encodable(EntryOf(f)) && Declares(parse, f)
  }

  ghost predicate AllReadable(parse: Parser, files: seq<SourceFile>) {
    forall i :: 0 <= i < |files| ==> Readable(parse, files[i])
  }

  ghost predicate DistinctRevisions(parse: Parser, files: seq<SourceFile>) {
    forall i, j {:trigger ReadRevision(parse, files[i]), ReadRevision(parse, files[j])} ::
      0 <= i < j < |files| ==> ReadRevision(parse, files[i]) != ReadRevision(parse, files[j])
  }

  // The graph the files declare, read independently of the scan.
  ghost function GraphOf(parse: Parser, files: seq<SourceFile>): MigrationGraph.Graph {
    map r | r in DeclaredRevisions(parse, files) :: ParentsOf(parse, files, r)
  }

  ghost function DeclaredRevisions(parse: Parser, files: seq<SourceFile>): set<string> {
    set f | f in files && ReadRevision(parse, f).Ok? :: ReadRevision(parse, f).value
  }

  ghost function ParentsOf(parse: Parser, files: seq<SourceFile>, r: string): set<string> {
    set f, p | f in files && ReadRevision(parse, f) == Ok(r) && ReadParents(parse, f).Ok?
               && p in ReadParents(parse, f).value :: p
  }

  ghost function Entries(files: seq<SourceFile>): seq<Entry> {
    seq(|files|, i requires 0 <= i < |files| => EntryOf(files[i]))
  }

  // The loop's variables describe the files read so far.
  ghost predicate Describes(parse: Parser, files: seq<SourceFile>, s: Scan) {
    && s.stream == Stream(Entries(files))
    && s.revisions == GraphOf(parse, files).Keys
    && s.parents == MigrationGraph.Parents(GraphOf(parse, files))
  }

  // The scan accepts exactly the readable directories without repeated
  // revision ids, and then holds the byte stream, the revisions and the
  // parents of the declared graph.
  lemma {:induction false} ScanMeaning(parse: Parser, files: seq<SourceFile>)
    ensures ScanFiles(parse, files).Ok? <==>
            AllReadable(parse, files) && DistinctRevisions(parse, files)
    ensures ScanFiles(parse, files).Ok? ==> Describes(parse, files, ScanFiles(parse, files).value)
  {
    if files != [] {
      var front, last := files[..|files| - 1], files[|files| - 1];
      ScanMeaning(parse, front);
      assert files == front + [last];
      if ScanFiles(parse, front).Ok? {
        AddFileMeaning(parse, front, ScanFiles(parse, front).value, last);
      }
    }
  }

  lemma AddFileMeaning(parse: Parser, front: seq<SourceFile>, s: Scan, last: SourceFile)
    requires AllReadable(parse, front) && DistinctRevisions(parse, front)
    requires Describes(parse, front, s)
    ensures AddFile(parse, s, last).Ok? <==>
            Readable(parse, last) && DistinctRevisions(parse, front + [last])
    ensures AddFile(parse, s, last).Ok? ==>
            Describes(parse, front + [last], AddFile(parse, s, last).value)
  {
    if Readable(parse, last) {
      DistinctStep(parse, front, last);
      RevisionsStep(parse, front, last);
      ParentsStep(parse, front, last);
      StreamStep(front, last);
    }
  }

  lemma StreamStep(front: seq<SourceFile>, last: SourceFile)
    ensures Stream(Entries(front + [last])) == Stream(Entries(front)) + EntryFrames(EntryOf(last))
  {
    var all := Entries(front + [last]);
    assert all[..|front|] == Entries(front);
    assert all[|front|] == EntryOf(last);
  }

  lemma RevisionsStep(parse: Parser, front: seq<SourceFile>, last: SourceFile)
    ensures DeclaredRevisions(parse, front + [last]) == DeclaredRevisions(parse, front)
            + (if ReadRevision(parse, last).Ok? then {ReadRevision(parse, last).value} else {})
  {
    var all := front + [last];
    assert forall f :: f in all <==> f in front || f == last;
  }

  lemma DistinctStep(parse: Parser, front: seq<SourceFile>, last: SourceFile)
    requires AllDeclare(parse, front) && DistinctRevisions(parse, front)
    requires Declares(parse, last)
    ensures DistinctRevisions(parse, front + [last]) <==>
            ReadRevision(parse, last).value !in DeclaredRevisions(parse, front)
  {
    var r, all := ReadRevision(parse, last).value, front + [last];
    if r in DeclaredRevisions(parse, front) {
      var f :| f in front && ReadRevision(parse, f) == Ok(r);
      var i :| 0 <= i < |front| && front[i] == f;
      assert all[i] == f && all[|front|] == last;
    } else {
      forall i, j | 0 <= i < j < |all|
        ensures ReadRevision(parse, all[i]) != ReadRevision(parse, all[j])
      {
        if j == |front| {
          assert front[i] in front;
        } else {
          assert all[i] == front[i] && all[j] == front[j];
        }
      }
    }
  }

  lemma ParentsStep(parse: Parser, front: seq<SourceFile>, last: SourceFile)
    requires AllDeclare(parse, front) && Declares(parse, last)
    ensures MigrationGraph.Parents(GraphOf(parse, front + [last])) ==
            MigrationGraph.Parents(GraphOf(parse, front)) + ReadParents(parse, last).value
  {
    var all := front + [last];
    ParentsDeclared(parse, front);
    ParentsDeclared(parse, all);
    assert forall f :: f in all <==> f in front || f == last;
  }

  // The graph's parents are the down revisions that some file declares.
  lemma ParentsDeclared(parse: Parser, files: seq<SourceFile>)
    requires AllDeclare(parse, files)
    ensures MigrationGraph.Parents(GraphOf(parse, files)) ==
            set f, p | f in files && ReadParents(parse, f).Ok? && p in ReadParents(parse, f).value :: p
  {
    var g := GraphOf(parse, files);
    forall f, p | f in files && ReadParents(parse, f).Ok? && p in ReadParents(parse, f).value
      ensures p in MigrationGraph.Parents(g)
    {
      var r := ReadRevision(parse, f).value;
      assert r in g && p in g[r];
    }
  }

  // ---------------------------------------------------------- the script

  datatype Description = Description(digest: Sha256Digest, heads: AlembicHeads)

  function NameOf(f: SourceFile): string { f.name }

  // Two files of one directory never share a name.
  ghost predicate IsDirectory(dir: seq<SourceFile>) { DistinctKeys(NameOf, dir) }

  ghost function AnyOrder(s: set<string>): (xs: seq<string>)
    ensures Elements(xs) == s
  {
    if s == {} then []
    else
      var x :| x in s;
      var rest := AnyOrder(s - {x});
      assert forall y :: y in [x] + rest <==> y == x || y in Elements(rest);
      [x] + rest
  }

  // What the script computes from a directory, in whatever order the files
  // and the head set are enumerated.
  ghost function Describe(parse: Parser, hash: seq<byte> -> string, dir: seq<SourceFile>)
    : Result<Description, TreeError>
  {
    if dir == [] then Err(NoMigrationFiles)
    else
      var s :- ScanFiles(parse, SortOn(NameOf, dir));
      Conclude(hash, s)
  }

  ghost function Conclude(hash: seq<byte> -> string, s: Scan): Result<Description, TreeError> {
    var heads := s.revisions - s.parents;
    if heads == {} then Err(NoHeads)
    else
      match MakeDigest("sha256:" + hash(s.stream), InvalidMigrationGraphDigest)
      case Err(e) => Err(BadEvidence(e))
      case Ok(digest) =>
        match MakeHeads(AnyOrder(heads))
        case Err(e) => Err(BadEvidence(e))
        case Ok(h) => Ok(Description(digest, h))
  }

  method Enumerate(s: set<string>) returns (xs: seq<string>)
    ensures Elements(xs) == s
  {
    xs := [];
    var rest := s;
    while rest != {}
      invariant Elements(xs) + rest == s
    {
      var x :| x in rest;
      rest := rest - {x};
      xs := xs + [x];
    }
  }

  // The four digest.update calls.
  method FeedEntry(stream: seq<byte>, name: seq<byte>, content: seq<byte>)
    returns (fed: seq<byte>)
    ensures fed == stream + EntryFrames(Entry(name, content))
  {
    fed := stream + BigEndian(|name|, 8);
    fed := fed + name;
    fed := fed + BigEndian(|content|, 8);
    fed := fed + content;
  }

  method DescribeMigrationTree(parse: Parser, hash: seq<byte> -> string, dir: seq<SourceFile>)
    returns (r: Result<Description, TreeError>)
    ensures r == Describe(parse, hash, dir)
    ensures r.Ok? ==> forall h :: h in r.value.heads <==> IsTip(parse, dir, h)
  {
    var files := SortOn(NameOf, dir);
    if dir == [] { return Err(NoMigrationFiles); }
    assert files != [] by { SortOnElements(NameOf, dir); }
    var stream, revisions, parents := [], {}, {};
    for i := 0 to |files|
      invariant ScanFiles(parse, files[..i]) == Ok(Scan(stream, revisions, parents))
    {
      var f := files[i];
      ScanStep(parse, files, i);
      var name := Utf8.Encode(f.name);
      if |name| >= LENGTH_LIMIT || |f.content| >= LENGTH_LIMIT { return Err(LengthOverflow); }
      var revision := ReadRevision(parse, f);
      if revision.Err? { return Err(revision.error); }
      if revision.value in revisions { return Err(DuplicateRevision); }
      var down := ReadParents(parse, f);
      if down.Err? { return Err(down.error); }
      stream := FeedEntry(stream, name, f.content);
      revisions := revisions + {revision.value};
      parents := parents + down.value;
    }
    assert files[..|files|] == files;
    var heads := revisions - parents;
    if heads == {} { return Err(NoHeads); }
    var digest := MakeDigest("sha256:" + hash(stream), InvalidMigrationGraphDigest);
    if digest.Err? { return Err(BadEvidence(digest.error)); }
    var list := Enumerate(heads);
    EnumerationIrrelevant(list, AnyOrder(heads));
    var made := MakeHeads(list);
    if made.Err? { return Err(BadEvidence(made.error)); }
    forall h ensures h in made.value <==> IsTip(parse, dir, h) {
      DescribedHeads(parse, hash, dir, h);
    }
    return Ok(Description(digest.value, made.value));
  }

  lemma EnumerationIrrelevant(a: seq<string>, b: seq<string>)
    requires Elements(a) == Elements(b)
    ensures MakeHeads(a) == MakeHeads(b)
  {
    assert forall x :: x in a <==> x in Elements(a);
    assert forall x :: x in b <==> x in Elements(b);
    ElementsEmpty(a);
    ElementsEmpty(b);
    SortedSetCanonical(a, b);
  }

  // ---------------------------------------------------------- what it means

  // The declared graph of a directory.
  ghost function TreeGraph(parse: Parser, dir: seq<SourceFile>): MigrationGraph.Graph {
    GraphOf(parse, SortOn(NameOf, dir))
  }

  lemma DescriptionMeaning(parse: Parser, hash: seq<byte> -> string, dir: seq<SourceFile>)
    requires Describe(parse, hash, dir).Ok?
    ensures var d := Describe(parse, hash, dir).value;
            && Elements(d.heads) == MigrationGraph.Heads(TreeGraph(parse, dir))
            && d.digest == "sha256:" + hash(Stream(Entries(SortOn(NameOf, dir))))
  {
    ScanMeaning(parse, SortOn(NameOf, dir));
  }

  // Some file names the revision as its own and no file names it as a parent.
  ghost predicate IsTip(parse: Parser, dir: seq<SourceFile>, h: string) {
    && (exists f :: f in dir && NamesRevision(parse(f.content), h))
    && (forall f :: f in dir ==> !NamesParent(parse(f.content), h))
  }

  // On the files themselves: the described heads are the tips.
  lemma DescribedHeads(parse: Parser, hash: seq<byte> -> string, dir: seq<SourceFile>, h: string)
    requires Describe(parse, hash, dir).Ok?
    ensures h in Describe(parse, hash, dir).value.heads <==> IsTip(parse, dir, h)
  {
    var files := SortOn(NameOf, dir);
    ScanMeaning(parse, files);
    DescriptionMeaning(parse, hash, dir);
    TipsOfGraph(parse, files, h);
    SortOnElements(NameOf, dir);
    assert forall f :: f in files <==> f in Elements(files);
    assert forall f :: f in dir <==> f in Elements(dir);
    assert h in Describe(parse, hash, dir).value.heads <==>
           h in Elements(Describe(parse, hash, dir).value.heads);
  }

  lemma TipsOfGraph(parse: Parser, files: seq<SourceFile>, h: string)
    requires AllDeclare(parse, files)
    ensures h in MigrationGraph.Heads(GraphOf(parse, files)) <==> IsTip(parse, files, h)
  {
    ParentsDeclared(parse, files);
    forall f | f in files
      ensures h in ReadParents(parse, f).value <==> NamesParent(parse(f.content), h)
      ensures ReadRevision(parse, f) == Ok(h) <==> NamesRevision(parse(f.content), h)
    {
      ParentsExactly(parse, f);
      RevisionExactly(parse, f, h);
      NoEmptyRevision(parse, f, h);
    }
  }

  lemma NoEmptyRevision(parse: Parser, f: SourceFile, h: string)
    requires Declares(parse, f)
    ensures NamesRevision(parse(f.content), h) ==> h != ""
  {
    if i :| Declaration(parse(f.content), "revision", i, Text(h)) {
      DeclarationUnique(parse(f.content), "revision", i, Text(h));
    }
  }

  // A description names exactly the heads of the declared graph; a directory
  // of well-formed files is turned down only for a headless graph or for
  // heads that are no revision identifiers.
  lemma DescribeMeaning(parse: Parser, hash: seq<byte> -> string, dir: seq<SourceFile>)
    requires IsSha256Digest("sha256:" + hash(Stream(Entries(SortOn(NameOf, dir)))))
    ensures var r, g := Describe(parse, hash, dir), TreeGraph(parse, dir);
            && (r.Ok? <==>
                && dir != []
                && AllReadable(parse, SortOn(NameOf, dir))
                && DistinctRevisions(parse, SortOn(NameOf, dir))
                && MigrationGraph.Heads(g) != {}
                && forall h :: h in MigrationGraph.Heads(g) ==> IsRevision(h))
            && (r.Ok? ==>
                && Elements(r.value.heads) == MigrationGraph.Heads(g)
                && r.value.digest == "sha256:" + hash(Stream(Entries(SortOn(NameOf, dir)))))
  {
    var files := SortOn(NameOf, dir);
    ScanMeaning(parse, files);
    var s := ScanFiles(parse, files);
    if dir != [] && s.Ok? {
      var heads := s.value.revisions - s.value.parents;
      var xs := AnyOrder(heads);
      assert forall x :: x in xs <==> x in Elements(xs);
      ElementsEmpty(xs);
    }
  }

  // The order in which the directory lists its files does not matter.
  lemma DirectoryOrderIrrelevant(parse: Parser, hash: seq<byte> -> string,
                                 a: seq<SourceFile>, b: seq<SourceFile>)
    requires IsDirectory(a) && IsDirectory(b) && Elements(a) == Elements(b)
    ensures Describe(parse, hash, a) == Describe(parse, hash, b)
  {
    SortOnOrderFree(NameOf, a, b);
    ElementsEmpty(a);
    ElementsEmpty(b);
  }

  // Two described directories that feed the hash the same bytes are the same
  // files, whatever the parser makes of them.
  lemma SameStreamSameFiles(parse: Parser, hash: seq<byte> -> string,
                            a: seq<SourceFile>, b: seq<SourceFile>)
    requires IsDirectory(a) && IsDirectory(b)
    requires Describe(parse, hash, a).Ok? && Describe(parse, hash, b).Ok?
    requires Stream(Entries(SortOn(NameOf, a))) == Stream(Entries(SortOn(NameOf, b)))
    ensures Elements(a) == Elements(b)
    ensures TreeGraph(parse, a) == TreeGraph(parse, b)
  {
    var x, y := SortOn(NameOf, a), SortOn(NameOf, b);
    ScanMeaning(parse, x);
    ScanMeaning(parse, y);
    SameEntriesSameFiles(x, y);
    SortOnElements(NameOf, a);
    SortOnElements(NameOf, b);
  }

  lemma SameEntriesSameFiles(x: seq<SourceFile>, y: seq<SourceFile>)
    requires forall i :: 0 <= i < |x| ==> Encodable(EntryOf(x[i]))
    requires forall i :: 0 <= i < |y| ==> Encodable(EntryOf(y[i]))
    requires Stream(Entries(x)) == Stream(Entries(y))
    ensures x == y
  {
    StreamInjective(Entries(x), Entries(y));
    assert |x| == |Entries(x)| == |Entries(y)| == |y|;
    forall i | 0 <= i < |x| ensures x[i] == y[i] {
      assert EntryOf(x[i]) == Entries(x)[i] == Entries(y)[i] == EntryOf(y[i]);
      Utf8.EncodeInjective(x[i].name, y[i].name);
    }
  }
}
