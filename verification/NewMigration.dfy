// Growing the revision graph: new_migration allocates the next revision on top
// of the single head and writes its file into the same directory that
// describe_migration_tree reads.

module NewMigration {
  import opened Basics
  import opened Text
  import opened Decimal
  import opened LexOrder
  import opened ReleaseContract
  import opened MigrationTree
  import opened MigrationGraph
  import Framing
  import T = Text

  datatype AllocationError =
    | InvalidSlug | NotSingleHeaded | NoNumberedMigrations | WouldOverwrite

  // [a-z0-9]+(_[a-z0-9]+)*
  predicate IsSlug(s: string) {
    && s != "" && s[0] != '_' && s[|s| - 1] != '_'
    && (forall i :: 0 <= i < |s| ==> IsDigit(s[i]) || IsLower(s[i]) || s[i] == '_')
    && (forall i :: 0 <= i < |s| - 1 ==> s[i] != '_' || s[i + 1] != '_')
  }

  // The number in front of the first underscore: ^(\d+)_
  function LeadingNumber(name: string): Option<nat> {
    var n := DigitRun(name);
    if 0 < n < |name| && name[n] == '_' then Some(Parse(name[..n])) else None
  }

  function DigitRun(s: string): (n: nat)
    ensures n <= |s| && AllDigits(s[..n])
  {
    if s == "" || !IsDigit(s[0]) then 0
    else
      var n := DigitRun(s[1..]);
      assert s[..n + 1] == [s[0]] + s[1..][..n];
      1 + n
  }

  // The greatest number of the directory's file names.
  function MaxNumber(dir: seq<SourceFile>): Option<nat> {
    if dir == [] then None
    else
      match (LeadingNumber(dir[0].name), MaxNumber(dir[1..]))
      case (None, m) => m
      case (Some(n), None) => Some(n)
      case (Some(n), Some(m)) => Some(if n > m then n else m)
  }

  // revision id and down_revision id to file content
  type Template = (string, string) -> seq<Framing.byte>

  function NewRevision(number: nat, slug: string): string {
    Render(number) + "_" + slug
  }

  ghost function Allocate(parse: Parser, template: Template, dir: seq<SourceFile>, slug: string)
    : Result<SourceFile, AllocationError>
  {
    if !IsSlug(slug) then Err(InvalidSlug)
    else if |Heads(GraphOf(parse, dir))| != 1 then Err(NotSingleHeaded)
    else if MaxNumber(dir).None? then Err(NoNumberedMigrations)
    else
      var head :| head in Heads(GraphOf(parse, dir));
      var revision := NewRevision(MaxNumber(dir).value + 1, slug);
      if HasName(dir, revision + ".py") then Err(WouldOverwrite)
      else Ok(SourceFile(revision + ".py", template(revision, head)))
  }

  ghost predicate HasName(dir: seq<SourceFile>, name: string) {
    exists f :: f in dir && f.name == name
  }

  // A file made from the template declares the two ids it was made from.
  ghost predicate IsFaithful(parse: Parser, template: Template) {
    forall r, h, name :: IsRevision(r) && IsRevision(h) ==>
      var f := SourceFile(name, template(r, h));
      ReadRevision(parse, f) == Ok(r) && ReadParents(parse, f) == Ok({h})
  }

  // ---------------------------------------------------------- numbering

  lemma {:induction false} DigitRunOf(digits: string, rest: string)
    requires AllDigits(digits) && (rest == "" || !IsDigit(rest[0]))
    ensures DigitRun(digits + rest) == |digits|
  {
    if digits == "" {
      assert digits + rest == rest;
    } else {
      DigitRunOf(digits[1..], rest);
      assert (digits + rest)[1..] == digits[1..] + rest;
    }
  }

  lemma NewNumber(number: nat, tail: string)
    ensures LeadingNumber(Render(number) + "_" + tail) == Some(number)
  {
    RenderRoundTrip(number);
    DigitRunOf(Render(number), "_" + tail);
    var name := Render(number) + "_" + tail;
    assert name == Render(number) + ("_" + tail);
    assert name[..|Render(number)|] == Render(number);
  }

  lemma {:induction false} MaxNumberBounds(dir: seq<SourceFile>)
    ensures forall f :: f in dir && LeadingNumber(f.name).Some? ==>
              MaxNumber(dir).Some? && LeadingNumber(f.name).value <= MaxNumber(dir).value
  {
    if dir != [] {
      MaxNumberBounds(dir[1..]);
      assert forall f :: f in dir ==> f == dir[0] || f in dir[1..];
    }
  }

  lemma {:induction false} MaxNumberAppend(dir: seq<SourceFile>, f: SourceFile, n: nat)
    requires LeadingNumber(f.name) == Some(n)
    requires MaxNumber(dir).Some? ==> MaxNumber(dir).value < n
    ensures MaxNumber(dir + [f]) == Some(n)
  {
    if dir == [] {
      assert dir + [f] == [f];
      assert [f][1..] == [];
    } else {
      assert (dir + [f])[1..] == dir[1..] + [f];
      MaxNumberAppend(dir[1..], f, n);
    }
  }

  lemma FileNumber(number: nat, slug: string)
    ensures LeadingNumber(NewRevision(number, slug)) == Some(number)
    ensures LeadingNumber(NewRevision(number, slug) + ".py") == Some(number)
  {
    NewNumber(number, slug);
    NewNumber(number, slug + ".py");
    assert NewRevision(number, slug) + ".py" == Render(number) + "_" + (slug + ".py");
  }

  // The name begins with a number in decimal digits and an underscore.
  ghost predicate IsNumbered(name: string, n: nat) {
    exists digits, tail: string ::
      name == digits + "_" + tail && digits != "" && AllDigits(digits) && Parse(digits) == n
  }

  lemma LeadingNumberExactly(name: string, n: nat)
    ensures LeadingNumber(name) == Some(n) <==> IsNumbered(name, n)
  {
    if LeadingNumber(name) == Some(n) {
      var k := DigitRun(name);
      assert name == name[..k] + "_" + name[k + 1..];
    }
    if digits, tail: string :| name == digits + "_" + tail && digits != "" && AllDigits(digits)
                               && Parse(digits) == n {
      assert name == digits + ("_" + tail);
      DigitRunOf(digits, "_" + tail);
      assert name[..|digits|] == digits;
    }
  }

  // The greatest number is one that a file has and none exceeds.
  lemma {:induction false} MaxNumberExactly(dir: seq<SourceFile>)
    ensures MaxNumber(dir).Some? <==> exists f, n: nat :: f in dir && IsNumbered(f.name, n)
    ensures MaxNumber(dir).Some? ==>
              && (exists f :: f in dir && IsNumbered(f.name, MaxNumber(dir).value))
              && (forall f, n: nat :: f in dir && IsNumbered(f.name, n) ==> n <= MaxNumber(dir).value)
  {
    forall f, n: nat | f in dir && IsNumbered(f.name, n)
      ensures MaxNumber(dir).Some? && n <= MaxNumber(dir).value
    {
      LeadingNumberExactly(f.name, n);
      MaxNumberBounds(dir);
    }
    if MaxNumber(dir).Some? {
      var f := MaxNumberAttained(dir);
      LeadingNumberExactly(f.name, MaxNumber(dir).value);
    }
  }

  lemma {:induction false} MaxNumberAttained(dir: seq<SourceFile>) returns (f: SourceFile)
    requires MaxNumber(dir).Some?
    ensures f in dir && LeadingNumber(f.name) == MaxNumber(dir)
  {
    f := dir[0];
    if LeadingNumber(dir[0].name) != MaxNumber(dir) { f := MaxNumberAttained(dir[1..]); }
  }

  // A slug is words of small letters and digits, joined by single underscores.
  ghost predicate IsWord(w: string) {
    w != "" && forall i :: 0 <= i < |w| ==> '0' <= w[i] <= '9' || 'a' <= w[i] <= 'z'
  }

  ghost predicate AreWords(parts: seq<string>) {
    forall i :: 0 <= i < |parts| ==> IsWord(parts[i])
  }

  lemma {:induction false} SlugExactly(s: string)
    ensures IsSlug(s) <==> AreWords(T.Split(s, '_'))
    decreases |s|
  {
    if s == "" {
      assert T.Split(s, '_')[0] == "";
    } else if s[0] == '_' {
      assert T.Split(s, '_')[0] == "";
    } else {
      var rest := s[1..];
      var parts := T.Split(rest, '_');
      assert T.Split(s, '_') == [[s[0]] + parts[0]] + parts[1..];
      WordGrows(s[0], parts);
      if rest == "" {
        assert parts[1..] == [] && s == [s[0]];
      } else if rest[0] == '_' {
        var tail := rest[1..];
        SlugExactly(tail);
        assert parts[0] == "" && parts[1..] == T.Split(tail, '_');
        SlugBehindBreak(s);
      } else {
        SlugExactly(rest);
        FirstWord(parts);
        SlugBehindLetter(s);
      }
    }
  }

  lemma FirstWord(parts: seq<string>)
    requires parts != []
    ensures AreWords(parts) <==> IsWord(parts[0]) && AreWords(parts[1..])
  {
    assert forall i :: 0 <= i < |parts| - 1 ==> parts[i + 1] == parts[1..][i];
  }

  lemma WordGrows(c: char, parts: seq<string>)
    requires parts != []
    ensures AreWords([[c] + parts[0]] + parts[1..]) <==>
            IsWord([c]) && (parts[0] == "" || IsWord(parts[0])) && AreWords(parts[1..])
  {
    var grown, word := [[c] + parts[0]] + parts[1..], [c] + parts[0];
    assert forall i :: 0 <= i < |parts[0]| ==> word[i + 1] == parts[0][i];
    assert word[0] == [c][0];
    assert grown[0] == word && grown[1..] == parts[1..];
    FirstWord(grown);
  }

  lemma SlugBehindLetter(s: string)
    requires |s| >= 2 && s[0] != '_' && s[1] != '_'
    ensures IsSlug(s) <==> IsWord([s[0]]) && IsSlug(s[1..])
  {
    assert forall i :: 0 <= i < |s| - 1 ==> s[1..][i] == s[i + 1];
    assert [s[0]][0] == s[0];
    if IsSlug(s) {
      forall i | 0 <= i < |s| - 2 ensures s[1..][i] != '_' || s[1..][i + 1] != '_' {
        assert s[i + 1] != '_' || s[i + 1 + 1] != '_';
      }
    }
    if IsSlug(s[1..]) {
      var t := s[1..];
      forall i | 0 <= i < |s| - 1 ensures s[i] != '_' || s[i + 1] != '_' {
        if i > 0 { assert t[i - 1] != '_' || t[i - 1 + 1] != '_'; }
      }
    }
  }

  lemma SlugBehindBreak(s: string)
    requires |s| >= 2 && s[0] != '_' && s[1] == '_'
    ensures IsSlug(s) <==> IsWord([s[0]]) && IsSlug(s[2..])
    ensures s[1..][1..] == s[2..]
  {
    var t := s[2..];
    assert forall i :: 0 <= i < |t| ==> t[i] == s[i + 2];
    assert [s[0]][0] == s[0];
    if IsSlug(s) {
      assert s[1] != '_' || s[1 + 1] != '_';
      forall i | 0 <= i < |t| - 1 ensures t[i] != '_' || t[i + 1] != '_' {
        assert s[i + 2] != '_' || s[i + 2 + 1] != '_';
      }
    }
    if IsSlug(t) {
      forall i | 0 <= i < |s| - 1 ensures s[i] != '_' || s[i + 1] != '_' {
        if i > 1 { assert t[i - 2] != '_' || t[i - 2 + 1] != '_'; }
      }
    }
  }

  // The refusal to overwrite never triggers: the number just computed is
  // beyond every file's, so the path is always fresh.
  lemma AllocatedPathIsFresh(parse: Parser, template: Template, dir: seq<SourceFile>, slug: string)
    ensures Allocate(parse, template, dir, slug) != Err(WouldOverwrite)
    ensures var a := Allocate(parse, template, dir, slug);
            a.Ok? ==> !HasName(dir, a.value.name)
  {
    if MaxNumber(dir).Some? { NewPathIsFresh(dir, MaxNumber(dir).value, slug); }
  }

  lemma NewPathIsFresh(dir: seq<SourceFile>, max: nat, slug: string)
    requires MaxNumber(dir) == Some(max)
    ensures !HasName(dir, NewRevision(max + 1, slug) + ".py")
  {
    FileNumber(max + 1, slug);
    MaxNumberBounds(dir);
  }

  // What the command does with any directory: it refuses a malformed slug, a
  // graph without exactly one head, and a directory without numbered files, in
  // this order; otherwise the file it writes is named by the next number and
  // the slug, and its content is made from that id and the head.
  lemma AllocateExactly(parse: Parser, template: Template, dir: seq<SourceFile>, slug: string)
    ensures var a, heads := Allocate(parse, template, dir, slug), Heads(GraphOf(parse, dir));
            if !AreWords(T.Split(slug, '_')) then a == Err(InvalidSlug)
            else if |heads| != 1 then a == Err(NotSingleHeaded)
            else if !exists f, n: nat :: f in dir && IsNumbered(f.name, n)
            then a == Err(NoNumberedMigrations)
            else exists head, n: nat :: heads == {head} && IsGreatestNumber(dir, n)
                   && a == Ok(SourceFile(Render(n + 1) + "_" + slug + ".py",
                                         template(Render(n + 1) + "_" + slug, head)))
  {
    SlugExactly(slug);
    MaxNumberExactly(dir);
    var heads := Heads(GraphOf(parse, dir));
    if IsSlug(slug) && |heads| == 1 && MaxNumber(dir).Some? {
      AllocatedPathIsFresh(parse, template, dir, slug);
      var head :| head in heads;
      OnlyMember(heads, head);
      assert IsGreatestNumber(dir, MaxNumber(dir).value);
    }
  }

  ghost predicate IsGreatestNumber(dir: seq<SourceFile>, n: nat) {
    && (exists f :: f in dir && IsNumbered(f.name, n))
    && (forall f, m: nat :: f in dir && IsNumbered(f.name, m) ==> m <= n)
  }

  lemma OnlyMember(s: set<string>, x: string)
    requires |s| == 1 && x in s
    ensures s == {x}
  {
    assert s == {x} + (s - {x});
  }

  // ---------------------------------------------------------- one allocation

  // A directory alembic can load: files with distinct names and distinct ids,
  // no dangling parent, no cycle, and exactly one head.
  ghost predicate IsLoadable(parse: Parser, dir: seq<SourceFile>) {
    && IsDirectory(dir) && AllDeclare(parse, dir) && DistinctRevisions(parse, dir)
    && Closed(GraphOf(parse, dir)) && Acyclic(GraphOf(parse, dir))
  }

  ghost predicate HasHead(parse: Parser, dir: seq<SourceFile>, head: string) {
    Heads(GraphOf(parse, dir)) == {head} && IsRevision(head)
  }

  // What alembic can load and upgrade to one head.
  ghost predicate IsSingleHeaded(parse: Parser, dir: seq<SourceFile>) {
    exists head :: IsLoadable(parse, dir) && HasHead(parse, dir, head)
  }

  // Adding a file that declares a fresh id adds exactly that node.
  lemma GraphAppend(parse: Parser, dir: seq<SourceFile>, f: SourceFile)
    requires AllDeclare(parse, dir) && Declares(parse, f)
    requires ReadRevision(parse, f).value !in GraphOf(parse, dir)
    ensures GraphOf(parse, dir + [f]) ==
            GraphOf(parse, dir)[ReadRevision(parse, f).value := ReadParents(parse, f).value]
  {
    var r := ReadRevision(parse, f).value;
    RevisionsStep(parse, dir, f);
    forall x ensures ParentsOf(parse, dir + [f], x) ==
                     if x == r then ReadParents(parse, f).value else ParentsOf(parse, dir, x) {
      ParentsAppend(parse, dir, f, x);
    }
  }

  lemma ParentsAppend(parse: Parser, dir: seq<SourceFile>, f: SourceFile, x: string)
    requires Declares(parse, f)
    requires ReadRevision(parse, f).value !in DeclaredRevisions(parse, dir)
    ensures ParentsOf(parse, dir + [f], x) ==
            if ReadRevision(parse, f) == Ok(x) then ReadParents(parse, f).value
            else ParentsOf(parse, dir, x)
  {
    assert forall y :: y in dir + [f] <==> y in dir || y == f;
    if ReadRevision(parse, f) == Ok(x) {
      assert forall y :: y in dir ==> ReadRevision(parse, y) != Ok(x);
    }
  }

  lemma GrowthIsAcyclic(g: Graph, r: string, head: string)
    requires Closed(g) && Acyclic(g) && r !in g && head in g
    ensures Acyclic(g[r := {head}])
  {
    var g' := g[r := {head}];
    forall c ensures !OnCycle(g', c) {
      if OnCycle(g', c) {
        var w :| |w| >= 2 && IsWalkBetween(g', w, c, c);
        forall i | 0 <= i < |w| ensures w[i] != r {
          var before := if i == 0 then |w| - 2 else i - 1;
          assert w[before + 1] in g'[w[before]];
          assert w[before + 1] == w[i];
          assert w[before + 1] in Parents(g) || w[before + 1] == head;
        }
        assert IsWalkBetween(g, w, c, c);
        assert OnCycle(g, c);
      }
    }
  }

  lemma GrowthHeads(g: Graph, r: string, head: string)
    requires Closed(g) && r !in g && head in g
    ensures Heads(g[r := {head}]) == Heads(g) - {head} + {r}
    ensures Closed(g[r := {head}])
  {
    var g' := g[r := {head}];
    assert Parents(g') == Parents(g) + {head} by {
      forall p | p in Parents(g) ensures p in Parents(g') {
        var x :| x in g && p in g[x];
        assert x in g' && p in g'[x];
      }
      assert head in g'[r];
    }
  }

  ghost function RevisionFor(dir: seq<SourceFile>, slug: string): string
    requires MaxNumber(dir).Some?
  {
    NewRevision(MaxNumber(dir).value + 1, slug)
  }

  lemma NewRevisionIsRevision(number: nat, slug: string)
    requires IsSlug(slug)
    ensures IsRevision(NewRevision(number, slug))
  {
    RenderRoundTrip(number);
  }

  // What the allocator writes on a single-headed directory: a file under a
  // fresh name and number, declaring the new id on top of the head.
  lemma AllocatedFile(parse: Parser, template: Template, dir: seq<SourceFile>,
                      slug: string, head: string)
    requires IsFaithful(parse, template)
    requires HasHead(parse, dir, head) && IsSlug(slug) && MaxNumber(dir).Some?
    ensures var a, r := Allocate(parse, template, dir, slug), RevisionFor(dir, slug);
            && a.Ok?
            && IsRevision(r)
            && ReadRevision(parse, a.value) == Ok(r)
            && ReadParents(parse, a.value) == Ok({head})
            && !HasName(dir, a.value.name)
            && MaxNumber(dir + [a.value]) == Some(MaxNumber(dir).value + 1)
  {
    var number, r := MaxNumber(dir).value + 1, RevisionFor(dir, slug);
    AllocatedPathIsFresh(parse, template, dir, slug);
    var f := Allocate(parse, template, dir, slug).value;
    assert f == SourceFile(r + ".py", template(r, head));
    NewRevisionIsRevision(number, slug);
    FileNumber(number, slug);
    MaxNumberAppend(dir, f, number);
  }

  // One allocation keeps the directory loadable and single-headed exactly when
  // the id it forms is declared nowhere yet; the new revision is then the head
  // on top of the old one.
  lemma AllocationStep(parse: Parser, template: Template, dir: seq<SourceFile>,
                       slug: string, head: string)
    requires IsFaithful(parse, template)
    requires IsLoadable(parse, dir) && HasHead(parse, dir, head)
    requires IsSlug(slug) && MaxNumber(dir).Some?
    ensures var a := Allocate(parse, template, dir, slug);
            && a.Ok?
            && var r, dir' := RevisionFor(dir, slug), dir + [a.value];
            && (IsLoadable(parse, dir') <==> r !in GraphOf(parse, dir))
            && (r !in GraphOf(parse, dir) ==>
                && HasHead(parse, dir', r)
                && GraphOf(parse, dir') == GraphOf(parse, dir)[r := {head}])
  {
    AllocatedFile(parse, template, dir, slug, head);
    GrowHead(parse, dir, Allocate(parse, template, dir, slug).value, RevisionFor(dir, slug), head);
  }

  lemma GrowHead(parse: Parser, dir: seq<SourceFile>, f: SourceFile, r: string, head: string)
    requires IsLoadable(parse, dir) && HasHead(parse, dir, head) && IsRevision(r)
    requires ReadRevision(parse, f) == Ok(r) && ReadParents(parse, f) == Ok({head})
    requires !HasName(dir, f.name)
    ensures IsLoadable(parse, dir + [f]) <==> r !in GraphOf(parse, dir)
    ensures r !in GraphOf(parse, dir) ==>
            && HasHead(parse, dir + [f], r)
            && GraphOf(parse, dir + [f]) == GraphOf(parse, dir)[r := {head}]
  {
    assert head in Heads(GraphOf(parse, dir));
    Append(parse, dir, f, r, head);
    assert {head} - {head} + {r} == {r};
  }

  lemma Append(parse: Parser, dir: seq<SourceFile>, f: SourceFile, r: string, head: string)
    requires IsLoadable(parse, dir) && head in GraphOf(parse, dir)
    requires ReadRevision(parse, f) == Ok(r) && ReadParents(parse, f) == Ok({head})
    requires !HasName(dir, f.name)
    ensures IsLoadable(parse, dir + [f]) <==> r !in GraphOf(parse, dir)
    ensures r !in GraphOf(parse, dir) ==>
            && GraphOf(parse, dir + [f]) == GraphOf(parse, dir)[r := {head}]
            && Heads(GraphOf(parse, dir + [f])) == Heads(GraphOf(parse, dir)) - {head} + {r}
  {
    DistinctStep(parse, dir, f);
    if r !in GraphOf(parse, dir) {
      GraphAppend(parse, dir, f);
      GrowthIsAcyclic(GraphOf(parse, dir), r, head);
      GrowthHeads(GraphOf(parse, dir), r, head);
    }
  }

  // ---------------------------------------------------------- whole runs

  // No declared id carries a number beyond the greatest file number. A file
  // may well declare another number than its own.
  ghost predicate IdsBounded(parse: Parser, dir: seq<SourceFile>) {
    && MaxNumber(dir).Some?
    && forall r :: r in GraphOf(parse, dir) && LeadingNumber(r).Some? ==>
         LeadingNumber(r).value <= MaxNumber(dir).value
  }

  ghost function AllocateAll(parse: Parser, template: Template, dir: seq<SourceFile>,
                             slugs: seq<string>): Result<seq<SourceFile>, AllocationError>
    decreases |slugs|
  {
    if slugs == [] then Ok(dir)
    else
      var f :- Allocate(parse, template, dir, slugs[0]);
      AllocateAll(parse, template, dir + [f], slugs[1..])
  }

  predicate AllSlugs(slugs: seq<string>) {
    forall i :: 0 <= i < |slugs| ==> IsSlug(slugs[i])
  }

  ghost predicate IsReady(parse: Parser, dir: seq<SourceFile>) {
    IsSingleHeaded(parse, dir) && IdsBounded(parse, dir)
  }

  // Any number of serial allocations succeeds and leaves the directory
  // loadable, single-headed and ready for the next one.
  lemma {:induction false} SerialAllocations(parse: Parser, template: Template,
                                             dir: seq<SourceFile>, slugs: seq<string>)
    requires IsFaithful(parse, template) && IsReady(parse, dir)
    requires AllSlugs(slugs)
    ensures var r := AllocateAll(parse, template, dir, slugs);
            r.Ok? && IsReady(parse, r.value) && |r.value| == |dir| + |slugs|
    decreases |slugs|
  {
    if slugs != [] {
      var dir' := BoundedStep(parse, template, dir, slugs);
      SerialAllocations(parse, template, dir', slugs[1..]);
    }
  }

  lemma BoundedStep(parse: Parser, template: Template, dir: seq<SourceFile>, slugs: seq<string>)
    returns (dir': seq<SourceFile>)
    requires IsFaithful(parse, template) && IsReady(parse, dir)
    requires slugs != [] && IsSlug(slugs[0])
    ensures IsReady(parse, dir') && |dir'| == |dir| + 1
    ensures AllocateAll(parse, template, dir, slugs) == AllocateAll(parse, template, dir', slugs[1..])
  {
    var head :| IsLoadable(parse, dir) && HasHead(parse, dir, head);
    var slug := slugs[0];
    FreshRevision(parse, dir, slug);
    AllocationStep(parse, template, dir, slug, head);
    AllocatedFile(parse, template, dir, slug, head);
    dir' := dir + [Allocate(parse, template, dir, slug).value];
    BoundedGrowth(parse, dir, dir', slug, head);
    assert HasHead(parse, dir', RevisionFor(dir, slug));
  }

  // A directory whose ids are bounded makes every new id fresh by itself.
  lemma FreshRevision(parse: Parser, dir: seq<SourceFile>, slug: string)
    requires IdsBounded(parse, dir)
    ensures RevisionFor(dir, slug) !in GraphOf(parse, dir)
  {
    FileNumber(MaxNumber(dir).value + 1, slug);
  }

  lemma BoundedGrowth(parse: Parser, dir: seq<SourceFile>, dir': seq<SourceFile>,
                      slug: string, head: string)
    requires IdsBounded(parse, dir)
    requires MaxNumber(dir') == Some(MaxNumber(dir).value + 1)
    requires GraphOf(parse, dir') == GraphOf(parse, dir)[RevisionFor(dir, slug) := {head}]
    ensures IdsBounded(parse, dir')
  {
    FileNumber(MaxNumber(dir).value + 1, slug);
  }

  // The id of the allocation after `i` earlier ones, known before the first.
  ghost function LaterRevision(dir: seq<SourceFile>, i: nat, slug: string): string
    requires MaxNumber(dir).Some?
  {
    NewRevision(MaxNumber(dir).value + 1 + i, slug)
  }

  ghost predicate IdsFresh(parse: Parser, dir: seq<SourceFile>, slugs: seq<string>)
    requires MaxNumber(dir).Some?
  {
    forall i :: 0 <= i < |slugs| ==> LaterRevision(dir, i, slugs[i]) !in GraphOf(parse, dir)
  }

  // The allocations succeeded and left a loadable directory with one head.
  ghost predicate EndsWell(parse: Parser, last: Result<seq<SourceFile>, AllocationError>) {
    exists head :: last.Ok? && IsLoadable(parse, last.value) && HasHead(parse, last.value, head)
  }

  // Without the bound, a run of allocations succeeds and leaves a loadable
  // single-headed directory exactly if none of the ids it is about to form is
  // declared in the directory it starts from.
  lemma AllocationsLoadableIffIdsFresh(
      parse: Parser, template: Template, dir: seq<SourceFile>, slugs: seq<string>)
    requires IsFaithful(parse, template)
    requires IsSingleHeaded(parse, dir) && MaxNumber(dir).Some? && AllSlugs(slugs)
    ensures EndsWell(parse, AllocateAll(parse, template, dir, slugs)) <==> IdsFresh(parse, dir, slugs)
  {
    RunIsDecided(parse, template, dir, slugs);
  }

  lemma {:induction false} RunIsDecided(
      parse: Parser, template: Template, dir: seq<SourceFile>, slugs: seq<string>)
    requires CanAllocate(parse, template, dir, slugs)
    ensures EndsWell(parse, AllocateAll(parse, template, dir, slugs)) <==> IdsFresh(parse, dir, slugs)
    decreases |slugs|
  {
    if slugs != [] {
      var isNew, dir' := FirstAllocation(parse, template, dir, slugs);
      if isNew { RunIsDecided(parse, template, dir', slugs[1..]); }
    }
  }

  ghost predicate CanAllocate(parse: Parser, template: Template, dir: seq<SourceFile>,
                              slugs: seq<string>)
    ensures CanAllocate(parse, template, dir, slugs) ==> MaxNumber(dir).Some?
  {
    exists head ::
      && IsLoadable(parse, dir) && HasHead(parse, dir, head)
      && IsFaithful(parse, template) && MaxNumber(dir).Some? && AllSlugs(slugs)
  }

  // A clash decides the run; a fresh id leaves the rest of it to be decided.
  lemma FirstAllocation(parse: Parser, template: Template, dir: seq<SourceFile>, slugs: seq<string>)
    returns (isNew: bool, dir': seq<SourceFile>)
    requires CanAllocate(parse, template, dir, slugs) && slugs != []
    ensures !isNew ==>
            && !IdsFresh(parse, dir, slugs)
            && !EndsWell(parse, AllocateAll(parse, template, dir, slugs))
    ensures isNew ==>
            && CanAllocate(parse, template, dir', slugs[1..])
            && AllocateAll(parse, template, dir, slugs) == AllocateAll(parse, template, dir', slugs[1..])
            && (IdsFresh(parse, dir', slugs[1..]) <==> IdsFresh(parse, dir, slugs))
  {
    isNew, dir' := RevisionFor(dir, slugs[0]) !in GraphOf(parse, dir), dir;
    if isNew {
      var head :| IsLoadable(parse, dir) && HasHead(parse, dir, head);
      dir' := FirstSucceeds(parse, template, dir, slugs, head);
      StillAllocates(parse, template, dir', slugs, RevisionFor(dir, slugs[0]));
    } else {
      FirstClashes(parse, template, dir, slugs);
    }
  }

  lemma StillAllocates(parse: Parser, template: Template, dir: seq<SourceFile>,
                       slugs: seq<string>, head: string)
    requires IsLoadable(parse, dir) && HasHead(parse, dir, head)
    requires IsFaithful(parse, template) && MaxNumber(dir).Some?
    requires slugs != [] && AllSlugs(slugs)
    ensures CanAllocate(parse, template, dir, slugs[1..])
  {
    assert AllSlugs(slugs[1..]);
  }

  lemma FirstSucceeds(parse: Parser, template: Template, dir: seq<SourceFile>,
                      slugs: seq<string>, head: string)
    returns (dir': seq<SourceFile>)
    requires IsLoadable(parse, dir) && HasHead(parse, dir, head)
    requires IsFaithful(parse, template) && MaxNumber(dir).Some?
    requires slugs != [] && IsSlug(slugs[0])
    requires RevisionFor(dir, slugs[0]) !in GraphOf(parse, dir)
    ensures IsLoadable(parse, dir') && HasHead(parse, dir', RevisionFor(dir, slugs[0]))
    ensures MaxNumber(dir').Some?
    ensures AllocateAll(parse, template, dir, slugs) == AllocateAll(parse, template, dir', slugs[1..])
    ensures IdsFresh(parse, dir', slugs[1..]) <==> IdsFresh(parse, dir, slugs)
  {
    AllocatedFile(parse, template, dir, slugs[0], head);
    AllocationStep(parse, template, dir, slugs[0], head);
    dir' := dir + [Allocate(parse, template, dir, slugs[0]).value];
    FreshnessSurvives(parse, dir, dir', slugs, head);
  }

  lemma FirstClashes(parse: Parser, template: Template, dir: seq<SourceFile>, slugs: seq<string>)
    requires CanAllocate(parse, template, dir, slugs) && slugs != []
    requires RevisionFor(dir, slugs[0]) in GraphOf(parse, dir)
    ensures !IdsFresh(parse, dir, slugs)
    ensures !EndsWell(parse, AllocateAll(parse, template, dir, slugs))
  {
    var head :| IsLoadable(parse, dir) && HasHead(parse, dir, head);
    AllocatedFile(parse, template, dir, slugs[0], head);
    var f := Allocate(parse, template, dir, slugs[0]).value;
    DistinctStep(parse, dir, f);
    ClashPersists(parse, template, dir + [f], slugs[1..]);
    assert RevisionFor(dir, slugs[0]) == LaterRevision(dir, 0, slugs[0]);
  }

  // A repeated id is never repaired by later allocations.
  lemma ClashPersists(parse: Parser, template: Template, dir: seq<SourceFile>,
                      slugs: seq<string>)
    requires !DistinctRevisions(parse, dir)
    ensures !EndsWell(parse, AllocateAll(parse, template, dir, slugs))
  {
    var last := AllocateAll(parse, template, dir, slugs);
    if last.Ok? && DistinctRevisions(parse, last.value) {
      AllocateAllExtends(parse, template, dir, slugs);
      DistinctPrefix(parse, dir, last.value);
    }
  }

  // The first allocation declares a number that no later one uses, so it takes
  // no later id away.
  lemma FreshnessSurvives(parse: Parser, dir: seq<SourceFile>, dir': seq<SourceFile>,
                          slugs: seq<string>, head: string)
    requires slugs != [] && MaxNumber(dir).Some?
    requires RevisionFor(dir, slugs[0]) !in GraphOf(parse, dir)
    requires MaxNumber(dir') == Some(MaxNumber(dir).value + 1)
    requires GraphOf(parse, dir') == GraphOf(parse, dir)[RevisionFor(dir, slugs[0]) := {head}]
    ensures IdsFresh(parse, dir', slugs[1..]) <==> IdsFresh(parse, dir, slugs)
  {
    forall i | 0 <= i < |slugs| - 1
      ensures LaterRevision(dir', i, slugs[1..][i]) == LaterRevision(dir, i + 1, slugs[i + 1])
      ensures LaterRevision(dir, i + 1, slugs[i + 1]) != RevisionFor(dir, slugs[0])
    {
      NumbersSeparate(MaxNumber(dir).value + 1, MaxNumber(dir).value + 2 + i, slugs[0], slugs[i + 1]);
    }
    assert LaterRevision(dir, 0, slugs[0]) == RevisionFor(dir, slugs[0]);
    if IdsFresh(parse, dir', slugs[1..]) {
      forall i | 0 <= i < |slugs| ensures LaterRevision(dir, i, slugs[i]) !in GraphOf(parse, dir) {
        if i > 0 { assert LaterRevision(dir', i - 1, slugs[1..][i - 1]) !in GraphOf(parse, dir'); }
      }
    }
  }

  lemma NumbersSeparate(m: nat, n: nat, a: string, b: string)
    requires m != n
    ensures NewRevision(m, a) != NewRevision(n, b)
  {
    FileNumber(m, a);
    FileNumber(n, b);
  }

  lemma {:induction false} AllocateAllExtends(parse: Parser, template: Template,
                                              dir: seq<SourceFile>, slugs: seq<string>)
    requires AllocateAll(parse, template, dir, slugs).Ok?
    ensures dir <= AllocateAll(parse, template, dir, slugs).value
    decreases |slugs|
  {
    if slugs != [] {
      AllocateAllExtends(parse, template,
                         dir + [Allocate(parse, template, dir, slugs[0]).value], slugs[1..]);
    }
  }

  lemma DistinctPrefix(parse: Parser, a: seq<SourceFile>, b: seq<SourceFile>)
    requires a <= b && DistinctRevisions(parse, b)
    ensures DistinctRevisions(parse, a)
  {
    assert forall i :: 0 <= i < |a| ==> a[i] == b[i];
  }

  // Every file read as one root migration with the id 2_b.
  function DeclaresTwoB(content: seq<Framing.byte>): Module {
    Module([Assignment(["revision"], Literally(MigrationTree.Text("2_b"))),
            Assignment(["down_revision"], Literally(NoneValue))])
  }

  // Such a clash is reachable: the one file 1_a.py declaring 2_b is loadable
  // and single-headed, and the next allocation for the slug b forms 2_b again.
  lemma ClashIsReachable(content: seq<Framing.byte>)
    ensures var dir := [SourceFile("1_a.py", content)];
            && IsLoadable(DeclaresTwoB, dir) && HasHead(DeclaresTwoB, dir, "2_b")
            && MaxNumber(dir) == Some(1) && IsSlug("b")
            && !IdsFresh(DeclaresTwoB, dir, ["b"])
  {
    OneRootGraph(content);
    OneFileNumber(content);
    var slug := "b";
    assert LaterRevision([SourceFile("1_a.py", content)], 0, [slug][0]) == "2_b";
  }

  lemma OneFileNumber(content: seq<Framing.byte>)
    ensures MaxNumber([SourceFile("1_a.py", content)]) == Some(1)
    ensures NewRevision(2, "b") == "2_b"
  {
    NewNumber(1, "a.py");
    assert Render(1) == "1" && Render(2) == "2";
    assert Render(1) + "_" + "a.py" == "1_a.py";
    assert Render(2) + "_" + "b" == "2_b";
  }

  lemma OneRootGraph(content: seq<Framing.byte>)
    ensures var dir := [SourceFile("1_a.py", content)];
            && GraphOf(DeclaresTwoB, dir) == map["2_b" := {}]
            && AllDeclare(DeclaresTwoB, dir)
            && Heads(GraphOf(DeclaresTwoB, dir)) == {"2_b"}
            && Closed(GraphOf(DeclaresTwoB, dir)) && Acyclic(GraphOf(DeclaresTwoB, dir))
  {
    var dir := [SourceFile("1_a.py", content)];
    assert ReadRevision(DeclaresTwoB, dir[0]) == Ok("2_b");
    assert ReadParents(DeclaresTwoB, dir[0]) == Ok({});
    OneFile(DeclaresTwoB, dir[0], "2_b");
    var g: Graph := map["2_b" := {}];
    assert Parents(g) == {};
    forall c ensures !OnCycle(g, c) {
      if w :| |w| >= 2 && IsWalkBetween(g, w, c, c) { WalkEndsAtParent(g, w); }
    }
  }

  lemma OneFile(parse: Parser, f: SourceFile, r: string)
    requires ReadRevision(parse, f) == Ok(r) && ReadParents(parse, f) == Ok({})
    ensures GraphOf(parse, [f]) == map[r := {}]
  {
    var g := GraphOf(parse, [f]);
    assert f in [f];
    assert DeclaredRevisions(parse, [f]) == {r} && ParentsOf(parse, [f], r) == {};
  }

  // The fingerprinting script accepts what the allocator leaves behind, and
  // finds the one head.
  lemma ReadyDirectoryIsDescribed(parse: Parser, hash: seq<Framing.byte> -> string,
                                  dir: seq<SourceFile>)
    requires IsReady(parse, dir)
    requires forall f :: f in dir ==> Framing.Encodable(EntryOf(f))
    requires IsSha256Digest(
               "sha256:" + hash(Framing.Stream(Entries(SortOn(NameOf, dir)))))
    ensures Describe(parse, hash, dir).Ok?
    ensures exists head :: HasHead(parse, dir, head)
              && Elements(Describe(parse, hash, dir).value.heads) == {head}
  {
    var head :| IsLoadable(parse, dir) && HasHead(parse, dir, head);
    SortedDirectory(parse, dir);
    DescribeMeaning(parse, hash, dir);
    assert head in GraphOf(parse, dir);
  }

  // Sorting a directory changes neither its files' readability nor its graph.
  lemma SortedDirectory(parse: Parser, dir: seq<SourceFile>)
    requires IsDirectory(dir) && AllDeclare(parse, dir) && DistinctRevisions(parse, dir)
    ensures var files := SortOn(NameOf, dir);
            && (forall f :: f in files <==> f in dir)
            && AllDeclare(parse, files) && DistinctRevisions(parse, files)
            && GraphOf(parse, files) == GraphOf(parse, dir)
  {
    var files := SortOn(NameOf, dir);
    SortOnElements(NameOf, dir);
    SortOnIncreasing(NameOf, dir);
    SameMembers(files, dir);
    SameMembersSameGraph(parse, files, dir);
    forall i, j | 0 <= i < j < |files|
      ensures ReadRevision(parse, files[i]) != ReadRevision(parse, files[j])
    {
      Trichotomy(NameOf(files[i]), NameOf(files[j]));
      assert files[i] in files && files[j] in files;
      DistinctMembers(parse, dir, files[i], files[j]);
    }
    forall i | 0 <= i < |files| ensures Declares(parse, files[i]) {
      assert files[i] in files;
    }
  }

  lemma SameMembers(a: seq<SourceFile>, b: seq<SourceFile>)
    requires Elements(a) == Elements(b)
    ensures forall f :: f in a <==> f in b
  {
    forall f ensures f in a <==> f in b {
      assert f in Elements(a) <==> f in Elements(b);
    }
  }

  lemma SameMembersSameGraph(parse: Parser, a: seq<SourceFile>, b: seq<SourceFile>)
    requires forall f :: f in a <==> f in b
    ensures GraphOf(parse, a) == GraphOf(parse, b)
  {
    assert DeclaredRevisions(parse, a) == DeclaredRevisions(parse, b);
    forall r ensures ParentsOf(parse, a, r) == ParentsOf(parse, b, r) {
    }
  }

  lemma DistinctMembers(parse: Parser, dir: seq<SourceFile>, x: SourceFile, y: SourceFile)
    requires DistinctRevisions(parse, dir) && x in dir && y in dir && x != y
    ensures ReadRevision(parse, x) != ReadRevision(parse, y)
  {
    var a :| 0 <= a < |dir| && dir[a] == x;
    var b :| 0 <= b < |dir| && dir[b] == y;
    assert a < b || b < a;
  }

  // ---------------------------------------------------------- forks

  // Two branches that allocate from the same directory and then merge: the
  // ids differ exactly when the slugs do, the merged graph has exactly the two
  // heads, and every further allocation is refused.
  lemma ParallelAllocationsFork(parse: Parser, template: Template, dir: seq<SourceFile>,
                                head: string, slugA: string, slugB: string, slug: string)
    requires IsFaithful(parse, template)
    requires IsLoadable(parse, dir) && HasHead(parse, dir, head) && MaxNumber(dir).Some?
    requires IsSlug(slugA) && IsSlug(slugB) && slugA != slugB && IsSlug(slug)
    requires RevisionFor(dir, slugA) !in GraphOf(parse, dir)
    requires RevisionFor(dir, slugB) !in GraphOf(parse, dir)
    ensures var a, b := Allocate(parse, template, dir, slugA), Allocate(parse, template, dir, slugB);
            && a.Ok? && b.Ok?
            && var merged := dir + [a.value] + [b.value];
            && Acyclic(GraphOf(parse, merged))
            && Heads(GraphOf(parse, merged)) == {RevisionFor(dir, slugA), RevisionFor(dir, slugB)}
            && Allocate(parse, template, merged, slug) == Err(NotSingleHeaded)
  {
    SlugsSeparate(MaxNumber(dir).value + 1, slugA, slugB);
    AllocatedFile(parse, template, dir, slugA, head);
    AllocatedFile(parse, template, dir, slugB, head);
    ForkedGraph(parse, dir, Allocate(parse, template, dir, slugA).value,
                Allocate(parse, template, dir, slugB).value, head);
  }

  lemma ForkedGraph(parse: Parser, dir: seq<SourceFile>, a: SourceFile, b: SourceFile, head: string)
    requires IsLoadable(parse, dir) && Heads(GraphOf(parse, dir)) == {head}
    requires ReadParents(parse, a) == ReadParents(parse, b) == Ok({head})
    requires ReadRevision(parse, a).Ok? && ReadRevision(parse, b).Ok?
    requires ReadRevision(parse, a) != ReadRevision(parse, b)
    requires ReadRevision(parse, a).value !in GraphOf(parse, dir)
    requires ReadRevision(parse, b).value !in GraphOf(parse, dir)
    ensures var g, heads := GraphOf(parse, dir + [a] + [b]), Heads(GraphOf(parse, dir + [a] + [b]));
            && Acyclic(g)
            && heads == {ReadRevision(parse, a).value, ReadRevision(parse, b).value}
            && |heads| == 2
  {
    GraphAppend(parse, dir, a);
    GraphAppend(parse, dir + [a], b);
    Fork(GraphOf(parse, dir), ReadRevision(parse, a).value, ReadRevision(parse, b).value, head);
  }

  lemma Fork(g: Graph, a: string, b: string, head: string)
    requires Closed(g) && Acyclic(g) && Heads(g) == {head}
    requires a !in g && b !in g && a != b
    ensures Acyclic(g[a := {head}][b := {head}])
    ensures Heads(g[a := {head}][b := {head}]) == {a, b}
    ensures |{a, b}| == 2
  {
    assert head in g;
    GrowthIsAcyclic(g, a, head);
    GrowthHeads(g, a, head);
    GrowthIsAcyclic(g[a := {head}], b, head);
    GrowthHeads(g[a := {head}], b, head);
  }

  lemma SlugsSeparate(number: nat, a: string, b: string)
    ensures NewRevision(number, a) == NewRevision(number, b) <==> a == b
  {
    var n := |Render(number)| + 1;
    assert NewRevision(number, a)[n..] == a && NewRevision(number, b)[n..] == b;
  }
}
