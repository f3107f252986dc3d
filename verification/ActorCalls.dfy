// audit_actor_provenance_report: a stateful visitor that numbers every call of
// an audit facade within its scope, and the inventory built from it.

module ActorCalls {
  import opened Basics
  import opened Decimal
  import opened LexOrder
  import T = Text

  // ---------------------------------------------------------- syntax trees

  // What the called expression is, as far as the visitor looks.
  datatype Callee = Name(id: string) | Attribute(attr: string) | OtherCallee

  // Class and function definitions open a scope. The children are all child
  // nodes in field order; those of a call include the called expression.
  datatype Node =
    | Scope(name: string, children: seq<Node>)
    | Call(callee: Callee, keywords: seq<Option<string>>, children: seq<Node>)
    | Plain(children: seq<Node>)

  const FACADES: set<string> := {"record_audit_event", "stage_audit_event"}

  function FacadeName(callee: Callee): Option<string> {
    match callee
    case Name(id) => if id in FACADES then Some(id) else None
    case Attribute(attr) => if attr in FACADES then Some(attr) else None
    case OtherCallee => None
  }

  function JoinDots(names: seq<string>): string {
    if names == [] then ""
    else if |names| == 1 then names[0]
    else names[0] + "." + JoinDots(names[1..])
  }

  function ScopeText(scope: seq<string>): string {
    if JoinDots(scope) == "" then "<module>" else JoinDots(scope)
  }

  // ---------------------------------------------------------- reference

  datatype FacadeCall = FacadeCall(scope: string, facade: string, typed: bool)

  function OwnCall(node: Node, scope: seq<string>): seq<FacadeCall> {
    if node.Call? then RecordedCall(node.callee, node.keywords, scope) else []
  }

  function RecordedCall(callee: Callee, keywords: seq<Option<string>>, scope: seq<string>)
    : seq<FacadeCall>
  {
    if FacadeName(callee).None? then []
    else [FacadeCall(ScopeText(scope), FacadeName(callee).value, Some("actor") in keywords)]
  }

  function Inside(node: Node, scope: seq<string>): seq<string> {
    if node.Scope? then scope + [node.name] else scope
  }

  // Every facade call of a tree in source order, with the scope around it.
  function Calls(node: Node, scope: seq<string>): seq<FacadeCall> {
    OwnCall(node, scope) + CallsAll(node.children, Inside(node, scope))
  }

  function CallsAll(nodes: seq<Node>, scope: seq<string>): seq<FacadeCall> {
    if nodes == [] then [] else Calls(nodes[0], scope) + CallsAll(nodes[1..], scope)
  }

  // The number of facade calls, counted without any scope.
  function FacadeCallCount(node: Node): nat {
    (if node.Call? && FacadeName(node.callee).Some? then 1 else 0)
    + FacadeCallCounts(node.children)
  }

  function FacadeCallCounts(nodes: seq<Node>): nat {
    if nodes == [] then 0 else FacadeCallCount(nodes[0]) + FacadeCallCounts(nodes[1..])
  }

  lemma {:induction false} CallsCounted(node: Node, scope: seq<string>)
    ensures |Calls(node, scope)| == FacadeCallCount(node)
    decreases node
  {
    CallsAllCounted(node.children, Inside(node, scope));
  }

  lemma {:induction false} CallsAllCounted(nodes: seq<Node>, scope: seq<string>)
    ensures |CallsAll(nodes, scope)| == FacadeCallCounts(nodes)
    decreases nodes
  {
    if nodes != [] {
      CallsCounted(nodes[0], scope);
      CallsAllCounted(nodes[1..], scope);
    }
  }

  // ---------------------------------------------------------- positions

  // A place in a tree: the child indices on the way down from the root.
  type Position = seq<nat>

  predicate HasNode(node: Node, pos: Position)
    decreases pos
  {
    pos == [] || (pos[0] < |node.children| && HasNode(node.children[pos[0]], pos[1..]))
  }

  function NodeAt(node: Node, pos: Position): Node
    requires HasNode(node, pos)
    decreases pos
  {
    if pos == [] then node else NodeAt(node.children[pos[0]], pos[1..])
  }

  // The names of the definitions around the node at `pos`, outermost first.
  function Around(node: Node, pos: Position): seq<string>
    requires HasNode(node, pos)
    decreases pos
  {
    if pos == [] then []
    else (if node.Scope? then [node.name] else []) + Around(node.children[pos[0]], pos[1..])
  }

  // A call of one of the two facades, by its plain name or as an attribute.
  predicate CallsFacade(node: Node, facade: string) {
    && node.Call?
    && (facade == "record_audit_event" || facade == "stage_audit_event")
    && (node.callee == Name(facade) || node.callee == Attribute(facade))
  }

  predicate HoldsFacadeCall(node: Node, pos: Position) {
    && HasNode(node, pos)
    && var n := NodeAt(node, pos);
       CallsFacade(n, "record_audit_event") || CallsFacade(n, "stage_audit_event")
  }

  // The record of a node below the definitions of the given names.
  ghost predicate Records(call: FacadeCall, n: Node, names: seq<string>) {
    && CallsFacade(n, call.facade)
    && (call.typed <==> Some("actor") in n.keywords)
    && call.scope == ScopeText(names)
  }

  // Source order: a node comes before its children, and those from left to right.
  predicate Before(a: Position, b: Position)
    decreases b
  {
    && b != []
    && (a == [] || a[0] < b[0] || (a[0] == b[0] && Before(a[1..], b[1..])))
  }

  lemma {:induction false} BeforeIrreflexive(a: Position)
    ensures !Before(a, a)
    decreases a
  {
    if a != [] { BeforeIrreflexive(a[1..]); }
  }

  // The positions of the facade calls, of a tree and of a list of trees whose
  // first one is child number i.
  function Positions(node: Node): seq<Position> {
    (if HoldsFacadeCall(node, []) then [[]] else []) + PositionsAll(node.children, 0)
  }

  function PositionsAll(nodes: seq<Node>, i: nat): seq<Position> {
    if nodes == [] then []
    else Under(i, Positions(nodes[0])) + PositionsAll(nodes[1..], i + 1)
  }

  function Under(i: nat, ps: seq<Position>): seq<Position> {
    seq(|ps|, k requires 0 <= k < |ps| => [i] + ps[k])
  }

  predicate HoldsIn(nodes: seq<Node>, i: nat, pos: Position) {
    && pos != [] && i <= pos[0] < i + |nodes|
    && HoldsFacadeCall(nodes[pos[0] - i], pos[1..])
  }

  // The visitor records each facade call of a tree exactly once, in source
  // order, with the facade and kind of its position and the definitions around.
  lemma EachCallOnce(node: Node, scope: seq<string>)
    ensures var ps, calls := Positions(node), Calls(node, scope);
            && |calls| == |ps|
            && (forall pos :: HoldsFacadeCall(node, pos) <==> pos in ps)
            && (forall k :: 0 <= k < |ps| ==>
                  HoldsFacadeCall(node, ps[k])
                  && Records(calls[k], NodeAt(node, ps[k]), scope + Around(node, ps[k])))
            && (forall j, k :: 0 <= j < k < |ps| ==> Before(ps[j], ps[k]))
            && NoDuplicates(ps)
  {
    var ps := Positions(node);
    OnePositionEach(node, scope);
    forall k | 0 <= k < |ps|
      ensures HoldsFacadeCall(node, ps[k])
      ensures Records(Calls(node, scope)[k], NodeAt(node, ps[k]), scope + Around(node, ps[k]))
    {
      RecordedAt(node, scope, k);
    }
    forall pos | HoldsFacadeCall(node, pos) ensures pos in ps {
      IsRecorded(node, pos);
    }
    forall j, k | 0 <= j < k < |ps| ensures Before(ps[j], ps[k]) && ps[j] != ps[k] {
      InOrder(node, j, k);
      BeforeIrreflexive(ps[j]);
    }
  }

  lemma {:induction false} OnePositionEach(node: Node, scope: seq<string>)
    ensures |Calls(node, scope)| == |Positions(node)|
    decreases node
  {
    OnePositionEachAll(node.children, 0, Inside(node, scope));
  }

  lemma {:induction false} OnePositionEachAll(nodes: seq<Node>, i: nat, scope: seq<string>)
    ensures |CallsAll(nodes, scope)| == |PositionsAll(nodes, i)|
    decreases nodes
  {
    if nodes != [] {
      OnePositionEach(nodes[0], scope);
      OnePositionEachAll(nodes[1..], i + 1, scope);
    }
  }

  lemma {:induction false} RecordedAt(node: Node, scope: seq<string>, k: nat)
    requires k < |Positions(node)| == |Calls(node, scope)|
    ensures HoldsFacadeCall(node, Positions(node)[k])
    ensures var pos := Positions(node)[k];
            Records(Calls(node, scope)[k], NodeAt(node, pos), scope + Around(node, pos))
    decreases node
  {
    var own := |OwnCall(node, scope)|;
    NodeAtEntry(node, scope, k);
    if k >= own {
      OnePositionEachAll(node.children, 0, Inside(node, scope));
      RecordedAtAll(node.children, 0, Inside(node, scope), k - own);
      InChildren(Calls(node, scope)[k], node, Positions(node)[k], scope);
    } else {
      OwnEntry(node, scope);
    }
  }

  lemma OwnEntry(node: Node, scope: seq<string>)
    requires OwnCall(node, scope) != []
    ensures HoldsFacadeCall(node, [])
    ensures Records(OwnCall(node, scope)[0], NodeAt(node, []), scope + Around(node, []))
  {
    assert scope + Around(node, []) == scope;
  }

  // An entry of a node is its own call or comes from its children.
  lemma NodeAtEntry(node: Node, scope: seq<string>, k: nat)
    requires k < |Positions(node)| == |Calls(node, scope)|
    ensures var own, pos := |OwnCall(node, scope)|, Positions(node)[k];
            if k < own then pos == [] && Calls(node, scope)[k] == OwnCall(node, scope)[0]
            else
              && k - own < |PositionsAll(node.children, 0)|
              && k - own < |CallsAll(node.children, Inside(node, scope))|
              && pos == PositionsAll(node.children, 0)[k - own]
              && Calls(node, scope)[k] == CallsAll(node.children, Inside(node, scope))[k - own]
  {
  }

  lemma InChildren(call: FacadeCall, node: Node, pos: Position, scope: seq<string>)
    requires HoldsIn(node.children, 0, pos)
    requires RecordsIn(call, node.children, 0, pos, Inside(node, scope))
    ensures HoldsFacadeCall(node, pos)
    ensures Records(call, NodeAt(node, pos), scope + Around(node, pos))
  {
    AroundStep(node, pos, scope);
  }

  lemma {:induction false} RecordedAtAll(nodes: seq<Node>, i: nat, scope: seq<string>, k: nat)
    requires k < |PositionsAll(nodes, i)| == |CallsAll(nodes, scope)|
    ensures var pos := PositionsAll(nodes, i)[k];
            HoldsIn(nodes, i, pos) && RecordsIn(CallsAll(nodes, scope)[k], nodes, i, pos, scope)
    decreases nodes
  {
    OnePositionEach(nodes[0], scope);
    var first, pos, call := |Positions(nodes[0])|, PositionsAll(nodes, i)[k], CallsAll(nodes, scope)[k];
    ListAt(nodes, i, scope, k);
    if k < first {
      RecordedAt(nodes[0], scope, k);
      InFirst(call, nodes, i, Positions(nodes[0])[k], scope);
    } else {
      RecordedAtAll(nodes[1..], i + 1, scope, k - first);
      InOthers(call, nodes, i, pos, scope);
    }
  }

  ghost predicate RecordsIn(call: FacadeCall, nodes: seq<Node>, i: nat, pos: Position,
                            scope: seq<string>)
    requires HoldsIn(nodes, i, pos)
  {
    Records(call, NodeAt(nodes[pos[0] - i], pos[1..]), scope + Around(nodes[pos[0] - i], pos[1..]))
  }

  lemma InFirst(call: FacadeCall, nodes: seq<Node>, i: nat, q: Position, scope: seq<string>)
    requires nodes != [] && HoldsFacadeCall(nodes[0], q)
    requires Records(call, NodeAt(nodes[0], q), scope + Around(nodes[0], q))
    ensures HoldsIn(nodes, i, [i] + q) && RecordsIn(call, nodes, i, [i] + q, scope)
  {
    assert ([i] + q)[1..] == q;
  }

  lemma InOthers(call: FacadeCall, nodes: seq<Node>, i: nat, pos: Position, scope: seq<string>)
    requires nodes != [] && HoldsIn(nodes[1..], i + 1, pos)
    requires RecordsIn(call, nodes[1..], i + 1, pos, scope)
    ensures HoldsIn(nodes, i, pos) && RecordsIn(call, nodes, i, pos, scope)
  {
    assert nodes[1..][pos[0] - (i + 1)] == nodes[pos[0] - i];
  }

  // An entry of a list comes from its first tree or from the others.
  lemma ListAt(nodes: seq<Node>, i: nat, scope: seq<string>, k: nat)
    requires nodes != [] && |Positions(nodes[0])| == |Calls(nodes[0], scope)|
    requires k < |PositionsAll(nodes, i)| == |CallsAll(nodes, scope)|
    ensures var first, pos := |Positions(nodes[0])|, PositionsAll(nodes, i)[k];
            if k < first then
              && pos == [i] + Positions(nodes[0])[k]
              && CallsAll(nodes, scope)[k] == Calls(nodes[0], scope)[k]
            else
              && |PositionsAll(nodes[1..], i + 1)| == |CallsAll(nodes[1..], scope)|
              && k - first < |PositionsAll(nodes[1..], i + 1)|
              && pos == PositionsAll(nodes[1..], i + 1)[k - first]
              && CallsAll(nodes, scope)[k] == CallsAll(nodes[1..], scope)[k - first]
  {
  }

  lemma AroundStep(node: Node, pos: Position, scope: seq<string>)
    requires HasNode(node, pos) && pos != []
    ensures Inside(node, scope) + Around(node.children[pos[0]], pos[1..])
            == scope + Around(node, pos)
  {
  }

  lemma {:induction false} IsRecorded(node: Node, pos: Position)
    requires HoldsFacadeCall(node, pos)
    ensures pos in Positions(node)
    decreases node
  {
    if pos != [] { IsRecordedIn(node.children, 0, pos); }
  }

  lemma {:induction false} IsRecordedIn(nodes: seq<Node>, i: nat, pos: Position)
    requires HoldsIn(nodes, i, pos)
    ensures pos in PositionsAll(nodes, i)
    decreases nodes
  {
    if pos[0] == i {
      IsRecorded(nodes[0], pos[1..]);
      var ps := Positions(nodes[0]);
      var k :| 0 <= k < |ps| && ps[k] == pos[1..];
      assert Under(i, ps)[k] == pos;
    } else {
      IsRecordedIn(nodes[1..], i + 1, pos);
    }
  }

  lemma {:induction false} InOrder(node: Node, j: nat, k: nat)
    requires j < k < |Positions(node)|
    ensures Before(Positions(node)[j], Positions(node)[k])
    decreases node
  {
    var own := if HoldsFacadeCall(node, []) then 1 else 0;
    if j >= own {
      InOrderAll(node.children, 0, j - own, k - own);
    } else {
      OnePositionEachAll(node.children, 0, []);
      RecordedAtAll(node.children, 0, [], k - own);
    }
  }

  lemma {:induction false} InOrderAll(nodes: seq<Node>, i: nat, j: nat, k: nat)
    requires j < k < |PositionsAll(nodes, i)|
    ensures Before(PositionsAll(nodes, i)[j], PositionsAll(nodes, i)[k])
    decreases nodes
  {
    var first := |Positions(nodes[0])|;
    if k < first {
      InOrder(nodes[0], j, k);
    } else if j >= first {
      InOrderAll(nodes[1..], i + 1, j - first, k - first);
    } else {
      OnePositionEachAll(nodes[1..], i + 1, []);
      RecordedAtAll(nodes[1..], i + 1, [], k - first);
    }
  }

  // ---------------------------------------------------------- scope texts

  // As far as a Python identifier goes here.
  predicate IsName(name: string) { name != "" && '.' !in name && '<' !in name }

  predicate HasNames(node: Node)
    decreases node
  {
    && (node.Scope? ==> IsName(node.name))
    && forall i :: 0 <= i < |node.children| ==> HasNames(node.children[i])
  }

  lemma {:induction false} JoinThenSplit(names: seq<string>)
    requires names != [] && forall n :: n in names ==> '.' !in n
    ensures T.Split(JoinDots(names), '.') == names
  {
    if |names| == 1 {
      T.SplitWhole(names[0], '.');
    } else {
      JoinThenSplit(names[1..]);
      T.SplitFirst(names[0], '.', JoinDots(names[1..]));
      assert names[0] + "." + JoinDots(names[1..]) == names[0] + ['.'] + JoinDots(names[1..]);
      assert names == [names[0]] + names[1..];
    }
  }

  // The recorded scope splits at its dots into the names, outermost first;
  // only a call outside all definitions is recorded as the module's.
  lemma ScopeTextExactly(names: seq<string>)
    requires forall n :: n in names ==> IsName(n)
    ensures names != [] ==> T.Split(ScopeText(names), '.') == names
    ensures ScopeText(names) == "<module>" <==> names == []
  {
    if names != [] {
      JoinThenSplit(names);
      assert IsName(names[0]) && JoinDots(names)[0] == names[0][0];
      assert names[0][0] in names[0];
    }
  }

  lemma {:induction false} AroundNames(node: Node, pos: Position)
    requires HasNames(node) && HasNode(node, pos)
    ensures forall n :: n in Around(node, pos) ==> IsName(n)
    decreases pos
  {
    if pos != [] { AroundNames(node.children[pos[0]], pos[1..]); }
  }

  // On a whole tree: every recorded scope names the definitions around its
  // call, and calls share a scope exactly if these are the same.
  lemma RecordedScopes(node: Node, j: nat, k: nat)
    requires HasNames(node) && j < |Calls(node, [])| && k < |Calls(node, [])|
    ensures |Calls(node, [])| == |Positions(node)|
    ensures HasNode(node, Positions(node)[j]) && HasNode(node, Positions(node)[k])
    ensures var calls, a, b := Calls(node, []), Around(node, Positions(node)[j]),
                               Around(node, Positions(node)[k]);
            && (if a == [] then calls[j].scope == "<module>" else T.Split(calls[j].scope, '.') == a)
            && (calls[j].scope == calls[k].scope <==> a == b)
  {
    EachCallOnce(node, []);
    var p, q := Positions(node)[j], Positions(node)[k];
    AroundNames(node, p);
    AroundNames(node, q);
    ScopeTextExactly(Around(node, p));
    ScopeTextExactly(Around(node, q));
    assert [] + Around(node, p) == Around(node, p) && [] + Around(node, q) == Around(node, q);
  }

  // ---------------------------------------------------------- sites

  datatype Site = Site(path: string, scope: string, facade: string, ordinal: nat, typed: bool)

  // How many of the calls share a scope and a facade.
  function Count(calls: seq<FacadeCall>, scope: string, facade: string): nat {
    if calls == [] then 0
    else
      Count(calls[..|calls| - 1], scope, facade)
      + var c := calls[|calls| - 1]; if c.scope == scope && c.facade == facade then 1 else 0
  }

  // Each call numbered after the earlier ones of its scope and facade.
  function Sites(path: string, calls: seq<FacadeCall>): seq<Site> {
    if calls == [] then []
    else
      var before, c := calls[..|calls| - 1], calls[|calls| - 1];
      Sites(path, before)
      + [Site(path, c.scope, c.facade, Count(before, c.scope, c.facade) + 1, c.typed)]
  }

  // ---------------------------------------------------------- the visitor

  class Visitor {
    const path: string
    var scope: seq<string>
    var ordinals: map<(string, string), nat>
    var sites: seq<Site>
    ghost var calls: seq<FacadeCall>

    ghost predicate Valid()
      reads this
    {
      && sites == Sites(path, calls)
      && forall s, f :: Ordinal(s, f) == Count(calls, s, f)
    }

    // self.ordinals.get((scope, facade), 0)
    function Ordinal(s: string, f: string): nat
      reads this
    {
      if (s, f) in ordinals then ordinals[(s, f)] else 0
    }

    constructor (path: string)
      ensures Valid() && this.path == path && scope == [] && calls == []
    {
      this.path := path;
      scope, ordinals, sites, calls := [], map[], [], [];
    }

    // Visiting a node records its facade calls in order, once each, and leaves
    // the scope stack as it was.
    method Visit(node: Node)
      requires Valid()
      modifies this
      ensures Valid() && scope == old(scope)
      ensures calls == old(calls) + Calls(node, old(scope))
      decreases node, 2
    {
      CallsOf(calls, node, scope);
      match node
      case Scope(name, _) => VisitScope(node, name);
      case Call(callee, keywords, _) =>
        VisitCall(callee, keywords);
        GenericVisit(node);
      case Plain(_) => GenericVisit(node);
    }

    method VisitScope(node: Node, name: string)
      requires Valid() && node.Scope? && node.name == name
      modifies this
      ensures Valid() && scope == old(scope)
      ensures calls == old(calls) + CallsAll(node.children, old(scope) + [name])
      decreases node, 1
    {
      scope := scope + [name];
      GenericVisit(node);
      scope := scope[..|scope| - 1];
    }

    method VisitCall(callee: Callee, keywords: seq<Option<string>>)
      requires Valid()
      modifies this
      ensures Valid() && scope == old(scope)
      ensures calls == old(calls) + RecordedCall(callee, keywords, old(scope))
    {
      var facade := FacadeName(callee);
      if facade.Some? {
        Record(ScopeText(scope), facade.value, Some("actor") in keywords);
      }
    }

    method Record(text: string, facade: string, typed: bool)
      requires Valid()
      modifies `ordinals, `sites, `calls
      ensures Valid() && calls == old(calls) + [FacadeCall(text, facade, typed)]
    {
      var ordinal := Ordinal(text, facade) + 1;
      OneMoreCall(path, calls, FacadeCall(text, facade, typed));
      ordinals := ordinals[(text, facade) := ordinal];
      sites := sites + [Site(path, text, facade, ordinal, typed)];
      calls := calls + [FacadeCall(text, facade, typed)];
    }

    method GenericVisit(node: Node)
      requires Valid()
      modifies this
      ensures Valid() && scope == old(scope)
      ensures calls == old(calls) + CallsAll(node.children, old(scope))
      decreases node, 0
    {
      var children := node.children;
      for i := 0 to |children|
        invariant Valid() && scope == old(scope)
        invariant calls + CallsAll(children[i..], scope) == old(calls) + CallsAll(children, scope)
      {
        CallsStep(calls, children, i, scope);
        Visit(children[i]);
      }
    }
  }

  lemma OneMoreCall(path: string, calls: seq<FacadeCall>, c: FacadeCall)
    ensures Sites(path, calls + [c]) ==
            Sites(path, calls)
            + [Site(path, c.scope, c.facade, Count(calls, c.scope, c.facade) + 1, c.typed)]
    ensures forall s, f :: Count(calls + [c], s, f) ==
              Count(calls, s, f) + if c.scope == s && c.facade == f then 1 else 0
  {
    assert (calls + [c])[..|calls|] == calls;
  }

  lemma CallsOf(before: seq<FacadeCall>, node: Node, scope: seq<string>)
    ensures before + Calls(node, scope)
            == before + OwnCall(node, scope) + CallsAll(node.children, Inside(node, scope))
    ensures !node.Call? ==>
            before + Calls(node, scope) == before + CallsAll(node.children, Inside(node, scope))
  {
  }

  lemma CallsStep(before: seq<FacadeCall>, nodes: seq<Node>, i: nat, scope: seq<string>)
    requires i < |nodes|
    ensures before + CallsAll(nodes[i..], scope)
            == before + Calls(nodes[i], scope) + CallsAll(nodes[i + 1..], scope)
  {
    assert nodes[i..][1..] == nodes[i + 1..];
  }

  // ---------------------------------------------------------- numbering

  lemma {:induction false} SiteAt(path: string, calls: seq<FacadeCall>, i: nat)
    requires i < |calls|
    ensures |Sites(path, calls)| == |calls|
    ensures var c := calls[i];
            Sites(path, calls)[i] ==
            Site(path, c.scope, c.facade, Count(calls[..i], c.scope, c.facade) + 1, c.typed)
  {
    var before := calls[..|calls| - 1];
    SitesLength(path, before);
    if i < |calls| - 1 {
      SiteAt(path, before, i);
      assert before[..i] == calls[..i];
    }
  }

  lemma {:induction false} SitesLength(path: string, calls: seq<FacadeCall>)
    ensures |Sites(path, calls)| == |calls|
  {
    if calls != [] { SitesLength(path, calls[..|calls| - 1]); }
  }

  lemma {:induction false} CountGrows(calls: seq<FacadeCall>, i: nat, j: nat, s: string, f: string)
    requires i <= j <= |calls|
    ensures Count(calls[..i], s, f) <= Count(calls[..j], s, f)
    ensures i < j && calls[i].scope == s && calls[i].facade == f ==>
              Count(calls[..i], s, f) < Count(calls[..j], s, f)
    decreases j - i
  {
    if i < j {
      CountGrows(calls, i, j - 1, s, f);
      assert calls[..j][..j - 1] == calls[..j - 1];
    }
  }

  // Within each scope and facade the ordinals are 1..n: every number up to the
  // count is used, by exactly one site, and no other number is.
  lemma {:induction false} OrdinalsAreGapless(path: string, calls: seq<FacadeCall>,
                                              s: string, f: string, n: nat)
    ensures 1 <= n <= Count(calls, s, f) <==>
            exists i :: 0 <= i < |Sites(path, calls)| && IsNumbered(Sites(path, calls)[i], s, f, n)
  {
    SitesLength(path, calls);
    var sites := Sites(path, calls);
    if 1 <= n <= Count(calls, s, f) {
      var i := FindOrdinal(path, calls, s, f, n);
    }
    forall i | 0 <= i < |sites| && IsNumbered(sites[i], s, f, n)
      ensures 1 <= n <= Count(calls, s, f)
    {
      SiteAt(path, calls, i);
      CountGrows(calls, i, |calls|, s, f);
      assert calls[..|calls|] == calls;
    }
  }

  predicate IsNumbered(site: Site, s: string, f: string, n: nat) {
    site.scope == s && site.facade == f && site.ordinal == n
  }

  lemma {:induction false} FindOrdinal(path: string, calls: seq<FacadeCall>,
                                       s: string, f: string, n: nat) returns (i: nat)
    requires 1 <= n <= Count(calls, s, f)
    ensures i < |Sites(path, calls)| && IsNumbered(Sites(path, calls)[i], s, f, n)
  {
    var before := calls[..|calls| - 1];
    if n <= Count(before, s, f) {
      i := FindOrdinal(path, before, s, f, n);
    } else {
      i := |calls| - 1;
      SiteAt(path, calls, i);
    }
  }

  lemma NumbersAreUnique(path: string, calls: seq<FacadeCall>, i: nat, j: nat)
    requires i < j < |calls|
    ensures |Sites(path, calls)| == |calls|
    ensures var a, b := Sites(path, calls)[i], Sites(path, calls)[j];
            a.scope == b.scope && a.facade == b.facade ==> a.ordinal < b.ordinal
  {
    SiteAt(path, calls, i);
    SiteAt(path, calls, j);
    CountGrows(calls, i, j, calls[i].scope, calls[i].facade);
  }

  // ---------------------------------------------------------- stable ids

  function StableId(site: Site): string {
    site.path + "|" + site.scope + "|" + site.facade + "|" + Render(site.ordinal)
  }

  predicate BarFree(s: string) { '|' !in s }

  // The last bar of a text separates its last bar-free part.
  lemma LastPart(a: string, x: string, b: string, y: string)
    requires BarFree(x) && BarFree(y)
    requires a + "|" + x == b + "|" + y
    ensures a == b && x == y
  {
    var t := a + "|" + x;
    assert t[|a|] == '|' && t[|b|] == '|';
    NoBarAfter(a, x);
    NoBarAfter(b, y);
    assert t[..|a|] == a && t[..|b|] == b;
    assert t[|a| + 1..] == x && t[|b| + 1..] == y;
  }

  lemma NoBarAfter(a: string, x: string)
    requires BarFree(x)
    ensures forall k :: |a| < k < |a + "|" + x| ==> (a + "|" + x)[k] != '|'
  {
    var t := a + "|" + x;
    assert forall k :: |a| < k < |t| ==> t[k] == x[k - |a| - 1];
  }

  predicate WellFormed(site: Site) {
    BarFree(site.scope) && BarFree(site.facade)
  }

  // Paths may hold any character: the id is read from its end.
  lemma StableIdInjective(a: Site, b: Site)
    requires WellFormed(a) && WellFormed(b)
    requires StableId(a) == StableId(b)
    ensures a.path == b.path && a.scope == b.scope && a.facade == b.facade && a.ordinal == b.ordinal
  {
    RenderRoundTrip(a.ordinal);
    RenderRoundTrip(b.ordinal);
    var a2, b2 := a.path + "|" + a.scope + "|" + a.facade, b.path + "|" + b.scope + "|" + b.facade;
    LastPart(a2, Render(a.ordinal), b2, Render(b.ordinal));
    LastPart(a.path + "|" + a.scope, a.facade, b.path + "|" + b.scope, b.facade);
    LastPart(a.path, a.scope, b.path, b.scope);
    RenderInjective(a.ordinal, b.ordinal);
  }

  // The last three parts of an id, read at its bars, are the scope, the facade
  // and the ordinal; what is in front of them is the path.
  lemma StableIdParts(site: Site)
    requires WellFormed(site)
    ensures T.Split(StableId(site), '|') ==
            T.Split(site.path, '|') + [site.scope, site.facade, Render(site.ordinal)]
  {
    RenderRoundTrip(site.ordinal);
    T.SplitLast(site.path, '|', site.scope);
    T.SplitLast(site.path + "|" + site.scope, '|', site.facade);
    T.SplitLast(site.path + "|" + site.scope + "|" + site.facade, '|', Render(site.ordinal));
  }

  // Python identifiers carry no bar.
  predicate NamesBarFree(node: Node)
    decreases node
  {
    && (node.Scope? ==> BarFree(node.name))
    && forall i :: 0 <= i < |node.children| ==> NamesBarFree(node.children[i])
  }

  lemma {:induction false} JoinBarFree(names: seq<string>)
    requires forall n :: n in names ==> BarFree(n)
    ensures BarFree(JoinDots(names))
  {
    if |names| > 1 {
      JoinBarFree(names[1..]);
      var rest := JoinDots(names[1..]);
      assert forall c :: c in names[0] + "." + rest <==> c in names[0] || c == '.' || c in rest;
      assert names[0] in names;
    }
  }

  lemma OwnCallBarFree(node: Node, scope: seq<string>)
    requires forall n :: n in scope ==> BarFree(n)
    ensures forall c :: c in OwnCall(node, scope) ==> BarFree(c.scope) && BarFree(c.facade)
  {
    JoinBarFree(scope);
    assert BarFree("record_audit_event") && BarFree("stage_audit_event") && BarFree("<module>");
  }

  lemma {:induction false} CallsBarFree(node: Node, scope: seq<string>)
    requires NamesBarFree(node) && forall n :: n in scope ==> BarFree(n)
    ensures forall c :: c in Calls(node, scope) ==> BarFree(c.scope) && BarFree(c.facade)
    decreases node
  {
    OwnCallBarFree(node, scope);
    CallsAllBarFree(node.children, Inside(node, scope));
    assert forall c :: c in Calls(node, scope) ==>
             c in OwnCall(node, scope) || c in CallsAll(node.children, Inside(node, scope));
  }

  lemma {:induction false} CallsAllBarFree(nodes: seq<Node>, scope: seq<string>)
    requires forall i :: 0 <= i < |nodes| ==> NamesBarFree(nodes[i])
    requires forall n :: n in scope ==> BarFree(n)
    ensures forall c :: c in CallsAll(nodes, scope) ==> BarFree(c.scope) && BarFree(c.facade)
    decreases nodes
  {
    if nodes != [] {
      CallsBarFree(nodes[0], scope);
      CallsAllBarFree(nodes[1..], scope);
      assert forall c :: c in CallsAll(nodes, scope) ==>
               c in Calls(nodes[0], scope) || c in CallsAll(nodes[1..], scope);
    }
  }

  // ---------------------------------------------------------- the inventory

  // A file of the project; None when it does not parse.
  datatype SourceTree = SourceTree(path: string, tree: Option<Node>)

  function SitesOf(file: SourceTree): seq<Site> {
    if file.tree.None? then [] else Sites(file.path, Calls(file.tree.value, []))
  }

  function AllSites(files: seq<SourceTree>): seq<Site> {
    Joined(SitesOf, files)
  }

  method CollectCalls(files: seq<SourceTree>) returns (report: seq<Site>)
    ensures report == SortOn(StableId, AllSites(files))
  {
    var sites := [];
    for i := 0 to |files|
      invariant sites == AllSites(files[..i])
    {
      assert files[..i + 1][..i] == files[..i];
      assert AllSites(files[..i + 1]) == AllSites(files[..i]) + SitesOf(files[i]);
      if files[i].tree.Some? {
        var visitor := new Visitor(files[i].path);
        visitor.Visit(files[i].tree.value);
        assert visitor.calls == Calls(files[i].tree.value, []);
        sites := sites + visitor.sites;
      }
    }
    assert files[..|files|] == files;
    report := SortOn(StableId, sites);
  }

  // A site reports the facade call at a position of a file: its path, facade
  // and kind, and as its scope the definitions around it, outermost first.
  ghost predicate IsSiteOf(s: Site, file: SourceTree, pos: Position) {
    && file.tree.Some? && HoldsFacadeCall(file.tree.value, pos)
    && s.path == file.path
    && CallsFacade(NodeAt(file.tree.value, pos), s.facade)
    && (s.typed <==> Some("actor") in NodeAt(file.tree.value, pos).keywords)
    && var names := Around(file.tree.value, pos);
       if names == [] then s.scope == "<module>" else T.Split(s.scope, '.') == names
  }

  lemma SiteOfPosition(file: SourceTree, k: nat)
    requires file.tree.Some? && HasNames(file.tree.value) && k < |SitesOf(file)|
    ensures |SitesOf(file)| == |Positions(file.tree.value)|
    ensures IsSiteOf(SitesOf(file)[k], file, Positions(file.tree.value)[k])
  {
    var tree, calls := file.tree.value, Calls(file.tree.value, []);
    SitesLength(file.path, calls);
    SiteAt(file.path, calls, k);
    EachCallOnce(tree, []);
    RecordedScopes(tree, k, k);
  }

  // Whatever is collected from the files is one of their facade calls ...
  lemma CollectedIsCall(files: seq<SourceTree>, s: Site) returns (i: nat, pos: Position)
    requires forall j :: 0 <= j < |files| && files[j].tree.Some? ==> HasNames(files[j].tree.value)
    requires s in AllSites(files)
    ensures i < |files| && IsSiteOf(s, files[i], pos)
  {
    JoinedMembers(SitesOf, files, s);
    i :| 0 <= i < |files| && s in SitesOf(files[i]);
    pos := SitePosition(files[i], s);
  }

  // ... and each of these is collected.
  lemma CallIsCollected(files: seq<SourceTree>, i: nat, pos: Position) returns (s: Site)
    requires i < |files| && files[i].tree.Some? && HasNames(files[i].tree.value)
    requires HoldsFacadeCall(files[i].tree.value, pos)
    ensures s in AllSites(files) && IsSiteOf(s, files[i], pos)
  {
    s := PositionSite(files[i], pos);
    JoinedMembers(SitesOf, files, s);
  }

  lemma SitePosition(file: SourceTree, s: Site) returns (pos: Position)
    requires s in SitesOf(file) && (file.tree.Some? ==> HasNames(file.tree.value))
    ensures IsSiteOf(s, file, pos)
  {
    var k :| 0 <= k < |SitesOf(file)| && SitesOf(file)[k] == s;
    SiteOfPosition(file, k);
    pos := Positions(file.tree.value)[k];
  }

  lemma PositionSite(file: SourceTree, pos: Position) returns (s: Site)
    requires file.tree.Some? && HasNames(file.tree.value)
    requires HoldsFacadeCall(file.tree.value, pos)
    ensures s in SitesOf(file) && IsSiteOf(s, file, pos)
  {
    var ps := Positions(file.tree.value);
    EachCallOnce(file.tree.value, []);
    SitesLength(file.path, Calls(file.tree.value, []));
    var k :| 0 <= k < |ps| && ps[k] == pos;
    SiteOfPosition(file, k);
    s := SitesOf(file)[k];
  }

  // Distinct paths, and names as Python allows them.
  ghost predicate IsProject(files: seq<SourceTree>) {
    && (forall i, j :: 0 <= i < j < |files| ==> files[i].path != files[j].path)
    && (forall i :: 0 <= i < |files| && files[i].tree.Some? ==> NamesBarFree(files[i].tree.value))
  }

  lemma FileSites(file: SourceTree)
    requires file.tree.Some? ==> NamesBarFree(file.tree.value)
    ensures forall s :: s in SitesOf(file) ==> s.path == file.path && WellFormed(s)
    ensures DistinctKeys(StableId, SitesOf(file))
  {
    if file.tree.Some? {
      var calls := Calls(file.tree.value, []);
      var sites := Sites(file.path, calls);
      CallsBarFree(file.tree.value, []);
      SitesLength(file.path, calls);
      forall i | 0 <= i < |sites| ensures sites[i].path == file.path && WellFormed(sites[i]) {
        SiteAt(file.path, calls, i);
        assert calls[i] in calls;
      }
      forall i, j | 0 <= i < j < |sites| ensures StableId(sites[i]) != StableId(sites[j]) {
        NumbersAreUnique(file.path, calls, i, j);
        if StableId(sites[i]) == StableId(sites[j]) {
          StableIdInjective(sites[i], sites[j]);
        }
      }
    }
  }

  // All stable ids of a project are pairwise different.
  lemma {:induction false} AllIdsDistinct(files: seq<SourceTree>)
    requires IsProject(files)
    ensures DistinctKeys(StableId, AllSites(files))
    ensures forall s :: s in AllSites(files) ==>
              WellFormed(s) && exists i :: 0 <= i < |files| && files[i].path == s.path
  {
    if files != [] {
      var front, last := files[..|files| - 1], files[|files| - 1];
      AllIdsDistinct(front);
      FileSites(last);
      var a, b := AllSites(front), SitesOf(last);
      forall i, j | 0 <= i < |a| && 0 <= j < |b| ensures StableId(a[i]) != StableId(b[j]) {
        assert a[i] in a && b[j] in b;
        var k :| 0 <= k < |front| && front[k].path == a[i].path;
        assert front[k] == files[k];
        if StableId(a[i]) == StableId(b[j]) { StableIdInjective(a[i], b[j]); }
      }
      DistinctConcat(a, b);
      forall s | s in a ensures exists i :: 0 <= i < |files| && files[i].path == s.path {
        var k :| 0 <= k < |front| && front[k].path == s.path;
        assert files[k].path == s.path;
      }
      assert files[|files| - 1].path == last.path;
    }
  }

  lemma DistinctConcat(a: seq<Site>, b: seq<Site>)
    requires DistinctKeys(StableId, a) && DistinctKeys(StableId, b)
    requires forall i, j :: 0 <= i < |a| && 0 <= j < |b| ==> StableId(a[i]) != StableId(b[j])
    ensures DistinctKeys(StableId, a + b)
  {
  }

  function CallTotal(files: seq<SourceTree>): nat {
    if files == [] then 0
    else
      CallTotal(files[..|files| - 1])
      + var f := files[|files| - 1]; if f.tree.None? then 0 else FacadeCallCount(f.tree.value)
  }

  lemma {:induction false} SiteTotal(files: seq<SourceTree>)
    ensures |AllSites(files)| == CallTotal(files)
  {
    if files != [] {
      SiteTotal(files[..|files| - 1]);
      var f := files[|files| - 1];
      if f.tree.Some? {
        CallsCounted(f.tree.value, []);
        SitesLength(f.path, Calls(f.tree.value, []));
      }
    }
  }

  function TypedSites(sites: seq<Site>): seq<Site> {
    if sites == [] then []
    else (if sites[0].typed then [sites[0]] else []) + TypedSites(sites[1..])
  }

  function LegacySites(sites: seq<Site>): seq<Site> {
    if sites == [] then []
    else (if sites[0].typed then [] else [sites[0]]) + LegacySites(sites[1..])
  }

  // Calls with an actor keyword, counted on the trees.
  function TypedCallCount(node: Node): nat {
    (if node.Call? && FacadeName(node.callee).Some? && Some("actor") in node.keywords then 1 else 0)
    + TypedCallCounts(node.children)
  }

  function TypedCallCounts(nodes: seq<Node>): nat {
    if nodes == [] then 0 else TypedCallCount(nodes[0]) + TypedCallCounts(nodes[1..])
  }

  function TypedIn(calls: seq<FacadeCall>): nat {
    if calls == [] then 0
    else TypedIn(calls[..|calls| - 1]) + if calls[|calls| - 1].typed then 1 else 0
  }

  lemma {:induction false} TypedInConcat(a: seq<FacadeCall>, b: seq<FacadeCall>)
    ensures TypedIn(a + b) == TypedIn(a) + TypedIn(b)
  {
    if b == [] {
      assert a + b == a;
    } else {
      TypedInConcat(a, b[..|b| - 1]);
      assert (a + b)[..|a + b| - 1] == a + b[..|b| - 1];
    }
  }

  lemma {:induction false} TypedCallsCounted(node: Node, scope: seq<string>)
    ensures TypedIn(Calls(node, scope)) == TypedCallCount(node)
    decreases node
  {
    TypedAllCounted(node.children, Inside(node, scope));
    TypedInConcat(OwnCall(node, scope), CallsAll(node.children, Inside(node, scope)));
  }

  lemma {:induction false} TypedAllCounted(nodes: seq<Node>, scope: seq<string>)
    ensures TypedIn(CallsAll(nodes, scope)) == TypedCallCounts(nodes)
    decreases nodes
  {
    if nodes != [] {
      TypedCallsCounted(nodes[0], scope);
      TypedAllCounted(nodes[1..], scope);
      TypedInConcat(Calls(nodes[0], scope), CallsAll(nodes[1..], scope));
    }
  }

  lemma {:induction false} TypedSitesConcat(a: seq<Site>, b: seq<Site>)
    ensures |TypedSites(a + b)| == |TypedSites(a)| + |TypedSites(b)|
  {
    if a == [] {
      assert a + b == b;
    } else {
      TypedSitesConcat(a[1..], b);
      assert (a + b)[1..] == a[1..] + b;
    }
  }

  lemma {:induction false} TypedSitesOfCalls(path: string, calls: seq<FacadeCall>)
    ensures |TypedSites(Sites(path, calls))| == TypedIn(calls)
  {
    if calls != [] {
      var before, c := calls[..|calls| - 1], calls[|calls| - 1];
      TypedSitesOfCalls(path, before);
      var last := Site(path, c.scope, c.facade, Count(before, c.scope, c.facade) + 1, c.typed);
      TypedSitesConcat(Sites(path, before), [last]);
    }
  }

  lemma {:induction false} TypedSitesInsert(x: Site, s: seq<Site>)
    ensures |TypedSites(Insert(StableId, x, s))| == |TypedSites(s)| + if x.typed then 1 else 0
  {
    if s != [] { TypedSitesInsert(x, s[1..]); }
  }

  lemma {:induction false} TypedSitesSorted(s: seq<Site>)
    ensures |TypedSites(SortOn(StableId, s))| == |TypedSites(s)|
  {
    if s != [] {
      TypedSitesSorted(s[1..]);
      TypedSitesInsert(s[0], SortOn(StableId, s[1..]));
    }
  }

  function TypedTotal(files: seq<SourceTree>): nat {
    if files == [] then 0
    else
      TypedTotal(files[..|files| - 1])
      + var f := files[|files| - 1]; if f.tree.None? then 0 else TypedCallCount(f.tree.value)
  }

  lemma {:induction false} TypedSiteTotal(files: seq<SourceTree>)
    ensures |TypedSites(AllSites(files))| == TypedTotal(files)
  {
    if files != [] {
      var front, f := files[..|files| - 1], files[|files| - 1];
      TypedSiteTotal(front);
      TypedSitesConcat(AllSites(front), SitesOf(f));
      if f.tree.Some? {
        TypedCallsCounted(f.tree.value, []);
        TypedSitesOfCalls(f.path, Calls(f.tree.value, []));
      }
    }
  }

  lemma {:induction false} TypedPlusLegacy(sites: seq<Site>)
    ensures |TypedSites(sites)| + |LegacySites(sites)| == |sites|
  {
    if sites != [] { TypedPlusLegacy(sites[1..]); }
  }

  // The two filters keep the sites of their kind, in order.
  lemma {:induction false} KindsExactly(sites: seq<Site>, x: Site)
    ensures x in TypedSites(sites) <==> x in sites && x.typed
    ensures x in LegacySites(sites) <==> x in sites && !x.typed
    ensures Increasing(StableId, sites) ==>
              Increasing(StableId, TypedSites(sites)) && Increasing(StableId, LegacySites(sites))
  {
    if sites != [] {
      var rest := sites[1..];
      KindsExactly(rest, x);
      assert sites == [sites[0]] + rest;
      if Increasing(StableId, sites) {
        RestIncreasing(sites[0], rest);
        forall y ensures y in TypedSites(rest) || y in LegacySites(rest) ==> y in rest {
          KeptMember(rest, y);
        }
        FilterKeepsFront(sites[0], rest, TypedSites(rest));
        FilterKeepsFront(sites[0], rest, LegacySites(rest));
      }
    }
  }

  lemma RestIncreasing(first: Site, rest: seq<Site>)
    requires Increasing(StableId, [first] + rest)
    ensures Increasing(StableId, rest)
  {
    forall i, j | 0 <= i < j < |rest| ensures Less(StableId(rest[i]), StableId(rest[j])) {
      assert ([first] + rest)[i + 1] == rest[i] && ([first] + rest)[j + 1] == rest[j];
    }
  }

  lemma FilterKeepsFront(first: Site, rest: seq<Site>, kept: seq<Site>)
    requires Increasing(StableId, [first] + rest)
    requires Increasing(StableId, kept) && forall y :: y in kept ==> y in rest
    ensures Increasing(StableId, [first] + kept)
  {
    forall k | 0 <= k < |kept| ensures Less(StableId(first), StableId(kept[k])) {
      assert kept[k] in kept;
      var i :| 0 <= i < |rest| && rest[i] == kept[k];
      assert ([first] + rest)[0] == first && ([first] + rest)[i + 1] == rest[i];
    }
  }

  lemma {:induction false} KeptMember(sites: seq<Site>, x: Site)
    ensures x in TypedSites(sites) || x in LegacySites(sites) ==> x in sites
  {
    if sites != [] { KeptMember(sites[1..], x); }
  }

  // The report lists every facade call of every parsed file exactly once, in
  // strictly increasing order of stable ids; the typed ones are those with an
  // actor keyword, and the legacy ones are the rest.
  lemma ReportIsExact(files: seq<SourceTree>)
    requires IsProject(files)
    ensures var report := SortOn(StableId, AllSites(files));
            && Increasing(StableId, report)
            && Elements(report) == Elements(AllSites(files))
            && |report| == CallTotal(files)
            && |TypedSites(report)| == TypedTotal(files)
            && |LegacySites(report)| == CallTotal(files) - TypedTotal(files)
  {
    AllIdsDistinct(files);
    SortOnIncreasing(StableId, AllSites(files));
    SortOnElements(StableId, AllSites(files));
    SiteTotal(files);
    TypedPlusLegacy(SortOn(StableId, AllSites(files)));
    TypedSitesSorted(AllSites(files));
    TypedSiteTotal(files);
  }
}
