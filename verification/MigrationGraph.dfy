// The revision graph: every revision maps to the revisions it revises.
// Heads, ancestor closure, cycles, and what `alembic upgrade` has left to do.

module MigrationGraph {
  import opened Basics

  type Graph = map<string, set<string>>

  function Parents(g: Graph): set<string> {
    set r, p | r in g && p in g[r] :: p
  }

  function Heads(g: Graph): set<string> {
    g.Keys - Parents(g)
  }

  // Every declared parent is itself a revision of the tree.
  ghost predicate Closed(g: Graph) {
    Parents(g) <= g.Keys
  }

  // A walk from a revision down to one of its ancestors.
  ghost predicate IsWalk(g: Graph, w: seq<string>) {
    && |w| > 0
    && (forall i :: 0 <= i < |w| ==> w[i] in g)
    && (forall i :: 0 <= i < |w| - 1 ==> w[i + 1] in g[w[i]])
  }

  ghost predicate IsWalkBetween(g: Graph, w: seq<string>, newer: string, older: string) {
    IsWalk(g, w) && w[0] == newer && w[|w| - 1] == older
  }

  // `older` is `newer` itself or one of its ancestors.
  ghost predicate Reaches(g: Graph, newer: string, older: string) {
    exists w :: IsWalkBetween(g, w, newer, older)
  }

  ghost predicate OnCycle(g: Graph, r: string) {
    exists w :: |w| >= 2 && IsWalkBetween(g, w, r, r)
  }

  ghost predicate Acyclic(g: Graph) {
    forall r :: !OnCycle(g, r)
  }

  // What a database stamped with `stamped` still has to run.
  ghost predicate IsPending(g: Graph, stamped: set<string>, r: string) {
    r in g && forall h :: h in stamped ==> !Reaches(g, h, r)
  }

  ghost predicate NoPendingWork(g: Graph, stamped: set<string>) {
    forall r :: !IsPending(g, stamped, r)
  }

  // Climb from a revision through children that were not visited yet; there
  // are at most |g| of them, so the climb ends at a head or closes a cycle.
  lemma {:induction false} Climb(g: Graph, w: seq<string>, r: string)
    requires IsWalk(g, w) && w[|w| - 1] == r && NoDuplicates(w)
    ensures (exists h :: h in Heads(g) && Reaches(g, h, r)) ||
            (exists c :: OnCycle(g, c) && Reaches(g, c, r))
    decreases |g.Keys| - |w|
  {
    assert IsWalkBetween(g, w, w[0], r);
    if w[0] !in Heads(g) {
      var child :| child in g && w[0] in g[child];
      var longer := [child] + w;
      if child in w {
        var i :| 0 <= i < |w| && w[i] == child;
        assert IsWalkBetween(g, [child] + w[..i + 1], child, child);
        assert IsWalkBetween(g, w[i..], child, r);
        assert OnCycle(g, child) && Reaches(g, child, r);
      } else {
        assert Elements(longer) <= g.Keys;
        Pigeonhole(longer, g.Keys);
        Climb(g, longer, r);
      }
    }
  }

  // In any migration tree every revision is an ancestor-or-self of a head or
  // of a revision on a cycle.
  lemma HeadOrCycleAbove(g: Graph, r: string)
    requires r in g
    ensures (exists h :: h in Heads(g) && Reaches(g, h, r)) ||
            (exists c :: OnCycle(g, c) && Reaches(g, c, r))
  {
    Climb(g, [r], r);
  }

  lemma HeadsCoverAcyclic(g: Graph, r: string)
    requires Acyclic(g) && r in g
    ensures exists h :: h in Heads(g) && Reaches(g, h, r)
  {
    HeadOrCycleAbove(g, r);
  }

  // The "no heads" rejection of a non-empty tree needs a cycle, and every
  // revision of such a tree is at or below one.
  lemma NoHeadsMeansCycle(g: Graph)
    requires g.Keys != {} && Heads(g) == {}
    ensures !Acyclic(g)
    ensures forall r :: r in g ==> exists c :: OnCycle(g, c) && Reaches(g, c, r)
  {
    forall r | r in g ensures !Acyclic(g) && exists c :: OnCycle(g, c) && Reaches(g, c, r) {
      CycleAbove(g, r);
    }
    var r :| r in g.Keys;
  }

  lemma CycleAbove(g: Graph, r: string)
    requires r in g && Heads(g) == {}
    ensures !Acyclic(g) && exists c :: OnCycle(g, c) && Reaches(g, c, r)
  {
    HeadOrCycleAbove(g, r);
  }

  lemma WalkEndsAtParent(g: Graph, w: seq<string>)
    requires IsWalk(g, w)
    ensures |w| >= 2 ==> w[|w| - 1] in Parents(g)
  {
    if |w| >= 2 {
      var i := |w| - 2;
      assert w[i + 1] in g[w[i]];
    }
  }

  lemma WalkFromRoot(g: Graph, w: seq<string>)
    requires IsWalk(g, w)
    ensures |w| >= 2 ==> g[w[0]] != {}
  {
    if |w| >= 2 { assert w[1] in g[w[0]]; }
  }

  // Nothing but a head reaches a head.
  lemma OnlySelfReachesHead(g: Graph, d: string, h: string)
    requires Reaches(g, d, h) && h in Heads(g)
    ensures d == h
  {
    var w :| IsWalkBetween(g, w, d, h);
    WalkEndsAtParent(g, w);
  }

  lemma ReachesTransitive(g: Graph, a: string, b: string, c: string)
    requires Reaches(g, a, b) && Reaches(g, b, c)
    ensures Reaches(g, a, c)
  {
    var v :| IsWalkBetween(g, v, a, b);
    var w :| IsWalkBetween(g, w, b, c);
    assert IsWalkBetween(g, v + w[1..], a, c);
  }

  // Every revision on a cycle hangs below some head; without a cycle, trivially.
  ghost predicate CyclesBelowHeads(g: Graph) {
    forall c :: OnCycle(g, c) ==> exists h :: h in Heads(g) && Reaches(g, h, c)
  }

  // This is exactly what it takes for the heads to cover the tree.
  lemma HeadsCoverExactly(g: Graph)
    ensures CyclesBelowHeads(g) <==>
            forall r :: r in g ==> exists h :: h in Heads(g) && Reaches(g, h, r)
  {
    if CyclesBelowHeads(g) {
      forall r | r in g ensures exists h :: h in Heads(g) && Reaches(g, h, r) {
        HeadAbove(g, r);
      }
    }
    forall c | OnCycle(g, c) ensures c in g {
      var w :| IsWalkBetween(g, w, c, c);
    }
  }

  lemma HeadAbove(g: Graph, r: string)
    requires CyclesBelowHeads(g) && r in g
    ensures exists h :: h in Heads(g) && Reaches(g, h, r)
  {
    HeadOrCycleAbove(g, r);
    if c :| OnCycle(g, c) && Reaches(g, c, r) {
      var h :| h in Heads(g) && Reaches(g, h, c);
      ReachesTransitive(g, h, c, r);
    }
  }

  // A database has no work left exactly when it is stamped with every head.
  lemma NoPendingWorkIffAllHeadsStamped(g: Graph, stamped: set<string>)
    requires CyclesBelowHeads(g)
    ensures NoPendingWork(g, stamped) <==> Heads(g) <= stamped
  {
    if Heads(g) <= stamped {
      forall r | r in g ensures !IsPending(g, stamped, r) {
        HeadAbove(g, r);
      }
    }
    if NoPendingWork(g, stamped) { NoWorkNeedsHeads(g, stamped); }
  }

  lemma NoWorkNeedsHeads(g: Graph, stamped: set<string>)
    requires NoPendingWork(g, stamped)
    ensures Heads(g) <= stamped
  {
    forall h | h in Heads(g) ensures h in stamped {
      assert !IsPending(g, stamped, h);
      var d :| d in stamped && Reaches(g, d, h);
      OnlySelfReachesHead(g, d, h);
    }
  }

  // In any tree: a database at the computed heads has no work left exactly when
  // every revision on a cycle hangs below some head.
  lemma NoPendingWorkAtHeadsExactly(g: Graph)
    ensures NoPendingWork(g, Heads(g)) <==> CyclesBelowHeads(g)
  {
    HeadsCoverExactly(g);
    if CyclesBelowHeads(g) {
      NoPendingWorkIffAllHeadsStamped(g, Heads(g));
    } else {
      var r :| r in g && forall h :: h in Heads(g) ==> !Reaches(g, h, r);
      assert IsPending(g, Heads(g), r);
    }
  }

  // A revision that revises itself beside an unrelated one: the only head is
  // the other one, and a database stamped with it still has work to do.
  lemma HeadsMayMissACycle()
    ensures var g: Graph := map["a" := {"a"}, "b" := {}];
            Heads(g) == {"b"} && OnCycle(g, "a") && IsPending(g, {"b"}, "a")
  {
    var g: Graph := map["a" := {"a"}, "b" := {}];
    assert "a" in g["a"];
    assert IsWalkBetween(g, ["a", "a"], "a", "a");
    forall w ensures !IsWalkBetween(g, w, "b", "a") {
      if IsWalk(g, w) { WalkFromRoot(g, w); }
    }
  }

  // Alembic keeps no stamped revision that another stamped one supersedes.
  ghost predicate IsStamp(g: Graph, stamped: set<string>) {
    && stamped <= g.Keys
    && forall a, b :: a in stamped && b in stamped && Reaches(g, a, b) ==> a == b
  }

  // For such a database, being exactly at the tree's heads is both necessary
  // and sufficient for having no migration left to run.
  lemma NoPendingWorkIffAtHeads(g: Graph, stamped: set<string>)
    requires CyclesBelowHeads(g) && IsStamp(g, stamped)
    ensures NoPendingWork(g, stamped) <==> stamped == Heads(g)
  {
    NoPendingWorkIffAllHeadsStamped(g, stamped);
    if Heads(g) <= stamped {
      forall d | d in stamped ensures d in Heads(g) {
        HeadAbove(g, d);
        var h :| h in Heads(g) && Reaches(g, h, d);
        assert h == d;
      }
    }
  }
}
