// The inheritance walk of audit_read_constraints: a depth-first search that
// shares one mutable `seen` set among all its recursive calls.

module ClassOrder {
  import opened Basics

  datatype FieldMeta = FieldMeta(bounds: set<string>, annotation: string)

  datatype ClassDef = ClassDef(bases: seq<string>, fields: map<string, FieldMeta>, file: string)

  type Classes = map<string, ClassDef>

  // ---------------------------------------------------------- the walk

  datatype Walk = Walk(order: seq<string>, seen: set<string>)

  function Mro(classes: Classes, cls: string, seen: set<string>): (w: Walk)
    ensures seen <= w.seen
    decreases |classes.Keys - seen|, 0
  {
    if cls in seen || cls !in classes then Walk([], seen)
    else
      Narrows(classes.Keys, seen, cls);
      var rest := MroBases(classes, classes[cls].bases, seen + {cls});
      Walk([cls] + rest.order, rest.seen)
  }

  function MroBases(classes: Classes, bases: seq<string>, seen: set<string>): (w: Walk)
    ensures seen <= w.seen
    decreases |classes.Keys - seen|, |bases|
  {
    if bases == [] then Walk([], seen)
    else
      var first := Mro(classes, bases[0], seen);
      SubsetCardinality(classes.Keys - first.seen, classes.Keys - seen);
      var rest := MroBases(classes, bases[1..], first.seen);
      Walk(first.order + rest.order, rest.seen)
  }

  // Entering a class leaves fewer classes to enter: cyclic inheritance ends.
  lemma Narrows(known: set<string>, seen: set<string>, cls: string)
    requires cls in known && cls !in seen
    ensures |known - (seen + {cls})| < |known - seen|
  {
    assert known - seen == (known - (seen + {cls})) + {cls};
  }

  class SeenSet {
    var items: set<string>

    constructor ()
      ensures items == {}
    {
      items := {};
    }
  }

  method ComputeMro(classes: Classes, cls: string, seen: SeenSet) returns (order: seq<string>)
    modifies seen
    ensures Walk(order, seen.items) == Mro(classes, cls, old(seen.items))
    decreases |classes.Keys - seen.items|
  {
    if cls in seen.items || cls !in classes { return []; }
    Narrows(classes.Keys, seen.items, cls);
    seen.items := seen.items + {cls};
    order := [cls];
    var bases := classes[cls].bases;
    ghost var start := seen.items;
    for i := 0 to |bases|
      invariant start <= seen.items
      invariant var rest := MroBases(classes, bases[i..], seen.items);
                Walk(order + rest.order, rest.seen) == Mro(classes, cls, old(seen.items))
    {
      SubsetCardinality(classes.Keys - seen.items, classes.Keys - start);
      assert bases[i..][1..] == bases[i + 1..];
      var more := ComputeMro(classes, bases[i], seen);
      order := order + more;
    }
  }

  // ---------------------------------------------------------- reachability

  ghost predicate IsChain(classes: Classes, p: seq<string>, from: string, to: string) {
    && |p| > 0 && p[0] == from && p[|p| - 1] == to
    && (forall i :: 0 <= i < |p| ==> p[i] in classes)
    && (forall i :: 0 <= i < |p| - 1 ==> p[i + 1] in classes[p[i]].bases)
  }

  // `to` is the known class `from` or one of its known ancestors.
  ghost predicate Reachable(classes: Classes, from: string, to: string) {
    exists p :: IsChain(classes, p, from, to)
  }

  lemma ReachableThroughBase(classes: Classes, cls: string, base: string, to: string)
    requires cls in classes && base in classes[cls].bases && Reachable(classes, base, to)
    ensures Reachable(classes, cls, to)
  {
    var p :| IsChain(classes, p, base, to);
    assert IsChain(classes, [cls] + p, cls, to);
  }

  // What a walk adds: new known classes, each once, closed under known bases.
  ghost predicate Adds(classes: Classes, seen: set<string>, w: Walk) {
    && NoDuplicates(w.order)
    && Elements(w.order) !! seen
    && w.seen == seen + Elements(w.order)
    && (forall c :: c in w.order ==> c in classes)
    && (forall c, b :: c in w.order && b in classes[c].bases && b in classes ==> b in w.seen)
  }

  lemma {:induction false} MroAdds(classes: Classes, cls: string, seen: set<string>)
    ensures Adds(classes, seen, Mro(classes, cls, seen))
    ensures cls in classes ==> cls in Mro(classes, cls, seen).seen
    decreases |classes.Keys - seen|, 0
  {
    if cls !in seen && cls in classes {
      Narrows(classes.Keys, seen, cls);
      MroBasesAdds(classes, classes[cls].bases, seen + {cls});
      AddsFront(classes, seen, cls, MroBases(classes, classes[cls].bases, seen + {cls}));
    }
  }

  lemma {:induction false} MroBasesAdds(classes: Classes, bases: seq<string>, seen: set<string>)
    ensures Adds(classes, seen, MroBases(classes, bases, seen))
    ensures forall b :: b in bases && b in classes ==> b in MroBases(classes, bases, seen).seen
    decreases |classes.Keys - seen|, |bases|
  {
    if bases != [] {
      var first := Mro(classes, bases[0], seen);
      MroAdds(classes, bases[0], seen);
      SubsetCardinality(classes.Keys - first.seen, classes.Keys - seen);
      MroBasesAdds(classes, bases[1..], first.seen);
      AddsConcat(classes, seen, first, MroBases(classes, bases[1..], first.seen));
    } else {
      assert Elements<string>([]) == {};
    }
  }

  lemma AddsFront(classes: Classes, seen: set<string>, cls: string, rest: Walk)
    requires cls in classes && cls !in seen && Adds(classes, seen + {cls}, rest)
    requires forall b :: b in classes[cls].bases && b in classes ==> b in rest.seen
    ensures Adds(classes, seen, Walk([cls] + rest.order, rest.seen))
  {
    ElementsOfConcat([cls], rest.order);
    ConcatDistinct([cls], rest.order);
  }

  lemma AddsConcat(classes: Classes, seen: set<string>, a: Walk, b: Walk)
    requires Adds(classes, seen, a) && Adds(classes, a.seen, b)
    ensures Adds(classes, seen, Walk(a.order + b.order, b.seen))
  {
    ElementsOfConcat(a.order, b.order);
    ConcatDistinct(a.order, b.order);
  }

  // Everything the walk lists is reachable from where it started.
  lemma {:induction false} MroReaches(classes: Classes, cls: string, seen: set<string>, c: string)
    requires c in Mro(classes, cls, seen).order
    ensures Reachable(classes, cls, c)
    decreases |classes.Keys - seen|, 0
  {
    Narrows(classes.Keys, seen, cls);
    if c == cls {
      assert IsChain(classes, [cls], cls, cls);
    } else {
      var b := MroBasesReach(classes, classes[cls].bases, seen + {cls}, c);
      ReachableThroughBase(classes, cls, b, c);
    }
  }

  lemma {:induction false} MroBasesReach(classes: Classes, bases: seq<string>, seen: set<string>,
                                         c: string) returns (b: string)
    requires c in MroBases(classes, bases, seen).order
    ensures b in bases && Reachable(classes, b, c)
    decreases |classes.Keys - seen|, |bases|
  {
    var first := Mro(classes, bases[0], seen);
    SubsetCardinality(classes.Keys - first.seen, classes.Keys - seen);
    if c in first.order {
      MroReaches(classes, bases[0], seen, c);
      b := bases[0];
    } else {
      b := MroBasesReach(classes, bases[1..], first.seen, c);
    }
  }

  // A set closed under known bases keeps every chain that starts in it.
  lemma {:induction false} ClosedKeepsChain(classes: Classes, closed: set<string>, p: seq<string>,
                                            from: string, to: string)
    requires IsChain(classes, p, from, to) && from in closed
    requires forall c, b :: c in closed && c in classes && b in classes[c].bases && b in classes
               ==> b in closed
    ensures to in closed
    decreases |p|
  {
    if |p| > 1 {
      assert p[0 + 1] in classes[p[0]].bases;
      assert IsChain(classes, p[1..], p[1], to);
      ClosedKeepsChain(classes, closed, p[1..], p[1], to);
    }
  }

  // On every class table, cyclic ones included: the order starts with the
  // class itself and holds each known class reachable from it exactly once.
  lemma MroIsReachableClasses(classes: Classes, cls: string)
    ensures var order := Mro(classes, cls, {}).order;
            && NoDuplicates(order)
            && (forall c :: c in order <==> Reachable(classes, cls, c))
            && (if cls in classes then order != [] && order[0] == cls else order == [])
  {
    MroAdds(classes, cls, {});
    var w := Mro(classes, cls, {});
    forall c | c in w.order ensures Reachable(classes, cls, c) {
      MroReaches(classes, cls, {}, c);
    }
    forall c | Reachable(classes, cls, c) ensures c in w.order {
      var p :| IsChain(classes, p, cls, c);
      assert cls in Elements(w.order);
      ClosedKeepsChain(classes, w.seen, p, cls, c);
      assert c in Elements(w.order);
    }
  }

  // ---------------------------------------------------------- the order

  // A chain that never enters a class of `seen`.
  ghost predicate ReachableAvoiding(classes: Classes, seen: set<string>, from: string, to: string) {
    exists p :: IsChain(classes, p, from, to) && forall i :: 0 <= i < |p| ==> p[i] !in seen
  }

  // A walk that starts with some classes already seen lists exactly what it
  // can reach without entering them.
  lemma MroIsReachableUnseen(classes: Classes, cls: string, seen: set<string>, c: string)
    ensures c in Mro(classes, cls, seen).order <==> ReachableAvoiding(classes, seen, cls, c)
  {
    if c in Mro(classes, cls, seen).order { ListedIsReachable(classes, cls, seen, c); }
    if p :| IsChain(classes, p, cls, c) && forall i :: 0 <= i < |p| ==> p[i] !in seen {
      MroAdds(classes, cls, seen);
      assert cls in Elements(Mro(classes, cls, seen).order) by { assert p[0] == cls; }
      ChainIsListed(classes, seen, Mro(classes, cls, seen), p, cls, c);
    }
  }

  lemma {:induction false} ChainIsListed(classes: Classes, seen: set<string>, w: Walk,
                                         p: seq<string>, from: string, to: string)
    requires Adds(classes, seen, w) && IsChain(classes, p, from, to) && from in w.order
    requires forall i :: 0 <= i < |p| ==> p[i] !in seen
    ensures to in w.order
    decreases |p|
  {
    if |p| > 1 {
      assert p[0 + 1] in classes[p[0]].bases;
      assert p[1] in w.seen && p[1] in Elements(w.order);
      ChainIsListed(classes, seen, w, p[1..], p[1], to);
    }
  }

  lemma {:induction false} ListedIsReachable(classes: Classes, cls: string, seen: set<string>, c: string)
    requires c in Mro(classes, cls, seen).order
    ensures ReachableAvoiding(classes, seen, cls, c)
    decreases |classes.Keys - seen|, 0
  {
    Narrows(classes.Keys, seen, cls);
    if c == cls {
      assert IsChain(classes, [cls], cls, cls);
    } else {
      var b := BaseReachesListed(classes, classes[cls].bases, seen + {cls}, c);
      var p :| IsChain(classes, p, b, c) && forall i :: 0 <= i < |p| ==> p[i] !in seen + {cls};
      assert IsChain(classes, [cls] + p, cls, c);
    }
  }

  lemma {:induction false} BaseReachesListed(classes: Classes, bases: seq<string>, seen: set<string>,
                                             c: string) returns (b: string)
    requires c in MroBases(classes, bases, seen).order
    ensures b in bases && ReachableAvoiding(classes, seen, b, c)
    decreases |classes.Keys - seen|, |bases|
  {
    var first := Mro(classes, bases[0], seen);
    SubsetCardinality(classes.Keys - first.seen, classes.Keys - seen);
    if c in first.order {
      ListedIsReachable(classes, bases[0], seen, c);
      b := bases[0];
    } else {
      b := BaseReachesListed(classes, bases[1..], first.seen, c);
      var p :| IsChain(classes, p, b, c) && forall i :: 0 <= i < |p| ==> p[i] !in first.seen;
      assert forall i :: 0 <= i < |p| ==> p[i] !in seen;
    }
  }

  // The bases of a split list are walked one part after the other.
  lemma {:induction false} MroBasesSplit(classes: Classes, bases: seq<string>, seen: set<string>, n: nat)
    requires n <= |bases|
    ensures var first := MroBases(classes, bases[..n], seen);
            MroBases(classes, bases, seen).order ==
            first.order + MroBases(classes, bases[n..], first.seen).order
    decreases n
  {
    if n == 0 {
      assert bases[0..] == bases;
    } else {
      var first := Mro(classes, bases[0], seen);
      MroBasesSplit(classes, bases[1..], first.seen, n - 1);
      assert bases[1..][..n - 1] == bases[..n][1..] && bases[1..][n - 1..] == bases[n..];
    }
  }

  ghost predicate Precedes(order: seq<string>, c: string, d: string) {
    exists i, j :: 0 <= i < j < |order| && order[i] == c && order[j] == d
  }

  // Depth first, from left to right: what the walk reaches through one of the
  // first n bases comes before everything that only later bases reach.
  lemma EarlierBaseFirst(classes: Classes, cls: string, n: nat, c: string, d: string)
    requires cls in classes && n <= |classes[cls].bases|
    requires exists i :: 0 <= i < n && ReachableAvoiding(classes, {cls}, classes[cls].bases[i], c)
    requires forall i :: 0 <= i < n ==> !ReachableAvoiding(classes, {cls}, classes[cls].bases[i], d)
    requires Reachable(classes, cls, d) && d != cls
    ensures Precedes(Mro(classes, cls, {}).order, c, d)
  {
    var bases := classes[cls].bases;
    var front := MroBases(classes, bases[..n], {cls});
    WalkSplits(classes, cls, n);
    MroIsReachableClasses(classes, cls);
    var i :| 0 <= i < n && ReachableAvoiding(classes, {cls}, bases[i], c);
    BasesListReachable(classes, bases[..n], {cls}, i, c);
    UnreachedIsNotListed(classes, bases[..n], {cls}, d);
    FrontPrecedes(cls, front.order, MroBases(classes, bases[n..], front.seen).order, c, d);
  }

  lemma UnreachedIsNotListed(classes: Classes, bases: seq<string>, seen: set<string>, d: string)
    requires forall i :: 0 <= i < |bases| ==> !ReachableAvoiding(classes, seen, bases[i], d)
    ensures d !in MroBases(classes, bases, seen).order
  {
    if d in MroBases(classes, bases, seen).order {
      var b := BaseReachesListed(classes, bases, seen, d);
    }
  }

  lemma WalkSplits(classes: Classes, cls: string, n: nat)
    requires cls in classes && n <= |classes[cls].bases|
    ensures var bases := classes[cls].bases;
            var front := MroBases(classes, bases[..n], {cls});
            Mro(classes, cls, {}).order ==
            [cls] + (front.order + MroBases(classes, bases[n..], front.seen).order)
  {
    MroBasesSplit(classes, classes[cls].bases, {cls}, n);
    assert {} + {cls} == {cls};
  }

  lemma FrontPrecedes(cls: string, front: seq<string>, back: seq<string>, c: string, d: string)
    requires c in front && d !in front && d != cls && d in [cls] + (front + back)
    ensures Precedes([cls] + (front + back), c, d)
  {
    var order := [cls] + (front + back);
    var x :| 0 <= x < |front| && front[x] == c;
    var y :| 0 <= y < |order| && order[y] == d;
    assert order[1 + x] == c;
    assert forall k :: 0 <= k < |front| ==> order[1 + k] == front[k];
  }

  lemma BasesListReachable(classes: Classes, bases: seq<string>, seen: set<string>, i: nat, c: string)
    requires i < |bases| && ReachableAvoiding(classes, seen, bases[i], c)
    ensures c in MroBases(classes, bases, seen).order
  {
    var p :| IsChain(classes, p, bases[i], c) && forall k :: 0 <= k < |p| ==> p[k] !in seen;
    MroBasesAdds(classes, bases, seen);
    var w := MroBases(classes, bases, seen);
    assert p[0] == bases[i] && bases[i] in w.seen && bases[i] in Elements(w.order);
    ChainIsListed(classes, seen, w, p, bases[i], c);
  }
}
