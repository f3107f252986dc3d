// Result types and the text predicates shared by the modelled scripts.

module Basics {
  datatype Option<+T> = None | Some(value: T)

  // Ok, or the exception that ends the computation; supports `:-`.
  datatype Result<+T, +E> = Ok(value: T) | Err(error: E) {
    predicate IsFailure() { Err? }

    function PropagateFailure<U>(): Result<U, E>
      requires Err?
    {
      Err(error)
    }

    function Extract(): T
      requires Ok?
    {
      value
    }
  }

  predicate NoDuplicates<T(==)>(s: seq<T>) {
    forall i, j :: 0 <= i < j < |s| ==> s[i] != s[j]
  }

  function Elements<T>(s: seq<T>): set<T> {
    set x | x in s
  }

  lemma ElementsEmpty<T>(s: seq<T>)
    ensures Elements(s) == {} <==> s == []
  {
    if s != [] { assert s[0] in Elements(s); }
  }

  lemma ElementsOfConcat<T>(a: seq<T>, b: seq<T>)
    ensures Elements(a + b) == Elements(a) + Elements(b)
  {
    assert forall x :: x in a + b <==> x in a || x in b;
  }

  lemma ConcatDistinct<T>(a: seq<T>, b: seq<T>)
    requires NoDuplicates(a) && NoDuplicates(b) && Elements(a) !! Elements(b)
    ensures NoDuplicates(a + b)
  {
    forall i, j | 0 <= i < j < |a + b| ensures (a + b)[i] != (a + b)[j] {
      if i < |a| <= j {
        assert a[i] in Elements(a) && b[j - |a|] in Elements(b);
      }
    }
  }

  // `kept` are the items at the given places, in order: those that are to be
  // kept and no others.
  ghost predicate IsFilter<T(!new)>(items: seq<T>, kept: seq<T>, places: seq<nat>, keep: nat -> bool) {
    && |places| == |kept|
    && (forall k :: 0 <= k < |kept| ==>
          places[k] < |items| && items[places[k]] == kept[k] && keep(places[k]))
    && (forall j, k :: 0 <= j < k < |kept| ==> places[j] < places[k])
    && (forall i :: 0 <= i < |items| && keep(i) ==> i in places)
  }

  // One more item, which is to be kept or not.
  lemma FilterStep<T(!new)>(items: seq<T>, kept: seq<T>, places: seq<nat>, keep: nat -> bool,
                            x: T, now: nat -> bool)
    requires IsFilter(items, kept, places, keep)
    requires forall i: nat :: i < |items| ==> keep(i) == now(i)
    ensures if now(|items|) then IsFilter(items + [x], kept + [x], places + [|items|], now)
            else IsFilter(items + [x], kept, places, now)
  {
  }

  // The parts of all items, one behind the other.
  function Joined<T, U>(part: T -> seq<U>, items: seq<T>): seq<U> {
    if |items| == 0 then []
    else Joined(part, items[..|items| - 1]) + part(items[|items| - 1])
  }

  lemma {:induction false} JoinedConcat<T, U>(part: T -> seq<U>, a: seq<T>, b: seq<T>)
    ensures Joined(part, a + b) == Joined(part, a) + Joined(part, b)
  {
    if b == [] {
      assert a + b == a;
    } else {
      var front := b[..|b| - 1];
      JoinedConcat(part, a, front);
      assert (a + b)[..|a + b| - 1] == a + front;
    }
  }

  lemma JoinedFront<T, U>(part: T -> seq<U>, items: seq<T>)
    requires items != []
    ensures Joined(part, items) == part(items[0]) + Joined(part, items[1..])
  {
    var first := [items[0]];
    JoinedConcat(part, first, items[1..]);
    assert first[..0] == [];
    assert Joined(part, first) == [] + part(items[0]);
    assert items == first + items[1..];
  }

  lemma {:induction false} JoinedMembers<T, U>(part: T -> seq<U>, items: seq<T>, x: U)
    ensures x in Joined(part, items) <==> exists i :: 0 <= i < |items| && x in part(items[i])
  {
    if items != [] {
      var front := items[..|items| - 1];
      JoinedMembers(part, front, x);
      assert forall i :: 0 <= i < |front| ==> front[i] == items[i];
    }
  }

  // A sequence without duplicates has as many elements as its set.
  lemma {:induction false} DistinctCardinality<T>(s: seq<T>)
    requires NoDuplicates(s)
    ensures |Elements(s)| == |s|
  {
    if s != [] {
      var front, last := s[..|s| - 1], s[|s| - 1];
      DistinctCardinality(front);
      assert s == front + [last];
      ElementsOfConcat(front, [last]);
      assert Elements([last]) == {last};
    }
  }

  // Pigeonhole: distinct members of a finite set are no more than the set.
  lemma Pigeonhole<T>(s: seq<T>, within: set<T>)
    requires NoDuplicates(s)
    requires Elements(s) <= within
    ensures |s| <= |within|
  {
    DistinctCardinality(s);
    SubsetCardinality(Elements(s), within);
  }

  lemma SubsetCardinality<T>(a: set<T>, b: set<T>)
    requires a <= b
    ensures |a| <= |b|
    ensures |a| == |b| ==> a == b
  {
    assert b == a + (b - a);
    assert |b| == |a| + |b - a|;
  }
}

module Text {
  // Characters that Python's str.strip() removes.
  predicate IsSpace(c: char) {
    || '\t' <= c <= '\r' || '\U{1C}' <= c <= ' ' || c == '\U{85}' || c == '\U{A0}'
    || c == '\U{1680}' || '\U{2000}' <= c <= '\U{200A}' || c == '\U{2028}'
    || c == '\U{2029}' || c == '\U{202F}' || c == '\U{205F}' || c == '\U{3000}'
  }

  predicate IsDigit(c: char) { '0' <= c <= '9' }

  predicate IsLower(c: char) { 'a' <= c <= 'z' }

  predicate IsAlphanumeric(c: char) {
    IsDigit(c) || IsLower(c) || 'A' <= c <= 'Z'
  }

  predicate IsHex(c: char) { IsDigit(c) || 'a' <= c <= 'f' }

  predicate AllHex(s: string) { forall i :: 0 <= i < |s| ==> IsHex(s[i]) }

  predicate IsBlank(s: string) { forall i :: 0 <= i < |s| ==> IsSpace(s[i]) }

  // What is left of a text without the blanks at both of its ends.
  ghost predicate IsTrimmed(s: string, r: string, blank: char -> bool) {
    exists i, j :: 0 <= i <= j <= |s| && r == s[i..j] && TrimmedAt(s, i, j, blank)
  }

  ghost predicate TrimmedAt(s: string, i: nat, j: nat, blank: char -> bool)
    requires i <= j <= |s|
  {
    && (forall k :: 0 <= k < i ==> blank(s[k]))
    && (forall k :: j <= k < |s| ==> blank(s[k]))
    && (i < j ==> !blank(s[i]) && !blank(s[j - 1]))
  }

  // str.split(sep) for a one-character separator.
  function Split(s: string, sep: char): (parts: seq<string>)
    ensures parts != []
  {
    if s == "" then [""]
    else
      var rest := Split(s[1..], sep);
      if s[0] == sep then [""] + rest else [[s[0]] + rest[0]] + rest[1..]
  }

  lemma {:induction false} SplitWhole(a: string, sep: char)
    requires sep !in a
    ensures Split(a, sep) == [a]
  {
    if a != "" {
      SplitWhole(a[1..], sep);
      assert a == [a[0]] + a[1..];
    }
  }

  // The text up to the first separator is the first part.
  lemma {:induction false} SplitFirst(a: string, sep: char, rest: string)
    requires sep !in a
    ensures Split(a + [sep] + rest, sep) == [a] + Split(rest, sep)
  {
    var s := a + [sep] + rest;
    if a == "" {
      assert s[1..] == rest;
    } else {
      assert s[1..] == a[1..] + [sep] + rest;
      SplitFirst(a[1..], sep, rest);
      assert a == [a[0]] + a[1..];
    }
  }

  // The text behind the last separator is the last part.
  lemma {:induction false} SplitLast(front: string, sep: char, a: string)
    requires sep !in a
    ensures Split(front + [sep] + a, sep) == Split(front, sep) + [a]
  {
    var s := front + [sep] + a;
    if front == "" {
      assert s == "" + [sep] + a;
      SplitFirst("", sep, a);
      SplitWhole(a, sep);
    } else {
      assert s[1..] == front[1..] + [sep] + a && s[0] == front[0];
      SplitLast(front[1..], sep, a);
    }
  }
}
