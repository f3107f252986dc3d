// Code-point order on strings, and the canonical form of Python's
// `sorted(set(xs))` and `sorted(xs, key=...)`.

module LexOrder {
  import opened Basics

  predicate Less(a: string, b: string) {
    if |b| == 0 then false
    else if |a| == 0 then true
    else if a[0] != b[0] then a[0] < b[0]
    else Less(a[1..], b[1..])
  }

  // One text comes before another if it is a proper prefix, or holds the
  // smaller character where the two first differ.
  lemma {:induction false} LessExactly(a: string, b: string)
    ensures Less(a, b) <==>
            || (a <= b && a != b)
            || exists k :: 0 <= k < |a| && k < |b| && a[..k] == b[..k] && a[k] < b[k]
  {
    if a != "" && b != "" {
      if a[0] == b[0] {
        var x, y := a[1..], b[1..];
        LessExactly(x, y);
        assert a == [a[0]] + x && b == [b[0]] + y;
        if k :| 0 <= k < |x| && k < |y| && x[..k] == y[..k] && x[k] < y[k] {
          assert a[..k + 1] == [a[0]] + x[..k] && b[..k + 1] == [b[0]] + y[..k];
        }
        if k :| 0 <= k < |a| && k < |b| && a[..k] == b[..k] && a[k] < b[k] {
          assert x[..k - 1] == a[..k][1..] && y[..k - 1] == b[..k][1..];
        }
      } else {
        assert a[..0] == b[..0];
        assert forall k :: 0 < k < |a| && k < |b| ==> a[..k][0] != b[..k][0];
      }
    }
  }

  lemma {:induction false} Trichotomy(a: string, b: string)
    ensures Less(a, b) || a == b || Less(b, a)
    ensures !(Less(a, b) && Less(b, a)) && !Less(a, a)
  {
    if |a| > 0 && |b| > 0 && a[0] == b[0] {
      Trichotomy(a[1..], b[1..]);
      assert a == [a[0]] + a[1..] && b == [b[0]] + b[1..];
    }
    if |a| > 0 { Trichotomy(a[1..], a[1..]); }
  }

  lemma {:induction false} Transitive(a: string, b: string, c: string)
    requires Less(a, b) && Less(b, c)
    ensures Less(a, c)
  {
    if |a| > 0 && a[0] == b[0] && b[0] == c[0] {
      Transitive(a[1..], b[1..], c[1..]);
    }
  }

  // Strictly increasing keys: the result of sorting records whose keys differ.
  ghost predicate Increasing<T>(key: T -> string, s: seq<T>) {
    forall i, j :: 0 <= i < j < |s| ==> Less(key(s[i]), key(s[j]))
  }

  ghost predicate DistinctKeys<T>(key: T -> string, s: seq<T>) {
    forall i, j {:trigger key(s[i]), key(s[j])} :: 0 <= i < j < |s| ==> key(s[i]) != key(s[j])
  }

  function Insert<T>(key: T -> string, x: T, s: seq<T>): seq<T> {
    if |s| == 0 then [x]
    else if Less(key(s[0]), key(x)) then [s[0]] + Insert(key, x, s[1..])
    else [x] + s
  }

  // Stable insertion sort, standing for Python's `sorted(xs, key=key)`.
  function SortOn<T>(key: T -> string, xs: seq<T>): seq<T> {
    if |xs| == 0 then [] else Insert(key, xs[0], SortOn(key, xs[1..]))
  }

  lemma {:induction false} InsertElements<T>(key: T -> string, x: T, s: seq<T>)
    ensures Elements(Insert(key, x, s)) == {x} + Elements(s)
    ensures |Insert(key, x, s)| == |s| + 1
  {
    if |s| > 0 {
      InsertElements(key, x, s[1..]);
      var rest := Insert(key, x, s[1..]);
      ElementsOfConcat([s[0]], s[1..]);
      ElementsOfConcat([s[0]], rest);
      ElementsOfConcat([x], s);
      assert s == [s[0]] + s[1..];
    }
  }

  // Sorting neither loses nor invents a record.
  lemma {:induction false} SortOnElements<T>(key: T -> string, xs: seq<T>)
    ensures Elements(SortOn(key, xs)) == Elements(xs)
    ensures |SortOn(key, xs)| == |xs|
  {
    if |xs| > 0 {
      SortOnElements(key, xs[1..]);
      InsertElements(key, xs[0], SortOn(key, xs[1..]));
      ElementsOfConcat([xs[0]], xs[1..]);
      assert xs == [xs[0]] + xs[1..];
    }
  }

  lemma {:induction false} InsertIncreasing<T>(key: T -> string, x: T, s: seq<T>)
    requires Increasing(key, s)
    requires forall y :: y in s ==> key(y) != key(x)
    ensures Increasing(key, Insert(key, x, s))
  {
    if |s| > 0 {
      if Less(key(s[0]), key(x)) {
        var rest := Insert(key, x, s[1..]);
        InsertIncreasing(key, x, s[1..]);
        InsertElements(key, x, s[1..]);
        forall j | 0 <= j < |rest| ensures Less(key(s[0]), key(rest[j])) {
          assert rest[j] in Elements(rest);
          assert rest[j] == x || rest[j] in s[1..];
        }
      } else {
        Trichotomy(key(s[0]), key(x));
        forall j | 0 <= j < |s| ensures Less(key(x), key(s[j])) {
          if j > 0 { Transitive(key(x), key(s[0]), key(s[j])); }
        }
      }
    }
  }

  lemma {:induction false} SortOnIncreasing<T>(key: T -> string, xs: seq<T>)
    requires DistinctKeys(key, xs)
    ensures Increasing(key, SortOn(key, xs))
  {
    if |xs| > 0 {
      var rest := SortOn(key, xs[1..]);
      SortOnIncreasing(key, xs[1..]);
      SortOnElements(key, xs[1..]);
      forall y | y in rest ensures key(y) != key(xs[0]) {
        assert y in Elements(rest);
        assert y in xs[1..];
      }
      InsertIncreasing(key, xs[0], rest);
    }
  }

  // An increasing arrangement of given records is unique.
  lemma {:induction false} IncreasingUnique<T>(key: T -> string, a: seq<T>, b: seq<T>)
    requires Increasing(key, a) && Increasing(key, b)
    requires Elements(a) == Elements(b)
    ensures a == b
  {
    if |a| == 0 {
      ElementsEmpty(a);
      ElementsEmpty(b);
    } else {
      assert a[0] in Elements(b);
      assert b != [];
      assert b[0] in Elements(a);
      var i :| 0 <= i < |a| && a[i] == b[0];
      var j :| 0 <= j < |b| && b[j] == a[0];
      assert i == 0 by { Trichotomy(key(a[0]), key(a[i])); }
      forall x | x in Elements(a[1..]) ensures x in Elements(b[1..]) {
        var k :| 0 < k < |a| && a[k] == x;
        Trichotomy(key(a[0]), key(a[k]));
        assert x in Elements(b);
      }
      forall x | x in Elements(b[1..]) ensures x in Elements(a[1..]) {
        var k :| 0 < k < |b| && b[k] == x;
        Trichotomy(key(b[0]), key(b[k]));
        assert x in Elements(a);
      }
      IncreasingUnique(key, a[1..], b[1..]);
      assert a == [a[0]] + a[1..] && b == [b[0]] + b[1..];
    }
  }

  // Sorting forgets the order in which records were enumerated.
  lemma SortOnOrderFree<T>(key: T -> string, xs: seq<T>, ys: seq<T>)
    requires DistinctKeys(key, xs) && DistinctKeys(key, ys)
    requires Elements(xs) == Elements(ys)
    ensures SortOn(key, xs) == SortOn(key, ys)
  {
    SortOnIncreasing(key, xs);
    SortOnIncreasing(key, ys);
    SortOnElements(key, xs);
    SortOnElements(key, ys);
    IncreasingUnique(key, SortOn(key, xs), SortOn(key, ys));
  }

  // Drop all but the last occurrence of every string.
  function Dedup(xs: seq<string>): seq<string> {
    if |xs| == 0 then []
    else if xs[0] in xs[1..] then Dedup(xs[1..])
    else [xs[0]] + Dedup(xs[1..])
  }

  lemma {:induction false} DedupMeaning(xs: seq<string>)
    ensures NoDuplicates(Dedup(xs)) && Elements(Dedup(xs)) == Elements(xs)
  {
    if |xs| > 0 {
      DedupMeaning(xs[1..]);
      var rest := Dedup(xs[1..]);
      ElementsOfConcat([xs[0]], xs[1..]);
      ElementsOfConcat([xs[0]], rest);
      assert xs == [xs[0]] + xs[1..];
      assert xs[0] in xs[1..] <==> xs[0] in Elements(rest);
      assert forall j :: 0 <= j < |rest| ==> rest[j] in Elements(rest);
    }
  }

  function Identity(s: string): string { s }

  // `sorted(set(xs))`.
  function SortedSet(xs: seq<string>): seq<string> {
    SortOn(Identity, Dedup(xs))
  }

  // The canonical form: increasing, same elements, and equal for two
  // sequences exactly when these hold the same set.
  lemma SortedSetMeaning(xs: seq<string>)
    ensures Increasing(Identity, SortedSet(xs))
    ensures Elements(SortedSet(xs)) == Elements(xs)
    ensures (SortedSet(xs) == []) == (xs == [])
  {
    DedupMeaning(xs);
    SortOnIncreasing(Identity, Dedup(xs));
    SortOnElements(Identity, Dedup(xs));
    if xs != [] {
      assert xs[0] in Elements(SortedSet(xs));
    }
  }

  lemma SortedSetCanonical(xs: seq<string>, ys: seq<string>)
    ensures SortedSet(xs) == SortedSet(ys) <==> Elements(xs) == Elements(ys)
    ensures SortedSet(SortedSet(xs)) == SortedSet(xs)
  {
    SortedSetMeaning(xs);
    SortedSetMeaning(ys);
    SortedSetMeaning(SortedSet(xs));
    if Elements(xs) == Elements(ys) {
      IncreasingUnique(Identity, SortedSet(xs), SortedSet(ys));
    }
    IncreasingUnique(Identity, SortedSet(xs), SortedSet(SortedSet(xs)));
  }
}
