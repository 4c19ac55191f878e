/** The sorted enumeration of a finite set under an integer-sequence key, as library sorts produce it. */
module Sorting {
  /** Strict lexicographic order. */
  predicate Less(a: seq<int>, b: seq<int>) {
    b != [] && (a == [] || a[0] < b[0] || (a[0] == b[0] && Less(a[1..], b[1..])))
  }

  lemma {:induction false} LessIsTotal(a: seq<int>, b: seq<int>)
    ensures a == b || Less(a, b) || Less(b, a)
  {
    if a != [] && b != [] && a[0] == b[0] {
      LessIsTotal(a[1..], b[1..]);
      assert a == [a[0]] + a[1..] && b == [b[0]] + b[1..];
    }
  }

  lemma {:induction false} LessIsStrict(a: seq<int>, b: seq<int>)
    requires Less(a, b)
    ensures a != b && !Less(b, a)
  {
    if a != [] && a[0] == b[0] {
      LessIsStrict(a[1..], b[1..]);
    }
  }

  lemma {:induction false} LessIsTransitive(a: seq<int>, b: seq<int>, c: seq<int>)
    requires Less(a, b) && Less(b, c)
    ensures Less(a, c)
  {
    if a != [] && a[0] == b[0] == c[0] {
      LessIsTransitive(a[1..], b[1..], c[1..]);
    }
  }

  /** The sequences agree before an index, and the first is smaller there. */
  predicate SmallerAt(a: seq<int>, b: seq<int>, i: nat) {
    i < |a| && i < |b| && a[..i] == b[..i] && a[i] < b[i]
  }

  lemma SmallerAtShifts(a: seq<int>, b: seq<int>, i: nat)
    requires a != [] && b != [] && a[0] == b[0]
    ensures SmallerAt(a, b, i + 1) <==> SmallerAt(a[1..], b[1..], i)
    ensures !SmallerAt(a, b, 0)
  {
    if i < |a| - 1 && i < |b| - 1 {
      assert a[..i + 1] == [a[0]] + a[1..][..i] && b[..i + 1] == [b[0]] + b[1..][..i];
      assert a[..i + 1][1..] == a[1..][..i] && b[..i + 1][1..] == b[1..][..i];
    }
  }

  /** A sequence is less when it is a proper prefix, or smaller at the first difference. */
  lemma {:induction false} LessIsLexicographic(a: seq<int>, b: seq<int>)
    ensures Less(a, b) <==> a < b || exists i: nat :: SmallerAt(a, b, i)
  {
    if a != [] && b != [] {
      if a[0] == b[0] {
        LessIsLexicographic(a[1..], b[1..]);
        forall i: nat ensures SmallerAt(a, b, i + 1) <==> SmallerAt(a[1..], b[1..], i) {
          SmallerAtShifts(a, b, i);
        }
        if i: nat :| SmallerAt(a, b, i) {
          assert i > 0 && SmallerAt(a[1..], b[1..], i - 1);
        }
      } else {
        assert a[0] < b[0] ==> SmallerAt(a, b, 0);
        if i: nat :| SmallerAt(a, b, i) {
          assert i > 0 ==> a[..i][0] == b[..i][0];
        }
      }
    }
  }

  type Key<!T> = T -> seq<int>

  /** Different elements have different keys. */
  ghost predicate Separates<T>(key: Key<T>, s: set<T>) {
    forall x, y :: x in s && y in s && key(x) == key(y) ==> x == y
  }

  ghost predicate IsLeast<T>(key: Key<T>, s: set<T>, x: T) {
    x in s && forall y :: y in s && y != x ==> Less(key(x), key(y))
  }

  ghost function Least<T>(key: Key<T>, s: set<T>): (x: T)
    requires Separates(key, s) && s != {}
    ensures IsLeast(key, s, x)
    decreases |s|
  {
    var x :| x in s;
    if s - {x} == {} then
      assert forall y :: y in s && y != x ==> y in s - {x};
      x
    else
      var y := Least(key, s - {x});
      LeastStep(key, s, x, y);
      if Less(key(x), key(y)) then x else y
  }

  lemma LeastStep<T>(key: Key<T>, s: set<T>, x: T, y: T)
    requires Separates(key, s) && x in s && IsLeast(key, s - {x}, y)
    ensures IsLeast(key, s, if Less(key(x), key(y)) then x else y)
  {
    LessIsTotal(key(x), key(y));
    forall z | z in s && z != x
      ensures z in s - {x}
      ensures Less(key(x), key(y)) ==> Less(key(x), key(z))
    {
      if z != y && Less(key(x), key(y)) {
        LessIsTransitive(key(x), key(y), key(z));
      }
    }
  }

  ghost function Sorted<T>(key: Key<T>, s: set<T>): seq<T>
    requires Separates(key, s)
    decreases |s|
  {
    if s == {} then [] else [Least(key, s)] + Sorted(key, s - {Least(key, s)})
  }

  ghost predicate Ascending<T>(key: Key<T>, xs: seq<T>) {
    forall i, j :: 0 <= i < j < |xs| ==> Less(key(xs[i]), key(xs[j]))
  }

  lemma {:induction false} SortedMembers<T>(key: Key<T>, s: set<T>)
    requires Separates(key, s)
    ensures forall x :: x in Sorted(key, s) <==> x in s
    ensures |Sorted(key, s)| == |s|
    decreases |s|
  {
    if s != {} {
      SortedMembers(key, s - {Least(key, s)});
    }
  }

  lemma AscendingCons<T>(key: Key<T>, s: set<T>, least: T, tail: seq<T>)
    requires IsLeast(key, s, least) && Ascending(key, tail)
    requires forall x :: x in tail <==> x in s - {least}
    ensures Ascending(key, [least] + tail)
  {
    forall j | 0 <= j < |tail|
      ensures Less(key(least), key(tail[j]))
    {
      assert tail[j] in tail;
    }
  }

  lemma {:induction false} SortedAscends<T>(key: Key<T>, s: set<T>)
    requires Separates(key, s)
    ensures Ascending(key, Sorted(key, s))
    decreases |s|
  {
    if s != {} {
      var least := Least(key, s);
      SortedAscends(key, s - {least});
      SortedMembers(key, s - {least});
      AscendingCons(key, s, least, Sorted(key, s - {least}));
    }
  }

  lemma AscendingHead<T>(key: Key<T>, s: set<T>, xs: seq<T>)
    requires xs != [] && Ascending(key, xs)
    requires forall x :: x in xs <==> x in s
    ensures IsLeast(key, s, xs[0])
    ensures forall x :: x in xs[1..] <==> x in s - {xs[0]}
    ensures Ascending(key, xs[1..])
  {
    forall x
      ensures x in xs[1..] <==> x in s - {xs[0]}
    {
      if x in xs[1..] {
        var j :| 1 <= j < |xs| && xs[j] == x;
        LessIsStrict(key(xs[0]), key(xs[j]));
      }
    }
    forall y | y in s && y != xs[0]
      ensures Less(key(xs[0]), key(y))
    {
      var j :| 0 <= j < |xs| && xs[j] == y;
    }
  }

  lemma LeastIsUnique<T>(key: Key<T>, s: set<T>, x: T, y: T)
    requires IsLeast(key, s, x) && IsLeast(key, s, y)
    ensures x == y
  {
    if x != y {
      LessIsStrict(key(x), key(y));
    }
  }

  lemma SortedFromLeast<T>(key: Key<T>, s: set<T>, x: T, rest: set<T>)
    requires Separates(key, s) && IsLeast(key, s, x) && rest == s - {x}
    ensures Sorted(key, s) == [x] + Sorted(key, rest)
  {
    LeastIsUnique(key, s, x, Least(key, s));
  }

  /** There is only one ascending enumeration. */
  lemma {:induction false} AscendingIsSorted<T>(key: Key<T>, s: set<T>, xs: seq<T>)
    requires Separates(key, s)
    requires forall x :: x in xs <==> x in s
    requires Ascending(key, xs)
    ensures xs == Sorted(key, s)
    decreases |s|
  {
    if xs == [] {
      assert s == {};
    } else {
      var rest := s - {xs[0]};
      AscendingHead(key, s, xs);
      AscendingIsSorted(key, rest, xs[1..]);
      SortedFromLeast(key, s, xs[0], rest);
      assert xs == [xs[0]] + xs[1..];
    }
  }
}
