/** Python's ordering of `str` values (lexicographic by code point, a proper
    prefix first) and `sorted(...)` of a set of strings, which the program
    uses to list configuration keys in its error messages. */
module StringOrder {

  /** `a <= b` on Python strings. */
  predicate Below(a: string, b: string)
    decreases |a|
  {
    |a| == 0 || (|b| > 0 && (a[0] < b[0] || (a[0] == b[0] && Below(a[1..], b[1..]))))
  }

  lemma {:induction false} BelowReflexive(a: string)
    ensures Below(a, a)
    decreases |a|
  {
    if |a| > 0 {
      BelowReflexive(a[1..]);
    }
  }

  lemma {:induction false} BelowAntisymmetric(a: string, b: string)
    requires Below(a, b) && Below(b, a)
    ensures a == b
    decreases |a|
  {
    if |a| > 0 {
      BelowAntisymmetric(a[1..], b[1..]);
      assert a == [a[0]] + a[1..];
      assert b == [b[0]] + b[1..];
    }
  }

  lemma {:induction false} BelowTransitive(a: string, b: string, c: string)
    requires Below(a, b) && Below(b, c)
    ensures Below(a, c)
    decreases |a|
  {
    if |a| > 0 && a[0] == b[0] && b[0] == c[0] {
      BelowTransitive(a[1..], b[1..], c[1..]);
    }
  }

  lemma {:induction false} BelowTotal(a: string, b: string)
    ensures Below(a, b) || Below(b, a)
    decreases |a|
  {
    if |a| > 0 && |b| > 0 && a[0] == b[0] {
      BelowTotal(a[1..], b[1..]);
    }
  }

  /** `m` is the smallest element of `s`. */
  predicate IsLeast(m: string, s: set<string>) {
    m in s && forall x :: x in s ==> Below(m, x)
  }

  lemma {:induction false} LeastExists(s: set<string>)
    requires s != {}
    ensures exists m :: IsLeast(m, s)
    decreases |s|
  {
    var x :| x in s;
    if s == {x} {
      BelowReflexive(x);
      assert IsLeast(x, s);
    } else {
      var rest := s - {x};
      LeastExists(rest);
      var m :| IsLeast(m, rest);
      BelowTotal(x, m);
      if Below(x, m) {
        forall y | y in s
          ensures Below(x, y)
        {
          if y == x {
            BelowReflexive(x);
          } else {
            BelowTransitive(x, m, y);
          }
        }
        assert IsLeast(x, s);
      } else {
        assert IsLeast(m, s);
      }
    }
  }

  lemma LeastUnique(s: set<string>)
    ensures forall m, n :: IsLeast(m, s) && IsLeast(n, s) ==> m == n
  {
    forall m, n | IsLeast(m, s) && IsLeast(n, s)
      ensures m == n
    {
      BelowAntisymmetric(m, n);
    }
  }

  /** Strictly ascending, hence also free of repetitions. */
  predicate Ascending(r: seq<string>) {
    forall i, j :: 0 <= i < j < |r| ==> Below(r[i], r[j]) && r[i] != r[j]
  }

  /** `sorted(s)`: the elements of `s`, each once, in ascending order. */
  function SortedKeys(s: set<string>): (r: seq<string>)
    ensures Ascending(r)
    ensures |r| == |s|
    ensures forall x :: x in r <==> x in s
    decreases |s|
  {
    if s == {} then []
    else
      LeastExists(s);
      LeastUnique(s);
      var m :| IsLeast(m, s);
      var rest := SortedKeys(s - {m});
      assert forall j :: 0 <= j < |rest| ==> rest[j] in s - {m};
      [m] + rest
  }

  /** The head of an ascending listing of a set is the set's least element. */
  lemma HeadIsLeast(r: seq<string>, s: set<string>)
    requires Ascending(r) && |r| > 0
    requires forall x :: x in r <==> x in s
    ensures IsLeast(r[0], s)
  {
    forall x | x in s
      ensures Below(r[0], x)
    {
      var k :| 0 <= k < |r| && r[k] == x;
      if k == 0 {
        BelowReflexive(x);
      }
    }
  }

  /** Sorting a set puts its least element first. */
  lemma SortedKeysUnfold(s: set<string>, m: string)
    requires IsLeast(m, s)
    ensures SortedKeys(s) == [m] + SortedKeys(s - {m})
  {
    LeastUnique(s);
  }

  /** Dropping the head of an ascending listing lists the rest of the set. */
  lemma TailListing(r: seq<string>, s: set<string>)
    requires Ascending(r) && |r| > 0
    requires forall x :: x in r <==> x in s
    ensures Ascending(r[1..])
    ensures forall x :: x in r[1..] <==> x in s - {r[0]}
  {
    forall x
      ensures x in r[1..] <==> x in s - {r[0]}
    {
      if x in s - {r[0]} {
        var k :| 0 <= k < |r| && r[k] == x;
        assert k != 0;
        assert r[1..][k - 1] == x;
      }
    }
  }

  /** Sorting a set is determined by the set alone: any ascending listing of
      exactly its elements is `SortedKeys` of it. */
  lemma {:induction false} AscendingListingIsSorted(r: seq<string>, s: set<string>)
    requires Ascending(r)
    requires forall x :: x in r <==> x in s
    ensures r == SortedKeys(s)
    decreases |r|
  {
    if |r| == 0 {
      assert s == {};
    } else {
      var m := r[0];
      HeadIsLeast(r, s);
      SortedKeysUnfold(s, m);
      TailListing(r, s);
      AscendingListingIsSorted(r[1..], s - {m});
      ConsTail(r);
    }
  }

  lemma ConsTail<T>(r: seq<T>)
    requires |r| > 0
    ensures r == [r[0]] + r[1..]
  {
  }
}
