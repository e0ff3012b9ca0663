/** Python's ordering of names and `sorted()` over a listing. Paths in one
    directory compare by their names, and names compare as Python strings:
    lexicographically by code point, a proper prefix first. */
module Order {

  /** `a <= b` on Python strings. */
  predicate Le(a: string, b: string)
    decreases |a|
  {
    a == [] || (b != [] && (a[0] < b[0] || (a[0] == b[0] && Le(a[1..], b[1..]))))
  }

  /** `a < b` on Python strings. */
  predicate Lt(a: string, b: string) {
    Le(a, b) && a != b
  }

  lemma {:induction false} LeReflexive(a: string)
    ensures Le(a, a)
    decreases |a|
  {
    if a != [] { LeReflexive(a[1..]); }
  }

  lemma {:induction false} LeAntisymmetric(a: string, b: string)
    requires Le(a, b) && Le(b, a)
    ensures a == b
    decreases |a|
  {
    if a != [] && b != [] {
      LeAntisymmetric(a[1..], b[1..]);
      assert a == [a[0]] + a[1..] && b == [b[0]] + b[1..];
    }
  }

  lemma {:induction false} LeTransitive(a: string, b: string, c: string)
    requires Le(a, b) && Le(b, c)
    ensures Le(a, c)
    decreases |a|
  {
    if a != [] && b != [] && c != [] && a[0] == b[0] == c[0] {
      LeTransitive(a[1..], b[1..], c[1..]);
    }
  }

  lemma {:induction false} LeTotal(a: string, b: string)
    ensures Le(a, b) || Le(b, a)
    decreases |a|
  {
    if a != [] && b != [] && a[0] == b[0] {
      LeTotal(a[1..], b[1..]);
    }
  }

  /** `m` is the least name of `s`. */
  predicate IsLeast(m: string, s: set<string>) {
    m in s && forall x :: x in s ==> Le(m, x)
  }

  /** Every finite non-empty set of names has a least one. */
  lemma {:induction false} LeastExists(s: set<string>)
    requires s != {}
    ensures exists m :: IsLeast(m, s)
    decreases |s|
  {
    var x :| x in s;
    if s == {x} {
      LeReflexive(x);
      assert IsLeast(x, s);
    } else {
      LeastExists(s - {x});
      var m :| IsLeast(m, s - {x});
      LeTotal(m, x);
      if Le(m, x) {
        assert IsLeast(m, s);
      } else {
        LeReflexive(x);
        forall y | y in s ensures Le(x, y) {
          if y != x { LeTransitive(x, m, y); }
        }
        assert IsLeast(x, s);
      }
    }
  }

  lemma LeastUnique(s: set<string>)
    ensures forall a, b :: IsLeast(a, s) && IsLeast(b, s) ==> a == b
  {
    forall a, b | IsLeast(a, s) && IsLeast(b, s) ensures a == b {
      LeAntisymmetric(a, b);
    }
  }

  /** Each name is strictly below every later one. */
  predicate StrictlySorted(r: seq<string>) {
    forall i, j :: 0 <= i < j < |r| ==> Lt(r[i], r[j])
  }

  /** `sorted()` over the names of a listing: each name once, in ascending order. */
  function SortedOf(s: set<string>): (r: seq<string>)
    ensures |r| == |s|
    ensures forall x :: x in r <==> x in s
    ensures StrictlySorted(r)
    decreases |s|
  {
    if s == {} then []
    else
      LeastExists(s);
      LeastUnique(s);
      var m :| IsLeast(m, s);
      [m] + SortedOf(s - {m})
  }

  /** The head of a strictly sorted arrangement of `s` is the least name of `s`. */
  lemma SortedHeadIsLeast(r: seq<string>, s: set<string>)
    requires StrictlySorted(r) && r != []
    requires forall x :: x in r <==> x in s
    ensures IsLeast(r[0], s)
  {
    forall x | x in s ensures Le(r[0], x) {
      var k :| 0 <= k < |r| && r[k] == x;
      if k == 0 { LeReflexive(x); }
    }
  }

  /** Dropping the head of a strictly sorted arrangement of `s` leaves a
      strictly sorted arrangement of the rest of `s`. */
  lemma SortedTail(r: seq<string>, s: set<string>)
    requires StrictlySorted(r) && r != []
    requires forall x :: x in r <==> x in s
    ensures StrictlySorted(r[1..])
    ensures forall x :: x in r[1..] <==> x in s - {r[0]}
  {
    forall x | x in s - {r[0]} ensures x in r[1..] {
      var k :| 0 <= k < |r| && r[k] == x;
      assert r[1..][k - 1] == x;
    }
  }

  /** In a strictly sorted sequence, a smaller name comes first. */
  lemma SortedPosition(r: seq<string>, j: nat, k: nat)
    requires StrictlySorted(r) && j < |r| && k < |r|
    requires Lt(r[j], r[k])
    ensures j < k
  {
    if k < j {
      LeAntisymmetric(r[j], r[k]);
    }
  }

  /** `sorted()` of a listing is its least name followed by `sorted()` of
      the rest. */
  lemma SortedOfLeast(s: set<string>, m: string)
    requires IsLeast(m, s)
    ensures SortedOf(s) == [m] + SortedOf(s - {m})
  {
    LeastUnique(s);
  }

  lemma {:induction false} SortedUnique(r: seq<string>, s: set<string>)
    requires StrictlySorted(r)
    requires forall x :: x in r <==> x in s
    ensures r == SortedOf(s)
    decreases |r|
  {
    if r == [] {
      assert s == {};
    } else {
      var m := r[0];
      SortedHeadIsLeast(r, s);
      SortedOfLeast(s, m);
      SortedTail(r, s);
      SortedUnique(r[1..], s - {m});
      assert r == [m] + r[1..];
    }
  }
}
