/**
 * The order in which the difference table is iterated. Grouping sorts the
 * file names, and aligning two sorted indexes keeps them sorted, so the rows
 * come in ascending order of file name, compared as Python compares strings:
 * lexicographically by code point, a proper prefix first.
 */
module KeyOrder {

  /** `a <= b` on strings. */
  predicate Below(a: string, b: string)
  {
    a == [] || (b != [] && (a[0] < b[0] || (a[0] == b[0] && Below(a[1..], b[1..]))))
  }

  lemma {:induction false} BelowReflexive(a: string)
    ensures Below(a, a)
  {
    if a != [] {
      BelowReflexive(a[1..]);
    }
  }

  lemma {:induction false} BelowAntisymmetric(a: string, b: string)
    requires Below(a, b) && Below(b, a)
    ensures a == b
  {
    if a != [] && b != [] {
      BelowAntisymmetric(a[1..], b[1..]);
      assert a == [a[0]] + a[1..] && b == [b[0]] + b[1..];
    }
  }

  lemma {:induction false} BelowTransitive(a: string, b: string, c: string)
    requires Below(a, b) && Below(b, c)
    ensures Below(a, c)
  {
    if a != [] && b != [] && c != [] && a[0] == b[0] == c[0] {
      BelowTransitive(a[1..], b[1..], c[1..]);
    }
  }

  lemma {:induction false} BelowTotal(a: string, b: string)
    ensures Below(a, b) || Below(b, a)
  {
    if a != [] && b != [] && a[0] == b[0] {
      BelowTotal(a[1..], b[1..]);
    }
  }

  /** `k` is the smallest name of `names`. */
  predicate IsLeast(k: string, names: set<string>)
  {
    k in names && forall j :: j in names ==> Below(k, j)
  }

  /** Every non-empty finite set of names has a smallest one. */
  lemma {:induction false} LeastExists(names: set<string>)
    requires names != {}
    ensures exists k :: IsLeast(k, names)
    decreases names
  {
    var x :| x in names;
    BelowReflexive(x);
    if names != {x} {
      LeastExists(names - {x});
      var k :| IsLeast(k, names - {x});
      BelowTotal(k, x);
      if Below(k, x) {
        assert IsLeast(k, names);
      } else {
        forall j | j in names ensures Below(x, j) {
          if j != x {
            BelowTransitive(x, k, j);
          }
        }
        assert IsLeast(x, names);
      }
    } else {
      assert IsLeast(x, names);
    }
  }

  lemma LeastUnique(names: set<string>)
    ensures forall k, k' :: IsLeast(k, names) && IsLeast(k', names) ==> k == k'
  {
    forall k, k' | IsLeast(k, names) && IsLeast(k', names) ensures k == k' {
      BelowAntisymmetric(k, k');
    }
  }

  /** Strictly ascending: each name is below and different from every later one. */
  predicate StrictlyAscending(s: seq<string>)
  {
    forall i, j :: 0 <= i < j < |s| ==> Below(s[i], s[j]) && s[i] != s[j]
  }

  /** The names of a set, listed once each in ascending order. */
  function SortedNames(names: set<string>): (s: seq<string>)
    ensures |s| == |names|
    ensures forall k :: k in s <==> k in names
    ensures StrictlyAscending(s)
    decreases names
  {
    if names == {} then []
    else
      LeastExists(names);
      LeastUnique(names);
      var k :| IsLeast(k, names);
      [k] + SortedNames(names - {k})
  }
}
