/**
 * The order in which a comparison visits the keys of a key set. A Java hash
 * set iterates in an order of its own that is stable for one set; this model
 * fixes one such order, ascending lexicographic order of the key strings, so
 * that every traversal of the same set visits the same keys in the same order.
 */
module KeyOrder {

  /** Strict lexicographic order on strings (a proper prefix comes first). */
  predicate Below(a: string, b: string)
    decreases |a|
  {
    if |b| == 0 then false
    else if |a| == 0 then true
    else if a[0] != b[0] then a[0] < b[0]
    else Below(a[1..], b[1..])
  }

  lemma {:induction false} BelowIrreflexive(a: string)
    ensures !Below(a, a)
    decreases |a|
  {
    if |a| > 0 {
      BelowIrreflexive(a[1..]);
    }
  }

  lemma {:induction false} BelowTransitive(a: string, b: string, c: string)
    requires Below(a, b) && Below(b, c)
    ensures Below(a, c)
    decreases |a|
  {
    if |a| > 0 && a[0] == b[0] && b[0] == c[0] {
      BelowTransitive(a[1..], b[1..], c[1..]);
    }
  }

  lemma {:induction false} BelowTotal(a: string, b: string)
    requires a != b
    ensures Below(a, b) || Below(b, a)
    decreases |a|
  {
    if |a| > 0 && |b| > 0 && a[0] == b[0] {
      assert a == [a[0]] + a[1..] && b == [b[0]] + b[1..];
      BelowTotal(a[1..], b[1..]);
    }
  }

  lemma BelowAsymmetric(a: string, b: string)
    requires Below(a, b)
    ensures !Below(b, a)
  {
    if Below(b, a) {
      BelowTransitive(a, b, a);
      BelowIrreflexive(a);
    }
  }

  /** `m` is the first element of `s` in key order. */
  predicate IsLeast(m: string, s: set<string>)
  {
    m in s && forall x <- s :: x == m || Below(m, x)
  }

  lemma {:induction false} LeastExists(s: set<string>)
    requires s != {}
    ensures exists m :: IsLeast(m, s)
    decreases |s|
  {
    var x :| x in s;
    if s - {x} == {} {
      assert s == {x};
      assert IsLeast(x, s);
    } else {
      LeastExists(s - {x});
      var m :| IsLeast(m, s - {x});
      if Below(x, m) {
        forall y | y in s && y != x
          ensures Below(x, y)
        {
          if y != m {
            BelowTransitive(x, m, y);
          }
        }
        assert IsLeast(x, s);
      } else {
        BelowTotal(x, m);
        assert IsLeast(m, s);
      }
    }
  }

  lemma LeastUnique(s: set<string>, m: string, m': string)
    requires IsLeast(m, s) && IsLeast(m', s)
    ensures m == m'
  {
    if m != m' {
      BelowAsymmetric(m, m');
    }
  }

  /** The first key of a non-empty key set. */
  function Least(s: set<string>): (m: string)
    requires s != {}
    ensures IsLeast(m, s)
  {
    LeastExists(s);
    assert forall m, m' | IsLeast(m, s) && IsLeast(m', s) :: m == m' by {
      forall m, m' | IsLeast(m, s) && IsLeast(m', s) ensures m == m' {
        LeastUnique(s, m, m');
      }
    }
    var m :| IsLeast(m, s); m
  }

  predicate Ascending(r: seq<string>)
  {
    forall i, j | 0 <= i < j < |r| :: Below(r[i], r[j])
  }

  predicate Distinct<T(==)>(r: seq<T>)
  {
    forall i, j | 0 <= i < j < |r| :: r[i] != r[j]
  }

  /**
   * The iteration of a key set: every key exactly once, in key order.
   */
  function Enumerate(s: set<string>): (r: seq<string>)
    ensures |r| == |s|
    ensures forall x :: x in r <==> x in s
    ensures Ascending(r)
    ensures Distinct(r)
    decreases |s|
  {
    if s == {} then []
    else
      var m := Least(s);
      var rest := Enumerate(s - {m});
      assert forall i | 0 < i < |[m] + rest| :: Below(m, ([m] + rest)[i]) by {
        forall i | 0 < i < |[m] + rest| ensures Below(m, ([m] + rest)[i]) {
          assert rest[i - 1] in s - {m};
        }
      }
      assert Distinct([m] + rest) by {
        forall i, j | 0 <= i < j < |[m] + rest|
          ensures ([m] + rest)[i] != ([m] + rest)[j]
        {
          if i == 0 {
            assert rest[j - 1] in s - {m};
          }
        }
      }
      [m] + rest
  }
}
