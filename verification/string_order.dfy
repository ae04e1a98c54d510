/**
 The order in which a `BTreeMap<String, _>` yields its keys: lexicographic on
 characters, a proper prefix first. Comparing UTF-8 bytes, as Rust does,
 orders strings exactly as comparing their code points does.
 */
module StringOrder {

  /** `a` sorts no later than `b`. */
  predicate Le(a: string, b: string)
    decreases |a|
  {
    |a| == 0 || (|b| > 0 && (a[0] < b[0] || (a[0] == b[0] && Le(a[1..], b[1..]))))
  }

  /** `a` sorts strictly before `b`. */
  predicate Lt(a: string, b: string) {
    Le(a, b) && a != b
  }

  lemma {:induction false} LeReflexive(a: string)
    ensures Le(a, a)
    decreases |a|
  {
    if |a| > 0 {
      LeReflexive(a[1..]);
    }
  }

  lemma {:induction false} LeTotal(a: string, b: string)
    ensures Le(a, b) || Le(b, a)
    decreases |a|
  {
    if |a| > 0 && |b| > 0 && a[0] == b[0] {
      LeTotal(a[1..], b[1..]);
    }
  }

  lemma {:induction false} LeAntisymmetric(a: string, b: string)
    requires Le(a, b) && Le(b, a)
    ensures a == b
    decreases |a|
  {
    if |a| > 0 {
      LeAntisymmetric(a[1..], b[1..]);
      assert a == [a[0]] + a[1..];
      assert b == [b[0]] + b[1..];
    }
  }

  lemma {:induction false} LeTransitive(a: string, b: string, c: string)
    requires Le(a, b) && Le(b, c)
    ensures Le(a, c)
    decreases |a|
  {
    if |a| > 0 && a[0] == b[0] && b[0] == c[0] {
      LeTransitive(a[1..], b[1..], c[1..]);
    }
  }

  /** Every non-empty finite set of strings has a least element. */
  lemma {:induction false} LeastExists(s: set<string>)
    requires s != {}
    ensures exists m :: m in s && forall x :: x in s ==> Le(m, x)
    decreases |s|
  {
    var y :| y in s;
    if s == {y} {
      LeReflexive(y);
      assert forall x :: x in s ==> Le(y, x);
    } else {
      var rest := s - {y};
      LeastExists(rest);
      var m :| m in rest && forall x :: x in rest ==> Le(m, x);
      LeTotal(m, y);
      if Le(m, y) {
        assert forall x :: x in s ==> Le(m, x);
      } else {
        forall x | x in s
          ensures Le(y, x)
        {
          if x == y {
            LeReflexive(y);
          } else {
            LeTransitive(y, m, x);
          }
        }
      }
    }
  }

  /** The least element of a non-empty set of strings. */
  function Least(s: set<string>): (m: string)
    requires s != {}
    ensures m in s && forall x :: x in s ==> Le(m, x)
  {
    LeastExists(s);
    forall a, b | Le(a, b) && Le(b, a)
      ensures a == b
    {
      LeAntisymmetric(a, b);
    }
    var m :| m in s && forall x :: x in s ==> Le(m, x); m
  }

  /** The keys of a map in the order a `BTreeMap` iterates them: ascending, each once. */
  function SortedKeys(keys: set<string>): (r: seq<string>)
    ensures |r| == |keys|
    ensures forall x :: x in r <==> x in keys
    ensures forall i, j :: 0 <= i < j < |r| ==> Lt(r[i], r[j])
    decreases |keys|
  {
    if keys == {} then []
    else
      var m := Least(keys);
      var rest := SortedKeys(keys - {m});
      [m] + rest
  }
}
