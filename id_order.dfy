/**
 * The order the list queries sort identifiers by (`ORDER BY uuid DESC`). The database's own
 * collation is not modelled; identifiers are compared as strings, code point by code point,
 * which is a strict total order, and that is all the listing relies on.
 */
module IdOrder {

  /** `a` sorts strictly before `b`. */
  predicate Below(a: string, b: string)
    decreases |a|
  {
    if a == [] then b != []
    else b != [] && (a[0] < b[0] || (a[0] == b[0] && Below(a[1..], b[1..])))
  }

  lemma {:induction false} BelowIrreflexive(a: string)
    ensures !Below(a, a)
    decreases |a|
  {
    if a != [] {
      BelowIrreflexive(a[1..]);
    }
  }

  lemma {:induction false} BelowTransitive(a: string, b: string, c: string)
    requires Below(a, b) && Below(b, c)
    ensures Below(a, c)
    decreases |a|
  {
    if a != [] && a[0] == b[0] && b[0] == c[0] {
      BelowTransitive(a[1..], b[1..], c[1..]);
    }
  }

  lemma {:induction false} BelowTotal(a: string, b: string)
    requires a != b
    ensures Below(a, b) || Below(b, a)
    decreases |a|
  {
    if a != [] && b != [] && a[0] == b[0] {
      assert a == [a[0]] + a[1..] && b == [b[0]] + b[1..];
      BelowTotal(a[1..], b[1..]);
    }
  }

  lemma BelowAsymmetric(a: string, b: string)
    requires Below(a, b)
    ensures !Below(b, a)
  {
  }

  /** `m` is the largest identifier of `s`. */
  predicate IsGreatest(m: string, s: set<string>)
  {
    m in s && forall x :: x in s && x != m ==> Below(x, m)
  }

  lemma {:induction false} GreatestExists(s: set<string>)
    requires s != {}
    ensures exists m :: IsGreatest(m, s)
    decreases s
  {
    var y :| y in s;
    var rest := s - {y};
    if rest == {} {
      assert s == {y};
      assert IsGreatest(y, s);
    } else {
      GreatestExists(rest);
      var m :| IsGreatest(m, rest);
      BelowTotal(m, y);
      if Below(m, y) {
        forall x | x in s && x != y
          ensures Below(x, y)
        {
          if x != m {
            BelowTransitive(x, m, y);
          }
        }
        assert IsGreatest(y, s);
      } else {
        assert IsGreatest(m, s);
      }
    }
  }

  lemma GreatestUnique(s: set<string>)
    ensures forall m, n :: IsGreatest(m, s) && IsGreatest(n, s) ==> m == n
  {
    forall m, n | IsGreatest(m, s) && IsGreatest(n, s)
      ensures m == n
    {
      if m != n {
        BelowAsymmetric(m, n);
      }
    }
  }

  /** Strictly decreasing: every later identifier sorts before every earlier one. */
  predicate Descending(r: seq<string>)
  {
    forall i, j :: 0 <= i < j < |r| ==> Below(r[j], r[i])
  }

  /** The identifiers of `s` from largest to smallest. */
  function SortedDesc(s: set<string>): (r: seq<string>)
    ensures |r| == |s|
    ensures forall x :: x in r <==> x in s
    ensures Descending(r)
    decreases s
  {
    if s == {} then []
    else
      GreatestExists(s);
      GreatestUnique(s);
      var m :| IsGreatest(m, s);
      var rest := SortedDesc(s - {m});
      assert forall j :: 0 <= j < |rest| ==> rest[j] in s - {m};
      [m] + rest
  }
}
