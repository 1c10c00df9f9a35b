/**
 * `String.compareTo` as an order, and the ascending key order in which a
 * `ConcurrentSkipListMap` of names yields its entries.
 */
module StringOrder {

  /** `a.compareTo(b) < 0`: the first differing character decides, and a
      proper prefix comes first. */
  predicate Below(a: string, b: string) {
    if a == [] then b != []
    else if b == [] then false
    else if a[0] != b[0] then a[0] < b[0]
    else Below(a[1..], b[1..])
  }

  lemma {:induction false} BelowIrreflexive(a: string)
    ensures !Below(a, a)
  {
    if a != [] {
      BelowIrreflexive(a[1..]);
    }
  }

  lemma {:induction false} BelowTransitive(a: string, b: string, c: string)
    requires Below(a, b) && Below(b, c)
    ensures Below(a, c)
  {
    if a != [] && b != [] && c != [] && a[0] == b[0] && b[0] == c[0] {
      BelowTransitive(a[1..], b[1..], c[1..]);
    }
  }

  lemma {:induction false} BelowTotal(a: string, b: string)
    requires a != b
    ensures Below(a, b) || Below(b, a)
  {
    if a != [] && b != [] && a[0] == b[0] {
      assert a == [a[0]] + a[1..] && b == [b[0]] + b[1..];
      BelowTotal(a[1..], b[1..]);
    }
  }

  lemma {:induction false} BelowAsymmetric(a: string, b: string)
    requires Below(a, b)
    ensures !Below(b, a)
  {
    if a != [] && b != [] && a[0] == b[0] {
      BelowAsymmetric(a[1..], b[1..]);
    }
  }

  /** `n` is the first key of `s`. */
  predicate IsLeast(n: string, s: set<string>) {
    n in s && forall m :: m in s && m != n ==> Below(n, m)
  }

  /** A non-empty set of names has a first one. */
  lemma {:induction false} LeastExists(s: set<string>)
    requires s != {}
    ensures exists n :: IsLeast(n, s)
    decreases |s|
  {
    var x :| x in s;
    if s - {x} == {} {
      assert s == {x};
      assert IsLeast(x, s);
    } else {
      LeastExists(s - {x});
      var y :| IsLeast(y, s - {x});
      if Below(x, y) {
        forall m | m in s && m != x ensures Below(x, m) {
          if m != y {
            BelowTransitive(x, y, m);
          }
        }
        assert IsLeast(x, s);
      } else {
        BelowTotal(x, y);
        assert IsLeast(y, s);
      }
    }
  }

  /** There is only one first name. */
  lemma LeastUnique(n: string, n': string, s: set<string>)
    requires IsLeast(n, s) && IsLeast(n', s)
    ensures n == n'
  {
    if n != n' {
      BelowAsymmetric(n, n');
    }
  }

  /** The keys of `s` in ascending order: the first key, then the rest. */
  ghost function Ascending(s: set<string>): (r: seq<string>)
    ensures |r| == |s|
    ensures s != {} ==> IsLeast(r[0], s)
    decreases |s|
  {
    if s == {} then []
    else
      LeastExists(s);
      var n :| IsLeast(n, s);
      [n] + Ascending(s - {n})
  }

  /** The first key leads, followed by the rest in order. */
  lemma AscendingStep(s: set<string>, n: string)
    requires IsLeast(n, s)
    ensures Ascending(s) == [n] + Ascending(s - {n})
  {
    var r := Ascending(s);
    LeastUnique(n, r[0], s);
    assert r == [r[0]] + r[1..];
  }

  /** Exactly the keys appear, in strictly ascending order. */
  lemma {:induction false} AscendingSorted(s: set<string>)
    ensures forall i, j :: 0 <= i < j < |Ascending(s)| ==> Below(Ascending(s)[i], Ascending(s)[j])
    ensures forall n :: n in s <==> n in Ascending(s)
    decreases |s|
  {
    if s != {} {
      var r := Ascending(s);
      var n := r[0];
      AscendingStep(s, n);
      var rest := r[1..];
      assert rest == Ascending(s - {n});
      AscendingSorted(s - {n});
      assert forall k :: 0 < k < |r| ==> r[k] == rest[k - 1];
      forall i, j | 0 <= i < j < |r| ensures Below(r[i], r[j]) {
        if i == 0 {
          assert r[j] in s - {n};
        }
      }
      forall m ensures m in s <==> m in r {
        if m != n {
          assert m in rest <==> m in r;
        }
      }
    }
  }

  /** The keys of a sorted map as its iteration yields them: each step
      takes the least key left. */
  method AscendingKeys(s: set<string>) returns (q: seq<string>)
    ensures q == Ascending(s)
    ensures forall k :: 0 <= k < |q| ==> q[k] in s
  {
    var rest := s;
    q := [];
    while rest != {}
      invariant q + Ascending(rest) == Ascending(s)
      decreases |rest|
    {
      LeastExists(rest);
      var n :| IsLeast(n, rest);
      AscendingStep(rest, n);
      assert (q + [n]) + Ascending(rest - {n}) == q + ([n] + Ascending(rest - {n}));
      q := q + [n];
      rest := rest - {n};
    }
    AscendingMembers(s);
  }

  /** Every key listed is a key of the set. */
  lemma AscendingMembers(s: set<string>)
    ensures forall k :: 0 <= k < |Ascending(s)| ==> Ascending(s)[k] in s
  {
    AscendingSorted(s);
  }
}
