/**
 Python's ordering of `str` values (code point by code point, a proper prefix
 first) and `sorted(...)` over a list of strings, as used to find the
 greatest version tag.
 */
module PyOrder {

  /** `a <= b` on Python strings. */
  predicate LexLe(a: string, b: string)
    ensures a <= b ==> LexLe(a, b)
    ensures LexLe(a, b) && a != [] ==> b != [] && a[0] <= b[0]
    decreases |a|
  {
    a == [] || (b != [] && (a[0] < b[0] || (a[0] == b[0] && LexLe(a[1..], b[1..]))))
  }

  lemma {:induction false} LexLeReflexive(a: string)
    ensures LexLe(a, a)
    decreases |a|
  {
    if a != [] {
      LexLeReflexive(a[1..]);
    }
  }

  lemma {:induction false} LexLeAntisymmetric(a: string, b: string)
    requires LexLe(a, b) && LexLe(b, a)
    ensures a == b
    decreases |a|
  {
    if a != [] {
      LexLeAntisymmetric(a[1..], b[1..]);
      assert a == [a[0]] + a[1..] && b == [b[0]] + b[1..];
    }
  }

  lemma {:induction false} LexLeTransitive(a: string, b: string, c: string)
    requires LexLe(a, b) && LexLe(b, c)
    ensures LexLe(a, c)
    decreases |a|
  {
    if a != [] && a[0] == b[0] && b[0] == c[0] {
      LexLeTransitive(a[1..], b[1..], c[1..]);
    }
  }

  lemma {:induction false} LexLeTotal(a: string, b: string)
    ensures LexLe(a, b) || LexLe(b, a)
    decreases |a|
  {
    if a != [] && b != [] && a[0] == b[0] {
      LexLeTotal(a[1..], b[1..]);
    }
  }

  /** Ascending in Python's string order. */
  predicate Sorted(s: seq<string>) {
    forall i, j :: 0 <= i < j < |s| ==> LexLe(s[i], s[j])
  }

  /** Places `x` into the sorted list `s`. */
  function Insert(x: string, s: seq<string>): (r: seq<string>)
    requires Sorted(s)
    ensures Sorted(r)
    ensures multiset(r) == multiset(s) + multiset{x}
    decreases |s|
  {
    if s == [] then [x]
    else if LexLe(x, s[0]) then
      assert forall j :: 0 < j < |s| ==> LexLe(x, s[j]) by {
        forall j | 0 < j < |s| { LexLeTransitive(x, s[0], s[j]); }
      }
      assert s == [s[0]] + s[1..];
      [x] + s
    else
      var rest := Insert(x, s[1..]);
      assert forall j :: 0 <= j < |rest| ==> LexLe(s[0], rest[j]) by {
        forall j | 0 <= j < |rest|
          ensures LexLe(s[0], rest[j])
        {
          assert rest[j] in multiset(s[1..]) + multiset{x};
          if rest[j] == x {
            LexLeTotal(x, s[0]);
          } else {
            assert rest[j] in s[1..];
          }
        }
      }
      assert s == [s[0]] + s[1..];
      [s[0]] + rest
  }

  /** `sorted(s)`. */
  function Sort(s: seq<string>): (r: seq<string>)
    ensures Sorted(r)
    ensures multiset(r) == multiset(s)
    decreases |s|
  {
    if s == [] then []
    else
      assert s == [s[0]] + s[1..];
      Insert(s[0], Sort(s[1..]))
  }

  /** `sorted(s)[-1]`: the last element after sorting a non-empty list, which
      is a member of the list no member exceeds. */
  function Greatest(s: seq<string>): (g: string)
    requires |s| > 0
    ensures g in s
    ensures forall x :: x in s ==> LexLe(x, g)
  {
    var sorted := Sort(s);
    assert |sorted| == |multiset(sorted)| == |s|;
    var g := sorted[|sorted| - 1];
    assert g in multiset(sorted);
    assert forall x :: x in s ==> LexLe(x, g) by {
      forall x | x in s
        ensures LexLe(x, g)
      {
        assert x in multiset(sorted);
        var i :| 0 <= i < |sorted| && sorted[i] == x;
        if i == |sorted| - 1 { LexLeReflexive(x); }
      }
    }
    g
  }

  /** A member that no member exceeds is the greatest; so the greatest element
      is fixed by the members alone. */
  lemma GreatestUnique(s: seq<string>, g: string)
    requires g in s
    requires forall x :: x in s ==> LexLe(x, g)
    ensures Greatest(s) == g
  {
    LexLeAntisymmetric(Greatest(s), g);
  }

  /** The greatest element depends only on which strings occur, not on their
      order or multiplicity. */
  lemma GreatestOfSameMembers(a: seq<string>, b: seq<string>)
    requires |a| > 0
    requires forall x :: x in a <==> x in b
    ensures |b| > 0 && Greatest(a) == Greatest(b)
  {
    assert a[0] in b;
    GreatestUnique(b, Greatest(a));
  }
}
