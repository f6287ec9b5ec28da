/**
 * `Collections.sort` on a list of strings, written as insertion sort over
 * `String.compareTo`, and the facts the listing of the store needs: the result
 * is ascending, a permutation of the input, and keeps distinct elements
 * distinct; and an ascending duplicate-free listing of a set is unique.
 */
module Sorting {
  import opened Text

  /** Ascending in `compareTo` order. */
  predicate Sorted(s: seq<string>) {
    forall i, j :: 0 <= i < j < |s| ==> LexLe(s[i], s[j])
  }

  predicate Distinct(s: seq<string>) {
    forall i, j :: 0 <= i < j < |s| ==> s[i] != s[j]
  }

  function Elements(s: seq<string>): set<string> {
    set x | x in s
  }

  /** `x` comes no later than any element of `t`. */
  predicate Below(x: string, t: seq<string>) {
    forall j :: 0 <= j < |t| ==> LexLe(x, t[j])
  }

  lemma BelowPermutation(x: string, a: seq<string>, b: seq<string>)
    requires Below(x, b) && multiset(a) == multiset(b)
    ensures Below(x, a)
  {
    forall k | 0 <= k < |a| ensures LexLe(x, a[k]) {
      assert a[k] in multiset(b);
    }
  }

  lemma PrependSorted(x: string, t: seq<string>)
    requires Sorted(t) && Below(x, t)
    ensures Sorted([x] + t)
  {
  }

  lemma PrependDistinct(x: string, t: seq<string>)
    ensures Distinct(t) && x !in t ==> Distinct([x] + t)
  {
  }

  lemma AppendDistinct(t: seq<string>, x: string)
    requires Distinct(t) && x !in t
    ensures Distinct(t + [x])
  {
  }

  lemma ElementsAppend(t: seq<string>, x: string)
    ensures Elements(t + [x]) == Elements(t) + {x}
  {
    assert forall y :: y in t + [x] <==> y in t || y == x;
  }

  /** Puts `x` in its place in the ascending list `t`. */
  function Insert(x: string, t: seq<string>): (r: seq<string>)
    requires Sorted(t)
    ensures Sorted(r)
    ensures multiset(r) == multiset(t) + multiset{x}
    ensures Distinct(t) && x !in t ==> Distinct(r)
  {
    if t == [] then
      [x]
    else if LexLe(x, t[0]) then
      assert Below(x, t) by {
        forall j | 0 <= j < |t| ensures LexLe(x, t[j]) {
          if j > 0 { LexLeTransitive(x, t[0], t[j]); }
        }
      }
      PrependSorted(x, t);
      PrependDistinct(x, t);
      [x] + t
    else
      var tail := t[1..];
      assert t == [t[0]] + tail;
      var rest := Insert(x, tail);
      assert Below(t[0], rest) by {
        LexLeTotal(x, t[0]);
        assert Below(t[0], tail + [x]);
        BelowPermutation(t[0], rest, tail + [x]);
      }
      PrependSorted(t[0], rest);
      assert Distinct(t) && x !in t ==> t[0] !in rest by {
        assert t[0] in multiset(rest) ==> t[0] == x || t[0] in tail;
      }
      PrependDistinct(t[0], rest);
      [t[0]] + rest
  }

  /** `Collections.sort`: ascending, a permutation, duplicate-free if the input was. */
  function Sort(s: seq<string>): (r: seq<string>)
    ensures Sorted(r)
    ensures multiset(r) == multiset(s)
    ensures Distinct(s) ==> Distinct(r)
  {
    if s == [] then
      []
    else
      var rest := Sort(s[1..]);
      assert s == [s[0]] + s[1..];
      assert Distinct(s) ==> s[0] !in rest by {
        if Distinct(s) {
          assert s[0] !in s[1..];
          assert s[0] !in multiset(rest);
        }
      }
      Insert(s[0], rest)
  }

  lemma ElementsEmpty(s: seq<string>)
    ensures Elements(s) == {} <==> s == []
  {
    assert s != [] ==> s[0] in Elements(s);
  }

  /** Two ascending, duplicate-free lists with the same elements are the same
      list: the listing of a set does not depend on the order it was visited in. */
  lemma {:induction false} ListingUnique(a: seq<string>, b: seq<string>)
    requires Sorted(a) && Distinct(a) && Sorted(b) && Distinct(b)
    requires Elements(a) == Elements(b)
    ensures a == b
  {
    ElementsEmpty(a);
    ElementsEmpty(b);
    if a != [] {
      assert a[0] in Elements(b);
      assert b[0] in Elements(a);
      var j :| 0 <= j < |b| && b[j] == a[0];
      var i :| 0 <= i < |a| && a[i] == b[0];
      assert LexLe(b[0], a[0]) by { if j == 0 { LexLeTotal(b[0], a[0]); } }
      assert LexLe(a[0], b[0]) by { if i == 0 { LexLeTotal(a[0], b[0]); } }
      LexLeAntisymmetric(a[0], b[0]);
      assert Elements(a[1..]) == Elements(a) - {a[0]} by {
        assert a == [a[0]] + a[1..];
        assert a[0] !in a[1..];
      }
      assert Elements(b[1..]) == Elements(b) - {b[0]} by {
        assert b == [b[0]] + b[1..];
        assert b[0] !in b[1..];
      }
      ListingUnique(a[1..], b[1..]);
      assert a == [a[0]] + a[1..] && b == [b[0]] + b[1..];
    }
  }
}
