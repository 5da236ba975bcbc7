/**
Byte-wise string order and the sorted listing of a finite set.
*/
module Ordering {
  predicate Comparable<T>(le: (T, T) -> bool, a: T, b: T) {
    le(a, b) || le(b, a)
  }

  predicate Antisymmetric<T(==)>(le: (T, T) -> bool, a: T, b: T) {
    le(a, b) && le(b, a) ==> a == b
  }

  predicate Transitive<T>(le: (T, T) -> bool, a: T, b: T, c: T) {
    le(a, b) && le(b, c) ==> le(a, c)
  }

  ghost predicate TotalOrder<T(!new)>(le: (T, T) -> bool) {
    && (forall a, b :: Comparable(le, a, b))
    && (forall a, b :: Antisymmetric(le, a, b))
    && (forall a, b, c :: Transitive(le, a, b, c))
  }

  predicate IsLeast<T(==)>(le: (T, T) -> bool, s: set<T>, least: T) {
    least in s && forall x :: x in s ==> le(least, x)
  }

  lemma {:induction false} HasLeast<T(!new)>(le: (T, T) -> bool, s: set<T>)
    requires TotalOrder(le) && s != {}
    ensures exists least :: IsLeast(le, s, least)
  {
    var x :| x in s;
    if s == {x} {
      assert Comparable(le, x, x);
      assert IsLeast(le, s, x);
    } else {
      var rest := s - {x};
      HasLeast(le, rest);
      var least :| IsLeast(le, rest, least);
      assert Comparable(le, x, least);
      if le(x, least) {
        forall y | y in s ensures le(x, y) {
          assert Comparable(le, x, x) && Transitive(le, x, least, y);
        }
        assert IsLeast(le, s, x);
      } else {
        assert IsLeast(le, s, least);
      }
    }
  }

  function Least<T(!new, ==)>(le: (T, T) -> bool, s: set<T>): (least: T)
    requires TotalOrder(le) && s != {}
    ensures IsLeast(le, s, least)
  {
    HasLeast(le, s);
    assert forall a, b :: IsLeast(le, s, a) && IsLeast(le, s, b) ==> a == b by {
      forall a, b | IsLeast(le, s, a) && IsLeast(le, s, b) ensures a == b {
        assert Antisymmetric(le, a, b);
      }
    }
    var least :| least in s && IsLeast(le, s, least);
    least
  }

  lemma LeastIsUnique<T(!new)>(le: (T, T) -> bool, s: set<T>, least: T)
    requires TotalOrder(le) && s != {} && IsLeast(le, s, least)
    ensures Least(le, s) == least
  {
    assert Antisymmetric(le, Least(le, s), least);
  }

  /** The elements of a set in ascending order. */
  function Sorted<T(!new, ==)>(le: (T, T) -> bool, s: set<T>): (sorted: seq<T>)
    requires TotalOrder(le)
    ensures forall x :: x in sorted <==> x in s
    decreases s
  {
    if s == {} then [] else
      var least := Least(le, s);
      [least] + Sorted(le, s - {least})
  }

  function Keep<T(!new)>(keep: T -> bool, s: seq<T>): (kept: seq<T>)
    ensures forall x :: x in kept <==> x in s && keep(x)
  {
    if s == [] then [] else (if keep(s[0]) then [s[0]] else []) + Keep(keep, s[1..])
  }

  function Selected<T(!new, ==)>(keep: T -> bool, s: set<T>): (selected: set<T>) {
    set x | x in s && keep(x)
  }

  lemma KeepFirst<T(!new)>(keep: T -> bool, first: T, rest: seq<T>)
    ensures Keep(keep, [first] + rest) == (if keep(first) then [first] else []) + Keep(keep, rest)
  {
    assert ([first] + rest)[1..] == rest;
  }

  lemma SelectFirst<T(!new)>(le: (T, T) -> bool, s: set<T>, keep: T -> bool)
    requires TotalOrder(le) && s != {}
    ensures var least := Least(le, s);
            if keep(least) then
              && Selected(keep, s) != {}
              && Least(le, Selected(keep, s)) == least
              && Selected(keep, s) - {least} == Selected(keep, s - {least})
            else
              Selected(keep, s) == Selected(keep, s - {least})
  {
    var least := Least(le, s);
    if keep(least) {
      assert least in Selected(keep, s);
      LeastIsUnique(le, Selected(keep, s), least);
    }
  }

  /** Sorting a selection is selecting from the sorted listing. */
  lemma {:induction false} KeepSorted<T(!new)>(le: (T, T) -> bool, s: set<T>, keep: T -> bool)
    requires TotalOrder(le)
    ensures Keep(keep, Sorted(le, s)) == Sorted(le, Selected(keep, s))
    decreases s
  {
    if s == {} {
      assert Selected(keep, s) == {};
    } else {
      var least := Least(le, s);
      KeepSorted(le, s - {least}, keep);
      KeepFirst(keep, least, Sorted(le, s - {least}));
      SelectFirst(le, s, keep);
    }
  }

  predicate StringBelow(a: string, b: string) {
    a == "" || (b != "" && (a[0] < b[0] || (a[0] == b[0] && StringBelow(a[1..], b[1..]))))
  }

  lemma {:induction false} StringBelowTotal(a: string, b: string)
    ensures StringBelow(a, b) || StringBelow(b, a)
  {
    if a != "" && b != "" {
      StringBelowTotal(a[1..], b[1..]);
    }
  }

  lemma {:induction false} StringBelowAntisymmetric(a: string, b: string)
    requires StringBelow(a, b) && StringBelow(b, a)
    ensures a == b
  {
    if a != "" && b != "" {
      StringBelowAntisymmetric(a[1..], b[1..]);
      assert a == [a[0]] + a[1..] && b == [b[0]] + b[1..];
    }
  }

  lemma {:induction false} StringBelowTransitive(a: string, b: string, c: string)
    requires StringBelow(a, b) && StringBelow(b, c)
    ensures StringBelow(a, c)
  {
    if a != "" && a[0] == b[0] && b[0] == c[0] {
      StringBelowTransitive(a[1..], b[1..], c[1..]);
    }
  }

  lemma StringOrder()
    ensures TotalOrder(StringBelow)
  {
    forall a, b ensures Comparable(StringBelow, a, b) {
      StringBelowTotal(a, b);
    }
    forall a, b ensures Antisymmetric(StringBelow, a, b) {
      if StringBelow(a, b) && StringBelow(b, a) {
        StringBelowAntisymmetric(a, b);
      }
    }
    forall a, b, c ensures Transitive(StringBelow, a, b, c) {
      if StringBelow(a, b) && StringBelow(b, c) {
        StringBelowTransitive(a, b, c);
      }
    }
  }

  function SortedStrings(s: set<string>): (sorted: seq<string>)
    ensures forall x :: x in sorted <==> x in s
  {
    StringOrder();
    Sorted(StringBelow, s)
  }

  /** Ascending and without repetition. */
  lemma {:induction false} SortedAscends<T(!new)>(le: (T, T) -> bool, s: set<T>, i: nat, j: nat)
    requires TotalOrder(le) && i < j < |Sorted(le, s)|
    ensures le(Sorted(le, s)[i], Sorted(le, s)[j]) && Sorted(le, s)[i] != Sorted(le, s)[j]
    decreases s
  {
    var least := Least(le, s);
    var rest := Sorted(le, s - {least});
    if i == 0 {
      assert Sorted(le, s)[j] == rest[j - 1];
      assert rest[j - 1] in rest;
    } else {
      SortedAscends(le, s - {least}, i - 1, j - 1);
    }
  }

  lemma {:induction false} SortedCounts<T(!new)>(le: (T, T) -> bool, s: set<T>)
    requires TotalOrder(le)
    ensures |Sorted(le, s)| == |s|
    decreases s
  {
    if s != {} {
      SortedCounts(le, s - {Least(le, s)});
    }
  }

  lemma {:induction false} SortedWithGreatest<T(!new)>(le: (T, T) -> bool, s: set<T>, greatest: T)
    requires TotalOrder(le) && greatest !in s
    requires forall x :: x in s ==> le(x, greatest)
    ensures Sorted(le, s + {greatest}) == Sorted(le, s) + [greatest]
    decreases s
  {
    var all := s + {greatest};
    if s == {} {
      assert all == {greatest};
      assert Comparable(le, greatest, greatest);
      LeastIsUnique(le, all, greatest);
      assert all - {greatest} == {};
    } else {
      var least := Least(le, s);
      LeastIsUnique(le, all, least);
      assert all - {least} == (s - {least}) + {greatest};
      SortedWithGreatest(le, s - {least}, greatest);
    }
  }

  lemma SortedSingle<T(!new)>(le: (T, T) -> bool, x: T)
    requires TotalOrder(le)
    ensures Sorted(le, {x}) == [x]
  {
    var least := Least(le, {x});
    assert least == x;
    assert {x} - {x} == {};
    assert Sorted(le, {x} - {x}) == [];
  }
}
