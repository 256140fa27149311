/** Sequences without repetition, and sequences without a common element. */
module Distinct {

  ghost predicate Apart<T>(s: seq<T>) { forall i, j :: 0 <= i < j < |s| ==> s[i] != s[j] }
  ghost predicate Disjoint<T>(s: seq<T>, t: seq<T>) { forall x :: x in s ==> x !in t }

  function Position<T(==)>(s: seq<T>, x: T): (i: nat)
    requires x in s
    ensures i < |s| && s[i] == x
  {
    if s[0] == x then 0 else 1 + Position(s[1..], x)
  }

  lemma ApartSum<T>(a: seq<T>, b: seq<T>)
    ensures Apart(a + b) <==> Apart(a) && Apart(b) && Disjoint(a, b)
  {
    var s := a + b;
    assert forall i {:trigger s[i]} :: 0 <= i < |s| ==> s[i] == if i < |a| then a[i] else b[i - |a|];
    assert forall i {:trigger a[i]} :: 0 <= i < |a| ==> a[i] == s[i];
    assert forall i {:trigger b[i]} :: 0 <= i < |b| ==> b[i] == s[i + |a|];
    if Apart(a) && Apart(b) && Disjoint(a, b) {
      forall i, j | 0 <= i < j < |s| ensures s[i] != s[j] {
        if i < |a| <= j { assert s[i] in a && s[j] in b; }
      }
    }
    if Apart(s) {
      forall i, j | 0 <= i < |a| && 0 <= j < |b| ensures a[i] != b[j] {
        assert s[i] != s[j + |a|];
      }
    }
  }

  lemma ApartInserted<T>(a: seq<T>, b: seq<T>, n: T)
    ensures Apart(a + [n] + b) <==> Apart(a + b) && n !in a + b
  {
    hide Apart;
    ApartSum(a, b);
    ApartSum(a + [n], b);
    ApartSum(a, [n]);
    ApartOne(n);
  }

  lemma ApartOne<T>(n: T)
    ensures Apart([n])
  {
  }

  lemma ApartSwapped<T>(a: seq<T>, b: seq<T>)
    requires Apart(a + b)
    ensures Apart(b + a)
  {
    ApartSum(a, b);
    ApartSum(b, a);
  }
}
