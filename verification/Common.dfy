/** Optional values, and lists as Python changes them. */
module Common {

  datatype Option<+T> = None | Some(value: T)

  function Min(a: int, b: int): int {
    if a < b then a else b
  }

  function Max(a: int, b: int): int {
    if a < b then b else a
  }

  predicate Distinct<T(==)>(s: seq<T>) {
    forall i, j :: 0 <= i < j < |s| ==> s[i] != s[j]
  }

  lemma HasMember<T>(s: seq<T>)
    ensures s == [] || exists x :: x in s
  {
    if s != [] {
      assert s[0] in s;
    }
  }

  lemma Disjoint<T>(a: set<T>, b: set<T>)
    requires a * b == {}
    ensures a !! b
  {
    assert forall x :: x in a * b <==> x in a && x in b;
  }

  lemma AppendedTwice<T>(s: seq<T>, x: T)
    requires x in s
    ensures !Distinct(s + [x])
  {
    var i :| 0 <= i < |s| && s[i] == x;
    assert (s + [x])[i] == (s + [x])[|s|];
  }

  /** `list.remove`: the first occurrence, if any. */
  function WithoutFirst<T(==)>(s: seq<T>, x: T): (r: seq<T>)
    ensures |r| == |s| - (if x in s then 1 else 0)
  {
    if s == [] then [] else if s[0] == x then s[1..] else [s[0]] + WithoutFirst(s[1..], x)
  }

  lemma {:induction false} WithoutCuts<T>(s: seq<T>, x: T) returns (i: nat)
    requires x in s
    ensures i < |s| && s[i] == x && x !in s[..i] && WithoutFirst(s, x) == s[..i] + s[i + 1..]
  {
    if s[0] == x {
      i := 0;
    } else {
      var k := WithoutCuts(s[1..], x);
      i := k + 1;
      assert s[..i] == [s[0]] + s[1..][..k];
    }
  }

  lemma {:induction false} WithoutBag<T>(s: seq<T>, x: T)
    ensures multiset(WithoutFirst(s, x)) == multiset(s) - multiset{x}
  {
    if s != [] {
      assert s == [s[0]] + s[1..];
      WithoutBag(s[1..], x);
    }
  }

  lemma {:induction false} WithoutDistinct<T>(s: seq<T>, x: T)
    requires Distinct(s)
    ensures Distinct(WithoutFirst(s, x)) && x !in WithoutFirst(s, x)
    ensures forall y :: y in WithoutFirst(s, x) ==> y in s
    ensures forall y :: y in s && y != x ==> y in WithoutFirst(s, x)
    ensures WithoutFirst(WithoutFirst(s, x), x) == WithoutFirst(s, x)
  {
    if s != [] {
      var w := WithoutFirst(s[1..], x);
      assert s == [s[0]] + s[1..];
      assert forall i :: 0 <= i < |s[1..]| ==> s[1..][i] == s[i + 1];
      WithoutDistinct(s[1..], x);
      WithoutAbsent(s[1..], x);
      assert s[0] !in s[1..];
      if s[0] != x {
        assert s[0] !in w;
        WithoutAbsent(WithoutFirst(s, x), x);
      }
    }
  }

  lemma {:induction false} WithoutMember<T>(s: seq<T>, x: T, y: T)
    ensures y in WithoutFirst(s, x) ==> y in s
    ensures y in s && y != x ==> y in WithoutFirst(s, x)
  {
    if s != [] && s[0] != x {
      WithoutMember(s[1..], x, y);
    }
  }

  lemma {:induction false} WithoutAbsent<T>(s: seq<T>, x: T)
    ensures x !in s ==> WithoutFirst(s, x) == s
  {
    if s != [] {
      WithoutAbsent(s[1..], x);
    }
  }
}
