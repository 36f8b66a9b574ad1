/** `mro_old_classes`: the C3 merge applied recursively to a class hierarchy. */
module Mro {
  import opened C3
  import opened Common

  /** `bases` is `__bases__`; `name` tells apart classes that share their bases. */
  datatype Class = Class(name: nat, bases: seq<Class>)

  function MroOf(c: Class): Result<Class>
    decreases c, 1
  {
    match MroAll(c.bases)
    case Ok(orders) => Merged(Inputs(c, orders))
    case Inconsistent => Inconsistent
  }

  /** `map(mro_old_classes, bases)`; the first failure propagates. */
  function MroAll(cs: seq<Class>): (r: Result<seq<Class>>)
    ensures r.Ok? ==> |r.order| == |cs| && forall i :: 0 <= i < |cs| ==> MroOf(cs[i]) == Ok(r.order[i])
    ensures r.Inconsistent? ==> exists i :: 0 <= i < |cs| && MroOf(cs[i]).Inconsistent?
    decreases cs, 0
  {
    if cs == [] then Ok([])
    else
      match MroOf(cs[0])
      case Inconsistent => Inconsistent
      case Ok(first) =>
        match MroAll(cs[1..])
        case Inconsistent => Inconsistent
        case Ok(others) => Ok([first] + others)
  }

  function Inputs(c: Class, orders: seq<seq<Class>>): seq<seq<Class>> {
    [[c]] + orders + [c.bases]
  }

  // ------------------------------------------------------------- ancestors

  ghost predicate Inherits(c: Class, a: Class)
    decreases c
  {
    exists i :: 0 <= i < |c.bases| && (c.bases[i] == a || Inherits(c.bases[i], a))
  }

  ghost function Height(c: Class): nat
    decreases c
  {
    1 + MaxHeight(c.bases)
  }

  ghost function MaxHeight(cs: seq<Class>): (h: nat)
    ensures forall i :: 0 <= i < |cs| ==> Height(cs[i]) <= h
    decreases cs
  {
    if cs == [] then 0
    else
      var h, t := Height(cs[0]), MaxHeight(cs[1..]);
      if h > t then h else t
  }

  lemma {:induction false} AncestorIsLower(c: Class, a: Class)
    requires Inherits(c, a)
    ensures Height(a) < Height(c)
    decreases c
  {
    var i :| 0 <= i < |c.bases| && (c.bases[i] == a || Inherits(c.bases[i], a));
    if c.bases[i] != a {
      AncestorIsLower(c.bases[i], a);
    }
  }

  lemma {:induction false} WithinTransitive<T>(s: seq<T>, t: seq<T>, o: seq<T>)
    requires Within(s, t) && Within(t, o)
    ensures Within(s, o)
    decreases |o|
  {
    if s != [] {
      if t[0] == o[0] {
        if s[0] == t[0] {
          WithinTransitive(s[1..], t[1..], o[1..]);
        } else {
          WithinTransitive(s, t[1..], o[1..]);
        }
      } else {
        WithinTransitive(s, t, o[1..]);
        assert o == [o[0]] + o[1..];
        WithinSkips(s, o[0], o[1..]);
      }
    }
  }

  // -------------------------------------------------------------- theorems

  /** `r` does not change the order in which `a` sees its own classes. */
  ghost predicate Keeps(r: seq<Class>, a: Class) {
    MroOf(a).Ok? && Within(MroOf(a).order, r)
  }

  /** What a successful linearisation of `c` is. */
  ghost predicate Linearisation(c: Class, r: seq<Class>) {
    && r != [] && r[0] == c
    && Distinct(r)
    && (forall x :: x in r <==> x == c || Inherits(c, x))
    // local precedence: the order in which `c` lists its bases
    && Within(c.bases, r)
    // monotonicity: no ancestor sees its own order changed
    && forall a :: Inherits(c, a) ==> Keeps(r, a)
  }

  lemma {:induction false} MroSound(c: Class)
    requires MroOf(c).Ok?
    ensures Linearisation(c, MroOf(c).order)
    decreases c
  {
    var orders := MroAll(c.bases).order;
    var lists := Inputs(c, orders);
    var r := Merged(lists).order;
    MergeSound(lists);
    forall i | 0 <= i < |c.bases| ensures Linearisation(c.bases[i], orders[i]) {
      MroSound(c.bases[i]);
    }
    forall x ensures x in r <==> x == c || Inherits(c, x) {
      MemberOfInputs(c, orders, x);
    }
    OwnClassFirst(c, orders);
    assert lists[|lists| - 1] == c.bases;
    AncestorsKept(c, orders, r);
  }

  lemma AncestorsKept(c: Class, orders: seq<seq<Class>>, r: seq<Class>)
    requires |orders| == |c.bases| && Linearises(r, Inputs(c, orders))
    requires forall i :: 0 <= i < |orders| ==> MroOf(c.bases[i]) == Ok(orders[i])
    requires forall i :: 0 <= i < |orders| ==> Linearisation(c.bases[i], orders[i])
    ensures forall a :: Inherits(c, a) ==> Keeps(r, a)
  {
    forall i | 0 <= i < |c.bases| ensures forall a :: c.bases[i] == a || Inherits(c.bases[i], a) ==> Keeps(r, a) {
      assert Inputs(c, orders)[i + 1] == orders[i];
      BaseKept(c.bases[i], orders[i], r);
    }
  }

  lemma BaseKept(base: Class, order: seq<Class>, r: seq<Class>)
    requires MroOf(base) == Ok(order) && Linearisation(base, order) && Within(order, r)
    ensures forall a :: base == a || Inherits(base, a) ==> Keeps(r, a)
  {
    forall a | base == a || Inherits(base, a) ensures Keeps(r, a) {
      if base != a {
        WithinTransitive(MroOf(a).order, order, r);
      }
    }
  }

  lemma MemberOfInputs(c: Class, orders: seq<seq<Class>>, x: Class)
    requires |orders| == |c.bases|
    requires forall i :: 0 <= i < |orders| ==> Linearisation(c.bases[i], orders[i])
    ensures Occurs(x, Inputs(c, orders)) <==> x == c || Inherits(c, x)
  {
    if Occurs(x, Inputs(c, orders)) && x != c {
      InputsAreAncestors(c, orders, x);
    }
    assert Inputs(c, orders)[0] == [c];
    if Inherits(c, x) {
      var i :| 0 <= i < |c.bases| && (c.bases[i] == x || Inherits(c.bases[i], x));
      assert x in Inputs(c, orders)[i + 1];
    }
  }

  lemma InputsAreAncestors(c: Class, orders: seq<seq<Class>>, x: Class)
    requires |orders| == |c.bases|
    requires forall i :: 0 <= i < |orders| ==> Linearisation(c.bases[i], orders[i])
    requires Occurs(x, Inputs(c, orders)) && x != c
    ensures Inherits(c, x)
  {
    var lists := Inputs(c, orders);
    assert lists[0] == [c];
    var k :| 0 <= k < |lists| && x in lists[k];
    if k == |lists| - 1 {
      var i :| 0 <= i < |c.bases| && c.bases[i] == x;
    } else {
      assert lists[k] == orders[k - 1];
    }
  }

  lemma NotOwnAncestor(c: Class, orders: seq<seq<Class>>, i: nat)
    requires |orders| == |c.bases|
    requires forall k :: 0 <= k < |orders| ==> Linearisation(c.bases[k], orders[k])
    requires 0 < i < |orders| + 2
    ensures c !in Inputs(c, orders)[i]
  {
    if Inherits(c, c) {
      AncestorIsLower(c, c);
    }
    assert i <= |orders| ==> Inputs(c, orders)[i] == orders[i - 1];
  }

  lemma OwnClassFirst(c: Class, orders: seq<seq<Class>>)
    requires |orders| == |c.bases|
    requires forall i :: 0 <= i < |orders| ==> Linearisation(c.bases[i], orders[i])
    ensures var m := Merged(Inputs(c, orders)); m.Ok? ==> m.order != [] && m.order[0] == c
  {
    var lists := Inputs(c, orders);
    forall i | 0 <= i < |lists| && lists[i] != [] ensures c !in lists[i][1..] {
      if i > 0 {
        NotOwnAncestor(c, orders, i);
      }
    }
    assert GoodHead(lists, 0);
    assert FirstGood(lists, 0) == 0;
  }

  /**
    Which class comes next is decided list by list: the class itself, the
    linearisations of its bases in declared order, the bases.
   */
  lemma MroTakesFirst(c: Class, orders: seq<seq<Class>>, r: seq<Class>)
    requires |orders| == |c.bases| && forall i :: 0 <= i < |orders| ==> MroOf(c.bases[i]) == Ok(orders[i])
    ensures var lists := [[c]] + orders + [c.bases];
            MroOf(c) == Ok(r) <==> FirstComesFirst(lists, r) && AllEmpty(Remaining(lists, r))
  {
    assert MroAll(c.bases).Ok? && MroAll(c.bases).order == orders;
    MergeTakesFirst([[c]] + orders + [c.bases], r);
  }

  /** In a linearisation every class in it finds its bases in declared order. */
  lemma LocalPrecedenceEverywhere(c: Class, a: Class)
    requires MroOf(c).Ok? && a in MroOf(c).order
    ensures Within(a.bases, MroOf(c).order)
  {
    MroSound(c);
    if a != c {
      MroSound(a);
      WithinTransitive(a.bases, MroOf(a).order, MroOf(c).order);
    }
  }

  /** The hierarchy is rejected exactly when the bases admit no common order. */
  lemma MroComplete(c: Class)
    ensures MroOf(c).Ok? <==>
              (forall i :: 0 <= i < |c.bases| ==> MroOf(c.bases[i]).Ok?)
              && Linearisable(MroAll(c.bases).order + [c.bases])
  {
    if MroAll(c.bases).Ok? {
      MergeComplete(Inputs(c, MroAll(c.bases).order));
      OwnClassIsFree(c, MroAll(c.bases).order + [c.bases]);
      assert Inputs(c, MroAll(c.bases).order) == [[c]] + (MroAll(c.bases).order + [c.bases]);
    }
  }

  /** The list `[c]` never makes the difference: `c` can be put in front. */
  lemma OwnClassIsFree(c: Class, others: seq<seq<Class>>)
    ensures Linearisable([[c]] + others) <==> Linearisable(others)
  {
    var lists := [[c]] + others;
    if o :| Linearises(o, lists) {
      forall i | 0 <= i < |others| ensures Within(others[i], o) {
        assert lists[i + 1] == others[i];
      }
      assert Linearises(o, others);
    }
    if o :| Linearises(o, others) {
      var p := if c in o then o else [c] + o;
      SingletonWithin(c, p);
      forall i | 0 <= i < |lists| ensures Within(lists[i], p) {
        if i > 0 && c !in o {
          WithinSkips(others[i - 1], c, o);
        }
      }
      assert Linearises(p, lists);
    }
  }

  lemma {:induction false} SingletonWithin<T>(x: T, o: seq<T>)
    requires x in o
    ensures Within([x], o)
  {
    if o[0] != x {
      SingletonWithin(x, o[1..]);
    }
  }
}
