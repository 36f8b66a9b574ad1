/**
  The category tree as a value: who owns whom, which conferences each category
  lists, and how the true number of conferences below a category reacts to
  every kind of change.
 */
module CategoryTree {

  import opened Common

  type Ups<C> = map<C, Option<C>>
  type Ranks<C> = map<C, nat>
  type Lists<C, F> = map<C, set<F>>

  ghost predicate Lower<C>(up: Ups<C>, rk: Ranks<C>, n: C)
    requires n in up && up.Keys == rk.Keys
  {
    up[n].Some? ==> up[n].value in up && rk[up[n].value] < rk[n]
  }

  /** `rk` witnesses that following owners ends. */
  ghost predicate Ranked<C>(up: Ups<C>, rk: Ranks<C>) {
    up.Keys == rk.Keys && forall n {:trigger Lower(up, rk, n)} :: n in up ==> Lower(up, rk, n)
  }

  ghost function Up<C>(up: Ups<C>, rk: Ranks<C>, n: C): (o: Option<C>)
    requires Ranked(up, rk) && n in up
    ensures o == up[n]
    ensures o.Some? ==> o.value in up && rk[o.value] < rk[n]
  {
    assert Lower(up, rk, n);
    up[n]
  }

  /** Strict ancestors of `n`. */
  ghost function Above<C>(up: Ups<C>, rk: Ranks<C>, n: C): set<C>
    requires Ranked(up, rk) && n in up
    decreases rk[n]
  {
    match Up(up, rk, n)
    case None => {}
    case Some(o) => {o} + Above(up, rk, o)
  }

  /** `x` is `a` or lies below it. */
  ghost predicate At<C>(up: Ups<C>, rk: Ranks<C>, x: C, a: C)
    requires Ranked(up, rk) && x in up
  {
    x == a || a in Above(up, rk, x)
  }

  lemma {:induction false} AboveRanks<C>(up: Ups<C>, rk: Ranks<C>, n: C, a: C)
    requires Ranked(up, rk) && n in up && a in Above(up, rk, n)
    ensures a in up && rk[a] < rk[n]
    decreases rk[n]
  {
    var o := Up(up, rk, n).value;
    if o != a {
      AboveRanks(up, rk, o, a);
    }
  }

  /** The choice of ranks does not matter. */
  lemma {:induction false} AnyRanks<C>(up: Ups<C>, rk: Ranks<C>, rk': Ranks<C>, n: C)
    requires Ranked(up, rk) && Ranked(up, rk') && n in up
    ensures Above(up, rk, n) == Above(up, rk', n)
    decreases rk[n]
  {
    assert Up(up, rk, n) == Up(up, rk', n);
    if up[n].Some? {
      AnyRanks(up, rk, rk', up[n].value);
    }
  }

  /** The `k`-th owner of `n`, `n` itself being the 0-th. */
  ghost function KthUp<C>(up: Ups<C>, n: C, k: nat): Option<C> {
    if k == 0 then Some(n)
    else match KthUp(up, n, k - 1)
      case None => None
      case Some(m) => if m in up then up[m] else None
  }

  /** `a` is met going up from `n`. */
  ghost predicate MetAbove<C>(up: Ups<C>, a: C, n: C) {
    exists k: nat :: k > 0 && KthUp(up, n, k) == Some(a)
  }

  lemma {:induction false} KthUpFromOwner<C>(up: Ups<C>, n: C, o: C, k: nat)
    requires n in up && up[n] == Some(o)
    ensures KthUp(up, n, k + 1) == KthUp(up, o, k)
  {
    if k > 0 {
      KthUpFromOwner(up, n, o, k - 1);
    } else {
      assert KthUp(up, n, 0) == Some(n);
    }
  }

  /** The ancestors of `n` are what is met going up from it. */
  lemma {:induction false} AncestorsAreMetGoingUp<C>(up: Ups<C>, rk: Ranks<C>, n: C, a: C)
    requires Ranked(up, rk) && n in up
    ensures a in Above(up, rk, n) <==> MetAbove(up, a, n)
    decreases rk[n]
  {
    match Up(up, rk, n)
    case None =>
      forall k: nat | k > 0 ensures KthUp(up, n, k) == None {
        TopHasNoOwners(up, n, k);
      }
    case Some(o) =>
      AncestorsAreMetGoingUp(up, rk, o, a);
      assert KthUp(up, o, 0) == Some(o);
      if a in Above(up, rk, n) {
        var k: nat :| KthUp(up, o, k) == Some(a);
        KthUpFromOwner(up, n, o, k);
      } else {
        forall k: nat | k > 0 ensures KthUp(up, n, k) != Some(a) {
          KthUpFromOwner(up, n, o, k - 1);
        }
      }
  }

  lemma {:induction false} TopHasNoOwners<C>(up: Ups<C>, n: C, k: nat)
    requires n in up && up[n] == None && k > 0
    ensures KthUp(up, n, k) == None
  {
    if k > 1 {
      TopHasNoOwners(up, n, k - 1);
    } else {
      assert KthUp(up, n, 0) == Some(n);
    }
  }

  // ---------------------------------------------------------- true counts

  /** Every place in the subtree of `a` where a conference is listed. */
  ghost function Places<C, F>(up: Ups<C>, rk: Ranks<C>, confs: Lists<C, F>, a: C): set<(C, F)>
    requires Ranked(up, rk) && confs.Keys == up.Keys
  {
    set x, f | x in up && f in confs[x] && At(up, rk, x, a) :: (x, f)
  }

  /** The true number of conferences in the subtree of `a`, counted place by place. */
  ghost function TrueCount<C, F>(up: Ups<C>, rk: Ranks<C>, confs: Lists<C, F>, a: C): nat
    requires Ranked(up, rk) && confs.Keys == up.Keys
  {
    |Places(up, rk, confs, a)|
  }

  /** How far the cached counter of `a` is from the truth. */
  ghost function Drift<C, F>(up: Ups<C>, rk: Ranks<C>, confs: Lists<C, F>, num: map<C, int>, a: C): int
    requires Ranked(up, rk) && confs.Keys == up.Keys == num.Keys && a in num
  {
    num[a] - TrueCount(up, rk, confs, a)
  }

  /** Counters raised by `k` on `c` and all its ancestors. */
  ghost function Raised<C>(up: Ups<C>, rk: Ranks<C>, num: map<C, int>, c: C, k: int): (r: map<C, int>)
    requires Ranked(up, rk) && c in up && num.Keys == up.Keys
    ensures r.Keys == num.Keys
  {
    map a | a in num :: if At(up, rk, c, a) then num[a] + k else num[a]
  }

  /** A push goes to the category itself and to everything met going up from it. */
  lemma RaisedGoingUp<C>(up: Ups<C>, rk: Ranks<C>, num: map<C, int>, c: C, k: int, a: C)
    requires Ranked(up, rk) && c in up && num.Keys == up.Keys && a in up
    ensures Raised(up, rk, num, c, k)[a] == num[a] + if a == c || MetAbove(up, a, c) then k else 0
  {
    AncestorsAreMetGoingUp(up, rk, c, a);
  }

  lemma UnlistedPlaces<C, F>(up: Ups<C>, rk: Ranks<C>, confs: Lists<C, F>, c: C, f: F, a: C)
    requires Ranked(up, rk) && confs.Keys == up.Keys && c in up && f in confs[c]
    ensures var confs' := confs[c := confs[c] - {f}];
            TrueCount(up, rk, confs', a) == TrueCount(up, rk, confs, a) - (if At(up, rk, c, a) then 1 else 0)
  {
    var p, p' := Places(up, rk, confs, a), Places(up, rk, confs[c := confs[c] - {f}], a);
    if At(up, rk, c, a) {
      assert p' == p - {(c, f)};
    } else {
      assert p' == p;
    }
  }

  lemma ListedPlaces<C, F>(up: Ups<C>, rk: Ranks<C>, confs: Lists<C, F>, c: C, f: F, a: C)
    requires Ranked(up, rk) && confs.Keys == up.Keys && c in up
    ensures var confs' := confs[c := confs[c] + {f}];
            TrueCount(up, rk, confs', a)
            == TrueCount(up, rk, confs, a) + (if f !in confs[c] && At(up, rk, c, a) then 1 else 0)
  {
    var confs' := confs[c := confs[c] + {f}];
    if f in confs[c] {
      assert confs[c] + {f} == confs[c];
      assert confs' == confs;
    } else {
      assert confs[c] + {f} - {f} == confs[c];
      assert confs'[c := confs'[c] - {f}] == confs;
      UnlistedPlaces(up, rk, confs', c, f, a);
    }
  }

  // ------------------------------------------------------- moving subtrees

  /** Below `sc`, cutting `sc` loose removes exactly `sc`'s ancestors. */
  lemma {:induction false} AboveAfterCut<C>(up: Ups<C>, rk: Ranks<C>, sc: C, n: C)
    requires Ranked(up, rk) && sc in up && n in up && Ranked(up[sc := None], rk)
    ensures Above(up[sc := None], rk, n)
            == if At(up, rk, n, sc) then Above(up, rk, n) - Above(up, rk, sc) else Above(up, rk, n)
    ensures At(up, rk, n, sc) ==> Above(up, rk, sc) <= Above(up, rk, n)
    decreases rk[n]
  {
    if n != sc && up[n].Some? {
      var o := Up(up, rk, n).value;
      AboveAfterCut(up, rk, sc, o);
      if o in Above(up, rk, sc) {
        AboveRanks(up, rk, sc, o);
        if sc in Above(up, rk, o) {
          AboveRanks(up, rk, o, sc);
        }
      }
    }
  }

  /** Cutting `sc` loose takes its whole count away from each of its ancestors, and from nobody else. */
  lemma PlacesAfterCut<C, F>(up: Ups<C>, rk: Ranks<C>, confs: Lists<C, F>, sc: C, a: C)
    requires Ranked(up, rk) && confs.Keys == up.Keys && sc in up && a in up && Ranked(up[sc := None], rk)
    ensures TrueCount(up[sc := None], rk, confs, a)
            == TrueCount(up, rk, confs, a) - (if a in Above(up, rk, sc) then TrueCount(up, rk, confs, sc) else 0)
  {
    var p, q, r := Places(up, rk, confs, a), Places(up[sc := None], rk, confs, a), Places(up, rk, confs, sc);
    forall x | x in up
      ensures At(up[sc := None], rk, x, a) <==> At(up, rk, x, a) && !(a in Above(up, rk, sc) && At(up, rk, x, sc))
    {
      AboveAfterCut(up, rk, sc, x);
      if a in Above(up, rk, sc) {
        AboveRanks(up, rk, sc, a);
        if x == a && sc in Above(up, rk, a) {
          AboveRanks(up, rk, a, sc);
        }
      }
    }
    if a in Above(up, rk, sc) {
      forall x | x in up && At(up, rk, x, sc) ensures At(up, rk, x, a) {
        AboveAfterCut(up, rk, sc, x);
      }
      assert r <= p && q == p - r;
    } else {
      assert q == p;
    }
  }

  /** Ranks after `sc` is hung under `o`: its subtree is lifted above `o`'s rank. */
  ghost function Lifted<C>(up: Ups<C>, rk: Ranks<C>, sc: C, o: C): (r: Ranks<C>)
    requires Ranked(up, rk) && o in up
    ensures r.Keys == rk.Keys
  {
    map n | n in rk :: if At(up, rk, n, sc) then rk[n] + rk[o] + 1 else rk[n]
  }

  lemma HangingIsRanked<C>(up: Ups<C>, rk: Ranks<C>, sc: C, o: C)
    requires Ranked(up, rk) && sc in up && up[sc] == None && o in up && !At(up, rk, o, sc)
    ensures Ranked(up[sc := Some(o)], Lifted(up, rk, sc, o))
    ensures Ranked(up, Lifted(up, rk, sc, o))
  {
    var up', rk' := up[sc := Some(o)], Lifted(up, rk, sc, o);
    forall n | n in up ensures Lower(up', rk', n) && Lower(up, rk', n) {
      assert Lower(up, rk, n);
      if up[n].Some? {
        assert Above(up, rk, n) == {up[n].value} + Above(up, rk, up[n].value);
      }
    }
  }

  /** Hanging is undone by cutting: the count `sc` brings goes to `o` and all its ancestors. */
  lemma PlacesAfterHanging<C, F>(up: Ups<C>, rk: Ranks<C>, confs: Lists<C, F>, sc: C, o: C, a: C)
    requires Ranked(up, rk) && confs.Keys == up.Keys && sc in up && up[sc] == None && o in up && a in up
    requires !At(up, rk, o, sc)
    ensures var up', rk' := up[sc := Some(o)], Lifted(up, rk, sc, o);
            Ranked(up', rk') &&
            TrueCount(up', rk', confs, a)
            == TrueCount(up, rk, confs, a) + (if At(up, rk, o, a) then TrueCount(up, rk, confs, sc) else 0)
  {
    var up', rk' := up[sc := Some(o)], Lifted(up, rk, sc, o);
    HangingIsRanked(up, rk, sc, o);
    assert up'[sc := None] == up;
    assert Up(up', rk', sc) == Some(o);
    if sc in Above(up', rk', o) {
      AboveRanks(up', rk', o, sc);
    }
    AboveAfterCut(up', rk', sc, o);
    assert Above(up', rk', sc) == {o} + Above(up, rk', o);
    PlacesAfterCut(up', rk', confs, sc, a);
    PlacesAfterCut(up', rk', confs, sc, sc);
    if sc in Above(up', rk', sc) {
      AboveRanks(up', rk', sc, sc);
    }
    CountAnyRanks(up, rk, rk', confs, a);
    CountAnyRanks(up, rk, rk', confs, sc);
    AnyRanks(up, rk, rk', o);
  }

  lemma CountAnyRanks<C, F>(up: Ups<C>, rk: Ranks<C>, rk': Ranks<C>, confs: Lists<C, F>, a: C)
    requires Ranked(up, rk) && Ranked(up, rk') && confs.Keys == up.Keys
    ensures TrueCount(up, rk, confs, a) == TrueCount(up, rk', confs, a)
  {
    forall x | x in up ensures At(up, rk, x, a) <==> At(up, rk', x, a) {
      AnyRanks(up, rk, rk', x);
    }
    assert Places(up, rk, confs, a) == Places(up, rk', confs, a);
  }

  // ------------------------------------------------------------- invariant

  ghost predicate ChildLinked<C>(up: Ups<C>, subs: map<C, set<C>>, c: C, x: C)
    requires c in subs && x in up
  {
    x in subs[c] <==> up[x] == Some(c)
  }

  ghost predicate Owned<C>(up: Ups<C>, subs: map<C, set<C>>, c: C)
    requires c in subs
  {
    subs[c] <= up.Keys
  }

  ghost predicate AllLinked<C>(up: Ups<C>, subs: map<C, set<C>>) {
    && subs.Keys == up.Keys
    && (forall c {:trigger Owned(up, subs, c)} :: c in up ==> Owned(up, subs, c))
    && (forall c, x {:trigger ChildLinked(up, subs, c, x)} :: c in up && x in up ==> ChildLinked(up, subs, c, x))
  }

  /** Every cached counter is the true count. */
  ghost predicate AllExact<C, F>(up: Ups<C>, rk: Ranks<C>, confs: Lists<C, F>, num: map<C, int>) {
    && Ranked(up, rk) && confs.Keys == up.Keys == num.Keys
    && forall a {:trigger Drift(up, rk, confs, num, a)} :: a in up ==> Drift(up, rk, confs, num, a) == 0
  }

  ghost predicate Either<C, F>(subs: map<C, set<C>>, confs: Lists<C, F>, c: C)
    requires c in subs && c in confs
  {
    subs[c] == {} || confs[c] == {}
  }

  /** A category lists conferences or subcategories, never both. */
  ghost predicate AllEither<C, F>(subs: map<C, set<C>>, confs: Lists<C, F>) {
    subs.Keys == confs.Keys && forall c {:trigger Either(subs, confs, c)} :: c in subs ==> Either(subs, confs, c)
  }

  /** A forest of categories in good order. */
  ghost predicate Forest<C, F>(up: Ups<C>, rk: Ranks<C>, subs: map<C, set<C>>, confs: Lists<C, F>, num: map<C, int>) {
    AllLinked(up, subs) && AllExact(up, rk, confs, num) && AllEither(subs, confs)
  }

  lemma SubIsKnown<C>(up: Ups<C>, subs: map<C, set<C>>, c: C, sc: C)
    requires AllLinked(up, subs) && c in up && sc in subs[c]
    ensures sc in up && up[sc] == Some(c)
  {
    assert Owned(up, subs, c) && ChildLinked(up, subs, c, sc);
  }

  /** The lists after `c` has handed all its conferences to `sc`. */
  ghost function HandedDown<C, F>(confs: Lists<C, F>, c: C, sc: C): (r: Lists<C, F>)
    requires c in confs && sc in confs
    ensures r.Keys == confs.Keys
  {
    confs[c := {}][sc := confs[sc] + confs[c]]
  }

  lemma IsHandedDown<C, F>(confs: Lists<C, F>, confs': Lists<C, F>, c: C, sc: C)
    requires c in confs && sc in confs && c != sc && confs'.Keys == confs.Keys
    requires confs'[c] == {} && confs'[sc] == confs[sc] + confs[c]
    requires forall d :: d in confs && d != c && d != sc ==> confs'[d] == confs[d]
    ensures confs' == HandedDown(confs, c, sc)
  {
  }

  lemma {:induction false} HandedDownCount<C, F>(up: Ups<C>, rk: Ranks<C>, confs: Lists<C, F>, c: C, sc: C, a: C)
    requires Ranked(up, rk) && confs.Keys == up.Keys && c in up && sc in up && c != sc && confs[c] !! confs[sc]
    ensures TrueCount(up, rk, HandedDown(confs, c, sc), a)
            == TrueCount(up, rk, confs, a)
               - (if At(up, rk, c, a) then |confs[c]| else 0) + (if At(up, rk, sc, a) then |confs[c]| else 0)
    decreases confs[c]
  {
    if confs[c] == {} {
      assert confs[sc] + confs[c] == confs[sc];
      assert HandedDown(confs, c, sc) == confs;
    } else {
      var f :| f in confs[c];
      var less := confs[c := confs[c] - {f}];
      var next := less[sc := less[sc] + {f}];
      UnlistedPlaces(up, rk, confs, c, f, a);
      ListedPlaces(up, rk, less, sc, f, a);
      HandedDownCount(up, rk, next, c, sc, a);
      assert next[sc] + next[c] == confs[sc] + confs[c];
      assert HandedDown(next, c, sc) == HandedDown(confs, c, sc);
    }
  }

  /** Counters `after` splitting: `sc` takes `k` conferences from `c` and is hung under it. */
  ghost predicate SplitCounted<C>(up: Ups<C>, rk: Ranks<C>, num: map<C, int>, c: C, sc: C, k: int, after: map<C, int>)
    requires Ranked(up, rk) && c in up && sc in up && num.Keys == up.Keys
  {
    && after.Keys == num.Keys && after[sc] == num[sc] + k
    && forall a :: a in num && a != sc ==> after[a] == num[a] + if At(up, rk, c, a) then num[sc] else 0
  }

  lemma SplitOffEmpty<C>(up: Ups<C>, rk: Ranks<C>, num: map<C, int>, c: C, sc: C, k: int, after: map<C, int>)
    requires Ranked(up, rk) && c in up && sc in up && num.Keys == up.Keys
    requires SplitCounted(up, rk, num, c, sc, k, after) && num[sc] == 0
    ensures after == num[sc := k]
  {
  }

  /** Splitting leaves the counters of `c` and of all its ancestors where they were, plus what `sc` already brought. */
  lemma SplitIsCounted<C, F>(up: Ups<C>, rk: Ranks<C>, confs: Lists<C, F>, confs': Lists<C, F>, num: map<C, int>,
                             num': map<C, int>,
                             c: C, sc: C)
    requires AllExact(up, rk, confs, num) && AllExact(up, rk, confs', num') && c in up && sc in up
    requires up[sc] == None && !At(up, rk, c, sc) && confs[c] * confs[sc] == {} && confs' == HandedDown(confs, c, sc)
    ensures SplitCounted(up, rk, num, c, sc, |confs[c]|, Raised(up, rk, num', c, num'[sc]))
  {
    assert Up(up, rk, sc) == None && Above(up, rk, sc) == {};
    Disjoint(confs[c], confs[sc]);
    forall a | a in up
      ensures num'[a] == num[a] - (if At(up, rk, c, a) then |confs[c]| else 0) + (if a == sc then |confs[c]| else 0)
    {
      HandedDownCount(up, rk, confs, c, sc, a);
      assert Drift(up, rk, confs, num, a) == 0 && Drift(up, rk, confs', num', a) == 0;
    }
  }

  // ------------------------------------------ conferences come and go

  /** `removeConference`: conservation holds whatever the counters were. */
  lemma UnlistingKeepsDrift<C, F>(up: Ups<C>, rk: Ranks<C>, confs: Lists<C, F>, num: map<C, int>, c: C, f: F, a: C)
    requires Ranked(up, rk) && confs.Keys == up.Keys == num.Keys && c in up && f in confs[c] && a in up
    ensures Drift(up, rk, confs[c := confs[c] - {f}], Raised(up, rk, num, c, -1), a) == Drift(up, rk, confs, num, a)
  {
    UnlistedPlaces(up, rk, confs, c, f, a);
  }

  ghost function DriftMap<C, F>(up: Ups<C>, rk: Ranks<C>, confs: Lists<C, F>, num: map<C, int>): map<C, int>
    requires Ranked(up, rk) && confs.Keys == up.Keys == num.Keys
  {
    map a | a in up :: Drift(up, rk, confs, num, a)
  }

  lemma UnlistingKeepsDrifts<C, F>(up: Ups<C>, rk: Ranks<C>, confs: Lists<C, F>, num: map<C, int>, c: C, f: F)
    requires Ranked(up, rk) && confs.Keys == up.Keys == num.Keys && c in up && f in confs[c]
    ensures DriftMap(up, rk, confs[c := confs[c] - {f}], Raised(up, rk, num, c, -1)) == DriftMap(up, rk, confs, num)
  {
    var confs', num' := confs[c := confs[c] - {f}], Raised(up, rk, num, c, -1);
    forall a | a in up ensures Drift(up, rk, confs', num', a) == Drift(up, rk, confs, num, a) {
      UnlistingKeepsDrift(up, rk, confs, num, c, f, a);
    }
    SameDrifts(up, rk, confs, confs', num, num');
  }

  lemma SameDrifts<C, F>(up: Ups<C>, rk: Ranks<C>, confs: Lists<C, F>, confs': Lists<C, F>, num: map<C, int>,
                         num': map<C, int>)
    requires Ranked(up, rk) && confs.Keys == confs'.Keys == up.Keys == num.Keys == num'.Keys
    requires forall a {:trigger Drift(up, rk, confs', num', a)} :: a in up ==>
               Drift(up, rk, confs', num', a) == Drift(up, rk, confs, num, a)
    ensures DriftMap(up, rk, confs', num') == DriftMap(up, rk, confs, num)
  {
    assert DriftMap(up, rk, confs', num').Keys == DriftMap(up, rk, confs, num).Keys;
  }

  /** `_addConference` keeps a counter right exactly when the conference was not listed there yet. */
  lemma ListingDrift<C, F>(up: Ups<C>, rk: Ranks<C>, confs: Lists<C, F>, num: map<C, int>, c: C, f: F, a: C)
    requires Ranked(up, rk) && confs.Keys == up.Keys == num.Keys && c in up && a in up
    ensures Drift(up, rk, confs[c := confs[c] + {f}], Raised(up, rk, num, c, 1), a)
            == Drift(up, rk, confs, num, a) + (if f in confs[c] && At(up, rk, c, a) then 1 else 0)
  {
    ListedPlaces(up, rk, confs, c, f, a);
  }

  lemma UnlistingKeepsForest<C, F>(up: Ups<C>, rk: Ranks<C>, subs: map<C, set<C>>, confs: Lists<C, F>, num: map<C, int>,
                                   c: C, f: F)
    requires Forest(up, rk, subs, confs, num) && c in up && f in confs[c]
    ensures Forest(up, rk, subs, confs[c := confs[c] - {f}], Raised(up, rk, num, c, -1))
  {
    var confs', num' := confs[c := confs[c] - {f}], Raised(up, rk, num, c, -1);
    forall a | a in up ensures Drift(up, rk, confs', num', a) == 0 {
      UnlistingKeepsDrift(up, rk, confs, num, c, f, a);
      assert Drift(up, rk, confs, num, a) == 0;
    }
    forall a | a in up ensures Either(subs, confs', a) {
      assert Either(subs, confs, a);
    }
  }

  lemma ListingKeepsForest<C, F>(up: Ups<C>, rk: Ranks<C>, subs: map<C, set<C>>, confs: Lists<C, F>, num: map<C, int>,
                                 c: C, f: F)
    requires Forest(up, rk, subs, confs, num) && c in up && subs[c] == {}
    ensures Forest(up, rk, subs, confs[c := confs[c] + {f}], Raised(up, rk, num, c, 1)) <==> f !in confs[c]
  {
    var confs', num' := confs[c := confs[c] + {f}], Raised(up, rk, num, c, 1);
    forall a | a in up
      ensures Drift(up, rk, confs', num', a) == if f in confs[c] && At(up, rk, c, a) then 1 else 0
    {
      ListingDrift(up, rk, confs, num, c, f, a);
      assert Drift(up, rk, confs, num, a) == 0;
    }
    forall a | a in up ensures Either(subs, confs', a) {
      assert Either(subs, confs, a);
    }
    if f in confs[c] {
      assert Drift(up, rk, confs', num', c) == 1;
    }
  }

  // --------------------------------------------- subtrees are cut and hung

  lemma CuttingIsRanked<C>(up: Ups<C>, rk: Ranks<C>, sc: C)
    requires Ranked(up, rk) && sc in up
    ensures Ranked(up[sc := None], rk)
  {
    forall n | n in up ensures Lower(up[sc := None], rk, n) {
      assert Lower(up, rk, n);
    }
  }

  /** `_removeSubCategory`: ancestors lose the cached count of `sc`, and with it `sc`'s drift. */
  lemma CuttingDrift<C, F>(up: Ups<C>, rk: Ranks<C>, confs: Lists<C, F>, num: map<C, int>, o: C, sc: C, a: C)
    requires Ranked(up, rk) && confs.Keys == up.Keys == num.Keys && sc in up && up[sc] == Some(o) && a in up
    ensures Ranked(up[sc := None], rk) && o in up
    ensures Drift(up[sc := None], rk, confs, Raised(up, rk, num, o, -num[sc]), a)
            == Drift(up, rk, confs, num, a) - (if At(up, rk, o, a) then Drift(up, rk, confs, num, sc) else 0)
  {
    CuttingIsRanked(up, rk, sc);
    assert Up(up, rk, sc) == Some(o);
    PlacesAfterCut(up, rk, confs, sc, a);
  }

  lemma CuttingKeepsForest<C, F>(up: Ups<C>, rk: Ranks<C>, subs: map<C, set<C>>, confs: Lists<C, F>, num: map<C, int>,
                                 o: C, sc: C)
    requires Forest(up, rk, subs, confs, num) && sc in up && up[sc] == Some(o)
    ensures o in up && Forest(up[sc := None], rk, subs[o := subs[o] - {sc}], confs, Raised(up, rk, num, o, -num[sc]))
  {
    assert Up(up, rk, sc) == Some(o);
    var subs' := subs[o := subs[o] - {sc}];
    CuttingIsExact(up, rk, confs, num, o, sc);
    CuttingLinks(up, subs, o, sc);
    forall a | a in up ensures Either(subs', confs, a) {
      assert Either(subs, confs, a);
    }
  }

  lemma CuttingIsExact<C, F>(up: Ups<C>, rk: Ranks<C>, confs: Lists<C, F>, num: map<C, int>, o: C, sc: C)
    requires AllExact(up, rk, confs, num) && sc in up && up[sc] == Some(o) && o in up
    ensures AllExact(up[sc := None], rk, confs, Raised(up, rk, num, o, -num[sc]))
  {
    CuttingIsRanked(up, rk, sc);
    var up', num' := up[sc := None], Raised(up, rk, num, o, -num[sc]);
    forall a | a in up ensures Drift(up', rk, confs, num', a) == 0 {
      CuttingDrift(up, rk, confs, num, o, sc, a);
      assert Drift(up, rk, confs, num, a) == 0 && Drift(up, rk, confs, num, sc) == 0;
    }
  }

  lemma CuttingLinks<C>(up: Ups<C>, subs: map<C, set<C>>, o: C, sc: C)
    requires AllLinked(up, subs) && sc in up && up[sc] == Some(o) && o in up
    ensures AllLinked(up[sc := None], subs[o := subs[o] - {sc}])
  {
    var up', subs' := up[sc := None], subs[o := subs[o] - {sc}];
    forall a | a in up ensures Owned(up', subs', a) {
      assert Owned(up, subs, a);
    }
    forall a, x | a in up && x in up ensures ChildLinked(up', subs', a, x) {
      assert ChildLinked(up, subs, a, x);
    }
  }

  lemma HangingDrift<C, F>(up: Ups<C>, rk: Ranks<C>, confs: Lists<C, F>, num: map<C, int>, o: C, sc: C, a: C)
    requires Ranked(up, rk) && confs.Keys == up.Keys == num.Keys && sc in up && up[sc] == None && o in up && a in up
    requires !At(up, rk, o, sc)
    ensures var up', rk' := up[sc := Some(o)], Lifted(up, rk, sc, o);
            Ranked(up', rk') &&
            Drift(up', rk', confs, Raised(up, rk, num, o, num[sc]), a)
            == Drift(up, rk, confs, num, a) + (if At(up, rk, o, a) then Drift(up, rk, confs, num, sc) else 0)
  {
    PlacesAfterHanging(up, rk, confs, sc, o, a);
  }

  /** The owner's own ancestors are the same before and after `sc` is hung under it. */
  lemma RaisedAfterHanging<C>(up: Ups<C>, rk: Ranks<C>, num: map<C, int>, sc: C, o: C, k: int)
    requires Ranked(up, rk) && num.Keys == up.Keys && sc in up && up[sc] == None && o in up && !At(up, rk, o, sc)
    ensures var up', rk' := up[sc := Some(o)], Lifted(up, rk, sc, o);
            Ranked(up', rk') && Raised(up', rk', num, o, k) == Raised(up, rk, num, o, k)
  {
    var up', rk' := up[sc := Some(o)], Lifted(up, rk, sc, o);
    HangingIsRanked(up, rk, sc, o);
    assert up'[sc := None] == up;
    assert Up(up', rk', sc) == Some(o);
    if sc in Above(up', rk', o) {
      AboveRanks(up', rk', o, sc);
    }
    AboveAfterCut(up', rk', sc, o);
    AnyRanks(up, rk, rk', o);
  }

  lemma HangingKeepsForest<C, F>(up: Ups<C>, rk: Ranks<C>, subs: map<C, set<C>>, confs: Lists<C, F>, num: map<C, int>,
                                 o: C, sc: C)
    requires Forest(up, rk, subs, confs, num) && sc in up && up[sc] == None && o in up && !At(up, rk, o, sc)
    requires confs[o] == {}
    ensures Forest(up[sc := Some(o)], Lifted(up, rk, sc, o), subs[o := subs[o] + {sc}], confs,
                   Raised(up, rk, num, o, num[sc]))
  {
    var subs' := subs[o := subs[o] + {sc}];
    HangingIsExact(up, rk, confs, num, o, sc);
    HangingLinks(up, subs, o, sc);
    forall a | a in up ensures Either(subs', confs, a) {
      assert Either(subs, confs, a);
    }
  }

  lemma HangingIsExact<C, F>(up: Ups<C>, rk: Ranks<C>, confs: Lists<C, F>, num: map<C, int>, o: C, sc: C)
    requires AllExact(up, rk, confs, num) && sc in up && up[sc] == None && o in up && !At(up, rk, o, sc)
    ensures AllExact(up[sc := Some(o)], Lifted(up, rk, sc, o), confs, Raised(up, rk, num, o, num[sc]))
  {
    HangingIsRanked(up, rk, sc, o);
    var up', rk', num' := up[sc := Some(o)], Lifted(up, rk, sc, o), Raised(up, rk, num, o, num[sc]);
    forall a | a in up ensures Drift(up', rk', confs, num', a) == 0 {
      HangingDrift(up, rk, confs, num, o, sc, a);
      assert Drift(up, rk, confs, num, a) == 0 && Drift(up, rk, confs, num, sc) == 0;
    }
  }

  lemma HangingLinks<C>(up: Ups<C>, subs: map<C, set<C>>, o: C, sc: C)
    requires AllLinked(up, subs) && sc in up && up[sc] == None && o in up
    ensures AllLinked(up[sc := Some(o)], subs[o := subs[o] + {sc}])
  {
    var up', subs' := up[sc := Some(o)], subs[o := subs[o] + {sc}];
    forall a | a in up ensures Owned(up', subs', a) {
      assert Owned(up, subs, a);
    }
    forall a, x | a in up && x in up ensures ChildLinked(up', subs', a, x) {
      assert ChildLinked(up, subs, a, x);
    }
  }

  // --------------------------------------------------------------- removal

  /** The subtree of `a`. */
  ghost function Below<C>(up: Ups<C>, rk: Ranks<C>, a: C): (s: set<C>)
    requires Ranked(up, rk)
    ensures s <= up.Keys
  {
    set x | x in up && At(up, rk, x, a)
  }

  lemma BelowGoingUp<C>(up: Ups<C>, rk: Ranks<C>, a: C, x: C)
    requires Ranked(up, rk) && x in up
    ensures x in Below(up, rk, a) <==> x == a || MetAbove(up, a, x)
  {
    AncestorsAreMetGoingUp(up, rk, x, a);
  }

  /** Ancestors within a part of the tree that is closed under owners. */
  lemma {:induction false} AboveRest<C>(up: Ups<C>, rk: Ranks<C>, up': Ups<C>, rk': Ranks<C>, n: C)
    requires Ranked(up, rk) && Ranked(up', rk') && n in up' && up'.Keys <= up.Keys
    requires forall x :: x in up' ==> up'[x] == up[x]
    ensures Above(up', rk', n) == Above(up, rk, n)
    decreases rk[n]
  {
    assert Up(up', rk', n) == Up(up, rk, n);
    if up[n].Some? {
      AboveRest(up, rk, up', rk', up[n].value);
    }
  }

  lemma {:induction false} AtTransitive<C>(up: Ups<C>, rk: Ranks<C>, x: C, a: C, b: C)
    requires Ranked(up, rk) && x in up && a in up && At(up, rk, x, a) && At(up, rk, a, b)
    ensures At(up, rk, x, b)
    decreases rk[x]
  {
    if x != a {
      AtTransitive(up, rk, Up(up, rk, x).value, a, b);
    }
  }

  lemma BelowChild<C>(up: Ups<C>, rk: Ranks<C>, sub: C, a: C)
    requires Ranked(up, rk) && sub in up && a in up && up[sub] == Some(a)
    ensures a !in Below(up, rk, sub) && Below(up, rk, sub) < Below(up, rk, a)
  {
    assert Up(up, rk, sub) == Some(a);
    if sub in Above(up, rk, a) {
      AboveRanks(up, rk, a, sub);
    }
    forall x | x in Below(up, rk, sub) ensures x in Below(up, rk, a) {
      AtTransitive(up, rk, x, sub, a);
    }
    assert a in Below(up, rk, a) && a !in Below(up, rk, sub);
  }

  /** Nothing is listed at or below a category whose counter is zero, so its subcategories have zero too. */
  lemma EmptyParts<C, F>(up: Ups<C>, rk: Ranks<C>, subs: map<C, set<C>>, confs: Lists<C, F>, num: map<C, int>, c: C)
    requires Forest(up, rk, subs, confs, num) && c in up && num[c] <= 0
    ensures confs[c] == {} && forall k :: k in subs[c] ==> k in num && num[k] == 0
  {
    assert Drift(up, rk, confs, num, c) == 0;
    EmptyBelow(up, rk, confs, c, c);
    forall k | k in subs[c] ensures k in num && num[k] == 0 {
      SubIsKnown(up, subs, c, k);
      assert Up(up, rk, k) == Some(c);
      EmptyBelow(up, rk, confs, c, k);
      assert Drift(up, rk, confs, num, k) == 0;
    }
  }

  /** Deleting the subtree of a subcategory leaves the rest of the subtree. */
  lemma BelowAfterDeletion<C>(up: Ups<C>, rk: Ranks<C>, up': Ups<C>, sub: C, a: C)
    requires Ranked(up, rk) && Ranked(up', rk) && sub in up && a in up && up[sub] == Some(a) && up'.Keys == up.Keys
    requires forall x :: x in up ==> up'[x] == if x in Below(up, rk, sub) then None else up[x]
    ensures Below(up', rk, a) == Below(up, rk, a) - Below(up, rk, sub)
  {
    BelowChild(up, rk, sub, a);
    forall x | x in up ensures x in Below(up', rk, a) <==> x in Below(up, rk, a) && x !in Below(up, rk, sub) {
      if x in Below(up, rk, sub) {
        assert Up(up', rk, x) == None;
      } else {
        AboveOutside(up, rk, up', sub, x);
      }
    }
  }

  lemma {:induction false} AboveOutside<C>(up: Ups<C>, rk: Ranks<C>, up': Ups<C>, sub: C, x: C)
    requires Ranked(up, rk) && Ranked(up', rk) && x in up && up'.Keys == up.Keys && x !in Below(up, rk, sub)
    requires forall x :: x in up ==> up'[x] == if x in Below(up, rk, sub) then None else up[x]
    ensures Above(up', rk, x) == Above(up, rk, x)
    decreases rk[x]
  {
    assert Up(up', rk, x) == Up(up, rk, x);
    if up[x].Some? {
      AboveOutside(up, rk, up', sub, up[x].value);
    }
  }

  lemma OwnerIsOutside<C>(up: Ups<C>, rk: Ranks<C>, subs: map<C, set<C>>, c: C)
    requires Ranked(up, rk) && AllLinked(up, subs) && c in up && up[c].Some?
    ensures up[c].value in up && c in Below(up, rk, c) && up[c].value !in Below(up, rk, c) && c in subs[up[c].value]
  {
    OwnerLists(up, rk, subs, c);
    BelowChild(up, rk, c, up[c].value);
  }

  /** A category with no subcategories is alone in its subtree. */
  lemma BelowLeaf<C>(up: Ups<C>, rk: Ranks<C>, subs: map<C, set<C>>, a: C)
    requires Ranked(up, rk) && AllLinked(up, subs) && a in up && subs[a] == {}
    ensures Below(up, rk, a) == {a}
  {
    forall x | x in up && x != a ensures !At(up, rk, x, a) {
      NotAboveLeaf(up, rk, subs, x, a);
    }
  }

  lemma {:induction false} NotAboveLeaf<C>(up: Ups<C>, rk: Ranks<C>, subs: map<C, set<C>>, x: C, a: C)
    requires Ranked(up, rk) && AllLinked(up, subs) && x in up && a in up && subs[a] == {}
    ensures a !in Above(up, rk, x)
    decreases rk[x]
  {
    if Up(up, rk, x).Some? {
      assert ChildLinked(up, subs, a, x);
      NotAboveLeaf(up, rk, subs, Up(up, rk, x).value, a);
    }
  }

  lemma PlacesBelow<C, F>(up: Ups<C>, rk: Ranks<C>, confs: Lists<C, F>, a: C, x: C)
    requires Ranked(up, rk) && confs.Keys == up.Keys && x in up && a in up && At(up, rk, x, a)
    ensures Places(up, rk, confs, x) <= Places(up, rk, confs, a)
  {
    forall e | e in Places(up, rk, confs, x) ensures e in Places(up, rk, confs, a) {
      AtTransitive(up, rk, e.0, x, a);
    }
  }

  /** An empty subtree is empty all the way down. */
  lemma EmptyBelow<C, F>(up: Ups<C>, rk: Ranks<C>, confs: Lists<C, F>, a: C, x: C)
    requires Ranked(up, rk) && confs.Keys == up.Keys && x in up && a in up && At(up, rk, x, a)
    requires TrueCount(up, rk, confs, a) == 0
    ensures TrueCount(up, rk, confs, x) == 0 && confs[x] == {}
  {
    PlacesBelow(up, rk, confs, a, x);
    OwnPlaces(up, rk, confs, x);
  }

  lemma OwnPlaces<C, F>(up: Ups<C>, rk: Ranks<C>, confs: Lists<C, F>, x: C)
    requires Ranked(up, rk) && confs.Keys == up.Keys && x in up
    ensures Places(up, rk, confs, x) == {} ==> confs[x] == {}
  {
    var p := Places(up, rk, confs, x);
    assert forall f :: f in confs[x] ==> (x, f) in p;
  }

  // -------------------------------------------- links with conferences

  /** The category lists the conference exactly when it is one of its owners. */
  ghost predicate ConfLinked<C, F>(confs: Lists<C, F>, owners: map<F, seq<C>>, c: C, f: F)
    requires c in confs && f in owners
  {
    f in confs[c] <==> c in owners[f]
  }

  ghost predicate OwnersKnown<C, F>(confs: Lists<C, F>, owners: map<F, seq<C>>, f: F)
    requires f in owners
  {
    Distinct(owners[f]) && forall c :: c in owners[f] ==> c in confs
  }

  ghost predicate ListKnown<C, F>(confs: Lists<C, F>, owners: map<F, seq<C>>, c: C)
    requires c in confs
  {
    confs[c] <= owners.Keys
  }

  ghost predicate AllConfLinked<C, F>(confs: Lists<C, F>, owners: map<F, seq<C>>) {
    && (forall c {:trigger ListKnown(confs, owners, c)} :: c in confs ==> ListKnown(confs, owners, c))
    && (forall f {:trigger OwnersKnown(confs, owners, f)} :: f in owners ==> OwnersKnown(confs, owners, f))
    && (forall c,
        f {:trigger ConfLinked(confs, owners, c, f)} :: c in confs && f in owners ==> ConfLinked(confs, owners, c, f))
  }

  lemma UnlistingKeepsLinks<C, F>(confs: Lists<C, F>, owners: map<F, seq<C>>, c: C, f: F)
    requires AllConfLinked(confs, owners) && c in confs && f in owners
    ensures AllConfLinked(confs[c := confs[c] - {f}], owners[f := WithoutFirst(owners[f], c)])
  {
    var confs', owners' := confs[c := confs[c] - {f}], owners[f := WithoutFirst(owners[f], c)];
    assert OwnersKnown(confs, owners, f);
    WithoutDistinct(owners[f], c);
    forall d | d in confs' ensures ListKnown(confs', owners', d) {
      assert ListKnown(confs, owners, d);
    }
    forall g | g in owners' ensures OwnersKnown(confs', owners', g) {
      assert OwnersKnown(confs, owners, g);
      forall d | d in owners'[g] ensures d in confs' {
        if g == f {
          WithoutMember(owners[f], c, d);
        }
      }
    }
    forall d, g | d in confs' && g in owners' ensures ConfLinked(confs', owners', d, g) {
      assert ConfLinked(confs, owners, d, g);
    }
  }

  lemma ListingKeepsLinks<C, F>(confs: Lists<C, F>, owners: map<F, seq<C>>, c: C, f: F)
    requires AllConfLinked(confs, owners) && c in confs && f in owners && f !in confs[c]
    ensures AllConfLinked(confs[c := confs[c] + {f}], owners[f := owners[f] + [c]])
  {
    var confs', owners' := confs[c := confs[c] + {f}], owners[f := owners[f] + [c]];
    assert OwnersKnown(confs, owners, f) && ConfLinked(confs, owners, c, f);
    forall d | d in confs' ensures ListKnown(confs', owners', d) {
      assert ListKnown(confs, owners, d);
    }
    forall g | g in owners' ensures OwnersKnown(confs', owners', g) {
      assert OwnersKnown(confs, owners, g);
    }
    forall d, g | d in confs' && g in owners' ensures ConfLinked(confs', owners', d, g) {
      assert ConfLinked(confs, owners, d, g);
    }
  }

  // ------------------------------------------------------ whole operations

  /** Categories and conferences in good order. */
  ghost predicate Registry<C, F>(up: Ups<C>, rk: Ranks<C>, subs: map<C, set<C>>, confs: Lists<C, F>, num: map<C, int>,
                                 owners: map<F, seq<C>>) {
    Forest(up, rk, subs, confs, num) && AllConfLinked(confs, owners)
  }

  lemma UnlistingKeepsRegistry<C, F>(up: Ups<C>, rk: Ranks<C>, subs: map<C, set<C>>, confs: Lists<C, F>,
                                     num: map<C, int>,
                                     owners: map<F, seq<C>>, c: C, f: F)
    requires Registry(up, rk, subs, confs, num, owners) && c in up && f in confs[c] && f in owners
    ensures Registry(up, rk, subs, confs[c := confs[c] - {f}], Raised(up, rk, num, c, -1),
                     owners[f := WithoutFirst(owners[f], c)])
  {
    UnlistingKeepsForest(up, rk, subs, confs, num, c, f);
    UnlistingKeepsLinks(confs, owners, c, f);
  }

  lemma ListingKeepsRegistry<C, F>(up: Ups<C>, rk: Ranks<C>, subs: map<C, set<C>>, confs: Lists<C, F>, num: map<C, int>,
                                   owners: map<F, seq<C>>, c: C, f: F)
    requires Registry(up, rk, subs, confs, num, owners) && c in up && f !in confs[c] && f in owners && subs[c] == {}
    ensures Registry(up, rk, subs, confs[c := confs[c] + {f}], Raised(up, rk, num, c, 1), owners[f := owners[f] + [c]])
  {
    ListingKeepsForest(up, rk, subs, confs, num, c, f);
    ListingKeepsLinks(confs, owners, c, f);
  }

  /** On a category without subcategories, everything stays in order if and only if `f` is new to its list. */
  lemma ListingKeepsRegistryIff<C, F>(up: Ups<C>, rk: Ranks<C>, subs: map<C, set<C>>, confs: Lists<C, F>,
                                      num: map<C, int>, owners: map<F, seq<C>>, c: C, f: F)
    requires Registry(up, rk, subs, confs, num, owners) && c in up && f in owners && subs[c] == {}
    ensures f !in confs[c] <==>
              Registry(up, rk, subs, confs[c := confs[c] + {f}], Raised(up, rk, num, c, 1),
                       owners[f := owners[f] + [c]])
  {
    if f in confs[c] {
      assert ConfLinked(confs, owners, c, f);
      AppendedTwice(owners[f], c);
      assert !OwnersKnown(confs[c := confs[c] + {f}], owners[f := owners[f] + [c]], f);
    } else {
      ListingKeepsRegistry(up, rk, subs, confs, num, owners, c, f);
    }
  }

  /** Cutting `c` loose puts nobody new below it. */
  lemma LooseNotAbove<C>(up: Ups<C>, rk: Ranks<C>, c: C, n: C)
    requires Ranked(up, rk) && c in up && n in up && !At(up, rk, n, c)
    ensures Ranked(up[c := None], rk) && !At(up[c := None], rk, n, c)
  {
    CuttingIsRanked(up, rk, c);
    AboveAfterCut(up, rk, c, n);
  }

  lemma OwnerLists<C>(up: Ups<C>, rk: Ranks<C>, subs: map<C, set<C>>, c: C)
    requires Ranked(up, rk) && AllLinked(up, subs) && c in up && up[c].Some?
    ensures up[c].value in up && c in subs[up[c].value]
  {
    var o := Up(up, rk, c).value;
    assert ChildLinked(up, subs, o, c);
  }

  /** Hanging or cutting loose on the owner's side alone breaks the registry. */
  lemma OwnerSideAlone<C, F>(up: Ups<C>, rk: Ranks<C>, subs: map<C, set<C>>, confs: Lists<C, F>, num: map<C, int>,
                             owners: map<F, seq<C>>, c: C, o: Option<C>)
    requires Registry(up, rk, subs, confs, num, owners) && c in up && (up[c] == None || o == None || o == up[c])
    ensures Registry(up[c := o], rk, subs, confs, num, owners) <==> o == up[c]
  {
    assert up[c := up[c]] == up;
    if up[c].Some? {
      OwnerLists(up, rk, subs, c);
    }
    if Registry(up[c := o], rk, subs, confs, num, owners) {
      if up[c].Some? {
        SubIsKnown(up[c := o], subs, up[c].value, c);
      } else if o.Some? {
        OwnerLists(up[c := o], rk, subs, c);
        SubIsKnown(up, subs, o.value, c);
      }
    }
  }

  /** A new category, not hung anywhere yet. */
  lemma AddingKeepsRegistry<C, F>(up: Ups<C>, rk: Ranks<C>, subs: map<C, set<C>>, confs: Lists<C, F>, num: map<C, int>,
                                  owners: map<F, seq<C>>, c: C)
    requires Registry(up, rk, subs, confs, num, owners) && c !in up
    ensures Registry(up[c := None], rk[c := 0], subs[c := {}], confs[c := {}], num[c := 0], owners)
    ensures forall x :: x in up ==> !At(up[c := None], rk[c := 0], x, c)
  {
    var up', rk', subs', confs', num' := up[c := None], rk[c := 0], subs[c := {}], confs[c := {}], num[c := 0];
    forall n | n in up'
      ensures Lower(up', rk', n) && Either(subs', confs', n) && Owned(up', subs', n) && ListKnown(confs', owners, n)
    {
      assert n != c ==> Lower(up, rk, n) && Either(subs, confs, n) && Owned(up, subs, n) && ListKnown(confs, owners, n);
    }
    forall n | n in up ensures Above(up', rk', n) == Above(up, rk, n) && c !in Above(up, rk, n) {
      AboveRest(up', rk', up, rk, n);
      if c in Above(up, rk, n) {
        AboveRanks(up, rk, n, c);
      }
    }
    AddedLinks(up, rk, subs, c);
    forall f | f in owners ensures OwnersKnown(confs', owners, f) {
      assert OwnersKnown(confs, owners, f);
    }
    forall x, f | x in confs' && f in owners ensures ConfLinked(confs', owners, x, f) {
      assert OwnersKnown(confs, owners, f) && (x != c ==> ConfLinked(confs, owners, x, f));
    }
    AddedCounts(up, rk, confs, num, c);
  }

  /** A registry starts empty. */
  lemma EmptyRegistry<C, F>()
    ensures Registry<C, F>(map[], map[], map[], map[], map[], map[])
  {
  }

  /** A new conference, not listed anywhere yet. */
  lemma NewConferenceKeepsRegistry<C, F>(up: Ups<C>, rk: Ranks<C>, subs: map<C, set<C>>, confs: Lists<C, F>,
                                         num: map<C, int>,
                                         owners: map<F, seq<C>>, f: F)
    requires Registry(up, rk, subs, confs, num, owners) && f !in owners
    ensures Registry(up, rk, subs, confs, num, owners[f := []])
    ensures forall c :: c in confs ==> f !in confs[c]
  {
    var owners' := owners[f := []];
    forall c | c in confs ensures ListKnown(confs, owners', c) && f !in confs[c] {
      assert ListKnown(confs, owners, c);
    }
    forall g | g in owners' ensures OwnersKnown(confs, owners', g) {
      assert g != f ==> OwnersKnown(confs, owners, g);
    }
    forall c, g | c in confs && g in owners' ensures ConfLinked(confs, owners', c, g) {
      assert g != f ==> ConfLinked(confs, owners, c, g);
    }
  }

  lemma AddedLinks<C>(up: Ups<C>, rk: Ranks<C>, subs: map<C, set<C>>, c: C)
    requires Ranked(up, rk) && AllLinked(up, subs) && c !in up
    ensures AllLinked(up[c := None], subs[c := {}])
  {
    var up', subs' := up[c := None], subs[c := {}];
    forall a | a in up' ensures Owned(up', subs', a) {
      assert a != c ==> Owned(up, subs, a);
    }
    forall a, x | a in up' && x in up' ensures ChildLinked(up', subs', a, x) {
      if a != c {
        assert Owned(up, subs, a) && (x != c ==> ChildLinked(up, subs, a, x));
      } else if x != c {
        assert Up(up, rk, x) == up'[x];
      }
    }
  }

  lemma AddedCounts<C, F>(up: Ups<C>, rk: Ranks<C>, confs: Lists<C, F>, num: map<C, int>, c: C)
    requires AllExact(up, rk, confs, num) && c !in up
    requires Ranked(up[c := None], rk[c := 0])
    ensures AllExact(up[c := None], rk[c := 0], confs[c := {}], num[c := 0])
  {
    var up', rk', confs', num' := up[c := None], rk[c := 0], confs[c := {}], num[c := 0];
    forall a | a in up' ensures Drift(up', rk', confs', num', a) == 0 {
      var p := Places(up', rk', confs', a);
      forall x | x in up ensures Above(up', rk', x) == Above(up, rk, x) {
        AboveRest(up', rk', up, rk, x);
      }
      if a == c {
        forall x | x in up ensures c !in Above(up, rk, x) {
          if c in Above(up, rk, x) {
            AboveRanks(up, rk, x, c);
          }
        }
        assert p == {};
      } else {
        assert p == Places(up, rk, confs, a);
        assert Drift(up, rk, confs, num, a) == 0;
      }
    }
  }

  /** A raise moves exactly the counters of a category and its ancestors away from, or back to, the truth. */
  lemma RaisedDrifts<C, F>(up: Ups<C>, rk: Ranks<C>, confs: Lists<C, F>, num: map<C, int>, c: C, k: int)
    requires Ranked(up, rk) && confs.Keys == up.Keys == num.Keys && c in up
    ensures DriftMap(up, rk, confs, Raised(up, rk, num, c, k)) == Raised(up, rk, DriftMap(up, rk, confs, num), c, k)
  {
    assert DriftMap(up, rk, confs, Raised(up, rk, num, c, k)).Keys == up.Keys;
  }

  /** A conference unlisted without counting leaves every counter above it one too high. */
  lemma UncountedDrifts<C, F>(up: Ups<C>, rk: Ranks<C>, confs: Lists<C, F>, num: map<C, int>, c: C, f: F)
    requires Ranked(up, rk) && confs.Keys == up.Keys == num.Keys && c in up && f in confs[c]
    ensures DriftMap(up, rk, confs[c := confs[c] - {f}], num) == Raised(up, rk, DriftMap(up, rk, confs, num), c, 1)
  {
    var confs' := confs[c := confs[c] - {f}];
    var l, r := DriftMap(up, rk, confs', num), Raised(up, rk, DriftMap(up, rk, confs, num), c, 1);
    forall a | a in up ensures l[a] == r[a] {
      UnlistedPlaces(up, rk, confs, c, f, a);
    }
    SameMap(l, r);
  }

  lemma SameMap<C>(l: map<C, int>, r: map<C, int>)
    requires l.Keys == r.Keys && forall a :: a in l ==> l[a] == r[a]
    ensures l == r
  {
  }

  lemma RaisedBack<C>(up: Ups<C>, rk: Ranks<C>, num: map<C, int>, c: C, k: int)
    requires Ranked(up, rk) && c in up && num.Keys == up.Keys
    ensures Raised(up, rk, Raised(up, rk, num, c, k), c, -k) == num
  {
  }

  ghost predicate StillListed<C, F>(confs: Lists<C, F>, confs': Lists<C, F>, f: F, gone: set<C>, c: C)
    requires c in confs && c in confs'
  {
    confs'[c] == if c in gone then confs[c] - {f} else confs[c]
  }

  /** `f` has left the lists of `gone`. */
  ghost predicate Left<C, F>(confs: Lists<C, F>, confs': Lists<C, F>, f: F, gone: set<C>) {
    confs'.Keys == confs.Keys && forall c {:trigger StillListed(confs, confs', f, gone, c)} :: c in confs ==>
      StillListed(confs, confs', f, gone, c)
  }

  lemma LeftBounds<C, F>(confs: Lists<C, F>, confs': Lists<C, F>, f: F, gone: set<C>)
    requires Left(confs, confs', f, gone)
    ensures forall c :: c in confs ==> confs[c] - {f} <= confs'[c] <= confs[c]
    ensures forall c :: c in confs ==> confs'[c] == if c in gone then confs[c] - {f} else confs[c]
  {
    forall c | c in confs ensures StillListed(confs, confs', f, gone, c) {
    }
  }

  lemma LeftOneMore<C, F>(confs: Lists<C, F>, confs': Lists<C, F>, f: F, gone: set<C>, c: C)
    requires Left(confs, confs', f, gone) && c in confs
    ensures var confs'' := confs'[c := confs'[c] - {f}];
            Left(confs, confs'', f, gone + {c}) && (f !in confs[c] ==> Left(confs, confs'', f, gone))
  {
    var confs'' := confs'[c := confs'[c] - {f}];
    forall d | d in confs
      ensures StillListed(confs, confs'', f, gone + {c}, d)
      ensures (f !in confs[c] ==> StillListed(confs, confs'', f, gone, d))
    {
      assert StillListed(confs, confs', f, gone, d);
      assert f !in confs[c] ==> confs[c] - {f} == confs[c];
    }
  }

  lemma LeftAfterOne<C, F>(confs: Lists<C, F>, confs': Lists<C, F>, f: F, gone: set<C>, c: C)
    requires c in confs && f in confs[c] && Left(confs[c := confs[c] - {f}], confs', f, gone)
    ensures Left(confs, confs', f, gone + {c}) && f !in confs'[c]
  {
    var less := confs[c := confs[c] - {f}];
    forall d | d in confs ensures StillListed(confs, confs', f, gone + {c}, d) {
      assert StillListed(less, confs', f, gone, d);
    }
    assert StillListed(less, confs', f, gone, c);
  }

  /** A conference has left some of its owners, on both sides, and the counters have followed. */
  lemma LeavingKeepsRegistry<C, F>(up: Ups<C>, rk: Ranks<C>, subs: map<C, set<C>>, confs: Lists<C, F>, num: map<C, int>,
                                   owners: map<F, seq<C>>, confs': Lists<C, F>, num': map<C, int>,
                                   owners': map<F, seq<C>>,
                                   f: F, gone: set<C>)
    requires Registry(up, rk, subs, confs, num, owners) && f in owners && Left(confs, confs', f, gone)
    requires num'.Keys == num.Keys && DriftMap(up, rk, confs', num') == DriftMap(up, rk, confs, num)
    requires f in owners' && owners' == owners[f := owners'[f]] && Distinct(owners'[f])
    requires forall c :: c in owners'[f] <==> c in owners[f] && c !in gone
    ensures Registry(up, rk, subs, confs', num', owners')
  {
    forall c | c in confs ensures Either(subs, confs', c) && ListKnown(confs', owners', c) {
      assert Either(subs, confs, c) && ListKnown(confs, owners, c) && StillListed(confs, confs', f, gone, c);
    }
    forall a | a in up ensures Drift(up, rk, confs', num', a) == 0 {
      assert DriftMap(up, rk, confs', num')[a] == DriftMap(up, rk, confs, num)[a];
      assert Drift(up, rk, confs, num, a) == 0;
    }
    assert AllConfLinked(confs', owners') by {
      LeavingKeepsLinks(confs, owners, confs', owners', f, gone);
    }
  }

  lemma LeavingKeepsLinks<C, F>(confs: Lists<C, F>, owners: map<F, seq<C>>, confs': Lists<C, F>,
                                owners': map<F, seq<C>>, f: F, gone: set<C>)
    requires AllConfLinked(confs, owners) && f in owners && Left(confs, confs', f, gone)
    requires f in owners' && owners' == owners[f := owners'[f]] && Distinct(owners'[f])
    requires forall c :: c in owners'[f] <==> c in owners[f] && c !in gone
    ensures AllConfLinked(confs', owners')
  {
    forall c | c in confs' ensures ListKnown(confs', owners', c) {
      assert ListKnown(confs, owners, c) && StillListed(confs, confs', f, gone, c);
    }
    forall g | g in owners' ensures OwnersKnown(confs', owners', g) {
      assert OwnersKnown(confs, owners, g);
    }
    forall c, g | c in confs' && g in owners' ensures ConfLinked(confs', owners', c, g) {
      assert ConfLinked(confs, owners, c, g) && StillListed(confs, confs', f, gone, c);
    }
  }

  // ------------------------------------------------------ cascading deletion

  /** All that is on record at one moment, but for the ranks. */
  datatype Books<!C(==), !F(==)> = Books(
    up: Ups<C>, subs: map<C, set<C>>, confs: Lists<C, F>, num: map<C, int>, owners: map<F, seq<C>>
  )

  /** The books once `sc` is no subcategory of `c` any more. */
  ghost function CutOff<C, F>(b: Books<C, F>, rk: Ranks<C>, c: C, sc: C): Books<C, F>
    requires Ranked(b.up, rk) && b.num.Keys == b.subs.Keys == b.up.Keys && c in b.up && sc in b.up
  {
    b.(up := b.up[sc := None], subs := b.subs[c := b.subs[c] - {sc}], num := Raised(b.up, rk, b.num, c, -b.num[sc]))
  }

  /** Deleted categories are empty and hang nowhere; elsewhere only `parent` loses subcategories. */
  ghost predicate Pruned<C, F>(b: Books<C, F>, b': Books<C, F>, gone: set<C>, parent: C) {
    && b.up.Keys == b.subs.Keys == b'.up.Keys == b'.subs.Keys == b'.confs.Keys
    && (forall c :: c in gone && c in b.up ==> b'.up[c] == None && b'.subs[c] == {} && b'.confs[c] == {})
    && (forall c :: c in b.up && c !in gone ==> b'.up[c] == b.up[c] && (c != parent ==> b'.subs[c] == b.subs[c]))
  }

  /** The conferences listed in `gone`. */
  ghost function ListedIn<C, F>(confs: Lists<C, F>, gone: set<C>): set<F> {
    set c, f | c in gone && c in confs && f in confs[c] :: f
  }

  /** Of the conferences with one owner or two, those deleted have none any more and the others keep theirs. */
  ghost predicate Freed<C, F>(owners: map<F, seq<C>>, owners': map<F, seq<C>>, deleted: set<F>) {
    && owners'.Keys == owners.Keys
    && forall f :: f in owners && |owners[f]| <= 2 ==> owners'[f] == if f in deleted then [] else owners[f]
  }

  /**
    Lists lose at most the conferences that `gone` listed, and stay as they are
    with their counters if no conference was deleted.
   */
  ghost predicate Thinned<C, F>(b: Books<C, F>, b': Books<C, F>, all: bool, gone: set<C>) {
    && b.confs.Keys == b.num.Keys == b'.confs.Keys == b'.num.Keys
    && (forall c :: c in b.confs ==> b'.confs[c] <= b.confs[c])
    && (forall c, f :: c in b.confs && f in b.confs[c] && f !in ListedIn(b.confs, gone) ==> f in b'.confs[c])
    && Freed(b.owners, b'.owners, ListedIn(b.confs, gone))
    && (!all ==> b'.confs == b.confs && b'.num == b.num)
  }

  /** One conference has been deleted. */
  ghost predicate OneRemoved<C, F>(b: Books<C, F>, b': Books<C, F>, f: F) {
    && b.confs.Keys == b.num.Keys == b'.confs.Keys == b'.num.Keys
    && (forall c :: c in b.confs ==> b.confs[c] - {f} <= b'.confs[c] <= b.confs[c])
    && Freed(b.owners, b'.owners, {f})
  }

  /** All conferences that `c` listed have been deleted but `rest`. */
  ghost predicate ThinnedBut<C, F>(b: Books<C, F>, b': Books<C, F>, rest: set<F>, c: C) {
    && b.confs.Keys == b.num.Keys == b'.confs.Keys == b'.num.Keys
    && c in b.confs && b'.confs[c] == rest
    && (forall d :: d in b.confs ==> b.confs[d] - b.confs[c] <= b'.confs[d] <= b.confs[d])
    && Freed(b.owners, b'.owners, b.confs[c] - rest)
  }

  lemma OneMoreRemoved<C, F>(b: Books<C, F>, b1: Books<C, F>, b2: Books<C, F>, rest: set<F>, f: F, c: C)
    requires ThinnedBut(b, b1, rest, c) && f in rest && OneRemoved(b1, b2, f) && b2.confs[c] == rest - {f}
    ensures ThinnedBut(b, b2, rest - {f}, c)
  {
    assert f in b.confs[c];
    assert b.confs[c] - (rest - {f}) == (b.confs[c] - rest) + {f};
  }

  lemma AllRemoved<C, F>(b: Books<C, F>, b': Books<C, F>, all: bool, c: C)
    requires ThinnedBut(b, b', {}, c) && (!all ==> b' == b)
    ensures Thinned(b, b', all, {c})
  {
    assert ListedIn(b.confs, {c}) == b.confs[c];
    assert b.confs[c] - {} == b.confs[c];
  }

  ghost predicate AllSole<C, F>(owners: map<F, seq<C>>) {
    forall f :: f in owners ==> |owners[f]| <= 1
  }

  lemma FreedKeepsSole<C, F>(owners: map<F, seq<C>>, owners': map<F, seq<C>>, deleted: set<F>)
    requires Freed(owners, owners', deleted)
    ensures AllSole(owners) ==> AllSole(owners')
  {
  }

  lemma PrunedTwice<C, F>(b: Books<C, F>, b1: Books<C, F>, b2: Books<C, F>, g: set<C>, h: set<C>, parent: C)
    requires Pruned(b, b1, g, parent) && Pruned(b1, b2, h, parent)
    requires parent !in g && forall c :: c in b1.confs ==> b2.confs[c] <= b1.confs[c]
    ensures Pruned(b, b2, g + h, parent)
  {
  }

  /** What is left below the parent of a deleted subtree. */
  lemma PrunedBelow<C, F>(b: Books<C, F>, b': Books<C, F>, rk: Ranks<C>, sub: C, c: C)
    requires Ranked(b.up, rk) && Ranked(b'.up, rk) && sub in b.up && c in b.up && b.up[sub] == Some(c)
    requires Pruned(b, b', Below(b.up, rk, sub), c)
    ensures Below(b'.up, rk, c) == Below(b.up, rk, c) - Below(b.up, rk, sub)
    ensures c !in Below(b.up, rk, sub) && Below(b.up, rk, sub) <= Below(b.up, rk, c)
  {
    BelowChild(b.up, rk, sub, c);
    BelowAfterDeletion(b.up, rk, b'.up, sub, c);
  }

  lemma ThinnedTwice<C, F>(b: Books<C, F>, b1: Books<C, F>, b2: Books<C, F>, all: bool, g: set<C>, h: set<C>)
    requires Thinned(b, b1, all, g) && Thinned(b1, b2, all, h)
    ensures Thinned(b, b2, all, g + h)
  {
    ListedInBoth(b.confs, b1.confs, g, h);
  }

  lemma ListedInBoth<C, F>(confs: Lists<C, F>, confs1: Lists<C, F>, g: set<C>, h: set<C>)
    requires confs1.Keys == confs.Keys && forall c :: c in confs ==> confs1[c] <= confs[c]
    requires forall c, f :: c in confs && f in confs[c] && f !in ListedIn(confs, g) ==> f in confs1[c]
    ensures ListedIn(confs, g) + ListedIn(confs1, h) == ListedIn(confs, g + h)
  {
  }

  /** If no conference has more than one owner, deletion leaves all other lists as they are. */
  lemma SoleOwnersSpared<C, F>(b: Books<C, F>, b': Books<C, F>, all: bool, gone: set<C>)
    requires AllConfLinked(b.confs, b.owners) && Thinned(b, b', all, gone)
    requires AllSole(b.owners)
    ensures forall c :: c in b.confs && c !in gone ==> b'.confs[c] == b.confs[c]
  {
    forall c | c in b.confs && c !in gone ensures b'.confs[c] == b.confs[c] {
      forall f | f in b.confs[c] ensures f in b'.confs[c] {
        assert ListKnown(b.confs, b.owners, c) && ConfLinked(b.confs, b.owners, c, f);
        forall d | d in gone && d in b.confs ensures f !in b.confs[d] {
          assert ConfLinked(b.confs, b.owners, d, f);
        }
        assert f !in ListedIn(b.confs, gone);
      }
    }
  }

  ghost predicate AtMostTwo<C, F>(owners: map<F, seq<C>>) {
    forall f :: f in owners ==> |owners[f]| <= 2
  }

  /** Every conference that `gone` listed is unlinked everywhere, and no other conference leaves any list. */
  ghost predicate UnlinkedEverywhere<C, F>(b: Books<C, F>, b': Books<C, F>, gone: set<C>) {
    && b'.confs.Keys == b.confs.Keys
    && (forall f :: f in ListedIn(b.confs, gone) ==> f in b'.owners && b'.owners[f] == [])
    && forall c :: c in b.confs ==> b'.confs[c] == b.confs[c] - ListedIn(b.confs, gone)
  }

  /** What a cascading deletion comes to. */
  ghost predicate Cascaded<C, F>(b: Books<C, F>, b': Books<C, F>, all: bool, gone: set<C>, parent: C) {
    && Pruned(b, b', gone, parent) && Thinned(b, b', all, gone)
    && (AtMostTwo(b.owners) ==> UnlinkedEverywhere(b, b', gone))
  }

  /** In plain terms, category by category and conference by conference. */
  lemma CascadeSpelledOut<C, F>(b: Books<C, F>, b': Books<C, F>, all: bool, gone: set<C>, parent: C)
    requires Cascaded(b, b', all, gone, parent) && gone <= b.up.Keys && parent in b.up && parent !in gone
    ensures forall c :: c in gone ==> b'.up[c] == None && b'.subs[c] == {} && b'.confs[c] == {}
    ensures forall c :: c in b.up && c !in gone ==> b'.up[c] == b.up[c] && (c != parent ==> b'.subs[c] == b.subs[c])
    ensures !all ==> b'.confs == b.confs && b'.num == b.num
    ensures forall c, f :: c in b.confs && f in b'.confs[c] ==> f in b.confs[c]
    ensures forall c, f :: c in b.confs && f in b.confs[c] && f !in b'.confs[c] ==>
              exists g :: g in gone && g in b.confs && f in b.confs[g]
    ensures (forall f :: f in b.owners ==> |b.owners[f]| <= 2) ==>
              forall c, g, f :: c in b.confs && g in gone && g in b.confs && f in b.confs[g] ==>
                f in b'.owners && b'.owners[f] == [] && f !in b'.confs[c]
  {
    forall c, f | c in b.confs && f in b.confs[c] && f !in b'.confs[c]
      ensures exists g :: g in gone && g in b.confs && f in b.confs[g]
    {
      assert f in ListedIn(b.confs, gone);
    }
  }

  /** So it is if no conference has more than two owners. */
  lemma TwoOwnersUnlinked<C, F>(b: Books<C, F>, b': Books<C, F>, all: bool, gone: set<C>)
    requires AllConfLinked(b.confs, b.owners) && AllConfLinked(b'.confs, b'.owners)
    requires Thinned(b, b', all, gone) && AtMostTwo(b.owners)
    ensures UnlinkedEverywhere(b, b', gone)
  {
    forall f | f in ListedIn(b.confs, gone) ensures f in b'.owners && b'.owners[f] == [] {
      var c :| c in gone && c in b.confs && f in b.confs[c];
      assert ListKnown(b.confs, b.owners, c);
    }
    forall c | c in b.confs ensures b'.confs[c] == b.confs[c] - ListedIn(b.confs, gone) {
      forall f | f in b'.confs[c] ensures f !in ListedIn(b.confs, gone) {
        assert ListKnown(b'.confs, b'.owners, c) && ConfLinked(b'.confs, b'.owners, c, f);
      }
    }
  }

  /** A conference that is listed nowhere but in the subtree is unlinked, whatever the number of its owners. */
  lemma InsideUnlinked<C, F>(b: Books<C, F>, b': Books<C, F>, all: bool, gone: set<C>, parent: C, f: F)
    requires AllConfLinked(b.confs, b.owners) && AllConfLinked(b'.confs, b'.owners)
    requires Pruned(b, b', gone, parent) && Thinned(b, b', all, gone)
    requires f in b.owners && forall c :: c in b.owners[f] ==> c in gone
    ensures b'.owners[f] == []
  {
    forall c | c in b.confs ensures c !in b'.owners[f] {
      assert ConfLinked(b.confs, b.owners, c, f) && ConfLinked(b'.confs, b'.owners, c, f);
    }
    assert OwnersKnown(b'.confs, b'.owners, f);
    HasMember(b'.owners[f]);
  }

  lemma PrunedThinner<C, F>(b: Books<C, F>, b': Books<C, F>, b'': Books<C, F>, gone: set<C>, parent: C)
    requires Pruned(b, b', gone, parent) && b''.up == b'.up && b''.subs == b'.subs
    requires b''.confs.Keys == b'.confs.Keys && forall d :: d in b'.confs ==> b''.confs[d] <= b'.confs[d]
    ensures Pruned(b, b'', gone, parent)
  {
  }

  /** The last of a deleted subtree is its top. */
  lemma PrunedTop<C, F>(b: Books<C, F>, b': Books<C, F>, gone: set<C>, c: C, o: C)
    requires Pruned(b, b', gone, c) && c in b.up && o in b.up && o !in gone && o != c
    requires b'.subs[c] == {} && b'.confs[c] == {}
    ensures Pruned(b, b'.(up := b'.up[c := None], subs := b'.subs[o := b'.subs[o] - {c}]), gone + {c}, o)
  {
  }
}
