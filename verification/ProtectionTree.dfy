/**
  The protection tree of an event, as a value: who owns whom, which level each
  object has of its own, and what each access controller's
  `nonInheritingChildren` holds.
 */
module ProtectionTree {
  import opened Common

  /** -1 public, 0 inheriting, 1 restricted. */
  newtype Level = x: int | -1 <= x <= 1

  datatype Kind = Conference | Session | Contribution | SubContribution | Material | Reviewing | Resource

  /** Owners always rank strictly above what they own. */
  function Rank(k: Kind): (r: nat)
    ensures r <= 5
  {
    match k
    case Conference => 5
    case Session => 4
    case Contribution => 3
    case SubContribution => 2
    case Material => 1
    case Reviewing => 1
    case Resource => 0
  }

  /** A sub-contribution borrows its contribution's controller; nothing reports to a resource. */
  predicate HasCache(k: Kind) {
    k != SubContribution && k != Resource
  }

  datatype Entry<N> = Entry(kind: Kind, level: Level, up: Option<N>, cache: set<N>)

  type Tree<N> = map<N, Entry<N>>

  ghost predicate OwnerAbove<N>(t: Tree<N>, n: N)
    requires n in t
  {
    t[n].up.Some? ==> t[n].up.value in t && Rank(t[t[n].up.value].kind) > Rank(t[n].kind)
  }

  ghost predicate WellFormed<N>(t: Tree<N>) {
    forall n {:trigger OwnerAbove(t, n)} :: n in t ==> OwnerAbove(t, n)
  }

  ghost function Up<N>(t: Tree<N>, n: N): (o: Option<N>)
    requires WellFormed(t) && n in t
    ensures o.Some? ==> o.value in t && Rank(t[o.value].kind) > Rank(t[n].kind)
  {
    assert OwnerAbove(t, n);
    t[n].up
  }

  /** All strict owners of `n`, up to the conference. */
  ghost function Owners<N>(t: Tree<N>, n: N): (s: set<N>)
    requires WellFormed(t) && n in t
    decreases 5 - Rank(t[n].kind)
  {
    match Up(t, n)
    case None => {}
    case Some(o) => {o} + Owners(t, o)
  }

  lemma {:induction false} OwnerRanks<N>(t: Tree<N>, n: N, a: N)
    requires WellFormed(t) && n in t && a in Owners(t, n)
    ensures a in t && Rank(t[a].kind) > Rank(t[n].kind)
    decreases 5 - Rank(t[n].kind)
  {
    if Up(t, n) != Some(a) {
      OwnerRanks(t, Up(t, n).value, a);
    }
  }

  /** Resources of the reviewing material are deliberately not reported. */
  ghost predicate Tracked<N>(t: Tree<N>, x: N)
    requires WellFormed(t) && x in t
  {
    Up(t, x).Some? ==> t[Up(t, x).value].kind != Reviewing
  }

  /** What the caches should say: `x` has a level of its own and lies below `a`. */
  ghost predicate Reports<N>(t: Tree<N>, hidden: set<N>, a: N, x: N)
    requires WellFormed(t) && x in t
  {
    x !in hidden && t[x].level != 0 && Tracked(t, x) && a in Owners(t, x)
  }

  /** `a`'s cache is right about `x`. */
  ghost predicate Right<N>(t: Tree<N>, hidden: set<N>, a: N, x: N)
    requires WellFormed(t) && a in t && x in t
  {
    x in t[a].cache <==> HasCache(t[a].kind) && Reports(t, hidden, a, x)
  }

  /** Every cache is exact, except that the `hidden` nodes have been withdrawn from all of them. */
  ghost predicate Exact<N>(t: Tree<N>, hidden: set<N>)
    requires WellFormed(t)
  {
    && (forall a :: a in t ==> t[a].cache <= t.Keys)
    && forall a, x {:trigger Right(t, hidden, a, x)} :: a in t && x in t ==> Right(t, hidden, a, x)
  }

  /** The `k`-th owner of `n`, `n` itself being the 0-th. */
  ghost function KthUp<N>(t: Tree<N>, n: N, k: nat): Option<N> {
    if k == 0 then Some(n)
    else match KthUp(t, n, k - 1)
      case None => None
      case Some(m) => if m in t then t[m].up else None
  }

  /** `a` is met going up from `n`. */
  ghost predicate MetAbove<N>(t: Tree<N>, a: N, n: N) {
    exists k: nat :: k > 0 && KthUp(t, n, k) == Some(a)
  }

  lemma {:induction false} KthUpFromOwner<N>(t: Tree<N>, n: N, o: N, k: nat)
    requires n in t && t[n].up == Some(o)
    ensures KthUp(t, n, k + 1) == KthUp(t, o, k)
  {
    if k > 0 {
      KthUpFromOwner(t, n, o, k - 1);
    } else {
      assert KthUp(t, n, 0) == Some(n);
    }
  }

  lemma NothingAboveTop<N>(t: Tree<N>, n: N, k: nat)
    requires n in t && t[n].up == None && k > 0
    ensures KthUp(t, n, k) == None
  {
  }

  /** The owners of `n` are what is met going up from it. */
  lemma {:induction false} OwnersAreMetGoingUp<N>(t: Tree<N>, n: N, a: N)
    requires WellFormed(t) && n in t
    ensures a in Owners(t, n) <==> MetAbove(t, a, n)
    decreases 5 - Rank(t[n].kind)
  {
    match Up(t, n)
    case None =>
      forall k: nat | k > 0 ensures KthUp(t, n, k) == None {
        NothingAboveTop(t, n, k);
      }
    case Some(o) =>
      OwnersAreMetGoingUp(t, o, a);
      if a in Owners(t, n) {
        var k: nat :| KthUp(t, o, k) == Some(a) by {
          assert KthUp(t, o, 0) == Some(o);
        }
        KthUpFromOwner(t, n, o, k);
      } else {
        forall k: nat | k > 0 ensures KthUp(t, n, k) != Some(a) {
          KthUpFromOwner(t, n, o, k - 1);
          assert KthUp(t, o, 0) == Some(o);
        }
      }
  }

  /**
    What an exact cache holds: conferences, sessions, contributions and
    materials hold exactly the nodes with a level of their own met below them,
    but for the resources of reviewing material; no other cache holds anything.
   */
  lemma CacheHolds<N>(t: Tree<N>, hidden: set<N>, a: N, x: N)
    requires WellFormed(t) && Exact(t, hidden) && a in t && x in t
    ensures x in t[a].cache <==>
              && t[a].kind in {Conference, Session, Contribution, Material}
              && x !in hidden && t[x].level != 0
              && (t[x].up.Some? ==> t[x].up.value in t && t[t[x].up.value].kind != Reviewing)
              && MetAbove(t, a, x)
  {
    assert Right(t, hidden, a, x) && OwnerAbove(t, x);
    OwnersAreMetGoingUp(t, x, a);
    if a in Owners(t, x) {
      OwnerRanks(t, x, a);
      if t[a].kind == Reviewing && Up(t, x) != Some(a) {
        OwnerRanks(t, Up(t, x).value, a);
      }
    }
  }

  // ----------------------------------------------------------- propagation

  function Updated<N>(cache: set<N>, x: N, keep: bool): set<N> {
    if keep then cache + {x} else cache - {x}
  }

  function Refreshed<N>(e: Entry<N>, x: N, keep: bool): Entry<N> {
    if HasCache(e.kind) then e.(cache := Updated(e.cache, x, keep)) else e
  }

  /** Effect of `updateNonInheritingChildren` called on `from`: it climbs to the conference. */
  ghost function Notified<N>(t: Tree<N>, from: N, x: N, keep: bool): Tree<N>
    requires WellFormed(t) && from in t
  {
    map a | a in t :: if a == from || a in Owners(t, from) then Refreshed(t[a], x, keep) else t[a]
  }

  ghost predicate SameShape<N>(t: Tree<N>, u: Tree<N>) {
    t.Keys == u.Keys && forall n :: n in t ==> t[n].kind == u[n].kind && t[n].up == u[n].up
  }

  lemma SameShapeWellFormed<N>(t: Tree<N>, u: Tree<N>)
    requires WellFormed(t) && SameShape(t, u)
    ensures WellFormed(u)
  {
    forall n | n in u ensures OwnerAbove(u, n) {
      assert OwnerAbove(t, n);
    }
  }

  lemma {:induction false} SameOwners<N>(t: Tree<N>, u: Tree<N>, n: N)
    requires WellFormed(t) && WellFormed(u) && SameShape(t, u) && n in t
    ensures Owners(u, n) == Owners(t, n) && (Tracked(u, n) <==> Tracked(t, n))
    decreases 5 - Rank(t[n].kind)
  {
    if Up(t, n).Some? {
      SameOwners(t, u, Up(t, n).value);
    }
  }

  /**
    A level change followed by the notification of the owner keeps every cache
    exact.
   */
  lemma LevelKeepsExact<N>(t: Tree<N>, hidden: set<N>, x: N, level: Level, o: N)
    requires WellFormed(t) && Exact(t, hidden) && x in t && x !in hidden
    requires t[x].up == Some(o) && Tracked(t, x)
    ensures var u := t[x := t[x].(level := level)];
            WellFormed(u) && o in u && WellFormed(Notified(u, o, x, level != 0)) &&
            Exact(Notified(u, o, x, level != 0), hidden)
  {
    var u := t[x := t[x].(level := level)];
    assert Up(t, x) == Some(o);
    SameShapeWellFormed(t, u);
    var v := Notified(u, o, x, level != 0);
    SameShapeWellFormed(t, v);
    SameOwners(t, u, o);
    forall a, y | a in v && y in v ensures Right(v, hidden, a, y) {
      assert Right(t, hidden, a, y);
      SameOwners(t, v, y);
      if y == x {
        assert a in Owners(t, x) <==> a == o || a in Owners(u, o);
      } else {
        assert y in v[a].cache <==> y in t[a].cache;
      }
    }
  }

  lemma UntrackedLevelKeepsExact<N>(t: Tree<N>, hidden: set<N>, x: N, level: Level)
    requires WellFormed(t) && Exact(t, hidden) && x in t
    requires t[x].up.None? || !Tracked(t, x)
    ensures var u := t[x := t[x].(level := level)]; WellFormed(u) && Exact(u, hidden)
  {
    var u := t[x := t[x].(level := level)];
    SameShapeWellFormed(t, u);
    forall a, y | a in u && y in u ensures Right(u, hidden, a, y) {
      assert Right(t, hidden, a, y);
      SameOwners(t, u, y);
    }
  }

  lemma HidingKeepsExact<N>(t: Tree<N>, hidden: set<N>, x: N, o: N)
    requires WellFormed(t) && Exact(t, hidden) && x in t
    requires t[x].up == Some(o)
    ensures Up(t, x) == Some(o)
    ensures WellFormed(Notified(t, o, x, false)) && Exact(Notified(t, o, x, false), hidden + {x})
  {
    assert Up(t, x) == Some(o);
    var u := Notified(t, o, x, false);
    SameShapeWellFormed(t, u);
    forall a, y | a in u && y in u ensures Right(u, hidden + {x}, a, y) {
      assert Right(t, hidden, a, y);
      SameOwners(t, u, y);
    }
  }

  // ---------------------------------------------------- leaves come and go

  ghost predicate IsLeaf<N>(t: Tree<N>, x: N) {
    forall n :: n in t ==> t[n].up != Some(x)
  }

  ghost function Without<N>(t: Tree<N>, x: N): Tree<N> {
    map n | n in t && n != x :: t[n]
  }

  lemma WithoutWellFormed<N>(t: Tree<N>, x: N)
    requires WellFormed(t) && IsLeaf(t, x)
    ensures WellFormed(Without(t, x))
  {
    forall n | n in Without(t, x) ensures OwnerAbove(Without(t, x), n) {
      assert OwnerAbove(t, n);
    }
  }

  lemma {:induction false} OwnersWithout<N>(t: Tree<N>, x: N, n: N)
    requires WellFormed(t) && IsLeaf(t, x) && n in t && n != x
    requires WellFormed(Without(t, x))
    ensures Owners(Without(t, x), n) == Owners(t, n) && x !in Owners(t, n)
    ensures Tracked(Without(t, x), n) <==> Tracked(t, n)
    decreases 5 - Rank(t[n].kind)
  {
    if Up(t, n).Some? {
      OwnersWithout(t, x, Up(t, n).value);
    }
  }

  lemma DroppingKeepsExact<N>(t: Tree<N>, hidden: set<N>, x: N)
    requires WellFormed(t) && Exact(t, hidden) && x in t && IsLeaf(t, x)
    requires x in hidden || t[x].level == 0 || !Tracked(t, x)
    ensures WellFormed(Without(t, x)) && Exact(Without(t, x), hidden - {x})
  {
    var u := Without(t, x);
    WithoutWellFormed(t, x);
    forall a | a in u ensures u[a].cache <= u.Keys {
      assert Right(t, hidden, a, x);
    }
    forall a, y | a in u && y in u ensures Right(u, hidden - {x}, a, y) {
      assert Right(t, hidden, a, y);
      OwnersWithout(t, x, y);
    }
  }

  lemma AddingKeepsExact<N>(t: Tree<N>, hidden: set<N>, x: N, e: Entry<N>)
    requires WellFormed(t) && Exact(t, hidden) && x !in t
    requires e.level == 0 && e.cache == {}
    requires e.up.Some? ==> e.up.value in t && Rank(t[e.up.value].kind) > Rank(e.kind)
    ensures WellFormed(t[x := e]) && Exact(t[x := e], hidden)
  {
    var u := t[x := e];
    forall n | n in u ensures OwnerAbove(u, n) && u[n].up != Some(x) {
      assert n != x ==> OwnerAbove(t, n);
    }
    assert Without(u, x) == t;
    if x in Owners(u, x) {
      OwnerRanks(u, x, x);
    }
    forall a, y | a in u && y in u ensures Right(u, hidden, a, y) {
      if y != x {
        OwnersWithout(u, x, y);
        assert a != x ==> Right(t, hidden, a, y);
      }
    }
  }

  // ------------------------------------------------- moving a contribution

  ghost predicate Below<N>(t: Tree<N>, x: N, c: N)
    requires WellFormed(t) && x in t
  {
    x == c || c in Owners(t, x)
  }

  /** Hanging `c` elsewhere replaces, below `c`, its old owners by its new ones. */
  lemma {:induction false} OwnersAfterMove<N>(t: Tree<N>, u: Tree<N>, c: N, n: N)
    requires WellFormed(t) && WellFormed(u) && t.Keys == u.Keys && c in t && n in t
    requires forall m :: m in t ==> t[m].kind == u[m].kind && (m != c ==> t[m].up == u[m].up)
    ensures Owners(u, n) == if Below(t, n, c) then (Owners(t, n) - Owners(t, c)) + Owners(u, c) else Owners(t, n)
    ensures Below(t, n, c) ==> Owners(t, c) <= Owners(t, n)
    decreases 5 - Rank(t[n].kind)
  {
    if n != c && Up(t, n).Some? {
      var o := Up(t, n).value;
      OwnersAfterMove(t, u, c, o);
      if o in Owners(t, c) {
        OwnerRanks(t, c, o);
        if c in Owners(t, o) {
          OwnerRanks(t, o, c);
        }
      }
    }
  }

  /** `cache` once `c` and everything `c` reports have been taken out. */
  function Released<N>(cache: set<N>, c: N, reported: set<N>): set<N> {
    cache - ({c} + reported)
  }

  /** `cache` once `c` (if it has a level) and everything `c` reports have been put in. */
  function Absorbed<N>(cache: set<N>, c: N, level: Level, reported: set<N>): set<N> {
    Updated(cache, c, level != 0) + reported
  }

  ghost predicate Placed<N>(t: Tree<N>, c: N, s: N, conf: N) {
    && {c, s, conf} <= t.Keys
    && t[c].kind == Contribution
    && t[s].kind == Session && t[s].up == Some(conf)
    && t[conf].kind == Conference && t[conf].up == None
  }

  ghost function Left<N>(t: Tree<N>, c: N, s: N, conf: N): Tree<N>
    requires Placed(t, c, s, conf)
  {
    t[c := t[c].(up := Some(conf))][s := t[s].(cache := Released(t[s].cache, c, t[c].cache))]
  }

  ghost function Entered<N>(t: Tree<N>, c: N, s: N, conf: N): Tree<N>
    requires Placed(t, c, s, conf)
  {
    t[c := t[c].(up := Some(s))]
     [s := t[s].(cache := Absorbed(t[s].cache, c, t[c].level, t[c].cache))]
     [conf := t[conf].(cache := Absorbed(t[conf].cache, c, t[c].level, t[c].cache))]
  }

  lemma OwnersInConference<N>(t: Tree<N>, c: N, s: N, conf: N)
    requires WellFormed(t) && Placed(t, c, s, conf)
    ensures t[c].up == Some(s) ==> Owners(t, c) == {s, conf}
    ensures t[c].up == Some(conf) ==> Owners(t, c) == {conf}
  {
    assert Up(t, conf) == None;
    assert Owners(t, conf) == {};
    assert Up(t, s) == Some(conf) && Owners(t, s) == {conf};
    assert Up(t, c) == t[c].up;
  }

  /** Leaving session `s`: only that session's own cache is told. */
  lemma LeavingKeepsExact<N>(t: Tree<N>, hidden: set<N>, c: N, s: N, conf: N)
    requires WellFormed(t) && Exact(t, hidden) && Placed(t, c, s, conf) && t[c].up == Some(s)
    ensures WellFormed(Left(t, c, s, conf)) && Exact(Left(t, c, s, conf), hidden)
  {
    var u := Left(t, c, s, conf);
    forall n | n in u ensures OwnerAbove(u, n) {
      assert OwnerAbove(t, n);
    }
    OwnersInConference(t, c, s, conf);
    OwnersInConference(u, c, s, conf);
    forall a, x | a in u && x in u ensures Right(u, hidden, a, x) {
      assert Right(t, hidden, a, x) && Right(t, hidden, c, x);
      OwnersAfterMove(t, u, c, x);
      assert Tracked(u, x) <==> Tracked(t, x);
    }
  }

  /** Entering session `s`: the session and the conference are both told. */
  lemma EnteringKeepsExact<N>(t: Tree<N>, hidden: set<N>, c: N, s: N, conf: N)
    requires WellFormed(t) && Exact(t, hidden) && Placed(t, c, s, conf) && t[c].up == Some(conf)
    requires c !in hidden
    ensures WellFormed(Entered(t, c, s, conf)) && Exact(Entered(t, c, s, conf), hidden)
  {
    var u := Entered(t, c, s, conf);
    forall n | n in u ensures OwnerAbove(u, n) {
      assert OwnerAbove(t, n);
    }
    OwnersInConference(t, c, s, conf);
    OwnersInConference(u, c, s, conf);
    forall a, x | a in u && x in u ensures Right(u, hidden, a, x) {
      assert Right(t, hidden, a, x) && Right(t, hidden, c, x);
      OwnersAfterMove(t, u, c, x);
      assert Tracked(u, x) <==> Tracked(t, x);
    }
  }
}
