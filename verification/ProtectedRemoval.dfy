/** Taking an object and everything below it out of an event. */
module ProtectedRemoval {
  import opened Common
  import opened ProtectionTree
  import opened ProtectedState

  /** `x` and all it owns, directly or not. */
  ghost function Doomed<N>(sk: Skeleton<N>, x: N): set<N>
    requires AllHung(sk)
  {
    set n | n in sk && (n == x || x in Chain(sk, n))
  }

  /** What goes with `x` is `x` and every node from which `x` is met going up. */
  lemma DoomedIsBelow<N>(sk: Skeleton<N>, caches: Bags<N>, x: N, n: N)
    requires AllHung(sk) && sk.Keys == caches.Keys && n in sk
    ensures n in Doomed(sk, x) <==> n == x || MetAbove(TreeOf(sk, caches), x, n)
  {
    HungIsWellFormed(sk, caches);
    ChainIsOwners(sk, caches, n);
    OwnersAreMetGoingUp(TreeOf(sk, caches), n, x);
  }

  /** A part of the skeleton that is closed under owners. */
  ghost predicate Remains<N>(sk: Skeleton<N>, rest: Skeleton<N>) {
    AllHung(sk) && AllHung(rest) && rest.Keys <= sk.Keys && forall n :: n in rest ==> rest[n] == sk[n]
  }

  lemma {:induction false} SameChain<N>(sk: Skeleton<N>, rest: Skeleton<N>, n: N)
    requires Remains(sk, rest) && n in rest
    ensures Chain(rest, n) == Chain(sk, n)
    decreases 5 - Rank(sk[n].kind)
  {
    if OwnerIn(sk, n).Some? {
      assert OwnerIn(rest, n) == OwnerIn(sk, n);
      SameChain(sk, rest, OwnerIn(sk, n).value);
    }
  }

  lemma {:induction false} ChainTransitive<N>(sk: Skeleton<N>, n: N, a: N, b: N)
    requires AllHung(sk) && n in sk && a in Chain(sk, n) && a in sk && b in Chain(sk, a)
    ensures b in Chain(sk, n)
    decreases 5 - Rank(sk[n].kind)
  {
    var o := OwnerIn(sk, n).value;
    if o != a {
      ChainTransitive(sk, o, a, b);
    }
  }

  /** Removing `c` first leaves the rest of what goes with its owner `x`. */
  lemma DoomedInSteps<N>(sk: Skeleton<N>, c: N, x: N)
    requires AllHung(sk) && c in sk && x in sk && OwnerIn(sk, c) == Some(x)
    requires AllHung(sk - Doomed(sk, c))
    ensures c in Doomed(sk, x) && x !in Doomed(sk, c)
    ensures Doomed(sk, x) == Doomed(sk, c) + Doomed(sk - Doomed(sk, c), x)
  {
    var rest := sk - Doomed(sk, c);
    assert x in Chain(sk, c);
    if c in Chain(sk, x) {
      ChainRanks(sk, x, c);
    }
    forall n | n in sk ensures n in Doomed(sk, x) <==> n in Doomed(sk, c) || n in Doomed(rest, x) {
      if n in Doomed(sk, c) {
        if n != c {
          ChainTransitive(sk, n, c, x);
        }
      } else {
        SameChain(sk, rest, n);
      }
    }
  }

  lemma DoomedLeaf<N>(sk: Skeleton<N>, x: N)
    requires AllHung(sk) && x in sk && Childless(sk, x)
    ensures Doomed(sk, x) == {x}
  {
    forall n | n in sk && n != x ensures x !in Chain(sk, n) {
      NotInChain(sk, n, x);
    }
  }

  lemma {:induction false} NotInChain<N>(sk: Skeleton<N>, n: N, x: N)
    requires AllHung(sk) && n in sk && Childless(sk, x)
    ensures x !in Chain(sk, n)
    decreases 5 - Rank(sk[n].kind)
  {
    if OwnerIn(sk, n).Some? {
      NotInChain(sk, OwnerIn(sk, n).value, x);
    }
  }

  /** Leaving its session does not change what a contribution owns. */
  lemma DoomedAfterLeaving<N>(sk: Skeleton<N>, c: N)
    requires AllHung(sk) && c in sk && AllHung(sk[c := sk[c].(session := None)])
    ensures Doomed(sk[c := sk[c].(session := None)], c) == Doomed(sk, c)
  {
    forall n | n in sk ensures c in Chain(sk[c := sk[c].(session := None)], n) <==> c in Chain(sk, n) {
      ChainAfterLeaving(sk, c, n);
    }
  }

  lemma {:induction false} ChainAfterLeaving<N>(sk: Skeleton<N>, c: N, n: N)
    requires AllHung(sk) && c in sk && n in sk && AllHung(sk[c := sk[c].(session := None)])
    ensures c in Chain(sk[c := sk[c].(session := None)], n) <==> c in Chain(sk, n)
    decreases 5 - Rank(sk[n].kind)
  {
    var sk' := sk[c := sk[c].(session := None)];
    if n == c {
      if c in Chain(sk, c) {
        ChainRanks(sk, c, c);
      }
      if c in Chain(sk', c) {
        ChainRanks(sk', c, c);
      }
    } else if OwnerIn(sk, n).Some? {
      assert OwnerIn(sk', n) == OwnerIn(sk, n);
      ChainAfterLeaving(sk, c, OwnerIn(sk, n).value);
    }
  }

  // ------------------------------------------------------------ one leaf

  /** The caches once `x` has been withdrawn, where its class withdraws itself. */
  ghost function Withdrawn<N>(sk: Skeleton<N>, caches: Bags<N>, x: N): (r: Bags<N>)
    requires sk.Keys == caches.Keys && AllHung(sk) && x in sk
    ensures r.Keys == caches.Keys
  {
    Notice(sk, caches, Reached(sk, x), x, false)
  }

  lemma WithdrawalKeepsValid<N>(sk: Skeleton<N>, caches: Bags<N>, parts: Bags<N>, contribs: Bags<N>, hidden: set<N>,
                                x: N)
    requires ValidState(sk, caches, parts, contribs, hidden) && x in sk
    requires sk[x].owner.Some? && sk[x].owner.value in sk && sk[sk[x].owner.value].kind != Reviewing
    ensures ValidState(sk, Withdrawn(sk, caches, x), parts, contribs, hidden + {x})
  {
    var o := OwnerIn(sk, x).value;
    assert Chain(sk, x) == {o} + Chain(sk, o);
    WithdrawalKeepsExact(sk, caches, hidden, x, o);
  }

  lemma EmptyIsChildless<N>(sk: Skeleton<N>, parts: Bags<N>, contribs: Bags<N>, x: N)
    requires AllLinked(sk, parts, contribs) && x in sk && parts[x] == {} && contribs[x] == {}
    ensures Childless(sk, x)
  {
    forall n | n in sk ensures sk[n].owner != Some(x) && sk[n].session != Some(x) {
      assert Linked(sk, parts, contribs, x, n);
    }
  }

  /** A childless node that no cache mentions can be detached. */
  lemma DetachingKeepsValid<N>(sk: Skeleton<N>, caches: Bags<N>, parts: Bags<N>, contribs: Bags<N>, hidden: set<N>,
                               o: N, x: N)
    requires ValidState(sk, caches, parts, contribs, hidden) && x in sk && parts[x] == {} && contribs[x] == {}
    requires sk[x].owner == Some(o) && sk[x].session == None
    requires x in hidden || sk[x].level == 0 || (o in sk && sk[o].kind == Reviewing)
    ensures o in parts && Childless(sk, x)
    ensures ValidState(sk - {x}, caches - {x}, parts[o := parts[o] - {x}] - {x}, contribs - {x}, hidden - {x})
  {
    EmptyIsChildless(sk, parts, contribs, x);
    assert Hung(sk, x);
    DetachingKeepsExact(sk, caches, hidden, x);
    DetachingKeepsLinks(sk, parts, contribs, o, x);
  }

  /** Withdrawing and then detaching an object with nothing left below it. */
  lemma RetiringKeepsValid<N>(sk: Skeleton<N>, caches: Bags<N>, parts: Bags<N>, contribs: Bags<N>, hidden: set<N>, x: N)
    requires ValidState(sk, caches, parts, contribs, hidden) && x in sk && x !in hidden
    requires parts[x] == {} && contribs[x] == {} && sk[x].kind != Conference && sk[x].kind != Contribution
    ensures sk[x].session == None && sk[x].owner.Some?
    ensures var o := sk[x].owner.value;
            o in parts && o != x &&
            ValidState(sk - {x}, Withdrawn(sk, caches, x) - {x}, parts[o := parts[o] - {x}] - {x}, contribs - {x},
                       hidden)
  {
    assert Hung(sk, x);
    var o := sk[x].owner.value;
    if sk[o].kind == Reviewing {
      assert Withdrawn(sk, caches, x) == caches;
      DetachingKeepsValid(sk, caches, parts, contribs, hidden, o, x);
      assert hidden - {x} == hidden;
    } else {
      WithdrawalKeepsValid(sk, caches, parts, contribs, hidden, x);
      DetachingKeepsValid(sk, Withdrawn(sk, caches, x), parts, contribs, hidden + {x}, o, x);
      assert hidden + {x} - {x} == hidden;
    }
  }

  // -------------------------------------------------- progress of a removal

  /** `sk` is `all` less some nodes that go with `x`; what still has to go is below `x` in `sk`. */
  ghost predicate Toward<N>(all: Skeleton<N>, sk: Skeleton<N>, x: N) {
    && AllHung(all) && AllHung(sk) && x in sk && sk.Keys <= all.Keys
    && sk == all - (all.Keys - sk.Keys)
    && Doomed(all, x) == (all.Keys - sk.Keys) + Doomed(sk, x)
  }

  lemma TowardStart<N>(sk: Skeleton<N>, x: N)
    requires AllHung(sk) && x in sk
    ensures Toward(sk, sk, x)
  {
    assert sk.Keys - sk.Keys == {};
    assert sk - {} == sk;
  }

  lemma TowardStep<N>(all: Skeleton<N>, sk: Skeleton<N>, x: N, c: N)
    requires Toward(all, sk, x) && c in sk && OwnerIn(sk, c) == Some(x) && AllHung(sk - Doomed(sk, c))
    ensures Toward(all, sk - Doomed(sk, c), x) && c in Doomed(sk, c)
  {
    DoomedInSteps(sk, c, x);
    var sk' := sk - Doomed(sk, c);
    assert all.Keys - sk'.Keys == (all.Keys - sk.Keys) + Doomed(sk, c);
    assert sk' == all - (all.Keys - sk'.Keys);
  }

  lemma TowardEnd<N>(all: Skeleton<N>, sk: Skeleton<N>, x: N)
    requires Toward(all, sk, x) && Childless(sk, x)
    ensures sk - {x} == all - Doomed(all, x) && sk.Keys - {x} == all.Keys - Doomed(all, x)
  {
    DoomedLeaf(sk, x);
  }

  lemma TowardAfterLeaving<N>(all: Skeleton<N>, sk: Skeleton<N>, c: N)
    requires Toward(all, sk, c) && sk[c].kind == Contribution
    ensures Toward(all[c := all[c].(session := None)], sk[c := sk[c].(session := None)], c)
    ensures Doomed(all[c := all[c].(session := None)], c) == Doomed(all, c)
  {
    MoveKeepsHung(all, c, None);
    MoveKeepsHung(sk, c, None);
    DoomedAfterLeaving(all, c);
    DoomedAfterLeaving(sk, c);
  }

  /** All contributions out of session `s`. */
  ghost function SessionCleared<N>(sk: Skeleton<N>, s: N): (r: Skeleton<N>)
    ensures r.Keys == sk.Keys
  {
    map n | n in sk :: if sk[n].session == Some(s) then sk[n].(session := None) else sk[n]
  }

  lemma SessionClearedHung<N>(sk: Skeleton<N>, s: N)
    requires AllHung(sk)
    ensures AllHung(SessionCleared(sk, s))
  {
    forall n | n in sk ensures Hung(SessionCleared(sk, s), n) {
      assert Hung(sk, n);
      assert sk[n].session.Some? ==> Hung(sk, sk[n].session.value);
    }
  }

  /** Below a material nothing depends on sessions. */
  lemma {:induction false} ChainCleared<N>(sk: Skeleton<N>, s: N, m: N, n: N)
    requires AllHung(sk) && AllHung(SessionCleared(sk, s)) && m in sk && Rank(sk[m].kind) == 1 && n in sk
    ensures m in Chain(SessionCleared(sk, s), n) <==> m in Chain(sk, n)
    decreases 5 - Rank(sk[n].kind)
  {
    assert Hung(sk, n);
    if sk[n].kind == Contribution {
      if m in Chain(sk, n) {
        ChainRanks(sk, n, m);
      }
      if m in Chain(SessionCleared(sk, s), n) {
        ChainRanks(SessionCleared(sk, s), n, m);
      }
    } else if OwnerIn(sk, n).Some? {
      assert OwnerIn(SessionCleared(sk, s), n) == OwnerIn(sk, n);
      ChainCleared(sk, s, m, OwnerIn(sk, n).value);
    }
  }

  lemma DoomedCleared<N>(sk: Skeleton<N>, s: N, m: N)
    requires AllHung(sk) && AllHung(SessionCleared(sk, s)) && m in sk && Rank(sk[m].kind) == 1
    ensures Doomed(SessionCleared(sk, s), m) == Doomed(sk, m)
    ensures SessionCleared(sk - Doomed(sk, m), s) == SessionCleared(sk, s) - Doomed(sk, m)
  {
    forall n | n in sk ensures m in Chain(SessionCleared(sk, s), n) <==> m in Chain(sk, n) {
      ChainCleared(sk, s, m, n);
    }
  }

  /** Removing a material of session `s`, seen with all contributions already released. */
  lemma TowardClearedStep<N>(all: Skeleton<N>, sk: Skeleton<N>, s: N, m: N)
    requires Toward(all, SessionCleared(sk, s), s) && AllHung(sk) && m in sk
    requires Rank(sk[m].kind) == 1 && sk[m].owner == Some(s)
    requires AllHung(sk - Doomed(sk, m))
    ensures Toward(all, SessionCleared(sk - Doomed(sk, m), s), s) && m in Doomed(sk, m)
  {
    DoomedCleared(sk, s, m);
    assert Hung(sk, m);
    SessionClearedHung(sk - Doomed(sk, m), s);
    assert OwnerIn(SessionCleared(sk, s), m) == Some(s);
    TowardStep(all, SessionCleared(sk, s), s, m);
  }

  // ----------------------------------------------- what may hang below what

  lemma PartKinds<N>(sk: Skeleton<N>, parts: Bags<N>, contribs: Bags<N>, n: N)
    requires AllHung(sk) && AllLinked(sk, parts, contribs) && n in sk
    ensures forall x :: x in parts[n] ==> x in sk && sk[x].owner == Some(n) && MayOwn(sk[n].kind, sk[x].kind)
    ensures forall x :: x in contribs[n] ==> x in sk && sk[x].session == Some(n) && sk[x].kind == Contribution
    ensures sk[n].kind == Resource ==> parts[n] == {}
    ensures sk[n].kind != Session ==> contribs[n] == {}
  {
    assert Closed(sk, parts, contribs, n);
    forall x | x in parts[n] || x in contribs[n]
      ensures x in sk
      ensures x in parts[n] ==> sk[x].owner == Some(n) && MayOwn(sk[n].kind, sk[x].kind)
      ensures x in contribs[n] ==> sk[x].session == Some(n) && sk[x].kind == Contribution && sk[n].kind == Session
    {
      assert Linked(sk, parts, contribs, n, x);
      assert Hung(sk, x);
    }
  }

  lemma PartsShrink<N>(sk: Skeleton<N>, parts: Bags<N>, contribs: Bags<N>, sk': Skeleton<N>, parts': Bags<N>,
                       contribs': Bags<N>, n: N)
    requires AllLinked(sk, parts, contribs) && AllLinked(sk', parts', contribs') && n in sk'
    requires sk'.Keys <= sk.Keys && forall x :: x in sk' ==> sk'[x] == sk[x]
    ensures parts'[n] <= parts[n] && contribs'[n] <= contribs[n]
  {
    assert Closed(sk', parts', contribs', n);
    forall x | x in parts'[n] || x in contribs'[n]
      ensures (x in parts'[n] ==> x in parts[n]) && (x in contribs'[n] ==> x in contribs[n])
    {
      assert Linked(sk', parts', contribs', n, x);
      assert Linked(sk, parts, contribs, n, x);
    }
  }

  lemma LeftAgrees<N>(all: Skeleton<N>, c: N)
    requires AllHung(all) && c in all && AllHung(all[c := all[c].(session := None)])
    requires Doomed(all[c := all[c].(session := None)], c) == Doomed(all, c)
    ensures var left := all[c := all[c].(session := None)];
            left - Doomed(left, c) == all - Doomed(all, c) && left.Keys - Doomed(left, c) == all.Keys - Doomed(all, c)
  {
  }

  lemma ContributionsOf<N>(sk: Skeleton<N>, parts: Bags<N>, contribs: Bags<N>, s: N)
    requires AllLinked(sk, parts, contribs) && s in sk
    ensures contribs[s] == set x | x in sk && sk[x].session == Some(s)
    ensures contribs[s] == {} ==> SessionCleared(sk, s) == sk
  {
    assert Closed(sk, parts, contribs, s);
    forall x | x in sk ensures x in contribs[s] <==> sk[x].session == Some(s) {
      assert Linked(sk, parts, contribs, s, x);
    }
  }

  lemma ReleasingIsCleared<N>(sk: Skeleton<N>, s: N, c: N)
    requires c in sk && sk[c].session == Some(s)
    ensures SessionCleared(sk[c := sk[c].(session := None)], s) == SessionCleared(sk, s)
  {
  }

  lemma TowardFinish<N>(all: Skeleton<N>, sk: Skeleton<N>, x: N)
    requires Toward(all, sk, x)
    ensures all - Doomed(all, x) == sk - Doomed(sk, x) && all.Keys - Doomed(all, x) == sk.Keys - Doomed(sk, x)
  {
  }
}
