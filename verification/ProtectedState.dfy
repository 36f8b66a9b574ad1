/**
  The objects of an event, and a snapshot of their fields: the invariant that
  ties containers, owners and caches together, and what each kind of change
  does to it.
 */
module ProtectedState {
  import opened Common
  import opened ProtectionTree

  /** Which kinds of object each kind may own. */
  predicate MayOwn(o: Kind, k: Kind) {
    match k
    case Conference => false
    case Session => o == Conference
    case Contribution => o == Conference
    case SubContribution => o == Contribution
    case Material => o == Conference || o == Session || o == Contribution || o == SubContribution
    case Reviewing => o == Contribution
    case Resource => o == Material || o == Reviewing
  }

  /** Own level, owner (a contribution's conference) and a contribution's session. */
  datatype Links<N> = Links(kind: Kind, level: Level, owner: Option<N>, session: Option<N>)

  type Skeleton<N> = map<N, Links<N>>
  type Bags<N> = map<N, set<N>>

  /** `getOwner`: a contribution in a session belongs to the session. */
  function OwnerOf<N>(l: Links<N>): Option<N> {
    if l.session.Some? then l.session else l.owner
  }

  ghost function TreeOf<N>(sk: Skeleton<N>, caches: Bags<N>): Tree<N>
    requires sk.Keys == caches.Keys
  {
    map n | n in sk :: Entry(sk[n].kind, sk[n].level, OwnerOf(sk[n]), caches[n])
  }

  /** `n` hangs properly among its peers. */
  ghost predicate Hung<N>(sk: Skeleton<N>, n: N)
    requires n in sk
  {
    var l := sk[n];
    && (l.kind == Conference <==> l.owner == None)
    && (l.owner.Some? ==> l.owner.value in sk && MayOwn(sk[l.owner.value].kind, l.kind))
    && (l.session.Some? ==> l.kind == Contribution && InSameConference(sk, n, l.session.value))
    && (l.kind == SubContribution ==> l.level == 0)
  }

  /** `s` is a session of the conference of contribution `c`. */
  ghost predicate InSameConference<N>(sk: Skeleton<N>, c: N, s: N)
    requires c in sk
  {
    s in sk && sk[s].kind == Session && sk[s].session == None && sk[s].owner == sk[c].owner
  }

  ghost predicate AllHung<N>(sk: Skeleton<N>) {
    forall n {:trigger Hung(sk, n)} :: n in sk ==> Hung(sk, n)
  }

  lemma HungIsWellFormed<N>(sk: Skeleton<N>, caches: Bags<N>)
    requires sk.Keys == caches.Keys && AllHung(sk)
    ensures WellFormed(TreeOf(sk, caches))
  {
    var t := TreeOf(sk, caches);
    forall n | n in t ensures OwnerAbove(t, n) {
      assert Hung(sk, n);
    }
  }

  /** `n`'s containers and `x`'s back references agree. */
  ghost predicate Linked<N>(sk: Skeleton<N>, parts: Bags<N>, contribs: Bags<N>, n: N, x: N)
    requires x in sk && n in parts && n in contribs
  {
    && (x in parts[n] <==> sk[x].owner == Some(n))
    && (x in contribs[n] <==> sk[x].session == Some(n))
  }

  ghost predicate Closed<N>(sk: Skeleton<N>, parts: Bags<N>, contribs: Bags<N>, n: N)
    requires n in parts && n in contribs
  {
    parts[n] <= sk.Keys && contribs[n] <= sk.Keys
  }

  ghost predicate AllLinked<N>(sk: Skeleton<N>, parts: Bags<N>, contribs: Bags<N>) {
    && sk.Keys == parts.Keys == contribs.Keys
    && (forall n {:trigger Closed(sk, parts, contribs, n)} :: n in sk ==> Closed(sk, parts, contribs, n))
    && (forall n, x {:trigger Linked(sk, parts, contribs, n, x)} :: n in sk && x in sk ==>
          Linked(sk, parts, contribs, n, x))
  }

  /** Every cache is exact; `hidden` nodes are being deleted and already withdrawn. */
  ghost predicate CachesExact<N>(sk: Skeleton<N>, caches: Bags<N>, hidden: set<N>) {
    && sk.Keys == caches.Keys
    && AllHung(sk)
    && (HungIsWellFormed(sk, caches); Exact(TreeOf(sk, caches), hidden))
  }

  /** Owners and containers agree, and every cache is exact. */
  ghost predicate ValidState<N>(sk: Skeleton<N>, caches: Bags<N>, parts: Bags<N>, contribs: Bags<N>, hidden: set<N>) {
    CachesExact(sk, caches, hidden) && AllLinked(sk, parts, contribs)
  }

  lemma SameBags<N>(a: Bags<N>, b: Bags<N>)
    requires a.Keys == b.Keys && forall n :: n in a ==> a[n] == b[n]
    ensures a == b
  {
  }

  // ----------------------------------------------------- levels and leaves

  ghost function OwnerIn<N>(sk: Skeleton<N>, n: N): (o: Option<N>)
    requires AllHung(sk) && n in sk
    ensures o == OwnerOf(sk[n])
    ensures o.Some? ==> o.value in sk && Rank(sk[o.value].kind) > Rank(sk[n].kind)
    ensures o.Some? <==> sk[n].kind != Conference
  {
    assert Hung(sk, n);
    OwnerOf(sk[n])
  }

  /** The owners of `n`, up to the conference. */
  ghost function Chain<N>(sk: Skeleton<N>, n: N): set<N>
    requires AllHung(sk) && n in sk
    decreases 5 - Rank(sk[n].kind)
  {
    match OwnerIn(sk, n)
    case None => {}
    case Some(o) => {o} + Chain(sk, o)
  }

  lemma {:induction false} ChainIsOwners<N>(sk: Skeleton<N>, caches: Bags<N>, n: N)
    requires AllHung(sk) && n in sk && sk.Keys == caches.Keys
    requires WellFormed(TreeOf(sk, caches))
    ensures Chain(sk, n) == Owners(TreeOf(sk, caches), n)
    decreases 5 - Rank(sk[n].kind)
  {
    assert Up(TreeOf(sk, caches), n) == OwnerIn(sk, n);
    if OwnerIn(sk, n).Some? {
      ChainIsOwners(sk, caches, OwnerIn(sk, n).value);
    }
  }

  lemma {:induction false} ChainRanks<N>(sk: Skeleton<N>, n: N, a: N)
    requires AllHung(sk) && n in sk && a in Chain(sk, n)
    ensures a in sk && Rank(sk[a].kind) > Rank(sk[n].kind)
    decreases 5 - Rank(sk[n].kind)
  {
    var o := OwnerIn(sk, n).value;
    if o != a {
      ChainRanks(sk, o, a);
    }
  }

  function RefreshedCache<N>(k: Kind, cache: set<N>, x: N, keep: bool): set<N> {
    if HasCache(k) then Updated(cache, x, keep) else cache
  }

  /** Effect on the caches of `updateNonInheritingChildren`, when it reaches the nodes in `reached`. */
  ghost function Notice<N>(sk: Skeleton<N>, caches: Bags<N>, reached: set<N>, x: N, keep: bool): (r: Bags<N>)
    requires sk.Keys == caches.Keys
    ensures r.Keys == caches.Keys
  {
    map n | n in caches :: if n in reached then RefreshedCache(sk[n].kind, caches[n], x, keep) else caches[n]
  }

  /** Who hears of a level change of `x`: nobody for a conference or a reviewing resource. */
  ghost function Reached<N>(sk: Skeleton<N>, x: N): set<N>
    requires AllHung(sk) && x in sk
  {
    assert Hung(sk, x);
    if sk[x].owner.None? || sk[sk[x].owner.value].kind == Reviewing then {} else Chain(sk, x)
  }

  ghost function CachesAfterNotice<N>(sk: Skeleton<N>, caches: Bags<N>, from: N, x: N, keep: bool): (r: Bags<N>)
    requires sk.Keys == caches.Keys && AllHung(sk) && from in sk
    ensures r.Keys == caches.Keys
  {
    Notice(sk, caches, {from} + Chain(sk, from), x, keep)
  }

  lemma NoticeIsNotified<N>(sk: Skeleton<N>, caches: Bags<N>, from: N, x: N, keep: bool)
    requires sk.Keys == caches.Keys && AllHung(sk) && from in sk
    ensures WellFormed(TreeOf(sk, caches))
    ensures TreeOf(sk, CachesAfterNotice(sk, caches, from, x, keep)) == Notified(TreeOf(sk, caches), from, x, keep)
  {
    HungIsWellFormed(sk, caches);
    ChainIsOwners(sk, caches, from);
  }

  /** From a session a notice reaches exactly the session and its conference. */
  lemma ChainOfSession<N>(sk: Skeleton<N>, s: N)
    requires AllHung(sk) && s in sk && sk[s].kind == Session
    ensures sk[s].owner.Some? && Chain(sk, s) == {sk[s].owner.value}
    ensures sk[s].owner.value in sk && HasCache(sk[sk[s].owner.value].kind)
  {
    assert Hung(sk, s);
    var conf := sk[s].owner.value;
    assert OwnerIn(sk, s) == Some(conf) && OwnerIn(sk, conf) == None;
    assert Chain(sk, conf) == {} && Chain(sk, s) == {conf} + {};
  }

  /** A contribution's session, if any, is one of its conference's. */
  lemma OwnSession<N>(sk: Skeleton<N>, c: N)
    requires AllHung(sk) && c in sk && sk[c].session.Some?
    ensures sk[c].kind == Contribution && InSameConference(sk, c, sk[c].session.value)
  {
    assert Hung(sk, c);
  }

  lemma LevelChangeKeepsExact<N>(sk: Skeleton<N>, caches: Bags<N>, hidden: set<N>, x: N, level: Level)
    requires CachesExact(sk, caches, hidden) && x in sk && x !in hidden && sk[x].kind != SubContribution
    ensures var sk' := sk[x := sk[x].(level := level)];
            AllHung(sk') && CachesExact(sk', Notice(sk', caches, Reached(sk', x), x, level != 0), hidden)
  {
    var sk' := sk[x := sk[x].(level := level)];
    forall n | n in sk' ensures Hung(sk', n) {
      assert Hung(sk, n);
    }
    HungIsWellFormed(sk, caches);
    HungIsWellFormed(sk', caches);
    var t := TreeOf(sk, caches);
    assert TreeOf(sk', caches) == t[x := t[x].(level := level)];
    assert Hung(sk, x) && Up(t, x) == t[x].up && OwnerIn(sk', x) == OwnerOf(sk[x]);
    if sk[x].owner.None? || sk[sk[x].owner.value].kind == Reviewing {
      UntrackedLevelKeepsExact(t, hidden, x, level);
      assert Notice(sk', caches, {}, x, level != 0) == caches;
    } else {
      var o := OwnerOf(sk[x]).value;
      LevelKeepsExact(t, hidden, x, level, o);
      NoticeIsNotified(sk', caches, o, x, level != 0);
    }
  }

  lemma LevelKeepsLinks<N>(sk: Skeleton<N>, parts: Bags<N>, contribs: Bags<N>, x: N, level: Level)
    requires AllLinked(sk, parts, contribs) && x in sk
    ensures AllLinked(sk[x := sk[x].(level := level)], parts, contribs)
  {
    var sk' := sk[x := sk[x].(level := level)];
    forall n | n in sk' ensures Closed(sk', parts, contribs, n) {
      assert n in sk ==> Closed(sk, parts, contribs, n);
    }
    forall n, y | n in sk' && y in sk' ensures Linked(sk', parts, contribs, n, y) {
      assert Linked(sk, parts, contribs, n, y);
    }
  }

  lemma LevelChangeKeepsValid<N>(sk: Skeleton<N>, caches: Bags<N>, parts: Bags<N>, contribs: Bags<N>, hidden: set<N>,
                                 x: N, level: Level)
    requires ValidState(sk, caches, parts, contribs, hidden) && x in sk && x !in hidden && sk[x].kind != SubContribution
    ensures var sk' := sk[x := sk[x].(level := level)];
            && AllHung(sk')
            && ValidState(sk', Notice(sk', caches, Reached(sk', x), x, level != 0), parts, contribs, hidden)
  {
    LevelChangeKeepsExact(sk, caches, hidden, x, level);
    LevelKeepsLinks(sk, parts, contribs, x, level);
  }

  lemma WithdrawalKeepsExact<N>(sk: Skeleton<N>, caches: Bags<N>, hidden: set<N>, x: N, o: N)
    requires CachesExact(sk, caches, hidden) && x in sk && OwnerOf(sk[x]) == Some(o)
    ensures o in sk && CachesExact(sk, CachesAfterNotice(sk, caches, o, x, false), hidden + {x})
  {
    HungIsWellFormed(sk, caches);
    HidingKeepsExact(TreeOf(sk, caches), hidden, x, o);
    NoticeIsNotified(sk, caches, o, x, false);
  }

  lemma NewPartKeepsExact<N>(sk: Skeleton<N>, caches: Bags<N>, hidden: set<N>, o: N, x: N, k: Kind)
    requires CachesExact(sk, caches, hidden) && o in sk && x !in sk && MayOwn(sk[o].kind, k)
    ensures CachesExact(sk[x := Links(k, 0, Some(o), None)], caches[x := {}], hidden)
  {
    var sk', caches' := sk[x := Links(k, 0, Some(o), None)], caches[x := {}];
    forall n | n in sk' ensures Hung(sk', n) {
      assert n != x ==> Hung(sk, n);
    }
    HungIsWellFormed(sk, caches);
    var t := TreeOf(sk, caches);
    assert TreeOf(sk', caches') == t[x := Entry(k, 0, Some(o), {})];
    AddingKeepsExact(t, hidden, x, Entry(k, 0, Some(o), {}));
  }

  lemma NewPartKeepsLinks<N>(sk: Skeleton<N>, parts: Bags<N>, contribs: Bags<N>, o: N, x: N, k: Kind)
    requires AllHung(sk) && AllLinked(sk, parts, contribs) && o in sk && x !in sk
    ensures AllLinked(sk[x := Links(k, 0, Some(o), None)], parts[x := {}][o := parts[o] + {x}], contribs[x := {}])
  {
    var sk', parts', contribs' :=
      sk[x := Links(k, 0, Some(o), None)], parts[x := {}][o := parts[o] + {x}], contribs[x := {}];
    assert sk'.Keys == sk.Keys + {x};
    forall n | n in sk' ensures Closed(sk', parts', contribs', n) {
      if n != x {
        assert Closed(sk, parts, contribs, n);
        assert parts[n] <= sk.Keys && contribs[n] <= sk.Keys;
      }
    }
    forall n, y | n in sk' && y in sk' ensures Linked(sk', parts', contribs', n, y) {
      if n != x && y != x {
        assert Linked(sk, parts, contribs, n, y);
      } else if y != x {
        assert Hung(sk, y);
      } else if n != x {
        assert Closed(sk, parts, contribs, n);
      }
    }
  }

  lemma NewPartKeepsValid<N>(sk: Skeleton<N>, caches: Bags<N>, parts: Bags<N>, contribs: Bags<N>, hidden: set<N>,
                             o: N, x: N, k: Kind)
    requires ValidState(sk, caches, parts, contribs, hidden) && o in sk && x !in sk && MayOwn(sk[o].kind, k)
    ensures ValidState(sk[x := Links(k, 0, Some(o), None)], caches[x := {}],
                       parts[x := {}][o := parts[o] + {x}], contribs[x := {}], hidden)
  {
    NewPartKeepsExact(sk, caches, hidden, o, x, k);
    NewPartKeepsLinks(sk, parts, contribs, o, x, k);
  }

  ghost predicate Childless<N>(sk: Skeleton<N>, x: N) {
    forall n :: n in sk ==> sk[n].owner != Some(x) && sk[n].session != Some(x)
  }

  lemma DetachingKeepsExact<N>(sk: Skeleton<N>, caches: Bags<N>, hidden: set<N>, x: N)
    requires CachesExact(sk, caches, hidden) && x in sk && Childless(sk, x)
    requires x in hidden || sk[x].level ==
               0 || (sk[x].owner.Some? && sk[x].owner.value in sk && sk[sk[x].owner.value].kind == Reviewing)
    ensures CachesExact(sk - {x}, caches - {x}, hidden - {x})
  {
    var sk', caches' := sk - {x}, caches - {x};
    forall n | n in sk' ensures Hung(sk', n) {
      assert Hung(sk, n);
    }
    HungIsWellFormed(sk, caches);
    var t := TreeOf(sk, caches);
    assert Hung(sk, x) && Up(t, x) == t[x].up;
    assert TreeOf(sk', caches') == Without(t, x);
    DroppingKeepsExact(t, hidden, x);
  }

  lemma DetachingKeepsLinks<N>(sk: Skeleton<N>, parts: Bags<N>, contribs: Bags<N>, o: N, x: N)
    requires AllHung(sk) && AllLinked(sk, parts, contribs) && x in sk && Childless(sk, x)
    requires sk[x].owner == Some(o) && sk[x].session == None
    ensures o in parts && o != x
    ensures AllLinked(sk - {x}, parts[o := parts[o] - {x}] - {x}, contribs - {x})
  {
    assert Hung(sk, x);
    var sk', parts', contribs' := sk - {x}, parts[o := parts[o] - {x}] - {x}, contribs - {x};
    forall n, y | n in sk' && y in sk' ensures Linked(sk', parts', contribs', n, y) {
      assert Linked(sk, parts, contribs, n, y);
    }
    forall n | n in sk' ensures Closed(sk', parts', contribs', n) {
      assert Closed(sk, parts, contribs, n) && Linked(sk, parts, contribs, n, x);
    }
  }

  // --------------------------------------------------- session membership

  /** Caches after contribution `c` goes from session `cur` to session `s` (None: no session). */
  function MovedCaches<N>(sk: Skeleton<N>, caches: Bags<N>, contribs: Bags<N>, c: N, cur: Option<N>,
                          s: Option<N>): (r: Bags<N>)
    requires sk.Keys == caches.Keys == contribs.Keys && c in sk && (s.Some? ==> s.value in sk)
    ensures r.Keys == caches.Keys
  {
    map n | n in caches ::
      if s == cur then caches[n]
      else if cur == Some(n) && c in contribs[n] then Released(caches[n], c, caches[c])
      else if s.Some? && c !in contribs[s.value] && (s == Some(n) || sk[c].owner == Some(n)) then
        Absorbed(caches[n], c, sk[c].level, caches[c])
      else caches[n]
  }

  function MovedContribs<N>(contribs: Bags<N>, c: N, cur: Option<N>, s: Option<N>): (r: Bags<N>)
    ensures r.Keys == contribs.Keys
  {
    map n | n in contribs ::
      if s == cur then contribs[n]
      else if cur == Some(n) then contribs[n] - {c}
      else if s == Some(n) then contribs[n] + {c}
      else contribs[n]
  }

  lemma MoveKeepsHung<N>(sk: Skeleton<N>, c: N, s: Option<N>)
    requires AllHung(sk) && c in sk && sk[c].kind == Contribution
    requires s.Some? ==> InSameConference(sk, c, s.value)
    ensures AllHung(sk[c := sk[c].(session := s)])
  {
    var sk' := sk[c := sk[c].(session := s)];
    forall n | n in sk' ensures Hung(sk', n) {
      assert Hung(sk, n);
    }
  }

  lemma MoveKeepsLinks<N>(sk: Skeleton<N>, parts: Bags<N>, contribs: Bags<N>, c: N, s: Option<N>)
    requires AllLinked(sk, parts, contribs) && c in sk && (s.Some? ==> s.value in sk)
    ensures AllLinked(sk[c := sk[c].(session := s)], parts, MovedContribs(contribs, c, sk[c].session, s))
  {
    var sk', contribs' := sk[c := sk[c].(session := s)], MovedContribs(contribs, c, sk[c].session, s);
    forall n | n in sk' ensures Closed(sk', parts, contribs', n) {
      assert n in sk ==> Closed(sk, parts, contribs, n);
    }
    forall n, x | n in sk' && x in sk' ensures Linked(sk', parts, contribs', n, x) {
      assert Linked(sk, parts, contribs, n, x);
    }
  }

  lemma SessionIsPlaced<N>(sk: Skeleton<N>, caches: Bags<N>, c: N, s: N)
    requires sk.Keys == caches.Keys && AllHung(sk) && c in sk && sk[c].kind == Contribution
    requires InSameConference(sk, c, s)
    ensures sk[c].owner.Some? && Placed(TreeOf(sk, caches), c, s, sk[c].owner.value)
  {
    assert Hung(sk, c);
    assert Hung(sk, sk[c].owner.value);
  }

  /** As trees, leaving and entering are `Left` and `Entered`. */
  lemma LeavingIsLeft<N>(sk: Skeleton<N>, caches: Bags<N>, contribs: Bags<N>, c: N, cur: N)
    requires sk.Keys == caches.Keys == contribs.Keys && AllHung(sk) && c in sk && sk[c].kind == Contribution
    requires InSameConference(sk, c, cur) && c in contribs[cur]
    ensures sk[c].owner.Some? && Placed(TreeOf(sk, caches), c, cur, sk[c].owner.value)
    ensures TreeOf(sk[c := sk[c].(session := None)], MovedCaches(sk, caches, contribs, c, Some(cur), None))
            == Left(TreeOf(sk, caches), c, cur, sk[c].owner.value)
  {
    SessionIsPlaced(sk, caches, c, cur);
  }

  lemma EnteringIsEntered<N>(sk: Skeleton<N>, caches: Bags<N>, contribs: Bags<N>, c: N, s: N)
    requires sk.Keys == caches.Keys == contribs.Keys && AllHung(sk) && c in sk && sk[c].kind == Contribution
    requires InSameConference(sk, c, s) && c !in contribs[s]
    ensures sk[c].owner.Some? && Placed(TreeOf(sk, caches), c, s, sk[c].owner.value)
    ensures TreeOf(sk[c := sk[c].(session := Some(s))], MovedCaches(sk, caches, contribs, c, None, Some(s)))
            == Entered(TreeOf(sk, caches), c, s, sk[c].owner.value)
  {
    SessionIsPlaced(sk, caches, c, s);
  }

  /** Changing sessions is leaving the old one, then entering the new one. */
  lemma MoveInTwoSteps<N>(sk: Skeleton<N>, caches: Bags<N>, contribs: Bags<N>, c: N, cur: N, s: N)
    requires sk.Keys == caches.Keys == contribs.Keys && AllHung(sk) && c in sk && sk[c].kind == Contribution
    requires InSameConference(sk, c, cur) && InSameConference(sk, c, s) && cur != s
    ensures var left := MovedCaches(sk, caches, contribs, c, Some(cur), None);
            MovedCaches(sk, caches, contribs, c, Some(cur), Some(s))
            == MovedCaches(sk[c := sk[c].(session := None)], left, MovedContribs(contribs, c, Some(cur), None), c,
                           None, Some(s))
  {
    assert Hung(sk, c);
  }

  lemma LeavingSessionKeepsExact<N>(sk: Skeleton<N>, caches: Bags<N>, contribs: Bags<N>, hidden: set<N>, c: N)
    requires CachesExact(sk, caches, hidden) && sk.Keys == contribs.Keys && c in sk && sk[c].session.Some?
    requires sk[c].session.value in sk ==> c in contribs[sk[c].session.value]
    ensures CachesExact(sk[c := sk[c].(session := None)], MovedCaches(sk, caches, contribs, c, sk[c].session, None),
                        hidden)
  {
    assert Hung(sk, c);
    var cur := sk[c].session.value;
    MoveKeepsHung(sk, c, None);
    HungIsWellFormed(sk, caches);
    LeavingIsLeft(sk, caches, contribs, c, cur);
    LeavingKeepsExact(TreeOf(sk, caches), hidden, c, cur, sk[c].owner.value);
  }

  lemma EnteringSessionKeepsExact<N>(sk: Skeleton<N>, caches: Bags<N>, contribs: Bags<N>, hidden: set<N>, c: N, s: N)
    requires CachesExact(sk, caches, hidden) && sk.Keys == contribs.Keys && c in sk && sk[c].kind == Contribution
    requires sk[c].session == None && c !in hidden && InSameConference(sk, c, s) && c !in contribs[s]
    ensures CachesExact(sk[c := sk[c].(session := Some(s))], MovedCaches(sk, caches, contribs, c, None, Some(s)),
                        hidden)
  {
    MoveKeepsHung(sk, c, Some(s));
    HungIsWellFormed(sk, caches);
    EnteringIsEntered(sk, caches, contribs, c, s);
    EnteringKeepsExact(TreeOf(sk, caches), hidden, c, s, sk[c].owner.value);
  }

  /** From a coherent state the caches are exact again after the move. */
  lemma MoveKeepsExact<N>(sk: Skeleton<N>, caches: Bags<N>, contribs: Bags<N>, hidden: set<N>, c: N, s: Option<N>)
    requires CachesExact(sk, caches, hidden) && sk.Keys == contribs.Keys && c in sk && sk[c].kind == Contribution
    requires s.Some? ==> InSameConference(sk, c, s.value) && c !in hidden
    requires sk[c].session.Some? && sk[c].session.value in sk ==> c in contribs[sk[c].session.value]
    requires s.Some? && s != sk[c].session ==> c !in contribs[s.value]
    ensures CachesExact(sk[c := sk[c].(session := s)], MovedCaches(sk, caches, contribs, c, sk[c].session, s), hidden)
  {
    var cur := sk[c].session;
    if cur == s {
      assert MovedCaches(sk, caches, contribs, c, cur, s) == caches;
      assert sk[c := sk[c].(session := s)] == sk;
    } else if cur.None? {
      EnteringSessionKeepsExact(sk, caches, contribs, hidden, c, s.value);
    } else {
      LeavingSessionKeepsExact(sk, caches, contribs, hidden, c);
      if s.Some? {
        var sk1 := sk[c := sk[c].(session := None)];
        assert Hung(sk, c);
        MoveInTwoSteps(sk, caches, contribs, c, cur.value, s.value);
        EnteringSessionKeepsExact(sk1, MovedCaches(sk, caches, contribs, c, cur, None),
                                  MovedContribs(contribs, c, cur, None), hidden, c, s.value);
        assert sk1[c := sk1[c].(session := s)] == sk[c := sk[c].(session := s)];
      }
    }
  }

  lemma MoveKeepsValid<N>(sk: Skeleton<N>, caches: Bags<N>, parts: Bags<N>, contribs: Bags<N>, hidden: set<N>,
                          c: N, s: Option<N>)
    requires ValidState(sk, caches, parts, contribs, hidden) && c in sk && sk[c].kind == Contribution
    requires s.Some? ==> InSameConference(sk, c, s.value) && c !in hidden
    ensures ValidState(sk[c := sk[c].(session := s)], MovedCaches(sk, caches, contribs, c, sk[c].session, s),
                       parts, MovedContribs(contribs, c, sk[c].session, s), hidden)
  {
    if sk[c].session.Some? && sk[c].session.value in sk {
      assert Linked(sk, parts, contribs, sk[c].session.value, c);
    }
    if s.Some? {
      assert Linked(sk, parts, contribs, s.value, c);
    }
    MoveKeepsExact(sk, caches, contribs, hidden, c, s);
    MoveKeepsLinks(sk, parts, contribs, c, s);
  }

  /** In a valid state what a contribution reports is known and has a level. */
  lemma ReportedHaveLevels<N>(sk: Skeleton<N>, caches: Bags<N>, hidden: set<N>, c: N)
    requires CachesExact(sk, caches, hidden) && c in sk
    ensures forall x :: x in caches[c] ==> x in sk && sk[x].level != 0
  {
    HungIsWellFormed(sk, caches);
    var t := TreeOf(sk, caches);
    forall x | x in caches[c] ensures x in sk && sk[x].level != 0 {
      assert x in t[c].cache;
      assert Right(t, hidden, c, x);
    }
  }
}
