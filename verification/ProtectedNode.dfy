/**
  The objects of an event with their access controllers: conference, sessions,
  contributions, sub-contributions, materials and resources, changed in place.
 */
module ProtectedNodes {
  import opened Common
  import opened ProtectionTree
  import opened ProtectedState
  import opened ProtectedRemoval
  import Protection

  class Node {
    const kind: Kind
    var level: Level             // AccessController._accessProtection
    var cache: set<Node>         // AccessController.nonInheritingChildren
    var owner: Option<Node>      // the conference, for a contribution
    var session: Option<Node>    // Contribution._session
    var parts: set<Node>         // materials, resources, sub-contributions, sessions, contributions
    var contributions: set<Node> // Session.contributions

    constructor (kind: Kind)
      ensures this.kind == kind && level == 0 && cache == {}
      ensures owner == None && session == None && parts == {} && contributions == {}
    {
      this.kind := kind;
      level, cache := 0, {};
      owner, session := None, None;
      parts, contributions := {}, {};
    }

    /** `getOwner` */
    function Owner(): Option<Node>
      reads this`owner, this`session
    {
      if session.Some? then session else owner
    }

    // --------------------------------------------------------- snapshots

    // Fields of the nodes of a set, as maps. Each map says nothing at all about
    // other nodes, so that it cannot change when they do.

    static ghost const NOWHERE: Links<Node> := Links(Conference, 0, None, None)

    ghost function LinksNow(): Links<Node>
      reads this`level, this`owner, this`session
    {
      Links(kind, level, owner, session)
    }

    ghost function LinksIn(S: set<Node>): Links<Node>
      reads this`level, this`owner, this`session
    {
      if this in S then LinksNow() else NOWHERE
    }

    ghost function CacheIn(S: set<Node>): set<Node>
      reads this`cache
    {
      if this in S then cache else {}
    }

    ghost function PartsIn(S: set<Node>): set<Node>
      reads this`parts
    {
      if this in S then parts else {}
    }

    ghost function ContributionsIn(S: set<Node>): set<Node>
      reads this`contributions
    {
      if this in S then contributions else {}
    }

    static ghost function SkeletonOf(S: set<Node>): Skeleton<Node>
      reads S`level, S`owner, S`session
    {
      map n | n in S :: n.LinksIn(S)
    }

    static ghost function CachesOf(S: set<Node>): Bags<Node>
      reads S`cache
    {
      map n | n in S :: n.CacheIn(S)
    }

    static ghost function ContainersOf(S: set<Node>): Bags<Node>
      reads S`parts
    {
      map n | n in S :: n.PartsIn(S)
    }

    static ghost function MembersOf(S: set<Node>): Bags<Node>
      reads S`contributions
    {
      map n | n in S :: n.ContributionsIn(S)
    }

    /** `S` is an event: owners and containers agree, and every cache is exact. */
    static ghost predicate Valid(S: set<Node>, hidden: set<Node>)
      reads S
    {
      ValidState(SkeletonOf(S), CachesOf(S), ContainersOf(S), MembersOf(S), hidden)
    }

    // ------------------------------------------------------- propagation

    /** `getOwner`, `k` times over. */
    static ghost function KthOwner(S: set<Node>, n: Node, k: nat): Option<Node>
      reads S`owner, S`session
    {
      if k == 0 then Some(n)
      else match KthOwner(S, n, k - 1)
        case None => None
        case Some(m) => if m !in S then None else if m.session.Some? then m.session else m.owner
    }

    /** `this` is met going up from `x`. */
    ghost predicate IsAbove(x: Node, S: set<Node>)
      reads S`owner, S`session
    {
      exists k: nat :: k > 0 && KthOwner(S, x, k) == Some(this)
    }

    static lemma {:induction false} KthOwnerIsKthUp(S: set<Node>, n: Node, k: nat)
      ensures KthOwner(S, n, k) == KthUp(TreeOf(SkeletonOf(S), CachesOf(S)), n, k)
    {
      if k > 0 {
        KthOwnerIsKthUp(S, n, k - 1);
      }
    }

    lemma IsAboveIsMetAbove(x: Node, S: set<Node>)
      ensures IsAbove(x, S) <==> MetAbove(TreeOf(SkeletonOf(S), CachesOf(S)), this, x)
    {
      forall k: nat ensures KthOwner(S, x, k) == KthUp(TreeOf(SkeletonOf(S), CachesOf(S)), x, k) {
        KthOwnerIsKthUp(S, x, k);
      }
    }

    /** What the caches of an event hold, kind by kind. */
    static lemma CachesHold(S: set<Node>, hidden: set<Node>, o: Node, x: Node)
      requires Valid(S, hidden) && o in S && x in S
      ensures x in o.cache <==>
                && o.kind in {Conference, Session, Contribution, Material}
                && x !in hidden && x.level != 0
                && (x.Owner().Some? ==> x.Owner().value.kind != Reviewing)
                && o.IsAbove(x, S)
    {
      HungIsWellFormed(SkeletonOf(S), CachesOf(S));
      var t := TreeOf(SkeletonOf(S), CachesOf(S));
      CacheHolds(t, hidden, o, x);
      assert OwnerAbove(t, x);
      o.IsAboveIsMetAbove(x, S);
    }

    /** What goes with an object is everything it is met above. */
    lemma GoesAlong(n: Node, S: set<Node>)
      requires AllHung(SkeletonOf(S)) && n in S
      ensures n in Doomed(SkeletonOf(S), this) <==> n == this || IsAbove(n, S)
    {
      DoomedIsBelow(SkeletonOf(S), CachesOf(S), this, n);
      IsAboveIsMetAbove(n, S);
    }

    static lemma AllCachesHold(S: set<Node>, hidden: set<Node>)
      requires Valid(S, hidden)
      ensures forall o, x :: o in S && x in S ==>
                (x in o.cache <==>
                  && o.kind in {Conference, Session, Contribution, Material}
                  && x !in hidden && x.level != 0
                  && (x.Owner().Some? ==> x.Owner().value.kind != Reviewing)
                  && o.IsAbove(x, S))
    {
      forall o, x | o in S && x in S {
        CachesHold(S, hidden, o, x);
      }
    }

    /** `AccessController.updateNonInheritingChildren`; a sub-contribution has no cache of its own. */
    method UpdateOwn(x: Node, delete: bool)
      modifies this`cache
      ensures kind == SubContribution || kind == Resource ==> cache == old(cache)
      ensures kind in {Conference, Session, Contribution, Material, Reviewing} ==>
                cache == if delete || x.level == 0 then old(cache) - {x} else old(cache) + {x}
    {
      if HasCache(kind) {
        if delete || x.level == 0 {
          cache := cache - {x};
        } else {
          cache := cache + {x};
        }
      }
    }

    /** `updateNonInheritingChildren`: own cache, then the owner's, up to the conference. */
    method UpdateNonInheritingChildren(x: Node, delete: bool, ghost S: set<Node>)
      requires this in S && x in S && AllHung(SkeletonOf(S))
      modifies S`cache
      ensures forall n :: n in S ==>
                n.cache == if n == this || n in Chain(SkeletonOf(S), this)
                           then RefreshedCache(n.kind, old(n.cache), x, !delete && x.level != 0)
                           else old(n.cache)
      decreases 5 - Rank(kind)
    {
      ghost var o := OwnerIn(SkeletonOf(S), this);
      UpdateOwn(x, delete);
      if kind != Conference {
        Owner().value.UpdateNonInheritingChildren(x, delete, S);
        if this in Chain(SkeletonOf(S), o.value) {
          ChainRanks(SkeletonOf(S), o.value, this);
        }
      }
    }

    // ------------------------------------------------- levels, creation

    /**
      A resource tells its owner only when that is an ordinary material; a
      conference has nobody to tell. Sub-contributions have no level of their own.
     */
    method SetProtection(private: Level, ghost S: set<Node>, ghost hidden: set<Node>)
      requires this in S && this !in hidden && Valid(S, hidden) && kind != SubContribution
      modifies this`level, S`cache
      ensures SkeletonOf(S) == old(SkeletonOf(S))[this := old(SkeletonOf(S))[this].(level := private)]
      ensures Valid(S, hidden)
      ensures forall o, x :: o in S && x in S ==>
                (x in o.cache <==>
                  && o.kind in {Conference, Session, Contribution, Material}
                  && x !in hidden && x.level != 0
                  && (x.Owner().Some? ==> x.Owner().value.kind != Reviewing)
                  && o.IsAbove(x, S))
    {
      ChangeLevel(private, S, hidden);
      AllCachesHold(S, hidden);
    }

    method ChangeLevel(private: Level, ghost S: set<Node>, ghost hidden: set<Node>)
      requires this in S && this !in hidden && Valid(S, hidden) && kind != SubContribution
      modifies this`level, S`cache
      ensures SkeletonOf(S) == old(SkeletonOf(S))[this := old(SkeletonOf(S))[this].(level := private)]
      ensures Valid(S, hidden)
    {
      LevelChangeKeepsValid(SkeletonOf(S), CachesOf(S), ContainersOf(S), MembersOf(S), hidden, this, private);
      WriteLevel(private, S);
      Notify(S);
    }

    /** `notify_protection_to_owner`, after a level change. */
    method Notify(ghost S: set<Node>)
      requires this in S && AllHung(SkeletonOf(S))
      modifies S`cache
      ensures CachesOf(S) == Notice(SkeletonOf(S), old(CachesOf(S)), Reached(SkeletonOf(S), this), this, level != 0)
    {
      TellOwner(S);
    }

    method TellOwner(ghost S: set<Node>)
      requires this in S && AllHung(SkeletonOf(S))
      modifies S`cache
      ensures forall n :: n in S ==>
                n.cache == if n in Reached(SkeletonOf(S), this) then RefreshedCache(n.kind, old(n.cache), this,
                                                                                    level != 0)
                           else old(n.cache)
    {
      ghost var o := OwnerIn(SkeletonOf(S), this);
      assert Hung(SkeletonOf(S), this);
      if kind != Conference && owner.value.kind != Reviewing {
        Owner().value.UpdateNonInheritingChildren(this, false, S);
      }
    }

    method WriteLevel(private: Level, ghost S: set<Node>)
      requires this in S
      modifies this`level
      ensures level == private
      ensures SkeletonOf(S) == old(SkeletonOf(S))[this := old(SkeletonOf(S))[this].(level := private)]
    {
      level := private;
    }

    /** `addSession`, `addContribution`, `addSubContribution`, `addMaterial`, `addResource` of a new object. */
    method NewPart(k: Kind, ghost S: set<Node>, ghost hidden: set<Node>) returns (x: Node)
      requires this in S && Valid(S, hidden)
      requires match kind
               case Conference => k in {Session, Contribution, Material}
               case Session => k == Material
               case Contribution => k in {SubContribution, Material, Reviewing}
               case SubContribution => k == Material
               case Material => k == Resource
               case Reviewing => k == Resource
               case Resource => false
      modifies this`parts
      ensures fresh(x) && SkeletonOf(S + {x}) == old(SkeletonOf(S))[x := Links(k, 0, Some(this), None)]
      ensures Valid(S + {x}, hidden)
    {
      x := new Node(k);
      NewPartKeepsValid(SkeletonOf(S), CachesOf(S), ContainersOf(S), MembersOf(S), hidden, this, x, k);
      x.AttachTo(this, S);
    }

    method AttachTo(o: Node, ghost S: set<Node>)
      requires this !in S && o in S && level == 0 && session == None && cache == parts == contributions == {}
      modifies this`owner, o`parts
      ensures SkeletonOf(S + {this}) == old(SkeletonOf(S))[this := Links(kind, 0, Some(o), None)]
      ensures CachesOf(S + {this}) == old(CachesOf(S))[this := {}]
      ensures MembersOf(S + {this}) == old(MembersOf(S))[this := {}]
      ensures ContainersOf(S + {this}) == old(ContainersOf(S))[this := {}][o := old(o.parts) + {this}]
    {
      o.parts := o.parts + {this};
      owner := Some(o);
    }

    // ------------------------------------- moving between sessions
    //
    // The three methods call each other. Their contracts hold from any link
    // state, including the half-linked ones met in the middle of a call, and
    // the measure counts the links still to be cut or made.

    /** Links that putting contribution `c` into session `s` (or none) has to cut or make. */
    static ghost function LinksToChange(c: Node, s: Option<Node>): nat
      reads c`session, (if c.session.Some? then {c.session.value} else {})`contributions
      reads (if s.Some? then {s.value} else {})`contributions
    {
      (if c.session.Some? && c.session != s && c in c.session.value.contributions then 1 else 0)
      + (if s.Some? && c !in s.value.contributions then 1 else 0)
    }

    /** `this` is a contribution, `s` a session (or none) of its conference. */
    ghost predicate Movable(s: Option<Node>, S: set<Node>)
      reads this`cache, S`owner, S`session, S`level
    {
      && this in S && AllHung(SkeletonOf(S)) && kind == Contribution
      && owner.Some? && owner.value in S && owner.value.kind == Conference
      && (s.Some? ==> s.value in S && s.value.kind == Session && s.value.session == None && s.value.owner == owner)
      && (session.Some? ==>
            && session.value in S && session.value.kind == Session
            && session.value.session == None && session.value.owner == owner)
      && forall x :: x in cache ==> x in S && x.level != 0
    }

    /** What is left in `n.cache` when contribution `this` goes from session `cur` to `s`. */
    twostate function CacheAfter(cur: Option<Node>, s: Option<Node>, n: Node): set<Node> {
      if s == cur then old(n.cache)
      else if cur == Some(n) && this in old(n.contributions) then Released(old(n.cache), this, old(cache))
      else if s.Some? && this !in old(s.value.contributions) && (s == Some(n) || old(owner) == Some(n)) then
        Absorbed(old(n.cache), this, old(level), old(cache))
      else old(n.cache)
    }

    twostate function ContributionsAfter(cur: Option<Node>, s: Option<Node>, n: Node): set<Node> {
      if s == cur then old(n.contributions)
      else if cur == Some(n) then old(n.contributions) - {this}
      else if s == Some(n) then old(n.contributions) + {this}
      else old(n.contributions)
    }

    method SetSession(s: Option<Node>, ghost S: set<Node>)
      requires Movable(s, S) && (s.Some? && s == session ==> this in s.value.contributions)
      modifies this`session, S`contributions, S`cache
      ensures session == s && AllHung(SkeletonOf(S))
      ensures forall n :: n in S ==> n.contributions == ContributionsAfter(old(session), s, n)
      ensures forall n :: n in S ==> n.cache == CacheAfter(old(session), s, n)
      decreases LinksToChange(this, s), 2
    {
      if session != s {
        Relink(s, S);
        if s.Some? {
          s.value.AddContribution(this, S);
        }
      }
    }

    /** First half of `setSession`: out of the old session, then `_session` is set. */
    method Relink(s: Option<Node>, ghost S: set<Node>)
      requires Movable(s, S) && session != s
      modifies this`session, S`contributions, S`cache
      ensures session == s && AllHung(SkeletonOf(S))
      ensures forall n :: n in S ==>
                n.contributions == if old(session) == Some(n) then old(n.contributions) - {this}
                                   else old(n.contributions)
      ensures forall n :: n in S ==>
                n.cache == if old(session) == Some(n) && this in old(n.contributions)
                           then Released(old(n.cache), this, old(cache)) else old(n.cache)
      decreases LinksToChange(this, s), 1
    {
      if session.Some? {
        session.value.RemoveContribution(this, S);
      }
      WriteSession(s, S);
    }

    method WriteSession(s: Option<Node>, ghost S: set<Node>)
      requires Movable(s, S)
      modifies this`session
      ensures session == s && AllHung(SkeletonOf(S))
    {
      ghost var sk: Skeleton<Node> := SkeletonOf(S);
      MoveKeepsHung(sk, this, s);
      session := s;
      assert SkeletonOf(S) == sk[this := sk[this].(session := s)];
    }

    /** Whether session `this` has contribution `c`, seen from both sides. */
    predicate HasContribution(c: Node)
      reads this`contributions, c`session
    {
      c.session == Some(this) && c in contributions
    }

    /** On a session. The conference keeps `c` and what it reports: nothing is propagated. */
    method RemoveContribution(c: Node, ghost S: set<Node>)
      requires this in S && kind == Session && c.Movable(Some(this), S)
      modifies c`session, S`contributions, S`cache
      ensures c.session == (if old(HasContribution(c)) then None else old(c.session)) && AllHung(SkeletonOf(S))
      ensures var cur := if old(HasContribution(c)) then Some(this) else None;
              forall n :: n in S ==> n.contributions == c.ContributionsAfter(cur, None, n)
      ensures var cur := if old(HasContribution(c)) then Some(this) else None;
              forall n :: n in S ==> n.cache == c.CacheAfter(cur, None, n)
      decreases if HasContribution(c) then 1 else 0, 0
    {
      if HasContribution(c) {
        contributions := contributions - {c};
        DropReported(c);
        c.SetSession(None, S);
      }
    }

    /** Takes `c` and the children it reports out of this cache only. */
    method DropReported(c: Node)
      requires c != this
      modifies this`cache
      ensures cache == Released(old(cache), c, c.cache)
    {
      cache := cache - {c};
      var rest := c.cache;
      while rest != {}
        invariant rest <= c.cache
        invariant cache == old(cache) - {c} - (c.cache - rest)
      {
        var child :| child in rest;
        cache := cache - {child};
        rest := rest - {child};
      }
      assert cache == Released(old(cache), c, c.cache);
    }

    /** A session's `updateNonInheritingChildren` reaches itself and its conference. */
    method UpdateAndPropagate(x: Node, ghost S: set<Node>)
      requires this in S && x in S && kind == Session && AllHung(SkeletonOf(S))
      modifies S`cache
      ensures owner.Some? && owner.value in S && owner.value.cache == Updated(old(owner.value.cache), x, x.level != 0)
      ensures cache == Updated(old(cache), x, x.level != 0)
      ensures forall n :: n in S && n != this && Some(n) != owner ==> n.cache == old(n.cache)
    {
      ChainOfSession(SkeletonOf(S), this);
      UpdateNonInheritingChildren(x, false, S);
    }

    /** `c` itself, then every child `c` reports. */
    method Absorb(c: Node, ghost S: set<Node>)
      requires this in S && kind == Session && c.Movable(Some(this), S)
      modifies S`cache
      ensures owner.Some? && owner.value in S
      ensures owner.value.cache == Absorbed(old(owner.value.cache), c, c.level, old(c.cache))
      ensures cache == Absorbed(old(cache), c, c.level, old(c.cache))
      ensures forall n :: n in S && n != this && Some(n) != owner ==> n.cache == old(n.cache)
    {
      ChainOfSession(SkeletonOf(S), this);
      UpdateAndPropagate(c, S);
      ghost var mine, conf := cache, owner.value.cache;
      var rest := c.cache;
      while rest != {}
        modifies S`cache
        invariant rest <= c.cache == old(c.cache)
        invariant cache == mine + (c.cache - rest) && owner.value.cache == conf + (c.cache - rest)
        invariant forall n :: n in S && n != this && Some(n) != owner ==> n.cache == old(n.cache)
      {
        var child :| child in rest;
        UpdateAndPropagate(child, S);
        rest := rest - {child};
      }
    }

    /** On a session. Session and conference take in `c` and what it reports. */
    method AddContribution(c: Node, ghost S: set<Node>)
      requires this in S && kind == Session && c.Movable(Some(this), S)
      requires c in contributions ==> c.session == Some(this)
      modifies c`session, S`contributions, S`cache
      ensures c.session == Some(this) && AllHung(SkeletonOf(S))
      ensures var cur := if old(c in contributions) then Some(this)
                         else if old(c.session) == Some(this) then None
                         else old(c.session);
              forall n :: n in S ==> n.contributions == c.ContributionsAfter(cur, Some(this), n)
      ensures var cur := if old(c in contributions) then Some(this)
                         else if old(c.session) == Some(this) then None
                         else old(c.session);
              forall n :: n in S ==> n.cache == c.CacheAfter(cur, Some(this), n)
      decreases LinksToChange(c, Some(this)), 0
    {
      if HasContribution(c) {
        return;
      }
      contributions := contributions + {c};
      c.SetSession(Some(this), S);
      assert c.cache == old(c.cache) && cache == old(cache);
      Absorb(c, S);
    }

    /** Both sides of the links to the current session and to `s` agree. */
    ghost predicate Coherent(s: Option<Node>)
      reads this, (if session.Some? then {session.value} else {})`contributions
      reads (if s.Some? then {s.value} else {})`contributions
    {
      && (session.Some? ==> this in session.value.contributions)
      && (s.Some? ==> (this in s.value.contributions <==> s == session))
    }

    /**
      Whichever of the three is called first, in an event in good order the
      contribution ends in `s` alone and every cache is exact.
     */
    method Reassign(s: Option<Node>, fromSession: bool, ghost S: set<Node>, ghost hidden: set<Node>)
      requires this in S && kind == Contribution && Valid(S, hidden)
      requires s.Some? ==> s.value in S && s.value.kind == Session && s.value.owner == owner && this !in hidden
      modifies this`session, S`contributions, S`cache
      ensures SkeletonOf(S) == old(SkeletonOf(S))[this := old(SkeletonOf(S))[this].(session := s)]
      ensures Valid(S, hidden)
    {
      ghost var sk, ca, co := ReassignKeepsValid(s, S, hidden);
      MoveAsPlanned(s, fromSession, sk, ca, ContainersOf(S), co, S);
    }

    method MoveAsPlanned(s: Option<Node>, fromSession: bool, ghost sk: Skeleton<Node>, ghost ca: Bags<Node>,
                         ghost pa: Bags<Node>, ghost co: Bags<Node>, ghost S: set<Node>)
      requires Movable(s, S) && Coherent(s) && pa == ContainersOf(S)
      requires sk == SkeletonOf(S)[this := SkeletonOf(S)[this].(session := s)]
      requires ca == MovedCaches(SkeletonOf(S), CachesOf(S), MembersOf(S), this, session, s)
      requires co == MovedContribs(MembersOf(S), this, session, s)
      modifies this`session, S`contributions, S`cache
      ensures SkeletonOf(S) == sk && CachesOf(S) == ca && ContainersOf(S) == pa && MembersOf(S) == co
    {
      MoveFromEither(s, fromSession, S);
      assert ContainersOf(S) == pa;
    }

    lemma ReassignKeepsValid(s: Option<Node>, S: set<Node>, hidden: set<Node>)
      returns (sk: Skeleton<Node>, ca: Bags<Node>, co: Bags<Node>)
      requires this in S && kind == Contribution && Valid(S, hidden)
      requires s.Some? ==> s.value in S && s.value.kind == Session && s.value.owner == owner && this !in hidden
      ensures Movable(s, S) && Coherent(s)
      ensures sk == SkeletonOf(S)[this := SkeletonOf(S)[this].(session := s)]
      ensures ca == MovedCaches(SkeletonOf(S), CachesOf(S), MembersOf(S), this, session, s)
      ensures co == MovedContribs(MembersOf(S), this, session, s)
      ensures ValidState(sk, ca, ContainersOf(S), co, hidden)
    {
      sk := SkeletonOf(S)[this := SkeletonOf(S)[this].(session := s)];
      ca := MovedCaches(SkeletonOf(S), CachesOf(S), MembersOf(S), this, session, s);
      co := MovedContribs(MembersOf(S), this, session, s);
      MovableWhenValid(s, S, hidden);
      MoveKeepsValid(SkeletonOf(S), CachesOf(S), ContainersOf(S), MembersOf(S), hidden, this, s);
    }

    lemma MovableWhenValid(s: Option<Node>, S: set<Node>, hidden: set<Node>)
      requires this in S && kind == Contribution && Valid(S, hidden)
      requires s.Some? ==> s.value in S && s.value.kind == Session && s.value.owner == owner
      ensures Movable(s, S) && Coherent(s) && (s.Some? ==> InSameConference(SkeletonOf(S), this, s.value))
    {
      assert Hung(SkeletonOf(S), this);
      ReportedHaveLevels(SkeletonOf(S), CachesOf(S), hidden, this);
      if s.Some? {
        assert Hung(SkeletonOf(S), s.value);
        assert Linked(SkeletonOf(S), ContainersOf(S), MembersOf(S), s.value, this);
      }
      if session.Some? {
        OwnSession(SkeletonOf(S), this);
        assert Linked(SkeletonOf(S), ContainersOf(S), MembersOf(S), session.value, this);
      }
    }

    method MoveFromEither(s: Option<Node>, fromSession: bool, ghost S: set<Node>)
      requires Movable(s, S) && Coherent(s)
      modifies this`session, S`contributions, S`cache
      ensures SkeletonOf(S) == old(SkeletonOf(S))[this := old(SkeletonOf(S))[this].(session := s)]
      ensures MembersOf(S) == MovedContribs(old(MembersOf(S)), this, old(session), s)
      ensures CachesOf(S) ==
                MovedCaches(old(SkeletonOf(S)), old(CachesOf(S)), old(MembersOf(S)), this, old(session), s)
    {
      ghost var ca: Bags<Node> := MovedCaches(SkeletonOf(S), CachesOf(S), MembersOf(S), this, session, s);
      MoveBetweenLists(s, fromSession, ca, S);
      SameBags(CachesOf(S), ca);
    }

    method MoveBetweenLists(s: Option<Node>, fromSession: bool, ghost ca: Bags<Node>, ghost S: set<Node>)
      requires Movable(s, S) && Coherent(s)
      requires ca == MovedCaches(SkeletonOf(S), CachesOf(S), MembersOf(S), this, session, s)
      modifies this`session, S`contributions, S`cache
      ensures session == s && MembersOf(S) == MovedContribs(old(MembersOf(S)), this, old(session), s)
      ensures forall n :: n in S ==> n.cache == ca[n]
    {
      ghost var co: Bags<Node> := MovedContribs(MembersOf(S), this, session, s);
      CallEntryPoint(s, fromSession, co, ca, S);
      SameBags(MembersOf(S), co);
    }

    lemma MovedPointwise(s: Option<Node>, co: Bags<Node>, ca: Bags<Node>, S: set<Node>)
      requires Movable(s, S)
      requires co == MovedContribs(MembersOf(S), this, session, s)
      requires ca == MovedCaches(SkeletonOf(S), CachesOf(S), MembersOf(S), this, session, s)
      ensures forall n :: n in S ==> co[n] == ContributionsAfter(session, s, n) && ca[n] == CacheAfter(session, s, n)
    {
    }

    method CallEntryPoint(s: Option<Node>, fromSession: bool, ghost co: Bags<Node>, ghost ca: Bags<Node>,
                          ghost S: set<Node>)
      requires Movable(s, S) && Coherent(s)
      requires co == MovedContribs(MembersOf(S), this, session, s)
      requires ca == MovedCaches(SkeletonOf(S), CachesOf(S), MembersOf(S), this, session, s)
      modifies this`session, S`contributions, S`cache
      ensures session == s
      ensures forall n :: n in S ==> n.contributions == co[n] && n.cache == ca[n]
    {
      MovedPointwise(s, co, ca, S);
      if !fromSession {
        SetSession(s, S);
      } else if s.Some? {
        s.value.AddContribution(this, S);
      } else if session.Some? {
        session.value.RemoveContribution(this, S);
      }
    }

    // ---------------------------------------------------------- removal
    //
    // Each removal returns the nodes that are left: all but the object and
    // what it owns. `hidden` holds contributions in the middle of their own
    // `delete`, already withdrawn from every cache.

    /** `notify_protection_to_owner(self, delete=True)` */
    method Withdraw(ghost S: set<Node>)
      requires this in S && AllHung(SkeletonOf(S))
      modifies S`cache
      ensures CachesOf(S) == Withdrawn(SkeletonOf(S), old(CachesOf(S)), this)
    {
      WithdrawPointwise(S);
    }

    method WithdrawPointwise(ghost S: set<Node>)
      requires this in S && AllHung(SkeletonOf(S))
      modifies S`cache
      ensures forall n :: n in S ==>
                n.cache == if n in Reached(SkeletonOf(S), this) then RefreshedCache(n.kind, old(n.cache), this, false)
                           else old(n.cache)
    {
      ghost var o := OwnerIn(SkeletonOf(S), this);
      assert Hung(SkeletonOf(S), this);
      if kind != Conference && owner.value.kind != Reviewing {
        Owner().value.UpdateNonInheritingChildren(this, true, S);
      }
    }

    /** Out of the owner's container, and no owner any more. */
    method Detach(ghost S: set<Node>)
      requires this in S && owner.Some? && owner.value in S && owner.value != this && session == None
      modifies this`owner, owner.value`parts
      ensures SkeletonOf(S - {this}) == old(SkeletonOf(S)) - {this} && CachesOf(S - {this}) == old(CachesOf(S)) - {this}
      ensures MembersOf(S - {this}) == old(MembersOf(S)) - {this}
      ensures ContainersOf(S - {this}) ==
                old(ContainersOf(S))[old(owner.value) := old(owner.value.parts) - {this}] - {this}
    {
      owner.value.parts := owner.value.parts - {this};
      owner := None;
    }

    /** End of a material's, resource's or session's `delete`: nothing is left below. */
    method Retire(ghost S: set<Node>, ghost hidden: set<Node>) returns (ghost S': set<Node>)
      requires this in S && this !in hidden && Valid(S, hidden) && parts == {} && contributions == {}
      requires kind != Conference && kind != Contribution
      modifies this`owner, S`parts, S`cache
      ensures S' == S - {this} && SkeletonOf(S') == old(SkeletonOf(S)) - {this} && Valid(S', hidden)
    {
      RetiringKeepsValid(SkeletonOf(S), CachesOf(S), ContainersOf(S), MembersOf(S), hidden, this);
      WithdrawAndDetach(S);
      S' := S - {this};
    }

    method WithdrawAndDetach(ghost S: set<Node>)
      requires this in S && AllHung(SkeletonOf(S)) && owner.Some? && owner.value in S && owner.value != this
      requires session == None
      modifies this`owner, S`parts, S`cache
      ensures SkeletonOf(S - {this}) == old(SkeletonOf(S)) - {this}
      ensures MembersOf(S - {this}) == old(MembersOf(S)) - {this}
      ensures CachesOf(S - {this}) == Withdrawn(old(SkeletonOf(S)), old(CachesOf(S)), this) - {this}
      ensures ContainersOf(S - {this}) ==
                old(ContainersOf(S))[old(owner.value) := old(owner.value.parts) - {this}] - {this}
    {
      Withdraw(S);
      Detach(S);
    }

    /** `this` is being removed: `R` is what is left, `all` what there was at the start. */
    ghost predicate Going(all: Skeleton<Node>, R: set<Node>, hidden: set<Node>)
      reads this, R
    {
      this in R && Valid(R, hidden) && Toward(all, SkeletonOf(R), this)
    }

    /** `Material.removeResource` */
    method RemoveResource(x: Node, ghost S: set<Node>, ghost hidden: set<Node>) returns (ghost S': set<Node>)
      requires this in S && x in parts && x.kind == Resource && x !in hidden && Valid(S, hidden)
      modifies S`owner, S`parts, S`cache
      ensures Valid(S', hidden)
      ensures AllHung(old(SkeletonOf(S))) && S' == S - Doomed(old(SkeletonOf(S)), x)
      ensures SkeletonOf(S') == old(SkeletonOf(S)) - Doomed(old(SkeletonOf(S)), x)
    {
      PartKinds(SkeletonOf(S), ContainersOf(S), MembersOf(S), this);
      PartKinds(SkeletonOf(S), ContainersOf(S), MembersOf(S), x);
      EmptyIsChildless(SkeletonOf(S), ContainersOf(S), MembersOf(S), x);
      DoomedLeaf(SkeletonOf(S), x);
      S' := x.Retire(S, hidden);
    }

    method RemoveNextResource(r: Node, ghost all: Skeleton<Node>, ghost R: set<Node>, ghost hidden: set<Node>)
      returns (ghost R': set<Node>)
      requires (kind == Material || kind == Reviewing) && Going(all, R, hidden) && r in parts
      requires forall h :: h in hidden ==> h.kind == Contribution
      modifies R`owner, R`parts, R`cache
      ensures R' < R && Going(all, R', hidden)
    {
      PartKinds(SkeletonOf(R), ContainersOf(R), MembersOf(R), this);
      assert OwnerIn(SkeletonOf(R), r) == Some(this) by {
        assert Hung(SkeletonOf(R), r);
      }
      ghost var sk: Skeleton<Node> := SkeletonOf(R);
      R' := RemoveResource(r, R, hidden);
      TowardStep(all, sk, this, r);
    }

    method RemoveResources(ghost all: Skeleton<Node>, ghost S: set<Node>, ghost hidden: set<Node>)
      returns (ghost R: set<Node>)
      requires (kind == Material || kind == Reviewing) && Going(all, S, hidden)
      requires forall h :: h in hidden ==> h.kind == Contribution
      modifies S`owner, S`parts, S`cache
      ensures R <= S && Going(all, R, hidden) && parts == {}
    {
      R := S;
      while parts != {}
        invariant R <= S && Going(all, R, hidden)
        decreases R
      {
        var r :| r in parts;
        R := RemoveNextResource(r, all, R, hidden);
      }
    }

    /** `Material.delete`, then `setOwner(None)` by the holder. */
    method DeleteMaterial(ghost S: set<Node>, ghost hidden: set<Node>) returns (ghost S': set<Node>)
      requires this in S && (kind == Material || kind == Reviewing) && Valid(S, hidden)
      requires forall h :: h in hidden ==> h.kind == Contribution
      modifies S`owner, S`parts, S`cache
      ensures Valid(S', hidden)
      ensures AllHung(old(SkeletonOf(S))) && S' == S - Doomed(old(SkeletonOf(S)), this)
      ensures SkeletonOf(S') == old(SkeletonOf(S)) - Doomed(old(SkeletonOf(S)), this)
    {
      TowardStart(SkeletonOf(S), this);
      ghost var R := RemoveResources(SkeletonOf(S), S, hidden);
      PartKinds(SkeletonOf(R), ContainersOf(R), MembersOf(R), this);
      S' := RetireLast(old(SkeletonOf(S)), R, hidden);
    }

    /** The emptied object itself: withdrawn where its class withdraws itself, then detached. */
    method RetireLast(ghost all: Skeleton<Node>, ghost R: set<Node>, ghost hidden: set<Node>)
      returns (ghost S': set<Node>)
      requires Going(all, R, hidden) && this !in hidden && parts == {} && contributions == {}
      requires kind != Conference && kind != Contribution
      modifies this`owner, R`parts, R`cache
      ensures Valid(S', hidden)
      ensures AllHung(all) && S' == all.Keys - Doomed(all, this) && SkeletonOf(S') == all - Doomed(all, this)
    {
      EmptyIsChildless(SkeletonOf(R), ContainersOf(R), MembersOf(R), this);
      TowardEnd(all, SkeletonOf(R), this);
      S' := Retire(R, hidden);
    }

    // Sub-contributions, contributions and sessions first empty themselves.

    /** `removeMaterial`: the first loop of every `delete`. */
    method RemoveNextMaterial(m: Node, ghost all: Skeleton<Node>, ghost R: set<Node>, ghost hidden: set<Node>)
      returns (ghost R': set<Node>)
      requires Going(all, R, hidden) && m in parts && (m.kind == Material || m.kind == Reviewing)
      requires forall h :: h in hidden ==> h.kind == Contribution
      modifies R`owner, R`parts, R`cache
      ensures R' < R && Going(all, R', hidden)
    {
      PartKinds(SkeletonOf(R), ContainersOf(R), MembersOf(R), this);
      assert OwnerIn(SkeletonOf(R), m) == Some(this) by {
        assert Hung(SkeletonOf(R), m);
      }
      ghost var sk: Skeleton<Node> := SkeletonOf(R);
      R' := m.DeleteMaterial(R, hidden);
      TowardStep(all, sk, this, m);
    }

    method RemoveMaterials(ghost all: Skeleton<Node>, ghost S: set<Node>, ghost hidden: set<Node>)
      returns (ghost R: set<Node>)
      requires Going(all, S, hidden)
      requires forall h :: h in hidden ==> h.kind == Contribution
      modifies S`owner, S`parts, S`cache
      ensures R <= S && Going(all, R, hidden)
      ensures forall m :: m in parts ==> m.kind != Material && m.kind != Reviewing
    {
      R := S;
      while exists m :: m in parts && (m.kind == Material || m.kind == Reviewing)
        invariant R <= S && Going(all, R, hidden)
        decreases R
      {
        var m :| m in parts && (m.kind == Material || m.kind == Reviewing);
        R := RemoveNextMaterial(m, all, R, hidden);
      }
    }

    /** `SubContribution.delete` and `setOwner(None)`; at level 0 its withdrawal changes nothing. */
    method DeleteSubContribution(ghost S: set<Node>, ghost hidden: set<Node>) returns (ghost S': set<Node>)
      requires this in S && kind == SubContribution && Valid(S, hidden)
      requires forall h :: h in hidden ==> h.kind == Contribution
      modifies S`owner, S`parts, S`cache
      ensures Valid(S', hidden)
      ensures AllHung(old(SkeletonOf(S))) && S' == S - Doomed(old(SkeletonOf(S)), this)
      ensures SkeletonOf(S') == old(SkeletonOf(S)) - Doomed(old(SkeletonOf(S)), this)
    {
      ghost var all: Skeleton<Node> := SkeletonOf(S);
      TowardStart(all, this);
      ghost var R := RemoveMaterials(all, S, hidden);
      PartKinds(SkeletonOf(R), ContainersOf(R), MembersOf(R), this);
      S' := DetachLast(all, R, hidden);
    }

    method DetachLast(ghost all: Skeleton<Node>, ghost R: set<Node>, ghost hidden: set<Node>)
      returns (ghost S': set<Node>)
      requires Going(all, R, hidden) && this !in hidden && kind == SubContribution && parts == {} && contributions == {}
      modifies this`owner, R`parts
      ensures Valid(S', hidden)
      ensures AllHung(all) && S' == all.Keys - Doomed(all, this) && SkeletonOf(S') == all - Doomed(all, this)
    {
      EmptyIsChildless(SkeletonOf(R), ContainersOf(R), MembersOf(R), this);
      TowardEnd(all, SkeletonOf(R), this);
      assert Hung(SkeletonOf(R), this);
      DetachingKeepsValid(SkeletonOf(R), CachesOf(R), ContainersOf(R), MembersOf(R), hidden, owner.value, this);
      Detach(R);
      S' := R - {this};
      assert hidden - {this} == hidden;
    }

    method RemoveNextSubContribution(sub: Node, ghost all: Skeleton<Node>, ghost R: set<Node>, ghost hidden: set<Node>)
      returns (ghost R': set<Node>)
      requires Going(all, R, hidden) && sub in parts && sub.kind == SubContribution
      requires forall h :: h in hidden ==> h.kind == Contribution
      modifies R`owner, R`parts, R`cache
      ensures R' < R && Going(all, R', hidden) && parts <= old(parts)
    {
      PartKinds(SkeletonOf(R), ContainersOf(R), MembersOf(R), this);
      assert OwnerIn(SkeletonOf(R), sub) == Some(this) by {
        assert Hung(SkeletonOf(R), sub);
      }
      ghost var sk: Skeleton<Node>, pa: Bags<Node>, co: Bags<Node> := SkeletonOf(R), ContainersOf(R), MembersOf(R);
      R' := sub.DeleteSubContribution(R, hidden);
      TowardStep(all, sk, this, sub);
      PartsShrink(sk, pa, co, SkeletonOf(R'), ContainersOf(R'), MembersOf(R'), this);
    }

    /** Out of every cache, then out of the session. */
    method WithdrawAndLeave(ghost all: Skeleton<Node>, ghost R: set<Node>, ghost hidden: set<Node>)
      requires Going(all, R, hidden) && kind == Contribution && this !in hidden
      modifies this`session, R`contributions, R`cache
      ensures session == None && Going(all[this := all[this].(session := None)], R, hidden + {this})
      ensures AllHung(all) && AllHung(all[this := all[this].(session := None)])
      ensures Doomed(all[this := all[this].(session := None)], this) == Doomed(all, this)
    {
      TowardAfterLeaving(all, SkeletonOf(R), this);
      HideContribution(R, hidden);
      Reassign(None, false, R, hidden + {this});
    }

    method HideContribution(ghost R: set<Node>, ghost hidden: set<Node>)
      requires this in R && Valid(R, hidden) && kind == Contribution
      modifies R`cache
      ensures Valid(R, hidden + {this})
    {
      assert Hung(SkeletonOf(R), this);
      WithdrawalKeepsValid(SkeletonOf(R), CachesOf(R), ContainersOf(R), MembersOf(R), hidden, this);
      Withdraw(R);
    }

    /** `Conference.removeContribution` and `_setConference(None)`. */
    method LeaveConference(ghost all: Skeleton<Node>, ghost R: set<Node>, ghost hidden: set<Node>)
      returns (ghost S': set<Node>)
      requires Going(all, R, hidden + {this}) && kind == Contribution && session == None && parts == {}
      requires this !in hidden
      modifies this`owner, R`parts
      ensures AllHung(all) && S' == all.Keys - Doomed(all, this) && SkeletonOf(S') == all - Doomed(all, this)
      ensures Valid(S', hidden)
    {
      PartKinds(SkeletonOf(R), ContainersOf(R), MembersOf(R), this);
      assert Hung(SkeletonOf(R), this);
      DetachingKeepsValid(SkeletonOf(R), CachesOf(R), ContainersOf(R), MembersOf(R), hidden + {this}, owner.value,
                          this);
      TowardEnd(all, SkeletonOf(R), this);
      Detach(R);
      S' := R - {this};
      assert hidden + {this} - {this} == hidden;
    }

    method RemoveSubContributions(ghost all: Skeleton<Node>, ghost S: set<Node>, ghost hidden: set<Node>)
      returns (ghost R: set<Node>)
      requires Going(all, S, hidden) && forall x :: x in parts ==> x.kind == SubContribution
      requires forall h :: h in hidden ==> h.kind == Contribution
      modifies S`owner, S`parts, S`cache
      ensures R <= S && Going(all, R, hidden) && parts == {}
    {
      R := S;
      while parts != {}
        invariant R <= S && Going(all, R, hidden)
        invariant forall x :: x in parts ==> x.kind == SubContribution
        decreases R
      {
        var sub :| sub in parts;
        R := RemoveNextSubContribution(sub, all, R, hidden);
      }
    }

    /**
      `Contribution.delete`: materials go first, then the contribution is
      withdrawn and leaves its session, and only then its sub-contributions go.
     */
    method DeleteContribution(ghost S: set<Node>, ghost hidden: set<Node>) returns (ghost S': set<Node>)
      requires this in S && kind == Contribution && this !in hidden && Valid(S, hidden)
      requires forall h :: h in hidden ==> h.kind == Contribution
      modifies this`session, S`contributions, S`owner, S`parts, S`cache
      ensures Valid(S', hidden)
      ensures AllHung(old(SkeletonOf(S))) && S' == S - Doomed(old(SkeletonOf(S)), this)
      ensures SkeletonOf(S') == old(SkeletonOf(S)) - Doomed(old(SkeletonOf(S)), this)
    {
      TowardStart(SkeletonOf(S), this);
      S' := EmptyContribution(SkeletonOf(S), S, hidden);
    }

    method EmptyContribution(ghost all: Skeleton<Node>, ghost S: set<Node>, ghost hidden: set<Node>)
      returns (ghost S': set<Node>)
      requires Going(all, S, hidden) && kind == Contribution && this !in hidden
      requires forall h :: h in hidden ==> h.kind == Contribution
      modifies this`session, S`contributions, S`owner, S`parts, S`cache
      ensures Valid(S', hidden)
      ensures AllHung(all) && S' == all.Keys - Doomed(all, this) && SkeletonOf(S') == all - Doomed(all, this)
    {
      ghost var R := RemoveMaterials(all, S, hidden);
      LeaveSession(all, R, hidden);
      S' := FinishContribution(all, R, hidden);
    }

    /** The materials are gone, and stay away. */
    method LeaveSession(ghost all: Skeleton<Node>, ghost R: set<Node>, ghost hidden: set<Node>)
      requires Going(all, R, hidden) && kind == Contribution && this !in hidden
      requires forall m :: m in parts ==> m.kind != Material && m.kind != Reviewing
      modifies this`session, R`contributions, R`cache
      ensures this in all && session == None && Going(all[this := all[this].(session := None)], R, hidden + {this})
      ensures AllHung(all) && AllHung(all[this := all[this].(session := None)])
      ensures Doomed(all[this := all[this].(session := None)], this) == Doomed(all, this)
      ensures forall m :: m in parts ==> m.kind != Material && m.kind != Reviewing
    {
      WithdrawAndLeave(all, R, hidden);
    }

    method FinishContribution(ghost all: Skeleton<Node>, ghost S: set<Node>, ghost hidden: set<Node>)
      returns (ghost S': set<Node>)
      requires this in all && kind == Contribution && this !in hidden && session == None
      requires Going(all[this := all[this].(session := None)], S, hidden + {this})
      requires AllHung(all) && Doomed(all[this := all[this].(session := None)], this) == Doomed(all, this)
      requires forall m :: m in parts ==> m.kind != Material && m.kind != Reviewing
      requires forall h :: h in hidden ==> h.kind == Contribution
      modifies S`owner, S`parts, S`cache
      ensures Valid(S', hidden)
      ensures S' == all.Keys - Doomed(all, this) && SkeletonOf(S') == all - Doomed(all, this)
    {
      ghost var left: Skeleton<Node> := all[this := all[this].(session := None)];
      PartKinds(SkeletonOf(S), ContainersOf(S), MembersOf(S), this);
      ghost var R := RemoveSubContributions(left, S, hidden + {this});
      LeftAgrees(all, this);
      S' := LeaveConference(left, R, hidden);
    }

    // ---------------------------------------------------------- sessions

    /** Session `this` is being removed; `all` is the event with its contributions already let go. */
    ghost predicate GoingCleared(all: Skeleton<Node>, R: set<Node>)
      reads this, R
    {
      this in R && Valid(R, {}) && Toward(all, SessionCleared(SkeletonOf(R), this), this)
    }

    method RemoveNextSessionMaterial(m: Node, ghost all: Skeleton<Node>, ghost R: set<Node>)
      returns (ghost R': set<Node>)
      requires kind == Session && GoingCleared(all, R) && m in parts
      modifies R`owner, R`parts, R`cache
      ensures R' < R && GoingCleared(all, R')
    {
      PartKinds(SkeletonOf(R), ContainersOf(R), MembersOf(R), this);
      ghost var sk: Skeleton<Node> := SkeletonOf(R);
      R' := m.DeleteMaterial(R, {});
      TowardClearedStep(all, sk, this, m);
    }

    method RemoveSessionMaterials(ghost all: Skeleton<Node>, ghost S: set<Node>) returns (ghost R: set<Node>)
      requires kind == Session && GoingCleared(all, S)
      modifies S`owner, S`parts, S`cache
      ensures R <= S && GoingCleared(all, R) && parts == {}
    {
      R := S;
      while parts != {}
        invariant R <= S && GoingCleared(all, R)
        decreases R
      {
        var m :| m in parts;
        R := RemoveNextSessionMaterial(m, all, R);
      }
    }

    method ReleaseNext(c: Node, ghost all: Skeleton<Node>, ghost R: set<Node>)
      requires kind == Session && GoingCleared(all, R) && c in contributions
      modifies c`session, R`contributions, R`cache
      ensures GoingCleared(all, R) && contributions == old(contributions) - {c}
    {
      ContributionsOf(SkeletonOf(R), ContainersOf(R), MembersOf(R), this);
      ReleasingIsCleared(SkeletonOf(R), this, c);
      Release(c, R);
    }

    method Release(c: Node, ghost R: set<Node>)
      requires kind == Session && this in R && Valid(R, {}) && c in contributions
      modifies c`session, R`contributions, R`cache
      ensures c in R && SkeletonOf(R) == old(SkeletonOf(R))[c := old(SkeletonOf(R))[c].(session := None)]
      ensures Valid(R, {}) && contributions == old(contributions) - {c}
    {
      PartKinds(SkeletonOf(R), ContainersOf(R), MembersOf(R), this);
      ContributionsOf(SkeletonOf(R), ContainersOf(R), MembersOf(R), this);
      c.Reassign(None, true, R, {});
      ContributionsOf(SkeletonOf(R), ContainersOf(R), MembersOf(R), this);
    }

    method ReleaseContributions(ghost all: Skeleton<Node>, ghost R: set<Node>)
      requires kind == Session && GoingCleared(all, R)
      modifies R`session, R`contributions, R`cache
      ensures GoingCleared(all, R) && contributions == {}
    {
      while contributions != {}
        invariant GoingCleared(all, R)
        decreases contributions
      {
        var c :| c in contributions;
        ContributionsOf(SkeletonOf(R), ContainersOf(R), MembersOf(R), this);
        ReleaseNext(c, all, R);
      }
    }

    /** `Conference.removeSession`: materials go, contributions stay in the conference. */
    method DeleteSession(ghost S: set<Node>) returns (ghost S': set<Node>)
      requires this in S && kind == Session && Valid(S, {})
      modifies S`session, S`contributions, S`owner, S`parts, S`cache
      ensures Valid(S', {})
      ensures var all := SessionCleared(old(SkeletonOf(S)), this);
              AllHung(all) && S' == S - Doomed(all, this) && SkeletonOf(S') == all - Doomed(all, this)
    {
      SessionClearedHung(SkeletonOf(S), this);
      ghost var all: Skeleton<Node> := SessionCleared(SkeletonOf(S), this);
      TowardStart(all, this);
      ghost var R := RemoveSessionMaterials(all, S);
      S' := FinishSession(all, R);
    }

    method FinishSession(ghost all: Skeleton<Node>, ghost R: set<Node>) returns (ghost S': set<Node>)
      requires kind == Session && GoingCleared(all, R) && parts == {}
      modifies R`session, R`contributions, R`owner, R`parts, R`cache
      ensures Valid(S', {})
      ensures AllHung(all) && S' == all.Keys - Doomed(all, this) && SkeletonOf(S') == all - Doomed(all, this)
    {
      ReleaseContributions(all, R);
      ContributionsOf(SkeletonOf(R), ContainersOf(R), MembersOf(R), this);
      S' := RetireLast(all, R, {});
    }

    method DeleteNextContribution(c: Node, ghost all: Skeleton<Node>, ghost R: set<Node>) returns (ghost R': set<Node>)
      requires kind == Session && Going(all, R, {}) && c in contributions
      modifies R`session, R`contributions, R`owner, R`parts, R`cache
      ensures R' < R && Going(all, R', {})
    {
      PartKinds(SkeletonOf(R), ContainersOf(R), MembersOf(R), this);
      ghost var sk: Skeleton<Node> := SkeletonOf(R);
      R' := c.DeleteContribution(R, {});
      TowardStep(all, sk, this, c);
    }

    method DeleteContributions(ghost all: Skeleton<Node>, ghost S: set<Node>) returns (ghost R: set<Node>)
      requires kind == Session && Going(all, S, {})
      modifies S`session, S`contributions, S`owner, S`parts, S`cache
      ensures R <= S && Going(all, R, {}) && contributions == {}
    {
      R := S;
      while contributions != {}
        invariant R <= S && Going(all, R, {})
        decreases R
      {
        var c :| c in contributions;
        R := DeleteNextContribution(c, all, R);
      }
    }

    /** `removeSession(session, deleteContributions=True)` */
    method DeleteSessionAndContributions(ghost S: set<Node>) returns (ghost S': set<Node>)
      requires this in S && kind == Session && Valid(S, {})
      modifies S`session, S`contributions, S`owner, S`parts, S`cache
      ensures Valid(S', {})
      ensures AllHung(old(SkeletonOf(S))) && S' == S - Doomed(old(SkeletonOf(S)), this)
      ensures SkeletonOf(S') == old(SkeletonOf(S)) - Doomed(old(SkeletonOf(S)), this)
    {
      TowardStart(SkeletonOf(S), this);
      ghost var R := DeleteContributions(SkeletonOf(S), S);
      S' := DeleteEmptySession(old(SkeletonOf(S)), R);
    }

    method DeleteEmptySession(ghost all: Skeleton<Node>, ghost R: set<Node>) returns (ghost S': set<Node>)
      requires kind == Session && Going(all, R, {}) && contributions == {}
      modifies R`session, R`contributions, R`owner, R`parts, R`cache
      ensures Valid(S', {})
      ensures AllHung(all) && S' == all.Keys - Doomed(all, this) && SkeletonOf(S') == all - Doomed(all, this)
    {
      ContributionsOf(SkeletonOf(R), ContainersOf(R), MembersOf(R), this);
      TowardFinish(all, SkeletonOf(R), this);
      S' := DeleteSession(R);
    }

    // ----------------------------------------------------------- queries

    /** `isProtected`; `owners` is the conference's `getOwnerList()`. */
    method IsProtected(owners: seq<Protection.Category>, ghost S: set<Node>) returns (b: bool)
      requires this in S && Valid(S, {})
      ensures WellFormed(TreeOf(SkeletonOf(S), CachesOf(S)))
      ensures b <==> Protection.IsProtected(TreeOf(SkeletonOf(S), CachesOf(S)), owners, this)
      decreases 5 - Rank(kind)
    {
      HungIsWellFormed(SkeletonOf(S), CachesOf(S));
      assert Up(TreeOf(SkeletonOf(S), CachesOf(S)), this) == OwnerIn(SkeletonOf(S), this);
      var father: bool;
      if Owner().None? {
        father := Protection.FatherProtected(owners);
      } else {
        father := Owner().value.IsProtected(owners, S);
      }
      b := (level as int) + (if father then 1 else 0) > 0;
    }

    /**
      `isFullyPublic` (level -1) and `isFullyPrivate` (level 1): only the cache
      is read, and the answer is right about all that is reported to it. It is
      right about the whole subtree, resources of reviewing material included,
      if and only if none of these has the opposite level.
     */
    method IsFullyAccess(access: Level, owners: seq<Protection.Category>, ghost S: set<Node>) returns (b: bool)
      requires this in S && Valid(S, {}) && kind != SubContribution && access != 0
      ensures WellFormed(TreeOf(SkeletonOf(S), CachesOf(S)))
      ensures b <==> forall x :: x in S && Protection.InSubtree(TreeOf(SkeletonOf(S), CachesOf(S)), this, x) ==>
                       (Protection.IsProtected(TreeOf(SkeletonOf(S), CachesOf(S)), owners, x) <==> access == 1)
      ensures var t := TreeOf(SkeletonOf(S), CachesOf(S));
              (forall x :: x in t && Below(t, x, this) ==> (Protection.IsProtected(t, owners, x) <==> access == 1)) <==>
                && b
                && forall x :: x in t && x != this && Below(t, x, this) && !Tracked(t, x) ==> t[x].level != -access
    {
      HungIsWellFormed(SkeletonOf(S), CachesOf(S));
      Protection.FullyAccessRefinesSubtree(TreeOf(SkeletonOf(S), CachesOf(S)), owners, access, this);
      Protection.FullyAccessWithReviewing(TreeOf(SkeletonOf(S), CachesOf(S)), owners, access, this);
      b := CheckCache(access, owners, S);
    }

    method CheckCache(access: Level, owners: seq<Protection.Category>, ghost S: set<Node>) returns (b: bool)
      requires this in S && Valid(S, {})
      ensures WellFormed(TreeOf(SkeletonOf(S), CachesOf(S))) && cache <= S
      ensures b <==> Protection.CachedFully(TreeOf(SkeletonOf(S), CachesOf(S)), owners, access, this)
    {
      ReportedHaveLevels(SkeletonOf(S), CachesOf(S), {}, this);
      var protected := IsProtected(owners, S);
      if (protected && access == -1) || (!protected && access == 1) {
        return false;
      }
      var rest := cache;
      while rest != {}
        invariant rest <= cache
        invariant forall x :: x in cache - rest ==> x.level == access
      {
        var child :| child in rest;
        if child.level != access {
          return false;
        }
        rest := rest - {child};
      }
      return true;
    }
  }

  /** A new event: a conference alone. */
  method NewEvent() returns (conf: Node)
    ensures fresh(conf) && conf.kind == Conference && conf.level == 0 && Node.Valid({conf}, {})
  {
    conf := new Node(Conference);
    SingleIsValid(conf);
    assert Node.SkeletonOf({conf}) == map[conf := Links(Conference, 0, None, None)];
    assert Node.CachesOf({conf}) == Node.ContainersOf({conf}) == Node.MembersOf({conf}) == map[conf := {}];
  }

  lemma SingleIsValid<N>(n: N)
    ensures var sk: Skeleton<N> := map[n := Links(Conference, 0, None, None)];
            var none: Bags<N> := map[n := {}];
            ValidState(sk, none, none, none, {})
  {
    var sk: Skeleton<N> := map[n := Links(Conference, 0, None, None)];
    var none: Bags<N> := map[n := {}];
    forall m | m in sk ensures Hung(sk, m) && Closed(sk, none, none, m) {
    }
    HungIsWellFormed(sk, none);
    var t := TreeOf(sk, none);
    assert Up(t, n) == None && Owners(t, n) == {};
    forall a, x | a in t && x in t ensures Right(t, {}, a, x) {
    }
    forall a, x | a in sk && x in sk ensures Linked(sk, none, none, a, x) {
    }
  }
}
