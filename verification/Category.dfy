/**
  Categories and the conferences they list, changed in place: the counters are
  pushed up the owner chain, and the two sides of the category/conference link
  call each other.
 */
module Categories {
  import opened Common
  import opened CategoryTree
  import opened CategoryRepair

  class Conference {
    const registered: bool       // has an id
    var owners: seq<Category>    // __owners

    ghost function OwnersIn(F: set<Conference>): seq<Category>
      reads this`owners
    {
      if this in F then owners else []
    }

    constructor (registered: bool)
      ensures this.registered == registered && owners == []
    {
      this.registered := registered;
      owners := [];
    }

    /** `removeOwner`: this side first, then the category's, which calls back. */
    method RemoveOwner(c: Category, ghost S: set<Category>)
      requires c in S && Category.Good(S)
      modifies this`owners, c`conferences, S`num
      ensures owners ==
                if c in old(owners) && this in old(c.conferences) then WithoutFirst(WithoutFirst(old(owners), c), c)
                        else WithoutFirst(old(owners), c)
      ensures c.conferences == if c in old(owners) then old(c.conferences) - {this} else old(c.conferences)
      ensures Category.CountersOf(S) == if c in old(owners) && this in old(c.conferences)
                                then Raised(Category.ParentsOf(S), Category.RanksOf(S), old(Category.CountersOf(S)), c,
                                            -1)
                                else old(Category.CountersOf(S))
      decreases |owners| + (if this in c.conferences then 1 else 0), 2
    {
      WithoutAbsent(owners, c);
      if c in owners {
        owners := WithoutFirst(owners, c);
        c.RemoveConference(this, S);
      }
    }

    /** `delete`, as far as the owners are concerned. */
    method Delete(ghost S: set<Category>) returns (ghost gone: set<Category>)
      requires Category.Good(S) && Distinct(owners) && forall c :: c in owners ==> c in S
      modifies this`owners, S`conferences, S`num
      ensures owners == Survivors(old(owners), old(Category.Listing(this, S)))
      ensures TakenAway(old(owners), owners, gone)
      ensures Left(old(Category.ListsOf(S)), Category.ListsOf(S), this, gone)
      ensures Category.Drifts(S) == old(Category.Drifts(S))
      // with all links two-sided, the conference is unlinked everywhere exactly if it has one owner at most
      ensures (forall c :: c in old(owners) ==> c in old(Category.Listing(this, S))) ==>
                (owners == [] <==> |old(owners)| <= 1)
    {
      ghost var all, listing := owners, Category.Listing(this, S);
      gone := LeaveOwners(S);
      if forall c :: c in all ==> c in listing {
        UnlinkedWithOneOwner(all, listing);
      }
    }

    /** The loop over the owners in `delete`. */
    method LeaveOwners(ghost S: set<Category>) returns (ghost gone: set<Category>)
      requires Category.Good(S) && Distinct(owners) && forall c :: c in owners ==> c in S
      modifies this`owners, S`conferences, S`num
      ensures owners == Survivors(old(owners), old(Category.Listing(this, S)))
      ensures TakenAway(old(owners), owners, gone)
      ensures Left(old(Category.ListsOf(S)), Category.ListsOf(S), this, gone)
      ensures Category.Drifts(S) == old(Category.Drifts(S))
    {
      var i := 0;
      ghost var kept, rest, listing := [], owners, Category.Listing(this, S);
      gone := {};
      while i < |owners|
        invariant owners == kept + rest && (i == |kept| || (i == |kept| + 1 && rest == []))
        invariant Survivors(old(owners), listing) == kept + Survivors(rest, listing)
        invariant Category.Released(this, old(owners), gone, old(Category.ListsOf(S)), listing, S)
        invariant Category.Drifts(S) == old(Category.Drifts(S))
        decreases |owners| - i
      {
        SurvivorsStep(kept, rest, listing);
        gone := owners[i].LetGo(this, old(owners), gone, old(Category.ListsOf(S)), listing, S);
        kept, rest := NextKept(kept, rest, listing), NextRest(rest, listing);
        i := i + 1;
      }
    }
  }

  ghost predicate Partition<T>(all: seq<T>, owners: seq<T>, gone: set<T>) {
    && (forall c :: c in all ==> c in owners || c in gone)
    && (forall c :: c in owners ==> c in all && c !in gone)
    && (forall c :: c in gone ==> c in all)
  }

  /** From `before` to `after`, exactly `gone` has been taken away. */
  ghost predicate TakenAway<T>(before: seq<T>, after: seq<T>, gone: set<T>) {
    && Distinct(after)
    && (forall c :: c in after ==> c in before && c !in gone)
    && (forall c :: c in before && c !in gone ==> c in after)
  }

  lemma TakenAwayTwice<T>(before: seq<T>, middle: seq<T>, after: seq<T>, g: set<T>, h: set<T>)
    requires TakenAway(before, middle, g) && TakenAway(middle, after, h)
    ensures TakenAway(before, after, g + h)
  {
  }

  lemma PartitionStep<T>(all: seq<T>, owners: seq<T>, gone: set<T>, c: T)
    requires Distinct(owners) && Partition(all, owners, gone) && c in owners
    ensures Distinct(WithoutFirst(owners, c)) && Partition(all, WithoutFirst(owners, c), gone + {c})
  {
    WithoutDistinct(owners, c);
  }

  /** One turn of the loop, standing at `rest[0]`. */
  ghost function NextKept<T>(kept: seq<T>, rest: seq<T>, listing: set<T>): seq<T>
    requires rest != []
  {
    if rest[0] !in listing then kept + [rest[0]] else if |rest| == 1 then kept else kept + [rest[1]]
  }

  ghost function NextRest<T>(rest: seq<T>, listing: set<T>): seq<T>
    requires rest != []
  {
    if rest[0] !in listing then rest[1..] else if |rest| == 1 then [] else rest[2..]
  }

  lemma SurvivorsStep<T>(kept: seq<T>, rest: seq<T>, listing: set<T>)
    requires rest != [] && Distinct(kept + rest)
    ensures var kept', rest' := NextKept(kept, rest, listing), NextRest(rest, listing);
            && kept' + rest' == (if rest[0] in listing then WithoutFirst(kept + rest, rest[0]) else kept + rest)
            && kept' + Survivors(rest', listing) == kept + Survivors(rest, listing)
            && (|kept'| == |kept| + 1 || (|kept'| == |kept| && rest' == []))
  {
    var c, kept', rest' := rest[0], NextKept(kept, rest, listing), NextRest(rest, listing);
    if c !in listing {
      assert kept' + rest' == kept + rest;
      assert kept + [c] + Survivors(rest', listing) == kept + ([c] + Survivors(rest', listing));
    } else {
      WithoutMiddle(kept, rest);
      if |rest| == 1 {
        assert rest[1..] == [];
      } else {
        assert kept' + rest' == kept + rest[1..];
        assert kept + [rest[1]] + Survivors(rest', listing) == kept + ([rest[1]] + Survivors(rest', listing));
      }
    }
  }

  lemma {:induction false} WithoutMiddle<T>(kept: seq<T>, rest: seq<T>)
    requires rest != [] && Distinct(kept + rest)
    ensures WithoutFirst(kept + rest, rest[0]) == kept + rest[1..]
  {
    if kept == [] {
      assert kept + rest == rest;
    } else {
      assert kept + rest == [kept[0]] + (kept[1..] + rest);
      assert (kept + rest)[|kept|] == rest[0] && (kept + rest)[0] == kept[0];
      assert Distinct(kept[1..] + rest) by {
        assert forall i :: 0 <= i < |kept[1..] + rest| ==> (kept[1..] + rest)[i] == (kept + rest)[i + 1];
      }
      WithoutMiddle(kept[1..], rest);
    }
  }

  /** What is left of the owner list after `for owner in owners: owner.removeConference(self)`. */
  function Survivors<T(==)>(owners: seq<T>, listing: set<T>): (r: seq<T>)
    ensures |r| <= |owners|
  {
    if owners == [] then []
    else if owners[0] !in listing then [owners[0]] + Survivors(owners[1..], listing)
    // the removal shifts the list under the iteration, which then skips one
    else if |owners| == 1 then []
    else [owners[1]] + Survivors(owners[2..], listing)
  }

  /** Of owners that all list the conference, every second one survives. */
  lemma {:induction false} EverySecondSurvives<T>(owners: seq<T>, listing: set<T>)
    requires forall i :: 0 <= i < |owners| ==> owners[i] in listing
    ensures |Survivors(owners, listing)| == |owners| / 2
    ensures forall i :: 0 <= i < |owners| / 2 ==> Survivors(owners, listing)[i] == owners[2 * i + 1]
    decreases |owners|
  {
    if |owners| >= 2 {
      EverySecondSurvives(owners[2..], listing);
    }
  }

  /** So the deletion unlinks the conference everywhere exactly when it has one owner at most. */
  lemma {:induction false} UnlinkedWithOneOwner<T>(owners: seq<T>, listing: set<T>)
    requires forall i :: 0 <= i < |owners| ==> owners[i] in listing
    ensures Survivors(owners, listing) == [] <==> |owners| <= 1
  {
    EverySecondSurvives(owners, listing);
  }

  lemma SecondOwnerSurvives<T>(a: T, b: T)
    ensures Survivors([a, b], {a, b}) == [b]
  {
    assert [a, b][2..] == [];
  }

  /**
    When a category deletes the conference out of its own list, that owner no
    longer lists it and is passed over by the loop: the conference is unlinked
    everywhere exactly when it has at most two owners and the category is the
    first, or at most three and it is the second.
   */
  lemma {:induction false} UnlinkedFromCategory<T>(owners: seq<T>, listing: set<T>, k: nat)
    requires Distinct(owners) && k < |owners| && forall i :: 0 <= i < |owners| ==> owners[i] in listing
    ensures WithoutFirst(Survivors(owners, listing - {owners[k]}), owners[k]) == [] <==>
              (k == 0 && |owners| <= 2) || (k == 1 && |owners| <= 3)
  {
    var rest := listing - {owners[k]};
    if k == 0 {
      EverySecondSurvives(owners[1..], rest);
      assert Survivors(owners, rest) == [owners[0]] + Survivors(owners[1..], rest);
      assert Survivors(owners, rest)[1..] == Survivors(owners[1..], rest);
    } else {
      assert Survivors(owners, rest) == [owners[1]] + Survivors(owners[2..], rest);
      if k == 1 {
        EverySecondSurvives(owners[2..], rest);
        assert Survivors(owners, rest)[1..] == Survivors(owners[2..], rest);
      }
    }
  }

  lemma RestAfter<T>(below: set<T>, before: set<T>, g: set<T>)
    requires before <= below && g <= below - before
    ensures before + g <= below && (below - before) - g == below - (before + g)
  {
  }

  lemma PutBack<T>(s: set<T>, x: T)
    requires x in s
    ensures s - {x} + {x} == s
  {
  }

  class Category {
    var owner: Option<Category>
    var subs: set<Category>           // subcategories
    var conferences: set<Conference>
    var num: int                      // _numConferences
    ghost var rank: nat               // grows down the tree

    constructor ()
      ensures owner == None && subs == {} && conferences == {} && num == 0 && rank == 0
    {
      owner, subs, conferences, num, rank := None, {}, {}, 0, 0;
    }

    // --------------------------------------------------------- snapshots

    // Fields of the categories of a set, as maps. Each map says nothing at all
    // about other categories, so that it cannot change when they do.

    ghost function OwnerIn(S: set<Category>): Option<Category>
      reads this`owner
    {
      if this in S then owner else None
    }

    ghost function RankIn(S: set<Category>): nat
      reads this`rank
    {
      if this in S then rank else 0
    }

    ghost function SubsIn(S: set<Category>): set<Category>
      reads this`subs
    {
      if this in S then subs else {}
    }

    ghost function ConferencesIn(S: set<Category>): set<Conference>
      reads this`conferences
    {
      if this in S then conferences else {}
    }

    ghost function NumIn(S: set<Category>): int
      reads this`num
    {
      if this in S then num else 0
    }

    static ghost function ParentsOf(S: set<Category>): Ups<Category>
      reads S`owner
    {
      map c | c in S :: c.OwnerIn(S)
    }

    static ghost function RanksOf(S: set<Category>): Ranks<Category>
      reads S`rank
    {
      map c | c in S :: c.RankIn(S)
    }

    static ghost function SubsOf(S: set<Category>): map<Category, set<Category>>
      reads S`subs
    {
      map c | c in S :: c.SubsIn(S)
    }

    static ghost function ListsOf(S: set<Category>): Lists<Category, Conference>
      reads S`conferences
    {
      map c | c in S :: c.ConferencesIn(S)
    }

    static ghost function CountersOf(S: set<Category>): map<Category, int>
      reads S`num
    {
      map c | c in S :: c.NumIn(S)
    }

    static ghost function BooksOf(S: set<Category>, F: set<Conference>): Books<Category, Conference>
      reads S`owner, S`subs, S`conferences, S`num, F`owners
    {
      Books(ParentsOf(S), SubsOf(S), ListsOf(S), CountersOf(S), OwnersOf(F))
    }

    static ghost predicate Good(S: set<Category>)
      reads S`owner, S`rank
    {
      Ranked(ParentsOf(S), RanksOf(S))
    }

    // ---------------------------------------------------------- counters

    /** `_incNumConfs`, and `_decNumConfs` with a negative number. */
    method IncNumConfs(k: int, ghost S: set<Category>)
      requires this in S && Good(S)
      modifies S`num
      ensures CountersOf(S) == Raised(ParentsOf(S), RanksOf(S), old(CountersOf(S)), this, k)
      decreases rank
    {
      Climb(k, S);
    }

    method Climb(k: int, ghost S: set<Category>)
      requires this in S && Good(S)
      modifies S`num
      ensures forall a :: a in S ==>
                a.num == if At(ParentsOf(S), RanksOf(S), this, a) then old(a.num) + k else old(a.num)
      decreases rank
    {
      ghost var o := Up(ParentsOf(S), RanksOf(S), this);
      num := num + k;
      if owner.Some? {
        if this in Above(ParentsOf(S), RanksOf(S), o.value) {
          AboveRanks(ParentsOf(S), RanksOf(S), o.value, this);
        }
        owner.value.Climb(k, S);
      }
    }

    // ------------------------------------- links with conferences

    /** `removeConference(conf)`: this side first, then the conference's, then the counters. */
    method RemoveConference(f: Conference, ghost S: set<Category>)
      requires this in S && Good(S)
      modifies f`owners, this`conferences, S`num
      ensures f.owners == if f in old(conferences) then WithoutFirst(old(f.owners), this) else old(f.owners)
      ensures conferences == old(conferences) - {f}
      ensures CountersOf(S) ==
                if f in old(conferences) then Raised(ParentsOf(S), RanksOf(S), old(CountersOf(S)), this, -1)
                else old(CountersOf(S))
      decreases |f.owners| + (if f in conferences then 1 else 0), 1
    {
      if f in conferences {
        TakeOff(f, S);
        IncNumConfs(-1, S);
      }
    }

    method TakeOff(f: Conference, ghost S: set<Category>)
      requires this in S && Good(S) && f in conferences
      modifies f`owners, this`conferences, S`num
      ensures f.owners == WithoutFirst(old(f.owners), this) && conferences == old(conferences) - {f}
      ensures CountersOf(S) == old(CountersOf(S))
      decreases |f.owners| + (if f in conferences then 1 else 0), 0
    {
      conferences := conferences - {f};
      f.RemoveOwner(this, S);
    }

    /** How far each counter of `S` is from the truth. */
    static ghost function Drifts(S: set<Category>): map<Category, int>
      requires Good(S)
      reads S`owner, S`rank, S`conferences, S`num
    {
      DriftMap(ParentsOf(S), RanksOf(S), ListsOf(S), CountersOf(S))
    }

    static ghost function Listing(f: Conference, S: set<Category>): (l: set<Category>)
      reads S`conferences
    {
      set c | c in S && f in c.conferences
    }

    method RemoveKeepingDrift(f: Conference, ghost S: set<Category>)
      requires this in S && Good(S) && Distinct(f.owners)
      modifies f`owners, this`conferences, S`num
      ensures f.owners == if f in old(conferences) then WithoutFirst(old(f.owners), this) else old(f.owners)
      ensures ListsOf(S) == old(ListsOf(S))[this := old(conferences) - {f}]
      ensures Drifts(S) == old(Drifts(S))
    {
      if f in conferences {
        UnlistingKeepsDrifts(ParentsOf(S), RanksOf(S), ListsOf(S), CountersOf(S), this, f);
      }
      ghost var co: Lists<Category, Conference> := ListsOf(S);
      RemoveConference(f, S);
      assert ListsOf(S) == co[this := co[this] - {f}];
      assert f !in old(conferences) ==> co[this] - {f} == co[this] && ListsOf(S) == co;
    }

    /** Of `all` the owners, `gone` have let `f` go. */
    static ghost predicate Released(f: Conference, all: seq<Category>, gone: set<Category>,
                                    confs: Lists<Category, Conference>,
                                    listing: set<Category>, S: set<Category>)
      reads f`owners, S`conferences
    {
      Distinct(f.owners) && Partition(all, f.owners, gone) && gone <= listing && Left(confs, ListsOf(S), f, gone)
    }

    /** One turn of the loop in `Conference.delete`. */
    method LetGo(f: Conference, ghost all: seq<Category>, ghost before: set<Category>,
                 ghost confs: Lists<Category, Conference>,
                 ghost listing: set<Category>, ghost S: set<Category>)
      returns (ghost gone: set<Category>)
      requires this in S && Good(S) && this in f.owners && Released(f, all, before, confs, listing, S)
      requires this in listing <==> this in confs && f in confs[this]
      modifies f`owners, this`conferences, S`num
      ensures f.owners == if this in listing then WithoutFirst(old(f.owners), this) else old(f.owners)
      ensures Released(f, all, gone, confs, listing, S)
      ensures Drifts(S) == old(Drifts(S))
    {
      LeftOneMore(confs, ListsOf(S), f, before, this);
      LeftBounds(confs, ListsOf(S), f, before);
      PartitionStep(all, f.owners, before, this);
      assert conferences == ListsOf(S)[this];
      gone := if f in conferences then before + {this} else before;
      RemoveKeepingDrift(f, S);
    }

    static ghost function OwnersOf(F: set<Conference>): map<Conference, seq<Category>>
      reads F`owners
    {
      map f | f in F :: f.OwnersIn(F)
    }

    /** Counters exact, links coherent, no category with both kinds of content, and all events registered. */
    static ghost predicate Valid(S: set<Category>, F: set<Conference>)
      reads S, F
    {
      && Registry(ParentsOf(S), RanksOf(S), SubsOf(S), ListsOf(S), CountersOf(S), OwnersOf(F))
      && forall f :: f in F ==> f.registered
    }

    /** No conference has two owners, as long as no stale form moves one (see `MoveConference`). */
    static ghost predicate SoleOwners(F: set<Conference>)
      reads F`owners
    {
      forall f :: f in F ==> |f.owners| <= 1
    }

    /** `_addConference`; refused where there are subcategories or the conference has no id. */
    method AddConference(f: Conference, ghost S: set<Category>) returns (ok: bool)
      requires this in S && Good(S)
      modifies f`owners, this`conferences, S`num
      ensures ok <==> subs == {} && f.registered
      ensures if ok then
                && conferences == old(conferences) + {f} && f.owners == old(f.owners) + [this]
                && CountersOf(S) == Raised(ParentsOf(S), RanksOf(S), old(CountersOf(S)), this, 1)
              else conferences == old(conferences) && f.owners == old(f.owners) && CountersOf(S) == old(CountersOf(S))
    {
      if subs != {} || !f.registered {
        return false;
      }
      conferences := conferences + {f};
      f.owners := f.owners + [this];
      IncNumConfs(1, S);
      return true;
    }

    /** Nothing yet: the first category is made by `NewCategory` from here. */
    static lemma Beginning()
      ensures Valid({}, {})
    {
      EmptyRegistry<Category, Conference>();
      assert ParentsOf({}) == map[] && RanksOf({}) == map[] && SubsOf({}) == map[] && ListsOf({}) == map[]
             && CountersOf({}) == map[] && OwnersOf({}) == map[];
    }

    /** `newConference`: the event is registered before the category can refuse it. */
    method NewConference(ghost S: set<Category>, ghost F: set<Conference>) returns (f: Conference, ok: bool)
      requires this in S && Valid(S, F)
      modifies this`conferences, S`num
      ensures fresh(f) && Valid(S, F + {f}) && (ok <==> subs == {})
      ensures old(SoleOwners(F)) ==> SoleOwners(F + {f})
      ensures conferences == if ok then old(conferences) + {f} else old(conferences)
      ensures f.owners == if ok then [this] else []
      ensures CountersOf(S) ==
                if ok then Raised(ParentsOf(S), RanksOf(S), old(CountersOf(S)), this, 1) else old(CountersOf(S))
    {
      f := RegisterConference(S, F);
      ok := List(f, S, F + {f});
    }

    static method RegisterConference(ghost S: set<Category>, ghost F: set<Conference>) returns (f: Conference)
      requires Valid(S, F)
      ensures fresh(f) && f.registered && f.owners == [] && Valid(S, F + {f})
      ensures forall c :: c in S ==> f !in c.conferences
    {
      ghost var ow: map<Conference, seq<Category>> := OwnersOf(F);
      f := new Conference(true);
      NewConferenceKeepsRegistry(ParentsOf(S), RanksOf(S), SubsOf(S), ListsOf(S), CountersOf(S), ow, f);
      assert OwnersOf(F + {f}) == ow[f := []];
      assert forall c :: c in S ==> ListsOf(S)[c] == c.conferences;
    }

    method Unlist(f: Conference, ghost S: set<Category>, ghost F: set<Conference>)
      requires this in S && f in F && Good(S)
      modifies f`owners, this`conferences, S`num
      ensures old(Valid(S, F)) ==> Valid(S, F)
      ensures conferences == old(conferences) - {f}
      ensures f.owners == if f in old(conferences) then WithoutFirst(old(f.owners), this) else old(f.owners)
    {
      ghost var valid := Valid(S, F);
      assert ListsOf(S)[this] == conferences;
      assert f !in conferences ==> conferences - {f} == conferences && ListsOf(S)[this := conferences] == ListsOf(S);
      if valid && f in conferences {
        UnlistingKeepsRegistry(ParentsOf(S), RanksOf(S), SubsOf(S), ListsOf(S), CountersOf(S), OwnersOf(F), this, f);
      }
      UnlistAsMaps(f, S, F);
    }

    method UnlistAsMaps(f: Conference, ghost S: set<Category>, ghost F: set<Conference>)
      requires this in S && f in F && Good(S)
      modifies f`owners, this`conferences, S`num
      ensures conferences == old(conferences) - {f}
      ensures f.owners == if f in old(conferences) then WithoutFirst(old(f.owners), this) else old(f.owners)
      ensures ListsOf(S) == old(ListsOf(S))[this := old(ListsOf(S)[this]) - {f}]
      ensures OwnersOf(F) == if f in old(conferences)
                             then old(OwnersOf(F))[f := WithoutFirst(old(OwnersOf(F)[f]), this)] else old(OwnersOf(F))
      ensures CountersOf(S) == if f in old(conferences)
                               then Raised(ParentsOf(S), RanksOf(S), old(CountersOf(S)), this, -1)
                               else old(CountersOf(S))
    {
      RemoveConference(f, S);
    }

    /** `_addConference` of an event that is held. It breaks the registry exactly if the event is listed already. */
    method List(f: Conference, ghost S: set<Category>, ghost F: set<Conference>) returns (ok: bool)
      requires this in S && f in F && Good(S)
      modifies f`owners, this`conferences, S`num
      ensures ok <==> subs == {} && f.registered
      ensures old(Valid(S, F)) ==> (Valid(S, F) <==> !ok || f !in old(conferences))
      ensures f.owners == if ok then old(f.owners) + [this] else old(f.owners)
      ensures conferences == if ok then old(conferences) + {f} else old(conferences)
      ensures CountersOf(S) == if ok then Raised(ParentsOf(S), RanksOf(S), old(CountersOf(S)), this, 1)
                               else old(CountersOf(S))
    {
      ghost var valid := Valid(S, F);
      assert SubsOf(S)[this] == subs && ListsOf(S)[this] == conferences;
      if valid && subs == {} {
        ListingKeepsRegistryIff(ParentsOf(S), RanksOf(S), SubsOf(S), ListsOf(S), CountersOf(S), OwnersOf(F), this, f);
      }
      ok := ListAsMaps(f, S, F);
    }

    method ListAsMaps(f: Conference, ghost S: set<Category>, ghost F: set<Conference>) returns (ok: bool)
      requires this in S && f in F && Good(S)
      modifies f`owners, this`conferences, S`num
      ensures ok <==> subs == {} && f.registered
      ensures f.owners == if ok then old(f.owners) + [this] else old(f.owners)
      ensures conferences == if ok then old(conferences) + {f} else old(conferences)
      ensures ListsOf(S) == if ok then old(ListsOf(S))[this := old(ListsOf(S)[this]) + {f}] else old(ListsOf(S))
      ensures OwnersOf(F) == if ok then old(OwnersOf(F))[f := old(OwnersOf(F)[f]) + [this]] else old(OwnersOf(F))
      ensures CountersOf(S) == if ok then Raised(ParentsOf(S), RanksOf(S), old(CountersOf(S)), this, 1)
                               else old(CountersOf(S))
    {
      ok := AddConference(f, S);
    }

    /**
      `moveConference`: out of this list, if it is there, and into that of `to`.
      When `to` refuses it the conference has already left. One that `to` lists
      already becomes its conference twice over, and that alone breaks the
      registry. One that is listed elsewhere but not here gets a second owner,
      and no other request of the application does that.
     */
    method MoveConference(f: Conference, to: Category, ghost S: set<Category>, ghost F: set<Conference>)
      returns (ok: bool)
      requires this in S && to in S && f in F && Good(S)
      modifies f`owners, this`conferences, to`conferences, S`num
      ensures ok <==> to.subs == {} && f.registered
      ensures f.owners == (if f in old(conferences) then WithoutFirst(old(f.owners), this) else old(f.owners))
                          + if ok then [to] else []
      ensures to != this ==> conferences == old(conferences) - {f}
      ensures to.conferences == old(to.conferences) - (if to == this then {f} else {}) + if ok then {f} else {}
      ensures old(Valid(S, F)) ==> (Valid(S, F) <==> !ok || to == this || f !in old(to.conferences))
      ensures old(Valid(S, F) && SoleOwners(F)) ==>
                (SoleOwners(F) <==> !ok || f in old(conferences) || old(f.owners) == [])
    {
      if Valid(S, F) {
        ListedIsLinked(S, F);
      }
      Unlist(f, S, F);
      ok := to.List(f, S, F);
    }

    // -------------------------------------------------- subcategories

    /** `_removeSubCategory`: the counters first, then both sides of the link; nothing happens to a stranger. */
    method RemoveSubCategory(sc: Category, ghost S: set<Category>, ghost F: set<Conference>)
      requires this in S && sc in S && Valid(S, F)
      modifies this`subs, sc`owner, S`num
      ensures Valid(S, F)
      ensures var b := old(BooksOf(S, F));
              BooksOf(S, F) == if sc in old(subs) then CutOff(b, RanksOf(S), this, sc) else b
      ensures subs == old(subs) - {sc} && sc.owner == if sc in old(subs) then None else old(sc.owner)
    {
      if sc in subs {
        CutKnown(sc, S, F);
        assert SubsOf(S)[this] == subs && ParentsOf(S)[sc] == sc.owner;
      }
    }

    method CutKnown(sc: Category, ghost S: set<Category>, ghost F: set<Conference>)
      requires this in S && sc in subs && Valid(S, F)
      modifies this`subs, sc`owner, S`num
      ensures Valid(S, F) && sc in S
      ensures BooksOf(S, F) == CutOff(old(BooksOf(S, F)), RanksOf(S), this, sc)
    {
      assert SubsOf(S)[this] == subs;
      SubIsKnown(ParentsOf(S), SubsOf(S), this, sc);
      CuttingKeepsForest(ParentsOf(S), RanksOf(S), SubsOf(S), ListsOf(S), CountersOf(S), this, sc);
      CutAsBooks(sc, S, F);
    }

    method CutAsBooks(sc: Category, ghost S: set<Category>, ghost F: set<Conference>)
      requires this in S && sc in S && Good(S)
      modifies this`subs, sc`owner, S`num
      ensures BooksOf(S, F) == CutOff(old(BooksOf(S, F)), RanksOf(S), this, sc)
    {
      ghost var co: Lists<Category, Conference>, ow: map<Conference, seq<Category>> := ListsOf(S), OwnersOf(F);
      CutAsMaps(sc, S);
      assert ListsOf(S) == co && OwnersOf(F) == ow;
    }

    method CutAsMaps(sc: Category, ghost S: set<Category>)
      requires this in S && sc in S && Good(S)
      modifies this`subs, sc`owner, S`num
      ensures ParentsOf(S) == old(ParentsOf(S))[sc := None]
      ensures SubsOf(S) == old(SubsOf(S))[this := old(SubsOf(S)[this]) - {sc}]
      ensures CountersOf(S) == Raised(old(ParentsOf(S)), RanksOf(S), old(CountersOf(S)), this, -old(CountersOf(S)[sc]))
    {
      assert CountersOf(S)[sc] == sc.num;
      IncNumConfs(-sc.num, S);
      Cut(sc, S);
    }

    method Cut(sc: Category, ghost S: set<Category>)
      requires this in S && sc in S
      modifies this`subs, sc`owner
      ensures ParentsOf(S) == old(ParentsOf(S))[sc := None]
      ensures SubsOf(S) == old(SubsOf(S))[this := old(SubsOf(S)[this]) - {sc}]
    {
      subs := subs - {sc};
      sc.owner := None;
    }

    /** Last part of `_addSubCategory`: the links, then the counters. */
    method Hang(sc: Category, ghost S: set<Category>, ghost F: set<Conference>)
      requires this in S && sc in S && sc.owner == None && conferences == {} && Good(S)
      requires !At(ParentsOf(S), RanksOf(S), this, sc)
      modifies this`subs, sc`owner, S`num, S`rank
      ensures Good(S) && (old(Valid(S, F)) ==> Valid(S, F))
      ensures ParentsOf(S) == old(ParentsOf(S))[sc := Some(this)]
      ensures SubsOf(S) == old(SubsOf(S))[this := old(subs) + {sc}]
      ensures CountersOf(S) == Raised(old(ParentsOf(S)), old(RanksOf(S)), old(CountersOf(S)), this, old(sc.num))
    {
      if Valid(S, F) {
        HangingKeepsForest(ParentsOf(S), RanksOf(S), SubsOf(S), ListsOf(S), CountersOf(S), this, sc);
      }
      HangAsMaps(sc, S);
    }

    method HangAsMaps(sc: Category, ghost S: set<Category>)
      requires this in S && sc in S && sc.owner == None && Good(S) && !At(ParentsOf(S), RanksOf(S), this, sc)
      modifies this`subs, sc`owner, S`num, S`rank
      ensures ParentsOf(S) == old(ParentsOf(S))[sc := Some(this)]
      ensures SubsOf(S) == old(SubsOf(S))[this := old(subs) + {sc}]
      ensures Good(S) && RanksOf(S) == Lifted(old(ParentsOf(S)), old(RanksOf(S)), sc, this)
      ensures CountersOf(S) == Raised(old(ParentsOf(S)), old(RanksOf(S)), old(CountersOf(S)), this, old(sc.num))
    {
      RaisedAfterHanging(ParentsOf(S), RanksOf(S), CountersOf(S), sc, this, sc.num);
      Link(sc, S);
      IncNumConfs(sc.num, S);
    }

    method Link(sc: Category, ghost S: set<Category>)
      requires this in S && sc in S && Good(S)
      modifies this`subs, sc`owner, S`rank
      ensures ParentsOf(S) == old(ParentsOf(S))[sc := Some(this)]
      ensures SubsOf(S) == old(SubsOf(S))[this := old(subs) + {sc}]
      ensures RanksOf(S) == Lifted(old(ParentsOf(S)), old(RanksOf(S)), sc, this)
    {
      Lift(sc, S);
      WriteLink(sc, S);
    }

    method WriteLink(sc: Category, ghost S: set<Category>)
      requires this in S && sc in S
      modifies this`subs, sc`owner
      ensures ParentsOf(S) == old(ParentsOf(S))[sc := Some(this)]
      ensures SubsOf(S) == old(SubsOf(S))[this := old(subs) + {sc}]
    {
      sc.owner := Some(this);
      subs := subs + {sc};
    }

    ghost method Lift(sc: Category, S: set<Category>)
      requires this in S && sc in S && Good(S)
      modifies S`rank
      ensures RanksOf(S) == Lifted(ParentsOf(S), old(RanksOf(S)), sc, this)
    {
      var up: Ups<Category>, rk: Ranks<Category> := ParentsOf(S), RanksOf(S);
      var r := rank;
      forall x | x in S {
        x.rank := if At(up, rk, x, sc) then rk[x] + r + 1 else rk[x];
      }
    }

    /** Some conference has the same owner twice. */
    static ghost predicate Doubled(F: set<Conference>)
      reads F`owners
    {
      exists f :: f in F && !Distinct(f.owners)
    }

    static lemma DoubledIsInvalid(S: set<Category>, F: set<Conference>)
      requires Doubled(F)
      ensures !Valid(S, F)
    {
      var f :| f in F && !Distinct(f.owners);
      assert OwnersOf(F)[f] == f.owners;
      assert !OwnersKnown(ListsOf(S), OwnersOf(F), f);
    }

    /** What is listed is known and linked back; it is listed beside no subcategories. */
    lemma ListedIsLinked(S: set<Category>, F: set<Conference>)
      requires this in S && Valid(S, F)
      ensures conferences <= F && (subs == {} || conferences == {})
      ensures forall f :: f in conferences ==> f.registered && Distinct(f.owners)
      ensures forall f :: f in F ==> (f in conferences <==> this in f.owners)
    {
      assert ListKnown(ListsOf(S), OwnersOf(F), this) && Either(SubsOf(S), ListsOf(S), this);
      assert ListsOf(S)[this] == conferences && SubsOf(S)[this] == subs;
      forall f | f in F ensures Distinct(f.owners) && (f in conferences <==> this in f.owners) {
        assert OwnersKnown(ListsOf(S), OwnersOf(F), f) && ConfLinked(ListsOf(S), OwnersOf(F), this, f);
        assert OwnersOf(F)[f] == f.owners;
      }
    }

    /** First part of `_addSubCategory`: the conferences move down, one by one. */
    method EmptyInto(sc: Category, ghost S: set<Category>, ghost F: set<Conference>) returns (ok: bool)
      requires this in S && sc in S && sc != this && Valid(S, F)
      modifies F`owners, this`conferences, sc`conferences, S`num
      ensures ok <==> old(conferences) == {} || sc.subs == {}
      ensures if old(conferences) * old(sc.conferences) == {} then Valid(S, F) else ok && Doubled(F)
      ensures ok ==> conferences == {} && sc.conferences == old(sc.conferences) + old(conferences)
      ensures !ok ==> sc.conferences == old(sc.conferences) && conferences < old(conferences)
      ensures old(SoleOwners(F)) ==> SoleOwners(F)
    {
      ghost var all, theirs, moved := conferences, sc.conferences, {};
      ListedIsLinked(S, F);
      sc.ListedIsLinked(S, F);
      while conferences != {}
        invariant Halfway(moved, all, theirs, sc, S, F) && (old(SoleOwners(F)) ==> SoleOwners(F))
        decreases conferences
      {
        var f :| f in conferences;
        ok := MoveNext(f, moved, all, theirs, sc, S, F);
        if !ok {
          return;
        }
        moved := moved + {f};
      }
      ok := true;
    }

    /** Of `all` the conferences here, `moved` are in `sc` now. Those it listed before have it as owner twice. */
    ghost predicate Halfway(moved: set<Conference>, all: set<Conference>, theirs: set<Conference>, sc: Category,
                            S: set<Category>, F: set<Conference>)
      reads this, sc, S, F
    {
      && moved <= all && conferences == all - moved && sc.conferences == theirs + moved
      && (sc.subs != {} ==> moved == theirs == {})
      && (if moved * theirs == {} then Valid(S, F) else Good(S) && Doubled(F))
      && forall f :: f in conferences ==>
           f in F && f.registered && Distinct(f.owners) && this in f.owners && (f in theirs ==> sc in f.owners)
    }

    method MoveNext(f: Conference, ghost moved: set<Conference>, ghost all: set<Conference>,
                    ghost theirs: set<Conference>, sc: Category, ghost S: set<Category>, ghost F: set<Conference>)
      returns (ok: bool)
      requires this in S && sc in S && sc != this && f in conferences && Halfway(moved, all, theirs, sc, S, F)
      modifies f`owners, this`conferences, sc`conferences, S`num
      ensures (ok <==> sc.subs == {}) && conferences == old(conferences) - {f}
      ensures if ok then Halfway(moved + {f}, all, theirs, sc, S, F)
              else Valid(S, F) && sc.conferences == old(sc.conferences)
      ensures old(SoleOwners(F)) ==> SoleOwners(F)
    {
      ok := MoveDown(f, sc, S, F);
      assert f in theirs ==> f in (moved + {f}) * theirs;
      assert f !in theirs ==> (moved + {f}) * theirs == moved * theirs;
    }

    /** An owner that was doubled before stays so. */
    method MoveDown(f: Conference, sc: Category, ghost S: set<Category>, ghost F: set<Conference>) returns (ok: bool)
      requires this in S && sc in S && sc != this && Good(S) && f in F && f.registered
      requires f in conferences && Distinct(f.owners) && this in f.owners
      modifies f`owners, this`conferences, sc`conferences, S`num
      ensures (ok <==> sc.subs == {}) && conferences == old(conferences) - {f}
      ensures sc.conferences == if ok then old(sc.conferences) + {f} else old(sc.conferences)
      ensures old(Valid(S, F)) && (!ok || f !in old(sc.conferences)) ==> Valid(S, F)
      ensures old(Doubled(F)) || (ok && sc in old(f.owners)) ==> Doubled(F)
      ensures old(SoleOwners(F)) ==> SoleOwners(F)
    {
      ghost var before := f.owners;
      ok := MoveConference(f, sc, S, F);
      if ok && sc in before {
        WithoutMember(before, this, sc);
        AppendedTwice(WithoutFirst(before, this), sc);
      }
    }

    method HandDown(sc: Category, ghost apart: bool, ghost S: set<Category>, ghost F: set<Conference>)
      returns (ok: bool)
      requires this in S && sc in S && sc != this && Valid(S, F) && (apart <==> conferences * sc.conferences == {})
      modifies F`owners, this`conferences, sc`conferences, S`num
      ensures (ok <==> old(conferences) == {} || sc.subs == {}) && (old(SoleOwners(F)) ==> SoleOwners(F))
      ensures if apart then Valid(S, F) else ok && Good(S) && !Valid(S, F) && Doubled(F)
      ensures ok ==> conferences == {} && sc.conferences == old(sc.conferences) + old(conferences)
      ensures ok ==> ListsOf(S) == HandedDown(old(ListsOf(S)), this, sc)
      ensures !ok ==> conferences < old(conferences)
    {
      ghost var co: Lists<Category, Conference> := ListsOf(S);
      assert co[this] == conferences && co[sc] == sc.conferences;
      ok := EmptyInto(sc, S, F);
      if ok {
        IsHandedDown(co, ListsOf(S), this, sc);
      }
      if Doubled(F) {
        DoubledIsInvalid(S, F);
      }
    }

    /** A conference that both list has two owners. */
    lemma NothingShared(sc: Category, S: set<Category>, F: set<Conference>)
      requires this in S && sc in S && sc != this && Valid(S, F) && SoleOwners(F)
      ensures conferences * sc.conferences == {}
    {
      ListedIsLinked(S, F);
      sc.ListedIsLinked(S, F);
      forall f | f in conferences ensures f !in sc.conferences {
        assert this in f.owners;
      }
    }

    /**
      `_addSubCategory`. A category that lists conferences hands them to its
      first subcategory. If `sc` has subcategories of its own it refuses the
      first conference, which is then listed nowhere here, and nothing is hung.
      A conference that both list is counted twice from then on: everything
      stays in order exactly when there is none.
     */
    method AddSubCategory(sc: Category, ghost S: set<Category>, ghost F: set<Conference>) returns (ok: bool)
      requires this in S && sc in S && sc.owner == None && Valid(S, F) && !At(ParentsOf(S), RanksOf(S), this, sc)
      modifies F`owners, this`conferences, sc`conferences, this`subs, sc`owner, S`num, S`rank
      ensures Valid(S, F) <==> old(conferences) * old(sc.conferences) == {}
      ensures (ok <==> old(conferences) == {} || sc.subs == {}) && sc.owner == if ok then Some(this) else None
      ensures ok ==>
                && ParentsOf(S) == old(ParentsOf(S))[sc := Some(this)]
                && SubsOf(S) == old(SubsOf(S))[this := old(SubsOf(S)[this]) + {sc}]
      ensures ok ==> conferences == {} && sc.conferences == old(sc.conferences) + old(conferences)
      // splitting moves no count: this category and its ancestors only gain what `sc` brought
      ensures ok && Valid(S, F) ==> SplitCounted(old(ParentsOf(S)), old(RanksOf(S)), old(CountersOf(S)), this, sc,
                                                 |old(conferences)|, CountersOf(S))
      ensures !ok ==> ParentsOf(S) == old(ParentsOf(S)) && SubsOf(S) == old(SubsOf(S)) && conferences < old(conferences)
      ensures old(SoleOwners(F)) ==> Valid(S, F) && SoleOwners(F)
    {
      ghost var apart := conferences * sc.conferences == {};
      if SoleOwners(F) {
        NothingShared(sc, S, F);
      }
      ok := Attach(sc, apart, S, F);
    }

    method Attach(sc: Category, ghost apart: bool, ghost S: set<Category>, ghost F: set<Conference>) returns (ok: bool)
      requires this in S && sc in S && sc.owner == None && Valid(S, F) && !At(ParentsOf(S), RanksOf(S), this, sc)
      requires apart <==> conferences * sc.conferences == {}
      modifies F`owners, this`conferences, sc`conferences, this`subs, sc`owner, S`num, S`rank
      ensures (Valid(S, F) <==> apart) && (old(SoleOwners(F)) ==> SoleOwners(F))
      ensures (ok <==> old(conferences) == {} || sc.subs == {}) && sc.owner == if ok then Some(this) else None
      ensures ok ==>
                && ParentsOf(S) == old(ParentsOf(S))[sc := Some(this)]
                && SubsOf(S) == old(SubsOf(S))[this := old(SubsOf(S)[this]) + {sc}]
      ensures ok ==> conferences == {} && sc.conferences == old(sc.conferences) + old(conferences)
      ensures ok && apart ==> SplitCounted(old(ParentsOf(S)), old(RanksOf(S)), old(CountersOf(S)), this, sc,
                                           |old(conferences)|, CountersOf(S))
      ensures !ok ==> ParentsOf(S) == old(ParentsOf(S)) && SubsOf(S) == old(SubsOf(S)) && conferences < old(conferences)
    {
      ghost var co: Lists<Category, Conference>, nu: map<Category, int> := ListsOf(S), CountersOf(S);
      assert co[this] == conferences && co[sc] == sc.conferences;
      ok := HandDown(sc, apart, S, F);
      if ok {
        HangSplit(sc, apart, co, nu, S, F);
        assert ParentsOf(S)[sc] == sc.owner;
      }
    }

    method HangSplit(sc: Category, ghost apart: bool, ghost co: Lists<Category, Conference>,
                     ghost nu: map<Category, int>, ghost S: set<Category>, ghost F: set<Conference>)
      requires this in S && sc in S && sc.owner == None && conferences == {} && Good(S)
      requires !At(ParentsOf(S), RanksOf(S), this, sc)
      requires AllExact(ParentsOf(S), RanksOf(S), co, nu) && ListsOf(S) == HandedDown(co, this, sc)
      requires if apart then Valid(S, F) && co[this] * co[sc] == {} else Doubled(F)
      modifies this`subs, sc`owner, S`num, S`rank
      ensures ParentsOf(S) == old(ParentsOf(S))[sc := Some(this)]
      ensures SubsOf(S) == old(SubsOf(S))[this := old(SubsOf(S)[this]) + {sc}]
      ensures Valid(S, F) <==> apart
      ensures apart ==> SplitCounted(old(ParentsOf(S)), old(RanksOf(S)), nu, this, sc, |co[this]|, CountersOf(S))
    {
      if apart {
        SplitIsCounted(ParentsOf(S), RanksOf(S), co, ListsOf(S), nu, CountersOf(S), this, sc);
      }
      assert CountersOf(S)[sc] == sc.num;
      Hang(sc, S, F);
      if !apart {
        DoubledIsInvalid(S, F);
      }
    }

    /** `move`: out of the old parent, into the new one. */
    method Move(newOwner: Category, ghost S: set<Category>, ghost F: set<Conference>) returns (ok: bool)
      requires this in S && newOwner in S && Valid(S, F) && owner.Some?
      requires !At(ParentsOf(S), RanksOf(S), newOwner, this)
      modifies F`owners, newOwner`conferences, this`conferences, S`subs, this`owner, S`num, S`rank
      ensures Valid(S, F) <==> old(newOwner.conferences) * old(conferences) == {}
      ensures old(SoleOwners(F)) ==> Valid(S, F) && SoleOwners(F)
      ensures ok <==> old(newOwner.conferences) == {} || subs == {}
      ensures owner == if ok then Some(newOwner) else None
      ensures ok ==> conferences == old(conferences) + old(newOwner.conferences) && newOwner.conferences == {}
    {
      Leave(newOwner, S, F);
      assert newOwner.conferences == old(newOwner.conferences) && conferences == old(conferences);
      assert old(SoleOwners(F)) ==> SoleOwners(F);
      ok := newOwner.AddSubCategory(this, S, F);
    }

    /** First half of a move. */
    method Leave(ghost n: Category, ghost S: set<Category>, ghost F: set<Conference>)
      requires this in S && n in S && Valid(S, F) && owner.Some? && !At(ParentsOf(S), RanksOf(S), n, this)
      modifies S`subs, this`owner, S`num
      ensures Valid(S, F) && owner == None && ParentsOf(S) == old(ParentsOf(S))[this := None]
      ensures !At(ParentsOf(S), RanksOf(S), n, this)
    {
      OwnerLists(ParentsOf(S), RanksOf(S), SubsOf(S), this);
      LooseNotAbove(ParentsOf(S), RanksOf(S), this, n);
      owner.value.RemoveSubCategory(this, S, F);
    }

    /**
      `setOwner`: a change from one owner to another is a move. Any other change
      writes this side of the link only, which is a step of hanging and cutting
      and leaves the links broken when made alone.
     */
    method SetOwner(newOwner: Option<Category>, ghost S: set<Category>, ghost F: set<Conference>) returns (ok: bool)
      requires this in S && Valid(S, F) && (newOwner.Some? ==> newOwner.value in S)
      requires owner.Some? && newOwner.Some? && newOwner != owner ==>
                 !At(ParentsOf(S), RanksOf(S), newOwner.value, this)
      modifies F`owners, S`conferences, S`subs, this`owner, S`num, S`rank
      ensures old(owner).Some? && newOwner.Some? && newOwner != old(owner) ==>
                && (Valid(S, F) <==> old(newOwner.value.conferences) * old(conferences) == {})
                && (old(SoleOwners(F)) ==> Valid(S, F) && SoleOwners(F))
                && (ok <==> old(newOwner.value.conferences) == {} || subs == {})
                && owner == if ok then newOwner else None
      ensures old(owner) == None || newOwner == None || newOwner == old(owner) ==>
                ok && owner == newOwner && (Valid(S, F) <==> newOwner == old(owner))
    {
      if owner.Some? && newOwner.Some? && newOwner != owner {
        ok := Move(newOwner.value, S, F);
      } else {
        ok := true;
        WriteOwner(newOwner, S, F);
      }
    }

    method WriteOwner(newOwner: Option<Category>, ghost S: set<Category>, ghost F: set<Conference>)
      requires this in S && Valid(S, F) && (owner.Some? && newOwner.Some? ==> newOwner == owner)
      modifies this`owner
      ensures owner == newOwner && (Valid(S, F) <==> newOwner == old(owner))
    {
      assert ParentsOf(S)[this] == owner;
      OwnerSideAlone(ParentsOf(S), RanksOf(S), SubsOf(S), ListsOf(S), CountersOf(S), OwnersOf(F), this, newOwner);
      SetField(newOwner, S);
    }

    method SetField(newOwner: Option<Category>, ghost S: set<Category>)
      requires this in S
      modifies this`owner
      ensures owner == newOwner && ParentsOf(S) == old(ParentsOf(S))[this := newOwner]
    {
      owner := newOwner;
    }

    /** `newSubCategory`, without its ordering. */
    method NewSubCategory(ghost S: set<Category>, ghost F: set<Conference>) returns (sc: Category)
      requires this in S && Valid(S, F)
      modifies F`owners, this`conferences, this`subs, S`num, S`rank
      ensures fresh(sc) && Valid(S + {sc}, F) && sc.owner == Some(this) && sc.subs == {}
      ensures sc.conferences == old(conferences) && conferences == {} && subs == old(subs) + {sc}
      ensures sc.num == |old(conferences)| && forall a :: a in S ==> a.num == old(a.num)
      ensures old(SoleOwners(F)) ==> SoleOwners(F)
    {
      sc := NewCategory(S, F);
      assert sc !in S && conferences == old(conferences) && (old(SoleOwners(F)) ==> SoleOwners(F));
      AddNewCategory(sc, S + {sc}, F);
    }

    /** With an empty category nothing can go wrong. */
    method AddAlone(sc: Category, ghost S: set<Category>, ghost F: set<Conference>)
      requires this in S && sc in S && sc.owner == None && Valid(S, F) && !At(ParentsOf(S), RanksOf(S), this, sc)
      requires sc.subs == {} && sc.conferences == {}
      modifies F`owners, this`conferences, sc`conferences, this`subs, sc`owner, S`num, S`rank
      ensures Valid(S, F) && (old(SoleOwners(F)) ==> SoleOwners(F))
      ensures sc.owner == Some(this) && subs == old(subs) + {sc} && sc.conferences == old(conferences)
      ensures conferences == {}
      ensures SplitCounted(old(ParentsOf(S)), old(RanksOf(S)), old(CountersOf(S)), this, sc, |old(conferences)|,
                           CountersOf(S))
    {
      assert SubsOf(S)[this] == subs;
      var ok := AddSubCategory(sc, S, F);
      assert ok && SubsOf(S)[this] == subs;
    }

    lemma CountersAre(nu: map<Category, int>, k: int, sc: Category, S: set<Category>)
      requires sc in S && nu.Keys == S && CountersOf(S) == nu[sc := k]
      ensures sc.num == k && forall a :: a in S && a != sc ==> a.num == nu[a]
    {
      assert forall a :: a in S ==> CountersOf(S)[a] == a.num;
    }

    method AddNewCategory(sc: Category, ghost S: set<Category>, ghost F: set<Conference>)
      requires this in S && sc in S && sc.owner == None && Valid(S, F) && !At(ParentsOf(S), RanksOf(S), this, sc)
      requires sc.subs == {} && sc.conferences == {} && sc.num == 0
      modifies F`owners, this`conferences, sc`conferences, this`subs, sc`owner, S`num, S`rank
      ensures Valid(S, F) && sc.num == |old(conferences)| && forall a :: a in S && a != sc ==> a.num == old(a.num)
      ensures sc.owner == Some(this) && subs == old(subs) + {sc} && sc.conferences == old(conferences)
      ensures conferences == {} && (old(SoleOwners(F)) ==> SoleOwners(F))
    {
      ghost var up: Ups<Category>, rk: Ranks<Category>, nu: map<Category, int>, k :=
        ParentsOf(S), RanksOf(S), CountersOf(S), |conferences|;
      CountersAre(nu, sc.num, sc, S);
      AddAlone(sc, S, F);
      SplitOffEmpty(up, rk, nu, this, sc, k, CountersOf(S));
      CountersAre(nu, k, sc, S);
    }

    static method NewCategory(ghost S: set<Category>, ghost F: set<Conference>) returns (sc: Category)
      requires Valid(S, F)
      ensures fresh(sc) && sc.owner == None && sc.subs == {} && sc.conferences == {} && sc.num == 0
      ensures Valid(S + {sc}, F) && forall x :: x in S ==> !At(ParentsOf(S + {sc}), RanksOf(S + {sc}), x, sc)
    {
      ghost var up: Ups<Category>, rk: Ranks<Category>, subs: map<Category, set<Category>> :=
        ParentsOf(S), RanksOf(S), SubsOf(S);
      ghost var confs: Lists<Category, Conference>, nu: map<Category, int>, ow: map<Conference, seq<Category>> :=
        ListsOf(S), CountersOf(S), OwnersOf(F);
      sc := new Category();
      AddingKeepsRegistry(up, rk, subs, confs, nu, ow, sc);
      assert ParentsOf(S + {sc}) == up[sc := None] && RanksOf(S + {sc}) == rk[sc := 0]
             && SubsOf(S + {sc}) == subs[sc := {}];
      assert ListsOf(S + {sc}) == confs[sc := {}] && CountersOf(S + {sc}) == nu[sc := 0] && OwnersOf(F) == ow;
    }

    // ------------------------------------------------------- deletion

    /** `removeConference(conf, delete=True)`: this category's side is already undone when the conference is deleted. */
    method RemoveAndDelete(f: Conference, ghost S: set<Category>, ghost F: set<Conference>)
      requires this in S && f in F && f in conferences && Valid(S, F)
      modifies f`owners, S`conferences, S`num
      ensures Valid(S, F)
      ensures f.owners == WithoutFirst(Survivors(old(f.owners), old(Listing(f, S)) - {this}), this)
      ensures conferences == old(conferences) - {f}
      ensures forall c :: c in S ==> old(c.conferences) - {f} <= c.conferences <= old(c.conferences)
      ensures old(SoleOwners(F)) ==> SoleOwners(F)
      // the conference is unlinked everywhere only with few owners, and this category early among them
      ensures this in old(f.owners)
      ensures forall k :: 0 <= k < |old(f.owners)| && old(f.owners)[k] == this ==>
                (f.owners == [] <==> (k == 0 && |old(f.owners)| <= 2) || (k == 1 && |old(f.owners)| <= 3))
    {
      ghost var all, listing := f.owners, Listing(f, S);
      AllOwnersList(f, S, F);
      RemoveDeleting(f, S, F);
      forall k: nat | k < |all| && all[k] == this
        ensures f.owners == [] <==> (k == 0 && |all| <= 2) || (k == 1 && |all| <= 3)
      {
        UnlinkedFromCategory(all, listing, k);
      }
      assert |f.owners| <= |all|;
    }

    method RemoveDeleting(f: Conference, ghost S: set<Category>, ghost F: set<Conference>)
      requires this in S && f in F && f in conferences && Valid(S, F)
      modifies f`owners, S`conferences, S`num
      ensures Valid(S, F)
      ensures f.owners == WithoutFirst(Survivors(old(f.owners), old(Listing(f, S)) - {this}), this)
      ensures conferences == old(conferences) - {f}
      ensures forall c :: c in S ==> old(c.conferences) - {f} <= c.conferences <= old(c.conferences)
    {
      ghost var confs: Lists<Category, Conference>, nu: map<Category, int>, ow: map<Conference, seq<Category>> :=
        ListsOf(S), CountersOf(S), OwnersOf(F);
      ghost var gone := DeleteFrom(f, S, F);
      LeavingKeepsRegistry(ParentsOf(S), RanksOf(S), SubsOf(S), confs, nu, ow, ListsOf(S), CountersOf(S), OwnersOf(F),
                           f, gone);
      LeftBounds(confs, ListsOf(S), f, gone);
      assert forall c :: c in S ==> ListsOf(S)[c] == c.conferences && c in confs;
    }

    lemma AllOwnersList(f: Conference, S: set<Category>, F: set<Conference>)
      requires this in S && f in F && f in conferences && Valid(S, F)
      ensures Distinct(f.owners) && this in f.owners && forall c :: c in f.owners ==> c in Listing(f, S)
    {
      assert OwnersKnown(ListsOf(S), OwnersOf(F), f) && ConfLinked(ListsOf(S), OwnersOf(F), this, f);
      forall c | c in f.owners ensures c in Listing(f, S) {
        assert ConfLinked(ListsOf(S), OwnersOf(F), c, f);
      }
    }

    method DeleteFrom(f: Conference, ghost S: set<Category>, ghost F: set<Conference>)
      returns (ghost gone: set<Category>)
      requires this in S && f in F && f in conferences && Valid(S, F)
      modifies f`owners, S`conferences, S`num
      ensures f.owners == WithoutFirst(Survivors(old(f.owners), old(Listing(f, S)) - {this}), this)
      ensures this in gone && TakenAway(old(f.owners), f.owners, gone)
      ensures Left(old(ListsOf(S)), ListsOf(S), f, gone) && Drifts(S) == old(Drifts(S))
    {
      assert OwnersKnown(ListsOf(S), OwnersOf(F), f) && ConfLinked(ListsOf(S), OwnersOf(F), this, f);
      gone := DeleteListed(f, S);
    }

    method DeleteListed(f: Conference, ghost S: set<Category>) returns (ghost gone: set<Category>)
      requires this in S && f in conferences && Good(S) && Distinct(f.owners) && forall c :: c in f.owners ==> c in S
      modifies f`owners, S`conferences, S`num
      ensures f.owners == WithoutFirst(Survivors(old(f.owners), old(Listing(f, S)) - {this}), this)
      ensures this in gone && TakenAway(old(f.owners), f.owners, gone)
      ensures Left(old(ListsOf(S)), ListsOf(S), f, gone) && Drifts(S) == old(Drifts(S))
    {
      gone := UnlinkUncounted(f, S);
      CatchUp(old(Drifts(S)), S);
    }

    method CatchUp(ghost drifts: map<Category, int>, ghost S: set<Category>)
      requires this in S && Good(S) && drifts.Keys == S
      requires Drifts(S) == Raised(ParentsOf(S), RanksOf(S), drifts, this, 1)
      modifies S`num
      ensures Drifts(S) == drifts
    {
      RaisedBack(ParentsOf(S), RanksOf(S), drifts, this, 1);
      Recount(-1, S);
    }

    method UnlinkUncounted(f: Conference, ghost S: set<Category>) returns (ghost gone: set<Category>)
      requires this in S && f in conferences && Good(S) && Distinct(f.owners) && forall c :: c in f.owners ==> c in S
      modifies f`owners, S`conferences, S`num
      ensures f.owners == WithoutFirst(Survivors(old(f.owners), old(Listing(f, S)) - {this}), this)
      ensures this in gone && TakenAway(old(f.owners), f.owners, gone)
      ensures Left(old(ListsOf(S)), ListsOf(S), f, gone)
      ensures Drifts(S) == Raised(ParentsOf(S), RanksOf(S), old(Drifts(S)), this, 1)
    {
      gone := DropUncounted(f, S);
      ghost var middle := f.owners;
      Forget(f, S);
      TakenAwayTwice(old(f.owners), middle, f.owners, gone, {this});
      gone := gone + {this};
    }

    /** The second half of the removal: this category no longer lists the conference. */
    method Forget(f: Conference, ghost S: set<Category>)
      requires this in S && Good(S) && Distinct(f.owners) && f !in conferences
      modifies f`owners, this`conferences, S`num
      ensures f.owners == WithoutFirst(old(f.owners), this)
      ensures TakenAway(old(f.owners), f.owners, {this})
      ensures ListsOf(S) == old(ListsOf(S)) && Drifts(S) == old(Drifts(S))
    {
      ghost var confs: Lists<Category, Conference> := ListsOf(S);
      WithoutDistinct(f.owners, this);
      f.RemoveOwner(this, S);
      assert confs[this] - {f} == confs[this];
      assert ListsOf(S) == confs;
    }

    method DropUncounted(f: Conference, ghost S: set<Category>) returns (ghost gone: set<Category>)
      requires this in S && f in conferences && Good(S) && Distinct(f.owners) && forall c :: c in f.owners ==> c in S
      modifies f`owners, S`conferences, S`num
      ensures f.owners == Survivors(old(f.owners), old(Listing(f, S)) - {this})
      ensures TakenAway(old(f.owners), f.owners, gone)
      ensures f !in conferences && Left(old(ListsOf(S)), ListsOf(S), f, gone + {this})
      ensures Drifts(S) == Raised(ParentsOf(S), RanksOf(S), old(Drifts(S)), this, 1)
    {
      ghost var confs: Lists<Category, Conference> := ListsOf(S);
      UncountedDrifts(ParentsOf(S), RanksOf(S), confs, CountersOf(S), this, f);
      TakeOut(f, S);
      ghost var less: Lists<Category, Conference> := ListsOf(S);
      gone := f.Delete(S);
      LeftAfterOne(confs, ListsOf(S), f, gone, this);
      assert ListsOf(S)[this] == conferences;
    }

    method TakeOut(f: Conference, ghost S: set<Category>)
      requires this in S && f in conferences
      modifies this`conferences
      ensures ListsOf(S) == old(ListsOf(S))[this := old(conferences) - {f}]
      ensures Listing(f, S) == old(Listing(f, S)) - {this}
    {
      conferences := conferences - {f};
    }

    method Recount(k: int, ghost S: set<Category>)
      requires this in S && Good(S)
      modifies S`num
      ensures Drifts(S) == Raised(ParentsOf(S), RanksOf(S), old(Drifts(S)), this, k)
    {
      RaisedDrifts(ParentsOf(S), RanksOf(S), ListsOf(S), CountersOf(S), this, k);
      IncNumConfs(k, S);
    }

    /** `delete(deleteConferences)`: the whole subtree goes. */
    method Delete(all: bool, ghost S: set<Category>, ghost F: set<Conference>)
      returns (r: Deletion, ghost gone: set<Category>)
      requires this in S && Valid(S, F)
      modifies F`owners, S`conferences, S`subs, S`owner, S`num
      ensures r == if old(owner) == None then RootCannotBeDeleted
                   else if !all && old(num) > 0 then StillHasConferences
                   else Deleted
      ensures Valid(S, F)
      ensures old(SoleOwners(F)) ==> SoleOwners(F)
      ensures r != Deleted ==> BooksOf(S, F) == old(BooksOf(S, F))
      ensures r == Deleted ==>
                && gone == old(Below(ParentsOf(S), RanksOf(S), this)) && old(owner.value) in S - gone
                && old(owner).value.subs == old(owner.value.subs) - {this}
                && Cascaded(old(BooksOf(S, F)), BooksOf(S, F), all, gone, old(owner.value))
      decreases Below(ParentsOf(S), RanksOf(S), this), 5
    {
      gone := {};
      if owner == None {
        return RootCannotBeDeleted, gone;
      }
      if !all && num > 0 {
        return StillHasConferences, gone;
      }
      r := Deleted;
      ghost var was := BooksOf(S, F);
      SoleInBooks(F);
      gone := DeleteSubtree(all, owner.value, S, F);
      SoleInBooks(F);
      FreedKeepsSole(was.owners, BooksOf(S, F).owners, ListedIn(was.confs, gone));
      if AtMostTwo(was.owners) {
        TwoOwnersUnlinked(was, BooksOf(S, F), all, gone);
      }
    }

    static lemma SoleInBooks(F: set<Conference>)
      ensures SoleOwners(F) <==> AllSole(OwnersOf(F))
    {
      assert forall f :: f in F ==> OwnersOf(F)[f] == f.owners;
    }

    method DeleteSubtree(all: bool, ghost o: Category, ghost S: set<Category>, ghost F: set<Conference>)
      returns (ghost gone: set<Category>)
      requires this in S && Valid(S, F) && (!all ==> num <= 0) && owner == Some(o)
      modifies F`owners, S`conferences, S`subs, S`owner, S`num
      ensures Valid(S, F) && gone == old(Below(ParentsOf(S), RanksOf(S), this))
      ensures o in S && o !in gone && o.subs == old(o.subs) - {this}
      ensures Pruned(old(BooksOf(S, F)), BooksOf(S, F), gone, o)
      ensures Thinned(old(BooksOf(S, F)), BooksOf(S, F), all, gone)
      decreases Below(ParentsOf(S), RanksOf(S), this), 4
    {
      OwnerIsOutside(ParentsOf(S), RanksOf(S), SubsOf(S), this);
      gone := DeleteContents(all, S, F);
      RetireTop(all, o, old(BooksOf(S, F)), old(Below(ParentsOf(S), RanksOf(S), this)), S, F);
      gone := old(Below(ParentsOf(S), RanksOf(S), this));
    }

    method RetireTop(ghost all: bool, ghost o: Category, ghost was: Books<Category, Conference>,
                     ghost below: set<Category>, ghost S: set<Category>, ghost F: set<Conference>)
      requires this in S && Valid(S, F) && subs == {} && conferences == {}
      requires this in was.up && was.up[this] == Some(o)
      requires o in S && o !in below && this in below
      requires Pruned(was, BooksOf(S, F), below - {this}, this)
      requires Thinned(was, BooksOf(S, F), all, below)
      modifies S`subs, this`owner, S`num
      ensures Valid(S, F) && o in was.subs && o.subs == was.subs[o] - {this}
      ensures Pruned(was, BooksOf(S, F), below, o)
      ensures Thinned(was, BooksOf(S, F), all, below)
    {
      ghost var b := BooksOf(S, F);
      assert b.up[this] == owner && b.subs[this] == subs && b.confs[this] == conferences && b.subs[o] == o.subs;
      PrunedTop(was, b, below - {this}, this, o);
      PutBack(below, this);
      Retire(S, F);
    }

    method DeleteContents(all: bool, ghost S: set<Category>, ghost F: set<Conference>)
      returns (ghost gone: set<Category>)
      requires this in S && Valid(S, F) && (!all ==> num <= 0)
      modifies F`owners, S`conferences, S`subs, S`owner, S`num
      ensures gone == old(Below(ParentsOf(S), RanksOf(S), this)) - {this} && Valid(S, F) && subs == {}
      ensures conferences == {}
      ensures Pruned(old(BooksOf(S, F)), BooksOf(S, F), gone, this)
      ensures Thinned(old(BooksOf(S, F)), BooksOf(S, F), all,
                      old(Below(ParentsOf(S), RanksOf(S), this)))
      decreases Below(ParentsOf(S), RanksOf(S), this), 3
    {
      ghost var was, below := BooksOf(S, F), Below(ParentsOf(S), RanksOf(S), this);
      gone := below - {this};
      DeleteSubs(all, was, below, S, F);
      DeleteOwnConferences(all, was, below, S, F);
    }

    method DeleteOwnConferences(all: bool, ghost was: Books<Category, Conference>, ghost below: set<Category>,
                                ghost S: set<Category>, ghost F: set<Conference>)
      requires this in S && Valid(S, F) && (!all ==> num <= 0) && this in below
      requires Pruned(was, BooksOf(S, F), below - {this}, this)
      requires Thinned(was, BooksOf(S, F), all, below - {this})
      modifies F`owners, S`conferences, S`num
      ensures Valid(S, F) && conferences == {}
      ensures Pruned(was, BooksOf(S, F), below - {this}, this)
      ensures Thinned(was, BooksOf(S, F), all, below)
    {
      ghost var middle := BooksOf(S, F);
      DeleteConferences(all, S, F);
      PrunedThinner(was, middle, BooksOf(S, F), below - {this}, this);
      ThinnedTwice(was, middle, BooksOf(S, F), all, below - {this}, {this});
      PutBack(below, this);
    }

    method DeleteSubs(all: bool, ghost was: Books<Category, Conference>, ghost below: set<Category>,
                      ghost S: set<Category>, ghost F: set<Conference>)
      requires this in S && Valid(S, F) && (!all ==> num <= 0)
      requires was == BooksOf(S, F) && below == Below(ParentsOf(S), RanksOf(S), this)
      modifies F`owners, S`conferences, S`subs, S`owner, S`num
      ensures Valid(S, F) && subs == {} && (!all ==> num <= 0) && this in below
      ensures Pruned(was, BooksOf(S, F), below - {this}, this) && Thinned(was, BooksOf(S, F), all, below - {this})
      decreases below, 2
    {
      ghost var gone := DeleteEachSub(all, S, F);
      BelowLeaf(ParentsOf(S), RanksOf(S), SubsOf(S), this);
      assert SubsOf(S)[this] == subs;
      assert gone == below - {this};
    }

    method DeleteEachSub(all: bool, ghost S: set<Category>, ghost F: set<Conference>)
      returns (ghost gone: set<Category>)
      requires this in S && Valid(S, F) && (!all ==> num <= 0)
      modifies F`owners, S`conferences, S`subs, S`owner, S`num
      ensures Valid(S, F) && subs == {} && (!all ==> num <= 0)
      ensures gone <= old(Below(ParentsOf(S), RanksOf(S), this))
      ensures Below(ParentsOf(S), RanksOf(S), this) == old(Below(ParentsOf(S), RanksOf(S), this)) - gone
      ensures Pruned(old(BooksOf(S, F)), BooksOf(S, F), gone, this)
      ensures Thinned(old(BooksOf(S, F)), BooksOf(S, F), all, gone)
      decreases Below(ParentsOf(S), RanksOf(S), this), 1
    {
      ghost var was, below := BooksOf(S, F), Below(ParentsOf(S), RanksOf(S), this);
      gone := {};
      while subs != {}
        invariant Valid(S, F) && gone <= below && this !in gone && (!all ==> num <= 0)
        invariant Below(ParentsOf(S), RanksOf(S), this) == below - gone
        invariant Pruned(was, BooksOf(S, F), gone, this)
        invariant Thinned(was, BooksOf(S, F), all, gone)
        decreases subs
      {
        var sub :| sub in subs;
        gone := DeleteNext(sub, all, was, below, gone, S, F);
      }
    }

    method DeleteNext(sub: Category, all: bool, ghost was: Books<Category, Conference>,
                      ghost below: set<Category>, ghost before: set<Category>,
                      ghost S: set<Category>, ghost F: set<Conference>)
      returns (ghost gone: set<Category>)
      requires this in S && Valid(S, F) && (!all ==> num <= 0) && sub in subs
      requires before <= below && this !in before && Below(ParentsOf(S), RanksOf(S), this) == below - before
      requires Pruned(was, BooksOf(S, F), before, this)
      requires Thinned(was, BooksOf(S, F), all, before)
      modifies F`owners, S`conferences, S`subs, S`owner, S`num
      ensures Valid(S, F) && subs == old(subs) - {sub} && (!all ==> num <= 0)
      ensures gone <= below && this !in gone && Below(ParentsOf(S), RanksOf(S), this) == below - gone
      ensures Pruned(was, BooksOf(S, F), gone, this)
      ensures Thinned(was, BooksOf(S, F), all, gone)
      decreases below - before, 0, 2
    {
      ghost var g := DeleteAfter(sub, all, was, before, S, F);
      gone := before + g;
      RestAfter(below, before, g);
    }

    method DeleteAfter(sub: Category, all: bool, ghost was: Books<Category, Conference>, ghost before: set<Category>,
                       ghost S: set<Category>, ghost F: set<Conference>)
      returns (ghost g: set<Category>)
      requires this in S && Valid(S, F) && (!all ==> num <= 0) && sub in subs && this !in before
      requires Pruned(was, BooksOf(S, F), before, this)
      requires Thinned(was, BooksOf(S, F), all, before)
      modifies F`owners, S`conferences, S`subs, S`owner, S`num
      ensures Valid(S, F) && subs == old(subs) - {sub} && (!all ==> num <= 0)
      ensures this !in g && g <= old(Below(ParentsOf(S), RanksOf(S), this))
      ensures Below(ParentsOf(S), RanksOf(S), this) == old(Below(ParentsOf(S), RanksOf(S), this)) - g
      ensures Pruned(was, BooksOf(S, F), before + g, this)
      ensures Thinned(was, BooksOf(S, F), all, before + g)
      decreases Below(ParentsOf(S), RanksOf(S), this), 0, 1
    {
      ghost var middle, below := BooksOf(S, F), Below(ParentsOf(S), RanksOf(S), this);
      g := DeleteSub(sub, all, middle, below, S, F);
      PrunedTwice(was, middle, BooksOf(S, F), before, g, this);
      ThinnedTwice(was, middle, BooksOf(S, F), all, before, g);
    }

    method DeleteSub(sub: Category, all: bool, ghost was: Books<Category, Conference>, ghost below: set<Category>,
                     ghost S: set<Category>, ghost F: set<Conference>)
      returns (ghost gone: set<Category>)
      requires this in S && Valid(S, F) && (!all ==> num <= 0) && sub in subs
      requires was == BooksOf(S, F) && below == Below(ParentsOf(S), RanksOf(S), this)
      modifies F`owners, S`conferences, S`subs, S`owner, S`num
      ensures Valid(S, F) && subs == old(subs) - {sub} && (!all ==> num <= 0)
      ensures this !in gone && gone <= below && Below(ParentsOf(S), RanksOf(S), this) == below - gone
      ensures Pruned(was, BooksOf(S, F), gone, this) && Thinned(was, BooksOf(S, F), all, gone)
      decreases below, 0, 0
    {
      CanBeDeleted(sub, all, S, F);
      assert was.num[this] == num;
      ghost var rk: Ranks<Category> := RanksOf(S);
      gone := DeleteChild(sub, all, was, rk, S, F);
      assert BooksOf(S, F).num[this] == num;
      PrunedBelow(was, BooksOf(S, F), rk, sub, this);
    }

    method DeleteChild(sub: Category, all: bool, ghost was: Books<Category, Conference>, ghost rk: Ranks<Category>,
                       ghost S: set<Category>, ghost F: set<Conference>)
      returns (ghost gone: set<Category>)
      requires this in S && Valid(S, F) && sub in S && sub.owner == Some(this) && (!all ==> sub.num <= 0)
      requires was == BooksOf(S, F) && rk == RanksOf(S)
      modifies F`owners, S`conferences, S`subs, S`owner, S`num
      ensures Valid(S, F) && subs == old(subs) - {sub} && Ranked(was.up, rk) && gone == Below(was.up, rk, sub)
      ensures RanksOf(S) == rk && Ranked(BooksOf(S, F).up, rk)
      ensures Pruned(was, BooksOf(S, F), gone, this) && Thinned(was, BooksOf(S, F), all, gone)
      decreases Below(ParentsOf(S), RanksOf(S), sub), 6
    {
      ghost var below := Below(was.up, rk, sub);
      var r;
      r, gone := sub.Delete(all, S, F);
      assert r == Deleted && gone == below && RanksOf(S) == rk;
    }

    /** If this category's counter is not above zero, neither is that of a subcategory. */
    lemma CanBeDeleted(sub: Category, all: bool, S: set<Category>, F: set<Conference>)
      requires this in S && Valid(S, F) && (!all ==> num <= 0) && sub in subs
      ensures sub in S && sub.owner == Some(this) && (!all ==> sub.num <= 0)
      ensures ParentsOf(S)[sub] == Some(this)
      ensures Below(ParentsOf(S), RanksOf(S), sub) < Below(ParentsOf(S), RanksOf(S), this)
      ensures this !in Below(ParentsOf(S), RanksOf(S), sub)
    {
      assert SubsOf(S)[this] == subs && CountersOf(S)[this] == num;
      SubIsKnown(ParentsOf(S), SubsOf(S), this, sub);
      BelowChild(ParentsOf(S), RanksOf(S), sub, this);
      assert CountersOf(S)[sub] == sub.num && ParentsOf(S)[sub] == sub.owner;
      if !all {
        EmptyParts(ParentsOf(S), RanksOf(S), SubsOf(S), ListsOf(S), CountersOf(S), this);
      }
    }

    method DeleteConferences(all: bool, ghost S: set<Category>, ghost F: set<Conference>)
      requires this in S && Valid(S, F) && (!all ==> num <= 0)
      modifies F`owners, S`conferences, S`num
      ensures Valid(S, F) && conferences == {}
      ensures Thinned(old(BooksOf(S, F)), BooksOf(S, F), all, {this})
      ensures BooksOf(S, F).up == old(BooksOf(S, F)).up && BooksOf(S, F).subs == old(BooksOf(S, F)).subs
    {
      if !all {
        EmptyParts(ParentsOf(S), RanksOf(S), SubsOf(S), ListsOf(S), CountersOf(S), this);
        assert ListsOf(S)[this] == conferences;
      }
      ghost var was := BooksOf(S, F);
      assert ListsOf(S)[this] == conferences;
      while conferences != {}
        invariant Valid(S, F) && ThinnedBut(was, BooksOf(S, F), conferences, this) && (!all ==> conferences == {})
        invariant !all ==> BooksOf(S, F) == was
        decreases conferences
      {
        var f :| f in conferences;
        RemoveNext(f, was, S, F);
      }
      AllRemoved(was, BooksOf(S, F), all, this);
    }

    method RemoveNext(f: Conference, ghost was: Books<Category, Conference>, ghost S: set<Category>,
                      ghost F: set<Conference>)
      requires this in S && Valid(S, F) && f in conferences && ThinnedBut(was, BooksOf(S, F), conferences, this)
      modifies F`owners, S`conferences, S`num
      ensures Valid(S, F) && conferences == old(conferences) - {f}
      ensures ThinnedBut(was, BooksOf(S, F), conferences, this)
    {
      ghost var middle := BooksOf(S, F);
      RemoveListed(f, S, F);
      OneMoreRemoved(was, middle, BooksOf(S, F), old(conferences), f, this);
    }

    method RemoveListed(f: Conference, ghost S: set<Category>, ghost F: set<Conference>)
      requires this in S && Valid(S, F) && f in conferences
      modifies F`owners, S`conferences, S`num
      ensures Valid(S, F) && conferences == old(conferences) - {f} && f in F
      ensures OneRemoved(old(BooksOf(S, F)), BooksOf(S, F), f)
    {
      assert f in F by {
        assert ListKnown(ListsOf(S), OwnersOf(F), this);
      }
      RemoveAndDelete(f, S, F);
    }

    /** Last part of `delete`: the emptied category has nothing to subtract from its ancestors. */
    method Retire(ghost S: set<Category>, ghost F: set<Conference>)
      requires this in S && Valid(S, F) && subs == {} && conferences == {} && owner.Some?
      modifies S`subs, this`owner, S`num
      ensures Valid(S, F) && old(owner.value) in S && old(owner).value.subs == old(owner.value.subs) - {this}
      ensures var b := old(BooksOf(S, F));
              BooksOf(S, F) == b.(up := b.up[this := None],
                                  subs := b.subs[old(owner.value) := old(owner.value.subs) - {this}])
    {
      OwnerLists(ParentsOf(S), RanksOf(S), SubsOf(S), this);
      NothingLeft(ParentsOf(S), RanksOf(S), SubsOf(S), ListsOf(S), CountersOf(S), this);
      ghost var o := owner.value;
      assert SubsOf(S)[o] == o.subs;
      owner.value.RemoveSubCategory(this, S, F);
      assert BooksOf(S, F).subs[o] == o.subs;
    }

    // ---------------------------------------------- the repair script

    /** Second phase, `check_event_number_consistency`: subcategories first, then this counter. */
    method CheckEventNumberConsistency(ghost S: set<Category>)
      requires this in S && Sound(ParentsOf(S), RanksOf(S), SubsOf(S), ListsOf(S))
      requires LeavesSettled(ParentsOf(S), ListsOf(S), CountersOf(S), Below(ParentsOf(S), RanksOf(S), this))
      modifies S`num
      ensures Mended(ParentsOf(S), RanksOf(S), SubsOf(S), ListsOf(S), old(CountersOf(S)), CountersOf(S),
                     Below(ParentsOf(S), RanksOf(S), this))
      decreases Below(ParentsOf(S), RanksOf(S), this), 1
    {
      CheckSubs(S);
      if conferences != {} {
        OwnListCounts(old(CountersOf(S)), S);
        return;
      }
      CountOwn(old(CountersOf(S)), S);
    }

    method CheckSubs(ghost S: set<Category>)
      requires this in S && Sound(ParentsOf(S), RanksOf(S), SubsOf(S), ListsOf(S))
      requires LeavesSettled(ParentsOf(S), ListsOf(S), CountersOf(S), Below(ParentsOf(S), RanksOf(S), this))
      modifies S`num
      ensures Mended(ParentsOf(S), RanksOf(S), SubsOf(S), ListsOf(S), old(CountersOf(S)), CountersOf(S),
                     Below(ParentsOf(S), RanksOf(S), this) - {this})
      decreases Below(ParentsOf(S), RanksOf(S), this), 0, 2
    {
      ghost var fixed, nu: map<Category, int> := {}, CountersOf(S);
      var rest := subs;
      while rest != {}
        invariant rest <= subs && MendedBut(rest, fixed, nu, S)
        decreases rest
      {
        var k :| k in rest;
        fixed := CheckNext(k, rest, fixed, nu, S);
        rest := rest - {k};
      }
      assert SubsOf(S)[this] == subs;
      BelowSubs(ParentsOf(S), RanksOf(S), SubsOf(S), this, fixed);
    }

    /** All subtrees but those of `rest` are done: their categories are `fixed`, with counters that are right. */
    ghost predicate MendedBut(rest: set<Category>, fixed: set<Category>, nu: map<Category, int>, S: set<Category>)
      requires this in S
      reads S, this`subs
    {
      && Sound(ParentsOf(S), RanksOf(S), SubsOf(S), ListsOf(S)) && nu.Keys == S
      && fixed <= Below(ParentsOf(S), RanksOf(S), this) - {this}
      && (forall k :: k in subs && k !in rest ==> Below(ParentsOf(S), RanksOf(S), k) <= fixed)
      && Mended(ParentsOf(S), RanksOf(S), SubsOf(S), ListsOf(S), nu, CountersOf(S), fixed)
    }

    method CheckNext(k: Category, ghost rest: set<Category>, ghost before: set<Category>, ghost nu: map<Category, int>,
                     ghost S: set<Category>)
      returns (ghost fixed: set<Category>)
      requires this in S && k in subs && MendedBut(rest, before, nu, S)
      requires LeavesSettled(ParentsOf(S), ListsOf(S), nu, Below(ParentsOf(S), RanksOf(S), this))
      modifies S`num
      ensures MendedBut(rest - {k}, fixed, nu, S)
      decreases Below(ParentsOf(S), RanksOf(S), this), 0, 1
    {
      CheckSub(k, before, nu, S);
      fixed := before + Below(ParentsOf(S), RanksOf(S), k);
    }

    /** `total` and what follows. */
    method CountOwn(ghost nu: map<Category, int>, ghost S: set<Category>)
      requires this in S && Sound(ParentsOf(S), RanksOf(S), SubsOf(S), ListsOf(S)) && conferences == {} && nu.Keys == S
      requires Mended(ParentsOf(S), RanksOf(S), SubsOf(S), ListsOf(S), nu, CountersOf(S),
                      Below(ParentsOf(S), RanksOf(S), this) - {this})
      modifies this`num
      ensures Mended(ParentsOf(S), RanksOf(S), SubsOf(S), ListsOf(S), nu, CountersOf(S),
                     Below(ParentsOf(S), RanksOf(S), this))
    {
      assert SubsOf(S)[this] == subs && ListsOf(S)[this] == conferences;
      SumSettles(ParentsOf(S), RanksOf(S), SubsOf(S), ListsOf(S), nu, CountersOf(S), this);
      SetTotal(S);
    }

    /** A list of its own was counted in the first phase. */
    lemma OwnListCounts(nu: map<Category, int>, S: set<Category>)
      requires this in S && Sound(ParentsOf(S), RanksOf(S), SubsOf(S), ListsOf(S)) && conferences != {} && nu.Keys == S
      requires LeavesSettled(ParentsOf(S), ListsOf(S), nu, Below(ParentsOf(S), RanksOf(S), this))
      requires Mended(ParentsOf(S), RanksOf(S), SubsOf(S), ListsOf(S), nu, CountersOf(S),
                      Below(ParentsOf(S), RanksOf(S), this) - {this})
      ensures Mended(ParentsOf(S), RanksOf(S), SubsOf(S), ListsOf(S), nu, CountersOf(S),
                     Below(ParentsOf(S), RanksOf(S), this))
    {
      assert ListsOf(S)[this] == conferences && this in Below(ParentsOf(S), RanksOf(S), this);
      assert Settled(ParentsOf(S), RanksOf(S), SubsOf(S), ListsOf(S), CountersOf(S), this);
    }

    method SetTotal(ghost S: set<Category>)
      requires this in S && subs <= S
      modifies this`num
      ensures CountersOf(S) == old(CountersOf(S))[this := Sum(old(CountersOf(S)), subs)]
    {
      var total := Total(S);
      if num != total {
        num := total;
      }
    }

    method CheckSub(k: Category, ghost fixed: set<Category>, ghost nu: map<Category, int>, ghost S: set<Category>)
      requires this in S && Sound(ParentsOf(S), RanksOf(S), SubsOf(S), ListsOf(S)) && k in subs && nu.Keys == S
      requires fixed <= Below(ParentsOf(S), RanksOf(S), this) - {this}
      requires Mended(ParentsOf(S), RanksOf(S), SubsOf(S), ListsOf(S), nu, CountersOf(S), fixed)
      requires LeavesSettled(ParentsOf(S), ListsOf(S), nu, Below(ParentsOf(S), RanksOf(S), this))
      modifies S`num
      ensures Below(ParentsOf(S), RanksOf(S), k) <= Below(ParentsOf(S), RanksOf(S), this) - {this}
      ensures Mended(ParentsOf(S), RanksOf(S), SubsOf(S), ListsOf(S), nu, CountersOf(S),
                     fixed + Below(ParentsOf(S), RanksOf(S), k))
      decreases Below(ParentsOf(S), RanksOf(S), this), 0, 0
    {
      SubIsKnown(ParentsOf(S), SubsOf(S), this, k);
      BelowChild(ParentsOf(S), RanksOf(S), k, this);
      MendingKeepsLeaves(ParentsOf(S), RanksOf(S), SubsOf(S), ListsOf(S), nu, CountersOf(S), fixed,
                         Below(ParentsOf(S), RanksOf(S), this));
      k.CheckEventNumberConsistency(S);
      MendedTwice(ParentsOf(S), RanksOf(S), SubsOf(S), ListsOf(S), nu, old(CountersOf(S)), CountersOf(S), fixed,
                  Below(ParentsOf(S), RanksOf(S), k));
    }

    /** The counters of the subcategories, added up. */
    method Total(ghost S: set<Category>) returns (total: int)
      requires this in S && subs <= S
      ensures total == Sum(CountersOf(S), subs)
    {
      var rest := subs;
      total := 0;
      while rest != {}
        invariant rest <= subs && total + Sum(CountersOf(S), rest) == Sum(CountersOf(S), subs)
        decreases rest
      {
        var k :| k in rest;
        SumTakes(CountersOf(S), rest, k);
        total := total + k.num;
        rest := rest - {k};
      }
    }

    /** First phase: every registered category that lists conferences is counted from its own list. */
    static method CheckEventNumberLeaves(index: set<Category>, ghost S: set<Category>)
      requires index <= S
      modifies S`num
      ensures forall x :: x in S ==> x.num == if x in index && x.conferences != {} then |x.conferences| else old(x.num)
    {
      var rest := index;
      while rest != {}
        invariant rest <= index
        invariant forall x :: x in S ==>
                    x.num == if x in index - rest && x.conferences != {} then |x.conferences| else old(x.num)
        decreases rest
      {
        var c :| c in rest;
        if c.conferences != {} && c.num != |c.conferences| {
          c.num := |c.conferences|;
        }
        rest := rest - {c};
      }
    }

    /** The whole script, for any counters whatever. */
    method Repair(index: set<Category>, ghost S: set<Category>)
      requires this in S && index <= S && Sound(ParentsOf(S), RanksOf(S), SubsOf(S), ListsOf(S))
      requires Below(ParentsOf(S), RanksOf(S), this) <= index
      modifies S`num
      ensures CountersOf(S) ==
                Repaired(ParentsOf(S), RanksOf(S), SubsOf(S), ListsOf(S), old(CountersOf(S)), this, index)
    {
      CheckEventNumberLeaves(index, S);
      ghost var nu: map<Category, int> := CountersOf(S);
      assert forall x :: x in S ==> nu[x] == x.num && ListsOf(S)[x] == x.conferences;
      CheckEventNumberConsistency(S);
      TwoPhases(ParentsOf(S), RanksOf(S), SubsOf(S), ListsOf(S), old(CountersOf(S)), nu, CountersOf(S), this, index);
    }
  }

  datatype Deletion = Deleted | RootCannotBeDeleted | StillHasConferences

  // ------------------------------------------------------ a form sent twice

  /** A root with three empty subcategories, and an event in the first of them. */
  method OneEvent()
    returns (a: Category, b: Category, c: Category, f: Conference, ghost S: set<Category>, ghost F: set<Conference>)
    ensures fresh(S) && fresh(F) && Category.Valid(S, F) && f in F && f.registered
    ensures {a, b, c} <= S && a != b && b != c && a != c
    ensures f.owners == [a] && a.conferences == {f} && b.conferences == c.conferences == {}
    ensures a.subs == b.subs == c.subs == {}
  {
    a, b, c, S := ThreeCategories();
    var ok;
    f, ok := a.NewConference(S, {});
    F := {} + {f};
  }

  method ThreeCategories() returns (a: Category, b: Category, c: Category, ghost S: set<Category>)
    ensures fresh(S) && Category.Valid(S, {}) && {a, b, c} <= S && a != b && b != c && a != c
    ensures a.conferences == b.conferences == c.conferences == {} && a.subs == b.subs == c.subs == {}
  {
    var root;
    root, a, S := OneCategory();
    b := root.NewSubCategory(S, {});
    S := S + {b};
    c := root.NewSubCategory(S, {});
    S := S + {c};
  }

  method OneCategory() returns (root: Category, a: Category, ghost S: set<Category>)
    ensures fresh(S) && Category.Valid(S, {}) && {root, a} <= S && a != root && root.conferences == {}
    ensures a.conferences == {} && a.subs == {}
  {
    Category.Beginning();
    root := Category.NewCategory({}, {});
    S := {} + {root};
    a := root.NewSubCategory(S, {});
    S := S + {a};
  }

  /** The event is moved to `b`. */
  method OneMove()
    returns (a: Category, b: Category, c: Category, f: Conference, ghost S: set<Category>, ghost F: set<Conference>)
    ensures fresh(S) && fresh(F) && Category.Valid(S, F) && f in F && f.registered
    ensures {a, b, c} <= S && a != b && b != c && a != c && b.subs == c.subs == {}
    ensures f.owners == [b] && b.conferences == {f} && a.conferences == c.conferences == {}
  {
    a, b, c, f, S, F := OneEvent();
    var _ := a.MoveConference(f, b, S, F);
  }

  /** The same form is sent once more, with another target: the event has two owners. */
  method StaleMove() returns (b: Category, c: Category, f: Conference, ghost S: set<Category>, ghost F: set<Conference>)
    ensures fresh(S) && fresh(F) && Category.Valid(S, F) && b in S && c in S && b != c && f in F
    ensures f.owners == [b, c] && f in b.conferences && f in c.conferences
  {
    var a;
    a, b, c, f, S, F := OneMove();
    var _ := a.MoveConference(f, c, S, F);
  }

  /** With the same target both times the registry is broken. */
  method SameMoveTwice() returns (b: Category, f: Conference, ghost S: set<Category>, ghost F: set<Conference>)
    ensures !Category.Valid(S, F) && b in S && f in F && f.owners == [b] + [b]
  {
    var a, c;
    a, b, c, f, S, F := OneMove();
    var _ := a.MoveConference(f, b, S, F);
  }

  /** An event with two owners is deleted, and one of them goes on listing it. */
  method DeletedButListed() returns (c: Category, f: Conference, ghost S: set<Category>, ghost F: set<Conference>)
    ensures c in S && f in F && f.owners == [c] && f in c.conferences
  {
    var b;
    b, c, f, S, F := StaleMove();
    ghost var confs: Lists<Category, Conference>, listing := Category.ListsOf(S), Category.Listing(f, S);
    assert Survivors([b, c], listing) == [c] by {
      assert [b, c][2..] == [];
    }
    assert confs[c] == c.conferences && b in listing;
    ghost var gone := f.Delete(S);
    assert Category.ListsOf(S)[c] == c.conferences && StillListed(confs, Category.ListsOf(S), f, gone, c);
  }
}
