/**
  Effective protection, and what the cached subtree checks `isFullyPublic` and
  `isFullyPrivate` answer when the caches are exact.
 */
module Protection {
  import opened Common
  import opened ProtectionTree

  // ---------------------------------------------------------- categories

  /** An owner category: its own level and the chain above it. */
  datatype Category = Category(level: Level, parent: Option<Category>)

  function CategoryProtected(c: Category): bool {
    (c.level as int) + (if c.parent.Some? && CategoryProtected(c.parent.value) then 1 else 0) > 0
  }

  /** The first own level met going up, 0 if there is none. */
  function NearestCategoryLevel(c: Category): Level {
    if c.level != 0 || c.parent.None? then c.level else NearestCategoryLevel(c.parent.value)
  }

  lemma {:induction false} CategoryDecidedByNearest(c: Category)
    ensures CategoryProtected(c) <==> NearestCategoryLevel(c) == 1
  {
    if c.parent.Some? {
      CategoryDecidedByNearest(c.parent.value);
    }
  }

  /** A conference is father-protected as soon as one of its owners is protected. */
  predicate FatherProtected(owners: seq<Category>) {
    exists i :: 0 <= i < |owners| && CategoryProtected(owners[i])
  }

  // ------------------------------------------------------------- the event

  /** `isProtected`: own level plus the owner's protection, as 0 or 1. */
  ghost predicate IsProtected<N>(t: Tree<N>, owners: seq<Category>, n: N)
    requires WellFormed(t) && n in t
    decreases 5 - Rank(t[n].kind)
  {
    var father := match Up(t, n)
      case Some(o) => IsProtected(t, owners, o)
      case None => FatherProtected(owners);
    (t[n].level as int) + (if father then 1 else 0) > 0
  }

  ghost function NearestLevel<N>(t: Tree<N>, n: N): Level
    requires WellFormed(t) && n in t
    decreases 5 - Rank(t[n].kind)
  {
    if t[n].level != 0 || Up(t, n).None? then t[n].level else NearestLevel(t, Up(t, n).value)
  }

  /** Protection is decided by the nearest own level; without one, by the categories. */
  lemma {:induction false} DecidedByNearest<N>(t: Tree<N>, owners: seq<Category>, n: N)
    requires WellFormed(t) && n in t
    ensures IsProtected(t, owners, n) <==>
              NearestLevel(t, n) == 1
              || (NearestLevel(t, n) == 0
                  && exists i :: 0 <= i < |owners| && NearestCategoryLevel(owners[i]) == 1)
    decreases 5 - Rank(t[n].kind)
  {
    if Up(t, n).Some? {
      DecidedByNearest(t, owners, Up(t, n).value);
    } else {
      forall i | 0 <= i < |owners|
        ensures CategoryProtected(owners[i]) <==> NearestCategoryLevel(owners[i]) == 1
      {
        CategoryDecidedByNearest(owners[i]);
      }
    }
  }

  /** The `isFullyAccess(level)` decorator: the node itself, then its cache, never the subtree. */
  ghost predicate CachedFully<N>(t: Tree<N>, owners: seq<Category>, level: Level, r: N)
    requires WellFormed(t) && r in t && t[r].cache <= t.Keys
  {
    && !(IsProtected(t, owners, r) && level == -1)
    && !(!IsProtected(t, owners, r) && level == 1)
    && forall x :: x in t[r].cache ==> t[x].level == level
  }

  /**
    `x` is `r` or below it, leaving out what hangs below an untracked resource:
    a resource of a reviewing material.
   */
  ghost predicate InSubtree<N>(t: Tree<N>, r: N, x: N)
    requires WellFormed(t) && r in t && x in t
  {
    Below(t, x, r) && (x == r || Tracked(t, x))
  }

  /** With every own level below `r` equal to `level`, `r`'s answer is everybody's answer. */
  lemma {:induction false} UniformBelow<N>(t: Tree<N>, owners: seq<Category>, level: Level, r: N, x: N)
    requires WellFormed(t) && Exact(t, {}) && r in t && t[r].kind != SubContribution
    requires level != 0 && CachedFully(t, owners, level, r)
    requires x in t && InSubtree(t, r, x)
    ensures IsProtected(t, owners, x) <==> level == 1
    decreases 5 - Rank(t[x].kind)
  {
    if x != r {
      OwnerRanks(t, x, r);
      assert Right(t, {}, r, x);
      var o := Up(t, x).value;
      if o != r {
        OwnerIsTracked(t, x, o);
      }
      UniformBelow(t, owners, level, r, o);
    }
  }

  /** Only resources are ever untracked, and they own nothing that could be. */
  lemma OwnerIsTracked<N>(t: Tree<N>, x: N, o: N)
    requires WellFormed(t) && x in t && Up(t, x) == Some(o)
    ensures Tracked(t, o)
  {
  }

  /** An own level decides the node's own protection. */
  lemma OwnLevelDecides<N>(t: Tree<N>, owners: seq<Category>, x: N)
    requires WellFormed(t) && x in t && t[x].level != 0
    ensures IsProtected(t, owners, x) <==> t[x].level == 1
  {
  }

  /**
    With exact caches, the cached check made on any access controller answers
    the deep question about its whole subtree: nothing in it is protected
    (level -1), or everything in it is (level 1).
   */
  lemma FullyAccessRefinesSubtree<N>(t: Tree<N>, owners: seq<Category>, level: Level, r: N)
    requires WellFormed(t) && Exact(t, {}) && r in t && t[r].kind != SubContribution
    requires level != 0
    ensures CachedFully(t, owners, level, r) <==>
              forall x :: x in t && InSubtree(t, r, x) ==> (IsProtected(t, owners, x) <==> level == 1)
  {
    if CachedFully(t, owners, level, r) {
      forall x | x in t && InSubtree(t, r, x) ensures IsProtected(t, owners, x) <==> level == 1 {
        UniformBelow(t, owners, level, r, x);
      }
    } else if IsProtected(t, owners, r) <==> level == 1 {
      var x :| x in t[r].cache && t[x].level != level;
      assert Right(t, {}, r, x);
      assert InSubtree(t, r, x);
      OwnLevelDecides(t, owners, x);
    } else {
      assert InSubtree(t, r, r);
    }
  }

  /**
    A resource of reviewing material is in no cache. Under a node whose cached
    answer is "fully", that answer is also right about the resource unless its
    own level says the opposite.
   */
  lemma UntrackedFollowsUnlessOpposite<N>(t: Tree<N>, owners: seq<Category>, level: Level, r: N, x: N)
    requires WellFormed(t) && Exact(t, {}) && r in t && t[r].kind != SubContribution
    requires level != 0 && CachedFully(t, owners, level, r)
    requires x in t && x != r && Below(t, x, r) && !Tracked(t, x)
    ensures (IsProtected(t, owners, x) <==> level == 1) <==> t[x].level != -level
  {
    var o := Up(t, x).value;
    OwnerIsTracked(t, x, o);
    UniformBelow(t, owners, level, r, o);
  }

  /**
    The whole subtree, resources of reviewing material included, is what the
    cached check says if and only if none of those has the opposite level.
   */
  lemma FullyAccessWithReviewing<N>(t: Tree<N>, owners: seq<Category>, level: Level, r: N)
    requires WellFormed(t) && Exact(t, {}) && r in t && t[r].kind != SubContribution
    requires level != 0
    ensures (forall x :: x in t && Below(t, x, r) ==> (IsProtected(t, owners, x) <==> level == 1)) <==>
              && CachedFully(t, owners, level, r)
              && forall x :: x in t && x != r && Below(t, x, r) && !Tracked(t, x) ==> t[x].level != -level
  {
    FullyAccessRefinesSubtree(t, owners, level, r);
    if CachedFully(t, owners, level, r) {
      forall x | x in t && x != r && Below(t, x, r) && !Tracked(t, x)
        ensures (IsProtected(t, owners, x) <==> level == 1) <==> t[x].level != -level
      {
        UntrackedFollowsUnlessOpposite(t, owners, level, r, x);
      }
      forall x | x in t && Below(t, x, r) && (x == r || Tracked(t, x))
        ensures IsProtected(t, owners, x) <==> level == 1
      {
        assert InSubtree(t, r, x);
      }
    } else {
      var x :| x in t && InSubtree(t, r, x) && !(IsProtected(t, owners, x) <==> level == 1);
      assert Below(t, x, r);
    }
  }
}
