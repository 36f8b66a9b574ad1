/**
  The counter repair script: first every category that lists conferences is
  recounted from its own list, then a post-order pass sums up the others.
 */
module CategoryRepair {
  import opened Common
  import opened CategoryTree

  ghost function Sum<C>(m: map<C, int>, s: set<C>): int
    requires s <= m.Keys
  {
    if s == {} then 0 else var x :| x in s; m[x] + Sum(m, s - {x})
  }

  lemma {:induction false} SumTakes<C>(m: map<C, int>, s: set<C>, x: C)
    requires s <= m.Keys && x in s
    ensures Sum(m, s) == m[x] + Sum(m, s - {x})
  {
    var y :| y in s && Sum(m, s) == m[y] + Sum(m, s - {y});
    if y != x {
      SumTakes(m, s - {y}, x);
      SumTakes(m, s - {x}, y);
      assert s - {y} - {x} == s - {x} - {y};
    }
  }

  lemma {:induction false} SameSum<C>(m: map<C, int>, m': map<C, int>, s: set<C>)
    requires s <= m.Keys && s <= m'.Keys && forall x :: x in s ==> m[x] == m'[x]
    ensures Sum(m, s) == Sum(m', s)
    decreases s
  {
    if s != {} {
      var x :| x in s;
      SumTakes(m, s, x);
      SumTakes(m', s, x);
      SameSum(m, m', s - {x});
    }
  }

  // ------------------------------------------------- counts by subcategory

  /** Places found below the subcategories in `kids`. */
  ghost function PlacesUnder<C, F>(up: Ups<C>, rk: Ranks<C>, confs: Lists<C, F>, kids: set<C>): set<(C, F)>
    requires Ranked(up, rk) && confs.Keys == up.Keys && kids <= up.Keys
  {
    set x, f | x in up && f in confs[x] && exists k :: k in kids && At(up, rk, x, k) :: (x, f)
  }

  /** Two subcategories of one category share nothing. */
  lemma {:induction false} SiblingsApart<C>(up: Ups<C>, rk: Ranks<C>, x: C, k: C, l: C)
    requires Ranked(up, rk) && x in up && k in up && l in up && k != l && up[k].Some? && up[k] == up[l]
    ensures !(At(up, rk, x, k) && At(up, rk, x, l))
    decreases rk[x]
  {
    assert Above(up, rk, k) == Above(up, rk, l) by {
      assert Up(up, rk, k) == Up(up, rk, l);
    }
    if l in Above(up, rk, k) {
      AboveRanks(up, rk, l, l);
    }
    if k in Above(up, rk, l) {
      AboveRanks(up, rk, k, k);
    }
    if x != k && x != l && Up(up, rk, x).Some? {
      SiblingsApart(up, rk, Up(up, rk, x).value, k, l);
    }
  }

  lemma {:induction false} CountUnder<C, F>(up: Ups<C>, rk: Ranks<C>, confs: Lists<C, F>, num: map<C, int>, c: C,
                                            kids: set<C>)
    requires Ranked(up, rk) && confs.Keys == up.Keys == num.Keys && kids <= up.Keys
    requires forall k :: k in kids ==> up[k] == Some(c) && num[k] == TrueCount(up, rk, confs, k)
    ensures Sum(num, kids) == |PlacesUnder(up, rk, confs, kids)|
    decreases kids
  {
    if kids == {} {
      assert PlacesUnder(up, rk, confs, kids) == {};
    } else {
      var k :| k in kids;
      var rest := kids - {k};
      SumTakes(num, kids, k);
      CountUnder(up, rk, confs, num, c, rest);
      var p, q, r := PlacesUnder(up, rk, confs, kids), PlacesUnder(up, rk, confs, rest), Places(up, rk, confs, k);
      forall e | e in q ensures e !in r {
        var l :| l in rest && At(up, rk, e.0, l);
        SiblingsApart(up, rk, e.0, k, l);
      }
      forall x, f | x in up && f in confs[x] ensures (x, f) in p <==> (x, f) in q || (x, f) in r {
        if l :| l in kids && At(up, rk, x, l) {
          assert l != k ==> l in rest;
        }
      }
      assert p == q + r;
    }
  }

  /** Every place strictly below `c` is at or below exactly one subcategory of `c`. */
  lemma {:induction false} ThroughChild<C>(up: Ups<C>, rk: Ranks<C>, subs: map<C, set<C>>, x: C, c: C) returns (k: C)
    requires Ranked(up, rk) && AllLinked(up, subs) && x in up && c in Above(up, rk, x)
    ensures k in up && c in subs && k in subs[c] && At(up, rk, x, k)
    decreases rk[x]
  {
    var o := Up(up, rk, x).value;
    AboveRanks(up, rk, x, c);
    if o == c {
      k := x;
      assert ChildLinked(up, subs, c, x);
    } else {
      k := ThroughChild(up, rk, subs, o, c);
    }
  }

  /** The count of a category is the length of its own list and the counts of its subcategories. */
  lemma CountOfChildren<C, F>(up: Ups<C>, rk: Ranks<C>, subs: map<C, set<C>>, confs: Lists<C, F>, num: map<C, int>,
                              c: C)
    requires Ranked(up, rk) && AllLinked(up, subs) && confs.Keys == up.Keys && c in up
    requires subs[c] <= num.Keys && forall k :: k in subs[c] && k in up ==> num[k] == TrueCount(up, rk, confs, k)
    ensures TrueCount(up, rk, confs, c) == |confs[c]| + Sum(num, subs[c])
  {
    var kids := subs[c];
    assert Owned(up, subs, c);
    forall k | k in kids ensures k in up && up[k] == Some(c) {
      assert ChildLinked(up, subs, c, k);
    }
    var all := map k | k in up :: if k in kids then num[k] else 0;
    SameSum(num, all, kids);
    CountUnder(up, rk, confs, all, c, kids);
    PairsCount(c, confs[c], PlacesAt(confs, c));
    PlacesSplit(up, rk, subs, confs, c);
  }

  ghost function PlacesAt<C, F>(confs: Lists<C, F>, c: C): set<(C, F)>
    requires c in confs
  {
    set f | f in confs[c] :: (c, f)
  }

  lemma PlacesSplit<C, F>(up: Ups<C>, rk: Ranks<C>, subs: map<C, set<C>>, confs: Lists<C, F>, c: C)
    requires Ranked(up, rk) && AllLinked(up, subs) && confs.Keys == up.Keys && c in up && subs[c] <= up.Keys
    ensures Places(up, rk, confs, c) == PlacesAt(confs, c) + PlacesUnder(up, rk, confs, subs[c])
    ensures PlacesAt(confs, c) !! PlacesUnder(up, rk, confs, subs[c])
  {
    var own, under, p := PlacesAt(confs, c), PlacesUnder(up, rk, confs, subs[c]), Places(up, rk, confs, c);
    forall x, f | x in up && f in confs[x] ensures (x, f) in p <==> (x, f) in own || (x, f) in under {
      UnderOrOwn(up, rk, subs, x, c);
    }
    forall e | e in own ensures e !in under {
      UnderOrOwn(up, rk, subs, c, c);
    }
  }

  /** A place at or below `c` is at `c` or below one of its subcategories, and never both. */
  lemma UnderOrOwn<C>(up: Ups<C>, rk: Ranks<C>, subs: map<C, set<C>>, x: C, c: C)
    requires Ranked(up, rk) && AllLinked(up, subs) && x in up && c in up
    ensures At(up, rk, x, c) <==> x == c || exists k :: k in subs[c] && k in up && At(up, rk, x, k)
    ensures x == c ==> forall k :: k in subs[c] && k in up ==> !At(up, rk, x, k)
  {
    if c in Above(up, rk, x) {
      var k := ThroughChild(up, rk, subs, x, c);
    }
    forall k | k in subs[c] && k in up && At(up, rk, x, k) ensures c in Above(up, rk, x) {
      assert ChildLinked(up, subs, c, k);
      ChildUnder(up, rk, x, k, c);
    }
    if c in Above(up, rk, c) {
      AboveRanks(up, rk, c, c);
    }
  }

  lemma {:induction false} ChildUnder<C>(up: Ups<C>, rk: Ranks<C>, x: C, k: C, c: C)
    requires Ranked(up, rk) && x in up && k in up && Up(up, rk, k) == Some(c) && At(up, rk, x, k)
    ensures c in Above(up, rk, x)
    decreases rk[x]
  {
    if x != k {
      ChildUnder(up, rk, Up(up, rk, x).value, k, c);
    }
  }

  /** A category with no subcategories has the conferences it lists. */
  lemma CountOfLeaf<C, F>(up: Ups<C>, rk: Ranks<C>, subs: map<C, set<C>>, confs: Lists<C, F>, c: C)
    requires Ranked(up, rk) && AllLinked(up, subs) && confs.Keys == up.Keys && c in up && subs[c] == {}
    ensures TrueCount(up, rk, confs, c) == |confs[c]|
  {
    CountOfChildren(up, rk, subs, confs, map[], c);
  }

  lemma {:induction false} PairsCount<C, F>(c: C, fs: set<F>, p: set<(C, F)>)
    requires forall e :: e in p ==> e.0 == c && e.1 in fs
    requires forall f :: f in fs ==> (c, f) in p
    ensures |p| == |fs|
    decreases fs
  {
    if fs == {} {
      assert p == {};
    } else {
      var f :| f in fs;
      PairsCount(c, fs - {f}, p - {(c, f)});
    }
  }

  lemma NothingLeft<C, F>(up: Ups<C>, rk: Ranks<C>, subs: map<C, set<C>>, confs: Lists<C, F>, num: map<C, int>, c: C)
    requires Forest(up, rk, subs, confs, num) && c in up && subs[c] == {} && confs[c] == {}
    ensures num[c] == 0
  {
    CountOfLeaf(up, rk, subs, confs, c);
    assert Drift(up, rk, confs, num, c) == 0;
  }

  // ------------------------------------------------------------ the script

  /** What both phases need of the tree; nothing is assumed of the counters. */
  ghost predicate Sound<C, F>(up: Ups<C>, rk: Ranks<C>, subs: map<C, set<C>>, confs: Lists<C, F>) {
    Ranked(up, rk) && AllLinked(up, subs) && confs.Keys == up.Keys
  }

  /** What the script counts: the own list where there is one, and the subcategories where there is none. */
  ghost function Counted<C, F>(up: Ups<C>, rk: Ranks<C>, subs: map<C, set<C>>, confs: Lists<C, F>, x: C): int
    requires Sound(up, rk, subs, confs) && x in up
    decreases Below(up, rk, x)
  {
    if confs[x] != {} then |confs[x]| else Sum(CountedSubs(up, rk, subs, confs, x), subs[x])
  }

  ghost function CountedSubs<C, F>(up: Ups<C>, rk: Ranks<C>, subs: map<C, set<C>>, confs: Lists<C, F>, x: C):
      (r: map<C, int>)
    requires Sound(up, rk, subs, confs) && x in up
    ensures r.Keys == subs[x]
    decreases Below(up, rk, x), 0
  {
    map k | k in subs[x] :: (SubsAreBelow(up, rk, subs, x, k); Counted(up, rk, subs, confs, k))
  }

  lemma SubsAreBelow<C>(up: Ups<C>, rk: Ranks<C>, subs: map<C, set<C>>, x: C, k: C)
    requires Ranked(up, rk) && AllLinked(up, subs) && x in up && k in subs[x]
    ensures k in up && up[k] == Some(x) && Below(up, rk, k) < Below(up, rk, x) && k in Below(up, rk, x) - {x}
  {
    SubIsKnown(up, subs, x, k);
    BelowChild(up, rk, k, x);
    assert k in Below(up, rk, k);
  }

  ghost predicate Settled<C, F>(up: Ups<C>, rk: Ranks<C>, subs: map<C, set<C>>, confs: Lists<C, F>, num: map<C, int>,
                                x: C)
    requires Sound(up, rk, subs, confs) && num.Keys == up.Keys && x in up
  {
    num[x] == Counted(up, rk, subs, confs, x)
  }

  /** The counters of `fixed` are as counted, the others are as before. */
  ghost predicate Mended<C, F>(up: Ups<C>, rk: Ranks<C>, subs: map<C, set<C>>, confs: Lists<C, F>, num: map<C, int>,
                               num': map<C, int>, fixed: set<C>)
    requires Sound(up, rk, subs, confs) && num.Keys == num'.Keys == up.Keys
  {
    forall x :: x in up ==> if x in fixed then Settled(up, rk, subs, confs, num', x) else num'[x] == num[x]
  }

  /** Categories that list conferences have the length of their lists. */
  ghost predicate LeavesSettled<C, F>(up: Ups<C>, confs: Lists<C, F>, num: map<C, int>, part: set<C>)
    requires confs.Keys == up.Keys == num.Keys
  {
    forall x :: x in part && x in up && confs[x] != {} ==> num[x] == |confs[x]|
  }

  lemma MendingKeepsLeaves<C, F>(up: Ups<C>, rk: Ranks<C>, subs: map<C, set<C>>, confs: Lists<C, F>,
                                 num: map<C, int>, num': map<C, int>, fixed: set<C>, part: set<C>)
    requires Sound(up, rk, subs, confs) && num.Keys == num'.Keys == up.Keys
    requires Mended(up, rk, subs, confs, num, num', fixed) && LeavesSettled(up, confs, num, part)
    ensures LeavesSettled(up, confs, num', part)
  {
    forall x | x in part && x in up && confs[x] != {} ensures num'[x] == |confs[x]| {
      assert x in fixed ==> Settled(up, rk, subs, confs, num', x);
    }
  }

  lemma MendedTwice<C, F>(up: Ups<C>, rk: Ranks<C>, subs: map<C, set<C>>, confs: Lists<C, F>, num: map<C, int>,
                          num1: map<C, int>, num2: map<C, int>, a: set<C>, b: set<C>)
    requires Sound(up, rk, subs, confs) && num.Keys == num1.Keys == num2.Keys == up.Keys
    requires Mended(up, rk, subs, confs, num, num1, a) && Mended(up, rk, subs, confs, num1, num2, b)
    ensures Mended(up, rk, subs, confs, num, num2, a + b)
  {
  }

  /** The subtrees of the subcategories make up everything below. */
  lemma BelowSubs<C>(up: Ups<C>, rk: Ranks<C>, subs: map<C, set<C>>, c: C, fixed: set<C>)
    requires Ranked(up, rk) && AllLinked(up, subs) && c in up && fixed <= Below(up, rk, c) - {c}
    requires forall k :: k in subs[c] ==> Below(up, rk, k) <= fixed
    ensures fixed == Below(up, rk, c) - {c}
  {
    forall x | x in Below(up, rk, c) && x != c ensures x in fixed {
      var k := ThroughChild(up, rk, subs, x, c);
      assert x in Below(up, rk, k);
    }
  }

  /** The last step of the post-order pass. */
  lemma SumSettles<C, F>(up: Ups<C>, rk: Ranks<C>, subs: map<C, set<C>>, confs: Lists<C, F>, num: map<C, int>,
                         num': map<C, int>, c: C)
    requires Sound(up, rk, subs, confs) && num.Keys == num'.Keys == up.Keys && c in up && confs[c] == {}
    requires Mended(up, rk, subs, confs, num, num', Below(up, rk, c) - {c})
    ensures subs[c] <= num'.Keys
    ensures Mended(up, rk, subs, confs, num, num'[c := Sum(num', subs[c])], Below(up, rk, c))
  {
    var counted := CountedSubs(up, rk, subs, confs, c);
    forall k | k in subs[c] ensures k in up && num'[k] == counted[k] {
      SubsAreBelow(up, rk, subs, c, k);
      assert Settled(up, rk, subs, confs, num', k);
    }
    SameSum(num', counted, subs[c]);
    var num'' := num'[c := Sum(num', subs[c])];
    assert c in Below(up, rk, c);
    forall x | x in up
      ensures if x in Below(up, rk, c) then Settled(up, rk, subs, confs, num'', x) else num''[x] == num[x]
    {
      assert x in Below(up, rk, c) && x != c ==> Settled(up, rk, subs, confs, num', x);
    }
  }

  /** The counters after the script has run from `root` over the registered categories. */
  ghost function Repaired<C, F>(up: Ups<C>, rk: Ranks<C>, subs: map<C, set<C>>, confs: Lists<C, F>, num: map<C, int>,
                                root: C, index: set<C>): (r: map<C, int>)
    requires Sound(up, rk, subs, confs) && num.Keys == up.Keys
    ensures r.Keys == num.Keys
  {
    map x | x in num ::
      if x in Below(up, rk, root) || (x in index && confs[x] != {}) then Counted(up, rk, subs, confs, x) else num[x]
  }

  /** Nothing is listed below a category that lists conferences itself. */
  ghost predicate NothingHidden<C, F>(up: Ups<C>, rk: Ranks<C>, subs: map<C, set<C>>, confs: Lists<C, F>, part: set<C>)
    requires Sound(up, rk, subs, confs)
  {
    forall x, k :: x in part && x in up && confs[x] != {} && k in subs[x] && k in up ==>
      TrueCount(up, rk, confs, k) == 0
  }

  /** Where no category has both kinds of content, nothing is hidden. */
  lemma EitherHidesNothing<C, F>(up: Ups<C>, rk: Ranks<C>, subs: map<C, set<C>>, confs: Lists<C, F>, part: set<C>)
    requires Sound(up, rk, subs, confs) && AllEither(subs, confs)
    ensures NothingHidden(up, rk, subs, confs, part)
  {
    forall x | x in up && confs[x] != {} ensures subs[x] == {} {
      assert Either(subs, confs, x);
    }
  }

  /** What the script counts is right in the whole subtree if and only if nothing is hidden there. */
  lemma {:induction false} CountedIsTrue<C, F>(up: Ups<C>, rk: Ranks<C>, subs: map<C, set<C>>, confs: Lists<C, F>, c: C)
    requires Sound(up, rk, subs, confs) && c in up
    ensures NothingHidden(up, rk, subs, confs, Below(up, rk, c)) <==>
              forall x :: x in Below(up, rk, c) ==> Counted(up, rk, subs, confs, x) == TrueCount(up, rk, confs, x)
  {
    var below := Below(up, rk, c);
    if NothingHidden(up, rk, subs, confs, below) {
      forall x | x in below ensures Counted(up, rk, subs, confs, x) == TrueCount(up, rk, confs, x) {
        CountedTrueAt(up, rk, subs, confs, c, x);
      }
    }
    if forall x :: x in below ==> Counted(up, rk, subs, confs, x) == TrueCount(up, rk, confs, x) {
      forall x, k | x in below && confs[x] != {} && k in subs[x] && k in up ensures TrueCount(up, rk, confs, k) == 0 {
        NothingBeside(up, rk, subs, confs, x, k);
      }
    }
  }

  lemma {:induction false} CountedTrueAt<C, F>(up: Ups<C>, rk: Ranks<C>, subs: map<C, set<C>>, confs: Lists<C, F>,
                                               c: C, x: C)
    requires Sound(up, rk, subs, confs) && c in up && x in Below(up, rk, c)
    requires NothingHidden(up, rk, subs, confs, Below(up, rk, c))
    ensures Counted(up, rk, subs, confs, x) == TrueCount(up, rk, confs, x)
    decreases Below(up, rk, x)
  {
    var counted := CountedSubs(up, rk, subs, confs, x);
    forall k | k in subs[x] ensures k in up && counted[k] == TrueCount(up, rk, confs, k) {
      SubsAreBelow(up, rk, subs, x, k);
      AtTransitive(up, rk, k, x, c);
      CountedTrueAt(up, rk, subs, confs, c, k);
    }
    CountOfChildren(up, rk, subs, confs, counted, x);
    if confs[x] != {} {
      SumOfZeros(counted, subs[x]);
    }
  }

  lemma {:induction false} SumOfZeros<C>(m: map<C, int>, s: set<C>)
    requires s <= m.Keys && forall k :: k in s ==> m[k] == 0
    ensures Sum(m, s) == 0
    decreases s
  {
    if s != {} {
      var x :| x in s;
      SumTakes(m, s, x);
      SumOfZeros(m, s - {x});
    }
  }

  /** If the own list makes up the whole count, nothing is listed in any subcategory. */
  lemma NothingBeside<C, F>(up: Ups<C>, rk: Ranks<C>, subs: map<C, set<C>>, confs: Lists<C, F>, x: C, k: C)
    requires Sound(up, rk, subs, confs) && x in up && k in subs[x] && k in up
    requires TrueCount(up, rk, confs, x) == |confs[x]|
    ensures TrueCount(up, rk, confs, k) == 0
  {
    var num := map c | c in up :: TrueCount(up, rk, confs, c) as int;
    assert Owned(up, subs, x);
    CountOfChildren(up, rk, subs, confs, num, x);
    PartOfSum(num, subs[x], k);
  }

  lemma {:induction false} PartOfSum<C>(m: map<C, int>, s: set<C>, k: C)
    requires s <= m.Keys && k in s && forall x :: x in s ==> m[x] >= 0
    ensures 0 <= m[k] <= Sum(m, s)
  {
    SumTakes(m, s, k);
    SumNotNegative(m, s - {k});
  }

  lemma {:induction false} SumNotNegative<C>(m: map<C, int>, s: set<C>)
    requires s <= m.Keys && forall x :: x in s ==> m[x] >= 0
    ensures Sum(m, s) >= 0
    decreases s
  {
    if s != {} {
      var x :| x in s;
      SumTakes(m, s, x);
      SumNotNegative(m, s - {x});
    }
  }

  /**
    Run from the only root, the script makes every counter right, whatever the
    counters were, if and only if nothing is listed below a category that lists
    conferences itself.
   */
  lemma RepairIsExact<C, F>(up: Ups<C>, rk: Ranks<C>, subs: map<C, set<C>>, confs: Lists<C, F>, num: map<C, int>,
                            root: C, index: set<C>)
    requires Sound(up, rk, subs, confs) && num.Keys == up.Keys && root in up && Below(up, rk, root) == up.Keys
    ensures AllExact(up, rk, confs, Repaired(up, rk, subs, confs, num, root, index)) <==>
              NothingHidden(up, rk, subs, confs, up.Keys)
  {
    var r := Repaired(up, rk, subs, confs, num, root, index);
    CountedIsTrue(up, rk, subs, confs, root);
    forall a | a in up
      ensures Drift(up, rk, confs, r, a) == 0 <==> Counted(up, rk, subs, confs, a) == TrueCount(up, rk, confs, a)
    {
      assert a in Below(up, rk, root);
    }
    if AllExact(up, rk, confs, r) {
      forall a | a in up ensures Counted(up, rk, subs, confs, a) == TrueCount(up, rk, confs, a) {
        assert Drift(up, rk, confs, r, a) == 0;
      }
    }
  }

  /** A second run changes nothing, and over right counters a run changes nothing exactly if nothing is hidden. */
  lemma RepairIsIdempotent<C, F>(up: Ups<C>, rk: Ranks<C>, subs: map<C, set<C>>, confs: Lists<C, F>,
                                 num: map<C, int>, root: C, index: set<C>)
    requires Sound(up, rk, subs, confs) && num.Keys == up.Keys && root in up && Below(up, rk, root) == up.Keys
    ensures var r := Repaired(up, rk, subs, confs, num, root, index);
            Repaired(up, rk, subs, confs, r, root, index) == r
    ensures AllExact(up, rk, confs, num) ==>
              (Repaired(up, rk, subs, confs, num, root, index) == num <==> NothingHidden(up, rk, subs, confs, up.Keys))
  {
    var r := Repaired(up, rk, subs, confs, num, root, index);
    assert Repaired(up, rk, subs, confs, r, root, index) == r;
    RepairIsExact(up, rk, subs, confs, num, root, index);
    if AllExact(up, rk, confs, num) && AllExact(up, rk, confs, r) {
      forall x | x in num ensures r[x] == num[x] {
        assert Drift(up, rk, confs, num, x) == 0 && Drift(up, rk, confs, r, x) == 0;
      }
      assert r == num;
    }
  }

  lemma TwoPhases<C, F>(up: Ups<C>, rk: Ranks<C>, subs: map<C, set<C>>, confs: Lists<C, F>, num: map<C, int>,
                        num1: map<C, int>, num2: map<C, int>, root: C, index: set<C>)
    requires Sound(up, rk, subs, confs) && num.Keys == num1.Keys == num2.Keys == up.Keys
    requires forall x :: x in up ==> num1[x] == if x in index && confs[x] != {} then |confs[x]| else num[x]
    requires Mended(up, rk, subs, confs, num1, num2, Below(up, rk, root))
    ensures num2 == Repaired(up, rk, subs, confs, num, root, index)
  {
    var r := Repaired(up, rk, subs, confs, num, root, index);
    forall x | x in up ensures num2[x] == r[x] {
      assert x in Below(up, rk, root) ==> Settled(up, rk, subs, confs, num2, x);
    }
  }
}
