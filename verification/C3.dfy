/**
  C3 linearisation of a class hierarchy: the destructive `merge` of several
  precedence lists, and `mro_old_classes`, which merges the linearisations of
  the bases with the list of bases itself.
 */
module C3 {
  import opened Common

  datatype Result<+T> = Ok(order: seq<T>) | Inconsistent

  // ---------------------------------------------------------------- orders

  /** `s` can be read inside `o`, in order, by skipping elements of `o`. */
  predicate Within<T(==)>(s: seq<T>, o: seq<T>) {
    s == [] || (o != [] && if s[0] == o[0] then Within(s[1..], o[1..]) else Within(s, o[1..]))
  }

  /** One linear order in which every input list can be read. */
  ghost predicate Linearises<T>(o: seq<T>, lists: seq<seq<T>>) {
    Distinct(o) && forall i :: 0 <= i < |lists| ==> Within(lists[i], o)
  }

  ghost predicate Linearisable<T(!new)>(lists: seq<seq<T>>) {
    exists o :: Linearises(o, lists)
  }

  ghost predicate Occurs<T>(x: T, lists: seq<seq<T>>) {
    exists i :: 0 <= i < |lists| && x in lists[i]
  }

  // ----------------------------------------------------------------- merge

  /** `cand in s[1:]` for some list: the rejection test of one candidate. */
  predicate InSomeTail<T(==)>(c: T, lists: seq<seq<T>>) {
    exists i :: 0 <= i < |lists| && lists[i] != [] && c in lists[i][1..]
  }

  predicate GoodHead<T(==)>(lists: seq<seq<T>>, i: nat)
    requires i < |lists|
  {
    lists[i] != [] && !InSomeTail(lists[i][0], lists)
  }

  function Behead<T(==)>(s: seq<T>, c: T): seq<T> {
    if s != [] && s[0] == c then s[1..] else s
  }

  function Take<T(==)>(lists: seq<seq<T>>, c: T): (r: seq<seq<T>>)
    ensures |r| == |lists|
  {
    seq(|lists|, i requires 0 <= i < |lists| => Behead(lists[i], c))
  }

  function Size<T>(lists: seq<seq<T>>): nat {
    if lists == [] then 0 else |lists[0]| + Size(lists[1..])
  }

  /** Position of the first list whose head is acceptable. */
  function FirstGood<T(==)>(lists: seq<seq<T>>, from: nat): (k: nat)
    requires from <= |lists|
    ensures from <= k <= |lists|
    ensures k < |lists| ==> GoodHead(lists, k)
    ensures forall i :: from <= i < k ==> !GoodHead(lists, i)
    decreases |lists| - from
  {
    if from == |lists| || GoodHead(lists, from) then from else FirstGood(lists, from + 1)
  }

  lemma FirstGoodIs<T>(lists: seq<seq<T>>, i: nat)
    requires i <= |lists| && (i < |lists| ==> GoodHead(lists, i))
    requires forall j :: 0 <= j < i ==> !GoodHead(lists, j)
    ensures FirstGood(lists, 0) == i
  {
  }

  function Prefixed<T>(p: seq<T>, r: Result<T>): Result<T> {
    match r
    case Ok(o) => Ok(p + o)
    case Inconsistent => Inconsistent
  }

  predicate AllEmpty<T(==)>(lists: seq<seq<T>>) {
    forall i :: 0 <= i < |lists| ==> lists[i] == []
  }

  function Merged<T(==)>(lists: seq<seq<T>>): Result<T>
    decreases Size(lists)
  {
    if AllEmpty(lists) then Ok([])
    else
      var k := FirstGood(lists, 0);
      if k == |lists| then Inconsistent
      else
        var c := lists[k][0];
        TakeShrinks(lists, c, k);
        Prefixed([c], Merged(Take(lists, c)))
  }

  lemma {:induction false} TakeShrinks<T>(lists: seq<seq<T>>, c: T, k: nat)
    requires k < |lists| && lists[k] != [] && lists[k][0] == c
    ensures Size(Take(lists, c)) < Size(lists)
  {
    TakeBounded(lists[1..], c);
    assert Take(lists, c)[1..] == Take(lists[1..], c);
    if k > 0 {
      TakeShrinks(lists[1..], c, k - 1);
    }
  }

  lemma {:induction false} TakeBounded<T>(lists: seq<seq<T>>, c: T)
    ensures Size(Take(lists, c)) <= Size(lists)
  {
    if lists != [] {
      TakeBounded(lists[1..], c);
      assert Take(lists, c)[1..] == Take(lists[1..], c);
    }
  }

  /** Tries the heads list by list; `k == seqs.Length` when every head is rejected. */
  method FindCandidate<T(==)>(seqs: array<seq<T>>) returns (k: nat)
    ensures k == FirstGood(seqs[..], 0)
  {
    k := 0;
    while k < seqs.Length && !GoodHead(seqs[..], k)
      invariant 0 <= k <= seqs.Length
      invariant forall j :: 0 <= j < k ==> !GoodHead(seqs[..], j)
    {
      k := k + 1;
    }
    FirstGoodIs(seqs[..], k);
  }

  /** `del seq[0]` on every list that starts with the chosen candidate. */
  method RemoveHead<T(==)>(seqs: array<seq<T>>, cand: T)
    modifies seqs
    ensures seqs[..] == Take(old(seqs[..]), cand)
  {
    var k := 0;
    while k < seqs.Length
      invariant 0 <= k <= seqs.Length
      invariant forall j :: 0 <= j < k ==> seqs[j] == Behead(old(seqs[j]), cand)
      invariant forall j :: k <= j < seqs.Length ==> seqs[j] == old(seqs[j])
    {
      if seqs[k] != [] && seqs[k][0] == cand {
        seqs[k] := seqs[k][1..];
      }
      k := k + 1;
    }
  }

  /** The source's loop: it consumes the input lists in place. */
  method Merge<T(==)>(seqs: array<seq<T>>) returns (res: Result<T>)
    modifies seqs
    ensures res == Merged(old(seqs[..]))
    ensures res.Ok? ==> AllEmpty(seqs[..])
    ensures res.Ok? ==> FirstComesFirst(old(seqs[..]), res.order) && Linearises(res.order, old(seqs[..]))
  {
    var out: seq<T> := [];
    while !AllEmpty(seqs[..])
      invariant Prefixed(out, Merged(seqs[..])) == Merged(old(seqs[..]))
      decreases Size(seqs[..])
    {
      var k := FindCandidate(seqs);
      if k == seqs.Length {
        return Inconsistent;
      }
      var cand := seqs[k][0];
      ghost var before := seqs[..];
      TakeShrinks(before, cand, k);
      RemoveHead(seqs, cand);
      PrefixedTwice(out, [cand], Merged(seqs[..]));
      out := out + [cand];
    }
    MergeTakesFirst(old(seqs[..]), out);
    MergeSound(old(seqs[..]));
    return Ok(out);
  }

  lemma PrefixedTwice<T>(p: seq<T>, q: seq<T>, r: Result<T>)
    ensures Prefixed(p, Prefixed(q, r)) == Prefixed(p + q, r)
  {
    if r.Ok? {
      assert p + (q + r.order) == p + q + r.order;
    }
  }

  // ------------------------------------------ which head each round takes

  /** What is left of `s` once the elements of `gone` have been dropped. */
  function Dropped<T(==)>(s: seq<T>, gone: seq<T>): seq<T> {
    if s == [] then [] else if s[0] in gone then Dropped(s[1..], gone) else [s[0]] + Dropped(s[1..], gone)
  }

  function Remaining<T(==)>(lists: seq<seq<T>>, gone: seq<T>): (r: seq<seq<T>>)
    ensures |r| == |lists|
  {
    seq(|lists|, i requires 0 <= i < |lists| => Dropped(lists[i], gone))
  }

  /** `c` heads some list, and no list holds it behind its head. */
  ghost predicate Acceptable<T>(lists: seq<seq<T>>, c: T) {
    && (exists i :: 0 <= i < |lists| && lists[i] != [] && lists[i][0] == c)
    && forall i :: 0 <= i < |lists| && lists[i] != [] ==> c !in lists[i][1..]
  }

  /** `c` is acceptable, and it heads a list ahead of every list headed by another acceptable one. */
  ghost predicate TakenFirst<T>(lists: seq<seq<T>>, c: T) {
    && Acceptable(lists, c)
    && forall j {:trigger lists[j]} ::
         0 <= j < |lists| && lists[j] != [] && lists[j][0] != c && Acceptable(lists, lists[j][0]) ==>
           exists i :: 0 <= i < j && lists[i] != [] && lists[i][0] == c
  }

  /** Every element of `r` is taken first from what the elements before it leave. */
  ghost predicate FirstComesFirst<T>(lists: seq<seq<T>>, r: seq<T>) {
    forall i {:trigger r[..i]} :: 0 <= i < |r| ==> TakenFirst(Remaining(lists, r[..i]), r[i])
  }

  lemma GoodIsAcceptable<T>(lists: seq<seq<T>>, i: nat)
    requires i < |lists| && lists[i] != []
    ensures GoodHead(lists, i) <==> Acceptable(lists, lists[i][0])
  {
  }

  lemma TakenFirstIsFirstGood<T>(lists: seq<seq<T>>, c: T)
    ensures var k := FirstGood(lists, 0); TakenFirst(lists, c) <==> k < |lists| && lists[k][0] == c
  {
    var k := FirstGood(lists, 0);
    forall i: nat | i < |lists| && lists[i] != [] ensures GoodHead(lists, i) <==> Acceptable(lists, lists[i][0]) {
      GoodIsAcceptable(lists, i);
    }
    if TakenFirst(lists, c) {
      var i :| 0 <= i < |lists| && lists[i] != [] && lists[i][0] == c;
      assert GoodHead(lists, i);
      assert k <= i;
      forall m | 0 <= m < k && lists[m] != [] ensures lists[m][0] != c {
        assert !GoodHead(lists, m);
      }
    }
  }

  lemma {:induction false} DroppedIsBeheaded<T>(s: seq<T>, c: T)
    requires s != [] ==> c !in s[1..]
    ensures Dropped(s, [c]) == Behead(s, c)
  {
    if s != [] {
      DroppedNothing(s[1..], [c]);
    }
  }

  lemma {:induction false} DroppedNothing<T>(s: seq<T>, gone: seq<T>)
    requires forall x :: x in gone ==> x !in s
    ensures Dropped(s, gone) == s
  {
    if s != [] {
      DroppedNothing(s[1..], gone);
    }
  }

  lemma {:induction false} DroppedTwice<T>(s: seq<T>, p: seq<T>, q: seq<T>)
    ensures Dropped(Dropped(s, p), q) == Dropped(s, p + q)
  {
    if s != [] {
      DroppedTwice(s[1..], p, q);
      if s[0] !in p {
        assert Dropped(s, p)[1..] == Dropped(s[1..], p);
      }
    }
  }

  lemma RemainingNothing<T>(lists: seq<seq<T>>)
    ensures Remaining(lists, []) == lists
  {
    forall i | 0 <= i < |lists| ensures Dropped(lists[i], []) == lists[i] {
      DroppedNothing(lists[i], []);
    }
  }

  lemma RemainingAfterTake<T>(lists: seq<seq<T>>, c: T, p: seq<T>)
    requires Acceptable(lists, c)
    ensures Remaining(Take(lists, c), p) == Remaining(lists, [c] + p)
  {
    forall i | 0 <= i < |lists| ensures Dropped(Behead(lists[i], c), p) == Dropped(lists[i], [c] + p) {
      DroppedIsBeheaded(lists[i], c);
      DroppedTwice(lists[i], [c], p);
    }
  }

  lemma FirstComesFirstStep<T>(lists: seq<seq<T>>, r: seq<T>)
    requires r != [] && TakenFirst(lists, r[0])
    ensures FirstComesFirst(lists, r) <==> FirstComesFirst(Take(lists, r[0]), r[1..])
  {
    var c, t, rest := r[0], r[1..], Take(lists, r[0]);
    RemainingNothing(lists);
    forall i | 0 <= i < |t| ensures Remaining(rest, t[..i]) == Remaining(lists, r[..i + 1]) && t[i] == r[i + 1] {
      RemainingAfterTake(lists, c, t[..i]);
      assert r[..i + 1] == [c] + t[..i];
    }
    if FirstComesFirst(lists, r) {
      forall i | 0 <= i < |t| ensures TakenFirst(Remaining(rest, t[..i]), t[i]) {
        assert r[..i + 1] == [c] + t[..i];
      }
    }
    if FirstComesFirst(rest, t) {
      forall i | 0 <= i < |r| ensures TakenFirst(Remaining(lists, r[..i]), r[i]) {
        if i > 0 {
          assert Remaining(rest, t[..i - 1]) == Remaining(lists, r[..i - 1 + 1]);
        } else {
          assert r[..i] == [];
        }
      }
    }
  }

  /**
    The merge is `r` exactly when, round after round, the list tried first
    among those whose head may be taken gives its head, until nothing is left.
   */
  lemma {:induction false} MergeTakesFirst<T>(lists: seq<seq<T>>, r: seq<T>)
    ensures Merged(lists) == Ok(r) <==> FirstComesFirst(lists, r) && AllEmpty(Remaining(lists, r))
    decreases |r|
  {
    RemainingNothing(lists);
    if r == [] {
      assert Merged(lists) == Ok([]) ==> AllEmpty(lists);
    } else {
      TakenFirstIsFirstGood(lists, r[0]);
      assert r[..0] == [];
      assert FirstComesFirst(lists, r) ==> TakenFirst(Remaining(lists, r[..0]), r[0]);
      if TakenFirst(lists, r[0]) {
        FirstComesFirstStep(lists, r);
        MergeTakesFirst(Take(lists, r[0]), r[1..]);
        RemainingAfterTake(lists, r[0], r[1..]);
        assert r == [r[0]] + r[1..];
      }
    }
  }

  // ---------------------------------------------- soundness, completeness

  lemma {:induction false} WithinSkips<T>(s: seq<T>, x: T, o: seq<T>)
    requires Within(s, o)
    ensures Within(s, [x] + o)
    decreases |o|, 1
  {
    assert ([x] + o)[1..] == o;
    if s != [] && s[0] == x {
      WithinTail(s, o);
    }
  }

  lemma {:induction false} WithinTail<T>(s: seq<T>, o: seq<T>)
    requires s != [] && Within(s, o)
    ensures Within(s[1..], o)
    decreases |o|, 0
  {
    assert o == [o[0]] + o[1..];
    if s[0] != o[0] {
      WithinTail(s, o[1..]);
    }
    WithinSkips(s[1..], o[0], o[1..]);
  }

  lemma {:induction false} WithinElements<T>(s: seq<T>, o: seq<T>, x: T)
    requires Within(s, o) && x in s
    ensures x in o
    decreases |o|
  {
    if s[0] == o[0] {
      if x != s[0] {
        WithinElements(s[1..], o[1..], x);
      }
    } else {
      WithinElements(s, o[1..], x);
    }
  }

  lemma {:induction false} WithinDistinct<T>(s: seq<T>, o: seq<T>)
    requires Distinct(o) && Within(s, o)
    ensures Distinct(s)
    decreases |o|
  {
    if s == [] {
    } else if s[0] == o[0] {
      WithinDistinct(s[1..], o[1..]);
      if s[0] in s[1..] {
        WithinElements(s[1..], o[1..], s[0]);
      }
    } else {
      WithinDistinct(s, o[1..]);
    }
  }

  /** On success the result is one linear order of exactly the listed elements. */
  lemma {:induction false} MergeSound<T>(lists: seq<seq<T>>)
    requires Merged(lists).Ok?
    ensures Linearises(Merged(lists).order, lists)
    ensures forall x :: x in Merged(lists).order <==> Occurs(x, lists)
    decreases Size(lists)
  {
    if !AllEmpty(lists) {
      var k := FirstGood(lists, 0);
      var c := lists[k][0];
      var rest := Take(lists, c);
      TakeShrinks(lists, c, k);
      MergeSound(rest);
      var r := Merged(rest).order;
      assert Merged(lists).order == [c] + r;
      assert ([c] + r)[1..] == r;
      assert !Occurs(c, rest);
      forall i | 0 <= i < |lists| ensures Within(lists[i], [c] + r) {
        assert Within(rest[i], r);
      }
      forall x ensures x in [c] + r <==> Occurs(x, lists) {
        OccursAfterTake(lists, k, x);
      }
    }
  }

  lemma OccursAfterTake<T>(lists: seq<seq<T>>, k: nat, x: T)
    requires k < |lists| && GoodHead(lists, k)
    ensures Occurs(x, lists) <==> x == lists[k][0] || Occurs(x, Take(lists, lists[k][0]))
  {
    var c := lists[k][0];
    var rest := Take(lists, c);
    if Occurs(x, lists) && x != c {
      var i :| 0 <= i < |lists| && x in lists[i];
      assert x in rest[i];
    }
    if Occurs(x, rest) {
      var i :| 0 <= i < |rest| && x in rest[i];
      assert x in lists[i];
    }
  }

  /** Taking any head away, accepted or not, keeps an order valid. */
  lemma TakeKeepsOrder<T>(o: seq<T>, lists: seq<seq<T>>, c: T)
    requires Linearises(o, lists)
    ensures Linearises(o, Take(lists, c))
  {
    forall i | 0 <= i < |lists| ensures Within(Take(lists, c)[i], o) {
      if lists[i] != [] && lists[i][0] == c {
        WithinTail(lists[i], o);
      }
    }
  }

  /** While some order fits all lists, and they are not all empty, a good head exists. */
  lemma {:induction false} GoodHeadExists<T>(o: seq<T>, lists: seq<seq<T>>) returns (k: nat)
    requires Linearises(o, lists) && !AllEmpty(lists)
    ensures k < |lists| && GoodHead(lists, k)
    decreases |o|
  {
    var i :| 0 <= i < |lists| && lists[i] != [];
    assert Within(lists[i], o);
    if j :| 0 <= j < |lists| && lists[j] != [] && lists[j][0] == o[0] {
      k := j;
      forall m | 0 <= m < |lists| && lists[m] != [] ensures o[0] !in lists[m][1..] {
        WithinDistinct(lists[m], o);
        if o[0] in lists[m][1..] {
          assert Within(lists[m], o);
          WithinElements(lists[m], o[1..], o[0]);
        }
      }
    } else {
      k := GoodHeadExists(o[1..], lists);
    }
  }

  lemma {:induction false} MergeSucceeds<T>(o: seq<T>, lists: seq<seq<T>>)
    requires Linearises(o, lists)
    ensures Merged(lists).Ok?
    decreases Size(lists)
  {
    if !AllEmpty(lists) {
      var g := GoodHeadExists(o, lists);
      var k := FirstGood(lists, 0);
      var c := lists[k][0];
      TakeShrinks(lists, c, k);
      TakeKeepsOrder(o, lists, c);
      MergeSucceeds(o, Take(lists, c));
    }
  }

  /** `merge` raises exactly when no single order contains all lists. */
  lemma MergeComplete<T(!new)>(lists: seq<seq<T>>)
    ensures Merged(lists).Ok? <==> Linearisable(lists)
    ensures Merged(lists).Ok? ==> forall i :: 0 <= i < |lists| ==> Distinct(lists[i])
  {
    if Merged(lists).Ok? {
      MergeSound(lists);
      forall i | 0 <= i < |lists| ensures Distinct(lists[i]) {
        WithinDistinct(lists[i], Merged(lists).order);
      }
    }
    if o :| Linearises(o, lists) {
      MergeSucceeds(o, lists);
    }
  }
}
