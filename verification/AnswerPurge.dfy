/**
  `purgeAnswers` removes from a list while iterating over it, so each removal
  hides the next answer from the loop. What that loses and what it keeps.
 */
module AnswerPurge {
  import opened Common

  /** An answer and the id of its question; it has none if the question was gone when the answer was made. */
  datatype Answer = Answer(id: nat, question: Option<nat>)

  /** Does the question still exist? Otherwise the answer is stale. */
  predicate Live(a: Answer, live: set<nat>) {
    a.question.Some? && a.question.value in live
  }

  /** The list after one pass, for the questions that still exist. */
  function Purged(answers: seq<Answer>, live: set<nat>): (r: seq<Answer>)
    ensures |r| <= |answers|
  {
    if answers == [] then []
    else if Live(answers[0], live) then [answers[0]] + Purged(answers[1..], live)
    else if |answers| == 1 then []
    else [answers[1]] + Purged(answers[2..], live)
  }

  /** Does the pass come to an answer without a question, and fail there? */
  predicate Stops(answers: seq<Answer>, live: set<nat>)
    decreases |answers|
  {
    && answers != []
    && (|| answers[0].question == None
        || if Live(answers[0], live) then Stops(answers[1..], live) else |answers| > 1 && Stops(answers[2..], live))
  }

  /** The answers whose question exists, in order. */
  function Kept(answers: seq<Answer>, live: set<nat>): seq<Answer> {
    if answers == [] then []
    else if Live(answers[0], live) then [answers[0]] + Kept(answers[1..], live)
    else Kept(answers[1..], live)
  }

  function Stale(answers: seq<Answer>, live: set<nat>): nat {
    if answers == [] then 0 else (if Live(answers[0], live) then 0 else 1) + Stale(answers[1..], live)
  }

  /** The loop itself, with the list's own index. */
  method PurgeAnswers(answers: seq<Answer>, live: set<nat>) returns (ok: bool, r: seq<Answer>)
    ensures ok <==> !Stops(answers, live)
    ensures ok ==> r == Purged(answers, live)
  {
    r := answers;
    var i := 0;
    ghost var rest := answers;
    while i < |r|
      invariant i <= |r| || (i == |r| + 1 && rest == [])
      invariant i <= |r| ==> r[i..] == rest
      invariant Purged(answers, live) == (if i <= |r| then r[..i] else r) + Purged(rest, live)
      invariant Stops(answers, live) <==> Stops(rest, live)
      decreases |r| - i
    {
      ghost var before, here := r[..i], rest;
      assert r == before + here;
      if r[i].question == None {
        return false, r;
      }
      if !Live(r[i], live) {
        r := r[..i] + r[i + 1..];
        assert r == before + here[1..];
        rest := here[if |here| == 1 then 1 else 2..];
      } else {
        rest := here[1..];
      }
      i := i + 1;
      if i <= |r| {
        assert r[..i] == before + [r[i - 1]] && r[i..] == rest;
      }
    }
    ok := true;
  }

  /** One pass keeps every answer whose question exists, in order, and at most half of the others. */
  lemma {:induction false} OnePass(answers: seq<Answer>, live: set<nat>)
    ensures Kept(Purged(answers, live), live) == Kept(answers, live)
    ensures Stale(Purged(answers, live), live) <= Stale(answers, live) / 2
    decreases |answers|
  {
    if answers != [] {
      if Live(answers[0], live) {
        OnePass(answers[1..], live);
        assert Purged(answers, live)[1..] == Purged(answers[1..], live);
      } else if |answers| > 1 {
        OnePass(answers[2..], live);
        assert Purged(answers, live)[1..] == Purged(answers[2..], live);
        assert answers[1..][1..] == answers[2..];
      }
    }
  }

  /** The bound is met: of a list of stale answers exactly half survive, rounded down. */
  lemma {:induction false} HalfSurvives(answers: seq<Answer>, live: set<nat>)
    requires forall i :: 0 <= i < |answers| ==> !Live(answers[i], live)
    ensures |Purged(answers, live)| == |answers| / 2
    decreases |answers|
  {
    if |answers| > 1 {
      HalfSurvives(answers[2..], live);
    }
  }

  /** No two neighbours are both stale. */
  predicate NoStaleNeighbours(answers: seq<Answer>, live: set<nat>) {
    forall i :: 0 <= i < |answers| - 1 ==> Live(answers[i], live) || Live(answers[i + 1], live)
  }

  lemma NeighboursAfter(answers: seq<Answer>, live: set<nat>, k: nat)
    requires 1 <= k <= 2 && k <= |answers| && Live(answers[k - 1], live)
    ensures NoStaleNeighbours(answers, live) <==> NoStaleNeighbours(answers[k..], live)
  {
    var rest := answers[k..];
    if NoStaleNeighbours(rest, live) {
      forall i | 0 <= i < |answers| - 1 ensures Live(answers[i], live) || Live(answers[i + 1], live) {
        if i >= k {
          assert Live(rest[i - k], live) || Live(rest[i - k + 1], live);
        }
      }
    }
    if NoStaleNeighbours(answers, live) {
      forall i | 0 <= i < |rest| - 1 ensures Live(rest[i], live) || Live(rest[i + 1], live) {
        assert Live(answers[i + k], live) || Live(answers[i + k + 1], live);
      }
    }
  }

  lemma {:induction false} KeptIsLive(answers: seq<Answer>, live: set<nat>)
    ensures forall a :: a in Kept(answers, live) ==> Live(a, live)
  {
    if answers != [] {
      KeptIsLive(answers[1..], live);
    }
  }

  /** One pass is exact, it removes all stale answers, if and only if no two neighbours are both stale. */
  lemma {:induction false} ExactWithoutStaleNeighbours(answers: seq<Answer>, live: set<nat>)
    ensures Purged(answers, live) == Kept(answers, live) <==> NoStaleNeighbours(answers, live)
    decreases |answers|
  {
    if |answers| >= 1 && Live(answers[0], live) {
      ExactWithoutStaleNeighbours(answers[1..], live);
      NeighboursAfter(answers, live, 1);
      assert Purged(answers, live)[1..] == Purged(answers[1..], live)
             && Kept(answers, live)[1..] == Kept(answers[1..], live);
    } else if |answers| >= 2 && Live(answers[1], live) {
      ExactWithoutStaleNeighbours(answers[2..], live);
      NeighboursAfter(answers, live, 2);
      assert answers[1..][0] == answers[1] && answers[1..][1..] == answers[2..];
      assert Kept(answers, live) == [answers[1]] + Kept(answers[2..], live);
      assert Purged(answers, live)[1..] == Purged(answers[2..], live)
             && Kept(answers, live)[1..] == Kept(answers[2..], live);
    } else if |answers| >= 2 {
      KeptIsLive(answers, live);
      assert Purged(answers, live)[0] == answers[1];
    } else {
      assert answers != [] ==> answers[1..] == [];
    }
  }

  lemma {:induction false} StopsAtAny(answers: seq<Answer>, live: set<nat>)
    requires NoStaleNeighbours(answers, live)
    ensures Stops(answers, live) <==> exists i :: 0 <= i < |answers| && answers[i].question == None
    decreases |answers|
  {
    if answers != [] && answers[0].question.Some? {
      var k := if Live(answers[0], live) || |answers| == 1 then 1 else 2;
      assert k == 2 ==> Live(answers[1], live);
      var rest := answers[k..];
      assert forall i :: 0 <= i < |rest| ==> rest[i] == answers[i + k];
      StopsAtAny(rest, live);
      if i :| 0 <= i < |answers| && answers[i].question == None {
        assert rest[i - k].question == None;
      }
    }
  }

  /**
    So a pass ends and leaves exactly the answers it should if and only if no two
    neighbours are both stale and every answer has a question.
   */
  lemma RightWithoutStaleNeighbours(answers: seq<Answer>, live: set<nat>)
    ensures !Stops(answers, live) && Purged(answers, live) == Kept(answers, live) <==>
              NoStaleNeighbours(answers, live) && forall i :: 0 <= i < |answers| ==> answers[i].question.Some?
  {
    ExactWithoutStaleNeighbours(answers, live);
    if NoStaleNeighbours(answers, live) {
      StopsAtAny(answers, live);
    }
  }

  /** How many stale answers, with questions, stand right before place `i`. */
  function StaleBefore(answers: seq<Answer>, live: set<nat>, i: nat): nat
    requires i <= |answers|
  {
    if i == 0 || answers[i - 1].question == None || Live(answers[i - 1], live) then 0
    else 1 + StaleBefore(answers, live, i - 1)
  }

  lemma {:induction false} StaleBeforeRest(answers: seq<Answer>, live: set<nat>, k: nat, i: nat)
    requires k + i <= |answers| && (k == 1 || k == 2) && answers[0].question.Some?
    requires k == 1 <==> Live(answers[0], live)
    ensures StaleBefore(answers[k..], live, i) % 2 == StaleBefore(answers, live, k + i) % 2
    decreases i
  {
    if i == 0 {
      assert StaleBefore(answers, live, 1) == if Live(answers[0], live) then 0 else 1;
    } else {
      var a := answers[k + i - 1];
      assert answers[k..][i - 1] == a;
      StaleBeforeRest(answers, live, k, i - 1);
      var m, n := StaleBefore(answers[k..], live, i - 1), StaleBefore(answers, live, k + (i - 1));
      assert StaleBefore(answers[k..], live, i) == if a.question == None || Live(a, live) then 0 else 1 + m;
      assert StaleBefore(answers, live, k + i) == if a.question == None || Live(a, live) then 0 else 1 + n;
    }
  }

  /** The pass fails exactly if some answer without a question has an even number of stale ones right before it. */
  lemma {:induction false} StopsAfterEvenRun(answers: seq<Answer>, live: set<nat>)
    ensures Stops(answers, live) <==>
              exists i :: 0 <= i < |answers| && answers[i].question == None && StaleBefore(answers, live, i) % 2 == 0
    decreases |answers|
  {
    if answers == [] {
    } else if answers[0].question == None {
      assert StaleBefore(answers, live, 0) == 0;
    } else {
      var k := if Live(answers[0], live) then 1 else 2;
      assert k == 2 && |answers| > 1 && answers[1].question == None ==> StaleBefore(answers, live, 1) == 1;
      if k <= |answers| {
        var rest := answers[k..];
        StopsAfterEvenRun(rest, live);
        forall i | 0 <= i < |rest|
          ensures rest[i] == answers[k + i]
          ensures StaleBefore(rest, live, i) % 2 == StaleBefore(answers, live, k + i) % 2
        {
          StaleBeforeRest(answers, live, k, i);
        }
        if i :| 0 <= i < |answers| && answers[i].question == None && StaleBefore(answers, live, i) % 2 == 0 {
          assert rest[i - k] == answers[i];
        }
      }
    }
  }

  // ------------------------------------------- what more removals can do

  /** No question has two answers. */
  predicate OneEach(answers: seq<Answer>) {
    forall i, j :: 0 <= i < j < |answers| && answers[i].question.Some? ==> answers[i].question != answers[j].question
  }

  /** Right before place `i`, an odd number `m` of answers that can be stale together, up to one that need not be. */
  ghost predicate OddRun(answers: seq<Answer>, live: set<nat>, i: nat, m: nat)
    requires i < |answers|
  {
    && m % 2 == 1 && m <= i && (forall k :: i - m <= k < i ==> answers[k].question.Some?)
    && (m == i || answers[i - m - 1].question == None || Live(answers[i - m - 1], live))
  }

  ghost predicate Passable(answers: seq<Answer>, live: set<nat>, i: nat)
    requires i < |answers|
  {
    exists m: nat :: OddRun(answers, live, i, m)
  }

  /** Some answer without a question stops the pass whichever of the `live` questions are removed. */
  ghost predicate Blocked(answers: seq<Answer>, live: set<nat>) {
    exists i: nat :: i < |answers| && answers[i].question == None && !Passable(answers, live, i)
  }

  lemma {:induction false} StaleRun(answers: seq<Answer>, live: set<nat>, i: nat)
    requires i < |answers|
    ensures var m := StaleBefore(answers, live, i);
            && m <= i && (forall k :: i - m <= k < i ==> answers[k].question.Some? && !Live(answers[k], live))
            && (m == i || answers[i - m - 1].question == None || Live(answers[i - m - 1], live))
  {
    if i > 0 && answers[i - 1].question.Some? && !Live(answers[i - 1], live) {
      StaleRun(answers, live, i - 1);
    }
  }

  lemma {:induction false} StaleBeforeIs(answers: seq<Answer>, live: set<nat>, i: nat, m: nat)
    requires m <= i < |answers|
    requires forall k :: i - m <= k < i ==> answers[k].question.Some? && !Live(answers[k], live)
    requires m == i || answers[i - m - 1].question == None || Live(answers[i - m - 1], live)
    ensures StaleBefore(answers, live, i) == m
    decreases m
  {
    if m > 0 {
      StaleBeforeIs(answers, live, i - 1, m - 1);
    }
  }

  /** The run chosen for place `i`. */
  ghost function RunBefore(answers: seq<Answer>, live: set<nat>, i: nat): (m: nat)
    requires i < |answers| && Passable(answers, live, i)
    ensures OddRun(answers, live, i, m)
  {
    var m: nat :| OddRun(answers, live, i, m);
    m
  }

  /** Is the question of answer `k` to go, for the sake of place `i`? */
  ghost predicate Sacrificed(answers: seq<Answer>, live: set<nat>, i: nat, k: nat) {
    && k < i < |answers| && answers[i].question == None && Passable(answers, live, i)
    && i - RunBefore(answers, live, i) <= k
  }

  ghost function Spared(answers: seq<Answer>, live: set<nat>): (sub: set<nat>)
    ensures sub <= live
  {
    set q | q in live && !exists i: nat, k: nat :: Sacrificed(answers, live, i, k) && answers[k].question == Some(q)
  }

  lemma SparedPasses(answers: seq<Answer>, live: set<nat>, i: nat)
    requires OneEach(answers) && i < |answers| && answers[i].question == None && Passable(answers, live, i)
    ensures StaleBefore(answers, Spared(answers, live), i) % 2 == 1
  {
    var m, sub := RunBefore(answers, live, i), Spared(answers, live);
    forall k: nat | i - m <= k < i ensures answers[k].question.Some? && !Live(answers[k], sub) {
      assert Sacrificed(answers, live, i, k);
    }
    if m < i && answers[i - m - 1].question.Some? {
      var t: nat := i - m - 1;
      forall j: nat, k: nat | Sacrificed(answers, live, j, k) ensures answers[k].question != answers[t].question {
        var n := RunBefore(answers, live, j);
        assert answers[k].question.Some?;
        assert j < i ==> !(i - m <= j < i);
        assert i < j ==> !(j - n <= i < j);
      }
      assert Live(answers[t], sub);
    }
    StaleBeforeIs(answers, sub, i, m);
  }

  /** The pass can be made to go through by removing more questions if and only if it is not blocked. */
  lemma PassesAfterRemovals(answers: seq<Answer>, live: set<nat>)
    requires OneEach(answers)
    ensures !Blocked(answers, live) ==> !Stops(answers, Spared(answers, live))
    ensures Blocked(answers, live) ==> forall sub :: sub <= live ==> Stops(answers, sub)
  {
    if !Blocked(answers, live) {
      StopsAfterEvenRun(answers, Spared(answers, live));
      forall i: nat | i < |answers| && answers[i].question == None
        ensures StaleBefore(answers, Spared(answers, live), i) % 2 == 1
      {
        SparedPasses(answers, live, i);
      }
    } else {
      var i: nat :| i < |answers| && answers[i].question == None && !Passable(answers, live, i);
      forall sub | sub <= live ensures Stops(answers, sub) {
        StopsAfterEvenRun(answers, sub);
        StaleRun(answers, sub, i);
        assert !OddRun(answers, live, i, StaleBefore(answers, sub, i));
      }
    }
  }

  /** More answers and fewer questions block no less. */
  lemma BlockedLater(answers: seq<Answer>, live: set<nat>, more: seq<Answer>, fewer: set<nat>)
    requires Blocked(answers, live) && answers <= more
    requires forall a :: a in answers && Live(a, fewer) ==> Live(a, live)
    ensures Blocked(more, fewer)
  {
    var i: nat :| i < |answers| && answers[i].question == None && !Passable(answers, live, i);
    forall m: nat | OddRun(more, fewer, i, m) ensures OddRun(answers, live, i, m) {
      assert m < i ==> answers[i - m - 1] in answers;
    }
    assert more[i].question == None && !Passable(more, fewer, i);
  }

  lemma {:induction false} PurgedIsPart(answers: seq<Answer>, live: set<nat>)
    ensures forall a :: a in Purged(answers, live) ==> a in answers
    decreases |answers|
  {
    if answers != [] && (Live(answers[0], live) || |answers| > 1) {
      PurgedIsPart(answers[if Live(answers[0], live) then 1 else 2..], live);
    }
  }

  /** Purging leaves no question with two answers. */
  lemma {:induction false} PurgedOneEach(answers: seq<Answer>, live: set<nat>)
    requires OneEach(answers)
    ensures OneEach(Purged(answers, live)) && forall a :: a in Purged(answers, live) ==> a in answers
    decreases |answers|
  {
    if answers != [] && (Live(answers[0], live) || |answers| > 1) {
      var k := if Live(answers[0], live) then 0 else 1;
      var rest := answers[k + 1..];
      assert forall i :: 0 <= i < |rest| ==> rest[i] == answers[k + 1 + i];
      PurgedOneEach(rest, live);
      var r := Purged(rest, live);
      forall j | 0 <= j < |r| && answers[k].question.Some? ensures r[j].question != answers[k].question {
        assert r[j] in rest;
        var i :| 0 <= i < |rest| && rest[i] == r[j];
      }
      assert Purged(answers, live) == [answers[k]] + r;
    }
  }

  /** Two stale neighbours: the second stays. */
  lemma SecondOfTwoStays(a: Answer, b: Answer, live: set<nat>)
    requires !Live(a, live) && !Live(b, live)
    ensures Purged([a, b], live) == [b] && Kept([a, b], live) == []
  {
    assert [a, b][1..] == [b] && [b][1..] == [] && [a, b][2..] == [];
    assert Kept([b], live) == Kept([], live);
  }

  lemma {:induction false} NothingStale(answers: seq<Answer>, live: set<nat>)
    requires Stale(answers, live) == 0
    ensures Kept(answers, live) == answers && Purged(answers, live) == answers
  {
    if answers != [] {
      NothingStale(answers[1..], live);
    }
  }

  function Passes(answers: seq<Answer>, live: set<nat>, k: nat): seq<Answer>
    decreases k
  {
    if k == 0 then answers else Passes(Purged(answers, live), live, k - 1)
  }

  function TwoTo(k: nat): nat {
    if k == 0 then 1 else 2 * TwoTo(k - 1)
  }

  /** Repeated, the pass reaches the exact filtered list as soon as 2^k exceeds the number of stale answers. */
  lemma {:induction false} LogarithmicallyManyPasses(answers: seq<Answer>, live: set<nat>, k: nat)
    requires Stale(answers, live) < TwoTo(k)
    ensures Passes(answers, live, k) == Kept(answers, live)
    decreases k
  {
    if k == 0 {
      NothingStale(answers, live);
    } else {
      OnePass(answers, live);
      LogarithmicallyManyPasses(Purged(answers, live), live, k - 1);
    }
  }
}
