/**
  Times as integers: fitting a session to its slots, and spacing out the
  entries of a slot.
 */
module Timing {
  import opened Common

  datatype Interval = Interval(start: int, duration: int) {
    function End(): int {
      start + duration
    }
  }

  /** The earliest start, if it is before `bound`, otherwise `bound`. */
  function Earliest(slots: seq<Interval>, bound: int): (r: int)
    ensures r <= bound && forall i :: 0 <= i < |slots| ==> r <= slots[i].start
    ensures r == bound || exists i :: 0 <= i < |slots| && r == slots[i].start
  {
    if slots == [] then bound
    else
      var n := |slots| - 1;
      Min(Earliest(slots[..n], bound), slots[n].start)
  }

  /** The latest end, if it is after `bound`, otherwise `bound`. */
  function Latest(slots: seq<Interval>, bound: int): (r: int)
    ensures r >= bound && forall i :: 0 <= i < |slots| ==> r >= slots[i].End()
    ensures r == bound || exists i :: 0 <= i < |slots| && r == slots[i].End()
  {
    if slots == [] then bound
    else
      var n := |slots| - 1;
      Max(Latest(slots[..n], bound), slots[n].End())
  }

  /** What `fit` makes of a session. */
  function Fitted(session: Interval, slots: seq<Interval>): Interval {
    if slots == [] then session
    else
      var start := Earliest(slots, session.End());
      Interval(start, Latest(slots, start) - start)
  }

  predicate Covers(session: Interval, slots: seq<Interval>) {
    forall i :: 0 <= i < |slots| ==> session.start <= slots[i].start && slots[i].End() <= session.End()
  }

  predicate StartsWith(session: Interval, slots: seq<Interval>) {
    exists i :: 0 <= i < |slots| && slots[i].start == session.start
  }

  predicate EndsWith(session: Interval, slots: seq<Interval>) {
    exists i :: 0 <= i < |slots| && slots[i].End() == session.End()
  }

  /** The smallest interval around the slots. */
  predicate Hull(session: Interval, slots: seq<Interval>) {
    Covers(session, slots) && StartsWith(session, slots) && EndsWith(session, slots)
  }

  predicate NoneNegative(slots: seq<Interval>) {
    forall i :: 0 <= i < |slots| ==> slots[i].duration >= 0
  }

  lemma HullIsUnique(a: Interval, b: Interval, slots: seq<Interval>)
    requires Hull(a, slots) && Hull(b, slots)
    ensures a == b
  {
  }

  /** One fit covers every slot. */
  lemma FitCovers(session: Interval, slots: seq<Interval>)
    ensures Covers(Fitted(session, slots), slots)
  {
  }

  /**
    One fit gives the hull exactly when some slot starts no later than the old
    session end. Otherwise it starts at that end, ahead of every slot.
   */
  lemma FitIsHullIff(session: Interval, slots: seq<Interval>)
    requires slots != [] && NoneNegative(slots)
    ensures Hull(Fitted(session, slots), slots) <==> exists i :: 0 <= i < |slots| && slots[i].start <= session.End()
    ensures EndsWith(Fitted(session, slots), slots)
    ensures !Hull(Fitted(session, slots), slots) ==> Fitted(session, slots).start == session.End()
  {
    var f := Fitted(session, slots);
    assert slots[0].End() >= f.start;
    if i :| 0 <= i < |slots| && slots[i].start <= session.End() {
      assert StartsWith(f, slots);
      assert slots[i].End() >= f.start;
      assert EndsWith(f, slots);
    }
  }

  /** Two fits always do, and a third changes nothing. */
  lemma TwoFitsAreHull(session: Interval, slots: seq<Interval>)
    requires slots != [] && NoneNegative(slots)
    ensures var twice := Fitted(Fitted(session, slots), slots);
            Hull(twice, slots) && Fitted(twice, slots) == twice
  {
    var once := Fitted(session, slots);
    FitCovers(session, slots);
    assert slots[0].start <= once.End();
    FitIsHullIff(once, slots);
    var twice := Fitted(once, slots);
    assert slots[0].start <= twice.End();
    FitIsHullIff(twice, slots);
    HullIsUnique(twice, Fitted(twice, slots), slots);
  }

  /** A slot that only starts after the old session end leaves a gap at the front, for one fit. */
  lemma OneFitIsNotEnough()
    ensures Fitted(Interval(0, 10), [Interval(20, 5)]) == Interval(10, 15)
    ensures Fitted(Interval(10, 15), [Interval(20, 5)]) == Interval(20, 5)
  {
  }

  class Session {
    var startDate: int
    var duration: int
    var slots: seq<Interval>

    function Value(): Interval
      reads this`startDate, this`duration
    {
      Interval(startDate, duration)
    }

    method GetMinSlotStartDate() returns (date: int)
      ensures date == if slots == [] then startDate else Earliest(slots, Value().End())
    {
      if |slots| == 0 {
        return startDate;
      }
      date := startDate + duration;
      for i := 0 to |slots|
        invariant date == Earliest(slots[..i], Value().End())
      {
        assert slots[..i + 1][..i] == slots[..i];
        if slots[i].start < date {
          date := slots[i].start;
        }
      }
      assert slots[..|slots|] == slots;
    }

    method GetMaxSlotEndDate() returns (date: int)
      ensures date == if slots == [] then Value().End() else Latest(slots, startDate)
    {
      if |slots| == 0 {
        return startDate + duration;
      }
      date := startDate;
      for i := 0 to |slots|
        invariant date == Latest(slots[..i], startDate)
      {
        assert slots[..i + 1][..i] == slots[..i];
        if slots[i].End() > date {
          date := slots[i].End();
        }
      }
      assert slots[..|slots|] == slots;
    }

    /** Unchecked: moving the start takes the end along. */
    method SetStartDate(date: int)
      modifies this`startDate
      ensures startDate == date
    {
      startDate := date;
    }

    method SetEndDate(date: int)
      modifies this`duration
      ensures duration == date - startDate
    {
      duration := date - startDate;
    }

    method Fit()
      modifies this`startDate, this`duration
      ensures Value() == Fitted(old(Value()), slots)
    {
      var start := GetMinSlotStartDate();
      SetStartDate(start);
      var end := GetMaxSlotEndDate();
      SetEndDate(end);
    }
  }

  // ------------------------------------------------------- spacing entries

  class Entry {
    var start: int
    var duration: int

    function Value(): Interval
      reads this
    {
      Interval(start, duration)
    }
  }

  function Values(entries: seq<Entry>): (r: seq<Interval>)
    reads entries
    ensures |r| == |entries| && forall i :: 0 <= i < |r| ==> r[i] == entries[i].Value()
  {
    if entries == [] then [] else Values(entries[..|entries| - 1]) + [entries[|entries| - 1].Value()]
  }

  /** Time taken by the first `i` entries, each followed by `diff`. */
  function Elapsed(entries: seq<Interval>, diff: int, i: nat): int
    requires i <= |entries|
  {
    if i == 0 then 0 else Elapsed(entries, diff, i - 1) + entries[i - 1].duration + diff
  }

  /**
    In "duration" mode, the slot's end once the first `i` entries have their new
    durations: an entry that ends after the slot stretches it.
   */
  function EndAfter(entries: seq<Interval>, end: int, diff: int, i: nat): (r: int)
    requires i < |entries|
    ensures r >= end
  {
    if i == 0 then end else Max(EndAfter(entries, end, diff, i - 1), entries[i].start - diff)
  }

  /** That is the old end, or `diff` before the latest start among the entries after the first. */
  lemma {:induction false} EndAfterIs(entries: seq<Interval>, end: int, diff: int, i: nat)
    requires i < |entries|
    ensures var r := EndAfter(entries, end, diff, i);
            && r >= end && (forall k :: 0 < k <= i ==> r >= entries[k].start - diff)
            && (r == end || exists k :: 0 < k <= i && r == entries[k].start - diff)
  {
    if i > 0 {
      EndAfterIs(entries, end, diff, i - 1);
    }
  }

  /** The length left for entry `i`. */
  function Room(entries: seq<Interval>, end: int, diff: int, i: nat): int
    requires i < |entries|
  {
    if i + 1 == |entries|
    then EndAfter(entries, end, diff, i) - entries[i].start
    else entries[i + 1].start - entries[i].start - diff
  }

  lemma RoomForAll(entries: seq<Interval>, end: int, diff: int)
    ensures (forall i :: 0 <= i < |entries| ==> Room(entries, end, diff, i) >= 0) <==>
              && (forall i :: 0 <= i < |entries| - 1 ==> entries[i].start + diff <= entries[i + 1].start)
              && var n := |entries| - 1;
                 (n >= 0 ==> entries[n].start <= EndAfter(entries, end, diff, n))
  {
    forall i | 0 <= i < |entries| - 1
      ensures Room(entries, end, diff, i) >= 0 <==> entries[i].start + diff <= entries[i + 1].start
    {
    }
    var n := |entries| - 1;
    assert n >= 0 ==> (Room(entries, end, diff, n) >= 0 <==> entries[n].start <= EndAfter(entries, end, diff, n));
  }

  /** While no entry starts later than `diff` after the slot's end, the slot is not stretched. */
  lemma {:induction false} NotStretched(entries: seq<Interval>, end: int, diff: int, i: nat)
    requires i < |entries| && forall j :: 0 <= j < |entries| ==> entries[j].start - diff <= end
    ensures EndAfter(entries, end, diff, i) == end
  {
    if i > 0 {
      NotStretched(entries, end, diff, i - 1);
    }
  }

  predicate AllDifferent(entries: seq<Entry>) {
    forall i, j :: 0 <= i < j < |entries| ==> entries[i] != entries[j]
  }

  class SessionSlot {
    var startDate: int
    var duration: int
    var entries: seq<Entry>

    function End(): int
      reads this`startDate, this`duration
    {
      startDate + duration
    }

    /** Entry `i` is followed by the next one at a distance of exactly `diff`. */
    ghost predicate Apart(diff: int, i: int)
      requires 0 <= i < |entries| - 1
      reads this`entries, entries
    {
      entries[i + 1].start == entries[i].start + entries[i].duration + diff
    }

    ghost predicate Spaced(diff: int)
      reads this`entries, entries
    {
      forall i {:trigger Apart(diff, i)} :: 0 <= i < |entries| - 1 ==> Apart(diff, i)
    }

    /** Entry `i` starts when the slot starts plus all that the earlier entries take, and is as long as before. */
    ghost predicate Restarted(was: seq<Interval>, diff: int, i: int)
      requires 0 <= i < |entries| == |was|
      reads this`startDate, this`entries, entries
    {
      entries[i].start == startDate + Elapsed(was, diff, i) && entries[i].duration == was[i].duration
    }

    /** `recalculateTimes("startingTime", diff)`. */
    method RecalculateStarts(diff: int) returns (ghost was: seq<Interval>)
      requires AllDifferent(entries)
      modifies this`duration, entries`start
      ensures was == old(Values(entries))
      ensures forall i {:trigger Restarted(was, diff, i)} :: 0 <= i < |entries| ==> Restarted(was, diff, i)
      ensures Spaced(diff)
      ensures |entries| == 0 ==> End() == old(End())
      ensures |entries| > 0 ==>
                && entries[0].start == startDate
                && var last := entries[|entries| - 1];
                   End() == Max(old(End()), last.start + last.duration + diff)
    {
      was := Values(entries);
      var st := Restart(diff, was);
      SpacedOut(was, diff);
      if |entries| != 0 && End() < st {
        duration := st - startDate;
      }
      assert forall i :: 0 <= i < |entries| ==> Restarted(was, diff, i);
    }

    method Restart(diff: int, ghost was: seq<Interval>) returns (st: int)
      requires AllDifferent(entries) && was == Values(entries)
      modifies entries`start
      ensures st == startDate + Elapsed(was, diff, |entries|)
      ensures forall i {:trigger Restarted(was, diff, i)} :: 0 <= i < |entries| ==> Restarted(was, diff, i)
    {
      st := startDate;
      for i := 0 to |entries|
        invariant st == startDate + Elapsed(was, diff, i)
        invariant forall j {:trigger Restarted(was, diff, j)} :: 0 <= j < i ==> Restarted(was, diff, j)
      {
        assert was[i].duration == entries[i].duration;
        label Before:
        entries[i].start := st;
        st := entries[i].start + entries[i].duration + diff;
        assert Restarted(was, diff, i);
        forall j | 0 <= j < i ensures Restarted(was, diff, j) {
          assert old@Before(Restarted(was, diff, j)) && entries[j] != entries[i];
        }
      }
    }

    lemma SpacedOut(was: seq<Interval>, diff: int)
      requires |was| == |entries|
      requires forall i {:trigger Restarted(was, diff, i)} :: 0 <= i < |entries| ==> Restarted(was, diff, i)
      ensures Spaced(diff)
      ensures |was| > 0 ==>
                && entries[0].start == startDate
                && var last := entries[|entries| - 1];
                   last.start + last.duration + diff == startDate + Elapsed(was, diff, |was|)
    {
      forall i | 0 <= i < |entries| - 1 ensures Apart(diff, i) {
        assert Restarted(was, diff, i) && Restarted(was, diff, i + 1);
      }
      assert |was| > 0 ==> Restarted(was, diff, 0) && Restarted(was, diff, |was| - 1);
    }

    /** `setDuration` on an entry of this slot. */
    method SetDuration(entry: Entry, dur: int)
      modifies this`duration, entry`duration
      ensures entry.duration == dur && End() == Max(old(End()), entry.start + dur)
    {
      entry.duration := dur;
      if entry.start + dur > End() {
        duration := entry.start + dur - startDate;
      }
    }

    /** Entry `i` starts as before and takes up its room. */
    ghost predicate Filled(was: seq<Interval>, end: int, diff: int, i: int)
      requires 0 <= i < |entries| == |was|
      reads this`entries, entries
    {
      entries[i].start == was[i].start && entries[i].duration == Room(was, end, diff, i) >= 0
    }

    lemma FilledIsSpaced(was: seq<Interval>, end: int, diff: int)
      requires |was| == |entries|
      requires forall i {:trigger Filled(was, end, diff, i)} :: 0 <= i < |entries| ==> Filled(was, end, diff, i)
      ensures Spaced(diff) && forall i :: 0 <= i < |entries| ==> entries[i].duration >= 0
      ensures |was| > 0 ==>
                entries[|was| - 1].start + entries[|was| - 1].duration == EndAfter(was, end, diff, |was| - 1)
    {
      forall i | 0 <= i < |entries| ensures entries[i].duration >= 0 && (i < |entries| - 1 ==> Apart(diff, i)) {
        assert Filled(was, end, diff, i);
        if i < |entries| - 1 {
          assert Filled(was, end, diff, i + 1);
        }
      }
      assert |was| > 0 ==> Filled(was, end, diff, |was| - 1);
    }

    /** The first `done` entries have their new durations, the others still the old ones. */
    ghost predicate FilledUpTo(was: seq<Interval>, end: int, diff: int, done: nat)
      requires |entries| == |was|
      reads this`entries, entries
    {
      && (forall i {:trigger Filled(was, end, diff, i)} :: 0 <= i < done && i < |entries| ==> Filled(was, end, diff, i))
      && (forall i :: done <= i < |entries| ==> entries[i].duration == was[i].duration)
    }

    /**
      `recalculateTimes("duration", diff)`. It fails at the first entry that would
      get a negative duration; the entries before it have been changed by then.
     */
    method RecalculateDurations(diff: int) returns (ok: bool, ghost was: seq<Interval>, ghost done: nat)
      requires AllDifferent(entries)
      modifies this`duration, entries`duration
      ensures was == old(Values(entries)) && done <= |was|
      ensures ok <==>
                && (forall i :: 0 <= i < |was| - 1 ==> was[i].start + diff <= was[i + 1].start)
                && (|was| > 0 ==> was[|was| - 1].start <= EndAfter(was, old(End()), diff, |was| - 1))
      ensures ok <==> done == |was|
      ensures !ok ==> Room(was, old(End()), diff, done) < 0 && End() == EndAfter(was, old(End()), diff, done)
      ensures FilledUpTo(was, old(End()), diff, done)
      ensures forall i :: 0 <= i < |entries| ==> entries[i].start == was[i].start
      ensures ok ==> Spaced(diff) && forall i :: 0 <= i < |entries| ==> entries[i].duration >= 0
      ensures ok && |entries| > 0 ==>
                && entries[|entries| - 1].start + entries[|entries| - 1].duration == End()
                && End() == EndAfter(was, old(End()), diff, |was| - 1)
      ensures |entries| == 0 ==> End() == old(End())
    {
      was := Values(entries);
      ghost var end := End();
      RoomForAll(was, end, diff);
      ok, done := FillAll(diff, was, end);
      if !ok {
        return;
      }
      FilledIsSpaced(was, end, diff);
      // the last entry ends with the slot, so the check that would extend the slot after it never fires
    }

    method FillAll(diff: int, ghost was: seq<Interval>, ghost end: int) returns (ok: bool, ghost done: nat)
      requires AllDifferent(entries) && was == Values(entries) && end == End()
      modifies this`duration, entries`duration
      ensures done <= |was| && FilledUpTo(was, end, diff, done)
      ensures ok <==> forall i :: 0 <= i < |was| ==> Room(was, end, diff, i) >= 0
      ensures ok <==> done == |was|
      ensures !ok ==> Room(was, end, diff, done) < 0 && End() == EndAfter(was, end, diff, done)
      ensures ok ==> End() == if |was| == 0 then end else EndAfter(was, end, diff, |was| - 1)
    {
      var i := 0;
      while i < |entries|
        invariant 0 <= i <= |entries|
        invariant End() == if |was| == 0 then end else EndAfter(was, end, diff, if i < |was| then i else i - 1)
        invariant FilledUpTo(was, end, diff, i)
      {
        var dur;
        if i + 1 == |entries| {
          dur := End() - entries[i].start;
        } else {
          dur := entries[i + 1].start - entries[i].start - diff;
        }
        assert was[i].start == entries[i].start && (i + 1 < |entries| ==> was[i + 1].start == entries[i + 1].start);
        if dur < 0 {
          assert Room(was, end, diff, i) < 0;
          return false, i;
        }
        FillOne(i, dur, was, end, diff);
        i := i + 1;
      }
      forall j | 0 <= j < |was| ensures Room(was, end, diff, j) >= 0 {
        assert Filled(was, end, diff, j);
      }
      return true, i;
    }

    method FillOne(i: nat, dur: int, ghost was: seq<Interval>, ghost end: int, ghost diff: int)
      requires AllDifferent(entries) && i < |entries| == |was|
      requires entries[i].start == was[i].start && dur == Room(was, end, diff, i) >= 0
      requires FilledUpTo(was, end, diff, i)
      modifies this`duration, entries`duration
      ensures FilledUpTo(was, end, diff, i + 1)
      ensures End() == Max(old(End()), was[i].start + dur)
    {
      SetDuration(entries[i], dur);
      forall j | 0 <= j < i ensures Filled(was, end, diff, j) {
        assert old(Filled(was, end, diff, j)) && entries[j] != entries[i];
      }
      assert Filled(was, end, diff, i);
      forall j | i + 1 <= j < |entries| ensures entries[j].duration == was[j].duration {
        assert entries[j] != entries[i];
      }
    }
  }
}
