/**
  Recovery of a database to a past date by undoing transactions. The log is
  read in pages of 1000, newest first, while every undo adds a transaction of
  its own in front.
 */
module UndoPaging {

  datatype Txn = Txn(id: nat, time: int)

  const PAGE: nat := 1000

  datatype Outcome = Recovered(undone: nat) | FutureDate

  /** Entries [step*PAGE, (step+1)*PAGE) of a newest-first log, cut at its end. */
  function Page(log: seq<Txn>, step: nat): seq<Txn> {
    var lo := if step * PAGE <= |log| then step * PAGE else |log|;
    var hi := if (step + 1) * PAGE <= |log| then (step + 1) * PAGE else |log|;
    log[lo..hi]
  }

  /** Length of the longest prefix of transactions newer than `t`. */
  function NewerPrefix(log: seq<Txn>, t: int): (n: nat)
    ensures n <= |log|
    ensures forall k :: 0 <= k < n ==> log[k].time > t
    ensures n < |log| ==> log[n].time <= t
  {
    if log == [] || log[0].time <= t then 0 else 1 + NewerPrefix(log[1..], t)
  }

  /** A last, incomplete page gives up its oldest entry. */
  function Limit(log: seq<Txn>): nat {
    if |log| % PAGE == 0 then |log| else |log| - 1
  }

  function UndoCount(log: seq<Txn>, t: int): nat {
    if NewerPrefix(log, t) <= Limit(log) then NewerPrefix(log, t) else Limit(log)
  }

  /**
    After `p` full pages the log holds `p` pages of commits in front, so page
    `2p` of the current log is page `p` of the original one.
   */
  lemma PageShift(start: seq<Txn>, log: seq<Txn>, p: nat)
    requires |log| == p * PAGE + |start| && log[p * PAGE..] == start
    requires p * PAGE <= |start|
    ensures Page(log, 2 * p) == Page(start, p)
  {
    var a, b := Page(log, 2 * p), Page(start, p);
    forall k | 0 <= k < |b| ensures a[k] == b[k] {
      assert log[p * PAGE..][p * PAGE + k] == log[2 * p * PAGE + k];
    }
  }

  predicate AllNewer(log: seq<Txn>, j: nat, t: int)
    requires j <= |log|
  {
    forall k :: 0 <= k < j ==> log[k].time > t
  }

  /** Entry `i` of page `p`, if the loop may look at it. */
  lemma OnPage(start: seq<Txn>, p: nat, i: nat)
    requires p * PAGE <= |start|
    requires i < (if |Page(start, p)| < PAGE then |Page(start, p)| - 1 else |Page(start, p)|)
    ensures p * PAGE + i < |start| && Page(start, p)[i] == start[p * PAGE + i] && p * PAGE + i + 1 <= Limit(start)
  {
  }

  /** Where the loop stops looking, the limit is reached. */
  lemma PageEnds(start: seq<Txn>, p: nat, i: nat)
    requires p * PAGE + i <= Limit(start) && i < PAGE && p * PAGE <= |start|
    requires i >= (if |Page(start, p)| < PAGE then |Page(start, p)| - 1 else |Page(start, p)|)
    ensures p * PAGE + i == Limit(start)
  {
  }

  lemma UndoCountIs(log: seq<Txn>, t: int, j: nat)
    requires j <= |log| && j <= Limit(log) && AllNewer(log, j, t)
    requires j < Limit(log) ==> log[j].time <= t
    ensures UndoCount(log, t) == j
  {
  }

  lemma UndoCountSpelledOut(log: seq<Txn>, t: int)
    ensures var n := UndoCount(log, t);
            && n <= |log| && (forall k :: 0 <= k < n ==> log[k].time > t)
            && (|log| % 1000 != 0 ==> n < |log|)
            && (n < |log| ==> log[n].time <= t || (n == |log| - 1 && |log| % 1000 != 0))
  {
  }

  class Database {
    var log: seq<Txn>          // newest first
    ghost var undone: seq<Txn> // transactions undone so far, in order
    ghost var pending: bool    // an undo awaits its commit

    constructor (log: seq<Txn>)
      ensures this.log == log && undone == [] && !pending
    {
      this.log := log;
      undone := [];
      pending := false;
    }

    method UndoInfo(step: nat) returns (ui: seq<Txn>)
      ensures ui == Page(log, step)
    {
      ui := Page(log, step);
    }

    method Undo(t: Txn)
      requires !pending && t in log
      modifies this
      ensures undone == old(undone) + [t] && log == old(log) && pending
    {
      undone := undone + [t];
      pending := true;
    }

    /** `id` and `time` of the new transaction are the database's choice. */
    method Commit(id: nat, time: int)
      requires pending
      modifies this
      ensures |log| == |old(log)| + 1 && log[1..] == old(log) && undone == old(undone) && !pending
    {
      log := [Txn(id, time)] + log;
      pending := false;
    }

    /** `j` transactions of `start` have been undone, and each undo committed. */
    ghost predicate Undid(start: seq<Txn>, j: nat)
      reads this
    {
      j <= |start| && |log| == j + |start| && log[j..] == start && undone == start[..j] && !pending
    }

    /** The next page, and how much of it the loop looks at. */
    method ReadPage(step: nat, ghost start: seq<Txn>, ghost p: nat) returns (ui: seq<Txn>, length: int)
      requires step == 2 * p && Undid(start, p * PAGE)
      ensures ui == Page(start, p) && length == if |ui| < PAGE then |ui| - 1 else |ui|
    {
      PageShift(start, log, p);
      ui := UndoInfo(step);
      length := |ui|;
      if length < PAGE {
        length := length - 1;
      }
    }

    /** One turn of the loop: `undo` by id, then `commit`. */
    method UndoNext(ghost start: seq<Txn>, ghost j: nat, t: Txn, stamp: Txn)
      requires Undid(start, j) && j < |start| && t == start[j]
      modifies this
      ensures Undid(start, j + 1)
    {
      assert log[j..][j] == log[j + j];
      ghost var before := log;
      Undo(t);
      Commit(stamp.id, stamp.time);
      assert log[j + 1..] == log[1..][j..] == before[j..];
      assert start[..j] + [start[j]] == start[..j + 1];
    }

    /**
      `stamp` stands for the ids and times the commits get: the result must not
      depend on them.
     */
    method Proceed(now: int, dt: int, stamp: nat -> Txn) returns (out: Outcome)
      requires !pending && undone == []
      modifies this
      ensures out.FutureDate? <==> dt > now
      ensures out.FutureDate? ==> log == old(log) && undone == []
      // exactly this prefix of the original log is undone, newest first, each once
      ensures out.Recovered? ==> out.undone == UndoCount(old(log), dt)
      ensures out.Recovered? ==> undone == old(log)[..out.undone]
      // it ends where a transaction is not newer, or where a last page that is short has one entry left
      ensures out.Recovered? ==>
                && (forall k :: 0 <= k < out.undone && k < |old(log)| ==> old(log)[k].time > dt)
                && (|old(log)| % 1000 != 0 ==> out.undone < |old(log)|)
                && (out.undone < |old(log)| ==>
                      old(log)[out.undone].time <= dt || (out.undone == |old(log)| - 1 && |old(log)| % 1000 != 0))
      // the log is the original one behind one commit per undo
      ensures out.Recovered? ==> |log| == out.undone + |old(log)| && log[out.undone..] == old(log)
    {
      if dt > now {
        return FutureDate;
      }
      ghost var start := log;
      var count := UndoPages(dt, stamp);
      UndoCountSpelledOut(start, dt);
      return Recovered(count);
    }

    /** The counters of the loop for entry `i` of page `p`. */
    ghost predicate Reading(start: seq<Txn>, p: nat, i: nat, step: nat, ui: seq<Txn>, length: int) {
      && i < PAGE && p * PAGE + i <= Limit(start) && step == 2 * p
      && ui == Page(start, p) && length == if |ui| < PAGE then |ui| - 1 else |ui|
    }

    /** On to the next entry, and to the next page with it after the last one of a page. */
    method NextEntry(i: nat, step: nat, ui: seq<Txn>, length: int, ghost start: seq<Txn>, ghost p: nat)
      returns (i': nat, step': nat, ui': seq<Txn>, length': int, ghost p': nat)
      requires Reading(start, p, i, step, ui, length) && i < length && Undid(start, p * PAGE + i + 1)
      ensures Reading(start, p', i', step', ui', length') && p' * PAGE + i' == p * PAGE + i + 1
    {
      OnPage(start, p, i);
      i', step', ui', length', p' := i + 1, step, ui, length, p;
      if i' == PAGE {
        step', p' := step + 2, p + 1;
        ui', length' := ReadPage(step', start, p');
        i' := 0;
      }
    }

    method FirstPage(ghost start: seq<Txn>) returns (ui: seq<Txn>, length: int)
      requires !pending && undone == [] && start == log
      ensures Reading(start, 0, 0, 0, ui, length) && Undid(start, 0)
    {
      ui, length := ReadPage(0, start, 0);
    }

    /** One turn of the loop over the entries. */
    method Turn(i: nat, step: nat, ui: seq<Txn>, length: int, stamp: Txn, ghost start: seq<Txn>, ghost p: nat)
      returns (i': nat, step': nat, ui': seq<Txn>, length': int, ghost p': nat)
      requires Reading(start, p, i, step, ui, length) && i < length && Undid(start, p * PAGE + i)
      modifies this
      ensures Reading(start, p', i', step', ui', length') && Undid(start, p' * PAGE + i')
      ensures p' * PAGE + i' == p * PAGE + i + 1 && p * PAGE + i < |start| && ui[i] == start[p * PAGE + i]
    {
      OnPage(start, p, i);
      UndoNext(start, p * PAGE + i, ui[i], stamp);
      i', step', ui', length', p' := NextEntry(i, step, ui, length, start, p);
    }

    /** The loop over the pages. */
    method UndoPages(dt: int, stamp: nat -> Txn) returns (j: nat)
      requires !pending && undone == []
      modifies this
      ensures j == UndoCount(old(log), dt) && Undid(old(log), j)
    {
      var i: nat, step: nat := 0, 0;
      j := 0;
      ghost var start, p: nat := log, 0;
      var ui, length := FirstPage(start);
      while i < length && ui[i].time > dt
        invariant Reading(start, p, i, step, ui, length) && j == p * PAGE + i && Undid(start, j)
        invariant AllNewer(start, j, dt)
        decreases |start| - j
      {
        i, step, ui, length, p := Turn(i, step, ui, length, stamp(j), start, p);
        j := j + 1;
      }
      StoppedThere(start, p, i, step, ui, length, dt);
    }

    lemma StoppedThere(start: seq<Txn>, p: nat, i: nat, step: nat, ui: seq<Txn>, length: int, dt: int)
      requires Reading(start, p, i, step, ui, length) && p * PAGE + i <= |start|
      requires AllNewer(start, p * PAGE + i, dt) && (i < length ==> ui[i].time <= dt)
      ensures UndoCount(start, dt) == p * PAGE + i
    {
      if i < length {
        OnPage(start, p, i);
      } else {
        PageEnds(start, p, i);
      }
      UndoCountIs(start, dt, p * PAGE + i);
    }
  }

  ghost predicate NewestFirst(log: seq<Txn>) {
    forall i, j :: 0 <= i < j < |log| ==> log[i].time > log[j].time
  }

  /** On a log in time order the prefix is the whole set of newer transactions. */
  lemma UndoesAllNewer(log: seq<Txn>, t: int, k: nat)
    requires NewestFirst(log) && k < |log|
    ensures k < UndoCount(log, t) <==> log[k].time > t && k < Limit(log)
  {
  }

  /**
    Every newer transaction is undone, unless even the oldest one is newer and
    the log does not end on a page boundary: then exactly that one survives.
   */
  lemma OldestMaySurvive(log: seq<Txn>, t: int)
    ensures UndoCount(log, t) == NewerPrefix(log, t) <==>
              log == [] || |log| % PAGE == 0 || exists k :: 0 <= k < |log| && log[k].time <= t
    ensures UndoCount(log, t) < NewerPrefix(log, t) ==>
              UndoCount(log, t) == |log| - 1 && NewerPrefix(log, t) == |log|
  {
  }
}
