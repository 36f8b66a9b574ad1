/**
  The reviewing objects themselves, changed in place. Each request is proved
  against the step of the state machine it stands for.
 */
module ReviewManagers {
  import opened Common
  import opened AnswerPurge
  import opened Reviewing

  class Review {
    const version: nat
    var referee: Judgement
    var editor: Judgement
    var reviewers: map<User, Judgement>
    var authorSubmitted: bool
    var materials: bool

    function Value(): ReviewState
      reads this
    {
      ReviewState(referee, editor, reviewers, authorSubmitted, materials)
    }

    constructor (version: nat)
      ensures this.version == version && Value() == NewReview(version, [])
    {
      this.version := version;
      referee, editor, reviewers, authorSubmitted, materials := EMPTY, EMPTY, map[], false, false;
    }

    method AddReviewerJudgement(u: User)
      modifies this`reviewers
      ensures reviewers == old(reviewers)[u := EMPTY]
    {
      reviewers := reviewers[u := EMPTY];
    }

    method Store(role: Role, j: Judgement)
      modifies this`referee, this`editor, this`reviewers
      ensures Value() == WithJudgement(old(Value()), role, j)
    {
      match role
      case Referee => referee := j;
      case Editor => editor := j;
      case Reviewer(u) => reviewers := reviewers[u := j];
    }
  }

  function Ids(reviews: seq<Review>): (ids: seq<nat>)
    ensures |ids| == |reviews| && forall i :: 0 <= i < |ids| ==> ids[i] == reviews[i].version
  {
    if reviews == [] then [] else [reviews[0].version] + Ids(reviews[1..])
  }

  /** The members of a list. */
  function Members<T(==)>(s: seq<T>): set<T> {
    set x | x in s
  }

  /** `list.append` and `list.remove`, on a list in which nothing occurs twice. */
  lemma MembersChange<T>(s: seq<T>, x: T)
    requires Distinct(s)
    ensures Members(s + [x]) == Members(s) + {x} && (x !in s ==> Distinct(s + [x]))
    ensures Members(WithoutFirst(s, x)) == Members(s) - {x} && Distinct(WithoutFirst(s, x))
    ensures forall y :: y in WithoutFirst(s, x) ==> y in s
  {
    WithoutDistinct(s, x);
  }

  /** The conference's side: mode, statuses and questions. */
  class ConferencePaperReview {
    var mode: Mode
    var statuses: seq<Status>
    var names: map<Status, string>
    var nextStatus: nat
    var reviewingQuestions: seq<nat>
    var layoutQuestions: seq<nat>
    var nextQuestion: nat

    function Value(): Setting
      reads this
    {
      Setting(mode, Members(statuses), names, nextStatus, Members(reviewingQuestions), Members(layoutQuestions),
              nextQuestion)
    }

    /** Ids come from counters, so no list holds one twice. */
    ghost predicate InOrder()
      reads this
    {
      && Distinct(statuses) && (forall id :: id in statuses ==> id < nextStatus)
      && Distinct(reviewingQuestions) && (forall q :: q in reviewingQuestions ==> q < nextQuestion)
      && Distinct(layoutQuestions) && (forall q :: q in layoutQuestions ==> q < nextQuestion)
    }

    constructor (mode: Mode)
      ensures Value() == InitialSetting(mode) && InOrder() && statuses == [ACCEPT, TO_BE_CORRECTED, REJECT]
    {
      this.mode := mode;
      statuses, names, nextStatus := [], map[], 1;
      reviewingQuestions, layoutQuestions, nextQuestion := [], [], 1;
      new;
      AddStatus("Accept");
      AddStatus("To be corrected");
      AddStatus("Reject");
    }

    method SetChoice(mode: Mode)
      requires InOrder()
      modifies this`mode
      ensures InOrder() && Value() == old(Value()).(mode := mode)
    {
      this.mode := mode;
    }

    method AddStatus(name: string)
      requires InOrder()
      modifies this`statuses, this`names, this`nextStatus
      ensures InOrder() && statuses == old(statuses) + [old(nextStatus)]
      ensures Value() == WithStatus(old(Value()), name)
    {
      MembersChange(statuses, nextStatus);
      statuses, names, nextStatus := statuses + [nextStatus], names[nextStatus := name], nextStatus + 1;
    }

    method RemoveStatus(id: Status) returns (ok: bool)
      requires InOrder()
      modifies this`statuses
      ensures (ok <==> id in old(statuses)) && InOrder() && statuses == WithoutFirst(old(statuses), id)
      ensures Value() == old(Value()).(listed := old(Value()).listed - {id})
    {
      MembersChange(statuses, id);
      ok := id in statuses;
      statuses := WithoutFirst(statuses, id);
    }

    /** Any status of the list can be renamed, the fixed ones included. */
    method EditStatus(id: Status, name: string) returns (ok: bool)
      requires InOrder()
      modifies this`names
      ensures (ok <==> id in statuses) && InOrder()
      ensures names == if ok then old(names)[id := name] else old(names)
    {
      ok := id in statuses;
      if ok {
        names := names[id := name];
      }
    }

    method AddReviewingQuestion()
      requires InOrder()
      modifies this`reviewingQuestions, this`nextQuestion
      ensures InOrder() && reviewingQuestions == old(reviewingQuestions) + [old(nextQuestion)]
      ensures Value() == WithQuestion(old(Value()), false)
    {
      MembersChange(reviewingQuestions, nextQuestion);
      reviewingQuestions, nextQuestion := reviewingQuestions + [nextQuestion], nextQuestion + 1;
    }

    method RemoveReviewingQuestion(q: nat) returns (ok: bool)
      requires InOrder()
      modifies this`reviewingQuestions
      ensures (ok <==> q in old(reviewingQuestions)) && InOrder()
      ensures reviewingQuestions == WithoutFirst(old(reviewingQuestions), q)
      ensures Value() == WithoutQuestion(old(Value()), false, q)
    {
      MembersChange(reviewingQuestions, q);
      ok := q in reviewingQuestions;
      reviewingQuestions := WithoutFirst(reviewingQuestions, q);
    }

    method AddLayoutQuestion()
      requires InOrder()
      modifies this`layoutQuestions, this`nextQuestion
      ensures InOrder() && layoutQuestions == old(layoutQuestions) + [old(nextQuestion)]
      ensures Value() == WithQuestion(old(Value()), true)
    {
      MembersChange(layoutQuestions, nextQuestion);
      layoutQuestions, nextQuestion := layoutQuestions + [nextQuestion], nextQuestion + 1;
    }

    method RemoveLayoutQuestion(q: nat) returns (ok: bool)
      requires InOrder()
      modifies this`layoutQuestions
      ensures (ok <==> q in old(layoutQuestions)) && InOrder()
      ensures layoutQuestions == WithoutFirst(old(layoutQuestions), q)
      ensures Value() == WithoutQuestion(old(Value()), true, q)
    {
      MembersChange(layoutQuestions, q);
      ok := q in layoutQuestions;
      layoutQuestions := WithoutFirst(layoutQuestions, q);
    }
  }

  class ReviewManager {
    var counter: nat
    var review: Review            // the last review, one of `versioning`
    var versioning: seq<Review>
    var referee: Option<User>
    var editor: Option<User>
    var reviewers: seq<User>
    var paper: bool               // of the contribution
    const conference: ConferencePaperReview

    function Abs(): State
      reads this, review, conference
    {
      State(counter, Ids(versioning), review.version, review.Value(), referee, editor, reviewers, paper,
            conference.Value())
    }

    constructor (conference: ConferencePaperReview)
      ensures this.conference == conference && versioning == [review] && fresh(review)
      ensures Abs() == State(0, [0], 0, Reviewing.NewReview(0, []), None, None, [], false, conference.Value())
    {
      counter, referee, editor, reviewers, paper := 0, None, None, [], false;
      this.conference := conference;
      var r := new Review(0);
      review, versioning := r, [r];
    }

    /** `newReview`: the old review stays as it is, in its place. */
    method NewReview()
      modifies this
      ensures fresh(review) && versioning == old(versioning) + [review]
      ensures Abs() == NextVersion(old(Abs())).(paper := old(paper))
    {
      counter := counter + 1;
      review := new Review(counter);
      var i := 0;
      while i < |reviewers|
        invariant 0 <= i <= |reviewers| && fresh(review)
        invariant unchanged(`versioning, `reviewers, `referee, `editor, `paper)
        invariant counter == old(counter) + 1 && review.version == counter
        invariant review.Value() == Reviewing.NewReview(counter, reviewers[..i])
      {
        review.AddReviewerJudgement(reviewers[i]);
        assert forall u :: u in reviewers[..i + 1] <==> u in reviewers[..i] || u == reviewers[i];
        i := i + 1;
      }
      assert reviewers[..i] == reviewers;
      versioning := versioning + [review];
    }

    method SetReferee(u: User) returns (ok: bool)
      modifies this`referee
      ensures ok == Accepted(old(Abs()), Op.SetReferee(u)) && Abs() == Step(old(Abs()), Op.SetReferee(u))
      ensures (ok <==> old(referee) == None) && referee == if ok then Some(u) else old(referee)
    {
      ok := referee == None;
      if ok {
        referee := Some(u);
      }
    }

    method RemoveReferee() returns (ok: bool)
      modifies this`referee, this`editor, this`reviewers
      ensures ok == Accepted(old(Abs()), Op.RemoveReferee) && Abs() == Step(old(Abs()), Op.RemoveReferee)
      ensures ok <==> old(referee) != None
      ensures if ok then referee == None && editor == None && reviewers == []
              else unchanged(`referee, `editor, `reviewers)
    {
      ghost var s := Abs();
      ok := referee != None;
      if ok {
        if editor != None {
          var _ := RemoveEditor();
        }
        assert Abs() == s.(editor := None);
        if reviewers != [] {
          RemoveAllReviewers();
        }
        assert Abs() == s.(editor := None, reviewers := []);
        referee := None;
      }
    }

    method SetEditor(u: User) returns (ok: bool)
      modifies this`editor
      ensures ok == Accepted(old(Abs()), Op.SetEditor(u)) && Abs() == Step(old(Abs()), Op.SetEditor(u))
      ensures ok <==> old(editor) == None && (referee != None || conference.mode == LayoutReviewing)
      ensures editor == if ok then Some(u) else old(editor)
    {
      ok := editor == None && (referee != None || conference.mode == LayoutReviewing);
      if ok {
        editor := Some(u);
      }
    }

    method RemoveEditor() returns (ok: bool)
      modifies this`editor
      ensures ok == Accepted(old(Abs()), Op.RemoveEditor) && Abs() == Step(old(Abs()), Op.RemoveEditor)
      ensures (ok <==> old(editor) != None) && editor == None
    {
      ok := editor != None;
      editor := None;
    }

    /** A judgement the user left in the last review, before being removed, is kept. */
    method AddReviewer(u: User) returns (ok: bool)
      modifies this`reviewers, review`reviewers
      ensures ok == Accepted(old(Abs()), Op.AddReviewer(u)) && Abs() == Step(old(Abs()), Op.AddReviewer(u))
      ensures ok <==> u !in old(reviewers) && referee != None
      ensures reviewers == if ok then old(reviewers) + [u] else old(reviewers)
      ensures review.reviewers ==
                if ok && u !in old(review.reviewers) then old(review.reviewers)[u := Judgement(None, false, [], 1)]
                else old(review.reviewers)
    {
      ok := u !in reviewers && referee != None;
      if ok {
        reviewers := reviewers + [u];
        if u !in review.reviewers {
          review.AddReviewerJudgement(u);
        }
      }
    }

    method RemoveReviewer(u: User)
      modifies this`reviewers
      ensures Abs() == Step(old(Abs()), Op.RemoveReviewer(u))
      ensures reviewers == WithoutFirst(old(reviewers), u)
    {
      reviewers := WithoutFirst(reviewers, u);
    }

    method RemoveAllReviewers()
      modifies this`reviewers
      ensures Abs() == Step(old(Abs()), Op.RemoveAllReviewers) && reviewers == []
    {
      reviewers := [];
    }

    method SetAuthorSubmitted() returns (ok: bool)
      modifies review`authorSubmitted
      ensures ok == Accepted(old(Abs()), AuthorSubmits) && Abs() == Step(old(Abs()), AuthorSubmits)
      ensures (ok <==> paper) && review.authorSubmitted == (paper || old(review.authorSubmitted))
    {
      ok := paper;
      if ok {
        review.authorSubmitted := true;
      }
    }

    /** A change of judgement, as the service lets it through. */
    method SetJudgement(role: Role, id: Status) returns (ok: bool)
      modifies review`referee, review`editor, review`reviewers
      ensures ok == Accepted(old(Abs()), Op.SetJudgement(role, id))
      ensures Abs() == Step(old(Abs()), Op.SetJudgement(role, id))
      ensures role == Referee ==>
                && (ok <==> !old(review.referee.submitted))
                && review.referee == if !ok then old(review.referee)
                                     else old(review.referee).(status := if id in conference.statuses then Some(id)
                                                                         else None)
      ensures role != Referee ==> review.referee == old(review.referee)
    {
      var j := JudgementOf(review.Value(), role);
      ok := j.Some? && !j.value.submitted;
      if ok {
        review.Store(role, j.value.(status := if id in conference.statuses then Some(id) else None));
      }
    }

    /** `setAnswer`, as the service lets it through. */
    method SetAnswer(role: Role, question: nat) returns (ok: bool)
      modifies review`referee, review`editor, review`reviewers
      ensures ok == Accepted(old(Abs()), Op.SetAnswer(role, question))
      ensures Abs() == Step(old(Abs()), Op.SetAnswer(role, question))
    {
      var found := JudgementOf(review.Value(), role);
      if found == None || found.value.submitted {
        return false;
      }
      ok := EnsureAnswer(role, found.value, question);
    }

    /** Reading a criterion makes its answer too, also in a judgement that is submitted. */
    method ReadAnswer(role: Role, question: nat) returns (ok: bool)
      modifies review`referee, review`editor, review`reviewers
      ensures ok == Accepted(old(Abs()), Op.ReadAnswer(role, question))
      ensures Abs() == Step(old(Abs()), Op.ReadAnswer(role, question))
    {
      var found := JudgementOf(review.Value(), role);
      if found == None {
        return false;
      }
      ok := EnsureAnswer(role, found.value, question);
    }

    /** `getAnswer`, then `createAnswer` if there is none. */
    method EnsureAnswer(role: Role, j: Judgement, question: nat) returns (ok: bool)
      requires JudgementOf(review.Value(), role) == Some(j)
      modifies review`referee, review`editor, review`reviewers
      ensures ok <==> !Obstructed(j.answers, question)
      ensures Abs() == if ok then WithAnswer(old(Abs()), role, question) else old(Abs())
      ensures !ok <==> exists i :: 0 <= i < |j.answers| && j.answers[i].question == None
                                   && forall k :: 0 <= k < i ==> j.answers[k].question != Some(question)
    {
      ObstructedWhen(j.answers, question);
      for i := 0 to |j.answers|
        invariant forall k :: 0 <= k < i ==> j.answers[k].question != Some(question)
        invariant Obstructed(j.answers, question) <==> Obstructed(j.answers[i..], question)
        invariant review.Value() == old(review.Value())
      {
        if j.answers[i].question == None {
          return false;
        }
        if j.answers[i].question == Some(question) {
          assert WithJudgement(review.Value(), role, j) == review.Value();
          return true;
        }
      }
      var live := Questions(conference.Value(), role);
      var answer := Answer(j.counter, if question in live then Some(question) else None);
      review.Store(role, j.(answers := j.answers + [answer], counter := j.counter + 1));
      ok := true;
    }

    /** `setSubmitted`, on the judgement of the last review that the service toggles. */
    method ToggleSubmitted(role: Role) returns (ok: bool)
      modifies this, review
      ensures ok == Accepted(old(Abs()), Op.ToggleSubmitted(role))
      ensures Abs() == Step(old(Abs()), Op.ToggleSubmitted(role))
      ensures if ok && SendsPaperBack(old(Abs()), Op.ToggleSubmitted(role))
              then fresh(review) && versioning == old(versioning) + [review]
              else review == old(review) && versioning == old(versioning)
    {
      var found := JudgementOf(review.Value(), role);
      if found == None || found.value.status == None {
        return false;
      }
      var j, status := found.value, found.value.status.value;
      var copies := role == Referee || (role == Editor && conference.mode == LayoutReviewing && SendsBack(status));
      if copies && !paper {
        // the material to copy is missing: the request fails, and nothing it did is kept
        return false;
      }
      var answers := j.answers;
      if j.submitted {
        var purged;
        purged, answers := PurgeAnswers(answers, Questions(conference.Value(), role));
        if !purged {
          return false;
        }
      }
      review.Store(role, j.(submitted := !j.submitted, answers := answers));
      if copies {
        review.materials := true;
        if SendsBack(status) {
          NewReview();
          paper := false;
        }
      }
      ok := true;
    }

    /** `getReviewById`. */
    method GetReviewById(id: nat) returns (r: Option<Review>)
      ensures r.Some? <==> id in Ids(versioning)
      ensures r.Some? ==> r.value in versioning && r.value.version == id
    {
      for i := 0 to |versioning|
        invariant id !in Ids(versioning)[..i]
      {
        if versioning[i].version == id {
          assert Ids(versioning)[i] == id;
          return Some(versioning[i]);
        }
      }
      assert Ids(versioning)[..|versioning|] == Ids(versioning);
      return None;
    }

    /** `getSortedVerioning`: newest first, in place. */
    method GetSortedVersioning() returns (r: seq<Review>)
      requires Inv(Abs())
      modifies this`versioning
      ensures Abs() == Step(old(Abs()), SortVersions) && r == versioning
      ensures multiset(versioning) == multiset(old(versioning))
    {
      r := SortDescending(versioning);
      SortedIds(versioning, r, counter + 1);
      versioning := r;
    }
  }

  ghost predicate Decreasing(reviews: seq<Review>) {
    forall i, j :: 0 <= i < j < |reviews| ==> reviews[i].version > reviews[j].version
  }

  /** `list.sort(key=id, reverse=True)`. */
  method SortDescending(s: seq<Review>) returns (r: seq<Review>)
    requires Distinct(Ids(s))
    ensures multiset(r) == multiset(s) && Decreasing(r)
  {
    r := [];
    for k := 0 to |s|
      invariant multiset(r) == multiset(s[..k]) && Decreasing(r)
    {
      forall x | x in r ensures x.version != s[k].version {
        assert x in multiset(r) && x in s[..k];
        var i :| 0 <= i < k && s[i] == x;
        assert Ids(s)[i] != Ids(s)[k];
      }
      assert s[..k + 1] == s[..k] + [s[k]];
      r := InsertDescending(r, s[k]);
    }
    assert s[..|s|] == s;
  }

  method InsertDescending(s: seq<Review>, x: Review) returns (r: seq<Review>)
    requires Decreasing(s) && forall y :: y in s ==> y.version != x.version
    ensures multiset(r) == multiset(s) + multiset{x} && Decreasing(r)
  {
    var i := |s|;
    while i > 0 && s[i - 1].version < x.version
      invariant 0 <= i <= |s|
      invariant forall j :: i <= j < |s| ==> s[j].version < x.version
    {
      i := i - 1;
    }
    r := s[..i] + [x] + s[i..];
    assert i > 0 ==> s[i - 1] in s;
    InsertedIsDecreasing(s, x, i);
    assert s == s[..i] + s[i..];
  }

  lemma InsertedIsDecreasing(s: seq<Review>, x: Review, i: nat)
    requires Decreasing(s) && i <= |s| && (i < |s| ==> s[i].version < x.version)
    requires (i > 0 ==> s[i - 1].version > x.version)
    ensures Decreasing(s[..i] + [x] + s[i..])
  {
    forall j: nat, k: nat | j < k <= |s|
      ensures (s[..i] + [x] + s[i..])[j].version > (s[..i] + [x] + s[i..])[k].version
    {
      InsertedPair(s, x, i, j, k);
    }
  }

  lemma InsertedPair(s: seq<Review>, x: Review, i: nat, j: nat, k: nat)
    requires Decreasing(s) && i <= |s| && j < k <= |s| && (i < |s| ==> s[i].version < x.version)
    requires i > 0 ==> s[i - 1].version > x.version
    ensures (s[..i] + [x] + s[i..])[j].version > (s[..i] + [x] + s[i..])[k].version
  {
    var a, b :=
      if j < i then s[j] else if j == i then x else s[j - 1], if k < i then s[k] else if k == i then x else s[k - 1];
    assert (s[..i] + [x] + s[i..])[j] == a && (s[..i] + [x] + s[i..])[k] == b;
  }

  lemma SortedIds(s: seq<Review>, r: seq<Review>, n: nat)
    requires multiset(r) == multiset(s) && Decreasing(r)
    requires |s| == n && forall v: nat :: v in Ids(s) <==> v < n
    ensures Ids(r) == Descending(n)
  {
    assert |multiset(r)| == |r| && |multiset(s)| == |s|;
    forall v: nat ensures v in Ids(r) <==> v < n {
      if v in Ids(r) {
        var i :| 0 <= i < |r| && r[i].version == v;
        assert r[i] in multiset(r) && r[i] in s;
        var j :| 0 <= j < |s| && s[j] == r[i];
        assert Ids(s)[j] == v && v in Ids(s);
      }
      if v < n {
        assert v in Ids(s);
        var j :| 0 <= j < |s| && Ids(s)[j] == v;
        assert s[j] in multiset(s) && s[j] in r;
        var i :| 0 <= i < |r| && r[i] == s[j];
        assert Ids(r)[i] == v;
      }
    }
    DescendingUnique(Ids(r), n);
  }

  lemma {:induction false} DescendingUnique(ids: seq<nat>, n: nat)
    requires |ids| == n && (forall v: nat :: v in ids <==> v < n)
    requires forall i, j :: 0 <= i < j < |ids| ==> ids[i] > ids[j]
    ensures ids == Descending(n)
  {
    if n > 0 {
      assert n - 1 in ids;
      assert ids[0] in ids;
      assert ids[0] == n - 1;
      forall v: nat ensures v in ids[1..] <==> v < n - 1 {
        assert v in ids <==> v == ids[0] || v in ids[1..];
      }
      DescendingUnique(ids[1..], n - 1);
    }
  }
}
