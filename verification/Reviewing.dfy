/**
  The reviewing of one contribution as a state machine: versions, roles and
  judgements, and what holds in every state that requests can lead to.
 */
module Reviewing {
  import opened AnswerPurge
  import opened Common

  type User = nat
  type Status = nat

  const ACCEPT: Status := 1
  const TO_BE_CORRECTED: Status := 2
  const REJECT: Status := 3

  datatype Mode = NoReviewing | ContentReviewing | LayoutReviewing | ContentAndLayoutReviewing

  /** `status` is the chosen status, kept even if the conference later drops it from its list. */
  datatype Judgement = Judgement(status: Option<Status>, submitted: bool, answers: seq<Answer>, counter: nat)

  const EMPTY: Judgement := Judgement(None, false, [], 1)

  datatype ReviewState = ReviewState(
    referee: Judgement, editor: Judgement, reviewers: map<User, Judgement>,
    authorSubmitted: bool,
    materials: bool      // a snapshot of the reviewed material is kept
  )

  /**
    What the conference decides, at any time. Every status ever added keeps its
    current name here, whether or not it is still in the list to choose from.
   */
  datatype Setting = Setting(
    mode: Mode, listed: set<Status>, names: map<Status, string>, nextStatus: nat,
    contentQuestions: set<nat>, layoutQuestions: set<nat>, nextQuestion: nat
  )

  datatype State = State(
    counter: nat,              // _reviewCounter
    versions: seq<nat>,        // ids along _versioning
    current: nat,              // id of _review
    last: ReviewState,         // contents of _review
    referee: Option<User>, editor: Option<User>, reviewers: seq<User>,
    paper: bool,               // the contribution has its reviewing material
    setting: Setting
  )

  datatype Role = Referee | Editor | Reviewer(user: User)

  datatype Op =
    | Reconfigure(mode: Mode)
    | AddQuestion(layout: bool) | RemoveQuestion(layout: bool, question: nat)
    | AddStatus(name: string) | RemoveStatus(id: Status) | EditStatus(id: Status, name: string)
    | AttachPaper | DetachPaper
    | AuthorSubmits
    | SetReferee(user: User) | RemoveReferee
    | SetEditor(user: User) | RemoveEditor
    | AddReviewer(user: User) | RemoveReviewer(user: User) | RemoveAllReviewers
    | SetJudgement(role: Role, status: Status)
    | SetAnswer(role: Role, question: nat) | ReadAnswer(role: Role, question: nat)
    | ToggleSubmitted(role: Role)
    | SortVersions

  function NewReview(version: nat, reviewers: seq<User>): ReviewState {
    ReviewState(EMPTY, EMPTY, map u | u in reviewers :: EMPTY, false, false)
  }

  /** A conference starts with the three statuses that the code knows by id. */
  function InitialSetting(mode: Mode): Setting {
    Setting(mode, {ACCEPT, TO_BE_CORRECTED, REJECT},
            map[ACCEPT := "Accept", TO_BE_CORRECTED := "To be corrected", REJECT := "Reject"], 4, {}, {}, 1)
  }

  function Initial(mode: Mode): State {
    State(0, [0], 0, NewReview(0, []), None, None, [], false, InitialSetting(mode))
  }

  // ------------------------------------------------------------- judgements

  function JudgementOf(r: ReviewState, role: Role): Option<Judgement> {
    match role
    case Referee => Some(r.referee)
    case Editor => Some(r.editor)
    case Reviewer(u) => if u in r.reviewers then Some(r.reviewers[u]) else None
  }

  function WithJudgement(r: ReviewState, role: Role, j: Judgement): ReviewState {
    match role
    case Referee => r.(referee := j)
    case Editor => r.(editor := j)
    case Reviewer(u) => r.(reviewers := r.reviewers[u := j])
  }

  function Questions(setting: Setting, role: Role): set<nat> {
    if role == Editor then setting.layoutQuestions else setting.contentQuestions
  }

  /** A status that sends the paper back: 2, or a custom one. */
  predicate SendsBack(status: Status) {
    status == TO_BE_CORRECTED || status > REJECT
  }

  /** Does submitting (or withdrawing) this judgement start a new version? */
  predicate StartsVersion(s: State, role: Role, status: Status) {
    match role
    case Referee => SendsBack(status)
    case Editor => s.setting.mode == LayoutReviewing && SendsBack(status)
    case Reviewer(_) => false
  }

  predicate CopiesMaterial(s: State, role: Role, status: Status) {
    role == Referee || StartsVersion(s, role, status)
  }

  // ------------------------------------------------------------- one request

  /** Does the request go through? Otherwise the transaction is aborted. */
  predicate Accepted(s: State, op: Op) {
    match op
    case SetReferee(_) => s.referee == None
    case RemoveReferee => s.referee != None
    case SetEditor(_) => s.editor == None && (s.referee != None || s.setting.mode == LayoutReviewing)
    case RemoveEditor => s.editor != None
    case AddReviewer(u) => u !in s.reviewers && s.referee != None
    case AuthorSubmits => s.paper
    case RemoveQuestion(layout, q) => q in if layout then s.setting.layoutQuestions else s.setting.contentQuestions
    case RemoveStatus(id) => id in s.setting.listed
    case EditStatus(id, _) => id in s.setting.listed
    case SetJudgement(role, _) =>
      JudgementOf(s.last, role).Some? && !JudgementOf(s.last, role).value.submitted
    case SetAnswer(role, q) =>
      var j := JudgementOf(s.last, role);
      j.Some? && !j.value.submitted && !Obstructed(j.value.answers, q)
    case ReadAnswer(role, q) =>
      JudgementOf(s.last, role).Some? && !Obstructed(JudgementOf(s.last, role).value.answers, q)
    case ToggleSubmitted(role) =>
      var j := JudgementOf(s.last, role);
      && j.Some? && j.value.status.Some? && (CopiesMaterial(s, role, j.value.status.value) ==> s.paper)
      && (j.value.submitted ==> !Stops(j.value.answers, Questions(s.setting, role)))
    case _ => true
  }

  /** `getAnswer` fails on an answer without a question, if it has not found the right one before. */
  predicate Obstructed(answers: seq<Answer>, q: nat) {
    && answers != [] && answers[0].question != Some(q)
    && (answers[0].question == None || Obstructed(answers[1..], q))
  }

  /** The lookup fails when an answer without a question comes before any answer to `q`. */
  lemma {:induction false} ObstructedWhen(answers: seq<Answer>, q: nat)
    ensures Obstructed(answers, q) <==>
              exists i :: 0 <= i < |answers| && answers[i].question == None
                          && forall k :: 0 <= k < i ==> answers[k].question != Some(q)
  {
    if answers != [] {
      var rest := answers[1..];
      ObstructedWhen(rest, q);
      assert forall i :: 0 <= i < |rest| ==> rest[i] == answers[i + 1];
      if answers[0].question != None && answers[0].question != Some(q) {
        if i :| 0 <= i < |rest| && rest[i].question == None && forall k :: 0 <= k < i ==> rest[k].question != Some(q) {
          assert answers[i + 1].question == None;
          assert forall k :: 0 < k < i + 1 ==> answers[k] == rest[k - 1];
        }
        if i :| 0 <= i < |answers| && answers[i].question == None
                && forall k :: 0 <= k < i ==> answers[k].question != Some(q)
        {
          assert rest[i - 1].question == None;
          assert forall k :: 0 <= k < i - 1 ==> rest[k] == answers[k + 1];
        }
      }
    }
  }

  function Toggled(j: Judgement, live: set<nat>): Judgement {
    if j.submitted then j.(submitted := false, answers := Purged(j.answers, live)) else j.(submitted := true)
  }

  /** `getAnswer`, and `createAnswer` if there is none yet, be the question gone or not. */
  function Answered(j: Judgement, q: nat, live: set<nat>): Judgement {
    if exists a :: a in j.answers && a.question == Some(q) then j
    else
      var answer := Answer(j.counter, if q in live then Some(q) else None);
      j.(answers := j.answers + [answer], counter := j.counter + 1)
  }

  function WithAnswer(s: State, role: Role, q: nat): State
    requires JudgementOf(s.last, role).Some?
  {
    var j := JudgementOf(s.last, role).value;
    s.(last := WithJudgement(s.last, role, Answered(j, q, Questions(s.setting, role))))
  }

  /** `newReview`, and the material goes. */
  function NextVersion(s: State): State {
    s.(counter := s.counter + 1, current := s.counter + 1, versions := s.versions + [s.counter + 1],
       last := NewReview(s.counter + 1, s.reviewers), paper := false)
  }

  function Descending(n: nat): (r: seq<nat>)
    ensures |r| == n
  {
    if n == 0 then [] else [n - 1] + Descending(n - 1)
  }

  /** `addStatus`. */
  function WithStatus(setting: Setting, name: string): Setting {
    var id := setting.nextStatus;
    setting.(listed := setting.listed + {id}, names := setting.names[id := name], nextStatus := id + 1)
  }

  /** `addReviewingQuestion` or `addLayoutQuestion`; both take ids from the same counter. */
  function WithQuestion(setting: Setting, layout: bool): Setting {
    var id := setting.nextQuestion;
    if layout then setting.(layoutQuestions := setting.layoutQuestions + {id}, nextQuestion := id + 1)
    else setting.(contentQuestions := setting.contentQuestions + {id}, nextQuestion := id + 1)
  }

  /** The id of a removed question is never given out again. */
  function WithoutQuestion(setting: Setting, layout: bool, q: nat): Setting {
    if layout then setting.(layoutQuestions := setting.layoutQuestions - {q})
    else setting.(contentQuestions := setting.contentQuestions - {q})
  }

  /** `Judgement.setJudgement`, which itself does not look at the submitted flag. */
  function Chosen(s: State, role: Role, id: Status): State
    requires JudgementOf(s.last, role).Some?
  {
    var j := JudgementOf(s.last, role).value;
    s.(last := WithJudgement(s.last, role, j.(status := if id in s.setting.listed then Some(id) else None)))
  }

  function Submit(s: State, role: Role): State
    requires Accepted(s, ToggleSubmitted(role))
  {
    var j := JudgementOf(s.last, role).value;
    var last := WithJudgement(s.last, role, Toggled(j, Questions(s.setting, role)));
    var judged := s.(last := if CopiesMaterial(s, role, j.status.value) then last.(materials := true) else last);
    if StartsVersion(s, role, j.status.value) then NextVersion(judged) else judged
  }

  /** The state after a request. */
  function Step(s: State, op: Op): State {
    if !Accepted(s, op) then s else
    match op
    case Reconfigure(mode) => s.(setting := s.setting.(mode := mode))
    case AddQuestion(layout) => s.(setting := WithQuestion(s.setting, layout))
    case RemoveQuestion(layout, q) => s.(setting := WithoutQuestion(s.setting, layout, q))
    case AddStatus(name) => s.(setting := WithStatus(s.setting, name))
    case RemoveStatus(id) => s.(setting := s.setting.(listed := s.setting.listed - {id}))
    case EditStatus(id, name) => s.(setting := s.setting.(names := s.setting.names[id := name]))
    case AttachPaper => s.(paper := true)
    case DetachPaper => s.(paper := false)
    case AuthorSubmits => s.(last := s.last.(authorSubmitted := true))
    case SetReferee(u) => s.(referee := Some(u))
    case RemoveReferee => s.(referee := None, editor := None, reviewers := [])
    case SetEditor(u) => s.(editor := Some(u))
    case RemoveEditor => s.(editor := None)
    case AddReviewer(u) =>
      var last := if u in s.last.reviewers then s.last else s.last.(reviewers := s.last.reviewers[u := EMPTY]);
      s.(reviewers := s.reviewers + [u], last := last)
    case RemoveReviewer(u) => s.(reviewers := WithoutFirst(s.reviewers, u))
    case RemoveAllReviewers => s.(reviewers := [])
    case SetJudgement(role, id) => Chosen(s, role, id)
    case SetAnswer(role, q) => WithAnswer(s, role, q)
    case ReadAnswer(role, q) => WithAnswer(s, role, q)
    case ToggleSubmitted(role) => Submit(s, role)
    case SortVersions => s.(versions := Descending(|s.versions|))
  }

  function Run(s: State, ops: seq<Op>): State
    decreases |ops|
  {
    if ops == [] then s else Run(Step(s, ops[0]), ops[1..])
  }

  // ------------------------------------------------------------- invariants

  /** Exactly the ids 0..counter, each once. */
  ghost predicate VersionsExact(s: State) {
    && s.current == s.counter && |s.versions| == s.counter + 1
    && Distinct(s.versions)
    && forall v: nat :: v in s.versions <==> v <= s.counter
  }

  /** A submitted referee judgement of the last review is final. */
  ghost predicate RefereeFinal(s: State) {
    s.last.referee.submitted ==> s.last.referee.status == Some(ACCEPT) || s.last.referee.status == Some(REJECT)
  }

  /** Ids come from a counter that started at 1, and every status that can be met has a name. */
  ghost predicate StatusesInOrder(s: State) {
    && {ACCEPT, REJECT} <= s.setting.names.Keys && s.setting.listed <= s.setting.names.Keys
    && (forall id :: id in s.setting.names ==> 0 < id < s.setting.nextStatus)
    && (s.last.referee.status.Some? ==> s.last.referee.status.value in s.setting.names)
  }

  /** Question ids come from a counter, and the referee has answered no question twice. */
  ghost predicate QuestionsInOrder(s: State) {
    && (forall q :: q in s.setting.contentQuestions + s.setting.layoutQuestions ==> q < s.setting.nextQuestion)
    && OneEach(s.last.referee.answers)
    && forall a :: a in s.last.referee.answers && a.question.Some? ==> a.question.value < s.setting.nextQuestion
  }

  ghost predicate ReviewersInOrder(s: State) {
    && Distinct(s.reviewers)
    && (s.reviewers != [] ==> s.referee != None)
    && forall u :: u in s.reviewers ==> u in s.last.reviewers
  }

  ghost predicate Inv(s: State) {
    VersionsExact(s) && RefereeFinal(s) && StatusesInOrder(s) && QuestionsInOrder(s) && ReviewersInOrder(s)
  }

  lemma {:induction false} DescendingIds(n: nat)
    ensures forall i :: 0 <= i < n ==> Descending(n)[i] == n - 1 - i
    ensures Distinct(Descending(n)) && forall v: nat :: v in Descending(n) <==> v < n
  {
    if n > 0 {
      DescendingIds(n - 1);
      assert Descending(n)[0] == n - 1;
      forall v: nat ensures v in Descending(n) <==> v < n {
        assert v in Descending(n) <==> v == n - 1 || v in Descending(n - 1);
      }
    }
  }

  lemma InitialInv(mode: Mode)
    ensures Inv(Initial(mode))
  {
    assert Initial(mode).versions[0] == 0;
  }

  lemma NextVersionInv(s: State)
    requires VersionsExact(s) && StatusesInOrder(s) && QuestionsInOrder(s) && ReviewersInOrder(s)
    ensures Inv(NextVersion(s))
  {
    var v := NextVersion(s).versions;
    forall i | 0 <= i < |s.versions| ensures v[i] == s.versions[i] && v[i] in s.versions {
    }
  }

  lemma SubmitInv(s: State, role: Role)
    requires Inv(s) && Accepted(s, ToggleSubmitted(role))
    ensures Inv(Submit(s, role))
  {
    var j := JudgementOf(s.last, role).value;
    PurgedOneEach(s.last.referee.answers, s.setting.contentQuestions);
    if StartsVersion(s, role, j.status.value) {
      var last := WithJudgement(s.last, role, Toggled(j, Questions(s.setting, role))).(materials := true);
      NextVersionInv(s.(last := last));
    }
  }

  lemma AddReviewerInv(s: State, u: User)
    requires Inv(s) && Accepted(s, AddReviewer(u))
    ensures Inv(Step(s, AddReviewer(u)))
  {
    var r := Step(s, AddReviewer(u)).reviewers;
    forall i | 0 <= i < |s.reviewers| ensures r[i] == s.reviewers[i] && r[i] in s.reviewers {
    }
  }

  /** An answer is made only for a question that has none. */
  lemma AnsweredOneEach(j: Judgement, q: nat, live: set<nat>)
    requires OneEach(j.answers)
    ensures OneEach(Answered(j, q, live).answers) && j.answers <= Answered(j, q, live).answers
    ensures forall a :: a in Answered(j, q, live).answers && a !in j.answers ==>
              a.question == None || (a.question == Some(q) && q in live)
  {
    var answers := Answered(j, q, live).answers;
    assert forall i :: 0 <= i < |j.answers| ==> answers[i] == j.answers[i] && j.answers[i] in j.answers;
  }

  /** An answer that is there stays the only one; otherwise one is made, under the next id. */
  lemma AnswerMade(j: Judgement, q: nat, live: set<nat>)
    ensures var t := Answered(j, q, live);
            && t.status == j.status && t.submitted == j.submitted
            && if exists i :: 0 <= i < |j.answers| && j.answers[i].question == Some(q)
               then t == j
               else && |t.answers| == |j.answers| + 1 && t.answers[..|j.answers|] == j.answers
                    && t.answers[|j.answers|].question == (if q in live then Some(q) else None)
                    && t.answers[|j.answers|].id == j.counter && t.counter == j.counter + 1
  {
    if i :| 0 <= i < |j.answers| && j.answers[i].question == Some(q) {
      assert j.answers[i] in j.answers;
    }
  }

  lemma WithAnswerInv(s: State, role: Role, q: nat)
    requires Inv(s) && JudgementOf(s.last, role).Some?
    ensures Inv(WithAnswer(s, role, q))
  {
    AnsweredOneEach(s.last.referee, q, s.setting.contentQuestions);
  }

  /** What the conference decides about statuses and questions. */
  predicate ChangesSetting(op: Op) {
    || op.Reconfigure? || op.AddQuestion? || op.RemoveQuestion?
    || op.AddStatus? || op.RemoveStatus? || op.EditStatus?
  }

  lemma SettingInv(s: State, op: Op)
    requires Inv(s) && ChangesSetting(op)
    ensures Inv(Step(s, op))
  {
    var t := Step(s, op);
    assert t.last == s.last && t.versions == s.versions && t.reviewers == s.reviewers;
    assert QuestionsInOrder(t) && StatusesInOrder(t);
  }

  /** Every request keeps the invariant. */
  lemma StepInv(s: State, op: Op)
    requires Inv(s)
    ensures Inv(Step(s, op))
  {
    if ChangesSetting(op) {
      SettingInv(s, op);
    } else if Accepted(s, op) {
      match op
      case ToggleSubmitted(role) => SubmitInv(s, role);
      case AddReviewer(u) => AddReviewerInv(s, u);
      case SetAnswer(role, q) => WithAnswerInv(s, role, q);
      case ReadAnswer(role, q) => WithAnswerInv(s, role, q);
      case RemoveReviewer(u) => WithoutDistinct(s.reviewers, u);
      case SortVersions => DescendingIds(|s.versions|);
      case _ =>
    }
  }

  lemma {:induction false} RunInv(s: State, ops: seq<Op>)
    requires Inv(s)
    ensures Inv(Run(s, ops))
    decreases |ops|
  {
    if ops != [] {
      StepInv(s, ops[0]);
      RunInv(Step(s, ops[0]), ops[1..]);
    }
  }

  // ---------------------------------------------------------- what is seen

  datatype Seen = Shown(code: nat) | NeverHere

  /** `getJudgement` of the referee: the current name of the status chosen. */
  function VerdictName(s: State): Option<string> {
    var status := s.last.referee.status;
    if status.Some? && status.value in s.setting.names then Some(s.setting.names[status.value]) else None
  }

  /** `Material.getReviewingState` of the contribution's reviewing material, which compares names. */
  function ReviewingState(s: State): Seen {
    if s.setting.mode == NoReviewing then Shown(0)
    else if !s.last.authorSubmitted then Shown(2)
    else if !s.last.referee.submitted then Shown(3)
    else if VerdictName(s) == Some("Accept") then Shown(4)
    else if VerdictName(s) == Some("Reject") then Shown(5)
    else NeverHere
  }

  /** `_getReviewerStatus`: the opinions of the assigned reviewers, each looked up in the last review. */
  function Opinions(last: ReviewState, reviewers: seq<User>): Option<seq<Option<Status>>> {
    if reviewers == [] then Some([])
    else if reviewers[0] !in last.reviewers then None
    else match Opinions(last, reviewers[1..])
      case None => None
      case Some(rest) => Some([last.reviewers[reviewers[0]].status] + rest)
  }

  lemma {:induction false} OpinionsFound(last: ReviewState, reviewers: seq<User>)
    ensures Opinions(last, reviewers).Some? <==> forall u :: u in reviewers ==> u in last.reviewers
    ensures Opinions(last, reviewers).Some? ==>
              && |Opinions(last, reviewers).value| == |reviewers|
              && forall i :: 0 <= i < |reviewers| ==>
                   Opinions(last, reviewers).value[i] == last.reviewers[reviewers[i]].status
  {
    if reviewers != [] {
      OpinionsFound(last, reviewers[1..]);
      assert reviewers == [reviewers[0]] + reviewers[1..];
    }
  }

  /** `getReviewById`: the place of the first review with that id. */
  function Find(versions: seq<nat>, id: nat): (r: Option<nat>)
    ensures r.Some? <==> id in versions
    ensures r.Some? ==> r.value < |versions| && versions[r.value] == id
  {
    if versions == [] then None
    else if versions[0] == id then Some(0)
    else match Find(versions[1..], id) case None => None case Some(i) => Some(i + 1)
  }

  /**
    Over every run of requests from a new contribution the opinion of every
    assigned reviewer is found, and looking a version up succeeds exactly for the
    ids up to the counter, each of which occurs once.
   */
  lemma ReviewingIsSafe(mode: Mode, ops: seq<Op>)
    ensures var s := Run(Initial(mode), ops);
            && Opinions(s.last, s.reviewers).Some?
            && (s.reviewers != [] ==> s.referee != None)
            && (forall id: nat :: Find(s.versions, id).Some? <==> id <= s.counter)
            && Distinct(s.versions)
  {
    InitialInv(mode);
    RunInv(Initial(mode), ops);
    var s := Run(Initial(mode), ops);
    OpinionsFound(s.last, s.reviewers);
  }

  /** The status of a submitted verdict goes by another name than the two that are compared with. */
  predicate Renamed(s: State, id: Status) {
    id in s.setting.names && s.setting.names[id] != "Accept" && s.setting.names[id] != "Reject"
  }

  /**
    Over every run, the branch of `getReviewingState` that should never be reached
    is reached if and only if the verdict shown is one of the two final statuses,
    and that status has been given another name.
   */
  lemma NeverHereMeansRenamed(mode: Mode, ops: seq<Op>)
    ensures var s := Run(Initial(mode), ops);
            ReviewingState(s) == NeverHere <==>
              && s.setting.mode != NoReviewing && s.last.authorSubmitted && s.last.referee.submitted
              && ((s.last.referee.status == Some(ACCEPT) && Renamed(s, ACCEPT))
                  || (s.last.referee.status == Some(REJECT) && Renamed(s, REJECT)))
  {
    InitialInv(mode);
    RunInv(Initial(mode), ops);
  }

  /** A request that leaves the names of the two final statuses alone. */
  predicate KeepsNames(op: Op) {
    !(op.EditStatus? && (op.id == ACCEPT || op.id == REJECT))
  }

  ghost predicate NamesKept(s: State) {
    && ACCEPT in s.setting.names && s.setting.names[ACCEPT] == "Accept"
    && REJECT in s.setting.names && s.setting.names[REJECT] == "Reject"
  }

  lemma {:induction false} NamesStay(s: State, ops: seq<Op>)
    requires Inv(s) && NamesKept(s) && forall i :: 0 <= i < |ops| ==> KeepsNames(ops[i])
    ensures NamesKept(Run(s, ops))
    decreases |ops|
  {
    if ops != [] {
      StepInv(s, ops[0]);
      assert NamesKept(Step(s, ops[0])) by {
        assert KeepsNames(ops[0]);
      }
      NamesStay(Step(s, ops[0]), ops[1..]);
    }
  }

  /**
    As long as nobody renames them the branch is not reached, and the state
    shown says exactly how far the paper has come and which verdict was given.
   */
  lemma NeverHereIsNeverReached(mode: Mode, ops: seq<Op>)
    requires forall i :: 0 <= i < |ops| ==> KeepsNames(ops[i])
    ensures var s := Run(Initial(mode), ops);
            var reviewed := s.setting.mode != NoReviewing;
            var submitted, judged := s.last.authorSubmitted, s.last.referee.submitted;
            && ReviewingState(s) != NeverHere
            && (ReviewingState(s) == Shown(0) <==> !reviewed)
            && (ReviewingState(s) == Shown(2) <==> reviewed && !submitted)
            && (ReviewingState(s) == Shown(3) <==> reviewed && submitted && !judged)
            && (ReviewingState(s) == Shown(4) <==>
                  reviewed && submitted && judged && s.last.referee.status == Some(ACCEPT))
            && (ReviewingState(s) == Shown(5) <==>
                  reviewed && submitted && judged && s.last.referee.status == Some(REJECT))
  {
    InitialInv(mode);
    RunInv(Initial(mode), ops);
    NamesStay(Initial(mode), ops);
  }

  /** On a paper with a verdict, renaming its status reaches the branch unless the new name is one of the two. */
  lemma RenamingReaches(s: State, id: Status, name: string)
    requires Inv(s) && (ReviewingState(s) == Shown(4) || ReviewingState(s) == Shown(5))
    requires s.last.referee.status == Some(id) && id in s.setting.listed
    ensures ReviewingState(Step(s, EditStatus(id, name))) == NeverHere <==> name != "Accept" && name != "Reject"
  {
  }

  /** The requests that get a paper its first verdict. */
  function Verdict(id: Status): seq<Op> {
    [AttachPaper, AuthorSubmits, SetJudgement(Referee, id), ToggleSubmitted(Referee)]
  }

  /** A paper can come to be shown as accepted, as rejected, or as to be submitted again. */
  lemma JudgedPaper(mode: Mode, id: Status)
    requires mode != NoReviewing && id in {ACCEPT, TO_BE_CORRECTED, REJECT}
    ensures var s := Run(Initial(mode), Verdict(id));
            && s.setting == InitialSetting(mode)
            && ReviewingState(s) == Shown(if id == ACCEPT then 4 else if id == REJECT then 5 else 2)
            && s.counter == (if id == TO_BE_CORRECTED then 1 else 0)
            && (id != TO_BE_CORRECTED ==> s.last.referee == Judgement(Some(id), true, [], 1))
  {
    RunToVerdict(mode, id);
    var s := VerdictGiven(mode, id);
    assert s.setting.names[ACCEPT] == "Accept" && s.setting.names[REJECT] == "Reject";
  }

  function Ready(mode: Mode, id: Status): State {
    var chosen := EMPTY.(status := Some(id));
    Initial(mode).(paper := true, last := NewReview(0, []).(authorSubmitted := true, referee := chosen))
  }

  lemma VerdictGiven(mode: Mode, id: Status) returns (s: State)
    requires id in {ACCEPT, TO_BE_CORRECTED, REJECT}
    ensures s == Step(Ready(mode, id), ToggleSubmitted(Referee)) && s.setting == InitialSetting(mode)
    ensures s.counter == (if id == TO_BE_CORRECTED then 1 else 0)
    ensures s.last.authorSubmitted <==> id != TO_BE_CORRECTED
    ensures id != TO_BE_CORRECTED ==> s.last.referee == Judgement(Some(id), true, [], 1)
  {
    s := Step(Ready(mode, id), ToggleSubmitted(Referee));
  }

  lemma RunToVerdict(mode: Mode, id: Status)
    requires id in {ACCEPT, TO_BE_CORRECTED, REJECT}
    ensures Run(Initial(mode), Verdict(id)) == Step(Ready(mode, id), ToggleSubmitted(Referee))
  {
    FourSteps(Initial(mode), AttachPaper, AuthorSubmits, SetJudgement(Referee, id), ToggleSubmitted(Referee));
    var submitted := Step(Step(Initial(mode), AttachPaper), AuthorSubmits);
    assert submitted == Initial(mode).(paper := true, last := NewReview(0, []).(authorSubmitted := true));
    assert Step(submitted, SetJudgement(Referee, id)) == Ready(mode, id);
  }

  lemma FourSteps(s: State, a: Op, b: Op, c: Op, d: Op)
    ensures Run(s, [a, b, c, d]) == Step(Step(Step(Step(s, a), b), c), d)
  {
    var s1 := Step(s, a);
    var s2 := Step(s1, b);
    var s3 := Step(s2, c);
    assert [a, b, c, d][1..] == [b, c, d] && [b, c, d][1..] == [c, d] && [c, d][1..] == [d] && [d][1..] == [];
    assert Run(s, [a, b, c, d]) == Run(s1, [b, c, d]) == Run(s2, [c, d]) == Run(s3, [d]) == Step(s3, d);
  }

  lemma {:induction false} RunAppend(s: State, ops: seq<Op>, op: Op)
    ensures Run(s, ops + [op]) == Step(Run(s, ops), op)
    decreases |ops|
  {
    if ops == [] {
      assert ops + [op] == [op] && [op][1..] == [];
    } else {
      assert (ops + [op])[1..] == ops[1..] + [op];
      RunAppend(Step(s, ops[0]), ops[1..], op);
    }
  }

  /** A run that reaches the branch: an accepted paper, and a new name for "Accept". */
  lemma RenamedAfterAcceptance(mode: Mode)
    requires mode != NoReviewing
    ensures ReviewingState(Run(Initial(mode), Verdict(ACCEPT) + [EditStatus(ACCEPT, "Accepted")])) == NeverHere
  {
    JudgedPaper(mode, ACCEPT);
    RunAppend(Initial(mode), Verdict(ACCEPT), EditStatus(ACCEPT, "Accepted"));
  }

  /** The guard on judgement changes is needed too: a change let through on the same paper reaches the branch. */
  lemma UnguardedChangeBreaks(mode: Mode)
    requires mode != NoReviewing
    ensures var s := Run(Initial(mode), Verdict(ACCEPT));
            && !Accepted(s, SetJudgement(Referee, TO_BE_CORRECTED))
            && ReviewingState(Chosen(s, Referee, TO_BE_CORRECTED)) == NeverHere
  {
    JudgedPaper(mode, ACCEPT);
  }

  // ------------------------------------------------- versions and verdicts

  /** A request that sends the paper back. */
  predicate SendsPaperBack(s: State, op: Op) {
    op.ToggleSubmitted? && Accepted(s, op) && StartsVersion(s, op.role, JudgementOf(s.last, op.role).value.status.value)
  }

  function TimesSentBack(s: State, ops: seq<Op>): nat
    decreases |ops|
  {
    if ops == [] then 0
    else (if SendsPaperBack(s, ops[0]) then 1 else 0) + TimesSentBack(Step(s, ops[0]), ops[1..])
  }

  /** Which request starts a new version, and when. */
  lemma VersionStartsWhen(s: State, op: Op)
    requires Inv(s)
    ensures Step(s, op).counter != s.counter <==>
              && (op == ToggleSubmitted(Referee)
                  || (op == ToggleSubmitted(Editor) && s.setting.mode == LayoutReviewing))
              && var j := if op.role == Referee then s.last.referee else s.last.editor;
                 var live := if op.role == Referee then s.setting.contentQuestions else s.setting.layoutQuestions;
                 && j.status.Some? && (j.status.value == 2 || j.status.value > 3)
                 && s.paper && (j.submitted ==> !Stops(j.answers, live))
  {
  }

  /** When a press goes through: with a status chosen, the paper there to be copied, and a purge that passes. */
  lemma PressGoesThrough(s: State, role: Role)
    ensures var j := JudgementOf(s.last, role);
            Accepted(s, ToggleSubmitted(role)) <==>
              && j.Some? && j.value.status.Some?
              && (role == Referee ==> s.paper)
              && (role == Editor && s.setting.mode == LayoutReviewing ==>
                    j.value.status.value in {0, 1, 3} || s.paper)
              && (j.value.submitted ==>
                    !Stops(j.value.answers, if role == Editor then s.setting.layoutQuestions
                                            else s.setting.contentQuestions))
  {
  }

  /** A press that sends nothing back turns the flag of that one judgement, and the referee's copies the material. */
  lemma PressTurnsFlag(s: State, role: Role)
    requires Accepted(s, ToggleSubmitted(role)) && !SendsPaperBack(s, ToggleSubmitted(role))
    ensures var t := Step(s, ToggleSubmitted(role));
            var j, k := JudgementOf(s.last, role).value, JudgementOf(t.last, role);
            && k.Some? && k.value.submitted == !j.submitted && k.value.status == j.status
            && (!j.submitted ==> k.value.answers == j.answers)
            && (j.submitted ==>
                  k.value.answers == Purged(j.answers, if role == Editor then s.setting.layoutQuestions
                                                       else s.setting.contentQuestions))
            && (forall a :: a in k.value.answers ==> a in j.answers)
            && (t.last.materials <==> s.last.materials || role == Referee)
            && (forall other :: other != role ==> JudgementOf(t.last, other) == JudgementOf(s.last, other))
            && t == s.(last := t.last) && t.last.authorSubmitted == s.last.authorSubmitted
  {
    var j := JudgementOf(s.last, role).value;
    PurgedIsPart(j.answers, Questions(s.setting, role));
  }

  /** There is one version more than times the paper was sent back. */
  lemma {:induction false} OneVersionPerVerdict(s: State, ops: seq<Op>)
    ensures Run(s, ops).counter == s.counter + TimesSentBack(s, ops)
    ensures |Run(s, ops).versions| == |s.versions| + TimesSentBack(s, ops)
    decreases |ops|
  {
    if ops != [] {
      OneVersionPerVerdict(Step(s, ops[0]), ops[1..]);
    }
  }

  /**
    A paper that is sent back needs a new submission: nothing of the old review
    carries over but the assigned reviewers.
   */
  lemma SentBackStartsAfresh(s: State, op: Op)
    requires Inv(s) && SendsPaperBack(s, op)
    ensures var t := Step(s, op);
            && (t.setting.mode == NoReviewing || ReviewingState(t) == Shown(2)) && !t.paper
            && !Accepted(t, AuthorSubmits)
            && t.last.reviewers.Keys == (set u | u in s.reviewers)
            && forall u :: u in t.last.reviewers ==> t.last.reviewers[u] == EMPTY
  {
  }

  /**
    An accepted or rejected paper stays so until the referee withdraws, the
    editor sends it back, its status is renamed, or reviewing is reconfigured.
   */
  lemma VerdictStands(s: State, op: Op)
    requires ReviewingState(s) == Shown(4) || ReviewingState(s) == Shown(5)
    requires !op.Reconfigure? && op != ToggleSubmitted(Referee) && !SendsPaperBack(s, op)
    requires op.EditStatus? ==> s.last.referee.status != Some(op.id)
    requires StatusesInOrder(s)
    ensures ReviewingState(Step(s, op)) == ReviewingState(s)
  {
  }

  /**
    The referee's second press takes the verdict back, and the paper waits for
    judgement again, if and only if the purge of the answers goes through.
   */
  lemma VerdictWithdrawn(s: State)
    requires Inv(s) && (ReviewingState(s) == Shown(4) || ReviewingState(s) == Shown(5)) && s.paper
    ensures var t := Step(s, ToggleSubmitted(Referee));
            && (ReviewingState(t) == Shown(3) <==> !Stops(s.last.referee.answers, s.setting.contentQuestions))
            && t.counter == s.counter
  {
  }

  /** A submitted verdict whose answers stop the purge for good. */
  ghost predicate Stuck(s: State) {
    s.last.referee.submitted && Blocked(s.last.referee.answers, s.setting.contentQuestions)
  }

  lemma StuckStays(s: State, op: Op)
    requires Inv(s) && Stuck(s) && !SendsPaperBack(s, op)
    ensures Stuck(Step(s, op)) && !Accepted(s, ToggleSubmitted(Referee))
  {
    var answers, live := s.last.referee.answers, s.setting.contentQuestions;
    PassesAfterRemovals(answers, live);
    if Accepted(s, op) {
      match op
      case ReadAnswer(role, q) =>
        AnsweredOneEach(s.last.referee, q, live);
        BlockedLater(answers, live, Step(s, op).last.referee.answers, live);
      case AddQuestion(layout) => BlockedLater(answers, live, answers, Step(s, op).setting.contentQuestions);
      case RemoveQuestion(layout, q) => BlockedLater(answers, live, answers, Step(s, op).setting.contentQuestions);
      case _ =>
    }
  }

  lemma {:induction false} StuckForGood(s: State, ops: seq<Op>)
    requires Inv(s) && Stuck(s) && TimesSentBack(s, ops) == 0
    ensures Stuck(Run(s, ops)) && !Accepted(Run(s, ops), ToggleSubmitted(Referee))
    decreases |ops|
  {
    if ops == [] {
      StuckStays(s, SortVersions);
    } else {
      assert !SendsPaperBack(s, ops[0]);
      StepInv(s, ops[0]);
      StuckStays(s, ops[0]);
      StuckForGood(Step(s, ops[0]), ops[1..]);
    }
  }

  // ---------------------------------------------------- a way out, if any

  lemma {:induction false} RunConcat(s: State, a: seq<Op>, b: seq<Op>)
    ensures Run(s, a + b) == Run(Run(s, a), b)
    ensures TimesSentBack(s, a + b) == TimesSentBack(s, a) + TimesSentBack(Run(s, a), b)
    decreases |a|
  {
    if a == [] {
      assert a + b == b;
    } else {
      assert (a + b)[1..] == a[1..] + b;
      RunConcat(Step(s, a[0]), a[1..], b);
    }
  }

  function WithoutContent(s: State, gone: set<nat>): State {
    s.(setting := s.setting.(contentQuestions := s.setting.contentQuestions - gone))
  }

  lemma {:induction false} RemoveQuestions(s: State, gone: set<nat>) returns (ops: seq<Op>)
    requires gone <= s.setting.contentQuestions
    ensures Run(s, ops) == WithoutContent(s, gone) && TimesSentBack(s, ops) == 0
    decreases gone
  {
    if gone == {} {
      ops := [];
      assert s.setting.contentQuestions - gone == s.setting.contentQuestions;
    } else {
      var q :| q in gone;
      var t := Step(s, RemoveQuestion(false, q));
      var rest := RemoveQuestions(t, gone - {q});
      assert t.setting.contentQuestions - (gone - {q}) == s.setting.contentQuestions - gone;
      ops := [RemoveQuestion(false, q)] + rest;
      assert ops[0] == RemoveQuestion(false, q) && ops[1..] == rest;
    }
  }

  /** Attach the paper, remove the questions that are in the way, and press again. */
  lemma WayOut(s: State) returns (ops: seq<Op>)
    requires Inv(s) && s.last.referee.submitted && !Stuck(s)
    ensures TimesSentBack(s, ops) == 0 && !Run(s, ops).last.referee.submitted
  {
    var answers, live := s.last.referee.answers, s.setting.contentQuestions;
    PassesAfterRemovals(answers, live);
    var t := Step(s, AttachPaper);
    var removals := RemoveQuestions(t, live - Spared(answers, live));
    var u := Run(t, removals);
    assert u.setting.contentQuestions == Spared(answers, live);
    assert Accepted(u, ToggleSubmitted(Referee));
    RunConcat(t, removals, [ToggleSubmitted(Referee)]);
    OneOp(u, ToggleSubmitted(Referee));
    ops := [AttachPaper] + (removals + [ToggleSubmitted(Referee)]);
    assert ops[0] == AttachPaper && ops[1..] == removals + [ToggleSubmitted(Referee)];
  }

  lemma OneOp(s: State, op: Op)
    ensures Run(s, [op]) == Step(s, op) && TimesSentBack(s, [op]) == if SendsPaperBack(s, op) then 1 else 0
  {
    assert [op][1..] == [];
  }

  ghost predicate Withdraws(s: State, ops: seq<Op>) {
    TimesSentBack(s, ops) == 0 && !Run(s, ops).last.referee.submitted
  }

  /** A submitted verdict can be withdrawn, by some run that starts no new version, if and only if it is not stuck. */
  lemma WithdrawnUnlessStuck(s: State)
    requires Inv(s) && s.last.referee.submitted
    ensures (exists ops :: Withdraws(s, ops)) <==> !Stuck(s)
  {
    if Stuck(s) {
      forall ops ensures !Withdraws(s, ops) {
        if TimesSentBack(s, ops) == 0 {
          StuckForGood(s, ops);
        }
      }
    } else {
      var ops := WayOut(s);
      assert Withdraws(s, ops);
    }
  }

  /** On a verdict without answers, reading a criterion gets it stuck if and only if the criterion is gone. */
  lemma ReadingSticks(s: State, question: nat)
    requires s.last.referee.submitted && s.last.referee.answers == []
    ensures Stuck(Step(s, ReadAnswer(Referee, question))) <==> question !in s.setting.contentQuestions
  {
    var t := Step(s, ReadAnswer(Referee, question));
    assert |t.last.referee.answers| == 1;
    if question !in s.setting.contentQuestions {
      assert t.last.referee.answers[0].question == None;
      assert !Passable(t.last.referee.answers, s.setting.contentQuestions, 0);
    }
  }

  /** A run that leads there: a criterion that does not exist is read after the paper is accepted. */
  lemma StuckAfterAcceptance(mode: Mode, question: nat)
    requires mode != NoReviewing
    ensures Stuck(Run(Initial(mode), Verdict(ACCEPT) + [ReadAnswer(Referee, question)]))
  {
    JudgedPaper(mode, ACCEPT);
    ReadingSticks(Run(Initial(mode), Verdict(ACCEPT)), question);
    RunAppend(Initial(mode), Verdict(ACCEPT), ReadAnswer(Referee, question));
  }
}
