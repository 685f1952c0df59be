/** When each request on questions and answers succeeds, which refusal it gets
    otherwise, and what a stored row says about the request that stored it. */
module AnswerLaws {
  import opened Wrappers
  import Catalogue
  import opened UserIdHash
  import opened AnswerTables
  import opened AnswerProtocol

  predicate Refuses(fault: Fault, first: nat, last: nat) {
    fault.Some? && first <= fault.value <= last
  }

  // ----- Answering -----

  /** An answer is stored if and only if the caller is a registered user, the body is
      complete, the question is approved, consent is given where the question is
      flagged, the caller has not answered yet, the option is one of the question's,
      and the database refuses no statement. */
  lemma AnsweredIff(env: Env, s: State, e: Event)
    requires e.Answer?
    ensures var key := (e.questionId, HashOf(env.mac, e.userId, e.questionId));
            Step(env, s, e).1.Created? <==>
            && e.userId != "" && e.userId in s.users && e.body.Some?
            && e.questionId in s.questions && s.questions[e.questionId].status == Catalogue.Approved
            && (s.questions[e.questionId].specialFlagged ==> e.body.value.consent)
            && key !in s.tracking
            && e.body.value.answerId in s.options && s.options[e.body.value.answerId].questionId == e.questionId
            && !Refuses(e.fault, 1, 5)
  {
  }

  /** Without database failures, each refusal exactly when it is given, in the order
      of the checks. */
  lemma AnswerRefusals(env: Env, s: State, e: Event)
    requires e.Answer? && e.fault.None?
    ensures var key := (e.questionId, HashOf(env.mac, e.userId, e.questionId));
            var known := e.userId != "" && e.body.Some? && e.userId in s.users;
            var open := known && e.questionId in s.questions && s.questions[e.questionId].status == Catalogue.Approved;
            var consented := open && (s.questions[e.questionId].specialFlagged ==> e.body.value.consent);
            var outcome := Step(env, s, e).1;
            && (outcome == Unauthorized <==> e.userId == "" || (e.body.Some? && e.userId !in s.users))
            && (outcome == NotFound <==> known && !open)
            && (outcome == Conflict <==> consented && key in s.tracking)
            && (outcome == BadRequest <==>
                  || (e.userId != "" && e.body.None?)
                  || (open && !consented)
                  || (consented && key !in s.tracking && !OptionBelongs(s, e.body.value.answerId, e.questionId)))
            && outcome != ServerError && outcome != Done
  {
  }

  /** With one, the request ends in 500 if it comes to the refused statement: reading
      the profile, the question, opening the transaction, and its two inserts. */
  lemma AnswerServerError(env: Env, s: State, e: Event)
    requires e.Answer?
    ensures var key := (e.questionId, HashOf(env.mac, e.userId, e.questionId));
            Step(env, s, e).1 == ServerError <==>
            && e.userId != "" && e.body.Some?
            && (e.fault == Some(1)
                || (e.userId in s.users
                    && (e.fault == Some(2)
                        || (IsApproved(s, e.questionId) && (s.questions[e.questionId].specialFlagged ==> e.body.value.consent)
                            && (Refuses(e.fault, 3, 4) || (e.fault == Some(5) && key !in s.tracking))))))
  {
  }

  /** The two rows of a stored answer. */
  lemma AnswerStores(env: Env, s: State, e: Event)
    requires Consistent(s) && e.Answer? && Step(env, s, e).1.Created?
    ensures var s', q := Step(env, s, e).0, e.questionId;
            var key := (q, HashOf(env.mac, e.userId, q));
            && Step(env, s, e).1.id == s.nextAnswer && s.nextAnswer !in s.answers
            && s'.answers == s.answers[s.nextAnswer := UserAnswer(q, e.body.value.answerId, env.tagsOf(s.users[e.userId], e.year))]
            && s'.tracking.Keys == s.tracking.Keys + {key} && s'.tracking[key].keyVersion == env.keyVersion
            && s'.tracking[key].consentGivenAt == (if s.questions[q].specialFlagged then Some(e.now) else None)
            && s' == s.(answers := s'.answers, tracking := s'.tracking, nextAnswer := s.nextAnswer + 1)
  {
  }

  // ----- Where a consent timestamp comes from -----

  predicate StoredBy(env: Env, events: seq<Event>, i: nat, key: (int, string))
    requires i < |events|
  {
    var e := events[i];
    e.Answer? && key == (e.questionId, HashOf(env.mac, e.userId, e.questionId)) && Step(env, Run(env, events[..i]), e).1.Created?
  }

  /** The row is that of the last answer under its key, and its consent timestamp is
      that answer's time if the question was flagged then, with consent given. */
  ghost predicate ConsentFrom(env: Env, events: seq<Event>, i: nat, key: (int, string), row: Tracking)
    requires i < |events|
  {
    var s := Run(env, events[..i]);
    && StoredBy(env, events, i, key)
    && (forall j :: i < j < |events| ==> !StoredBy(env, events, j, key))
    && key.0 in s.questions
    && row == Tracking(env.keyVersion, if s.questions[key.0].specialFlagged then Some(events[i].now) else None)
    && (s.questions[key.0].specialFlagged ==> events[i].body.Some? && events[i].body.value.consent)
  }

  lemma ConsentFromLonger(env: Env, events: seq<Event>, i: nat, key: (int, string), row: Tracking)
    requires events != [] && i < |events| - 1 && ConsentFrom(env, events[..|events| - 1], i, key, row)
    requires !StoredBy(env, events, |events| - 1, key)
    ensures ConsentFrom(env, events, i, key, row)
  {
    var front := events[..|events| - 1];
    assert front[..i] == events[..i];
    forall j | i < j < |events| ensures !StoredBy(env, events, j, key) {
      if j < |front| {
        assert front[..j] == events[..j] && !StoredBy(env, front, j, key);
      }
    }
  }

  lemma StepRow(env: Env, s: State, e: Event, key: (int, string))
    requires key in Step(env, s, e).0.tracking
    ensures var stores := e.Answer? && key == (e.questionId, HashOf(env.mac, e.userId, e.questionId)) && Step(env, s, e).1.Created?;
            var row := Step(env, s, e).0.tracking[key];
            if stores then
              && key.0 in s.questions
              && row == Tracking(env.keyVersion, if s.questions[key.0].specialFlagged then Some(e.now) else None)
              && (s.questions[key.0].specialFlagged ==> e.body.Some? && e.body.value.consent)
            else key in s.tracking && row == s.tracking[key]
  {
  }

  /** In every run a tracking row carries a consent timestamp exactly when the
      question was flagged at the answer that stored the row; it is the time of that
      answer, and that answer gave consent. */
  lemma {:induction false} ConsentRecorded(env: Env, events: seq<Event>, key: (int, string)) returns (i: nat)
    requires key in Run(env, events).tracking
    ensures i < |events| && ConsentFrom(env, events, i, key, Run(env, events).tracking[key])
  {
    var n := |events| - 1;
    StepRow(env, Run(env, events[..n]), events[n], key);
    if StoredBy(env, events, n, key) {
      i := n;
    } else {
      i := ConsentRecorded(env, events[..n], key);
      ConsentFromLonger(env, events, i, key, Run(env, events).tracking[key]);
    }
  }

  // ----- Deleting -----

  /** A deletion succeeds if and only if the caller has answered the approved question;
      404 otherwise, 401 without a user, 500 if it comes to a refused statement. */
  lemma DeletedIff(env: Env, s: State, e: Event)
    requires e.DeleteAnswer?
    ensures var key := (e.questionId, HashOf(env.mac, e.userId, e.questionId));
            var open := e.questionId in s.questions && s.questions[e.questionId].status == Catalogue.Approved;
            var (s', outcome) := Step(env, s, e);
            && (outcome == Done <==> e.userId != "" && open && key in s.tracking && !Refuses(e.fault, 1, 4))
            && (outcome == Done ==> s' == s.(answers := s'.answers, tracking := s'.tracking))
            && (outcome == Unauthorized <==> e.userId == "")
            && (outcome == NotFound <==>
                  e.userId != "" && e.fault != Some(1) && (!open || (key !in s.tracking && !Refuses(e.fault, 2, 4))))
            && (outcome == ServerError <==> e.userId != "" && (e.fault == Some(1) || (open && Refuses(e.fault, 2, 4))))
  {
  }

  // ----- Submitting -----

  /** What a body must hold to be accepted. */
  predicate WellFormed(body: Option<Submission>) {
    && body.Some?
    && body.value.text.Some? && body.value.text.value != ""
    && body.value.categoryId.Some?
    && body.value.language.Some? && |body.value.language.value| == 2
    && !body.value.hasMinAge
    && body.value.options.Some? && 1 <= |body.value.options.value| <= 50
    && forall i :: 0 <= i < |body.value.options.value| ==>
         body.value.options.value[i].Some? && body.value.options.value[i].value != ""
  }

  lemma WellFormedIff(body: Option<Submission>)
    ensures WellFormed(body) <==> body.Some? && ValidSubmission(body.value)
  {
    if body.Some? && body.value.options.Some? {
      var given := body.value.options.value;
      assert forall i :: 0 <= i < |given| ==> (ValidOption(given[i]) <==> given[i].Some? && given[i].value != "");
    }
  }

  lemma SubmittedIff(env: Env, s: State, e: Event)
    requires e.Submit?
    ensures var outcome := Step(env, s, e).1;
            && (outcome.Created? <==> WellFormed(e.submission) && e.userId != "" && e.userId in s.users && !Refuses(e.fault, 1, 3))
            && (outcome == BadRequest <==> !WellFormed(e.submission))
            && (outcome == Unauthorized <==> WellFormed(e.submission) && e.userId == "")
            && (outcome == ServerError <==>
                  WellFormed(e.submission) && e.userId != "" && (Refuses(e.fault, 1, 3) || e.userId !in s.users))
  {
    WellFormedIff(e.submission);
  }

  /** A submission stores the question with the values of the body, pending and
      without age limit or flag, and nothing else but its options. */
  lemma SubmitStoresQuestion(env: Env, s: State, e: Event)
    requires Consistent(s) && e.Submit? && Step(env, s, e).1.Created?
    ensures var s', q, b := Step(env, s, e).0, s.nextQuestion, e.submission.value;
            && Step(env, s, e).1.id == q && q !in s.questions
            && s'.questions == s.questions[q := Question(b.text.value, b.categoryId.value, b.language.value, 0,
                                                         Catalogue.Pending, false, Some(e.userId))]
            && s' == s.(questions := s'.questions, options := s'.options, nextQuestion := q + 1,
                        nextOption := s.nextOption + |b.options.value|)
            && (forall o :: o in s.options ==> o in s'.options && s'.options[o] == s.options[o])
  {
    assert forall o :: o in s.options ==> o < s.nextOption;
  }

  // ----- Reviewing -----

  /** Approval opens a question with the given age limit and flag, from any status. */
  lemma ApproveMeans(env: Env, s: State, e: Event)
    requires e.Approve?
    ensures var (s', outcome) := Step(env, s, e);
            var age := if e.minAge.Some? then e.minAge.value else 0;
            && (outcome == BadRequest <==> age < 0 || age > 120)
            && (outcome == Done <==> 0 <= age <= 120 && e.fault != Some(1) && e.questionId in s.questions)
            && (outcome == NotFound <==> 0 <= age <= 120 && e.fault != Some(1) && e.questionId !in s.questions)
            && (outcome == Done ==>
                  && IsApproved(s', e.questionId) && s'.questions[e.questionId].minAge == age
                  && (s'.questions[e.questionId].specialFlagged <==> e.special)
                  && s'.questions[e.questionId].text == s.questions[e.questionId].text
                  && s' == s.(questions := s.questions[e.questionId := s'.questions[e.questionId]]))
  {
  }

  /** Rejection closes a question and changes nothing else of it. */
  lemma RejectMeans(env: Env, s: State, e: Event)
    requires e.Reject?
    ensures var (s', outcome) := Step(env, s, e);
            && (outcome == Done <==> e.fault != Some(1) && e.questionId in s.questions)
            && (outcome == NotFound <==> e.fault != Some(1) && e.questionId !in s.questions)
            && (outcome == Done ==>
                  s' == s.(questions := s.questions[e.questionId := s.questions[e.questionId].(status := Catalogue.Rejected)]))
  {
  }

  /** Deleting a question removes it, its options and every row that hangs on it, and
      keeps everything of the other questions. */
  lemma DeleteQuestionMeans(env: Env, s: State, e: Event)
    requires Consistent(s) && e.DeleteQuestion?
    ensures var (s', outcome) := Step(env, s, e);
            && (outcome == Done <==> e.fault != Some(1) && e.questionId in s.questions)
            && (outcome == Done ==>
                  && s'.questions == s.questions - {e.questionId} && s'.users == s.users
                  && (forall o :: o in s'.options <==> o in s.options && s.options[o].questionId != e.questionId)
                  && (forall a :: a in s'.answers <==> a in s.answers && s.answers[a].questionId != e.questionId)
                  && (forall k :: k in s'.tracking <==> k in s.tracking && k.0 != e.questionId))
  {
    forall a | a in s.answers
      ensures s.answers[a].answerId in s.options && s.options[s.answers[a].answerId].questionId == s.answers[a].questionId
    {
      assert OptionBelongs(s, s.answers[a].answerId, s.answers[a].questionId);
    }
  }

  // ----- Users -----

  /** A profile is stored as given; removing a user keeps every row, and questions
      only forget that this user submitted them. */
  lemma UserChanges(env: Env, s: State, e: Event)
    ensures e.SetProfile? ==> Step(env, s, e) == (s.(users := s.users[e.userId := e.profile]), Done)
    ensures e.RemoveUser? ==>
              var (s', outcome) := Step(env, s, e);
              && (outcome == if e.userId in s.users then Done else NotFound)
              && e.userId !in s'.users && (forall u :: u in s.users && u != e.userId ==> u in s'.users && s'.users[u] == s.users[u])
              && s' == s.(users := s'.users, questions := s'.questions) && s'.questions.Keys == s.questions.Keys
              && (forall q :: q in s'.questions ==>
                    s'.questions[q] == s.questions[q].(submittedBy := s'.questions[q].submittedBy)
                    && (outcome == Done ==>
                          s'.questions[q].submittedBy
                          == if s.questions[q].submittedBy == Some(e.userId) then None else s.questions[q].submittedBy))
  {
  }
}
