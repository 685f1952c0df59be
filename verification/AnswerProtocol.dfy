/** What every run of submit, review, answer and delete requests keeps. */
module AnswerProtocol {
  import opened Wrappers
  import Catalogue
  import opened UserIdHash
  import opened AnswerTables

  // ----- Rows refer to each other -----

  ghost predicate Consistent(s: State) {
    && (forall q :: q in s.questions ==> 0 < q < s.nextQuestion)
    && (forall o :: o in s.options ==> 0 < o < s.nextOption && s.options[o].questionId in s.questions)
    && (forall a :: a in s.answers ==>
          0 < a < s.nextAnswer && OptionBelongs(s, s.answers[a].answerId, s.answers[a].questionId))
    && (forall k :: k in s.tracking ==> k.0 in s.questions)
    && s.nextQuestion > 0 && s.nextOption > 0 && s.nextAnswer > 0
  }

  lemma NewOptionsConsistent(s: State, t: State, texts: seq<string>)
    requires Consistent(s)
    requires t.questions.Keys == s.questions.Keys + {s.nextQuestion} && t.answers == s.answers && t.tracking == s.tracking
    requires t.options == s.options + NewOptions(s.nextOption, s.nextQuestion, texts)
    requires t.nextQuestion == s.nextQuestion + 1 && t.nextOption == s.nextOption + |texts| && t.nextAnswer == s.nextAnswer
    ensures Consistent(t)
  {
  }

  lemma SubmitConsistent(s: State, userId: string, body: Option<Submission>, fault: Fault)
    requires Consistent(s)
    ensures Consistent(SubmitStep(s, userId, body, fault).0)
  {
    if SubmitStep(s, userId, body, fault).1.Success() {
      NewOptionsConsistent(s, SubmitStep(s, userId, body, fault).0, Texts(body.value.options.value));
    }
  }

  lemma DeleteQuestionConsistent(s: State, questionId: int, fault: Fault)
    requires Consistent(s)
    ensures Consistent(DeleteQuestionStep(s, questionId, fault).0)
  {
  }

  lemma AnswerConsistent(env: Env, s: State, userId: string, questionId: int, body: Option<AnswerBody>,
                         year: int, now: int, fault: Fault)
    requires Consistent(s)
    ensures Consistent(AnswerStep(env, s, userId, questionId, body, year, now, fault).0)
  {
  }

  lemma DeleteAnswerConsistent(env: Env, s: State, userId: string, questionId: int, fault: Fault)
    requires Consistent(s)
    ensures Consistent(DeleteAnswerStep(env, s, userId, questionId, fault).0)
  {
  }

  lemma StepConsistent(env: Env, s: State, e: Event)
    requires Consistent(s)
    ensures Consistent(Step(env, s, e).0)
  {
    match e
    case Submit(u, b, f) => SubmitConsistent(s, u, b, f);
    case Answer(u, q, b, y, n, f) => AnswerConsistent(env, s, u, q, b, y, n, f);
    case DeleteAnswer(u, q, f) => DeleteAnswerConsistent(env, s, u, q, f);
    case DeleteQuestion(q, f) => DeleteQuestionConsistent(s, q, f);
    case _ =>
  }

  /** Every answer row names an option of its own question; every option and
      tracking row names an existing question; keys stay below the sequences. */
  lemma {:induction false} RunConsistent(env: Env, events: seq<Event>)
    ensures Consistent(Run(env, events))
  {
    if events != [] {
      RunConsistent(env, events[..|events| - 1]);
      StepConsistent(env, Run(env, events[..|events| - 1]), events[|events| - 1]);
    }
  }

  /** A request that does not succeed leaves every table as it was, whichever
      check failed and whichever statement the database refused; a 400, 401, 404
      or 409 leaves the sequences alone as well. */
  lemma FailureChangesNothing(env: Env, s: State, e: Event)
    requires !Step(env, s, e).1.Success()
    ensures SameTables(s, Step(env, s, e).0)
    ensures !Step(env, s, e).1.ServerError? ==> Step(env, s, e).0 == s
  {
  }

  /** The run without the requests that were refused with 400, 401, 404 or 409. */
  function WithoutRefused(env: Env, events: seq<Event>): seq<Event> {
    if events == [] then []
    else
      var n, outcome := |events| - 1, LastOutcome(env, events);
      WithoutRefused(env, events[..n]) + if outcome.Success() || outcome.ServerError? then [events[n]] else []
  }

  /** Refused requests leave no trace in any run: without them it ends in the same
      state, keys and sequences included. */
  lemma {:induction false} RefusedLeaveNoTrace(env: Env, events: seq<Event>)
    ensures Run(env, WithoutRefused(env, events)) == Run(env, events)
  {
    if events != [] {
      var n, outcome := |events| - 1, LastOutcome(env, events);
      RefusedLeaveNoTrace(env, events[..n]);
      var kept := WithoutRefused(env, events[..n]);
      if outcome.Success() || outcome.ServerError? {
        assert (kept + [events[n]])[..|kept|] == kept;
      } else {
        FailureChangesNothing(env, Run(env, events[..n]), events[n]);
        assert kept + [] == kept;
      }
    }
  }

  lemma {:induction false} NewOptionText(first: int, questionId: int, texts: seq<string>, i: nat)
    requires i < |texts|
    ensures NewOptions(first, questionId, texts)[first + i] == AnswerOption(questionId, texts[i])
  {
    var n := |texts| - 1;
    if i < n {
      NewOptionText(first, questionId, texts[..n], i);
    }
  }

  /** A submitted question starts out pending, and its options are exactly those
      of the request, numbered in request order. */
  lemma SubmitStoresOptions(env: Env, s: State, e: Event, option: int)
    requires Consistent(s) && e.Submit? && Step(env, s, e).1.Success()
    ensures var s', q := Step(env, s, e).0, s.nextQuestion;
            var given := e.submission.value.options.value;
            && q !in s.questions && q in s'.questions && s'.questions[q].status == Catalogue.Pending
            && (option in s'.options && s'.options[option].questionId == q
                <==> s.nextOption <= option < s.nextOption + |given|)
            && (s.nextOption <= option < s.nextOption + |given| ==>
                  s'.options[option] == AnswerOption(q, TextOf(given[option - s.nextOption])))
  {
    SubmitOption(s, e.userId, e.submission, e.fault, option);
  }

  lemma SubmitOption(s: State, userId: string, body: Option<Submission>, fault: Fault, option: int)
    requires Consistent(s) && SubmitStep(s, userId, body, fault).1.Success()
    ensures var s', given := SubmitStep(s, userId, body, fault).0, body.value.options.value;
            && (option in s'.options && s'.options[option].questionId == s.nextQuestion
                <==> s.nextOption <= option < s.nextOption + |given|)
            && (s.nextOption <= option < s.nextOption + |given| ==>
                  s'.options[option] == AnswerOption(s.nextQuestion, TextOf(given[option - s.nextOption])))
  {
    var given := body.value.options.value;
    assert option in s.options ==> option < s.nextOption && s.options[option].questionId != s.nextQuestion;
    if s.nextOption <= option < s.nextOption + |given| {
      NewOptionText(s.nextOption, s.nextQuestion, Texts(given), option - s.nextOption);
    }
  }

  ghost predicate PendingUntouched(s: State) {
    && (forall k :: k in s.tracking && k.0 in s.questions ==> !s.questions[k.0].status.Pending?)
    && (forall a :: a in s.answers && s.answers[a].questionId in s.questions ==>
          !s.questions[s.answers[a].questionId].status.Pending?)
  }

  /** Nothing makes a reviewed question pending again. */
  lemma ReviewedStays(env: Env, s: State, e: Event, questionId: int)
    requires Consistent(s) && questionId in s.questions && !s.questions[questionId].status.Pending?
    ensures var s' := Step(env, s, e).0;
            questionId in s'.questions ==> !s'.questions[questionId].status.Pending?
  {
  }

  /** New rows are for approved questions. */
  lemma NewRowsApproved(env: Env, s: State, e: Event)
    requires Consistent(s)
    ensures forall k :: k in Step(env, s, e).0.tracking && k !in s.tracking ==> IsApproved(s, k.0)
    ensures var s' := Step(env, s, e).0;
            forall a :: a in s'.answers && (a !in s.answers || s'.answers[a] != s.answers[a]) ==>
              IsApproved(s, s'.answers[a].questionId)
  {
  }

  lemma StepPendingUntouched(env: Env, s: State, e: Event)
    requires Consistent(s) && PendingUntouched(s)
    ensures PendingUntouched(Step(env, s, e).0)
  {
    var s' := Step(env, s, e).0;
    NewRowsApproved(env, s, e);
    forall k | k in s'.tracking && k.0 in s'.questions ensures !s'.questions[k.0].status.Pending? {
      ReviewedStays(env, s, e, k.0);
    }
    forall a | a in s'.answers && s'.answers[a].questionId in s'.questions
      ensures !s'.questions[s'.answers[a].questionId].status.Pending?
    {
      if a in s.answers {
        assert OptionBelongs(s, s.answers[a].answerId, s.answers[a].questionId);
      }
      ReviewedStays(env, s, e, s'.answers[a].questionId);
    }
  }

  /** A question that was never reviewed has neither answers nor tracking rows. */
  lemma {:induction false} PendingNeverAnswered(env: Env, events: seq<Event>)
    ensures PendingUntouched(Run(env, events))
  {
    if events != [] {
      PendingNeverAnswered(env, events[..|events| - 1]);
      RunConsistent(env, events[..|events| - 1]);
      StepPendingUntouched(env, Run(env, events[..|events| - 1]), events[|events| - 1]);
    }
  }

  // ----- Provenance of the stored hashes -----

  /** All hash messages of the run are among `messages`. */
  ghost predicate Within(events: seq<Event>, messages: iset<string>) {
    forall i :: 0 <= i < |events| && events[i].Answer? ==> Message(events[i].userId, events[i].questionId) in messages
  }

  lemma WithinFront(events: seq<Event>, messages: iset<string>)
    requires events != [] && Within(events, messages)
    ensures Within(events[..|events| - 1], messages)
  {
    var front := events[..|events| - 1];
    forall i | 0 <= i < |front| && front[i].Answer? ensures Message(front[i].userId, front[i].questionId) in messages {
      assert front[i] == events[i];
    }
  }

  ghost predicate HashOfSomeUser(env: Env, key: (int, string), messages: iset<string>) {
    exists u :: Message(u, key.0) in messages && key.1 == HashOf(env.mac, u, key.0)
  }

  /** Submitting, reviewing and user changes leave answers and tracking rows alone. */
  lemma RowsUntouched(env: Env, s: State, e: Event)
    requires !e.Answer? && !e.DeleteAnswer? && !e.DeleteQuestion?
    ensures Step(env, s, e).0.answers == s.answers && Step(env, s, e).0.tracking == s.tracking
  {
  }

  /** Only a successful answer adds a tracking row: its own. */
  lemma NewTracking(env: Env, s: State, e: Event, key: (int, string))
    requires key in Step(env, s, e).0.tracking && key !in s.tracking
    ensures e.Answer? && key == (e.questionId, HashOf(env.mac, e.userId, e.questionId))
  {
  }

  /** Only deleting an answer or the question itself removes a tracking row. */
  lemma KeptTracking(env: Env, s: State, e: Event, key: (int, string))
    requires key in s.tracking && !e.DeleteAnswer? && key.0 in Step(env, s, e).0.questions
    ensures key in Step(env, s, e).0.tracking
  {
  }

  /** Every stored row is (q, hash(u, q)) for some user u: the q inside the hash
      is the row's own question. */
  lemma {:induction false} TrackingProvenance(env: Env, events: seq<Event>, messages: iset<string>)
    requires Within(events, messages)
    ensures forall k :: k in Run(env, events).tracking ==> HashOfSomeUser(env, k, messages)
  {
    if events != [] {
      var front, e := events[..|events| - 1], events[|events| - 1];
      WithinFront(events, messages);
      TrackingProvenance(env, front, messages);
      forall k | k in Run(env, events).tracking ensures HashOfSomeUser(env, k, messages) {
        if k !in Run(env, front).tracking {
          NewTracking(env, Run(env, front), e, k);
          assert Message(e.userId, k.0) in messages && k.1 == HashOf(env.mac, e.userId, k.0);
        }
      }
    }
  }

  // ----- Who has answered -----

  predicate HasTracking(env: Env, s: State, userId: string, questionId: int) {
    (questionId, HashOf(env.mac, userId, questionId)) in s.tracking
  }

  /** The successful answers (true) and deletions (false) of one user on one question. */
  function History(env: Env, events: seq<Event>, userId: string, questionId: int): seq<bool> {
    if events == [] then []
    else
      var front, e := events[..|events| - 1], events[|events| - 1];
      var before := History(env, front, userId, questionId);
      if !LastOutcome(env, events).Success() then before
      else if e.Answer? && e.userId == userId && e.questionId == questionId then before + [true]
      else if e.DeleteAnswer? && e.userId == userId && e.questionId == questionId then before + [false]
      else before
  }

  predicate Alternating(h: seq<bool>) {
    forall i :: 0 <= i < |h| ==> h[i] == (i % 2 == 0)
  }

  /** All messages that any request of the run hashes, deletions included. */
  ghost predicate AllWithin(events: seq<Event>, messages: iset<string>) {
    forall i :: 0 <= i < |events| && (events[i].Answer? || events[i].DeleteAnswer?) ==>
      Message(events[i].userId, events[i].questionId) in messages
  }

  lemma AllWithinFront(events: seq<Event>, messages: iset<string>)
    requires events != [] && AllWithin(events, messages)
    ensures AllWithin(events[..|events| - 1], messages)
  {
    var front := events[..|events| - 1];
    forall i | 0 <= i < |front| && (front[i].Answer? || front[i].DeleteAnswer?)
      ensures Message(front[i].userId, front[i].questionId) in messages
    {
      assert front[i] == events[i];
    }
  }

  lemma NoNewQuestions(env: Env, s: State, e: Event)
    requires !e.Submit?
    ensures Step(env, s, e).0.questions.Keys <= s.questions.Keys
    ensures Step(env, s, e).0.nextQuestion == s.nextQuestion
  {
  }

  lemma NewQuestion(s: State, userId: string, body: Option<Submission>, fault: Fault)
    ensures var s' := SubmitStep(s, userId, body, fault).0;
            s.nextQuestion <= s'.nextQuestion && s'.questions.Keys <= s.questions.Keys + {s.nextQuestion}
  {
  }

  /** Questions appear only with the next sequence value, which never goes back. */
  lemma StepQuestions(env: Env, s: State, e: Event, questionId: int)
    ensures var s' := Step(env, s, e).0;
            && s.nextQuestion <= s'.nextQuestion
            && (questionId in s'.questions && questionId !in s.questions ==> questionId == s.nextQuestion && e.Submit?)
  {
    if e.Submit? {
      NewQuestion(s, e.userId, e.submission, e.fault);
    } else {
      NoNewQuestions(env, s, e);
    }
  }

  /** Only this user's own successful requests on this question, or its
      disappearance, change this user's tracking row. */
  lemma StepTracking(env: Env, s: State, e: Event, userId: string, questionId: int, messages: iset<string>)
    requires Consistent(s)
    requires CollisionFree(env.mac, messages) && Message(userId, questionId) in messages
    requires e.Answer? || e.DeleteAnswer? ==> Message(e.userId, e.questionId) in messages
    ensures var s' := Step(env, s, e).0;
            var had, has := HasTracking(env, s, userId, questionId), HasTracking(env, s', userId, questionId);
            if (e.Answer? || e.DeleteAnswer?) && Step(env, s, e).1.Success() && (e.userId, e.questionId) == (userId, questionId)
            then questionId in s.questions && had == e.DeleteAnswer? && has == e.Answer?
            else questionId in s'.questions ==> has == had
  {
    if e.Answer? || e.DeleteAnswer? {
      OwnTracking(env, s, e, userId, questionId, messages);
    } else {
      var key := (questionId, HashOf(env.mac, userId, questionId));
      if key in s.tracking && questionId in Step(env, s, e).0.questions {
        KeptTracking(env, s, e, key);
      } else if key in Step(env, s, e).0.tracking && key !in s.tracking {
        NewTracking(env, s, e, key);
      }
    }
  }

  lemma OwnTracking(env: Env, s: State, e: Event, userId: string, questionId: int, messages: iset<string>)
    requires e.Answer? || e.DeleteAnswer?
    requires CollisionFree(env.mac, messages) && Message(userId, questionId) in messages
    requires Message(e.userId, e.questionId) in messages
    ensures var s' := Step(env, s, e).0;
            var had, has := HasTracking(env, s, userId, questionId), HasTracking(env, s', userId, questionId);
            if Step(env, s, e).1.Success() && (e.userId, e.questionId) == (userId, questionId)
            then questionId in s.questions && had == e.DeleteAnswer? && has == e.Answer?
            else has == had
  {
    var own, key := (e.questionId, HashOf(env.mac, e.userId, e.questionId)), (questionId, HashOf(env.mac, userId, questionId));
    TrackingChange(env, s, e);
    if own == key {
      HashInjective(env.mac, messages, e.userId, e.questionId, userId, questionId);
    }
  }

  /** Answers and deletions change the tracking rows by the requester's own key. */
  lemma TrackingChange(env: Env, s: State, e: Event)
    requires e.Answer? || e.DeleteAnswer?
    ensures var s', own := Step(env, s, e).0, (e.questionId, HashOf(env.mac, e.userId, e.questionId));
            if !Step(env, s, e).1.Success() then s'.tracking == s.tracking
            else
              && e.questionId in s.questions && (own in s.tracking <==> e.DeleteAnswer?)
              && s'.tracking.Keys == if e.Answer? then s.tracking.Keys + {own} else s.tracking.Keys - {own}
  {
    if e.Answer? {
      InsertsTracking(env, s, e.userId, e.questionId, e.body, e.year, e.now, e.fault);
    }
  }

  lemma InsertsTracking(env: Env, s: State, userId: string, questionId: int, body: Option<AnswerBody>, year: int, now: int,
                        fault: Fault)
    ensures var (s', outcome) := AnswerStep(env, s, userId, questionId, body, year, now, fault);
            var own := (questionId, HashOf(env.mac, userId, questionId));
            if !outcome.Success() then s'.tracking == s.tracking
            else questionId in s.questions && own !in s.tracking && s'.tracking.Keys == s.tracking.Keys + {own}
  {
  }

  ghost predicate HistoryMatches(env: Env, s: State, userId: string, questionId: int, h: seq<bool>) {
    && Alternating(h)
    && (questionId in s.questions ==> (HasTracking(env, s, userId, questionId) <==> |h| % 2 == 1))
    && (questionId >= s.nextQuestion ==> h == [])
  }

  lemma HistoryMatchesStep(env: Env, s: State, e: Event, userId: string, questionId: int, h: seq<bool>, messages: iset<string>)
    requires Consistent(s) && HistoryMatches(env, s, userId, questionId, h)
    requires CollisionFree(env.mac, messages) && Message(userId, questionId) in messages
    requires e.Answer? || e.DeleteAnswer? ==> Message(e.userId, e.questionId) in messages
    ensures var own := (e.Answer? || e.DeleteAnswer?) && Step(env, s, e).1.Success()
                       && (e.userId, e.questionId) == (userId, questionId);
            HistoryMatches(env, Step(env, s, e).0, userId, questionId, if own then h + [e.Answer?] else h)
  {
    StepQuestions(env, s, e, questionId);
    StepTracking(env, s, e, userId, questionId, messages);
    if |h| % 2 == (if e.Answer? then 0 else 1) {
      AlternatingSnoc(h, e.Answer?);
    }
  }

  lemma AlternatingSnoc(h: seq<bool>, last: bool)
    requires Alternating(h) && last == (|h| % 2 == 0)
    ensures Alternating(h + [last])
  {
  }

  /** In every run, one user's successful answers and deletions on one question
      strictly alternate, starting with an answer; and while the question exists
      its tracking row is there exactly after an answer. */
  lemma {:induction false} AnswersAlternate(env: Env, events: seq<Event>, userId: string, questionId: int,
                                            messages: iset<string>)
    requires CollisionFree(env.mac, messages) && AllWithin(events, messages)
    requires Message(userId, questionId) in messages
    ensures HistoryMatches(env, Run(env, events), userId, questionId, History(env, events, userId, questionId))
  {
    if events != [] {
      var front, e := events[..|events| - 1], events[|events| - 1];
      AllWithinFront(events, messages);
      RunConsistent(env, front);
      AnswersAlternate(env, front, userId, questionId, messages);
      assert e == events[|events| - 1];
      HistoryMatchesStep(env, Run(env, front), e, userId, questionId, History(env, front, userId, questionId), messages);
      HistoryStep(env, events, userId, questionId);
    }
  }

  lemma HistoryStep(env: Env, events: seq<Event>, userId: string, questionId: int)
    requires events != []
    ensures var e := events[|events| - 1];
            var before := History(env, events[..|events| - 1], userId, questionId);
            History(env, events, userId, questionId)
            == if (e.Answer? || e.DeleteAnswer?) && LastOutcome(env, events).Success()
                  && (e.userId, e.questionId) == (userId, questionId)
               then before + [e.Answer?] else before
  {
  }

  // ----- Answer rows against tracking rows -----

  function AnswersOf(s: State, questionId: int): set<int> {
    set a | a in s.answers && s.answers[a].questionId == questionId
  }

  function TrackingOf(s: State, questionId: int): set<(int, string)> {
    set k | k in s.tracking && k.0 == questionId
  }

  lemma AnswerCounts(env: Env, s: State, e: Event)
    requires Consistent(s) && e.Answer? && Step(env, s, e).1.Success()
    ensures var s', q := Step(env, s, e).0, e.questionId;
            && AnswersOf(s', q) == AnswersOf(s, q) + {s.nextAnswer} && s.nextAnswer !in AnswersOf(s, q)
            && TrackingOf(s', q) == TrackingOf(s, q) + {(q, HashOf(env.mac, e.userId, q))}
            && (q, HashOf(env.mac, e.userId, q)) !in TrackingOf(s, q)
  {
  }

  lemma DeleteCounts(env: Env, s: State, e: Event)
    requires Consistent(s) && e.DeleteAnswer? && Step(env, s, e).1.Success()
    ensures var s', q := Step(env, s, e).0, e.questionId;
            && AnswersOf(s', q) == {}
            && TrackingOf(s', q) == TrackingOf(s, q) - {(q, HashOf(env.mac, e.userId, q))}
            && (q, HashOf(env.mac, e.userId, q)) in TrackingOf(s, q)
  {
    var s', q := Step(env, s, e).0, e.questionId;
    forall a | a in AnswersOf(s, q) ensures a in AnswersHit(s, q) {
      assert OptionBelongs(s, s.answers[a].answerId, s.answers[a].questionId);
    }
    assert s'.answers == s.answers - AnswersHit(s, q);
  }

  lemma DeleteQuestionElsewhere(s: State, q: int, fault: Fault, questionId: int)
    requires Consistent(s) && q != questionId
    ensures var s' := DeleteQuestionStep(s, q, fault).0;
            AnswersOf(s', questionId) == AnswersOf(s, questionId) && TrackingOf(s', questionId) == TrackingOf(s, questionId)
  {
    var s' := DeleteQuestionStep(s, q, fault).0;
    forall a | a in AnswersOf(s, questionId) ensures a in s'.answers {
      assert OptionBelongs(s, s.answers[a].answerId, s.answers[a].questionId);
    }
  }

  lemma AnswersElsewhere(env: Env, s: State, e: Event, questionId: int)
    requires Consistent(s) && (e.Answer? || e.DeleteAnswer?) && e.questionId != questionId
    ensures var s' := Step(env, s, e).0;
            AnswersOf(s', questionId) == AnswersOf(s, questionId) && TrackingOf(s', questionId) == TrackingOf(s, questionId)
  {
  }

  /** Requests on other questions, and failed ones, leave both sets alone. */
  lemma OtherCounts(env: Env, s: State, e: Event, questionId: int)
    requires Consistent(s)
    requires (e.Answer? || e.DeleteAnswer? || e.DeleteQuestion?) && e.questionId == questionId ==> !Step(env, s, e).1.Success()
    ensures var s' := Step(env, s, e).0;
            AnswersOf(s', questionId) == AnswersOf(s, questionId) && TrackingOf(s', questionId) == TrackingOf(s, questionId)
  {
    if !e.Answer? && !e.DeleteAnswer? && !e.DeleteQuestion? {
      RowsUntouched(env, s, e);
    } else if !Step(env, s, e).1.Success() {
      FailureChangesNothing(env, s, e);
    } else if e.DeleteQuestion? {
      DeleteQuestionElsewhere(s, e.questionId, e.fault, questionId);
    } else {
      AnswersElsewhere(env, s, e, questionId);
    }
  }

  lemma NoRowsWithoutQuestion(s: State, questionId: int)
    requires Consistent(s) && questionId !in s.questions
    ensures AnswersOf(s, questionId) == {} && TrackingOf(s, questionId) == {}
  {
    forall a | a in s.answers ensures s.answers[a].questionId != questionId {
      assert OptionBelongs(s, s.answers[a].answerId, s.answers[a].questionId);
    }
  }

  lemma DeleteQuestionCounts(env: Env, s: State, e: Event)
    requires Consistent(s) && e.DeleteQuestion? && Step(env, s, e).1.Success()
    ensures AnswersOf(Step(env, s, e).0, e.questionId) == {} && TrackingOf(Step(env, s, e).0, e.questionId) == {}
  {
  }

  predicate Touches(e: Event, questionId: int) {
    (e.Answer? || e.DeleteAnswer? || e.DeleteQuestion?) && e.questionId == questionId
  }

  lemma StepAtMost(env: Env, s: State, e: Event, questionId: int)
    requires Consistent(s) && |AnswersOf(s, questionId)| <= |TrackingOf(s, questionId)|
    ensures |AnswersOf(Step(env, s, e).0, questionId)| <= |TrackingOf(Step(env, s, e).0, questionId)|
  {
    if !Touches(e, questionId) || !Step(env, s, e).1.Success() {
      OtherCounts(env, s, e, questionId);
    } else if e.Answer? {
      AnswerCounts(env, s, e);
    } else if e.DeleteAnswer? {
      DeleteCounts(env, s, e);
    } else {
      DeleteQuestionCounts(env, s, e);
    }
  }

  /** In every run a question never has more answer rows than tracking rows. */
  lemma {:induction false} AnswersAtMostTracking(env: Env, events: seq<Event>, questionId: int)
    ensures |AnswersOf(Run(env, events), questionId)| <= |TrackingOf(Run(env, events), questionId)|
  {
    if events != [] {
      var front, e := events[..|events| - 1], events[|events| - 1];
      AnswersAtMostTracking(env, front, questionId);
      RunConsistent(env, front);
      StepAtMost(env, Run(env, front), e, questionId);
    }
  }

  /** The users whose answer to the question succeeded somewhere in the run. */
  function Voters(env: Env, events: seq<Event>, questionId: int): set<string> {
    if events == [] then {}
    else
      var e := events[|events| - 1];
      Voters(env, events[..|events| - 1], questionId)
      + if e.Answer? && e.questionId == questionId && LastOutcome(env, events).Success() then {e.userId} else {}
  }

  lemma VotersStep(env: Env, events: seq<Event>, questionId: int)
    requires events != []
    ensures var front, e := events[..|events| - 1], events[|events| - 1];
            Voters(env, events, questionId)
            == Voters(env, front, questionId)
               + (if e.Answer? && e.questionId == questionId && LastOutcome(env, events).Success() then {e.userId} else {})
  {
  }

  ghost predicate NoDeleteAnswer(events: seq<Event>) {
    forall i :: 0 <= i < |events| ==> !events[i].DeleteAnswer?
  }

  /** Every voter of an existing question is tracked; a question still to come has none. */
  ghost predicate Tracked(env: Env, s: State, questionId: int, voters: set<string>) {
    && (questionId in s.questions ==> forall u :: u in voters ==> HasTracking(env, s, u, questionId))
    && (questionId >= s.nextQuestion ==> voters == {})
  }

  lemma TrackedStep(env: Env, s: State, e: Event, questionId: int, voters: set<string>)
    requires Consistent(s) && !e.DeleteAnswer? && Tracked(env, s, questionId, voters)
    ensures var answered := e.Answer? && e.questionId == questionId && Step(env, s, e).1.Success();
            Tracked(env, Step(env, s, e).0, questionId, voters + if answered then {e.userId} else {})
  {
    StepQuestions(env, s, e, questionId);
    forall u | u in voters && questionId in s.questions && questionId in Step(env, s, e).0.questions
      ensures HasTracking(env, Step(env, s, e).0, u, questionId)
    {
      KeptTracking(env, s, e, (questionId, HashOf(env.mac, u, questionId)));
    }
  }

  lemma {:induction false} VotersHaveTracking(env: Env, events: seq<Event>, questionId: int)
    requires NoDeleteAnswer(events)
    ensures Tracked(env, Run(env, events), questionId, Voters(env, events, questionId))
  {
    if events != [] {
      var front, e := events[..|events| - 1], events[|events| - 1];
      assert !e.DeleteAnswer?;
      assert NoDeleteAnswer(front) by {
        assert forall i :: 0 <= i < |front| ==> front[i] == events[i];
      }
      RunConsistent(env, front);
      VotersHaveTracking(env, front, questionId);
      VotersStep(env, events, questionId);
      TrackedStep(env, Run(env, front), e, questionId, Voters(env, front, questionId));
    }
  }

  /** The inductive step on an existing question: a first answer of a new voter,
      or nothing that touches the question. */
  lemma EqualStep(env: Env, s: State, e: Event, questionId: int, voters: set<string>)
    requires Consistent(s) && questionId in s.questions
    requires !e.DeleteAnswer? && questionId in Step(env, s, e).0.questions
    requires |AnswersOf(s, questionId)| == |TrackingOf(s, questionId)| == |voters|
    requires forall u :: u in voters ==> HasTracking(env, s, u, questionId)
    ensures var s' := Step(env, s, e).0;
            var answered := e.Answer? && e.questionId == questionId && Step(env, s, e).1.Success();
            |AnswersOf(s', questionId)| == |TrackingOf(s', questionId)| == |voters + if answered then {e.userId} else {}|
  {
    if e.Answer? && e.questionId == questionId && Step(env, s, e).1.Success() {
      AnswerCounts(env, s, e);
      assert e.userId !in voters;
    } else {
      OtherCounts(env, s, e, questionId);
    }
  }

  /** In a run without deleteAnswer, the answer rows of an existing question, its
      tracking rows and the distinct users who answered it are equally many. */
  lemma {:induction false} CountsEqualVoters(env: Env, events: seq<Event>, questionId: int)
    requires NoDeleteAnswer(events) && questionId in Run(env, events).questions
    ensures var s := Run(env, events);
            |AnswersOf(s, questionId)| == |TrackingOf(s, questionId)| == |Voters(env, events, questionId)|
  {
    var front, e := events[..|events| - 1], events[|events| - 1];
    var s0 := Run(env, front);
    assert !e.DeleteAnswer?;
    assert NoDeleteAnswer(front) by {
      assert forall i :: 0 <= i < |front| ==> front[i] == events[i];
    }
    RunConsistent(env, front);
    VotersHaveTracking(env, front, questionId);
    VotersStep(env, events, questionId);
    if questionId in s0.questions {
      CountsEqualVoters(env, front, questionId);
      EqualStep(env, s0, e, questionId, Voters(env, front, questionId));
    } else {
      StepQuestions(env, s0, e, questionId);
      NoRowsWithoutQuestion(s0, questionId);
      OtherCounts(env, s0, e, questionId);
    }
  }
}
