/** The published results and the answer protocol together. */
module StatisticsOverRuns {
  import opened AnswerTables
  import opened AnswerProtocol
  import opened Statistics

  lemma UnfilteredIsAll(s: State, questionId: int)
    requires Consistent(s) && IsApproved(s, questionId)
    ensures Matching(s, questionId, map[]) == AnswersOf(s, questionId)
  {
    forall a | a in AnswersOf(s, questionId) ensures a in Matching(s, questionId, map[]) {
      assert OptionBelongs(s, s.answers[a].answerId, s.answers[a].questionId);
    }
  }

  /** After any run the published total of an approved question is at most the
      number of its tracking rows; if nobody has deleted an answer it is the
      number of distinct users whose answer succeeded. */
  lemma TotalCountsVoters(env: Env, events: seq<Event>, questionId: int, groups: seq<int>)
    requires IsApproved(Run(env, events), questionId) && Groups(Run(env, events), questionId, map[], groups)
    ensures var s := Run(env, events);
            && Total(s, questionId, map[], groups) <= |TrackingOf(s, questionId)|
            && (NoDeleteAnswer(events) ==> Total(s, questionId, map[], groups) == |Voters(env, events, questionId)|)
  {
    var s := Run(env, events);
    RunConsistent(env, events);
    UnfilteredIsAll(s, questionId);
    TotalCountsMatching(s, questionId, map[], groups);
    AnswersAtMostTracking(env, events, questionId);
    if NoDeleteAnswer(events) {
      CountsEqualVoters(env, events, questionId);
    }
  }

  lemma AnswerMatching(env: Env, s: State, e: Event, filter: Tags, option: int)
    requires Consistent(s) && e.Answer? && Step(env, s, e).1.Success()
    ensures var s', q := Step(env, s, e).0, e.questionId;
            var counted := option == e.body.value.answerId && Contains(env.tagsOf(s.users[e.userId], e.year), filter);
            && s.nextAnswer !in ForOption(s, q, filter, option)
            && ForOption(s', q, filter, option)
               == ForOption(s, q, filter, option) + if counted then {s.nextAnswer} else {}
  {
    var s', q := Step(env, s, e).0, e.questionId;
    assert forall a :: a in s.answers ==> a in s'.answers && s'.answers[a] == s.answers[a];
    assert s'.answers.Keys == s.answers.Keys + {s.nextAnswer};
    assert OptionBelongs(s, e.body.value.answerId, q);
  }

  /** A successful answer raises exactly one count, that of the chosen option, and
      only under the filters that the answering user's tags contain: by one. */
  lemma AnswerCountsOnce(env: Env, s: State, e: Event, filter: Tags, option: int)
    requires Consistent(s) && e.Answer? && Step(env, s, e).1.Success()
    ensures var s', q := Step(env, s, e).0, e.questionId;
            var counted := option == e.body.value.answerId && Contains(env.tagsOf(s.users[e.userId], e.year), filter);
            |ForOption(s', q, filter, option)| == |ForOption(s, q, filter, option)| + if counted then 1 else 0
  {
    AnswerMatching(env, s, e, filter, option);
  }

  /** A successful deletion empties the published results of the question,
      whoever had answered it. */
  lemma DeleteEmptiesResults(env: Env, s: State, e: Event, filter: Tags)
    requires Consistent(s) && e.DeleteAnswer? && Step(env, s, e).1.Success()
    ensures Matching(Step(env, s, e).0, e.questionId, filter) == {}
  {
    DeleteCounts(env, s, e);
    assert Matching(Step(env, s, e).0, e.questionId, filter) <= AnswersOf(Step(env, s, e).0, e.questionId);
  }
}
