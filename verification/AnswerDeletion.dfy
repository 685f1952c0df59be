/** Deleting an answer against its documentation. The API documentation says that
    the user's own answer row is removed; the statement removes every answer row
    of the question. These lemmas say when the two agree, over all runs. */
module AnswerDeletion {
  import opened Wrappers
  import Catalogue
  import opened UserIdHash
  import opened AnswerTables
  import opened AnswerProtocol
  import opened FiniteSets

  // ----- The answers since the last deletion -----

  /** The rows and authors of the successful answers to the question since the last
      successful deletion on it, in order. */
  function AnswersSince(env: Env, events: seq<Event>, questionId: int): seq<(int, string)> {
    if events == [] then []
    else
      var front, e := events[..|events| - 1], events[|events| - 1];
      var before := AnswersSince(env, front, questionId);
      if !Touches(e, questionId) || !LastOutcome(env, events).Success() then before
      else if e.Answer? then before + [(Run(env, front).nextAnswer, e.userId)]
      else []
  }

  function RowIds(ledger: seq<(int, string)>): set<int> {
    set i | 0 <= i < |ledger| :: ledger[i].0
  }

  function OwnRowIds(ledger: seq<(int, string)>, userId: string): set<int> {
    set i | 0 <= i < |ledger| && ledger[i].1 == userId :: ledger[i].0
  }

  lemma RowIdsSnoc(ledger: seq<(int, string)>, row: int, userId: string)
    ensures RowIds(ledger + [(row, userId)]) == RowIds(ledger) + {row}
  {
    var all := ledger + [(row, userId)];
    forall i | 0 <= i < |ledger| ensures ledger[i].0 in RowIds(all) {
      assert all[i] == ledger[i];
    }
    assert all[|ledger|] == (row, userId);
  }

  ghost predicate Recorded(s: State, questionId: int, ledger: seq<(int, string)>) {
    AnswersOf(s, questionId) == RowIds(ledger) && |AnswersOf(s, questionId)| == |ledger|
  }

  lemma RecordedStep(env: Env, s: State, e: Event, questionId: int, ledger: seq<(int, string)>)
    requires Consistent(s) && Recorded(s, questionId, ledger)
    ensures Recorded(Step(env, s, e).0, questionId,
                     if !Touches(e, questionId) || !Step(env, s, e).1.Success() then ledger
                     else if e.Answer? then ledger + [(s.nextAnswer, e.userId)] else [])
  {
    if !Touches(e, questionId) || !Step(env, s, e).1.Success() {
      OtherCounts(env, s, e, questionId);
    } else if e.Answer? {
      AnswerCounts(env, s, e);
      RowIdsSnoc(ledger, s.nextAnswer, e.userId);
    } else if e.DeleteAnswer? {
      DeleteCounts(env, s, e);
    } else {
      DeleteQuestionCounts(env, s, e);
    }
  }

  /** In every run the answer rows of a question are exactly those of the successful
      answers since the last successful deletion on it, whoever deleted. */
  lemma {:induction false} AnswersAreSince(env: Env, events: seq<Event>, questionId: int)
    ensures Recorded(Run(env, events), questionId, AnswersSince(env, events, questionId))
  {
    if events != [] {
      var front, e := events[..|events| - 1], events[|events| - 1];
      AnswersAreSince(env, front, questionId);
      RunConsistent(env, front);
      RecordedStep(env, Run(env, front), e, questionId, AnswersSince(env, front, questionId));
    }
  }

  // ----- What a deletion removes -----

  /** What the documentation promises for the answer rows: the user's own one goes. */
  ghost predicate RemovesOwnAnswer(before: State, after: State, questionId: int, own: set<int>) {
    |own| == 1 && AnswersOf(after, questionId) == AnswersOf(before, questionId) - own
  }

  lemma SingleAuthor(ledger: seq<(int, string)>, userId: string)
    requires |RowIds(ledger)| == |ledger|
    ensures |OwnRowIds(ledger, userId)| == 1 && RowIds(ledger) <= OwnRowIds(ledger, userId)
            <==> |ledger| == 1 && ledger[0].1 == userId
  {
    var own, all := OwnRowIds(ledger, userId), RowIds(ledger);
    assert own <= all;
    if |ledger| == 1 {
      assert all == {ledger[0].0};
      if ledger[0].1 == userId {
        assert own == {ledger[0].0};
      } else {
        assert own == {};
      }
    } else if all <= own {
      assert own == all;
    }
  }

  /** At the end of any run, a successful deletion removes exactly the rows answered
      since the last one: one row if and only if one answer succeeded since. And it
      does what the documentation promises if and only if that answer was the
      deleting user's own. */
  lemma DeleteRemovesOwnIff(env: Env, events: seq<Event>)
    requires events != [] && events[|events| - 1].DeleteAnswer? && LastOutcome(env, events).Success()
    ensures var front, e := events[..|events| - 1], events[|events| - 1];
            var s, s', q := Run(env, front), Run(env, events), e.questionId;
            var since := AnswersSince(env, front, q);
            && AnswersOf(s, q) == RowIds(since) && AnswersOf(s', q) == {}
            && (|AnswersOf(s, q)| - |AnswersOf(s', q)| == 1 <==> |since| == 1)
            && (RemovesOwnAnswer(s, s', q, OwnRowIds(since, e.userId)) <==> |since| == 1 && since[0].1 == e.userId)
  {
    var front, e := events[..|events| - 1], events[|events| - 1];
    var since := AnswersSince(env, front, e.questionId);
    RunConsistent(env, front);
    AnswersAreSince(env, front, e.questionId);
    DeleteCounts(env, Run(env, front), e);
    SingleAuthor(since, e.userId);
    NothingLeft(RowIds(since), OwnRowIds(since, e.userId));
  }

  /** After any successful deletion the question has as many answer rows as tracking
      rows if and only if nobody else's tracking row was stored. */
  lemma DeleteKeepsCountsEqualIff(env: Env, s: State, e: Event)
    requires Consistent(s) && e.DeleteAnswer? && Step(env, s, e).1.Success()
    ensures var s' := Step(env, s, e).0;
            |AnswersOf(s', e.questionId)| == |TrackingOf(s', e.questionId)|
            <==> TrackingOf(s, e.questionId) == {(e.questionId, HashOf(env.mac, e.userId, e.questionId))}
  {
    var q := e.questionId;
    var key := (q, HashOf(env.mac, e.userId, q));
    DeleteCounts(env, s, e);
    if |TrackingOf(s, q)| == 1 {
      assert TrackingOf(s, q) - {key} == {} by {
        assert |TrackingOf(s, q) - {key}| == 0;
      }
      assert TrackingOf(s, q) == {key};
    }
  }

  /** The other users' tracking rows survive such a deletion while their answer
      rows do not: each of them is refused with 409 from then on. */
  lemma OthersLockedOut(env: Env, s: State, e: Event, other: string, body: AnswerBody, year: int, now: int,
                        messages: iset<string>)
    requires Consistent(s) && e.DeleteAnswer? && Step(env, s, e).1.Success()
    requires CollisionFree(env.mac, messages) && other != e.userId
    requires Message(e.userId, e.questionId) in messages && Message(other, e.questionId) in messages
    requires other != "" && other in s.users && HasTracking(env, s, other, e.questionId)
    requires s.questions[e.questionId].specialFlagged ==> body.consent
    ensures var s' := Step(env, s, e).0;
            && AnswersOf(s', e.questionId) == {}
            && AnswerStep(env, s', other, e.questionId, Some(body), year, now, None).1 == Conflict
  {
    DeleteCounts(env, s, e);
    StepTracking(env, s, e, other, e.questionId, messages);
  }

  // ----- A run in which the promise fails -----

  function ExampleEnv(): Env {
    Env((m: string) => seq(|m|, _ => 0), (_, _) => map[], 1)
  }

  const NOBODY := Profile(None, None, None, None)

  function OneQuestion(): Submission {
    Submission(Some("?"), Some(1), Some("en"), false, Some([Some("yes")]))
  }

  /** Two users register, one submits a question, it is approved, both answer it. */
  function TwoAnswers(): seq<Event> {
    [SetProfile("u", NOBODY), SetProfile("uu", NOBODY), Submit("u", Some(OneQuestion()), None), Approve(1, None, false, None),
     Answer("u", 1, Some(AnswerBody(1, false)), 2000, 0, None), Answer("uu", 1, Some(AnswerBody(1, false)), 2000, 0, None)]
  }

  function OpenQuestion(): State {
    State(map["u" := NOBODY, "uu" := NOBODY], map[1 := Question("?", 1, "en", 0, Catalogue.Approved, false, Some("u"))],
          map[1 := AnswerOption(1, "yes")], map[], map[], 2, 2, 1)
  }

  function Key(userId: string): (int, string) {
    (1, HashOf(ExampleEnv().mac, userId, 1))
  }

  function Answered(): State {
    OpenQuestion().(
      answers := map[1 := UserAnswer(1, 1, map[]), 2 := UserAnswer(1, 1, map[])],
      tracking := map[Key("u") := Tracking(1, None), Key("uu") := Tracking(1, None)], nextAnswer := 3)
  }

  lemma RunPrefix(env: Env, events: seq<Event>, k: nat)
    requires k < |events|
    ensures Run(env, events[..k + 1]) == Step(env, Run(env, events[..k]), events[k]).0
  {
    assert events[..k + 1][..k] == events[..k];
  }

  lemma DifferentKeys()
    ensures Key("u") != Key("uu")
  {
    assert |Message("u", 1)| < |Message("uu", 1)|;
    assert |HashOf(ExampleEnv().mac, "u", 1)| < |HashOf(ExampleEnv().mac, "uu", 1)|;
  }

  function Registered(): State {
    EMPTY.(users := map["u" := NOBODY, "uu" := NOBODY])
  }

  lemma UsersRegistered()
    ensures Run(ExampleEnv(), TwoAnswers()[..2]) == Registered()
  {
    var env, events := ExampleEnv(), TwoAnswers();
    assert Run(env, events[..0]) == EMPTY;
    RunPrefix(env, events, 0);
    RunPrefix(env, events, 1);
  }

  lemma Opened()
    ensures Run(ExampleEnv(), TwoAnswers()[..4]) == OpenQuestion()
  {
    UsersRegistered();
    RunPrefix(ExampleEnv(), TwoAnswers(), 2);
    RunPrefix(ExampleEnv(), TwoAnswers(), 3);
    SubmitOne(Registered());
  }

  lemma SubmitOne(s: State)
    requires s == Registered()
    ensures SubmitStep(s, "u", Some(OneQuestion()), None).0
            == OpenQuestion().(questions := map[1 := Question("?", 1, "en", 0, Catalogue.Pending, false, Some("u"))])
  {
    assert ValidSubmission(OneQuestion());
    assert Texts(OneQuestion().options.value) == ["yes"];
    assert NewOptions(1, 1, ["yes"]) == map[1 := AnswerOption(1, "yes")];
  }

  function WithAnswer(state: State, userId: string): State {
    state.(answers := state.answers[state.nextAnswer := UserAnswer(1, 1, map[])],
           tracking := state.tracking[Key(userId) := Tracking(1, None)], nextAnswer := state.nextAnswer + 1)
  }

  lemma OneAnswer(events: seq<Event>, userId: string)
    requires var s := Run(ExampleEnv(), events);
             && userId != "" && userId in s.users && IsApproved(s, 1) && !s.questions[1].specialFlagged
             && OptionBelongs(s, 1, 1) && Key(userId) !in s.tracking
    ensures Run(ExampleEnv(), events + [Answer(userId, 1, Some(AnswerBody(1, false)), 2000, 0, None)])
            == WithAnswer(Run(ExampleEnv(), events), userId)
  {
    AnswerSnoc(ExampleEnv(), events, userId, 1, AnswerBody(1, false), 2000, 0);
    AnswerRows(Run(ExampleEnv(), events), userId);
  }

  lemma AnswerSnoc(env: Env, events: seq<Event>, userId: string, questionId: int, body: AnswerBody, year: int, now: int)
    ensures Run(env, events + [Answer(userId, questionId, Some(body), year, now, None)])
            == AnswerStep(env, Run(env, events), userId, questionId, Some(body), year, now, None).0
  {
    var e := Answer(userId, questionId, Some(body), year, now, None);
    assert (events + [e])[..|events|] == events;
  }

  lemma AnswerRows(s: State, userId: string)
    requires userId != "" && userId in s.users && IsApproved(s, 1) && !s.questions[1].specialFlagged
    requires OptionBelongs(s, 1, 1) && Key(userId) !in s.tracking
    ensures AnswerStep(ExampleEnv(), s, userId, 1, Some(AnswerBody(1, false)), 2000, 0, None).0 == WithAnswer(s, userId)
  {
  }

  lemma BothAnswered()
    ensures Run(ExampleEnv(), TwoAnswers()) == Answered()
  {
    var events := TwoAnswers();
    Opened();
    DifferentKeys();
    OneAnswer(events[..4], "u");
    OneAnswer(events[..4] + [events[4]], "uu");
    assert events == events[..4] + [events[4]] + [events[5]];
  }

  /** One of the two deletes: both answer rows are gone, and the other user is still
      tracked as having answered. */
  lemma DeleteRemovesBothAnswers()
    ensures var env := ExampleEnv();
            var s, s' := Run(env, TwoAnswers()), Run(env, TwoAnswers() + [DeleteAnswer("u", 1, None)]);
            && |AnswersOf(s, 1)| == |TrackingOf(s, 1)| == 2
            && AnswersOf(s', 1) == {} && TrackingOf(s', 1) == {Key("uu")}
  {
    var env, e := ExampleEnv(), DeleteAnswer("u", 1, None);
    BothAnswered();
    DifferentKeys();
    RunConsistent(env, TwoAnswers());
    assert (TwoAnswers() + [e])[..6] == TwoAnswers();
    assert AnswersOf(Answered(), 1) == {1, 2};
    assert TrackingOf(Answered(), 1) == {Key("u"), Key("uu")};
    DeleteSucceeds();
    DeleteCounts(env, Answered(), e);
    assert {Key("u"), Key("uu")} - {Key("u")} == {Key("uu")};
  }

  lemma DeleteSucceeds()
    ensures Step(ExampleEnv(), Answered(), DeleteAnswer("u", 1, None)).1 == Done
  {
  }
}
