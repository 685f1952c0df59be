/** The tables behind submitting, reviewing, answering and deleting, and what one
    request does to them. Each request is one atomic step: the status checks that
    the handlers run before opening a transaction belong to the same step. */
module AnswerTables {
  import opened Wrappers
  import opened Catalogue
  import opened UserIdHash

  datatype Profile = Profile(birthYear: Option<int>, gender: Option<string>, nationality: Option<string>, region: Option<string>)

  datatype Question = Question(text: string, categoryId: int, language: string, minAge: int, status: Status,
                               specialFlagged: bool, submittedBy: Option<string>)

  datatype AnswerOption = AnswerOption(questionId: int, text: string)

  type Tags = map<string, string>

  datatype UserAnswer = UserAnswer(questionId: int, answerId: int, tags: Tags)

  datatype Tracking = Tracking(keyVersion: int, consentGivenAt: Option<int>)

  /** Rows by primary key; the three counters are the BIGSERIAL sequences, which
      a rollback does not turn back. */
  datatype State = State(
    users: map<string, Profile>,
    questions: map<int, Question>,
    options: map<int, AnswerOption>,
    answers: map<int, UserAnswer>,
    tracking: map<(int, string), Tracking>,
    nextQuestion: int,
    nextOption: int,
    nextAnswer: int)

  /** The same rows; the sequences may differ. */
  predicate SameTables(s: State, t: State) {
    t == s.(nextQuestion := t.nextQuestion, nextOption := t.nextOption, nextAnswer := t.nextAnswer)
  }

  const EMPTY := State(map[], map[], map[], map[], map[], 1, 1, 1)

  /** Server configuration: the keyed MAC, how a profile and the current year
      become tags (see `ProfileTags`), and the key version stored with a hash. */
  datatype Env = Env(mac: Mac, tagsOf: (Profile, int) -> Tags, keyVersion: int)

  datatype Outcome = Created(id: int) | Done | BadRequest | Unauthorized | NotFound | Conflict | ServerError {
    predicate Success() {
      Created? || Done?
    }
  }

  /** Which statement of a request (counted from 1) the database refuses, if any. */
  type Fault = Option<nat>

  // ----- Answering -----

  datatype AnswerBody = AnswerBody(answerId: int, consent: bool)

  predicate IsApproved(s: State, questionId: int) {
    questionId in s.questions && s.questions[questionId].status.Approved?
  }

  predicate OptionBelongs(s: State, optionId: int, questionId: int) {
    optionId in s.options && s.options[optionId].questionId == questionId
  }

  /** The transaction: the tracking row, then the answer row. */
  function AnswerInserts(s: State, questionId: int, hash: string, answerId: int, tags: Tags, row: Tracking, fault: Fault): (State, Outcome) {
    if fault == Some(4) then (s, ServerError)
    else if (questionId, hash) in s.tracking then (s, Conflict)
    else if fault == Some(5) then (s.(nextAnswer := s.nextAnswer + 1), ServerError)
    else if !OptionBelongs(s, answerId, questionId) then (s, BadRequest)
    else
      (s.(tracking := s.tracking[(questionId, hash) := row],
          answers := s.answers[s.nextAnswer := UserAnswer(questionId, answerId, tags)],
          nextAnswer := s.nextAnswer + 1), Created(s.nextAnswer))
  }

  function AnswerStep(env: Env, s: State, userId: string, questionId: int, body: Option<AnswerBody>,
                      year: int, now: int, fault: Fault): (State, Outcome)
  {
    var key := (questionId, HashOf(env.mac, userId, questionId));
    if userId == "" then (s, Unauthorized)
    else if body.None? then (s, BadRequest)
    else if fault == Some(1) then (s, ServerError)
    else if userId !in s.users then (s, Unauthorized)
    else if fault == Some(2) then (s, ServerError)
    else if !IsApproved(s, questionId) then (s, NotFound)
    else if s.questions[questionId].specialFlagged && !body.value.consent then (s, BadRequest)
    else if fault == Some(3) then (s, ServerError)
    else
      var row := Tracking(env.keyVersion, if s.questions[questionId].specialFlagged then Some(now) else None);
      AnswerInserts(s, questionId, key.1, body.value.answerId, env.tagsOf(s.users[userId], year), row, fault)
  }

  // ----- Deleting an answer -----

  /** The rows the first DELETE removes: every answer of the question whose
      option belongs to it. No user appears in the statement's condition. */
  function AnswersHit(s: State, questionId: int): set<int> {
    set a | a in s.answers && s.answers[a].questionId == questionId && OptionBelongs(s, s.answers[a].answerId, questionId)
  }

  function DeleteAnswerStep(env: Env, s: State, userId: string, questionId: int, fault: Fault): (State, Outcome) {
    var key := (questionId, HashOf(env.mac, userId, questionId));
    if userId == "" then (s, Unauthorized)
    else if fault == Some(1) then (s, ServerError)
    else if !IsApproved(s, questionId) then (s, NotFound)
    else if fault == Some(2) || fault == Some(3) || fault == Some(4) then (s, ServerError)
    else if key !in s.tracking then (s, NotFound)
    else (s.(answers := s.answers - AnswersHit(s, questionId), tracking := s.tracking - {key}), Done)
  }

  // ----- Submitting and reviewing -----

  /** The members of the request body; None is a missing or ill-typed member. */
  datatype Submission = Submission(text: Option<string>, categoryId: Option<int>, language: Option<string>,
                                   hasMinAge: bool, options: Option<seq<Option<string>>>)

  const MAX_ANSWER_OPTIONS := 50

  predicate ValidOption(text: Option<string>) {
    text.Some? && text.value != ""
  }

  predicate ValidSubmission(b: Submission) {
    && b.text.Some? && b.text.value != ""
    && b.categoryId.Some?
    && b.language.Some? && |b.language.value| == 2
    && !b.hasMinAge
    && b.options.Some? && 1 <= |b.options.value| <= MAX_ANSWER_OPTIONS
    && forall i :: 0 <= i < |b.options.value| ==> ValidOption(b.options.value[i])
  }

  /** The option rows of a new question, in request order. */
  function NewOptions(first: int, questionId: int, texts: seq<string>): (rows: map<int, AnswerOption>)
    ensures forall i :: i in rows <==> first <= i < first + |texts|
    ensures forall i :: i in rows ==> rows[i].questionId == questionId
  {
    if texts == [] then map[]
    else
      var n := |texts| - 1;
      NewOptions(first, questionId, texts[..n])[first + n := AnswerOption(questionId, texts[n])]
  }

  function TextOf(option: Option<string>): string {
    if option.Some? then option.value else ""
  }

  function Texts(options: seq<Option<string>>): (texts: seq<string>)
    ensures |texts| == |options|
    ensures forall i :: 0 <= i < |options| ==> texts[i] == TextOf(options[i])
  {
    seq(|options|, i requires 0 <= i < |options| => TextOf(options[i]))
  }

  function SubmitStep(s: State, userId: string, body: Option<Submission>, fault: Fault): (State, Outcome) {
    if body.None? || !ValidSubmission(body.value) then (s, BadRequest)
    else if userId == "" then (s, Unauthorized)
    else if fault == Some(1) then (s, ServerError)
    else if fault == Some(2) || userId !in s.users then (s.(nextQuestion := s.nextQuestion + 1), ServerError)
    else
      var b, q := body.value, s.nextQuestion;
      var texts := Texts(b.options.value);
      var counted := s.(nextQuestion := q + 1, nextOption := s.nextOption + |texts|);
      if fault == Some(3) then (counted, ServerError)
      else
        var question := Question(b.text.value, b.categoryId.value, b.language.value, 0, Pending, false, Some(userId));
        (counted.(questions := s.questions[q := question], options := s.options + NewOptions(s.nextOption, q, texts)),
         Created(q))
  }

  const MAX_MIN_AGE := 120

  function ApproveStep(s: State, questionId: int, minAge: Option<int>, special: bool, fault: Fault): (State, Outcome) {
    var age := if minAge.Some? then minAge.value else 0;
    if !(0 <= age <= MAX_MIN_AGE) then (s, BadRequest)
    else if fault == Some(1) then (s, ServerError)
    else if questionId !in s.questions then (s, NotFound)
    else
      var row := s.questions[questionId].(status := Approved, minAge := age, specialFlagged := special);
      (s.(questions := s.questions[questionId := row]), Done)
  }

  function RejectStep(s: State, questionId: int, fault: Fault): (State, Outcome) {
    if fault == Some(1) then (s, ServerError)
    else if questionId !in s.questions then (s, NotFound)
    else (s.(questions := s.questions[questionId := s.questions[questionId].(status := Rejected)]), Done)
  }

  /** ON DELETE CASCADE: options and tracking rows of the question, and answers
      that name the question or one of the removed options. */
  function DeleteQuestionStep(s: State, questionId: int, fault: Fault): (State, Outcome) {
    if fault == Some(1) then (s, ServerError)
    else if questionId !in s.questions then (s, NotFound)
    else
      var options := set o | o in s.options && s.options[o].questionId == questionId;
      var answers := set a | a in s.answers && (s.answers[a].questionId == questionId || s.answers[a].answerId in options);
      var tracking := set k | k in s.tracking && k.0 == questionId;
      (s.(questions := s.questions - {questionId}, options := s.options - options, answers := s.answers - answers,
          tracking := s.tracking - tracking), Done)
  }

  // ----- Users, as environment -----

  function RemoveUserStep(s: State, userId: string): (State, Outcome) {
    if userId !in s.users then (s, NotFound)
    else
      var questions := map q | q in s.questions ::
        if s.questions[q].submittedBy == Some(userId) then s.questions[q].(submittedBy := None) else s.questions[q];
      (s.(users := s.users - {userId}, questions := questions), Done)
  }

  // ----- Runs -----

  datatype Event =
    | SetProfile(userId: string, profile: Profile)
    | RemoveUser(userId: string)
    | Submit(userId: string, submission: Option<Submission>, fault: Fault)
    | Approve(questionId: int, minAge: Option<int>, special: bool, fault: Fault)
    | Reject(questionId: int, fault: Fault)
    | Answer(userId: string, questionId: int, body: Option<AnswerBody>, year: int, now: int, fault: Fault)
    | DeleteAnswer(userId: string, questionId: int, fault: Fault)
    | DeleteQuestion(questionId: int, fault: Fault)

  function Step(env: Env, s: State, e: Event): (State, Outcome) {
    match e
    case SetProfile(u, p) => (s.(users := s.users[u := p]), Done)
    case RemoveUser(u) => RemoveUserStep(s, u)
    case Submit(u, b, f) => SubmitStep(s, u, b, f)
    case Approve(q, m, sp, f) => ApproveStep(s, q, m, sp, f)
    case Reject(q, f) => RejectStep(s, q, f)
    case Answer(u, q, b, y, n, f) => AnswerStep(env, s, u, q, b, y, n, f)
    case DeleteAnswer(u, q, f) => DeleteAnswerStep(env, s, u, q, f)
    case DeleteQuestion(q, f) => DeleteQuestionStep(s, q, f)
  }

  /** The tables after a run from empty tables. */
  function Run(env: Env, events: seq<Event>): State {
    if events == [] then EMPTY else Step(env, Run(env, events[..|events| - 1]), events[|events| - 1]).0
  }

  function LastOutcome(env: Env, events: seq<Event>): Outcome
    requires events != []
  {
    Step(env, Run(env, events[..|events| - 1]), events[|events| - 1]).1
  }
}
