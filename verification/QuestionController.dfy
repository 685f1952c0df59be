/** The handlers as they run: statement by statement on the tables, with
    transactions rolled back by restoring the rows they started from. */
module QuestionController {
  import opened Wrappers
  import opened Decimal
  import opened ArrayLiteral
  import opened Paging
  import opened Catalogue
  import opened SearchQuery
  import opened QueryEvaluation
  import opened SearchText
  import opened UnansweredSearch
  import opened UserIdHash
  import opened BirthYearBucketer
  import opened ProfileTags
  import opened AnswerTables
  import opened AnswerProtocol
  import opened AnsweredLookup

  class QuestionController {
    const hasher: UserIdHasher
    const bucketSize: int
    const keyVersion: int
    const ilike: ILikeMatch

    var users: map<string, Profile>
    var questions: map<int, Question>
    var options: map<int, AnswerOption>
    var answers: map<int, UserAnswer>
    var tracking: map<(int, string), Tracking>
    var nextQuestion: int
    var nextOption: int
    var nextAnswer: int

    function Environment(): Env {
      var size := bucketSize;
      Env(hasher.mac, (profile, year) => TagsOf(profile, size, year), keyVersion)
    }

    function Tables(): State
      reads this
    {
      State(users, questions, options, answers, tracking, nextQuestion, nextOption, nextAnswer)
    }

    constructor (hasher: UserIdHasher, bucketSize: int, keyVersion: int, ilike: ILikeMatch)
      ensures this.hasher == hasher && this.bucketSize == bucketSize && this.keyVersion == keyVersion
      ensures Tables() == EMPTY
    {
      this.hasher, this.bucketSize, this.keyVersion, this.ilike := hasher, bucketSize, keyVersion, ilike;
      users, questions, options, answers, tracking := map[], map[], map[], map[], map[];
      nextQuestion, nextOption, nextAnswer := 1, 1, 1;
    }

    /** The rows go back to what the transaction started from; sequences do not. */
    method Rollback(start: State)
      modifies this
      ensures Tables() == start.(nextQuestion := old(nextQuestion), nextOption := old(nextOption), nextAnswer := old(nextAnswer))
    {
      users, questions, options, answers, tracking :=
        start.users, start.questions, start.options, start.answers, start.tracking;
    }

    method BuildTags(profile: Profile, year: int) returns (tags: Tags)
      ensures tags == TagsOf(profile, bucketSize, year)
    {
      tags := map[];
      if profile.gender.Some? {
        tags := tags["gender" := profile.gender.value];
      }
      if profile.nationality.Some? {
        tags := tags["nationality" := profile.nationality.value];
      }
      if profile.region.Some? {
        tags := tags["region" := profile.region.value];
      }
      if profile.birthYear.Some? {
        var bucket := BucketBirthYear(profile.birthYear.value, bucketSize, year);
        if bucket != "" {
          tags := tags["age_bucket" := bucket];
        }
      }
    }

    method AnswerQuestion(userId: string, questionId: int, body: Option<AnswerBody>, year: int, now: int, fault: Fault)
      returns (outcome: Outcome)
      modifies this
      ensures (Tables(), outcome) == AnswerStep(Environment(), old(Tables()), userId, questionId, body, year, now, fault)
    {
      if userId == "" { return Unauthorized; }
      if body.None? { return BadRequest; }
      var hash := hasher.Hash(userId, questionId);
      if fault == Some(1) { return ServerError; }
      if userId !in users { return Unauthorized; }
      var tags := BuildTags(users[userId], year);
      if fault == Some(2) { return ServerError; }
      if questionId !in questions || questions[questionId].status != Approved { return NotFound; }
      var flagged := questions[questionId].specialFlagged;
      if flagged && !body.value.consent { return BadRequest; }
      if fault == Some(3) { return ServerError; }
      outcome := AnswerTransaction(questionId, hash, body.value.answerId, tags, if flagged then Some(now) else None, fault);
    }

    /** Both inserts, atomically: the tracking row first, then the answer. */
    method AnswerTransaction(questionId: int, hash: string, answerId: int, tags: Tags, consentGivenAt: Option<int>, fault: Fault)
      returns (outcome: Outcome)
      modifies this
      ensures (Tables(), outcome)
              == AnswerInserts(old(Tables()), questionId, hash, answerId, tags, Tracking(keyVersion, consentGivenAt), fault)
    {
      var start := Tables();
      if fault == Some(4) {
        Rollback(start);
        return ServerError;
      }
      // ON CONFLICT DO NOTHING: an existing key affects no row.
      var key := (questionId, hash);
      if key in tracking {
        Rollback(start);
        return Conflict;
      }
      tracking := tracking[key := Tracking(keyVersion, consentGivenAt)];
      if fault == Some(5) {
        nextAnswer := nextAnswer + 1;
        Rollback(start);
        return ServerError;
      }
      if answerId !in options || options[answerId].questionId != questionId {
        Rollback(start);
        return BadRequest;
      }
      outcome := Created(nextAnswer);
      answers := answers[nextAnswer := UserAnswer(questionId, answerId, tags)];
      nextAnswer := nextAnswer + 1;
    }

    method DeleteAnswer(userId: string, questionId: int, fault: Fault) returns (outcome: Outcome)
      modifies this
      ensures (Tables(), outcome) == DeleteAnswerStep(Environment(), old(Tables()), userId, questionId, fault)
    {
      if userId == "" { return Unauthorized; }
      var hash := hasher.Hash(userId, questionId);
      if fault == Some(1) { return ServerError; }
      if questionId !in questions || questions[questionId].status != Approved { return NotFound; }
      if fault == Some(2) { return ServerError; }
      var start := Tables();
      if fault == Some(3) {
        Rollback(start);
        return ServerError;
      }
      var hit := set a | a in answers && answers[a].questionId == questionId && answers[a].answerId in options
                         && options[answers[a].answerId].questionId == questionId;
      assert hit == AnswersHit(start, questionId) by {
        assert forall a :: a in hit <==> a in AnswersHit(start, questionId);
      }
      answers := answers - hit;
      if fault == Some(4) {
        Rollback(start);
        return ServerError;
      }
      var key := (questionId, hash);
      if key !in tracking {
        Rollback(start);
        return NotFound;
      }
      tracking := tracking - {key};
      return Done;
    }

    /** The texts of the answer options, or None for an ill-typed or empty one. */
    method OptionTexts(given: seq<Option<string>>) returns (texts: Option<seq<string>>)
      ensures texts.Some? <==> forall i :: 0 <= i < |given| ==> ValidOption(given[i])
      ensures texts.Some? ==> texts.value == Texts(given)
    {
      var out: seq<string> := [];
      for i := 0 to |given|
        invariant |out| == i
        invariant forall j :: 0 <= j < i ==> ValidOption(given[j]) && out[j] == TextOf(given[j])
      {
        if given[i].None? || given[i].value == "" {
          assert !ValidOption(given[i]);
          return None;
        }
        out := out + [given[i].value];
      }
      assert out == Texts(given);
      return Some(out);
    }

    method SubmitQuestion(userId: string, body: Option<Submission>, fault: Fault) returns (outcome: Outcome)
      modifies this
      ensures (Tables(), outcome) == SubmitStep(old(Tables()), userId, body, fault)
    {
      if body.None? { return BadRequest; }
      var b := body.value;
      if b.text.None? || b.text.value == "" { return BadRequest; }
      if b.categoryId.None? { return BadRequest; }
      if b.language.None? || |b.language.value| != 2 { return BadRequest; }
      if b.hasMinAge { return BadRequest; }
      if b.options.None? || b.options.value == [] { return BadRequest; }
      if |b.options.value| > MAX_ANSWER_OPTIONS { return BadRequest; }
      var texts := OptionTexts(b.options.value);
      if texts.None? { return BadRequest; }
      assert ValidSubmission(b);
      if userId == "" { return Unauthorized; }
      if fault == Some(1) { return ServerError; }
      var start := Tables();
      var questionId := nextQuestion;
      nextQuestion := nextQuestion + 1;
      if fault == Some(2) || userId !in users {
        Rollback(start);
        return ServerError;
      }
      questions := questions[questionId :=
        Question(b.text.value, b.categoryId.value, b.language.value, 0, Pending, false, Some(userId))];
      var firstOption := nextOption;
      nextOption := nextOption + |texts.value|;
      if fault == Some(3) {
        Rollback(start);
        return ServerError;
      }
      options := options + NewOptions(firstOption, questionId, texts.value);
      return Created(questionId);
    }

    // ----- Searching -----

    /** The second query of the authenticated search: two array literals are
        written in one loop, bound, and read back by the server. */
    method FetchAnsweredIds(ids: seq<int>, userId: string) returns (answered: set<int>)
      ensures answered == TwoArrayLookup(Tables(), ids, HashesOf(hasher.mac, userId, ids))
    {
      if ids == [] {
        NoIdsNoAnswers(Tables(), HashesOf(hasher.mac, userId, ids));
        return {};
      }
      var idArray, hashArray := WriteArrays(ids, userId);
      ArraysRoundTrip(hasher.mac, userId, ids);
      var boundIds, boundHashes := ParseInts(idArray).value, ParseTexts(hashArray).value;
      answered := TwoArrayLookup(Tables(), boundIds, boundHashes);
    }

    method WriteArrays(ids: seq<int>, userId: string) returns (idArray: string, hashArray: string)
      ensures idArray == Literal(PrintAll(ids))
      ensures hashArray == Literal(QuoteAll(HashesOf(hasher.mac, userId, ids)))
    {
      ghost var idParts, hashParts := PrintAll(ids), QuoteAll(HashesOf(hasher.mac, userId, ids));
      idArray, hashArray := "{", "{";
      for i := 0 to |ids|
        invariant idArray == "{" + Join(idParts[..i])
        invariant hashArray == "{" + Join(hashParts[..i])
      {
        LiteralStep(idArray, idParts, i);
        LiteralStep(hashArray, hashParts, i);
        if i > 0 {
          idArray := idArray + ",";
          hashArray := hashArray + ",";
        }
        idArray := idArray + Print(ids[i]);
        var hash := hasher.Hash(userId, ids[i]);
        hashArray := hashArray + Quote(hash);
      }
      idArray := idArray + "}";
      hashArray := hashArray + "}";
      assert idParts[..|ids|] == idParts && hashParts[..|ids|] == hashParts;
    }

    /** Builds the text and its parameter list; the server reads the text. For a
        body that encodes criteria the result is the page of the rows that meet them. */
    method RunSearch(json: map<string, Json>, offset: int, limit: int, catalogue: seq<Row>)
      returns (result: Option<seq<Row>>)
      ensures var rows := Searched(json, catalogue, ilike);
              result == if rows.None? then None else Some(Slice(rows.value, NonNegative(offset), NonNegative(limit)))
      ensures forall c :: Encodes(json, c) ==>
                result == if Int32Criteria(c)
                          then Some(Slice(Matching(catalogue, c, ilike), NonNegative(offset), NonNegative(limit)))
                          else None
    {
      var builder := new QueryBuilder();
      var ok := builder.Build(json, offset, limit);
      EvaluateBuilt(json, offset, limit, catalogue, ilike);
      forall c | Encodes(json, c) {
        BuiltQueryMeaning(json, c, offset, limit, catalogue, ilike);
      }
      if !ok {
        return None;
      }
      BuiltIsReadable(json, offset, limit);
      result := RunText(builder.sql, builder.params, catalogue, ilike);
    }

    /** One page of the authenticated search without `unanswered_only`. */
    method SearchPage(json: map<string, Json>, userId: string, offset: int, limit: int, catalogue: seq<Row>,
                      ghost messages: iset<string>)
      returns (reply: Reply)
      requires DistinctIds(catalogue)
      requires Genuine(Environment(), Tables(), messages) && CollisionFree(hasher.mac, messages)
      requires AsksWithin(userId, Ids(catalogue), messages)
      ensures var rows := Searched(json, catalogue, ilike);
              reply == if rows.None? then Failed
                       else PageOf(Slice(rows.value, NonNegative(offset), NonNegative(limit)),
                                   AnsweredBy(Environment(), Tables(), userId), 0, 0)
    {
      var result := RunSearch(json, offset, limit, catalogue);
      if result.None? {
        return Failed;
      }
      var rows := result.value;
      SearchedFacts(json, catalogue, ilike);
      SliceFacts(Searched(json, catalogue, ilike).value, catalogue, NonNegative(offset), NonNegative(limit));
      var answered := FetchAnsweredIds(Ids(rows), userId);
      LookupFacts(Environment(), Tables(), userId, rows, catalogue, answered, messages);
      reply := RespondWithSearchResults(rows, answered, 0, 0, false);
      SamePage(rows, answered, AnsweredBy(Environment(), Tables(), userId), 0, 0);
    }

    /** The self-calling fetch: query a window, look up the answered questions,
        and either widen or respond. `sizes` records the windows fetched. */
    method Fetch(json: map<string, Json>, userId: string, offset: nat, limit: nat, required: int, window: nat,
                 catalogue: seq<Row>, ghost messages: iset<string>)
      returns (reply: Reply, ghost sizes: seq<nat>)
      requires 0 < window && required == Required(offset, limit)
      requires DistinctIds(catalogue)
      requires Genuine(Environment(), Tables(), messages) && CollisionFree(hasher.mac, messages)
      requires AsksWithin(userId, Ids(catalogue), messages)
      ensures var rows := Searched(json, catalogue, ilike);
              var answered := AnsweredBy(Environment(), Tables(), userId);
              if rows.None? then reply == Failed
              else && sizes == Windows(rows.value, answered, required, window)
                   && reply == ReplyFrom(rows.value, answered, offset, limit, window)
      decreases MAX_WINDOW - window
    {
      sizes := [window];
      var result := RunSearch(json, 0, window, catalogue);
      if result.None? {
        return Failed, sizes;
      }
      var rows := result.value;
      var answered := FetchAnsweredIds(Ids(rows), userId);
      WindowFacts(Environment(), Tables(), userId, json, catalogue, ilike, window, rows, answered, offset, limit, messages);
      ReplyFromStep(Searched(json, catalogue, ilike).value, AnsweredBy(Environment(), Tables(), userId), offset, limit, window);
      var unansweredCount := |rows| - |answered|;
      var exhausted := |rows| < window;
      if unansweredCount < required && !exhausted && window < MAX_WINDOW {
        ghost var rest;
        reply, rest := Fetch(json, userId, offset, limit, required, Min(window * 2, MAX_WINDOW), catalogue, messages);
        sizes := [window] + rest;
        return;
      }
      reply := RespondWithSearchResults(rows, answered, offset, limit, true);
    }

    /** The search with `unanswered_only`. */
    method ExecuteUnansweredSearch(json: map<string, Json>, userId: string, offset: nat, limit: nat,
                                   catalogue: seq<Row>, ghost messages: iset<string>)
      returns (reply: Reply)
      requires DistinctIds(catalogue)
      requires Genuine(Environment(), Tables(), messages) && CollisionFree(hasher.mac, messages)
      requires AsksWithin(userId, Ids(catalogue), messages)
      ensures var rows := Searched(json, catalogue, ilike);
              reply == if rows.None? then Failed
                       else SearchReply(rows.value, AnsweredBy(Environment(), Tables(), userId), offset, limit)
    {
      var required := if limit > 0 then ToInt(offset + limit) else MAX_WINDOW;
      ghost var sizes;
      var first := if required < MIN_WINDOW then MIN_WINDOW else if MAX_WINDOW < required then MAX_WINDOW else required;
      reply, sizes := Fetch(json, userId, offset, limit, required, first, catalogue, messages);
    }

    /** The authenticated search; no reply stands for 401. */
    method SearchWithAuth(json: map<string, Json>, userId: string, catalogue: seq<Row>, ghost messages: iset<string>)
      returns (reply: Option<Reply>)
      requires DistinctIds(catalogue)
      requires Genuine(Environment(), Tables(), messages) && CollisionFree(hasher.mac, messages)
      requires AsksWithin(userId, Ids(catalogue), messages)
      ensures reply == ReplyTo(Environment(), Tables(), json, userId, catalogue, ilike)
    {
      if userId == "" { return None; }
      var offset, limit := ParsePaging(json);
      var page;
      if UnansweredOnly(json) {
        page := ExecuteUnansweredSearch(json, userId, offset, limit, catalogue, messages);
      } else {
        page := SearchPage(json, userId, offset, limit, catalogue, messages);
      }
      return Some(page);
    }

    /** The defaults stay when a member is absent or its conversion throws. */
    method ParsePaging(json: map<string, Json>) returns (offset: nat, limit: nat)
      ensures offset == OffsetOf(json) && limit == LimitOf(json)
      ensures "offset" in json ==> forall n :: json["offset"] == JInt(n) ==>
                offset == if 0 <= n < 0x8000_0000 then n else 0
      ensures "limit" in json ==> forall n :: json["limit"] == JInt(n) ==>
                limit == if 0 <= n <= 1000 then n else if 1000 < n < 0x8000_0000 then 1000 else 50
      ensures "offset" !in json || json["offset"].JString? || json["offset"].JArray? || json["offset"].JNull? ==> offset == 0
      ensures "limit" !in json || json["limit"].JString? || json["limit"].JArray? ==> limit == 50
      ensures "limit" in json && json["limit"].JNull? ==> limit == 0
    {
      var skip, count := 0, 50;
      if "offset" in json && AsInt(json["offset"]).Some? {
        skip := AsInt(json["offset"]).value;
        if skip < 0 { skip := 0; }
      }
      if "limit" in json && AsInt(json["limit"]).Some? {
        count := AsInt(json["limit"]).value;
        if count < 0 { count := 50; }
        if count > 1000 { count := 1000; }
      }
      return skip, count;
    }
  }

  // ----- Request parameters -----

  /** `asInt` of jsoncpp: null is 0, a Boolean 0 or 1; a string, an array and a
      number outside the range of int make it throw. */
  function AsInt(value: Json): Option<int> {
    match value
    case JNull => Some(0)
    case JBool(b) => Some(if b then 1 else 0)
    case JInt(n) => if IsInt32(n) then Some(n) else None
    case _ => None
  }

  function Member(json: map<string, Json>, key: string): Option<int> {
    if key in json then AsInt(json[key]) else None
  }

  /** A negative offset is 0, as is one that is missing or no integer. */
  function OffsetOf(json: map<string, Json>): (offset: nat)
    ensures IsInt32(offset)
  {
    var requested := Member(json, "offset");
    if requested.None? || requested.value < 0 then 0 else requested.value
  }

  /** At most 1000, and 50 for one that is negative, missing or no integer; 0 and
      null mean no bound. */
  function LimitOf(json: map<string, Json>): (limit: nat)
    ensures limit <= 1000
    ensures limit == 0 <==> Member(json, "limit") == Some(0)
  {
    var requested := Member(json, "limit");
    if requested.None? || requested.value < 0 then 50 else if requested.value > 1000 then 1000 else requested.value
  }

  predicate UnansweredOnly(json: map<string, Json>) {
    "unanswered_only" in json && json["unanswered_only"] == JBool(true)
  }

  /** The answer to an authenticated search; None stands for 401. */
  function ReplyTo(env: Env, s: State, json: map<string, Json>, userId: string, catalogue: seq<Row>, ilike: ILikeMatch): Option<Reply> {
    if userId == "" then None
    else
      var rows, answered := Searched(json, catalogue, ilike), AnsweredBy(env, s, userId);
      if rows.None? then Some(Failed)
      else if UnansweredOnly(json) then Some(SearchReply(rows.value, answered, OffsetOf(json), LimitOf(json)))
      else Some(PageOf(Slice(rows.value, OffsetOf(json), LimitOf(json)), answered, 0, 0))
  }

  /** The rows a request selects, before paging; None when the request fails. */
  function Searched(json: map<string, Json>, catalogue: seq<Row>, ilike: ILikeMatch): Option<seq<Row>> {
    var q := WithFilters(json, FILTERS);
    if q.None? || !AllCast(q.value) then None else Some(Select(catalogue, q.value, ilike))
  }

  /** Every question whose tracking row for this user is stored. */
  function AnsweredBy(env: Env, s: State, userId: string): set<int> {
    set k | k in s.tracking && k.1 == HashOf(env.mac, userId, k.0) :: k.0
  }

  lemma AnsweredByIff(env: Env, s: State, userId: string, q: int)
    ensures q in AnsweredBy(env, s, userId) <==> HasTracking(env, s, userId, q)
  {
    if HasTracking(env, s, userId, q) {
      var key := (q, HashOf(env.mac, userId, q));
      assert key in s.tracking && key.1 == HashOf(env.mac, userId, key.0);
    }
  }

  lemma EvaluateBuilt(json: map<string, Json>, offset: int, limit: int, catalogue: seq<Row>, ilike: ILikeMatch)
    ensures Built(json, offset, limit).Some? ==>
              Evaluate(Built(json, offset, limit).value, catalogue, ilike)
              == (var rows := Searched(json, catalogue, ilike);
                  if rows.None? then None else Some(Slice(rows.value, NonNegative(offset), NonNegative(limit))))
    ensures Built(json, offset, limit).None? ==> Searched(json, catalogue, ilike).None?
  {
    var q := WithFilters(json, FILTERS);
    if q.Some? {
      FiltersMeaning(json, FILTERS, ilike, Row(0, "", "", 0, "", 0, Approved, None));
      WindowedEvaluation(q.value, offset, limit, catalogue, ilike);
    }
  }

  /** Rows of the catalogue, each at most once. */
  ghost predicate SubRows(rows: seq<Row>, catalogue: seq<Row>) {
    && (forall i :: 0 <= i < |rows| ==> rows[i] in catalogue)
    && DistinctIds(rows)
  }

  lemma {:induction false} SelectSubRows(catalogue: seq<Row>, q: Query, ilike: ILikeMatch)
    requires DistinctIds(catalogue)
    ensures SubRows(Select(catalogue, q, ilike), catalogue)
  {
    if catalogue != [] {
      var n := |catalogue| - 1;
      SelectSubRows(catalogue[..n], q, ilike);
      var front := Select(catalogue[..n], q, ilike);
      forall i | 0 <= i < |front| ensures front[i] in catalogue && front[i].id != catalogue[n].id {
        assert front[i] in catalogue[..n];
        var j :| 0 <= j < n && catalogue[..n][j] == front[i];
        assert catalogue[j] == front[i];
      }
    }
  }

  lemma SearchedFacts(json: map<string, Json>, catalogue: seq<Row>, ilike: ILikeMatch)
    requires DistinctIds(catalogue)
    ensures Searched(json, catalogue, ilike).Some? ==> SubRows(Searched(json, catalogue, ilike).value, catalogue)
  {
    var q := WithFilters(json, FILTERS);
    if q.Some? {
      SelectSubRows(catalogue, q.value, ilike);
    }
  }

  lemma SliceFacts(rows: seq<Row>, catalogue: seq<Row>, offset: nat, limit: nat)
    requires SubRows(rows, catalogue)
    ensures SubRows(Slice(rows, offset, limit), catalogue)
  {
  }

  lemma WithinRows(userId: string, rows: seq<Row>, catalogue: seq<Row>, messages: iset<string>)
    requires SubRows(rows, catalogue) && AsksWithin(userId, Ids(catalogue), messages)
    ensures AsksWithin(userId, Ids(rows), messages)
  {
    forall i | 0 <= i < |rows| ensures Message(userId, Ids(rows)[i]) in messages {
      var j :| 0 <= j < |catalogue| && catalogue[j] == rows[i];
      assert Ids(catalogue)[j] == rows[i].id;
    }
  }

  lemma HashesPlain(mac: Mac, userId: string, ids: seq<int>)
    ensures forall i :: 0 <= i < |ids| ==> ',' !in HashesOf(mac, userId, ids)[i]
  {
    forall i | 0 <= i < |ids| ensures ',' !in HashesOf(mac, userId, ids)[i] {
      var hash := HashOf(mac, userId, ids[i]);
      assert forall j :: 0 <= j < |hash| ==> IsHexDigit(hash[j]);
    }
  }

  lemma AnsweredAgree(env: Env, s: State, userId: string, rows: seq<Row>, answered: set<int>)
    requires answered == PairLookup(env, s, userId, Ids(rows))
    ensures forall i :: 0 <= i < |rows| ==> (rows[i].id in answered <==> rows[i].id in AnsweredBy(env, s, userId))
    ensures forall q :: q in answered ==> q in Ids(rows)
  {
    forall i | 0 <= i < |rows| ensures rows[i].id in answered <==> rows[i].id in AnsweredBy(env, s, userId) {
      assert Ids(rows)[i] == rows[i].id;
      AnsweredByIff(env, s, userId, rows[i].id);
    }
  }

  lemma ArraysRoundTrip(mac: Mac, userId: string, ids: seq<int>)
    ensures ParseInts(Literal(PrintAll(ids))) == Some(ids)
    ensures ParseTexts(Literal(QuoteAll(HashesOf(mac, userId, ids)))) == Some(HashesOf(mac, userId, ids))
  {
    IntsRoundTrip(ids);
    HashesPlain(mac, userId, ids);
    TextsRoundTrip(HashesOf(mac, userId, ids));
  }

  /** The looked-up set agrees with the stored pairs on the rows at hand. */
  lemma LookupFacts(env: Env, s: State, userId: string, rows: seq<Row>, catalogue: seq<Row>, answered: set<int>,
                    messages: iset<string>)
    requires SubRows(rows, catalogue) && AsksWithin(userId, Ids(catalogue), messages)
    requires Genuine(env, s, messages) && CollisionFree(env.mac, messages)
    requires answered == TwoArrayLookup(s, Ids(rows), HashesOf(env.mac, userId, Ids(rows)))
    ensures forall i :: 0 <= i < |rows| ==> (rows[i].id in answered <==> rows[i].id in AnsweredBy(env, s, userId))
    ensures forall q :: q in answered ==> q in Ids(rows)
  {
    WithinRows(userId, rows, catalogue, messages);
    LookupIsPairwise(env, s, userId, Ids(rows), messages);
    AnsweredAgree(env, s, userId, rows, answered);
  }

  /** What one fetched window establishes: the subtraction counts its unanswered
      rows, and its page can be read off the stored pairs. */
  lemma WindowFacts(env: Env, s: State, userId: string, json: map<string, Json>, catalogue: seq<Row>, ilike: ILikeMatch,
                    window: nat, rows: seq<Row>, answered: set<int>, offset: nat, limit: nat, messages: iset<string>)
    requires 0 < window && DistinctIds(catalogue) && AsksWithin(userId, Ids(catalogue), messages)
    requires Genuine(env, s, messages) && CollisionFree(env.mac, messages)
    requires Searched(json, catalogue, ilike).Some? && rows == Slice(Searched(json, catalogue, ilike).value, 0, window)
    requires answered == TwoArrayLookup(s, Ids(rows), HashesOf(env.mac, userId, Ids(rows)))
    ensures var all, stored := Searched(json, catalogue, ilike).value, AnsweredBy(env, s, userId);
            && rows == Window(all, window) && (|rows| < window <==> |all| < window)
            && |rows| - |answered| == |Kept(Window(all, window), stored)|
            && PageOf(Kept(rows, answered), answered, offset, limit) == PageOf(Kept(Window(all, window), stored), stored, offset, limit)
  {
    var all, stored := Searched(json, catalogue, ilike).value, AnsweredBy(env, s, userId);
    SearchedFacts(json, catalogue, ilike);
    SliceFacts(all, catalogue, 0, window);
    LookupFacts(env, s, userId, rows, catalogue, answered, messages);
    CountKept(rows, answered);
    KeptRestrict(rows, answered, stored);
    KeptFrom(rows, answered);
    SamePage(Kept(rows, answered), answered, stored, offset, limit);
  }

  lemma SamePage(kept: seq<Row>, a: set<int>, b: set<int>, offset: nat, limit: nat)
    requires forall i :: 0 <= i < |kept| ==> (kept[i].id in a <==> kept[i].id in b)
    ensures PageOf(kept, a, offset, limit) == PageOf(kept, b, offset, limit)
  {
    var page := Slice(kept, offset, limit);
    assert forall i :: 0 <= i < |page| ==> page[i] == kept[offset + i];
    assert Serialize(page, a) == Serialize(page, b);
  }

  lemma {:induction false} KeptFrom(rows: seq<Row>, answered: set<int>)
    ensures forall i :: 0 <= i < |Kept(rows, answered)| ==> Kept(rows, answered)[i] in rows
  {
    if rows != [] {
      KeptFrom(rows[..|rows| - 1], answered);
    }
  }
}
