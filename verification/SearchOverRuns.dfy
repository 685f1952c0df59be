/** The search and the answer protocol together: what a caller finds depends on
    nothing but the filters and the caller's own history of requests. */
module SearchOverRuns {
  import opened Wrappers
  import opened Catalogue
  import opened Paging
  import opened SearchQuery
  import opened QueryEvaluation
  import opened UnansweredSearch
  import opened UserIdHash
  import opened AnswerTables
  import opened AnswerProtocol
  import opened AnsweredLookup
  import opened QuestionController

  /** The rows that the user has not answered, or has answered and deleted again. */
  function OpenTo(env: Env, events: seq<Event>, userId: string, rows: seq<Row>): seq<Row> {
    if rows == [] then []
    else
      var n := |rows| - 1;
      OpenTo(env, events, userId, rows[..n])
      + if |History(env, events, userId, rows[n].id)| % 2 == 0 then [rows[n]] else []
  }

  ghost predicate Existing(rows: seq<Row>, s: State) {
    forall i :: 0 <= i < |rows| ==> rows[i].id in s.questions
  }

  /** The row of `questions LEFT JOIN categories` for this question; the category
      tables decide the name. */
  predicate Shows(row: Row, q: Question) {
    && row.text == q.text && row.language == q.language && row.categoryId == q.categoryId
    && row.minAge == q.minAge && row.status == q.status && (row.specialCategory != "none" <==> q.specialFlagged)
  }

  /** The catalogue lists every stored question once, as it is stored. */
  ghost predicate Lists(catalogue: seq<Row>, s: State) {
    && DistinctIds(catalogue) && Existing(catalogue, s)
    && (forall i :: 0 <= i < |catalogue| ==> Shows(catalogue[i], s.questions[catalogue[i].id]))
    && (forall q :: q in s.questions ==> q in Ids(catalogue))
  }

  lemma {:induction false} KeptIsOpen(env: Env, events: seq<Event>, userId: string, rows: seq<Row>, messages: iset<string>)
    requires CollisionFree(env.mac, messages) && AllWithin(events, messages) && AsksWithin(userId, Ids(rows), messages)
    requires Existing(rows, Run(env, events))
    ensures Kept(rows, AnsweredBy(env, Run(env, events), userId)) == OpenTo(env, events, userId, rows)
  {
    if rows != [] {
      var n := |rows| - 1;
      AsksFront(userId, rows, messages);
      KeptIsOpen(env, events, userId, rows[..n], messages);
      AnswersAlternate(env, events, userId, rows[n].id, messages);
      AnsweredByIff(env, Run(env, events), userId, rows[n].id);
    }
  }

  lemma AsksFront(userId: string, rows: seq<Row>, messages: iset<string>)
    requires rows != [] && AsksWithin(userId, Ids(rows), messages)
    ensures AsksWithin(userId, Ids(rows[..|rows| - 1]), messages)
    ensures Message(userId, rows[|rows| - 1].id) in messages
  {
    var n := |rows| - 1;
    assert Ids(rows)[n] == rows[n].id;
    assert Ids(rows[..n]) == Ids(rows)[..n];
  }

  /** A page of unanswered rows: no entry is flagged as answered. */
  function Fresh(rows: seq<Row>): (entries: seq<Entry>)
    ensures |entries| == |rows|
    ensures forall i :: 0 <= i < |rows| ==> entries[i] == Entry(rows[i], false)
  {
    Serialize(rows, {})
  }

  lemma {:induction false} KeptNotAnswered(rows: seq<Row>, answered: set<int>)
    ensures forall i :: 0 <= i < |Kept(rows, answered)| ==> Kept(rows, answered)[i].id !in answered
  {
    if rows != [] {
      KeptNotAnswered(rows[..|rows| - 1], answered);
    }
  }

  lemma MatchingRows(catalogue: seq<Row>, c: Criteria, ilike: ILikeMatch, userId: string, s: State, messages: iset<string>)
    requires AsksWithin(userId, Ids(catalogue), messages) && Existing(catalogue, s)
    ensures var rows := Matching(catalogue, c, ilike);
            AsksWithin(userId, Ids(rows), messages) && Existing(rows, s)
  {
    var rows := Matching(catalogue, c, ilike);
    forall i | 0 <= i < |rows| ensures Message(userId, Ids(rows)[i]) in messages && rows[i].id in s.questions {
      assert rows[i] in catalogue;
      var j :| 0 <= j < |catalogue| && catalogue[j] == rows[i];
      assert Ids(catalogue)[j] == Ids(rows)[i];
    }
  }

  /** The page of the rows open to the user: 500 if one of the first offset + limit
      + 1 open rows of the window at hand has no category name, and otherwise the
      requested slice of all open rows, none of them flagged as answered. */
  function OpenPage(env: Env, events: seq<Event>, userId: string, rows: seq<Row>, window: nat, offset: nat, limit: nat): Reply {
    var seen := OpenTo(env, events, userId, Window(rows, window));
    if AllTranslated(seen, Examined(|seen|, offset, limit))
    then Page(Fresh(Slice(OpenTo(env, events, userId, Window(rows, MAX_WINDOW)), offset, limit)))
    else Failed
  }

  /** After any run of requests, over any catalogue of existing questions: a request
      whose body encodes criteria in int range is answered with the page of the
      first 5000 matching rows that are open to the caller, which are those on which
      the caller's last successful request was no answer. */
  lemma SearchAfterRun(env: Env, events: seq<Event>, userId: string, json: map<string, Json>, c: Criteria,
                       offset: nat, limit: nat, catalogue: seq<Row>, ilike: ILikeMatch, messages: iset<string>)
    requires Encodes(json, c) && Int32Criteria(c)
    requires CollisionFree(env.mac, messages) && AllWithin(events, messages) && Ordinary(offset, limit)
    requires AsksWithin(userId, Ids(catalogue), messages) && Existing(catalogue, Run(env, events))
    ensures Searched(json, catalogue, ilike) == Some(Matching(catalogue, c, ilike))
    ensures var rows, answered := Matching(catalogue, c, ilike), AnsweredBy(env, Run(env, events), userId);
            SearchReply(rows, answered, offset, limit)
            == OpenPage(env, events, userId, rows, LastWindow(rows, answered, offset, limit), offset, limit)
  {
    var rows, s := Matching(catalogue, c, ilike), Run(env, events);
    var answered := AnsweredBy(env, s, userId);
    SearchedIsMatching(json, c, catalogue, ilike);
    MatchingRows(catalogue, c, ilike, userId, s, messages);
    SearchIsFilterThenSlice(rows, answered, offset, limit);
    WindowIsOpen(env, events, userId, rows, LastWindow(rows, answered, offset, limit), messages);
    WindowIsOpen(env, events, userId, rows, MAX_WINDOW, messages);
    KeptNotAnswered(Window(rows, MAX_WINDOW), answered);
    FlagsOff(Kept(Window(rows, MAX_WINDOW), answered), answered, offset, limit);
  }

  lemma WindowIsOpen(env: Env, events: seq<Event>, userId: string, rows: seq<Row>, size: nat, messages: iset<string>)
    requires CollisionFree(env.mac, messages) && AllWithin(events, messages) && AsksWithin(userId, Ids(rows), messages)
    requires Existing(rows, Run(env, events))
    ensures Kept(Window(rows, size), AnsweredBy(env, Run(env, events), userId)) == OpenTo(env, events, userId, Window(rows, size))
  {
    var window := Window(rows, size);
    forall i | 0 <= i < |window| ensures Message(userId, Ids(window)[i]) in messages {
      assert Ids(window)[i] == Ids(rows)[i];
    }
    KeptIsOpen(env, events, userId, window, messages);
  }

  lemma FlagsOff(kept: seq<Row>, answered: set<int>, offset: nat, limit: nat)
    requires forall i :: 0 <= i < |kept| ==> kept[i].id !in answered
    ensures Serialize(Slice(kept, offset, limit), answered) == Fresh(Slice(kept, offset, limit))
  {
    var page := Slice(kept, offset, limit);
    assert forall i :: 0 <= i < |page| ==> page[i] == kept[offset + i];
  }

  lemma SearchedIsMatching(json: map<string, Json>, c: Criteria, catalogue: seq<Row>, ilike: ILikeMatch)
    requires Encodes(json, c) && Int32Criteria(c)
    ensures Searched(json, catalogue, ilike) == Some(Matching(catalogue, c, ilike))
  {
    WhereMeaning(json, c, ilike, Row(0, "", "", 0, "", 0, Approved, None));
    SelectIsMatching(json, c, catalogue, ilike);
  }

  /** A request body with these paging members. */
  function Body(json: map<string, Json>, unansweredOnly: bool, offset: int, limit: int): map<string, Json> {
    json["unanswered_only" := JBool(unansweredOnly)]["offset" := JInt(offset)]["limit" := JInt(limit)]
  }

  /** The paging members say what they seem to say, and no filter reads them. */
  lemma BodyMeans(json: map<string, Json>, unansweredOnly: bool, offset: int, limit: int, c: Criteria)
    requires 0 <= offset < 0x8000_0000 && 0 <= limit <= 1000
    ensures var body := Body(json, unansweredOnly, offset, limit);
            && OffsetOf(body) == offset && LimitOf(body) == limit && (UnansweredOnly(body) <==> unansweredOnly)
            && (Encodes(json, c) ==> Encodes(body, c))
  {
    assert |"unanswered_only"| == 15 && |"offset"| == 6 && |"limit"| == 5;
    assert |"language"| == 8 && |"search"| == 6 && |"categoryIds"| == 11 && |"age"| == 3;
    assert "search"[0] != "offset"[0];
  }

  /** The running handler: after any run of requests it answers a body that asks for
      unanswered questions at an offset and a limit with the page of the first 5000
      matching rows that are open to the caller. The query text, the two-array
      lookup and the widening fetch are all inside. */
  method SearchUnanswered(c: QuestionController, ghost events: seq<Event>, json: map<string, Json>, ghost criteria: Criteria,
                          offset: int, limit: int, userId: string, catalogue: seq<Row>, ghost messages: iset<string>)
    returns (reply: Option<Reply>)
    requires c.Tables() == Run(c.Environment(), events) && userId != ""
    requires 0 <= offset < 0x8000_0000 && 0 <= limit <= 1000
    requires Encodes(json, criteria) && Int32Criteria(criteria)
    requires CollisionFree(c.hasher.mac, messages) && AllWithin(events, messages)
    requires AsksWithin(userId, Ids(catalogue), messages) && Lists(catalogue, c.Tables())
    ensures var rows, answered := Matching(catalogue, criteria, c.ilike), AnsweredBy(c.Environment(), c.Tables(), userId);
            var window := LastWindow(rows, answered, offset, limit);
            reply == Some(OpenPage(c.Environment(), events, userId, rows, window, offset, limit))
    ensures (forall i :: 0 <= i < |catalogue| ==> Translated(catalogue[i])) ==>
              var open := OpenTo(c.Environment(), events, userId, Window(Matching(catalogue, criteria, c.ilike), 5000));
              reply == Some(Page(Fresh(Slice(open, offset, limit))))
  {
    RunIsGenuine(c.Environment(), events, messages);
    var body := Body(json, true, offset, limit);
    BodyMeans(json, true, offset, limit, criteria);
    UnansweredAfterRun(c.Environment(), events, userId, json, criteria, offset, limit, catalogue, c.ilike, messages);
    OpenTranslated(c.Environment(), events, userId, catalogue, criteria, c.ilike);
    reply := c.SearchWithAuth(body, userId, catalogue, messages);
  }

  lemma UnansweredAfterRun(env: Env, events: seq<Event>, userId: string, json: map<string, Json>, c: Criteria,
                           offset: int, limit: int, catalogue: seq<Row>, ilike: ILikeMatch, messages: iset<string>)
    requires userId != "" && 0 <= offset < 0x8000_0000 && 0 <= limit <= 1000
    requires Encodes(json, c) && Int32Criteria(c)
    requires CollisionFree(env.mac, messages) && AllWithin(events, messages)
    requires AsksWithin(userId, Ids(catalogue), messages) && Existing(catalogue, Run(env, events))
    ensures var s, rows := Run(env, events), Matching(catalogue, c, ilike);
            var window := LastWindow(rows, AnsweredBy(env, s, userId), offset, limit);
            && ReplyTo(env, s, Body(json, true, offset, limit), userId, catalogue, ilike)
               == Some(OpenPage(env, events, userId, rows, window, offset, limit))
            && ReplyTo(env, s, Body(json, true, offset, limit), userId, catalogue, ilike)
               == Some(SearchReply(rows, AnsweredBy(env, s, userId), offset, limit))
  {
    BodyMeans(json, true, offset, limit, c);
    SearchAfterRun(env, events, userId, Body(json, true, offset, limit), c, offset, limit, catalogue, ilike, messages);
  }

  /** The pages in the order requested, without their 200 around. */
  function Values(replies: seq<Option<Reply>>): (values: seq<Reply>)
    requires forall k :: 0 <= k < |replies| ==> replies[k].Some?
    ensures |values| == |replies| && forall k :: 0 <= k < |replies| ==> values[k] == replies[k].value
  {
    seq(|replies|, k requires 0 <= k < |replies| => replies[k].value)
  }

  /** Paging through the handler's replies: the bodies ask for the offsets 0, limit,
      2 * limit and so on after one run, and none of them is answered 500. Put
      together the replies are a prefix of the rows open to the caller. */
  lemma PagesAfterRun(env: Env, events: seq<Event>, userId: string, json: map<string, Json>, c: Criteria, limit: int,
                      catalogue: seq<Row>, ilike: ILikeMatch, messages: iset<string>, replies: seq<Option<Reply>>,
                      offsets: seq<nat>, count: nat)
    requires userId != "" && 0 < limit <= 1000 && offsets == Offsets(limit, |replies|) && count == |replies| * limit
    requires forall k :: 0 <= k < |offsets| ==> offsets[k] < 0x8000_0000
    requires Encodes(json, c) && Int32Criteria(c)
    requires CollisionFree(env.mac, messages) && AllWithin(events, messages)
    requires AsksWithin(userId, Ids(catalogue), messages) && Existing(catalogue, Run(env, events))
    requires forall k :: 0 <= k < |replies| ==>
               && replies[k] == ReplyTo(env, Run(env, events), Body(json, true, offsets[k], limit), userId, catalogue, ilike)
               && replies[k].Some? && replies[k].value.Page?
    ensures var open := OpenTo(env, events, userId, Window(Matching(catalogue, c, ilike), 5000));
            Entries(Values(replies)) == Fresh(open[..Min(count, |open|)])
  {
    var s, rows := Run(env, events), Matching(catalogue, c, ilike);
    var answered := AnsweredBy(env, s, userId);
    forall k | 0 <= k < |replies| ensures Values(replies)[k] == SearchReply(rows, answered, offsets[k], limit) {
      UnansweredAfterRun(env, events, userId, json, c, offsets[k], limit, catalogue, ilike, messages);
    }
    PagesCollectUnanswered(rows, answered, limit, Values(replies));
    MatchingRows(catalogue, c, ilike, userId, s, messages);
    WindowIsOpen(env, events, userId, rows, MAX_WINDOW, messages);
    PrefixFresh(Window(rows, MAX_WINDOW), answered, count);
  }

  lemma PrefixFresh(rows: seq<Row>, answered: set<int>, count: nat)
    ensures var kept := Kept(rows, answered);
            Serialize(kept[..Min(count, |kept|)], answered) == Fresh(kept[..Min(count, |kept|)])
  {
    KeptNotAnswered(rows, answered);
  }

  // ----- The search without unanswered_only -----

  /** Rows flagged by the caller's history. */
  function Flagged(env: Env, events: seq<Event>, userId: string, rows: seq<Row>): (entries: seq<Entry>)
    ensures |entries| == |rows|
    ensures forall i :: 0 <= i < |rows| ==> entries[i] == Entry(rows[i], |History(env, events, userId, rows[i].id)| % 2 == 1)
  {
    seq(|rows|, i requires 0 <= i < |rows| => Entry(rows[i], |History(env, events, userId, rows[i].id)| % 2 == 1))
  }

  /** After any run the search for all questions answers the requested slice of the
      matching rows, each flagged exactly if the caller's last successful request on
      it was an answer, and 500 exactly if a row of the slice has no category name. */
  lemma SearchAllAfterRun(env: Env, events: seq<Event>, userId: string, json: map<string, Json>, c: Criteria,
                          offset: int, limit: int, catalogue: seq<Row>, ilike: ILikeMatch, messages: iset<string>)
    requires userId != "" && 0 <= offset < 0x8000_0000 && 0 <= limit <= 1000
    requires Encodes(json, c) && Int32Criteria(c)
    requires CollisionFree(env.mac, messages) && AllWithin(events, messages)
    requires AsksWithin(userId, Ids(catalogue), messages) && Existing(catalogue, Run(env, events))
    ensures var page := Slice(Matching(catalogue, c, ilike), offset, limit);
            ReplyTo(env, Run(env, events), Body(json, false, offset, limit), userId, catalogue, ilike)
            == Some(if forall i :: 0 <= i < |page| ==> page[i].categoryName.Some?
                    then Page(Flagged(env, events, userId, page)) else Failed)
  {
    var s, rows := Run(env, events), Matching(catalogue, c, ilike);
    var page, answered := Slice(rows, offset, limit), AnsweredBy(env, s, userId);
    BodyMeans(json, false, offset, limit, c);
    SearchedIsMatching(Body(json, false, offset, limit), c, catalogue, ilike);
    MatchingRows(catalogue, c, ilike, userId, s, messages);
    forall i | 0 <= i < |page| ensures page[i].id in s.questions && Message(userId, page[i].id) in messages {
      SliceElements(rows, offset, limit, i);
      assert Ids(rows)[offset + i] == page[i].id;
    }
    PageFlagged(env, events, userId, page, messages);
  }

  lemma PageFlagged(env: Env, events: seq<Event>, userId: string, page: seq<Row>, messages: iset<string>)
    requires CollisionFree(env.mac, messages) && AllWithin(events, messages)
    requires forall i :: 0 <= i < |page| ==> page[i].id in Run(env, events).questions && Message(userId, page[i].id) in messages
    ensures PageOf(page, AnsweredBy(env, Run(env, events), userId), 0, 0)
            == if forall i :: 0 <= i < |page| ==> page[i].categoryName.Some? then Page(Flagged(env, events, userId, page)) else Failed
  {
    var answered := AnsweredBy(env, Run(env, events), userId);
    forall i | 0 <= i < |page| ensures page[i].id in answered <==> |History(env, events, userId, page[i].id)| % 2 == 1 {
      AnsweredByIff(env, Run(env, events), userId, page[i].id);
      AnswersAlternate(env, events, userId, page[i].id, messages);
    }
    assert Slice(page, 0, 0) == page;
    assert Serialize(page, answered) == Flagged(env, events, userId, page);
  }

  lemma {:induction false} OpenFrom(env: Env, events: seq<Event>, userId: string, rows: seq<Row>)
    ensures forall i :: 0 <= i < |OpenTo(env, events, userId, rows)| ==> OpenTo(env, events, userId, rows)[i] in rows
  {
    if rows != [] {
      OpenFrom(env, events, userId, rows[..|rows| - 1]);
    }
  }

  lemma OpenTranslated(env: Env, events: seq<Event>, userId: string, catalogue: seq<Row>, c: Criteria, ilike: ILikeMatch)
    ensures (forall i :: 0 <= i < |catalogue| ==> Translated(catalogue[i])) ==>
              forall size: nat :: var open := OpenTo(env, events, userId, Window(Matching(catalogue, c, ilike), size));
                AllTranslated(open, |open|)
  {
    forall size: nat | forall i :: 0 <= i < |catalogue| ==> Translated(catalogue[i])
      ensures var open := OpenTo(env, events, userId, Window(Matching(catalogue, c, ilike), size)); AllTranslated(open, |open|)
    {
      var window := Window(Matching(catalogue, c, ilike), size);
      OpenFrom(env, events, userId, window);
      forall row | row in window ensures Translated(row) {
        assert row in catalogue;
      }
    }
  }

  // ----- Which questions are found -----

  /** The criteria, of a stored question. */
  predicate Meets(q: Question, c: Criteria, ilike: ILikeMatch) {
    && (c.language != "" ==> q.language == c.language)
    && (c.search != "" ==> ilike(q.text, "%" + c.search + "%"))
    && (c.categoryIds != [] ==> q.categoryId in c.categoryIds)
    && (c.age.Some? ==> q.minAge <= c.age.value)
  }

  lemma {:induction false} MatchingIff(catalogue: seq<Row>, c: Criteria, ilike: ILikeMatch, row: Row)
    ensures row in Matching(catalogue, c, ilike) <==> row in catalogue && Matches(row, c, ilike)
  {
    if catalogue != [] {
      MatchingIff(catalogue[..|catalogue| - 1], c, ilike, row);
      assert catalogue == catalogue[..|catalogue| - 1] + [catalogue[|catalogue| - 1]];
    }
  }

  lemma {:induction false} OpenIff(env: Env, events: seq<Event>, userId: string, rows: seq<Row>, row: Row)
    ensures row in OpenTo(env, events, userId, rows)
            <==> row in rows && |History(env, events, userId, row.id)| % 2 == 0
  {
    if rows != [] {
      OpenIff(env, events, userId, rows[..|rows| - 1], row);
      assert rows == rows[..|rows| - 1] + [rows[|rows| - 1]];
    }
  }

  /** After any run, the rows open to a user are those of exactly the questions that
      are approved, meet the criteria as stored, and have no standing answer of the
      user: what review, submission and answering do decides what is found. */
  lemma FoundIff(env: Env, events: seq<Event>, userId: string, c: Criteria, catalogue: seq<Row>, ilike: ILikeMatch, i: nat)
    requires Lists(catalogue, Run(env, events)) && i < |catalogue|
    ensures var row, s := catalogue[i], Run(env, events);
            row in OpenTo(env, events, userId, Matching(catalogue, c, ilike))
            <==> && IsApproved(s, row.id) && Meets(s.questions[row.id], c, ilike)
                 && |History(env, events, userId, row.id)| % 2 == 0
  {
    MatchingIff(catalogue, c, ilike, catalogue[i]);
    OpenIff(env, events, userId, Matching(catalogue, c, ilike), catalogue[i]);
  }

  // ----- One request's effect on everyone's search -----

  /** A successful answer removes exactly its question from the answering user's
      unanswered rows and a successful deletion puts it back; every other user's
      list stays the same, although both change rows that carry no user id. */
  lemma OnlyOwnListChanges(env: Env, s: State, e: Event, userId: string, rows: seq<Row>, messages: iset<string>)
    requires (e.Answer? || e.DeleteAnswer?) && Step(env, s, e).1.Success()
    requires CollisionFree(env.mac, messages) && Message(e.userId, e.questionId) in messages
    requires AsksWithin(userId, Ids(rows), messages)
    ensures var before, after := AnsweredBy(env, s, userId), AnsweredBy(env, Step(env, s, e).0, userId);
            if userId != e.userId then Kept(rows, after) == Kept(rows, before)
            else if e.Answer? then Kept(rows, after) == Kept(Kept(rows, before), {e.questionId})
            else Kept(rows, before) == Kept(Kept(rows, after), {e.questionId})
  {
    var before, after := AnsweredBy(env, s, userId), AnsweredBy(env, Step(env, s, e).0, userId);
    forall i | 0 <= i < |rows|
      ensures userId != e.userId || rows[i].id != e.questionId ==> (rows[i].id in before <==> rows[i].id in after)
      ensures userId == e.userId && rows[i].id == e.questionId ==>
                (rows[i].id in before <==> e.DeleteAnswer?) && (rows[i].id in after <==> e.Answer?)
    {
      assert Ids(rows)[i] == rows[i].id;
      OwnTracking(env, s, e, userId, rows[i].id, messages);
      AnsweredByIff(env, s, userId, rows[i].id);
      AnsweredByIff(env, Step(env, s, e).0, userId, rows[i].id);
    }
    if userId != e.userId {
      KeptRestrict(rows, before, after);
    } else {
      var less, more := if e.Answer? then before else after, if e.Answer? then after else before;
      KeptRestrict(rows, more, less + {e.questionId});
      KeptTwice(rows, less, e.questionId);
    }
  }

  lemma {:induction false} KeptTwice(rows: seq<Row>, answered: set<int>, q: int)
    ensures Kept(rows, answered + {q}) == Kept(Kept(rows, answered), {q})
  {
    if rows != [] {
      var n := |rows| - 1;
      KeptTwice(rows[..n], answered, q);
      var front := Kept(rows[..n], answered);
      assert (front + [rows[n]])[..|front|] == front;
      assert front + [] == front;
    }
  }
}
