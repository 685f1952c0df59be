/** Which of the fetched questions the caller has answered. The lookup matches
    question ids and hashes against two arrays independently; that equals
    matching each (question, hash) pair because of what the protocol stores. */
module AnsweredLookup {
  import opened UserIdHash
  import opened AnswerTables
  import opened AnswerProtocol

  /** The rows of `question_user` whose id is in one list and whose hash is in the other. */
  function TwoArrayLookup(s: State, ids: seq<int>, hashes: seq<string>): set<int> {
    set k | k in s.tracking && k.0 in ids && k.1 in hashes :: k.0
  }

  lemma NoIdsNoAnswers(s: State, hashes: seq<string>)
    ensures TwoArrayLookup(s, [], hashes) == {}
  {
  }

  function HashesOf(mac: Mac, userId: string, ids: seq<int>): (hashes: seq<string>)
    ensures |hashes| == |ids|
    ensures forall i :: 0 <= i < |ids| ==> hashes[i] == HashOf(mac, userId, ids[i])
  {
    seq(|ids|, i requires 0 <= i < |ids| => HashOf(mac, userId, ids[i]))
  }

  /** The questions among `ids` whose own pair for this user is stored. */
  function PairLookup(env: Env, s: State, userId: string, ids: seq<int>): set<int> {
    set q | q in ids && HasTracking(env, s, userId, q)
  }

  ghost predicate Genuine(env: Env, s: State, messages: iset<string>) {
    forall k :: k in s.tracking ==> HashOfSomeUser(env, k, messages)
  }

  ghost predicate AsksWithin(userId: string, ids: seq<int>, messages: iset<string>) {
    forall i :: 0 <= i < |ids| ==> Message(userId, ids[i]) in messages
  }

  /** With genuine hashes and no collision among them, the two-array lookup
      answers exactly the pairwise question. */
  lemma LookupIsPairwise(env: Env, s: State, userId: string, ids: seq<int>, messages: iset<string>)
    requires Genuine(env, s, messages) && CollisionFree(env.mac, messages) && AsksWithin(userId, ids, messages)
    ensures TwoArrayLookup(s, ids, HashesOf(env.mac, userId, ids)) == PairLookup(env, s, userId, ids)
  {
    var hashes := HashesOf(env.mac, userId, ids);
    forall k | k in s.tracking && k.0 in ids && k.1 in hashes ensures k.0 in PairLookup(env, s, userId, ids) {
      var j :| 0 <= j < |ids| && hashes[j] == k.1;
      assert HashOfSomeUser(env, k, messages);
      var u :| Message(u, k.0) in messages && k.1 == HashOf(env.mac, u, k.0);
      HashInjective(env.mac, messages, u, k.0, userId, ids[j]);
    }
    forall q | q in PairLookup(env, s, userId, ids) ensures q in TwoArrayLookup(s, ids, hashes) {
      var key := (q, HashOf(env.mac, userId, q));
      var i :| 0 <= i < |ids| && ids[i] == q;
      assert hashes[i] == key.1 && key in s.tracking && key.0 in ids && key.1 in hashes;
    }
  }

  /** In every reachable state the answered flag of an existing question is on
      exactly when the user's last successful request on it was an answer. */
  lemma LookupMatchesHistory(env: Env, events: seq<Event>, userId: string, ids: seq<int>, questionId: int,
                             messages: iset<string>)
    requires CollisionFree(env.mac, messages) && AllWithin(events, messages) && AsksWithin(userId, ids, messages)
    requires questionId in ids && questionId in Run(env, events).questions
    ensures questionId in TwoArrayLookup(Run(env, events), ids, HashesOf(env.mac, userId, ids))
            <==> |History(env, events, userId, questionId)| % 2 == 1
  {
    assert Message(userId, questionId) in messages by {
      var i :| 0 <= i < |ids| && ids[i] == questionId;
    }
    RunIsGenuine(env, events, messages);
    LookupIsPairwise(env, Run(env, events), userId, ids, messages);
    AnswersAlternate(env, events, userId, questionId, messages);
  }

  lemma RunIsGenuine(env: Env, events: seq<Event>, messages: iset<string>)
    requires AllWithin(events, messages)
    ensures Genuine(env, Run(env, events), messages)
  {
    assert Within(events, messages);
    TrackingProvenance(env, events, messages);
  }
}
