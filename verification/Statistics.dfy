/** Aggregated results of one question under a tag filter. */
module Statistics {
  import opened Wrappers
  import opened AsciiText
  import Nationality
  import Region
  import opened BirthYearBucketer
  import opened ProfileTags
  import opened AnswerTables
  import opened FiniteSets

  // ----- The tag filter -----

  /** `isValidStatsTagValue`. */
  predicate IsValidTagValue(key: string, value: string) {
    if key == "gender" then value == "m" || value == "w" || value == "d"
    else if key == "nationality" then Nationality.IsValid(value)
    else if key == "region" then Region.IsCode(value)
    else if key == "age_bucket" then ParseLabel(value).Some?
    else false
  }

  /** The canonical form in which a filter value is compared with stored tags. */
  function NormalizeTag(key: string, value: string): string {
    if key == "nationality" then Nationality.Normalize(value)
    else if key == "region" then Region.Canonical(value)
    else value
  }

  const TAG_KEYS: seq<string> := ["gender", "nationality", "region", "age_bucket"]

  /** The filter for the first `count` keys; None is the 400 answer. An absent
      parameter and an empty one both ask for nothing. */
  function FilterOf(params: map<string, string>, keys: seq<string>): Option<Tags> {
    if keys == [] then Some(map[])
    else
      var front, key := FilterOf(params, keys[..|keys| - 1]), keys[|keys| - 1];
      if front.None? then None
      else if key !in params || params[key] == "" then front
      else
        var value := NormalizeTag(key, params[key]);
        if IsValidTagValue(key, value) then Some(front.value[key := value]) else None
  }

  lemma {:induction false} FilterFails(params: map<string, string>, keys: seq<string>, k: nat)
    requires k <= |keys| && FilterOf(params, keys[..k]).None?
    ensures FilterOf(params, keys).None?
  {
    if k < |keys| {
      assert keys[..|keys| - 1][..k] == keys[..k];
      FilterFails(params, keys[..|keys| - 1], k);
    } else {
      assert keys[..k] == keys;
    }
  }

  // ----- The query -----

  /** JSONB containment of flat objects: `tags @> filter`. */
  predicate Contains(tags: Tags, filter: Tags) {
    forall k :: k in filter ==> k in tags && tags[k] == filter[k]
  }

  /** The answers the query counts, joined with their options. */
  function Matching(s: State, questionId: int, filter: Tags): set<int> {
    set a | && a in s.answers && s.answers[a].questionId == questionId && IsApproved(s, questionId)
            && s.answers[a].answerId in s.options && Contains(s.answers[a].tags, filter)
  }

  function ForOption(s: State, questionId: int, filter: Tags, option: int): set<int> {
    set a | a in Matching(s, questionId, filter) && s.answers[a].answerId == option
  }

  /** GROUP BY yields each option with a matching answer once, in any order. */
  ghost predicate Groups(s: State, questionId: int, filter: Tags, groups: seq<int>) {
    && (forall i, j :: 0 <= i < j < |groups| ==> groups[i] != groups[j])
    && (forall a :: a in Matching(s, questionId, filter) ==> s.answers[a].answerId in groups)
    && (forall i :: 0 <= i < |groups| ==> groups[i] in s.options && ForOption(s, questionId, filter, groups[i]) != {})
  }

  function Total(s: State, questionId: int, filter: Tags, groups: seq<int>): nat {
    if groups == [] then 0
    else
      var n := |groups| - 1;
      Total(s, questionId, filter, groups[..n]) + |ForOption(s, questionId, filter, groups[n])|
  }

  /** A row of the result; the option columns are NULL in the one row that the
      LEFT JOIN yields when nothing matched. */
  datatype ResultRow = ResultRow(total: nat, option: Option<(int, string, nat)>)

  function ResultOf(s: State, questionId: int, filter: Tags, groups: seq<int>): (rows: seq<ResultRow>)
    requires forall i :: 0 <= i < |groups| ==> groups[i] in s.options
    ensures rows != []
  {
    var total := Total(s, questionId, filter, groups);
    if groups == [] then
      [ResultRow(total, None)]
    else
      seq(|groups|, i requires 0 <= i < |groups| =>
        ResultRow(total, Some((groups[i], s.options[groups[i]].text, |ForOption(s, questionId, filter, groups[i])|))))
  }

  // ----- The reply -----

  datatype OptionCount = OptionCount(answerId: int, text: string, count: nat, percent: real)

  datatype StatsReply = InvalidTag | Stats(enough: bool, answers: seq<OptionCount>)

  /** Percentages are exact rationals here. */
  function Percent(count: nat, total: nat): real {
    if total > 0 then count as real * 100.0 / total as real else 0.0
  }

  method AddTagFilters(params: map<string, string>) returns (filter: Option<Tags>)
    ensures filter == FilterOf(params, TAG_KEYS)
  {
    var tags: Tags := map[];
    for i := 0 to |TAG_KEYS|
      invariant FilterOf(params, TAG_KEYS[..i]) == Some(tags)
    {
      var key := TAG_KEYS[i];
      assert TAG_KEYS[..i + 1][..i] == TAG_KEYS[..i];
      if key in params && params[key] != "" {
        var value := params[key];
        if key == "nationality" {
          value := Nationality.Normalize(value);
        } else if key == "region" {
          value := Region.NormalizeRegion(value);
        }
        if !IsValidTagValue(key, value) {
          FilterFails(params, TAG_KEYS, i + 1);
          return None;
        }
        tags := tags[key := value];
      }
    }
    assert TAG_KEYS[..|TAG_KEYS|] == TAG_KEYS;
    return Some(tags);
  }

  // ----- What a request asks for -----

  predicate Asked(params: map<string, string>, key: string) {
    key in params && params[key] != ""
  }

  /** Every tag parameter that is given and not empty has a canonical form. */
  predicate ValidRequest(params: map<string, string>) {
    && (Asked(params, "gender") ==> params["gender"] == "m" || params["gender"] == "w" || params["gender"] == "d")
    && (Asked(params, "nationality") ==> Nationality.Normalize(params["nationality"]) != "")
    && (Asked(params, "region") ==> Region.Canonical(params["region"]) != "")
    && (Asked(params, "age_bucket") ==> ParseLabel(params["age_bucket"]).Some?)
  }

  /** The tags hold every requested value, each in its canonical form. */
  predicate HoldsRequested(tags: Tags, params: map<string, string>) {
    && (Asked(params, "gender") ==> "gender" in tags && tags["gender"] == params["gender"])
    && (Asked(params, "nationality") ==>
          "nationality" in tags && tags["nationality"] == Nationality.Normalize(params["nationality"]))
    && (Asked(params, "region") ==> "region" in tags && tags["region"] == Region.Canonical(params["region"]))
    && (Asked(params, "age_bucket") ==> "age_bucket" in tags && tags["age_bucket"] == params["age_bucket"])
  }

  lemma KeysDiffer()
    ensures "gender" != "nationality" && "gender" != "region" && "gender" != "age_bucket"
    ensures "nationality" != "region" && "nationality" != "age_bucket" && "region" != "age_bucket"
  {
    assert |"gender"| == 6 && |"nationality"| == 11 && |"region"| == 6 && |"age_bucket"| == 10;
    assert "gender"[0] != "region"[0];
  }

  lemma CanonicalValid(value: string)
    ensures Nationality.IsValid(Nationality.Normalize(value)) <==> Nationality.Normalize(value) != ""
    ensures Region.IsCode(Region.Canonical(value)) <==> Region.Canonical(value) != ""
  {
  }

  predicate KeyValid(params: map<string, string>, key: string) {
    Asked(params, key) ==> IsValidTagValue(key, NormalizeTag(key, params[key]))
  }

  lemma {:induction false} FilterKeys(params: map<string, string>, keys: seq<string>)
    ensures FilterOf(params, keys).Some? <==> forall i :: 0 <= i < |keys| ==> KeyValid(params, keys[i])
    ensures FilterOf(params, keys).Some? ==>
              var filter := FilterOf(params, keys).value;
              forall k :: (k in filter <==> k in keys && Asked(params, k)) && (k in filter ==> filter[k] == NormalizeTag(k, params[k]))
  {
    if keys != [] {
      var front, key := keys[..|keys| - 1], keys[|keys| - 1];
      FilterKeys(params, front);
      assert keys == front + [key];
      assert forall i :: 0 <= i < |front| ==> KeyValid(params, front[i]) == KeyValid(params, keys[i]);
    }
  }

  lemma KeysOf(k: string)
    ensures k in TAG_KEYS <==> k in {"gender", "nationality", "region", "age_bucket"}
  {
    if k in TAG_KEYS {
      var i :| 0 <= i < |TAG_KEYS| && TAG_KEYS[i] == k;
      assert i == 0 || i == 1 || i == 2 || i == 3;
    } else {
      assert TAG_KEYS[0] == "gender" && TAG_KEYS[1] == "nationality" && TAG_KEYS[2] == "region" && TAG_KEYS[3] == "age_bucket";
    }
  }

  lemma ValidIff(params: map<string, string>)
    ensures ValidRequest(params)
            <==> KeyValid(params, "gender") && KeyValid(params, "nationality") && KeyValid(params, "region")
                 && KeyValid(params, "age_bucket")
  {
    KeysDiffer();
    if "nationality" in params {
      CanonicalValid(params["nationality"]);
    }
    if "region" in params {
      CanonicalValid(params["region"]);
    }
  }

  /** For every parameter map: the filter exists if and only if the request is valid;
      its keys are then exactly the requested tags, each with its canonical value. */
  lemma FilterMeaning(params: map<string, string>)
    ensures FilterOf(params, TAG_KEYS).Some? <==> ValidRequest(params)
    ensures FilterOf(params, TAG_KEYS).Some? ==>
              var filter := FilterOf(params, TAG_KEYS).value;
              && (forall k :: k in filter <==> k in {"gender", "nationality", "region", "age_bucket"} && Asked(params, k))
              && (Asked(params, "gender") ==> filter["gender"] == params["gender"])
              && (Asked(params, "nationality") ==> filter["nationality"] == Nationality.Normalize(params["nationality"]))
              && (Asked(params, "region") ==> filter["region"] == Region.Canonical(params["region"]))
              && (Asked(params, "age_bucket") ==> filter["age_bucket"] == params["age_bucket"])
  {
    KeysDiffer();
    FilterKeys(params, TAG_KEYS);
    ValidIff(params);
    assert TAG_KEYS[0] == "gender" && TAG_KEYS[1] == "nationality" && TAG_KEYS[2] == "region" && TAG_KEYS[3] == "age_bucket";
    assert |TAG_KEYS| == 4;
    forall k ensures k in TAG_KEYS <==> k in {"gender", "nationality", "region", "age_bucket"} {
      KeysOf(k);
    }
  }

  lemma ContainsRequested(tags: Tags, params: map<string, string>)
    requires ValidRequest(params)
    ensures FilterOf(params, TAG_KEYS).Some?
    ensures Contains(tags, FilterOf(params, TAG_KEYS).value) <==> HoldsRequested(tags, params)
  {
    FilterMeaning(params);
    var filter := FilterOf(params, TAG_KEYS).value;
    if HoldsRequested(tags, params) {
      forall k | k in filter ensures k in tags && tags[k] == filter[k] {
        assert k == "gender" || k == "nationality" || k == "region" || k == "age_bucket";
      }
    } else {
      assert Asked(params, "gender") ==> "gender" in filter;
      assert Asked(params, "nationality") ==> "nationality" in filter;
      assert Asked(params, "region") ==> "region" in filter;
      assert Asked(params, "age_bucket") ==> "age_bucket" in filter;
    }
  }

  /** The answers of an approved question whose tags hold what is requested, and those
      among them that chose the option. */
  function Counted(s: State, questionId: int, params: map<string, string>): set<int> {
    set a | && a in s.answers && s.answers[a].questionId == questionId
            && questionId in s.questions && s.questions[questionId].status.Approved?
            && s.answers[a].answerId in s.options && HoldsRequested(s.answers[a].tags, params)
  }

  function CountedFor(s: State, questionId: int, params: map<string, string>, option: int): set<int> {
    set a | a in Counted(s, questionId, params) && s.answers[a].answerId == option
  }

  lemma CountedIsMatching(s: State, questionId: int, params: map<string, string>)
    requires ValidRequest(params)
    ensures FilterOf(params, TAG_KEYS).Some?
    ensures Counted(s, questionId, params) == Matching(s, questionId, FilterOf(params, TAG_KEYS).value)
    ensures forall o :: CountedFor(s, questionId, params, o) == ForOption(s, questionId, FilterOf(params, TAG_KEYS).value, o)
  {
    FilterMeaning(params);
    var filter := FilterOf(params, TAG_KEYS).value;
    forall a ensures a in Counted(s, questionId, params) <==> a in Matching(s, questionId, filter) {
      if a in s.answers {
        ContainsRequested(s.answers[a].tags, params);
      }
    }
  }

  /** The options with a counted answer, each once, in any order. */
  ghost predicate ListsOptions(s: State, questionId: int, params: map<string, string>, groups: seq<int>) {
    && (forall i, j :: 0 <= i < j < |groups| ==> groups[i] != groups[j])
    && (forall a :: a in Counted(s, questionId, params) ==> s.answers[a].answerId in groups)
    && (forall i :: 0 <= i < |groups| ==> groups[i] in s.options && CountedFor(s, questionId, params, groups[i]) != {})
  }

  /** The handler: `groups` is the order in which the database lists the options.
      400 exactly for an invalid request. Otherwise the options are shown exactly if
      enough answers hold all requested tags, with how many chose each and which
      percentage that is. */
  method GetStats(s: State, questionId: int, params: map<string, string>, minAnswers: int, groups: seq<int>)
    returns (reply: StatsReply)
    requires ValidRequest(params) ==> ListsOptions(s, questionId, params, groups)
    ensures reply.InvalidTag? <==> !ValidRequest(params)
    ensures reply.Stats? ==>
              var total := |Counted(s, questionId, params)|;
              && (reply.enough <==> total >= minAnswers)
              && (reply.answers != [] <==> total >= minAnswers && total >= 1)
              && (reply.enough ==> |reply.answers| == |groups|)
              && forall i :: 0 <= i < |reply.answers| ==>
                   && groups[i] in s.options
                   && reply.answers[i].answerId == groups[i] && reply.answers[i].text == s.options[groups[i]].text
                   && reply.answers[i].count == |CountedFor(s, questionId, params, groups[i])|
                   && reply.answers[i].percent * total as real == 100.0 * reply.answers[i].count as real
  {
    FilterMeaning(params);
    if ValidRequest(params) {
      CountedIsMatching(s, questionId, params);
    }
    reply := GetFiltered(s, questionId, params, minAnswers, groups);
    if reply.Stats? {
      forall i | 0 <= i < |reply.answers|
        ensures reply.answers[i].percent * |Counted(s, questionId, params)| as real == 100.0 * reply.answers[i].count as real
      {
        PercentIsShare(reply.answers[i].count, |Counted(s, questionId, params)|);
      }
    }
  }

  lemma PercentIsShare(count: nat, total: nat)
    requires total > 0
    ensures Percent(count, total) * total as real == 100.0 * count as real
  {
  }

  /** The same in terms of the filter. */
  method GetFiltered(s: State, questionId: int, params: map<string, string>, minAnswers: int, groups: seq<int>)
    returns (reply: StatsReply)
    requires FilterOf(params, TAG_KEYS).Some? ==> Groups(s, questionId, FilterOf(params, TAG_KEYS).value, groups)
    ensures reply.InvalidTag? <==> FilterOf(params, TAG_KEYS).None?
    ensures reply.Stats? ==>
              var filter := FilterOf(params, TAG_KEYS).value;
              var total := |Matching(s, questionId, filter)|;
              && (reply.enough <==> total >= minAnswers)
              && (reply.answers != [] <==> total >= minAnswers && total >= 1)
              && (reply.enough ==> |reply.answers| == |groups|)
              && forall i :: 0 <= i < |reply.answers| ==>
                   && groups[i] in s.options
                   && reply.answers[i].answerId == groups[i] && reply.answers[i].text == s.options[groups[i]].text
                   && reply.answers[i].count == |ForOption(s, questionId, filter, groups[i])|
                   && reply.answers[i].percent == Percent(reply.answers[i].count, total)
  {
    var filter := AddTagFilters(params);
    if filter.None? {
      return InvalidTag;
    }
    var rows := ResultOf(s, questionId, filter.value, groups);
    TotalCountsMatching(s, questionId, filter.value, groups);
    NoGroupsIff(s, questionId, filter.value, groups);
    var total := rows[0].total;
    var enough := minAnswers <= total;
    var answers: seq<OptionCount> := [];
    if enough {
      for i := 0 to |rows|
        invariant groups == [] ==> answers == []
        invariant groups != [] ==> |answers| == i
        invariant forall j :: 0 <= j < |answers| ==>
                    && answers[j].answerId == groups[j] && answers[j].text == s.options[groups[j]].text
                    && answers[j].count == |ForOption(s, questionId, filter.value, groups[j])|
                    && answers[j].percent == Percent(answers[j].count, total)
      {
        var row := rows[i];
        if row.option.None? {
          continue;
        }
        var (answerId, text, count) := row.option.value;
        answers := answers + [OptionCount(answerId, text, count, Percent(count, total))];
      }
    }
    return Stats(enough, answers);
  }

  lemma NoGroupsIff(s: State, questionId: int, filter: Tags, groups: seq<int>)
    requires Groups(s, questionId, filter, groups)
    ensures groups == [] <==> |Matching(s, questionId, filter)| == 0
  {
    var all := Matching(s, questionId, filter);
    if groups == [] {
      assert all == {} by {
        assert forall a :: a !in all;
      }
    } else {
      var first := ForOption(s, questionId, filter, groups[0]);
      assert first != {};
      SubsetSize(first, all);
    }
  }

  // ----- Counting by disjoint groups -----

  function Fiber<K(==)>(all: set<int>, f: int -> K, k: K): set<int> {
    set a | a in all && f(a) == k
  }

  function SumFibers<K(==)>(all: set<int>, f: int -> K, keys: seq<K>): nat {
    if keys == [] then 0
    else SumFibers(all, f, keys[..|keys| - 1]) + |Fiber(all, f, keys[|keys| - 1])|
  }

  lemma {:induction false} FibersPartition<K>(all: set<int>, f: int -> K, keys: seq<K>)
    requires forall i, j :: 0 <= i < j < |keys| ==> keys[i] != keys[j]
    ensures SumFibers(all, f, keys) == |set a | a in all && f(a) in keys|
  {
    if keys == [] {
      assert (set a | a in all && f(a) in keys) == {};
    } else {
      var n := |keys| - 1;
      FibersPartition(all, f, keys[..n]);
      assert keys == keys[..n] + [keys[n]];
      FiberApart(all, f, keys[..n], keys[n]);
    }
  }

  lemma FiberApart<K>(all: set<int>, f: int -> K, front: seq<K>, k: K)
    requires k !in front
    ensures |set a | a in all && f(a) in front + [k]| == |set a | a in all && f(a) in front| + |Fiber(all, f, k)|
  {
    var before, last := (set a | a in all && f(a) in front), Fiber(all, f, k);
    assert before !! last;
    assert (set a | a in all && f(a) in front + [k]) == before + last;
  }

  /** The option an answer chose; 0, no key of the sequence, for no answer. */
  function ChosenOption(s: State, a: int): int {
    if a in s.answers then s.answers[a].answerId else 0
  }

  lemma {:induction false} TotalIsSum(s: State, questionId: int, filter: Tags, groups: seq<int>)
    ensures Total(s, questionId, filter, groups)
            == SumFibers(Matching(s, questionId, filter), a => ChosenOption(s, a), groups)
  {
    if groups != [] {
      var n := |groups| - 1;
      TotalIsSum(s, questionId, filter, groups[..n]);
      assert ForOption(s, questionId, filter, groups[n])
          == Fiber(Matching(s, questionId, filter), a => ChosenOption(s, a), groups[n]);
    }
  }

  /** The reported option counts add up to the number of matching answers, in
      whatever order the options are listed. */
  lemma TotalCountsMatching(s: State, questionId: int, filter: Tags, groups: seq<int>)
    requires Groups(s, questionId, filter, groups)
    ensures Total(s, questionId, filter, groups) == |Matching(s, questionId, filter)|
  {
    TotalIsSum(s, questionId, filter, groups);
    FibersPartition(Matching(s, questionId, filter), a => ChosenOption(s, a), groups);
    assert (set a | a in Matching(s, questionId, filter) && (b => ChosenOption(s, b))(a) in groups)
        == Matching(s, questionId, filter);
  }

  function SumPercents(s: State, questionId: int, filter: Tags, groups: seq<int>, total: nat): real {
    if groups == [] then 0.0
    else
      var n := |groups| - 1;
      SumPercents(s, questionId, filter, groups[..n], total)
      + Percent(|ForOption(s, questionId, filter, groups[n])|, total)
  }

  lemma {:induction false} SumPercentsScales(s: State, questionId: int, filter: Tags, groups: seq<int>, total: nat)
    requires total > 0
    ensures SumPercents(s, questionId, filter, groups, total) == Percent(Total(s, questionId, filter, groups), total)
  {
    if groups != [] {
      var n := |groups| - 1;
      SumPercentsScales(s, questionId, filter, groups[..n], total);
      PercentAdds(Total(s, questionId, filter, groups[..n]), |ForOption(s, questionId, filter, groups[n])|, total);
    }
  }

  lemma PercentAdds(a: nat, b: nat, total: nat)
    requires total > 0
    ensures Percent(a + b, total) == Percent(a, total) + Percent(b, total)
  {
    var t := total as real;
    assert (a + b) as real * 100.0 == a as real * 100.0 + b as real * 100.0;
    assert (a as real * 100.0 + b as real * 100.0) / t == a as real * 100.0 / t + b as real * 100.0 / t;
  }

  /** Whenever something matches, the reported percentages add up to 100. */
  lemma PercentsSumTo100(s: State, questionId: int, filter: Tags, groups: seq<int>)
    requires Groups(s, questionId, filter, groups) && Matching(s, questionId, filter) != {}
    ensures SumPercents(s, questionId, filter, groups, |Matching(s, questionId, filter)|) == 100.0
  {
    var total := |Matching(s, questionId, filter)|;
    TotalCountsMatching(s, questionId, filter, groups);
    SumPercentsScales(s, questionId, filter, groups, total);
    WholePercent(total as real);
  }

  lemma WholePercent(t: real)
    requires t > 0.0
    ensures t * 100.0 / t == 100.0
  {
    var q := t * 100.0 / t;
    assert q * t == 100.0 * t;
    assert (q - 100.0) * t == 0.0;
  }

  // ----- Filters against each other -----

  /** A stricter filter never raises any option's count, nor the total. */
  lemma StricterFilterCountsLess(s: State, questionId: int, filter: Tags, stricter: Tags, option: int)
    requires Contains(stricter, filter)
    ensures |ForOption(s, questionId, stricter, option)| <= |ForOption(s, questionId, filter, option)|
    ensures |Matching(s, questionId, stricter)| <= |Matching(s, questionId, filter)|
  {
    forall a | a in Matching(s, questionId, stricter) ensures a in Matching(s, questionId, filter) {
      ContainsTransitive(s.answers[a].tags, stricter, filter);
    }
    SubsetSize(ForOption(s, questionId, stricter, option), ForOption(s, questionId, filter, option));
    SubsetSize(Matching(s, questionId, stricter), Matching(s, questionId, filter));
  }

  lemma ContainsTransitive(tags: Tags, stricter: Tags, filter: Tags)
    requires Contains(tags, stricter) && Contains(stricter, filter)
    ensures Contains(tags, filter)
  {
  }

  function TagValue(s: State, key: string, a: int): Option<string> {
    if a in s.answers && key in s.answers[a].tags then Some(s.answers[a].tags[key]) else None
  }

  function Untagged(s: State, questionId: int, filter: Tags, key: string): set<int> {
    set a | a in Matching(s, questionId, filter) && TagValue(s, key, a) == None
  }

  function SumOverValues(s: State, questionId: int, filter: Tags, key: string, values: seq<string>): nat {
    if values == [] then 0
    else
      var n := |values| - 1;
      SumOverValues(s, questionId, filter, key, values[..n]) + |Matching(s, questionId, filter[key := values[n]])|
  }

  /** For any tag key outside the filter and any list of its occurring values,
      the totals per value plus the untagged answers equal the unfiltered total. */
  lemma ValuesPartitionTotal(s: State, questionId: int, filter: Tags, key: string, values: seq<string>)
    requires key !in filter
    requires forall i, j :: 0 <= i < j < |values| ==> values[i] != values[j]
    requires forall a :: a in Matching(s, questionId, filter) && TagValue(s, key, a).Some? ==>
               TagValue(s, key, a).value in values
    ensures SumOverValues(s, questionId, filter, key, values) + |Untagged(s, questionId, filter, key)|
            == |Matching(s, questionId, filter)|
  {
    var all, untagged := Matching(s, questionId, filter), Untagged(s, questionId, filter, key);
    SumOverIsFibers(s, questionId, filter, key, values);
    FibersPartition(all, a => TagValue(s, key, a), Somes(values));
    TaggedOrUntagged(s, questionId, filter, key, values);
    var tagged := set a | a in all && (b => TagValue(s, key, b))(a) in Somes(values);
    assert tagged == all - untagged;
    assert untagged <= all;
  }

  lemma TaggedOrUntagged(s: State, questionId: int, filter: Tags, key: string, values: seq<string>)
    requires forall a :: a in Matching(s, questionId, filter) && TagValue(s, key, a).Some? ==>
               TagValue(s, key, a).value in values
    ensures forall a :: a in Matching(s, questionId, filter) ==>
              (TagValue(s, key, a) in Somes(values) <==> a !in Untagged(s, questionId, filter, key))
  {
    forall a | a in Matching(s, questionId, filter)
      ensures TagValue(s, key, a) in Somes(values) <==> a !in Untagged(s, questionId, filter, key)
    {
      if TagValue(s, key, a).Some? {
        var i :| 0 <= i < |values| && values[i] == TagValue(s, key, a).value;
        assert Somes(values)[i] == TagValue(s, key, a);
      }
    }
  }

  function Somes(values: seq<string>): (keys: seq<Option<string>>)
    ensures |keys| == |values|
    ensures forall i :: 0 <= i < |values| ==> keys[i] == Some(values[i])
  {
    seq(|values|, i requires 0 <= i < |values| => Some(values[i]))
  }

  lemma {:induction false} SumOverIsFibers(s: State, questionId: int, filter: Tags, key: string, values: seq<string>)
    requires key !in filter
    ensures SumOverValues(s, questionId, filter, key, values)
            == SumFibers(Matching(s, questionId, filter), a => TagValue(s, key, a), Somes(values))
  {
    if values != [] {
      var n := |values| - 1;
      SumOverIsFibers(s, questionId, filter, key, values[..n]);
      assert Somes(values)[..n] == Somes(values[..n]);
      ValueFiber(s, questionId, filter, key, values[n]);
    }
  }

  lemma ValueFiber(s: State, questionId: int, filter: Tags, key: string, value: string)
    requires key !in filter
    ensures Matching(s, questionId, filter[key := value])
            == Fiber(Matching(s, questionId, filter), a => TagValue(s, key, a), Some(value))
  {
    var narrowed := Matching(s, questionId, filter[key := value]);
    var fiber := Fiber(Matching(s, questionId, filter), a => TagValue(s, key, a), Some(value));
    forall a ensures a in narrowed <==> a in fiber {
      if a in s.answers {
        ContainsExtended(s.answers[a].tags, filter, key, value);
      }
    }
  }

  lemma ContainsExtended(tags: Tags, filter: Tags, key: string, value: string)
    requires key !in filter
    ensures Contains(tags, filter[key := value]) <==> Contains(tags, filter) && key in tags && tags[key] == value
  {
    if Contains(tags, filter[key := value]) {
      assert forall k :: k in filter ==> k in filter[key := value];
      assert key in filter[key := value];
    }
  }

  // ----- Stored tags against filter values -----

  /** Filtering by one region or nationality parameter finds an answer exactly
      when the normalised parameter is the stored code, however the client
      spelled it; a parameter with no canonical form is refused. */
  lemma RegionFilter(profile: Profile, bucketSize: int, year: int, value: string)
    requires value != ""
    ensures FilterOf(map["region" := value], TAG_KEYS)
            == if Region.Canonical(value) == "" then None else Some(map["region" := Region.Canonical(value)])
    ensures Region.Canonical(value) != "" ==>
              (Contains(TagsOf(profile, bucketSize, year), map["region" := Region.Canonical(value)])
               <==> profile.region == Some(Region.Canonical(value)))
  {
    OneKeyFilter("region", value, 2);
    ProfileTag(profile, bucketSize, year);
    ContainsOne(TagsOf(profile, bucketSize, year), "region", Region.Canonical(value));
  }

  /** End to end: the answer of a user who registered the region as `w` is found
      by the filter value `v` exactly when the two agree up to case and padding. */
  lemma RegionSpelling(profile: Profile, bucketSize: int, year: int, w: string, v: string)
    requires Region.Canonical(w) != "" && profile.region == Some(Region.Canonical(w))
    requires v != "" && FilterOf(map["region" := v], TAG_KEYS).Some?
    ensures Contains(TagsOf(profile, bucketSize, year), FilterOf(map["region" := v], TAG_KEYS).value)
            <==> SameUpToCase(Trim(w), Trim(v))
  {
    RegionFilter(profile, bucketSize, year, v);
    Region.CanonicalSame(w, v);
  }

  lemma NationalityFilter(profile: Profile, bucketSize: int, year: int, value: string)
    requires value != ""
    ensures FilterOf(map["nationality" := value], TAG_KEYS)
            == if Nationality.Normalize(value) == "" then None else Some(map["nationality" := Nationality.Normalize(value)])
    ensures Nationality.Normalize(value) != "" ==>
              (Contains(TagsOf(profile, bucketSize, year), map["nationality" := Nationality.Normalize(value)])
               <==> profile.nationality == Some(Nationality.Normalize(value)))
  {
    OneKeyFilter("nationality", value, 1);
    ProfileTag(profile, bucketSize, year);
    ContainsOne(TagsOf(profile, bucketSize, year), "nationality", Nationality.Normalize(value));
  }

  lemma ContainsOne(tags: Tags, key: string, value: string)
    ensures Contains(tags, map[key := value]) <==> key in tags && tags[key] == value
  {
    assert key in map[key := value];
  }

  /** The two tags with a canonical form are copied from the profile. */
  lemma ProfileTag(profile: Profile, bucketSize: int, year: int)
    ensures var tags := TagsOf(profile, bucketSize, year);
            && (if "region" in tags then profile.region == Some(tags["region"]) else profile.region.None?)
            && (if "nationality" in tags then profile.nationality == Some(tags["nationality"]) else profile.nationality.None?)
  {
    assert |"region"| == 6 && |"nationality"| == 11 && |"age_bucket"| == 10;
    assert "gender"[0] != "region"[0];
  }

  /** The tags of a profile: gender, nationality and region as stored, the age bucket
      if the birth year has one, and no other key. */
  lemma TagsMeaning(profile: Profile, bucketSize: int, year: int)
    ensures var tags := TagsOf(profile, bucketSize, year);
            && (forall k :: k in tags ==> k in {"gender", "nationality", "region", "age_bucket"})
            && (if "gender" in tags then profile.gender == Some(tags["gender"]) else profile.gender.None?)
            && (if "nationality" in tags then profile.nationality == Some(tags["nationality"]) else profile.nationality.None?)
            && (if "region" in tags then profile.region == Some(tags["region"]) else profile.region.None?)
            && ("age_bucket" in tags <==>
                  profile.birthYear.Some? && bucketSize > 0 && 1900 < profile.birthYear.value <= year)
            && ("age_bucket" in tags ==> tags["age_bucket"] == BucketBirthYear(profile.birthYear.value, bucketSize, year))
  {
    KeysDiffer();
    if profile.birthYear.Some? {
      BucketHoldsAge(profile.birthYear.value, bucketSize, year);
    }
  }

  lemma OneKeyFilter(key: string, value: string, position: nat)
    requires position < |TAG_KEYS| && TAG_KEYS[position] == key && value != ""
    ensures FilterOf(map[key := value], TAG_KEYS)
            == if IsValidTagValue(key, NormalizeTag(key, value)) then Some(map[key := NormalizeTag(key, value)]) else None
  {
    OneKeyPrefix(key, value, position, |TAG_KEYS|);
    assert TAG_KEYS[..|TAG_KEYS|] == TAG_KEYS;
  }

  lemma {:induction false} OneKeyPrefix(key: string, value: string, position: nat, n: nat)
    requires position < |TAG_KEYS| && TAG_KEYS[position] == key && value != "" && n <= |TAG_KEYS|
    ensures FilterOf(map[key := value], TAG_KEYS[..n])
            == if n <= position then Some(map[])
               else if IsValidTagValue(key, NormalizeTag(key, value)) then Some(map[key := NormalizeTag(key, value)])
               else None
  {
    if n > 0 {
      OneKeyPrefix(key, value, position, n - 1);
      assert TAG_KEYS[..n][..n - 1] == TAG_KEYS[..n - 1];
      assert TAG_KEYS[..n][n - 1] == TAG_KEYS[n - 1];
    }
  }

  /** Filtering by the label advertised for an age finds the answers of people of
      that age exactly when their bucket is not the clipped last one. */
  lemma AdvertisedFilterFinds(profile: Profile, bucketSize: int, year: int, maxAge: int)
    requires profile.birthYear.Some? && bucketSize > 0
    requires 1900 < profile.birthYear.value <= year && year - profile.birthYear.value <= maxAge
    ensures var age := year - profile.birthYear.value;
            Contains(TagsOf(profile, bucketSize, year), map["age_bucket" := AdvertisedLabel(age, bucketSize, maxAge)])
            <==> InFullBucket(age, bucketSize, maxAge)
  {
    var age := year - profile.birthYear.value;
    AdvertisedIff(profile.birthYear.value, bucketSize, year, maxAge);
    AgeTag(profile, bucketSize, year, AdvertisedLabel(age, bucketSize, maxAge));
  }

  /** Every advertised label is accepted as a filter value. */
  lemma AdvertisedIsValid(age: nat, bucketSize: int, maxAge: int)
    requires bucketSize > 0 && age <= maxAge
    ensures var r := Range(age / bucketSize, bucketSize, maxAge);
            IsValidTagValue("age_bucket", Label(r.0, r.1))
  {
    var r := Range(age / bucketSize, bucketSize, maxAge);
    DivBounds(age, bucketSize);
    ParseOfLabel(r.0, r.1);
  }

  lemma AgeTag(profile: Profile, bucketSize: int, year: int, text: string)
    requires profile.birthYear.Some? && bucketSize > 0 && 1900 < profile.birthYear.value <= year
    ensures Contains(TagsOf(profile, bucketSize, year), map["age_bucket" := text])
            <==> text == BucketBirthYear(profile.birthYear.value, bucketSize, year)
  {
    BucketHoldsAge(profile.birthYear.value, bucketSize, year);
    var tags := TagsOf(profile, bucketSize, year);
    assert "age_bucket" in tags && tags["age_bucket"] == BucketBirthYear(profile.birthYear.value, bucketSize, year);
    assert "age_bucket" in map["age_bucket" := text];
  }
}
