/** What the database makes of a finished search query, and the proof that it is
    the direct conjunction of the requested filters, paged by offset and limit. */
module QueryEvaluation {
  import opened Wrappers
  import opened Decimal
  import opened ArrayLiteral
  import opened Paging
  import opened Catalogue
  import opened SearchQuery

  /** Case-insensitive pattern matching, left abstract: text, then pattern. */
  type ILikeMatch = (string, string) -> bool

  predicate IsInt32(n: int) {
    -0x8000_0000 <= n < 0x8000_0000
  }

  /** The `::int` cast: text that is no 32-bit integer is an error. */
  function Int32(s: string): Option<int> {
    var n := Parse(s);
    if n.Some? && IsInt32(n.value) then n else None
  }

  /** The `::int[]` cast. */
  function Int32s(s: string): Option<seq<int>> {
    var ns := ParseInts(s);
    if ns.Some? && (forall i :: 0 <= i < |ns.value| ==> IsInt32(ns.value[i])) then ns else None
  }

  predicate CastSucceeds(cast: string, param: string) {
    && (cast == "::int" ==> Int32(param).Some?)
    && (cast == "::int[]" ==> Int32s(param).Some?)
  }

  function TextCell(row: Row, column: Column): Option<string> {
    match column
    case Language => Some(row.language)
    case Text => Some(row.text)
    case _ => None
  }

  function IntCell(row: Row, column: Column): Option<int> {
    match column
    case CategoryId => Some(row.categoryId)
    case MinAge => Some(row.minAge)
    case _ => None
  }

  predicate ConditionHolds(column: Column, kind: FilterKind, param: string, ilike: ILikeMatch, row: Row) {
    match kind
    case Equal => TextCell(row, column) == Some(param)
    case ILike => TextCell(row, column).Some? && ilike(TextCell(row, column).value, param)
    case GreaterEq =>
      IntCell(row, column).Some? && Int32(param).Some? && IntCell(row, column).value >= Int32(param).value
    case LessEq =>
      IntCell(row, column).Some? && Int32(param).Some? && IntCell(row, column).value <= Int32(param).value
    case InArray =>
      IntCell(row, column).Some? && Int32s(param).Some? && IntCell(row, column).value in Int32s(param).value
  }

  predicate ClauseCasts(c: Clause, params: seq<string>) {
    match c
    case OrderByCreated => true
    case Condition(_, _, slot, cast) => 1 <= slot <= |params| && CastSucceeds(cast, params[slot - 1])
    case _ => 1 <= c.slot <= |params| && Parse(params[c.slot - 1]).Some?
  }

  predicate ClauseHolds(c: Clause, params: seq<string>, ilike: ILikeMatch, row: Row) {
    c.Condition? ==> 1 <= c.slot <= |params| && ConditionHolds(c.column, c.kind, params[c.slot - 1], ilike, row)
  }

  predicate AllCast(q: Query) {
    forall i :: 0 <= i < |q.clauses| ==> ClauseCasts(q.clauses[i], q.params)
  }

  predicate AllHold(q: Query, ilike: ILikeMatch, row: Row) {
    forall i :: 0 <= i < |q.clauses| ==> ClauseHolds(q.clauses[i], q.params, ilike, row)
  }

  function Select(catalogue: seq<Row>, q: Query, ilike: ILikeMatch): seq<Row> {
    if catalogue == [] then []
    else
      var n := |catalogue| - 1;
      Select(catalogue[..n], q, ilike)
      + if catalogue[n].status.Approved? && AllHold(q, ilike, catalogue[n]) then [catalogue[n]] else []
  }

  function NonNegative(n: int): nat {
    if n < 0 then 0 else n
  }

  /** The bound value of the LIMIT (or OFFSET) clause; 0 when there is none. */
  function BoundValue(clauses: seq<Clause>, params: seq<string>, isLimit: bool): nat {
    if clauses == [] then 0
    else
      var last := clauses[|clauses| - 1];
      if (if isLimit then last.LimitTo? else last.OffsetBy?) && 1 <= last.slot <= |params|
         && Parse(params[last.slot - 1]).Some?
      then NonNegative(Parse(params[last.slot - 1]).value)
      else BoundValue(clauses[..|clauses| - 1], params, isLimit)
  }

  /** The result of running a query over the joined table, which is given newest
      first with ties in one fixed order. None when a parameter cast fails. SQL
      skips OFFSET rows before LIMIT counts, whichever is written first. */
  function Evaluate(q: Query, catalogue: seq<Row>, ilike: ILikeMatch): Option<seq<Row>> {
    if AllCast(q)
    then Some(Slice(Select(catalogue, q, ilike), BoundValue(q.clauses, q.params, false),
                    BoundValue(q.clauses, q.params, true)))
    else None
  }

  // ----- The direct reading of a request -----

  /** The filters a client asked for: an empty text or list, or no age, asks for nothing. */
  datatype Criteria = Criteria(language: string, search: string, categoryIds: seq<int>, age: Option<int>)

  function IntItems(ids: seq<int>): (items: seq<Json>)
    ensures |items| == |ids|
    ensures forall i :: 0 <= i < |ids| ==> items[i] == JInt(ids[i])
  {
    seq(|ids|, i requires 0 <= i < |ids| => JInt(ids[i]))
  }

  /** `json` states exactly the criteria: a member may be absent or hold the
      filter's null value when the criterion asks for nothing. */
  predicate Encodes(json: map<string, Json>, c: Criteria) {
    && (if "language" in json then json["language"] == JString(c.language) else c.language == "")
    && (if "search" in json then json["search"] == JString(c.search) else c.search == "")
    && (if "categoryIds" in json then json["categoryIds"] == JArray(IntItems(c.categoryIds)) else c.categoryIds == [])
    && (if "age" in json then json["age"] == (if c.age.Some? then JInt(c.age.value) else JString(""))
        else c.age.None?)
  }

  predicate Matches(row: Row, c: Criteria, ilike: ILikeMatch) {
    && row.status.Approved?
    && (c.language != "" ==> row.language == c.language)
    && (c.search != "" ==> ilike(row.text, "%" + c.search + "%"))
    && (c.categoryIds != [] ==> row.categoryId in c.categoryIds)
    && (c.age.Some? ==> row.minAge <= c.age.value)
  }

  function Matching(catalogue: seq<Row>, c: Criteria, ilike: ILikeMatch): (rows: seq<Row>)
    ensures |rows| <= |catalogue|
    ensures forall i :: 0 <= i < |rows| ==> rows[i] in catalogue && Matches(rows[i], c, ilike)
  {
    if catalogue == [] then []
    else
      var n := |catalogue| - 1;
      Matching(catalogue[..n], c, ilike) + if Matches(catalogue[n], c, ilike) then [catalogue[n]] else []
  }

  predicate Int32Criteria(c: Criteria) {
    && (forall i :: 0 <= i < |c.categoryIds| ==> IsInt32(c.categoryIds[i]))
    && (c.age.Some? ==> IsInt32(c.age.value))
  }

  // ----- Meaning of the appended filters -----

  predicate FilterCasts(f: FilterDef, value: Json) {
    FilterValueRepr(value) == f.nullValue || (ParamOf(f, value).Some? && CastSucceeds(f.cast, ParamOf(f, value).value))
  }

  predicate FilterPasses(f: FilterDef, value: Json, ilike: ILikeMatch, row: Row) {
    || FilterValueRepr(value) == f.nullValue
    || (ParamOf(f, value).Some? && ConditionHolds(f.column, f.kind, ParamOf(f, value).value, ilike, row))
  }

  /** Every clause is a condition and names a bound parameter. */
  predicate OnlyConditions(q: Query) {
    forall i :: 0 <= i < |q.clauses| ==> q.clauses[i].Condition? && 1 <= q.clauses[i].slot <= |q.params|
  }

  lemma ConditionMeaning(q: Query, f: FilterDef, param: string, ilike: ILikeMatch, row: Row)
    requires OnlyConditions(q)
    ensures var r := WithCondition(q, f, param);
            && OnlyConditions(r)
            && (AllCast(r) <==> AllCast(q) && CastSucceeds(f.cast, param))
            && (AllHold(r, ilike, row) <==> AllHold(q, ilike, row) && ConditionHolds(f.column, f.kind, param, ilike, row))
  {
    var r := WithCondition(q, f, param);
    var n := |q.clauses|;
    assert r.clauses[n] == Condition(f.column, f.kind, |q.params| + 1, f.cast) && r.params[|q.params|] == param;
    forall i | 0 <= i < n
      ensures r.clauses[i] == q.clauses[i]
      ensures ClauseCasts(r.clauses[i], r.params) == ClauseCasts(q.clauses[i], q.params)
      ensures ClauseHolds(r.clauses[i], r.params, ilike, row) == ClauseHolds(q.clauses[i], q.params, ilike, row)
    {
      assert q.clauses[i].Condition?;
      assert r.params[q.clauses[i].slot - 1] == q.params[q.clauses[i].slot - 1];
    }
  }

  predicate FiltersCast(json: map<string, Json>, filters: seq<FilterDef>) {
    forall i :: 0 <= i < |filters| ==> FilterCasts(filters[i], ValueOf(json, filters[i]))
  }

  predicate FiltersPass(json: map<string, Json>, filters: seq<FilterDef>, ilike: ILikeMatch, row: Row) {
    forall i :: 0 <= i < |filters| ==> FilterPasses(filters[i], ValueOf(json, filters[i]), ilike, row)
  }

  lemma FiltersCastSnoc(json: map<string, Json>, filters: seq<FilterDef>)
    requires filters != []
    ensures var n := |filters| - 1;
            FiltersCast(json, filters)
            <==> FiltersCast(json, filters[..n]) && FilterCasts(filters[n], ValueOf(json, filters[n]))
  {
    var n := |filters| - 1;
    if FiltersCast(json, filters[..n]) && FilterCasts(filters[n], ValueOf(json, filters[n])) {
      forall i | 0 <= i < |filters| ensures FilterCasts(filters[i], ValueOf(json, filters[i])) {
        if i < n {
          assert filters[..n][i] == filters[i];
        }
      }
    }
  }

  lemma FiltersPassSnoc(json: map<string, Json>, filters: seq<FilterDef>, ilike: ILikeMatch, row: Row)
    requires filters != []
    ensures var n := |filters| - 1;
            FiltersPass(json, filters, ilike, row)
            <==> FiltersPass(json, filters[..n], ilike, row)
                 && FilterPasses(filters[n], ValueOf(json, filters[n]), ilike, row)
  {
    var n := |filters| - 1;
    if FiltersPass(json, filters[..n], ilike, row) && FilterPasses(filters[n], ValueOf(json, filters[n]), ilike, row) {
      forall i | 0 <= i < |filters| ensures FilterPasses(filters[i], ValueOf(json, filters[i]), ilike, row) {
        if i < n {
          assert filters[..n][i] == filters[i];
        }
      }
    }
  }

  lemma {:induction false} FiltersMeaning(json: map<string, Json>, filters: seq<FilterDef>, ilike: ILikeMatch, row: Row)
    requires WithFilters(json, filters).Some?
    ensures var q := WithFilters(json, filters).value;
            && OnlyConditions(q)
            && (AllCast(q) <==> FiltersCast(json, filters))
            && (AllHold(q, ilike, row) <==> FiltersPass(json, filters, ilike, row))
  {
    if filters != [] {
      var n := |filters| - 1;
      var front, f := filters[..n], filters[n];
      FiltersMeaning(json, front, ilike, row);
      FiltersCastSnoc(json, filters);
      FiltersPassSnoc(json, filters, ilike, row);
      var q := WithFilters(json, front).value;
      var value := ValueOf(json, f);
      if FilterValueRepr(value) != f.nullValue {
        ConditionMeaning(q, f, ParamOf(f, value).value, ilike, row);
      }
    }
  }

  lemma {:induction false} AsStringsOfInts(ids: seq<int>)
    ensures AsStrings(IntItems(ids)) == Some(PrintAll(ids))
  {
    if ids != [] {
      var front := ids[..|ids| - 1];
      AsStringsOfInts(front);
      assert IntItems(ids)[..|ids| - 1] == IntItems(front);
      assert PrintAll(ids) == PrintAll(front) + [Print(ids[|ids| - 1])];
    }
  }

  lemma CompactOfInts(ids: seq<int>)
    ensures FilterValueRepr(JArray(IntItems(ids))) == "[]" <==> ids == []
  {
    var items := IntItems(ids);
    var inner := CompactItems(items);
    var s := FilterValueRepr(JArray(items));
    assert s == "[" + inner + "]";
    assert |s| == |inner| + 2;
    if ids != [] {
      assert items[0] == JInt(ids[0]) && Compact(items[0]) == Print(ids[0]);
      PrintAlphabet(ids[0]);
      if |items| == 1 {
        assert inner == Compact(items[0]);
      } else {
        assert inner == Compact(items[0]) + "," + CompactItems(items[1..]);
      }
    }
  }

  /** The four filters, each by its own rule. */
  lemma FilterMeanings(json: map<string, Json>, c: Criteria, ilike: ILikeMatch, row: Row)
    requires Encodes(json, c)
    ensures FilterCasts(FILTERS[0], ValueOf(json, FILTERS[0])) && FilterCasts(FILTERS[1], ValueOf(json, FILTERS[1]))
    ensures FilterPasses(FILTERS[0], ValueOf(json, FILTERS[0]), ilike, row)
            <==> (c.language != "" ==> row.language == c.language)
    ensures FilterPasses(FILTERS[1], ValueOf(json, FILTERS[1]), ilike, row)
            <==> (c.search != "" ==> ilike(row.text, "%" + c.search + "%"))
  {
    assert ValueOf(json, FILTERS[0]) == JString(c.language);
    assert ValueOf(json, FILTERS[1]) == JString(c.search);
  }

  lemma CategoryParam(json: map<string, Json>, c: Criteria)
    requires Encodes(json, c)
    ensures var param := ParamOf(FILTERS[2], ValueOf(json, FILTERS[2]));
            param.Some? && ParseInts(param.value) == Some(c.categoryIds)
    ensures FilterValueRepr(ValueOf(json, FILTERS[2])) == FILTERS[2].nullValue <==> c.categoryIds == []
  {
    var value := JArray(IntItems(c.categoryIds));
    assert IntItems([]) == [];
    assert ValueOf(json, FILTERS[2]) == value;
    AsStringsOfInts(c.categoryIds);
    CompactOfInts(c.categoryIds);
    IntsRoundTrip(c.categoryIds);
  }

  lemma CategoryMeaning(json: map<string, Json>, c: Criteria, ilike: ILikeMatch, row: Row)
    requires Encodes(json, c)
    ensures ParamOf(FILTERS[2], ValueOf(json, FILTERS[2])).Some?
    ensures FilterCasts(FILTERS[2], ValueOf(json, FILTERS[2]))
            <==> forall i :: 0 <= i < |c.categoryIds| ==> IsInt32(c.categoryIds[i])
    ensures FilterCasts(FILTERS[2], ValueOf(json, FILTERS[2])) ==>
              (FilterPasses(FILTERS[2], ValueOf(json, FILTERS[2]), ilike, row)
               <==> (c.categoryIds != [] ==> row.categoryId in c.categoryIds))
  {
    CategoryParam(json, c);
    var f, value := FILTERS[2], ValueOf(json, FILTERS[2]);
    var param := ParamOf(f, value).value;
    assert f.cast == "::int[]" && f.kind == InArray && f.column == CategoryId;
    assert CastSucceeds(f.cast, param) <==> Int32s(param).Some?;
  }

  lemma AgeMeaning(json: map<string, Json>, c: Criteria, ilike: ILikeMatch, row: Row)
    requires Encodes(json, c)
    ensures ParamOf(FILTERS[3], ValueOf(json, FILTERS[3])).Some?
    ensures FilterCasts(FILTERS[3], ValueOf(json, FILTERS[3])) <==> (c.age.Some? ==> IsInt32(c.age.value))
    ensures FilterCasts(FILTERS[3], ValueOf(json, FILTERS[3])) ==>
              (FilterPasses(FILTERS[3], ValueOf(json, FILTERS[3]), ilike, row)
               <==> (c.age.Some? ==> row.minAge <= c.age.value))
  {
    if c.age.Some? {
      assert ValueOf(json, FILTERS[3]) == JInt(c.age.value);
      ParsePrint(c.age.value);
      PrintAlphabet(c.age.value);
    } else {
      assert ValueOf(json, FILTERS[3]) == JString("");
    }
  }

  lemma FiltersConvert(json: map<string, Json>, c: Criteria)
    requires Encodes(json, c)
    ensures WithFilters(json, FILTERS).Some?
  {
    var row := Row(0, "", "", 0, "", 0, Approved, None);
    FilterMeanings(json, c, (_, _) => true, row);
    CategoryMeaning(json, c, (_, _) => true, row);
    AgeMeaning(json, c, (_, _) => true, row);
    assert forall i :: 0 <= i < 4 ==> Convertible(FILTERS[i], ValueOf(json, FILTERS[i]));
    ConvertibleFilters(json, FILTERS);
  }

  predicate Convertible(f: FilterDef, value: Json) {
    FilterValueRepr(value) == f.nullValue || ParamOf(f, value).Some?
  }

  lemma {:induction false} ConvertibleFilters(json: map<string, Json>, filters: seq<FilterDef>)
    requires forall i :: 0 <= i < |filters| ==> Convertible(filters[i], ValueOf(json, filters[i]))
    ensures WithFilters(json, filters).Some?
  {
    if filters != [] {
      ConvertibleFilters(json, filters[..|filters| - 1]);
      assert Convertible(filters[|filters| - 1], ValueOf(json, filters[|filters| - 1]));
    }
  }

  /** WHERE part: the casts succeed exactly for 32-bit criteria, and then a row
      is selected exactly when it matches. */
  lemma WhereMeaning(json: map<string, Json>, c: Criteria, ilike: ILikeMatch, row: Row)
    requires Encodes(json, c)
    ensures WithFilters(json, FILTERS).Some?
    ensures var q := WithFilters(json, FILTERS).value;
            && OnlyConditions(q)
            && (AllCast(q) <==> Int32Criteria(c))
            && (Int32Criteria(c) && row.status.Approved? ==> (AllHold(q, ilike, row) <==> Matches(row, c, ilike)))
  {
    FiltersConvert(json, c);
    FiltersMeaning(json, FILTERS, ilike, row);
    FourCasts(json, FILTERS);
    FourPasses(json, FILTERS, ilike, row);
    FilterMeanings(json, c, ilike, row);
    CategoryMeaning(json, c, ilike, row);
    AgeMeaning(json, c, ilike, row);
  }

  lemma FourCasts(json: map<string, Json>, filters: seq<FilterDef>)
    requires |filters| == 4
    ensures FiltersCast(json, filters)
            <==> && FilterCasts(filters[0], ValueOf(json, filters[0])) && FilterCasts(filters[1], ValueOf(json, filters[1]))
                 && FilterCasts(filters[2], ValueOf(json, filters[2])) && FilterCasts(filters[3], ValueOf(json, filters[3]))
  {
  }

  lemma FourPasses(json: map<string, Json>, filters: seq<FilterDef>, ilike: ILikeMatch, row: Row)
    requires |filters| == 4
    ensures FiltersPass(json, filters, ilike, row)
            <==> && FilterPasses(filters[0], ValueOf(json, filters[0]), ilike, row)
                 && FilterPasses(filters[1], ValueOf(json, filters[1]), ilike, row)
                 && FilterPasses(filters[2], ValueOf(json, filters[2]), ilike, row)
                 && FilterPasses(filters[3], ValueOf(json, filters[3]), ilike, row)
  {
  }

  // ----- Meaning of ORDER BY, LIMIT and OFFSET -----

  lemma {:induction false} NoBound(clauses: seq<Clause>, params: seq<string>, isLimit: bool)
    requires forall i :: 0 <= i < |clauses| ==> !(if isLimit then clauses[i].LimitTo? else clauses[i].OffsetBy?)
    ensures BoundValue(clauses, params, isLimit) == 0
  {
    if clauses != [] {
      NoBound(clauses[..|clauses| - 1], params, isLimit);
    }
  }

  /** Appending one window clause leaves the conditions alone and sets its bound. */
  lemma SlotMeaning(q: Query, positive: int, isLimit: bool, ilike: ILikeMatch, row: Row)
    requires SlotsBound(q) && Lacks(q, isLimit)
    ensures var r := WithSlot(q, positive, isLimit);
            && (AllCast(r) <==> AllCast(q))
            && (AllHold(r, ilike, row) <==> AllHold(q, ilike, row))
            && BoundValue(r.clauses, r.params, isLimit) == NonNegative(positive)
  {
    NoBound(q.clauses, q.params, isLimit);
    if positive > 0 {
      var r := WithSlot(q, positive, isLimit);
      ParsePrint(positive);
      assert r.params[|q.params|] == Print(positive);
      forall i | 0 <= i < |q.clauses|
        ensures r.clauses[i] == q.clauses[i]
        ensures ClauseCasts(r.clauses[i], r.params) == ClauseCasts(q.clauses[i], q.params)
        ensures ClauseHolds(r.clauses[i], r.params, ilike, row) == ClauseHolds(q.clauses[i], q.params, ilike, row)
      {
        assert q.clauses[i].OrderByCreated? || r.params[q.clauses[i].slot - 1] == q.params[q.clauses[i].slot - 1];
      }
      var last := r.clauses[|q.clauses|];
      assert last.slot == |q.params| + 1;
      assert ClauseCasts(last, r.params) && ClauseHolds(last, r.params, ilike, row);
    }
  }

  /** A later clause of the other kind does not disturb a bound. */
  lemma {:induction false} BoundExtends(clauses: seq<Clause>, params: seq<string>, extra: seq<string>, isLimit: bool)
    requires forall i :: 0 <= i < |clauses| ==> clauses[i].OrderByCreated? || 1 <= clauses[i].slot <= |params|
    ensures BoundValue(clauses, params + extra, isLimit) == BoundValue(clauses, params, isLimit)
  {
    if clauses != [] {
      var last := clauses[|clauses| - 1];
      assert last.OrderByCreated? || (params + extra)[last.slot - 1] == params[last.slot - 1];
      BoundExtends(clauses[..|clauses| - 1], params, extra, isLimit);
    }
  }

  predicate SlotsBound(q: Query) {
    forall i :: 0 <= i < |q.clauses| ==> q.clauses[i].OrderByCreated? || 1 <= q.clauses[i].slot <= |q.params|
  }

  predicate Lacks(q: Query, isLimit: bool) {
    forall i :: 0 <= i < |q.clauses| ==> !(if isLimit then q.clauses[i].LimitTo? else q.clauses[i].OffsetBy?)
  }

  lemma SlotKeeps(q: Query, positive: int, isLimit: bool)
    requires SlotsBound(q)
    ensures var r := WithSlot(q, positive, isLimit);
            && SlotsBound(r)
            && (Lacks(q, !isLimit) ==> Lacks(r, !isLimit))
            && BoundValue(r.clauses, r.params, !isLimit) == BoundValue(q.clauses, q.params, !isLimit)
  {
    if positive > 0 {
      var r := WithSlot(q, positive, isLimit);
      assert r.clauses[..|r.clauses| - 1] == q.clauses;
      BoundExtends(q.clauses, q.params, [Print(positive)], !isLimit);
    }
  }

  lemma WindowMeaning(q: Query, offset: int, limit: int, ilike: ILikeMatch, row: Row)
    requires OnlyConditions(q)
    ensures var r := Windowed(q, offset, limit);
            && (AllCast(r) <==> AllCast(q))
            && (AllHold(r, ilike, row) <==> AllHold(q, ilike, row))
            && BoundValue(r.clauses, r.params, false) == NonNegative(offset)
            && BoundValue(r.clauses, r.params, true) == NonNegative(limit)
  {
    var q1 := Ordered(q);
    OrderedMeaning(q, ilike, row);
    SlotMeaning(q1, limit, true, ilike, row);
    SlotKeeps(q1, limit, true);
    var q2 := WithSlot(q1, limit, true);
    SlotMeaning(q2, offset, false, ilike, row);
    SlotKeeps(q2, offset, false);
  }

  lemma OrderedMeaning(q: Query, ilike: ILikeMatch, row: Row)
    requires OnlyConditions(q)
    ensures var r := Ordered(q);
            && (AllCast(r) <==> AllCast(q))
            && (AllHold(r, ilike, row) <==> AllHold(q, ilike, row))
            && SlotsBound(r) && Lacks(r, true) && Lacks(r, false)
  {
    var r := Ordered(q);
    assert r.clauses[|q.clauses|] == OrderByCreated;
    assert forall i :: 0 <= i < |q.clauses| ==> r.clauses[i] == q.clauses[i];
  }

  lemma {:induction false} SelectWindowed(q: Query, offset: int, limit: int, catalogue: seq<Row>, ilike: ILikeMatch)
    requires OnlyConditions(q)
    ensures Select(catalogue, Windowed(q, offset, limit), ilike) == Select(catalogue, q, ilike)
  {
    if catalogue != [] {
      var n := |catalogue| - 1;
      SelectWindowed(q, offset, limit, catalogue[..n], ilike);
      WindowMeaning(q, offset, limit, ilike, catalogue[n]);
    }
  }

  /** For any conditions at all, the window clauses page the selected rows. */
  lemma WindowedEvaluation(q: Query, offset: int, limit: int, catalogue: seq<Row>, ilike: ILikeMatch)
    requires OnlyConditions(q)
    ensures Evaluate(Windowed(q, offset, limit), catalogue, ilike) ==
            if AllCast(q) then Some(Slice(Select(catalogue, q, ilike), NonNegative(offset), NonNegative(limit))) else None
  {
    WindowMeaning(q, offset, limit, ilike, Row(0, "", "", 0, "", 0, Approved, None));
    SelectWindowed(q, offset, limit, catalogue, ilike);
  }

  lemma {:induction false} SelectIsMatching(json: map<string, Json>, c: Criteria, catalogue: seq<Row>, ilike: ILikeMatch)
    requires Encodes(json, c) && Int32Criteria(c) && WithFilters(json, FILTERS).Some?
    ensures Select(catalogue, WithFilters(json, FILTERS).value, ilike) == Matching(catalogue, c, ilike)
  {
    if catalogue != [] {
      var n := |catalogue| - 1;
      SelectIsMatching(json, c, catalogue[..n], ilike);
      WhereMeaning(json, c, ilike, catalogue[n]);
    }
  }

  /** Running the built query returns the requested page of the matching rows,
      for every request whose numbers fit PostgreSQL's 32-bit integers, and
      fails with a cast error for exactly the others. */
  lemma BuiltQueryMeaning(json: map<string, Json>, c: Criteria, offset: int, limit: int,
                          catalogue: seq<Row>, ilike: ILikeMatch)
    requires Encodes(json, c)
    ensures Built(json, offset, limit).Some?
    ensures Evaluate(Built(json, offset, limit).value, catalogue, ilike) ==
            if Int32Criteria(c)
            then Some(Slice(Matching(catalogue, c, ilike), NonNegative(offset), NonNegative(limit)))
            else None
  {
    WhereMeaning(json, c, ilike, Row(0, "", "", 0, "", 0, Approved, None));
    WindowedEvaluation(WithFilters(json, FILTERS).value, offset, limit, catalogue, ilike);
    if Int32Criteria(c) {
      SelectIsMatching(json, c, catalogue, ilike);
    }
  }
}
