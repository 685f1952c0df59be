/** The dynamic search query: parameterised filters appended to an SQL text, and
    what PostgreSQL makes of the finished text and its parameter list. */
module SearchQuery {
  import opened Wrappers
  import opened Decimal
  import opened ArrayLiteral

  /** Filter values of the request body: scalars, null and arrays. */
  datatype Json = JNull | JBool(b: bool) | JInt(n: int) | JString(s: string) | JArray(items: seq<Json>)

  datatype Column = Language | Text | CategoryId | MinAge

  datatype FilterKind = Equal | GreaterEq | LessEq | ILike | InArray

  datatype FilterDef = FilterDef(jsonKey: string, column: Column, kind: FilterKind, cast: string, nullValue: string)

  const FILTERS: seq<FilterDef> := [
    FilterDef("language", Language, Equal, "", ""),
    FilterDef("search", Text, ILike, "", ""),
    FilterDef("categoryIds", CategoryId, InArray, "::int[]", "[]"),
    FilterDef("age", MinAge, LessEq, "::int", "")
  ]

  const SELECT_LIST := "SELECT q.id, q.text, q.language, " + "q.category_id, q.special_category, "
                       + "q.min_age, c.name AS category_name "
  const FROM_JOIN := "FROM questions q " + "LEFT JOIN categories c " + "ON c.id = q.category_id "
                     + "AND c.language = q.language "
  const WHERE_APPROVED := "WHERE 1=1 AND " + "q.submission_status = 'approved'"

  const HEAD: string := SELECT_LIST + FROM_JOIN + WHERE_APPROVED

  function ColumnName(column: Column): string {
    match column
    case Language => "q.language"
    case Text => "text"
    case CategoryId => "category_id"
    case MinAge => "min_age"
  }

  // ----- JSON values -----

  /** Compact serialisation; only ever compared with "" and "[]", so the escapes
      inside quoted strings do not matter. */
  function Compact(value: Json): string {
    match value
    case JNull => "null"
    case JBool(b) => if b then "true" else "false"
    case JInt(n) => Print(n)
    case JString(s) => Quote(s)
    case JArray(items) => "[" + CompactItems(items) + "]"
  }

  function CompactItems(items: seq<Json>): string {
    if items == [] then ""
    else if |items| == 1 then Compact(items[0])
    else Compact(items[0]) + "," + CompactItems(items[1..])
  }

  function FilterValueRepr(value: Json): string {
    if value.JString? then value.s else Compact(value)
  }

  /** `asString`; an array has no string form and makes it throw. */
  function AsString(value: Json): Option<string> {
    match value
    case JNull => Some("")
    case JBool(b) => Some(if b then "true" else "false")
    case JInt(n) => Some(Print(n))
    case JString(s) => Some(s)
    case JArray(_) => None
  }

  function AsStrings(items: seq<Json>): (r: Option<seq<string>>)
    ensures r.Some? ==> |r.value| == |items|
  {
    if items == [] then Some([])
    else
      var front, last := AsStrings(items[..|items| - 1]), AsString(items[|items| - 1]);
      if front.None? || last.None? then None else Some(front.value + [last.value])
  }

  lemma {:induction false} AsStringsFront(items: seq<Json>, k: nat)
    requires k <= |items| && AsStrings(items).Some?
    ensures AsStrings(items[..k]).Some?
  {
    if k < |items| {
      var front := items[..|items| - 1];
      AsStringsFront(front, k);
      assert front[..k] == items[..k];
    } else {
      assert items[..k] == items;
    }
  }

  // ----- Clauses -----

  /** The parts of the finished text after HEAD; `slot` is the placeholder number. */
  datatype Clause =
    | Condition(column: Column, kind: FilterKind, slot: nat, cast: string)
    | OrderByCreated
    | LimitTo(slot: nat)
    | OffsetBy(slot: nat)

  datatype Query = Query(clauses: seq<Clause>, params: seq<string>)

  function Operator(kind: FilterKind): string {
    match kind
    case Equal => " = "
    case GreaterEq => " >= "
    case LessEq => " <= "
    case ILike => " ILIKE "
    case InArray => " = ANY("
  }

  /** The text before and after the placeholder of a clause. */
  function Before(c: Clause): string {
    match c
    case Condition(column, kind, _, _) => " AND " + ColumnName(column) + Operator(kind)
    case OrderByCreated => " ORDER BY q.created_at DESC"
    case LimitTo(_) => " LIMIT "
    case OffsetBy(_) => " OFFSET "
  }

  function After(c: Clause): string {
    if !c.Condition? || c.kind.ILike? then "" else if c.kind.InArray? then c.cast + ")" else c.cast
  }

  function RenderClause(c: Clause): string {
    if c.OrderByCreated? then Before(c) else Before(c) + ("$" + Print(c.slot) + After(c))
  }

  /** The text that begins with `head` and goes on with the clauses. */
  function RenderFrom(head: string, clauses: seq<Clause>): string {
    if clauses == [] then head
    else RenderFrom(head, clauses[..|clauses| - 1]) + RenderClause(clauses[|clauses| - 1])
  }

  function Render(clauses: seq<Clause>): string {
    RenderFrom(HEAD, clauses)
  }

  lemma RenderSnoc(head: string, clauses: seq<Clause>, c: Clause)
    ensures RenderFrom(head, clauses + [c]) == RenderFrom(head, clauses) + RenderClause(c)
  {
    assert (clauses + [c])[..|clauses|] == clauses;
  }

  /** The text bound for a filter value; None when the conversion throws. A value
      that is not an array has no elements to iterate over. */
  function ParamOf(f: FilterDef, value: Json): Option<string> {
    match f.kind
    case InArray =>
      var items := if value.JArray? then value.items else [];
      var parts := AsStrings(items);
      if parts.None? then None else Some(Literal(parts.value))
    case ILike =>
      var s := AsString(value);
      if s.None? then None else Some("%" + s.value + "%")
    case _ => AsString(value)
  }

  function WithCondition(q: Query, f: FilterDef, param: string): Query {
    Query(q.clauses + [Condition(f.column, f.kind, |q.params| + 1, f.cast)], q.params + [param])
  }

  function Appended(q: Query, f: FilterDef, value: Json): Option<Query> {
    if FilterValueRepr(value) == f.nullValue then Some(q)
    else
      var param := ParamOf(f, value);
      if param.None? then None
      else Some(WithCondition(q, f, param.value))
  }

  function ValueOf(json: map<string, Json>, f: FilterDef): Json {
    if f.jsonKey in json then json[f.jsonKey]
    else if f.kind.InArray? then JArray([])
    else JString(f.nullValue)
  }

  function WithFilters(json: map<string, Json>, filters: seq<FilterDef>): Option<Query> {
    if filters == [] then Some(Query([], []))
    else
      var q := WithFilters(json, filters[..|filters| - 1]);
      var f := filters[|filters| - 1];
      if q.None? then None else Appended(q.value, f, ValueOf(json, f))
  }

  function WithSlot(q: Query, positive: int, isLimit: bool): Query {
    if positive <= 0 then q
    else
      var slot := |q.params| + 1;
      Query(q.clauses + [if isLimit then LimitTo(slot) else OffsetBy(slot)], q.params + [Print(positive)])
  }

  function Ordered(q: Query): Query {
    q.(clauses := q.clauses + [OrderByCreated])
  }

  function Windowed(q: Query, offset: int, limit: int): Query {
    WithSlot(WithSlot(Ordered(q), limit, true), offset, false)
  }

  /** The finished query, or None when a filter value cannot be converted. */
  function Built(json: map<string, Json>, offset: int, limit: int): Option<Query> {
    var q := WithFilters(json, FILTERS);
    if q.None? then None
    else Some(Windowed(q.value, offset, limit))
  }

  method CollectStrings(items: seq<Json>) returns (elems: Option<seq<string>>)
    ensures elems == AsStrings(items)
  {
    var out: seq<string> := [];
    for i := 0 to |items|
      invariant AsStrings(items[..i]) == Some(out)
    {
      assert items[..i + 1][..i] == items[..i];
      var elem := AsString(items[i]);
      if elem.None? {
        if AsStrings(items).Some? {
          AsStringsFront(items, i + 1);
        }
        return None;
      }
      out := out + [elem.value];
    }
    assert items[..|items|] == items;
    return Some(out);
  }

  /** The three variables `appendFilter` updates through references. */
  class QueryBuilder {
    var sql: string
    var params: seq<string>
    var idx: int
    ghost var clauses: seq<Clause>  // what `sql` says

    ghost predicate Valid()
      reads this
    {
      sql == Render(clauses) && idx == |params| + 1
    }

    ghost function Contents(): Query
      reads this
    {
      Query(clauses, params)
    }

    constructor ()
      ensures Valid() && Contents() == Query([], [])
    {
      sql, params, idx, clauses := HEAD, [], 1, [];
    }

    method Push(fragment: string, param: string, ghost clause: Clause)
      requires Valid() && fragment == RenderClause(clause)
      modifies this
      ensures Valid() && Contents() == Query(old(clauses) + [clause], old(params) + [param])
    {
      RenderSnoc(HEAD, clauses, clause);
      sql := sql + fragment;
      params := params + [param];
      idx := idx + 1;
      clauses := clauses + [clause];
    }

    /** `ok` is false when `asString` throws; the request then fails as a whole. */
    method AppendFilter(f: FilterDef, value: Json) returns (ok: bool)
      requires Valid()
      modifies this
      ensures ok <==> Appended(old(Contents()), f, value).Some?
      ensures ok ==> Valid() && Some(Contents()) == Appended(old(Contents()), f, value)
    {
      if FilterValueRepr(value) == f.nullValue {
        return true;
      }
      ok := AppendCondition(f, value);
    }

    method AppendCondition(f: FilterDef, value: Json) returns (ok: bool)
      requires Valid()
      modifies this
      ensures ok <==> ParamOf(f, value).Some?
      ensures ok ==> Valid() && Contents() == WithCondition(old(Contents()), f, ParamOf(f, value).value)
    {
      ghost var clause := Condition(f.column, f.kind, |params| + 1, f.cast);
      var text := AsString(value);
      var column := " AND " + ColumnName(f.column);
      match f.kind {
        case Equal =>
          if text.None? { return false; }
          Push(column + " = " + ("$" + Print(idx) + f.cast), text.value, clause);
        case GreaterEq =>
          if text.None? { return false; }
          Push(column + " >= " + ("$" + Print(idx) + f.cast), text.value, clause);
        case LessEq =>
          if text.None? { return false; }
          Push(column + " <= " + ("$" + Print(idx) + f.cast), text.value, clause);
        case ILike =>
          if text.None? { return false; }
          Push(column + " ILIKE " + ("$" + Print(idx) + ""), "%" + text.value + "%", clause);
        case InArray =>
          var elems := CollectStrings(if value.JArray? then value.items else []);
          if elems.None? { return false; }
          Push(column + " = ANY(" + ("$" + Print(idx) + (f.cast + ")")), Literal(elems.value), clause);
      }
      return true;
    }

    method AppendFilters(json: map<string, Json>, filters: seq<FilterDef>) returns (ok: bool)
      requires Valid() && Contents() == Query([], [])
      modifies this
      ensures ok <==> WithFilters(json, filters).Some?
      ensures ok ==> Valid() && Some(Contents()) == WithFilters(json, filters)
    {
      for i := 0 to |filters|
        invariant Valid() && Some(Contents()) == WithFilters(json, filters[..i])
      {
        assert filters[..i + 1][..i] == filters[..i];
        var f := filters[i];
        var value;
        if f.jsonKey in json {
          value := json[f.jsonKey];
        } else if f.kind == InArray {
          value := JArray([]);
        } else {
          value := JString(f.nullValue);
        }
        ok := AppendFilter(f, value);
        if !ok {
          FailedFilter(json, filters, i + 1);
          return;
        }
      }
      assert filters[..|filters|] == filters;
      ok := true;
    }

    method AppendOrder()
      requires Valid()
      modifies this
      ensures Valid() && Contents() == Ordered(old(Contents()))
    {
      RenderSnoc(HEAD, clauses, OrderByCreated);
      sql := sql + " ORDER BY q.created_at DESC";
      clauses := clauses + [OrderByCreated];
    }

    method AppendLimit(limit: int)
      requires Valid()
      modifies this
      ensures Valid() && Contents() == WithSlot(old(Contents()), limit, true)
    {
      if limit > 0 {
        Push(" LIMIT " + ("$" + Print(idx) + ""), Print(limit), LimitTo(|params| + 1));
      }
    }

    method AppendOffset(offset: int)
      requires Valid()
      modifies this
      ensures Valid() && Contents() == WithSlot(old(Contents()), offset, false)
    {
      if offset > 0 {
        Push(" OFFSET " + ("$" + Print(idx) + ""), Print(offset), OffsetBy(|params| + 1));
      }
    }

    method Build(json: map<string, Json>, offset: int, limit: int) returns (ok: bool)
      modifies this
      ensures ok <==> Built(json, offset, limit).Some?
      ensures ok ==> Valid() && Some(Contents()) == Built(json, offset, limit)
    {
      sql, params, idx, clauses := HEAD, [], 1, [];
      ok := AppendFilters(json, FILTERS);
      if ok {
        AppendOrder();
        AppendLimit(limit);
        AppendOffset(offset);
      }
    }
  }

  lemma {:induction false} FailedFilter(json: map<string, Json>, filters: seq<FilterDef>, k: nat)
    requires k <= |filters| && WithFilters(json, filters[..k]).None?
    ensures WithFilters(json, filters).None?
  {
    if k < |filters| {
      var front := filters[..|filters| - 1];
      assert front[..k] == filters[..k];
      FailedFilter(json, front, k);
    } else {
      assert filters[..k] == filters;
    }
  }

  // ----- Placeholders in the text -----

  function DigitRun(s: string): (n: nat)
    ensures n <= |s| && AllDigits(s[..n])
    ensures n < |s| ==> !IsDigit(s[n])
  {
    if s == [] || !IsDigit(s[0]) then 0 else 1 + DigitRun(s[1..])
  }

  /** Every `$<number>` of a statement, left to right, as the server numbers them. */
  function Placeholders(s: string): seq<int> {
    if s == [] then []
    else if s[0] != '$' then Placeholders(s[1..])
    else
      var n := DigitRun(s[1..]);
      [ParseNat(s[1..][..n])] + Placeholders(s[1..][n..])
  }

  lemma {:induction false} NoPlaceholder(s: string)
    requires '$' !in s
    ensures Placeholders(s) == []
  {
    if s != [] {
      NoPlaceholder(s[1..]);
    }
  }

  lemma {:induction false} DigitRunAppend(s: string, t: string)
    requires t != [] ==> !IsDigit(t[0])
    ensures DigitRun(s + t) == DigitRun(s)
  {
    if s == [] {
      assert s + t == t;
    } else if IsDigit(s[0]) {
      assert (s + t)[1..] == s[1..] + t;
      DigitRunAppend(s[1..], t);
    }
  }

  lemma {:induction false} PlaceholdersAppend(s: string, t: string)
    requires t != [] ==> !IsDigit(t[0])
    ensures Placeholders(s + t) == Placeholders(s) + Placeholders(t)
    decreases |s|
  {
    if s == [] {
      assert s + t == t;
    } else {
      var rest := s[1..];
      assert (s + t)[1..] == rest + t;
      if s[0] != '$' {
        PlaceholdersAppend(rest, t);
      } else {
        DigitRunAppend(rest, t);
        var n := DigitRun(rest);
        assert (rest + t)[..n] == rest[..n] && (rest + t)[n..] == rest[n..] + t;
        PlaceholdersAppend(rest[n..], t);
      }
    }
  }

  lemma {:induction false} DigitRunOfDigits(s: string)
    requires AllDigits(s)
    ensures DigitRun(s) == |s|
  {
    if s != [] {
      DigitRunOfDigits(s[1..]);
    }
  }

  /** A fragment with one placeholder: plain text, `$slot`, plain text. */
  lemma OnePlaceholder(before: string, slot: nat, after: string)
    requires '$' !in before && '$' !in after && (after != [] ==> !IsDigit(after[0]))
    ensures Placeholders(before + ("$" + Print(slot) + after)) == [slot]
  {
    var digits := Print(slot);
    var tail := "$" + digits + after;
    assert tail[1..] == digits + after;
    DigitRunAppend(digits, after);
    DigitRunOfDigits(digits);
    assert tail[1..][..|digits|] == digits && tail[1..][|digits|..] == after;
    ParsePrintNat(slot);
    NoPlaceholder(after);
    NoPlaceholder(before);
    PlaceholdersAppend(before, tail);
  }

  /** The placeholder a clause contributes. */
  function Slots(c: Clause): seq<int> {
    if c.OrderByCreated? then [] else [c.slot]
  }

  predicate PlainCast(cast: string) {
    '$' !in cast && (cast != "" ==> !IsDigit(cast[0]))
  }

  predicate PlainClause(c: Clause) {
    c.Condition? ==> PlainCast(c.cast)
  }

  lemma ClauseTextPlain(c: Clause)
    requires PlainClause(c)
    ensures '$' !in Before(c) && Before(c)[0] == ' '
    ensures '$' !in After(c) && (After(c) != [] ==> !IsDigit(After(c)[0]))
  {
    if c.Condition? {
      assert '$' !in " AND " && '$' !in ColumnName(c.column) && '$' !in Operator(c.kind);
    }
  }

  lemma ClausePlaceholders(c: Clause)
    requires PlainClause(c)
    ensures Placeholders(RenderClause(c)) == Slots(c)
    ensures RenderClause(c)[0] == ' '
  {
    ClauseTextPlain(c);
    if c.OrderByCreated? {
      NoPlaceholder(Before(c));
    } else {
      OnePlaceholder(Before(c), c.slot, After(c));
    }
  }

  lemma SelectListPlain()
    ensures '$' !in SELECT_LIST
  {
  }

  lemma FromJoinPlain()
    ensures '$' !in FROM_JOIN
  {
  }

  lemma WhereApprovedPlain()
    ensures '$' !in WHERE_APPROVED
  {
  }

  function AllSlots(clauses: seq<Clause>): seq<int> {
    if clauses == [] then [] else AllSlots(clauses[..|clauses| - 1]) + Slots(clauses[|clauses| - 1])
  }

  lemma {:induction false} RenderPlaceholders(head: string, clauses: seq<Clause>)
    requires Placeholders(head) == []
    requires forall i :: 0 <= i < |clauses| ==> PlainClause(clauses[i])
    ensures Placeholders(RenderFrom(head, clauses)) == AllSlots(clauses)
  {
    if clauses != [] {
      var front, last := clauses[..|clauses| - 1], clauses[|clauses| - 1];
      assert PlainClause(last);
      RenderPlaceholders(head, front);
      ClausePlaceholders(last);
      PlaceholdersAppend(RenderFrom(head, front), RenderClause(last));
    }
  }

  lemma HeadPlain()
    ensures Placeholders(HEAD) == []
  {
    SelectListPlain();
    FromJoinPlain();
    WhereApprovedPlain();
    NoPlaceholder(HEAD);
  }

  function OneTo(n: nat): (s: seq<int>)
    ensures |s| == n
    ensures forall i :: 0 <= i < n ==> s[i] == i + 1
  {
    if n == 0 then [] else OneTo(n - 1) + [n]
  }

  ghost predicate Numbered(q: Query) {
    && AllSlots(q.clauses) == OneTo(|q.params|)
    && forall i :: 0 <= i < |q.clauses| ==> PlainClause(q.clauses[i])
  }

  lemma AllSlotsSnoc(clauses: seq<Clause>, c: Clause)
    ensures AllSlots(clauses + [c]) == AllSlots(clauses) + Slots(c)
  {
    assert (clauses + [c])[..|clauses|] == clauses;
  }

  lemma NumberedSnoc(q: Query, c: Clause, param: string)
    requires Numbered(q) && PlainClause(c) && Slots(c) == [|q.params| + 1]
    ensures Numbered(Query(q.clauses + [c], q.params + [param]))
  {
    AllSlotsSnoc(q.clauses, c);
  }

  lemma AppendedNumbered(q: Query, f: FilterDef, value: Json)
    requires Numbered(q) && PlainCast(f.cast) && Appended(q, f, value).Some?
    ensures Numbered(Appended(q, f, value).value)
  {
    var param := ParamOf(f, value);
    if param.Some? {
      NumberedSnoc(q, Condition(f.column, f.kind, |q.params| + 1, f.cast), param.value);
    }
  }

  lemma {:induction false} FiltersNumbered(json: map<string, Json>, filters: seq<FilterDef>)
    requires forall i :: 0 <= i < |filters| ==> PlainCast(filters[i].cast)
    requires WithFilters(json, filters).Some?
    ensures Numbered(WithFilters(json, filters).value)
  {
    if filters != [] {
      var front, f := filters[..|filters| - 1], filters[|filters| - 1];
      FiltersNumbered(json, front);
      AppendedNumbered(WithFilters(json, front).value, f, ValueOf(json, f));
    }
  }

  lemma WindowNumbered(q: Query, offset: int, limit: int)
    requires Numbered(q)
    ensures Numbered(Windowed(q, offset, limit))
  {
    AllSlotsSnoc(q.clauses, OrderByCreated);
    var q1 := Ordered(q);
    assert Numbered(q1);
    var q2 := WithSlot(q1, limit, true);
    if limit > 0 {
      NumberedSnoc(q1, LimitTo(|q1.params| + 1), Print(limit));
    }
    if offset > 0 {
      NumberedSnoc(q2, OffsetBy(|q2.params| + 1), Print(offset));
    }
  }

  lemma FilterCastsPlain()
    ensures forall i :: 0 <= i < |FILTERS| ==> PlainCast(FILTERS[i].cast)
  {
  }

  /** For every request body, the finished text holds the placeholders $1..$n,
      each once and in order, where n is the number of bound parameters. */
  lemma PlaceholdersMatchParams(json: map<string, Json>, offset: int, limit: int)
    requires Built(json, offset, limit).Some?
    ensures var q := Built(json, offset, limit).value;
            Placeholders(Render(q.clauses)) == OneTo(|q.params|)
  {
    FilterCastsPlain();
    FiltersNumbered(json, FILTERS);
    var q := WithFilters(json, FILTERS).value;
    WindowNumbered(q, offset, limit);
    HeadPlain();
    RenderPlaceholders(HEAD, Windowed(q, offset, limit).clauses);
  }
}
