/** The finished SQL text as the server reads it. This reader has its own table of
    column names, operators and keywords; that it recovers the clauses the handler
    meant is what ties the written text to the filters. */
module SearchText {
  import opened Wrappers
  import opened Decimal
  import opened Paging
  import opened Catalogue
  import opened SearchQuery
  import opened QueryEvaluation

  /** The rows the text starts from: approved questions with their category names. */
  const START: string := "SELECT q.id, q.text, q.language, " + "q.category_id, q.special_category, "
                         + "q.min_age, c.name AS category_name "
                         + ("FROM questions q " + "LEFT JOIN categories c " + "ON c.id = q.category_id "
                            + "AND c.language = q.language ")
                         + ("WHERE 1=1 AND " + "q.submission_status = 'approved'")

  function ReadColumn(s: string): Option<(Column, string)> {
    if "q.language" <= s then Some((Language, s[10..]))
    else if "text" <= s then Some((Text, s[4..]))
    else if "category_id" <= s then Some((CategoryId, s[11..]))
    else if "min_age" <= s then Some((MinAge, s[7..]))
    else None
  }

  function ReadOperator(s: string): Option<(FilterKind, string)> {
    if " = ANY(" <= s then Some((InArray, s[7..]))
    else if " = " <= s then Some((Equal, s[3..]))
    else if " >= " <= s then Some((GreaterEq, s[4..]))
    else if " <= " <= s then Some((LessEq, s[4..]))
    else if " ILIKE " <= s then Some((ILike, s[7..]))
    else None
  }

  function ReadSlot(s: string): Option<(nat, string)> {
    if s == "" || s[0] != '$' then None
    else
      var n := DigitRun(s[1..]);
      if n == 0 then None else Some((ParseNat(s[1..][..n]), s[1..][n..]))
  }

  function ReadCast(s: string): (string, string) {
    if "::int[]" <= s then ("::int[]", s[7..])
    else if "::int" <= s then ("::int", s[5..])
    else ("", s)
  }

  /** The bound value of a condition and, for ANY, the closing parenthesis. */
  function ReadOperand(column: Column, kind: FilterKind, s: string): Option<(Clause, string)> {
    var slot := ReadSlot(s);
    if slot.None? then None
    else
      var (cast, rest) := ReadCast(slot.value.1);
      if !kind.InArray? then Some((Condition(column, kind, slot.value.0, cast), rest))
      else if ")" <= rest then Some((Condition(column, kind, slot.value.0, cast), rest[1..]))
      else None
  }

  function ReadCondition(s: string): Option<(Clause, string)> {
    var column := ReadColumn(s);
    if column.None? then None
    else
      var operator := ReadOperator(column.value.1);
      if operator.None? then None else ReadOperand(column.value.0, operator.value.0, operator.value.1)
  }

  function ReadClause(s: string): Option<(Clause, string)> {
    if " AND " <= s then ReadCondition(s[5..])
    else if " ORDER BY q.created_at DESC" <= s then Some((OrderByCreated, s[27..]))
    else if " LIMIT " <= s then
      var slot := ReadSlot(s[7..]);
      if slot.None? then None else Some((LimitTo(slot.value.0), slot.value.1))
    else if " OFFSET " <= s then
      var slot := ReadSlot(s[8..]);
      if slot.None? then None else Some((OffsetBy(slot.value.0), slot.value.1))
    else None
  }

  function ReadClauses(s: string): Option<seq<Clause>>
    decreases |s|
  {
    if s == "" then Some([])
    else
      var first := ReadClause(s);
      if first.None? || |first.value.1| >= |s| then None
      else
        var rest := ReadClauses(first.value.1);
        if rest.None? then None else Some([first.value.0] + rest.value)
  }

  function Read(sql: string): Option<seq<Clause>> {
    if START <= sql then ReadClauses(sql[|START|..]) else None
  }

  /** What the server answers to a text and its parameter list; None is an error. */
  function RunText(sql: string, params: seq<string>, catalogue: seq<Row>, ilike: ILikeMatch): Option<seq<Row>> {
    var clauses := Read(sql);
    if clauses.None? then None else Evaluate(Query(clauses.value, params), catalogue, ilike)
  }

  // ----- The reader recovers what was written -----

  /** The text of the next clause, or the end, follows. */
  predicate Ends(s: string) {
    s == "" || s[0] == ' '
  }

  predicate Readable(c: Clause) {
    c.Condition? ==>
      match c.kind
      case ILike => c.cast == ""
      case InArray => c.cast == "::int[]"
      case _ => c.cast == "" || c.cast == "::int"
  }

  lemma Strip(p: string, rest: string)
    ensures p <= p + rest && (p + rest)[|p|..] == rest
  {
  }

  lemma Regroup(a: string, b: string, c: string)
    ensures a + b + c == a + (b + c)
  {
  }

  lemma RegroupClause(a: string, b: string, c: string, d: string, rest: string)
    ensures a + b + c + d + rest == a + (b + (c + (d + rest)))
  {
  }

  lemma ReadColumnName(column: Column, rest: string)
    ensures ReadColumn(ColumnName(column) + rest) == Some((column, rest))
  {
    var s := ColumnName(column) + rest;
    Strip(ColumnName(column), rest);
    assert s[0] == ColumnName(column)[0];
    match column
    case Language =>
    case Text => assert "q.language"[0] == 'q' && s[0] == 't';
    case CategoryId => assert "q.language"[0] == 'q' && "text"[0] == 't' && s[0] == 'c';
    case MinAge => assert "q.language"[0] == 'q' && "text"[0] == 't' && "category_id"[0] == 'c' && s[0] == 'm';
  }

  lemma ReadOperatorText(kind: FilterKind, rest: string)
    requires rest != "" && rest[0] == '$'
    ensures ReadOperator(Operator(kind) + rest) == Some((kind, rest))
  {
    var s := Operator(kind) + rest;
    Strip(Operator(kind), rest);
    assert s[1] == Operator(kind)[1];
    match kind
    case InArray =>
    case Equal => assert s[3] == '$' && " = ANY("[3] == 'A';
    case GreaterEq => assert s[1] == '>' && " = ANY("[1] == '=' && " = "[1] == '=';
    case LessEq => assert s[1] == '<' && " = ANY("[1] == '=' && " = "[1] == '=' && " >= "[1] == '>';
    case ILike =>
      assert s[1] == 'I' && " = ANY("[1] == '=' && " = "[1] == '=' && " >= "[1] == '>' && " <= "[1] == '<';
  }

  lemma ReadSlotText(slot: nat, rest: string)
    requires rest != "" ==> !IsDigit(rest[0])
    ensures ReadSlot("$" + Print(slot) + rest) == Some((slot, rest))
  {
    var digits := Print(slot);
    var s := "$" + digits + rest;
    assert s[1..] == digits + rest;
    DigitRunAppend(digits, rest);
    DigitRunOfDigits(digits);
    ParsePrintNat(slot);
    assert (digits + rest)[..|digits|] == digits;
    Strip(digits, rest);
  }

  lemma ReadCastText(cast: string, rest: string)
    requires cast == "" || cast == "::int" || cast == "::int[]"
    requires rest != "" ==> rest[0] == ' ' || rest[0] == ')'
    ensures ReadCast(cast + rest) == (cast, rest)
  {
    var s := cast + rest;
    Strip(cast, rest);
    if cast == "" {
      assert s == rest;
      assert "::int[]"[0] == ':' && "::int"[0] == ':';
    } else if cast == "::int" {
      assert rest != "" ==> s[5] == rest[0];
      assert "::int[]"[5] == '[';
    }
  }

  lemma ReadOperandText(c: Clause, rest: string)
    requires c.Condition? && Readable(c) && Ends(rest)
    ensures ReadOperand(c.column, c.kind, "$" + Print(c.slot) + After(c) + rest) == Some((c, rest))
  {
    var tail := if c.kind.InArray? then ")" + rest else rest;
    assert After(c) + rest == c.cast + tail;
    assert "$" + Print(c.slot) + After(c) + rest == "$" + Print(c.slot) + (c.cast + tail);
    assert c.cast + tail != "" ==> !IsDigit((c.cast + tail)[0]);
    ReadSlotText(c.slot, c.cast + tail);
    ReadCastText(c.cast, tail);
  }

  lemma ReadConditionText(c: Clause, rest: string)
    requires c.Condition? && Readable(c) && Ends(rest)
    ensures ReadClause(RenderClause(c) + rest) == Some((c, rest))
  {
    var value := "$" + Print(c.slot) + After(c);
    var operand := value + rest;
    var text := ColumnName(c.column) + (Operator(c.kind) + operand);
    RegroupClause(" AND ", ColumnName(c.column), Operator(c.kind), value, rest);
    assert RenderClause(c) == " AND " + ColumnName(c.column) + Operator(c.kind) + value;
    Strip(" AND ", text);
    ReadColumnName(c.column, Operator(c.kind) + operand);
    ReadOperatorText(c.kind, operand);
    ReadOperandText(c, rest);
  }

  lemma ReadPagingText(c: Clause, rest: string)
    requires !c.Condition? && Ends(rest)
    ensures ReadClause(RenderClause(c) + rest) == Some((c, rest))
  {
    if c.OrderByCreated? {
      Strip(Before(c), rest);
      assert (Before(c) + rest)[1] == 'O' && " AND "[1] == 'A';
    } else {
      var operand := "$" + Print(c.slot) + rest;
      Regroup(Before(c), "$" + Print(c.slot), rest);
      NothingFollows("$" + Print(c.slot));
      ReadSlotText(c.slot, rest);
      ReadWindow(c, operand, rest);
    }
  }

  lemma ReadWindow(c: Clause, operand: string, rest: string)
    requires (c.LimitTo? || c.OffsetBy?) && ReadSlot(operand) == Some((c.slot, rest))
    ensures ReadClause(Before(c) + operand) == Some((c, rest))
  {
    var s := Before(c) + operand;
    Strip(Before(c), operand);
    assert s[1] == Before(c)[1] && s[2] == Before(c)[2];
    assert " AND "[1] == 'A' && " ORDER BY q.created_at DESC"[1] == 'O' && " ORDER BY q.created_at DESC"[2] == 'R';
    assert " LIMIT "[1] == 'L';
  }

  lemma ReadClauseText(c: Clause, rest: string)
    requires Readable(c) && Ends(rest)
    ensures ReadClause(RenderClause(c) + rest) == Some((c, rest))
  {
    if c.Condition? {
      ReadConditionText(c, rest);
    } else {
      ReadPagingText(c, rest);
    }
  }

  /** The clauses without the beginning, from the front. */
  function Tail(clauses: seq<Clause>): string {
    if clauses == [] then "" else RenderClause(clauses[0]) + Tail(clauses[1..])
  }

  lemma {:induction false} TailSnoc(clauses: seq<Clause>, c: Clause)
    ensures Tail(clauses + [c]) == Tail(clauses) + RenderClause(c)
  {
    if clauses == [] {
      assert [c][1..] == [];
    } else {
      assert (clauses + [c])[1..] == clauses[1..] + [c];
      TailSnoc(clauses[1..], c);
    }
  }

  lemma {:induction false} RenderIsTail(head: string, clauses: seq<Clause>)
    ensures RenderFrom(head, clauses) == head + Tail(clauses)
  {
    if clauses == [] {
      NothingFollows(head);
    } else {
      var front, last := clauses[..|clauses| - 1], clauses[|clauses| - 1];
      assert front + [last] == clauses;
      RenderIsTail(head, front);
      TailSnoc(front, last);
      Regroup(head, Tail(front), RenderClause(last));
    }
  }

  lemma NothingFollows(a: string)
    ensures a + "" == a
  {
  }

  lemma ClauseBegins(c: Clause)
    ensures RenderClause(c) != "" && RenderClause(c)[0] == ' '
  {
    assert Before(c)[0] == ' ' && RenderClause(c)[0] == Before(c)[0];
  }

  lemma {:induction false} ReadTail(clauses: seq<Clause>)
    requires forall i :: 0 <= i < |clauses| ==> Readable(clauses[i])
    ensures ReadClauses(Tail(clauses)) == Some(clauses) && Ends(Tail(clauses))
  {
    if clauses != [] {
      ReadTail(clauses[1..]);
      ClauseBegins(clauses[0]);
      ReadClauseText(clauses[0], Tail(clauses[1..]));
      assert [clauses[0]] + clauses[1..] == clauses;
    }
  }

  lemma ReadRender(clauses: seq<Clause>)
    requires forall i :: 0 <= i < |clauses| ==> Readable(clauses[i])
    ensures Read(Render(clauses)) == Some(clauses)
  {
    RenderIsTail(HEAD, clauses);
    assert START == HEAD;
    Strip(HEAD, Tail(clauses));
    ReadTail(clauses);
  }

  // ----- The queries that are built can be read -----

  predicate AllReadable(clauses: seq<Clause>) {
    forall i :: 0 <= i < |clauses| ==> Readable(clauses[i])
  }

  predicate ReadableFilter(f: FilterDef) {
    Readable(Condition(f.column, f.kind, 1, f.cast))
  }

  lemma {:induction false} FiltersReadable(json: map<string, Json>, filters: seq<FilterDef>)
    requires forall i :: 0 <= i < |filters| ==> ReadableFilter(filters[i])
    requires WithFilters(json, filters).Some?
    ensures AllReadable(WithFilters(json, filters).value.clauses)
  {
    if filters != [] {
      FiltersReadable(json, filters[..|filters| - 1]);
    }
  }

  /** Every finished text reads back as the clauses it was built from. */
  lemma BuiltIsReadable(json: map<string, Json>, offset: int, limit: int)
    requires Built(json, offset, limit).Some?
    ensures Read(Render(Built(json, offset, limit).value.clauses)) == Some(Built(json, offset, limit).value.clauses)
  {
    assert ReadableFilter(FILTERS[0]) && ReadableFilter(FILTERS[1]) && ReadableFilter(FILTERS[2]) && ReadableFilter(FILTERS[3]);
    assert |FILTERS| == 4;
    FiltersReadable(json, FILTERS);
    ReadRender(Built(json, offset, limit).value.clauses);
  }
}
