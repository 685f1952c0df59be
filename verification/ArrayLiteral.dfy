/** PostgreSQL array literals as the handlers write them: elements joined by
    commas inside braces, text elements in double quotes. Only the fragment the
    code emits is read back. */
module ArrayLiteral {
  import opened Wrappers
  import opened Decimal

  /** `fmt::join(parts, ",")`. */
  function Join(parts: seq<string>): string {
    if parts == [] then ""
    else if |parts| == 1 then parts[0]
    else Join(parts[..|parts| - 1]) + "," + parts[|parts| - 1]
  }

  /** One iteration of the loop that writes a literal: a comma before all but the first. */
  lemma LiteralStep(written: string, parts: seq<string>, i: nat)
    requires i < |parts| && written == "{" + Join(parts[..i])
    ensures (if i > 0 then written + "," else written) + parts[i] == "{" + Join(parts[..i + 1])
  {
    assert parts[..i + 1][..i] == parts[..i];
  }

  function Literal(parts: seq<string>): string {
    "{" + Join(parts) + "}"
  }

  function LastComma(s: string): (i: int)
    ensures -1 <= i < |s|
    ensures i >= 0 ==> s[i] == ','
    ensures forall j :: i < j < |s| ==> s[j] != ','
  {
    if s == [] then -1
    else if s[|s| - 1] == ',' then |s| - 1
    else LastComma(s[..|s| - 1])
  }

  function Split(s: string): (parts: seq<string>)
    ensures parts != []
  {
    var i := LastComma(s);
    if i < 0 then [s] else Split(s[..i]) + [s[i + 1..]]
  }

  function Elements(literal: string): Option<seq<string>> {
    if |literal| < 2 || literal[0] != '{' || literal[|literal| - 1] != '}' then None
    else
      var inner := literal[1..|literal| - 1];
      Some(if inner == "" then [] else Split(inner))
  }

  predicate Plain(part: string) {
    part != "" && ',' !in part
  }

  lemma CommaAfter(front: string, last: string)
    requires ',' !in last
    ensures var s := front + "," + last;
            s[|front|] == ',' && forall j :: |front| < j < |s| ==> s[j] != ','
  {
    var s := front + "," + last;
    forall j | |front| < j < |s| ensures s[j] != ',' {
      assert s[j] == last[j - |front| - 1];
    }
  }

  lemma LastCommaBefore(front: string, last: string)
    requires ',' !in last
    ensures LastComma(front + "," + last) == |front|
  {
    CommaAfter(front, last);
    LastCommaAt(front + "," + last, |front|);
  }

  lemma LastCommaAt(s: string, k: nat)
    requires k < |s| && s[k] == ',' && forall j :: k < j < |s| ==> s[j] != ','
    ensures LastComma(s) == k
  {
    var i := LastComma(s);
    assert i >= k;
  }

  lemma SplitSnoc(front: string, last: string)
    requires ',' !in last
    ensures Split(front + "," + last) == Split(front) + [last]
  {
    LastCommaBefore(front, last);
    var s := front + "," + last;
    assert s[..|front|] == front && s[|front| + 1..] == last;
  }

  lemma SplitPlain(part: string)
    requires Plain(part)
    ensures Split(part) == [part]
  {
    assert LastComma(part) == -1;
  }

  lemma {:induction false} SplitJoin(parts: seq<string>)
    requires parts != [] && forall i :: 0 <= i < |parts| ==> Plain(parts[i])
    ensures Split(Join(parts)) == parts && Join(parts) != ""
  {
    var n := |parts| - 1;
    assert Plain(parts[n]);
    if n == 0 {
      SplitPlain(parts[0]);
      assert parts == [parts[0]];
    } else {
      SplitJoin(parts[..n]);
      SplitSnoc(Join(parts[..n]), parts[n]);
      assert parts == parts[..n] + [parts[n]];
    }
  }

  lemma ElementsOfLiteral(parts: seq<string>)
    requires forall i :: 0 <= i < |parts| ==> Plain(parts[i])
    ensures Elements(Literal(parts)) == Some(parts)
  {
    var s := Literal(parts);
    assert s[1..|s| - 1] == Join(parts);
    if parts != [] {
      SplitJoin(parts);
    }
  }

  function PrintAll(xs: seq<int>): (parts: seq<string>)
    ensures |parts| == |xs|
    ensures forall i :: 0 <= i < |xs| ==> parts[i] == Print(xs[i])
  {
    seq(|xs|, i requires 0 <= i < |xs| => Print(xs[i]))
  }

  function ParseAll(parts: seq<string>): (r: Option<seq<int>>)
    ensures r.Some? ==> |r.value| == |parts|
  {
    if parts == [] then Some([])
    else
      var front, last := ParseAll(parts[..|parts| - 1]), Parse(parts[|parts| - 1]);
      if front.None? || last.None? then None else Some(front.value + [last.value])
  }

  /** Reading an `int[]` parameter. */
  function ParseInts(literal: string): Option<seq<int>> {
    match Elements(literal)
    case None => None
    case Some(parts) => ParseAll(parts)
  }

  lemma {:induction false} ParsePrintAll(xs: seq<int>)
    ensures ParseAll(PrintAll(xs)) == Some(xs)
  {
    if xs != [] {
      var front := xs[..|xs| - 1];
      ParsePrintAll(front);
      assert PrintAll(xs)[..|xs| - 1] == PrintAll(front);
      ParsePrint(xs[|xs| - 1]);
      assert xs == front + [xs[|xs| - 1]];
    }
  }

  /** Any list of integers, the empty one included, survives being bound as one literal. */
  lemma IntsRoundTrip(xs: seq<int>)
    ensures ParseInts(Literal(PrintAll(xs))) == Some(xs)
  {
    forall i | 0 <= i < |xs| ensures Plain(PrintAll(xs)[i]) {
      PrintAlphabet(xs[i]);
    }
    ElementsOfLiteral(PrintAll(xs));
    ParsePrintAll(xs);
  }

  function Quote(s: string): string {
    "\"" + s + "\""
  }

  function Unquote(s: string): string {
    if |s| >= 2 then s[1..|s| - 1] else s
  }

  function QuoteAll(texts: seq<string>): (parts: seq<string>)
    ensures |parts| == |texts|
    ensures forall i :: 0 <= i < |texts| ==> parts[i] == Quote(texts[i])
  {
    seq(|texts|, i requires 0 <= i < |texts| => Quote(texts[i]))
  }

  /** Reading a `text[]` parameter whose elements are all quoted. */
  function ParseTexts(literal: string): (r: Option<seq<string>>) {
    match Elements(literal)
    case None => None
    case Some(parts) => Some(seq(|parts|, i requires 0 <= i < |parts| => Unquote(parts[i])))
  }

  lemma TextsRoundTrip(texts: seq<string>)
    requires forall i :: 0 <= i < |texts| ==> ',' !in texts[i]
    ensures ParseTexts(Literal(QuoteAll(texts))) == Some(texts)
  {
    var parts := QuoteAll(texts);
    forall i | 0 <= i < |texts| ensures Plain(parts[i]) && Unquote(parts[i]) == texts[i] {
      assert parts[i] == Quote(texts[i]);
    }
    ElementsOfLiteral(parts);
    assert seq(|parts|, i requires 0 <= i < |parts| => Unquote(parts[i])) == texts;
  }
}
