/** The unanswered-only search: rows are filtered after the query, so the fetched
    window widens until it holds enough unanswered rows for the requested page. */
module UnansweredSearch {
  import opened Catalogue
  import opened Paging

  const MIN_WINDOW := 100
  const MAX_WINDOW := 5000

  // ----- Filtering -----

  /** The rows whose question is not among the answered ones, in order. */
  function Kept(rows: seq<Row>, answered: set<int>): (kept: seq<Row>)
    ensures |kept| <= |rows|
  {
    if rows == [] then []
    else
      var n := |rows| - 1;
      Kept(rows[..n], answered) + if rows[n].id in answered then [] else [rows[n]]
  }

  function KeptIf(rows: seq<Row>, answered: set<int>, unansweredOnly: bool): seq<Row> {
    if unansweredOnly then Kept(rows, answered) else rows
  }

  lemma {:induction false} KeptPrefix(rows: seq<Row>, answered: set<int>, i: nat)
    requires i <= |rows|
    ensures Kept(rows[..i], answered) <= Kept(rows, answered)
  {
    if i == |rows| {
      assert rows[..i] == rows;
    } else {
      var n := |rows| - 1;
      assert rows[..n][..i] == rows[..i];
      KeptPrefix(rows[..n], answered, i);
    }
  }

  predicate DistinctIds(rows: seq<Row>) {
    forall i, j :: 0 <= i < j < |rows| ==> rows[i].id != rows[j].id
  }

  function Ids(rows: seq<Row>): (ids: seq<int>)
    ensures |ids| == |rows|
    ensures forall i :: 0 <= i < |rows| ==> ids[i] == rows[i].id
  {
    seq(|rows|, i requires 0 <= i < |rows| => rows[i].id)
  }

  /** Only the answered flags of the rows at hand matter. */
  lemma {:induction false} KeptRestrict(rows: seq<Row>, a: set<int>, b: set<int>)
    requires forall i :: 0 <= i < |rows| ==> (rows[i].id in a <==> rows[i].id in b)
    ensures Kept(rows, a) == Kept(rows, b)
  {
    if rows != [] {
      KeptRestrict(rows[..|rows| - 1], a, b);
    }
  }

  /** Rows minus answered ids counts the unanswered rows, as ids are distinct. */
  lemma {:induction false} CountKept(rows: seq<Row>, answered: set<int>)
    requires DistinctIds(rows)
    requires forall q :: q in answered ==> q in Ids(rows)
    ensures |Kept(rows, answered)| == |rows| - |answered|
  {
    if rows == [] {
      assert forall q :: q !in answered;
      assert answered == {};
    } else {
      var n := |rows| - 1;
      var front, last := rows[..n], rows[n].id;
      var rest := answered - {last};
      forall q | q in rest ensures q in Ids(front) {
        var i :| 0 <= i < |rows| && Ids(rows)[i] == q;
        assert Ids(front)[i] == q;
      }
      CountKept(front, rest);
      KeptRestrict(front, answered, rest);
    }
  }

  // ----- Serialising a page -----

  /** A serialised row with its answered flag. */
  datatype Entry = Entry(row: Row, answered: bool)

  /** Failed is the 500 answer. */
  datatype Reply = Page(entries: seq<Entry>) | Failed

  predicate Translated(row: Row) {
    row.categoryName.Some?
  }

  function Serialize(rows: seq<Row>, answered: set<int>): (entries: seq<Entry>)
    ensures |entries| == |rows|
    ensures forall i :: 0 <= i < |rows| ==> entries[i] == Entry(rows[i], rows[i].id in answered)
  {
    seq(|rows|, i requires 0 <= i < |rows| => Entry(rows[i], rows[i].id in answered))
  }

  /** How many kept rows are serialised: each before the skip and limit tests, so
      one more than the page needs. */
  function Examined(count: nat, offset: nat, limit: nat): (n: nat)
    ensures n <= count
  {
    if limit == 0 || count <= offset + limit then count else offset + limit + 1
  }

  predicate AllTranslated(rows: seq<Row>, n: nat)
    requires n <= |rows|
  {
    forall i :: 0 <= i < n ==> Translated(rows[i])
  }

  /** The answer for a list of kept rows: 500 exactly when one of the examined
      rows is untranslated, and otherwise the exact slice. */
  function PageOf(kept: seq<Row>, answered: set<int>, offset: nat, limit: nat): Reply {
    if AllTranslated(kept, Examined(|kept|, offset, limit))
    then Page(Serialize(Slice(kept, offset, limit), answered))
    else Failed
  }

  /** `entries` are the serialised rows from position `skipped` up to n. */
  predicate EntriesOf(entries: seq<Entry>, all: seq<Row>, skipped: nat, n: nat, answered: set<int>) {
    && skipped <= n <= |all| && |entries| == n - skipped
    && forall j :: 0 <= j < |entries| ==> entries[j] == Entry(all[skipped + j], all[skipped + j].id in answered)
  }

  lemma UntranslatedFound(all: seq<Row>, n: nat, answered: set<int>, offset: nat, limit: nat)
    requires n < |all| && !Translated(all[n]) && (limit > 0 ==> n <= offset + limit)
    ensures PageOf(all, answered, offset, limit) == Failed
  {
  }

  lemma PageComplete(all: seq<Row>, n: nat, entries: seq<Entry>, answered: set<int>, offset: nat, limit: nat)
    requires EntriesOf(entries, all, offset, n, answered)
    requires n < |all| && AllTranslated(all, n + 1) && limit > 0 && n == offset + limit
    ensures PageOf(all, answered, offset, limit) == Page(entries)
  {
    assert Slice(all, offset, limit) == all[offset..n];
    assert Serialize(all[offset..n], answered) == entries;
  }

  lemma PageAtEnd(all: seq<Row>, skipped: nat, entries: seq<Entry>, answered: set<int>, offset: nat, limit: nat)
    requires EntriesOf(entries, all, skipped, |all|, answered)
    requires AllTranslated(all, |all|) && (limit > 0 ==> |all| <= offset + limit)
    requires skipped <= offset && (skipped < offset ==> skipped == |all|)
    ensures PageOf(all, answered, offset, limit) == Page(entries)
  {
    assert Slice(all, offset, limit) == all[skipped..];
    assert Serialize(all[skipped..], answered) == entries;
  }

  /** The first n kept rows have been examined: all translated, the first
      `skipped` skipped, the others serialised. */
  predicate Scanned(all: seq<Row>, n: nat, skipped: nat, entries: seq<Entry>, answered: set<int>, offset: nat, limit: nat) {
    && EntriesOf(entries, all, skipped, n, answered) && AllTranslated(all, n)
    && skipped <= offset && (skipped < offset ==> skipped == n)
    && (limit > 0 ==> n <= offset + limit)
  }

  lemma ScanOne(all: seq<Row>, n: nat, skipped: nat, entries: seq<Entry>, answered: set<int>, offset: nat, limit: nat)
    requires Scanned(all, n, skipped, entries, answered, offset, limit) && n < |all| && Translated(all[n])
    ensures skipped < offset ==> Scanned(all, n + 1, skipped + 1, entries, answered, offset, limit)
    ensures skipped >= offset && (limit > 0 ==> |entries| < limit) ==>
              Scanned(all, n + 1, skipped, entries + [Entry(all[n], all[n].id in answered)], answered, offset, limit)
    ensures skipped >= offset && limit > 0 && |entries| >= limit ==> PageOf(all, answered, offset, limit) == Page(entries)
  {
    if skipped >= offset && limit > 0 && |entries| >= limit {
      PageComplete(all, n, entries, answered, offset, limit);
    }
  }

  method RespondWithSearchResults(rows: seq<Row>, answered: set<int>, offset: nat, limit: nat, unansweredOnly: bool)
    returns (reply: Reply)
    ensures reply == PageOf(KeptIf(rows, answered, unansweredOnly), answered, offset, limit)
  {
    var entries: seq<Entry> := [];
    var skipped := 0;
    ghost var all := KeptIf(rows, answered, unansweredOnly);
    ghost var n := 0;
    ghost var positions := PositionsOf(rows, answered, unansweredOnly);
    for i := 0 to |rows|
      invariant n == positions[i] <= |all|
      invariant Scanned(all, n, skipped, entries, answered, offset, limit)
    {
      var row := rows[i];
      var isAnswered := row.id in answered;
      PositionStep(positions, rows, all, answered, unansweredOnly, i);
      if unansweredOnly && isAnswered {
        continue;
      }
      if row.categoryName.None? {
        UntranslatedFound(all, n, answered, offset, limit);
        return Failed;
      }
      ScanOne(all, n, skipped, entries, answered, offset, limit);
      n := n + 1;
      if skipped < offset {
        skipped := skipped + 1;
        continue;
      }
      if limit > 0 && |entries| >= limit {
        return Page(entries);
      }
      entries := entries + [Entry(row, isAnswered)];
    }
    PageAtEnd(all, skipped, entries, answered, offset, limit);
    return Page(entries);
  }

  /** positions[i] kept rows come from the first i rows: row i is either dropped
      or the next kept row. */
  predicate Positioned(positions: seq<nat>, rows: seq<Row>, kept: seq<Row>, answered: set<int>, unansweredOnly: bool) {
    && |positions| == |rows| + 1 && positions[0] == 0 && positions[|rows|] == |kept|
    && forall i :: 0 <= i < |rows| ==> Follows(rows[i], positions[i], positions[i + 1], kept, answered, unansweredOnly)
  }

  predicate Follows(row: Row, from: nat, to: nat, kept: seq<Row>, answered: set<int>, unansweredOnly: bool) {
    if unansweredOnly && row.id in answered then to == from
    else from < |kept| && kept[from] == row && to == from + 1
  }

  lemma PositionStep(positions: seq<nat>, rows: seq<Row>, kept: seq<Row>, answered: set<int>, unansweredOnly: bool, i: nat)
    requires Positioned(positions, rows, kept, answered, unansweredOnly) && i < |rows|
    ensures Follows(rows[i], positions[i], positions[i + 1], kept, answered, unansweredOnly)
  {
  }

  lemma {:induction false} PositionsOf(rows: seq<Row>, answered: set<int>, unansweredOnly: bool)
    returns (positions: seq<nat>)
    ensures Positioned(positions, rows, KeptIf(rows, answered, unansweredOnly), answered, unansweredOnly)
  {
    var all := KeptIf(rows, answered, unansweredOnly);
    if rows == [] {
      return [0];
    }
    var n := |rows| - 1;
    var before := KeptIf(rows[..n], answered, unansweredOnly);
    var front := PositionsOf(rows[..n], answered, unansweredOnly);
    positions := front + [|all|];
    assert before <= all && Follows(rows[n], |before|, |all|, all, answered, unansweredOnly);
    forall i | 0 <= i < |rows| ensures Follows(rows[i], positions[i], positions[i + 1], all, answered, unansweredOnly) {
      if i < n {
        PositionStep(front, rows[..n], before, answered, unansweredOnly, i);
      }
    }
  }

  // ----- Widening -----

  function Window(rows: seq<Row>, size: nat): (w: seq<Row>)
    ensures w <= rows
  {
    if |rows| <= size then rows else rows[..size]
  }

  /** The fetch stops: enough unanswered rows, or the ordered result is
      exhausted, or the window is at its cap. */
  predicate Stops(rows: seq<Row>, answered: set<int>, required: int, size: nat) {
    || |Kept(Window(rows, size), answered)| >= required
    || |rows| < size
    || size >= MAX_WINDOW
  }

  function Wider(size: nat): nat {
    Min(size * 2, MAX_WINDOW)
  }

  /** The sizes of all windows fetched, in order, when starting at `size`. */
  function Windows(rows: seq<Row>, answered: set<int>, required: int, size: nat): (sizes: seq<nat>)
    requires 0 < size
    ensures sizes != [] && sizes[0] == size
    decreases MAX_WINDOW - size
  {
    if Stops(rows, answered, required, size) then [size]
    else [size] + Windows(rows, answered, required, Wider(size))
  }

  function FirstWindow(required: int): (size: nat)
    ensures MIN_WINDOW <= size <= MAX_WINDOW
  {
    if required < MIN_WINDOW then MIN_WINDOW else if required > MAX_WINDOW then MAX_WINDOW else required
  }

  const INT_BOUND := 0x8000_0000

  /** A C++ int. The sum that does not fit is undefined in C++; here it wraps
      around, and the reply turns out not to depend on it. */
  function ToInt(n: int): int {
    (n + INT_BOUND) % (2 * INT_BOUND) - INT_BOUND
  }

  /** Unanswered rows needed for the page. */
  function Required(offset: nat, limit: nat): int {
    if limit > 0 then ToInt(offset + limit) else MAX_WINDOW
  }

  /** The sum fits, or the limit is one that request parsing lets through. */
  predicate Ordinary(offset: nat, limit: nat) {
    offset + limit < INT_BOUND || limit <= 1000
  }

  function Sum(sizes: seq<nat>): nat {
    if sizes == [] then 0 else sizes[0] + Sum(sizes[1..])
  }

  /** At most 7 queries from 79 rows on; windows strictly increase and never exceed 5000. */
  lemma {:induction false} WindowsBounded(rows: seq<Row>, answered: set<int>, required: int, size: nat)
    requires 79 <= size <= MAX_WINDOW
    ensures var ws := Windows(rows, answered, required, size);
            && |ws| <= (if size >= 5000 then 1 else if size >= 2500 then 2 else if size >= 1250 then 3
                        else if size >= 625 then 4 else if size >= 313 then 5 else if size >= 157 then 6 else 7)
            && (forall i :: 0 <= i < |ws| ==> ws[i] <= MAX_WINDOW)
            && (forall i :: 0 < i < |ws| ==> ws[i - 1] < ws[i])
    decreases MAX_WINDOW - size
  {
    if !Stops(rows, answered, required, size) {
      WindowsBounded(rows, answered, required, Wider(size));
    }
  }

  lemma SumCons(size: nat, rest: seq<nat>)
    ensures Sum([size] + rest) == size + Sum(rest)
  {
    assert ([size] + rest)[1..] == rest;
  }

  /** The rows of all windows, from any starting size. */
  lemma {:induction false} WindowsSum(rows: seq<Row>, answered: set<int>, required: int, size: nat)
    requires 0 < size <= MAX_WINDOW
    ensures var ws := Windows(rows, answered, required, size);
            Sum(ws) + size <= 3 * ws[|ws| - 1]
    decreases MAX_WINDOW - size
  {
    if Stops(rows, answered, required, size) {
      SumCons(size, []);
      assert [size] + [] == [size];
    } else {
      WindowsSum(rows, answered, required, Wider(size));
      SumCons(size, Windows(rows, answered, required, Wider(size)));
    }
  }

  /** Which windows a search fetches: the first is what the page needs, but at least
      100 and at most 5000 rows, and each further one doubles, up to 5000. At most 7
      queries, and fewer than three times the last window's rows requested in all. */
  lemma SearchBounded(rows: seq<Row>, answered: set<int>, required: int)
    ensures var ws := Windows(rows, answered, required, FirstWindow(required));
            && ws[0] == (if required < 100 then 100 else if required > 5000 then 5000 else required)
            && (forall i :: 0 < i < |ws| ==> ws[i] == if ws[i - 1] <= 2500 then 2 * ws[i - 1] else 5000)
            && |ws| <= 7 && Sum(ws) < 3 * ws[|ws| - 1] && ws[|ws| - 1] <= MAX_WINDOW
            && forall i :: 0 < i < |ws| ==> ws[i - 1] < ws[i]
  {
    WindowsBounded(rows, answered, required, FirstWindow(required));
    WindowsSum(rows, answered, required, FirstWindow(required));
    var ws := Windows(rows, answered, required, FirstWindow(required));
    forall i | 0 < i < |ws| ensures ws[i] == if ws[i - 1] <= 2500 then 2 * ws[i - 1] else 5000 {
      WindowsDouble(rows, answered, required, FirstWindow(required), i);
    }
  }

  lemma {:induction false} WindowsDouble(rows: seq<Row>, answered: set<int>, required: int, size: nat, i: nat)
    requires 0 < size && 0 < i < |Windows(rows, answered, required, size)|
    ensures var ws := Windows(rows, answered, required, size);
            ws[i] == if ws[i - 1] <= 2500 then 2 * ws[i - 1] else 5000
    decreases i
  {
    var ws, rest := Windows(rows, answered, required, size), Windows(rows, answered, required, Wider(size));
    assert !Stops(rows, answered, required, size) && ws == [size] + rest;
    if i > 1 {
      WindowsDouble(rows, answered, required, Wider(size), i - 1);
      assert ws[i] == rest[i - 1] && ws[i - 1] == rest[i - 2];
    }
  }

  /** When a search widens: after every window but the last the unanswered rows were
      too few, the result filled the window, and there was room up to 5000; after the
      last one of the three was not so. */
  lemma {:induction false} WidensExactly(rows: seq<Row>, answered: set<int>, required: int, size: nat, i: nat)
    requires 0 < size && i < |Windows(rows, answered, required, size)|
    ensures var ws := Windows(rows, answered, required, size);
            i < |ws| - 1 <==>
            |Kept(Window(rows, ws[i]), answered)| < required && |rows| >= ws[i] && ws[i] < 5000
    decreases i
  {
    var ws := Windows(rows, answered, required, size);
    if !Stops(rows, answered, required, size) {
      var rest := Windows(rows, answered, required, Wider(size));
      assert ws == [size] + rest;
      if i > 0 {
        WidensExactly(rows, answered, required, Wider(size), i - 1);
        assert ws[i] == rest[i - 1];
      }
    }
  }

  lemma {:induction false} LastWindowStops(rows: seq<Row>, answered: set<int>, required: int, size: nat)
    requires 0 < size <= MAX_WINDOW
    ensures var ws := Windows(rows, answered, required, size);
            0 < ws[|ws| - 1] <= MAX_WINDOW && Stops(rows, answered, required, ws[|ws| - 1])
    decreases MAX_WINDOW - size
  {
    if !Stops(rows, answered, required, size) {
      LastWindowStops(rows, answered, required, Wider(size));
    }
  }

  /** The window a search stops at. */
  function LastWindow(rows: seq<Row>, answered: set<int>, offset: nat, limit: nat): nat {
    var required := Required(offset, limit);
    var ws := Windows(rows, answered, required, FirstWindow(required));
    ws[|ws| - 1]
  }

  /** What the fetch answers when it starts at `size`: the page of its last window. */
  function ReplyFrom(rows: seq<Row>, answered: set<int>, offset: nat, limit: nat, size: nat): Reply
    requires 0 < size
  {
    var ws := Windows(rows, answered, Required(offset, limit), size);
    PageOf(Kept(Window(rows, ws[|ws| - 1]), answered), answered, offset, limit)
  }

  lemma ReplyFromStep(rows: seq<Row>, answered: set<int>, offset: nat, limit: nat, size: nat)
    requires 0 < size
    ensures ReplyFrom(rows, answered, offset, limit, size)
            == if Stops(rows, answered, Required(offset, limit), size)
               then PageOf(Kept(Window(rows, size), answered), answered, offset, limit)
               else ReplyFrom(rows, answered, offset, limit, Wider(size))
  {
  }

  function SearchReply(rows: seq<Row>, answered: set<int>, offset: nat, limit: nat): Reply {
    ReplyFrom(rows, answered, offset, limit, FirstWindow(Required(offset, limit)))
  }

  /** `kept` is a beginning of `full` that holds all of the page. */
  predicate Suffices(kept: seq<Row>, full: seq<Row>, offset: nat, limit: nat) {
    kept <= full && (limit == 0 || |kept| < offset + limit ==> kept == full || |full| <= offset)
  }

  lemma PageOfPrefix(kept: seq<Row>, full: seq<Row>, offset: nat, limit: nat)
    requires Suffices(kept, full, offset, limit)
    ensures Slice(kept, offset, limit) == Slice(full, offset, limit)
  {
    if limit > 0 && |kept| >= offset + limit {
      SliceOfPrefix(kept, full, offset, limit);
    }
  }

  /** The last window holds a prefix of the kept rows of the first 5000, long
      enough for the page. */
  lemma LastWindowSuffices(rows: seq<Row>, answered: set<int>, offset: nat, limit: nat)
    requires Ordinary(offset, limit)
    ensures var kept := Kept(Window(rows, LastWindow(rows, answered, offset, limit)), answered);
            var full := Kept(Window(rows, MAX_WINDOW), answered);
            && Suffices(kept, full, offset, limit)
            && (offset + limit < INT_BOUND && (limit == 0 || |kept| < offset + limit) ==> kept == full)
  {
    var required := Required(offset, limit);
    LastWindowStops(rows, answered, required, FirstWindow(required));
    StoppedWindow(rows, answered, required, LastWindow(rows, answered, offset, limit));
    RequiredSum(offset, limit);
    assert |Kept(Window(rows, MAX_WINDOW), answered)| <= MAX_WINDOW;
  }

  /** A window the fetch stops at has enough unanswered rows, or all there are. */
  lemma StoppedWindow(rows: seq<Row>, answered: set<int>, required: int, size: nat)
    requires 0 < size <= MAX_WINDOW && Stops(rows, answered, required, size)
    ensures var kept, full := Kept(Window(rows, size), answered), Kept(Window(rows, MAX_WINDOW), answered);
            kept <= full && (|kept| >= required || kept == full)
  {
    var small, large := Window(rows, size), Window(rows, MAX_WINDOW);
    assert large[..|small|] == small;
    KeptPrefix(large, answered, |small|);
  }

  lemma RequiredSum(offset: nat, limit: nat)
    ensures offset + limit < INT_BOUND && limit > 0 ==> Required(offset, limit) == offset + limit
    ensures offset + limit >= INT_BOUND && limit <= 1000 ==> offset > MAX_WINDOW
  {
  }

  /** Whichever window the search stops at, it answers the requested slice of the
      unanswered rows among the first 5000 rows of the ordered result (a limit of
      0 means no upper bound), or 500 if one of the first offset + limit + 1
      unanswered rows of that window has no category name. `Window(rows, 5000)` is
      `rows` itself when there are at most 5000. */
  lemma SearchIsFilterThenSlice(rows: seq<Row>, answered: set<int>, offset: nat, limit: nat)
    requires Ordinary(offset, limit)
    ensures var kept := Kept(Window(rows, LastWindow(rows, answered, offset, limit)), answered);
            SearchReply(rows, answered, offset, limit)
            == if AllTranslated(kept, Examined(|kept|, offset, limit))
               then Page(Serialize(Slice(Kept(Window(rows, MAX_WINDOW), answered), offset, limit), answered))
               else Failed
  {
    LastWindowSuffices(rows, answered, offset, limit);
    PageOfPrefix(Kept(Window(rows, LastWindow(rows, answered, offset, limit)), answered),
                 Kept(Window(rows, MAX_WINDOW), answered), offset, limit);
  }

  /** So it never fails when every category has a name. */
  lemma TranslatedSearch(rows: seq<Row>, answered: set<int>, offset: nat, limit: nat)
    requires Ordinary(offset, limit) && forall i :: 0 <= i < |rows| ==> Translated(rows[i])
    ensures SearchReply(rows, answered, offset, limit)
            == Page(Serialize(Slice(Kept(Window(rows, MAX_WINDOW), answered), offset, limit), answered))
  {
    SearchIsFilterThenSlice(rows, answered, offset, limit);
    KeptTranslated(Window(rows, LastWindow(rows, answered, offset, limit)), answered);
  }

  lemma {:induction false} KeptTranslated(rows: seq<Row>, answered: set<int>)
    requires forall i :: 0 <= i < |rows| ==> Translated(rows[i])
    ensures AllTranslated(Kept(rows, answered), |Kept(rows, answered)|)
  {
    if rows != [] {
      KeptTranslated(rows[..|rows| - 1], answered);
    }
  }

  function Needed(count: nat, offset: nat, limit: nat): (n: nat)
    ensures n <= Examined(count, offset, limit)
  {
    if limit == 0 || count <= offset + limit then count else offset + limit
  }

  lemma UntranslatedInPrefix(kept: seq<Row>, full: seq<Row>, offset: nat, limit: nat)
    requires kept <= full && (limit == 0 || |kept| < offset + limit ==> kept == full)
    ensures AllTranslated(kept, Examined(|kept|, offset, limit))
            <==> AllTranslated(full, Needed(|full|, offset, limit))
                 && !(limit > 0 && |kept| > offset + limit && !Translated(full[offset + limit]))
  {
    var n := Needed(|full|, offset, limit);
    assert forall i :: 0 <= i < |kept| ==> kept[i] == full[i];
    assert n == Needed(|kept|, offset, limit) <= |kept|;
  }

  /** With untranslated rows in the catalogue, exactly when the reply is 500: one
      lies among the first offset + limit unanswered rows (any one, for limit 0),
      or the row right after the page is one and the last window reaches it. In
      every other case the exact slice is answered. */
  lemma UntranslatedRows(rows: seq<Row>, answered: set<int>, offset: nat, limit: nat)
    requires offset + limit < INT_BOUND
    ensures var kept := Kept(Window(rows, LastWindow(rows, answered, offset, limit)), answered);
            var full := Kept(Window(rows, MAX_WINDOW), answered);
            && kept <= full
            && SearchReply(rows, answered, offset, limit)
               == if !AllTranslated(full, Needed(|full|, offset, limit))
                     || (limit > 0 && |kept| > offset + limit && !Translated(full[offset + limit]))
                  then Failed
                  else Page(Serialize(Slice(full, offset, limit), answered))
  {
    LastWindowSuffices(rows, answered, offset, limit);
    SearchIsFilterThenSlice(rows, answered, offset, limit);
    UntranslatedInPrefix(Kept(Window(rows, LastWindow(rows, answered, offset, limit)), answered),
                         Kept(Window(rows, MAX_WINDOW), answered), offset, limit);
  }

  // ----- Paging through the whole unanswered list -----

  /** The entries of a list of replies, in order. */
  function Entries(replies: seq<Reply>): seq<Entry> {
    if replies == [] then []
    else
      var last := replies[|replies| - 1];
      Entries(replies[..|replies| - 1]) + if last.Page? then last.entries else []
  }

  lemma SerializeAppend(a: seq<Row>, b: seq<Row>, answered: set<int>)
    ensures Serialize(a + b, answered) == Serialize(a, answered) + Serialize(b, answered)
  {
  }

  /** Reply k is what the search answers for the k-th offset. */
  ghost predicate Answers(replies: seq<Reply>, offsets: seq<nat>, rows: seq<Row>, answered: set<int>, limit: nat) {
    && |replies| == |offsets|
    && forall k :: 0 <= k < |replies| ==> replies[k] == SearchReply(rows, answered, offsets[k], limit)
  }

  lemma {:induction false} EntriesOfAnswers(replies: seq<Reply>, offsets: seq<nat>, rows: seq<Row>,
                                            answered: set<int>, limit: nat)
    requires Answers(replies, offsets, rows, answered, limit)
    requires limit <= 1000 && forall k :: 0 <= k < |replies| ==> replies[k].Page?
    ensures Entries(replies) == Serialize(Pages(Kept(Window(rows, MAX_WINDOW), answered), offsets, limit), answered)
  {
    if replies != [] {
      var n := |replies| - 1;
      var full := Kept(Window(rows, MAX_WINDOW), answered);
      EntriesOfAnswers(replies[..n], offsets[..n], rows, answered, limit);
      SearchIsFilterThenSlice(rows, answered, offsets[n], limit);
      SerializeAppend(Pages(full, offsets[..n], limit), Slice(full, offsets[n], limit), answered);
    }
  }

  /** Over one snapshot, unless one of them is a 500, the replies for offsets 0, limit, 2 * limit, ... hold, put
      together, a prefix of the unanswered list of the first 5000 rows. */
  lemma PagesCollectUnanswered(rows: seq<Row>, answered: set<int>, limit: nat, replies: seq<Reply>)
    requires 0 < limit <= 1000 && forall k :: 0 <= k < |replies| ==> replies[k].Page?
    requires Answers(replies, Offsets(limit, |replies|), rows, answered, limit)
    ensures var full := Kept(Window(rows, MAX_WINDOW), answered);
            Entries(replies) == Serialize(full[..Min(|replies| * limit, |full|)], answered)
  {
    EntriesOfAnswers(replies, Offsets(limit, |replies|), rows, answered, limit);
    PagesArePrefix(Kept(Window(rows, MAX_WINDOW), answered), limit, |replies|);
  }
}
