/** The forgot handler statement by statement: counting the recent rows and storing
    the new one are separate statements, so requests that were counted before
    either stored its row are all let through. */
module ForgotRaces {
  import TokenTables
  import opened FiniteSets

  datatype Limits = Limits(window: int, max: int)

  datatype Row = Row(userId: string, createdAt: int)

  /** `open` are the requests that passed the count and have not stored their row. */
  datatype State = State(now: int, rows: map<int, Row>, next: int, open: map<int, string>, seen: set<int>)

  const INIT := State(0, map[], 1, map[], {})

  datatype Step = Tick(elapsed: nat) | Count(q: int, userId: string) | Store(q: int) | Fail(q: int)

  function Recent(s: State, userId: string, window: int): set<int> {
    set i | i in s.rows && s.rows[i].userId == userId && s.rows[i].createdAt > s.now - window
  }

  function CreatedIn(s: State, userId: string, t: int, window: int): set<int> {
    set i | i in s.rows && s.rows[i].userId == userId && t - window < s.rows[i].createdAt <= t
  }

  function Pending(s: State, userId: string): set<int> {
    set q | q in s.open && s.open[q] == userId
  }

  predicate Enabled(l: Limits, s: State, step: Step) {
    match step
    case Tick(_) => true
    case Count(q, u) => q !in s.seen && |Recent(s, u, l.window)| < l.max
    case Store(q) => q in s.open
    case Fail(q) => q in s.open
  }

  function Next(l: Limits, s: State, step: Step): State {
    if !Enabled(l, s, step) then s
    else
      match step
      case Tick(d) => s.(now := s.now + d)
      case Count(q, u) => s.(open := s.open[q := u], seen := s.seen + {q})
      case Store(q) => s.(rows := s.rows[s.next := Row(s.open[q], s.now)], next := s.next + 1, open := s.open - {q})
      case Fail(q) => s.(open := s.open - {q})
  }

  function Run(l: Limits, steps: seq<Step>): State {
    if steps == [] then INIT else Next(l, Run(l, steps[..|steps| - 1]), steps[|steps| - 1])
  }

  ghost predicate Sane(s: State) {
    && (forall q :: q in s.open ==> q in s.seen)
    && (forall i :: i in s.rows ==> i < s.next && s.rows[i].createdAt <= s.now)
  }

  /** What has been stored recently and what is about to be. */
  ghost predicate Bounded(l: Limits, s: State, userId: string, bound: int) {
    && Sane(s) && |Recent(s, userId, l.window)| + |Pending(s, userId)| <= bound
    && forall t :: |CreatedIn(s, userId, t, l.window)| <= bound
  }

  lemma TickBounded(l: Limits, s: State, d: nat, userId: string, bound: int)
    requires Bounded(l, s, userId, bound)
    ensures Bounded(l, Next(l, s, Tick(d)), userId, bound)
  {
    var s' := Next(l, s, Tick(d));
    SubsetSize(Recent(s', userId, l.window), Recent(s, userId, l.window));
    forall t ensures |CreatedIn(s', userId, t, l.window)| <= bound {
      assert CreatedIn(s', userId, t, l.window) == CreatedIn(s, userId, t, l.window);
    }
    assert Pending(s', userId) == Pending(s, userId);
  }

  /** A request enters only below the limit, next to at most the other open ones. */
  lemma CountBounded(l: Limits, s: State, q: int, user: string, userId: string, bound: int)
    requires Bounded(l, s, userId, bound) && Enabled(l, s, Count(q, user))
    requires l.max - 1 + |Pending(Next(l, s, Count(q, user)), userId)| <= bound
    ensures Bounded(l, Next(l, s, Count(q, user)), userId, bound)
  {
    var s' := Next(l, s, Count(q, user));
    assert Recent(s', userId, l.window) == Recent(s, userId, l.window);
    forall t ensures |CreatedIn(s', userId, t, l.window)| <= bound {
      assert CreatedIn(s', userId, t, l.window) == CreatedIn(s, userId, t, l.window);
    }
    if user != userId {
      assert Pending(s', userId) == Pending(s, userId);
    }
  }

  lemma StoreSets(l: Limits, s: State, q: int, userId: string)
    requires Sane(s) && q in s.open
    ensures var s' := Next(l, s, Store(q));
            var own := if s.open[q] == userId then {s.next} else {};
            && Recent(s', userId, l.window) <= Recent(s, userId, l.window) + own
            && Pending(s', userId) == Pending(s, userId) - {q}
            && forall t :: CreatedIn(s', userId, t, l.window)
                 == CreatedIn(s, userId, t, l.window) + if t - l.window < s.now <= t then own else {}
  {
  }

  lemma StoreElsewhere(l: Limits, s: State, q: int, userId: string, bound: int)
    requires Bounded(l, s, userId, bound) && q in s.open && s.open[q] != userId
    ensures Bounded(l, Next(l, s, Store(q)), userId, bound)
  {
    var s' := Next(l, s, Store(q));
    StoreSets(l, s, q, userId);
    SubsetSize(Recent(s', userId, l.window), Recent(s, userId, l.window));
    assert Pending(s', userId) == Pending(s, userId);
    forall t ensures |CreatedIn(s', userId, t, l.window)| <= bound {
      assert CreatedIn(s', userId, t, l.window) == CreatedIn(s, userId, t, l.window);
    }
  }

  lemma StoreWindow(l: Limits, s: State, q: int, t: int)
    requires Sane(s) && q in s.open
    ensures var u := s.open[q];
            |CreatedIn(Next(l, s, Store(q)), u, t, l.window)| <= |Recent(s, u, l.window)| + 1
            || CreatedIn(Next(l, s, Store(q)), u, t, l.window) == CreatedIn(s, u, t, l.window)
  {
    var u := s.open[q];
    StoreSets(l, s, q, u);
    if t - l.window < s.now <= t {
      assert CreatedIn(s, u, t, l.window) <= Recent(s, u, l.window);
      SubsetSize(CreatedIn(Next(l, s, Store(q)), u, t, l.window), Recent(s, u, l.window) + {s.next});
    }
  }

  lemma StoreBounded(l: Limits, s: State, q: int, bound: int)
    requires q in s.open && Bounded(l, s, s.open[q], bound)
    ensures Bounded(l, Next(l, s, Store(q)), s.open[q], bound)
  {
    var s', u := Next(l, s, Store(q)), s.open[q];
    StoreSets(l, s, q, u);
    SubsetSize(Recent(s', u, l.window), Recent(s, u, l.window) + {s.next});
    assert q in Pending(s, u);
    assert |Pending(s', u)| == |Pending(s, u)| - 1;
    forall t ensures |CreatedIn(s', u, t, l.window)| <= bound {
      StoreWindow(l, s, q, t);
    }
  }

  lemma FailBounded(l: Limits, s: State, q: int, userId: string, bound: int)
    requires Bounded(l, s, userId, bound) && Enabled(l, s, Fail(q))
    ensures Bounded(l, Next(l, s, Fail(q)), userId, bound)
  {
    var s' := Next(l, s, Fail(q));
    assert Recent(s', userId, l.window) == Recent(s, userId, l.window);
    assert Pending(s', userId) == Pending(s, userId) - {q};
    SubsetSize(Pending(s', userId), Pending(s, userId));
    forall t ensures |CreatedIn(s', userId, t, l.window)| <= bound {
      assert CreatedIn(s', userId, t, l.window) == CreatedIn(s, userId, t, l.window);
    }
  }

  /** At no time in the run are more than k requests of the user between their two statements. */
  predicate AtMostOpen(l: Limits, steps: seq<Step>, userId: string, k: nat) {
    && |Pending(Run(l, steps), userId)| <= k
    && (steps != [] ==> AtMostOpen(l, steps[..|steps| - 1], userId, k))
  }

  lemma {:induction false} RunBounded(l: Limits, steps: seq<Step>, userId: string, k: nat)
    requires l.max > 0 && k > 0 && AtMostOpen(l, steps, userId, k)
    ensures Bounded(l, Run(l, steps), userId, l.max - 1 + k)
  {
    if steps == [] {
      assert Recent(INIT, userId, l.window) == {} && Pending(INIT, userId) == {};
      assert forall t :: CreatedIn(INIT, userId, t, l.window) == {};
    } else {
      var n := |steps| - 1;
      var s, step := Run(l, steps[..n]), steps[n];
      RunBounded(l, steps[..n], userId, k);
      if Enabled(l, s, step) {
        match step
        case Tick(d) => TickBounded(l, s, d, userId, l.max - 1 + k);
        case Count(q, u) => CountBounded(l, s, q, u, userId, l.max - 1 + k);
        case Store(q) =>
          if s.open[q] == userId {
            StoreBounded(l, s, q, l.max - 1 + k);
          } else {
            StoreElsewhere(l, s, q, userId, l.max - 1 + k);
          }
        case Fail(q) => FailBounded(l, s, q, userId, l.max - 1 + k);
      }
    }
  }

  /** In every interleaving in which at most k requests of the user are between
      their two statements at once, every window holds at most max_requests + k - 1
      of the user's rows. One at a time this is the configured limit. */
  lemma WindowUnderRaces(l: Limits, steps: seq<Step>, userId: string, t: int, k: nat)
    requires l.max > 0 && k > 0 && AtMostOpen(l, steps, userId, k)
    ensures |CreatedIn(Run(l, steps), userId, t, l.window)| <= l.max - 1 + k
  {
    RunBounded(l, steps, userId, k);
  }

  // ----- The bound is reached -----

  lemma RunSnoc(l: Limits, steps: seq<Step>, step: Step)
    ensures Run(l, steps + [step]) == Next(l, Run(l, steps), step)
  {
    assert (steps + [step])[..|steps|] == steps;
  }

  lemma AtMostOpenSnoc(l: Limits, steps: seq<Step>, step: Step, userId: string, k: nat)
    requires AtMostOpen(l, steps, userId, k) && |Pending(Run(l, steps + [step]), userId)| <= k
    ensures AtMostOpen(l, steps + [step], userId, k)
  {
    assert (steps + [step])[..|steps|] == steps;
  }

  /** n requests of "u", one after the other. */
  function Serial(n: nat): seq<Step> {
    if n == 0 then [] else Serial(n - 1) + [Count(n, "u")] + [Store(n)]
  }

  /** After `steps`, the requests first, first + 1, ... count, or store. */
  function ThenCount(steps: seq<Step>, first: int, k: nat): seq<Step> {
    if k == 0 then steps else ThenCount(steps, first, k - 1) + [Count(first + k - 1, "u")]
  }

  function ThenStore(steps: seq<Step>, first: int, k: nat): seq<Step> {
    if k == 0 then steps else ThenStore(steps, first, k - 1) + [Store(first + k - 1)]
  }

  /** The limit is used up but for one, and then k requests count before any stores. */
  function Burst(max: nat, k: nat): seq<Step>
    requires max > 0
  {
    ThenStore(ThenCount(Serial(max - 1), max, k), max, k)
  }

  /** At time 0 n rows of "u" are stored and the requests from `lo` up to, not
      including, `hi` are open. */
  ghost predicate InBurst(s: State, n: nat, lo: int, hi: int) {
    && s.now == 0 && s.next == n + 1
    && (forall i :: i in s.rows <==> 1 <= i <= n)
    && (forall i :: i in s.rows ==> s.rows[i] == Row("u", 0))
    && (forall q :: q in s.open <==> lo <= q < hi)
    && (forall q :: q in s.open ==> s.open[q] == "u")
    && (forall q :: q in s.seen ==> q < hi)
  }

  lemma {:induction false} RangeSize(xs: set<int>, lo: int, hi: int)
    requires lo <= hi
    requires forall x :: x in xs <==> lo <= x < hi
    ensures |xs| == hi - lo
    decreases hi - lo
  {
    if lo < hi {
      RangeSize(xs - {lo}, lo + 1, hi);
    } else {
      assert forall x :: x !in xs;
      assert xs == {};
    }
  }

  lemma BurstSizes(l: Limits, s: State, n: nat, lo: int, hi: int)
    requires l.window > 0 && lo <= hi && InBurst(s, n, lo, hi)
    ensures |Recent(s, "u", l.window)| == n && |CreatedIn(s, "u", 0, l.window)| == n && |Pending(s, "u")| == hi - lo
  {
    RangeSize(Recent(s, "u", l.window), 1, n + 1);
    RangeSize(CreatedIn(s, "u", 0, l.window), 1, n + 1);
    RangeSize(Pending(s, "u"), lo, hi);
  }

  lemma CountStep(l: Limits, s: State, n: nat, lo: int, hi: int)
    requires l.window > 0 && lo <= hi && InBurst(s, n, lo, hi) && n < l.max
    ensures InBurst(Next(l, s, Count(hi, "u")), n, lo, hi + 1)
  {
    BurstSizes(l, s, n, lo, hi);
  }

  lemma StoreStep(l: Limits, s: State, n: nat, lo: int, hi: int)
    requires lo < hi && InBurst(s, n, lo, hi)
    ensures InBurst(Next(l, s, Store(lo)), n + 1, lo + 1, hi)
  {
  }

  /** Where a burst of k has come to, never having had more than k open. */
  ghost predicate Reached(l: Limits, steps: seq<Step>, k: nat, n: nat, lo: int, hi: int) {
    InBurst(Run(l, steps), n, lo, hi) && AtMostOpen(l, steps, "u", k)
  }

  lemma ReachCount(l: Limits, steps: seq<Step>, k: nat, n: nat, lo: int, hi: int)
    requires l.window > 0 && n < l.max && lo <= hi < lo + k && Reached(l, steps, k, n, lo, hi)
    ensures Reached(l, steps + [Count(hi, "u")], k, n, lo, hi + 1)
  {
    RunSnoc(l, steps, Count(hi, "u"));
    CountStep(l, Run(l, steps), n, lo, hi);
    BurstSizes(l, Run(l, steps + [Count(hi, "u")]), n, lo, hi + 1);
    AtMostOpenSnoc(l, steps, Count(hi, "u"), "u", k);
  }

  lemma ReachStore(l: Limits, steps: seq<Step>, k: nat, n: nat, lo: int, hi: int)
    requires l.window > 0 && lo < hi <= lo + k && Reached(l, steps, k, n, lo, hi)
    ensures Reached(l, steps + [Store(lo)], k, n + 1, lo + 1, hi)
  {
    RunSnoc(l, steps, Store(lo));
    StoreStep(l, Run(l, steps), n, lo, hi);
    BurstSizes(l, Run(l, steps + [Store(lo)]), n + 1, lo + 1, hi);
    AtMostOpenSnoc(l, steps, Store(lo), "u", k);
  }

  lemma {:induction false} ReachSerial(l: Limits, k: nat, n: nat)
    requires l.window > 0 && k > 0 && n <= l.max
    ensures Reached(l, Serial(n), k, n, n + 1, n + 1)
  {
    if n == 0 {
      assert Pending(INIT, "u") == {};
    } else {
      ReachSerial(l, k, n - 1);
      ReachCount(l, Serial(n - 1), k, n - 1, n, n);
      ReachStore(l, Serial(n - 1) + [Count(n, "u")], k, n - 1, n, n + 1);
    }
  }

  lemma {:induction false} ReachCounts(l: Limits, steps: seq<Step>, k: nat, n: nat, lo: int, j: nat)
    requires l.window > 0 && n < l.max && j <= k && Reached(l, steps, k, n, lo, lo)
    ensures Reached(l, ThenCount(steps, lo, j), k, n, lo, lo + j)
  {
    if j > 0 {
      var front, q := ThenCount(steps, lo, j - 1), lo + j - 1;
      ReachCounts(l, steps, k, n, lo, j - 1);
      ReachCount(l, front, k, n, lo, q);
      assert ThenCount(steps, lo, j) == front + [Count(q, "u")];
    }
  }

  lemma {:induction false} ReachStores(l: Limits, steps: seq<Step>, k: nat, n: nat, lo: int, hi: int, j: nat)
    requires l.window > 0 && lo + j <= hi <= lo + k && Reached(l, steps, k, n, lo, hi)
    ensures Reached(l, ThenStore(steps, lo, j), k, n + j, lo + j, hi)
  {
    if j > 0 {
      ReachStores(l, steps, k, n, lo, hi, j - 1);
      ReachStore(l, ThenStore(steps, lo, j - 1), k, n + j - 1, lo + j - 1, hi);
    }
  }

  /** For every positive limit and every k, the burst of k requests stores exactly
      max_requests + k - 1 rows within one window. */
  lemma BurstReachesBound(l: Limits, k: nat)
    requires l.max > 0 && l.window > 0 && k > 0
    ensures AtMostOpen(l, Burst(l.max, k), "u", k)
    ensures |CreatedIn(Run(l, Burst(l.max, k)), "u", 0, l.window)| == l.max - 1 + k
  {
    var n := l.max - 1;
    ReachSerial(l, k, n);
    ReachCounts(l, Serial(n), k, n, l.max, k);
    ReachStores(l, ThenCount(Serial(n), l.max, k), k, n, l.max, l.max + k, k);
    BurstSizes(l, Run(l, Burst(l.max, k)), n + k, n + 1 + k, n + 1 + k);
  }

  /** Every window of every run with at most k requests open at once respects the bound. */
  ghost predicate AlwaysWithin(l: Limits, k: nat, bound: int) {
    forall steps, u, t :: AtMostOpen(l, steps, u, k) ==> |CreatedIn(Run(l, steps), u, t, l.window)| <= bound
  }

  /** max_requests + k - 1 is the exact bound: a number bounds all windows of all runs
      with at most k requests of a user open at once if and only if it is at least that. */
  lemma ExactBound(l: Limits, k: nat, bound: int)
    requires l.max > 0 && l.window > 0 && k > 0
    ensures AlwaysWithin(l, k, bound) <==> l.max - 1 + k <= bound
  {
    if l.max - 1 + k <= bound {
      forall steps, u, t | AtMostOpen(l, steps, u, k) ensures |CreatedIn(Run(l, steps), u, t, l.window)| <= bound {
        WindowUnderRaces(l, steps, u, t, k);
      }
    } else {
      BurstReachesBound(l, k);
    }
  }

  lemma {:induction false} NothingGetsThrough(l: Limits, steps: seq<Step>)
    requires l.max <= 0
    ensures Run(l, steps).rows == map[] && Run(l, steps).open == map[]
  {
    if steps != [] {
      NothingGetsThrough(l, steps[..|steps| - 1]);
    }
  }

  /** The configured limit holds in all runs if and only if no two requests of a user
      are ever between their two statements at once, or the settings let nothing
      count in the first place. */
  lemma LimitHeldIff(l: Limits, k: nat)
    requires k > 0
    ensures AlwaysWithin(l, k, if l.max > 0 then l.max else 0) <==> k == 1 || l.max <= 0 || l.window <= 0
  {
    if l.max > 0 && l.window > 0 {
      ExactBound(l, k, l.max);
    } else {
      forall steps, u, t ensures CreatedIn(Run(l, steps), u, t, l.window) == {} {
        if l.max <= 0 {
          NothingGetsThrough(l, steps);
        }
      }
    }
  }

  // ----- The two statements in a row -----

  /** What this module keeps of the token tables. */
  function Rows(t: TokenTables.State): map<int, Row> {
    map i | i in t.resets :: Row(t.resets[i].userId, t.resets[i].createdAt)
  }

  ghost predicate Agrees(s: State, t: TokenTables.State) {
    s.now == t.now && s.next == t.nextReset && s.rows == Rows(t)
  }

  /** Without another step in between, the two statements are the atomic forgot step
      of `TokenTables`: they let the same requests through and store the same row. */
  lemma UninterruptedIsAtomic(cfg: TokenTables.Config, t: TokenTables.State, s: State, q: int, userId: string, newHash: string)
    requires Agrees(s, t) && q !in s.seen && q !in s.open
    requires userId in t.passwords && TokenTables.FreshReset(t, newHash)
    ensures var l := Limits(cfg.rateWindow, cfg.rateMax);
            var forgot := TokenTables.Forgot(userId, newHash);
            && (Enabled(l, s, Count(q, userId)) <==> TokenTables.Enabled(cfg, t, forgot))
            && Agrees(Next(l, Next(l, s, Count(q, userId)), Store(q)), TokenTables.Next(cfg, t, forgot))
  {
    assert Recent(s, userId, cfg.rateWindow) == TokenTables.Recent(t, userId, cfg.rateWindow);
  }
}
