/** The attempt counter of reset tokens: it rises only on tokens that are dead
    anyway. The schema comment says that exhausting it kills a token by setting
    `used`. Nothing but a committed reset ever sets `used`: an exhausted token is
    used exactly when a reset with it has committed. */
module AttemptBudget {
  import opened TokenTables
  import opened ResetProtocol
  import opened ExampleRuns

  /** Used, or expired by now. */
  predicate Dead(s: State, row: int)
    requires row in s.resets
  {
    s.resets[row].used || s.resets[row].expiresAt <= s.now
  }

  ghost predicate CountedAreDead(s: State) {
    forall i :: i in s.resets && s.resets[i].attempts > 0 ==> Dead(s, i)
  }

  /** A request that missed its claim presents no live token. */
  ghost predicate MissedAreDead(s: State) {
    forall r, i | r in s.requests && s.requests[r].Missed? && i in s.resets ::
      s.resets[i].tokenHash == s.requests[r].tokenHash ==> Dead(s, i)
  }

  ghost predicate StartsInPast(s: State) {
    forall r :: r in s.requests && s.requests[r].Begun? ==> s.requests[r].startedAt <= s.now
  }

  lemma DeadStays(cfg: Config, s: State, step: Step, row: int)
    requires Keys(s) && row in s.resets && Dead(s, row)
    ensures row in Next(cfg, s, step).resets && Dead(Next(cfg, s, step), row)
  {
    NextMonotone(cfg, s, step);
  }

  lemma NextStartsInPast(cfg: Config, s: State, step: Step)
    requires StartsInPast(s)
    ensures StartsInPast(Next(cfg, s, step))
  {
  }

  lemma NextMissedAreDead(cfg: Config, s: State, step: Step)
    requires cfg.maxAttempts > 0 && Keys(s) && StartsInPast(s) && CountedAreDead(s) && MissedAreDead(s)
    ensures MissedAreDead(Next(cfg, s, step))
  {
    var s' := Next(cfg, s, step);
    forall r, i | r in s'.requests && s'.requests[r].Missed? && i in s'.resets
                  && s'.resets[i].tokenHash == s'.requests[r].tokenHash
      ensures Dead(s', i)
    {
      MissedRowDead(cfg, s, step, r, i);
    }
  }

  lemma MissedRowDead(cfg: Config, s: State, step: Step, r: int, i: int)
    requires cfg.maxAttempts > 0 && Keys(s) && StartsInPast(s) && CountedAreDead(s) && MissedAreDead(s)
    requires var s' := Next(cfg, s, step);
             && r in s'.requests && s'.requests[r].Missed? && i in s'.resets
             && s'.resets[i].tokenHash == s'.requests[r].tokenHash
    ensures Dead(Next(cfg, s, step), i)
  {
    var s' := Next(cfg, s, step);
    NextMonotone(cfg, s, step);
    if i in s.resets {
      if step == ClaimMiss(r) && Enabled(cfg, s, step) {
        assert !Claimable(cfg, s, i, s.requests[r].tokenHash, s.requests[r].startedAt);
      } else {
        assert r in s.requests && s.requests[r] == s'.requests[r];
      }
      assert Dead(s, i);
      DeadStays(cfg, s, step, i);
    } else {
      assert step.Forgot? && s.requests[r].Presents(step.tokenHash);
    }
  }

  lemma NextCountedAreDead(cfg: Config, s: State, step: Step)
    requires Keys(s) && CountedAreDead(s) && MissedAreDead(s)
    ensures CountedAreDead(Next(cfg, s, step))
  {
    var s' := Next(cfg, s, step);
    NextMonotone(cfg, s, step);
    forall i | i in s'.resets && s'.resets[i].attempts > 0 ensures Dead(s', i) {
      if i in s.resets {
        if s.resets[i].attempts == 0 {
          assert step.RecordAttempt? && s.resets[i].tokenHash == s.requests[step.r].tokenHash;
        }
        assert Dead(s, i);
        DeadStays(cfg, s, step, i);
      }
    }
  }

  /** Under every interleaving, with a positive budget, a row whose counter has
      risen is already used or expired. */
  lemma {:induction false} AttemptsOnlyOnDead(cfg: Config, steps: seq<Step>)
    requires cfg.maxAttempts > 0
    ensures var s := Run(cfg, steps); CountedAreDead(s) && MissedAreDead(s) && StartsInPast(s)
  {
    if steps != [] {
      var s, step := Run(cfg, steps[..|steps| - 1]), steps[|steps| - 1];
      AttemptsOnlyOnDead(cfg, steps[..|steps| - 1]);
      RunSafe(cfg, steps[..|steps| - 1]);
      NextStartsInPast(cfg, s, step);
      NextMissedAreDead(cfg, s, step);
      NextCountedAreDead(cfg, s, step);
    }
  }

  /** So the budget never blocks a live token: in every reachable state, whatever
      has been tried before, a request that has begun can claim an unlocked row of
      its token if the row is unused and unexpired, and none of its rows otherwise
      once it is used. */
  lemma BudgetNeverBlocks(cfg: Config, steps: seq<Step>, r: int, row: int)
    requires cfg.maxAttempts > 0
    requires var s := Run(cfg, steps);
             && r in s.requests && s.requests[r].Begun? && row in s.resets
             && s.resets[row].tokenHash == s.requests[r].tokenHash && !RowLocked(s, row)
    ensures var s := Run(cfg, steps);
            && (!Dead(s, row) ==> Enabled(cfg, s, ClaimHit(r, row)))
            && (s.resets[row].used ==> Enabled(cfg, s, ClaimMiss(r)))
  {
    AttemptsOnlyOnDead(cfg, steps);
    RunSafe(cfg, steps);
    var s := Run(cfg, steps);
    if !Dead(s, row) {
      assert s.resets[row].attempts == 0;
    }
    if s.resets[row].used {
      forall i | i in s.resets ensures !Claimable(cfg, s, i, s.requests[r].tokenHash, s.requests[r].startedAt) {
        if s.resets[i].tokenHash == s.requests[r].tokenHash {
          assert i == row;
        }
      }
    }
  }

  /** The user asks for a token and presents it once. */
  function OneTry(): seq<Step> {
    AskForToken() + [Begin(1, "t"), ClaimMiss(1), RecordAttempt(1)]
  }

  lemma MissStep(cfg: Config)
    requires cfg.maxAttempts <= 0
    ensures Next(cfg, WithToken(cfg), Begin(1, "t")) == WithRequest(cfg, Begun("t", 0))
    ensures Next(cfg, WithRequest(cfg, Begun("t", 0)), ClaimMiss(1)) == WithRequest(cfg, Missed("t"))
  {
  }

  lemma AttemptStep(cfg: Config)
    requires cfg.tokenLifetime > 0
    ensures var s := Next(cfg, WithRequest(cfg, Missed("t")), RecordAttempt(1));
            1 in s.resets && s.resets[1].attempts == 1 && !Dead(s, 1)
  {
    assert forall i :: !RowLocked(WithRequest(cfg, Missed("t")), i);
  }

  /** The positive budget is needed: with any other setting that issues tokens
      with a lifetime, the very first try counts on a live token. */
  lemma WithoutBudgetLiveTokenCounts(cfg: Config)
    requires cfg.maxAttempts <= 0 && cfg.rateMax > 0 && cfg.tokenLifetime > 0
    ensures var s := Run(cfg, OneTry());
            1 in s.resets && s.resets[1].attempts == 1 && !Dead(s, 1)
  {
    var steps := OneTry();
    Asked(cfg, steps);
    RunPrefix(cfg, steps, 2);
    RunPrefix(cfg, steps, 3);
    RunPrefix(cfg, steps, 4);
    assert steps[..5] == steps;
    MissStep(cfg);
    AttemptStep(cfg);
  }

  /** The counter invariant holds in all runs exactly when the budget is positive,
      among the settings that issue usable tokens at all. */
  lemma BudgetIff(cfg: Config)
    requires cfg.rateMax > 0 && cfg.tokenLifetime > 0
    ensures cfg.maxAttempts > 0 <==> forall steps :: CountedAreDead(Run(cfg, steps))
  {
    if cfg.maxAttempts > 0 {
      forall steps ensures CountedAreDead(Run(cfg, steps)) {
        AttemptsOnlyOnDead(cfg, steps);
      }
    } else {
      WithoutBudgetLiveTokenCounts(cfg);
      assert !CountedAreDead(Run(cfg, OneTry()));
    }
  }

  // ----- What an exhausted budget does to a token -----

  ghost predicate UsedMeansCommitted(s: State) {
    forall i :: i in s.resets && s.resets[i].used ==> s.resets[i].tokenHash in s.commits
  }

  /** Only a commit sets `used`. */
  lemma NextUsedMeansCommitted(cfg: Config, s: State, step: Step)
    requires Keys(s) && UsedMeansCommitted(s)
    ensures UsedMeansCommitted(Next(cfg, s, step))
  {
    var s' := Next(cfg, s, step);
    forall i | i in s'.resets && s'.resets[i].used ensures s'.resets[i].tokenHash in s'.commits {
      if i in s.resets && s.resets[i].used {
        assert s.resets[i].tokenHash in s.commits;
        assert s.commits <= s'.commits;
      } else {
        assert step.Commit? && s'.commits == s.commits + [s'.resets[i].tokenHash];
      }
    }
  }

  lemma {:induction false} UsedOnlyByCommit(cfg: Config, steps: seq<Step>)
    ensures UsedMeansCommitted(Run(cfg, steps))
  {
    if steps != [] {
      var front, last := steps[..|steps| - 1], steps[|steps| - 1];
      UsedOnlyByCommit(cfg, front);
      RunSafe(cfg, front);
      NextUsedMeansCommitted(cfg, Run(cfg, front), last);
    }
  }

  /** In every interleaving a token is used if and only if a reset that presented
      it has committed. */
  lemma UsedIffCommitted(cfg: Config, steps: seq<Step>)
    ensures var s := Run(cfg, steps);
            forall i :: i in s.resets ==> (s.resets[i].used <==> s.resets[i].tokenHash in s.commits)
  {
    var s := Run(cfg, steps);
    RunSafe(cfg, steps);
    UsedOnlyByCommit(cfg, steps);
    forall i | i in s.resets && s.resets[i].tokenHash in s.commits ensures s.resets[i].used {
      var k :| 0 <= k < |s.commits| && s.commits[k] == s.resets[i].tokenHash;
      assert UsedHash(s, s.commits[k]);
    }
  }

  /** The comment's two claims, for a token with an exhausted budget. It is never
      claimed again, whatever runs afterwards: that part is true. It is marked as
      used if and only if a reset with it had committed: exhausting the budget by
      itself marks nothing. */
  lemma ExhaustedToken(cfg: Config, steps: seq<Step>, more: seq<Step>, row: int, r: int)
    requires row in Run(cfg, steps).resets && Run(cfg, steps).resets[row].attempts >= cfg.maxAttempts
    ensures !Enabled(cfg, Run(cfg, steps + more), ClaimHit(r, row))
    ensures row in Run(cfg, steps + more).resets
    ensures var s := Run(cfg, steps + more);
            s.resets[row].used <==> s.resets[row].tokenHash in s.commits
  {
    NothingReverts(cfg, steps, more);
    UsedIffCommitted(cfg, steps + more);
  }

  function Until(lifetime: int): nat {
    if lifetime > 0 then lifetime else 0
  }

  /** The user asks for a token and lets it expire. If `slow`, request 0 begins
      before the expiry and does not come to its claim. */
  function LetExpire(cfg: Config, slow: bool): seq<Step> {
    if slow then AskForToken() + [Begin(0, "t")] + [Tick(Until(cfg.tokenLifetime))]
    else AskForToken() + [Tick(Until(cfg.tokenLifetime))]
  }

  /** Then n requests, one after the other, present the token and miss. */
  function LateTries(cfg: Config, slow: bool, n: nat): seq<Step> {
    if n == 0 then LetExpire(cfg, slow)
    else LateTries(cfg, slow, n - 1) + [Begin(n, "t"), ClaimMiss(n), RecordAttempt(n)]
  }

  function FirstIds(n: nat): (ids: set<int>)
    ensures forall r :: r in ids ==> 1 <= r <= n
  {
    if n == 0 then {} else FirstIds(n - 1) + {n}
  }

  function SlowOnly(slow: bool): map<int, Request> {
    if slow then map[0 := Begun("t", 0)] else map[]
  }

  /** The state after n such tries, and during the next one. */
  function Tried(cfg: Config, slow: bool, n: nat): State {
    WithToken(cfg).(
      now := Until(cfg.tokenLifetime), requests := SlowOnly(slow), seen := FirstIds(n) + SlowOnly(slow).Keys,
      resets := map[1 := ResetRow("u", "t", 0, cfg.tokenLifetime, false, n)])
  }

  function Trying(cfg: Config, slow: bool, n: nat, request: Request): State {
    Tried(cfg, slow, n).(requests := SlowOnly(slow)[n + 1 := request], seen := FirstIds(n + 1) + SlowOnly(slow).Keys)
  }

  lemma BeginTry(cfg: Config, slow: bool, n: nat)
    ensures Next(cfg, Tried(cfg, slow, n), Begin(n + 1, "t")) == Trying(cfg, slow, n, Begun("t", Until(cfg.tokenLifetime)))
  {
    assert n + 1 !in Tried(cfg, slow, n).seen;
    assert FirstIds(n) + SlowOnly(slow).Keys + {n + 1} == FirstIds(n + 1) + SlowOnly(slow).Keys;
  }

  lemma MissTry(cfg: Config, slow: bool, n: nat)
    ensures Next(cfg, Trying(cfg, slow, n, Begun("t", Until(cfg.tokenLifetime))), ClaimMiss(n + 1))
            == Trying(cfg, slow, n, Missed("t"))
  {
  }

  lemma RecordTry(cfg: Config, slow: bool, n: nat)
    ensures Next(cfg, Trying(cfg, slow, n, Missed("t")), RecordAttempt(n + 1)) == Tried(cfg, slow, n + 1)
  {
    var s := Trying(cfg, slow, n, Missed("t"));
    assert forall i :: !RowLocked(s, i);
    assert s.requests - {n + 1} == SlowOnly(slow);
  }

  lemma RunThree(cfg: Config, steps: seq<Step>, a: Step, b: Step, c: Step)
    ensures Run(cfg, steps + [a, b, c]) == Next(cfg, Next(cfg, Next(cfg, Run(cfg, steps), a), b), c)
  {
    assert steps + [a, b, c] == steps + [a] + [b] + [c];
    RunSnoc(cfg, steps, a);
    RunSnoc(cfg, steps + [a], b);
    RunSnoc(cfg, steps + [a] + [b], c);
  }

  lemma OneMoreTry(cfg: Config, slow: bool, n: nat, steps: seq<Step>)
    requires Run(cfg, steps) == Tried(cfg, slow, n)
    ensures Run(cfg, steps + [Begin(n + 1, "t"), ClaimMiss(n + 1), RecordAttempt(n + 1)]) == Tried(cfg, slow, n + 1)
  {
    RunThree(cfg, steps, Begin(n + 1, "t"), ClaimMiss(n + 1), RecordAttempt(n + 1));
    BeginTry(cfg, slow, n);
    MissTry(cfg, slow, n);
    RecordTry(cfg, slow, n);
  }

  lemma Expired(cfg: Config, slow: bool)
    requires cfg.rateMax > 0
    ensures Run(cfg, LetExpire(cfg, slow)) == Tried(cfg, slow, 0)
  {
    var asked, tick := AskForToken(), Tick(Until(cfg.tokenLifetime));
    assert asked[..2] == asked;
    Asked(cfg, asked);
    if slow {
      SlowExpires(cfg);
      RunSnoc(cfg, asked, Begin(0, "t"));
      RunSnoc(cfg, asked + [Begin(0, "t")], tick);
    } else {
      RunSnoc(cfg, asked, tick);
    }
  }

  lemma SlowExpires(cfg: Config)
    ensures Next(cfg, Next(cfg, WithToken(cfg), Begin(0, "t")), Tick(Until(cfg.tokenLifetime))) == Tried(cfg, true, 0)
  {
  }

  lemma {:induction false} AfterLateTries(cfg: Config, slow: bool, n: nat)
    requires cfg.rateMax > 0
    ensures Run(cfg, LateTries(cfg, slow, n)) == Tried(cfg, slow, n)
  {
    if n == 0 {
      Expired(cfg, slow);
    } else {
      AfterLateTries(cfg, slow, n - 1);
      OneMoreTry(cfg, slow, n - 1, LateTries(cfg, slow, n - 1));
    }
  }

  /** The input on which the comment is wrong, for every positive budget: the token
      is presented max_attempts times, the counter is exhausted, `used` is FALSE. */
  lemma ExhaustedNotUsed(cfg: Config)
    requires cfg.maxAttempts > 0 && cfg.rateMax > 0
    ensures var s := Run(cfg, LateTries(cfg, false, cfg.maxAttempts));
            1 in s.resets && s.resets[1].attempts == cfg.maxAttempts && !s.resets[1].used
  {
    AfterLateTries(cfg, false, cfg.maxAttempts);
  }
}
