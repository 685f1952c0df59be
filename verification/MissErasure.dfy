/** What a request that only missed its claim leaves behind: its attempts, and
    nothing else, as long as no other request's claim hangs on the counter. */
module MissErasure {
  import opened TokenTables
  import opened ResetProtocol
  import opened AttemptBudget
  import opened ExampleRuns

  /** The same state except for attempt counters that are lower or equal. */
  predicate FewerAttempts(t: State, s: State) {
    && t == s.(resets := t.resets) && t.resets.Keys == s.resets.Keys
    && forall i :: i in s.resets ==>
         t.resets[i] == s.resets[i].(attempts := t.resets[i].attempts) && t.resets[i].attempts <= s.resets[i].attempts
  }

  /** A missed claim would miss with any counter: every row of its token is used
      or had expired when its transaction began. */
  predicate Settled(s: State, step: Step) {
    step.ClaimMiss? && step.r in s.requests && s.requests[step.r].Begun? ==>
      forall i :: i in s.resets && s.resets[i].tokenHash == s.requests[step.r].tokenHash ==>
        s.resets[i].used || s.resets[i].expiresAt <= s.requests[step.r].startedAt
  }

  lemma ClaimsFewer(cfg: Config, t: State, s: State, step: Step)
    requires FewerAttempts(t, s) && Enabled(cfg, s, step) && Settled(s, step)
    requires step.ClaimHit? || step.ClaimMiss?
    ensures Enabled(cfg, t, step) && FewerAttempts(Apply(cfg, t, step), Apply(cfg, s, step))
  {
    assert forall i :: RowLocked(t, i) ==> RowLocked(s, i);
  }

  lemma WritesFewer(cfg: Config, t: State, s: State, step: Step)
    requires FewerAttempts(t, s) && Enabled(cfg, s, step)
    requires step.RecordAttempt? || step.Commit? || step.UpdatePassword? || step.RevokeTokens?
    ensures Enabled(cfg, t, step) && FewerAttempts(Apply(cfg, t, step), Apply(cfg, s, step))
  {
    assert forall i :: RowLocked(t, i) ==> RowLocked(s, i);
    assert forall u :: UserLocked(t, u) ==> UserLocked(s, u);
    assert forall k :: TokenLocked(t, k) ==> TokenLocked(s, k);
    assert forall u :: TokensOf(t, u) == TokensOf(s, u);
  }

  lemma RecentFewer(t: State, s: State, userId: string, window: int)
    requires FewerAttempts(t, s)
    ensures Recent(t, userId, window) == Recent(s, userId, window)
  {
    forall i ensures i in Recent(t, userId, window) <==> i in Recent(s, userId, window) {
      assert i in s.resets ==> t.resets[i] == s.resets[i].(attempts := t.resets[i].attempts);
    }
  }

  lemma OthersFewer(cfg: Config, t: State, s: State, step: Step)
    requires FewerAttempts(t, s) && Enabled(cfg, s, step)
    requires Plain(step) || step.Begin? || step.Rollback?
    ensures Enabled(cfg, t, step) && FewerAttempts(Apply(cfg, t, step), Apply(cfg, s, step))
  {
    assert forall u :: UserLocked(t, u) ==> UserLocked(s, u);
    assert forall k :: TokenLocked(t, k) ==> TokenLocked(s, k);
    if step.Forgot? {
      RecentFewer(t, s, step.userId, cfg.rateWindow);
    }
  }

  lemma StepFewer(cfg: Config, t: State, s: State, step: Step)
    requires FewerAttempts(t, s) && Enabled(cfg, s, step) && Settled(s, step)
    ensures Enabled(cfg, t, step) && FewerAttempts(Apply(cfg, t, step), Apply(cfg, s, step))
  {
    match step
    case ClaimHit(_, _) => ClaimsFewer(cfg, t, s, step);
    case ClaimMiss(_) => ClaimsFewer(cfg, t, s, step);
    case RecordAttempt(_) => WritesFewer(cfg, t, s, step);
    case Commit(_) => WritesFewer(cfg, t, s, step);
    case UpdatePassword(_, _) => WritesFewer(cfg, t, s, step);
    case RevokeTokens(_) => WritesFewer(cfg, t, s, step);
    case _ => OthersFewer(cfg, t, s, step);
  }

  lemma OwnStepFewer(cfg: Config, s: State, step: Step, r: int)
    requires Enabled(cfg, s, step) && step.OfRequest(r) && !step.Commit?
    ensures FewerAttempts(Without(s, r), Without(Apply(cfg, s, step), r))
  {
  }

  lemma OwnStepErased(cfg: Config, s: State, t: State, step: Step, r: int)
    requires FewerAttempts(t, Without(s, r)) && Enabled(cfg, s, step) && step.OfRequest(r) && !step.Commit?
    ensures FewerAttempts(t, Without(Next(cfg, s, step), r))
  {
    OwnStepFewer(cfg, s, step, r);
  }

  lemma OtherStepErased(cfg: Config, s: State, t: State, step: Step, r: int)
    requires FewerAttempts(t, Without(s, r)) && Enabled(cfg, s, step) && !step.OfRequest(r) && Settled(s, step)
    ensures Enabled(cfg, t, step) && FewerAttempts(Next(cfg, t, step), Without(Next(cfg, s, step), r))
  {
    ApplyWithout(cfg, s, step, r);
    StepFewer(cfg, t, Without(s, r), step);
  }

  ghost predicate SettledBut(cfg: Config, steps: seq<Step>, r: int) {
    forall i :: 0 <= i < |steps| && !steps[i].OfRequest(r) ==> Settled(Run(cfg, steps[..i]), steps[i])
  }

  lemma SettledFront(cfg: Config, steps: seq<Step>, r: int)
    requires steps != [] && SettledBut(cfg, steps, r)
    ensures SettledBut(cfg, steps[..|steps| - 1], r)
    ensures !steps[|steps| - 1].OfRequest(r) ==> Settled(Run(cfg, steps[..|steps| - 1]), steps[|steps| - 1])
  {
    var front := steps[..|steps| - 1];
    forall i | 0 <= i < |front| && !front[i].OfRequest(r) ensures Settled(Run(cfg, front[..i]), front[i]) {
      assert front[i] == steps[i] && front[..i] == steps[..i];
    }
  }

  /** Take any run in which request r never commits and no other request's miss
      hangs on the counter. Without r's steps the run can happen too, and it ends
      in the same state except for lower attempt counters. */
  lemma {:induction false} MissLeavesOnlyAttempts(cfg: Config, steps: seq<Step>, r: int)
    requires Valid(cfg, steps) && SettledBut(cfg, steps, r)
    requires forall i :: 0 <= i < |steps| ==> steps[i] != Commit(r)
    ensures Valid(cfg, Erase(steps, r))
    ensures FewerAttempts(Run(cfg, Erase(steps, r)), Without(Run(cfg, steps), r))
  {
    if steps != [] {
      var n := |steps| - 1;
      var front, step, s := steps[..n], steps[n], Run(cfg, steps[..n]);
      assert forall i :: 0 <= i < n ==> front[i] == steps[i];
      SettledFront(cfg, steps, r);
      MissLeavesOnlyAttempts(cfg, front, r);
      var t := Run(cfg, Erase(front, r));
      if step.OfRequest(r) {
        assert step != Commit(r);
        OwnStepErased(cfg, s, t, step, r);
        assert Erase(steps, r) == Erase(front, r);
      } else {
        OtherStepErased(cfg, s, t, step, r);
        assert Erase(steps, r) == Erase(front, r) + [step];
        RunSnoc(cfg, Erase(front, r), step);
        assert (Erase(front, r) + [step])[..|Erase(front, r)|] == Erase(front, r);
      }
    }
  }

  /** An unused row of the token has expired since the request began. */
  predicate ExpiredMeanwhile(s: State, q: int)
    requires q in s.requests && s.requests[q].Begun?
  {
    exists i :: i in s.resets && s.resets[i].tokenHash == s.requests[q].tokenHash && !s.resets[i].used
                && s.requests[q].startedAt < s.resets[i].expiresAt <= s.now
  }

  /** With a positive budget, exactly when a miss hangs on the counter: the request
      began before the expiry of an unused token and comes to its claim after it. */
  lemma MissSettledIff(cfg: Config, steps: seq<Step>, q: int)
    requires cfg.maxAttempts > 0 && Enabled(cfg, Run(cfg, steps), ClaimMiss(q))
    ensures Settled(Run(cfg, steps), ClaimMiss(q)) <==> !ExpiredMeanwhile(Run(cfg, steps), q)
  {
    var s := Run(cfg, steps);
    AttemptsOnlyOnDead(cfg, steps);
    forall i | i in s.resets && s.resets[i].tokenHash == s.requests[q].tokenHash
      ensures s.resets[i].used || s.resets[i].expiresAt <= s.now
    {
      assert !Claimable(cfg, s, i, s.requests[q].tokenHash, s.requests[q].startedAt);
      assert s.resets[i].attempts > 0 ==> Dead(s, i);
    }
  }

  /** In particular no miss does that runs at the instant its transaction began. */
  lemma PromptMissIsSettled(cfg: Config, steps: seq<Step>, q: int)
    requires cfg.maxAttempts > 0
    requires var s := Run(cfg, steps);
             Enabled(cfg, s, ClaimMiss(q)) && s.requests[q].startedAt == s.now
    ensures Settled(Run(cfg, steps), ClaimMiss(q))
  {
    MissSettledIff(cfg, steps, q);
  }

  // ----- The condition is needed -----

  /** For every positive budget: request 0 begins in time and is slow, and the token
      expires. It could still claim the token. After max_attempts requests have
      missed, it misses too, although nothing has used the token. */
  lemma MissesDecideSlowClaim(cfg: Config)
    requires Usable(cfg)
    ensures var s, s' := Run(cfg, LateTries(cfg, true, 0)), Run(cfg, LateTries(cfg, true, cfg.maxAttempts));
            && Enabled(cfg, s, ClaimHit(0, 1)) && !Enabled(cfg, s, ClaimMiss(0))
            && Enabled(cfg, s', ClaimMiss(0)) && !Enabled(cfg, s', ClaimHit(0, 1))
            && s'.commits == [] && ExpiredMeanwhile(s', 0)
  {
    AfterLateTries(cfg, true, 0);
    AfterLateTries(cfg, true, cfg.maxAttempts);
    SlowMisses(cfg);
    SlowCouldClaim(cfg);
  }

  lemma SlowCouldClaim(cfg: Config)
    requires Usable(cfg)
    ensures var s := Tried(cfg, true, 0);
            Enabled(cfg, s, ClaimHit(0, 1)) && !Enabled(cfg, s, ClaimMiss(0))
  {
    var s := Tried(cfg, true, 0);
    assert Claimable(cfg, s, 1, "t", 0) && !RowLocked(s, 1);
  }

  lemma SlowMisses(cfg: Config)
    requires Usable(cfg)
    ensures var s := Tried(cfg, true, cfg.maxAttempts);
            Enabled(cfg, s, ClaimMiss(0)) && !Enabled(cfg, s, ClaimHit(0, 1)) && s.commits == [] && ExpiredMeanwhile(s, 0)
  {
    assert 1 in Tried(cfg, true, cfg.maxAttempts).resets;
  }
}
