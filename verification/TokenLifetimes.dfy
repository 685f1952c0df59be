/** How long an issued token is good for: a reset token from the moment it was asked
    for until its lifetime has passed, a refresh token likewise from its issue, both
    unless they are used or revoked before. */
module TokenLifetimes {
  import opened TokenTables
  import opened ResetProtocol
  import opened AttemptBudget

  // ----- Reset tokens -----

  ghost predicate ExpiriesRight(cfg: Config, s: State) {
    forall i :: i in s.resets ==>
      s.resets[i].expiresAt == s.resets[i].createdAt + cfg.tokenLifetime && s.resets[i].createdAt <= s.now
  }

  lemma NextExpiriesRight(cfg: Config, s: State, step: Step)
    requires ExpiriesRight(cfg, s)
    ensures ExpiriesRight(cfg, Next(cfg, s, step))
  {
  }

  /** In every run each reset token expires its lifetime after it was stored. */
  lemma {:induction false} RunExpiries(cfg: Config, steps: seq<Step>)
    ensures ExpiriesRight(cfg, Run(cfg, steps))
  {
    if steps != [] {
      RunExpiries(cfg, steps[..|steps| - 1]);
      NextExpiriesRight(cfg, Run(cfg, steps[..|steps| - 1]), steps[|steps| - 1]);
    }
  }

  lemma NextKeepsReset(cfg: Config, s: State, step: Step, row: int)
    requires Keys(s) && row in s.resets
    ensures row in Next(cfg, s, step).resets
    ensures var first, later := s.resets[row], Next(cfg, s, step).resets[row];
            later == first.(used := later.used, attempts := later.attempts)
  {
  }

  /** Whose token a row is, and from when until when, never changes. */
  lemma {:induction false} ResetKept(cfg: Config, steps: seq<Step>, more: seq<Step>, row: int)
    requires row in Run(cfg, steps).resets
    ensures row in Run(cfg, steps + more).resets
    ensures var first, later := Run(cfg, steps).resets[row], Run(cfg, steps + more).resets[row];
            later == first.(used := later.used, attempts := later.attempts)
  {
    if more == [] {
      assert steps + more == steps;
    } else {
      var n := |more| - 1;
      ResetKept(cfg, steps, more[..n], row);
      RunSafe(cfg, steps + more[..n]);
      assert steps + more == steps + more[..n] + [more[n]];
      RunSnoc(cfg, steps + more[..n], more[n]);
      NextKeepsReset(cfg, Run(cfg, steps + more[..n]), more[n], row);
    }
  }

  /** A user asks for a token at some time; anything at all follows. With a positive
      budget, a request that begins then and presents the token can claim the new row
      if and only if less than the lifetime has passed since the asking, the token
      has not been used and no open reset holds it; and it can claim no other row. */
  lemma IssuedTokenClaimable(cfg: Config, steps: seq<Step>, more: seq<Step>, userId: string, tokenHash: string, r: int, row: int)
    requires cfg.maxAttempts > 0 && Enabled(cfg, Run(cfg, steps), Forgot(userId, tokenHash))
    requires r !in Run(cfg, steps + [Forgot(userId, tokenHash)] + more).seen
    ensures var asked, issued := Run(cfg, steps).now, Run(cfg, steps).nextReset;
            var s := Run(cfg, steps + [Forgot(userId, tokenHash)] + more);
            && issued in s.resets && s.resets[issued].userId == userId && s.resets[issued].tokenHash == tokenHash
            && (Enabled(cfg, Next(cfg, s, Begin(r, tokenHash)), ClaimHit(r, row)) <==>
                  row == issued && s.now < asked + cfg.tokenLifetime && !s.resets[issued].used && !RowLocked(s, issued))
  {
    var before := steps + [Forgot(userId, tokenHash)];
    var issued, s := Run(cfg, steps).nextReset, Run(cfg, before + more);
    RunSnoc(cfg, steps, Forgot(userId, tokenHash));
    ResetKept(cfg, before, more, issued);
    RunSafe(cfg, before + more);
    AttemptsOnlyOnDead(cfg, before + more);
    BeginKeepsLocks(cfg, s, r, tokenHash);
    assert s.resets[issued].attempts > 0 ==> Dead(s, issued);
    assert row in s.resets && s.resets[row].tokenHash == tokenHash ==> row == issued;
  }

  lemma BeginKeepsLocks(cfg: Config, s: State, r: int, tokenHash: string)
    requires Keys(s) && r !in s.seen
    ensures var s' := Next(cfg, s, Begin(r, tokenHash));
            s' == s.(requests := s.requests[r := Begun(tokenHash, s.now)], seen := s.seen + {r})
            && forall i :: RowLocked(s', i) == RowLocked(s, i)
  {
    var s' := Next(cfg, s, Begin(r, tokenHash));
    forall i ensures RowLocked(s', i) == RowLocked(s, i) {
      if RowLocked(s, i) {
        var q :| q in s.requests && s.requests[q].HoldsRow() && s.requests[q].row == i;
        assert q in s'.requests && s'.requests[q].HoldsRow() && s'.requests[q].row == i;
      }
    }
  }

  // ----- Refresh tokens -----

  lemma NextKeepsRefresh(cfg: Config, s: State, step: Step, token: int)
    requires Keys(s) && token in s.refresh
    ensures token in Next(cfg, s, step).refresh
    ensures var first, later := s.refresh[token], Next(cfg, s, step).refresh[token];
            later == first.(revoked := later.revoked)
  {
  }

  lemma {:induction false} RefreshKept(cfg: Config, steps: seq<Step>, more: seq<Step>, token: int)
    requires token in Run(cfg, steps).refresh
    ensures token in Run(cfg, steps + more).refresh
    ensures var first, later := Run(cfg, steps).refresh[token], Run(cfg, steps + more).refresh[token];
            later == first.(revoked := later.revoked)
  {
    if more == [] {
      assert steps + more == steps;
    } else {
      var n := |more| - 1;
      RefreshKept(cfg, steps, more[..n], token);
      RunSafe(cfg, steps + more[..n]);
      assert steps + more == steps + more[..n] + [more[n]];
      RunSnoc(cfg, steps + more[..n], more[n]);
      NextKeepsRefresh(cfg, Run(cfg, steps + more[..n]), more[n], token);
    }
  }

  /** The user and the hash that a login or a refresh issues a token for. */
  predicate IssuesTo(step: Step, userId: string, tokenHash: string) {
    step == Login(userId, tokenHash) || (step.Refresh? && step.userId == userId && step.newTokenHash == tokenHash)
  }

  /** A login or a refresh issues a token at some time; anything at all follows. The
      token is stored under its hash for its user, and live if and only if less than
      the refresh lifetime has passed since and it has not been revoked. */
  lemma IssuedTokenLive(cfg: Config, steps: seq<Step>, more: seq<Step>, step: Step, userId: string, tokenHash: string, u: string)
    requires IssuesTo(step, userId, tokenHash) && Enabled(cfg, Run(cfg, steps), step)
    ensures var at, issued := Run(cfg, steps).now, Run(cfg, steps).nextRefresh;
            var s := Run(cfg, steps + [step] + more);
            && issued in s.refresh && s.refresh[issued].tokenHash == tokenHash
            && (IsLive(s, issued, u) <==> u == userId && !s.refresh[issued].revoked && s.now < at + cfg.refreshLifetime)
  {
    RunSafe(cfg, steps);
    RunSnoc(cfg, steps, step);
    RefreshKept(cfg, steps + [step], more, Run(cfg, steps).nextRefresh);
  }

  /** And right after its issue it is not revoked. */
  lemma IssuedUnrevoked(cfg: Config, steps: seq<Step>, step: Step, userId: string, tokenHash: string)
    requires IssuesTo(step, userId, tokenHash) && Enabled(cfg, Run(cfg, steps), step)
    ensures var issued, s := Run(cfg, steps).nextRefresh, Run(cfg, steps + [step]);
            issued in s.refresh && !s.refresh[issued].revoked
  {
    RunSnoc(cfg, steps, step);
  }

  /** The same of a reset token. */
  lemma IssuedUnused(cfg: Config, steps: seq<Step>, userId: string, tokenHash: string)
    requires Enabled(cfg, Run(cfg, steps), Forgot(userId, tokenHash))
    ensures var issued, s := Run(cfg, steps).nextReset, Run(cfg, steps + [Forgot(userId, tokenHash)]);
            issued in s.resets && !s.resets[issued].used && !RowLocked(s, issued)
  {
    RunSafe(cfg, steps);
    RunSnoc(cfg, steps, Forgot(userId, tokenHash));
    var s0, s := Run(cfg, steps), Run(cfg, steps + [Forgot(userId, tokenHash)]);
    assert s.requests == s0.requests;
    forall q | q in s.requests && s.requests[q].HoldsRow() ensures s.requests[q].row != s0.nextReset {
      assert s0.requests[q].row in s0.resets;
    }
  }
}
