/** What every interleaving of password-reset requests keeps. */
module ResetProtocol {
  import opened TokenTables

  // ----- At most one commit per token -----

  ghost predicate Keys(s: State) {
    && (forall i :: i in s.resets ==> 0 < i < s.nextReset) && 0 < s.nextReset
    && (forall t :: t in s.refresh ==> 0 < t < s.nextRefresh) && 0 < s.nextRefresh
    && (forall r :: r in s.requests ==> r in s.seen)
  }

  /** A token hash names one row. */
  ghost predicate UniqueHashes(s: State) {
    forall i, j :: i in s.resets && j in s.resets && s.resets[i].tokenHash == s.resets[j].tokenHash ==> i == j
  }

  /** A claimed row is unused as committed, belongs to the claiming request's
      user, and is claimed by one request only. */
  ghost predicate ExclusiveClaims(s: State) {
    && (forall r :: r in s.requests && s.requests[r].HoldsRow() ==>
          && s.requests[r].row in s.resets && !s.resets[s.requests[r].row].used
          && s.resets[s.requests[r].row].userId == s.requests[r].userId)
    && (forall q, r | q in s.requests && r in s.requests && s.requests[q].HoldsRow() && s.requests[r].HoldsRow() ::
          s.requests[q].row == s.requests[r].row ==> q == r)
  }

  /** Two open transactions never hold the same user row. */
  ghost predicate ExclusiveUsers(s: State) {
    forall q, r | q in s.requests && r in s.requests && s.requests[q].HoldsUser() && s.requests[r].HoldsUser() ::
      s.requests[q].userId == s.requests[r].userId ==> q == r
  }

  /** The foreign key from reset tokens to users. */
  ghost predicate ResetsOwned(s: State) {
    forall i :: i in s.resets ==> s.resets[i].userId in s.passwords
  }

  predicate Distinct(xs: seq<string>) {
    forall i, j :: 0 <= i < j < |xs| ==> xs[i] != xs[j]
  }

  ghost predicate UsedHash(s: State, tokenHash: string) {
    exists i :: i in s.resets && s.resets[i].tokenHash == tokenHash && s.resets[i].used
  }

  /** Committed tokens are used, stored, and each committed once. */
  ghost predicate CommitsUsed(s: State) {
    && Distinct(s.commits)
    && (forall k :: 0 <= k < |s.commits| ==> UsedHash(s, s.commits[k]))
  }

  /** Once committed, `used` never reverts, and `revoked` never returns to FALSE;
      rows are never lost and keep their identity. */
  lemma NextMonotone(cfg: Config, s: State, step: Step)
    requires Keys(s)
    ensures var s' := Next(cfg, s, step);
            && s.now <= s'.now
            && (forall i :: i in s.resets ==>
                  && i in s'.resets && s'.resets[i].tokenHash == s.resets[i].tokenHash
                  && s'.resets[i].expiresAt == s.resets[i].expiresAt && (s.resets[i].used ==> s'.resets[i].used)
                  && s.resets[i].attempts <= s'.resets[i].attempts)
            && (forall t :: t in s.refresh ==>
                  && t in s'.refresh && s'.refresh[t].tokenHash == s.refresh[t].tokenHash
                  && s'.refresh[t].userId == s.refresh[t].userId && (s.refresh[t].revoked ==> s'.refresh[t].revoked))
  {
  }

  lemma NextKeys(cfg: Config, s: State, step: Step)
    requires Keys(s)
    ensures Keys(Next(cfg, s, step))
  {
  }

  lemma NextUniqueHashes(cfg: Config, s: State, step: Step)
    requires Keys(s) && UniqueHashes(s)
    ensures UniqueHashes(Next(cfg, s, step))
  {
  }

  lemma NextExclusiveClaims(cfg: Config, s: State, step: Step)
    requires Keys(s) && ExclusiveClaims(s)
    ensures ExclusiveClaims(Next(cfg, s, step))
  {
  }

  lemma NextExclusiveUsers(cfg: Config, s: State, step: Step)
    requires ExclusiveUsers(s)
    ensures ExclusiveUsers(Next(cfg, s, step))
  {
  }

  lemma NextResetsOwned(cfg: Config, s: State, step: Step)
    requires ResetsOwned(s)
    ensures ResetsOwned(Next(cfg, s, step))
  {
  }

  lemma NextCommitsUsed(cfg: Config, s: State, step: Step)
    requires Keys(s) && UniqueHashes(s) && ExclusiveClaims(s) && CommitsUsed(s)
    ensures CommitsUsed(Next(cfg, s, step))
  {
    var s' := Next(cfg, s, step);
    forall k | 0 <= k < |s.commits| ensures UsedHash(s', s.commits[k]) {
      assert UsedHash(s, s.commits[k]);
      UsedHashStays(cfg, s, step, s.commits[k]);
    }
    if s'.commits != s.commits {
      var row := s.requests[step.r].row;
      var hash := s.resets[row].tokenHash;
      assert s'.commits == s.commits + [hash];
      forall k | 0 <= k < |s.commits| ensures s.commits[k] != hash {
        assert UsedHash(s, s.commits[k]);
        assert !s.resets[row].used;
      }
      assert row in s'.resets && s'.resets[row].tokenHash == hash && s'.resets[row].used;
      assert UsedHash(s', hash);
    }
  }

  lemma UsedHashStays(cfg: Config, s: State, step: Step, tokenHash: string)
    requires Keys(s) && UsedHash(s, tokenHash)
    ensures UsedHash(Next(cfg, s, step), tokenHash)
  {
    var i :| i in s.resets && s.resets[i].tokenHash == tokenHash && s.resets[i].used;
    NextMonotone(cfg, s, step);
    assert i in Next(cfg, s, step).resets;
  }

  ghost predicate Safe(s: State) {
    Keys(s) && UniqueHashes(s) && ExclusiveClaims(s) && ExclusiveUsers(s) && ResetsOwned(s) && CommitsUsed(s)
  }

  /** In every interleaving of any number of requests at most one commits per
      reset token, whose row is used from then on. */
  lemma {:induction false} RunSafe(cfg: Config, steps: seq<Step>)
    ensures Safe(Run(cfg, steps))
  {
    if steps != [] {
      var s, step := Run(cfg, steps[..|steps| - 1]), steps[|steps| - 1];
      RunSafe(cfg, steps[..|steps| - 1]);
      NextKeys(cfg, s, step);
      NextUniqueHashes(cfg, s, step);
      NextExclusiveClaims(cfg, s, step);
      NextExclusiveUsers(cfg, s, step);
      NextResetsOwned(cfg, s, step);
      NextCommitsUsed(cfg, s, step);
    }
  }

  /** Once a reset with some token has committed, no request ever claims it again,
      in whatever state it is and whatever runs in between. */
  lemma CommittedTokenIsSpent(cfg: Config, steps: seq<Step>, more: seq<Step>, tokenHash: string, r: int, row: int)
    requires tokenHash in Run(cfg, steps).commits
    ensures var s := Run(cfg, steps + more);
            r in s.requests && s.requests[r].Presents(tokenHash) ==> !Enabled(cfg, s, ClaimHit(r, row))
  {
    var s0, s := Run(cfg, steps), Run(cfg, steps + more);
    RunSafe(cfg, steps);
    RunSafe(cfg, steps + more);
    NothingReverts(cfg, steps, more);
    var k :| 0 <= k < |s0.commits| && s0.commits[k] == tokenHash;
    assert UsedHash(s0, s0.commits[k]);
    var i :| i in s0.resets && s0.resets[i].tokenHash == tokenHash && s0.resets[i].used;
    assert i in s.resets && s.resets[i].used;
  }

  // ----- A request that does not commit leaves no trace -----

  function Without(s: State, r: int): State {
    s.(requests := s.requests - {r}, seen := s.seen - {r})
  }

  /** Every step of the sequence could happen when its turn came. */
  predicate Valid(cfg: Config, steps: seq<Step>) {
    steps == [] || (Valid(cfg, steps[..|steps| - 1]) && Enabled(cfg, Run(cfg, steps[..|steps| - 1]), steps[|steps| - 1]))
  }

  function Erase(steps: seq<Step>, r: int): seq<Step> {
    if steps == [] then []
    else
      var n := |steps| - 1;
      Erase(steps[..n], r) + if steps[n].OfRequest(r) then [] else [steps[n]]
  }

  /** Without its own locks and presence, nothing that could happen is prevented. */
  lemma EnabledWithout(cfg: Config, s: State, step: Step, r: int)
    requires Enabled(cfg, s, step) && !step.OfRequest(r)
    ensures Enabled(cfg, Without(s, r), step)
  {
    var t := Without(s, r);
    assert forall i :: RowLocked(t, i) ==> RowLocked(s, i);
    assert forall u :: UserLocked(t, u) ==> UserLocked(s, u);
    assert forall k :: TokenLocked(t, k) ==> TokenLocked(s, k);
    match step
    case Forgot(u, h) => assert Recent(t, u, cfg.rateWindow) == Recent(s, u, cfg.rateWindow);
    case RevokeTokens(q) => assert TokensOf(t, s.requests[q].userId) == TokensOf(s, s.requests[q].userId);
    case RecordAttempt(q) => assert RowsOf(t, s.requests[q].tokenHash) == RowsOf(s, s.requests[q].tokenHash);
    case _ =>
  }

  lemma RevokeWithout(cfg: Config, s: State, q: int, r: int)
    requires q != r && Enabled(cfg, s, RevokeTokens(q)) && Enabled(cfg, Without(s, r), RevokeTokens(q))
    ensures Apply(cfg, Without(s, r), RevokeTokens(q)) == Without(Apply(cfg, s, RevokeTokens(q)), r)
  {
    assert TokensOf(Without(s, r), s.requests[q].userId) == TokensOf(s, s.requests[q].userId);
  }

  lemma CommitWithout(cfg: Config, s: State, q: int, r: int)
    requires q != r && Enabled(cfg, s, Commit(q)) && Enabled(cfg, Without(s, r), Commit(q))
    ensures Apply(cfg, Without(s, r), Commit(q)) == Without(Apply(cfg, s, Commit(q)), r)
  {
  }

  predicate Plain(step: Step) {
    step.Tick? || step.Register? || step.ChangePassword? || step.Forgot? || step.Login? || step.Refresh? || step.Logout?
  }

  lemma PlainWithout(cfg: Config, s: State, step: Step, r: int)
    requires Plain(step) && Enabled(cfg, s, step) && Enabled(cfg, Without(s, r), step)
    ensures Apply(cfg, Without(s, r), step) == Without(Apply(cfg, s, step), r)
  {
  }

  lemma ApplyWithout(cfg: Config, s: State, step: Step, r: int)
    requires Enabled(cfg, s, step) && !step.OfRequest(r)
    ensures Enabled(cfg, Without(s, r), step)
    ensures Apply(cfg, Without(s, r), step) == Without(Apply(cfg, s, step), r)
  {
    EnabledWithout(cfg, s, step, r);
    match step
    case RevokeTokens(q) => RevokeWithout(cfg, s, q, r);
    case Commit(q) => CommitWithout(cfg, s, q, r);
    case Begin(_, _) =>
    case ClaimHit(_, _) =>
    case ClaimMiss(_) =>
    case RecordAttempt(_) =>
    case UpdatePassword(_, _) =>
    case Rollback(_) =>
    case _ => PlainWithout(cfg, s, step, r);
  }

  lemma OwnStepInvisible(cfg: Config, s: State, step: Step, r: int)
    requires Enabled(cfg, s, step) && step.OfRequest(r) && !step.Commit? && !step.RecordAttempt?
    ensures Without(Apply(cfg, s, step), r) == Without(s, r)
  {
  }

  /** Take any run in which request r neither commits nor records a missed claim,
      wherever it was rolled back or left. Deleting all of r's steps gives a run
      that can happen too and that ends in the same tables, with the same other
      requests: users, tokens and the claim are as if r had never run. */
  lemma {:induction false} UncommittedLeavesNoTrace(cfg: Config, steps: seq<Step>, r: int)
    requires Valid(cfg, steps)
    requires forall i :: 0 <= i < |steps| && steps[i].OfRequest(r) ==> !steps[i].Commit? && !steps[i].RecordAttempt?
    ensures Valid(cfg, Erase(steps, r))
    ensures Run(cfg, Erase(steps, r)) == Without(Run(cfg, steps), r)
  {
    if steps != [] {
      var n := |steps| - 1;
      var front, step, s := steps[..n], steps[n], Run(cfg, steps[..n]);
      assert forall i :: 0 <= i < n ==> front[i] == steps[i];
      UncommittedLeavesNoTrace(cfg, front, r);
      if step.OfRequest(r) {
        OwnStepInvisible(cfg, s, step, r);
        assert Erase(steps, r) == Erase(front, r);
      } else {
        ApplyWithout(cfg, s, step, r);
        var erased := Erase(steps, r);
        assert erased[..|erased| - 1] == Erase(front, r);
      }
    }
  }

  // ----- What a committed request leaves behind -----

  /** Another request's steps do not touch this request. */
  lemma OthersKeepRequest(cfg: Config, s: State, step: Step, r: int)
    requires Keys(s) && !step.OfRequest(r) && r in s.requests
    ensures r in Next(cfg, s, step).requests && Next(cfg, s, step).requests[r] == s.requests[r]
  {
  }

  /** Once its password and its snapshot of tokens are fixed, request r carries
      them unchanged to its commit, whatever happens in between. */
  lemma {:induction false} CarriedToCommit(cfg: Config, steps: seq<Step>, r: int, from: nat)
    requires from <= |steps| && r in Run(cfg, steps[..from]).requests
    requires forall i :: from <= i < |steps| ==> !steps[i].OfRequest(r)
    ensures r in Run(cfg, steps).requests && Run(cfg, steps).requests[r] == Run(cfg, steps[..from]).requests[r]
  {
    if from < |steps| {
      var n := |steps| - 1;
      assert steps[..n][..from] == steps[..from];
      assert forall i :: from <= i < n ==> steps[..n][i] == steps[i];
      CarriedToCommit(cfg, steps[..n], r, from);
      RunSafe(cfg, steps[..n]);
      OthersKeepRequest(cfg, Run(cfg, steps[..n]), steps[n], r);
    } else {
      assert steps[..from] == steps;
    }
  }

  lemma UpdateCarried(cfg: Config, before: seq<Step>, mid: seq<Step>, r: int, newHash: string)
    requires Enabled(cfg, Run(cfg, before), UpdatePassword(r, newHash))
    requires forall i :: 0 <= i < |mid| ==> !mid[i].OfRequest(r)
    ensures var claim, s := Run(cfg, before).requests[r], Run(cfg, before + [UpdatePassword(r, newHash)] + mid);
            r in s.requests && s.requests[r] == Updated(claim.row, claim.userId, newHash)
  {
    RunSnoc(cfg, before, UpdatePassword(r, newHash));
    CarriedAcross(cfg, before + [UpdatePassword(r, newHash)], mid, r);
  }

  lemma RevokeCarried(cfg: Config, before: seq<Step>, mid: seq<Step>, r: int)
    requires Enabled(cfg, Run(cfg, before), RevokeTokens(r))
    requires forall i :: 0 <= i < |mid| ==> !mid[i].OfRequest(r)
    ensures var s0, s := Run(cfg, before), Run(cfg, before + [RevokeTokens(r)] + mid);
            var q := s0.requests[r];
            && r in s.requests && s.requests[r] == Revoking(q.row, q.userId, q.newHash, TokensOf(s0, q.userId))
            && forall t :: t in s0.refresh ==> t in s.refresh && s.refresh[t].userId == s0.refresh[t].userId
  {
    RunSnoc(cfg, before, RevokeTokens(r));
    CarriedAcross(cfg, before + [RevokeTokens(r)], mid, r);
    NothingReverts(cfg, before, [RevokeTokens(r)] + mid);
    assert before + ([RevokeTokens(r)] + mid) == before + [RevokeTokens(r)] + mid;
  }

  lemma CommitNow(cfg: Config, steps: seq<Step>, r: int)
    requires Enabled(cfg, Run(cfg, steps), Commit(r))
    ensures var s, done := Run(cfg, steps), Run(cfg, steps + [Commit(r)]);
            var q := s.requests[r];
            && q.row in done.resets && done.resets[q.row].used
            && done.commits == s.commits + [done.resets[q.row].tokenHash]
            && q.userId in done.passwords && done.passwords[q.userId] == q.newHash
            && (forall t :: t in q.tokens && t in s.refresh ==> t in done.refresh && done.refresh[t].revoked)
  {
    RunSafe(cfg, steps);
    RunSnoc(cfg, steps, Commit(r));
  }

  /** The three last statements of request r with arbitrary other steps between
      them: right after its commit the claimed row is used, the stored password
      is the one r itself hashed, and every refresh token the user had when r ran
      its revoke statement is revoked. */
  lemma CommitEffect(cfg: Config, before: seq<Step>, mid1: seq<Step>, mid2: seq<Step>, r: int, newHash: string)
    requires Enabled(cfg, Run(cfg, before), UpdatePassword(r, newHash))
    requires forall i :: 0 <= i < |mid1| ==> !mid1[i].OfRequest(r)
    requires forall i :: 0 <= i < |mid2| ==> !mid2[i].OfRequest(r)
    requires Enabled(cfg, Run(cfg, before + [UpdatePassword(r, newHash)] + mid1), RevokeTokens(r))
    ensures var claim := Run(cfg, before).requests[r];
            var atRevoke := before + [UpdatePassword(r, newHash)] + mid1;
            var atCommit := atRevoke + [RevokeTokens(r)] + mid2;
            var s, done := Run(cfg, atCommit), Run(cfg, atCommit + [Commit(r)]);
            && claim.row in done.resets && done.resets[claim.row].used
            && done.commits == s.commits + [done.resets[claim.row].tokenHash]
            && claim.userId in done.passwords && done.passwords[claim.userId] == newHash
            && (forall t :: t in TokensOf(Run(cfg, atRevoke), claim.userId) ==> t in done.refresh && done.refresh[t].revoked)
  {
    var atRevoke := before + [UpdatePassword(r, newHash)] + mid1;
    UpdateCarried(cfg, before, mid1, r, newHash);
    RevokeCarried(cfg, atRevoke, mid2, r);
    CommitNow(cfg, atRevoke + [RevokeTokens(r)] + mid2, r);
  }

  /** A stored password hash changes only by a password change of that user or by
      the commit of a reset that claimed one of that user's tokens, and then it is
      the hash that this very request computed. */
  lemma PasswordChangedOnlyBy(cfg: Config, s: State, step: Step, userId: string)
    requires userId in s.passwords
    ensures var s' := Next(cfg, s, step);
            && userId in s'.passwords
            && (s'.passwords[userId] != s.passwords[userId] ==>
                  || (step.ChangePassword? && step.userId == userId && s'.passwords[userId] == step.hash)
                  || (step.Commit? && step.r in s.requests && s.requests[step.r].Revoking?
                      && s.requests[step.r].userId == userId && s'.passwords[userId] == s.requests[step.r].newHash))
            && (step.ChangePassword? && step.userId == userId && Enabled(cfg, s, step) ==> s'.passwords[userId] == step.hash)
  {
  }

  lemma RunSnoc(cfg: Config, steps: seq<Step>, step: Step)
    ensures Run(cfg, steps + [step]) == Next(cfg, Run(cfg, steps), step)
  {
    assert (steps + [step])[..|steps|] == steps;
  }

  lemma CarriedAcross(cfg: Config, steps: seq<Step>, more: seq<Step>, r: int)
    requires r in Run(cfg, steps).requests
    requires forall i :: 0 <= i < |more| ==> !more[i].OfRequest(r)
    ensures r in Run(cfg, steps + more).requests && Run(cfg, steps + more).requests[r] == Run(cfg, steps).requests[r]
  {
    assert (steps + more)[..|steps|] == steps;
    CarriedToCommit(cfg, steps + more, r, |steps|);
  }

  /** Along every run, statement by statement: rows are never lost, a used reset
      token is never unused again and a revoked refresh token is never valid again. */
  lemma {:induction false} NothingReverts(cfg: Config, steps: seq<Step>, more: seq<Step>)
    ensures var s, later := Run(cfg, steps), Run(cfg, steps + more);
            && (forall i :: i in s.resets ==>
                  && i in later.resets && later.resets[i].tokenHash == s.resets[i].tokenHash
                  && (s.resets[i].used ==> later.resets[i].used) && s.resets[i].attempts <= later.resets[i].attempts)
            && (forall t :: t in s.refresh ==>
                  && t in later.refresh && later.refresh[t].tokenHash == s.refresh[t].tokenHash
                  && later.refresh[t].userId == s.refresh[t].userId
                  && (s.refresh[t].revoked ==> later.refresh[t].revoked))
  {
    if more == [] {
      assert steps + more == steps;
    } else {
      var n := |more| - 1;
      NothingReverts(cfg, steps, more[..n]);
      assert (steps + more)[..|steps + more| - 1] == steps + more[..n];
      RunSafe(cfg, steps + more[..n]);
      NextMonotone(cfg, Run(cfg, steps + more[..n]), more[n]);
    }
  }
}
