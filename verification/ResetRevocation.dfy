/** Which sessions a committed password reset ends. It revokes the rows that exist
    when its revoke statement runs, so what it leaves is decided by what other
    requests issue between that statement and the commit. */
module ResetRevocation {
  import opened TokenTables
  import opened ResetProtocol
  import opened RefreshTokens
  import opened ExampleRuns

  predicate Issues(cfg: Config, s: State, step: Step, userId: string) {
    Enabled(cfg, s, step) && (step.Login? || step.Refresh?) && step.userId == userId
  }

  /** The rows that logins and refreshes of the user insert during `more`, run after `steps`. */
  function Issued(cfg: Config, steps: seq<Step>, more: seq<Step>, userId: string): set<int> {
    if more == [] then {}
    else
      var n := |more| - 1;
      var s := Run(cfg, steps + more[..n]);
      Issued(cfg, steps, more[..n], userId) + if Issues(cfg, s, more[n], userId) then {s.nextRefresh} else {}
  }

  function IssuedFrom(s: State, userId: string, first: int): set<int> {
    set t | t in TokensOf(s, userId) && t >= first
  }

  lemma NextIssuedFrom(cfg: Config, s: State, step: Step, userId: string, first: int)
    requires Keys(s) && first <= s.nextRefresh
    ensures var s' := Next(cfg, s, step);
            && first <= s'.nextRefresh
            && IssuedFrom(s', userId, first)
               == IssuedFrom(s, userId, first) + if Issues(cfg, s, step, userId) then {s.nextRefresh} else {}
  {
    NextMonotone(cfg, s, step);
    var s' := Next(cfg, s, step);
    assert forall t :: t in s'.refresh && t !in s.refresh ==> t == s.nextRefresh && Issues(cfg, s, step, s'.refresh[t].userId);
  }

  /** The rows with keys from the sequence's old value on are those issued since. */
  lemma {:induction false} IssuedAreNew(cfg: Config, steps: seq<Step>, more: seq<Step>, userId: string)
    ensures var first, s := Run(cfg, steps).nextRefresh, Run(cfg, steps + more);
            first <= s.nextRefresh && IssuedFrom(s, userId, first) == Issued(cfg, steps, more, userId)
  {
    var first := Run(cfg, steps).nextRefresh;
    if more == [] {
      RunSafe(cfg, steps);
      assert steps + more == steps;
    } else {
      var n := |more| - 1;
      IssuedAreNew(cfg, steps, more[..n], userId);
      RunSafe(cfg, steps + more[..n]);
      assert steps + more == steps + more[..n] + [more[n]];
      RunSnoc(cfg, steps + more[..n], more[n]);
      NextIssuedFrom(cfg, Run(cfg, steps + more[..n]), more[n], userId, first);
    }
  }

  lemma NextAddsOneKey(cfg: Config, s: State, step: Step)
    ensures Next(cfg, s, step).refresh.Keys <= s.refresh.Keys + {s.nextRefresh}
  {
  }

  /** Only the two insertions make a key: what is not new was there before. */
  lemma {:induction false} OldAreKept(cfg: Config, steps: seq<Step>, more: seq<Step>)
    ensures forall t :: t in Run(cfg, steps + more).refresh && t < Run(cfg, steps).nextRefresh ==> t in Run(cfg, steps).refresh
  {
    if more == [] {
      assert steps + more == steps;
    } else {
      var n := |more| - 1;
      var s := Run(cfg, steps + more[..n]);
      OldAreKept(cfg, steps, more[..n]);
      IssuedAreNew(cfg, steps, more[..n], "");
      assert steps + more == steps + more[..n] + [more[n]];
      RunSnoc(cfg, steps + more[..n], more[n]);
      NextAddsOneKey(cfg, s, more[n]);
    }
  }

  /** The rows of the user after `more` are those from before and those issued since. */
  lemma TokensSplit(cfg: Config, steps: seq<Step>, more: seq<Step>, userId: string)
    ensures TokensOf(Run(cfg, steps + more), userId) == TokensOf(Run(cfg, steps), userId) + Issued(cfg, steps, more, userId)
    ensures TokensOf(Run(cfg, steps), userId) !! Issued(cfg, steps, more, userId)
  {
    RunSafe(cfg, steps);
    IssuedAreNew(cfg, steps, more, userId);
    OldAreKept(cfg, steps, more);
    NothingReverts(cfg, steps, more);
  }

  /** Request r runs its revoke statement after `before` and commits after `mid`,
      in which other requests do anything at all. Of the sessions live at the
      commit exactly those issued during `mid` survive it; so the user is signed
      out everywhere if and only if every token that a login or a refresh of that
      user issued in between has been revoked or has expired by then. */
  lemma ResetLeavesIssuedSince(cfg: Config, before: seq<Step>, mid: seq<Step>, r: int, userId: string)
    requires Enabled(cfg, Run(cfg, before), RevokeTokens(r)) && Run(cfg, before).requests[r].userId == userId
    requires forall i :: 0 <= i < |mid| ==> !mid[i].OfRequest(r)
    ensures var atRevoke := before + [RevokeTokens(r)];
            var s, done := Run(cfg, atRevoke + mid), Run(cfg, atRevoke + mid + [Commit(r)]);
            var issued := Issued(cfg, atRevoke, mid, userId);
            && Enabled(cfg, s, Commit(r))
            && Live(done, userId) == Live(s, userId) * issued
            && Live(done, userId) == (set t | t in Live(s, userId) && t >= Run(cfg, before).nextRefresh)
            && (Live(done, userId) == {} <==> forall t :: t in issued ==> t !in Live(s, userId))
  {
    var atRevoke := before + [RevokeTokens(r)];
    var s0, s := Run(cfg, before), Run(cfg, atRevoke + mid);
    var issued, live := Issued(cfg, atRevoke, mid, userId), Live(s, userId);
    RevokeCarried(cfg, before, mid, r);
    RunSnoc(cfg, before, RevokeTokens(r));
    RunSnoc(cfg, atRevoke + mid, Commit(r));
    CommitLeavesUnrevoked(cfg, s, r, userId);
    TokensSplit(cfg, atRevoke, mid, userId);
    IssuedAreNew(cfg, atRevoke, mid, userId);
    assert TokensOf(Run(cfg, atRevoke), userId) == TokensOf(s0, userId);
    assert live <= TokensOf(s, userId);
    assert live - TokensOf(s0, userId) == live * issued;
    assert live * issued == set t | t in live && t >= s0.nextRefresh;
    assert live * issued == {} <==> forall t :: t in issued ==> t !in live * issued;
  }

  // ----- A run in which a session survives -----

  /** The owner logs in while the reset is between its last statement and its commit. */
  function LoginDuringReset(): seq<Step> {
    [Register("u", "p"), Forgot("u", "t"), Begin(1, "t"), ClaimHit(1, 1), UpdatePassword(1, "n"), RevokeTokens(1),
     Login("u", "k"), Commit(1)]
  }

  lemma ClaimedAndUpdated(cfg: Config)
    requires Usable(cfg)
    ensures Next(cfg, WithToken(cfg), Begin(1, "t")) == WithRequest(cfg, Begun("t", 0))
    ensures Next(cfg, WithRequest(cfg, Begun("t", 0)), ClaimHit(1, 1)) == WithRequest(cfg, Claimed(1, "u"))
    ensures Next(cfg, WithRequest(cfg, Claimed(1, "u")), UpdatePassword(1, "n")) == WithRequest(cfg, Updated(1, "u", "n"))
  {
  }

  lemma RevokedThenLogin(cfg: Config)
    requires Usable(cfg)
    ensures Next(cfg, WithRequest(cfg, Updated(1, "u", "n")), RevokeTokens(1)) == WithRequest(cfg, Revoking(1, "u", "n", {}))
    ensures Enabled(cfg, WithRequest(cfg, Updated(1, "u", "n")), RevokeTokens(1))
    ensures var s := Next(cfg, WithRequest(cfg, Revoking(1, "u", "n", {})), Login("u", "k"));
            s == WithRequest(cfg, Revoking(1, "u", "n", {})).(
                   refresh := map[1 := RefreshRow("u", "k", cfg.refreshLifetime, false)], nextRefresh := 2)
  {
    assert TokensOf(WithRequest(cfg, Updated(1, "u", "n")), "u") == {};
  }

  lemma BeforeRevoke(cfg: Config)
    requires Usable(cfg)
    ensures Run(cfg, LoginDuringReset()[..5]) == WithRequest(cfg, Updated(1, "u", "n"))
  {
    var steps := LoginDuringReset();
    Asked(cfg, steps);
    RunPrefix(cfg, steps, 2);
    RunPrefix(cfg, steps, 3);
    RunPrefix(cfg, steps, 4);
    ClaimedAndUpdated(cfg);
  }

  /** From empty tables: the reset commits, and the session of the login lives on. */
  lemma SessionSurvivesReset(cfg: Config)
    requires Usable(cfg)
    ensures var done := Run(cfg, LoginDuringReset());
            done.commits == ["t"] && "u" in done.passwords && done.passwords["u"] == "n" && Live(done, "u") == {1}
  {
    var steps := LoginDuringReset();
    BeforeRevoke(cfg);
    RevokedThenLogin(cfg);
    RunPrefix(cfg, steps, 5);
    RunPrefix(cfg, steps, 6);
    RunPrefix(cfg, steps, 7);
    assert steps[..8] == steps;
    CommitKeeps(cfg);
  }

  lemma CommitKeeps(cfg: Config)
    requires Usable(cfg)
    ensures var s := WithRequest(cfg, Revoking(1, "u", "n", {})).(
                       refresh := map[1 := RefreshRow("u", "k", cfg.refreshLifetime, false)], nextRefresh := 2);
            var done := Next(cfg, s, Commit(1));
            done.commits == ["t"] && "u" in done.passwords && done.passwords["u"] == "n" && Live(done, "u") == {1}
  {
  }
}
