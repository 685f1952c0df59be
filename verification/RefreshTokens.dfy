/** Issue, rotation and revocation of refresh tokens. */
module RefreshTokens {
  import opened TokenTables
  import opened ResetProtocol
  import opened FiniteSets

  /** A login adds exactly one live token of its user. */
  lemma LoginAddsOne(cfg: Config, s: State, u: string, hash: string)
    requires Keys(s) && Known(cfg) && Enabled(cfg, s, Login(u, hash))
    ensures |Live(Apply(cfg, s, Login(u, hash)), u)| == |Live(s, u)| + 1
  {
    IssueAddsOne(cfg, s, u, hash);
  }

  lemma IssueAddsOne(cfg: Config, s: State, u: string, hash: string)
    requires Keys(s) && Known(cfg)
    ensures Live(InsertRefresh(cfg, s, u, hash), u) == Live(s, u) + {s.nextRefresh}
    ensures s.nextRefresh !in Live(s, u)
  {
  }

  /** A successful refresh trades one live token for another: the count stays. */
  lemma RefreshKeepsCount(cfg: Config, s: State, u: string, token: int, hash: string)
    requires Keys(s) && Known(cfg) && Enabled(cfg, s, Refresh(u, token, hash))
    ensures var s' := Apply(cfg, s, Refresh(u, token, hash));
            && Live(s', u) == Live(s, u) - {token} + {s.nextRefresh}
            && |Live(s', u)| == |Live(s, u)|
  {
    var s' := Apply(cfg, s, Refresh(u, token, hash));
    assert token in Live(s, u) && s.nextRefresh !in Live(s, u);
    assert Live(s', u) == Live(s, u) - {token} + {s.nextRefresh};
  }

  ghost predicate UniqueRefresh(s: State) {
    forall t, k :: t in s.refresh && k in s.refresh && s.refresh[t].tokenHash == s.refresh[k].tokenHash ==> t == k
  }

  lemma NextUniqueRefresh(cfg: Config, s: State, step: Step)
    requires Keys(s) && UniqueRefresh(s)
    ensures UniqueRefresh(Next(cfg, s, step))
  {
  }

  lemma OneRowPerHash(s: State, token: int)
    requires UniqueRefresh(s) && token in s.refresh
    ensures (set t | t in s.refresh && s.refresh[t].tokenHash == s.refresh[token].tokenHash) == {token}
  {
    var rows := set t | t in s.refresh && s.refresh[t].tokenHash == s.refresh[token].tokenHash;
    assert forall t :: t in rows <==> t == token;
  }

  /** A logout ends one live session of the token's owner, or none. */
  lemma LogoutRemovesAtMostOne(cfg: Config, s: State, u: string, hash: string)
    requires UniqueRefresh(s) && Enabled(cfg, s, Logout(hash))
    ensures var s' := Apply(cfg, s, Logout(hash));
            && Live(s', u) == Live(s, u) - (set t | t in s.refresh && s.refresh[t].tokenHash == hash)
            && |Live(s, u)| - 1 <= |Live(s', u)| <= |Live(s, u)|
  {
    var hit := set t | t in s.refresh && s.refresh[t].tokenHash == hash;
    var s' := Apply(cfg, s, Logout(hash));
    assert Live(s', u) == Live(s, u) - hit;
    if hit == {} {
      assert Live(s, u) - hit == Live(s, u);
    } else {
      var t :| t in hit;
      assert hit == {t};
    }
  }

  /** A committed reset revokes the rows its revoke statement saw and no others.
      `ResetRevocation` says which these are. */
  lemma CommitLeavesUnrevoked(cfg: Config, s: State, r: int, u: string)
    requires Enabled(cfg, s, Commit(r)) && s.requests[r].userId == u
    ensures Live(Apply(cfg, s, Commit(r)), u) == Live(s, u) - s.requests[r].tokens
  {
    var s' := Apply(cfg, s, Commit(r));
    forall t ensures t in Live(s', u) <==> t in Live(s, u) && t !in s.requests[r].tokens {
    }
  }

  /** A reset whose last two statements run without another step in between ends
      with no live token of the user. */
  lemma AtomicResetClearsAll(cfg: Config, s: State, r: int)
    requires Enabled(cfg, s, RevokeTokens(r))
    ensures var s1 := Apply(cfg, s, RevokeTokens(r));
            Enabled(cfg, s1, Commit(r)) && Live(Apply(cfg, s1, Commit(r)), s.requests[r].userId) == {}
  {
    var s1 := Apply(cfg, s, RevokeTokens(r));
    CommitLeavesUnrevoked(cfg, s1, r, s.requests[r].userId);
    NothingLeft(Live(s1, s.requests[r].userId), s1.requests[r].tokens);
  }

  /** Interleaved, the clearing can be incomplete: a login between the two
      statements survives the commit. */
  lemma LoginSurvivesReset(cfg: Config, s: State, r: int, u: string, hash: string)
    requires Keys(s) && Known(cfg) && Enabled(cfg, s, RevokeTokens(r)) && s.requests[r].userId == u
    requires Enabled(cfg, Apply(cfg, s, RevokeTokens(r)), Login(u, hash))
    ensures var s2 := Apply(cfg, Apply(cfg, s, RevokeTokens(r)), Login(u, hash));
            Enabled(cfg, s2, Commit(r)) && Live(Apply(cfg, s2, Commit(r)), u) == {s.nextRefresh}
  {
    var s1 := Apply(cfg, s, RevokeTokens(r));
    var s2 := Apply(cfg, s1, Login(u, hash));
    CommitLeavesUnrevoked(cfg, s2, r, u);
    assert Live(s2, u) <= TokensOf(s, u) + {s.nextRefresh};
    assert s.nextRefresh in Live(s2, u) && s.nextRefresh !in TokensOf(s, u);
  }

  /** Every exchanged token is stored and revoked, and was exchanged once. */
  ghost predicate ExchangedRevoked(s: State) {
    && Distinct(s.exchanges)
    && (forall k :: 0 <= k < |s.exchanges| ==> RevokedHash(s, s.exchanges[k]))
  }

  ghost predicate RevokedHash(s: State, tokenHash: string) {
    exists t :: t in s.refresh && s.refresh[t].tokenHash == tokenHash && s.refresh[t].revoked
  }

  lemma RevokedHashStays(cfg: Config, s: State, step: Step, tokenHash: string)
    requires Keys(s) && RevokedHash(s, tokenHash)
    ensures RevokedHash(Next(cfg, s, step), tokenHash)
  {
    var t :| t in s.refresh && s.refresh[t].tokenHash == tokenHash && s.refresh[t].revoked;
    NextMonotone(cfg, s, step);
    assert t in Next(cfg, s, step).refresh;
  }

  lemma NextExchangedRevoked(cfg: Config, s: State, step: Step)
    requires Keys(s) && UniqueRefresh(s) && ExchangedRevoked(s)
    ensures ExchangedRevoked(Next(cfg, s, step))
  {
    var s' := Next(cfg, s, step);
    forall k | 0 <= k < |s.exchanges| ensures RevokedHash(s', s.exchanges[k]) {
      RevokedHashStays(cfg, s, step, s.exchanges[k]);
    }
    if s'.exchanges != s.exchanges {
      var hash := s.refresh[step.token].tokenHash;
      assert s'.exchanges == s.exchanges + [hash];
      forall k | 0 <= k < |s.exchanges| ensures s.exchanges[k] != hash {
        assert RevokedHash(s, s.exchanges[k]);
        assert !s.refresh[step.token].revoked;
      }
      assert step.token in s'.refresh && s'.refresh[step.token].tokenHash == hash && s'.refresh[step.token].revoked;
      assert RevokedHash(s', hash);
    }
  }

  /** With requests as atomic steps no refresh token is exchanged twice in a run. */
  lemma {:induction false} NoTokenExchangedTwice(cfg: Config, steps: seq<Step>)
    ensures UniqueRefresh(Run(cfg, steps)) && ExchangedRevoked(Run(cfg, steps))
  {
    if steps != [] {
      var s, step := Run(cfg, steps[..|steps| - 1]), steps[|steps| - 1];
      NoTokenExchangedTwice(cfg, steps[..|steps| - 1]);
      RunSafe(cfg, steps[..|steps| - 1]);
      NextUniqueRefresh(cfg, s, step);
      NextExchangedRevoked(cfg, s, step);
    }
  }
}
