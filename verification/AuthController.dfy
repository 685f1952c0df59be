/** The token handlers over stored rows: sign-in, exchange and sign-out of refresh
    tokens, asking for a reset token, and the password-reset transaction, one
    method per statement and one for the whole request run on its own. */
module AuthController {
  import opened Wrappers
  import opened TokenTables
  import opened ResetProtocol
  import RefreshTokens

  /** `Waits` is no reply: a statement of the request needs a row that another
      open transaction has written. */
  datatype Reply = Ok | BadRequest | Unauthorized | ServerError | Waits

  /** What a verified refresh token says; None when its signature or expiry fails. */
  datatype Claims = Claims(kind: string, subject: string)

  predicate IsRefresh(claims: Option<Claims>) {
    claims.Some? && claims.value.kind == "refresh"
  }

  /** A live row of this user carries the hash. */
  predicate Found(s: State, tokenHash: string, userId: string) {
    exists t :: t in s.refresh && s.refresh[t].tokenHash == tokenHash && IsLive(s, t, userId)
  }

  /** An unrevoked row with the hash is held by an open reset. */
  predicate HashLocked(s: State, tokenHash: string) {
    exists t :: t in s.refresh && s.refresh[t].tokenHash == tokenHash && !s.refresh[t].revoked && TokenLocked(s, t)
  }

  const MIN_PASSWORD := 8

  ghost predicate Owned(s: State) {
    forall t :: t in s.refresh ==> s.refresh[t].userId in s.passwords
  }

  /** Between statements: the invariants of every interleaving, and the foreign
      key from tokens to users. */
  ghost predicate Sound(s: State) {
    Safe(s) && RefreshTokens.UniqueRefresh(s) && Owned(s)
  }

  lemma NextOwned(cfg: Config, s: State, step: Step)
    requires Owned(s)
    ensures Owned(Next(cfg, s, step))
  {
  }

  lemma NextSound(cfg: Config, s: State, step: Step)
    requires Sound(s)
    ensures Sound(Next(cfg, s, step))
  {
    NextKeys(cfg, s, step);
    NextUniqueHashes(cfg, s, step);
    NextExclusiveClaims(cfg, s, step);
    NextExclusiveUsers(cfg, s, step);
    NextResetsOwned(cfg, s, step);
    NextCommitsUsed(cfg, s, step);
    RefreshTokens.NextUniqueRefresh(cfg, s, step);
    NextOwned(cfg, s, step);
  }

  lemma {:induction false} RunSound(cfg: Config, steps: seq<Step>)
    ensures Sound(Run(cfg, steps))
  {
    if steps != [] {
      RunSound(cfg, steps[..|steps| - 1]);
      NextSound(cfg, Run(cfg, steps[..|steps| - 1]), steps[|steps| - 1]);
    }
  }

  /** The token can be claimed by a transaction that starts now. */
  predicate Presentable(cfg: Config, s: State, tokenHash: string) {
    exists row :: row in s.resets && Claimable(cfg, s, row, tokenHash, s.now)
  }

  predicate TokensLocked(s: State, userId: string) {
    exists t :: t in TokensOf(s, userId) && TokenLocked(s, t)
  }

  /** Some statement of a reset of this row has to wait for another open one. */
  predicate Blocked(s: State, row: int)
    requires row in s.resets
  {
    RowLocked(s, row) || UserLocked(s, s.resets[row].userId) || TokensLocked(s, s.resets[row].userId)
  }

  predicate FaultIn(fault: Option<nat>, first: nat, last: nat) {
    fault.Some? && first <= fault.value <= last
  }

  /** The tables after a reset of `row` to the password hash `newHash`. */
  ghost predicate ResetDone(s: State, t: State, row: int, newHash: string)
    requires row in s.resets
  {
    var u := s.resets[row].userId;
    && t.resets == s.resets[row := s.resets[row].(used := true)]
    && u in s.passwords && t.passwords == s.passwords[u := newHash]
    && t.refresh == RevokeAll(s.refresh, TokensOf(s, u))
    && t.requests == s.requests && t.now == s.now
    && t.commits == s.commits + [s.resets[row].tokenHash]
  }

  ghost predicate TablesKept(s: State, t: State) {
    && t.resets == s.resets && t.passwords == s.passwords && t.refresh == s.refresh
    && t.now == s.now && t.commits == s.commits
  }

  /** A claimable row of the token is held by another open reset. */
  predicate ClaimWaits(cfg: Config, s: State, tokenHash: string) {
    exists row :: row in s.resets && Claimable(cfg, s, row, tokenHash, s.now) && RowLocked(s, row)
  }

  predicate AttemptWaits(s: State, tokenHash: string) {
    exists row :: row in RowsOf(s, tokenHash) && RowLocked(s, row)
  }

  /** With unique hashes there is one row to find and one to wait for. */
  lemma RowFound(s: State, token: int, userId: string)
    requires RefreshTokens.UniqueRefresh(s) && token in s.refresh && IsLive(s, token, userId)
    ensures Found(s, s.refresh[token].tokenHash, userId)
    ensures HashLocked(s, s.refresh[token].tokenHash) <==> TokenLocked(s, token)
  {
  }

  /** Request r, new in t or further on in t, holds no more locks than in s. */
  ghost predicate OnlyRequest(s: State, t: State, r: int) {
    && t == s.(requests := t.requests, seen := t.seen) && r in t.requests
    && (forall q :: q != r ==> (q in s.requests <==> q in t.requests))
    && (forall q :: q != r && q in s.requests ==> t.requests[q] == s.requests[q])
  }

  lemma RowLocksKept(s: State, t: State, r: int, tokenHash: string)
    requires OnlyRequest(s, t, r) && !t.requests[r].HoldsRow() && (r in s.requests ==> !s.requests[r].HoldsRow())
    ensures forall row :: RowLocked(t, row) == RowLocked(s, row)
    ensures AttemptWaits(t, tokenHash) == AttemptWaits(s, tokenHash)
  {
    forall row ensures RowLocked(t, row) == RowLocked(s, row) {
      if RowLocked(s, row) {
        var q :| q in s.requests && s.requests[q].HoldsRow() && s.requests[q].row == row;
        assert q in t.requests && t.requests[q].HoldsRow() && t.requests[q].row == row;
      }
    }
    assert RowsOf(t, tokenHash) == RowsOf(s, tokenHash);
  }

  lemma UserLocksKept(s: State, t: State, r: int, userId: string)
    requires OnlyRequest(s, t, r) && !t.requests[r].HoldsUser() && (r in s.requests ==> !s.requests[r].HoldsUser())
    ensures UserLocked(t, userId) == UserLocked(s, userId)
  {
    if UserLocked(s, userId) {
      var q :| q in s.requests && s.requests[q].HoldsUser() && s.requests[q].userId == userId;
      assert q in t.requests && t.requests[q].HoldsUser() && t.requests[q].userId == userId;
    }
  }

  lemma TokenLocksKept(s: State, t: State, r: int, userId: string)
    requires OnlyRequest(s, t, r) && !t.requests[r].Revoking? && (r in s.requests ==> !s.requests[r].Revoking?)
    ensures TokensLocked(t, userId) == TokensLocked(s, userId)
  {
    assert TokensOf(t, userId) == TokensOf(s, userId);
    forall k ensures TokenLocked(t, k) == TokenLocked(s, k) {
      if TokenLocked(s, k) {
        var q :| q in s.requests && s.requests[q].Revoking? && k in s.requests[q].tokens;
        assert q in t.requests && t.requests[q].Revoking? && k in t.requests[q].tokens;
      }
    }
  }

  /** t is s with request r just begun. */
  ghost predicate JustBegun(s: State, t: State, r: int, tokenHash: string) {
    r !in s.requests && t == s.(requests := s.requests[r := Begun(tokenHash, s.now)], seen := s.seen + {r})
  }

  lemma BegunClaimable(cfg: Config, s: State, t: State, r: int, tokenHash: string)
    requires JustBegun(s, t, r, tokenHash)
    ensures forall i :: Claimable(cfg, t, i, tokenHash, s.now) == Claimable(cfg, s, i, tokenHash, s.now)
    ensures forall i :: RowLocked(t, i) == RowLocked(s, i)
  {
    RowLocksKept(s, t, r, tokenHash);
  }

  lemma HitFacts(cfg: Config, s: State, t: State, r: int, row: int, tokenHash: string)
    requires JustBegun(s, t, r, tokenHash) && Enabled(cfg, t, ClaimHit(r, row))
    ensures var t', u := Next(cfg, t, ClaimHit(r, row)), s.resets[row].userId;
            && TablesKept(s, t') && t'.requests == s.requests[r := Claimed(row, u)]
            && UserLocked(t', u) == UserLocked(s, u) && TokensLocked(t', u) == TokensLocked(s, u)
  {
    var t', u := Next(cfg, t, ClaimHit(r, row)), s.resets[row].userId;
    UserLocksKept(s, t', r, u);
    TokenLocksKept(s, t', r, u);
  }

  lemma MissFacts(cfg: Config, s: State, t: State, r: int, tokenHash: string)
    requires JustBegun(s, t, r, tokenHash) && Enabled(cfg, t, ClaimMiss(r))
    ensures var t' := Next(cfg, t, ClaimMiss(r));
            && TablesKept(s, t') && t'.requests == s.requests[r := Missed(tokenHash)]
            && AttemptWaits(t', tokenHash) == AttemptWaits(s, tokenHash)
  {
    RowLocksKept(s, Next(cfg, t, ClaimMiss(r)), r, tokenHash);
  }

  class AuthController {
    const cfg: Config
    const sha256: string -> string

    var now: int
    var passwords: map<string, string>
    var resets: map<int, ResetRow>
    var refresh: map<int, RefreshRow>
    var requests: map<int, Request>
    var nextReset: int
    var nextRefresh: int
    var seen: set<int>
    var commits: seq<string>
    var exchanges: seq<string>

    function View(): State
      reads this
    {
      State(now, passwords, resets, refresh, requests, nextReset, nextRefresh, seen, commits, exchanges)
    }

    constructor (cfg: Config, sha256: string -> string)
      ensures this.cfg == cfg && this.sha256 == sha256 && View() == INIT && Sound(View())
    {
      this.cfg, this.sha256 := cfg, sha256;
      now, passwords, resets, refresh, requests := 0, map[], map[], map[], map[];
      nextReset, nextRefresh, seen, commits, exchanges := 1, 1, {}, [], [];
    }

    // ----- Refresh tokens -----

    /** Inserts the row of a new refresh token, valid for the configured lifetime. */
    method StoreRefresh(userId: string, tokenHash: string)
      modifies this
      ensures View() == InsertRefresh(cfg, old(View()), userId, tokenHash)
    {
      refresh := refresh[nextRefresh := RefreshRow(userId, tokenHash, now + cfg.refreshLifetime, false)];
      nextRefresh := nextRefresh + 1;
    }

    /** `verified` is the outcome of the password check, `newToken` the generated token. */
    method Login(username: string, password: string, userId: string, verified: bool, newToken: string, fault: bool)
      returns (reply: Reply)
      requires Sound(View()) && FreshRefresh(View(), sha256(newToken))
      modifies this
      ensures Sound(View())
      ensures reply == BadRequest <==> username == "" || password == ""
      ensures reply == Unauthorized <==> username != "" && password != "" && (userId !in old(passwords) || !verified)
      ensures reply == ServerError <==> username != "" && password != "" && userId in old(passwords) && verified && fault
      ensures reply == Ok <==> username != "" && password != "" && userId in old(passwords) && verified && !fault
      ensures View() == if reply == Ok then Next(cfg, old(View()), TokenTables.Login(userId, sha256(newToken))) else old(View())
    {
      if username == "" || password == "" { return BadRequest; }
      if userId !in passwords || !verified { return Unauthorized; }
      if fault { return ServerError; }
      NextSound(cfg, View(), TokenTables.Login(userId, sha256(newToken)));
      StoreRefresh(userId, sha256(newToken));
      return Ok;
    }

    /** Trades a live refresh token of the subject for a new one. The old row is
        revoked by the second of four statements: a request that fails after that
        leaves the tables as a sign-out with the old token would. */
    method Refresh(token: string, claims: Option<Claims>, newToken: string, fault: Option<nat>) returns (reply: Reply)
      requires Sound(View()) && FreshRefresh(View(), sha256(newToken))
      modifies this
      ensures Sound(View())
      ensures reply == Ok ==>
                && claims.Some? && claims.value.kind == "refresh"
                && exists t :: t in old(refresh) && old(refresh)[t].tokenHash == sha256(token)
                     && IsLive(old(View()), t, claims.value.subject)
                     && View() == Next(cfg, old(View()), TokenTables.Refresh(claims.value.subject, t, sha256(newToken)))
      ensures reply == BadRequest <==> token == ""
      ensures reply != Ok ==>
                View() == if reply == ServerError && (fault == Some(3) || fault == Some(4))
                          then Next(cfg, old(View()), TokenTables.Logout(sha256(token))) else old(View())
      ensures reply == Unauthorized <==>
                token != "" && (!(claims.Some? && claims.value.kind == "refresh") || (fault != Some(1) && !Found(old(View()), sha256(token), claims.value.subject)))
      ensures reply == Waits <==>
                && token != "" && claims.Some? && claims.value.kind == "refresh" && fault != Some(1)
                && Found(old(View()), sha256(token), claims.value.subject) && HashLocked(old(View()), sha256(token))
      ensures reply == ServerError <==>
                && token != "" && claims.Some? && claims.value.kind == "refresh"
                && (fault == Some(1)
                    || (FaultIn(fault, 2, 4) && Found(old(View()), sha256(token), claims.value.subject)
                        && !HashLocked(old(View()), sha256(token))))
      ensures reply == Ok <==>
                && token != "" && claims.Some? && claims.value.kind == "refresh" && !FaultIn(fault, 1, 4)
                && Found(old(View()), sha256(token), claims.value.subject) && !HashLocked(old(View()), sha256(token))
    {
      if token == "" { return BadRequest; }
      if !IsRefresh(claims) { return Unauthorized; }
      var u, hash := claims.value.subject, sha256(token);
      if fault == Some(1) { return ServerError; }
      if t :| t in refresh && refresh[t].tokenHash == hash && IsLive(View(), t, u) {
        RowFound(View(), t, u);
        if TokenLocked(View(), t) { return Waits; }
        reply := Rotate(t, u, sha256(newToken), fault);
        return;
      }
      return Unauthorized;
    }

    /** The token was found and its row is free: revoke it, then issue the new one. */
    method Rotate(token: int, userId: string, newHash: string, fault: Option<nat>) returns (reply: Reply)
      requires Sound(View()) && Enabled(cfg, View(), TokenTables.Refresh(userId, token, newHash))
      modifies this
      ensures Sound(View()) && reply == if FaultIn(fault, 2, 4) then ServerError else Ok
      ensures fault == Some(2) ==> View() == old(View())
      ensures fault == Some(3) || fault == Some(4) ==>
                View() == Next(cfg, old(View()), TokenTables.Logout(old(refresh)[token].tokenHash))
      ensures reply == Ok ==> View() == Next(cfg, old(View()), TokenTables.Refresh(userId, token, newHash))
    {
      ghost var before := View();
      if fault == Some(2) { return ServerError; }
      RevokeOne(token);
      if fault == Some(3) || fault == Some(4) { return ServerError; }
      CompleteExchange(before, token, userId, newHash);
      return Ok;
    }

    method RevokeOne(token: int)
      requires Sound(View()) && token in refresh && !TokenLocked(View(), token)
      modifies this
      ensures Sound(View()) && View() == old(View()).(refresh := RevokeAll(old(refresh), {token}))
      ensures View() == Next(cfg, old(View()), TokenTables.Logout(old(refresh)[token].tokenHash))
    {
      NextSound(cfg, View(), TokenTables.Logout(refresh[token].tokenHash));
      RefreshTokens.OneRowPerHash(View(), token);
      refresh := RevokeAll(refresh, {token});
    }

    /** The old row is revoked; `before` are the tables the request started from. */
    method CompleteExchange(ghost before: State, token: int, userId: string, newHash: string)
      requires Sound(before) && Enabled(cfg, before, TokenTables.Refresh(userId, token, newHash))
      requires View() == before.(refresh := RevokeAll(before.refresh, {token}))
      modifies this
      ensures Sound(View()) && View() == Next(cfg, before, TokenTables.Refresh(userId, token, newHash))
    {
      NextSound(cfg, before, TokenTables.Refresh(userId, token, newHash));
      exchanges := exchanges + [refresh[token].tokenHash];
      StoreRefresh(userId, newHash);
    }

    /** Replies in the same way whether or not the token is known. */
    method Logout(token: string) returns (reply: Reply)
      requires Sound(View())
      modifies this
      ensures Sound(View())
      ensures reply == BadRequest <==> token == ""
      ensures reply == Waits <==> token != "" && HashLocked(old(View()), sha256(token))
      ensures reply == Ok <==> token != "" && !HashLocked(old(View()), sha256(token))
      ensures reply == Ok ==> View() == Next(cfg, old(View()), TokenTables.Logout(sha256(token)))
                              && forall t :: t in refresh && refresh[t].tokenHash == sha256(token) ==> refresh[t].revoked
      ensures reply != Ok ==> View() == old(View())
    {
      if token == "" { return BadRequest; }
      var hash := sha256(token);
      var hit := set t | t in refresh && refresh[t].tokenHash == hash && !refresh[t].revoked;
      if t :| t in hit && TokenLocked(View(), t) { return Waits; }
      ghost var before := View();
      NextSound(cfg, before, TokenTables.Logout(hash));
      refresh := RevokeAll(refresh, hit);
      assert refresh == Apply(cfg, before, TokenTables.Logout(hash)).refresh;
      return Ok;
    }

    // ----- Asking for a reset token -----

    /** `userId` is the account of the given address, if any. The reply is the same
        in every case; the mail goes out exactly when a row was stored. */
    method ForgotPassword(userId: Option<string>, newToken: string, fault: bool) returns (mailed: bool)
      requires Sound(View()) && FreshReset(View(), sha256(newToken))
      modifies this
      ensures Sound(View())
      ensures mailed <==> !fault && userId.Some? && userId.value in old(passwords)
                          && |Recent(old(View()), userId.value, cfg.rateWindow)| < cfg.rateMax
      ensures mailed ==> resets == old(resets)[old(nextReset) := ResetRow(userId.value, sha256(newToken), now,
                                                                           now + cfg.tokenLifetime, false, 0)]
      ensures View() == if mailed then Next(cfg, old(View()), Forgot(userId.value, sha256(newToken))) else old(View())
    {
      if userId.None? || userId.value !in passwords || |Recent(View(), userId.value, cfg.rateWindow)| >= cfg.rateMax {
        return false;
      }
      if fault { return false; }
      NextSound(cfg, View(), Forgot(userId.value, sha256(newToken)));
      resets := resets[nextReset := ResetRow(userId.value, sha256(newToken), now, now + cfg.tokenLifetime, false, 0)];
      nextReset := nextReset + 1;
      return true;
    }

    // ----- The statements of a password reset -----

    method BeginReset(r: int, tokenHash: string)
      requires Sound(View()) && r !in seen
      modifies this
      ensures Sound(View())
      ensures View() == old(View()).(requests := old(requests)[r := Begun(tokenHash, old(now))], seen := old(seen) + {r})
    {
      NextSound(cfg, View(), Begin(r, tokenHash));
      requests := requests[r := Begun(tokenHash, now)];
      seen := seen + {r};
    }

    /** UPDATE … SET used = TRUE … RETURNING: claims the row, finds none, or waits
        for the transaction that holds it. */
    method ClaimToken(r: int) returns (claimed: Option<int>, waits: bool)
      requires Sound(View()) && r in requests && requests[r].Begun?
      modifies this
      ensures Sound(View())
      ensures waits <==> exists row :: row in old(resets) && RowLocked(old(View()), row)
                           && Claimable(cfg, old(View()), row, old(requests)[r].tokenHash, old(requests)[r].startedAt)
      ensures waits ==> View() == old(View())
      ensures !waits ==> Enabled(cfg, old(View()), if claimed.Some? then ClaimHit(r, claimed.value) else ClaimMiss(r))
      ensures !waits ==>
                View() == Next(cfg, old(View()), if claimed.Some? then ClaimHit(r, claimed.value) else ClaimMiss(r))
    {
      var q := requests[r];
      if row :| row in resets && Claimable(cfg, View(), row, q.tokenHash, q.startedAt) {
        if RowLocked(View(), row) { return None, true; }
        NextSound(cfg, View(), ClaimHit(r, row));
        requests := requests[r := Claimed(row, resets[row].userId)];
        return Some(row), false;
      }
      NextSound(cfg, View(), ClaimMiss(r));
      requests := requests[r := Missed(q.tokenHash)];
      return None, false;
    }

    /** After a missed claim, outside the transaction. */
    method RecordAttempt(r: int) returns (waits: bool)
      requires Sound(View()) && r in requests && requests[r].Missed?
      modifies this
      ensures Sound(View())
      ensures waits <==> AttemptWaits(old(View()), old(requests)[r].tokenHash)
      ensures waits ==> View() == old(View())
      ensures !waits ==> View() == Next(cfg, old(View()), TokenTables.RecordAttempt(r))
    {
      NextSound(cfg, View(), TokenTables.RecordAttempt(r));
      var hash := requests[r].tokenHash;
      if row :| row in RowsOf(View(), hash) && RowLocked(View(), row) { return true; }
      resets := CountAttempt(resets, hash);
      requests := requests - {r};
      return false;
    }

    method UpdatePassword(r: int, newHash: string) returns (waits: bool)
      requires Sound(View()) && r in requests && requests[r].Claimed?
      modifies this
      ensures Sound(View())
      ensures waits <==> UserLocked(old(View()), old(requests)[r].userId)
      ensures waits ==> View() == old(View())
      ensures !waits ==> View() == Next(cfg, old(View()), TokenTables.UpdatePassword(r, newHash))
    {
      NextSound(cfg, View(), TokenTables.UpdatePassword(r, newHash));
      var q := requests[r];
      if UserLocked(View(), q.userId) { return true; }
      requests := requests[r := Updated(q.row, q.userId, newHash)];
      return false;
    }

    method RevokeTokens(r: int) returns (waits: bool)
      requires Sound(View()) && r in requests && requests[r].Updated?
      modifies this
      ensures Sound(View())
      ensures waits <==> TokensLocked(old(View()), old(requests)[r].userId)
      ensures waits ==> View() == old(View())
      ensures !waits ==> View() == Next(cfg, old(View()), TokenTables.RevokeTokens(r))
    {
      NextSound(cfg, View(), TokenTables.RevokeTokens(r));
      var q := requests[r];
      if t :| t in TokensOf(View(), q.userId) && TokenLocked(View(), t) { return true; }
      requests := requests[r := Revoking(q.row, q.userId, q.newHash, TokensOf(View(), q.userId))];
      return false;
    }

    method CommitReset(r: int)
      requires Sound(View()) && r in requests && requests[r].Revoking?
      modifies this
      ensures Sound(View())
      ensures View() == Next(cfg, old(View()), Commit(r))
    {
      NextSound(cfg, View(), Commit(r));
      var q := requests[r];
      if q.row in resets {
        commits := commits + [resets[q.row].tokenHash];
        resets := resets[q.row := resets[q.row].(used := true)];
      }
      if q.userId in passwords {
        passwords := passwords[q.userId := q.newHash];
      }
      refresh := RevokeAll(refresh, q.tokens);
      requests := requests - {r};
    }

    method RollbackReset(r: int)
      requires Sound(View()) && r in requests
      modifies this
      ensures Sound(View())
      ensures View() == old(View()).(requests := old(requests) - {r})
    {
      NextSound(cfg, View(), Rollback(r));
      requests := requests - {r};
    }

    // ----- The whole request, with no other request in between -----

    /** Request `r` presents `token`. `newHash` is the hash of the new password, None
        if hashing throws; `fault` is the statement the database refuses, counted
        from the opening of the transaction. On a token that can be claimed the
        request succeeds if and only if nothing fails; a failure leaves the tables
        as they were; a miss only counts the attempt. */
    method ResetPassword(r: int, token: string, password: string, newHash: Option<string>, fault: Option<nat>)
      returns (reply: Reply)
      requires Sound(View()) && r !in seen
      modifies this
      ensures Sound(View())
      ensures reply == Ok ==>
                && newHash.Some?
                && exists row :: row in old(resets) && Claimable(cfg, old(View()), row, sha256(token), old(now))
                     && ResetDone(old(View()), View(), row, newHash.value)
                     && Live(View(), old(resets)[row].userId) == {}
      ensures reply == ServerError ==> (FaultIn(fault, 1, 5) || newHash.None?) && TablesKept(old(View()), View()) && requests == old(requests)
      ensures token == "" || |password| < 8 ==> reply == BadRequest && View() == old(View())
      ensures token != "" && |password| >= 8 ==>
                && (reply == BadRequest <==> !FaultIn(fault, 1, 2) && !Presentable(cfg, old(View()), sha256(token)))
                && (reply == BadRequest ==>
                      TablesKept(if fault == Some(3) || AttemptWaits(old(View()), sha256(token)) then old(View())
                                 else old(View()).(resets := CountAttempt(old(resets), sha256(token))), View()))
                && (reply == Ok <==>
                      && !FaultIn(fault, 1, 5) && newHash.Some?
                      && exists row :: row in old(resets) && Claimable(cfg, old(View()), row, sha256(token), old(now))
                           && !Blocked(old(View()), row))
                && (reply == Waits ==>
                      exists row :: row in old(resets) && Claimable(cfg, old(View()), row, sha256(token), old(now))
                        && Blocked(old(View()), row))
      ensures reply == Waits ==> TablesKept(old(View()), View()) && requests - {r} == old(requests)
      ensures old(requests) == map[] ==> reply != Waits && requests == map[]
    {
      if token == "" || |password| < MIN_PASSWORD { return BadRequest; }
      if fault == Some(1) { return ServerError; }
      ghost var before := View();
      var claimed;
      claimed, reply := OpenAndClaim(r, sha256(token), fault);
      if reply != Ok { return; }
      if claimed.None? {
        Miss(r, fault);
        return BadRequest;
      }
      reply := CompleteClaim(before, r, claimed.value, newHash, fault);
    }

    /** The row is claimed: hash the password, then both writes and the commit. */
    method CompleteClaim(ghost before: State, r: int, row: int, newHash: Option<string>, fault: Option<nat>)
      returns (reply: Reply)
      requires Sound(View()) && row in before.resets && r !in before.requests && TablesKept(before, View())
      requires requests == before.requests[r := Claimed(row, before.resets[row].userId)]
      modifies this
      ensures Sound(View()) && reply in {Ok, ServerError, Waits}
      ensures var u := before.resets[row].userId;
              && (reply == Ok <==> newHash.Some? && !FaultIn(fault, 3, 5)
                                   && !UserLocked(old(View()), u) && !TokensLocked(old(View()), u))
              && (reply == Ok ==> ResetDone(before, View(), row, newHash.value) && Live(View(), u) == {})
              && (reply == ServerError ==> (newHash.None? || FaultIn(fault, 3, 5)) && TablesKept(before, View()))
              && (reply == Waits ==> UserLocked(old(View()), u) || TokensLocked(old(View()), u))
      ensures reply == ServerError ==> requests == before.requests
      ensures reply == Waits ==> TablesKept(before, View()) && requests - {r} == before.requests
    {
      if newHash.None? || fault == Some(3) {
        RollbackReset(r);
        return ServerError;
      }
      reply := FinishReset(r, newHash.value, fault);
    }

    /** Opens the transaction and runs the claim. */
    method OpenAndClaim(r: int, tokenHash: string, fault: Option<nat>) returns (claimed: Option<int>, reply: Reply)
      requires Sound(View()) && r !in seen
      modifies this
      ensures Sound(View()) && TablesKept(old(View()), View())
      ensures reply == Ok || reply == ServerError || reply == Waits
      ensures reply == ServerError <==> fault == Some(2)
      ensures reply == ServerError ==> requests == old(requests)
      ensures reply == Waits ==> ClaimWaits(cfg, old(View()), tokenHash) && requests - {r} == old(requests)
      ensures reply == Ok && claimed.Some? ==>
                && Claimable(cfg, old(View()), claimed.value, tokenHash, old(now)) && !RowLocked(old(View()), claimed.value)
                && requests == old(requests)[r := Claimed(claimed.value, old(resets)[claimed.value].userId)]
                && r !in old(requests)
                && var u := old(resets)[claimed.value].userId;
                   UserLocked(View(), u) == UserLocked(old(View()), u) && TokensLocked(View(), u) == TokensLocked(old(View()), u)
      ensures reply == Ok && claimed.None? ==>
                !Presentable(cfg, old(View()), tokenHash) && requests == old(requests)[r := Missed(tokenHash)]
                && r !in old(requests) && AttemptWaits(View(), tokenHash) == AttemptWaits(old(View()), tokenHash)
    {
      claimed := None;
      ghost var before := View();
      BeginReset(r, tokenHash);
      if fault == Some(2) {
        RollbackReset(r);
        return None, ServerError;
      }
      var waits;
      claimed, waits := FirstStatement(before, r, tokenHash);
      return claimed, if waits then Waits else Ok;
    }

    /** The claim of a transaction that has just begun; `before` are the tables it began on. */
    method FirstStatement(ghost before: State, r: int, tokenHash: string) returns (claimed: Option<int>, waits: bool)
      requires Sound(View()) && r !in before.requests
      requires View() == before.(requests := before.requests[r := Begun(tokenHash, before.now)], seen := before.seen + {r})
      modifies this
      ensures Sound(View()) && TablesKept(before, View())
      ensures waits ==> ClaimWaits(cfg, before, tokenHash) && requests - {r} == before.requests
      ensures !waits && claimed.Some? ==>
                && Claimable(cfg, before, claimed.value, tokenHash, before.now) && !RowLocked(before, claimed.value)
                && requests == before.requests[r := Claimed(claimed.value, before.resets[claimed.value].userId)]
                && var u := before.resets[claimed.value].userId;
                   UserLocked(View(), u) == UserLocked(before, u) && TokensLocked(View(), u) == TokensLocked(before, u)
      ensures !waits && claimed.None? ==>
                !Presentable(cfg, before, tokenHash) && requests == before.requests[r := Missed(tokenHash)]
                && AttemptWaits(View(), tokenHash) == AttemptWaits(before, tokenHash)
    {
      ghost var begun := View();
      BegunClaimable(cfg, before, begun, r, tokenHash);
      claimed, waits := ClaimToken(r);
      if waits { return None, true; }
      if claimed.Some? {
        HitFacts(cfg, before, begun, r, claimed.value, tokenHash);
      } else {
        MissFacts(cfg, before, begun, r, tokenHash);
      }
    }

    /** Nothing was claimed: the attempt is recorded outside the transaction, and a
        failure of that statement is only logged. */
    method Miss(r: int, fault: Option<nat>)
      requires Sound(View()) && r in requests && requests[r].Missed?
      modifies this
      ensures Sound(View())
      ensures var hash := old(requests)[r].tokenHash;
              if fault == Some(3) then TablesKept(old(View()), View()) && requests == old(requests) - {r}
              else if AttemptWaits(old(View()), hash) then View() == old(View())
              else TablesKept(old(View()).(resets := CountAttempt(old(resets), hash)), View()) && requests == old(requests) - {r}
    {
      if fault == Some(3) {
        RollbackReset(r);
      } else {
        var _ := RecordAttempt(r);
      }
    }

    /** The rest of a reset that holds its claim: both writes and the commit. */
    method FinishReset(r: int, newHash: string, fault: Option<nat>) returns (reply: Reply)
      requires Sound(View()) && r in requests && requests[r].Claimed?
      modifies this
      ensures Sound(View())
      ensures reply == Ok || reply == ServerError || reply == Waits
      ensures reply == Ok ==>
                var q := old(requests)[r];
                && ResetDone(old(View()).(requests := old(requests) - {r}), View(), q.row, newHash)
                && Live(View(), q.userId) == {}
      ensures reply == ServerError ==> TablesKept(old(View()), View()) && requests == old(requests) - {r}
      ensures reply == Waits ==> TablesKept(old(View()), View()) && requests - {r} == old(requests) - {r}
      ensures var s, u := old(View()), old(requests)[r].userId;
              && (reply == Ok <==> !UserLocked(s, u) && !TokensLocked(s, u) && !FaultIn(fault, 4, 5))
              && (reply == Waits <==> UserLocked(s, u) || (fault != Some(4) && TokensLocked(s, u)))
    {
      var q := requests[r];
      reply := WriteAndRevoke(r, newHash, fault);
      if reply != Ok { return; }
      if fault == Some(5) {
        RollbackReset(r);
        return ServerError;
      }
      ghost var atCommit := View();
      CommitReset(r);
      RefreshTokens.CommitLeavesUnrevoked(cfg, atCommit, r, q.userId);
    }

    method WriteAndRevoke(r: int, newHash: string, fault: Option<nat>) returns (reply: Reply)
      requires Sound(View()) && r in requests && requests[r].Claimed?
      modifies this
      ensures Sound(View()) && TablesKept(old(View()), View())
      ensures reply == Ok || reply == ServerError || reply == Waits
      ensures reply == Ok ==>
                var q := old(requests)[r];
                requests == old(requests)[r := Revoking(q.row, q.userId, newHash, TokensOf(old(View()), q.userId))]
      ensures reply == ServerError ==> requests == old(requests) - {r}
      ensures reply == Waits ==> requests - {r} == old(requests) - {r}
      ensures var s, u := old(View()), old(requests)[r].userId;
              && (reply == Ok <==> !UserLocked(s, u) && !TokensLocked(s, u) && fault != Some(4))
              && (reply == Waits <==> UserLocked(s, u) || (fault != Some(4) && TokensLocked(s, u)))
    {
      ghost var before := View();
      var waits := UpdatePassword(r, newHash);
      if waits { return Waits; }
      TokenLocksKept(before, View(), r, before.requests[r].userId);
      if fault == Some(4) {
        RollbackReset(r);
        return ServerError;
      }
      waits := RevokeTokens(r);
      if waits { return Waits; }
      return Ok;
    }
  }
}
