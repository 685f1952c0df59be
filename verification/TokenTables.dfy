/** Users, refresh tokens and password-reset tokens under interleaved requests.

    A password reset is a transaction of several statements; each statement is a
    step of its own, so the steps of any number of requests interleave freely. An
    uncommitted transaction keeps its writes to itself and holds locks on the rows
    it has written; a statement that needs a locked row waits. Committed values
    are what other requests see (PostgreSQL's READ COMMITTED).

    Login, refresh, logout and forgot requests are one atomic step each. */
module TokenTables {
  datatype ResetRow = ResetRow(userId: string, tokenHash: string, createdAt: int, expiresAt: int, used: bool, attempts: nat)

  datatype RefreshRow = RefreshRow(userId: string, tokenHash: string, expiresAt: int, revoked: bool)

  /** How far a reset request has come. NOW() is the start of its transaction. */
  datatype Request =
    | Begun(tokenHash: string, startedAt: int)
    | Missed(tokenHash: string)
    | Claimed(row: int, userId: string)
    | Updated(row: int, userId: string, newHash: string)
    | Revoking(row: int, userId: string, newHash: string, tokens: set<int>)
  {
    predicate HoldsRow() {
      Claimed? || Updated? || Revoking?
    }

    predicate HoldsUser() {
      Updated? || Revoking?
    }

    /** Presents the token and has not claimed it. */
    predicate Presents(hash: string) {
      (Begun? || Missed?) && tokenHash == hash
    }
  }

  /** The committed tables (passwords by user), the open requests, the request
      ids used so far, and a record of the token hashes that a committed reset
      or a refresh has consumed, in order. */
  datatype State = State(
    now: int,
    passwords: map<string, string>,
    resets: map<int, ResetRow>,
    refresh: map<int, RefreshRow>,
    requests: map<int, Request>,
    nextReset: int,
    nextRefresh: int,
    seen: set<int>,
    commits: seq<string>,
    exchanges: seq<string>)

  const INIT := State(0, map[], map[], map[], map[], 1, 1, {}, [], [])

  /** password_reset_* of config.json; the refresh lifetime is the literal 7 days. */
  datatype Config = Config(maxAttempts: int, tokenLifetime: int, rateWindow: int, rateMax: int, refreshLifetime: nat)

  predicate Known(cfg: Config) {
    cfg.refreshLifetime > 0
  }

  // ----- Row conditions -----

  predicate RowLocked(s: State, row: int) {
    exists r :: r in s.requests && s.requests[r].HoldsRow() && s.requests[r].row == row
  }

  predicate UserLocked(s: State, userId: string) {
    exists r :: r in s.requests && s.requests[r].HoldsUser() && s.requests[r].userId == userId
  }

  predicate TokenLocked(s: State, token: int) {
    exists r :: r in s.requests && s.requests[r].Revoking? && token in s.requests[r].tokens
  }

  /** WHERE clause of the claim. */
  predicate Claimable(cfg: Config, s: State, row: int, tokenHash: string, startedAt: int) {
    && row in s.resets && s.resets[row].tokenHash == tokenHash && !s.resets[row].used
    && s.resets[row].expiresAt > startedAt && s.resets[row].attempts < cfg.maxAttempts
  }

  function RowsOf(s: State, tokenHash: string): set<int> {
    set i | i in s.resets && s.resets[i].tokenHash == tokenHash
  }

  /** Reset rows of the user created in the half-open window (t - W, t]. */
  function CreatedIn(s: State, userId: string, t: int, window: int): set<int> {
    set i | i in s.resets && s.resets[i].userId == userId && t - window < s.resets[i].createdAt <= t
  }

  /** What the rate limit counts at insertion: rows created after NOW() - W. */
  function Recent(s: State, userId: string, window: int): set<int> {
    set i | i in s.resets && s.resets[i].userId == userId && s.resets[i].createdAt > s.now - window
  }

  predicate IsLive(s: State, token: int, userId: string) {
    && token in s.refresh && s.refresh[token].userId == userId
    && !s.refresh[token].revoked && s.refresh[token].expiresAt > s.now
  }

  function Live(s: State, userId: string): set<int> {
    set t | t in s.refresh && IsLive(s, t, userId)
  }

  function TokensOf(s: State, userId: string): set<int> {
    set t | t in s.refresh && s.refresh[t].userId == userId
  }

  /** Random tokens are fresh: no row carries the hash, no open request presents it. */
  predicate FreshReset(s: State, tokenHash: string) {
    && (forall i :: i in s.resets ==> s.resets[i].tokenHash != tokenHash)
    && (forall r :: r in s.requests ==> !s.requests[r].Presents(tokenHash))
  }

  predicate FreshRefresh(s: State, tokenHash: string) {
    forall t :: t in s.refresh ==> s.refresh[t].tokenHash != tokenHash
  }

  // ----- Steps -----

  datatype Step =
    | Tick(elapsed: nat)
    | Register(userId: string, hash: string)
    | ChangePassword(userId: string, hash: string)
    | Forgot(userId: string, tokenHash: string)
    | Login(userId: string, tokenHash: string)
    | Refresh(userId: string, token: int, newTokenHash: string)
    | Logout(tokenHash: string)
    | Begin(r: int, tokenHash: string)
    | ClaimHit(r: int, row: int)
    | ClaimMiss(r: int)
    | RecordAttempt(r: int)
    | UpdatePassword(r: int, newHash: string)
    | RevokeTokens(r: int)
    | Commit(r: int)
    | Rollback(r: int)
  {
    predicate OfRequest(id: int) {
      (Begin? || ClaimHit? || ClaimMiss? || RecordAttempt? || UpdatePassword? || RevokeTokens? || Commit? || Rollback?)
      && r == id
    }
  }

  /** The step can happen now: the request is at this statement and no row that
      the statement writes is locked by another transaction. */
  predicate Enabled(cfg: Config, s: State, step: Step) {
    match step
    case Tick(_) => true
    case Register(u, _) => u !in s.passwords
    case ChangePassword(u, _) => u in s.passwords && !UserLocked(s, u)
    case Forgot(u, h) => u in s.passwords && |Recent(s, u, cfg.rateWindow)| < cfg.rateMax && FreshReset(s, h)
    case Login(u, h) => u in s.passwords && FreshRefresh(s, h)
    case Refresh(u, t, h) => u in s.passwords && IsLive(s, t, u) && !TokenLocked(s, t) && FreshRefresh(s, h)
    case Logout(h) => forall t | t in s.refresh && s.refresh[t].tokenHash == h && !s.refresh[t].revoked :: !TokenLocked(s, t)
    case Begin(r, _) => r !in s.seen
    case ClaimHit(r, row) =>
      && r in s.requests && s.requests[r].Begun?
      && Claimable(cfg, s, row, s.requests[r].tokenHash, s.requests[r].startedAt) && !RowLocked(s, row)
    case ClaimMiss(r) =>
      && r in s.requests && s.requests[r].Begun?
      && forall i :: i in s.resets ==> !Claimable(cfg, s, i, s.requests[r].tokenHash, s.requests[r].startedAt)
    case RecordAttempt(r) =>
      && r in s.requests && s.requests[r].Missed?
      && forall i :: i in RowsOf(s, s.requests[r].tokenHash) ==> !RowLocked(s, i)
    case UpdatePassword(r, _) => r in s.requests && s.requests[r].Claimed? && !UserLocked(s, s.requests[r].userId)
    case RevokeTokens(r) =>
      && r in s.requests && s.requests[r].Updated?
      && forall t :: t in TokensOf(s, s.requests[r].userId) ==> !TokenLocked(s, t)
    case Commit(r) => r in s.requests && s.requests[r].Revoking?
    case Rollback(r) => r in s.requests
  }

  function RevokeAll(refresh: map<int, RefreshRow>, tokens: set<int>): map<int, RefreshRow> {
    map t | t in refresh :: if t in tokens then refresh[t].(revoked := true) else refresh[t]
  }

  function CountAttempt(resets: map<int, ResetRow>, tokenHash: string): map<int, ResetRow> {
    map i | i in resets ::
      if resets[i].tokenHash == tokenHash then resets[i].(attempts := resets[i].attempts + 1) else resets[i]
  }

  function InsertRefresh(cfg: Config, s: State, userId: string, tokenHash: string): State {
    s.(refresh := s.refresh[s.nextRefresh := RefreshRow(userId, tokenHash, s.now + cfg.refreshLifetime, false)],
       nextRefresh := s.nextRefresh + 1)
  }

  /** The effect of a committed reset: claim, password and revocations at once. */
  function Committed(s: State, r: int): State
    requires r in s.requests && s.requests[r].Revoking?
  {
    var q := s.requests[r];
    s.(resets := if q.row in s.resets then s.resets[q.row := s.resets[q.row].(used := true)] else s.resets,
       passwords := if q.userId in s.passwords then s.passwords[q.userId := q.newHash] else s.passwords,
       refresh := RevokeAll(s.refresh, q.tokens),
       requests := s.requests - {r},
       commits := if q.row in s.resets then s.commits + [s.resets[q.row].tokenHash] else s.commits)
  }

  function Apply(cfg: Config, s: State, step: Step): State
    requires Enabled(cfg, s, step)
  {
    match step
    case Tick(d) => s.(now := s.now + d)
    case Register(u, h) => s.(passwords := s.passwords[u := h])
    case ChangePassword(u, h) => s.(passwords := s.passwords[u := h])
    case Forgot(u, h) =>
      s.(resets := s.resets[s.nextReset := ResetRow(u, h, s.now, s.now + cfg.tokenLifetime, false, 0)],
         nextReset := s.nextReset + 1)
    case Login(u, h) => InsertRefresh(cfg, s, u, h)
    case Refresh(u, t, h) =>
      InsertRefresh(cfg, s.(refresh := RevokeAll(s.refresh, {t}), exchanges := s.exchanges + [s.refresh[t].tokenHash]), u, h)
    case Logout(h) => s.(refresh := RevokeAll(s.refresh, set t | t in s.refresh && s.refresh[t].tokenHash == h))
    case Begin(r, h) => s.(requests := s.requests[r := Begun(h, s.now)], seen := s.seen + {r})
    case ClaimHit(r, row) => s.(requests := s.requests[r := Claimed(row, s.resets[row].userId)])
    case ClaimMiss(r) => s.(requests := s.requests[r := Missed(s.requests[r].tokenHash)])
    case RecordAttempt(r) =>
      s.(resets := CountAttempt(s.resets, s.requests[r].tokenHash), requests := s.requests - {r})
    case UpdatePassword(r, h) =>
      s.(requests := s.requests[r := Updated(s.requests[r].row, s.requests[r].userId, h)])
    case RevokeTokens(r) =>
      var q := s.requests[r];
      s.(requests := s.requests[r := Revoking(q.row, q.userId, q.newHash, TokensOf(s, q.userId))])
    case Commit(r) => Committed(s, r)
    case Rollback(r) => s.(requests := s.requests - {r})
  }

  /** Any interleaving: a step that cannot happen yet leaves everything as it is. */
  function Next(cfg: Config, s: State, step: Step): State {
    if Enabled(cfg, s, step) then Apply(cfg, s, step) else s
  }

  function Run(cfg: Config, steps: seq<Step>): State {
    if steps == [] then INIT else Next(cfg, Run(cfg, steps[..|steps| - 1]), steps[|steps| - 1])
  }
}
