/** The refresh handler statement by statement. It looks the presented token up,
    revokes the row it found, and inserts the new one; the revoking UPDATE does
    not ask again whether the row is still unrevoked, so requests that looked the
    same token up before its revocation all succeed. */
module RefreshRaces {
  import TokenTables
  import opened ResetProtocol
  import opened FiniteSets

  type RefreshRow = TokenTables.RefreshRow

  /** Where a refresh request stands between its statements. */
  datatype Phase = Found(token: int) | Rotated(token: int)

  /** `lookups` and `exchanges` record the tokens found and traded, in order. */
  datatype State = State(now: int, rows: map<int, RefreshRow>, next: int, open: map<int, Phase>, seen: set<int>,
                         lookups: seq<int>, exchanges: seq<int>)

  const INIT := State(0, map[], 1, map[], {}, [], [])

  /** `Revoke` is a sign-out or a committed reset; `Fail` is a request that stops. */
  datatype Step =
    | Tick(elapsed: nat)
    | Login(userId: string, tokenHash: string)
    | Revoke(tokens: set<int>)
    | Lookup(q: int, token: int, userId: string)
    | RevokeOld(q: int)
    | InsertNew(q: int, tokenHash: string)
    | Fail(q: int)

  predicate Enabled(s: State, step: Step) {
    match step
    case Lookup(q, t, u) =>
      q !in s.seen && t in s.rows && s.rows[t].userId == u && !s.rows[t].revoked && s.rows[t].expiresAt > s.now
    case RevokeOld(q) => q in s.open && s.open[q].Found?
    case InsertNew(q, _) => q in s.open && s.open[q].Rotated? && s.open[q].token in s.rows
    case Fail(q) => q in s.open
    case _ => true
  }

  function Insert(s: State, lifetime: nat, userId: string, tokenHash: string): State {
    s.(rows := s.rows[s.next := TokenTables.RefreshRow(userId, tokenHash, s.now + lifetime, false)], next := s.next + 1)
  }

  function Next(lifetime: nat, s: State, step: Step): State {
    if !Enabled(s, step) then s
    else
      match step
      case Tick(d) => s.(now := s.now + d)
      case Login(u, h) => Insert(s, lifetime, u, h)
      case Revoke(ts) => s.(rows := TokenTables.RevokeAll(s.rows, ts))
      case Lookup(q, t, _) => s.(open := s.open[q := Found(t)], seen := s.seen + {q}, lookups := s.lookups + [t])
      case RevokeOld(q) =>
        s.(rows := TokenTables.RevokeAll(s.rows, {s.open[q].token}), open := s.open[q := Rotated(s.open[q].token)])
      case InsertNew(q, h) =>
        var t := s.open[q].token;
        Insert(s, lifetime, s.rows[t].userId, h).(open := s.open - {q}, exchanges := s.exchanges + [t])
      case Fail(q) => s.(open := s.open - {q})
  }

  function Run(lifetime: nat, steps: seq<Step>): State {
    if steps == [] then INIT else Next(lifetime, Run(lifetime, steps[..|steps| - 1]), steps[|steps| - 1])
  }

  lemma RunSnoc(lifetime: nat, steps: seq<Step>, step: Step)
    ensures Run(lifetime, steps + [step]) == Next(lifetime, Run(lifetime, steps), step)
  {
    assert (steps + [step])[..|steps|] == steps;
  }

  /** Requests on their way with the token. */
  function Holding(s: State, token: int): set<int> {
    set q | q in s.open && s.open[q].token == token
  }

  /** Every exchange, and every request still on its way, had a lookup of its own. */
  ghost predicate Counted(s: State, token: int) {
    && multiset(s.exchanges)[token] + |Holding(s, token)| <= multiset(s.lookups)[token]
    && (forall q :: q in s.open ==> q in s.seen)
    && (forall t :: t in s.rows ==> t < s.next)
  }

  lemma NextHolding(lifetime: nat, s: State, step: Step, token: int)
    requires forall q :: q in s.open ==> q in s.seen
    ensures var s' := Next(lifetime, s, step);
            Holding(s', token) ==
            if !Enabled(s, step) then Holding(s, token)
            else if step.Lookup? && step.token == token then Holding(s, token) + {step.q}
            else if (step.InsertNew? || step.Fail?) && s.open[step.q].token == token then Holding(s, token) - {step.q}
            else Holding(s, token)
  {
  }

  lemma NextCounted(lifetime: nat, s: State, step: Step, token: int)
    requires Counted(s, token)
    ensures Counted(Next(lifetime, s, step), token)
  {
    NextHolding(lifetime, s, step, token);
    if step.Fail? && Enabled(s, step) {
      SubsetSize(Holding(s, token) - {step.q}, Holding(s, token));
    }
  }

  lemma {:induction false} RunCounted(lifetime: nat, steps: seq<Step>, token: int)
    ensures Counted(Run(lifetime, steps), token)
  {
    if steps == [] {
      assert Holding(INIT, token) == {};
    } else {
      RunCounted(lifetime, steps[..|steps| - 1], token);
      NextCounted(lifetime, Run(lifetime, steps[..|steps| - 1]), steps[|steps| - 1], token);
    }
  }

  predicate IsRevoked(s: State, token: int) {
    token in s.rows && s.rows[token].revoked
  }

  lemma NextRevoked(lifetime: nat, s: State, step: Step, token: int)
    requires IsRevoked(s, token) && Counted(s, token)
    ensures var s' := Next(lifetime, s, step);
            IsRevoked(s', token) && multiset(s'.lookups)[token] == multiset(s.lookups)[token]
  {
  }

  /** In every interleaving: after a token has been revoked once it is never found
      again, so however the run goes on it is exchanged at most as often as it had
      been looked up until then. */
  lemma {:induction false} ExchangesBounded(lifetime: nat, steps: seq<Step>, more: seq<Step>, token: int)
    requires IsRevoked(Run(lifetime, steps), token)
    ensures var s, later := Run(lifetime, steps), Run(lifetime, steps + more);
            && IsRevoked(later, token)
            && multiset(later.lookups)[token] == multiset(s.lookups)[token]
            && multiset(later.exchanges)[token] <= multiset(s.lookups)[token]
  {
    RunCounted(lifetime, steps + more, token);
    if more == [] {
      assert steps + more == steps;
    } else {
      var n := |more| - 1;
      ExchangesBounded(lifetime, steps, more[..n], token);
      RunCounted(lifetime, steps + more[..n], token);
      assert steps + more == steps + more[..n] + [more[n]];
      RunSnoc(lifetime, steps + more[..n], more[n]);
      NextRevoked(lifetime, Run(lifetime, steps + more[..n]), more[n], token);
    }
  }

  // ----- How often a revoked token can be exchanged -----

  /** Exchanges made so far and requests that can still make one. */
  function Potential(s: State, token: int): nat {
    multiset(s.exchanges)[token] + |Holding(s, token)|
  }

  lemma NextPotential(lifetime: nat, s: State, step: Step, token: int)
    requires IsRevoked(s, token) && Counted(s, token)
    ensures IsRevoked(Next(lifetime, s, step), token) && Potential(Next(lifetime, s, step), token) <= Potential(s, token)
  {
    NextHolding(lifetime, s, step, token);
    if (step.Fail? || step.InsertNew?) && Enabled(s, step) && s.open[step.q].token == token {
      assert step.q in Holding(s, token);
    }
  }

  lemma {:induction false} PotentialNeverRises(lifetime: nat, steps: seq<Step>, more: seq<Step>, token: int)
    requires IsRevoked(Run(lifetime, steps), token)
    ensures IsRevoked(Run(lifetime, steps + more), token)
    ensures Potential(Run(lifetime, steps + more), token) <= Potential(Run(lifetime, steps), token)
  {
    if more == [] {
      assert steps + more == steps;
    } else {
      var n := |more| - 1;
      PotentialNeverRises(lifetime, steps, more[..n], token);
      RunCounted(lifetime, steps + more[..n], token);
      assert steps + more == steps + more[..n] + [more[n]];
      RunSnoc(lifetime, steps + more[..n], more[n]);
      NextPotential(lifetime, Run(lifetime, steps + more[..n]), more[n], token);
    }
  }

  lemma FinishSteps(lifetime: nat, s: State, token: int, q: int)
    requires IsRevoked(s, token) && Counted(s, token) && q in Holding(s, token)
    ensures var s1 := if s.open[q].Found? then Next(lifetime, s, RevokeOld(q)) else s;
            var s2 := Next(lifetime, s1, InsertNew(q, ""));
            && multiset(s2.exchanges)[token] == multiset(s.exchanges)[token] + 1
            && Holding(s2, token) == Holding(s, token) - {q}
            && s2.rows == s1.rows[s.next := TokenTables.RefreshRow(s.rows[token].userId, "", s.now + lifetime, false)]
  {
    var s1 := if s.open[q].Found? then Next(lifetime, s, RevokeOld(q)) else s;
    NextHolding(lifetime, s, RevokeOld(q), token);
    NextHolding(lifetime, s1, InsertNew(q, ""), token);
  }

  /** A request on its way with the token can finish. */
  lemma FinishOne(lifetime: nat, steps: seq<Step>, token: int, q: int) returns (more: seq<Step>)
    requires IsRevoked(Run(lifetime, steps), token) && q in Holding(Run(lifetime, steps), token)
    ensures var s, s' := Run(lifetime, steps), Run(lifetime, steps + more);
            && multiset(s'.exchanges)[token] == multiset(s.exchanges)[token] + 1
            && Holding(s', token) == Holding(s, token) - {q}
            && s.next in s'.rows && s'.rows[s.next].userId == s.rows[token].userId && !s'.rows[s.next].revoked
            && forall i :: 0 <= i < |more| ==> !more[i].Login?
  {
    var s := Run(lifetime, steps);
    RunCounted(lifetime, steps, token);
    FinishSteps(lifetime, s, token, q);
    if s.open[q].Found? {
      more := [RevokeOld(q), InsertNew(q, "")];
      assert steps + more == steps + [RevokeOld(q)] + [InsertNew(q, "")];
      RunSnoc(lifetime, steps, RevokeOld(q));
      RunSnoc(lifetime, steps + [RevokeOld(q)], InsertNew(q, ""));
    } else {
      more := [InsertNew(q, "")];
      RunSnoc(lifetime, steps, InsertNew(q, ""));
    }
  }

  lemma {:induction false} FinishAll(lifetime: nat, steps: seq<Step>, token: int) returns (more: seq<Step>)
    requires IsRevoked(Run(lifetime, steps), token)
    ensures multiset(Run(lifetime, steps + more).exchanges)[token] == Potential(Run(lifetime, steps), token)
    decreases |Holding(Run(lifetime, steps), token)|
  {
    var s := Run(lifetime, steps);
    if q :| q in s.open && s.open[q].token == token {
      var first := FinishOne(lifetime, steps, token, q);
      PotentialNeverRises(lifetime, steps, first, token);
      var rest := FinishAll(lifetime, steps + first, token);
      more := first + rest;
      assert steps + more == steps + first + rest;
    } else {
      more := [];
      assert forall r :: r !in Holding(s, token);
      assert Holding(s, token) == {} && steps + more == steps;
    }
  }

  ghost predicate ExchangedAtMost(lifetime: nat, steps: seq<Step>, token: int, bound: int) {
    forall more :: multiset(Run(lifetime, steps + more).exchanges)[token] <= bound
  }

  /** The exact bound: once a token is revoked, a number bounds its exchanges however
      the run goes on if and only if it is at least the exchanges made so far plus
      the requests then on their way with it. In particular no run exchanges the
      token twice if and only if that sum is at most one. */
  lemma ExactExchanges(lifetime: nat, steps: seq<Step>, token: int, bound: int)
    requires IsRevoked(Run(lifetime, steps), token)
    ensures ExchangedAtMost(lifetime, steps, token, bound) <==> Potential(Run(lifetime, steps), token) <= bound
  {
    if Potential(Run(lifetime, steps), token) <= bound {
      forall more ensures multiset(Run(lifetime, steps + more).exchanges)[token] <= bound {
        PotentialNeverRises(lifetime, steps, more, token);
      }
    } else {
      var more := FinishAll(lifetime, steps, token);
      assert multiset(Run(lifetime, steps + more).exchanges)[token] > bound;
    }
  }

  // ----- Signed out for good -----

  /** Requests on their way with a token of the user. */
  function OnTheirWay(s: State, userId: string): set<int> {
    set q | q in s.open && s.open[q].token in s.rows && s.rows[s.open[q].token].userId == userId
  }

  predicate AllRevoked(s: State, userId: string) {
    forall t :: t in s.rows && s.rows[t].userId == userId ==> s.rows[t].revoked
  }

  ghost predicate NoLogin(steps: seq<Step>, userId: string) {
    forall i :: 0 <= i < |steps| && steps[i].Login? ==> steps[i].userId != userId
  }

  /** What Counted says of the keys, and that requests hold stored tokens. */
  ghost predicate Stored(s: State) {
    && (forall t :: t in s.rows ==> t < s.next)
    && (forall q :: q in s.open ==> s.open[q].token in s.rows)
  }

  lemma NextStored(lifetime: nat, s: State, step: Step)
    requires Stored(s)
    ensures Stored(Next(lifetime, s, step))
  {
  }

  lemma {:induction false} RunStored(lifetime: nat, steps: seq<Step>)
    ensures Stored(Run(lifetime, steps))
  {
    if steps != [] {
      RunStored(lifetime, steps[..|steps| - 1]);
      NextStored(lifetime, Run(lifetime, steps[..|steps| - 1]), steps[|steps| - 1]);
    }
  }

  lemma NextSignedOut(lifetime: nat, s: State, step: Step, userId: string)
    requires Stored(s) && AllRevoked(s, userId) && OnTheirWay(s, userId) == {}
    requires step.Login? ==> step.userId != userId
    ensures AllRevoked(Next(lifetime, s, step), userId) && OnTheirWay(Next(lifetime, s, step), userId) == {}
  {
    var s' := Next(lifetime, s, step);
    forall q | q in s'.open ensures s'.rows[s'.open[q].token].userId != userId {
      assert q in s.open ==> q !in OnTheirWay(s, userId);
    }
    if step.InsertNew? && Enabled(s, step) {
      assert step.q !in OnTheirWay(s, userId);
    }
  }

  lemma {:induction false} StaysSignedOut(lifetime: nat, steps: seq<Step>, more: seq<Step>, userId: string)
    requires AllRevoked(Run(lifetime, steps), userId) && OnTheirWay(Run(lifetime, steps), userId) == {} && NoLogin(more, userId)
    ensures AllRevoked(Run(lifetime, steps + more), userId) && OnTheirWay(Run(lifetime, steps + more), userId) == {}
  {
    if more == [] {
      assert steps + more == steps;
    } else {
      var n := |more| - 1;
      StaysSignedOut(lifetime, steps, more[..n], userId);
      RunStored(lifetime, steps + more[..n]);
      assert steps + more == steps + more[..n] + [more[n]];
      RunSnoc(lifetime, steps + more[..n], more[n]);
      NextSignedOut(lifetime, Run(lifetime, steps + more[..n]), more[n], userId);
    }
  }

  ghost predicate SignedOutForGood(lifetime: nat, steps: seq<Step>, userId: string) {
    forall more :: NoLogin(more, userId) ==> AllRevoked(Run(lifetime, steps + more), userId)
  }

  /** When a reset has revoked all tokens of a user, no session of the user can come
      back without a new login if and only if no refresh is on its way that had
      looked up one of these tokens before. */
  lemma SignedOutForGoodIff(lifetime: nat, steps: seq<Step>, userId: string)
    requires AllRevoked(Run(lifetime, steps), userId)
    ensures SignedOutForGood(lifetime, steps, userId) <==> OnTheirWay(Run(lifetime, steps), userId) == {}
  {
    var s := Run(lifetime, steps);
    if q :| q in s.open && s.open[q].token in s.rows && s.rows[s.open[q].token].userId == userId {
      assert q in OnTheirWay(s, userId);
      var more := FinishOne(lifetime, steps, s.open[q].token, q);
      assert NoLogin(more, userId) && !AllRevoked(Run(lifetime, steps + more), userId);
    } else {
      assert forall r :: r !in OnTheirWay(s, userId);
      assert OnTheirWay(s, userId) == {};
      forall more | NoLogin(more, userId) ensures AllRevoked(Run(lifetime, steps + more), userId) {
        StaysSignedOut(lifetime, steps, more, userId);
      }
    }
  }

  /** Run without another step in between, the three statements are the atomic
      refresh of `TokenTables`. */
  lemma UninterruptedIsAtomic(cfg: TokenTables.Config, t: TokenTables.State, s: State, q: int, token: int, userId: string,
                              newHash: string)
    requires Keys(t) && s.rows == t.refresh && s.next == t.nextRefresh && s.now == t.now && q !in s.seen
    requires TokenTables.Enabled(cfg, t, TokenTables.Refresh(userId, token, newHash))
    ensures var s1 := Next(cfg.refreshLifetime, s, Lookup(q, token, userId));
            var s2 := Next(cfg.refreshLifetime, s1, RevokeOld(q));
            var s3 := Next(cfg.refreshLifetime, s2, InsertNew(q, newHash));
            var t' := TokenTables.Apply(cfg, t, TokenTables.Refresh(userId, token, newHash));
            s3.rows == t'.refresh && s3.next == t'.nextRefresh && s3.exchanges == s.exchanges + [token]
  {
  }

  // ----- The bound is reached -----

  /** Two requests look the same token up before either revokes it. */
  function TwoRequests(): seq<Step> {
    [Login("u", "k"), Lookup(1, 1, "u"), Lookup(2, 1, "u"), RevokeOld(1), RevokeOld(2), InsertNew(1, "a"), InsertNew(2, "b")]
  }

  function Row(tokenHash: string, lifetime: nat, revoked: bool): RefreshRow {
    TokenTables.RefreshRow("u", tokenHash, lifetime, revoked)
  }

  lemma BothFind(lifetime: nat)
    requires lifetime > 0
    ensures Run(lifetime, TwoRequests()[..3])
            == State(0, map[1 := Row("k", lifetime, false)], 2, map[1 := Found(1), 2 := Found(1)], {1, 2}, [1, 1], [])
  {
    var steps := TwoRequests();
    assert Run(lifetime, []) == INIT;
    assert steps[..1] == [] + [steps[0]] && steps[..2] == steps[..1] + [steps[1]] && steps[..3] == steps[..2] + [steps[2]];
    RunSnoc(lifetime, [], steps[0]);
    RunSnoc(lifetime, steps[..1], steps[1]);
    RunSnoc(lifetime, steps[..2], steps[2]);
  }

  lemma BothRotate(lifetime: nat)
    requires lifetime > 0
    ensures Run(lifetime, TwoRequests()[..5])
            == State(0, map[1 := Row("k", lifetime, true)], 2, map[1 := Rotated(1), 2 := Rotated(1)], {1, 2}, [1, 1], [])
  {
    var steps := TwoRequests();
    BothFind(lifetime);
    assert steps[..4] == steps[..3] + [steps[3]] && steps[..5] == steps[..4] + [steps[4]];
    RunSnoc(lifetime, steps[..3], steps[3]);
    RunSnoc(lifetime, steps[..4], steps[4]);
  }

  /** One token is exchanged twice, and the user ends with two live tokens. */
  lemma ExchangedTwice(lifetime: nat)
    requires lifetime > 0
    ensures var s := Run(lifetime, TwoRequests());
            && s.exchanges == [1, 1]
            && s.rows == map[1 := Row("k", lifetime, true), 2 := Row("a", lifetime, false), 3 := Row("b", lifetime, false)]
  {
    var steps := TwoRequests();
    BothRotate(lifetime);
    assert steps[..6] == steps[..5] + [steps[5]] && steps == steps[..6] + [steps[6]];
    RunSnoc(lifetime, steps[..5], steps[5]);
    RunSnoc(lifetime, steps[..6], steps[6]);
  }
}
