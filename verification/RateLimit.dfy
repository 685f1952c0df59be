/** The sliding-window limit on reset requests, checked at insertion only. */
module RateLimit {
  import opened TokenTables
  import opened ResetProtocol
  import opened FiniteSets

  function Bound(cfg: Config): nat {
    if cfg.rateMax > 0 then cfg.rateMax else 0
  }

  ghost predicate CreatedInPast(s: State) {
    forall i :: i in s.resets ==> s.resets[i].createdAt <= s.now
  }

  ghost predicate Limited(cfg: Config, s: State) {
    forall u, t :: |CreatedIn(s, u, t, cfg.rateWindow)| <= Bound(cfg)
  }

  /** A new row counts in a window only if the window reaches up to now, and then
      everything else in it was already counted by the check. */
  lemma ForgotLimited(cfg: Config, s: State, step: Step, u: string, t: int)
    requires Keys(s) && CreatedInPast(s) && step.Forgot? && Enabled(cfg, s, step)
    requires |CreatedIn(s, u, t, cfg.rateWindow)| <= Bound(cfg)
    ensures |CreatedIn(Apply(cfg, s, step), u, t, cfg.rateWindow)| <= Bound(cfg)
  {
    var s', w := Apply(cfg, s, step), cfg.rateWindow;
    if u == step.userId && t - w < s.now <= t {
      assert CreatedIn(s', u, t, w) == CreatedIn(s, u, t, w) + {s.nextReset};
      assert CreatedIn(s, u, t, w) <= Recent(s, u, w);
      SubsetSize(CreatedIn(s, u, t, w), Recent(s, u, w));
    } else {
      assert CreatedIn(s', u, t, w) == CreatedIn(s, u, t, w);
    }
  }

  lemma OtherLimited(cfg: Config, s: State, step: Step, u: string, t: int)
    requires Keys(s) && !step.Forgot?
    ensures CreatedIn(Next(cfg, s, step), u, t, cfg.rateWindow) == CreatedIn(s, u, t, cfg.rateWindow)
  {
  }

  lemma NextCreatedInPast(cfg: Config, s: State, step: Step)
    requires CreatedInPast(s)
    ensures CreatedInPast(Next(cfg, s, step))
  {
  }

  /** With each forgot request one step and a clock that never goes back, at every
      instant t, not only at insertions, each user has at most max(0, max_requests)
      rows created in the window of the configured width that ends at t. */
  lemma {:induction false} WindowNeverExceeds(cfg: Config, steps: seq<Step>, u: string, t: int)
    ensures CreatedInPast(Run(cfg, steps))
    ensures |CreatedIn(Run(cfg, steps), u, t, cfg.rateWindow)| <= Bound(cfg)
  {
    if steps == [] {
      assert CreatedIn(INIT, u, t, cfg.rateWindow) == {};
    } else {
      var s, step := Run(cfg, steps[..|steps| - 1]), steps[|steps| - 1];
      WindowNeverExceeds(cfg, steps[..|steps| - 1], u, t);
      RunSafe(cfg, steps[..|steps| - 1]);
      NextCreatedInPast(cfg, s, step);
      if step.Forgot? && Enabled(cfg, s, step) {
        ForgotLimited(cfg, s, step, u, t);
      } else if !step.Forgot? {
        OtherLimited(cfg, s, step, u, t);
      }
    }
  }

  /** The headline: every reachable state respects the limit, for all users and
      all instants at once. */
  lemma RunLimited(cfg: Config, steps: seq<Step>)
    ensures Limited(cfg, Run(cfg, steps))
  {
    forall u, t ensures |CreatedIn(Run(cfg, steps), u, t, cfg.rateWindow)| <= Bound(cfg) {
      WindowNeverExceeds(cfg, steps, u, t);
    }
  }
}
