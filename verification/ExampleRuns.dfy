/** Small concrete runs of the token tables: user "u" registers with password hash
    "p" and asks for the reset token "t" at time 0. */
module ExampleRuns {
  import opened TokenTables
  import opened ResetProtocol

  function AskForToken(): seq<Step> {
    [Register("u", "p"), Forgot("u", "t")]
  }

  /** The state after asking, and with request 1 open. */
  function WithToken(cfg: Config): State {
    INIT.(passwords := map["u" := "p"], resets := map[1 := ResetRow("u", "t", 0, cfg.tokenLifetime, false, 0)],
          nextReset := 2)
  }

  function WithRequest(cfg: Config, request: Request): State {
    WithToken(cfg).(requests := map[1 := request], seen := {1})
  }

  /** The settings under which tokens are issued and can be used. */
  predicate Usable(cfg: Config) {
    Known(cfg) && cfg.maxAttempts > 0 && cfg.rateMax > 0 && cfg.tokenLifetime > 0
  }

  lemma RunPrefix(cfg: Config, steps: seq<Step>, k: nat)
    requires k < |steps|
    ensures Run(cfg, steps[..k + 1]) == Next(cfg, Run(cfg, steps[..k]), steps[k])
  {
    assert steps[..k + 1] == steps[..k] + [steps[k]];
    RunSnoc(cfg, steps[..k], steps[k]);
  }

  lemma TokenIssued(cfg: Config)
    requires cfg.rateMax > 0
    ensures Next(cfg, Next(cfg, INIT, Register("u", "p")), Forgot("u", "t")) == WithToken(cfg)
  {
    var s := Next(cfg, INIT, Register("u", "p"));
    assert s == INIT.(passwords := map["u" := "p"]);
    assert Recent(s, "u", cfg.rateWindow) == {};
  }

  lemma Asked(cfg: Config, steps: seq<Step>)
    requires cfg.rateMax > 0 && |steps| >= 2 && steps[..2] == AskForToken()
    ensures Run(cfg, steps[..2]) == WithToken(cfg)
  {
    assert steps[0] == steps[..2][0] && steps[1] == steps[..2][1];
    assert Run(cfg, steps[..0]) == INIT;
    RunPrefix(cfg, steps, 0);
    RunPrefix(cfg, steps, 1);
    TokenIssued(cfg);
  }
}
