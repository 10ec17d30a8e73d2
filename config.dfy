/**
 * Start-up configuration of the script: the wallet list and the agent id read
 * from the environment, the decision whether the script may start, and the
 * endpoint URL and report id derived from the agent id.
 */
module Config {
  import opened Wrappers
  import opened Text

  /** The two environment variables; `None` is an unset variable. */
  datatype Env = Env(walletAddresses: Option<string>, agentId: Option<string>)

  datatype Config = Config(wallets: seq<string>, agentId: string, agentUrl: string, reportAgentId: string)

  /** What the process does instead of starting: the exit code and the two diagnostic lines. */
  datatype StartupError = MissingEnvironment(exitCode: int, diagnostics: seq<string>)

  const AGENT_URL_PREFIX := "https://deployment-"
  const AGENT_URL_SUFFIX := ".stag-vxzy.zettablock.com/main"

  /** A set, non-empty variable is truthy; an unset or empty one is not. */
  predicate Truthy(v: Option<string>) {
    v.Some? && v.value != ""
  }

  /** The wallet list: the comma-separated pieces of the variable, or none at all. */
  function WalletList(v: Option<string>): (ws: seq<string>)
    ensures |ws| == 0 <==> !Truthy(v)
    ensures Truthy(v) ==> |ws| == multiset(v.value)[','] + 1
    ensures Truthy(v) ==> Join(ws, ',') == v.value
    ensures forall i :: 0 <= i < |ws| ==> ',' !in ws[i]
  {
    if Truthy(v) then
      SplitCount(v.value, ',');
      JoinSplit(v.value, ',');
      Split(v.value, ',')
    else []
  }

  /** The agent id, lower-cased, or `None` when the variable is unset or empty. */
  function AgentId(v: Option<string>): (id: Option<string>)
    ensures id.Some? <==> Truthy(v)
    ensures id.Some? ==> id.value == ToLower(v.value) && id.value != ""
  {
    if Truthy(v) then Some(ToLower(v.value)) else None
  }

  /** The start-up guard: a non-empty wallet list and an agent id. */
  predicate StartupProceeds(wallets: seq<string>, agentId: Option<string>) {
    |wallets| > 0 && agentId.Some? && agentId.value != ""
  }

  function AgentUrl(id: string): string {
    AGENT_URL_PREFIX + id + AGENT_URL_SUFFIX
  }

  /** The `Host` header sent with every agent request. */
  function AgentHost(id: string): string {
    "deployment-" + id + ".stag-vxzy.zettablock.com"
  }

  /** The `agent_id` field of every usage report. */
  function ReportAgentId(id: string): string {
    "deployment_" + id
  }

  /** Recovers the agent id from an agent URL. */
  function AgentIdOfUrl(url: string): (id: Option<string>)
    ensures id.Some? ==> AgentUrl(id.value) == url
  {
    var p, q := |AGENT_URL_PREFIX|, |AGENT_URL_SUFFIX|;
    if |url| >= p + q && url[..p] == AGENT_URL_PREFIX && url[|url| - q..] == AGENT_URL_SUFFIX then
      var id := url[p..|url| - q];
      assert url == url[..p] + id + url[|url| - q..];
      Some(id)
    else None
  }

  /** The agent id can be read back from the URL built from it. */
  lemma AgentUrlRoundTrip(id: string)
    ensures AgentIdOfUrl(AgentUrl(id)) == Some(id)
    ensures AgentUrl(id) == "https://" + AgentHost(id) + "/main"
  {
    var url := AgentUrl(id);
    var p, q := |AGENT_URL_PREFIX|, |AGENT_URL_SUFFIX|;
    assert url[..p] == AGENT_URL_PREFIX;
    assert url[|url| - q..] == AGENT_URL_SUFFIX;
    assert url[p..|url| - q] == id;
  }

  /** Different agent ids give different URLs and different report ids. */
  lemma DerivedNamesInjective(a: string, b: string)
    requires a != b
    ensures AgentUrl(a) != AgentUrl(b)
    ensures ReportAgentId(a) != ReportAgentId(b)
  {
    AgentUrlRoundTrip(a);
    AgentUrlRoundTrip(b);
    var p := |"deployment_"|;
    assert ReportAgentId(a)[p..] == a;
    assert ReportAgentId(b)[p..] == b;
  }

  /** Reads the environment: either the configuration or the exit with code 1. */
  function Load(env: Env): (r: Result<Config, StartupError>)
    ensures r.Ok? <==> Truthy(env.walletAddresses) && Truthy(env.agentId)
    ensures r.Err? ==> r.error.exitCode == 1
    ensures r.Ok? ==>
      && |r.value.wallets| == multiset(env.walletAddresses.value)[','] + 1
      && Join(r.value.wallets, ',') == env.walletAddresses.value
      && r.value.agentId == ToLower(env.agentId.value)
      && AgentIdOfUrl(r.value.agentUrl) == Some(r.value.agentId)
      && r.value.reportAgentId == "deployment_" + r.value.agentId
  {
    var wallets := WalletList(env.walletAddresses);
    var id := AgentId(env.agentId);
    if !StartupProceeds(wallets, id) then
      Err(MissingEnvironment(1, [
        "Error: Missing required environment variables.",
        "Please ensure WALLET_ADDRESSES and AGENT_ID are set in your .env file."]))
    else
      AgentUrlRoundTrip(id.value);
      Ok(Config(wallets, id.value, AgentUrl(id.value), ReportAgentId(id.value)))
  }
}
