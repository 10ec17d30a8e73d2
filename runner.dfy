/**
 * One run of the script: read the configuration, build the progress table,
 * run every wallet's task over the messages, and draw the table as it changes.
 * The wallets' tasks run one after another here. For distinct wallet
 * addresses `Interleaving.InterleaveComplete` proves that any interleaving of
 * the concurrent tasks' steps leaves the same table, and
 * `Interleaving.InterleaveBounded` that every table drawn along the way keeps
 * each count within its total; the order of the redraws and the tables drawn
 * while several tasks are mid-way are not what `RunCycle` returns.
 */
module Runner {
  import opened Wrappers
  import opened Text
  import opened Progress
  import opened Tracker
  import opened Frames
  import Config

  /**
   * `runScript` up to the countdown. `outcomes[i][k]` is what the exchange of
   * wallet `wallets[i]` with message `messages[k]` came to. `frames` holds
   * every text drawn: one at the start, then one per exchange and one per
   * finished wallet.
   */
  method RunCycle(wallets: seq<string>, messages: seq<string>, outcomes: seq<seq<Outcome>>)
    returns (tracker: ProgressTracker, frames: seq<string>)
    requires Shaped(wallets, messages, outcomes)
    ensures fresh(tracker) && tracker.Valid()
    ensures tracker.Snapshot() == Cycle(wallets, messages, outcomes)
    ensures frames == CycleFrames(wallets, messages, outcomes)
    ensures |frames| == FrameCount(|wallets|, |messages|)
    ensures frames[0] == Render(Initial(wallets, |messages|))
    ensures Last(frames) == Render(tracker.Snapshot())
    ensures forall j :: 0 <= j < |frames| ==> frames[j] == Render(FrameTable(wallets, messages, outcomes, j))
  {
    tracker := new ProgressTracker(wallets, |messages|);
    var first := tracker.RenderProgress();
    frames := [first];
    ghost var start := tracker.Snapshot();
    BeforeAll(wallets, messages, outcomes);
    BeforeFirst(start, wallets, messages, outcomes);
    for i := 0 to |wallets|
      invariant tracker.Valid()
      invariant tracker.Snapshot() == Before(start, wallets, messages, outcomes, i)
      invariant frames == [first] + TaskFrames(start, wallets, messages, outcomes, i)
    {
      BeforeNext(start, wallets, messages, outcomes, i);
      var more := tracker.RunWallet(wallets[i], messages, outcomes[i]);
      TaskFramesNext(start, wallets, messages, outcomes, i, first);
      frames := frames + more;
    }
    CycleFramesEnds(wallets, messages, outcomes);
    forall j | 0 <= j < |frames|
      ensures frames[j] == Render(FrameTable(wallets, messages, outcomes, j))
    {
      CycleFramesShow(wallets, messages, outcomes, j);
    }
  }

  /** A run either stops at start-up with the configuration error or leaves the cycle's table. */
  method Start(env: Config.Env, messages: seq<string>, outcomes: seq<seq<Outcome>>)
    returns (r: Result<Table, Config.StartupError>)
    requires Shaped(Config.WalletList(env.walletAddresses), messages, outcomes)
    ensures r.Err? <==> !(Config.Truthy(env.walletAddresses) && Config.Truthy(env.agentId))
    ensures r.Err? ==> r.error.exitCode == 1
    ensures r.Ok? ==> r.value == Cycle(Config.WalletList(env.walletAddresses), messages, outcomes)
  {
    var config := Config.Load(env);
    if config.Err? {
      return Err(config.error);
    }
    var tracker, frames := RunCycle(config.value.wallets, messages, outcomes);
    return Ok(tracker.Snapshot());
  }
}
