/**
 * The progress object the script mutates in place: a dictionary from wallet
 * to entry. Each method makes the same change to the fields that the
 * matching function of `Progress` makes to a table value.
 */
module Tracker {
  import opened Text
  import opened Progress
  import opened Frames

  class ProgressTracker {
    var order: seq<string>
    var entries: map<string, Entry>

    ghost predicate Valid()
      reads this
    {
      WellFormed(Table(order, entries))
    }

    /** The table the fields hold. */
    function Snapshot(): Table
      reads this
    {
      Table(order, entries)
    }

    /** `createProgressTracker`: one entry per wallet, added in list order. */
    constructor (wallets: seq<string>, total: nat)
      ensures Valid()
      ensures Snapshot() == Initial(wallets, total)
    {
      var keys: seq<string> := [];
      var table: map<string, Entry> := map[];
      for i := 0 to |wallets|
        invariant keys == Dedup(wallets[..i])
        invariant table == map w | w in wallets[..i] :: Entry(0, total, PROCESSING)
      {
        var w := wallets[i];
        assert wallets[..i + 1] == wallets[..i] + [w];
        if w !in table {
          keys := keys + [w];
        }
        table := table[w := Entry(0, total, PROCESSING)];
      }
      assert wallets[..|wallets|] == wallets;
      order, entries := keys, table;
    }

    /**
     * The bookkeeping of `processMessage` once the exchange is over, followed
     * by the redraw; `frame` is the text drawn.
     */
    method ProcessMessage(wallet: string, message: string, outcome: Outcome) returns (frame: string)
      requires Valid() && wallet in entries
      modifies this
      ensures Valid()
      ensures Snapshot() == AfterExchange(old(Snapshot()), wallet, message, outcome)
      ensures frame == Render(Snapshot())
    {
      match outcome {
        case Success =>
          entries := entries[wallet := entries[wallet].(completed := entries[wallet].completed + 1)];
          entries := entries[wallet := entries[wallet].(status := ProcessedStatus(message))];
        case Failure(err) =>
          entries := entries[wallet := entries[wallet].(status := ErrorStatus(err))];
      }
      frame := RenderProgress();
    }

    /** Marks a wallet whose messages are all sent, followed by the redraw. */
    method MarkCompleted(wallet: string) returns (frame: string)
      requires Valid() && wallet in entries
      modifies this
      ensures Valid()
      ensures Snapshot() == AfterCompleted(old(Snapshot()), wallet)
      ensures frame == Render(Snapshot())
    {
      entries := entries[wallet := entries[wallet].(status := COMPLETED)];
      frame := RenderProgress();
    }

    /**
     * One wallet's task: every message in order, then "Completed".
     * `outcomes[i]` is what the exchange for `messages[i]` came to; `frames`
     * are the texts drawn along the way, one per message and a last one.
     */
    method RunWallet(wallet: string, messages: seq<string>, outcomes: seq<Outcome>) returns (frames: seq<string>)
      requires Valid() && wallet in entries && |messages| == |outcomes|
      modifies this
      ensures Valid()
      ensures Snapshot() == WalletRun(old(Snapshot()), wallet, messages, outcomes)
      ensures frames == WalletFrames(old(Snapshot()), wallet, messages, outcomes)
    {
      frames := [];
      for i := 0 to |messages|
        invariant Valid() && wallet in entries
        invariant Snapshot() == Exchanges(old(Snapshot()), wallet, messages[..i], outcomes[..i])
        invariant frames == Redraws(old(Snapshot()), wallet, messages, outcomes, i)
      {
        ExchangesNext(old(Snapshot()), wallet, messages, outcomes, i);
        var frame := ProcessMessage(wallet, messages[i], outcomes[i]);
        frames := frames + [frame];
      }
      assert messages[..|messages|] == messages;
      assert outcomes[..|outcomes|] == outcomes;
      var last := MarkCompleted(wallet);
      frames := frames + [last];
    }

    /** `renderProgress`: four lines per wallet, in key order. */
    method RenderProgress() returns (output: string)
      requires Valid()
      ensures output == Render(Snapshot())
    {
      output := "";
      for i := 0 to |order|
        invariant output == RenderRows(order[..i], entries)
      {
        var wallet := order[i];
        var data := entries[wallet];
        assert order[..i + 1][..i] == order[..i];
        ghost var before := output;
        var walletLine := WALLET_LABEL + wallet + "\n";
        var progressLine := PROGRESS_LABEL + NatToString(data.completed) + "/" + NatToString(data.total) + "\n";
        var statusLine := STATUS_LABEL + data.status + "\n";
        output := output + walletLine;
        output := output + progressLine;
        output := output + statusLine;
        output := output + "\n";
        assert output == before + (walletLine + progressLine + statusLine + "\n");
      }
      assert order[..|order|] == order;
    }
  }
}
