/**
 * The concurrent cycle. `Promise.all` starts one task per wallet, and the
 * tasks' steps (an exchange, or the final "Completed" stamp) reach the shared
 * table in whatever order their HTTP calls finish. A schedule names, step by
 * step, the task that moves next; every table the script draws is the table
 * some prefix of the schedule leaves. With distinct wallets each entry is
 * exactly what its own task alone makes of it, so every such table keeps each
 * count within its total, and a finished schedule leaves the table of the
 * sequential cycle.
 */
module Interleaving {
  import opened Progress
  import opened Frames

  /** How many steps task `i` has taken in `sched`. */
  function Taken(sched: seq<nat>, i: nat): (n: nat)
    ensures n <= |sched|
  {
    if sched == [] then 0
    else Taken(sched[..|sched| - 1], i) + (if sched[|sched| - 1] == i then 1 else 0)
  }

  /**
   * An order in which the tasks of `wallets` wallets move: every entry names a
   * task, and no task moves once it has made its `messages` exchanges and its
   * "Completed" stamp.
   */
  predicate Schedule(sched: seq<nat>, wallets: nat, messages: nat) {
    forall k :: 0 <= k < |sched| ==> sched[k] < wallets && Taken(sched[..k], sched[k]) <= messages
  }

  /** Step `c` of a task: exchange `c` while messages remain, then the "Completed" stamp. */
  function TaskStep(messages: seq<string>, outcomes: seq<Outcome>, c: nat): (s: Step)
    requires |outcomes| == |messages| && c <= |messages|
    ensures s.Finish? <==> c == |messages|
    ensures s.Exchange? ==> s == Exchange(messages[c], outcomes[c])
  {
    if c < |messages| then Exchange(messages[c], outcomes[c]) else Finish
  }

  lemma ScheduleInit(sched: seq<nat>, wallets: nat, messages: nat)
    requires Schedule(sched, wallets, messages) && sched != []
    ensures Schedule(sched[..|sched| - 1], wallets, messages)
    ensures sched[|sched| - 1] < wallets && Taken(sched[..|sched| - 1], sched[|sched| - 1]) <= messages
  {
    var p := sched[..|sched| - 1];
    forall k | 0 <= k < |p|
      ensures p[k] < wallets && Taken(p[..k], p[k]) <= messages
    {
      assert p[..k] == sched[..k];
    }
  }

  /** The table the steps of `sched` leave, each applied to the wallet of the task that took it. */
  function Interleave(t: Table, ws: seq<string>, messages: seq<string>, outcomes: seq<seq<Outcome>>, sched: seq<nat>): (r: Table)
    requires Shaped(ws, messages, outcomes) && Covers(t, ws) && Schedule(sched, |ws|, |messages|)
    ensures r.order == t.order && r.entries.Keys == t.entries.Keys
  {
    if sched == [] then t
    else
      var n := |sched| - 1;
      ScheduleInit(sched, |ws|, |messages|);
      var i := sched[n];
      ApplyStep(Interleave(t, ws, messages, outcomes, sched[..n]), ws[i], TaskStep(messages, outcomes[i], Taken(sched[..n], i)))
  }

  /** The table one task makes of `t` on its own after `c` of its steps. */
  function Solo(t: Table, w: string, messages: seq<string>, outcomes: seq<Outcome>, c: nat): (r: Table)
    requires w in t.entries && |messages| == |outcomes| && c <= |messages| + 1
    ensures r.order == t.order && r.entries.Keys == t.entries.Keys
  {
    if c <= |messages| then Exchanges(t, w, messages[..c], outcomes[..c])
    else WalletRun(t, w, messages, outcomes)
  }

  /** A step changes its wallet's entry in a way that depends on that entry alone. */
  lemma StepLocal(t: Table, u: Table, w: string, s: Step)
    requires w in t.entries && w in u.entries && t.entries[w] == u.entries[w]
    ensures ApplyStep(t, w, s).entries[w] == ApplyStep(u, w, s).entries[w]
  {
  }

  /** Step `c` of a task turns its solo table after `c` steps into the one after `c + 1`. */
  lemma SoloNext(t: Table, w: string, messages: seq<string>, outcomes: seq<Outcome>, c: nat)
    requires w in t.entries && |messages| == |outcomes| && c <= |messages|
    ensures Solo(t, w, messages, outcomes, c + 1) == ApplyStep(Solo(t, w, messages, outcomes, c), w, TaskStep(messages, outcomes, c))
  {
    if c < |messages| {
      ExchangesNext(t, w, messages, outcomes, c);
    } else {
      assert messages[..c] == messages && outcomes[..c] == outcomes;
    }
  }

  /**
   * With distinct wallets, whatever the order of the steps, each wallet's
   * entry is the one its own task would have made alone after the steps it
   * has taken, of which there are at most its messages and the stamp.
   */
  lemma {:induction false} InterleaveEntry(t: Table, ws: seq<string>, messages: seq<string>, outcomes: seq<seq<Outcome>>, sched: seq<nat>, i: nat)
    requires Shaped(ws, messages, outcomes) && Covers(t, ws) && Schedule(sched, |ws|, |messages|)
    requires Distinct(ws) && i < |ws|
    ensures Taken(sched, i) <= |messages| + 1
    ensures Interleave(t, ws, messages, outcomes, sched).entries[ws[i]]
         == Solo(t, ws[i], messages, outcomes[i], Taken(sched, i)).entries[ws[i]]
  {
    if sched != [] {
      var n := |sched| - 1;
      var p := sched[..n];
      var j := sched[n];
      ScheduleInit(sched, |ws|, |messages|);
      InterleaveEntry(t, ws, messages, outcomes, p, i);
      var before := Interleave(t, ws, messages, outcomes, p);
      var s := TaskStep(messages, outcomes[j], Taken(p, j));
      assert Interleave(t, ws, messages, outcomes, sched) == ApplyStep(before, ws[j], s);
      if j == i {
        SoloNext(t, ws[i], messages, outcomes[i], Taken(p, i));
        StepLocal(before, Solo(t, ws[i], messages, outcomes[i], Taken(p, i)), ws[i], s);
      } else {
        assert ws[j] != ws[i];
      }
    }
  }

  /**
   * With distinct wallets, every table the concurrent tasks can draw, in any
   * order of their steps, keeps each count within its total.
   */
  lemma InterleaveBounded(ws: seq<string>, messages: seq<string>, outcomes: seq<seq<Outcome>>, sched: seq<nat>)
    requires Shaped(ws, messages, outcomes) && Distinct(ws) && Schedule(sched, |ws|, |messages|)
    ensures Covers(Initial(ws, |messages|), ws)
    ensures Bounded(Interleave(Initial(ws, |messages|), ws, messages, outcomes, sched))
  {
    var t := Initial(ws, |messages|);
    assert forall j :: 0 <= j < |ws| ==> ws[j] in ws;
    var r := Interleave(t, ws, messages, outcomes, sched);
    forall w | w in r.entries
      ensures r.entries[w].completed <= r.entries[w].total
    {
      var i :| 0 <= i < |ws| && ws[i] == w;
      InterleaveEntry(t, ws, messages, outcomes, sched, i);
      var c := Taken(sched, i);
      if c <= |messages| {
        ExchangesEffect(t, w, messages[..c], outcomes[i][..c]);
      } else {
        WalletRunEffect(t, w, messages, outcomes[i]);
      }
    }
  }

  /**
   * With distinct wallets, once every task has taken all its steps, in any
   * order, the table is the one the tasks leave when run one after another.
   */
  lemma InterleaveComplete(ws: seq<string>, messages: seq<string>, outcomes: seq<seq<Outcome>>, sched: seq<nat>)
    requires Shaped(ws, messages, outcomes) && Distinct(ws) && Schedule(sched, |ws|, |messages|)
    requires forall i :: 0 <= i < |ws| ==> Taken(sched, i) == |messages| + 1
    ensures Covers(Initial(ws, |messages|), ws)
    ensures Interleave(Initial(ws, |messages|), ws, messages, outcomes, sched) == Cycle(ws, messages, outcomes)
  {
    var t := Initial(ws, |messages|);
    assert forall j :: 0 <= j < |ws| ==> ws[j] in ws;
    var r := Interleave(t, ws, messages, outcomes, sched);
    var c := Cycle(ws, messages, outcomes);
    forall w | w in r.entries
      ensures r.entries[w] == c.entries[w]
    {
      var i :| 0 <= i < |ws| && ws[i] == w;
      CompleteEntry(ws, messages, outcomes, sched, i);
    }
    assert r.entries == c.entries;
  }

  /** The entry of wallet `i` once its task has taken all its steps is the one the sequential cycle leaves. */
  lemma CompleteEntry(ws: seq<string>, messages: seq<string>, outcomes: seq<seq<Outcome>>, sched: seq<nat>, i: nat)
    requires Shaped(ws, messages, outcomes) && Distinct(ws) && Schedule(sched, |ws|, |messages|)
    requires i < |ws| && Taken(sched, i) == |messages| + 1
    ensures Covers(Initial(ws, |messages|), ws)
    ensures Interleave(Initial(ws, |messages|), ws, messages, outcomes, sched).entries[ws[i]]
         == Cycle(ws, messages, outcomes).entries[ws[i]]
  {
    var t := Initial(ws, |messages|);
    assert forall j :: 0 <= j < |ws| ==> ws[j] in ws;
    InterleaveEntry(t, ws, messages, outcomes, sched, i);
    WalletRunEffect(t, ws[i], messages, outcomes[i]);
    CycleDistinct(ws, messages, outcomes, i);
  }

  /** The two tasks of two wallets with two messages each, taking turns. */
  lemma TakingTurnsSchedule()
    ensures Schedule([0, 1, 0, 1, 0, 1], 2, 2) && Schedule([0, 1], 2, 2)
    ensures Taken([0, 1, 0, 1, 0, 1], 0) == 3 && Taken([0, 1, 0, 1, 0, 1], 1) == 3
    ensures Taken([0, 1], 0) == 1 && Taken([0, 1], 1) == 1
  {
    var full: seq<nat> := [0, 1, 0, 1, 0, 1];
    forall k | 0 <= k < |full| ensures full[k] < 2 && Taken(full[..k], full[k]) <= 2 {
      TakenAlternating(k);
    }
    TakenAlternating(6);
    assert full[..6] == full;
    TakenAlternating(2);
    assert full[..2] == [0, 1];
    assert [0, 1][..0] == [] && [0, 1][..1] == [0];
  }

  /**
   * Two wallets, two messages, every exchange a success, the tasks taking
   * turns: after each task's first exchange both wallets show 1 of 2, a table
   * the sequential order never draws.
   */
  lemma ScenarioTakingTurns()
    ensures var ws, ms := ["0xAAA", "0xBBB"], ["hello", "world"];
      var os := [[Success, Success], [Success, Success]];
      && Schedule([0, 1], 2, 2)
      && Covers(Initial(ws, 2), ws)
      && Interleave(Initial(ws, 2), ws, ms, os, [0, 1]).entries["0xAAA"] == Entry(1, 2, ProcessedStatus("hello"))
      && Interleave(Initial(ws, 2), ws, ms, os, [0, 1]).entries["0xBBB"] == Entry(1, 2, ProcessedStatus("hello"))
  {
    TakingTurnsSchedule();
    FirstExchanges(["0xAAA", "0xBBB"], ["hello", "world"], [[Success, Success], [Success, Success]], [0, 1], 0);
    FirstExchanges(["0xAAA", "0xBBB"], ["hello", "world"], [[Success, Success], [Success, Success]], [0, 1], 1);
  }

  /** A task that has taken one step, a success, shows one exchange and the first message's preview. */
  lemma FirstExchanges(ws: seq<string>, messages: seq<string>, outcomes: seq<seq<Outcome>>, sched: seq<nat>, i: nat)
    requires Shaped(ws, messages, outcomes) && Distinct(ws) && Schedule(sched, |ws|, |messages|)
    requires i < |ws| && messages != [] && Taken(sched, i) == 1 && outcomes[i][0].Success?
    ensures Covers(Initial(ws, |messages|), ws)
    ensures Interleave(Initial(ws, |messages|), ws, messages, outcomes, sched).entries[ws[i]]
         == Entry(1, |messages|, ProcessedStatus(messages[0]))
  {
    var t := Initial(ws, |messages|);
    assert forall j :: 0 <= j < |ws| ==> ws[j] in ws;
    InterleaveEntry(t, ws, messages, outcomes, sched, i);
    var m, o := messages[..1], outcomes[i][..1];
    assert o[..0] == [];
    ExchangesEffect(t, ws[i], m, o);
  }

  /** The same tasks taking turns to the end leave the table of the sequential cycle. */
  lemma ScenarioTakingTurnsEnd()
    ensures var ws, ms := ["0xAAA", "0xBBB"], ["hello", "world"];
      var os := [[Success, Success], [Success, Success]];
      && Schedule([0, 1, 0, 1, 0, 1], 2, 2)
      && Covers(Initial(ws, 2), ws)
      && Interleave(Initial(ws, 2), ws, ms, os, [0, 1, 0, 1, 0, 1]) == Cycle(ws, ms, os)
  {
    var ws, ms := ["0xAAA", "0xBBB"], ["hello", "world"];
    var os := [[Success, Success], [Success, Success]];
    TakingTurnsSchedule();
    assert Distinct(ws);
    InterleaveComplete(ws, ms, os, [0, 1, 0, 1, 0, 1]);
  }

  /** In `[0, 1, 0, 1, …]` each of the two tasks has taken half of the first `k` steps, rounded. */
  lemma {:induction false} TakenAlternating(k: nat)
    requires k <= 6
    ensures var p: seq<nat> := [0, 1, 0, 1, 0, 1][..k];
      Taken(p, 0) == (k + 1) / 2 && Taken(p, 1) == k / 2
  {
    var full: seq<nat> := [0, 1, 0, 1, 0, 1];
    if k > 0 {
      TakenAlternating(k - 1);
      assert full[..k][..k - 1] == full[..k - 1];
    }
  }
}
